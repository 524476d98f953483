/** The object graph of the collector: objects, reachability, colours and the invariants that the
    colours keep (lobject.h, lgc.h). */
module GcHeap {

  type Id = nat

  /** A value: a collectable one refers to an object. */
  datatype Val = Plain(n: int) | Ref(id: Id)

  datatype NodeKind = UserData | Function | TableObject | Proto

  /** A node holds all the values that its traversal marks. An upvalue is open while its value is a
      slot of the stack of a thread. */
  datatype Obj =
    | Str
    | Node(kind: NodeKind, vals: seq<Val>)
    | Thread(gt: Val, stack: seq<Val>, openupval: seq<Id>)
    | OpenUpval(thread: Id, slot: nat)
    | ClosedUpval(v: Val)

  type Heap = map<Id, Obj>

  function SlotValue(h: Heap, t: Id, i: nat): Val {
    if t in h && h[t].Thread? && i < |h[t].stack| then h[t].stack[i] else Plain(0)
  }

  /** The values an object gives access to. */
  function Vals(h: Heap, o: Obj): seq<Val> {
    match o
    case Str => []
    case Node(_, vals) => vals
    case Thread(gt, stack, _) => [gt] + stack
    case OpenUpval(t, i) => [SlotValue(h, t, i)]
    case ClosedUpval(v) => [v]
  }

  ghost predicate Child(h: Heap, x: Id, y: Id) {
    x in h && Ref(y) in Vals(h, h[x])
  }

  /** The objects that go through the gray list when they are marked. */
  predicate Traversed(o: Obj) {
    o.Thread? || (o.Node? && o.kind != UserData)
  }

  // ---- Reachability ----

  ghost predicate Path(h: Heap, p: seq<Id>) {
    |p| > 0 && forall i | 0 <= i < |p| - 1 :: Child(h, p[i], p[i + 1])
  }

  ghost predicate Reachable(h: Heap, roots: set<Id>, x: Id) {
    exists p :: Path(h, p) && p[0] in roots && p[|p| - 1] == x
  }

  ghost predicate ChildClosed(h: Heap, S: set<Id>) {
    forall x, y | x in S && Child(h, x, y) :: y in S
  }

  lemma {:induction false} ClosedHoldsPath(h: Heap, S: set<Id>, p: seq<Id>)
    requires ChildClosed(h, S) && Path(h, p) && p[0] in S
    ensures p[|p| - 1] in S
    decreases |p|
  {
    if |p| <= 1 {
    } else {
      assert Child(h, p[0], p[1]);
      ClosedHoldsPath(h, S, p[1..]);
    }
  }

  /** A set that holds the roots and all children of its members holds everything reachable. */
  lemma {:induction false} ClosedHoldsReachable(h: Heap, roots: set<Id>, S: set<Id>, x: Id)
    requires roots <= S && ChildClosed(h, S) && Reachable(h, roots, x)
    ensures x in S
  {
    var p :| Path(h, p) && p[0] in roots && p[|p| - 1] == x;
    ClosedHoldsPath(h, S, p);
  }

  lemma RootReachable(h: Heap, roots: set<Id>, x: Id)
    requires x in roots
    ensures Reachable(h, roots, x)
  {
    assert Path(h, [x]) && [x][0] in roots;
  }

  lemma ReachableStep(h: Heap, roots: set<Id>, x: Id, y: Id)
    requires Reachable(h, roots, x) && Child(h, x, y)
    ensures Reachable(h, roots, y)
  {
    var p :| Path(h, p) && p[0] in roots && p[|p| - 1] == x;
    var q := p + [y];
    assert forall i | 0 <= i < |q| - 1 :: Child(h, q[i], q[i + 1]);
    assert Path(h, q) && q[0] in roots && q[|q| - 1] == y;
  }

  ghost function ReachSet(h: Heap, roots: set<Id>): set<Id> {
    set x | x in h && Reachable(h, roots, x)
  }

  lemma {:induction false} SamePath(h: Heap, h': Heap, roots: set<Id>, p: seq<Id>, n: nat)
    requires Path(h, p) && p[0] in roots && 0 < n <= |p|
    requires forall y | y in h && Reachable(h, roots, y) :: y in h' && Vals(h', h'[y]) == Vals(h, h[y])
    ensures Path(h', p[..n]) && Reachable(h, roots, p[n - 1])
    decreases n
  {
    if n == 1 {
      RootReachable(h, roots, p[0]);
    } else {
      SamePath(h, h', roots, p, n - 1);
      assert Child(h, p[n - 2], p[n - 1]);
      ReachableStep(h, roots, p[n - 2], p[n - 1]);
      assert Child(h', p[n - 2], p[n - 1]);
      forall i | 0 <= i < n - 1
        ensures Child(h', p[..n][i], p[..n][i + 1])
      {
        if i < n - 2 {
          assert Child(h', p[..n - 1][i], p[..n - 1][i + 1]);
        }
      }
    }
  }

  /** Heaps that agree on the values of everything reachable reach the same objects. */
  lemma {:induction false} SameReachable(h: Heap, h': Heap, roots: set<Id>, x: Id)
    requires Reachable(h, roots, x)
    requires forall y | y in h && Reachable(h, roots, y) :: y in h' && Vals(h', h'[y]) == Vals(h, h[y])
    ensures Reachable(h', roots, x)
  {
    var p :| Path(h, p) && p[0] in roots && p[|p| - 1] == x;
    SamePath(h, h', roots, p, |p|);
    assert p[..|p|] == p;
  }

  // ---- Colours ----

  datatype Color = White0 | White1 | Gray | Black

  type Colors = map<Id, Color>

  function White(w: bool): Color {
    if w then White1 else White0
  }

  predicate IsWhite(c: Color) {
    c.White0? || c.White1?
  }

  /** isdead: white of the kind that is not current. */
  predicate IsDead(c: Color, currentwhite: bool) {
    c == White(!currentwhite)
  }

  ghost predicate NoWhiteChild(h: Heap, c: Colors, x: Id) {
    forall y | Child(h, x, y) :: y in c && !IsWhite(c[y])
  }

  /** No object refers outside the heap. */
  ghost predicate Complete(h: Heap) {
    forall x, y | Child(h, x, y) :: y in h
  }

  /** Objects that are not dead refer only to such objects, all of them in the heap. */
  ghost predicate LiveClosed(h: Heap, c: Colors, currentwhite: bool) {
    forall x, y | x in h && x in c && !IsDead(c[x], currentwhite) && Child(h, x, y) ::
      y in h && y in c && !IsDead(c[y], currentwhite)
  }

  ghost predicate Distinct(s: seq<Id>) {
    forall i, j | 0 <= i < j < |s| :: s[i] != s[j]
  }

  ghost predicate BlackOk(h: Heap, c: Colors, x: Id)
    requires x in h
  {
    !h[x].Str? && !h[x].Thread? && !h[x].OpenUpval? && NoWhiteChild(h, c, x)
  }

  /** What may be gray: strings, open upvalues and what waits on one of the two lists. With `strict`
      the value of a gray upvalue is marked too. */
  ghost predicate GrayOk(h: Heap, c: Colors, gray: seq<Id>, grayagain: seq<Id>, strict: bool, x: Id)
    requires x in h
  {
    || h[x].Str?
    || (h[x].OpenUpval? && (strict ==> NoWhiteChild(h, c, x)))
    || (Traversed(h[x]) && (x in gray || x in grayagain))
  }

  ghost predicate GrayLists(h: Heap, c: Colors, gray: seq<Id>, grayagain: seq<Id>) {
    && Distinct(gray) && Distinct(grayagain)
    && (forall x | x in gray :: x !in grayagain)
    && (forall x | x in gray || x in grayagain :: x in h && x in c && c[x] == Gray && Traversed(h[x]))
  }

  /** The invariant of the propagate phase, but for the objects `exempt` that are being marked: no
      black object points to a white one, and threads, strings and open upvalues are never black. */
  ghost predicate Marking(h: Heap, c: Colors, gray: seq<Id>, grayagain: seq<Id>, exempt: set<Id>, strict: bool) {
    && c.Keys == h.Keys
    && GrayLists(h, c, gray, grayagain)
    && (forall x | x in h && x !in exempt && c[x] == Black :: BlackOk(h, c, x))
    && (forall x | x in h && x !in exempt && c[x] == Gray :: GrayOk(h, c, gray, grayagain, strict, x))
  }

  /** c' has more objects marked than c, all of the new ones from P. */
  ghost predicate MarksMore(c: Colors, c': Colors, P: set<Id>) {
    && c'.Keys == c.Keys
    && forall x | x in c :: c'[x] == c[x] || (IsWhite(c[x]) && !IsWhite(c'[x]) && x in P)
  }

  /** ... where marked objects may also change between gray and black. */
  ghost predicate Darkens(c: Colors, c': Colors, P: set<Id>) {
    && c'.Keys == c.Keys
    && forall x | x in c :: c'[x] == c[x] || (!IsWhite(c'[x]) && (IsWhite(c[x]) ==> x in P))
  }

  ghost function Whites(c: Colors): set<Id> {
    set x | x in c && IsWhite(c[x])
  }

  lemma {:induction false} SubsetSize(a: set<Id>, b: set<Id>)
    requires a <= b
    ensures |a| <= |b| && (a != b ==> |a| < |b|)
    decreases |a|
  {
    if a != {} {
      var x :| x in a;
      SubsetSize(a - {x}, b - {x});
      assert a == b <==> a - {x} == b - {x} by {
        if a - {x} == b - {x} {
          assert a == a - {x} + {x} && b == b - {x} + {x};
        }
      }
    } else if b != {} {
      var y :| y in b;
      assert |b| == |b - {y}| + 1;
    }
  }

  lemma MarksMoreWhites(c: Colors, c': Colors, P: set<Id>)
    requires MarksMore(c, c', P)
    ensures Whites(c') <= Whites(c) && |Whites(c')| <= |Whites(c)|
  {
    SubsetSize(Whites(c'), Whites(c));
  }

  lemma MarkOne(c: Colors, x: Id, k: Color)
    requires x in c && IsWhite(c[x]) && !IsWhite(k)
    ensures |Whites(c[x := k])| < |Whites(c)|
  {
    assert x in Whites(c);
    SubsetSize(Whites(c[x := k]), Whites(c));
  }

  /** A white object is marked, and then others. */
  lemma MarkedMore(c0: Colors, x: Id, k: Color, c: Colors, P: set<Id>)
    requires x in c0 && IsWhite(c0[x]) && !IsWhite(k) && x in P
    requires c == c0[x := k] || MarksMore(c0[x := k], c, P)
    ensures MarksMore(c0, c, P) && x in c && !IsWhite(c[x])
  {
  }

  lemma SameWhites(c: Colors, x: Id, k: Color)
    requires x in c && !IsWhite(c[x]) && !IsWhite(k)
    ensures Whites(c[x := k]) == Whites(c)
  {
  }

  lemma DarkensTwice(c0: Colors, c1: Colors, c2: Colors, P: set<Id>)
    requires Darkens(c0, c1, P) && Darkens(c1, c2, P)
    ensures Darkens(c0, c2, P)
  {
  }

  /** Marking starts: x leaves the whites and is exempt for now. */
  lemma Exempted(h: Heap, c: Colors, gray: seq<Id>, grayagain: seq<Id>, exempt: set<Id>, strict: bool, x: Id, k: Color)
    requires Marking(h, c, gray, grayagain, exempt, strict) && x in h && IsWhite(c[x]) && !IsWhite(k)
    ensures Marking(h, c[x := k], gray, grayagain, exempt + {x}, strict)
  {
    var c' := c[x := k];
    forall y | y in h && y !in exempt + {x} && c'[y] == Black
      ensures BlackOk(h, c', y)
    {
      assert BlackOk(h, c, y);
    }
    forall y | y in h && y !in exempt + {x} && c'[y] == Gray
      ensures GrayOk(h, c', gray, grayagain, strict, y)
    {
      assert GrayOk(h, c, gray, grayagain, strict, y);
    }
  }

  /** Marking is done: x meets the invariant with its final colour. */
  lemma Settled(h: Heap, c: Colors, gray: seq<Id>, grayagain: seq<Id>, exempt: set<Id>, strict: bool, x: Id, k: Color)
    requires Marking(h, c, gray, grayagain, exempt + {x}, strict) && x in h && !IsWhite(c[x]) && !IsWhite(k)
    requires k == Black ==> BlackOk(h, c[x := k], x) && (Traversed(h[x]) ==> c[x] == Black)
    requires k == Gray ==> GrayOk(h, c[x := k], gray, grayagain, strict, x)
    ensures Marking(h, c[x := k], gray, grayagain, exempt, strict)
  {
    var c' := c[x := k];
    forall y | y in h && y !in exempt && c'[y] == Black
      ensures BlackOk(h, c', y)
    {
      assert y != x ==> BlackOk(h, c, y);
    }
    forall y | y in h && y !in exempt && c'[y] == Gray
      ensures GrayOk(h, c', gray, grayagain, strict, y)
    {
      assert y != x ==> GrayOk(h, c, gray, grayagain, strict, y);
    }
  }

  /** A white object becomes gray and waits on the gray list. */
  lemma Queued(h: Heap, c: Colors, gray: seq<Id>, grayagain: seq<Id>, exempt: set<Id>, strict: bool, x: Id)
    requires Marking(h, c, gray, grayagain, exempt, strict) && x in h && IsWhite(c[x]) && Traversed(h[x])
    ensures Marking(h, c[x := Gray], [x] + gray, grayagain, exempt, strict)
  {
    var c', gray' := c[x := Gray], [x] + gray;
    assert forall y :: y in gray' <==> y == x || y in gray;
    forall y | y in h && y !in exempt && c'[y] == Black
      ensures BlackOk(h, c', y)
    {
      assert BlackOk(h, c, y);
    }
    forall y | y in h && y !in exempt && c'[y] == Gray
      ensures GrayOk(h, c', gray', grayagain, strict, y)
    {
      assert y != x ==> GrayOk(h, c, gray, grayagain, strict, y);
    }
  }

  lemma ChildrenIn(h: Heap, P: set<Id>, x: Id)
    requires Complete(h) && ChildClosed(h, P) && x in P && x in h
    ensures forall y | Ref(y) in Vals(h, h[x]) :: y in h && y in P
  {
    assert forall y | Ref(y) in Vals(h, h[x]) :: Child(h, x, y);
  }

  lemma AllMarked(h: Heap, c: Colors, x: Id)
    requires x in h && c.Keys == h.Keys && Complete(h)
    requires forall y | Ref(y) in Vals(h, h[x]) :: y in c && !IsWhite(c[y])
    ensures NoWhiteChild(h, c, x)
  {
  }

  lemma ColorsCover(h: Heap, c: Colors, gray: seq<Id>, grayagain: seq<Id>, exempt: set<Id>, strict: bool)
    requires Marking(h, c, gray, grayagain, exempt, strict)
    ensures c.Keys == h.Keys
  {
  }

  lemma GrayHead(h: Heap, c: Colors, gray: seq<Id>, grayagain: seq<Id>, strict: bool)
    requires Marking(h, c, gray, grayagain, {}, strict) && gray != []
    ensures gray[0] in h && gray[0] in c && c[gray[0]] == Gray && Traversed(h[gray[0]]) && c.Keys == h.Keys
    ensures gray[0] !in gray[1..] && gray[0] !in grayagain
  {
    assert gray[0] in gray;
  }

  /** A thread moves from the gray list to the other one. */
  lemma ToGrayAgain(h: Heap, c: Colors, gray: seq<Id>, grayagain: seq<Id>, strict: bool)
    requires Marking(h, c, gray, grayagain, {}, strict) && gray != []
    ensures Marking(h, c, gray[1..], [gray[0]] + grayagain, {}, strict)
  {
    var gray', again' := gray[1..], [gray[0]] + grayagain;
    assert forall y :: y in gray <==> y == gray[0] || y in gray';
    assert forall y :: y in again' <==> y == gray[0] || y in grayagain;
    GrayHead(h, c, gray, grayagain, strict);
    forall y | y in h && c[y] == Gray
      ensures GrayOk(h, c, gray', again', strict, y)
    {
      assert GrayOk(h, c, gray, grayagain, strict, y);
    }
  }

  /** The first gray object becomes black and is being traversed. */
  lemma Blackened(h: Heap, c: Colors, gray: seq<Id>, grayagain: seq<Id>, strict: bool)
    requires Marking(h, c, gray, grayagain, {}, strict) && gray != []
    ensures Marking(h, c[gray[0] := Black], gray[1..], grayagain, {gray[0]}, strict)
    ensures Whites(c[gray[0] := Black]) == Whites(c)
  {
    var x := gray[0];
    var c', gray' := c[x := Black], gray[1..];
    assert forall y :: y in gray <==> y == x || y in gray';
    forall y | y in h && y !in {x} && c'[y] == Black
      ensures BlackOk(h, c', y)
    {
      assert BlackOk(h, c, y);
    }
    forall y | y in h && y !in {x} && c'[y] == Gray
      ensures GrayOk(h, c', gray', grayagain, strict, y)
    {
      assert GrayOk(h, c, gray, grayagain, strict, y);
    }
  }

  lemma DarkensKeeps(h: Heap, c: Colors, c': Colors, P: set<Id>, ts: seq<Id>)
    requires Darkens(c, c', P)
    ensures forall t | t in ts && NoWhiteChild(h, c, t) :: NoWhiteChild(h, c', t)
  {
  }

  /** The ring of open upvalues (uvhead) has each of them once. */
  ghost predicate UpvalList(h: Heap, uvhead: seq<Id>) {
    && Distinct(uvhead)
    && (forall u | u in uvhead :: u in h && h[u].OpenUpval?)
    && (forall u | u in h && h[u].OpenUpval? :: u in uvhead)
  }

  lemma StrictBut(h: Heap, c: Colors, gray: seq<Id>, grayagain: seq<Id>, rest: set<Id>)
    requires Marking(h, c, gray, grayagain, {}, false)
    requires forall u | u in h && h[u].OpenUpval? && c[u] == Gray :: u in rest
    ensures Marking(h, c, gray, grayagain, rest, true)
  {
  }

  // ---- The lists that hold every object ----

  /** rootgc has every object but strings, open upvalues and what is being unlinked. */
  ghost predicate RootList(h: Heap, rootgc: seq<Id>, loose: set<Id>) {
    && Distinct(rootgc)
    && (forall x | x in rootgc :: x in h && !h[x].Str? && !h[x].OpenUpval? && x !in loose)
    && (forall x | x in h && !h[x].Str? && !h[x].OpenUpval? && x !in loose :: x in rootgc)
  }

  ghost predicate InBucket(strt: seq<seq<Id>>, b: int, x: Id) {
    0 <= b < |strt| && x in strt[b]
  }

  /** The buckets of the string table have every string once. */
  ghost predicate StringTable(h: Heap, strt: seq<seq<Id>>) {
    && (forall b | 0 <= b < |strt| :: Distinct(strt[b]))
    && (forall b, x | InBucket(strt, b, x) :: x in h && h[x].Str?)
    && (forall b, d, x | InBucket(strt, b, x) && InBucket(strt, d, x) :: b == d)
    && (forall x | x in h && h[x].Str? :: exists b :: InBucket(strt, b, x))
  }

  ghost function SlotOf(h: Heap, u: Id): int {
    if u in h && h[u].OpenUpval? then h[u].slot else -1
  }

  /** Topmost slot first, and at most one upvalue for a slot. */
  ghost predicate Falling(h: Heap, l: seq<Id>) {
    forall i, j | 0 <= i < j < |l| :: SlotOf(h, l[i]) > SlotOf(h, l[j])
  }

  ghost predicate AllFalling(h: Heap) {
    forall t | t in h && h[t].Thread? :: Falling(h, h[t].openupval)
  }

  /** Each open upvalue is on the list of the thread whose stack has its value, in the order of the slots. */
  ghost predicate OpenLists(h: Heap) {
    && AllFalling(h)
    && (forall t | t in h && h[t].Thread? :: Distinct(h[t].openupval))
    && (forall t, u | t in h && h[t].Thread? && u in h[t].openupval :: u in h && h[u].OpenUpval? && h[u].thread == t)
    && (forall u | u in h && h[u].OpenUpval? ::
          var t := h[u].thread; t in h && h[t].Thread? && h[u].slot < |h[t].stack| && u in h[t].openupval)
  }

  function Refs(vals: seq<Val>): set<Id> {
    set v | v in vals && v.Ref? :: v.id
  }

  /** The kind of an object: upvalues stay upvalues when they are closed. */
  function Tag(o: Obj): nat {
    match o
    case Str => 0
    case Node(UserData, _) => 1
    case Node(Function, _) => 2
    case Node(TableObject, _) => 3
    case Node(Proto, _) => 4
    case Thread(_, _, _) => 5
    case OpenUpval(_, _) => 6
    case ClosedUpval(_) => 6
  }

  /** The object x is still there and gives access to the same values; an upvalue does not open again. */
  ghost predicate SameView(h: Heap, h': Heap, x: Id) {
    && x in h && x in h' && Tag(h'[x]) == Tag(h[x]) && Vals(h', h'[x]) == Vals(h, h[x])
    && (h'[x].OpenUpval? ==> h'[x] == h[x])
  }

  /** From h to h' the collector only freed dead objects, and nothing dead came back but `fixed`. */
  ghost predicate Swept(h: Heap, c: Colors, h': Heap, c': Colors, w: bool, fixed: set<Id>) {
    && c.Keys == h.Keys && c'.Keys == h'.Keys && h'.Keys <= h.Keys
    && (forall x | x in h && !IsDead(c[x], w) :: SameView(h, h', x) && !IsDead(c'[x], w))
    && (forall x | x in h' && !IsDead(c'[x], w) :: !IsDead(c[x], w) || x in fixed)
  }

  /** A sweep brings nothing back. */
  lemma SweptDead(h: Heap, c: Colors, h': Heap, c': Colors, w: bool, fixed: set<Id>, x: Id)
    requires Swept(h, c, h', c', w, fixed) && x in h' && x !in fixed
    ensures x in c && x in c' && (IsDead(c[x], w) ==> IsDead(c'[x], w))
  {
  }

  lemma SweptTwice(h0: Heap, c0: Colors, h1: Heap, c1: Colors, h2: Heap, c2: Colors, w: bool, fixed: set<Id>)
    requires Swept(h0, c0, h1, c1, w, fixed) && Swept(h1, c1, h2, c2, w, fixed)
    ensures Swept(h0, c0, h2, c2, w, fixed)
  {
    forall x | x in h0 && !IsDead(c0[x], w)
      ensures SameView(h0, h2, x) && !IsDead(c2[x], w)
    {
      assert SameView(h0, h1, x) && SameView(h1, h2, x);
    }
  }

  /** Freeing a dead object that no open upvalue lives on. */
  lemma FreedDead(h: Heap, c: Colors, w: bool, fixed: set<Id>, x: Id)
    requires LiveClosed(h, c, w) && c.Keys == h.Keys && x in h && IsDead(c[x], w)
    requires forall u | u in h && h[u].OpenUpval? :: h[u].thread != x
    ensures LiveClosed(h - {x}, c - {x}, w) && Swept(h, c, h - {x}, c - {x}, w, fixed)
  {
    var h', c' := h - {x}, c - {x};
    forall y | y in h'
      ensures Vals(h', h'[y]) == Vals(h, h[y])
    {
    }
    forall y | y in h && !IsDead(c[y], w)
      ensures SameView(h, h', y)
    {
      assert y in h';
    }
    forall y, z | y in h' && !IsDead(c'[y], w) && Child(h', y, z)
      ensures z in h' && !IsDead(c'[z], w)
    {
      assert Child(h, y, z);
    }
  }

  /** Making a live or childless object white. */
  lemma MadeWhite(h: Heap, c: Colors, w: bool, fixed: set<Id>, x: Id)
    requires LiveClosed(h, c, w) && c.Keys == h.Keys && x in h
    requires IsDead(c[x], w) ==> h[x].Str? && x in fixed
    ensures LiveClosed(h, c[x := White(w)], w) && Swept(h, c, h, c[x := White(w)], w, fixed)
  {
  }

  function Without(s: seq<Id>, i: nat): seq<Id>
    requires i < |s|
  {
    s[..i] + s[i + 1..]
  }

  lemma WithoutOne(s: seq<Id>, i: nat)
    requires Distinct(s) && i < |s|
    ensures Distinct(Without(s, i)) && forall x :: x in Without(s, i) <==> x in s && x != s[i]
  {
    var r := Without(s, i);
    assert forall j | 0 <= j < |r| :: r[j] == s[if j < i then j else j + 1];
    forall x | x in s && x != s[i]
      ensures x in r
    {
      var j :| 0 <= j < |s| && s[j] == x;
      assert r[if j < i then j else j - 1] == x;
    }
  }

  /** A string leaves its bucket and the heap. */
  lemma StringFreed(h: Heap, strt: seq<seq<Id>>, b: nat, i: nat)
    requires StringTable(h, strt) && b < |strt| && i < |strt[b]|
    ensures StringTable(h - {strt[b][i]}, strt[b := Without(strt[b], i)])
  {
    var x, strt' := strt[b][i], strt[b := Without(strt[b], i)];
    WithoutOne(strt[b], i);
    assert InBucket(strt, b, x);
    forall d, y
      ensures InBucket(strt', d, y) <==> InBucket(strt, d, y) && y != x
    {
      if d == b {
        assert y in strt'[b] <==> y in strt[b] && y != x;
      } else if InBucket(strt, d, y) {
        assert y == x ==> InBucket(strt, b, y);
      }
    }
    forall y | y in h - {x} && h[y].Str?
      ensures exists d :: InBucket(strt', d, y)
    {
      var d :| InBucket(strt, d, y);
      assert InBucket(strt', d, y);
    }
  }

  lemma NoStringElsewhere(h: Heap, x: Id, rootgc: seq<Id>, loose: set<Id>, uvhead: seq<Id>)
    requires x in h && h[x].Str? && RootList(h, rootgc, loose) && OpenLists(h) && UpvalList(h, uvhead)
    ensures RootList(h - {x}, rootgc, loose) && OpenLists(h - {x}) && UpvalList(h - {x}, uvhead)
  {
  }

  lemma BucketString(h: Heap, strt: seq<seq<Id>>, b: nat, i: nat)
    requires StringTable(h, strt) && b < |strt| && i < |strt[b]|
    ensures strt[b][i] in h && h[strt[b][i]].Str?
    ensures forall d | 0 <= d < |strt| && d != b :: strt[b][i] !in strt[d]
    ensures strt[b][i] !in strt[b][..i]
  {
    assert InBucket(strt, b, strt[b][i]);
    forall d | 0 <= d < |strt| && d != b
      ensures strt[b][i] !in strt[d]
    {
      assert strt[b][i] in strt[d] ==> InBucket(strt, d, strt[b][i]);
    }
  }

  lemma NotOnString(h: Heap, x: Id)
    requires OpenLists(h) && x in h && !h[x].Thread?
    ensures forall u | u in h && h[u].OpenUpval? :: h[u].thread != x
  {
  }

  lemma SweptSelf(h: Heap, c: Colors, w: bool, fixed: set<Id>)
    requires c.Keys == h.Keys
    ensures Swept(h, c, h, c, w, fixed)
  {
  }

  /** Unlinking x from a list that has it once. */
  function Minus(s: seq<Id>, x: Id): seq<Id> {
    if s == [] then [] else if s[0] == x then s[1..] else [s[0]] + Minus(s[1..], x)
  }

  lemma {:induction false} MinusOne(s: seq<Id>, x: Id)
    requires Distinct(s)
    ensures Distinct(Minus(s, x)) && forall y :: y in Minus(s, x) <==> y in s && y != x
    ensures |Minus(s, x)| == |s| - if x in s then 1 else 0
  {
    if s == [] {
    } else {
      assert s == [s[0]] + s[1..];
      assert Distinct(s[1..]);
      if s[0] != x {
        MinusOne(s[1..], x);
        var r := Minus(s[1..], x);
        assert Minus(s, x) == [s[0]] + r;
        forall j | 0 < j < |r| + 1
          ensures ([s[0]] + r)[j] != s[0]
        {
          assert r[j - 1] in r && s[0] !in s[1..];
        }
      }
    }
  }

  /** The heap when upvalue u leaves the list of thread t. */
  function Unlisted(h: Heap, t: Id, u: Id): Heap
    requires t in h && h[t].Thread?
  {
    h[t := h[t].(openupval := Minus(h[t].openupval, u))]
  }

  ghost predicate OnList(h: Heap, t: Id, u: Id) {
    t in h && h[t].Thread? && u in h[t].openupval
  }

  lemma UnlistedViews(h: Heap, t: Id, u: Id)
    requires t in h && h[t].Thread?
    ensures forall y | y in h :: SameView(h, Unlisted(h, t, u), y)
  {
    var h' := Unlisted(h, t, u);
    forall y | y in h
      ensures SameView(h, h', y)
    {
      if h[y].OpenUpval? {
        assert SlotValue(h', h[y].thread, h[y].slot) == SlotValue(h, h[y].thread, h[y].slot);
      }
    }
  }

  lemma FallingKept(h: Heap, h': Heap, l: seq<Id>)
    requires Falling(h, l) && forall x | x in l :: SlotOf(h', x) == SlotOf(h, x)
    ensures Falling(h', l)
  {
  }

  lemma {:induction false} MinusAt(s: seq<Id>, i: nat)
    requires Distinct(s) && i < |s|
    ensures Minus(s, s[i]) == Without(s, i)
  {
    if i == 0 {
    } else {
      assert s[1..][i - 1] == s[i];
      MinusAt(s[1..], i - 1);
      assert [s[0]] + Without(s[1..], i - 1) == Without(s, i);
    }
  }

  lemma MinusFalling(h: Heap, h': Heap, s: seq<Id>, x: Id)
    requires Falling(h, s) && Distinct(s) && x in s
    requires forall y | y in s && y != x :: SlotOf(h', y) == SlotOf(h, y)
    ensures Falling(h', Minus(s, x))
  {
    hide Minus;
    var i :| 0 <= i < |s| && s[i] == x;
    MinusAt(s, i);
    var r := Without(s, i);
    assert Falling(h, r);
    WithoutOne(s, i);
    FallingKept(h, h', r);
  }

  /** Taking an upvalue off the list of its thread keeps the order of the lists. */
  lemma UnlistedFalling(h: Heap, h': Heap, t: Id, u: Id)
    requires OpenLists(h) && OnList(h, t, u)
    requires forall y | y in h' && y != t && y != u :: y in h && h'[y] == h[y]
    requires forall y | y in h && y != u :: y in h' && SlotOf(h', y) == SlotOf(h, y)
    requires t in h' && h'[t].Thread? && h'[t].openupval == Minus(h[t].openupval, u) && (u in h' ==> !h'[u].Thread?)
    ensures AllFalling(h')
  {
    hide Distinct, Falling, Minus;
    forall s | s in h' && h'[s].Thread?
      ensures Falling(h', h'[s].openupval)
    {
      if s == t {
        MinusFalling(h, h', h[t].openupval, u);
      } else {
        assert u in h[t].openupval && h[u].thread == t;
        assert u !in h[s].openupval;
        FallingKept(h, h', h[s].openupval);
      }
    }
  }

  lemma OpenFreedLists(h: Heap, t: Id, u: Id)
    requires OpenLists(h) && OnList(h, t, u)
    ensures OpenLists(Unlisted(h, t, u) - {u}) && u in h && h[u].OpenUpval? && u != t
  {
    hide AllFalling;
    MinusOne(h[t].openupval, u);
    var h' := Unlisted(h, t, u) - {u};
    assert forall y | y in h' && y != t :: h'[y] == h[y];
    assert u in h && h[u].OpenUpval? && h[u].thread == t && u != t;
    assert h'[t].Thread? && h'[t].openupval == Minus(h[t].openupval, u) && h'[t].stack == h[t].stack;
    forall y | y in h' && h'[y].OpenUpval?
      ensures y in h'[h[y].thread].openupval
    {
      assert h'[y] == h[y] && y in h[h[y].thread].openupval;
    }
    UnlistedFalling(h, h', t, u);
  }

  lemma SameStrings(h: Heap, h': Heap, strt: seq<seq<Id>>)
    requires StringTable(h, strt)
    requires forall x | x in h && h[x].Str? :: x in h' && h'[x].Str?
    requires forall x | x in h' && h'[x].Str? :: x in h && h[x].Str?
    ensures StringTable(h', strt)
  {
  }

  /** An open upvalue of thread t leaves the heap. */
  lemma OpenFreed(h: Heap, t: Id, u: Id, rootgc: seq<Id>, loose: set<Id>, strt: seq<seq<Id>>, uvhead: seq<Id>)
    requires RootList(h, rootgc, loose) && StringTable(h, strt) && UpvalList(h, uvhead) && OpenLists(h)
             && OnList(h, t, u)
    ensures var h' := Unlisted(h, t, u) - {u};
            RootList(h', rootgc, loose) && StringTable(h', strt) && UpvalList(h', Minus(uvhead, u)) && OpenLists(h')
    ensures u in h && h[u].OpenUpval? && u != t
  {
    hide StringTable, OpenLists;
    OpenFreedLists(h, t, u);
    MinusOne(uvhead, u);
    var h' := Unlisted(h, t, u) - {u};
    assert forall y | y in h' && y != t :: h'[y] == h[y];
    SameStrings(h, h', strt);
  }

  /** If the first upvalue of a list is below a level all of them are. */
  lemma TopmostFirst(h: Heap, t: Id, level: int)
    requires OpenLists(h) && t in h && h[t].Thread?
    requires h[t].openupval != [] ==> SlotOf(h, h[t].openupval[0]) < level
    ensures forall u | u in h && h[u].OpenUpval? && h[u].thread == t :: h[u].slot < level
  {
    var l := h[t].openupval;
    assert Falling(h, l);
    forall u | u in h && h[u].OpenUpval? && h[u].thread == t
      ensures h[u].slot < level
    {
      var i :| 0 <= i < |l| && l[i] == u;
      assert i == 0 || SlotOf(h, l[0]) > SlotOf(h, l[i]);
    }
  }

  /** A slot has one open upvalue at most. */
  lemma OneOpen(h: Heap, t: Id, slot: nat, u: Id)
    requires OpenLists(h) && t in h && h[t].Thread? && u in h && h[u] == OpenUpval(t, slot)
    ensures forall y | y in h && h[y] == OpenUpval(t, slot) :: y == u
  {
    var l := h[t].openupval;
    assert Falling(h, l);
    forall y | y in h && h[y] == OpenUpval(t, slot)
      ensures y == u
    {
      var i :| 0 <= i < |l| && l[i] == u;
      var j :| 0 <= j < |l| && l[j] == y;
      assert i != j ==> SlotOf(h, l[i]) != SlotOf(h, l[j]);
    }
  }

  lemma UnlistedLive(h: Heap, c: Colors, w: bool, t: Id, u: Id)
    requires LiveClosed(h, c, w) && t in h && h[t].Thread?
    ensures LiveClosed(Unlisted(h, t, u), c, w)
  {
    UnlistedViews(h, t, u);
    var h' := Unlisted(h, t, u);
    forall x, y | x in h' && x in c && !IsDead(c[x], w) && Child(h', x, y)
      ensures y in h' && y in c && !IsDead(c[y], w)
    {
      assert SameView(h, h', x) && Child(h, x, y);
    }
  }

  /** Freeing a dead open upvalue. */
  lemma OpenFreedDead(h: Heap, c: Colors, w: bool, fixed: set<Id>, t: Id, u: Id)
    requires LiveClosed(h, c, w) && c.Keys == h.Keys && OpenLists(h) && OnList(h, t, u) && IsDead(c[u], w)
    ensures var h' := Unlisted(h, t, u) - {u}; LiveClosed(h', c - {u}, w) && Swept(h, c, h', c - {u}, w, fixed)
  {
    var h1 := Unlisted(h, t, u);
    UnlistedViews(h, t, u);
    UnlistedLive(h, c, w, t, u);
    assert forall x | x in h :: SameView(h, h1, x);
    assert Swept(h, c, h1, c, w, fixed);
    assert forall v | v in h1 && h1[v].OpenUpval? :: h1[v].thread != u;
    FreedDead(h1, c, w, fixed, u);
    SweptTwice(h, c, h1, c, h1 - {u}, c - {u}, w, fixed);
  }

  lemma UnlistedKeys(h: Heap, t: Id, u: Id)
    requires t in h && h[t].Thread?
    ensures Unlisted(h, t, u).Keys == h.Keys && Unlisted(h, t, u)[t].Thread?
    ensures forall y | y in h && y != t :: Unlisted(h, t, u)[y] == h[y]
    ensures forall y | y in h :: Tag(Unlisted(h, t, u)[y]) == Tag(h[y])
  {
  }

  /** Only thread t and the open upvalues on its stack changed. */
  ghost predicate OthersSame(h: Heap, c: Colors, h': Heap, c': Colors, t: Id)
  {
    && h'.Keys <= h.Keys && c.Keys == h.Keys && c'.Keys == h'.Keys && t in h && t in h'
    && c'[t] == c[t] && h[t].Thread? && h'[t].Thread?
    && (forall u | u in h'[t].openupval :: u in h[t].openupval)
    && (forall x | x in h' && x != t :: h'[x] == h[x])
    && forall x | x in h && x != t && !(h[x].OpenUpval? && h[x].thread == t) :: x in h' && c'[x] == c[x]
  }

  lemma OthersStep(h: Heap, c: Colors, h': Heap, c': Colors, w: bool, t: Id, i: nat, kept: bool)
    requires c.Keys == h.Keys && t in h && h[t].Thread? && i < |h[t].openupval|
    requires var u := h[t].openupval[i];
             && u in h && h[u].OpenUpval? && h[u].thread == t
             && if kept then h' == h && c' == c[u := White(w)]
                else h' == Unlisted(h, t, u) - {u} && c' == c - {u} && u != t
                     && h'[t].openupval == Without(h[t].openupval, i)
    ensures OthersSame(h, c, h', c', t)
  {
  }

  lemma OthersTwice(h: Heap, c: Colors, h1: Heap, c1: Colors, h2: Heap, c2: Colors, t: Id)
    requires OthersSame(h, c, h1, c1, t) && OthersSame(h1, c1, h2, c2, t)
    ensures OthersSame(h, c, h2, c2, t)
  {
  }

  lemma OpenAt(h: Heap, t: Id, i: nat, uvhead: seq<Id>)
    requires OpenLists(h) && UpvalList(h, uvhead) && t in h && h[t].Thread? && i < |h[t].openupval|
    ensures var u := h[t].openupval[i];
            && u in h && h[u].OpenUpval? && h[u].thread == t && u != t && u in uvhead
            && Unlisted(h, t, u)[t].openupval == Without(h[t].openupval, i)
            && |Minus(uvhead, u)| < |uvhead|
            && u !in h[t].openupval[..i]
  {
    hide AllFalling;
    var l := h[t].openupval;
    MinusAt(l, i);
    MinusOne(uvhead, l[i]);
  }

  ghost predicate NoBlackOpen(h: Heap, c: Colors) {
    forall u | u in h && u in c && h[u].OpenUpval? :: c[u] != Black
  }

  /** The heap when upvalue u of thread t is closed: it keeps the value of its slot. */
  function Closing(h: Heap, t: Id, u: Id): Heap
    requires t in h && h[t].Thread? && u in h && h[u].OpenUpval?
  {
    Unlisted(h, t, u)[u := ClosedUpval(SlotValue(h, h[u].thread, h[u].slot))]
  }

  ghost predicate SameViews(h: Heap, h': Heap) {
    h'.Keys == h.Keys && forall y | y in h :: SameView(h, h', y)
  }

  lemma ClosingViews(h: Heap, t: Id, u: Id)
    requires OpenLists(h) && OnList(h, t, u)
    ensures u in h && h[u].OpenUpval? && u != t && SameViews(h, Closing(h, t, u))
  {
    UnlistedViews(h, t, u);
    var h1, h' := Unlisted(h, t, u), Closing(h, t, u);
    forall y | y in h
      ensures SameView(h, h', y)
    {
      assert SameView(h, h1, y);
    }
  }

  lemma ClosingKeys(h: Heap, t: Id, u: Id)
    requires OnList(h, t, u) && u in h && h[u].OpenUpval? && u != t
    ensures var h' := Closing(h, t, u);
            && h'.Keys == h.Keys && h'[t] == h[t].(openupval := Minus(h[t].openupval, u))
            && h'[u] == ClosedUpval(SlotValue(h, h[u].thread, h[u].slot))
            && (forall y | y in h && y != t && y != u :: h'[y] == h[y])
            && forall y | y in h :: Tag(h'[y]) == Tag(h[y])
  {
  }

  lemma ClosingOpen(h: Heap, t: Id, u: Id)
    requires OpenLists(h) && OnList(h, t, u) && u in h && h[u].OpenUpval?
    ensures OpenLists(Closing(h, t, u))
  {
    hide AllFalling, Minus;
    MinusOne(h[t].openupval, u);
    var h' := Closing(h, t, u);
    assert forall y | y in h' && y != t && y != u :: h'[y] == h[y];
    UnlistedFalling(h, h', t, u);
  }

  lemma ClosingLists(h: Heap, t: Id, u: Id, rootgc: seq<Id>, loose: set<Id>, strt: seq<seq<Id>>, uvhead: seq<Id>)
    requires RootList(h, rootgc, loose) && StringTable(h, strt) && UpvalList(h, uvhead) && OpenLists(h)
             && OnList(h, t, u)
    requires u !in loose
    ensures u in h && h[u].OpenUpval? && u != t
    ensures var h' := Closing(h, t, u);
            && RootList(h', [u] + rootgc, loose) && StringTable(h', strt) && UpvalList(h', Minus(uvhead, u))
            && OpenLists(h')
    ensures |Minus(uvhead, u)| == |uvhead| - 1 && u !in rootgc
  {
    hide StringTable, Closing, Minus, OpenLists;
    ClosingViews(h, t, u);
    ClosingKeys(h, t, u);
    MinusOne(uvhead, u);
    var h' := Closing(h, t, u);
    SameStrings(h, h', strt);
    assert forall y :: y in [u] + rootgc <==> y == u || y in rootgc;
    ClosingOpen(h, t, u);
  }

  lemma ViewsLive(h: Heap, h': Heap, c: Colors, w: bool, fixed: set<Id>)
    requires SameViews(h, h') && LiveClosed(h, c, w) && c.Keys == h.Keys
    ensures LiveClosed(h', c, w) && Swept(h, c, h', c, w, fixed)
  {
    forall x, y | x in h' && x in c && !IsDead(c[x], w) && Child(h', x, y)
      ensures y in h' && y in c && !IsDead(c[y], w)
    {
      assert SameView(h, h', x) && Child(h, x, y);
    }
  }

  lemma ViewsMarking(h: Heap, h': Heap, c: Colors, gray: seq<Id>, grayagain: seq<Id>, u: Id, strict: bool)
    requires SameViews(h, h') && Marking(h, c, gray, grayagain, {}, strict) && u in h
    requires forall y | y in h && y != u :: h'[y].OpenUpval? == h[y].OpenUpval?
    ensures Marking(h', c, gray, grayagain, {u}, strict)
    ensures IsWhite(c[u]) ==> Marking(h', c, gray, grayagain, {}, strict)
  {
    forall y | y in h
      ensures NoWhiteChild(h, c, y) ==> NoWhiteChild(h', c, y)
      ensures h'[y].Str? == h[y].Str? && h'[y].Thread? == h[y].Thread? && Traversed(h'[y]) == Traversed(h[y])
    {
      assert SameView(h, h', y);
      assert forall z :: Child(h', y, z) <==> Child(h, y, z);
    }
    forall y | y in h' && y != u && c[y] == Black
      ensures BlackOk(h', c, y)
    {
      assert BlackOk(h, c, y);
    }
    forall y | y in h' && y != u && c[y] == Gray
      ensures GrayOk(h', c, gray, grayagain, strict, y)
    {
      assert GrayOk(h, c, gray, grayagain, strict, y);
    }
  }

  ghost predicate AllWhite(c: Colors, w: bool, xs: seq<Id>) {
    forall x | x in xs :: x in c && c[x] == White(w)
  }

  /** The part of rootgc that was swept, with the open upvalues of its threads. */
  ghost predicate SweptPart(h: Heap, c: Colors, w: bool, part: seq<Id>) {
    AllWhite(c, w, part) && forall t | t in part && t in h && h[t].Thread? :: AllWhite(c, w, h[t].openupval)
  }

  lemma NoDeadComplete(h: Heap, c: Colors, w: bool)
    requires LiveClosed(h, c, w) && c.Keys == h.Keys && forall x | x in c :: !IsDead(c[x], w)
    ensures Complete(h) && ChildClosed(h, h.Keys)
  {
  }

  lemma NoDeadLive(h: Heap, c: Colors, c': Colors, w: bool, fixed: set<Id>)
    requires Complete(h) && c.Keys == h.Keys == c'.Keys
    requires forall x | x in c :: !IsDead(c[x], w)
    requires forall x | x in c' :: !IsDead(c'[x], w)
    ensures LiveClosed(h, c', w) && Swept(h, c, h, c', w, fixed)
  {
  }

  lemma Recolored(h: Heap, c: Colors, gray: seq<Id>, grayagain: seq<Id>, exempt: set<Id>, strict: bool, x: Id, k: Color)
    requires Marking(h, c, gray, grayagain, exempt, strict) && x in exempt && x in h && !Traversed(h[x])
    requires !IsWhite(c[x]) && !IsWhite(k)
    ensures Marking(h, c[x := k], gray, grayagain, exempt, strict)
  {
    var c' := c[x := k];
    forall y | y in h && y !in exempt && c'[y] == Black
      ensures BlackOk(h, c', y)
    {
      assert BlackOk(h, c, y);
    }
    forall y | y in h && y !in exempt && c'[y] == Gray
      ensures GrayOk(h, c', gray, grayagain, strict, y)
    {
      assert GrayOk(h, c, gray, grayagain, strict, y);
    }
  }

  /** A live object turns to the current white. */
  lemma LiveWhite(h: Heap, c: Colors, w: bool, fixed: set<Id>, x: Id)
    requires LiveClosed(h, c, w) && c.Keys == h.Keys && x in h && !IsDead(c[x], w)
    ensures LiveClosed(h, c[x := White(w)], w) && Swept(h, c, h, c[x := White(w)], w, fixed)
  {
  }

  // ---- What the colours mean in each state of the collector ----

  datatype GcState = Pause | Propagate | SweepString | Sweep | Finalize

  ghost predicate NoDead(c: Colors, w: bool) {
    forall x | x in c :: !IsDead(c[x], w)
  }

  ghost predicate Marked(c: Colors, v: Val) {
    v.Ref? ==> v.id in c && !IsWhite(c[v.id])
  }

  /** Marking under way: nothing is dead, and the first roots are marked. */
  ghost predicate PropagateOk(h: Heap, c: Colors, w: bool, gray: seq<Id>, grayagain: seq<Id>, exempt: set<Id>,
                              mainthread: Id, registry: Val) {
    && NoDead(c, w) && Marking(h, c, gray, grayagain, exempt, false)
    && Marked(c, Ref(mainthread)) && Marked(c, registry)
  }

  /** The first n buckets of the string table are swept. */
  ghost predicate SweepStringOk(h: Heap, c: Colors, w: bool, strt: seq<seq<Id>>, n: nat) {
    NoBlackOpen(h, c) && n < |strt| && forall b | 0 <= b < n && b < |strt| :: AllWhite(c, w, strt[b])
  }

  /** All strings and a part of rootgc are swept. */
  ghost predicate SweepOk(h: Heap, c: Colors, w: bool, strt: seq<seq<Id>>, part: seq<Id>) {
    NoBlackOpen(h, c) && (forall b | 0 <= b < |strt| :: AllWhite(c, w, strt[b])) && SweptPart(h, c, w, part)
  }

  /** Between two collections everything has the current white. */
  ghost predicate RestOk(c: Colors, w: bool) {
    forall x | x in c :: c[x] == White(w)
  }

  lemma WhiteMinus(c: Colors, w: bool, u: Id, xs: seq<Id>, ys: seq<Id>)
    requires AllWhite(c, w, xs) && forall y | y in ys :: y in xs && y != u
    ensures AllWhite(c - {u}, w, ys)
  {
  }

  lemma OpenFreedNoBlack(h: Heap, c: Colors, t: Id, u: Id)
    requires OnList(h, t, u) && NoBlackOpen(h, c)
    ensures NoBlackOpen(Unlisted(h, t, u) - {u}, c - {u})
  {
  }

  lemma OpenFreedPart(h: Heap, c: Colors, w: bool, t: Id, u: Id, part: seq<Id>)
    requires c.Keys == h.Keys && OnList(h, t, u) && OpenLists(h) && forall x | x in part :: x in h && !h[x].OpenUpval?
    requires SweptPart(h, c, w, part)
    ensures SweptPart(Unlisted(h, t, u) - {u}, c - {u}, w, part)
  {
    hide AllFalling, AllWhite, Minus;
    var h' := Unlisted(h, t, u) - {u};
    MinusOne(h[t].openupval, u);
    assert h[u].OpenUpval? && h[u].thread == t;
    WhiteMinus(c, w, u, part, part);
    forall s | s in part && s in h' && h'[s].Thread?
      ensures AllWhite(c - {u}, w, h'[s].openupval)
    {
      WhiteMinus(c, w, u, h[s].openupval, h'[s].openupval);
    }
  }

  lemma OpenFreedPhase(h: Heap, c: Colors, w: bool, t: Id, u: Id, strt: seq<seq<Id>>, n: nat, part: seq<Id>)
    requires c.Keys == h.Keys && OnList(h, t, u) && OpenLists(h) && StringTable(h, strt)
    requires forall x | x in part :: x in h && !h[x].OpenUpval?
    ensures var h' := Unlisted(h, t, u) - {u};
            && (SweepStringOk(h, c, w, strt, n) ==> SweepStringOk(h', c - {u}, w, strt, n))
            && (SweepOk(h, c, w, strt, part) ==> SweepOk(h', c - {u}, w, strt, part))
            && (RestOk(c, w) ==> RestOk(c - {u}, w))
            && (IsDead(c[u], w) ==> !NoDead(c, w))
  {
    assert h[u].OpenUpval? && h[u].thread == t;
    hide NoBlackOpen, SweptPart, Unlisted;
    if NoBlackOpen(h, c) { OpenFreedNoBlack(h, c, t, u); }
    if SweptPart(h, c, w, part) { OpenFreedPart(h, c, w, t, u, part); }
    forall b, x | 0 <= b < |strt| && x in strt[b]
      ensures x != u
    {
      assert InBucket(strt, b, x);
    }
  }

  lemma Whitened(c: Colors, w: bool, u: Id, s: seq<Id>)
    ensures AllWhite(c, w, s) ==> AllWhite(c[u := White(w)], w, s)
  {
  }

  lemma WhitePart(c: Colors, w: bool, u: Id, part: seq<Id>)
    requires AllWhite(c, w, part)
    ensures AllWhite(c[u := White(w)], w, part) && AllWhite(c[u := White(w)], w, [u] + part)
  {
  }

  lemma WhiteSome(c: Colors, w: bool, xs: seq<Id>, ys: seq<Id>)
    requires AllWhite(c, w, xs) && forall y | y in ys :: y in xs
    ensures AllWhite(c, w, ys)
  {
  }

  lemma ClosingNoBlack(h: Heap, c: Colors, w: bool, t: Id, u: Id)
    requires NoBlackOpen(h, c) && c.Keys == h.Keys && OpenLists(h) && OnList(h, t, u) && u in h && h[u].OpenUpval?
    ensures NoBlackOpen(Closing(h, t, u), c[u := White(w)]) && c[u] != Black
  {
    ClosingViews(h, t, u);
    ClosingKeys(h, t, u);
  }

  lemma ClosingPart(h: Heap, c: Colors, w: bool, t: Id, u: Id, part: seq<Id>)
    requires SweptPart(h, c, w, part) && c.Keys == h.Keys
    requires OpenLists(h) && OnList(h, t, u) && u in h && h[u].OpenUpval?
    ensures var h', c' := Closing(h, t, u), c[u := White(w)];
            SweptPart(h', c', w, part) && SweptPart(h', c', w, [u] + part)
  {
    hide AllFalling, AllWhite, Closing, Falling, Minus, SameView, SameViews;
    ClosingViews(h, t, u);
    ClosingKeys(h, t, u);
    var h', c' := Closing(h, t, u), c[u := White(w)];
    MinusOne(h[t].openupval, u);
    WhitePart(c, w, u, part);
    forall s | s in [u] + part && s in h' && h'[s].Thread?
      ensures s in part && AllWhite(c', w, h'[s].openupval)
    {
      Whitened(c, w, u, h[s].openupval);
      WhiteSome(c', w, h[s].openupval, h'[s].openupval);
    }
  }

  lemma NothingWhite(c: Colors, w: bool)
    ensures AllWhite(c, w, [])
  {
  }

  /** One turn of the sweep of bucket b: what was white stays white, and x is white too if it is kept. */
  lemma BucketTurn(h: Heap, strt: seq<seq<Id>>, b: nat, i: nat, c: Colors, w: bool, kept: bool)
    requires StringTable(h, strt) && b < |strt| && i < |strt[b]|
    ensures var x := strt[b][i];
            var c' := if kept then c[x := White(w)] else c - {x};
            && (forall d | 0 <= d < |strt| && d != b && AllWhite(c, w, strt[d]) :: AllWhite(c', w, strt[d]))
            && (AllWhite(c, w, strt[b][..i]) ==> AllWhite(c', w, strt[b][..if kept then i + 1 else i]))
            && (!kept ==> |Without(strt[b], i)| + 1 == |strt[b]| && Without(strt[b], i)[..i] == strt[b][..i])
  {
    BucketString(h, strt, b, i);
    if kept { assert strt[b][..i + 1] == strt[b][..i] + [strt[b][i]]; }
  }

  /** Closing an upvalue leaves at most its own colour wrong. */
  lemma ClosingSweep(h: Heap, c: Colors, w: bool, t: Id, u: Id, strt: seq<seq<Id>>, n: nat, part: seq<Id>)
    requires c.Keys == h.Keys && OnList(h, t, u) && OpenLists(h) && u in h && h[u].OpenUpval?
    ensures var h', c' := Closing(h, t, u), c[u := White(w)];
            && (SweepStringOk(h, c, w, strt, n) ==> SweepStringOk(h', c', w, strt, n))
            && (SweepOk(h, c, w, strt, part) ==> SweepOk(h', c', w, strt, part) && SweepOk(h', c', w, strt, [u] + part))
            && (RestOk(c, w) ==> RestOk(c', w))
            && (SweepStringOk(h, c, w, strt, n) || SweepOk(h, c, w, strt, part) || RestOk(c, w) ==> c[u] != Black)
  {
    hide AllWhite, Closing, Minus, NoBlackOpen, OpenLists, SweptPart;
    forall b | 0 <= b < |strt| && AllWhite(c, w, strt[b])
      ensures AllWhite(c[u := White(w)], w, strt[b])
    {
      Whitened(c, w, u, strt[b]);
    }
    if NoBlackOpen(h, c) { ClosingNoBlack(h, c, w, t, u); }
    if SweptPart(h, c, w, part) { ClosingPart(h, c, w, t, u, part); }
  }

  lemma ClosingPropagate(h: Heap, c: Colors, w: bool, t: Id, u: Id, gray: seq<Id>, grayagain: seq<Id>, mainthread: Id,
                         registry: Val)
    requires PropagateOk(h, c, w, gray, grayagain, {}, mainthread, registry)
    requires c.Keys == h.Keys && OnList(h, t, u) && OpenLists(h) && u in h && h[u].OpenUpval?
    ensures var h' := Closing(h, t, u);
            && PropagateOk(h', c, w, gray, grayagain, {u}, mainthread, registry)
            && (IsWhite(c[u]) ==> PropagateOk(h', c, w, gray, grayagain, {}, mainthread, registry))
            && c[u] != Black
  {
    ClosingViews(h, t, u);
    var h' := Closing(h, t, u);
    assert forall s | s in h' && s != t && s != u :: h'[s] == h[s];
    ViewsMarking(h, h', c, gray, grayagain, u, false);
  }

  lemma UvheadShrinks(h: Heap, u: Id, uvhead: seq<Id>)
    requires UpvalList(h, uvhead)
    ensures |Minus(uvhead, u)| <= |uvhead|
  {
    MinusOne(uvhead, u);
  }

  lemma GraysInHeap(h: Heap, c: Colors, gray: seq<Id>, grayagain: seq<Id>, exempt: set<Id>, strict: bool)
    requires Marking(h, c, gray, grayagain, exempt, strict)
    ensures forall x | x in gray || x in grayagain :: x in h && x in c && c[x] == Gray && Traversed(h[x])
  {
  }

  lemma OtherThread(h: Heap, c: Colors, h': Heap, c': Colors, t: Id, s: Id, u: Id)
    requires OthersSame(h, c, h', c', t) && OpenLists(h) && OpenLists(h') && s in h' && s != t && h'[s].Thread?
    requires u in h'[s].openupval
    ensures s in h && h'[s] == h[s] && u in h && h[u].OpenUpval? && u in h' && h'[u] == h[u] && c'[u] == c[u]
  {
    assert u in h' && h'[u].OpenUpval? && h'[u].thread == s;
  }

  /** Sweeping the open upvalues of a thread keeps what is swept already. */
  lemma OtherStrings(h: Heap, c: Colors, h': Heap, c': Colors, t: Id, strt: seq<seq<Id>>)
    requires OthersSame(h, c, h', c', t) && StringTable(h, strt)
    ensures forall b, x | 0 <= b < |strt| && x in strt[b] :: x in c && x in c' && c'[x] == c[x]
  {
    forall b, x | 0 <= b < |strt| && x in strt[b]
      ensures x in c && x in c' && c'[x] == c[x]
    {
      assert InBucket(strt, b, x);
    }
  }

  lemma SweepOpenPhase(h: Heap, c: Colors, h': Heap, c': Colors, w: bool, t: Id, strt: seq<seq<Id>>, part: seq<Id>)
    requires SweepOk(h, c, w, strt, part) && OthersSame(h, c, h', c', t) && OpenLists(h) && OpenLists(h')
             && StringTable(h, strt)
    requires AllWhite(c', w, h'[t].openupval) && t !in part
    requires forall x | x in part :: x in h && !h[x].OpenUpval?
    ensures SweepOk(h', c', w, strt, part)
  {
    OtherStrings(h, c, h', c', t, strt);
    hide StringTable;
    forall u | u in h' && u in c' && h'[u].OpenUpval?
      ensures c'[u] != Black
    {
      var s := h'[u].thread;
      assert u in h'[s].openupval;
      if s != t {
        OtherThread(h, c, h', c', t, s, u);
      }
    }
    forall s | s in part && s in h' && h'[s].Thread?
      ensures AllWhite(c', w, h'[s].openupval)
    {
      assert h'[s] == h[s];
      forall u | u in h'[s].openupval
        ensures u in c' && c'[u] == White(w)
      {
        OtherThread(h, c, h', c', t, s, u);
      }
    }
  }

  /** A swept object joins the swept part. */
  lemma SweptOneMore(h: Heap, c: Colors, w: bool, strt: seq<seq<Id>>, part: seq<Id>, x: Id)
    requires SweepOk(h, c, w, strt, part) && x in h && c.Keys == h.Keys && !h[x].OpenUpval?
    requires h[x].Thread? ==> AllWhite(c, w, h[x].openupval)
    ensures SweepOk(h, c[x := White(w)], w, strt, part + [x])
  {
  }

  /** An object without open upvalues that is on no list leaves the heap. */
  lemma RootFreed(h: Heap, x: Id, rootgc: seq<Id>, strt: seq<seq<Id>>, uvhead: seq<Id>)
    requires RootList(h, rootgc, {x}) && StringTable(h, strt) && UpvalList(h, uvhead) && OpenLists(h)
    requires x in h && !h[x].Str? && !h[x].OpenUpval? && (h[x].Thread? ==> h[x].openupval == [])
    ensures var h' := h - {x};
            RootList(h', rootgc, {}) && StringTable(h', strt) && UpvalList(h', uvhead) && OpenLists(h')
    ensures forall u | u in h && h[u].OpenUpval? :: h[u].thread != x
  {
    hide StringTable;
    SameStrings(h, h - {x}, strt);
  }

  lemma RootFreedPhase(h: Heap, c: Colors, w: bool, x: Id, strt: seq<seq<Id>>, part: seq<Id>)
    requires SweepOk(h, c, w, strt, part) && StringTable(h, strt) && OpenLists(h) && c.Keys == h.Keys
    requires x in h && !h[x].Str? && !h[x].OpenUpval? && x !in part
    ensures SweepOk(h - {x}, c - {x}, w, strt, part)
  {
    var h', c' := h - {x}, c - {x};
    forall b, y | 0 <= b < |strt| && y in strt[b]
      ensures y in c' && c'[y] == White(w)
    {
      assert InBucket(strt, b, y);
    }
    forall s | s in part && s in h' && h'[s].Thread?
      ensures AllWhite(c', w, h'[s].openupval)
    {
    }
  }

  lemma Unlinked(h: Heap, rootgc: seq<Id>, i: nat)
    requires RootList(h, rootgc, {}) && i < |rootgc|
    ensures RootList(h, Without(rootgc, i), {rootgc[i]}) && Without(rootgc, i)[..i] == rootgc[..i]
    ensures rootgc[i] in h && !h[rootgc[i]].Str? && !h[rootgc[i]].OpenUpval? && rootgc[i] !in rootgc[..i]
    ensures forall x | x in rootgc[..i] :: x in h && !h[x].OpenUpval?
  {
    WithoutOne(rootgc, i);
    assert rootgc[i] in rootgc;
  }

  // ---- Whole steps ----

  /** Everything reachable is kept as it was. */
  ghost predicate Kept(h: Heap, h': Heap, roots: set<Id>) {
    forall x | Reachable(h, roots, x) :: SameView(h, h', x)
  }

  lemma {:induction false} KeptPath(h: Heap, h': Heap, roots: set<Id>, p: seq<Id>)
    requires Kept(h, h', roots) && Path(h', p) && p[0] in roots
    ensures Reachable(h, roots, p[|p| - 1])
    decreases |p|
  {
    if |p| == 1 {
      RootReachable(h, roots, p[0]);
    } else {
      var q := p[..|p| - 1];
      forall i | 0 <= i < |q| - 1
        ensures Child(h', q[i], q[i + 1])
      {
        assert Child(h', p[i], p[i + 1]);
      }
      KeptPath(h, h', roots, q);
      var y := q[|q| - 1];
      assert SameView(h, h', y) && Child(h', p[|p| - 2], p[|p| - 1]);
      ReachableStep(h, roots, y, p[|p| - 1]);
    }
  }

  lemma {:induction false} KeptBack(h: Heap, h': Heap, roots: set<Id>, x: Id)
    requires Kept(h, h', roots) && Reachable(h', roots, x)
    ensures Reachable(h, roots, x)
  {
    var p :| Path(h', p) && p[0] in roots && p[|p| - 1] == x;
    KeptPath(h, h', roots, p);
  }

  lemma KeptReach(h: Heap, h': Heap, roots: set<Id>)
    requires Kept(h, h', roots)
    ensures forall x :: Reachable(h', roots, x) <==> Reachable(h, roots, x)
    ensures ReachSet(h', roots) == ReachSet(h, roots)
  {
    forall x | Reachable(h, roots, x)
      ensures Reachable(h', roots, x)
    {
      assert SameView(h, h', x);
      SameReachable(h, h', roots, x);
    }
    forall x | Reachable(h', roots, x)
      ensures Reachable(h, roots, x)
    {
      KeptBack(h, h', roots, x);
    }
    assert forall x | Reachable(h, roots, x) :: SameView(h, h', x) && x in h && x in h';
  }

  lemma KeptTwice(h0: Heap, h1: Heap, h2: Heap, roots: set<Id>)
    requires Kept(h0, h1, roots) && Kept(h1, h2, roots)
    ensures Kept(h0, h2, roots)
  {
    KeptReach(h0, h1, roots);
    forall x | Reachable(h0, roots, x)
      ensures SameView(h0, h2, x)
    {
      assert SameView(h0, h1, x) && SameView(h1, h2, x);
    }
  }

  /** The safety theorem: what can be reached from live roots is in the heap and not dead. */
  lemma ReachableLive(h: Heap, c: Colors, w: bool, roots: set<Id>, x: Id)
    requires LiveClosed(h, c, w) && forall r | r in roots :: r in h && r in c && !IsDead(c[r], w)
    requires Reachable(h, roots, x)
    ensures x in h && x in c && !IsDead(c[x], w)
  {
    var live := set y | y in h && y in c && !IsDead(c[y], w);
    ClosedHoldsReachable(h, roots, live, x);
  }

  /** A sweep keeps everything reachable. */
  lemma SweptKept(h: Heap, c: Colors, h': Heap, c': Colors, w: bool, fixed: set<Id>, roots: set<Id>)
    requires Swept(h, c, h', c', w, fixed) && LiveClosed(h, c, w)
    requires forall r | r in roots :: r in h && r in c && !IsDead(c[r], w)
    ensures Kept(h, h', roots)
  {
    forall x | Reachable(h, roots, x)
      ensures SameView(h, h', x)
    {
      ReachableLive(h, c, w, roots, x);
    }
  }

  lemma RestMarking(h: Heap, c: Colors, w: bool, strict: bool)
    requires RestOk(c, w) && c.Keys == h.Keys
    ensures Marking(h, c, [], [], {}, strict)
  {
  }

  /** The second list becomes the gray list. */
  lemma Regrayed(h: Heap, c: Colors, grayagain: seq<Id>, strict: bool)
    requires Marking(h, c, [], grayagain, {}, strict)
    ensures Marking(h, c, grayagain, [], {}, strict)
  {
    forall y | y in h && c[y] == Gray
      ensures GrayOk(h, c, grayagain, [], strict, y)
    {
      assert GrayOk(h, c, [], grayagain, strict, y);
    }
  }

  lemma MarkedBlack(h: Heap, c: Colors, grayagain: seq<Id>, u: Id)
    requires Marking(h, c, [], grayagain, {}, true) && u in h && c[u] == Black
    ensures !h[u].OpenUpval?
  {
    assert BlackOk(h, c, u);
  }

  /** When marking is done, the marked objects refer only to marked ones: turning the other white
      into the current one makes exactly the unmarked objects dead. */
  lemma Flipped(h: Heap, c: Colors, w: bool, grayagain: seq<Id>)
    requires Marking(h, c, [], grayagain, {}, true) && NoDead(c, w)
    requires forall t | t in grayagain :: NoWhiteChild(h, c, t)
    ensures LiveClosed(h, c, !w) && NoBlackOpen(h, c)
    ensures forall x | x in c :: IsDead(c[x], !w) <==> IsWhite(c[x])
  {
    forall x | x in c
      ensures IsDead(c[x], !w) <==> IsWhite(c[x])
    {
    }
    forall x, y | x in h && x in c && !IsDead(c[x], !w) && Child(h, x, y)
      ensures y in h && y in c && !IsDead(c[y], !w)
    {
      if c[x] == Black {
        assert BlackOk(h, c, x);
      } else {
        assert GrayOk(h, c, [], grayagain, true, x);
      }
    }
    forall u | u in h && u in c && h[u].OpenUpval?
      ensures c[u] != Black
    {
      if c[u] == Black {
        MarkedBlack(h, c, grayagain, u);
      }
    }
  }

  /** At the end of a sweep everything is white. */
  lemma SweepDone(h: Heap, c: Colors, w: bool, rootgc: seq<Id>, strt: seq<seq<Id>>)
    requires SweepOk(h, c, w, strt, rootgc) && c.Keys == h.Keys
    requires RootList(h, rootgc, {}) && StringTable(h, strt) && OpenLists(h)
    ensures RestOk(c, w)
  {
    forall x | x in c
      ensures c[x] == White(w)
    {
      if h[x].Str? {
        var b :| InBucket(strt, b, x);
      } else if h[x].OpenUpval? {
        assert x in h[h[x].thread].openupval && h[x].thread in rootgc;
      }
    }
  }

  lemma RefsHold(a: Val, vals: seq<Val>)
    ensures forall y | Ref(y) in [a] :: y in Refs([a] + vals)
    ensures forall y | Ref(y) in vals :: y in Refs([a] + vals)
  {
    forall y | Ref(y) in vals
      ensures y in Refs([a] + vals)
    {
      assert Ref(y) in [a] + vals && Ref(y).Ref?;
    }
    forall y | Ref(y) in [a]
      ensures y in Refs([a] + vals)
    {
      assert Ref(y) in [a] + vals && Ref(y).Ref?;
    }
  }

  lemma DarkensMore(c0: Colors, c1: Colors, c2: Colors, P: set<Id>)
    requires Darkens(c0, c1, P) && MarksMore(c1, c2, P)
    ensures Darkens(c0, c2, P)
  {
  }

  lemma FirstMarked(c: Colors, c': Colors, x: Id, P: set<Id>)
    requires MarksMore(c, c', P) && x in c' && !IsWhite(c'[x])
    ensures Darkens(c, c', P) && Marked(c', Ref(x))
  {
  }

  lemma OneMarked(h: Heap, c: Colors, v: Val)
    requires c.Keys == h.Keys && forall y | Ref(y) in [v] :: y in h && !IsWhite(c[y])
    ensures Marked(c, v)
  {
    assert v.Ref? ==> Ref(v.id) in [v];
  }

  lemma MarkedStays(c: Colors, c': Colors, v: Val, P: set<Id>)
    requires MarksMore(c, c', P) && Marked(c, v)
    ensures Marked(c', v)
  {
  }

  /** The propagation goes on after more marks. */
  lemma PropagateOn(h: Heap, c: Colors, c': Colors, w: bool, gray: seq<Id>, gray': seq<Id>, grayagain: seq<Id>,
                    x: Id, mainthread: Id, registry: Val)
    requires PropagateOk(h, c, w, gray, grayagain, {x}, mainthread, registry) && MarksMore(c, c', h.Keys)
    requires Marking(h, c', gray', grayagain, {x}, false)
    ensures NoDead(c', w) && PropagateOk(h, c', w, gray', grayagain, {x}, mainthread, registry)
  {
    hide Marking;
    MarkedStays(c, c', Ref(mainthread), h.Keys);
    MarkedStays(c, c', registry, h.Keys);
  }

  lemma DarkensNoDead(c: Colors, c': Colors, w: bool, P: set<Id>)
    requires Darkens(c, c', P) && NoDead(c, w)
    ensures NoDead(c', w)
    ensures (forall x | x in c && !IsWhite(c[x]) :: x in P) ==> forall x | x in c' && !IsWhite(c'[x]) :: x in P
    ensures forall x | x in c && !IsWhite(c[x]) :: !IsWhite(c'[x])
  {
  }

  lemma ThreadGlobals(h: Heap, P: set<Id>, t: Id)
    requires Complete(h) && ChildClosed(h, P) && t in P && t in h && h[t].Thread?
    ensures forall y | Ref(y) in [h[t].gt] :: y in h && y in P
  {
    forall y | Ref(y) in [h[t].gt]
      ensures y in h && y in P
    {
      assert Child(h, t, y);
    }
  }

  /** Objects only left the heap or became white. */
  ghost predicate OnlyWhitened(h: Heap, c: Colors, h': Heap, c': Colors) {
    forall x | x in h' && x in c' :: x in h && x in c && h'[x] == h[x] && (c'[x] == c[x] || IsWhite(c'[x]))
  }

  lemma BucketLeft(h: Heap, c: Colors, w: bool, strt: seq<seq<Id>>, n: nat)
    requires SweepStringOk(h, c, w, strt, n)
    ensures n < |strt|
  {
  }

  /** Another bucket is swept; after the last one it is the turn of rootgc. */
  lemma NextBucket(h0: Heap, c0: Colors, w: bool, strt0: seq<seq<Id>>, n: nat, h: Heap, c: Colors, strt: seq<seq<Id>>)
    requires SweepStringOk(h0, c0, w, strt0, n) && |strt| == |strt0| && AllWhite(c, w, strt[n])
    requires OnlyWhitened(h0, c0, h, c)
    requires forall d | 0 <= d < |strt| && d != n ::
               strt[d] == strt0[d] && (AllWhite(c0, w, strt0[d]) ==> AllWhite(c, w, strt[d]))
    ensures if n + 1 < |strt| then SweepStringOk(h, c, w, strt, n + 1) else SweepOk(h, c, w, strt, [])
  {
    hide AllWhite;
    NothingWhite(c, w);
  }

  // ---- Stores by the program ----

  /** What the program may still use. */
  ghost predicate Usable(h: Heap, c: Colors, w: bool, v: Val) {
    v.Ref? ==> v.id in h && v.id in c && !IsDead(c[v.id], w)
  }

  /** An object may be overwritten by one of its own kind; a thread keeps its open upvalues, and their
      slots. */
  ghost predicate SameShape(o: Obj, o': Obj, h: Heap, x: Id) {
    match o
    case Str => o' == o
    case Node(kind, _) => o'.Node? && o'.kind == kind
    case Thread(_, _, l) =>
      && o'.Thread? && o'.openupval == l
      && forall u | u in h && h[u].OpenUpval? && h[u].thread == x :: h[u].slot < |o'.stack|
    case OpenUpval(_, _) => o' == o
    case ClosedUpval(_) => o'.ClosedUpval?
  }

  /** The values of the new object are usable, unless it is dead itself; so are those of live upvalues. */
  ghost predicate Storable(h: Heap, c: Colors, w: bool, x: Id, o': Obj)
    requires x in h && x in c
  {
    var h' := h[x := o'];
    && (!IsDead(c[x], w) ==> forall v | v in Vals(h', o') :: Usable(h, c, w, v))
    && forall u | u in h && u in c && h[u].OpenUpval? && h[u].thread == x && !IsDead(c[u], w) ::
         Usable(h, c, w, SlotValue(h', x, h[u].slot))
  }

  lemma OtherViews(h: Heap, x: Id, o': Obj, y: Id)
    requires x in h && y in h && y != x && !(h[y].OpenUpval? && h[y].thread == x)
    ensures SameView(h, h[x := o'], y)
  {
  }

  lemma StoredLive(h: Heap, c: Colors, w: bool, x: Id, o': Obj)
    requires LiveClosed(h, c, w) && c.Keys == h.Keys && x in h && SameShape(h[x], o', h, x) && Storable(h, c, w, x, o')
    ensures LiveClosed(h[x := o'], c, w)
  {
    var h' := h[x := o'];
    forall a, b | a in h' && a in c && !IsDead(c[a], w) && Child(h', a, b)
      ensures b in h' && b in c && !IsDead(c[b], w)
    {
      if a == x {
        assert Usable(h, c, w, Ref(b));
      } else if h[a].OpenUpval? && h[a].thread == x {
        assert Usable(h, c, w, SlotValue(h', x, h[a].slot));
      } else {
        OtherViews(h, x, o', a);
        assert Child(h, a, b);
      }
    }
  }

  lemma StoredLists(h: Heap, x: Id, o': Obj, rootgc: seq<Id>, strt: seq<seq<Id>>, uvhead: seq<Id>)
    requires RootList(h, rootgc, {}) && StringTable(h, strt) && UpvalList(h, uvhead) && OpenLists(h)
    requires x in h && SameShape(h[x], o', h, x)
    ensures var h' := h[x := o'];
            RootList(h', rootgc, {}) && StringTable(h', strt) && UpvalList(h', uvhead) && OpenLists(h')
  {
    hide StringTable;
    SameStrings(h, h[x := o'], strt);
  }

  lemma StoredMarking(h: Heap, c: Colors, gray: seq<Id>, grayagain: seq<Id>, x: Id, o': Obj)
    requires Marking(h, c, gray, grayagain, {}, false) && x in h && SameShape(h[x], o', h, x)
    ensures Marking(h[x := o'], c, gray, grayagain, {x}, false)
    ensures c[x] != Black ==> Marking(h[x := o'], c, gray, grayagain, {}, false)
  {
    var h' := h[x := o'];
    forall y | y in h' && y != x && c[y] == Black
      ensures BlackOk(h', c, y)
    {
      assert BlackOk(h, c, y);
      OtherViews(h, x, o', y);
      assert forall z :: Child(h', y, z) <==> Child(h, y, z);
    }
    forall y | y in h' && c[y] == Gray
      ensures GrayOk(h', c, gray, grayagain, false, y)
    {
      assert GrayOk(h, c, gray, grayagain, false, y);
    }
  }

  lemma StoredSweep(h: Heap, c: Colors, w: bool, x: Id, o': Obj, strt: seq<seq<Id>>, n: nat, part: seq<Id>)
    requires x in h && SameShape(h[x], o', h, x)
    ensures SweepStringOk(h, c, w, strt, n) ==> SweepStringOk(h[x := o'], c, w, strt, n)
    ensures SweepOk(h, c, w, strt, part) ==> SweepOk(h[x := o'], c, w, strt, part)
  {
  }

  /** A black table becomes gray again when a white object is stored in it. */
  lemma GrayAgain(h: Heap, c: Colors, gray: seq<Id>, grayagain: seq<Id>, x: Id)
    requires Marking(h, c, gray, grayagain, {x}, false) && x in h && c[x] == Black && Traversed(h[x])
    ensures Marking(h, c[x := Gray], gray, [x] + grayagain, {}, false)
  {
    var c', again' := c[x := Gray], [x] + grayagain;
    assert forall y :: y in again' <==> y == x || y in grayagain;
    forall y | y in h && c'[y] == Black
      ensures BlackOk(h, c', y)
    {
      assert BlackOk(h, c, y);
    }
    forall y | y in h && c'[y] == Gray
      ensures GrayOk(h, c', gray, again', false, y)
    {
      assert y != x ==> GrayOk(h, c, gray, grayagain, false, y);
    }
  }

  /** A black object changes its colour during a sweep. */
  lemma BlackRecolored(h: Heap, c: Colors, w: bool, x: Id, k: Color, strt: seq<seq<Id>>, n: nat, part: seq<Id>)
    requires x in h && c.Keys == h.Keys && c[x] == Black && k != Black && LiveClosed(h, c, w) && !IsDead(k, w)
    ensures SweepStringOk(h, c, w, strt, n) ==> SweepStringOk(h, c[x := k], w, strt, n)
    ensures SweepOk(h, c, w, strt, part) ==> SweepOk(h, c[x := k], w, strt, part)
    ensures LiveClosed(h, c[x := k], w)
  {
    forall b | 0 <= b < |strt| && AllWhite(c, w, strt[b])
      ensures AllWhite(c[x := k], w, strt[b])
    {
    }
    assert AllWhite(c, w, part) ==> AllWhite(c[x := k], w, part);
    forall t | t in h && h[t].Thread? && AllWhite(c, w, h[t].openupval)
      ensures AllWhite(c[x := k], w, h[t].openupval)
    {
    }
  }

  function Stored(vals: seq<Val>, i: nat, v: Val): seq<Val>
    requires i <= |vals|
  {
    if i < |vals| then vals[i := v] else vals + [v]
  }

  lemma StoredChildren(vals: seq<Val>, i: nat, v: Val)
    requires i <= |vals|
    ensures forall u | u in Stored(vals, i, v) :: u in vals || u == v
  {
  }

  /** What a store of v in a black object leaves to a barrier. */
  lemma StoredBlack(h: Heap, c: Colors, x: Id, i: nat, v: Val)
    requires x in h && h[x].Node? && i <= |h[x].vals| && BlackOk(h, c, x) && (v.Ref? ==> v.id in c)
    ensures var h' := h[x := Node(h[x].kind, Stored(h[x].vals, i, v))];
            && (forall y | Child(h', x, y) && !(v == Ref(y) && IsWhite(c[y])) :: y in c && !IsWhite(c[y]))
            && ((v.Ref? ==> !IsWhite(c[v.id])) ==> BlackOk(h', c, x))
  {
    StoredChildren(h[x].vals, i, v);
    var h' := h[x := Node(h[x].kind, Stored(h[x].vals, i, v))];
    forall y | Child(h', x, y) && v != Ref(y)
      ensures y in c && !IsWhite(c[y])
    {
      assert Child(h, x, y);
    }
  }

  lemma StoredUsable(h: Heap, c: Colors, w: bool, x: Id, i: nat, v: Val)
    requires LiveClosed(h, c, w) && c.Keys == h.Keys && OpenLists(h) && x in h && h[x].Node? && i <= |h[x].vals|
    requires !IsDead(c[x], w) && Usable(h, c, w, v)
    ensures var o' := Node(h[x].kind, Stored(h[x].vals, i, v)); SameShape(h[x], o', h, x) && Storable(h, c, w, x, o')
    ensures forall u | u in Stored(h[x].vals, i, v) :: u in h[x].vals || u == v
  {
    StoredChildren(h[x].vals, i, v);
    forall u | u in h[x].vals
      ensures Usable(h, c, w, u)
    {
      assert u.Ref? ==> Child(h, x, u.id);
    }
  }

  /** Overwriting a thread: its new values are usable, where they are not as before. */
  lemma ThreadStorable(h: Heap, c: Colors, w: bool, t: Id, gt: Val, stack: seq<Val>)
    requires LiveClosed(h, c, w) && c.Keys == h.Keys && OpenLists(h) && t in h && h[t].Thread?
    requires Usable(h, c, w, gt) || gt == h[t].gt
    requires forall i | 0 <= i < |stack| :: Usable(h, c, w, stack[i]) || (i < |h[t].stack| && stack[i] == h[t].stack[i])
    requires forall u | u in h && h[u].OpenUpval? && h[u].thread == t :: h[u].slot < |stack|
    ensures var o' := Thread(gt, stack, h[t].openupval); SameShape(h[t], o', h, t) && Storable(h, c, w, t, o')
  {
    var o' := Thread(gt, stack, h[t].openupval);
    var h' := h[t := o'];
    if !IsDead(c[t], w) {
      forall v | v in Vals(h', o')
        ensures Usable(h, c, w, v)
      {
        if v != gt {
          var i :| 0 <= i < |stack| && stack[i] == v;
          assert i < |h[t].stack| && v == h[t].stack[i] ==> v in Vals(h, h[t]);
        }
        assert v.Ref? && v in Vals(h, h[t]) ==> Child(h, t, v.id);
        assert h[t].gt in Vals(h, h[t]);
      }
    }
    forall u | u in h && u in c && h[u].OpenUpval? && h[u].thread == t && !IsDead(c[u], w)
      ensures Usable(h, c, w, SlotValue(h', t, h[u].slot))
    {
      var v := SlotValue(h, t, h[u].slot);
      assert v.Ref? ==> Child(h, u, v.id);
    }
  }

  // ---- Allocation ----

  function Inserted(s: seq<Id>, i: nat, x: Id): seq<Id>
    requires i <= |s|
  {
    s[..i] + [x] + s[i..]
  }

  lemma InsertedOne(s: seq<Id>, i: nat, x: Id)
    requires Distinct(s) && i <= |s| && x !in s
    ensures Distinct(Inserted(s, i, x)) && forall y :: y in Inserted(s, i, x) <==> y in s || y == x
  {
    var r := Inserted(s, i, x);
    assert forall j | 0 <= j < |r| :: r[j] == if j < i then s[j] else if j == i then x else s[j - 1];
    assert forall j | 0 <= j < |s| :: s[j] == r[if j < i then j else j + 1];
  }

  /** The place of a slot on a list that falls. */
  ghost predicate PlaceOf(h: Heap, l: seq<Id>, slot: nat, i: nat) {
    && i <= |l| && (forall j | 0 <= j < i :: SlotOf(h, l[j]) > slot)
    && forall j | i <= j < |l| :: SlotOf(h, l[j]) < slot
  }

  lemma PlaceFound(h: Heap, l: seq<Id>, slot: nat, i: nat)
    requires Falling(h, l) && i <= |l| && (forall j | 0 <= j < i :: SlotOf(h, l[j]) > slot)
    requires i < |l| ==> SlotOf(h, l[i]) < slot
    ensures PlaceOf(h, l, slot, i)
  {
  }

  lemma InsertedFalling(h: Heap, h': Heap, l: seq<Id>, slot: nat, i: nat, x: Id)
    requires Falling(h, l) && PlaceOf(h, l, slot, i) && SlotOf(h', x) == slot
    requires forall y | y in l :: SlotOf(h', y) == SlotOf(h, y)
    ensures Falling(h', Inserted(l, i, x))
  {
    hide SlotOf;
    var r := Inserted(l, i, x);
    assert forall j | 0 <= j < |r| :: r[j] == if j < i then l[j] else if j == i then x else l[j - 1];
  }

  lemma NewViews(h: Heap, x: Id, o: Obj)
    requires OpenLists(h) && x !in h
    ensures forall y | y in h :: SameView(h, h[x := o], y)
  {
  }

  lemma NewLive(h: Heap, c: Colors, w: bool, x: Id, o: Obj)
    requires LiveClosed(h, c, w) && c.Keys == h.Keys && OpenLists(h) && x !in h
    requires forall v | v in Vals(h[x := o], o) :: Usable(h, c, w, v)
    ensures LiveClosed(h[x := o], c[x := White(w)], w)
  {
    var h', c' := h[x := o], c[x := White(w)];
    NewViews(h, x, o);
    forall a, b | a in h' && a in c' && !IsDead(c'[a], w) && Child(h', a, b)
      ensures b in h' && b in c' && !IsDead(c'[b], w)
    {
      if a == x {
        assert Usable(h, c, w, Ref(b));
      } else {
        assert SameView(h, h', a) && Child(h, a, b);
      }
    }
  }

  lemma NewMarking(h: Heap, c: Colors, w: bool, gray: seq<Id>, grayagain: seq<Id>, x: Id, o: Obj)
    requires Marking(h, c, gray, grayagain, {}, false) && OpenLists(h) && x !in h && Complete(h)
    ensures Marking(h[x := o], c[x := White(w)], gray, grayagain, {}, false)
  {
    var h', c' := h[x := o], c[x := White(w)];
    NewViews(h, x, o);
    forall y | y in h' && c'[y] == Black
      ensures BlackOk(h', c', y)
    {
      assert BlackOk(h, c, y) && SameView(h, h', y);
      assert forall z :: Child(h', y, z) <==> Child(h, y, z);
    }
    forall y | y in h' && c'[y] == Gray
      ensures GrayOk(h', c', gray, grayagain, false, y)
    {
      assert GrayOk(h, c, gray, grayagain, false, y);
    }
  }

  lemma NewRootLists(h: Heap, x: Id, o: Obj, rootgc: seq<Id>, i: nat, strt: seq<seq<Id>>, uvhead: seq<Id>)
    requires RootList(h, rootgc, {}) && StringTable(h, strt) && UpvalList(h, uvhead) && OpenLists(h)
    requires x !in h && i <= |rootgc| && !o.Str? && !o.OpenUpval? && (o.Thread? ==> o.openupval == [])
    ensures var h' := h[x := o];
            RootList(h', Inserted(rootgc, i, x), {}) && StringTable(h', strt) && UpvalList(h', uvhead) && OpenLists(h')
  {
    hide StringTable;
    InsertedOne(rootgc, i, x);
    SameStrings(h, h[x := o], strt);
  }

  ghost predicate RootPart(h: Heap, part: seq<Id>) {
    forall y | y in part :: y in h
  }

  lemma NewSweep(h: Heap, c: Colors, w: bool, x: Id, o: Obj, strt: seq<seq<Id>>, n: nat, part: seq<Id>, part': seq<Id>)
    requires c.Keys == h.Keys && x !in h && !o.OpenUpval? && (o.Thread? ==> o.openupval == [])
    requires forall y | y in part' :: y in part || y == x
    requires RootPart(h, part)
    ensures SweepStringOk(h, c, w, strt, n) ==> SweepStringOk(h[x := o], c[x := White(w)], w, strt, n)
    ensures SweepOk(h, c, w, strt, part) ==> SweepOk(h[x := o], c[x := White(w)], w, strt, part')
    ensures RestOk(c, w) ==> RestOk(c[x := White(w)], w)
  {
  }

  lemma PartInserted(s: seq<Id>, i: nat, x: Id, n: nat)
    requires i <= |s| && n <= |s|
    ensures forall y | y in Inserted(s, i, x)[..if i < n then n + 1 else n] :: y in s[..n] || y == x
  {
    var r, m := Inserted(s, i, x), if i < n then n + 1 else n;
    forall j | 0 <= j < m
      ensures r[j] in s[..n] || r[j] == x
    {
      assert j < i ==> r[j] == s[..n][j];
      assert j > i ==> r[j] == s[..n][j - 1];
    }
  }

  lemma PartInHeap(h: Heap, rootgc: seq<Id>, n: nat)
    requires RootList(h, rootgc, {}) && n <= |rootgc|
    ensures RootPart(h, rootgc[..n])
  {
  }

  lemma NewStringTable(h: Heap, x: Id, b: nat, strt: seq<seq<Id>>)
    requires StringTable(h, strt) && x !in h && b < |strt|
    ensures StringTable(h[x := Str], strt[b := [x] + strt[b]])
  {
    var h', strt' := h[x := Str], strt[b := [x] + strt[b]];
    forall d, y
      ensures InBucket(strt', d, y) <==> InBucket(strt, d, y) || (d == b && y == x)
    {
    }
    forall d | 0 <= d < |strt'|
      ensures Distinct(strt'[d])
    {
      if d == b {
        forall j | 0 <= j < |strt[b]|
          ensures strt[b][j] != x
        {
          assert InBucket(strt, b, strt[b][j]);
        }
      }
    }
    forall y | y in h' && h'[y].Str?
      ensures exists d :: InBucket(strt', d, y)
    {
      if y == x {
        assert InBucket(strt', b, x);
      } else {
        var d :| InBucket(strt, d, y);
        assert InBucket(strt', d, y);
      }
    }
  }

  lemma NewStringOpen(h: Heap, x: Id)
    requires OpenLists(h) && x !in h
    ensures OpenLists(h[x := Str])
  {
  }

  lemma NewStringLists(h: Heap, x: Id, b: nat, rootgc: seq<Id>, strt: seq<seq<Id>>, uvhead: seq<Id>)
    requires RootList(h, rootgc, {}) && StringTable(h, strt) && UpvalList(h, uvhead) && OpenLists(h)
    requires x !in h && b < |strt|
    ensures var h' := h[x := Str];
            && RootList(h', rootgc, {}) && UpvalList(h', uvhead) && OpenLists(h')
            && StringTable(h', strt[b := [x] + strt[b]])
  {
    hide OpenLists, StringTable;
    NewStringTable(h, x, b, strt);
    NewStringOpen(h, x);
  }

  lemma NewStringSweep(h: Heap, c: Colors, w: bool, x: Id, b: nat, strt: seq<seq<Id>>, n: nat, part: seq<Id>)
    requires c.Keys == h.Keys && x !in h && b < |strt|
    ensures var strt' := strt[b := [x] + strt[b]];
            && (SweepStringOk(h, c, w, strt, n) ==> SweepStringOk(h[x := Str], c[x := White(w)], w, strt', n))
            && (SweepOk(h, c, w, strt, part) ==> SweepOk(h[x := Str], c[x := White(w)], w, strt', part))
            && (RestOk(c, w) ==> RestOk(c[x := White(w)], w))
  {
    var strt', c' := strt[b := [x] + strt[b]], c[x := White(w)];
    forall d | 0 <= d < |strt| && AllWhite(c, w, strt[d])
      ensures AllWhite(c', w, strt'[d])
    {
    }
  }

  lemma RevivedLive(h: Heap, c: Colors, w: bool, x: Id)
    requires LiveClosed(h, c, w) && c.Keys == h.Keys && x in h
    requires forall v | v in Vals(h, h[x]) :: Usable(h, c, w, v)
    ensures LiveClosed(h, c[x := White(w)], w)
  {
    forall a, b | a in h && !IsDead(c[x := White(w)][a], w) && Child(h, a, b)
      ensures b in h && b in c && !IsDead(c[x := White(w)][b], w)
    {
      if a == x {
        assert Usable(h, c, w, Ref(b));
      }
    }
  }

  lemma RevivedSweep(h: Heap, c: Colors, w: bool, x: Id, strt: seq<seq<Id>>, n: nat, part: seq<Id>)
    requires c.Keys == h.Keys && x in h
    ensures SweepStringOk(h, c, w, strt, n) ==> SweepStringOk(h, c[x := White(w)], w, strt, n)
    ensures SweepOk(h, c, w, strt, part) ==> SweepOk(h, c[x := White(w)], w, strt, part)
  {
  }

  lemma SameBuckets(h: Heap, c: Colors, w: bool, strt: seq<seq<Id>>, table: seq<seq<Id>>)
    requires StringTable(h, strt) && StringTable(h, table)
    ensures (forall b | 0 <= b < |strt| :: AllWhite(c, w, strt[b])) ==> forall b | 0 <= b < |table| ::
              AllWhite(c, w, table[b])
  {
    if forall b | 0 <= b < |strt| :: AllWhite(c, w, strt[b]) {
      forall b, x | 0 <= b < |table| && x in table[b]
        ensures x in c && c[x] == White(w)
      {
        assert InBucket(table, b, x);
        var d :| InBucket(strt, d, x);
      }
    }
  }

  lemma NewPropagate(h: Heap, c: Colors, w: bool, gray: seq<Id>, grayagain: seq<Id>, mainthread: Id, registry: Val,
                     x: Id, o: Obj)
    requires PropagateOk(h, c, w, gray, grayagain, {}, mainthread, registry)
    requires LiveClosed(h, c, w) && c.Keys == h.Keys && OpenLists(h) && x !in h
    ensures PropagateOk(h[x := o], c[x := White(w)], w, gray, grayagain, {}, mainthread, registry)
  {
    hide Marking;
    NoDeadComplete(h, c, w);
    NewMarking(h, c, w, gray, grayagain, x, o);
  }

  /** The heap with a new open upvalue x for a slot of thread t, at position i of its list. */
  function Opened(h: Heap, t: Id, slot: nat, i: nat, x: Id): Heap
    requires t in h && h[t].Thread? && i <= |h[t].openupval|
  {
    h[t := h[t].(openupval := Inserted(h[t].openupval, i, x))][x := OpenUpval(t, slot)]
  }

  /** An upvalue joined the list of thread t in its place. */
  ghost predicate Joined(h: Heap, h': Heap, t: Id, slot: nat, x: Id) {
    t in h && h[t].Thread? && exists i | 0 <= i <= |h[t].openupval| :: h' == Opened(h, t, slot, i, x)
  }

  ghost predicate HasSlot(h: Heap, t: Id, slot: nat) {
    t in h && h[t].Thread? && slot < |h[t].stack|
  }

  lemma OpenedViews(h: Heap, t: Id, slot: nat, i: nat, x: Id)
    requires t in h && h[t].Thread? && i <= |h[t].openupval| && x !in h && OpenLists(h)
    ensures forall y | y in h :: SameView(h, Opened(h, t, slot, i, x), y)
    ensures var h' := Opened(h, t, slot, i, x);
            h'.Keys == h.Keys + {x} && (forall y | y in h && y != t :: h'[y] == h[y]) && h'[t].Thread?
            && h'[x] == OpenUpval(t, slot)
  {
  }

  lemma OpenedFalling(h: Heap, t: Id, slot: nat, i: nat, x: Id)
    requires OpenLists(h) && t in h && h[t].Thread? && PlaceOf(h, h[t].openupval, slot, i) && x !in h
    ensures AllFalling(Opened(h, t, slot, i, x))
  {
    var h' := Opened(h, t, slot, i, x);
    forall s | s in h' && h'[s].Thread?
      ensures Falling(h', h'[s].openupval)
    {
      assert forall u | u in h[s].openupval :: u in h && u != x && SlotOf(h', u) == SlotOf(h, u);
      if s == t {
        InsertedFalling(h, h', h[t].openupval, slot, i, x);
      } else {
        FallingKept(h, h', h[s].openupval);
      }
    }
  }

  lemma OpenedMembers(h: Heap, t: Id, slot: nat, i: nat, x: Id)
    requires OpenLists(h) && t in h && h[t].Thread? && i <= |h[t].openupval| && x !in h && slot < |h[t].stack|
    ensures var h' := Opened(h, t, slot, i, x);
            && (forall s | s in h' && h'[s].Thread? :: Distinct(h'[s].openupval))
            && (forall s, u | s in h' && h'[s].Thread? && u in h'[s].openupval ::
                  u in h' && h'[u].OpenUpval? && h'[u].thread == s)
            && forall u | u in h' && h'[u].OpenUpval? ::
                 var s := h'[u].thread;
                 s in h' && h'[s].Thread? && h'[u].slot < |h'[s].stack| && u in h'[s].openupval
  {
    hide AllFalling, Falling, PlaceOf, SlotOf;
    InsertedOne(h[t].openupval, i, x);
    OpenedViews(h, t, slot, i, x);
  }

  lemma OpenedOpen(h: Heap, t: Id, slot: nat, i: nat, x: Id)
    requires OpenLists(h) && t in h && h[t].Thread? && PlaceOf(h, h[t].openupval, slot, i) && x !in h
             && slot < |h[t].stack|
    ensures OpenLists(Opened(h, t, slot, i, x))
  {
    hide AllFalling, Distinct, Falling, Inserted, Opened, SlotOf;
    OpenedMembers(h, t, slot, i, x);
    OpenedFalling(h, t, slot, i, x);
  }

  lemma OpenedRest(h: Heap, t: Id, slot: nat, i: nat, x: Id, rootgc: seq<Id>, uvhead: seq<Id>)
    requires RootList(h, rootgc, {}) && UpvalList(h, uvhead)
    requires t in h && h[t].Thread? && i <= |h[t].openupval| && x !in h
    ensures RootList(Opened(h, t, slot, i, x), rootgc, {}) && UpvalList(Opened(h, t, slot, i, x), [x] + uvhead)
  {
    assert forall y :: y in [x] + uvhead <==> y == x || y in uvhead;
  }

  lemma OpenedLists(h: Heap, t: Id, slot: nat, i: nat, x: Id, rootgc: seq<Id>, strt: seq<seq<Id>>, uvhead: seq<Id>)
    requires RootList(h, rootgc, {}) && StringTable(h, strt) && UpvalList(h, uvhead) && OpenLists(h)
    requires t in h && h[t].Thread? && PlaceOf(h, h[t].openupval, slot, i) && x !in h && slot < |h[t].stack|
    ensures var h' := Opened(h, t, slot, i, x);
            RootList(h', rootgc, {}) && StringTable(h', strt) && UpvalList(h', [x] + uvhead) && OpenLists(h')
  {
    hide AllFalling, Falling, Inserted, OpenLists, Opened, RootList, SlotOf, StringTable, UpvalList;
    OpenedViews(h, t, slot, i, x);
    OpenedRest(h, t, slot, i, x, rootgc, uvhead);
    SameStrings(h, Opened(h, t, slot, i, x), strt);
    OpenedOpen(h, t, slot, i, x);
  }

  lemma OpenedLive(h: Heap, c: Colors, w: bool, t: Id, slot: nat, i: nat, x: Id)
    requires LiveClosed(h, c, w) && c.Keys == h.Keys && OpenLists(h)
    requires t in h && h[t].Thread? && i <= |h[t].openupval| && x !in h && slot < |h[t].stack| && !IsDead(c[t], w)
    ensures LiveClosed(Opened(h, t, slot, i, x), c[x := White(w)], w)
  {
    var h', c' := Opened(h, t, slot, i, x), c[x := White(w)];
    OpenedViews(h, t, slot, i, x);
    forall a, b | a in h' && a in c' && !IsDead(c'[a], w) && Child(h', a, b)
      ensures b in h' && b in c' && !IsDead(c'[b], w)
    {
      if a == x {
        assert Ref(b) == h[t].stack[slot] && Ref(b) in Vals(h, h[t]);
        assert Child(h, t, b);
      } else {
        assert SameView(h, h', a) && Child(h, a, b);
      }
    }
  }

  lemma OpenedBlack(h: Heap, c: Colors, w: bool, t: Id, slot: nat, i: nat, x: Id, y: Id)
    requires t in h && h[t].Thread? && i <= |h[t].openupval| && x !in h
    requires c.Keys == h.Keys && OpenLists(h) && Complete(h)
    requires y in h && BlackOk(h, c, y) && c[y] == Black && !h[y].OpenUpval?
    ensures BlackOk(Opened(h, t, slot, i, x), c[x := White(w)], y)
  {
    var h' := Opened(h, t, slot, i, x);
    OpenedViews(h, t, slot, i, x);
    assert SameView(h, h', y);
    assert forall z :: Child(h', y, z) <==> Child(h, y, z);
  }

  lemma OpenedPropagate(h: Heap, c: Colors, w: bool, t: Id, slot: nat, i: nat, x: Id, gray: seq<Id>, grayagain: seq<Id>,
                        mainthread: Id, registry: Val)
    requires PropagateOk(h, c, w, gray, grayagain, {}, mainthread, registry) && Complete(h) && OpenLists(h)
    requires t in h && h[t].Thread? && i <= |h[t].openupval| && x !in h
    ensures PropagateOk(Opened(h, t, slot, i, x), c[x := White(w)], w, gray, grayagain, {}, mainthread, registry)
  {
    hide AllFalling, Opened, OpenLists, SameView;
    var h', c' := Opened(h, t, slot, i, x), c[x := White(w)];
    OpenedViews(h, t, slot, i, x);
    forall y | y in h' && c'[y] == Black
      ensures BlackOk(h', c', y)
    {
      assert BlackOk(h, c, y);
      OpenedBlack(h, c, w, t, slot, i, x, y);
    }
    forall y | y in h' && c'[y] == Gray
      ensures GrayOk(h', c', gray, grayagain, false, y)
    {
      assert GrayOk(h, c, gray, grayagain, false, y);
    }
  }

  lemma OpenedSweep(h: Heap, c: Colors, w: bool, t: Id, slot: nat, i: nat, x: Id, strt: seq<seq<Id>>, n: nat,
                    part: seq<Id>)
    requires c.Keys == h.Keys && t in h && h[t].Thread? && i <= |h[t].openupval| && x !in h
    requires RootPart(h, part)
    ensures var h', c' := Opened(h, t, slot, i, x), c[x := White(w)];
            && (SweepStringOk(h, c, w, strt, n) ==> SweepStringOk(h', c', w, strt, n))
            && (SweepOk(h, c, w, strt, part) ==> SweepOk(h', c', w, strt, part))
            && (RestOk(c, w) ==> RestOk(c', w))
  {
    assert forall y :: y in Inserted(h[t].openupval, i, x) ==> y in h[t].openupval || y == x;
  }

  /** Whether some buckets hold every string of the heap once. */
  predicate IsTable(h: Heap, table: seq<seq<Id>>) {
    && (forall b | 0 <= b < |table| :: forall i, j | 0 <= i < j < |table[b]| :: table[b][i] != table[b][j])
    && (forall b | 0 <= b < |table| :: forall x | x in table[b] :: x in h && h[x].Str?)
    && (forall b, d | 0 <= b < d < |table| :: forall x | x in table[b] :: x !in table[d])
    && (forall x | x in h.Keys && h[x].Str? :: exists b | 0 <= b < |table| :: x in table[b])
  }

  lemma IsTableOk(h: Heap, table: seq<seq<Id>>)
    requires IsTable(h, table)
    ensures StringTable(h, table)
  {
    forall b, d, x | InBucket(table, b, x) && InBucket(table, d, x)
      ensures b == d
    {
    }
    forall x | x in h && h[x].Str?
      ensures exists b :: InBucket(table, b, x)
    {
      var b :| 0 <= b < |table| && x in table[b];
      assert InBucket(table, b, x);
    }
  }

  // ---- What the fields hold ----

  /** The object x has the value v in one of its fields; an open upvalue shows a slot of a stack. */
  ghost predicate HasField(h: Heap, x: Id, v: Val) {
    x in h &&
    match h[x]
    case Str => false
    case Node(_, vals) => exists i | 0 <= i < |vals| :: vals[i] == v
    case Thread(gt, stack, _) => gt == v || exists i | 0 <= i < |stack| :: stack[i] == v
    case OpenUpval(t, i) => t in h && h[t].Thread? && i < |h[t].stack| && h[t].stack[i] == v
    case ClosedUpval(w) => w == v
  }

  /** An object has the same fields, but for the list of its open upvalues. An upvalue may have been closed with
      the value of its slot. */
  ghost predicate SameFields(h: Heap, h': Heap, x: Id) {
    && x in h && x in h'
    && match h[x]
       case Thread(gt, stack, _) => h'[x].Thread? && h'[x].gt == gt && h'[x].stack == stack
       case OpenUpval(t, i) =>
         h'[x] == h[x] || (t in h && h[t].Thread? && i < |h[t].stack| && h'[x] == ClosedUpval(h[t].stack[i]))
       case _ => h'[x] == h[x]
  }

  ghost predicate AllSameFields(h: Heap, h': Heap) {
    forall y | y in h :: SameFields(h, h', y)
  }

  lemma SameFieldsSelf(h: Heap)
    ensures AllSameFields(h, h)
  {
  }

  lemma OpenedFields(h: Heap, t: Id, slot: nat, i: nat, x: Id)
    requires t in h && h[t].Thread? && i <= |h[t].openupval| && x !in h && OpenLists(h)
    ensures var h' := Opened(h, t, slot, i, x); h'.Keys == h.Keys + {x} && AllSameFields(h, h')
  {
  }

  /** Whether a program that has x can read a value with the index i from it. */
  predicate Readable(h: Heap, x: Id, i: nat) {
    x in h &&
    match h[x]
    case Str => false
    case Node(_, vals) => i < |vals|
    case Thread(_, stack, _) => i < |stack|
    case OpenUpval(t, j) => t in h && h[t].Thread? && j < |h[t].stack|
    case ClosedUpval(_) => true
  }

  function Field(h: Heap, x: Id, i: nat): (v: Val)
    requires Readable(h, x, i)
    ensures HasField(h, x, v)
  {
    match h[x]
    case Node(_, vals) => vals[i]
    case Thread(_, stack, _) => stack[i]
    case OpenUpval(t, j) => h[t].stack[j]
    case ClosedUpval(v) => v
  }

  lemma GlobalsHeld(h: Heap, t: Id)
    requires t in h && h[t].Thread?
    ensures HasField(h, t, h[t].gt)
  {
  }

  /** The collector follows exactly the fields that refer to objects. */
  lemma ChildIs(h: Heap, x: Id, y: Id)
    ensures Child(h, x, y) <==> HasField(h, x, Ref(y))
  {
    if x in h && h[x].Thread? {
      assert Vals(h, h[x])[1..] == h[x].stack;
    }
  }

  /** Every value in a field of an object that is not dead may be used. */
  lemma FieldUsable(h: Heap, c: Colors, w: bool, x: Id, v: Val)
    requires LiveClosed(h, c, w) && x in c && !IsDead(c[x], w) && HasField(h, x, v)
    ensures Usable(h, c, w, v)
  {
    if v.Ref? { ChildIs(h, x, v.id); }
  }

  /** No field of the object refers to a white one. */
  lemma FieldsMarked(h: Heap, c: Colors, x: Id)
    requires NoWhiteChild(h, c, x)
    ensures forall y | HasField(h, x, Ref(y)) :: y in c && !IsWhite(c[y])
  {
    forall y | HasField(h, x, Ref(y))
      ensures y in c && !IsWhite(c[y])
    {
      ChildIs(h, x, y);
    }
  }

  lemma ViewFields(h: Heap, h': Heap, x: Id)
    requires SameView(h, h', x) && OpenLists(h)
    ensures SameFields(h, h', x)
  {
    if h[x].Thread? {
      assert Vals(h, h[x])[1..] == h[x].stack && Vals(h', h'[x])[1..] == h'[x].stack;
    }
  }

  ghost predicate FieldsKept(h: Heap, h': Heap, roots: set<Id>) {
    forall x | Reachable(h, roots, x) :: SameFields(h, h', x)
  }

  /** What is kept has the same fields. */
  lemma KeptFields(h: Heap, h': Heap, roots: set<Id>)
    requires Kept(h, h', roots) && OpenLists(h)
    ensures FieldsKept(h, h', roots)
  {
    forall x | Reachable(h, roots, x)
      ensures SameFields(h, h', x)
    {
      ViewFields(h, h', x);
    }
  }

  lemma PathFront(h: Heap, p: seq<Id>)
    requires Path(h, p) && |p| > 1
    ensures Path(h, p[..|p| - 1]) && Child(h, p[|p| - 2], p[|p| - 1])
  {
    var q := p[..|p| - 1];
    forall i | 0 <= i < |q| - 1
      ensures Child(h, q[i], q[i + 1])
    {
      assert Child(h, p[i], p[i + 1]);
    }
    var i := |p| - 2;
    assert Child(h, p[i], p[i + 1]);
  }

  /** What is reachable is a root, or a field of something reachable refers to it. */
  lemma HeldByField(h: Heap, roots: set<Id>, y: Id)
    requires Reachable(h, roots, y) && y !in roots
    ensures exists x :: Reachable(h, roots, x) && HasField(h, x, Ref(y))
  {
    hide Child, HasField;
    var p :| Path(h, p) && p[0] in roots && p[|p| - 1] == y;
    PathFront(h, p);
    var q := p[..|p| - 1];
    assert Path(h, q) && q[0] in roots;
    ChildIs(h, q[|q| - 1], y);
  }
}
