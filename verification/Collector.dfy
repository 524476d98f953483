/** The incremental collector (lgc.c) and the operations of the program that it interleaves with. */
module Collector {
  import opened GcHeap

  /** What can happen to the state: collector steps and the operations of the program. */
  datatype Event =
    | StepEvent(n: nat)
    | FullEvent
    | NewEvent(x: Id, o: Obj)
    | UserdataEvent(x: Id, vals: seq<Val>)
    | StringEvent(x: Id, b: nat)
    | ReuseEvent(x: Id)
    | FixEvent(x: Id)
    | ResizeEvent(table: seq<seq<Id>>)
    | FieldEvent(x: Id, i: nat, v: Val)
    | ClosedEvent(x: Id, v: Val)
    | SlotEvent(x: Id, i: nat, v: Val)
    | PushEvent(x: Id, v: Val)
    | PopEvent(x: Id, i: nat)
    | GlobalsEvent(x: Id, v: Val)
    | MetatableEvent(i: nat, v: Val)
    | SwitchEvent(x: Id)
    | FindEvent(i: nat, x: Id)
    | CloseEvent(i: nat)
    | LoadEvent(t: Id, x: Id, i: nat)
    | LoadGlobalsEvent(t: Id, x: Id)
    | LoadRegistryEvent(t: Id)
    | LoadMetatableEvent(t: Id, i: nat)

  ghost predicate Pushed(h: Heap, h': Heap, t: Id, v: Val) {
    t in h && h[t].Thread? && h' == h[t := h[t].(stack := h[t].stack + [v])]
  }

  /** What the program sees of the state. */
  datatype State = State(heap: Heap, running: Id, registry: Val, mt: seq<Val>, fixed: set<Id>)

  /** What an operation of the program does to the heap; r is the running thread. */
  ghost predicate HeapEffect(e: Event, h: Heap, h': Heap, r: Id) {
    match e
    case StepEvent(_) => true
    case FullEvent => true
    case NewEvent(x, o) => h' == h[x := o]
    case UserdataEvent(x, vals) => h' == h[x := Node(UserData, vals)]
    case StringEvent(x, _) => h' == h[x := Str]
    case FieldEvent(x, i, v) =>
      && x in h && h[x].Node? && i <= |h[x].vals|
      && h' == h[x := Node(h[x].kind, if i < |h[x].vals| then h[x].vals[i := v] else h[x].vals + [v])]
    case ClosedEvent(x, v) => h' == h[x := ClosedUpval(v)]
    case SlotEvent(t, i, v) => HasSlot(h, t, i) && h' == h[t := h[t].(stack := h[t].stack[i := v])]
    case PushEvent(t, v) => Pushed(h, h', t, v)
    case PopEvent(t, n) =>
      t in h && h[t].Thread? && n <= |h[t].stack| && h' == h[t := h[t].(stack := h[t].stack[..n])]
    case GlobalsEvent(t, v) => t in h && h[t].Thread? && h' == h[t := h[t].(gt := v)]
    case FindEvent(i, x) =>
      && h'.Keys <= h.Keys + {x} && AllSameFields(h, h')
      && exists u :: u in h' && h'[u] == OpenUpval(r, i)
    case CloseEvent(i) => forall u | u in h' && h'[u].OpenUpval? && h'[u].thread == r :: h'[u].slot < i
    case LoadEvent(t, x, i) => Readable(h, x, i) && Pushed(h, h', t, Field(h, x, i))
    case LoadGlobalsEvent(t, x) => x in h && h[x].Thread? && Pushed(h, h', t, h[x].gt)
    case LoadRegistryEvent(_) => true
    case LoadMetatableEvent(_, _) => true
    case _ => h' == h
  }

  ghost predicate Effect(e: Event, s: State, s': State) {
    && s'.registry == s.registry
    && s'.running == (if e.SwitchEvent? then e.x else s.running)
    && s'.fixed == (if e.FixEvent? then s.fixed + {e.x} else s.fixed)
    && (if e.MetatableEvent? then e.i < |s.mt| && s'.mt == s.mt[e.i := e.v] else s'.mt == s.mt)
    && match e
       case LoadRegistryEvent(t) => Pushed(s.heap, s'.heap, t, s.registry)
       case LoadMetatableEvent(t, k) => k < |s.mt| && Pushed(s.heap, s'.heap, t, s.mt[k])
       case _ => HeapEffect(e, s.heap, s'.heap, s.running)
  }

  /** The lists and colours of a new state. */
  lemma StartOk(h: Heap, c: Colors, strt: seq<seq<Id>>, main: Id, reg: Id)
    requires main != reg && h == map[main := Thread(Plain(0), [], []), reg := Node(TableObject, [])]
    requires c == map[main := White0, reg := White0] && forall b | 0 <= b < |strt| :: strt[b] == []
    ensures RootList(h, [reg, main], {}) && StringTable(h, strt) && UpvalList(h, []) && OpenLists(h)
    ensures LiveClosed(h, c, false) && RestOk(c, false)
  {
  }

  class GlobalState {
    var heap: Heap
    var color: Colors
    var fixed: set<Id>
    var currentwhite: bool
    var gcstate: GcState
    var rootgc: seq<Id>
    var sweepgc: nat
    var strt: seq<seq<Id>>
    var sweepstrgc: nat
    var gray: seq<Id>
    var grayagain: seq<Id>
    var uvhead: seq<Id>
    const mainthread: Id
    var running: Id
    var registry: Val
    var mt: seq<Val>

    // ---- Invariants ----

    ghost function Roots(): set<Id>
      reads this`running, this`registry, this`mt
    {
      {mainthread, running} + Refs([registry] + mt)
    }

    ghost function View(): State
      reads this
    {
      State(heap, running, registry, mt, fixed)
    }

    ghost predicate LinkedAs(roots: seq<Id>, loose: set<Id>)
      reads this
    {
      && color.Keys == heap.Keys
      && RootList(heap, roots, loose) && StringTable(heap, strt) && UpvalList(heap, uvhead) && OpenLists(heap)
      && mainthread in heap && heap[mainthread].Thread? && running in heap && heap[running].Thread?
      && mainthread in fixed && (forall x | x in fixed :: x in heap && (heap[x].Str? || x == mainthread))
      && strt != []
    }

    /** Every object is on exactly one list; `loose` is what is being unlinked. */
    ghost predicate Linked(loose: set<Id>)
      reads this
    {
      LinkedAs(rootgc, loose) && sweepgc <= |rootgc|
    }

    /** What the program can use is neither freed nor dead. */
    ghost predicate Safe()
      reads this
    {
      && LiveClosed(heap, color, currentwhite)
      && forall x | x in Roots() :: x in heap && x in color && !IsDead(color[x], currentwhite)
    }

    ghost predicate Phase()
      reads this
    {
      sweepgc <= |rootgc| &&
      match gcstate
      case Propagate => PropagateOk(heap, color, currentwhite, gray, grayagain, {}, mainthread, registry)
      case SweepString => sweepgc == 0 && SweepStringOk(heap, color, currentwhite, strt, sweepstrgc)
      case Sweep => SweepOk(heap, color, currentwhite, strt, rootgc[..sweepgc])
      case _ => RestOk(color, currentwhite)
    }

    ghost predicate Valid()
      reads this
    {
      Linked({}) && Safe() && Phase()
    }

    // ---- Marking ----

    ghost predicate MarkReady(exempt: set<Id>, strict: bool, P: set<Id>)
      reads this
    {
      && Complete(heap) && ChildClosed(heap, P)
      && Marking(heap, color, gray, grayagain, exempt, strict)
      && (forall x | x in gray || x in grayagain :: x in P)
      && forall e | e in exempt && e in color :: !IsWhite(color[e])
    }

    /** markvalue for each of some values. */
    method MarkVals(vals: seq<Val>, ghost exempt: set<Id>, ghost strict: bool, ghost P: set<Id>)
      requires MarkReady(exempt, strict, P)
      requires forall y | Ref(y) in vals :: y in heap && y in P
      modifies this`color, this`gray
      ensures MarkReady(exempt, strict, P) && MarksMore(old(color), color, P)
      ensures forall y | Ref(y) in vals :: !IsWhite(color[y])
      ensures |Whites(color)| < |old(Whites(color))| || (color == old(color) && gray == old(gray))
      decreases |Whites(color)|, 1
    {
      var i := 0;
      while i < |vals|
        invariant 0 <= i <= |vals|
        invariant MarkReady(exempt, strict, P) && MarksMore(old(color), color, P)
        invariant |Whites(color)| < |old(Whites(color))| || (color == old(color) && gray == old(gray))
        invariant forall y | Ref(y) in vals[..i] :: !IsWhite(color[y])
      {
        ghost var c0 := color;
        if vals[i].Ref? && IsWhite(color[vals[i].id]) {
          assert Ref(vals[i].id) in vals;
          MarksMoreWhites(old(color), color, P);
          ReallyMark(vals[i].id, exempt, strict, P);
        }
        i := i + 1;
      }
      assert vals[..i] == vals;
    }

    /** reallymarkobject on a closed upvalue, which is gray while its value is marked. */
    method MarkClosed(x: Id, v: Val, ghost exempt: set<Id>, ghost strict: bool, ghost P: set<Id>)
      requires MarkReady(exempt + {x}, strict, P) && x in heap && heap[x] == ClosedUpval(v) && x in P
      requires forall y | Ref(y) in [v] :: y in heap && y in P
      modifies this`color, this`gray
      ensures MarkReady(exempt, strict, P) && MarksMore(old(color)[x := Black], color, P)
      ensures |Whites(color)| <= |old(Whites(color))|
      decreases |Whites(color)|, 2
    {
      hide ChildClosed, Complete, Marking, NoWhiteChild, Whites;
      ghost var c0 := color;
      ColorsCover(heap, color, gray, grayagain, exempt + {x}, strict);
      MarkVals([v], exempt + {x}, strict, P);
      ColorsCover(heap, color, gray, grayagain, exempt + {x}, strict);
      MarksMoreWhites(c0, color, P);
      ghost var c1 := color;
      color := color[x := Black];
      SameWhites(c1, x, Black);
      AllMarked(heap, color, x);
      Settled(heap, c1, gray, grayagain, exempt, strict, x, Black);
    }

    /** reallymarkobject. */
    method ReallyMark(x: Id, ghost exempt: set<Id>, ghost strict: bool, ghost P: set<Id>)
      requires MarkReady(exempt, strict, P)
      requires x in heap && IsWhite(color[x]) && x in P
      modifies this`color, this`gray
      ensures MarkReady(exempt, strict, P) && MarksMore(old(color), color, P)
      ensures !IsWhite(color[x]) && |Whites(color)| < |old(Whites(color))|
      decreases |Whites(color)|, 0
    {
      hide ChildClosed, Complete, Distinct, GrayOk, Marking, MarksMore, NoWhiteChild, SlotValue, Whites;
      ghost var c0 := color;
      ChildrenIn(heap, P, x);
      ColorsCover(heap, color, gray, grayagain, exempt, strict);
      MarkOne(c0, x, Gray);
      color := color[x := Gray];
      match heap[x] {
        case Str =>
          Exempted(heap, c0, gray, grayagain, exempt, strict, x, Gray);
          Settled(heap, color, gray, grayagain, exempt, strict, x, Gray);
          assert color[x := Gray] == color;
          MarkedMore(c0, x, Gray, color, P);
        case Node(kind, vals) =>
          if kind == UserData {
            color := color[x := Black];
            MarkOne(c0, x, Black);
            assert color == c0[x := Black];
            Exempted(heap, c0, gray, grayagain, exempt, strict, x, Black);
            MarkVals(vals, exempt + {x}, strict, P);
            MarkedMore(c0, x, Black, color, P);
            ColorsCover(heap, color, gray, grayagain, exempt + {x}, strict);
            AllMarked(heap, color, x);
            assert color[x := Black] == color;
            Settled(heap, color, gray, grayagain, exempt, strict, x, Black);
          } else {
            Queued(heap, c0, gray, grayagain, exempt, strict, x);
            gray := [x] + gray;
            MarkedMore(c0, x, Gray, color, P);
          }
        case Thread(_, _, _) =>
          Queued(heap, c0, gray, grayagain, exempt, strict, x);
          gray := [x] + gray;
          MarkedMore(c0, x, Gray, color, P);
        case OpenUpval(t, i) =>
          Exempted(heap, c0, gray, grayagain, exempt, strict, x, Gray);
          MarkVals([SlotValue(heap, t, i)], exempt + {x}, strict, P);
          MarkedMore(c0, x, Gray, color, P);
          ColorsCover(heap, color, gray, grayagain, exempt + {x}, strict);
          AllMarked(heap, color, x);
          assert color[x := Gray] == color;
          Settled(heap, color, gray, grayagain, exempt, strict, x, Gray);
        case ClosedUpval(v) =>
          Exempted(heap, c0, gray, grayagain, exempt, strict, x, Gray);
          MarkClosed(x, v, exempt, strict, P);
          assert c0[x := Gray][x := Black] == c0[x := Black];
          MarkedMore(c0, x, Black, color, P);
      }
    }

    // ---- Propagation ----

    /** propagatemark: traverse the first gray object. A thread stays gray, on the other list. */
    method PropagateMark(ghost strict: bool, ghost P: set<Id>)
      requires MarkReady({}, strict, P) && gray != []
      modifies this`color, this`gray, this`grayagain
      ensures MarkReady({}, strict, P) && Darkens(old(color), color, P)
      ensures |Whites(color)| < |old(Whites(color))|
                              || (|Whites(color)| == |old(Whites(color))| && |gray| < |old(gray)|)
      ensures NoWhiteChild(heap, color, old(gray[0]))
      ensures forall y | HasField(heap, old(gray[0]), Ref(y)) :: y in color && !IsWhite(color[y])
      ensures grayagain == if heap[old(gray[0])].Thread? then [old(gray[0])] + old(grayagain) else old(grayagain)
    {
      hide Complete, ChildClosed, Marking;
      var o := gray[0];
      ghost var c0 := color;
      GrayHead(heap, color, gray, grayagain, strict);
      ChildrenIn(heap, P, o);
      if heap[o].Thread? {
        ToGrayAgain(heap, color, gray, grayagain, strict);
        gray, grayagain := gray[1..], [o] + grayagain;
        MarkVals(Vals(heap, heap[o]), {}, strict, P);
        ColorsCover(heap, color, gray, grayagain, {}, strict);
        AllMarked(heap, color, o);
      } else {
        Blackened(heap, color, gray, grayagain, strict);
        color := color[o := Black];
        gray := gray[1..];
        MarkVals(Vals(heap, heap[o]), {o}, strict, P);
        ColorsCover(heap, color, gray, grayagain, {o}, strict);
        AllMarked(heap, color, o);
        assert color[o := Black] == color;
        assert {} + {o} == {o};
        Settled(heap, color, gray, grayagain, {}, strict, o, Black);
      }
      FieldsMarked(heap, color, o);
    }

    /** What waits to be traversed again is threads whose values are all marked. */
    ghost predicate ThreadsDone()
      reads this
    {
      forall t | t in grayagain :: t in heap && heap[t].Thread? && NoWhiteChild(heap, color, t)
    }

    /** propagateall. */
    method PropagateAll(ghost strict: bool, ghost P: set<Id>)
      requires MarkReady({}, strict, P)
      modifies this`color, this`gray, this`grayagain
      ensures MarkReady({}, strict, P) && Darkens(old(color), color, P) && gray == []
      ensures old(ThreadsDone()) ==> ThreadsDone()
    {
      hide Complete, ChildClosed, Marking;
      while gray != []
        invariant MarkReady({}, strict, P) && Darkens(old(color), color, P)
        invariant old(ThreadsDone()) ==> ThreadsDone()
        decreases |Whites(color)|, |gray|
      {
        ghost var c1, again1 := color, grayagain;
        GrayHead(heap, color, gray, grayagain, strict);
        PropagateMark(strict, P);
        DarkensTwice(old(color), c1, color, P);
        DarkensKeeps(heap, c1, color, P, again1);
      }
    }

    /** markobject. */
    method MarkObject(x: Id, ghost strict: bool, ghost P: set<Id>)
      requires MarkReady({}, strict, P) && x in heap && x in P
      modifies this`color, this`gray
      ensures MarkReady({}, strict, P) && MarksMore(old(color), color, P) && !IsWhite(color[x])
    {
      hide Complete, ChildClosed, Marking;
      ColorsCover(heap, color, gray, grayagain, {}, strict);
      if IsWhite(color[x]) {
        ReallyMark(x, {}, strict, P);
      }
    }

    /** remarkupvals: mark the values of the gray open upvalues. */
    method RemarkUpvals(ghost P: set<Id>)
      requires MarkReady({}, false, P) && UpvalList(heap, uvhead)
      requires forall u | u in heap && heap[u].OpenUpval? && !IsWhite(color[u]) :: u in P
      modifies this`color, this`gray
      ensures MarkReady({}, true, P) && MarksMore(old(color), color, P)
    {
      hide BlackOk, Child, ChildClosed, Complete, Distinct, GrayLists, GrayOk, Marking, NoWhiteChild, SlotValue,
           Traversed, Whites;
      ColorsCover(heap, color, gray, grayagain, {}, false);
      ghost var rest := set u | u in heap && heap[u].OpenUpval? && color[u] == Gray;
      StrictBut(heap, color, gray, grayagain, rest);
      var i := 0;
      while i < |uvhead|
        invariant 0 <= i <= |uvhead|
        invariant MarkReady(rest, true, P) && MarksMore(old(color), color, P)
        invariant forall u | u in rest :: u in uvhead[i..] && u in heap && color[u] == Gray
        decreases |uvhead| - i
      {
        var u := uvhead[i];
        if color[u] == Gray {
          ChildrenIn(heap, P, u);
          MarkVals([SlotValue(heap, heap[u].thread, heap[u].slot)], rest, true, P);
          ColorsCover(heap, color, gray, grayagain, rest, true);
          AllMarked(heap, color, u);
          if u in rest {
            assert rest == (rest - {u}) + {u} && color[u := Gray] == color;
            Settled(heap, color, gray, grayagain, rest - {u}, true, u, Gray);
            rest := rest - {u};
          }
        }
        i := i + 1;
      }
      assert rest == {};
    }

    // ---- Sweeping ----

    /** One turn of the loop of sweeplist, on a string. */
    method SweepStringAt(b: nat, i: nat) returns (kept: bool)
      requires Linked({}) && Safe() && b < |strt| && i < |strt[b]|
      modifies this`heap, this`color, this`strt
      ensures Linked({}) && Safe() && Swept(old(heap), old(color), heap, color, currentwhite, fixed)
      ensures var x := old(strt[b][i]);
              if kept then strt == old(strt) && heap == old(heap) && color == old(color)[x := White(currentwhite)]
              else strt == old(strt)[b := Without(old(strt[b]), i)] && heap == old(heap) - {x}
                   && color == old(color) - {x}
    {
      hide LiveClosed, StringTable, RootList, OpenLists, UpvalList, Swept;
      var x := strt[b][i];
      BucketString(heap, strt, b, i);
      kept := !IsDead(color[x], currentwhite) || x in fixed;
      if kept {
        MadeWhite(heap, color, currentwhite, fixed, x);
        color := color[x := White(currentwhite)];
      } else {
        StringFreed(heap, strt, b, i);
        NoStringElsewhere(heap, x, rootgc, {}, uvhead);
        NotOnString(heap, x);
        FreedDead(heap, color, currentwhite, fixed, x);
        strt := strt[b := Without(strt[b], i)];
        heap, color := heap - {x}, color - {x};
      }
    }

    /** sweepwholelist on a bucket of the string table. */
    method SweepStrings(b: nat)
      requires Linked({}) && Safe() && b < |strt|
      modifies this`heap, this`color, this`strt
      ensures Linked({}) && Safe() && |strt| == |old(strt)| && AllWhite(color, currentwhite, strt[b])
      ensures Swept(old(heap), old(color), heap, color, currentwhite, fixed)
              && OnlyWhitened(old(heap), old(color), heap, color)
      ensures forall d | 0 <= d < |strt| && d != b ::
                strt[d] == old(strt[d]) && (old(AllWhite(color, currentwhite, strt[d])) ==>
                  AllWhite(color, currentwhite, strt[d]))
    {
      hide AllWhite, LiveClosed, OpenLists, RootList, Safe, StringTable, Swept, UpvalList, Without;
      SweptSelf(heap, color, currentwhite, fixed);
      assert strt[b][..0] == [];
      NothingWhite(color, currentwhite);
      var i := 0;
      while i < |strt[b]|
        invariant Linked({}) && Safe() && |strt| == |old(strt)| && 0 <= i <= |strt[b]|
        invariant AllWhite(color, currentwhite, strt[b][..i])
        invariant forall d | 0 <= d < |strt| && d != b ::
                    strt[d] == old(strt[d]) && (old(AllWhite(color, currentwhite, strt[d])) ==>
                      AllWhite(color, currentwhite, strt[d]))
        invariant Swept(old(heap), old(color), heap, color, currentwhite, fixed)
                  && OnlyWhitened(old(heap), old(color), heap, color)
        decreases |strt[b]| - i
      {
        ghost var h1, c1, t1 := heap, color, strt;
        var kept := SweepStringAt(b, i);
        BucketTurn(h1, t1, b, i, c1, currentwhite, kept);
        SweptTwice(old(heap), old(color), h1, c1, heap, color, currentwhite, fixed);
        if kept {
          i := i + 1;
        }
      }
      assert strt[b][..i] == strt[b];
    }

    /** One turn of the loop of sweeplist, on an open upvalue of thread t. */
    method SweepOpenAt(t: Id, i: nat, ghost loose: set<Id>) returns (kept: bool)
      requires Linked(loose) && Safe() && t in heap && heap[t].Thread? && i < |heap[t].openupval|
      modifies this`heap, this`color, this`uvhead
      ensures Linked(loose) && Safe() && Swept(old(heap), old(color), heap, color, currentwhite, fixed)
      ensures t in heap && heap[t].Thread?
      ensures var u := old(heap[t].openupval[i]);
              if kept then heap == old(heap) && uvhead == old(uvhead) && color == old(color)[u := White(currentwhite)]
              else heap == Unlisted(old(heap), t, u) - {u} && uvhead == Minus(old(uvhead), u)
                   && color == old(color) - {u}
      ensures kept ==> color[old(heap[t].openupval[i])] == White(currentwhite)
    {
      hide LiveClosed, OpenLists, Refs, RootList, SameView, StringTable, Swept, Tag, Unlisted, UpvalList;
      var u := heap[t].openupval[i];
      assert OnList(heap, t, u);
      OpenFreed(heap, t, u, rootgc, loose, strt, uvhead);
      UnlistedKeys(heap, t, u);
      kept := !IsDead(color[u], currentwhite) || u in fixed;
      if kept {
        MadeWhite(heap, color, currentwhite, fixed, u);
        color := color[u := White(currentwhite)];
      } else {
        OpenFreedDead(heap, color, currentwhite, fixed, t, u);
        heap, color, uvhead := Unlisted(heap, t, u) - {u}, color - {u}, Minus(uvhead, u);
      }
    }

    /** The same turn, with the upvalues before i already white. */
    method SweepOpenTurn(t: Id, i: nat, ghost loose: set<Id>) returns (kept: bool)
      requires Linked(loose) && Safe() && t in heap && heap[t].Thread? && i < |heap[t].openupval|
      requires AllWhite(color, currentwhite, heap[t].openupval[..i])
      modifies this`heap, this`color, this`uvhead
      ensures Linked(loose) && Safe() && Swept(old(heap), old(color), heap, color, currentwhite, fixed)
      ensures OthersSame(old(heap), old(color), heap, color, t) && |uvhead| <= |old(uvhead)|
      ensures t in heap && heap[t].Thread? && |heap[t].openupval| == |old(heap[t].openupval)| - (if kept then 0 else 1)
      ensures AllWhite(color, currentwhite, heap[t].openupval[..if kept then i + 1 else i])
    {
      hide LiveClosed, StringTable, RootList, UpvalList, Swept, OpenLists, Safe, Minus, Unlisted;
      ghost var h, c, u := heap, color, heap[t].openupval[i];
      OpenAt(heap, t, i, uvhead);
      kept := SweepOpenAt(t, i, loose);
      OthersStep(h, c, heap, color, currentwhite, t, i, kept);
    }

    lemma NothingSwept(t: Id, loose: set<Id>)
      requires Linked(loose) && t in heap && heap[t].Thread?
      ensures Swept(heap, color, heap, color, currentwhite, fixed)
      ensures OthersSame(heap, color, heap, color, t) && AllWhite(color, currentwhite, [])
    {
      hide OpenLists, RootList, StringTable, Swept, UpvalList;
      SweptSelf(heap, color, currentwhite, fixed);
    }

    /** sweepwholelist on the open upvalues of thread t. */
    method SweepOpen(t: Id, ghost loose: set<Id>)
      requires Linked(loose) && Safe() && t in heap && heap[t].Thread?
      modifies this`heap, this`color, this`uvhead
      ensures Linked(loose) && Safe() && Swept(old(heap), old(color), heap, color, currentwhite, fixed)
      ensures t in heap && heap[t].Thread? && AllWhite(color, currentwhite, heap[t].openupval)
      ensures OthersSame(old(heap), old(color), heap, color, t)
      ensures |uvhead| <= |old(uvhead)|
    {
      hide AllWhite, Linked, OthersSame, Safe, Swept;
      NothingSwept(t, loose);
      var i := 0;
      while i < |heap[t].openupval|
        invariant Linked(loose) && Safe() && t in heap && heap[t].Thread? && 0 <= i <= |heap[t].openupval|
        invariant AllWhite(color, currentwhite, heap[t].openupval[..i])
        invariant Swept(old(heap), old(color), heap, color, currentwhite, fixed)
        invariant OthersSame(old(heap), old(color), heap, color, t)
        invariant |uvhead| <= |old(uvhead)|
        decreases |heap[t].openupval| - i
      {
        ghost var h1, c1 := heap, color;
        var kept := SweepOpenTurn(t, i, loose);
        SweptTwice(old(heap), old(color), h1, c1, heap, color, currentwhite, fixed);
        OthersTwice(old(heap), old(color), h1, c1, heap, color, t);
        if kept {
          i := i + 1;
        }
      }
      assert heap[t].openupval[..i] == heap[t].openupval;
    }

    /** Linking x into rootgc before position i, with the sweep pointer where it was. */
    method InsertRoot(x: Id, i: nat)
      requires i <= |rootgc| && sweepgc <= |rootgc|
      modifies this`rootgc, this`sweepgc
      ensures rootgc == old(rootgc[..i] + [x] + rootgc[i..])
      ensures sweepgc == old(sweepgc) + (if i < old(sweepgc) then 1 else 0)
    {
      rootgc := rootgc[..i] + [x] + rootgc[i..];
      if i < sweepgc {
        sweepgc := sweepgc + 1;
      }
    }

    /** luaF_close on an open upvalue that is dead: it is freed. */
    method FreeOpen(t: Id, u: Id, ghost loose: set<Id>)
      requires Linked(loose) && Safe() && Phase() && OnList(heap, t, u) && IsDead(color[u], currentwhite)
      modifies this`heap, this`color, this`uvhead
      ensures Linked(loose) && Safe() && Phase() && Swept(old(heap), old(color), heap, color, currentwhite, fixed)
      ensures t in heap && heap[t].Thread? && heap[t].openupval == Minus(old(heap[t].openupval), u)
      ensures |uvhead| <= |old(uvhead)|
    {
      hide NoDead, NoWhiteChild, OpenLists, RestOk, Roots, SameView, StringTable, SweepOk, SweepStringOk, Swept, Tag,
           Traversed, UpvalList;
      OpenFreed(heap, t, u, rootgc, loose, strt, uvhead);
      UnlistedKeys(heap, t, u);
      UvheadShrinks(heap, u, uvhead);
      OpenFreedPhase(heap, color, currentwhite, t, u, strt, sweepstrgc, rootgc[..sweepgc]);
      OpenFreedDead(heap, color, currentwhite, fixed, t, u);
      heap, color, uvhead := Unlisted(heap, t, u) - {u}, color - {u}, Minus(uvhead, u);
    }

    /** What luaC_linkupval starts from: only the colour of u may be wrong for the phase. */
    ghost predicate PhaseBut(u: Id)
      reads this
    {
      sweepgc <= |rootgc| &&
      match gcstate
      case Propagate =>
        && PropagateOk(heap, color, currentwhite, gray, grayagain, {u}, mainthread, registry)
        && (u in color && IsWhite(color[u]) ==>
          PropagateOk(heap, color, currentwhite, gray, grayagain, {}, mainthread, registry))
      case SweepString => sweepgc == 0
           && SweepStringOk(heap, color[u := White(currentwhite)], currentwhite, strt, sweepstrgc)
      case Sweep =>
        && SweepOk(heap, color[u := White(currentwhite)], currentwhite, strt, rootgc[..sweepgc])
        && SweepOk(heap, color[u := White(currentwhite)], currentwhite, strt, [u] + rootgc[..sweepgc])
      case _ => RestOk(color, currentwhite)
    }

    /** luaC_barrierf: o is black and now refers to the white object v. */
    method BarrierF(o: Id, v: Id)
      requires o in heap && v in heap && color.Keys == heap.Keys && color[o] == Black && IsWhite(color[v])
      requires gcstate == Propagate ==> MarkReady({o}, false, heap.Keys)
      requires gcstate != Pause && gcstate != Finalize
      modifies this`color, this`gray
      ensures gcstate == Propagate ==> MarkReady({o}, false, heap.Keys) && MarksMore(old(color), color, heap.Keys)
                                       && !IsWhite(color[v])
      ensures gcstate != Propagate ==> color == old(color)[o := White(currentwhite)] && gray == old(gray)
    {
      if gcstate == Propagate {
        ReallyMark(v, {o}, false, heap.Keys);
      } else {
        color := color[o := White(currentwhite)];
      }
    }

    /** Its colour, and the forward barrier for its value. */
    method MarkUpvalValue(u: Id, v: Val)
      requires color.Keys == heap.Keys && Safe() && gcstate == Propagate
      requires PropagateOk(heap, color, currentwhite, gray, grayagain, {u}, mainthread, registry)
      requires u in heap && heap[u] == ClosedUpval(v) && color[u] == Gray
      modifies this`color, this`gray
      ensures PropagateOk(heap, color, currentwhite, gray, grayagain, {u}, mainthread, registry)
      ensures color.Keys == heap.Keys && Complete(heap) && NoDead(old(color), currentwhite)
      ensures color[u] == Black && (v.Ref? ==> v.id in color && !IsWhite(color[v.id]))
    {
      hide Marking, LiveClosed;
      NoDeadComplete(heap, color, currentwhite);
      Recolored(heap, color, gray, grayagain, {u}, false, u, Black);
      color := color[u := Black];
      GraysInHeap(heap, color, gray, grayagain, {u}, false);
      if v.Ref? && IsWhite(color[v.id]) {
        assert Child(heap, u, v.id);
        BarrierF(u, v.id);
      }
      ColorsCover(heap, color, gray, grayagain, {u}, false);
    }

    /** luaC_linkupval in the propagate phase: the upvalue becomes black, with a barrier. */
    method BlackenUpval(u: Id, v: Val)
      requires color.Keys == heap.Keys && Safe() && gcstate == Propagate
      requires PropagateOk(heap, color, currentwhite, gray, grayagain, {u}, mainthread, registry)
      requires u in heap && heap[u] == ClosedUpval(v) && color[u] == Gray
      modifies this`color, this`gray
      ensures color.Keys == heap.Keys && Safe() && Swept(heap, old(color), heap, color, currentwhite, fixed)
      ensures PropagateOk(heap, color, currentwhite, gray, grayagain, {}, mainthread, registry)
    {
      hide Marking, LiveClosed, Swept, Complete;
      ghost var c0 := color;
      MarkUpvalValue(u, v);
      AllMarked(heap, color, u);
      assert color[u := Black] == color && {} + {u} == {u};
      Settled(heap, color, gray, grayagain, {}, false, u, Black);
      NoDeadLive(heap, c0, color, currentwhite, fixed);
    }

    /** luaC_linkupval: link the closed upvalue u into rootgc and give it a proper colour. */
    method LinkUpval(u: Id, v: Val, ghost loose: set<Id>)
      requires LinkedAs([u] + rootgc, loose) && sweepgc <= |rootgc| && Safe() && PhaseBut(u)
      requires u in heap && heap[u] == ClosedUpval(v) && color[u] != Black && !IsDead(color[u], currentwhite)
      modifies this`color, this`rootgc, this`sweepgc, this`gray
      ensures Linked(loose) && Safe() && Phase() && Swept(heap, old(color), heap, color, currentwhite, fixed)
      ensures |rootgc| == |old(rootgc)| + 1 && sweepgc <= old(sweepgc) + 1
                                        && (old(sweepgc) > 0 ==> sweepgc == old(sweepgc) + 1)
    {
      hide LiveClosed, StringTable, RootList, UpvalList, OpenLists, PropagateOk, SweepStringOk, SweepOk, Swept;
      ghost var c0, root0, n0 := color, rootgc, sweepgc;
      InsertRoot(u, 0);
      assert rootgc == [u] + root0;
      assert rootgc[..sweepgc] == if n0 > 0 then [u] + root0[..n0] else root0[..n0];
      if color[u] == Gray {
        if gcstate == Propagate {
          BlackenUpval(u, v);
        } else {
          LiveWhite(heap, color, currentwhite, fixed, u);
          color := color[u := White(currentwhite)];
        }
      } else {
        assert color[u := White(currentwhite)] == color;
        SweptSelf(heap, color, currentwhite, fixed);
      }
    }

    /** luaF_close on an open upvalue that is alive: it takes the value with it. */
    method CloseLive(t: Id, u: Id, ghost loose: set<Id>)
      requires Linked(loose) && Safe() && Phase() && OnList(heap, t, u) && !IsDead(color[u], currentwhite)
               && u !in loose
      modifies this`heap, this`color, this`uvhead, this`rootgc, this`sweepgc, this`gray
      ensures Linked(loose) && Safe() && Phase() && Swept(old(heap), old(color), heap, color, currentwhite, fixed)
      ensures t in heap && heap[t].Thread? && heap[t].openupval == Minus(old(heap[t].openupval), u)
      ensures |rootgc| - sweepgc + |uvhead| <= old(|rootgc| - sweepgc + |uvhead|)
    {
      hide LiveClosed, StringTable, RootList, UpvalList, Swept, OpenLists, Minus, Closing, PropagateOk, SweepStringOk,
           SweepOk, RestOk;
      ghost var h0, c0 := heap, color;
      ClosingViews(heap, t, u);
      ClosingKeys(heap, t, u);
      ClosingLists(heap, t, u, rootgc, loose, strt, uvhead);
      ClosingSweep(heap, color, currentwhite, t, u, strt, sweepstrgc, rootgc[..sweepgc]);
      ViewsLive(heap, Closing(heap, t, u), color, currentwhite, fixed);
      if gcstate == Propagate {
        ClosingPropagate(heap, color, currentwhite, t, u, gray, grayagain, mainthread, registry);
      }
      var v := SlotValue(heap, heap[u].thread, heap[u].slot);
      heap, uvhead := Closing(heap, t, u), Minus(uvhead, u);
      LinkUpval(u, v, loose);
      SweptTwice(h0, c0, heap, c0, heap, color, currentwhite, fixed);
    }

    /** luaF_close on the first open upvalue of thread t, one turn of its loop. */
    method CloseTop(t: Id, ghost loose: set<Id>)
      requires Linked(loose) && Safe() && Phase() && t in heap && heap[t].Thread? && heap[t].openupval != []
      requires forall x | x in loose :: x in heap && heap[x].Thread?
      modifies this`heap, this`color, this`uvhead, this`rootgc, this`sweepgc, this`gray
      ensures Linked(loose) && Safe() && Phase() && Swept(old(heap), old(color), heap, color, currentwhite, fixed)
      ensures t in heap && heap[t].Thread? && |heap[t].openupval| < |old(heap[t].openupval)|
      ensures |rootgc| - sweepgc + |uvhead| <= old(|rootgc| - sweepgc + |uvhead|)
    {
      hide LiveClosed, StringTable, RootList, Swept, Minus, Phase;
      var u := heap[t].openupval[0];
      OpenAt(heap, t, 0, uvhead);
      MinusAt(heap[t].openupval, 0);
      if IsDead(color[u], currentwhite) {
        FreeOpen(t, u, loose);
      } else {
        CloseLive(t, u, loose);
      }
    }

    /** freeobj on an object that is unlinked already and has no open upvalues. */
    method FreeRoot(x: Id)
      requires Linked({x}) && Safe() && gcstate == Sweep && Phase()
      requires x in heap && !heap[x].Str? && !heap[x].OpenUpval? && IsDead(color[x], currentwhite) && x !in fixed
      requires heap[x].Thread? ==> heap[x].openupval == []
      modifies this`heap, this`color
      ensures Linked({}) && Safe() && Phase() && Swept(old(heap), old(color), heap, color, currentwhite, fixed)
      ensures heap == old(heap) - {x}
    {
      hide LiveClosed, StringTable, UpvalList, OpenLists, SweepOk, Swept;
      RootFreed(heap, x, rootgc, strt, uvhead);
      RootFreedPhase(heap, color, currentwhite, x, strt, rootgc[..sweepgc]);
      FreedDead(heap, color, currentwhite, fixed, x);
      heap, color := heap - {x}, color - {x};
    }

    /** luaE_freethread: close the upvalues of a dead thread that is unlinked already, then free it. */
    method FreeThread(t: Id)
      requires Linked({t}) && Safe() && gcstate == Sweep && Phase()
      requires t in heap && heap[t].Thread? && IsDead(color[t], currentwhite) && t !in fixed
      modifies this`heap, this`color, this`uvhead, this`rootgc, this`sweepgc, this`gray
      ensures Linked({}) && Safe() && Phase() && Swept(old(heap), old(color), heap, color, currentwhite, fixed)
      ensures t !in heap
      ensures |rootgc| - sweepgc + |uvhead| <= old(|rootgc| - sweepgc + |uvhead|)
    {
      hide Linked, Phase, Safe, Swept;
      NothingSwept(t, {t});
      ghost var h0, c0 := heap, color;
      while heap[t].openupval != []
        invariant Linked({t}) && Safe() && Phase() && Swept(old(heap), old(color), heap, color, currentwhite, fixed)
        invariant t in heap && heap[t].Thread? && t in color && IsDead(color[t], currentwhite)
        invariant |rootgc| - sweepgc + |uvhead| <= old(|rootgc| - sweepgc + |uvhead|)
        decreases |heap[t].openupval|
      {
        ghost var h1, c1 := heap, color;
        CloseTop(t, {t});
        SweptTwice(h0, c0, h1, c1, heap, color, currentwhite, fixed);
        SweptDead(h1, c1, heap, color, currentwhite, fixed, t);
      }
      ghost var h2, c2 := heap, color;
      FreeRoot(t);
      SweptTwice(h0, c0, h2, c2, heap, color, currentwhite, fixed);
    }

    /** sweeplist on a survivor. */
    method KeepRoot(x: Id)
      requires Valid() && gcstate == Sweep && sweepgc < |rootgc| && x == rootgc[sweepgc]
      requires x in heap && (!IsDead(color[x], currentwhite) || x in fixed)
      requires heap[x].Thread? ==> AllWhite(color, currentwhite, heap[x].openupval)
      modifies this`color, this`sweepgc
      ensures Valid() && Swept(heap, old(color), heap, color, currentwhite, fixed) && sweepgc == old(sweepgc) + 1
    {
      hide LiveClosed, StringTable, UpvalList, OpenLists, SweepOk, Swept, RootList;
      Unlinked(heap, rootgc, sweepgc);
      LiveWhite(heap, color, currentwhite, fixed, x);
      SweptOneMore(heap, color, currentwhite, strt, rootgc[..sweepgc], x);
      assert rootgc[..sweepgc + 1] == rootgc[..sweepgc] + [x];
      color := color[x := White(currentwhite)];
      sweepgc := sweepgc + 1;
    }

    /** sweeplist on a dead object. */
    method DropRoot(x: Id)
      requires Valid() && gcstate == Sweep && sweepgc < |rootgc| && x == rootgc[sweepgc]
      requires x in heap && IsDead(color[x], currentwhite) && x !in fixed
      modifies this`heap, this`color, this`uvhead, this`rootgc, this`sweepgc, this`gray
      ensures Valid() && Swept(old(heap), old(color), heap, color, currentwhite, fixed)
      ensures |rootgc| - sweepgc + |uvhead| < old(|rootgc| - sweepgc + |uvhead|)
    {
      hide LiveClosed, StringTable, UpvalList, OpenLists, SweepOk, Swept, RootList;
      Unlinked(heap, rootgc, sweepgc);
      rootgc := Without(rootgc, sweepgc);
      if heap[x].Thread? {
        FreeThread(x);
      } else {
        FreeRoot(x);
      }
    }

    /** One turn of the loop of sweeplist, on rootgc. */
    method SweepRoot()
      requires Valid() && gcstate == Sweep && sweepgc < |rootgc|
      modifies this`heap, this`color, this`uvhead, this`rootgc, this`sweepgc, this`gray
      ensures Valid() && Swept(old(heap), old(color), heap, color, currentwhite, fixed)
      ensures |rootgc| - sweepgc + |uvhead| < old(|rootgc| - sweepgc + |uvhead|)
    {
      hide LiveClosed, StringTable, UpvalList, OpenLists, SweepOk, Swept, RootList;
      ghost var h0, c0 := heap, color;
      var x := rootgc[sweepgc];
      Unlinked(heap, rootgc, sweepgc);
      SweptSelf(heap, color, currentwhite, fixed);
      if heap[x].Thread? {
        SweepOpen(x, {});
        SweepOpenPhase(h0, c0, heap, color, currentwhite, x, strt, rootgc[..sweepgc]);
      }
      ghost var h1, c1 := heap, color;
      if !IsDead(color[x], currentwhite) || x in fixed {
        KeepRoot(x);
      } else {
        DropRoot(x);
      }
      SweptTwice(h0, c0, h1, c1, heap, color, currentwhite, fixed);
    }

    // ---- A collection ----

    /** For an exact collection: what is marked, or later alive, stays within P and the fixed objects. */
    ghost predicate Within(P: set<Id>)
      reads this
    {
      match gcstate
      case Pause => true
      case Propagate => forall x | x in color && !IsWhite(color[x]) :: x in P
      case _ => forall x | x in color && !IsDead(color[x], currentwhite) :: x in P || x in fixed
    }

    ghost predicate Enclosed(P: set<Id>)
      reads this
    {
      Roots() <= P && ChildClosed(heap, P)
    }

    ghost predicate RootsIn(P: set<Id>)
      reads this`heap, this`running, this`registry, this`mt
    {
      && Roots() <= P && mainthread in heap && heap[mainthread].Thread?
      && forall r | r in Roots() :: r in heap
    }

    lemma RootValsIn(P: set<Id>)
      requires RootsIn(P) && MarkReady({}, false, P)
      ensures mainthread in heap && mainthread in P && heap[mainthread].Thread?
      ensures forall y | Ref(y) in [heap[mainthread].gt] :: y in heap && y in P
      ensures forall y | Ref(y) in [registry] :: y in heap && y in P
      ensures forall y | Ref(y) in mt :: y in heap && y in P
    {
      hide ChildClosed, Complete, Marking;
      ThreadGlobals(heap, P, mainthread);
      RefsHold(registry, mt);
    }

    /** The marks of markroot. */
    method MarkRoots(ghost P: set<Id>)
      requires MarkReady({}, false, P) && RootsIn(P)
      modifies this`color, this`gray
      ensures MarkReady({}, false, P) && Darkens(old(color), color, P)
      ensures Marked(color, Ref(mainthread)) && Marked(color, registry)
    {
      hide ChildClosed, Complete, Darkens, Marked, Marking, MarksMore, RootsIn;
      RootValsIn(P);
      ghost var c0 := color;
      MarkObject(mainthread, false, P);
      ColorsCover(heap, color, gray, grayagain, {}, false);
      ghost var c1 := color;
      FirstMarked(c0, c1, mainthread, P);
      MarkVals([heap[mainthread].gt], {}, false, P);
      DarkensMore(c0, c1, color, P);
      MarkedStays(c1, color, Ref(mainthread), P);
      ghost var c2 := color;
      MarkVals([registry], {}, false, P);
      DarkensMore(c0, c2, color, P);
      MarkedStays(c2, color, Ref(mainthread), P);
      ColorsCover(heap, color, gray, grayagain, {}, false);
      OneMarked(heap, color, registry);
      ghost var c3 := color;
      MarkVals(mt, {}, false, P);
      DarkensMore(c0, c3, color, P);
      MarkedStays(c3, color, Ref(mainthread), P);
      MarkedStays(c3, color, registry, P);
    }

    /** markroot. */
    method MarkRoot(ghost P: set<Id>)
      requires Valid() && (gcstate == Pause || gcstate == Finalize) && Enclosed(P)
      modifies this`color, this`gray, this`grayagain, this`gcstate
      ensures Valid() && gcstate == Propagate && Within(P)
    {
      hide ChildClosed, Complete, Distinct, LiveClosed, Marking, NoDead, NoWhiteChild, OpenLists, RootList, Roots,
           StringTable, SweepOk, SweepStringOk, Swept, Tag, Traversed, UpvalList, Vals;
      ghost var c0 := color;
      NoDeadComplete(heap, color, currentwhite);
      RestMarking(heap, color, currentwhite, false);
      gray, grayagain := [], [];
      MarkRoots(P);
      DarkensNoDead(c0, color, currentwhite, P);
      gcstate := Propagate;
      NoDeadLive(heap, c0, color, currentwhite, fixed);
    }

    /** atomic up to its second propagateall (lgc.c:529-540). */
    method Remark(ghost P: set<Id>)
      requires MarkReady({}, false, P) && RootsIn(P) && UpvalList(heap, uvhead)
      requires forall u | u in color && !IsWhite(color[u]) :: u in P
      modifies this`color, this`gray, this`grayagain
      ensures MarkReady({}, true, P) && Darkens(old(color), color, P) && gray == []
      ensures Marked(color, Ref(running)) && forall r | Ref(r) in mt :: Marked(color, Ref(r))
    {
      hide Marking, ChildClosed, Complete, UpvalList;
      ghost var c0 := color;
      ColorsCover(heap, color, gray, grayagain, {}, false);
      RefsHold(registry, mt);
      RemarkUpvals(P);
      ghost var c1 := color;
      PropagateAll(true, P);
      DarkensTwice(c0, c1, color, P);
      ghost var c2 := color;
      MarkObject(running, true, P);
      DarkensMore(c0, c2, color, P);
      ghost var c3 := color;
      MarkVals(mt, {}, true, P);
      DarkensMore(c0, c3, color, P);
      ghost var c4 := color;
      PropagateAll(true, P);
      DarkensTwice(c0, c4, color, P);
    }

    /** The marking that atomic does before it turns the white (lgc.c:529-545). */
    method FinishMarking(ghost P: set<Id>)
      requires MarkReady({}, false, P) && RootsIn(P) && UpvalList(heap, uvhead)
      requires forall u | u in color && !IsWhite(color[u]) :: u in P
      modifies this`color, this`gray, this`grayagain
      ensures MarkReady({}, true, P) && Darkens(old(color), color, P) && gray == [] && ThreadsDone()
      ensures Marked(color, Ref(running)) && forall r | Ref(r) in mt :: Marked(color, Ref(r))
    {
      hide Marking, ChildClosed, Complete, UpvalList;
      ghost var c0 := color;
      Remark(P);
      ghost var c1 := color;
      Regrayed(heap, color, grayagain, true);
      gray, grayagain := grayagain, [];
      PropagateAll(true, P);
      DarkensTwice(c0, c1, color, P);
    }

    lemma RootsMarked(c: Colors)
      requires Marked(c, Ref(mainthread)) && Marked(c, Ref(running)) && Marked(c, registry)
      requires forall r | Ref(r) in mt :: Marked(c, Ref(r))
      ensures forall r | r in Roots() :: r in c && !IsWhite(c[r])
    {
      forall r | r in Roots()
        ensures r in c && !IsWhite(c[r])
      {
        if r != mainthread && r != running {
          var v :| v in [registry] + mt && v.Ref? && v.id == r;
          assert v == registry || Ref(r) in mt;
        }
      }
    }

    /** The end of atomic: turn the current white and start sweeping (lgc.c:547-552). */
    method Flip(ghost P: set<Id>)
      requires Linked({}) && NoDead(color, currentwhite) && gcstate == Propagate && Within(P)
      requires gray == [] && Marking(heap, color, [], grayagain, {}, true) && ThreadsDone()
      requires forall r | r in Roots() :: r in color && !IsWhite(color[r])
      modifies this`currentwhite, this`sweepstrgc, this`sweepgc, this`gcstate
      ensures Valid() && gcstate == SweepString && Within(P)
    {
      hide LiveClosed, RootList, StringTable, UpvalList, OpenLists, Marking, NoBlackOpen, Roots;
      Flipped(heap, color, currentwhite, grayagain);
      currentwhite := !currentwhite;
      sweepstrgc, sweepgc := 0, 0;
      gcstate := SweepString;
    }

    /** atomic: finish marking and turn the current white. */
    method Atomic(ghost P: set<Id>)
      requires Valid() && gcstate == Propagate && gray == [] && Enclosed(P) && Within(P)
      modifies this`color, this`gray, this`grayagain, this`currentwhite, this`sweepstrgc, this`sweepgc, this`gcstate
      ensures Valid() && gcstate == SweepString && Within(P)
    {
      hide LiveClosed, RootList, StringTable, UpvalList, OpenLists, Marking, ChildClosed, Complete, Roots;
      ghost var c0 := color;
      NoDeadComplete(heap, color, currentwhite);
      GraysInHeap(heap, color, gray, grayagain, {}, false);
      FinishMarking(P);
      DarkensNoDead(c0, color, currentwhite, P);
      RootsMarked(color);
      Flip(P);
    }

    // ---- Steps ----

    /** propagatemark as a step of the collector. */
    method PropagateStep(ghost P: set<Id>)
      requires Valid() && gcstate == Propagate && gray != [] && Enclosed(P) && Within(P)
      modifies this`color, this`gray, this`grayagain
      ensures Valid() && Within(P)
      ensures |Whites(color)| < |old(Whites(color))|
                              || (|Whites(color)| == |old(Whites(color))| && |gray| < |old(gray)|)
    {
      hide LiveClosed, RootList, StringTable, UpvalList, OpenLists, Marking, ChildClosed, Complete, Roots;
      ghost var c0 := color;
      NoDeadComplete(heap, color, currentwhite);
      GraysInHeap(heap, color, gray, grayagain, {}, false);
      PropagateMark(false, P);
      DarkensNoDead(c0, color, currentwhite, P);
      NoDeadLive(heap, c0, color, currentwhite, fixed);
    }

    /** The GCSsweepstring case of singlestep. */
    method SweepStringStep(ghost P: set<Id>)
      requires Valid() && gcstate == SweepString && Within(P)
      modifies this`heap, this`color, this`strt, this`sweepstrgc, this`gcstate
      ensures Valid() && Within(P) && Swept(old(heap), old(color), heap, color, currentwhite, fixed)
      ensures |strt| == |old(strt)| && sweepstrgc == old(sweepstrgc) + 1
      ensures gcstate == if sweepstrgc < |strt| then SweepString else Sweep
    {
      hide AllWhite, LiveClosed, OnlyWhitened, OpenLists, RootList, Roots, StringTable, SweepOk, SweepStringOk,
           UpvalList;
      ghost var h0, c0, t0 := heap, color, strt;
      BucketLeft(heap, color, currentwhite, strt, sweepstrgc);
      SweepStrings(sweepstrgc);
      NextBucket(h0, c0, currentwhite, t0, sweepstrgc, heap, color, strt);
      assert rootgc[..0] == [];
      sweepstrgc := sweepstrgc + 1;
      if sweepstrgc >= |strt| {
        gcstate := Sweep;
      }
    }

    /** sweeplist on rootgc, for at most n objects. */
    method SweepRoots(n: nat, ghost P: set<Id>)
      requires Valid() && gcstate == Sweep && Within(P)
      modifies this`heap, this`color, this`uvhead, this`rootgc, this`sweepgc, this`gray
      ensures Valid() && Within(P) && Swept(old(heap), old(color), heap, color, currentwhite, fixed)
      ensures old(sweepgc >= |rootgc|) ==> sweepgc == old(sweepgc) && rootgc == old(rootgc)
      ensures n > 0 && old(sweepgc < |rootgc|) ==> |rootgc| - sweepgc + |uvhead| < old(|rootgc| - sweepgc + |uvhead|)
    {
      hide LiveClosed, RootList, StringTable, UpvalList, OpenLists, SweepOk, Roots;
      SweptSelf(heap, color, currentwhite, fixed);
      var left := n;
      while sweepgc < |rootgc| && left > 0
        invariant Valid() && Within(P) && Swept(old(heap), old(color), heap, color, currentwhite, fixed)
        invariant left <= n && |rootgc| - sweepgc + |uvhead| <= old(|rootgc| - sweepgc + |uvhead|)
        invariant left == n || old(sweepgc >= |rootgc|) ==> sweepgc == old(sweepgc) && rootgc == old(rootgc)
        invariant left < n ==> |rootgc| - sweepgc + |uvhead| < old(|rootgc| - sweepgc + |uvhead|)
        decreases |rootgc| - sweepgc + |uvhead|
      {
        ghost var h1, c1 := heap, color;
        SweepRoot();
        SweptTwice(old(heap), old(color), h1, c1, heap, color, currentwhite, fixed);
        left := left - 1;
      }
    }

    /** How far a collection still is from its end, coarsely and finely. */
    ghost function Rank(): nat
      reads this
    {
      match gcstate
      case Pause => 0
      case Finalize => 1
      case Sweep => 2
      case SweepString => 3
      case Propagate => 4
    }

    ghost function Work(): nat
      reads this
    {
      match gcstate
      case Propagate => |Whites(color)|
      case SweepString => if sweepstrgc < |strt| then |strt| - sweepstrgc else 0
      case Sweep => if sweepgc <= |rootgc| then |rootgc| - sweepgc + |uvhead| else 0
      case _ => 0
    }

    /** The GCSsweep case of singlestep. */
    method SweepStep(ghost P: set<Id>)
      requires Valid() && gcstate == Sweep && Within(P)
      modifies this`heap, this`color, this`uvhead, this`rootgc, this`sweepgc, this`gray, this`gcstate
      ensures Valid() && Within(P) && Swept(old(heap), old(color), heap, color, currentwhite, fixed)
      ensures gcstate == Finalize || (gcstate == Sweep && Work() < old(Work()))
    {
      hide LiveClosed, RootList, StringTable, UpvalList, OpenLists, SweepOk, Roots;
      SweepRoots(40, P);
      if sweepgc == |rootgc| {
        assert rootgc[..sweepgc] == rootgc;
        SweepDone(heap, color, currentwhite, rootgc, strt);
        gcstate := Finalize;
      }
    }

    lemma KeptSelf()
      requires Valid()
      ensures Kept(heap, heap, Roots())
    {
      SweptSelf(heap, color, currentwhite, fixed);
      SweptKept(heap, color, heap, color, currentwhite, fixed, Roots());
    }

    /** singlestep while strings or objects are swept. */
    method SweepTurn(ghost P: set<Id>)
      requires Valid() && (gcstate == SweepString || gcstate == Sweep) && Within(P)
      modifies this`heap, this`color, this`uvhead, this`rootgc, this`sweepgc, this`gray, this`gcstate, this`strt,
               this`sweepstrgc
      ensures Valid() && Within(P) && Kept(old(heap), heap, Roots())
      ensures gcstate in {SweepString, Sweep, Finalize}
      ensures Rank() < old(Rank()) || (Rank() == old(Rank()) && Work() < old(Work()))
    {
      hide LiveClosed, RootList, StringTable, UpvalList, OpenLists, SweepOk, SweepStringOk, Marking, ChildClosed, Swept;
      ghost var h0, c0, w0 := heap, color, currentwhite;
      if gcstate == SweepString {
        SweepStringStep(P);
      } else {
        SweepStep(P);
      }
      SweptKept(h0, c0, heap, color, w0, fixed, Roots());
    }

    /** A collection is nearer to its end than with this rank, work and length of the gray list. */
    ghost predicate Ahead(rank: nat, work: nat, grays: nat)
      reads this
    {
      Rank() < rank || (Rank() == rank && (Work() < work || (Work() == work && |gray| < grays)))
    }

    /** singlestep: whatever the program can reach stays as it is. */
    method SingleStep(ghost P: set<Id>)
      requires Valid() && Within(P) && (gcstate == Pause || gcstate == Propagate ==> Enclosed(P))
      modifies this`heap, this`color, this`uvhead, this`rootgc, this`sweepgc, this`gray, this`grayagain, this`gcstate,
               this`strt, this`sweepstrgc, this`currentwhite
      ensures Valid() && Within(P) && Kept(old(heap), heap, Roots())
      ensures gcstate == Pause ==> old(gcstate) == Finalize && heap.Keys <= P + fixed
      ensures old(gcstate) in {SweepString, Sweep} ==> gcstate in {SweepString, Sweep, Finalize}
      ensures if old(gcstate) == Pause then gcstate == Propagate else Ahead(old(Rank()), old(Work()), |old(gray)|)
    {
      hide LiveClosed, RootList, StringTable, UpvalList, OpenLists, SweepOk, Marking, ChildClosed, Swept;
      KeptSelf();
      match gcstate {
        case Pause => MarkRoot(P);
        case Propagate =>
          if gray != [] {
            PropagateStep(P);
          } else {
            Atomic(P);
          }
        case SweepString => SweepTurn(P);
        case Sweep => SweepTurn(P);
        case Finalize => gcstate := Pause;
      }
    }

    lemma AllEnclosed()
      requires Valid()
      ensures Within(heap.Keys)
              && (gcstate == Pause || gcstate == Propagate || gcstate == Finalize ==> Enclosed(heap.Keys))
    {
      if gcstate == Pause || gcstate == Propagate || gcstate == Finalize {
        NoDeadComplete(heap, color, currentwhite);
      }
    }

    /** luaC_step, for at most n turns of its loop. */
    method Step(n: nat)
      requires Valid()
      modifies this`heap, this`color, this`uvhead, this`rootgc, this`sweepgc, this`gray, this`grayagain, this`gcstate,
               this`strt, this`sweepstrgc, this`currentwhite
      ensures Valid() && Kept(old(heap), heap, Roots())
      ensures FieldsKept(old(heap), heap, Roots())
      ensures old(gcstate) == Pause && n == 0 ==> gcstate == Propagate
      ensures old(gcstate) != Pause && gcstate != Pause ==> Ahead(old(Rank()), old(Work()), |old(gray)|)
    {
      hide LiveClosed, RootList, StringTable, UpvalList, OpenLists, SweepOk, Marking, ChildClosed, Swept, Rank, Work;
      AllEnclosed();
      SingleStep(heap.Keys);
      var left := n;
      while left > 0 && gcstate != Pause
        invariant Valid() && Kept(old(heap), heap, Roots())
        invariant old(gcstate) == Pause && left == n ==> gcstate == Propagate
        invariant old(gcstate) != Pause && gcstate != Pause ==> Ahead(old(Rank()), old(Work()), |old(gray)|)
      {
        ghost var h1 := heap;
        AllEnclosed();
        SingleStep(heap.Keys);
        KeptTwice(old(heap), h1, heap, Roots());
        left := left - 1;
      }
      KeptFields(old(heap), heap, Roots());
    }

    /** The first loop of luaC_fullgc. */
    method FinishPending()
      requires Valid() && gcstate in {SweepString, Sweep, Finalize}
      modifies this`heap, this`color, this`uvhead, this`rootgc, this`sweepgc, this`gray, this`grayagain, this`gcstate,
               this`strt, this`sweepstrgc, this`currentwhite
      ensures Valid() && gcstate == Finalize && Kept(old(heap), heap, Roots())
    {
      hide Kept, Valid, Within, Roots, Rank, Work;
      KeptSelf();
      while gcstate != Finalize
        invariant Valid() && Kept(old(heap), heap, Roots()) && gcstate in {SweepString, Sweep, Finalize}
        decreases Rank(), Work(), |gray|
      {
        ghost var h1 := heap;
        AllEnclosed();
        SingleStep(heap.Keys);
        KeptTwice(old(heap), h1, heap, Roots());
      }
    }

    lemma NotBlackOpen()
      requires Valid() && (gcstate == Pause || gcstate == Propagate)
      ensures NoBlackOpen(heap, color)
    {
    }

    /** What luaC_fullgc starts with: in the middle of marking, or before it, sweep all objects back to
        white and finish any pending sweep. */
    method FinishSweep()
      requires Valid()
      modifies this`heap, this`color, this`uvhead, this`rootgc, this`sweepgc, this`gray, this`grayagain, this`gcstate,
               this`strt, this`sweepstrgc, this`currentwhite
      ensures Valid() && gcstate == Finalize && Kept(old(heap), heap, Roots())
    {
      hide LiveClosed, RootList, StringTable, UpvalList, OpenLists, SweepOk, ChildClosed, Swept;
      if gcstate == Pause || gcstate == Propagate {
        NotBlackOpen();
        sweepstrgc, sweepgc := 0, 0;
        gray, grayagain := [], [];
        gcstate := SweepString;
      }
      FinishPending();
    }

    /** What is reachable is enclosed, and all of it is in the heap. */
    lemma ReachEnclosed()
      requires Valid()
      ensures Enclosed(ReachSet(heap, Roots()))
    {
      forall r | r in Roots()
        ensures r in ReachSet(heap, Roots())
      {
        RootReachable(heap, Roots(), r);
      }
      forall x, y | x in ReachSet(heap, Roots()) && Child(heap, x, y)
        ensures y in ReachSet(heap, Roots())
      {
        ReachableStep(heap, Roots(), x, y);
        ReachableLive(heap, color, currentwhite, Roots(), y);
      }
    }

    /** The last loop of luaC_fullgc: one collection, from its roots to its end. */
    method FinishCycle(ghost P: set<Id>)
      requires Valid() && gcstate == Propagate && Within(P) && P == ReachSet(heap, Roots())
      modifies this`heap, this`color, this`uvhead, this`rootgc, this`sweepgc, this`gray, this`grayagain, this`gcstate,
               this`strt, this`sweepstrgc, this`currentwhite
      ensures Valid() && gcstate == Pause && Kept(old(heap), heap, Roots()) && heap.Keys <= P + fixed
    {
      hide Kept, ReachSet, Valid, Within, Roots, Rank, Work;
      KeptSelf();
      while gcstate != Pause
        invariant Valid() && Kept(old(heap), heap, Roots()) && Within(P) && P == ReachSet(heap, Roots())
        invariant gcstate == Pause ==> heap.Keys <= P + fixed
        decreases Rank(), Work(), |gray|
      {
        ghost var h1 := heap;
        ReachEnclosed();
        SingleStep(P);
        KeptReach(h1, heap, Roots());
        KeptTwice(old(heap), h1, heap, Roots());
      }
    }

    lemma AtRest()
      requires Valid() && gcstate == Pause
      ensures color.Keys == heap.Keys && fixed <= heap.Keys && forall x | x in heap :: color[x] == White(currentwhite)
    {
    }

    lemma OpenListsHold()
      requires Valid()
      ensures OpenLists(heap)
    {
    }

    /** If only what is reachable or fixed is left, a field refers to everything but the roots. */
    lemma NothingLoose()
      requires Valid() && heap.Keys == ReachSet(heap, Roots()) + fixed
      ensures forall y | y in heap && y !in fixed + Roots() :: exists x | x in heap :: HasField(heap, x, Ref(y))
    {
      forall y | y in heap && y !in fixed + Roots()
        ensures exists x | x in heap :: HasField(heap, x, Ref(y))
      {
        HeldByField(heap, Roots(), y);
      }
    }

    /** luaC_fullgc: a full collection leaves exactly what is reachable or fixed, all of it white. */
    method FullGC()
      requires Valid()
      modifies this`heap, this`color, this`uvhead, this`rootgc, this`sweepgc, this`gray, this`grayagain, this`gcstate,
               this`strt, this`sweepstrgc, this`currentwhite
      ensures Valid() && gcstate == Pause && Kept(old(heap), heap, Roots())
      ensures heap.Keys == ReachSet(heap, Roots()) + fixed == ReachSet(old(heap), Roots()) + fixed
      ensures forall x | x in heap :: color[x] == White(currentwhite)
      ensures FieldsKept(old(heap), heap, Roots())
      ensures forall y | y in heap && y !in fixed + Roots() :: exists x | x in heap :: HasField(heap, x, Ref(y))
    {
      hide Kept, Valid, Within, Roots, SameFields, HasField;
      OpenListsHold();
      FinishSweep();
      ghost var h1, P := heap, ReachSet(heap, Roots());
      ReachEnclosed();
      MarkRoot(P);
      FinishCycle(P);
      KeptReach(old(heap), h1, Roots());
      KeptReach(h1, heap, Roots());
      KeptTwice(old(heap), h1, heap, Roots());
      KeptFields(old(heap), heap, Roots());
      AtRest();
      NothingLoose();
    }

    // ---- Stores and barriers ----

    ghost predicate CanUse(v: Val)
      reads this
    {
      Usable(heap, color, currentwhite, v)
    }

    /** What a store leaves to the barrier: only a black x may break the phase. */
    ghost predicate PhaseAfterStore(x: Id)
      reads this
    {
      if gcstate == Propagate then
        && PropagateOk(heap, color, currentwhite, gray, grayagain, {x}, mainthread, registry)
        && (x in color && color[x] != Black ==>
          PropagateOk(heap, color, currentwhite, gray, grayagain, {}, mainthread, registry))
      else Phase()
    }

    /** Overwriting the values of an object. */
    method Write(x: Id, o: Obj)
      requires Valid() && x in heap && SameShape(heap[x], o, heap, x) && Storable(heap, color, currentwhite, x, o)
      modifies this`heap
      ensures Linked({}) && Safe() && PhaseAfterStore(x) && heap == old(heap)[x := o]
    {
      hide LiveClosed, RootList, StringTable, UpvalList, OpenLists, Marking, SweepOk, SweepStringOk, RestOk;
      StoredLive(heap, color, currentwhite, x, o);
      StoredLists(heap, x, o, rootgc, strt, uvhead);
      StoredSweep(heap, color, currentwhite, x, o, strt, sweepstrgc, rootgc[..sweepgc]);
      if gcstate == Propagate {
        StoredMarking(heap, color, gray, grayagain, x, o);
      }
      heap := heap[x := o];
    }

    /** luaC_barrierback. */
    method BarrierBack(x: Id)
      requires Linked({}) && Safe() && PhaseAfterStore(x) && gcstate != Pause && gcstate != Finalize
      requires x in heap && Traversed(heap[x]) && color[x] == Black
      modifies this`color, this`grayagain
      ensures Valid()
    {
      hide LiveClosed, RootList, StringTable, UpvalList, OpenLists, Marking, SweepOk, SweepStringOk;
      BlackRecolored(heap, color, currentwhite, x, Gray, strt, sweepstrgc, rootgc[..sweepgc]);
      if gcstate == Propagate {
        GrayAgain(heap, color, gray, grayagain, x);
      }
      color := color[x := Gray];
      grayagain := [x] + grayagain;
    }

    /** The children of a black object in the propagate phase are marked. */
    lemma BlackChildren(x: Id)
      requires Valid() && gcstate == Propagate && x in heap && color[x] == Black
      ensures BlackOk(heap, color, x)
    {
    }

    /** A black object whose children are all marked needs no barrier. */
    lemma NoBarrier(x: Id)
      requires Linked({}) && Safe() && PhaseAfterStore(x) && x in heap
      requires gcstate == Propagate && color[x] == Black ==> BlackOk(heap, color, x)
      ensures Valid()
    {
      hide LiveClosed, RootList, StringTable, UpvalList, OpenLists, Marking, BlackOk;
      if gcstate == Propagate && color[x] == Black {
        assert {} + {x} == {x} && color[x := Black] == color;
        Settled(heap, color, gray, grayagain, {}, false, x, Black);
      }
    }

    lemma NoneDeadComplete()
      requires LiveClosed(heap, color, currentwhite) && color.Keys == heap.Keys && NoDead(color, currentwhite)
      ensures Complete(heap) && ChildClosed(heap, heap.Keys)
    {
      NoDeadComplete(heap, color, currentwhite);
    }

    lemma NoneDeadLive(c0: Colors)
      requires Complete(heap) && c0.Keys == heap.Keys == color.Keys && NoDead(c0, currentwhite)
               && NoDead(color, currentwhite)
      ensures LiveClosed(heap, color, currentwhite)
    {
      NoDeadLive(heap, c0, color, currentwhite, fixed);
    }

    lemma ForwardReady(x: Id)
      requires Linked({}) && Safe() && PhaseAfterStore(x) && gcstate == Propagate && x in heap && color[x] == Black
      ensures MarkReady({x}, false, heap.Keys) && NoDead(color, currentwhite)
      ensures PropagateOk(heap, color, currentwhite, gray, grayagain, {x}, mainthread, registry)
    {
      hide GrayLists, GrayOk, LiveClosed, OpenLists, RootList, StringTable, UpvalList;
      NoneDeadComplete();
      GraysInHeap(heap, color, gray, grayagain, {x}, false);
    }

    /** After luaC_barrierf no child of x is white, and the roots are still usable. */
    lemma ForwardDone(c0: Colors, x: Id, v: Id)
      requires x in heap && !heap[x].Str? && !heap[x].Thread? && !heap[x].OpenUpval? && v in heap
      requires c0.Keys == color.Keys == heap.Keys && MarksMore(c0, color, heap.Keys) && !IsWhite(color[v])
      requires forall y | Child(heap, x, y) && y != v :: y in c0 && !IsWhite(c0[y])
      requires NoDead(color, currentwhite) && mainthread in heap && running in heap
      requires forall r | r in Roots() :: r in heap
      ensures BlackOk(heap, color, x) && forall r | r in Roots() :: r in color && !IsDead(color[r], currentwhite)
    {
    }

    /** luaC_barrierf in the propagate phase. */
    method ForwardMark(x: Id, v: Id)
      requires Linked({}) && Safe() && PhaseAfterStore(x) && gcstate == Propagate
      requires x in heap && color[x] == Black && !heap[x].Str? && !heap[x].Thread? && !heap[x].OpenUpval?
               && v in heap && IsWhite(color[v])
      requires forall y | Child(heap, x, y) && y != v :: y in color && !IsWhite(color[y])
      modifies this`color, this`gray
      ensures Valid()
    {
      hide LiveClosed, Marking, MarksMore, NoDead, OpenLists, PropagateOk, RootList, StringTable, UpvalList;
      ghost var c0, g0 := color, gray;
      ForwardReady(x);
      BarrierF(x, v);
      PropagateOn(heap, c0, color, currentwhite, g0, gray, grayagain, x, mainthread, registry);
      NoneDeadLive(c0);
      ForwardDone(c0, x, v);
      NoBarrier(x);
    }

    /** luaC_barrierf after a store of v in x, whose other children are marked. */
    method BarrierForward(x: Id, v: Id)
      requires Linked({}) && Safe() && PhaseAfterStore(x) && gcstate != Pause && gcstate != Finalize
      requires x in heap && color[x] == Black && !heap[x].Str? && !heap[x].Thread? && !heap[x].OpenUpval?
               && v in heap && IsWhite(color[v])
      requires gcstate == Propagate ==> forall y | Child(heap, x, y) && y != v :: y in color && !IsWhite(color[y])
      modifies this`color, this`gray
      ensures Valid()
    {
      hide LiveClosed, RootList, StringTable, UpvalList, OpenLists, Marking, PropagateOk, SweepOk, SweepStringOk,
           NoWhiteChild;
      if gcstate == Propagate {
        ForwardMark(x, v);
      } else {
        BlackRecolored(heap, color, currentwhite, x, White(currentwhite), strt, sweepstrgc, rootgc[..sweepgc]);
        BarrierF(x, v);
      }
    }

    /** A store in a userdata, function, prototype or table, with the barrier of its kind. */
    method StoreField(x: Id, i: nat, v: Val)
      requires Valid() && x in heap && heap[x].Node? && i <= |heap[x].vals| && CanUse(Ref(x)) && CanUse(v)
      modifies this`heap, this`color, this`gray, this`grayagain
      ensures Valid() && heap == old(heap)[x := Node(old(heap[x]).kind, Stored(old(heap[x]).vals, i, v))]
    {
      hide BlackOk, Child, LiveClosed, RootList, StringTable, UpvalList, OpenLists, Stored, SweepOk, SweepStringOk;
      var o := Node(heap[x].kind, Stored(heap[x].vals, i, v));
      ghost var h0 := heap;
      StoredUsable(h0, color, currentwhite, x, i, v);
      if gcstate == Propagate && color[x] == Black {
        BlackChildren(x);
        StoredBlack(h0, color, x, i, v);
      }
      Write(x, o);
      assert heap == h0[x := o];
      if v.Ref? && IsWhite(color[v.id]) && color[x] == Black {
        if o.kind == TableObject {
          BarrierBack(x);
        } else {
          BarrierForward(x, v.id);
        }
      } else {
        NoBarrier(x);
      }
    }

    /** OP_SETUPVAL and lua_setupvalue: a store through a closed upvalue. */
    method StoreClosed(u: Id, v: Val)
      requires Valid() && u in heap && heap[u].ClosedUpval? && CanUse(v)
      modifies this`heap, this`color, this`gray
      ensures Valid() && heap == old(heap)[u := ClosedUpval(v)]
    {
      hide LiveClosed, RootList, StringTable, UpvalList, OpenLists, SweepOk, SweepStringOk;
      NotOnString(heap, u);
      Write(u, ClosedUpval(v));
      if v.Ref? && IsWhite(color[v.id]) && color[u] == Black {
        BarrierForward(u, v.id);
      } else {
        NoBarrier(u);
      }
    }

    // ---- Stacks ----

    /** Stores in a stack need no barrier: threads are never black. */
    method WriteThread(t: Id, gt: Val, stack: seq<Val>)
      requires Valid() && t in heap && heap[t].Thread? && (CanUse(gt) || gt == heap[t].gt)
      requires forall i | 0 <= i < |stack| :: CanUse(stack[i]) || (i < |heap[t].stack| && stack[i] == heap[t].stack[i])
      requires forall u | u in heap && heap[u].OpenUpval? && heap[u].thread == t :: heap[u].slot < |stack|
      modifies this`heap
      ensures Valid() && heap == old(heap)[t := Thread(gt, stack, old(heap[t]).openupval)]
    {
      hide LiveClosed, RootList, StringTable, UpvalList, OpenLists, SweepOk, SweepStringOk;
      ThreadStorable(heap, color, currentwhite, t, gt, stack);
      ghost var h0 := heap;
      if gcstate == Propagate && color[t] == Black {
        BlackChildren(t);
      }
      Write(t, Thread(gt, stack, heap[t].openupval));
    }

    /** A store in a stack slot; also what OP_SETUPVAL does through an open upvalue. */
    method StoreSlot(t: Id, i: nat, v: Val)
      requires Valid() && t in heap && heap[t].Thread? && i < |heap[t].stack| && CanUse(v)
      modifies this`heap
      ensures Valid() && heap == old(heap)[t := old(heap[t]).(stack := old(heap[t]).stack[i := v])]
    {
      WriteThread(t, heap[t].gt, heap[t].stack[i := v]);
    }

    method Push(t: Id, v: Val)
      requires Valid() && t in heap && heap[t].Thread? && CanUse(v)
      modifies this`heap
      ensures Valid() && heap == old(heap)[t := old(heap[t]).(stack := old(heap[t]).stack + [v])]
    {
      WriteThread(t, heap[t].gt, heap[t].stack + [v]);
    }

    /** The slots from n on go, after luaF_close has closed the upvalues there. */
    method Pop(t: Id, n: nat)
      requires Valid() && t in heap && heap[t].Thread? && n <= |heap[t].stack|
      requires forall u | u in heap && heap[u].OpenUpval? && heap[u].thread == t :: heap[u].slot < n
      modifies this`heap
      ensures Valid() && heap == old(heap)[t := old(heap[t]).(stack := old(heap[t]).stack[..n])]
    {
      WriteThread(t, heap[t].gt, heap[t].stack[..n]);
    }

    /** lua_replace and lua_setfenv on the table of globals of a thread. */
    method SetGlobals(t: Id, v: Val)
      requires Valid() && t in heap && heap[t].Thread? && CanUse(v)
      modifies this`heap
      ensures Valid() && heap == old(heap)[t := old(heap[t]).(gt := v)]
    {
      WriteThread(t, v, heap[t].stack);
    }

    // ---- Roots ----

    lemma RootsUsable(k: nat, v: Val)
      requires Safe() && k < |mt| && CanUse(v)
      ensures forall r | r in {mainthread, running} + Refs([registry] + mt[k := v]) ::
                r in heap && r in color && !IsDead(color[r], currentwhite)
    {
      forall r | r in Refs([registry] + mt[k := v])
        ensures r in heap && r in color && !IsDead(color[r], currentwhite)
      {
        var x :| x in [registry] + mt[k := v] && x.Ref? && x.id == r;
        assert x == v || x in [registry] + mt;
        assert x != v ==> r in Roots();
      }
    }

    /** lua_setmetatable for a basic type: there is no barrier, atomic marks these tables again. */
    method SetBasicMetatable(k: nat, v: Val)
      requires Valid() && k < |mt| && CanUse(v)
      modifies this`mt
      ensures Valid() && mt == old(mt)[k := v]
    {
      hide IsDead, LiveClosed, OpenLists, PropagateOk, Refs, RestOk, RootList, StringTable, SweepOk, SweepStringOk,
           UpvalList;
      RootsUsable(k, v);
      mt := mt[k := v];
    }

    /** lua_resume and the return from it: another thread runs. */
    method SwitchThread(t: Id)
      requires Valid() && t in heap && heap[t].Thread? && CanUse(Ref(t))
      modifies this`running
      ensures Valid() && running == t
    {
      running := t;
    }

    // ---- Allocation ----

    lemma NewRootPhase(x: Id, o: Obj, part: seq<Id>)
      requires Valid() && x !in heap && !o.Str? && !o.OpenUpval? && (o.Thread? ==> o.openupval == [])
      requires forall y | y in part :: y in rootgc[..sweepgc] || y == x
      ensures var h, c := heap[x := o], color[x := White(currentwhite)];
              match gcstate
              case Propagate => PropagateOk(h, c, currentwhite, gray, grayagain, {}, mainthread, registry)
              case SweepString => SweepStringOk(h, c, currentwhite, strt, sweepstrgc)
              case Sweep => SweepOk(h, c, currentwhite, strt, part)
              case _ => RestOk(c, currentwhite)
    {
      hide LiveClosed, OpenLists, PropagateOk, RestOk, RootList, StringTable, SweepOk, SweepStringOk, UpvalList;
      if gcstate == Propagate {
        NewPropagate(heap, color, currentwhite, gray, grayagain, mainthread, registry, x, o);
      }
      PartInHeap(heap, rootgc, sweepgc);
      NewSweep(heap, color, currentwhite, x, o, strt, sweepstrgc, rootgc[..sweepgc], part);
    }

    /** A new object joins rootgc before position i, in the current white. */
    method AllocateAt(x: Id, o: Obj, i: nat)
      requires Valid() && x !in heap && !o.Str? && !o.OpenUpval? && (o.Thread? ==> o.openupval == []) && i <= |rootgc|
      requires forall v | v in Vals(heap[x := o], o) :: Usable(heap, color, currentwhite, v)
      modifies this`heap, this`color, this`rootgc, this`sweepgc
      ensures Valid() && heap == old(heap)[x := o] && CanUse(Ref(x)) && rootgc == Inserted(old(rootgc), i, x)
    {
      hide LiveClosed, OpenLists, PropagateOk, RestOk, RootList, Roots, StringTable, SweepOk, SweepStringOk, UpvalList;
      NewLive(heap, color, currentwhite, x, o);
      NewRootLists(heap, x, o, rootgc, i, strt, uvhead);
      PartInserted(rootgc, i, x, sweepgc);
      NewRootPhase(x, o, Inserted(rootgc, i, x)[..if i < sweepgc then sweepgc + 1 else sweepgc]);
      InsertRoot(x, i);
      heap, color := heap[x := o], color[x := White(currentwhite)];
    }

    /** luaC_link: a new table, function, prototype, thread or closed upvalue. */
    method NewObject(x: Id, o: Obj)
      requires Valid() && x !in heap && !o.Str? && !o.OpenUpval? && (o.Thread? ==> o.openupval == [])
      requires o.Node? ==> o.kind != UserData
      requires forall v | v in Vals(heap[x := o], o) :: Usable(heap, color, currentwhite, v)
      modifies this`heap, this`color, this`rootgc, this`sweepgc
      ensures Valid() && heap == old(heap)[x := o] && CanUse(Ref(x))
    {
      AllocateAt(x, o, 0);
    }

    /** luaS_newudata: userdata follow the main thread. */
    method NewUserdata(x: Id, vals: seq<Val>)
      requires Valid() && x !in heap && forall v | v in vals :: Usable(heap, color, currentwhite, v)
      modifies this`heap, this`color, this`rootgc, this`sweepgc
      ensures Valid() && heap == old(heap)[x := Node(UserData, vals)] && CanUse(Ref(x))
    {
      var i := 0;
      while i < |rootgc| && rootgc[i] != mainthread
        invariant 0 <= i <= |rootgc| && mainthread !in rootgc[..i]
      {
        i := i + 1;
      }
      AllocateAt(x, Node(UserData, vals), if i < |rootgc| then i + 1 else i);
    }

    lemma NewStringPhase(x: Id, b: nat)
      requires Valid() && x !in heap && b < |strt|
      ensures var h, c, t := heap[x := Str], color[x := White(currentwhite)], strt[b := [x] + strt[b]];
              match gcstate
              case Propagate => PropagateOk(h, c, currentwhite, gray, grayagain, {}, mainthread, registry)
              case SweepString => SweepStringOk(h, c, currentwhite, t, sweepstrgc)
              case Sweep => SweepOk(h, c, currentwhite, t, rootgc[..sweepgc])
              case _ => RestOk(c, currentwhite)
    {
      hide LiveClosed, OpenLists, PropagateOk, RestOk, RootList, StringTable, SweepOk, SweepStringOk, UpvalList;
      if gcstate == Propagate {
        NewPropagate(heap, color, currentwhite, gray, grayagain, mainthread, registry, x, Str);
      }
      NewStringSweep(heap, color, currentwhite, x, b, strt, sweepstrgc, rootgc[..sweepgc]);
    }

    /** newlstr: a new string, at the head of its bucket. */
    method NewString(x: Id, b: nat)
      requires Valid() && x !in heap && b < |strt|
      modifies this`heap, this`color, this`strt
      ensures Valid() && heap == old(heap)[x := Str] && CanUse(Ref(x)) && strt == old(strt)[b := [x] + old(strt[b])]
    {
      hide LiveClosed, OpenLists, PropagateOk, RestOk, RootList, Roots, StringTable, SweepOk, SweepStringOk,
           UpvalList;
      NewLive(heap, color, currentwhite, x, Str);
      NewStringLists(heap, x, b, rootgc, strt, uvhead);
      NewStringPhase(x, b);
      heap, color := heap[x := Str], color[x := White(currentwhite)];
      strt := strt[b := [x] + strt[b]];
    }

    /** changewhite on a dead object whose values are all usable. */
    method Revive(x: Id)
      requires Valid() && x in heap && IsDead(color[x], currentwhite)
      requires forall v | v in Vals(heap, heap[x]) :: Usable(heap, color, currentwhite, v)
      modifies this`color
      ensures Valid() && color == old(color)[x := White(currentwhite)]
    {
      hide LiveClosed, RootList, StringTable, UpvalList, OpenLists, SweepOk, SweepStringOk;
      RevivedLive(heap, color, currentwhite, x);
      RevivedSweep(heap, color, currentwhite, x, strt, sweepstrgc, rootgc[..sweepgc]);
      color := color[x := White(currentwhite)];
    }

    /** luaS_newlstr on a string that exists already: if it is dead, it comes back. */
    method ReuseString(x: Id)
      requires Valid() && x in heap && heap[x].Str?
      modifies this`color
      ensures Valid() && CanUse(Ref(x))
    {
      if IsDead(color[x], currentwhite) {
        Revive(x);
      }
    }

    /** luaS_fix: the string is never collected. */
    method FixString(x: Id)
      requires Valid() && x in heap && heap[x].Str?
      modifies this`fixed
      ensures Valid() && fixed == old(fixed) + {x}
    {
      fixed := fixed + {x};
    }

    /** luaS_resize: the same strings in other buckets, but not while these are being swept. */
    method ResizeStrings(table: seq<seq<Id>>)
      requires Valid() && table != [] && StringTable(heap, table)
      modifies this`strt
      ensures Valid() && strt == if gcstate == SweepString then old(strt) else table
    {
      hide LiveClosed, RootList, UpvalList, OpenLists;
      if gcstate != SweepString {
        SameBuckets(heap, color, currentwhite, strt, table);
        strt := table;
      }
    }

    // ---- Upvalues ----

    /** What is on the open list of the running thread. */
    lemma RunningList()
      requires Valid()
      ensures running in heap && heap[running].Thread? && Falling(heap, heap[running].openupval)
      ensures var l := heap[running].openupval;
              forall i | 0 <= i < |l| ::
                l[i] in heap && l[i] in color && heap[l[i]].OpenUpval? && heap[l[i]].thread == running
    {
      hide LiveClosed, RootList, StringTable, UpvalList, Phase;
    }

    /** The walk of luaF_findupval along the open list of the running thread. */
    method Search(level: nat) returns (found: bool, i: nat)
      requires Valid()
      ensures running in heap && heap[running].Thread?
      ensures found ==> i < |heap[running].openupval| && var u := heap[running].openupval[i];
                u in heap && u in color && heap[u] == OpenUpval(running, level)
      ensures !found ==> PlaceOf(heap, heap[running].openupval, level, i)
    {
      RunningList();
      hide Valid, Falling, PlaceOf;
      var l := heap[running].openupval;
      i := 0;
      while i < |l| && heap[l[i]].slot >= level
        invariant 0 <= i <= |l| && forall j | 0 <= j < i :: SlotOf(heap, l[j]) > level
      {
        if heap[l[i]].slot == level {
          return true, i;
        }
        i := i + 1;
      }
      PlaceFound(heap, l, level, i);
      found := false;
    }

    lemma SlotUsable(u: Id)
      requires Valid() && u in heap && heap[u].OpenUpval? && heap[u].thread == running
      ensures forall v | v in Vals(heap, heap[u]) :: Usable(heap, color, currentwhite, v)
    {
      forall v | v in Vals(heap, heap[u])
        ensures Usable(heap, color, currentwhite, v)
      {
        assert v in Vals(heap, heap[running]);
        assert v.Ref? ==> Child(heap, running, v.id);
      }
    }

    lemma RunningLive()
      requires Safe()
      ensures running in heap && running in color && !IsDead(color[running], currentwhite)
    {
      assert running in Roots();
    }

    lemma NoneDead()
      requires Phase() && gcstate == Propagate
      ensures NoDead(color, currentwhite)
              && PropagateOk(heap, color, currentwhite, gray, grayagain, {}, mainthread, registry)
    {
    }

    lemma NewOpenPhase(x: Id, level: nat, i: nat)
      requires Valid() && HasSlot(heap, running, level) && x !in heap && i <= |heap[running].openupval|
      ensures var h, c := Opened(heap, running, level, i, x), color[x := White(currentwhite)];
              match gcstate
              case Propagate => PropagateOk(h, c, currentwhite, gray, grayagain, {}, mainthread, registry)
              case SweepString => SweepStringOk(h, c, currentwhite, strt, sweepstrgc)
              case Sweep => SweepOk(h, c, currentwhite, strt, rootgc[..sweepgc])
              case _ => RestOk(c, currentwhite)
    {
      hide LiveClosed, OpenLists, Opened, PropagateOk, RestOk, RootList, Roots, StringTable, SweepOk, SweepStringOk,
           UpvalList;
      RunningLive();
      PartInHeap(heap, rootgc, sweepgc);
      OpenedSweep(heap, color, currentwhite, running, level, i, x, strt, sweepstrgc, rootgc[..sweepgc]);
      if gcstate == Propagate {
        NoneDead();
        NoDeadComplete(heap, color, currentwhite);
        OpenedPropagate(heap, color, currentwhite, running, level, i, x, gray, grayagain, mainthread, registry);
      }
    }

    /** A new open upvalue, at position i of the list of the running thread. */
    method NewOpen(x: Id, level: nat, i: nat)
      requires Valid() && HasSlot(heap, running, level) && x !in heap
               && PlaceOf(heap, heap[running].openupval, level, i)
      modifies this`heap, this`color, this`uvhead
      ensures Valid() && heap == Opened(old(heap), running, level, i, x) && CanUse(Ref(x))
      ensures color == old(color)[x := White(currentwhite)]
    {
      hide LiveClosed, OpenLists, Opened, PropagateOk, RestOk, RootList, Roots, StringTable, SweepOk, SweepStringOk,
           UpvalList;
      RunningLive();
      OpenedViews(heap, running, level, i, x);
      OpenedLists(heap, running, level, i, x, rootgc, strt, uvhead);
      OpenedLive(heap, color, currentwhite, running, level, i, x);
      NewOpenPhase(x, level, i);
      heap, color, uvhead := Opened(heap, running, level, i, x), color[x := White(currentwhite)], [x] + uvhead;
    }

    /** luaF_findupval: the one upvalue of a slot of the running thread, which may come back from the dead. */
    method FindUpval(level: nat, x: Id) returns (u: Id)
      requires Valid() && HasSlot(heap, running, level) && x !in heap
      modifies this`heap, this`color, this`uvhead
      ensures Valid() && u in heap && heap[u] == OpenUpval(running, level) && CanUse(Ref(u))
      ensures forall y | y in heap && heap[y] == OpenUpval(running, level) :: y == u
      ensures heap == old(heap) || (u == x && Joined(old(heap), heap, running, level, x))
      ensures heap.Keys == old(heap.Keys) + {u} && AllSameFields(old(heap), heap)
      ensures color == old(color) || color == old(color)[u := White(currentwhite)]
    {
      hide AllSameFields;
      SameFieldsSelf(heap);
      var found, i := Search(level);
      if found {
        u := heap[running].openupval[i];
        if IsDead(color[u], currentwhite) {
          SlotUsable(u);
          Revive(u);
        }
      } else {
        u := x;
        OpenedFields(heap, running, level, i, x);
        NewOpen(x, level, i);
      }
      OneOpen(heap, running, level, u);
    }

    /** luaF_close: the upvalues of the running thread from a slot upwards. */
    method CloseUpvals(level: nat)
      requires Valid()
      modifies this`heap, this`color, this`uvhead, this`rootgc, this`sweepgc, this`gray
      ensures Valid() && Kept(old(heap), heap, Roots())
      ensures FieldsKept(old(heap), heap, Roots())
      ensures forall u | u in heap && heap[u].OpenUpval? && heap[u].thread == running :: heap[u].slot < level
    {
      hide LiveClosed, RootList, StringTable, UpvalList, SweepOk, SweepStringOk, PropagateOk, RestOk, Kept, Swept,
           SameFields;
      KeptSelf();
      while heap[running].openupval != [] && heap[heap[running].openupval[0]].slot >= level
        invariant Valid() && Kept(old(heap), heap, Roots())
        decreases |heap[running].openupval|
      {
        ghost var h1, c1 := heap, color;
        CloseTop(running, {});
        SweptKept(h1, c1, heap, color, currentwhite, fixed, Roots());
        KeptTwice(old(heap), h1, heap, Roots());
      }
      TopmostFirst(heap, running, level);
      KeptFields(old(heap), heap, Roots());
    }

    // ---- Runs ----

    predicate CanUseAll(vals: seq<Val>)
      reads this
    {
      forall v | v in vals :: v.Ref? ==> v.id in heap && v.id in color && !IsDead(color[v.id], currentwhite)
    }

    predicate IsThread(t: Id)
      reads this
    {
      t in heap && heap[t].Thread?
    }

    /** What an operation of the program asks for: that it uses objects of the right kind which are not
        dead. By ReachableLive this holds of everything that it can reach. */
    predicate Allowed(e: Event)
      reads this
    {
      match e
      case NewEvent(x, o) =>
        && x !in heap && !o.Str? && !o.OpenUpval? && (o.Thread? ==> o.openupval == [])
        && (o.Node? ==> o.kind != UserData)
        && CanUseAll(Vals(heap[x := o], o))
      case UserdataEvent(x, vals) => x !in heap && CanUseAll(vals)
      case StringEvent(x, b) => x !in heap && b < |strt|
      case ReuseEvent(x) => x in heap && heap[x].Str?
      case FixEvent(x) => x in heap && heap[x].Str?
      case ResizeEvent(table) => table != [] && IsTable(heap, table)
      case FieldEvent(x, i, v) => x in heap && heap[x].Node? && i <= |heap[x].vals| && CanUseAll([Ref(x), v])
      case ClosedEvent(u, v) => u in heap && heap[u].ClosedUpval? && CanUseAll([v])
      case SlotEvent(t, i, v) => IsThread(t) && i < |heap[t].stack| && CanUseAll([v])
      case PushEvent(t, v) => IsThread(t) && CanUseAll([v])
      case PopEvent(t, n) =>
        && IsThread(t) && n <= |heap[t].stack|
        && forall u | u in heap.Keys && heap[u].OpenUpval? && heap[u].thread == t :: heap[u].slot < n
      case GlobalsEvent(t, v) => IsThread(t) && CanUseAll([v])
      case MetatableEvent(k, v) => k < |mt| && CanUseAll([v])
      case SwitchEvent(t) => IsThread(t) && CanUseAll([Ref(t)])
      case FindEvent(level, x) => IsThread(running) && level < |heap[running].stack| && x !in heap
      case LoadEvent(t, x, i) => IsThread(t) && Readable(heap, x, i) && CanUseAll([Ref(x)])
      case LoadGlobalsEvent(t, x) => IsThread(t) && IsThread(x) && CanUseAll([Ref(x)])
      case LoadRegistryEvent(t) => IsThread(t)
      case LoadMetatableEvent(t, k) => IsThread(t) && k < |mt|
      case _ => true
    }

    /** Everything reachable is in the heap and not dead. */
    lemma AllReachable()
      requires Valid()
      ensures forall x | Reachable(heap, Roots(), x) :: x in heap && x in color && !IsDead(color[x], currentwhite)
    {
      forall x | Reachable(heap, Roots(), x)
        ensures x in heap && x in color && !IsDead(color[x], currentwhite)
      {
        ReachableLive(heap, color, currentwhite, Roots(), x);
      }
    }

    ghost predicate AllFields()
      reads this
    {
      forall x, v | CanUse(Ref(x)) && HasField(heap, x, v) :: CanUse(v)
    }

    lemma FieldLoaded(x: Id, v: Val)
      requires AllFields() && CanUseAll([Ref(x)]) && HasField(heap, x, v)
      ensures CanUse(v)
    {
      assert CanUse(Ref(x));
    }

    /** The program may use what the state refers to, and whatever it finds in a field of an object that it may
        use. */
    lemma AllUsable()
      requires Valid()
      ensures CanUse(Ref(mainthread)) && CanUse(Ref(running)) && CanUse(registry)
      ensures forall k | 0 <= k < |mt| :: CanUse(mt[k])
      ensures AllFields()
    {
      assert forall v | v in [registry] + mt && v.Ref? :: v.id in Roots();
      assert forall k | 0 <= k < |mt| :: mt[k] in [registry] + mt;
      forall x, v | CanUse(Ref(x)) && HasField(heap, x, v)
        ensures CanUse(v)
      {
        FieldUsable(heap, color, currentwhite, x, v);
      }
    }

    lemma ReachableUsable(x: Id, v: Val)
      requires Valid() && Reachable(heap, Roots(), x) && (v.Ref? ==> Reachable(heap, Roots(), v.id))
      ensures x in heap && IsThread(running) && CanUseAll([v]) && CanUseAll([Ref(x)]) && CanUseAll([Ref(x), v])
    {
      AllReachable();
    }

    /** The program may store what it can reach in what it can reach, ... */
    lemma StoreAllowed(x: Id, v: Val, i: nat)
      requires Valid() && Reachable(heap, Roots(), x) && (v.Ref? ==> Reachable(heap, Roots(), v.id))
      ensures x in heap
      ensures heap[x].Node? && i <= |heap[x].vals| ==> Allowed(FieldEvent(x, i, v))
      ensures heap[x].ClosedUpval? ==> Allowed(ClosedEvent(x, v))
      ensures heap[x].Thread? ==> Allowed(PushEvent(x, v)) && Allowed(GlobalsEvent(x, v)) && Allowed(SwitchEvent(x))
      ensures heap[x].Thread? && i < |heap[x].stack| ==> Allowed(SlotEvent(x, i, v))
      ensures i < |mt| ==> Allowed(MetatableEvent(i, v))
    {
      hide Valid, Reachable, Roots, CanUseAll;
      ReachableUsable(x, v);
    }

    /** ... read it, ... */
    lemma LoadAllowed(x: Id, i: nat)
      requires Valid() && Reachable(heap, Roots(), x)
      ensures x in heap && Allowed(StepEvent(i)) && Allowed(FullEvent) && Allowed(CloseEvent(i))
      ensures Readable(heap, x, i) ==> Allowed(LoadEvent(running, x, i))
      ensures heap[x].Thread? ==> Allowed(LoadGlobalsEvent(running, x))
      ensures Allowed(LoadRegistryEvent(running)) && (i < |mt| ==> Allowed(LoadMetatableEvent(running, i)))
    {
      hide Valid, Reachable, Readable, Roots, CanUseAll;
      ReachableUsable(x, Plain(0));
    }

    /** ... and make objects of it. */
    lemma NewAllowed(n: Id, x: Id, v: Val, i: nat)
      requires Valid() && Reachable(heap, Roots(), x) && (v.Ref? ==> Reachable(heap, Roots(), v.id)) && n !in heap
      ensures Allowed(NewEvent(n, Node(TableObject, [Ref(x), v]))) && Allowed(NewEvent(n, Node(Function, [Ref(x), v])))
      ensures Allowed(NewEvent(n, Node(Proto, [Ref(x), v]))) && Allowed(NewEvent(n, ClosedUpval(v)))
      ensures Allowed(UserdataEvent(n, [Ref(x), v]))
      ensures i < |strt| ==> Allowed(StringEvent(n, i))
      ensures running in heap && heap[running].Thread? && (i < |heap[running].stack| ==> Allowed(FindEvent(i, n)))
    {
      hide Valid, Reachable, Roots, CanUseAll;
      ReachableUsable(x, v);
    }

    /** The collector events: whatever can be reached keeps its fields. */
    method Collect(e: Event)
      requires Valid() && (e.StepEvent? || e.FullEvent? || e.CloseEvent?)
      modifies this`heap, this`color, this`uvhead, this`rootgc, this`sweepgc, this`gray, this`grayagain, this`gcstate,
               this`strt, this`sweepstrgc, this`currentwhite
      ensures Valid() && Effect(e, old(View()), View()) && FieldsKept(old(heap), heap, Roots())
      ensures e.FullEvent? ==> heap.Keys == ReachSet(old(heap), Roots()) + fixed
    {
      hide Valid, Roots, Kept, FieldsKept;
      match e {
        case StepEvent(n) => Step(n);
        case FullEvent => FullGC();
        case CloseEvent(level) => CloseUpvals(level);
      }
    }

    /** Reads, whose value goes to the top of a stack: that it may be used is no condition. */
    method Load(e: Event)
      requires Valid() && Allowed(e)
      requires e.LoadEvent? || e.LoadGlobalsEvent? || e.LoadRegistryEvent? || e.LoadMetatableEvent?
      modifies this`heap
      ensures Valid() && Effect(e, old(View()), View()) && heap.Keys == old(heap.Keys)
    {
      hide Valid, HasField, Readable, Usable, AllFields;
      AllUsable();
      match e {
        case LoadEvent(t, x, i) =>
          FieldLoaded(x, Field(heap, x, i));
          Push(t, Field(heap, x, i));
        case LoadGlobalsEvent(t, x) =>
          GlobalsHeld(heap, x);
          FieldLoaded(x, heap[x].gt);
          Push(t, heap[x].gt);
        case LoadRegistryEvent(t) => Push(t, registry);
        case LoadMetatableEvent(t, k) => Push(t, mt[k]);
      }
    }

    method Store(e: Event)
      requires Valid() && Allowed(e)
      requires e.FieldEvent? || e.ClosedEvent? || e.SlotEvent? || e.PushEvent? || e.PopEvent? || e.GlobalsEvent?
               || e.MetatableEvent? || e.SwitchEvent?
      modifies this`heap, this`color, this`gray, this`grayagain, this`mt, this`running
      ensures Valid() && Effect(e, old(View()), View()) && heap.Keys == old(heap.Keys)
    {
      hide Valid;
      match e {
        case FieldEvent(x, i, v) => StoreField(x, i, v);
        case ClosedEvent(x, v) => StoreClosed(x, v);
        case SlotEvent(t, i, v) => StoreSlot(t, i, v);
        case PushEvent(t, v) => Push(t, v);
        case PopEvent(t, n) => Pop(t, n);
        case GlobalsEvent(t, v) => SetGlobals(t, v);
        case MetatableEvent(k, v) => SetBasicMetatable(k, v);
        case SwitchEvent(t) => SwitchThread(t);
      }
    }

    method Make(e: Event)
      requires Valid() && Allowed(e)
      requires e.NewEvent? || e.UserdataEvent? || e.StringEvent? || e.ReuseEvent? || e.FixEvent? || e.ResizeEvent?
               || e.FindEvent?
      modifies this`heap, this`color, this`uvhead, this`rootgc, this`sweepgc, this`strt, this`fixed
      ensures Valid() && Effect(e, old(View()), View()) && old(heap.Keys) <= heap.Keys
    {
      hide Valid;
      match e {
        case NewEvent(x, o) => NewObject(x, o);
        case UserdataEvent(x, vals) => NewUserdata(x, vals);
        case StringEvent(x, b) => NewString(x, b);
        case ReuseEvent(x) => ReuseString(x);
        case FixEvent(x) => FixString(x);
        case ResizeEvent(table) =>
          IsTableOk(heap, table);
          ResizeStrings(table);
        case FindEvent(level, x) => var u := FindUpval(level, x);
      }
    }

    /** One event. Whatever was reachable before is still there after it. */
    method Do(e: Event)
      requires Valid() && Allowed(e)
      modifies this
      ensures Valid() && Effect(e, old(View()), View())
      ensures forall x | Reachable(old(heap), old(Roots()), x) :: x in heap
      ensures e.StepEvent? || e.FullEvent? || e.CloseEvent? ==> FieldsKept(old(heap), heap, old(Roots()))
      ensures e.FullEvent? ==> heap.Keys == ReachSet(old(heap), old(Roots())) + fixed
    {
      hide Valid, Roots, Allowed, Effect;
      AllReachable();
      match e {
        case StepEvent(_) => Collect(e);
        case FullEvent => Collect(e);
        case CloseEvent(_) => Collect(e);
        case LoadEvent(_, _, _) => Load(e);
        case LoadGlobalsEvent(_, _) => Load(e);
        case LoadRegistryEvent(_) => Load(e);
        case LoadMetatableEvent(_, _) => Load(e);
        case NewEvent(_, _) => Make(e);
        case UserdataEvent(_, _) => Make(e);
        case StringEvent(_, _) => Make(e);
        case ReuseEvent(_) => Make(e);
        case FixEvent(_) => Make(e);
        case ResizeEvent(_) => Make(e);
        case FindEvent(_, _) => Make(e);
        case _ => Store(e);
      }
    }

    /** Any interleaving of collector steps with operations of the program: at its end, and so at every
        point of it, nothing reachable has been freed or is about to be. */
    method Run(events: seq<Event>)
      requires Valid()
      modifies this
      ensures Valid()
      ensures forall x | Reachable(heap, Roots(), x) :: x in heap && x in color && !IsDead(color[x], currentwhite)
      ensures CanUse(Ref(mainthread)) && CanUse(Ref(running)) && CanUse(registry)
      ensures forall k | 0 <= k < |mt| :: CanUse(mt[k])
      ensures forall x, v | CanUse(Ref(x)) && HasField(heap, x, v) :: CanUse(v)
    {
      hide Valid, Roots, Allowed, HasField;
      for i := 0 to |events|
        invariant Valid()
      {
        if Allowed(events[i]) {
          Do(events[i]);
        }
      }
      AllReachable();
      AllUsable();
    }

    /** lua_newstate and f_luaopen: the main thread, the registry and an empty string table. */
    constructor (main: Id, reg: Id, buckets: nat, tags: nat)
      requires main != reg && buckets > 0
      ensures Valid() && heap.Keys == {main, reg} && gcstate == Pause
    {
      mainthread, running, registry, mt := main, main, Ref(reg), seq(tags, _ => Plain(0));
      heap := map[main := Thread(Plain(0), [], []), reg := Node(TableObject, [])];
      color, fixed, currentwhite, gcstate := map[main := White0, reg := White0], {main}, false, Pause;
      rootgc, sweepgc, strt, sweepstrgc := [reg, main], 0, seq(buckets, _ => []), 0;
      gray, grayagain, uvhead := [], [], [];
      new;
      StartOk(heap, color, strt, main, reg);
    }
  }
}
