/** Counting integer keys and choosing the size of the array part (ltable.c:189-260). */
module TableSizes {
  import opened TableValues
  import opened TableNodes

  function Pow2(n: nat): (p: nat)
    ensures p > n
  {
    if n == 0 then 1 else 2 * Pow2(n - 1)
  }

  lemma {:induction false} Pow2Monotone(m: nat, n: nat)
    requires m <= n
    ensures Pow2(m) <= Pow2(n)
    decreases n
  {
    if m >= n {
    } else {
      Pow2Monotone(m, n - 1);
    }
  }

  lemma Pow2Bound()
    ensures Pow2(MAXBITS) == MAXASIZE
  {
    assert Pow2(8) == 256;
    assert Pow2(16) == 0x1_0000;
    assert Pow2(24) == 0x100_0000;
  }

  /** The keys k with 2^(l-1) < k <= 2^l; only key 1 for l == 0. */
  predicate InSlice(k: int, l: nat) {
    (if l == 0 then 0 else Pow2(l - 1)) < k <= Pow2(l)
  }

  function Slice(keys: set<int>, l: nat): set<int> {
    set k | k in keys && InSlice(k, l)
  }

  function UpTo(keys: set<int>, n: int): set<int> {
    set k | k in keys && 0 < k <= n
  }

  lemma SlicesDisjoint(k: int, l: nat, m: nat)
    requires InSlice(k, l) && InSlice(k, m)
    ensures l == m
  {
    if l < m {
      Pow2Monotone(l, m - 1);
    } else if m < l {
      Pow2Monotone(m, l - 1);
    }
  }

  lemma {:induction false} Subset<T>(a: set<T>, b: set<T>)
    requires a <= b
    ensures |a| <= |b|
  {
    assert b == a + (b - a);
  }

  lemma {:induction false} RangeSize(keys: set<int>, n: nat)
    requires forall k | k in keys :: 0 < k <= n
    ensures |keys| <= n
  {
    if n > 0 {
      RangeSize(keys - {n}, n - 1);
      assert keys <= (keys - {n}) + {n};
      Subset(keys, (keys - {n}) + {n});
    } else {
      assert forall k :: k !in keys;
    }
  }

  /** The keys up to 2^l are those up to 2^(l-1) and the slice of l. */
  lemma UpToSplit(keys: set<int>, l: nat)
    ensures l == 0 ==> |UpTo(keys, 1)| == |Slice(keys, 0)|
    ensures l > 0 ==> |UpTo(keys, Pow2(l))| == |UpTo(keys, Pow2(l - 1))| + |Slice(keys, l)|
  {
    if l == 0 {
      assert UpTo(keys, 1) == Slice(keys, 0);
    } else {
      assert UpTo(keys, Pow2(l)) == UpTo(keys, Pow2(l - 1)) + Slice(keys, l);
    }
  }

  // ---- luaO_log2 (lobject.c:54-69) ----

  /** The entries of the 256-byte table, which are constant on each range of a power of two. */
  function LogTable(x: nat): (l: nat)
    requires x < 256
  {
    if x < 1 then 0 else if x < 2 then 1 else if x < 4 then 2 else if x < 8 then 3 else if x < 16 then 4
    else if x < 32 then 5 else if x < 64 then 6 else if x < 128 then 7 else 8
  }

  lemma LogTableExact(x: nat)
    requires 0 < x < 256
    ensures LogTable(x) > 0 && Pow2(LogTable(x) - 1) <= x < Pow2(LogTable(x))
  {
    assert Pow2(3) == 8 && Pow2(6) == 64 && Pow2(8) == 256;
  }

  lemma MulMonotone(c: nat, a: int, b: int)
    requires a <= b
    ensures c * a <= c * b
  {
  }

  lemma ShiftBounds(x: nat, p: nat, z: nat, r: nat)
    requires r < 256 && p * (256 * z + r) <= x < p * (256 * z + r + 1)
    ensures (p * 256) * z <= x < (p * 256) * (z + 1)
  {
    var w := p * z;
    assert p * (256 * z + r) == 256 * w + p * r;
    assert p * (256 * z + r + 1) == 256 * w + p * (r + 1);
    MulMonotone(p, r + 1, 256);
    assert (p * 256) * z == 256 * w;
  }

  lemma {:induction false} Pow2Sum(m: nat, n: nat)
    ensures Pow2(m + n) == Pow2(m) * Pow2(n)
  {
    if n == 0 {
    } else {
      Pow2Sum(m, n - 1);
      assert Pow2(m) * Pow2(n) == 2 * (Pow2(m) * Pow2(n - 1));
    }
  }

  lemma Shift(x: nat, y: nat, m: nat)
    requires Pow2(m) * y <= x < Pow2(m) * (y + 1)
    ensures Pow2(m + 8) * (y / 256) <= x < Pow2(m + 8) * (y / 256 + 1)
  {
    Pow2Sum(m, 8);
    assert Pow2(8) == 256;
    ShiftBounds(x, Pow2(m), y / 256, y % 256);
  }

  /** floor(log2 x), and -1 for 0. */
  method Log2(x: nat) returns (r: int)
    ensures x == 0 ==> r == -1
    ensures x > 0 ==> r >= 0 && Pow2(r) <= x < Pow2(r + 1)
  {
    var l, y := -1, x;
    ghost var m := 0;
    while y >= 256
      invariant if x == 0 then y == 0 && l == -1 else y > 0
      invariant l == m - 1 && m >= 0
      invariant Pow2(m) * y <= x < Pow2(m) * (y + 1)
      decreases y
    {
      l := l + 8;
      Shift(x, y, m);
      y := y / 256;
      m := m + 8;
    }
    r := l + LogTable(y);
    if x > 0 {
      LogTableExact(y);
      ghost var t := LogTable(y);
      Pow2Sum(m, t - 1);
      Pow2Sum(m, t);
      MulMonotone(Pow2(m), Pow2(t - 1), y);
      MulMonotone(Pow2(m), y + 1, Pow2(t));
    }
  }

  /** The smallest l with x <= 2^l. */
  method CeilLog2(x: nat) returns (l: nat)
    requires x > 0
    ensures InSlice(x, l)
  {
    var r := Log2(x - 1);
    l := r + 1;
  }

  // ---- computesizes ----

  predicate MoreThanHalf(keys: set<int>, n: nat) {
    2 * |UpTo(keys, n)| > n
  }

  /** n is the largest power of two with more than n/2 of 1..n in use, 0 when there is none. */
  ghost predicate OptimalSize(keys: set<int>, n: nat) {
    && (n == 0 || (MoreThanHalf(keys, n) && exists l: nat :: l <= MAXBITS && n == Pow2(l)))
    && (forall l: nat | Pow2(l) > n :: !MoreThanHalf(keys, Pow2(l)))
  }

  lemma OptimalMeans(keys: set<int>, n: nat)
    requires OptimalSize(keys, n)
    ensures n > 0 ==> 2 * |set k | k in keys && 1 <= k <= n| > n
    ensures forall l: nat | Pow2(l) > n :: 2 * |set k | k in keys && 1 <= k <= Pow2(l)| <= Pow2(l)
  {
    forall m: int
      ensures UpTo(keys, m) == set k | k in keys && 1 <= k <= m
    {
    }
  }

  lemma OptimalSizeUnique(keys: set<int>, m: nat, n: nat)
    requires OptimalSize(keys, m) && OptimalSize(keys, n)
    ensures m == n
  {
  }

  ghost predicate Counts(nums: seq<int>, keys: set<int>) {
    && |nums| == MAXBITS + 1
    && (forall k | k in keys :: 0 < k <= MAXASIZE)
    && (forall l | 0 <= l <= MAXBITS :: nums[l] == |Slice(keys, l)|)
  }

  /** Once every key is counted no larger size can be more than half full: at most 2^i keys. */
  lemma AllCounted(keys: set<int>, i: nat, n: nat)
    requires |UpTo(keys, Pow2(i))| == |keys|
    ensures forall l: nat | l > i :: !MoreThanHalf(keys, Pow2(l))
  {
    forall l: nat | l > i
      ensures !MoreThanHalf(keys, Pow2(l))
    {
      Pow2Monotone(i + 1, l);
      Subset(UpTo(keys, Pow2(l)), keys);
      RangeSize(UpTo(keys, Pow2(i)), Pow2(i));
    }
  }

  /** The choice made from the slice counts alone. The array index is checked to stay in range. */
  method ComputeSizes(nums: array<int>, narray: nat, ghost keys: set<int>) returns (na: nat, n: nat)
    requires Counts(nums[..], keys) && narray == |keys|
    ensures OptimalSize(keys, n)
    ensures na == |UpTo(keys, n)|
  {
    var a, i, twotoi := 0, 0, 1;
    na, n := 0, 0;
    Pow2Bound();
    RangeSize(keys, MAXASIZE);
    assert UpTo(keys, 0) == {};
    while twotoi / 2 < narray
      invariant i >= 0 && twotoi == Pow2(i)
      invariant a == |UpTo(keys, if i == 0 then 0 else Pow2(i - 1))|
      invariant n == 0 || (MoreThanHalf(keys, n) && exists l: nat :: l < i && l <= MAXBITS && n == Pow2(l))
      invariant na == |UpTo(keys, n)|
      invariant forall l: nat | l < i && Pow2(l) > n :: !MoreThanHalf(keys, Pow2(l))
      decreases 2 * narray + 1 - twotoi
    {
      if i > MAXBITS {
        Pow2Monotone(MAXBITS + 1, i);
        assert false;
      }
      UpToSplit(keys, i);
      RangeSize(UpTo(keys, twotoi / 2), twotoi / 2);
      assert i > 0 ==> Pow2(i - 1) == twotoi / 2;
      if nums[i] > 0 {
        a := a + nums[i];
        if a > twotoi / 2 {
          forall l: nat | l < i
            ensures Pow2(l) <= twotoi
          {
            Pow2Monotone(l, i);
          }
          n := twotoi;
          na := a;
        }
      }
      assert a == |UpTo(keys, twotoi)|;
      assert Pow2(i) > n ==> !MoreThanHalf(keys, Pow2(i));
      if a == narray {
        AllCounted(keys, i, n);
        return;
      }
      i, twotoi := i + 1, twotoi * 2;
    }
    forall l: nat | l >= i
      ensures !MoreThanHalf(keys, Pow2(l))
    {
      Pow2Monotone(i, l);
      Subset(UpTo(keys, Pow2(l)), keys);
    }
  }

  // ---- numusearray, numusehash, countint ----

  predicate InUse(a: seq<Value>, i: int)
    requires 1 <= i <= |a|
  {
    a[i - 1] != Nil
  }

  /** The indices in use in the array part. */
  function ArrayKeys(a: seq<Value>): set<int> {
    set i | 1 <= i <= |a| && InUse(a, i)
  }

  predicate IsCandidate(key: Value) {
    0 < ArrayIndex(key) <= MAXASIZE
  }

  function Candidate(key: Value): set<int> {
    if IsCandidate(key) then {ArrayIndex(key)} else {}
  }

  /** The integer keys of the live entries of a node vector that could live in the array part. */
  function HashInts(nodes: seq<Node>): set<int> {
    if nodes == [] then {}
    else HashInts(nodes[1..]) + (if nodes[0].val != Nil then Candidate(nodes[0].key) else {})
  }

  function LiveCount(nodes: seq<Node>): nat {
    if nodes == [] then 0 else LiveCount(nodes[1..]) + (if nodes[0].val != Nil then 1 else 0)
  }

  lemma {:induction false} HashIntsMembers(nodes: seq<Node>, k: int)
    ensures k in HashInts(nodes) <==>
      exists i | 0 <= i < |nodes| :: nodes[i].val != Nil && IsCandidate(nodes[i].key) && ArrayIndex(nodes[i].key) == k
  {
    if nodes == [] {
    } else {
      HashIntsMembers(nodes[1..], k);
      if k in HashInts(nodes[1..]) {
        var i :| 0 <= i < |nodes[1..]| && nodes[1..][i].val != Nil && IsCandidate(nodes[1..][i].key)
                 && ArrayIndex(nodes[1..][i].key) == k;
        assert nodes[i + 1] == nodes[1..][i];
      }
      if i :| 0 <= i < |nodes| && nodes[i].val != Nil && IsCandidate(nodes[i].key) && ArrayIndex(nodes[i].key) == k {
        assert i > 0 ==> nodes[1..][i - 1] == nodes[i];
      }
    }
  }

  lemma SliceAdd(keys: set<int>, k: int, l: nat, m: nat)
    requires k !in keys && InSlice(k, m)
    ensures |Slice(keys + {k}, l)| == |Slice(keys, l)| + (if l == m then 1 else 0)
  {
    if l == m {
      assert Slice(keys + {k}, l) == Slice(keys, l) + {k};
    } else {
      if InSlice(k, l) {
        SlicesDisjoint(k, l, m);
      }
      assert Slice(keys + {k}, l) == Slice(keys, l);
    }
  }

  /** countint: count a key that is a candidate for the array part. */
  method CountInt(key: Value, nums: array<int>, ghost keys: set<int>) returns (c: nat)
    requires Counts(nums[..], keys)
    requires Candidate(key) !! keys
    modifies nums
    ensures Counts(nums[..], keys + Candidate(key))
    ensures c == |Candidate(key)|
  {
    var k := ArrayIndex(key);
    if 0 < k <= MAXASIZE {
      var l := CeilLog2(k);
      Pow2Bound();
      if l > MAXBITS {
        Pow2Monotone(MAXBITS, l - 1);
      }
      forall m: nat | m <= MAXBITS
        ensures |Slice(keys + {k}, m)| == |Slice(keys, m)| + (if m == l then 1 else 0)
      {
        SliceAdd(keys, k, m, l);
      }
      nums[l] := nums[l] + 1;
      return 1;
    } else {
      assert keys + {} == keys;
      return 0;
    }
  }

  lemma NoneYet(all: set<int>, from: nat, lg: nat)
    requires from == 1 + (if lg == 0 then 0 else Pow2(lg - 1))
    ensures |Slice(UpTo(all, from - 1), lg)| == 0
  {
    assert Slice(UpTo(all, from - 1), lg) == {};
  }

  lemma CountOne(all: set<int>, i: int, lg: nat)
    requires i > 0 && InSlice(i, lg)
    ensures |UpTo(all, i)| == |UpTo(all, i - 1)| + (if i in all then 1 else 0)
    ensures |Slice(UpTo(all, i), lg)| == |Slice(UpTo(all, i - 1), lg)| + (if i in all then 1 else 0)
  {
    if i in all {
      assert UpTo(all, i) == UpTo(all, i - 1) + {i};
      SliceAdd(UpTo(all, i - 1), i, lg, lg);
    } else {
      assert UpTo(all, i) == UpTo(all, i - 1);
    }
  }

  /** The inner loop of numusearray: the indices in use from `from` to lim, all in slice lg. */
  method CountRange(arr: array<Value>, sizearray: nat, from: nat, lim: nat, lg: nat) returns (lc: nat)
    requires sizearray <= arr.Length && lim <= sizearray && lim <= Pow2(lg)
    requires from == 1 + (if lg == 0 then 0 else Pow2(lg - 1)) && from <= lim + 1
    ensures var all := ArrayKeys(arr[..sizearray]);
            lc == |Slice(UpTo(all, lim), lg)| && |UpTo(all, lim)| == |UpTo(all, from - 1)| + lc
  {
    ghost var all := ArrayKeys(arr[..sizearray]);
    lc := 0;
    var i := from;
    NoneYet(all, from, lg);
    while i <= lim
      invariant from <= i <= lim + 1
      invariant lc == |Slice(UpTo(all, i - 1), lg)|
      invariant |UpTo(all, i - 1)| == |UpTo(all, from - 1)| + lc
    {
      CountOne(all, i, lg);
      if arr[i - 1] != Nil {
        assert i in all;
        lc := lc + 1;
      } else {
        assert i !in all;
      }
      i := i + 1;
    }
  }

  lemma NoMoreSlices(all: set<int>, lg: nat, size: nat)
    requires forall k | k in all :: 0 < k <= size
    requires lg == 0 ==> size == 0
    requires lg > 0 ==> size <= Pow2(lg - 1)
    ensures forall l: nat | l >= lg :: |Slice(all, l)| == 0
  {
    forall l: nat | l >= lg
      ensures |Slice(all, l)| == 0
    {
      if lg > 0 {
        Pow2Monotone(lg - 1, l - 1);
      }
      assert Slice(all, l) == {};
    }
  }

  lemma SeenSlices(all: set<int>)
    ensures forall l: nat | l <= MAXBITS :: Slice(UpTo(all, MAXASIZE), l) == Slice(all, l)
  {
    Pow2Bound();
    forall l: nat | l <= MAXBITS
      ensures Slice(UpTo(all, MAXASIZE), l) == Slice(all, l)
    {
      Pow2Monotone(l, MAXBITS);
    }
  }

  /** numusearray: the indices in use of the array part, up to the largest size there may be. */
  method NumUseArray(arr: array<Value>, sizearray: nat, nums: array<int>) returns (ause: nat)
    requires sizearray <= arr.Length
    requires nums.Length == MAXBITS + 1 && forall l | 0 <= l <= MAXBITS :: nums[l] == 0
    modifies nums
    ensures Counts(nums[..], UpTo(ArrayKeys(arr[..sizearray]), MAXASIZE))
    ensures ause == |UpTo(ArrayKeys(arr[..sizearray]), MAXASIZE)|
  {
    var lg, ttlg, i := 0, 1, 1;
    ause := 0;
    ghost var all := ArrayKeys(arr[..sizearray]);
    assert UpTo(all, 0) == {};
    Pow2Bound();
    while lg <= MAXBITS
      invariant 0 <= lg <= MAXBITS + 1 && ttlg == Pow2(lg)
      invariant i == 1 + (if lg == 0 then 0 else if Pow2(lg - 1) < sizearray then Pow2(lg - 1) else sizearray)
      invariant ause == |UpTo(all, i - 1)|
      invariant forall l | 0 <= l < lg :: nums[l] == |Slice(all, l)|
      invariant forall l | lg <= l <= MAXBITS :: nums[l] == 0
    {
      var lim := ttlg;
      if lim > sizearray {
        lim := sizearray;
        if i > lim {
          NoMoreSlices(all, lg, sizearray);
          Pow2Monotone(lg, MAXBITS);
          break;
        }
      }
      var lc := CountRange(arr, sizearray, i, lim, lg);
      i := lim + 1;
      assert Slice(UpTo(all, lim), lg) == Slice(all, lg);
      nums[lg] := nums[lg] + lc;
      ause := ause + lc;
      lg, ttlg := lg + 1, ttlg * 2;
    }
    assert i - 1 == if sizearray < MAXASIZE then sizearray else MAXASIZE;
    assert UpTo(all, i - 1) == UpTo(all, MAXASIZE);
    SeenSlices(all);
  }

  lemma HashStep(nodes: seq<Node>, i: nat, keys: set<int>)
    requires i < |nodes| && LiveKeyed(nodes)
    requires nodes[i].val != Nil ==> nodes[i].Keyed() && Candidate(nodes[i].key) !! keys
    ensures LiveCount(nodes[i..]) == LiveCount(nodes[i + 1..]) + (if nodes[i].val != Nil then 1 else 0)
    ensures nodes[i].val == Nil ==> HashInts(nodes[i..]) == HashInts(nodes[i + 1..])
    ensures nodes[i].val != Nil ==>
              var rest := keys + HashInts(nodes[i + 1..]);
              Candidate(nodes[i].key) !! rest && keys + HashInts(nodes[i..]) == rest + Candidate(nodes[i].key)
  {
    assert nodes[i..][1..] == nodes[i + 1..];
    var later := nodes[i + 1..];
    forall k | nodes[i].val != Nil && k in Candidate(nodes[i].key)
      ensures k !in HashInts(later)
    {
      HashIntsMembers(later, k);
      assert forall j | 0 <= j < |later| :: later[j] == nodes[i + 1 + j];
    }
  }

  method NumUseHash(node: array<Node>, nums: array<int>, nasize: nat, ghost keys: set<int>)
    returns (totaluse: nat, nasize': nat)
    requires Counts(nums[..], keys) && nasize == |keys|
    requires LiveKeyed(node[..])
    requires forall i | 0 <= i < node.Length && node[i].val != Nil :: node[i].Keyed() && Candidate(node[i].key) !! keys
    modifies nums
    ensures Counts(nums[..], keys + HashInts(node[..])) && nasize' == |keys + HashInts(node[..])|
    ensures totaluse == LiveCount(node[..])
  {
    totaluse, nasize' := 0, nasize;
    var i := node.Length;
    assert node[i..] == [] && keys + {} == keys;
    while i > 0
      invariant 0 <= i <= node.Length
      invariant Counts(nums[..], keys + HashInts(node[i..])) && nasize' == |keys + HashInts(node[i..])|
      invariant totaluse == LiveCount(node[i..])
    {
      i := i - 1;
      ghost var rest := keys + HashInts(node[i + 1..]);
      HashStep(node[..], i, keys);
      if node[i].val != Nil {
        var c := CountInt(node[i].key, nums, rest);
        nasize' := nasize' + c;
        totaluse := totaluse + 1;
      }
    }
    assert node[0..] == node[..];
  }
}
