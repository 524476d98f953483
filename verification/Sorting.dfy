/** table.sort: the quicksort of ltablib.c. */
module Sorting {

  /** An order function as sort wants it: a strict weak order. */
  ghost predicate StrictWeak<T(!new)>(lt: (T, T) -> bool) {
    && (forall x :: !lt(x, x))
    && (forall x, y, z :: lt(x, y) && lt(y, z) ==> lt(x, z))
    && (forall x, y, z :: !lt(x, y) && !lt(y, x) && !lt(y, z) && !lt(z, y) ==> !lt(x, z) && !lt(z, x))
  }

  predicate Le<T>(lt: (T, T) -> bool, x: T, y: T) {
    !lt(y, x)
  }

  lemma LeTransitive<T(!new)>(lt: (T, T) -> bool, x: T, y: T, z: T)
    requires StrictWeak(lt) && Le(lt, x, y) && Le(lt, y, z)
    ensures Le(lt, x, z)
  {
  }

  /** The pairs of places from l0 to u0 of which one is outside the window from l to u are in order. */
  ghost predicate OrderedBut<T(!new)>(lt: (T, T) -> bool, s: seq<T>, l0: int, u0: int, l: int, u: int)
    requires 0 <= l0 && u0 < |s|
  {
    forall p, q | l0 <= p < q <= u0 && (p < l || u < q) :: Le(lt, s[p], s[q])
  }

  ghost predicate Sorted<T(!new)>(lt: (T, T) -> bool, s: seq<T>, l: int, u: int)
    requires 0 <= l && u < |s|
  {
    forall p, q | l <= p < q <= u :: Le(lt, s[p], s[q])
  }

  /** The places from l to u are rearranged, all others as before. */
  ghost predicate Rearranged<T>(s: seq<T>, t: seq<T>, l: int, u: int) {
    |t| == |s| && multiset(t) == multiset(s) && forall p | 0 <= p < |s| && (p < l || u < p) :: t[p] == s[p]
  }

  lemma RearrangedTwice<T>(s: seq<T>, t: seq<T>, r: seq<T>, l: int, u: int, l': int, u': int)
    requires Rearranged(s, t, l, u) && Rearranged(t, r, l', u') && l <= l' && u' <= u
    ensures Rearranged(s, r, l, u)
  {
  }

  lemma MultisetParts<T>(s: seq<T>, l: int, u: int)
    requires 0 <= l <= u + 1 <= |s|
    ensures multiset(s[l..u + 1]) == multiset(s) - multiset(s[..l]) - multiset(s[u + 1..])
  {
    assert s == s[..l] + s[l..u + 1] + s[u + 1..];
  }

  lemma InnerSame<T>(s: seq<T>, t: seq<T>, l: int, u: int)
    requires Rearranged(s, t, l, u) && 0 <= l <= u < |s|
    ensures multiset(s[l..u + 1]) == multiset(t[l..u + 1])
  {
    MultisetParts(s, l, u);
    MultisetParts(t, l, u);
    assert s[..l] == t[..l] && s[u + 1..] == t[u + 1..];
  }

  lemma SameElements<T>(m: seq<T>, n: seq<T>, i: nat) returns (k: nat)
    requires multiset(m) == multiset(n) && i < |n|
    ensures k < |m| && m[k] == n[i]
  {
    assert n[i] in multiset(n) && n[i] in m;
    k :| k < |m| && m[k] == n[i];
  }

  /** What stands in the rearranged part after stood there before. */
  lemma RearrangedFrom<T>(s: seq<T>, t: seq<T>, l: int, u: int, p: int) returns (q: int)
    requires Rearranged(s, t, l, u) && 0 <= l <= p <= u < |s|
    ensures l <= q <= u && t[p] == s[q]
  {
    InnerSame(s, t, l, u);
    var k := SameElements(s[l..u + 1], t[l..u + 1], p - l);
    q := l + k;
  }

  /** set2, on the two elements it is used to exchange. */
  method Exchange<T>(a: array<T>, i: int, j: int, ghost l: int, ghost u: int)
    requires 0 <= l <= i <= u < a.Length && l <= j <= u
    modifies a
    ensures a[i] == old(a[j]) && a[j] == old(a[i])
    ensures forall p | 0 <= p < a.Length && p != i && p != j :: a[p] == old(a[p])
    ensures Rearranged(old(a[..]), a[..], l, u)
  {
    ghost var s := a[..];
    a[i], a[j] := a[j], a[i];
    assert a[..] == s[i := s[j]][j := s[i]];
  }

  lemma RearrangedSelf<T>(s: seq<T>, l: int, u: int)
    ensures Rearranged(s, s, l, u)
  {
  }

  /** The middle of three: sort a[l], a[(l+u)/2] and a[u]. */
  method SortThree<T(!new)>(a: array<T>, lt: (T, T) -> bool, l: int, u: int)
    requires StrictWeak(lt) && 0 <= l < u < a.Length
    modifies a
    ensures Rearranged(old(a[..]), a[..], l, u)
    ensures u - l == 1 ==> Le(lt, a[l], a[u])
    ensures u - l > 1 ==> Le(lt, a[l], a[(l + u) / 2]) && Le(lt, a[(l + u) / 2], a[u])
  {
    hide Rearranged;
    ghost var s := a[..];
    RearrangedSelf(s, l, u);
    if lt(a[u], a[l]) {
      Exchange(a, l, u, l, u);
    }
    if u - l == 1 {
      return;
    }
    ghost var t := a[..];
    RearrangedSelf(t, l, u);
    var i := (l + u) / 2;
    if lt(a[i], a[l]) {
      Exchange(a, i, l, l, u);
    } else if lt(a[u], a[i]) {
      Exchange(a, i, u, l, u);
    }
    RearrangedTwice(s, t, a[..], l, u, l, u);
  }

  ghost predicate Below<T(!new)>(lt: (T, T) -> bool, s: seq<T>, l: int, i: int, pivot: T)
    requires 0 <= l && i < |s|
  {
    forall p | l <= p <= i :: Le(lt, s[p], pivot)
  }

  ghost predicate Above<T(!new)>(lt: (T, T) -> bool, s: seq<T>, j: int, u: int, pivot: T)
    requires 0 <= j && u < |s|
  {
    forall q | j <= q <= u :: Le(lt, pivot, s[q])
  }

  /** The loop of auxsort that divides a[l..u] at the pivot in a[u-1]. The tests for an invalid order
      function cannot fire: neither scan leaves the part between l and u. */
  method Divide<T(!new)>(a: array<T>, lt: (T, T) -> bool, l: int, u: int) returns (i: int)
    requires StrictWeak(lt) && 0 <= l && l + 3 <= u < a.Length
    requires Le(lt, a[l], a[u - 1]) && Le(lt, a[u - 1], a[u])
    modifies a
    ensures Rearranged(old(a[..]), a[..], l, u) && l < i < u
    ensures Below(lt, a[..], l, i - 1, a[i]) && Above(lt, a[..], i, u, a[i])
  {
    hide Rearranged;
    var pivot := a[u - 1];
    i := l;
    var j := u - 1;
    RearrangedSelf(a[..], l, u);
    while true
      invariant l <= i <= u - 2 && i <= j <= u - 1 && l < j && a[u - 1] == pivot
      invariant Rearranged(old(a[..]), a[..], l, u)
      invariant Below(lt, a[..], l, i, pivot) && Above(lt, a[..], j, u, pivot)
      decreases j - i, 0
    {
      i := i + 1;
      while lt(a[i], pivot)
        modifies {}
        invariant l < i <= u - 1 && Below(lt, a[..], l, i - 1, pivot)
        decreases u - i
      {
        if i > u { assert false; }
        i := i + 1;
      }
      j := j - 1;
      while lt(pivot, a[j])
        modifies {}
        invariant l <= j < u - 1 && Above(lt, a[..], j + 1, u, pivot)
        decreases j - l
      {
        if j < l { assert false; }
        j := j - 1;
      }
      if j < i {
        break;
      }
      ghost var s := a[..];
      Exchange(a, i, j, l, u);
      RearrangedTwice(old(a[..]), s, a[..], l, u, l, u);
    }
    ghost var s := a[..];
    Exchange(a, u - 1, i, l, u);
    RearrangedTwice(old(a[..]), s, a[..], l, u, l, u);
  }

  /** Rearranging the window keeps the order outside of it. */
  lemma WindowRearranged<T(!new)>(lt: (T, T) -> bool, s: seq<T>, t: seq<T>, l0: int, u0: int, l: int, u: int)
    requires 0 <= l0 <= l <= u <= u0 < |s| && OrderedBut(lt, s, l0, u0, l, u) && Rearranged(s, t, l, u)
    ensures OrderedBut(lt, t, l0, u0, l, u)
  {
    forall p, q | l0 <= p < q <= u0 && (p < l || u < q)
      ensures Le(lt, t[p], t[q])
    {
      var p', q' := p, q;
      if l <= p <= u { p' := RearrangedFrom(s, t, l, u, p); }
      if l <= q <= u { q' := RearrangedFrom(s, t, l, u, q); }
      assert Le(lt, s[p'], s[q']);
    }
  }

  /** Around the pivot at i only the two parts beside it are still unsorted. */
  ghost predicate DividedAt<T(!new)>(lt: (T, T) -> bool, s: seq<T>, l0: int, u0: int, l: int, u: int, i: int)
    requires 0 <= l0 && u0 < |s|
  {
    forall p, q | l0 <= p < q <= u0 && !(l <= p && q < i) && !(i < p && q <= u) :: Le(lt, s[p], s[q])
  }

  lemma Divided<T(!new)>(lt: (T, T) -> bool, s: seq<T>, l0: int, u0: int, l: int, u: int, i: int)
    requires StrictWeak(lt) && 0 <= l0 <= l <= i <= u <= u0 < |s| && OrderedBut(lt, s, l0, u0, l, u)
    requires Below(lt, s, l, i - 1, s[i]) && Above(lt, s, i, u, s[i])
    ensures DividedAt(lt, s, l0, u0, l, u, i)
  {
    forall p, q | l0 <= p < q <= u0 && !(l <= p && q < i) && !(i < p && q <= u)
      ensures Le(lt, s[p], s[q])
    {
      if l <= p && q <= u {
        assert Le(lt, s[p], s[i]) && Le(lt, s[i], s[q]);
        LeTransitive(lt, s[p], s[i], s[q]);
      }
    }
  }

  /** Sorting one of the parts leaves the other as the window. */
  lemma PartSorted<T(!new)>(lt: (T, T) -> bool, s: seq<T>, t: seq<T>, l0: int, u0: int, l: int, u: int, i: int,
                            left: bool)
    requires 0 <= l0 <= l <= i <= u <= u0 < |s| && DividedAt(lt, s, l0, u0, l, u, i)
    requires var (j, k) := if left then (l, i - 1) else (i + 1, u); Rearranged(s, t, j, k) && Sorted(lt, t, j, k)
    ensures if left then OrderedBut(lt, t, l0, u0, i + 1, u) else OrderedBut(lt, t, l0, u0, l, i - 1)
  {
    var (j, k) := if left then (l, i - 1) else (i + 1, u);
    forall p, q | l0 <= p < q <= u0 && (if left then p < i + 1 || u < q else p < l || i - 1 < q)
      ensures Le(lt, t[p], t[q])
    {
      if !(j <= p && q <= k) {
        var p', q' := p, q;
        if j <= p <= k { p' := RearrangedFrom(s, t, j, k, p); }
        if j <= q <= k { q' := RearrangedFrom(s, t, j, k, q); }
        assert Le(lt, s[p'], s[q']);
      }
    }
  }

  function Pow2(n: nat): nat {
    if n == 0 then 1 else 2 * Pow2(n - 1)
  }

  lemma NothingDone<T(!new)>(lt: (T, T) -> bool, s: seq<T>, l0: int, u0: int)
    requires 0 <= l0 && u0 < |s|
    ensures OrderedBut(lt, s, l0, u0, l0, u0) && Rearranged(s, s, l0, u0)
  {
  }

  lemma WindowDone<T(!new)>(lt: (T, T) -> bool, s: seq<T>, l0: int, u0: int, l: int, u: int)
    requires 0 <= l0 && u0 < |s| && OrderedBut(lt, s, l0, u0, l, u) && l >= u
    ensures Sorted(lt, s, l0, u0)
  {
  }

  /** A window of two or three elements in order. */
  lemma SmallDone<T(!new)>(lt: (T, T) -> bool, s: seq<T>, l0: int, u0: int, l: int, u: int)
    requires StrictWeak(lt) && 0 <= l0 <= l < u <= u0 < |s| && OrderedBut(lt, s, l0, u0, l, u)
    requires (u == l + 1 && Le(lt, s[l], s[u])) || (u == l + 2 && Le(lt, s[l], s[l + 1]) && Le(lt, s[l + 1], s[u]))
    ensures Sorted(lt, s, l0, u0)
  {
    if u == l + 2 { LeTransitive(lt, s[l], s[l + 1], s[u]); }
  }

  /** The part that is sorted by a nested call has at most half of the elements. */
  lemma DepthStep(d: nat, part: int, whole: int)
    requires Pow2(d) <= (if part <= 0 then 1 else part) && 2 * part + 1 <= whole && whole >= 2
    ensures Pow2(d + 1) <= whole
  {
  }

  /** auxsort. depth counts its nested calls of itself. */
  method AuxSort<T(!new)>(a: array<T>, lt: (T, T) -> bool, l0: int, u0: int) returns (ghost depth: nat)
    requires StrictWeak(lt) && 0 <= l0 <= u0 + 1 <= a.Length
    modifies a
    ensures Sorted(lt, a[..], l0, u0) && Rearranged(old(a[..]), a[..], l0, u0)
    ensures Pow2(depth) <= if l0 <= u0 then u0 - l0 + 1 else 1
    decreases u0 - l0 + 1
  {
    hide OrderedBut, DividedAt, Rearranged, StrictWeak, Sorted, Below, Above;
    var l, u := l0, u0;
    depth := 0;
    NothingDone(lt, a[..], l0, u0);
    while l < u
      invariant l0 <= l && u <= u0 && l <= u + 1
      invariant Rearranged(old(a[..]), a[..], l0, u0) && OrderedBut(lt, a[..], l0, u0, l, u)
      invariant Pow2(depth) <= if l0 <= u0 then u0 - l0 + 1 else 1
      decreases u - l
    {
      ghost var s := a[..];
      SortThree(a, lt, l, u);
      RearrangedTwice(old(a[..]), s, a[..], l0, u0, l, u);
      WindowRearranged(lt, s, a[..], l0, u0, l, u);
      if u - l == 1 {
        SmallDone(lt, a[..], l0, u0, l, u);
        return;
      }
      var i := (l + u) / 2;
      if u - l == 2 {
        SmallDone(lt, a[..], l0, u0, l, u);
        return;
      }
      s := a[..];
      Exchange(a, i, u - 1, l, u);
      ghost var t := a[..];
      i := Divide(a, lt, l, u);
      RearrangedTwice(s, t, a[..], l, u, l, u);
      RearrangedTwice(old(a[..]), s, a[..], l0, u0, l, u);
      WindowRearranged(lt, s, a[..], l0, u0, l, u);
      Divided(lt, a[..], l0, u0, l, u, i);
      s := a[..];
      ghost var l1, u1, i1, left := l, u, i, i - l < u - i;
      var j;
      if i - l < u - i {
        j, i, l := l, i - 1, i + 1;
      } else {
        j, i, u := i + 1, u, i - 1;
      }
      ghost var d := AuxSort(a, lt, j, i);
      RearrangedTwice(old(a[..]), s, a[..], l0, u0, j, i);
      PartSorted(lt, s, a[..], l0, u0, l1, u1, i1, left);
      DepthStep(d, i - j + 1, u0 - l0 + 1);
      depth := if depth < d + 1 then d + 1 else depth;
    }
    WindowDone(lt, a[..], l0, u0, l, u);
  }
}
