/** `table.sort`: the quicksort of `ltablib.c`, in place, with any comparison. */
module Sort {
  import opened Powers

  // ---- rearranging a range ----

  /** `B` has the elements of `A` in another order between `l` and `u`. */
  ghost predicate Rearranged<T>(A: seq<T>, B: seq<T>, l: int, u: int) {
    && 0 <= l && u < |A| == |B| && l <= u + 1
    && A[..l] == B[..l] && A[u + 1..] == B[u + 1..] && multiset(A[l..u + 1]) == multiset(B[l..u + 1])
  }

  lemma RearrangedAll<T>(A: seq<T>, B: seq<T>, l: int, u: int)
    requires Rearranged(A, B, l, u)
    ensures multiset(A) == multiset(B)
  {
    assert A == A[..l] + A[l..u + 1] + A[u + 1..];
    assert B == B[..l] + B[l..u + 1] + B[u + 1..];
  }

  lemma RearrangedTrans<T>(A: seq<T>, B: seq<T>, C: seq<T>, l: int, u: int)
    requires Rearranged(A, B, l, u) && Rearranged(B, C, l, u)
    ensures Rearranged(A, C, l, u)
  {
  }

  lemma RearrangedInside<T>(A: seq<T>, B: seq<T>, l: int, u: int, L: int, U: int)
    requires Rearranged(A, B, l, u) && 0 <= L <= l && u <= U < |A|
    ensures Rearranged(A, B, L, U)
  {
    assert A[L..U + 1] == A[L..l] + A[l..u + 1] + A[u + 1..U + 1];
    assert B[L..U + 1] == B[L..l] + B[l..u + 1] + B[u + 1..U + 1];
    assert A[L..l] == A[..l][L..] == B[..l][L..] == B[L..l];
    assert A[u + 1..U + 1] == A[u + 1..][..U - u] == B[u + 1..][..U - u] == B[u + 1..U + 1];
    assert A[..L] == A[..l][..L] == B[..l][..L] == B[..L];
    assert A[U + 1..] == A[u + 1..][U - u..] == B[u + 1..][U - u..] == B[U + 1..];
  }

  lemma RearrangedNot<T>(A: seq<T>, l: int, u: int)
    requires 0 <= l <= u + 1 && u < |A|
    ensures Rearranged(A, A, l, u)
  {
  }

  lemma SwapRearranges<T>(A: seq<T>, B: seq<T>, i: int, j: int, l: int, u: int)
    requires 0 <= l <= i <= u < |A| && l <= j <= u && B == A[i := A[j]][j := A[i]]
    ensures Rearranged(A, B, l, u)
  {
    var S, R := A[l..u + 1], B[l..u + 1];
    assert R == S[i - l := S[j - l]][j - l := S[i - l]];
    SwapMultiset(S, i - l, j - l);
  }

  lemma SwapMultiset<T>(S: seq<T>, i: int, j: int)
    requires 0 <= i < |S| && 0 <= j < |S|
    ensures multiset(S[i := S[j]][j := S[i]]) == multiset(S)
  {
  }

  /** What holds of all elements of a range holds of them in any order. */
  lemma StillAll<T>(A: seq<T>, B: seq<T>, l: int, u: int, P: T -> bool)
    requires Rearranged(A, B, l, u) && forall k | l <= k <= u :: P(A[k])
    ensures forall k | l <= k <= u :: P(B[k])
  {
    var S, R := A[l..u + 1], B[l..u + 1];
    forall k | l <= k <= u ensures P(B[k]) {
      assert B[k] == R[k - l];
      assert R[k - l] in multiset(R);
      assert R[k - l] in multiset(S);
      var m :| 0 <= m < |S| && S[m] == R[k - l];
      assert A[l + m] == S[m];
    }
  }

  lemma Elsewhere<T>(A: seq<T>, B: seq<T>, l: int, u: int)
    requires Rearranged(A, B, l, u)
    ensures forall k | 0 <= k < |A| && (k < l || k > u) :: B[k] == A[k]
  {
    forall k | 0 <= k < |A| && (k < l || k > u) ensures B[k] == A[k] {
      if k < l { assert A[..l][k] == B[..l][k]; } else { assert A[u + 1..][k - u - 1] == B[u + 1..][k - u - 1]; }
    }
  }

  // ---- orders ----

  /** What a comparison must be: irreflexive, transitive, and "neither before the
      other" transitive too. */
  ghost predicate StrictWeak<T(!new)>(lt: (T, T) -> bool) {
    && (forall x :: !lt(x, x))
    && (forall x, y, z :: lt(x, y) && lt(y, z) ==> lt(x, z))
    && (forall x, y, z :: !lt(x, y) && !lt(y, z) ==> !lt(x, z))
  }

  /** The order function that the program passes. It may answer the same question
      differently each time it is asked: the `n`th answer is `answer(n, x, y)`. */
  class Comparator<T(!new)> {
    const answer: (nat, T, T) -> bool
    var asked: nat

    constructor (answer: (nat, T, T) -> bool)
      ensures this.answer == answer && asked == 0
    {
      this.answer, asked := answer, 0;
    }

    /** `sort_comp` */
    method Less(x: T, y: T, ghost lt: (T, T) -> bool) returns (less: bool)
      modifies this
      ensures less == answer(old(asked), x, y) && asked == old(asked) + 1
      ensures Follows(this, lt) ==> less == lt(x, y)
    {
      less := answer(asked, x, y);
      asked := asked + 1;
    }
  }

  /** The answers are always those of the order `lt`. */
  ghost predicate Follows<T(!new)>(cmp: Comparator<T>, lt: (T, T) -> bool) {
    StrictWeak(lt) && forall n: nat, x, y :: cmp.answer(n, x, y) == lt(x, y)
  }

  lemma FollowsOrder<T(!new)>(cmp: Comparator<T>, lt: (T, T) -> bool)
    requires Follows(cmp, lt)
    ensures StrictWeak(lt)
  {
  }

  /** `x` may stand before `y`. */
  predicate Le<T>(lt: (T, T) -> bool, x: T, y: T) { !lt(y, x) }

  ghost predicate Sorted<T>(lt: (T, T) -> bool, A: seq<T>, l: int, u: int)
    requires 0 <= l && u < |A|
  {
    forall p, q | l <= p < q <= u :: Le(lt, A[p], A[q])
  }

  // ---- the loop of auxsort, seen from outside ----

  /** Every two elements of L..U are in order unless both lie in l..u. */
  ghost predicate SortedBut<T>(lt: (T, T) -> bool, A: seq<T>, L: int, U: int, l: int, u: int)
    requires 0 <= L && U < |A|
  {
    forall p, q | L <= p < q <= U && (p < l || q > u) :: Le(lt, A[p], A[q])
  }

  /** Sorting inside l..u does not disturb what is already in order. */
  lemma StillSortedBut<T>(lt: (T, T) -> bool, A: seq<T>, B: seq<T>, L: int, U: int, l: int, u: int)
    requires 0 <= L <= l && u <= U < |A| && Rearranged(A, B, l, u) && SortedBut(lt, A, L, U, l, u)
    ensures SortedBut(lt, B, L, U, l, u)
  {
    Elsewhere(A, B, l, u);
    forall p, q | L <= p < q <= U && (p < l || q > u) ensures Le(lt, B[p], B[q]) {
      if p < l && l <= q <= u {
        StillAll(A, B, l, u, x => Le(lt, A[p], x));
      } else if l <= p <= u && q > u {
        StillAll(A, B, l, u, x => Le(lt, x, A[q]));
      }
    }
  }

  /** `P` sits at `i` and separates the range. */
  ghost predicate Split<T>(lt: (T, T) -> bool, A: seq<T>, l: int, u: int, i: int)
    requires 0 <= l <= i <= u < |A|
  {
    (forall k | l <= k < i :: Le(lt, A[k], A[i])) && (forall k | i < k <= u :: Le(lt, A[i], A[k]))
  }

  /** After a split, with one side sorted, only the other remains. */
  lemma SplitSortedBut<T(!new)>(lt: (T, T) -> bool, A: seq<T>, L: int, U: int, l: int, u: int, i: int, left: bool)
    requires StrictWeak(lt) && 0 <= L <= l <= i <= u <= U < |A| && SortedBut(lt, A, L, U, l, u) && Split(lt, A, l, u, i)
    requires if left then Sorted(lt, A, l, i - 1) else Sorted(lt, A, i + 1, u)
    ensures if left then SortedBut(lt, A, L, U, i + 1, u) else SortedBut(lt, A, L, U, l, i - 1)
  {
    forall p, q | L <= p < q <= U && (if left then p < i + 1 || q > u else p < l || q > i - 1) ensures Le(lt, A[p], A[q]) {
      if l <= p && q <= u && p < i < q {
        assert Le(lt, A[p], A[i]) && Le(lt, A[i], A[q]);
      }
    }
  }

  // ---- the algorithm ----

  /** `set2`, as the sort uses it: two elements change places. */
  method Swap<T>(a: array<T>, i: int, j: int, ghost l: int, ghost u: int)
    requires 0 <= l <= i <= u < a.Length && l <= j <= u
    modifies a
    ensures a[..] == old(a[..])[i := old(a[j])][j := old(a[i])]
    ensures Rearranged(old(a[..]), a[..], l, u)
  {
    ghost var A := a[..];
    a[i], a[j] := a[j], a[i];
    SwapRearranges(A, a[..], i, j, l, u);
  }

  lemma ThreeInOrder<T(!new)>(lt: (T, T) -> bool, l: T, m: T, u: T)
    requires StrictWeak(lt)
    ensures lt(u, l) ==> Le(lt, u, l)
    ensures Le(lt, l, u) && lt(m, l) ==> Le(lt, m, l) && Le(lt, m, u)
    ensures Le(lt, l, m) && lt(u, m) ==> Le(lt, u, m)
  {
  }

  /** a[l] and a[u] are put in order. */
  method OrderEnds<T(!new)>(a: array<T>, cmp: Comparator<T>, ghost lt: (T, T) -> bool, l: int, u: int)
    requires 0 <= l < u < a.Length
    modifies a, cmp
    ensures Rearranged(old(a[..]), a[..], l, u)
    ensures Follows(cmp, lt) ==> Le(lt, a[l], a[u])
  {
    hide StrictWeak, Follows;
    if Follows(cmp, lt) { FollowsOrder(cmp, lt); ThreeInOrder(lt, a[l], a[l], a[u]); }
    var less := cmp.Less(a[u], a[l], lt);
    if less { Swap(a, l, u, l, u); } else { RearrangedNot(a[..], l, u); }
  }

  /** Then the middle element is put between them. */
  method OrderMiddle<T(!new)>(a: array<T>, cmp: Comparator<T>, ghost lt: (T, T) -> bool, l: int, m: int, u: int)
    requires 0 <= l < m < u < a.Length && (Follows(cmp, lt) ==> Le(lt, a[l], a[u]))
    modifies a, cmp
    ensures Rearranged(old(a[..]), a[..], l, u)
    ensures Follows(cmp, lt) ==> Le(lt, a[l], a[u]) && Le(lt, a[l], a[m]) && Le(lt, a[m], a[u])
  {
    hide StrictWeak, Follows, Rearranged;
    if Follows(cmp, lt) { FollowsOrder(cmp, lt); ThreeInOrder(lt, a[l], a[m], a[u]); }
    var less := cmp.Less(a[m], a[l], lt);
    if less {
      Swap(a, m, l, l, u);
    } else {
      less := cmp.Less(a[u], a[m], lt);
      if less { Swap(a, m, u, l, u); } else { RearrangedNot(a[..], l, u); }
    }
  }

  /** What the partition loop keeps: below `i` nothing is greater than the pivot
      `P`, from `j` on nothing is less. */
  ghost predicate Parted<T>(lt: (T, T) -> bool, A: seq<T>, P: T, l: int, u: int, i: int, j: int)
    requires 0 <= l && u < |A|
  {
    (forall k | l <= k <= i && k <= u :: Le(lt, A[k], P)) && (forall k | j <= k <= u && k >= l :: Le(lt, P, A[k]))
  }

  /** The first inner loop: up to an element that is not less than the pivot. */
  method ScanUp<T(!new)>(a: array<T>, cmp: Comparator<T>, ghost lt: (T, T) -> bool, P: T, l: int, u: int, i0: int, j0: int) returns (ok: bool, i: int)
    requires 0 <= l <= i0 <= j0 < u < a.Length
    requires Follows(cmp, lt) ==> Parted(lt, a[..], P, l, u, i0, j0)
    modifies cmp
    ensures i0 < i <= u && (Follows(cmp, lt) && ok ==> !lt(a[i], P))
    ensures Follows(cmp, lt) ==> ok && i <= (if i0 < j0 then j0 else j0 + 1) && Parted(lt, a[..], P, l, u, i - 1, j0)
  {
    i := i0 + 1;
    var less := cmp.Less(a[i], P, lt);
    while less
      invariant i0 < i <= u && (Follows(cmp, lt) ==> less == lt(a[i], P))
      invariant Follows(cmp, lt) ==> i <= (if i0 < j0 then j0 else j0 + 1) && Parted(lt, a[..], P, l, u, i - 1, j0)
      decreases u - i
    {
      if i >= u { return false, i; }
      i := i + 1;
      less := cmp.Less(a[i], P, lt);
    }
    ok := true;
  }

  /** The second: down to an element that is not greater. */
  method ScanDown<T(!new)>(a: array<T>, cmp: Comparator<T>, ghost lt: (T, T) -> bool, P: T, l: int, u: int, i0: int, i: int, j0: int) returns (ok: bool, j: int)
    requires 0 <= l <= i0 < i && l < j0 && i0 <= j0 < u < a.Length
    requires Follows(cmp, lt) ==> Parted(lt, a[..], P, l, u, i0, j0)
    modifies cmp
    ensures l <= j < j0 && (Follows(cmp, lt) && ok ==> !lt(P, a[j]))
    ensures Follows(cmp, lt) ==> ok && j >= (if i0 < j0 then i0 else i0 - 1) && Parted(lt, a[..], P, l, u, i0, j + 1)
  {
    j := j0 - 1;
    var less := cmp.Less(P, a[j], lt);
    while less
      invariant l <= j < j0 && (Follows(cmp, lt) ==> less == lt(P, a[j]))
      invariant Follows(cmp, lt) ==> j >= (if i0 < j0 then i0 else i0 - 1) && Parted(lt, a[..], P, l, u, i0, j + 1)
      decreases j - l
    {
      if j <= l { return false, j; }
      j := j - 1;
      less := cmp.Less(P, a[j], lt);
    }
    ok := true;
  }

  /** The `for` loop of `auxsort`; `i` is where the pivot belongs. An order that
      is not one is noticed before an index leaves the range. */
  method Partition<T(!new)>(a: array<T>, cmp: Comparator<T>, ghost lt: (T, T) -> bool, l: int, u: int) returns (ok: bool, i: int)
    requires 0 <= l && u < a.Length && u - l >= 3
    requires Follows(cmp, lt) ==> Le(lt, a[l], a[u - 1]) && Le(lt, a[u - 1], a[u])
    modifies a, cmp
    ensures Rearranged(old(a[..]), a[..], l, u) && a[u - 1] == old(a[u - 1])
    ensures l < i <= u && (Follows(cmp, lt) ==> ok && i < u)
    ensures Follows(cmp, lt) ==> Parted(lt, a[..], a[u - 1], l, u, i - 1, i)
  {
    var P := a[u - 1];
    ghost var A := a[..];
    RearrangedNot(A, l, u);
    var j;
    i, j := l, u - 1;
    while true
      invariant l <= i <= j <= u - 1 && (i == l ==> j == u - 1) && (i > l ==> j <= u - 2) && a[u - 1] == P
      invariant Follows(cmp, lt) ==> Parted(lt, a[..], P, l, u, i, j)
      invariant Rearranged(A, a[..], l, u)
      decreases j - i
    {
      hide StrictWeak, Follows, Rearranged;
      var i0, j0 := i, j;
      ok, i := ScanUp(a, cmp, lt, P, l, u, i0, j0);
      if !ok { return; }
      ok, j := ScanDown(a, cmp, lt, P, l, u, i0, i, j0);
      if !ok { return; }
      if j < i {
        if Follows(cmp, lt) { PartedEnd(lt, a[..], P, l, u, i0, i, j, j0); }
        return;
      }
      ghost var B := a[..];
      Swap(a, i, j, l, u);
      RearrangedTrans(A, B, a[..], l, u);
      if Follows(cmp, lt) { PartedSwap(lt, B, a[..], P, l, u, i, j); }
    }
  }

  lemma PartedSwap<T>(lt: (T, T) -> bool, A: seq<T>, B: seq<T>, P: T, l: int, u: int, i: int, j: int)
    requires 0 <= l < i <= j <= u < |A| && B == A[i := A[j]][j := A[i]]
    requires Parted(lt, A, P, l, u, i - 1, j + 1) && !lt(A[i], P) && !lt(P, A[j])
    ensures Parted(lt, B, P, l, u, i, j)
  {
  }

  lemma PartedEnd<T(!new)>(lt: (T, T) -> bool, A: seq<T>, P: T, l: int, u: int, i0: int, i: int, j: int, j0: int)
    requires 0 <= l <= i0 < i <= u < |A| && l <= j < j0 <= u && j < i
    requires Parted(lt, A, P, l, u, i - 1, j0) && Parted(lt, A, P, l, u, i0, j + 1)
    ensures Parted(lt, A, P, l, u, i - 1, i)
  {
  }

  /** The pivot goes between the two parts. */
  method PutPivot<T(!new)>(a: array<T>, ghost lt: (T, T) -> bool, ghost A: seq<T>, ghost parted: bool, l: int, u: int, i: int)
    requires 0 <= l < i <= u < a.Length && l < u && Rearranged(A, a[..], l, u)
    requires parted ==> StrictWeak(lt) && i < u && Parted(lt, a[..], a[u - 1], l, u, i - 1, i)
    modifies a
    ensures Rearranged(A, a[..], l, u) && (parted ==> Split(lt, a[..], l, u, i))
  {
    hide StrictWeak, Rearranged, Split, Le, Parted;
    ghost var C := a[..];
    Swap(a, u - 1, i, l, u);
    RearrangedTrans(A, C, a[..], l, u);
    if parted { PivotPlaced(lt, C, a[..], l, u, i); }
  }

  /** The pivot is put aside, the range is partitioned and the pivot put between
      the two parts. */
  method PlacePivot<T(!new)>(a: array<T>, cmp: Comparator<T>, ghost lt: (T, T) -> bool, l: int, m: int, u: int) returns (ok: bool, i: int)
    requires 0 <= l < m < u - 1 && u < a.Length
    requires Follows(cmp, lt) ==> Le(lt, a[l], a[m]) && Le(lt, a[m], a[u])
    modifies a, cmp
    ensures Rearranged(old(a[..]), a[..], l, u) && l < i <= u
    ensures Follows(cmp, lt) ==> ok && i < u && Split(lt, a[..], l, u, i)
  {
    hide StrictWeak, Follows, Rearranged, Split, Le;
    ghost var A := a[..];
    Swap(a, m, u - 1, l, u);
    ghost var B := a[..];
    ok, i := Partition(a, cmp, lt, l, u);
    RearrangedTrans(A, B, a[..], l, u);
    if !ok { return; }
    if Follows(cmp, lt) { FollowsOrder(cmp, lt); }
    PutPivot(a, lt, A, Follows(cmp, lt), l, u, i);
  }

  lemma PivotPlaced<T(!new)>(lt: (T, T) -> bool, C: seq<T>, D: seq<T>, l: int, u: int, i: int)
    requires StrictWeak(lt) && 0 <= l < i < u < |C| && Parted(lt, C, C[u - 1], l, u, i - 1, i)
    requires D == C[u - 1 := C[i]][i := C[u - 1]]
    ensures Split(lt, D, l, u, i)
  {
    var P := C[u - 1];
    forall k | l <= k < i ensures Le(lt, D[k], D[i]) { assert Le(lt, C[k], P); }
    forall k | i < k <= u ensures Le(lt, D[i], D[k]) {
      assert Le(lt, P, C[if k == u - 1 then i else k]);
    }
  }

  /** `auxsort`. Whatever the comparison, even when it is given up with "invalid
      order function", the range ends as a rearrangement of itself; with a strict
      weak order it is sorted and never given up. For a range shorter than
      2^(d+1) the recursion is at most `d` calls deep. */
  method AuxSort<T(!new)>(a: array<T>, cmp: Comparator<T>, ghost lt: (T, T) -> bool, l0: int, u0: int, ghost d: nat) returns (ok: bool, ghost depth: nat)
    requires 0 <= l0 <= u0 + 1 && u0 < a.Length && u0 - l0 + 1 < Pow2(d + 1)
    modifies a, cmp
    ensures Rearranged(old(a[..]), a[..], l0, u0)
    ensures Follows(cmp, lt) ==> ok && Sorted(lt, a[..], l0, u0)
    ensures depth <= d
    decreases d
  {
    hide StrictWeak, Follows, Rearranged, SortedBut, Sorted, Split, Pow2;
    var l, u := l0, u0;
    ghost var A := a[..];
    RearrangedNot(A, l0, u0);
    ok, depth := true, 0;
    NothingSorted(lt, A, l0, u0);
    while l < u
      invariant l0 <= l <= u + 1 && u <= u0 && ok && depth <= d && u - l < u0 - l0 + 1
      invariant Rearranged(A, a[..], l0, u0)
      invariant Follows(cmp, lt) ==> SortedBut(lt, a[..], l0, u0, l, u)
      decreases u - l
    {
      ghost var B := a[..];
      var done, i;
      ok, done, i := OnePivot(a, cmp, lt, l, u);
      RearrangedInside(B, a[..], l, u, l0, u0);
      RearrangedTrans(A, B, a[..], l0, u0);
      if !ok { return; }
      if Follows(cmp, lt) { StillSortedBut(lt, B, a[..], l0, u0, l, u); }
      if done {
        if Follows(cmp, lt) { AllSorted(lt, a[..], l0, u0, l, u); }
        return;
      }
      ghost var C := a[..];
      var j: int, left := l, i - l < u - i;
      ghost var l1, u1 := l, u;
      ghost var p := i;
      if left {
        j, i, l := l, i - 1, i + 1;
      } else {
        j, i, u := i + 1, u, i - 1;
      }
      HalfDepth(d, u1 - l1 + 1, i - j + 1);
      ghost var below: nat;
      ok, below := AuxSort(a, cmp, lt, j, i, d - 1);
      depth := if below + 1 > depth then below + 1 else depth;
      RearrangedInside(C, a[..], j, i, l0, u0);
      RearrangedTrans(A, C, a[..], l0, u0);
      if !ok { return; }
      if Follows(cmp, lt) { FollowsOrder(cmp, lt); HalfSorted(lt, C, a[..], l0, u0, l1, u1, p, left); }
    }
    if Follows(cmp, lt) { AllSorted(lt, a[..], l0, u0, l, u); }
  }

  /** One turn up to the recursive call. */
  method OnePivot<T(!new)>(a: array<T>, cmp: Comparator<T>, ghost lt: (T, T) -> bool, l: int, u: int) returns (ok: bool, done: bool, i: int)
    requires 0 <= l < u < a.Length
    modifies a, cmp
    ensures Rearranged(old(a[..]), a[..], l, u)
    ensures ok && !done ==> l < i <= u && u - l >= 3
    ensures Follows(cmp, lt) ==> ok && (if done then Sorted(lt, a[..], l, u) else i < u && Split(lt, a[..], l, u, i))
  {
    hide StrictWeak, Follows, Rearranged, Split;
    ok, done, i := true, true, l;
    ghost var A := a[..];
    OrderEnds(a, cmp, lt, l, u);
    if u - l == 1 { return; }
    ghost var B := a[..];
    var m := (l + u) / 2;
    OrderMiddle(a, cmp, lt, l, m, u);
    RearrangedTrans(A, B, a[..], l, u);
    if u - l == 2 { return; }
    ghost var C := a[..];
    done := false;
    ok, i := PlacePivot(a, cmp, lt, l, m, u);
    RearrangedTrans(A, C, a[..], l, u);
  }

  lemma NothingSorted<T>(lt: (T, T) -> bool, A: seq<T>, L: int, U: int)
    requires 0 <= L && U < |A|
    ensures SortedBut(lt, A, L, U, L, U)
  {
  }

  lemma AllSorted<T>(lt: (T, T) -> bool, A: seq<T>, L: int, U: int, l: int, u: int)
    requires 0 <= L <= l && u <= U < |A| && SortedBut(lt, A, L, U, l, u) && (l < u ==> Sorted(lt, A, l, u))
    ensures Sorted(lt, A, L, U)
  {
  }

  /** The smaller part has less than half the elements. */
  lemma HalfDepth(d: nat, n: int, h: int)
    requires 2 * h < n < Pow2(d + 1) && n >= 2
    ensures d >= 1 && h < Pow2(d)
  {
    assert Pow2(d + 1) == 2 * Pow2(d);
  }

  /** Sorting the smaller part leaves only the larger one. */
  lemma HalfSorted<T(!new)>(lt: (T, T) -> bool, C: seq<T>, D: seq<T>, L: int, U: int, l: int, u: int, i: int, left: bool)
    requires StrictWeak(lt) && 0 <= L <= l < i < u <= U < |C| && SortedBut(lt, C, L, U, l, u) && Split(lt, C, l, u, i)
    requires if left then Rearranged(C, D, l, i - 1) && Sorted(lt, D, l, i - 1) else Rearranged(C, D, i + 1, u) && Sorted(lt, D, i + 1, u)
    ensures if left then SortedBut(lt, D, L, U, i + 1, u) else SortedBut(lt, D, L, U, l, i - 1)
  {
    var j, k := if left then l else i + 1, if left then i - 1 else u;
    RearrangedInside(C, D, j, k, l, u);
    StillSortedBut(lt, C, D, L, U, l, u);
    Elsewhere(C, D, j, k);
    if left { StillAll(C, D, j, k, x => Le(lt, x, C[i])); } else { StillAll(C, D, j, k, x => Le(lt, C[i], x)); }
    assert Split(lt, D, l, u, i);
    SplitSortedBut(lt, D, L, U, l, u, i, left);
  }

  /** The whole part of the binary logarithm. */
  function Log2(n: nat): (d: nat)
    ensures n < Pow2(d + 1) && (n > 0 ==> Pow2(d) <= n)
  {
    if n < 2 then 0 else
      var d := Log2(n / 2) + 1;
      assert Pow2(d) == 2 * Pow2(d - 1) && Pow2(d + 1) == 2 * Pow2(d);
      d
  }

  /** `sort`: elements 1..n; `a[0]` is no element. */
  method TableSort<T(!new)>(a: array<T>, cmp: Comparator<T>, ghost lt: (T, T) -> bool) returns (ok: bool, ghost depth: nat)
    requires a.Length >= 1
    modifies a, cmp
    ensures a[0] == old(a[0]) && multiset(a[..]) == multiset(old(a[..]))
    ensures Follows(cmp, lt) ==> ok && Sorted(lt, a[..], 1, a.Length - 1)
    ensures depth <= Log2(a.Length - 1)
  {
    ghost var A := a[..];
    ok, depth := AuxSort(a, cmp, lt, 1, a.Length - 1, Log2(a.Length - 1));
    RearrangedAll(A, a[..], 1, a.Length - 1);
    Elsewhere(A, a[..], 1, a.Length - 1);
  }
}
