/** How many keys a table has, and where they fall. */
module TableCount {
  import opened Powers
  import opened TableModel
  import opened TableSizes

  function One(b: bool): nat { if b then 1 else 0 }

  /** Values among the first `n` array slots. */
  function CountArray(A: seq<Value>, n: nat): nat {
    if n == 0 then 0 else CountArray(A, n - 1) + One(n <= |A| && A[n - 1] != Nil)
  }

  /** Values in the nodes from `i` on. */
  function Live(N: seq<Node>, i: nat): nat
    requires i <= |N|
    decreases |N| - i
  {
    if i == |N| then 0 else One(N[i].val != Nil) + Live(N, i + 1)
  }

  /** Of these, the ones whose keys are in 1..n. */
  function LiveUpTo(N: seq<Node>, i: nat, n: nat): nat
    requires i <= |N|
    decreases |N| - i
  {
    if i == |N| then 0 else One(N[i].val != Nil && InArray(n, N[i].key)) + LiveUpTo(N, i + 1, n)
  }

  /** Nodes with a key, from `i` on. */
  function Used(N: seq<Node>, i: nat): nat
    requires i <= |N|
    decreases |N| - i
  {
    if i == |N| then 0 else One(N[i].key != KNil) + Used(N, i + 1)
  }

  /** Integer keys in 1..n, `ek` included. */
  function Candidates(A: seq<Value>, N: seq<Node>, ek: Key, n: nat): nat {
    CountArray(A, n) + LiveUpTo(N, 0, n) + One(InArray(n, ek))
  }

  /** Entries that do not go to an array of size `n`. */
  function Rest(A: seq<Value>, N: seq<Node>, n: nat): int {
    CountArray(A, |A|) - CountArray(A, n) + Live(N, 0) - LiveUpTo(N, 0, n)
  }

  lemma {:induction false} CountArrayBeyond(A: seq<Value>, n: nat)
    requires |A| <= n
    ensures CountArray(A, n) == CountArray(A, |A|)
  {
    if |A| < n { CountArrayBeyond(A, n - 1); }
  }

  lemma {:induction false} CountArrayMono(A: seq<Value>, m: nat, n: nat)
    requires m <= n
    ensures CountArray(A, m) <= CountArray(A, n)
  {
    if m < n { CountArrayMono(A, m, n - 1); }
  }

  lemma {:induction false} LiveUpToLive(N: seq<Node>, i: nat, n: nat)
    requires i <= |N|
    ensures LiveUpTo(N, i, n) <= Live(N, i)
    decreases |N| - i
  {
    if i < |N| { LiveUpToLive(N, i + 1, n); }
  }

  /** Each number is the key of one entry at most. */
  lemma {:induction false} OneMore(N: seq<Node>, i: nat, n: nat)
    requires i <= |N| && Unique(N) && n > 0
    ensures LiveUpTo(N, i, n) <= LiveUpTo(N, i, n - 1) + One(exists j: nat :: i <= j < |N| && N[j].key == KInt(n))
    decreases |N| - i
  {
    if i < |N| {
      OneMore(N, i + 1, n);
      if N[i].key == KInt(n) {
        assert Keyed(N, i);
        assert forall j: nat | i + 1 <= j < |N| :: Keyed(N, j) || N[j].key == KNil;
      }
    }
  }

  lemma {:induction false} CandidatesFit(A: seq<Value>, N: seq<Node>, ek: Key, n: nat)
    requires Unique(N) && !Present(N, ek) && !InArray(|A|, ek)
    requires forall j: nat :: j < |N| ==> !InArray(|A|, N[j].key)
    ensures Candidates(A, N, ek, n) <= n
  {
    if n == 0 {
      NoneUpToZero(N, 0);
    } else {
      CandidatesFit(A, N, ek, n - 1);
      OneMore(N, 0, n);
      if n <= |A| { assert InArray(|A|, KInt(n)); }
    }
  }

  lemma {:induction false} NoneUpToZero(N: seq<Node>, i: nat)
    requires i <= |N|
    ensures LiveUpTo(N, i, 0) == 0
    decreases |N| - i
  {
    if i < |N| { NoneUpToZero(N, i + 1); }
  }

  // ---- free nodes ----

  lemma {:induction false} UsedAll(N: seq<Node>, i: nat)
    requires i <= |N|
    ensures Used(N, i) <= |N| - i
    ensures Used(N, i) < |N| - i <==> exists n: nat :: i <= n < |N| && !Keyed(N, n)
    decreases |N| - i
  {
    if i < |N| {
      UsedAll(N, i + 1);
      if !Keyed(N, i) {
        assert exists n: nat :: i <= n < |N| && !Keyed(N, n);
      } else if n: nat :| i <= n < |N| && !Keyed(N, n) {
        assert i + 1 <= n;
      }
    }
  }

  lemma {:induction false} UsedUpdate(N: seq<Node>, i: nat, n: nat, x: Node)
    requires i <= |N| && n < |N|
    ensures Used(N[n := x], i) == Used(N, i) + if n < i then 0 else One(x.key != KNil) as int - One(N[n].key != KNil)
    decreases |N| - i
  {
    if i < |N| { UsedUpdate(N, i + 1, n, x); }
  }

  lemma {:induction false} UsedNone(N: seq<Node>, i: nat)
    requires i <= |N| && forall n: nat | n < |N| :: !Keyed(N, n)
    ensures Used(N, i) == 0
    decreases |N| - i
  {
    if i < |N| {
      assert !Keyed(N, i);
      UsedNone(N, i + 1);
    }
  }

  // ---- the size of the hash part ----

  /** With the size `computesizes` chose, the hash part has room for what does
      not go to the array, the new key included. */
  lemma RoomForAll(A: seq<Value>, N: seq<Node>, ek: Key, nums: seq<nat>, n: nat, na: nat)
    requires |nums| == MAXABITS + 1 && Best(nums, n, na)
    requires forall l | 0 <= l < |nums| :: Prefix(nums, l) == Candidates(A, N, ek, Pow2(l))
    ensures var total := CountArray(A, |A|) + Live(N, 0) + 1;
      na <= total && total - na == Rest(A, N, n) + 1 - One(InArray(n, ek))
    ensures n <= MAXASIZE
  {
    CountArrayMono(A, n, if n <= |A| then |A| else n);
    CountArrayBeyond(A, if n <= |A| then |A| else n);
    LiveUpToLive(N, 0, n);
    Pow2Values();
    if n == 0 {
      NoneUpToZero(N, 0);
    } else {
      var j: nat :| BestAt(nums, n, na, j);
      Pow2Mono(j, MAXABITS);
    }
  }
}
