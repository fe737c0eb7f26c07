/** `Table`, updated in place: the array part and the node vector are arrays, and
  the offsets between nodes are rewritten as keys come in. */
module TableHeap {
  import opened Powers
  import opened TableModel
  import opened TableSizes
  import opened TableCount

  /** Where the value of a key is kept. */
  datatype Cell = NoCell | ArrayCell(i: nat) | NodeCell(n: nat)

  /** `M` is `N` with the key `k`, without a value, at `at`; what was there has
      moved to `from`, or was nothing. */
  predicate OnlyAdded(N: seq<Node>, M: seq<Node>, at: nat, from: nat, k: Key) {
    && at < |N| == |M| && from < |N| && k != KNil && M[at].key == k && M[at].val == Nil
    && (forall n: nat | n < |N| && n != at && n != from :: M[n].key == N[n].key && M[n].val == N[n].val)
    && (if from == at then N[at].val == Nil else !Keyed(N, from) && M[from].key == N[at].key && M[from].val == N[at].val)
  }

  lemma ValuesKept(N: seq<Node>, M: seq<Node>, at: nat, from: nat, k: Key)
    requires Unique(N) && Unique(M) && !Present(N, k) && OnlyAdded(N, M, at, from, k)
    ensures forall x :: HashValue(M, x) == HashValue(N, x)
  {
    forall x ensures HashValue(M, x) == HashValue(N, x) {
      if Present(N, x) {
        var n: nat :| n < |N| && N[n].key == x;
        assert Keyed(N, n);
        assert M[if n == at then from else n].key == x || (n == at && from == at);
      }
      if Present(M, x) {
        var m: nat :| m < |M| && M[m].key == x;
        var m0 := if m == from then at else m;
        assert Keyed(M, m);
        assert m == at || (N[m0].key == x && N[m0].val == M[m].val);
      }
    }
  }

  lemma {:induction false} UsedSame(M: seq<Node>, N: seq<Node>, i: nat)
    requires i <= |N| == |M| && forall n: nat | n < |N| :: M[n].key == N[n].key
    ensures Used(M, i) == Used(N, i)
    decreases |N| - i
  {
    if i < |N| { UsedSame(M, N, i + 1); }
  }

  lemma UsedAdded(N: seq<Node>, M: seq<Node>, at: nat, from: nat, k: Key)
    requires OnlyAdded(N, M, at, from, k)
    ensures Used(M, 0) <= Used(N, 0) + 1
  {
    var K := N[from := M[from]];
    UsedUpdate(N, 0, from, M[from]);
    UsedUpdate(K, 0, at, M[at]);
    UsedSame(M, K[at := M[at]], 0);
  }

  /** A key whose main position is in a chain is further down that chain. */
  lemma OnChain(N: seq<Node>, C: set<seq<nat>>, c: seq<nat>, x0: nat, m: nat) returns (j: nat)
    requires Hash(N, C) && Keyed(N, m) && c in C && x0 < |c| && c[x0] == Main(N, m)
    ensures x0 <= j < |c| && c[j] == m
  {
    var e :| e in C && PlacedIn(N, e, m);
    var i, l :| 0 <= i <= l < |e| && e[i] == Main(N, m) && e[l] == m;
    assert Main(N, m) in e && Main(N, m) in c;
    assert Chain(N, c) && i == x0;
    j := l;
  }

  /** A search from `p` has come to node `n`, the `x`th of its chain. */
  ghost predicate Walk(N: seq<Node>, C: set<seq<nat>>, c: seq<nat>, x0: nat, x: nat, p: nat, n: int) {
    && 0 <= n < |N| && x0 <= x < |c| && c[x] == n && c[x0] == p
    && (if Keyed(N, p) then c in C && Chain(N, c) else n == p && N[p].next == 0)
  }

  lemma WalkOn(N: seq<Node>, C: set<seq<nat>>, c: seq<nat>, x0: nat, x: nat, p: nat, n: int)
    requires Walk(N, C, c, x0, x, p, n) && N[n].next != 0
    ensures Walk(N, C, c, x0, x + 1, p, n + N[n].next)
  {
    assert N[c[x]].next == Offset(c, x);
    assert Keyed(N, c[x + 1]);
  }

  lemma WalkIs(N: seq<Node>, C: set<seq<nat>>, c: seq<nat>, x0: nat, x: nat, p: nat, n: int)
    ensures Walk(N, C, c, x0, x, p, n) ==> 0 <= n < |N| && x0 <= x < |c| && c[x] == n
  {
  }

  lemma NotEmpty(N: seq<Node>, C: set<seq<nat>>)
    requires Hash(N, C)
    ensures |N| > 0
  {
  }

  lemma MissedNone(N: seq<Node>, c: seq<nat>, x: nat, k: Key)
    requires x <= |c|
    ensures Missed(N, c, x, x, k)
  {
  }

  lemma WalkStart(N: seq<Node>, C: set<seq<nat>>, p: nat) returns (c: seq<nat>, x: nat)
    requires Hash(N, C) && p < |N|
    ensures Walk(N, C, c, x, x, p, p)
  {
    c, x := [p], 0;
    if Keyed(N, p) {
      var e :| e in C && PlacedIn(N, e, p);
      var i, j :| 0 <= i <= j < |e| && e[i] == Main(N, p) && e[j] == p;
      c, x := e, j;
    }
  }

  /** The nodes of the chain before the `x`th have other keys. */
  ghost predicate Missed(N: seq<Node>, c: seq<nat>, x0: nat, x: nat, k: Key) {
    x <= |c| && forall y | x0 <= y < x :: c[y] < |N| && N[c[y]].key != k
  }

  lemma MissedOn(N: seq<Node>, c: seq<nat>, x0: nat, x: nat, k: Key)
    requires x < |c| && Missed(N, c, x0, x, k) && c[x] < |N| && N[c[x]].key != k
    ensures Missed(N, c, x0, x + 1, k)
  {
  }

  lemma SearchEnds(N: seq<Node>, C: set<seq<nat>>, c: seq<nat>, x0: nat, x: nat, k: Key)
    requires Hash(N, C) && k != KNil && x < |c| && Walk(N, C, c, x0, x, MainPosition(|N|, k), c[x]) && N[c[x]].next == 0
    requires Missed(N, c, x0, x + 1, k)
    ensures !Present(N, k)
  {
    var p := MainPosition(|N|, k);
    forall m: nat | Keyed(N, m) && Main(N, m) == p ensures N[m].key != k {
      assert AtHome(N, Main(N, m));
      assert Chain(N, c);
      var j := OnChain(N, C, c, x0, m);
      assert N[c[x]].next == Offset(c, x);
    }
    assert forall m: nat | m < |N| && N[m].key == k :: Keyed(N, m);
  }

  /** What the callers of an insertion rely on. */
  ghost predicate Grown(A: seq<Value>, N: seq<Node>, M: seq<Node>, at: nat, from: nat, k: Key) {
    && |M| == |N| && at < |M| && M[at].key == k && M[at].val == Nil
    && (forall x :: Lookup(A, M, x) == Lookup(A, N, x))
    && Used(M, 0) <= Used(N, 0) + 1
    && (forall n: nat | Keyed(N, n) || n == at || n == from :: Keyed(M, n))
    && (forall n: nat | Keyed(M, n) :: !InArray(|A|, M[n].key))
  }

  lemma Added(A: seq<Value>, N: seq<Node>, M: seq<Node>, at: nat, from: nat, k: Key)
    requires Unique(N) && Unique(M) && !Present(N, k) && OnlyAdded(N, M, at, from, k) && !InArray(|A|, k)
    requires from != at ==> Keyed(N, at)
    requires forall n: nat | Keyed(N, n) :: !InArray(|A|, N[n].key)
    ensures Grown(A, N, M, at, from, k)
  {
    hide Used, HashValue;
    ValuesKept(N, M, at, from, k);
    UsedAdded(N, M, at, from, k);
    forall n: nat | Keyed(M, n) ensures !InArray(|A|, M[n].key) {
      assert n == at || M[n].key == N[if n == from then at else n].key;
    }
  }

  lemma UniqueOf(N: seq<Node>, C: set<seq<nat>>)
    requires Hash(N, C)
    ensures Unique(N)
  {
  }

  /** An insertion may take place. */
  ghost predicate MayInsert(A: seq<Value>, N: seq<Node>, C: set<seq<nat>>, k: Key) {
    Hash(N, C) && k != KNil && !Present(N, k) && !InArray(|A|, k) && forall n: nat | Keyed(N, n) :: !InArray(|A|, N[n].key)
  }

  lemma ThereDone(A: seq<Value>, N: seq<Node>, C: set<seq<nat>>, mp: nat, k: Key)
    requires MayInsert(A, N, C, k) && mp == MainPosition(|N|, k) && N[mp].val == Nil
    ensures Hash(PutThere(N, mp, k), if Keyed(N, mp) then C else C + {[mp]})
    ensures Grown(A, N, PutThere(N, mp, k), mp, mp, k)
  {
    hide Hash, Unique, MainPosition, Grown;
    var M := PutThere(N, mp, k);
    PutThereOk(N, C, mp, k);
    UniqueOf(N, C);
    UniqueOf(M, if Keyed(N, mp) then C else C + {[mp]});
    Added(A, N, M, mp, mp, k);
  }

  lemma BehindDone(A: seq<Value>, N: seq<Node>, M: seq<Node>, C: set<seq<nat>>, c: seq<nat>, j: nat, f: nat, k: Key)
    requires MayInsert(A, N, C, k) && c in C && j < |c| && c[j] == MainPosition(|N|, k) && AtHome(N, c[j])
    requires f < |N| && !Keyed(N, f) && ChainedBehind(N, M, c[j], f, k)
    ensures Hash(M, C - {c} + {Behind(c, j, f)}) && Grown(A, N, M, f, f, k)
  {
    hide Hash, Unique, MainPosition, Grown, Behind, OnlyAdded, ChainedBehind, Present;
    PutBehindOk(N, M, C, c, j, f, k);
    UniqueOf(N, C);
    UniqueOf(M, C - {c} + {Behind(c, j, f)});
    BehindAdds(N, M, C, c[j], f, k);
    Added(A, N, M, f, f, k);
  }

  lemma BehindAdds(N: seq<Node>, M: seq<Node>, C: set<seq<nat>>, mp: nat, f: nat, k: Key)
    requires Hash(N, C) && ChainedBehind(N, M, mp, f, k) && !Keyed(N, f)
    ensures OnlyAdded(N, M, f, f, k)
  {
    hide Chains, Disjoint, AllPlaced, Unique, Home;
  }

  lemma MovedDone(A: seq<Value>, N: seq<Node>, M: seq<Node>, C: set<seq<nat>>, c: seq<nat>, j: nat, f: nat, k: Key)
    requires MayInsert(A, N, C, k) && c in C && 0 < j < |c| && c[j] == MainPosition(|N|, k) && Keyed(N, c[j]) && !AtHome(N, c[j])
    requires f < |N| && !Keyed(N, f) && MovedTo(N, M, c[j], f, c[j - 1], k)
    ensures Hash(M, C - {c} + {c[j := f], [c[j]]}) && Grown(A, N, M, c[j], f, k)
  {
    hide Hash, Unique, MainPosition, Grown, MovedTo, OnlyAdded;
    MovedOk(N, M, C, c, j, f, k);
    UniqueOf(N, C);
    UniqueOf(M, C - {c} + {c[j := f], [c[j]]});
    MovedAdds(N, M, c[j], f, c[j - 1], k);
    Added(A, N, M, c[j], f, k);
  }

  lemma MovedAdds(N: seq<Node>, M: seq<Node>, mp: nat, f: nat, prev: nat, k: Key)
    requires MovedTo(N, M, mp, f, prev, k) && !Keyed(N, f)
    ensures OnlyAdded(N, M, mp, f, k)
  {
  }

  /** The writes that chain `f` behind `mp`. */
  method ChainBehind(node: array<Node>, mp: nat, f: nat, k: Key)
    requires mp < node.Length && f < node.Length && f != mp && k != KNil && node[f] == Node(KNil, Nil, 0)
    modifies node
    ensures ChainedBehind(old(node[..]), node[..], mp, f, k)
  {
    if node[mp].next != 0 { node[f] := node[f].(next := mp + node[mp].next - f); }
    node[mp] := node[mp].(next := f - mp);
    node[f] := node[f].(key := k);
  }

  /** The writes that move the node at `mp` to `f`. */
  method MoveNode(node: array<Node>, mp: nat, f: nat, othern: nat, k: Key)
    requires mp < node.Length && f < node.Length && othern < node.Length && k != KNil
    requires f != mp && othern != mp && othern != f
    modifies node
    ensures MovedTo(old(node[..]), node[..], mp, f, othern, k)
  {
    node[othern] := node[othern].(next := f - othern);
    node[f] := node[mp];
    if node[mp].next != 0 {
      node[f] := node[f].(next := node[f].next + (mp - f));
      node[mp] := node[mp].(next := 0);
    }
    node[mp] := node[mp].(val := Nil);
    node[mp] := node[mp].(key := k);
  }

  /** Writing a value to a node changes the value of its key only. */
  lemma StoreHash(N: seq<Node>, M: seq<Node>, C: set<seq<nat>>, n: nat, v: Value)
    requires Hash(N, C) && Keyed(N, n) && M == N[n := N[n].(val := v)]
    ensures Hash(M, C)
  {
    hide MainPosition;
    assert SameKeys(N, M) && Blank(M);
    hide Blank;
    SameChains(N, M, C);
    SamePlaces(N, M, C);
    hide Chains, AllPlaced, Disjoint;
    SameHome(N, M);
  }

  predicate SameKeys(N: seq<Node>, M: seq<Node>) {
    |M| == |N| && forall n: nat | n < |N| :: M[n].key == N[n].key && M[n].next == N[n].next
  }

  lemma SameChains(N: seq<Node>, M: seq<Node>, C: set<seq<nat>>)
    requires SameKeys(N, M) && Chains(N, C)
    ensures Chains(M, C)
  {
    forall c | c in C ensures Chain(M, c) {
      forall n | n in c ensures n < |N| && M[n].next == N[n].next && M[n].key != KNil {
        assert Keyed(N, n) by { var i :| 0 <= i < |c| && c[i] == n; assert Keyed(N, c[i]); }
      }
      ChainFrame(N, M, c);
    }
  }

  lemma SamePlaces(N: seq<Node>, M: seq<Node>, C: set<seq<nat>>)
    requires SameKeys(N, M) && AllPlaced(N, C)
    ensures AllPlaced(M, C)
  {
    hide MainPosition;
    forall m: nat | Keyed(M, m) ensures Placed(M, C, m) {
      assert Keyed(N, m);
      var c :| c in C && PlacedIn(N, c, m);
      PlacedInSame(N, M, c, m);
    }
  }

  lemma SameHome(N: seq<Node>, M: seq<Node>)
    requires SameKeys(N, M) && Home(N) && Unique(N)
    ensures Home(M) && Unique(M)
  {
    hide MainPosition;
    forall m: nat | Keyed(M, m) ensures AtHome(M, Main(M, m)) {
      assert Keyed(N, m) && AtHome(N, Main(N, m));
    }
    forall m: nat, n: nat | Keyed(M, m) && Keyed(M, n) && M[m].key == M[n].key ensures m == n {
      assert Keyed(N, m) && Keyed(N, n);
    }
  }

  lemma StoreValues(N: seq<Node>, M: seq<Node>, n: nat, v: Value)
    requires Unique(N) && Keyed(N, n) && M == N[n := N[n].(val := v)]
    ensures forall x :: HashValue(M, x) == if x == N[n].key then v else HashValue(N, x)
    ensures Used(M, 0) == Used(N, 0)
  {
    UsedUpdate(N, 0, n, M[n]);
    assert Unique(M);
    forall x ensures HashValue(M, x) == if x == N[n].key then v else HashValue(N, x) {
      if Present(N, x) {
        var m: nat :| m < |N| && N[m].key == x;
        assert Keyed(N, m) && M[m].key == x;
      }
      assert forall m: nat | m < |M| :: M[m].key == N[m].key;
    }
  }

  lemma ArrayStored(A: seq<Value>, N: seq<Node>, i: nat, v: Value)
    requires i < |A|
    ensures forall x :: Lookup(A[i := v], N, x) == if x == KInt(i + 1) then v else Lookup(A, N, x)
  {
    hide HashValue;
    forall x ensures Lookup(A[i := v], N, x) == if x == KInt(i + 1) then v else Lookup(A, N, x) {
      if InArray(|A|, x) { assert x == KInt(x.i); }
    }
  }

  lemma SliceOf(x: nat, c: nat)
    requires 1 <= x <= MAXASIZE && CeilLog(x, c)
    ensures c <= MAXABITS
  {
    Pow2Values();
    if c > MAXABITS { Pow2Mono(MAXABITS, c - 1); }
  }

  lemma SliceBelow(x: nat, c: nat, l: nat)
    requires x >= 1 && CeilLog(x, c)
    ensures c <= l <==> x <= Pow2(l)
  {
    if c <= l { Pow2Mono(c, l); } else { Pow2Mono(l, c - 1); }
  }

  /** The slices before `lg` are counted, the others are still empty. */
  ghost predicate Counted(nums: seq<nat>, A: seq<Value>, lg: nat) {
    && |nums| == MAXABITS + 1 && lg <= |nums|
    && (forall l: nat | l < lg :: Prefix(nums, l) == CountArray(A, Pow2(l)))
    && (forall l | lg <= l < |nums| :: nums[l] == 0)
  }

  lemma CountedNone(nums: seq<nat>, A: seq<Value>)
    requires |nums| == MAXABITS + 1 && forall l | 0 <= l < |nums| :: nums[l] == 0
    ensures Counted(nums, A, 0) && Pow2(0) == 1 && CountArray(A, 0) == 0
  {
  }

  lemma Pow2Next(l: nat)
    ensures Pow2(l + 1) == 2 * Pow2(l)
  {
  }

  lemma CountedNext(nums: seq<nat>, A: seq<Value>, lg: nat, lc: nat)
    requires Counted(nums, A, lg) && lg <= MAXABITS
    requires var n, m := Pow2(lg), if lg == 0 then 0 else Pow2(lg - 1);
      lc == CountArray(A, if n <= |A| then n else |A|) - CountArray(A, if m <= |A| then m else |A|)
    ensures Counted(nums[lg := nums[lg] + lc], A, lg + 1)
  {
    var B := nums[lg := nums[lg] + lc];
    forall l: nat | l < lg + 1 ensures Prefix(B, l) == CountArray(A, Pow2(l)) {
      PrefixUpdate(nums, lg, lc, l);
      if l == lg {
        CountArrayBeyond(A, if Pow2(lg) <= |A| then |A| else Pow2(lg));
        if lg > 0 { CountArrayBeyond(A, if Pow2(lg - 1) <= |A| then |A| else Pow2(lg - 1)); }
      }
    }
  }

  lemma {:induction false} EmptyTail(nums: seq<nat>, lg: nat, l: nat)
    requires lg <= l < |nums| && forall j | lg <= j < |nums| :: nums[j] == 0
    ensures Prefix(nums, l) == if lg == 0 then 0 else Prefix(nums, lg - 1)
    decreases l
  {
    if l > lg { EmptyTail(nums, lg, l - 1); }
  }

  /** When the counting stops, every prefix is right. */
  lemma AllSlices(nums: seq<nat>, A: seq<Value>, lg: nat, i: nat)
    requires Counted(nums, A, lg) && |A| <= MAXASIZE && i >= 1
    requires i - 1 == (if lg == 0 then 0 else if Pow2(lg - 1) < |A| then Pow2(lg - 1) else |A|)
    requires lg <= MAXABITS ==> i > |A|
    ensures i - 1 == |A| && forall l: nat | l <= MAXABITS :: Prefix(nums, l) == CountArray(A, Pow2(l))
  {
    Pow2Values();
    forall l: nat | l <= MAXABITS ensures Prefix(nums, l) == CountArray(A, Pow2(l)) {
      if l >= lg {
        EmptyTail(nums, lg, l);
        if lg > 0 {
          Pow2Mono(lg - 1, l);
          CountArrayBeyond(A, Pow2(lg - 1));
          CountArrayBeyond(A, Pow2(l));
        } else {
          CountArrayBeyond(A, Pow2(l));
        }
      }
    }
  }

  lemma BlankHash(N: seq<Node>)
    requires |N| > 0 && forall n | 0 <= n < |N| :: N[n] == Node(KNil, Nil, 0)
    ensures Hash(N, {}) && forall n: nat | n < |N| :: !Keyed(N, n)
  {
  }

  /** The value of a key, as far as the entries have been moved. */
  ghost function SoFar(A: seq<Value>, N: seq<Node>, i: nat, j: nat, x: Key): Value
    requires i <= |A| && j <= |N|
  {
    if InArray(|A|, x) then (if x.i <= i then A[x.i - 1] else Nil) else ValueFrom(N, j, x)
  }

  ghost function ValueFrom(N: seq<Node>, j: nat, x: Key): Value
    requires j <= |N|
  {
    if x != KNil && exists n: nat :: j <= n < |N| && N[n].key == x then
      var n: nat :| j <= n < |N| && N[n].key == x; N[n].val
    else Nil
  }

  /** How many of them went to the hash part, at most. */
  function Spilled(A: seq<Value>, N: seq<Node>, size: nat, i: nat, j: nat): int
    requires j <= |N|
  {
    CountArray(A, i) - CountArray(A, if size <= |A| then size else |A|) + Live(N, j) - LiveUpTo(N, j, size)
  }

  lemma SpilledMost(A: seq<Value>, N: seq<Node>, size: nat, i: nat, j: nat)
    requires i <= |A| && j <= |N|
    ensures Spilled(A, N, size, i, j) <= Rest(A, N, size)
  {
    CountArrayMono(A, i, |A|);
    CountArrayBeyond(A, if size <= |A| then |A| else size);
    LiveRest(N, j, size);
  }

  /** The nodes before `j` can only add to the rest. */
  lemma {:induction false} LiveRest(N: seq<Node>, j: nat, size: nat)
    requires j <= |N|
    ensures Live(N, j) - LiveUpTo(N, j, size) <= Live(N, 0) - LiveUpTo(N, 0, size)
  {
    if j > 0 { LiveRest(N, j - 1, size); }
  }

  lemma ValueFromNext(N: seq<Node>, j: nat, x: Key)
    requires Unique(N) && j < |N|
    ensures ValueFrom(N, j, x) == if x == N[j].key && x != KNil then N[j].val else ValueFrom(N, j + 1, x)
    ensures x == N[j].key ==> ValueFrom(N, j + 1, x) == Nil
  {
    assert forall n: nat | n < |N| && N[n].key == x && x != KNil :: Keyed(N, n);
  }

  lemma CountsFit(A: seq<Value>, N: seq<Node>, C: set<seq<nat>>, ek: Key, counts: seq<nat>, nasize: nat)
    requires Hash(N, C) && |A| <= MAXASIZE && !Present(N, ek) && !InArray(|A|, ek)
    requires forall n: nat | Keyed(N, n) :: !InArray(|A|, N[n].key)
    requires |counts| == MAXABITS + 1 && forall l: nat | l <= MAXABITS :: Prefix(counts, l) == Candidates(A, N, ek, Pow2(l))
    requires nasize == CountArray(A, |A|) + LiveUpTo(N, 0, MAXASIZE) + One(InArray(MAXASIZE, ek))
    ensures Fits(counts) && nasize == Prefix(counts, MAXABITS)
  {
    hide Pow2;
    forall l | 0 <= l < |counts| ensures Prefix(counts, l) <= Pow2(l) {
      assert forall j: nat | j < |N| :: Keyed(N, j) || N[j].key == KNil;
      CandidatesFit(A, N, ek, Pow2(l));
    }
    Pow2Values();
    CountArrayBeyond(A, MAXASIZE);
  }

  lemma OldNodes(N: seq<Node>, C: set<seq<nat>>)
    requires Hash(N, C)
    ensures Unique(N) && Blank(N)
  {
  }

  lemma {:induction false} LiveKeyed(N: seq<Node>, i: nat)
    requires i <= |N| && Blank(N)
    ensures Live(N, i) <= Used(N, i)
    decreases |N| - i
  {
    if i < |N| {
      LiveKeyed(N, i + 1);
      assert Keyed(N, i) || N[i] == Node(KNil, Nil, 0);
    }
  }

  /** A node vector always has room for the entries of its own. */
  lemma RestFits(A: seq<Value>, N: seq<Node>, C: set<seq<nat>>, size: nat, dummy: bool)
    requires Hash(N, C) && |A| <= size && (dummy ==> |N| == 1 && !Keyed(N, 0))
    ensures Rest(A, N, size) <= if dummy then 0 else |N|
  {
    CountArrayBeyond(A, size);
    LiveKeyed(N, 0);
    UsedAll(N, 0);
    if dummy { UsedNone(N, 0); }
  }

  lemma ChainApart(N: seq<Node>, C: set<seq<nat>>, c: seq<nat>, j: nat)
    requires Hash(N, C) && c in C && 0 < j < |c|
    ensures Keyed(N, c[j - 1]) && c[j - 1] != c[j]
  {
    assert Chain(N, c);
  }

  lemma LinkAt(N: seq<Node>, c: seq<nat>, x: nat)
    requires Chain(N, c) && x < |c|
    ensures c[x] < |N| && N[c[x]].next == Offset(c, x)
  {
    assert Keyed(N, c[x]);
  }

  lemma LinkDistinct(N: seq<Node>, c: seq<nat>, x: nat, j: nat)
    requires Chain(N, c) && x < j < |c| && c[x] + Offset(c, x) == c[j]
    ensures x + 1 == j
  {
  }

  class Table {
    var arr: array<Value>
    var node: array<Node>
    var lastfree: nat
    /** The shared node of tables without a hash part, which is never written. */
    var dummy: bool
    ghost var chains: set<seq<nat>>

    /** Everything but the free slots, of which `hole` may be one more. */
    ghost predicate Sound()
      reads this, node, arr
    {
      && Hash(node[..], chains) && lastfree <= node.Length && arr.Length <= MAXASIZE && PowerOfTwo(node.Length)
      && (dummy ==> node.Length == 1 && !Keyed(node[..], 0) && lastfree == 0)
      && (forall n: nat | Keyed(node[..], n) :: !InArray(arr.Length, node[n].key))
    }

    /** All slots from `from` on are taken. */
    ghost predicate TakenFrom(from: nat)
      reads this, node
    {
      dummy || forall n: nat | from <= n < node.Length :: Keyed(node[..], n)
    }

    ghost predicate Valid()
      reads this, node, arr
    {
      Sound() && TakenFrom(lastfree)
    }

    /** The value of a key. */
    ghost function At(k: Key): Value
      reads this, arr, node
    {
      Lookup(arr[..], node[..], k)
    }

    /** Some node was never used. */
    ghost predicate Room()
      reads this, node
    {
      !dummy && Used(node[..], 0) < node.Length
    }

    /** Inserting `k` does not need a larger table. */
    ghost predicate Easy(k: Key)
      reads this, node, arr
    {
      InArray(arr.Length, k) || Room()
    }

    // ---- searching ----

    /** The loop of all the search functions: along the chain from the main
        position. */
    method FindNode(k: Key) returns (n: int)
      requires Hash(node[..], chains) && k != KNil
      ensures 0 <= n ==> n < node.Length && node[n].key == k
      ensures n < 0 ==> !Present(node[..], k)
    {
      hide *;
      ghost var N, C := node[..], chains;
      NotEmpty(N, C);
      n := MainPosition(node.Length, k);
      ghost var p := n;
      ghost var c, x0 := WalkStart(N, C, p);
      ghost var x := x0;
      WalkIs(N, C, c, x0, x, p, n);
      MissedNone(N, c, x0, k);
      while node[n].key != k
        invariant Walk(N, C, c, x0, x, p, n) && 0 <= n < |N| && x0 <= x < |c| && c[x] == n
        invariant Missed(N, c, x0, x, k)
        decreases |c| - x
      {
        MissedOn(N, c, x0, x, k);
        var nx := node[n].next;
        if nx == 0 {
          SearchEnds(N, C, c, x0, x, k);
          return -1;
        }
        WalkOn(N, C, c, x0, x, p, n);
        n := n + nx;
        x := x + 1;
        WalkIs(N, C, c, x0, x, p, n);
      }
    }

    /** `c` is where the value of `k` is kept. */
    ghost predicate CellOf(c: Cell, k: Key)
      reads this, arr, node
    {
      match c
      case NoCell => !InArray(arr.Length, k) && !Present(node[..], k)
      case ArrayCell(i) => InArray(arr.Length, k) && i == k.i - 1
      case NodeCell(n) => n < node.Length && node[n].key == k && k != KNil && !InArray(arr.Length, k)
    }

    /** `luaH_get`, as the place it finds. */
    method FindCell(k: Key) returns (c: Cell)
      requires Sound()
      ensures CellOf(c, k)
    {
      match k {
        case KNil => return NoCell;
        case KInt(i) => if 1 <= i <= arr.Length { return ArrayCell(i - 1); }
        case _ =>
      }
      var n := FindNode(k);
      return if n < 0 then NoCell else NodeCell(n);
    }

    method Read(c: Cell, ghost k: Key) returns (v: Value)
      requires Sound() && CellOf(c, k)
      ensures v == At(k)
    {
      match c
      case NoCell => v := Nil;
      case ArrayCell(i) => v := arr[i];
      case NodeCell(n) =>
        HashValueAt(node[..], chains, n);
        v := node[n].val;
    }

    /** `luaH_get`. */
    method Get(k: Key) returns (v: Value)
      requires Valid()
      ensures v == At(k)
    {
      var c := FindCell(k);
      v := Read(c, k);
    }

    // ---- a new key ----

    /** `getfreepos`. */
    method GetFreePos() returns (f: int)
      requires Valid()
      modifies this`lastfree
      ensures Sound() && (f < 0 ==> Valid() && !Room())
      ensures 0 <= f ==> f < node.Length && !dummy && !Keyed(node[..], f) && lastfree == f && TakenFrom(f + 1)
    {
      hide Hash, InArray, Used, MainPosition;
      while lastfree > 0
        invariant Sound() && TakenFrom(lastfree)
        decreases lastfree
      {
        lastfree := lastfree - 1;
        if node[lastfree].key == KNil { return lastfree; }
        assert Keyed(node[..], lastfree);
      }
      UsedAll(node[..], 0);
      return -1;
    }

    /** A key about to be inserted. */
    ghost predicate Newcomer(k: Key)
      reads this, arr, node
    {
      k != KNil && !InArray(arr.Length, k) && !Present(node[..], k) && !dummy
    }

    /** The key `k` has a node without a value, and nothing else has changed. */
    twostate predicate Inserted(k: Key, c: Cell)
      reads this, arr, node
    {
      && Valid() && node == old(node) && arr == old(arr) && arr[..] == old(arr[..]) && dummy == old(dummy) && node.Length == old(node.Length)
      && CellOf(c, k) && c.NodeCell? && node[c.n].val == Nil
      && (forall x :: At(x) == old(At(x))) && Used(node[..], 0) <= old(Used(node[..], 0)) + 1
    }

    /** The last step of every insertion: the vector has changed from `N` as
        `Grown` says, and the slot that was taken, if any, is in use. */
    lemma Settled(N: seq<Node>, k: Key, at: nat, from: nat)
      requires Hash(node[..], chains) && Grown(arr[..], N, node[..], at, from, k) && !dummy && lastfree <= node.Length
      requires arr.Length <= MAXASIZE && PowerOfTwo(node.Length)
      requires !InArray(arr.Length, k) && k != KNil
      requires forall n: nat | lastfree <= n < |N| && n != at && n != from :: Keyed(N, n)
      ensures Valid() && CellOf(NodeCell(at), k) && node[at].val == Nil
      ensures (forall x :: At(x) == Lookup(arr[..], N, x)) && Used(node[..], 0) <= Used(N, 0) + 1
    {
      hide Hash, Used, Lookup, MainPosition;
    }

    /** Into the empty main position. */
    method InsertThere(mp: nat, k: Key)
      requires Valid() && Newcomer(k) && mp == MainPosition(node.Length, k) && node[mp].val == Nil
      modifies this`chains, node
      ensures Inserted(k, NodeCell(mp))
    {
      hide MainPosition, Used, Hash, Lookup, Grown;
      ghost var N := node[..];
      ThereDone(arr[..], N, chains, mp, k);
      chains := if Keyed(N, mp) then chains else chains + {[mp]};
      node[mp] := node[mp].(key := k);
      assert node[..] == PutThere(N, mp, k);
      Settled(N, k, mp, mp);
    }

    /** A free slot was taken from the end for `k`. */
    ghost predicate Taken(f: nat, k: Key)
      reads this, arr, node
    {
      Sound() && Newcomer(k) && f < node.Length && !Keyed(node[..], f) && lastfree == f && TakenFrom(f + 1)
    }

    lemma TakenIs(f: nat, k: Key)
      requires Taken(f, k)
      ensures MayInsert(arr[..], node[..], chains, k) && f < node.Length && node[f] == Node(KNil, Nil, 0) && !Keyed(node[..], f)
      ensures !dummy && lastfree == f && !InArray(arr.Length, k) && k != KNil && arr.Length <= MAXASIZE && PowerOfTwo(node.Length)
      ensures forall n: nat | lastfree <= n < node.Length && n != f :: Keyed(node[..], n)
    {
      hide MainPosition, Used;
      assert node[..][f] == node[f];
    }

    lemma HomeChain(mp: nat) returns (c: seq<nat>, j: nat)
      requires Hash(node[..], chains) && AtHome(node[..], mp)
      ensures c in chains && j < |c| && c[j] == mp
    {
      c, j := WalkStart(node[..], chains, mp);
    }

    /** Behind a colliding node that is at home. */
    method InsertBehind(mp: nat, f: nat, k: Key)
      requires Taken(f, k) && mp == MainPosition(node.Length, k) && AtHome(node[..], mp)
      modifies this`chains, node
      ensures Inserted(k, NodeCell(f))
    {
      hide MainPosition, Used, Hash, Lookup, Walk, Grown, ChainedBehind, Taken, Sound, Valid, TakenFrom, Behind, Present;
      TakenIs(f, k);
      ghost var N, C := node[..], chains;
      ghost var c, j := HomeChain(mp);
      ChainBehind(node, mp, f, k);
      BehindDone(arr[..], N, node[..], C, c, j, f, k);
      chains := C - {c} + {Behind(c, j, f)};
      Settled(N, k, f, f);
    }

    /** The colliding node is moved out of the way. */
    method InsertMoving(mp: nat, othern: nat, f: nat, k: Key, ghost c: seq<nat>, ghost j: nat)
      requires Taken(f, k) && mp == MainPosition(node.Length, k) && Keyed(node[..], mp) && !AtHome(node[..], mp)
      requires c in chains && 0 < j < |c| && c[j] == mp && c[j - 1] == othern
      modifies this`chains, node
      ensures Inserted(k, NodeCell(mp))
    {
      hide MainPosition, Used, Lookup, Grown, MovedTo, Taken, Sound, Valid, TakenFrom, Present, Hash, AtHome;
      TakenIs(f, k);
      ghost var N, C := node[..], chains;
      ChainApart(N, C, c, j);
      MoveNode(node, mp, f, othern, k);
      MovedDone(arr[..], N, node[..], C, c, j, f, k);
      chains := C - {c} + {c[j := f], [mp]};
      Settled(N, k, mp, f);
    }

    /** The node before `mp` in the chain of `mp`'s own key. */
    method FindPrevious(mp: nat) returns (othern: nat, ghost c: seq<nat>, ghost j: nat)
      requires Hash(node[..], chains) && Keyed(node[..], mp) && !AtHome(node[..], mp)
      ensures c in chains && 0 < j < |c| && c[j] == mp && c[j - 1] == othern && othern < node.Length
    {
      ghost var N, C := node[..], chains;
      c :| c in C && PlacedIn(N, c, mp);
      ghost var i;
      i, j :| 0 <= i <= j < |c| && c[i] == Main(N, mp) && c[j] == mp;
      assert Chain(N, c) && i < j;
      othern := MainPosition(node.Length, node[mp].key);
      hide Hash, MainPosition;
      ghost var x := i;
      LinkAt(N, c, x);
      while othern + node[othern].next != mp
        invariant 0 <= x < j && othern < |N| && othern == c[x] && N[othern].next == Offset(c, x)
        decreases j - x
      {
        othern := othern + node[othern].next;
        x := x + 1;
        LinkAt(N, c, x);
      }
      LinkDistinct(N, c, x, j);
    }

    // ---- writing a value ----

    /** The assignment through the pointer that `luaH_set` returns. */
    method Store(c: Cell, k: Key, v: Value)
      requires Valid() && CellOf(c, k) && c != NoCell
      modifies node, arr
      ensures Valid() && (forall x :: At(x) == if x == k then v else old(At(x)))
      ensures Used(node[..], 0) == old(Used(node[..], 0))
    {
      if c.ArrayCell? { StoreArray(c.i, k, v); } else { StoreNode(c.n, k, v); }
    }

    method StoreArray(i: nat, k: Key, v: Value)
      requires Valid() && InArray(arr.Length, k) && i == k.i - 1
      modifies arr
      ensures Valid() && (forall x :: At(x) == if x == k then v else old(At(x))) && node[..] == old(node[..])
    {
      hide MainPosition, Used, Hash, Lookup;
      ghost var A, N := arr[..], node[..];
      arr[i] := v;
      assert node[..] == N && arr[..] == A[i := v] && k == KInt(i + 1);
      ArrayStored(A, N, i, v);
      forall x ensures At(x) == if x == k then v else old(At(x)) {
        assert At(x) == Lookup(A[i := v], N, x) && old(At(x)) == Lookup(A, N, x);
      }
    }

    method StoreNode(n: nat, k: Key, v: Value)
      requires Valid() && n < node.Length && node[n].key == k && k != KNil && !InArray(arr.Length, k)
      modifies node
      ensures Valid() && (forall x :: At(x) == if x == k then v else old(At(x)))
      ensures Used(node[..], 0) == old(Used(node[..], 0)) && arr[..] == old(arr[..])
    {
      hide MainPosition, Used, Hash, HashValue;
      ghost var N := node[..];
      node[n] := node[n].(val := v);
      assert node[..] == N[n := N[n].(val := v)] && Keyed(N, n);
      StoreHash(N, node[..], chains, n, v);
      UniqueOf(N, chains);
      StoreValues(N, node[..], n, v);
      assert forall m: nat | m < |N| :: Keyed(node[..], m) == Keyed(N, m) && node[m].key == N[m].key;
    }

    // ---- counting ----

    /** `countint`. */
    method CountInt(k: Key, nums: array<nat>) returns (one: nat)
      requires nums.Length == MAXABITS + 1
      modifies nums
      ensures one == One(InArray(MAXASIZE, k))
      ensures forall l: nat | l <= MAXABITS :: Prefix(nums[..], l) == old(Prefix(nums[..], l)) + One(InArray(Pow2(l), k))
    {
      ghost var B := nums[..];
      if k.KInt? && 0 < k.i <= MAXASIZE {
        var c := CeilLog2(k.i);
        SliceOf(k.i, c);
        nums[c] := nums[c] + 1;
        assert nums[..] == B[c := B[c] + 1];
        forall l: nat | l <= MAXABITS ensures Prefix(nums[..], l) == Prefix(B, l) + One(InArray(Pow2(l), k)) {
          PrefixUpdate(B, c, 1, l);
          SliceBelow(k.i, c, l);
        }
        return 1;
      }
      forall l: nat | l <= MAXABITS ensures !InArray(Pow2(l), k) {
        Pow2Mono(l, MAXABITS);
        Pow2Values();
      }
      return 0;
    }

    /** `numusearray`: slice after slice. */
    method NumUseArray(nums: array<nat>) returns (ause: nat)
      requires nums.Length == MAXABITS + 1 && arr.Length <= MAXASIZE && forall l | 0 <= l <= MAXABITS :: nums[l] == 0
      modifies nums
      ensures ause == CountArray(arr[..], arr.Length)
      ensures forall l: nat | l <= MAXABITS :: Prefix(nums[..], l) == CountArray(arr[..], Pow2(l))
    {
      hide Pow2, Prefix, CountArray, Counted;
      ghost var A := arr[..];
      var lg, ttlg, i := 0, 1, 1;
      ause := 0;
      CountedNone(nums[..], A);
      while lg <= MAXABITS
        invariant 0 <= lg <= MAXABITS + 1 && ttlg == Pow2(lg) && 1 <= i <= arr.Length + 1
        invariant i - 1 == (if lg == 0 then 0 else if Pow2(lg - 1) < arr.Length then Pow2(lg - 1) else arr.Length)
        invariant ause == CountArray(A, i - 1) && arr[..] == A
        invariant Counted(nums[..], A, lg)
      {
        var lc := 0;
        var lim := ttlg;
        if lg > 0 { Pow2Next(lg - 1); }
        if lim > arr.Length {
          lim := arr.Length;
          if i > lim { break; }
        }
        i, lc := CountSlice(i, lim);
        CountedNext(nums[..], A, lg, lc);
        Pow2Next(lg);
        nums[lg] := nums[lg] + lc;
        ause := ause + lc;
        lg, ttlg := lg + 1, ttlg * 2;
      }
      AllSlices(nums[..], A, lg, i);
    }

    /** The values from `i0` to `lim`. */
    method CountSlice(i0: nat, lim: nat) returns (i: nat, lc: nat)
      requires 1 <= i0 && lim <= arr.Length && i0 <= lim + 1
      ensures i == lim + 1 && lc == CountArray(arr[..], lim) - CountArray(arr[..], i0 - 1)
    {
      i, lc := i0, 0;
      while i <= lim
        invariant i0 <= i <= lim + 1 && lc == CountArray(arr[..], i - 1) - CountArray(arr[..], i0 - 1)
      {
        if arr[i - 1] != Nil { lc := lc + 1; }
        i := i + 1;
      }
    }

    /** `numusehash`: from the last node to the first. */
    method NumUseHash(nums: array<nat>, pnasize: nat) returns (totaluse: nat, nasize: nat)
      requires nums.Length == MAXABITS + 1
      modifies nums
      ensures totaluse == Live(node[..], 0) && nasize == pnasize + LiveUpTo(node[..], 0, MAXASIZE)
      ensures forall l: nat | l <= MAXABITS :: Prefix(nums[..], l) == old(Prefix(nums[..], l)) + LiveUpTo(node[..], 0, Pow2(l))
    {
      ghost var N, B := node[..], nums[..];
      var ause := 0;
      totaluse := 0;
      var i := node.Length;
      while i != 0
        invariant 0 <= i <= node.Length && totaluse == Live(N, i) && ause == LiveUpTo(N, i, MAXASIZE) && node[..] == N
        invariant forall l: nat | l <= MAXABITS :: Prefix(nums[..], l) == Prefix(B, l) + LiveUpTo(N, i, Pow2(l))
      {
        i := i - 1;
        if node[i].val != Nil {
          var one := CountInt(node[i].key, nums);
          ause := ause + one;
          totaluse := totaluse + 1;
        }
      }
      nasize := pnasize + ause;
    }

    // ---- resizing ----

    /** 0 when `k` fits as things are, 1 when the table must grow first. */
    ghost function Weight(k: Key): nat
      reads this, node, arr
    {
      if Easy(k) then 0 else 1
    }

    /** `setarrayvector`, growing. */
    method SetArrayVector(size: nat)
      requires arr.Length <= size
      modifies this`arr
      ensures fresh(arr) && arr.Length == size
      ensures forall i | 0 <= i < size :: arr[i] == if i < old(arr.Length) then old(arr[i]) else Nil
    {
      var a, o := new Value[size], arr;
      for i := 0 to size
        invariant forall j | 0 <= j < i :: a[j] == if j < o.Length then o[j] else Nil
      {
        a[i] := if i < o.Length then o[i] else Nil;
      }
      arr := a;
    }

    /** The array part cut down to its first `size` slots. */
    method CutArray(size: nat)
      requires size <= arr.Length
      modifies this`arr
      ensures fresh(arr) && arr[..] == old(arr[..size])
    {
      var a, o := new Value[size], arr;
      for i := 0 to size
        invariant a[..i] == o[..i]
      {
        a[i] := o[i];
      }
      arr := a;
    }

    /** `setnodevector`: all positions are free. */
    method SetNodeVector(size: nat)
      modifies this`node, this`dummy, this`lastfree, this`chains
      ensures fresh(node) && Hash(node[..], chains) && (forall n: nat | n < node.Length :: !Keyed(node[..], n))
      ensures lastfree <= node.Length && TakenFrom(lastfree) && size <= node.Length && (dummy <==> size == 0) && PowerOfTwo(node.Length)
      ensures dummy ==> node.Length == 1 && lastfree == 0
      ensures Used(node[..], 0) == 0
    {
      if size == 0 {
        node := new Node[1][Node(KNil, Nil, 0)];
        dummy, lastfree := true, 0;
        assert Pow2(0) == 1;
      } else {
        var lsize := CeilLog2(size);
        var n := Pow2(lsize);
        node := new Node[n](_ => Node(KNil, Nil, 0));
        dummy, lastfree := false, n;
      }
      chains := {};
      BlankHash(node[..]);
      UsedNone(node[..], 0);
    }

    /** Part of the old entries are in the new vectors, and nothing else: the
        first `i` array slots and the nodes from `j` on. */
    ghost predicate Refilled(A: seq<Value>, N: seq<Node>, size: nat, i: nat, j: nat)
      requires i <= |A| && j <= |N|
      reads this, arr, node
    {
      && Valid() && arr.Length == size && (forall x :: At(x) == SoFar(A, N, i, j, x))
      && Used(node[..], 0) <= Spilled(A, N, size, i, j)
    }

    /** Before an entry is moved there is room for it. */
    lemma RoomToRefill(A: seq<Value>, N: seq<Node>, size: nat, i: nat, j: nat, i': nat, j': nat, k: Key)
      requires i <= |A| && j <= |N| && i' <= |A| && j' <= |N| && Refilled(A, N, size, i, j)
      requires Rest(A, N, size) <= node.Length && (dummy ==> Rest(A, N, size) <= 0)
      requires InArray(size, k) || Spilled(A, N, size, i, j) < Spilled(A, N, size, i', j')
      ensures Easy(k)
    {
      hide Hash, Used, Lookup;
      SpilledMost(A, N, size, i', j');
    }

    /** The assignment `t[k] = v` as `luaH_set` makes it. */
    method Assign(k: Key, v: Value)
      requires Valid() && k != KNil
      modifies this, arr, node
      ensures Valid() && (forall x :: At(x) == if x == k then v else old(At(x)))
      ensures (node == old(node) || fresh(node)) && (arr == old(arr) || fresh(arr))
      ensures old(Easy(k)) ==> node == old(node) && arr == old(arr) && dummy == old(dummy)
      ensures old(Easy(k)) ==> Used(node[..], 0) <= old(Used(node[..], 0)) + One(!InArray(arr.Length, k))
      decreases Weight(k), 4
    {
      hide Hash, Used, Lookup, MainPosition;
      var c := SetCell(k);
      Store(c, k, v);
    }

    /** `luaH_set`. */
    method SetCell(k: Key) returns (c: Cell)
      requires Valid() && k != KNil
      modifies this, arr, node
      ensures Valid() && (forall x :: At(x) == old(At(x))) && CellOf(c, k) && c != NoCell
      ensures (node == old(node) || fresh(node)) && (arr == old(arr) || fresh(arr))
      ensures old(Easy(k)) ==> node == old(node) && arr == old(arr) && dummy == old(dummy)
      ensures old(Easy(k)) ==> Used(node[..], 0) <= old(Used(node[..], 0)) + One(!InArray(arr.Length, k))
      decreases Weight(k), 3
    {
      hide Hash, Used, Lookup, MainPosition;
      c := FindCell(k);
      if c == NoCell { c := NewKey(k); }
    }

    lemma WithValue(N: seq<Node>, C: set<seq<nat>>, mp: nat)
      requires Hash(N, C) && mp < |N| && N[mp].val != Nil
      ensures Keyed(N, mp)
    {
    }

    /** The main position is occupied and `f` is free: the newcomer goes to the
        free slot, unless the occupant is not in its own main position. */
    method InsertColliding(mp: nat, f: nat, k: Key) returns (at: nat)
      requires Taken(f, k) && mp == MainPosition(node.Length, k) && node[mp].val != Nil
      modifies this`chains, node
      ensures Inserted(k, NodeCell(at))
    {
      hide Used, Lookup, MainPosition, Hash, Walk, TakenFrom, Present;
      WithValue(node[..], chains, mp);
      var othern := MainPosition(node.Length, node[mp].key);
      if othern != mp {
        ghost var ch, j;
        othern, ch, j := FindPrevious(mp);
        InsertMoving(mp, othern, f, k, ch, j);
        at := mp;
      } else {
        InsertBehind(mp, f, k);
        at := f;
      }
    }

    /** `luaH_newkey`. */
    method NewKey(k: Key) returns (c: Cell)
      requires Valid() && k != KNil && !InArray(arr.Length, k) && !Present(node[..], k)
      modifies this, arr, node
      ensures Valid() && (forall x :: At(x) == old(At(x))) && CellOf(c, k) && c != NoCell
      ensures (node == old(node) || fresh(node)) && (arr == old(arr) || fresh(arr))
      ensures old(Easy(k)) ==> node == old(node) && arr == old(arr) && dummy == old(dummy)
      ensures old(Easy(k)) ==> Used(node[..], 0) <= old(Used(node[..], 0)) + 1
      decreases Weight(k), 2
    {
      hide Used, Lookup, MainPosition, Hash, Walk;
      var mp := MainPosition(node.Length, k);
      if node[mp].val != Nil || dummy {
        var f := GetFreePos();
        if f < 0 {
          Rehash(k);
          c := SetCell(k);
          return;
        }
        mp := InsertColliding(mp, f, k);
      } else {
        InsertThere(mp, k);
      }
      c := NodeCell(mp);
    }

    /** `rehash`: afterwards the new key fits. */
    method Rehash(ek: Key)
      requires Valid() && ek != KNil && !Easy(ek) && !Present(node[..], ek)
      modifies this, arr, node
      ensures Valid() && (forall x :: At(x) == old(At(x))) && Easy(ek)
      ensures fresh(node) && (arr == old(arr) || fresh(arr))
      decreases 1, 1
    {
      hide Hash, Used, Lookup, MainPosition, Rest;
      var nasize, nhsize := NewSizes(ek);
      Resize(nasize, nhsize);
    }

    /** The candidates for the array part, slice by slice, and the entries. */
    method CountEntries(ek: Key) returns (nums: array<nat>, totaluse: nat, narray: nat)
      requires Valid() && ek != KNil
      ensures fresh(nums) && nums.Length == MAXABITS + 1
      ensures totaluse == CountArray(arr[..], arr.Length) + Live(node[..], 0) + 1
      ensures narray == CountArray(arr[..], arr.Length) + LiveUpTo(node[..], 0, MAXASIZE) + One(InArray(MAXASIZE, ek))
      ensures forall l: nat | l <= MAXABITS :: Prefix(nums[..], l) == Candidates(arr[..], node[..], ek, Pow2(l))
    {
      hide Hash, Used, MainPosition, Live, LiveUpTo, CountArray, Prefix, Pow2, InArray;
      nums := new nat[MAXABITS + 1](_ => 0);
      var ause := NumUseArray(nums);
      totaluse, narray := NumUseHash(nums, ause);
      totaluse := totaluse + ause;
      var one := CountInt(ek, nums);
      narray := narray + one;
      totaluse := totaluse + 1;
    }

    /** The counting part of `rehash`: the hash part gets room for every entry
        that stays outside the array, and for `ek` if it does. */
    method NewSizes(ek: Key) returns (nasize: nat, nhsize: nat)
      requires Valid() && ek != KNil && !InArray(arr.Length, ek) && !Present(node[..], ek)
      ensures nasize <= MAXASIZE && nhsize == Rest(arr[..], node[..], nasize) + One(!InArray(nasize, ek))
    {
      hide Hash, Used, MainPosition, Live, LiveUpTo, CountArray, Best, Prefix, Pow2, Candidates;
      ghost var A, N := arr[..], node[..];
      var nums, totaluse, narray := CountEntries(ek);
      ghost var counts := nums[..];
      CountsFit(A, N, chains, ek, counts, narray);
      var na;
      nasize, na := ComputeSizes(nums[..], narray);
      RoomForAll(A, N, ek, counts, nasize, na);
      nhsize := totaluse - na;
    }

    /** `luaH_resize`, when all entries fit. */
    method Resize(nasize: nat, nhsize: nat)
      requires Valid() && nasize <= MAXASIZE && Rest(arr[..], node[..], nasize) <= nhsize
      modifies this, arr, node
      ensures Valid() && (forall x :: At(x) == old(At(x))) && arr.Length == nasize
      ensures Used(node[..], 0) <= old(Rest(arr[..], node[..], nasize)) && nhsize <= node.Length && (dummy <==> nhsize == 0)
      ensures fresh(node) && (arr == old(arr) || fresh(arr))
      decreases 1, 0, 1
    {
      hide Hash, Used, Lookup, MainPosition, Unique, Blank, Refilled;
      ghost var A, N := arr[..], node[..];
      var oldarr, oldnode := arr, node;
      OldNodes(N, chains);
      NewParts(nasize, nhsize);
      if nasize < oldarr.Length { RefillFromArray(oldarr, nasize, nhsize, A, N); }
      RefillFromNodes(oldnode, nasize, nhsize, A, N);
      AllRefilled(A, N, nasize);
    }

    /** The new vectors of `luaH_resize`; the old ones are still in memory. */
    method NewParts(nasize: nat, nhsize: nat)
      requires Valid() && nasize <= MAXASIZE
      modifies this
      ensures Refilled(old(arr[..]), old(node[..]), nasize, if nasize <= old(arr.Length) then nasize else old(arr.Length), old(node.Length))
      ensures fresh(node) && (arr == old(arr) || fresh(arr)) && (nasize < old(arr.Length) ==> fresh(arr))
      ensures nhsize <= node.Length && (dummy <==> nhsize == 0)
    {
      hide Hash, Used, Lookup, MainPosition, Refilled;
      ghost var A, N := arr[..], node[..];
      var oldasize := arr.Length;
      if nasize > oldasize { SetArrayVector(nasize); }
      SetNodeVector(nhsize);
      if nasize < oldasize { CutArray(nasize); }
      RefillStart(A, N, nasize);
    }

    lemma AllRefilled(A: seq<Value>, N: seq<Node>, size: nat)
      requires Refilled(A, N, size, |A|, 0) && Unique(N)
      ensures Valid() && (forall x :: At(x) == Lookup(A, N, x)) && arr.Length == size && Used(node[..], 0) <= Rest(A, N, size)
    {
      SpilledMost(A, N, size, |A|, 0);
      hide Hash, Used;
      forall x ensures At(x) == Lookup(A, N, x) {
        assert forall n: nat | n < |N| && N[n].key == x && x != KNil :: Keyed(N, n);
      }
    }

    /** Nothing is in the new node vector yet. */
    lemma RefillStart(A: seq<Value>, N: seq<Node>, size: nat)
      requires Sound() && TakenFrom(lastfree) && (forall n: nat | n < node.Length :: !Keyed(node[..], n)) && Used(node[..], 0) == 0
      requires arr.Length == size && forall i | 0 <= i < size :: arr[i] == if i < |A| then A[i] else Nil
      ensures Refilled(A, N, size, if size <= |A| then size else |A|, |N|)
    {
      var i := if size <= |A| then size else |A|;
      hide Hash, Used;
      forall x ensures At(x) == SoFar(A, N, i, |N|, x) {
        if InArray(size, x) { assert arr[..][x.i - 1] == arr[x.i - 1]; }
        forall n: nat | n < node.Length ensures node[..][n].key == KNil { assert !Keyed(node[..], n); }
      }
    }

    /** The entries of the vanishing slice. */
    method RefillFromArray(oldarr: array<Value>, nasize: nat, nhsize: nat, ghost A: seq<Value>, ghost N: seq<Node>)
      requires oldarr[..] == A && oldarr != arr && nasize <= |A| && Refilled(A, N, nasize, nasize, |N|)
      requires Rest(A, N, nasize) <= nhsize <= node.Length && (dummy <==> nhsize == 0)
      modifies this, arr, node
      ensures Refilled(A, N, nasize, |A|, |N|) && node == old(node) && arr == old(arr) && dummy == old(dummy)
      decreases 1, 0, 0
    {
      hide Hash, Used, Lookup, MainPosition;
      var i := nasize;
      while i < oldarr.Length
        invariant nasize <= i <= oldarr.Length && Refilled(A, N, nasize, i, |N|) && oldarr[..] == A
        invariant node == old(node) && arr == old(arr) && dummy == old(dummy)
      {
        if oldarr[i] != Nil {
          RoomToRefill(A, N, nasize, i, |N|, i + 1, |N|, KInt(i + 1));
          Assign(KInt(i + 1), oldarr[i]);
        }
        i := i + 1;
      }
    }

    /** The entries of the old hash part, from the last to the first. */
    method RefillFromNodes(oldnode: array<Node>, nasize: nat, nhsize: nat, ghost A: seq<Value>, ghost N: seq<Node>)
      requires oldnode[..] == N && oldnode != node && Refilled(A, N, nasize, |A|, |N|)
      requires Unique(N) && Blank(N) && forall n: nat | Keyed(N, n) :: !InArray(|A|, N[n].key)
      requires Rest(A, N, nasize) <= nhsize <= node.Length && (dummy <==> nhsize == 0)
      modifies this, arr, node
      ensures Refilled(A, N, nasize, |A|, 0) && node == old(node) && arr == old(arr) && dummy == old(dummy)
      decreases 1, 0, 0
    {
      hide Hash, Used, Lookup, MainPosition, Unique;
      var j := oldnode.Length;
      while j > 0
        invariant 0 <= j <= oldnode.Length && Refilled(A, N, nasize, |A|, j) && oldnode[..] == N
        invariant node == old(node) && arr == old(arr) && dummy == old(dummy)
      {
        j := j - 1;
        forall x { ValueFromNext(N, j, x); }
        if oldnode[j].val != Nil {
          assert Keyed(N, j);
          RoomToRefill(A, N, nasize, |A|, j + 1, |A|, j, oldnode[j].key);
          Assign(oldnode[j].key, oldnode[j].val);
        }
      }
    }

    // ---- the table as its users see it ----

    /** `luaH_new`. */
    constructor ()
      ensures Valid() && forall x :: At(x) == Nil
      ensures fresh(arr) && fresh(node)
    {
      arr := new Value[0];
      node := new Node[1][Node(KNil, Nil, 0)];
      lastfree, dummy, chains := 0, true, {};
      new;
      assert Pow2(0) == 1;
      BlankHash(node[..]);
      assert forall n: nat | n < node.Length :: node[..][n].key == KNil;
    }

    /** `t[k] = v`; a nil key is an error and changes nothing. */
    method Set(k: Key, v: Value) returns (ok: bool)
      requires Valid()
      modifies this, arr, node
      ensures Valid() && ok == (k != KNil)
      ensures forall x :: At(x) == if ok && x == k then v else old(At(x))
      ensures (node == old(node) || fresh(node)) && (arr == old(arr) || fresh(arr))
    {
      hide Hash, Used, Lookup, MainPosition;
      if k == KNil { return false; }
      Assign(k, v);
      return true;
    }

    /** `luaH_resizearray`, as it is called: to make the array larger. */
    method ResizeArray(nasize: nat)
      requires Valid() && arr.Length <= nasize <= MAXASIZE
      modifies this, arr, node
      ensures Valid() && (forall x :: At(x) == old(At(x))) && arr.Length == nasize
      ensures fresh(node) && (arr == old(arr) || fresh(arr))
    {
      hide Hash, Used, Lookup, MainPosition, Rest;
      RestFits(arr[..], node[..], chains, nasize, dummy);
      Resize(nasize, if dummy then 0 else node.Length);
    }
  }

  datatype Op = Put(k: Key, v: Value) | GrowArray(n: nat)

  /** What a table built by `ops` holds for `x`. */
  function Meaning(ops: seq<Op>, x: Key): Value {
    if ops == [] then Nil
    else
      var last := ops[|ops| - 1];
      if last.Put? && last.k == x && x != KNil then last.v else Meaning(ops[..|ops| - 1], x)
  }

  /** After any sequence of assignments and array resizings, looking a key up
      gives what was last assigned to it. */
  method Build(ops: seq<Op>) returns (t: Table)
    ensures fresh(t) && t.Valid() && forall x :: t.At(x) == Meaning(ops, x)
  {
    t := new Table();
    var i := 0;
    while i < |ops|
      invariant 0 <= i <= |ops| && fresh(t) && fresh(t.arr) && fresh(t.node) && t.Valid()
      invariant forall x :: t.At(x) == Meaning(ops[..i], x)
    {
      hide Hash, Used, Lookup, MainPosition;
      assert ops[..i + 1][..i] == ops[..i];
      match ops[i] {
        case Put(k, v) => var _ := t.Set(k, v);
        case GrowArray(n) => if t.arr.Length <= n <= MAXASIZE { t.ResizeArray(n); }
      }
      i := i + 1;
    }
    assert ops[..|ops|] == ops;
  }
}
