/** Traversal and length: `luaH_next` and `luaH_getn`. */
module TableWalk {
  import opened Powers
  import opened TableModel
  import opened TableSizes
  import opened TableCount
  import opened TableHeap

  // ---- the order of a traversal ----

  /** Slots are numbered from 1: the array part, then the nodes. */
  function SlotKey(A: seq<Value>, N: seq<Node>, i: nat): Key
    requires 1 <= i <= |A| + |N|
  {
    if i <= |A| then KInt(i) else N[i - |A| - 1].key
  }

  function SlotValue(A: seq<Value>, N: seq<Node>, i: nat): Value
    requires 1 <= i <= |A| + |N|
  {
    if i <= |A| then A[i - 1] else N[i - |A| - 1].val
  }

  /** Keys of the hash part are unique, and none belongs to the array part. */
  ghost predicate Tidy(A: seq<Value>, N: seq<Node>) {
    Unique(N) && Blank(N) && forall n: nat | Keyed(N, n) :: !InArray(|A|, N[n].key)
  }

  lemma TableTidy(t: Table)
    requires t.Valid()
    ensures Tidy(t.arr[..], t.node[..]) && |t.node[..]| > 0
  {
    hide Hash, Unique, Blank, InArray;
    OldNodes(t.node[..], t.chains);
  }

  lemma UniqueValue(N: seq<Node>, n: nat)
    requires Unique(N) && Keyed(N, n)
    ensures HashValue(N, N[n].key) == N[n].val
  {
    assert forall m: nat | m < |N| && N[m].key == N[n].key :: Keyed(N, m);
  }

  /** A live slot holds the value of its key, and is the only one with it. */
  lemma SlotIsEntry(A: seq<Value>, N: seq<Node>, i: nat)
    requires Tidy(A, N) && 1 <= i <= |A| + |N|
    ensures SlotKey(A, N, i) != KNil ==> Lookup(A, N, SlotKey(A, N, i)) == SlotValue(A, N, i)
    ensures SlotValue(A, N, i) != Nil ==> SlotKey(A, N, i) != KNil
    ensures SlotKey(A, N, i) != KNil ==> forall j | 1 <= j <= |A| + |N| && SlotKey(A, N, j) == SlotKey(A, N, i) :: j == i
  {
    hide HashValue;
    if i > |A| {
      var n := i - |A| - 1;
      if N[n].key != KNil { assert Keyed(N, n); UniqueValue(N, n); } else { assert !Keyed(N, n); }
    }
    forall j | 1 <= j <= |A| + |N| && SlotKey(A, N, j) == SlotKey(A, N, i) && SlotKey(A, N, i) != KNil ensures j == i {
      if j > |A| { assert Keyed(N, j - |A| - 1); }
      if i > |A| { assert Keyed(N, i - |A| - 1); }
    }
  }

  lemma EntryHasSlot(A: seq<Value>, N: seq<Node>, k: Key) returns (i: nat)
    requires Unique(N) && Lookup(A, N, k) != Nil
    ensures 1 <= i <= |A| + |N| && SlotKey(A, N, i) == k && SlotValue(A, N, i) == Lookup(A, N, k)
  {
    if InArray(|A|, k) {
      i := k.i;
    } else {
      var n: nat :| n < |N| && N[n].key == k;
      assert Keyed(N, n);
      UniqueValue(N, n);
      i := |A| + n + 1;
    }
  }

  datatype Found = BadKey | End | Entry(k: Key, v: Value)

  /** `findindex`. */
  method FindIndex(t: Table, k: Key) returns (ok: bool, i: nat)
    requires t.Valid()
    ensures k == KNil ==> ok && i == 0
    ensures k != KNil && ok ==> 1 <= i <= t.arr.Length + t.node.Length && SlotKey(t.arr[..], t.node[..], i) == k
    ensures !ok ==> !InArray(t.arr.Length, k) && !Present(t.node[..], k)
  {
    hide Hash, MainPosition;
    if k == KNil { return true, 0; }
    if k.KInt? && 1 <= k.i <= t.arr.Length { return true, k.i; }
    var n := t.FindNode(k);
    if n < 0 { return false, 0; }
    return true, n + 1 + t.arr.Length;
  }

  /** `luaH_next`: the first live slot after that of `k`. */
  method Next(t: Table, k: Key) returns (r: Found, ghost i: nat, ghost j: nat)
    requires t.Valid()
    ensures r.BadKey? ==> k != KNil && !InArray(t.arr.Length, k) && !Present(t.node[..], k)
    ensures !r.BadKey? ==> i <= t.arr.Length + t.node.Length && (if k == KNil then i == 0 else 1 <= i && SlotKey(t.arr[..], t.node[..], i) == k)
    ensures r.Entry? ==> i < j <= t.arr.Length + t.node.Length && r.v != Nil
    ensures r.Entry? ==> SlotKey(t.arr[..], t.node[..], j) == r.k && SlotValue(t.arr[..], t.node[..], j) == r.v
    ensures !r.BadKey? ==> forall l | i < l <= t.arr.Length + t.node.Length && (r.Entry? ==> l < j) :: SlotValue(t.arr[..], t.node[..], l) == Nil
  {
    hide Hash, MainPosition;
    var ok, i0 := FindIndex(t, k);
    i, j := i0, 0;
    if !ok { return BadKey, i, j; }
    var x := i0;
    while x < t.arr.Length
      invariant i0 <= x && (i0 <= t.arr.Length ==> x <= t.arr.Length) && (i0 > t.arr.Length ==> x == i0)
      invariant forall l | i0 < l <= x && l <= t.arr.Length :: SlotValue(t.arr[..], t.node[..], l) == Nil
    {
      if t.arr[x] != Nil { return Entry(KInt(x + 1), t.arr[x]), i, x + 1; }
      x := x + 1;
    }
    x := x - t.arr.Length;
    while x < t.node.Length
      invariant 0 <= x <= t.node.Length && i0 <= x + t.arr.Length
      invariant forall l | i0 < l <= x + t.arr.Length :: SlotValue(t.arr[..], t.node[..], l) == Nil
    {
      if t.node[x].val != Nil { return Entry(t.node[x].key, t.node[x].val), i, t.arr.Length + x + 1; }
      x := x + 1;
    }
    return End, i, j;
  }

  /** A whole traversal meets every key that has a value, and each only once. */
  method Keys(t: Table) returns (ks: seq<Key>)
    requires t.Valid()
    ensures forall k :: k in ks <==> t.At(k) != Nil
    ensures forall a, b | 0 <= a < b < |ks| :: ks[a] != ks[b]
  {
    ghost var A, N := t.arr[..], t.node[..];
    TableTidy(t);
    ks := [];
    var k := KNil;
    ghost var at: nat := 0;
    while true
      invariant at <= |A| + |N| && (if k == KNil then at == 0 else 1 <= at && SlotKey(A, N, at) == k)
      invariant Gathered(A, N, at, ks)
      decreases |A| + |N| - at
    {
      hide Hash, MainPosition, Gathered, Tidy;
      var r, i, j := Next(t, k);
      if k != KNil {
        PresentSlot(A, N, at);
        SlotIsEntry(A, N, at);
      }
      assert !r.BadKey? && i == at;
      if r.Entry? {
        SlotIsEntry(A, N, j);
        GatherOne(A, N, at, j, ks);
        ks := ks + [r.k];
        k, at := r.k, j;
      } else {
        assert r.End?;
        forall l | at < l <= |A| + |N| ensures SlotValue(A, N, l) == Nil { assert SlotValue(t.arr[..], t.node[..], l) == Nil; }
        GatherAll(A, N, at, ks);
        break;
      }
    }
  }

  lemma PresentSlot(A: seq<Value>, N: seq<Node>, i: nat)
    requires 1 <= i <= |A| + |N| && SlotKey(A, N, i) != KNil
    ensures InArray(|A|, SlotKey(A, N, i)) || Present(N, SlotKey(A, N, i))
  {
  }

  /** `ks` are the keys of the live slots up to `at`. */
  ghost predicate Gathered(A: seq<Value>, N: seq<Node>, at: nat, ks: seq<Key>)
    requires at <= |A| + |N|
  {
    && (forall a, b | 0 <= a < b < |ks| :: ks[a] != ks[b])
    && (forall i | 1 <= i <= at && SlotValue(A, N, i) != Nil :: SlotKey(A, N, i) in ks)
    && (forall k | k in ks :: exists i :: 1 <= i <= at && SlotKey(A, N, i) == k && SlotValue(A, N, i) != Nil)
  }

  lemma GatherOne(A: seq<Value>, N: seq<Node>, at: nat, j: nat, ks: seq<Key>)
    requires Tidy(A, N) && at < j <= |A| + |N| && Gathered(A, N, at, ks)
    requires SlotValue(A, N, j) != Nil && forall l | at < l < j :: SlotValue(A, N, l) == Nil
    ensures Gathered(A, N, j, ks + [SlotKey(A, N, j)])
  {
    hide Tidy;
    SlotIsEntry(A, N, j);
    var ks' := ks + [SlotKey(A, N, j)];
    forall i | 1 <= i <= j && SlotValue(A, N, i) != Nil ensures SlotKey(A, N, i) in ks' {
      assert i <= at || i == j;
    }
    forall k | k in ks' ensures exists i :: 1 <= i <= j && SlotKey(A, N, i) == k && SlotValue(A, N, i) != Nil {
      if k in ks {
        var i :| 1 <= i <= at && SlotKey(A, N, i) == k && SlotValue(A, N, i) != Nil;
        assert 1 <= i <= j;
      } else {
        assert k == SlotKey(A, N, j);
      }
    }
    assert SlotKey(A, N, j) !in ks;
  }

  lemma GatherAll(A: seq<Value>, N: seq<Node>, at: nat, ks: seq<Key>)
    requires Tidy(A, N) && at <= |A| + |N| && Gathered(A, N, at, ks)
    requires forall l | at < l <= |A| + |N| :: SlotValue(A, N, l) == Nil
    ensures forall k :: k in ks <==> Lookup(A, N, k) != Nil
  {
    hide Lookup;
    forall k ensures k in ks <==> Lookup(A, N, k) != Nil {
      if k in ks {
        var i :| 1 <= i <= at && SlotKey(A, N, i) == k && SlotValue(A, N, i) != Nil;
        SlotIsEntry(A, N, i);
      }
      if Lookup(A, N, k) != Nil { var i := EntryHasSlot(A, N, k); }
    }
  }

  // ---- length ----

  const MAX_INT := 0x7FFF_FFFF

  /** `n` is a boundary: `t[n]` has a value, or n is 0, and `t[n+1]` has none. */
  ghost predicate Boundary(t: Table, n: nat)
    reads t, t.arr, t.node
  {
    (n == 0 || t.At(KInt(n)) != Nil) && t.At(KInt(n + 1)) == Nil
  }

  /** If 1..m all have values, the table has at least m entries. */
  lemma {:induction false} DenseCount(A: seq<Value>, N: seq<Node>, m: nat)
    requires Tidy(A, N) && forall i | 1 <= i <= m :: Lookup(A, N, KInt(i)) != Nil
    ensures m <= CountArray(A, m) + LiveUpTo(N, 0, m)
  {
    if m > 0 {
      DenseCount(A, N, m - 1);
      var k := KInt(m);
      if !InArray(|A|, k) {
        var n: nat :| n < |N| && N[n].key == k;
        assert Keyed(N, n);
        UniqueValue(N, n);
        LiveOneMore(N, 0, m, n);
      } else {
        LiveUpToMono(N, 0, m);
      }
    }
  }

  lemma {:induction false} LiveUpToMono(N: seq<Node>, i: nat, m: nat)
    requires i <= |N| && m > 0
    ensures LiveUpTo(N, i, m - 1) <= LiveUpTo(N, i, m)
    decreases |N| - i
  {
    if i < |N| { LiveUpToMono(N, i + 1, m); }
  }

  lemma {:induction false} LiveOneMore(N: seq<Node>, i: nat, m: nat, n: nat)
    requires i <= n < |N| && N[n].key == KInt(m) && N[n].val != Nil && m > 0
    ensures LiveUpTo(N, i, m) >= LiveUpTo(N, i, m - 1) + 1
    decreases |N| - i
  {
    if i < n { LiveOneMore(N, i + 1, m, n); } else { LiveUpToMono(N, i + 1, m); }
  }

  lemma {:induction false} LiveMost(N: seq<Node>, i: nat)
    requires i <= |N|
    ensures Live(N, i) <= |N| - i
    decreases |N| - i
  {
    if i < |N| { LiveMost(N, i + 1); }
  }

  lemma {:induction false} CountMost(A: seq<Value>, m: nat)
    ensures CountArray(A, m) <= |A|
  {
    if m > 0 && m <= |A| { CountSmall(A, m); } else if m > |A| { CountArrayBeyond(A, m); CountSmall(A, |A|); }
  }

  lemma {:induction false} CountSmall(A: seq<Value>, m: nat)
    ensures CountArray(A, m) <= m
  {
    if m > 0 { CountSmall(A, m - 1); }
  }

  lemma DenseBound(t: Table, m: nat)
    requires t.Valid() && forall i | 1 <= i <= m :: t.At(KInt(i)) != Nil
    ensures m <= t.arr.Length + t.node.Length
  {
    TableTidy(t);
    DenseCount(t.arr[..], t.node[..], m);
    CountMost(t.arr[..], m);
    LiveUpToLive(t.node[..], 0, m);
    LiveMost(t.node[..], 0);
  }

  /** `unbound_search`. */
  method UnboundSearch(t: Table, j0: nat) returns (n: nat)
    requires t.Valid() && (j0 == 0 || t.At(KInt(j0)) != Nil)
    ensures Boundary(t, n)
  {
    hide Hash, Lookup;
    var i, j := j0, j0 + 1;
    while true
      invariant 0 <= i < j && (i == 0 || t.At(KInt(i)) != Nil)
      decreases MAX_INT - j
    {
      var v := t.Get(KInt(j));
      if v == Nil { break; }
      i := j;
      if j > MAX_INT / 2 {
        n := LinearSearch(t);
        return;
      }
      j := j * 2;
    }
    n := BinarySearch(t, i, j);
  }

  /** When the doubling would overflow. */
  method LinearSearch(t: Table) returns (n: nat)
    requires t.Valid()
    ensures Boundary(t, n)
  {
    hide Hash, Lookup;
    var i := 1;
    while true
      invariant i >= 1 && forall l | 1 <= l < i :: t.At(KInt(l)) != Nil
      invariant i - 1 <= t.arr.Length + t.node.Length
      decreases t.arr.Length + t.node.Length + 1 - i
    {
      var v := t.Get(KInt(i));
      if v == Nil { return i - 1; }
      assert forall l | 1 <= l <= i :: t.At(KInt(l)) != Nil;
      DenseBound(t, i);
      i := i + 1;
    }
  }

  method BinarySearch(t: Table, i0: nat, j0: nat) returns (n: nat)
    requires t.Valid() && i0 < j0 && (i0 == 0 || t.At(KInt(i0)) != Nil) && t.At(KInt(j0)) == Nil
    ensures Boundary(t, n)
  {
    hide Hash, Lookup;
    var i, j := i0, j0;
    while j - i > 1
      invariant i < j && (i == 0 || t.At(KInt(i)) != Nil) && t.At(KInt(j)) == Nil
    {
      var m := (i + j) / 2;
      var v := t.Get(KInt(m));
      if v == Nil { j := m; } else { i := m; }
    }
    n := i;
  }

  /** `luaH_getn`. */
  method GetN(t: Table) returns (n: nat)
    requires t.Valid()
    ensures Boundary(t, n)
  {
    var j := t.arr.Length;
    if j > 0 && t.arr[j - 1] == Nil {
      var i := 0;
      while j - i > 1
        invariant 0 <= i < j <= t.arr.Length && (i == 0 || t.arr[i - 1] != Nil) && t.arr[j - 1] == Nil
      {
        var m := (i + j) / 2;
        if t.arr[m - 1] == Nil { j := m; } else { i := m; }
      }
      return i;
    }
    if t.dummy {
      assert !Keyed(t.node[..], 0);
      return j;
    }
    n := UnboundSearch(t, j);
  }
}
