/** The table of short strings of `lstring.c`: buckets of strings linked through
  the strings themselves, resized in place. */
module StringTable {
  import opened Powers

  /** A string object: its address, and what is fixed when it is created. */
  datatype Str = Str(addr: nat, hash: nat, text: string)

  datatype Link = Null | To(s: Str)

  const MAX_INT := 0x7FFF_FFFF

  // ---- chains ----

  /** From `p` the links lead through `L` and end. */
  ghost predicate Chain(hnext: map<Str, Link>, p: Link, L: seq<Str>)
    decreases |L|
  {
    if L == [] then p == Null
    else p == To(L[0]) && L[0] in hnext && Chain(hnext, hnext[L[0]], L[1..])
  }

  ghost predicate NoDup(L: seq<Str>) {
    forall i, j | 0 <= i < j < |L| :: L[i] != L[j]
  }

  lemma {:induction false} ChainFrame(h: map<Str, Link>, h': map<Str, Link>, p: Link, L: seq<Str>)
    requires Chain(h, p, L) && forall s | s in L && s in h :: s in h' && h'[s] == h[s]
    ensures Chain(h', p, L)
    decreases |L|
  {
    if L != [] { ChainFrame(h, h', h[L[0]], L[1..]); }
  }

  // ---- the table ----

  /** The buckets, and the strings `R` that have been taken out and are not put
      back yet: every string of `all` is in one place. */
  ghost predicate Holds(lists: seq<seq<Str>>, R: seq<Str>, all: set<Str>) {
    && (forall b | 0 <= b < |lists| :: NoDup(lists[b])) && NoDup(R)
    && (forall b, c, s | 0 <= b < |lists| && 0 <= c < |lists| && s in lists[b] && s in lists[c] :: b == c)
    && (forall b, s | 0 <= b < |lists| && s in lists[b] :: s in all && s !in R)
    && (forall s | s in R :: s in all)
    && (forall s | s in all :: s in R || Somewhere(lists, s))
  }

  ghost predicate Somewhere(lists: seq<seq<Str>>, s: Str) {
    exists b :: 0 <= b < |lists| && s in lists[b]
  }

  ghost predicate Linked(heads: seq<Link>, hnext: map<Str, Link>, lists: seq<seq<Str>>) {
    |heads| == |lists| && forall b | 0 <= b < |heads| :: Chain(hnext, heads[b], lists[b])
  }

  /** All strings of a bucket belong to it. */
  ghost predicate InBucket(L: seq<Str>, size: nat, b: int)
    requires size > 0
  {
    forall s | s in L :: s.hash % size == b
  }

  /** The first of `R` is put in front of bucket `h`. */
  lemma PutBack(heads: seq<Link>, hnext: map<Str, Link>, lists: seq<seq<Str>>, p: Link, R: seq<Str>, all: set<Str>, h: nat)
    requires Linked(heads, hnext, lists) && Holds(lists, R, all) && Chain(hnext, p, R) && R != [] && h < |lists|
    ensures var hnext' := hnext[R[0] := heads[h]]; var lists' := lists[h := [R[0]] + lists[h]];
      && Linked(heads[h := To(R[0])], hnext', lists') && Holds(lists', R[1..], all) && Chain(hnext', hnext[R[0]], R[1..])
  {
    var s := R[0];
    var hnext' := hnext[s := heads[h]];
    var lists' := lists[h := [s] + lists[h]];
    PutBackLinked(heads, hnext, lists, R, all, h);
    forall x | x in R[1..] && x in hnext ensures x in hnext' && hnext'[x] == hnext[x] {
      var i :| 0 <= i < |R[1..]| && R[1..][i] == x;
      assert R[i + 1] == x;
    }
    ChainFrame(hnext, hnext', hnext[s], R[1..]);
    PutBackHolds(lists, R, all, h);
  }

  lemma PutBackLinked(heads: seq<Link>, hnext: map<Str, Link>, lists: seq<seq<Str>>, R: seq<Str>, all: set<Str>, h: nat)
    requires Linked(heads, hnext, lists) && Holds(lists, R, all) && R != [] && h < |lists|
    ensures Linked(heads[h := To(R[0])], hnext[R[0] := heads[h]], lists[h := [R[0]] + lists[h]])
  {
    var s := R[0];
    var hnext' := hnext[s := heads[h]];
    var heads', lists' := heads[h := To(s)], lists[h := [s] + lists[h]];
    assert s in R;
    forall b | 0 <= b < |heads| ensures Chain(hnext', heads'[b], lists'[b]) {
      ChainFrame(hnext, hnext', heads[b], lists[b]);
      if b == h { assert ([s] + lists[h])[1..] == lists[h]; }
    }
  }

  lemma PutBackHolds(lists: seq<seq<Str>>, R: seq<Str>, all: set<Str>, h: nat)
    requires Holds(lists, R, all) && R != [] && h < |lists|
    ensures Holds(lists[h := [R[0]] + lists[h]], R[1..], all)
  {
    var s := R[0];
    var L := lists[h := [s] + lists[h]];
    assert s in R;
    forall x ensures x in R <==> x == s || x in R[1..] {}
    forall i | 0 <= i < |R| - 1 ensures R[1..][i] != s { assert R[1..][i] == R[i + 1]; }
    assert NoDup(R[1..]) by {
      forall i, j | 0 <= i < j < |R| - 1 ensures R[1..][i] != R[1..][j] { assert R[i + 1] != R[j + 1]; }
    }
    forall b | 0 <= b < |L| ensures NoDup(L[b]) {
      if b == h { forall i, j | 0 <= i < j < |L[b]| ensures L[b][i] != L[b][j] { assert L[b][j] == lists[h][j - 1]; assert lists[h][j - 1] in lists[h]; } }
    }
    forall b, x | 0 <= b < |L| ensures x in L[b] <==> x in lists[b] || (b == h && x == s) {}
    forall x | x in all ensures x in R[1..] || Somewhere(L, x) {
      if x == s { assert s in L[h]; } else if x !in R[1..] { var b :| 0 <= b < |lists| && x in lists[b]; assert x in L[b]; }
    }
  }

  /** Emptying a bucket: its strings are waiting. */
  lemma TakeOut(heads: seq<Link>, hnext: map<Str, Link>, lists: seq<seq<Str>>, all: set<Str>, i: nat)
    requires Linked(heads, hnext, lists) && Holds(lists, [], all) && i < |lists|
    ensures Linked(heads[i := Null], hnext, lists[i := []]) && Holds(lists[i := []], lists[i], all)
  {
    var L := lists[i := []];
    forall x | x in all ensures x in lists[i] || Somewhere(L, x) {
      assert x !in [];
      var b :| 0 <= b < |lists| && x in lists[b];
      if b != i { assert x in L[b]; }
    }
  }

  // ---- remainders of powers of two ----

  lemma MulMono(a: int, k: int)
    requires a > 0 && k >= 1
    ensures a * k >= a
  {
  }

  lemma ModOf(a: int, q: int, s: int)
    requires a > 0 && 0 <= s < a
    ensures (a * q + s) % a == s
  {
    var x := a * q + s;
    var q', s' := x / a, x % a;
    assert a * (q - q') == s' - s;
    assert a * (q' - q) == s - s';
    if q > q' { MulMono(a, q - q'); } else if q' > q { MulMono(a, q' - q); }
  }

  lemma ModMod(x: int, a: int, b: int)
    requires a > 0 && b > 0
    ensures a * b > 0 && (x % (a * b)) % a == x % a
  {
    MulMono(a, b);
    var m := a * b;
    var q, r := x / m, x % m;
    assert x == m * q + r;
    var s, k := r % a, r / a;
    assert r == a * k + s;
    assert m * q == a * (b * q);
    assert a * (b * q + k) == a * (b * q) + a * k;
    ModOf(a, b * q + k, s);
  }

  lemma PowerPositive(n: nat)
    requires PowerOfTwo(n)
    ensures n > 0
  {
  }

  lemma NothingInBucket(size: nat, b: int)
    requires size > 0
    ensures InBucket([], size, b)
  {
  }

  /** Where a string of bucket `i` goes: to the same bucket, to a new one, or to
      one that was rehashed before. */
  lemma NewBucket(x: nat, oldsize: nat, newsize: nat, i: nat)
    requires PowerOfTwo(oldsize) && PowerOfTwo(newsize) && x % oldsize == i
    ensures var h := x % newsize; h == i || h >= oldsize || h < i
  {
    var a: nat :| oldsize == Pow2(a);
    var b: nat :| newsize == Pow2(b);
    if a <= b {
      Pow2Add(a, b - a);
      ToLarger(x, oldsize, Pow2(b - a));
    } else {
      Pow2Add(b, a - b);
      ToSmaller(x, newsize, Pow2(a - b));
    }
  }

  lemma SmallMod(h: nat, m: nat)
    requires m > 0
    ensures h < m ==> h % m == h
    ensures h % m <= h
  {
  }

  lemma ToLarger(x: nat, m: nat, k: nat)
    requires m > 0 && k > 0
    ensures m * k > 0
    ensures var h := x % (m * k); h == x % m || h >= m
  {
    ModMod(x, m, k);
    SmallMod(x % (m * k), m);
  }

  lemma ToSmaller(x: nat, m: nat, k: nat)
    requires m > 0 && k > 0
    ensures m * k > 0
    ensures x % m <= x % (m * k)
  {
    ModMod(x, m, k);
    SmallMod(x % (m * k), m);
  }

  lemma Lengthened(H: seq<Link>, H': seq<Link>, hnext: map<Str, Link>, L: seq<seq<Str>>, L': seq<seq<Str>>, all: set<Str>)
    requires Linked(H, hnext, L) && Holds(L, [], all) && |H| <= |H'| == |L'| && L'[..|L|] == L
    requires (forall j | 0 <= j < |H| :: H'[j] == H[j]) && (forall j | |H| <= j < |H'| :: H'[j] == Null && L'[j] == [])
    ensures Linked(H', hnext, L') && Holds(L', [], all)
  {
    forall b | 0 <= b < |L| ensures L'[b] == L[b] { assert L'[..|L|][b] == L'[b]; }
    forall s | s in all ensures Somewhere(L', s) {
      assert s !in [];
      var b :| 0 <= b < |L| && s in L[b];
      assert s in L'[b];
    }
  }

  lemma HeadOf(H: seq<Link>, hnext: map<Str, Link>, L: seq<seq<Str>>, i: nat)
    requires Linked(H, hnext, L) && i < |H|
    ensures Chain(hnext, H[i], L[i])
  {
  }

  lemma NotEnded(hnext: map<Str, Link>, p: Link, R: seq<Str>)
    requires Chain(hnext, p, R) && p != Null
    ensures R != [] && p.s == R[0] && R[0] in hnext
  {
  }

  lemma Ended(hnext: map<Str, Link>, R: seq<Str>)
    requires Chain(hnext, Null, R)
    ensures R == []
  {
  }

  lemma BucketMore(L: seq<Str>, R: seq<Str>, newsize: nat, h: nat, oldsize: nat, i: nat)
    requires newsize > 0 && oldsize > 0 && R != [] && R[0].hash % newsize == h && InBucket(R, oldsize, i)
    ensures InBucket(L, newsize, h) ==> InBucket([R[0]] + L, newsize, h)
    ensures InBucket(R[1..], oldsize, i) && R[0].hash % oldsize == i
  {
    assert R[0] in R;
  }

  lemma BucketBelow(L: seq<Str>, size: nat, b: int)
    requires size > 0 && InBucket(L, size, b) && L != []
    ensures b < size
  {
    assert L[0] in L;
  }

  /** The assertion of `luaS_resize`: the vanishing slice is empty. */
  lemma VanishingEmpty(H: seq<Link>, hnext: map<Str, Link>, L: seq<seq<Str>>, newsize: nat)
    requires Linked(H, hnext, L) && newsize > 0 && forall b | 0 <= b < |L| :: InBucket(L[b], newsize, b)
    ensures forall b | newsize <= b < |L| :: L[b] == [] && H[b] == Null
  {
    forall b | newsize <= b < |L| ensures L[b] == [] && H[b] == Null {
      if L[b] != [] { BucketBelow(L[b], newsize, b); }
    }
  }

  lemma Shortened(H: seq<Link>, hnext: map<Str, Link>, L: seq<seq<Str>>, newsize: nat, all: set<Str>)
    requires Linked(H, hnext, L) && Holds(L, [], all) && newsize <= |L| && forall b | newsize <= b < |L| :: L[b] == []
    ensures Linked(H[..newsize], hnext, L[..newsize]) && Holds(L[..newsize], [], all)
  {
    forall s | s in all ensures Somewhere(L[..newsize], s) {
      assert s !in [];
      var b :| 0 <= b < |L| && s in L[b];
      assert L[..newsize][b] == L[b];
    }
  }

  lemma NotInTable(L: seq<seq<Str>>, all: set<Str>, text: string, size: nat, hashOf: string -> nat)
    requires Holds(L, [], all) && size > 0 && Bucketed(L, size)
    requires (forall s | s in all :: s.hash == hashOf(s.text)) && forall s | s in L[hashOf(text) % size] :: s.text != text
    ensures forall s | s in all :: s.text != text
  {
    forall s | s in all ensures s.text != text {
      assert s !in [];
      var b :| 0 <= b < |L| && s in L[b];
      assert s.hash % size == b;
    }
  }

  lemma DoubleSize(n: nat)
    requires PowerOfTwo(n)
    ensures PowerOfTwo(n * 2)
  {
    var i: nat :| n == Pow2(i);
    assert n * 2 == Pow2(i + 1);
  }

  lemma NewStringWaits(L: seq<seq<Str>>, all: set<Str>, ts: Str)
    requires Holds(L, [], all) && ts !in all
    ensures Holds(L, [ts], all + {ts})
  {
    forall s | s in all ensures Somewhere(L, s) { assert s !in []; }
  }

  lemma WaitingChain(H: seq<Link>, hnext: map<Str, Link>, L: seq<seq<Str>>, all: set<Str>, ts: Str)
    requires Linked(H, hnext, L) && Holds(L, [], all) && ts !in all
    ensures var hn := hnext[ts := Null]; Linked(H, hn, L) && Chain(hn, To(ts), [ts])
  {
    var hn := hnext[ts := Null];
    forall b | 0 <= b < |H| ensures Chain(hn, H[b], L[b]) {
      forall s | s in L[b] && s in hnext ensures s in hn && hn[s] == hnext[s] { assert s in all; }
      ChainFrame(hnext, hn, H[b], L[b]);
    }
    assert Chain(hn, Null, []);
    assert [ts][1..] == [];
  }

  lemma InItsBucket(L: seq<seq<Str>>, all: set<Str>, ts: Str, size: nat) returns (j: nat)
    requires Holds(L, [], all) && ts in all && size > 0 && Bucketed(L, size)
    ensures var B := L[ts.hash % size]; j < |B| && B[j] == ts
  {
    assert ts !in [];
    var b :| 0 <= b < |L| && ts in L[b];
    assert ts.hash % size == b;
    j :| 0 <= j < |L[b]| && L[b][j] == ts;
  }

  lemma BucketNoDup(L: seq<seq<Str>>, all: set<Str>, b: nat)
    requires Holds(L, [], all) && b < |L|
    ensures NoDup(L[b])
  {
  }

  lemma RemovedFirst(hnext: map<Str, Link>, p: Link, B: seq<Str>)
    requires Chain(hnext, p, B) && B != []
    ensures B[0] in hnext && Chain(hnext, hnext[B[0]], B[..0] + B[1..])
  {
    assert B[..0] + B[1..] == B[1..];
  }

  lemma NotFirst(hnext: map<Str, Link>, p: Link, B: seq<Str>, ts: Str, j: nat)
    requires Chain(hnext, p, B) && p != To(ts) && j < |B| && B[j] == ts
    ensures j > 0
  {
  }

  lemma FirstInChain(hnext: map<Str, Link>, p: Link, B: seq<Str>, ts: Str, j: nat)
    requires Chain(hnext, p, B) && NoDup(B) && p == To(ts) && j < |B| && B[j] == ts
    ensures j == 0 && ts in hnext
  {
  }

  lemma ChainNext(hnext: map<Str, Link>, B: seq<Str>, x: nat)
    requires x < |B| && Chain(hnext, To(B[x]), B[x..])
    ensures B[x] in hnext && Chain(hnext, hnext[B[x]], B[x + 1..])
    ensures hnext[B[x]] == if x + 1 < |B| then To(B[x + 1]) else Null
    ensures x + 1 < |B| ==> B[x + 1] in hnext && Chain(hnext, To(B[x + 1]), B[x + 1..])
  {
    assert B[x..][1..] == B[x + 1..];
    if x + 1 < |B| { assert B[x + 1..][0] == B[x + 1]; }
  }

  lemma {:induction false} ChainTail(hnext: map<Str, Link>, p: Link, B: seq<Str>, x: nat)
    requires Chain(hnext, p, B) && x < |B|
    ensures Chain(hnext, To(B[x]), B[x..])
    decreases x
  {
    if x == 0 { assert B[0..] == B; } else {
      ChainTail(hnext, hnext[B[0]], B[1..], x - 1);
      assert B[1..][x - 1..] == B[x..];
    }
  }

  lemma TailNoDup(B: seq<Str>)
    requires NoDup(B) && B != []
    ensures NoDup(B[1..])
  {
    forall i, k | 0 <= i < k < |B| - 1 ensures B[1..][i] != B[1..][k] { assert B[i + 1] != B[k + 1]; }
  }

  /** Unlinking the second string of a chain. */
  lemma RemovedSecond(hnext: map<Str, Link>, p: Link, B: seq<Str>)
    requires Chain(hnext, p, B) && NoDup(B) && |B| >= 2
    ensures B[1] in hnext && B[0] in hnext && Chain(hnext[B[0] := hnext[B[1]]], p, [B[0]] + B[2..])
  {
    ChainTail(hnext, p, B, 1);
    ChainNext(hnext, B, 1);
    var h' := hnext[B[0] := hnext[B[1]]];
    forall s | s in B[2..] && s in hnext ensures s in h' && h'[s] == hnext[s] {
      var i :| 0 <= i < |B| - 2 && B[2..][i] == s;
      assert B[i + 2] != B[0];
    }
    ChainFrame(hnext, h', hnext[B[1]], B[2..]);
    assert ([B[0]] + B[2..])[1..] == B[2..];
  }

  /** Unlinking the `j`th string of a chain. */
  lemma {:induction false} RemovedChain(hnext: map<Str, Link>, p: Link, B: seq<Str>, j: nat)
    requires Chain(hnext, p, B) && NoDup(B) && 0 < j < |B|
    ensures B[j] in hnext && B[j - 1] in hnext && Chain(hnext[B[j - 1] := hnext[B[j]]], p, B[..j] + B[j + 1..])
    decreases j
  {
    if j == 1 {
      RemovedSecond(hnext, p, B);
      assert B[..1] + B[2..] == [B[0]] + B[2..];
    } else {
      TailNoDup(B);
      RemovedChain(hnext, hnext[B[0]], B[1..], j - 1);
      assert (B[..j] + B[j + 1..])[1..] == B[1..][..j - 1] + B[1..][j..];
      assert B[0] != B[j - 1];
    }
  }

  /** The whole table after unlinking. */
  lemma RemovedTable(H: seq<Link>, H': seq<Link>, n0: map<Str, Link>, n1: map<Str, Link>, L: seq<seq<Str>>, b: nat, j: nat, all: set<Str>)
    requires Linked(H, n0, L) && Holds(L, [], all) && b < |L| && j < |L[b]|
    requires L[b][j] in n0 && (j > 0 ==> L[b][j - 1] in n0)
    requires if j == 0 then n1 == n0 && H' == H[b := n0[L[b][0]]] else n1 == n0[L[b][j - 1] := n0[L[b][j]]] && H' == H
    requires Chain(n1, H'[b], L[b][..j] + L[b][j + 1..])
    ensures var L' := L[b := L[b][..j] + L[b][j + 1..]]; Linked(H', n1, L') && Holds(L', [], all - {L[b][j]})
  {
    var ts := L[b][j];
    var B := L[b][..j] + L[b][j + 1..];
    var L' := L[b := B];
    forall c | 0 <= c < |L| ensures Chain(n1, H'[c], L'[c]) {
      if c != b {
        forall s | s in L[c] && s in n0 ensures s in n1 && n1[s] == n0[s] { if j > 0 { assert L[b][j - 1] in L[b]; } }
        ChainFrame(n0, n1, H[c], L[c]);
      }
    }
    RemovedMembers(L[b], j);
    forall s | s in all - {ts} ensures Somewhere(L', s) {
      assert s !in [];
      var c :| 0 <= c < |L| && s in L[c];
      assert s in L'[c];
    }
    forall c | 0 <= c < |L'| ensures NoDup(L'[c]) {}
    assert ts in L[b];
  }

  lemma RemovedMembers(B: seq<Str>, j: nat)
    requires NoDup(B) && j < |B|
    ensures NoDup(B[..j] + B[j + 1..]) && forall s :: s in B[..j] + B[j + 1..] <==> s in B && s != B[j]
  {
    var D := B[..j] + B[j + 1..];
    forall i | 0 <= i < |D| ensures D[i] == B[if i < j then i else i + 1] {}
    forall s ensures s in D <==> s in B && s != B[j] {
      if s in B && s != B[j] {
        var i :| 0 <= i < |B| && B[i] == s;
        assert D[if i < j then i else i - 1] == s;
      }
      if s in D { var i :| 0 <= i < |D| && D[i] == s; }
    }
  }

  /** Hashes are those of the contents, and equal contents are equal strings. */
  ghost predicate Interned(all: set<Str>, hashOf: string -> nat) {
    && (forall s | s in all :: s.hash == hashOf(s.text))
    && (forall s, t | s in all && t in all && s.text == t.text :: s == t)
  }

  lemma InternedMore(all: set<Str>, hashOf: string -> nat, ts: Str)
    requires Interned(all, hashOf) && ts.hash == hashOf(ts.text) && forall s | s in all :: s.text != ts.text
    ensures Interned(all + {ts}, hashOf)
  {
  }

  lemma InternedLess(all: set<Str>, hashOf: string -> nat, ts: Str)
    requires Interned(all, hashOf)
    ensures Interned(all - {ts}, hashOf)
  {
  }

  /** Every string is in the bucket of its hash. */
  ghost predicate Bucketed(lists: seq<seq<Str>>, size: nat)
    requires size > 0
  {
    |lists| == size && forall b | 0 <= b < size :: InBucket(lists[b], size, b)
  }

  lemma BucketedMore(lists: seq<seq<Str>>, size: nat, ts: Str)
    requires size > 0 && Bucketed(lists, size)
    ensures var h := ts.hash % size; Bucketed(lists[h := [ts] + lists[h]], size)
  {
  }

  lemma BucketedLess(lists: seq<seq<Str>>, size: nat, b: nat, j: nat)
    requires size > 0 && Bucketed(lists, size) && b < size && j < |lists[b]|
    ensures Bucketed(lists[b := lists[b][..j] + lists[b][j + 1..]], size)
  {
  }

  class Table {
    var hash: array<Link>
    var size: nat
    var nuse: nat
    /** The field `hnext` of every string. */
    var hnext: map<Str, Link>
    /** How strings are hashed (`luaS_hash` with the seed of the state). */
    const hashOf: string -> nat
    ghost var lists: seq<seq<Str>>
    ghost var all: set<Str>

    /** Every short string is in its bucket, once; equal contents are equal
        strings. */
    ghost predicate Valid()
      reads this, hash
    {
      && size == hash.Length == |lists| && size > 0 && PowerOfTwo(size)
      && Linked(hash[..], hnext, lists) && Holds(lists, [], all)
      && Bucketed(lists, size)
      && nuse == |all|
      && Interned(all, hashOf)
    }

    // ---- luaS_resize ----

    /** Room for the new buckets. */
    method GrowVector(newsize: nat)
      requires Valid() && newsize > size
      modifies this`hash, this`lists
      ensures fresh(hash) && hash.Length == newsize && Linked(hash[..], hnext, lists) && Holds(lists, [], all)
      ensures |lists| == newsize && lists[..size] == old(lists) && forall b | size <= b < newsize :: lists[b] == []
    {
      hide Linked, Holds, Bucketed, Interned, PowerOfTwo;
      var a, o := new Link[newsize](_ => Null), hash;
      for i := 0 to size
        invariant a.Length == newsize && (forall j | 0 <= j < i :: a[j] == o[j]) && (forall j | i <= j < newsize :: a[j] == Null)
        invariant hash == o && size == old(size) && o[..] == old(hash[..]) && lists == old(lists)
      {
        a[i] := o[i];
      }
      ghost var L := lists;
      hash := a;
      lists := lists + seq(newsize - size, _ => []);
      Lengthened(o[..], a[..], hnext, L, lists, all);
    }

    /** In the middle of rehashing, before bucket `i`: buckets are already those
        of the new size, or still those of the old. */
    ghost predicate Rehashing(L: seq<seq<Str>>, oldsize: nat, newsize: nat, i: nat)
      reads this
      requires newsize > 0
    {
      && |L| == |lists| && i <= oldsize <= |lists|
      && (forall b | 0 <= b < |lists| :: if i <= b < oldsize then lists[b] == L[b] else InBucket(lists[b], newsize, b))
    }

    /** One bucket: its strings are taken out and each is put where it belongs. */
    method RehashBucket(i: nat, ghost L: seq<seq<Str>>, oldsize: nat, newsize: nat)
      requires i < oldsize && newsize > 0 && hash.Length == |lists| >= newsize && Rehashing(L, oldsize, newsize, i)
      requires Linked(hash[..], hnext, lists) && Holds(lists, [], all)
      requires PowerOfTwo(oldsize) && PowerOfTwo(newsize) && InBucket(L[i], oldsize, i)
      modifies hash, this`hnext, this`lists
      ensures Rehashing(L, oldsize, newsize, i + 1) && Linked(hash[..], hnext, lists) && Holds(lists, [], all)
    {
      hide Linked, Holds, Chain, PowerOfTwo;
      var p := hash[i];
      ghost var R := lists[i];
      HeadOf(hash[..], hnext, lists, i);
      TakeOut(hash[..], hnext, lists, all, i);
      hash[i] := Null;
      lists := lists[i := []];
      while p != Null
        invariant hash.Length == |lists| == |L| && Linked(hash[..], hnext, lists) && Holds(lists, R, all) && Chain(hnext, p, R)
        invariant InBucket(R, oldsize, i)
        invariant Rehashing(L, oldsize, newsize, i + 1)
        decreases |R|
      {
        NotEnded(hnext, p, R);
        var s := p.s;
        var next := hnext[s];
        var h := s.hash % newsize;
        NewBucket(s.hash, oldsize, newsize, i);
        PutBack(hash[..], hnext, lists, p, R, all, h);
        BucketMore(lists[h], R, newsize, h, oldsize, i);
        ghost var H := hash[..];
        hnext := hnext[s := hash[h]];
        hash[h] := To(s);
        lists := lists[h := [s] + lists[h]];
        assert hash[..] == H[h := To(s)];
        R := R[1..];
        p := next;
      }
      Ended(hnext, R);
    }

    /** The buckets left after shrinking. */
    method CutVector(newsize: nat)
      requires newsize < hash.Length == |lists| && newsize > 0 && Linked(hash[..], hnext, lists) && Holds(lists, [], all)
      requires forall b | 0 <= b < |lists| :: InBucket(lists[b], newsize, b)
      modifies this`hash, this`lists
      ensures fresh(hash) && hash.Length == newsize && lists == old(lists[..newsize])
      ensures forall b | newsize <= b < old(hash.Length) :: old(hash[b]) == Null
      ensures Linked(hash[..], hnext, lists) && Holds(lists, [], all)
    {
      ghost var H, L := hash[..], lists;
      VanishingEmpty(H, hnext, L, newsize);
      hide Linked, Holds, Bucketed, Interned, PowerOfTwo;
      var a, o := new Link[newsize](_ => Null), hash;
      for i := 0 to newsize
        invariant a[..i] == o[..i] && hash == o && o[..] == H && lists == L
      {
        a[i] := o[i];
      }
      hash := a;
      lists := lists[..newsize];
      Shortened(H, hnext, L, newsize, all);
    }

    /** `luaS_resize`: every string is kept, and ends in the bucket of the new
        size that its hash names. */
    method Resize(newsize: nat)
      requires Valid() && PowerOfTwo(newsize)
      modifies this`hash, this`size, this`hnext, this`lists, hash
      ensures Valid() && size == newsize && all == old(all)
      ensures hash == old(hash) || fresh(hash)
    {
      hide Linked, Holds, PowerOfTwo, InBucket;
      PowerPositive(newsize);
      var oldsize := size;
      if newsize > oldsize { GrowVector(newsize); }
      ghost var L := lists;
      forall b | oldsize <= b < |lists| ensures InBucket(lists[b], newsize, b) { NothingInBucket(newsize, b); }
      assert Rehashing(L, oldsize, newsize, 0);
      var i := 0;
      while i < oldsize
        invariant 0 <= i <= oldsize && Rehashing(L, oldsize, newsize, i) && hash.Length == |lists| >= newsize && |lists| >= oldsize
        invariant Linked(hash[..], hnext, lists) && Holds(lists, [], all) && (hash == old(hash) || fresh(hash))
        invariant (forall b | 0 <= b < oldsize :: InBucket(L[b], oldsize, b)) && hash.Length == (if newsize > oldsize then newsize else oldsize)
      {
        RehashBucket(i, L, oldsize, newsize);
        i := i + 1;
      }
      if newsize < oldsize { CutVector(newsize); }
      size := newsize;
    }

    // ---- interning ----

    /** Looking `text` up in its bucket. */
    method Find(text: string) returns (r: Link)
      requires Valid()
      ensures r.To? ==> r.s in all && r.s.text == text
      ensures r == Null ==> forall s | s in all :: s.text != text
    {
      var h := hashOf(text);
      var b := h % size;
      var p := hash[b];
      ghost var R := lists[b];
      HeadOf(hash[..], hnext, lists, b);
      while p != Null
        invariant Chain(hnext, p, R) && (forall s | s in lists[b] && s !in R :: s.text != text) && forall s | s in R :: s in lists[b]
        decreases |R|
      {
        NotEnded(hnext, p, R);
        var ts := p.s;
        if ts.text == text { return p; }
        assert forall s | s in R :: s == R[0] || s in R[1..];
        p := hnext[ts];
        R := R[1..];
      }
      Ended(hnext, R);
      NotInTable(lists, all, text, size, hashOf);
      return Null;
    }

    /** `internshrstr`: one string object for each content. */
    method Intern(text: string, addr: nat) returns (ts: Str)
      requires Valid() && forall s | s in all :: s.addr != addr
      modifies this`hash, this`size, this`hnext, this`lists, this`all, this`nuse, hash
      ensures Valid() && ts in all && ts.text == text && (hash == old(hash) || fresh(hash))
      ensures if exists s :: s in old(all) && s.text == text then all == old(all) else all == old(all) + {Str(addr, hashOf(text), text)}
    {
      var found := Find(text);
      if found.To? { return found.s; }
      if nuse >= size && size <= MAX_INT / 2 {
        DoubleSize(size);
        Resize(size * 2);
      }
      ts := Str(addr, hashOf(text), text);
      AddString(ts);
    }

    /** A new string at the head of its bucket. */
    method AddString(ts: Str)
      requires Valid() && ts !in all && ts.hash == hashOf(ts.text) && forall s | s in all :: s.text != ts.text
      modifies this`hnext, this`lists, this`all, this`nuse, hash
      ensures Valid() && all == old(all) + {ts}
    {
      hide Linked, Holds, Bucketed, Interned, PowerOfTwo;
      var h := ts.hash % size;
      ghost var H, n := hash[..], hnext;
      NewStringWaits(lists, all, ts);
      var hn := hnext[ts := Null];
      WaitingChain(H, hnext, lists, all, ts);
      PutBack(H, hn, lists, To(ts), [ts], all + {ts}, h);
      hnext := hn[ts := hash[h]];
      hash[h] := To(ts);
      assert hash[..] == H[h := To(ts)];
      InternedMore(all, hashOf, ts);
      BucketedMore(lists, size, ts);
      lists := lists[h := [ts] + lists[h]];
      all := all + {ts};
      nuse := nuse + 1;
    }

    /** `luaS_remove`: the string is unlinked from its bucket. */
    method Remove(ts: Str)
      requires Valid() && ts in all
      modifies this`hnext, this`lists, this`all, this`nuse, hash
      ensures Valid() && all == old(all) - {ts}
    {
      hide Linked, Holds, Bucketed, Interned, PowerOfTwo;
      var b := ts.hash % size;
      ghost var j := InItsBucket(lists, all, ts, size);
      InternedLess(all, hashOf, ts);
      BucketedLess(lists, size, b, j);
      Unlink(b, ts, j);
      all := all - {ts};
      nuse := nuse - 1;
    }

    method Unlink(b: nat, ts: Str, ghost j: nat)
      requires b < hash.Length == |lists| && Linked(hash[..], hnext, lists) && Holds(lists, [], all)
      requires j < |lists[b]| && lists[b][j] == ts
      modifies this`hnext, this`lists, hash
      ensures hash.Length == |lists| && Linked(hash[..], hnext, lists) && Holds(lists, [], all - {ts})
      ensures lists == old(lists)[b := old(lists)[b][..j] + old(lists)[b][j + 1..]]
    {
      hide Linked, Holds, Chain, NoDup;
      ghost var H, L, n0, B := hash[..], lists, hnext, lists[b];
      HeadOf(H, hnext, L, b);
      BucketNoDup(L, all, b);
      if hash[b] == To(ts) {
        FirstInChain(hnext, hash[b], B, ts, j);
        RemovedFirst(hnext, hash[b], B);
        hash[b] := hnext[ts];
        assert hash[..] == H[b := n0[ts]];
      } else {
        NotFirst(hnext, hash[b], B, ts, j);
        RemovedChain(n0, H[b], B, j);
        var prev;
        ghost var x;
        prev, x := FindPrevious(b, ts, j);
        hnext := hnext[prev := hnext[ts]];
        assert hash[..] == H;
      }
      lists := lists[b := B[..j] + B[j + 1..]];
      RemovedTable(H, hash[..], n0, hnext, L, b, j, all);
    }

    /** The string before `ts` in its bucket. */
    method FindPrevious(b: nat, ts: Str, ghost j: nat) returns (prev: Str, ghost x: nat)
      requires b < hash.Length == |lists| && Chain(hnext, hash[b], lists[b]) && NoDup(lists[b])
      requires j < |lists[b]| && lists[b][j] == ts && hash[b] != To(ts)
      ensures x + 1 == j && prev == lists[b][x] && prev in hnext && ts in hnext && hnext[prev] == To(ts)
    {
      ghost var R := lists[b];
      NotEnded(hnext, hash[b], R);
      prev := hash[b].s;
      x := 0;
      ghost var B := lists[b];
      assert B[0..] == B;
      while hnext[prev] != To(ts)
        invariant x < j && prev == B[x] && prev in hnext && Chain(hnext, To(prev), B[x..])
        decreases j - x
      {
        ChainNext(hnext, B, x);
        prev := hnext[prev].s;
        x := x + 1;
      }
      ChainNext(hnext, B, x);
      assert B[x + 1] == ts;
      ChainNext(hnext, B, x + 1);
    }
  }
}
