/** Tables of `ltable.c`: an array part, and a hash part whose collisions are
  chained through relative offsets inside the node vector itself. */
module TableModel {
  import opened Powers

  datatype Value = Nil | Val(v: int)

  /** Keys by the way they are hashed; `KNil` marks a node never used. Strings
      are interned, so a string is its identity, and its hash goes with it. */
  datatype Key = KNil | KInt(i: int) | KStr(hash: nat, id: nat) | KBool(b: bool) | KPtr(addr: nat)

  datatype Node = Node(key: Key, val: Value, next: int)

  const MAXABITS := 31
  const MAXASIZE := 0x8000_0000

  /** `lmod` keeps the low bits, which for a power of two is the remainder;
      pointers avoid the power of two. */
  function MainPosition(size: nat, k: Key): (p: nat)
    requires size > 0
    ensures p < size
  {
    match k
    case KNil => 0
    case KInt(i) => i % size
    case KStr(h, _) => h % size
    case KBool(b) => (if b then 1 else 0) % size
    case KPtr(a) => a % (if size == 1 then 1 else size - 1)
  }

  function Main(N: seq<Node>, n: nat): nat
    requires n < |N|
  {
    MainPosition(|N|, N[n].key)
  }

  /** Key of the array part. */
  predicate InArray(size: nat, k: Key) {
    k.KInt? && 1 <= k.i <= size
  }

  predicate Keyed(N: seq<Node>, n: nat) {
    n < |N| && N[n].key != KNil
  }

  // ---- the hash part ----

  function Offset(c: seq<nat>, i: nat): int
    requires i < |c|
  {
    if i + 1 < |c| then c[i + 1] as int - c[i] as int else 0
  }

  /** The nodes `c` follow each other by their offsets, and the last ends the
      chain. */
  ghost predicate Chain(N: seq<Node>, c: seq<nat>) {
    && c != []
    && (forall i | 0 <= i < |c| :: Keyed(N, c[i]))
    && (forall i | 0 <= i < |c| :: N[c[i]].next == Offset(c, i))
    && (forall i, j | 0 <= i < j < |c| :: c[i] != c[j])
  }

  /** `n` is in the chain, not before the main position of its key. */
  ghost predicate PlacedIn(N: seq<Node>, c: seq<nat>, n: nat)
    requires n < |N|
  {
    exists i, j :: 0 <= i <= j < |c| && c[i] == Main(N, n) && c[j] == n
  }

  ghost predicate Placed(N: seq<Node>, C: set<seq<nat>>, n: nat)
    requires n < |N|
  {
    exists c :: c in C && PlacedIn(N, c, n)
  }

  /** What holds of a node vector; `C` are its chains.

      Every key can be reached from its main position; no node is in two chains;
      keys are unique; and a node outside its main position never keeps a key
      from its own. */
  ghost predicate Hash(N: seq<Node>, C: set<seq<nat>>) {
    |N| > 0 && Chains(N, C) && Disjoint(C) && AllPlaced(N, C) && Blank(N) && Unique(N) && Home(N)
  }

  ghost predicate Chains(N: seq<Node>, C: set<seq<nat>>) {
    forall c | c in C :: Chain(N, c)
  }

  ghost predicate Disjoint(C: set<seq<nat>>) {
    forall c, d, n: nat | c in C && d in C && n in c && n in d :: c == d
  }

  ghost predicate AllPlaced(N: seq<Node>, C: set<seq<nat>>) {
    forall n: nat | Keyed(N, n) :: Placed(N, C, n)
  }

  ghost predicate Blank(N: seq<Node>) {
    forall n: nat | n < |N| && !Keyed(N, n) :: N[n] == Node(KNil, Nil, 0)
  }

  ghost predicate Unique(N: seq<Node>) {
    forall m: nat, n: nat | Keyed(N, m) && Keyed(N, n) && N[m].key == N[n].key :: m == n
  }

  /** The main position of every key is taken by a node that is at home. */
  ghost predicate Home(N: seq<Node>) {
    forall n: nat | Keyed(N, n) :: AtHome(N, Main(N, n))
  }

  ghost predicate AtHome(N: seq<Node>, p: nat) {
    Keyed(N, p) && Main(N, p) == p
  }

  ghost predicate Present(N: seq<Node>, k: Key) {
    k != KNil && exists n: nat :: n < |N| && N[n].key == k
  }

  /** The value of a key in the hash part. */
  ghost function HashValue(N: seq<Node>, k: Key): Value {
    if Present(N, k) then var n: nat :| n < |N| && N[n].key == k; N[n].val else Nil
  }

  lemma HashValueAt(N: seq<Node>, C: set<seq<nat>>, n: nat)
    requires Hash(N, C) && Keyed(N, n)
    ensures HashValue(N, N[n].key) == N[n].val
  {
  }

  /** The value of a key in the table. */
  ghost function Lookup(A: seq<Value>, N: seq<Node>, k: Key): Value {
    if InArray(|A|, k) then A[k.i - 1] else HashValue(N, k)
  }

  // ---- inserting a key ----

  /** The main position holds no value. */
  function PutThere(N: seq<Node>, mp: nat, k: Key): seq<Node>
    requires mp < |N|
  {
    N[mp := N[mp].(key := k)]
  }

  // ---- the chains afterwards ----

  lemma ChainFrame(N: seq<Node>, M: seq<Node>, c: seq<nat>)
    requires Chain(N, c) && |M| == |N| && forall n | n in c :: n < |N| && M[n].next == N[n].next && M[n].key != KNil
    ensures Chain(M, c)
  {
    forall i | 0 <= i < |c| ensures Keyed(M, c[i]) && M[c[i]].next == N[c[i]].next {
      assert c[i] in c;
    }
  }

  /** A node that is not keyed is in no chain. */
  lemma FreeOutside(N: seq<Node>, C: set<seq<nat>>, f: nat, c: seq<nat>)
    requires Chains(N, C) && c in C && f < |N| && !Keyed(N, f)
    ensures f !in c
  {
  }

  lemma PlacedInSame(N: seq<Node>, M: seq<Node>, c: seq<nat>, n: nat)
    requires n < |N| == |M| && PlacedIn(N, c, n) && M[n].key == N[n].key
    ensures PlacedIn(M, c, n)
  {
    var i, j :| 0 <= i <= j < |c| && c[i] == Main(N, n) && c[j] == n;
    assert c[i] == Main(M, n);
  }

  /** A new key `k` at `at`: it is still the only one of its kind. */
  lemma StillUnique(N: seq<Node>, M: seq<Node>, at: nat, k: Key, from: nat)
    requires Unique(N) && |M| == |N| && !Present(N, k) && k != KNil && at < |N|
    requires forall n: nat | n < |M| && n != at && n != from :: M[n].key == N[n].key
    requires M[at].key == k
    requires from < |N| && from != at ==> M[from].key == N[at].key && !Keyed(N, from)
    ensures Unique(M)
  {
    forall m: nat, n: nat | Keyed(M, m) && Keyed(M, n) && M[m].key == M[n].key ensures m == n {
      var m0, n0 := if m == from && from != at then at else m, if n == from && from != at then at else n;
      if m != at { assert M[m].key == N[m0].key; }
      if n != at { assert M[n].key == N[n0].key; }
    }
  }

  // ---- the main position holds no value ----

  lemma PutThereOk(N: seq<Node>, C: set<seq<nat>>, mp: nat, k: Key)
    requires Hash(N, C) && mp == MainPosition(|N|, k) && N[mp].val == Nil && k != KNil && !Present(N, k)
    ensures Hash(PutThere(N, mp, k), if Keyed(N, mp) then C else C + {[mp]})
  {
    hide Present, Unique, Chains, Disjoint, AllPlaced, Home, Blank, MainPosition;
    var M := PutThere(N, mp, k);
    var D := if Keyed(N, mp) then C else C + {[mp]};
    ThereChains(N, C, mp, k);
    ThereDisjoint(N, C, mp);
    TherePlaced(N, C, mp, k);
    ThereHome(N, C, mp, k);
    ThereBlank(N, mp, k);
    StillUnique(N, M, mp, k, mp);
  }

  lemma ThereBlank(N: seq<Node>, mp: nat, k: Key)
    requires Blank(N) && mp < |N| && k != KNil
    ensures Blank(PutThere(N, mp, k))
  {
  }

  lemma ThereHome(N: seq<Node>, C: set<seq<nat>>, mp: nat, k: Key)
    requires Hash(N, C) && mp == MainPosition(|N|, k) && k != KNil
    ensures Home(PutThere(N, mp, k))
  {
    hide Chains, Disjoint, AllPlaced, Unique, MainPosition;
    var M := PutThere(N, mp, k);
    forall n: nat | Keyed(M, n) ensures AtHome(M, Main(M, n)) {
      if n != mp { assert Keyed(N, n) && Main(M, n) == Main(N, n) && AtHome(N, Main(N, n)); }
    }
  }

  lemma ThereChains(N: seq<Node>, C: set<seq<nat>>, mp: nat, k: Key)
    requires Hash(N, C) && mp == MainPosition(|N|, k) && k != KNil
    ensures Chains(PutThere(N, mp, k), if Keyed(N, mp) then C else C + {[mp]})
  {
    hide MainPosition;
    var M := PutThere(N, mp, k);
    forall c | c in (if Keyed(N, mp) then C else C + {[mp]}) ensures Chain(M, c) {
      if c in C { ChainFrame(N, M, c); }
    }
  }

  lemma ThereDisjoint(N: seq<Node>, C: set<seq<nat>>, mp: nat)
    requires Hash(N, C) && mp < |N|
    ensures Disjoint(if Keyed(N, mp) then C else C + {[mp]})
  {
    hide Chains, AllPlaced, Unique;
    var D := if Keyed(N, mp) then C else C + {[mp]};
    forall c, d, n: nat | c in D && d in D && n in c && n in d ensures c == d {
      if !Keyed(N, mp) {
        if c in C { FreeOutside(N, C, mp, c); }
        if d in C { FreeOutside(N, C, mp, d); }
      }
    }
  }

  lemma TherePlaced(N: seq<Node>, C: set<seq<nat>>, mp: nat, k: Key)
    requires Hash(N, C) && mp == MainPosition(|N|, k) && k != KNil
    ensures AllPlaced(PutThere(N, mp, k), if Keyed(N, mp) then C else C + {[mp]})
  {
    hide MainPosition, Chains, Disjoint, Unique;
    var M := PutThere(N, mp, k);
    var D := if Keyed(N, mp) then C else C + {[mp]};
    forall n: nat | Keyed(M, n) ensures Placed(M, D, n) {
      if n == mp {
        HomePlaced(N, M, C, D, mp);
      } else {
        var c :| c in C && PlacedIn(N, c, n);
        PlacedInSame(N, M, c, n);
      }
    }
  }

  lemma HomePlaced(N: seq<Node>, M: seq<Node>, C: set<seq<nat>>, D: set<seq<nat>>, mp: nat)
    requires AllPlaced(N, C) && |M| == |N| && mp < |N| && Main(M, mp) == mp
    requires D == if Keyed(N, mp) then C else C + {[mp]}
    ensures Placed(M, D, mp)
  {
    if Keyed(N, mp) {
      var c :| c in C && PlacedIn(N, c, mp);
      var i, j :| 0 <= i <= j < |c| && c[i] == Main(N, mp) && c[j] == mp;
      assert c[j] == Main(M, mp);
      assert PlacedIn(M, c, mp);
    } else {
      assert [mp][0] == mp;
      assert PlacedIn(M, [mp], mp);
    }
  }

  // ---- behind a node at home ----

  function Behind(c: seq<nat>, j: nat, f: nat): seq<nat>
    requires j < |c|
  {
    c[..j + 1] + [f] + c[j + 1..]
  }

  /** `M` is `N` with `f` chained behind `mp`. */
  predicate ChainedBehind(N: seq<Node>, M: seq<Node>, mp: nat, f: nat, k: Key) {
    && mp < |N| == |M| && f < |N| && f != mp && k != KNil
    && M[f] == Node(k, Nil, if N[mp].next != 0 then mp + N[mp].next - f else 0)
    && M[mp] == N[mp].(next := f - mp)
    && forall n: nat | n < |N| && n != f && n != mp :: M[n] == N[n]
  }

  lemma BehindChain(N: seq<Node>, M: seq<Node>, c: seq<nat>, j: nat, f: nat, k: Key)
    requires Chain(N, c) && j < |c| && f !in c && ChainedBehind(N, M, c[j], f, k)
    ensures Chain(M, Behind(c, j, f))
  {
    var d := Behind(c, j, f);
    assert Keyed(N, c[j]) && N[c[j]].next == Offset(c, j);
    forall i | 0 <= i < |d| ensures Keyed(M, d[i]) && M[d[i]].next == Offset(d, i) {
      if i < j {
        assert Keyed(N, c[i]) && N[c[i]].next == Offset(c, i) && c[i] in c && c[i] != c[j];
        assert d[i] == c[i] && d[i + 1] == c[i + 1];
      } else if i == j {
        assert d[i] == c[j] && d[i + 1] == f;
      } else if i == j + 1 {
        assert d[i] == f && (i + 1 < |d| ==> d[i + 1] == c[j + 1]);
      } else {
        assert d[i] == c[i - 1] && (i + 1 < |d| ==> d[i + 1] == c[i]);
        assert Keyed(N, c[i - 1]) && N[c[i - 1]].next == Offset(c, i - 1) && c[i - 1] in c && c[i - 1] != c[j];
      }
    }
    BehindDistinct(c, j, f);
  }

  lemma BehindDistinct(c: seq<nat>, j: nat, f: nat)
    requires j < |c| && f !in c && forall i, l | 0 <= i < l < |c| :: c[i] != c[l]
    ensures var d := Behind(c, j, f); forall i, l | 0 <= i < l < |d| :: d[i] != d[l]
  {
    var d := Behind(c, j, f);
    forall i, l | 0 <= i < l < |d| ensures d[i] != d[l] {
      assert d[i] == if i <= j then c[i] else if i == j + 1 then f else c[i - 1];
      assert d[l] == if l <= j then c[l] else if l == j + 1 then f else c[l - 1];
    }
  }

  lemma BehindMembers(c: seq<nat>, j: nat, f: nat, n: nat)
    requires j < |c|
    ensures n in Behind(c, j, f) <==> n in c || n == f
  {
    var d := Behind(c, j, f);
    if n in c {
      var i :| 0 <= i < |c| && c[i] == n;
      assert d[if i <= j then i else i + 1] == n;
    }
    assert d[j + 1] == f;
  }

  /** Whoever was in the chain still follows its main position. */
  lemma BehindPlaced(N: seq<Node>, M: seq<Node>, c: seq<nat>, j: nat, f: nat, n: nat)
    requires n < |N| == |M| && M[n].key == N[n].key && j < |c| && PlacedIn(N, c, n)
    ensures PlacedIn(M, Behind(c, j, f), n)
  {
    var i, l :| 0 <= i <= l < |c| && c[i] == Main(N, n) && c[l] == n;
    var d := Behind(c, j, f);
    var i', l' := if i <= j then i else i + 1, if l <= j then l else l + 1;
    assert d[i'] == c[i] && d[l'] == c[l];
  }

  /** Chains other than `c` are what they were. */
  lemma OtherChains(N: seq<Node>, M: seq<Node>, C: set<seq<nat>>, c: seq<nat>, f: nat, mp: nat, prev: nat)
    requires Chains(N, C) && Disjoint(C) && c in C && mp in c && prev in c && f < |N| == |M| && !Keyed(N, f)
    requires forall n: nat | n < |N| && n != f && n != mp && n != prev :: M[n] == N[n]
    ensures Chains(M, C - {c})
  {
    forall e | e in C - {c} ensures Chain(M, e) {
      FreeOutside(N, C, f, e);
      forall n | n in e ensures n < |N| && M[n].next == N[n].next && M[n].key != KNil {
        assert Keyed(N, n) by { var i :| 0 <= i < |e| && e[i] == n; assert Keyed(N, e[i]); }
      }
      ChainFrame(N, M, e);
    }
  }

  lemma BehindDisjoint(N: seq<Node>, C: set<seq<nat>>, c: seq<nat>, j: nat, f: nat)
    requires Chains(N, C) && Disjoint(C) && c in C && j < |c| && f < |N| && !Keyed(N, f)
    ensures Disjoint(C - {c} + {Behind(c, j, f)})
  {
    var d := Behind(c, j, f);
    var D := C - {c} + {d};
    forall e, g, n: nat | e in D && g in D && n in e && n in g ensures e == g {
      BehindMembers(c, j, f, n);
      if e != d { FreeOutside(N, C, f, e); }
      if g != d { FreeOutside(N, C, f, g); }
    }
  }

  lemma BehindHome(N: seq<Node>, M: seq<Node>, mp: nat, f: nat, k: Key)
    requires Home(N) && AtHome(N, mp) && mp == MainPosition(|N|, k) && ChainedBehind(N, M, mp, f, k) && !Keyed(N, f)
    ensures Home(M)
  {
    forall n: nat | Keyed(M, n) ensures AtHome(M, Main(M, n)) {
      if n != f { assert Keyed(N, n) && Main(M, n) == Main(N, n) && AtHome(N, Main(N, n)); }
    }
  }

  lemma BehindChains(N: seq<Node>, M: seq<Node>, C: set<seq<nat>>, c: seq<nat>, j: nat, f: nat, k: Key)
    requires Chains(N, C) && Disjoint(C) && c in C && j < |c| && f < |N| && !Keyed(N, f) && ChainedBehind(N, M, c[j], f, k)
    ensures Chains(M, C - {c} + {Behind(c, j, f)})
  {
    FreeOutside(N, C, f, c);
    assert Chain(N, c);
    BehindChain(N, M, c, j, f, k);
    OtherChains(N, M, C, c, f, c[j], c[j]);
  }

  lemma PutBehindOk(N: seq<Node>, M: seq<Node>, C: set<seq<nat>>, c: seq<nat>, j: nat, f: nat, k: Key)
    requires Hash(N, C) && c in C && j < |c| && f < |N| && !Keyed(N, f)
    requires AtHome(N, c[j]) && c[j] == MainPosition(|N|, k) && !Present(N, k) && ChainedBehind(N, M, c[j], f, k)
    ensures Hash(M, C - {c} + {Behind(c, j, f)})
  {
    hide Chains, Disjoint, AllPlaced, Unique, Home, Behind;
    BehindChains(N, M, C, c, j, f, k);
    BehindDisjoint(N, C, c, j, f);
    BehindAllPlaced(N, M, C, c, j, f, k);
    StillUnique(N, M, f, k, f);
    BehindHome(N, M, c[j], f, k);
  }

  lemma BehindAllPlaced(N: seq<Node>, M: seq<Node>, C: set<seq<nat>>, c: seq<nat>, j: nat, f: nat, k: Key)
    requires AllPlaced(N, C) && c in C && j < |c| && ChainedBehind(N, M, c[j], f, k) && c[j] == MainPosition(|N|, k)
    ensures AllPlaced(M, C - {c} + {Behind(c, j, f)})
  {
    var d := Behind(c, j, f);
    var D := C - {c} + {d};
    forall n: nat | Keyed(M, n) ensures Placed(M, D, n) {
      if n == f {
        assert d[j] == Main(M, f) && d[j + 1] == f;
        assert PlacedIn(M, d, f);
      } else {
        assert Keyed(N, n);
        var e :| e in C && PlacedIn(N, e, n);
        if e == c { BehindPlaced(N, M, c, j, f, n); } else { PlacedInSame(N, M, e, n); }
      }
    }
  }

  // ---- moving a node that is not at home ----

  /** `M` is `N` with the node at `mp` moved to `f`, and `k` at `mp` alone. */
  predicate MovedTo(N: seq<Node>, M: seq<Node>, mp: nat, f: nat, prev: nat, k: Key) {
    && mp < |N| == |M| && f < |N| && prev < |N| && f != mp && prev != mp && prev != f && k != KNil
    && M[mp] == Node(k, Nil, 0)
    && M[f] == Node(N[mp].key, N[mp].val, if N[mp].next != 0 then N[mp].next + (mp - f) else 0)
    && M[prev] == N[prev].(next := f - prev)
    && forall n: nat | n < |N| && n != f && n != mp && n != prev :: M[n] == N[n]
  }

  lemma MovedChain(N: seq<Node>, M: seq<Node>, c: seq<nat>, j: nat, f: nat, k: Key)
    requires Chain(N, c) && 0 < j < |c| && f !in c && MovedTo(N, M, c[j], f, c[j - 1], k)
    ensures Chain(M, c[j := f])
  {
    var d := c[j := f];
    assert Keyed(N, c[j]) && N[c[j]].next == Offset(c, j);
    forall i | 0 <= i < |d| ensures Keyed(M, d[i]) && M[d[i]].next == Offset(d, i) {
      assert Keyed(N, c[i]) && N[c[i]].next == Offset(c, i) && c[i] in c;
      assert i != j ==> c[i] != c[j];
      assert i != j - 1 ==> c[i] != c[j - 1];
    }
    forall i, l | 0 <= i < l < |d| ensures d[i] != d[l] {
      assert c[i] in c && c[l] in c;
    }
  }

  lemma MovedMembers(c: seq<nat>, j: nat, f: nat, n: nat)
    requires j < |c| && f !in c && forall i, l | 0 <= i < l < |c| :: c[i] != c[l]
    ensures n in c[j := f] <==> (n in c && n != c[j]) || n == f
  {
    var d := c[j := f];
    if n in c && n != c[j] {
      var i :| 0 <= i < |c| && c[i] == n;
      assert d[i] == n;
    }
    assert d[j] == f;
    if n in d && n != f {
      var i :| 0 <= i < |d| && d[i] == n;
      assert c[i] == n && c[i] != c[j];
    }
  }

  lemma MovedPlaced(N: seq<Node>, M: seq<Node>, c: seq<nat>, j: nat, f: nat, n: nat, n': nat)
    requires n < |N| == |M| && n' < |M| && M[n'].key == N[n].key && j < |c| && PlacedIn(N, c, n)
    requires forall i, l | 0 <= i < l < |c| :: c[i] != c[l]
    requires Main(N, n) != c[j] && n' == (if n == c[j] then f else n)
    ensures PlacedIn(M, c[j := f], n')
  {
    var i, l :| 0 <= i <= l < |c| && c[i] == Main(N, n) && c[l] == n;
    var d := c[j := f];
    assert d[i] == Main(M, n');
    assert l == j <==> n == c[j];
    assert d[l] == n';
  }

  lemma MovedAllPlaced(N: seq<Node>, M: seq<Node>, C: set<seq<nat>>, c: seq<nat>, j: nat, f: nat, k: Key)
    requires AllPlaced(N, C) && Disjoint(C) && Home(N) && Chain(N, c) && c in C && 0 < j < |c| && !Keyed(N, f)
    requires MovedTo(N, M, c[j], f, c[j - 1], k) && c[j] == MainPosition(|N|, k) && !AtHome(N, c[j])
    ensures AllPlaced(M, C - {c} + {c[j := f], [c[j]]})
  {
    var mp := c[j];
    var D := C - {c} + {c[j := f], [mp]};
    forall n: nat | Keyed(M, n) ensures Placed(M, D, n) {
      if n == mp {
        assert [mp][0] == mp;
        assert PlacedIn(M, [mp], mp);
      } else {
        var n0 := if n == f then mp else n;
        assert Keyed(N, n0);
        assert AtHome(N, Main(N, n0));
        var e :| e in C && PlacedIn(N, e, n0);
        assert n0 in e;
        assert n == f ==> c[j] in c && c[j] in e;
        if e == c { MovedPlaced(N, M, c, j, f, n0, n); } else { PlacedInSame(N, M, e, n); }
      }
    }
  }

  lemma MovedDisjoint(N: seq<Node>, C: set<seq<nat>>, c: seq<nat>, j: nat, f: nat)
    requires Chains(N, C) && Disjoint(C) && c in C && 0 < j < |c| && f < |N| && !Keyed(N, f)
    ensures Disjoint(C - {c} + {c[j := f], [c[j]]})
  {
    var mp := c[j];
    var d := c[j := f];
    var D := C - {c} + {d, [mp]};
    FreeOutside(N, C, f, c);
    assert Chain(N, c) && mp in c && f != mp;
    forall e, g, n: nat | e in D && g in D && n in e && n in g ensures e == g {
      MovedMembers(c, j, f, n);
      if e in C { FreeOutside(N, C, f, e); }
      if g in C { FreeOutside(N, C, f, g); }
    }
  }

  lemma MovedHome(N: seq<Node>, M: seq<Node>, mp: nat, f: nat, prev: nat, k: Key)
    requires Home(N) && Keyed(N, mp) && !AtHome(N, mp) && mp == MainPosition(|N|, k) && MovedTo(N, M, mp, f, prev, k) && !Keyed(N, f)
    ensures Home(M)
  {
    forall n: nat | Keyed(M, n) ensures AtHome(M, Main(M, n)) {
      if n != mp {
        var n0 := if n == f then mp else n;
        assert Keyed(N, n0) && Main(M, n) == Main(N, n0) && AtHome(N, Main(N, n0));
      }
    }
  }

  lemma MovedChains(N: seq<Node>, M: seq<Node>, C: set<seq<nat>>, c: seq<nat>, j: nat, f: nat, k: Key)
    requires Chains(N, C) && Disjoint(C) && c in C && 0 < j < |c| && f < |N| && !Keyed(N, f)
    requires MovedTo(N, M, c[j], f, c[j - 1], k)
    ensures Chains(M, C - {c} + {c[j := f], [c[j]]})
  {
    FreeOutside(N, C, f, c);
    assert Chain(N, c) && c[j] in c && c[j - 1] in c;
    MovedChain(N, M, c, j, f, k);
    OtherChains(N, M, C, c, f, c[j], c[j - 1]);
    assert Chain(M, [c[j]]);
  }

  lemma MovedKeys(N: seq<Node>, M: seq<Node>, mp: nat, f: nat, prev: nat, k: Key)
    requires Unique(N) && Blank(N) && Keyed(N, prev) && !Keyed(N, f) && !Present(N, k) && MovedTo(N, M, mp, f, prev, k)
    ensures Unique(M) && Blank(M)
  {
    StillUnique(N, M, mp, k, f);
  }

  lemma MovedOk(N: seq<Node>, M: seq<Node>, C: set<seq<nat>>, c: seq<nat>, j: nat, f: nat, k: Key)
    requires Hash(N, C) && c in C && 0 < j < |c| && f < |N| && !Keyed(N, f)
    requires Keyed(N, c[j]) && !AtHome(N, c[j]) && c[j] == MainPosition(|N|, k) && !Present(N, k)
    requires MovedTo(N, M, c[j], f, c[j - 1], k)
    ensures Hash(M, C - {c} + {c[j := f], [c[j]]})
  {
    assert Chain(N, c) && Keyed(N, c[j - 1]);
    hide Chains, Disjoint, AllPlaced, Unique, Home, Blank, Chain;
    MovedChains(N, M, C, c, j, f, k);
    MovedDisjoint(N, C, c, j, f);
    MovedAllPlaced(N, M, C, c, j, f, k);
    MovedKeys(N, M, c[j], f, c[j - 1], k);
    MovedHome(N, M, c[j], f, c[j - 1], k);
  }
}
