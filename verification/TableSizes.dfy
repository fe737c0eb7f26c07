/** How `rehash` chooses the size of the array part: keys are counted by slices
  between powers of two, and the largest array that is more than half full
  wins. */
module TableSizes {
  import opened Powers
  import opened TableModel

  lemma Pow2Values()
    ensures Pow2(8) == 256 && Pow2(31) == MAXASIZE
  {
    assert Pow2(16) == 65536;
    Pow2Add(16, 15);
    assert Pow2(15) == 32768;
  }

  /** `l` is the least exponent that reaches `x`. */
  predicate CeilLog(x: nat, l: nat) {
    x <= Pow2(l) && (l > 0 ==> Pow2(l - 1) < x)
  }

  /** The table `log_2` of `luaO_ceillog2`. */
  function Log2Table(x: nat): nat
    requires x < 256
  {
    if x < 1 then 0 else if x < 2 then 1 else if x < 4 then 2 else if x < 8 then 3 else if x < 16 then 4
    else if x < 32 then 5 else if x < 64 then 6 else if x < 128 then 7 else 8
  }

  lemma TableLog(x: nat)
    requires x < 256
    ensures x < Pow2(Log2Table(x)) && (Log2Table(x) > 0 ==> Pow2(Log2Table(x) - 1) <= x)
  {
    assert Pow2(4) == 16 && Pow2(7) == 128;
  }

  /** One turn of the loop takes a byte away. */
  lemma OneByte(x0: nat, x: nat, l: nat)
    requires Pow2(l) * x <= x0 - 1 < Pow2(l) * (x + 1) && x >= 256
    ensures Pow2(l + 8) * (x / 256) <= x0 - 1 < Pow2(l + 8) * (x / 256 + 1)
  {
    Pow2Values();
    Pow2Add(l, 8);
    ShiftBounds(Pow2(l), x, x0 - 1);
  }

  /** The table completes the logarithm. */
  lemma LastByte(x0: nat, x: nat, l: nat)
    requires Pow2(l) * x <= x0 - 1 < Pow2(l) * (x + 1) && x < 256 && (l > 0 ==> x >= 1)
    ensures CeilLog(x0, l + Log2Table(x))
  {
    TableLog(x);
    hide Log2Table, Pow2;
    var t := Log2Table(x);
    Pow2Add(l, t);
    ScaleBounds(Pow2(l), x, Pow2(t));
    if t > 0 {
      Pow2Add(l, t - 1);
      ScaleBounds(Pow2(l), Pow2(t - 1) - 1, x);
    }
  }

  /** `luaO_ceillog2`. */
  method CeilLog2(x0: nat) returns (l: nat)
    requires x0 >= 1
    ensures CeilLog(x0, l)
  {
    var x := x0 - 1;
    l := 0;
    while x >= 256
      invariant Pow2(l) * x <= x0 - 1 < Pow2(l) * (x + 1) && (l > 0 ==> x >= 1)
    {
      OneByte(x0, x, l);
      l, x := l + 8, x / 256;
    }
    LastByte(x0, x, l);
    l := l + Log2Table(x);
  }

  lemma ShiftBounds(p: nat, x: nat, y: nat)
    requires p * x <= y < p * (x + 1)
    ensures (p * 256) * (x / 256) <= y < (p * 256) * (x / 256 + 1)
  {
    var q, r := x / 256, x % 256;
    assert x == 256 * q + r;
    Distribute(p, 256 * q, r);
    Distribute(p, 256 * q, r + 1);
    Distribute(p, 256 * q + r + 1, 255 - r);
    Associate(p, q);
    Associate(p, q + 1);
    assert p * (256 * q + r + 1) <= p * (256 * q + 256);
  }

  lemma Distribute(p: nat, a: nat, b: nat)
    ensures p * (a + b) == p * a + p * b && p * b >= 0
  {
  }

  lemma Associate(p: nat, q: nat)
    ensures (p * 256) * q == p * (256 * q)
  {
  }

  lemma ScaleBounds(p: nat, x: nat, z: nat)
    requires x < z
    ensures p * (x + 1) <= p * z
  {
    assert p * z == p * (x + 1) + p * (z - x - 1);
  }

  // ---- counts ----

  /** `nums[0] + ... + nums[l]`. */
  function Prefix(nums: seq<nat>, l: nat): nat
    requires l < |nums|
  {
    if l == 0 then nums[0] else Prefix(nums, l - 1) + nums[l]
  }

  lemma {:induction false} PrefixMono(nums: seq<nat>, i: nat, j: nat)
    requires i <= j < |nums|
    ensures Prefix(nums, i) <= Prefix(nums, j)
    decreases j
  {
    if i < j { PrefixMono(nums, i, j - 1); }
  }

  /** Adding to one slice adds to every prefix that covers it. */
  lemma {:induction false} PrefixUpdate(nums: seq<nat>, c: nat, d: nat, l: nat)
    requires c < |nums| && l < |nums|
    ensures Prefix(nums[c := nums[c] + d], l) == Prefix(nums, l) + if c <= l then d else 0
  {
    if l > 0 { PrefixUpdate(nums, c, d, l - 1); }
  }

  /** No more than fits below each power of two. */
  predicate Fits(nums: seq<nat>) {
    forall l | 0 <= l < |nums| :: Prefix(nums, l) <= Pow2(l)
  }

  predicate MoreThanHalf(nums: seq<nat>, l: nat)
    requires l < |nums|
  {
    Prefix(nums, l) > Pow2(l) / 2
  }

  /** `n` is the largest power of two such that more than half of 1..n is in
      use, and `na` says how many are; 0 when there is none. */
  ghost predicate Best(nums: seq<nat>, n: nat, na: nat) {
    if n == 0 then na == 0 && forall l | 0 <= l < |nums| :: !MoreThanHalf(nums, l)
    else exists j: nat :: BestAt(nums, n, na, j)
  }

  ghost predicate BestAt(nums: seq<nat>, n: nat, na: nat, j: nat) {
    && j < |nums| && n == Pow2(j) && na == Prefix(nums, j) && MoreThanHalf(nums, j)
    && forall l | j < l < |nums| :: !MoreThanHalf(nums, l)
  }

  /** The best among the first `i` candidates. */
  ghost predicate BestBelow(nums: seq<nat>, i: nat, n: nat, na: nat)
    requires i <= |nums|
  {
    if n == 0 then na == 0 && forall l | 0 <= l < i :: !MoreThanHalf(nums, l)
    else exists j: nat :: j < i && n == Pow2(j) && na == Prefix(nums, j) && MoreThanHalf(nums, j) && forall l | j < l < i :: !MoreThanHalf(nums, l)
  }

  lemma BestBelowIsBest(nums: seq<nat>, i: nat, n: nat, na: nat)
    requires i <= |nums| && BestBelow(nums, i, n, na) && forall l | i <= l < |nums| :: !MoreThanHalf(nums, l)
    ensures Best(nums, n, na)
  {
    if n != 0 {
      var j: nat :| j < i && n == Pow2(j) && na == Prefix(nums, j) && MoreThanHalf(nums, j) && forall l | j < l < i :: !MoreThanHalf(nums, l);
      assert BestAt(nums, n, na, j);
    }
  }

  lemma BestBelowNext(nums: seq<nat>, i: nat, n: nat, na: nat)
    requires i < |nums| && BestBelow(nums, i, n, na)
    ensures !MoreThanHalf(nums, i) ==> BestBelow(nums, i + 1, n, na)
    ensures MoreThanHalf(nums, i) ==> BestBelow(nums, i + 1, Pow2(i), Prefix(nums, i))
  {
    if n != 0 {
      var j: nat :| j < i && n == Pow2(j) && na == Prefix(nums, j) && MoreThanHalf(nums, j) && forall l | j < l < i :: !MoreThanHalf(nums, l);
      if !MoreThanHalf(nums, i) { assert forall l | j < l < i + 1 :: !MoreThanHalf(nums, l); }
    }
  }

  lemma BestBelowStart(nums: seq<nat>)
    requires |nums| == MAXABITS + 1
    ensures Pow2(0) == 1 && BestBelow(nums, 0, 0, 0)
  {
  }

  /** `computesizes`: also, the loop never runs past the last slice. */
  method ComputeSizes(nums: seq<nat>, narray0: nat) returns (narray: nat, na: nat)
    requires |nums| == MAXABITS + 1 && Fits(nums) && narray0 == Prefix(nums, MAXABITS)
    ensures Best(nums, narray, na)
  {
    hide BestBelow, Best, Fits;
    var i, twotoi, a := 0, 1, 0;
    var n: nat := 0;
    na := 0;
    BestBelowStart(nums);
    while twotoi / 2 < narray0
      invariant 0 <= i <= MAXABITS && twotoi == Pow2(i)
      invariant a == (if i == 0 then 0 else Prefix(nums, i - 1)) && (i > 0 ==> a != narray0)
      invariant BestBelow(nums, i, n, na)
      decreases MAXABITS - i
    {
      BestBelowNext(nums, i, n, na);
      if nums[i] > 0 {
        a := a + nums[i];
        if a > twotoi / 2 { n, na := twotoi, a; }
      } else {
        EmptySlice(nums, i);
      }
      if a == narray0 {
        AllCounted(nums, i);
        BestBelowIsBest(nums, i + 1, n, na);
        return n, na;
      }
      i, twotoi := i + 1, twotoi * 2;
    }
    RestIsEmpty(nums, i, narray0);
    BestBelowIsBest(nums, i, n, na);
    narray := n;
  }

  lemma EmptySlice(nums: seq<nat>, i: nat)
    requires i < |nums| && Fits(nums) && nums[i] == 0
    ensures !MoreThanHalf(nums, i) && Prefix(nums, i) == if i == 0 then 0 else Prefix(nums, i - 1)
  {
    if i > 0 { assert Prefix(nums, i - 1) <= Pow2(i - 1); }
  }

  lemma AllCounted(nums: seq<nat>, i: nat)
    requires i < |nums| && Fits(nums) && Prefix(nums, i) == Prefix(nums, |nums| - 1)
    ensures forall l | i + 1 <= l < |nums| :: !MoreThanHalf(nums, l)
  {
    forall l | i + 1 <= l < |nums| ensures !MoreThanHalf(nums, l) {
      PrefixMono(nums, l, |nums| - 1);
      PrefixMono(nums, i, l);
      Pow2Strict(i, l);
    }
  }

  lemma RestIsEmpty(nums: seq<nat>, i: nat, total: nat)
    requires i < |nums| && total == Prefix(nums, |nums| - 1) && Pow2(i) / 2 >= total
    ensures forall l | i <= l < |nums| :: !MoreThanHalf(nums, l)
  {
    forall l | i <= l < |nums| ensures !MoreThanHalf(nums, l) {
      PrefixMono(nums, l, |nums| - 1);
      Pow2Mono(i, l);
    }
  }
}
