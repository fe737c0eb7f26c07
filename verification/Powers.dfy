/** Powers of 2 and of 256. */
module Powers {

  function Pow2(i: nat): (r: nat)
    ensures r > 0
  {
    if i == 0 then 1 else 2 * Pow2(i - 1)
  }

  ghost predicate PowerOfTwo(n: nat) { exists i: nat :: n == Pow2(i) }

  lemma {:induction false} Pow2Mono(i: nat, j: nat)
    requires i <= j
    ensures Pow2(i) <= Pow2(j)
    decreases j - i
  {
    if i < j { Pow2Mono(i, j - 1); }
  }

  lemma Pow2Strict(i: nat, j: nat)
    requires i < j
    ensures 2 * Pow2(i) <= Pow2(j)
  {
    Pow2Mono(i + 1, j);
  }

  lemma {:induction false} Pow2Add(i: nat, j: nat)
    ensures Pow2(i + j) == Pow2(i) * Pow2(j)
  {
    if i > 0 {
      Pow2Add(i - 1, j);
      assert Pow2(i + j) == 2 * Pow2(i - 1 + j);
      Assoc(2, Pow2(i - 1), Pow2(j));
    }
  }

  function Pow256(k: nat): (p: nat)
    ensures p >= 1
  {
    if k == 0 then 1 else 256 * Pow256(k - 1)
  }

  lemma {:induction false} PowAdd(a: nat, b: nat)
    ensures Pow256(a + b) == Pow256(a) * Pow256(b)
  {
    if a > 0 {
      PowAdd(a - 1, b);
      Assoc(256, Pow256(a - 1), Pow256(b));
    }
  }

  lemma Assoc(a: nat, b: nat, c: nat)
    ensures a * (b * c) == (a * b) * c
  {
  }

  lemma {:induction false} PowMonotone(a: nat, b: nat)
    requires a <= b
    ensures Pow256(a) <= Pow256(b)
    decreases b - a
  {
    if a < b { PowMonotone(a, b - 1); }
  }

  /** The numbers of 2, 4 and 8 bytes. */
  lemma PowValues()
    ensures Pow256(2) == 0x1_0000 && Pow256(4) == 0x1_0000_0000 && Pow256(8) == 0x1_0000_0000_0000_0000
  {
    assert Pow256(2) == 256 * (256 * Pow256(0));
    assert Pow256(4) == 256 * (256 * Pow256(2));
    PowAdd(4, 4);
  }

  /** Dividing twice. */
  lemma DivDiv(v: int, a: nat, b: nat)
    requires a > 0 && b > 0
    ensures v / (a * b) == v / a / b && v % (a * b) == v % a + a * (v / a % b)
  {
    var q, r := v / a, v % a;
    var p, s := q / b, q % b;
    Times(a, b, p, s);
    More(a, s, b);
    ModIsInt(v, a * b, p, a * s + r);
  }

  lemma Times(a: nat, b: nat, p: int, s: int)
    ensures a * (b * p + s) == (a * b) * p + a * s
  {
  }

  lemma More(d: nat, a: int, b: int)
    ensures a < b ==> d * a + d <= d * b
  {
    if a < b {
      var c := b - a - 1;
      assert d * b == d * a + d + d * c;
    }
  }

  lemma ModIsInt(v: int, d: nat, q: int, m: nat)
    requires d > 0 && v == d * q + m && m < d
    ensures v % d == m && v / d == q
  {
    var q2, m2 := v / d, v % d;
    assert v == d * q2 + m2;
    More(d, q, q2);
    More(d, q2, q);
  }
}
