/** Bytes as numbers, and bits packed into them from the most significant down. */
module Bits {
  import opened CArith

  type byte = b: int | 0 <= b < 256

  /** 0x80 >> k */
  function Mask(k: nat): (m: int)
    requires k < 8
    ensures 1 <= m <= 128
  {
    [128, 64, 32, 16, 8, 4, 2, 1][k]
  }

  /** (b >> (7 - k)) & 1 */
  predicate BitAt(b: byte, k: nat)
    requires k < 8
  {
    (b / Mask(k)) % 2 == 1
  }

  type Eight = s: seq<bool> | |s| == 8 witness [false, false, false, false, false, false, false, false]

  function Digit(b: bool): int {
    if b then 1 else 0
  }

  // The number the first n bits write.
  function Leading(s: Eight, n: nat): (v: nat)
    requires n <= 8
  {
    if n == 0 then 0 else 2 * Leading(s, n - 1) + Digit(s[n - 1])
  }

  function Power(n: nat): (p: nat)
    ensures p >= 1
  {
    if n == 0 then 1 else 2 * Power(n - 1)
  }

  lemma {:induction false} LeadingBelow(s: Eight, n: nat)
    requires n <= 8
    ensures Leading(s, n) < Power(n)
  {
    if n > 0 {
      LeadingBelow(s, n - 1);
    }
  }

  // What the bits after the first n contribute.
  lemma {:induction false} LeadingSplit(s: Eight, n: nat, m: nat)
    requires n <= m <= 8
    ensures RestBelow(Leading(s, n), Power(m - n), Leading(s, m))
    decreases m - n
  {
    hide RestBelow;
    if n < m {
      LeadingSplit(s, n, m - 1);
      DoubleRest(Leading(s, n), Power(m - 1 - n), Leading(s, m - 1), Digit(s[m - 1]));
    } else {
      NoRest(Leading(s, n));
    }
  }

  predicate RestBelow(l: int, p: int, v: int) {
    0 <= v - l * p < p
  }

  lemma DoubleRest(l: int, p: int, v: int, d: int)
    requires RestBelow(l, p, v) && 0 <= d <= 1
    ensures RestBelow(l, 2 * p, 2 * v + d)
  {
    assert l * (2 * p) == 2 * (l * p);
  }

  lemma NoRest(l: int)
    ensures RestBelow(l, 1, l)
  {
  }

  /** The byte with these bits, the first the most significant. */
  function FromBits(s: Eight): (b: byte)
  {
    LeadingBelow(s, 8);
    assert Power(8) == 256;
    Leading(s, 8)
  }

  lemma MaskIsPower(k: nat)
    requires k < 8
    ensures Mask(k) == Power(7 - k)
  {
    assert k in {0, 1, 2, 3, 4, 5, 6, 7};
    assert Power(1) == 2 && Power(2) == 4 && Power(3) == 8 && Power(4) == 16;
    assert Power(5) == 32 && Power(6) == 64 && Power(7) == 128;
  }

  /** Reading back the bits of a byte. */
  lemma BitOfFromBits(s: Eight, k: nat)
    requires k < 8
    ensures BitAt(FromBits(s), k) == s[k]
  {
    MaskIsPower(k);
    LeadingSplit(s, k + 1, 8);
    hide Mask, Power;
    var m := Mask(k);
    DivUnique(FromBits(s), m, Leading(s, k + 1), FromBits(s) - Leading(s, k + 1) * m);
    DivUnique(Leading(s, k + 1), 2, Leading(s, k), Digit(s[k]));
  }

  // Halving away the bits after the first n.
  lemma {:induction false} LeadingOf(b: byte, s: Eight, n: nat)
    requires n <= 8 && forall k :: 0 <= k < 8 ==> s[k] == BitAt(b, k)
    ensures Leading(s, n) == b / Power(8 - n)
  {
    hide BitAt;
    if n == 0 {
      assert Power(8) == 256;
    } else {
      LeadingOf(b, s, n - 1);
      MaskIsPower(n - 1);
      HalvePower(b, 8 - n);
      BitMeans(b, n - 1);
    }
  }

  lemma BitMeans(b: byte, k: nat)
    requires k < 8
    ensures Digit(BitAt(b, k)) == (b / Mask(k)) % 2
  {
    hide Mask;
  }

  lemma HalvePower(b: byte, n: nat)
    ensures b / Power(n) == 2 * (b / Power(n + 1)) + (b / Power(n)) % 2
  {
    var p := Power(n);
    assert Power(n + 1) == 2 * p;
    hide Power;
    var q, r := b / p, b % p;
    assert b == p * q + r;
    assert q == 2 * (q / 2) + q % 2;
    assert p * q == (2 * p) * (q / 2) + p * (q % 2);
    assert 0 <= p * (q % 2) + r < 2 * p;
    DivUnique(b, 2 * p, q / 2, p * (q % 2) + r);
  }

  function ToBits(b: byte): (s: Eight)
    ensures forall k :: 0 <= k < 8 ==> s[k] == BitAt(b, k)
  {
    seq(8, k requires 0 <= k < 8 => BitAt(b, k))
  }

  /** A byte is determined by its bits. */
  lemma FromToBits(b: byte)
    ensures FromBits(ToBits(b)) == b
  {
    hide BitAt;
    LeadingOf(b, ToBits(b), 8);
    assert Power(0) == 1;
  }

  /** b | (0x80 >> k) */
  function SetBit(b: byte, k: nat): (r: byte)
    requires k < 8
    ensures ToBits(r) == ToBits(b)[k := true]
  {
    hide BitAt;
    SetBitWorks(b, k);
    FromBits(ToBits(b)[k := true])
  }

  lemma SetBitWorks(b: byte, k: nat)
    requires k < 8
    ensures ToBits(FromBits(ToBits(b)[k := true])) == ToBits(b)[k := true]
  {
    hide BitAt;
    var s := ToBits(b)[k := true];
    forall j | 0 <= j < 8 ensures ToBits(FromBits(s))[j] == s[j] {
      BitOfFromBits(s, j);
    }
  }
}
