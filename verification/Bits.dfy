/** Unsigned machine words: the masks and truncating casts the timing wheel computes with. */
module Bits {

  const U16_LIMIT: nat := 0x1_0000
  const U32_LIMIT: nat := 0x1_0000_0000
  const U64_LIMIT: nat := 0x1_0000_0000_0000_0000

  function Smaller(a: nat, b: nat): nat {
    if a <= b then a else b
  }

  function SaturatingSub(a: nat, b: nat): nat {
    if b <= a then a - b else 0
  }

  /** Time between two instants, zero when they are in the wrong order. */
  function Elapsed(from: nat, to: nat): nat {
    SaturatingSub(to, from)
  }

  function Pow2(k: nat): (p: nat)
    ensures p >= 1
  {
    if k == 0 then 1 else 2 * Pow2(k - 1)
  }

  /** Bitwise AND of two unsigned words of any width. */
  function BitAnd(a: nat, b: nat): nat
    decreases a
  {
    if a == 0 || b == 0 then 0
    else (if a % 2 == 1 && b % 2 == 1 then 1 else 0) + 2 * BitAnd(a / 2, b / 2)
  }

  /** `x as u32`: the low 32 bits. */
  function AsU32(x: nat): nat {
    x % U32_LIMIT
  }

  /** `x as u64` (and `x as usize` on a 64-bit machine): the low 64 bits. */
  function AsU64(x: nat): nat {
    x % U64_LIMIT
  }

  /** Masking with `n - 1` is the remainder modulo `n` when `n` is a power of two. */
  lemma {:induction false} MaskIsMod(x: nat, k: nat)
    ensures BitAnd(x, Pow2(k) - 1) == x % Pow2(k)
    decreases k
  {
    if k == 0 {
    } else if x == 0 {
    } else {
      var p := Pow2(k - 1);
      MaskIsMod(x / 2, k - 1);
      assert (2 * p - 1) / 2 == p - 1 && (2 * p - 1) % 2 == 1;
      HalvedMod(x, p);
      if p == 1 {
        assert BitAnd(x / 2, 0) == 0;
      }
    }
  }

  lemma HalvedMod(x: nat, p: nat)
    requires p >= 1
    ensures x % (2 * p) == x % 2 + 2 * ((x / 2) % p)
  {
    var h := x / 2;
    var q, r := h / p, h % p;
    assert h == q * p + r;
    assert x == 2 * h + x % 2;
    assert x == q * (2 * p) + (x % 2 + 2 * r) by {
      assert 2 * (q * p) == q * (2 * p);
    }
    QuotientAndRemainder(x, 2 * p, q, x % 2 + 2 * r);
  }

  lemma MulAtLeast(k: int, d: int)
    requires d > 0
    ensures k >= 1 ==> k * d >= d
  {
    if k >= 1 { assert (k - 1) * d >= 0; }
  }

  /** Euclid's division is unique. */
  lemma QuotientAndRemainder(x: int, d: int, q: int, r: int)
    requires d > 0 && 0 <= r < d && x == q * d + r
    ensures x / d == q && x % d == r
  {
    var k := x / d - q;
    assert x == (x / d) * d + x % d;
    assert k * d == (x / d) * d - q * d;
    assert (-k) * d == -(k * d);
    MulAtLeast(k, d);
    MulAtLeast(-k, d);
  }

  lemma SmallMod(x: nat, n: nat)
    requires x < n
    ensures x % n == x
  {
    QuotientAndRemainder(x, n, 0, x);
  }

  lemma DivMonotone(a: nat, b: nat, d: nat)
    requires d > 0 && a <= b
    ensures a / d <= b / d
  {
    assert a == (a / d) * d + a % d && b == (b / d) * d + b % d;
    assert (a / d - b / d) * d == (a / d) * d - (b / d) * d;
    MulAtLeast(a / d - b / d, d);
  }

  /** A 64-bit sum of truncated summands is the true sum exactly if that fits 64 bits. */
  lemma WordSumIff(a: nat, b: nat)
    ensures AsU64(AsU64(a) + AsU64(b)) == a + b <==> a + b < U64_LIMIT
  {
    if a + b < U64_LIMIT {
      SmallMod(a, U64_LIMIT);
      SmallMod(b, U64_LIMIT);
      SmallMod(a + b, U64_LIMIT);
    }
  }

  /** Dropping high bits does not change a remainder modulo a smaller power of two. */
  lemma {:induction false} TruncateThenMod(x: nat, k: nat, w: nat)
    requires k <= w
    ensures (x % Pow2(w)) % Pow2(k) == x % Pow2(k)
    decreases k
  {
    if k > 0 {
      HalvedMod(x, Pow2(w - 1));
      HalvedMod(x % Pow2(w), Pow2(k - 1));
      HalvedMod(x, Pow2(k - 1));
      TruncateThenMod(x / 2, k - 1, w - 1);
      var r := (x / 2) % Pow2(w - 1);
      QuotientAndRemainder(x % Pow2(w), 2, r, x % 2);
    }
  }

  lemma {:induction false} Pow2Sum(a: nat, b: nat)
    ensures Pow2(a + b) == Pow2(a) * Pow2(b)
    decreases a
  {
    if a > 0 {
      Pow2Sum(a - 1, b);
      assert 2 * (Pow2(a - 1) * Pow2(b)) == (2 * Pow2(a - 1)) * Pow2(b);
    }
  }

  lemma Pow2Squared(k: nat, p: nat)
    requires Pow2(k) == p
    ensures Pow2(k + k) == p * p
  {
    Pow2Sum(k, k);
  }

  lemma Pow2OfFour()
    ensures Pow2(4) == 16
  {
    assert Pow2(2) == 4;
  }

  lemma WordSizes()
    ensures Pow2(32) == U32_LIMIT && Pow2(64) == U64_LIMIT
  {
    hide Pow2;
    Pow2OfFour();
    Pow2Squared(4, 16);
    Pow2Squared(8, 256);
    Pow2Squared(16, 65536);
    Pow2Squared(32, U32_LIMIT);
  }

  /** For a power-of-two modulus of at most 2^32, masking the low 32 or 64 bits of an
      offset selects the same slot as the full-width remainder. */
  lemma TruncatedMask(x: nat, k: nat)
    requires k <= 32
    ensures BitAnd(AsU32(x), Pow2(k) - 1) == x % Pow2(k)
    ensures BitAnd(AsU64(x), Pow2(k) - 1) == x % Pow2(k)
  {
    WordSizes();
    MaskIsMod(AsU32(x), k);
    MaskIsMod(AsU64(x), k);
    TruncateThenMod(x, k, 32);
    TruncateThenMod(x, k, 64);
  }

  lemma {:induction false} Pow2Monotone(a: nat, b: nat)
    requires a <= b
    ensures Pow2(a) <= Pow2(b)
    decreases b - a
  {
    if a < b { Pow2Monotone(a + 1, b); }
  }

  /** A slot mask for at most 2^32 slots survives the cast to 32 bits. */
  lemma MaskFitsU32(k: nat)
    requires k <= 32
    ensures AsU32(Pow2(k) - 1) == Pow2(k) - 1
  {
    WordSizes();
    Pow2Monotone(k, 32);
  }

  lemma MulSucc(j: nat, d: nat)
    ensures (j + 1) * d == j * d + d
  {
  }
}
