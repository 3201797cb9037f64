/** 128-bit products, double-word shifts and the population count of the ARM64 intrinsics, over machine
    words of 64 bits.  Every operation that can wrap is reduced explicitly. */
module WideMultiply {

  const HALF: int := 0x1_0000_0000
  const WORD: int := 0x1_0000_0000_0000_0000

  /** DWORD64 */
  type u64 = x: int | 0 <= x < WORD
  /** LONG64 */
  type i64 = x: int | -0x8000_0000_0000_0000 <= x < 0x8000_0000_0000_0000

  function Wrap(x: int): u64 {
    x % WORD
  }

  // ---------------------------------------------------------------- powers and bits

  function Pow2(k: nat): (r: nat)
    ensures r > 0
  {
    if k == 0 then 1 else 2 * Pow2(k - 1)
  }

  lemma {:induction false} Pow2Add(a: nat, b: nat)
    ensures Pow2(a + b) == Pow2(a) * Pow2(b)
  {
    if a > 0 {
      Pow2Add(a - 1, b);
    }
  }

  lemma Pow2Word()
    ensures Pow2(64) == WORD && Pow2(32) == HALF
  {
    assert Pow2(8) == 256;
    Pow2Add(8, 8);
    assert Pow2(16) == 0x1_0000;
    Pow2Add(16, 16);
    assert Pow2(32) == HALF;
    Pow2Add(32, 32);
  }

  /** Quotient and remainder by a divisor that is not a literal. */
  function Quot(x: nat, d: nat): (r: nat)
    requires d > 0
    ensures r == x / d && d * r <= x < d * r + d
  {
    x / d
  }

  function Rem(x: nat, d: nat): (r: nat)
    requires d > 0
    ensures r == x - d * Quot(x, d) && r < d
  {
    x - d * Quot(x, d)
  }

  /** `x >> k` */
  function Shr(x: nat, k: nat): nat {
    Quot(x, Pow2(k))
  }

  /** `x & y` */
  function And(x: nat, y: nat): nat {
    if x == 0 then 0 else (if x % 2 == 1 && y % 2 == 1 then 1 else 0) + 2 * And(x / 2, y / 2)
  }

  /** `x | y` */
  function Or(x: nat, y: nat): nat
    decreases x + y
  {
    if x == 0 && y == 0 then 0
    else (if x % 2 == 1 || y % 2 == 1 then 1 else 0) + 2 * Or(x / 2, y / 2)
  }

  /** The number of set bits. */
  function Ones(x: nat): nat {
    if x == 0 then 0 else x % 2 + Ones(x / 2)
  }

  lemma {:induction false} OrZero(y: nat)
    ensures Or(0, y) == y
  {
    if y > 0 {
      OrZero(y / 2);
    }
  }

  lemma ShiftedHalves(y: nat, p: nat)
    requires p > 0
    ensures (y * (2 * p)) % 2 == 0 && (y * (2 * p)) / 2 == y * p
  {
    assert y * (2 * p) == 2 * (y * p);
  }

  /** Words with no bit in common. */
  lemma {:induction false} OrOfDisjoint(x: nat, y: nat, k: nat)
    requires x < Pow2(k)
    ensures Or(x, y * Pow2(k)) == x + y * Pow2(k)
  {
    if k == 0 {
      OrZero(y);
    } else {
      ShiftedHalves(y, Pow2(k - 1));
      OrOfDisjoint(x / 2, y, k - 1);
    }
  }

  // ---------------------------------------------------------------- UnsignedMultiply128

  /** (low, high) */
  function UnsignedMultiply128(a: u64, b: u64): (u64, u64) {
    AddCross(Wrap((a % HALF) * (b % HALF)), Wrap((a / HALF) * (b / HALF)),
             Wrap((a / HALF) * (b % HALF)), Wrap((a % HALF) * (b / HALF)))
  }

  /** The two words from the four partial products: each cross term is added across both words. */
  function AddCross(low: u64, high: u64, cross1: u64, cross2: u64): (u64, u64) {
    var low1 := Wrap(low + Wrap(cross1 * HALF));
    var high1 := Wrap(high + cross1 / HALF + if low1 < Wrap(cross1 * HALF) then 1 else 0);
    var low2 := Wrap(low1 + Wrap(cross2 * HALF));
    var high2 := Wrap(high1 + cross2 / HALF + if low2 < Wrap(cross2 * HALF) then 1 else 0);
    (low2, high2)
  }

  /** One cross term added across both words: the comparison finds exactly the carry. */
  lemma CarryIsFound(low: u64, cross: u64)
    ensures var add := Wrap(cross * HALF);
            var sum := Wrap(low + add);
            sum + WORD * (cross / HALF + if sum < add then 1 else 0) == low + cross * HALF
  {
    assert cross == HALF * (cross / HALF) + cross % HALF;
    assert cross * HALF == WORD * (cross / HALF) + (cross % HALF) * HALF;
    assert Wrap(cross * HALF) == (cross % HALF) * HALF;
  }

  lemma Monotone(x: int, y: int, m: int)
    requires 0 <= x <= m && 0 <= y
    ensures 0 <= x * y <= m * y
  {
  }

  lemma HalfProduct(x: nat, y: nat)
    requires x < HALF && y < HALF
    ensures 0 <= x * y <= (HALF - 1) * (HALF - 1)
  {
    Monotone(x, y, HALF - 1);
  }

  lemma Expand(a1: nat, a0: nat, b1: nat, b0: nat)
    ensures (a1 * HALF + a0) * (b1 * HALF + b0) ==
            a1 * b1 * WORD + (a1 * b0 + a0 * b1) * HALF + a0 * b0
  {
    var b := b1 * HALF + b0;
    assert (a1 * HALF + a0) * b == a1 * HALF * b + a0 * b;
    assert a0 * b == a0 * b1 * HALF + a0 * b0;
    assert a1 * HALF * b == HALF * (a1 * b);
    assert a1 * b == a1 * b1 * HALF + a1 * b0;
  }

  /** Both words together are the product: no carry is lost and neither word overflows. */
  lemma ProductIsExact(a: u64, b: u64)
    ensures var (low, high) := UnsignedMultiply128(a, b); high * WORD + low == a * b
  {
    var a1, a0, b1, b0 := a / HALF, a % HALF, b / HALF, b % HALF;
    HalfProduct(a1, b1);
    HalfProduct(a1, b0);
    HalfProduct(a0, b1);
    HalfProduct(a0, b0);
    Expand(a1, a0, b1, b0);
    var low0, high0, cross1, cross2 := a0 * b0, a1 * b1, a1 * b0, a0 * b1;
    assert a == a1 * HALF + a0 && b == b1 * HALF + b0;
    WrapSmall(low0);
    WrapSmall(high0);
    WrapSmall(cross1);
    WrapSmall(cross2);
    Combine(low0, high0, cross1, cross2, a * b);
    assert UnsignedMultiply128(a, b) == AddCross(low0, high0, cross1, cross2);
  }

  /** The two additions, on the four partial products. */
  lemma Combine(low0: u64, high0: u64, cross1: u64, cross2: u64, product: nat)
    requires product == high0 * WORD + (cross1 + cross2) * HALF + low0
    requires low0 <= (HALF - 1) * (HALF - 1) && high0 <= (HALF - 1) * (HALF - 1)
    requires cross1 <= (HALF - 1) * (HALF - 1) && cross2 <= (HALF - 1) * (HALF - 1)
    ensures var (low, high) := AddCross(low0, high0, cross1, cross2); high * WORD + low == product
  {
    hide Wrap;
    CarryIsFound(low0, cross1);
    var low1 := Wrap(low0 + Wrap(cross1 * HALF));
    CarryIsFound(low1, cross2);
    var high1 := high0 + cross1 / HALF + if low1 < Wrap(cross1 * HALF) then 1 else 0;
    WrapSmall(high1);
    var low2 := Wrap(low1 + Wrap(cross2 * HALF));
    WrapSmall(high1 + cross2 / HALF + if low2 < Wrap(cross2 * HALF) then 1 else 0);
  }

  lemma WrapSmall(x: int)
    ensures 0 <= x < WORD ==> Wrap(x) == x
  {
  }

  // ---------------------------------------------------------------- shifts

  /** `x << k`, cut to a word. */
  function Shl(x: nat, k: nat): u64 {
    Wrap(x * Pow2(k))
  }

  /** ShiftRight128; the shift is a byte of which six bits count. */
  function ShiftRight128(low: u64, high: u64, shift: bv8): nat {
    var s := shift as nat % 64;
    if s == 0 then low else Or(Shr(low, s), Shl(high, 64 - s))
  }

  /** ShiftLeft128 */
  function ShiftLeft128(low: u64, high: u64, shift: bv8): nat {
    var s := shift as nat % 64;
    if s == 0 then high else Or(Shl(high, s), Shr(low, 64 - s))
  }

  lemma UniqueQuotient(x: nat, d: nat, quotient: int, rest: int)
    requires d > 0 && x == quotient * d + rest && 0 <= rest < d
    ensures Quot(x, d) == quotient && Rem(x, d) == rest
  {
    var q := Quot(x, d);
    var e := q - quotient;
    assert d * e == d * q - quotient * d;
    assert d * e < d && d * e + d > 0;
    if e > 0 {
      Monotone(1, d, e);
    } else if e < 0 {
      Monotone(1, d, -e);
    }
  }

  /** A quotient, divided again by a word. */
  lemma WrapIs(x: nat, quotient: int, rest: int)
    requires x == quotient * WORD + rest && 0 <= rest < WORD
    ensures Wrap(x) == rest && x / WORD == quotient
  {
  }

  lemma DivBySplit(x: nat, p: nat, q: nat)
    requires p > 0 && q > 0 && x < p * q
    ensures Quot(x, p) < q
  {
    if Quot(x, p) >= q {
      Monotone(q, p, Quot(x, p));
    }
  }

  /** A left shift loses the bits above the word and leaves zeros below. */
  lemma TimesPower(x: nat, p: nat, q: nat)
    requires p > 0 && q > 0 && p * q == WORD
    ensures x * p == Quot(x, q) * WORD + Rem(x, q) * p && Rem(x, q) * p <= WORD - p
  {
    hide Quot, Rem;
    assert x * p == (q * Quot(x, q) + Rem(x, q)) * p;
    assert (q * Quot(x, q)) * p == Quot(x, q) * (p * q);
    Monotone(Rem(x, q), p, q - 1);
  }

  lemma ShlAs(x: nat, p: nat, q: nat)
    requires p > 0 && q > 0 && p * q == WORD
    ensures Wrap(x * p) == Rem(x, q) * p
  {
    hide Quot, Rem;
    TimesPower(x, p, q);
    WrapIs(x * p, Quot(x, q), Rem(x, q) * p);
  }

  lemma WordSplit(k: nat)
    requires k <= 64
    ensures Pow2(k) * Pow2(64 - k) == WORD
  {
    Pow2Add(k, 64 - k);
    Pow2Word();
  }

  lemma {:induction false} OrCommutes(x: nat, y: nat)
    ensures Or(x, y) == Or(y, x)
    decreases x + y
  {
    if x != 0 || y != 0 {
      OrCommutes(x / 2, y / 2);
    }
  }

  /** The low word of the 128-bit value after a right shift, the shift taken modulo 64. */
  lemma ShiftRightIsExact(low: u64, high: u64, shift: bv8)
    ensures ShiftRight128(low, high, shift) == Wrap(Shr(high * WORD + low, shift as nat % 64))
  {
    hide Pow2, Quot, Rem, Or;
    var s := shift as nat % 64;
    if s == 0 {
      ShiftByZero(high * WORD + low);
      WrapIs(high * WORD + low, high, low);
    } else {
      var p, q := Pow2(s), Pow2(64 - s);
      WordSplit(s);
      DivBySplit(low, p, q);
      ShlAs(high, q, p);
      OrOfDisjoint(Quot(low, p), Rem(high, p), 64 - s);
      RightParts(low, high, p, q);
    }
  }

  lemma ShiftByZero(x: nat)
    ensures Shr(x, 0) == x
  {
    UniqueQuotient(x, 1, x, 0);
  }

  lemma RightParts(low: u64, high: u64, p: nat, q: nat)
    requires p > 0 && q > 0 && p * q == WORD && Quot(low, p) < q
    ensures Wrap(Quot(high * WORD + low, p)) == Quot(low, p) + Rem(high, p) * q
  {
    hide Quot, Rem, Wrap;
    TimesPower(high, q, p);
    Reorder(high, q, p);
    Factor(p, high * q, Quot(low, p));
    UniqueQuotient(high * WORD + low, p, high * q + Quot(low, p), Rem(low, p));
    RightCore(high * q, Quot(low, p), Quot(high, p), Rem(high, p) * q);
  }

  lemma Reorder(high: nat, q: nat, p: nat)
    ensures p * (high * q) == high * (p * q)
  {
  }

  lemma RightCore(high: nat, lowQuot: nat, highQuot: nat, highRest: nat)
    requires high == highQuot * WORD + highRest && highRest + lowQuot < WORD
    ensures Wrap(high + lowQuot) == lowQuot + highRest
  {
    WrapIs(high + lowQuot, highQuot, highRest + lowQuot);
  }

  /** The high word of the 128-bit value after a left shift. */
  lemma ShiftLeftIsExact(low: u64, high: u64, shift: bv8)
    ensures ShiftLeft128(low, high, shift) == Wrap((high * WORD + low) * Pow2(shift as nat % 64) / WORD)
  {
    hide Pow2, Quot, Rem, Or;
    var s := shift as nat % 64;
    if s == 0 {
      assert Pow2(0) == 1 by { Pow2Zero(); }
      WrapIs(high * WORD + low, high, low);
    } else {
      var p, q := Pow2(s), Pow2(64 - s);
      WordSplit(s);
      DivBySplit(low, q, p);
      ShlAs(high, p, q);
      OrCommutes(Rem(high, q) * p, Quot(low, q));
      OrOfDisjoint(Quot(low, q), Rem(high, q), s);
      LeftParts(low, high, p, q);
    }
  }

  lemma Pow2Zero()
    ensures Pow2(0) == 1
  {
  }

  lemma LeftParts(low: u64, high: u64, p: nat, q: nat)
    requires p > 0 && q > 0 && p * q == WORD && Quot(low, q) < p
    ensures Wrap((high * WORD + low) * p / WORD) == Quot(low, q) + Rem(high, q) * p
  {
    hide Quot, Rem, Wrap;
    TimesPower(low, p, q);
    TimesPower(high, p, q);
    WordTimes(high, low, p);
    LeftCore(high * p, low * p, Quot(low, q), Quot(high, q), Rem(low, q) * p, Rem(high, q) * p);
  }

  lemma WordTimes(high: nat, low: nat, p: nat)
    ensures (high * WORD + low) * p == (high * p) * WORD + low * p
  {
  }

  lemma LeftCore(high: nat, low: nat, lowQuot: nat, highQuot: nat, lowRest: nat, highRest: nat)
    requires low == lowQuot * WORD + lowRest && lowRest < WORD
    requires high == highQuot * WORD + highRest && highRest + lowQuot < WORD
    ensures Wrap((high * WORD + low) / WORD) == lowQuot + highRest
  {
    hide Wrap;
    WrapIs(high * WORD + low, high + lowQuot, lowRest);
    WrapIs(high + lowQuot, highQuot, highRest + lowQuot);
  }

  /** UnsignedMultiplyExtract128 */
  function UnsignedMultiplyExtract128(a: u64, b: u64, shift: bv8): nat {
    var (low, high) := UnsignedMultiply128(a, b);
    ShiftRight128(low, high, shift)
  }

  /** The extracted word of the product, for every shift. */
  lemma ExtractIsExact(a: u64, b: u64, shift: bv8)
    ensures UnsignedMultiplyExtract128(a, b, shift) == Wrap(Shr(a * b, shift as nat % 64))
  {
    var (low, high) := UnsignedMultiply128(a, b);
    ProductIsExact(a, b);
    ShiftRightIsExact(low, high, shift);
  }

  // ---------------------------------------------------------------- signed products

  /** The 64-bit pattern as a signed value. */
  function Signed(x: u64): (r: i64)
    ensures Wrap(r) == x
  {
    if x < 0x8000_0000_0000_0000 then x else x - WORD
  }

  /** `x >> 63` */
  function SignMask(x: i64): i64 {
    if x < 0 then -1 else 0
  }

  /** Multiply128, as (low, high): the sign masks are subtracted as they are, that is, minus one. */
  function Multiply128(a: i64, b: i64): (i64, i64) {
    var (low, high) := UnsignedMultiply128(Wrap(a), Wrap(b));
    (Signed(low), Signed(Wrap(Wrap(high - SignMask(a) * b) - a * SignMask(b))))
  }

  /** When both factors are non-negative, when a negative one is multiplied by zero, and when the two
      negative factors add up to -2^63 or -2^64. */
  predicate SignedCase(a: i64, b: i64) {
    || (a >= 0 && b >= 0)
    || a == 0
    || b == 0
    || (a < 0 && b < 0 && (a + b == -0x8000_0000_0000_0000 || a + b == -WORD))
  }

  /** What the unsigned product has in its high word beyond the signed one, modulo a word. */
  function SignTerms(a: i64, b: i64): int {
    (if a < 0 then b else 0) + (if b < 0 then a else 0)
  }

  lemma UnsignedFactors(a: i64, b: i64)
    ensures Wrap(a) * Wrap(b) == a * b + WORD * SignTerms(a, b) + (if a < 0 && b < 0 then WORD * WORD else 0)
  {
    assert Wrap(a) == a + (if a < 0 then WORD else 0);
    assert Wrap(b) == b + (if b < 0 then WORD else 0);
    assert a < 0 ==> (a + WORD) * b == a * b + WORD * b;
    assert b < 0 ==> a * (b + WORD) == a * b + WORD * a;
    assert a < 0 && b < 0 ==> (a + WORD) * (b + WORD) == a * b + WORD * b + WORD * a + WORD * WORD;
  }

  lemma ProductRange(a: int, b: int, m: int)
    requires -m <= a <= m && -m <= b <= m
    ensures -m * m <= a * b <= m * m
  {
    var x, y := if a < 0 then -a else a, if b < 0 then -b else b;
    Monotone(x, y, m);
    Monotone(y, m, m);
    assert a * b == x * y || a * b == -(x * y);
  }

  lemma MaskedTerms(a: i64, b: i64)
    ensures -(SignMask(a) * b) - a * SignMask(b) == SignTerms(a, b)
  {
  }

  lemma WrapTwice(x: int, y: int, z: int)
    ensures Wrap(Wrap(x - y) - z) == Wrap(x - y - z)
  {
  }

  lemma SameResidue(x: i64, y: int)
    ensures x == Signed(Wrap(y)) ==> exists k: int :: y == x + k * WORD
  {
    if x == Signed(Wrap(y)) {
      assert y == x + (y / WORD + if x < 0 then 1 else 0) * WORD;
    }
  }

  /** The comparison of high words, with the product `p` as a number. */
  lemma SignedCore(a: i64, b: i64, p: int, low: u64, high: u64)
    requires high * WORD + low == p + WORD * SignTerms(a, b) + (if a < 0 && b < 0 then WORD * WORD else 0)
    requires -0x4000_0000_0000_0000 * WORD <= p <= 0x4000_0000_0000_0000 * WORD
    ensures Signed(Wrap(high + SignTerms(a, b))) * WORD + low == p <==> SignedCase(a, b)
  {
    hide Wrap, Signed;
    var terms := SignTerms(a, b);
    var right := high - terms - (if a < 0 && b < 0 then WORD else 0);
    var result := Signed(Wrap(high + terms));
    assert right * WORD + low == p;
    assert result * WORD + low == p <==> result == right;
    SameResidue(result, high + terms);
    var k: int :| high + terms == result + k * WORD;
    if SignedCase(a, b) {
      assert result == right;
    }
  }

  /** The two words are the signed product in exactly these cases. */
  lemma SignedProductIsExact(a: i64, b: i64)
    ensures var (low, high) := Multiply128(a, b);
            high * WORD + Wrap(low) == a * b <==> SignedCase(a, b)
  {
    var (low, high) := UnsignedMultiply128(Wrap(a), Wrap(b));
    UnsignedWords(a, b);
    ProductRange(a, b, 0x8000_0000_0000_0000);
    SignedWords(a, b);
    hide UnsignedMultiply128, Multiply128, Wrap, Signed, SignedCase, SignTerms;
    SignedCore(a, b, a * b, low, high);
  }

  lemma UnsignedWords(a: i64, b: i64)
    ensures var (low, high) := UnsignedMultiply128(Wrap(a), Wrap(b));
            high * WORD + low == a * b + WORD * SignTerms(a, b) + (if a < 0 && b < 0 then WORD * WORD else 0)
  {
    hide UnsignedMultiply128, Wrap;
    ProductIsExact(Wrap(a), Wrap(b));
    UnsignedFactors(a, b);
  }

  lemma SignedWords(a: i64, b: i64)
    ensures var (low, high) := UnsignedMultiply128(Wrap(a), Wrap(b));
            Multiply128(a, b) == (Signed(low), Signed(Wrap(high + SignTerms(a, b))))
  {
    hide UnsignedMultiply128, Wrap, Signed;
    var (low, high) := UnsignedMultiply128(Wrap(a), Wrap(b));
    HighWord(a, b, high);
  }

  lemma HighWord(a: i64, b: i64, high: int)
    ensures Wrap(Wrap(high - SignMask(a) * b) - a * SignMask(b)) == Wrap(high + SignTerms(a, b))
  {
    hide Wrap;
    WrapTwice(high, SignMask(a) * b, a * SignMask(b));
    MaskedTerms(a, b);
  }

  /** For example, 1 comes back as the high word of the product of -1 and 1. */
  lemma SignedProductFails()
    ensures Multiply128(-1, 1) == (-1, 1) && !SignedCase(-1, 1)
  {
    assert Wrap(-1) == WORD - 1 && Wrap(1) == 1;
    ProductIsExact(WORD - 1, 1);
    hide UnsignedMultiply128;
  }

  // ---------------------------------------------------------------- PopulationCount64

  /** The mask of `n` low halves, each `w` bits wide, of lanes twice as wide. */
  function Mask(w: nat, n: nat): nat {
    if n == 0 then 0 else Pow2(w) - 1 + Pow2(2 * w) * Mask(w, n - 1)
  }

  /** Those halves of `x`, in their places. */
  function Halves(x: nat, w: nat, n: nat): nat
    decreases n
  {
    if n == 0 then 0 else Rem(x, Pow2(w)) + Pow2(2 * w) * Halves(Shr(x, 2 * w), w, n - 1)
  }

  /** The sum of the `n` lowest lanes of `w` bits. */
  function Total(x: nat, w: nat, n: nat): nat
    decreases n
  {
    if n == 0 then 0 else Rem(x, Pow2(w)) + Total(Shr(x, w), w, n - 1)
  }

  /** One of the six steps: high halves moved down and added to the low halves. */
  function FoldStep(x: u64, high: nat, low: nat, w: nat): u64 {
    Wrap(Shr(And(x, high), w) + And(x, low))
  }

  function PopulationCount64(operand: u64): u64 {
    var x1 := FoldStep(operand, 0xAAAAAAAAAAAAAAAA, 0x5555555555555555, 1);
    var x2 := FoldStep(x1, 0xCCCCCCCCCCCCCCCC, 0x3333333333333333, 2);
    var x3 := FoldStep(x2, 0xF0F0F0F0F0F0F0F0, 0x0F0F0F0F0F0F0F0F, 4);
    var x4 := FoldStep(x3, 0xFF00FF00FF00FF00, 0x00FF00FF00FF00FF, 8);
    var x5 := FoldStep(x4, 0xFFFF0000FFFF0000, 0x0000FFFF0000FFFF, 16);
    FoldStep(x5, 0xFFFFFFFF00000000, 0x00000000FFFFFFFF, 32)
  }

  lemma {:induction false} AndZero(x: nat)
    ensures And(x, 0) == 0
  {
    if x > 0 {
      AndZero(x / 2);
    }
  }

  /** A shifted mask: the low bits of `x` are gone. */
  lemma {:induction false} AndShifted(x: nat, y: nat, k: nat)
    ensures And(x, y * Pow2(k)) == And(Shr(x, k), y) * Pow2(k)
  {
    hide Quot;
    if k == 0 {
      ShiftByZero(x);
    } else {
      HalfThenShift(x, k);
      AndShifted(x / 2, y, k - 1);
      AndShiftedNext(x, y, Pow2(k - 1), And(Shr(x, k), y));
    }
  }

  lemma AndShiftedNext(x: nat, y: nat, p: nat, shifted: nat)
    requires p > 0 && And(x / 2, y * p) == shifted * p
    ensures And(x, y * (2 * p)) == shifted * (2 * p)
  {
    hide And;
    ShiftedHalves(y, p);
    AndHalf(x, y * (2 * p));
    ShiftedHalves(shifted, p);
  }

  lemma AndHalf(x: nat, y: nat)
    requires y % 2 == 0
    ensures And(x, y) == 2 * And(x / 2, y / 2)
  {
  }

  lemma HalfThenShift(x: nat, k: nat)
    requires k > 0
    ensures Shr(x / 2, k - 1) == Shr(x, k)
  {
    hide Quot, Rem;
    QuotientTwice(x, 2, Pow2(k - 1));
  }

  lemma QuotientTwice(x: nat, p: nat, q: nat)
    requires p > 0 && q > 0
    ensures p * q > 0 && Quot(Quot(x, p), q) == Quot(x, p * q)
  {
    hide Quot, Rem;
    var y := Quot(x, p);
    var rest := p * Rem(y, q) + Rem(x, p);
    Monotone(Rem(y, q), p, q - 1);
    assert x == Quot(y, q) * (p * q) + rest by {
      assert p * y == p * (q * Quot(y, q)) + p * Rem(y, q);
      assert p * (q * Quot(y, q)) == Quot(y, q) * (p * q);
    }
    UniqueQuotient(x, p * q, Quot(y, q), rest);
  }

  lemma AndStep(x: nat, y: nat)
    ensures And(x, y) == (if x % 2 == 1 && y % 2 == 1 then 1 else 0) + 2 * And(x / 2, y / 2)
  {
  }

  lemma {:induction false} AndOnes(x: nat, k: nat)
    requires x < Pow2(k)
    ensures And(x, Pow2(k) - 1) == x
  {
    if k > 0 {
      AndStep(x, Pow2(k) - 1);
      AndOnes(x / 2, k - 1);
    }
  }

  lemma RemHalf(x: nat, p: nat)
    requires p > 0
    ensures Rem(x, 2 * p) % 2 == x % 2 && Rem(x, 2 * p) / 2 == Rem(x / 2, p)
  {
    hide Quot, Rem;
    QuotientTwice(x, 2, p);
    UniqueQuotient(x, 2, x / 2, x % 2);
    assert x == 2 * (p * Quot(x / 2, p) + Rem(x / 2, p)) + x % 2;
    assert 2 * (p * Quot(x / 2, p)) == Quot(x / 2, p) * (2 * p);
    UniqueQuotient(x, 2 * p, Quot(x / 2, p), 2 * Rem(x / 2, p) + x % 2);
  }

  lemma AndSplitNone(x: nat, m: nat)
    ensures And(x, m * Pow2(0)) == And(Rem(x, Pow2(0)), 0) + And(Shr(x, 0), m) * Pow2(0)
  {
    ShiftByZero(x);
    AndZero(Rem(x, Pow2(0)));
  }

  /** A mask with its low `k` bits apart. */
  lemma {:induction false} AndSplit(x: nat, c: nat, m: nat, k: nat)
    requires c < Pow2(k)
    ensures And(x, c + m * Pow2(k)) == And(Rem(x, Pow2(k)), c) + And(Shr(x, k), m) * Pow2(k)
  {
    if k == 0 {
      AndSplitNone(x, m);
    } else {
      AndSplit(x / 2, c / 2, m, k - 1);
      HalfThenShift(x, k);
      AndSplitNext(x, c, m, Pow2(k - 1), Shr(x, k));
    }
  }

  lemma AndSplitNext(x: nat, c: nat, m: nat, p: nat, high: nat)
    requires p > 0 && And(x / 2, c / 2 + m * p) == And(Rem(x / 2, p), c / 2) + And(high, m) * p
    ensures And(x, c + m * (2 * p)) == And(Rem(x, 2 * p), c) + And(high, m) * (2 * p)
  {
    hide Quot, Rem, And;
    RemHalf(x, p);
    AndStep(x, c + m * (2 * p));
    AndStep(Rem(x, 2 * p), c);
    ShiftedHalves(m, p);
    assert (c + m * (2 * p)) / 2 == c / 2 + m * p && (c + m * (2 * p)) % 2 == c % 2;
    ShiftedHalves(And(high, m), p);
  }

  lemma Double(w: nat)
    ensures Pow2(2 * w) == Pow2(w) * Pow2(w)
  {
    hide Pow2;
    Pow2Add(w, w);
    assert w + w == 2 * w;
  }

  lemma ShiftTwice(x: nat, j: nat, k: nat)
    ensures Shr(Shr(x, j), k) == Shr(x, j + k)
  {
    hide Quot;
    Pow2Add(j, k);
    QuotientTwice(x, Pow2(j), Pow2(k));
  }

  /** A low mask keeps the low halves. */
  lemma {:induction false} AndMask(x: nat, w: nat, n: nat)
    ensures And(x, Mask(w, n)) == Halves(x, w, n)
    decreases n
  {
    hide Quot, Rem, And, Pow2, Shr;
    if n == 0 {
      AndZero(x);
    } else {
      AndMask(Shr(x, 2 * w), w, n - 1);
      AndMaskNext(x, w, Mask(w, n - 1));
    }
  }

  lemma AndMaskNext(x: nat, w: nat, rest: nat)
    ensures And(x, Pow2(w) - 1 + Pow2(2 * w) * rest) == Rem(x, Pow2(w)) + Pow2(2 * w) * And(Shr(x, 2 * w), rest)
  {
    hide Quot, Rem, And, Pow2, Shr;
    var p := Pow2(w);
    Double(w);
    Regroup(p, rest);
    AndSplit(x, p - 1, rest * p, w);
    AndOnes(Rem(x, p), w);
    AndShifted(Shr(x, w), rest, w);
    ShiftTwice(x, w, w);
    assert w + w == 2 * w;
    Regroup(p, And(Shr(x, 2 * w), rest));
  }

  lemma Regroup(p: nat, y: nat)
    ensures (p * p) * y == (y * p) * p
  {
  }

  /** Adding the high halves to the low ones keeps the total, in lanes twice as wide. */
  lemma {:induction false} PairsKeepTotal(x: nat, w: nat, n: nat, bits: nat)
    requires w > 0 && bits == 2 * w * n
    ensures var y := Halves(Shr(x, w), w, n) + Halves(x, w, n);
            Total(y, 2 * w, n) == Total(x, w, 2 * n) && y < Pow2(bits)
    decreases n
  {
    hide Quot, Rem, Pow2, Shr, Halves, Total;
    if n == 0 {
      NoLanes(x, w);
      NoLanes(Shr(x, w), w);
    } else {
      var next := Shr(x, 2 * w);
      BitsNext(w, n, bits);
      PairsKeepTotal(next, w, n - 1, bits - 2 * w);
      HalvesNext(x, w, n);
      HalvesNext(Shr(x, w), w, n);
      ShiftsAgree(x, w);
      var y := Halves(Shr(next, w), w, n - 1) + Halves(next, w, n - 1);
      var low := Rem(Shr(x, w), Pow2(w)) + Rem(x, Pow2(w));
      Factor(Pow2(2 * w), Halves(Shr(next, w), w, n - 1), Halves(next, w, n - 1));
      OneLane(low, y, w, bits);
      TotalNext(low + Pow2(2 * w) * y, 2 * w, n);
      TotalNext(x, w, 2 * n);
      TotalNext(Shr(x, w), w, 2 * n - 1);
    }
  }

  lemma BitsNext(w: nat, n: nat, bits: nat)
    requires n > 0 && bits == 2 * w * n
    ensures bits - 2 * w == 2 * w * (n - 1) && bits >= 2 * w && 2 * n - 2 == 2 * (n - 1)
  {
    Factor(2 * w, n - 1, 1);
  }

  lemma Factor(q: nat, a: nat, b: nat)
    ensures q * a + q * b == q * (a + b)
  {
  }

  lemma ShiftsAgree(x: nat, w: nat)
    ensures Shr(Shr(x, w), w) == Shr(x, 2 * w) && Shr(Shr(x, w), 2 * w) == Shr(Shr(x, 2 * w), w)
  {
    hide Shr;
    ShiftTwice(x, w, w);
    ShiftTwice(x, w, 2 * w);
    ShiftTwice(x, 2 * w, w);
  }

  lemma NoLanes(x: nat, w: nat)
    ensures Halves(x, w, 0) == 0 && Total(x, w, 0) == 0 && Total(0, 2 * w, 0) == 0 && Pow2(0) == 1
  {
  }

  lemma HalvesNext(x: nat, w: nat, n: nat)
    requires n > 0
    ensures Halves(x, w, n) == Rem(x, Pow2(w)) + Pow2(2 * w) * Halves(Shr(x, 2 * w), w, n - 1)
  {
  }

  lemma TotalNext(x: nat, w: nat, n: nat)
    requires n > 0
    ensures Total(x, w, n) == Rem(x, Pow2(w)) + Total(Shr(x, w), w, n - 1)
  {
  }

  lemma AtLeastTwo(w: nat)
    requires w > 0
    ensures Pow2(w) >= 2
  {
  }

  /** The sum of two halves stays inside its lane. */
  lemma OneLane(low: nat, y: nat, w: nat, bits: nat)
    requires w > 0 && low <= 2 * (Pow2(w) - 1) && bits >= 2 * w && y < Pow2(bits - 2 * w)
    ensures Rem(low + Pow2(2 * w) * y, Pow2(2 * w)) == low && Shr(low + Pow2(2 * w) * y, 2 * w) == y
    ensures low + Pow2(2 * w) * y < Pow2(bits)
  {
    hide Pow2, Quot, Rem;
    var p, q, rest := Pow2(w), Pow2(2 * w), Pow2(bits - 2 * w);
    Double(w);
    AtLeastTwo(w);
    Pow2Add(2 * w, bits - 2 * w);
    Monotone(2, p, p);
    UniqueQuotient(low + q * y, q, y, low);
    Monotone(y, q, rest - 1);
    assert (rest - 1) * q == q * rest - q;
  }

  lemma StepKeepsTotal(x: u64, w: nat, n: nat)
    requires w > 0 && 2 * w * n == 64
    ensures Total(FoldStep(x, Mask(w, n) * Pow2(w), Mask(w, n), w), 2 * w, n) == Total(x, w, 2 * n)
  {
    hide Pow2, Quot, Rem, And, Total, Halves, Mask;
    AndShifted(x, Mask(w, n), w);
    var up := And(Shr(x, w), Mask(w, n));
    UniqueQuotient(up * Pow2(w), Pow2(w), up, 0);
    AndMask(x, w, n);
    AndMask(Shr(x, w), w, n);
    PairsKeepTotal(x, w, n, 64);
    Pow2Word();
  }

  /** The lowest lane of one bit, and the others. */
  lemma OneBit(x: nat, n: nat)
    requires n > 0
    ensures Total(x, 1, n) == x % 2 + Total(x / 2, 1, n - 1)
    ensures x < Pow2(n) ==> x / 2 < Pow2(n - 1)
  {
    hide Quot, Rem, Total;
    TotalNext(x, 1, n);
    Powers();
    UniqueQuotient(x, 2, x / 2, x % 2);
  }

  lemma {:induction false} TotalOfBits(x: nat, n: nat)
    requires x < Pow2(n)
    ensures Total(x, 1, n) == Ones(x)
  {
    hide Total;
    if n == 0 {
      NoLanes(x, 1);
    } else {
      hide Pow2;
      OneBit(x, n);
      TotalOfBits(x / 2, n - 1);
    }
  }

  lemma Distribute(q: nat, r: nat, x: nat, y: nat)
    ensures q * (x + r * y) == q * x + (q * r) * y
  {
  }

  lemma {:induction false} MaskAdd(w: nat, m: nat, n: nat, p: nat)
    requires p == Pow2(2 * w * m)
    ensures Mask(w, m + n) == Mask(w, m) + p * Mask(w, n)
    decreases m
  {
    hide Pow2;
    if m == 0 {
      Pow2Zero();
    } else {
      var q, r := Pow2(2 * w), Pow2(2 * w * (m - 1));
      MaskAdd(w, m - 1, n, r);
      assert 2 * w * m == 2 * w + 2 * w * (m - 1);
      Pow2Add(2 * w, 2 * w * (m - 1));
      Distribute(q, r, Mask(w, m - 1), Mask(w, n));
    }
  }

  lemma Powers()
    ensures Pow2(1) == 2 && Pow2(2) == 4 && Pow2(4) == 16 && Pow2(8) == 256 && Pow2(16) == 0x1_0000
    ensures Pow2(32) == HALF && Pow2(64) == WORD
  {
    Pow2Word();
    assert Pow2(4) == 16 && Pow2(8) == 256;
    Pow2Add(8, 8);
  }

  lemma MaskOne(w: nat)
    ensures Mask(w, 1) == Pow2(w) - 1
  {
    assert Mask(w, 0) == 0;
  }

  lemma Masks1()
    ensures Mask(1, 32) == 0x5555555555555555
  {
    hide Pow2, Mask;
    Powers();
    MaskOne(1);
    MaskAdd(1, 1, 1, 4);
    MaskAdd(1, 2, 2, 16);
    MaskAdd(1, 4, 4, 256);
    MaskAdd(1, 8, 8, 0x1_0000);
    MaskAdd(1, 16, 16, HALF);
  }

  lemma Masks2()
    ensures Mask(2, 16) == 0x3333333333333333
  {
    hide Pow2, Mask;
    Powers();
    MaskOne(2);
    MaskAdd(2, 1, 1, 16);
    MaskAdd(2, 2, 2, 256);
    MaskAdd(2, 4, 4, 0x1_0000);
    MaskAdd(2, 8, 8, HALF);
  }

  lemma Masks4()
    ensures Mask(4, 8) == 0x0F0F0F0F0F0F0F0F
  {
    hide Pow2, Mask;
    Powers();
    MaskOne(4);
    MaskAdd(4, 1, 1, 256);
    MaskAdd(4, 2, 2, 0x1_0000);
    MaskAdd(4, 4, 4, HALF);
  }

  lemma Masks8()
    ensures Mask(8, 4) == 0x00FF00FF00FF00FF
  {
    hide Pow2, Mask;
    Powers();
    MaskOne(8);
    MaskAdd(8, 1, 1, 0x1_0000);
    MaskAdd(8, 2, 2, HALF);
  }

  lemma Masks16()
    ensures Mask(16, 2) == 0x0000FFFF0000FFFF && Mask(32, 1) == 0x00000000FFFFFFFF
  {
    hide Pow2, Mask;
    Powers();
    MaskOne(16);
    MaskOne(32);
    MaskAdd(16, 1, 1, HALF);
  }

  lemma WholeWord(x: u64)
    ensures Total(x, 64, 1) == x
  {
    hide Pow2, Quot, Rem;
    Powers();
    UniqueQuotient(x, WORD, 0, x);
    assert Total(Shr(x, 64), 64, 0) == 0;
  }

  /** The six steps count the set bits of every word. */
  lemma PopulationCountIsExact(operand: u64)
    ensures PopulationCount64(operand) == Ones(operand)
  {
    hide Pow2, FoldStep, Total, Mask, Ones;
    Powers();
    Masks1();
    Masks2();
    Masks4();
    Masks8();
    Masks16();
    TotalOfBits(operand, 64);
    var x1 := FoldStep(operand, 0xAAAAAAAAAAAAAAAA, 0x5555555555555555, 1);
    StepKeepsTotal(operand, 1, 32);
    var x2 := FoldStep(x1, 0xCCCCCCCCCCCCCCCC, 0x3333333333333333, 2);
    StepKeepsTotal(x1, 2, 16);
    var x3 := FoldStep(x2, 0xF0F0F0F0F0F0F0F0, 0x0F0F0F0F0F0F0F0F, 4);
    StepKeepsTotal(x2, 4, 8);
    var x4 := FoldStep(x3, 0xFF00FF00FF00FF00, 0x00FF00FF00FF00FF, 8);
    StepKeepsTotal(x3, 8, 4);
    var x5 := FoldStep(x4, 0xFFFF0000FFFF0000, 0x0000FFFF0000FFFF, 16);
    StepKeepsTotal(x4, 16, 2);
    StepKeepsTotal(x5, 32, 1);
    WholeWord(PopulationCount64(operand));
  }
}
