/** Machine-word bit operations on naturals, defined bit by bit, the arithmetic they stand
    for, and the register field accessors built from them (volatile.rs). */
module Bits {

  import opened Results

  function Pow2(n: nat): (r: nat)
    ensures r >= 1
  {
    if n == 0 then 1 else 2 * Pow2(n - 1)
  }

  /** `x << k`. */
  function Shl(x: nat, k: nat): (r: nat)
  {
    if k == 0 then x else 2 * Shl(x, k - 1)
  }

  /** `x >> k`. */
  function Shr(x: nat, k: nat): (r: nat)
    decreases k
  {
    if k == 0 then x else Shr(x / 2, k - 1)
  }

  /** The low k bits of x. */
  function Low(x: nat, k: nat): (r: nat)
    ensures r < Pow2(k) && r <= x
    decreases k
  {
    if k == 0 then 0 else x % 2 + 2 * Low(x / 2, k - 1)
  }

  function BitOr(a: nat, b: nat): (r: nat)
    decreases a + b
  {
    if a == 0 && b == 0 then 0
    else (if a % 2 == 1 || b % 2 == 1 then 1 else 0) + 2 * BitOr(a / 2, b / 2)
  }

  function BitAnd(a: nat, b: nat): (r: nat)
    decreases a + b
  {
    if a == 0 && b == 0 then 0
    else (if a % 2 == 1 && b % 2 == 1 then 1 else 0) + 2 * BitAnd(a / 2, b / 2)
  }

  /** `!a` in an n-bit word. */
  function BitNot(n: nat, a: nat): (r: nat)
    requires a < Pow2(n)
  {
    Pow2(n) - 1 - a
  }

  // ----- the bit operations as arithmetic -----

  lemma Pow2Next(k: nat)
    ensures Pow2(k + 1) == 2 * Pow2(k)
  {
  }

  lemma {:induction false} Pow2Add(a: nat, b: nat)
    ensures Pow2(a + b) == Pow2(a) * Pow2(b)
  {
    if a > 0 {
      Pow2Add(a - 1, b);
      assert Pow2(a + b) == 2 * Pow2(a - 1 + b);
    }
  }

  lemma {:induction false} Pow2Monotone(a: nat, b: nat)
    requires a <= b
    ensures Pow2(a) <= Pow2(b)
  {
    if a < b {
      Pow2Monotone(a, b - 1);
    }
  }

  lemma {:induction false} ShlIsMul(x: nat, k: nat)
    ensures Shl(x, k) == x * Pow2(k)
  {
    if k > 0 {
      ShlIsMul(x, k - 1);
      assert x * (2 * Pow2(k - 1)) == 2 * (x * Pow2(k - 1));
    }
  }

  /** Shifting right and keeping low bits are division and remainder by a power of two. */
  lemma {:induction false} ShrLowAreDivMod(x: nat, k: nat)
    ensures Shr(x, k) == x / Pow2(k) && Low(x, k) == x % Pow2(k)
    decreases k
  {
    if k > 0 {
      ShrLowAreDivMod(x / 2, k - 1);
      DivDiv(x, 2, Pow2(k - 1));
    }
  }

  lemma MulMonotone(a: nat, b: nat, c: nat)
    requires a <= b
    ensures a * c <= b * c
  {
    assert b * c == a * c + (b - a) * c;
  }

  /** Division with remainder is unique. */
  lemma QuotientUnique(d: nat, q: nat, r: nat, q': nat, r': nat)
    requires r < d && r' < d && q * d + r == q' * d + r'
    ensures q == q' && r == r'
  {
    if q < q' {
      MulMonotone(q + 1, q', d);
    } else if q' < q {
      MulMonotone(q' + 1, q, d);
    }
  }

  lemma DivModParts(x: nat, d: nat)
    requires d > 0
    ensures 0 <= x / d && 0 <= x % d < d && x == x / d * d + x % d
  {
  }

  /** The quotient and remainder of `q * d + r` are `q` and `r`. */
  lemma DivModUnique(q: nat, d: nat, r: nat)
    requires r < d
    ensures (q * d + r) / d == q && (q * d + r) % d == r
  {
    var x := q * d + r;
    DivModParts(x, d);
    QuotientUnique(d, q, r, x / d, x % d);
  }

  /** Dividing by `d` and then by `e` is dividing by `d * e`. */
  lemma DivDiv(x: nat, d: nat, e: nat)
    requires d > 0 && e > 0
    ensures d * e > 0
    ensures x / d / e == x / (d * e)
    ensures x % (d * e) == (x / d % e) * d + x % d
  {
    DivModParts(x, d);
    var q, r := x / d, x % d;
    DivModParts(q, e);
    var q', r' := q / e, q % e;
    Regroup(d, e, q', r', r);
    DivModUnique(q', d * e, r' * d + r);
  }

  lemma Regroup(d: nat, e: nat, q: nat, r: nat, s: nat)
    requires r < e && s < d
    ensures d * e > 0 && r * d + s < d * e
    ensures (q * e + r) * d + s == q * (d * e) + (r * d + s)
  {
    MulMonotone(r + 1, e, d);
    assert (q * e + r) * d == q * e * d + r * d;
    assert q * e * d == q * (d * e);
  }

  // ----- masks -----

  lemma {:induction false} OrZero(b: nat)
    ensures BitOr(0, b) == b && BitOr(b, 0) == b
  {
    if b > 0 {
      OrZero(b / 2);
    }
  }

  /** Or-ing numbers that occupy different bits adds them. */
  lemma {:induction false} OrDisjoint(a: nat, b: nat, k: nat)
    requires a < Pow2(k) && Low(b, k) == 0
    ensures BitOr(a, b) == a + b
    ensures BitOr(b, a) == a + b
    decreases k
  {
    if k == 0 {
      OrZero(b);
    } else if a != 0 || b != 0 {
      OrDisjoint(a / 2, b / 2, k - 1);
    }
  }

  /** Masking with `2^k - 1` keeps the low k bits. */
  lemma {:induction false} AndMask(a: nat, k: nat)
    ensures BitAnd(a, Pow2(k) - 1) == Low(a, k)
    ensures BitAnd(Pow2(k) - 1, a) == Low(a, k)
    decreases k, a
  {
    if k == 0 {
      if a > 0 {
        AndMask(a / 2, 0);
      }
    } else {
      AndMask(a / 2, k - 1);
    }
  }

  lemma {:induction false} LowOfSmall(a: nat, k: nat)
    ensures a < Pow2(k) <==> Low(a, k) == a
    decreases k
  {
    if k > 0 {
      LowOfSmall(a / 2, k - 1);
    }
  }

  lemma LowHalf(a: nat, k: nat)
    requires k > 0
    ensures Low(a, k) == a % 2 + 2 * Low(a / 2, k - 1)
    ensures a - Low(a, k) == 2 * (a / 2 - Low(a / 2, k - 1))
  {
  }

  /** `a & !(2^k - 1)`: rounding down to a power of two. */
  lemma {:induction false} AndNotMaskRoundsDown(n: nat, a: nat, k: nat)
    requires k <= n && a < Pow2(n)
    ensures Pow2(k) - 1 < Pow2(n)
    ensures BitAnd(a, BitNot(n, Pow2(k) - 1)) == a - Low(a, k)
    decreases k
  {
    hide BitAnd;
    Pow2Monotone(k, n);
    if k == 0 {
      AndAll(n, a);
    } else {
      AndNotMaskRoundsDown(n - 1, a / 2, k - 1);
      AndNotMaskStep(n, a, k);
    }
  }

  lemma AndAll(n: nat, a: nat)
    requires a < Pow2(n)
    ensures BitAnd(a, Pow2(n) - 1) == a
  {
    AndMask(a, n);
    LowOfSmall(a, n);
  }

  lemma AndNotMaskStep(n: nat, a: nat, k: nat)
    requires 0 < k <= n && Pow2(k) <= Pow2(n)
    requires BitAnd(a / 2, BitNot(n - 1, Pow2(k - 1) - 1)) == a / 2 - Low(a / 2, k - 1)
    ensures BitAnd(a, BitNot(n, Pow2(k) - 1)) == a - Low(a, k)
  {
    AndDouble(a, BitNot(n - 1, Pow2(k - 1) - 1));
    LowHalf(a, k);
  }

  // ----- register fields -----

  /** A w-bit mask shifted to bit s fits an n-bit word. */
  lemma {:induction false} FieldMaskFits(n: nat, s: nat, w: nat)
    requires s + w <= n
    ensures Shl(Pow2(w) - 1, s) < Pow2(n)
    decreases s
  {
    if s == 0 {
      Pow2Monotone(w, n);
    } else {
      FieldMaskFits(n - 1, s - 1, w);
    }
  }

  /** A value put into the field of w bits at bit s of an n-bit word. */
  function Overwritten(n: nat, v: nat, s: nat, w: nat, value: nat): (r: nat)
    requires s + w <= n && v < Pow2(n)
  {
    FieldMaskFits(n, s, w);
    BitOr(Shl(value, s), BitAnd(v, BitNot(n, Shl(Pow2(w) - 1, s))))
  }

  /** `Volatile::write_bits` on an n-bit register: None when the value does not fit the field.
      The source's `1 << width` and `mask << shift` demand amounts below the word size. */
  function WriteBits(n: nat, v: nat, shift: nat, width: nat, value: nat): (r: Option<nat>)
    requires shift < n && width < n && shift + width <= n && v < Pow2(n)
  {
    if BitAnd(Pow2(width) - 1, value) != value then None else Some(Overwritten(n, v, shift, width, value))
  }

  /** `Volatile::read_bits`. */
  function ReadBits(v: nat, shift: nat, width: nat): (r: nat)
  {
    BitAnd(Shr(v, shift), Pow2(width) - 1)
  }

  /** What a field write means: it fails exactly when the value does not fit; otherwise the
      field reads back the value, every bit below and above it is untouched, and the result
      still fits the register. */
  lemma WriteBitsField(n: nat, v: nat, shift: nat, width: nat, value: nat)
    requires shift < n && width < n && shift + width <= n && v < Pow2(n)
    ensures WriteBits(n, v, shift, width, value).None? <==> value >= Pow2(width)
    ensures value < Pow2(width) ==>
              var r := WriteBits(n, v, shift, width, value).value;
              && r < Pow2(n)
              && ReadBits(r, shift, width) == value
              && Low(r, shift) == Low(v, shift)
              && Shr(r, shift + width) == Shr(v, shift + width)
  {
    AndMask(value, width);
    LowOfSmall(value, width);
    if value < Pow2(width) {
      WriteBitsFits(n, v, shift, width, value);
    }
  }

  lemma {:induction false} WriteBitsFits(n: nat, v: nat, shift: nat, width: nat, value: nat)
    requires shift + width <= n && v < Pow2(n) && value < Pow2(width)
    ensures var r := Overwritten(n, v, shift, width, value);
            && r < Pow2(n)
            && ReadBits(r, shift, width) == value
            && Low(r, shift) == Low(v, shift)
            && Shr(r, shift + width) == Shr(v, shift + width)
    decreases shift
  {
    hide BitOr, BitNot;
    if shift == 0 {
      WriteLowBits(n, v, width, value);
      AndMask(Overwritten(n, v, 0, width, value), width);
    } else {
      WriteBitsFits(n - 1, v / 2, shift - 1, width, value);
      WriteBitsHalve(n, v, shift, width, value);
      FieldDoubles(Overwritten(n - 1, v / 2, shift - 1, width, value), v, shift, width);
    }
  }

  lemma FieldDoubles(half: nat, v: nat, shift: nat, width: nat)
    requires shift > 0
    ensures var r := v % 2 + 2 * half;
            && ReadBits(r, shift, width) == ReadBits(half, shift - 1, width)
            && Low(r, shift) == v % 2 + 2 * Low(half, shift - 1)
            && Low(v, shift) == v % 2 + 2 * Low(v / 2, shift - 1)
            && Shr(r, shift + width) == Shr(half, shift - 1 + width)
            && Shr(v, shift + width) == Shr(v / 2, shift - 1 + width)
  {
    assert (v % 2 + 2 * half) / 2 == half;
  }

  lemma WriteBitsHalve(n: nat, v: nat, shift: nat, width: nat, value: nat)
    requires 0 < shift && shift + width <= n && v < Pow2(n)
    ensures Overwritten(n, v, shift, width, value)
         == v % 2 + 2 * Overwritten(n - 1, v / 2, shift - 1, width, value)
  {
    FieldMaskFits(n, shift, width);
    FieldMaskFits(n - 1, shift - 1, width);
    var keep := BitNot(n - 1, Shl(Pow2(width) - 1, shift - 1));
    assert BitNot(n, Shl(Pow2(width) - 1, shift)) == 2 * keep + 1;
    AndDouble(v, keep);
    OrDouble(Shl(value, shift - 1), BitAnd(v / 2, keep), v % 2);
  }

  lemma {:induction false} AndDouble(a: nat, k: nat)
    ensures BitAnd(a, 2 * k) == 2 * BitAnd(a / 2, k)
    ensures BitAnd(a, 2 * k + 1) == a % 2 + 2 * BitAnd(a / 2, k)
  {
  }

  lemma OrDouble(a: nat, b: nat, bit: nat)
    requires bit < 2
    ensures BitOr(2 * a, bit + 2 * b) == bit + 2 * BitOr(a, b)
  {
  }

  /** The field at bit 0: the low bits are replaced. */
  lemma WriteLowBits(n: nat, v: nat, w: nat, x: nat)
    requires w <= n && v < Pow2(n) && x < Pow2(w)
    ensures Pow2(w) - 1 < Pow2(n)
    ensures var r := BitOr(x, BitAnd(v, BitNot(n, Pow2(w) - 1)));
            r < Pow2(n) && Low(r, w) == x && Shr(r, w) == Shr(v, w)
  {
    AndNotMaskRoundsDown(n, v, w);
    ReplaceLow(n, v, w, 0);
    ReplaceLow(n, v, w, x);
    OrDisjoint(x, v - Low(v, w), w);
  }

  lemma {:induction false} ReplaceLow(n: nat, v: nat, w: nat, x: nat)
    requires w <= n && v < Pow2(n) && x < Pow2(w)
    ensures var r := v - Low(v, w) + x;
            r < Pow2(n) && Low(r, w) == x && Shr(r, w) == Shr(v, w)
    decreases w
  {
    if w > 0 {
      ReplaceLow(n - 1, v / 2, w - 1, x / 2);
      var half := v / 2 - Low(v / 2, w - 1) + x / 2;
      LowHalf(v, w);
      assert v - Low(v, w) + x == 2 * half + x % 2;
      ReplaceLowStep(half, v, w, x);
    }
  }

  lemma ReplaceLowStep(half: nat, v: nat, w: nat, x: nat)
    requires w > 0 && Low(half, w - 1) == x / 2 && Shr(half, w - 1) == Shr(v / 2, w - 1)
    ensures Low(2 * half + x % 2, w) == x && Shr(2 * half + x % 2, w) == Shr(v, w)
  {
    assert (2 * half + x % 2) / 2 == half;
  }

  /** WriteBitsField in terms of division, for powers p = 2^shift, q = 2^width and
      t = 2^(shift + width). */
  lemma WriteBitsDivMod(n: nat, v: nat, shift: nat, width: nat, value: nat, p: nat, q: nat, t: nat)
    requires shift < n && width < n && shift + width <= n && v < Pow2(n) && value < q
    requires p == Pow2(shift) && q == Pow2(width) && t == Pow2(shift + width)
    ensures WriteBits(n, v, shift, width, value).Some?
    ensures var r := WriteBits(n, v, shift, width, value).value;
            r < Pow2(n) && r / p % q == value && r % p == v % p && r / t == v / t
  {
    WriteBitsField(n, v, shift, width, value);
    var r := WriteBits(n, v, shift, width, value).value;
    ReadIsDivMod(r, shift, width);
    ShrLowAreDivMod(r, shift);
    ShrLowAreDivMod(v, shift);
    ShrLowAreDivMod(r, shift + width);
    ShrLowAreDivMod(v, shift + width);
  }

  lemma ReadIsDivMod(v: nat, shift: nat, width: nat)
    ensures ReadBits(v, shift, width) == v / Pow2(shift) % Pow2(width)
  {
    AndMask(Shr(v, shift), width);
    ShrLowAreDivMod(v, shift);
    ShrLowAreDivMod(Shr(v, shift), width);
  }

  // ----- shifting and combining -----

  lemma {:induction false} ShrSplit(x: nat, a: nat, b: nat)
    ensures Shr(x, a + b) == Shr(Shr(x, a), b)
    decreases a
  {
    if a > 0 {
      ShrSplit(x / 2, a - 1, b);
    }
  }

  /** Numbers with equal low bits have equal fields inside those bits. */
  lemma {:induction false} LowDeterminesField(x: nat, y: nat, k: nat, s: nat, w: nat)
    requires s + w <= k && Low(x, k) == Low(y, k)
    ensures Low(Shr(x, s), w) == Low(Shr(y, s), w)
    decreases k
  {
    if s > 0 {
      LowDeterminesField(x / 2, y / 2, k - 1, s - 1, w);
    } else if w > 0 {
      LowDeterminesField(x / 2, y / 2, k - 1, 0, w - 1);
    }
  }

  /** Bits added from position k up leave the low k bits alone. */
  lemma {:induction false} LowOfSum(x: nat, y: nat, k: nat)
    ensures Low(x + Shl(y, k), k) == Low(x, k)
    decreases k
  {
    if k > 0 {
      LowOfSum(x / 2, y, k - 1);
      assert (x + Shl(y, k)) / 2 == x / 2 + Shl(y, k - 1);
    }
  }

  lemma LowOfShl(y: nat, k: nat)
    ensures Low(Shl(y, k), k) == 0
  {
    LowOfSum(0, y, k);
    LowOfSmall(0, k);
  }

  /** A right shift by s of a number plus bits from position k >= s up. */
  lemma {:induction false} ShrOfSum(x: nat, y: nat, k: nat, s: nat)
    requires s <= k
    ensures Shr(x + Shl(y, k), s) == Shr(x, s) + Shl(y, k - s)
    decreases s
  {
    if s > 0 {
      assert (x + Shl(y, k)) / 2 == x / 2 + Shl(y, k - 1);
      ShrOfSum(x / 2, y, k - 1, s - 1);
    }
  }

  lemma {:induction false} ShrBound(x: nat, k: nat, s: nat)
    requires s <= k && x < Pow2(k)
    ensures Shr(x, s) < Pow2(k - s)
    decreases s
  {
    if s > 0 {
      ShrBound(x / 2, k - 1, s - 1);
    }
  }

  lemma {:induction false} ShlSplit(y: nat, a: nat, b: nat)
    ensures Shl(y, a + b) == Shl(Shl(y, b), a)
    decreases a
  {
    if a > 0 {
      ShlSplit(y, a - 1, b);
    }
  }

  /** Truncating both sides of an or truncates the or. */
  lemma {:induction false} OrOfLow(x: nat, y: nat, n: nat)
    ensures BitOr(Low(x, n), Low(y, n)) == Low(BitOr(x, y), n)
    decreases n
  {
    if n == 0 {
      assert BitOr(0, 0) == 0;
    } else {
      OrOfLow(x / 2, y / 2, n - 1);
      OrOfLowStep(x, y, n);
    }
  }

  lemma OrOfLowStep(x: nat, y: nat, n: nat)
    requires n > 0 && BitOr(Low(x / 2, n - 1), Low(y / 2, n - 1)) == Low(BitOr(x / 2, y / 2), n - 1)
    ensures BitOr(Low(x, n), Low(y, n)) == Low(BitOr(x, y), n)
  {
    hide BitOr, Low;
    OrStep(x, y);
    OrStep(Low(x, n), Low(y, n));
    LowHalf(x, n);
    LowHalf(y, n);
    LowHalf(BitOr(x, y), n);
    assert Low(x, n) / 2 == Low(x / 2, n - 1) && Low(y, n) / 2 == Low(y / 2, n - 1);
  }

  lemma OrStep(x: nat, y: nat)
    ensures BitOr(x, y) % 2 == (if x % 2 == 1 || y % 2 == 1 then 1 else 0)
    ensures BitOr(x, y) / 2 == BitOr(x / 2, y / 2)
  {
  }

  /** Keeping k of n kept bits. */
  lemma {:induction false} LowOfLow(x: nat, n: nat, k: nat)
    requires k <= n
    ensures Low(Low(x, n), k) == Low(x, k)
    decreases k
  {
    if k > 0 {
      LowOfLow(x / 2, n - 1, k - 1);
      assert Low(x, n) / 2 == Low(x / 2, n - 1) && Low(x, n) % 2 == x % 2;
    }
  }
}
