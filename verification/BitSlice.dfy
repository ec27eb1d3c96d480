/** Bit fields of little-endian byte strings (bits.rs). */
module BitSlice {
  import opened Results
  import opened Numbers
  import opened Bits

  /** The number a little-endian byte string stands for. */
  function LittleEndian(bytes: seq<Byte>): (r: nat)
  {
    if bytes == [] then 0 else bytes[0] + Shl(LittleEndian(bytes[1..]), 8)
  }

  /** `extract_bits`: at most 63 bits are kept, a shift of 64 or more gives 0, and the shift
      amount itself is cut to 32 bits. */
  function ExtractBits(value: nat, shift: nat, width: nat): (r: nat)
  {
    var s := shift % 0x1_0000_0000;
    BitAnd(if s < 64 then Shr(value, s) else 0, Pow2(Min(63, width)) - 1)
  }

  lemma ExtractBitsValue(value: nat, shift: nat, width: nat)
    requires shift < 0x1_0000_0000
    ensures ExtractBits(value, shift, width) == Low(if shift < 64 then Shr(value, shift) else 0, Min(63, width))
  {
    hide Low, Shr, BitAnd, Pow2;
    AndMask(if shift < 64 then Shr(value, shift) else 0, Min(63, width));
  }

  /** What slicing a byte string means: the field of the number it stands for, or nothing when
      it is empty or reaches past the end. */
  function Slice(bytes: seq<Byte>, shift: nat, width: nat): (r: Option<nat>)
  {
    if width == 0 || shift + width > 8 * |bytes| then None
    else Some(Low(Shr(LittleEndian(bytes), shift), Min(63, width)))
  }

  /** In terms of division: (value / 2^shift) mod 2^width, for widths up to 63. */
  lemma SliceIsDivMod(bytes: seq<Byte>, shift: nat, width: nat)
    requires 0 < width <= 63 && shift + width <= 8 * |bytes|
    ensures Extract(bytes, shift, width) == Got(LittleEndian(bytes) / Pow2(shift) % Pow2(width))
  {
    ShrLowAreDivMod(LittleEndian(bytes), shift);
    ShrLowAreDivMod(Shr(LittleEndian(bytes), shift), width);
  }

  /** How many bytes a field touches. */
  function Touched(shift: nat, width: nat): (n: nat) { (shift + width + 7) / 8 - shift / 8 }

  /** `extract_bits_from_le_bytes`: byte i of a field is shifted left by 8 i bits in a 128-bit
      word, which panics from the seventeenth byte on. */
  function Extract(bytes: seq<Byte>, shift: nat, width: nat): (r: Attempt<nat>)
  {
    var slice := Slice(bytes, shift, width);
    if slice.None? then Nothing
    else if Touched(shift, width) > 16 then Panic
    else Got(slice.value)
  }

  /** The bits a caller asks for, all of them. */
  function FieldOf(bytes: seq<Byte>, shift: nat, width: nat): (v: nat)
    ensures v < Pow2(width)
  {
    Low(Shr(LittleEndian(bytes), shift), width)
  }

  /** One field comes back whole exactly when it touches at most 16 bytes and its bits from 63
      up are clear. */
  lemma WholeIff(bytes: seq<Byte>, shift: nat, width: nat)
    requires 0 < width && shift + width <= 8 * |bytes|
    ensures Extract(bytes, shift, width) == Got(FieldOf(bytes, shift, width))
       <==> Touched(shift, width) <= 16 && Shr(FieldOf(bytes, shift, width), 63) == 0
  {
    hide Low, Shr, LittleEndian, Pow2;
    var x := Shr(LittleEndian(bytes), shift);
    ShrZeroIff(FieldOf(bytes, shift, width), 63);
    if width <= 63 {
      Pow2Monotone(width, 63);
    } else {
      LowOfLow(x, width, 63);
      LowOfSmall(Low(x, width), 63);
    }
  }

  /** Nothing is left after k bits exactly when the number has at most k bits. */
  lemma {:induction false} ShrZeroIff(x: nat, k: nat)
    ensures Shr(x, k) == 0 <==> x < Pow2(k)
    decreases k
  {
    if k > 0 {
      ShrZeroIff(x / 2, k - 1);
    }
  }

  /** n bytes 0xFF: every bit of their number is set. */
  function AllOnes(n: nat): (bytes: seq<Byte>)
    ensures |bytes| == n
  {
    if n == 0 then [] else [255] + AllOnes(n - 1)
  }

  lemma {:induction false} AllOnesValue(n: nat)
    ensures LittleEndian(AllOnes(n)) == Pow2(8 * n) - 1
  {
    if n > 0 {
      AllOnesValue(n - 1);
      assert AllOnes(n)[1..] == AllOnes(n - 1);
      ByteShift(Pow2(8 * (n - 1)) - 1);
      Pow2Add(8, 8 * (n - 1));
      assert Pow2(8) == 256;
    }
  }

  lemma {:induction false} FieldOfOnes(a: nat, s: nat, w: nat)
    requires s + w <= a
    ensures Low(Shr(Pow2(a) - 1, s), w) == Pow2(w) - 1
    decreases a
  {
    if s > 0 {
      assert (Pow2(a) - 1) / 2 == Pow2(a - 1) - 1;
      FieldOfOnes(a - 1, s - 1, w);
    } else if w > 0 {
      assert (Pow2(a) - 1) / 2 == Pow2(a - 1) - 1;
      FieldOfOnes(a - 1, 0, w - 1);
    }
  }

  predicate ComesWhole(bytes: seq<Byte>, shift: nat, width: nat)
  {
    shift + width <= 8 * |bytes| ==> Extract(bytes, shift, width) == Got(FieldOf(bytes, shift, width))
  }

  /** What a caller can rely on for all data: every field at a place comes back whole if and
      only if its width is at most 63. */
  lemma AllWholeIff(shift: nat, width: nat)
    requires 0 < width
    ensures (forall bytes :: ComesWhole(bytes, shift, width)) <==> width <= 63
  {
    if width <= 63 {
      forall bytes: seq<Byte>
        ensures ComesWhole(bytes, shift, width)
      {
        if shift + width <= 8 * |bytes| {
          NarrowIsWhole(bytes, shift, width);
        }
      }
    } else {
      var n := (shift + width + 7) / 8;
      OnesAreCut(n, shift, width);
    }
  }

  lemma NarrowIsWhole(bytes: seq<Byte>, shift: nat, width: nat)
    requires 0 < width <= 63 && shift + width <= 8 * |bytes|
    ensures Extract(bytes, shift, width) == Got(FieldOf(bytes, shift, width))
  {
    hide Low, Shr, LittleEndian, Pow2;
    WholeIff(bytes, shift, width);
    ShrZeroIff(FieldOf(bytes, shift, width), 63);
    Pow2Monotone(width, 63);
  }

  /** A field of 64 ones or more is never returned whole. */
  lemma OnesAreCut(n: nat, shift: nat, width: nat)
    requires width >= 64 && shift + width <= 8 * n
    ensures !ComesWhole(AllOnes(n), shift, width)
  {
    hide Low, Shr, LittleEndian, Pow2, Extract;
    AllOnesValue(n);
    FieldOfOnes(8 * n, shift, width);
    WholeIff(AllOnes(n), shift, width);
    ShrZeroIff(FieldOf(AllOnes(n), shift, width), 63);
    Pow2Monotone(64, width);
    Pow2Next(63);
  }

  /** Eight bytes 0xFF read as one 64-bit field give 2^63 - 1, half of what was asked. */
  lemma SixtyFourOnes()
    ensures FieldOf(AllOnes(8), 0, 64) == Pow2(64) - 1
    ensures Extract(AllOnes(8), 0, 64) == Got(Pow2(63) - 1)
  {
    hide Low, Shr, LittleEndian, Pow2, AllOnes;
    AllOnesValue(8);
    FieldOfOnes(64, 0, 64);
    FieldOfOnes(64, 0, 63);
  }

  /** Where the source panics: a field of 17 bytes that the string holds. */
  lemma SeventeenBytesPanic(bytes: seq<Byte>)
    requires |bytes| >= 17
    ensures Extract(bytes, 0, 136) == Panic
  {
    hide Low, Shr, LittleEndian;
  }

  // ----- little-endian numbers -----

  lemma {:induction false} LittleEndianBound(bytes: seq<Byte>)
    ensures LittleEndian(bytes) < Pow2(8 * |bytes|)
    decreases |bytes|
  {
    if bytes != [] {
      LittleEndianBound(bytes[1..]);
      var L := LittleEndian(bytes[1..]);
      ByteShift(L);
      Pow2Add(8, 8 * (|bytes| - 1));
      assert Pow2(8) == 256;
    }
  }

  lemma ByteShift(x: nat)
    ensures Shl(x, 8) == 256 * x && Shr(x, 8) == x / 256
  {
    ShlIsMul(x, 8);
    ShrLowAreDivMod(x, 8);
    assert Pow2(8) == 256;
  }

  /** Appending a byte puts it above all others. */
  lemma {:induction false} LittleEndianAppend(bytes: seq<Byte>, tail: seq<Byte>)
    ensures LittleEndian(bytes + tail) == LittleEndian(bytes) + Shl(LittleEndian(tail), 8 * |bytes|)
    decreases |bytes|
  {
    if bytes == [] {
      assert bytes + tail == tail;
    } else {
      assert (bytes + tail)[1..] == bytes[1..] + tail;
      LittleEndianAppend(bytes[1..], tail);
      var L, T := LittleEndian(bytes[1..]), LittleEndian(tail);
      var k := 8 * (|bytes| - 1);
      ByteShift(L + Shl(T, k));
      ByteShift(L);
      ByteShift(Shl(T, k));
      ShlSplit(T, 8, k);
    }
  }

  /** Dropping j bytes shifts by 8 j bits. */
  lemma {:induction false} LittleEndianDrop(bytes: seq<Byte>, j: nat)
    requires j <= |bytes|
    ensures Shr(LittleEndian(bytes), 8 * j) == LittleEndian(bytes[j..])
    decreases j
  {
    if j == 0 {
      assert bytes[0..] == bytes;
    } else {
      LittleEndianDrop(bytes[1..], j - 1);
      assert bytes[1..][j - 1..] == bytes[j..];
      ByteShift(LittleEndian(bytes[1..]));
      ByteShift(LittleEndian(bytes));
      ShrSplit(LittleEndian(bytes), 8, 8 * (j - 1));
    }
  }

  /** Bit i of a field is bit (shift + i) mod 8 of byte (shift + i) / 8. */
  lemma FieldBit(bytes: seq<Byte>, shift: nat, width: nat, i: nat)
    requires i < width && shift + width <= 8 * |bytes|
    ensures FieldOf(bytes, shift, width) / Pow2(i) % 2 == bytes[(shift + i) / 8] / Pow2((shift + i) % 8) % 2
  {
    hide Low, Shr, Pow2, LittleEndian;
    var j, k := (shift + i) / 8, (shift + i) % 8;
    var x, rest := LittleEndian(bytes), LittleEndian(bytes[j..]);
    BitOfLow(Shr(x, shift), width, i);
    ShrSplit(x, shift, i);
    ShrSplit(x, 8 * j, k);
    LittleEndianDrop(bytes, j);
    BitOfLow(rest, 8, k);
    LowByte(bytes, j);
    ShrLowAreDivMod(FieldOf(bytes, shift, width), i);
    ShrLowAreDivMod(bytes[j], k);
  }

  lemma LowByte(bytes: seq<Byte>, j: nat)
    requires j < |bytes|
    ensures Low(LittleEndian(bytes[j..]), 8) == bytes[j]
  {
    hide LittleEndian, Shl, Shr, Low, Pow2;
    FirstByte(bytes[j..]);
    var rest := LittleEndian(bytes[j..][1..]);
    ByteShift(rest);
    ShrLowAreDivMod(LittleEndian(bytes[j..]), 8);
    ByteIsPower();
    LowOfByte(bytes[j], rest);
  }

  lemma LowOfByte(b: Byte, rest: nat)
    ensures (b + 256 * rest) % 256 == b
  {
  }

  lemma FirstByte(bytes: seq<Byte>)
    requires bytes != []
    ensures LittleEndian(bytes) == bytes[0] + Shl(LittleEndian(bytes[1..]), 8)
  {
    hide Shl;
  }

  lemma ByteIsPower()
    ensures Pow2(8) == 256
  {
  }

  lemma {:induction false} BitOfLow(x: nat, n: nat, i: nat)
    requires i < n
    ensures Shr(Low(x, n), i) % 2 == Shr(x, i) % 2
    decreases i
  {
    if i > 0 {
      BitOfLow(x / 2, n - 1, i - 1);
    }
  }

  // ----- the loop -----

  /** One byte's contribution: `((v << 8i) >> bit_shift) as u64`. */
  function Term(v: Byte, i: nat, bitShift: nat): (r: nat) { Low(Shr(Shl(v, 8 * i), bitShift), 64) }

  /** The accumulator after some bytes: their number shifted down, cut to 64 bits. */
  function Accumulated(bytes: seq<Byte>, bitShift: nat): (r: nat) { Low(Shr(LittleEndian(bytes), bitShift), 64) }

  lemma AccumulateByte(bytes: seq<Byte>, v: Byte, bitShift: nat)
    requires bitShift < 8
    ensures BitOr(Accumulated(bytes, bitShift), Term(v, |bytes|, bitShift)) == Accumulated(bytes + [v], bitShift)
  {
    hide Low, Shr, Shl, BitOr, LittleEndian, Pow2;
    var A, k := LittleEndian(bytes), 8 * |bytes|;
    LittleEndianAppend(bytes, [v]);
    OneByte(v);
    OrOfLow(Shr(A, bitShift), Shr(Shl(v, k), bitShift), 64);
    if bytes == [] {
      EmptyBytes(v, bitShift);
    } else {
      LittleEndianBound(bytes);
      ShrBound(A, k, bitShift);
      ShrOfSum(A, v, k, bitShift);
      ShrOfSum(0, v, k, bitShift);
      ShrZero(bitShift);
      LowOfShl(v, k - bitShift);
      OrDisjoint(Shr(A, bitShift), Shl(v, k - bitShift), k - bitShift);
    }
  }

  lemma {:induction false} ShrZero(s: nat)
    ensures Shr(0, s) == 0
  {
    if s > 0 {
      ShrZero(s - 1);
    }
  }

  lemma OneByte(v: Byte)
    ensures LittleEndian([v]) == v
  {
    assert [v][1..] == [];
    ByteShift(0);
  }

  lemma EmptyBytes(v: nat, s: nat)
    ensures LittleEndian([]) == 0 && Shl(v, 8 * 0) == v && Shr(0, s) == 0
    ensures BitOr(Shr(0, s), Shr(v, s)) == Shr(v, s)
  {
    ShrZero(s);
    OrZero(Shr(v, s));
  }

  /** The slice of a whole string is the slice of the bytes that cover it. */
  lemma SliceOfCover(bytes: seq<Byte>, start: nat, end: nat, s: nat, k: nat)
    requires start <= end <= |bytes| && s + k <= 8 * (end - start)
    ensures Low(Shr(LittleEndian(bytes), 8 * start + s), k) == Low(Shr(LittleEndian(bytes[start..end]), s), k)
  {
    LittleEndianDrop(bytes, start);
    ShrSplit(LittleEndian(bytes), 8 * start, s);
    var cover, rest := bytes[start..end], bytes[end..];
    assert bytes[start..] == cover + rest;
    LittleEndianAppend(cover, rest);
    var m := 8 * |cover|;
    hide Low, Shr, Shl, LittleEndian;
    LowOfSum(LittleEndian(cover), LittleEndian(rest), m);
    LowDeterminesField(LittleEndian(bytes[start..]), LittleEndian(cover), m, s, k);
  }

  lemma NothingAccumulated(bitShift: nat)
    ensures Accumulated([], bitShift) == 0
  {
    hide Low, Pow2;
    ShrZero(bitShift);
    LowOfZero(64);
  }

  lemma LowOfZero(k: nat)
    ensures Low(0, k) == 0
  {
    assert Low(0, k) <= 0;
  }

  /** `extract_bits_from_le_bytes`, byte by byte. */
  method ExtractBitsFromLeBytes(bytes: seq<Byte>, shift: nat, width: nat) returns (r: Attempt<nat>)
    ensures r == Extract(bytes, shift, width)
  {
    hide Low, Shr, Shl, LittleEndian, BitOr, Pow2, BitAnd;
    if width == 0 {
      return Nothing;
    }
    var start, end := shift / 8, (shift + width + 7) / 8;
    if end > |bytes| {
      return Nothing;
    }
    var bitShift := shift - start * 8;
    var cover := bytes[start..end];
    var value := 0;
    NothingAccumulated(bitShift);
    for i := 0 to |cover|
      invariant value == Accumulated(cover[..i], bitShift) && i <= 16
    {
      if 8 * i >= 128 {
        return Panic;
      }
      AccumulateByte(cover[..i], cover[i], bitShift);
      assert cover[..i + 1] == cover[..i] + [cover[i]];
      hide Accumulated;
      value := BitOr(value, Term(cover[i], i, bitShift));
    }
    assert cover[..|cover|] == cover;
    var k := Min(63, width);
    ExtractBitsValue(value, 0, width);
    ShrNothing(value);
    LowOfLow(Shr(LittleEndian(cover), bitShift), 64, k);
    SliceOfCover(bytes, start, end, bitShift, k);
    return Got(ExtractBits(value, 0, width));
  }

  lemma ShrNothing(x: nat)
    ensures Shr(x, 0) == x
  {
  }
}
