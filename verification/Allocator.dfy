/** The first-fit allocator (allocator.rs): rounding, splitting and the chunk list as values,
    then what every run of donations, allocations and frees keeps. */
module Allocator {
  import opened Results
  import opened Numbers
  import opened Bits

  const HEADER: nat := 32
  const PAGE: nat := 4096
  const WORD_BITS: nat := 64
  const WORD: nat := 0x1_0000_0000_0000_0000

  // ----- rounding -----

  /** 64 minus the leading zeros of a word. */
  function BitLength(n: nat): (r: nat)
  {
    if n == 0 then 0 else 1 + BitLength(n / 2)
  }

  lemma {:induction false} BitLengthBounds(n: nat)
    ensures n < Pow2(BitLength(n))
    ensures n > 0 ==> Pow2(BitLength(n) - 1) <= n
  {
    if n > 0 {
      BitLengthBounds(n / 2);
    }
  }

  /** `round_up_to_nearest_pow2`, with its wrapping subtraction and checked shift. */
  function RoundUp(v: nat): (r: Result<nat>)
    requires v < Pow2(WORD_BITS)
  {
    var shift := BitLength(if v == 0 then Pow2(WORD_BITS) - 1 else v - 1);
    if shift < WORD_BITS then Ok(Pow2(shift)) else Err("Out of range")
  }

  /** It is the least power of two not below v; there is none in a word exactly when v is 0
      or above 2^63. */
  lemma RoundUpIsLeast(v: nat)
    requires v < Pow2(WORD_BITS)
    ensures RoundUp(v).Ok? <==> 0 < v <= Pow2(WORD_BITS - 1)
    ensures RoundUp(v).Ok? ==> v <= RoundUp(v).value <= Pow2(WORD_BITS - 1)
    ensures RoundUp(v).Ok? ==> exists k: nat :: k < WORD_BITS && RoundUp(v).value == Pow2(k)
    ensures RoundUp(v).Ok? ==> forall k: nat :: v <= Pow2(k) ==> RoundUp(v).value <= Pow2(k)
  {
    hide Pow2;
    Pow2Next(WORD_BITS - 1);
    var n := if v == 0 then Pow2(WORD_BITS) - 1 else v - 1;
    var b := BitLength(n);
    BitLengthBounds(n);
    if b < WORD_BITS {
      Pow2Monotone(b, WORD_BITS - 1);
      forall k: nat | v <= Pow2(k) && v > 0
        ensures Pow2(b) <= Pow2(k)
      {
        if k < b {
          Pow2Monotone(k, b - 1);
        } else {
          Pow2Monotone(b, k);
        }
      }
    } else {
      Pow2Monotone(WORD_BITS - 1, b - 1);
    }
  }

  // ----- requests -----

  /** A `Layout`: a size and a power-of-two alignment, their rounded sum below 2^63. */
  datatype Layout = Layout(size: nat, alignLog: nat)

  function Align(l: Layout): (a: nat) ensures a > 0 { Pow2(l.alignLog) }

  predicate ValidLayout(l: Layout) { l.size + Align(l) <= Pow2(WORD_BITS - 1) }

  /** What `provide` works with: the rounded size and alignment, at least a header each. */
  datatype Need = Need(size: nat, align: nat)

  function Needs(l: Layout): (r: Option<Need>)
    requires ValidLayout(l)
  {
    Pow2Monotone(WORD_BITS - 1, WORD_BITS);
    var size := RoundUp(l.size);
    if size.Err? then None else Some(Need(Max(size.value, HEADER), Max(Align(l), HEADER)))
  }

  lemma {:induction false} Pow2Multiple(a: nat, k: nat)
    requires a <= k
    ensures Pow2(k) % Pow2(a) == 0
    decreases k - a
  {
    if a < k {
      Pow2Multiple(a, k - 1);
      Pow2Add(k - a, a);
      DivModUnique(Pow2(k - a), Pow2(a), 0);
    } else {
      DivModUnique(1, Pow2(a), 0);
    }
  }

  lemma Pow2Above32(k: nat)
    requires Pow2(k) >= HEADER
    ensures Pow2(k) % HEADER == 0
  {
    assert Pow2(5) == HEADER && Pow2(4) == 16;
    if k < 5 {
      Pow2Monotone(k, 4);
    } else {
      Pow2Multiple(5, k);
    }
  }

  /** Needs are multiples of 32 that cover the request, the alignment is a power of two that
      keeps the requested one, a zero-sized request has none, and `can_provide`'s sum stays
      inside a word. */
  lemma NeedsFacts(l: Layout)
    requires ValidLayout(l)
    ensures Needs(l).None? <==> l.size == 0
    ensures Needs(l).Some? ==>
              var n := Needs(l).value;
              && n.size >= l.size && n.size >= HEADER && n.size % HEADER == 0
              && n.align >= HEADER && n.align % HEADER == 0 && n.align % Align(l) == 0
              && n.size + 2 * HEADER + n.align < Pow2(WORD_BITS)
              && exists k: nat :: k <= WORD_BITS && n.align == Pow2(k)
  {
    hide Pow2, RoundUp;
    Pow2Monotone(WORD_BITS - 1, WORD_BITS);
    RoundUpIsLeast(l.size);
    if l.size > 0 {
      var k: nat :| k < WORD_BITS && RoundUp(l.size).value == Pow2(k);
      if Pow2(k) >= HEADER { Pow2Above32(k); }
      if Align(l) >= HEADER { Pow2Above32(l.alignLog); }
      AlignDivides(l);
      AlignBound(l);
      AlignIsPower(l);
    }
  }

  /** s is the least power of two that covers v. */
  ghost predicate LeastPower(v: nat, s: nat)
  {
    && v <= s && (exists k: nat :: s == Pow2(k))
    && forall k: nat :: v <= Pow2(k) ==> s <= Pow2(k)
  }

  /** A need, said directly: the size is the least power of two covering the request and 32
      bytes, the alignment the larger of the one asked for and 32. */
  lemma NeedIsLeast(l: Layout)
    requires ValidLayout(l) && l.size > 0
    ensures Needs(l).Some?
    ensures LeastPower(Max(l.size, 32), Needs(l).value.size)
    ensures Needs(l).value.align == Max(Pow2(l.alignLog), 32)
  {
    hide Pow2, RoundUp;
    Pow2Monotone(WORD_BITS - 1, WORD_BITS);
    RoundUpIsLeast(l.size);
    NeedsFacts(l);
    FiveIsHeader();
    assert Pow2(5) >= 32;
  }

  lemma LeastPowerUnique(v: nat, a: nat, b: nat)
    requires LeastPower(v, a) && LeastPower(v, b)
    ensures a == b
  {
  }

  lemma AlignIsPower(l: Layout)
    requires ValidLayout(l)
    ensures exists k: nat :: k <= WORD_BITS && Max(Align(l), HEADER) == Pow2(k)
  {
    hide Pow2;
    assert Pow2(5) == HEADER by { FiveIsHeader(); }
    if l.alignLog > WORD_BITS {
      Pow2Monotone(WORD_BITS, l.alignLog);
      Pow2Next(WORD_BITS - 1);
      assert false;
    }
    assert Max(Align(l), HEADER) == Pow2(if Align(l) < HEADER then 5 else l.alignLog);
  }

  lemma FiveIsHeader()
    ensures Pow2(5) == HEADER
  {
  }

  lemma AlignDivides(l: Layout)
    ensures Max(Align(l), HEADER) % Align(l) == 0
  {
    assert Pow2(5) == HEADER;
    if Align(l) < HEADER {
      if l.alignLog >= 5 { Pow2Monotone(5, l.alignLog); }
      Pow2Multiple(l.alignLog, 5);
    } else {
      Pow2Multiple(l.alignLog, l.alignLog);
    }
  }

  lemma AlignBound(l: Layout)
    requires ValidLayout(l) && l.size > 0
    ensures HEADER <= Pow2(WORD_BITS - 1)
    ensures Pow2(WORD_BITS - 1) + 2 * HEADER + Max(Align(l), HEADER) < Pow2(WORD_BITS)
  {
    if l.alignLog >= WORD_BITS - 1 {
      Pow2Monotone(WORD_BITS - 1, l.alignLog);
    }
    Pow2Monotone(l.alignLog, WORD_BITS - 2);
    Pow2Monotone(8, WORD_BITS - 2);
    assert Pow2(8) == 256;
  }

  // ----- chunks -----

  /** A header and the bytes it governs: `size` counts both. */
  datatype Chunk = Chunk(addr: nat, size: nat, taken: bool)

  function End(c: Chunk): (r: nat) { c.addr + c.size }

  predicate CanProvide(c: Chunk, n: Need) { c.size >= n.size + HEADER * 2 + n.align }

  predicate Serves(c: Chunk, n: Need) { !c.taken && CanProvide(c, n) }

  /** Where the payload goes: as high as alignment allows. */
  function PayloadAddr(c: Chunk, n: Need): (p: nat)
    requires CanProvide(c, n) && n.align > 0
  {
    (End(c) - n.size) - (End(c) - n.size) % n.align
  }

  /** The chunks that replace one that serves: the shrunk rest, the allocation and, when the
      alignment left a gap at the end, a free padding chunk. */
  function Split(c: Chunk, n: Need): (r: seq<Chunk>)
    requires CanProvide(c, n) && n.align > 0
    ensures 2 <= |r| <= 3
  {
    var p := PayloadAddr(c, n);
    var pad := End(c) - (p + n.size);
    [Chunk(c.addr, c.size - (n.size + HEADER + pad), false), Chunk(p - HEADER, n.size + HEADER, true)]
    + if pad == 0 then [] else [Chunk(p + n.size, pad, false)]
  }

  /** The payload address as the source computes it, with a mask. */
  lemma PayloadIsMasked(c: Chunk, n: Need, k: nat)
    requires CanProvide(c, n) && n.align == Pow2(k) && k <= WORD_BITS && End(c) < Pow2(WORD_BITS)
    ensures n.align - 1 < Pow2(WORD_BITS)
    ensures PayloadAddr(c, n) == BitAnd(End(c) - n.size, BitNot(WORD_BITS, n.align - 1))
  {
    hide Pow2, BitAnd, Low, Shr;
    AndNotMaskRoundsDown(WORD_BITS, End(c) - n.size, k);
    ShrLowAreDivMod(End(c) - n.size, k);
  }

  predicate GoodChunk(c: Chunk) { c.addr % HEADER == 0 && c.size % HEADER == 0 && c.size >= HEADER }

  predicate GoodNeed(n: Need)
  {
    n.size >= HEADER && n.size % HEADER == 0 && n.align >= HEADER && n.align % HEADER == 0
  }

  /** Chunks that follow one another from `start` for `size` bytes. */
  predicate Abut(cs: seq<Chunk>, start: nat, size: nat)
    decreases |cs|
  {
    if cs == [] then size == 0
    else cs[0].addr == start && cs[0].size <= size && Abut(cs[1..], start + cs[0].size, size - cs[0].size)
  }

  /** Remainders modulo a multiple of 32 of a multiple of 32 are multiples of 32. */
  lemma AlignedRemainder(x: nat, a: nat)
    requires x % HEADER == 0 && a > 0 && a % HEADER == 0
    ensures 0 <= x % a < a && x % a % HEADER == 0 && x % a <= x
  {
    DivModParts(x, a);
    MulMultiple(x / a, a);
    DifferenceMultiple(x, x / a * a, x % a);
  }

  lemma DifferenceMultiple(x: nat, y: nat, r: nat)
    requires x == y + r && x % HEADER == 0 && y % HEADER == 0
    ensures r % HEADER == 0
  {
    var p, q := x / HEADER, y / HEADER;
    assert x == HEADER * p && y == HEADER * q && r == HEADER * (p - q);
  }

  lemma MulMultiple(q: nat, a: nat)
    requires a % HEADER == 0
    ensures (q * a) % HEADER == 0
  {
    var m := a / HEADER;
    assert a == m * HEADER;
    assert q * a == (q * m) * HEADER + 0 by { MulAssoc(q, m, HEADER); }
    DivModUnique(q * m, HEADER, 0);
  }

  lemma MulAssoc(a: nat, b: nat, c: nat)
    ensures a * (b * c) == (a * b) * c
  {
  }

  /** The payload is a multiple of the alignment, and of every divisor of it. */
  lemma PayloadAligned(c: Chunk, n: Need, a: nat)
    requires CanProvide(c, n) && n.align > 0 && a > 0 && n.align % a == 0
    ensures PayloadAddr(c, n) % a == 0
  {
    var x := End(c) - n.size;
    DivModParts(x, n.align);
    DivModParts(n.align, a);
    var q, m := x / n.align, n.align / a;
    MulAssoc(q, m, a);
    assert PayloadAddr(c, n) == q * n.align == (q * m) * a + 0;
    DivModUnique(q * m, a, 0);
  }

  /** A split's arithmetic: the assertion before the shrink holds, the padding is absent or at
      least one header, and the payload lies inside. */
  lemma SplitFacts(c: Chunk, n: Need)
    requires GoodChunk(c) && GoodNeed(n) && CanProvide(c, n)
    ensures var p := PayloadAddr(c, n);
            var pad := End(c) - (p + n.size);
            && c.size >= (n.size + HEADER + pad) + HEADER
            && pad >= 0 && pad % HEADER == 0
            && p % HEADER == 0 && c.addr + 2 * HEADER <= p
  {
    var x := End(c) - n.size;
    AlignedRemainder(x, n.align);
    SplitArithmetic(c, n, PayloadAddr(c, n), x % n.align);
  }

  lemma SplitArithmetic(c: Chunk, n: Need, p: nat, gap: nat)
    requires GoodChunk(c) && GoodNeed(n) && CanProvide(c, n)
    requires p + n.size + gap == End(c) && gap < n.align && gap % HEADER == 0
    ensures c.size >= n.size + HEADER + gap + HEADER && p % HEADER == 0 && c.addr + 2 * HEADER <= p
  {
  }

  /** A split tiles the chunk it replaces with well-formed chunks, in address order. */
  lemma SplitTiles(c: Chunk, n: Need)
    requires GoodChunk(c) && GoodNeed(n) && CanProvide(c, n)
    ensures Abut(Split(c, n), c.addr, c.size)
    ensures forall k :: 0 <= k < |Split(c, n)| ==> GoodChunk(Split(c, n)[k])
  {
    hide PayloadAddr, Abut;
    SplitFacts(c, n);
    var p := PayloadAddr(c, n);
    var pad := End(c) - (p + n.size);
    SplitGood(c, n, p, pad);
    var a, b := Chunk(c.addr, c.size - (n.size + HEADER + pad), false), Chunk(p - HEADER, n.size + HEADER, true);
    if pad == 0 {
      AbutTwo(a, b);
      assert Split(c, n) == [a, b];
    } else {
      AbutThree(a, b, Chunk(p + n.size, pad, false));
      assert Split(c, n) == [a, b, Chunk(p + n.size, pad, false)];
    }
  }

  lemma SplitGood(c: Chunk, n: Need, p: nat, pad: nat)
    requires GoodChunk(c) && GoodNeed(n) && p % HEADER == 0 && pad % HEADER == 0 && p >= HEADER
    requires c.size >= n.size + HEADER + pad + HEADER
    ensures GoodChunk(Chunk(c.addr, c.size - (n.size + HEADER + pad), false))
    ensures GoodChunk(Chunk(p - HEADER, n.size + HEADER, true))
    ensures pad > 0 ==> GoodChunk(Chunk(p + n.size, pad, false))
  {
  }

  lemma AbutTwo(a: Chunk, b: Chunk)
    requires End(a) == b.addr
    ensures Abut([a, b], a.addr, a.size + b.size)
  {
    assert [a, b][1..] == [b] && [b][1..] == [];
    assert Abut([b], b.addr, b.size);
  }

  lemma AbutThree(a: Chunk, b: Chunk, c: Chunk)
    requires End(a) == b.addr && End(b) == c.addr
    ensures Abut([a, b, c], a.addr, a.size + b.size + c.size)
  {
    assert [a, b, c][1..] == [b, c];
    AbutTwo(b, c);
  }

  // ----- the chunk list over the donated regions -----

  datatype Region = Region(start: nat, size: nat)

  /** The list tiles the regions: within each, in turn, chunks abut in address order from its
      start to its end. */
  predicate Tiled(cs: seq<Chunk>, rs: seq<Region>)
    decreases |cs|
  {
    if cs == [] || rs == [] then cs == [] && rs == []
    else
      && cs[0].addr == rs[0].start && 0 < cs[0].size <= rs[0].size
      && Tiled(cs[1..], Remaining(rs, cs[0].size))
  }

  /** The regions still to tile after a chunk at the front of the first. */
  function Remaining(rs: seq<Region>, size: nat): (r: seq<Region>)
    requires rs != [] && size <= rs[0].size
  {
    if size == rs[0].size then rs[1..]
    else [Region(rs[0].start + size, rs[0].size - size)] + rs[1..]
  }

  lemma NothingLeft(cs: seq<Chunk>, start: nat)
    requires Abut(cs, start, 0) && forall k :: 0 <= k < |cs| ==> cs[k].size > 0
    ensures cs == []
  {
  }

  /** Replacing the first chunk by abutting ones keeps the tiling. */
  lemma {:induction false} TileFront(new': seq<Chunk>, c: Chunk, rest: seq<Chunk>, rs: seq<Region>)
    requires Tiled([c] + rest, rs) && Abut(new', c.addr, c.size) && forall k :: 0 <= k < |new'| ==> new'[k].size > 0
    ensures Tiled(new' + rest, rs)
    decreases |new'|
  {
    assert ([c] + rest)[1..] == rest && ([c] + rest)[0] == c;
    var d := new'[0];
    var rs' := Remaining(rs, d.size);
    assert (new' + rest)[0] == d && (new' + rest)[1..] == new'[1..] + rest;
    if d.size == c.size {
      NothingLeft(new'[1..], c.addr + c.size);
      assert new'[1..] + rest == rest;
    } else {
      var c' := Chunk(c.addr + d.size, c.size - d.size, c.taken);
      assert ([c'] + rest)[1..] == rest;
      assert Remaining(rs', c'.size) == Remaining(rs, c.size);
      TileFront(new'[1..], c', rest, rs');
    }
  }

  /** ... and so does replacing any chunk. */
  lemma {:induction false} TileAt(cs: seq<Chunk>, i: nat, new': seq<Chunk>, rs: seq<Region>)
    requires Tiled(cs, rs) && i < |cs|
    requires Abut(new', cs[i].addr, cs[i].size) && forall k :: 0 <= k < |new'| ==> new'[k].size > 0
    ensures Tiled(cs[..i] + new' + cs[i + 1..], rs)
    decreases i
  {
    hide Abut, Remaining;
    if i == 0 {
      assert [cs[0]] + cs[1..] == cs && cs[..0] + new' + cs[1..] == new' + cs[1..];
      TileFront(new', cs[0], cs[1..], rs);
    } else {
      TileAt(cs[1..], i - 1, new', Remaining(rs, cs[0].size));
      var r := cs[..i] + new' + cs[i + 1..];
      assert r[1..] == cs[1..][..i - 1] + new' + cs[1..][i..];
      TileStep(cs, r, rs);
    }
  }

  lemma TileStep(cs: seq<Chunk>, r: seq<Chunk>, rs: seq<Region>)
    requires cs != [] && r != [] && r[0] == cs[0] && Tiled(cs, rs)
    requires Tiled(r[1..], Remaining(rs, cs[0].size))
    ensures Tiled(r, rs)
  {
  }

  function TotalChunks(cs: seq<Chunk>): (n: nat) { if cs == [] then 0 else cs[0].size + TotalChunks(cs[1..]) }
  function TotalRegions(rs: seq<Region>): (n: nat) { if rs == [] then 0 else rs[0].size + TotalRegions(rs[1..]) }

  /** Bytes are conserved: the chunks hold exactly what was donated. */
  lemma {:induction false} BytesConserved(cs: seq<Chunk>, rs: seq<Region>)
    requires Tiled(cs, rs)
    ensures TotalChunks(cs) == TotalRegions(rs)
    decreases |cs|
  {
    if cs != [] {
      var rs' := Remaining(rs, cs[0].size);
      BytesConserved(cs[1..], rs');
      if cs[0].size != rs[0].size {
        assert rs'[1..] == rs[1..];
      }
    }
  }

  predicate Apart(a: nat, aSize: nat, b: nat, bSize: nat) { a + aSize <= b || b + bSize <= a }

  predicate RegionsApart(rs: seq<Region>)
  {
    forall i, j :: 0 <= i < j < |rs| ==> Apart(rs[i].start, rs[i].size, rs[j].start, rs[j].size)
  }

  predicate Within(c: Chunk, r: Region) { r.start <= c.addr && End(c) <= r.start + r.size }

  /** Every chunk lies in a donated region. */
  lemma {:induction false} ChunkInRegion(cs: seq<Chunk>, rs: seq<Region>, i: nat) returns (r: nat)
    requires Tiled(cs, rs) && i < |cs|
    ensures r < |rs| && Within(cs[i], rs[r])
    decreases |cs|
  {
    if i == 0 {
      r := 0;
    } else {
      var rs' := Remaining(rs, cs[0].size);
      var k := ChunkInRegion(cs[1..], rs', i - 1);
      r := if cs[0].size == rs[0].size then k + 1 else k;
    }
  }

  /** Different chunks of the list do not overlap. */
  lemma {:induction false} ChunksApart(cs: seq<Chunk>, rs: seq<Region>, i: nat, j: nat)
    requires Tiled(cs, rs) && RegionsApart(rs) && i < j < |cs|
    ensures Apart(cs[i].addr, cs[i].size, cs[j].addr, cs[j].size)
    decreases |cs|
  {
    hide RegionsApart, Remaining, Apart;
    var rs' := Remaining(rs, cs[0].size);
    RemainingApart(rs, cs[0].size);
    if i > 0 {
      ChunksApart(cs[1..], rs', i - 1, j - 1);
    } else {
      var r := ChunkInRegion(cs[1..], rs', j - 1);
      ApartInside(cs[0], cs[j], rs'[r]);
    }
  }

  lemma ApartInside(c: Chunk, d: Chunk, r: Region)
    requires Apart(c.addr, c.size, r.start, r.size) && Within(d, r)
    ensures Apart(c.addr, c.size, d.addr, d.size)
  {
  }

  lemma RemainingApart(rs: seq<Region>, size: nat)
    requires rs != [] && 0 < size <= rs[0].size && RegionsApart(rs)
    ensures RegionsApart(Remaining(rs, size))
    ensures forall r :: 0 <= r < |Remaining(rs, size)| ==>
              Apart(rs[0].start, size, Remaining(rs, size)[r].start, Remaining(rs, size)[r].size)
  {
    var rs' := Remaining(rs, size);
    if size != rs[0].size {
      assert forall k :: 1 <= k < |rs'| ==> rs'[k] == rs[k];
    } else {
      assert forall k :: 0 <= k < |rs'| ==> rs'[k] == rs[k + 1];
    }
  }

  /** The list with chunk i replaced, by index. */
  function Replaced(cs: seq<Chunk>, i: nat, s: seq<Chunk>): (r: seq<Chunk>)
    requires i < |cs|
    ensures |r| == |cs| + |s| - 1
    ensures forall k {:trigger r[k]} :: 0 <= k < |r| ==>
              r[k] == if k < i then cs[k] else if k < i + |s| then s[k - i] else cs[k - |s| + 1]
  {
    cs[..i] + s + cs[i + 1..]
  }

  // ----- the heap and its operations -----

  /** The chunk list, the regions donated and the live allocations with their layouts. */
  datatype Heap = Heap(cs: seq<Chunk>, rs: seq<Region>, live: map<nat, Layout>)

  /** The first chunk in list order that serves. */
  function FirstFit(cs: seq<Chunk>, n: Need): (i: Option<nat>)
    ensures i.Some? ==> i.value < |cs| && Serves(cs[i.value], n) && forall j :: 0 <= j < i.value ==> !Serves(cs[j], n)
    ensures i.None? ==> forall j :: 0 <= j < |cs| ==> !Serves(cs[j], n)
    decreases |cs|
  {
    if cs == [] then None
    else if Serves(cs[0], n) then Some(0)
    else
      var r := FirstFit(cs[1..], n);
      if r.None? then None else Some(r.value + 1)
  }

  /** `alloc`: None is the null pointer. */
  function Alloc(h: Heap, l: Layout): (r: (Heap, Option<nat>))
    requires ValidLayout(l)
  {
    NeedsFacts(l);
    var n := Needs(l);
    if n.None? then (h, None)
    else
      var i := FirstFit(h.cs, n.value);
      if i.None? then (h, None)
      else
        var c := h.cs[i.value];
        var p := PayloadAddr(c, n.value);
        (Heap(Replaced(h.cs, i.value, Split(c, n.value)), h.rs, h.live[p := l]), Some(p))
  }

  /** The index of the chunk with a header at `addr`. */
  function Find(cs: seq<Chunk>, addr: nat): (i: Option<nat>)
    ensures i.Some? ==> i.value < |cs| && cs[i.value].addr == addr
    ensures i.None? ==> forall j :: 0 <= j < |cs| ==> cs[j].addr != addr
    decreases |cs|
  {
    if cs == [] then None
    else if cs[0].addr == addr then Some(0)
    else
      var r := Find(cs[1..], addr);
      if r.None? then None else Some(r.value + 1)
  }

  /** `dealloc` of a live pointer: its header is marked free, nothing is merged. */
  function Dealloc(h: Heap, p: nat): (r: Heap)
    requires p in h.live && p >= HEADER
  {
    var i := Find(h.cs, p - HEADER);
    if i.None? then h
    else h.(cs := h.cs[i.value := h.cs[i.value].(taken := false)], live := h.live - {p})
  }

  /** What `add_free_from_descriptor` keeps of a descriptor: page 0 is left out, and a single
      page or less is not worth a header. */
  function Usable(start: nat, pages: nat): (r: Option<Region>)
  {
    var size := pages * PAGE;
    var r := if start == 0 then Region(PAGE, if size < PAGE then 0 else size - PAGE) else Region(start, size);
    if r.size <= PAGE then None else Some(r)
  }

  /** `add_free_from_descriptor`: the region becomes one free chunk at the head of the list. */
  function Donate(h: Heap, start: nat, pages: nat): (r: Heap)
  {
    var u := Usable(start, pages);
    if u.None? then h
    else h.(cs := [Chunk(u.value.start, u.value.size, false)] + h.cs, rs := [u.value] + h.rs)
  }

  /** Descriptors are page-aligned, do not wrap and are disjoint from what was donated before. */
  predicate CanDonate(h: Heap, start: nat, pages: nat)
  {
    && start % PAGE == 0 && start + pages * PAGE < WORD
    && forall i :: 0 <= i < |h.rs| ==> Apart(start, pages * PAGE, h.rs[i].start, h.rs[i].size)
  }

  // ----- the invariant -----

  /** Every allocated chunk is a live allocation big enough and aligned, and conversely. */
  predicate LiveInv(cs: seq<Chunk>, live: map<nat, Layout>)
  {
    && (forall i :: 0 <= i < |cs| && cs[i].taken ==> Holds(cs[i], live))
    && (forall p :: p in live ==> Backed(cs, p))
  }

  predicate Backed(cs: seq<Chunk>, p: nat)
  {
    p >= HEADER && exists i :: 0 <= i < |cs| && cs[i].taken && cs[i].addr == p - HEADER
  }

  predicate Aligned(p: nat, l: Layout) { p % Align(l) == 0 }

  predicate Holds(c: Chunk, live: map<nat, Layout>)
  {
    var p := c.addr + HEADER;
    p in live && live[p].size + HEADER <= c.size && Aligned(p, live[p])
  }

  predicate Inv(h: Heap)
  {
    && Tiled(h.cs, h.rs) && RegionsApart(h.rs)
    && (forall i :: 0 <= i < |h.rs| ==> h.rs[i].start >= PAGE && h.rs[i].start + h.rs[i].size < WORD)
    && (forall i :: 0 <= i < |h.cs| ==> GoodChunk(h.cs[i]))
    && LiveInv(h.cs, h.live)
  }

  lemma AddrsDistinct(h: Heap, i: nat, j: nat)
    requires Tiled(h.cs, h.rs) && RegionsApart(h.rs) && i < |h.cs| && j < |h.cs| && i != j
    requires forall k :: 0 <= k < |h.cs| ==> GoodChunk(h.cs[k])
    ensures h.cs[i].addr != h.cs[j].addr
  {
    ChunksApart(h.cs, h.rs, if i < j then i else j, if i < j then j else i);
  }

  /** Chunk i serves the request, and is the first to. */
  predicate FitsAt(h: Heap, l: Layout, i: nat, n: Need)
    requires ValidLayout(l)
  {
    Needs(l) == Some(n) && FirstFit(h.cs, n) == Some(i)
  }

  /** Allocation, case by case: the null pointer, or the first fitting chunk split. */
  lemma AllocCases(h: Heap, l: Layout) returns (fits: bool, i: nat, n: Need)
    requires ValidLayout(l)
    ensures fits == Alloc(h, l).1.Some?
    ensures !fits ==> Alloc(h, l) == (h, None)
    ensures fits ==> FitsAt(h, l, i, n)
  {
    fits, i, n := false, 0, Need(0, 0);
    NeedsFacts(l);
    if Needs(l).Some? && FirstFit(h.cs, Needs(l).value).Some? {
      fits, i, n := true, FirstFit(h.cs, Needs(l).value).value, Needs(l).value;
    }
  }

  /** First fit: the null pointer exactly for a zero size or when no chunk serves, and
      otherwise the served chunk is the first in list order that does. */
  lemma AllocServesFirst(h: Heap, l: Layout)
    requires ValidLayout(l)
    ensures Needs(l).None? <==> l.size == 0
    ensures Alloc(h, l).1.None? <==> l.size == 0 || forall j :: 0 <= j < |h.cs| ==> !Serves(h.cs[j], Needs(l).value)
    ensures Alloc(h, l).1.Some? ==>
              exists i :: 0 <= i < |h.cs| && FitsAt(h, l, i, Needs(l).value)
                          && Serves(h.cs[i], Needs(l).value)
                          && forall j :: 0 <= j < i ==> !Serves(h.cs[j], Needs(l).value)
  {
    NeedsFacts(l);
    hide Needs, Split, PayloadAddr, Replaced;
    var fits, i, n := AllocCases(h, l);
    if fits {
      assert FitsAt(h, l, i, Needs(l).value);
    }
  }

  lemma AllocAt(h: Heap, l: Layout, i: nat, n: Need)
    requires ValidLayout(l) && FitsAt(h, l, i, n)
    ensures i < |h.cs| && Serves(h.cs[i], n) && GoodNeed(n) && n.size >= l.size && n.align % Align(l) == 0
    ensures Alloc(h, l) == (Heap(Replaced(h.cs, i, Split(h.cs[i], n)), h.rs, h.live[PayloadAddr(h.cs[i], n) := l]),
                            Some(PayloadAddr(h.cs[i], n)))
  {
    NeedsFacts(l);
    hide Needs, PayloadAddr, Split, Replaced;
  }

  /** Every address that an allocation in a safe heap hands out is the source's mask
      expression: chunks end inside the word and the alignment is a power of two. */
  lemma AllocIsMasked(h: Heap, l: Layout, i: nat, n: Need)
    requires Inv(h) && ValidLayout(l) && FitsAt(h, l, i, n)
    ensures i < |h.cs| && Alloc(h, l).1.Some? && n.size <= End(h.cs[i]) < Pow2(WORD_BITS)
    ensures 0 < n.align <= Pow2(WORD_BITS)
    ensures Alloc(h, l).1.value == BitAnd(End(h.cs[i]) - n.size, BitNot(WORD_BITS, n.align - 1))
  {
    hide Inv, Alloc, Needs, PayloadAddr, Pow2, BitAnd, BitNot, Align;
    NeedsFacts(l);
    AllocAt(h, l, i, n);
    EndInWord(h, i);
    var k: nat :| k <= WORD_BITS && n.align == Pow2(k);
    Pow2Monotone(k, WORD_BITS);
    PayloadIsMasked(h.cs[i], n, k);
  }

  lemma EndInWord(h: Heap, i: nat)
    requires Inv(h) && i < |h.cs|
    ensures End(h.cs[i]) < WORD == Pow2(WORD_BITS)
  {
    hide Pow2, Tiled, RegionsApart, LiveInv;
    var r := ChunkInRegion(h.cs, h.rs, i);
    WordIsPower();
  }

  lemma WordIsPower()
    ensures WORD == Pow2(WORD_BITS)
  {
    EightIsByte();
    hide Pow2;
    Pow2Add(8, 8);
    Pow2Add(16, 16);
    Pow2Add(32, 32);
  }

  lemma EightIsByte()
    ensures Pow2(8) == 256
  {
  }

  lemma AllocKeepsTiling(h: Heap, l: Layout)
    requires Inv(h) && ValidLayout(l)
    ensures var h' := Alloc(h, l).0;
            Tiled(h'.cs, h'.rs) && h'.rs == h.rs && forall i :: 0 <= i < |h'.cs| ==> GoodChunk(h'.cs[i])
  {
    hide Alloc, Tiled, Split, PayloadAddr, Abut, FitsAt, LiveInv, RegionsApart;
    var fits, i, n := AllocCases(h, l);
    if fits {
      AllocAt(h, l, i, n);
      SplitTiles(h.cs[i], n);
      TileAt(h.cs, i, Split(h.cs[i], n), h.rs);
    }
  }

  /** What an allocation does to the live set: the address returned was not live before. */
  lemma AllocKeepsLive(h: Heap, l: Layout)
    requires Inv(h) && ValidLayout(l)
    ensures var (h', p) := Alloc(h, l);
            LiveInv(h'.cs, h'.live) && (p.Some? ==> p.value !in h.live)
  {
    hide Alloc, Tiled, PayloadAddr, FitsAt, LiveInv, Align, Replaced, RegionsApart;
    var fits, i, n := AllocCases(h, l);
    if fits {
      AllocAt(h, l, i, n);
      var p := PayloadAddr(h.cs[i], n);
      SplitFacts(h.cs[i], n);
      AlignedAt(h.cs[i], n, l);
      PayloadNotLive(h, i, p);
      LiveAfterSplit(h.cs, h.live, i, Split(h.cs[i], n), l);
    }
  }

  lemma AlignedAt(c: Chunk, n: Need, l: Layout)
    requires CanProvide(c, n) && n.align > 0 && n.align % Align(l) == 0
    ensures Aligned(PayloadAddr(c, n), l)
  {
    PayloadAligned(c, n, Align(l));
  }

  /** No live payload starts inside a free chunk. */
  lemma PayloadNotLive(h: Heap, i: nat, p: nat)
    requires Inv(h) && i < |h.cs| && !h.cs[i].taken && h.cs[i].addr + HEADER < p && p <= End(h.cs[i])
    ensures p !in h.live
  {
    hide Tiled, RegionsApart, Holds;
    if p in h.live {
      assert Backed(h.cs, p);
      var j :| 0 <= j < |h.cs| && h.cs[j].taken && h.cs[j].addr == p - HEADER;
      assert GoodChunk(h.cs[j]);
      ChunksApart(h.cs, h.rs, if i < j then i else j, if i < j then j else i);
    }
  }

  lemma LiveAfterSplit(cs: seq<Chunk>, live: map<nat, Layout>, i: nat, s: seq<Chunk>, l: Layout)
    requires LiveInv(cs, live) && i < |cs| && !cs[i].taken
    requires |s| >= 2 && s[1].taken && forall k :: 0 <= k < |s| && k != 1 ==> !s[k].taken
    requires var p := s[1].addr + HEADER; p !in live && Aligned(p, l) && l.size + HEADER <= s[1].size
    ensures LiveInv(Replaced(cs, i, s), live[s[1].addr + HEADER := l])
  {
    SplitHolds(cs, live, i, s, l);
    SplitKeepsLive(cs, live, i, s, l);
  }

  lemma SplitHolds(cs: seq<Chunk>, live: map<nat, Layout>, i: nat, s: seq<Chunk>, l: Layout)
    requires LiveInv(cs, live) && i < |cs|
    requires |s| >= 2 && forall k :: 0 <= k < |s| && k != 1 ==> !s[k].taken
    requires var p := s[1].addr + HEADER; p !in live && Aligned(p, l) && l.size + HEADER <= s[1].size
    ensures var cs', live' := Replaced(cs, i, s), live[s[1].addr + HEADER := l];
            forall k :: 0 <= k < |cs'| && cs'[k].taken ==> Holds(cs'[k], live')
  {
    hide Aligned, Backed;
    var cs', live' := Replaced(cs, i, s), live[s[1].addr + HEADER := l];
    forall k | 0 <= k < |cs'| && cs'[k].taken
      ensures Holds(cs'[k], live')
    {
      if k < i {
        assert Holds(cs[k], live);
      } else if k >= i + |s| {
        assert Holds(cs[k - |s| + 1], live);
      }
    }
  }

  lemma SplitKeepsLive(cs: seq<Chunk>, live: map<nat, Layout>, i: nat, s: seq<Chunk>, l: Layout)
    requires LiveInv(cs, live) && i < |cs| && !cs[i].taken && |s| >= 2 && s[1].taken
    ensures var cs', live' := Replaced(cs, i, s), live[s[1].addr + HEADER := l];
            forall q :: q in live' ==> Backed(cs', q)
  {
    hide Holds;
    var cs', live' := Replaced(cs, i, s), live[s[1].addr + HEADER := l];
    forall q | q in live'
      ensures Backed(cs', q)
    {
      if q == s[1].addr + HEADER {
        assert cs'[i + 1] == s[1];
      } else {
        assert Backed(cs, q);
        var j :| 0 <= j < |cs| && cs[j].taken && cs[j].addr == q - HEADER;
        var k := if j < i then j else j + |s| - 1;
        assert cs'[k] == cs[j];
      }
    }
  }

  lemma AllocKeepsInv(h: Heap, l: Layout)
    requires Inv(h) && ValidLayout(l)
    ensures Inv(Alloc(h, l).0)
  {
    hide Alloc, Tiled, LiveInv, RegionsApart, GoodChunk;
    AllocKeepsTiling(h, l);
    AllocKeepsLive(h, l);
  }

  /** Changing a chunk's flag keeps the tiling. */
  lemma FlagKeepsTiling(cs: seq<Chunk>, i: nat, c: Chunk, rs: seq<Region>)
    requires Tiled(cs, rs) && i < |cs| && c.addr == cs[i].addr && c.size == cs[i].size
    ensures Tiled(cs[i := c], rs)
  {
    assert [c][1..] == [];
    assert Abut([c], c.addr, c.size);
    TileFlag(cs, rs);
    TileAt(cs, i, [c], rs);
    assert cs[..i] + [c] + cs[i + 1..] == cs[i := c];
  }

  /** Tiling chunks are not empty. */
  lemma {:induction false} TileFlag(cs: seq<Chunk>, rs: seq<Region>)
    requires Tiled(cs, rs)
    ensures forall k :: 0 <= k < |cs| ==> cs[k].size > 0
    decreases |cs|
  {
    if cs != [] {
      TileFlag(cs[1..], Remaining(rs, cs[0].size));
      assert forall k :: 1 <= k < |cs| ==> cs[k] == cs[1..][k - 1];
    }
  }

  lemma DeallocKeepsInv(h: Heap, p: nat)
    requires Inv(h) && p in h.live
    ensures p >= HEADER && Inv(Dealloc(h, p))
    ensures Find(h.cs, p - HEADER).Some? && h.cs[Find(h.cs, p - HEADER).value].taken
  {
    hide Inv, Find;
    LivePointerFound(h, p);
    FreeKeepsInv(h, Find(h.cs, p - HEADER).value);
  }

  lemma FreeKeepsInv(h: Heap, i: nat)
    requires Inv(h) && i < |h.cs|
    ensures Inv(h.(cs := h.cs[i := h.cs[i].(taken := false)], live := h.live - {h.cs[i].addr + HEADER}))
  {
    hide Tiled, LiveInv, RegionsApart, GoodChunk;
    FlagKeepsTiling(h.cs, i, h.cs[i].(taken := false), h.rs);
    forall k | 0 <= k < |h.cs| && k != i
      ensures h.cs[k].addr != h.cs[i].addr
    {
      AddrsDistinct(h, i, k);
    }
    FreeKeepsLive(h.cs, h.live, i);
    FreedGood(h.cs[i]);
  }

  lemma FreedGood(c: Chunk)
    ensures GoodChunk(c) ==> GoodChunk(c.(taken := false))
  {
  }

  lemma LivePointerFound(h: Heap, p: nat)
    requires Inv(h) && p in h.live
    ensures p >= HEADER && Find(h.cs, p - HEADER).Some? && h.cs[Find(h.cs, p - HEADER).value].taken
  {
    hide Tiled, RegionsApart, Holds;
    assert Backed(h.cs, p);
    var j :| 0 <= j < |h.cs| && h.cs[j].taken && h.cs[j].addr == p - HEADER;
    var i := Find(h.cs, p - HEADER).value;
    if i != j {
      AddrsDistinct(h, i, j);
    }
  }

  lemma FreeKeepsLive(cs: seq<Chunk>, live: map<nat, Layout>, i: nat)
    requires LiveInv(cs, live) && i < |cs| && forall k :: 0 <= k < |cs| && k != i ==> cs[k].addr != cs[i].addr
    ensures LiveInv(cs[i := cs[i].(taken := false)], live - {cs[i].addr + HEADER})
  {
    FreeHolds(cs, live, i);
    FreeBacked(cs, live, i);
  }

  lemma FreeHolds(cs: seq<Chunk>, live: map<nat, Layout>, i: nat)
    requires LiveInv(cs, live) && i < |cs| && forall k :: 0 <= k < |cs| && k != i ==> cs[k].addr != cs[i].addr
    ensures var cs', live' := cs[i := cs[i].(taken := false)], live - {cs[i].addr + HEADER};
            forall k :: 0 <= k < |cs'| && cs'[k].taken ==> Holds(cs'[k], live')
  {
    hide Aligned, Backed;
    var cs', live' := cs[i := cs[i].(taken := false)], live - {cs[i].addr + HEADER};
    forall k | 0 <= k < |cs'| && cs'[k].taken
      ensures Holds(cs'[k], live')
    {
      assert k != i && Holds(cs[k], live);
    }
  }

  lemma FreeBacked(cs: seq<Chunk>, live: map<nat, Layout>, i: nat)
    requires LiveInv(cs, live) && i < |cs|
    ensures var cs', live' := cs[i := cs[i].(taken := false)], live - {cs[i].addr + HEADER};
            forall q :: q in live' ==> Backed(cs', q)
  {
    hide Holds;
    var cs', live' := cs[i := cs[i].(taken := false)], live - {cs[i].addr + HEADER};
    forall q | q in live'
      ensures Backed(cs', q)
    {
      assert Backed(cs, q);
      var k :| 0 <= k < |cs| && cs[k].taken && cs[k].addr == q - HEADER;
      assert cs'[k] == cs[k];
    }
  }

  lemma DonateKeepsInv(h: Heap, start: nat, pages: nat)
    requires Inv(h) && CanDonate(h, start, pages)
    ensures Inv(Donate(h, start, pages))
  {
    var u := Usable(start, pages);
    if u.Some? {
      var h' := Donate(h, start, pages);
      assert h'.cs[1..] == h.cs && h'.rs[1..] == h.rs;
      assert Tiled(h'.cs, h'.rs);
      hide Tiled;
      UsableFacts(start, pages);
      FrontApart(u.value, h.rs);
      FrontLive(h'.cs[0], h.cs, h.live);
      hide LiveInv, RegionsApart, Usable;
    }
  }

  lemma PageMultiple(k: nat)
    ensures (k * PAGE) % HEADER == 0
  {
    assert k * PAGE == HEADER * (128 * k);
  }

  lemma UsableValue(start: nat, pages: nat)
    ensures var u := Usable(start, pages);
            u.Some? ==>
              && u.value.size > PAGE
              && u.value == if start == 0 then Region(PAGE, pages * PAGE - PAGE) else Region(start, pages * PAGE)
  {
  }

  lemma UsableFacts(start: nat, pages: nat)
    requires start % PAGE == 0 && Usable(start, pages).Some?
    ensures var r := Usable(start, pages).value;
            && r.start >= PAGE && r.start % HEADER == 0 && r.size % HEADER == 0 && r.size >= HEADER
            && start <= r.start && r.start + r.size <= start + pages * PAGE
  {
    hide Usable;
    UsableValue(start, pages);
    var q := start / PAGE;
    assert start == q * PAGE;
    PageMultiple(q);
    PageMultiple(pages);
    if start == 0 {
      PageMultiple(pages - 1);
      assert pages * PAGE - PAGE == (pages - 1) * PAGE;
    }
  }

  lemma FrontApart(r: Region, rs: seq<Region>)
    requires RegionsApart(rs) && forall i :: 0 <= i < |rs| ==> Apart(r.start, r.size, rs[i].start, rs[i].size)
    ensures RegionsApart([r] + rs)
  {
  }

  lemma FrontLive(c: Chunk, cs: seq<Chunk>, live: map<nat, Layout>)
    requires LiveInv(cs, live) && !c.taken
    ensures LiveInv([c] + cs, live)
  {
    hide Holds;
    var cs' := [c] + cs;
    forall q | q in live
      ensures Backed(cs', q)
    {
      assert Backed(cs, q);
      var k :| 0 <= k < |cs| && cs[k].taken && cs[k].addr == q - HEADER;
      assert cs'[k + 1] == cs[k];
    }
  }

  // ----- what each operation does, said without its name -----

  /** Chunk c is free and has room for a payload, two headers and the alignment. */
  predicate Roomy(c: Chunk, size: nat, align: nat) { !c.taken && c.size >= size + 64 + align }

  /** The chunk at index i served the layout at address p: it is the first roomy one, p is the
      highest aligned place in it, and its list entry is replaced by the shrunk rest, the
      allocated chunk and, when bytes are left over, a free chunk of them. */
  predicate ServedAt(h: Heap, h': Heap, l: Layout, p: nat, i: nat, size: nat, align: nat)
    requires align > 0
  {
    && i < |h.cs| && Roomy(h.cs[i], size, align) && (forall j :: 0 <= j < i ==> !Roomy(h.cs[j], size, align))
    && var c := h.cs[i];
       var end := c.addr + c.size;
       && p % align == 0 && p + size <= end < p + size + align && c.addr + 32 < p
       && h'.rs == h.rs && p !in h.live && h'.live == h.live[p := l]
       && h'.cs == h.cs[..i]
                   + ([Chunk(c.addr, p - 32 - c.addr, false), Chunk(p - 32, size + 32, true)]
                      + if p + size == end then [] else [Chunk(p + size, end - (p + size), false)])
                   + h.cs[i + 1..]
  }

  /** Allocation, exactly. */
  lemma AllocExact(h: Heap, l: Layout, size: nat, align: nat)
    requires Inv(h) && ValidLayout(l)
    requires l.size > 0 ==> LeastPower(Max(l.size, 32), size)
    requires align == Max(Pow2(l.alignLog), 32)
    ensures Alloc(h, l).1.None? <==> l.size == 0 || forall j :: 0 <= j < |h.cs| ==> !Roomy(h.cs[j], size, align)
    ensures Alloc(h, l).1.None? ==> Alloc(h, l).0 == h
    ensures Alloc(h, l).1.Some? ==> exists i :: ServedAt(h, Alloc(h, l).0, l, Alloc(h, l).1.value, i, size, align)
  {
    NeedsFacts(l);
    if l.size > 0 {
      NeedIsLeast(l);
      LeastPowerUnique(Max(l.size, 32), size, Needs(l).value.size);
      hide Inv, Needs, Alloc, Pow2, LeastPower, ValidLayout;
      AllocServesFirst(h, l);
      var fits, i, n := AllocCases(h, l);
      if fits {
        AllocServed(h, l, i, n);
      }
    }
  }

  lemma AllocServed(h: Heap, l: Layout, i: nat, n: Need)
    requires Inv(h) && ValidLayout(l) && FitsAt(h, l, i, n) && n.align > 0 && Alloc(h, l).1.Some?
    ensures ServedAt(h, Alloc(h, l).0, l, Alloc(h, l).1.value, i, n.size, n.align)
  {
    hide Inv, Needs, Alloc, PayloadAddr, Split, Replaced, ValidLayout, Align, FitsAt, GoodNeed, Serves, Roomy, ServedAt;
    AllocAt(h, l, i, n);
    FirstRoomy(h, l, i, n);
    FreshAddress(h, l);
    InvTiling(h);
    ServingHasRoom(h.cs[i], n);
    var c, p := h.cs[i], PayloadAddr(h.cs[i], n);
    PayloadPlace(c, n);
    SplitList(c, n);
    ReplacedList(h.cs, i, Split(c, n));
    hide GoodChunk, Tiled, RegionsApart;
    ServedList(h, l, p, i, n.size, n.align, Split(c, n));
  }

  lemma ServingHasRoom(c: Chunk, n: Need)
    requires Serves(c, n) && GoodNeed(n)
    ensures CanProvide(c, n) && n.size >= 32
  {
  }

  lemma FreshAddress(h: Heap, l: Layout)
    requires Inv(h) && ValidLayout(l) && Alloc(h, l).1.Some?
    ensures Alloc(h, l).1.value !in h.live
  {
    hide Inv, Alloc, LiveInv;
    AllocKeepsLive(h, l);
  }

  lemma ServedList(h: Heap, l: Layout, p: nat, i: nat, size: nat, align: nat, s: seq<Chunk>)
    requires i < |h.cs| && align > 0 && p !in h.live
    requires Roomy(h.cs[i], size, align) && forall j :: 0 <= j < i ==> !Roomy(h.cs[j], size, align)
    requires var c := h.cs[i];
             var end := c.addr + c.size;
             && p % align == 0 && p + size <= end < p + size + align && c.addr + 32 < p
             && s == [Chunk(c.addr, p - 32 - c.addr, false), Chunk(p - 32, size + 32, true)]
                     + if p + size == end then [] else [Chunk(p + size, end - (p + size), false)]
    ensures ServedAt(h, Heap(h.cs[..i] + s + h.cs[i + 1..], h.rs, h.live[p := l]), l, p, i, size, align)
  {
    hide Roomy;
  }

  lemma FirstRoomy(h: Heap, l: Layout, i: nat, n: Need)
    requires ValidLayout(l) && FitsAt(h, l, i, n) && i < |h.cs|
    ensures Roomy(h.cs[i], n.size, n.align) && forall j :: 0 <= j < i ==> !Roomy(h.cs[j], n.size, n.align)
  {
    hide Needs, ValidLayout;
  }

  lemma PayloadPlace(c: Chunk, n: Need)
    requires GoodChunk(c) && GoodNeed(n) && CanProvide(c, n)
    ensures var p, end := PayloadAddr(c, n), c.addr + c.size;
            p % n.align == 0 && p + n.size <= end < p + n.size + n.align && c.addr + 32 < p
  {
    SplitFacts(c, n);
    SelfMultiple(n.align);
    PayloadAligned(c, n, n.align);
    var x := End(c) - n.size;
    DivModParts(x, n.align);
    PayloadValue(c, n);
    hide PayloadAddr;
  }

  lemma SplitList(c: Chunk, n: Need)
    requires GoodChunk(c) && GoodNeed(n) && CanProvide(c, n)
    ensures var p, end := PayloadAddr(c, n), c.addr + c.size;
            && c.addr + 32 < p && p + n.size <= end
            && Split(c, n) == [Chunk(c.addr, p - 32 - c.addr, false), Chunk(p - 32, n.size + 32, true)]
                              + if p + n.size == end then [] else [Chunk(p + n.size, end - (p + n.size), false)]
  {
    PayloadPlace(c, n);
    hide PayloadAddr, GoodChunk, GoodNeed;
  }

  lemma ReplacedList(cs: seq<Chunk>, i: nat, s: seq<Chunk>)
    requires i < |cs|
    ensures Replaced(cs, i, s) == cs[..i] + s + cs[i + 1..]
  {
  }

  lemma SelfMultiple(a: nat)
    requires a > 0
    ensures a % a == 0
  {
    DivModUnique(1, a, 0);
  }

  /** A donation extends the list if and only if more than a page is left of the region once
      page 0 is taken out of it; it then puts one free chunk of all of that in front. */
  lemma DonateExact(h: Heap, start: nat, pages: nat)
    ensures pages <= (if start == 0 then 2 else 1) ==> Donate(h, start, pages) == h
    ensures start == 0 && pages > 2 ==>
              var h' := Donate(h, start, pages);
              && h'.cs == [Chunk(4096, 4096 * (pages - 1), false)] + h.cs
              && h'.rs == [Region(4096, 4096 * (pages - 1))] + h.rs && h'.live == h.live
    ensures start > 0 && pages > 1 ==>
              var h' := Donate(h, start, pages);
              && h'.cs == [Chunk(start, 4096 * pages, false)] + h.cs
              && h'.rs == [Region(start, 4096 * pages)] + h.rs && h'.live == h.live
  {
  }

  /** Freeing frees: the address is no longer live and its one chunk is free, no larger and no
      smaller; every other chunk and every other live address is as before. */
  lemma DeallocFrees(h: Heap, p: nat) returns (i: nat)
    requires Inv(h) && p in h.live
    ensures p >= 32
    ensures var h' := Dealloc(h, p);
            && p !in h'.live && h'.rs == h.rs && |h'.cs| == |h.cs|
            && (forall q :: q != p ==> (q in h'.live <==> q in h.live) && (q in h.live ==> h'.live[q] == h.live[q]))
            && i < |h.cs| && h.cs[i].addr == p - 32 && h.cs[i].taken
            && h'.cs[i] == Chunk(p - 32, h.cs[i].size, false)
            && forall j :: 0 <= j < |h.cs| && j != i ==> h'.cs[j] == h.cs[j] && h.cs[j].addr != p - 32
  {
    hide Inv, Find;
    LivePointerFound(h, p);
    i := Find(h.cs, p - HEADER).value;
    FreedElsewhere(h, i);
  }

  /** A freed chunk serves again: a request it has room for is not refused after the free. */
  lemma FreedServes(h: Heap, p: nat, i: nat, l: Layout, size: nat, align: nat)
    requires Inv(h) && p in h.live && i < |h.cs| && h.cs[i].addr + 32 == p
    requires ValidLayout(l) && l.size > 0 && LeastPower(Max(l.size, 32), size) && align == Max(Pow2(l.alignLog), 32)
    requires h.cs[i].size >= size + 64 + align
    ensures p >= HEADER && Alloc(Dealloc(h, p), l).1.Some?
  {
    var j := DeallocFrees(h, p);
    DeallocKeepsInv(h, p);
    hide Inv, Dealloc, Alloc, Needs, Pow2, LeastPower;
    AllocExact(Dealloc(h, p), l, size, align);
    assert Roomy(Dealloc(h, p).cs[i], size, align);
  }

  // ----- every run -----

  datatype Op = DoDonate(start: nat, pages: nat) | DoAlloc(l: Layout) | DoDealloc(p: nat)

  /** One operation; calls the kernel never makes (an overlapping descriptor, an invalid
      layout, an address that is not live) are skipped. */
  function Step(h: Heap, op: Op): (h': Heap)
  {
    match op
    case DoDonate(start, pages) => if CanDonate(h, start, pages) then Donate(h, start, pages) else h
    case DoAlloc(l) => if ValidLayout(l) then Alloc(h, l).0 else h
    case DoDealloc(p) => if p in h.live && p >= HEADER then Dealloc(h, p) else h
  }

  function Run(h: Heap, ops: seq<Op>): (h': Heap)
    decreases |ops|
  {
    if ops == [] then h else Run(Step(h, ops[0]), ops[1..])
  }

  const EMPTY: Heap := Heap([], [], map[])

  lemma {:induction false} RunKeepsInv(h: Heap, ops: seq<Op>)
    requires Inv(h)
    ensures Inv(Run(h, ops))
    decreases |ops|
  {
    if ops != [] {
      match ops[0] {
        case DoDonate(start, pages) => if CanDonate(h, start, pages) { DonateKeepsInv(h, start, pages); }
        case DoAlloc(l) => if ValidLayout(l) { AllocKeepsInv(h, l); }
        case DoDealloc(p) => if p in h.live { DeallocKeepsInv(h, p); }
      }
      hide Inv;
      RunKeepsInv(Step(h, ops[0]), ops[1..]);
    }
  }

  // ----- what the invariant gives -----

  /** Byte ranges: the payload of a live pointer, as large as requested, and a header. */
  predicate InPayload(h: Heap, p: nat, a: nat)
    requires p in h.live
  {
    p <= a < p + h.live[p].size
  }

  predicate InDonated(h: Heap, p: nat)
    requires p in h.live
  {
    exists r :: 0 <= r < |h.rs| && h.rs[r].start <= p && p + h.live[p].size <= h.rs[r].start + h.rs[r].size
  }

  predicate InHeader(c: Chunk, a: nat) { c.addr <= a < c.addr + HEADER }

  /** A live pointer is not null, is aligned as asked, and its bytes lie in a donated region. */
  lemma LivePayload(h: Heap, p: nat) returns (r: nat)
    requires Inv(h) && p in h.live
    ensures p != 0 && Aligned(p, h.live[p])
    ensures r < |h.rs| && h.rs[r].start <= p && p + h.live[p].size <= h.rs[r].start + h.rs[r].size
  {
    hide Tiled, Aligned, RegionsApart;
    var i := Owner(h, p);
    r := ChunkInRegion(h.cs, h.rs, i);
  }

  /** The chunk of a live pointer. */
  lemma Owner(h: Heap, p: nat) returns (i: nat)
    requires Inv(h) && p in h.live
    ensures i < |h.cs| && h.cs[i].taken && h.cs[i].addr + HEADER == p && Holds(h.cs[i], h.live)
  {
    hide Tiled, RegionsApart, GoodChunk, Holds, Backed;
    assert Backed(h.cs, p);
    i := BackedAt(h.cs, p);
    assert Holds(h.cs[i], h.live);
  }

  lemma BackedAt(cs: seq<Chunk>, p: nat) returns (i: nat)
    requires Backed(cs, p)
    ensures i < |cs| && cs[i].taken && cs[i].addr + HEADER == p
  {
    i :| 0 <= i < |cs| && cs[i].taken && cs[i].addr == p - HEADER;
  }

  /** No byte belongs to two live payloads. */
  lemma PayloadsApart(h: Heap, p: nat, q: nat, a: nat)
    requires Inv(h) && p in h.live && q in h.live && p != q
    ensures !(InPayload(h, p, a) && InPayload(h, q, a))
  {
    hide Tiled, Inv, Aligned, RegionsApart, GoodChunk;
    var i := Owner(h, p);
    var j := Owner(h, q);
    InvTiling(h);
    ChunksApart(h.cs, h.rs, if i < j then i else j, if i < j then j else i);
  }

  lemma InvTiling(h: Heap)
    requires Inv(h)
    ensures Tiled(h.cs, h.rs) && RegionsApart(h.rs) && forall i :: 0 <= i < |h.cs| ==> GoodChunk(h.cs[i])
  {
  }

  /** No byte of a live payload belongs to a header. */
  lemma PayloadApartFromHeaders(h: Heap, p: nat, j: nat, a: nat)
    requires Inv(h) && p in h.live && j < |h.cs|
    ensures !(InPayload(h, p, a) && InHeader(h.cs[j], a))
  {
    hide Tiled, Inv, Aligned, RegionsApart;
    var i := Owner(h, p);
    InvTiling(h);
    assert GoodChunk(h.cs[j]);
    if i != j {
      ChunksApart(h.cs, h.rs, if i < j then i else j, if i < j then j else i);
    }
  }

  /** Everything above, in every run from the empty heap, with the bytes conserved. */
  lemma EveryRunIsSafe(ops: seq<Op>)
    ensures var h := Run(EMPTY, ops);
            && Inv(h) && TotalChunks(h.cs) == TotalRegions(h.rs)
            && (forall p :: p in h.live ==> p != 0 && Aligned(p, h.live[p]) && InDonated(h, p))
            && (forall p, q, a: nat :: p in h.live && q in h.live && p != q ==>
                  !(InPayload(h, p, a) && InPayload(h, q, a)))
            && (forall p, j, a: nat :: p in h.live && 0 <= j < |h.cs| ==> !(InPayload(h, p, a) && InHeader(h.cs[j], a)))
  {
    RunKeepsInv(EMPTY, ops);
    var h := Run(EMPTY, ops);
    hide Inv, Run, Aligned, InPayload, InHeader;
    InvTiling(h);
    BytesConserved(h.cs, h.rs);
    forall p | p in h.live
      ensures p != 0 && Aligned(p, h.live[p]) && InDonated(h, p)
    {
      var r := LivePayload(h, p);
    }
    forall p, q, a: nat | p in h.live && q in h.live && p != q
      ensures !(InPayload(h, p, a) && InPayload(h, q, a))
    {
      PayloadsApart(h, p, q, a);
    }
    forall p, j, a: nat | p in h.live && 0 <= j < |h.cs|
      ensures !(InPayload(h, p, a) && InHeader(h.cs[j], a))
    {
      PayloadApartFromHeaders(h, p, j, a);
    }
  }

  // ----- headers never vanish and chunks never grow -----

  predicate Shrunk(cs: seq<Chunk>, addr: nat, size: nat)
  {
    exists i :: 0 <= i < |cs| && cs[i].addr == addr && cs[i].size <= size
  }

  lemma StepShrinks(h: Heap, op: Op, i: nat)
    requires Inv(h) && i < |h.cs|
    ensures Shrunk(Step(h, op).cs, h.cs[i].addr, h.cs[i].size)
  {
    hide Tiled, LiveInv, RegionsApart, Align;
    match op
    case DoDonate(start, pages) =>
      var h' := Step(h, op);
      assert h'.cs == h.cs || (|h'.cs| == |h.cs| + 1 && h'.cs[i + 1] == h.cs[i]);
      assert h'.cs[if h'.cs == h.cs then i else i + 1] == h.cs[i];
    case DoAlloc(l) =>
      if ValidLayout(l) {
        AllocShrinks(h, l, i);
      } else {
        assert h.cs[i].size <= h.cs[i].size;
      }
    case DoDealloc(p) =>
      var h' := Step(h, op);
      assert h'.cs[i].addr == h.cs[i].addr && h'.cs[i].size == h.cs[i].size;
  }

  lemma AllocShrinks(h: Heap, l: Layout, i: nat)
    requires Inv(h) && ValidLayout(l) && i < |h.cs|
    ensures Shrunk(Alloc(h, l).0.cs, h.cs[i].addr, h.cs[i].size)
  {
    hide Alloc, Tiled, PayloadAddr, FitsAt, LiveInv, RegionsApart;
    var cs' := Alloc(h, l).0.cs;
    var fits, j, n := AllocCases(h, l);
    if fits {
      AllocAt(h, l, j, n);
      SplitFacts(h.cs[j], n);
      var s := Split(h.cs[j], n);
      var k := if i <= j then i else i + |s| - 1;
      assert cs'[k].addr == h.cs[i].addr && cs'[k].size <= h.cs[i].size;
    } else {
      assert cs'[i] == h.cs[i];
    }
  }

  lemma {:induction false} RunShrinks(h: Heap, ops: seq<Op>, addr: nat, size: nat)
    requires Inv(h) && Shrunk(h.cs, addr, size)
    ensures Shrunk(Run(h, ops).cs, addr, size)
    decreases |ops|
  {
    if ops != [] {
      var i :| 0 <= i < |h.cs| && h.cs[i].addr == addr && h.cs[i].size <= size;
      StepShrinks(h, ops[0], i);
      var h' := Step(h, ops[0]);
      assert Run(h, [ops[0]]) == h' by { assert [ops[0]][1..] == []; assert Run(h', []) == h'; }
      RunKeepsInv(h, [ops[0]]);
      hide Inv, Step;
      RunShrinks(h', ops[1..], addr, size);
    }
  }

  /** A chunk once handed out for a layout is never again big enough for its rounded size,
      however often it is freed: after any run from the allocation on, the header before the
      address returned is still there, and cannot provide that size. */
  lemma FreedChunkNeverServesAgain(h: Heap, l: Layout, ops: seq<Op>)
    requires Inv(h) && ValidLayout(l) && Alloc(h, l).1.Some?
    ensures Needs(l).Some? && Alloc(h, l).1.value >= HEADER
    ensures var (h', p) := Alloc(h, l);
            var cs := Run(h', ops).cs;
            && (exists j :: 0 <= j < |cs| && cs[j].addr == p.value - HEADER)
            && (forall j :: 0 <= j < |cs| && cs[j].addr == p.value - HEADER ==> !CanProvide(cs[j], Needs(l).value))
  {
    var h', p := Alloc(h, l).0, Alloc(h, l).1.value;
    AllocKeepsInv(h, l);
    var i, n := ChunkHandedOut(h, l);
    RunKeepsInv(h', ops);
    hide Inv, Alloc, Needs, Step, Run;
    assert Shrunk(h'.cs, p - HEADER, n.size + HEADER);
    RunShrinks(h', ops, p - HEADER, n.size + HEADER);
    ShrunkCannotProvide(Run(h', ops), p - HEADER, n);
  }

  /** The chunk of a fresh allocation. */
  lemma ChunkHandedOut(h: Heap, l: Layout) returns (i: nat, n: Need)
    requires Inv(h) && ValidLayout(l) && Alloc(h, l).1.Some?
    ensures Needs(l) == Some(n) && Alloc(h, l).1.value >= HEADER
    ensures var (h', p) := Alloc(h, l);
            i < |h'.cs| && h'.cs[i].addr == p.value - HEADER && h'.cs[i].size == n.size + HEADER
  {
    hide Inv, Alloc, Needs, PayloadAddr, Align;
    var fits, k;
    fits, k, n := AllocCases(h, l);
    AllocAt(h, l, k, n);
    InvTiling(h);
    SplitFacts(h.cs[k], n);
    i := k + 1;
    assert Alloc(h, l).0.cs[i] == Split(h.cs[k], n)[1];
  }

  /** The one chunk at an address, once no larger than a size and its header. */
  lemma ShrunkCannotProvide(h: Heap, addr: nat, n: Need)
    requires Inv(h) && Shrunk(h.cs, addr, n.size + HEADER)
    ensures exists j :: 0 <= j < |h.cs| && h.cs[j].addr == addr
    ensures forall j :: 0 <= j < |h.cs| && h.cs[j].addr == addr ==> !CanProvide(h.cs[j], n)
  {
    hide Inv;
    InvTiling(h);
    var i :| 0 <= i < |h.cs| && h.cs[i].addr == addr && h.cs[i].size <= n.size + HEADER;
    forall j | 0 <= j < |h.cs| && h.cs[j].addr == addr
      ensures j == i
    {
      if j != i {
        AddrsDistinct(h, i, j);
      }
    }
  }

  // ----- the allocator over memory -----

  /** Memory in granules of 32 bytes, by address: payload bytes, or a header with the address
      of the next one. */
  datatype Granule = Raw(bytes: seq<Byte>) | Header(next: Option<nat>, size: nat, taken: bool)

  type Memory = map<nat, Granule>

  /** The granule a byte belongs to. */
  function GranuleOf(b: nat): (a: nat) { b - b % HEADER }

  /** The byte at an address, where memory holds known payload bytes. */
  function ByteAt(mem: Memory, b: nat): (r: Option<Byte>)
  {
    var a := GranuleOf(b);
    if a in mem && mem[a].Raw? && |mem[a].bytes| == HEADER then Some(mem[a].bytes[b - a]) else None
  }

  function AddrAt(cs: seq<Chunk>, i: nat): (a: Option<nat>) { if i < |cs| then Some(cs[i].addr) else None }

  predicate HeaderIs(mem: Memory, c: Chunk, next: Option<nat>)
  {
    c.addr in mem && mem[c.addr] == Header(next, c.size, c.taken)
  }

  /** The chain of headers in memory is the chunk list. */
  predicate Linked(mem: Memory, first: Option<nat>, cs: seq<Chunk>)
  {
    first == AddrAt(cs, 0) && forall i :: 0 <= i < |cs| ==> HeaderIs(mem, cs[i], AddrAt(cs, i + 1))
  }

  lemma FirstLinked(mem: Memory, first: Option<nat>, cs: seq<Chunk>)
    requires Linked(mem, first, cs)
    ensures first == AddrAt(cs, 0)
  {
  }

  lemma LinkedAt(mem: Memory, first: Option<nat>, cs: seq<Chunk>, i: nat)
    requires Linked(mem, first, cs) && i < |cs|
    ensures HeaderIs(mem, cs[i], AddrAt(cs, i + 1))
  {
  }

  /** The two memories agree on every byte of every live payload. */
  ghost predicate PayloadsKept(mem: Memory, mem': Memory, h: Heap)
  {
    forall p, b: nat :: p in h.live && InPayload(h, p, b) ==> SameGranule(mem, mem', GranuleOf(b))
  }

  predicate SameGranule(mem: Memory, mem': Memory, a: nat)
  {
    (a in mem <==> a in mem') && (a in mem ==> mem[a] == mem'[a])
  }

  /** A store at a header of a safe heap touches no live payload of it. */
  lemma HeaderStoreKeeps(mem: Memory, a: nat, g: Granule, h: Heap, h': Heap, j: nat)
    requires Inv(h') && j < |h'.cs| && h'.cs[j].addr == a
    requires forall p :: p in h.live ==> p in h'.live && h'.live[p] == h.live[p]
    ensures PayloadsKept(mem, mem[a := g], h)
  {
    hide Inv;
    forall p, b: nat | p in h.live && InPayload(h, p, b)
      ensures SameGranule(mem, mem[a := g], GranuleOf(b))
    {
      if GranuleOf(b) == a {
        PayloadApartFromHeaders(h', p, j, b);
      }
    }
  }

  /** The header after s[k] in a chain followed by `after`. */
  function NextIn(s: seq<Chunk>, k: nat, after: Option<nat>): (a: Option<nat>)
  {
    if k + 1 < |s| then Some(s[k + 1].addr) else after
  }

  /** Relinking after chunk i is replaced by a chain s: the last of s points on. */
  lemma Relinked(mem: Memory, mem': Memory, first: Option<nat>, cs: seq<Chunk>, i: nat, s: seq<Chunk>)
    requires Linked(mem, first, cs) && i < |cs| && s != [] && s[0].addr == cs[i].addr
    requires forall k :: 0 <= k < |s| ==> HeaderIs(mem', s[k], NextIn(s, k, AddrAt(cs, i + 1)))
    requires forall j :: 0 <= j < |cs| && j != i ==> SameGranule(mem, mem', cs[j].addr)
    ensures Linked(mem', first, Replaced(cs, i, s))
  {
    hide HeaderIs, SameGranule;
    var cs' := Replaced(cs, i, s);
    forall k | 0 <= k < |cs'|
      ensures HeaderIs(mem', cs'[k], AddrAt(cs', k + 1))
    {
      RelinkedNext(cs, i, s, k);
      if k < i {
        KeptHeader(mem, mem', cs[k], AddrAt(cs, k + 1));
      } else if k < i + |s| {
        assert HeaderIs(mem', s[k - i], NextIn(s, k - i, AddrAt(cs, i + 1)));
      } else {
        KeptHeader(mem, mem', cs[k - |s| + 1], AddrAt(cs, k - |s| + 2));
      }
    }
  }

  lemma KeptHeader(mem: Memory, mem': Memory, c: Chunk, next: Option<nat>)
    requires HeaderIs(mem, c, next) && SameGranule(mem, mem', c.addr)
    ensures HeaderIs(mem', c, next)
  {
  }

  /** The successor of each chunk in the replaced list. */
  lemma RelinkedNext(cs: seq<Chunk>, i: nat, s: seq<Chunk>, k: nat)
    requires i < |cs| && s != [] && s[0].addr == cs[i].addr && k < |Replaced(cs, i, s)|
    ensures AddrAt(Replaced(cs, i, s), k + 1) ==
            if k < i then AddrAt(cs, k + 1)
            else if k < i + |s| then NextIn(s, k - i, AddrAt(cs, i + 1))
            else AddrAt(cs, k - |s| + 2)
  {
    var cs' := Replaced(cs, i, s);
    if k + 1 < |cs'| {
      assert cs'[k + 1] ==
        if k + 1 < i then cs[k + 1] else if k + 1 < i + |s| then s[k + 1 - i] else cs[k + 1 - |s| + 1];
    }
  }

  /** The split headers stand apart from all other headers. */
  lemma SplitAddrsFresh(h: Heap, l: Layout, i: nat, n: Need, j: nat, k: nat)
    requires Inv(h) && ValidLayout(l) && FitsAt(h, l, i, n) && i < |h.cs| && CanProvide(h.cs[i], n) && n.align > 0
    requires j < |h.cs| && j != i && k < |Split(h.cs[i], n)|
    ensures Split(h.cs[i], n)[k].addr != h.cs[j].addr
  {
    hide Inv, Split, FitsAt, PayloadAddr, Tiled, RegionsApart, GoodChunk, Alloc;
    AllocKeepsInv(h, l);
    AllocAt(h, l, i, n);
    var h', s := Alloc(h, l).0, Split(h.cs[i], n);
    InvTiling(h');
    var j' := if j < i then j else j + |s| - 1;
    assert h'.cs[i + k] == s[k] && h'.cs[j'] == h.cs[j];
    AddrsDistinct(h', i + k, j');
  }

  /** Memory after the stores of `provide`. */
  function ProvideStores(mem: Memory, c: Chunk, next: Option<nat>, n: Need): (mem': Memory)
    requires GoodChunk(c) && GoodNeed(n) && CanProvide(c, n)
  {
    SplitFacts(c, n);
    var p := PayloadAddr(c, n);
    var pad := End(c) - (p + n.size);
    var inner := mem[p - HEADER := Header(if pad == 0 then next else Some(p + n.size), n.size + HEADER, true)];
    var padded := if pad == 0 then inner else inner[p + n.size := Header(next, pad, false)];
    padded[c.addr := Header(Some(p - HEADER), c.size - (n.size + HEADER + pad), false)]
  }

  /** They write the headers of the split, chained. */
  lemma StoresAreSplit(mem: Memory, c: Chunk, next: Option<nat>, n: Need)
    requires GoodChunk(c) && GoodNeed(n) && CanProvide(c, n)
    ensures var mem', s := ProvideStores(mem, c, next, n), Split(c, n);
            && s[0].addr == c.addr
            && (forall k :: 0 <= k < |s| ==> HeaderIs(mem', s[k], NextIn(s, k, next)))
            && (forall a :: (forall k :: 0 <= k < |s| ==> s[k].addr != a) ==> SameGranule(mem, mem', a))
  {
    SplitFacts(c, n);
    hide PayloadAddr;
    var s, mem' := Split(c, n), ProvideStores(mem, c, next, n);
    var p := PayloadAddr(c, n);
    assert s[0].addr == c.addr && s[1].addr == p - HEADER && (|s| == 3 ==> s[2].addr == p + n.size);
    assert HeaderIs(mem', s[0], NextIn(s, 0, next)) && HeaderIs(mem', s[1], NextIn(s, 1, next));
    assert |s| == 3 ==> HeaderIs(mem', s[2], NextIn(s, 2, next));
    forall a | forall k :: 0 <= k < |s| ==> s[k].addr != a
      ensures SameGranule(mem, mem', a)
    {
      assert a != s[0].addr && a != s[1].addr && (|s| == 3 ==> a != s[2].addr);
    }
  }

  lemma ProvideLinks(h: Heap, mem: Memory, first: Option<nat>, l: Layout, i: nat, n: Need)
    requires Inv(h) && Linked(mem, first, h.cs) && ValidLayout(l) && FitsAt(h, l, i, n)
    requires i < |h.cs| && GoodNeed(n) && CanProvide(h.cs[i], n)
    ensures GoodChunk(h.cs[i])
    ensures Linked(ProvideStores(mem, h.cs[i], AddrAt(h.cs, i + 1), n), first, Replaced(h.cs, i, Split(h.cs[i], n)))
  {
    hide Inv, Linked, Split, ProvideStores, FitsAt, HeaderIs, SameGranule, Replaced;
    InvTiling(h);
    assert GoodChunk(h.cs[i]);
    var next, s := AddrAt(h.cs, i + 1), Split(h.cs[i], n);
    var mem' := ProvideStores(mem, h.cs[i], next, n);
    StoresAreSplit(mem, h.cs[i], next, n);
    forall j | 0 <= j < |h.cs| && j != i
      ensures SameGranule(mem, mem', h.cs[j].addr)
    {
      forall k | 0 <= k < |s|
        ensures s[k].addr != h.cs[j].addr
      {
        SplitAddrsFresh(h, l, i, n, j, k);
      }
    }
    Relinked(mem, mem', first, h.cs, i, s);
  }

  /** ... and none of them touches a live payload. */
  lemma ProvideKeeps(h: Heap, mem: Memory, next: Option<nat>, l: Layout, i: nat, n: Need)
    requires Inv(h) && ValidLayout(l) && FitsAt(h, l, i, n)
    requires i < |h.cs| && GoodChunk(h.cs[i]) && GoodNeed(n) && CanProvide(h.cs[i], n)
    ensures PayloadsKept(mem, ProvideStores(mem, h.cs[i], next, n), h)
  {
    hide Inv, FitsAt, Alloc, PayloadAddr, Split, ProvideStores, InPayload, InHeader, SameGranule, LiveInv;
    AllocKeepsInv(h, l);
    AllocKeepsLive(h, l);
    AllocAt(h, l, i, n);
    StoresAreSplit(mem, h.cs[i], next, n);
    var h', s, mem' := Alloc(h, l).0, Split(h.cs[i], n), ProvideStores(mem, h.cs[i], next, n);
    forall p, b: nat | p in h.live && InPayload(h, p, b)
      ensures SameGranule(mem, mem', GranuleOf(b))
    {
      if k :| 0 <= k < |s| && s[k].addr == GranuleOf(b) {
        assert h'.cs[i + k] == s[k];
        SamePayload(h, h', p, b);
        PayloadApartFromHeaders(h', p, i + k, b);
        GranuleHeader(s[k], b);
      }
    }
  }

  lemma SamePayload(h: Heap, h': Heap, p: nat, b: nat)
    requires p in h.live && p in h'.live && h.live[p] == h'.live[p]
    ensures InPayload(h, p, b) <==> InPayload(h', p, b)
  {
  }

  lemma GranuleHeader(c: Chunk, b: nat)
    requires c.addr == GranuleOf(b)
    ensures InHeader(c, b)
  {
  }

  class FirstFitAllocator {
    var mem: Memory
    var first: Option<nat>
    ghost var heap: Heap

    ghost predicate Valid()
      reads this
    {
      Inv(heap) && Linked(mem, first, heap.cs)
    }

    constructor ()
      ensures Valid() && heap == EMPTY
    {
      mem, first, heap := map[], None, EMPTY;
    }

    /** `add_free_from_descriptor`. */
    method AddFree(start: nat, pages: nat)
      requires Valid() && CanDonate(heap, start, pages)
      modifies this
      ensures Valid() && heap == Donate(old(heap), start, pages)
      ensures PayloadsKept(old(mem), mem, old(heap))
    {
      hide Inv, Linked, Donate, CanDonate, PayloadsKept;
      DonateKeepsInv(heap, start, pages);
      DonateCases(heap, start, pages);
      var at, size := start, pages * PAGE;
      if at == 0 {
        at := at + PAGE;
        size := if size < PAGE then 0 else size - PAGE;
      }
      if size <= PAGE {
        KeptSame(mem, heap);
        return;
      }
      ghost var h' := Donate(heap, start, pages);
      DonateRelinks(mem, first, heap, h', Chunk(at, size, false));
      HeaderStoreKeeps(mem, at, Header(first, size, false), heap, h', 0);
      mem := mem[at := Header(first, size, false)];
      first := Some(at);
      heap := h';
    }

    /** `dealloc`. */
    method Free(p: nat)
      requires Valid() && p in heap.live
      modifies this
      ensures Valid() && p >= HEADER && heap == Dealloc(old(heap), p)
      ensures p !in heap.live && forall q :: q in heap.live <==> q in old(heap.live) && q != p
      ensures old(p - 32 in mem && mem[p - 32].Header? && mem[p - 32].taken)
      ensures first == old(first)
      ensures mem == old(mem)[p - 32 := Header(old(mem[p - 32].next), old(mem[p - 32].size), false)]
      ensures PayloadsKept(old(mem), mem, heap)
    {
      hide Inv, Find, Linked, PayloadsKept;
      DeallocKeepsInv(heap, p);
      ghost var k := DeallocFrees(heap, p);
      ghost var i := Find(heap.cs, p - HEADER).value;
      ghost var h' := Dealloc(heap, p);
      LinkedAt(mem, first, heap.cs, i);
      FreedElsewhere(heap, i);
      FreeRelinks(mem, first, heap.cs, i);
      var a := p - HEADER;
      HeaderStoreKeeps(mem, a, mem[a].(taken := false), h', h', i);
      mem := mem[a := mem[a].(taken := false)];
      heap := h';
    }

    /** `Header::provide` on the header at `a`, which is chunk i. */
    method Provide(a: nat, l: Layout, ghost i: nat) returns (got: Option<nat>)
      requires Valid() && ValidLayout(l) && i < |heap.cs| && heap.cs[i].addr == a
      requires Needs(l).Some? ==> forall j :: 0 <= j < i ==> !Serves(heap.cs[j], Needs(l).value)
      modifies this
      ensures Valid()
      ensures got.Some? ==> (heap, got) == Alloc(old(heap), l) && PayloadsKept(old(mem), mem, old(heap))
      ensures got.None? ==> heap == old(heap) && mem == old(mem) && first == old(first)
      ensures got.None? && Needs(l).Some? ==> !Serves(heap.cs[i], Needs(l).value)
    {
      hide Inv, Needs, Split, Alloc, PayloadAddr, PayloadsKept, Replaced, ProvideStores, Linked;
      NeedsFacts(l);
      var need := Needs(l);
      LinkedAt(mem, first, heap.cs, i);
      if need.None? {
        return None;
      }
      var n, self := need.value, mem[a];
      if self.taken || !(self.size >= n.size + HEADER * 2 + n.align) {
        return None;
      }
      FirstServing(heap, l, i, n);
      AllocKeepsInv(heap, l);
      AllocAt(heap, l, i, n);
      ProvideLinks(heap, mem, first, l, i, n);
      ProvideKeeps(heap, mem, self.next, l, i, n);
      hide HeaderIs;
      var p := Carve(a, self, n, heap.cs[i]);
      heap := Alloc(heap, l).0;
      return Some(p);
    }

    /** The stores of `provide`, carving the allocation out of the high end of chunk c. */
    method Carve(a: nat, self: Granule, n: Need, ghost c: Chunk) returns (p: nat)
      requires GoodChunk(c) && GoodNeed(n) && CanProvide(c, n) && c.addr == a && self.Header? && self.size == c.size
      modifies this`mem
      ensures p == PayloadAddr(c, n) && mem == ProvideStores(old(mem), c, self.next, n)
    {
      SplitFacts(c, n);
      var end := a + self.size;
      p := (end - n.size) - (end - n.size) % n.align;
      PayloadValue(c, n);
      hide PayloadAddr;
      mem := mem[p - HEADER := Header(self.next, n.size + HEADER, true)];
      var used := n.size + HEADER;
      if p + n.size != end {
        mem := mem[p + n.size := Header(self.next, end - (p + n.size), false)];
        used := used + (end - (p + n.size));
        mem := mem[p - HEADER := Header(Some(p + n.size), n.size + HEADER, true)];
      }
      assert self.size >= used + HEADER;
      mem := mem[a := Header(Some(p - HEADER), self.size - used, false)];
    }

    /** `alloc_with_options`: walk the list until a header provides; 0 is the null pointer. */
    method AllocWithOptions(l: Layout) returns (p: nat)
      requires Valid() && ValidLayout(l)
      modifies this
      ensures Valid() && heap == Alloc(old(heap), l).0
      ensures Alloc(old(heap), l).1 == if p == 0 then None else Some(p)
      ensures PayloadsKept(old(mem), mem, old(heap))
    {
      hide Inv, Needs, Alloc, PayloadsKept, Linked;
      KeptSame(mem, heap);
      FirstLinked(mem, first, heap.cs);
      ghost var i := 0;
      var at := first;
      while at.Some?
        invariant Valid() && heap == old(heap) && mem == old(mem) && first == old(first)
        invariant i <= |heap.cs| && at == AddrAt(heap.cs, i)
        invariant Needs(l).Some? ==> forall j :: 0 <= j < i ==> !Serves(heap.cs[j], Needs(l).value)
        decreases |heap.cs| - i
      {
        LinkedAt(mem, first, heap.cs, i);
        var got := Provide(at.value, l, i);
        if got.Some? {
          NewPointerNotNull(heap, old(heap), l);
          return got.value;
        }
        at := mem[at.value].next;
        i := i + 1;
      }
      NoneServes(heap, l);
      return 0;
    }

    /** A one-byte store by the owner of a live allocation never reaches a header, and changes
        that byte only. */
    method WritePayload(p: nat, b: nat, value: Byte)
      requires Valid() && p in heap.live && InPayload(heap, p, b)
      modifies this`mem
      ensures Valid() && heap == old(heap)
      ensures ByteAt(mem, b) == Some(value)
      ensures forall c :: c != b && ByteAt(old(mem), c).Some? ==> ByteAt(mem, c) == ByteAt(old(mem), c)
      ensures forall a :: a != GranuleOf(b) ==> SameGranule(old(mem), mem, a)
    {
      hide Inv;
      forall j | 0 <= j < |heap.cs|
        ensures heap.cs[j].addr != GranuleOf(b)
      {
        PayloadApartFromHeaders(heap, p, j, b);
      }
      var a := GranuleOf(b);
      var bytes := if a in mem && mem[a].Raw? && |mem[a].bytes| == HEADER then mem[a].bytes else seq(HEADER, _ => 0);
      mem := mem[a := Raw(bytes[b - a := value])];
      assert forall j :: 0 <= j < |heap.cs| ==> HeaderIs(old(mem), heap.cs[j], AddrAt(heap.cs, j + 1));
    }
  }

  lemma KeptSame(mem: Memory, h: Heap)
    ensures PayloadsKept(mem, mem, h)
  {
  }

  lemma NewPointerNotNull(h': Heap, h: Heap, l: Layout)
    requires Inv(h') && ValidLayout(l) && Alloc(h, l).1.Some? && h' == Alloc(h, l).0
    ensures Alloc(h, l).1.value != 0
  {
    hide Inv, Alloc, FitsAt, PayloadAddr, Replaced;
    var fits, i, n := AllocCases(h, l);
    AllocAt(h, l, i, n);
    var r := LivePayload(h', Alloc(h, l).1.value);
  }

  /** The null pointer is returned exactly when no chunk serves. */
  lemma NoneServes(h: Heap, l: Layout)
    requires ValidLayout(l)
    requires Needs(l).Some? ==> forall j :: 0 <= j < |h.cs| ==> !Serves(h.cs[j], Needs(l).value)
    ensures Alloc(h, l) == (h, None)
  {
    hide Needs;
    NeedsFacts(l);
  }

  lemma PayloadValue(c: Chunk, n: Need)
    requires CanProvide(c, n) && n.align > 0
    ensures PayloadAddr(c, n) == (c.addr + c.size - n.size) - (c.addr + c.size - n.size) % n.align
  {
  }

  /** A serving chunk with no serving one before it is where the request fits. */
  lemma FirstServing(h: Heap, l: Layout, i: nat, n: Need)
    requires ValidLayout(l) && Needs(l) == Some(n) && i < |h.cs| && Serves(h.cs[i], n)
    requires forall j :: 0 <= j < i ==> !Serves(h.cs[j], n)
    ensures FitsAt(h, l, i, n)
  {
    var r := FirstFit(h.cs, n);
    assert r.Some?;
    assert r.value == i;
  }

  lemma FreeRelinks(mem: Memory, first: Option<nat>, cs: seq<Chunk>, i: nat)
    requires Linked(mem, first, cs) && i < |cs| && HeaderIs(mem, cs[i], AddrAt(cs, i + 1))
    requires forall j :: 0 <= j < |cs| && j != i ==> cs[j].addr != cs[i].addr
    ensures Linked(mem[cs[i].addr := mem[cs[i].addr].(taken := false)], first, cs[i := cs[i].(taken := false)])
  {
    hide Linked, Replaced;
    var c := cs[i];
    var s, mem' := [c.(taken := false)], mem[c.addr := mem[c.addr].(taken := false)];
    assert HeaderIs(mem', s[0], NextIn(s, 0, AddrAt(cs, i + 1)));
    Relinked(mem, mem', first, cs, i, s);
    ReplaceOne(cs, i, s[0]);
  }

  lemma ReplaceOne(cs: seq<Chunk>, i: nat, c: Chunk)
    requires i < |cs|
    ensures Replaced(cs, i, [c]) == cs[i := c]
  {
  }

  lemma FreedElsewhere(h: Heap, i: nat)
    requires Inv(h) && i < |h.cs|
    ensures forall j :: 0 <= j < |h.cs| && j != i ==> h.cs[j].addr != h.cs[i].addr
  {
    hide Inv;
    InvTiling(h);
    forall j | 0 <= j < |h.cs| && j != i
      ensures h.cs[j].addr != h.cs[i].addr
    {
      AddrsDistinct(h, i, j);
    }
  }

  /** What a donation makes of the heap. */
  lemma DonateCases(h: Heap, start: nat, pages: nat)
    ensures var h', u := Donate(h, start, pages), Usable(start, pages);
            && h'.live == h.live
            && (u.None? ==> h' == h)
            && (u.Some? ==> h'.cs == [Chunk(u.value.start, u.value.size, false)] + h.cs)
  {
  }

  /** A header stored in front of the chain is the chain of the donated heap. */
  lemma DonateRelinks(mem: Memory, first: Option<nat>, h: Heap, h': Heap, c: Chunk)
    requires Linked(mem, first, h.cs) && Inv(h') && h'.cs == [c] + h.cs
    ensures Linked(mem[c.addr := Header(first, c.size, c.taken)], Some(c.addr), h'.cs)
  {
    hide Inv;
    FreedElsewhere(h', 0);
    var mem' := mem[c.addr := Header(first, c.size, c.taken)];
    forall i | 0 <= i < |h'.cs|
      ensures HeaderIs(mem', h'.cs[i], AddrAt(h'.cs, i + 1))
    {
      if i > 0 {
        assert h'.cs[i] == h.cs[i - 1] && HeaderIs(mem, h.cs[i - 1], AddrAt(h.cs, i));
      }
    }
  }
}
