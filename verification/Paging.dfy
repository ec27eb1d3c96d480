/** Four-level page tables (x86.rs).  Tables live in physical memory: a map from page-aligned
    addresses to 512 entries of 64 bits. */
module Paging {
  import opened Results
  import Bits

  const PAGE_SIZE: nat := 4096
  const ENTRIES: nat := 512
  const ENTRY_BITS: nat := 64
  const ATTR_MASK: nat := 0xFFF
  const PAGES: nat := 0x10_0000_0000       // 2^36 pages of the 48-bit address space
  const WORD: nat := 0x1_0000_0000_0000_0000

  type Tables = map<nat, seq<nat>>

  datatype Attr = NotPresent | ReadWriteKernel | ReadWriteIo

  /** PRESENT | WRITABLE, with WRITE_THROUGH | CACHE_DISABLE added for device memory. */
  function AttrBits(attr: Attr): (r: nat)
    ensures r < PAGE_SIZE && (r % 2 == 1 <==> !attr.NotPresent?)
  {
    match attr
    case NotPresent => 0
    case ReadWriteKernel => 1 + 2
    case ReadWriteIo => 1 + 2 + 8 + 16
  }

  // ----- entries -----

  predicate Present(e: nat) { e % 2 == 1 }

  // What the processor reads in an entry: bit 1 lets the page or all below it be written, bit 3
  // makes the cache write through and bit 4 turns it off.
  predicate Writable(e: nat) { e / 2 % 2 == 1 }
  predicate WriteThrough(e: nat) { e / 8 % 2 == 1 }
  predicate CacheDisabled(e: nat) { e / 16 % 2 == 1 }

  predicate ReadWriteCached(e: nat) { Present(e) && Writable(e) && !WriteThrough(e) && !CacheDisabled(e) }

  predicate ReadWriteUncached(e: nat) { Present(e) && Writable(e) && WriteThrough(e) && CacheDisabled(e) }

  lemma PermissionsAreBits(e: nat)
    ensures Present(e) <==> Bits.ReadBits(e, 0, 1) != 0
    ensures Writable(e) <==> Bits.ReadBits(e, 1, 1) != 0
    ensures WriteThrough(e) <==> Bits.ReadBits(e, 3, 1) != 0
    ensures CacheDisabled(e) <==> Bits.ReadBits(e, 4, 1) != 0
  {
    assert Bits.Pow2(0) == 1 && Bits.Pow2(1) == 2 && Bits.Pow2(3) == 8 && Bits.Pow2(4) == 16;
    hide Bits.ReadBits, Bits.Pow2;
    Bits.ReadIsDivMod(e, 0, 1);
    Bits.ReadIsDivMod(e, 1, 1);
    Bits.ReadIsDivMod(e, 3, 1);
    Bits.ReadIsDivMod(e, 4, 1);
  }

  /** What each attribute makes of an aligned frame. */
  lemma EntryPermits(frame: nat, attr: Attr)
    requires frame % PAGE_SIZE == 0
    ensures var e := frame + AttrBits(attr);
            match attr
            case NotPresent => e == frame && !Present(e)
            case ReadWriteKernel => ReadWriteCached(e) && e % PAGE_SIZE == 0x003
            case ReadWriteIo => ReadWriteUncached(e) && e % PAGE_SIZE == 0x01B
  {
    LowBitsStay(frame, AttrBits(attr));
  }

  lemma LowBitsStay(frame: nat, a: nat)
    requires frame % PAGE_SIZE == 0 && a < PAGE_SIZE
    ensures (frame + a) % PAGE_SIZE == a && (frame + a) % 2 == a % 2 && (frame + a) / 2 % 2 == a / 2 % 2
    ensures (frame + a) / 8 % 2 == a / 8 % 2 && (frame + a) / 16 % 2 == a / 16 % 2
  {
    var q := frame / PAGE_SIZE;
    Bits.DivModUnique(q, PAGE_SIZE, a);
    BitStays(frame + a, a, 2048 * q, 1);
    BitStays(frame + a, a, 1024 * q, 2);
    BitStays(frame + a, a, 256 * q, 8);
    BitStays(frame + a, a, 128 * q, 16);
  }

  lemma BitStays(x: nat, a: nat, q: nat, d: nat)
    requires d > 0 && x == (2 * q) * d + a
    ensures x / d % 2 == a / d % 2
  {
    var u := a / d;
    Bits.DivModParts(a, d);
    Distribute(2 * q, u, d);
    Bits.DivModUnique(2 * q + u, d, a % d);
    EvenPlus(q, u);
  }

  lemma Distribute(a: nat, b: nat, d: nat)
    ensures (a + b) * d == a * d + b * d
  {
  }

  lemma EvenPlus(q: nat, u: nat)
    ensures (2 * q + u) % 2 == u % 2
  {
  }

  /** The address in an entry, `value & !ATTR_MASK`. */
  function Target(e: nat): (r: nat)
    ensures r % PAGE_SIZE == 0
  {
    e - e % PAGE_SIZE
  }

  lemma EntryIsBits(e: nat)
    requires e < Bits.Pow2(ENTRY_BITS)
    ensures ATTR_MASK < Bits.Pow2(ENTRY_BITS)
    ensures Target(e) == Bits.BitAnd(e, Bits.BitNot(ENTRY_BITS, ATTR_MASK))
    ensures e % PAGE_SIZE == Bits.BitAnd(e, ATTR_MASK)
  {
    hide Bits.Pow2, Bits.BitAnd, Bits.Low, Bits.Shr;
    PowersOfTwo();
    Bits.AndMask(e, 12);
    Bits.ShrLowAreDivMod(e, 12);
    Bits.AndNotMaskRoundsDown(ENTRY_BITS, e, 12);
  }

  lemma PowersOfTwo()
    ensures Bits.Pow2(9) == 512 && Bits.Pow2(12) == 4096
    ensures Bits.Pow2(21) == 0x20_0000 && Bits.Pow2(30) == 0x4000_0000 && Bits.Pow2(39) == 0x80_0000_0000
  {
    assert Bits.Pow2(9) == 512;
    Bits.Pow2Add(3, 9);
    Bits.Pow2Add(9, 12);
    Bits.Pow2Add(9, 21);
    Bits.Pow2Add(9, 30);
  }

  /** `set_page` stores `phys | attr`, which for an aligned address is the sum. */
  lemma PageValueIsBits(phys: nat, attr: Attr)
    requires phys % PAGE_SIZE == 0
    ensures Bits.BitOr(phys, AttrBits(attr)) == phys + AttrBits(attr)
  {
    PowersOfTwo();
    Bits.ShrLowAreDivMod(phys, 12);
    Bits.OrDisjoint(AttrBits(attr), phys, 12);
  }

  // ----- walking -----

  /** The page number above `level` indices. */
  function Pre(level: nat, page: nat): (r: nat)
    decreases level
  {
    if level == 0 then page else Pre(level - 1, page) / ENTRIES
  }

  /** `Table::<LEVEL>::calc_index`. */
  function CalcIndex(level: nat, addr: nat): (i: nat)
    requires 1 <= level <= 4
    ensures i < ENTRIES
  {
    Pre(level - 1, addr / PAGE_SIZE) % ENTRIES
  }

  lemma CalcIndexIsBits(level: nat, addr: nat)
    requires 1 <= level <= 4
    ensures CalcIndex(level, addr) == Bits.BitAnd(Bits.Shr(addr, (level - 1) * 9 + 12), Bits.Pow2(9) - 1)
  {
    PowersOfTwo();
    var shift := (level - 1) * 9 + 12;
    Bits.AndMask(Bits.Shr(addr, shift), 9);
    Bits.ShrLowAreDivMod(addr, shift);
    Bits.ShrLowAreDivMod(Bits.Shr(addr, shift), 9);
    PreIsDivision(level - 1, addr);
  }

  lemma {:induction false} PreIsDivision(level: nat, addr: nat)
    requires level <= 3
    ensures Pre(level, addr / PAGE_SIZE) == addr / Bits.Pow2(level * 9 + 12)
    decreases level
  {
    PowersOfTwo();
    if level > 0 {
      PreIsDivision(level - 1, addr);
      Bits.Pow2Add(9, (level - 1) * 9 + 12);
      Bits.DivDiv(addr, Bits.Pow2((level - 1) * 9 + 12), ENTRIES);
    }
  }

  /** The table of a level on the path to a page, if every entry above it is present. */
  function TableAt(ts: Tables, root: nat, level: nat, page: nat): (r: Option<nat>)
    requires level <= 4
    decreases 4 - level
  {
    if level == 4 then Some(root)
    else
      var parent := TableAt(ts, root, level + 1, page);
      if parent.None? || parent.value !in ts || |ts[parent.value]| != ENTRIES then None
      else
        var e := ts[parent.value][Pre(level, page) % ENTRIES];
        if Present(e) then Some(Target(e)) else None
  }

  /** The entry that maps a page; 0, not present, when the walk ends early. */
  function Leaf(ts: Tables, root: nat, page: nat): (e: nat)
  {
    var t := TableAt(ts, root, 1, page);
    if t.None? || t.value !in ts || |ts[t.value]| != ENTRIES then 0 else ts[t.value][page % ENTRIES]
  }

  /** What the processor makes of a page: its frame and attributes. */
  function Translate(ts: Tables, root: nat, page: nat): (r: Option<(nat, nat)>)
  {
    var e := Leaf(ts, root, page);
    if Present(e) then Some((Target(e), e % PAGE_SIZE)) else None
  }

  // ----- well-formed table trees -----

  /** A place in the tree: a level and the path down to it, as a number. */
  datatype Place = Place(level: nat, prefix: nat)

  function Above(h: Place): (r: Place) { Place(h.level + 1, h.prefix / ENTRIES) }

  function Below(h: Place, i: nat): (r: Place)
    requires h.level > 0
  {
    Place(h.level - 1, h.prefix * ENTRIES + i)
  }

  /** The place of a page's table at a level. */
  function PlaceOf(level: nat, page: nat): (h: Place) { Place(level, Pre(level, page)) }

  /** Tables stand at distinct places, closed upwards, and an upper entry is present exactly
      when there is a table at the place below it, and then is writable and leads to that table. */
  predicate Tree(ts: Tables, root: nat, places: map<Place, nat>)
  {
    && Place(4, 0) in places && places[Place(4, 0)] == root
    && (forall h :: h in places ==> 1 <= h.level <= 4 && places[h] in ts && |ts[places[h]]| == ENTRIES)
    && (forall h, g :: h in places && g in places && h != g ==> places[h] != places[g])
    && (forall h :: h in places && h.level < 4 ==> Above(h) in places)
    && (forall h, i :: h in places && h.level > 1 && 0 <= i < ENTRIES ==> EntryFits(ts, places, h, i))
  }

  predicate EntryFits(ts: Tables, places: map<Place, nat>, h: Place, i: nat)
    requires h in places && h.level > 1 && places[h] in ts && i < |ts[places[h]]|
  {
    var e := ts[places[h]][i];
    && (Present(e) <==> Below(h, i) in places)
    && (Present(e) ==> Writable(e) && Target(e) == places[Below(h, i)])
  }

  lemma RootPlace(ts: Tables, root: nat, places: map<Place, nat>)
    requires Tree(ts, root, places)
    ensures Place(4, 0) in places && places[Place(4, 0)] == root
  {
  }

  /** The hardware walk finds the table standing at the page's place, if any. */
  lemma {:induction false} WalkFindsPlace(ts: Tables, root: nat, places: map<Place, nat>, level: nat, page: nat)
    requires Tree(ts, root, places) && 1 <= level <= 4 && page < PAGES
    ensures TableAt(ts, root, level, page)
         == if PlaceOf(level, page) in places then Some(places[PlaceOf(level, page)]) else None
    decreases 4 - level
  {
    if level == 4 {
      PreTop(page);
    } else {
      WalkFindsPlace(ts, root, places, level + 1, page);
      var h, up := PlaceOf(level, page), PlaceOf(level + 1, page);
      var i := Pre(level, page) % ENTRIES;
      PreUp(level + 1, page);
      assert Above(h) == up && Below(up, i) == h;
      if up in places {
        assert EntryFits(ts, places, up, i);
      }
    }
  }

  /** The entry of a level on the way to a page. */
  function EntryAt(ts: Tables, root: nat, level: nat, page: nat): (e: nat)
    requires 1 <= level <= 4
  {
    var t := TableAt(ts, root, level, page);
    if t.None? || t.value !in ts || |ts[t.value]| != ENTRIES then 0
    else ts[t.value][Pre(level - 1, page) % ENTRIES]
  }

  /** The processor lets a page be written when every entry on the way to it does. */
  predicate MayWrite(ts: Tables, root: nat, page: nat)
  {
    forall level :: 1 <= level <= 4 ==>
      Present(EntryAt(ts, root, level, page)) && Writable(EntryAt(ts, root, level, page))
  }

  /** In a tree that is up to the last entry. */
  lemma LeafDecides(ts: Tables, root: nat, places: map<Place, nat>, page: nat)
    requires Tree(ts, root, places) && page < PAGES
    ensures MayWrite(ts, root, page) <==> Present(Leaf(ts, root, page)) && Writable(Leaf(ts, root, page))
  {
    hide Present, Writable, Leaf, TableAt, Tree;
    LastEntry(ts, root, page);
    if Present(Leaf(ts, root, page)) {
      TableAbove(ts, root, places, 1, page);
      TableAbove(ts, root, places, 2, page);
      TableAbove(ts, root, places, 3, page);
    }
  }

  lemma LastEntry(ts: Tables, root: nat, page: nat)
    ensures EntryAt(ts, root, 1, page) == Leaf(ts, root, page)
    ensures Present(Leaf(ts, root, page)) ==> TableAt(ts, root, 1, page).Some?
  {
  }

  /** A table stands below a present and writable entry. */
  lemma TableAbove(ts: Tables, root: nat, places: map<Place, nat>, level: nat, page: nat)
    requires Tree(ts, root, places) && 1 <= level < 4 && page < PAGES && TableAt(ts, root, level, page).Some?
    ensures TableAt(ts, root, level + 1, page).Some?
    ensures Present(EntryAt(ts, root, level + 1, page)) && Writable(EntryAt(ts, root, level + 1, page))
  {
    hide Present, Writable, Target;
    WalkFindsPlace(ts, root, places, level, page);
    WalkFindsPlace(ts, root, places, level + 1, page);
    var h, up, i := PlaceOf(level, page), PlaceOf(level + 1, page), Pre(level, page) % ENTRIES;
    PreUp(level + 1, page);
    assert Below(up, i) == h;
    assert EntryFits(ts, places, up, i);
  }

  lemma PreUp(level: nat, page: nat)
    requires level > 0
    ensures Pre(level, page) == Pre(level - 1, page) / ENTRIES
  {
  }

  lemma PreTop(page: nat)
    ensures page < PAGES ==> Pre(4, page) == 0
  {
    assert Pre(1, page) == page / 512;
    assert Pre(2, page) == page / 512 / 512;
    assert Pre(3, page) == page / 512 / 512 / 512;
  }

  /** A page's entry, by place. */
  lemma LeafAtPlace(ts: Tables, root: nat, places: map<Place, nat>, page: nat)
    requires Tree(ts, root, places) && page < PAGES
    ensures Leaf(ts, root, page)
         == if PlaceOf(1, page) in places then ts[places[PlaceOf(1, page)]][page % ENTRIES] else 0
  {
    WalkFindsPlace(ts, root, places, 1, page);
  }

  // ----- the two kinds of store -----

  function Stored(ts: Tables, t: nat, i: nat, v: nat): (ts': Tables)
    requires t in ts && i < |ts[t]|
  {
    var row: seq<nat> := ts[t][i := v];
    ts[t := row]
  }

  function ZeroTable(): (row: seq<nat>)
    ensures |row| == ENTRIES && forall i :: 0 <= i < ENTRIES ==> row[i] == 0
  {
    seq(ENTRIES, _ => 0)
  }

  lemma StoreKeepsTree(ts: Tables, root: nat, places: map<Place, nat>, h: Place, i: nat, v: nat)
    requires Tree(ts, root, places) && h in places && h.level == 1 && i < ENTRIES
    ensures Tree(Stored(ts, places[h], i, v), root, places)
  {
    var ts' := Stored(ts, places[h], i, v);
    forall g, j | g in places && g.level > 1 && 0 <= j < ENTRIES
      ensures EntryFits(ts', places, g, j)
    {
      assert EntryFits(ts, places, g, j);
    }
  }

  /** Storing a last-level entry changes the mapping of that one page. */
  lemma StoreLeaf(ts: Tables, root: nat, places: map<Place, nat>, page: nat, v: nat, q: nat)
    requires Tree(ts, root, places) && page < PAGES && q < PAGES && PlaceOf(1, page) in places
    ensures Leaf(Stored(ts, places[PlaceOf(1, page)], page % ENTRIES, v), root, q)
         == if q == page then v else Leaf(ts, root, q)
  {
    StoreKeepsTree(ts, root, places, PlaceOf(1, page), page % ENTRIES, v);
    LeafAtPlace(ts, root, places, q);
    LeafAtPlace(Stored(ts, places[PlaceOf(1, page)], page % ENTRIES, v), root, places, q);
    PreUp(1, page);
    PreUp(1, q);
  }

  /** The tables after an absent upper entry is pointed at a new, all-zero table. */
  function Populated(ts: Tables, t: nat, i: nat, a: nat): (ts': Tables)
    requires t in ts && i < |ts[t]|
  {
    Stored(ts, t, i, a + AttrBits(ReadWriteKernel))[a := ZeroTable()]
  }

  /** The entry then is writable, cached and leads to the new table. */
  lemma PopulatedEntry(ts: Tables, t: nat, i: nat, a: nat)
    requires t in ts && i < |ts[t]| && a !in ts && a % PAGE_SIZE == 0
    ensures var ts' := Populated(ts, t, i, a);
            && t in ts' && i < |ts'[t]| && Target(ts'[t][i]) == a && ReadWriteCached(ts'[t][i])
            && a in ts' && |ts'[a]| == ENTRIES && forall j :: 0 <= j < ENTRIES ==> ts'[a][j] == 0
  {
    FrameAndAttr(a, ReadWriteKernel);
    EntryPermits(a, ReadWriteKernel);
    hide Target, ReadWriteCached;
  }

  predicate CanPopulate(ts: Tables, root: nat, places: map<Place, nat>, h: Place, i: nat, a: nat)
  {
    && Tree(ts, root, places)
    && h in places && h.level > 1 && i < ENTRIES && Below(h, i) !in places
    && a !in ts && a % PAGE_SIZE == 0
  }

  lemma BelowAbove(h: Place, i: nat)
    requires h.level > 0 && i < ENTRIES
    ensures Above(Below(h, i)) == h
    ensures forall g: Place, j: nat :: g.level > 0 && j < ENTRIES && Below(g, j) == Below(h, i) ==> g == h && j == i
  {
  }

  /** Every upper entry fits after a table is added: the new table's entries are absent, */
  lemma PopulateFitsNew(ts: Tables, root: nat, places: map<Place, nat>, h: Place, i: nat, a: nat, j: nat)
    requires CanPopulate(ts, root, places, h, i, a) && Below(h, i).level > 1 && j < ENTRIES
    ensures var g, places', ts' := Below(h, i), places[Below(h, i) := a], Populated(ts, places[h], i, a);
            places'[g] in ts' && |ts'[places'[g]]| == ENTRIES && EntryFits(ts', places', g, j)
  {
    hide Present, Target;
    var g := Below(h, i);
    BelowAbove(g, j);
    assert Above(Below(g, j)) == g;   // so nothing stood below the new place
    assert !Present(0) by { ZeroAbsent(); }
  }

  lemma ZeroAbsent()
    ensures !Present(0)
  {
  }

  /** ... the entry that leads to it is present, and all others are as they were. */
  lemma PopulateFitsOld(ts: Tables, root: nat, places: map<Place, nat>, h: Place, i: nat, a: nat, g: Place, j: nat)
    requires CanPopulate(ts, root, places, h, i, a) && g in places && g.level > 1 && j < ENTRIES
    ensures var places', ts' := places[Below(h, i) := a], Populated(ts, places[h], i, a);
            places'[g] in ts' && |ts'[places'[g]]| == ENTRIES && EntryFits(ts', places', g, j)
  {
    hide Present, Target, Below;
    BelowAbove(h, i);
    FrameAndAttr(a, ReadWriteKernel);
    EntryPermits(a, ReadWriteKernel);
    hide Writable, WriteThrough, CacheDisabled;
    assert EntryFits(ts, places, g, j);
    assert Below(g, j) == Below(h, i) <==> g == h && j == i;
  }

  lemma PopulateKeepsTree(ts: Tables, root: nat, places: map<Place, nat>, h: Place, i: nat, a: nat)
    requires CanPopulate(ts, root, places, h, i, a)
    ensures Tree(Populated(ts, places[h], i, a), root, places[Below(h, i) := a])
  {
    var places' := places[Below(h, i) := a];
    var ts' := Populated(ts, places[h], i, a);
    BelowAbove(h, i);
    forall g, j | g in places' && g.level > 1 && 0 <= j < ENTRIES
      ensures places'[g] in ts' && |ts'[places'[g]]| == ENTRIES && EntryFits(ts', places', g, j)
    {
      if g == Below(h, i) {
        PopulateFitsNew(ts, root, places, h, i, a, j);
      } else {
        PopulateFitsOld(ts, root, places, h, i, a, g, j);
      }
    }
  }

  /** Populating an entry changes no page's mapping. */
  lemma PopulateKeepsLeaf(ts: Tables, root: nat, places: map<Place, nat>, h: Place, i: nat, a: nat, q: nat)
    requires CanPopulate(ts, root, places, h, i, a) && q < PAGES
    ensures Leaf(Populated(ts, places[h], i, a), root, q) == Leaf(ts, root, q)
  {
    PopulateKeepsTree(ts, root, places, h, i, a);
    LeafAtPlace(ts, root, places, q);
    LeafAtPlace(Populated(ts, places[h], i, a), root, places[Below(h, i) := a], q);
  }

  // ----- create_mapping -----

  /** The first page mapped and how many: at least one, at most to the end of the space. */
  function FirstPage(virt: nat): (p: nat)
    ensures p < PAGES
  {
    virt / PAGE_SIZE % PAGES
  }

  function PageCount(virt: nat, end: nat): (k: nat)
    ensures 1 <= k <= PAGES - FirstPage(virt)
  {
    var wanted := if end <= virt then 1 else (end - virt + PAGE_SIZE - 1) / PAGE_SIZE;
    if wanted < PAGES - FirstPage(virt) then wanted else PAGES - FirstPage(virt)
  }

  datatype Call = Call(virt: nat, end: nat, phys: nat, attr: Attr)

  /** What `u64` arithmetic demands of a call: `phys + addr` must not overflow for any page
      mapped.  The address itself may wrap after the last page. */
  predicate NoOverflow(c: Call)
  {
    c.virt < WORD && c.end < WORD && c.phys + c.virt + PAGE_SIZE * (PageCount(c.virt, c.end) - 1) < WORD
  }

  /** The entry for the j-th page of a call. */
  function PageValue(c: Call, j: nat): (e: nat) { c.phys + PAGE_SIZE * j + AttrBits(c.attr) }

  /** The first k pages of the call are mapped to consecutive frames and all others are as in
      `before`. */
  predicate Mapped(ts: Tables, before: Tables, root: nat, c: Call, k: nat)
  {
    var p := FirstPage(c.virt);
    forall q {:trigger Leaf(ts, root, q)} :: 0 <= q < PAGES ==>
      Leaf(ts, root, q) == if p <= q < p + k then PageValue(c, q - p) else Leaf(before, root, q)
  }

  /** The address after k pages stands for page FirstPage + k in every index. */
  lemma IndexOfPage(c: Call, k: nat, level: nat)
    requires 1 <= level <= 4
    ensures CalcIndex(level, c.virt + PAGE_SIZE * k) == Pre(level - 1, FirstPage(c.virt) + k) % ENTRIES
    ensures level == 1 ==> CalcIndex(level, c.virt + PAGE_SIZE * k) == (FirstPage(c.virt) + k) % ENTRIES
  {
    var x, p := c.virt / PAGE_SIZE + k, FirstPage(c.virt) + k;
    var wraps := c.virt / PAGE_SIZE / PAGES;
    assert (c.virt + PAGE_SIZE * k) / PAGE_SIZE == x;
    assert x == p + ENTRIES * (0x800_0000 * wraps);
    PreShift(x, p, wraps);
  }

  lemma PreShift(x: nat, p: nat, wraps: nat)
    requires x == p + ENTRIES * (0x800_0000 * wraps)
    ensures Pre(0, x) % ENTRIES == Pre(0, p) % ENTRIES
    ensures Pre(1, x) % ENTRIES == Pre(1, p) % ENTRIES
    ensures Pre(2, x) % ENTRIES == Pre(2, p) % ENTRIES
    ensures Pre(3, x) % ENTRIES == Pre(3, p) % ENTRIES
  {
    DivShift(p, 0x800_0000 * wraps);
    assert Pre(1, x) == Pre(1, p) + ENTRIES * (0x4_0000 * wraps);
    DivShift(Pre(1, p), 0x4_0000 * wraps);
    assert Pre(2, x) == Pre(2, p) + ENTRIES * (0x200 * wraps);
    DivShift(Pre(2, p), 0x200 * wraps);
    assert Pre(3, x) == Pre(3, p) + ENTRIES * wraps;
    DivShift(Pre(3, p), wraps);
  }

  lemma DivShift(p: nat, y: nat)
    ensures (p + ENTRIES * y) / ENTRIES == p / ENTRIES + y && (p + ENTRIES * y) % ENTRIES == p % ENTRIES
  {
  }

  lemma SameLeaves(ts: Tables, ts': Tables, before: Tables, root: nat, c: Call, k: nat)
    requires Mapped(ts, before, root, c, k)
    requires forall q :: 0 <= q < PAGES ==> Leaf(ts', root, q) == Leaf(ts, root, q)
    ensures Mapped(ts', before, root, c, k)
  {
    hide Leaf;
  }

  /** One page more. */
  lemma PageMapped(ts: Tables, ts': Tables, before: Tables, root: nat, c: Call, k: nat, ok: bool)
    requires Mapped(ts, before, root, c, k) && k < PageCount(c.virt, c.end)
    requires forall q :: 0 <= q < PAGES ==>
               Leaf(ts', root, q) == if ok && q == FirstPage(c.virt) + k then PageValue(c, k) else Leaf(ts, root, q)
    ensures Mapped(ts', before, root, c, if ok then k + 1 else k)
    ensures Progress(c, 0, k, k + 1)
  {
    hide Leaf;
  }

  /** When the loops stop: the address reaches the end, or the space is used up. */
  lemma StopsAtCount(c: Call, k: nat)
    requires NoOverflow(c) && 1 <= k <= PageCount(c.virt, c.end)
    ensures (c.virt + PAGE_SIZE * k) % WORD >= c.end ==> k == PageCount(c.virt, c.end)
    ensures k == PageCount(c.virt, c.end) ==>
              (c.virt + PAGE_SIZE * k) % WORD >= c.end || FirstPage(c.virt) + k == PAGES
    ensures k < PageCount(c.virt, c.end) ==> (c.virt + PAGE_SIZE * k) % WORD == c.virt + PAGE_SIZE * k
  {
  }

  /** How far a level's loop got: it stays under one table of that level, and unless the call
      is finished the next page opens the next table. */
  predicate Progress(c: Call, level: nat, k: nat, k': nat)
  {
    var p := FirstPage(c.virt);
    && k < k' <= PageCount(c.virt, c.end)
    && Pre(level, p + k' - 1) == Pre(level, p + k)
    && (k' < PageCount(c.virt, c.end) ==> Pre(level, p + k') == Pre(level, p + k) + 1)
  }

  /** The arithmetic of one round of a loop at `level`, from page k to k', in a loop that
      began at page k0: the exit test is true exactly when this table is left or the call is
      finished. */
  lemma LoopRound(c: Call, level: nat, k0: nat, k: nat, k': nat)
    requires 1 <= level <= 4 && NoOverflow(c) && Progress(c, level - 1, k, k')
    requires k0 <= k && PlaceOf(level, FirstPage(c.virt) + k) == PlaceOf(level, FirstPage(c.virt) + k0)
    ensures if LeavesTable(c, level, k, k') then Progress(c, level, k0, k')
            else
              && k < k' < PageCount(c.virt, c.end)
              && (c.virt + PAGE_SIZE * k') % WORD == c.virt + PAGE_SIZE * k'
              && PlaceOf(level, FirstPage(c.virt) + k') == PlaceOf(level, FirstPage(c.virt) + k0)
  {
    hide FirstPage, PageCount, CalcIndex, Pre, NoOverflow;
    var p := FirstPage(c.virt);
    IndexOfPage(c, k, level);
    StopsAtCount(c, k');
    PreUp(level, p + k);
    PreUp(level, p + k');
    PreUp(level, p + k' - 1);
    if p + k' == PAGES {
      LastIndices(level - 1);
    }
    NextPrefix(Pre(level - 1, p + k));
  }

  lemma NextPrefix(x: nat)
    ensures (x + 1) / ENTRIES == if x % ENTRIES + 1 >= ENTRIES then x / ENTRIES + 1 else x / ENTRIES
  {
  }

  /** The exit test of every loop. */
  predicate LeavesTable(c: Call, level: nat, k: nat, k': nat)
    requires 1 <= level <= 4
  {
    CalcIndex(level, c.virt + PAGE_SIZE * k) + 1 >= ENTRIES || (c.virt + PAGE_SIZE * k') % WORD >= c.end
  }

  lemma LastIndices(level: nat)
    requires level <= 3
    ensures Pre(level, PAGES - 1) % ENTRIES == ENTRIES - 1
  {
    assert Pre(1, PAGES - 1) == 0x7FF_FFFF;
    assert Pre(2, PAGES - 1) == 0x3_FFFF;
    assert Pre(3, PAGES - 1) == 0x1FF;
  }

  /** A PML4 with every table below it; `brk` is where the frame allocator hands out the next
      page. */
  class PageTables {
    const root: nat
    var tables: Tables
    var brk: nat
    ghost var places: map<Place, nat>

    ghost predicate Valid()
      reads this
    {
      && Tree(tables, root, places)
      && brk % PAGE_SIZE == 0 && forall t :: t in tables ==> t < brk
    }

    /** The table `t` is on the path to a page. */
    ghost predicate At(t: nat, level: nat, page: nat)
      reads this
    {
      PlaceOf(level, page) in places && places[PlaceOf(level, page)] == t
    }

    twostate predicate PlacesKept()
      reads this
    {
      forall h :: h in old(places) ==> h in places && places[h] == old(places[h])
    }

    /** `PML4::new`: every entry zero. */
    constructor ()
      ensures Valid()
      ensures forall q :: 0 <= q < PAGES ==> Leaf(tables, root, q) == 0
    {
      root := PAGE_SIZE;
      tables := map[PAGE_SIZE := ZeroTable()];
      brk := 2 * PAGE_SIZE;
      places := map[Place(4, 0) := PAGE_SIZE];
      new;
      forall q | 0 <= q < PAGES
        ensures Leaf(tables, root, q) == 0
      {
        LeafAtPlace(tables, root, places, q);
      }
    }

    /** A page-aligned frame no table uses. */
    method AllocFrame() returns (a: nat)
      requires Valid()
      modifies this`brk
      ensures Valid() && a !in tables && a % PAGE_SIZE == 0 && a < brk
    {
      a := brk;
      brk := brk + PAGE_SIZE;
    }

    /** `ensure_populated()?.table_mut()` on entry `index` of `t`, the one that leads to `page`. */
    method EnsurePopulated(t: nat, index: nat, ghost level: nat, ghost page: nat) returns (next: nat)
      requires Valid() && 1 <= level < 4 && page < PAGES && At(t, level + 1, page)
      requires index == Pre(level, page) % ENTRIES
      modifies this
      ensures Valid() && PlacesKept() && At(next, level, page)
      ensures forall q :: 0 <= q < PAGES ==> Leaf(tables, root, q) == Leaf(old(tables), root, q)
      ensures t in old(tables) && index < |old(tables[t])| && t in tables && index < |tables[t]|
      ensures Target(tables[t][index]) == next && Present(tables[t][index]) && Writable(tables[t][index])
      ensures if old(Present(tables[t][index])) then tables == old(tables)
              else ReadWriteCached(tables[t][index]) && next !in old(tables) && next in tables
                   && |tables[next]| == ENTRIES && forall j :: 0 <= j < ENTRIES ==> tables[next][j] == 0
    {
      ghost var h := PlaceOf(level + 1, page);
      PreUp(level + 1, page);
      assert Below(h, index) == PlaceOf(level, page) && EntryFits(tables, places, h, index);
      if Present(tables[t][index]) {
        return Target(tables[t][index]);
      }
      next := AllocFrame();
      PopulatedEntry(tables, t, index, next);
      hide Target, WriteThrough, CacheDisabled, Leaf, Populated, EntryFits, Tree;
      PopulateKeepsTree(tables, root, places, h, index, next);
      forall q | 0 <= q < PAGES
        ensures Leaf(Populated(tables, t, index, next), root, q) == Leaf(tables, root, q)
      {
        PopulateKeepsLeaf(tables, root, places, h, index, next, q);
      }
      tables := Populated(tables, t, index, next);
      places := places[Below(h, index) := next];
    }

    /** `set_page` on entry `index` of `t`, the one that maps `page`. */
    method SetPage(t: nat, index: nat, phys: nat, attr: Attr, ghost page: nat) returns (ok: bool)
      requires Valid() && page < PAGES && At(t, 1, page) && index == page % ENTRIES
      modifies this`tables
      ensures Valid() && ok == (phys % PAGE_SIZE == 0)
      ensures forall q :: 0 <= q < PAGES ==>
                Leaf(tables, root, q) == if ok && q == page then phys + AttrBits(attr) else Leaf(old(tables), root, q)
    {
      if phys % PAGE_SIZE != 0 {
        return false;
      }
      var v := phys + AttrBits(attr);
      StoreKeepsTree(tables, root, places, PlaceOf(1, page), index, v);
      forall q | 0 <= q < PAGES
        ensures Leaf(Stored(tables, t, index, v), root, q) == if q == page then v else Leaf(tables, root, q)
      {
        StoreLeaf(tables, root, places, page, v, q);
      }
      tables := Stored(tables, t, index, v);
      return true;
    }

    /** One round of a loop of `create_mapping`, at entry `index` of the level's table: set the
        page, or go down into the next table. */
    method MapEntry(level: nat, t: nat, index: nat, c: Call, addr: nat, ghost before: Tables, ghost k: nat)
      returns (ok: bool, addr': nat, ghost k': nat)
      requires Valid() && 1 <= level <= 4 && NoOverflow(c) && k < PageCount(c.virt, c.end)
      requires addr == c.virt + PAGE_SIZE * k && index == CalcIndex(level, addr)
      requires At(t, level, FirstPage(c.virt) + k)
      requires Mapped(tables, before, root, c, k)
      modifies this
      ensures Valid() && PlacesKept()
      ensures ok == (c.phys % PAGE_SIZE == 0)
      ensures Mapped(tables, before, root, c, k')
      ensures !ok ==> k' == k
      ensures ok ==> Progress(c, level - 1, k, k') && addr' == (c.virt + PAGE_SIZE * k') % WORD
      decreases level, 0
    {
      hide Tree, Mapped, Progress, PageCount, Pre, TableAt, Leaf;
      ghost var page, prior := FirstPage(c.virt) + k, tables;
      IndexOfPage(c, k, level);
      if level == 1 {
        ok := SetPage(t, index, c.phys + addr - c.virt, c.attr, page);
        k' := if ok then k + 1 else k;
        addr' := (addr + PAGE_SIZE) % WORD;
        PageMapped(prior, tables, before, root, c, k, ok);
      } else {
        var next := EnsurePopulated(t, index, level - 1, page);
        SameLeaves(prior, tables, before, root, c, k);
        ok, addr', k' := MapTable(level - 1, next, c, addr, before, k);
      }
    }

    /** The loop of `create_mapping` over one table.  The source nests four of them; they are
        alike except that the innermost one sets pages. */
    method MapTable(level: nat, t: nat, c: Call, addr: nat, ghost before: Tables, ghost k: nat)
      returns (ok: bool, addr': nat, ghost k': nat)
      requires Valid() && 1 <= level <= 4 && NoOverflow(c) && k < PageCount(c.virt, c.end)
      requires addr == c.virt + PAGE_SIZE * k
      requires At(t, level, FirstPage(c.virt) + k)
      requires Mapped(tables, before, root, c, k)
      modifies this
      ensures Valid() && PlacesKept()
      ensures ok == (c.phys % PAGE_SIZE == 0)
      ensures Mapped(tables, before, root, c, k')
      ensures !ok ==> k' == k
      ensures ok ==> Progress(c, level, k, k') && addr' == (c.virt + PAGE_SIZE * k') % WORD
      decreases level, 1
    {
      hide Tree, Mapped, Progress, NoOverflow, PageCount, FirstPage, Pre, PlaceOf, CalcIndex;
      ghost var p := FirstPage(c.virt);
      addr', k' := addr, k;
      while true
        invariant Valid() && PlacesKept()
        invariant k <= k' < PageCount(c.virt, c.end) && addr' == c.virt + PAGE_SIZE * k'
        invariant k < k' ==> c.phys % PAGE_SIZE == 0
        invariant PlaceOf(level, p + k') == PlaceOf(level, p + k) && At(t, level, p + k)
        invariant Mapped(tables, before, root, c, k')
        decreases PageCount(c.virt, c.end) - k'
      {
        ghost var j := k';
        var index := CalcIndex(level, addr');
        ok, addr', k' := MapEntry(level, t, index, c, addr', before, j);
        if !ok {
          return;
        }
        LoopRound(c, level, k, j, k');
        if index + 1 >= ENTRIES || addr' >= c.end {
          return;
        }
      }
    }

    /** `PML4::create_mapping`. */
    method CreateMapping(virt: nat, end: nat, phys: nat, attr: Attr) returns (ok: bool)
      requires Valid() && NoOverflow(Call(virt, end, phys, attr))
      modifies this
      ensures Valid() && ok == (phys % PAGE_SIZE == 0)
      ensures Mapped(tables, old(tables), root, Call(virt, end, phys, attr), if ok then PageCount(virt, end) else 0)
    {
      var c := Call(virt, end, phys, attr);
      PreTop(FirstPage(virt));
      ghost var k';
      var addr;
      ok, addr, k' := MapTable(4, root, c, virt, tables, 0);
      if ok {
        WholeSpace(c, k');
      }
    }

    /** The simple rule for one page: walk down from the root, creating what is missing, and
        set the entry. */
    method MapPage(addr: nat, frame: nat, attr: Attr) returns (ok: bool)
      requires Valid()
      modifies this
      ensures Valid() && ok == (frame % PAGE_SIZE == 0)
      ensures forall q :: 0 <= q < PAGES ==>
                Leaf(tables, root, q) ==
                if ok && q == FirstPage(addr) then frame + AttrBits(attr) else Leaf(old(tables), root, q)
    {
      hide Tree, Leaf, TableAt, Pre, CalcIndex;
      ghost var page, c := FirstPage(addr), Call(addr, addr, frame, attr);
      PreTop(page);
      RootPlace(tables, root, places);
      IndexOfPage(c, 0, 4);
      IndexOfPage(c, 0, 3);
      IndexOfPage(c, 0, 2);
      IndexOfPage(c, 0, 1);
      var t3 := EnsurePopulated(root, CalcIndex(4, addr), 3, page);
      var t2 := EnsurePopulated(t3, CalcIndex(3, addr), 2, page);
      var t1 := EnsurePopulated(t2, CalcIndex(2, addr), 1, page);
      ok := SetPage(t1, CalcIndex(1, addr), frame, attr, page);
    }

    /** A range mapped by that rule, page by page: the same contract as `CreateMapping`. */
    method MapPageByPage(virt: nat, end: nat, phys: nat, attr: Attr) returns (ok: bool)
      requires Valid() && NoOverflow(Call(virt, end, phys, attr))
      modifies this
      ensures Valid() && ok == (phys % PAGE_SIZE == 0)
      ensures Mapped(tables, old(tables), root, Call(virt, end, phys, attr), if ok then PageCount(virt, end) else 0)
    {
      hide Tree, Leaf;
      ghost var c := Call(virt, end, phys, attr);
      for j := 0 to PageCount(virt, end)
        invariant Valid() && Mapped(tables, old(tables), root, c, j)
        invariant j > 0 ==> phys % PAGE_SIZE == 0
      {
        ghost var prior := tables;
        SinglePage(c, j);
        ok := MapPage(virt + PAGE_SIZE * j, phys + PAGE_SIZE * j, attr);
        PageMapped(prior, tables, old(tables), root, c, j, ok);
        if !ok {
          return;
        }
      }
      ok := true;
    }

    /** The range mapped by one call of `CreateMapping` per page. */
    method CreateEachPage(virt: nat, end: nat, phys: nat, attr: Attr) returns (ok: bool)
      requires Valid() && SinglesFit(Call(virt, end, phys, attr))
      modifies this
      ensures Valid() && ok == (phys % PAGE_SIZE == 0)
      ensures Mapped(tables, old(tables), root, Call(virt, end, phys, attr), if ok then PageCount(virt, end) else 0)
    {
      hide Tree, Leaf;
      ghost var c := Call(virt, end, phys, attr);
      SinglesFitIff(c);
      for j := 0 to PageCount(virt, end)
        invariant Valid() && Mapped(tables, old(tables), root, c, j)
        invariant j > 0 ==> phys % PAGE_SIZE == 0
      {
        ghost var prior := tables;
        SinglePage(c, j);
        var addr := virt + PAGE_SIZE * j;
        assert NoOverflow(Single(c, j));
        ok := CreateMapping(addr, addr, phys + PAGE_SIZE * j, attr);
        if !ok {
          SameAsBefore(tables, prior, old(tables), root, c, Single(c, j), j);
          return;
        }
        OneMore(tables, prior, old(tables), root, c, j);
      }
      ok := true;
    }
  }

  /** The root table covers the space, so its loop ends only when the call is finished. */
  lemma WholeSpace(c: Call, k': nat)
    requires Progress(c, 4, 0, k')
    ensures k' == PageCount(c.virt, c.end)
  {
    PreTop(FirstPage(c.virt));
    PreTop(FirstPage(c.virt) + k');
  }

  // ----- one call against one page at a time -----

  /** The call that maps only the j-th page of a call; an empty range maps one page. */
  function Single(c: Call, j: nat): (r: Call)
  {
    var addr := c.virt + PAGE_SIZE * j;
    Call(addr, addr, c.phys + PAGE_SIZE * j, c.attr)
  }

  lemma SinglePage(c: Call, j: nat)
    requires j < PageCount(c.virt, c.end)
    ensures PageCount(Single(c, j).virt, Single(c, j).end) == 1
    ensures FirstPage(Single(c, j).virt) == FirstPage(c.virt) + j
    ensures PageValue(Single(c, j), 0) == PageValue(c, j)
  {
    assert (c.virt + PAGE_SIZE * j) / PAGE_SIZE == c.virt / PAGE_SIZE + j;
  }

  lemma OneMore(ts: Tables, prior: Tables, before: Tables, root: nat, c: Call, k: nat)
    requires k < PageCount(c.virt, c.end) && Mapped(prior, before, root, c, k)
    requires FirstPage(Single(c, k).virt) == FirstPage(c.virt) + k && PageValue(Single(c, k), 0) == PageValue(c, k)
    requires Mapped(ts, prior, root, Single(c, k), 1)
    ensures Mapped(ts, before, root, c, k + 1)
  {
    hide Leaf, FirstPage, PageCount;
  }

  lemma SameAsBefore(ts: Tables, prior: Tables, before: Tables, root: nat, c: Call, d: Call, k: nat)
    requires Mapped(prior, before, root, c, k) && Mapped(ts, prior, root, d, 0)
    ensures Mapped(ts, before, root, c, k)
  {
    hide Leaf;
  }

  /** All single-page calls are free of overflow exactly when the last one is: `phys + addr`
      counts the offset of a page twice there, so they demand more room than the one call. */
  predicate SinglesFit(c: Call)
  {
    c.phys + c.virt + 2 * (PAGE_SIZE * (PageCount(c.virt, c.end) - 1)) < WORD
  }

  lemma SinglesFitIff(c: Call)
    ensures SinglesFit(c) <==> forall j :: 0 <= j < PageCount(c.virt, c.end) ==> NoOverflow(Single(c, j))
  {
    forall j | 0 <= j < PageCount(c.virt, c.end)
      ensures NoOverflow(Single(c, j)) <==> c.phys + c.virt + 2 * (PAGE_SIZE * j) < WORD
    {
      SinglePage(c, j);
    }
    assert !SinglesFit(c) ==> !NoOverflow(Single(c, PageCount(c.virt, c.end) - 1));
  }

  /** An empty range maps exactly one page, the one `virt` is in. */
  lemma EmptyRangeMapsOne(ts: Tables, before: Tables, root: nat, c: Call, q: nat)
    requires c.end <= c.virt && Mapped(ts, before, root, c, PageCount(c.virt, c.end)) && q < PAGES
    ensures PageCount(c.virt, c.end) == 1
    ensures Leaf(ts, root, q) == if q == FirstPage(c.virt) then c.phys + AttrBits(c.attr) else Leaf(before, root, q)
  {
    hide Leaf;
  }

  /** What a mapped page translates to: the frame at its offset, with exactly the call's
      attributes, or nothing when the call unmaps. */
  lemma TranslationAfter(ts: Tables, before: Tables, root: nat, c: Call, k: nat, q: nat)
    requires Mapped(ts, before, root, c, k) && q < PAGES && c.phys % PAGE_SIZE == 0
    ensures var p := FirstPage(c.virt);
            Translate(ts, root, q) ==
            if q < p || p + k <= q then Translate(before, root, q)
            else if c.attr.NotPresent? then None
            else Some((c.phys + PAGE_SIZE * (q - p), AttrBits(c.attr)))
  {
    hide Leaf;
    var p := FirstPage(c.virt);
    assert Leaf(ts, root, q) == if p <= q < p + k then PageValue(c, q - p) else Leaf(before, root, q);
    if p <= q < p + k {
      FrameAndAttr(c.phys + PAGE_SIZE * (q - p), c.attr);
    }
  }

  lemma FrameAndAttr(frame: nat, attr: Attr)
    requires frame % PAGE_SIZE == 0
    ensures Target(frame + AttrBits(attr)) == frame && (frame + AttrBits(attr)) % PAGE_SIZE == AttrBits(attr)
    ensures Present(frame + AttrBits(attr)) <==> !attr.NotPresent?
  {
    var q := frame / PAGE_SIZE;
    assert frame == q * PAGE_SIZE == 2 * (2048 * q);
    Bits.DivModUnique(q, PAGE_SIZE, AttrBits(attr));
    assert (2 * (2048 * q) + AttrBits(attr)) % 2 == AttrBits(attr) % 2;
  }

  // ----- what the range asks for -----

  /** The pages that the bytes virt, ..., end - 1 lie in. */
  function PagesTouched(virt: nat, end: nat): (k: nat)
  {
    if end <= virt then 0 else (end - 1) / PAGE_SIZE - virt / PAGE_SIZE + 1
  }

  /** A call maps the pages its range touches if and only if the range is not empty, does not
      reach past the end of the space, and does not cross one page boundary more than its
      length rounds up to, which an aligned start rules out. */
  lemma MapsWhatIsAskedIff(virt: nat, end: nat)
    ensures PageCount(virt, end) == PagesTouched(virt, end)
       <==> && virt < end && FirstPage(virt) + PagesTouched(virt, end) <= PAGES
            && virt % PAGE_SIZE + (end - 1 - virt) % PAGE_SIZE < PAGE_SIZE
  {
    if virt < end {
      var n := end - 1 - virt;
      assert (end - virt + PAGE_SIZE - 1) / PAGE_SIZE == n / PAGE_SIZE + 1;
      PagesOfSum(virt, n);
    }
  }

  lemma PagesOfSum(a: nat, b: nat)
    ensures (a + b) / PAGE_SIZE
         == a / PAGE_SIZE + b / PAGE_SIZE + if a % PAGE_SIZE + b % PAGE_SIZE < PAGE_SIZE then 0 else 1
    ensures (a + b) % PAGE_SIZE
         == a % PAGE_SIZE + b % PAGE_SIZE - if a % PAGE_SIZE + b % PAGE_SIZE < PAGE_SIZE then 0 else PAGE_SIZE
  {
  }

  /** A range over two pages of which only the first is mapped: 200 bytes from 4000 on. */
  lemma SecondPageMissed(ts: Tables, before: Tables, root: nat, attr: Attr)
    requires Mapped(ts, before, root, Call(4000, 4200, 0, attr), PageCount(4000, 4200))
    ensures PagesTouched(4000, 4200) == 2 && PageCount(4000, 4200) == 1
    ensures Leaf(ts, root, 1) == Leaf(before, root, 1)
  {
    hide Leaf;
  }

  /** What the processor makes of a byte's address. */
  function TranslateByte(ts: Tables, root: nat, addr: nat): (r: Option<nat>)
  {
    var t := Translate(ts, root, FirstPage(addr));
    if t.None? then None else Some(t.value.0 + addr % PAGE_SIZE)
  }

  /** Byte virt + d of a call's range lies inside the address space. */
  predicate InSpace(virt: nat, d: nat) { FirstPage(virt) + (virt % PAGE_SIZE + d) / PAGE_SIZE < PAGES }

  /** A byte in a page mapped is translated to phys plus its offset from the start plus the
      offset of the start in its page. */
  lemma ByteAfter(ts: Tables, before: Tables, root: nat, c: Call, d: nat)
    requires Mapped(ts, before, root, c, PageCount(c.virt, c.end))
    requires c.phys % PAGE_SIZE == 0 && !c.attr.NotPresent?
    requires (c.virt % PAGE_SIZE + d) / PAGE_SIZE < PageCount(c.virt, c.end)
    ensures TranslateByte(ts, root, c.virt + d) == Some(c.phys + d + c.virt % PAGE_SIZE)
  {
    hide Leaf, Translate, PageCount;
    var j := (c.virt % PAGE_SIZE + d) / PAGE_SIZE;
    ByteInPage(c.virt, d);
    TranslationAfter(ts, before, root, c, PageCount(c.virt, c.end), FirstPage(c.virt) + j);
  }

  lemma ByteInPage(virt: nat, d: nat)
    ensures var j := (virt % PAGE_SIZE + d) / PAGE_SIZE;
            && (FirstPage(virt) + j < PAGES ==> FirstPage(virt + d) == FirstPage(virt) + j)
            && PAGE_SIZE * j + (virt + d) % PAGE_SIZE == virt % PAGE_SIZE + d
  {
    var j, x := (virt % PAGE_SIZE + d) / PAGE_SIZE, virt / PAGE_SIZE;
    assert virt == x * PAGE_SIZE + virt % PAGE_SIZE;
    assert (virt + d) / PAGE_SIZE == x + j;
  }

  /** Every byte of the range inside the space is translated to phys plus its offset if and
      only if the start is aligned, or there is no such byte. */
  lemma BytesMappedIff(ts: Tables, before: Tables, root: nat, c: Call)
    requires Mapped(ts, before, root, c, PageCount(c.virt, c.end))
    requires c.phys % PAGE_SIZE == 0 && !c.attr.NotPresent?
    ensures (forall d: nat :: c.virt + d < c.end && InSpace(c.virt, d) ==>
               TranslateByte(ts, root, c.virt + d) == Some(c.phys + d))
       <==> c.virt % PAGE_SIZE == 0 || c.end <= c.virt
  {
    hide Leaf, Translate, TranslateByte, Mapped;
    if c.virt < c.end {
      ByteAfter(ts, before, root, c, 0);
      assert InSpace(c.virt, 0);
      assert TranslateByte(ts, root, c.virt + 0) == Some(c.phys + 0 + c.virt % PAGE_SIZE);
      if c.virt % PAGE_SIZE == 0 {
        forall d: nat | c.virt + d < c.end && InSpace(c.virt, d)
          ensures TranslateByte(ts, root, c.virt + d) == Some(c.phys + d)
        {
          AlignedByteCounted(c.virt, c.end, d);
          ByteAfter(ts, before, root, c, d);
        }
      }
    }
  }

  lemma AlignedByteCounted(virt: nat, end: nat, d: nat)
    requires virt % PAGE_SIZE == 0 && virt + d < end && InSpace(virt, d)
    ensures (virt % PAGE_SIZE + d) / PAGE_SIZE < PageCount(virt, end)
  {
  }
}
