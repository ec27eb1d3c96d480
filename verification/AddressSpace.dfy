/** The kernel's address space (init.rs, and `disable_cache` in x86.rs and pci.rs): the table
    built at boot, and what stays of it over any run of remapped device regions. */
module AddressSpace {
  import opened Results
  import opened Paging

  /** Every present page is its own frame. */
  predicate Identity(ts: Tables, root: nat)
  {
    forall q :: 0 <= q < PAGES && Present(Leaf(ts, root, q)) ==> Target(Leaf(ts, root, q)) == PAGE_SIZE * q
  }

  /** A call with phys = virt keeps the space an identity mapping. */
  lemma IdentityKept(ts: Tables, before: Tables, root: nat, c: Call, k: nat)
    requires Identity(before, root) && Mapped(ts, before, root, c, k)
    requires c.phys == c.virt < PAGE_SIZE * PAGES && c.virt % PAGE_SIZE == 0
    ensures Identity(ts, root)
  {
    hide Leaf;
    var p := FirstPage(c.virt);
    assert c.virt == PAGE_SIZE * p;
    forall q | 0 <= q < PAGES && Present(Leaf(ts, root, q))
      ensures Target(Leaf(ts, root, q)) == PAGE_SIZE * q
    {
      if p <= q < p + k {
        FrameAndAttr(c.phys + PAGE_SIZE * (q - p), c.attr);
      }
    }
  }

  /** With phys = virt the space stays an identity mapping if and only if the region starts
      below 2^48 or is unmapped: above it the walk drops address bits that the frame keeps. */
  lemma IdentityKeptIff(ts: Tables, before: Tables, root: nat, c: Call, k: nat)
    requires Identity(before, root) && Mapped(ts, before, root, c, k) && 1 <= k <= PAGES - FirstPage(c.virt)
    requires c.phys == c.virt && c.virt % PAGE_SIZE == 0
    ensures Identity(ts, root) <==> c.virt < PAGE_SIZE * PAGES || c.attr.NotPresent?
  {
    hide Leaf;
    if c.virt < PAGE_SIZE * PAGES {
      IdentityKept(ts, before, root, c, k);
    } else if c.attr.NotPresent? {
      UnmappingKeeps(ts, before, root, c, k);
    } else {
      var p := FirstPage(c.virt);
      assert Leaf(ts, root, p) == PageValue(c, 0);
      FrameAndAttr(c.phys, c.attr);
    }
  }

  lemma UnmappingKeeps(ts: Tables, before: Tables, root: nat, c: Call, k: nat)
    requires Identity(before, root) && Mapped(ts, before, root, c, k)
    requires c.phys % PAGE_SIZE == 0 && c.attr.NotPresent?
    ensures Identity(ts, root)
  {
    hide Leaf;
    var p := FirstPage(c.virt);
    forall q | 0 <= q < PAGES && Present(Leaf(ts, root, q))
      ensures Target(Leaf(ts, root, q)) == PAGE_SIZE * q
    {
      if p <= q < p + k {
        FrameAndAttr(c.phys + PAGE_SIZE * (q - p), c.attr);
      }
    }
  }

  /** A UEFI memory descriptor, by what `init_paging` reads of it. */
  datatype Descriptor = Descriptor(usable: bool, start: nat, pages: nat)

  predicate Fits(d: Descriptor) { d.start + d.pages * PAGE_SIZE < WORD }

  const FOUR_GIB: nat := 0x1_0000_0000

  /** The loop of `init_paging`: the end of the memory to map. */
  method EndOfMemory(map': seq<Descriptor>) returns (end: nat)
    requires forall d :: d in map' ==> Fits(d)
    ensures FOUR_GIB <= end < WORD
    ensures forall d :: d in map' && d.usable ==> d.start + d.pages * PAGE_SIZE <= end
    ensures end == FOUR_GIB || exists d :: d in map' && d.usable && end == d.start + d.pages * PAGE_SIZE
  {
    end := FOUR_GIB;
    for i := 0 to |map'|
      invariant FOUR_GIB <= end < WORD
      invariant forall d :: d in map'[..i] && d.usable ==> d.start + d.pages * PAGE_SIZE <= end
      invariant end == FOUR_GIB || exists d :: d in map'[..i] && d.usable && end == d.start + d.pages * PAGE_SIZE
    {
      var d := map'[i];
      assert map'[..i + 1] == map'[..i] + [d] && Fits(d);
      if d.usable && d.start + d.pages * PAGE_SIZE > end {
        end := d.start + d.pages * PAGE_SIZE;
      }
    }
    assert map'[..|map'|] == map';
  }

  /** The address space at boot: page 0 absent, every other page below the end of memory
      mapped to itself read-write, nothing else mapped. */
  predicate BootSpace(ts: Tables, root: nat, end: nat)
  {
    forall q :: 0 <= q < PAGES ==>
      Leaf(ts, root, q) == if 1 <= q < PageCount(0, end) then PAGE_SIZE * q + 0x003 else 0
  }

  /** Every present page may be written and is cached. */
  predicate AllCached(ts: Tables, root: nat)
  {
    forall q :: 0 <= q < PAGES && Present(Leaf(ts, root, q)) ==>
      MayWrite(ts, root, q) && ReadWriteCached(Leaf(ts, root, q))
  }

  /** The end of memory, said directly: 4 GiB, or where the usable descriptor that reaches
      beyond it furthest ends. */
  predicate IsEndOfMemory(map': seq<Descriptor>, end: nat)
  {
    && end >= 0x1_0000_0000
    && (forall d :: d in map' && d.usable ==> d.start + d.pages * 4096 <= end)
    && (end == 0x1_0000_0000 || exists d :: d in map' && d.usable && end == d.start + d.pages * 4096)
  }

  /** `init_paging`, up to loading CR3. */
  method InitPaging(map': seq<Descriptor>) returns (table: PageTables, end: nat)
    requires forall d :: d in map' ==> Fits(d)
    ensures fresh(table) && table.Valid()
    ensures IsEndOfMemory(map', end)
    ensures BootSpace(table.tables, table.root, end) && Identity(table.tables, table.root)
    ensures AllCached(table.tables, table.root)
  {
    table := new PageTables();
    ghost var empty := table.tables;
    end := EndOfMemory(map');
    FromZero(end);
    var ok := table.CreateMapping(0, end, 0, ReadWriteKernel);
    ghost var mapped := table.tables;
    FromZero(PAGE_SIZE);
    ok := table.CreateMapping(0, PAGE_SIZE, 0, NotPresent);
    BootSpaceReached(table.tables, mapped, empty, table.root, end);
    BootCached(table.tables, table.root, table.places, end);
  }

  lemma BootCached(ts: Tables, root: nat, places: map<Place, nat>, end: nat)
    requires Tree(ts, root, places) && BootSpace(ts, root, end)
    ensures AllCached(ts, root)
  {
    hide Tree, Leaf, MayWrite, PageCount;
    forall q | 0 <= q < PAGES && Present(Leaf(ts, root, q))
      ensures MayWrite(ts, root, q) && ReadWriteCached(Leaf(ts, root, q))
    {
      EntryPermits(PAGE_SIZE * q, ReadWriteKernel);
      LeafDecides(ts, root, places, q);
    }
  }

  lemma FromZero(end: nat)
    requires end < WORD
    ensures FirstPage(0) == 0 && forall attr :: NoOverflow(Call(0, end, 0, attr))
    ensures end == PAGE_SIZE ==> PageCount(0, end) == 1
  {
  }

  lemma BootSpaceReached(ts: Tables, mapped: Tables, empty: Tables, root: nat, end: nat)
    requires forall q :: 0 <= q < PAGES ==> Leaf(empty, root, q) == 0
    requires Mapped(mapped, empty, root, Call(0, end, 0, ReadWriteKernel), PageCount(0, end))
    requires Mapped(ts, mapped, root, Call(0, PAGE_SIZE, 0, NotPresent), 1)
    ensures BootSpace(ts, root, end) && Identity(ts, root)
  {
    hide Leaf;
    IdentityKept(mapped, empty, root, Call(0, end, 0, ReadWriteKernel), PageCount(0, end));
    IdentityKept(ts, mapped, root, Call(0, PAGE_SIZE, 0, NotPresent), 1);
  }

  // ----- device regions -----

  /** A device region or an I/O box, as `disable_cache` is handed it. */
  datatype Region = Region(start: nat, size: nat)

  /** The call it makes: phys = virt, caching off. */
  function CallFor(r: Region): (c: Call) { Call(r.start, r.start + r.size, r.start, ReadWriteIo) }

  /** A start that is not page-aligned is refused, on which the source panics. */
  predicate Accepted(r: Region) { r.start % PAGE_SIZE == 0 }

  function PagesFor(r: Region): (k: nat) { if Accepted(r) then PageCount(r.start, r.start + r.size) else 0 }

  predicate Covers(r: Region, q: nat) { FirstPage(r.start) <= q < FirstPage(r.start) + PagesFor(r) }

  predicate BelowSpaceEnd(r: Region) { r.start < PAGE_SIZE * PAGES }

  /** The pages of a region are mapped to themselves, may be written and are not cached. */
  predicate Uncached(ts: Tables, root: nat, r: Region)
  {
    forall q :: 0 <= q < PAGES && Covers(r, q) ==>
      && Leaf(ts, root, q) == r.start + PAGE_SIZE * (q - FirstPage(r.start)) + 0x01B
      && MayWrite(ts, root, q) && ReadWriteUncached(Leaf(ts, root, q))
  }

  /** `disable_cache`. */
  method DisableCache(table: PageTables, r: Region) returns (ok: bool)
    requires table.Valid() && NoOverflow(CallFor(r))
    modifies table
    ensures table.Valid() && ok == Accepted(r)
    ensures Mapped(table.tables, old(table.tables), table.root, CallFor(r), PagesFor(r))
    ensures Uncached(table.tables, table.root, r)
    ensures Identity(old(table.tables), table.root) ==>
              (Identity(table.tables, table.root) <==> (Accepted(r) ==> BelowSpaceEnd(r)))
  {
    ok := table.CreateMapping(r.start, r.start + r.size, r.start, ReadWriteIo);
    RegionUncached(table.tables, old(table.tables), table.root, table.places, r);
    hide Leaf, PageTables.Valid;
    if Identity(old(table.tables), table.root) {
      RegionKeepsIdentityIff(table.tables, old(table.tables), table.root, r);
    }
  }

  lemma RegionUncached(ts: Tables, before: Tables, root: nat, places: map<Place, nat>, r: Region)
    requires Tree(ts, root, places) && Mapped(ts, before, root, CallFor(r), PagesFor(r))
    ensures Uncached(ts, root, r)
  {
    hide Tree, Leaf, MayWrite, FirstPage, Covers, Mapped, PageValue, PagesFor, Present, Writable;
    forall q | 0 <= q < PAGES && Covers(r, q)
      ensures Leaf(ts, root, q) == r.start + PAGE_SIZE * (q - FirstPage(r.start)) + 0x01B
      ensures MayWrite(ts, root, q) && ReadWriteUncached(Leaf(ts, root, q))
    {
      LeafOfRegion(ts, before, root, r, q);
      FrameOfRegion(r, q);
      LeafDecides(ts, root, places, q);
    }
  }

  lemma LeafOfRegion(ts: Tables, before: Tables, root: nat, r: Region, q: nat)
    requires Mapped(ts, before, root, CallFor(r), PagesFor(r)) && q < PAGES && Covers(r, q)
    ensures FirstPage(r.start) <= q && Leaf(ts, root, q) == PageValue(CallFor(r), q - FirstPage(r.start))
  {
    hide Leaf, FirstPage, PagesFor, PageValue;
  }

  lemma FrameOfRegion(r: Region, q: nat)
    requires Covers(r, q)
    ensures var e := PageValue(CallFor(r), q - FirstPage(r.start));
            e == r.start + PAGE_SIZE * (q - FirstPage(r.start)) + 0x01B && ReadWriteUncached(e)
  {
    hide PageCount, FirstPage, ReadWriteUncached, Writable, WriteThrough, CacheDisabled, Present;
    var j := q - FirstPage(r.start);
    AlignedFrame(r.start, j);
    EntryPermits(r.start + PAGE_SIZE * j, ReadWriteIo);
    assert AttrBits(ReadWriteIo) == 0x01B;
  }

  lemma AlignedFrame(start: nat, j: nat)
    requires start % PAGE_SIZE == 0
    ensures (start + PAGE_SIZE * j) % PAGE_SIZE == 0
  {
    assert start + PAGE_SIZE * j == PAGE_SIZE * (start / PAGE_SIZE + j);
  }

  lemma RegionKeepsIdentityIff(ts: Tables, before: Tables, root: nat, r: Region)
    requires Identity(before, root) && Mapped(ts, before, root, CallFor(r), PagesFor(r))
    ensures Identity(ts, root) <==> (Accepted(r) ==> BelowSpaceEnd(r))
  {
    hide Leaf, PageCount;
    if Accepted(r) {
      IdentityKeptIff(ts, before, root, CallFor(r), PagesFor(r));
    }
  }

  // ----- every run of device regions -----

  /** The tables at boot and after each of some regions. */
  predicate SpaceRun(states: seq<Tables>, root: nat, end: nat, rs: seq<Region>)
  {
    && |states| == |rs| + 1 && BootSpace(states[0], root, end) && Identity(states[0], root)
    && forall i :: 0 <= i < |rs| ==> Mapped(states[i + 1], states[i], root, CallFor(rs[i]), PagesFor(rs[i]))
  }

  /** Boot, then any device regions one after another. */
  method BootAndDisable(map': seq<Descriptor>, rs: seq<Region>)
    returns (table: PageTables, end: nat, ghost states: seq<Tables>)
    requires forall d :: d in map' ==> Fits(d)
    requires forall r :: r in rs ==> NoOverflow(CallFor(r))
    ensures fresh(table) && table.Valid()
    ensures IsEndOfMemory(map', end)
    ensures |states| == |rs| + 1 && states[|rs|] == table.tables && SpaceRun(states, table.root, end, rs)
    ensures PermissionsAre(table.tables, table.root, end, rs)
  {
    hide SpaceRun, BootSpace, Mapped, Identity, NoOverflow, Accepted, PagesFor, BelowSpaceEnd, PageTables.Valid;
    hide PermissionsAre, Uncached, AllCached, IsEndOfMemory, Tree;
    table, end := InitPaging(map');
    states := [table.tables];
    SpaceRunStart(table.tables, table.root, end);
    assert rs[..0] == [];
    for i := 0 to |rs|
      invariant fresh(table) && table.Valid()
      invariant |states| == i + 1 && states[i] == table.tables
      invariant SpaceRun(states, table.root, end, rs[..i])
    {
      assert rs[i] in rs;
      var ok := DisableCache(table, rs[i]);
      SpaceRunNext(states, table.root, end, rs[..i], table.tables, rs[i]);
      states := states + [table.tables];
      assert rs[..i + 1] == rs[..i] + [rs[i]];
    }
    assert rs[..|rs|] == rs;
    TableIsTree(table);
    PermissionsAfterRun(states, table.root, end, rs, table.places);
  }

  lemma TableIsTree(table: PageTables)
    requires table.Valid()
    ensures Tree(table.tables, table.root, table.places)
  {
  }

  lemma SpaceRunStart(ts: Tables, root: nat, end: nat)
    requires BootSpace(ts, root, end) && Identity(ts, root)
    ensures SpaceRun([ts], root, end, [])
  {
    hide BootSpace, Identity;
  }

  lemma SpaceRunNext(states: seq<Tables>, root: nat, end: nat, rs: seq<Region>, ts: Tables, r: Region)
    requires SpaceRun(states, root, end, rs) && Mapped(ts, states[|rs|], root, CallFor(r), PagesFor(r))
    ensures SpaceRun(states + [ts], root, end, rs + [r])
  {
    hide Mapped, BootSpace, Identity, PagesFor;
  }

  /** The last accepted region covering a page. */
  function LastCover(rs: seq<Region>, q: nat): (r: Option<Region>)
    ensures r.Some? <==> exists k :: 0 <= k < |rs| && Covers(rs[k], q)
    ensures r.Some? ==> r.value in rs && Covers(r.value, q)
  {
    if rs == [] then None
    else if Covers(rs[|rs| - 1], q) then Some(rs[|rs| - 1])
    else LastCover(rs[..|rs| - 1], q)
  }

  /** What a page is to be after boot and some regions: mapped by the last accepted region
      covering it, with its frame and uncached, and otherwise as at boot. */
  function PageAfter(end: nat, rs: seq<Region>, q: nat): (t: Option<(nat, nat)>)
  {
    match LastCover(rs, q)
    case Some(r) => RegionEntry(r, q)
    case None => BootEntry(end, q)
  }

  function RegionEntry(r: Region, q: nat): (t: Option<(nat, nat)>)
    requires Covers(r, q)
  {
    Some((r.start + PAGE_SIZE * (q - FirstPage(r.start)), 0x01B))
  }

  function BootEntry(end: nat, q: nat): (t: Option<(nat, nat)>)
  {
    if 1 <= q < PageCount(0, end) then Some((PAGE_SIZE * q, 0x003)) else None
  }

  /** After any run of regions every page is what it is to be. */
  lemma {:induction false} PageAfterRun(states: seq<Tables>, root: nat, end: nat, rs: seq<Region>, q: nat)
    requires SpaceRun(states, root, end, rs) && q < PAGES
    ensures Translate(states[|rs|], root, q) == PageAfter(end, rs, q)
    decreases |rs|
  {
    if rs == [] {
      hide Identity, PagesFor, Translate, BootSpace, BootEntry;
      BootPage(states[0], root, end, q);
    } else {
      var n := |rs| - 1;
      SpaceRunFront(states, root, end, rs);
      assert Mapped(states[n + 1], states[n], root, CallFor(rs[n]), PagesFor(rs[n]));
      assert states[..|rs|][n] == states[n];
      hide SpaceRun, Mapped, Translate, Covers, RegionEntry, BootEntry, CallFor, PagesFor;
      PageAfterRun(states[..|rs|], root, end, rs[..n], q);
      RegionPage(states[|rs|], states[n], root, rs[n], q);
    }
  }

  lemma BootPage(ts: Tables, root: nat, end: nat, q: nat)
    requires BootSpace(ts, root, end) && q < PAGES
    ensures Translate(ts, root, q) == BootEntry(end, q)
  {
    hide Leaf, PageCount;
    FrameAndAttr(PAGE_SIZE * q, ReadWriteKernel);
  }

  lemma RegionPage(ts: Tables, before: Tables, root: nat, r: Region, q: nat)
    requires Mapped(ts, before, root, CallFor(r), PagesFor(r)) && q < PAGES
    ensures Translate(ts, root, q) == if Covers(r, q) then RegionEntry(r, q) else Translate(before, root, q)
  {
    hide Leaf, PageCount, FirstPage;
    if Accepted(r) {
      TranslationAfter(ts, before, root, CallFor(r), PagesFor(r), q);
    }
  }

  lemma SpaceRunFront(states: seq<Tables>, root: nat, end: nat, rs: seq<Region>)
    requires SpaceRun(states, root, end, rs) && rs != []
    ensures SpaceRun(states[..|rs|], root, end, rs[..|rs| - 1])
  {
    hide Mapped, BootSpace, Identity;
  }

  /** Entry e has the address and attribute word of a translation. */
  lemma WordPermits(e: nat)
    ensures Present(e) && e % PAGE_SIZE == 0x003 ==> ReadWriteCached(e)
    ensures Present(e) && e % PAGE_SIZE == 0x01B ==> ReadWriteUncached(e)
  {
    assert e == Target(e) + e % PAGE_SIZE;
    EntryPermits(Target(e), ReadWriteKernel);
    EntryPermits(Target(e), ReadWriteIo);
  }

  /** After any run of regions: a page that an accepted region covers may be written and is
      uncached; any other page of the memory mapped at boot may be written and is cached; no
      other page is present. */
  predicate PermissionsAre(ts: Tables, root: nat, end: nat, rs: seq<Region>)
  {
    forall q :: 0 <= q < PAGES ==>
      if Covered(rs, q) then MayWrite(ts, root, q) && ReadWriteUncached(Leaf(ts, root, q))
      else if 1 <= q < PageCount(0, end) then MayWrite(ts, root, q) && ReadWriteCached(Leaf(ts, root, q))
      else !Present(Leaf(ts, root, q))
  }

  predicate Covered(rs: seq<Region>, q: nat) { exists k :: 0 <= k < |rs| && Covers(rs[k], q) }

  lemma PermissionsAfterRun(states: seq<Tables>, root: nat, end: nat, rs: seq<Region>, places: map<Place, nat>)
    requires SpaceRun(states, root, end, rs) && Tree(states[|rs|], root, places)
    ensures PermissionsAre(states[|rs|], root, end, rs)
  {
    var ts := states[|rs|];
    hide SpaceRun, Tree, Leaf, MayWrite, PageCount, Covers, FirstPage, LastCover;
    forall q | 0 <= q < PAGES
      ensures if Covered(rs, q) then MayWrite(ts, root, q) && ReadWriteUncached(Leaf(ts, root, q))
              else if 1 <= q < PageCount(0, end) then MayWrite(ts, root, q) && ReadWriteCached(Leaf(ts, root, q))
              else !Present(Leaf(ts, root, q))
    {
      PageAfterRun(states, root, end, rs, q);
      WordPermits(Leaf(ts, root, q));
      LeafDecides(ts, root, places, q);
      var last := LastCover(rs, q);
      assert last.Some? <==> Covered(rs, q);
    }
  }

  /** Every translation of every moment of a run is the identity if and only if every accepted
      region starts below 2^48. */
  lemma {:induction false} IdentityThroughoutIff(states: seq<Tables>, root: nat, end: nat, rs: seq<Region>)
    requires SpaceRun(states, root, end, rs)
    ensures (forall i :: 0 <= i <= |rs| ==> Identity(states[i], root))
       <==> forall k :: 0 <= k < |rs| && Accepted(rs[k]) ==> BelowSpaceEnd(rs[k])
    decreases |rs|
  {
    hide Mapped, BootSpace, Identity, Accepted, BelowSpaceEnd;
    if rs != [] {
      var n := |rs| - 1;
      SpaceRunFront(states, root, end, rs);
      IdentityThroughoutIff(states[..|rs|], root, end, rs[..n]);
      if Identity(states[n], root) {
        RegionKeepsIdentityIff(states[|rs|], states[n], root, rs[n]);
      }
      assert forall i :: 0 <= i <= n ==> states[..|rs|][i] == states[i];
      assert forall k :: 0 <= k < n ==> rs[..n][k] == rs[k];
    }
  }

  /** The last region covering each covered page starts below 2^48. */
  predicate LastCoversBelow(rs: seq<Region>)
  {
    forall q {:trigger LastCover(rs, q)} :: 0 <= q < PAGES && LastCover(rs, q).Some? ==>
      BelowSpaceEnd(LastCover(rs, q).value)
  }

  /** At the end of a run, earlier regions having been mapped over, every translation is the
      identity if and only if the last region covering each page starts below 2^48. */
  lemma IdentityAtEndIff(states: seq<Tables>, root: nat, end: nat, rs: seq<Region>)
    requires SpaceRun(states, root, end, rs)
    ensures Identity(states[|rs|], root) <==> LastCoversBelow(rs)
  {
    var ts := states[|rs|];
    hide SpaceRun, LastCover, PageCount, FirstPage, Leaf;
    forall q | 0 <= q < PAGES
      ensures (Present(Leaf(ts, root, q)) ==> Target(Leaf(ts, root, q)) == PAGE_SIZE * q)
         <==> (LastCover(rs, q).Some? ==> BelowSpaceEnd(LastCover(rs, q).value))
    {
      PageAfterRun(states, root, end, rs, q);
      if LastCover(rs, q).Some? {
        CoverIsIdentity(LastCover(rs, q).value, q);
      }
    }
  }

  lemma CoverIsIdentity(r: Region, q: nat)
    requires Covers(r, q) && q < PAGES
    ensures r.start + PAGE_SIZE * (q - FirstPage(r.start)) == PAGE_SIZE * q <==> BelowSpaceEnd(r)
  {
  }

  /** Page 0 stays absent if and only if no accepted region covers it. */
  lemma PageZeroAbsentIff(states: seq<Tables>, root: nat, end: nat, rs: seq<Region>)
    requires SpaceRun(states, root, end, rs)
    ensures Translate(states[|rs|], root, 0).None? <==> forall k :: 0 <= k < |rs| ==> !Covers(rs[k], 0)
  {
    hide SpaceRun, Translate, Covers;
    PageAfterRun(states, root, end, rs, 0);
  }

  /** The identity can be lost and come back: a page mapped from above 2^48, then from itself. */
  lemma IdentityLostAndRegained(states: seq<Tables>, root: nat, end: nat)
    requires SpaceRun(states, root, end, [Region(PAGE_SIZE * PAGES, PAGE_SIZE), Region(0, PAGE_SIZE)])
    ensures !Identity(states[1], root) && Identity(states[2], root)
  {
    var high, low := Region(PAGE_SIZE * PAGES, PAGE_SIZE), Region(0, PAGE_SIZE);
    CoverPageZero(high, low);
    SpaceRunFront(states, root, end, [high, low]);
    assert [high, low][..1] == [high];
    hide SpaceRun, LastCoversBelow, Identity;
    IdentityAtEndIff(states[..2], root, end, [high]);
    IdentityAtEndIff(states, root, end, [high, low]);
  }

  lemma CoverPageZero(high: Region, low: Region)
    requires high == Region(PAGE_SIZE * PAGES, PAGE_SIZE) && low == Region(0, PAGE_SIZE)
    ensures !LastCoversBelow([high]) && LastCoversBelow([high, low])
  {
    assert Covers(high, 0) && !BelowSpaceEnd(high) && BelowSpaceEnd(low);
    assert forall q: nat :: Covers(high, q) <==> q == 0;
    assert forall q: nat :: Covers(low, q) <==> q == 0;
    hide Covers, BelowSpaceEnd;
    assert LastCover([high], 0) == Some(high);
    forall q | 0 <= q < PAGES && LastCover([high, low], q).Some?
      ensures BelowSpaceEnd(LastCover([high, low], q).value)
    {
    }
  }
}
