/** The MVE firmware MMU page-table builder: packs {attribute, physical
    page, access} into 32-bit entries and writes one second-level table per
    core, mapping the firmware text, the shared BSS pages (one pool, the
    same for every core) and the private BSS pages (a fresh run per core).

    The table region is an array of entries; core `c`'s table is the page
    of `EntriesPerPage` entries starting at entry `c * 1024`. */
module MveFwMmu {
  import opened MachineWords
  import opened MveFwLayout

  // ---------------------------------------------------------------------
  // Entry encoding
  // ---------------------------------------------------------------------

  /** mve_mmu_make_l1l2_entry: the attribute in bits 30-31, the physical
      page number `paddr >> 12` from bit 2 (the code shifts right by 10 and
      masks with 0x3FFFFFFC) and the access in bits 0-1. On an unsigned
      32-bit value a shift is a multiplication or a division by a power of
      two and the masked fields do not overlap, so the entry is their sum. */
  function MakeEntry(attrib: Attrib, paddr: u32, access: Access): u32
  {
    AttribCode(attrib) * 0x4000_0000 + paddr / 4096 * 4 + AccessCode(access)
  }

  function EntryAttrib(e: u32): Attrib
  {
    AttribOfCode(e / 0x4000_0000)
  }

  function EntryAccess(e: u32): Access
  {
    AccessOfCode(e % 4)
  }

  /** The page address an entry maps: the 28-bit field shifted down by 2 and
      up by 12 in 32 bits, which keeps its low 20 bits. */
  function EntryPaddr(e: u32): u32
  {
    e / 4 % 0x10_0000 * 4096
  }

  /** Decoding an entry recovers its attribute, its access and the page of
      its physical address (the address with its low 12 bits cleared). */
  lemma MakeEntryDecodes(attrib: Attrib, paddr: u32, access: Access)
    ensures EntryAttrib(MakeEntry(attrib, paddr, access)) == attrib
    ensures EntryAccess(MakeEntry(attrib, paddr, access)) == access
    ensures EntryPaddr(MakeEntry(attrib, paddr, access)) == paddr / 4096 * 4096
  {
    var a, n, c := AttribCode(attrib), paddr / 4096, AccessCode(access);
    var e := MakeEntry(attrib, paddr, access);
    assert e == a * 0x4000_0000 + n * 4 + c;
    assert e / 4 == a * 0x1000_0000 + n;
    assert e / 4 % 0x10_0000 == n;
  }

  /** For a page-aligned address the round trip is exact. */
  lemma MakeEntryRoundTrip(attrib: Attrib, paddr: u32, access: Access)
    requires paddr % 4096 == 0
    ensures EntryAttrib(MakeEntry(attrib, paddr, access)) == attrib
    ensures EntryAccess(MakeEntry(attrib, paddr, access)) == access
    ensures EntryPaddr(MakeEntry(attrib, paddr, access)) == paddr
  {
    MakeEntryDecodes(attrib, paddr, access);
  }

  // ---------------------------------------------------------------------
  // Page counts
  // ---------------------------------------------------------------------

  /** Pages covering the decrypted image: `fw_size` rounded up to pages. */
  function NumPages(fwSize: nat): (r: nat)
    ensures r * 4096 >= fwSize && r * 4096 < fwSize + PageSize
  {
    (fwSize + PageSize - 1) / 4096
  }

  /** Pages covering the text; the rounding addition is done in 32 bits,
      as the header field is a 32-bit word. */
  function NumTextPages(textLength: u32): nat
  {
    Wrap(textLength + PageSize - 1) / 4096
  }

  /** Below the last page of the address space the text page count is the
      ceiling of `text_length / 4096`. */
  lemma NumTextPagesIsCeiling(textLength: u32)
    requires textLength <= TwoTo32 - PageSize
    ensures NumTextPages(textLength) * 4096 >= textLength
    ensures NumTextPages(textLength) * 4096 < textLength + PageSize
  {
    assert Wrap(textLength + PageSize - 1) == textLength + PageSize - 1;
  }

  /** In the last page of the address space the rounding addition wraps
      and the count collapses to zero. */
  lemma NumTextPagesWrapsToZero(textLength: u32)
    requires textLength > TwoTo32 - PageSize
    ensures NumTextPages(textLength) == 0
  {
    assert Wrap(textLength + PageSize - 1) == textLength + PageSize - 1 - TwoTo32;
  }


  // ---------------------------------------------------------------------
  // Classifying the BSS bitmap positions
  // ---------------------------------------------------------------------

  /** What the header demands before any bitmap bit can be read and any
      core's table stays inside its page: the code checks neither. */
  ghost predicate Buildable(h: FwHeader)
  {
    && WellFormed(h)
    && h.bssBitmapSize <= BitmapCapacity
    && 1 + NumTextPages(h.textLength) + h.bssBitmapSize <= EntriesPerPage
  }

  /** Virtual address of bitmap position `j`: the page index
      `(bss_start_address >> 12) + j` shifted back by 12 in 32 bits. */
  function BssPageAddress(h: FwHeader, j: nat): u32
  {
    Wrap((h.bssStartAddress / 4096 + j) * 4096)
  }

  /** The master read-write window, its end computed in 32 bits. */
  predicate InMasterRw(h: FwHeader, addr: u32)
  {
    h.masterRwStartAddress <= addr < Wrap(h.masterRwStartAddress + h.masterRwSize)
  }

  datatype PageKind = SharedPage | PrivatePage | Skipped

  /** A position inside the master window is shared whatever its bitmap
      bit; outside it, a set bit makes it private and a clear bit skips it. */
  function Classify(h: FwHeader, j: nat): PageKind
    requires WellFormed(h) && j < BitmapCapacity
  {
    if InMasterRw(h, BssPageAddress(h, j)) then SharedPage
    else if BitmapBit(h.bssBitmap, j) then PrivatePage
    else Skipped
  }

  /** The kind of every bitmap position, in order. */
  function Kinds(h: FwHeader): (ks: seq<PageKind>)
    requires WellFormed(h) && h.bssBitmapSize <= BitmapCapacity
    ensures |ks| == h.bssBitmapSize
  {
    KindsBelow(h, h.bssBitmapSize)
  }

  /** The kinds of the first `n` bitmap positions. */
  function KindsBelow(h: FwHeader, n: nat): (ks: seq<PageKind>)
    requires WellFormed(h) && n <= BitmapCapacity
    ensures |ks| == n
  {
    if n == 0 then [] else KindsBelow(h, n - 1) + [Classify(h, n - 1)]
  }

  /** Position `j` has the kind `Classify` gives it. */
  lemma {:induction false} KindsBelowAt(h: FwHeader, n: nat, j: nat)
    requires WellFormed(h) && j < n <= BitmapCapacity
    ensures KindsBelow(h, n)[j] == Classify(h, j)
  {
    if j < n - 1 {
      KindsBelowAt(h, n - 1, j);
    }
  }

  lemma KindsAt(h: FwHeader, j: nat)
    requires WellFormed(h) && j < h.bssBitmapSize <= BitmapCapacity
    ensures Kinds(h)[j] == Classify(h, j)
  {
    KindsBelowAt(h, h.bssBitmapSize, j);
  }

  /** Number of the first `n` positions of `ks` that have kind `kind`: the
      rank of position `n` among the positions of that kind. */
  function CountBefore(ks: seq<PageKind>, n: nat, kind: PageKind): (r: nat)
    requires n <= |ks|
    ensures r <= n
  {
    if n == 0 then 0
    else CountBefore(ks, n - 1, kind) + (if ks[n - 1] == kind then 1 else 0)
  }

  /** Every position is exactly one of shared, private or skipped. */
  lemma {:induction false} CountPartition(ks: seq<PageKind>, n: nat)
    requires n <= |ks|
    ensures CountBefore(ks, n, SharedPage) + CountBefore(ks, n, PrivatePage) + CountBefore(ks, n, Skipped) == n
  {
    if n > 0 {
      CountPartition(ks, n - 1);
    }
  }

  /** Counting is strictly increasing across a position of the counted kind,
      so two positions of one kind get different ranks, and every position's
      rank is below the number of positions of its kind. */
  lemma {:induction false} CountRankBelow(ks: seq<PageKind>, j: nat, n: nat, kind: PageKind)
    requires j < n <= |ks| && ks[j] == kind
    ensures CountBefore(ks, j, kind) < CountBefore(ks, n, kind)
  {
    if n > j + 1 {
      CountRankBelow(ks, j, n - 1, kind);
    }
  }

  /** Two sequences that agree on which positions have kind `kind` have the
      same count of it. */
  lemma {:induction false} CountSameMembers(ks: seq<PageKind>, ks': seq<PageKind>, n: nat, kind: PageKind)
    requires n <= |ks| == |ks'|
    requires forall i :: 0 <= i < |ks| ==> (ks[i] == kind <==> ks'[i] == kind)
    ensures CountBefore(ks, n, kind) == CountBefore(ks', n, kind)
  {
    if n > 0 {
      CountSameMembers(ks, ks', n - 1, kind);
    }
  }

  /** The two headers agree on everything the shared test reads. */
  ghost predicate SameButBitmap(h: FwHeader, h': FwHeader)
  {
    && h'.bssStartAddress == h.bssStartAddress
    && h'.masterRwStartAddress == h.masterRwStartAddress
    && h'.masterRwSize == h.masterRwSize
    && h'.bssBitmapSize == h.bssBitmapSize
  }

  /** The shared test does not read the bitmap: two headers that differ
      only in their bitmap words have the same shared positions. */
  lemma SharedCountIgnoresBitmap(h: FwHeader, h': FwHeader)
    requires WellFormed(h) && WellFormed(h') && h.bssBitmapSize <= BitmapCapacity
    requires SameButBitmap(h, h')
    ensures CountBefore(Kinds(h'), h'.bssBitmapSize, SharedPage) == CountBefore(Kinds(h), h.bssBitmapSize, SharedPage)
  {
    forall i | 0 <= i < h.bssBitmapSize
      ensures Kinds(h)[i] == SharedPage <==> Kinds(h')[i] == SharedPage
    {
      KindsAt(h, i);
      KindsAt(h', i);
      assert BssPageAddress(h', i) == BssPageAddress(h, i);
    }
    CountSameMembers(Kinds(h), Kinds(h'), h.bssBitmapSize, SharedPage);
  }

  // ---------------------------------------------------------------------
  // Physical layout
  // ---------------------------------------------------------------------

  datatype PhysLayout = PhysLayout(
    /** Pages of text mapped into every core. */
    textPages: nat,
    /** Physical start of the image: the text maps from here. */
    dataStart: u32,
    /** Start of the shared pool, right after the image's pages. */
    sharedBase: u32,
    /** Start of the private pool, right after the shared pool. */
    bssBase: u32,
    numSharedPages: nat,
    /** Private pages per core. */
    numBssPages: nat)

  /** The `n`-th page from `base`, in the 32-bit physical address space. */
  function PageFrom(base: u32, n: nat): u32
  {
    Wrap(base + n * 4096)
  }

  /** The layout fill_l2pages derives from the header and the image's
      physical placement: the shared pool starts after the image's pages
      and the private pool after the shared pool; every sum is a 32-bit sum. */
  function Layout(h: FwHeader, fwPhys: u32, fwSize: nat): PhysLayout
    requires WellFormed(h) && h.bssBitmapSize <= BitmapCapacity
  {
    var numShared := CountBefore(Kinds(h), h.bssBitmapSize, SharedPage);
    var sharedBase := Wrap(fwPhys + Wrap(NumPages(fwSize) * 4096));
    PhysLayout(NumTextPages(h.textLength), fwPhys, sharedBase, Wrap(sharedBase + Wrap(numShared * 4096)),
               numShared, CountBefore(Kinds(h), h.bssBitmapSize, PrivatePage))
  }

  /** The image's pages, the shared pool and the private pool follow each
      other from the image's physical start, and the two pools together
      have no more pages than the bitmap has positions. */
  lemma LayoutPools(h: FwHeader, fwPhys: u32, fwSize: nat)
    requires WellFormed(h) && h.bssBitmapSize <= BitmapCapacity
    ensures var lay := Layout(h, fwPhys, fwSize);
      && lay.dataStart == fwPhys
      && lay.sharedBase == PageFrom(fwPhys, NumPages(fwSize))
      && lay.bssBase == PageFrom(fwPhys, NumPages(fwSize) + lay.numSharedPages)
      && lay.numSharedPages + lay.numBssPages <= h.bssBitmapSize
  {
    var lay := Layout(h, fwPhys, fwSize);
    var n, m := NumPages(fwSize), lay.numSharedPages;
    WrapAdd(n * 4096, fwPhys);
    WrapAdd(fwPhys + n * 4096, m * 4096);
    WrapAdd(m * 4096, lay.sharedBase);
    assert fwPhys + n * 4096 + m * 4096 == fwPhys + (n + m) * 4096;
    CountPartition(Kinds(h), h.bssBitmapSize);
  }

  /** Both pool bases follow from the shared count alone: the number of
      private pages is counted but never used to place anything. */
  lemma PoolBasesIgnoreBitmap(h: FwHeader, h': FwHeader, fwPhys: u32, fwSize: nat)
    requires WellFormed(h) && WellFormed(h') && h.bssBitmapSize <= BitmapCapacity
    requires SameButBitmap(h, h')
    ensures Layout(h', fwPhys, fwSize).sharedBase == Layout(h, fwPhys, fwSize).sharedBase
    ensures Layout(h', fwPhys, fwSize).bssBase == Layout(h, fwPhys, fwSize).bssBase
  {
    SharedCountIgnoresBitmap(h, h');
  }

  // ---------------------------------------------------------------------
  // What each core's table holds
  // ---------------------------------------------------------------------

  datatype Mapping = Mapping(paddr: u32, access: Access)

  /** The table slot that bitmap position `j` maps: after the blank slot 0
      and the text slots, one slot per position, written or not. */
  function PositionSlot(lay: PhysLayout, j: nat): nat
  {
    1 + lay.textPages + j
  }

  /** What slot `slot` of a core's table maps, given the kinds `ks` of the
      bitmap positions and the address `runBase` of the core's first private
      page, or None when the slot is left unwritten. Slot 0 is blank; the
      text slots map the image from its start; bitmap position `j` sits at
      slot `PositionSlot(j)` and maps the shared page of its rank among
      shared positions, or, if private, the page of its rank among private
      positions counted from `runBase`. Core `c`'s run starts at page
      `RunStart(numBssPages, c)` of the private pool (`RunBase`), so private
      pages run on from core to core. */
  function MappingAt(ks: seq<PageKind>, lay: PhysLayout, runBase: u32, slot: nat): Option<Mapping>
  {
    if slot == 0 then None
    else if slot <= lay.textPages then
      Some(Mapping(PageFrom(lay.dataStart, slot - 1), AccessExecutable))
    else if slot - 1 - lay.textPages < |ks| then
      var j := slot - 1 - lay.textPages;
      match ks[j]
      case SharedPage => Some(Mapping(PageFrom(lay.sharedBase, CountBefore(ks, j, SharedPage)), AccessReadWrite))
      case PrivatePage =>
        Some(Mapping(PageFrom(runBase, CountBefore(ks, j, PrivatePage)),
                     AccessReadWrite))
      case Skipped => None
    else None
  }

  /** The entry a slot holds after the build: the mapping's entry, always
      with the private attribute, or the slot's earlier value. */
  function SlotAfter(before: u32, ks: seq<PageKind>, lay: PhysLayout, runBase: u32, slot: nat): u32
  {
    match MappingAt(ks, lay, runBase, slot)
    case Some(m) => MakeEntry(AttribPrivate, m.paddr, m.access)
    case None => before
  }

  /** Index in the table region of slot `slot` of core `core`. */
  function Index(core: nat, slot: nat): nat
  {
    core * 1024 + slot
  }

  /** A slot holding a private position. */
  predicate PrivateSlot(ks: seq<PageKind>, lay: PhysLayout, slot: nat)
  {
    lay.textPages < slot && slot - 1 - lay.textPages < |ks| && ks[slot - 1 - lay.textPages] == PrivatePage
  }

  /** A private slot maps the page of its rank in the core's private run. */
  lemma PrivateSlotMapping(ks: seq<PageKind>, lay: PhysLayout, runBase: u32, slot: nat)
    requires PrivateSlot(ks, lay, slot)
    ensures MappingAt(ks, lay, runBase, slot)
         == Some(Mapping(PageFrom(runBase, CountBefore(ks, slot - 1 - lay.textPages, PrivatePage)), AccessReadWrite))
  {
  }

  /** A shared slot maps the page of its rank in the shared pool. */
  lemma SharedSlotMapping(ks: seq<PageKind>, lay: PhysLayout, runBase: u32, slot: nat)
    requires lay.textPages < slot && slot - 1 - lay.textPages < |ks| && ks[slot - 1 - lay.textPages] == SharedPage
    ensures MappingAt(ks, lay, runBase, slot)
         == Some(Mapping(PageFrom(lay.sharedBase, CountBefore(ks, slot - 1 - lay.textPages, SharedPage)), AccessReadWrite))
  {
  }

  /** A skipped position's slot is left unwritten. */
  lemma SkippedSlotMapping(ks: seq<PageKind>, lay: PhysLayout, runBase: u32, slot: nat)
    requires lay.textPages < slot && slot - 1 - lay.textPages < |ks| && ks[slot - 1 - lay.textPages] == Skipped
    ensures MappingAt(ks, lay, runBase, slot) == None
  {
  }

  /** Every slot other than a private one maps the same thing on every core:
      text and shared pages are common to all cores. */
  lemma NonPrivateSlotsAgreeAcrossCores(ks: seq<PageKind>, lay: PhysLayout, base1: u32, base2: u32, slot: nat)
    requires !PrivateSlot(ks, lay, slot)
    ensures MappingAt(ks, lay, base1, slot) == MappingAt(ks, lay, base2, slot)
  {
  }

  /** Two different slots of one core never map the same shared page, and
      never map the same private page. */
  lemma DistinctPositionsDistinctPages(ks: seq<PageKind>, lay: PhysLayout, runBase: u32, s1: nat, s2: nat)
    requires lay.numBssPages == CountBefore(ks, |ks|, PrivatePage)
    requires lay.textPages < s1 < s2 && s2 - 1 - lay.textPages < |ks| <= BitmapCapacity
    requires ks[s1 - 1 - lay.textPages] == ks[s2 - 1 - lay.textPages] != Skipped
    requires lay.numBssPages <= 0x10_0000
    ensures MappingAt(ks, lay, runBase, s1).Some? && MappingAt(ks, lay, runBase, s2).Some?
    ensures MappingAt(ks, lay, runBase, s1).value.paddr != MappingAt(ks, lay, runBase, s2).value.paddr
  {
    if ks[s1 - 1 - lay.textPages] == SharedPage {
      SharedPositionsDiffer(ks, lay, runBase, s1, s2);
    } else {
      PrivatePositionsDiffer(ks, lay, runBase, s1, s2);
    }
  }

  lemma SharedPositionsDiffer(ks: seq<PageKind>, lay: PhysLayout, runBase: u32, s1: nat, s2: nat)
    requires lay.textPages < s1 < s2 && s2 - 1 - lay.textPages < |ks| <= BitmapCapacity
    requires ks[s1 - 1 - lay.textPages] == ks[s2 - 1 - lay.textPages] == SharedPage
    ensures MappingAt(ks, lay, runBase, s1).Some? && MappingAt(ks, lay, runBase, s2).Some?
    ensures MappingAt(ks, lay, runBase, s1).value.paddr != MappingAt(ks, lay, runBase, s2).value.paddr
  {
    var j1, j2 := s1 - 1 - lay.textPages, s2 - 1 - lay.textPages;
    CountRankBelow(ks, j1, j2, SharedPage);
    CountRankBelow(ks, j2, |ks|, SharedPage);
    SharedSlotMapping(ks, lay, runBase, s1);
    SharedSlotMapping(ks, lay, runBase, s2);
    PageFromInjective(lay.sharedBase, CountBefore(ks, j1, SharedPage), CountBefore(ks, j2, SharedPage));
  }

  lemma PrivatePositionsDiffer(ks: seq<PageKind>, lay: PhysLayout, runBase: u32, s1: nat, s2: nat)
    requires lay.numBssPages == CountBefore(ks, |ks|, PrivatePage)
    requires lay.textPages < s1 < s2 && s2 - 1 - lay.textPages < |ks|
    requires ks[s1 - 1 - lay.textPages] == ks[s2 - 1 - lay.textPages] == PrivatePage
    requires lay.numBssPages <= 0x10_0000
    ensures MappingAt(ks, lay, runBase, s1).Some? && MappingAt(ks, lay, runBase, s2).Some?
    ensures MappingAt(ks, lay, runBase, s1).value.paddr != MappingAt(ks, lay, runBase, s2).value.paddr
  {
    var j1, j2 := s1 - 1 - lay.textPages, s2 - 1 - lay.textPages;
    CountRankBelow(ks, j1, j2, PrivatePage);
    CountRankBelow(ks, j2, |ks|, PrivatePage);
    PrivateSlotMapping(ks, lay, runBase, s1);
    PrivateSlotMapping(ks, lay, runBase, s2);
    PageFromInjective(runBase, CountBefore(ks, j1, PrivatePage), CountBefore(ks, j2, PrivatePage));
  }

  /** Private pages of two different cores never coincide: core `c`'s
      private pages start at `RunBase(lay, c)`, page `RunStart(numBssPages, c)`
      of the private pool, and each core has `numBssPages` of them. The
      pool must fit the 32-bit address space. */
  lemma PrivatePagesDisjointAcrossCores(ks: seq<PageKind>, lay: PhysLayout, ncores: nat,
                                        c1: nat, c2: nat, s1: nat, s2: nat)
    requires lay.numBssPages == CountBefore(ks, |ks|, PrivatePage)
    requires c1 < ncores && c2 < ncores && c1 != c2
    requires RunStart(lay.numBssPages, ncores) <= 0x10_0000
    requires PrivateSlot(ks, lay, s1) && PrivateSlot(ks, lay, s2)
    ensures MappingAt(ks, lay, RunBase(lay, c1), s1).Some? && MappingAt(ks, lay, RunBase(lay, c2), s2).Some?
    ensures MappingAt(ks, lay, RunBase(lay, c1), s1).value.paddr
         != MappingAt(ks, lay, RunBase(lay, c2), s2).value.paddr
  {
    var j1, j2 := s1 - 1 - lay.textPages, s2 - 1 - lay.textPages;
    var k1, k2 := CountBefore(ks, j1, PrivatePage), CountBefore(ks, j2, PrivatePage);
    CountRankBelow(ks, j1, |ks|, PrivatePage);
    CountRankBelow(ks, j2, |ks|, PrivatePage);
    PrivateSlotMapping(ks, lay, RunBase(lay, c1), s1);
    PrivateSlotMapping(ks, lay, RunBase(lay, c2), s2);
    RunsOfDifferentCoresGetDifferentPages(lay, ncores, c1, k1, c2, k2);
  }

  /** Address of core `core`'s first private page. */
  function RunBase(lay: PhysLayout, core: nat): u32
  {
    PageFrom(lay.bssBase, RunStart(lay.numBssPages, core))
  }

  /** The next core's run starts right after this core's `numBssPages`
      pages, which is where the private cursor stops after a pass. */
  lemma RunBaseNext(lay: PhysLayout, core: nat)
    ensures RunBase(lay, core + 1) == PageFrom(RunBase(lay, core), lay.numBssPages)
  {
    PageFromAdd(lay.bssBase, RunStart(lay.numBssPages, core), lay.numBssPages);
  }

  lemma RunsOfDifferentCoresGetDifferentPages(lay: PhysLayout, ncores: nat, c1: nat, k1: nat, c2: nat, k2: nat)
    requires k1 < lay.numBssPages && k2 < lay.numBssPages && c1 < ncores && c2 < ncores && c1 != c2
    requires RunStart(lay.numBssPages, ncores) <= 0x10_0000
    ensures PageFrom(RunBase(lay, c1), k1) != PageFrom(RunBase(lay, c2), k2)
  {
    var b := lay.numBssPages;
    PageFromAdd(lay.bssBase, RunStart(b, c1), k1);
    PageFromAdd(lay.bssBase, RunStart(b, c2), k2);
    RunsOfDifferentCoresDiffer(b, ncores, c1, k1, c2, k2);
    PageFromInjective(lay.bssBase, RunStart(b, c1) + k1, RunStart(b, c2) + k2);
  }

  /** Page `k` of core `c1`'s run and page `k2` of core `c2`'s run are
      different pages of the pool, both inside the pool. */
  lemma RunsOfDifferentCoresDiffer(b: nat, ncores: nat, c1: nat, k1: nat, c2: nat, k2: nat)
    requires k1 < b && k2 < b && c1 < ncores && c2 < ncores && c1 != c2
    ensures RunStart(b, c1) + k1 != RunStart(b, c2) + k2
    ensures RunStart(b, c1) + k1 < RunStart(b, ncores) && RunStart(b, c2) + k2 < RunStart(b, ncores)
  {
    RunEndBelow(b, c1, ncores);
    RunEndBelow(b, c2, ncores);
    if c1 < c2 {
      RunEndBelow(b, c1, c2);
    } else {
      RunEndBelow(b, c2, c1);
    }
  }

  /** A core's run ends no later than any later core's run starts. */
  lemma {:induction false} RunEndBelow(b: nat, c: nat, n: nat)
    requires c < n
    ensures RunStart(b, c) + b <= RunStart(b, n)
  {
    if c + 1 < n {
      RunEndBelow(b, c, n - 1);
    }
  }

  /** First private page number of core `core`: the runs of the cores
      before it, `numBssPages` pages each, come first. */
  function RunStart(numBssPages: nat, core: nat): nat
  {
    if core == 0 then 0 else RunStart(numBssPages, core - 1) + numBssPages
  }

  /** The run of core `core` starts at page `core * numBssPages`. */
  lemma {:induction false} RunStartIsProduct(b: nat, core: nat)
    ensures RunStart(b, core) == core * b
  {
    if core > 0 {
      RunStartIsProduct(b, core - 1);
      assert (core - 1) * b + b == core * b;
    }
  }

  /** Distinct page numbers below 2^20 give distinct 32-bit page addresses. */
  lemma PageFromInjective(base: u32, m1: nat, m2: nat)
    requires m1 != m2 && m1 < 0x10_0000 && m2 < 0x10_0000
    ensures PageFrom(base, m1) != PageFrom(base, m2)
  {
    WrapBelowTwice(base + m1 * 4096);
    WrapBelowTwice(base + m2 * 4096);
  }

  lemma WrapBelowTwice(x: int)
    requires 0 <= x < 2 * TwoTo32
    ensures Wrap(x) == if x < TwoTo32 then x else x - TwoTo32
  {
    if x >= TwoTo32 {
      ModShift(x, 1);
    }
  }

  /** Counting `n` pages on from the `m`-th page reaches the `m + n`-th. */
  lemma PageFromAdd(base: u32, m: nat, n: nat)
    ensures PageFrom(PageFrom(base, m), n) == PageFrom(base, m + n)
  {
    WrapAdd(base + m * 4096, n * 4096);
    assert base + m * 4096 + n * 4096 == base + (m + n) * 4096;
  }

  /** Advancing a page cursor by one page moves it to the next page. */
  lemma PageFromNext(base: u32, n: nat)
    ensures Wrap(PageFrom(base, n) + PageSize) == PageFrom(base, n + 1)
  {
    WrapAdd(base + n * 4096, PageSize);
  }

  // ---------------------------------------------------------------------
  // The table region before and after the build
  // ---------------------------------------------------------------------

  /** The table region `before` with slots `0 .. m-1` of core `core`'s table
      set as `SlotAfter` says, the core's private run starting at page
      number `runBase`. */
  ghost function CoreTable(before: seq<u32>, ks: seq<PageKind>, lay: PhysLayout, core: nat, runBase: u32, m: nat)
    : (r: seq<u32>)
    requires Index(core, m) <= |before|
    ensures |r| == |before|
  {
    if m == 0 then before
    else CoreTable(before, ks, lay, core, runBase, m - 1)[Index(core, m - 1)
                                       := SlotAfter(before[Index(core, m - 1)], ks, lay, runBase, m - 1)]
  }

  /** The table region `before` with the tables of cores `0 .. n-1` written,
      one core after the other. */
  ghost function Tables(before: seq<u32>, ks: seq<PageKind>, lay: PhysLayout, n: nat): (r: seq<u32>)
    requires Index(n, 0) <= |before|
    ensures |r| == |before|
  {
    if n == 0 then before
    else CoreTable(Tables(before, ks, lay, n - 1), ks, lay, n - 1, RunBase(lay, n - 1), EntriesPerPage)
  }

  /** Entry by entry: a slot below `m` of core `core` holds its `SlotAfter`
      value; every other entry of the region is unchanged. */
  lemma {:induction false} CoreTableAt(before: seq<u32>, ks: seq<PageKind>, lay: PhysLayout, core: nat, runBase: u32,
                                       m: nat, k: nat)
    requires Index(core, m) <= |before| && k < |before|
    ensures CoreTable(before, ks, lay, core, runBase, m)[k]
         == if Index(core, 0) <= k < Index(core, m) then SlotAfter(before[k], ks, lay, runBase, k - Index(core, 0))
            else before[k]
  {
    if m > 0 {
      CoreTableAt(before, ks, lay, core, runBase, m - 1, k);
    }
  }

  /** Writing slot `m` of the core's table takes the region from `m` slots
      written to `m + 1`, whatever the slot held before. */
  lemma CoreTableStep(before: seq<u32>, ks: seq<PageKind>, lay: PhysLayout, core: nat, runBase: u32, m: nat)
    requires Index(core, m + 1) <= |before|
    ensures CoreTable(before, ks, lay, core, runBase, m + 1)
         == CoreTable(before, ks, lay, core, runBase, m)[Index(core, m)
              := SlotAfter(CoreTable(before, ks, lay, core, runBase, m)[Index(core, m)], ks, lay, runBase, m)]
  {
    CoreTableAt(before, ks, lay, core, runBase, m, Index(core, m));
  }

  /** Slots past the last bitmap position map nothing, so writing them
      changes nothing. */
  lemma {:induction false} CoreTableBeyond(before: seq<u32>, ks: seq<PageKind>, lay: PhysLayout, core: nat,
                                           runBase: u32, m: nat)
    requires PositionSlot(lay, |ks|) <= m && Index(core, m) <= |before|
    ensures CoreTable(before, ks, lay, core, runBase, m)
         == CoreTable(before, ks, lay, core, runBase, PositionSlot(lay, |ks|))
  {
    if m > PositionSlot(lay, |ks|) {
      CoreTableBeyond(before, ks, lay, core, runBase, m - 1);
      CoreTableAt(before, ks, lay, core, runBase, m - 1, Index(core, m - 1));
      assert MappingAt(ks, lay, runBase, m - 1) == None;
    }
  }

  /** `s` with `n` consecutive private-attribute entries stored from index
      `slot` on, the k-th of them mapping page `k` counted from `paddr`. */
  ghost function Written(s: seq<u32>, slot: nat, paddr: u32, n: nat, access: Access): (r: seq<u32>)
    requires slot + n <= |s|
    ensures |r| == |s|
  {
    if n == 0 then s
    else Written(s, slot, paddr, n - 1, access)[slot + n - 1 := MakeEntry(AttribPrivate, PageFrom(paddr, n - 1), access)]
  }

  /** Entry by entry: the `n` entries from `slot` on map consecutive pages
      from `paddr`; every other entry is unchanged. */
  lemma {:induction false} WrittenAt(s: seq<u32>, slot: nat, paddr: u32, n: nat, access: Access, k: nat)
    requires slot + n <= |s| && k < |s|
    ensures Written(s, slot, paddr, n, access)[k]
         == if slot <= k < slot + n then MakeEntry(AttribPrivate, PageFrom(paddr, k - slot), access) else s[k]
  {
    if n > 0 {
      WrittenAt(s, slot, paddr, n - 1, access, k);
    }
  }

  /** Writing the text gives the first `1 + textPages` slots of a pass. */
  lemma TextIsCoreTable(before: seq<u32>, ks: seq<PageKind>, lay: PhysLayout, core: nat, runBase: u32)
    requires Index(core, PositionSlot(lay, 0)) <= |before|
    ensures Written(before, Index(core, 1), lay.dataStart, lay.textPages, AccessExecutable)
         == CoreTable(before, ks, lay, core, runBase, PositionSlot(lay, 0))
  {
    var after := Written(before, Index(core, 1), lay.dataStart, lay.textPages, AccessExecutable);
    forall k | 0 <= k < |after|
      ensures after[k] == CoreTable(before, ks, lay, core, runBase, PositionSlot(lay, 0))[k]
    {
      WrittenAt(before, Index(core, 1), lay.dataStart, lay.textPages, AccessExecutable, k);
      CoreTableAt(before, ks, lay, core, runBase, PositionSlot(lay, 0), k);
    }
  }

  /** After the build, slot `s` of core `c < n` holds its `SlotAfter` value
      computed from what the slot held before. */
  lemma {:induction false} TablesAt(before: seq<u32>, ks: seq<PageKind>, lay: PhysLayout, n: nat, c: nat, s: nat)
    requires Index(n, 0) <= |before| && c < n && s < EntriesPerPage
    ensures Tables(before, ks, lay, n)[Index(c, s)]
         == SlotAfter(before[Index(c, s)], ks, lay, RunBase(lay, c), s)
  {
    var prev := Tables(before, ks, lay, n - 1);
    CoreTableAt(prev, ks, lay, n - 1, RunBase(lay, n - 1), EntriesPerPage, Index(c, s));
    if c < n - 1 {
      TablesAt(before, ks, lay, n - 1, c, s);
    } else {
      TablesUnchangedAbove(before, ks, lay, n - 1, Index(c, s));
    }
  }

  /** The build leaves every entry past the last core's table unchanged. */
  lemma {:induction false} TablesUnchangedAbove(before: seq<u32>, ks: seq<PageKind>, lay: PhysLayout, n: nat, k: nat)
    requires Index(n, 0) <= k < |before|
    ensures Tables(before, ks, lay, n)[k] == before[k]
  {
    if n > 0 {
      CoreTableAt(Tables(before, ks, lay, n - 1), ks, lay, n - 1, RunBase(lay, n - 1), EntriesPerPage, k);
      TablesUnchangedAbove(before, ks, lay, n - 1, k);
    }
  }

  /** In the built tables, a shared position's slot of every core holds
      the read-write entry for the shared page of its rank. */
  lemma BuiltSharedSlot(before: seq<u32>, ks: seq<PageKind>, lay: PhysLayout, n: nat, c: nat, j: nat)
    requires Index(n, 0) <= |before| && c < n && PositionSlot(lay, j) < EntriesPerPage
    requires j < |ks| && ks[j] == SharedPage
    ensures Tables(before, ks, lay, n)[Index(c, PositionSlot(lay, j))]
         == MakeEntry(AttribPrivate, PageFrom(lay.sharedBase, CountBefore(ks, j, SharedPage)), AccessReadWrite)
  {
    TablesAt(before, ks, lay, n, c, PositionSlot(lay, j));
    SharedSlotMapping(ks, lay, RunBase(lay, c), PositionSlot(lay, j));
  }

  /** In the built tables, a private position's slot of core `c` holds the
      read-write entry for the page of its rank in core `c`'s private run. */
  lemma BuiltPrivateSlot(before: seq<u32>, ks: seq<PageKind>, lay: PhysLayout, n: nat, c: nat, j: nat)
    requires Index(n, 0) <= |before| && c < n && PositionSlot(lay, j) < EntriesPerPage
    requires j < |ks| && ks[j] == PrivatePage
    ensures Tables(before, ks, lay, n)[Index(c, PositionSlot(lay, j))]
         == MakeEntry(AttribPrivate, PageFrom(RunBase(lay, c), CountBefore(ks, j, PrivatePage)), AccessReadWrite)
  {
    TablesAt(before, ks, lay, n, c, PositionSlot(lay, j));
    PrivateSlotMapping(ks, lay, RunBase(lay, c), PositionSlot(lay, j));
  }

  /** In the built tables, a skipped position's slot keeps what it held
      before the build. */
  lemma BuiltSkippedSlot(before: seq<u32>, ks: seq<PageKind>, lay: PhysLayout, n: nat, c: nat, j: nat)
    requires Index(n, 0) <= |before| && c < n && PositionSlot(lay, j) < EntriesPerPage
    requires j < |ks| && ks[j] == Skipped
    ensures Tables(before, ks, lay, n)[Index(c, PositionSlot(lay, j))] == before[Index(c, PositionSlot(lay, j))]
  {
    var slot := PositionSlot(lay, j);
    TablesAt(before, ks, lay, n, c, slot);
    SkippedSlotMapping(ks, lay, RunBase(lay, c), slot);
    assert SlotAfter(before[Index(c, slot)], ks, lay, RunBase(lay, c), slot) == before[Index(c, slot)];
  }

  /** In the built tables, every slot that is not private holds the same
      entry in every core's table, when the cores' tables started equal
      there. */
  lemma BuiltNonPrivateSlotsAgree(before: seq<u32>, ks: seq<PageKind>, lay: PhysLayout, n: nat, c1: nat, c2: nat,
                                  slot: nat)
    requires Index(n, 0) <= |before| && c1 < n && c2 < n && slot < EntriesPerPage
    requires !PrivateSlot(ks, lay, slot)
    requires before[Index(c1, slot)] == before[Index(c2, slot)]
    ensures Tables(before, ks, lay, n)[Index(c1, slot)] == Tables(before, ks, lay, n)[Index(c2, slot)]
  {
    TablesAt(before, ks, lay, n, c1, slot);
    TablesAt(before, ks, lay, n, c2, slot);
    NonPrivateSlotsAgreeAcrossCores(ks, lay, RunBase(lay, c1), RunBase(lay, c2), slot);
  }

  // ---------------------------------------------------------------------
  // The builder
  // ---------------------------------------------------------------------

  /** write_pages: stores `numPages` consecutive private-attribute entries
      from slot `slot` on, the k-th mapping `paddr + k * 4096`, executable
      for text and read-write for BSS, and returns the slot after them. */
  method WritePages(l2: array<u32>, slot: nat, paddr: u32, numPages: nat, bss: bool) returns (next: nat)
    requires slot + numPages <= l2.Length
    modifies l2
    ensures next == slot + numPages
    ensures l2[..] == Written(old(l2[..]), slot, paddr, numPages, if bss then AccessReadWrite else AccessExecutable)
  {
    var access := AccessExecutable;
    if bss {
      access := AccessReadWrite;
    }
    next := slot;
    var i := 0;
    while i < numPages
      invariant 0 <= i <= numPages && next == slot + i
      invariant l2[..] == Written(old(l2[..]), slot, paddr, i, access)
    {
      var entry := MakeEntry(AttribPrivate, Wrap(paddr + i * 4096), access);
      l2[next] := entry;
      next := next + 1;
      i := i + 1;
    }
  }

  /** The dry run: counts the shared positions and, among the others, the
      positions whose bitmap bit is set. */
  method CountBssPages(h: FwHeader) returns (numShared: nat, numBss: nat)
    requires WellFormed(h) && h.bssBitmapSize <= BitmapCapacity
    ensures numShared == CountBefore(Kinds(h), h.bssBitmapSize, SharedPage)
    ensures numBss == CountBefore(Kinds(h), h.bssBitmapSize, PrivatePage)
    ensures numShared + numBss <= h.bssBitmapSize
  {
    ghost var ks := Kinds(h);
    var i := h.bssStartAddress / 4096;
    numShared, numBss := 0, 0;
    var j := 0;
    while j < h.bssBitmapSize
      invariant 0 <= j <= h.bssBitmapSize
      invariant i == h.bssStartAddress / 4096 + j
      invariant numShared == CountBefore(ks, j, SharedPage)
      invariant numBss == CountBefore(ks, j, PrivatePage)
    {
      KindsAt(h, j);
      var addr := Wrap(i * 4096);
      assert addr == BssPageAddress(h, j);
      if addr >= h.masterRwStartAddress && addr < Wrap(h.masterRwStartAddress + h.masterRwSize) {
        numShared := numShared + 1;
      } else if BitmapBit(h.bssBitmap, j) {
        numBss := numBss + 1;
      }
      i := i + 1;
      j := j + 1;
    }
    CountPartition(ks, j);
  }

  /** One bitmap position of a core's pass: a shared position takes the
      next shared page, a private one the next private page, and a skipped
      one leaves its slot alone; only the cursor that was used advances.
      `ks` is the classification of the positions, of which this step reads
      position `j`. */
  method WritePosition(h: FwHeader, ghost ks: seq<PageKind>, lay: PhysLayout, l2: array<u32>, core: nat,
                       ghost runBase: u32, j: nat, pageIndex: nat, sharedPage: u32, bssPage: u32)
    returns (sharedPageNext: u32, bssPageNext: u32)
    requires WellFormed(h) && h.bssBitmapSize <= BitmapCapacity && ks == Kinds(h) && j < |ks|
    requires pageIndex == h.bssStartAddress / 4096 + j
    requires Index(core, PositionSlot(lay, j)) < l2.Length
    requires sharedPage == PageFrom(lay.sharedBase, CountBefore(ks, j, SharedPage))
    requires bssPage == PageFrom(runBase, CountBefore(ks, j, PrivatePage))
    modifies l2
    ensures sharedPageNext == PageFrom(lay.sharedBase, CountBefore(ks, j + 1, SharedPage))
    ensures bssPageNext == PageFrom(runBase, CountBefore(ks, j + 1, PrivatePage))
    ensures l2[..] == old(l2[..])[Index(core, PositionSlot(lay, j))
                       := SlotAfter(old(l2[Index(core, PositionSlot(lay, j))]), ks, lay, runBase, PositionSlot(lay, j))]
  {
    KindsAt(h, j);
    sharedPageNext, bssPageNext := sharedPage, bssPage;
    var addr := Wrap(pageIndex * 4096);
    assert addr == BssPageAddress(h, j);
    var slot := PositionSlot(lay, j);
    if addr >= h.masterRwStartAddress && addr < Wrap(h.masterRwStartAddress + h.masterRwSize) {
      SharedSlotMapping(ks, lay, runBase, slot);
      var _ := WritePages(l2, Index(core, slot), sharedPage, 1, true);
      PageFromNext(lay.sharedBase, CountBefore(ks, j, SharedPage));
      sharedPageNext := Wrap(sharedPage + PageSize);
    } else if BitmapBit(h.bssBitmap, j) {
      PrivateSlotMapping(ks, lay, runBase, slot);
      var _ := WritePages(l2, Index(core, slot), bssPage, 1, true);
      PageFromNext(runBase, CountBefore(ks, j, PrivatePage));
      bssPageNext := Wrap(bssPage + PageSize);
    } else {
      SkippedSlotMapping(ks, lay, runBase, slot);
    }
  }

  /** One core's pass: the blank slot, the text, then one slot per bitmap
      position with the shared cursor restarted at the shared pool and the
      private cursor continuing from `bssPage`, where the previous core's
      run ended. `ks` is the classification of the positions. */
  method WriteCoreTable(h: FwHeader, ghost ks: seq<PageKind>, lay: PhysLayout, l2: array<u32>, core: nat,
                        bssPage: u32)
    returns (bssPageNext: u32)
    requires WellFormed(h) && h.bssBitmapSize <= BitmapCapacity && ks == Kinds(h)
    requires PositionSlot(lay, |ks|) <= EntriesPerPage && Index(core + 1, 0) <= l2.Length
    requires lay.numBssPages == CountBefore(ks, |ks|, PrivatePage)
    modifies l2
    ensures bssPageNext == PageFrom(bssPage, lay.numBssPages)
    ensures l2[..] == CoreTable(old(l2[..]), ks, lay, core, bssPage, EntriesPerPage)
  {
    ghost var before := l2[..];
    var _ := WritePages(l2, Index(core, 1), lay.dataStart, lay.textPages, false);
    TextIsCoreTable(before, ks, lay, core, bssPage);
    bssPageNext := WritePositions(h, ks, lay, l2, core, bssPage, before);
    CoreTableBeyond(before, ks, lay, core, bssPage, EntriesPerPage);
  }

  /** The bitmap positions of one core's pass, slot after slot, on a table
      whose blank slot and text are already written. */
  method WritePositions(h: FwHeader, ghost ks: seq<PageKind>, lay: PhysLayout, l2: array<u32>, core: nat,
                        bssPage: u32, ghost before: seq<u32>)
    returns (bssPageNext: u32)
    requires WellFormed(h) && h.bssBitmapSize <= BitmapCapacity && ks == Kinds(h)
    requires PositionSlot(lay, |ks|) <= EntriesPerPage && Index(core + 1, 0) <= l2.Length == |before|
    requires l2[..] == CoreTable(before, ks, lay, core, bssPage, PositionSlot(lay, 0))
    modifies l2
    ensures bssPageNext == PageFrom(bssPage, CountBefore(ks, |ks|, PrivatePage))
    ensures l2[..] == CoreTable(before, ks, lay, core, bssPage, PositionSlot(lay, |ks|))
  {
    var pageIndex := h.bssStartAddress / 4096;
    var sharedPage := lay.sharedBase;
    var l2page := Index(core, PositionSlot(lay, 0));
    bssPageNext := bssPage;
    var j := 0;
    while j < h.bssBitmapSize
      invariant 0 <= j <= h.bssBitmapSize
      invariant l2page == Index(core, PositionSlot(lay, j))
      invariant pageIndex == h.bssStartAddress / 4096 + j
      invariant sharedPage == PageFrom(lay.sharedBase, CountBefore(ks, j, SharedPage))
      invariant bssPageNext == PageFrom(bssPage, CountBefore(ks, j, PrivatePage))
      invariant l2[..] == CoreTable(before, ks, lay, core, bssPage, PositionSlot(lay, j))
    {
      sharedPage, bssPageNext := WritePosition(h, ks, lay, l2, core, bssPage, j, pageIndex, sharedPage, bssPageNext);
      CoreTableStep(before, ks, lay, core, bssPage, PositionSlot(lay, j));
      assert PositionSlot(lay, j) + 1 == PositionSlot(lay, j + 1);
      pageIndex := pageIndex + 1;
      l2page := l2page + 1;
      j := j + 1;
    }
    assert j == |ks|;
  }

  /** fill_l2pages: copies the protocol version into the descriptor and
      writes the tables of cores `0 .. ncores-1` as `Tables` says; every
      slot of those tables ends up as `SlotAfter` says (`TablesAt`) and
      nothing after them changes (`TablesUnchangedAbove`). */
  method FillL2Pages(image: seq<byte>, fwPhys: u32, fwSize: nat, l2: array<u32>, ncores: nat,
                     desc: SecureDescriptor)
    requires |image| >= HeaderSize && Buildable(ParseHeader(image[..HeaderSize]))
    requires ncores * 1024 <= l2.Length
    modifies l2, desc
    ensures desc.major == ParseHeader(image[..HeaderSize]).protocolMajor
    ensures desc.minor == ParseHeader(image[..HeaderSize]).protocolMinor
    ensures desc.l2pages == old(desc.l2pages)
    ensures l2[..] == Tables(old(l2[..]), Kinds(ParseHeader(image[..HeaderSize])),
                             Layout(ParseHeader(image[..HeaderSize]), fwPhys, fwSize), ncores)
  {
    var h := ParseHeader(image[..HeaderSize]);
    desc.major := h.protocolMajor;
    desc.minor := h.protocolMinor;

    var numPages := (fwSize + PageSize - 1) / 4096;
    var numTextPages := Wrap(h.textLength + PageSize - 1) / 4096;
    var numShared, numBss := CountBssPages(h);

    var dataStart := fwPhys;
    var sharedPages := Wrap(dataStart + Wrap(numPages * 4096));
    var bssPage := Wrap(sharedPages + Wrap(numShared * 4096));
    var lay := PhysLayout(numTextPages, dataStart, sharedPages, bssPage, numShared, numBss);
    assert lay == Layout(h, fwPhys, fwSize);
    ghost var ks := Kinds(h);

    ghost var before := l2[..];
    var i := 0;
    while i < ncores
      invariant 0 <= i <= ncores
      invariant desc.major == h.protocolMajor && desc.minor == h.protocolMinor
      invariant desc.l2pages == old(desc.l2pages)
      invariant bssPage == RunBase(lay, i)
      invariant l2[..] == Tables(before, ks, lay, i)
    {
      bssPage := WriteCoreTable(h, ks, lay, l2, i, bssPage);
      RunBaseNext(lay, i);
      i := i + 1;
    }
  }
}
