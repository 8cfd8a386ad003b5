/** Choosing a place for the initrd in the edited map, and handing the map to Linux. */
module Initrd {
  import opened Words
  import opened Bytes
  import opened MemoryMap
  import opened LoaderHeap
  import opened MapEdit
  import opened HideMemory

  function PageDown(x: nat): nat { x / PAGE * PAGE }

  function PageUp(x: nat): nat { (x + PAGE - 1) / PAGE * PAGE }

  // ----- the search

  /** The regions get_highest_sized_ram may choose from. */
  predicate Fits(e: Entry, size: nat, limit: nat) {
    e.typ == AVAILABLE && End(e) <= limit && size <= e.len
  }

  /** `base` is the greatest base of a fitting region, and `length` that region's length;
      0 stands for none.  This is the exhaustive search. */
  ghost predicate IsHighest(es: seq<Entry>, size: nat, limit: nat, base: nat, length: nat) {
    && (forall i :: 0 <= i < |es| && Fits(es[i], size, limit) ==> es[i].addr <= base)
    && (base != 0 ==> exists i :: 0 <= i < |es| && Fits(es[i], size, limit) && es[i].addr == base && es[i].len == length)
    && (base == 0 ==> length == 0)
  }

  /** get_highest_sized_ram: stopping at the first region past the limit loses nothing. */
  method GetHighestSizedRam(mem: array<byte>, addr: nat, length: nat, size: nat, limit: nat)
    returns (base: nat, len: nat)
    requires TableIn(mem[..], addr, length) && ValidMap(Table(mem[..], addr, length))
    ensures IsHighest(Table(mem[..], addr, length), size, limit, base, len)
  {
    hide ReadEntry, IsHighest, ValidMap;
    ghost var es := Table(mem[..], addr, length);
    base, len := 0, 0;
    assert IsHighest(es[..0], size, limit, 0, 0) by { EmptySearch(size, limit); }
    for i := 0 to length / ENTRY_SIZE
      invariant IsHighest(es[..i], size, limit, base, len)
    {
      var e := ReadEntry(mem[..], addr + ENTRY_SIZE * i);
      assert e == es[i];
      ExtendSearch(es, i, size, limit, base, len);
      EntryInWidth(es, i);
      if e.typ == AVAILABLE {
        if (e.addr + e.len) % TWO_64 > limit {
          RestIsPast(es, i, size, limit, base, len);
          return;
        }
        if size <= e.len {
          if e.addr > base {
            base, len := e.addr, e.len;
          }
        }
      }
    }
    assert es[..|es|] == es;
  }

  lemma EmptySearch(size: nat, limit: nat)
    ensures IsHighest([], size, limit, 0, 0)
  {
  }

  lemma ExtendSearch(es: seq<Entry>, i: nat, size: nat, limit: nat, base: nat, len: nat)
    requires ValidMap(es) && i < |es| && IsHighest(es[..i], size, limit, base, len)
    ensures !(Fits(es[i], size, limit) && es[i].addr > base) ==> IsHighest(es[..i + 1], size, limit, base, len)
    ensures Fits(es[i], size, limit) && es[i].addr > base ==> IsHighest(es[..i + 1], size, limit, es[i].addr, es[i].len)
  {
    var fs := es[..i + 1];
    assert fs[i] == es[i] && forall k :: 0 <= k < i ==> fs[k] == es[..i][k];
    if base != 0 {
      var k :| 0 <= k < i && Fits(es[..i][k], size, limit) && es[..i][k].addr == base && es[..i][k].len == len;
      assert fs[k] == es[..i][k];
    }
  }

  lemma RestIsPast(es: seq<Entry>, i: nat, size: nat, limit: nat, base: nat, len: nat)
    requires ValidMap(es) && i < |es| && IsHighest(es[..i], size, limit, base, len) && End(es[i]) > limit
    ensures IsHighest(es, size, limit, base, len)
  {
    forall k | i <= k < |es| ensures !Fits(es[k], size, limit) {
      if i < k {
        assert End(es[i]) <= es[k].addr;
      }
    }
    assert forall k :: 0 <= k < i ==> es[..i][k] == es[k];
    if base != 0 {
      var k :| 0 <= k < i && Fits(es[..i][k], size, limit) && es[..i][k].addr == base && es[..i][k].len == len;
      assert es[k] == es[..i][k];
    }
  }

  // ----- the place

  /** As high in the region as page alignment allows. */
  function TopPlace(base: nat, len: nat, size: nat): nat
    requires size <= base + len
  {
    PageDown(base + len - size) % TWO_32
  }

  /** The place is lowered if it ends above what the kernel's header allows. */
  predicate Lowered(place: nat, size: nat, addrMax: nat) { (place + size) % TWO_32 > addrMax }

  /** The lowered place is computed in 32 bits, and wraps if the initrd is longer than what
      the header allows. */
  function FinalPlace(base: nat, len: nat, size: nat, addrMax: nat): nat
    requires size <= base + len
  {
    if Lowered(TopPlace(base, len, size), size, addrMax) then PageDown((addrMax - size) % TWO_32) else TopPlace(base, len, size)
  }

  lemma PageBounds(x: nat, b: nat)
    ensures PageDown(x) <= x < PageDown(x) + PAGE && b <= PageUp(b) < b + PAGE
    ensures b <= PageDown(x) <==> PageUp(b) <= x
  {
  }

  /** A place chosen in a fitting region stays in it exactly when the region still has room
      after its base is rounded up to a page. */
  lemma InsideExactlyWhenRoom(e: Entry, size: nat)
    requires 0 < size && Fits(e, size, TWO_32)
    ensures var place := TopPlace(e.addr, e.len, size);
            && place % 4096 == 0 && place + size <= End(e) < place + size + 4096
            && (e.addr <= place <==> PageUp(e.addr) + size <= End(e))
  {
    hide PageDown, PageUp;
    PageBounds(End(e) - size, e.addr);
    PageDownAligned(End(e) - size);
    Unwrapped(PageDown(End(e) - size));
  }

  lemma PageDownAligned(x: nat)
    ensures PageDown(x) % 4096 == 0
  {
    MultipleOf(x / PAGE, PAGE);
  }

  /** A lowered place is the highest page from which the initrd ends within the maximum. */
  lemma LoweredIsHighest(base: nat, len: nat, size: nat, addrMax: nat)
    requires size <= base + len && size <= addrMax < TWO_32 && Lowered(TopPlace(base, len, size), size, addrMax)
    ensures var place := FinalPlace(base, len, size, addrMax);
            place % 4096 == 0 && place + size <= addrMax < place + size + 4096
  {
    hide PageDown, Lowered, TopPlace;
    Unwrapped(addrMax - size);
    PageBounds(addrMax - size, 0);
    PageDownAligned(addrMax - size);
  }

  /** The place in full: the highest page the region has room from, if it respects the maximum
      or ends at 4 GB, and otherwise the highest page the maximum has room from. */
  lemma PlaceMeaning(e: Entry, size: nat, addrMax: nat)
    requires 0 < size && Fits(e, size, TWO_32) && addrMax < TWO_32
    ensures exists top: nat ::
              && top % 4096 == 0 && top + size <= End(e) < top + size + 4096
              && var place := FinalPlace(e.addr, e.len, size, addrMax);
                 if top + size <= addrMax || top + size == 0x1_0000_0000 then place == top
                 else if size <= addrMax then place % 4096 == 0 && place + size <= addrMax < place + size + 4096
                 else place % 4096 == 0
  {
    var top := TopPlace(e.addr, e.len, size);
    InsideExactlyWhenRoom(e, size);
    hide TopPlace, PageDown;
    LoweredPlainly(top, size, addrMax);
    if top + size > addrMax && top + size != TWO_32 {
      if size <= addrMax {
        LoweredIsHighest(e.addr, e.len, size, addrMax);
      } else {
        PageDownAligned((addrMax - size) % TWO_32);
      }
    }
  }

  lemma LoweredPlainly(top: nat, size: nat, addrMax: nat)
    requires top + size <= TWO_32
    ensures Lowered(top, size, addrMax) <==> top + size > addrMax && top + size != TWO_32
  {
    if top + size < TWO_32 {
      Unwrapped(top + size);
    }
  }

  /** A map with one region of nearly 2 GB, the maximum of a 32-bit kernel and a 16 MB initrd:
      the place is lowered. */
  lemma UsualKernelIsServed()
    ensures var es := [Entry(SIZE_FIELD, 0x10_0000, 0x7FF0_0000, AVAILABLE)];
            var hdr := SetupHeader(0, 0x100_0000, 0x37FF_FFFF, true, 0x100_0000);
            ValidMap(es) && InitrdPlace(es, hdr, 0x100_0000) == Some(0x36FF_F000)
  {
    OneRegion(Entry(SIZE_FIELD, 0x10_0000, 0x7FF0_0000, AVAILABLE), SetupHeader(0, 0x100_0000, 0x37FF_FFFF, true, 0x100_0000), 0x100_0000);
  }

  /** A page-aligned region always has room. */
  lemma AlignedHasRoom(e: Entry, size: nat)
    requires e.addr % PAGE == 0 && size <= e.len
    ensures PageUp(e.addr) + size <= End(e)
  {
  }

  /** An unaligned region can be left: one byte more than a page, starting at its middle. */
  lemma UnalignedRegionIsLeft()
    ensures var e := Entry(SIZE_FIELD, 0x10_0800, 0x1001, AVAILABLE);
            Fits(e, 0x1001, TWO_32) && TopPlace(e.addr, e.len, 0x1001) < e.addr
  {
  }

  /** Nothing placed in an AVAILABLE entry of the edited map touches the hidden range. */
  lemma PlacedAvoidsHidden(es: seq<Entry>, h: nat, s: nat, i: nat, place: nat, size: nat)
    requires ValidMap(es) && ValidRange(h, s) && Edit(es, h, s).Some? && 0 < size
    requires forall k :: 0 <= k < |es| && Meets(es[k], h, s) ==> es[k].addr <= h
    requires i < |Edit(es, h, s).value| && Edit(es, h, s).value[i].typ == AVAILABLE
    requires Edit(es, h, s).value[i].addr <= place && place + size <= End(Edit(es, h, s).value[i])
    ensures Apart(place, size, h, s)
  {
    hide Edit, Meets;
    HiddenIsNotOffered(es, h, s);
    var out := Edit(es, h, s).value;
    if !Apart(place, size, h, s) {
      var x := if place < h then h else place;
      TypeOfCovered(out, i, x);
    }
  }

  // ----- placing the initrd

  /** The fields of the kernel's setup header that matter here. */
  datatype SetupHeader = SetupHeader(cmdlineSize: nat, initSize: nat, initrdAddrMax: nat,
                                     relocatable: bool, protectedModeBase: nat)

  const BOOT_PARAMS_SIZE: nat := 4096

  /** The highest region for the initrd; one that begins at 0 is not taken. */
  ghost predicate Chosen(es: seq<Entry>, e: Entry, size: nat) {
    e in es && e.addr != 0 && Fits(e, size, TWO_32) && IsHighest(es, size, TWO_32, e.addr, e.len)
  }

  /** PAGE_ALIGN_4K in 32 bits. */
  function PageAlign(x: nat): nat { (x + PAGE - 1) % TWO_32 / PAGE * PAGE }

  function KernelEnd(hdr: SetupHeader): nat {
    (hdr.protectedModeBase + PageAlign(PageAlign(hdr.initSize))) % TWO_32
  }

  /** Where the initrd goes, by exhaustive search; None is a refusal. */
  ghost function InitrdPlace(es: seq<Entry>, hdr: SetupHeader, size: nat): Option<nat>
  {
    if exists e :: Chosen(es, e, size) then
      var e :| Chosen(es, e, size);
      var place := FinalPlace(e.addr, e.len, size, hdr.initrdAddrMax);
      if hdr.relocatable && KernelEnd(hdr) <= place then Some(place) else None
    else None
  }

  /** Regions with room for something and the same base are the same region. */
  lemma OneChosen(es: seq<Entry>, e: Entry, f: Entry, size: nat)
    requires ValidMap(es) && 0 < size && Chosen(es, e, size) && Chosen(es, f, size)
    ensures e == f
  {
    var i :| 0 <= i < |es| && es[i] == e;
    var j :| 0 <= j < |es| && es[j] == f;
    assert forall a, b :: 0 <= a < b < |es| && es[a].len > 0 ==> es[a].addr < es[b].addr;
  }

  lemma PlaceOfChosen(es: seq<Entry>, e: Entry, hdr: SetupHeader, size: nat)
    requires ValidMap(es) && 0 < size && hdr.initrdAddrMax < TWO_32 && Chosen(es, e, size)
    ensures var place := FinalPlace(e.addr, e.len, size, hdr.initrdAddrMax);
            && (size <= hdr.initrdAddrMax ==> place + size <= TWO_32)
            && InitrdPlace(es, hdr, size) == if hdr.relocatable && KernelEnd(hdr) <= place then Some(place) else None
  {
    hide PageDown, KernelEnd, TopPlace, ValidMap, IsHighest;
    forall f | Chosen(es, f, size) ensures f == e {
      OneChosen(es, e, f, size);
    }
    InsideExactlyWhenRoom(e, size);
    PageBounds((hdr.initrdAddrMax - size) % TWO_32, 0);
  }

  lemma SearchResult(es: seq<Entry>, hdr: SetupHeader, size: nat, base: nat, len: nat) returns (e: Entry)
    requires 0 < size && IsHighest(es, size, TWO_32, base, len)
    ensures base != 0 ==> Chosen(es, e, size) && e.addr == base && e.len == len >= size
    ensures base == 0 ==> InitrdPlace(es, hdr, size) == None
  {
    hide FinalPlace, KernelEnd;
    if base != 0 {
      var i :| 0 <= i < |es| && Fits(es[i], size, TWO_32) && es[i].addr == base && es[i].len == len;
      e := es[i];
    } else {
      e := Entry(0, 0, 0, 0);
      forall f | f in es && f.addr != 0 ensures !Fits(f, size, TWO_32) {
        var i :| 0 <= i < |es| && es[i] == f;
      }
    }
  }

  /** The search and the checks of expand_linux_image, with no memory changed. */
  method ChoosePlace(mem: array<byte>, addr: nat, length: nat, hdr: SetupHeader, size: nat) returns (place: Option<nat>)
    requires TableIn(mem[..], addr, length) && ValidMap(Table(mem[..], addr, length))
    requires 0 < size && hdr.initrdAddrMax < TWO_32
    ensures place == InitrdPlace(Table(mem[..], addr, length), hdr, size)
    ensures place.Some? && size <= hdr.initrdAddrMax ==> place.value + size <= TWO_32
  {
    hide TableAt, PageDown, TopPlace, KernelEnd, ValidMap, InitrdPlace, IsHighest, Chosen;
    ghost var es := Table(mem[..], addr, length);
    var base, len := GetHighestSizedRam(mem, addr, length, size, TWO_32);
    ghost var e := SearchResult(es, hdr, size, base, len);
    if base == 0 {
      return None;
    }
    if len == 0 {
      return None;
    }
    PlaceOfChosen(es, e, hdr, size);
    var initrdBase := TopPlace(base, len, size);
    if Lowered(initrdBase, size, hdr.initrdAddrMax) {
      initrdBase := PageDown((hdr.initrdAddrMax - size) % TWO_32);
    }
    if !hdr.relocatable {
      return None;
    }
    if KernelEnd(hdr) > initrdBase {
      return None;
    }
    place := Some(initrdBase);
  }

  /** Outside [lo, hi) and the initrd's place memory is unchanged, unless the initrd is put
      across the end of the address space. */
  ghost predicate KeptAround(m: seq<byte>, m': seq<byte>, lo: nat, hi: nat, place: Option<nat>, size: nat) {
    && |m| == |m'|
    && (place.None? || place.value + size <= |m| ==>
          forall k ::
            && 0 <= k < |m| && !(lo <= k < hi) && (place.Some? ==> !(place.value <= k < place.value + size))
            ==> m'[k] == m[k])
  }

  /** The part of expand_linux_image that allocates the boot parameters, places the initrd
      and copies it.  A place that was lowered below 0 can end past 4 GB; what such a copy
      leaves is not promised. */
  method PlaceInitrd(heap: MemoryManager, mbi: MultibootInfo, hdr: SetupHeader, initrd: seq<byte>)
    returns (place: Option<nat>)
    requires heap.Valid() && heap.mem.Length == TWO_32
    requires 0 < |initrd| && hdr.initrdAddrMax < TWO_32
    requires TableIn(heap.mem[..], mbi.mmapAddr, mbi.mmapLength)
    requires ValidMap(Table(heap.mem[..], mbi.mmapAddr, mbi.mmapLength))
    requires Apart(mbi.mmapAddr, mbi.mmapLength, heap.heapCurrent, heap.heapTops - heap.heapCurrent)
    requires NoWrap(heap.View(), ByteRequest(BOOT_PARAMS_SIZE + hdr.cmdlineSize))
    modifies heap, heap.mem
    ensures heap.Valid()
    ensures place == if Granted(old(heap.View()), ByteRequest(BOOT_PARAMS_SIZE + hdr.cmdlineSize))
                     then InitrdPlace(Table(old(heap.mem[..]), mbi.mmapAddr, mbi.mmapLength), hdr, |initrd|) else None
    ensures place.Some? && |initrd| <= hdr.initrdAddrMax ==> place.value + |initrd| <= TWO_32
    ensures place.Some? && place.value + |initrd| <= TWO_32 ==> heap.mem[..][place.value..place.value + |initrd|] == initrd
    ensures KeptAround(old(heap.mem[..]), heap.mem[..], old(heap.heapCurrent), heap.heapTops, place, |initrd|)
    ensures heap.heapTops == old(heap.heapTops)
  {
    hide Splice, TableAt, Zeros, InitrdPlace, Granted, ValidMap, Next;
    ghost var m := heap.mem[..];
    GrantFacts(heap.View(), ByteRequest(BOOT_PARAMS_SIZE + hdr.cmdlineSize));
    var params := heap.AllocateMemory(BOOT_PARAMS_SIZE + hdr.cmdlineSize);
    if params == 0 {
      return None;
    }
    TableUnder(m, params, Zeros(BOOT_PARAMS_SIZE + hdr.cmdlineSize), mbi.mmapAddr, mbi.mmapLength);
    place := ChoosePlace(heap.mem, mbi.mmapAddr, mbi.mmapLength, hdr, |initrd|);
    if place.Some? && place.value + |initrd| <= heap.mem.Length {
      CopyIn(heap.mem, place.value, initrd);
    }
  }

  lemma PlaceIsPage(base: nat, len: nat, size: nat, addrMax: nat)
    requires size <= base + len
    ensures FinalPlace(base, len, size, addrMax) <= TWO_32 - PAGE
  {
    hide PageDown;
    PageOfWord((base + len - size) / PAGE);
    WordPage((addrMax - size) % TWO_32);
    assert PageDown(base + len - size) == (base + len - size) / PAGE * PAGE by { PageDownIs(base + len - size); }
  }

  lemma PageDownIs(x: nat)
    ensures PageDown(x) == x / PAGE * PAGE
  {
  }

  lemma PageOfWord(q: nat)
    ensures q * PAGE % TWO_32 <= TWO_32 - PAGE
  {
    var pages := TWO_32 / PAGE;
    assert q * PAGE == q / pages * TWO_32 + q % pages * PAGE;
    Remainder(q / pages, q % pages * PAGE, TWO_32);
  }

  lemma WordPage(x: nat)
    requires x < TWO_32
    ensures PageDown(x) <= TWO_32 - PAGE
  {
  }

  /** The end of the kernel's memory, as the code computes it, is right or wraps. */
  lemma KernelEndFacts(hdr: SetupHeader)
    requires hdr.protectedModeBase < TWO_32 && hdr.initSize < TWO_32
    ensures hdr.initSize <= PageUp(hdr.initSize) < hdr.initSize + PAGE
    ensures hdr.protectedModeBase + PageUp(hdr.initSize) < TWO_32 ==>
              KernelEnd(hdr) == hdr.protectedModeBase + PageUp(hdr.initSize)
  {
    hide PageAlign, PageUp;
    PageUpFacts(hdr.initSize);
    if hdr.protectedModeBase + PageUp(hdr.initSize) < TWO_32 {
      PageUpFacts(PageUp(hdr.initSize));
    }
  }

  lemma PageUpFacts(x: nat)
    requires x < TWO_32
    ensures x <= PageUp(x) < x + PAGE && PageUp(x) % PAGE == 0
    ensures PageUp(x) < TWO_32 ==> PageAlign(x) == PageUp(x)
    ensures x % PAGE == 0 ==> PageUp(x) == x
  {
  }

  /** A placed initrd lies past the kernel it is for exactly when the end of the kernel's
      memory, in pages, is below 4 GB. */
  lemma KernelBelowExactlyWhen(es: seq<Entry>, hdr: SetupHeader, size: nat)
    requires InitrdPlace(es, hdr, size).Some? && hdr.protectedModeBase < TWO_32 && hdr.initSize < TWO_32
    ensures hdr.protectedModeBase + hdr.initSize <= InitrdPlace(es, hdr, size).value
            <==> hdr.protectedModeBase + PageUp(hdr.initSize) < TWO_32
  {
    hide FinalPlace, KernelEnd, PageUp, IsHighest;
    var place := InitrdPlace(es, hdr, size).value;
    KernelEndFacts(hdr);
    var e :| Chosen(es, e, size) && place == FinalPlace(e.addr, e.len, size, hdr.initrdAddrMax);
    PlaceIsPage(e.addr, e.len, size, hdr.initrdAddrMax);
  }

  /** Nothing but the kernel stands in the way of a place: a relocatable kernel whose memory
      ends below 4 GB is refused exactly when its pages reach past the place, and one that is
      not relocatable always. */
  lemma PlacedExactlyWhenKernelFits(es: seq<Entry>, e: Entry, hdr: SetupHeader, size: nat)
    requires ValidMap(es) && 0 < size && hdr.initrdAddrMax < TWO_32 && Chosen(es, e, size)
    requires hdr.protectedModeBase + PageUp(hdr.initSize) < TWO_32
    ensures InitrdPlace(es, hdr, size)
            == if hdr.relocatable && hdr.protectedModeBase + PageUp(hdr.initSize) <= FinalPlace(e.addr, e.len, size, hdr.initrdAddrMax)
               then Some(FinalPlace(e.addr, e.len, size, hdr.initrdAddrMax)) else None
  {
    hide FinalPlace, KernelEnd, InitrdPlace, Chosen;
    KernelEndFacts(hdr);
    PlaceOfChosen(es, e, hdr, size);
  }

  /** Without a region there is no place. */
  lemma NoRegionNoPlace(es: seq<Entry>, hdr: SetupHeader, size: nat)
    requires forall i :: 0 <= i < |es| && es[i].typ == 1 && es[i].addr != 0 && size <= es[i].len ==> End(es[i]) > 0x1_0000_0000
    ensures InitrdPlace(es, hdr, size) == None
  {
    hide FinalPlace, KernelEnd;
    forall e | e in es ensures !Chosen(es, e, size) {
      var i :| 0 <= i < |es| && es[i] == e;
    }
  }

  /** What a map of one region leads to. */
  lemma OneRegion(e: Entry, hdr: SetupHeader, size: nat)
    requires ValidMap([e]) && 0 < size && hdr.initrdAddrMax < TWO_32 && e.addr != 0 && Fits(e, size, TWO_32)
    ensures var place := FinalPlace(e.addr, e.len, size, hdr.initrdAddrMax);
            InitrdPlace([e], hdr, size) == if hdr.relocatable && KernelEnd(hdr) <= place then Some(place) else None
  {
    hide FinalPlace, KernelEnd;
    assert [e][0] == e;
    assert Chosen([e], e, size);
    PlaceOfChosen([e], e, hdr, size);
  }

  /** A kernel that claims nearly 4 GB gets the initrd put into its memory. */
  lemma InitrdInKernel()
    ensures var es := [Entry(SIZE_FIELD, 0x10_0000, 0x7FF0_0000, AVAILABLE)];
            var hdr := SetupHeader(0, 0xFF00_0000, 0xFFFF_FFFF, true, 0x100_0000);
            && ValidMap(es) && InitrdPlace(es, hdr, 0x1000) == Some(0x7FFF_F000)
            && hdr.protectedModeBase <= 0x7FFF_F000 < hdr.protectedModeBase + hdr.initSize
  {
    OneRegion(Entry(SIZE_FIELD, 0x10_0000, 0x7FF0_0000, AVAILABLE), SetupHeader(0, 0xFF00_0000, 0xFFFF_FFFF, true, 0x100_0000), 0x1000);
  }

  /** The initrd ends where the kernel's header allows, except when it is longer than that
      itself, or when it would end exactly at 4 GB: then the 32-bit sum that is compared is 0
      and the place is not lowered. */
  lemma MaxRespectedExactlyWhen(es: seq<Entry>, e: Entry, hdr: SetupHeader, size: nat)
    requires ValidMap(es) && 0 < size && hdr.initrdAddrMax < TWO_32 && Chosen(es, e, size)
    ensures FinalPlace(e.addr, e.len, size, hdr.initrdAddrMax) + size <= hdr.initrdAddrMax
            <==> size <= hdr.initrdAddrMax && TopPlace(e.addr, e.len, size) + size != TWO_32
  {
    hide PageDown, TopPlace;
    InsideExactlyWhenRoom(e, size);
    PageBounds((hdr.initrdAddrMax - size) % TWO_32, 0);
  }

  /** A region that ends at 4 GB takes the initrd past what the header allows. */
  lemma MaxExceeded()
    ensures var es := [Entry(SIZE_FIELD, 0x10_0000, 0xFFF0_0000, AVAILABLE)];
            var hdr := SetupHeader(0, 0x100_0000, 0x37FF_FFFF, true, 0x100_0000);
            ValidMap(es) && InitrdPlace(es, hdr, 0x1000) == Some(0xFFFF_F000)
  {
    OneRegion(Entry(SIZE_FIELD, 0x10_0000, 0xFFF0_0000, AVAILABLE), SetupHeader(0, 0x100_0000, 0x37FF_FFFF, true, 0x100_0000), 0x1000);
  }

  // ----- end to end

  /** If hiding succeeded on a range that does not begin below an entry it meets, and the
      place was not lowered and the chosen region had room after rounding up to a page, the
      initrd lies in one AVAILABLE entry of the edited map, apart from the hidden range. */
  lemma InitrdSafety(es: seq<Entry>, h: nat, s: nat, hdr: SetupHeader, size: nat, e: Entry)
    requires ValidMap(es) && ValidRange(h, s) && Edit(es, h, s).Some?
    requires forall k :: 0 <= k < |es| && Meets(es[k], h, s) ==> es[k].addr <= h
    requires 0 < size && Chosen(Edit(es, h, s).value, e, size)
    requires InitrdPlace(Edit(es, h, s).value, hdr, size).Some?
    requires PageUp(e.addr) + size <= End(e) && !Lowered(TopPlace(e.addr, e.len, size), size, hdr.initrdAddrMax)
    ensures var place := InitrdPlace(Edit(es, h, s).value, hdr, size).value;
            && e in Edit(es, h, s).value && e.typ == AVAILABLE
            && e.addr <= place && place + size <= End(e)
            && Apart(place, size, h, s)
  {
    hide Edit, Meets, PageDown, TopPlace, PageUp;
    var out := Edit(es, h, s).value;
    HiddenIsNotOffered(es, h, s);
    var f :| Chosen(out, f, size) && InitrdPlace(out, hdr, size).value == FinalPlace(f.addr, f.len, size, hdr.initrdAddrMax);
    OneChosen(out, e, f, size);
    InsideExactlyWhenRoom(e, size);
    var i :| 0 <= i < |out| && out[i] == e;
    PlacedAvoidsHidden(es, h, s, i, InitrdPlace(out, hdr, size).value, size);
  }

  /** What load_primary_guest_kernel comes to, for a map of `es` in `length` bytes: whether
      the range was hidden, and where the initrd goes.  The result of hiding is not looked
      at. */
  ghost function Launch(heap: Heap, flags: nat, length: nat, es: seq<Entry>, h: nat, s: nat, hdr: SetupHeader, size: nat)
    : (bool, Option<nat>)
  {
    var room := ByteRequest(length + 2 * ENTRY_SIZE);
    var after := if HasMap(flags) then Next(heap, room).0 else heap;
    var hidden := HasMap(flags) && Granted(heap, room) && Edit(es, h, s).Some?;
    (hidden,
     if Granted(after, ByteRequest(BOOT_PARAMS_SIZE + hdr.cmdlineSize))
     then InitrdPlace(if hidden then Edit(es, h, s).value else es, hdr, size) else None)
  }

  /** A launch that hides the range, places the initrd without lowering it and takes it from
      a region with room keeps it out of the range. */
  lemma LaunchAvoidsHidden(heap: Heap, flags: nat, length: nat, es: seq<Entry>, h: nat, s: nat, hdr: SetupHeader, size: nat, e: Entry)
    requires ValidMap(es) && ValidRange(h, s) && 0 < size
    requires forall k :: 0 <= k < |es| && Meets(es[k], h, s) ==> es[k].addr <= h
    requires Launch(heap, flags, length, es, h, s, hdr, size).0 && Launch(heap, flags, length, es, h, s, hdr, size).1.Some?
    requires Chosen(Edit(es, h, s).value, e, size)
    requires PageUp(e.addr) + size <= End(e) && !Lowered(TopPlace(e.addr, e.len, size), size, hdr.initrdAddrMax)
    ensures var place := Launch(heap, flags, length, es, h, s, hdr, size).1.value;
            e.addr <= place && place + size <= End(e) && Apart(place, size, h, s)
  {
    hide Edit, Meets, InitrdPlace, Chosen, Granted, Next, TopPlace, PageUp;
    InitrdSafety(es, h, s, hdr, size, e);
  }

  /** The boot parameters take 4096 bytes and the command line's: with less left, nothing is
      placed. */
  lemma BootParamsNeedRoom(heap: Heap, flags: nat, length: nat, es: seq<Entry>, h: nat, s: nat, hdr: SetupHeader, size: nat)
    requires ValidHeap(heap) && heap.tops < heap.current + 4096 + hdr.cmdlineSize
    requires heap.tops + 4096 + hdr.cmdlineSize + length + 2 * ENTRY_SIZE < TWO_32
    ensures Launch(heap, flags, length, es, h, s, hdr, size).1 == None
  {
    hide InitrdPlace, Edit, Granted, Next;
    var room, params := ByteRequest(length + 2 * ENTRY_SIZE), ByteRequest(BOOT_PARAMS_SIZE + hdr.cmdlineSize);
    GrantFacts(heap, room);
    GrantFacts(heap, params);
    GrantFacts(Next(heap, room).0, params);
  }

  /** When hiding fails the initrd can be placed in the memory that was to be hidden.  Here the
      range crosses from one AVAILABLE entry into the next, so hiding fails whatever the
      flags and however much room there is. */
  lemma FailedHidingIsNotNoticed(heap: Heap, flags: nat)
    requires ValidHeap(heap) && heap.current + 0x2000 <= heap.tops
    ensures var es := [Entry(SIZE_FIELD, 0x10_0000, 0x7FA0_0000, AVAILABLE), Entry(SIZE_FIELD, 0x7FB0_0000, 0x50_0000, AVAILABLE)];
            var hdr := SetupHeader(0, 0x100_0000, 0xFFFF_FFFF, true, 0x100_0000);
            && ValidMap(es) && ValidRange(0x7FA0_0000, 0x60_0000)
            && Launch(heap, flags, 48, es, 0x7FA0_0000, 0x60_0000, hdr, 0x1000) == (false, Some(0x7FFF_F000))
            && !Apart(0x7FFF_F000, 0x1000, 0x7FA0_0000, 0x60_0000)
  {
    hide InitrdPlace, Edit, Granted, Next;
    CrossedPlace();
    CrossingFails(Entry(SIZE_FIELD, 0x10_0000, 0x7FA0_0000, AVAILABLE), Entry(SIZE_FIELD, 0x7FB0_0000, 0x50_0000, AVAILABLE),
                  0x7FA0_0000, 0x60_0000);
    BothGranted(heap, flags);
  }

  lemma CrossedPlace()
    ensures var es := [Entry(SIZE_FIELD, 0x10_0000, 0x7FA0_0000, AVAILABLE), Entry(SIZE_FIELD, 0x7FB0_0000, 0x50_0000, AVAILABLE)];
            var hdr := SetupHeader(0, 0x100_0000, 0xFFFF_FFFF, true, 0x100_0000);
            ValidMap(es) && InitrdPlace(es, hdr, 0x1000) == Some(0x7FFF_F000)
  {
    hide InitrdPlace;
    var low, high := Entry(SIZE_FIELD, 0x10_0000, 0x7FA0_0000, AVAILABLE), Entry(SIZE_FIELD, 0x7FB0_0000, 0x50_0000, AVAILABLE);
    var es := [low, high];
    assert es[1] == high && es[0] == low;
    assert Chosen(es, high, 0x1000);
    PlaceOfChosen(es, high, SetupHeader(0, 0x100_0000, 0xFFFF_FFFF, true, 0x100_0000), 0x1000);
  }

  lemma CrossingFails(low: Entry, high: Entry, h: nat, s: nat)
    requires InWidth(low) && ValidRange(h, s) && low.addr <= h < End(low) < h + s
    ensures Edit([low, high], h, s).None?
  {
    hide EditOne;
    assert EditOne(low, h, s).None? by { MeetsPlainly(low, h, s); EndsOutside(low, h, s); }
    EditSingle(low, h, s);
    EditConcat([low], [high], h, s);
    assert [low, high] == [low] + [high];
  }

  lemma EndsOutside(e: Entry, h: nat, s: nat)
    requires Meets(e, h, s) && HideEnd(h, s) > End64(e)
    ensures EditOne(e, h, s).None?
  {
  }

  /** A heap with two pages left has room for a small map and for the boot parameters. */
  lemma BothGranted(heap: Heap, flags: nat)
    requires ValidHeap(heap) && heap.current + 0x2000 <= heap.tops
    ensures var after := if HasMap(flags) then Next(heap, ByteRequest(96)).0 else heap;
            Granted(after, ByteRequest(BOOT_PARAMS_SIZE))
  {
    GrantFacts(heap, ByteRequest(96));
    hide Next, Granted;
    GrantFacts(heap, ByteRequest(BOOT_PARAMS_SIZE));
    if HasMap(flags) {
      GrantFacts(Next(heap, ByteRequest(96)).0, ByteRequest(BOOT_PARAMS_SIZE));
    }
  }

  /** load_primary_guest_kernel up to the placing of the initrd: hide [h, h + s), whatever
      comes of it, then place the initrd by the map as published. */
  method LoadPrimaryGuest(heap: MemoryManager, mbi: MultibootInfo, h: nat, s: nat, hdr: SetupHeader, initrd: seq<byte>)
    returns (hidden: bool, place: Option<nat>)
    requires heap.Valid() && heap.mem.Length == TWO_32 && ValidRange(h, s)
    requires 0 < |initrd| && hdr.initrdAddrMax < TWO_32
    requires TableIn(heap.mem[..], mbi.mmapAddr, mbi.mmapLength)
    requires ValidMap(Table(heap.mem[..], mbi.mmapAddr, mbi.mmapLength))
    requires Apart(mbi.mmapAddr, mbi.mmapLength, heap.heapCurrent, heap.heapTops - heap.heapCurrent)
    requires heap.heapTops + mbi.mmapLength + 2 * ENTRY_SIZE + BOOT_PARAMS_SIZE + hdr.cmdlineSize < TWO_32
    requires var es := Table(heap.mem[..], mbi.mmapAddr, mbi.mmapLength);
             Edit(es, h, s).Some? ==> forall k :: 0 <= k < |es| && Meets(es[k], h, s) ==> es[k].addr <= h
    modifies heap, heap.mem, mbi`mmapAddr, mbi`mmapLength
    ensures (hidden, place) == Launch(old(heap.View()), mbi.flags, old(mbi.mmapLength),
                                      Table(old(heap.mem[..]), old(mbi.mmapAddr), old(mbi.mmapLength)), h, s, hdr, |initrd|)
    ensures place.Some? && |initrd| <= hdr.initrdAddrMax ==> place.value + |initrd| <= TWO_32
    ensures place.Some? && place.value + |initrd| <= TWO_32 ==> heap.mem[..][place.value..place.value + |initrd|] == initrd
    ensures KeptAround(old(heap.mem[..]), heap.mem[..], old(heap.heapCurrent), heap.heapTops, place, |initrd|)
  {
    hide TableAt, Edit, Meets, InitrdPlace, Granted, Next, SameOutside, KeptAround, ValidMap;
    ghost var es := Table(heap.mem[..], mbi.mmapAddr, mbi.mmapLength);
    ghost var m0, low := heap.mem[..], heap.heapCurrent;
    GrantFacts(heap.View(), ByteRequest(mbi.mmapLength + 2 * ENTRY_SIZE));
    hidden := HideRuntimeMemory(heap, mbi, h, s);
    if hidden {
      HiddenIsNotOffered(es, h, s);
    }
    ghost var m1, low1 := heap.mem[..], heap.heapCurrent;
    place := PlaceInitrd(heap, mbi, hdr, initrd);
    KeptTwice(m0, m1, heap.mem[..], low, low1, heap.heapTops, place, |initrd|);
  }

  lemma KeptTwice(m0: seq<byte>, m1: seq<byte>, m2: seq<byte>, lo: nat, lo1: nat, hi: nat, place: Option<nat>, size: nat)
    requires SameOutside(m0, m1, lo, hi) && KeptAround(m1, m2, lo1, hi, place, size) && lo <= lo1
    ensures KeptAround(m0, m2, lo, hi, place, size)
  {
  }
}
