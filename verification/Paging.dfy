/** The 64-bit page tables the loader builds: 2 MB pages over all of 32-bit space. */
module Paging {
  import opened Words
  import opened Bytes
  import opened LoaderHeap
  import opened PageWalk

  /** Present and writable; and with bit 7, mapping a page. */
  const TABLE_FLAGS: nat := 0x3
  const PAGE_FLAGS: nat := 0x83

  // ----- what the tables are to hold

  function RootEntries(pdp: nat): (f: seq<nat>)
    ensures |f| == 512
  {
    NoEntries()[0 := pdp + TABLE_FLAGS]
  }

  function PointerEntries(pds: seq<nat>): (f: seq<nat>)
    ensures |f| == 512 && forall k :: 0 <= k < 512 ==> f[k] == if k < |pds| then pds[k] + TABLE_FLAGS else 0
  {
    seq(512, k => if 0 <= k < |pds| then pds[k] + TABLE_FLAGS else 0)
  }

  /** The first `n` entries of the directory for gigabyte `i`. */
  function DirectoryEntries(i: nat, n: nat): (f: seq<nat>)
    ensures |f| == 512
    ensures forall k :: 0 <= k < 512 ==> f[k] == if k < n then i * PAGE_1G + k * PAGE_2M + PAGE_FLAGS else 0
  {
    seq(512, k => if 0 <= k < n then i * PAGE_1G + k * PAGE_2M + PAGE_FLAGS else 0)
  }

  ghost predicate TablesBuilt(m: seq<byte>, pml4: nat, pdp: nat, pds: seq<nat>) {
    && |pds| == 4 && pml4 < TWO_32 && pdp < TWO_32
    && (forall i :: 0 <= i < 4 ==> pds[i] < TWO_32)
    && Holds(m, pml4, RootEntries(pdp))
    && Holds(m, pdp, PointerEntries(pds))
    && (forall i :: 0 <= i < 4 ==> Holds(m, pds[i], DirectoryEntries(i, 512)))
  }

  // ----- what they mean

  lemma TableEntry(p: nat)
    requires p % PAGE == 0 && p < TWO_32
    ensures var v := p + TABLE_FLAGS; Present(v) && !MapsPage(v) && FrameOf(v, PAGE) == p && Plain(v)
    ensures FrameOf(p, PAGE) == p
  {
    var q := p / PAGE;
    Remainder(2048 * q + 1, 1, 2);
    Remainder(32 * q, 3, 128);
    Remainder(16 * q, 0, 2);
    Remainder(0, p + TABLE_FLAGS, TWO_52);
    Remainder(0, p, TWO_52);
    Remainder(q, TABLE_FLAGS, PAGE);
    PlainFlags(256 * q);
  }

  /** Writable, for the supervisor only, and cached in the ordinary way. */
  predicate Plain(v: nat) { Bit(v, 2) && !Bit(v, 4) && !Bit(v, 8) && !Bit(v, 16) }

  /** The low four bits 3, with bit 4 clear. */
  lemma PlainFlags(q: nat)
    requires q % 2 == 0
    ensures Plain(16 * q + 3)
  {
    var h := q / 2;
    Remainder(8 * q + 1, 1, 2);
    Remainder(4 * q, 1, 2);
    Remainder(4 * q, 3, 4);
    Remainder(2 * q, 0, 2);
    Remainder(2 * q, 3, 8);
    Remainder(q, 0, 2);
    Remainder(q, 3, 16);
    Remainder(h, 0, 2);
  }

  lemma PageEntry(b: nat)
    requires b % PAGE_2M == 0 && b < TWO_32
    ensures var v := b + PAGE_FLAGS; Present(v) && MapsPage(v) && FrameOf(v, PAGE_2M) == b && Plain(v)
  {
    var q := b / PAGE_2M;
    PageEntryFlags(q);
    PageEntryFrame(q);
  }

  lemma PageEntryFlags(q: nat)
    ensures Present(PAGE_2M * q + PAGE_FLAGS) && MapsPage(PAGE_2M * q + PAGE_FLAGS) && Plain(PAGE_2M * q + PAGE_FLAGS)
  {
    Remainder(0x10_0000 * q + 65, 1, 2);
    Remainder(16384 * q + 1, 3, 128);
    Remainder(8192 * q, 1, 2);
    PlainFlags(0x2_0000 * q + 8);
  }

  lemma PageEntryFrame(q: nat)
    requires q < 2048
    ensures FrameOf(PAGE_2M * q + PAGE_FLAGS, PAGE_2M) == PAGE_2M * q
  {
    Remainder(0, PAGE_2M * q + PAGE_FLAGS, TWO_52);
    Remainder(q, PAGE_FLAGS, PAGE_2M);
  }

  /** The parts of a 32-bit linear address. */
  lemma Parts(x: nat)
    requires x < TWO_32
    ensures x / TWO_39 % 512 == 0
    ensures x / PAGE_1G % 512 == x / PAGE_1G < 4
    ensures x == x / PAGE_1G * PAGE_1G + x / PAGE_2M % 512 * PAGE_2M + x % PAGE_2M
  {
  }

  /** Identity paging, below: every 32-bit linear address is its own physical address,
      writable for the supervisor and cached. */
  lemma IdentityBelow(m: seq<byte>, pml4: nat, pdp: nat, pds: seq<nat>, x: nat)
    requires TablesBuilt(m, pml4, pdp, pds) && x < TWO_32
    ensures Walk(m, pml4, x) == Physical(x, Access(true, false, false, false))
  {
    hide EntryOf, Present, MapsPage, FrameOf, Bit;
    var i, j := x / PAGE_1G, x / PAGE_2M % 512;
    Parts(x);
    TableEntry(pml4);
    assert EntryOf(m, pml4, 0) == pdp + TABLE_FLAGS;
    TableEntry(pdp);
    assert EntryOf(m, pdp, i) == pds[i] + TABLE_FLAGS;
    assert Holds(m, pds[i], DirectoryEntries(i, 512));
    TableEntry(pds[i]);
    var b := i * PAGE_1G + j * PAGE_2M;
    assert b % PAGE_2M == 0 && b < TWO_32;
    assert EntryOf(m, pds[i], j) == b + PAGE_FLAGS;
    PageEntry(b);
    PlainAccess(pdp + TABLE_FLAGS, pds[i] + TABLE_FLAGS, b + PAGE_FLAGS);
  }

  lemma PlainAccess(pml4e: nat, pdpte: nat, pde: nat)
    requires Plain(pml4e) && Plain(pdpte) && Plain(pde)
    ensures AccessOf([pml4e, pdpte, pde]) == Access(true, false, false, false)
  {
    hide Bit;
    var used := [pml4e, pdpte, pde];
    assert used[0] in used && forall v :: v in used ==> v == pml4e || v == pdpte || v == pde;
  }

  /** Identity paging, above: the rest of the lower half of linear space is not mapped. */
  lemma NothingAbove(m: seq<byte>, pml4: nat, pdp: nat, pds: seq<nat>, x: nat)
    requires TablesBuilt(m, pml4, pdp, pds) && TWO_32 <= x < TWO_47
    ensures Walk(m, pml4, x) == Fault
  {
    hide EntryOf, MapsPage, FrameOf;
    TableEntry(pml4);
    TableEntry(pdp);
    var top := x / TWO_39 % 512;
    if top == 0 {
      assert EntryOf(m, pml4, 0) == pdp + TABLE_FLAGS;
      var i := x / PAGE_1G % 512;
      assert 4 <= i < 512;
      assert EntryOf(m, pdp, i) == 0;
    } else {
      assert EntryOf(m, pml4, top) == 0;
    }
  }

  lemma IdentityOnly(m: seq<byte>, pml4: nat, pdp: nat, pds: seq<nat>)
    requires TablesBuilt(m, pml4, pdp, pds)
    ensures forall x :: 0 <= x < TWO_32 ==> Walk(m, pml4, x) == Physical(x, Access(true, false, false, false))
    ensures forall x :: TWO_32 <= x < TWO_47 ==> Walk(m, pml4, x) == Fault
  {
    hide TablesBuilt, Walk;
    forall x | 0 <= x < TWO_32 ensures Walk(m, pml4, x) == Physical(x, Access(true, false, false, false)) {
      IdentityBelow(m, pml4, pdp, pds, x);
    }
    forall x | TWO_32 <= x < TWO_47 ensures Walk(m, pml4, x) == Fault {
      NothingAbove(m, pml4, pdp, pds, x);
    }
  }

  // ----- building them

  /** Memory outside the page at `p` is unchanged. */
  ghost predicate OnlyPage(m: seq<byte>, m': seq<byte>, p: nat) {
    SameOutside(m, m', p, p + PAGE)
  }

  /** A page of a stretch is changed, and with it the stretch. */
  lemma PageChanged(m: seq<byte>, m': seq<byte>, m'': seq<byte>, p: nat, lo: nat, hi: nat)
    requires SameOutside(m, m', lo, hi) && OnlyPage(m', m'', p) && lo <= p && p + PAGE <= hi
    ensures SameOutside(m, m'', lo, hi)
  {
    OutsideTwice(m, m', m'', lo, hi, p, p + PAGE);
  }

  lemma OtherPageHolds(m: seq<byte>, m': seq<byte>, p: nat, q: nat, f: seq<nat>)
    requires OnlyPage(m, m', p) && Holds(m, q, f) && Apart(p, PAGE, q, PAGE)
    ensures Holds(m', q, f)
  {
    hide EntryOf;
    assert m[q..q + PAGE] == m'[q..q + PAGE];
    HoldsKept(m, m', q, f);
  }

  /** The inner loop: one directory of 2 MB pages, with a running 32-bit address. */
  method FillDirectory(mem: array<byte>, pd: nat, ghost i: nat, start: nat) returns (address: nat)
    requires i < 4 && start == i * PAGE_1G && Holds(mem[..], pd, NoEntries())
    modifies mem
    ensures Holds(mem[..], pd, DirectoryEntries(i, 512)) && OnlyPage(old(mem[..]), mem[..], pd)
    ensures address == (i + 1) * PAGE_1G % TWO_32
  {
    hide EntryOf, Put;
    ghost var m := mem[..];
    address := start;
    assert NoEntries() == DirectoryEntries(i, 0);
    for j := 0 to 512
      invariant address == (i * PAGE_1G + j * PAGE_2M) % TWO_32
      invariant Holds(mem[..], pd, DirectoryEntries(i, j)) && OnlyPage(m, mem[..], pd)
    {
      var v := address / PAGE_2M * PAGE_2M + PAGE_FLAGS;
      assert v == i * PAGE_1G + j * PAGE_2M + PAGE_FLAGS;
      HoldsWritten(mem[..], pd, DirectoryEntries(i, j), j, v);
      assert DirectoryEntries(i, j)[j := v] == DirectoryEntries(i, j + 1);
      Store(mem, pd + 8 * j, 4, v);
      address := (address + PAGE_2M) % TWO_32;
    }
  }

  /** A zeroed page from the heap; the code then zeroes it again. */
  method FreshTable(heap: MemoryManager) returns (page: nat)
    requires heap.Valid() && heap.heapTops + 2 * PAGE < TWO_32
    modifies heap, heap.mem
    ensures heap.Valid() && heap.heapTops == old(heap.heapTops)
    ensures page == 0 <==> AlignForward(old(heap.heapCurrent)) + PAGE > heap.heapTops
    ensures page == 0 ==> heap.mem[..] == old(heap.mem[..])
    ensures page != 0 ==>
              && page == AlignForward(old(heap.heapCurrent)) >= old(heap.heapCurrent)
              && heap.heapCurrent == page + PAGE <= heap.heapTops
              && Holds(heap.mem[..], page, NoEntries())
              && OnlyPage(old(heap.mem[..]), heap.mem[..], page)
  {
    hide EntryOf, Splice, Next, Granted;
    ghost var m := heap.mem[..];
    AlignFacts(heap.heapCurrent);
    GrantFacts(heap.View(), PageRequest(1));
    page := heap.PageAlloc(1);
    if page != 0 {
      ghost var zeroed := heap.mem[..];
      ZeroFill(heap.mem, page, PAGE);
      HoldsZeros(zeroed, page);
    }
  }

  /** The directories built so far, in pages of the heap in ascending order. */
  ghost predicate DirectoriesBuilt(m: seq<byte>, pdp: nat, pds: seq<nat>, limit: nat) {
    && (forall i :: 0 <= i < |pds| ==>
          && pdp + PAGE <= pds[i] && pds[i] + PAGE <= limit
          && Holds(m, pds[i], DirectoryEntries(i, 512)))
    && (forall i, j :: 0 <= i < j < |pds| ==> pds[i] + PAGE <= pds[j])
  }

  lemma DirectoriesKept(m: seq<byte>, m': seq<byte>, p: nat, pdp: nat, pds: seq<nat>, limit: nat)
    requires DirectoriesBuilt(m, pdp, pds, limit) && OnlyPage(m, m', p) && (p <= pdp || limit <= p)
    ensures DirectoriesBuilt(m', pdp, pds, limit)
  {
    hide Holds;
    forall i | 0 <= i < |pds| ensures Holds(m', pds[i], DirectoryEntries(i, 512)) {
      OtherPageHolds(m, m', p, pds[i], DirectoryEntries(i, 512));
    }
  }

  lemma PutInPage(m: seq<byte>, p: nat, o: nat, v: nat)
    requires o + 4 <= PAGE && p + PAGE <= |m|
    ensures OnlyPage(m, Put(m, p + o, 4, v), p)
  {
    hide LeBytes;
  }

  /** The tables under construction: the pointer table holds `f`, and `pds` are complete. */
  ghost predicate Progress(m: seq<byte>, pml4: nat, pdp: nat, f: seq<nat>, pds: seq<nat>, limit: nat) {
    && pml4 + PAGE == pdp && pdp + PAGE <= limit < TWO_32
    && Holds(m, pml4, RootEntries(pdp)) && Holds(m, pdp, f) && DirectoriesBuilt(m, pdp, pds, limit)
  }

  /** Changes in a later page do no harm. */
  lemma ProgressKept(m: seq<byte>, m': seq<byte>, p: nat, pml4: nat, pdp: nat, f: seq<nat>, pds: seq<nat>, limit: nat)
    requires Progress(m, pml4, pdp, f, pds, limit) && OnlyPage(m, m', p) && limit <= p
    ensures Progress(m', pml4, pdp, f, pds, limit)
  {
    hide Holds, DirectoriesBuilt, OnlyPage;
    OtherPageHolds(m, m', p, pml4, RootEntries(pdp));
    OtherPageHolds(m, m', p, pdp, f);
    DirectoriesKept(m, m', p, pdp, pds, limit);
  }

  /** Writing an entry of the pointer table. */
  lemma ProgressPointer(m: seq<byte>, pml4: nat, pdp: nat, f: seq<nat>, pds: seq<nat>, limit: nat, k: nat, v: nat)
    requires Progress(m, pml4, pdp, f, pds, limit) && k < |f| == 512 && f[k] < TWO_32 && v < TWO_32
    ensures pdp + 8 * k + 4 <= |m| && Progress(Put(m, pdp + 8 * k, 4, v), pml4, pdp, f[k := v], pds, limit)
  {
    hide DirectoriesBuilt, OnlyPage, Put, EntryOf;
    HoldsWritten(m, pdp, f, k, v);
    PutInPage(m, pdp, 8 * k, v);
    OtherPageHolds(m, Put(m, pdp + 8 * k, 4, v), pdp, pml4, RootEntries(pdp));
    DirectoriesKept(m, Put(m, pdp + 8 * k, 4, v), pdp, pdp, pds, limit);
  }

  lemma ProgressGrows(m: seq<byte>, pml4: nat, pdp: nat, f: seq<nat>, pds: seq<nat>, limit: nat, pd: nat)
    requires Progress(m, pml4, pdp, f, pds, limit) && limit <= pd && pd + PAGE < TWO_32
    requires Holds(m, pd, DirectoryEntries(|pds|, 512))
    ensures Progress(m, pml4, pdp, f, pds + [pd], pd + PAGE)
  {
    hide Holds;
  }

  /** The body of the outer loop. */
  method AddDirectory(heap: MemoryManager, pml4: nat, pdp: nat, ghost pds: seq<nat>, i: nat, address: nat)
    returns (pd: nat, next: nat)
    requires heap.Valid() && heap.heapTops + 2 * PAGE < TWO_32 && heap.heapCurrent % PAGE == 0
    requires i == |pds| < 4 && address == i * PAGE_1G
    requires Progress(heap.mem[..], pml4, pdp, PointerEntries(pds), pds, heap.heapCurrent)
    modifies heap, heap.mem
    ensures heap.Valid() && heap.heapTops == old(heap.heapTops)
    ensures pd == 0 <==> old(heap.heapCurrent) + PAGE > heap.heapTops
    ensures pd != 0 ==>
              && heap.heapCurrent == old(heap.heapCurrent) + PAGE
              && next == (i + 1) * PAGE_1G % TWO_32
              && SameOutside(old(heap.mem[..]), heap.mem[..], pml4, heap.heapTops)
              && Progress(heap.mem[..], pml4, pdp, PointerEntries(pds + [pd]), pds + [pd], heap.heapCurrent)
  {
    hide Holds, OnlyPage, SameOutside, Put, Progress, AlignForward;
    ghost var limit := heap.heapCurrent;
    ghost var m0 := heap.mem[..];
    NothingChanged(m0, pml4, heap.heapTops);
    ghost var f := PointerEntries(pds);
    ghost var marked: seq<nat> := f[i := TABLE_FLAGS];
    ProgressPointer(heap.mem[..], pml4, pdp, f, pds, limit, i, TABLE_FLAGS);
    ProgressOrder(m0, pml4, pdp, f, pds, limit);
    PutInPage(m0, pdp, 8 * i, TABLE_FLAGS);
    Store(heap.mem, pdp + 8 * i, 4, TABLE_FLAGS);
    ghost var m1 := heap.mem[..];
    AlignedAlready(heap.heapCurrent);
    pd := FreshTable(heap);
    next := 0;
    if pd == 0 {
      return;
    }
    ProgressKept(m1, heap.mem[..], pd, pml4, pdp, marked, pds, limit);
    ProgressPointer(heap.mem[..], pml4, pdp, marked, pds, limit, i, pd + TABLE_FLAGS);
    ghost var m2 := heap.mem[..];
    ProgressOrder(m2, pml4, pdp, marked, pds, limit);
    PutInPage(m2, pdp, 8 * i, pd + TABLE_FLAGS);
    PageMultiple(pd);
    Store(heap.mem, pdp + 8 * i, 4, pd / PAGE * PAGE + TABLE_FLAGS);
    OtherPageHolds(m2, heap.mem[..], pdp, pd, NoEntries());
    assert marked[i := pd + TABLE_FLAGS] == PointerEntries(pds + [pd]);
    ghost var m3 := heap.mem[..];
    next := FillDirectory(heap.mem, pd, i, address);
    ProgressKept(m3, heap.mem[..], pd, pml4, pdp, PointerEntries(pds + [pd]), pds, limit);
    ProgressGrows(heap.mem[..], pml4, pdp, PointerEntries(pds + [pd]), pds, limit, pd);
    PageChanged(m0, m0, m1, pdp, pml4, heap.heapTops);
    PageChanged(m0, m1, m2, pd, pml4, heap.heapTops);
    PageChanged(m0, m2, m3, pdp, pml4, heap.heapTops);
    PageChanged(m0, m3, heap.mem[..], pd, pml4, heap.heapTops);
  }

  lemma ProgressOrder(m: seq<byte>, pml4: nat, pdp: nat, f: seq<nat>, pds: seq<nat>, limit: nat)
    requires Progress(m, pml4, pdp, f, pds, limit)
    ensures pml4 + PAGE == pdp && pdp + PAGE <= limit
  {
  }

  lemma PageMultiple(p: nat)
    requires p % PAGE == 0
    ensures p / PAGE * PAGE == p
  {
  }

  lemma Gigabyte(i: nat)
    requires i < 4
    ensures i * PAGE_1G % TWO_32 == i * PAGE_1G
  {
    Unwrapped(i * PAGE_1G);
  }

  /** x32_pt64_setup_paging and x32_pt64_get_cr3.  A refused page hangs the loader; here it
      is the result `ok == false`. */
  method SetupPaging(heap: MemoryManager) returns (ok: bool, cr3: nat)
    requires heap.Valid() && heap.heapTops + 2 * PAGE < TWO_32
    modifies heap, heap.mem
    ensures heap.Valid() && heap.heapTops == old(heap.heapTops)
    ensures ok <==> AlignForward(old(heap.heapCurrent)) + 6 * PAGE <= heap.heapTops
    ensures ok ==> forall x :: 0 <= x < TWO_32 ==> Walk(heap.mem[..], cr3, x) == Physical(x, Access(true, false, false, false))
    ensures ok ==> forall x :: TWO_32 <= x < TWO_47 ==> Walk(heap.mem[..], cr3, x) == Fault
    ensures ok ==> cr3 % 4096 == 0 && cr3 < TWO_32
    ensures ok ==> SameOutside(old(heap.mem[..]), heap.mem[..], old(heap.heapCurrent), heap.heapTops)
  {
    hide Holds, OnlyPage, SameOutside, Put, Walk, Progress, AlignForward, TablesBuilt;
    ok, cr3 := false, 0;
    ghost var start := heap.mem[..];
    ghost var low := heap.heapCurrent;
    NothingChanged(start, low, heap.heapTops);
    AlignFacts(heap.heapCurrent);
    var pml4 := FreshTable(heap);
    if pml4 == 0 {
      return;
    }
    AlignedAlready(heap.heapCurrent);
    ghost var m0 := heap.mem[..];
    var pdp := FreshTable(heap);
    if pdp == 0 {
      return;
    }
    ghost var m1 := heap.mem[..];
    PageMultiple(pdp);
    Store(heap.mem, pml4, 4, pdp / PAGE * PAGE + TABLE_FLAGS);
    RootWritten(m0, m1, pml4, pdp);
    PutInPage(m1, pml4, 0, pdp + TABLE_FLAGS);
    PageChanged(start, start, m0, pml4, low, heap.heapTops);
    PageChanged(start, m0, m1, pdp, low, heap.heapTops);
    PageChanged(start, m1, heap.mem[..], pml4, low, heap.heapTops);
    ghost var pds: seq<nat> := [];
    var address := 0;
    for i := 0 to 4
      invariant heap.Valid() && heap.heapTops == old(heap.heapTops)
      invariant |pds| == i && address == i * PAGE_1G % TWO_32
      invariant heap.heapCurrent == pml4 + (2 + i) * PAGE
      invariant Progress(heap.mem[..], pml4, pdp, PointerEntries(pds), pds, heap.heapCurrent)
      invariant SameOutside(start, heap.mem[..], low, heap.heapTops)
    {
      var pd;
      ghost var before := heap.mem[..];
      MorePages(pml4, 2 + i);
      Gigabyte(i);
      pd, address := AddDirectory(heap, pml4, pdp, pds, i, address);
      if pd == 0 {
        return;
      }
      OutsideTwice(start, before, heap.mem[..], low, heap.heapTops, pml4, heap.heapTops);
      pds := pds + [pd];
    }
    PageMultiple(pml4);
    ok, cr3 := true, pml4 / PAGE * PAGE;
    ProgressDone(heap.mem[..], pml4, pdp, pds, heap.heapCurrent);
    IdentityOnly(heap.mem[..], pml4, pdp, pds);
  }

  /** The first two tables: PML4 entry 0 names the pointer table, which is still empty. */
  lemma RootWritten(m: seq<byte>, m': seq<byte>, pml4: nat, pdp: nat)
    requires Holds(m, pml4, NoEntries()) && pml4 + PAGE == pdp && pdp + PAGE < TWO_32
    requires OnlyPage(m, m', pdp) && Holds(m', pdp, NoEntries())
    ensures pml4 + 4 <= |m'|
    ensures Progress(Put(m', pml4, 4, pdp + TABLE_FLAGS), pml4, pdp, PointerEntries([]), [], pdp + PAGE)
  {
    hide OnlyPage, Put, EntryOf;
    OtherPageHolds(m, m', pdp, pml4, NoEntries());
    HoldsWritten(m', pml4, NoEntries(), 0, pdp + TABLE_FLAGS);
    PutInPage(m', pml4, 0, pdp + TABLE_FLAGS);
    OtherPageHolds(m', Put(m', pml4, 4, pdp + TABLE_FLAGS), pml4, pdp, NoEntries());
    assert PointerEntries([]) == NoEntries();
  }

  lemma ProgressDone(m: seq<byte>, pml4: nat, pdp: nat, pds: seq<nat>, limit: nat)
    requires Progress(m, pml4, pdp, PointerEntries(pds), pds, limit) && |pds| == 4
    ensures TablesBuilt(m, pml4, pdp, pds)
  {
    hide Holds;
  }
}
