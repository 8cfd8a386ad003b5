/** The other two readers of the memory map: the e820 table built for xmon by striding
    through the multiboot map, and the one handed to Linux by indexing it. */
module MapViews {
  import opened Words
  import opened Bytes
  import opened MemoryMap
  import opened LoaderHeap
  import opened MapEdit
  import opened HideMemory

  /** An e820 table entry; the loader's own table also carries an attribute word, always 1. */
  datatype E820 = E820(addr: nat, size: nat, typ: nat)

  const E820_MAX: nat := 128

  /** get_e820_table_from_multiboot: steps by each entry's own size field.  The flag test is
      the code's: it looks at bits 0 and 1, not at the map's own bit. */
  method BuildE820(heap: MemoryManager, flags: nat, addr: nat, length: nat) returns (ok: bool, table: seq<E820>)
    requires heap.Valid() && NoWrap(heap.View(), PageRequest(1))
    requires TableIn(heap.mem[..], addr, length) && ValidMap(Table(heap.mem[..], addr, length))
    requires Apart(addr, length, heap.heapCurrent, heap.heapTops - heap.heapCurrent)
    modifies heap, heap.mem
    ensures ok <==> flags % 4 != 0 && length <= 4096 && Granted(old(heap.View()), PageRequest(1))
    ensures ok ==>
              var es := Table(old(heap.mem[..]), addr, length);
              |table| == |es| && forall i :: 0 <= i < |es| ==> table[i].addr == es[i].addr && table[i].size == es[i].len && table[i].typ == es[i].typ
    ensures heap.Valid() && SameOutside(old(heap.mem[..]), heap.mem[..], old(heap.heapCurrent), heap.heapTops)
    ensures heap.View() == if flags % 4 != 0 && length <= 4096 then Next(old(heap.View()), PageRequest(1)).0 else old(heap.View())
  {
    hide ReadEntry, ValidMap, Splice, Zeros, Next, Granted, SameOutside;
    NothingChanged(heap.mem[..], heap.heapCurrent, heap.heapTops);
    table := [];
    if flags % 4 == 0 || length > 4096 {
      return false, [];
    }
    ghost var es := Table(heap.mem[..], addr, length);
    GrantFacts(heap.View(), PageRequest(1));
    ghost var m := heap.mem[..];
    var page := heap.PageAlloc(1);
    if page == 0 {
      return false, [];
    }
    TableUnder(m, page, Zeros(PAGE), addr, length);
    ghost var m' := heap.mem[..];
    SpliceOutside(m, page, Zeros(PAGE), old(heap.heapCurrent), heap.heapTops);
    ghost var i := 0;
    var next := addr;
    while next < addr + length
      invariant 0 <= i <= |es| && next == addr + ENTRY_SIZE * i
      invariant |table| == i && forall k :: 0 <= k < i ==> table[k] == E820(es[k].addr, es[k].len, es[k].typ)
      invariant heap.mem[..] == m'
      modifies {}
      decreases |es| - i
    {
      EntryInWidth(es, i);
      var e := ReadEntry(heap.mem[..], next);
      assert e == es[i];
      table := table + [E820(e.addr, e.len, e.typ)];
      next := next + e.size + 4;
      i := i + 1;
    }
    ok := true;
  }

  /** What Linux is told about one entry: bad memory is called reserved. */
  ghost predicate Tells(r: E820, e: Entry) {
    r.addr == e.addr && r.size == e.len && r.typ == if e.typ == 5 then 2 else e.typ
  }

  /** The copying loop of setup_boot_params, into the fixed e820_map of boot_params.  Entries
      past the 128 it has room for are written behind it; that part of boot_params is not
      modelled. */
  method FillBootParams(mem: array<byte>, addr: nat, length: nat, e820: array<E820>) returns (count: nat)
    requires TableIn(mem[..], addr, length) && e820.Length == E820_MAX
    modifies e820
    ensures var es := Table(mem[..], addr, length);
            && count == |es|
            && (forall i :: 0 <= i < count && i < E820_MAX ==> Tells(e820[i], es[i]))
            && (forall i :: count <= i < E820_MAX ==> e820[i] == old(e820[i]))
  {
    hide ReadEntry;
    ghost var es := Table(mem[..], addr, length);
    count := 0;
    while count < length / ENTRY_SIZE
      invariant count <= |es| && mem[..] == old(mem[..])
      invariant forall i :: 0 <= i < count && i < E820_MAX ==> Tells(e820[i], es[i])
      invariant forall i :: count <= i < E820_MAX ==> e820[i] == old(e820[i])
    {
      var e := ReadEntry(mem[..], addr + ENTRY_SIZE * count);
      assert e == es[count];
      var typ := e.typ;
      if typ == BAD {
        typ := RESERVED;
      }
      if count < e820.Length {
        e820[count] := E820(e.addr, e.len, typ);
      }
      count := count + 1;
    }
  }

  /** Linux is told RESERVED for an address the map calls BAD, nothing for one the map does
      not cover, and otherwise exactly what the map says. */
  lemma {:induction false} BootParamsMeaning(es: seq<Entry>, rs: seq<E820>, x: nat)
    requires |rs| == |es| && forall i :: 0 <= i < |es| ==> Tells(rs[i], es[i])
    ensures TypeAt(es, x) == None ==> TypeTold(rs, x) == None
    ensures TypeAt(es, x) == Some(BAD) ==> TypeTold(rs, x) == Some(RESERVED)
    ensures TypeAt(es, x).Some? && TypeAt(es, x) != Some(BAD) ==> TypeTold(rs, x) == TypeAt(es, x)
    decreases |es|
  {
    if es != [] {
      BootParamsMeaning(es[1..], rs[1..], x);
    }
  }

  /** The type an e820 table gives to address `x`. */
  function TypeTold(rs: seq<E820>, x: nat): Option<nat> {
    if rs == [] then None
    else if rs[0].addr <= x < rs[0].addr + rs[0].size then Some(rs[0].typ)
    else TypeTold(rs[1..], x)
  }

  /** The entry that covers an address decides what is told of it, if no earlier one does. */
  lemma {:induction false} ToldByFirst(rs: seq<E820>, i: nat, x: nat)
    requires i < |rs| && rs[i].addr <= x < rs[i].addr + rs[i].size
    requires forall j :: 0 <= j < i ==> !(rs[j].addr <= x < rs[j].addr + rs[j].size)
    ensures TypeTold(rs, x) == Some(rs[i].typ)
    decreases |rs|
  {
    if i > 0 {
      ToldByFirst(rs[1..], i - 1, x);
    }
  }

  // ----- from hiding to Linux

  /** hide_runtime_memory followed by the copying of the map into boot_params: if hiding
      succeeds and the map has at most 128 entries then, Linux is offered no address of the
      hidden range; if one AVAILABLE entry contained it, all of it is RESERVED. */
  method HideAndTell(heap: MemoryManager, mbi: MultibootInfo, h: nat, s: nat, e820: array<E820>) returns (hidden: bool, count: nat)
    requires heap.Valid() && heap.mem.Length <= TWO_32 && ValidRange(h, s) && e820.Length == E820_MAX
    requires TableIn(heap.mem[..], mbi.mmapAddr, mbi.mmapLength)
    requires ValidMap(Table(heap.mem[..], mbi.mmapAddr, mbi.mmapLength))
    requires NoWrap(heap.View(), ByteRequest(mbi.mmapLength + 2 * ENTRY_SIZE))
    requires Apart(mbi.mmapAddr, mbi.mmapLength, heap.heapCurrent, heap.heapTops - heap.heapCurrent)
    requires var es := Table(heap.mem[..], mbi.mmapAddr, mbi.mmapLength);
             Edit(es, h, s).Some? ==> forall k :: 0 <= k < |es| && Meets(es[k], h, s) ==> es[k].addr <= h
    modifies heap, heap.mem, mbi`mmapAddr, mbi`mmapLength, e820
    ensures hidden && count <= E820_MAX ==>
              var es := Table(old(heap.mem[..]), old(mbi.mmapAddr), old(mbi.mmapLength));
              forall x :: h <= x < h + s ==>
                && TypeTold(e820[..count], x) != Some(AVAILABLE)
                && ((exists k :: 0 <= k < |es| && Contains(es[k], h, s)) ==> TypeTold(e820[..count], x) == Some(RESERVED))
    ensures hidden && count <= E820_MAX ==>
              var es := Table(old(heap.mem[..]), old(mbi.mmapAddr), old(mbi.mmapLength));
              (exists k :: 0 <= k < |es| && Contains(es[k], h, s)) ==>
                forall x: nat :: !(h <= x < h + s) && TypeAt(es, x) != Some(BAD) ==> TypeTold(e820[..count], x) == TypeAt(es, x)
  {
    hide TableAt, Edit, Meets, Granted, Next, SameOutside, ValidMap, Tells, Contains;
    ghost var es := Table(heap.mem[..], mbi.mmapAddr, mbi.mmapLength);
    hidden := HideRuntimeMemory(heap, mbi, h, s);
    count := FillBootParams(heap.mem, mbi.mmapAddr, mbi.mmapLength, e820);
    if hidden && count <= E820_MAX {
      ToldAfterHiding(es, h, s, e820[..count]);
    }
  }

  lemma ToldAfterHiding(es: seq<Entry>, h: nat, s: nat, rs: seq<E820>)
    requires ValidMap(es) && ValidRange(h, s) && Edit(es, h, s).Some?
    requires forall k :: 0 <= k < |es| && Meets(es[k], h, s) ==> es[k].addr <= h
    requires var out := Edit(es, h, s).value; |rs| == |out| && forall i :: 0 <= i < |out| ==> Tells(rs[i], out[i])
    ensures forall x :: h <= x < h + s ==> TypeTold(rs, x) != Some(AVAILABLE)
    ensures (exists k :: 0 <= k < |es| && Contains(es[k], h, s)) ==>
              && (forall x :: h <= x < h + s ==> TypeTold(rs, x) == Some(RESERVED))
              && (forall x: nat :: !(h <= x < h + s) && TypeAt(es, x) != Some(BAD) ==> TypeTold(rs, x) == TypeAt(es, x))
  {
    hide Edit, Meets, Tells, ValidMap, Contains;
    var out := Edit(es, h, s).value;
    HiddenIsNotOffered(es, h, s);
    forall x: nat ensures h <= x < h + s ==> TypeTold(rs, x) != Some(AVAILABLE) {
      BootParamsMeaning(out, rs, x);
    }
    if exists k :: 0 <= k < |es| && Contains(es[k], h, s) {
      var k :| 0 <= k < |es| && Contains(es[k], h, s);
      EditMeaning(es, k, h, s);
      forall x: nat
        ensures h <= x < h + s ==> TypeTold(rs, x) == Some(RESERVED)
        ensures !(h <= x < h + s) && TypeAt(es, x) != Some(BAD) ==> TypeTold(rs, x) == TypeAt(es, x)
      {
        BootParamsMeaning(out, rs, x);
      }
    }
  }
}
