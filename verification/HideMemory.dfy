/** hide_runtime_memory, in memory: the edited map is built in a block of the loader heap
    and then published in the multiboot information. */
module HideMemory {
  import opened Words
  import opened Bytes
  import opened MemoryMap
  import opened LoaderHeap
  import opened MapEdit

  const MBI_MEMMAP: nat := 64

  /** The fields of multiboot_info_t that matter here. */
  class MultibootInfo {
    var flags: nat
    var mmapLength: nat
    var mmapAddr: nat
  }

  predicate HasMap(flags: nat) { flags / MBI_MEMMAP % 2 == 1 }

  /** Bit 6 of the flags, and no other, says that there is a map. */
  lemma MapFlag(high: nat, low: nat)
    requires low < 64
    ensures HasMap(128 * high + 64 + low) && !HasMap(128 * high + low)
  {
    Remainder(2 * high + 1, low, 64);
    Remainder(2 * high, low, 64);
    Remainder(high, 1, 2);
    Remainder(high, 0, 2);
  }

  /** A whole number of entries, in memory. */
  ghost predicate TableIn(m: seq<byte>, addr: nat, length: nat) {
    length % ENTRY_SIZE == 0 && addr + length <= |m|
  }

  ghost function Table(m: seq<byte>, addr: nat, length: nat): seq<Entry>
    requires TableIn(m, addr, length)
  {
    TableAt(m, addr, length / ENTRY_SIZE)
  }

  /** Appends one entry to the table being built at `dest`. */
  method PutEntry(mem: array<byte>, ghost m: seq<byte>, dest: nat, ghost out: seq<Entry>, index: nat, e: Entry)
    requires |m| == mem.Length && index == |out| && dest + ENTRY_SIZE * (index + 1) <= mem.Length
    requires mem[..] == Splice(m, dest, TableBytes(out))
    modifies mem
    ensures mem[..] == Splice(m, dest, TableBytes(out + [e]))
  {
    hide Splice, EntryBytes;
    CopyIn(mem, dest + ENTRY_SIZE * index, EntryBytes(e));
    assert (out + [e])[..index] == out;
    SpliceParts(m, dest, TableBytes(out), EntryBytes(e));
  }

  /** The pieces of an entry that meets the hidden range, in the order the code writes them;
      it writes two before it finds out whether the range ends in the entry. */
  method PutPieces(mem: array<byte>, ghost m: seq<byte>, dest: nat, ghost out: seq<Entry>, index: nat,
                   e: Entry, h: nat, s: nat) returns (ok: bool, added: nat)
    requires |m| == mem.Length && index == |out| && dest + ENTRY_SIZE * (index + 3) <= mem.Length
    requires Meets(e, h, s) && e.typ == AVAILABLE && mem[..] == Splice(m, dest, TableBytes(out))
    modifies mem
    ensures ok <==> EditOne(e, h, s).Some?
    ensures ok ==> added == |EditOne(e, h, s).value| && mem[..] == Splice(m, dest, TableBytes(out + EditOne(e, h, s).value))
    ensures !ok ==> exists t :: |t| == index + 2 && mem[..] == Splice(m, dest, TableBytes(t))
  {
    hide Splice, TableBytes, Meets;
    var below, hidden := Entry(e.size, e.addr, (h - e.addr) % TWO_64, e.typ), Entry(e.size, h, s, RESERVED);
    PutEntry(mem, m, dest, out, index, below);
    PutEntry(mem, m, dest, out + [below], index + 1, hidden);
    if HideEnd(h, s) > End64(e) {
      assert |out + [below] + [hidden]| == index + 2;
      return false, 0;
    }
    added := 2;
    if HideEnd(h, s) < End64(e) {
      var above := Entry(e.size, HideEnd(h, s), End64(e) - HideEnd(h, s), e.typ);
      PutEntry(mem, m, dest, out + [below] + [hidden], index + 2, above);
      added := 3;
      assert out + EditOne(e, h, s).value == out + [below] + [hidden] + [above];
    } else {
      assert out + EditOne(e, h, s).value == out + [below] + [hidden];
    }
    ok := true;
  }

  /** Copies the map entry by entry into `dest`, which has room for two more than it had. */
  method BuildMap(mem: array<byte>, addr: nat, length: nat, dest: nat, h: nat, s: nat) returns (ok: bool, count: nat)
    requires mem.Length <= TWO_32 && TableIn(mem[..], addr, length)
    requires dest + length + 2 * ENTRY_SIZE <= mem.Length && Apart(addr, length, dest, length + 2 * ENTRY_SIZE)
    requires ValidMap(Table(mem[..], addr, length)) && ValidRange(h, s)
    modifies mem
    ensures var es := Table(old(mem[..]), addr, length);
            && (ok <==> Edit(es, h, s).Some?)
            && (ok ==> count == |Edit(es, h, s).value| <= |es| + 2 && mem[..] == Splice(old(mem[..]), dest, TableBytes(Edit(es, h, s).value)))
            && (exists t :: |t| <= |es| + 2 && mem[..] == Splice(old(mem[..]), dest, TableBytes(t)))
  {
    hide Splice, TableBytes, EntryBytes, ReadEntry, EditOne, Meets, ValidMap;
    ghost var m := mem[..];
    ghost var n := length / ENTRY_SIZE;
    ghost var es := Table(m, addr, length);
    ghost var i := 0;
    var next := addr;
    count := 0;
    ghost var out: seq<Entry> := [];
    EmptyTable(m, dest);
    while next < addr + length
      invariant 0 <= i <= n && next == addr + ENTRY_SIZE * i
      invariant Edit(es[..i], h, s) == Some(out) && count == |out| <= i + 2
      invariant mem[..] == Splice(m, dest, TableBytes(out))
      decreases n - i
    {
      EntryInOldTable(m, dest, out, addr, length, i);
      var e := ReadEntry(mem[..], next);
      assert e == es[i];
      assert es[..i + 1][..i] == es[..i] && es[..i + 1][i] == e;
      NextEdit(es, i, h, s);
      EntryInWidth(es, i);
      ValidPrefix(es, i);
      ValidPrefix(es, i + 1);
      if EditOne(e, h, s).Some? {
        EditGrowth(es[..i + 1], h, s);
      }
      if End64(e) <= h || HideEnd(h, s) <= e.addr {
        NotMet(e, h, s);
        PutEntry(mem, m, dest, out, count, e);
        out := out + [e];
        count := count + 1;
      } else {
        if e.typ != AVAILABLE {
          Refused(e, h, s);
          return false, count;
        }
        RoomWhenMet(es, i, h, s);
        EditGrowth(es[..i], h, s);
        var added;
        ok, added := PutPieces(mem, m, dest, out, count, e, h, s);
        if !ok {
          return;
        }
        out := out + EditOne(e, h, s).value;
        count := count + added;
      }
      i := i + 1;
      next := next + e.size + 4;
    }
    assert es[..n] == es;
    ok := true;
  }

  lemma EmptyTable(m: seq<byte>, dest: nat)
    requires dest <= |m|
    ensures Splice(m, dest, TableBytes([])) == m
  {
  }

  /** The old table is not disturbed by the one being built. */
  lemma EntryInOldTable(m: seq<byte>, dest: nat, out: seq<Entry>, addr: nat, length: nat, i: nat)
    requires TableIn(m, addr, length) && i < length / ENTRY_SIZE && |out| <= length / ENTRY_SIZE + 2
    requires dest + length + 2 * ENTRY_SIZE <= |m| && Apart(addr, length, dest, length + 2 * ENTRY_SIZE)
    ensures dest + |TableBytes(out)| <= |m| && addr + ENTRY_SIZE * i + ENTRY_SIZE <= addr + length
    ensures ReadEntry(Splice(m, dest, TableBytes(out)), addr + ENTRY_SIZE * i) == Table(m, addr, length)[i]
  {
    hide TableBytes, ReadEntry, Splice;
    var a := addr + ENTRY_SIZE * i;
    var m' := Splice(m, dest, TableBytes(out));
    assert m'[a..a + ENTRY_SIZE] == m[a..a + ENTRY_SIZE];
    EntryOfStretch(m, a);
    EntryOfStretch(m', a);
  }

  lemma NextEdit(es: seq<Entry>, i: nat, h: nat, s: nat)
    requires i < |es| && Edit(es[..i], h, s).Some?
    ensures EditOne(es[i], h, s).Some? ==>
              Edit(es[..i + 1], h, s) == Some(Edit(es[..i], h, s).value + EditOne(es[i], h, s).value)
    ensures EditOne(es[i], h, s).None? ==> Edit(es, h, s).None?
  {
    hide EditOne;
    assert es[..i + 1][..i] == es[..i] && es[..i + 1][i] == es[i];
    EditConcat(es[..i + 1], es[i + 1..], h, s);
    assert es[..i + 1] + es[i + 1..] == es;
  }

  lemma NotMet(e: Entry, h: nat, s: nat)
    requires End64(e) <= h || HideEnd(h, s) <= e.addr
    ensures EditOne(e, h, s) == Some([e])
  {
  }

  lemma Refused(e: Entry, h: nat, s: nat)
    requires !(End64(e) <= h || HideEnd(h, s) <= e.addr)
    ensures Meets(e, h, s) && (e.typ != AVAILABLE ==> EditOne(e, h, s).None?)
  {
  }

  /** When an entry meets the range, none before it has been cut. */
  lemma RoomWhenMet(es: seq<Entry>, i: nat, h: nat, s: nat)
    requires ValidMap(es) && ValidRange(h, s) && i < |es| && Edit(es[..i], h, s).Some?
    requires !(End64(es[i]) <= h || HideEnd(h, s) <= es[i].addr)
    ensures Meets(es[i], h, s) && |Edit(es[..i], h, s).value| <= i
  {
    hide Edit, EditOne;
    EditGrowth(es[..i], h, s);
    if |Edit(es[..i], h, s).value| > i {
      var j :| 0 <= j < i && h + s <= End(es[..i][j]);
      assert End(es[j]) <= es[i].addr;
      assert false by { MeetsPlainly(es[i], h, s); }
    }
  }

  lemma WholeEntries(n: nat)
    ensures ENTRY_SIZE * n % ENTRY_SIZE == 0 && ENTRY_SIZE * n / ENTRY_SIZE == n
  {
    Remainder(n, 0, ENTRY_SIZE);
  }

  /** Building the map, as its readers see it: the new table reads as the edited map, and
      the old one as it did. */
  method BuildTable(mem: array<byte>, addr: nat, length: nat, dest: nat, h: nat, s: nat) returns (ok: bool, count: nat)
    requires mem.Length <= TWO_32 && TableIn(mem[..], addr, length)
    requires dest + length + 2 * ENTRY_SIZE <= mem.Length && Apart(addr, length, dest, length + 2 * ENTRY_SIZE)
    requires ValidMap(Table(mem[..], addr, length)) && ValidRange(h, s)
    modifies mem
    ensures var es := Table(old(mem[..]), addr, length);
            && (ok <==> Edit(es, h, s).Some?)
            && (ok ==>
                  && count <= length / ENTRY_SIZE + 2 && TableIn(mem[..], dest, ENTRY_SIZE * count)
                  && Table(mem[..], dest, ENTRY_SIZE * count) == Edit(es, h, s).value)
            && Table(mem[..], addr, length) == es
    ensures SameOutside(old(mem[..]), mem[..], dest, dest + length + 2 * ENTRY_SIZE)
  {
    hide Splice, TableBytes, TableAt, Edit, SameOutside, ValidMap;
    ghost var m := mem[..];
    ghost var es := Table(m, addr, length);
    ok, count := BuildMap(mem, addr, length, dest, h, s);
    ghost var t :| |t| <= |es| + 2 && mem[..] == Splice(m, dest, TableBytes(t));
    SpliceOutside(m, dest, TableBytes(t), dest, dest + length + 2 * ENTRY_SIZE);
    TableUnder(m, dest, TableBytes(t), addr, length);
    if ok {
      EditGrowth(es, h, s);
      TableRoundTrip(m, dest, Edit(es, h, s).value);
      WholeEntries(count);
    }
  }

  /** hide_runtime_memory.  The map must not lie in the free part of the loader heap. */
  method HideRuntimeMemory(heap: MemoryManager, mbi: MultibootInfo, h: nat, s: nat) returns (ok: bool)
    requires heap.Valid() && heap.mem.Length <= TWO_32 && ValidRange(h, s)
    requires TableIn(heap.mem[..], mbi.mmapAddr, mbi.mmapLength)
    requires ValidMap(Table(heap.mem[..], mbi.mmapAddr, mbi.mmapLength))
    requires NoWrap(heap.View(), ByteRequest(mbi.mmapLength + 2 * ENTRY_SIZE))
    requires Apart(mbi.mmapAddr, mbi.mmapLength, heap.heapCurrent, heap.heapTops - heap.heapCurrent)
    modifies heap, heap.mem, mbi`mmapAddr, mbi`mmapLength
    ensures heap.Valid()
    ensures var es := Table(old(heap.mem[..]), old(mbi.mmapAddr), old(mbi.mmapLength));
            && (ok <==>
                  && HasMap(mbi.flags)
                  && Granted(old(heap.View()), ByteRequest(old(mbi.mmapLength) + 2 * ENTRY_SIZE))
                  && Edit(es, h, s).Some?)
            && (ok ==>
                  && TableIn(heap.mem[..], mbi.mmapAddr, mbi.mmapLength)
                  && Table(heap.mem[..], mbi.mmapAddr, mbi.mmapLength) == Edit(es, h, s).value)
    ensures !ok ==>
              && mbi.mmapAddr == old(mbi.mmapAddr) && mbi.mmapLength == old(mbi.mmapLength)
              && Table(heap.mem[..], mbi.mmapAddr, mbi.mmapLength) == Table(old(heap.mem[..]), mbi.mmapAddr, mbi.mmapLength)
    ensures heap.View() == if HasMap(mbi.flags)
                           then Next(old(heap.View()), ByteRequest(old(mbi.mmapLength) + 2 * ENTRY_SIZE)).0
                           else old(heap.View())
    ensures SameOutside(old(heap.mem[..]), heap.mem[..], old(heap.heapCurrent), heap.heapTops)
    ensures Apart(mbi.mmapAddr, mbi.mmapLength, heap.heapCurrent, heap.heapTops - heap.heapCurrent)
  {
    hide Splice, TableBytes, TableAt, Edit, Granted, Zeros, Next, SameOutside;
    NothingChanged(heap.mem[..], heap.heapCurrent, heap.heapTops);
    if !HasMap(mbi.flags) {
      return false;
    }
    ghost var m := heap.mem[..];
    ghost var es := Table(m, mbi.mmapAddr, mbi.mmapLength);
    var entries := mbi.mmapLength / ENTRY_SIZE + 2;
    GrantFacts(heap.View(), ByteRequest(ENTRY_SIZE * entries));
    var newmap := heap.AllocateMemory(ENTRY_SIZE * entries);
    if newmap == 0 {
      return false;
    }
    TableUnder(m, newmap, Zeros(ENTRY_SIZE * entries), mbi.mmapAddr, mbi.mmapLength);
    SpliceOutside(m, newmap, Zeros(ENTRY_SIZE * entries), newmap, heap.heapTops);
    ghost var zeroed := heap.mem[..];
    var count;
    ok, count := BuildTable(heap.mem, mbi.mmapAddr, mbi.mmapLength, newmap, h, s);
    OutsideTwice(m, zeroed, heap.mem[..], newmap, heap.heapTops, newmap, newmap + ENTRY_SIZE * entries);
    if !ok {
      return;
    }
    mbi.mmapAddr := newmap;
    mbi.mmapLength := ENTRY_SIZE * count;
  }

  lemma TableUnder(m: seq<byte>, dest: nat, data: seq<byte>, addr: nat, length: nat)
    requires dest + |data| <= |m| && TableIn(m, addr, length) && Apart(addr, length, dest, |data|)
    ensures Table(Splice(m, dest, data), addr, length) == Table(m, addr, length)
  {
    hide Splice;
    var m' := Splice(m, dest, data);
    assert m'[addr..addr + length] == m[addr..addr + length];
    TableKept(m', m, addr, length / ENTRY_SIZE);
  }
}
