/** The dynamic section, and the relocations it leads to. */
module ElfRelocation {
  import opened Words
  import opened Bytes
  import opened ElfFormat
  import opened ElfPatches

  const DT_SYMTAB := 6
  const DT_RELA := 7
  const DT_RELASZ := 8
  const DT_RELAENT := 9
  const DT_SYMENT := 11
  const DT_REL := 17
  const DT_RELSZ := 18
  const DT_RELENT := 19

  /** R_386_32 and R_X86_64_64; R_386_RELATIVE and R_X86_64_RELATIVE. */
  const R_DIRECT := 1
  const R_RELATIVE := 8

  datatype Kind = Rela | Rel

  /** A relocation table and its symbol table, by their offsets in the window. */
  datatype Table = Table(kind: Kind, at: nat, count: nat, symbols: nat)

  // ----- the dynamic section

  /** The number of dynamic entries, from a size kept in 32 bits. */
  function DynCount(c: Class, p: Phdr): nat { p.filesz % TWO_32 / c.DynSize() }

  ghost predicate DynamicMapped(c: Class, img: seq<byte>, p: Phdr) {
    p.offset + p.filesz % TWO_32 <= |img|
  }

  lemma DynExtent(c: Class, p: Phdr)
    ensures Extent(DynCount(c, p), c.DynSize()) <= p.filesz % TWO_32
  {
    ExtentIsProduct(DynCount(c, p), c.DynSize());
  }

  /** The value of the last of the first `n` dynamic entries that has the given tag. */
  function LastWithTag(c: Class, img: seq<byte>, at: nat, n: nat, tag: nat): Option<nat>
    requires at + Extent(n, c.DynSize()) <= |img|
  {
    if n == 0 then None
    else
      var entry := at + Extent(n - 1, c.DynSize());
      if Field(img, entry, c.Word()) == tag then Some(Field(img, entry + c.Word(), c.Word()))
      else LastWithTag(c, img, at, n - 1, tag)
  }

  /** A value stored in a 32-bit signed variable. */
  function Signed32(v: nat): int {
    var low := v % TWO_32;
    if low < 0x8000_0000 then low else low - TWO_32
  }

  /** A size or entry size, 0 if the dynamic section does not give it. */
  function SizeOf(v: Option<nat>): int { if v.Some? then Signed32(v.value) else 0 }

  function Entries(size: int, entry: int): nat
    requires entry > 0
  {
    if size > 0 then size / entry else 0
  }

  /** Which table the relocation goes by: RELA if it is fully described, else, in 32-bit
      files, REL; None is an error.  Offsets are link-time d_ptr values, to which the code
      adds the load address. */
  ghost function DynTable(c: Class, img: seq<byte>, p: Phdr): Option<Table>
    requires DynamicMapped(c, img, p)
  {
    DynExtent(c, p);
    var n := DynCount(c, p);
    var rela, relaSz, relaEnt := LastWithTag(c, img, p.offset, n, DT_RELA),
      SizeOf(LastWithTag(c, img, p.offset, n, DT_RELASZ)), SizeOf(LastWithTag(c, img, p.offset, n, DT_RELAENT));
    var symtab, symEnt := LastWithTag(c, img, p.offset, n, DT_SYMTAB), SizeOf(LastWithTag(c, img, p.offset, n, DT_SYMENT));
    var rel, relSz, relEnt := LastWithTag(c, img, p.offset, n, DT_REL),
      SizeOf(LastWithTag(c, img, p.offset, n, DT_RELSZ)), SizeOf(LastWithTag(c, img, p.offset, n, DT_RELENT));
    if rela.Some? && relaSz != 0 && symtab.Some? && relaEnt == c.RelaSize() && symEnt == c.SymSize() then
      Some(Table(Rela, rela.value, Entries(relaSz, relaEnt), symtab.value))
    else if c.Elf32? && rel.Some? && symtab.Some? && relSz != 0 && relEnt == c.RelSize() then
      Some(Table(Rel, rel.value, Entries(relSz, relEnt), symtab.value))
    else None
  }

  /** The loop over the dynamic section, and the choice of a table after it. */
  method ReadDynamic(c: Class, img: seq<byte>, p: Phdr) returns (table: Option<Table>)
    requires DynamicMapped(c, img, p)
    ensures table == DynTable(c, img, p)
  {
    hide Field, Signed32;
    DynExtent(c, p);
    var n := DynCount(c, p);
    var rela, symtab, rel := None, None, None;
    var relaSz, relaEnt, symEnt, relSz, relEnt := 0, 0, 0, 0, 0;
    for i := 0 to n
      invariant p.offset + Extent(i, c.DynSize()) <= |img|
      invariant rela == LastWithTag(c, img, p.offset, i, DT_RELA)
      invariant relaSz == SizeOf(LastWithTag(c, img, p.offset, i, DT_RELASZ))
      invariant relaEnt == SizeOf(LastWithTag(c, img, p.offset, i, DT_RELAENT))
      invariant symtab == LastWithTag(c, img, p.offset, i, DT_SYMTAB)
      invariant symEnt == SizeOf(LastWithTag(c, img, p.offset, i, DT_SYMENT))
      invariant c.Elf32? ==> rel == LastWithTag(c, img, p.offset, i, DT_REL)
      invariant c.Elf32? ==> relSz == SizeOf(LastWithTag(c, img, p.offset, i, DT_RELSZ))
      invariant c.Elf32? ==> relEnt == SizeOf(LastWithTag(c, img, p.offset, i, DT_RELENT))
    {
      ExtentGrows(i, n, c.DynSize());
      var entry := p.offset + Extent(i, c.DynSize());
      var tag, value := Field(img, entry, c.Word()), Field(img, entry + c.Word(), c.Word());
      if tag == DT_RELA {
        rela := Some(value);
      } else if tag == DT_RELASZ {
        relaSz := Signed32(value);
      } else if tag == DT_RELAENT {
        relaEnt := Signed32(value);
      } else if tag == DT_SYMTAB {
        symtab := Some(value);
      } else if tag == DT_SYMENT {
        symEnt := Signed32(value);
      } else if c.Elf32? {
        if tag == DT_REL {
          rel := Some(value);
        } else if tag == DT_RELSZ {
          relSz := Signed32(value);
        } else if tag == DT_RELENT {
          relEnt := Signed32(value);
        }
      }
    }
    if rela.Some? && relaSz != 0 && symtab.Some? && relaEnt == c.RelaSize() && symEnt == c.SymSize() {
      return Some(Table(Rela, rela.value, Entries(relaSz, relaEnt), symtab.value));
    }
    if c.Elf32? && rel.Some? && symtab.Some? && relSz != 0 && relEnt == c.RelSize() {
      return Some(Table(Rel, rel.value, Entries(relSz, relEnt), symtab.value));
    }
    return None;
  }

  // ----- relocation entries

  function EntrySize(c: Class, kind: Kind): nat { if kind.Rela? then c.RelaSize() else c.RelSize() }

  function EntryAt(c: Class, t: Table, i: nat): nat { t.at + Extent(i, EntrySize(c, t.kind)) }

  /** The entry's r_offset, r_info and, in a Rela table, r_addend. */
  datatype Entry = Entry(offset: nat, info: nat, addend: nat)

  function ReadEntry(c: Class, m: seq<byte>, t: Table, i: nat): Entry
    requires EntryAt(c, t, i) + EntrySize(c, t.kind) <= |m|
  {
    var a := EntryAt(c, t, i);
    Entry(Field(m, a, c.Word()), Field(m, a + c.Word(), c.Word()),
          if t.kind.Rela? then Field(m, a + 2 * c.Word(), c.Word()) else 0)
  }

  function RelocType(e: Entry): nat { e.info % 256 }

  predicate Active(e: Entry) { RelocType(e) == R_DIRECT || RelocType(e) == R_RELATIVE }

  /** Type 0 is skipped in Rela tables and refused in Rel tables. */
  predicate Supported(kind: Kind, e: Entry) { Active(e) || (kind.Rela? && RelocType(e) == 0) }

  /** Where the value of the entry's symbol is. */
  function SymbolAt(c: Class, t: Table, e: Entry): nat {
    t.symbols + Extent(if c.Elf32? then e.info / 256 else e.info / TWO_32, c.SymSize()) + c.SymValueAt()
  }

  /** The entry, its target word and its symbol are in the window. */
  ghost predicate EntryOk(c: Class, m: seq<byte>, t: Table, low: nat, i: nat) {
    && EntryAt(c, t, i) + EntrySize(c, t.kind) <= |m|
    && var e := ReadEntry(c, m, t, i);
       && (Active(e) ==> low <= e.offset && e.offset - low + c.Word() <= |m|)
       && (RelocType(e) == R_DIRECT ==> SymbolAt(c, t, e) + c.Word() <= |m|)
  }

  /** The patch an entry asks for: its addend, explicit or found in place, and its symbol. */
  function PatchOf(c: Class, m: seq<byte>, t: Table, low: nat, i: nat): seq<Patch>
    requires EntryOk(c, m, t, low, i)
  {
    var e := ReadEntry(c, m, t, i);
    if !Active(e) then []
    else
      var target := e.offset - low;
      var addend := if t.kind.Rela? then e.addend else Field(m, target, c.Word());
      [Patch(target, addend + if RelocType(e) == R_DIRECT then Field(m, SymbolAt(c, t, e), c.Word()) else 0)]
  }

  ghost predicate EntriesOk(c: Class, m: seq<byte>, t: Table, low: nat, n: nat) {
    forall i :: 0 <= i < n ==> EntryOk(c, m, t, low, i)
  }

  function RelocPatches(c: Class, m: seq<byte>, t: Table, low: nat, n: nat): seq<Patch>
    requires EntriesOk(c, m, t, low, n)
  {
    if n == 0 then [] else RelocPatches(c, m, t, low, n - 1) + PatchOf(c, m, t, low, n - 1)
  }

  /** The words `ps` are apart from everything the relocation of `t` reads besides them. */
  ghost predicate ReadsUntouched(c: Class, m: seq<byte>, t: Table, low: nat, ps: seq<Patch>)
    requires EntriesOk(c, m, t, low, t.count)
  {
    forall i :: 0 <= i < t.count ==> EntryUntouched(c, m, t, low, ps, i)
  }

  ghost predicate EntryUntouched(c: Class, m: seq<byte>, t: Table, low: nat, ps: seq<Patch>, i: nat)
    requires EntryOk(c, m, t, low, i)
  {
    && Untouched(c, ps, EntryAt(c, t, i), EntrySize(c, t.kind))
    && (RelocType(ReadEntry(c, m, t, i)) == R_DIRECT ==>
          Untouched(c, ps, SymbolAt(c, t, ReadEntry(c, m, t, i)), c.Word()))
  }

  /** The table can be relocated: its entries are in order, their targets are apart from one
      another and from the tables. */
  ghost predicate TableOk(c: Class, m: seq<byte>, t: Table, low: nat) {
    && EntriesOk(c, m, t, low, t.count)
    && PatchesApart(c, RelocPatches(c, m, t, low, t.count))
    && ReadsUntouched(c, m, t, low, RelocPatches(c, m, t, low, t.count))
  }

  ghost predicate AllSupported(c: Class, m: seq<byte>, t: Table, low: nat, n: nat)
    requires EntriesOk(c, m, t, low, n)
  {
    forall i :: 0 <= i < n ==> SupportedAt(c, m, t, low, i)
  }

  ghost predicate SupportedAt(c: Class, m: seq<byte>, t: Table, low: nat, i: nat)
    requires EntryOk(c, m, t, low, i)
  {
    Supported(t.kind, ReadEntry(c, m, t, i))
  }

  lemma {:induction false} RelocPatchesIn(c: Class, m: seq<byte>, t: Table, low: nat, n: nat)
    requires EntriesOk(c, m, t, low, n)
    ensures PatchesIn(c, RelocPatches(c, m, t, low, n), |m|)
  {
    hide Field, Extent, ReadEntry, SymbolAt;
    if n > 0 {
      assert EntryOk(c, m, t, low, n - 1);
      RelocPatchesIn(c, m, t, low, n - 1);
    }
  }

  lemma {:induction false} RelocPatchesPrefix(c: Class, m: seq<byte>, t: Table, low: nat, i: nat, n: nat)
    requires i <= n && EntriesOk(c, m, t, low, n)
    ensures RelocPatches(c, m, t, low, i) <= RelocPatches(c, m, t, low, n)
  {
    hide Field, Extent, PatchOf, EntryOk;
    if i < n {
      RelocPatchesPrefix(c, m, t, low, i, n - 1);
    }
  }

  lemma SameEntry(c: Class, m: seq<byte>, m': seq<byte>, t: Table, i: nat)
    requires |m| == |m'| && EntryAt(c, t, i) + EntrySize(c, t.kind) <= |m|
    requires var a, n := EntryAt(c, t, i), EntrySize(c, t.kind); m[a..a + n] == m'[a..a + n]
    ensures ReadEntry(c, m, t, i) == ReadEntry(c, m', t, i)
  {
    hide Field, Extent;
    var a, n := EntryAt(c, t, i), EntrySize(c, t.kind);
    FieldInStretch(m, m', a, n, a, c.Word());
    FieldInStretch(m, m', a, n, a + c.Word(), c.Word());
    if t.kind.Rela? {
      FieldInStretch(m, m', a, n, a + 2 * c.Word(), c.Word());
    }
  }

  /** What entry `i` reads is not disturbed by patches apart from it. */
  lemma EntryReads(c: Class, m: seq<byte>, t: Table, low: nat, ps: seq<Patch>, delta: int, i: nat)
    requires PatchesIn(c, ps, |m|) && EntryOk(c, m, t, low, i) && EntryUntouched(c, m, t, low, ps, i)
    ensures var m' := Patched(c, m, ps, delta);
            var e := ReadEntry(c, m, t, i);
            && ReadEntry(c, m', t, i) == e
            && (RelocType(e) == R_DIRECT ==> Field(m', SymbolAt(c, t, e), c.Word()) == Field(m, SymbolAt(c, t, e), c.Word()))
            && (Active(e) && Untouched(c, ps, e.offset - low, c.Word()) ==>
                  Field(m', e.offset - low, c.Word()) == Field(m, e.offset - low, c.Word()))
  {
    hide Extent, Patched, SymbolAt, ReadEntry;
    var m' := Patched(c, m, ps, delta);
    var e := ReadEntry(c, m, t, i);
    PatchedKeeps(c, m, ps, delta, EntryAt(c, t, i), EntrySize(c, t.kind));
    SameEntry(c, m, m', t, i);
    if RelocType(e) == R_DIRECT {
      PatchedKeeps(c, m, ps, delta, SymbolAt(c, t, e), c.Word());
    }
    if Active(e) && Untouched(c, ps, e.offset - low, c.Word()) {
      PatchedKeeps(c, m, ps, delta, e.offset - low, c.Word());
    }
  }

  lemma PrefixApart(c: Class, ps: seq<Patch>, qs: seq<Patch>)
    requires ps <= qs
    ensures PatchesApart(c, qs) ==> PatchesApart(c, ps)
    ensures forall a, n :: Untouched(c, qs, a, n) ==> Untouched(c, ps, a, n)
  {
  }

  /** Patches made for the entries before `i` leave entry `i` readable, and its own word is
      apart from theirs and from its symbol. */
  lemma EntryInTurn(c: Class, m: seq<byte>, t: Table, low: nat, i: nat)
    requires TableOk(c, m, t, low) && i < t.count
    ensures EntryOk(c, m, t, low, i) && PatchesIn(c, RelocPatches(c, m, t, low, i), |m|)
    ensures EntryUntouched(c, m, t, low, RelocPatches(c, m, t, low, i), i)
    ensures var e := ReadEntry(c, m, t, i);
            Active(e) ==>
              && Untouched(c, RelocPatches(c, m, t, low, i), e.offset - low, c.Word())
              && (RelocType(e) == R_DIRECT ==> Apart(e.offset - low, c.Word(), SymbolAt(c, t, e), c.Word()))
  {
    hide Field, Extent, ReadEntry, SymbolAt;
    var before := RelocPatches(c, m, t, low, i);
    var after := RelocPatches(c, m, t, low, i + 1);
    var all := RelocPatches(c, m, t, low, t.count);
    RelocPatchesIn(c, m, t, low, i);
    RelocPatchesPrefix(c, m, t, low, i + 1, t.count);
    PrefixApart(c, after, all);
    assert EntryOk(c, m, t, low, i);
    assert EntryUntouched(c, m, t, low, all, i);
    assert before <= after;
    PrefixApart(c, before, after);
    var e := ReadEntry(c, m, t, i);
    if Active(e) {
      assert after[|before|].at == e.offset - low;
      forall j | 0 <= j < |before| ensures Apart(before[j].at, c.Word(), e.offset - low, c.Word()) {
        assert after[j] == before[j];
      }
    }
  }

  /** The addend as the code finds it when entry `e` is reached. */
  function AddendOf(c: Class, m: seq<byte>, t: Table, low: nat, e: Entry): nat
    requires t.kind.Rel? ==> low <= e.offset && e.offset - low + c.Word() <= |m|
  {
    if t.kind.Rela? then e.addend else Field(m, e.offset - low, c.Word())
  }

  /** Handling an entry in turn, on the memory as the entries before it left it, is writing
      the patch it asked for at the start. */
  lemma RelocStep(c: Class, m: seq<byte>, t: Table, low: nat, delta: int, i: nat)
    requires TableOk(c, m, t, low) && i < t.count
    ensures EntryOk(c, m, t, low, i)
    ensures PatchesIn(c, RelocPatches(c, m, t, low, i), |m|) && PatchesIn(c, RelocPatches(c, m, t, low, i + 1), |m|)
    ensures var m' := Patched(c, m, RelocPatches(c, m, t, low, i), delta);
            var e := ReadEntry(c, m, t, i);
            && ReadEntry(c, m', t, i) == e
            && (!Active(e) ==> Patched(c, m, RelocPatches(c, m, t, low, i + 1), delta) == m')
            && (Active(e) ==>
                  var target := e.offset - low;
                  var symbol := if RelocType(e) == R_DIRECT then Field(m', SymbolAt(c, t, e), c.Word()) else 0;
                  && (RelocType(e) == R_DIRECT ==> Apart(target, c.Word(), SymbolAt(c, t, e), c.Word()))
                  && Patched(c, m, RelocPatches(c, m, t, low, i + 1), delta)
                     == Put(m', target, c.Word(), AddMod(c, AddendOf(c, m', t, low, e) + symbol, delta)))
  {
    hide Field, Extent, ReadEntry, SymbolAt, Patched, Put, AddMod, RelocPatches, ReadsUntouched;
    EntryInTurn(c, m, t, low, i);
    var before := RelocPatches(c, m, t, low, i);
    RelocPatchesIn(c, m, t, low, i + 1);
    EntryReads(c, m, t, low, before, delta, i);
    NextPatches(c, m, t, low, i);
    var e := ReadEntry(c, m, t, i);
    if Active(e) {
      PatchedOne(c, m, before, PatchOf(c, m, t, low, i)[0], delta);
    }
  }

  lemma NextPatches(c: Class, m: seq<byte>, t: Table, low: nat, i: nat)
    requires EntriesOk(c, m, t, low, i + 1)
    ensures EntryOk(c, m, t, low, i)
    ensures var e := ReadEntry(c, m, t, i);
            var before, after := RelocPatches(c, m, t, low, i), RelocPatches(c, m, t, low, i + 1);
            if Active(e)
            then after == before + [PatchOf(c, m, t, low, i)[0]]
                 && PatchOf(c, m, t, low, i)[0]
                    == Patch(e.offset - low, AddendOf(c, m, t, low, e)
                                             + if RelocType(e) == R_DIRECT then Field(m, SymbolAt(c, t, e), c.Word()) else 0)
            else after == before
  {
    hide Field, Extent;
  }

  /** The stores made for one active entry. */
  method RelocateEntry(c: Class, mem: array<byte>, dest: nat, size: nat, t: Table, low: nat, delta: int, e: Entry)
    requires dest + size <= mem.Length && Active(e)
    requires low <= e.offset && e.offset - low + c.Word() <= size
    requires RelocType(e) == R_DIRECT ==>
               SymbolAt(c, t, e) + c.Word() <= size && Apart(e.offset - low, c.Word(), SymbolAt(c, t, e), c.Word())
    modifies mem
    ensures var window := old(mem[..])[dest..dest + size];
            var symbol := if RelocType(e) == R_DIRECT then Field(window, SymbolAt(c, t, e), c.Word()) else 0;
            mem[..] == Splice(old(mem[..]), dest,
                              Put(window, e.offset - low, c.Word(), AddMod(c, AddendOf(c, window, t, low, e) + symbol, delta)))
  {
    hide Field, Extent, Splice, Put, AddMod, SymbolAt;
    ghost var outside := mem[..];
    ghost var window := outside[dest..dest + size];
    assert outside == Splice(outside, dest, window);
    assert mem[dest..dest + size] == window;
    var target := e.offset - low;
    var value := AddMod(c, AddendOf(c, mem[dest..dest + size], t, low, e), delta);
    Store(mem, dest + target, c.Word(), value);
    PutNested(outside, dest, window, target, c.Word(), value);
    ghost var first := Put(window, target, c.Word(), value);
    assert mem[dest..dest + size] == first;
    if RelocType(e) == R_DIRECT {
      var symbol := Field(mem[dest..dest + size], SymbolAt(c, t, e), c.Word());
      PutElsewhere(window, target, c.Word(), value, SymbolAt(c, t, e), c.Word());
      WordModulus(c);
      PutField(window, target, c.Word(), value);
      var sum := AddMod(c, Field(mem[dest..dest + size], target, c.Word()), symbol);
      AddModShift(c, AddendOf(c, window, t, low, e), delta, symbol);
      AddModSplit(c, AddendOf(c, window, t, low, e), symbol, delta);
      Store(mem, dest + target, c.Word(), sum);
      PutNested(outside, dest, first, target, c.Word(), sum);
      PutTwice(window, target, c.Word(), value, sum);
    }
  }

  lemma AddModSplit(c: Class, a: nat, s: nat, d: int)
    ensures AddMod(c, a, d + s) == AddMod(c, a + s, d)
  {
    assert a + (d + s) == a + s + d;
  }

  /** The loops over the REL and RELA tables. */
  method Relocate(c: Class, mem: array<byte>, dest: nat, size: nat, t: Table, low: nat, delta: int) returns (ok: bool)
    requires dest + size <= mem.Length && TableOk(c, mem[..][dest..dest + size], t, low)
    modifies mem
    ensures var window := old(mem[..])[dest..dest + size];
            var ps := RelocPatches(c, window, t, low, t.count);
            && (ok <==> AllSupported(c, window, t, low, t.count))
            && PatchesIn(c, ps, size)
            && (ok ==> mem[..] == Splice(old(mem[..]), dest, Patched(c, window, ps, delta)))
            && (!ok ==> exists w: seq<byte> :: |w| == size && mem[..] == Splice(old(mem[..]), dest, w))
  {
    hide Field, Extent, Splice, Put, AddMod, SymbolAt, ReadEntry, RelocPatches, ReadsUntouched, AddendOf;
    ghost var outside := mem[..];
    ghost var window := outside[dest..dest + size];
    assert outside == Splice(outside, dest, window);
    RelocPatchesIn(c, window, t, low, t.count);
    NoPatches(c, window, t, low);
    ghost var current := window;
    for i := 0 to t.count
      invariant EntriesOk(c, window, t, low, i) && PatchesIn(c, RelocPatches(c, window, t, low, i), size)
      invariant AllSupported(c, window, t, low, i)
      invariant current == Patched(c, window, RelocPatches(c, window, t, low, i), delta)
      invariant mem[..] == Splice(outside, dest, current)
    {
      assert mem[dest..dest + size] == mem[..][dest..dest + size] == current;
      RelocStep(c, window, t, low, delta, i);
      var e := ReadEntry(c, mem[dest..dest + size], t, i);
      if RelocType(e) == R_DIRECT || RelocType(e) == R_RELATIVE {
        RelocateEntry(c, mem, dest, size, t, low, delta, e);
        ghost var next := Patched(c, window, RelocPatches(c, window, t, low, i + 1), delta);
        SpliceAgain(outside, dest, current, next);
        current := next;
      } else if t.kind.Rela? && RelocType(e) == 0 {
      } else {
        assert !SupportedAt(c, window, t, low, i);
        return false;
      }
    }
    ok := true;
  }

  lemma NoPatches(c: Class, m: seq<byte>, t: Table, low: nat)
    ensures RelocPatches(c, m, t, low, 0) == []
  {
  }

  /** elf32_do_relocation and elf64_do_relocation. */
  method DoRelocation(c: Class, mem: array<byte>, dest: nat, size: nat, img: seq<byte>, p: Phdr, low: nat, delta: int)
    returns (ok: bool)
    requires dest + size <= mem.Length && |img| < TWO_32 && p.offset + p.filesz % TWO_32 < TWO_32
    requires DynamicMapped(c, img, p) && DynTable(c, img, p).Some? ==>
               TableOk(c, mem[..][dest..dest + size], DynTable(c, img, p).value, low)
    modifies mem
    ensures var window := old(mem[..])[dest..dest + size];
            && (ok <==> Relocatable(c, window, img, p, low))
            && (ok ==>
                  var ps := RelocPatches(c, window, DynTable(c, img, p).value, low, DynTable(c, img, p).value.count);
                  PatchesIn(c, ps, size) && mem[..] == Splice(old(mem[..]), dest, Patched(c, window, ps, delta)))
            && (!ok ==> exists w: seq<byte> :: |w| == size && mem[..] == Splice(old(mem[..]), dest, w))
  {
    hide Field, Extent, Splice, Patched, RelocPatches, LastWithTag;
    ghost var window := mem[..][dest..dest + size];
    assert mem[..] == Splice(mem[..], dest, window);
    if !Maps(|img|, p.offset, p.filesz % TWO_32) {
      return false;
    }
    var table := ReadDynamic(c, img, p);
    if table.None? {
      return false;
    }
    ok := Relocate(c, mem, dest, size, table.value, low, delta);
  }

  /** The dynamic section is in the file, names a usable table, and all its types are known. */
  ghost predicate Relocatable(c: Class, m: seq<byte>, img: seq<byte>, p: Phdr, low: nat) {
    && DynamicMapped(c, img, p)
    && DynTable(c, img, p).Some?
    && EntriesOk(c, m, DynTable(c, img, p).value, low, DynTable(c, img, p).value.count)
    && AllSupported(c, m, DynTable(c, img, p).value, low, DynTable(c, img, p).value.count)
  }
}
