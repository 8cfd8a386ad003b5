/** What relocation means on the bytes of a file and of the loaded image: which dynamic
    entries count, which table they lead to, and what each relocated word holds. */
module ElfDynamic {
  import opened Words
  import opened Bytes
  import opened ElfFormat
  import opened ElfSegments
  import opened ElfPatches
  import opened ElfHeaders
  import opened ElfRelocation
  import opened ElfLoad
  import opened ElfMeaning

  // ----- the dynamic section

  /** Entry `i` of the dynamic section lies in its 32-bit size. */
  predicate InDynamic(c: Class, p: Phdr, i: nat) { i * c.DynSize() + c.DynSize() <= p.filesz % 0x1_0000_0000 }

  ghost function Tag(c: Class, img: seq<byte>, p: Phdr, i: nat): nat
    requires DynamicMapped(c, img, p) && InDynamic(c, p, i)
  {
    Field(img, p.offset + i * c.DynSize(), c.Word())
  }

  /** The dynamic section gives `value` for `tag`: in the last entry that has the tag. */
  ghost predicate Gives(c: Class, img: seq<byte>, p: Phdr, tag: nat, value: nat)
    requires DynamicMapped(c, img, p)
  {
    exists i: nat ::
      && InDynamic(c, p, i) && Tag(c, img, p, i) == tag
      && Field(img, p.offset + i * c.DynSize() + c.Word(), c.Word()) == value
      && forall j: nat :: i < j && InDynamic(c, p, j) ==> Tag(c, img, p, j) != tag
  }

  ghost predicate Lacks(c: Class, img: seq<byte>, p: Phdr, tag: nat)
    requires DynamicMapped(c, img, p)
  {
    forall j: nat :: InDynamic(c, p, j) ==> Tag(c, img, p, j) != tag
  }

  lemma DynamicCount(c: Class, p: Phdr, i: nat)
    ensures InDynamic(c, p, i) <==> i < DynCount(c, p)
    ensures Extent(i, c.DynSize()) == i * c.DynSize()
  {
    QuotientCounts(i, p.filesz % TWO_32, c.DynSize());
    ExtentIsProduct(i, c.DynSize());
  }

  lemma {:induction false} LastWithTagFound(c: Class, img: seq<byte>, p: Phdr, n: nat, tag: nat)
    requires DynamicMapped(c, img, p) && n <= DynCount(c, p)
    requires forall j: nat :: n <= j && InDynamic(c, p, j) ==> Tag(c, img, p, j) != tag
    ensures p.offset + Extent(n, c.DynSize()) <= |img|
    ensures LastWithTag(c, img, p.offset, n, tag).Some? ==> Gives(c, img, p, tag, LastWithTag(c, img, p.offset, n, tag).value)
    ensures LastWithTag(c, img, p.offset, n, tag).None? ==> Lacks(c, img, p, tag)
  {
    hide Field, Extent, DynCount;
    DynamicCount(c, p, n);
    if n > 0 {
      DynamicCount(c, p, n - 1);
      if Tag(c, img, p, n - 1) != tag {
        LastWithTagFound(c, img, p, n - 1, tag);
      }
    }
  }

  lemma OneValue(c: Class, img: seq<byte>, p: Phdr, tag: nat, v: nat, v': nat)
    requires DynamicMapped(c, img, p)
    ensures Gives(c, img, p, tag, v) && Gives(c, img, p, tag, v') ==> v == v'
    ensures Gives(c, img, p, tag, v) ==> !Lacks(c, img, p, tag)
  {
  }

  /** The loop over the dynamic section finds what the section gives. */
  lemma TagFound(c: Class, img: seq<byte>, p: Phdr, tag: nat)
    requires DynamicMapped(c, img, p)
    ensures p.offset + Extent(DynCount(c, p), c.DynSize()) <= |img|
    ensures var r := LastWithTag(c, img, p.offset, DynCount(c, p), tag);
            && (r.None? <==> Lacks(c, img, p, tag))
            && (forall v: nat :: r == Some(v) <==> Gives(c, img, p, tag, v))
  {
    hide Field, Extent, LastWithTag, Gives, Lacks;
    forall j: nat ensures InDynamic(c, p, j) <==> j < DynCount(c, p) {
      DynamicCount(c, p, j);
    }
    LastWithTagFound(c, img, p, DynCount(c, p), tag);
    var r := LastWithTag(c, img, p.offset, DynCount(c, p), tag);
    forall v: nat | Gives(c, img, p, tag, v) ensures r == Some(v) {
      OneValue(c, img, p, tag, v, if r.Some? then r.value else 0);
    }
    if r.Some? {
      OneValue(c, img, p, tag, r.value, r.value);
    }
  }

  // ----- the table

  /** A size or entry size is taken from the low 32 bits. */
  ghost predicate GivesSize(c: Class, img: seq<byte>, p: Phdr, tag: nat, size: nat)
    requires DynamicMapped(c, img, p)
  {
    exists v: nat :: Gives(c, img, p, tag, v) && v % 0x1_0000_0000 == size
  }

  /** A RELA table of `size` bytes at `at` and a symbol table at `symbols` are described in
      full: DT_RELA, DT_RELASZ, DT_RELAENT, DT_SYMTAB and DT_SYMENT. */
  ghost predicate RelaGiven(c: Class, img: seq<byte>, p: Phdr, at: nat, size: nat, symbols: nat)
    requires DynamicMapped(c, img, p)
  {
    && Gives(c, img, p, 7, at) && GivesSize(c, img, p, 8, size) && size != 0 && Gives(c, img, p, 6, symbols)
    && GivesSize(c, img, p, 9, if c.Elf32? then 12 else 24) && GivesSize(c, img, p, 11, if c.Elf32? then 16 else 24)
  }

  /** A REL table, in a 32-bit file: DT_REL, DT_RELSZ, DT_RELENT and DT_SYMTAB. */
  ghost predicate RelGiven(c: Class, img: seq<byte>, p: Phdr, at: nat, size: nat, symbols: nat)
    requires DynamicMapped(c, img, p)
  {
    && c.Elf32? && Gives(c, img, p, 17, at) && GivesSize(c, img, p, 18, size) && size != 0
    && GivesSize(c, img, p, 19, 8) && Gives(c, img, p, 6, symbols)
  }

  ghost predicate NoRela(c: Class, img: seq<byte>, p: Phdr)
    requires DynamicMapped(c, img, p)
  {
    forall at, size, symbols :: !RelaGiven(c, img, p, at, size, symbols)
  }

  /** A size as the code keeps it: negative from 2^31 on. */
  lemma SignedSize(v: nat, size: nat)
    requires size < 0x8000_0000
    ensures Signed32(v) == size <==> v % 0x1_0000_0000 == size
    ensures Signed32(v) > 0 <==> 0 < v % 0x1_0000_0000 < 0x8000_0000
  {
  }

  lemma SizeFound(c: Class, img: seq<byte>, p: Phdr, tag: nat)
    requires DynamicMapped(c, img, p)
    ensures p.offset + Extent(DynCount(c, p), c.DynSize()) <= |img|
    ensures var s := SizeOf(LastWithTag(c, img, p.offset, DynCount(c, p), tag));
            && (forall size :: GivesSize(c, img, p, tag, size) && size < 0x8000_0000 ==> s == size)
            && (forall size :: GivesSize(c, img, p, tag, size) && size >= 0x8000_0000 ==> s < 0)
            && (s != 0 ==> exists size :: GivesSize(c, img, p, tag, size) && size != 0)
            && (s > 0 ==> GivesSize(c, img, p, tag, s))
  {
    hide Field, Extent, LastWithTag, Gives, Lacks, DynCount;
    TagFound(c, img, p, tag);
    var r := LastWithTag(c, img, p.offset, DynCount(c, p), tag);
    if r.Some? {
      var size := r.value % TWO_32;
      assert GivesSize(c, img, p, tag, size);
      if size < 0x8000_0000 {
        SignedSize(r.value, size);
      }
    }
    forall size | GivesSize(c, img, p, tag, size) ensures r.Some? && r.value % TWO_32 == size {
      var v :| Gives(c, img, p, tag, v) && v % 0x1_0000_0000 == size;
    }
  }

  /** How many entries of `entry` bytes a table of `size` bytes has; a size of 2 GB and more is
      negative for the code. */
  function CountOf(size: nat, entry: nat): nat
    requires entry > 0
  {
    if size < 0x8000_0000 then size / entry else 0
  }

  /** The table chosen is the one described: RELA before REL, and none is an error. */
  lemma TableChosen(c: Class, img: seq<byte>, p: Phdr, at: nat, size: nat, symbols: nat)
    requires DynamicMapped(c, img, p)
    ensures RelaGiven(c, img, p, at, size, symbols) ==>
              DynTable(c, img, p) == Some(Table(Rela, at, CountOf(size, if c.Elf32? then 12 else 24), symbols))
    ensures NoRela(c, img, p) && RelGiven(c, img, p, at, size, symbols) ==>
              DynTable(c, img, p) == Some(Table(Rel, at, CountOf(size, 8), symbols))
  {
    hide Field, Extent, LastWithTag, Gives, GivesSize, DynCount, Signed32, NoRela;
    TagFound(c, img, p, 7);
    TagFound(c, img, p, 6);
    TagFound(c, img, p, 17);
    SizeFound(c, img, p, 8);
    SizeFound(c, img, p, 9);
    SizeFound(c, img, p, 11);
    SizeFound(c, img, p, 18);
    SizeFound(c, img, p, 19);
    if NoRela(c, img, p) {
      NotRela(c, img, p);
    }
  }

  lemma NotRela(c: Class, img: seq<byte>, p: Phdr)
    requires DynamicMapped(c, img, p)
    ensures NoRela(c, img, p) <==> !(DynTable(c, img, p).Some? && DynTable(c, img, p).value.kind.Rela?)
  {
    hide Field, Extent, LastWithTag, Gives, GivesSize, DynCount, Signed32;
    TagFound(c, img, p, 7);
    TagFound(c, img, p, 6);
    SizeFound(c, img, p, 8);
    SizeFound(c, img, p, 9);
    SizeFound(c, img, p, 11);
    if DynTable(c, img, p).Some? && DynTable(c, img, p).value.kind.Rela? {
      var size :| GivesSize(c, img, p, 8, size) && size != 0;
      assert RelaGiven(c, img, p, DynTable(c, img, p).value.at, size, DynTable(c, img, p).value.symbols);
    }
  }

  /** Without a described table relocation is an error. */
  lemma TableMissing(c: Class, img: seq<byte>, p: Phdr)
    requires DynamicMapped(c, img, p)
    ensures DynTable(c, img, p) == None <==> NoRela(c, img, p) && forall at, size, symbols :: !RelGiven(c, img, p, at, size, symbols)
  {
    hide Field, Extent, LastWithTag, Gives, GivesSize, DynCount, Signed32, NoRela;
    NotRela(c, img, p);
    TagFound(c, img, p, 17);
    TagFound(c, img, p, 6);
    SizeFound(c, img, p, 18);
    SizeFound(c, img, p, 19);
    if DynTable(c, img, p).Some? && DynTable(c, img, p).value.kind.Rel? {
      var size :| GivesSize(c, img, p, 18, size) && size != 0;
      assert RelGiven(c, img, p, DynTable(c, img, p).value.at, size, DynTable(c, img, p).value.symbols);
    }
  }

  // ----- the relocated words

  /** Header `d` is the last PT_DYNAMIC of the file. */
  ghost predicate DynamicIs(c: Class, img: seq<byte>, d: nat) {
    && PhdrTableIn(c, img) && d < ReadEhdr(c, img).phnum < 0x8000 && PhdrNo(c, img, d).ptype == 2
    && forall j :: d < j < ReadEhdr(c, img).phnum ==> PhdrNo(c, img, j).ptype != 2
  }

  lemma DynamicFound(c: Class, img: seq<byte>, d: nat)
    requires DynamicIs(c, img, d)
    ensures HasPhdrs(c, img, ReadEhdr(c, img)) && HasDynamic(c, img) && DynamicPhdr(c, img) == PhdrNo(c, img, d)
  {
    hide Field, ReadEhdr, ReadPhdr;
    VisitedHeaders(c, img);
    var ps := ImagePhdrs(c, img);
    assert ps[d].ptype == 2;
    assert LastDynamic(ps, |ps|) == d;
  }

  /** A word of the loaded image holds `value` plus the relocation offset. */
  ghost predicate Holds(c: Class, m: seq<byte>, low: nat, offset: nat, value: int) {
    && low <= offset && offset - low + c.Word() <= |m|
    && Field(m, offset - low, c.Word()) == value % (if c.Elf32? then 0x1_0000_0000 else 0x1_0000_0000_0000_0000)
  }

  /** The value an active entry asks for, before the offset is added. */
  ghost function ValueOf(c: Class, m: seq<byte>, t: Table, low: nat, i: nat): int
    requires EntryOk(c, m, t, low, i) && Active(ReadEntry(c, m, t, i))
  {
    var e := ReadEntry(c, m, t, i);
    AddendOf(c, m, t, low, e) + if RelocType(e) == R_DIRECT then Field(m, SymbolAt(c, t, e), c.Word()) else 0
  }

  /** The patch an active entry asked for is in the loaded image. */
  lemma EntryHolds(c: Class, img: seq<byte>, low: nat, window: seq<byte>, delta: int, i: nat)
    requires LoadPre(c, img, low, window) && Loads(c, img, low, window) && HasDynamic(c, img) && i < ImageTable(c, img).value.count
    ensures var m, t := CopiedImage(c, img, low, window), ImageTable(c, img).value;
            && EntryOk(c, m, t, low, i) && SupportedAt(c, m, t, low, i)
            && (Active(ReadEntry(c, m, t, i)) ==>
                  Holds(c, LoadedImage(c, img, low, window, delta), low, ReadEntry(c, m, t, i).offset, ValueOf(c, m, t, low, i) + delta))
  {
    hide Field, Extent, Copied, Patched, ReadEhdr, ReadEntry, SymbolAt, RelocPatches, HeaderPatches, DynTable, AddendOf;
    var m, t := CopiedImage(c, img, low, window), ImageTable(c, img).value;
    TableEntries(c, m, t, low);
    assert SupportedAt(c, m, t, low, i);
    var e := ReadEntry(c, m, t, i);
    if Active(e) {
      PatchInPlace(c, m, t, low, i);
      TargetWordsPlaced(c, img, low, window);
      var hs, ws := HeaderWords(c, img, m), TargetWords(c, img, low, window);
      var j := |RelocPatches(c, m, t, low, i)|;
      assert ws[|hs| + j] == RelocPatches(c, m, t, low, t.count)[j];
      PatchedWord(c, m, ws, delta, |hs| + j);
    }
  }

  lemma PatchInPlace(c: Class, m: seq<byte>, t: Table, low: nat, i: nat)
    requires EntriesOk(c, m, t, low, t.count) && i < t.count && EntryOk(c, m, t, low, i) && Active(ReadEntry(c, m, t, i))
    ensures EntriesOk(c, m, t, low, i)
    ensures var rs, j, e := RelocPatches(c, m, t, low, t.count), |RelocPatches(c, m, t, low, i)|, ReadEntry(c, m, t, i);
            && j < |rs|
            && rs[j] == Patch(e.offset - low, AddendOf(c, m, t, low, e)
                                              + if RelocType(e) == R_DIRECT then Field(m, SymbolAt(c, t, e), c.Word()) else 0)
  {
    hide Field, Extent, ReadEntry, SymbolAt, RelocPatches, PatchOf;
    RelocPatchesPrefix(c, m, t, low, i + 1, t.count);
    NextPatches(c, m, t, low, i);
  }

  /** Where a relocation table leads to on bytes: entry `i` of the RELA table at `at`, in the
      copied window `m`, has been applied in `m'`. */
  ghost predicate RelaApplied(c: Class, m: seq<byte>, m': seq<byte>, low: nat, delta: int, at: nat, symbols: nat, i: nat) {
    var w, a := c.Word(), at + i * (if c.Elf32? then 12 else 24);
    && a + 3 * w <= |m|
    && var offset, info, addend := Field(m, a, w), Field(m, a + w, w), Field(m, a + 2 * w, w);
       && (info % 256 == 0 || info % 256 == 1 || info % 256 == 8)
       && (info % 256 == 8 ==> Holds(c, m', low, offset, addend + delta))
       && (info % 256 == 1 ==>
             var s := if c.Elf32? then symbols + info / 256 * 16 + 4 else symbols + info / 0x1_0000_0000 * 24 + 8;
             s + w <= |m| && Holds(c, m', low, offset, addend + Field(m, s, w) + delta))
  }

  /** The same for a REL table of a 32-bit file, whose addends are in the words themselves. */
  ghost predicate RelApplied(m: seq<byte>, m': seq<byte>, low: nat, delta: int, at: nat, symbols: nat, i: nat) {
    var a := at + i * 8;
    && a + 8 <= |m|
    && var offset, info := Field(m, a, 4), Field(m, a + 4, 4);
       && (info % 256 == 1 || info % 256 == 8)
       && low <= offset && offset - low + 4 <= |m|
       && (info % 256 == 8 ==> Holds(Elf32, m', low, offset, Field(m, offset - low, 4) + delta))
       && (info % 256 == 1 ==>
             var s := symbols + info / 256 * 16 + 4;
             s + 4 <= |m| && Holds(Elf32, m', low, offset, Field(m, offset - low, 4) + Field(m, s, 4) + delta))
  }

  lemma EntryOnBytes(c: Class, m: seq<byte>, t: Table, i: nat)
    requires EntryAt(c, t, i) + EntrySize(c, t.kind) <= |m|
    ensures var w, a := c.Word(), t.at + i * (if t.kind.Rel? then 2 * c.Word() else 3 * c.Word());
            && EntryAt(c, t, i) == a
            && ReadEntry(c, m, t, i) == Entry(Field(m, a, w), Field(m, a + w, w), if t.kind.Rela? then Field(m, a + 2 * w, w) else 0)
    ensures var e := ReadEntry(c, m, t, i);
            SymbolAt(c, t, e)
            == if c.Elf32? then t.symbols + e.info / 256 * 16 + 4 else t.symbols + e.info / 0x1_0000_0000 * 24 + 8
  {
    hide Field;
    ExtentIsProduct(i, EntrySize(c, t.kind));
    var e := ReadEntry(c, m, t, i);
    ExtentIsProduct(if c.Elf32? then e.info / 256 else e.info / TWO_32, c.SymSize());
  }

  lemma AppliedRela(c: Class, m: seq<byte>, m': seq<byte>, t: Table, low: nat, delta: int, i: nat)
    requires t.kind.Rela? && EntryOk(c, m, t, low, i) && SupportedAt(c, m, t, low, i)
    requires Active(ReadEntry(c, m, t, i)) ==> Holds(c, m', low, ReadEntry(c, m, t, i).offset, ValueOf(c, m, t, low, i) + delta)
    ensures RelaApplied(c, m, m', low, delta, t.at, t.symbols, i)
  {
    hide Field, Extent, Holds, EntryAt, SymbolAt, ReadEntry;
    EntryOnBytes(c, m, t, i);
  }

  lemma AppliedRel(m: seq<byte>, m': seq<byte>, t: Table, low: nat, delta: int, i: nat)
    requires t.kind.Rel? && EntryOk(Elf32, m, t, low, i) && SupportedAt(Elf32, m, t, low, i)
    requires Active(ReadEntry(Elf32, m, t, i)) ==>
               Holds(Elf32, m', low, ReadEntry(Elf32, m, t, i).offset, ValueOf(Elf32, m, t, low, i) + delta)
    ensures RelApplied(m, m', low, delta, t.at, t.symbols, i)
  {
    hide Field, Extent, Holds, EntryAt, SymbolAt, ReadEntry;
    EntryOnBytes(Elf32, m, t, i);
  }

  /** Relocation on bytes, RELA.  Every entry that lies in the table's size has been applied:
      a word of type 8 holds its addend plus the offset, one of type 1 also the value of its
      symbol, and there are no other types but 0. */
  lemma RelaMeaning(c: Class, img: seq<byte>, low: nat, window: seq<byte>, delta: int, d: nat, at: nat, size: nat, symbols: nat, i: nat)
    requires LoadPre(c, img, low, window) && Loads(c, img, low, window)
    requires DynamicIs(c, img, d) && DynamicMapped(c, img, PhdrNo(c, img, d))
    requires RelaGiven(c, img, PhdrNo(c, img, d), at, size, symbols) && size < 0x8000_0000
    requires i * (if c.Elf32? then 12 else 24) + (if c.Elf32? then 12 else 24) <= size
    ensures RelaApplied(c, CopiedImage(c, img, low, window), LoadedImage(c, img, low, window, delta), low, delta, at, symbols, i)
  {
    hide Field, Extent, Copied, ReadEhdr, ReadPhdr, LoadedImage, DynTable, RelaGiven, Holds, EntryAt, SymbolAt, ReadEntry, RelaApplied,
         Compatible, AllSupported, RelocPatches, EntryOk, SupportedAt, ValueOf;
    DynamicFound(c, img, d);
    TableChosen(c, img, PhdrNo(c, img, d), at, size, symbols);
    QuotientCounts(i, size, if c.Elf32? then 12 else 24);
    EntryHolds(c, img, low, window, delta, i);
    AppliedRela(c, CopiedImage(c, img, low, window), LoadedImage(c, img, low, window, delta), ImageTable(c, img).value, low, delta, i);
  }

  /** Relocation on bytes, REL, which is used if no RELA table is described. */
  lemma RelMeaning(img: seq<byte>, low: nat, window: seq<byte>, delta: int, d: nat, at: nat, size: nat, symbols: nat, i: nat)
    requires LoadPre(Elf32, img, low, window) && Loads(Elf32, img, low, window)
    requires DynamicIs(Elf32, img, d) && DynamicMapped(Elf32, img, PhdrNo(Elf32, img, d)) && NoRela(Elf32, img, PhdrNo(Elf32, img, d))
    requires RelGiven(Elf32, img, PhdrNo(Elf32, img, d), at, size, symbols) && size < 0x8000_0000
    requires i * 8 + 8 <= size
    ensures RelApplied(CopiedImage(Elf32, img, low, window), LoadedImage(Elf32, img, low, window, delta), low, delta, at, symbols, i)
  {
    hide Field, Extent, Copied, ReadEhdr, ReadPhdr, LoadedImage, DynTable, RelGiven, NoRela, Holds, EntryAt, SymbolAt, ReadEntry, RelApplied,
         Compatible, AllSupported, RelocPatches, EntryOk, SupportedAt, ValueOf;
    DynamicFound(Elf32, img, d);
    TableChosen(Elf32, img, PhdrNo(Elf32, img, d), at, size, symbols);
    QuotientCounts(i, size, 8);
    EntryHolds(Elf32, img, low, window, delta, i);
    AppliedRel(CopiedImage(Elf32, img, low, window), LoadedImage(Elf32, img, low, window, delta), ImageTable(Elf32, img).value, low, delta, i);
  }

  // ----- the rebased headers

  lemma {:induction false} HeaderPatchesPrefix(c: Class, m: seq<byte>, eh: Ehdr, i: nat, n: nat)
    requires HasPhdrs(c, m, eh) && i <= n <= eh.phnum
    ensures HeaderPatches(c, m, eh, i) <= HeaderPatches(c, m, eh, n)
  {
    hide Field, Extent, ReadPhdr;
    if i < n {
      HeaderPatchesPrefix(c, m, eh, i, n - 1);
    }
  }

  lemma HeaderPair(c: Class, m: seq<byte>, eh: Ehdr, n: nat)
    requires HasPhdrs(c, m, eh) && n < eh.phnum
    ensures PhdrAt(eh, n) + c.PhdrSize() <= |m|
    ensures var a := PhdrAt(eh, n);
            var p := ReadPhdr(c, m, a);
            var hs, j := HeaderPatches(c, m, eh, eh.phnum), |HeaderPatches(c, m, eh, n)|;
            p.memsz != 0 ==>
              j + 1 < |hs| && hs[j] == Patch(a + c.PaddrAt(), p.paddr) && hs[j + 1] == Patch(a + c.VaddrAt(), p.vaddr)
  {
    hide Field, Extent, ReadPhdr;
    PhdrInside(c, m, eh, n);
    HeaderPatchesPrefix(c, m, eh, n + 1, eh.phnum);
  }

  /** The copied window has the file's program headers. */
  lemma CopiedPhdr(c: Class, img: seq<byte>, low: nat, window: seq<byte>, n: nat)
    requires WellLaidOut(c, img, low) && SegmentsFit(ImagePhdrs(c, img), img, low, |window|)
    requires PhdrTableIn(c, img) && n < ReadEhdr(c, img).phnum
    ensures var eh, m := ReadEhdr(c, img), CopiedImage(c, img, low, window);
            && HasPhdrs(c, m, eh) && PhdrAt(eh, n) + c.PhdrSize() <= |m|
            && PhdrAt(eh, n) == PhdrPlace(eh, n) && ReadPhdr(c, m, PhdrAt(eh, n)) == PhdrNo(c, img, n)
  {
    hide Field, Extent, Copied, ReadEhdr, ReadPhdr;
    var eh, m := ReadEhdr(c, img), CopiedImage(c, img, low, window);
    CopiedHeaders(c, img, low, window);
    HeadersArrive(ImagePhdrs(c, img), img, low, window, PhdrEnd(eh));
    ExtentIsProduct(n, eh.phentsize);
    PhdrInside(c, m, eh, n);
    var a := PhdrAt(eh, n);
    PrefixStretch(m, img, PhdrEnd(eh), a, c.PhdrSize());
    SamePhdr(c, m, img, a);
  }

  /** In `m`, the address fields of program header `n` hold what the file says plus `delta`. */
  ghost predicate HeaderRebased(c: Class, img: seq<byte>, m: seq<byte>, delta: int, n: nat)
    requires PhdrTableIn(c, img) && n < ReadEhdr(c, img).phnum
  {
    var a := PhdrPlace(ReadEhdr(c, img), n);
    && Holds(c, m, 0, a + (if c.Elf32? then 12 else 24), PhdrNo(c, img, n).paddr + delta)
    && Holds(c, m, 0, a + (if c.Elf32? then 8 else 16), PhdrNo(c, img, n).vaddr + delta)
  }

  /** Rebasing on bytes: p_paddr and p_vaddr of every header with a memory size hold what the
      file says plus the offset. */
  lemma HeaderMeaning(c: Class, img: seq<byte>, low: nat, window: seq<byte>, delta: int, n: nat)
    requires PhdrTableIn(c, img) && n < ReadEhdr(c, img).phnum < 0x8000 && PhdrNo(c, img, n).memsz != 0
    requires LoadPre(c, img, low, window) && Loads(c, img, low, window)
    ensures HeaderRebased(c, img, LoadedImage(c, img, low, window, delta), delta, n)
  {
    hide Field, Extent, Copied, Patched, ReadEhdr, ReadPhdr, HeaderPatches, RelocPatches, DynTable, Compatible, AllSupported;
    var eh, m := ReadEhdr(c, img), CopiedImage(c, img, low, window);
    CopiedPhdr(c, img, low, window, n);
    HeaderPair(c, m, eh, n);
    TargetWordsPlaced(c, img, low, window);
    var ws, j := TargetWords(c, img, low, window), |HeaderPatches(c, m, eh, n)|;
    assert ws[j] == HeaderWords(c, img, m)[j] && ws[j + 1] == HeaderWords(c, img, m)[j + 1];
    PatchedWord(c, m, ws, delta, j);
    PatchedWord(c, m, ws, delta, j + 1);
  }

  // ----- nothing else changes

  lemma {:induction false} HeaderPatchOrigin(c: Class, m: seq<byte>, eh: Ehdr, n: nat, j: nat) returns (i: nat)
    requires HasPhdrs(c, m, eh) && n <= eh.phnum && j < |HeaderPatches(c, m, eh, n)|
    ensures i < n && PhdrAt(eh, i) + c.PhdrSize() <= |m| && ReadPhdr(c, m, PhdrAt(eh, i)).memsz != 0
    ensures var at := HeaderPatches(c, m, eh, n)[j].at;
            at == PhdrAt(eh, i) + c.PaddrAt() || at == PhdrAt(eh, i) + c.VaddrAt()
  {
    hide Field, Extent, ReadPhdr;
    PhdrInside(c, m, eh, n - 1);
    if j < |HeaderPatches(c, m, eh, n - 1)| {
      i := HeaderPatchOrigin(c, m, eh, n - 1, j);
    } else {
      i := n - 1;
    }
  }

  lemma {:induction false} RelocPatchOrigin(c: Class, m: seq<byte>, t: Table, low: nat, n: nat, j: nat) returns (i: nat)
    requires EntriesOk(c, m, t, low, n) && j < |RelocPatches(c, m, t, low, n)|
    ensures i < n && EntryOk(c, m, t, low, i) && Active(ReadEntry(c, m, t, i))
    ensures RelocPatches(c, m, t, low, n)[j].at == ReadEntry(c, m, t, i).offset - low
  {
    hide Field, Extent, ReadEntry, SymbolAt;
    if j < |RelocPatches(c, m, t, low, n - 1)| {
      i := RelocPatchOrigin(c, m, t, low, n - 1, j);
    } else {
      i := n - 1;
      assert EntryOk(c, m, t, low, i);
    }
  }

  /** Byte `k` is in no address field of a program header that describes memory. */
  ghost predicate OutsideHeaders(c: Class, img: seq<byte>, k: nat)
    requires PhdrTableIn(c, img)
  {
    forall n :: 0 <= n < ReadEhdr(c, img).phnum && PhdrNo(c, img, n).memsz != 0 ==>
      var a := PhdrPlace(ReadEhdr(c, img), n);
      if c.Elf32? then !(a + 8 <= k < a + 16) else !(a + 16 <= k < a + 32)
  }

  /** Byte `k` is in no word that an entry of the table of `size` bytes at `at` relocates. */
  ghost predicate OutsideEntries(c: Class, m: seq<byte>, low: nat, at: nat, entry: nat, size: nat, k: nat) {
    forall i: nat :: i * entry + entry <= size && size < 0x8000_0000 && at + i * entry + 2 * c.Word() <= |m| ==>
      var offset, info := Field(m, at + i * entry, c.Word()), Field(m, at + i * entry + c.Word(), c.Word());
      info % 256 == 1 || info % 256 == 8 ==> !(offset <= low + k < offset + c.Word())
  }

  lemma HeadersApart(c: Class, img: seq<byte>, low: nat, window: seq<byte>, k: nat)
    requires WellLaidOut(c, img, low) && SegmentsFit(ImagePhdrs(c, img), img, low, |window|)
    requires HasPhdrs(c, CopiedImage(c, img, low, window), ReadEhdr(c, img))
    requires PhdrTableIn(c, img) && OutsideHeaders(c, img, k)
    ensures Untouched(c, HeaderWords(c, img, CopiedImage(c, img, low, window)), k, 1)
  {
    hide Field, Extent, Copied, ReadEhdr, ReadPhdr, HeaderPatches;
    var m, eh := CopiedImage(c, img, low, window), ReadEhdr(c, img);
    var hs := HeaderWords(c, img, m);
    forall j | 0 <= j < |hs| ensures Apart(hs[j].at, c.Word(), k, 1) {
      var i := HeaderPatchOrigin(c, m, eh, Iterations(eh.phnum), j);
      CopiedPhdr(c, img, low, window, i);
      assert PhdrNo(c, img, i).memsz != 0;
    }
  }

  lemma EntriesApart(c: Class, m: seq<byte>, t: Table, low: nat, size: nat, k: nat)
    requires EntriesOk(c, m, t, low, t.count) && t.count == CountOf(size, EntrySize(c, t.kind))
    requires OutsideEntries(c, m, low, t.at, EntrySize(c, t.kind), size, k)
    ensures Untouched(c, RelocPatches(c, m, t, low, t.count), k, 1)
  {
    hide Field, Extent, ReadEntry, SymbolAt, RelocPatches, EntryAt;
    var rs := RelocPatches(c, m, t, low, t.count);
    forall j | 0 <= j < |rs| ensures Apart(rs[j].at, c.Word(), k, 1) {
      var i := RelocPatchOrigin(c, m, t, low, t.count, j);
      QuotientCounts(i, size, EntrySize(c, t.kind));
      EntryOnBytes(c, m, t, i);
    }
  }

  /** The rest of the loaded image, on bytes: what is in no address field of a header and in no
      word that an entry of the described table relocates is as it was copied. */
  lemma RestMeaning(c: Class, img: seq<byte>, low: nat, window: seq<byte>, delta: int, d: nat, at: nat, size: nat, symbols: nat, k: nat)
    requires LoadPre(c, img, low, window) && Loads(c, img, low, window) && k < |window|
    requires PhdrTableIn(c, img) && OutsideHeaders(c, img, k)
    requires DynamicIs(c, img, d) && DynamicMapped(c, img, PhdrNo(c, img, d))
    requires var m, p := CopiedImage(c, img, low, window), PhdrNo(c, img, d);
             || (RelaGiven(c, img, p, at, size, symbols) && OutsideEntries(c, m, low, at, if c.Elf32? then 12 else 24, size, k))
             || (NoRela(c, img, p) && RelGiven(c, img, p, at, size, symbols) && OutsideEntries(c, m, low, at, 8, size, k))
    ensures LoadedImage(c, img, low, window, delta)[k] == CopiedImage(c, img, low, window)[k]
  {
    hide Field, Extent, Copied, Patched, ReadEhdr, ReadPhdr, DynTable, RelaGiven, RelGiven, NoRela, OutsideHeaders, OutsideEntries,
         HeaderPatches, RelocPatches, AllSupported;
    DynamicFound(c, img, d);
    TableChosen(c, img, PhdrNo(c, img, d), at, size, symbols);
    var m, t := CopiedImage(c, img, low, window), ImageTable(c, img).value;
    TableEntries(c, m, t, low);
    HeadersApart(c, img, low, window, k);
    assert RelGiven(c, img, PhdrNo(c, img, d), at, size, symbols) ==> c.Elf32? by { RelIsNarrow(c, img, PhdrNo(c, img, d), at, size, symbols); }
    EntriesApart(c, m, t, low, size, k);
    TargetWordsPlaced(c, img, low, window);
    PlacedBytes(c, m, TargetWords(c, img, low, window), delta, k);
  }

  lemma RelIsNarrow(c: Class, img: seq<byte>, p: Phdr, at: nat, size: nat, symbols: nat)
    requires DynamicMapped(c, img, p)
    ensures RelGiven(c, img, p, at, size, symbols) ==> c.Elf32?
  {
  }

  /** The same for an image without a dynamic section. */
  lemma StaticMeaning(c: Class, img: seq<byte>, low: nat, window: seq<byte>, delta: int, k: nat)
    requires LoadPre(c, img, low, window) && Loads(c, img, low, window) && k < |window|
    requires PhdrTableIn(c, img) && OutsideHeaders(c, img, k) && ReadEhdr(c, img).phnum < 0x8000
    requires forall j :: 0 <= j < ReadEhdr(c, img).phnum ==> PhdrNo(c, img, j).ptype != 2
    ensures LoadedImage(c, img, low, window, delta)[k] == CopiedImage(c, img, low, window)[k]
  {
    hide Field, Extent, Copied, Patched, ReadEhdr, ReadPhdr, DynTable, OutsideHeaders, HeaderPatches, RelocPatches, AllSupported;
    var m := CopiedImage(c, img, low, window);
    VisitedHeaders(c, img);
    var ps := ImagePhdrs(c, img);
    assert LastDynamic(ps, |ps|) == -1;
    HeadersApart(c, img, low, window, k);
    TargetWordsPlaced(c, img, low, window);
    assert TargetWords(c, img, low, window) == HeaderWords(c, img, m);
    PlacedBytes(c, m, TargetWords(c, img, low, window), delta, k);
  }

  // ----- when an image loads

  /** Every entry in the table's size has a known type. */
  ghost predicate TypesKnown(c: Class, m: seq<byte>, at: nat, entry: nat, size: nat, zero: bool) {
    forall i: nat :: i * entry + entry <= size && size < 0x8000_0000 && at + i * entry + 2 * c.Word() <= |m| ==>
      KnownType(Field(m, at + i * entry + c.Word(), c.Word()) % 256, zero)
  }

  predicate KnownType(typ: nat, zero: bool) { typ == 1 || typ == 8 || (zero && typ == 0) }

  lemma SupportedMeaning(c: Class, m: seq<byte>, t: Table, low: nat, size: nat)
    requires EntriesOk(c, m, t, low, t.count) && t.count == CountOf(size, EntrySize(c, t.kind))
    ensures AllSupported(c, m, t, low, t.count) <==> TypesKnown(c, m, t.at, EntrySize(c, t.kind), size, t.kind.Rela?)
  {
    hide Field, Extent, ReadEntry, SymbolAt, EntryAt, SupportedAt, EntryOk;
    var entry := EntrySize(c, t.kind);
    forall i: nat ensures i < t.count <==> i * entry + entry <= size && size < 0x8000_0000 {
      QuotientCounts(i, size, entry);
    }
    forall i: nat | i < t.count
      ensures EntryOk(c, m, t, low, i) && t.at + i * entry + 2 * c.Word() <= |m|
      ensures SupportedAt(c, m, t, low, i) <==> KnownType(Field(m, t.at + i * entry + c.Word(), c.Word()) % 256, t.kind.Rela?)
    {
      assert EntryOk(c, m, t, low, i);
      SupportedOne(c, m, t, low, i);
    }
  }

  lemma SupportedOne(c: Class, m: seq<byte>, t: Table, low: nat, i: nat)
    requires EntryOk(c, m, t, low, i)
    ensures var a := t.at + i * EntrySize(c, t.kind);
            && a + 2 * c.Word() <= |m|
            && (SupportedAt(c, m, t, low, i) <==> KnownType(Field(m, a + c.Word(), c.Word()) % 256, t.kind.Rela?))
  {
    hide Field, Extent, ReadEntry, SymbolAt, EntryAt;
    EntryOnBytes(c, m, t, i);
  }

  /** An image with a dynamic section whose segments are in the file loads exactly when the
      dynamic section is in the file, describes a table, and that has known types only. */
  lemma LoadsExactlyWhen(c: Class, img: seq<byte>, low: nat, window: seq<byte>, d: nat)
    requires LoadPre(c, img, low, window) && SegmentsFit(ImagePhdrs(c, img), img, low, |window|) && DynamicIs(c, img, d)
    ensures var m, p := CopiedImage(c, img, low, window), PhdrNo(c, img, d);
            Loads(c, img, low, window) <==>
              && p.offset + p.filesz % 0x1_0000_0000 <= |img|
              && ((exists at, size, symbols :: RelaGiven(c, img, p, at, size, symbols) && TypesKnown(c, m, at, if c.Elf32? then 12 else 24, size, true))
                  || (NoRela(c, img, p) && exists at, size, symbols :: RelGiven(c, img, p, at, size, symbols) && TypesKnown(c, m, at, 8, size, false)))
  {
    hide Field, Extent, Copied, ReadEhdr, ReadPhdr, DynTable, RelaGiven, RelGiven, NoRela, TypesKnown, Compatible, AllSupported, RelocPatches, TableOk;
    var m, p := CopiedImage(c, img, low, window), PhdrNo(c, img, d);
    DynamicFound(c, img, d);
    if DynamicMapped(c, img, p) {
      TableMissing(c, img, p);
      forall at, size, symbols
        ensures RelaGiven(c, img, p, at, size, symbols) ==>
                  (Loads(c, img, low, window) <==> TypesKnown(c, m, at, if c.Elf32? then 12 else 24, size, true))
        ensures NoRela(c, img, p) && RelGiven(c, img, p, at, size, symbols) ==>
                  (Loads(c, img, low, window) <==> TypesKnown(c, m, at, 8, size, false))
      {
        GivenLoads(c, img, low, window, d, at, size, symbols);
      }
      RelaOrNot(c, img, p);
    }
  }

  lemma RelaOrNot(c: Class, img: seq<byte>, p: Phdr)
    requires DynamicMapped(c, img, p)
    ensures NoRela(c, img, p) <==> !exists at, size, symbols :: RelaGiven(c, img, p, at, size, symbols)
  {
  }

  lemma GivenLoads(c: Class, img: seq<byte>, low: nat, window: seq<byte>, d: nat, at: nat, size: nat, symbols: nat)
    requires LoadPre(c, img, low, window) && SegmentsFit(ImagePhdrs(c, img), img, low, |window|) && DynamicIs(c, img, d)
    requires DynamicMapped(c, img, PhdrNo(c, img, d))
    ensures var m, p := CopiedImage(c, img, low, window), PhdrNo(c, img, d);
            && (RelaGiven(c, img, p, at, size, symbols) ==>
                  (Loads(c, img, low, window) <==> TypesKnown(c, m, at, if c.Elf32? then 12 else 24, size, true)))
            && (NoRela(c, img, p) && RelGiven(c, img, p, at, size, symbols) ==>
                  (Loads(c, img, low, window) <==> TypesKnown(c, m, at, 8, size, false)))
  {
    hide Field, Extent, Copied, ReadEhdr, ReadPhdr, DynTable, RelaGiven, RelGiven, NoRela, TypesKnown, AllSupported, RelocPatches, TableOk;
    var m, p := CopiedImage(c, img, low, window), PhdrNo(c, img, d);
    DynamicFound(c, img, d);
    TableChosen(c, img, p, at, size, symbols);
    RelIsNarrow(c, img, p, at, size, symbols);
    if ImageTable(c, img).Some? {
      var t := ImageTable(c, img).value;
      TableEntries(c, m, t, low);
      if RelaGiven(c, img, p, at, size, symbols) || (NoRela(c, img, p) && RelGiven(c, img, p, at, size, symbols)) {
        SupportedMeaning(c, m, t, low, size);
      }
    }
  }
}
