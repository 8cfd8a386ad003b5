/** The whole second pass, with the section header table and the sections behind the image. */
module ElfTables {
  import opened Words
  import opened Bytes
  import opened ElfFormat
  import opened ElfSizing
  import opened ElfSegments
  import opened ElfPatches
  import opened ElfHeaders
  import opened ElfLoad
  import opened ElfSections

  // ----- the ELF header in memory

  /** Relocation leaves the ELF header alone. */
  ghost predicate HeaderSpared(c: Class, img: seq<byte>, low: nat, window: seq<byte>)
    requires LoadPre(c, img, low, window)
  {
    Loads(c, img, low, window) ==> Untouched(c, TargetWords(c, img, low, window), 0, c.EhdrSize())
  }

  lemma LoadedHeader(c: Class, img: seq<byte>, low: nat, window: seq<byte>, delta: int)
    requires LoadPre(c, img, low, window) && Loads(c, img, low, window) && HeaderSpared(c, img, low, window)
    ensures c.EhdrSize() <= |window| && c.EhdrSize() <= |img|
    ensures LoadedImage(c, img, low, window, delta)[..c.EhdrSize()] == img[..c.EhdrSize()]
  {
    hide Field, Extent, Copied, Patched, TargetWords, ReadEhdr, Untouched;
    var n, end := c.EhdrSize(), PhdrEnd(ReadEhdr(c, img));
    var m := CopiedImage(c, img, low, window);
    TargetWordsPlaced(c, img, low, window);
    HeadersArrive(ImagePhdrs(c, img), img, low, window, end);
    PatchedKeeps(c, m, TargetWords(c, img, low, window), delta, 0, n);
    assert m[0..n] == m[..end][..n] == img[..n];
  }

  lemma SameValid(c: Class, m: seq<byte>, m': seq<byte>)
    requires c.EhdrSize() <= |m| && c.EhdrSize() <= |m'| && m[..c.EhdrSize()] == m'[..c.EhdrSize()]
    ensures HeaderIsValid(c, m) <==> HeaderIsValid(c, m')
  {
    hide Field;
    var n := c.EhdrSize();
    assert m[0..n] == m'[0..n];
    FieldInStretch(m, m', 0, n, 20, 4);
    FieldInStretch(m, m', 0, n, 18, 2);
    assert forall k :: 0 <= k < 7 ==> m[k] == m[..n][k] == m'[..n][k] == m'[k];
  }

  lemma HeaderInMemory(c: Class, outside: seq<byte>, dest: nat, loaded: seq<byte>, img: seq<byte>)
    requires dest + |loaded| <= |outside| && c.EhdrSize() <= |loaded| && c.EhdrSize() <= |img|
    requires loaded[..c.EhdrSize()] == img[..c.EhdrSize()]
    ensures var m := Splice(outside, dest, loaded);
            ReadEhdr(c, m[dest..]) == ReadEhdr(c, img) && (HeaderIsValid(c, m[dest..]) <==> HeaderIsValid(c, img))
  {
    hide Splice, ReadEhdr, HeaderIsValid;
    var n := c.EhdrSize();
    var m := Splice(outside, dest, loaded);
    assert m[dest..][..n] == loaded[..n];
    SameEhdr(c, m[dest..], img);
    SameValid(c, m[dest..], img);
  }

  // ----- the table behind the image

  /** The memory after elf32_copy_section_header_table. */
  ghost function WithTable(c: Class, m: seq<byte>, dest: nat, sections: nat, img: seq<byte>, eh: Ehdr): (r: seq<byte>)
    requires eh.shoff + Extent(eh.shnum, eh.shentsize) <= |img| && sections + Extent(eh.shnum, eh.shentsize) <= |m|
    requires dest + c.EhdrSize() <= sections <= |m|
    ensures |r| == |m|
  {
    Put(Splice(m, sections, img[eh.shoff..eh.shoff + Extent(eh.shnum, eh.shentsize)]),
        dest + c.ShoffAt(), c.Word(), AddMod(c, sections - dest, 0))
  }

  /** The header, with its table moved. */
  function Moved(c: Class, eh: Ehdr, offset: nat): Ehdr { eh.(shoff := AddMod(c, offset, 0)) }

  lemma EhdrFields(c: Class, m: seq<byte>, m': seq<byte>, offset: nat)
    requires c.EhdrSize() <= |m| && |m'| == |m| && m' == Put(m, c.ShoffAt(), c.Word(), AddMod(c, offset, 0))
    ensures ReadEhdr(c, m') == Moved(c, ReadEhdr(c, m), offset)
  {
    hide Field, Put, AddMod;
    var w, at, v := c.Word(), c.ShoffAt(), AddMod(c, offset, 0);
    var counts := if c.Elf32? then 42 else 54;
    WordModulus(c);
    PutField(m, at, w, v);
    PutElsewhere(m, at, w, v, 16, 2);
    PutElsewhere(m, at, w, v, 24, w);
    PutElsewhere(m, at, w, v, 24 + w, w);
    PutElsewhere(m, at, w, v, counts, 2);
    PutElsewhere(m, at, w, v, counts + 2, 2);
    PutElsewhere(m, at, w, v, counts + 4, 2);
    PutElsewhere(m, at, w, v, counts + 6, 2);
  }

  /** The table is behind the image, and the header says so. */
  lemma TableInMemory(c: Class, m: seq<byte>, dest: nat, sections: nat, img: seq<byte>, eh: Ehdr)
    requires eh.shoff + Extent(eh.shnum, eh.shentsize) <= |img| && sections + Extent(eh.shnum, eh.shentsize) <= |m|
    requires dest + c.EhdrSize() <= sections <= |m| && ReadEhdr(c, m[dest..]) == eh
    ensures var m' := WithTable(c, m, dest, sections, img, eh);
            var n := Extent(eh.shnum, eh.shentsize);
            && ReadEhdr(c, m'[dest..]) == Moved(c, eh, sections - dest)
            && m'[sections..sections + n] == img[eh.shoff..eh.shoff + n]
  {
    hide Extent, ReadEhdr, AddMod, Splice, Put;
    var n, e := Extent(eh.shnum, eh.shentsize), c.EhdrSize();
    var t := Splice(m, sections, img[eh.shoff..eh.shoff + n]);
    var m' := WithTable(c, m, dest, sections, img, eh);
    assert t[dest..][..e] == m[dest..][..e];
    SameEhdr(c, t[dest..], m[dest..]);
    PutInTail(t, dest, c.ShoffAt(), c.Word(), AddMod(c, sections - dest, 0));
    EhdrFields(c, t[dest..], m'[dest..], sections - dest);
    assert m'[sections..sections + n] == t[sections..sections + n];
    WindowOf(m, sections, img[eh.shoff..eh.shoff + n]);
  }

  lemma PutInTail(m: seq<byte>, dest: nat, o: nat, n: nat, v: nat)
    requires dest + o + n <= |m|
    ensures Put(m, dest + o, n, v)[dest..] == Put(m[dest..], o, n, v)
  {
    hide LeBytes;
  }

  lemma ShdrsOfMoved(c: Class, m: seq<byte>, table: nat, eh: Ehdr, offset: nat)
    requires HasShdrs(c, m, table, eh)
    ensures HasShdrs(c, m, table, Moved(c, eh, offset))
    ensures Shdrs(c, m, table, Moved(c, eh, offset)) == Shdrs(c, m, table, eh)
  {
    hide Field, Extent, ReadShdr;
    var eh' := Moved(c, eh, offset);
    assert forall i: nat :: ShdrAt(table, eh', i) == ShdrAt(table, eh, i);
  }

  // ----- room

  /** The sized image has room for the headers below the table, and for the table. */
  lemma SizedRoom(c: Class, img: seq<byte>, headers: bool, symbols: bool)
    requires Sizable(c, img, symbols) && (headers || symbols)
    requires NoSegmentWraps(c, ImagePhdrs(c, img)) && WellLaidOut(c, img, Sized(c, img, headers, symbols).start)
    ensures var info := Sized(c, img, headers, symbols);
            var eh := ReadEhdr(c, img);
            && info.start + c.EhdrSize() <= info.sections == TableAddr(c, img)
            && info.sections + Extent(eh.shnum, eh.shentsize) <= info.end
            && SegmentsInTarget(ImagePhdrs(c, img), info.start, info.end - info.start)
  {
    hide Field, Extent, Low, High, ReadEhdr, Cursor, AlignUp;
    TightBounds(c, ImagePhdrs(c, img));
  }

  // ----- the sections behind the table

  /** The sections of the file, which the sizing pass mapped. */
  ghost function FileSections(c: Class, img: seq<byte>): seq<Shdr>
    requires Sizable(c, img, true)
  {
    Shdrs(c, img, ReadEhdr(c, img).shoff, ReadEhdr(c, img))
  }

  /** The layout of the sizing pass can be repeated `delta` away. */
  ghost predicate SectionsMovable(c: Class, img: seq<byte>, delta: int)
    requires Sizable(c, img, true)
  {
    var ss := FileSections(c, img);
    && PowersOfTwo(ss) && KeepsAlignment(ss, delta)
    && (forall i :: 0 <= i < |ss| && Placed(ss[i]) ==> ss[i].offset + ss[i].size < TWO_32)
  }

  /** Memory `m` holds the image's header at `dest`, and has room for its sections. */
  ghost predicate RoomForSections(c: Class, img: seq<byte>, m: seq<byte>, dest: nat, delta: int) {
    && Sizable(c, img, true) && SectionsMovable(c, img, delta)
    && 0 <= TableAddr(c, img) + delta && dest + c.EhdrSize() <= TableAddr(c, img) + delta
    && Sized(c, img, true, true).end + delta <= |m| && ReadEhdr(c, m[dest..]) == ReadEhdr(c, img)
  }

  /** In memory that holds the loaded header at `dest`, the copied table describes the
      file's sections, and their layout ends where the sizing pass said, moved. */
  lemma LayoutReady(c: Class, img: seq<byte>, m: seq<byte>, dest: nat, delta: int)
    requires RoomForSections(c, img, m, dest, delta)
    ensures var eh, table, ss := ReadEhdr(c, img), TableAddr(c, img) + delta, FileSections(c, img);
            && table + Extent(eh.shnum, eh.shentsize) <= |m|
            && var m', eh' := WithTable(c, m, dest, table, img, eh), Moved(c, eh, table - dest);
               && ReadEhdr(c, m'[dest..]) == eh'
               && HasShdrs(c, m', table, eh') && Shdrs(c, m', table, eh') == ss
               && LayoutOk(c, ss, img, m', table, eh')
               && LayoutEnd(ss, table, eh') == Sized(c, img, true, true).end + delta
  {
    hide Field, Extent, Cursor, AlignUp, ReadEhdr, ReadShdr, WithTable, AddMod, KeepsAlignment, PowersOfTwo;
    var eh, table := ReadEhdr(c, img), TableAddr(c, img) + delta;
    assert table + Extent(eh.shnum, eh.shentsize) <= |m| by {
      CursorGrowsFrom(FileSections(c, img), TableAddr(c, img) + Extent(eh.shnum, eh.shentsize));
    }
    var m' := WithTable(c, m, dest, table, img, eh);
    TableInMemory(c, m, dest, table, img, eh);
    TwoPassLayout(c, img, m', delta);
    ShdrsOfMoved(c, m', table, eh, table - dest);
  }

  lemma CursorGrowsFrom(ss: seq<Shdr>, cursor: nat)
    ensures cursor <= Cursor(ss, |ss|, cursor)
  {
  }

  // ----- the second pass

  ghost predicate TargetIn(outside: seq<byte>, dest: nat, info: LoadInfo) {
    info.start <= info.end && dest + (info.end - info.start) <= |outside|
  }

  /** What memory `outside` holds where the image is to go. */
  ghost function Target(outside: seq<byte>, dest: nat, info: LoadInfo): (r: seq<byte>)
    requires TargetIn(outside, dest, info)
    ensures |r| == info.end - info.start
  {
    outside[dest..dest + (info.end - info.start)]
  }

  /** The image can be and is loaded into the sized target at `dest`. */
  ghost predicate ImageLoads(c: Class, img: seq<byte>, outside: seq<byte>, dest: nat, info: LoadInfo) {
    && TargetIn(outside, dest, info)
    && LoadPre(c, img, info.start, Target(outside, dest, info))
    && Loads(c, img, info.start, Target(outside, dest, info))
  }

  /** The memory with the loaded image in the target. */
  ghost function ImageIn(c: Class, img: seq<byte>, outside: seq<byte>, dest: nat, info: LoadInfo): (r: seq<byte>)
    requires ImageLoads(c, img, outside, dest, info)
    ensures |r| == |outside|
  {
    Splice(outside, dest, LoadedImage(c, img, info.start, Target(outside, dest, info), dest - info.start))
  }

  /** `m` is `outside` with the loaded image in the target. */
  ghost predicate ImageAt(c: Class, img: seq<byte>, outside: seq<byte>, dest: nat, info: LoadInfo, m: seq<byte>) {
    ImageLoads(c, img, outside, dest, info) && m == ImageIn(c, img, outside, dest, info)
  }

  /** `m'` is `m` with the section header table at `table`, and the header saying so. */
  ghost predicate TableAt(c: Class, img: seq<byte>, m: seq<byte>, dest: nat, table: int, m': seq<byte>) {
    && c.EhdrSize() <= |img| && dest + c.EhdrSize() <= table <= |m|
    && var eh := ReadEhdr(c, img);
       && eh.shoff + Extent(eh.shnum, eh.shentsize) <= |img| && table + Extent(eh.shnum, eh.shentsize) <= |m|
       && m' == WithTable(c, m, dest, table, img, eh)
  }

  /** `m'` is `m` with the file's sections laid out behind the table, up to `end`. */
  ghost predicate SectionsAt(c: Class, img: seq<byte>, m: seq<byte>, dest: nat, table: int, delta: int, end: int, m': seq<byte>) {
    && Sizable(c, img, true) && dest <= table
    && var eh := Moved(c, ReadEhdr(c, img), table - dest);
       && LayoutOk(c, FileSections(c, img), img, m, table, eh) && InFile(FileSections(c, img), img, eh.shnum)
       && LayoutEnd(FileSections(c, img), table, eh) == end
       && m' == Laid(c, FileSections(c, img), eh.shnum, img, m, table, eh, delta)
  }

  /** What elf_load_executable relies on when it is called, after the sizing pass, for a
      target at `dest` in a memory `outside`. */
  ghost predicate TablesPre(c: Class, img: seq<byte>, outside: seq<byte>, dest: nat, info: LoadInfo, headers: bool, symbols: bool) {
    && Sizable(c, img, symbols) && Trusted(c, img, headers || symbols) && HeaderIsValid(c, img)
    && NoSegmentWraps(c, ImagePhdrs(c, img)) && info == Sized(c, img, headers, symbols)
    && TargetIn(outside, dest, info) && |outside| <= TWO_32
    && LoadPre(c, img, info.start, Target(outside, dest, info))
    && HeaderSpared(c, img, info.start, Target(outside, dest, info))
    && (symbols ==> SectionsMovable(c, img, dest - info.start))
  }

  /** The section header table is in the file if it is to be copied, and so are the sections. */
  ghost predicate TablesInFile(c: Class, img: seq<byte>, headers: bool, symbols: bool) {
    && (headers && !symbols ==>
          c.EhdrSize() <= |img| && ReadEhdr(c, img).shoff + Extent(ReadEhdr(c, img).shnum, ReadEhdr(c, img).shentsize) <= |img|)
    && (symbols ==> Sizable(c, img, true) && InFile(FileSections(c, img), img, ReadEhdr(c, img).shnum))
  }

  lemma SecondPassBounds(c: Class, img: seq<byte>, outside: seq<byte>, dest: nat, info: LoadInfo, headers: bool, symbols: bool)
    requires TablesPre(c, img, outside, dest, info, headers, symbols)
    ensures c.EhdrSize() <= |img| && HasPhdrs(c, img, ReadEhdr(c, img))
    ensures info.start <= info.end && SegmentsInTarget(ImagePhdrs(c, img), info.start, info.end - info.start)
  {
    hide Field, Extent, Low, High, ReadEhdr, Cursor, AlignUp, LoadPre, HeaderSpared, SectionsMovable;
    TightBounds(c, ImagePhdrs(c, img));
  }

  /** The loaded header is in place, below the room for the table. */
  lemma HeaderLoaded(c: Class, img: seq<byte>, outside: seq<byte>, dest: nat, info: LoadInfo, headers: bool, symbols: bool, m: seq<byte>)
    requires TablesPre(c, img, outside, dest, info, headers, symbols) && (headers || symbols)
    requires ImageAt(c, img, outside, dest, info, m)
    ensures var eh, table := ReadEhdr(c, img), info.sections + (dest - info.start);
            && dest + c.EhdrSize() <= table && info.sections == TableAddr(c, img)
            && table + Extent(eh.shnum, eh.shentsize) <= info.end + (dest - info.start) <= |m|
            && eh.shoff + Extent(eh.shnum, eh.shentsize) < TWO_32
            && ReadEhdr(c, m[dest..]) == eh && HeaderIsValid(c, m[dest..])
  {
    hide Field, Extent, Low, High, ReadEhdr, HeaderIsValid, Sized, TableAddr, HeaderSpared, SectionsMovable, Splice;
    var window := Target(outside, dest, info);
    SizedRoom(c, img, headers, symbols);
    LoadedHeader(c, img, info.start, window, dest - info.start);
    HeaderInMemory(c, outside, dest, LoadedImage(c, img, info.start, window, dest - info.start), img);
  }

  lemma SectionsHaveRoom(c: Class, img: seq<byte>, outside: seq<byte>, dest: nat, info: LoadInfo, headers: bool, m: seq<byte>)
    requires TablesPre(c, img, outside, dest, info, headers, true) && ImageAt(c, img, outside, dest, info, m)
    ensures RoomForSections(c, img, m, dest, dest - info.start)
    ensures info.end == Sized(c, img, true, true).end && info.sections == TableAddr(c, img)
  {
    hide Field, Extent, Low, High, ReadEhdr, HeaderIsValid, TableAddr, HeaderSpared, SectionsMovable, LoadPre, Loads, ImageAt;
    HeaderLoaded(c, img, outside, dest, info, headers, true, m);
  }

  /** The optional end of the second pass.  The status of copying the section header table is
      overwritten by that of copying the sections; after a sizing pass that mapped the table
      there is never a failure to lose. */
  method CopyTables(c: Class, mem: array<byte>, ghost outside: seq<byte>, dest: nat, img: seq<byte>, info: LoadInfo,
                    headers: bool, symbols: bool) returns (ok: bool, ghost tabled: seq<byte>)
    requires TablesPre(c, img, outside, dest, info, headers, symbols) && ImageAt(c, img, outside, dest, info, mem[..])
    requires headers || symbols
    modifies mem
    ensures ok <==> TablesInFile(c, img, headers, symbols)
    ensures ok ==> TableAt(c, img, old(mem[..]), dest, info.sections + (dest - info.start), tabled)
    ensures ok ==>
              if symbols then
                SectionsAt(c, img, tabled, dest, info.sections + (dest - info.start), dest - info.start, info.end + (dest - info.start), mem[..])
              else mem[..] == tabled
  {
    hide Field, Extent, Low, High, ReadEhdr, HeaderIsValid, Sized, TableAddr, HeaderSpared, SectionsMovable, Splice, Put, Laid, AddMod,
         LoadPre, RoomForSections;
    ghost var loaded := mem[..];
    HeaderLoaded(c, img, outside, dest, info, headers, symbols, loaded);
    ok := CopySectionHeaderTable(c, mem, dest, info.sections + (dest - info.start), img);
    tabled := mem[..];
    assert symbols ==> ok;
    if symbols {
      SectionsHaveRoom(c, img, outside, dest, info, headers, loaded);
      LayoutReady(c, img, loaded, dest, dest - info.start);
      var end;
      ok, end := CopySections(c, mem, dest, info.sections + (dest - info.start), img, dest - info.start);
    }
  }

  /** elf32_load_executable and elf64_load_executable, with the optional tables. */
  method LoadWithTables(c: Class, mem: array<byte>, dest: nat, img: seq<byte>, info: LoadInfo, headers: bool, symbols: bool)
    returns (ok: bool, ghost loaded: seq<byte>, ghost tabled: seq<byte>)
    requires TablesPre(c, img, mem[..], dest, info, headers, symbols)
    modifies mem
    ensures ok <==> ImageLoads(c, img, old(mem[..]), dest, info) && TablesInFile(c, img, headers, symbols)
    ensures ok ==> ImageAt(c, img, old(mem[..]), dest, info, loaded)
    ensures ok && (headers || symbols) ==> TableAt(c, img, loaded, dest, info.sections + (dest - info.start), tabled)
    ensures ok ==>
              if symbols then
                SectionsAt(c, img, tabled, dest, info.sections + (dest - info.start), dest - info.start, info.end + (dest - info.start), mem[..])
              else if headers then mem[..] == tabled
              else mem[..] == loaded
  {
    hide Field, Extent, Low, High, ReadEhdr, HeaderIsValid, Sized, HeaderSpared, SectionsMovable, Splice, Loads, LoadedImage,
         TableAt, SectionsAt;
    ghost var outside := mem[..];
    SecondPassBounds(c, img, outside, dest, info, headers, symbols);
    ok := LoadExecutable(c, mem, dest, info.end - info.start, img, info.start);
    loaded, tabled := mem[..], mem[..];
    if !ok {
      return;
    }
    if headers || symbols {
      ok, tabled := CopyTables(c, mem, outside, dest, img, info, headers, symbols);
    }
  }
}
