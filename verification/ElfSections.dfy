/** The optional part of the second pass: the section header table and the sections that
    belong to no segment are laid out behind the loaded image. */
module ElfSections {
  import opened Words
  import opened Bytes
  import opened ElfFormat
  import opened ElfSizing
  import opened ElfSegments

  // ----- the layout of the two passes

  /** The alignments in use are what the gABI allows. */
  ghost predicate PowersOfTwo(ss: seq<Shdr>) {
    forall i :: 0 <= i < |ss| && Placed(ss[i]) && ss[i].addralign > 1 ==> PowerOfTwo(ss[i].addralign)
  }

  /** `delta` is a multiple of every alignment in use. */
  ghost predicate KeepsAlignment(ss: seq<Shdr>, delta: int) {
    forall i :: 0 <= i < |ss| && Placed(ss[i]) && ss[i].addralign > 1 ==> delta % ss[i].addralign == 0
  }

  lemma ModSum(x: int, y: int, a: nat)
    requires a > 0 && x % a == 0 && y % a == 0
    ensures (x + y) % a == 0 && (x - y) % a == 0
  {
    var q, r := x / a, y / a;
    assert (q + r) * a == x + y && (q - r) * a == x - y;
    MultipleOf(q + r, a);
    MultipleOf(q - r, a);
  }

  /** There is one multiple of `a` in a stretch of length `a`. */
  lemma OneMultiple(x: int, y: int, a: nat)
    requires a > 0 && x % a == 0 && y % a == 0 && x - a < y < x + a
    ensures x == y
  {
    ModSum(x, y, a);
    var d := (x - y) / a;
    assert x - y == d * a;
    assert d > 0 ==> d * a >= a;
    assert d < 0 ==> d * a <= 0 - a;
  }

  lemma AlignUpShift(x: nat, a: nat, delta: int)
    requires (a > 1 ==> PowerOfTwo(a)) && x + delta >= 0 && (a > 1 ==> delta % a == 0)
    ensures AlignUp(x + delta, a) == AlignUp(x, a) + delta
  {
    if a > 1 {
      hide AlignUp;
      AlignUpAligned(x, a);
      AlignUpAligned(x + delta, a);
      ModSum(AlignUp(x, a), delta, a);
      OneMultiple(AlignUp(x + delta, a), AlignUp(x, a) + delta, a);
    }
  }

  /** The copying pass, which starts `delta` away from where the sizing pass did, stays
      exactly `delta` away. */
  lemma {:induction false} PassesAgree(ss: seq<Shdr>, n: nat, cursor: nat, delta: int)
    requires n <= |ss| && PowersOfTwo(ss) && KeepsAlignment(ss, delta) && cursor + delta >= 0
    ensures Cursor(ss, n, cursor + delta) == Cursor(ss, n, cursor) + delta
  {
    hide AlignUp;
    if n > 0 {
      PassesAgree(ss, n - 1, cursor, delta);
      if Placed(ss[n - 1]) {
        AlignUpShift(Cursor(ss, n - 1, cursor), ss[n - 1].addralign, delta);
      }
    }
  }

  /** Every placed section is `delta` away from where the sizing pass put it exactly when
      `delta` is a multiple of every alignment in use. */
  lemma PassesAgreeExactlyWhenAligned(ss: seq<Shdr>, cursor: nat, delta: int)
    requires PowersOfTwo(ss) && cursor + delta >= 0
    ensures (forall i :: 0 <= i < |ss| && Placed(ss[i]) ==> PlaceOf(ss, i, cursor + delta) == PlaceOf(ss, i, cursor) + delta)
            <==> KeepsAlignment(ss, delta)
  {
    hide AlignUp, Cursor;
    forall i | 0 <= i < |ss| && Placed(ss[i]) && ss[i].addralign > 1
      && PlaceOf(ss, i, cursor + delta) == PlaceOf(ss, i, cursor) + delta
      ensures delta % ss[i].addralign == 0
    {
      AlignUpAligned(Cursor(ss, i, cursor + delta), ss[i].addralign);
      AlignUpAligned(Cursor(ss, i, cursor), ss[i].addralign);
      ModSum(PlaceOf(ss, i, cursor + delta), PlaceOf(ss, i, cursor), ss[i].addralign);
    }
    forall i | 0 <= i < |ss| && Placed(ss[i]) && KeepsAlignment(ss, delta)
      ensures PlaceOf(ss, i, cursor + delta) == PlaceOf(ss, i, cursor) + delta
    {
      PassesAgree(ss, i, cursor, delta);
      AlignUpShift(Cursor(ss, i, cursor), ss[i].addralign, delta);
    }
  }

  /** Without that, the passes part: one section aligned to 8 KB, an image moved by 4 KB. */
  lemma PassesDisagree()
    ensures var ss := [Shdr(0, 0, 16, 8192)];
            Cursor(ss, 1, 8192 + 4096) != Cursor(ss, 1, 8192) + 4096
  {
    hide AlignUp;
    assert PowerOfTwo(512) && PowerOfTwo(8192) by { assert PowerOfTwo(32); }
    AlignUpAligned(8192 + 4096, 8192);
    AlignUpAligned(8192, 8192);
    OneMultiple(AlignUp(8192 + 4096, 8192), 16384, 8192);
    OneMultiple(AlignUp(8192, 8192), 8192, 8192);
    var ss := [Shdr(0, 0, 16, 8192)];
    assert Cursor(ss, 0, 8192) == 8192 && Cursor(ss, 0, 8192 + 4096) == 8192 + 4096;
  }

  lemma {:induction false} CursorGrows(ss: seq<Shdr>, i: nat, n: nat, cursor: nat)
    requires i <= n <= |ss|
    ensures Cursor(ss, i, cursor) <= Cursor(ss, n, cursor)
    ensures i < n && Placed(ss[i]) ==> PlaceOf(ss, i, cursor) + ss[i].size <= Cursor(ss, n, cursor)
  {
    hide AlignUp;
    if i < n {
      CursorGrows(ss, i, n - 1, cursor);
    }
  }

  /** Placed sections are behind the table, in file order without overlap. */
  lemma PlacesDisjoint(ss: seq<Shdr>, i: nat, j: nat, cursor: nat)
    requires i < j < |ss| && Placed(ss[i]) && Placed(ss[j])
    ensures cursor <= PlaceOf(ss, i, cursor) && PlaceOf(ss, i, cursor) + ss[i].size <= PlaceOf(ss, j, cursor)
  {
    hide AlignUp;
    CursorGrows(ss, i, j, cursor);
  }

  /** The cursor moves for the sections that are not empty and have no address, and no others:
      to the end of the section, from the next multiple of its alignment on. */
  lemma CursorMoves(ss: seq<Shdr>, i: nat, cursor: nat)
    requires PowersOfTwo(ss) && i < |ss|
    ensures var before, after := Cursor(ss, i, cursor), Cursor(ss, i + 1, cursor);
            && (ss[i].size == 0 || ss[i].addr != 0 ==> after == before)
            && (ss[i].size != 0 && ss[i].addr == 0 && ss[i].addralign <= 1 ==> after == before + ss[i].size)
            && (ss[i].size != 0 && ss[i].addr == 0 && ss[i].addralign > 1 ==>
                  var place := after - ss[i].size;
                  before <= place < before + ss[i].addralign && place % ss[i].addralign == 0)
  {
    hide AlignUp;
    NextCursor(ss, i, cursor);
    if Placed(ss[i]) {
      if ss[i].addralign > 1 {
        PlacesAligned(ss, i, cursor);
      } else {
        AlignUpOne(Cursor(ss, i, cursor), ss[i].addralign);
      }
    }
  }

  /** Every one of them is where its alignment asks. */
  lemma PlacesAligned(ss: seq<Shdr>, i: nat, cursor: nat)
    requires PowersOfTwo(ss) && i < |ss| && Placed(ss[i]) && ss[i].addralign > 1
    ensures PlaceOf(ss, i, cursor) % ss[i].addralign == 0
  {
    AlignUpAligned(Cursor(ss, i, cursor), ss[i].addralign);
  }

  // ----- the section header table

  /** elf32_copy_section_header_table and elf64_copy_section_header_table: `start` and
      `sections` are addresses; the ELF header is the copied one at `start`. */
  method CopySectionHeaderTable(c: Class, mem: array<byte>, start: nat, sections: nat, img: seq<byte>) returns (ok: bool)
    requires start + c.EhdrSize() <= sections <= mem.Length && |img| < TWO_32
    requires var eh := ReadEhdr(c, mem[..][start..]);
             var n := Extent(eh.shnum, eh.shentsize);
             eh.shoff + n < TWO_32 && sections + n <= mem.Length
    modifies mem
    ensures var eh := ReadEhdr(c, old(mem[..])[start..]);
            var n := Extent(eh.shnum, eh.shentsize);
            && (ok <==> HeaderIsValid(c, old(mem[..])[start..]) && eh.shoff + n <= |img|)
            && (ok ==> mem[..] == Put(Splice(old(mem[..]), sections, img[eh.shoff..eh.shoff + n]),
                                      start + c.ShoffAt(), c.Word(), AddMod(c, sections - start, 0)))
            && (!HeaderIsValid(c, old(mem[..])[start..]) ==> mem[..] == old(mem[..]))
            && (!ok && eh.shoff <= |img| ==> SameOutside(old(mem[..]), mem[..], sections, sections + n))
  {
    hide SameOutside, Field, Extent, Splice, Put, ReadEhdr, HeaderIsValid;
    ghost var m := mem[..];
    assert mem[start..] == m[start..];
    var eh := ReadEhdr(c, mem[start..]);
    var n := Extent(eh.shnum, eh.shentsize);
    if !HeaderIsValid(c, mem[start..]) {
      NothingChanged(m, sections, sections + n);
      return false;
    }
    var copied := ReadImage(mem, sections, img, eh.shoff, n);
    if eh.shoff <= |img| {
      SpliceOutside(m, sections, img[eh.shoff..eh.shoff + copied], sections, sections + n);
    }
    if copied != n {
      return false;
    }
    Store(mem, start + c.ShoffAt(), c.Word(), AddMod(c, sections - start, 0));
    ok := true;
  }

  // ----- the sections

  /** The memory after the first `n` sections of the table at `table` have been handled. */
  ghost function Laid(c: Class, ss: seq<Shdr>, n: nat, img: seq<byte>, m: seq<byte>, table: nat, eh: Ehdr, delta: int): (r: seq<byte>)
    requires n <= |ss| == eh.shnum && LayoutOk(c, ss, img, m, table, eh) && InFile(ss, img, n)
    ensures |r| == |m|
  {
    if n == 0 then m
    else
      var s := ss[n - 1];
      var before := Laid(c, ss, n - 1, img, m, table, eh, delta);
      var cursor := table + Extent(eh.shnum, eh.shentsize);
      ShdrInside(c, m, table, eh, n - 1);
      var field := ShdrAt(table, eh, n - 1) + c.ShAddrAt();
      if s.addr != 0 then Put(before, field, c.Word(), AddMod(c, s.addr, delta))
      else if s.size == 0 then before
      else
        CursorGrows(ss, n - 1, eh.shnum, cursor);
        var place := PlaceOf(ss, n - 1, cursor);
        Put(Splice(before, place, img[s.offset..s.offset + s.size]), field, c.Word(), place)
  }

  /** The table and the room behind it are in memory, and no section wraps round 4 GB. */
  ghost predicate LayoutOk(c: Class, ss: seq<Shdr>, img: seq<byte>, m: seq<byte>, table: nat, eh: Ehdr) {
    && |ss| == eh.shnum && HasShdrs(c, m, table, eh)
    && Cursor(ss, eh.shnum, table + Extent(eh.shnum, eh.shentsize)) <= |m|
    && (forall i :: 0 <= i < |ss| && Placed(ss[i]) ==> ss[i].offset + ss[i].size < TWO_32)
  }

  /** The sections to be placed begin in the file; they may still run past its end. */
  ghost predicate SectionsBegin(ss: seq<Shdr>, img: seq<byte>) {
    forall i :: 0 <= i < |ss| && Placed(ss[i]) ==> ss[i].offset <= |img|
  }

  /** The first `n` sections are wholly in the file. */
  ghost predicate InFile(ss: seq<Shdr>, img: seq<byte>, n: nat)
    requires n <= |ss|
  {
    forall i :: 0 <= i < n && Placed(ss[i]) ==> ss[i].offset + ss[i].size <= |img|
  }

  lemma SameShdr(c: Class, m: seq<byte>, m': seq<byte>, a: nat)
    requires |m| == |m'| && a + c.ShdrSize() <= |m|
    requires m[a..a + c.ShdrSize()] == m'[a..a + c.ShdrSize()]
    ensures ReadShdr(c, m, a) == ReadShdr(c, m', a)
  {
    hide Field;
    var n, w := c.ShdrSize(), c.Word();
    FieldInStretch(m, m', a, n, a + c.ShAddrAt(), w);
    FieldInStretch(m, m', a, n, a + c.ShAddrAt() + w, w);
    FieldInStretch(m, m', a, n, a + c.ShAddrAt() + 2 * w, w);
    FieldInStretch(m, m', a, n, a + (if c.Elf32? then 32 else 48), w);
  }

  lemma LaidNext(c: Class, ss: seq<Shdr>, i: nat, img: seq<byte>, m: seq<byte>, table: nat, eh: Ehdr, delta: int)
    requires i < |ss| == eh.shnum && LayoutOk(c, ss, img, m, table, eh) && InFile(ss, img, i + 1)
    ensures ShdrAt(table, eh, i) + c.ShdrSize() <= |m|
    ensures Placed(ss[i]) ==> PlaceOf(ss, i, table + Extent(eh.shnum, eh.shentsize)) + ss[i].size <= |m|
    ensures var before := Laid(c, ss, i, img, m, table, eh, delta);
            var field := ShdrAt(table, eh, i) + c.ShAddrAt();
            var place := PlaceOf(ss, i, table + Extent(eh.shnum, eh.shentsize));
            Laid(c, ss, i + 1, img, m, table, eh, delta)
            == if ss[i].addr != 0 then Put(before, field, c.Word(), AddMod(c, ss[i].addr, delta))
               else if ss[i].size == 0 then before
               else Put(Splice(before, place, img[ss[i].offset..ss[i].offset + ss[i].size]), field, c.Word(), place)
  {
    hide Field, Extent, Splice, Put, Cursor, AlignUp, AddMod;
    ShdrInside(c, m, table, eh, i);
    CursorGrows(ss, i, eh.shnum, table + Extent(eh.shnum, eh.shentsize));
  }

  /** Where section `i` is written and nothing else is: its data and its address field. */
  lemma LaidStep(c: Class, ss: seq<Shdr>, n: nat, img: seq<byte>, m: seq<byte>, table: nat, eh: Ehdr, delta: int, k: nat)
    requires n < |ss| == eh.shnum && LayoutOk(c, ss, img, m, table, eh) && InFile(ss, img, n + 1) && k < |m|
    requires Apart(ShdrAt(table, eh, n), c.ShdrSize(), k, 1)
    requires Placed(ss[n]) ==> Apart(PlaceOf(ss, n, table + Extent(eh.shnum, eh.shentsize)), ss[n].size, k, 1)
    ensures Laid(c, ss, n + 1, img, m, table, eh, delta)[k] == Laid(c, ss, n, img, m, table, eh, delta)[k]
  {
    hide Field, Extent, Cursor, AlignUp, AddMod, Laid, Put, Splice;
    LaidNext(c, ss, n, img, m, table, eh, delta);
  }

  lemma NothingLaid(c: Class, ss: seq<Shdr>, img: seq<byte>, m: seq<byte>, table: nat, eh: Ehdr, delta: int)
    requires LayoutOk(c, ss, img, m, table, eh)
    ensures Laid(c, ss, 0, img, m, table, eh, delta) == m
  {
  }

  lemma NextShdr(table: nat, eh: Ehdr, i: nat)
    ensures ShdrAt(table, eh, i + 1) == ShdrAt(table, eh, i) + eh.shentsize
  {
  }

  /** A stretch before the end of the table that avoids the first `n` headers is unchanged. */
  lemma {:induction false} BeforeKept(c: Class, ss: seq<Shdr>, n: nat, img: seq<byte>, m: seq<byte>, table: nat, eh: Ehdr, delta: int, k: nat)
    requires n <= |ss| == eh.shnum && LayoutOk(c, ss, img, m, table, eh) && InFile(ss, img, n)
    requires k < table || (ShdrAt(table, eh, n) <= k < table + Extent(eh.shnum, eh.shentsize))
    ensures k < |m| && Laid(c, ss, n, img, m, table, eh, delta)[k] == m[k]
  {
    hide Field, Extent, AlignUp, Laid, Cursor;
    assert n == 0 ==> Laid(c, ss, n, img, m, table, eh, delta) == m by { NothingLaid(c, ss, img, m, table, eh, delta); }
    if n > 0 {
      ShdrInside(c, m, table, eh, n - 1);
      NextShdr(table, eh, n - 1);
      BeforeKept(c, ss, n - 1, img, m, table, eh, delta, k);
      LaidStep(c, ss, n - 1, img, m, table, eh, delta, k);
    }
  }

  /** Header `n` still reads as in the file when its turn comes. */
  lemma HeaderInTurn(c: Class, ss: seq<Shdr>, n: nat, img: seq<byte>, m: seq<byte>, table: nat, eh: Ehdr, delta: int)
    requires n < |ss| == eh.shnum && LayoutOk(c, ss, img, m, table, eh) && InFile(ss, img, n)
    ensures ShdrAt(table, eh, n) + c.ShdrSize() <= |m|
    ensures ReadShdr(c, Laid(c, ss, n, img, m, table, eh, delta), ShdrAt(table, eh, n)) == ReadShdr(c, m, ShdrAt(table, eh, n))
  {
    hide Field, Extent, Laid, Cursor, AlignUp, ReadShdr;
    ShdrInside(c, m, table, eh, n);
    var a := ShdrAt(table, eh, n);
    var m' := Laid(c, ss, n, img, m, table, eh, delta);
    forall k | a <= k < a + c.ShdrSize() ensures m'[k] == m[k] {
      BeforeKept(c, ss, n, img, m, table, eh, delta, k);
    }
    assert m'[a..a + c.ShdrSize()] == m[a..a + c.ShdrSize()];
    SameShdr(c, m', m, a);
  }

  lemma LaidHere(c: Class, ss: seq<Shdr>, i: nat, img: seq<byte>, m: seq<byte>, table: nat, eh: Ehdr, delta: int, j: nat)
    requires i < |ss| == eh.shnum && LayoutOk(c, ss, img, m, table, eh) && InFile(ss, img, i + 1) && Placed(ss[i]) && j < ss[i].size
    ensures var place := PlaceOf(ss, i, table + Extent(eh.shnum, eh.shentsize));
            && place + ss[i].size <= |m|
            && Laid(c, ss, i + 1, img, m, table, eh, delta)[place + j] == img[ss[i].offset + j]
  {
    hide Field, Extent, Cursor, AlignUp, AddMod, Laid, Put, Splice;
    LaidNext(c, ss, i, img, m, table, eh, delta);
    ShdrInside(c, m, table, eh, i);
  }

  /** Meaning of the layout: a placed section's bytes are its file bytes, at its place. */
  lemma {:induction false} SectionByte(c: Class, ss: seq<Shdr>, n: nat, img: seq<byte>, m: seq<byte>, table: nat, eh: Ehdr, delta: int, i: nat, j: nat)
    requires i < n <= |ss| == eh.shnum && LayoutOk(c, ss, img, m, table, eh) && InFile(ss, img, n) && Placed(ss[i]) && j < ss[i].size
    ensures var place := PlaceOf(ss, i, table + Extent(eh.shnum, eh.shentsize));
            && place + ss[i].size <= |m|
            && Laid(c, ss, n, img, m, table, eh, delta)[place + j] == img[ss[i].offset + j]
    decreases n
  {
    hide Field, Extent, Cursor, AlignUp, Laid;
    var cursor := table + Extent(eh.shnum, eh.shentsize);
    if i < n - 1 {
      SectionByte(c, ss, n - 1, img, m, table, eh, delta, i, j);
      if Placed(ss[n - 1]) {
        PlacesDisjoint(ss, i, n - 1, cursor);
      }
      ShdrInside(c, m, table, eh, n - 1);
      LaidStep(c, ss, n - 1, img, m, table, eh, delta, PlaceOf(ss, i, cursor) + j);
    } else {
      LaidHere(c, ss, i, img, m, table, eh, delta, j);
    }
  }

  /** The sh_addr field of header `i` in `m`: moved with the image if the section was loaded
      as part of a segment, at its place if it was laid out, 0 if it is empty. */
  ghost predicate AddressIs(c: Class, ss: seq<Shdr>, i: nat, m: seq<byte>, table: nat, eh: Ehdr, delta: int)
    requires i < |ss|
  {
    && ShdrAt(table, eh, i) + c.ShdrSize() <= |m|
    && var v := Field(m, ShdrAt(table, eh, i) + (if c.Elf32? then 12 else 16), c.Word());
       if ss[i].addr != 0 then v == (ss[i].addr + delta) % c.Modulus()
       else if ss[i].size == 0 then v == 0
       else v == PlaceOf(ss, i, table + Extent(eh.shnum, eh.shentsize))
  }

  lemma AddressHere(c: Class, ss: seq<Shdr>, i: nat, img: seq<byte>, m: seq<byte>, table: nat, eh: Ehdr, delta: int)
    requires i < |ss| == eh.shnum && LayoutOk(c, ss, img, m, table, eh) && InFile(ss, img, i + 1) && |m| <= TWO_32
    requires ss == Shdrs(c, m, table, eh)
    ensures AddressIs(c, ss, i, Laid(c, ss, i + 1, img, m, table, eh, delta), table, eh, delta)
  {
    hide Field, Extent, Cursor, AlignUp, AddMod, Laid, Put, Splice;
    LaidNext(c, ss, i, img, m, table, eh, delta);
    HeaderInTurn(c, ss, i, img, m, table, eh, delta);
    WordModulus(c);
    var field := ShdrAt(table, eh, i) + c.ShAddrAt();
    var before := Laid(c, ss, i, img, m, table, eh, delta);
    if ss[i].addr != 0 {
      PutField(before, field, c.Word(), AddMod(c, ss[i].addr, delta));
      AddModIs(c, ss[i].addr, delta);
    } else if ss[i].size != 0 {
      var place := PlaceOf(ss, i, table + Extent(eh.shnum, eh.shentsize));
      PutField(Splice(before, place, img[ss[i].offset..ss[i].offset + ss[i].size]), field, c.Word(), place);
    }
  }

  /** Every header of the copied table tells where its section is: moved with the image if
      it was loaded as part of a segment, at its place if it was laid out. */
  lemma {:induction false} SectionAddress(c: Class, ss: seq<Shdr>, n: nat, img: seq<byte>, m: seq<byte>, table: nat, eh: Ehdr, delta: int, i: nat)
    requires i < n <= |ss| == eh.shnum && LayoutOk(c, ss, img, m, table, eh) && InFile(ss, img, n) && |m| <= TWO_32
    requires ss == Shdrs(c, m, table, eh)
    ensures AddressIs(c, ss, i, Laid(c, ss, n, img, m, table, eh, delta), table, eh, delta)
    decreases n
  {
    hide Field, Extent, Cursor, AlignUp, Laid, Shdrs;
    if i == n - 1 {
      AddressHere(c, ss, i, img, m, table, eh, delta);
    } else {
      SectionAddress(c, ss, n - 1, img, m, table, eh, delta, i);
      ShdrInside(c, m, table, eh, n - 1);
      ExtentGrows(i, n - 1, eh.shentsize);
      var a := ShdrAt(table, eh, i) + c.ShAddrAt();
      var before, after := Laid(c, ss, n - 1, img, m, table, eh, delta), Laid(c, ss, n, img, m, table, eh, delta);
      forall k | a <= k < a + c.Word() ensures after[k] == before[k] {
        LaidStep(c, ss, n - 1, img, m, table, eh, delta, k);
      }
      assert after[a..a + c.Word()] == before[a..a + c.Word()];
      FieldInStretch(after, before, a, c.Word(), a, c.Word());
    }
  }

  /** Only the table and the room behind it are written. */
  lemma {:induction false} LaidOutside(c: Class, ss: seq<Shdr>, n: nat, img: seq<byte>, m: seq<byte>, table: nat, eh: Ehdr, delta: int)
    requires n <= |ss| == eh.shnum && LayoutOk(c, ss, img, m, table, eh) && InFile(ss, img, n)
    ensures SameOutside(m, Laid(c, ss, n, img, m, table, eh, delta), table, LayoutEnd(ss, table, eh))
  {
    hide Field, Extent, Cursor, AlignUp, Laid;
    if n == 0 {
      NothingLaid(c, ss, img, m, table, eh, delta);
    } else {
      LaidOutside(c, ss, n - 1, img, m, table, eh, delta);
      ShdrInside(c, m, table, eh, n - 1);
      CursorGrows(ss, n - 1, eh.shnum, table + Extent(eh.shnum, eh.shentsize));
      CursorGrows(ss, 0, eh.shnum, table + Extent(eh.shnum, eh.shentsize));
      forall k | 0 <= k < |m| && !(table <= k < LayoutEnd(ss, table, eh))
        ensures Laid(c, ss, n, img, m, table, eh, delta)[k] == m[k]
      {
        LaidStep(c, ss, n - 1, img, m, table, eh, delta, k);
      }
    }
  }

  /** The same after a section that is not all in the file has been copied as far as it is. */
  lemma PartlyOutside(c: Class, ss: seq<Shdr>, i: nat, img: seq<byte>, m: seq<byte>, table: nat, eh: Ehdr, delta: int, data: seq<byte>)
    requires i < |ss| == eh.shnum && LayoutOk(c, ss, img, m, table, eh) && InFile(ss, img, i)
    requires Placed(ss[i]) && |data| <= ss[i].size
    ensures var first := table + Extent(eh.shnum, eh.shentsize);
            && PlaceOf(ss, i, first) + |data| <= |m|
            && SameOutside(m, Splice(Laid(c, ss, i, img, m, table, eh, delta), PlaceOf(ss, i, first), data), table, LayoutEnd(ss, table, eh))
  {
    hide Field, Extent, Cursor, AlignUp, Laid, Splice, SameOutside;
    var first := table + Extent(eh.shnum, eh.shentsize);
    var before := Laid(c, ss, i, img, m, table, eh, delta);
    CursorGrows(ss, i, eh.shnum, first);
    LaidOutside(c, ss, i, img, m, table, eh, delta);
    SpliceOutside(before, PlaceOf(ss, i, first), data, table, LayoutEnd(ss, table, eh));
    OutsideTwice(m, before, Splice(before, PlaceOf(ss, i, first), data), table, LayoutEnd(ss, table, eh), table, LayoutEnd(ss, table, eh));
  }

  /** Where the layout behind the table at `table` ends. */
  ghost function LayoutEnd(ss: seq<Shdr>, table: nat, eh: Ehdr): nat
    requires |ss| == eh.shnum
  {
    Cursor(ss, eh.shnum, table + Extent(eh.shnum, eh.shentsize))
  }

  /** One turn of the loop over the sections, for the header at index `i` of the table. */
  method CopySection(c: Class, mem: array<byte>, ghost m: seq<byte>, ghost ss: seq<Shdr>, table: nat, eh: Ehdr, i: nat,
                     img: seq<byte>, delta: int, cursor: nat) returns (ok: bool, next: nat)
    requires |m| == mem.Length <= TWO_32 && |img| < TWO_32 && i < eh.shnum
    requires HasShdrs(c, m, table, eh) && ss == Shdrs(c, m, table, eh) && LayoutOk(c, ss, img, m, table, eh)
    requires cursor == Cursor(ss, i, table + Extent(eh.shnum, eh.shentsize))
    requires InFile(ss, img, i) && mem[..] == Laid(c, ss, i, img, m, table, eh, delta)
    modifies mem
    ensures ok <==> InFile(ss, img, i + 1)
    ensures ok ==> next == Cursor(ss, i + 1, table + Extent(eh.shnum, eh.shentsize))
    ensures ok ==> mem[..] == Laid(c, ss, i + 1, img, m, table, eh, delta)
    ensures !ok && ss[i].offset <= |img| ==> SameOutside(m, mem[..], table, LayoutEnd(ss, table, eh))
  {
    hide SameOutside, Field, Extent, Splice, Put, ReadShdr, Laid, Cursor, AlignUp, AddMod, ReadCount;
    ghost var first := table + Extent(eh.shnum, eh.shentsize);
    HeaderInTurn(c, ss, i, img, m, table, eh, delta);
    if InFile(ss, img, i + 1) {
      LaidNext(c, ss, i, img, m, table, eh, delta);
    }
    NextCursor(ss, i, first);
    CursorGrows(ss, i, eh.shnum, first);
    ok, next := true, cursor;
    var a := ShdrAt(table, eh, i);
    var s := ReadShdr(c, mem[..], a);
    assert s == ss[i];
    if s.addr != 0 {
      Store(mem, a + c.ShAddrAt(), c.Word(), AddMod(c, s.addr, delta));
      return;
    }
    if s.size == 0 {
      return;
    }
    if s.addralign > 1 {
      next := AlignUp(next, s.addralign);
    } else {
      AlignUpOne(next, s.addralign);
    }
    var copied := ReadImage(mem, next, img, s.offset, s.size);
    if copied != s.size {
      if s.offset <= |img| {
        PartlyOutside(c, ss, i, img, m, table, eh, delta, img[s.offset..s.offset + copied]);
      }
      ok := false;
      return;
    }
    Store(mem, a + c.ShAddrAt(), c.Word(), next);
    next := next + s.size;
  }

  /** elf32_copy_sections and elf64_copy_sections, on the section header table copied to
      `table`. */
  method CopySections(c: Class, mem: array<byte>, start: nat, table: nat, img: seq<byte>, delta: int) returns (ok: bool, cursor: nat)
    requires start + c.EhdrSize() <= table <= mem.Length <= TWO_32 && |img| < TWO_32
    requires var eh := ReadEhdr(c, mem[..][start..]);
             && HasShdrs(c, mem[..], table, eh)
             && LayoutOk(c, Shdrs(c, mem[..], table, eh), img, mem[..], table, eh)
    modifies mem
    ensures var eh := ReadEhdr(c, old(mem[..])[start..]);
            var ss := Shdrs(c, old(mem[..]), table, eh);
            && (ok <==> InFile(ss, img, eh.shnum))
            && (ok ==> cursor == LayoutEnd(ss, table, eh))
            && (ok ==> mem[..] == Laid(c, ss, eh.shnum, img, old(mem[..]), table, eh, delta))
            && (SectionsBegin(ss, img) ==> SameOutside(old(mem[..]), mem[..], table, LayoutEnd(ss, table, eh)))
  {
    hide SameOutside, Field, Extent, Splice, Put, ReadEhdr, ReadShdr, Laid, Cursor, AlignUp, AddMod;
    ghost var m := mem[..];
    assert mem[start..] == m[start..];
    var eh := ReadEhdr(c, mem[start..]);
    ghost var ss := Shdrs(c, m, table, eh);
    var first := table + Extent(eh.shnum, eh.shentsize);
    cursor := first;
    NothingLaid(c, ss, img, m, table, eh, delta);
    NoSections(ss, first);
    for i := 0 to eh.shnum
      invariant cursor == Cursor(ss, i, first)
      invariant InFile(ss, img, i)
      invariant mem[..] == Laid(c, ss, i, img, m, table, eh, delta)
    {
      ok, cursor := CopySection(c, mem, m, ss, table, eh, i, img, delta, cursor);
      if !ok {
        return;
      }
    }
    LaidOutside(c, ss, eh.shnum, img, m, table, eh, delta);
    ok := true;
  }

  lemma AlignUpOne(x: nat, a: nat)
    requires a <= 1
    ensures AlignUp(x, a) == x
  {
  }

  lemma NoSections(ss: seq<Shdr>, cursor: nat)
    ensures Cursor(ss, 0, cursor) == cursor
  {
  }

  lemma NextCursor(ss: seq<Shdr>, i: nat, cursor: nat)
    requires i < |ss|
    ensures Cursor(ss, i + 1, cursor) == if Placed(ss[i]) then PlaceOf(ss, i, cursor) + ss[i].size else Cursor(ss, i, cursor)
  {
  }

  // ----- both passes together

  lemma ShdrsInside(c: Class, m: seq<byte>, table: nat, m': seq<byte>, table': nat, eh: Ehdr)
    requires HasShdrs(c, m, table, eh) && HasShdrs(c, m', table', eh)
    requires var n := Extent(eh.shnum, eh.shentsize); m[table..table + n] == m'[table'..table' + n]
    ensures Shdrs(c, m, table, eh) == Shdrs(c, m', table', eh)
  {
    hide Field, Extent, ReadShdr;
    var n := Extent(eh.shnum, eh.shentsize);
    forall i | 0 <= i < eh.shnum
      ensures ShdrAt(table, eh, i) + c.ShdrSize() <= |m| && ShdrAt(table', eh, i) + c.ShdrSize() <= |m'|
      ensures ReadShdr(c, m, ShdrAt(table, eh, i)) == ReadShdr(c, m', ShdrAt(table', eh, i))
    {
      ShdrInside(c, m, table, eh, i);
      ShdrInside(c, m', table', eh, i);
      ShdrOfTable(c, m, table, n, Extent(i, eh.shentsize));
      ShdrOfTable(c, m', table', n, Extent(i, eh.shentsize));
    }
  }

  lemma ShdrOfTable(c: Class, m: seq<byte>, table: nat, n: nat, o: nat)
    requires o + c.ShdrSize() <= n && table + n <= |m|
    ensures ReadShdr(c, m, table + o) == ReadShdr(c, m[table..table + n], o)
  {
    hide Field, LeValue;
    var w := c.Word();
    SubField(m, table, n, o + c.ShAddrAt(), w);
    SubField(m, table, n, o + c.ShAddrAt() + w, w);
    SubField(m, table, n, o + c.ShAddrAt() + 2 * w, w);
    SubField(m, table, n, o + (if c.Elf32? then 32 else 48), w);
  }

  /** Two-pass agreement: if the image moves by a multiple of every alignment in use, the
      copying pass places exactly the sections the sizing pass counted, and ends exactly at
      the sized end, moved with the image. */
  lemma TwoPassLayout(c: Class, img: seq<byte>, m: seq<byte>, delta: int)
    requires Sizable(c, img, true)
    requires var eh := ReadEhdr(c, img);
             var n := Extent(eh.shnum, eh.shentsize);
             var table := TableAddr(c, img) + delta;
             && 0 <= table && HasShdrs(c, m, table, eh)
             && m[table..table + n] == img[eh.shoff..eh.shoff + n]
             && PowersOfTwo(Shdrs(c, img, eh.shoff, eh)) && KeepsAlignment(Shdrs(c, img, eh.shoff, eh), delta)
    ensures var eh := ReadEhdr(c, img);
            var table := TableAddr(c, img) + delta;
            var ss := Shdrs(c, m, table, eh);
            && ss == Shdrs(c, img, eh.shoff, eh)
            && Cursor(ss, eh.shnum, table + Extent(eh.shnum, eh.shentsize)) == Sized(c, img, true, true).end + delta
  {
    hide Field, Extent, Cursor, ReadShdr, ReadEhdr, AlignUp;
    var eh := ReadEhdr(c, img);
    ShdrsInside(c, m, TableAddr(c, img) + delta, img, eh.shoff, eh);
    PassesAgree(Shdrs(c, img, eh.shoff, eh), eh.shnum, TableAddr(c, img) + Extent(eh.shnum, eh.shentsize), delta);
  }
}
