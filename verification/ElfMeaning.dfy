/** What sizing and loading mean on the bytes of a file: statements that speak of offsets,
    table entries and numbers, and not of the functions the loader is specified by. */
module ElfMeaning {
  import opened Bytes
  import opened ElfFormat
  import opened ElfSizing
  import opened ElfSegments
  import opened ElfLoad

  // ----- tables

  lemma EntryFits(i: nat, n: nat, size: nat)
    requires i < n
    ensures i * size + size <= n * size
  {
    var k := n - i - 1;
    assert n * size == (i + 1 + k) * size == i * size + size + k * size;
    assert k * size >= 0;
  }

  /** Entry `i` of a table of `n` bytes is in it exactly when i is below the quotient. */
  lemma QuotientCounts(i: nat, n: nat, size: nat)
    requires size > 0
    ensures i < n / size <==> i * size + size <= n
  {
    var q, r := n / size, n % size;
    assert n == q * size + r;
    if i < q {
      EntryFits(i, q, size);
    } else {
      assert (i - q) * size >= 0;
    }
  }

  ghost predicate PhdrTableIn(c: Class, img: seq<byte>) {
    && c.EhdrSize() <= |img|
    && var eh := ReadEhdr(c, img);
       eh.phoff + eh.phnum * eh.phentsize <= |img| && (eh.phnum > 0 ==> c.PhdrSize() <= eh.phentsize)
  }

  /** The offset of program header `i`. */
  function PhdrPlace(eh: Ehdr, i: nat): nat { eh.phoff + i * eh.phentsize }

  /** Program header `i` of the file. */
  ghost function PhdrNo(c: Class, img: seq<byte>, i: nat): Phdr
    requires PhdrTableIn(c, img) && i < ReadEhdr(c, img).phnum
  {
    var eh := ReadEhdr(c, img);
    EntryFits(i, eh.phnum, eh.phentsize);
    ReadPhdr(c, img, PhdrPlace(eh, i))
  }

  ghost predicate IsLoad(c: Class, img: seq<byte>, i: nat)
    requires PhdrTableIn(c, img)
  {
    i < ReadEhdr(c, img).phnum && PhdrNo(c, img, i).ptype == 1 && PhdrNo(c, img, i).memsz != 0
  }

  /** The headers that the loops visit are all of them, unless there are 32768 or more. */
  lemma VisitedHeaders(c: Class, img: seq<byte>)
    requires PhdrTableIn(c, img)
    ensures HasPhdrs(c, img, ReadEhdr(c, img))
    ensures ReadEhdr(c, img).phnum < 0x8000 ==>
              && |ImagePhdrs(c, img)| == ReadEhdr(c, img).phnum
              && forall i :: 0 <= i < ReadEhdr(c, img).phnum ==> ImagePhdrs(c, img)[i] == PhdrNo(c, img, i)
    ensures ReadEhdr(c, img).phnum >= 0x8000 ==> ImagePhdrs(c, img) == []
  {
    hide Field, ReadEhdr, ReadPhdr;
    var eh := ReadEhdr(c, img);
    ExtentIsProduct(eh.phnum, eh.phentsize);
    forall i | 0 <= i < eh.phnum ensures PhdrAt(eh, i) == PhdrPlace(eh, i) {
      ExtentIsProduct(i, eh.phentsize);
    }
  }

  // ----- sizing

  ghost predicate LowestLoad(c: Class, img: seq<byte>, i: nat)
    requires PhdrTableIn(c, img)
  {
    && IsLoad(c, img, i)
    && forall j :: 0 <= j < ReadEhdr(c, img).phnum && IsLoad(c, img, j) ==> PhdrNo(c, img, i).paddr <= PhdrNo(c, img, j).paddr
  }

  lemma {:induction false} LowBounds(c: Class, ps: seq<Phdr>)
    requires forall i :: 0 <= i < |ps| ==> ps[i].paddr < c.Modulus()
    ensures forall i :: 0 <= i < |ps| && Loadable(ps[i]) ==> Low(c, ps) <= ps[i].paddr
    ensures (exists i :: 0 <= i < |ps| && Loadable(ps[i])) ==> exists i :: 0 <= i < |ps| && Loadable(ps[i]) && ps[i].paddr == Low(c, ps)
    ensures Low(c, ps) < c.Modulus()
  {
    if ps != [] {
      var n := |ps| - 1;
      LowBounds(c, ps[..n]);
      assert forall i :: 0 <= i < n ==> ps[i] == ps[..n][i];
      if Loadable(ps[n]) && forall i :: 0 <= i < n ==> !Loadable(ps[..n][i]) {
        NoneLoadable(c, ps[..n]);
      }
    }
  }

  lemma PaddrInWidth(c: Class, m: seq<byte>, a: nat)
    requires a + c.PhdrSize() <= |m|
    ensures ReadPhdr(c, m, a).paddr < c.Modulus()
  {
    LeBound(m[a + c.PaddrAt()..a + c.PaddrAt() + c.Word()]);
    WordModulus(c);
  }

  lemma LowOfFile(c: Class, img: seq<byte>)
    requires PhdrTableIn(c, img) && ReadEhdr(c, img).phnum < 0x8000
    ensures HasPhdrs(c, img, ReadEhdr(c, img))
    ensures forall i :: 0 <= i < ReadEhdr(c, img).phnum && IsLoad(c, img, i) ==> Low(c, ImagePhdrs(c, img)) <= PhdrNo(c, img, i).paddr
    ensures (exists i :: 0 <= i < ReadEhdr(c, img).phnum && IsLoad(c, img, i)) ==>
              exists i :: 0 <= i < ReadEhdr(c, img).phnum && IsLoad(c, img, i) && PhdrNo(c, img, i).paddr == Low(c, ImagePhdrs(c, img))
    ensures !(exists i :: 0 <= i < ReadEhdr(c, img).phnum && IsLoad(c, img, i)) ==> Low(c, ImagePhdrs(c, img)) == c.Modulus() - 1
  {
    hide Field, ReadEhdr, ReadPhdr, Low;
    VisitedHeaders(c, img);
    var eh, ps := ReadEhdr(c, img), ImagePhdrs(c, img);
    forall i | 0 <= i < |ps| ensures ps[i].paddr < c.Modulus() && (Loadable(ps[i]) <==> IsLoad(c, img, i)) {
      EntryFits(i, eh.phnum, eh.phentsize);
      PaddrInWidth(c, img, PhdrPlace(eh, i));
    }
    LowBounds(c, ps);
    if forall i :: 0 <= i < |ps| ==> !Loadable(ps[i]) {
      NoneLoadable(c, ps);
    }
  }

  /** Sizing succeeds exactly when the file is of the right type, its program headers are in
      it and fewer than 32768, the lowest segment is on a page, and the section headers are in
      the file if they are asked for. */
  lemma SizesExactlyWhen(c: Class, img: seq<byte>, symbols: bool)
    requires Trusted(c, img, symbols)
    ensures Sizable(c, img, symbols) <==>
              && PhdrTableIn(c, img)
              && var eh := ReadEhdr(c, img);
                 && (eh.etype == 2 || eh.etype == 3) && eh.phnum < 0x8000
                 && (exists i :: 0 <= i < eh.phnum && LowestLoad(c, img, i) && PhdrNo(c, img, i).paddr % 4096 == 0)
                 && (symbols ==> eh.shoff + eh.shnum * eh.shentsize <= |img|)
  {
    hide Field, ReadEhdr, ReadPhdr, Low;
    if c.EhdrSize() <= |img| {
      var eh := ReadEhdr(c, img);
      ExtentIsProduct(eh.phnum, eh.phentsize);
      ExtentIsProduct(eh.shnum, eh.shentsize);
      if PhdrTableIn(c, img) {
        VisitedHeaders(c, img);
        AllOnes(c);
        if eh.phnum < 0x8000 {
          LowestIsLow(c, img);
        } else {
          NoneLoadable(c, ImagePhdrs(c, img));
        }
      }
    }
  }

  lemma AllOnes(c: Class)
    ensures (c.Modulus() - 1) % 4096 != 0
  {
  }

  lemma LowestIsLow(c: Class, img: seq<byte>)
    requires PhdrTableIn(c, img) && ReadEhdr(c, img).phnum < 0x8000 && HasPhdrs(c, img, ReadEhdr(c, img))
    ensures Low(c, ImagePhdrs(c, img)) % 4096 == 0 <==>
              exists i :: 0 <= i < ReadEhdr(c, img).phnum && LowestLoad(c, img, i) && PhdrNo(c, img, i).paddr % 4096 == 0
  {
    hide Field, ReadEhdr, ReadPhdr, Low;
    LowOfFile(c, img);
    AllOnes(c);
    var n, low := ReadEhdr(c, img).phnum, Low(c, ImagePhdrs(c, img));
    if exists i :: 0 <= i < n && IsLoad(c, img, i) {
      var i :| 0 <= i < n && IsLoad(c, img, i) && PhdrNo(c, img, i).paddr == low;
      assert LowestLoad(c, img, i);
      forall j | 0 <= j < n && LowestLoad(c, img, j) ensures PhdrNo(c, img, j).paddr == low {
        assert IsLoad(c, img, j);
      }
    }
  }

  /** What is reported of a file that can be sized: the least address of a segment and the
      greatest end, both attained, and the entry point; with section headers the table begins
      on the next multiple of 16, and the end is behind it. */
  lemma SizedMeaning(c: Class, img: seq<byte>, headers: bool, symbols: bool)
    requires Trusted(c, img, symbols) && Sizable(c, img, symbols) && PhdrTableIn(c, img)
    requires forall i :: 0 <= i < ReadEhdr(c, img).phnum && IsLoad(c, img, i) ==>
               PhdrNo(c, img, i).paddr + PhdrNo(c, img, i).memsz < c.Modulus()
    ensures var info, eh := Sized(c, img, headers, symbols), ReadEhdr(c, img);
            && eh.phnum < 0x8000 && info.entry == eh.entry
            && (forall i :: 0 <= i < eh.phnum && IsLoad(c, img, i) ==>
                  info.start <= PhdrNo(c, img, i).paddr && PhdrNo(c, img, i).paddr + PhdrNo(c, img, i).memsz <= info.end)
            && (exists i :: 0 <= i < eh.phnum && IsLoad(c, img, i) && PhdrNo(c, img, i).paddr == info.start)
            && exists i :: 0 <= i < eh.phnum && IsLoad(c, img, i) &&
                 var top := PhdrNo(c, img, i).paddr + PhdrNo(c, img, i).memsz;
                 && (!headers && !symbols ==> info.end == top)
                 && (headers || symbols ==> info.sections % 16 == 0 && top <= info.sections < top + 16)
                 && (headers && !symbols ==> info.end == info.sections + eh.shnum * eh.shentsize)
                 && (symbols ==> info.end >= info.sections + eh.shnum * eh.shentsize)
  {
    hide Field, ReadEhdr, ReadPhdr, Low, High, Cursor, AlignUp;
    SizesExactlyWhen(c, img, symbols);
    VisitedHeaders(c, img);
    var eh, ps := ReadEhdr(c, img), ImagePhdrs(c, img);
    assert forall i :: 0 <= i < eh.phnum ==> (Loadable(ps[i]) <==> IsLoad(c, img, i));
    TightBounds(c, ps);
    ExtentIsProduct(eh.shnum, eh.shentsize);
    var lowest :| 0 <= lowest < eh.phnum && LowestLoad(c, img, lowest) && PhdrNo(c, img, lowest).paddr % 4096 == 0;
    assert Loadable(ps[lowest]);
    var i :| 0 <= i < |ps| && Loadable(ps[i]) && ps[i].paddr + ps[i].memsz == High(c, ps);
    assert IsLoad(c, img, i);
    Sixteen();
    AlignUpAligned(High(c, ps), 16);
  }

  lemma Sixteen()
    ensures PowerOfTwo(16)
  {
    assert PowerOfTwo(2);
    assert PowerOfTwo(4);
    assert PowerOfTwo(8);
  }

  // ----- copying

  /** Copying on bytes: byte `j` of the segment of header `i` comes from the file as far as
      p_filesz reaches, and is 0 behind that. */
  lemma CopiedMeaning(c: Class, img: seq<byte>, low: nat, window: seq<byte>, i: nat, j: nat)
    requires PhdrTableIn(c, img) && ReadEhdr(c, img).phnum < 0x8000 && IsLoad(c, img, i) && j < PhdrNo(c, img, i).memsz
    requires WellLaidOut(c, img, low) && SegmentsFit(ImagePhdrs(c, img), img, low, |window|)
    ensures var p := PhdrNo(c, img, i);
            && low <= p.paddr && p.paddr - low + j < |window|
            && (j < p.filesz ==> p.offset + j < |img|)
            && CopiedImage(c, img, low, window)[p.paddr - low + j] == if j < p.filesz then img[p.offset + j] else 0
  {
    hide Field, Extent, ReadEhdr, ReadPhdr, Copied;
    VisitedHeaders(c, img);
    var p := PhdrNo(c, img, i);
    assert SegmentFits(ImagePhdrs(c, img)[i], img, low, |window|);
    SegmentByte(ImagePhdrs(c, img), img, low, window, i, p.paddr - low + j);
  }

  /** A byte in no segment is as the target held it. */
  lemma GapMeaning(c: Class, img: seq<byte>, low: nat, window: seq<byte>, k: nat)
    requires PhdrTableIn(c, img) && ReadEhdr(c, img).phnum < 0x8000 && k < |window|
    requires forall i :: 0 <= i < ReadEhdr(c, img).phnum && IsLoad(c, img, i) ==>
               !(PhdrNo(c, img, i).paddr <= low + k < PhdrNo(c, img, i).paddr + PhdrNo(c, img, i).memsz)
    requires WellLaidOut(c, img, low) && SegmentsFit(ImagePhdrs(c, img), img, low, |window|)
    ensures CopiedImage(c, img, low, window)[k] == window[k]
  {
    hide Field, Extent, ReadEhdr, ReadPhdr, Copied;
    VisitedHeaders(c, img);
    forall i | 0 <= i < |ImagePhdrs(c, img)| ensures !InSegment(ImagePhdrs(c, img)[i], low, k) {
      assert ImagePhdrs(c, img)[i] == PhdrNo(c, img, i);
    }
    GapByte(ImagePhdrs(c, img), img, low, window, k);
  }
}
