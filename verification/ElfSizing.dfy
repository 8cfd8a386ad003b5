/** The first pass over an ELF file: bounds of the loaded image and room for its sections. */
module ElfSizing {
  import opened Words
  import opened Bytes
  import opened ElfFormat

  datatype LoadInfo = LoadInfo(start: nat, end: nat, entry: nat, sections: nat)

  // ----- bounds of the loadable segments

  /** Lowest p_paddr over the loadable headers; all ones when there are none. */
  function Low(c: Class, ps: seq<Phdr>): nat {
    if ps == [] then c.Modulus() - 1
    else
      var p := ps[|ps| - 1];
      var low := Low(c, ps[..|ps| - 1]);
      if Loadable(p) && p.paddr < low then p.paddr else low
  }

  /** Highest end of a loadable segment, computed in the class's address width. */
  function High(c: Class, ps: seq<Phdr>): nat {
    if ps == [] then 0
    else
      var p := ps[|ps| - 1];
      var high := High(c, ps[..|ps| - 1]);
      if Loadable(p) && AddMod(c, p.paddr, p.memsz) > high then AddMod(c, p.paddr, p.memsz) else high
  }

  ghost predicate NoSegmentWraps(c: Class, ps: seq<Phdr>) {
    forall i :: 0 <= i < |ps| && Loadable(ps[i]) ==> ps[i].paddr + ps[i].memsz < c.Modulus()
  }

  /** Low and High are tight bounds of the loadable segments. */
  lemma {:induction false} TightBounds(c: Class, ps: seq<Phdr>)
    requires NoSegmentWraps(c, ps)
    ensures forall i :: 0 <= i < |ps| && Loadable(ps[i]) ==>
              Low(c, ps) <= ps[i].paddr && ps[i].paddr + ps[i].memsz <= High(c, ps)
    ensures (exists i :: 0 <= i < |ps| && Loadable(ps[i])) ==>
              && (exists i :: 0 <= i < |ps| && Loadable(ps[i]) && ps[i].paddr == Low(c, ps))
              && (exists i :: 0 <= i < |ps| && Loadable(ps[i]) && ps[i].paddr + ps[i].memsz == High(c, ps))
  {
    if ps != [] {
      var n := |ps| - 1;
      var front := ps[..n];
      TightBounds(c, front);
      assert forall i :: 0 <= i < n ==> ps[i] == front[i];
      if Loadable(ps[n]) && forall i :: 0 <= i < n ==> !Loadable(front[i]) {
        NoneLoadable(c, front);
      }
    }
  }

  lemma {:induction false} NoneLoadable(c: Class, ps: seq<Phdr>)
    requires forall i :: 0 <= i < |ps| ==> !Loadable(ps[i])
    ensures Low(c, ps) == c.Modulus() - 1 && High(c, ps) == 0
  {
    if ps != [] {
      NoneLoadable(c, ps[..|ps| - 1]);
    }
  }

  // ----- room for sections

  /** y & ~m, in any width that holds y. */
  function AndNot(y: nat, m: nat): (r: nat)
    ensures r <= y <= r + m
  {
    if y == 0 then 0
    else (if y % 2 == 1 && m % 2 == 0 then 1 else 0) + 2 * AndNot(y / 2, m / 2)
  }

  /** Bit `k` of a number. */
  function BitOf(x: nat, k: nat): nat { if k == 0 then x % 2 else BitOf(x / 2, k - 1) }

  /** Bit by bit: set in y and not in m. */
  lemma {:induction false} AndNotBits(y: nat, m: nat, k: nat)
    ensures BitOf(AndNot(y, m), k) == if BitOf(y, k) == 1 && BitOf(m, k) == 0 then 1 else 0
    decreases k
  {
    var r := AndNot(y, m);
    if y == 0 {
      ZeroBits(k);
    } else if k > 0 {
      AndNotBits(y / 2, m / 2, k - 1);
      assert r / 2 == AndNot(y / 2, m / 2);
    }
  }

  lemma {:induction false} ZeroBits(k: nat)
    ensures BitOf(0, k) == 0
  {
    if k > 0 {
      ZeroBits(k - 1);
    }
  }

  /** The alignment of a cursor, as the code writes it: (x + (a - 1)) & ~(a - 1). */
  function AlignUp(x: nat, a: nat): (r: nat)
    ensures x <= r && (a > 1 ==> r < x + a)
  {
    if a <= 1 then x else AndNot(x + (a - 1), a - 1)
  }

  /** The values the gABI allows in sh_addralign besides 0. */
  predicate PowerOfTwo(a: nat) {
    a == 1 || (a > 1 && a % 2 == 0 && PowerOfTwo(a / 2))
  }

  lemma {:induction false} AndNotMultiple(y: nat, a: nat) returns (q: nat)
    requires PowerOfTwo(a)
    ensures AndNot(y, a - 1) == q * a
    decreases a
  {
    if a == 1 {
      AndNotZero(y);
      q := y;
    } else if y == 0 {
      q := 0;
    } else {
      HalfMask(a);
      q := AndNotMultiple(y / 2, a / 2);
      Doubled(q, a);
    }
  }

  lemma {:induction false} AndNotZero(y: nat)
    ensures AndNot(y, 0) == y
  {
    if y > 0 {
      AndNotZero(y / 2);
    }
  }

  lemma HalfMask(a: nat)
    requires a > 1 && a % 2 == 0
    ensures (a - 1) % 2 == 1 && (a - 1) / 2 == a / 2 - 1
  {
  }

  lemma Doubled(q: nat, a: nat)
    requires a % 2 == 0
    ensures 2 * (q * (a / 2)) == q * a
  {
    var half := a / 2;
    assert a == 2 * half;
  }

  /** For powers of two the mask rounds up to the next multiple ... */
  lemma AlignUpAligned(x: nat, a: nat)
    requires PowerOfTwo(a)
    ensures AlignUp(x, a) % a == 0
  {
    if a > 1 {
      hide AndNot, PowerOfTwo;
      var q := AndNotMultiple(x + (a - 1), a);
      MultipleOf(q, a);
    }
  }

  lemma {:induction false} AndNotSelf(y: nat)
    ensures AndNot(y, y) == 0
  {
    if y > 0 {
      AndNotSelf(y / 2);
    }
  }

  /** a & ~(a - 1) is the lowest bit of a. */
  lemma {:induction false} LowestBit(a: nat)
    requires a > 0
    ensures 0 < AndNot(a, a - 1) <= a
    ensures AndNot(a, a - 1) == a ==> PowerOfTwo(a)
  {
    if a % 2 == 1 {
      assert (a - 1) / 2 == a / 2 && (a - 1) % 2 == 0;
      AndNotSelf(a / 2);
    } else {
      HalfMask(a);
      LowestBit(a / 2);
    }
  }

  /** ... and only for these. */
  lemma AlignsExactlyForPowersOfTwo(a: nat)
    requires a > 1
    ensures (forall x: nat :: AlignUp(x, a) % a == 0) <==> PowerOfTwo(a)
  {
    if PowerOfTwo(a) {
      forall x: nat ensures AlignUp(x, a) % a == 0 {
        AlignUpAligned(x, a);
      }
    } else {
      LowestBit(a);
      var r := AlignUp(1, a);
      assert 0 < r < a;
      Remainder(0, r, a);
    }
  }

  /** Asked for a multiple of 3, the mask leaves 1 as it is. */
  lemma MaskIsNotRounding()
    ensures AlignUp(1, 3) == 1
  {
    assert AndNot(1, 1) == 0 && AndNot(3, 2) == 1;
  }

  /** Sections to be laid out behind the image: not empty and not part of a segment. */
  predicate Placed(s: Shdr) { s.size != 0 && s.addr == 0 }

  /** The cursor after the first `n` sections when it starts at `cursor`. */
  function Cursor(ss: seq<Shdr>, n: nat, cursor: nat): (r: nat)
    requires n <= |ss|
    ensures cursor <= r
  {
    if n == 0 then cursor
    else
      var before := Cursor(ss, n - 1, cursor);
      if Placed(ss[n - 1]) then AlignUp(before, ss[n - 1].addralign) + ss[n - 1].size else before
  }

  /** Where section `i` goes. */
  function PlaceOf(ss: seq<Shdr>, i: nat, cursor: nat): nat
    requires i < |ss|
  {
    AlignUp(Cursor(ss, i, cursor), ss[i].addralign)
  }

  /** Laying out the first `n` sections never leaves the address width. */
  ghost predicate NoSectionWraps(c: Class, ss: seq<Shdr>, n: nat, cursor: nat)
    requires n <= |ss|
  {
    n == 0 ||
    (&& NoSectionWraps(c, ss, n - 1, cursor)
     && (Placed(ss[n - 1]) ==>
           Cursor(ss, n - 1, cursor) + ss[n - 1].addralign + ss[n - 1].size < c.Modulus()))
  }

  lemma {:induction false} NoWrapPrefix(c: Class, ss: seq<Shdr>, i: nat, n: nat, cursor: nat)
    requires i <= n <= |ss| && NoSectionWraps(c, ss, n, cursor)
    ensures NoSectionWraps(c, ss, i, cursor)
  {
    if i < n {
      NoWrapPrefix(c, ss, i, n - 1, cursor);
    }
  }

  function ShdrAt(table: nat, eh: Ehdr, i: nat): nat { table + Extent(i, eh.shentsize) }

  /** A section header table at `table` in `m`; the loops over it need a count below 2^15. */
  ghost predicate HasShdrs(c: Class, m: seq<byte>, table: nat, eh: Ehdr) {
    && table + Extent(eh.shnum, eh.shentsize) <= |m|
    && (eh.shnum > 0 ==> c.ShdrSize() <= eh.shentsize)
    && eh.shnum < 0x8000
  }

  lemma ShdrInside(c: Class, m: seq<byte>, table: nat, eh: Ehdr, i: nat)
    requires HasShdrs(c, m, table, eh) && i < eh.shnum
    ensures ShdrAt(table, eh, i) + c.ShdrSize() <= table + Extent(eh.shnum, eh.shentsize)
  {
    ExtentGrows(i, eh.shnum, eh.shentsize);
  }

  ghost function Shdrs(c: Class, m: seq<byte>, table: nat, eh: Ehdr): (r: seq<Shdr>)
    requires HasShdrs(c, m, table, eh)
    ensures |r| == eh.shnum
  {
    seq(eh.shnum, i requires 0 <= i < eh.shnum =>
      ShdrInside(c, m, table, eh, i); ReadShdr(c, m, ShdrAt(table, eh, i)))
  }

  // ----- the sizing pass

  /** What the sizing pass trusts a file with: a program header table and, if it is asked
      for, a section header table that do not wrap round 4 GB and have entries of the standard
      size at least. */
  ghost predicate Trusted(c: Class, img: seq<byte>, tables: bool) {
    && |img| < TWO_32
    && (c.EhdrSize() <= |img| ==>
          var eh := ReadEhdr(c, img);
          && eh.phoff + Extent(eh.phnum, eh.phentsize) < TWO_32
          && (eh.phnum > 0 ==> c.PhdrSize() <= eh.phentsize)
          && (tables ==>
                && eh.shoff + Extent(eh.shnum, eh.shentsize) < TWO_32
                && (eh.shnum > 0 ==> c.ShdrSize() <= eh.shentsize)
                && eh.shnum < 0x8000))
  }

  ghost predicate Sizable(c: Class, img: seq<byte>, symbols: bool) {
    && c.EhdrSize() <= |img|
    && var eh := ReadEhdr(c, img);
       && (eh.etype == ET_EXEC || eh.etype == ET_DYN)
       && HasPhdrs(c, img, eh)
       && Low(c, Phdrs(c, img, eh)) % PAGE == 0
       && (symbols ==> HasShdrs(c, img, eh.shoff, eh))
  }

  /** Where the section table goes, before relocation. */
  ghost function TableAddr(c: Class, img: seq<byte>): nat
    requires c.EhdrSize() <= |img| && HasPhdrs(c, img, ReadEhdr(c, img))
  {
    AlignUp(High(c, Phdrs(c, img, ReadEhdr(c, img))), 16)
  }

  ghost function Sized(c: Class, img: seq<byte>, headers: bool, symbols: bool): LoadInfo
    requires Sizable(c, img, symbols)
  {
    var eh := ReadEhdr(c, img);
    var ps := Phdrs(c, img, eh);
    var table := TableAddr(c, img);
    var cursor := table + Extent(eh.shnum, eh.shentsize);
    LoadInfo(Low(c, ps),
             if symbols then Cursor(Shdrs(c, img, eh.shoff, eh), eh.shnum, cursor)
             else if headers then cursor else High(c, ps),
             eh.entry,
             if headers || symbols then table else 0)
  }

  /** None of the optional-table arithmetic leaves the address width. */
  ghost predicate NoTableWraps(c: Class, img: seq<byte>, headers: bool, symbols: bool) {
    (headers || symbols) && c.EhdrSize() <= |img| && HasPhdrs(c, img, ReadEhdr(c, img)) ==>
      var eh := ReadEhdr(c, img);
      var room := Extent(eh.shnum, eh.shentsize);
      && High(c, Phdrs(c, img, eh)) + 15 + room < c.Modulus()
      && (symbols && HasShdrs(c, img, eh.shoff, eh) ==>
            NoSectionWraps(c, Shdrs(c, img, eh.shoff, eh), eh.shnum, TableAddr(c, img) + room))
  }

  method SegmentBounds(c: Class, img: seq<byte>, eh: Ehdr) returns (low: nat, high: nat)
    requires HasPhdrs(c, img, eh)
    ensures low == Low(c, Phdrs(c, img, eh)) && high == High(c, Phdrs(c, img, eh))
  {
    hide Field, Extent;
    ghost var ps := Phdrs(c, img, eh);
    low, high := c.Modulus() - 1, 0;
    for i := 0 to Iterations(eh.phnum)
      invariant low == Low(c, ps[..i]) && high == High(c, ps[..i])
    {
      PhdrInside(c, img, eh, i);
      var p := ReadPhdr(c, img, PhdrAt(eh, i));
      assert ps[..i + 1][..i] == ps[..i] && ps[..i + 1][i] == p;
      if p.ptype != PT_LOAD || p.memsz == 0 {
        continue;
      }
      if p.paddr < low {
        low := p.paddr;
      }
      if AddMod(c, p.paddr, p.memsz) > high {
        high := AddMod(c, p.paddr, p.memsz);
      }
    }
    assert ps[..|ps|] == ps;
  }

  method SectionRoom(c: Class, img: seq<byte>, eh: Ehdr, cursor: nat) returns (end: nat)
    requires HasShdrs(c, img, eh.shoff, eh)
    requires NoSectionWraps(c, Shdrs(c, img, eh.shoff, eh), eh.shnum, cursor)
    ensures end == Cursor(Shdrs(c, img, eh.shoff, eh), eh.shnum, cursor)
  {
    hide Field;
    ghost var ss := Shdrs(c, img, eh.shoff, eh);
    end := cursor;
    for i := 0 to eh.shnum
      invariant end == Cursor(ss, i, cursor)
    {
      ShdrInside(c, img, eh.shoff, eh, i);
      NoWrapPrefix(c, ss, i + 1, eh.shnum, cursor);
      var s := ReadShdr(c, img, ShdrAt(eh.shoff, eh, i));
      assert s == ss[i];
      if s.size == 0 {
        continue;
      }
      if s.addr != 0 {
        continue;
      }
      if s.addralign > 1 {
        end := AlignUp(end, s.addralign);
      }
      end := AddMod(c, end, s.size);
    }
  }

  /** Room for the section table and, with `symbols`, for the sections themselves. */
  method OptionalTables(c: Class, img: seq<byte>, eh: Ehdr, high: nat, symbols: bool)
    returns (ok: bool, table: nat, end: nat)
    requires |img| < TWO_32
    requires eh.shoff + Extent(eh.shnum, eh.shentsize) < TWO_32
    requires (eh.shnum > 0 ==> c.ShdrSize() <= eh.shentsize) && eh.shnum < 0x8000
    requires high + 15 + Extent(eh.shnum, eh.shentsize) < c.Modulus()
    requires symbols && HasShdrs(c, img, eh.shoff, eh) ==>
               NoSectionWraps(c, Shdrs(c, img, eh.shoff, eh), eh.shnum,
                              AlignUp(high, 16) + Extent(eh.shnum, eh.shentsize))
    ensures ok <==> (symbols ==> HasShdrs(c, img, eh.shoff, eh))
    ensures ok ==>
              var cursor := AlignUp(high, 16) + Extent(eh.shnum, eh.shentsize);
              && table == AlignUp(high, 16)
              && end == if symbols then Cursor(Shdrs(c, img, eh.shoff, eh), eh.shnum, cursor) else cursor
  {
    hide Field, Extent, AlignUp, Cursor, NoSectionWraps;
    table := AlignUp(high, 16);
    end := AddMod(c, table, Extent(eh.shnum, eh.shentsize));
    ok := true;
    if symbols {
      if !Maps(|img|, eh.shoff, Extent(eh.shnum, eh.shentsize)) {
        ok := false;
        return;
      }
      end := SectionRoom(c, img, eh, end);
    }
  }

  /** elf32_get_load_info and elf64_get_load_info. */
  method GetLoadInfo(c: Class, img: seq<byte>, headers: bool, symbols: bool) returns (ok: bool, info: LoadInfo)
    requires Trusted(c, img, headers || symbols) && NoTableWraps(c, img, headers, symbols)
    ensures ok <==> Sizable(c, img, symbols)
    ensures ok ==> info == Sized(c, img, headers, symbols)
  {
    hide Field, Extent, Low, High, AlignUp, Cursor, NoSectionWraps;
    ok, info := false, LoadInfo(0, 0, 0, 0);
    if !Maps(|img|, 0, c.EhdrSize()) {
      return;
    }
    var eh := ReadEhdr(c, img);
    if eh.etype != ET_EXEC && eh.etype != ET_DYN {
      return;
    }
    if !Maps(|img|, eh.phoff, Extent(eh.phnum, eh.phentsize)) {
      return;
    }
    var low, high := SegmentBounds(c, img, eh);
    if low % PAGE != 0 {
      return;
    }
    var table := 0;
    if headers || symbols {
      var fits;
      fits, table, high := OptionalTables(c, img, eh, high, symbols);
      if !fits {
        return;
      }
    }
    ok, info := true, LoadInfo(low, high, eh.entry, table);
  }
}
