/** A position-independent image, for either class, that meets everything the loader asks
    for: two program headers, a dynamic section and one relocation. */
module ElfSample {
  import opened Words
  import opened Bytes
  import opened ElfFormat
  import opened ElfSizing
  import opened ElfSegments
  import opened ElfPatches
  import opened ElfHeaders
  import opened ElfRelocation
  import opened ElfLoad
  import opened ElfPlacement
  import opened ElfRecords
  import opened ElfTables
  import opened ElfImage

  // ----- the layout: headers, dynamic section, relocation table, one word

  function DynamicAt(c: Class): nat { if c.Elf32? then 116 else 176 }
  function RelaAt(c: Class): nat { if c.Elf32? then 156 else 256 }
  function WordAt(c: Class): nat { if c.Elf32? then 168 else 280 }
  function FileSize(c: Class): nat { if c.Elf32? then 172 else 288 }
  function MemorySize(c: Class): nat { if c.Elf32? then 200 else 316 }

  function Header(c: Class): Ehdr { Ehdr(ET_DYN, 16, c.EhdrSize(), 0, c.PhdrSize(), 2, c.ShdrSize(), 0) }
  function Load(c: Class): Phdr { Phdr(PT_LOAD, 0, 0, 0, FileSize(c), MemorySize(c)) }
  function Dynamic(c: Class): Phdr {
    Phdr(PT_DYNAMIC, DynamicAt(c), DynamicAt(c), DynamicAt(c), 5 * c.DynSize(), 5 * c.DynSize())
  }
  function Headers(c: Class): seq<Phdr> { [Load(c), Dynamic(c)] }

  /** The relocation of the word at the end: the load address plus 100. */
  function Relocation(c: Class): Entry { Entry(WordAt(c), R_RELATIVE, 100) }

  /** DT_RELA, DT_RELASZ, DT_RELAENT, DT_SYMTAB, DT_SYMENT. */
  function TagOf(k: nat): nat {
    if k == 0 then DT_RELA else if k == 1 then DT_RELASZ else if k == 2 then DT_RELAENT else if k == 3 then DT_SYMTAB else DT_SYMENT
  }

  function ValueOf(c: Class, k: nat): nat {
    if k == 0 then RelaAt(c) else if k == 1 || k == 2 then c.RelaSize() else if k == 3 then WordAt(c) else c.SymSize()
  }

  /** What the loader reads of the file. */
  ghost predicate IsSample(c: Class, img: seq<byte>) {
    && |img| == FileSize(c)
    && ReadEhdr(c, img) == Header(c) && HeaderIsValid(c, img)
    && ReadPhdr(c, img, c.EhdrSize()) == Load(c) && ReadPhdr(c, img, c.EhdrSize() + c.PhdrSize()) == Dynamic(c)
    && (forall k :: 0 <= k < 5 ==> HasTag(c, img, k))
    && RelaReads(c, img, RelaAt(c))
  }

  /** The three words of the relocation are at `a`. */
  ghost predicate RelaReads(c: Class, m: seq<byte>, a: nat)
    requires a + c.RelaSize() <= |m|
  {
    var e, w := Relocation(c), c.Word();
    Field(m, a, w) == e.offset && Field(m, a + w, w) == e.info && Field(m, a + 2 * w, w) == e.addend
  }

  ghost predicate HasTag(c: Class, img: seq<byte>, k: nat)
    requires k < 5 && |img| == FileSize(c)
  {
    var a := DynamicAt(c) + k * c.DynSize();
    Field(img, a, c.Word()) == TagOf(k) && Field(img, a + c.Word(), c.Word()) == ValueOf(c, k)
  }

  function SampleTable(c: Class): Table { Table(Rela, RelaAt(c), 1, WordAt(c)) }

  // ----- there is such a file

  ghost predicate PartsFit(c: Class, ps: seq<seq<byte>>) {
    && |ps| == 10
    && |ps[0]| == c.EhdrSize() && |ps[1]| == |ps[2]| == c.PhdrSize()
    && |ps[3]| == |ps[4]| == |ps[5]| == |ps[6]| == |ps[7]| == c.DynSize() && |ps[8]| == c.RelaSize() && |ps[9]| == c.Word()
  }

  lemma Starts(c: Class, ps: seq<seq<byte>>)
    requires PartsFit(c, ps)
    ensures Start(ps, 0) == 0 && Start(ps, 1) == c.EhdrSize() && Start(ps, 2) == c.EhdrSize() + c.PhdrSize()
    ensures Start(ps, 3) == DynamicAt(c) && Start(ps, 4) == DynamicAt(c) + c.DynSize() && Start(ps, 5) == DynamicAt(c) + 2 * c.DynSize()
    ensures Start(ps, 6) == DynamicAt(c) + 3 * c.DynSize() && Start(ps, 7) == DynamicAt(c) + 4 * c.DynSize()
    ensures Start(ps, 8) == RelaAt(c) && Start(ps, 10) == FileSize(c)
  {
    EightStarts(ps);
    assert Start(ps, 9) == Start(ps, 8) + |ps[8]|;
    assert Start(ps, 10) == Start(ps, 9) + |ps[9]|;
    assert Start(ps, 0) == 0;
  }

  /** A stretch of the file is one of its parts. */
  lemma PartAt(c: Class, ps: seq<seq<byte>>, i: nat, a: nat, n: nat)
    requires PartsFit(c, ps) && i < 10 && a == Start(ps, i) && n == |ps[i]|
    ensures a + n <= |Join(ps, 10)| == FileSize(c) && Join(ps, 10)[a..a + n] == ps[i]
  {
    hide Join, Start;
    JoinAt(ps, 10, i);
    Starts(c, ps);
  }

  lemma HeaderAssembled(c: Class, ps: seq<seq<byte>>)
    requires PartsFit(c, ps) && ReadEhdr(c, ps[0]) == Header(c) && HeaderIsValid(c, ps[0])
    ensures |Join(ps, 10)| == FileSize(c) && ReadEhdr(c, Join(ps, 10)) == Header(c) && HeaderIsValid(c, Join(ps, 10))
  {
    hide Join, Start, ReadEhdr, HeaderIsValid;
    var img, n := Join(ps, 10), c.EhdrSize();
    Starts(c, ps);
    PartAt(c, ps, 0, 0, n);
    assert img[..n] == img[0..n] && ps[0][..n] == ps[0];
    SameEhdr(c, img, ps[0]);
    SameValid(c, img, ps[0]);
  }

  lemma PhdrAssembled(c: Class, ps: seq<seq<byte>>, i: nat, a: nat, p: Phdr)
    requires PartsFit(c, ps) && 1 <= i <= 2 && a == Start(ps, i) && ReadPhdr(c, ps[i], 0) == p
    ensures a + c.PhdrSize() <= |Join(ps, 10)| && ReadPhdr(c, Join(ps, 10), a) == p
  {
    hide Join, Start, ReadPhdr;
    PartAt(c, ps, i, a, c.PhdrSize());
    PhdrOfStretch(c, Join(ps, 10), a);
  }

  lemma TagAssembled(c: Class, ps: seq<seq<byte>>, k: nat, tag: nat, value: nat)
    requires PartsFit(c, ps) && k < 5 && Start(ps, 3 + k) == DynamicAt(c) + k * c.DynSize() && |ps[3 + k]| == c.DynSize()
    requires Field(ps[3 + k], 0, c.Word()) == tag && Field(ps[3 + k], c.Word(), c.Word()) == value
    requires tag == TagOf(k) && value == ValueOf(c, k)
    ensures |Join(ps, 10)| == FileSize(c) && HasTag(c, Join(ps, 10), k)
  {
    hide Join, Start, Field;
    var a, w := DynamicAt(c) + k * c.DynSize(), c.Word();
    PartAt(c, ps, 3 + k, a, c.DynSize());
    SubField(Join(ps, 10), a, c.DynSize(), 0, w);
    SubField(Join(ps, 10), a, c.DynSize(), w, w);
  }

  lemma EntryAssembled(c: Class, ps: seq<seq<byte>>)
    requires PartsFit(c, ps) && RelaReads(c, ps[8], 0)
    ensures |Join(ps, 10)| == FileSize(c) && RelaReads(c, Join(ps, 10), RelaAt(c))
  {
    hide Join, Start, Field;
    Starts(c, ps);
    PartAt(c, ps, 8, RelaAt(c), c.RelaSize());
    RelaMoved(c, ps[8], 0, Join(ps, 10), RelaAt(c));
  }

  lemma RelaMoved(c: Class, m: seq<byte>, a: nat, m': seq<byte>, a': nat)
    requires a + c.RelaSize() <= |m| && a' + c.RelaSize() <= |m'| && RelaReads(c, m, a)
    requires m[a..a + c.RelaSize()] == m'[a'..a' + c.RelaSize()]
    ensures RelaReads(c, m', a')
  {
    hide Field, Relocation;
    var n, w := c.RelaSize(), c.Word();
    SubField(m, a, n, 0, w);
    SubField(m, a, n, w, w);
    SubField(m, a, n, 2 * w, w);
    SubField(m', a', n, 0, w);
    SubField(m', a', n, w, w);
    SubField(m', a', n, 2 * w, w);
  }

  /** The structures, written one after another. */
  lemma SampleExists(c: Class) returns (img: seq<byte>)
    ensures IsSample(c, img)
  {
    hide EhdrBytes, PhdrBytes, DynBytes, RelocationBytes, Pow256, Join, Start, ReadEhdr, ReadPhdr, RelaReads, HeaderIsValid, Field;
    InWidth(c);
    EhdrReadBack(c, Header(c), 0, 0);
    WrittenHeaderIsValid(c, Header(c), 0, 0);
    PhdrReadBack(c, Load(c), 7, 4096);
    PhdrReadBack(c, Dynamic(c), 6, 8);
    DynReadBack(c, TagOf(0), ValueOf(c, 0));
    DynReadBack(c, TagOf(1), ValueOf(c, 1));
    DynReadBack(c, TagOf(2), ValueOf(c, 2));
    DynReadBack(c, TagOf(3), ValueOf(c, 3));
    DynReadBack(c, TagOf(4), ValueOf(c, 4));
    RelaWritten(c);
    img := Assembled(c, EhdrBytes(c, Header(c), 0, 0), PhdrBytes(c, Load(c), 7, 4096), PhdrBytes(c, Dynamic(c), 6, 8),
                     DynBytes(c, TagOf(0), ValueOf(c, 0)), DynBytes(c, TagOf(1), ValueOf(c, 1)), DynBytes(c, TagOf(2), ValueOf(c, 2)),
                     DynBytes(c, TagOf(3), ValueOf(c, 3)), DynBytes(c, TagOf(4), ValueOf(c, 4)),
                     RelocationBytes(c, Rela, Relocation(c)));
  }

  lemma RelaWritten(c: Class)
    ensures |RelocationBytes(c, Rela, Relocation(c))| == c.RelaSize() && RelaReads(c, RelocationBytes(c, Rela, Relocation(c)), 0)
  {
    hide RelocationBytes, Field, Pow256;
    InWidth(c);
    RelocationFields(c, Rela, Relocation(c));
  }

  ghost predicate DynReads(c: Class, d: seq<byte>, k: nat) {
    |d| == c.DynSize() && Field(d, 0, c.Word()) == TagOf(k) && Field(d, c.Word(), c.Word()) == ValueOf(c, k)
  }

  lemma Assembled(c: Class, eh: seq<byte>, load: seq<byte>, dyn: seq<byte>, d0: seq<byte>, d1: seq<byte>, d2: seq<byte>, d3: seq<byte>,
                  d4: seq<byte>, rela: seq<byte>) returns (img: seq<byte>)
    requires |eh| == c.EhdrSize() && ReadEhdr(c, eh) == Header(c) && HeaderIsValid(c, eh)
    requires |load| == |dyn| == c.PhdrSize() && ReadPhdr(c, load, 0) == Load(c) && ReadPhdr(c, dyn, 0) == Dynamic(c)
    requires DynReads(c, d0, 0) && DynReads(c, d1, 1) && DynReads(c, d2, 2) && DynReads(c, d3, 3) && DynReads(c, d4, 4)
    requires |rela| == c.RelaSize() && RelaReads(c, rela, 0)
    ensures IsSample(c, img)
  {
    hide Join, Start, ReadEhdr, ReadPhdr, RelaReads, HeaderIsValid, Field, HasTag, TagOf, ValueOf;
    var ps := [eh, load, dyn, d0, d1, d2, d3, d4, rela, Zeros(c.Word())];
    Starts(c, ps);
    HeaderAssembled(c, ps);
    PhdrAssembled(c, ps, 1, c.EhdrSize(), Load(c));
    PhdrAssembled(c, ps, 2, c.EhdrSize() + c.PhdrSize(), Dynamic(c));
    TagAssembled(c, ps, 0, TagOf(0), ValueOf(c, 0));
    TagAssembled(c, ps, 1, TagOf(1), ValueOf(c, 1));
    TagAssembled(c, ps, 2, TagOf(2), ValueOf(c, 2));
    TagAssembled(c, ps, 3, TagOf(3), ValueOf(c, 3));
    TagAssembled(c, ps, 4, TagOf(4), ValueOf(c, 4));
    EntryAssembled(c, ps);
    img := Join(ps, 10);
  }

  lemma InWidth(c: Class)
    ensures Pow256(2) == 0x1_0000 && Pow256(4) == TWO_32 && Pow256(c.Word()) >= TWO_32
  {
    Pow256Values();
  }

  // ----- what the loader makes of it

  lemma SamplePhdrs(c: Class)
    ensures forall i: nat :: PhdrAt(Header(c), i) == c.EhdrSize() + i * c.PhdrSize()
    ensures PhdrEnd(Header(c)) == DynamicAt(c)
  {
    hide Extent;
    forall i: nat ensures Extent(i, c.PhdrSize()) == i * c.PhdrSize() {
      ExtentIsProduct(i, c.PhdrSize());
    }
  }

  lemma SampleSegments(c: Class, img: seq<byte>)
    requires IsSample(c, img)
    ensures HasPhdrs(c, img, ReadEhdr(c, img)) && ImagePhdrs(c, img) == Headers(c) && LastDynamic(Headers(c), 2) == 1
  {
    hide IsSample, ReadEhdr, Extent, LastDynamic, Phdrs, Headers;
    SampleTableIn(c, img);
    BothHeaders(c, Phdrs(c, img, Header(c)));
    LastIsDynamic(c);
  }

  lemma SampleTableIn(c: Class, img: seq<byte>)
    requires IsSample(c, img)
    ensures c.EhdrSize() <= |img| && ReadEhdr(c, img) == Header(c) && HasPhdrs(c, img, Header(c))
    ensures |Phdrs(c, img, Header(c))| == 2 && Phdrs(c, img, Header(c))[0] == Load(c) && Phdrs(c, img, Header(c))[1] == Dynamic(c)
  {
    hide ReadPhdr, ReadEhdr, Extent, HasTag, RelaReads, HeaderIsValid, Load, Dynamic, Phdrs;
    SamplePhdrs(c);
    DynamicInside(c);
    PhdrsIndex(c, img, Header(c), 0);
    PhdrsIndex(c, img, Header(c), 1);
    PhdrsLength(c, img);
  }

  lemma BothHeaders(c: Class, ps: seq<Phdr>)
    requires |ps| == 2 && ps[0] == Load(c) && ps[1] == Dynamic(c)
    ensures ps == Headers(c)
  {
    hide Load, Dynamic;
  }

  lemma PhdrsLength(c: Class, img: seq<byte>)
    requires HasPhdrs(c, img, Header(c))
    ensures |Phdrs(c, img, Header(c))| == 2
  {
    hide Extent;
  }

  lemma DynamicInside(c: Class)
    ensures DynamicAt(c) <= FileSize(c)
  {
  }

  lemma LastIsDynamic(c: Class)
    ensures LastDynamic(Headers(c), 2) == 1
  {
  }

  lemma {:induction false} TagFound(c: Class, img: seq<byte>, k: nat, n: nat)
    requires IsSample(c, img) && k < n <= 5
    ensures DynamicAt(c) + Extent(n, c.DynSize()) <= |img|
    ensures LastWithTag(c, img, DynamicAt(c), n, TagOf(k)) == Some(ValueOf(c, k))
    decreases n
  {
    hide Field, ValueOf, ReadEhdr, ReadPhdr, RelaReads, HeaderIsValid;
    ExtentIsProduct(n - 1, c.DynSize());
    ExtentIsProduct(n, c.DynSize());
    assert HasTag(c, img, n - 1);
    if k < n - 1 {
      TagFound(c, img, k, n - 1);
    }
  }

  lemma TableFound(c: Class, img: seq<byte>)
    requires IsSample(c, img)
    ensures DynamicMapped(c, img, Dynamic(c)) && DynTable(c, img, Dynamic(c)) == Some(SampleTable(c))
  {
    hide Field, Extent, LastWithTag, ReadEhdr, ReadPhdr, RelaReads, HeaderIsValid, HasTag;
    TagFound(c, img, 0, 5);
    TagFound(c, img, 1, 5);
    TagFound(c, img, 2, 5);
    TagFound(c, img, 3, 5);
    TagFound(c, img, 4, 5);
  }

  // ----- loading it

  /** The copied window begins with the file. */
  lemma SampleCopied(c: Class, img: seq<byte>, window: seq<byte>)
    requires IsSample(c, img) && |window| == MemorySize(c)
    ensures SegmentsFit(Headers(c), img, 0, |window|) && SegmentsDisjoint(Headers(c))
    ensures CarriesHeaders(Headers(c), 0, FileSize(c))
    ensures Begins(c, img, Copied(Headers(c), img, 0, window))
  {
    hide Copied, ReadEhdr, ReadPhdr, RelaReads, HeaderIsValid, HasTag;
    var ps := Headers(c);
    assert CarriesHeaders(ps, 0, FileSize(c)) by { assert ps[0] == Load(c); }
    HeadersArrive(ps, img, 0, window, FileSize(c));
    assert img[..FileSize(c)] == img;
  }

  /** A window that begins with the file. */
  ghost predicate Begins(c: Class, img: seq<byte>, m: seq<byte>) {
    IsSample(c, img) && |m| == MemorySize(c) && m[..FileSize(c)] == img
  }

  lemma SampleEntry(c: Class, img: seq<byte>, m: seq<byte>)
    requires Begins(c, img, m)
    ensures EntryAt(c, SampleTable(c), 0) == RelaAt(c) && ReadEntry(c, m, SampleTable(c), 0) == Relocation(c)
  {
    hide Field, ReadEhdr, ReadPhdr, HeaderIsValid, HasTag, Extent;
    FirstEntry(c, SampleTable(c));
    assert img[..FileSize(c)] == img;
    PrefixStretch(m, img, FileSize(c), RelaAt(c), c.RelaSize());
    RelaMoved(c, img, RelaAt(c), m, RelaAt(c));
  }

  lemma FirstEntry(c: Class, t: Table)
    ensures EntryAt(c, t, 0) == t.at
  {
  }

  function SampleHeaderPatches(c: Class): seq<Patch> {
    var e, p := c.EhdrSize(), c.PhdrSize();
    [Patch(e + c.PaddrAt(), 0), Patch(e + c.VaddrAt(), 0)]
    + [Patch(e + p + c.PaddrAt(), DynamicAt(c)), Patch(e + p + c.VaddrAt(), DynamicAt(c))]
  }

  lemma SampleHeaderWords(c: Class, img: seq<byte>, m: seq<byte>)
    requires Begins(c, img, m)
    ensures HasPhdrs(c, m, Header(c)) && HeaderPatches(c, m, Header(c), 2) == SampleHeaderPatches(c)
  {
    hide Field, Extent, ReadPhdr, ReadEhdr, HeaderIsValid, HasTag, RelaReads, HeaderPatches;
    SamplePhdrs(c);
    DynamicInside(c);
    KeptPhdr(c, img, m, c.EhdrSize());
    KeptPhdr(c, img, m, c.EhdrSize() + c.PhdrSize());
    TwoHeaders(c, m, Header(c), Load(c), Dynamic(c));
  }

  lemma KeptPhdr(c: Class, img: seq<byte>, m: seq<byte>, a: nat)
    requires Begins(c, img, m) && a + c.PhdrSize() <= FileSize(c)
    ensures ReadPhdr(c, m, a) == ReadPhdr(c, img, a)
  {
    hide ReadPhdr, ReadEhdr, RelaReads, HeaderIsValid, HasTag;
    assert img[..FileSize(c)] == img;
    PrefixStretch(m, img, FileSize(c), a, c.PhdrSize());
    SamePhdr(c, m, img, a);
  }

  /** The patches of two headers that describe memory. */
  lemma TwoHeaders(c: Class, m: seq<byte>, h: Ehdr, p: Phdr, q: Phdr)
    requires HasPhdrs(c, m, h) && h.phnum == 2 && p.memsz != 0 && q.memsz != 0
    requires PhdrAt(h, 0) + c.PhdrSize() <= |m| && PhdrAt(h, 1) + c.PhdrSize() <= |m|
    requires ReadPhdr(c, m, PhdrAt(h, 0)) == p && ReadPhdr(c, m, PhdrAt(h, 1)) == q
    ensures HeaderPatches(c, m, h, 2)
            == [Patch(PhdrAt(h, 0) + c.PaddrAt(), p.paddr), Patch(PhdrAt(h, 0) + c.VaddrAt(), p.vaddr)]
               + [Patch(PhdrAt(h, 1) + c.PaddrAt(), q.paddr), Patch(PhdrAt(h, 1) + c.VaddrAt(), q.vaddr)]
  {
    hide ReadPhdr, Extent;
    assert HeaderPatches(c, m, h, 0) == [];
    assert HeaderPatches(c, m, h, 1) == [] + [Patch(PhdrAt(h, 0) + c.PaddrAt(), p.paddr), Patch(PhdrAt(h, 0) + c.VaddrAt(), p.vaddr)];
  }

  lemma SampleRelocation(c: Class, img: seq<byte>, m: seq<byte>)
    requires Begins(c, img, m)
    ensures EntryOk(c, m, SampleTable(c), 0, 0) && AllSupported(c, m, SampleTable(c), 0, 1)
    ensures RelocPatches(c, m, SampleTable(c), 0, 1) == [Patch(WordAt(c), 100)]
  {
    SampleEntry(c, img, m);
    hide Field, Extent, ReadEntry, EntryAt, SymbolAt, IsSample;
    assert RelocPatches(c, m, SampleTable(c), 0, 0) == [];
  }

  /** Patched words before the table, or behind it, are apart from what the relocation reads. */
  lemma SampleReads(c: Class, img: seq<byte>, m: seq<byte>, ps: seq<Patch>)
    requires Begins(c, img, m)
    requires forall i :: 0 <= i < |ps| ==> ps[i].at + c.Word() <= RelaAt(c) || WordAt(c) <= ps[i].at
    ensures EntriesOk(c, m, SampleTable(c), 0, 1) && ReadsUntouched(c, m, SampleTable(c), 0, ps)
  {
    hide Field, Extent, ReadEntry, EntryAt, SymbolAt, IsSample;
    SampleEntry(c, img, m);
    SampleRelocation(c, img, m);
  }

  lemma SampleCompatible(c: Class, img: seq<byte>, m: seq<byte>)
    requires Begins(c, img, m)
    ensures HasPhdrs(c, m, Header(c)) && Compatible(c, m, SampleTable(c), 0, HeaderPatches(c, m, Header(c), 2))
  {
    hide Field, Extent, HeaderPatches, RelocPatches, ReadsUntouched, EntryOk, IsSample;
    SampleHeaderWords(c, img, m);
    SampleRelocation(c, img, m);
    SampleReads(c, img, m, [Patch(WordAt(c), 100)]);
    SampleReads(c, img, m, SampleHeaderPatches(c));
  }

  lemma SampleInSegments(c: Class, img: seq<byte>, m: seq<byte>)
    requires Begins(c, img, m)
    ensures TableInSegments(c, Headers(c), m, SampleTable(c), 0)
  {
    hide Field, Extent, ReadEntry, EntryAt, SymbolAt, EntryOk, IsSample;
    SampleEntry(c, img, m);
    SampleRelocation(c, img, m);
    forall k | 0 <= k < MemorySize(c) ensures InSomeSegment(Headers(c), 0, k) {
      assert InSegment(Headers(c)[0], 0, k);
    }
  }

  /** The assumptions on files are met, for either class, by an image that needs relocation,
      wherever it is loaded and whatever was there before; it loads, with five words that
      depend on the target. */
  lemma SampleLoads(c: Class, img: seq<byte>, window: seq<byte>)
    requires IsSample(c, img) && |window| == MemorySize(c)
    ensures LoadPre(c, img, 0, window) && Loads(c, img, 0, window) && HasDynamic(c, img)
    ensures SelfContained(c, img, 0, window)
    ensures TargetWords(c, img, 0, window) == SampleHeaderPatches(c) + [Patch(WordAt(c), 100)]
  {
    hide Field, Extent, IsSample, ReadEhdr, ReadPhdr, Copied, Compatible, AllSupported, RelocPatches, HeaderPatches,
         DynTable, TableInSegments, ImageTable, HasDynamic, LastDynamic, Phdrs, Headers, SampleHeaderPatches;
    SampleLaidOut(c, img);
    SampleSegments(c, img);
    SampleTableOf(c, img);
    SampleCopied(c, img, window);
    var m := Copied(Headers(c), img, 0, window);
    SampleCompatible(c, img, m);
    SampleRelocation(c, img, m);
    SampleHeaderWords(c, img, m);
    SampleInSegments(c, img, m);
  }

  lemma SampleTableOf(c: Class, img: seq<byte>)
    requires IsSample(c, img)
    ensures HasPhdrs(c, img, ReadEhdr(c, img)) && HasDynamic(c, img) && ImageTable(c, img) == Some(SampleTable(c))
  {
    hide Field, Extent, IsSample, ReadEhdr, ReadPhdr, DynTable, LastDynamic, Phdrs, DynamicMapped;
    SampleSegments(c, img);
    TableFound(c, img);
  }

  lemma SampleLaidOut(c: Class, img: seq<byte>)
    requires IsSample(c, img)
    ensures WellLaidOut(c, img, 0) && ReadEhdr(c, img) == Header(c)
  {
    hide Field, Extent, ReadEhdr, ReadPhdr, RelaReads, HeaderIsValid, HasTag, LastDynamic, Phdrs;
    SamplePhdrs(c);
    SampleSegments(c, img);
    SampleLayout(c);
  }

  lemma SampleLayout(c: Class)
    ensures OffsetsInWidth(Headers(c)) && SegmentsDisjoint(Headers(c)) && CarriesHeaders(Headers(c), 0, DynamicAt(c))
    ensures forall i :: 0 <= i < 2 && Headers(c)[i].ptype == PT_DYNAMIC ==> Headers(c)[i].offset + Headers(c)[i].filesz % TWO_32 < TWO_32
  {
    assert Headers(c)[0] == Load(c);
  }

  /** It is recognised and sized by the exported functions, which report 200 bytes for the
      32-bit file and 316 for the 64-bit one; with `SampleLoads` it is loaded by them. */
  lemma SampleIsSized(c: Class, img: seq<byte>)
    requires IsSample(c, img)
    ensures ImageClass(img) == Some(c) && ImageTrusted(img) && ImageSizable(img)
    ensures ImageLow(img) == 0 && ImageSize(img) == MemorySize(c) == if c.Elf32? then 200 else 316
    ensures Sized(c, img, false, false).entry == 16
  {
    hide Field, Extent, ReadEhdr, ReadPhdr, ReadEntry, HasTag, Low, High;
    SamplePhdrs(c);
    SampleSegments(c, img);
    SampleBounds(c);
    assert ImageClass(img) == Some(c);
  }

  lemma SampleBounds(c: Class)
    ensures Low(c, Headers(c)) == 0 && High(c, Headers(c)) == MemorySize(c)
  {
    var ps := Headers(c);
    assert ps[..1] == [Load(c)] && [Load(c)][..0] == [];
    assert Low(c, ps[..1]) == 0 && High(c, ps[..1]) == MemorySize(c);
  }
}
