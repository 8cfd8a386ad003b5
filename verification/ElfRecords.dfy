/** The structures of the gABI written out field by field, and read back as the loader
    reads them. */
module ElfRecords {
  import opened Bytes
  import opened ElfFormat
  import opened ElfRelocation

  // ----- byte strings one after another

  /** Where part `n` begins. */
  function Start(parts: seq<seq<byte>>, n: nat): nat
    requires n <= |parts|
  {
    if n == 0 then 0 else Start(parts, n - 1) + |parts[n - 1]|
  }

  /** The first `n` parts one after another. */
  function Join(parts: seq<seq<byte>>, n: nat): (r: seq<byte>)
    requires n <= |parts|
    ensures |r| == Start(parts, n)
  {
    if n == 0 then [] else Join(parts, n - 1) + parts[n - 1]
  }

  lemma {:induction false} StartGrows(parts: seq<seq<byte>>, i: nat, n: nat)
    requires i < n <= |parts|
    ensures Start(parts, i) + |parts[i]| <= Start(parts, n)
  {
    if i < n - 1 {
      StartGrows(parts, i, n - 1);
    }
  }

  lemma JoinNext(parts: seq<seq<byte>>, n: nat)
    requires 0 < n <= |parts|
    ensures var b, a := Join(parts, n - 1), Start(parts, n - 1);
            && |b| == a && Join(parts, n)[..a] == b[..a] && |Join(parts, n)| == a + |parts[n - 1]|
            && Join(parts, n)[a..a + |parts[n - 1]|] == parts[n - 1]
  {
  }

  /** Every part is where it begins. */
  lemma {:induction false} JoinAt(parts: seq<seq<byte>>, n: nat, i: nat)
    requires i < n <= |parts|
    ensures var a := Start(parts, i);
            a + |parts[i]| <= |Join(parts, n)| && Join(parts, n)[a..a + |parts[i]|] == parts[i]
  {
    StartGrows(parts, i, n);
    JoinNext(parts, n);
    hide Join, Start;
    if i < n - 1 {
      JoinAt(parts, n - 1, i);
      PrefixStretch(Join(parts, n), Join(parts, n - 1), |Join(parts, n - 1)|, Start(parts, i), |parts[i]|);
    }
  }

  /** A number among the parts is read back. */
  lemma JoinField(parts: seq<seq<byte>>, i: nat, v: nat, w: nat)
    requires i < |parts| && parts[i] == LeBytes(v, w) && v < Pow256(w)
    ensures Start(parts, i) + w <= |Join(parts, |parts|)|
    ensures Field(Join(parts, |parts|), Start(parts, i), w) == v
  {
    hide LeBytes, LeValue, Pow256, Join, Start;
    JoinAt(parts, |parts|, i);
    LeRoundTrip(v, w);
  }

  // ----- the program header

  ghost predicate PhdrInWidth(c: Class, p: Phdr) {
    && p.ptype < Pow256(4) && p.offset < Pow256(c.Word()) && p.vaddr < Pow256(c.Word())
    && p.paddr < Pow256(c.Word()) && p.filesz < Pow256(c.Word()) && p.memsz < Pow256(c.Word())
  }

  /** Elf32_Phdr and Elf64_Phdr; the flags are in different places. */
  function PhdrParts(c: Class, p: Phdr, flags: nat, align: nat): (r: seq<seq<byte>>) {
    match c
    case Elf32 =>
      [LeBytes(p.ptype, 4), LeBytes(p.offset, 4), LeBytes(p.vaddr, 4), LeBytes(p.paddr, 4),
       LeBytes(p.filesz, 4), LeBytes(p.memsz, 4), LeBytes(flags, 4), LeBytes(align, 4)]
    case Elf64 =>
      [LeBytes(p.ptype, 4), LeBytes(flags, 4), LeBytes(p.offset, 8), LeBytes(p.vaddr, 8),
       LeBytes(p.paddr, 8), LeBytes(p.filesz, 8), LeBytes(p.memsz, 8), LeBytes(align, 8)]
  }

  function PhdrBytes(c: Class, p: Phdr, flags: nat, align: nat): (r: seq<byte>) {
    var parts := PhdrParts(c, p, flags, align);
    Join(parts, |parts|)
  }

  lemma EightStarts(parts: seq<seq<byte>>)
    requires |parts| >= 8
    ensures Start(parts, 1) == |parts[0]|
    ensures Start(parts, 2) == |parts[0]| + |parts[1]|
    ensures Start(parts, 3) == |parts[0]| + |parts[1]| + |parts[2]|
    ensures Start(parts, 4) == |parts[0]| + |parts[1]| + |parts[2]| + |parts[3]|
    ensures Start(parts, 5) == |parts[0]| + |parts[1]| + |parts[2]| + |parts[3]| + |parts[4]|
    ensures Start(parts, 6) == |parts[0]| + |parts[1]| + |parts[2]| + |parts[3]| + |parts[4]| + |parts[5]|
    ensures Start(parts, 7) == |parts[0]| + |parts[1]| + |parts[2]| + |parts[3]| + |parts[4]| + |parts[5]| + |parts[6]|
    ensures Start(parts, 8)
            == |parts[0]| + |parts[1]| + |parts[2]| + |parts[3]| + |parts[4]| + |parts[5]| + |parts[6]| + |parts[7]|
  {
    assert Start(parts, 0) == 0;
    assert Start(parts, 1) == Start(parts, 0) + |parts[0]|;
    assert Start(parts, 2) == Start(parts, 1) + |parts[1]|;
    assert Start(parts, 3) == Start(parts, 2) + |parts[2]|;
    assert Start(parts, 4) == Start(parts, 3) + |parts[3]|;
    assert Start(parts, 5) == Start(parts, 4) + |parts[4]|;
    assert Start(parts, 6) == Start(parts, 5) + |parts[5]|;
    assert Start(parts, 7) == Start(parts, 6) + |parts[6]|;
    assert Start(parts, 8) == Start(parts, 7) + |parts[7]|;
  }

  lemma PhdrReadBack(c: Class, p: Phdr, flags: nat, align: nat)
    requires PhdrInWidth(c, p)
    ensures |PhdrBytes(c, p, flags, align)| == c.PhdrSize()
    ensures ReadPhdr(c, PhdrBytes(c, p, flags, align), 0) == p
  {
    hide LeBytes, Field, Pow256, Join, Start;
    var parts, w := PhdrParts(c, p, flags, align), c.Word();
    var k := if c.Elf32? then 1 else 2;
    EightStarts(parts);
    StartZero(parts);
    JoinField(parts, 0, p.ptype, 4);
    JoinField(parts, k, p.offset, w);
    JoinField(parts, k + 1, p.vaddr, w);
    JoinField(parts, k + 2, p.paddr, w);
    JoinField(parts, k + 3, p.filesz, w);
    JoinField(parts, k + 4, p.memsz, w);
  }

  lemma StartZero(parts: seq<seq<byte>>)
    ensures Start(parts, 0) == 0
  {
  }

  /** A program header can be read where its bytes are. */
  lemma PhdrOfStretch(c: Class, m: seq<byte>, a: nat)
    requires a + c.PhdrSize() <= |m|
    ensures ReadPhdr(c, m, a) == ReadPhdr(c, m[a..a + c.PhdrSize()], 0)
  {
    hide Field;
    var n, w := c.PhdrSize(), c.Word();
    var filesz := if c.Elf32? then 16 else 32;
    SubField(m, a, n, 0, 4);
    SubField(m, a, n, w, w);
    SubField(m, a, n, c.VaddrAt(), w);
    SubField(m, a, n, c.PaddrAt(), w);
    SubField(m, a, n, filesz, w);
    SubField(m, a, n, filesz + w, w);
  }

  // ----- the section header

  ghost predicate ShdrInWidth(c: Class, s: Shdr) {
    && s.addr < Pow256(c.Word()) && s.offset < Pow256(c.Word())
    && s.size < Pow256(c.Word()) && s.addralign < Pow256(c.Word())
  }

  /** Elf32_Shdr and Elf64_Shdr: sh_name, sh_type, sh_flags, sh_addr, sh_offset, sh_size,
      sh_link, sh_info, sh_addralign, sh_entsize. */
  function ShdrParts(c: Class, s: Shdr, name: nat, typ: nat, flags: nat, link: nat, info: nat, entsize: nat): (r: seq<seq<byte>>) {
    var w := c.Word();
    [LeBytes(name, 4), LeBytes(typ, 4), LeBytes(flags, w), LeBytes(s.addr, w), LeBytes(s.offset, w),
     LeBytes(s.size, w), LeBytes(link, 4), LeBytes(info, 4), LeBytes(s.addralign, w), LeBytes(entsize, w)]
  }

  lemma ShdrReadBack(c: Class, s: Shdr, name: nat, typ: nat, flags: nat, link: nat, info: nat, entsize: nat)
    requires ShdrInWidth(c, s)
    ensures var b := Join(ShdrParts(c, s, name, typ, flags, link, info, entsize), 10);
            |b| == c.ShdrSize() && ReadShdr(c, b, 0) == s
  {
    hide LeBytes, Field, Pow256, Join;
    var parts, w := ShdrParts(c, s, name, typ, flags, link, info, entsize), c.Word();
    EightStarts(parts);
    assert Start(parts, 9) == Start(parts, 8) + |parts[8]|;
    assert Start(parts, 10) == Start(parts, 9) + |parts[9]|;
    hide Start;
    JoinField(parts, 3, s.addr, w);
    JoinField(parts, 4, s.offset, w);
    JoinField(parts, 5, s.size, w);
    JoinField(parts, 8, s.addralign, w);
  }

  // ----- the ELF header

  ghost predicate EhdrInWidth(c: Class, eh: Ehdr) {
    && eh.etype < Pow256(2) && eh.entry < Pow256(c.Word()) && eh.phoff < Pow256(c.Word()) && eh.shoff < Pow256(c.Word())
    && eh.phentsize < Pow256(2) && eh.phnum < Pow256(2) && eh.shentsize < Pow256(2) && eh.shnum < Pow256(2)
  }

  /** e_ident: the magic number, the class, little-endian, current version, padding. */
  function Ident(c: Class): (r: seq<byte>)
    ensures |r| == 16
  {
    [0x7F, 0x45, 0x4C, 0x46, if c.Elf32? then 1 else 2, 1, 1] + Zeros(9)
  }

  /** e_ident, e_type, e_machine, e_version, e_entry, e_phoff, e_shoff, e_flags, e_ehsize,
      e_phentsize, e_phnum, e_shentsize, e_shnum, e_shstrndx. */
  function EhdrParts(c: Class, eh: Ehdr, flags: nat, strndx: nat): (r: seq<seq<byte>>) {
    var w := c.Word();
    [Ident(c), LeBytes(eh.etype, 2), LeBytes(if c.Elf32? then 3 else 62, 2), LeBytes(1, 4),
     LeBytes(eh.entry, w), LeBytes(eh.phoff, w), LeBytes(eh.shoff, w), LeBytes(flags, 4),
     LeBytes(c.EhdrSize(), 2), LeBytes(eh.phentsize, 2), LeBytes(eh.phnum, 2), LeBytes(eh.shentsize, 2),
     LeBytes(eh.shnum, 2), LeBytes(strndx, 2)]
  }

  function EhdrBytes(c: Class, eh: Ehdr, flags: nat, strndx: nat): (r: seq<byte>) {
    Join(EhdrParts(c, eh, flags, strndx), 14)
  }

  lemma EhdrStarts(c: Class, eh: Ehdr, flags: nat, strndx: nat)
    ensures var parts, w := EhdrParts(c, eh, flags, strndx), c.Word();
            && Start(parts, 0) == 0 && Start(parts, 1) == 16 && Start(parts, 2) == 18 && Start(parts, 3) == 20
            && Start(parts, 4) == 24 && Start(parts, 5) == 24 + w && Start(parts, 6) == 24 + 2 * w
            && Start(parts, 9) == 30 + 3 * w && Start(parts, 10) == 32 + 3 * w
            && Start(parts, 11) == 34 + 3 * w && Start(parts, 12) == 36 + 3 * w && Start(parts, 14) == 40 + 3 * w
  {
    hide LeBytes;
    var parts := EhdrParts(c, eh, flags, strndx);
    EightStarts(parts);
    assert Start(parts, 9) == Start(parts, 8) + |parts[8]|;
    assert Start(parts, 10) == Start(parts, 9) + |parts[9]|;
    assert Start(parts, 11) == Start(parts, 10) + |parts[10]|;
    assert Start(parts, 12) == Start(parts, 11) + |parts[11]|;
    assert Start(parts, 13) == Start(parts, 12) + |parts[12]|;
    assert Start(parts, 14) == Start(parts, 13) + |parts[13]|;
  }

  lemma EhdrReadBack(c: Class, eh: Ehdr, flags: nat, strndx: nat)
    requires EhdrInWidth(c, eh)
    ensures |EhdrBytes(c, eh, flags, strndx)| == c.EhdrSize()
    ensures ReadEhdr(c, EhdrBytes(c, eh, flags, strndx)) == eh
  {
    hide LeBytes, Field, Pow256, Join, Start, Ident;
    var parts, w := EhdrParts(c, eh, flags, strndx), c.Word();
    EhdrStarts(c, eh, flags, strndx);
    JoinField(parts, 1, eh.etype, 2);
    JoinField(parts, 4, eh.entry, w);
    JoinField(parts, 5, eh.phoff, w);
    JoinField(parts, 6, eh.shoff, w);
    JoinField(parts, 9, eh.phentsize, 2);
    JoinField(parts, 10, eh.phnum, 2);
    JoinField(parts, 11, eh.shentsize, 2);
    JoinField(parts, 12, eh.shnum, 2);
  }

  /** A header written for a class is valid for it. */
  lemma WrittenHeaderIsValid(c: Class, eh: Ehdr, flags: nat, strndx: nat)
    ensures c.EhdrSize() <= |EhdrBytes(c, eh, flags, strndx)| && HeaderIsValid(c, EhdrBytes(c, eh, flags, strndx))
  {
    hide LeBytes, Field, Pow256, Join, Start;
    var parts := EhdrParts(c, eh, flags, strndx);
    EhdrStarts(c, eh, flags, strndx);
    Pow256Values();
    JoinField(parts, 2, if c.Elf32? then 3 else 62, 2);
    JoinField(parts, 3, 1, 4);
    JoinAt(parts, 14, 0);
    var b := EhdrBytes(c, eh, flags, strndx);
    assert forall k :: 0 <= k < 16 ==> b[k] == b[0..16][k] == Ident(c)[k];
  }

  // ----- dynamic entries, relocation entries and symbols

  /** Elf32_Dyn and Elf64_Dyn: d_tag, d_un. */
  function DynBytes(c: Class, tag: nat, value: nat): (r: seq<byte>) { LeBytes(tag, c.Word()) + LeBytes(value, c.Word()) }

  lemma DynReadBack(c: Class, tag: nat, value: nat)
    requires tag < Pow256(c.Word()) && value < Pow256(c.Word())
    ensures var b := DynBytes(c, tag, value);
            |b| == c.DynSize() && Field(b, 0, c.Word()) == tag && Field(b, c.Word(), c.Word()) == value
  {
    hide LeBytes, LeValue, Pow256;
    var w := c.Word();
    var b := DynBytes(c, tag, value);
    assert b[0..w] == LeBytes(tag, w) && b[w..w + w] == LeBytes(value, w);
    LeRoundTrip(tag, w);
    LeRoundTrip(value, w);
  }

  /** Elf32_Rela, Elf64_Rela: r_offset, r_info, r_addend; a Rel has no addend. */
  function RelocationBytes(c: Class, kind: Kind, e: Entry): (r: seq<byte>) {
    LeBytes(e.offset, c.Word()) + LeBytes(e.info, c.Word()) + if kind.Rela? then LeBytes(e.addend, c.Word()) else []
  }

  lemma RelocationFields(c: Class, kind: Kind, e: Entry)
    requires e.offset < Pow256(c.Word()) && e.info < Pow256(c.Word()) && e.addend < Pow256(c.Word())
    ensures var b, w := RelocationBytes(c, kind, e), c.Word();
            && |b| == (if kind.Rela? then c.RelaSize() else c.RelSize())
            && Field(b, 0, w) == e.offset && Field(b, w, w) == e.info && (kind.Rela? ==> Field(b, 2 * w, w) == e.addend)
  {
    hide LeBytes, LeValue, Pow256;
    var w := c.Word();
    var b := RelocationBytes(c, kind, e);
    assert b[0..w] == LeBytes(e.offset, w) && b[w..w + w] == LeBytes(e.info, w);
    LeRoundTrip(e.offset, w);
    LeRoundTrip(e.info, w);
    if kind.Rela? {
      assert b[2 * w..2 * w + w] == LeBytes(e.addend, w);
      LeRoundTrip(e.addend, w);
    }
  }

  /** An entry written into a table is read back by its index. */
  lemma RelocationReadBack(c: Class, m: seq<byte>, t: Table, i: nat, e: Entry)
    requires e.offset < Pow256(c.Word()) && e.info < Pow256(c.Word()) && e.addend < Pow256(c.Word())
    requires t.kind.Rel? ==> e.addend == 0
    requires EntryAt(c, t, i) + EntrySize(c, t.kind) <= |m|
    requires m[EntryAt(c, t, i)..EntryAt(c, t, i) + EntrySize(c, t.kind)] == RelocationBytes(c, t.kind, e)
    ensures ReadEntry(c, m, t, i) == e
  {
    hide RelocationBytes, Field, Pow256, EntryAt;
    var a, n, w := EntryAt(c, t, i), EntrySize(c, t.kind), c.Word();
    RelocationFields(c, t.kind, e);
    SubField(m, a, n, 0, w);
    SubField(m, a, n, w, w);
    if t.kind.Rela? {
      SubField(m, a, n, 2 * w, w);
    }
  }

  /** Elf32_Sym and Elf64_Sym; st_value is in different places. */
  function SymParts(c: Class, value: nat, name: nat, size: nat, info: nat, other: nat, shndx: nat): (r: seq<seq<byte>>) {
    match c
    case Elf32 => [LeBytes(name, 4), LeBytes(value, 4), LeBytes(size, 4), LeBytes(info, 1), LeBytes(other, 1), LeBytes(shndx, 2)]
    case Elf64 => [LeBytes(name, 4), LeBytes(info, 1), LeBytes(other, 1), LeBytes(shndx, 2), LeBytes(value, 8), LeBytes(size, 8)]
  }

  lemma SymReadBack(c: Class, value: nat, name: nat, size: nat, info: nat, other: nat, shndx: nat)
    requires value < Pow256(c.Word())
    ensures var b := Join(SymParts(c, value, name, size, info, other, shndx), 6);
            |b| == c.SymSize() && Field(b, c.SymValueAt(), c.Word()) == value
  {
    hide LeBytes, Field, Pow256, Join;
    var parts := SymParts(c, value, name, size, info, other, shndx);
    assert Start(parts, 0) == 0;
    assert Start(parts, 1) == Start(parts, 0) + |parts[0]|;
    assert Start(parts, 2) == Start(parts, 1) + |parts[1]|;
    assert Start(parts, 3) == Start(parts, 2) + |parts[2]|;
    assert Start(parts, 4) == Start(parts, 3) + |parts[3]|;
    assert Start(parts, 5) == Start(parts, 4) + |parts[4]|;
    assert Start(parts, 6) == Start(parts, 5) + |parts[5]|;
    hide Start;
    JoinField(parts, if c.Elf32? then 1 else 4, value, c.Word());
  }
}
