/** The parts of the ELF file format the loader reads, for both classes at once.
    Offsets and sizes are those of the System V gABI, chapters 4 and 5. */
module ElfFormat {
  import opened Words
  import opened Bytes

  const ET_EXEC := 2
  const ET_DYN := 3
  const PT_LOAD := 1
  const PT_DYNAMIC := 2

  datatype Class = Elf32 | Elf64 {
    /** Bytes in an address. */
    function Word(): nat { if Elf32? then 4 else 8 }
    function Modulus(): nat { if Elf32? then TWO_32 else TWO_64 }
    function EhdrSize(): nat { if Elf32? then 52 else 64 }
    function PhdrSize(): nat { if Elf32? then 32 else 56 }
    function ShdrSize(): nat { if Elf32? then 40 else 64 }
    function DynSize(): nat { if Elf32? then 8 else 16 }
    function RelaSize(): nat { if Elf32? then 12 else 24 }
    function RelSize(): nat { if Elf32? then 8 else 16 }
    function SymSize(): nat { if Elf32? then 16 else 24 }
    /** Offsets of the two fields the loader changes in a program header. */
    function VaddrAt(): nat { if Elf32? then 8 else 16 }
    function PaddrAt(): nat { if Elf32? then 12 else 24 }
    function SymValueAt(): nat { if Elf32? then 4 else 8 }
    function ShoffAt(): nat { if Elf32? then 32 else 40 }
    function ShAddrAt(): nat { if Elf32? then 12 else 16 }
  }

  lemma WordModulus(c: Class)
    ensures Pow256(c.Word()) == c.Modulus()
  {
    Pow256Values();
  }

  datatype Ehdr = Ehdr(etype: nat, entry: nat, phoff: nat, shoff: nat,
                       phentsize: nat, phnum: nat, shentsize: nat, shnum: nat)

  function ReadEhdr(c: Class, m: seq<byte>): Ehdr
    requires c.EhdrSize() <= |m|
  {
    var w := c.Word();
    var counts := if c.Elf32? then 42 else 54;
    Ehdr(Field(m, 16, 2), Field(m, 24, w), Field(m, 24 + w, w), Field(m, c.ShoffAt(), w),
         Field(m, counts, 2), Field(m, counts + 2, 2), Field(m, counts + 4, 2), Field(m, counts + 6, 2))
  }

  datatype Phdr = Phdr(ptype: nat, offset: nat, vaddr: nat, paddr: nat, filesz: nat, memsz: nat)

  function ReadPhdr(c: Class, m: seq<byte>, a: nat): Phdr
    requires a + c.PhdrSize() <= |m|
  {
    var w := c.Word();
    var filesz := if c.Elf32? then 16 else 32;
    Phdr(Field(m, a, 4), Field(m, a + w, w), Field(m, a + c.VaddrAt(), w), Field(m, a + c.PaddrAt(), w),
         Field(m, a + filesz, w), Field(m, a + filesz + w, w))
  }

  datatype Shdr = Shdr(addr: nat, offset: nat, size: nat, addralign: nat)

  function ReadShdr(c: Class, m: seq<byte>, a: nat): Shdr
    requires a + c.ShdrSize() <= |m|
  {
    var w := c.Word();
    var addr := c.ShAddrAt();
    Shdr(Field(m, a + addr, w), Field(m, a + addr + w, w), Field(m, a + addr + 2 * w, w),
         Field(m, a + (if c.Elf32? then 32 else 48), w))
  }

  /** elf32_header_is_valid and elf64_header_is_valid; only the former looks at EI_VERSION. */
  predicate HeaderIsValid(c: Class, m: seq<byte>)
    requires c.EhdrSize() <= |m|
  {
    && m[0] == 0x7f && m[1] == 0x45 && m[2] == 0x4c && m[3] == 0x46
    && m[4] == (if c.Elf32? then 1 else 2)
    && m[5] == 1
    && (c.Elf32? ==> m[6] == 1)
    && Field(m, 20, 4) == 1
    && Field(m, 18, 2) == (if c.Elf32? then 3 else 62)
  }

  // ----- bounded views of the file

  /** Does mem_image_map_to_mem return the full count?  size_t is 32 bits wide. */
  predicate Maps(size: nat, offset: nat, count: nat) {
    (offset % TWO_32 + count) % TWO_32 <= size
  }

  /** A full count means that the view lies in the file, exactly when its end does not wrap. */
  lemma MapsExactlyWhenInside(size: nat, offset: nat, count: nat)
    requires size < TWO_32 && offset < TWO_32 && count < TWO_32 && Maps(size, offset, count)
    ensures offset + count <= size <==> offset + count < TWO_32
  {
  }

  /** A wrapped view that mem_image_map_to_mem accepts though it starts past the file. */
  lemma WrappedViewIsAccepted()
    ensures Maps(0x1000, 0xFFFF_FFF0, 0x20)
  {
  }

  /** What mem_image_read copies and mem_image_map_to_mem returns: 32-bit arithmetic. */
  function ReadCount(size: nat, offset: nat, count: nat): (r: nat) {
    if (offset + count) % TWO_32 > size then (size - offset) % TWO_32 else count
  }

  lemma MapsIsFullCount(size: nat, offset: nat, count: nat)
    requires size < TWO_32 && offset < TWO_32 && count < TWO_32
    ensures Maps(size, offset, count) <==> ReadCount(size, offset, count) == count
  {
  }

  /** A read stays in the file exactly when it begins in it and its end does not wrap. */
  lemma ReadInsideExactlyWhen(size: nat, offset: nat, count: nat)
    requires size < TWO_32 && offset < TWO_32 && count < TWO_32
    ensures offset + ReadCount(size, offset, count) <= size <==> offset <= size && offset + count < TWO_32
  {
  }

  /** A read copies more than was asked for exactly when it begins past the file and its end
      does not wrap. */
  lemma ReadOvershootsExactlyWhen(size: nat, offset: nat, count: nat)
    requires size < TWO_32 && offset < TWO_32 && count < TWO_32
    ensures ReadCount(size, offset, count) > count <==> size < offset && offset + count < TWO_32
  {
  }

  /** One byte asked for one byte past the end of the file: 4 GB less one are copied. */
  lemma ReadPastEnd()
    ensures ReadCount(0x1000, 0x1001, 1) == 0xFFFF_FFFF
  {
  }

  lemma AddModIs(c: Class, v: nat, d: int)
    ensures AddMod(c, v, d) == (v + d) % c.Modulus()
  {
  }

  /** How often `for (int16_t i = 0; i < (int16_t)n; ++i)` iterates. */
  function Iterations(n: nat): nat { if n < 0x8000 then n else 0 }

  /** The size of `n` table entries of `size` bytes each. */
  function Extent(n: nat, size: nat): nat {
    if n == 0 then 0 else Extent(n - 1, size) + size
  }

  lemma {:induction false} ExtentIsProduct(n: nat, size: nat)
    ensures Extent(n, size) == n * size
  {
    if n > 0 {
      ExtentIsProduct(n - 1, size);
    }
  }

  lemma {:induction false} ExtentGrows(i: nat, n: nat, size: nat)
    requires i < n
    ensures Extent(i, size) + size <= Extent(n, size)
  {
    if i < n - 1 {
      ExtentGrows(i, n - 1, size);
    }
  }

  /** Address of entry `i` of the program header table. */
  function PhdrAt(eh: Ehdr, i: nat): nat { eh.phoff + Extent(i, eh.phentsize) }

  function PhdrEnd(eh: Ehdr): nat { eh.phoff + Extent(eh.phnum, eh.phentsize) }

  /** The program header table lies in `m`, with entries of at least the standard size. */
  ghost predicate HasPhdrs(c: Class, m: seq<byte>, eh: Ehdr) {
    && PhdrEnd(eh) <= |m|
    && (eh.phnum > 0 ==> c.PhdrSize() <= eh.phentsize)
  }

  lemma PhdrInside(c: Class, m: seq<byte>, eh: Ehdr, i: nat)
    requires HasPhdrs(c, m, eh) && i < eh.phnum
    ensures PhdrAt(eh, i) + c.PhdrSize() <= PhdrEnd(eh)
  {
    ExtentGrows(i, eh.phnum, eh.phentsize);
  }

  /** The program headers the loader's loops visit. */
  ghost function Phdrs(c: Class, m: seq<byte>, eh: Ehdr): (r: seq<Phdr>)
    requires HasPhdrs(c, m, eh)
    ensures |r| == Iterations(eh.phnum)
  {
    seq(Iterations(eh.phnum), i requires 0 <= i < eh.phnum =>
      PhdrInside(c, m, eh, i); ReadPhdr(c, m, PhdrAt(eh, i)))
  }

  lemma PhdrsIndex(c: Class, m: seq<byte>, eh: Ehdr, i: nat)
    requires HasPhdrs(c, m, eh) && i < Iterations(eh.phnum)
    ensures PhdrAt(eh, i) + c.PhdrSize() <= |m| && Phdrs(c, m, eh)[i] == ReadPhdr(c, m, PhdrAt(eh, i))
  {
    hide ReadPhdr, Extent;
    PhdrInside(c, m, eh, i);
  }

  predicate Loadable(p: Phdr) { p.ptype == PT_LOAD && p.memsz != 0 }

  function Min(a: nat, b: nat): nat { if a < b then a else b }

  /** Bytes of the segment that come from the file. */
  function FileBytes(p: Phdr): nat { Min(p.filesz, p.memsz) }

  /** Addition in the class's address width. */
  function AddMod(c: Class, v: nat, d: int): (r: nat)
    ensures r < c.Modulus()
    ensures 0 <= v + d < c.Modulus() ==> r == v + d
  {
    if c.Elf32? then (v + d) % TWO_32 else (v + d) % TWO_64
  }
}
