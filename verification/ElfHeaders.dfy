/** Rebasing the program headers that were loaded with the image. */
module ElfHeaders {
  import opened Bytes
  import opened ElfFormat
  import opened ElfPatches

  lemma SamePhdr(c: Class, m: seq<byte>, m': seq<byte>, a: nat)
    requires a + c.PhdrSize() <= |m| && a + c.PhdrSize() <= |m'|
    requires m[a..a + c.PhdrSize()] == m'[a..a + c.PhdrSize()]
    ensures ReadPhdr(c, m, a) == ReadPhdr(c, m', a)
  {
    hide Field;
    var n, w := c.PhdrSize(), c.Word();
    var filesz := if c.Elf32? then 16 else 32;
    FieldInStretch(m, m', a, n, a, 4);
    FieldInStretch(m, m', a, n, a + w, w);
    FieldInStretch(m, m', a, n, a + c.VaddrAt(), w);
    FieldInStretch(m, m', a, n, a + c.PaddrAt(), w);
    FieldInStretch(m, m', a, n, a + filesz, w);
    FieldInStretch(m, m', a, n, a + filesz + w, w);
  }

  lemma SameEhdr(c: Class, m: seq<byte>, m': seq<byte>)
    requires c.EhdrSize() <= |m| && c.EhdrSize() <= |m'|
    requires m[..c.EhdrSize()] == m'[..c.EhdrSize()]
    ensures ReadEhdr(c, m) == ReadEhdr(c, m')
  {
    hide Field;
    var n, w := c.EhdrSize(), c.Word();
    var counts := if c.Elf32? then 42 else 54;
    assert m[0..n] == m'[0..n];
    FieldInStretch(m, m', 0, n, 16, 2);
    FieldInStretch(m, m', 0, n, 24, w);
    FieldInStretch(m, m', 0, n, 24 + w, w);
    FieldInStretch(m, m', 0, n, c.ShoffAt(), w);
    FieldInStretch(m, m', 0, n, counts, 2);
    FieldInStretch(m, m', 0, n, counts + 2, 2);
    FieldInStretch(m, m', 0, n, counts + 4, 2);
    FieldInStretch(m, m', 0, n, counts + 6, 2);
  }

  /** The address fields of the first `n` program headers that describe memory. */
  function HeaderPatches(c: Class, m: seq<byte>, eh: Ehdr, n: nat): (r: seq<Patch>)
    requires HasPhdrs(c, m, eh) && n <= eh.phnum
  {
    if n == 0 then []
    else
      PhdrInside(c, m, eh, n - 1);
      var a := PhdrAt(eh, n - 1);
      var p := ReadPhdr(c, m, a);
      HeaderPatches(c, m, eh, n - 1)
      + if p.memsz != 0 then [Patch(a + c.PaddrAt(), p.paddr), Patch(a + c.VaddrAt(), p.vaddr)] else []
  }

  /** They lie in the header table, apart from each other. */
  lemma {:induction false} HeaderPatchesPlaced(c: Class, m: seq<byte>, eh: Ehdr, n: nat)
    requires HasPhdrs(c, m, eh) && n <= eh.phnum
    ensures var ps := HeaderPatches(c, m, eh, n);
            && (forall i :: 0 <= i < |ps| ==> eh.phoff <= ps[i].at && ps[i].at + c.Word() <= PhdrAt(eh, n))
            && PatchesApart(c, ps)
  {
    hide Field;
    if n > 0 {
      HeaderPatchesPlaced(c, m, eh, n - 1);
      PhdrInside(c, m, eh, n - 1);
      assert PhdrAt(eh, n) == PhdrAt(eh, n - 1) + eh.phentsize;
    }
  }

  lemma HeaderPatchesIn(c: Class, m: seq<byte>, eh: Ehdr, n: nat)
    requires HasPhdrs(c, m, eh) && n <= eh.phnum
    ensures PatchesIn(c, HeaderPatches(c, m, eh, n), |m|)
  {
    hide Field;
    HeaderPatchesPlaced(c, m, eh, n);
    if n < eh.phnum {
      ExtentGrows(n, eh.phnum, eh.phentsize);
    }
  }

  /** Entry `n` still reads as it did after the entries before it were rebased. */
  lemma LaterEntryKept(c: Class, m: seq<byte>, eh: Ehdr, n: nat, delta: int)
    requires HasPhdrs(c, m, eh) && n < eh.phnum
    ensures PatchesIn(c, HeaderPatches(c, m, eh, n), |m|)
    ensures PhdrAt(eh, n) + c.PhdrSize() <= |m|
    ensures ReadPhdr(c, Patched(c, m, HeaderPatches(c, m, eh, n), delta), PhdrAt(eh, n)) == ReadPhdr(c, m, PhdrAt(eh, n))
  {
    hide Field, Extent, Patched, HeaderPatches, ReadPhdr;
    var ps := HeaderPatches(c, m, eh, n);
    HeaderPatchesPlaced(c, m, eh, n);
    HeaderPatchesIn(c, m, eh, n);
    PhdrInside(c, m, eh, n);
    PatchedKeeps(c, m, ps, delta, PhdrAt(eh, n), c.PhdrSize());
    SamePhdr(c, Patched(c, m, ps, delta), m, PhdrAt(eh, n));
  }

  /** Rebasing one header is writing its two patches. */
  lemma RebaseOne(c: Class, m: seq<byte>, eh: Ehdr, n: nat, delta: int)
    requires HasPhdrs(c, m, eh) && n < eh.phnum
    ensures PhdrAt(eh, n) + c.PhdrSize() <= |m|
    ensures PatchesIn(c, HeaderPatches(c, m, eh, n), |m|) && PatchesIn(c, HeaderPatches(c, m, eh, n + 1), |m|)
    ensures var a := PhdrAt(eh, n);
            var p := ReadPhdr(c, m, a);
            var before := Patched(c, m, HeaderPatches(c, m, eh, n), delta);
            Patched(c, m, HeaderPatches(c, m, eh, n + 1), delta)
            == if p.memsz != 0
               then Put(Put(before, a + c.PaddrAt(), c.Word(), AddMod(c, p.paddr, delta)),
                        a + c.VaddrAt(), c.Word(), AddMod(c, p.vaddr, delta))
               else before
  {
    hide Field, Extent, Patched, Put, AddMod, ReadPhdr;
    PhdrInside(c, m, eh, n);
    var a := PhdrAt(eh, n);
    var p := ReadPhdr(c, m, a);
    var ps := HeaderPatches(c, m, eh, n);
    var first, second := Patch(a + c.PaddrAt(), p.paddr), Patch(a + c.VaddrAt(), p.vaddr);
    HeaderPatchesIn(c, m, eh, n);
    HeaderPatchesIn(c, m, eh, n + 1);
    if p.memsz != 0 {
      assert HeaderPatches(c, m, eh, n + 1) == ps + [first] + [second];
      PatchedOne(c, m, ps + [first], second, delta);
      PatchedOne(c, m, ps, first, delta);
    } else {
      assert HeaderPatches(c, m, eh, n + 1) == ps;
    }
  }

  /** Rebasing by 0 is storing what was read: an image loaded at its link address has the
      program headers of its file. */
  lemma {:induction false} RebaseByZero(c: Class, m: seq<byte>, eh: Ehdr, n: nat)
    requires HasPhdrs(c, m, eh) && n <= eh.phnum
    ensures PatchesIn(c, HeaderPatches(c, m, eh, n), |m|) && Patched(c, m, HeaderPatches(c, m, eh, n), 0) == m
  {
    hide Field, Extent, Put, AddMod, Patched;
    HeaderPatchesIn(c, m, eh, n);
    if n == 0 {
      NoPatch(c, m, 0);
    } else {
      RebaseByZero(c, m, eh, n - 1);
      RebaseOne(c, m, eh, n - 1, 0);
      PutBack(c, m, PhdrAt(eh, n - 1) + c.PaddrAt());
      PutBack(c, m, PhdrAt(eh, n - 1) + c.VaddrAt());
    }
  }

  lemma NoPatch(c: Class, m: seq<byte>, delta: int)
    ensures Patched(c, m, [], delta) == m
  {
  }

  lemma PutBack(c: Class, m: seq<byte>, a: nat)
    requires a + c.Word() <= |m|
    ensures Put(m, a, c.Word(), AddMod(c, Field(m, a, c.Word()), 0)) == m
  {
    hide LeValue, LeBytes;
    var s := m[a..a + c.Word()];
    LeInverse(s);
    LeBound(s);
    WordModulus(c);
  }

  /** The ELF header in front of the table is not affected. */
  lemma EhdrKept(c: Class, m: seq<byte>, eh: Ehdr, n: nat, delta: int)
    requires HasPhdrs(c, m, eh) && n <= eh.phnum && c.EhdrSize() <= eh.phoff
    ensures PatchesIn(c, HeaderPatches(c, m, eh, n), |m|) && c.EhdrSize() <= |m|
    ensures ReadEhdr(c, Patched(c, m, HeaderPatches(c, m, eh, n), delta)) == ReadEhdr(c, m)
    ensures n == 0 ==> Patched(c, m, HeaderPatches(c, m, eh, n), delta) == m
  {
    hide Field, Extent, ReadEhdr;
    var ps := HeaderPatches(c, m, eh, n);
    HeaderPatchesPlaced(c, m, eh, n);
    HeaderPatchesIn(c, m, eh, n);
    PatchedKeeps(c, m, ps, delta, 0, c.EhdrSize());
    SameEhdr(c, Patched(c, m, ps, delta), m);
  }

  /** A store through a window of memory is a store in the window's contents. */
  method StoreInWindow(mem: array<byte>, dest: nat, ghost outside: seq<byte>, ghost window: seq<byte>, a: nat, w: nat, v: nat)
    requires a + w <= |window| && dest + |window| <= mem.Length == |outside|
    requires mem[..] == Splice(outside, dest, window)
    modifies mem
    ensures mem[..] == Splice(outside, dest, Put(window, a, w, v))
    ensures mem[dest..dest + |window|] == Put(window, a, w, v)
  {
    hide Put;
    Store(mem, dest + a, w, v);
    PutNested(outside, dest, window, a, w, v);
    assert mem[dest..dest + |window|] == mem[..][dest..dest + |window|];
  }

  /** One turn of the rebasing loop, for the program header at `a`. */
  method RebaseHeader(c: Class, mem: array<byte>, dest: nat, ghost outside: seq<byte>, ghost window: seq<byte>, a: nat, p: Phdr, delta: int)
    requires a + c.PhdrSize() <= |window| && dest + |window| <= mem.Length == |outside|
    requires mem[..] == Splice(outside, dest, window)
    modifies mem
    ensures var after := if p.memsz != 0
                         then Put(Put(window, a + c.PaddrAt(), c.Word(), AddMod(c, p.paddr, delta)),
                                  a + c.VaddrAt(), c.Word(), AddMod(c, p.vaddr, delta))
                         else window;
            mem[..] == Splice(outside, dest, after)
  {
    hide Splice, Put, AddMod;
    if p.memsz != 0 {
      StoreInWindow(mem, dest, outside, window, a + c.PaddrAt(), c.Word(), AddMod(c, p.paddr, delta));
      StoreInWindow(mem, dest, outside, Put(window, a + c.PaddrAt(), c.Word(), AddMod(c, p.paddr, delta)),
                    a + c.VaddrAt(), c.Word(), AddMod(c, p.vaddr, delta));
    }
  }

  /** The loop that rebases p_paddr and p_vaddr in the copied program headers.  It reads the
      copied ELF header again on every iteration. */
  method RebaseHeaders(c: Class, mem: array<byte>, dest: nat, size: nat, delta: int)
    requires dest + size <= mem.Length && c.EhdrSize() <= size
    requires var window := mem[..][dest..dest + size];
             HasPhdrs(c, window, ReadEhdr(c, window)) && c.EhdrSize() <= ReadEhdr(c, window).phoff
    modifies mem
    ensures var window := old(mem[..])[dest..dest + size];
            var eh := ReadEhdr(c, window);
            var ps := HeaderPatches(c, window, eh, Iterations(eh.phnum));
            PatchesIn(c, ps, size) && mem[..] == Splice(old(mem[..]), dest, Patched(c, window, ps, delta))
  {
    hide Field, Extent, Splice, Put, AddMod, ReadPhdr, ReadEhdr, Patched, HeaderPatches;
    ghost var outside := mem[..];
    ghost var window := outside[dest..dest + size];
    assert outside == Splice(outside, dest, window);
    ghost var eh := ReadEhdr(c, window);
    EhdrKept(c, window, eh, 0, delta);
    var i := 0;
    ghost var current := window;
    assert mem[dest..dest + size] == current;
    while i < Iterations(ReadEhdr(c, mem[dest..dest + size]).phnum)
      invariant i <= Iterations(eh.phnum)
      invariant PatchesIn(c, HeaderPatches(c, window, eh, i), size)
      invariant current == Patched(c, window, HeaderPatches(c, window, eh, i), delta)
      invariant mem[..] == Splice(outside, dest, current) && mem[dest..dest + size] == current
      invariant ReadEhdr(c, current) == eh
      decreases Iterations(eh.phnum) - i
    {
      PhdrInside(c, window, eh, i);
      LaterEntryKept(c, window, eh, i, delta);
      RebaseOne(c, window, eh, i, delta);
      EhdrKept(c, window, eh, i + 1, delta);
      var a := PhdrAt(ReadEhdr(c, mem[dest..dest + size]), i);
      var p := ReadPhdr(c, mem[dest..dest + size], a);
      RebaseHeader(c, mem, dest, outside, current, a, p, delta);
      current := Patched(c, window, HeaderPatches(c, window, eh, i + 1), delta);
      WindowOf(outside, dest, current);
      assert mem[dest..dest + size] == mem[..][dest..dest + size];
      i := i + 1;
    }
  }
}
