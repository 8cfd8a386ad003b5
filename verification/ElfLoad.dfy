/** Loading and relocating a whole image, and what of it depends on the target address. */
module ElfLoad {
  import opened Words
  import opened Bytes
  import opened ElfFormat
  import opened ElfSegments
  import opened ElfPatches
  import opened ElfHeaders
  import opened ElfRelocation

  // ----- relocation after rebasing

  /** The patches of one table entry, seen through earlier patches that avoid what it reads. */
  lemma PatchOfKept(c: Class, m: seq<byte>, t: Table, low: nat, ps: seq<Patch>, delta: int, i: nat)
    requires PatchesIn(c, ps, |m|) && EntryOk(c, m, t, low, i) && EntryUntouched(c, m, t, low, ps, i)
    requires Active(ReadEntry(c, m, t, i)) ==> Untouched(c, ps, ReadEntry(c, m, t, i).offset - low, c.Word())
    ensures var m' := Patched(c, m, ps, delta);
            && EntryOk(c, m', t, low, i)
            && PatchOf(c, m', t, low, i) == PatchOf(c, m, t, low, i)
            && SupportedAt(c, m', t, low, i) == SupportedAt(c, m, t, low, i)
            && ReadEntry(c, m', t, i) == ReadEntry(c, m, t, i)
  {
    hide Field, Extent, Patched, SymbolAt, ReadEntry;
    EntryReads(c, m, t, low, ps, delta, i);
  }

  /** Header patches and relocation patches of a table, all apart, and apart from the table. */
  ghost predicate Compatible(c: Class, m: seq<byte>, t: Table, low: nat, hs: seq<Patch>) {
    && TableOk(c, m, t, low)
    && PatchesIn(c, hs, |m|)
    && PatchesApart(c, hs + RelocPatches(c, m, t, low, t.count))
    && ReadsUntouched(c, m, t, low, hs)
  }

  lemma TargetApart(c: Class, m: seq<byte>, t: Table, low: nat, hs: seq<Patch>, i: nat)
    requires Compatible(c, m, t, low, hs) && i < t.count
    ensures EntryOk(c, m, t, low, i) && EntryUntouched(c, m, t, low, hs, i)
    ensures Active(ReadEntry(c, m, t, i)) ==> Untouched(c, hs, ReadEntry(c, m, t, i).offset - low, c.Word())
  {
    hide Field, Extent, ReadEntry, SymbolAt, RelocPatches;
    var rs := RelocPatches(c, m, t, low, t.count);
    assert EntryOk(c, m, t, low, i);
    assert EntriesOk(c, m, t, low, i + 1);
    RelocPatchesPrefix(c, m, t, low, i + 1, t.count);
    NextPatches(c, m, t, low, i);
    if Active(ReadEntry(c, m, t, i)) {
      var j := |RelocPatches(c, m, t, low, i)|;
      assert rs[j].at == ReadEntry(c, m, t, i).offset - low;
      forall k | 0 <= k < |hs| ensures Apart(hs[k].at, c.Word(), rs[j].at, c.Word()) {
        assert (hs + rs)[k] == hs[k] && (hs + rs)[|hs| + j] == rs[j];
      }
    }
  }

  /** Rebasing the headers first does not change what relocation will do. */
  lemma {:induction false} RelocPatchesKept(c: Class, m: seq<byte>, t: Table, low: nat, hs: seq<Patch>, delta: int, n: nat)
    requires Compatible(c, m, t, low, hs) && n <= t.count
    ensures EntriesOk(c, Patched(c, m, hs, delta), t, low, n)
    ensures RelocPatches(c, Patched(c, m, hs, delta), t, low, n) == RelocPatches(c, m, t, low, n)
    ensures AllSupported(c, Patched(c, m, hs, delta), t, low, n) <==> AllSupported(c, m, t, low, n)
  {
    hide Field, Extent, ReadEntry, SymbolAt, PatchOf, Patched, EntryOk, SupportedAt, EntryUntouched;
    if n > 0 {
      RelocPatchesKept(c, m, t, low, hs, delta, n - 1);
      TargetApart(c, m, t, low, hs, n - 1);
      PatchOfKept(c, m, t, low, hs, delta, n - 1);
    }
  }

  lemma TableKept(c: Class, m: seq<byte>, t: Table, low: nat, hs: seq<Patch>, delta: int)
    requires Compatible(c, m, t, low, hs)
    ensures TableOk(c, Patched(c, m, hs, delta), t, low)
    ensures RelocPatches(c, Patched(c, m, hs, delta), t, low, t.count) == RelocPatches(c, m, t, low, t.count)
    ensures AllSupported(c, Patched(c, m, hs, delta), t, low, t.count) <==> AllSupported(c, m, t, low, t.count)
  {
    hide Field, Extent, ReadEntry, SymbolAt, PatchOf, Patched, EntryOk, SupportedAt, RelocPatches;
    RelocPatchesKept(c, m, t, low, hs, delta, t.count);
    var rs := RelocPatches(c, m, t, low, t.count);
    forall i | 0 <= i < t.count
      ensures EntryOk(c, Patched(c, m, hs, delta), t, low, i)
      ensures EntryUntouched(c, Patched(c, m, hs, delta), t, low, rs, i)
    {
      TargetApart(c, m, t, low, hs, i);
      PatchOfKept(c, m, t, low, hs, delta, i);
      assert EntryUntouched(c, m, t, low, rs, i);
    }
  }

  // ----- a whole image

  /** What elf_load_executable takes for granted about a file that was sized: the headers
      travel with the lowest of disjoint segments, and no offset wraps round 4 GB. */
  ghost predicate WellLaidOut(c: Class, img: seq<byte>, low: nat) {
    && |img| < TWO_32 && c.EhdrSize() <= |img|
    && var eh := ReadEhdr(c, img);
       && HasPhdrs(c, img, eh) && c.EhdrSize() <= eh.phoff
       && var ps := Phdrs(c, img, eh);
          && OffsetsInWidth(ps)
          && SegmentsDisjoint(ps)
          && CarriesHeaders(ps, low, PhdrEnd(eh))
          && (forall i :: 0 <= i < |ps| && ps[i].ptype == PT_DYNAMIC ==> ps[i].offset + ps[i].filesz % TWO_32 < TWO_32)
  }

  ghost function ImagePhdrs(c: Class, img: seq<byte>): seq<Phdr>
    requires c.EhdrSize() <= |img| && HasPhdrs(c, img, ReadEhdr(c, img))
  {
    Phdrs(c, img, ReadEhdr(c, img))
  }

  /** The window as the segment loop leaves it; it does not depend on the target. */
  ghost function CopiedImage(c: Class, img: seq<byte>, low: nat, window: seq<byte>): (r: seq<byte>)
    requires WellLaidOut(c, img, low) && SegmentsFit(ImagePhdrs(c, img), img, low, |window|)
    ensures |r| == |window|
  {
    Copied(ImagePhdrs(c, img), img, low, window)
  }

  /** The copied window has the file's own headers at its start. */
  lemma CopiedHeaders(c: Class, img: seq<byte>, low: nat, window: seq<byte>)
    requires WellLaidOut(c, img, low) && SegmentsFit(ImagePhdrs(c, img), img, low, |window|)
    ensures var m := CopiedImage(c, img, low, window);
            && c.EhdrSize() <= |m|
            && ReadEhdr(c, m) == ReadEhdr(c, img)
            && HasPhdrs(c, m, ReadEhdr(c, img))
  {
    hide Field, Extent, Copied, ReadEhdr;
    var eh := ReadEhdr(c, img);
    var m := CopiedImage(c, img, low, window);
    HeadersArrive(ImagePhdrs(c, img), img, low, window, PhdrEnd(eh));
    assert m[..c.EhdrSize()] == m[..PhdrEnd(eh)][..c.EhdrSize()] == img[..c.EhdrSize()];
    SameEhdr(c, m, img);
  }

  ghost function HeaderWords(c: Class, img: seq<byte>, m: seq<byte>): seq<Patch>
    requires c.EhdrSize() <= |img| && HasPhdrs(c, m, ReadEhdr(c, img))
  {
    HeaderPatches(c, m, ReadEhdr(c, img), Iterations(ReadEhdr(c, img).phnum))
  }

  /** The relocation table the image's PT_DYNAMIC header leads to, if any. */
  ghost function ImageTable(c: Class, img: seq<byte>): Option<Table>
    requires c.EhdrSize() <= |img| && HasPhdrs(c, img, ReadEhdr(c, img))
  {
    var ps := ImagePhdrs(c, img);
    var d := LastDynamic(ps, |ps|);
    if d >= 0 && DynamicMapped(c, img, ps[d]) then DynTable(c, img, ps[d]) else None
  }

  ghost predicate HasDynamic(c: Class, img: seq<byte>)
    requires c.EhdrSize() <= |img| && HasPhdrs(c, img, ReadEhdr(c, img))
  {
    LastDynamic(ImagePhdrs(c, img), |ImagePhdrs(c, img)|) >= 0
  }

  /** If there is a relocation table, its targets avoid the tables and the program headers. */
  ghost predicate Placeable(c: Class, img: seq<byte>, low: nat, m: seq<byte>)
    requires c.EhdrSize() <= |img| && HasPhdrs(c, img, ReadEhdr(c, img)) && HasPhdrs(c, m, ReadEhdr(c, img))
  {
    ImageTable(c, img).Some? ==> Compatible(c, m, ImageTable(c, img).value, low, HeaderWords(c, img, m))
  }

  /** The preconditions of loading into a window. */
  ghost predicate LoadPre(c: Class, img: seq<byte>, low: nat, window: seq<byte>) {
    && WellLaidOut(c, img, low)
    && (SegmentsFit(ImagePhdrs(c, img), img, low, |window|) ==>
          && HasPhdrs(c, CopiedImage(c, img, low, window), ReadEhdr(c, img))
          && Placeable(c, img, low, CopiedImage(c, img, low, window)))
  }

  /** Loading succeeds: the segments are in the file and the relocations are understood. */
  ghost predicate Loads(c: Class, img: seq<byte>, low: nat, window: seq<byte>)
    requires LoadPre(c, img, low, window)
  {
    && SegmentsFit(ImagePhdrs(c, img), img, low, |window|)
    && (HasDynamic(c, img) ==>
          && ImageTable(c, img).Some?
          && AllSupported(c, CopiedImage(c, img, low, window), ImageTable(c, img).value, low,
                          ImageTable(c, img).value.count))
  }

  /** All the words that depend on the target: address fields of program headers, then
      relocation targets. */
  ghost function TargetWords(c: Class, img: seq<byte>, low: nat, window: seq<byte>): seq<Patch>
    requires LoadPre(c, img, low, window) && Loads(c, img, low, window)
  {
    var m := CopiedImage(c, img, low, window);
    HeaderWords(c, img, m)
    + if HasDynamic(c, img) then RelocPatches(c, m, ImageTable(c, img).value, low, ImageTable(c, img).value.count) else []
  }

  lemma TargetWordsPlaced(c: Class, img: seq<byte>, low: nat, window: seq<byte>)
    requires LoadPre(c, img, low, window) && Loads(c, img, low, window)
    ensures PatchesIn(c, TargetWords(c, img, low, window), |window|)
    ensures PatchesApart(c, TargetWords(c, img, low, window))
  {
    hide Field, Extent, Copied, HeaderPatches, RelocPatches, TableOk, ReadEhdr;
    var m := CopiedImage(c, img, low, window);
    var eh := ReadEhdr(c, img);
    HeaderPatchesPlaced(c, m, eh, Iterations(eh.phnum));
    HeaderPatchesIn(c, m, eh, Iterations(eh.phnum));
    if HasDynamic(c, img) {
      var t := ImageTable(c, img).value;
      assert EntriesOk(c, m, t, low, t.count) by { TableEntries(c, m, t, low); }
      RelocPatchesIn(c, m, t, low, t.count);
    } else {
      assert TargetWords(c, img, low, window) == HeaderWords(c, img, m);
    }
  }

  lemma TableEntries(c: Class, m: seq<byte>, t: Table, low: nat)
    requires TableOk(c, m, t, low)
    ensures EntriesOk(c, m, t, low, t.count)
  {
  }

  /** The loaded image, in closed form. */
  ghost function LoadedImage(c: Class, img: seq<byte>, low: nat, window: seq<byte>, delta: int): (r: seq<byte>)
    requires LoadPre(c, img, low, window) && Loads(c, img, low, window)
    ensures |r| == |window|
  {
    TargetWordsPlaced(c, img, low, window);
    Patched(c, CopiedImage(c, img, low, window), TargetWords(c, img, low, window), delta)
  }

  // ----- the second pass, in place

  /** The window after the headers have been rebased. */
  ghost function RebasedImage(c: Class, img: seq<byte>, low: nat, window: seq<byte>, delta: int): (r: seq<byte>)
    requires LoadPre(c, img, low, window) && SegmentsFit(ImagePhdrs(c, img), img, low, |window|)
    ensures |r| == |window|
  {
    var m := CopiedImage(c, img, low, window);
    HeaderPatchesIn(c, m, ReadEhdr(c, img), Iterations(ReadEhdr(c, img).phnum));
    Patched(c, m, HeaderWords(c, img, m), delta)
  }

  ghost function DynamicPhdr(c: Class, img: seq<byte>): Phdr
    requires c.EhdrSize() <= |img| && HasPhdrs(c, img, ReadEhdr(c, img)) && HasDynamic(c, img)
  {
    ImagePhdrs(c, img)[LastDynamic(ImagePhdrs(c, img), |ImagePhdrs(c, img)|)]
  }

  /** The relocation table can be used on the rebased window ... */
  lemma RelocationReady(c: Class, img: seq<byte>, low: nat, window: seq<byte>, delta: int)
    requires LoadPre(c, img, low, window) && SegmentsFit(ImagePhdrs(c, img), img, low, |window|)
    requires HasDynamic(c, img)
    ensures ImageTable(c, img).Some? ==> TableOk(c, RebasedImage(c, img, low, window, delta), ImageTable(c, img).value, low)
    ensures Relocatable(c, RebasedImage(c, img, low, window, delta), img, DynamicPhdr(c, img), low) <==> Loads(c, img, low, window)
  {
    hide Field, Extent, Copied, Patched, HeaderPatches, RelocPatches, TableOk, ReadEhdr, DynTable, AllSupported;
    if ImageTable(c, img).Some? {
      var m := CopiedImage(c, img, low, window);
      var t := ImageTable(c, img).value;
      TableKept(c, m, t, low, HeaderWords(c, img, m), delta);
      TableEntries(c, m, t, low);
      TableEntries(c, RebasedImage(c, img, low, window, delta), t, low);
    }
  }

  /** ... and then completes the image. */
  lemma RelocationCompletes(c: Class, img: seq<byte>, low: nat, window: seq<byte>, delta: int)
    requires LoadPre(c, img, low, window) && Loads(c, img, low, window) && HasDynamic(c, img)
    requires EntriesOk(c, RebasedImage(c, img, low, window, delta), ImageTable(c, img).value, low, ImageTable(c, img).value.count)
    ensures var m := RebasedImage(c, img, low, window, delta);
            var t := ImageTable(c, img).value;
            var ps := RelocPatches(c, m, t, low, t.count);
            PatchesIn(c, ps, |m|) && Patched(c, m, ps, delta) == LoadedImage(c, img, low, window, delta)
  {
    hide Field, Extent, Copied, Patched, HeaderPatches, RelocPatches, TableOk, ReadEhdr, DynTable, AllSupported;
    var m := CopiedImage(c, img, low, window);
    var t := ImageTable(c, img).value;
    var hs := HeaderWords(c, img, m);
    TableKept(c, m, t, low, hs, delta);
    TableEntries(c, m, t, low);
    RelocPatchesIn(c, m, t, low, t.count);
    PatchedAppend(c, m, hs, RelocPatches(c, m, t, low, t.count), delta);
  }

  /** elf32_load_executable and elf64_load_executable without the optional tables. */
  method LoadExecutable(c: Class, mem: array<byte>, dest: nat, size: nat, img: seq<byte>, low: nat) returns (ok: bool)
    requires dest + size <= mem.Length && LoadPre(c, img, low, mem[..][dest..dest + size])
    requires SegmentsInTarget(ImagePhdrs(c, img), low, size)
    modifies mem
    ensures var window := old(mem[..])[dest..dest + size];
            && (ok <==> Loads(c, img, low, window))
            && (ok ==> mem[..] == Splice(old(mem[..]), dest, LoadedImage(c, img, low, window, dest - low)))
            && (!ok && SegmentsBegin(ImagePhdrs(c, img), img) ==>
                  exists w: seq<byte> :: |w| == size && mem[..] == Splice(old(mem[..]), dest, w))
  {
    hide Field, Extent, Copied, Patched, HeaderPatches, RelocPatches, TableOk, ReadEhdr, ReadPhdr, DynTable,
         AllSupported, Splice, Placeable;
    ghost var outside := mem[..];
    ghost var window := outside[dest..dest + size];
    var eh := ReadEhdr(c, img);
    var dynamic;
    ok, dynamic := CopySegments(c, mem, dest, size, img, eh, low);
    if !ok {
      return;
    }
    ghost var m := CopiedImage(c, img, low, window);
    CopiedHeaders(c, img, low, window);
    WindowOf(outside, dest, m);
    RebaseHeaders(c, mem, dest, size, dest - low);
    ghost var rebased := RebasedImage(c, img, low, window, dest - low);
    SpliceAgain(outside, dest, m, rebased);
    if dynamic >= 0 {
      PhdrInside(c, img, eh, dynamic);
      var p := ReadPhdr(c, img, PhdrAt(eh, dynamic));
      assert p == DynamicPhdr(c, img);
      WindowOf(outside, dest, rebased);
      RelocationReady(c, img, low, window, dest - low);
      ok := DoRelocation(c, mem, dest, size, img, p, low, dest - low);
      if ok {
        RelocationCompletes(c, img, low, window, dest - low);
        SpliceAgain(outside, dest, rebased, LoadedImage(c, img, low, window, dest - low));
      } else {
        ghost var w: seq<byte> :| |w| == size && mem[..] == Splice(Splice(outside, dest, rebased), dest, w);
        SpliceAgain(outside, dest, rebased, w);
      }
    } else {
      assert TargetWords(c, img, low, window) == HeaderWords(c, img, m);
    }
  }
}
