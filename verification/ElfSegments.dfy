/** The second pass: copying loadable segments into a window of memory.  The window starts
    at the target address and stands for the link-time addresses from `low` on. */
module ElfSegments {
  import opened Words
  import opened Bytes
  import opened ElfFormat

  /** The segment's whole file part is in the file, and the segment is in the window. */
  ghost predicate SegmentFits(p: Phdr, img: seq<byte>, low: nat, size: nat) {
    && low <= p.paddr && p.paddr - low + p.memsz <= size
    && p.offset + FileBytes(p) <= |img|
  }

  ghost predicate SegmentsFit(ps: seq<Phdr>, img: seq<byte>, low: nat, size: nat) {
    forall i :: 0 <= i < |ps| && Loadable(ps[i]) ==> SegmentFits(ps[i], img, low, size)
  }

  /** What a segment looks like in memory: its file bytes, then zeros. */
  function SegmentBytes(p: Phdr, img: seq<byte>): (r: seq<byte>)
    requires p.offset + FileBytes(p) <= |img|
    ensures |r| == p.memsz
  {
    img[p.offset..p.offset + FileBytes(p)] + Zeros(p.memsz - FileBytes(p))
  }

  /** The window after the segments of `ps` have been copied in order. */
  function Copied(ps: seq<Phdr>, img: seq<byte>, low: nat, window: seq<byte>): (r: seq<byte>)
    requires SegmentsFit(ps, img, low, |window|)
    ensures |r| == |window|
  {
    if ps == [] then window
    else
      var before := Copied(ps[..|ps| - 1], img, low, window);
      var p := ps[|ps| - 1];
      if Loadable(p) then Splice(before, p.paddr - low, SegmentBytes(p, img)) else before
  }

  ghost predicate SegmentsDisjoint(ps: seq<Phdr>) {
    forall i, j :: 0 <= i < j < |ps| && Loadable(ps[i]) && Loadable(ps[j]) ==>
      Apart(ps[i].paddr, ps[i].memsz, ps[j].paddr, ps[j].memsz)
  }

  predicate InSegment(p: Phdr, low: nat, k: nat) {
    Loadable(p) && p.paddr <= low + k < p.paddr + p.memsz
  }

  /** Meaning of loading, inside: a segment's bytes are its file bytes followed by zeros. */
  lemma {:induction false} SegmentByte(ps: seq<Phdr>, img: seq<byte>, low: nat, window: seq<byte>, i: nat, k: nat)
    requires SegmentsFit(ps, img, low, |window|) && SegmentsDisjoint(ps)
    requires i < |ps| && k < |window| && InSegment(ps[i], low, k)
    ensures var j := low + k - ps[i].paddr;
            && (j < ps[i].filesz ==> ps[i].offset + j < |img|)
            && Copied(ps, img, low, window)[k] == if j < ps[i].filesz then img[ps[i].offset + j] else 0
  {
    var n := |ps| - 1;
    if i < n {
      if Loadable(ps[n]) {
        assert Apart(ps[i].paddr, ps[i].memsz, ps[n].paddr, ps[n].memsz);
      }
      SegmentByte(ps[..n], img, low, window, i, k);
    }
  }

  /** Meaning of loading, outside: a byte in no segment is as it was. */
  lemma {:induction false} GapByte(ps: seq<Phdr>, img: seq<byte>, low: nat, window: seq<byte>, k: nat)
    requires SegmentsFit(ps, img, low, |window|) && k < |window|
    requires forall i :: 0 <= i < |ps| ==> !InSegment(ps[i], low, k)
    ensures Copied(ps, img, low, window)[k] == window[k]
  {
    if ps != [] {
      GapByte(ps[..|ps| - 1], img, low, window, k);
    }
  }

  /** The file's first `count` bytes are in the window's first bytes, when the lowest segment
      carries them. */
  ghost predicate CarriesHeaders(ps: seq<Phdr>, low: nat, count: nat) {
    exists i :: 0 <= i < |ps| && Loadable(ps[i]) && ps[i].paddr == low && ps[i].offset == 0 && count <= FileBytes(ps[i])
  }

  lemma HeadersArrive(ps: seq<Phdr>, img: seq<byte>, low: nat, window: seq<byte>, count: nat)
    requires SegmentsFit(ps, img, low, |window|) && SegmentsDisjoint(ps) && CarriesHeaders(ps, low, count)
    ensures count <= |window| && count <= |img|
    ensures Copied(ps, img, low, window)[..count] == img[..count]
  {
    var i :| 0 <= i < |ps| && Loadable(ps[i]) && ps[i].paddr == low && ps[i].offset == 0 && count <= FileBytes(ps[i]);
    assert SegmentFits(ps[i], img, low, |window|);
    hide Copied, SegmentFits, SegmentsDisjoint;
    forall k | 0 <= k < count ensures Copied(ps, img, low, window)[k] == img[k] {
      SegmentByte(ps, img, low, window, i, k);
    }
  }

  /** mem_image_read.  A read that begins past the end of the file copies `ReadCount` bytes,
      nearly 4 GB; it is reported, and nothing is promised of the memory after it. */
  method ReadImage(mem: array<byte>, dest: nat, img: seq<byte>, offset: nat, count: nat) returns (copied: nat)
    requires |img| < TWO_32 && offset + count < TWO_32 && dest + count <= mem.Length
    modifies mem
    ensures copied == ReadCount(|img|, offset, count)
    ensures copied == count <==> offset + count <= |img|
    ensures offset <= |img| ==>
              && copied == Min(count, |img| - offset)
              && mem[..] == Splice(old(mem[..]), dest, img[offset..offset + copied])
  {
    ReadOvershootsExactlyWhen(|img|, offset, count);
    copied := count;
    if (offset + count) % TWO_32 > |img| {
      copied := (|img| - offset) % TWO_32;
    }
    if offset <= |img| {
      CopyIn(mem, dest, img[offset..offset + copied]);
    }
  }

  /** The loadable segments lie in the window. */
  ghost predicate SegmentsInTarget(ps: seq<Phdr>, low: nat, size: nat) {
    forall i :: 0 <= i < |ps| && Loadable(ps[i]) ==> low <= ps[i].paddr && ps[i].paddr - low + ps[i].memsz <= size
  }

  /** No file part wraps round 4 GB. */
  ghost predicate OffsetsInWidth(ps: seq<Phdr>) {
    forall i :: 0 <= i < |ps| && Loadable(ps[i]) ==> ps[i].offset + FileBytes(ps[i]) < TWO_32
  }

  /** The file parts begin in the file; they may still run past its end. */
  ghost predicate SegmentsBegin(ps: seq<Phdr>, img: seq<byte>) {
    forall i :: 0 <= i < |ps| && Loadable(ps[i]) ==> ps[i].offset <= |img|
  }

  /** The copying of one segment, into a window already holding `window`. */
  method CopySegment(mem: array<byte>, dest: nat, ghost outside: seq<byte>, ghost window: seq<byte>,
                     img: seq<byte>, p: Phdr, low: nat) returns (ok: bool)
    requires |outside| == mem.Length && dest + |window| <= |outside| && mem[..] == Splice(outside, dest, window)
    requires low <= p.paddr && p.paddr - low + p.memsz <= |window|
    requires |img| < TWO_32 && p.offset + FileBytes(p) < TWO_32
    modifies mem
    ensures ok <==> p.offset + FileBytes(p) <= |img|
    ensures ok ==> mem[..] == Splice(outside, dest, Splice(window, p.paddr - low, SegmentBytes(p, img)))
    ensures !ok && p.offset <= |img| ==> exists w: seq<byte> :: |w| == |window| && mem[..] == Splice(outside, dest, w)
  {
    hide Splice, Zeros, SegmentBytes, Min;
    var filesz := p.filesz;
    if filesz > p.memsz {
      filesz := p.memsz;
    }
    assert filesz == FileBytes(p) by { FilePart(p); }
    hide FileBytes;
    var copied := CopyFilePart(mem, dest, outside, window, img, p.offset, p.paddr - low, filesz);
    if copied != filesz {
      ok := false;
      return;
    }
    ok := true;
    SegmentInParts(p, img, low, window);
    if filesz < p.memsz {
      ghost var w := Splice(window, p.paddr - low, img[p.offset..p.offset + filesz]);
      ZeroFill(mem, dest + (p.paddr - low + filesz), p.memsz - filesz);
      SpliceNested(outside, dest, w, p.paddr - low + filesz, Zeros(p.memsz - filesz));
    }
  }

  lemma FilePart(p: Phdr)
    ensures FileBytes(p) == if p.filesz > p.memsz then p.memsz else p.filesz
  {
  }

  /** The reading of a segment's file part to offset `o` of the window. */
  method CopyFilePart(mem: array<byte>, dest: nat, ghost outside: seq<byte>, ghost window: seq<byte>,
                      img: seq<byte>, offset: nat, o: nat, filesz: nat) returns (copied: nat)
    requires |outside| == mem.Length && dest + |window| <= |outside| && mem[..] == Splice(outside, dest, window)
    requires o + filesz <= |window| && |img| < TWO_32 && offset + filesz < TWO_32
    modifies mem
    ensures copied == filesz <==> offset + filesz <= |img|
    ensures offset <= |img| ==>
              && offset + copied <= |img| && o + copied <= |window|
              && mem[..] == Splice(outside, dest, Splice(window, o, img[offset..offset + copied]))
  {
    hide Splice, ReadCount;
    copied := ReadImage(mem, dest + o, img, offset, filesz);
    if offset <= |img| {
      SpliceNested(outside, dest, window, o, img[offset..offset + copied]);
    }
  }

  /** The file part and the zeros behind it make up the segment. */
  lemma SegmentInParts(p: Phdr, img: seq<byte>, low: nat, window: seq<byte>)
    requires SegmentFits(p, img, low, |window|)
    ensures FileBytes(p) <= p.memsz
    ensures var a, n := p.paddr - low, FileBytes(p);
            var w := Splice(window, a, img[p.offset..p.offset + n]);
            && (n < p.memsz ==> Splice(w, a + n, Zeros(p.memsz - n)) == Splice(window, a, SegmentBytes(p, img)))
            && (n == p.memsz ==> w == Splice(window, a, SegmentBytes(p, img)))
  {
    hide Splice;
    var a, n := p.paddr - low, FileBytes(p);
    SpliceParts(window, a, img[p.offset..p.offset + n], Zeros(p.memsz - n));
    assert n == p.memsz ==> SegmentBytes(p, img) == img[p.offset..p.offset + n];
  }

  /** The segment loop of elf32_load_executable and elf64_load_executable.  It also finds
      the last PT_DYNAMIC header. */
  method CopySegments(c: Class, mem: array<byte>, dest: nat, size: nat, img: seq<byte>, eh: Ehdr, low: nat)
    returns (ok: bool, dynamic: int)
    requires dest + size <= mem.Length
    requires |img| < TWO_32 && HasPhdrs(c, img, eh)
    requires SegmentsInTarget(Phdrs(c, img, eh), low, size) && OffsetsInWidth(Phdrs(c, img, eh))
    modifies mem
    ensures ok <==> SegmentsFit(Phdrs(c, img, eh), img, low, size)
    ensures ok ==> mem[..] == Splice(old(mem[..]), dest,
                                     Copied(Phdrs(c, img, eh), img, low, old(mem[..])[dest..dest + size]))
    ensures !ok && SegmentsBegin(Phdrs(c, img, eh), img) ==>
              exists w: seq<byte> :: |w| == size && mem[..] == Splice(old(mem[..]), dest, w)
    ensures ok ==> dynamic == LastDynamic(Phdrs(c, img, eh), |Phdrs(c, img, eh)|)
  {
    hide Field, Extent, Splice, ReadPhdr, SegmentBytes;
    ghost var ps := Phdrs(c, img, eh);
    ghost var outside := mem[..];
    ghost var start := outside[dest..dest + size];
    ghost var window := start;
    assert outside == Splice(outside, dest, window);
    dynamic := -1;
    for i := 0 to Iterations(eh.phnum)
      invariant SegmentsFit(ps[..i], img, low, size)
      invariant window == Copied(ps[..i], img, low, start)
      invariant mem[..] == Splice(outside, dest, window)
      invariant dynamic == LastDynamic(ps, i)
    {
      PhdrInside(c, img, eh, i);
      var p := ReadPhdr(c, img, PhdrAt(eh, i));
      assert p == ps[i];
      assert ps[..i + 1][..i] == ps[..i];
      if p.ptype == PT_DYNAMIC {
        dynamic := i;
        continue;
      }
      if p.ptype != PT_LOAD || p.memsz == 0 {
        continue;
      }
      ok := CopySegment(mem, dest, outside, window, img, p, low);
      if !ok {
        return;
      }
      window := Splice(window, p.paddr - low, SegmentBytes(p, img));
    }
    assert ps[..|ps|] == ps;
    ok := true;
  }

  /** Index of the last PT_DYNAMIC header, or -1. */
  function LastDynamic(ps: seq<Phdr>, n: nat): (r: int)
    requires n <= |ps|
    ensures -1 <= r < n && (r >= 0 ==> ps[r].ptype == PT_DYNAMIC)
    ensures forall i :: r < i < n ==> ps[i].ptype != PT_DYNAMIC
  {
    if n == 0 then -1 else if ps[n - 1].ptype == PT_DYNAMIC then n - 1 else LastDynamic(ps, n - 1)
  }
}
