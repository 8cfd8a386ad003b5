/** Position independence: what loading the same file at two places, over memory with
    different contents, has in common. */
module ElfPlacement {
  import opened Bytes
  import opened ElfFormat
  import opened ElfSegments
  import opened ElfPatches
  import opened ElfHeaders
  import opened ElfRelocation
  import opened ElfLoad

  // ----- windows that agree on the segments

  ghost predicate InSomeSegment(ps: seq<Phdr>, low: nat, k: nat) {
    exists i :: 0 <= i < |ps| && InSegment(ps[i], low, k)
  }

  ghost predicate StretchInSegments(ps: seq<Phdr>, low: nat, a: nat, n: nat) {
    forall k :: a <= k < a + n ==> InSomeSegment(ps, low, k)
  }

  ghost predicate Agree(ps: seq<Phdr>, low: nat, m: seq<byte>, m': seq<byte>) {
    |m| == |m'| && forall k :: 0 <= k < |m| && InSomeSegment(ps, low, k) ==> m[k] == m'[k]
  }

  /** Copying the segments makes any two windows agree on them. */
  lemma CopiedAgree(ps: seq<Phdr>, img: seq<byte>, low: nat, window: seq<byte>, window': seq<byte>)
    requires |window| == |window'| && SegmentsFit(ps, img, low, |window|) && SegmentsDisjoint(ps)
    ensures Agree(ps, low, Copied(ps, img, low, window), Copied(ps, img, low, window'))
  {
    forall k | 0 <= k < |window| && InSomeSegment(ps, low, k)
      ensures Copied(ps, img, low, window)[k] == Copied(ps, img, low, window')[k]
    {
      var i :| 0 <= i < |ps| && InSegment(ps[i], low, k);
      SegmentByte(ps, img, low, window, i, k);
      SegmentByte(ps, img, low, window', i, k);
    }
  }

  lemma StretchAgrees(ps: seq<Phdr>, low: nat, m: seq<byte>, m': seq<byte>, a: nat, n: nat)
    requires Agree(ps, low, m, m') && a + n <= |m| && StretchInSegments(ps, low, a, n)
    ensures m[a..a + n] == m'[a..a + n]
  {
  }

  lemma WordAgrees(ps: seq<Phdr>, low: nat, m: seq<byte>, m': seq<byte>, a: nat, n: nat)
    requires Agree(ps, low, m, m') && a + n <= |m| && StretchInSegments(ps, low, a, n)
    ensures Field(m, a, n) == Field(m', a, n)
  {
    StretchAgrees(ps, low, m, m', a, n);
  }

  // ----- what is patched is the same

  lemma {:induction false} HeaderPatchesAgree(c: Class, m: seq<byte>, m': seq<byte>, eh: Ehdr, n: nat)
    requires HasPhdrs(c, m, eh) && |m'| == |m| && n <= eh.phnum && m[..PhdrEnd(eh)] == m'[..PhdrEnd(eh)]
    ensures HeaderPatches(c, m, eh, n) == HeaderPatches(c, m', eh, n)
  {
    hide Field, Extent, ReadPhdr;
    if n > 0 {
      HeaderPatchesAgree(c, m, m', eh, n - 1);
      PhdrInside(c, m, eh, n - 1);
      var a := PhdrAt(eh, n - 1);
      assert m[a..a + c.PhdrSize()] == m[..PhdrEnd(eh)][a..a + c.PhdrSize()];
      assert m'[a..a + c.PhdrSize()] == m'[..PhdrEnd(eh)][a..a + c.PhdrSize()];
      SamePhdr(c, m, m', a);
    }
  }

  /** Entry `i`, its target and its symbol are in segments. */
  ghost predicate EntryInSegments(c: Class, ps: seq<Phdr>, m: seq<byte>, t: Table, low: nat, i: nat) {
    && EntryOk(c, m, t, low, i)
    && StretchInSegments(ps, low, EntryAt(c, t, i), EntrySize(c, t.kind))
    && var e := ReadEntry(c, m, t, i);
       && (Active(e) ==> StretchInSegments(ps, low, e.offset - low, c.Word()))
       && (RelocType(e) == R_DIRECT ==> StretchInSegments(ps, low, SymbolAt(c, t, e), c.Word()))
  }

  ghost predicate TableInSegments(c: Class, ps: seq<Phdr>, m: seq<byte>, t: Table, low: nat) {
    forall i :: 0 <= i < t.count ==> EntryInSegments(c, ps, m, t, low, i)
  }

  lemma EntryAgrees(c: Class, ps: seq<Phdr>, m: seq<byte>, m': seq<byte>, t: Table, low: nat, i: nat)
    requires Agree(ps, low, m, m') && EntryInSegments(c, ps, m, t, low, i)
    ensures EntryOk(c, m, t, low, i) && EntryOk(c, m', t, low, i)
    ensures ReadEntry(c, m, t, i) == ReadEntry(c, m', t, i)
    ensures PatchOf(c, m, t, low, i) == PatchOf(c, m', t, low, i)
    ensures EntryInSegments(c, ps, m', t, low, i)
  {
    hide Field, Extent, ReadEntry, SymbolAt, Agree, StretchInSegments;
    AgreeLength(ps, low, m, m');
    var e := ReadEntry(c, m, t, i);
    StretchAgrees(ps, low, m, m', EntryAt(c, t, i), EntrySize(c, t.kind));
    SameEntry(c, m, m', t, i);
    if Active(e) {
      WordAgrees(ps, low, m, m', e.offset - low, c.Word());
    }
    if RelocType(e) == R_DIRECT {
      WordAgrees(ps, low, m, m', SymbolAt(c, t, e), c.Word());
    }
  }

  lemma AgreeLength(ps: seq<Phdr>, low: nat, m: seq<byte>, m': seq<byte>)
    requires Agree(ps, low, m, m')
    ensures |m| == |m'|
  {
  }

  lemma {:induction false} RelocPatchesAgree(c: Class, ps: seq<Phdr>, m: seq<byte>, m': seq<byte>, t: Table, low: nat, n: nat)
    requires Agree(ps, low, m, m') && TableInSegments(c, ps, m, t, low) && n <= t.count
    ensures EntriesOk(c, m, t, low, n) && EntriesOk(c, m', t, low, n)
    ensures RelocPatches(c, m, t, low, n) == RelocPatches(c, m', t, low, n)
    ensures AllSupported(c, m, t, low, n) <==> AllSupported(c, m', t, low, n)
  {
    hide Field, Extent, ReadEntry, SymbolAt, Agree, EntryOk, EntryInSegments, PatchOf, StretchInSegments;
    if n > 0 {
      RelocPatchesAgree(c, ps, m, m', t, low, n - 1);
      EntryAgrees(c, ps, m, m', t, low, n - 1);
      assert SupportedAt(c, m, t, low, n - 1) <==> SupportedAt(c, m', t, low, n - 1);
    }
  }

  /** Patches that avoid what the relocation of one window reads avoid it in the other. */
  lemma ReadsAgree(c: Class, ps: seq<Phdr>, m: seq<byte>, m': seq<byte>, t: Table, low: nat, qs: seq<Patch>)
    requires Agree(ps, low, m, m') && TableInSegments(c, ps, m, t, low)
    requires EntriesOk(c, m, t, low, t.count) && EntriesOk(c, m', t, low, t.count) && ReadsUntouched(c, m, t, low, qs)
    ensures ReadsUntouched(c, m', t, low, qs) && TableInSegments(c, ps, m', t, low)
  {
    hide Field, Extent, ReadEntry, SymbolAt, Agree, EntryOk, EntryInSegments, PatchOf, StretchInSegments;
    forall i | 0 <= i < t.count
      ensures EntryOk(c, m', t, low, i) && EntryUntouched(c, m', t, low, qs, i) && EntryInSegments(c, ps, m', t, low, i)
    {
      EntryAgrees(c, ps, m, m', t, low, i);
      assert EntryUntouched(c, m, t, low, qs, i);
    }
  }

  lemma CompatibleAgrees(c: Class, ps: seq<Phdr>, m: seq<byte>, m': seq<byte>, t: Table, low: nat, hs: seq<Patch>)
    requires Agree(ps, low, m, m') && TableInSegments(c, ps, m, t, low) && Compatible(c, m, t, low, hs)
    ensures Compatible(c, m', t, low, hs)
  {
    hide Field, Extent, Agree, EntryInSegments, TableInSegments, ReadsUntouched, RelocPatches;
    AgreeLength(ps, low, m, m');
    RelocPatchesAgree(c, ps, m, m', t, low, t.count);
    ReadsAgree(c, ps, m, m', t, low, hs);
    ReadsAgree(c, ps, m, m', t, low, RelocPatches(c, m, t, low, t.count));
  }

  // ----- whole images

  /** What relocation reads and patches lies in segments, so that it comes from the file. */
  ghost predicate SelfContained(c: Class, img: seq<byte>, low: nat, window: seq<byte>)
    requires LoadPre(c, img, low, window)
  {
    SegmentsFit(ImagePhdrs(c, img), img, low, |window|) && ImageTable(c, img).Some? ==>
      TableInSegments(c, ImagePhdrs(c, img), CopiedImage(c, img, low, window), ImageTable(c, img).value, low)
  }

  lemma CopiedHeadersAgree(c: Class, img: seq<byte>, low: nat, window: seq<byte>, window': seq<byte>)
    requires |window| == |window'| && WellLaidOut(c, img, low) && SegmentsFit(ImagePhdrs(c, img), img, low, |window|)
    ensures HasPhdrs(c, CopiedImage(c, img, low, window), ReadEhdr(c, img))
    ensures HasPhdrs(c, CopiedImage(c, img, low, window'), ReadEhdr(c, img))
    ensures HeaderWords(c, img, CopiedImage(c, img, low, window)) == HeaderWords(c, img, CopiedImage(c, img, low, window'))
    ensures Agree(ImagePhdrs(c, img), low, CopiedImage(c, img, low, window), CopiedImage(c, img, low, window'))
  {
    hide Field, Extent, Copied, ReadEhdr, HeaderPatches, Agree;
    var eh, ps := ReadEhdr(c, img), ImagePhdrs(c, img);
    HeadersArrive(ps, img, low, window, PhdrEnd(eh));
    HeadersArrive(ps, img, low, window', PhdrEnd(eh));
    HeaderPatchesAgree(c, CopiedImage(c, img, low, window), CopiedImage(c, img, low, window'), eh, Iterations(eh.phnum));
    CopiedAgree(ps, img, low, window, window');
  }

  /** Whether an image can be loaded, whether it loads and which words it patches does not
      depend on what the target held before. */
  lemma LoadsAnywhere(c: Class, img: seq<byte>, low: nat, window: seq<byte>, window': seq<byte>)
    requires |window| == |window'| && LoadPre(c, img, low, window) && SelfContained(c, img, low, window)
    ensures LoadPre(c, img, low, window') && SelfContained(c, img, low, window')
    ensures Loads(c, img, low, window) <==> Loads(c, img, low, window')
    ensures Loads(c, img, low, window) ==> TargetWords(c, img, low, window) == TargetWords(c, img, low, window')
  {
    hide Field, Extent, Copied, ReadEhdr, HeaderPatches, Agree, Compatible, TableInSegments, RelocPatches, DynTable,
         AllSupported;
    var ps := ImagePhdrs(c, img);
    if SegmentsFit(ps, img, low, |window|) {
      CopiedHeadersAgree(c, img, low, window, window');
      if ImageTable(c, img).Some? {
        var m, m', t := CopiedImage(c, img, low, window), CopiedImage(c, img, low, window'), ImageTable(c, img).value;
        TableAgrees(c, ps, m, m', t, low, HeaderWords(c, img, m));
      }
    }
  }

  lemma TableAgrees(c: Class, ps: seq<Phdr>, m: seq<byte>, m': seq<byte>, t: Table, low: nat, hs: seq<Patch>)
    requires Agree(ps, low, m, m') && TableInSegments(c, ps, m, t, low) && Compatible(c, m, t, low, hs)
    ensures Compatible(c, m', t, low, hs) && TableInSegments(c, ps, m', t, low)
    ensures EntriesOk(c, m, t, low, t.count) && EntriesOk(c, m', t, low, t.count)
    ensures RelocPatches(c, m, t, low, t.count) == RelocPatches(c, m', t, low, t.count)
    ensures AllSupported(c, m, t, low, t.count) <==> AllSupported(c, m', t, low, t.count)
  {
    hide Field, Extent, Agree, TableInSegments, RelocPatches, ReadsUntouched, EntryOk;
    CompatibleAgrees(c, ps, m, m', t, low, hs);
    RelocPatchesAgree(c, ps, m, m', t, low, t.count);
    ReadsAgree(c, ps, m, m', t, low, hs);
  }

  // ----- every patched word comes from the file

  ghost predicate WordsInSegments(c: Class, ps: seq<Phdr>, low: nat, ws: seq<Patch>) {
    forall i :: 0 <= i < |ws| ==> StretchInSegments(ps, low, ws[i].at, c.Word())
  }

  lemma {:induction false} RelocWordsInSegments(c: Class, ps: seq<Phdr>, m: seq<byte>, t: Table, low: nat, n: nat)
    requires TableInSegments(c, ps, m, t, low) && n <= t.count
    ensures EntriesOk(c, m, t, low, n) && WordsInSegments(c, ps, low, RelocPatches(c, m, t, low, n))
  {
    hide Field, Extent, ReadEntry, SymbolAt, StretchInSegments;
    if n > 0 {
      RelocWordsInSegments(c, ps, m, t, low, n - 1);
      assert EntryInSegments(c, ps, m, t, low, n - 1);
      NextPatches(c, m, t, low, n - 1);
    }
  }

  lemma HeaderWordsInSegments(c: Class, ps: seq<Phdr>, m: seq<byte>, eh: Ehdr, low: nat, n: nat)
    requires HasPhdrs(c, m, eh) && n <= eh.phnum && CarriesHeaders(ps, low, PhdrEnd(eh))
    ensures WordsInSegments(c, ps, low, HeaderPatches(c, m, eh, n))
  {
    hide Field, Extent, HeaderPatches;
    var hs := HeaderPatches(c, m, eh, n);
    HeaderPatchesPlaced(c, m, eh, n);
    if n < eh.phnum {
      ExtentGrows(n, eh.phnum, eh.phentsize);
    }
    var s :| 0 <= s < |ps| && Loadable(ps[s]) && ps[s].paddr == low && ps[s].offset == 0 && PhdrEnd(eh) <= FileBytes(ps[s]);
    forall i, k | 0 <= i < |hs| && hs[i].at <= k < hs[i].at + c.Word() ensures InSomeSegment(ps, low, k) {
      assert InSegment(ps[s], low, k);
    }
  }

  lemma TargetWordsInSegments(c: Class, img: seq<byte>, low: nat, window: seq<byte>)
    requires LoadPre(c, img, low, window) && SelfContained(c, img, low, window) && Loads(c, img, low, window)
    ensures WordsInSegments(c, ImagePhdrs(c, img), low, TargetWords(c, img, low, window))
  {
    hide Field, Extent, Copied, ReadEhdr, HeaderPatches, RelocPatches, StretchInSegments, TableInSegments, Compatible, DynTable,
         AllSupported;
    var m, eh, ps := CopiedImage(c, img, low, window), ReadEhdr(c, img), ImagePhdrs(c, img);
    HeaderWordsInSegments(c, ps, m, eh, low, Iterations(eh.phnum));
    if HasDynamic(c, img) {
      RelocWordsInSegments(c, ps, m, ImageTable(c, img).value, low, ImageTable(c, img).value.count);
    }
  }

  /** A byte in no segment is in no patched word. */
  lemma GapUntouched(c: Class, ps: seq<Phdr>, low: nat, ws: seq<Patch>, k: nat)
    requires WordsInSegments(c, ps, low, ws) && !InSomeSegment(ps, low, k)
    ensures Untouched(c, ws, k, 1)
  {
    forall i | 0 <= i < |ws| ensures Apart(ws[i].at, c.Word(), k, 1) {
      assert StretchInSegments(ps, low, ws[i].at, c.Word());
    }
  }

  /** A byte of a loaded image outside the patched words. */
  lemma LoadedByte(c: Class, img: seq<byte>, low: nat, window: seq<byte>, delta: int, k: nat)
    requires LoadPre(c, img, low, window) && Loads(c, img, low, window) && k < |window|
    requires Untouched(c, TargetWords(c, img, low, window), k, 1)
    ensures LoadedImage(c, img, low, window, delta)[k] == CopiedImage(c, img, low, window)[k]
    ensures !InSomeSegment(ImagePhdrs(c, img), low, k) ==> LoadedImage(c, img, low, window, delta)[k] == window[k]
  {
    hide Field, Extent, Copied, Patched, TargetWords, ReadEhdr;
    TargetWordsPlaced(c, img, low, window);
    PlacedBytes(c, CopiedImage(c, img, low, window), TargetWords(c, img, low, window), delta, k);
    if !InSomeSegment(ImagePhdrs(c, img), low, k) {
      GapByte(ImagePhdrs(c, img), img, low, window, k);
    }
  }

  /** Position independence, for any two targets and whatever they held before.  The loaded
      images have the same target-dependent words, which differ by exactly the distance of
      the targets; all other bytes of segments agree; and bytes in no segment are as each
      target held them. */
  lemma PositionIndependence(c: Class, img: seq<byte>, low: nat, window: seq<byte>, window': seq<byte>, dest: nat, dest': nat)
    requires |window| == |window'| && LoadPre(c, img, low, window) && SelfContained(c, img, low, window)
    requires Loads(c, img, low, window)
    ensures LoadPre(c, img, low, window') && Loads(c, img, low, window')
    ensures var ws, ps := TargetWords(c, img, low, window), ImagePhdrs(c, img);
            var m := LoadedImage(c, img, low, window, dest - low);
            var m' := LoadedImage(c, img, low, window', dest' - low);
            && PatchesIn(c, ws, |window|) && TargetWords(c, img, low, window') == ws
            && (forall i :: 0 <= i < |ws| ==>
                  Field(m', ws[i].at, c.Word()) == AddMod(c, Field(m, ws[i].at, c.Word()), dest' - dest))
            && (forall k :: 0 <= k < |window| && InSomeSegment(ps, low, k) && Untouched(c, ws, k, 1) ==> m'[k] == m[k])
            && (forall k :: 0 <= k < |window| && !InSomeSegment(ps, low, k) ==> m[k] == window[k] && m'[k] == window'[k])
  {
    hide Field, Extent, Copied, Patched, AddMod, TargetWords, ReadEhdr, Placeable, AllSupported, DynTable,
         SelfContained, InSomeSegment, Untouched, WordsInSegments;
    var ws, ps := TargetWords(c, img, low, window), ImagePhdrs(c, img);
    LoadsAnywhere(c, img, low, window, window');
    TargetWordsPlaced(c, img, low, window);
    TargetWordsInSegments(c, img, low, window);
    forall i | 0 <= i < |ws|
      ensures Field(LoadedImage(c, img, low, window', dest' - low), ws[i].at, c.Word())
              == AddMod(c, Field(LoadedImage(c, img, low, window, dest - low), ws[i].at, c.Word()), dest' - dest)
    {
      PlacedWords(c, CopiedImage(c, img, low, window), CopiedImage(c, img, low, window'), ws, dest - low, dest' - low, i);
    }
    forall k | 0 <= k < |window| && InSomeSegment(ps, low, k) && Untouched(c, ws, k, 1)
      ensures LoadedImage(c, img, low, window', dest' - low)[k] == LoadedImage(c, img, low, window, dest - low)[k]
    {
      LoadedByte(c, img, low, window, dest - low, k);
      LoadedByte(c, img, low, window', dest' - low, k);
      CopiedHeadersAgree(c, img, low, window, window');
    }
    forall k | 0 <= k < |window| && !InSomeSegment(ps, low, k)
      ensures LoadedImage(c, img, low, window, dest - low)[k] == window[k]
      ensures LoadedImage(c, img, low, window', dest' - low)[k] == window'[k]
    {
      GapUntouched(c, ps, low, ws, k);
      LoadedByte(c, img, low, window, dest - low, k);
      LoadedByte(c, img, low, window', dest' - low, k);
    }
  }
}
