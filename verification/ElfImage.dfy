/** The exported interface of the ELF loader: sizing an image and loading it. */
module ElfImage {
  import opened Words
  import opened Bytes
  import opened ElfFormat
  import opened ElfSizing
  import opened ElfSegments
  import opened ElfLoad

  /** Which of the two loaders takes the file; the 32-bit test comes first, and both need
      the 64 bytes of the larger header. */
  function ImageClass(img: seq<byte>): Option<Class> {
    if |img| < 64 then None
    else if HeaderIsValid(Elf32, img) then Some(Elf32)
    else if HeaderIsValid(Elf64, img) then Some(Elf64)
    else None
  }

  /** What the exported functions trust a recognised file with. */
  ghost predicate ImageTrusted(img: seq<byte>) {
    |img| < TWO_32 &&
    (ImageClass(img).Some? ==>
       var c := ImageClass(img).value;
       && Trusted(c, img, false)
       && (c.EhdrSize() <= |img| && HasPhdrs(c, img, ReadEhdr(c, img)) ==>
             NoSegmentWraps(c, ImagePhdrs(c, img))))
  }

  ghost predicate ImageSizable(img: seq<byte>)
    requires ImageTrusted(img)
  {
    ImageClass(img).Some? && Sizable(ImageClass(img).value, img, false)
  }

  ghost function ImageLow(img: seq<byte>): nat
    requires ImageTrusted(img) && ImageSizable(img)
  {
    Sized(ImageClass(img).value, img, false, false).start
  }

  ghost function ImageSize(img: seq<byte>): nat
    requires ImageTrusted(img) && ImageSizable(img)
  {
    SizedInOrder(img);
    Sized(ImageClass(img).value, img, false, false).end - ImageLow(img)
  }

  /** A sized image has a loadable segment, so its bounds are in order. */
  lemma SizedInOrder(img: seq<byte>)
    requires ImageTrusted(img) && ImageSizable(img)
    ensures var info := Sized(ImageClass(img).value, img, false, false);
            info.start < info.end
  {
    hide Field, Extent, Low, High, ReadEhdr;
    var c := ImageClass(img).value;
    var ps := ImagePhdrs(c, img);
    TightBounds(c, ps);
    if forall i :: 0 <= i < |ps| ==> !Loadable(ps[i]) {
      NoneLoadable(c, ps);
      assert false;
    }
  }

  /** A buffer of the reported size holds every segment at its place. */
  lemma ReportedSizeSuffices(img: seq<byte>, i: nat)
    requires ImageTrusted(img) && ImageSizable(img)
    requires i < |ImagePhdrs(ImageClass(img).value, img)| && Loadable(ImagePhdrs(ImageClass(img).value, img)[i])
    ensures var p := ImagePhdrs(ImageClass(img).value, img)[i];
            ImageLow(img) <= p.paddr && p.paddr - ImageLow(img) + p.memsz <= ImageSize(img)
  {
    hide Field, Extent, Low, High, ReadEhdr;
    TightBounds(ImageClass(img).value, ImagePhdrs(ImageClass(img).value, img));
  }

  lemma InReportedSize(img: seq<byte>)
    requires ImageTrusted(img) && ImageSizable(img)
    ensures SegmentsInTarget(ImagePhdrs(ImageClass(img).value, img), ImageLow(img), ImageSize(img))
  {
    hide Field, Low, High, ReadEhdr, ImageSize, ImageLow;
    var ps := ImagePhdrs(ImageClass(img).value, img);
    forall i | 0 <= i < |ps| && Loadable(ps[i])
      ensures ImageLow(img) <= ps[i].paddr && ps[i].paddr - ImageLow(img) + ps[i].memsz <= ImageSize(img)
    {
      ReportedSizeSuffices(img, i);
    }
  }

  /** elf_get_load_info's choice.  No header is valid for both classes, so the order of the
      tests does not matter. */
  method Classify(img: seq<byte>) returns (c: Option<Class>)
    requires |img| < TWO_32
    ensures forall k :: c == Some(k) <==> 64 <= |img| && HeaderIsValid(k, img)
    ensures c == Some(Elf32) <==>
              && 64 <= |img| && img[0] == 0x7F && img[1] == 0x45 && img[2] == 0x4C && img[3] == 0x46
              && img[4] == 1 && img[5] == 1 && img[6] == 1 && Field(img, 18, 2) == 3 && Field(img, 20, 4) == 1
    ensures c == Some(Elf64) <==>
              && 64 <= |img| && img[0] == 0x7F && img[1] == 0x45 && img[2] == 0x4C && img[3] == 0x46
              && img[4] == 2 && img[5] == 1 && Field(img, 18, 2) == 62 && Field(img, 20, 4) == 1
  {
    hide Field;
    if !Maps(|img|, 0, 64) {
      return None;
    }
    if HeaderIsValid(Elf32, img) {
      return Some(Elf32);
    } else if HeaderIsValid(Elf64, img) {
      return Some(Elf64);
    } else {
      return None;
    }
  }

  /** At most one class is right for a file. */
  lemma OneClass(img: seq<byte>, c: Option<Class>)
    requires forall k :: c == Some(k) <==> 64 <= |img| && HeaderIsValid(k, img)
    ensures c == ImageClass(img)
  {
    assert c == Some(Elf32) <==> 64 <= |img| && HeaderIsValid(Elf32, img);
    assert c == Some(Elf64) <==> 64 <= |img| && HeaderIsValid(Elf64, img);
  }

  /** elf_get_load_info, without the optional tables. */
  method LoadInfoOf(img: seq<byte>) returns (ok: bool, c: Class, info: LoadInfo)
    requires ImageTrusted(img)
    ensures ok <==> ImageSizable(img)
    ensures ok ==> ImageClass(img) == Some(c) && info == Sized(c, img, false, false)
  {
    hide Field, Low, High, ReadEhdr, Extent;
    ok, c, info := false, Elf32, LoadInfo(0, 0, 0, 0);
    var kind := Classify(img);
    OneClass(img, kind);
    hide HeaderIsValid;
    if kind.None? {
      return;
    }
    c := kind.value;
    ok, info := GetLoadInfo(c, img, false, false);
  }

  /** get_image_info */
  method GetImageInfo(img: seq<byte>) returns (ok: bool, c: Class, loadSize: nat)
    requires ImageTrusted(img)
    ensures ok <==> ImageSizable(img)
    ensures ok ==> c == ImageClass(img).value && loadSize == ImageSize(img)
  {
    hide ImageTrusted, ImageClass, Sized, Sizable;
    loadSize := 0;
    var info;
    ok, c, info := LoadInfoOf(img);
    if ok {
      SizedInOrder(img);
      loadSize := info.end - info.start;
    }
  }

  /** load_image: the image is loaded into a buffer of the reported size, whose contents
      become the loaded image; no other memory changes, and unless a segment begins past the
      end of the file none does when loading fails half-way. */
  method LoadImage(mem: array<byte>, target: nat, img: seq<byte>) returns (ok: bool, entry: nat)
    requires ImageTrusted(img)
    requires ImageSizable(img) ==>
               && target + ImageSize(img) <= mem.Length
               && LoadPre(ImageClass(img).value, img, ImageLow(img), mem[..][target..target + ImageSize(img)])
    modifies mem
    ensures !ImageSizable(img) ==> !ok && mem[..] == old(mem[..])
    ensures ImageSizable(img) ==>
              var c := ImageClass(img).value;
              var window := old(mem[..])[target..target + ImageSize(img)];
              && (ok <==> Loads(c, img, ImageLow(img), window))
              && (ok ==>
                    && mem[..] == Splice(old(mem[..]), target, LoadedImage(c, img, ImageLow(img), window, target - ImageLow(img)))
                    && entry == AddMod(Elf64, ReadEhdr(c, img).entry, target - ImageLow(img)))
              && (!ok && SegmentsBegin(ImagePhdrs(c, img), img) ==>
                    exists w: seq<byte> :: |w| == ImageSize(img) && mem[..] == Splice(old(mem[..]), target, w))
  {
    hide ImageTrusted, ImageClass, Sizable, ReadEhdr, LoadPre, Loads, Splice, AddMod, Extent, Low, High, SegmentsInTarget, SegmentsBegin,
         HasPhdrs, LoadedImage;
    entry := 0;
    var c, info;
    ok, c, info := LoadInfoOf(img);
    if !ok {
      return;
    }
    SizedInOrder(img);
    InReportedSize(img);
    ok := LoadExecutable(c, mem, target, info.end - info.start, img, info.start);
    entry := AddMod(Elf64, info.entry, target - info.start);
  }
}
