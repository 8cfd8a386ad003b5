/** The load-time memory layout, as the macros of the package descriptor compute it. */
module Layout {
  import opened Words

  const MB: nat := 0x10_0000

  const GUEST1_SIZE: nat := 0x400
  const LOADER_SIZE: nat := 0x1_0000
  const HEAP_SIZE: nat := 0xA_0000
  const STARTAP_SIZE: nat := 0x3000

  /** The descriptor `td`: its own address, and the fields the layout depends on. */
  datatype Descriptor = Descriptor(td: nat, guest1Start: nat, guest1Count: nat, memInMb: nat)

  function U32(x: int): nat { x % TWO_32 }

  function PackageSize(d: Descriptor): nat { U32((d.guest1Start + d.guest1Count) * 512) }
  function Guest1Base(d: Descriptor): nat { U32(d.td + PackageSize(d)) }
  function LoaderBase(d: Descriptor): nat { U32(Guest1Base(d) + GUEST1_SIZE + 0xFFF) / 4096 * 4096 }
  function HeapBase(d: Descriptor): nat { U32(LoaderBase(d) + LOADER_SIZE) }
  function StartapBase(d: Descriptor): nat { U32(HeapBase(d) + HEAP_SIZE) }
  function XmonBase(d: Descriptor): nat { U32(StartapBase(d) + STARTAP_SIZE) }
  function XmonSize(d: Descriptor): nat { U32(d.memInMb * MB - U32(XmonBase(d) - d.td)) }

  /** The size handed to hide_runtime_memory, which starts at STARTAP_BASE. */
  function HiddenSize(d: Descriptor): nat { U32(STARTAP_SIZE + XmonSize(d)) }

  function Top(d: Descriptor): nat { d.td + d.memInMb * MB }

  /** What lies below xmon, with each part in full and the loader on a page. */
  function Demand(d: Descriptor): nat {
    (d.td + (d.guest1Start + d.guest1Count) * 512 + GUEST1_SIZE + 0xFFF) / 4096 * 4096
    + LOADER_SIZE + HEAP_SIZE + STARTAP_SIZE
  }

  /** The block of memory ends below 4 GB and has room for what lies below xmon. */
  ghost predicate Fits(d: Descriptor) { Demand(d) <= Top(d) < TWO_32 }

  /** Package, guest state, loader, heap, startap and xmon follow one another from the
      descriptor to the top of its block, without overlap; and the hidden range is startap
      and xmon, up to the top. */
  lemma LayoutOrdered(d: Descriptor)
    requires Fits(d)
    ensures PackageSize(d) == (d.guest1Start + d.guest1Count) * 512
    ensures d.td <= d.td + PackageSize(d) == Guest1Base(d)
    ensures Guest1Base(d) + GUEST1_SIZE <= LoaderBase(d)
    ensures LoaderBase(d) % 4096 == 0 && LoaderBase(d) + LOADER_SIZE == HeapBase(d)
    ensures HeapBase(d) % 4096 == 0 && 0 < HeapBase(d) && HeapBase(d) + HEAP_SIZE == StartapBase(d)
    ensures StartapBase(d) + STARTAP_SIZE == XmonBase(d)
    ensures XmonBase(d) + XmonSize(d) == Top(d)
    ensures StartapBase(d) + HiddenSize(d) == Top(d)
  {
    hide LoaderBase, HeapBase, StartapBase, XmonBase, XmonSize, HiddenSize, Guest1Base, PackageSize, Demand;
    LoaderPlaced(d);
    BasesPlaced(d);
    XmonPlaced(d);
    PageAndMore(LoaderBase(d));
  }

  lemma PageAndMore(x: nat)
    requires x % 4096 == 0
    ensures (x + LOADER_SIZE) % 4096 == 0
  {
  }

  lemma BasesPlaced(d: Descriptor)
    requires LoaderBase(d) + LOADER_SIZE + HEAP_SIZE + STARTAP_SIZE < TWO_32
    ensures LoaderBase(d) + LOADER_SIZE == HeapBase(d)
    ensures HeapBase(d) + HEAP_SIZE == StartapBase(d)
    ensures StartapBase(d) + STARTAP_SIZE == XmonBase(d)
  {
    hide LoaderBase, U32;
    InWord(LoaderBase(d) + LOADER_SIZE);
    InWord(HeapBase(d) + HEAP_SIZE);
    InWord(StartapBase(d) + STARTAP_SIZE);
  }

  lemma XmonPlaced(d: Descriptor)
    requires d.td <= StartapBase(d) && StartapBase(d) + STARTAP_SIZE == XmonBase(d) <= Top(d) < TWO_32
    ensures XmonBase(d) + XmonSize(d) == Top(d) && StartapBase(d) + HiddenSize(d) == Top(d)
  {
    hide StartapBase, XmonBase, U32;
    InWord(XmonBase(d) - d.td);
    InWord(Top(d) - XmonBase(d));
    InWord(STARTAP_SIZE + XmonSize(d));
  }

  lemma InWord(x: int)
    requires 0 <= x < TWO_32
    ensures U32(x) == x
  {
  }

  /** The loader is on the first page boundary behind the guest state. */
  lemma LoaderPlaced(d: Descriptor)
    requires Fits(d)
    ensures PackageSize(d) == (d.guest1Start + d.guest1Count) * 512
    ensures Guest1Base(d) == d.td + PackageSize(d) && LoaderBase(d) % 4096 == 0
    ensures Guest1Base(d) + GUEST1_SIZE <= LoaderBase(d)
    ensures LoaderBase(d) + LOADER_SIZE + HEAP_SIZE + STARTAP_SIZE == Demand(d)
  {
    var package := (d.guest1Start + d.guest1Count) * 512;
    var end := d.td + package + GUEST1_SIZE + 0xFFF;
    Floor(end);
    InWord(package);
    InWord(d.td + package);
    InWord(end);
  }

  /** Rounding down to a page. */
  lemma Floor(x: nat)
    ensures x / 4096 * 4096 <= x < x / 4096 * 4096 + 4096 && x / 4096 * 4096 % 4096 == 0
  {
    MultipleOf(x / 4096, 4096);
  }

  /** Each part begins where the one before it has ended, and xmon ends at the top. */
  ghost predicate InOrder(d: Descriptor) {
    && d.td + (d.guest1Start + d.guest1Count) * 512 == Guest1Base(d)
    && Guest1Base(d) + GUEST1_SIZE <= LoaderBase(d)
    && LoaderBase(d) + LOADER_SIZE == HeapBase(d)
    && HeapBase(d) + HEAP_SIZE == StartapBase(d)
    && StartapBase(d) + STARTAP_SIZE == XmonBase(d)
    && XmonBase(d) + XmonSize(d) == Top(d)
  }

  /** In a block below 4 GB the parts are in order exactly when the block has room for what
      lies below xmon; the macros do not look. */
  lemma InOrderExactlyWhenFits(d: Descriptor)
    requires Top(d) < TWO_32
    ensures InOrder(d) <==> Demand(d) <= Top(d)
  {
    hide PackageSize, Guest1Base, LoaderBase, HeapBase, StartapBase, XmonBase, XmonSize, HiddenSize, Demand;
    if Demand(d) <= Top(d) {
      LayoutOrdered(d);
    } else if InOrder(d) {
      BaseIsWord(d);
      OrderedBase(d);
    }
  }

  lemma BaseIsWord(d: Descriptor)
    ensures Guest1Base(d) < TWO_32
  {
  }

  lemma OrderedBase(d: Descriptor)
    requires InOrder(d) && Guest1Base(d) < TWO_32
    ensures Demand(d) == XmonBase(d)
  {
    hide PackageSize, Guest1Base, HeapBase, StartapBase, XmonBase, XmonSize, U32;
    var end := Guest1Base(d) + GUEST1_SIZE + 0xFFF;
    if end < TWO_32 {
      InWord(end);
    } else {
      WrappedEnd(end);
    }
  }

  /** A sum that wraps ends up below what was added to it. */
  lemma WrappedEnd(end: nat)
    requires TWO_32 <= end < TWO_32 + GUEST1_SIZE + 0xFFF
    ensures U32(end) / 4096 * 4096 < GUEST1_SIZE + 0xFFF
  {
    Floor(U32(end));
  }

  /** A block without room: 1 MB behind a package of 512 KB gives an xmon size near 4 GB. */
  lemma ShortBlockWraps()
    ensures var d := Descriptor(0x100_0000, 0, 1024, 1);
            !Fits(d) && XmonSize(d) > 0xF000_0000
  {
    var d := Descriptor(0x100_0000, 0, 1024, 1);
    assert PackageSize(d) == 0x8_0000;
    assert Guest1Base(d) == 0x108_0000;
    assert LoaderBase(d) == 0x108_1000;
    hide LoaderBase;
    assert HeapBase(d) == 0x109_1000;
    assert StartapBase(d) == 0x113_1000;
    assert XmonBase(d) == 0x113_4000;
    hide XmonBase, Guest1Base;
    assert XmonSize(d) == (0x10_0000 - 0x13_4000) % TWO_32;
    assert Demand(d) == 0x113_4000;
  }
}
