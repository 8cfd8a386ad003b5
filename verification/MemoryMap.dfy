/** Multiboot memory maps: entries, their bytes, and what a map says about an address. */
module MemoryMap {
  import opened Words
  import opened Bytes

  const AVAILABLE: nat := 1
  const RESERVED: nat := 2
  const BAD: nat := 5

  /** sizeof(multiboot_memory_map_t), and what its `size` field holds: the bytes after it. */
  const ENTRY_SIZE: nat := 24
  const SIZE_FIELD: nat := 20

  datatype Entry = Entry(size: nat, addr: nat, len: nat, typ: nat)

  function End(e: Entry): nat { e.addr + e.len }

  // ----- meaning

  predicate Covers(e: Entry, x: nat) { e.addr <= x < End(e) }

  /** The type the map gives to address `x`, from the first entry that covers it. */
  function TypeAt(es: seq<Entry>, x: nat): Option<nat> {
    if es == [] then None
    else if Covers(es[0], x) then Some(es[0].typ)
    else TypeAt(es[1..], x)
  }

  ghost predicate InWidth(e: Entry) {
    e.size == SIZE_FIELD && End(e) < TWO_64 && e.typ < TWO_32
  }

  /** A map as firmware should deliver it: entries in order, disjoint, not wrapping. */
  ghost predicate ValidMap(es: seq<Entry>) {
    && (forall i :: 0 <= i < |es| ==> InWidth(es[i]))
    && (forall i, j :: 0 <= i < j < |es| ==> End(es[i]) <= es[j].addr)
  }

  lemma EntryInWidth(es: seq<Entry>, i: nat)
    requires ValidMap(es) && i < |es|
    ensures InWidth(es[i])
  {
  }

  lemma ValidPrefix(es: seq<Entry>, i: nat)
    requires ValidMap(es) && i <= |es|
    ensures ValidMap(es[..i])
  {
  }

  function TotalLength(es: seq<Entry>): nat {
    if es == [] then 0 else es[0].len + TotalLength(es[1..])
  }

  /** In a valid map the entry that covers an address decides its type. */
  lemma {:induction false} TypeOfCovered(es: seq<Entry>, i: nat, x: nat)
    requires ValidMap(es) && i < |es| && Covers(es[i], x)
    ensures TypeAt(es, x) == Some(es[i].typ)
    decreases |es|
  {
    if i > 0 {
      assert End(es[0]) <= es[i].addr;
      TypeOfCovered(es[1..], i - 1, x);
    }
  }

  lemma {:induction false} TypeOfUncovered(es: seq<Entry>, x: nat)
    requires forall i :: 0 <= i < |es| ==> !Covers(es[i], x)
    ensures TypeAt(es, x) == None
    decreases |es|
  {
    if es != [] {
      TypeOfUncovered(es[1..], x);
    }
  }

  lemma SingleEntry(e: Entry, x: nat)
    ensures TypeAt([e], x) == if Covers(e, x) then Some(e.typ) else None
    ensures TotalLength([e]) == e.len
  {
    assert [e][1..] == [];
  }

  lemma {:induction false} TypeOfConcat(es: seq<Entry>, fs: seq<Entry>, x: nat)
    ensures TypeAt(es + fs, x) == if TypeAt(es, x).Some? then TypeAt(es, x) else TypeAt(fs, x)
    decreases |es|
  {
    if es == [] {
      assert es + fs == fs;
    } else {
      assert (es + fs)[1..] == es[1..] + fs;
      TypeOfConcat(es[1..], fs, x);
    }
  }

  lemma {:induction false} LengthOfConcat(es: seq<Entry>, fs: seq<Entry>)
    ensures TotalLength(es + fs) == TotalLength(es) + TotalLength(fs)
    decreases |es|
  {
    if es == [] {
      assert es + fs == fs;
    } else {
      assert (es + fs)[1..] == es[1..] + fs;
      LengthOfConcat(es[1..], fs);
    }
  }

  // ----- bytes

  function ReadEntry(m: seq<byte>, a: nat): Entry
    requires a + ENTRY_SIZE <= |m|
  {
    Entry(Field(m, a, 4), Field(m, a + 4, 8), Field(m, a + 12, 8), Field(m, a + 20, 4))
  }

  function EntryBytes(e: Entry): (r: seq<byte>)
    ensures |r| == ENTRY_SIZE
  {
    LeBytes(e.size, 4) + LeBytes(e.addr, 8) + LeBytes(e.len, 8) + LeBytes(e.typ, 4)
  }

  ghost predicate Storable(e: Entry) {
    e.size < TWO_32 && e.addr < TWO_64 && e.len < TWO_64 && e.typ < TWO_32
  }

  lemma EntryParts(size: seq<byte>, addr: seq<byte>, len: seq<byte>, typ: seq<byte>)
    requires |size| == |typ| == 4 && |addr| == |len| == 8
    ensures var b := size + addr + len + typ;
            b[0..4] == size && b[4..12] == addr && b[12..20] == len && b[20..24] == typ
  {
  }

  /** Writing an entry and reading it back. */
  lemma EntryRoundTrip(e: Entry)
    requires Storable(e)
    ensures ReadEntry(EntryBytes(e), 0) == e
  {
    hide LeBytes, LeValue, Pow256;
    Pow256Values();
    EntryParts(LeBytes(e.size, 4), LeBytes(e.addr, 8), LeBytes(e.len, 8), LeBytes(e.typ, 4));
    LeRoundTrip(e.size, 4);
    LeRoundTrip(e.addr, 8);
    LeRoundTrip(e.len, 8);
    LeRoundTrip(e.typ, 4);
  }

  /** One entry byte by byte, as the Multiboot specification lays it out: 2 GB less 1 MB of
      available memory from 1 MB on. */
  lemma EntryOnBytes()
    ensures var b: seq<byte> := [20, 0, 0, 0] + [0, 0, 0x10, 0, 0, 0, 0, 0] + [0, 0, 0xF0, 0x7F, 0, 0, 0, 0] + [1, 0, 0, 0];
            ReadEntry(b, 0) == Entry(SIZE_FIELD, 0x10_0000, 0x7FF0_0000, AVAILABLE)
    ensures AVAILABLE == 1 && RESERVED == 2 && BAD == 5
  {
    var size: seq<byte>, addr: seq<byte>, len: seq<byte>, typ: seq<byte> :=
      [20, 0, 0, 0], [0, 0, 0x10, 0, 0, 0, 0, 0], [0, 0, 0xF0, 0x7F, 0, 0, 0, 0], [1, 0, 0, 0];
    hide LeValue;
    EntryParts(size, addr, len, typ);
    FourBytes(size);
    FourBytes(typ);
    EightBytes(addr);
    EightBytes(len);
  }

  lemma EntryOfStretch(m: seq<byte>, a: nat)
    requires a + ENTRY_SIZE <= |m|
    ensures ReadEntry(m, a) == ReadEntry(m[a..a + ENTRY_SIZE], 0)
  {
    hide Field;
    SubField(m, a, ENTRY_SIZE, 0, 4);
    SubField(m, a, ENTRY_SIZE, 4, 8);
    SubField(m, a, ENTRY_SIZE, 12, 8);
    SubField(m, a, ENTRY_SIZE, 20, 4);
  }

  /** The entries of a table of `n` entries at `a`, as the indexed loops see them. */
  ghost function TableAt(m: seq<byte>, a: nat, n: nat): (r: seq<Entry>)
    requires a + ENTRY_SIZE * n <= |m|
    ensures |r| == n && forall i :: 0 <= i < n ==> r[i] == ReadEntry(m, a + ENTRY_SIZE * i)
  {
    seq(n, i requires 0 <= i < n => ReadEntry(m, a + ENTRY_SIZE * i))
  }

  /** The bytes of a whole table. */
  function TableBytes(es: seq<Entry>): (r: seq<byte>)
    ensures |r| == ENTRY_SIZE * |es|
  {
    if es == [] then [] else TableBytes(es[..|es| - 1]) + EntryBytes(es[|es| - 1])
  }

  lemma {:induction false} TableBytesAt(es: seq<Entry>, k: nat)
    requires k < |es|
    ensures TableBytes(es)[ENTRY_SIZE * k..ENTRY_SIZE * k + ENTRY_SIZE] == EntryBytes(es[k])
  {
    hide EntryBytes;
    var n := |es| - 1;
    if k < n {
      TableBytesAt(es[..n], k);
      assert TableBytes(es)[ENTRY_SIZE * k..ENTRY_SIZE * k + ENTRY_SIZE]
             == TableBytes(es[..n])[ENTRY_SIZE * k..ENTRY_SIZE * k + ENTRY_SIZE];
    }
  }

  /** Reading back a table that was written entry by entry. */
  lemma TableRoundTrip(m: seq<byte>, a: nat, es: seq<Entry>)
    requires a + ENTRY_SIZE * |es| <= |m| && forall i :: 0 <= i < |es| ==> Storable(es[i])
    ensures TableAt(Splice(m, a, TableBytes(es)), a, |es|) == es
  {
    hide Splice, TableBytes, EntryBytes, ReadEntry, Storable;
    var m' := Splice(m, a, TableBytes(es));
    forall k | 0 <= k < |es| ensures ReadEntry(m', a + ENTRY_SIZE * k) == es[k] {
      var b := a + ENTRY_SIZE * k;
      TableBytesAt(es, k);
      assert m'[b..b + ENTRY_SIZE] == TableBytes(es)[ENTRY_SIZE * k..ENTRY_SIZE * k + ENTRY_SIZE];
      EntryOfStretch(m', b);
      EntryRoundTrip(es[k]);
    }
  }

  /** A table reads the same in memories that agree on its bytes. */
  lemma TableKept(m: seq<byte>, m': seq<byte>, a: nat, n: nat)
    requires a + ENTRY_SIZE * n <= |m| && a + ENTRY_SIZE * n <= |m'|
    requires m[a..a + ENTRY_SIZE * n] == m'[a..a + ENTRY_SIZE * n]
    ensures TableAt(m, a, n) == TableAt(m', a, n)
  {
    hide ReadEntry;
    forall k | 0 <= k < n
      ensures ReadEntry(m, a + ENTRY_SIZE * k) == ReadEntry(m', a + ENTRY_SIZE * k)
    {
      SubStretch(m, a, ENTRY_SIZE * n, ENTRY_SIZE * k, ENTRY_SIZE);
      SubStretch(m', a, ENTRY_SIZE * n, ENTRY_SIZE * k, ENTRY_SIZE);
      EntryOfStretch(m, a + ENTRY_SIZE * k);
      EntryOfStretch(m', a + ENTRY_SIZE * k);
    }
  }
}
