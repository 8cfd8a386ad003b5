/** What the processor does with page tables in 64-bit mode: the four-level walk of
    section 4.5 of the Intel SDM, volume 3A. */
module PageWalk {
  import opened Words
  import opened Bytes

  const PAGE_2M: nat := 0x20_0000
  const PAGE_1G: nat := 0x4000_0000
  const TWO_39: nat := 0x80_0000_0000
  const TWO_47: nat := 0x8000_0000_0000
  const TWO_52: nat := 0x10_0000_0000_0000

  /** What a translation allows (section 4.6) and how the page is cached (section 4.9). */
  datatype Access = Access(writable: bool, user: bool, writeThrough: bool, cacheDisabled: bool)

  datatype Translation = Fault | Physical(addr: nat, access: Access)

  predicate Bit(v: nat, place: nat)
    requires place > 0
  {
    v / place % 2 == 1
  }

  predicate Present(v: nat) { Bit(v, 1) }

  /** Bit 7: the entry maps a page instead of naming a table. */
  predicate MapsPage(v: nat) { Bit(v, 128) }

  /** The address in an entry that names or maps something of the given alignment. */
  function FrameOf(v: nat, alignment: nat): nat
    requires alignment > 0
  {
    v % TWO_52 / alignment * alignment
  }

  /** Entry `index` of the table at `table`, if that is memory. */
  function EntryOf(m: seq<byte>, table: nat, index: nat): nat {
    if table + 8 * index + 8 <= |m| then Field(m, table + 8 * index, 8) else 0
  }

  /** What the entries used, the leaf last, allow: writing and user access are allowed if all
      of them say so, and the leaf decides the caching. */
  function AccessOf(used: seq<nat>): Access
    requires used != []
  {
    var leaf := used[|used| - 1];
    Access(forall v :: v in used ==> Bit(v, 2), forall v :: v in used ==> Bit(v, 4), Bit(leaf, 8), Bit(leaf, 16))
  }

  /** Walk from CR3 to the physical address of a linear address. */
  function Walk(m: seq<byte>, cr3: nat, linear: nat): Translation {
    var pml4e := EntryOf(m, FrameOf(cr3, PAGE), linear / TWO_39 % 512);
    if !Present(pml4e) then Fault
    else
      var pdpte := EntryOf(m, FrameOf(pml4e, PAGE), linear / PAGE_1G % 512);
      if !Present(pdpte) then Fault
      else if MapsPage(pdpte) then Physical(FrameOf(pdpte, PAGE_1G) + linear % PAGE_1G, AccessOf([pml4e, pdpte]))
      else
        var pde := EntryOf(m, FrameOf(pdpte, PAGE), linear / PAGE_2M % 512);
        if !Present(pde) then Fault
        else if MapsPage(pde) then Physical(FrameOf(pde, PAGE_2M) + linear % PAGE_2M, AccessOf([pml4e, pdpte, pde]))
        else
          var pte := EntryOf(m, FrameOf(pde, PAGE), linear / PAGE % 512);
          if !Present(pte) then Fault
          else Physical(FrameOf(pte, PAGE) + linear % PAGE, AccessOf([pml4e, pdpte, pde, pte]))
  }

  // ----- tables as sequences of entries

  /** The page at `p` holds the 512 entries `f`. */
  ghost predicate Holds(m: seq<byte>, p: nat, f: seq<nat>) {
    && |f| == 512 && p % PAGE == 0 && p + PAGE <= |m|
    && forall k :: 0 <= k < 512 ==> EntryOf(m, p, k) == f[k]
  }

  lemma HoldsKept(m: seq<byte>, m': seq<byte>, p: nat, f: seq<nat>)
    requires Holds(m, p, f) && |m'| == |m| && m[p..p + PAGE] == m'[p..p + PAGE]
    ensures Holds(m', p, f)
  {
    hide Field;
    forall k | 0 <= k < 512 ensures EntryOf(m', p, k) == f[k] {
      FieldInStretch(m, m', p, PAGE, p + 8 * k, 8);
      assert EntryOf(m, p, k) == f[k];
    }
  }

  lemma {:induction false} ZeroValue(s: seq<byte>)
    requires forall k :: 0 <= k < |s| ==> s[k] == 0
    ensures LeValue(s) == 0
  {
    if s != [] {
      ZeroValue(s[1..]);
    }
  }

  function NoEntries(): (f: seq<nat>)
    ensures |f| == 512 && forall k :: 0 <= k < 512 ==> f[k] == 0
  {
    seq(512, _ => 0)
  }

  lemma HoldsZeros(m: seq<byte>, p: nat)
    requires p % PAGE == 0 && p + PAGE <= |m|
    ensures Holds(Splice(m, p, Zeros(PAGE)), p, NoEntries())
  {
    hide Splice, LeValue;
    var m' := Splice(m, p, Zeros(PAGE));
    forall k | 0 <= k < 512 ensures EntryOf(m', p, k) == 0 {
      ZeroValue(m'[p + 8 * k..p + 8 * k + 8]);
    }
  }

  /** Writing the low word of an entry that has no high word. */
  lemma EntryWritten(m: seq<byte>, a: nat, v: nat)
    requires a + 8 <= |m| && Field(m, a, 8) < TWO_32 && v < TWO_32
    ensures Field(Put(m, a, 4, v), a, 8) == v
  {
    hide LeValue, LeBytes;
    var m' := Put(m, a, 4, v);
    EightBytes(m[a..a + 8]);
    EightBytes(m'[a..a + 8]);
    assert m[a..a + 8][4..] == m'[a..a + 8][4..];
    assert m'[a..a + 8][..4] == m'[a..a + 4];
    Pow256Values();
    PutField(m, a, 4, v);
  }

  lemma HoldsWritten(m: seq<byte>, p: nat, f: seq<nat>, k: nat, v: nat)
    requires Holds(m, p, f) && k < 512 && f[k] < TWO_32 && v < TWO_32
    ensures Holds(Put(m, p + 8 * k, 4, v), p, f[k := v])
  {
    hide Field, Put;
    var m' := Put(m, p + 8 * k, 4, v);
    assert EntryOf(m, p, k) == f[k];
    EntryWritten(m, p + 8 * k, v);
    forall j | 0 <= j < 512 && j != k ensures EntryOf(m', p, j) == f[j] {
      PutElsewhere(m, p + 8 * k, 4, v, p + 8 * j, 8);
      assert EntryOf(m, p, j) == f[j];
    }
  }
}
