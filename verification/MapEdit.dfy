/** Hiding the runtime memory of startap and xmon from the memory map. */
module MapEdit {
  import opened Words
  import opened MemoryMap

  /** End of the hidden range; the code adds in 32 bits. */
  function HideEnd(h: nat, s: nat): nat { (h + s) % TWO_32 }

  /** mmap->addr + mmap->len in 64 bits. */
  function End64(e: Entry): nat { End(e) % TWO_64 }

  predicate Meets(e: Entry, h: nat, s: nat) { !(End64(e) <= h || HideEnd(h, s) <= e.addr) }

  /** What one entry becomes; None when the function gives up. */
  function EditOne(e: Entry, h: nat, s: nat): Option<seq<Entry>> {
    if !Meets(e, h, s) then Some([e])
    else if e.typ != AVAILABLE || HideEnd(h, s) > End64(e) then None
    else
      Some([Entry(e.size, e.addr, (h - e.addr) % TWO_64, e.typ), Entry(e.size, h, s, RESERVED)]
           + if HideEnd(h, s) < End64(e)
             then [Entry(e.size, HideEnd(h, s), End64(e) - HideEnd(h, s), e.typ)] else [])
  }

  function Edit(es: seq<Entry>, h: nat, s: nat): Option<seq<Entry>> {
    if es == [] then Some([])
    else
      var before := Edit(es[..|es| - 1], h, s);
      var last := EditOne(es[|es| - 1], h, s);
      if before.None? || last.None? then None else Some(before.value + last.value)
  }

  /** The hidden range is not empty and does not wrap. */
  ghost predicate ValidRange(h: nat, s: nat) { 0 < s && h + s < TWO_32 }

  predicate Contains(e: Entry, h: nat, s: nat) { e.typ == AVAILABLE && e.addr <= h && h + s <= End(e) }

  /** The map the caller wants: hidden addresses reserved, all others as they were. */
  ghost predicate Hides(es: seq<Entry>, out: seq<Entry>, h: nat, s: nat) {
    forall x: nat :: TypeAt(out, x) == if h <= x < h + s then Some(RESERVED) else TypeAt(es, x)
  }

  // ----- the edit of one entry

  lemma MeetsPlainly(e: Entry, h: nat, s: nat)
    requires ValidRange(h, s) && InWidth(e)
    ensures HideEnd(h, s) == h + s && End64(e) == End(e)
    ensures Meets(e, h, s) <==> h < End(e) && e.addr < h + s
  {
  }

  /** An entry that contains the range is cut into pieces that say the same outside it. */
  lemma PiecesMeaning(e: Entry, h: nat, s: nat, x: nat)
    requires ValidRange(h, s) && InWidth(e) && Contains(e, h, s)
    ensures EditOne(e, h, s).Some? && 2 <= |EditOne(e, h, s).value| <= 3
    ensures TypeAt(EditOne(e, h, s).value, x)
            == if h <= x < h + s then Some(RESERVED) else TypeAt([e], x)
    ensures TotalLength(EditOne(e, h, s).value) == e.len
  {
    MeetsPlainly(e, h, s);
    var below, hidden := Entry(e.size, e.addr, h - e.addr, AVAILABLE), Entry(e.size, h, s, RESERVED);
    var above := if h + s < End(e) then [Entry(e.size, h + s, End(e) - (h + s), AVAILABLE)] else [];
    assert EditOne(e, h, s).value == [below] + ([hidden] + above);
    TypeOfConcat([below], [hidden] + above, x);
    TypeOfConcat([hidden], above, x);
    LengthOfConcat([below], [hidden] + above);
    LengthOfConcat([hidden], above);
    SingleEntry(e, x);
    SingleEntry(below, x);
    SingleEntry(hidden, x);
    if above != [] {
      SingleEntry(above[0], x);
    }
  }

  /** Every piece lies inside the entry. */
  lemma PiecesInside(e: Entry, h: nat, s: nat)
    requires ValidRange(h, s) && InWidth(e) && (Meets(e, h, s) ==> e.addr <= h) && EditOne(e, h, s).Some?
    ensures ValidMap(EditOne(e, h, s).value)
    ensures forall p :: p in EditOne(e, h, s).value ==> e.addr <= p.addr && End(p) <= End(e)
    ensures Meets(e, h, s) ==> Contains(e, h, s)
  {
    MeetsPlainly(e, h, s);
  }

  // ----- the edit of a map

  /** Entries that do not meet the range are copied. */
  lemma {:induction false} CopiedEntries(es: seq<Entry>, h: nat, s: nat)
    requires forall i :: 0 <= i < |es| ==> !Meets(es[i], h, s)
    ensures Edit(es, h, s) == Some(es)
  {
    if es != [] {
      CopiedEntries(es[..|es| - 1], h, s);
      assert es == es[..|es| - 1] + [es[|es| - 1]];
    }
  }

  lemma {:induction false} EditConcat(es: seq<Entry>, fs: seq<Entry>, h: nat, s: nat)
    ensures var a, b := Edit(es, h, s), Edit(fs, h, s);
            Edit(es + fs, h, s) == if a.None? || b.None? then None else Some(a.value + b.value)
    decreases |fs|
  {
    hide EditOne;
    if fs == [] {
      assert es + fs == es;
      assert Edit(es, h, s).Some? ==> Edit(es, h, s).value + [] == Edit(es, h, s).value;
    } else {
      var n := |fs| - 1;
      assert (es + fs)[..|es + fs| - 1] == es + fs[..n];
      EditConcat(es, fs[..n], h, s);
      if Edit(es, h, s).Some? && Edit(fs, h, s).Some? {
        var a, b, c := Edit(es, h, s).value, Edit(fs[..n], h, s).value, EditOne(fs[n], h, s).value;
        assert a + (b + c) == (a + b) + c;
      }
    }
  }

  /** In a valid map at most one entry of those that meet the range contains its end. */
  lemma OthersUntouched(es: seq<Entry>, k: nat, h: nat, s: nat)
    requires ValidMap(es) && ValidRange(h, s) && k < |es| && Contains(es[k], h, s)
    ensures forall i :: 0 <= i < |es| && i != k ==> !Meets(es[i], h, s)
    ensures Meets(es[k], h, s)
  {
    hide Meets;
    MeetsPlainly(es[k], h, s);
    forall i | 0 <= i < |es| && i != k ensures !Meets(es[i], h, s) {
      MeetsPlainly(es[i], h, s);
      if i < k {
        assert End(es[i]) <= es[k].addr;
      } else {
        assert End(es[k]) <= es[i].addr;
      }
    }
  }

  /** The edited map around the entry that contains the range. */
  lemma EditShape(es: seq<Entry>, k: nat, h: nat, s: nat)
    requires ValidMap(es) && ValidRange(h, s) && k < |es| && Contains(es[k], h, s)
    ensures EditOne(es[k], h, s).Some?
    ensures Edit(es, h, s) == Some(es[..k] + EditOne(es[k], h, s).value + es[k + 1..])
  {
    hide Edit, EditOne, Meets, Contains;
    OthersUntouched(es, k, h, s);
    assert EditOne(es[k], h, s).Some? by { PiecesMeaning(es[k], h, s, 0); }
    CopiedEntries(es[..k], h, s);
    CopiedEntries(es[k + 1..], h, s);
    EditSingle(es[k], h, s);
    EditConcat(es[..k], [es[k]], h, s);
    EditConcat(es[..k] + [es[k]], es[k + 1..], h, s);
    assert es == es[..k] + [es[k]] + es[k + 1..];
  }

  lemma EditSingle(e: Entry, h: nat, s: nat)
    ensures Edit([e], h, s) == EditOne(e, h, s)
  {
    hide EditOne;
    assert [e][..0] == [];
    if EditOne(e, h, s).Some? {
      assert [] + EditOne(e, h, s).value == EditOne(e, h, s).value;
    }
  }

  /** Map-edit meaning: hidden addresses become reserved, all others keep their type, the
      total length is conserved and at most two entries are added. */
  lemma EditMeaning(es: seq<Entry>, k: nat, h: nat, s: nat)
    requires ValidMap(es) && ValidRange(h, s) && k < |es| && Contains(es[k], h, s)
    ensures Edit(es, h, s).Some?
    ensures Hides(es, Edit(es, h, s).value, h, s)
    ensures TotalLength(Edit(es, h, s).value) == TotalLength(es)
    ensures |es| < |Edit(es, h, s).value| <= |es| + 2
  {
    hide EditOne;
    EditShape(es, k, h, s);
    var ps := EditOne(es[k], h, s).value;
    var out := es[..k] + ps + es[k + 1..];
    assert es == es[..k] + [es[k]] + es[k + 1..];
    forall x: nat
      ensures TypeAt(out, x) == if h <= x < h + s then Some(RESERVED) else TypeAt(es, x)
    {
      PiecesMeaning(es[k], h, s, x);
      TypeOfConcat(es[..k] + ps, es[k + 1..], x);
      TypeOfConcat(es[..k], ps, x);
      TypeOfConcat(es[..k] + [es[k]], es[k + 1..], x);
      TypeOfConcat(es[..k], [es[k]], x);
      if h <= x < h + s {
        assert TypeAt(es[..k], x) == None by {
          forall i | 0 <= i < k ensures !Covers(es[..k][i], x) {
            assert End(es[i]) <= es[k].addr;
          }
          TypeOfUncovered(es[..k], x);
        }
      }
    }
    PiecesMeaning(es[k], h, s, 0);
    LengthOfConcat(es[..k] + ps, es[k + 1..]);
    LengthOfConcat(es[..k], ps);
    LengthOfConcat(es[..k] + [es[k]], es[k + 1..]);
    LengthOfConcat(es[..k], [es[k]]);
    assert [es[k]][1..] == [];
  }

  /** Splitting the edit at entry `k`. */
  lemma EditAround(es: seq<Entry>, k: nat, h: nat, s: nat)
    requires k < |es| && Edit(es, h, s).Some?
    ensures Edit(es[..k], h, s).Some? && EditOne(es[k], h, s).Some? && Edit(es[k + 1..], h, s).Some?
    ensures Edit(es, h, s).value == Edit(es[..k], h, s).value + EditOne(es[k], h, s).value + Edit(es[k + 1..], h, s).value
  {
    hide EditOne;
    assert es == es[..k] + [es[k]] + es[k + 1..];
    EditConcat(es[..k] + [es[k]], es[k + 1..], h, s);
    EditConcat(es[..k], [es[k]], h, s);
    EditSingle(es[k], h, s);
  }

  /** The edit gives the wanted map exactly when one AVAILABLE entry contains the range.  A
      range no entry meets is reported as hidden though it was not; a range that begins
      below an entry it meets gets that entry a wrapped length. */
  lemma EditCorrectExactlyWhenContained(es: seq<Entry>, h: nat, s: nat)
    requires ValidMap(es) && ValidRange(h, s)
    ensures Edit(es, h, s).Some? && Hides(es, Edit(es, h, s).value, h, s)
            <==> exists k :: 0 <= k < |es| && Contains(es[k], h, s)
  {
    hide Edit, EditOne, Meets;
    if exists k :: 0 <= k < |es| && Contains(es[k], h, s) {
      var k :| 0 <= k < |es| && Contains(es[k], h, s);
      EditMeaning(es, k, h, s);
    } else if Edit(es, h, s).Some? {
      if forall i :: 0 <= i < |es| ==> !Meets(es[i], h, s) {
        CopiedEntries(es, h, s);
        forall i | 0 <= i < |es| ensures !Covers(es[i], h) {
          MeetsPlainly(es[i], h, s);
        }
        TypeOfUncovered(es, h);
        assert TypeAt(es, h) != Some(RESERVED);
      } else {
        var k :| 0 <= k < |es| && Meets(es[k], h, s);
        BelowIsWrong(es, k, h, s);
      }
    }
  }

  /** A range that no entry meets is reported as hidden, and has no type afterwards. */
  lemma UnmetRangeIsNotHidden()
    ensures var es := [Entry(SIZE_FIELD, 0x10_0000, 0x100_0000, AVAILABLE)];
            && ValidMap(es) && ValidRange(0x8000_0000, 0x1000) && Edit(es, 0x8000_0000, 0x1000) == Some(es)
            && TypeAt(es, 0x8000_0000) == None
  {
    var es := [Entry(SIZE_FIELD, 0x10_0000, 0x100_0000, AVAILABLE)];
    MeetsPlainly(es[0], 0x8000_0000, 0x1000);
    CopiedEntries(es, 0x8000_0000, 0x1000);
    TypeOfUncovered(es, 0x8000_0000);
  }

  /** A range that begins below its entry is reported as hidden, and the entry's first
      address, which is in it, is still offered. */
  lemma RangeFromBelowIsOffered()
    ensures var es := [Entry(SIZE_FIELD, 0x10_0000, 0x100_0000, AVAILABLE)];
            && ValidMap(es) && ValidRange(0x8_0000, 0x10_0000) && Edit(es, 0x8_0000, 0x10_0000).Some?
            && TypeAt(Edit(es, 0x8_0000, 0x10_0000).value, 0x10_0000) == Some(AVAILABLE)
  {
    var es := [Entry(SIZE_FIELD, 0x10_0000, 0x100_0000, AVAILABLE)];
    MeetsPlainly(es[0], 0x8_0000, 0x10_0000);
    EditSingle(es[0], 0x8_0000, 0x10_0000);
    BelowIsWrong(es, 0, 0x8_0000, 0x10_0000);
  }

  lemma BelowIsWrong(es: seq<Entry>, k: nat, h: nat, s: nat)
    requires ValidMap(es) && ValidRange(h, s) && Edit(es, h, s).Some?
    requires k < |es| && Meets(es[k], h, s) && !Contains(es[k], h, s)
    ensures h < es[k].addr < h + s && TypeAt(Edit(es, h, s).value, es[k].addr) == Some(AVAILABLE)
  {
    hide Edit;
    var x := es[k].addr;
    EditAround(es, k, h, s);
    MeetsPlainly(es[k], h, s);
    var pieces := EditOne(es[k], h, s).value;
    assert pieces[0].addr == x && Covers(pieces[0], x) && pieces[0].typ == AVAILABLE;
    forall i | 0 <= i < k ensures !Meets(es[i], h, s) && !Covers(es[i], x) {
      assert End(es[i]) <= x;
      if Meets(es[i], h, s) {
        MeetsPlainly(es[i], h, s);
        EditAround(es, i, h, s);
      }
    }
    CopiedEntries(es[..k], h, s);
    TypeOfUncovered(es[..k], x);
    TypeOfConcat(es[..k] + pieces, Edit(es[k + 1..], h, s).value, x);
    TypeOfConcat(es[..k], pieces, x);
  }

  // ----- what later users of the map rely on

  lemma ValidConcat(a: seq<Entry>, b: seq<Entry>)
    requires ValidMap(a) && ValidMap(b)
    requires forall p, q :: p in a && q in b ==> End(p) <= q.addr
    ensures ValidMap(a + b)
  {
    var c := a + b;
    forall i, j | 0 <= i < j < |c| ensures End(c[i]) <= c[j].addr {
      if i < |a| <= j {
        assert c[i] in a && c[j] in b;
      }
    }
  }

  /** After a success on a range that does not begin below an entry it meets, the map is
      valid and offers no address of the range. */
  lemma HiddenIsNotOffered(es: seq<Entry>, h: nat, s: nat)
    requires ValidMap(es) && ValidRange(h, s) && Edit(es, h, s).Some?
    requires forall i :: 0 <= i < |es| && Meets(es[i], h, s) ==> es[i].addr <= h
    ensures ValidMap(Edit(es, h, s).value)
    ensures forall x :: h <= x < h + s ==> TypeAt(Edit(es, h, s).value, x) != Some(AVAILABLE)
  {
    hide Edit, EditOne, Meets;
    if forall i :: 0 <= i < |es| ==> !Meets(es[i], h, s) {
      CopiedEntries(es, h, s);
      forall x | h <= x < h + s ensures TypeAt(es, x) == None {
        forall i | 0 <= i < |es| ensures !Covers(es[i], x) {
          MeetsPlainly(es[i], h, s);
        }
        TypeOfUncovered(es, x);
      }
    } else {
      var k :| 0 <= k < |es| && Meets(es[k], h, s);
      EditAround(es, k, h, s);
      PiecesInside(es[k], h, s);
      EditMeaning(es, k, h, s);
      EditedValid(es, k, h, s);
    }
  }

  lemma EditedValid(es: seq<Entry>, k: nat, h: nat, s: nat)
    requires ValidMap(es) && ValidRange(h, s) && k < |es| && Contains(es[k], h, s)
    ensures Edit(es, h, s).Some? && ValidMap(Edit(es, h, s).value)
  {
    hide Edit, EditOne, Meets;
    EditShape(es, k, h, s);
    PiecesInside(es[k], h, s);
    var front, pieces, back := es[..k], EditOne(es[k], h, s).value, es[k + 1..];
    forall p, q | p in front && q in pieces ensures End(p) <= q.addr {
      assert End(p) <= es[k].addr;
    }
    ValidConcat(front, pieces);
    forall p, q | p in front + pieces && q in back ensures End(p) <= q.addr {
      assert End(p) <= End(es[k]) || p in front;
      assert End(es[k]) <= q.addr;
    }
    ValidConcat(front + pieces, back);
  }

  // ----- room for the result

  lemma PiecesCount(e: Entry, h: nat, s: nat)
    requires EditOne(e, h, s).Some?
    ensures 1 <= |EditOne(e, h, s).value| <= 3
    ensures !Meets(e, h, s) ==> EditOne(e, h, s).value == [e]
    ensures Meets(e, h, s) ==> HideEnd(h, s) <= End64(e)
  {
    hide Meets, HideEnd, End64;
  }

  lemma PiecesStorable(e: Entry, h: nat, s: nat)
    requires EditOne(e, h, s).Some? && InWidth(e) && ValidRange(h, s)
    ensures forall p :: p in EditOne(e, h, s).value ==> Storable(p)
    ensures Meets(e, h, s) ==> h + s <= End(e)
  {
    MeetsPlainly(e, h, s);
    hide Meets, HideEnd, End64;
    LengthInWidth(h - e.addr);
  }

  lemma LengthInWidth(x: int)
    ensures 0 <= x % TWO_64 < TWO_64
  {
  }

  /** At most two entries are added, and once they have been no entry meets the range. */
  lemma {:induction false} EditGrowth(es: seq<Entry>, h: nat, s: nat)
    requires ValidMap(es) && ValidRange(h, s) && Edit(es, h, s).Some?
    ensures |Edit(es, h, s).value| <= |es| + 2
    ensures |Edit(es, h, s).value| > |es| ==> exists i :: 0 <= i < |es| && h + s <= End(es[i])
    ensures forall i :: 0 <= i < |Edit(es, h, s).value| ==> Storable(Edit(es, h, s).value[i])
  {
    hide EditOne, Meets;
    if es != [] {
      var n := |es| - 1;
      EditGrowth(es[..n], h, s);
      PiecesCount(es[n], h, s);
      PiecesStorable(es[n], h, s);
      if |Edit(es[..n], h, s).value| > n {
        var i :| 0 <= i < n && h + s <= End(es[..n][i]);
        assert End(es[i]) <= es[n].addr;
        MeetsPlainly(es[n], h, s);
      } else if Meets(es[n], h, s) {
        assert h + s <= End(es[n]);
      }
    }
  }
}
