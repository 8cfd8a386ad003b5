/** The words of a loaded image that depend on where it is loaded.  Each is a value of the
    image plus the relocation offset; nothing else depends on the place. */
module ElfPatches {
  import opened Words
  import opened Bytes
  import opened ElfFormat

  datatype Patch = Patch(at: nat, value: nat)

  ghost predicate PatchesIn(c: Class, ps: seq<Patch>, size: nat) {
    forall i :: 0 <= i < |ps| ==> ps[i].at + c.Word() <= size
  }

  ghost predicate PatchesApart(c: Class, ps: seq<Patch>) {
    forall i, j :: 0 <= i < j < |ps| ==> Apart(ps[i].at, c.Word(), ps[j].at, c.Word())
  }

  /** No patch touches the stretch. */
  ghost predicate Untouched(c: Class, ps: seq<Patch>, a: nat, n: nat) {
    forall i :: 0 <= i < |ps| ==> Apart(ps[i].at, c.Word(), a, n)
  }

  /** The window with every patch written for the offset `delta`. */
  function Patched(c: Class, m: seq<byte>, ps: seq<Patch>, delta: int): (r: seq<byte>)
    requires PatchesIn(c, ps, |m|)
    ensures |r| == |m|
  {
    if ps == [] then m
    else
      var p := ps[|ps| - 1];
      Put(Patched(c, m, ps[..|ps| - 1], delta), p.at, c.Word(), AddMod(c, p.value, delta))
  }

  lemma PatchedOne(c: Class, m: seq<byte>, ps: seq<Patch>, p: Patch, delta: int)
    requires PatchesIn(c, ps + [p], |m|)
    ensures PatchesIn(c, ps, |m|) && p.at + c.Word() <= |m|
    ensures Patched(c, m, ps + [p], delta) == Put(Patched(c, m, ps, delta), p.at, c.Word(), AddMod(c, p.value, delta))
  {
    var qs := ps + [p];
    assert qs[|ps|] == p;
    assert forall i :: 0 <= i < |ps| ==> qs[i] == ps[i];
    assert qs[..|ps|] == ps;
  }

  lemma {:induction false} PatchedAppend(c: Class, m: seq<byte>, ps: seq<Patch>, qs: seq<Patch>, delta: int)
    requires PatchesIn(c, ps, |m|) && PatchesIn(c, qs, |m|)
    ensures PatchesIn(c, ps + qs, |m|)
    ensures Patched(c, Patched(c, m, ps, delta), qs, delta) == Patched(c, m, ps + qs, delta)
  {
    assert forall i :: |ps| <= i < |ps + qs| ==> (ps + qs)[i] == qs[i - |ps|];
    if qs == [] {
      assert ps + qs == ps;
    } else {
      var n := |qs| - 1;
      PatchedAppend(c, m, ps, qs[..n], delta);
      assert ps + qs == (ps + qs[..n]) + [qs[n]];
      assert qs == qs[..n] + [qs[n]];
      PatchedOne(c, m, ps + qs[..n], qs[n], delta);
    }
  }

  lemma {:induction false} PatchedKeeps(c: Class, m: seq<byte>, ps: seq<Patch>, delta: int, a: nat, n: nat)
    requires PatchesIn(c, ps, |m|) && a + n <= |m| && Untouched(c, ps, a, n)
    ensures Patched(c, m, ps, delta)[a..a + n] == m[a..a + n]
  {
    hide LeBytes, AddMod;
    if ps != [] {
      var k := |ps| - 1;
      assert Apart(ps[k].at, c.Word(), a, n);
      PatchedKeeps(c, m, ps[..k], delta, a, n);
      var before := Patched(c, m, ps[..k], delta);
      assert Patched(c, m, ps, delta)[a..a + n] == before[a..a + n];
    }
  }

  /** Meaning of relocation: a patched word holds its value plus the offset. */
  lemma {:induction false} PatchedWord(c: Class, m: seq<byte>, ps: seq<Patch>, delta: int, i: nat)
    requires PatchesIn(c, ps, |m|) && PatchesApart(c, ps) && i < |ps|
    ensures Field(Patched(c, m, ps, delta), ps[i].at, c.Word()) == AddMod(c, ps[i].value, delta)
  {
    hide Field, AddMod, Put;
    var n := |ps| - 1;
    var before := Patched(c, m, ps[..n], delta);
    if i == n {
      WordModulus(c);
      PutField(before, ps[n].at, c.Word(), AddMod(c, ps[n].value, delta));
    } else {
      PatchedWord(c, m, ps[..n], delta, i);
      assert Apart(ps[i].at, c.Word(), ps[n].at, c.Word());
      PutElsewhere(before, ps[n].at, c.Word(), AddMod(c, ps[n].value, delta), ps[i].at, c.Word());
    }
  }

  lemma AddModShift(c: Class, v: nat, d: int, e: int)
    ensures AddMod(c, AddMod(c, v, d), e) == AddMod(c, v, d + e)
  {
    var m := c.Modulus();
    var q := (v + d) / m;
    assert AddMod(c, v, d) == v + d - q * m;
    DropMultiple(v + d + e, -q, m);
  }

  /** Two placements of the same patches, over any memories, differ in a patched word by
      their distance ... */
  lemma PlacedWords(c: Class, m: seq<byte>, m': seq<byte>, ps: seq<Patch>, delta: int, delta': int, i: nat)
    requires |m| == |m'| && PatchesIn(c, ps, |m|) && PatchesApart(c, ps) && i < |ps|
    ensures Field(Patched(c, m', ps, delta'), ps[i].at, c.Word())
            == AddMod(c, Field(Patched(c, m, ps, delta), ps[i].at, c.Word()), delta' - delta)
  {
    hide Field, Patched, AddMod;
    PatchedWord(c, m, ps, delta, i);
    PatchedWord(c, m', ps, delta', i);
    AddModShift(c, ps[i].value, delta, delta' - delta);
  }

  /** ... and leave every byte outside the patched words as it was. */
  lemma PlacedBytes(c: Class, m: seq<byte>, ps: seq<Patch>, delta: int, k: nat)
    requires PatchesIn(c, ps, |m|) && k < |m| && Untouched(c, ps, k, 1)
    ensures Patched(c, m, ps, delta)[k] == m[k]
  {
    hide Patched;
    PatchedKeeps(c, m, ps, delta, k, 1);
    assert m[k..k + 1][0] == m[k];
    assert Patched(c, m, ps, delta)[k..k + 1][0] == Patched(c, m, ps, delta)[k];
  }
}
