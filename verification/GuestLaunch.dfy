/** From the load-time layout to the launch of Linux: what is hidden is where startap and
    xmon run, and the initrd is kept out of it. */
module GuestLaunch {
  import opened Words
  import opened Bytes
  import L = Layout
  import M = MemoryMap
  import E = MapEdit
  import I = Initrd

  /** If the block of the descriptor lies in one AVAILABLE entry, hiding startap and xmon
      succeeds and reserves exactly their memory. */
  lemma XmonIsReserved(d: L.Descriptor, es: seq<M.Entry>, k: nat)
    requires L.Fits(d) && M.ValidMap(es) && k < |es|
    requires es[k].typ == M.AVAILABLE && es[k].addr <= d.td && L.Top(d) <= M.End(es[k])
    ensures E.Edit(es, L.StartapBase(d), L.HiddenSize(d)).Some?
    ensures forall x: nat :: M.TypeAt(E.Edit(es, L.StartapBase(d), L.HiddenSize(d)).value, x)
              == if L.StartapBase(d) <= x < L.Top(d) then Some(M.RESERVED) else M.TypeAt(es, x)
  {
    hide L.LoaderBase, L.HeapBase, L.StartapBase, L.XmonSize, L.HiddenSize, L.XmonBase, E.Edit;
    L.LayoutOrdered(d);
    E.EditMeaning(es, k, L.StartapBase(d), L.HiddenSize(d));
  }

  /** End to end: after such an edit, an initrd placed in the highest region, if that region
      has room on page boundaries and the place is not lowered, is in AVAILABLE memory apart
      from startap and from xmon. */
  lemma InitrdAvoidsXmon(d: L.Descriptor, es: seq<M.Entry>, k: nat, hdr: I.SetupHeader, size: nat, e: M.Entry)
    requires L.Fits(d) && M.ValidMap(es) && k < |es|
    requires es[k].typ == M.AVAILABLE && es[k].addr <= d.td && L.Top(d) <= M.End(es[k])
    requires 0 < size
    requires var out := E.Edit(es, L.StartapBase(d), L.HiddenSize(d));
             && out.Some? && I.Chosen(out.value, e, size) && I.InitrdPlace(out.value, hdr, size).Some?
    requires I.PageUp(e.addr) + size <= M.End(e)
    requires !I.Lowered(I.TopPlace(e.addr, e.len, size), size, hdr.initrdAddrMax)
    ensures var place := I.InitrdPlace(E.Edit(es, L.StartapBase(d), L.HiddenSize(d)).value, hdr, size).value;
            && e.typ == M.AVAILABLE && e.addr <= place && place + size <= M.End(e)
            && Apart(place, size, L.StartapBase(d), L.STARTAP_SIZE)
            && Apart(place, size, L.XmonBase(d), L.XmonSize(d))
  {
    hide L.LoaderBase, L.HeapBase, L.StartapBase, L.XmonSize, L.HiddenSize, L.XmonBase, E.Edit, I.InitrdPlace, I.Chosen;
    L.LayoutOrdered(d);
    var h, s := L.StartapBase(d), L.HiddenSize(d);
    E.OthersUntouched(es, k, h, s);
    I.InitrdSafety(es, h, s, hdr, size, e);
  }
}
