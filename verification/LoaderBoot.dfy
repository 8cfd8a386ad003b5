/** The loader's own use of its heap, and what it means for the processors it starts. */
module LoaderBoot {
  import opened Words
  import opened Bytes
  import opened LoaderHeap
  import L = Layout
  import P = ApProtocol
  import T = ApTheorems
  import W = PageWalk
  import G = Paging

  /** Tops of the stacks of `count` APs when the first begins at `start`. */
  function StackTops(start: nat, count: nat): (r: seq<nat>)
    ensures |r| == count && forall k :: 0 <= k < count ==> r[k] == start + (k + 1) * T.STACK_SIZE
  {
    seq(count, k => start + (k + 1) * T.STACK_SIZE)
  }

  /** The loop of xmon_loader that gives every AP two pages and stores their end. */
  method AllocateStacks(heap: MemoryManager, count: nat, esp: array<nat>) returns (ok: bool)
    requires heap.Valid() && heap.heapTops + 3 * PAGE < TWO_32 && count <= esp.Length
    requires heap.heapCurrent % PAGE == 0
    modifies heap, heap.mem, esp
    ensures heap.Valid() && heap.heapTops == old(heap.heapTops)
    ensures ok <==> old(heap.heapCurrent) + count * T.STACK_SIZE <= heap.heapTops
    ensures ok ==> esp[..count] == StackTops(old(heap.heapCurrent), count)
    ensures ok ==> heap.heapCurrent == old(heap.heapCurrent) + count * T.STACK_SIZE
    ensures SameOutside(old(heap.mem[..]), heap.mem[..], old(heap.heapCurrent), heap.heapTops)
  {
    hide Splice, SameOutside;
    NothingChanged(heap.mem[..], heap.heapCurrent, heap.heapTops);
    for i := 0 to count
      invariant heap.Valid() && heap.heapTops == old(heap.heapTops) && heap.heapCurrent % PAGE == 0
      invariant heap.heapCurrent == old(heap.heapCurrent) + i * T.STACK_SIZE <= heap.heapTops
      invariant forall k :: 0 <= k < i ==> esp[k] == old(heap.heapCurrent) + (k + 1) * T.STACK_SIZE
      invariant SameOutside(old(heap.mem[..]), heap.mem[..], old(heap.heapCurrent), heap.heapTops)
    {
      ghost var before, from := heap.mem[..], heap.heapCurrent;
      var buf := TakePages(heap, 2);
      OutsideTwice(old(heap.mem[..]), before, heap.mem[..], old(heap.heapCurrent), heap.heapTops, from, heap.heapTops);
      if buf == 0 {
        return false;
      }
      esp[i] := buf + 2 * PAGE;
    }
    ok := true;
    assert esp[..count] == StackTops(old(heap.heapCurrent), count);
  }

  /** One or two pages from a page-aligned heap. */
  method TakePages(heap: MemoryManager, pages: nat) returns (address: nat)
    requires heap.Valid() && heap.heapCurrent % PAGE == 0 && heap.heapTops + 3 * PAGE < TWO_32 && pages <= 2
    modifies heap, heap.mem
    ensures heap.Valid() && heap.heapTops == old(heap.heapTops)
    ensures address != 0 <==> old(heap.heapCurrent) + pages * PAGE <= heap.heapTops
    ensures address != 0 ==>
              address == old(heap.heapCurrent) && heap.heapCurrent == address + pages * PAGE && heap.heapCurrent % PAGE == 0
    ensures SameOutside(old(heap.mem[..]), heap.mem[..], old(heap.heapCurrent), heap.heapTops)
  {
    hide Next, Granted, AlignForward, Splice, SameOutside;
    NothingChanged(heap.mem[..], heap.heapCurrent, heap.heapTops);
    AlignedAlready(heap.heapCurrent);
    GrantFacts(heap.View(), PageRequest(pages));
    MorePages(heap.heapCurrent, pages);
    ghost var before := heap.mem[..];
    address := heap.PageAlloc(pages);
    if address != 0 {
      SpliceOutside(before, address, Zeros(pages * PAGE), address, heap.heapTops);
    }
  }

  /** The loader's allocations in the order xmon_loader makes them: a page for the e820
      table, the AP stacks, a page for the GDT, and the page tables. */
  method SetupMemory(heap: MemoryManager, aps: nat, esp: array<nat>) returns (ok: bool, cr3: nat)
    requires heap.Valid() && heap.heapCurrent % PAGE == 0 && heap.heapTops + 3 * PAGE < TWO_32 && aps <= esp.Length
    modifies heap, heap.mem, esp
    ensures ok <==> old(heap.heapCurrent) + (8 + 2 * aps) * PAGE <= old(heap.heapTops)
    ensures ok ==> esp[..aps] == StackTops(old(heap.heapCurrent) + PAGE, aps)
    ensures ok ==> forall x :: 0 <= x < TWO_32 ==> W.Walk(heap.mem[..], cr3, x) == W.Physical(x, W.Access(true, false, false, false))
    ensures ok ==> forall x :: TWO_32 <= x < W.TWO_47 ==> W.Walk(heap.mem[..], cr3, x) == W.Fault
    ensures ok ==> SameOutside(old(heap.mem[..]), heap.mem[..], old(heap.heapCurrent), old(heap.heapTops))
  {
    hide AlignForward, W.Walk, StackTops, SameOutside;
    ghost var m0, low, top := heap.mem[..], heap.heapCurrent, heap.heapTops;
    ok, cr3 := false, 0;
    var e820 := TakePages(heap, 1);
    if e820 == 0 {
      return;
    }
    ghost var m1 := heap.mem[..];
    ok := AllocateStacks(heap, aps, esp);
    if !ok {
      return;
    }
    ghost var m2 := heap.mem[..];
    OutsideTwice(m0, m1, m2, low, top, low + PAGE, top);
    var gdt := TakePages(heap, 1);
    if gdt == 0 {
      ok := false;
      return;
    }
    ghost var m3 := heap.mem[..];
    ghost var stacked := low + PAGE + aps * T.STACK_SIZE;
    OutsideTwice(m0, m2, m3, low, top, stacked, top);
    AlignedAlready(heap.heapCurrent);
    ok, cr3 := G.SetupPaging(heap);
    if ok {
      OutsideTwice(m0, m3, heap.mem[..], low, top, stacked + PAGE, top);
    }
  }

  // ----- the budget

  /** The loader's page requests in order: the e820 table, two pages for each AP, the GDT,
      and six page tables. */
  function Requests(aps: nat): seq<Request> {
    [PageRequest(1)] + Twos(aps) + [PageRequest(1)] + Ones(6)
  }

  function Twos(n: nat): seq<Request> { if n == 0 then [] else [PageRequest(2)] + Twos(n - 1) }

  function Ones(n: nat): seq<Request> { if n == 0 then [] else [PageRequest(1)] + Ones(n - 1) }

  lemma {:induction false} PagesOfConcat(a: seq<Request>, b: seq<Request>)
    ensures TotalPages(a + b) == TotalPages(a) + TotalPages(b)
    decreases |a|
  {
    if a == [] {
      assert a + b == b;
    } else {
      assert (a + b)[1..] == a[1..] + b;
      PagesOfConcat(a[1..], b);
    }
  }

  lemma {:induction false} PagesOfTwos(n: nat)
    ensures TotalPages(Twos(n)) == 2 * n && forall i :: 0 <= i < |Twos(n)| ==> Twos(n)[i] == PageRequest(2)
  {
    if n > 0 {
      PagesOfTwos(n - 1);
      assert Twos(n)[1..] == Twos(n - 1);
    }
  }

  lemma {:induction false} PagesOfOnes(n: nat)
    ensures TotalPages(Ones(n)) == n && forall i :: 0 <= i < |Ones(n)| ==> Ones(n)[i] == PageRequest(1)
  {
    if n > 0 {
      PagesOfOnes(n - 1);
      assert Ones(n)[1..] == Ones(n - 1);
    }
  }

  lemma PagesOfRequests(aps: nat)
    ensures TotalPages(Requests(aps)) == 8 + 2 * aps
    ensures forall i :: 0 <= i < |Requests(aps)| ==> Requests(aps)[i].PageRequest? && Requests(aps)[i].pages <= 2
  {
    hide Twos, Ones;
    PagesOfTwos(aps);
    PagesOfOnes(6);
    var one := [PageRequest(1)];
    assert TotalPages(one) == 1 by { assert one[1..] == []; }
    PagesOfConcat(one + Twos(aps) + one, Ones(6));
    PagesOfConcat(one + Twos(aps), one);
    PagesOfConcat(one, Twos(aps));
  }

  function LoaderHeapOf(d: L.Descriptor): Heap {
    Heap(L.HeapBase(d), L.HeapBase(d), L.HeapBase(d) + L.HEAP_SIZE)
  }

  /** All the loader's allocations succeed exactly when they come to 160 pages at most. */
  lemma HeapBudget(d: L.Descriptor, aps: nat)
    requires L.Fits(d)
    ensures AllGranted(LoaderHeapOf(d), Requests(aps)) <==> 8 + 2 * aps <= 160
    ensures AllGranted(LoaderHeapOf(d), Requests(aps)) ==>
              DisjointWithin(Serve(LoaderHeapOf(d), Requests(aps)), L.HeapBase(d), L.StartapBase(d))
  {
    hide Requests, L.LoaderBase, L.HeapBase, L.StartapBase, L.XmonSize, L.HiddenSize, L.XmonBase;
    L.LayoutOrdered(d);
    PagesOfRequests(aps);
    PagesFit(LoaderHeapOf(d), Requests(aps));
    if AllGranted(LoaderHeapOf(d), Requests(aps)) {
      ServedDisjoint(LoaderHeapOf(d), Requests(aps));
    }
  }

  // ----- the stacks the APs end up on

  /** After the e820 page, the AP stacks fill the heap upwards. */
  lemma StacksInHeap(d: L.Descriptor, aps: nat)
    requires L.Fits(d) && 8 + 2 * aps <= 160
    ensures T.DisjointStacks(StackTops(L.HeapBase(d) + PAGE, aps), aps, L.HeapBase(d), L.StartapBase(d))
  {
    hide L.LoaderBase, L.HeapBase, L.StartapBase, L.XmonSize, L.HiddenSize, L.XmonBase;
    L.LayoutOrdered(d);
    var tops := StackTops(L.HeapBase(d) + PAGE, aps);
    forall k | 0 <= k < aps ensures L.HeapBase(d) + T.STACK_SIZE <= tops[k] <= L.StartapBase(d) {
      assert (k + 1) * T.STACK_SIZE <= aps * T.STACK_SIZE;
    }
    forall k, l | 0 <= k < l < aps ensures tops[k] + T.STACK_SIZE <= tops[l] {
      assert (k + 2) * T.STACK_SIZE <= (l + 1) * T.STACK_SIZE;
    }
  }

  /** In every interleaving of a boot that stays within the heap budget, APs past stage 2 run
      on stacks that are disjoint from each other and lie in the loader heap, and so apart
      from the images of startap and xmon above it. */
  lemma ApsRunOnHeapStacks(d: L.Descriptor, aps: nat, cfg: P.Config, s: P.State)
    requires L.Fits(d) && 8 + 2 * aps <= 160
    requires P.WellFormed(cfg) && cfg.timely && |cfg.responders| <= aps <= |cfg.stacks|
    requires cfg.stacks[..aps] == StackTops(L.HeapBase(d) + PAGE, aps)
    requires T.Reachable(cfg, s)
    ensures forall i :: 0 <= i < |s.aps| && T.OwnsStack(s.aps[i]) ==>
              L.HeapBase(d) + T.STACK_SIZE <= s.aps[i].esp <= L.StartapBase(d)
    ensures forall i, j :: 0 <= i < j < |s.aps| && T.OwnsStack(s.aps[i]) && T.OwnsStack(s.aps[j]) ==>
              s.aps[i].esp + T.STACK_SIZE <= s.aps[j].esp || s.aps[j].esp + T.STACK_SIZE <= s.aps[i].esp
  {
    hide L.HeapBase, L.StartapBase, P.WellFormed, T.Reachable;
    StacksInHeap(d, aps);
    var tops := StackTops(L.HeapBase(d) + PAGE, aps);
    assert forall k :: 0 <= k < aps ==> cfg.stacks[k] == cfg.stacks[..aps][k] == tops[k];
    T.StacksDisjoint(cfg, s, L.HeapBase(d), L.StartapBase(d));
  }
}
