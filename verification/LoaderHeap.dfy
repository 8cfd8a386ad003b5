/** The loader's bump allocator.  Its counters are 32-bit and its bound checks may wrap;
    `Next` follows them exactly, and the results say where wrapping matters. */
module LoaderHeap {
  import opened Words
  import opened Bytes

  datatype Heap = Heap(base: nat, current: nat, tops: nat)

  /** A request to allocate_memory or to mon_page_alloc. */
  datatype Request = ByteRequest(size: nat) | PageRequest(pages: nat)

  datatype Block = Block(addr: nat, len: nat)

  ghost predicate ValidHeap(h: Heap) {
    0 < h.base <= h.current <= h.tops < TWO_32
  }

  ghost predicate ValidRequest(r: Request) {
    match r
    case ByteRequest(size) => size < TWO_32
    case PageRequest(pages) => pages < TWO_32
  }

  function Length(r: Request): nat {
    match r
    case ByteRequest(size) => size
    case PageRequest(pages) => pages * PAGE
  }

  /** ALIGN_FORWARD to a page, in 32 bits. */
  function AlignForward(x: nat): nat {
    (x + PAGE - 1) % TWO_32 / PAGE * PAGE
  }

  lemma AlignFacts(x: nat)
    requires x < TWO_32
    ensures AlignForward(x) % PAGE == 0
    ensures x + PAGE - 1 < TWO_32 ==> x <= AlignForward(x) < x + PAGE
    ensures x + PAGE - 1 >= TWO_32 ==> AlignForward(x) == 0
  {
  }

  lemma AlignedAlready(x: nat)
    requires x % PAGE == 0 && x + PAGE <= TWO_32
    ensures AlignForward(x) == x
  {
    assert x + PAGE - 1 == x / PAGE * PAGE + (PAGE - 1);
    Remainder(x / PAGE, PAGE - 1, PAGE);
  }

  lemma MorePages(x: nat, n: nat)
    requires x % PAGE == 0
    ensures (x + n * PAGE) % PAGE == 0
  {
    DropMultiple(x, n, PAGE);
  }

  function Start(h: Heap, r: Request): nat {
    if r.PageRequest? then AlignForward(h.current) else h.current
  }

  /** The heap after a request and the address returned, 0 for a refusal. */
  function Next(h: Heap, r: Request): (Heap, nat) {
    var end := (Start(h, r) + Length(r) % TWO_32) % TWO_32;
    if end > h.tops then (h, 0) else (h.(current := end), Start(h, r))
  }

  predicate Granted(h: Heap, r: Request) {
    (Start(h, r) + Length(r) % TWO_32) % TWO_32 <= h.tops
  }

  /** No intermediate sum of the request leaves 32 bits. */
  ghost predicate NoWrap(h: Heap, r: Request) {
    && (r.PageRequest? ==> h.current + PAGE - 1 < TWO_32)
    && Start(h, r) + Length(r) < TWO_32
  }

  /** A granted block lies in the free part of the heap exactly when nothing wrapped. */
  lemma GrantedInsideExactlyWhenNoWrap(h: Heap, r: Request)
    requires ValidHeap(h) && ValidRequest(r) && Granted(h, r)
    ensures NoWrap(h, r) <==> h.current <= Next(h, r).1 && Next(h, r).1 + Length(r) <= h.tops
  {
    AlignFacts(h.current);
    if NoWrap(h, r) {
      GrantFacts(h, r);
    }
  }

  /** The wrap is reachable: a request of nearly 4 GB succeeds in a one-page heap. */
  lemma WrappedRequestIsGranted()
    ensures var h := Heap(0x20_0000, 0x20_0000, 0x20_1000);
            ValidHeap(h) && Granted(h, ByteRequest(0xFFF0_0000)) && Next(h, ByteRequest(0xFFF0_0000)).0.current < h.base
  {
  }

  /** What one request does when nothing wraps. */
  lemma GrantFacts(h: Heap, r: Request)
    requires ValidHeap(h) && NoWrap(h, r)
    ensures Granted(h, r) <==> Start(h, r) + Length(r) <= h.tops
    ensures !Granted(h, r) ==> Next(h, r) == (h, 0)
    ensures Granted(h, r) ==>
              && h.current <= Start(h, r) < h.current + PAGE
              && Next(h, r) == (h.(current := Start(h, r) + Length(r)), Start(h, r))
              && ValidHeap(Next(h, r).0)
    ensures r.PageRequest? ==> Start(h, r) % PAGE == 0
  {
    AlignFacts(h.current);
    assert Length(r) % TWO_32 == Length(r);
    assert (Start(h, r) + Length(r)) % TWO_32 == Start(h, r) + Length(r);
  }

  // ----- sequences of requests

  /** The blocks granted by a sequence of requests, oldest first. */
  function Serve(h: Heap, rs: seq<Request>): seq<Block>
    decreases |rs|
  {
    if rs == [] then []
    else (if Granted(h, rs[0]) then [Block(Start(h, rs[0]), Length(rs[0]))] else [])
         + Serve(Next(h, rs[0]).0, rs[1..])
  }

  ghost predicate NoWraps(h: Heap, rs: seq<Request>)
    decreases |rs|
  {
    rs == [] || (NoWrap(h, rs[0]) && NoWraps(Next(h, rs[0]).0, rs[1..]))
  }

  predicate Disjoint(a: Block, b: Block) { Apart(a.addr, a.len, b.addr, b.len) }

  ghost predicate DisjointWithin(bs: seq<Block>, lo: nat, hi: nat) {
    && (forall i :: 0 <= i < |bs| ==> lo <= bs[i].addr && bs[i].addr + bs[i].len <= hi)
    && (forall i, j :: 0 <= i < j < |bs| ==> Disjoint(bs[i], bs[j]))
  }

  lemma DisjointCons(b: Block, bs: seq<Block>, lo: nat, mid: nat, hi: nat)
    requires lo <= b.addr && b.addr + b.len <= mid <= hi && DisjointWithin(bs, mid, hi)
    ensures DisjointWithin([b] + bs, lo, hi)
  {
  }

  /** Whatever is asked for, in whatever order, the blocks handed out are pairwise disjoint
      and inside the heap. */
  lemma {:induction false} ServedDisjoint(h: Heap, rs: seq<Request>)
    requires ValidHeap(h) && NoWraps(h, rs)
    ensures DisjointWithin(Serve(h, rs), h.current, h.tops)
    decreases |rs|
  {
    if rs != [] {
      var next := Next(h, rs[0]).0;
      var rest := Serve(next, rs[1..]);
      GrantFacts(h, rs[0]);
      ServedDisjoint(next, rs[1..]);
      if Granted(h, rs[0]) {
        DisjointCons(Block(Start(h, rs[0]), Length(rs[0])), rest, h.current, next.current, h.tops);
      } else {
        assert Serve(h, rs) == rest;
      }
    }
  }

  /** All requests of a sequence are granted. */
  ghost predicate AllGranted(h: Heap, rs: seq<Request>)
    decreases |rs|
  {
    rs == [] || (Granted(h, rs[0]) && AllGranted(Next(h, rs[0]).0, rs[1..]))
  }

  function TotalPages(rs: seq<Request>): nat {
    if rs == [] then 0
    else (if rs[0].PageRequest? then rs[0].pages else 0) + TotalPages(rs[1..])
  }

  /** From a page-aligned heap, page requests all succeed exactly when they fit together. */
  lemma {:induction false} PagesFit(h: Heap, rs: seq<Request>)
    requires ValidHeap(h) && h.current % PAGE == 0
    requires forall i :: 0 <= i < |rs| ==> rs[i].PageRequest? && h.tops + (rs[i].pages + 1) * PAGE <= TWO_32
    ensures AllGranted(h, rs) <==> h.current + TotalPages(rs) * PAGE <= h.tops
    ensures AllGranted(h, rs) ==> NoWraps(h, rs)
    decreases |rs|
  {
    hide Granted, Next, AlignForward;
    if rs != [] {
      assert h.tops + (rs[0].pages + 1) * PAGE <= TWO_32;
      AlignedAlready(h.current);
      GrantFacts(h, rs[0]);
      if Granted(h, rs[0]) {
        MorePages(h.current, rs[0].pages);
        PagesFit(Next(h, rs[0]).0, rs[1..]);
      }
    }
  }

  // ----- the allocator in memory

  /** The memory after a run of grants: each block is zeroed. */
  function Zeroed(m: seq<byte>, bs: seq<Block>): (r: seq<byte>)
    requires forall i :: 0 <= i < |bs| ==> bs[i].addr + bs[i].len <= |m|
    ensures |r| == |m|
    decreases |bs|
  {
    if bs == [] then m else Zeroed(Splice(m, bs[0].addr, Zeros(bs[0].len)), bs[1..])
  }

  /** Later grants leave alone every block handed out before them. */
  lemma {:induction false} EarlierBlockKept(m: seq<byte>, b: Block, bs: seq<Block>)
    requires b.addr + b.len <= |m|
    requires forall i :: 0 <= i < |bs| ==> bs[i].addr + bs[i].len <= |m| && Disjoint(b, bs[i])
    ensures Zeroed(m, bs)[b.addr..b.addr + b.len] == m[b.addr..b.addr + b.len]
    decreases |bs|
  {
    if bs != [] {
      var m' := Splice(m, bs[0].addr, Zeros(bs[0].len));
      assert m'[b.addr..b.addr + b.len] == m[b.addr..b.addr + b.len];
      EarlierBlockKept(m', b, bs[1..]);
    }
  }

  /** After any run of grants every block handed out is still zero. */
  lemma {:induction false} GrantedBlocksZero(m: seq<byte>, bs: seq<Block>, lo: nat, hi: nat, i: nat)
    requires DisjointWithin(bs, lo, hi) && hi <= |m| && i < |bs|
    ensures Zeroed(m, bs)[bs[i].addr..bs[i].addr + bs[i].len] == Zeros(bs[i].len)
    decreases |bs|
  {
    hide Splice;
    var m' := Splice(m, bs[0].addr, Zeros(bs[0].len));
    if i == 0 {
      EarlierBlockKept(m', bs[0], bs[1..]);
    } else {
      GrantedBlocksZero(m', bs[1..], lo, hi, i - 1);
    }
  }

  class MemoryManager {
    var heapBase: nat
    var heapCurrent: nat
    var heapTops: nat
    const mem: array<byte>

    function View(): Heap
      reads this
    {
      Heap(heapBase, heapCurrent, heapTops)
    }

    ghost predicate Valid()
      reads this
    {
      ValidHeap(View()) && heapTops <= mem.Length
    }

    /** initialize_memory_manager */
    constructor (mem: array<byte>, base: nat, size: nat)
      requires 0 < base && base + size < TWO_32 && base + size <= mem.Length
      ensures Valid() && View() == Heap(base, base, base + size) && this.mem == mem
    {
      this.mem := mem;
      heapBase, heapCurrent, heapTops := base, base, (base + size) % TWO_32;
    }

    /** allocate_memory.  A request that wraps is followed as far as the counters go; nothing
        is promised of the memory it clears. */
    method AllocateMemory(size: nat) returns (address: nat)
      requires Valid() && ValidRequest(ByteRequest(size))
      modifies this, mem
      ensures (View(), address) == Next(old(View()), ByteRequest(size))
      ensures address == 0 <==> !Granted(old(View()), ByteRequest(size))
      ensures address == 0 ==> Valid() && mem[..] == old(mem[..])
      ensures address != 0 && NoWrap(old(View()), ByteRequest(size)) ==>
                Valid() && address + size <= mem.Length && mem[..] == Splice(old(mem[..]), address, Zeros(size))
    {
      hide Splice, Zeros;
      Unwrapped(size);
      if NoWrap(View(), ByteRequest(size)) {
        GrantFacts(View(), ByteRequest(size));
      }
      if (heapCurrent + size) % TWO_32 > heapTops {
        return 0;
      }
      address := heapCurrent;
      heapCurrent := (heapCurrent + size) % TWO_32;
      if address + size <= mem.Length {
        ZeroFill(mem, address, size);
      }
    }

    /** mon_page_alloc, likewise. */
    method PageAlloc(pages: nat) returns (address: nat)
      requires Valid() && ValidRequest(PageRequest(pages))
      modifies this, mem
      ensures (View(), address) == Next(old(View()), PageRequest(pages))
      ensures !Granted(old(View()), PageRequest(pages)) ==> address == 0 && Valid() && mem[..] == old(mem[..])
      ensures Granted(old(View()), PageRequest(pages)) && NoWrap(old(View()), PageRequest(pages)) ==>
                && address != 0 && Valid()
                && address % PAGE == 0 && address + pages * PAGE <= mem.Length
                && mem[..] == Splice(old(mem[..]), address, Zeros(pages * PAGE))
    {
      hide AlignForward, Splice, Zeros;
      if NoWrap(View(), PageRequest(pages)) {
        GrantFacts(View(), PageRequest(pages));
      }
      var size := pages * PAGE % TWO_32;
      address := AlignForward(heapCurrent);
      if (address + size) % TWO_32 > heapTops {
        return 0;
      }
      heapCurrent := (address + size) % TWO_32;
      if address + size <= mem.Length {
        ZeroFill(mem, address, size);
      }
    }
  }
}
