/** Heap safety: what one heap hook does to memory, and the blocks of a whole run. */
module Heap {
  import opened Words
  import opened GuestMemory
  import opened PageAlloc
  import opened VmState
  import opened Resolver
  import opened Relocation
  import opened Image
  import opened Runtime

  lemma HeapMapped(st: State, a: int, n: nat)
    requires Inv(st) && HEAP_ADDRESS <= a && a + n <= HEAP_ADDRESS + HEAP_SIZE
    ensures Mapped(st.mem, a, n)
  {
    assert Mapped(st.mem, HEAP_ADDRESS, HEAP_SIZE);
  }

  /** A heap hook writes its block's contents and leaves every other byte of memory alone. */
  lemma HeapStepMemory(st: State, ev: Event, n: U64)
    requires Inv(st) && NoWrap(st.heap, n) && |BlockContents(st.mem, ev)| <= n
    requires HeapStep(st, ev, n).Continue?
    ensures var (after, p) := HeapStep(st, ev, n).value;
            var contents := BlockContents(st.mem, ev);
            && Read(after.mem, p, |contents|) == Some(contents)
            && after.mem.Keys == st.mem.Keys
            && forall a | a in st.mem && !(p <= a < p + n) :: after.mem[a] == st.mem[a]
  {
    hide Inv, NoWrap, Grows, BlockContents;
    HeapStepKeepsInv(st, ev, n);
    var (after, p) := HeapStep(st, ev, n).value;
    HeapMapped(st, p, |BlockContents(st.mem, ev)|);
    ReadAfterWrite(st.mem, p, BlockContents(st.mem, ev));
  }

  /** `calloc` returns zeroed memory. */
  lemma CallocZeroes(st: State, num: U64, size: U64)
    requires Inv(st) && Allowed(st, Calloc(num, size)) && Step(st, Calloc(num, size)).Continue?
    ensures var (after, p) := Step(st, Calloc(num, size)).value;
            forall a | p <= a < p + num * size :: a in after.mem && after.mem[a] == 0
  {
    hide Inv, NoWrap, Grows, HeapStep;
    var ev := Calloc(num, size);
    var n := HeapRequest(ev).value;
    ContentsFit(st.mem, ev);
    HeapStepMemory(st, ev, n);
    var (after, p) := HeapStep(st, ev, n).value;
    ProductFits(num * size);
    forall a | p <= a < p + num * size
      ensures a in after.mem && after.mem[a] == 0
    {
      assert after.mem[a] == Slice(after.mem, p, num * size)[a - p];
    }
  }

  /** `realloc` reads only inside the heap, because the new block lies above
      the old one; the new block starts with the old one's bytes, and no other
      block changes. */
  lemma ReallocCopies(st: State, ptr: U64, size: U64, oldLength: nat)
    requires Inv(st) && Allowed(st, Realloc(ptr, size)) && Step(st, Realloc(ptr, size)).Continue?
    requires HEAP_ADDRESS <= ptr && ptr + oldLength <= HEAP_ADDRESS + st.heap.offset
    ensures var (after, p) := Step(st, Realloc(ptr, size)).value;
            && ptr + oldLength <= p
            && ptr + size <= HEAP_ADDRESS + HEAP_SIZE && Mapped(st.mem, ptr, size)
            && after.mem.Keys == st.mem.Keys
            && Read(after.mem, p, size) == Some(Slice(st.mem, ptr, size))
            && (forall a | a in st.mem && !(p <= a < p + size + 16) :: after.mem[a] == st.mem[a])
  {
    hide Inv, NoWrap, Grows, HeapStep;
    var ev := Realloc(ptr, size);
    var n := HeapRequest(ev).value;
    ContentsFit(st.mem, ev);
    HeapStepKeepsInv(st, ev, n);
    HeapStepMemory(st, ev, n);
    var (after, p) := HeapStep(st, ev, n).value;
    assert n == size + 16;
    HeapMapped(st, ptr, size);
    assert BlockContents(st.mem, ev) == Slice(st.mem, ptr, size);
  }

  // Exactly how much, and what ---------------------------------------------------------------------------

  /** What a hook asks the heap for: 16 bytes more than its block, 128 more for an exception. */
  function Asked(ev: Event): Option<nat> {
    match ev
    case Malloc(size) => Some(size + 16)
    case Calloc(num, size) => Some(num * size + 16)
    case Realloc(_, size) => Some(size + 16)
    case WriteBytes(data) => if data == [] then None else Some(|data| + 16)
    case AllocateException(size) => Some(size + 128)
    case HeapAllocate(size) => Some(size)
    case _ => None
  }

  /** Whole units of 64 bytes, at least one. */
  function InUnits(n: nat): nat {
    if n == 0 then 64 else (n + 63) / 64 * 64
  }

  /** A request for which no sum wraps, wherever in the heap it is made. */
  predicate Countable(n: nat) {
    n + 0x2000_0040 <= 0x1_0000_0000_0000_0000
  }

  /** Main result: a heap hook ends the process exactly when the heap's 512 MiB
      do not hold its request in units of 64 bytes; otherwise its block is the
      next one, and only the heap's pointer and the block's bytes change. */
  lemma HookTakes(st: State, ev: Event)
    requires Inv(st) && Asked(ev).Some? && Countable(Asked(ev).value)
    ensures Step(st, ev).Abort? <==> st.heap.offset + InUnits(Asked(ev).value) > 0x2000_0000
    ensures Step(st, ev).Continue? ==>
              var (after, p) := Step(st, ev).value;
              && p == 0x4800_0000 + st.heap.offset
              && after == st.(heap := after.heap, mem := after.mem)
              && after.heap == st.heap.(offset := st.heap.offset + InUnits(Asked(ev).value))
              && (ev.Malloc? || ev.AllocateException? || ev.HeapAllocate? ==> after.mem == st.mem)
              && forall a | a in st.mem && !(p <= a < p + Asked(ev).value) ::
                   a in after.mem && after.mem[a] == st.mem[a]
  {
    RequestIs(ev);
    var n := Asked(ev).value;
    HeapTakes(st.heap, n) by { HeapIn(st); }
    HeapIn(st);
    hide Inv, Alloc, InUnits, HeapOk;
    ContentsShort(st.mem, ev);
    hide BlockContents;
    if ev.Malloc? || ev.AllocateException? || ev.HeapAllocate? {
      NothingToWrite(st, ev);
    }
  }

  lemma HeapIn(st: State)
    requires Inv(st)
    ensures HeapOk(st.heap) && st.heap.offset <= HEAP_SIZE
  {
  }

  lemma RequestIs(ev: Event)
    requires Asked(ev).Some? && Countable(Asked(ev).value)
    ensures HeapRequest(ev) == Some(Asked(ev).value) && IsHeapEvent(ev)
  {
    if ev.Calloc? {
      NoneWraps(ev.num * ev.size);
    }
  }

  lemma NoneWraps(total: nat)
    requires Countable(total + 16)
    ensures Wrap(Wrap(total) + 16) == total + 16
  {
  }

  lemma ContentsShort(m: Mem, ev: Event)
    requires Asked(ev).Some? && Countable(Asked(ev).value)
    ensures |BlockContents(m, ev)| <= Asked(ev).value
  {
  }

  lemma NothingToWrite(st: State, ev: Event)
    requires ev.Malloc? || ev.AllocateException? || ev.HeapAllocate?
    ensures BlockContents(st.mem, ev) == [] && forall p: int :: Write(st.mem, p, []) == st.mem
  {
  }

  lemma HeapTakes(ar: Arena, n: nat)
    requires HeapOk(ar) && Countable(n)
    ensures Alloc(ar, n) ==
            if ar.offset + InUnits(n) > 0x2000_0000 then Abort
            else Continue(((0x4800_0000 + ar.offset) as U64, ar.(offset := ar.offset + InUnits(n))))
  {
    UnitsAreLeast(n);
    NothingWraps(ar, n);
    assert ValidArena(ar);
    hide ValidArena, NoWrap, LeastMultiple, Alloc, InUnits;
    AllocExact(ar, n, InUnits(n));
  }

  lemma NothingWraps(ar: Arena, n: nat)
    requires HeapOk(ar) && Countable(n)
    ensures NoWrap(ar, n)
  {
    AlignedSizeBounds(ar, n);
    TakenTight(ar, n);
    hide AlignedSize;
  }

  lemma UnitsAreLeast(n: nat)
    requires Countable(n)
    ensures LeastMultiple(64, n, InUnits(n))
  {
  }

  /** `write_bytes` stores its data at the start of its block, which lies in the heap. */
  lemma WriteBytesStores(st: State, data: seq<Byte>)
    requires Inv(st) && data != [] && Countable(|data| + 16) && Step(st, WriteBytes(data)).Continue?
    ensures var (after, p) := Step(st, WriteBytes(data)).value;
            forall i | 0 <= i < |data| :: p + i in after.mem && after.mem[p + i] == data[i]
  {
    HookTakes(st, WriteBytes(data));
    var (after, p) := Step(st, WriteBytes(data)).value;
    BlockInHeap(st, |data|, |data| + 16);
    hide Inv, Alloc;
    RequestIs(WriteBytes(data));
    assert after.mem == Write(st.mem, p, data);
  }

  lemma BlockInHeap(st: State, n: nat, asked: nat)
    requires Inv(st) && n <= asked && st.heap.offset + InUnits(asked) <= 0x2000_0000
    ensures Mapped(st.mem, 0x4800_0000 + st.heap.offset, n)
  {
    hide Granular, RegistryOk, StubsReturn, LibrariesPlaced;
    HeapMapped(st, 0x4800_0000 + st.heap.offset, n);
  }

  /** Nothing to write: no block, and a null pointer. */
  lemma WriteNothing(st: State)
    ensures Step(st, WriteBytes([])) == Continue((st, 0))
  {
  }

  /** An undefined object's block takes 256 bytes, and binding a name a second time none. */
  lemma DataTakes(st: State, name: string)
    requires Inv(st) && RegisterData(st, name).Continue?
    ensures var (after, p) := RegisterData(st, name).value;
            if name in st.imports then after == st && p == st.imports[name]
            else
              && p == 0x4800_0000 + st.heap.offset
              && after == st.(heap := st.heap.(offset := st.heap.offset + 256), mem := after.mem,
                              imports := st.imports[name := p])
              && forall a | a in st.mem && !(p <= a < p + 256) :: a in after.mem && after.mem[a] == st.mem[a]
  {
    HeapIn(st);
    HeapTakes(st.heap, 256);
    hide Inv, Alloc, HeapOk;
    assert InUnits(256) == 256;
  }

  // Whole runs -----------------------------------------------------------------------------

  datatype Block = Block(addr: nat, length: nat)

  /** The blocks a run hands out, oldest first. */
  function RunBlocks(st: State, evs: seq<Event>): seq<Block>
    requires forall ev | ev in evs :: ev.Load? ==> InFile(ev.file)
    decreases |evs|
  {
    if evs == [] || (evs[0].Relocate? && evs[0].index >= |st.libs|) then []
    else
      match Step(st, evs[0])
      case Abort => []
      case Continue((st1, p)) =>
        (if HeapRequest(evs[0]).Some? then [Block(p, BlockLength(evs[0]))] else []) + RunBlocks(st1, evs[1..])
  }

  ghost predicate BlocksSafe(bs: seq<Block>, from: nat) {
    && (forall i | 0 <= i < |bs| ::
          bs[i].addr % 64 == 0 && from <= bs[i].addr && bs[i].addr + bs[i].length <= HEAP_ADDRESS + HEAP_SIZE)
    && (forall i, j | 0 <= i < j < |bs| :: bs[i].addr + bs[i].length <= bs[j].addr)
  }

  /** Main result: over any run without 64-bit wrap, every block is 64-byte
      aligned and inside the heap, and blocks never overlap, because each lies
      above all earlier ones. */
  lemma {:induction false} RunBlocksSafe(st: State, evs: seq<Event>)
    requires Inv(st) && AllowedRun(st, evs)
    requires forall ev | ev in evs :: ev.Load? ==> InFile(ev.file)
    ensures BlocksSafe(RunBlocks(st, evs), HEAP_ADDRESS + st.heap.offset)
    decreases |evs|
  {
    hide Inv, Grows, Step, Allowed, InFile, BlockLength, HeapRequest, BlocksSafe;
    NoBlocksSafe(HEAP_ADDRESS + st.heap.offset);
    if evs != [] && !(evs[0].Relocate? && evs[0].index >= |st.libs|) && Step(st, evs[0]).Continue? {
      StepKeepsInv(st, evs[0]);
      var (st1, p) := Step(st, evs[0]).value;
      RunBlocksSafe(st1, evs[1..]);
      HeapNeverShrinks(st, st1);
      if HeapRequest(evs[0]).Some? {
        BlockBelowNext(st, evs[0]);
        ConsSafe(Block(p, BlockLength(evs[0])), RunBlocks(st1, evs[1..]), HEAP_ADDRESS + st.heap.offset,
          HEAP_ADDRESS + st1.heap.offset);
      } else {
        SafeFromLower(RunBlocks(st1, evs[1..]), HEAP_ADDRESS + st.heap.offset, HEAP_ADDRESS + st1.heap.offset);
        assert RunBlocks(st, evs) == RunBlocks(st1, evs[1..]);
      }
    }
  }

  lemma NoBlocksSafe(from: nat)
    ensures BlocksSafe([], from)
  {
  }

  lemma SafeFromLower(bs: seq<Block>, from: nat, next: nat)
    requires BlocksSafe(bs, next) && from <= next
    ensures BlocksSafe(bs, from)
  {
  }

  lemma HeapNeverShrinks(st: State, after: State)
    requires Grows(st, after)
    ensures st.heap.offset <= after.heap.offset
  {
  }

  lemma BlockBelowNext(st: State, ev: Event)
    requires Inv(st) && Allowed(st, ev) && HeapRequest(ev).Some? && Step(st, ev).Continue?
    ensures var (after, p) := Step(st, ev).value;
            && p % 64 == 0 && p == HEAP_ADDRESS + st.heap.offset
            && p + BlockLength(ev) <= HEAP_ADDRESS + after.heap.offset <= HEAP_ADDRESS + HEAP_SIZE
  {
    hide Inv, NoWrap, Grows, HeapStep, BlockContents;
    ContentsFit(st.mem, ev);
    HeapStepKeepsInv(st, ev, HeapRequest(ev).value);
  }

  lemma ConsSafe(b: Block, bs: seq<Block>, from: nat, next: nat)
    requires BlocksSafe(bs, next) && from <= next
    requires b.addr % 64 == 0 && from <= b.addr && b.addr + b.length <= next <= HEAP_ADDRESS + HEAP_SIZE
    ensures BlocksSafe([b] + bs, from)
  {
    var all := [b] + bs;
    assert forall i | 0 < i < |all| :: all[i] == bs[i - 1];
  }
}
