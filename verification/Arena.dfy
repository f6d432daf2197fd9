/** The bump allocator (src/core/arena.c). Addresses are numbers; what `malloc` and
    `realloc` answer is a parameter of each call. */
module Arena {
  import opened Core

  const SIZE_MAX := 0xFFFF_FFFF_FFFF_FFFF
  const ALIGN := 16
  const DEFAULT_BLOCK := 4096
  const MIN_BLOCKS := 4
  const DESCRIPTOR := 24 // bytes of a block descriptor

  /** Rounds up to the alignment, or 0 when that would wrap. */
  function AlignUp(n: nat): nat {
    if n > SIZE_MAX - (ALIGN - 1) then 0
    else if n % ALIGN != 0 then n + (ALIGN - n % ALIGN)
    else n
  }

  /** The least aligned size that holds the request, unless it would wrap. */
  lemma AlignUpIsLeast(n: nat, m: nat)
    requires 0 < n <= SIZE_MAX
    ensures AlignUp(n) == 0 <==> n > SIZE_MAX - 15
    ensures AlignUp(n) != 0 ==> n <= AlignUp(n) <= SIZE_MAX && AlignUp(n) % ALIGN == 0
    ensures AlignUp(n) != 0 && n <= m && m % ALIGN == 0 ==> AlignUp(n) <= m
  {
  }

  datatype Slab = Slab(base: nat, cap: nat, used: nat)

  /** Slabs in order of creation; `room` is the size of the descriptor array. */
  datatype Heap = Heap(slabs: seq<Slab>, room: nat, blockSize: nat)

  function Init(blockSize: nat): Heap { Heap([], 0, if blockSize != 0 then blockSize else DEFAULT_BLOCK) }

  /** A region handed out, and the slab it lies in. */
  datatype Region = Region(slab: nat, addr: nat, len: nat)

  datatype Op =
    | Alloc(n: nat, slab: Option<nat>, slot: bool) // answers of malloc and realloc, if asked
    | Reset

  predicate Fits(h: Heap, need: nat) {
    h.slabs != [] && var s := h.slabs[|h.slabs| - 1]; s.used <= s.cap && s.cap - s.used >= need
  }

  function SlabSize(h: Heap, need: nat): nat { if need > h.blockSize then need else h.blockSize }

  function GrownRoom(h: Heap): nat { if h.room != 0 then 2 * h.room else MIN_BLOCKS }

  /** `dtl_arena_reserve_slot` */
  function WithSlot(h: Heap, slot: bool): Option<Heap> {
    if |h.slabs| < h.room then Some(h)
    else if GrownRoom(h) > SIZE_MAX / DESCRIPTOR || !slot then None
    else Some(h.(room := GrownRoom(h)))
  }

  /** `dtl_arena_alloc`: only the last slab is tried. */
  function Allocated(h: Heap, n: nat, slab: Option<nat>, slot: bool): (Heap, Option<Region>) {
    var need := AlignUp(n);
    if n == 0 || need == 0 then (h, None)
    else if Fits(h, need) then
      var k := |h.slabs| - 1;
      var s := h.slabs[k];
      (h.(slabs := h.slabs[k := s.(used := s.used + need)]), Some(Region(k, s.base + s.used, n)))
    else match WithSlot(h, slot)
      case None => (h, None)
      case Some(h') =>
        match slab
        case None => (h', None)
        case Some(a) =>
          (h'.(slabs := h.slabs + [Slab(a, SlabSize(h, need), need)]), Some(Region(|h.slabs|, a, n)))
  }

  function Rewound(slabs: seq<Slab>): (r: seq<Slab>)
    ensures |r| == |slabs| && forall i | 0 <= i < |r| :: r[i] == slabs[i].(used := 0)
  {
    seq(|slabs|, i requires 0 <= i < |slabs| => slabs[i].(used := 0))
  }

  /** The first region of an arena with default settings, and a second that fits: a slab
      of 4096 bytes, and offsets that are multiples of 16. */
  lemma DefaultSlab(a: nat, n: nat, m: nat)
    requires 0 < n <= 4096 && 0 < m && (n + 15) / 16 * 16 + (m + 15) / 16 * 16 <= 4096
    ensures var (h, r) := Allocated(Init(0), n, Some(a), true);
            && r == Some(Region(0, a, n)) && |h.slabs| == 1 && h.slabs[0].cap == 4096
            && Allocated(h, m, None, false).1 == Some(Region(0, a + (n + 15) / 16 * 16, m))
  {
    Multiples(n);
    Multiples(m);
  }

  lemma Multiples(n: nat)
    requires n <= 4096
    ensures AlignUp(n) == (n + 15) / 16 * 16
  {
  }

  /** The heap and the regions handed out since the last reset. */
  datatype Run = Run(heap: Heap, regions: seq<Region>)

  function Step(r: Run, op: Op): Run {
    match op
    case Reset => Run(r.heap.(slabs := Rewound(r.heap.slabs)), [])
    case Alloc(n, slab, slot) =>
      var (h, got) := Allocated(r.heap, n, slab, slot);
      Run(h, r.regions + if got.Some? then [got.value] else [])
  }

  /** `malloc` answers with an aligned block apart from every live slab. */
  predicate Honest(h: Heap, op: Op) {
    op.Alloc? && op.slab.Some? ==>
      && op.slab.value % ALIGN == 0
      && forall i | 0 <= i < |h.slabs| :: Apart(op.slab.value, SlabSize(h, AlignUp(op.n)), h.slabs[i].base, h.slabs[i].cap)
  }

  predicate Apart(a: nat, n: nat, b: nat, m: nat) { a + n <= b || b + m <= a }

  function After(blockSize: nat, ops: seq<Op>): Run {
    if ops == [] then Run(Init(blockSize), []) else Step(After(blockSize, ops[..|ops| - 1]), ops[|ops| - 1])
  }

  predicate AllHonest(blockSize: nat, ops: seq<Op>) {
    forall i | 0 <= i < |ops| :: Honest(After(blockSize, ops[..i]).heap, ops[i])
  }

  // ---- the invariant ----

  /** The descriptor array has room for every slab and a size that can be asked for; slabs
      are aligned, used up to their size at most, and apart. */
  ghost predicate SlabsSound(h: Heap) {
    && |h.slabs| <= h.room && 24 * h.room <= SIZE_MAX
    && (forall i | 0 <= i < |h.slabs| ::
          h.slabs[i].base % ALIGN == 0 && h.slabs[i].used % ALIGN == 0 && h.slabs[i].used <= h.slabs[i].cap)
    && (forall i, j | 0 <= i < j < |h.slabs| ::
          Apart(h.slabs[i].base, h.slabs[i].cap, h.slabs[j].base, h.slabs[j].cap))
  }

  /** Aligned, and inside the part of its slab that is in use. */
  ghost predicate Inside(r: Region, h: Heap) {
    && r.slab < |h.slabs| && r.addr % ALIGN == 0
    && h.slabs[r.slab].base <= r.addr && r.addr + r.len <= h.slabs[r.slab].base + h.slabs[r.slab].used
  }

  ghost predicate Sound(r: Run) {
    && SlabsSound(r.heap)
    && (forall i | 0 <= i < |r.regions| :: Inside(r.regions[i], r.heap))
    && (forall i, j | 0 <= i < j < |r.regions| ::
          Apart(r.regions[i].addr, r.regions[i].len, r.regions[j].addr, r.regions[j].len))
  }

  lemma AlignedSum(a: nat, b: nat)
    requires a % ALIGN == 0 && b % ALIGN == 0
    ensures (a + b) % ALIGN == 0
  {
  }

  /** A region starting where the used part of its slab ended meets no other. */
  lemma NewIsApart(r: Run, k: nat, len: nat)
    requires Sound(r) && k < |r.heap.slabs| && len <= r.heap.slabs[k].cap - r.heap.slabs[k].used
    ensures forall i | 0 <= i < |r.regions| ::
              Apart(r.regions[i].addr, r.regions[i].len, r.heap.slabs[k].base + r.heap.slabs[k].used, len)
  {
    var slabs := r.heap.slabs;
    forall i | 0 <= i < |r.regions|
      ensures Apart(r.regions[i].addr, r.regions[i].len, slabs[k].base + slabs[k].used, len)
    {
      assert Inside(r.regions[i], r.heap);
      var j := r.regions[i].slab;
      if j < k {
        assert Apart(slabs[j].base, slabs[j].cap, slabs[k].base, slabs[k].cap);
      } else if k < j {
        assert Apart(slabs[k].base, slabs[k].cap, slabs[j].base, slabs[j].cap);
      }
    }
  }

  lemma BumpSound(r: Run, n: nat)
    requires Sound(r) && 0 < n <= SIZE_MAX && AlignUp(n) != 0 && Fits(r.heap, AlignUp(n))
    ensures Sound(Step(r, Alloc(n, None, false)))
  {
    hide AlignUp;
    var k := |r.heap.slabs| - 1;
    var need, s := AlignUp(n), r.heap.slabs[|r.heap.slabs| - 1];
    AlignUpIsLeast(n, n);
    AlignedSum(s.used, need);
    AlignedSum(s.base, s.used);
    NewIsApart(r, k, n);
    var h := Step(r, Alloc(n, None, false)).heap;
    forall i | 0 <= i < |r.regions| ensures Inside(r.regions[i], h) { assert Inside(r.regions[i], r.heap); }
    assert Inside(Region(k, s.base + s.used, n), h);
  }

  lemma NewSlabSound(r: Run, op: Op)
    requires Sound(r) && op.Alloc? && 0 < op.n <= SIZE_MAX && AlignUp(op.n) != 0 && !Fits(r.heap, AlignUp(op.n))
    requires Honest(r.heap, op)
    ensures Sound(Step(r, op))
  {
    hide AlignUp;
    AlignUpIsLeast(op.n, op.n);
    var r' := Step(r, op);
    forall i | 0 <= i < |r.regions| ensures Inside(r.regions[i], r'.heap) { assert Inside(r.regions[i], r.heap); }
    if |r'.regions| > |r.regions| {
      forall i | 0 <= i < |r.regions|
        ensures Apart(r.regions[i].addr, r.regions[i].len, op.slab.value, op.n)
      {
        assert Inside(r.regions[i], r.heap);
        var j := r.regions[i].slab;
        assert Apart(op.slab.value, SlabSize(r.heap, AlignUp(op.n)), r.heap.slabs[j].base, r.heap.slabs[j].cap);
      }
    }
  }

  lemma StepSound(r: Run, op: Op)
    requires Sound(r) && Honest(r.heap, op) && (op.Alloc? ==> op.n <= SIZE_MAX)
    ensures Sound(Step(r, op))
  {
    hide AlignUp, Sound;
    match op
    case Reset => ResetSound(r);
    case Alloc(n, slab, slot) =>
      if n != 0 && AlignUp(n) != 0 {
        if Fits(r.heap, AlignUp(n)) { BumpSound(r, n); } else { NewSlabSound(r, op); }
      } else {
        assert r.regions + [] == r.regions;
      }
  }

  lemma ResetSound(r: Run)
    requires Sound(r)
    ensures Sound(Step(r, Reset))
  {
  }

  predicate Sized(ops: seq<Op>) { forall i | 0 <= i < |ops| && ops[i].Alloc? :: ops[i].n <= SIZE_MAX }

  /** Over every sequence of allocations and resets, the regions handed out since
      the last reset are aligned, inside their slab and pairwise disjoint. */
  lemma {:induction false} RunsAreSound(blockSize: nat, ops: seq<Op>)
    requires AllHonest(blockSize, ops) && Sized(ops)
    ensures Sound(After(blockSize, ops))
  {
    hide Sound, Honest, Step;
    if ops == [] {
      StartSound(blockSize);
    } else {
      var init := ops[..|ops| - 1];
      forall i | 0 <= i < |init| ensures Honest(After(blockSize, init[..i]).heap, init[i]) {
        assert init[..i] == ops[..i];
        assert Honest(After(blockSize, ops[..i]).heap, ops[i]);
      }
      RunsAreSound(blockSize, init);
      assert Honest(After(blockSize, init).heap, ops[|ops| - 1]);
      StepSound(After(blockSize, init), ops[|ops| - 1]);
    }
  }

  lemma StartSound(blockSize: nat)
    ensures Sound(Run(Init(blockSize), []))
  {
  }

  // ---- nothing moves ----

  /** Later slabs may appear; the ones there stay where they are. */
  ghost predicate Unmoved(h: Heap, h': Heap) {
    |h.slabs| <= |h'.slabs| &&
    forall i | 0 <= i < |h.slabs| :: h'.slabs[i].base == h.slabs[i].base && h'.slabs[i].cap == h.slabs[i].cap
  }

  lemma StepUnmoved(r: Run, op: Op)
    ensures Unmoved(r.heap, Step(r, op).heap)
    ensures op.Alloc? ==> r.regions <= Step(r, op).regions
  {
  }

  /** Whatever is done later, no slab moves; and until a reset every region stays. */
  lemma {:induction false} NothingMoves(blockSize: nat, ops: seq<Op>, more: seq<Op>)
    ensures Unmoved(After(blockSize, ops).heap, After(blockSize, ops + more).heap)
    ensures Reset !in more ==> After(blockSize, ops).regions <= After(blockSize, ops + more).regions
    decreases |more|
  {
    hide Step;
    if more == [] {
      assert ops + more == ops;
    } else {
      var init, op := more[..|more| - 1], more[|more| - 1];
      NothingMoves(blockSize, ops, init);
      assert (ops + more)[..|ops + more| - 1] == ops + init;
      StepUnmoved(After(blockSize, ops + init), op);
    }
  }

  /** Until a reset, every region handed out stays where it was: at its address,
      inside its slab, and apart from whatever is handed out later. */
  lemma RegionsStay(blockSize: nat, ops: seq<Op>, more: seq<Op>)
    requires AllHonest(blockSize, ops + more) && Sized(ops + more) && Reset !in more
    ensures var r, r' := After(blockSize, ops), After(blockSize, ops + more);
            && r.regions <= r'.regions
            && (forall i | 0 <= i < |r.regions| :: Inside(r.regions[i], r'.heap))
            && (forall i, j | 0 <= i < |r.regions| <= j < |r'.regions| ::
                  Apart(r.regions[i].addr, r.regions[i].len, r'.regions[j].addr, r'.regions[j].len))
  {
    hide After, AllHonest;
    NothingMoves(blockSize, ops, more);
    RunsAreSound(blockSize, ops + more);
  }

  // ---- the arena object ----

  class Allocator {
    var blocks: array<Slab>
    var nblocks: nat
    const blockSize: nat

    ghost predicate Valid()
      reads this
    {
      nblocks <= blocks.Length
    }

    ghost function View(): Heap
      reads this, blocks
      requires Valid()
    {
      Heap(blocks[..nblocks], blocks.Length, blockSize)
    }

    constructor (size: nat)
      ensures Valid() && View() == Init(size) && fresh(blocks)
    {
      blocks := new Slab[0];
      nblocks := 0;
      blockSize := if size != 0 then size else DEFAULT_BLOCK;
    }

    /** `dtl_arena_reserve_slot`: the descriptors move, the slabs do not. */
    method ReserveSlot(slot: bool) returns (ok: bool)
      requires Valid()
      modifies this
      ensures Valid() && (blocks == old(blocks) || fresh(blocks))
      ensures match WithSlot(old(View()), slot)
              case None => !ok && View() == old(View())
              case Some(h) => ok && View() == h && nblocks < blocks.Length
    {
      if nblocks < blocks.Length {
        return true;
      }
      var newcap := if blocks.Length != 0 then 2 * blocks.Length else MIN_BLOCKS;
      if newcap > SIZE_MAX / DESCRIPTOR || !slot {
        return false;
      }
      var kept := blocks[..nblocks];
      blocks := new Slab[newcap](i requires 0 <= i < newcap => if i < |kept| then kept[i] else Slab(0, 0, 0));
      assert blocks[..nblocks] == kept;
      return true;
    }

    /** `dtl_arena_alloc`: the address, or none. */
    method Allocate(n: nat, slab: Option<nat>, slot: bool) returns (p: Option<nat>, ghost got: Option<Region>)
      requires Valid() && n <= SIZE_MAX
      requires forall i | 0 <= i < nblocks :: blocks[i].used <= blocks[i].cap
      modifies this, blocks
      ensures Valid() && (blocks == old(blocks) || fresh(blocks))
      ensures (View(), got) == Allocated(old(View()), n, slab, slot)
      ensures p == if got.Some? then Some(got.value.addr) else None
    {
      got := None;
      if n == 0 {
        return None, None;
      }
      var need := AlignUp(n);
      if need == 0 {
        return None, None;
      }
      ghost var h := View();
      if nblocks != 0 {
        var blk := blocks[nblocks - 1];
        if blk.cap - blk.used >= need {
          blocks[nblocks - 1] := blk.(used := blk.used + need);
          assert View().slabs == h.slabs[nblocks - 1 := blk.(used := blk.used + need)];
          return Some(blk.base + blk.used), Some(Region(nblocks - 1, blk.base + blk.used, n));
        }
      }
      var cap := if need > blockSize then need else blockSize;
      var ok := ReserveSlot(slot);
      if !ok || slab.None? {
        return None, None;
      }
      ghost var slabs := blocks[..nblocks];
      blocks[nblocks] := Slab(slab.value, cap, need);
      nblocks := nblocks + 1;
      assert blocks[..nblocks] == slabs + [Slab(slab.value, cap, need)];
      return slab, Some(Region(nblocks - 1, slab.value, n));
    }

    /** `dtl_arena_reset` */
    method ResetAll()
      requires Valid()
      modifies blocks
      ensures Valid() && View() == old(View()).(slabs := Rewound(old(View()).slabs))
    {
      for i := 0 to nblocks
        invariant forall k | 0 <= k < i :: blocks[k] == old(blocks[k]).(used := 0)
        invariant forall k | i <= k < blocks.Length :: blocks[k] == old(blocks[k])
      {
        blocks[i] := blocks[i].(used := 0);
      }
      assert View().slabs == Rewound(old(View()).slabs);
    }
  }
}
