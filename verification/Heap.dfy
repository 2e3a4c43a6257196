/** Mem_Init, Mem_Alloc and Mem_Free of p3/mem/mem.c: a stack of slabs in the first quarter of the
    region and the next-fit allocator in the rest. */
module Heap {
  import opened Tiles
  import NextFit

  /** The slabs lie back to back below the next-fit region. */
  function AllSlabs(regionStart: nat, nfStart: nat, unit: nat): (r: set<nat>)
    requires unit > 0
    ensures forall a | a in r :: regionStart <= a && a + unit <= nfStart
    decreases nfStart
  {
    if nfStart < regionStart + unit then {} else {nfStart - unit} + AllSlabs(regionStart, nfStart - unit, unit)
  }

  lemma {:induction false} SlabsApart(regionStart: nat, nfStart: nat, unit: nat, a: nat, b: nat)
    requires unit > 0 && a in AllSlabs(regionStart, nfStart, unit) && b in AllSlabs(regionStart, nfStart, unit)
               && a != b
    ensures a + unit <= b || b + unit <= a
    decreases nfStart
  {
    if a != nfStart - unit && b != nfStart - unit { SlabsApart(regionStart, nfStart - unit, unit, a, b); }
  }

  lemma {:induction false} SlabAligned(regionStart: nat, nfStart: nat, unit: nat, a: nat)
    requires unit > 0 && a in AllSlabs(regionStart, nfStart, unit)
    ensures (nfStart - a) % unit == 0
    decreases nfStart
  {
    if a != nfStart - unit {
      SlabAligned(regionStart, nfStart - unit, unit, a);
      OneUnitMore(nfStart - unit - a, unit);
    }
  }

  lemma {:induction false} SlabMod16(regionStart: nat, nfStart: nat, unit: nat, a: nat)
    requires unit > 0 && a in AllSlabs(regionStart, nfStart, unit) && nfStart % 16 == 0 && unit % 16 == 0
    ensures a % 16 == 0
    decreases nfStart
  {
    assert (nfStart - unit) % 16 == 0;
    if a != nfStart - unit { SlabMod16(regionStart, nfStart - unit, unit, a); }
  }

  /** Regions of a multiple of 4 bytes that are not multiples of 64 leave a next-fit block of odd length ... */
  lemma OddRegion(size: nat)
    requires size % 4 == 0
    ensures (size - size / 4 - 16) % 16 == 0 <==> size % 64 == 0
  {
    OddQuarter(size / 4);
    assert size == 4 * (size / 4);
  }

  lemma OddQuarter(q: nat)
    ensures (3 * q - 16) % 16 == 0 <==> q % 16 == 0
    ensures 4 * q % 64 == 0 <==> q % 16 == 0
  {
    var t, r := q / 16, q % 16;
    Mod16(3 * t - 1, 3 * r);
    assert 3 * q - 16 == 16 * (3 * t - 1) + 3 * r;
    assert 4 * q == 64 * t + 4 * r;
    Small(r);
  }

  lemma Small(r: nat)
    requires r < 16
    ensures 3 * r % 16 == 0 <==> r == 0
  {
  }

  lemma Mod16(x: int, y: nat)
    ensures (16 * x + y) % 16 == y % 16
  {
  }

  /** ... and from a block of odd length some request is cut so that a negative length is left. */
  lemma OddBlockLeavesTooLittle(len: nat)
    ensures (exists size: nat ::
               NextFit.FitToAlignSize(size) < len && len - NextFit.FitToAlignSize(size) - 16 < 0) <==> len % 16 != 0
  {
    if len % 16 != 0 {
      var size := len - len % 16;
      assert NextFit.FitToAlignSize(size) == size;
    }
  }

  lemma Quarter(size: nat)
    requires size % 64 == 0
    ensures size / 4 % 16 == 0 && (size - size / 4) % 16 == 0 && size - size / 4 == 3 * (size / 4)
  {
    var q := size / 64;
    assert size == 64 * q && size / 4 == 16 * q;
  }

  lemma TimesSign(unit: int, d: int)
    requires unit > 0
    ensures d >= 1 ==> unit * d >= unit
    ensures d <= -1 ==> unit * d <= -unit
  {
  }

  lemma OneUnitMore(n: nat, unit: nat)
    requires unit > 0 && n % unit == 0
    ensures (n + unit) % unit == 0
  {
    var d, r := n / unit + 1 - (n + unit) / unit, (n + unit) % unit;
    assert unit * d == r by {
      assert n == unit * (n / unit) && n + unit == unit * ((n + unit) / unit) + r;
    }
    TimesSign(unit, d);
  }

  /** The stack of free slabs threaded through their first word. */
  ghost predicate Stacked(next: map<nat, nat>, top: nat, stack: seq<nat>)
    decreases |stack|
  {
    if stack == [] then top == NULL
    else top == stack[0] && top != NULL && top in next && top !in stack[1..] && Stacked(next, next[top], stack[1..])
  }

  lemma {:induction false} StackedFrame(next: map<nat, nat>, next': map<nat, nat>, top: nat, stack: seq<nat>)
    requires Stacked(next, top, stack)
    requires forall a | a in stack :: a in next && a in next' && next'[a] == next[a]
    ensures Stacked(next', top, stack)
    decreases |stack|
  {
    if stack != [] { StackedFrame(next, next', next[top], stack[1..]); }
  }

  lemma {:induction false} StackedIn(next: map<nat, nat>, top: nat, stack: seq<nat>)
    requires Stacked(next, top, stack)
    ensures forall a | a in stack :: a in next
    decreases |stack|
  {
    if stack != [] { StackedIn(next, next[top], stack[1..]); }
  }

  /** The set of a stack, and that the stack holds each of them once. */
  function Elements(stack: seq<nat>): set<nat> {
    set a | a in stack
  }

  lemma {:induction false} StackedOnce(next: map<nat, nat>, top: nat, stack: seq<nat>)
    requires Stacked(next, top, stack)
    ensures |stack| == |Elements(stack)|
    decreases |stack|
  {
    if stack != [] {
      StackedOnce(next, next[top], stack[1..]);
      assert Elements(stack) == {top} + Elements(stack[1..]);
    }
  }

  /** Mem_Free's test of a pointer below the next-fit region, which divides by what it takes the slab size to be. */
  predicate Passes(nfStart: nat, ptr: nat, rounded: nat) {
    rounded != 0 && (nfStart - ptr) % rounded == 0
  }

  /** How Mem_Free ends; Crashed is a division by zero. */
  datatype FreeResult = Crashed | Returned(r: int)

  // ---------- the library as steps of a state ----------

  /** Release(i) frees the i-th live pointer; Store is its owner writing the 16 bytes around offset off of it. */
  datatype Op = Request(size: nat) | Release(i: nat) | Store(i: nat, off: nat, cell: Cell)

  /** The tiles and nextPtr, the stack of free slabs, and the live pointers in the order they were handed out. */
  datatype State = State(nfStart: nat, slabUnitSize: nat, tiling: NextFit.Tiling, stack: seq<nat>, live: seq<nat>) {
    function Stepped(op: Op): State {
      match op
      case Request(size) =>
        if size == slabUnitSize && stack != [] then this.(stack := stack[1..], live := live + [stack[0]])
        else
          var (left, p) := tiling.Alloced(size);
          this.(tiling := left, live := if p == NULL then live else live + [p])
      case Release(i) =>
        if i >= |live| then this
        else if live[i] < nfStart then this.(stack := [live[i]] + stack, live := live[..i] + live[i + 1..])
        else this.(tiling := tiling.Freed(live[i]), live := live[..i] + live[i + 1..])
      case Store(i, off, cell) => this
    }

    function Ran(ops: seq<Op>): State {
      if ops == [] then this else Ran(ops[..|ops| - 1]).Stepped(ops[|ops| - 1])
    }
  }

  // ---------- the library as the code has it ----------

  /** The free slab stack, or a live block: where each byte handed out belongs. */
  class Heap {
    const regionStart: nat
    const nfStart: nat
    const end: nat
    const slabUnitSize: nat
    const unit: nat
    const nf: NextFit.Allocator
    var topOfSlabStack: nat
    var slabNext: map<nat, nat>
    /** What Mem_Free takes the slab size to be: unit, until a later Mem_Init fails. */
    var rounded: nat
    ghost var stack: seq<nat>
    ghost var liveSlabs: set<nat>

    /** Mem_Init (p3/mem/mem.c:54-129) once its checks have passed, on a region of a multiple of 64 bytes;
        base is what mmap returns. */
    constructor (base: nat, sizeOfRegion: nat, slabSize: nat)
      requires base > 0 && base % 16 == 0 && slabSize >= 1
      requires sizeOfRegion >= 64 && sizeOfRegion % 64 == 0 && NextFit.FitToAlignSize(slabSize) <= sizeOfRegion / 4
      ensures Valid() && fresh(nf) && liveSlabs == {} && slabUnitSize == slabSize
      ensures regionStart == base && nfStart == base + sizeOfRegion / 4 && end == base + sizeOfRegion
      ensures Elements(stack) == AllSlabs(regionStart, nfStart, unit)
      ensures nf.tiles == [Tile(nfStart, end - nfStart - 16, true)]
    {
      Quarter(sizeOfRegion);
      regionStart, slabUnitSize, unit, rounded := base, slabSize, NextFit.FitToAlignSize(slabSize),
          NextFit.FitToAlignSize(slabSize);
      nfStart, end := base + sizeOfRegion / 4, base + sizeOfRegion;
      nf := new NextFit.Allocator(base + sizeOfRegion / 4, sizeOfRegion - sizeOfRegion / 4);
      topOfSlabStack, slabNext, stack, liveSlabs := NULL, map[], [], {};
      new;
      FillSlabs();
    }

    /** "initialize the slabs" (p3/mem/mem.c:107-118). */
    method FillSlabs()
      requires 0 < unit && 0 < regionStart <= nfStart
      requires Stacked(slabNext, topOfSlabStack, stack) && stack == []
      modifies `topOfSlabStack, `slabNext, `stack
      ensures Stacked(slabNext, topOfSlabStack, stack)
      ensures Elements(stack) == AllSlabs(regionStart, nfStart, unit)
    {
      var itr: int := nfStart - unit;
      while itr >= regionStart
        invariant Stacked(slabNext, topOfSlabStack, stack)
        invariant 0 <= itr + unit <= nfStart
        invariant Elements(stack) + AllSlabs(regionStart, itr + unit, unit) == AllSlabs(regionStart, nfStart, unit)
        invariant forall a | a in stack :: itr + unit <= a
        decreases itr
      {
        SlabPush(itr);
        assert Elements(stack) == {itr} + Elements(stack[1..]);
        itr := itr - unit;
      }
    }

    ghost predicate SlabsOk()
      reads this
    {
      && unit > 0 && unit % 16 == 0 && 0 < regionStart && regionStart + unit <= nfStart < end
      && Stacked(slabNext, topOfSlabStack, stack)
      && Elements(stack) !! liveSlabs
      && Elements(stack) + liveSlabs == AllSlabs(regionStart, nfStart, unit)
    }

    /** What holds whatever later calls of Mem_Init do. */
    ghost predicate Held()
      reads this, nf
    {
      SlabsOk() && nf.Valid() && nf.start == nfStart && nf.end == end
    }

    ghost predicate Valid()
      reads this, nf
    {
      Held() && rounded == unit
    }

    ghost function View(live: seq<nat>): State
      reads this, nf
    {
      State(nfStart, slabUnitSize, nf.View(), stack, live)
    }

    /** The live pointers of each pool. */
    ghost predicate LiveSlab(p: nat)
      reads this
    {
      p in liveSlabs
    }

    ghost predicate LiveBlock(p: nat)
      reads this, nf
    {
      p in LiveSet(nf.tiles)
    }

    /** slabPush (p3/mem/mem.c:246-252). */
    method SlabPush(node: nat)
      requires Stacked(slabNext, topOfSlabStack, stack) && node != NULL && node !in stack
      modifies `topOfSlabStack, `slabNext, `stack
      ensures Stacked(slabNext, topOfSlabStack, stack) && stack == [node] + old(stack)
    {
      StackedIn(slabNext, topOfSlabStack, stack);
      ghost var next := slabNext;
      slabNext := slabNext[node := topOfSlabStack];
      StackedFrame(next, slabNext, topOfSlabStack, stack);
      topOfSlabStack := node;
      stack := [node] + stack;
      assert stack[1..] == old(stack);
    }

    /** slabPop (p3/mem/mem.c:254-264). */
    method SlabPop() returns (p: nat)
      requires Stacked(slabNext, topOfSlabStack, stack)
      modifies `topOfSlabStack, `stack
      ensures Stacked(slabNext, topOfSlabStack, stack)
      ensures old(stack) == [] ==> p == NULL && stack == []
      ensures old(stack) != [] ==> p == old(stack)[0] != NULL && p !in stack && stack == old(stack)[1..]
    {
      if topOfSlabStack == NULL { return NULL; }
      p := topOfSlabStack;
      topOfSlabStack := slabNext[topOfSlabStack];
      stack := stack[1..];
    }

    /** Mem_Alloc (p3/mem/mem.c:131-163), without the zero fill. */
    method MemAlloc(size: nat) returns (ptr: nat)
      requires Held()
      modifies this, nf`mem, nf`freeHead, nf`nextPtr, nf`tiles
      ensures Held() && rounded == old(rounded)
      ensures size == slabUnitSize && old(stack) != [] ==>
                && ptr == old(stack)[0] && stack == old(stack)[1..] && liveSlabs == old(liveSlabs) + {ptr}
                && nf.View() == old(nf.View())
      ensures size != slabUnitSize || old(stack) == [] ==>
                && stack == old(stack) && liveSlabs == old(liveSlabs)
                     && (nf.View(), ptr) == old(nf.View()).Alloced(size)
      ensures size != slabUnitSize || old(stack) == [] ==>
                var t, need := old(nf.View()), NextFit.FitToAlignSize(size);
                if ptr == NULL then
                  && nf.tiles == t.tiles && forall i | 0 <= i < |t.tiles| && t.tiles[i].free :: t.tiles[i].len < need
                else
                  && old(nf.StartsAt(t.Start())) && NextFit.FirstFit(t.tiles, t.Start(), need, t.Fit(need))
                  && ptr == t.tiles[t.Fit(need)].addr + 16 && nf.tiles == NextFit.Taken(t.tiles, t.Fit(need), need)
    {
      if size == slabUnitSize {
        ptr := SlabPop();
        if ptr != NULL {
          liveSlabs := liveSlabs + {ptr};
          assert Elements(old(stack)) == {ptr} + Elements(stack);
          return;
        }
      }
      NextFit.AllocedCases(nf.View(), size);
      ptr := nf.NextFitAlloc(size);
    }

    /** Mem_Free (p3/mem/mem.c:165-216), for NULL, pointers out of the region, misaligned ones, live ones, and those
        below the next-fit region that fail the test of a slab. */
    method MemFree(ptr: nat) returns (r: FreeResult)
      requires Held()
      requires NULL != ptr && regionStart <= ptr <= end && ptr % 16 == 0 ==>
                 LiveSlab(ptr) || LiveBlock(ptr) || (ptr < nfStart && !Passes(nfStart, ptr, rounded))
      modifies this, nf`mem, nf`freeHead, nf`nextPtr, nf`tiles
      ensures Held() && rounded == old(rounded)
      ensures r.Crashed? <==> ptr != NULL && regionStart <= ptr < nfStart && ptr % 16 == 0 && rounded == 0
      ensures r == Returned(0) <==> old(LiveBlock(ptr)) || (old(LiveSlab(ptr)) && Passes(nfStart, ptr, rounded))
      ensures r != Returned(0) ==> (r == Returned(-1) || r.Crashed?) && unchanged(this) && unchanged(nf)
      ensures r == Returned(0) && old(LiveSlab(ptr)) ==>
                stack == [ptr] + old(stack) && liveSlabs == old(liveSlabs) - {ptr} && nf.View() == old(nf.View())
      ensures old(LiveBlock(ptr)) ==>
                stack == old(stack) && liveSlabs == old(liveSlabs) && nf.View() == old(nf.View()).Freed(ptr)
      ensures old(LiveBlock(ptr)) ==>
                forall k | 0 <= k < |old(nf.tiles)| && !old(nf.tiles)[k].free && old(nf.tiles)[k].addr == ptr - 16 ::
                  nf.tiles == CoalesceAt(SetFree(old(nf.tiles), k, true), k)
    {
      LivePlaces(ptr);
      if ptr == NULL || ptr < regionStart || ptr > end { return Returned(-1); }
      if ptr % 16 != 0 { return Returned(-1); }
      if ptr < nfStart {
        if rounded == 0 { return Crashed; }
        if (nfStart - ptr) % rounded != 0 { return Returned(-1); }
        SlabPush(ptr);
        liveSlabs := liveSlabs - {ptr};
        assert Elements(stack) == {ptr} + Elements(old(stack));
        return Returned(0);
      } else {
        var n := nf.NextFitFree(ptr);
        return Returned(n);
      }
    }

    /** Live slabs are aligned pointers below the next-fit region, live blocks aligned pointers in it. */
    lemma LivePlaces(ptr: nat)
      requires Held()
      ensures LiveSlab(ptr) ==> ptr != NULL && regionStart <= ptr < nfStart && ptr % 16 == 0 && !LiveBlock(ptr)
      ensures LiveBlock(ptr) ==> nfStart + 16 <= ptr <= end && ptr % 16 == 0
    {
      forall k | 0 <= k < |nf.tiles|
        ensures nfStart <= nf.tiles[k].addr && nf.tiles[k].addr % 16 == 0 && nf.tiles[k].End() <= end
      {
        Aligned(nf.tiles, nfStart, end, k);
      }
      if ptr in liveSlabs { SlabMod16(regionStart, nfStart, unit, ptr); }
    }

    /** The bytes a live pointer stands for. */
    ghost predicate Holds(p: nat, n: nat)
      reads this, nf
    {
      (LiveSlab(p) && n == unit)
          || exists k | 0 <= k < |nf.tiles| :: !nf.tiles[k].free && nf.tiles[k].addr + 16 == p && nf.tiles[k].len == n
    }

    /** What two live pointers stand for never overlaps, whichever pools they come from. */
    lemma NoOverlap(p: nat, n: nat, q: nat, m: nat)
      requires Held() && Holds(p, n) && Holds(q, m) && p != q
      ensures p + n <= q || q + m <= p
    {
      LivePlaces(p);
      LivePlaces(q);
      if LiveSlab(p) && LiveSlab(q) {
        SlabsApart(regionStart, nfStart, unit, p, q);
      } else if !LiveSlab(p) && !LiveSlab(q) {
        var i :| 0 <= i < |nf.tiles| && !nf.tiles[i].free && nf.tiles[i].addr + 16 == p && nf.tiles[i].len == n;
        var j :| 0 <= j < |nf.tiles| && !nf.tiles[j].free && nf.tiles[j].addr + 16 == q && nf.tiles[j].len == m;
        LiveDisjoint(nf.tiles, nfStart, end, i, j);
      }
    }

    /** A caller writes in what it was given, and nothing else changes: no header and no link of the library is
        there. */
    method Store(p: nat, off: nat, cell: Cell, ghost n: nat)
      requires Held() && Holds(p, n) && off < n
      modifies `slabNext, nf`mem
      ensures Held() && nf.View() == old(nf.View())
      ensures forall q :: (LiveSlab(q) <==> old(LiveSlab(q))) && (LiveBlock(q) <==> old(LiveBlock(q)))
    {
      LivePlaces(p);
      if p < nfStart {
        if off < 16 {
          ghost var next := slabNext;
          slabNext := slabNext[p := cell.link];
          StackedIn(next, topOfSlabStack, stack);
          assert p !in Elements(stack);
          StackedFrame(next, slabNext, topOfSlabStack, stack);
        }
      } else {
        ghost var k :| 0 <= k < |nf.tiles| && !nf.tiles[k].free && nf.tiles[k].addr + 16 == p
                       && nf.tiles[k].len == n;
        nf.Store(p + off / 16 * 16, cell, k);
      }
    }

    /** The size of what a live pointer stands for. */
    method SizeOf(p: nat) returns (n: int)
      requires Held() && (LiveSlab(p) || LiveBlock(p))
      ensures n >= 0 && Holds(p, n)
    {
      LivePlaces(p);
      if p < nfStart { return unit; }
      n := Len(nf.mem, p - 16);
      ghost var k :| 0 <= k < |nf.tiles| && !nf.tiles[k].free && nf.tiles[k].addr + 16 == p;
      HeaderLen(nf.mem, nf.tiles, k);
    }

    /** Any run of allocations, frees of live pointers and writes into what they stand for: the headers and links in
        memory do what the steps on tiles and stack do. Once nothing is live the next-fit region is one free block and
        every slab is on the stack exactly once. */
    method Run(ops: seq<Op>) returns (live: seq<nat>)
      requires Valid() && liveSlabs == {} && LiveSet(nf.tiles) == {}
      modifies this, nf`mem, nf`freeHead, nf`nextPtr, nf`tiles
      ensures Valid() && View(live) == old(View([])).Ran(ops)
      ensures forall p :: p in live <==> LiveSlab(p) || LiveBlock(p)
      ensures live == [] ==>
                && nfStart + 16 <= end && nf.tiles == [Tile(nfStart, end - nfStart - 16, true)]
                && Elements(stack) == AllSlabs(regionStart, nfStart, unit)
                && |stack| == |AllSlabs(regionStart, nfStart, unit)|
    {
      live := [];
      var k := 0;
      while k < |ops|
        invariant Valid() && k <= |ops| && Listing(live) && View(live) == old(View([])).Ran(ops[..k])
      {
        assert ops[..k + 1][..k] == ops[..k];
        live := Perform(ops[k], live);
        k := k + 1;
      }
      assert ops[..k] == ops;
      NothingLive(live);
    }

    /** live holds each live pointer once. */
    ghost predicate Listing(live: seq<nat>)
      reads this, nf
    {
      && (forall i, j | 0 <= i < j < |live| :: live[i] != live[j])
      && forall p :: p in live <==> LiveSlab(p) || LiveBlock(p)
    }

    method Perform(op: Op, live: seq<nat>) returns (live': seq<nat>)
      requires Valid() && Listing(live)
      modifies this, nf`mem, nf`freeHead, nf`nextPtr, nf`tiles
      ensures Valid() && Listing(live') && View(live') == old(View(live)).Stepped(op)
    {
      hide SlabsOk, NextFit.Allocator.Valid, LiveSlab, LiveBlock, NextFit.Tiling.Alloced, NextFit.Tiling.Freed;
      live' := live;
      match op {
        case Request(size) =>
          var p := Obtain(size);
          if p != NULL { live' := live + [p]; }
        case Release(i) =>
          if i < |live| {
            assert live[i] in live;
            GiveBack(live[i]);
            live' := live[..i] + live[i + 1..];
            Without(live, i);
          }
        case Store(i, off, cell) =>
          if i < |live| {
            assert live[i] in live;
            var n := SizeOf(live[i]);
            if off < n { Store(live[i], off, cell, n); }
          }
      }
    }

    lemma NothingLive(live: seq<nat>)
      requires Valid() && (forall p :: p in live <==> LiveSlab(p) || LiveBlock(p))
      ensures live == [] ==>
                && nfStart + 16 <= end && nf.tiles == [Tile(nfStart, end - nfStart - 16, true)]
                && Elements(stack) == AllSlabs(regionStart, nfStart, unit)
                && |stack| == |AllSlabs(regionStart, nfStart, unit)|
    {
      if live == [] {
        forall k | 0 <= k < |nf.tiles|
          ensures nf.tiles[k].free
        {
          assert !nf.tiles[k].free ==> LiveBlock(nf.tiles[k].addr + 16);
        }
        AllFreeIsWhole(nf.tiles, nfStart, end);
        StackedOnce(slabNext, topOfSlabStack, stack);
        forall a | a in liveSlabs
          ensures false
        {
          assert LiveSlab(a);
        }
        assert liveSlabs == {};
      }
    }

    /** MemAlloc, told by what becomes live. */
    method Obtain(size: nat) returns (p: nat)
      requires Valid()
      modifies this, nf`mem, nf`freeHead, nf`nextPtr, nf`tiles
      ensures Valid()
      ensures p != NULL ==> !old(LiveSlab(p)) && !old(LiveBlock(p))
      ensures forall q :: LiveSlab(q) || LiveBlock(q) <==>
                old(LiveSlab(q)) || old(LiveBlock(q)) || (q == p && p != NULL)
      ensures if size == slabUnitSize && old(stack) != [] then
                p == old(stack)[0] != NULL && stack == old(stack)[1..] && nf.View() == old(nf.View())
              else stack == old(stack) && (nf.View(), p) == old(nf.View()).Alloced(size)
    {
      hide NextFit.Taken, Tiled, Listed, Headed, Coalesced, Rover, AllSlabs, Stacked, NextFit.Tiling.Alloced;
      TiledApart(nf.tiles, nfStart, end);
      p := MemAlloc(size);
      LivePlaces(p);
      if size == slabUnitSize && old(stack) != [] {
        assert p in Elements(old(stack));
      } else if p != NULL {
        var t, need := old(nf.View()), NextFit.FitToAlignSize(size);
        NextFit.LiveAfterTaken(t.tiles, t.Fit(need), need);
      }
    }

    /** MemFree, told by what is live no more. */
    method GiveBack(p: nat)
      requires Valid() && (LiveSlab(p) || LiveBlock(p))
      modifies this, nf`mem, nf`freeHead, nf`nextPtr, nf`tiles
      ensures Valid()
      ensures forall q :: LiveSlab(q) || LiveBlock(q) <==> (old(LiveSlab(q)) || old(LiveBlock(q))) && q != p
      ensures if p < nfStart then stack == [p] + old(stack) && nf.View() == old(nf.View())
              else stack == old(stack) && nf.View() == old(nf.View()).Freed(p)
    {
      hide Tiled, Listed, Headed, Coalesced, Rover, AllSlabs, Stacked, NextFit.Tiling.Freed, CoalesceAt;
      LivePlaces(p);
      TiledApart(nf.tiles, nfStart, end);
      if LiveSlab(p) { SlabAligned(regionStart, nfStart, unit, p); }
      var r := MemFree(p);
      if old(LiveBlock(p)) {
        ghost var k :| 0 <= k < |old(nf.tiles)| && !old(nf.tiles)[k].free && old(nf.tiles)[k].addr + 16 == p;
        LiveAfterFree(old(nf.tiles), k);
      }
    }
  }

  lemma Without(s: seq<nat>, i: nat)
    requires i < |s| && forall k, l | 0 <= k < l < |s| :: s[k] != s[l]
    ensures var t := s[..i] + s[i + 1..];
            && (forall k, l | 0 <= k < l < |t| :: t[k] != t[l])
            && forall p :: p in t <==> p in s && p != s[i]
  {
    var t := s[..i] + s[i + 1..];
    forall p | p in s && p != s[i]
      ensures p in t
    {
      var k :| 0 <= k < |s| && s[k] == p;
      assert t[if k < i then k else k - 1] == p;
    }
  }

  // ---------- the first and every later Mem_Init ----------

  lemma SumDivides(n: nat, unit: nat, r: nat)
    requires r > 0 && n % r == 0 && unit % r == 0
    ensures (n + unit) % r == 0
  {
    var d, m := n / r + unit / r - (n + unit) / r, (n + unit) % r;
    assert r * d == m by {
      assert n == r * (n / r) && unit == r * (unit / r) && n + unit == r * ((n + unit) / r) + m;
    }
    TimesSign(r, d);
  }

  lemma {:induction false} SlabPasses(regionStart: nat, nfStart: nat, unit: nat, rounded: nat, a: nat)
    requires unit > 0 && rounded > 0 && unit % rounded == 0 && a in AllSlabs(regionStart, nfStart, unit)
    ensures (nfStart - a) % rounded == 0
    decreases nfStart
  {
    if a != nfStart - unit {
      SlabPasses(regionStart, nfStart - unit, unit, rounded, a);
      SumDivides(nfStart - unit - a, unit, rounded);
    }
  }

  /** All slabs can be freed exactly when the size Mem_Free divides by is not 0 and divides the slabs' own. */
  lemma SlabsPass(regionStart: nat, nfStart: nat, unit: nat, rounded: nat)
    requires unit > 0 && regionStart + unit <= nfStart
    ensures (forall a | a in AllSlabs(regionStart, nfStart, unit) :: Passes(nfStart, a, rounded)) <==>
            rounded != 0 && unit % rounded == 0
  {
    var top := nfStart - unit;
    assert top in AllSlabs(regionStart, nfStart, unit) && nfStart - top == unit;
    assert Passes(nfStart, top, rounded) <==> rounded != 0 && unit % rounded == 0;
    if rounded != 0 && unit % rounded == 0 {
      forall a | a in AllSlabs(regionStart, nfStart, unit)
        ensures Passes(nfStart, a, rounded)
      {
        SlabPasses(regionStart, nfStart, unit, rounded, a);
      }
    }
  }

  /** mem.c's globals. */
  class Library {
    var initializedOnce: bool
    var heap: Heap?

    constructor ()
      ensures !initializedOnce && heap == null
    {
      initializedOnce, heap := false, null;
    }

    /** The checks of Mem_Init. */
    predicate Large(sizeOfRegion: nat, slabSize: nat) {
      sizeOfRegion >= 4 && slabSize >= 1 && NextFit.FitToAlignSize(slabSize) <= sizeOfRegion / 4
    }

    /** Mem_Init (p3/mem/mem.c:54-129) on a region of a multiple of 64 bytes; base is what mmap returns, 0 if
        it fails. It fails on sizes too small, without memory, and at every call after the first that got as far
        as mmap; but each call, failing or not, sets the size by which Mem_Free tests slabs, and from then on all
        slabs can be freed only if that divides their own size. */
    method MemInit(sizeOfRegion: nat, slabSize: nat, base: nat) returns (p: nat)
      requires sizeOfRegion % 64 == 0 && base % 16 == 0
      requires heap != null ==> initializedOnce && heap.Held()
      modifies this, if heap != null then {heap} else {}
      ensures p != NULL <==> Large(sizeOfRegion, slabSize) && !old(initializedOnce) && base != 0
      ensures p != NULL ==>
                && p == base && heap != null && fresh(heap) && heap.Valid() && heap.liveSlabs == {}
                && heap.regionStart == base && heap.slabUnitSize == slabSize
      ensures p == NULL ==> heap == old(heap)
      ensures heap != null ==> heap.Held()
      ensures old(heap) != null ==>
                heap.View([]) == old(heap.View([])) && heap.liveSlabs == old(heap.liveSlabs)
      ensures old(heap) != null ==>
                var again := NextFit.FitToAlignSize(slabSize);
                (forall a | a in AllSlabs(heap.regionStart, heap.nfStart, heap.unit) ::
                   Passes(heap.nfStart, a, heap.rounded)) <==> again != 0 && heap.unit % again == 0
      ensures initializedOnce <==> old(initializedOnce) || Large(sizeOfRegion, slabSize)
    {
      var rounded := NextFit.FitToAlignSize(slabSize);
      if heap != null {
        heap.rounded := rounded;
        SlabsPass(heap.regionStart, heap.nfStart, heap.unit, rounded);
      }
      if sizeOfRegion < 4 || slabSize < 1 || sizeOfRegion / 4 < rounded || sizeOfRegion < rounded { return NULL; }
      if initializedOnce { return NULL; }
      initializedOnce := true;
      if base == 0 { return NULL; }
      heap := new Heap(base, sizeOfRegion, slabSize);
      return base;
    }
  }
}
