/** The next-fit allocator of p3/mem/mem.c. */
module NextFit {
  import opened Tiles

  /** fitToAlignSize (p3/mem/mem.c:501-511), for the non-negative sizes callers may ask for. */
  function FitToAlignSize(size: nat): (r: nat)
    ensures r % 16 == 0 && size <= r < size + 16
  {
    if size % 16 != 0 then size + (16 - size % 16) else size
  }

  /** i comes before j when counting tiles from s on, around the end. */
  predicate Before(s: nat, i: nat, j: nat) {
    if s <= j then s <= i < j else s <= i || i < j
  }

  /** j is the tile a search from tile s stops at: the first free one with room, around the end. */
  ghost predicate FirstFit(tiles: seq<Tile>, s: nat, need: nat, j: nat) {
    && j < |tiles| && tiles[j].free && need <= tiles[j].len
    && forall i | 0 <= i < |tiles| && Before(s, i, j) && tiles[i].free :: tiles[i].len < need
  }

  /** The tiles once tile j has given up a block of need bytes: cut in two unless it fits exactly. */
  function Taken(tiles: seq<Tile>, j: nat, need: nat): seq<Tile>
    requires j < |tiles|
  {
    var t := SetFree(tiles, j, false);
    if need + 16 <= tiles[j].len then SetFree(Split(t, j, need), j + 1, true) else t
  }

  /** nextPtr afterwards: what is left of tile j, or the next free tile. */
  function AfterTaken(tiles: seq<Tile>, j: nat, need: nat): nat
    requires j < |tiles|
  {
    if need + 16 <= tiles[j].len then tiles[j].addr + 16 + need else AddrOf(tiles, NextFree(tiles, j + 1))
  }

  // ---------- the allocator as steps on tiles ----------

  /** The tile at an address, or the number of tiles. */
  function TileAt(tiles: seq<Tile>, addr: nat, from: nat): (k: nat)
    requires from <= |tiles|
    ensures from <= k <= |tiles| && (k < |tiles| ==> tiles[k].addr == addr)
    ensures forall i | from <= i < k :: tiles[i].addr != addr
    decreases |tiles| - from
  {
    if from == |tiles| || tiles[from].addr == addr then from else TileAt(tiles, addr, from + 1)
  }

  /** The first free tile with room from a tile on, or the number of tiles. */
  function FitFrom(tiles: seq<Tile>, from: nat, need: nat): (j: nat)
    requires from <= |tiles|
    ensures from <= j <= |tiles| && (j < |tiles| ==> tiles[j].free && need <= tiles[j].len)
    ensures forall i | from <= i < j && tiles[i].free :: tiles[i].len < need
    decreases |tiles| - from
  {
    if from == |tiles| || (tiles[from].free && need <= tiles[from].len) then from else FitFrom(tiles, from + 1, need)
  }

  /** The tiles and nextPtr. */
  datatype Tiling = Tiling(tiles: seq<Tile>, next: nat) {
    function Start(): (s: nat)
      ensures s <= |tiles|
    {
      if next == NULL then NextFree(tiles, 0) else TileAt(tiles, next, 0)
    }

    /** The tile an allocation takes: the first fit from nextPtr on, around the end. */
    function Fit(need: nat): (j: nat)
      ensures j <= |tiles|
    {
      var j := FitFrom(tiles, Start(), need);
      if j < |tiles| then j else FitFrom(tiles, 0, need)
    }

    /** nextFitAlloc: what it leaves, and what it returns. */
    function Alloced(size: nat): (Tiling, nat) {
      var need := FitToAlignSize(size);
      if Start() == |tiles| then (this, NULL)
      else if Fit(need) == |tiles| then (Tiling(tiles, tiles[Start()].addr), NULL)
      else (Tiling(Taken(tiles, Fit(need), need), AfterTaken(tiles, Fit(need), need)), tiles[Fit(need)].addr + 16)
    }

    /** nextFitFree of a live pointer. */
    function Freed(ptr: nat): Tiling {
      var k := if ptr < 16 then |tiles| else TileAt(tiles, ptr - 16, 0);
      if k == |tiles| then this
      else Tiling(CoalesceAt(SetFree(tiles, k, true), k), MoveRover(SetFree(tiles, k, true), k, next))
    }
  }

  lemma {:induction false} FitFromIs(tiles: seq<Tile>, from: nat, need: nat, j: nat)
    requires from <= j <= |tiles| && (j < |tiles| ==> tiles[j].free && need <= tiles[j].len)
    requires forall i | from <= i < j && tiles[i].free :: tiles[i].len < need
    ensures FitFrom(tiles, from, need) == j
    decreases j - from
  {
    if from < j { FitFromIs(tiles, from + 1, need, j); }
  }

  lemma FitIs(t: Tiling, need: nat, j: nat)
    requires t.Start() < |t.tiles| && FirstFit(t.tiles, t.Start(), need, j)
    ensures t.Fit(need) == j
  {
    var s := t.Start();
    if s <= j {
      FitFromIs(t.tiles, s, need, j);
    } else {
      FitFromIs(t.tiles, s, need, |t.tiles|);
      FitFromIs(t.tiles, 0, need, j);
    }
  }

  lemma FitNone(t: Tiling, need: nat)
    requires forall i | 0 <= i < |t.tiles| && t.tiles[i].free :: t.tiles[i].len < need
    ensures t.Fit(need) == |t.tiles|
  {
    FitFromIs(t.tiles, t.Start(), need, |t.tiles|);
    FitFromIs(t.tiles, 0, need, |t.tiles|);
  }

  lemma OneTileAt(tiles: seq<Tile>, k: nat)
    requires Apart(tiles) && k < |tiles|
    ensures TileAt(tiles, tiles[k].addr, 0) == k
  {
    OneTile(tiles, k);
  }

  /** With no free tile nextPtr is NULL, or it points at no tile. */
  lemma NothingFree(t: Tiling)
    requires Rover(t.tiles, t.next) && forall i | 0 <= i < |t.tiles| :: !t.tiles[i].free
    ensures t.Start() == |t.tiles|
  {
  }

  /** The three ways nextFitAlloc can end. */
  lemma AllocedCases(t: Tiling, size: nat)
    ensures var need := FitToAlignSize(size);
            && (t.Start() == |t.tiles| ==> t.Alloced(size) == (t, NULL))
            && (t.Start() < |t.tiles| && t.Fit(need) == |t.tiles| ==>
                  t.Alloced(size) == (Tiling(t.tiles, t.tiles[t.Start()].addr), NULL))
            && (t.Start() < |t.tiles| && t.Fit(need) < |t.tiles| ==>
                  t.Alloced(size) == (Tiling(Taken(t.tiles, t.Fit(need), need), AfterTaken(t.tiles, t.Fit(need), need)),
                                      t.tiles[t.Fit(need)].addr + 16))
  {
  }

  // ---------- what the steps do to memory ----------

  /** p is the lowest address of a free tile above a, NULL if there is none. */
  ghost predicate LowestFreeAbove(tiles: seq<Tile>, a: nat, p: nat) {
    && (p == NULL <==> forall i | 0 <= i < |tiles| && tiles[i].free :: tiles[i].addr <= a)
    && (p != NULL ==> p > a && exists i :: 0 <= i < |tiles| && tiles[i].free && tiles[i].addr == p)
    && forall i | 0 <= i < |tiles| && tiles[i].free && tiles[i].addr > a :: p <= tiles[i].addr
  }

  /** An allocation hands out a live tile of just the size asked for, every other live tile is as before, and nextPtr is
      left at the first free tile above it. Without room nothing changes, but for nextPtr, which leaves NULL for the
      head of the list. */
  lemma AllocedIs(t: Tiling, start: nat, end: nat, size: nat)
    requires Tiled(t.tiles, start, end) && Rover(t.tiles, t.next)
    ensures var (left, ptr) := t.Alloced(size);
            && (ptr == NULL ==> left.tiles == t.tiles)
            && (ptr == NULL && t.next != NULL ==> left.next == t.next)
            && (ptr == NULL && t.next == NULL ==> LowestFreeAbove(t.tiles, 0, left.next))
    ensures var (left, ptr) := t.Alloced(size);
            ptr != NULL ==>
              && ptr >= 16 && LowestFreeAbove(left.tiles, ptr - 16, left.next)
              && forall x: Tile :: x in left.tiles && !x.free <==>
                   (x in t.tiles && !x.free) || x == Tile(ptr - 16, FitToAlignSize(size), false)
  {
    hide Tiled, Taken, AfterTaken, FitToAlignSize;
    TiledApart(t.tiles, start, end);
    var need := FitToAlignSize(size);
    AllocedCases(t, size);
    StartIs(t);
    if t.Start() < |t.tiles| && t.Fit(need) < |t.tiles| {
      var j := t.Fit(need);
      LenAligned(t.tiles, start, end, j, need);
      TakenLive(t.tiles, j, need);
      TakenNext(t.tiles, start, end, j, need);
    }
  }

  /** What is handed out was free and had room, and no other such tile comes sooner on the way up from nextPtr and then
      on from the lowest. */
  lemma AllocedFirst(t: Tiling, start: nat, end: nat, size: nat, k: nat)
    requires Tiled(t.tiles, start, end) && Rover(t.tiles, t.next)
    requires k < |t.tiles| && t.tiles[k].free && FitToAlignSize(size) <= t.tiles[k].len
    ensures var (left, ptr) := t.Alloced(size);
            && ptr >= 16
            && (exists i :: 0 <= i < |t.tiles| && t.tiles[i].free && FitToAlignSize(size) <= t.tiles[i].len
                            && t.tiles[i].addr == ptr - 16)
            && if t.next <= ptr - 16 then !(t.next <= t.tiles[k].addr < ptr - 16)
               else ptr - 16 <= t.tiles[k].addr < t.next
  {
    hide Tiled, Taken, AfterTaken, FitToAlignSize, Tiling.Alloced, Rover;
    TiledApart(t.tiles, start, end);
    var need := FitToAlignSize(size);
    AllocedCases(t, size);
    StartIs(t);
    FreeAtStart(t, k);
    var s, j := t.Start(), t.Fit(need);
    assert j < |t.tiles| && t.tiles[j].free && need <= t.tiles[j].len;
    assert if s <= j then !(s <= k < j) else j <= k < s;
    Higher(t.tiles, s, j);
    Higher(t.tiles, s, k);
    Higher(t.tiles, k, j);
  }

  lemma Higher(tiles: seq<Tile>, i: nat, j: nat)
    requires Apart(tiles) && i < |tiles| && j < |tiles|
    ensures i <= j <==> tiles[i].addr <= tiles[j].addr
  {
    AddrsRise(tiles, i);
  }

  /** With a free tile the search has a start, and from NULL it is the lowest. */
  lemma FreeAtStart(t: Tiling, k: nat)
    requires Apart(t.tiles) && Rover(t.tiles, t.next) && k < |t.tiles| && t.tiles[k].free
    ensures t.Start() < |t.tiles| && (t.next == NULL ==> t.Start() <= k)
  {
  }

  lemma StartIs(t: Tiling)
    requires Apart(t.tiles) && Rover(t.tiles, t.next)
    ensures t.next != NULL ==> t.Start() < |t.tiles| && t.tiles[t.Start()].addr == t.next
    ensures t.next == NULL ==> LowestFreeAbove(t.tiles, 0, AddrOf(t.tiles, t.Start()))
  {
    if t.next != NULL {
      var i :| 0 <= i < |t.tiles| && t.tiles[i].free && t.tiles[i].addr == t.next;
      OneTileAt(t.tiles, i);
    } else {
      NextAbove(t.tiles, 0, 0);
    }
  }

  /** The first free tile from k on is the lowest above an address between tile k - 1 and tile k. */
  lemma NextAbove(tiles: seq<Tile>, k: nat, a: nat)
    requires Apart(tiles) && k <= |tiles|
    requires forall i | 0 <= i < k :: tiles[i].addr <= a
    requires forall i | k <= i < |tiles| :: a < tiles[i].addr
    ensures LowestFreeAbove(tiles, a, AddrOf(tiles, NextFree(tiles, k)))
  {
    var n := NextFree(tiles, k);
    if n < |tiles| {
      assert tiles[n].free && a < tiles[n].addr;
      forall i | 0 <= i < |tiles| && tiles[i].free && tiles[i].addr > a
        ensures tiles[n].addr <= tiles[i].addr
      {
        assert i >= k;
      }
    }
  }

  lemma TakenHead(tiles: seq<Tile>, j: nat, need: nat)
    requires j < |tiles| && (need == tiles[j].len || need + 16 <= tiles[j].len)
    ensures j < |Taken(tiles, j, need)| && Taken(tiles, j, need)[j] == Tile(tiles[j].addr, need, false)
  {
    if need + 16 <= tiles[j].len { SplitPlace(SetFree(tiles, j, false), j, need, j); }
  }

  /** A live tile after an allocation is one from before or the one handed out. */
  lemma LiveWas(tiles: seq<Tile>, j: nat, need: nat, x: Tile)
    requires j < |tiles| && (need == tiles[j].len || need + 16 <= tiles[j].len)
    requires x in Taken(tiles, j, need) && !x.free
    ensures (x in tiles && !x.free) || x == Tile(tiles[j].addr, need, false)
  {
    hide Taken;
    var t, cut := Taken(tiles, j, need), if need + 16 <= tiles[j].len then 1 else 0;
    TakenTiles(tiles, j, need);
    TakenHead(tiles, j, need);
    var i :| 0 <= i < |t| && t[i] == x;
    if i != j { assert t[i] == tiles[if i < j then i else i - cut]; }
  }

  lemma LiveStill(tiles: seq<Tile>, j: nat, need: nat, x: Tile)
    requires j < |tiles| && tiles[j].free && (need == tiles[j].len || need + 16 <= tiles[j].len)
    requires x in tiles && !x.free
    ensures x in Taken(tiles, j, need)
  {
    hide Taken;
    var t, cut := Taken(tiles, j, need), if need + 16 <= tiles[j].len then 1 else 0;
    TakenTiles(tiles, j, need);
    var i :| 0 <= i < |tiles| && tiles[i] == x;
    assert t[if i < j then i else i + cut] == x;
  }

  lemma TakenLive(tiles: seq<Tile>, j: nat, need: nat)
    requires j < |tiles| && tiles[j].free && (need == tiles[j].len || need + 16 <= tiles[j].len)
    ensures forall x: Tile :: x in Taken(tiles, j, need) && !x.free <==>
              (x in tiles && !x.free) || x == Tile(tiles[j].addr, need, false)
  {
    hide Taken;
    TakenHead(tiles, j, need);
    forall x: Tile
      ensures x in Taken(tiles, j, need) && !x.free <==>
                (x in tiles && !x.free) || x == Tile(tiles[j].addr, need, false)
    {
      if x in Taken(tiles, j, need) && !x.free { LiveWas(tiles, j, need, x); }
      if x in tiles && !x.free { LiveStill(tiles, j, need, x); }
    }
  }

  lemma TakenNext(tiles: seq<Tile>, start: nat, end: nat, j: nat, need: nat)
    requires Tiled(tiles, start, end) && j < |tiles| && tiles[j].free && need % 16 == 0
    requires need == tiles[j].len || need + 16 <= tiles[j].len
    ensures LowestFreeAbove(Taken(tiles, j, need), tiles[j].addr, AfterTaken(tiles, j, need))
  {
    hide Tiled, Split, NextFree, Apart, LowestFreeAbove;
    var t := SetFree(tiles, j, false);
    SetFreeTiled(tiles, start, end, j, false);
    if need + 16 <= tiles[j].len {
      SplitTiled(t, start, end, j, need);
      SetFreeTiled(Split(t, j, need), start, end, j + 1, true);
      TiledApart(Taken(tiles, j, need), start, end);
      SplitTile(t, j, need);
      SplitPlace(t, j, need, j);
      AboveCut(Taken(tiles, j, need), j);
    } else {
      TiledApart(t, start, end);
      AboveWhole(tiles, j);
    }
  }

  lemma AboveWhole(tiles: seq<Tile>, j: nat)
    requires j < |tiles| && Apart(SetFree(tiles, j, false))
    ensures LowestFreeAbove(SetFree(tiles, j, false), tiles[j].addr, AddrOf(tiles, NextFree(tiles, j + 1)))
  {
    hide LowestFreeAbove, Apart;
    var t := SetFree(tiles, j, false);
    SameNext(tiles, t, j);
    AboveTile(t, j);
  }

  lemma SameNext(tiles: seq<Tile>, t: seq<Tile>, j: nat)
    requires j < |tiles| && t == SetFree(tiles, j, false)
    ensures AddrOf(t, NextFree(t, j + 1)) == AddrOf(tiles, NextFree(tiles, j + 1))
  {
    NextFreeIs(t, j + 1, NextFree(tiles, j + 1));
  }

  lemma AboveTile(t: seq<Tile>, j: nat)
    requires Apart(t) && j < |t|
    ensures LowestFreeAbove(t, t[j].addr, AddrOf(t, NextFree(t, j + 1)))
  {
    hide LowestFreeAbove, Apart;
    AddrsRise(t, j);
    NextAbove(t, j + 1, t[j].addr);
  }

  lemma AddrsRise(tiles: seq<Tile>, j: nat)
    requires Apart(tiles) && j < |tiles|
    ensures forall i | 0 <= i <= j :: tiles[i].addr <= tiles[j].addr
    ensures forall i | j < i < |tiles| :: tiles[j].addr < tiles[i].addr
  {
  }

  lemma AboveCut(t: seq<Tile>, j: nat)
    requires Apart(t) && j + 1 < |t| && t[j + 1].free
    ensures LowestFreeAbove(t, t[j].addr, t[j + 1].addr)
  {
    hide LowestFreeAbove, Apart;
    NextFreeIs(t, j + 1, j + 1);
    AboveTile(t, j);
  }

  /** Freeing takes just its tile off the live ones, and nextPtr stays at the free tile that its place is in now. */
  lemma FreedIs(t: Tiling, start: nat, end: nat, ptr: nat, k: nat)
    requires Tiled(t.tiles, start, end) && Rover(t.tiles, t.next)
    requires k < |t.tiles| && !t.tiles[k].free && ptr == t.tiles[k].addr + 16
    ensures var left := t.Freed(ptr);
            && (forall x: Tile :: x in left.tiles && !x.free <==> x in t.tiles && !x.free && x.addr != ptr - 16)
            && (left.next == NULL <==> t.next == NULL)
            && (t.next != NULL ==> exists i :: 0 <= i < |left.tiles| && left.tiles[i].free
                                    && left.tiles[i].addr == left.next && left.next <= t.next < left.tiles[i].End())
  {
    hide Tiled, CoalesceAt, MoveRover, Apart, SetFree;
    TiledApart(t.tiles, start, end);
    OneTileAt(t.tiles, k);
    var freed := SetFree(t.tiles, k, true);
    SetFreeTiled(t.tiles, start, end, k, true);
    CoalescedLive(freed, k);
    OneFreed(t.tiles, k);
    if t.next != NULL {
      var r :| 0 <= r < |t.tiles| && t.tiles[r].free && t.tiles[r].addr == t.next;
      RoverFollows(freed, start, end, k, r);
    } else {
      RoverNull(freed, start, end, k);
    }
  }

  lemma OneFreed(tiles: seq<Tile>, k: nat)
    requires Apart(tiles) && k < |tiles| && !tiles[k].free
    ensures forall x: Tile :: x in SetFree(tiles, k, true) && !x.free <==>
              x in tiles && !x.free && x.addr != tiles[k].addr
  {
    hide Apart;
    OneTile(tiles, k);
    var freed := SetFree(tiles, k, true);
    forall x: Tile
      ensures x in freed && !x.free <==> x in tiles && !x.free && x.addr != tiles[k].addr
    {
      if x in tiles && !x.free && x.addr != tiles[k].addr {
        var i :| 0 <= i < |tiles| && tiles[i] == x;
        assert freed[i] == x;
      }
    }
  }

  lemma RoverNull(tiles: seq<Tile>, start: nat, end: nat, k: nat)
    requires Tiled(tiles, start, end) && k < |tiles|
    ensures MoveRover(tiles, k, NULL) == NULL
  {
    TiledApart(tiles, start, end);
  }

  lemma CoalescedLive(tiles: seq<Tile>, k: nat)
    requires k < |tiles| && tiles[k].free
    ensures forall x: Tile :: x in CoalesceAt(tiles, k) && !x.free <==> x in tiles && !x.free
  {
    hide CoalesceAt;
    var t := CoalesceAt(tiles, k);
    var p, n := if k > 0 && tiles[k - 1].free then 1 else 0, if k + 1 < |tiles| && tiles[k + 1].free then 1 else 0;
    CoalesceAtShifts(tiles, k, p, n);
    forall x: Tile
      ensures x in t && !x.free ==> x in tiles
    {
      if x in t && !x.free {
        var i :| 0 <= i < |t| && t[i] == x;
        assert x == tiles[if i < k - p then i else i + p + n];
      }
    }
    forall x: Tile
      ensures x in tiles && !x.free ==> x in t
    {
      if x in tiles && !x.free {
        var i :| 0 <= i < |tiles| && tiles[i] == x;
        assert t[if i < k - p then i else i - p - n] == x;
      }
    }
  }

  lemma RoverFollows(tiles: seq<Tile>, start: nat, end: nat, k: nat, r: nat)
    requires Tiled(tiles, start, end) && k < |tiles| && r < |tiles| && tiles[k].free && tiles[r].free
    ensures var left, next := CoalesceAt(tiles, k), MoveRover(tiles, k, tiles[r].addr);
            && next != NULL
            && exists i :: 0 <= i < |left| && left[i].free && left[i].addr == next
                 && next <= tiles[r].addr < left[i].End()
  {
    hide Tiled, CoalesceAt, MoveRover;
    TiledApart(tiles, start, end);
    var p, n := if k > 0 && tiles[k - 1].free then 1 else 0, if k + 1 < |tiles| && tiles[k + 1].free then 1 else 0;
    RoverTile(tiles, k, r, p, n);
    CoalesceAtShifts(tiles, k, p, n);
    JoinedEnd(tiles, start, end, k, p, n);
    var left := CoalesceAt(tiles, k);
    var i := if r < k - p then r else if r <= k + n then k - p else r - p - n;
    InOrder(tiles, k - p, r);
    InOrder(tiles, r, k + n);
    assert left[i].free && left[i].addr == MoveRover(tiles, k, tiles[r].addr);
  }

  lemma InOrder(tiles: seq<Tile>, i: nat, j: nat)
    requires Apart(tiles) && i < |tiles| && j < |tiles|
    ensures i <= j ==> tiles[i].addr <= tiles[j].addr && tiles[i].End() <= tiles[j].End()
  {
  }

  lemma JoinedEnd(tiles: seq<Tile>, start: nat, end: nat, k: nat, p: nat, n: nat)
    requires Tiled(tiles, start, end) && k < |tiles| && tiles[k].free
    requires p == if k > 0 && tiles[k - 1].free then 1 else 0
    requires n == if k + 1 < |tiles| && tiles[k + 1].free then 1 else 0
    ensures k - p < |CoalesceAt(tiles, k)| && CoalesceAt(tiles, k)[k - p].End() == tiles[k + n].End()
  {
    if n == 1 { assert tiles[k + 1].addr == tiles[k].End(); }
    if p == 1 { assert tiles[k].addr == tiles[k - 1].End(); }
  }

  // ---------- the allocator as the code has it ----------

  lemma WholeRegion(mem: Memory, tiles: seq<Tile>, start: nat, end: nat)
    requires start > 0 && start % 16 == 0 && start + 16 <= end && (end - start) % 16 == 0
    requires tiles == [Tile(start, end - start - 16, true)]
    requires mem == map[start := Cell(end - start - 16, NULL)]
    ensures Tiled(tiles, start, end) && Listed(mem, start, tiles) && Headed(mem, tiles)
    ensures Coalesced(tiles) && Rover(tiles, start)
  {
    assert LinksOn(mem, tiles, 0);
    assert tiles[0].free && tiles[0].addr == start;
  }

  lemma LenAligned(tiles: seq<Tile>, start: nat, end: nat, j: nat, need: nat)
    requires Tiled(tiles, start, end) && j < |tiles| && need <= tiles[j].len && need % 16 == 0
    ensures need == tiles[j].len || need + 16 <= tiles[j].len
  {
    assert tiles[j].len % 16 == 0;
  }

  lemma SplitTile(tiles: seq<Tile>, j: nat, need: nat)
    requires j < |tiles| && need + 16 <= tiles[j].len
    ensures Split(tiles, j, need)[j + 1] == Tile(tiles[j].addr + 16 + need, tiles[j].len - need - 16, false)
  {
  }

  lemma TakenValid(tiles: seq<Tile>, j: nat, need: nat)
    requires Coalesced(tiles) && j < |tiles| && tiles[j].free && need <= tiles[j].len
    ensures Coalesced(Taken(tiles, j, need)) && Rover(Taken(tiles, j, need), AfterTaken(tiles, j, need))
  {
    hide NextFree;
    var t := Taken(tiles, j, need);
    if need + 16 <= tiles[j].len {
      assert t[j + 1].free && t[j + 1].addr == AfterTaken(tiles, j, need);
      forall i, k | 0 <= i && k == i + 1 < |t|
        ensures !(t[i].free && t[k].free)
      {
        var x, y := tiles[if i <= j then i else i - 1], tiles[if k <= j then k else k - 1];
      }
    } else {
      var n := NextFree(tiles, j + 1);
      if n < |tiles| { assert t[n].free && t[n].addr == AfterTaken(tiles, j, need); }
    }
  }

  /** Where the old tiles are afterwards. */
  lemma TakenTiles(tiles: seq<Tile>, j: nat, need: nat)
    requires j < |tiles|
    ensures var t, cut := Taken(tiles, j, need), if need + 16 <= tiles[j].len then 1 else 0;
            && |t| == |tiles| + cut && t[j].addr == tiles[j].addr && !t[j].free && (cut == 1 ==> t[j + 1].free)
            && forall i | 0 <= i < |tiles| && i != j :: t[if i < j then i else i + cut] == tiles[i]
  {
    hide Taken;
    TakenTile(tiles, j, need, j);
    forall i | 0 <= i < |tiles| && i != j
      ensures Taken(tiles, j, need)[if i < j then i else i + if need + 16 <= tiles[j].len then 1 else 0] == tiles[i]
    {
      TakenTile(tiles, j, need, i);
    }
  }

  lemma TakenTile(tiles: seq<Tile>, j: nat, need: nat, i: nat)
    requires j < |tiles| && i < |tiles|
    ensures var t, cut := Taken(tiles, j, need), if need + 16 <= tiles[j].len then 1 else 0;
            && |t| == |tiles| + cut && t[j].addr == tiles[j].addr && !t[j].free && (cut == 1 ==> t[j + 1].free)
            && (i < j ==> t[i] == tiles[i]) && (i > j ==> t[i + cut] == tiles[i])
  {
    hide Split;
    var marked := SetFree(tiles, j, false);
    if need + 16 <= tiles[j].len {
      SplitPlace(marked, j, need, j);
      SplitPlace(marked, j, need, i);
      assert Split(marked, j, need)[j].addr == tiles[j].addr;
    }
  }

  lemma SplitPlace(tiles: seq<Tile>, j: nat, need: nat, i: nat)
    requires j < |tiles| && need + 16 <= tiles[j].len && i < |tiles|
    ensures var t := Split(tiles, j, need);
            && t[j] == Tile(tiles[j].addr, need, tiles[j].free)
            && (i < j ==> t[i] == tiles[i]) && (i > j ==> t[i + 1] == tiles[i])
  {
  }

  lemma LiveAfterTaken(tiles: seq<Tile>, j: nat, need: nat)
    requires j < |tiles| && tiles[j].free
    ensures LiveSet(Taken(tiles, j, need)) == LiveSet(tiles) + {tiles[j].addr + 16}
    ensures Apart(tiles) ==> tiles[j].addr + 16 !in LiveSet(tiles)
  {
    hide Taken;
    TakenTiles(tiles, j, need);
    var t, cut := Taken(tiles, j, need), if need + 16 <= tiles[j].len then 1 else 0;
    forall a | a in LiveSet(t)
      ensures a in LiveSet(tiles) + {tiles[j].addr + 16}
    {
      var i :| 0 <= i < |t| && !t[i].free && t[i].addr + 16 == a;
      if i != j { assert t[i] == tiles[if i < j then i else i - cut]; }
    }
    forall a | a in LiveSet(tiles)
      ensures a in LiveSet(t)
    {
      var i :| 0 <= i < |tiles| && !tiles[i].free && tiles[i].addr + 16 == a;
      assert t[if i < j then i else i + cut] == tiles[i];
    }
    NotLive(tiles, j);
  }

  lemma NotLive(tiles: seq<Tile>, j: nat)
    requires j < |tiles| && tiles[j].free
    ensures Apart(tiles) ==> tiles[j].addr + 16 !in LiveSet(tiles)
  {
    if Apart(tiles) { OneTile(tiles, j); }
  }

  class Allocator {
    const start: nat
    const end: nat
    var mem: Memory
    var freeHead: nat
    var nextPtr: nat
    ghost var tiles: seq<Tile>

    /** The end of Mem_Init (p3/mem/mem.c:120-124): one free block fills the region. */
    constructor (start: nat, size: nat)
      requires start > 0 && start % 16 == 0 && size % 16 == 0 && size >= 16
      ensures Valid() && this.start == start && end == start + size
      ensures tiles == [Tile(start, size - 16, true)] && nextPtr == start
    {
      this.start, end := start, start + size;
      mem := map[start := Cell(size - 16, NULL)];
      freeHead, nextPtr := start, start;
      tiles := [Tile(start, size - 16, true)];
      new;
      WholeRegion(mem, tiles, start, end);
    }

    ghost function View(): Tiling
      reads this
    {
      Tiling(tiles, nextPtr)
    }

    /** The list operations need only this much. */
    ghost predicate OnList()
      reads this
    {
      Tiled(tiles, start, end) && Listed(mem, freeHead, tiles)
    }

    ghost predicate Valid()
      reads this
    {
      OnList() && Headed(mem, tiles) && Coalesced(tiles) && Rover(tiles, nextPtr)
    }

    /** A caller writes in a block it was given: the 16 bytes at a become cell. No header is among them. */
    method Store(a: nat, cell: Cell, ghost k: nat)
      requires Valid() && k < |tiles| && tiles[k].addr + 16 <= a < tiles[k].End()
      modifies `mem
      ensures Valid() && mem == old(mem)[a := cell]
    {
      TiledApart(tiles, start, end);
      mem := mem[a := cell];
      forall i | 0 <= i < |tiles|
        ensures Len(mem, tiles[i].addr) == Len(old(mem), tiles[i].addr)
        ensures Link(mem, tiles[i].addr) == Link(old(mem), tiles[i].addr)
      {
        assert tiles[i].addr != a;
      }
      forall i | 0 <= i < |tiles| && tiles[i].free
        ensures LinksOn(mem, tiles, i)
      {
        assert LinksOn(old(mem), tiles, i);
      }
    }

    /** removeFreeNode (p3/mem/mem.c:425-445); freePtr is tile k, which may have left the list already. */
    method RemoveFreeNode(freePtr: nat, ghost k: nat)
      requires OnList() && k < |tiles| && freePtr == tiles[k].addr
      modifies `mem, `freeHead, `tiles
      ensures OnList() && tiles == SetFree(old(tiles), k, false)
      ensures OnlyLinks(old(mem), mem, tiles)
      ensures !old(tiles)[k].free ==> mem == old(mem) && freeHead == old(freeHead)
    {
      hide NextFree, Listed, SetLink, OnlyLinks, Tiled;
      TiledApart(tiles, start, end);
      SetFreeTiled(tiles, start, end, k, false);
      ghost var j: nat := HeadTile(mem, freeHead, tiles);
      if freeHead == freePtr {
        UnlinkHead(mem, freeHead, tiles, k);
        SameMemory(mem, SetFree(tiles, k, false));
        freeHead := Link(mem, freePtr);
        tiles := SetFree(tiles, k, false);
        return;
      }
      var itr := freeHead;
      while itr != NULL
        invariant mem == old(mem) && freeHead == old(freeHead) && tiles == old(tiles)
        invariant j <= |tiles| && itr == AddrOf(tiles, j) && (j < |tiles| ==> tiles[j].free)
        invariant tiles[k].free ==> j < k
        decreases |tiles| - j
      {
        ghost var next := NextTile(mem, freeHead, tiles, j);
        if Link(mem, itr) == freePtr {
          ApartSetFree(tiles, k, false);
          SetLinkFrame(mem, SetFree(tiles, k, false), j, Link(mem, freePtr));
          UnlinkAfter(mem, freeHead, tiles, j, k, SetLink(mem, itr, Link(mem, freePtr)));
          mem := SetLink(mem, itr, Link(mem, freePtr));
          tiles := SetFree(tiles, k, false);
          return;
        }
        itr := Link(mem, itr);
        j := next;
      }
      assert tiles == SetFree(tiles, k, false);
      SameMemory(mem, tiles);
    }

    /** addFreeNode (p3/mem/mem.c:447-488); freePtr is tile k, not on the list. */
    method AddFreeNode(freePtr: nat, ghost k: nat)
      requires OnList() && k < |tiles| && !tiles[k].free && freePtr == tiles[k].addr
      modifies `mem, `freeHead, `tiles
      ensures OnList() && tiles == SetFree(old(tiles), k, true)
      ensures OnlyLinks(old(mem), mem, tiles)
    {
      hide NextFree, Listed, SetLink, OnlyLinks, SetFree;
      TiledApart(tiles, start, end);
      SetFreeTiled(tiles, start, end, k, true);
      ghost var j: nat := HeadTile(mem, freeHead, tiles);
      var itr := freeHead;
      if itr == NULL || itr > freePtr {
        LinkFirst(mem, freeHead, tiles, k, SetLink(mem, freePtr, itr));
        ApartSetFree(tiles, k, true);
        SetLinkFrame(mem, SetFree(tiles, k, true), k, itr);
        mem := SetLink(mem, freePtr, itr);
        freeHead := freePtr;
        tiles := SetFree(tiles, k, true);
        return;
      }
      while itr != NULL
        invariant mem == old(mem) && freeHead == old(freeHead) && tiles == old(tiles)
        invariant j < k && itr == tiles[j].addr && tiles[j].free
        decreases |tiles| - j
      {
        ghost var next := NextTile(mem, freeHead, tiles, j);
        if itr == freePtr { return; }
        if Link(mem, itr) == NULL || Link(mem, itr) > freePtr {
          if next < |tiles| { Higher(tiles, next, k); }
          LinkAfterFrame(mem, tiles, j, k, Link(mem, itr));
          LinkAfter(mem, freeHead, tiles, j, k, SetLink(SetLink(mem, freePtr, Link(mem, itr)), itr, freePtr));
          mem := SetLink(SetLink(mem, freePtr, Link(mem, itr)), itr, freePtr);
          tiles := SetFree(tiles, k, true);
          return;
        }
        itr := Link(mem, itr);
        j := next;
      }
    }

    /** The scan of nextFitCoalesce: which neighbours of tile k are free. */
    method Neighbours(freeHeadPtr: nat, ghost k: nat) returns (prevNeighbor: nat, nextNeighborIsFree: bool)
      requires OnList() && Headed(mem, tiles) && k < |tiles| && freeHeadPtr == tiles[k].addr
      ensures prevNeighbor == if k > 0 && tiles[k - 1].free then tiles[k - 1].addr else NULL
      ensures nextNeighborIsFree <==> k + 1 < |tiles| && tiles[k + 1].free
    {
      hide NextFree, Listed, Tiled, Headed;
      HeaderLen(mem, tiles, k);
      var nextNeighbor := freeHeadPtr + Len(mem, freeHeadPtr) + HEADER;
      prevNeighbor, nextNeighborIsFree := NULL, false;
      var itr := freeHead;
      ghost var j: nat := HeadTile(mem, freeHead, tiles);
      while itr != NULL
        invariant j <= |tiles| && itr == AddrOf(tiles, j) && (j < |tiles| ==> tiles[j].free)
        invariant prevNeighbor == if 0 <= k - 1 < j && tiles[k - 1].free then tiles[k - 1].addr else NULL
        invariant nextNeighborIsFree <==> k + 1 < j && tiles[k + 1].free
        decreases |tiles| - j
      {
        ghost var next := NextTile(mem, freeHead, tiles, j);
        EndIsNext(tiles, start, end, j, k);
        EndIsNext(tiles, start, end, k, j);
        HeaderLen(mem, tiles, j);
        var nextNode := itr + Len(mem, itr) + HEADER;
        if nextNode == freeHeadPtr {
          prevNeighbor := itr;
        } else if itr == nextNeighbor {
          nextNeighborIsFree := true;
        }
        itr := Link(mem, itr);
        j := next;
      }
      TiledApart(tiles, start, end);
    }

    /** nextFitCoalesce, "coalesce with next neighbor" (p3/mem/mem.c:401-410). */
    method TakeNext(freeHeadPtr: nat, nextNeighbor: nat, ghost k: nat)
      requires OnList() && Headed(mem, tiles) && k + 1 < |tiles| && tiles[k].free && tiles[k + 1].free
      requires freeHeadPtr == tiles[k].addr && nextNeighbor == tiles[k + 1].addr
      modifies `mem, `freeHead, `nextPtr, `tiles
      ensures OnList() && Headed(mem, tiles) && tiles == Merge(old(tiles), k)
      ensures nextPtr == if old(nextPtr) == nextNeighbor then freeHeadPtr else old(nextPtr)
    {
      hide Tiled, Listed, Headed, Merge, OnlyLinks, SetLen;
      if nextNeighbor == nextPtr { nextPtr := freeHeadPtr; }
      ghost var tiles0, mem0 := tiles, mem;
      RemoveFreeNode(nextNeighbor, k + 1);
      HeadedAfterRemove(mem0, tiles0, k + 1, mem);
      MergeUnlinked(mem, freeHead, tiles, start, end, k);
      MergeForgets(tiles0, k);
      HeaderLens(mem, tiles, k + 1, k);
      mem := SetLen(mem, freeHeadPtr, Len(mem, freeHeadPtr) + Len(mem, nextNeighbor) + HEADER);
      tiles := Merge(tiles, k);
    }

    /** nextFitCoalesce, "coalesce with prev neighbor" (p3/mem/mem.c:412-422). */
    method GiveToPrev(prevNeighbor: nat, freeHeadPtr: nat, ghost k: nat)
      requires OnList() && Headed(mem, tiles) && 0 < k < |tiles| && tiles[k - 1].free && tiles[k].free
      requires prevNeighbor == tiles[k - 1].addr && freeHeadPtr == tiles[k].addr
      modifies `mem, `freeHead, `nextPtr, `tiles
      ensures OnList() && Headed(mem, tiles) && tiles == Merge(old(tiles), k - 1)
      ensures nextPtr == if old(nextPtr) == freeHeadPtr then prevNeighbor else old(nextPtr)
    {
      hide Tiled, Listed, Headed, Merge, OnlyLinks, SetLen, SetLink, NextFree;
      if freeHeadPtr == nextPtr { nextPtr := prevNeighbor; }
      ghost var tiles0, mem0 := tiles, mem;
      TiledApart(tiles, start, end);
      NextFreeIs(tiles, k, k);
      SetFreeTiled(tiles, start, end, k, false);
      ApartSetFree(tiles, k, false);
      UnlinkAfter(mem, freeHead, tiles, k - 1, k, SetLink(mem, prevNeighbor, Link(mem, freeHeadPtr)));
      SetLinkFrame(mem, SetFree(tiles, k, false), k - 1, Link(mem, freeHeadPtr));
      mem := SetLink(mem, prevNeighbor, Link(mem, freeHeadPtr));
      HeadedAfterRemove(mem0, tiles0, k, mem);
      tiles := SetFree(tiles, k, false);
      MergeUnlinked(mem, freeHead, tiles, start, end, k - 1);
      MergeForgets(tiles0, k - 1);
      var length := Len(mem, prevNeighbor) + Len(mem, freeHeadPtr) + HEADER;
      LenAside(mem, freeHead, tiles, prevNeighbor, length);
      HeaderLens(mem, tiles, k, k - 1);
      mem := SetLen(mem, prevNeighbor, length);
      SetFreeTwice(tiles0, k);
      RemoveFreeNode(freeHeadPtr, k);
      tiles := Merge(tiles, k - 1);
    }

    /** nextFitCoalesce (p3/mem/mem.c:361-423) of the block just freed, tile k. */
    method NextFitCoalesce(freeHeadPtr: nat, ghost k: nat)
      requires OnList() && Headed(mem, tiles) && k < |tiles| && tiles[k].free && freeHeadPtr == tiles[k].addr
      modifies `mem, `freeHead, `nextPtr, `tiles
      ensures OnList() && Headed(mem, tiles) && tiles == CoalesceAt(old(tiles), k)
      ensures nextPtr == MoveRover(old(tiles), k, old(nextPtr))
    {
      hide Tiled, Listed, Headed;
      var prevNeighbor, nextNeighborIsFree := Neighbours(freeHeadPtr, k);
      NeighbourAddr(mem, tiles, start, end, k);
      if nextNeighborIsFree {
        TakeNext(freeHeadPtr, freeHeadPtr + Len(mem, freeHeadPtr) + HEADER, k);
      }
      if prevNeighbor != NULL {
        GiveToPrev(prevNeighbor, freeHeadPtr, k);
      }
    }

    /** nextFitFree (p3/mem/mem.c:329-359). A header that says MAGIC is that of a live block. */
    method NextFitFree(ptr: nat) returns (r: int)
      requires Valid() && ptr >= 16
      requires Link(mem, ptr - 16) == MAGIC ==>
                 exists k | 0 <= k < |tiles| :: !tiles[k].free && tiles[k].addr == ptr - 16
      modifies `mem, `freeHead, `nextPtr, `tiles
      ensures Valid()
      ensures r == 0 <==> exists k | 0 <= k < |old(tiles)| :: !old(tiles)[k].free && old(tiles)[k].addr == ptr - 16
      ensures r != 0 ==> r == -1 && unchanged(this)
      ensures forall k | 0 <= k < |old(tiles)| && !old(tiles)[k].free && old(tiles)[k].addr == ptr - 16 ::
                && tiles == CoalesceAt(SetFree(old(tiles), k, true), k)
                && nextPtr == MoveRover(SetFree(old(tiles), k, true), k, old(nextPtr))
      ensures r == 0 ==> View() == old(View()).Freed(ptr)
      ensures r == 0 ==>
                && (forall x: Tile :: x in tiles && !x.free <==> x in old(tiles) && !x.free && x.addr != ptr - 16)
                && (nextPtr == NULL <==> old(nextPtr) == NULL)
                && (nextPtr != NULL ==> exists i :: 0 <= i < |tiles| && tiles[i].free && tiles[i].addr == nextPtr
                                         && nextPtr <= old(nextPtr) < tiles[i].End())
    {
      hide Tiled, Listed, Headed, Coalesced, Rover, CoalesceAt, MoveRover, SetFree;
      var allocatedPtr := ptr - HEADER;
      if Link(mem, allocatedPtr) != MAGIC {
        LiveMagic(mem, tiles);
        return -1;
      }
      ghost var k: nat :| k < |tiles| && !tiles[k].free && tiles[k].addr == ptr - 16;
      TiledApart(tiles, start, end);
      OneTile(tiles, k);
      OneTileAt(tiles, k);
      FreedIs(View(), start, end, ptr, k);
      FreeTile(allocatedPtr, k);
      r := 0;
    }

    /** The rest of nextFitFree, for live tile k. */
    method FreeTile(allocatedPtr: nat, ghost k: nat)
      requires Valid() && k < |tiles| && !tiles[k].free && allocatedPtr == tiles[k].addr
      modifies `mem, `freeHead, `nextPtr, `tiles
      ensures Valid()
      ensures tiles == CoalesceAt(SetFree(old(tiles), k, true), k)
      ensures nextPtr == MoveRover(SetFree(old(tiles), k, true), k, old(nextPtr))
    {
      hide Tiled, Listed, Headed, Coalesced, Rover, OnlyLinks, SetLink, CoalesceAt, MoveRover;
      ghost var tiles0 := tiles;
      TiledApart(tiles, start, end);
      CleanMagic(mem, freeHead, tiles, k);
      mem := SetLink(mem, allocatedPtr, NULL);
      ghost var mem0 := mem;
      AddFreeNode(allocatedPtr, k);
      HeadedAfterAdd(mem0, tiles0, k, mem);
      FreedNeighbours(tiles0, k, nextPtr);
      ApartSetFree(tiles0, k, true);
      CoalesceAtDone(tiles, k, nextPtr);
      NextFitCoalesce(allocatedPtr, k);
    }

    /** The part of nextFitAlloc for a chunk with room, tile j (p3/mem/mem.c:293-309). */
    method TakeTile(itr: nat, alignedSize: nat, ghost j: nat)
      requires Valid() && j < |tiles| && tiles[j].free && itr == tiles[j].addr
      requires alignedSize <= tiles[j].len && alignedSize % 16 == 0
      modifies `mem, `freeHead, `nextPtr, `tiles
      ensures Valid() && tiles == Taken(old(tiles), j, alignedSize) && nextPtr == AfterTaken(old(tiles), j, alignedSize)
    {
      hide Tiled, Listed, Headed, Coalesced, Rover, HeadedBut, OnlyLinks, NextFree, Split, SetLen, SetFree;
      ghost var tiles0, mem0 := tiles, mem;
      HeaderLen(mem, tiles, j);
      ghost var next := NextTile(mem, freeHead, tiles, j);
      TiledApart(tiles, start, end);
      LenAligned(tiles, start, end, j, alignedSize);
      if Len(mem, itr) + HEADER == alignedSize + HEADER {
        nextPtr := Link(mem, itr);
      }
      var currLen := Len(mem, itr);
      RemoveFreeNode(itr, j);
      HeadedAfterRemove(mem0, tiles0, j, mem);
      ApartSetFree(tiles0, j, false);
      ghost var mem1 := mem;
      mem := mem[itr := Cell(alignedSize, MAGIC)];
      TakenValid(tiles0, j, alignedSize);
      if currLen + HEADER > alignedSize + HEADER {
        var leftOver := itr + alignedSize + HEADER;
        mem := SetLen(mem, leftOver, currLen - alignedSize - HEADER);
        TakePart(mem1, freeHead, tiles, j, alignedSize, mem);
        SplitTiled(tiles, start, end, j, alignedSize);
        tiles := Split(tiles, j, alignedSize);
        ghost var tiles2, mem2 := tiles, mem;
        SplitTile(SetFree(tiles0, j, false), j, alignedSize);
        AddFreeNode(leftOver, j + 1);
        HeadedAfterAdd(mem2, tiles2, j + 1, mem);
        nextPtr := leftOver;
      } else {
        TakeExact(mem1, freeHead, tiles, j);
      }
    }

    /** Where a search starts: at nextPtr, or at the head of the list when that is NULL. */
    ghost predicate StartsAt(s: nat)
      reads this
    {
      s < |tiles| && tiles[s].free && if nextPtr == NULL then s == NextFree(tiles, 0) else tiles[s].addr == nextPtr
    }

    /** The do-while loop of nextFitAlloc: the chunk to use, or NULL once it has come around. */
    method Search(alignedSize: nat, ghost s: nat) returns (itr: nat, ghost j: nat)
      requires Valid() && s < |tiles| && tiles[s].free && nextPtr == tiles[s].addr
      ensures itr == NULL ==> forall i | 0 <= i < |tiles| && tiles[i].free :: tiles[i].len < alignedSize
      ensures itr != NULL ==> FirstFit(tiles, s, alignedSize, j) && itr == tiles[j].addr
    {
      hide Tiled, Listed, Headed, Coalesced, Rover, NextFree;
      TiledApart(tiles, start, end);
      ghost var h := HeadTile(mem, freeHead, tiles);
      OneTile(tiles, s);
      itr, j := nextPtr, s;
      ghost var wrapped := false;
      var first := true;
      while first || itr != nextPtr
        invariant 0 <= j < |tiles| && tiles[j].free && itr == tiles[j].addr && h <= s
        invariant if wrapped then j <= s else s <= j
        invariant if first then j == s && !wrapped else j == s ==> wrapped
        invariant forall i | 0 <= i < |tiles| && tiles[i].free && (if wrapped then s <= i || i < j else s <= i < j) ::
                    tiles[i].len < alignedSize
        decreases !wrapped, |tiles| - j
      {
        ghost var next := NextTile(mem, freeHead, tiles, j);
        HeaderLen(mem, tiles, j);
        if Len(mem, itr) + HEADER >= alignedSize + HEADER { return; }
        NotNull(tiles, next);
        if Link(mem, itr) == NULL {
          itr, j, wrapped := freeHead, h, true;
        } else {
          itr, j := Link(mem, itr), next;
        }
        first := false;
      }
      itr := NULL;
    }

    /** The start of nextFitAlloc and its search: the chunk to use, or NULL. */
    method FindChunk(alignedSize: nat) returns (itr: nat, ghost j: nat)
      requires Valid()
      modifies `nextPtr
      ensures Valid() && old(View()).Start() <= |tiles|
      ensures itr == NULL ==> forall i | 0 <= i < |tiles| && tiles[i].free :: tiles[i].len < alignedSize
      ensures itr != NULL ==> old(StartsAt(View().Start())) && FirstFit(tiles, old(View()).Start(), alignedSize, j)
                              && itr == tiles[j].addr
      ensures nextPtr == if old(View()).Start() == |tiles| then old(nextPtr) else tiles[old(View()).Start()].addr
    {
      hide Tiled, Listed, Headed, Coalesced, NextFree;
      ghost var h := HeadTile(mem, freeHead, tiles);
      TiledApart(tiles, start, end);
      NotNull(tiles, h);
      itr, j := NULL, 0;
      if freeHead == NULL {
        NothingFree(View());
        return;
      }
      if nextPtr == NULL { nextPtr := freeHead; }
      ghost var s: nat :| s < |tiles| && tiles[s].free && tiles[s].addr == nextPtr;
      OneTile(tiles, s);
      OneTileAt(tiles, s);
      assert old(StartsAt(s)) && s == old(View()).Start();
      itr, j := Search(alignedSize, s);
    }

    /** nextFitAlloc (p3/mem/mem.c:266-327). */
    method NextFitAlloc(size: nat) returns (ptr: nat)
      requires Valid()
      modifies `mem, `freeHead, `nextPtr, `tiles
      ensures Valid()
      ensures ptr == NULL <==>
                forall i | 0 <= i < |old(tiles)| && old(tiles)[i].free :: old(tiles)[i].len < FitToAlignSize(size)
      ensures ptr == NULL ==> tiles == old(tiles) && mem == old(mem)
      ensures ptr != NULL ==>
                var t, need := old(View()), FitToAlignSize(size);
                && old(StartsAt(t.Start())) && FirstFit(t.tiles, t.Start(), need, t.Fit(need))
                && ptr == t.tiles[t.Fit(need)].addr + 16
      ensures (View(), ptr) == old(View()).Alloced(size)
      ensures ptr != NULL ==>
                && ptr >= 16 && LowestFreeAbove(tiles, ptr - 16, nextPtr)
                && forall x: Tile :: x in tiles && !x.free <==>
                     (x in old(tiles) && !x.free) || x == Tile(ptr - 16, FitToAlignSize(size), false)
      ensures forall k | 0 <= k < |old(tiles)| && old(tiles)[k].free && FitToAlignSize(size) <= old(tiles)[k].len ::
                && ptr >= 16
                && if old(nextPtr) <= ptr - 16 then !(old(nextPtr) <= old(tiles)[k].addr < ptr - 16)
                   else ptr - 16 <= old(tiles)[k].addr < old(nextPtr)
    {
      hide Tiled, Listed, Headed, Coalesced, Rover, NextFree, Taken, AfterTaken, Tiling.Fit, Tiling.Start,
          Tiling.Alloced, LowestFreeAbove;
      AllocedCases(View(), size);
      AllocedIs(View(), start, end, size);
      forall k | 0 <= k < |tiles| && tiles[k].free && FitToAlignSize(size) <= tiles[k].len
        ensures var (left, p) := View().Alloced(size);
                p >= 16 && if nextPtr <= p - 16 then !(nextPtr <= tiles[k].addr < p - 16)
                           else p - 16 <= tiles[k].addr < nextPtr
      {
        AllocedFirst(View(), start, end, size, k);
      }
      var alignedSize := FitToAlignSize(size);
      ghost var j: nat;
      ptr, j := FindChunk(alignedSize);
      if ptr == NULL {
        FitNone(old(View()), alignedSize);
      } else {
        FitIs(old(View()), alignedSize, j);
        TakeTile(ptr, alignedSize, j);
        ptr := ptr + HEADER;
      }
    }
  }
}
