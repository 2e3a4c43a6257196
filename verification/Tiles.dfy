/** How the next-fit region of p3/mem/mem.c is cut into blocks, and the free list threaded through them. */
module Tiles {

  /** sizeof(struct FreeHeader) == sizeof(struct AllocatedHeader). */
  const HEADER: nat := 16
  const MAGIC: nat := 0x5077604
  const NULL: nat := 0

  /** The 16 bytes at an address taken as a header: its length, and its next pointer or magic number. */
  datatype Cell = Cell(length: int, link: nat)

  type Memory = map<nat, Cell>

  function Len(mem: Memory, a: nat): int {
    if a in mem then mem[a].length else 0
  }

  function Link(mem: Memory, a: nat): nat {
    if a in mem then mem[a].link else 0
  }

  function SetLen(mem: Memory, a: nat, length: int): Memory {
    mem[a := Cell(length, Link(mem, a))]
  }

  function SetLink(mem: Memory, a: nat, link: nat): Memory {
    mem[a := Cell(Len(mem, a), link)]
  }

  /** A block: its header at addr, len bytes after it. */
  datatype Tile = Tile(addr: nat, len: nat, free: bool) {
    function End(): nat { addr + 16 + len }
  }

  /** The tiles cover the region from start to end with nothing between them. */
  ghost predicate Tiled(tiles: seq<Tile>, start: nat, end: nat) {
    && |tiles| > 0 && tiles[0].addr == start && tiles[|tiles| - 1].End() == end
    && 0 < start && start % 16 == 0
    && (forall i, j | 0 <= i && j == i + 1 < |tiles| :: tiles[j].addr == tiles[i].End())
    && (forall i | 0 <= i < |tiles| :: tiles[i].len % 16 == 0)
  }

  lemma {:induction false} Ordered(tiles: seq<Tile>, start: nat, end: nat, i: nat, j: nat)
    requires Tiled(tiles, start, end) && i < j < |tiles|
    ensures tiles[i].End() <= tiles[j].addr
  {
    if i + 1 < j { Ordered(tiles, start, end, i, j - 1); }
  }

  lemma Sum16(a: nat, n: nat)
    requires a % 16 == 0 && n % 16 == 0
    ensures (a + 16 + n) % 16 == 0
  {
  }

  lemma {:induction false} Aligned(tiles: seq<Tile>, start: nat, end: nat, i: nat)
    requires Tiled(tiles, start, end) && i < |tiles|
    ensures tiles[i].addr % 16 == 0 && start <= tiles[i].addr && tiles[i].End() <= end
  {
    if i > 0 {
      Aligned(tiles, start, end, i - 1);
      Sum16(tiles[i - 1].addr, tiles[i - 1].len);
    }
    if i < |tiles| - 1 { Ordered(tiles, start, end, i, |tiles| - 1); }
  }

  /** Addresses tell tiles apart, in their order. */
  ghost predicate Apart(tiles: seq<Tile>) {
    && (forall i | 0 <= i < |tiles| :: tiles[i].addr > 0)
    && (forall i, j | 0 <= i < j < |tiles| :: tiles[i].End() <= tiles[j].addr)
  }

  lemma TiledApart(tiles: seq<Tile>, start: nat, end: nat)
    requires Tiled(tiles, start, end)
    ensures Apart(tiles)
  {
    forall i | 0 <= i < |tiles|
      ensures tiles[i].addr > 0
    {
      Aligned(tiles, start, end, i);
    }
    forall i, j | 0 <= i < j < |tiles|
      ensures tiles[i].End() <= tiles[j].addr
    {
      Ordered(tiles, start, end, i, j);
    }
  }

  /** The first free tile from i on, or the number of tiles. */
  function NextFree(tiles: seq<Tile>, i: nat): (r: nat)
    requires i <= |tiles|
    ensures i <= r <= |tiles|
    ensures r < |tiles| ==> tiles[r].free
    ensures forall j | i <= j < r :: !tiles[j].free
    decreases |tiles| - i
  {
    if i == |tiles| || tiles[i].free then i else NextFree(tiles, i + 1)
  }

  lemma {:induction false} NextFreeIs(tiles: seq<Tile>, i: nat, r: nat)
    requires i <= r <= |tiles|
    requires r < |tiles| ==> tiles[r].free
    requires forall j | i <= j < r :: !tiles[j].free
    ensures NextFree(tiles, i) == r
    decreases r - i
  {
    if i < r { NextFreeIs(tiles, i + 1, r); }
  }

  function AddrOf(tiles: seq<Tile>, i: nat): nat {
    if i < |tiles| then tiles[i].addr else NULL
  }

  /** head and the links of the free tiles are the list of the free tiles in order of address. */
  ghost predicate Listed(mem: Memory, head: nat, tiles: seq<Tile>) {
    && head == AddrOf(tiles, NextFree(tiles, 0))
    && forall i {:trigger LinksOn(mem, tiles, i)} | 0 <= i < |tiles| && tiles[i].free :: LinksOn(mem, tiles, i)
  }

  ghost predicate LinksOn(mem: Memory, tiles: seq<Tile>, i: nat)
    requires i < |tiles|
  {
    Link(mem, tiles[i].addr) == AddrOf(tiles, NextFree(tiles, i + 1))
  }

  function SetFree(tiles: seq<Tile>, k: nat, free: bool): (r: seq<Tile>)
    requires k < |tiles|
    ensures |r| == |tiles| && r[k] == tiles[k].(free := free)
    ensures forall i | 0 <= i < |tiles| && i != k :: r[i] == tiles[i]
  {
    tiles[k := tiles[k].(free := free)]
  }

  lemma SetFreeTiled(tiles: seq<Tile>, start: nat, end: nat, k: nat, free: bool)
    requires Tiled(tiles, start, end) && k < |tiles|
    ensures Tiled(SetFree(tiles, k, free), start, end)
  {
    var tiles' := SetFree(tiles, k, free);
    forall i, j | 0 <= i && j == i + 1 < |tiles'|
      ensures tiles'[j].addr == tiles'[i].End()
    {
      assert tiles[j].addr == tiles[i].End();
    }
  }

  lemma NextFreeAfterRemove(tiles: seq<Tile>, k: nat, i: nat)
    requires k < |tiles| && i <= |tiles|
    ensures NextFree(SetFree(tiles, k, false), i) == if NextFree(tiles, i) == k then NextFree(tiles, k + 1)
                                                     else NextFree(tiles, i)
  {
    NextFreeIs(SetFree(tiles, k, false), i,
               if NextFree(tiles, i) == k then NextFree(tiles, k + 1) else NextFree(tiles, i));
  }

  lemma NextFreeAfterAdd(tiles: seq<Tile>, k: nat, i: nat)
    requires k < |tiles| && i <= |tiles|
    ensures NextFree(SetFree(tiles, k, true), i) == if i <= k <= NextFree(tiles, i) then k else NextFree(tiles, i)
  {
    NextFreeIs(SetFree(tiles, k, true), i, if i <= k <= NextFree(tiles, i) then k else NextFree(tiles, i));
  }

  /** Unlinking the free tile k from its predecessor on the list, tile j, or from the head. */
  lemma ListedAfterRemove(mem: Memory, head: nat, tiles: seq<Tile>, k: nat, mem': Memory, head': nat)
    requires Listed(mem, head, tiles) && Apart(tiles) && k < |tiles| && tiles[k].free
    requires head' == if NextFree(tiles, 0) == k then Link(mem, tiles[k].addr) else head
    requires forall i {:trigger Link(mem', tiles[i].addr)} | 0 <= i < |tiles| && tiles[i].free && i != k ::
               Link(mem', tiles[i].addr) == if NextFree(tiles, i + 1) == k then Link(mem, tiles[k].addr)
                                            else Link(mem, tiles[i].addr)
    ensures Listed(mem', head', SetFree(tiles, k, false))
  {
    hide NextFree;
    var tiles' := SetFree(tiles, k, false);
    NextFreeAfterRemove(tiles, k, 0);
    forall i | 0 <= i < |tiles'| && tiles'[i].free
      ensures LinksOn(mem', tiles', i)
    {
      NextFreeAfterRemove(tiles, k, i + 1);
      assert LinksOn(mem, tiles, i) && LinksOn(mem, tiles, k);
      assert Link(mem', tiles[i].addr) == if NextFree(tiles, i + 1) == k then Link(mem, tiles[k].addr)
                                          else Link(mem, tiles[i].addr);
    }
  }

  /** Linking tile k in: it takes over the link of its predecessor, or the head. */
  lemma ListedAfterAdd(mem: Memory, head: nat, tiles: seq<Tile>, k: nat, mem': Memory, head': nat)
    requires Listed(mem, head, tiles) && Apart(tiles) && k < |tiles| && !tiles[k].free
    requires Link(mem', tiles[k].addr) == AddrOf(tiles, NextFree(tiles, k + 1))
    requires head' == if k < NextFree(tiles, 0) then tiles[k].addr else head
    requires forall i {:trigger Link(mem', tiles[i].addr)} | 0 <= i < |tiles| && tiles[i].free ::
               Link(mem', tiles[i].addr) == if i < k < NextFree(tiles, i + 1) then tiles[k].addr
                                            else Link(mem, tiles[i].addr)
    ensures Listed(mem', head', SetFree(tiles, k, true))
  {
    hide NextFree, LinksOn, Apart;
    var tiles' := SetFree(tiles, k, true);
    NextFreeAfterAdd(tiles, k, 0);
    SameAddrs(tiles, k);
    forall i | 0 <= i < |tiles'| && tiles'[i].free
      ensures LinksOn(mem', tiles', i)
    {
      if i != k { assert LinksOn(mem, tiles, i); }
      AddedLinksOn(mem, tiles, k, mem', i);
    }
  }

  lemma AddedLinksOn(mem: Memory, tiles: seq<Tile>, k: nat, mem': Memory, i: nat)
    requires k < |tiles| && !tiles[k].free && i < |tiles|
    requires if i == k then Link(mem', tiles[k].addr) == AddrOf(tiles, NextFree(tiles, k + 1))
             else tiles[i].free && LinksOn(mem, tiles, i)
                  && Link(mem', tiles[i].addr) == if i < k < NextFree(tiles, i + 1) then tiles[k].addr
                                                  else Link(mem, tiles[i].addr)
    ensures LinksOn(mem', SetFree(tiles, k, true), i)
  {
    hide NextFree;
    NextFreeAfterAdd(tiles, k, i + 1);
    SameAddrs(tiles, k);
  }

  lemma SameAddrs(tiles: seq<Tile>, k: nat)
    requires k < |tiles|
    ensures forall i: nat, free :: AddrOf(SetFree(tiles, k, free), i) == AddrOf(tiles, i)
  {
  }

  /** Only links of free tiles have changed. */
  ghost predicate OnlyLinks(mem: Memory, mem': Memory, tiles: seq<Tile>) {
    && (forall a :: Len(mem', a) == Len(mem, a))
    && (forall i {:trigger Link(mem', tiles[i].addr)} | 0 <= i < |tiles| && !tiles[i].free ::
          Link(mem', tiles[i].addr) == Link(mem, tiles[i].addr))
  }

  lemma HeadTile(mem: Memory, head: nat, tiles: seq<Tile>) returns (j: nat)
    requires Listed(mem, head, tiles)
    ensures j == NextFree(tiles, 0) <= |tiles| && head == AddrOf(tiles, j)
    ensures forall i | 0 <= i < j :: !tiles[i].free
  {
    j := NextFree(tiles, 0);
  }

  /** Following the link of a free tile. */
  lemma NextTile(mem: Memory, head: nat, tiles: seq<Tile>, j: nat) returns (next: nat)
    requires Listed(mem, head, tiles) && j < |tiles| && tiles[j].free
    ensures next == NextFree(tiles, j + 1) && j < next <= |tiles| && Link(mem, tiles[j].addr) == AddrOf(tiles, next)
    ensures forall i | j < i < next :: !tiles[i].free
  {
    next := NextFree(tiles, j + 1);
    assert LinksOn(mem, tiles, j);
  }

  /** In a list, only tile j comes just before tile k. */
  lemma OnePredecessor(tiles: seq<Tile>, j: nat, k: nat, i: nat)
    requires j < k < |tiles| && tiles[j].free && NextFree(tiles, j + 1) == k
    requires i < |tiles| && tiles[i].free
    ensures NextFree(tiles, i + 1) == k <==> i == j
    ensures NextFree(tiles, 0) <= j
  {
    hide NextFree;
  }

  lemma OneGap(tiles: seq<Tile>, j: nat, k: nat, i: nat)
    requires j < k < |tiles| && tiles[j].free && !tiles[k].free && k < NextFree(tiles, j + 1)
    requires i < |tiles| && tiles[i].free
    ensures i < k < NextFree(tiles, i + 1) <==> i == j
    ensures NextFree(tiles, 0) <= j
  {
    hide NextFree;
  }

  /** The two ways removeFreeNode takes tile k off the list. */
  lemma UnlinkHead(mem: Memory, head: nat, tiles: seq<Tile>, k: nat)
    requires Listed(mem, head, tiles) && Apart(tiles) && k < |tiles| && head == tiles[k].addr
    ensures tiles[k].free && Listed(mem, Link(mem, head), SetFree(tiles, k, false))
  {
    assert k == NextFree(tiles, 0);
    forall i | 0 <= i < |tiles| && tiles[i].free && i != k
      ensures NextFree(tiles, i + 1) != k
    {
    }
    ListedAfterRemove(mem, head, tiles, k, mem, Link(mem, head));
  }

  lemma UnlinkAfter(mem: Memory, head: nat, tiles: seq<Tile>, j: nat, k: nat, mem': Memory)
    requires Listed(mem, head, tiles) && Apart(tiles)
    requires j < k < |tiles| && tiles[j].free && tiles[k].free && NextFree(tiles, j + 1) == k
    requires mem' == SetLink(mem, tiles[j].addr, Link(mem, tiles[k].addr))
    ensures Listed(mem', head, SetFree(tiles, k, false))
  {
    forall i | 0 <= i < |tiles| && tiles[i].free && i != k
      ensures Link(mem', tiles[i].addr) == if NextFree(tiles, i + 1) == k then Link(mem, tiles[k].addr)
                                           else Link(mem, tiles[i].addr)
    {
      OnePredecessor(tiles, j, k, i);
    }
    OnePredecessor(tiles, j, k, j);
    ListedAfterRemove(mem, head, tiles, k, mem', head);
  }

  /** The ways addFreeNode puts tile k on the list. */
  lemma LinkFirst(mem: Memory, head: nat, tiles: seq<Tile>, k: nat, mem': Memory)
    requires Listed(mem, head, tiles) && Apart(tiles) && k < |tiles| && !tiles[k].free && k < NextFree(tiles, 0)
    requires mem' == SetLink(mem, tiles[k].addr, head)
    ensures Listed(mem', tiles[k].addr, SetFree(tiles, k, true))
  {
    NextFreeIs(tiles, k + 1, NextFree(tiles, 0));
    forall i | 0 <= i < |tiles| && tiles[i].free
      ensures k < i && Link(mem', tiles[i].addr) == Link(mem, tiles[i].addr)
    {
    }
    ListedAfterAdd(mem, head, tiles, k, mem', tiles[k].addr);
  }

  lemma LinkAfter(mem: Memory, head: nat, tiles: seq<Tile>, j: nat, k: nat, mem': Memory)
    requires Listed(mem, head, tiles) && Apart(tiles)
    requires j < k < |tiles| && tiles[j].free && !tiles[k].free && k < NextFree(tiles, j + 1)
    requires mem' == SetLink(SetLink(mem, tiles[k].addr, Link(mem, tiles[j].addr)), tiles[j].addr, tiles[k].addr)
    ensures Listed(mem', head, SetFree(tiles, k, true))
  {
    hide NextFree, AddrOf;
    NextFreeIs(tiles, k + 1, NextFree(tiles, j + 1));
    assert LinksOn(mem, tiles, j);
    forall i | 0 <= i < |tiles| && tiles[i].free
      ensures Link(mem', tiles[i].addr) == if i < k < NextFree(tiles, i + 1) then tiles[k].addr
                                           else Link(mem, tiles[i].addr)
    {
      OneGap(tiles, j, k, i);
    }
    OneGap(tiles, j, k, j);
    ListedAfterAdd(mem, head, tiles, k, mem', head);
  }

  lemma SameMemory(mem: Memory, tiles: seq<Tile>)
    ensures OnlyLinks(mem, mem, tiles)
  {
  }

  lemma SetLinkFrame(mem: Memory, tiles: seq<Tile>, k: nat, link: nat)
    requires Apart(tiles) && k < |tiles| && tiles[k].free
    ensures OnlyLinks(mem, SetLink(mem, tiles[k].addr, link), tiles)
  {
  }

  lemma LinkAfterFrame(mem: Memory, tiles: seq<Tile>, j: nat, k: nat, link: nat)
    requires Apart(tiles) && j < |tiles| && tiles[j].free && k < |tiles| && j != k
    ensures OnlyLinks(mem, SetLink(SetLink(mem, tiles[k].addr, link), tiles[j].addr, tiles[k].addr),
                      SetFree(tiles, k, true))
  {
    var tiles' := SetFree(tiles, k, true);
    ApartSetFree(tiles, k, true);
    SetLinkFrame(mem, tiles', k, link);
    SetLinkFrame(SetLink(mem, tiles[k].addr, link), tiles', j, tiles[k].addr);
    hide SetLink, SetFree, Apart;
  }

  lemma SetFreeTwice(tiles: seq<Tile>, k: nat)
    requires k < |tiles|
    ensures SetFree(SetFree(tiles, k, false), k, false) == SetFree(tiles, k, false)
  {
  }

  lemma ApartSetFree(tiles: seq<Tile>, k: nat, free: bool)
    requires Apart(tiles) && k < |tiles|
    ensures Apart(SetFree(tiles, k, free))
  {
  }

  /** Every tile's header holds its length, and a live one's the magic number. */
  ghost predicate Headed(mem: Memory, tiles: seq<Tile>) {
    forall i {:trigger Len(mem, tiles[i].addr)} {:trigger Link(mem, tiles[i].addr)} | 0 <= i < |tiles| ::
      Len(mem, tiles[i].addr) == tiles[i].len && (!tiles[i].free ==> Link(mem, tiles[i].addr) == MAGIC)
  }

  /** No two neighbouring blocks are both free. */
  ghost predicate Coalesced(tiles: seq<Tile>) {
    forall i, j | 0 <= i && j == i + 1 < |tiles| :: !(tiles[i].free && tiles[j].free)
  }

  /** nextPtr is NULL or on the free list. */
  ghost predicate Rover(tiles: seq<Tile>, nextPtr: nat) {
    nextPtr == NULL || exists i | 0 <= i < |tiles| :: tiles[i].free && tiles[i].addr == nextPtr
  }

  /** A tile ends where another starts exactly when the other comes next. */
  lemma EndIsNext(tiles: seq<Tile>, start: nat, end: nat, i: nat, j: nat)
    requires Tiled(tiles, start, end) && i < |tiles| && j < |tiles|
    ensures tiles[i].End() == tiles[j].addr <==> j == i + 1
  {
    TiledApart(tiles, start, end);
    if i + 1 < |tiles| { assert tiles[i + 1].addr == tiles[i].End(); }
  }

  /** Live blocks never overlap, headers included. */
  lemma LiveDisjoint(tiles: seq<Tile>, start: nat, end: nat, i: nat, j: nat)
    requires Tiled(tiles, start, end) && i < |tiles| && j < |tiles| && i != j
    ensures tiles[i].End() <= tiles[j].addr || tiles[j].End() <= tiles[i].addr
  {
    if i < j { Ordered(tiles, start, end, i, j); } else { Ordered(tiles, start, end, j, i); }
  }

  /** When every block is free there is one block again, as long as at the start. */
  lemma AllFreeIsWhole(tiles: seq<Tile>, start: nat, end: nat)
    requires Tiled(tiles, start, end) && Coalesced(tiles)
    requires forall i | 0 <= i < |tiles| :: tiles[i].free
    ensures start + 16 <= end && tiles == [Tile(start, end - start - 16, true)]
  {
    var j := if |tiles| > 1 then 1 else 0;
    assert tiles[0].free && tiles[j].free;
    assert tiles == [tiles[0]];
  }

  // ---------- splitting and merging tiles ----------

  /** Tile k cut into a block of need bytes and what is left. */
  function Split(tiles: seq<Tile>, k: nat, need: nat): (r: seq<Tile>)
    requires k < |tiles| && need + 16 <= tiles[k].len
    ensures |r| == |tiles| + 1
  {
    tiles[..k] + [Tile(tiles[k].addr, need, tiles[k].free),
                  Tile(tiles[k].addr + 16 + need, tiles[k].len - need - 16, false)] + tiles[k + 1..]
  }

  /** Tile k with tile k + 1 taken in. */
  function Merge(tiles: seq<Tile>, k: nat): (r: seq<Tile>)
    requires k + 1 < |tiles|
    ensures |r| == |tiles| - 1
    ensures forall i | 0 <= i < k :: r[i] == tiles[i]
    ensures r[k] == Tile(tiles[k].addr, tiles[k].len + 16 + tiles[k + 1].len, tiles[k].free)
    ensures forall i | k < i < |r| :: r[i] == tiles[i + 1]
  {
    tiles[..k] + [Tile(tiles[k].addr, tiles[k].len + 16 + tiles[k + 1].len, tiles[k].free)] + tiles[k + 2..]
  }

  lemma SplitTiled(tiles: seq<Tile>, start: nat, end: nat, k: nat, need: nat)
    requires Tiled(tiles, start, end) && k < |tiles| && need + 16 <= tiles[k].len && need % 16 == 0
    ensures Tiled(Split(tiles, k, need), start, end)
  {
    var tiles' := Split(tiles, k, need);
    forall i, j | 0 <= i && j == i + 1 < |tiles'|
      ensures tiles'[j].addr == tiles'[i].End()
    {
      if j < k { assert tiles[j].addr == tiles[i].End(); }
      else if j == k { assert tiles[k].addr == tiles[i].End(); }
      else if i > k { assert tiles[j - 1].addr == tiles[i - 1].End(); }
    }
    forall i | 0 <= i < |tiles'|
      ensures tiles'[i].len % 16 == 0
    {
      if i > k + 1 { assert tiles'[i] == tiles[i - 1]; }
    }
  }

  lemma MergeTiled(tiles: seq<Tile>, start: nat, end: nat, k: nat)
    requires Tiled(tiles, start, end) && k + 1 < |tiles|
    ensures Tiled(Merge(tiles, k), start, end)
  {
    var tiles' := Merge(tiles, k);
    Sum16(tiles[k].len, tiles[k + 1].len);
    forall i, j | 0 <= i && j == i + 1 < |tiles'|
      ensures tiles'[j].addr == tiles'[i].End()
    {
      assert tiles[k + 1].addr == tiles[k].End();
      if j <= k { assert tiles[j].addr == tiles[i].End(); }
      else { assert tiles[j + 1].addr == tiles[i + 1].End(); }
    }
  }

  lemma NextFreeSplit(tiles: seq<Tile>, k: nat, need: nat, i: nat)
    requires k < |tiles| && need + 16 <= tiles[k].len && !tiles[k].free && i <= |tiles|
    ensures var r := NextFree(tiles, i);
            NextFree(Split(tiles, k, need), if i <= k then i else i + 1) == if r <= k then r else r + 1
  {
    var r := NextFree(tiles, i);
    NextFreeIs(Split(tiles, k, need), if i <= k then i else i + 1, if r <= k then r else r + 1);
  }

  /** The same successor on the list, found from the same tile in its new position. */
  lemma SplitSuccessor(tiles: seq<Tile>, k: nat, need: nat, i: nat)
    requires k < |tiles| && need + 16 <= tiles[k].len && !tiles[k].free && i <= |tiles|
    ensures AddrOf(Split(tiles, k, need), NextFree(Split(tiles, k, need), if i <= k then i else i + 1)) ==
              AddrOf(tiles, NextFree(tiles, i))
  {
    NextFreeSplit(tiles, k, need, i);
    var r := NextFree(tiles, i);
    hide NextFree;
    assert r < |tiles| ==> Split(tiles, k, need)[if r <= k then r else r + 1].addr == tiles[r].addr;
  }

  lemma SplitListed(mem: Memory, head: nat, tiles: seq<Tile>, k: nat, need: nat, mem': Memory)
    requires Listed(mem, head, tiles) && k < |tiles| && need + 16 <= tiles[k].len && !tiles[k].free
    requires forall i {:trigger Link(mem', tiles[i].addr)} | 0 <= i < |tiles| && tiles[i].free ::
               Link(mem', tiles[i].addr) == Link(mem, tiles[i].addr)
    ensures Listed(mem', head, Split(tiles, k, need))
  {
    hide NextFree, AddrOf;
    var tiles' := Split(tiles, k, need);
    SplitSuccessor(tiles, k, need, 0);
    forall i | 0 <= i < |tiles'| && tiles'[i].free
      ensures LinksOn(mem', tiles', i)
    {
      var o := if i <= k then i else i - 1;
      assert tiles'[i] == tiles[o] && o != k;
      SplitSuccessor(tiles, k, need, o + 1);
      assert LinksOn(mem, tiles, o);
      assert Link(mem', tiles[o].addr) == Link(mem, tiles[o].addr);
    }
  }

  lemma MergeSuccessor(tiles: seq<Tile>, k: nat, i: nat)
    requires k + 1 < |tiles| && !tiles[k + 1].free && i <= |tiles|
    ensures AddrOf(Merge(tiles, k), NextFree(Merge(tiles, k), if i <= k + 1 then i else i - 1)) ==
              AddrOf(tiles, NextFree(tiles, i))
  {
    var tiles', r := Merge(tiles, k), NextFree(tiles, i);
    var i' := if i <= k + 1 then i else i - 1;
    NextFreeIs(tiles', i', if r <= k then r else r - 1);
    hide NextFree;
    assert r < |tiles| ==> tiles'[if r <= k then r else r - 1].addr == tiles[r].addr;
  }

  lemma MergeListed(mem: Memory, head: nat, tiles: seq<Tile>, k: nat, mem': Memory)
    requires Listed(mem, head, tiles) && k + 1 < |tiles| && !tiles[k + 1].free
    requires forall i {:trigger Link(mem', tiles[i].addr)} | 0 <= i < |tiles| && tiles[i].free ::
               Link(mem', tiles[i].addr) == Link(mem, tiles[i].addr)
    ensures Listed(mem', head, Merge(tiles, k))
  {
    hide NextFree, AddrOf;
    var tiles' := Merge(tiles, k);
    MergeSuccessor(tiles, k, 0);
    forall i | 0 <= i < |tiles'| && tiles'[i].free
      ensures LinksOn(mem', tiles', i)
    {
      var o := if i <= k then i else i + 1;
      assert tiles'[i].addr == tiles[o].addr && tiles'[i].free == tiles[o].free;
      MergeSuccessor(tiles, k, o + 1);
      assert LinksOn(mem, tiles, o);
      assert Link(mem', tiles[o].addr) == Link(mem, tiles[o].addr);
    }
  }

  /** Headed, but for the magic number of tile k. */
  ghost predicate HeadedBut(mem: Memory, tiles: seq<Tile>, k: nat) {
    forall i {:trigger Len(mem, tiles[i].addr)} {:trigger Link(mem, tiles[i].addr)} | 0 <= i < |tiles| ::
      Len(mem, tiles[i].addr) == tiles[i].len && (!tiles[i].free && i != k ==> Link(mem, tiles[i].addr) == MAGIC)
  }

  lemma HeadedAfterRemove(mem: Memory, tiles: seq<Tile>, k: nat, mem': Memory)
    requires Headed(mem, tiles) && k < |tiles| && OnlyLinks(mem, mem', SetFree(tiles, k, false))
    ensures HeadedBut(mem', SetFree(tiles, k, false), k)
  {
    var tiles' := SetFree(tiles, k, false);
    forall i | 0 <= i < |tiles'|
      ensures Len(mem', tiles'[i].addr) == tiles'[i].len
                && (!tiles'[i].free && i != k ==> Link(mem', tiles'[i].addr) == MAGIC)
    {
      assert Len(mem, tiles[i].addr) == tiles[i].len;
    }
  }

  lemma HeadedAfterAdd(mem: Memory, tiles: seq<Tile>, k: nat, mem': Memory)
    requires HeadedBut(mem, tiles, k) && k < |tiles| && OnlyLinks(mem, mem', SetFree(tiles, k, true))
    ensures Headed(mem', SetFree(tiles, k, true))
  {
    var tiles' := SetFree(tiles, k, true);
    forall i | 0 <= i < |tiles'|
      ensures Len(mem', tiles'[i].addr) == tiles'[i].len && (!tiles'[i].free ==> Link(mem', tiles'[i].addr) == MAGIC)
    {
      assert Len(mem, tiles[i].addr) == tiles[i].len;
    }
  }

  lemma HeaderLens(mem: Memory, tiles: seq<Tile>, k: nat, j: nat)
    requires HeadedBut(mem, tiles, k) && k < |tiles| && j < |tiles|
    ensures Len(mem, tiles[k].addr) == tiles[k].len && Len(mem, tiles[j].addr) == tiles[j].len
  {
  }

  lemma MergeHeaded(mem: Memory, tiles: seq<Tile>, k: nat)
    requires k + 1 < |tiles| && HeadedBut(mem, tiles, k + 1) && Apart(tiles) && tiles[k].free
    ensures Headed(SetLen(mem, tiles[k].addr, tiles[k].len + 16 + tiles[k + 1].len), Merge(tiles, k))
  {
    var tiles' := Merge(tiles, k);
    var mem' := SetLen(mem, tiles[k].addr, tiles[k].len + 16 + tiles[k + 1].len);
    forall i | 0 <= i < |tiles'|
      ensures Len(mem', tiles'[i].addr) == tiles'[i].len && (!tiles'[i].free ==> Link(mem', tiles'[i].addr) == MAGIC)
    {
      var o := if i <= k then i else i + 1;
      assert Len(mem, tiles[o].addr) == tiles[o].len;
    }
  }

  lemma LenAside(mem: Memory, head: nat, tiles: seq<Tile>, a: nat, length: int)
    requires Listed(mem, head, tiles)
    ensures Listed(SetLen(mem, a, length), head, tiles)
  {
    hide NextFree;
    forall i | 0 <= i < |tiles| && tiles[i].free
      ensures LinksOn(SetLen(mem, a, length), tiles, i)
    {
      assert LinksOn(mem, tiles, i);
    }
  }

  lemma MergeUnlinked(mem: Memory, head: nat, tiles: seq<Tile>, start: nat, end: nat, k: nat)
    requires Tiled(tiles, start, end) && Listed(mem, head, tiles) && k + 1 < |tiles|
    requires HeadedBut(mem, tiles, k + 1) && tiles[k].free && !tiles[k + 1].free
    ensures var mem' := SetLen(mem, tiles[k].addr, tiles[k].len + 16 + tiles[k + 1].len);
            Tiled(Merge(tiles, k), start, end) && Listed(mem', head, Merge(tiles, k)) && Headed(mem', Merge(tiles, k))
  {
    hide Listed, HeadedBut, Headed, Merge, NextFree;
    TiledApart(tiles, start, end);
    MergeTiled(tiles, start, end, k);
    MergeListed(mem, head, tiles, k, SetLen(mem, tiles[k].addr, tiles[k].len + 16 + tiles[k + 1].len));
    MergeHeaded(mem, tiles, k);
  }

  /** Taking in a tile whether it counts as free or not comes to the same. */
  lemma MergeForgets(tiles: seq<Tile>, k: nat)
    requires k + 1 < |tiles|
    ensures Merge(SetFree(tiles, k + 1, false), k) == Merge(tiles, k)
  {
  }

  /** Tile k and its free neighbours made one. */
  function CoalesceAt(tiles: seq<Tile>, k: nat): seq<Tile>
    requires k < |tiles|
  {
    var t := if k + 1 < |tiles| && tiles[k + 1].free then Merge(tiles, k) else tiles;
    if k > 0 && t[k - 1].free then Merge(t, k - 1) else t
  }

  /** Where nextPtr points once tile k has been joined with its neighbours. */
  function MoveRover(tiles: seq<Tile>, k: nat, nextPtr: nat): nat
    requires k < |tiles|
  {
    var r := if k + 1 < |tiles| && tiles[k + 1].free && nextPtr == tiles[k + 1].addr then tiles[k].addr else nextPtr;
    if k > 0 && tiles[k - 1].free && r == tiles[k].addr then tiles[k - 1].addr else r
  }

  /** Tiles besides k and its free neighbours keep their order. */
  lemma CoalesceAtShifts(tiles: seq<Tile>, k: nat, p: nat, n: nat)
    requires k < |tiles| && tiles[k].free
    requires p == if k > 0 && tiles[k - 1].free then 1 else 0
    requires n == if k + 1 < |tiles| && tiles[k + 1].free then 1 else 0
    ensures var t := CoalesceAt(tiles, k);
            && |t| == |tiles| - p - n
            && t[k - p].free && t[k - p].addr == tiles[k - p].addr
            && (forall i | 0 <= i < k - p :: t[i] == tiles[i])
            && (forall i | k - p < i < |t| :: t[i] == tiles[i + p + n])
  {
    hide CoalesceAt;
    CoalesceAtTile(tiles, k, p, n, k - p);
    forall i | 0 <= i < k - p
      ensures CoalesceAt(tiles, k)[i] == tiles[i]
    {
      CoalesceAtTile(tiles, k, p, n, i);
    }
    forall i | k - p < i < |CoalesceAt(tiles, k)|
      ensures CoalesceAt(tiles, k)[i] == tiles[i + p + n]
    {
      CoalesceAtTile(tiles, k, p, n, i);
    }
  }

  lemma CoalesceAtTile(tiles: seq<Tile>, k: nat, p: nat, n: nat, i: nat)
    requires k < |tiles| && tiles[k].free
    requires p == if k > 0 && tiles[k - 1].free then 1 else 0
    requires n == if k + 1 < |tiles| && tiles[k + 1].free then 1 else 0
    requires i < |tiles| - p - n
    ensures |CoalesceAt(tiles, k)| == |tiles| - p - n
    ensures i == k - p ==> CoalesceAt(tiles, k)[i].free && CoalesceAt(tiles, k)[i].addr == tiles[i].addr
    ensures i != k - p ==> CoalesceAt(tiles, k)[i] == tiles[if i < k - p then i else i + p + n]
  {
    hide Merge;
    var t := if n == 1 then Merge(tiles, k) else tiles;
    var u := if p == 1 then Merge(t, k - 1) else t;
    assert u == CoalesceAt(tiles, k);
    assert i != k - p ==> u[i] == t[if i < k - p then i else i + p];
  }

  /** If tile k is the only cause of free neighbours, joining it leaves none, and nextPtr on the list. */
  lemma CoalesceAtDone(tiles: seq<Tile>, k: nat, nextPtr: nat)
    requires k < |tiles| && tiles[k].free && Rover(tiles, nextPtr) && Apart(tiles)
    requires forall i, j | 0 <= i && j == i + 1 < |tiles| && i != k && j != k :: !(tiles[i].free && tiles[j].free)
    ensures Coalesced(CoalesceAt(tiles, k))
    ensures Rover(CoalesceAt(tiles, k), MoveRover(tiles, k, nextPtr))
  {
    hide CoalesceAt;
    var tiles' := CoalesceAt(tiles, k);
    var p := if k > 0 && tiles[k - 1].free then 1 else 0;
    var n := if k + 1 < |tiles| && tiles[k + 1].free then 1 else 0;
    CoalesceAtShifts(tiles, k, p, n);
    forall i, j | 0 <= i && j == i + 1 < |tiles'|
      ensures !(tiles'[i].free && tiles'[j].free)
    {
      var before := tiles[if i < k - p then i else i + p + n];
      var after := tiles[if j <= k - p then j else j + p + n];
      assert tiles'[i].free == before.free && tiles'[j].free == after.free;
    }
    RoverMoves(tiles, k, nextPtr, p, n);
  }

  lemma RoverMoves(tiles: seq<Tile>, k: nat, nextPtr: nat, p: nat, n: nat)
    requires k < |tiles| && tiles[k].free && Rover(tiles, nextPtr) && Apart(tiles)
    requires p == if k > 0 && tiles[k - 1].free then 1 else 0
    requires n == if k + 1 < |tiles| && tiles[k + 1].free then 1 else 0
    ensures Rover(CoalesceAt(tiles, k), MoveRover(tiles, k, nextPtr))
  {
    hide CoalesceAt, Apart;
    CoalesceAtShifts(tiles, k, p, n);
    if nextPtr != NULL {
      var r :| 0 <= r < |tiles| && tiles[r].free && tiles[r].addr == nextPtr;
      var r' := if r < k - p then r else if r <= k + n then k - p else r - p - n;
      RoverTile(tiles, k, r, p, n);
      assert CoalesceAt(tiles, k)[r'].free && CoalesceAt(tiles, k)[r'].addr == MoveRover(tiles, k, nextPtr);
    }
  }

  lemma RoverTile(tiles: seq<Tile>, k: nat, r: nat, p: nat, n: nat)
    requires k < |tiles| && r < |tiles| && Apart(tiles)
    requires p == if k > 0 && tiles[k - 1].free then 1 else 0
    requires n == if k + 1 < |tiles| && tiles[k + 1].free then 1 else 0
    ensures MoveRover(tiles, k, tiles[r].addr) == if k - p <= r <= k + n then tiles[k - p].addr else tiles[r].addr
  {
  }

  lemma NeighbourAddr(mem: Memory, tiles: seq<Tile>, start: nat, end: nat, k: nat)
    requires Tiled(tiles, start, end) && Headed(mem, tiles) && k < |tiles|
    ensures k + 1 < |tiles| ==> tiles[k + 1].addr == tiles[k].addr + Len(mem, tiles[k].addr) + HEADER
    ensures k > 0 ==> tiles[k - 1].addr != NULL
  {
    TiledApart(tiles, start, end);
    assert Len(mem, tiles[k].addr) == tiles[k].len;
  }

  lemma LiveMagic(mem: Memory, tiles: seq<Tile>)
    requires Headed(mem, tiles)
    ensures forall k | 0 <= k < |tiles| && !tiles[k].free :: Link(mem, tiles[k].addr) == MAGIC
  {
  }

  lemma OneTile(tiles: seq<Tile>, k: nat)
    requires Apart(tiles) && k < |tiles|
    ensures forall i | 0 <= i < |tiles| && tiles[i].addr == tiles[k].addr :: i == k
  {
  }

  /** Clearing the magic number of live tile k. */
  lemma CleanMagic(mem: Memory, head: nat, tiles: seq<Tile>, k: nat)
    requires Listed(mem, head, tiles) && Headed(mem, tiles) && Apart(tiles) && k < |tiles| && !tiles[k].free
    ensures Listed(SetLink(mem, tiles[k].addr, NULL), head, tiles)
    ensures HeadedBut(SetLink(mem, tiles[k].addr, NULL), tiles, k)
  {
    hide NextFree;
    var mem' := SetLink(mem, tiles[k].addr, NULL);
    forall i | 0 <= i < |tiles| && tiles[i].free
      ensures LinksOn(mem', tiles, i)
    {
      assert LinksOn(mem, tiles, i);
    }
    forall i | 0 <= i < |tiles|
      ensures Len(mem', tiles[i].addr) == tiles[i].len
                && (!tiles[i].free && i != k ==> Link(mem', tiles[i].addr) == MAGIC)
    {
      assert Len(mem, tiles[i].addr) == tiles[i].len;
    }
  }

  lemma FreedNeighbours(tiles: seq<Tile>, k: nat, nextPtr: nat)
    requires Coalesced(tiles) && Rover(tiles, nextPtr) && k < |tiles| && !tiles[k].free
    ensures Rover(SetFree(tiles, k, true), nextPtr)
    ensures var t := SetFree(tiles, k, true);
            forall i, j | 0 <= i && j == i + 1 < |t| && i != k && j != k :: !(t[i].free && t[j].free)
  {
    var t := SetFree(tiles, k, true);
    if nextPtr != NULL {
      var i :| 0 <= i < |tiles| && tiles[i].free && tiles[i].addr == nextPtr;
      assert t[i].free && t[i].addr == nextPtr;
    }
  }

  lemma NotNull(tiles: seq<Tile>, k: nat)
    requires Apart(tiles) && k <= |tiles|
    ensures AddrOf(tiles, k) == NULL <==> k == |tiles|
  {
  }

  lemma HeaderLen(mem: Memory, tiles: seq<Tile>, k: nat)
    requires Headed(mem, tiles) && k < |tiles|
    ensures Len(mem, tiles[k].addr) == tiles[k].len
  {
  }

  /** Tile j, off the list, becomes a live block that fits exactly. */
  lemma TakeExact(mem: Memory, head: nat, tiles: seq<Tile>, j: nat)
    requires Listed(mem, head, tiles) && HeadedBut(mem, tiles, j) && Apart(tiles) && j < |tiles| && !tiles[j].free
    ensures var mem' := mem[tiles[j].addr := Cell(tiles[j].len, MAGIC)];
            Listed(mem', head, tiles) && Headed(mem', tiles)
  {
    hide NextFree;
    var mem' := mem[tiles[j].addr := Cell(tiles[j].len, MAGIC)];
    forall i | 0 <= i < |tiles| && tiles[i].free
      ensures LinksOn(mem', tiles, i)
    {
      assert LinksOn(mem, tiles, i);
    }
    forall i | 0 <= i < |tiles|
      ensures Len(mem', tiles[i].addr) == tiles[i].len && (!tiles[i].free ==> Link(mem', tiles[i].addr) == MAGIC)
    {
      assert Len(mem, tiles[i].addr) == tiles[i].len;
    }
  }

  /** Tile j, off the list, is cut into a live block and a block still to be put on the list. */
  lemma TakePart(mem: Memory, head: nat, tiles: seq<Tile>, j: nat, need: nat, mem': Memory)
    requires Listed(mem, head, tiles) && HeadedBut(mem, tiles, j) && Apart(tiles)
    requires j < |tiles| && !tiles[j].free && need + 16 <= tiles[j].len
    requires mem' == SetLen(mem[tiles[j].addr := Cell(need, MAGIC)], tiles[j].addr + 16 + need,
                            tiles[j].len - need - 16)
    ensures Listed(mem', head, Split(tiles, j, need)) && HeadedBut(mem', Split(tiles, j, need), j + 1)
  {
    hide Listed, NextFree;
    forall i | 0 <= i < |tiles| && i != j
      ensures mem'.Keys >= mem.Keys && Len(mem', tiles[i].addr) == Len(mem, tiles[i].addr)
                && Link(mem', tiles[i].addr) == Link(mem, tiles[i].addr)
    {
      assert tiles[i].addr != tiles[j].addr + 16 + need;
    }
    SplitListed(mem, head, tiles, j, need, mem');
    var tiles' := Split(tiles, j, need);
    forall i | 0 <= i < |tiles'|
      ensures Len(mem', tiles'[i].addr) == tiles'[i].len
                && (!tiles'[i].free && i != j + 1 ==> Link(mem', tiles'[i].addr) == MAGIC)
    {
      if i < j {
        assert Len(mem, tiles[i].addr) == tiles[i].len;
      } else if i > j + 1 {
        assert Len(mem, tiles[i - 1].addr) == tiles[i - 1].len;
      }
    }
  }

  /** The pointers handed out for live tiles. */
  function LiveSet(tiles: seq<Tile>): set<nat> {
    set k | 0 <= k < |tiles| && !tiles[k].free :: tiles[k].addr + 16
  }

  lemma LiveAfterFree(tiles: seq<Tile>, k: nat)
    requires Apart(tiles) && k < |tiles| && !tiles[k].free
    ensures LiveSet(CoalesceAt(SetFree(tiles, k, true), k)) == LiveSet(tiles) - {tiles[k].addr + 16}
  {
    hide CoalesceAt;
    var t := SetFree(tiles, k, true);
    LiveAfterCoalesce(t, k);
    forall p | p in LiveSet(tiles) - {tiles[k].addr + 16}
      ensures p in LiveSet(t)
    {
      var i :| 0 <= i < |tiles| && !tiles[i].free && tiles[i].addr + 16 == p;
      assert !t[i].free && t[i].addr + 16 == p;
    }
    forall p | p in LiveSet(t)
      ensures p in LiveSet(tiles) - {tiles[k].addr + 16}
    {
      var i :| 0 <= i < |t| && !t[i].free && t[i].addr + 16 == p;
      assert i != k && !tiles[i].free;
    }
  }

  lemma LiveAfterCoalesce(tiles: seq<Tile>, k: nat)
    requires k < |tiles| && tiles[k].free
    ensures LiveSet(CoalesceAt(tiles, k)) == LiveSet(tiles)
  {
    hide CoalesceAt;
    var t := CoalesceAt(tiles, k);
    var p := if k > 0 && tiles[k - 1].free then 1 else 0;
    var n := if k + 1 < |tiles| && tiles[k + 1].free then 1 else 0;
    CoalesceAtShifts(tiles, k, p, n);
    forall a | a in LiveSet(tiles)
      ensures a in LiveSet(t)
    {
      var i :| 0 <= i < |tiles| && !tiles[i].free && tiles[i].addr + 16 == a;
      var i' := if i < k - p then i else i - p - n;
      assert !t[i'].free && t[i'].addr + 16 == a;
    }
    forall a | a in LiveSet(t)
      ensures a in LiveSet(tiles)
    {
      var i :| 0 <= i < |t| && !t[i].free && t[i].addr + 16 == a;
      var o := if i < k - p then i else i + p + n;
      assert !tiles[o].free && tiles[o].addr + 16 == a;
    }
  }
}
