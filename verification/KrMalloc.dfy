/** The user-level allocator of user/umalloc.c. Addresses and sizes count in headers of 8 bytes. */
module KrMalloc {
  import opened Common

  const NULL: nat := 0

  datatype Header = Header(ptr: nat, size: nat)

  type Memory = map<nat, Header>

  function Ptr(mem: Memory, a: nat): nat {
    if a in mem then mem[a].ptr else 0
  }

  function Size(mem: Memory, a: nat): nat {
    if a in mem then mem[a].size else 0
  }

  function SetPtr(mem: Memory, a: nat, ptr: nat): Memory {
    mem[a := Header(ptr, Size(mem, a))]
  }

  function SetSize(mem: Memory, a: nat, size: nat): Memory {
    mem[a := Header(Ptr(mem, a), size)]
  }

  /** size units from addr on, the header among them. */
  datatype Block = Block(addr: nat, size: nat) {
    function End(): nat { addr + size }
  }

  function Next(ring: seq<Block>, i: nat): nat {
    if i + 1 < |ring| then i + 1 else 0
  }

  /** The free list: one cycle, addresses rising from base at ring[0], no block ending where the next starts. */
  ghost predicate Rising(ring: seq<Block>, base: nat) {
    && |ring| >= 1 && ring[0] == Block(base, 0) && base != NULL
    && (forall i | 1 <= i < |ring| :: ring[i].size >= 1)
    && (forall i, j | 0 <= i < j < |ring| :: ring[i].End() < ring[j].addr)
  }

  /** The headers of the blocks on the list. */
  ghost predicate Held(mem: Memory, ring: seq<Block>) {
    forall i {:trigger HeldAt(mem, ring, i)} | 0 <= i < |ring| :: HeldAt(mem, ring, i)
  }

  ghost predicate HeldAt(mem: Memory, ring: seq<Block>, i: nat)
    requires i < |ring|
  {
    Size(mem, ring[i].addr) == ring[i].size && Ptr(mem, ring[i].addr) == ring[Next(ring, i)].addr
  }

  // ---------- putting a block back ----------

  /** Block b fits in the gap after ring[t]. */
  predicate Fits(ring: seq<Block>, t: nat, b: Block) {
    t < |ring| && b.size >= 1 && ring[t].End() <= b.addr && ring[t].addr < b.addr
        && (t + 1 < |ring| ==> b.End() <= ring[t + 1].addr)
  }

  /** The list with b in that gap, joined with the neighbours it touches. */
  function Insert(ring: seq<Block>, t: nat, b: Block): seq<Block>
    requires t < |ring|
  {
    var up := t + 1 < |ring| && b.End() == ring[t + 1].addr;
    var b1 := if up then Block(b.addr, b.size + ring[t + 1].size) else b;
    var rest := if up then ring[t + 2..] else ring[t + 1..];
    if ring[t].End() == b.addr then ring[..t] + [Block(ring[t].addr, ring[t].size + b1.size)] + rest
    else ring[..t + 1] + [b1] + rest
  }

  /** Joining with the block above, then with the block below. */
  function JoinUp(ring: seq<Block>, t: nat, b: Block): Block
    requires t < |ring|
  {
    if t + 1 < |ring| && b.End() == ring[t + 1].addr then Block(b.addr, b.size + ring[t + 1].size) else b
  }

  function Up(ring: seq<Block>, t: nat, b: Block): nat {
    if t + 1 < |ring| && b.End() == ring[t + 1].addr then 1 else 0
  }

  function Down(ring: seq<Block>, t: nat, b: Block): nat
    requires t < |ring|
  {
    if ring[t].End() == b.addr then 1 else 0
  }

  /** Block i of the new list. */
  lemma InsertAt(ring: seq<Block>, t: nat, b: Block, i: nat)
    requires t < |ring| && i < |ring| + 1 - Up(ring, t, b) - Down(ring, t, b)
    ensures var r, at := Insert(ring, t, b), t + 1 - Down(ring, t, b);
            && |r| == |ring| + 1 - Up(ring, t, b) - Down(ring, t, b)
            && (i < at ==> r[i] == ring[i])
            && (i > at ==> r[i] == ring[i - 1 + Up(ring, t, b) + Down(ring, t, b)])
            && (i == at ==> r[i] == if Down(ring, t, b) == 1
                                    then Block(ring[t].addr, ring[t].size + JoinUp(ring, t, b).size) else JoinUp(ring,
                                                                                                                 t, b))
  {
  }

  lemma InsertRising(ring: seq<Block>, base: nat, t: nat, b: Block)
    requires Rising(ring, base) && Fits(ring, t, b)
    ensures Rising(Insert(ring, t, b), base)
  {
    hide Insert;
    var r := Insert(ring, t, b);
    InsertAt(ring, t, b, 0);
    assert Down(ring, t, b) == 1 ==> t > 0;
    forall i | 0 <= i < |r|
      ensures i >= 1 ==> r[i].size >= 1
    {
      InsertAt(ring, t, b, i);
    }
    forall i, j | 0 <= i < j < |r|
      ensures r[i].End() < r[j].addr
    {
      InsertAt(ring, t, b, i);
      InsertAt(ring, t, b, j);
    }
  }

  /** What free writes: bp first, then its predecessor p. */
  function Freed(mem: Memory, p: nat, bp: nat): Memory {
    var q := Ptr(mem, p);
    var mem1 := if bp + Size(mem, bp) == q then SetPtr(SetSize(mem, bp, Size(mem, bp) + Size(mem, q)), bp, Ptr(mem, q))
                else SetPtr(mem, bp, q);
    if p + Size(mem1, p) ==
        bp then SetPtr(SetSize(mem1, p, Size(mem1, p) + Size(mem1, bp)), p, Ptr(mem1, bp)) else SetPtr(mem1, p, bp)
  }

  /** Those writes make exactly the list Insert describes. */
  lemma FreedHeld(mem: Memory, ring: seq<Block>, base: nat, t: nat, b: Block)
    requires Rising(ring, base) && Held(mem, ring) && Fits(ring, t, b) && Size(mem, b.addr) == b.size
    ensures Held(Freed(mem, ring[t].addr, b.addr), Insert(ring, t, b))
  {
    hide Insert;
    var r, mem' := Insert(ring, t, b), Freed(mem, ring[t].addr, b.addr);
    InsertAt(ring, t, b, 0);
    forall i | 0 <= i < |r|
      ensures HeldAt(mem', r, i)
    {
      FreedHeldAt(mem, ring, base, t, b, i);
    }
  }

  /** Freed, header by header. */
  lemma FreedHeaders(mem: Memory, p: nat, bp: nat, up: bool, down: bool, a: nat)
    requires p != bp
    requires up <==> bp + Size(mem, bp) == Ptr(mem, p)
    requires down <==> p + Size(mem, p) == bp
    ensures var q := Ptr(mem, p);
            var size := if up then Size(mem, bp) + Size(mem, q) else Size(mem, bp);
            var ptr := if up then Ptr(mem, q) else q;
            var mem' := Freed(mem, p, bp);
            && (a != p && a != bp ==> Size(mem', a) == Size(mem, a) && Ptr(mem', a) == Ptr(mem, a))
            && (Size(mem', p) == if down then Size(mem, p) + size else Size(mem, p))
            && (Ptr(mem', p) == if down then ptr else bp)
            && (!down ==> Size(mem', bp) == size && Ptr(mem', bp) == ptr)
  {
  }

  lemma RisingApart(ring: seq<Block>, base: nat, i: nat, j: nat)
    requires Rising(ring, base) && i < |ring| && j < |ring|
    ensures ring[i].addr == ring[j].addr <==> i == j
    ensures ring[i].End() == ring[j].addr ==> i == j == 0
    ensures i != j ==> ring[i].End() < ring[j].addr || ring[j].End() < ring[i].addr
  {
    if i < j { assert ring[i].End() < ring[j].addr; }
    if j < i { assert ring[j].End() < ring[i].addr; }
  }

  /** The block after the gap, and whether b touches its neighbours, as free's tests see them. */
  lemma Neighbours(mem: Memory, ring: seq<Block>, base: nat, t: nat, b: Block)
    requires Rising(ring, base) && Held(mem, ring) && Fits(ring, t, b) && Size(mem, b.addr) == b.size
    ensures var p, q := ring[t].addr, Ptr(mem, ring[t].addr);
            && q == ring[Next(ring, t)].addr
            && (Up(ring, t, b) == 1 <==> b.addr + Size(mem, b.addr) == q)
            && (Down(ring, t, b) == 1 <==> p + Size(mem, p) == b.addr)
            && p != b.addr
            && Size(mem, q) == ring[Next(ring, t)].size && Ptr(mem, q) == ring[Next(ring, Next(ring, t))].addr
  {
    assert HeldAt(mem, ring, t);
    assert HeldAt(mem, ring, Next(ring, t));
    if t > 0 { assert ring[0].End() < ring[t].addr; }
  }

  lemma FreedHeldAt(mem: Memory, ring: seq<Block>, base: nat, t: nat, b: Block, i: nat)
    requires Rising(ring, base) && Held(mem, ring) && Fits(ring, t, b) && Size(mem, b.addr) == b.size
    requires i < |Insert(ring, t, b)|
    ensures HeldAt(Freed(mem, ring[t].addr, b.addr), Insert(ring, t, b), i)
  {
    hide Insert, Freed, Rising, Held;
    var r := Insert(ring, t, b);
    InsertAt(ring, t, b, 0);
    InsertAt(ring, t, b, i);
    InsertAt(ring, t, b, Next(r, i));
    Neighbours(mem, ring, base, t, b);
    var up, down := Up(ring, t, b), Down(ring, t, b);
    var at := t + 1 - down;
    FreedHeaders(mem, ring[t].addr, b.addr, up == 1, down == 1, r[i].addr);
    var o := if i < at then i else if i == at then t else i - 1 + up + down;
    HeldHere(mem, ring, base, t, b, o);
    HeldHere(mem, ring, base, t, b, t);
  }

  lemma HeldHere(mem: Memory, ring: seq<Block>, base: nat, t: nat, b: Block, o: nat)
    requires Rising(ring, base) && Held(mem, ring) && Fits(ring, t, b) && o < |ring|
    ensures HeldAt(mem, ring, o) && ring[o].addr != b.addr && (o != t ==> ring[o].addr != ring[t].addr)
  {
    assert HeldAt(mem, ring, o);
    RisingApart(ring, base, o, t);
    if o < t { assert ring[o].End() < ring[t].addr; }
    if t + 1 < o { assert ring[t + 1].End() < ring[o].addr; }
  }

  // ---------- taking a block off ----------

  /** The list after nunits units were taken from block j: all of it, or its upper end. */
  function Carve(ring: seq<Block>, j: nat, nunits: nat): seq<Block>
    requires j < |ring| && nunits <= ring[j].size
  {
    if ring[j].size == nunits then ring[..j] + ring[j + 1..] else ring[j := Block(ring[j].addr, ring[j].size - nunits)]
  }

  function Cut(b: Block, nunits: nat): Block
    requires nunits <= b.size
  {
    Block(b.addr + b.size - nunits, nunits)
  }

  /** What malloc writes once it has found p behind prevp. */
  function Carved(mem: Memory, prevp: nat, p: nat, nunits: nat): Memory
    requires nunits <= Size(mem, p)
  {
    if Size(mem, p) == nunits then SetPtr(mem, prevp, Ptr(mem, p))
    else SetSize(SetSize(mem, p, Size(mem, p) - nunits), p + Size(mem, p) - nunits, nunits)
  }

  lemma CarveRising(ring: seq<Block>, base: nat, j: nat, nunits: nat)
    requires Rising(ring, base) && j < |ring| && 1 <= nunits <= ring[j].size
    ensures j > 0 && Rising(Carve(ring, j, nunits), base)
  {
  }

  lemma CarvedHeld(mem: Memory, ring: seq<Block>, base: nat, j: nat, nunits: nat)
    requires Rising(ring, base) && Held(mem, ring) && j < |ring| && 1 <= nunits <= ring[j].size
    ensures j > 0 && Size(mem, ring[j].addr) == ring[j].size
    ensures var mem' := Carved(mem, ring[j - 1].addr, ring[j].addr, nunits);
            && Held(mem', Carve(ring, j, nunits)) && Size(mem', Cut(ring[j], nunits).addr) == nunits
  {
    hide Carve, Carved;
    CarveRising(ring, base, j, nunits);
    assert HeldAt(mem, ring, j);
    var mem', r := Carved(mem, ring[j - 1].addr, ring[j].addr, nunits), Carve(ring, j, nunits);
    CarvedHeaders(mem, ring[j - 1].addr, ring[j].addr, nunits, Cut(ring[j], nunits).addr);
    CarvedSizes(mem, ring, base, j, nunits);
    forall i | 0 <= i < |r|
      ensures HeldAt(mem', r, i)
    {
      CarvedHeldAt(mem, ring, base, j, nunits, i);
    }
  }

  /** Carved, header by header. */
  lemma CarvedHeaders(mem: Memory, prevp: nat, p: nat, nunits: nat, a: nat)
    requires 1 <= nunits <= Size(mem, p) && prevp != p
    ensures var rest, mem' := Size(mem, p) - nunits, Carved(mem, prevp, p, nunits);
            && (rest == 0 ==>
                 Size(mem', a) == Size(mem, a) && Ptr(mem', a) == if a == prevp then Ptr(mem, p) else Ptr(mem, a))
            && (rest > 0 ==> Ptr(mem', a) == Ptr(mem, a)
                             && Size(mem', a) == if a == p + rest then nunits
                                                 else if a == p then rest else Size(mem, a))
  {
  }

  lemma CarvedSizes(mem: Memory, ring: seq<Block>, base: nat, j: nat, nunits: nat)
    requires Rising(ring, base) && Held(mem, ring) && j < |ring| && 1 <= nunits <= ring[j].size
    ensures j > 0 && Size(mem, ring[j].addr) == ring[j].size && ring[j - 1].addr < ring[j].addr
    ensures |Carve(ring, j, nunits)| == if ring[j].size == nunits then |ring| - 1 else |ring|
  {
    assert HeldAt(mem, ring, j);
    assert ring[j - 1].End() < ring[j].addr;
  }

  lemma CarveAt(ring: seq<Block>, j: nat, nunits: nat, i: nat)
    requires j < |ring| && nunits <= ring[j].size && i < |Carve(ring, j, nunits)|
    ensures var r := Carve(ring, j, nunits);
            if ring[j].size == nunits then i < |ring| - 1 && r[i] == ring[if i < j then i else i + 1]
            else i < |ring| && r[i] == if i == j then Block(ring[j].addr, ring[j].size - nunits) else ring[i]
  {
  }

  lemma CarvedHeldAt(mem: Memory, ring: seq<Block>, base: nat, j: nat, nunits: nat, i: nat)
    requires Rising(ring, base) && Held(mem, ring) && j < |ring| && 1 <= nunits <= ring[j].size
    requires j > 0 && Size(mem, ring[j].addr) == ring[j].size && i < |Carve(ring, j, nunits)|
    ensures HeldAt(Carved(mem, ring[j - 1].addr, ring[j].addr, nunits), Carve(ring, j, nunits), i)
  {
    hide Carve, Carved, Rising, Held;
    CarvedSizes(mem, ring, base, j, nunits);
    CarveAt(ring, j, nunits, i);
    CarveAt(ring, j, nunits, Next(Carve(ring, j, nunits), i));
    var o := if ring[j].size == nunits && i >= j then i + 1 else i;
    CarvedHeaders(mem, ring[j - 1].addr, ring[j].addr, nunits, ring[o].addr);
    ListHere(mem, ring, base, o);
    ListHere(mem, ring, base, j);
    RisingApart(ring, base, o, j);
    RisingApart(ring, base, o, j - 1);
    CutInside(ring, base, j, nunits, o);
  }

  lemma ListHere(mem: Memory, ring: seq<Block>, base: nat, o: nat)
    requires Rising(ring, base) && Held(mem, ring) && o < |ring|
    ensures HeldAt(mem, ring, o)
  {
  }

  /** The cut-off end starts no other listed block. */
  lemma CutInside(ring: seq<Block>, base: nat, j: nat, nunits: nat, o: nat)
    requires Rising(ring, base) && j < |ring| && o < |ring| && 1 <= nunits <= ring[j].size
    requires nunits == ring[j].size ==> o != j
    ensures Cut(ring[j], nunits).addr != ring[o].addr
  {
    if o < j { assert ring[o].End() < ring[j].addr; }
    if j < o { assert ring[j].End() < ring[o].addr; }
  }

  // ---------- who has which unit ----------

  predicate Apart(b: Block, c: Block) {
    b.End() <= c.addr || c.End() <= b.addr
  }

  ghost predicate Clear(ring: seq<Block>, b: Block) {
    forall i | 0 <= i < |ring| :: Apart(ring[i], b)
  }

  ghost predicate InRing(ring: seq<Block>, u: nat) {
    exists i :: 0 <= i < |ring| && ring[i].addr <= u < ring[i].End()
  }

  ghost predicate InLive(live: set<Block>, u: nat) {
    exists b :: b in live && b.addr <= u < b.End()
  }

  /** Blocks handed out: clear of the list, of each other, below brk, with their size in their header. */
  ghost predicate LiveOk(mem: Memory, ring: seq<Block>, live: set<Block>, base: nat, brk: nat) {
    && (forall b | b in live ::
          b.size >= 1 && base < b.addr && b.End() <= brk && Size(mem, b.addr) == b.size && Clear(ring, b))
    && (forall b, c | b in live && c in live && b != c :: Apart(b, c))
  }

  /** Free and live units are together exactly the units obtained from sbrk. */
  ghost predicate Covers(ring: seq<Block>, live: set<Block>, arena: set<nat>) {
    forall u {:trigger u in arena} :: u in arena <==> InRing(ring, u) || InLive(live, u)
  }

  lemma InsertUnits(ring: seq<Block>, t: nat, b: Block, u: nat)
    requires Fits(ring, t, b)
    ensures InRing(Insert(ring, t, b), u) <==> InRing(ring, u) || b.addr <= u < b.End()
  {
    hide Insert;
    var r, at := Insert(ring, t, b), t + 1 - Down(ring, t, b);
    InsertAt(ring, t, b, at);
    if InRing(r, u) {
      var i :| 0 <= i < |r| && r[i].addr <= u < r[i].End();
      UnitFrom(ring, t, b, i, u);
    }
    if InRing(ring, u) {
      var i :| 0 <= i < |ring| && ring[i].addr <= u < ring[i].End();
      UnitKept(ring, t, b, i, u);
    }
    if b.addr <= u < b.End() { assert r[at].addr <= u < r[at].End(); }
  }

  lemma UnitFrom(ring: seq<Block>, t: nat, b: Block, i: nat, u: nat)
    requires Fits(ring, t, b) && i < |Insert(ring, t, b)|
    requires Insert(ring, t, b)[i].addr <= u < Insert(ring, t, b)[i].End()
    ensures InRing(ring, u) || b.addr <= u < b.End()
  {
    hide Insert, InRing;
    InsertAt(ring, t, b, 0);
    InsertAt(ring, t, b, i);
    var up, down := Up(ring, t, b), Down(ring, t, b);
    var at := t + 1 - down;
    if i < at { Covering(ring, i, u); }
    else if i > at { Covering(ring, i - 1 + up + down, u); }
    else if u < b.addr { Covering(ring, t, u); }
    else if u >= b.End() { Covering(ring, t + 1, u); }
  }

  lemma UnitKept(ring: seq<Block>, t: nat, b: Block, i: nat, u: nat)
    requires Fits(ring, t, b) && i < |ring| && ring[i].addr <= u < ring[i].End()
    ensures InRing(Insert(ring, t, b), u)
  {
    hide Insert, InRing;
    InsertAt(ring, t, b, 0);
    var up, down := Up(ring, t, b), Down(ring, t, b);
    var at := t + 1 - down;
    var k: nat := if i < at then i else if i == t || (i == t + 1 && up == 1) then at else i + 1 - up - down;
    InsertAt(ring, t, b, k);
    Covering(Insert(ring, t, b), k, u);
  }

  lemma Covering(ring: seq<Block>, i: nat, u: nat)
    requires i < |ring| && ring[i].addr <= u < ring[i].End()
    ensures InRing(ring, u)
  {
  }

  lemma InsertClear(ring: seq<Block>, base: nat, t: nat, b: Block, c: Block)
    requires Rising(ring, base) && Fits(ring, t, b) && Clear(ring, c) && Apart(b, c)
    requires c.size >= 1 && base < c.addr
    ensures Clear(Insert(ring, t, b), c)
  {
    hide Insert;
    var r := Insert(ring, t, b);
    InsertAt(ring, t, b, 0);
    forall i | 0 <= i < |r|
      ensures Apart(r[i], c)
    {
      InsertAt(ring, t, b, i);
      assert Apart(ring[t], c);
      if t + 1 < |ring| { assert Apart(ring[t + 1], c); }
    }
  }

  /** A block clear of the list fits in the gap its address falls in. */
  lemma ClearFits(ring: seq<Block>, base: nat, t: nat, b: Block)
    requires Rising(ring, base) && Clear(ring, b) && b.size >= 1 && base < b.addr
    requires t < |ring| && ring[t].addr < b.addr && (t + 1 < |ring| ==> b.addr < ring[t + 1].addr)
    ensures Fits(ring, t, b)
  {
    assert Apart(ring[t], b);
    if t + 1 < |ring| { assert Apart(ring[t + 1], b); }
  }

  lemma CarveUnits(ring: seq<Block>, base: nat, j: nat, nunits: nat, u: nat)
    requires Rising(ring, base) && j < |ring| && 1 <= nunits <= ring[j].size
    ensures var got := Cut(ring[j], nunits);
            InRing(Carve(ring, j, nunits), u) <==> InRing(ring, u) && !(got.addr <= u < got.End())
  {
    hide Carve, Rising;
    var r, got := Carve(ring, j, nunits), Cut(ring[j], nunits);
    if InRing(r, u) {
      var i :| 0 <= i < |r| && r[i].addr <= u < r[i].End();
      CarveAt(ring, j, nunits, i);
      var o := if ring[j].size == nunits && i >= j then i + 1 else i;
      RisingApart(ring, base, o, j);
      Covering(ring, o, u);
    }
    if InRing(ring, u) && !(got.addr <= u < got.End()) {
      var o :| 0 <= o < |ring| && ring[o].addr <= u < ring[o].End();
      CarvedSizesOnly(ring, j, nunits);
      var i: nat := if ring[j].size == nunits && o >= j then o - 1 else o;
      CarveAt(ring, j, nunits, i);
      Covering(r, i, u);
    }
  }

  lemma CarvedSizesOnly(ring: seq<Block>, j: nat, nunits: nat)
    requires j < |ring| && nunits <= ring[j].size
    ensures |Carve(ring, j, nunits)| == if ring[j].size == nunits then |ring| - 1 else |ring|
  {
  }

  lemma CarveClear(ring: seq<Block>, base: nat, j: nat, nunits: nat, c: Block)
    requires Rising(ring, base) && j < |ring| && 1 <= nunits <= ring[j].size && Clear(ring, c)
    ensures Clear(Carve(ring, j, nunits), c) && Apart(Cut(ring[j], nunits), c)
  {
    hide Carve;
    var r := Carve(ring, j, nunits);
    assert Apart(ring[j], c);
    forall i | 0 <= i < |r|
      ensures Apart(r[i], c)
    {
      CarveAt(ring, j, nunits, i);
    }
  }

  lemma CutClear(ring: seq<Block>, base: nat, j: nat, nunits: nat)
    requires Rising(ring, base) && j < |ring| && 1 <= nunits <= ring[j].size
    ensures Clear(Carve(ring, j, nunits), Cut(ring[j], nunits)) && base < Cut(ring[j], nunits).addr
  {
    hide Carve;
    var r := Carve(ring, j, nunits);
    assert j > 0 && ring[0].End() < ring[j].addr;
    forall i | 0 <= i < |r|
      ensures Apart(r[i], Cut(ring[j], nunits))
    {
      CarveAt(ring, j, nunits, i);
      var o := if ring[j].size == nunits && i >= j then i + 1 else i;
      if o < j { assert ring[o].End() < ring[j].addr; }
      if j < o { assert ring[j].End() < ring[o].addr; }
    }
  }

  /** Putting b back leaves the blocks still handed out as they were. */
  lemma FreedLive(mem: Memory, ring: seq<Block>, live: set<Block>, base: nat, brk: nat, t: nat, b: Block)
    requires Rising(ring, base) && Held(mem, ring) && Fits(ring, t, b) && Size(mem, b.addr) == b.size
    requires LiveOk(mem, ring, live, base, brk) && forall c | c in live :: Apart(b, c)
    ensures LiveOk(Freed(mem, ring[t].addr, b.addr), Insert(ring, t, b), live, base, brk)
  {
    hide Insert, Freed, Rising, Held;
    var mem' := Freed(mem, ring[t].addr, b.addr);
    Neighbours(mem, ring, base, t, b);
    RisingFirst(ring, base);
    forall c | c in live
      ensures Size(mem', c.addr) == c.size && Clear(Insert(ring, t, b), c)
    {
      assert Apart(b, c) && Apart(ring[t], c);
      FreedHeaders(mem, ring[t].addr, b.addr, Up(ring, t, b) == 1, Down(ring, t, b) == 1, c.addr);
      InsertClear(ring, base, t, b, c);
      RisingSize(ring, base, t);
    }
  }

  lemma RisingFirst(ring: seq<Block>, base: nat)
    requires Rising(ring, base)
    ensures |ring| >= 1 && ring[0] == Block(base, 0) && base != NULL
  {
  }

  lemma RisingSize(ring: seq<Block>, base: nat, i: nat)
    requires Rising(ring, base) && i < |ring|
    ensures ring[i].size >= 1 || (i == 0 && ring[i].addr == base)
  {
  }

  lemma FreedCovers(ring: seq<Block>, live: set<Block>, arena: set<nat>, t: nat, b: Block)
    requires Fits(ring, t, b) && Covers(ring, live + {b}, arena)
    ensures Covers(Insert(ring, t, b), live, arena)
  {
    hide Insert, InRing;
    forall u: nat {:trigger u in arena} | true
      ensures u in arena <==> InRing(Insert(ring, t, b), u) || InLive(live, u)
    {
      InsertUnits(ring, t, b, u);
      LiveUnits(live, b, u);
    }
  }

  lemma LiveUnits(live: set<Block>, b: Block, u: nat)
    ensures InLive(live + {b}, u) <==> InLive(live, u) || b.addr <= u < b.End()
  {
    if b.addr <= u < b.End() { assert b in live + {b}; }
    if InLive(live, u) {
      var c :| c in live && c.addr <= u < c.End();
      assert c in live + {b};
    }
  }

  /** Handing out the upper end of block j. */
  lemma CarvedLive(mem: Memory, ring: seq<Block>, live: set<Block>, base: nat, brk: nat, j: nat, nunits: nat)
    requires Rising(ring, base) && Held(mem, ring) && j < |ring| && 1 <= nunits <= ring[j].size
    requires LiveOk(mem, ring, live, base, brk) && ring[j].End() <= brk
    ensures j > 0 && Size(mem, ring[j].addr) == ring[j].size
    ensures LiveOk(Carved(mem, ring[j - 1].addr, ring[j].addr, nunits), Carve(ring, j, nunits),
                   live + {Cut(ring[j], nunits)}, base, brk)
  {
    hide Carve, Carved, Rising, Held;
    CarvedSizes(mem, ring, base, j, nunits);
    CarvedHeld(mem, ring, base, j, nunits);
    CutClear(ring, base, j, nunits);
    var mem' := Carved(mem, ring[j - 1].addr, ring[j].addr, nunits);
    forall c | c in live
      ensures Size(mem', c.addr) == c.size && Clear(Carve(ring, j, nunits), c) && Apart(Cut(ring[j], nunits), c)
    {
      assert Apart(ring[j], c);
      CarvedHeaders(mem, ring[j - 1].addr, ring[j].addr, nunits, c.addr);
      CarveClear(ring, base, j, nunits, c);
    }
  }

  lemma CarvedCovers(ring: seq<Block>, live: set<Block>, base: nat, arena: set<nat>, j: nat, nunits: nat)
    requires Rising(ring, base) && j < |ring| && 1 <= nunits <= ring[j].size && Covers(ring, live, arena)
    ensures Covers(Carve(ring, j, nunits), live + {Cut(ring[j], nunits)}, arena)
  {
    hide Carve, InRing, Rising;
    var got := Cut(ring[j], nunits);
    forall u: nat {:trigger u in arena} | true
      ensures u in arena <==> InRing(Carve(ring, j, nunits), u) || InLive(live + {got}, u)
    {
      CarveUnits(ring, base, j, nunits, u);
      LiveUnits(live, got, u);
      if got.addr <= u < got.End() { Covering(ring, j, u); }
    }
  }

  // ---------- the allocator ----------

  /** The units for nbytes and a header, in 32-bit arithmetic. */
  function Units(nbytes: nat): nat {
    (nbytes + 7) % TWO_TO_32 / 8 + 1
  }

  /** The block has room for the request and its header, and not a unit to spare, unless nbytes + 7 wraps. */
  lemma UnitsFit(nbytes: nat)
    requires nbytes < TWO_TO_32
    ensures Units(nbytes) * 8 >= nbytes + 8 <==> nbytes <= TWO_TO_32 - 8
    ensures nbytes <= TWO_TO_32 - 8 ==> Units(nbytes) * 8 < nbytes + 16
    ensures nbytes > TWO_TO_32 - 8 ==> Units(nbytes) == 1
  {
    if nbytes > TWO_TO_32 - 8 { assert (nbytes + 7) % TWO_TO_32 == nbytes + 7 - TWO_TO_32; }
  }

  /** When morecore's request is a positive int for sbrk. */
  lemma UnitsPositiveInt(nbytes: nat)
    requires nbytes < TWO_TO_32
    ensures Units(nbytes) * 8 < TWO_TO_32 / 2 <==> nbytes <= TWO_TO_32 / 2 - 16 || nbytes > TWO_TO_32 - 8
  {
    if nbytes > TWO_TO_32 - 8 { assert (nbytes + 7) % TWO_TO_32 == nbytes + 7 - TWO_TO_32; }
  }

  /** The index s steps round the cycle from f. */
  function Around(n: nat, f: nat, s: nat): (i: nat)
    requires f < n && s <= n
    ensures i < n
  {
    if f + s < n then f + s else f + s - n
  }

  /** The s-th block after ring[f] is the first, going round, that has nunits. */
  ghost predicate FirstFit(ring: seq<Block>, f: nat, nunits: nat, s: nat) {
    && f < |ring| && 1 <= s <= |ring| && ring[Around(|ring|, f, s)].size >= nunits
    && forall r | 1 <= r < s :: ring[Around(|ring|, f, r)].size < nunits
  }

  ghost predicate NoFit(ring: seq<Block>, nunits: nat) {
    forall i | 0 <= i < |ring| :: ring[i].size < nunits
  }

  lemma NoneAround(ring: seq<Block>, f: nat, nunits: nat)
    requires f < |ring| && forall r | 1 <= r <= |ring| :: ring[Around(|ring|, f, r)].size < nunits
    ensures NoFit(ring, nunits)
  {
    forall i | 0 <= i < |ring|
      ensures ring[i].size < nunits
    {
      var r: nat := if i > f then i - f else i + |ring| - f;
      assert Around(|ring|, f, r) == i;
    }
  }

  lemma FirstHere(ring: seq<Block>, f: nat, nunits: nat, s: nat)
    requires f < |ring| && 1 <= s <= |ring| && ring[Around(|ring|, f, s)].size >= nunits
    requires forall r | 1 <= r < s :: ring[Around(|ring|, f, r)].size < nunits
    ensures FirstFit(ring, f, nunits, s) && !NoFit(ring, nunits)
  {
  }

  lemma UnitsPositive(nbytes: nat)
    ensures Units(nbytes) >= 1
  {
  }

  /** From list r, with freep at r[f], the block the search finds first was taken. */
  ghost predicate Took(r: seq<Block>, f: nat, nunits: nat, r': seq<Block>, freep: nat, got: Block) {
    exists s: nat ::
      && FirstFit(r, f, nunits, s)
      && r' == Carve(r, Around(|r|, f, s), nunits) && got == Cut(r[Around(|r|, f, s)], nunits)
      && freep == r[Around(|r|, f, s - 1)].addr
  }

  /** morecore's product, the argument of sbrk, would not be a positive int. */
  predicate TooMuch(nunits: nat) {
    nunits * 8 >= TWO_TO_32 / 2
  }

  /** The block morecore gets from sbrk. */
  function Core(brk: nat, gap: nat, nunits: nat): Block {
    Block(brk + gap, if nunits < 4096 then 4096 else nunits)
  }

  predicate On(b: Block, u: nat) {
    b.addr <= u < b.End()
  }

  function Cells(b: Block): set<nat> {
    set u: nat | b.addr <= u < b.End() && On(b, u)
  }

  /** The last listed block below address a. */
  ghost function LastBelow(ring: seq<Block>, base: nat, a: nat): (t: nat)
    requires Rising(ring, base) && base < a
    ensures t < |ring| && ring[t].addr < a && (t + 1 < |ring| ==> a <= ring[t + 1].addr)
  {
    LastBelowFrom(ring, a, 0)
  }

  ghost function LastBelowFrom(ring: seq<Block>, a: nat, i: nat): (t: nat)
    requires i < |ring| && ring[i].addr < a
    ensures t < |ring| && ring[t].addr < a && (t + 1 < |ring| ==> a <= ring[t + 1].addr)
    decreases |ring| - i
  {
    if i + 1 < |ring| && ring[i + 1].addr < a then LastBelowFrom(ring, a, i + 1) else i
  }

  /** The walk of free stops at the place of bp and nowhere else. */
  lemma StopsAt(ring: seq<Block>, base: nat, t: nat, bp: nat, k: nat)
    requires Rising(ring, base) && t < |ring| && k < |ring| && base < bp && ring[t].addr < bp
    requires t + 1 < |ring| ==> bp < ring[t + 1].addr
    ensures var p, q := ring[k].addr, ring[Next(ring, k)].addr;
            k == t <==> (p < bp && bp < q) || (p >= q && (bp > p || bp < q))
  {
    if k < t {
      assert ring[k].End() < ring[k + 1].addr;
      if k + 1 < t { assert ring[k + 1].End() < ring[t].addr; }
    }
    if t + 1 < k { assert ring[t + 1].End() < ring[k].addr; }
    if k + 1 < |ring| { assert ring[k].End() < ring[k + 1].addr; }
    if k > 0 { assert ring[0].End() < ring[k].addr; }
  }

  lemma InsertEnds(ring: seq<Block>, t: nat, b: Block, brk: nat)
    requires Fits(ring, t, b) && b.End() <= brk && forall i | 0 <= i < |ring| :: ring[i].End() <= brk
    ensures var r := Insert(ring, t, b);
            t < |r| && r[t].addr == ring[t].addr && forall i | 0 <= i < |r| :: r[i].End() <= brk
  {
    hide Insert;
    InsertAt(ring, t, b, 0);
    InsertAt(ring, t, b, t);
    forall i | 0 <= i < |Insert(ring, t, b)|
      ensures Insert(ring, t, b)[i].End() <= brk
    {
      InsertAt(ring, t, b, i);
    }
  }

  /** A block clear of the list has no listed block's address. */
  lemma ClearBelow(ring: seq<Block>, base: nat, b: Block, i: nat)
    requires Rising(ring, base) && Clear(ring, b) && b.size >= 1 && base < b.addr && i < |ring|
    ensures ring[i].addr != b.addr
  {
    assert Apart(ring[i], b);
  }

  function Handed(mem: Memory, a: nat): Block {
    Block(a, Size(mem, a))
  }

  lemma NotNull(ring: seq<Block>, base: nat, t: nat)
    requires Rising(ring, base) && t < |ring|
    ensures ring[t].addr != NULL
  {
    if t > 0 { assert ring[0].End() < ring[t].addr; }
  }

  lemma InsertHas(ring: seq<Block>, t: nat, b: Block, nunits: nat)
    requires Fits(ring, t, b) && nunits <= b.size
    ensures !NoFit(Insert(ring, t, b), nunits)
  {
    hide Insert;
    var at := t + 1 - Down(ring, t, b);
    InsertAt(ring, t, b, at);
    assert Insert(ring, t, b)[at].size >= nunits;
  }

  /** A block above brk is clear of everything. */
  lemma CoreNew(mem: Memory, ring: seq<Block>, live: set<Block>, base: nat, brk: nat, arena: set<nat>, b: Block)
    requires Rising(ring, base) && Held(mem, ring) && LiveOk(mem, ring, live, base, brk) && Covers(ring, live, arena)
    requires b.addr >= brk > base && forall i | 0 <= i < |ring| :: ring[i].End() <= brk
    ensures Clear(ring, b) && forall c | c in live :: Apart(b, c)
    ensures Held(SetSize(mem, b.addr, b.size), ring) && LiveOk(SetSize(mem, b.addr, b.size), ring, live, base, b.End())
    ensures Covers(ring, live + {b}, arena + Cells(b))
  {
    hide InRing, Rising;
    var mem' := SetSize(mem, b.addr, b.size);
    forall i | 0 <= i < |ring|
      ensures HeldAt(mem', ring, i)
    {
      assert HeldAt(mem, ring, i);
      RisingSize(ring, base, i);
    }
    forall u: nat {:trigger u in arena + Cells(b)} | true
      ensures u in arena + Cells(b) <==> InRing(ring, u) || InLive(live + {b}, u)
    {
      LiveUnits(live, b, u);
      assert On(b, u) <==> b.addr <= u < b.End();
      assert u in arena <==> InRing(ring, u) || InLive(live, u);
    }
  }

  lemma CarveEnds(ring: seq<Block>, j: nat, nunits: nat, brk: nat)
    requires j < |ring| && 1 <= nunits <= ring[j].size && forall i | 0 <= i < |ring| :: ring[i].End() <= brk
    requires j > 0
    ensures var r := Carve(ring, j, nunits);
            j - 1 < |r| && r[j - 1] == ring[j - 1] && forall i | 0 <= i < |r| :: r[i].End() <= brk
  {
    hide Carve;
    CarvedSizesOnly(ring, j, nunits);
    forall i | 0 <= i < |Carve(ring, j, nunits)|
      ensures Carve(ring, j, nunits)[i].End() <= brk && (i == j - 1 ==> Carve(ring, j, nunits)[i] == ring[i])
    {
      CarveAt(ring, j, nunits, i);
    }
  }

  /** The assignments of malloc's taking branch, in their order. */
  lemma CarvedTwice(mem: Memory, prevp: nat, p: nat, nunits: nat)
    requires 1 <= nunits <= Size(mem, p)
    ensures Size(mem, p) == nunits ==> Carved(mem, prevp, p, nunits) == SetPtr(mem, prevp, Ptr(mem, p))
    ensures Size(mem, p) > nunits ==>
              var mem1 := SetSize(mem, p, Size(mem, p) - nunits);
              && Size(mem1, p) == Size(mem, p) - nunits
              && Carved(mem, prevp, p, nunits) == SetSize(mem1, p + Size(mem1, p), nunits)
  {
  }

  lemma CutFresh(mem: Memory, ring: seq<Block>, live: set<Block>, base: nat, brk: nat, j: nat, nunits: nat)
    requires j < |ring| && 1 <= nunits <= ring[j].size && LiveOk(mem, ring, live, base, brk)
    ensures Cut(ring[j], nunits) !in live
  {
    var got := Cut(ring[j], nunits);
    assert !Apart(ring[j], got);
    assert got in live ==> Clear(ring, got);
  }

  lemma EmptyList(mem: Memory, base: nat, brk: nat, live: set<Block>, arena: set<nat>)
    requires live == {} && arena == {} && base != NULL && Size(mem, base) == 0 && Ptr(mem, base) == base
    ensures var ring := [Block(base, 0)];
            Rising(ring, base) && Held(mem, ring) && LiveOk(mem, ring, live, base, brk) && Covers(ring, live, arena)
  {
  }

  /** With nothing handed out and one stretch of memory, the list is one block: nothing stays in pieces. */
  lemma Whole(ring: seq<Block>, base: nat, arena: set<nat>, first: nat, brk: nat)
    requires Rising(ring, base) && Covers(ring, {}, arena)
    requires Exactly(arena, first, brk)
    ensures ring == if first < brk then [Block(base, 0), Block(first, brk - first)] else [Block(base, 0)]
  {
    forall i | 1 <= i < |ring|
      ensures first <= ring[i].addr && ring[i].End() <= brk
    {
      Covering(ring, i, ring[i].addr);
      assert ring[i].addr in arena;
      Covering(ring, i, ring[i].End() - 1);
      assert ring[i].End() - 1 in arena;
    }
    var gap := if |ring| > 1 then ring[1].End() else first;
    assert gap in arena <==> first <= gap < brk;
    var last := ring[|ring| - 1];
    assert |ring| > 1 ==> last.addr < last.End() <= brk;
    if first < brk { assert first in arena && brk - 1 in arena; }
    assert |ring| <= 2;
    assert ring[1..] == [] || ring[1..] == [ring[1]];
  }

  ghost predicate Exactly(arena: set<nat>, first: nat, brk: nat) {
    forall u: nat {:trigger u in arena} :: u in arena <==> first <= u < brk
  }

  lemma ExactlyMore(arena: set<nat>, first: nat, b: Block)
    requires Exactly(arena, first, b.addr) && first <= b.addr
    ensures Exactly(arena + Cells(b), first, b.End())
  {
    forall u: nat {:trigger u in arena + Cells(b)} | true
      ensures u in arena + Cells(b) <==> first <= u < b.End()
    {
      assert On(b, u) <==> b.addr <= u < b.End();
      assert u in arena <==> first <= u < b.addr;
    }
  }

  lemma Without(s: seq<Block>, i: nat)
    requires i < |s| && forall k, l | 0 <= k < l < |s| :: s[k] != s[l]
    ensures var t := s[..i] + s[i + 1..];
            && (forall k, l | 0 <= k < l < |t| :: t[k] != t[l])
            && forall b :: b in t <==> b in s && b != s[i]
  {
    var t := s[..i] + s[i + 1..];
    forall b | b in s && b != s[i]
      ensures b in t
    {
      var k :| 0 <= k < |s| && s[k] == b;
      assert t[if k < i then k else k - 1] == b;
    }
  }

  // ---------- the allocator as steps of a state ----------

  /** The block at an address, or the number of blocks. */
  function BlockAt(list: seq<Block>, a: nat, from: nat): (i: nat)
    requires from <= |list|
    ensures from <= i <= |list| && (i < |list| ==> list[i].addr == a) && forall k | from <= k < i :: list[k].addr != a
    decreases |list| - from
  {
    if from == |list| || list[from].addr == a then from else BlockAt(list, a, from + 1)
  }

  /** How many steps round from list[f] the first block of nunits is, at least s; more than |list| if there is none. */
  function StepsToFit(list: seq<Block>, f: nat, nunits: nat, s: nat): (r: nat)
    requires f < |list| && 1 <= s <= |list| + 1
    ensures s <= r <= |list| + 1 && (r <= |list| ==> list[Around(|list|, f, r)].size >= nunits)
    ensures forall k | s <= k < r :: list[Around(|list|, f, k)].size < nunits
    decreases |list| + 1 - s
  {
    if s > |list| || list[Around(|list|, f, s)].size >= nunits then s else StepsToFit(list, f, nunits, s + 1)
  }

  /** Where in the list a block at address a belongs: after the last one below it. */
  function PlaceOf(list: seq<Block>, a: nat, i: nat): (t: nat)
    requires i < |list|
    ensures i <= t < |list| && (t + 1 < |list| ==> a <= list[t + 1].addr)
    ensures forall k | i < k <= t :: list[k].addr < a
    decreases |list| - i
  {
    if i + 1 < |list| && list[i + 1].addr < a then PlaceOf(list, a, i + 1) else i
  }

  datatype Op = Request(nbytes: nat, sbrkOk: bool, gap: nat) | Back(i: nat)

  /** The argument of malloc is a 32-bit word. */
  predicate Callable(op: Op) {
    op.Request? ==> op.nbytes < TWO_TO_32
  }

  /** The free list from base on, freep, the end of memory, and the blocks handed out in order. */
  datatype State = State(list: seq<Block>, freep: nat, brk: nat, held: seq<Block>) {
    predicate Fits(nunits: nat) {
      BlockAt(list, freep, 0) < |list| && StepsToFit(list, BlockAt(list, freep, 0), nunits, 1) <= |list|
    }

    /** The first fit after freep is handed out, or its upper end; freep moves to the block before. */
    function Taken(nunits: nat): State
      requires Fits(nunits)
    {
      var f := BlockAt(list, freep, 0);
      var s := StepsToFit(list, f, nunits, 1);
      var j := Around(|list|, f, s);
      State(Carve(list, j, nunits), list[Around(|list|, f, s - 1)].addr, brk, held + [Cut(list[j], nunits)])
    }

    /** A block goes back to its place; freep moves to the block below. */
    function Put(b: Block): State {
      if list == [] then this
      else this.(list := Insert(list, PlaceOf(list, b.addr, 0), b), freep := list[PlaceOf(list, b.addr, 0)].addr)
    }

    function Stepped(op: Op): State {
      match op
      case Request(nbytes, sbrkOk, gap) =>
        var n := Units(nbytes);
        if Fits(n) then Taken(n)
        else if !sbrkOk || TooMuch(n) then this
        else
          var grown := Put(Core(brk, gap, n)).(brk := Core(brk, gap, n).End());
          if grown.Fits(n) then grown.Taken(n) else grown
      case Back(i) => if i < |held| then Put(held[i]).(held := held[..i] + held[i + 1..]) else this
    }

    /** malloc would ask sbrk for no positive int. */
    predicate Odd(op: Op) {
      op.Request? && !Fits(Units(op.nbytes)) && TooMuch(Units(op.nbytes))
    }

    /** The first such request ends a run. */
    predicate Halts(ops: seq<Op>) {
      ops != [] && (Halts(ops[..|ops| - 1]) || Ran(ops[..|ops| - 1]).Odd(ops[|ops| - 1]))
    }

    function Ran(ops: seq<Op>): State {
      if ops == [] then this else Ran(ops[..|ops| - 1]).Stepped(ops[|ops| - 1])
    }
  }

  lemma {:induction false} HaltsForGood(st: State, ops: seq<Op>, n: nat)
    requires n <= |ops| && st.Halts(ops[..n])
    ensures st.Halts(ops)
    decreases |ops|
  {
    if n < |ops| {
      assert ops[..|ops| - 1][..n] == ops[..n];
      HaltsForGood(st, ops[..|ops| - 1], n);
    } else {
      assert ops[..n] == ops;
    }
  }

  lemma AtIs(list: seq<Block>, base: nat, f: nat)
    requires Rising(list, base) && f < |list|
    ensures BlockAt(list, list[f].addr, 0) == f
  {
    var i := BlockAt(list, list[f].addr, 0);
  }

  lemma StepsIs(list: seq<Block>, f: nat, nunits: nat, s: nat)
    requires FirstFit(list, f, nunits, s)
    ensures StepsToFit(list, f, nunits, 1) == s
  {
    var r := StepsToFit(list, f, nunits, 1);
  }

  /** What malloc takes is what the state gives up. */
  lemma TookIs(st: State, base: nat, f: nat, nunits: nat, list': seq<Block>, freep': nat, got: Block)
    requires Rising(st.list, base) && f < |st.list| && st.list[f].addr == st.freep
    requires Took(st.list, f, nunits, list', freep', got)
    ensures st.Fits(nunits) && st.Taken(nunits) == State(list', freep', st.brk, st.held + [got])
  {
    hide Rising;
    AtIs(st.list, base, f);
    var s: nat :| FirstFit(st.list, f, nunits, s)
      && list' == Carve(st.list, Around(|st.list|, f, s), nunits)
           && got == Cut(st.list[Around(|st.list|, f, s)], nunits)
      && freep' == st.list[Around(|st.list|, f, s - 1)].addr;
    StepsIs(st.list, f, nunits, s);
  }

  lemma NoneFits(st: State, nunits: nat)
    requires NoFit(st.list, nunits)
    ensures !st.Fits(nunits)
  {
  }

  lemma SteppedFits(st: State, nbytes: nat, sbrkOk: bool, gap: nat)
    requires st.Fits(Units(nbytes))
    ensures st.Stepped(Request(nbytes, sbrkOk, gap)) == st.Taken(Units(nbytes))
  {
  }

  lemma SteppedNone(st: State, nbytes: nat, sbrkOk: bool, gap: nat)
    requires !st.Fits(Units(nbytes)) && (!sbrkOk || TooMuch(Units(nbytes)))
    ensures st.Stepped(Request(nbytes, sbrkOk, gap)) == st
  {
  }

  lemma OddStays(st: State, op: Op)
    requires st.Odd(op)
    ensures st.Stepped(op) == st
  {
  }

  lemma InsertKeepsAddr(ring: seq<Block>, t: nat, b: Block)
    requires t < |ring|
    ensures t < |Insert(ring, t, b)| && Insert(ring, t, b)[t].addr == ring[t].addr
  {
  }

  lemma PutIs(st: State, base: nat, t: nat, b: Block)
    requires Rising(st.list, base) && Fits(st.list, t, b)
    ensures st.Put(b) == st.(list := Insert(st.list, t, b), freep := st.list[t].addr)
  {
    hide Insert;
    var i := PlaceOf(st.list, b.addr, 0);
  }

  // ---------- what the steps come to ----------

  /** Index k is passed before j on the way round that starts after f. */
  predicate Between(f: nat, k: nat, j: nat) {
    if f < j then f < k < j else k > f || k < j
  }

  /** Something fits exactly if some block is large enough. What is handed out is the upper end, of that size, of the
      first such block met after freep; freep moves to the block before it, and the rest of the list is as it was. */
  lemma TakenIs(st: State, base: nat, f: nat, n: nat) returns (j: nat)
    requires Rising(st.list, base) && f < |st.list| && st.list[f].addr == st.freep && n >= 1
    ensures st.Fits(n) <==> exists k :: 0 <= k < |st.list| && st.list[k].size >= n
    ensures st.Fits(n) ==>
              && 1 <= j < |st.list| && st.list[j].size >= n
              && (forall k | 0 <= k < |st.list| && Between(f, k, j) :: st.list[k].size < n)
              && st.Taken(n).held == st.held + [Block(st.list[j].addr + st.list[j].size - n, n)]
              && st.Taken(n).freep == st.list[j - 1].addr && st.Taken(n).brk == st.brk
              && st.Taken(n).list == st.list[..j] + (if st.list[j].size == n then []
                                                     else [Block(st.list[j].addr, st.list[j].size - n)])
                                     + st.list[j + 1..]
  {
    hide Rising;
    AtIs(st.list, base, f);
    var s := StepsToFit(st.list, f, n, 1);
    j := if s <= |st.list| then Around(|st.list|, f, s) else 0;
    if st.Fits(n) {
      BaseEmpty(st.list, base);
      forall k | 0 <= k < |st.list| && Between(f, k, j)
        ensures st.list[k].size < n
      {
        var r: nat := if k > f then k - f else k + |st.list| - f;
        assert Around(|st.list|, f, r) == k && 1 <= r < s;
      }
    } else {
      NoneAround(st.list, f, n);
    }
  }

  lemma BaseEmpty(ring: seq<Block>, base: nat)
    requires Rising(ring, base)
    ensures ring[0].size == 0
  {
  }

  /** A block goes back: the list has its units beside those it had, in rising blocks that nowhere touch, and freep is
      at the last listed block below it. */
  lemma PutBack(st: State, base: nat, b: Block)
    requires Rising(st.list, base) && Clear(st.list, b) && b.size >= 1 && base < b.addr
    ensures Rising(st.Put(b).list, base) && st.Put(b).brk == st.brk && st.Put(b).held == st.held
    ensures forall u: nat :: InRing(st.Put(b).list, u) <==> InRing(st.list, u) || b.addr <= u < b.addr + b.size
    ensures exists t :: 0 <= t < |st.list| && st.list[t].addr == st.Put(b).freep < b.addr
                        && forall k | t < k < |st.list| :: st.list[k].addr > b.addr
  {
    hide Insert, InRing;
    var t := PlaceOf(st.list, b.addr, 0);
    ClearFits(st.list, base, t, b);
    PutIs(st, base, t, b);
    InsertRising(st.list, base, t, b);
    forall u: nat
      ensures InRing(Insert(st.list, t, b), u) <==> InRing(st.list, u) || b.addr <= u < b.End()
    {
      InsertUnits(st.list, t, b, u);
    }
  }

  /** malloc's request: if no listed block is large enough, nothing changes when sbrk fails or would be asked for 2 GB
      or more; else the memory grows by max(4096, n) units after the gap, and its last n units are handed out. */
  lemma RequestIs(st: State, base: nat, f: nat, nbytes: nat, sbrkOk: bool, gap: nat)
    requires Rising(st.list, base) && f < |st.list| && st.list[f].addr == st.freep && nbytes < TWO_TO_32
    requires base < st.brk && forall k | 0 <= k < |st.list| :: st.list[k].addr + st.list[k].size <= st.brk
    requires forall k | 0 <= k < |st.list| :: st.list[k].size < Units(nbytes)
    ensures st.Odd(Request(nbytes, sbrkOk, gap)) <==> TWO_TO_32 / 2 - 16 < nbytes <= TWO_TO_32 - 8
    ensures var st' := st.Stepped(Request(nbytes, sbrkOk, gap));
            if !sbrkOk || TWO_TO_32 / 2 - 16 < nbytes <= TWO_TO_32 - 8 then st' == st
            else
              && st'.brk == st.brk + gap + (if Units(nbytes) < 4096 then 4096 else Units(nbytes))
              && st'.held == st.held + [Block(st'.brk - Units(nbytes), Units(nbytes))]
  {
    hide Rising, State.Put, State.Fits, State.Taken, Units;
    var n := Units(nbytes);
    UnitsPositive(nbytes);
    UnitsPositiveInt(nbytes);
    NoneFits(st, n);
    if sbrkOk && !TooMuch(n) {
      var core := Core(st.brk, gap, n);
      var last := |st.list| - 1;
      LastFits(st, base, core);
      PutIs(st, base, last, core);
      InsertRising(st.list, base, last, core);
      var grown := st.Put(core).(brk := core.End());
      GrownLast(st.list, core, n);
      var j := TakenIs(grown, base, last, n);
      assert grown.list[|grown.list| - 1].size >= n;
    }
  }

  lemma LastFits(st: State, base: nat, core: Block)
    requires Rising(st.list, base) && base < st.brk <= core.addr && core.size >= 1
    requires forall k | 0 <= k < |st.list| :: st.list[k].addr + st.list[k].size <= st.brk
    ensures Fits(st.list, |st.list| - 1, core)
  {
  }

  /** Only the last block of the longer list is large enough. */
  lemma GrownLast(list: seq<Block>, core: Block, n: nat)
    requires list != [] && Fits(list, |list| - 1, core) && core.size >= n
    requires forall k | 0 <= k < |list| :: list[k].size < n
    ensures var r := Insert(list, |list| - 1, core);
            && |list| <= |r| && r[|list| - 1].addr == list[|list| - 1].addr && r[|r| - 1].size >= n
            && r[|r| - 1].addr + r[|r| - 1].size == core.addr + core.size
            && forall k | 0 <= k < |r| - 1 :: r[k].size < n
  {
  }

  /** The pointers got stand for the blocks, which are all there are in live, once each. */
  ghost predicate AllHeld(live: set<Block>, got: seq<nat>, blocks: seq<Block>) {
    && |got| == |blocks|
    && (forall i | 0 <= i < |got| :: got[i] == blocks[i].addr + 1)
    && (forall i, j | 0 <= i < j < |blocks| :: blocks[i] != blocks[j])
    && forall b :: b in live <==> b in blocks
  }

  lemma OneMoreHeld(live: set<Block>, got: seq<nat>, blocks: seq<Block>, b: Block)
    requires AllHeld(live, got, blocks) && b !in live
    ensures AllHeld(live + {b}, got + [b.addr + 1], blocks + [b])
  {
  }

  // ---------- the allocator as the code has it ----------

  class Allocator {
    const base: nat
    var mem: Memory
    var freep: nat
    var brk: nat
    /** The list from base on, where freep is in it, what is handed out, and all units sbrk has given. */
    ghost var ring: seq<Block>
    ghost var at: nat
    ghost var live: set<Block>
    ghost var arena: set<nat>

    ghost predicate RingOk()
      reads this
    {
      Rising(ring, base) && Held(mem, ring) && at < |ring| && ring[at].addr == freep
          && forall i | 0 <= i < |ring| :: ring[i].End() <= brk
    }

    ghost predicate Valid()
      reads this
    {
      && base != NULL && base < brk
      && (freep == NULL ==> live == {} && arena == {})
      && (freep != NULL ==>
           RingOk() && LiveOk(mem, ring, live, base, brk) && Covers(ring, live, arena)
               && forall u | u in arena :: u < brk)
    }

    constructor (base: nat, brk: nat)
      requires base != NULL && base < brk
      ensures Valid() && freep == NULL && this.base == base && this.brk == brk
    {
      this.base, this.brk := base, brk;
      mem, freep, ring, at, live, arena := map[], NULL, [], 0, {}, {};
    }

    /** The header writes of free. */
    method Join(p: nat, bp: nat)
      modifies this`mem
      ensures mem == Freed(old(mem), p, bp)
    {
      if bp + Size(mem, bp) == Ptr(mem, p) {
        mem := SetSize(mem, bp, Size(mem, bp) + Size(mem, Ptr(mem, p)));
        mem := SetPtr(mem, bp, Ptr(mem, Ptr(mem, p)));
      } else {
        mem := SetPtr(mem, bp, Ptr(mem, p));
      }
      if p + Size(mem, p) == bp {
        mem := SetSize(mem, p, Size(mem, p) + Size(mem, bp));
        mem := SetPtr(mem, p, Ptr(mem, bp));
      } else {
        mem := SetPtr(mem, p, bp);
      }
    }

    /** free, for a block that is clear of the list: the walk ends at the block's place, wherever freep is. */
    method Release(bp: nat, ghost b: Block) returns (ghost t: nat)
      requires RingOk() && bp == b.addr && b.size >= 1 && Size(mem, bp) == b.size && base < bp && b.End() <= brk
                 && Clear(ring, b)
      modifies this`mem, this`freep, this`ring, this`at
      ensures Fits(old(ring), t, b) && ring == Insert(old(ring), t, b) && at == t
      ensures mem == Freed(old(mem), old(ring)[t].addr, bp) && freep == old(ring)[t].addr && RingOk()
    {
      hide Insert, Freed, Rising, Held, Clear, LastBelow, Fits;
      t := LastBelow(ring, base, bp);
      if t + 1 < |ring| { ClearBelow(ring, base, b, t + 1); }
      var p := freep;
      ghost var k: nat := at;
      while !(p < bp && bp < Ptr(mem, p))
        invariant k < |ring| && p == ring[k].addr
        modifies {}
        decreases if k <= t then t - k else t + |ring| - k
      {
        ListHere(mem, ring, base, k);
        StopsAt(ring, base, t, bp, k);
        if p >= Ptr(mem, p) && (bp > p || bp < Ptr(mem, p)) { break; }
        p := Ptr(mem, p);
        k := Next(ring, k);
      }
      ListHere(mem, ring, base, k);
      StopsAt(ring, base, t, bp, k);
      ClearFits(ring, base, t, b);
      InsertRising(ring, base, t, b);
      FreedHeld(mem, ring, base, t, b);
      InsertEnds(ring, t, b, brk);
      Join(p, bp);
      freep := p;
      ring, at := Insert(ring, t, b), t;
    }

    /** free: ap must be live. */
    method Free(ap: nat)
      requires Valid() && ap >= 1 && LiveAt(ap - 1)
      modifies this`mem, this`freep, this`ring, this`at, this`live
      ensures Valid() && live == old(live) - {Handed(old(mem), ap - 1)} && freep != NULL
      ensures exists t: nat | Fits(old(ring), t, Handed(old(mem), ap - 1)) ::
                ring == Insert(old(ring), t, Handed(old(mem), ap - 1)) && freep == old(ring)[t].addr
    {
      hide Insert, Freed, Rising, Held, Clear, Covers;
      ghost var b := Handed(mem, ap - 1);
      assert live - {b} + {b} == live;
      ghost var t := Release(ap - 1, b);
      ghost var rest := live - {b};
      FreedLive(old(mem), old(ring), rest, base, brk, t, b);
      FreedCovers(old(ring), rest, arena, t, b);
      live := rest;
      NotNull(old(ring), base, t);
    }

    ghost predicate LiveAt(a: nat)
      reads this
    {
      Handed(mem, a) in live
    }

    /** morecore: the block from sbrk is freed into the list, so the list then has a block of nunits. */
    method Morecore(nunits: nat, sbrkOk: bool, gap: nat) returns (p: nat, odd: bool)
      requires Valid() && freep != NULL
      modifies this
      ensures Valid() && live == old(live) && (odd <==> TooMuch(nunits))
      ensures !sbrkOk || odd ==>
                p == NULL && ring == old(ring) && freep == old(freep) && brk == old(brk) && arena == old(arena)
      ensures sbrkOk && !odd ==>
                && p == freep && p != NULL && !NoFit(ring, nunits)
                && brk == Core(old(brk), gap, nunits).End() && arena == old(arena) + Cells(Core(old(brk), gap, nunits))
                && exists t: nat | Fits(old(ring), t, Core(old(brk), gap, nunits)) ::
                     ring == Insert(old(ring), t, Core(old(brk), gap, nunits)) && at == t
    {
      hide Insert, Freed, Rising, Held, Clear, Covers;
      var nu := if nunits < 4096 then 4096 else nunits;
      if nu * 8 >= TWO_TO_32 / 2 { return NULL, true; }
      if !sbrkOk { return NULL, false; }
      var hp := brk + gap;
      ghost var b := Core(brk, gap, nunits);
      CoreNew(mem, ring, live, base, brk, arena, b);
      brk := hp + nu;
      mem := SetSize(mem, hp, nu);
      label Freeing:
      ghost var t := Release(hp, b);
      FreedLive(old@Freeing(mem), old(ring), live, base, brk, t, b);
      arena := arena + Cells(b);
      FreedCovers(old(ring), live, arena, t, b);
      InsertHas(old(ring), t, b, nunits);
      NotNull(old(ring), base, t);
      return freep, false;
    }

    /** The header writes of malloc. */
    method Split(prevp: nat, p: nat, nunits: nat) returns (ap: nat)
      requires 1 <= nunits <= Size(mem, p)
      modifies this`mem
      ensures mem == Carved(old(mem), prevp, p, nunits) && ap == p + old(Size(mem, p)) - nunits + 1
    {
      CarvedTwice(mem, prevp, p, nunits);
      if Size(mem, p) == nunits {
        mem := SetPtr(mem, prevp, Ptr(mem, p));
        ap := p + 1;
      } else {
        mem := SetSize(mem, p, Size(mem, p) - nunits);
        mem := SetSize(mem, p + Size(mem, p), nunits);
        ap := p + Size(mem, p) + 1;
      }
    }

    /** The taking branch of malloc. */
    method Take(prevp: nat, p: nat, nunits: nat, ghost s: nat) returns (ap: nat)
      requires Valid() && freep != NULL && nunits >= 1 && FirstFit(ring, at, nunits, s)
      requires p == ring[Around(|ring|, at, s)].addr && prevp == ring[Around(|ring|, at, s - 1)].addr
      modifies this`mem, this`freep, this`ring, this`at, this`live
      ensures Valid() && freep != NULL && ap >= 1 && Block(ap - 1, nunits) !in old(live)
                && live == old(live) + {Block(ap - 1, nunits)}
      ensures Took(old(ring), old(at), nunits, ring, freep, Block(ap - 1, nunits))
    {
      hide Carve, Carved, Rising, Held, Covers, LiveOk;
      ghost var j := Around(|ring|, at, s);
      CarveRising(ring, base, j, nunits);
      assert Around(|ring|, at, s - 1) == j - 1;
      CarvedHeld(mem, ring, base, j, nunits);
      CarvedLive(mem, ring, live, base, brk, j, nunits);
      CarvedCovers(ring, live, base, arena, j, nunits);
      CarvedSizes(mem, ring, base, j, nunits);
      CarveEnds(ring, j, nunits, brk);
      NotNull(ring, base, j - 1);
      CutFresh(mem, ring, live, base, brk, j, nunits);
      ap := Split(prevp, p, nunits);
      freep := prevp;
      live := live + {Cut(ring[j], nunits)};
      ring, at := Carve(ring, j, nunits), j - 1;
    }

    /** The list malloc searches, and where it starts: the empty list is made by the first call. */
    ghost function List(): seq<Block>
      reads this
    {
      if freep == NULL then [Block(base, 0)] else ring
    }

    ghost function Start(): nat
      reads this
    {
      if freep == NULL then 0 else at
    }

    ghost function View(held: seq<Block>): State
      reads this
    {
      State(List(), if freep == NULL then base else freep, brk, held)
    }

    /** malloc. odd is a request to sbrk that would not be a positive int: the process would shrink, and what then
        happens is not said. */
    method Malloc(nbytes: nat, sbrkOk: bool, gap: nat) returns (ap: nat, odd: bool)
      requires Valid() && nbytes < TWO_TO_32
      modifies this
      ensures Valid() && freep != NULL
      ensures odd <==> NoFit(old(List()), Units(nbytes)) && TooMuch(Units(nbytes))
      ensures ap == NULL <==> NoFit(old(List()), Units(nbytes)) && (!sbrkOk || odd)
      ensures ap == NULL ==> live == old(live) && ring == old(List()) && arena == old(arena) && brk == old(brk)
      ensures ap == NULL ==> freep == old(if freep == NULL then base else freep)
      ensures ap != NULL ==>
                Block(ap - 1, Units(nbytes)) !in old(live) && live == old(live) + {Block(ap - 1, Units(nbytes))}
      ensures !NoFit(old(List()), Units(nbytes)) ==>
                && arena == old(arena) && brk == old(brk)
                && Took(old(List()), old(Start()), Units(nbytes), ring, freep, Block(ap - 1, Units(nbytes)))
      ensures NoFit(old(List()), Units(nbytes)) && sbrkOk && !odd ==>
                Extended(old(List()), old(arena), Core(old(brk), gap, Units(nbytes)), Units(nbytes), ap)
    {
      hide Valid, RingOk, NoFit, Took, Extended, Core, Units, TooMuch;
      UnitsPositive(nbytes);
      var nunits := Units(nbytes);
      if freep == NULL {
        Begin();
      }
      ap, odd := Search(nunits, sbrkOk, gap);
    }

    /** The list grew by core, and the search then took nunits from it. */
    ghost predicate Extended(r: seq<Block>, was: set<nat>, core: Block, nunits: nat, ap: nat)
      reads this
    {
      && arena == was + Cells(core) && brk == core.End() && ap >= 1
      && exists t: nat :: Fits(r, t, core) && Took(Insert(r, t, core), t, nunits, ring, freep, Block(ap - 1, nunits))
    }

    /** The loop of malloc. It goes round at most twice: after morecore some block fits. */
    method Search(nunits: nat, sbrkOk: bool, gap: nat) returns (ap: nat, odd: bool)
      requires Valid() && freep != NULL && nunits >= 1
      modifies this
      ensures Valid() && freep != NULL
      ensures ap == NULL <==> NoFit(old(ring), nunits) && (!sbrkOk || odd)
      ensures odd <==> NoFit(old(ring), nunits) && TooMuch(nunits)
      ensures ap == NULL ==>
                live == old(live) && ring == old(ring) && arena == old(arena) && brk == old(brk) && freep == old(freep)
      ensures ap != NULL ==> Block(ap - 1, nunits) !in old(live) && live == old(live) + {Block(ap - 1, nunits)}
      ensures !NoFit(old(ring), nunits) ==>
                arena == old(arena) && brk == old(brk)
                    && Took(old(ring), old(at), nunits, ring, freep, Block(ap - 1, nunits))
      ensures NoFit(old(ring), nunits) && sbrkOk && !odd ==>
                Extended(old(ring), old(arena), Core(old(brk), gap, nunits), nunits, ap)
    {
      hide Insert, Carve, Rising, Held, Covers, LiveOk, Valid, RingOk, FirstFit, NoFit, Core, Cells, Took, Around,
        TooMuch;
      odd := false;
      var prevp := freep;
      ghost var core := Core(brk, gap, nunits);
      Walk(0);
      var p := Ptr(mem, prevp);
      ghost var s: nat, grown := 0, false;
      while true
        invariant Valid() && freep != NULL && live == old(live)
        invariant !grown ==> ring == old(ring) && at == old(at) && arena == old(arena) && brk == old(brk)
        invariant at < |ring| && s < |ring| && freep == ring[at].addr
        invariant prevp == ring[Around(|ring|, at, s)].addr && p == ring[Around(|ring|, at, s + 1)].addr
        invariant forall r | 1 <= r <= s :: ring[Around(|ring|, at, r)].size < nunits
        invariant !odd && (grown ==> !NoFit(ring, nunits) && NoFit(old(ring), nunits) && sbrkOk && !TooMuch(nunits))
        invariant grown ==>
                  Fits(old(ring), at, core) && ring == Insert(old(ring), at, core) && brk == core.End()
                  && arena == old(arena) + Cells(core)
        decreases !grown, |ring| - s
      {
        Walk(s + 1);
        if Size(mem, p) >= nunits {
          FirstHere(ring, at, nunits, s + 1);
          ap := Take(prevp, p, nunits, s + 1);
          return;
        }
        if p == freep {
          NoneAround(ring, at, nunits);
          p, odd := Morecore(nunits, sbrkOk, gap);
          if p == NULL { return NULL, odd; }
          grown, s := true, 0;
        } else {
          s := s + 1;
        }
        Walk(s);
        prevp := p;
        p := Ptr(mem, p);
      }
    }

    /** The list before the first call: base alone, pointing to itself. */
    method Begin()
      requires Valid() && freep == NULL
      modifies this`mem, this`freep, this`ring, this`at
      ensures Valid() && freep == base != NULL && ring == old(List()) && at == old(Start())
    {
      mem := SetSize(SetPtr(mem, base, base), base, 0);
      freep := base;
      ring, at := [Block(base, 0)], 0;
      EmptyList(mem, base, brk, live, arena);
    }

    /** What the search sees s steps from freep; it is back at freep after |ring| steps. */
    lemma Walk(s: nat)
      requires Valid() && freep != NULL
      ensures at < |ring| && freep == ring[at].addr && Around(|ring|, at, 0) == at
      ensures s <= |ring| ==>
                var i := Around(|ring|, at, s);
                && Size(mem, ring[i].addr) == ring[i].size && (ring[i].addr == freep <==> s == 0 || s == |ring|)
                && (s < |ring| ==> Ptr(mem, ring[i].addr) == ring[Around(|ring|, at, s + 1)].addr)
    {
      if s <= |ring| {
        assert HeldAt(mem, ring, Around(|ring|, at, s));
        RisingApart(ring, base, Around(|ring|, at, s), at);
      }
    }

    /** Blocks held by the pointers got. */
    ghost predicate Holds(got: seq<nat>, blocks: seq<Block>)
      reads this
    {
      AllHeld(live, got, blocks)
    }

    /** What the list is when it is rising, before the first call as well. */
    lemma ListRising()
      requires Valid()
      ensures Rising(List(), base) && Start() < |List()| && List()[Start()].addr == View([]).freep
    {
    }

    /** malloc for a holder of got. */
    method Obtain(nbytes: nat, sbrkOk: bool, gap: nat, got: seq<nat>, ghost blocks: seq<Block>, ghost first: nat)
        returns (got': seq<nat>, ghost blocks': seq<Block>, odd: bool)
      requires Valid() && Holds(got, blocks) && Callable(Request(nbytes, sbrkOk, gap)) && first <= brk
      modifies this
      ensures odd <==> old(View(blocks)).Odd(Request(nbytes, sbrkOk, gap))
      ensures Valid() && Holds(got', blocks') && brk >= old(brk)
      ensures View(blocks') == old(View(blocks)).Stepped(Request(nbytes, sbrkOk, gap))
      ensures gap == 0 && Exactly(old(arena), first, old(brk)) ==> Exactly(arena, first, brk)
      ensures odd ==> arena == old(arena) && brk == old(brk)
    {
      hide Took, Insert, Carve, Rising, Held, Covers, Units, NoFit, LiveOk, Exactly, State.Stepped, State.Put,
          State.Fits, TooMuch, AllHeld;
      ghost var st, n, none := View(blocks), Units(nbytes), NoFit(List(), Units(nbytes));
      ghost var f := Start();
      ListRising();
      var ap;
      ap, odd := Malloc(nbytes, sbrkOk, gap);
      if none && sbrkOk && !odd && gap == 0 && Exactly(old(arena), first, old(brk)) {
        ExactlyMore(old(arena), first, Core(old(brk), gap, n));
      }
      got', blocks' := got, blocks;
      if ap != NULL {
        got', blocks' := got + [ap], blocks + [Block(ap - 1, n)];
        OneMoreHeld(old(live), got, blocks, Block(ap - 1, n));
      }
      if !none {
        TookIs(st, base, f, n, ring, freep, Block(ap - 1, n));
        SteppedFits(st, nbytes, sbrkOk, gap);
      } else if !sbrkOk || odd {
        NoneFits(st, n);
        SteppedNone(st, nbytes, sbrkOk, gap);
      } else {
        NoneFits(st, n);
        GrewIs(st, old(arena), nbytes, gap, ap);
      }
    }

    /** The list grew and then gave up a block. */
    lemma GrewIs(st: State, was: set<nat>, nbytes: nat, gap: nat, ap: nat)
      requires freep != NULL && Rising(st.list, base) && NoFit(st.list, Units(nbytes)) && !TooMuch(Units(nbytes))
      requires Extended(st.list, was, Core(st.brk, gap, Units(nbytes)), Units(nbytes), ap)
      ensures View(st.held + [Block(ap - 1, Units(nbytes))]) == st.Stepped(Request(nbytes, true, gap))
    {
      hide Rising, Took, Insert, NoFit, State.Fits, State.Taken, State.Put, Units, Cells, TooMuch;
      var n := Units(nbytes);
      var core := Core(st.brk, gap, n);
      var t: nat :| Fits(st.list, t, core) && Took(Insert(st.list, t, core), t, n, ring, freep, Block(ap - 1, n));
      NoneFits(st, n);
      PutIs(st, base, t, core);
      InsertRising(st.list, base, t, core);
      InsertKeepsAddr(st.list, t, core);
      TookIs(st.Put(core).(brk := core.End()), base, t, n, ring, freep, Block(ap - 1, n));
    }

    /** free of live block b, told by the list. */
    method FreeBlock(ap: nat, ghost b: Block, ghost held: seq<Block>)
      requires Valid() && freep != NULL && ap >= 1 && b in live && Handed(mem, ap - 1) == b
      modifies this`mem, this`freep, this`ring, this`at, this`live
      ensures Valid() && freep != NULL && live == old(live) - {b} && View(held) == old(View(held)).Put(b)
    {
      hide Insert, Rising, Held, Covers, LiveOk, Valid, State.Put;
      ListRising();
      ghost var st := View(held);
      Free(ap);
      ghost var t: nat :| Fits(old(ring), t, b) && ring == Insert(old(ring), t, b) && freep == old(ring)[t].addr;
      PutIs(st, base, t, b);
    }

    /** free for a holder of got. */
    method GiveBack(got: seq<nat>, ghost blocks: seq<Block>, i: nat) returns (got': seq<nat>, ghost blocks': seq<Block>)
      requires Valid() && Holds(got, blocks) && i < |got|
      modifies this`mem, this`freep, this`ring, this`at, this`live
      ensures Valid() && Holds(got', blocks') && View(blocks') == old(View(blocks)).Stepped(Back(i))
    {
      hide Valid, State.Put;
      Held1(got, blocks, i);
      FreeBlock(got[i], blocks[i], blocks);
      got', blocks' := got[..i] + got[i + 1..], blocks[..i] + blocks[i + 1..];
      Without(blocks, i);
    }

    /** Any run from the start: the headers do what the steps on the list do; what is held never overlaps; and once
        nothing is held and sbrk was used by nobody else, all of its memory is one free block again. A run ends early
        only at a request for which sbrk would be asked for no positive int. */
    method Run(ops: seq<Op>) returns (got: seq<nat>, done: nat, ghost blocks: seq<Block>)
      requires Valid() && freep == NULL && forall k | 0 <= k < |ops| :: Callable(ops[k])
      modifies this
      ensures done <= |ops| && (done == |ops| <==> !old(View([])).Halts(ops))
      ensures Valid() && Holds(got, blocks) && View(blocks) == old(View([])).Ran(ops[..done])
      ensures done < |ops| ==> View(blocks).Odd(ops[done])
      ensures forall i, j | 0 <= i < j < |got| :: Apart(blocks[i], blocks[j])
      ensures freep != NULL && got == [] && (forall k | 0 <= k < done :: ops[k].Request? ==> ops[k].gap == 0) ==>
                ring == if old(brk) < brk then [Block(base, 0), Block(old(brk), brk - old(brk))] else [Block(base, 0)]
    {
      hide Valid, Holds, Exactly, State.Stepped, State.Odd, Callable;
      HoldsNone();
      got, blocks, done := [], [], 0;
      while done < |ops|
        invariant Valid() && done <= |ops| && Holds(got, blocks) && old(brk) <= brk
        invariant View(blocks) == old(View([])).Ran(ops[..done]) && !old(View([])).Halts(ops[..done])
        invariant (forall l | 0 <= l < done :: ops[l].Request? ==> ops[l].gap == 0) ==> Exactly(arena, old(brk), brk)
      {
        assert ops[..done + 1][..done] == ops[..done];
        var odd;
        ghost var st := View(blocks);
        got, blocks, odd := Perform(ops[done], got, blocks, old(brk));
        if odd {
          HaltsForGood(old(View([])), ops, done + 1);
          OddStays(st, ops[done]);
          break;
        }
        done := done + 1;
      }
      assert done == |ops| ==> ops[..done] == ops;
      HoldsApart(got, blocks, old(brk));
    }

    method Perform(op: Op, got: seq<nat>, ghost blocks: seq<Block>, ghost first: nat)
        returns (got': seq<nat>, ghost blocks': seq<Block>, odd: bool)
      requires Valid() && Holds(got, blocks) && Callable(op) && first <= brk
      modifies this
      ensures Valid() && Holds(got', blocks') && brk >= old(brk) && View(blocks') == old(View(blocks)).Stepped(op)
      ensures odd <==> old(View(blocks)).Odd(op)
      ensures (op.Request? ==> op.gap == 0) && Exactly(old(arena), first, old(brk)) ==> Exactly(arena, first, brk)
      ensures odd ==> arena == old(arena) && brk == old(brk)
    {
      hide Valid, Exactly, State.Put, State.Taken, State.Fits;
      got', blocks', odd := got, blocks, false;
      match op {
        case Request(nbytes, sbrkOk, gap) => got', blocks', odd := Obtain(nbytes, sbrkOk, gap, got, blocks, first);
        case Back(i) => if i < |got| { got', blocks' := GiveBack(got, blocks, i); }
      }
    }

    lemma HoldsApart(got: seq<nat>, blocks: seq<Block>, first: nat)
      requires Valid() && Holds(got, blocks)
      ensures forall i, j | 0 <= i < j < |got| :: Apart(blocks[i], blocks[j])
      ensures freep != NULL && got == [] && Exactly(arena, first, brk) ==>
                ring == if first < brk then [Block(base, 0), Block(first, brk - first)] else [Block(base, 0)]
    {
      if freep != NULL && got == [] && Exactly(arena, first, brk) {
        assert live == {};
        Whole(ring, base, arena, first, brk);
      }
      forall i, j | 0 <= i < j < |got|
        ensures Apart(blocks[i], blocks[j])
      {
        assert blocks[i] in live && blocks[j] in live;
      }
    }

    lemma Held1(got: seq<nat>, blocks: seq<Block>, i: nat)
      requires Valid() && Holds(got, blocks) && i < |got|
      ensures blocks[i] in live && Handed(mem, got[i] - 1) == blocks[i] && freep != NULL
    {
    }

    lemma HoldsNone()
      requires Valid() && freep == NULL
      ensures Holds([], []) && Exactly(arena, brk, brk)
    {
    }
  }
}
