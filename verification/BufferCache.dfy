/** The buffer cache of kernel/bio.c: an LRU ring of buffers that must agree with the disk. Buffers are the
    indices below NBUF; the ring's head is index NBUF. */
module BufferCache {

  const NBUF: nat := 10
  const HEAD: nat := NBUF
  /** The device number of a buffer that never held a sector. */
  const NODEV: nat := 0xFFFF_FFFF

  type Data = seq<bv8>

  datatype Place = Place(dev: nat, sector: nat)

  datatype Buf = Buf(place: Place, busy: bool, valid: bool, dirty: bool, data: Data) {
    /** iderw would find something to do. */
    predicate Pending() { dirty || !valid }
  }

  type Disk = map<Place, Data>

  function Sector(disk: Disk, p: Place): Data {
    if p in disk then disk[p] else []
  }

  // ---------- the ring ----------

  predicate Perm(order: seq<nat>) {
    |order| == NBUF && Nodes(order) && forall b: nat {:trigger b in order} | b < NBUF :: b in order
  }

  /** The i-th node from the head on; the head again after the last. */
  function Node(order: seq<nat>, i: nat): nat {
    if 1 <= i <= |order| then order[i - 1] else HEAD
  }

  predicate Nodes(order: seq<nat>) {
    && (forall i | 0 <= i < |order| :: order[i] < NBUF)
    && forall i, j | 0 <= i < j < |order| :: order[i] != order[j]
  }

  ghost predicate LinkAt(next: seq<nat>, prev: seq<nat>, order: seq<nat>, i: nat)
    requires Nodes(order) && |next| == |prev| == NBUF + 1
  {
    next[Node(order, i)] == Node(order, i + 1) && prev[Node(order, i + 1)] == Node(order, i)
  }

  /** next follows the order and prev goes back. */
  ghost predicate Linked(next: seq<nat>, prev: seq<nat>, order: seq<nat>) {
    && Nodes(order) && |next| == |prev| == NBUF + 1
    && forall i {:trigger LinkAt(next, prev, order, i)} | 0 <= i <= |order| :: LinkAt(next, prev, order, i)
  }

  /** Following next and then prev, or prev and then next, comes back, from every buffer on the ring. */
  lemma Inverse(next: seq<nat>, prev: seq<nat>, order: seq<nat>, i: nat)
    requires Linked(next, prev, order) && i <= |order|
    ensures next[Node(order, i)] <= HEAD && prev[Node(order, i)] <= HEAD
    ensures prev[next[Node(order, i)]] == Node(order, i) && next[prev[Node(order, i)]] == Node(order, i)
  {
    assert LinkAt(next, prev, order, i);
    var j := if i == 0 then |order| else i - 1;
    assert LinkAt(next, prev, order, j);
  }

  function Without(order: seq<nat>, k: nat): seq<nat>
    requires k < |order|
  {
    order[..k] + order[k + 1..]
  }

  lemma Unlink(next: seq<nat>, prev: seq<nat>, order: seq<nat>, k: nat)
    requires Linked(next, prev, order) && k < |order|
    ensures var b := order[k];
            next[b] <= HEAD && prev[b] <= HEAD
                && Linked(next[prev[b] := next[b]], prev[next[b] := prev[b]], Without(order, k))
  {
    var b, o := order[k], Without(order, k);
    assert LinkAt(next, prev, order, k) && LinkAt(next, prev, order, k + 1);
    assert Node(order, k + 1) == b;
    forall i, j | 0 <= i < j < |o|
      ensures o[i] != o[j]
    {
    }
    var next', prev' := next[prev[b] := next[b]], prev[next[b] := prev[b]];
    forall i | 0 <= i <= |o|
      ensures LinkAt(next', prev', o, i)
    {
      assert LinkAt(next, prev, order, if i < k then i else i + 1);
      assert Node(o, i) == Node(order, if i <= k then i else i + 1);
      assert Node(o, i + 1) == Node(order, if i < k then i + 1 else i + 2);
    }
  }

  lemma PushFront(next: seq<nat>, prev: seq<nat>, order: seq<nat>, b: nat)
    requires Linked(next, prev, order) && b < NBUF && b !in order
    ensures next[HEAD] <= HEAD
    ensures Linked(next[b := next[HEAD]][HEAD := b], prev[b := HEAD][next[HEAD] := b], [b] + order)
  {
    assert LinkAt(next, prev, order, 0);
    var o, f := [b] + order, next[HEAD];
    assert Nodes(o);
    var next', prev' := next[b := f][HEAD := b], prev[b := HEAD][f := b];
    forall i | 0 <= i <= |o|
      ensures LinkAt(next', prev', o, i)
    {
      assert Node(o, i + 1) == if i == 0 then b else Node(order, i);
      assert i >= 1 ==> Node(o, i) == if i == 1 then b else Node(order, i - 1);
      if i >= 1 { assert LinkAt(next, prev, order, i - 1); }
    }
  }

  // ---------- what the buffers promise ----------

  /** Each buffer's flags and contents. held maps the busy buffers to their processes, and changed has the
      buffers whose holder has modified them since they were last equal to the disk. */
  ghost predicate BufOk(b: Buf, disk: Disk, held: bool, changed: bool) {
    && (b.busy <==> held)
    && (b.busy || b.valid ==> b.place.dev != NODEV)
    && (b.dirty ==> b.valid && b.busy)
    && (changed ==> b.valid && b.busy)
    && (b.valid && !changed ==> b.data == Sector(disk, b.place))
  }

  ghost predicate BufsOk(bufs: seq<Buf>, disk: Disk, held: map<nat, nat>, changed: set<nat>) {
    forall i {:trigger BufAt(bufs, disk, held, changed, i)} | 0 <= i < |bufs| :: BufAt(bufs, disk, held, changed, i)
  }

  ghost predicate BufAt(bufs: seq<Buf>, disk: Disk, held: map<nat, nat>, changed: set<nat>, i: nat)
    requires i < |bufs|
  {
    BufOk(bufs[i], disk, i in held, i in changed)
  }

  /** At most one buffer holds a given sector. */
  predicate OnePerSector(bufs: seq<Buf>) {
    forall i, j | 0 <= i < j < |bufs| && bufs[i].place.dev != NODEV :: bufs[i].place != bufs[j].place
  }

  /** The order is by release, latest first. */
  ghost predicate ByRelease(order: seq<nat>, released: seq<nat>, clock: nat) {
    && |released| == NBUF && Perm(order) && (forall i | 0 <= i < NBUF :: released[i] < clock)
    && forall i, j | 0 <= i < j < NBUF :: released[order[i]] > released[order[j]]
  }

  lemma ReleasedPair(order: seq<nat>, released: seq<nat>, clock: nat, k: nat, i: nat, j: nat)
    requires ByRelease(order, released, clock) && k < |order| && i < j < NBUF
    ensures var o, r := [order[k]] + Without(order, k), released[order[k] := clock]; o[i] != o[j] && r[o[i]] > r[o[j]]
  {
    var o := [order[k]] + Without(order, k);
    var i', j' := if i == 0 then k else if i - 1 < k then i - 1 else i, if j - 1 < k then j - 1 else j;
    assert o[i] == order[i'] && o[j] == order[j'] && i' != j';
  }

  lemma Released(order: seq<nat>, released: seq<nat>, clock: nat, k: nat)
    requires ByRelease(order, released, clock) && k < |order|
    ensures ByRelease([order[k]] + Without(order, k), released[order[k] := clock], clock + 1)
  {
    var o, r := [order[k]] + Without(order, k), released[order[k] := clock];
    forall i, j | 0 <= i < j < NBUF
      ensures o[i] != o[j] && r[o[i]] > r[o[j]]
    {
      ReleasedPair(order, released, clock, k, i, j);
    }
    forall b: nat {:trigger b in o} | b < NBUF
      ensures b in o
    {
      assert b in order;
      var i :| 0 <= i < NBUF && order[i] == b;
      assert o[if i == k then 0 else if i < k then i + 1 else i] == b;
    }
  }

  // ---------- the cache ----------

  datatype Found = Got(b: nat) | Sleep(b: nat) | NoBuffers

  predicate Cached(bufs: seq<Buf>, p: Place) {
    exists i :: 0 <= i < |bufs| && bufs[i].place == p
  }

  lemma NoneCached(bufs: seq<Buf>, order: seq<nat>, p: Place)
    requires |bufs| == NBUF && Perm(order) && forall i | 0 <= i < NBUF :: bufs[order[i]].place != p
    ensures !Cached(bufs, p)
  {
    forall i | 0 <= i < NBUF
      ensures bufs[i].place != p
    {
      assert i in order;
    }
  }

  lemma AllBusy(bufs: seq<Buf>, order: seq<nat>)
    requires |bufs| == NBUF && Perm(order) && forall i | 0 <= i < NBUF :: bufs[order[i]].busy
    ensures forall i | 0 <= i < NBUF :: bufs[i].busy
  {
    forall i | 0 <= i < NBUF
      ensures bufs[i].busy
    {
      assert i in order;
    }
  }

  /** The first idle buffer from the ring's end is the idle one released longest ago. */
  lemma Oldest(bufs: seq<Buf>, order: seq<nat>, released: seq<nat>, clock: nat, k: nat)
    requires |bufs| == NBUF && ByRelease(order, released, clock) && k < NBUF
    requires forall i | k < i < NBUF :: bufs[order[i]].busy
    ensures forall c | 0 <= c < NBUF && !bufs[c].busy :: released[order[k]] <= released[c]
  {
    forall c | 0 <= c < NBUF && !bufs[c].busy
      ensures released[order[k]] <= released[c]
    {
      assert c in order;
      var i :| 0 <= i < NBUF && order[i] == c;
    }
  }

  /** Changing one buffer, and who has it. */
  lemma OneBuf(bufs: seq<Buf>, disk: Disk, held: map<nat, nat>,
               changed: set<nat>, b: nat, nb: Buf, held': map<nat, nat>, changed': set<nat>)
    requires BufsOk(bufs, disk, held, changed) && OnePerSector(bufs) && b < |bufs|
    requires BufOk(nb, disk, b in held', b in changed')
    requires forall i | i != b :: (i in held <==> i in held') && (i in changed <==> i in changed')
    requires nb.place == bufs[b].place || !Cached(bufs, nb.place)
    ensures BufsOk(bufs[b := nb], disk, held', changed') && OnePerSector(bufs[b := nb])
  {
    var bufs' := bufs[b := nb];
    forall i | 0 <= i < |bufs|
      ensures BufAt(bufs', disk, held', changed', i)
    {
      assert BufAt(bufs, disk, held, changed, i);
    }
  }

  /** Writing b's sector touches no other buffer's. */
  lemma DiskWritten(bufs: seq<Buf>, disk: Disk, held: map<nat, nat>, changed: set<nat>, b: nat)
    requires BufsOk(bufs, disk, held, changed) && OnePerSector(bufs) && b < |bufs| && bufs[b].dirty
    ensures BufsOk(bufs[b := bufs[b].(dirty := false)], disk[bufs[b].place := bufs[b].data], held, changed - {b})
    ensures OnePerSector(bufs[b := bufs[b].(dirty := false)])
  {
    var bufs', disk' := bufs[b := bufs[b].(dirty := false)], disk[bufs[b].place := bufs[b].data];
    assert BufAt(bufs, disk, held, changed, b);
    forall i | 0 <= i < |bufs|
      ensures BufAt(bufs', disk', held, changed - {b}, i)
    {
      assert BufAt(bufs, disk, held, changed, i);
    }
  }

  // ---------- the cache as steps of a state ----------

  datatype Step =
    | Ask(pid: nat, place: Place)
    | Done(b: nat)
    | Change(b: nat, pid: nat, data: Data)
    | Write(b: nat, pid: nat)
    | Release(b: nat, pid: nat)

  datatype Event = Nothing | Returned(place: Place, data: Data) | Wrote(place: Place, data: Data)

  /** One event on a disk without a cache. */
  predicate Replayed(disk: Disk, event: Event, disk': Disk) {
    match event
    case Nothing => disk' == disk
    case Returned(place, data) => disk' == disk && data == Sector(disk, place)
    case Wrote(place, data) => disk' == disk[place := data]
  }

  /** The disk after the log's writes, one after another, with no cache. */
  function Replay(disk: Disk, log: seq<Event>): Disk {
    if log == [] then disk
    else
      var before, last := Replay(disk, log[..|log| - 1]), log[|log| - 1];
      if last.Wrote? then before[last.place := last.data] else before
  }

  /** Every read in the log returned what the last write to its sector put there. */
  predicate Faithful(disk: Disk, log: seq<Event>) {
    log != [] ==>
      var before, last := log[..|log| - 1], log[|log| - 1];
      Faithful(disk, before) && (last.Returned? ==> last.data == Sector(Replay(disk, before), last.place))
  }

  /** The buffer that holds a sector, or |bufs|. */
  function Holder(bufs: seq<Buf>, p: Place, from: nat): (b: nat)
    requires from <= |bufs|
    ensures from <= b <= |bufs| && (b < |bufs| ==> bufs[b].place == p)
    ensures forall i | from <= i < b :: bufs[i].place != p
    decreases |bufs| - from
  {
    if from == |bufs| || bufs[from].place == p then from else Holder(bufs, p, from + 1)
  }

  lemma OneHolder(bufs: seq<Buf>, p: Place, b: nat)
    requires b < |bufs| && bufs[b].place == p && forall i | 0 <= i < |bufs| && i != b :: bufs[i].place != p
    ensures Holder(bufs, p, 0) == b
  {
  }

  lemma NoHolder(bufs: seq<Buf>, p: Place)
    requires !Cached(bufs, p)
    ensures Holder(bufs, p, 0) == |bufs|
  {
  }

  /** The last idle buffer of the order, the one released longest ago; HEAD if all are busy. */
  function LastIdleOf(bufs: seq<Buf>, order: seq<nat>): nat {
    if order == [] then HEAD
    else
      var b := order[|order| - 1];
      if b < |bufs| && !bufs[b].busy then b else LastIdleOf(bufs, order[..|order| - 1])
  }

  lemma {:induction false} LastIdleIs(bufs: seq<Buf>, order: seq<nat>, k: nat)
    requires |bufs| == NBUF && Nodes(order) && k < |order| && !bufs[order[k]].busy
    requires forall i | k < i < |order| :: bufs[order[i]].busy
    ensures LastIdleOf(bufs, order) == order[k]
  {
    if k < |order| - 1 { LastIdleIs(bufs, order[..|order| - 1], k); }
  }

  lemma {:induction false} NoneIdle(bufs: seq<Buf>, order: seq<nat>)
    requires |bufs| == NBUF && Nodes(order) && forall i | 0 <= i < |order| :: bufs[order[i]].busy
    ensures LastIdleOf(bufs, order) == HEAD
  {
    if order != [] { NoneIdle(bufs, order[..|order| - 1]); }
  }

  /** b, wherever it is, comes to the front. */
  function Fronted(order: seq<nat>, b: nat): seq<nat> {
    [b] + Minus(order, b)
  }

  function Minus(order: seq<nat>, b: nat): seq<nat> {
    if order == [] then []
    else Minus(order[..|order| - 1], b) + if order[|order| - 1] == b then [] else [order[|order| - 1]]
  }

  lemma {:induction false} MinusIs(order: seq<nat>, k: nat)
    requires k < |order| && forall i, j | 0 <= i < j < |order| :: order[i] != order[j]
    ensures Minus(order, order[k]) == Without(order, k)
  {
    var n := |order| - 1;
    if k < n {
      MinusIs(order[..n], k);
      assert Without(order, k) == Without(order[..n], k) + [order[n]];
    } else {
      MinusNone(order[..n], order[n]);
      assert Without(order, n) == order[..n];
    }
  }

  lemma {:induction false} MinusNone(order: seq<nat>, b: nat)
    requires b !in order
    ensures Minus(order, b) == order
  {
    if order != [] {
      MinusNone(order[..|order| - 1], b);
      assert order[..|order| - 1] + [order[|order| - 1]] == order;
    }
  }

  /** The buffers and their order by release, the disk, who sleeps for which buffer, who has which, and which were
      changed and not yet written. */
  datatype State = State(bufs: seq<Buf>, order: seq<nat>, disk: Disk, asleep: map<nat, nat>, held: map<nat, nat>,
                         changed: set<nat>) {
    /** bread or bwrite has returned b to pid. */
    predicate Ready(b: nat, pid: nat) {
      b < |bufs| && b in held && held[b] == pid && !bufs[b].Pending()
    }

    /** The buffer bget gives to a process that asks; HEAD if it gives none. */
    function Given(place: Place): nat {
      var b := Holder(bufs, place, 0);
      if b == |bufs| then LastIdleOf(bufs, order) else if bufs[b].busy then HEAD else b
    }

    predicate Panics(step: Step) {
      && step.Ask? && step.place.dev != NODEV && step.pid !in asleep
      && Holder(bufs, step.place, 0) == |bufs| && LastIdleOf(bufs, order) >= |bufs|
    }

    /** One step, where the code can take it. */
    function Stepped(step: Step): State {
      match step
      case Ask(pid, place) =>
        if place.dev == NODEV || pid in asleep then this
        else
          var b, g := Holder(bufs, place, 0), Given(place);
          if g < |bufs| then this.(bufs := bufs[g := Taken(place)], held := held[g := pid])
          else if b < |bufs| then this.(asleep := asleep[pid := b])
          else this
      case Done(b) =>
        if b >= |bufs| || b !in held || !bufs[b].Pending() then this
        else if bufs[b].dirty then
          this.(bufs := bufs[b := bufs[b].(dirty := false)], disk := disk[bufs[b].place := bufs[b].data],
                changed := changed - {b})
        else this.(bufs := bufs[b := bufs[b].(valid := true, data := Sector(disk, bufs[b].place))])
      case Change(b, pid, data) =>
        if !Ready(b, pid) then this else this.(bufs := bufs[b := bufs[b].(data := data)], changed := changed + {b})
      case Write(b, pid) => if !Ready(b, pid) then this else this.(bufs := bufs[b := bufs[b].(dirty := true)])
      case Release(b, pid) =>
        if !Ready(b, pid) || b in changed then this
        else
          this.(bufs := bufs[b := bufs[b].(busy := false)], held := held - {b}, order := Fronted(order, b),
                asleep := map p | p in asleep && asleep[p] != b :: asleep[p])
    }

    /** The buffer given, as its new holder finds it: with the data of the sector if it had them. */
    function Taken(place: Place): Buf
      requires Given(place) < |bufs|
    {
      var b, g := Holder(bufs, place, 0), Given(place);
      if b < |bufs| then bufs[g].(busy := true)
      else bufs[g].(place := place, busy := true, valid := false, dirty := false)
    }

    /** What a step makes known: the data a bread returns, or that a bwrite has ended. */
    function Happened(step: Step): Event {
      match step
      case Ask(pid, place) =>
        if place.dev == NODEV || pid in asleep || Given(place) >= |bufs| || !Taken(place).valid then Nothing
        else Returned(place, Taken(place).data)
      case Done(b) =>
        if b >= |bufs| || b !in held || !bufs[b].Pending() then Nothing
        else if bufs[b].dirty then Wrote(bufs[b].place, bufs[b].data)
        else Returned(bufs[b].place, Sector(disk, bufs[b].place))
      case Change(b, pid, data) => Nothing
      case Write(b, pid) => Nothing
      case Release(b, pid) => Nothing
    }

    /** The first panic ends a run. */
    predicate Halts(steps: seq<Step>) {
      steps != [] && (Halts(steps[..|steps| - 1]) || Ran(steps[..|steps| - 1]).Panics(steps[|steps| - 1]))
    }

    function Ran(steps: seq<Step>): State {
      if steps == [] then this else Ran(steps[..|steps| - 1]).Stepped(steps[|steps| - 1])
    }

    /** What the breads returned and the bwrites wrote in a run, in the order they ended. */
    function Log(steps: seq<Step>): seq<Event> {
      if steps == [] then []
      else
        var event := Ran(steps[..|steps| - 1]).Happened(steps[|steps| - 1]);
        Log(steps[..|steps| - 1]) + if event.Nothing? then [] else [event]
    }
  }

  /** The log leaves nothing out: in whatever step a process comes to have a buffer ready for it, bread has returned the
      sector and data it then finds there, or bwrite has written them. */
  lemma NothingUnlogged(st: State, step: Step, b: nat, pid: nat)
    requires |st.bufs| == NBUF && !st.Ready(b, pid) && st.Stepped(step).Ready(b, pid)
    ensures var buf := st.Stepped(step).bufs[b];
            st.Happened(step) == if b < |st.bufs| && b in st.held && st.bufs[b].dirty then Wrote(buf.place, buf.data)
                                 else Returned(buf.place, buf.data)
  {
    if step.Ask? && step.place.dev != NODEV && step.pid !in st.asleep && st.Given(step.place) < |st.bufs| {
      assert st.Taken(step.place).place == step.place;
      assert b == st.Given(step.place);
    }
  }

  lemma PanicsStill(st: State, step: Step)
    requires st.Panics(step)
    ensures st.Stepped(step) == st
  {
  }

  lemma {:induction false} HaltsForGood(st: State, steps: seq<Step>, n: nat)
    requires n <= |steps| && st.Halts(steps[..n])
    ensures st.Halts(steps)
    decreases |steps|
  {
    if n < |steps| {
      assert steps[..|steps| - 1][..n] == steps[..n];
      HaltsForGood(st, steps[..|steps| - 1], n);
    } else {
      assert steps[..n] == steps;
    }
  }

  lemma OneMoreEvent(disk0: Disk, log: seq<Event>, event: Event, before: Disk, disk: Disk)
    requires before == Replay(disk0, log) && Faithful(disk0, log) && Replayed(before, event, disk)
    ensures var log' := log + if event.Nothing? then [] else [event];
            disk == Replay(disk0, log') && Faithful(disk0, log')
  {
    assert (log + [event])[..|log|] == log;
    assert log + [] == log;
  }

  // ---------- blocks read and written by one process ----------

  datatype BlockOp = ReadIt(place: Place) | WriteIt(place: Place, data: Data)

  function Served(disk: Disk, ops: seq<BlockOp>): Disk {
    if ops == [] then disk
    else
      var mid, op := Served(disk, ops[..|ops| - 1]), ops[|ops| - 1];
      if op.ReadIt? then mid else mid[op.place := op.data]
  }

  function Reads(disk: Disk, ops: seq<BlockOp>): seq<Data> {
    if ops == [] then []
    else
      var op := ops[|ops| - 1];
      Reads(disk, ops[..|ops| - 1])
      + if op.ReadIt? then [Sector(Served(disk, ops[..|ops| - 1]), op.place)] else []
  }

  // ---------- the cache as the code has it ----------

  class Cache {
    const next: array<nat>
    const prev: array<nat>
    const bufs: array<Buf>
    var disk: Disk
    /** Which process waits for which buffer. */
    var asleep: map<nat, nat>
    /** Which process has which buffer, and which buffers were modified and not yet written. */
    var held: map<nat, nat>
    var changed: set<nat>
    /** The ring from the head on, and when each buffer was last released. */
    ghost var order: seq<nat>
    ghost var released: seq<nat>
    ghost var clock: nat

    ghost function View(): State
      reads this, bufs
    {
      State(bufs[..], order, disk, asleep, held, changed)
    }

    ghost predicate Valid()
      reads this, next, prev, bufs
    {
      && next.Length == prev.Length == NBUF + 1 && bufs.Length == NBUF && next != prev
      && Linked(next[..], prev[..], order) && ByRelease(order, released, clock)
      && BufsOk(bufs[..], disk, held, changed) && OnePerSector(bufs[..])
      && (forall p | p in asleep :: asleep[p] in held) && forall i | i in held :: i < NBUF
    }

    /** binit */
    constructor (disk: Disk)
      ensures Valid() && this.disk == disk && held == map[] && asleep == map[] && changed == {} && fresh(next)
                && fresh(prev) && fresh(bufs)
    {
      next, prev := new nat[NBUF + 1], new nat[NBUF + 1];
      bufs := new Buf[NBUF](_ => Buf(Place(NODEV, 0), false, false, false, []));
      this.disk, asleep, held, changed := disk, map[], map[], {};
      released, clock := seq(NBUF, i => i), NBUF;
      order := [];
      new;
      next[HEAD], prev[HEAD] := HEAD, HEAD;
      assert LinkAt(next[..], prev[..], order, 0);
      for b := 0 to NBUF
        invariant Linked(next[..], prev[..], order) && |order| == b && forall i | 0 <= i < b :: order[i] == b - 1 - i
        invariant forall i | 0 <= i < NBUF :: bufs[i] == Buf(Place(NODEV, 0), false, false, false, [])
        modifies this`order, next, prev
      {
        PushFront(next[..], prev[..], order, b);
        next[b] := next[HEAD];
        prev[b] := HEAD;
        prev[next[HEAD]] := b;
        next[HEAD] := b;
        order := [b] + order;
      }
      forall b: nat {:trigger b in order} | b < NBUF
        ensures b in order
      {
        assert order[NBUF - 1 - b] == b;
      }
    }

    /** An idle buffer becomes pid's. */
    method Take(b: nat, pid: nat, nb: Buf)
      requires Valid() && b < NBUF && !bufs[b].busy && BufOk(nb, disk, true, false)
      requires nb.place == bufs[b].place || !Cached(bufs[..], nb.place)
      modifies bufs, this`held
      ensures Valid() && bufs[..] == old(bufs[..])[b := nb] && held == old(held)[b := pid]
    {
      hide Linked, ByRelease;
      assert BufAt(bufs[..], disk, held, changed, b);
      OneBuf(bufs[..], disk, held, changed, b, nb, held[b := pid], changed);
      bufs[b] := nb;
      held := held[b := pid];
      assert bufs[..] == old(bufs[..])[b := nb];
    }

    /** sleep on b under the cache lock. */
    method Wait(pid: nat, b: nat)
      requires Valid() && b in held
      modifies this`asleep
      ensures Valid() && asleep == old(asleep)[pid := b]
    {
      hide Linked, ByRelease, BufsOk, OnePerSector;
      asleep := asleep[pid := b];
    }

    /** One pass of bget under the cache lock. Sleep means it waits for buffer b and tries again. */
    method Get(pid: nat, place: Place) returns (r: Found)
      requires Valid() && place.dev != NODEV && pid !in asleep
      modifies bufs, this`held, this`asleep
      ensures Valid() && View() == old(View()).Stepped(Ask(pid, place))
      ensures r == NoBuffers <==> old(View()).Panics(Ask(pid, place))
      ensures bufs.Length == NBUF && (r.Got? <==> old(View()).Given(place) < NBUF)
      ensures r.Got? ==> r.b == old(View()).Given(place) && bufs[r.b] == old(View()).Taken(place)
      ensures r == NoBuffers <==> !Cached(old(bufs[..]), place) && forall i | 0 <= i < NBUF :: old(bufs[i]).busy
      ensures r.Sleep? <==> exists i | 0 <= i < NBUF :: old(bufs[i]).place == place && old(bufs[i]).busy
      ensures r.Sleep? ==>
                r.b < NBUF && old(bufs[r.b]).place == place && old(bufs[r.b]).busy && asleep == old(asleep)[pid := r.b]
      ensures !r.Got? ==> bufs[..] == old(bufs[..]) && held == old(held)
      ensures !r.Sleep? ==> asleep == old(asleep)
      ensures r.Got? ==>
                && r.b < NBUF && !old(bufs[r.b]).busy && held == old(held)[r.b := pid]
                && (Cached(old(bufs[..]), place) ==>
                     old(bufs[r.b]).place == place && bufs[..] == old(bufs[..])[r.b := old(bufs[r.b]).(busy := true)])
                && (!Cached(old(bufs[..]), place) ==>
                      && (forall c | 0 <= c < NBUF && !old(bufs[c]).busy :: released[r.b] <= released[c])
                      && bufs[..] == old(bufs[..])[r.b := old(bufs[r.b]).(place := place, busy := true, valid := false,
                                                                          dirty := false)])
    {
      hide Valid, BufOk;
      var b := Lookup(place);
      if b != HEAD {
        Here(b, place);
        if !bufs[b].busy {
          Idle(b);
          Take(b, pid, bufs[b].(busy := true));
          return Got(b);
        }
        Wait(pid, b);
        return Sleep(b);
      }
      b := LastIdle();
      if b != HEAD {
        Idle(b);
        Take(b, pid, bufs[b].(place := place, busy := true, valid := false, dirty := false));
        return Got(b);
      }
      return NoBuffers;
    }

    /** The forward scan of bget. */
    method Lookup(place: Place) returns (b: nat)
      requires Valid() && place.dev != NODEV
      ensures b == Holder(bufs[..], place, 0) <= HEAD && bufs.Length == NBUF
                && (b == HEAD <==> !Cached(bufs[..], place))
      ensures b != HEAD ==> bufs[b].place == place && (bufs[b].busy <==> b in held)
    {
      hide Valid;
      Ring(0);
      b := next[HEAD];
      ghost var k: nat := 0;
      while b != HEAD
        invariant k <= NBUF && b == Node(order, k + 1) && forall i | 0 <= i < k :: bufs[order[i]].place != place
        decreases NBUF - k
      {
        if bufs[b].place == place {
          Here(b, place);
          OneHolder(bufs[..], place, b);
          return;
        }
        Ring(k + 1);
        b := next[b];
        k := k + 1;
      }
      NoneCached(bufs[..], order, place);
      NoHolder(bufs[..], place);
    }

    /** The backward scan of bget: the idle buffer released longest ago. */
    method LastIdle() returns (b: nat)
      requires Valid()
      ensures b == LastIdleOf(bufs[..], order) <= HEAD && bufs.Length == NBUF && |released| == NBUF
      ensures (b == HEAD <==> forall i | 0 <= i < NBUF :: bufs[i].busy)
      ensures b != HEAD ==> !bufs[b].busy && forall c | 0 <= c < NBUF && !bufs[c].busy :: released[b] <= released[c]
    {
      hide Valid;
      Ring(NBUF);
      b := prev[HEAD];
      ghost var k: nat := NBUF;
      while b != HEAD
        invariant k <= NBUF && b == Node(order, k) && forall i: nat | k <= i < NBUF :: bufs[order[i]].busy
        decreases k
      {
        if !bufs[b].busy {
          Oldest(bufs[..], order, released, clock, k - 1);
          LastIdleIs(bufs[..], order, k - 1);
          return;
        }
        Ring(k - 1);
        b := prev[b];
        k := k - 1;
      }
      AllBusy(bufs[..], order);
      NoneIdle(bufs[..], order);
    }

    lemma Idle(b: nat)
      requires Valid() && b < NBUF && !bufs[b].busy
      ensures bufs[b].place.dev != NODEV ==> BufOk(bufs[b].(busy := true), disk, true, false)
      ensures forall p: Place | p.dev != NODEV ::
                BufOk(bufs[b].(place := p, busy := true, valid := false, dirty := false), disk, true, false)
    {
      assert BufAt(bufs[..], disk, held, changed, b);
    }

    lemma Ring(k: nat)
      requires Valid()
      ensures next.Length == prev.Length == NBUF + 1 && bufs.Length == NBUF && ByRelease(order, released, clock)
                && Perm(order)
      ensures k <= NBUF ==> next[Node(order, k)] == Node(order, k + 1) && prev[Node(order, k + 1)] == Node(order, k)
    {
      if k <= NBUF { assert LinkAt(next[..], prev[..], order, k); }
    }

    /** The cached buffer of place, and there is no other. */
    lemma Here(b: nat, place: Place)
      requires Valid() && b < NBUF && bufs[b].place == place && place.dev != NODEV
      ensures Cached(bufs[..], place) && (bufs[b].busy <==> b in held)
      ensures forall i | 0 <= i < NBUF && i != b :: bufs[i].place != place
    {
      assert bufs[..][b].place == place;
      assert BufAt(bufs[..], disk, held, changed, b);
      assert OnePerSector(bufs[..]);
      forall i | 0 <= i < NBUF && i != b
        ensures bufs[i].place != place
      {
        assert bufs[..][i] == bufs[i];
      }
    }

    /** The end of iderw: the disk has done what the flags of b ask for. */
    method Transfer(b: nat)
      requires Valid() && b in held && bufs[b].Pending()
      modifies this`disk, this`changed, bufs
      ensures Valid() && (bufs[b].data == Sector(disk, bufs[b].place)) && !bufs[b].Pending() && b !in changed
      ensures old(bufs[b]).dirty ==>
                && disk == old(disk)[old(bufs[b]).place := old(bufs[b]).data]
                && bufs[..] == old(bufs[..])[b := old(bufs[b]).(dirty := false)] && changed == old(changed) - {b}
      ensures !old(bufs[b]).dirty ==>
                && disk == old(disk) && changed == old(changed)
                && bufs[..] == old(bufs[..])[b := old(bufs[b]).(valid := true,
                                                                data := Sector(disk, old(bufs[b]).place))]
    {
      hide Linked, ByRelease;
      assert BufAt(bufs[..], disk, held, changed, b);
      var buf := bufs[b];
      if buf.dirty {
        DiskWritten(bufs[..], disk, held, changed, b);
        disk := disk[buf.place := buf.data];
        bufs[b] := buf.(dirty := false);
        changed := changed - {b};
      } else {
        OneBuf(bufs[..], disk, held, changed, b, buf.(valid := true, data := Sector(disk, buf.place)), held, changed);
        bufs[b] := buf.(valid := true, data := Sector(disk, buf.place));
      }
      assert bufs[..] == old(bufs[..])[b := bufs[b]];
    }

    /** The holder changes the data of b. */
    method Modify(b: nat, pid: nat, data: Data)
      requires Valid() && b in held && held[b] == pid && !bufs[b].Pending()
      modifies bufs, this`changed
      ensures Valid() && bufs[..] == old(bufs[..])[b := old(bufs[b]).(data := data)] && changed == old(changed) + {b}
    {
      hide Linked, ByRelease;
      assert BufAt(bufs[..], disk, held, changed, b);
      OneBuf(bufs[..], disk, held, changed, b, bufs[b].(data := data), held, changed + {b});
      changed := changed + {b};
      bufs[b] := bufs[b].(data := data);
      assert bufs[..] == old(bufs[..])[b := old(bufs[b]).(data := data)];
    }

    /** bwrite, up to the wait for the disk. */
    method Bwrite(b: nat, pid: nat)
      requires Valid() && b in held && held[b] == pid && !bufs[b].Pending()
      modifies bufs
      ensures Valid() && bufs[..] == old(bufs[..])[b := old(bufs[b]).(dirty := true)]
    {
      hide Linked, ByRelease;
      assert BufAt(bufs[..], disk, held, changed, b);
      OneBuf(bufs[..], disk, held, changed, b, bufs[b].(dirty := true), held, changed);
      bufs[b] := bufs[b].(dirty := true);
      assert bufs[..] == old(bufs[..])[b := old(bufs[b]).(dirty := true)];
    }

    /** The ring updates of brelse. */
    method ToFront(b: nat, ghost k: nat)
      requires Valid() && k < NBUF && order[k] == b
      modifies this`order, this`released, this`clock, next, prev
      ensures Valid() && order == [b] + Without(old(order), k) && released == old(released)[b := old(clock)]
                && clock == old(clock) + 1
    {
      hide BufsOk, OnePerSector;
      Unlink(next[..], prev[..], order, k);
      PushFront(next[..][prev[b] := next[b]], prev[..][next[b] := prev[b]], Without(order, k), b);
      Released(order, released, clock, k);
      prev[next[b]] := prev[b];
      next[prev[b]] := next[b];
      next[b] := next[HEAD];
      prev[b] := HEAD;
      prev[next[HEAD]] := b;
      next[HEAD] := b;
      order, released, clock := [b] + Without(order, k), released[b := clock], clock + 1;
    }

    /** brelse, by a holder whose last change was written. */
    method Brelse(b: nat, pid: nat)
      requires Valid() && b in held && held[b] == pid && !bufs[b].Pending() && b !in changed
      modifies this`asleep, this`held, this`order, this`released, this`clock, next, prev, bufs
      ensures Valid() && bufs[..] == old(bufs[..])[b := old(bufs[b]).(busy := false)] && held == old(held) - {b}
      ensures released == old(released)[b := old(clock)] && order == Fronted(old(order), b)
      ensures asleep == map p | p in old(asleep) && old(asleep)[p] != b :: old(asleep)[p]
    {
      assert BufAt(bufs[..], disk, held, changed, b);
      assert b in order;
      ghost var k: nat :| k < NBUF && order[k] == b;
      MinusIs(order, k);
      ToFront(b, k);
      OneBuf(bufs[..], disk, held, changed, b, bufs[b].(busy := false), held - {b}, changed);
      bufs[b] := bufs[b].(busy := false);
      held := held - {b};
      asleep := map p | p in asleep && asleep[p] != b :: asleep[p];
      assert bufs[..] == old(bufs[..])[b := old(bufs[b]).(busy := false)];
    }

    /** Buffer b is pid's and bread or bwrite has returned it. */
    predicate Ready(b: nat, pid: nat)
      reads this, bufs
    {
      b < bufs.Length && b in held && held[b] == pid && !bufs[b].Pending()
    }

    /** One step of the ring is one step of the state, and the disk and what becomes known are those of a disk
        without a cache. */
    method Perform(step: Step) returns (panicked: bool)
      requires Valid()
      modifies this, next, prev, bufs
      ensures Valid() && View() == old(View()).Stepped(step) && (panicked <==> old(View()).Panics(step))
      ensures Replayed(old(disk), old(View()).Happened(step), disk)
    {
      hide Valid, Holder, LastIdleOf, State.Taken, State.Given;
      panicked := false;
      Promises();
      match step {
        case Ask(pid, place) =>
          if place.dev != NODEV && pid !in asleep { panicked := AskFor(pid, place); }
        case Done(b) =>
          if b < bufs.Length && b in held && bufs[b].Pending() { Transfer(b); }
        case Change(b, pid, data) =>
          if Ready(b, pid) { Modify(b, pid, data); }
        case Write(b, pid) =>
          if Ready(b, pid) { Bwrite(b, pid); }
        case Release(b, pid) =>
          if Ready(b, pid) && b !in changed { Brelse(b, pid); }
      }
    }

    method AskFor(pid: nat, place: Place) returns (panicked: bool)
      requires Valid() && place.dev != NODEV && pid !in asleep
      modifies bufs, this`held, this`asleep
      ensures Valid() && View() == old(View()).Stepped(Ask(pid, place))
      ensures panicked <==> old(View()).Panics(Ask(pid, place))
      ensures Replayed(disk, old(View()).Happened(Ask(pid, place)), disk)
    {
      hide Valid, Holder, LastIdleOf, State.Stepped, State.Panics, State.Taken, State.Given;
      Promises();
      var r := Get(pid, place);
      panicked := r == NoBuffers;
      Promises();
    }

    /** Any interleaving of the processes and the disk, each step taken only where the code can take it: the ring and
        the flags do what the steps on values do; the log of what each bread returned and each bwrite wrote is that of
        a disk without a cache; and a run ends early only with all buffers busy. */
    method Run(steps: seq<Step>) returns (done: nat)
      requires Valid()
      modifies this, next, prev, bufs
      ensures done <= |steps| && Valid() && View() == old(View()).Ran(steps[..done])
      ensures done == |steps| <==> !old(View()).Halts(steps)
      ensures done < |steps| ==> View().Panics(steps[done])
      ensures var log := old(View()).Log(steps[..done]); disk == Replay(old(disk), log) && Faithful(old(disk), log)
    {
      hide Valid, State.Stepped, State.Panics, State.Happened;
      done := 0;
      assert steps[..done] == [];
      while done < |steps|
        invariant done <= |steps| && Valid() && View() == old(View()).Ran(steps[..done])
        invariant !old(View()).Halts(steps[..done])
        invariant disk == Replay(old(disk), old(View()).Log(steps[..done]))
        invariant Faithful(old(disk), old(View()).Log(steps[..done]))
      {
        assert steps[..done + 1][..done] == steps[..done];
        ghost var before, event := disk, View().Happened(steps[done]);
        var panicked := Perform(steps[done]);
        if panicked {
          PanicsStill(old(View()).Ran(steps[..done]), steps[done]);
          HaltsForGood(old(View()), steps, done + 1);
          return;
        }
        OneMoreEvent(old(disk), old(View()).Log(steps[..done]), event, before, disk);
        done := done + 1;
      }
      assert steps[..done] == steps;
    }

    /** bread and brelse of a sector nobody has, with a buffer to spare: what is on the disk. */
    method ReadBlock(pid: nat, place: Place) returns (data: Data)
      requires Spare(pid, place)
      modifies this, next, prev, bufs
      ensures Valid() && OthersHeld(old(bufs[..]), old(held)) && asleep == old(asleep) && changed == old(changed)
      ensures data == Sector(disk, place) && disk == old(disk)
    {
      HeldAreBusy();
      hide Valid;
      var b := Bread(pid, place);
      data := bufs[b].data;
      Brelse(b, pid);
      NobodyWoken(old(asleep), old(held), b);
    }

    /** bread, a change of the data, bwrite and brelse: the data are on the disk, and nothing else has changed there. */
    method WriteBlock(pid: nat, place: Place, data: Data)
      requires Spare(pid, place)
      modifies this, next, prev, bufs
      ensures Valid() && OthersHeld(old(bufs[..]), old(held)) && asleep == old(asleep) && changed == old(changed)
      ensures disk == old(disk)[place := data]
    {
      HeldAreBusy();
      hide Valid;
      var b := Bread(pid, place);
      Rewrite(b, pid, data);
      Brelse(b, pid);
      NobodyWoken(old(asleep), old(held), b);
    }

    /** New data in a buffer, and bwrite. */
    method Rewrite(b: nat, pid: nat, data: Data)
      requires Valid() && b in held && held[b] == pid && !bufs[b].Pending()
      modifies this`disk, this`changed, bufs
      ensures Valid() && disk == old(disk)[old(bufs[b]).place := data] && changed == old(changed) - {b}
      ensures bufs[..] == old(bufs[..])[b := old(bufs[b]).(data := data, dirty := false)] && !bufs[b].Pending()
    {
      Promises();
      hide Valid;
      Modify(b, pid, data);
      Bwrite(b, pid);
      Transfer(b);
    }

    /** One process that reads and writes blocks one after the other, whatever others hold, sees and leaves what a disk
        without a cache would show. */
    method Serve(pid: nat, ops: seq<BlockOp>) returns (out: seq<Data>)
      requires Valid() && forall k | 0 <= k < |ops| :: Spare(pid, ops[k].place)
      modifies this, next, prev, bufs
      ensures Valid() && OthersHeld(old(bufs[..]), old(held)) && asleep == old(asleep) && changed == old(changed)
      ensures disk == Served(old(disk), ops) && out == Reads(old(disk), ops)
    {
      hide Valid;
      out := [];
      var k := 0;
      assert ops[..0] == [];
      while k < |ops|
        invariant k <= |ops| && Valid() && asleep == old(asleep) && changed == old(changed)
        invariant OthersHeld(old(bufs[..]), old(held)) && forall j | 0 <= j < |ops| :: Spare(pid, ops[j].place)
        invariant disk == Served(old(disk), ops[..k]) && out == Reads(old(disk), ops[..k])
      {
        assert ops[..k + 1][..k] == ops[..k];
        HeldAreBusy();
        ghost var held0, bufs0 := held, bufs[..];
        match ops[k] {
          case ReadIt(place) =>
            var data := ReadBlock(pid, place);
            out := out + [data];
          case WriteIt(place, data) =>
            WriteBlock(pid, place, data);
        }
        HeldAreBusy();
        forall j | 0 <= j < |ops|
          ensures Spare(pid, ops[j].place)
        {
          assert forall i: nat | i < NBUF :: bufs[i].busy <==> bufs0[i].busy;
        }
        k := k + 1;
      }
      assert ops[..k] == ops;
    }

    lemma HeldAreBusy()
      requires Valid()
      ensures bufs.Length == NBUF && (forall i: nat | i < NBUF :: bufs[i].busy <==> i in held)
      ensures forall p | p in asleep :: asleep[p] in held
    {
      forall i: nat | i < NBUF
        ensures bufs[i].busy <==> i in held
      {
        assert BufAt(bufs[..], disk, held, changed, i);
      }
    }

    lemma NobodyWoken(asleep0: map<nat, nat>, held0: map<nat, nat>, b: nat)
      requires b !in held0 && forall p | p in asleep0 :: asleep0[p] in held0
      ensures asleep0 == map p | p in asleep0 && asleep0[p] != b :: asleep0[p]
    {
    }

    /** A process that may ask for the sector without having to wait. */
    ghost predicate Spare(pid: nat, place: Place)
      reads this, next, prev, bufs
    {
      && Valid() && place.dev != NODEV && pid !in asleep
      && (exists i | 0 <= i < NBUF :: !bufs[i].busy)
      && forall i | 0 <= i < NBUF && bufs[i].busy :: bufs[i].place != place
    }

    /** Who had a buffer has it, unchanged. */
    ghost predicate OthersHeld(bufs0: seq<Buf>, held0: map<nat, nat>)
      reads this, bufs
    {
      held == held0 && bufs.Length == |bufs0| && forall i | 0 <= i < |bufs0| && i in held :: bufs[i] == bufs0[i]
    }

    /** bread. */
    method Bread(pid: nat, place: Place) returns (b: nat)
      requires Spare(pid, place)
      modifies bufs, this`held, this`disk, this`changed, this`asleep
      ensures Valid() && b < NBUF && b !in old(held) && held == old(held)[b := pid] && asleep == old(asleep)
      ensures b !in changed && changed == old(changed) && disk == old(disk)
      ensures bufs.Length == NBUF && bufs[b].place == place && !bufs[b].Pending() && bufs[b].data == Sector(disk, place)
      ensures forall i | 0 <= i < NBUF && i != b :: bufs[i] == old(bufs[i])
    {
      HeldAreBusy();
      Promises();
      hide Valid;
      var r := Get(pid, place);
      b := r.b;
      Promises();
      if bufs[b].Pending() { Transfer(b); }
      Promises();
    }

    /** What holds at every step. */
    lemma Promises()
      requires Valid()
      ensures bufs.Length == NBUF && next.Length == prev.Length == NBUF + 1
      ensures Perm(order) && forall k | 0 <= k <= NBUF ::
                               next[k] <= HEAD && prev[k] <= HEAD && next[prev[k]] == k && prev[next[k]] == k
      ensures forall i, j | 0 <= i < j < NBUF && bufs[i].place.dev != NODEV :: bufs[i].place != bufs[j].place
      ensures forall i | 0 <= i < NBUF && !bufs[i].busy ::
                !bufs[i].dirty && i !in changed && (bufs[i].valid ==> bufs[i].data == Sector(disk, bufs[i].place))
      ensures forall i | 0 <= i < NBUF && !bufs[i].Pending() && i !in changed ::
                bufs[i].data == Sector(disk, bufs[i].place)
      ensures forall p | p in asleep :: asleep[p] < NBUF && bufs[asleep[p]].busy
    {
      forall i | 0 <= i < NBUF
        ensures BufOk(bufs[i], disk, i in held, i in changed)
      {
        assert BufAt(bufs[..], disk, held, changed, i);
      }
      forall k | 0 <= k <= NBUF
        ensures next[k] <= HEAD && prev[k] <= HEAD && next[prev[k]] == k && prev[next[k]] == k
      {
        if k == HEAD {
          Inverse(next[..], prev[..], order, 0);
        } else {
          assert k in order;
          var i :| 0 <= i < NBUF && order[i] == k;
          Inverse(next[..], prev[..], order, i + 1);
        }
      }
      forall i, j | 0 <= i < j < NBUF && bufs[i].place.dev != NODEV
        ensures bufs[i].place != bufs[j].place
      {
        assert OnePerSector(bufs[..]) && bufs[..][i] == bufs[i] && bufs[..][j] == bufs[j];
      }
    }
  }
}
