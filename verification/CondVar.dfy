/** Condition variables: cv_wait and cv_signal of user/cvarlib.c over the ticket lock, with ticket_sleep and
    proc_wakeup of kernel/proc.c, as threads taking single steps in any order. What a thread does between two
    steps touches only data of the lock it holds. */
module CondVar {
  import opened Common
  import opened TicketLock

  /** CVAR_QUEUE_SIZE */
  const SIZE: nat := 64

  /** Where a thread is. */
  datatype Pc =
    | Outside
    | Spinning      // in lock_acquire
    | Inside        // has the user lock
    | Queued        // cv_wait: in the queue, calling ticket_sleep
    | Kernel        // ticket_sleep: has ptable.lock and still the user lock
    | Unlocked      // ticket_sleep: the user lock is released
    | Asleep        // ticket_sleep: in sched
    | Woken         // cv_wait: back from ticket_sleep
    | Respinning    // cv_wait: in lock_acquire
    | Dequeued(pid: int)   // cv_signal: calling wake
    | Waking(pid: int)     // proc_wakeup: has ptable.lock

  datatype ProcState = Running | Runnable | Sleeping

  predicate HasLock(p: Pc) { p.Inside? || p.Queued? || p.Kernel? || p.Dequeued? || p.Waking? }
  predicate HasTicket(p: Pc) { HasLock(p) || p.Spinning? || p.Respinning? }
  predicate HasTable(p: Pc) { p.Kernel? || p.Unlocked? || p.Waking? }
  predicate Signalling(p: Pc) { p.Dequeued? || p.Waking? }

  /** Waiting for a signal: on its way to sleep, or asleep. */
  predicate Waits(p: Pc, s: ProcState) { p.Queued? || p.Kernel? || p.Unlocked? || (p.Asleep? && s == Sleeping) }

  // ---------- the circular queue ----------

  /** The i-th place of the array from head on. */
  function Place(head: nat, i: nat): (p: nat)
    ensures p < SIZE
  {
    (head + i) % SIZE
  }

  lemma PlaceIs(head: nat, i: nat)
    requires head < SIZE && i <= SIZE
    ensures Place(head, i) == if head + i < SIZE then head + i else head + i - SIZE
  {
  }

  lemma Places(head: nat, i: nat, j: nat)
    requires head < SIZE && i < SIZE && j < SIZE
    ensures Place(head, i) == Place(head, j) <==> i == j
    ensures Place(head, 0) == head
    ensures Place(Place(head, 1), i) == Place(head, i + 1) && Place(Place(head, i), 1) == Place(head, i + 1)
  {
    hide Place;
    PlaceIs(head, 0);
    PlaceIs(head, 1);
    PlaceIs(head, i);
    PlaceIs(head, j);
    PlaceIs(head, i + 1);
    PlaceIs(Place(head, 1), i);
    PlaceIs(Place(head, i), 1);
  }

  /** The queue has pids[w[i]] in its i-th place from head on. */
  ghost predicate Ring(queue: seq<int>, head: nat, tail: nat, w: seq<nat>, pids: seq<int>) {
    && |queue| == SIZE && head < SIZE && |w| < SIZE && tail == Place(head, |w|)
    && forall i: nat {:trigger w[i]} | i < |w| :: w[i] < |pids| && queue[Place(head, i)] == pids[w[i]]
  }

  /** cv_wait's test for a full queue sees 63 waiters, and nothing else, unless head is 0: then it sees none. */
  lemma FullTest(queue: seq<int>, head: nat, tail: nat, w: seq<nat>, pids: seq<int>)
    requires Ring(queue, head, tail, w, pids)
    ensures tail >= SIZE || tail + 1 == head <==> |w| == SIZE - 1 && head != 0
  {
  }

  /** The 64th waiter, let in when head is 0, makes the queue look empty: all 64 are lost to cv_signal. */
  lemma SixtyFourth(queue: seq<int>, head: nat, tail: nat, w: seq<nat>, pids: seq<int>)
    requires Ring(queue, head, tail, w, pids) && |w| == SIZE - 1
    ensures !(tail >= SIZE || tail + 1 == head) <==> head == 0
    ensures Place(tail, 1) == head
  {
  }

  lemma EmptyTest(queue: seq<int>, head: nat, tail: nat, w: seq<nat>, pids: seq<int>)
    requires Ring(queue, head, tail, w, pids)
    ensures head == tail <==> w == []
  {
  }

  lemma Enqueued(queue: seq<int>, head: nat, tail: nat, w: seq<nat>, pids: seq<int>, t: nat)
    requires Ring(queue, head, tail, w, pids) && |w| < SIZE - 1 && t < |pids|
    ensures tail < SIZE && Ring(queue[tail := pids[t]], head, Place(tail, 1), w + [t], pids)
  {
    hide Place;
    Places(head, |w|, 0);
    forall i: nat | i < |w| + 1
      ensures (w + [t])[i] < |pids| && queue[tail := pids[t]][Place(head, i)] == pids[(w + [t])[i]]
    {
      Places(head, |w|, i);
      var x := if i < |w| then w[i] else t;
    }
  }

  lemma Dequeue1(queue: seq<int>, head: nat, tail: nat, w: seq<nat>, pids: seq<int>)
    requires Ring(queue, head, tail, w, pids) && w != []
    ensures w[0] < |pids| && queue[head] == pids[w[0]] && Ring(queue[head := -1], Place(head, 1), tail, w[1..], pids)
  {
    hide Place;
    var x := w[0];
    Places(head, |w| - 1, 0);
    forall i: nat | i < |w| - 1
      ensures w[1..][i] < |pids| && queue[head := -1][Place(Place(head, 1), i)] == pids[w[1..][i]]
    {
      Places(head, i + 1, 0);
      Places(head, i, 0);
      var y := w[i + 1];
    }
  }

  // ---------- the threads ----------

  /** What thread t's place says of the user lock, the table lock, its state and the queue. */
  ghost predicate SlotOk(pc: seq<Pc>, state: seq<ProcState>,
                         inside: set<nat>, tickets: set<nat>, table: nat, waiting: seq<nat>, t: nat)
    requires t < |pc| == |state|
  {
    && (HasLock(pc[t]) <==> t in inside)
    && (HasTicket(pc[t]) <==> t in tickets)
    && (HasTable(pc[t]) <==> t == table)
    && (state[t] == Sleeping ==> pc[t].Asleep?)
    && (Waits(pc[t], state[t]) <==> t in waiting)
  }

  ghost predicate SlotsOk(pc: seq<Pc>, state: seq<ProcState>,
                          inside: set<nat>, tickets: set<nat>, table: nat, waiting: seq<nat>) {
    && |pc| == |state|
    && forall t {:trigger SlotOk(pc, state, inside, tickets, table, waiting, t)} | 0 <= t < |pc| ::
         SlotOk(pc, state, inside, tickets, table, waiting, t)
  }

  /** The dequeued waiter that a signaller is about to wake. */
  ghost predicate PickOk(pc: seq<Pc>, pids: seq<int>, inside: set<nat>, picked: seq<nat>) {
    && |pc| == |pids| && |picked| <= 1 && (forall t | t in picked :: t < |pids|)
    && (picked != [] <==> exists t :: t in inside && t < |pc| && Signalling(pc[t]))
    && forall t, u | t in inside && t < |pc| && Signalling(pc[t]) && u in picked :: pc[t].pid == pids[u]
  }

  /** A thread that neither was nor becomes a signaller moves. */
  lemma PickKept(pc: seq<Pc>, pids: seq<int>, inside: set<nat>, picked: seq<nat>, t: nat, p: Pc, inside': set<nat>)
    requires PickOk(pc, pids, inside, picked) && t < |pc| && !Signalling(pc[t]) && !Signalling(p)
    requires forall u: nat {:trigger u in inside'} {:trigger u in inside} | u != t :: u in inside' <==> u in inside
    ensures PickOk(pc[t := p], pids, inside', picked)
  {
    var pc' := pc[t := p];
    if picked != [] {
      var u: nat :| u in inside && u < |pc| && Signalling(pc[u]);
      assert u in inside' && Signalling(pc'[u]);
    }
    forall u: nat | u in inside' && u < |pc| && Signalling(pc'[u])
      ensures u in inside && Signalling(pc[u])
    {
    }
  }

  /** One thread's place changes, and with it only what is said of that thread. */
  lemma OneSlot(pc: seq<Pc>, state: seq<ProcState>, inside: set<nat>, tickets: set<nat>, table: nat, waiting: seq<nat>,
                t: nat, p: Pc, s: ProcState, inside': set<nat>, tickets': set<nat>, table': nat, waiting': seq<nat>)
    requires SlotsOk(pc, state, inside, tickets, table, waiting) && t < |pc|
    requires forall u: nat {:trigger u in inside'} {:trigger u in inside} | u != t && u < |pc| ::
               u in inside' <==> u in inside
    requires forall u: nat {:trigger u in tickets'} {:trigger u in tickets} | u != t && u < |pc| ::
               u in tickets' <==> u in tickets
    requires forall u: nat {:trigger u in waiting'} {:trigger u in waiting} | u != t && u < |pc| ::
               u in waiting' <==> u in waiting
    requires table' == table || ((table == t || table >= |pc|) && (table' == t || table' >= |pc|))
    requires SlotOk(pc[t := p], state[t := s], inside', tickets', table', waiting', t)
    ensures SlotsOk(pc[t := p], state[t := s], inside', tickets', table', waiting')
  {
    var pc', state' := pc[t := p], state[t := s];
    forall u | 0 <= u < |pc'|
      ensures SlotOk(pc', state', inside', tickets', table', waiting', u)
    {
      assert SlotOk(pc, state, inside, tickets, table, waiting, u);
    }
  }

  /** The thread with the lock starts to signal w. */
  lemma PickOne(pc: seq<Pc>, pids: seq<int>, inside: set<nat>, t: nat, w: nat)
    requires |pc| == |pids| && t < |pc| && inside == {t} && w < |pids|
    ensures PickOk(pc[t := Dequeued(pids[w])], pids, inside, [w])
  {
    assert t in inside && Signalling(pc[t := Dequeued(pids[w])][t]);
  }

  lemma OneMore(w: seq<nat>, t: nat)
    requires Distinct(w + []) && t !in w
    ensures Distinct(w + [t] + [])
  {
    assert w + [] == w && w + [t] + [] == w + [t];
  }

  lemma OneLess(w: seq<nat>)
    requires Distinct(w + []) && w != []
    ensures Distinct(w[1..] + [w[0]]) && w == [w[0]] + w[1..]
    ensures forall u :: u in w + [] <==> u in w[1..] + [w[0]]
  {
    assert w + [] == w;
  }

  /** The signalled thread w becomes runnable and the signaller t goes on. */
  lemma WakeOne(pc: seq<Pc>, state: seq<ProcState>,
                inside: set<nat>, tickets: set<nat>, table: nat, w: seq<nat>, u: nat, t: nat)
    requires SlotsOk(pc, state, inside, tickets, table, w + [u]) && Distinct(w + [u])
    requires t < |pc| && u < |pc| && u != t && pc[t].Waking? && pc[u].Asleep? && table == t && inside == {t}
    ensures forall pids: seq<int> | |pids| == |pc| :: PickOk(pc[t := Inside], pids, inside, [])
    ensures SlotsOk(pc[t := Inside], state[u := Runnable], inside, tickets, |pc|, w + []) && Distinct(w + [])
  {
    assert w + [] == w;
    var pc', state' := pc[t := Inside], state[u := Runnable];
    assert forall i | 0 <= i < |w| :: (w + [u])[i] == w[i];
    assert u !in w by {
      assert (w + [u])[|w|] == u;
    }
    forall v | 0 <= v < |pc'|
      ensures SlotOk(pc', state', inside, tickets, |pc|, w + [], v)
    {
      assert SlotOk(pc, state, inside, tickets, table, w + [u], v);
    }
  }

  /** A signaller takes its next step. */
  lemma PickGoesOn(pc: seq<Pc>, pids: seq<int>, inside: set<nat>, picked: seq<nat>, t: nat)
    requires PickOk(pc, pids, inside, picked) && t < |pc| && pc[t].Dequeued? && inside == {t}
    ensures PickOk(pc[t := Waking(pc[t].pid)], pids, inside, picked)
  {
    var pc' := pc[t := Waking(pc[t].pid)];
    assert t in inside && Signalling(pc'[t]) && Signalling(pc[t]);
  }

  lemma CountOf(queue: seq<int>, head: nat, tail: nat, w: seq<nat>, pids: seq<int>)
    requires Ring(queue, head, tail, w, pids)
    ensures tail < SIZE && (tail + SIZE - head) % SIZE == |w|
  {
    PlaceIs(head, |w|);
  }

  // ---------- the threads as steps of a state ----------

  /** A step of thread t. Wait and Signal are calls of cv_wait and cv_signal, Leave is the user's lock_release, and
      Go is the next step of whatever the thread is doing. */
  datatype Choice = Go(t: nat) | Wait(t: nat) | Signal(t: nat) | Leave(t: nat)

  /** The queue as a sequence, the lock as a line of threads. */
  datatype State = State(pids: seq<int>, pc: seq<Pc>, state: seq<ProcState>, lock: TicketLock.State, table: nat,
                         waiters: seq<nat>, picked: seq<nat>) {
    function At(t: nat, p: Pc): State
      requires t < |pc|
    {
      this.(pc := pc[t := p])
    }

    /** The thread waits in the queue from now on. */
    predicate Comes(c: Choice) {
      c.t < |pc| && pc[c.t].Inside? && c.Wait? && |waiters| < SIZE - 1
    }

    /** The waiter at the head of the queue is picked. */
    predicate Picks(c: Choice) {
      c.t < |pc| && pc[c.t].Inside? && c.Signal? && waiters != [] && waiters[0] < |pids|
    }

    /** The waiter picked is made runnable. */
    predicate Wakes(c: Choice) {
      c.t < |pc| && pc[c.t].Waking? && |picked| == 1 && picked[0] < |state|
    }

    function Coming(c: Choice): seq<nat> { if Comes(c) then [c.t] else [] }
    function Waking(c: Choice): seq<nat> { if Wakes(c) then picked else [] }

    function Stepped(c: Choice): State {
      var t := c.t;
      if Comes(c) then At(t, Queued).(waiters := waiters + [t])
      else if Picks(c) then At(t, Dequeued(pids[waiters[0]])).(waiters := waiters[1..], picked := [waiters[0]])
      else if Wakes(c) then At(t, Inside).(state := state[picked[0] := Runnable], table := |pids|, picked := [])
      else if t >= |pc| || t >= |state| then this
      else
        match pc[t]
        case Inside => if c.Leave? then At(t, Outside).(lock := lock.Stepped(Release(t))) else this
        case Outside => At(t, Spinning).(lock := lock.Stepped(Take(t)))
        case Woken => At(t, Respinning).(lock := lock.Stepped(Take(t)))
        case Spinning => Looked(t)
        case Respinning => Looked(t)
        case Queued => if table == |pids| then At(t, Kernel).(table := t) else this
        case Kernel => At(t, Unlocked).(lock := lock.Stepped(Release(t)))
        case Unlocked => At(t, Asleep).(state := state[t := Sleeping], table := |pids|)
        case Asleep =>
          if state[t] == Runnable && table == |pids| then At(t, Woken).(state := state[t := Running]) else this
        case Dequeued(pid) => if table == |pids| then At(t, Pc.Waking(pid)).(table := t) else this
        case Waking(_) => this
    }

    /** One test of the spin loop. */
    function Looked(t: nat): State
      requires t < |pc|
    {
      (if lock.Entering(Look(t)) == [t] then At(t, Inside) else this).(lock := lock.Stepped(Look(t)))
    }

    function Ran(choices: seq<Choice>): State {
      if choices == [] then this else Ran(choices[..|choices| - 1]).Stepped(choices[|choices| - 1])
    }

    /** Who began to wait in a run, and who was woken, each in order. */
    function Came(choices: seq<Choice>): seq<nat> {
      if choices == [] then []
      else Came(choices[..|choices| - 1]) + Ran(choices[..|choices| - 1]).Coming(choices[|choices| - 1])
    }

    function Woke(choices: seq<Choice>): seq<nat> {
      if choices == [] then []
      else Woke(choices[..|choices| - 1]) + Ran(choices[..|choices| - 1]).Waking(choices[|choices| - 1])
    }
  }

  /** All of a State's sequences have an entry for t. */
  predicate Knows(st: State, t: nat) {
    t < |st.pc| == |st.pids| == |st.state|
  }

  /** A thread with the lock that waits, with nobody in its way, is asleep four steps later, last in the queue; it then
      has neither lock, and nobody else has moved. */
  lemma WaitSleeps(st: State, t: nat)
    requires Knows(st, t) && st.pc[t].Inside? && st.table == |st.pids| && |st.waiters| < 63
    ensures var r := st.Stepped(Wait(t)).Stepped(Go(t)).Stepped(Go(t)).Stepped(Go(t));
            && r.pc == st.pc[t := Asleep] && r.state == st.state[t := Sleeping] && r.waiters == st.waiters + [t]
            && r.lock == st.lock.Stepped(Release(t)) && r.table == |st.pids| && r.picked == st.picked
  {
  }

  /** A thread with the lock that signals, with nobody in its way, has two steps later made the longest waiter runnable,
      and nobody else; with nobody waiting a signal does nothing. */
  lemma SignalWakes(st: State, t: nat)
    requires Knows(st, t) && st.pc[t].Inside? && st.table == |st.pids| && st.picked == []
    requires st.waiters != [] ==> st.waiters[0] < |st.pids|
    ensures st.waiters == [] ==> st.Stepped(Signal(t)) == st
    ensures st.waiters != [] ==>
              var r := st.Stepped(Signal(t)).Stepped(Go(t)).Stepped(Go(t));
              && r.state == st.state[st.waiters[0] := Runnable] && r.waiters == st.waiters[1..]
              && r.pc == st.pc && r.lock == st.lock && r.table == |st.pids| && r.picked == []
  {
    if st.waiters != [] {
      var one := st.Stepped(Signal(t));
      assert one.pc[t].Dequeued?;
      assert one.Stepped(Go(t)).pc[t].Waking?;
      assert st.pc[t := Inside] == st.pc;
    }
  }

  /** A sleeper made runnable goes on once ptable.lock is free, and then joins the line for the lock again; one that is
      not does not move. */
  lemma SleeperResumes(st: State, t: nat)
    requires Knows(st, t) && st.pc[t].Asleep? && st.table == |st.pids|
    ensures st.state[t] != Runnable ==> st.Stepped(Go(t)) == st
    ensures st.state[t] == Runnable ==>
              var r := st.Stepped(Go(t)).Stepped(Go(t));
              && r.pc == st.pc[t := Respinning] && r.state == st.state[t := Running]
              && r.lock == st.lock.Stepped(Take(t)) && r.waiters == st.waiters
  {
  }

  lemma PastTheTable(st: State, c: Choice)
    requires c.t >= |st.pc|
    ensures st.Stepped(c) == st && st.Coming(c) == [] && st.Waking(c) == []
  {
  }

  // ---------- the threads as the code has them ----------

  class Monitor {
    /** The process table: slot t holds the process pids[t], in state[t]. */
    const pids: seq<int>
    const state: array<ProcState>
    const lock: Lock
    const queue: array<int>
    var head: nat
    var tail: nat
    var init: bool
    var pc: seq<Pc>
    /** The slot of the thread that has ptable.lock; |pids| if it is free. */
    var table: nat
    /** The queue's slots in order, the one just dequeued, and the slots in the order they were queued and woken. */
    ghost var waiters: seq<nat>
    ghost var picked: seq<nat>
    ghost var came: seq<nat>
    ghost var woke: seq<nat>

    ghost function View(): State
      reads this, state, lock
    {
      State.State(pids, pc, state[..], lock.View(), table, waiters, picked)
    }

    ghost predicate Valid()
      reads this, state, queue, lock
    {
      && (forall i, j | 0 <= i < j < |pids| :: pids[i] != pids[j]) && lock.threads == |pids|
      && |pc| == |pids| && state.Length == |pids| && table <= |pids|
      && queue.Length == SIZE && lock.Valid()
      && (if init then Ring(queue[..], head, tail, waiters, pids) else waiters == [])
      && SlotsOk(pc, state[..], lock.inside, lock.mine.Keys, table, waiters + picked)
      && PickOk(pc, pids, lock.inside, picked)
      && Distinct(waiters + picked) && came == woke + picked + waiters
    }

    constructor (pids: seq<int>)
      requires |pids| < TWO_TO_32 && forall i, j | 0 <= i < j < |pids| :: pids[i] != pids[j]
      ensures Valid() && this.pids == pids && fresh(lock) && fresh(queue) && fresh(state)
      ensures waiters == [] && came == [] && woke == []
    {
      this.pids := pids;
      lock := new Lock(|pids|);
      state := new ProcState[|pids|](_ => Running);
      queue := new int[SIZE];
      init, pc, table := false, seq(|pids|, _ => Outside), |pids|;
      head, tail := *, *;
      waiters, picked, came, woke := [], [], [], [];
      new;
      forall t | 0 <= t < |pc|
        ensures SlotOk(pc, state[..], lock.inside, lock.mine.Keys, table, waiters + picked, t)
      {
      }
    }

    /** Everything but t's place stays. */
    twostate predicate Moved(t: nat, p: Pc)
      reads this
    {
      t < old(|pc|) && pc == old(pc)[t := p] && waiters == old(waiters) && picked == old(picked) && came == old(came)
          && woke == old(woke)
    }

    lemma At(t: nat)
      requires Valid() && t < |pids|
      ensures SlotOk(pc, state[..], lock.inside, lock.mine.Keys, table, waiters + picked, t)
      ensures forall u | u in lock.inside :: lock.inside == {u}
    {
      assert SlotOk(pc, state[..], lock.inside, lock.mine.Keys, table, waiters + picked, t);
      lock.Facts();
    }

    /** lock_acquire's FetchAndAdd, called by the user or by cv_wait. */
    method TakeTicket(t: nat)
      requires Valid() && t < |pids| && (pc[t].Outside? || pc[t].Woken?)
      modifies this`pc, lock
      ensures Valid() && Moved(t, if old(pc[t]).Outside? then Spinning else Respinning)
      ensures old(t !in lock.line) && lock.line == old(lock.line) + [t] && lock.inside == old(lock.inside)
    {
      hide Ring, SlotsOk, PickOk, Distinct, Lock.Valid;
      At(t);
      lock.Facts();
      ghost var keys := lock.mine.Keys;
      lock.Take(t);
      lock.Facts();
      var p := if pc[t].Outside? then Spinning else Respinning;
      assert state[..][t := state[t]] == state[..];
      OneSlot(pc, state[..], lock.inside, keys, table, waiters + picked, t, p, state[t], lock.inside, lock.mine.Keys,
              table, waiters + picked);
      PickKept(pc, pids, lock.inside, picked, t, p, lock.inside);
      pc := pc[t := p];
    }

    /** One test of lock_acquire's spin loop. cv_wait returns only here, with the lock. */
    method Spin(t: nat)
      requires Valid() && t < |pids| && (pc[t].Spinning? || pc[t].Respinning?)
      modifies this`pc, lock
      ensures Valid() && old(t !in lock.inside) && lock.line == old(lock.line) && lock.line != []
      ensures if lock.line[0] == t then Moved(t, Inside) && lock.inside == {t}
                else Moved(t, old(pc[t])) && lock.inside == old(lock.inside)
    {
      hide Ring, SlotsOk, PickOk, Distinct, Lock.Valid;
      At(t);
      ghost var was := lock.inside;
      var go := lock.Look(t);
      if go {
        assert state[..][t := state[t]] == state[..];
        OneSlot(pc, state[..], was, lock.mine.Keys, table, waiters + picked, t, Inside, state[t], lock.inside,
                lock.mine.Keys, table, waiters + picked);
        PickKept(pc, pids, was, picked, t, Inside, lock.inside);
        pc := pc[t := Inside];
      } else {
        assert pc == pc[t := pc[t]];
      }
    }

    /** lock_release, called by the user or, in DropLock, by ticket_sleep. */
    method ReleaseLock(t: nat, p: Pc)
      requires Valid() && t < |pids| && ((pc[t].Inside? && p.Outside?) || (pc[t].Kernel? && p.Unlocked?))
      modifies this`pc, lock
      ensures Valid() && Moved(t, p) && old(t in lock.inside) && lock.inside == {} && old(lock.line) == [t] + lock.line
    {
      hide Ring, SlotsOk, PickOk, Distinct, Lock.Valid;
      At(t);
      lock.Facts();
      ghost var was, keys := lock.inside, lock.mine.Keys;
      lock.Release(t);
      lock.Facts();
      assert state[..][t := state[t]] == state[..];
      OneSlot(pc, state[..], was, keys, table, waiters + picked, t, p, state[t], lock.inside, lock.mine.Keys, table,
              waiters + picked);
      PickKept(pc, pids, was, picked, t, p, lock.inside);
      pc := pc[t := p];
    }

    /** A step that changes neither lock: who has the table after it. */
    method Step(t: nat, p: Pc, table': nat)
      requires Valid() && t < |pids| && !Signalling(pc[t]) && !Signalling(p)
      requires (HasLock(p) <==> HasLock(pc[t])) && (HasTicket(p) <==> HasTicket(pc[t]))
      requires (Waits(p, state[t]) <==> Waits(pc[t], state[t])) && (state[t] == Sleeping ==> p.Asleep?)
      requires (HasTable(p) <==> t == table') && table' <= |pids|
                 && (table' == table || ((table == t || table == |pids|) && (table' == t || table' == |pids|)))
      modifies this`pc, this`table
      ensures Valid() && Moved(t, p) && table == table'
    {
      hide Ring, SlotsOk, PickOk, Distinct, Lock.Valid;
      At(t);
      assert state[..][t := state[t]] == state[..];
      OneSlot(pc, state[..], lock.inside, lock.mine.Keys, table, waiters + picked, t, p, state[t], lock.inside,
              lock.mine.Keys, table', waiters + picked);
      PickKept(pc, pids, lock.inside, picked, t, p, lock.inside);
      pc, table := pc[t := p], table';
    }

    /** cv_wait up to its call of ticket_sleep. With 63 waiters it returns at once, the lock still held, as long as
        its test sees the full queue. */
    method Enqueue(t: nat) returns (full: bool)
      requires Valid() && t < |pids| && pc[t].Inside? && (|waiters| < SIZE - 1 || head != 0)
      modifies this, queue
      ensures Valid() && (full <==> |old(waiters)| == SIZE - 1)
      ensures if full then pc == old(pc) && waiters == old(waiters) && came == old(came)
              else pc == old(pc)[t := Queued] && waiters == old(waiters) + [t] && came == old(came) + [t]
      ensures picked == old(picked) && woke == old(woke) && table == old(table)
    {
      hide Ring, SlotsOk, PickOk, Distinct, Lock.Valid;
      At(t);
      NotPicked(t);
      if !init { CvInit(); }
      full := Push(t);
      if full { return; }
      assert state[..][t := state[t]] == state[..];
      OneSlot(pc, state[..], lock.inside, lock.mine.Keys, table, waiters + picked, t, Queued, state[t], lock.inside,
              lock.mine.Keys, table, waiters + [t] + picked);
      PickKept(pc, pids, lock.inside, picked, t, Queued, lock.inside);
      OneMore(waiters, t);
      pc, waiters, came := pc[t := Queued], waiters + [t], came + [t];
    }

    /** cv_wait's test and store. */
    method Push(t: nat) returns (full: bool)
      requires queue.Length == SIZE && Ring(queue[..], head, tail, waiters, pids) && t < |pids|
      requires |waiters| < SIZE - 1 || head != 0
      modifies this`tail, queue
      ensures full <==> |waiters| == SIZE - 1
      ensures Ring(queue[..], head, tail, if full then waiters else waiters + [t], pids)
    {
      FullTest(queue[..], head, tail, waiters, pids);
      full := tail >= SIZE || tail + 1 == head;
      if full { return; }
      Enqueued(queue[..], head, tail, waiters, pids, t);
      queue[tail] := pids[t];
      assert queue[..] == old(queue[..])[tail := pids[t]];
      tail := Place(tail, 1);
    }

    /** cv_signal's load and clear. */
    method Pop() returns (currPid: int)
      requires queue.Length == SIZE && Ring(queue[..], head, tail, waiters, pids) && waiters != []
      modifies this`head, queue
      ensures waiters[0] < |pids| && currPid == pids[waiters[0]] && Ring(queue[..], head, tail, waiters[1..], pids)
    {
      Dequeue1(queue[..], head, tail, waiters, pids);
      currPid := queue[head];
      queue[head] := -1;
      assert queue[..] == old(queue[..])[head := -1];
      head := Place(head, 1);
    }

    method CvInit()
      requires Valid() && !init
      modifies this`head, this`tail, this`init
      ensures Valid() && init
    {
      head, tail, init := 0, 0, true;
    }

    /** With the user lock in t's hands and t not signalling, nothing is picked. */
    lemma NotPicked(t: nat)
      requires Valid() && t < |pids| && pc[t].Inside?
      ensures picked == []
    {
      At(t);
    }

    /** cv_signal up to its call of wake; with nobody queued it returns. */
    method Dequeue(t: nat)
      requires Valid() && t < |pids| && pc[t].Inside?
      modifies this, queue
      ensures Valid() && came == old(came) && woke == old(woke) && table == old(table)
      ensures old(waiters) == [] ==> pc == old(pc) && waiters == [] && picked == old(picked) == []
      ensures old(waiters) != [] ==>
                && picked == [old(waiters)[0]] && waiters == old(waiters)[1..] && picked[0] < |pids|
                && pc == old(pc)[t := Dequeued(pids[picked[0]])]
    {
      hide Ring, SlotsOk, PickOk, Distinct, Lock.Valid;
      At(t);
      NotPicked(t);
      if !init { CvInit(); }
      EmptyTest(queue[..], head, tail, waiters, pids);
      if head == tail { return; }
      var currPid := Pop();
      PickOne(pc, pids, lock.inside, t, waiters[0]);
      OneLess(waiters);
      assert state[..][t := state[t]] == state[..];
      OneSlot(pc, state[..], lock.inside, lock.mine.Keys, table, waiters + picked, t, Dequeued(currPid), state[t],
              lock.inside, lock.mine.Keys, table, waiters[1..] + [waiters[0]]);
      pc, picked, waiters := pc[t := Dequeued(currPid)], [waiters[0]], waiters[1..];
    }

    /** The table scan of ticket_sleep: the slot of a pid. */
    method SlotOf(pid: int, ghost t: nat) returns (p: nat)
      requires t < |pids| && pids[t] == pid && forall i, j | 0 <= i < j < |pids| :: pids[i] != pids[j]
      ensures p == t
    {
      p := 0;
      while p < |pids|
        invariant p <= t
      {
        if pids[p] == pid { return; }
        p := p + 1;
      }
    }

    /** ticket_sleep once it has ptable.lock: the user lock goes. */
    method DropLock(t: nat)
      requires Valid() && t < |pids| && pc[t].Kernel?
      modifies this`pc, lock
      ensures Valid() && Moved(t, Unlocked) && old(t in lock.inside) && lock.inside == {}
      ensures old(lock.line) == [t] + lock.line
    {
      var p := SlotOf(pids[t], t);
      ReleaseLock(p, Unlocked);
    }

    /** ticket_sleep goes to sleep; the scheduler lets go of ptable.lock. */
    method FallAsleep(t: nat)
      requires Valid() && t < |pids| && pc[t].Unlocked?
      modifies this`pc, this`table, state
      ensures Valid() && Moved(t, Asleep) && table == |pids| && state[..] == old(state[..])[t := Sleeping]
    {
      hide Ring, SlotsOk, PickOk, Distinct, Lock.Valid;
      At(t);
      OneSlot(pc, state[..], lock.inside, lock.mine.Keys, table, waiters + picked, t, Asleep, Sleeping, lock.inside,
              lock.mine.Keys, |pids|, waiters + picked);
      PickKept(pc, pids, lock.inside, picked, t, Asleep, lock.inside);
      state[t] := Sleeping;
      assert state[..] == old(state[..])[t := Sleeping];
      pc, table := pc[t := Asleep], |pids|;
    }

    /** proc_wakeup, once it has ptable.lock: whoever was dequeued is asleep by now, and is made runnable. */
    method Wake(t: nat)
      requires Valid() && t < |pids| && pc[t].Waking?
      modifies this, state
      ensures Valid() && pc == old(pc)[t := Inside] && waiters == old(waiters) && came == old(came) && picked == []
      ensures table == |pids|
      ensures |old(picked)| == 1 && woke == old(woke) + old(picked)
      ensures old(picked)[0] < |pids| && old(state[picked[0]]) == Sleeping
                && state[..] == old(state[..])[old(picked)[0] := Runnable]
    {
      hide Ring, SlotsOk, PickOk, Distinct, Lock.Valid;
      ghost var w := Target(t);
      var p, pid := 0, pc[t].pid;
      while p < |pids|
        invariant p <= |pids| && state[..] == if p <= w then old(state[..]) else old(state[..])[w := Runnable]
        modifies state
      {
        assert p != w ==> pids[p] != pid;
        if state[p] == Sleeping && pids[p] == pid { state[p] := Runnable; }
        p := p + 1;
      }
      WakeOne(pc, old(state[..]), lock.inside, lock.mine.Keys, table, waiters, w, t);
      pc, table, woke, picked := pc[t := Inside], |pids|, woke + picked, [];
    }

    /** Who a signaller that has ptable.lock is about to wake, and that it sleeps. */
    lemma Target(t: nat) returns (w: nat)
      requires Valid() && t < |pids| && pc[t].Waking?
      ensures picked == [w] && w < |pids| && pids[w] == pc[t].pid && state[w] == Sleeping && pc[w].Asleep? && w != t
                && lock.inside == {t} && table == t
    {
      At(t);
      assert t in lock.inside;
      w := picked[0];
      assert w in picked && w in waiters + picked;
      At(w);
    }

    /** proc_wakeup takes ptable.lock. */
    method EnterWake(t: nat)
      requires Valid() && t < |pids| && pc[t].Dequeued? && table == |pids|
      modifies this`pc, this`table
      ensures Valid() && Moved(t, Waking(old(pc[t]).pid)) && table == t
    {
      hide Ring, SlotsOk, PickOk, Distinct, Lock.Valid;
      At(t);
      var p := Waking(pc[t].pid);
      assert state[..][t := state[t]] == state[..];
      OneSlot(pc, state[..], lock.inside, lock.mine.Keys, table, waiters + picked, t, p, state[t], lock.inside,
              lock.mine.Keys, t, waiters + picked);
      PickGoesOn(pc, pids, lock.inside, picked, t);
      pc, table := pc[t := p], t;
    }

    /** A woken thread is scheduled and leaves ticket_sleep, letting go of ptable.lock. */
    method Resume(t: nat)
      requires Valid() && t < |pids| && pc[t].Asleep? && state[t] == Runnable && table == |pids|
      modifies this`pc, state
      ensures Valid() && Moved(t, Woken) && state[..] == old(state[..])[t := Running]
    {
      hide Ring, SlotsOk, PickOk, Distinct, Lock.Valid;
      At(t);
      OneSlot(pc, state[..], lock.inside, lock.mine.Keys, table, waiters + picked, t, Woken, Running, lock.inside,
              lock.mine.Keys, table, waiters + picked);
      PickKept(pc, pids, lock.inside, picked, t, Woken, lock.inside);
      state[t] := Running;
      assert state[..] == old(state[..])[t := Running];
      pc := pc[t := Woken];
    }

    /** No wake-up is lost: whoever sleeps is in the queue or just dequeued by a signaller; a signaller that
        has ptable.lock finds its waiter asleep; and the user lock has one holder at most. */
    lemma Promises()
      requires Valid()
      ensures forall t | 0 <= t < |pids| && state[t] == Sleeping :: t in waiters || t in picked
      ensures forall t, u | 0 <= t < |pids| && 0 <= u < |pids| && pc[t].Waking? && pids[u] == pc[t].pid ::
                state[u] == Sleeping && picked == [u]
      ensures forall t, u | 0 <= t < |pids| && 0 <= u < |pids| && HasLock(pc[t]) && HasLock(pc[u]) :: t == u
      ensures came == woke + picked + waiters
    {
      hide Ring, SlotsOk, PickOk, Distinct, Lock.Valid;
      forall t | 0 <= t < |pids|
        ensures state[t] == Sleeping ==> t in waiters || t in picked
        ensures HasLock(pc[t]) ==> lock.inside == {t}
      {
        At(t);
      }
      forall t, u | 0 <= t < |pids| && 0 <= u < |pids| && pc[t].Waking? && pids[u] == pc[t].pid
        ensures state[u] == Sleeping && picked == [u]
      {
        var w := Target(t);
      }
    }

    /** A step of a thread that has the lock and calls cv_wait, cv_signal or lock_release. */
    method HolderStep(c: Choice)
      requires Valid() && c.t < |pids| && pc[c.t].Inside?
      modifies this, lock, queue
      ensures Valid() && View() == old(View()).Stepped(c)
      ensures came == old(came) + old(View()).Coming(c) && woke == old(woke) + old(View()).Waking(c)
    {
      hide Ring, SlotsOk, PickOk, Distinct, Lock.Valid;
      match c {
        case Wait(_) =>
          var waiting := Waiting();
          if waiting < SIZE - 1 || head != 0 { var full := Enqueue(c.t); }
        case Signal(_) => Dequeue(c.t);
        case Leave(_) => ReleaseLock(c.t, Outside);
        case Go(_) =>
      }
    }

    /** A step of a thread that comes for the lock. */
    method ComerStep(c: Choice)
      requires Valid() && c.t < |pids|
                 && (pc[c.t].Outside? || pc[c.t].Woken? || pc[c.t].Spinning? || pc[c.t].Respinning?)
      modifies this, lock
      ensures Valid() && View() == old(View()).Stepped(c)
      ensures came == old(came) + old(View()).Coming(c) && woke == old(woke) + old(View()).Waking(c)
    {
      hide Ring, SlotsOk, PickOk, Distinct, Lock.Valid;
      if pc[c.t].Outside? || pc[c.t].Woken? { TakeTicket(c.t); } else { Spin(c.t); }
    }

    /** A step of a thread in ticket_sleep. */
    method SleeperStep(c: Choice)
      requires Valid() && c.t < |pids| && (pc[c.t].Queued? || pc[c.t].Kernel? || pc[c.t].Unlocked? || pc[c.t].Asleep?)
      modifies this, lock, state
      ensures Valid() && View() == old(View()).Stepped(c)
      ensures came == old(came) + old(View()).Coming(c) && woke == old(woke) + old(View()).Waking(c)
    {
      hide Ring, SlotsOk, PickOk, Distinct, Lock.Valid;
      var t := c.t;
      match pc[t] {
        case Queued =>
          if table == |pids| {
            At(t);
            Step(t, Kernel, t);
          }
        case Kernel => DropLock(t);
        case Unlocked => FallAsleep(t);
        case Asleep => if state[t] == Runnable && table == |pids| { Resume(t); }
      }
    }

    /** A step of a thread in wake. */
    method WakerStep(c: Choice)
      requires Valid() && c.t < |pids| && Signalling(pc[c.t])
      modifies this, state
      ensures Valid() && View() == old(View()).Stepped(c)
      ensures came == old(came) + old(View()).Coming(c) && woke == old(woke) + old(View()).Waking(c)
    {
      hide Ring, SlotsOk, PickOk, Distinct, Lock.Valid;
      if pc[c.t].Waking? {
        Wake(c.t);
      } else if table == |pids| {
        EnterWake(c.t);
      }
    }

    /** How many threads are queued. */
    method Waiting() returns (n: nat)
      requires Valid()
      ensures n == |waiters| < SIZE
    {
      n := 0;
      if init {
        CountOf(queue[..], head, tail, waiters, pids);
        n := (tail + SIZE - head) % SIZE;
      }
    }

    method Perform(c: Choice)
      requires Valid()
      modifies this, lock, state, queue
      ensures Valid() && View() == old(View()).Stepped(c)
      ensures came == old(came) + old(View()).Coming(c) && woke == old(woke) + old(View()).Waking(c)
    {
      hide Ring, SlotsOk, PickOk, Distinct, Lock.Valid, State.Stepped, State.Coming, State.Waking;
      if c.t >= |pids| {
        PastTheTable(View(), c);
        return;
      }
      var p := pc[c.t];
      if p.Inside? {
        HolderStep(c);
      } else if p.Outside? || p.Woken? || p.Spinning? || p.Respinning? {
        ComerStep(c);
      } else if p.Queued? || p.Kernel? || p.Unlocked? || p.Asleep? {
        SleeperStep(c);
      } else {
        WakerStep(c);
      }
    }

    /** Any interleaving, without the 64th wait that cv_wait's test does not see: the threads do what the steps on
        values do, and the waiters are woken in the order they came. */
    method Run(choices: seq<Choice>)
      requires Valid() && came == [] && woke == []
      modifies this, lock, state, queue
      ensures Valid() && View() == old(View()).Ran(choices)
      ensures came == old(View()).Came(choices) && woke == old(View()).Woke(choices) && woke <= came
    {
      hide Valid, State.Stepped, State.Coming, State.Waking;
      var k := 0;
      while k < |choices|
        invariant k <= |choices| && Valid() && View() == old(View()).Ran(choices[..k])
        invariant came == old(View()).Came(choices[..k]) && woke == old(View()).Woke(choices[..k])
      {
        assert choices[..k + 1][..k] == choices[..k];
        Perform(choices[k]);
        k := k + 1;
      }
      assert choices[..k] == choices;
      Promises();
    }
  }
}
