/** The stride scheduler of p2/stride: one CPU, and fork as one step. Pass values are unbounded. */
module Stride {

  const NPROC: nat := 64
  const STRIDE: nat := 15000
  const INIT_TICKET_VAL: nat := 10
  /** The largest stride, that of 10 tickets. */
  const WIDTH: nat := 1500

  datatype ProcState = Unused | Sleeping | Runnable | Running | Zombie

  datatype Proc = Proc(state: ProcState, chan: nat, tickets: nat, stride: nat, pass: nat, schedules: nat) {
    /** Selected: runs, and pays for it. */
    function Ran(): Proc { this.(pass := pass + stride, schedules := schedules + 1) }
  }

  // ---------- choosing ----------

  ghost predicate SomeRunnable(procs: seq<Proc>) {
    exists i :: 0 <= i < |procs| && procs[i].state == Runnable
  }

  /** s is runnable, has the least pass of all runnable, and is the first in the table with it. */
  ghost predicate Least(procs: seq<Proc>, s: nat) {
    && s < |procs| && procs[s].state == Runnable
    && forall i | 0 <= i < |procs| && procs[i].state == Runnable ::
         procs[s].pass <= procs[i].pass && (procs[i].pass == procs[s].pass ==> s <= i)
  }

  ghost function Choice(procs: seq<Proc>): (s: nat)
    requires SomeRunnable(procs)
    ensures Least(procs, s)
  {
    LeastExists(procs);
    var s: nat :| Least(procs, s);
    s
  }

  lemma {:induction false} LeastExists(procs: seq<Proc>)
    requires SomeRunnable(procs)
    ensures exists s: nat :: Least(procs, s)
  {
    var n := |procs| - 1;
    var front := procs[..n];
    if SomeRunnable(front) {
      LeastExists(front);
      var s: nat :| Least(front, s);
      assert forall i | 0 <= i < n :: front[i] == procs[i];
      assert Least(procs, if procs[n].state == Runnable && procs[n].pass < procs[s].pass then n else s);
    } else {
      assert forall i | 0 <= i < n :: front[i] == procs[i];
      assert Least(procs, n);
    }
  }

  lemma OneLeast(procs: seq<Proc>, s: nat)
    requires Least(procs, s)
    ensures SomeRunnable(procs) && Choice(procs) == s
  {
  }

  // ---------- a stretch of select and yield ----------

  /** One selection after which the chosen process yields. */
  ghost function Round(procs: seq<Proc>): (r: seq<Proc>)
    requires SomeRunnable(procs)
    ensures |r| == |procs| && SomeRunnable(r)
  {
    var s := Choice(procs);
    var r := procs[s := procs[s].Ran()];
    assert r[s].state == Runnable;
    r
  }

  ghost function Rounds(procs: seq<Proc>, k: nat): (r: seq<Proc>)
    requires SomeRunnable(procs)
    ensures |r| == |procs| && SomeRunnable(r)
    decreases k
  {
    if k == 0 then procs else Rounds(Round(procs), k - 1)
  }

  /** What a stretch leaves alone, and that a pass counts the selections. */
  lemma {:induction false} Counted(procs: seq<Proc>, k: nat, i: nat)
    requires SomeRunnable(procs) && i < |procs|
    ensures var r := Rounds(procs, k);
            && r[i].state == procs[i].state && r[i].stride == procs[i].stride && r[i].schedules >= procs[i].schedules
            && r[i].pass == procs[i].pass + (r[i].schedules - procs[i].schedules) * procs[i].stride
    decreases k
  {
    if k > 0 {
      Counted(Round(procs), k - 1, i);
      var r, mid := Rounds(procs, k), Round(procs);
      if i == Choice(procs) {
        OneMoreTime(r[i].schedules - mid[i].schedules, procs[i].stride);
      }
    }
  }

  lemma OneMoreTime(n: int, s: int)
    ensures (n + 1) * s == n * s + s
  {
  }

  function Max(a: nat, b: nat): int {
    if a < b then b else a
  }

  lemma {:induction false} StaysClose(procs: seq<Proc>, k: nat, i: nat, j: nat, bound: int)
    requires SomeRunnable(procs) && i < |procs| && j < |procs| && procs[i].state == procs[j].state == Runnable
    requires procs[i].stride <= bound && procs[j].stride <= bound && -bound <= procs[i].pass - procs[j].pass <= bound
    ensures var r := Rounds(procs, k); -bound <= r[i].pass - r[j].pass <= bound
    decreases k
  {
    if k > 0 {
      StaysClose(Round(procs), k - 1, i, j, bound);
    }
  }

  /** Two processes that start level get shares in proportion to their tickets, to within one selection. */
  lemma Fair(procs: seq<Proc>, k: nat, i: nat, j: nat)
    requires SomeRunnable(procs) && i < |procs| && j < |procs| && procs[i].state == procs[j].state == Runnable
    requires procs[i].pass == procs[j].pass
    ensures var r := Rounds(procs, k);
            var ran := (r[i].schedules - procs[i].schedules) * procs[i].stride;
            var ranj := (r[j].schedules - procs[j].schedules) * procs[j].stride;
            -Max(procs[i].stride, procs[j].stride) <= ran - ranj <= Max(procs[i].stride, procs[j].stride)
  {
    StaysClose(procs, k, i, j, Max(procs[i].stride, procs[j].stride));
    Counted(procs, k, i);
    Counted(procs, k, j);
  }

  // ---------- how long a process can wait ----------

  /** How often p can still be chosen before pass, in strides of at least step. */
  function Ahead(p: Proc, pass: nat, step: nat): nat
    requires step > 0
  {
    if p.state != Runnable || p.pass > pass then 0 else (pass - p.pass) / step + 1
  }

  /** The same for all processes but the k-th. */
  function AheadOf(procs: seq<Proc>, k: nat, pass: nat, step: nat): nat
    requires step > 0
  {
    if procs == [] then 0
    else AheadOf(procs[..|procs| - 1], k, pass, step)
         + if |procs| - 1 == k then 0 else Ahead(procs[|procs| - 1], pass, step)
  }

  function Others(procs: seq<Proc>, k: nat): nat {
    if procs == [] then 0
    else Others(procs[..|procs| - 1], k) + if |procs| - 1 != k && procs[|procs| - 1].state == Runnable then 1 else 0
  }

  lemma {:induction false} AheadChanges(procs: seq<Proc>, k: nat, pass: nat, step: nat, s: nat, p: Proc)
    requires s < |procs| && s != k && step > 0
    ensures AheadOf(procs[s := p], k, pass, step)
         == AheadOf(procs, k, pass, step) - Ahead(procs[s], pass, step) + Ahead(p, pass, step)
  {
    var n := |procs| - 1;
    if s == n {
      assert procs[s := p][..n] == procs[..n];
    } else {
      assert procs[s := p][..n] == procs[..n][s := p];
      AheadChanges(procs[..n], k, pass, step, s, p);
    }
  }

  lemma {:induction false} AheadAtMost(procs: seq<Proc>, k: nat, pass: nat)
    requires forall i | 0 <= i < |procs| && procs[i].state == Runnable :: pass <= procs[i].pass + WIDTH
    ensures AheadOf(procs, k, pass, 100) <= 16 * Others(procs, k)
  {
    if procs != [] {
      var n := |procs| - 1;
      assert forall i | 0 <= i < n :: procs[..n][i] == procs[i];
      AheadAtMost(procs[..n], k, pass);
    }
  }

  /** i is chosen rather than k: it is runnable with a smaller pass, or with the same pass and earlier. */
  predicate Precedes(procs: seq<Proc>, i: nat, k: nat)
    requires k < |procs|
  {
    && i < |procs| && procs[i].state == Runnable
    && (procs[i].pass < procs[k].pass || (procs[i].pass == procs[k].pass && i < k))
  }

  lemma {:induction false} ChosenSoon(procs: seq<Proc>, k: nat, step: nat, fuel: nat) returns (r: nat)
    requires SomeRunnable(procs) && k < |procs| && procs[k].state == Runnable
    requires step > 0 && AheadOf(procs, k, procs[k].pass, step) <= fuel
    requires forall i: nat {:trigger Precedes(procs, i, k)} | Precedes(procs, i, k) :: procs[i].stride >= step
    ensures r <= fuel && Choice(Rounds(procs, r)) == k
    decreases fuel
  {
    var s := Choice(procs);
    if s == k { return 0; }
    assert Precedes(procs, s, k);
    AheadChanges(procs, k, procs[k].pass, step, s, procs[s].Ran());
    LaterBy(procs[s], procs[k].pass, step);
    AheadNat(procs, k, procs[k].pass, step, s);
    forall i: nat | Precedes(Round(procs), i, k)
      ensures Round(procs)[i].stride >= step
    {
      assert Precedes(procs, i, k);
    }
    r := ChosenSoon(Round(procs), k, step, fuel - 1);
    r := r + 1;
  }

  lemma LaterBy(p: Proc, pass: nat, step: nat)
    requires p.state == Runnable && p.pass <= pass && p.stride >= step > 0
    ensures Ahead(p.Ran(), pass, step) < Ahead(p, pass, step)
  {
    if p.pass + p.stride <= pass { QuotientFalls(pass - p.pass, p.stride, step); }
  }

  lemma QuotientFalls(a: nat, b: nat, d: nat)
    requires 0 < d <= b <= a
    ensures (a - b) / d < a / d
  {
    var q, r := a / d, (a - b) / d;
    assert a == d * q + a % d && a - b == d * r + (a - b) % d;
    Times(d, q, r);
  }

  lemma {:induction false} AheadNat(procs: seq<Proc>, k: nat, pass: nat, step: nat, s: nat)
    requires s < |procs| && s != k && step > 0
    ensures AheadOf(procs, k, pass, step) >= Ahead(procs[s], pass, step)
  {
    if s < |procs| - 1 { AheadNat(procs[..|procs| - 1], k, pass, step, s); }
  }

  /** No process waits for more than 16 selections of each of the others. */
  lemma ChosenWithin(procs: seq<Proc>, k: nat, low: nat) returns (r: nat)
    requires SomeRunnable(procs) && k < |procs| && procs[k].state == Runnable
    requires forall i | 0 <= i < |procs| && procs[i].state == Runnable ::
               low <= procs[i].pass <= low + WIDTH && 100 <= procs[i].stride
    ensures r < 16 * Others(procs, k) + 1 && Choice(Rounds(procs, r)) == k
  {
    AheadAtMost(procs, k, procs[k].pass);
    r := ChosenSoon(procs, k, 100, 16 * Others(procs, k));
  }

  // ---------- a stride of zero ----------

  /** A stride of 0, which is the first process's until it sets its tickets, is never paid for: once chosen
      the process is chosen for ever. */
  lemma {:induction false} StrideZero(procs: seq<Proc>, k: nat)
    requires SomeRunnable(procs) && procs[Choice(procs)].stride == 0
    ensures Choice(Rounds(procs, k)) == Choice(procs)
    ensures forall i | 0 <= i < |procs| && i != Choice(procs) :: Rounds(procs, k)[i] == procs[i]
    decreases k
  {
    if k > 0 {
      OneLeast(Round(procs), Choice(procs));
      StrideZero(Round(procs), k - 1);
    }
  }

  /** A process that never pays stands before k. */
  predicate Barred(procs: seq<Proc>, k: nat)
    requires k < |procs|
  {
    exists z: nat {:trigger Precedes(procs, z, k)} | z < |procs| :: Precedes(procs, z, k) && procs[z].stride == 0
  }

  lemma {:induction false} StaysBarred(procs: seq<Proc>, k: nat, z: nat, n: nat)
    requires SomeRunnable(procs) && k < |procs| && Precedes(procs, z, k) && procs[z].stride == 0
    ensures Choice(Rounds(procs, n)) != k
    decreases n
  {
    if n > 0 { StaysBarred(Round(procs), k, z, n - 1); }
  }

  /** A runnable process is chosen sooner or later exactly if no other runnable process with stride 0 has a
      smaller pass, or the same pass and an earlier place. */
  lemma Starves(procs: seq<Proc>, k: nat)
    requires k < |procs| && procs[k].state == Runnable
    ensures SomeRunnable(procs)
    ensures (exists n: nat :: Choice(Rounds(procs, n)) == k) <==> !Barred(procs, k)
  {
    if Barred(procs, k) {
      var z: nat :| z < |procs| && Precedes(procs, z, k) && procs[z].stride == 0;
      forall n: nat
        ensures Choice(Rounds(procs, n)) != k
      {
        StaysBarred(procs, k, z, n);
      }
    } else {
      var n := ChosenSoon(procs, k, 1, AheadOf(procs, k, procs[k].pass, 1));
    }
  }

  // ---------- the scheduler and the calls that move passes ----------

  /** Whoever could be chosen, or is running, has its pass in the window that starts at min. */
  predicate InWindow(p: Proc, min: nat) {
    (p.state == Runnable || p.state == Running ==> min <= p.pass <= min + WIDTH) && p.stride <= WIDTH
  }

  predicate Window(procs: seq<Proc>, min: nat) {
    forall i | 0 <= i < |procs| :: InWindow(procs[i], min)
  }

  lemma WindowMoves(procs: seq<Proc>, min: nat, s: nat)
    requires Window(procs, min) && Least(procs, s) && forall i | 0 <= i < |procs| :: procs[i].state != Running
    ensures procs[s].pass >= min
    ensures Window(procs[s := procs[s].Ran().(state := Running)], procs[s].pass)
  {
    assert InWindow(procs[s], min);
    var min', procs' := procs[s].pass, procs[s := procs[s].Ran().(state := Running)];
    forall i | 0 <= i < |procs'|
      ensures InWindow(procs'[i], min')
    {
      assert InWindow(procs[i], min);
    }
  }

  /** What kill does to a sleeper: it becomes runnable with the pass it fell asleep with. */
  function Killed(procs: seq<Proc>, i: nat): seq<Proc>
    requires i < |procs|
  {
    if procs[i].state == Sleeping then procs[i := procs[i].(state := Runnable)] else procs
  }

  /** After kill of a sleeper the next choice takes the minimum down exactly if the sleeper's pass is below it,
      and then the sleeper is the choice. */
  lemma KillLowers(procs: seq<Proc>, min: nat, i: nat)
    requires Window(procs, min) && i < |procs| && procs[i].state == Sleeping
    ensures SomeRunnable(Killed(procs, i))
    ensures var killed := Killed(procs, i); killed[Choice(killed)].pass < min <==> procs[i].pass < min
    ensures procs[i].pass < min ==> Choice(Killed(procs, i)) == i
  {
    var killed := Killed(procs, i);
    assert killed[i].state == Runnable;
    var s := Choice(killed);
    assert s != i ==> InWindow(procs[s], min);
  }

  /** Such a table: a sleeper with pass 0 under a minimum of 1000. */
  lemma KillLowersMinimum() returns (procs: seq<Proc>)
    ensures |procs| == 2 && Window(procs, 1000) && procs[0].state == Sleeping
    ensures var killed := Killed(procs, 0); !Window(killed, 1000) && Least(killed, 0) && killed[0].pass < 1000
  {
    procs := [Proc(Sleeping, 7, 10, 1500, 0, 1), Proc(Runnable, 0, 10, 1500, 1000, 1)];
    assert !InWindow(Killed(procs, 0)[0], 1000);
  }

  /** The strides settickets can give. */
  lemma StrideOf(tickets: nat)
    requires INIT_TICKET_VAL <= tickets <= 150 && tickets % 10 == 0
    ensures 100 <= STRIDE / tickets <= WIDTH
  {
    assert tickets * 100 <= STRIDE;
    assert STRIDE <= tickets * WIDTH;
    Quotient(STRIDE, tickets, 100, WIDTH);
  }

  lemma Quotient(a: nat, d: nat, lo: nat, hi: nat)
    requires d > 0 && d * lo <= a <= d * hi
    ensures lo <= a / d <= hi
  {
    var q := a / d;
    assert a == d * q + a % d;
    Times(d, q + 1, lo);
    Times(d, hi + 1, q);
  }

  lemma Times(d: nat, x: nat, y: nat)
    ensures x <= y ==> d * x <= d * y
  {
  }

  // ---------- the calls as steps of a state ----------

  /** wakeup1 on one process. */
  function Woken(p: Proc, chan: nat, min: nat): Proc {
    if p.state == Sleeping && p.chan == chan then p.(state := Runnable, pass := min) else p
  }

  function AllWoken(procs: seq<Proc>, chan: nat, min: nat): (r: seq<Proc>)
    ensures |r| == |procs|
  {
    seq(|procs|, i requires 0 <= i < |procs| => Woken(procs[i], chan, min))
  }

  /** allocproc's search. */
  function FirstUnused(procs: seq<Proc>): (np: nat)
    ensures np <= |procs| && (forall i | 0 <= i < np :: procs[i].state != Unused)
    ensures np < |procs| ==> procs[np].state == Unused
  {
    if procs == [] || procs[0].state == Unused then 0 else 1 + FirstUnused(procs[1..])
  }

  lemma FirstIs(procs: seq<Proc>, np: nat)
    requires np <= |procs| && (forall i | 0 <= i < np :: procs[i].state != Unused)
    requires np < |procs| ==> procs[np].state == Unused
    ensures np == FirstUnused(procs)
  {
    var first := FirstUnused(procs);
  }

  /** The tickets settickets accepts. */
  predicate Sold(tickets: nat) {
    10 <= tickets <= 150 && tickets % 10 == 0
  }

  datatype Op =
    | Select
    | Yield
    | Sleep(chan: nat)
    | Wakeup(chan: nat)
    | Fork
    | Exit(parent: nat)
    | Reap(i: nat)
    | SetTickets(tickets: nat)
    | Kill(i: nat)

  /** The table, the minimum and the running process, NPROC while the scheduler runs. */
  datatype State = State(procs: seq<Proc>, min: nat, proc: nat) {
    ghost predicate Valid() {
      && |procs| == NPROC && proc <= NPROC
      && (forall i | 0 <= i < NPROC :: procs[i].state == Running <==> i == proc)
      && Window(procs, min)
    }

    /** The call may be made now; a kill only where the woken sleeper's pass is in the window. */
    ghost predicate Allows(op: Op)
      requires Valid()
    {
      match op
      case Select => proc == NPROC && SomeRunnable(procs)
      case Wakeup(chan) => true
      case Yield => proc < NPROC
      case Sleep(chan) => proc < NPROC
      case Fork => proc < NPROC && FirstUnused(procs) < NPROC
      case Exit(parent) => proc < NPROC
      case Reap(i) => proc < NPROC && i < NPROC && procs[i].state == Zombie
      case SetTickets(tickets) => proc < NPROC && Sold(tickets)
      case Kill(i) => i < NPROC && (procs[i].state == Sleeping ==> min <= procs[i].pass <= min + WIDTH)
    }

    /** What a call does; nothing where it may not be made or fails. */
    ghost function Stepped(op: Op): State
      requires Valid()
    {
      if !Allows(op) then this else
      match op
      case Select =>
        var s := Choice(procs);
        State(procs[s := procs[s].Ran().(state := Running)], procs[s].pass, s)
      case Yield => State(procs[proc := procs[proc].(state := Runnable)], min, NPROC)
      case Sleep(chan) => State(procs[proc := procs[proc].(chan := chan, state := Sleeping)], min, NPROC)
      case Wakeup(chan) => this.(procs := AllWoken(procs, chan, min))
      case Fork =>
        var np := FirstUnused(procs);
        this.(procs := procs[np := Proc(Runnable, procs[np].chan, INIT_TICKET_VAL, WIDTH, min, 0)])
      case Exit(parent) => State(AllWoken(procs, parent, min)[proc := procs[proc].(state := Zombie)], min, NPROC)
      case Reap(i) => this.(procs := procs[i := procs[i].(state := Unused)])
      case SetTickets(tickets) =>
        this.(procs := procs[proc := procs[proc].(tickets := tickets, stride := STRIDE / tickets)])
      case Kill(i) => this.(procs := Killed(procs, i))
    }
  }

  lemma StepKeeps(st: State, op: Op)
    requires st.Valid()
    ensures st.Stepped(op).Valid() && st.min <= st.Stepped(op).min
  {
    if st.Allows(op) {
      var r := st.Stepped(op);
      if op.Select? {
        WindowMoves(st.procs, st.min, Choice(st.procs));
      } else {
        if op.SetTickets? { StrideOf(op.tickets); }
        forall i | 0 <= i < NPROC
          ensures InWindow(r.procs[i], r.min)
        {
          assert InWindow(st.procs[i], st.min);
        }
      }
    }
  }

  lemma KillWindow(st: State, i: nat)
    requires st.Valid() && i < NPROC
    ensures st.(procs := Killed(st.procs, i)).Valid() <==> st.Allows(Op.Kill(i))
  {
    var procs := Killed(st.procs, i);
    assert InWindow(st.procs[i], st.min);
    if st.Allows(Op.Kill(i)) {
      forall j | 0 <= j < NPROC
        ensures InWindow(procs[j], st.min)
      {
        assert InWindow(st.procs[j], st.min);
      }
    } else {
      assert !InWindow(procs[i], st.min);
    }
  }

  /** After any run of the calls the minimum has not fallen, and every pass that matters is in the window
      above it. */
  ghost function Ran(st: State, ops: seq<Op>): (r: State)
    requires st.Valid()
    ensures r.Valid() && st.min <= r.min
  {
    if ops == [] then st
    else
      var n := |ops| - 1;
      var mid := Ran(st, ops[..n]);
      StepKeeps(mid, ops[n]);
      mid.Stepped(ops[n])
  }

  // ---------- who moves whom ----------

  /** A process asleep on a channel stays as it is through any calls but a wakeup on the channel, an exit whose parent
      it is, and a kill of it. */
  lemma {:induction false} StaysAsleep(st: State, i: nat, ops: seq<Op>)
    requires st.Valid() && i < NPROC && st.procs[i].state == Sleeping
    requires forall op | op in ops ::
               op != Wakeup(st.procs[i].chan) && op != Exit(st.procs[i].chan) && op != Op.Kill(i)
    ensures Ran(st, ops).procs[i] == st.procs[i]
    decreases |ops|
  {
    if ops != [] {
      var n := |ops| - 1;
      assert forall op | op in ops[..n] :: op in ops;
      StaysAsleep(st, i, ops[..n]);
      assert ops[n] in ops;
      Still(Ran(st, ops[..n]), i, ops[n]);
    }
  }

  /** One call leaves alone a sleeper that it does not wake, and a dead process that it does not reap. */
  lemma Still(st: State, i: nat, op: Op)
    requires st.Valid() && i < NPROC
    requires st.procs[i].state == Sleeping ==>
               op != Wakeup(st.procs[i].chan) && op != Exit(st.procs[i].chan) && op != Op.Kill(i)
    requires st.procs[i].state == Zombie ==> op != Reap(i)
    requires st.procs[i].state == Sleeping || st.procs[i].state == Zombie
    ensures st.Stepped(op).procs[i] == st.procs[i]
  {
  }

  /** The running process goes to sleep; whatever the others do meanwhile, it is a wakeup on its channel that makes it
      runnable again, at the minimum of that moment, and a wakeup on another does not. */
  lemma SleepThenWake(st: State, chan: nat, ops: seq<Op>, other: nat)
    requires st.Valid() && st.proc < NPROC && other != chan
    requires forall op | op in ops :: op != Wakeup(chan) && op != Exit(chan) && op != Op.Kill(st.proc)
    ensures var p, slept := st.proc, st.Stepped(Sleep(chan));
            && slept.proc == NPROC && slept.min == st.min
            && (forall i | 0 <= i < NPROC && i != p :: slept.procs[i] == st.procs[i])
            && var mid := Ran(slept, ops);
               && mid.procs[p] == st.procs[p].(chan := chan, state := Sleeping)
               && mid.Stepped(Wakeup(other)).procs[p] == mid.procs[p]
               && mid.Stepped(Wakeup(chan)).procs[p]
                  == st.procs[p].(chan := chan, state := Runnable, pass := mid.min)
  {
    StepKeeps(st, Sleep(chan));
    StaysAsleep(st.Stepped(Sleep(chan)), st.proc, ops);
  }

  lemma {:induction false} StaysDead(st: State, i: nat, ops: seq<Op>)
    requires st.Valid() && i < NPROC && st.procs[i].state == Zombie && Reap(i) !in ops
    ensures Ran(st, ops).procs[i] == st.procs[i]
    decreases |ops|
  {
    if ops != [] {
      var n := |ops| - 1;
      assert Reap(i) !in ops[..n];
      StaysDead(st, i, ops[..n]);
      assert ops[n] in ops;
      Still(Ran(st, ops[..n]), i, ops[n]);
    }
  }

  /** The running process exits: its parent, if it sleeps, is woken; its slot is held until it is reaped, and free
      then. */
  lemma ExitThenReap(st: State, parent: nat, ops: seq<Op>)
    requires st.Valid() && st.proc < NPROC && Reap(st.proc) !in ops
    ensures var p, gone := st.proc, st.Stepped(Exit(parent));
            && gone.proc == NPROC && gone.min == st.min
            && (forall i | 0 <= i < NPROC && i != p ::
                  gone.procs[i] == if st.procs[i].state == Sleeping && st.procs[i].chan == parent
                                   then st.procs[i].(state := Runnable, pass := st.min) else st.procs[i])
            && var mid := Ran(gone, ops);
               && mid.procs[p] == st.procs[p].(state := Zombie)
               && (mid.proc < NPROC ==> mid.Stepped(Reap(p)).procs[p].state == Unused)
  {
    StepKeeps(st, Exit(parent));
    StaysDead(st.Stepped(Exit(parent)), st.proc, ops);
  }

  /** The running process yields and the scheduler selects: of it and all that are runnable, one with the least pass,
      the first of those, which pays its stride. */
  lemma YieldThenSelect(st: State)
    requires st.Valid() && st.proc < NPROC
    ensures var p, next := st.proc, st.Stepped(Yield).Stepped(Select);
            && next.proc < NPROC && next.min == st.procs[next.proc].pass
            && (st.procs[next.proc].state == Runnable || next.proc == p)
            && (forall i | 0 <= i < NPROC && (st.procs[i].state == Runnable || i == p) ::
                  st.procs[next.proc].pass <= st.procs[i].pass
                  && (st.procs[i].pass == st.procs[next.proc].pass ==> next.proc <= i))
            && next.procs[next.proc].pass == st.procs[next.proc].pass + st.procs[next.proc].stride
            && next.procs[next.proc].schedules == st.procs[next.proc].schedules + 1
            && (p != next.proc ==> next.procs[p] == st.procs[p].(state := Runnable))
            && forall i | 0 <= i < NPROC && i != p && i != next.proc :: next.procs[i] == st.procs[i]
  {
    StepKeeps(st, Yield);
    var mid := st.Stepped(Yield);
    assert mid.procs[st.proc].state == Runnable;
    var s := Choice(mid.procs);
    assert forall i | 0 <= i < NPROC && (st.procs[i].state == Runnable || i == st.proc) ::
        mid.procs[i].state == Runnable;
  }

  class Scheduler {
    const table: array<Proc>
    var globalMinPassVal: nat
    /** The index of the running process; NPROC in the scheduler's own loop. */
    var proc: nat

    ghost function View(): State
      reads this, table
    {
      State(table[..], globalMinPassVal, proc)
    }

    ghost predicate Valid()
      reads this, table
    {
      View().Valid()
    }

    /** userinit: the first process has its tickets but no stride. */
    constructor ()
      ensures Valid() && fresh(table) && globalMinPassVal == 0 && proc == NPROC
      ensures table[0] == Proc(Runnable, 0, INIT_TICKET_VAL, 0, 0, 0)
      ensures forall i | 0 < i < NPROC :: table[i].state == Unused
    {
      table := new Proc[NPROC](i =>
        Proc(if i == 0 then Runnable else Unused, 0, if i == 0 then INIT_TICKET_VAL else 0, 0, 0, 0));
      globalMinPassVal, proc := 0, NPROC;
    }

    /** One round of the scheduler's loop. s is NPROC when nothing is runnable. */
    method Select() returns (s: nat)
      requires Valid() && proc == NPROC
      modifies this, table
      ensures Valid() && globalMinPassVal >= old(globalMinPassVal) && s == proc
      ensures s == NPROC <==> !SomeRunnable(old(table[..]))
      ensures s == NPROC ==> table[..] == old(table[..]) && globalMinPassVal == old(globalMinPassVal)
      ensures s != NPROC ==>
                && Least(old(table[..]), s) && globalMinPassVal == old(table[s]).pass
                && old(table[s]).state == Runnable
                && (forall i | 0 <= i < NPROC && old(table[i]).state == Runnable ::
                      old(table[s]).pass <= old(table[i]).pass
                      && (old(table[i]).pass == old(table[s]).pass ==> s <= i))
                && table[..] == old(table[..])[s := old(table[s]).Ran().(state := Running)]
    {
      s := Cheapest();
      if s != NPROC {
        WindowMoves(table[..], globalMinPassVal, s);
        globalMinPassVal, proc := table[s].pass, s;
        table[s] := table[s].Ran().(state := Running);
        assert table[..] == old(table[..])[s := table[s]];
      }
    }

    /** The search of the scheduler's loop, with -1 for no minimum yet. */
    method Cheapest() returns (s: nat)
      requires table.Length == NPROC
      ensures s == NPROC <==> !SomeRunnable(table[..])
      ensures s != NPROC ==> Least(table[..], s)
    {
      var minPass: int := -1;
      s := NPROC;
      for p := 0 to NPROC
        invariant minPass == -1 <==> s == NPROC
        invariant s == NPROC ==> forall i | 0 <= i < p :: table[i].state != Runnable
        invariant s != NPROC ==> s < p && minPass == table[s].pass && Least(table[..p], s)
      {
        if table[p].state == Runnable && (minPass == -1 || table[p].pass < minPass) {
          s := p;
          minPass := table[p].pass;
        }
        assert table[..p + 1] == table[..p] + [table[p]];
      }
      assert table[..NPROC] == table[..];
    }

    /** wakeup1: the sleepers on chan become runnable and are moved up to the current minimum. */
    method Wakeup1(chan: nat)
      requires Valid()
      modifies table
      ensures Valid() && table[..] == AllWoken(old(table[..]), chan, globalMinPassVal)
      ensures forall i | 0 <= i < NPROC ::
                table[i] == if old(table[i]).state == Sleeping && old(table[i]).chan == chan
                            then old(table[i]).(state := Runnable, pass := globalMinPassVal) else old(table[i])
    {
      for p := 0 to NPROC
        invariant forall i | 0 <= i < NPROC ::
          table[i] == if i < p then Woken(old(table[i]), chan, globalMinPassVal) else old(table[i])
      {
        if table[p].state == Sleeping && table[p].chan == chan {
          table[p] := table[p].(state := Runnable);
          table[p] := table[p].(pass := globalMinPassVal);
        }
      }
      forall i | 0 <= i < NPROC
        ensures InWindow(table[i], globalMinPassVal)
      {
        assert InWindow(old(table[..])[i], globalMinPassVal);
      }
      assert table[..] == AllWoken(old(table[..]), chan, globalMinPassVal);
    }

    /** One process changes, and whether one is running. */
    method Set(i: nat, p: Proc, proc': nat)
      requires Valid() && i < NPROC && InWindow(p, globalMinPassVal)
      requires (proc' == proc || proc == i || proc' == i) && proc' <= NPROC && (p.state == Running <==> proc' == i)
      requires (proc' == i ==> proc == i) && (proc == i ==> proc' == i || proc' == NPROC)
      modifies this`proc, table
      ensures Valid() && table[..] == old(table[..])[i := p] && proc == proc'
    {
      table[i], proc := p, proc';
      assert table[..] == old(table[..])[i := p];
    }

    /** fork: the child, if there is room, starts at the current minimum. */
    method Fork() returns (np: nat)
      requires Valid()
      modifies this`proc, table
      ensures Valid() && proc == old(proc) && np == FirstUnused(old(table[..]))
      ensures np == NPROC ==> table[..] == old(table[..])
      ensures np < NPROC ==>
                table[..] == old(table[..])[np :=
                  Proc(Runnable, old(table[np]).chan, INIT_TICKET_VAL, WIDTH, globalMinPassVal, 0)]
    {
      np := 0;
      while np < NPROC
        invariant np <= NPROC && forall i | 0 <= i < np :: table[i].state != Unused
        modifies {}
      {
        if table[np].state == Unused { break; }
        np := np + 1;
      }
      FirstIs(table[..], np);
      if np < NPROC {
        Set(np, Proc(Runnable, table[np].chan, INIT_TICKET_VAL, STRIDE / INIT_TICKET_VAL, globalMinPassVal, 0), proc);
      }
    }

    /** settickets, by the running process. */
    method SetTickets(tickets: nat) returns (ok: bool)
      requires Valid() && proc < NPROC
      modifies this`proc, table
      ensures Valid() && proc == old(proc) && (ok <==> Sold(tickets))
      ensures table[..] == if ok then old(table[..])[proc :=
                old(table[proc]).(tickets := tickets, stride := STRIDE / tickets)] else old(table[..])
      ensures ok ==> 100 <= table[proc].stride <= WIDTH
    {
      if 10 <= tickets && tickets <= 150 && tickets % 10 == 0 {
        StrideOf(tickets);
        assert InWindow(table[..][proc], globalMinPassVal);
        Set(proc, table[proc].(tickets := tickets, stride := STRIDE / tickets), proc);
        return true;
      }
      return false;
    }

    /** kill, as far as it moves a process. */
    method Kill(i: nat)
      requires Valid() && i < NPROC
      modifies table
      ensures table[..] == Killed(old(table[..]), i)
      ensures Valid() <==> old(View()).Allows(Op.Kill(i))
      ensures old(table[i]).state == Sleeping ==>
                SomeRunnable(table[..])
                && (table[Choice(table[..])].pass < globalMinPassVal <==> old(table[i]).pass < globalMinPassVal)
    {
      ghost var before := table[..];
      if table[i].state == Sleeping {
        KillLowers(before, globalMinPassVal, i);
        table[i] := table[i].(state := Runnable);
      }
      assert table[..] == Killed(before, i);
      KillWindow(old(View()), i);
    }

    /** One call, where the code allows it. */
    method Perform(op: Op)
      requires Valid()
      modifies this, table
      ensures Valid() && View() == old(View()).Stepped(op)
    {
      match op {
        case Select =>
          if proc == NPROC {
            ghost var procs := table[..];
            var s := Select();
            if s != NPROC { OneLeast(procs, s); }
          }
        case Yield =>
          if proc < NPROC {
            assert InWindow(table[..][proc], globalMinPassVal);
            Set(proc, table[proc].(state := Runnable), NPROC);
          }
        case Sleep(chan) =>
          if proc < NPROC {
            assert InWindow(table[..][proc], globalMinPassVal);
            Set(proc, table[proc].(chan := chan, state := Sleeping), NPROC);
          }
        case Wakeup(chan) => Wakeup1(chan);
        case Fork =>
          if proc < NPROC { var np := Fork(); }
        case Exit(parent) =>
          if proc < NPROC {
            Wakeup1(parent);
            assert InWindow(table[..][proc], globalMinPassVal);
            Set(proc, table[proc].(state := Zombie), NPROC);
          }
        case Reap(i) =>
          if proc < NPROC && i < NPROC && table[i].state == Zombie {
            assert InWindow(table[..][i], globalMinPassVal);
            Set(i, table[i].(state := Unused), proc);
          }
        case SetTickets(tickets) =>
          if proc < NPROC { var ok := SetTickets(tickets); }
        case Kill(i) =>
          if i < NPROC {
            var p := table[i];
            if p.state == Sleeping ==> globalMinPassVal <= p.pass <= globalMinPassVal + WIDTH { Kill(i); }
          }
      }
    }

    /** Any run of the calls, each where the code allows it, with kill of a sleeper only where it does not leave
        the window. */
    method Run(ops: seq<Op>)
      requires Valid()
      modifies this, table
      ensures Valid() && View() == Ran(old(View()), ops) && globalMinPassVal >= old(globalMinPassVal)
    {
      var k := 0;
      while k < |ops|
        invariant k <= |ops| && Valid() && View() == Ran(old(View()), ops[..k])
      {
        assert ops[..k + 1][..k] == ops[..k];
        Perform(ops[k]);
        k := k + 1;
      }
      assert ops[..k] == ops;
    }

    /** One selection, after which the chosen process yields. */
    method Turn()
      requires Valid() && proc == NPROC && SomeRunnable(table[..])
      modifies this, table
      ensures Valid() && proc == NPROC && table[..] == Round(old(table[..]))
    {
      ghost var procs := table[..];
      var s := Select();
      OneLeast(procs, s);
      assert InWindow(table[..][s], globalMinPassVal);
      Set(s, table[s].(state := Runnable), NPROC);
    }

    /** select and yield, over and over, is Rounds. */
    method Stretch(k: nat)
      requires Valid() && proc == NPROC && SomeRunnable(table[..])
      modifies this, table
      ensures Valid() && proc == NPROC && table[..] == Rounds(old(table[..]), k)
    {
      var done := 0;
      while done < k
        invariant done <= k && Valid() && proc == NPROC && SomeRunnable(table[..])
        invariant Rounds(old(table[..]), k) == Rounds(table[..], k - done)
      {
        Turn();
        done := done + 1;
      }
    }
  }
}
