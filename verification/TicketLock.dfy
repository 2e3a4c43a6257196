/** The ticket lock of user/locklib.c, its threads taking single steps in any order. */
module TicketLock {

  import opened Common

  /** FetchAndAdd(x, 1) on a 32-bit int, read as unsigned. */
  function Bumped(x: nat): nat {
    (x + 1) % TWO_TO_32
  }

  predicate Distinct(s: seq<nat>) {
    forall i, j | 0 <= i < j < |s| :: s[i] != s[j]
  }

  /** The i-th ticket from turn on. */
  function Number(turn: nat, i: nat): nat {
    (turn + i) % TWO_TO_32
  }

  /** Of n tickets in a row only the first equals turn, exactly as long as they do not wrap onto it. */
  lemma OneTurn(turn: nat, n: nat)
    requires turn < TWO_TO_32
    ensures Number(turn, 0) == turn
    ensures n <= TWO_TO_32 <==> forall i: nat | 0 < i < n :: Number(turn, i) != turn
  {
    if n <= TWO_TO_32 {
      forall i: nat | 0 < i < n
        ensures Number(turn, i) != turn
      {
        if turn + i >= TWO_TO_32 { assert (turn + i) % TWO_TO_32 == turn + i - TWO_TO_32; }
      }
    } else {
      assert Number(turn, TWO_TO_32) == turn;
    }
  }

  lemma Numbers(turn: nat, i: nat)
    ensures Number(turn, i) < TWO_TO_32 && Bumped(Number(turn, i)) == Number(turn, i + 1)
    ensures Number(Bumped(turn), i) == Number(turn, i + 1)
  {
    WrapLater(turn + i, 1);
    WrapLater(turn + 1, i);
  }

  lemma WrapLater(a: nat, b: nat)
    ensures (a % TWO_TO_32 + b) % TWO_TO_32 == (a + b) % TWO_TO_32
  {
    var c, q := a % TWO_TO_32 + b, a / TWO_TO_32;
    assert a + b == c + TWO_TO_32 * q;
    Wrapped(c, q);
  }

  lemma {:induction false} Wrapped(c: nat, q: nat)
    ensures (c + TWO_TO_32 * q) % TWO_TO_32 == c % TWO_TO_32
    decreases q
  {
    if q > 0 {
      Wrapped(c, q - 1);
      assert c + TWO_TO_32 * q == (c + TWO_TO_32 * (q - 1)) + TWO_TO_32;
    }
  }

  lemma {:induction false} FewerThan(s: seq<nat>, n: nat)
    requires Distinct(s) && forall i | 0 <= i < |s| :: s[i] < n
    ensures |s| <= n
    decreases n
  {
    if s != [] {
      assert s[0] < n;
      if k :| 0 <= k < |s| && s[k] == n - 1 {
        FewerThan(s[..k] + s[k + 1..], n - 1);
      } else {
        FewerThan(s, n - 1);
      }
    }
  }

  lemma BumpedBelow(x: nat)
    ensures Bumped(x) < TWO_TO_32
  {
  }

  lemma Shift(past: seq<nat>, was: seq<nat>, came: seq<nat>, left: seq<nat>, now: seq<nat>)
    requires was + came == left + now
    ensures (past + was) + came == (past + left) + now
  {
    assert (past + was) + came == past + (was + came);
    assert (past + left) + now == past + (left + now);
  }

  // ---------- the lock as a line of threads ----------

  datatype Step = Take(t: nat) | Look(t: nat) | Release(t: nat)

  /** The threads in line, and those past the spin. No counters. */
  datatype State = State(threads: nat, line: seq<nat>, inside: set<nat>) {
    function Stepped(step: Step): State {
      match step
      case Take(t) => if t < threads && t !in line then this.(line := line + [t]) else this
      case Look(t) => if Entering(step) == [t] then this.(inside := {t}) else this
      case Release(t) => if t in inside && line != [] then this.(line := line[1..], inside := {}) else this
    }

    /** Who gets into line, past the spin and out by a step. */
    function Taking(step: Step): seq<nat> {
      if step.Take? && step.t < threads && step.t !in line then [step.t] else []
    }

    function Entering(step: Step): seq<nat> {
      if step.Look? && step.t !in inside && line != [] && line[0] == step.t then [step.t] else []
    }

    function Leaving(step: Step): seq<nat> {
      if step.Release? && step.t in inside && line != [] then [step.t] else []
    }

    function Ran(steps: seq<Step>): State {
      if steps == [] then this else Ran(steps[..|steps| - 1]).Stepped(steps[|steps| - 1])
    }

    /** Who took a ticket in a run, and who got in, each in order. */
    function Took(steps: seq<Step>): seq<nat> {
      if steps == [] then []
      else Took(steps[..|steps| - 1]) + Ran(steps[..|steps| - 1]).Taking(steps[|steps| - 1])
    }

    function Entered(steps: seq<Step>): seq<nat> {
      if steps == [] then []
      else Entered(steps[..|steps| - 1]) + Ran(steps[..|steps| - 1]).Entering(steps[|steps| - 1])
    }

    function Left(steps: seq<Step>): seq<nat> {
      if steps == [] then []
      else Left(steps[..|steps| - 1]) + Ran(steps[..|steps| - 1]).Leaving(steps[|steps| - 1])
    }

    /** At most the head of the line is inside. */
    predicate Sound() {
      Distinct(line) && forall t | t in inside :: line != [] && t == line[0]
    }

    function Inside(): seq<nat> {
      if inside == {} || line == [] then [] else [line[0]]
    }
  }

  lemma StaysSound(st: State, step: Step)
    requires st.Sound()
    ensures st.Stepped(step).Sound()
  {
  }

  lemma OneStep(st: State, step: Step)
    requires st.Sound()
    ensures st.line + st.Taking(step) == st.Leaving(step) + st.Stepped(step).line
    ensures st.Inside() + st.Entering(step) == st.Leaving(step) + st.Stepped(step).Inside()
  {
    if step.Look? && st.line != [] && step.t == st.line[0] && step.t !in st.inside {
      assert st.inside == {} by {
        if t :| t in st.inside { assert t == st.line[0]; }
      }
    }
    if st.Leaving(step) != [] { assert st.line == [step.t] + st.line[1..]; }
  }

  /** Whoever took a ticket has left, or is in line; whoever got in has left, or is inside. */
  lemma {:induction false} WhereTheyAre(st: State, steps: seq<Step>)
    requires st.line == [] && st.inside == {}
    ensures st.Ran(steps).Sound()
    ensures st.Took(steps) == st.Left(steps) + st.Ran(steps).line
    ensures st.Entered(steps) == st.Left(steps) + st.Ran(steps).Inside()
  {
    if steps != [] {
      var front, step := steps[..|steps| - 1], steps[|steps| - 1];
      WhereTheyAre(st, front);
      var mid, r := st.Ran(front), st.Ran(steps);
      hide State.Stepped, State.Taking, State.Entering, State.Leaving, State.Inside, State.Sound;
      StaysSound(mid, step);
      OneStep(mid, step);
      Shift(st.Left(front), mid.line, mid.Taking(step), mid.Leaving(step), r.line);
      Shift(st.Left(front), mid.Inside(), mid.Entering(step), mid.Leaving(step), r.Inside());
    }
  }

  /** In any interleaving never two threads are inside, and they get in in the order in which they took tickets. */
  lemma InOrder(st: State, steps: seq<Step>)
    requires st.line == [] && st.inside == {}
    ensures st.Entered(steps) <= st.Took(steps)
    ensures forall a, b | a in st.Ran(steps).inside && b in st.Ran(steps).inside :: a == b
  {
    WhereTheyAre(st, steps);
    var r := st.Ran(steps);
    if r.Inside() != [] { assert r.line == r.Inside() + r.line[1..]; }
  }

  // ---------- the lock as the code has it ----------

  class Lock {
    /** Threads are the numbers below this. */
    const threads: nat
    var ticket: nat
    var turn: nat
    /** The local myTurn of each thread between its FetchAndAdd and its release, and the threads past the spin. */
    var mine: map<nat, nat>
    var inside: set<nat>
    /** Threads that took a ticket and have not released, in the order of their FetchAndAdd. */
    ghost var line: seq<nat>

    ghost function View(): State
      reads this
    {
      State(threads, line, inside)
    }

    ghost predicate Valid()
      reads this
    {
      && threads < TWO_TO_32 && ticket < TWO_TO_32 && turn < TWO_TO_32
      && Distinct(line) && (forall i | 0 <= i < |line| :: line[i] < threads)
      && (forall t :: t in mine <==> t in line)
      && (forall i: nat | i < |line| :: mine[line[i]] == Number(turn, i))
      && ticket == Number(turn, |line|)
      && (forall t | t in inside :: line != [] && t == line[0])
    }

    /** lock_init */
    constructor (threads: nat)
      requires threads < TWO_TO_32
      ensures Valid() && this.threads == threads && line == [] && inside == {}
    {
      this.threads, ticket, turn, mine, inside, line := threads, 0, 0, map[], {}, [];
    }

    /** The FetchAndAdd of lock_acquire: t goes to the end of the line. */
    method Take(t: nat)
      requires Valid() && t < threads && t !in line
      modifies this
      ensures Valid() && line == old(line) + [t] && inside == old(inside)
      ensures t in mine && mine[t] == old(ticket)
    {
      hide Number, Bumped;
      Numbers(turn, |line|);
      BumpedBelow(ticket);
      mine := mine[t := ticket];
      ticket := Bumped(ticket);
      line := line + [t];
    }

    /** One test of the spin loop: it lets t through exactly when t heads the line. */
    method Look(t: nat) returns (go: bool)
      requires Valid() && t in mine && t !in inside
      modifies this`inside
      ensures Valid() && line != [] && (go <==> line[0] == t)
      ensures inside == if go then {t} else old(inside)
      ensures go ==> old(inside) == {}
    {
      hide Number;
      FewerThan(line, threads);
      OneTurn(turn, |line|);
      ghost var i: nat :| i < |line| && line[i] == t;
      go := turn == mine[t];
      assert go <==> i == 0;
      if go { inside := inside + {t}; }
    }

    /** lock_release, by the thread that holds the lock. */
    method Release(t: nat)
      requires Valid() && t in inside
      modifies this
      ensures Valid() && inside == {} && old(line) == [t] + line && t !in line
    {
      hide Number, Bumped;
      forall i: nat | i < |line|
        ensures Number(Bumped(turn), i) == Number(turn, i + 1)
      {
        Numbers(turn, i);
      }
      BumpedBelow(turn);
      turn := Bumped(turn);
      mine := mine - {t};
      inside := inside - {t};
      line := line[1..];
    }

    lemma Facts()
      requires Valid()
      ensures Distinct(line) && (forall t :: t in mine <==> t in line)
                && (forall t | t in inside :: line != [] && t == line[0])
    {
    }

    /** One step of the counters is one step of the line. */
    method Perform(step: Step)
      requires Valid()
      modifies this
      ensures Valid() && View() == old(View()).Stepped(step)
    {
      hide Number;
      match step {
        case Take(t) => if t < threads && t !in mine { Take(t); }
        case Look(t) => if t in mine && t !in inside { var go := Look(t); }
        case Release(t) => if t in inside { Release(t); }
      }
    }

    /** Any interleaving of any number of threads below 2^32: the counters, wrapping or not, let threads in as the
        line does, never two at a time and in the order of their tickets. */
    method Run(steps: seq<Step>)
      requires Valid() && line == [] && inside == {}
      modifies this
      ensures Valid() && View() == old(View()).Ran(steps)
      ensures forall a, b | a in inside && b in inside :: a == b
      ensures old(View()).Entered(steps) <= old(View()).Took(steps)
    {
      hide Valid, State.Stepped;
      var k := 0;
      while k < |steps|
        invariant k <= |steps| && Valid() && View() == old(View()).Ran(steps[..k])
      {
        assert steps[..k + 1][..k] == steps[..k];
        Perform(steps[k]);
        k := k + 1;
      }
      assert steps[..k] == steps;
      InOrder(old(View()), steps);
    }
  }
}
