/** The pipe of kernel/pipe.c. What a process does while it has the pipe's lock is one step; sleep lets go of
    the lock and goes to sleep in one step too. */
module Pipe {

  import opened Common

  const PIPESIZE: nat := 512

  type Byte = bv8

  /** The counter of a stretch of n bytes, which wraps at 32 bits, and the place of byte n in the array. */
  function Counter(n: nat): (c: nat)
    ensures c < TWO_TO_32
  {
    n % TWO_TO_32
  }

  function Place(counter: nat): (p: nat)
    ensures p < PIPESIZE
  {
    counter % PIPESIZE
  }

  /** Wrapping changes neither a byte's place nor the tests for empty and full. */
  lemma Wraps(read: nat, written: nat)
    requires read <= written <= read + PIPESIZE
    ensures Place(Counter(written)) == Place(written) && Place(Counter(read)) == Place(read)
    ensures Counter(read) == Counter(written) <==> read == written
    ensures Counter(written) == Counter(Counter(read) + PIPESIZE) <==> written == read + PIPESIZE
    ensures Counter(Counter(written) + 1) == Counter(written + 1) && Counter(Counter(read) + 1) == Counter(read + 1)
  {
    SamePlace(read);
    SamePlace(written);
    Near(read, written - read);
    Near(read, PIPESIZE);
    Near(written, 1);
    Near(read, 1);
  }

  lemma SamePlace(n: nat)
    ensures Place(Counter(n)) == Place(n)
  {
    var q := n / TWO_TO_32;
    assert n == TWO_TO_32 * q + n % TWO_TO_32;
    Multiple(n % TWO_TO_32, q * 0x80_0000);
  }

  lemma Multiple(r: nat, k: nat)
    ensures (r + PIPESIZE * k) % PIPESIZE == r % PIPESIZE
  {
  }

  lemma Near(a: nat, d: nat)
    requires d <= PIPESIZE
    ensures Counter(a + d) == if Counter(a) + d < TWO_TO_32 then Counter(a) + d else Counter(a) + d - TWO_TO_32
    ensures Counter(Counter(a) + d) == Counter(a + d)
  {
    var q := a / TWO_TO_32;
    assert a + d == TWO_TO_32 * q + (a % TWO_TO_32 + d);
  }

  /** Two bytes within 512 of each other have different places. */
  lemma Apart(a: nat, b: nat)
    requires a < b < a + PIPESIZE
    ensures Place(a) != Place(b)
  {
  }

  /** The array has every byte written and not read. */
  ghost predicate Buffers(data: seq<Byte>, read: nat, written: seq<Byte>) {
    && |data| == PIPESIZE && read <= |written| <= read + PIPESIZE
    && forall i: nat {:trigger written[i]} | read <= i < |written| :: data[Place(i)] == written[i]
  }

  lemma Store(data: seq<Byte>, read: nat, written: seq<Byte>, b: Byte)
    requires Buffers(data, read, written) && |written| < read + PIPESIZE
    ensures Buffers(data[Place(|written|) := b], read, written + [b])
  {
    var data', written' := data[Place(|written|) := b], written + [b];
    forall i: nat | read <= i < |written'|
      ensures data'[Place(i)] == written'[i]
    {
      if i < |written| {
        Apart(i, |written|);
        var x := written[i];
      }
    }
  }

  datatype Reader = Reader(n: nat)
  datatype Writer = Writer(addr: seq<Byte>, i: nat)

  datatype ReadResult = Slept | Failed | Read(bytes: seq<Byte>)
  datatype WriteResult = Sleeps | Fails | Wrote(n: nat)

  function Min(a: nat, b: nat): (r: nat)
    ensures r <= a && r <= b && (r == a || r == b)
  {
    if a < b then a else b
  }

  // ---------- the pipe as a queue of bytes ----------

  datatype Op =
    | BeginRead(pid: nat, n: nat)
    | BeginWrite(pid: nat, addr: seq<Byte>)
    | GoOn(pid: nat)
    | CloseEnd(writable: bool)
    | Kill(pid: nat)

  /** The bytes in the pipe, the calls that have begun and not returned, who among them sleeps, and the killed. */
  datatype State = State(buffered: seq<Byte>, readopen: bool, writeopen: bool, readers: map<nat, Reader>,
                         writers: map<nat, Writer>, asleepR: set<nat>, asleepW: set<nat>, killed: set<nat>) {
    /** At most 512 bytes; and with nobody killed no reader sleeps on a pipe that has bytes or no writer any more,
        and no writer on one that has room or no reader any more. */
    ghost predicate Valid() {
      && |buffered| <= PIPESIZE && readers.Keys !! writers.Keys
      && asleepR <= readers.Keys && asleepW <= writers.Keys
      && (readers != map[] ==> readopen) && (writers != map[] ==> writeopen)
      && (forall p | p in writers :: writers[p].i <= |writers[p].addr|)
      && (killed == {} && asleepR != {} ==> buffered == [] && writeopen)
      && (killed == {} && asleepW != {} ==> |buffered| == PIPESIZE && readopen)
    }

    predicate Reading(op: Op) {
      op.GoOn? && op.pid in readers && op.pid !in asleepR
    }

    predicate Writing(op: Op) {
      op.GoOn? && op.pid in writers && op.pid !in asleepW
    }

    /** The bytes a step takes out of the pipe and hands to a reader. */
    ghost function Out(op: Op): (r: seq<Byte>)
      requires Valid()
      ensures r <= buffered
    {
      if Reading(op) then buffered[..Min(readers[op.pid].n, |buffered|)] else []
    }

    /** The bytes a step puts into the pipe: those of the writer as far as there is room. */
    ghost function In(op: Op): (r: seq<Byte>)
      requires Valid()
      ensures |buffered| + |r| <= PIPESIZE
    {
      if !Writing(op) then []
      else
        var w := writers[op.pid];
        w.addr[w.i..w.i + Min(|w.addr| - w.i, PIPESIZE - |buffered|)]
    }

    /** How piperead ends its turn: it sleeps or fails on an empty pipe that may still be written, and else returns
        as many of the bytes as it asked for. */
    ghost function ReadEnds(pid: nat): ReadResult
      requires Valid() && Reading(GoOn(pid))
    {
      if buffered == [] && writeopen then if pid in killed then Failed else Slept
      else ReadResult.Read(Out(GoOn(pid)))
    }

    ghost function Read(pid: nat): State
      requires Valid() && Reading(GoOn(pid))
    {
      match ReadEnds(pid)
      case Slept => this.(asleepR := asleepR + {pid})
      case Failed => this.(readers := readers - {pid})
      case Read(bytes) => this.(buffered := buffered[|bytes|..], readers := readers - {pid}, asleepW := {})
    }

    /** How pipewrite ends its turn: it returns if all bytes are in, and else sleeps, or fails if nobody can read
        or it was killed. */
    ghost function WriteEnds(pid: nat): WriteResult
      requires Valid() && Writing(GoOn(pid))
    {
      var w := writers[pid];
      if w.i + |In(GoOn(pid))| == |w.addr| then Wrote(|w.addr|)
      else if !readopen || pid in killed then Fails else Sleeps
    }

    ghost function Write(pid: nat): State
      requires Valid() && Writing(GoOn(pid))
    {
      var w, stored := writers[pid], buffered + In(GoOn(pid));
      match WriteEnds(pid)
      case Wrote(n) => this.(buffered := stored, writers := writers - {pid}, asleepR := {})
      case Fails => this.(buffered := stored, writers := writers - {pid})
      case Sleeps =>
        this.(buffered := stored, writers := writers[pid := Writer(w.addr, w.i + |In(GoOn(pid))|)],
              asleepR := {}, asleepW := asleepW + {pid})
    }

    ghost function Stepped(op: Op): State
      requires Valid()
    {
      match op
      case BeginRead(pid, n) =>
        if readopen && pid !in readers && pid !in writers then this.(readers := readers[pid := Reader(n)]) else this
      case BeginWrite(pid, addr) =>
        if writeopen && pid !in readers
            && pid !in writers then this.(writers := writers[pid := Writer(addr, 0)]) else this
      case GoOn(pid) => if Reading(op) then Read(pid) else if Writing(op) then Write(pid) else this
      case CloseEnd(writable) =>
        if writable then if writers != map[] then this else this.(writeopen := false, asleepR := {})
        else if readers != map[] then this else this.(readopen := false, asleepW := {})
      case Kill(pid) => this.(killed := killed + {pid}, asleepR := asleepR - {pid}, asleepW := asleepW - {pid})
    }

    ghost function Ran(ops: seq<Op>): (r: State)
      requires Valid()
      ensures r.Valid()
    {
      if ops == [] then this
      else
        var mid := Ran(ops[..|ops| - 1]);
        StepKeeps(mid, ops[|ops| - 1]);
        mid.Stepped(ops[|ops| - 1])
    }

    /** All bytes that reads return in a run, one after another, and all that writes store. */
    ghost function Outs(ops: seq<Op>): seq<Byte>
      requires Valid()
    {
      if ops == [] then [] else Outs(ops[..|ops| - 1]) + Ran(ops[..|ops| - 1]).Out(ops[|ops| - 1])
    }

    ghost function Ins(ops: seq<Op>): seq<Byte>
      requires Valid()
    {
      if ops == [] then [] else Ins(ops[..|ops| - 1]) + Ran(ops[..|ops| - 1]).In(ops[|ops| - 1])
    }
  }

  /** Every step keeps the promises. */
  lemma StepKeeps(st: State, op: Op)
    requires st.Valid()
    ensures st.Stepped(op).Valid()
  {
    if st.Reading(op) {
      ReadKeeps(st, op.pid);
    } else if st.Writing(op) {
      WriteKeeps(st, op.pid);
    }
  }

  lemma ReadKeeps(st: State, pid: nat)
    requires st.Valid() && st.Reading(GoOn(pid))
    ensures st.Read(pid).Valid()
  {
  }

  lemma WriteKeeps(st: State, pid: nat)
    requires st.Valid() && st.Writing(GoOn(pid))
    ensures st.Write(pid).Valid()
  {
  }

  /** All the bytes are in, or the pipe is full. */
  lemma RoomFilled(st: State, pid: nat, i: nat)
    requires st.Valid() && st.Writing(GoOn(pid)) && st.writers[pid].i <= i <= |st.writers[pid].addr|
    requires |st.buffered| + i - st.writers[pid].i <= PIPESIZE
    requires i < |st.writers[pid].addr| ==> |st.buffered| + i - st.writers[pid].i == PIPESIZE
    ensures st.In(GoOn(pid)) == st.writers[pid].addr[st.writers[pid].i..i]
    ensures i == st.writers[pid].i + |st.In(GoOn(pid))|
  {
  }

  /** The turn of a writer that has put in its bytes up to i. */
  lemma TurnEnds(st: State, pid: nat, i: nat)
    requires st.Valid() && st.Writing(GoOn(pid)) && i == st.writers[pid].i + |st.In(GoOn(pid))|
    ensures var w, stored := st.writers[pid], st.buffered + st.In(GoOn(pid));
            && st.Write(pid).Valid()
            && if i == |w.addr| then
                 && st.WriteEnds(pid) == Wrote(|w.addr|)
                 && st.Write(pid) == st.(buffered := stored, writers := st.writers - {pid}, asleepR := {})
               else if !st.readopen || pid in st.killed then
                 && st.WriteEnds(pid) == Fails
                 && st.Write(pid) == st.(buffered := stored, writers := st.writers - {pid})
               else
                 && st.WriteEnds(pid) == Sleeps
                 && st.Write(pid) == st.(buffered := stored, writers := st.writers[pid := Writer(w.addr, i)],
                                         asleepR := {}, asleepW := st.asleepW + {pid})
  {
    hide State.In;
    WriteKeeps(st, pid);
  }

  /** A writer puts in what there is room for and returns its count once all is in; else it sleeps, or fails if nobody
      can read or it was killed. Unless it fails it wakes the readers. */
  lemma WriteIs(st: State, pid: nat)
    requires st.Valid() && st.Writing(GoOn(pid))
    ensures var w, room, st' := st.writers[pid], PIPESIZE - |st.buffered|, st.Stepped(GoOn(pid));
            && st'.buffered == st.buffered + w.addr[w.i..if |w.addr| - w.i <= room then |w.addr| else w.i + room]
            && (st.WriteEnds(pid) == Wrote(|w.addr|) <==> |w.addr| - w.i <= room)
            && (st.WriteEnds(pid).Wrote? <==> st.WriteEnds(pid) == Wrote(|w.addr|))
            && (st.WriteEnds(pid).Fails? <==> |w.addr| - w.i > room && (!st.readopen || pid in st.killed))
            && (st.WriteEnds(pid).Sleeps? <==> pid in st'.writers && pid in st'.asleepW)
            && (st.WriteEnds(pid).Sleeps? ==> st'.writers[pid] == Writer(w.addr, w.i + room))
            && (pid in st'.writers || pid in st'.asleepW ==> st.WriteEnds(pid).Sleeps?)
            && st'.asleepR == if st.WriteEnds(pid).Fails? then st.asleepR else {}
  {
  }

  /** A reader waits exactly on an empty pipe that may still be written, or fails there if it was killed; else it takes
      as many of the first bytes as it asked for, and wakes the writers. */
  lemma ReadIs(st: State, pid: nat)
    requires st.Valid() && st.Reading(GoOn(pid))
    ensures var n, have, st' := st.readers[pid].n, |st.buffered|, st.Stepped(GoOn(pid));
            && (st.ReadEnds(pid).Slept? <==> have == 0 && st.writeopen && pid !in st.killed)
            && (st.ReadEnds(pid).Failed? <==> have == 0 && st.writeopen && pid in st.killed)
            && (st.ReadEnds(pid).Read? ==>
                  && st.ReadEnds(pid).bytes == st.buffered[..if n <= have then n else have]
                  && st.buffered == st.ReadEnds(pid).bytes + st'.buffered && st'.asleepW == {})
            && (!st.ReadEnds(pid).Read? ==> st'.buffered == st.buffered && st'.asleepW == st.asleepW)
            && (pid in st'.readers <==> st.ReadEnds(pid).Slept?) && (pid in st'.asleepR <==> st.ReadEnds(pid).Slept?)
  {
  }

  /** Only at the end of the file, empty and without writers, does a read of some bytes return none. */
  lemma EndOfFile(st: State, pid: nat)
    requires st.Valid() && st.Reading(GoOn(pid)) && st.readers[pid].n > 0
    ensures st.ReadEnds(pid) == ReadResult.Read([]) <==> st.buffered == [] && !st.writeopen
  {
  }

  /** A call that has just begun: a read takes the first bytes there are, as many as it asked for, and a write adds its
      own as far as there is room. */
  lemma JustBegun(st: State, pid: nat, n: nat, addr: seq<Byte>)
    requires st.Valid() && pid !in st.readers && pid !in st.writers
    ensures st.readopen && st.buffered != [] ==>
              var begun := st.Stepped(BeginRead(pid, n));
              && begun.buffered == st.buffered && begun.Reading(GoOn(pid))
              && begun.ReadEnds(pid) == ReadResult.Read(st.buffered[..if n <= |st.buffered| then n else |st.buffered|])
    ensures st.writeopen ==>
              var begun, room := st.Stepped(BeginWrite(pid, addr)), PIPESIZE - |st.buffered|;
              && begun.buffered == st.buffered && begun.Writing(GoOn(pid))
              && begun.Stepped(GoOn(pid)).buffered ==
                 st.buffered + (if |addr| <= room then addr else addr[..room])
  {
    var begun := st.Stepped(BeginWrite(pid, addr));
    if st.writeopen {
      WriteIs(begun, pid);
      assert addr[0..] == addr;
    }
  }

  /** A closed end: with the writers gone every sleeping reader is awake and finds the rest of the bytes and then the
      end of the file; with the readers gone every sleeping writer is awake, and a write that is not done fails. */
  lemma ClosedEnd(st: State, pid: nat)
    requires st.Valid()
    ensures st.writers == map[] ==>
              var closed := st.Stepped(CloseEnd(true));
              && closed.buffered == st.buffered && closed.asleepR == {} && closed.readers == st.readers
              && (pid in st.readers ==>
                    closed.ReadEnds(pid) == ReadResult.Read(
                      st.buffered[..if st.readers[pid].n <= |st.buffered| then st.readers[pid].n else |st.buffered|]))
    ensures st.readers == map[] ==>
              var closed := st.Stepped(CloseEnd(false));
              && closed.buffered == st.buffered && closed.asleepW == {} && closed.writers == st.writers
              && (pid in st.writers && |st.writers[pid].addr| - st.writers[pid].i > PIPESIZE - |st.buffered| ==>
                    closed.WriteEnds(pid) == Fails)
  {
    if pid in st.readers && st.writers == map[] { ReadIs(st.Stepped(CloseEnd(true)), pid); }
    if pid in st.writers && st.readers == map[] { WriteIs(st.Stepped(CloseEnd(false)), pid); }
  }

  /** A killed process sleeps no more: whatever happens after the kill, its call returns at its next turn. */
  lemma {:induction false} KilledReturns(st: State, pid: nat, ops: seq<Op>)
    requires st.Valid()
    ensures var mid := st.Stepped(Kill(pid)).Ran(ops);
            && pid !in mid.asleepR && pid !in mid.asleepW && pid in mid.killed
            && pid !in mid.Stepped(GoOn(pid)).readers && pid !in mid.Stepped(GoOn(pid)).writers
    decreases |ops|
  {
    if ops != [] {
      var n := |ops| - 1;
      KilledReturns(st, pid, ops[..n]);
      StaysAwake(st.Stepped(Kill(pid)).Ran(ops[..n]), pid, ops[n]);
    }
    StaysAwake(st.Stepped(Kill(pid)).Ran(ops), pid, GoOn(pid));
  }

  lemma StaysAwake(st: State, pid: nat, op: Op)
    requires st.Valid() && pid !in st.asleepR && pid !in st.asleepW && pid in st.killed
    ensures var st' := st.Stepped(op); pid !in st'.asleepR && pid !in st'.asleepW && pid in st'.killed
    ensures op == GoOn(pid) ==> pid !in st.Stepped(op).readers && pid !in st.Stepped(op).writers
  {
  }

  /** Every step moves bytes in order: what was in and what comes in is what goes out and what stays. */
  lemma StepMoves(st: State, op: Op)
    requires st.Valid()
    ensures st.buffered + st.In(op) == st.Out(op) + st.Stepped(op).buffered
  {
    if st.Reading(op) { assert st.buffered == st.Out(op) + st.buffered[|st.Out(op)|..]; }
  }

  /** In any interleaving the bytes written are the bytes read and then those still in the pipe. */
  lemma {:induction false} Conserved(st: State, ops: seq<Op>)
    requires st.Valid()
    ensures st.buffered + st.Ins(ops) == st.Outs(ops) + st.Ran(ops).buffered
  {
    if ops != [] {
      var n := |ops| - 1;
      var mid := st.Ran(ops[..n]);
      Conserved(st, ops[..n]);
      StepMoves(mid, ops[n]);
      Regroup(st.buffered, st.Ins(ops[..n]), mid.In(ops[n]), st.Outs(ops[..n]), mid.buffered, mid.Out(ops[n]),
              st.Ran(ops).buffered);
    }
  }

  lemma Regroup(b: seq<Byte>, ins: seq<Byte>, x: seq<Byte>, outs: seq<Byte>, mid: seq<Byte>, y: seq<Byte>,
                last: seq<Byte>)
    requires b + ins == outs + mid && mid + x == y + last
    ensures b + (ins + x) == (outs + y) + last
  {
    assert b + (ins + x) == (b + ins) + x;
    assert (outs + mid) + x == outs + (mid + x);
  }

  // ---------- the pipe as the code has it ----------

  class Pipe {
    const data: array<Byte>
    var nread: nat
    var nwrite: nat
    var readopen: bool
    var writeopen: bool
    /** Calls of piperead and pipewrite that have begun and not returned, who among them sleeps, and the killed. */
    var readers: map<nat, Reader>
    var writers: map<nat, Writer>
    var asleepR: set<nat>
    var asleepW: set<nat>
    var killed: set<nat>
    /** All bytes ever stored by writers and copied out by readers. */
    ghost var written: seq<Byte>
    ghost var delivered: seq<Byte>

    ghost predicate Valid()
      reads this, data
    {
      DataOk() && View().Valid()
    }

    ghost function View(): State
      reads this
    {
      State(Buffered(), readopen, writeopen, readers, writers, asleepR, asleepW, killed)
    }

    /** What is in the pipe. */
    ghost function Buffered(): seq<Byte>
      reads this
    {
      if |delivered| <= |written| then written[|delivered|..] else []
    }

    /** pipealloc */
    constructor ()
      ensures Valid() && fresh(data) && written == [] && delivered == [] && readopen && writeopen
      ensures readers == map[] && writers == map[] && killed == {}
    {
      data := new Byte[PIPESIZE];
      nread, nwrite, readopen, writeopen := 0, 0, true, true;
      readers, writers, asleepR, asleepW, killed := map[], map[], {}, {}, {};
      written, delivered := [], [];
    }

    ghost predicate DataOk()
      reads this, data
    {
      && data.Length == PIPESIZE && Buffers(data[..], |delivered|, written) && delivered == written[..|delivered|]
      && nread == Counter(|delivered|) && nwrite == Counter(|written|)
    }

    /** One byte into the array. */
    method Put(b: Byte)
      requires DataOk() && |written| < |delivered| + PIPESIZE
      modifies this`nwrite, this`written, data
      ensures DataOk() && written == old(written) + [b]
    {
      hide Counter, Place;
      Wraps(|delivered|, |written|);
      Store(data[..], |delivered|, written, b);
      data[Place(nwrite)] := b;
      assert data[..] == old(data[..])[Place(nwrite) := b];
      nwrite := Counter(nwrite + 1);
      written := written + [b];
    }

    /** One byte out of the array. */
    method Get() returns (b: Byte)
      requires DataOk() && |delivered| < |written|
      modifies this`nread, this`delivered
      ensures DataOk() && b == written[|old(delivered)|] && delivered == old(delivered) + [b]
    {
      hide Counter, Place;
      Wraps(|delivered|, |written|);
      b := data[Place(nread)];
      nread := Counter(nread + 1);
      assert written[..|delivered|] + [written[|delivered|]] == written[..|delivered| + 1];
      assert b == written[|delivered|];
      delivered := delivered + [b];
    }

    /** pipewrite from its loop test on, until it returns or sleeps. */
    method Write(pid: nat) returns (r: WriteResult)
      requires Valid() && pid in writers && pid !in asleepW
      modifies this`nwrite, this`written, this`writers, this`asleepR, this`asleepW, data
      ensures Valid() && r == old(View()).WriteEnds(pid) && View() == old(View()).Write(pid)
      ensures written == old(written) + old(View()).In(GoOn(pid))
    {
      hide Buffers, Counter, State.Write, State.WriteEnds, State.In, State.Valid;
      Full();
      var addr, start := writers[pid].addr, writers[pid].i;
      Going(pid);
      var i := Fill(addr, start);
      RoomFilled(old(View()), pid, i);
      assert Buffered() == old(Buffered()) + addr[start..i];
      TurnEnds(old(View()), pid, i);
      if i < |addr| {
        if !readopen || pid in killed {
          writers := writers - {pid};
          return Fails;
        }
        asleepR := {};
        asleepW, writers := asleepW + {pid}, writers[pid := Writer(addr, i)];
        return Sleeps;
      }
      asleepR := {};
      writers := writers - {pid};
      return Wrote(|addr|);
    }

    lemma Going(pid: nat)
      requires Valid() && pid in writers && pid !in asleepW
      ensures writers[pid].i <= |writers[pid].addr|
    {
    }

    /** The loop of pipewrite up to its next sleep: bytes go in while there are any and there is room. */
    method Fill(addr: seq<Byte>, start: nat) returns (i: nat)
      requires DataOk() && start <= |addr|
      modifies this`nwrite, this`written, data
      ensures DataOk() && start <= i <= |addr| && written == old(written) + addr[start..i]
      ensures |delivered| <= |written| <= |delivered| + PIPESIZE && (i < |addr| ==> |written| == |delivered| + PIPESIZE)
    {
      hide Buffers, Counter;
      i := start;
      while i < |addr|
        invariant start <= i <= |addr| && DataOk() && written == old(written) + addr[start..i]
      {
        Full();
        if nwrite == Counter(nread + PIPESIZE) { break; }
        assert addr[start..i] + [addr[i]] == addr[start..i + 1];
        Put(addr[i]);
        i := i + 1;
      }
      Full();
    }

    lemma Full()
      requires DataOk()
      ensures |delivered| <= |written| <= |delivered| + PIPESIZE
      ensures nwrite == Counter(nread + PIPESIZE) <==> |written| == |delivered| + PIPESIZE
      ensures nwrite == nread <==> |written| == |delivered|
    {
      Wraps(|delivered|, |written|);
    }

    /** piperead from its loop test on, until it returns or sleeps. */
    method Read(pid: nat) returns (r: ReadResult)
      requires Valid() && pid in readers && pid !in asleepR
      modifies this`nread, this`delivered, this`readers, this`asleepR, this`asleepW
      ensures Valid() && r == old(View()).ReadEnds(pid) && View() == old(View()).Read(pid)
      ensures delivered == old(delivered) + old(View()).Out(GoOn(pid))
      ensures r.Slept? || r.Failed? <==> old(Buffered()) == [] && writeopen
      ensures r.Failed? <==> old(Buffered()) == [] && writeopen && pid in killed
      ensures r.Read? ==>
                && |r.bytes| == (if old(readers[pid].n) <= |old(Buffered())| then old(readers[pid].n)
                                 else |old(Buffered())|)
                && r.bytes <= old(Buffered()) && delivered == old(delivered) + r.bytes && asleepW == {}
      ensures r == ReadResult.Read([]) && old(readers[pid].n) > 0 ==> old(Buffered()) == [] && !writeopen
      ensures (pid in readers <==> r.Slept?) && (pid in asleepR <==> r.Slept?)
      ensures !r.Read? ==> delivered == old(delivered)
    {
      hide Buffers, Counter;
      Full();
      ReadKeeps(View(), pid);
      if nread == nwrite && writeopen {
        if pid in killed {
          readers := readers - {pid};
          return Failed;
        }
        asleepR := asleepR + {pid};
        return Slept;
      }
      var addr := Drain(readers[pid].n);
      assert Buffered() == old(Buffered())[|addr|..];
      asleepW := {};
      readers := readers - {pid};
      return ReadResult.Read(addr);
    }

    /** The copy loop of piperead. */
    method Drain(n: nat) returns (addr: seq<Byte>)
      requires DataOk()
      modifies this`nread, this`delivered
      ensures DataOk() && delivered == old(delivered) + addr && |delivered| <= |written|
      ensures addr == old(Buffered())[..Min(n, |old(Buffered())|)]
    {
      hide Buffers, Counter;
      var i := 0;
      addr := [];
      Full();
      while i < n
        invariant i <= n && i == |addr| && DataOk() && delivered == old(delivered) + addr && |delivered| <= |written|
        invariant addr == written[|old(delivered)|..|delivered|]
      {
        Full();
        if nread == nwrite { break; }
        var b := Get();
        addr, i := addr + [b], i + 1;
      }
      Full();
    }

    /** pipeclose of one end, when no call on it is under way. */
    method Close(writable: bool)
      requires Valid() && (if writable then writers == map[] else readers == map[])
      modifies this`readopen, this`writeopen, this`asleepR, this`asleepW
      ensures Valid()
      ensures if writable then !writeopen && asleepR == {} && readopen == old(readopen) && asleepW == old(asleepW)
              else !readopen && asleepW == {} && writeopen == old(writeopen) && asleepR == old(asleepR)
    {
      if writable {
        writeopen := false;
        asleepR := {};
      } else {
        readopen := false;
        asleepW := {};
      }
    }

    method Continue(pid: nat) returns (bytes: seq<Byte>)
      requires Valid()
      modifies this, data
      ensures Valid() && View() == old(View()).Stepped(GoOn(pid)) && bytes == old(View()).Out(GoOn(pid))
      ensures written == old(written) + old(View()).In(GoOn(pid)) && delivered == old(delivered) + bytes
    {
      hide Buffers, Counter, State.Read, State.Write;
      bytes := [];
      if pid in readers && pid !in asleepR {
        var r := Read(pid);
        bytes := if r.Read? then r.bytes else [];
      } else if pid in writers && pid !in asleepW {
        var r := Write(pid);
      }
    }

    /** One step of the ring is one step of the queue. */
    method Perform(op: Op) returns (bytes: seq<Byte>)
      requires Valid()
      modifies this, data
      ensures Valid() && View() == old(View()).Stepped(op) && bytes == old(View()).Out(op)
      ensures written == old(written) + old(View()).In(op) && delivered == old(delivered) + bytes
    {
      hide Buffers, Counter, State.Read, State.Write, State.Valid;
      StepKeeps(View(), op);
      bytes := [];
      match op {
        case BeginRead(pid, n) =>
          if readopen && pid !in readers && pid !in writers { readers := readers[pid := Reader(n)]; }
        case BeginWrite(pid, addr) =>
          if writeopen && pid !in readers && pid !in writers { writers := writers[pid := Writer(addr, 0)]; }
        case GoOn(pid) => bytes := Continue(pid);
        case CloseEnd(writable) =>
          if if writable then writers == map[] else readers == map[] { Close(writable); }
        case Kill(pid) =>
          killed, asleepR, asleepW := killed + {pid}, asleepR - {pid}, asleepW - {pid};
      }
    }

    /** Any interleaving of calls: the ring, its counters wrapping or not, does what the queue does. What the reads
        returned, one after another, followed by what is still in the pipe, is what the writes stored. */
    method Run(ops: seq<Op>) returns (out: seq<Byte>)
      requires Valid() && written == [] && delivered == []
      modifies this, data
      ensures Valid() && View() == old(View()).Ran(ops)
      ensures out == old(View()).Outs(ops) && written == old(View()).Ins(ops)
      ensures |out| <= |written| && written == out + Buffered() && |Buffered()| <= PIPESIZE
    {
      out := [];
      var k := 0;
      while k < |ops|
        invariant k <= |ops| && Valid() && View() == old(View()).Ran(ops[..k])
        invariant out == old(View()).Outs(ops[..k]) && written == old(View()).Ins(ops[..k])
      {
        assert ops[..k + 1][..k] == ops[..k];
        var bytes := Perform(ops[k]);
        out := out + bytes;
        k := k + 1;
      }
      assert ops[..k] == ops;
      Conserved(old(View()), ops);
    }
  }
}
