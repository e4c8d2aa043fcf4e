/** No deadlock, and no endless serving: every complete packet is answered. */
module ServerLiveness {
  import opened ByteStrings
  import opened DeviceSpec
  import opened ServerSpec
  import opened ServerProtocol
  import opened ServerInvariant

  /** A step the server takes on its own, without a client connecting, sending or failing. */
  predicate Internal(step: Step) {
    !step.Accept? && !step.Recv? && !step.GiveUp?
  }

  /** A thread that neither waits for its client nor has ended. */
  predicate Busy(c: Conn) {
    c.pc != Receiving && c.pc != Closed
  }

  /**
   * The mutex never blocks the server: while any thread is busy, some thread can go on; and a busy thread
   * itself can go on unless it waits for a mutex that another one holds.
   */
  lemma NoDeadlock(scan: Scanner, s: Server, t: nat)
    requires Inv(scan, s) && t < |s.conns| && Busy(s.conns[t])
    ensures exists step :: Internal(step) && Enabled(s, step)
    ensures s.owner == None || s.owner == Some(t) || s.conns[t].pc == Closing ==>
      exists step :: Internal(step) && step.t == t && Enabled(s, step)
  {
    hide Enabled, Internal, PacketOk, CommandOk, StreamOk, LogOk, Replay;
    if s.owner.Some? && s.conns[t].pc != Closing {
      assert ConnOk(scan, s, s.owner.value);
      CanGoOn(scan, s, s.owner.value);
    } else {
      CanGoOn(scan, s, t);
    }
  }

  lemma CanGoOn(scan: Scanner, s: Server, u: nat)
    requires Inv(scan, s) && u < |s.conns| && Busy(s.conns[u])
    requires s.owner == None || s.owner == Some(u) || s.conns[u].pc == Closing
    ensures exists step :: Internal(step) && step.t == u && Enabled(s, step)
  {
    hide PacketOk, CommandOk, StreamOk, LogOk, Replay;
    var c := s.conns[u];
    assert ConnOk(scan, s, u);
    var step :=
      if c.pc == WantCommand then LockCommand(u)
      else if c.pc == Commanding then Execute(u, 0)
      else if c.pc == Commanded then UnlockCommand(u)
      else if c.pc == WantStream then LockStream(u)
      else if c.pc == Streaming then if c.buffer == [] then Read(u) else Send(u, 1)
      else if c.pc == Streamed then UnlockStream(u)
      else Close(u);
    assert Internal(step) && step.t == u && Enabled(s, step);
  }

  // ----- Bounds on the work left -----

  function Sum(f: Conn -> nat, cs: seq<Conn>): nat {
    if cs == [] then 0 else f(cs[0]) + Sum(f, cs[1..])
  }

  lemma {:induction false} SumUpdate(f: Conn -> nat, cs: seq<Conn>, i: nat, c: Conn)
    requires i < |cs|
    ensures Sum(f, cs[i := c]) + f(cs[i]) == Sum(f, cs) + f(c)
  {
    if i == 0 {
      assert cs[0 := c][1..] == cs[1..];
    } else {
      assert cs[i := c][1..] == cs[1..][i - 1 := c];
      SumUpdate(f, cs[1..], i - 1, c);
    }
  }

  lemma {:induction false} SumMonotone(f: Conn -> nat, g: Conn -> nat, cs: seq<Conn>)
    requires forall c :: f(c) <= g(c)
    ensures Sum(f, cs) <= Sum(g, cs)
  {
    if cs != [] {
      SumMonotone(f, g, cs[1..]);
    }
  }

  /** Bytes a thread may still bring to the device. */
  function Unwritten(): Conn -> nat {
    (c: Conn) => if Acted(c) then 0 else |c.packet|
  }

  /** No device reached without further input holds more bytes than this. */
  function Bound(s: Server): nat {
    Held(s.dev) + Sum(Unwritten(), s.conns)
  }

  /** Steps a thread may still take, when the device never holds more than `b` bytes. */
  function Effort(b: nat): Conn -> nat {
    (c: Conn) => match c.pc
      case Receiving => 0
      case WantCommand => 2 * b + 8
      case Commanding => 2 * b + 7
      case Commanded => 2 * b + 6
      case WantStream => 2 * b + 5
      case Streaming => 4 + |c.buffer| + 2 * (if c.pos < b then b - c.pos else 0)
      case Streamed => 3
      case Closing => 1
      case Closed => 0
  }

  function Work(s: Server): nat {
    Sum(Effort(Bound(s)), s.conns)
  }

  lemma BoundShrinks(scan: Scanner, s: Server, step: Step)
    requires Inv(scan, s) && Enabled(s, step) && Internal(step)
    ensures Bound(Next(scan, s, step)) <= Bound(s)
  {
    hide Complete, CString, FirstComplete, Incomplete, LogOk, StreamOk, CommandOk, Replay;
    var c := s.conns[step.t];
    assert ConnOk(scan, s, step.t);
    SumUpdate(Unwritten(), s.conns, step.t, Move(scan, s, step));
    if step.Execute? {
      WriteHolds(s.dev, c.packet, true, step.grants);
    }
  }

  lemma ContentsWithinBound(s: Server)
    ensures |Contents(s.dev)| <= Bound(s)
  {
  }

  lemma MoverWorks(scan: Scanner, s: Server, step: Step, b: nat)
    requires Inv(scan, s) && Enabled(s, step) && Internal(step)
    requires |Contents(s.dev)| <= b
    ensures Effort(b)(Move(scan, s, step)) < Effort(b)(s.conns[step.t])
  {
    hide Complete, CString, FirstComplete, Incomplete, LogOk, Replay, Contents, Act, CommandOf;
    hide Slice, From, PosAfter, Text;
    assert ConnOk(scan, s, step.t);
  }

  lemma EffortMonotone(a: nat, b: nat)
    requires a <= b
    ensures forall c :: Effort(a)(c) <= Effort(b)(c)
  {
  }

  /** Every internal step leaves less to do. */
  lemma WorkShrinks(scan: Scanner, s: Server, step: Step)
    requires Inv(scan, s) && Enabled(s, step) && Internal(step)
    ensures Work(Next(scan, s, step)) < Work(s)
  {
    hide Inv, Contents, Act, CommandOf, Bound, Effort;
    var s' := Next(scan, s, step);
    var b := Bound(s);
    BoundShrinks(scan, s, step);
    ContentsWithinBound(s);
    MoverWorks(scan, s, step, b);
    SumUpdate(Effort(b), s.conns, step.t, Move(scan, s, step));
    EffortMonotone(Bound(s'), b);
    SumMonotone(Effort(Bound(s')), Effort(b), s'.conns);
  }

  /** Left to itself the server stops after at most `Work` steps, whatever the scheduling. */
  lemma {:induction false} ServingTerminates(scan: Scanner, s: Server, steps: seq<Step>)
    requires Inv(scan, s) && Legal(scan, s, steps)
    requires forall i :: 0 <= i < |steps| ==> Internal(steps[i])
    ensures |steps| + Work(Run(scan, s, steps)) <= Work(s)
    decreases |steps|
  {
    hide Inv, Next, Work;
    if steps != [] {
      assert Internal(steps[0]);
      StepKeepsInv(scan, s, steps[0]);
      WorkShrinks(scan, s, steps[0]);
      ServingTerminates(scan, Next(scan, s, steps[0]), steps[1..]);
    }
  }

  /** And when it has stopped, every client that sent a complete packet has its whole response. */
  lemma StoppedMeansAnswered(scan: Scanner, steps: seq<Step>)
    requires Legal(scan, INIT, steps)
    requires forall step :: Internal(step) ==> !Enabled(Run(scan, INIT, steps), step)
    ensures var s := Run(scan, INIT, steps);
      && s.owner == None
      && forall t :: 0 <= t < |s.conns| && Gather([], s.conns[t].chunks).Some? ==>
           s.conns[t].answered && s.conns[t].pc == Closed
  {
    var s := Run(scan, INIT, steps);
    ReachableInv(scan, steps);
    forall t | 0 <= t < |s.conns|
      ensures !Busy(s.conns[t])
      ensures Gather([], s.conns[t].chunks).Some? ==> s.conns[t].answered && s.conns[t].pc == Closed
      ensures s.owner != Some(t)
    {
      if Busy(s.conns[t]) {
        NoDeadlock(scan, s, t);
      }
      assert ConnOk(scan, s, t);
      GatherIsFirstComplete(s.conns[t].chunks);
    }
  }
}
