/** Whole packets, one command and one response a connection, in the order of the mutex. */
module ServerSerialisation {
  import opened ByteStrings
  import opened LineSplitting
  import opened DeviceSpec
  import opened ServerSpec
  import opened ServerProtocol
  import opened ServerInvariant

  // ----- Whole packets -----

  /** The packets that are data, end to end, in the order of the log. */
  ghost function Packets(scan: Scanner, log: seq<Event>): Bytes
    decreases |log|
  {
    if log == [] then []
    else
      var e := log[|log| - 1];
      Packets(scan, log[..|log| - 1]) + if IsData(scan, e.packet) then e.packet else []
  }

  /** No write was refused an allocation. */
  ghost predicate NoFailure(scan: Scanner, log: seq<Event>) {
    forall k :: 0 <= k < |log| && IsData(scan, log[k].packet) ==>
      Write(Replay(log[..k]), log[k].packet, true, log[k].grants).1.Transferred?
  }

  /** Every event has the command its packet scans as. */
  ghost predicate Scanned(scan: Scanner, log: seq<Event>) {
    forall k :: 0 <= k < |log| ==> log[k].command == CommandOf(scan, log[k].packet)
  }

  /** Without refusals the device holds the concatenation of whole packets, cut into lines. */
  lemma {:induction false} ReplayIsPackets(scan: Scanner, log: seq<Event>)
    requires Scanned(scan, log) && NoFailure(scan, log)
    ensures WellFormed(Replay(log))
    ensures Accepted(Replay(log)) == Packets(scan, log)
    ensures Replay(log) == Device(Lines(Packets(scan, log)), Tail(Packets(scan, log)))
    decreases |log|
  {
    hide Lines, Tail, IsData, CommandOf, Write, Seek;
    if log != [] {
      var init, e := log[..|log| - 1], log[|log| - 1];
      assert forall k :: 0 <= k < |init| ==> init[..k] == log[..k];
      ReplayIsPackets(scan, init);
      DataIsWritten(scan, e.packet);
      if IsData(scan, e.packet) {
        assert Write(Replay(init), e.packet, true, e.grants).1.Transferred?;
        TransferredIsAccepted(Replay(init), e.packet, e.grants);
      } else {
        assert Packets(scan, log) == Packets(scan, init);
      }
    }
    AcceptedDetermines(Replay(log));
  }

  lemma TransferredIsAccepted(d: Device, data: Bytes, grants: nat)
    requires WellFormed(d) && Write(d, data, true, grants).1.Transferred?
    ensures WellFormed(Write(d, data, true, grants).0)
    ensures Accepted(Write(d, data, true, grants).0) == Accepted(d) + data
  {
    AbsorbKeepsWellFormed(d, data);
    AbsorbConserves(d, data);
  }

  lemma AcceptedDetermines(d: Device)
    requires WellFormed(d)
    ensures d == Device(Lines(Accepted(d)), Tail(Accepted(d)))
  {
    SplitUnique(d.lines, d.tail);
  }

  /** The device's state is explained by whole packets: each thread's own, each at most once. */
  ghost predicate Explains(scan: Scanner, s: Server) {
    && s.dev == Replay(s.log)
    && (forall k :: 0 <= k < |s.log| ==>
          var e := s.log[k];
          && e.tid < |s.conns|
          && Gather([], s.conns[e.tid].chunks) == Some(e.packet)
          && e.packet == Flatten(s.conns[e.tid].chunks)
          && (IsData(scan, e.packet) <==> e.command == WriteAll)
          && forall x: nat, y: nat :: ScansAs(scan, e.packet, x, y) <==> e.command == SeekTo(x, y))
    && (forall j, k :: 0 <= j < k < |s.log| ==> s.log[j].tid != s.log[k].tid)
  }

  /**
   * Whole-packet serialisation: in every interleaving the device is what its commands, executed one after
   * the other on whole packets, make of an empty device.  No packet is cut, mixed with another or used
   * twice, and without refused allocations the accepted stream is the concatenation of the packets.
   */
  lemma WholePackets(scan: Scanner, steps: seq<Step>)
    requires Legal(scan, INIT, steps)
    ensures var s := Run(scan, INIT, steps);
      && Explains(scan, s)
      && (NoFailure(scan, s.log) ==> Accepted(s.dev) == Packets(scan, s.log))
  {
    var s := Run(scan, INIT, steps);
    ReachableInv(scan, steps);
    forall k | 0 <= k < |s.log|
      ensures Gather([], s.conns[s.log[k].tid].chunks) == Some(s.log[k].packet)
      ensures s.log[k].packet == Flatten(s.conns[s.log[k].tid].chunks)
      ensures s.log[k].command == CommandOf(scan, s.log[k].packet)
      ensures IsData(scan, s.log[k].packet) <==> s.log[k].command == WriteAll
      ensures forall x: nat, y: nat :: ScansAs(scan, s.log[k].packet, x, y) <==> s.log[k].command == SeekTo(x, y)
    {
      var t := s.log[k].tid;
      assert ConnOk(scan, s, t);
      PacketIsGathered(s.conns[t]);
      DataIsWritten(scan, s.log[k].packet);
    }
    if NoFailure(scan, s.log) {
      ReplayIsPackets(scan, s.log);
    }
  }

  lemma PacketIsGathered(c: Conn)
    requires PacketOk(c) && Acted(c)
    ensures Gather([], c.chunks) == Some(c.packet)
  {
    GatherIsFirstComplete(c.chunks);
    assert c.chunks[..|c.chunks|] == c.chunks;
  }

  /**
   * Receive reassembly: the packet is always the concatenation of the chunks received, and the thread
   * stops receiving with the first chunk that completes it.
   */
  lemma ReceiveReassembly(scan: Scanner, steps: seq<Step>, t: nat)
    requires Legal(scan, INIT, steps)
    requires t < |Run(scan, INIT, steps).conns|
    ensures var c := Run(scan, INIT, steps).conns[t];
      && c.packet == Flatten(c.chunks)
      && Gather([], c.chunks) ==
           if c.pc in {WantCommand, Commanding} || Acted(c) then Some(c.packet) else None
  {
    var s := Run(scan, INIT, steps);
    var c := s.conns[t];
    ReachableInv(scan, steps);
    assert ConnOk(scan, s, t);
    GatherIsFirstComplete(c.chunks);
    assert c.chunks[..|c.chunks|] == c.chunks;
  }

  // ----- The order of the mutex -----

  /** The threads that took the mutex for a command, in that order. */
  function Locks(steps: seq<Step>): seq<nat> {
    if steps == [] then []
    else (if steps[0].LockCommand? then [steps[0].t] else []) + Locks(steps[1..])
  }

  function Tids(log: seq<Event>): (r: seq<nat>)
    ensures |r| == |log|
  {
    seq(|log|, i requires 0 <= i < |log| => log[i].tid)
  }

  /** The thread that has the mutex but has not executed its command yet. */
  function Pending(s: Server): seq<nat> {
    if s.owner.Some? && s.owner.value < |s.conns| && s.conns[s.owner.value].pc == Commanding then [s.owner.value]
    else []
  }

  lemma StepLocks(scan: Scanner, s: Server, step: Step)
    requires Inv(scan, s) && Enabled(s, step)
    ensures var s' := Next(scan, s, step);
      Tids(s'.log) + Pending(s') == Tids(s.log) + Pending(s) + Locks([step])
  {
    hide CommandOk, StreamOk, LogOk, PacketOk, Replay, CommandOf, Act;
    assert [step][1..] == [];
    if !step.Accept? {
      assert ConnOk(scan, s, step.t);
    }
  }

  lemma LocksHead(steps: seq<Step>)
    requires steps != []
    ensures Locks(steps) == Locks([steps[0]]) + Locks(steps[1..])
  {
    assert [steps[0]][1..] == [];
  }

  lemma {:induction false} LockOrder(scan: Scanner, s: Server, steps: seq<Step>)
    requires Inv(scan, s) && Legal(scan, s, steps)
    ensures var s' := Run(scan, s, steps);
      Tids(s'.log) + Pending(s') == Tids(s.log) + Pending(s) + Locks(steps)
    decreases |steps|
  {
    hide Inv, Next, Pending, Tids;
    if steps == [] {
      assert Tids(s.log) + Pending(s) + [] == Tids(s.log) + Pending(s);
    } else {
      var s1 := Next(scan, s, steps[0]);
      StepKeepsInv(scan, s, steps[0]);
      StepLocks(scan, s, steps[0]);
      LockOrder(scan, s1, steps[1..]);
      LocksHead(steps);
      Assoc(Tids(s.log) + Pending(s), Locks([steps[0]]), Locks(steps[1..]));
    }
  }

  /** Commands are executed in the order in which their threads took the mutex for them. */
  lemma CommandsInLockOrder(scan: Scanner, steps: seq<Step>)
    requires Legal(scan, INIT, steps)
    ensures var s := Run(scan, INIT, steps); Tids(s.log) + Pending(s) == Locks(steps)
  {
    hide Inv, Run, Legal, Locks;
    InitInv(scan);
    LockOrder(scan, INIT, steps);
    assert Tids(INIT.log) + Pending(INIT) == [];
    assert [] + Locks(steps) == Locks(steps);
  }

  // ----- One command, one response -----

  function Executes(steps: seq<Step>, t: nat): nat {
    if steps == [] then 0
    else (if steps[0].Execute? && steps[0].t == t then 1 else 0) + Executes(steps[1..], t)
  }

  function Streams(steps: seq<Step>, t: nat): nat {
    if steps == [] then 0
    else (if steps[0].LockStream? && steps[0].t == t then 1 else 0) + Streams(steps[1..], t)
  }

  function Closes(steps: seq<Step>, t: nat): nat {
    if steps == [] then 0
    else (if steps[0].Close? && steps[0].t == t then 1 else 0) + Closes(steps[1..], t)
  }

  /** Commands executed, responses started and descriptors closed so far by thread `t`. */
  function Commands(s: Server, t: nat): nat {
    if t < |s.conns| && Acted(s.conns[t]) then 1 else 0
  }

  function Responses(s: Server, t: nat): nat {
    if t < |s.conns| && Started(s.conns[t]) then 1 else 0
  }

  function Ends(s: Server, t: nat): nat {
    if t < |s.conns| && s.conns[t].pc == Closed then 1 else 0
  }

  lemma StepCounts(scan: Scanner, s: Server, step: Step, t: nat)
    requires Inv(scan, s) && Enabled(s, step)
    ensures var s' := Next(scan, s, step);
      && Commands(s', t) == Commands(s, t) + Executes([step], t)
      && Responses(s', t) == Responses(s, t) + Streams([step], t)
      && Ends(s', t) == Ends(s, t) + Closes([step], t)
  {
    hide CommandOk, StreamOk, LogOk, Replay, CommandOf, Act, FirstComplete, Incomplete;
    assert [step][1..] == [];
    if !step.Accept? {
      assert ConnOk(scan, s, step.t);
    }
  }

  lemma {:induction false} RunCounts(scan: Scanner, s: Server, steps: seq<Step>, t: nat)
    requires Inv(scan, s) && Legal(scan, s, steps)
    ensures var s' := Run(scan, s, steps);
      && Commands(s', t) == Commands(s, t) + Executes(steps, t)
      && Responses(s', t) == Responses(s, t) + Streams(steps, t)
      && Ends(s', t) == Ends(s, t) + Closes(steps, t)
    decreases |steps|
  {
    hide Inv, Next, Commands, Responses, Ends;
    if steps != [] {
      StepKeepsInv(scan, s, steps[0]);
      StepCounts(scan, s, steps[0], t);
      RunCounts(scan, Next(scan, s, steps[0]), steps[1..], t);
      assert [steps[0]][1..] == [];
    }
  }

  /**
   * One shot: a thread executes at most one command and streams at most once, the stream only after the
   * command; a thread whose response is complete has done exactly one of each.  It closes its descriptor
   * at most once, and has ended exactly when it has.
   */
  lemma OneCommandOneStream(scan: Scanner, steps: seq<Step>, t: nat)
    requires Legal(scan, INIT, steps)
    ensures Streams(steps, t) <= Executes(steps, t) <= 1 && Closes(steps, t) <= 1
    ensures t < |Run(scan, INIT, steps).conns| ==>
      (Run(scan, INIT, steps).conns[t].pc == Closed <==> Closes(steps, t) == 1)
    ensures t < |Run(scan, INIT, steps).conns| && Run(scan, INIT, steps).conns[t].answered ==>
      Executes(steps, t) == 1 && Streams(steps, t) == 1
  {
    InitInv(scan);
    RunCounts(scan, INIT, steps, t);
  }
}
