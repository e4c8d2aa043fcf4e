/** What the server can always still do: receive, choose, and serve whoever comes. */
module ServerProgress {
  import opened ByteStrings
  import opened DeviceSpec
  import opened ServerSpec
  import opened ServerProtocol
  import opened ServerInvariant
  import opened ServerLiveness

  lemma {:induction false} LegalAppend(scan: Scanner, s: Server, a: seq<Step>, b: seq<Step>)
    requires Legal(scan, s, a) && Legal(scan, Run(scan, s, a), b)
    ensures Legal(scan, s, a + b) && Run(scan, s, a + b) == Run(scan, Run(scan, s, a), b)
    decreases |a|
  {
    hide Enabled, Next;
    if a == [] {
      assert a + b == b;
    } else {
      assert (a + b)[1..] == a[1..] + b && (a + b)[0] == a[0];
      LegalAppend(scan, Next(scan, s, a[0]), a[1..], b);
    }
  }

  lemma OneStep(scan: Scanner, s: Server, step: Step)
    requires Enabled(s, step)
    ensures Legal(scan, s, [step]) && Run(scan, s, [step]) == Next(scan, s, step)
  {
    hide Enabled, Next;
    assert [step][1..] == [];
  }

  /** A run that can take one more step. */
  lemma OneMore(scan: Scanner, s: Server, a: seq<Step>, step: Step)
    requires Legal(scan, s, a) && Enabled(Run(scan, s, a), step)
    ensures Legal(scan, s, a + [step])
    ensures Run(scan, s, a + [step]) == Next(scan, Run(scan, s, a), step)
  {
    OneStep(scan, Run(scan, s, a), step);
    LegalAppend(scan, s, a, [step]);
  }

  // ----- Choices that stay open -----

  /** A thread that is receiving can receive any chunk that fits its buffer, however much it has already. */
  lemma CanReceive(scan: Scanner, steps: seq<Step>, t: nat, chunk: Bytes)
    requires Legal(scan, INIT, steps)
    requires t < |Run(scan, INIT, steps).conns| && Run(scan, INIT, steps).conns[t].pc == Receiving
    requires |chunk| <= 1023
    ensures Legal(scan, INIT, steps + [Recv(t, chunk)])
    ensures var s := Run(scan, INIT, steps); var s' := Run(scan, INIT, steps + [Recv(t, chunk)]);
      && |s'.conns| == |s.conns| && s'.dev == s.dev
      && s'.conns[t].chunks == s.conns[t].chunks + [chunk]
      && s'.conns[t].packet == s.conns[t].packet + chunk
      && (s'.conns[t].pc == WantCommand <==> Complete(s'.conns[t].packet))
      && (s'.conns[t].pc == Receiving <==> !Complete(s'.conns[t].packet))
  {
    hide Complete;
    OneMore(scan, INIT, steps, Recv(t, chunk));
  }

  ghost predicate ShortChunks(s: Server) {
    forall t :: 0 <= t < |s.conns| ==> forall i :: 0 <= i < |s.conns[t].chunks| ==> |s.conns[t].chunks[i]| <= 1023
  }

  lemma StepKeepsShort(scan: Scanner, s: Server, step: Step)
    requires Enabled(s, step) && ShortChunks(s)
    ensures ShortChunks(Next(scan, s, step))
  {
    hide Act, CommandOf, Complete, Contents;
  }

  /** And no other: no chunk is longer than the buffer allows. */
  lemma {:induction false} ChunksFit(scan: Scanner, s: Server, steps: seq<Step>)
    requires Legal(scan, s, steps) && ShortChunks(s)
    ensures ShortChunks(Run(scan, s, steps))
    decreases |steps|
  {
    hide Enabled, Next, ShortChunks;
    if steps != [] {
      StepKeepsShort(scan, s, steps[0]);
      ChunksFit(scan, Next(scan, s, steps[0]), steps[1..]);
    }
  }

  ghost predicate Possible(scan: Scanner, steps: seq<Step>, step: Step) {
    Legal(scan, INIT, steps + [step])
  }

  lemma EnabledIsPossible(scan: Scanner, steps: seq<Step>, step: Step)
    requires Legal(scan, INIT, steps) && Enabled(Run(scan, INIT, steps), step)
    ensures Possible(scan, steps, step)
  {
    OneMore(scan, INIT, steps, step);
  }

  /**
   * After any run a new client can connect; a client can stop sending; any waiting thread can take a free
   * mutex; and no outcome of an allocation and no length of a send is excluded.
   */
  lemma EveryChoiceIsOpen(scan: Scanner, steps: seq<Step>, t: nat)
    requires Legal(scan, INIT, steps) && t < |Run(scan, INIT, steps).conns|
    ensures Possible(scan, steps, Accept)
    ensures var s := Run(scan, INIT, steps); var c := s.conns[t];
      && (c.pc == Receiving ==> Possible(scan, steps, GiveUp(t)))
      && (c.pc == WantCommand && s.owner == None ==> Possible(scan, steps, LockCommand(t)))
      && (c.pc == WantStream && s.owner == None ==> Possible(scan, steps, LockStream(t)))
      && (c.pc == Commanding ==> forall grants: nat :: Possible(scan, steps, Execute(t, grants)))
      && (c.pc == Streaming ==> forall n: nat :: 1 <= n <= |c.buffer| ==> Possible(scan, steps, Send(t, n)))
  {
    hide Possible;
    var s := Run(scan, INIT, steps);
    forall step | Enabled(s, step)
      ensures Possible(scan, steps, step)
    {
      EnabledIsPossible(scan, steps, step);
    }
    assert Enabled(s, Accept);
    assert s.conns[t].pc == Receiving ==> Enabled(s, GiveUp(t));
    assert s.conns[t].pc == WantCommand && s.owner == None ==> Enabled(s, LockCommand(t));
    assert s.conns[t].pc == WantStream && s.owner == None ==> Enabled(s, LockStream(t));
    assert s.conns[t].pc == Commanding ==> forall grants: nat :: Enabled(s, Execute(t, grants));
    assert s.conns[t].pc == Streaming ==> forall n: nat :: 1 <= n <= |s.conns[t].buffer| ==> Enabled(s, Send(t, n));
  }

  // ----- Serving a new client -----

  /** The server with only thread `t` changed. */
  function With(s: Server, t: nat, c: Conn): Server
    requires t < |s.conns|
  {
    s.(conns := s.conns[t := c])
  }

  /** Receiving the chunks of a complete packet: the thread stops at the one that completes it. */
  lemma {:induction false} ReceiveAll(scan: Scanner, s: Server, t: nat, chunks: seq<Bytes>)
    returns (steps: seq<Step>, k: nat)
    requires t < |s.conns| && s.conns[t].pc == Receiving
    requires forall i :: 0 <= i < |chunks| ==> |chunks[i]| <= CHUNK
    requires Gather(s.conns[t].packet, chunks).Some?
    ensures Legal(scan, s, steps) && k <= |chunks|
    ensures var c := s.conns[t];
      Run(scan, s, steps) == With(s, t, c.(chunks := c.chunks + chunks[..k],
        packet := Gather(c.packet, chunks).value, pc := WantCommand))
    decreases |chunks|
  {
    hide Complete;
    var c := s.conns[t];
    var step := Recv(t, chunks[0]);
    var s1 := Next(scan, s, step);
    OneStep(scan, s, step);
    if Complete(c.packet + chunks[0]) {
      steps, k := [step], 1;
      assert chunks[..1] == [chunks[0]];
    } else {
      var rest, j := ReceiveAll(scan, s1, t, chunks[1..]);
      steps, k := [step] + rest, j + 1;
      LegalAppend(scan, s, [step], rest);
      assert chunks[..k] == [chunks[0]] + chunks[1..][..j];
      Assoc(c.chunks, [chunks[0]], chunks[1..][..j]);
    }
  }

  /** One buffer read and sent; an empty read ends the stream. */
  lemma ReadAndSend(scan: Scanner, s: Server, t: nat) returns (steps: seq<Step>)
    requires t < |s.conns| && s.conns[t].pc == Streaming && s.conns[t].buffer == []
    ensures Legal(scan, s, steps)
    ensures var c := s.conns[t]; var bytes := Slice(Contents(s.dev), c.pos, CHUNK);
      Run(scan, s, steps) == With(s, t, c.(pos := c.pos + |bytes|, sent := c.sent + bytes,
        pc := if bytes == [] then Streamed else Streaming))
  {
    hide Contents, Slice;
    var c := s.conns[t];
    var bytes := Slice(Contents(s.dev), c.pos, CHUNK);
    OneStep(scan, s, Read(t));
    steps := [Read(t)];
    if bytes == [] {
      assert c.sent + [] == c.sent;
    } else {
      assert bytes[|bytes|..] == [] && bytes[..|bytes|] == bytes;
      OneMore(scan, s, steps, Step.Send(t, |bytes|));
      steps := steps + [Step.Send(t, |bytes|)];
    }
  }

  /** Reading and sending to the end. */
  lemma {:induction false} StreamAll(scan: Scanner, s: Server, t: nat) returns (steps: seq<Step>)
    requires t < |s.conns| && s.conns[t].pc == Streaming && s.conns[t].buffer == []
    ensures Legal(scan, s, steps)
    ensures var c := s.conns[t]; var text := From(Contents(s.dev), c.pos);
      Run(scan, s, steps) == With(s, t, c.(pc := Streamed, pos := c.pos + |text|, sent := c.sent + text))
    decreases |From(Contents(s.dev), s.conns[t].pos)|
  {
    hide Contents, Slice, From, Enabled, Next, Legal, Run;
    var c := s.conns[t];
    var bytes := Slice(Contents(s.dev), c.pos, CHUNK);
    var rest := From(Contents(s.dev), c.pos + |bytes|);
    steps := ReadAndSend(scan, s, t);
    FromTail(Contents(s.dev), c.pos, CHUNK);
    if bytes != [] {
      var s1 := Run(scan, s, steps);
      var more := StreamAll(scan, s1, t);
      LegalAppend(scan, s, steps, more);
      steps := steps + more;
      Assoc(c.sent, bytes, rest);
    }
  }

  lemma FromTail(s: Bytes, p: nat, count: nat)
    ensures From(s, p) == Slice(s, p, count) + From(s, p + |Slice(s, p, count)|)
    ensures count > 0 && Slice(s, p, count) == [] ==> From(s, p) == []
  {
  }

  /** From the complete packet, with the mutex free, to the unlock after the command. */
  lemma CommandAlone(scan: Scanner, s: Server, t: nat, grants: nat) returns (steps: seq<Step>)
    requires t < |s.conns| && s.conns[t].pc == WantCommand && s.owner == None
    ensures Legal(scan, s, steps)
    ensures var c := s.conns[t]; var command := CommandOf(scan, c.packet);
      var (dev, pos) := Act(s.dev, c.pos, command, c.packet, grants);
      Run(scan, s, steps) == With(s, t, c.(pc := WantStream, pos := pos, event := |s.log|))
        .(dev := dev, log := s.log + [Event(t, c.packet, command, grants)])
  {
    hide Act, CommandOf;
    var s1 := Next(scan, s, LockCommand(t));
    var s2 := Next(scan, s1, Execute(t, grants));
    OneStep(scan, s, LockCommand(t));
    OneMore(scan, s, [LockCommand(t)], Execute(t, grants));
    OneMore(scan, s, [LockCommand(t)] + [Execute(t, grants)], UnlockCommand(t));
    steps := [LockCommand(t)] + [Execute(t, grants)] + [UnlockCommand(t)];
  }

  /** From there to the end of the thread. */
  lemma AnswerAlone(scan: Scanner, s: Server, t: nat) returns (steps: seq<Step>)
    requires t < |s.conns| && s.conns[t].pc == WantStream && s.owner == None && s.conns[t].buffer == []
    ensures Legal(scan, s, steps)
    ensures var c := s.conns[t]; var text := From(Contents(s.dev), c.pos);
      Run(scan, s, steps) == With(s, t, c.(pc := Closed, pos := c.pos + |text|, sent := c.sent + text,
        start := c.pos, snapshot := |s.log|, answered := true))
  {
    hide Contents, From;
    var s1 := Next(scan, s, LockStream(t));
    OneStep(scan, s, LockStream(t));
    var stream := StreamAll(scan, s1, t);
    LegalAppend(scan, s, [LockStream(t)], stream);
    OneMore(scan, s, [LockStream(t)] + stream, UnlockStream(t));
    OneMore(scan, s, [LockStream(t)] + stream + [UnlockStream(t)], Close(t));
    steps := [LockStream(t)] + stream + [UnlockStream(t)] + [Close(t)];
  }

  /** The whole life of a connection, as one schedule. */
  lemma ServeAlone(scan: Scanner, s: Server, chunks: seq<Bytes>, grants: nat) returns (steps: seq<Step>, k: nat)
    requires s.owner == None && Gather([], chunks).Some?
    requires forall i :: 0 <= i < |chunks| ==> |chunks[i]| <= CHUNK
    ensures Legal(scan, s, steps) && k <= |chunks|
    ensures var s' := Run(scan, s, steps); var t := |s.conns|;
      && |s'.conns| == t + 1 && s'.conns[..t] == s.conns && s'.owner == None
      && var c := s'.conns[t];
      && c.answered && c.pc == Closed && c.chunks == chunks[..k] && c.packet == Gather([], chunks).value
      && (s'.dev, c.sent) == Serve(s.dev, c.packet, scan, grants)
  {
    hide Act, CommandOf, Contents, From, Gather;
    var t := |s.conns|;
    var s1 := Next(scan, s, Accept);
    OneStep(scan, s, Accept);
    assert s1.conns[t] == FRESH;
    var receive;
    receive, k := ReceiveAll(scan, s1, t, chunks);
    var s2 := Run(scan, s1, receive);
    var command := CommandAlone(scan, s2, t, grants);
    var s3 := Run(scan, s2, command);
    var answer := AnswerAlone(scan, s3, t);
    LegalAppend(scan, s2, command, answer);
    LegalAppend(scan, s1, receive, command + answer);
    LegalAppend(scan, s, [Accept], receive + (command + answer));
    steps := [Accept] + (receive + (command + answer));
    assert [] + chunks[..k] == chunks[..k];
    var text := From(Contents(s3.dev), s3.conns[t].pos);
    assert [] + text == text;
  }

  /**
   * Any client can be served, however its packet is cut into chunks: after every run that leaves the mutex
   * free there is a schedule by which a new client connects, sends, and gets what the device then gives to
   * a connection served alone.  It receives the chunks up to the one that completes the packet.
   */
  lemma NewClientCanBeServed(scan: Scanner, steps: seq<Step>, chunks: seq<Bytes>, grants: nat)
    returns (more: seq<Step>)
    requires Legal(scan, INIT, steps) && Run(scan, INIT, steps).owner == None
    requires Gather([], chunks).Some?
    requires forall i :: 0 <= i < |chunks| ==> |chunks[i]| <= 1023
    ensures Legal(scan, INIT, steps + more)
    ensures var s := Run(scan, INIT, steps); var s' := Run(scan, INIT, steps + more); var t := |s.conns|;
      && |s'.conns| == t + 1 && s'.conns[..t] == s.conns && s'.owner == None
      && var c := s'.conns[t];
      && c.answered && Gather([], chunks) == Some(c.packet)
      && FirstComplete(chunks, |c.chunks|) && c.chunks == chunks[..|c.chunks|]
      && (s'.dev, c.sent) == Serve(s.dev, c.packet, scan, grants)
  {
    hide Serve, Gather, FirstComplete, Enabled, Next;
    var s := Run(scan, INIT, steps);
    var k;
    more, k := ServeAlone(scan, s, chunks, grants);
    LegalAppend(scan, INIT, steps, more);
    CompleteWithLast(scan, steps + more, |s.conns|, chunks, k);
  }

  lemma CompleteWithLast(scan: Scanner, steps: seq<Step>, t: nat, chunks: seq<Bytes>, k: nat)
    requires Legal(scan, INIT, steps) && t < |Run(scan, INIT, steps).conns| && k <= |chunks|
    requires var c := Run(scan, INIT, steps).conns[t]; c.answered && c.chunks == chunks[..k]
    ensures FirstComplete(chunks, k)
  {
    hide CommandOk, StreamOk, LogOk, Next, Enabled;
    ReachableInv(scan, steps);
    assert ConnOk(scan, Run(scan, INIT, steps), t);
    assert forall j :: 0 <= j <= k ==> chunks[..k][..j] == chunks[..j];
  }

  // ----- Serving everybody -----

  /** From every reachable state the server can finish all it has begun. */
  lemma {:induction false} CanFinish(scan: Scanner, s: Server) returns (steps: seq<Step>)
    requires Inv(scan, s)
    ensures Legal(scan, s, steps)
    ensures forall i :: 0 <= i < |steps| ==> Internal(steps[i])
    ensures forall t :: 0 <= t < |Run(scan, s, steps).conns| ==> !Busy(Run(scan, s, steps).conns[t])
    decreases Work(s)
  {
    hide Inv, Next, Work, Enabled, Busy;
    if t: nat :| t < |s.conns| && Busy(s.conns[t]) {
      NoDeadlock(scan, s, t);
      var step :| Internal(step) && Enabled(s, step);
      StepKeepsInv(scan, s, step);
      WorkShrinks(scan, s, step);
      var rest := CanFinish(scan, Next(scan, s, step));
      OneStep(scan, s, step);
      LegalAppend(scan, s, [step], rest);
      steps := [step] + rest;
    } else {
      steps := [];
    }
  }

  /**
   * After any run whatever, everybody whose packet is complete can be answered without further input, and
   * after that any new client as well.
   */
  lemma EverybodyCanBeServed(scan: Scanner, steps: seq<Step>, chunks: seq<Bytes>, grants: nat)
    returns (finish: seq<Step>, more: seq<Step>)
    requires Legal(scan, INIT, steps) && Gather([], chunks).Some?
    requires forall i :: 0 <= i < |chunks| ==> |chunks[i]| <= 1023
    ensures forall i :: 0 <= i < |finish| ==> Internal(finish[i])
    ensures Legal(scan, INIT, steps + finish) && Legal(scan, INIT, steps + finish + more)
    ensures var s := Run(scan, INIT, steps + finish); var s' := Run(scan, INIT, steps + finish + more);
      && (forall t :: 0 <= t < |s.conns| && Gather([], s.conns[t].chunks).Some? ==> s.conns[t].answered)
      && |s'.conns| == |s.conns| + 1 && s'.conns[..|s.conns|] == s.conns
      && s'.conns[|s.conns|].answered && Gather([], chunks) == Some(s'.conns[|s.conns|].packet)
      && (s'.dev, s'.conns[|s.conns|].sent) == Serve(s.dev, s'.conns[|s.conns|].packet, scan, grants)
  {
    hide Inv, Serve, Gather, FirstComplete, Next;
    ReachableInv(scan, steps);
    finish := CanFinish(scan, Run(scan, INIT, steps));
    LegalAppend(scan, INIT, steps, finish);
    NotBusyMeansStopped(scan, Run(scan, INIT, steps + finish));
    StoppedMeansAnswered(scan, steps + finish);
    more := NewClientCanBeServed(scan, steps + finish, chunks, grants);
  }

  lemma NotBusyMeansStopped(scan: Scanner, s: Server)
    requires forall t :: 0 <= t < |s.conns| ==> !Busy(s.conns[t])
    ensures forall step :: Internal(step) ==> !Enabled(s, step)
  {
    forall step | Internal(step)
      ensures !Enabled(s, step)
    {
      assert step.t < |s.conns| ==> !Busy(s.conns[step.t]);
    }
  }
}
