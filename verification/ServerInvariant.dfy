/** The protocol's invariant holds in every interleaving. */
module ServerInvariant {
  import opened ByteStrings
  import opened DeviceSpec
  import opened ServerSpec
  import opened ServerProtocol

  lemma ReplaySnoc(log: seq<Event>, e: Event)
    ensures Replay(log + [e]) == Act(Replay(log), 0, e.command, e.packet, e.grants).0
  {
    assert (log + [e])[..|log|] == log;
  }

  lemma PrefixStable(log: seq<Event>, e: Event, k: nat)
    requires k <= |log|
    ensures (log + [e])[..k] == log[..k]
    ensures k < |log| ==> PosAfter(log + [e], k) == PosAfter(log, k)
  {
  }

  /** An executed command reaches past the log of threads already streaming or done, and changes nothing for them. */
  lemma CommandOkStable(scan: Scanner, s: Server, e: Event, s': Server, t: nat, c: Conn)
    requires s'.log == s.log + [e]
    requires CommandOk(scan, s, t, c)
    ensures CommandOk(scan, s', t, c)
  {
    if Acted(c) {
      PrefixStable(s.log, e, c.event);
    }
  }

  lemma StreamOkStable(s: Server, e: Event, s': Server, c: Conn)
    requires s'.log == s.log + [e]
    requires StreamOk(s, c) && !InMutex(c.pc)
    ensures StreamOk(s', c)
  {
    if Started(c) {
      PrefixStable(s.log, e, c.event);
      PrefixStable(s.log, e, c.snapshot);
    }
  }

  /** A thread is not disturbed by another thread's step. */
  lemma OthersStay(scan: Scanner, s: Server, step: Step, t: nat)
    requires Inv(scan, s) && Enabled(s, step)
    requires t < |s.conns| && (step.Accept? || step.t != t)
    ensures ConnOk(scan, Next(scan, s, step), t)
  {
    var s' := Next(scan, s, step);
    var c := s.conns[t];
    assert ConnOk(scan, s, t);
    assert s'.conns[t] == c;
    if !step.Accept? {
      assert ConnOk(scan, s, step.t);
    }
    if step.Execute? {
      var e := s'.log[|s.log|];
      CommandOkStable(scan, s, e, s', t, c);
      StreamOkStable(s, e, s', c);
    }
  }

  lemma RecvKeeps(scan: Scanner, s: Server, t: nat, chunk: Bytes)
    requires Inv(scan, s) && Enabled(s, Recv(t, chunk))
    ensures ConnOk(scan, Next(scan, s, Recv(t, chunk)), t)
  {
    var c := s.conns[t];
    assert ConnOk(scan, s, t);
    var chunks := c.chunks + [chunk];
    FlattenSnoc(c.chunks, chunk);
    assert chunks[..|chunks|] == chunks;
    assert forall j :: 0 < j < |chunks| ==> chunks[..j] == c.chunks[..j];
  }

  lemma ExecuteKeeps(scan: Scanner, s: Server, t: nat, grants: nat)
    requires Inv(scan, s) && Enabled(s, Execute(t, grants))
    ensures var s' := Next(scan, s, Execute(t, grants));
      ConnOk(scan, s', t) && s'.dev == Replay(s'.log)
  {
    hide Act, CommandOf, Complete, FirstComplete;
    var c := s.conns[t];
    assert ConnOk(scan, s, t);
    var e := Event(t, c.packet, CommandOf(scan, c.packet), grants);
    ReplaySnoc(s.log, e);
    assert (s.log + [e])[..|s.log|] == s.log;
  }

  lemma LockStreamKeeps(scan: Scanner, s: Server, t: nat)
    requires Inv(scan, s) && Enabled(s, LockStream(t))
    ensures ConnOk(scan, Next(scan, s, LockStream(t)), t)
  {
    assert ConnOk(scan, s, t);
  }

  /** The next read continues what has been sent, and one that returns nothing means all has been sent. */
  lemma ReadContinues(text: Bytes, start: nat, sent: Bytes)
    requires sent == Slice(text, start, |sent|)
    ensures var bytes := Slice(text, start + |sent|, CHUNK);
      && sent + bytes == Slice(text, start, |sent| + |bytes|)
      && (bytes == [] ==> sent == From(text, start))
  {
    var bytes := Slice(text, start + |sent|, CHUNK);
    SliceIsExact(text, start + |sent|, CHUNK);
    SliceGrows(text, start, sent, bytes);
    if bytes == [] {
      SliceSaturates(text, start, |sent|, |sent| + |text|);
    }
  }

  lemma ReadKeeps(scan: Scanner, s: Server, t: nat)
    requires Inv(scan, s) && Enabled(s, Read(t))
    ensures ConnOk(scan, Next(scan, s, Read(t)), t)
  {
    hide PosAfter, Replay, Slice, From, Contents, FirstComplete, CommandOf, LogOk;
    var c := s.conns[t];
    assert ConnOk(scan, s, t);
    assert s.log[..|s.log|] == s.log;
    assert Text(s, c) == Contents(s.dev);
    assert c.sent + [] == c.sent;
    ReadContinues(Text(s, c), c.start, c.sent);
  }

  lemma SendKeeps(scan: Scanner, s: Server, t: nat, n: nat)
    requires Inv(scan, s) && Enabled(s, Send(t, n))
    ensures ConnOk(scan, Next(scan, s, Send(t, n)), t)
  {
    hide PosAfter, Replay, Slice, From, Contents, FirstComplete, CommandOf, LogOk;
    var c := s.conns[t];
    assert ConnOk(scan, s, t);
    assert c.buffer[..n] + c.buffer[n..] == c.buffer;
    Assoc(c.sent, c.buffer[..n], c.buffer[n..]);
  }

  /** The steps that only take or release the mutex or end the thread. */
  lemma QuietKeeps(scan: Scanner, s: Server, step: Step)
    requires Inv(scan, s) && Enabled(s, step)
    requires step.GiveUp? || step.LockCommand? || step.UnlockCommand? || step.UnlockStream? || step.Close?
    ensures ConnOk(scan, Next(scan, s, step), step.t)
  {
    hide PosAfter, Replay, Slice, From, Contents, FirstComplete, Incomplete, CommandOf, LogOk;
    assert ConnOk(scan, s, step.t);
  }

  lemma MoverOk(scan: Scanner, s: Server, step: Step)
    requires Inv(scan, s) && Enabled(s, step) && !step.Accept?
    ensures ConnOk(scan, Next(scan, s, step), step.t)
  {
    hide Inv, ConnOk, Next;
    match step {
      case Recv(t, chunk) => RecvKeeps(scan, s, t, chunk);
      case Execute(t, grants) => ExecuteKeeps(scan, s, t, grants);
      case LockStream(t) => LockStreamKeeps(scan, s, t);
      case Read(t) => ReadKeeps(scan, s, t);
      case Send(t, n) => SendKeeps(scan, s, t, n);
      case _ => QuietKeeps(scan, s, step);
    }
  }

  lemma LogStays(scan: Scanner, s: Server, step: Step)
    requires Inv(scan, s) && Enabled(s, step)
    ensures LogOk(Next(scan, s, step))
  {
    hide FirstComplete, Incomplete, StreamOk, Replay, CommandOf, Act;
    if !step.Accept? {
      assert ConnOk(scan, s, step.t);
    }
  }

  lemma FreshOk(scan: Scanner, s: Server)
    requires Inv(scan, s)
    ensures ConnOk(scan, Next(scan, s, Accept), |s.conns|)
  {
    assert Next(scan, s, Accept).conns[|s.conns|] == FRESH;
  }

  /** One step of any thread, whatever the others are doing, keeps the invariant. */
  lemma StepKeepsInv(scan: Scanner, s: Server, step: Step)
    requires Inv(scan, s) && Enabled(s, step)
    ensures Inv(scan, Next(scan, s, step))
  {
    hide ConnOk, LogOk, Act, CommandOf, Replay;
    var s' := Next(scan, s, step);
    forall t | 0 <= t < |s'.conns|
      ensures ConnOk(scan, s', t)
    {
      if t == |s.conns| {
        FreshOk(scan, s);
      } else if step.Accept? || step.t != t {
        OthersStay(scan, s, step, t);
      } else {
        MoverOk(scan, s, step);
      }
    }
    LogStays(scan, s, step);
    if step.Execute? {
      ExecuteKeeps(scan, s, step.t, step.grants);
    }
  }

  lemma {:induction false} RunKeepsInv(scan: Scanner, s: Server, steps: seq<Step>)
    requires Inv(scan, s) && Legal(scan, s, steps)
    ensures Inv(scan, Run(scan, s, steps))
    decreases |steps|
  {
    if steps != [] {
      StepKeepsInv(scan, s, steps[0]);
      RunKeepsInv(scan, Next(scan, s, steps[0]), steps[1..]);
    }
  }

  /** Every reachable state of every interleaving satisfies the invariant. */
  lemma ReachableInv(scan: Scanner, steps: seq<Step>)
    requires Legal(scan, INIT, steps)
    ensures Inv(scan, Run(scan, INIT, steps))
  {
    InitInv(scan);
    RunKeepsInv(scan, INIT, steps);
  }
}
