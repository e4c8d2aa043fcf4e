/** What the protocol guarantees for every interleaving of any number of client threads. */
module ServerTheorems {
  import opened ByteStrings
  import opened DeviceSpec
  import opened ServerSpec
  import opened ServerProtocol
  import opened ServerInvariant

  // ----- Mutual exclusion -----

  /** At most one thread is between a lock and the matching unlock. */
  lemma MutualExclusion(scan: Scanner, steps: seq<Step>, t: nat, u: nat)
    requires Legal(scan, INIT, steps)
    requires t < |Run(scan, INIT, steps).conns| && u < |Run(scan, INIT, steps).conns|
    requires InMutex(Run(scan, INIT, steps).conns[t].pc) && InMutex(Run(scan, INIT, steps).conns[u].pc)
    ensures t == u
  {
    var s := Run(scan, INIT, steps);
    ReachableInv(scan, steps);
    assert ConnOk(scan, s, t) && ConnOk(scan, s, u);
  }

  // ----- Snapshot streaming -----

  /** What is fixed once a thread has taken the mutex to stream. */
  ghost predicate SameStream(s: Server, s': Server, t: nat) {
    && t < |s.conns| <= |s'.conns| && Started(s.conns[t]) && Started(s'.conns[t])
    && s'.conns[t].start == s.conns[t].start && s'.conns[t].snapshot == s.conns[t].snapshot
    && |s.log| <= |s'.log| && s'.log[..|s.log|] == s.log
  }

  lemma StepKeepsStream(scan: Scanner, s: Server, step: Step, t: nat)
    requires Inv(scan, s) && Enabled(s, step)
    requires t < |s.conns| && Started(s.conns[t])
    ensures SameStream(s, Next(scan, s, step), t)
  {
    hide CommandOk, StreamOk, LogOk, Act, CommandOf, Replay, FirstComplete, Incomplete;
    assert ConnOk(scan, s, t);
  }

  lemma {:induction false} RunKeepsStream(scan: Scanner, s: Server, steps: seq<Step>, t: nat)
    requires Inv(scan, s) && Legal(scan, s, steps)
    requires t < |s.conns| && Started(s.conns[t])
    ensures SameStream(s, Run(scan, s, steps), t)
    decreases |steps|
  {
    hide Inv, Next;
    if steps != [] {
      var s1 := Next(scan, s, steps[0]);
      StepKeepsInv(scan, s, steps[0]);
      StepKeepsStream(scan, s, steps[0], t);
      RunKeepsStream(scan, s1, steps[1..], t);
      var s2 := Run(scan, s1, steps[1..]);
      assert s2.log[..|s.log|] == s2.log[..|s1.log|][..|s.log|];
    }
  }

  /** Thread `t` took the mutex to stream with the k-th step. */
  ghost predicate StreamsAt(scan: Scanner, steps: seq<Step>, t: nat, k: nat) {
    && k < |steps| && steps[k] == LockStream(t)
    && Legal(scan, INIT, steps[..k]) && t < |Run(scan, INIT, steps[..k]).conns|
  }

  lemma {:induction false} FindLock(scan: Scanner, s: Server, steps: seq<Step>, t: nat) returns (k: nat)
    requires Inv(scan, s) && Legal(scan, s, steps)
    requires t < |s.conns| ==> !Started(s.conns[t])
    requires t < |Run(scan, s, steps).conns| && Started(Run(scan, s, steps).conns[t])
    ensures k < |steps| && steps[k] == LockStream(t)
    decreases |steps|
  {
    var s1 := Next(scan, s, steps[0]);
    if t < |s1.conns| && Started(s1.conns[t]) {
      assert t < |s.conns| ==> ConnOk(scan, s, t);
      k := 0;
    } else {
      StepKeepsInv(scan, s, steps[0]);
      k := FindLock(scan, s1, steps[1..], t);
      k := k + 1;
    }
  }

  /** The thread was at its lock, and its response is fixed by the state it found there. */
  lemma StreamFromLock(scan: Scanner, steps: seq<Step>, t: nat, k: nat)
    requires Legal(scan, INIT, steps) && k < |steps| && steps[k] == LockStream(t)
    ensures StreamsAt(scan, steps, t, k)
    ensures var before := Run(scan, INIT, steps[..k]); var after := Run(scan, INIT, steps);
      && t < |after.conns|
      && var c := after.conns[t];
         Started(c) && c.start == before.conns[t].pos
         && c.snapshot <= |after.log| && Text(after, c) == Contents(before.dev)
  {
    hide ConnOk, LogOk;
    assert steps == steps[..k] + steps[k..];
    RunAppend(scan, INIT, steps[..k], steps[k..]);
    ReachableInv(scan, steps[..k]);
    var before := Run(scan, INIT, steps[..k]);
    var locked := Next(scan, before, steps[k]);
    assert Run(scan, before, steps[k..]) == Run(scan, locked, steps[k..][1..]);
    StepKeepsInv(scan, before, steps[k]);
    RunKeepsStream(scan, locked, steps[k..][1..], t);
    assert locked.log == before.log;
  }

  /** The response so far is a beginning of `text` from `start` on, and when finished it is all of that. */
  ghost predicate ResponseIs(c: Conn, text: Bytes, start: nat) {
    && c.sent + c.buffer == Slice(text, start, |c.sent| + |c.buffer|)
    && (c.answered ==> c.sent == From(text, start))
  }

  lemma ResponseOk(scan: Scanner, s: Server, t: nat)
    requires Inv(scan, s) && t < |s.conns| && Started(s.conns[t])
    ensures s.conns[t].snapshot <= |s.log|
    ensures ResponseIs(s.conns[t], Text(s, s.conns[t]), s.conns[t].start)
  {
    assert ConnOk(scan, s, t);
  }

  /**
   * Snapshot streaming: whatever the other threads do meanwhile, and however the response is gathered by
   * reads and cut up by sends, a finished response is what the device held when the thread took the mutex
   * to stream, from its descriptor's position to the end; an unfinished one is a beginning of that.
   */
  lemma SnapshotStreaming(scan: Scanner, steps: seq<Step>, t: nat)
    requires Legal(scan, INIT, steps)
    requires t < |Run(scan, INIT, steps).conns| && Started(Run(scan, INIT, steps).conns[t])
    ensures exists k: nat :: StreamsAt(scan, steps, t, k)
    ensures forall k: nat :: StreamsAt(scan, steps, t, k) ==>
      var before := Run(scan, INIT, steps[..k]);
      ResponseIs(Run(scan, INIT, steps).conns[t], Contents(before.dev), before.conns[t].pos)
  {
    hide Inv, Next, Started, ResponseIs, Contents, Text;
    var s := Run(scan, INIT, steps);
    InitInv(scan);
    ReachableInv(scan, steps);
    ResponseOk(scan, s, t);
    var k0 := FindLock(scan, INIT, steps, t);
    StreamFromLock(scan, steps, t, k0);
    forall k: nat | StreamsAt(scan, steps, t, k)
      ensures var before := Run(scan, INIT, steps[..k]);
        ResponseIs(s.conns[t], Contents(before.dev), before.conns[t].pos)
    {
      StreamFromLock(scan, steps, t, k);
    }
  }
}
