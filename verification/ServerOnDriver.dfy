/** The server on the driver: any schedule of the threads, on one device with one open file a thread. */
module ServerOnDriver {
  import opened ByteStrings
  import opened KernelHeap
  import opened DeviceSpec
  import opened CharDevice
  import DriverRuns
  import opened ServerSpec
  import ClientThread
  import opened ServerProtocol
  import opened ServerInvariant
  import opened ServerTheorems
  import opened ServerLiveness

  /** A client thread: where it stands, its open file, and its private memory. */
  class Worker {
    const filp: File
    var pc: Pc
    var packet: Bytes
    var buffer: Bytes
    var sent: Bytes

    /** The thread is where the protocol has it. */
    ghost predicate Is(c: Conn)
      reads this, filp
    {
      pc == c.pc && packet == c.packet && filp.pos == c.pos && buffer == c.buffer && sent == c.sent
    }

    constructor ()
      ensures Is(FRESH) && fresh(filp)
    {
      filp := new File();
      pc, packet, buffer, sent := Receiving, [], [], [];
    }

    /** A step that concerns the thread and at most the mutex. */
    method Advance(scan: Scanner, step: Step, ghost s: Server)
      requires Enabled(s, step) && !step.Accept? && !step.Execute? && !step.Read?
      requires Is(s.conns[step.t])
      modifies this
      ensures Is(Move(scan, s, step))
    {
      match step {
        case Recv(_, chunk) =>
          packet := packet + chunk;
          pc := if Complete(packet) then WantCommand else Receiving;
        case GiveUp(_) => pc := Closing;
        case LockCommand(_) => pc := Commanding;
        case UnlockCommand(_) => pc := WantStream;
        case LockStream(_) => pc := Streaming;
        case Send(_, n) => buffer, sent := buffer[n..], sent + buffer[..n];
        case UnlockStream(_) => pc := Closing;
        case Close(_) => pc := Closed;
      }
    }

    /** The device command, with the given number of allocations. */
    method Execute(scan: Scanner, dev: AesdDevice, t: nat, grants: nat, ghost s: Server)
      requires dev.Valid() && dev.Fits() && dev.Abs() == s.dev
      requires Enabled(s, Step.Execute(t, grants)) && Is(s.conns[t])
      modifies this, filp, dev, dev.heap, dev.ring, dev.ring.entry, dev.partialBuffer
      ensures dev.Valid() && dev.heap.Evolves()
      ensures dev.partialBuffer == null || dev.partialBuffer == old(dev.partialBuffer) || fresh(dev.partialBuffer)
      ensures dev.Abs() == Next(scan, s, Step.Execute(t, grants)).dev && Is(Move(scan, s, Step.Execute(t, grants)))
    {
      hide AesdDevice.Valid, AesdDevice.Fits, Act, CommandOf;
      DriverRuns.SetGrants(dev, grants);
      ClientThread.Command(dev, filp, packet, scan);
      pc := Commanded;
    }

    /** One read of the device into the thread's buffer. */
    method Read(scan: Scanner, dev: AesdDevice, t: nat, ghost s: Server)
      requires dev.Valid() && dev.Fits() && dev.Abs() == s.dev
      requires Enabled(s, Step.Read(t)) && Is(s.conns[t])
      modifies this, filp
      ensures dev.Valid() && dev.Abs() == s.dev
      ensures Is(Move(scan, s, Step.Read(t)))
    {
      hide AesdDevice.Valid, AesdDevice.Fits, Slice, Contents;
      var data := new byte[CHUNK + 1];
      var n := ClientThread.ReadChunk(dev, filp, data);
      buffer := data[..n];
      pc := if n == 0 then Streamed else Streaming;
    }
  }

  /** The files of the threads. */
  ghost function Files(workers: seq<Worker>): set<File> {
    set w | w in workers :: w.filp
  }

  /** Device, threads and mutex together stand for the state of the protocol. */
  ghost predicate Stands(dev: AesdDevice, workers: seq<Worker>, owner: Option<nat>, s: Server)
    reads dev, dev.heap, dev.ring, dev.ring.entry, dev.ring.owned, dev.partialBuffer
    reads workers, Files(workers)
  {
    && dev.Valid() && dev.Abs() == s.dev
    && owner == s.owner && |workers| == |s.conns|
    && (forall t :: 0 <= t < |workers| ==> workers[t].Is(s.conns[t]))
    && (forall t, u :: 0 <= t < u < |workers| ==>
          workers[t] != workers[u] && workers[t].filp != workers[u].filp)
  }

  /** What a step does to the mutex. */
  function Mutex(owner: Option<nat>, step: Step): Option<nat> {
    match step
    case LockCommand(t) => Some(t)
    case LockStream(t) => Some(t)
    case UnlockCommand(_) => None
    case UnlockStream(_) => None
    case _ => owner
  }

  /** What a step means for the state. */
  lemma NextOf(scan: Scanner, s: Server, step: Step)
    requires Enabled(s, step)
    ensures if step.Accept? then Next(scan, s, step) == s.(conns := s.conns + [FRESH])
      else
        && Next(scan, s, step).conns == s.conns[step.t := Move(scan, s, step)]
        && Next(scan, s, step).owner == Mutex(s.owner, step)
        && (!step.Execute? ==> Next(scan, s, step).dev == s.dev)
  {
    hide Act, CommandOf, Move;
  }

  /** One step, as the thread that takes it and the device see it. */
  method TakeStep(scan: Scanner, dev: AesdDevice, worker: Worker, step: Step, ghost s: Server)
    requires dev.Valid() && dev.Fits() && dev.Abs() == s.dev
    requires Enabled(s, step) && !step.Accept? && worker.Is(s.conns[step.t])
    modifies worker, worker.filp, dev, dev.heap, dev.ring, dev.ring.entry, dev.partialBuffer
    ensures dev.Valid() && dev.heap.Evolves()
    ensures dev.partialBuffer == null || dev.partialBuffer == old(dev.partialBuffer) || fresh(dev.partialBuffer)
    ensures dev.Abs() == Next(scan, s, step).dev && worker.Is(Move(scan, s, step))
  {
    hide AesdDevice.Valid, AesdDevice.Fits, Worker.Is, Next, Move;
    NextOf(scan, s, step);
    if step.Execute? {
      worker.Execute(scan, dev, step.t, step.grants, s);
    } else if step.Read? {
      worker.Read(scan, dev, step.t, s);
    } else {
      worker.Advance(scan, step, s);
    }
  }

  /** A new client gets a thread of its own. */
  method AcceptClient(scan: Scanner, dev: AesdDevice, workers: seq<Worker>, owner: Option<nat>, ghost s: Server)
    returns (workers': seq<Worker>)
    requires Stands(dev, workers, owner, s)
    ensures Stands(dev, workers', owner, Next(scan, s, Accept))
    ensures |workers'| == |workers| + 1 && workers'[..|workers|] == workers
    ensures fresh(workers'[|workers|]) && fresh(workers'[|workers|].filp)
  {
    hide AesdDevice.Valid, Next;
    NextOf(scan, s, Accept);
    var worker := new Worker();
    workers' := workers + [worker];
  }

  /** One step of one thread. */
  method Perform(scan: Scanner, dev: AesdDevice, workers: seq<Worker>, owner: Option<nat>, step: Step, ghost s: Server)
    requires Stands(dev, workers, owner, s) && |Contents(s.dev)| <= LOFF_MAX
    requires Enabled(s, step) && !step.Accept?
    modifies dev, dev.heap, dev.ring, dev.ring.entry, dev.partialBuffer, workers, Files(workers)
    ensures dev.heap.Evolves()
    ensures dev.partialBuffer == null || dev.partialBuffer == old(dev.partialBuffer) || fresh(dev.partialBuffer)
    ensures Stands(dev, workers, Mutex(owner, step), Next(scan, s, step))
  {
    hide AesdDevice.Valid, Worker.Is, Next, Move, Mutex;
    NextOf(scan, s, step);
    TakeStep(scan, dev, workers[step.t], step, s);
  }

  /** At no moment of the schedule is more to be read than a position can count. */
  ghost predicate ScheduleFits(scan: Scanner, s: Server, steps: seq<Step>)
    requires Legal(scan, s, steps)
    decreases |steps|
  {
    |Contents(s.dev)| <= LOFF_MAX && (steps == [] || ScheduleFits(scan, Next(scan, s, steps[0]), steps[1..]))
  }

  /** Bytes the clients send. */
  function Received(steps: seq<Step>): nat {
    if steps == [] then 0 else (if steps[0].Recv? then |steps[0].chunk| else 0) + Received(steps[1..])
  }

  lemma {:induction false} SumSnoc(f: Conn -> nat, cs: seq<Conn>, c: Conn)
    ensures Sum(f, cs + [c]) == Sum(f, cs) + f(c)
  {
    if cs == [] {
      assert [] + [c] == [c] && [c][1..] == [];
    } else {
      assert (cs + [c])[1..] == cs[1..] + [c];
      SumSnoc(f, cs[1..], c);
    }
  }

  lemma BoundGrows(scan: Scanner, s: Server, step: Step)
    requires Inv(scan, s) && Enabled(s, step)
    ensures Bound(Next(scan, s, step)) <= Bound(s) + if step.Recv? then |step.chunk| else 0
  {
    hide Complete, Act, CommandOf, Contents, Inv;
    if Internal(step) {
      BoundShrinks(scan, s, step);
    } else if step.Accept? {
      SumSnoc(Unwritten(), s.conns, FRESH);
    } else {
      SumUpdate(Unwritten(), s.conns, step.t, Move(scan, s, step));
    }
  }

  /** It is enough that all that is ever received fits. */
  lemma {:induction false} EnoughRoomForSchedule(scan: Scanner, s: Server, steps: seq<Step>)
    requires Inv(scan, s) && Legal(scan, s, steps)
    requires Bound(s) + Received(steps) <= LOFF_MAX
    ensures ScheduleFits(scan, s, steps)
    decreases |steps|
  {
    hide Inv, Next, Bound;
    ContentsWithinBound(s);
    if steps != [] {
      StepKeepsInv(scan, s, steps[0]);
      BoundGrows(scan, s, steps[0]);
      EnoughRoomForSchedule(scan, Next(scan, s, steps[0]), steps[1..]);
    }
  }

  /** What is left of a schedule, seen from the state it has led to. */
  ghost predicate Ahead(scan: Scanner, steps: seq<Step>, i: nat, s: Server) {
    && i <= |steps| && Legal(scan, INIT, steps)
    && Legal(scan, s, steps[i..]) && ScheduleFits(scan, s, steps[i..])
    && Run(scan, s, steps[i..]) == Run(scan, INIT, steps)
  }

  lemma AheadStart(scan: Scanner, steps: seq<Step>)
    requires Legal(scan, INIT, steps) && ScheduleFits(scan, INIT, steps)
    ensures Ahead(scan, steps, 0, INIT)
  {
    assert steps[0..] == steps;
  }

  lemma AheadStep(scan: Scanner, steps: seq<Step>, i: nat, s: Server)
    requires Ahead(scan, steps, i, s) && i < |steps|
    ensures Enabled(s, steps[i]) && |Contents(s.dev)| <= LOFF_MAX
    ensures Ahead(scan, steps, i + 1, Next(scan, s, steps[i]))
  {
    assert steps[i..][1..] == steps[i + 1..];
  }

  lemma AheadEnd(scan: Scanner, steps: seq<Step>, s: Server)
    requires Ahead(scan, steps, |steps|, s)
    ensures s == Run(scan, INIT, steps)
  {
    assert steps[|steps|..] == [];
  }

  /**
   * The protocol is what the driver does: under every schedule of the threads the concrete device, the
   * positions of the open files and what each client has been sent are those of the protocol.  What is
   * proved of all its runs therefore holds of the server on the driver.
   */
  method Play(heap: Heap, scan: Scanner, steps: seq<Step>)
    returns (dev: AesdDevice, workers: seq<Worker>, owner: Option<nat>)
    requires heap.Valid() && heap.live == {}
    requires Legal(scan, INIT, steps) && ScheduleFits(scan, INIT, steps)
    modifies heap
    ensures dev.heap == heap && heap.Evolves()
    ensures Stands(dev, workers, owner, Run(scan, INIT, steps))
  {
    hide AesdDevice.Valid, Next, Ahead, Stands;
    dev := new AesdDevice(heap);
    workers, owner := [], None;
    ghost var s := INIT;
    AheadStart(scan, steps);
    InitStands(dev);
    for i := 0 to |steps|
      invariant Ahead(scan, steps, i, s)
      invariant dev.heap == heap && heap.Evolves() && fresh(dev) && fresh(dev.ring) && fresh(dev.ring.entry)
      invariant dev.partialBuffer == null || fresh(dev.partialBuffer)
      invariant forall t :: 0 <= t < |workers| ==> fresh(workers[t]) && fresh(workers[t].filp)
      invariant Stands(dev, workers, owner, s)
    {
      AheadStep(scan, steps, i, s);
      if steps[i].Accept? {
        workers := AcceptClient(scan, dev, workers, owner, s);
      } else {
        Perform(scan, dev, workers, owner, steps[i], s);
        owner := Mutex(owner, steps[i]);
      }
      s := Next(scan, s, steps[i]);
    }
    AheadEnd(scan, steps, s);
  }

  /**
   * Snapshot streaming on the driver: what a client has been sent, followed by what its thread has read but
   * not yet sent, is a slice of what the device held when the thread took the mutex to stream; once the
   * reads have come to their end it is all of it, from the descriptor's position on.
   */
  lemma ClientsGetSnapshots(scan: Scanner, dev: AesdDevice, workers: seq<Worker>, owner: Option<nat>,
                            steps: seq<Step>, t: nat, k: nat)
    requires Legal(scan, INIT, steps) && Stands(dev, workers, owner, Run(scan, INIT, steps))
    requires t < |workers| && StreamsAt(scan, steps, t, k)
    ensures var before := Run(scan, INIT, steps[..k]);
      var text, start := Contents(before.dev), before.conns[t].pos;
      var got := workers[t].sent + workers[t].buffer;
      && got == Slice(text, start, |got|)
      && (workers[t].pc == Streamed ==> workers[t].sent == From(text, start))
  {
    hide AesdDevice.Valid, Inv, Contents, Next;
    var s := Run(scan, INIT, steps);
    StreamFromLock(scan, steps, t, k);
    SnapshotStreaming(scan, steps, t);
    ReachableInv(scan, steps);
    if s.conns[t].pc == Streamed {
      StreamedIsAll(scan, s, t);
    }
  }

  lemma StreamedIsAll(scan: Scanner, s: Server, t: nat)
    requires Inv(scan, s) && t < |s.conns| && s.conns[t].pc == Streamed
    ensures s.conns[t].snapshot <= |s.log|
    ensures s.conns[t].sent == From(Text(s, s.conns[t]), s.conns[t].start)
  {
    assert ConnOk(scan, s, t);
  }

  lemma InitStands(dev: AesdDevice)
    requires dev.Valid() && dev.Abs() == EMPTY
    ensures Stands(dev, [], None, INIT)
  {
  }
}
