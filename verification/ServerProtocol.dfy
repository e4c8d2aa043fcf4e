/**
 * The socket server: any number of client threads over one device and one mutex.  A thread's program is
 * cut into steps at every operation other threads can observe; a run interleaves the steps arbitrarily.
 */
module ServerProtocol {
  import opened ByteStrings
  import opened DeviceSpec
  import opened ServerSpec

  /**
   * Where a thread stands in data_processing.  It holds the mutex from Commanding to Commanded and from
   * Streaming to Streamed.
   */
  datatype Pc = Receiving | WantCommand | Commanding | Commanded | WantStream | Streaming | Streamed | Closing | Closed

  datatype Conn = Conn(
    pc: Pc,
    chunks: seq<Bytes>,  // what recv has returned so far
    packet: Bytes,       // packet->data
    pos: nat,            // position of this thread's own descriptor
    buffer: Bytes,       // what has been read but not yet sent
    sent: Bytes,         // everything sent to the client
    answered: bool,      // the response is complete
    event: nat,          // which of the device's commands was this thread's
    start: nat,          // position at which the response starts
    snapshot: nat        // number of device commands at the moment the response starts
  )

  const FRESH: Conn := Conn(Receiving, [], [], 0, [], [], false, 0, 0, 0)

  /** A command the device has executed, and the thread and packet it came from. */
  datatype Event = Event(tid: nat, packet: Bytes, command: Command, grants: nat)

  datatype Server = Server(dev: Device, owner: Option<nat>, conns: seq<Conn>, log: seq<Event>)

  const INIT: Server := Server(EMPTY, None, [], [])

  datatype Step =
    | Accept
    | Recv(t: nat, chunk: Bytes)
    | GiveUp(t: nat)              // recv fails, or the server is asked to exit
    | LockCommand(t: nat)
    | Execute(t: nat, grants: nat)
    | UnlockCommand(t: nat)
    | LockStream(t: nat)
    | Read(t: nat)
    | Send(t: nat, n: nat)
    | UnlockStream(t: nat)
    | Close(t: nat)

  predicate Enabled(s: Server, step: Step) {
    step.Accept? ||
    (step.t < |s.conns| &&
     var c := s.conns[step.t];
     match step
     case Recv(_, chunk) => c.pc == Receiving && |chunk| <= CHUNK
     case GiveUp(_) => c.pc == Receiving
     case LockCommand(_) => c.pc == WantCommand && s.owner == None
     case Execute(_, _) => c.pc == Commanding
     case UnlockCommand(_) => c.pc == Commanded
     case LockStream(_) => c.pc == WantStream && s.owner == None
     case Read(_) => c.pc == Streaming && c.buffer == []
     case Send(_, n) => c.pc == Streaming && 1 <= n <= |c.buffer|
     case UnlockStream(_) => c.pc == Streamed
     case Close(_) => c.pc == Closing)
  }

  /** What a step does to the thread that takes it. */
  function Move(scan: Scanner, s: Server, step: Step): Conn
    requires Enabled(s, step) && !step.Accept?
  {
    var c := s.conns[step.t];
    match step
    case Recv(_, chunk) =>
      var packet := c.packet + chunk;
      c.(chunks := c.chunks + [chunk], packet := packet, pc := if Complete(packet) then WantCommand else Receiving)
    case GiveUp(_) => c.(pc := Closing)
    case LockCommand(_) => c.(pc := Commanding)
    case Execute(_, grants) =>
      c.(pc := Commanded, event := |s.log|,
         pos := Act(s.dev, c.pos, CommandOf(scan, c.packet), c.packet, grants).1)
    case UnlockCommand(_) => c.(pc := WantStream)
    case LockStream(_) => c.(pc := Streaming, start := c.pos, snapshot := |s.log|)
    case Read(_) =>
      var bytes := Slice(Contents(s.dev), c.pos, CHUNK);
      c.(buffer := bytes, pos := c.pos + |bytes|, pc := if bytes == [] then Streamed else Streaming)
    case Send(_, n) => c.(buffer := c.buffer[n..], sent := c.sent + c.buffer[..n])
    case UnlockStream(_) => c.(pc := Closing, answered := true)
    case Close(_) => c.(pc := Closed)
  }

  function Next(scan: Scanner, s: Server, step: Step): Server
    requires Enabled(s, step)
  {
    if step.Accept? then s.(conns := s.conns + [FRESH])
    else
      var s' := s.(conns := s.conns[step.t := Move(scan, s, step)]);
      var c := s.conns[step.t];
      match step
      case LockCommand(t) => s'.(owner := Some(t))
      case LockStream(t) => s'.(owner := Some(t))
      case UnlockCommand(_) => s'.(owner := None)
      case UnlockStream(_) => s'.(owner := None)
      case Execute(t, grants) =>
        var command := CommandOf(scan, c.packet);
        s'.(dev := Act(s.dev, c.pos, command, c.packet, grants).0,
            log := s.log + [Event(t, c.packet, command, grants)])
      case _ => s'
  }

  ghost predicate Legal(scan: Scanner, s: Server, steps: seq<Step>)
    decreases |steps|
  {
    steps == [] || (Enabled(s, steps[0]) && Legal(scan, Next(scan, s, steps[0]), steps[1..]))
  }

  ghost function Run(scan: Scanner, s: Server, steps: seq<Step>): Server
    requires Legal(scan, s, steps)
    decreases |steps|
  {
    if steps == [] then s else Run(scan, Next(scan, s, steps[0]), steps[1..])
  }

  lemma {:induction false} RunAppend(scan: Scanner, s: Server, a: seq<Step>, b: seq<Step>)
    requires Legal(scan, s, a + b)
    ensures Legal(scan, s, a) && Legal(scan, Run(scan, s, a), b)
    ensures Run(scan, s, a + b) == Run(scan, Run(scan, s, a), b)
    decreases |a|
  {
    if a == [] {
      assert a + b == b;
    } else {
      assert (a + b)[1..] == a[1..] + b;
      RunAppend(scan, Next(scan, s, a[0]), a[1..], b);
    }
  }

  // ----- The device, replayed -----

  /** The device after the commands of a log, in order. */
  function Replay(log: seq<Event>): Device
    decreases |log|
  {
    if log == [] then EMPTY
    else
      var e := log[|log| - 1];
      Act(Replay(log[..|log| - 1]), 0, e.command, e.packet, e.grants).0
  }

  /** The position a fresh descriptor has after the command of event `k`. */
  function PosAfter(log: seq<Event>, k: nat): nat
    requires k < |log|
  {
    Act(Replay(log[..k]), 0, log[k].command, log[k].packet, log[k].grants).1
  }

  /** What the device held when this thread's response started. */
  function Text(s: Server, c: Conn): Bytes
    requires c.snapshot <= |s.log|
  {
    Contents(Replay(s.log[..c.snapshot]))
  }

  // ----- The invariant -----

  predicate InMutex(pc: Pc) {
    pc == Commanding || pc == Commanded || pc == Streaming || pc == Streamed
  }

  /** The thread's one command has been executed. */
  predicate Acted(c: Conn) {
    c.pc in {Commanded, WantStream, Streaming, Streamed} || c.answered
  }

  /** The thread has taken the mutex to stream. */
  predicate Started(c: Conn) {
    c.pc in {Streaming, Streamed} || c.answered
  }

  /** No prefix of the chunks completes the packet. */
  ghost predicate Incomplete(chunks: seq<Bytes>) {
    forall j :: 0 < j <= |chunks| ==> !Complete(Flatten(chunks[..j]))
  }

  ghost predicate PacketOk(c: Conn) {
    && c.packet == Flatten(c.chunks)
    && (if c.pc in {WantCommand, Commanding} || Acted(c)
        then FirstComplete(c.chunks, |c.chunks|) else Incomplete(c.chunks))
    && (c.answered ==> c.pc in {Closing, Closed})
  }

  ghost predicate CommandOk(scan: Scanner, s: Server, t: nat, c: Conn) {
    if Acted(c) then
      && c.event < |s.log|
      && s.log[c.event].tid == t && s.log[c.event].packet == c.packet
      && s.log[c.event].command == CommandOf(scan, c.packet)
      && (!Started(c) ==> c.pos == PosAfter(s.log, c.event) && c.sent == [] && c.buffer == [])
    else
      c.pos == 0 && c.sent == [] && c.buffer == []
  }

  ghost predicate StreamOk(s: Server, c: Conn) {
    Started(c) ==>
      && c.event < c.snapshot <= |s.log|
      && c.start == PosAfter(s.log, c.event)
      && c.pos == c.start + |c.sent| + |c.buffer|
      && c.sent + c.buffer == Slice(Text(s, c), c.start, |c.sent| + |c.buffer|)
      && (c.pc in {Streaming, Streamed} ==> c.snapshot == |s.log|)
      && (c.pc == Streamed || c.answered ==> c.buffer == [] && c.sent == From(Text(s, c), c.start))
  }

  ghost predicate ConnOk(scan: Scanner, s: Server, t: nat)
    requires t < |s.conns|
  {
    var c := s.conns[t];
    && PacketOk(c) && CommandOk(scan, s, t, c) && StreamOk(s, c)
    && (InMutex(c.pc) <==> s.owner == Some(t))
  }

  /** Every command was executed for the thread it names, and is that thread's only one. */
  ghost predicate LogOk(s: Server) {
    forall k :: 0 <= k < |s.log| ==>
      s.log[k].tid < |s.conns| && Acted(s.conns[s.log[k].tid]) && s.conns[s.log[k].tid].event == k
  }

  ghost predicate Inv(scan: Scanner, s: Server) {
    && s.dev == Replay(s.log)
    && (forall t :: 0 <= t < |s.conns| ==> ConnOk(scan, s, t))
    && LogOk(s)
    && (s.owner.Some? ==> s.owner.value < |s.conns|)
  }

  lemma InitInv(scan: Scanner)
    ensures Inv(scan, INIT)
  {
  }
}
