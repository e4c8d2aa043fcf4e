/** The driver's file operations as values: any calls, on any descriptors, in any order. */
module DriverCalls {
  import opened ByteStrings
  import opened LineSplitting
  import opened DeviceSpec

  /**
   * One call, with what the kernel grants it: allocations and user copies.  Descriptors are numbered in
   * the order in which they are opened.
   */
  datatype Call =
    | OpenCall
    | CloseCall(fd: nat)
    | WriteCall(fd: nat, data: Bytes, copyOk: bool, grants: nat)
    | ReadCall(fd: nat, count: nat, copies: nat)
    | LlseekCall(fd: nat, offset: Offset, whence: Whence)
    | SeekCall(fd: nat, writeCmd: nat, writeCmdOffset: nat, copyOk: bool)
    | OtherIoctl(fd: nat)

  /** A call's return value, and what a read has put into its buffer. */
  datatype Answer = Answer(reply: Reply, bytes: Bytes)

  /** The abstract device, and the position of every descriptor ever opened; a closed one has none. */
  datatype World = World(dev: Device, pos: seq<Option<nat>>)

  const LOADED: World := World(EMPTY, [])

  predicate IsOpen(w: World, fd: nat) {
    fd < |w.pos| && w.pos[fd].Some?
  }

  /** An operation through a descriptor at position `p`. */
  function Operate(d: Device, p: nat, c: Call): (Device, nat, Answer) {
    match c
    case WriteCall(_, data, copyOk, grants) =>
      var (dev, reply) := Write(d, data, copyOk, grants);
      (dev, p, Answer(reply, []))
    case ReadCall(_, count, copies) =>
      var bytes := ReadAt(d, p, count, copies);
      (d, p + |bytes|, Answer(ReadReply(d, p, count, copies), bytes))
    case LlseekCall(_, offset, whence) =>
      var (pos, reply) := Llseek(p, offset, whence);
      (d, pos, Answer(reply, []))
    case SeekCall(_, writeCmd, writeCmdOffset, copyOk) =>
      if !copyOk then (d, p, Answer(Failed(EFAULT), []))
      else
        var (pos, reply) := Seek(d, p, writeCmd, writeCmdOffset);
        (d, pos, Answer(reply, []))
    case _ => (d, p, Answer(Failed(ENOTTY), []))
  }

  function Exec(w: World, c: Call): (World, Answer) {
    if c.OpenCall? then (w.(pos := w.pos + [Some(0)]), Answer(Opened(|w.pos|), []))
    else if !IsOpen(w, c.fd) then (w, Answer(Failed(EBADF), []))
    else if c.CloseCall? then (w.(pos := w.pos[c.fd := None]), Answer(Done, []))
    else
      var (dev, pos, answer) := Operate(w.dev, w.pos[c.fd].value, c);
      (World(dev, w.pos[c.fd := Some(pos)]), answer)
  }

  function ExecAll(w: World, calls: seq<Call>): (r: (World, seq<Answer>))
    ensures |r.1| == |calls|
    decreases |calls|
  {
    if calls == [] then (w, [])
    else
      var (w1, answer) := Exec(w, calls[0]);
      var (w2, answers) := ExecAll(w1, calls[1..]);
      (w2, [answer] + answers)
  }

  /** The first call, and the rest. */
  lemma ExecFirst(w: World, calls: seq<Call>)
    requires calls != []
    ensures var (w1, answer) := Exec(w, calls[0]);
      && ExecAll(w, calls).0 == ExecAll(w1, calls[1..]).0
      && ExecAll(w, calls).1[0] == answer && ExecAll(w, calls).1[1..] == ExecAll(w1, calls[1..]).1
  {
    var (w1, answer) := Exec(w, calls[0]);
    ConsParts(answer, ExecAll(w1, calls[1..]).1);
  }

  // ----- Errors and effects of one call -----

  ghost predicate OnOpen(w: World, c: Call) {
    !c.OpenCall? && IsOpen(w, c.fd)
  }

  /** A copy between kernel and user space that the call gets to fails. */
  predicate CopyFails(d: Device, p: nat, c: Call) {
    || (c.WriteCall? && 0 < c.grants && !c.copyOk)
    || (c.ReadCall? && c.copies < Touched(Window(d.lines), p, c.count))
    || (c.SeekCall? && !c.copyOk)
  }

  /** The llseek leads out of range, or the seek names no stored byte. */
  predicate LeadsNowhere(d: Device, p: nat, c: Call) {
    match c
    case LlseekCall(_, offset, SEEK_SET) => offset < 0
    case LlseekCall(_, offset, SEEK_CUR) => !(0 <= p + offset <= LOFF_MAX)
    case LlseekCall(_, offset, SEEK_END) => !(0 <= 10 + offset <= LOFF_MAX)
    case LlseekCall(_, _, OTHER) => true
    case SeekCall(_, x, y, copyOk) => copyOk && !(x < |Window(d.lines)| && y < |Window(d.lines)[x]|)
    case _ => false
  }

  /** Which calls fail, and how, in terms of what the caller passes and the kernel grants. */
  lemma ErrorsExactly(w: World, c: Call)
    requires WellFormed(w.dev) && PositionsFit(w)
    ensures var reply := Exec(w, c).1.reply;
      && (reply == Failed(EBADF) <==> !c.OpenCall? && !IsOpen(w, c.fd))
      && (reply == Failed(ENOTTY) <==> OnOpen(w, c) && c.OtherIoctl?)
      && (reply == Failed(ENOMEM) <==>
            OnOpen(w, c) && c.WriteCall? && (c.grants == 0 || (c.copyOk && c.grants < 2 + Newlines(c.data))))
      && (reply == Failed(EFAULT) <==> OnOpen(w, c) && CopyFails(w.dev, w.pos[c.fd].value, c))
      && (reply == Failed(EINVAL) <==> OnOpen(w, c) && LeadsNowhere(w.dev, w.pos[c.fd].value, c))
  {
    hide DeviceSpec.Write, ReadReply, Touched, Seek, DeviceSpec.Llseek, WellFormed;
    if OnOpen(w, c) {
      var p := w.pos[c.fd].value;
      match c {
        case WriteCall(_, data, copyOk, grants) => WriteAnswers(w.dev, data, copyOk, grants);
        case ReadCall(_, count, copies) => ReadFaultIff(w.dev, p, count, copies);
        case LlseekCall(_, offset, whence) => LlseekAnswers(p, offset, whence);
        case SeekCall(_, x, y, _) => SeekAnswers(w.dev, p, x, y);
        case _ =>
      }
    }
  }

  /**
   * What a call leaves alone: other descriptors always, the device unless it is a write; and a call that
   * fails leaves everything alone, but for the lines a write has committed and the bytes a read has
   * delivered before.
   */
  lemma CallsKeepToThemselves(w: World, c: Call)
    ensures var (w', answer) := Exec(w, c);
      && (forall fd: nat :: fd < |w.pos| && (c.OpenCall? || c.fd != fd) ==> fd < |w'.pos| && w'.pos[fd] == w.pos[fd])
      && |w'.pos| == |w.pos| + (if c.OpenCall? then 1 else 0)
      && (!c.WriteCall? ==> w'.dev == w.dev)
      && (c.WriteCall? || c.OtherIoctl? ==> w'.pos == w.pos)
      && (answer.reply.Failed? && !c.WriteCall? && !c.ReadCall? ==> w' == w)
      && (!c.ReadCall? ==> answer.bytes == [])
  {
    hide DeviceSpec.Write, ReadReply, ReadAt, Position;
  }

  /** What a call that succeeds answers, and where its descriptor then is. */
  lemma AnswersExactly(w: World, c: Call)
    requires WellFormed(w.dev) && PositionsFit(w)
    requires !Exec(w, c).1.reply.Failed?
    ensures var (w', answer) := Exec(w, c);
      match c
      case OpenCall => answer.reply == Opened(|w.pos|) && w'.pos == w.pos + [Some(0)]
      case CloseCall(fd) => answer.reply == Done && !IsOpen(w', fd)
      case WriteCall(_, data, _, _) => answer.reply == Transferred(|data|)
      case ReadCall(fd, count, _) =>
        && answer.bytes == Slice(Contents(w.dev), w.pos[fd].value, count)
        && answer.reply == Transferred(|answer.bytes|)
        && w'.pos[fd] == Some(w.pos[fd].value + |answer.bytes|)
      case LlseekCall(fd, _, _) => answer.reply.Moved? && w'.pos[fd] == Some(answer.reply.pos)
      case SeekCall(fd, x, y, _) =>
        answer.reply == Done && w'.pos[fd] == Some(|Flatten(Window(w.dev.lines)[..x])| + y)
      case OtherIoctl(_) => false
  {
    hide DeviceSpec.Write, ReadReply, ReadAt, Seek, DeviceSpec.Llseek, WellFormed, Flatten;
    if OnOpen(w, c) {
      var p := w.pos[c.fd].value;
      match c {
        case WriteCall(_, data, copyOk, grants) => WriteAnswers(w.dev, data, copyOk, grants);
        case ReadCall(_, count, copies) => ReadFaultIff(w.dev, p, count, copies);
        case LlseekCall(_, offset, whence) => LlseekAnswers(p, offset, whence);
        case SeekCall(_, x, y, _) => SeekAnswers(w.dev, p, x, y);
        case _ =>
      }
    }
  }

  /** After an accepted llseek, a read delivers the contents from the position it answered on. */
  lemma ReadAfterLlseek(w: World, fd: nat, offset: Offset, whence: Whence, count: nat, copies: nat)
    requires WellFormed(w.dev) && PositionsFit(w)
    requires Exec(w, LlseekCall(fd, offset, whence)).1.reply.Moved?
    requires copies >= 10
    ensures var (w1, answer) := Exec(w, LlseekCall(fd, offset, whence));
      Exec(w1, ReadCall(fd, count, copies)).1.bytes == Slice(Contents(w.dev), answer.reply.pos, count)
  {
    hide ReadReply, ReadAt, DeviceSpec.Llseek, WellFormed;
    var (w1, answer) := Exec(w, LlseekCall(fd, offset, whence));
    AnswersExactly(w, LlseekCall(fd, offset, whence));
    ReadFaultIff(w1.dev, w1.pos[fd].value, count, copies);
  }

  // ----- Closed descriptors -----

  /** The calls that do not go through descriptor `fd`. */
  function Without(calls: seq<Call>, fd: nat): seq<Call> {
    if calls == [] then []
    else (if !calls[0].OpenCall? && calls[0].fd == fd then [] else [calls[0]]) + Without(calls[1..], fd)
  }

  /**
   * A descriptor once closed stays closed: in every run after it, each call through it answers EBADF, and
   * the run leads to where it would lead without those calls.
   */
  lemma {:induction false} ClosedStaysClosed(w: World, calls: seq<Call>, fd: nat)
    requires fd < |w.pos| && w.pos[fd] == None
    ensures var (w', answers) := ExecAll(w, calls);
      && fd < |w'.pos| && w'.pos[fd] == None
      && w' == ExecAll(w, Without(calls, fd)).0
      && forall i :: 0 <= i < |calls| && !calls[i].OpenCall? && calls[i].fd == fd ==>
           answers[i] == Answer(Failed(EBADF), [])
    decreases |calls|
  {
    hide Operate;
    if calls != [] {
      var (w1, answer) := Exec(w, calls[0]);
      ExecFirst(w, calls);
      ClosedStaysClosed(w1, calls[1..], fd);
      if calls[0].OpenCall? || calls[0].fd != fd {
        ConsParts(calls[0], Without(calls[1..], fd));
        ExecFirst(w, Without(calls, fd));
      } else {
        assert [] + Without(calls[1..], fd) == Without(calls[1..], fd);
      }
      forall i | 0 <= i < |calls| && !calls[i].OpenCall? && calls[i].fd == fd
        ensures ExecAll(w, calls).1[i] == Answer(Failed(EBADF), [])
      {
        if i > 0 {
          assert calls[1..][i - 1] == calls[i];
          assert ExecAll(w, calls).1[1..][i - 1] == ExecAll(w, calls).1[i];
        }
      }
    }
  }

  /** In particular after its close. */
  lemma CloseIsFinal(w: World, calls: seq<Call>, fd: nat)
    requires IsOpen(w, fd)
    ensures var w1 := Exec(w, CloseCall(fd)).0;
      && w1.dev == w.dev && ExecAll(w1, calls).0 == ExecAll(w1, Without(calls, fd)).0
      && forall i :: 0 <= i < |calls| && !calls[i].OpenCall? && calls[i].fd == fd ==>
           ExecAll(w1, calls).1[i] == Answer(Failed(EBADF), [])
  {
    ClosedStaysClosed(Exec(w, CloseCall(fd)).0, calls, fd);
  }

  // ----- Sizes and positions -----

  /** At no moment of the run is more to be read than a position can count. */
  ghost predicate AlwaysFits(w: World, calls: seq<Call>)
    decreases |calls|
  {
    |Contents(w.dev)| <= LOFF_MAX && (calls == [] || AlwaysFits(Exec(w, calls[0]).0, calls[1..]))
  }

  /** Bytes offered to the device. */
  function Volume(calls: seq<Call>): nat {
    if calls == [] then 0
    else (if calls[0].WriteCall? then |calls[0].data| else 0) + Volume(calls[1..])
  }

  /** It is enough that what the device holds and all that is offered to it fit together. */
  lemma {:induction false} EnoughRoomForAll(w: World, calls: seq<Call>)
    requires Held(w.dev) + Volume(calls) <= LOFF_MAX
    ensures AlwaysFits(w, calls)
    decreases |calls|
  {
    hide Contents, Write;
    if calls != [] {
      var c := calls[0];
      if c.WriteCall? {
        WriteHolds(w.dev, c.data, c.copyOk, c.grants);
      }
      EnoughRoomForAll(Exec(w, c).0, calls[1..]);
    }
  }

  ghost predicate PositionsFit(w: World) {
    forall fd: nat :: IsOpen(w, fd) ==> w.pos[fd].value <= LOFF_MAX
  }

  lemma OperateFits(d: Device, p: nat, c: Call)
    requires |Contents(d)| <= LOFF_MAX && p <= LOFF_MAX
    ensures Operate(d, p, c).1 <= LOFF_MAX
  {
    hide Write, Reach, Contents;
    if c.SeekCall? {
      SeekFits(d, p, c.writeCmd, c.writeCmdOffset);
    }
  }

  lemma SeekFits(d: Device, p: nat, x: nat, y: nat)
    ensures Seek(d, p, x, y).1.Done? ==> Seek(d, p, x, y).0 < |Contents(d)|
  {
    if Seek(d, p, x, y).1.Done? {
      SeekInvertsLookup(Window(d.lines), Seek(d, p, x, y).0, x, y);
      LookupFindsTheByte(Window(d.lines), Seek(d, p, x, y).0);
    }
  }

  lemma ExecKeepsPositions(w: World, c: Call)
    requires |Contents(w.dev)| <= LOFF_MAX && PositionsFit(w)
    ensures PositionsFit(Exec(w, c).0)
  {
    hide Operate, Contents;
    if !c.OpenCall? && IsOpen(w, c.fd) {
      OperateFits(w.dev, w.pos[c.fd].value, c);
    }
  }

  /** However descriptors are moved, by reads, seeks and llseeks, no position ever leaves the range of loff_t. */
  lemma {:induction false} PositionsStayInRange(w: World, calls: seq<Call>)
    requires AlwaysFits(w, calls) && PositionsFit(w)
    ensures PositionsFit(ExecAll(w, calls).0)
    decreases |calls|
  {
    hide Exec, PositionsFit;
    if calls != [] {
      ExecKeepsPositions(w, calls[0]);
      PositionsStayInRange(Exec(w, calls[0]).0, calls[1..]);
    }
  }

  // ----- Line assembly -----

  /** The bytes the write calls pass, in order. */
  function Inputs(calls: seq<Call>): Bytes {
    if calls == [] then []
    else (if calls[0].WriteCall? then calls[0].data else []) + Inputs(calls[1..])
  }

  lemma ExecKeepsWellFormed(w: World, c: Call)
    requires WellFormed(w.dev)
    ensures WellFormed(Exec(w, c).0.dev)
  {
    hide WellFormed, Write;
    if c.WriteCall? {
      WriteKeepsWellFormed(w.dev, c.data, c.copyOk, c.grants);
    }
  }

  ghost predicate WritesAccepted(calls: seq<Call>, answers: seq<Answer>)
    requires |answers| == |calls|
  {
    forall i :: 0 <= i < |calls| && calls[i].WriteCall? ==> answers[i].reply.Transferred?
  }

  /**
   * Line assembly over whole runs: if every write was accepted, then whatever the sizes of the writes and
   * whatever was opened, read, sought and closed in between, the device holds the lines of the concatenated
   * input.
   */
  lemma {:induction false} RunAssemblesLines(w: World, calls: seq<Call>)
    requires WellFormed(w.dev)
    requires WritesAccepted(calls, ExecAll(w, calls).1)
    ensures ExecAll(w, calls).0.dev == Absorb(w.dev, Inputs(calls))
    decreases |calls|
  {
    hide WellFormed, Absorb, DeviceSpec.Llseek, Seek, ReadAt, ReadReply;
    if calls == [] {
      NothingAbsorbed(w.dev);
    } else {
      var (w1, answer) := Exec(w, calls[0]);
      ExecFirst(w, calls);
      assert forall i :: 0 <= i < |calls| - 1 && calls[1..][i].WriteCall? ==>
        ExecAll(w, calls).1[1..][i] == ExecAll(w, calls).1[i + 1];
      ExecKeepsWellFormed(w, calls[0]);
      RunAssemblesLines(w1, calls[1..]);
      if calls[0].WriteCall? {
        assert ExecAll(w, calls).1[0].reply.Transferred?;
        AbsorbTwice(w.dev, calls[0].data, Inputs(calls[1..]));
      } else {
        assert [] + Inputs(calls[1..]) == Inputs(calls[1..]);
      }
    }
  }

  /** The counts answered to the writes, added up. */
  function WrittenCounts(calls: seq<Call>, answers: seq<Answer>): nat
    requires |answers| == |calls|
    decreases |calls|
  {
    if calls == [] then 0
    else
      (if calls[0].WriteCall? && answers[0].reply.Transferred? then answers[0].reply.count else 0)
        + WrittenCounts(calls[1..], answers[1..])
  }

  /** The counts answered to accepted writes add up to the bytes passed, and to the bytes accepted. */
  lemma {:induction false} WriteCountsAddUp(w: World, calls: seq<Call>)
    requires WellFormed(w.dev)
    requires WritesAccepted(calls, ExecAll(w, calls).1)
    ensures var (w', answers) := ExecAll(w, calls);
      && WrittenCounts(calls, answers) == |Inputs(calls)|
      && |Accepted(w'.dev)| == |Accepted(w.dev)| + WrittenCounts(calls, answers)
    decreases |calls|
  {
    hide WellFormed, Accepted, Write;
    if calls != [] {
      var (w1, answer) := Exec(w, calls[0]);
      var c := calls[0];
      ExecFirst(w, calls);
      assert forall i :: 0 <= i < |calls| - 1 && calls[1..][i].WriteCall? ==>
        ExecAll(w, calls).1[1..][i] == ExecAll(w, calls).1[i + 1];
      ExecKeepsWellFormed(w, c);
      WriteCountsAddUp(w1, calls[1..]);
      if c.WriteCall? {
        WriteAnswers(w.dev, c.data, c.copyOk, c.grants);
        assert ExecAll(w, calls).1[0].reply.Transferred?;
      }
    }
  }

  lemma NothingAbsorbed(d: Device)
    requires WellFormed(d)
    ensures Absorb(d, []) == d
  {
    AbsorbNothing(d);
  }

  // ----- What one descriptor sees -----

  /** No call moves descriptor `fd` but its own reads. */
  ghost predicate OnlyReads(calls: seq<Call>, fd: nat) {
    forall i :: 0 <= i < |calls| && !calls[i].OpenCall? && calls[i].fd == fd ==>
      calls[i].ReadCall? || calls[i].WriteCall? || calls[i].OtherIoctl?
  }

  /** What a call means for descriptor `fd`: its own reads, and writes through any open descriptor. */
  function OpOf(w: World, c: Call, fd: nat): seq<Op> {
    if c.WriteCall? && IsOpen(w, c.fd) then [WriteOp(c.data, c.copyOk, c.grants)]
    else if c.ReadCall? && c.fd == fd then [ReadOp(c.count, c.copies)]
    else []
  }

  function Ops(w: World, calls: seq<Call>, fd: nat): seq<Op>
    decreases |calls|
  {
    if calls == [] then [] else OpOf(w, calls[0], fd) + Ops(Exec(w, calls[0]).0, calls[1..], fd)
  }

  /** Everything the reads of descriptor `fd` have put into their buffers, one after the other. */
  function Delivered(calls: seq<Call>, answers: seq<Answer>, fd: nat): Bytes
    requires |answers| == |calls|
    decreases |calls|
  {
    if calls == [] then []
    else
      (if calls[0].ReadCall? && calls[0].fd == fd then answers[0].bytes else [])
        + Delivered(calls[1..], answers[1..], fd)
  }

  /** What descriptor `fd` can tell of the world, after its reads have delivered `got`. */
  function Seen(w: World, fd: nat, got: Bytes): Reader
    requires IsOpen(w, fd)
  {
    Reader(w.dev, w.pos[fd].value, got)
  }

  lemma ExecProjects(w: World, c: Call, fd: nat, got: Bytes)
    requires IsOpen(w, fd) && OnlyReads([c], fd)
    ensures var (w', answer) := Exec(w, c);
      && IsOpen(w', fd)
      && PerformAll(Seen(w, fd, got), OpOf(w, c, fd))
          == Seen(w', fd, got + if c.ReadCall? && c.fd == fd then answer.bytes else [])
  {
    hide Write, ReadAt, ReadReply, Llseek, Seek;
    assert [c][0] == c;
    assert got + [] == got;
    var ops := OpOf(w, c, fd);
    if ops != [] {
      assert ops[1..] == [];
    }
  }

  lemma PerformFirst(r: Reader, a: seq<Op>, b: seq<Op>)
    requires |a| <= 1
    ensures PerformAll(r, a + b) == PerformAll(PerformAll(r, a), b)
  {
    if a == [] {
      assert a + b == b;
    } else {
      assert (a + b)[1..] == b && a[1..] == [];
    }
  }

  /** For one descriptor a whole run is its own reads mixed with all the writes. */
  lemma {:induction false} RunProjects(w: World, calls: seq<Call>, fd: nat, got: Bytes)
    requires IsOpen(w, fd) && OnlyReads(calls, fd)
    ensures var (w', answers) := ExecAll(w, calls);
      && IsOpen(w', fd)
      && PerformAll(Seen(w, fd, got), Ops(w, calls, fd)) == Seen(w', fd, got + Delivered(calls, answers, fd))
    decreases |calls|
  {
    hide Exec, Perform, OpOf;
    if calls == [] {
      assert got + [] == got;
    } else {
      var c := calls[0];
      var (w1, answer) := Exec(w, c);
      var now := if c.ReadCall? && c.fd == fd then answer.bytes else [];
      assert OnlyReads([c], fd) && OnlyReads(calls[1..], fd);
      ExecProjects(w, c, fd, got);
      ExecFirst(w, calls);
      RunProjects(w1, calls[1..], fd, got + now);
      OneOp(w, c, fd);
      PerformFirst(Seen(w, fd, got), OpOf(w, c, fd), Ops(w1, calls[1..], fd));
      Assoc(got, now, Delivered(calls[1..], ExecAll(w1, calls[1..]).1, fd));
    }
  }

  lemma OneOp(w: World, c: Call, fd: nat)
    ensures |OpOf(w, c, fd)| <= 1
  {
  }

  /**
   * Reads of one descriptor in a run of arbitrary calls through others: as long as nothing is evicted they
   * deliver one contiguous piece of the contents, with no gap and no repeat, faulty reads included.
   */
  lemma DescriptorReadsAreContiguous(w: World, calls: seq<Call>, fd: nat)
    requires WellFormed(w.dev) && IsOpen(w, fd) && OnlyReads(calls, fd)
    requires Base(ExecAll(w, calls).0.dev.lines) == Base(w.dev.lines)
    ensures var (w', answers) := ExecAll(w, calls);
      && IsOpen(w', fd)
      && var p, p' := w.pos[fd].value, w'.pos[fd].value;
      && p <= p'
      && Delivered(calls, answers, fd) == Slice(Contents(w'.dev), p, p' - p)
      && |Delivered(calls, answers, fd)| == p' - p
  {
    hide Contents, Slice, WellFormed, OnlyReads, Ops, PerformAll, ExecAll, Delivered;
    var got := Delivered(calls, ExecAll(w, calls).1, fd);
    RunProjects(w, calls, fd, []);
    ReadsAreContiguous(Seen(w, fd, []), Ops(w, calls, fd));
    assert [] + got == got;
    var w' := ExecAll(w, calls).0;
    var piece := Slice(Contents(w'.dev), w.pos[fd].value, w'.pos[fd].value - w.pos[fd].value);
    assert [] + piece == piece;
  }

  /** What the descriptor that an open answers has read, while nothing is evicted, is a prefix of the stream. */
  lemma NewDescriptorSeesPrefix(w: World, calls: seq<Call>, fd: nat)
    requires WellFormed(w.dev) && Exec(w, OpenCall).1.reply == Opened(fd) && OnlyReads(calls, fd)
    requires |ExecAll(Exec(w, OpenCall).0, calls).0.dev.lines| <= CAPACITY
    ensures !IsOpen(w, fd)
    ensures var (w', answers) := ExecAll(Exec(w, OpenCall).0, calls);
      var got := Delivered(calls, answers, fd);
      IsOpen(w', fd) && w'.pos[fd] == Some(|got|) && got <= Committed(w'.dev)
  {
    hide Contents, Slice, WellFormed, OnlyReads, Ops, PerformAll, ExecAll, Delivered;
    var w1 := Exec(w, OpenCall).0;
    var got := Delivered(calls, ExecAll(w1, calls).1, fd);
    RunProjects(w1, calls, fd, []);
    FreshReaderSeesPrefix(w1.dev, Ops(w1, calls, fd));
    assert [] + got == got;
  }

  /** The counts answered to the reads of descriptor `fd`, added up. */
  function ReadCounts(calls: seq<Call>, answers: seq<Answer>, fd: nat): nat
    requires |answers| == |calls|
    decreases |calls|
  {
    if calls == [] then 0
    else
      (if calls[0].ReadCall? && calls[0].fd == fd && answers[0].reply.Transferred?
       then answers[0].reply.count else 0)
        + ReadCounts(calls[1..], answers[1..], fd)
  }

  ghost predicate ReadsSucceed(calls: seq<Call>, answers: seq<Answer>, fd: nat)
    requires |answers| == |calls|
  {
    forall i :: 0 <= i < |calls| && calls[i].ReadCall? && calls[i].fd == fd ==> !answers[i].reply.Failed?
  }

  /**
   * The counts answered to a descriptor that only reads, without faults, add up to the bytes it has got and
   * to the distance its position has moved.
   */
  lemma {:induction false} ReadCountsAddUp(w: World, calls: seq<Call>, fd: nat)
    requires IsOpen(w, fd) && OnlyReads(calls, fd)
    requires ReadsSucceed(calls, ExecAll(w, calls).1, fd)
    ensures var (w', answers) := ExecAll(w, calls);
      && IsOpen(w', fd)
      && ReadCounts(calls, answers, fd) == |Delivered(calls, answers, fd)|
      && w'.pos[fd] == Some(w.pos[fd].value + ReadCounts(calls, answers, fd))
    decreases |calls|
  {
    hide Exec;
    if calls != [] {
      var (w1, answer) := Exec(w, calls[0]);
      var c := calls[0];
      ExecFirst(w, calls);
      assert forall i :: 0 <= i < |calls| - 1 && calls[1..][i].ReadCall? ==>
        ExecAll(w, calls).1[1..][i] == ExecAll(w, calls).1[i + 1];
      if c.ReadCall? && c.fd == fd {
        assert !ExecAll(w, calls).1[0].reply.Failed?;
      }
      assert OnlyReads([c], fd) && OnlyReads(calls[1..], fd);
      CountOfOne(w, c, fd);
      ReadCountsAddUp(w1, calls[1..], fd);
    }
  }

  /** Only its own reads move the descriptor, each by the count it answers. */
  lemma CountOfOne(w: World, c: Call, fd: nat)
    requires IsOpen(w, fd) && OnlyReads([c], fd)
    ensures var (w', answer) := Exec(w, c);
      && IsOpen(w', fd)
      && (!(c.ReadCall? && c.fd == fd) ==> w'.pos[fd] == w.pos[fd])
      && (c.ReadCall? && c.fd == fd && !answer.reply.Failed? ==>
            && answer.reply == Transferred(|answer.bytes|)
            && w'.pos[fd] == Some(w.pos[fd].value + answer.reply.count))
  {
    hide DeviceSpec.Write, ReadAt, ReadReply, DeviceSpec.Llseek, Seek;
    assert [c][0] == c;
    CallsKeepToThemselves(w, c);
    if c.ReadCall? && c.fd == fd {
      ReadFaultIff(w.dev, w.pos[fd].value, c.count, c.copies);
    }
  }

  ghost predicate NoReads(calls: seq<Call>, fd: nat) {
    forall i :: 0 <= i < |calls| && calls[i].ReadCall? ==> calls[i].fd != fd
  }

  lemma {:induction false} OpsAreWrites(w: World, calls: seq<Call>, fd: nat)
    requires NoReads(calls, fd)
    ensures forall i :: 0 <= i < |Ops(w, calls, fd)| ==> Ops(w, calls, fd)[i].WriteOp?
    decreases |calls|
  {
    hide Exec;
    if calls != [] {
      OpsAreWrites(Exec(w, calls[0]).0, calls[1..], fd);
    }
  }

  /**
   * Between two reads of a descriptor, with arbitrary calls through others in between, the place in the
   * committed stream jumps by exactly the bytes evicted: there is a gap if and only if lines were evicted.
   */
  lemma DescriptorGapIsEvicted(w: World, count: nat, copies: nat, calls: seq<Call>, fd: nat)
    requires WellFormed(w.dev) && IsOpen(w, fd) && OnlyReads(calls, fd) && NoReads(calls, fd)
    ensures var w1 := Exec(w, ReadCall(fd, count, copies)).0;
      var w' := ExecAll(w1, calls).0;
      && IsOpen(w1, fd) && IsOpen(w', fd)
      && Base(w.dev.lines) <= Base(w'.dev.lines)
      && BaseOffset(w'.dev) + w'.pos[fd].value == BaseOffset(w1.dev) + w1.pos[fd].value
          + |Flatten(w'.dev.lines[Base(w.dev.lines)..Base(w'.dev.lines)])|
      && (BaseOffset(w'.dev) + w'.pos[fd].value == BaseOffset(w1.dev) + w1.pos[fd].value
          <==> |w'.dev.lines| <= CAPACITY || |w'.dev.lines| == |w.dev.lines|)
  {
    hide ReadAt, ReadReply, Write, Base, BaseOffset, WellFormed, OnlyReads, NoReads, Ops, ExecAll;
    var w1 := Exec(w, ReadCall(fd, count, copies)).0;
    assert w1.dev == w.dev;
    RunProjects(w1, calls, fd, ReadAt(w.dev, w.pos[fd].value, count, copies));
    OpsAreWrites(w1, calls, fd);
    var r := Seen(w, fd, []);
    var bytes := ReadAt(w.dev, w.pos[fd].value, count, copies);
    assert [] + bytes == bytes;
    assert Perform(r, ReadOp(count, copies)) == Seen(w1, fd, bytes);
    GapIsEvictedBytes(r, count, copies, Ops(w1, calls, fd));
  }
}
