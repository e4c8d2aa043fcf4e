/** Whole lives of the module: any file operations, in any order, between load and unload. */
module DriverRuns {
  import opened ByteStrings
  import opened KernelHeap
  import opened DeviceSpec
  import opened CircularBuffers
  import opened CharDevice
  import opened DriverCalls

  /** The open files stand for the positions; a closed descriptor has no file. */
  ghost predicate Represents(files: seq<File?>, pos: seq<Option<nat>>)
    reads files
  {
    && |files| == |pos|
    && (forall i :: 0 <= i < |files| ==>
          if files[i] == null then pos[i] == None else pos[i] == Some(files[i].pos))
    && (forall i, j :: 0 <= i < j < |files| && files[i] != null ==> files[i] != files[j])
  }

  /** aesd_read into a buffer of the caller's. */
  method ReadInto(dev: AesdDevice, filp: File, count: nat, copies: nat) returns (answer: Answer)
    requires dev.Valid() && dev.Fits()
    modifies filp
    ensures dev.Valid() && dev.Abs() == old(dev.Abs())
    ensures answer.bytes == ReadAt(dev.Abs(), old(filp.pos), count, copies)
    ensures answer.reply == ReadReply(dev.Abs(), old(filp.pos), count, copies)
    ensures filp.pos == old(filp.pos) + |answer.bytes|
  {
    hide AesdDevice.Consistent, ReadReply, Reach;
    var buf := new byte[count];
    var from := filp.pos;
    var reply := dev.Read(filp, buf, count, copies);
    answer := Answer(reply, buf[..filp.pos - from]);
  }

  /** The kernel decides how many allocations will succeed. */
  method SetGrants(dev: AesdDevice, grants: nat)
    requires dev.Valid()
    modifies dev.heap`grants
    ensures dev.Valid() && dev.Abs() == old(dev.Abs()) && dev.heap.grants == grants
  {
    dev.heap.grants := grants;
  }

  /** An operation through an open file answers as the abstract one does. */
  method Operation(dev: AesdDevice, filp: File, c: Call) returns (answer: Answer)
    requires dev.Valid() && dev.Fits() && filp.pos <= LOFF_MAX
    requires !c.OpenCall? && !c.CloseCall?
    modifies dev, dev.heap, dev.ring, dev.ring.entry, dev.partialBuffer, filp
    ensures dev.Valid() && dev.heap.Evolves()
    ensures dev.partialBuffer == null || dev.partialBuffer == old(dev.partialBuffer) || fresh(dev.partialBuffer)
    ensures (dev.Abs(), filp.pos, answer) == Operate(old(dev.Abs()), old(filp.pos), c)
  {
    hide AesdDevice.Consistent, DeviceSpec.Write, Seek, DeviceSpec.Llseek, ReadAt, ReadReply;
    var reply := Failed(ENOTTY);
    match c {
      case WriteCall(_, data, copyOk, grants) =>
        SetGrants(dev, grants);
        reply := dev.Write(data, copyOk);
      case ReadCall(_, count, copies) =>
        answer := ReadInto(dev, filp, count, copies);
        return;
      case LlseekCall(_, offset, whence) =>
        reply := dev.Llseek(filp, offset, whence);
      case SeekCall(_, writeCmd, writeCmdOffset, copyOk) =>
        reply := dev.SetPos(filp, writeCmd, writeCmdOffset, copyOk);
      case OtherIoctl(_) =>
    }
    answer := Answer(reply, []);
  }

  /** One system call on the table of open files: it answers as the abstract one does. */
  method Dispatch(dev: AesdDevice, files: seq<File?>, c: Call, ghost w: World)
    returns (files': seq<File?>, answer: Answer)
    requires dev.Valid() && dev.Fits() && dev.Abs() == w.dev
    requires Represents(files, w.pos) && PositionsFit(w)
    modifies dev, dev.heap, dev.ring, dev.ring.entry, dev.partialBuffer, files
    ensures dev.Valid() && dev.heap.Evolves()
    ensures dev.partialBuffer == null || dev.partialBuffer == old(dev.partialBuffer) || fresh(dev.partialBuffer)
    ensures dev.Abs() == Exec(w, c).0.dev && Represents(files', Exec(w, c).0.pos)
    ensures answer == Exec(w, c).1
    ensures forall i :: 0 <= i < |files'| && files'[i] != null ==> files'[i] in files || fresh(files'[i])
  {
    hide AesdDevice.Consistent, Operate;
    files' := files;
    if c.OpenCall? {
      var filp := new File();
      files', answer := files + [filp], Answer(Opened(|files|), []);
    } else if c.fd >= |files| || files[c.fd] == null {
      answer := Answer(Failed(EBADF), []);
    } else if c.CloseCall? {
      files', answer := files[c.fd := null], Answer(Done, []);
    } else {
      answer := Operation(dev, files[c.fd], c);
    }
  }

  /** What is left to run after some calls, seen from the world they have led to. */
  ghost predicate Remaining(w0: World, calls: seq<Call>, w: World, done: seq<Answer>) {
    && |done| <= |calls|
    && ExecAll(w0, calls) == (ExecAll(w, calls[|done|..]).0, done + ExecAll(w, calls[|done|..]).1)
    && AlwaysFits(w, calls[|done|..])
  }

  lemma RemainingStart(w0: World, calls: seq<Call>)
    requires AlwaysFits(w0, calls)
    ensures Remaining(w0, calls, w0, [])
  {
    assert calls[0..] == calls;
    assert [] + ExecAll(w0, calls).1 == ExecAll(w0, calls).1;
  }

  lemma RemainingStep(w0: World, calls: seq<Call>, w: World, done: seq<Answer>)
    requires Remaining(w0, calls, w, done) && |done| < |calls|
    ensures |Contents(w.dev)| <= LOFF_MAX
    ensures Remaining(w0, calls, Exec(w, calls[|done|]).0, done + [Exec(w, calls[|done|]).1])
  {
    hide Exec;
    var (w1, answer) := Exec(w, calls[|done|]);
    assert calls[|done|..][1..] == calls[|done| + 1..];
    Assoc(done, [answer], ExecAll(w1, calls[|done| + 1..]).1);
  }

  lemma RemainingEnd(w0: World, calls: seq<Call>, w: World, done: seq<Answer>)
    requires Remaining(w0, calls, w, done) && |done| == |calls|
    ensures ExecAll(w0, calls) == (w, done)
  {
    assert calls[|done|..] == [];
    assert done + [] == done;
  }

  /**
   * From load to unload: whatever calls are made, in whatever order, with whatever faults, every answer is
   * the one the abstract device gives; and every block handed out is freed in the end, and only once.
   */
  method ModuleLifetime(heap: Heap, calls: seq<Call>) returns (answers: seq<Answer>)
    requires heap.Valid() && heap.live == {}
    requires AlwaysFits(LOADED, calls)
    modifies heap
    ensures answers == ExecAll(LOADED, calls).1
    ensures heap.Valid() && heap.Evolves() && heap.live == {} && heap.freed == heap.issued
  {
    hide CircularBuffer.Valid, AesdDevice.Consistent, Exec, Represents, Remaining, PositionsFit;
    var dev := new AesdDevice(heap);
    var files: seq<File?> := [];
    ghost var w := LOADED;
    answers := [];
    Loaded(files);
    RemainingStart(LOADED, calls);
    for i := 0 to |calls|
      invariant |answers| == i && Remaining(LOADED, calls, w, answers)
      invariant dev.Valid() && dev.Abs() == w.dev && heap.Evolves()
      invariant Represents(files, w.pos) && PositionsFit(w)
      invariant dev.partialBuffer == null || fresh(dev.partialBuffer)
      invariant forall j :: 0 <= j < |files| && files[j] != null ==> fresh(files[j])
    {
      RemainingStep(LOADED, calls, w, answers);
      ExecKeepsPositions(w, calls[i]);
      var answer;
      files, answer := Dispatch(dev, files, calls[i], w);
      answers := answers + [answer];
      w := Exec(w, calls[i]).0;
    }
    RemainingEnd(LOADED, calls, w, answers);
    dev.Cleanup();
  }

  lemma Loaded(files: seq<File?>)
    requires files == []
    ensures Represents(files, LOADED.pos) && PositionsFit(LOADED)
  {
  }
}
