/**
 * The character device as a value: every line ever completed, and the unfinished tail.
 * Only the last CAPACITY lines can still be read.
 */
module DeviceSpec {
  import opened ByteStrings
  import opened LineSplitting

  /** AESDCHAR_MAX_WRITE_OPERATIONS_SUPPORTED */
  const CAPACITY: nat := 10

  datatype Device = Device(lines: seq<Bytes>, tail: Bytes)

  const EMPTY: Device := Device([], [])

  /** Largest loff_t. */
  const LOFF_MAX: int := 0x7FFF_FFFF_FFFF_FFFF

  type Offset = x: int | -LOFF_MAX - 1 <= x <= LOFF_MAX

  datatype Whence = SEEK_SET | SEEK_CUR | SEEK_END | OTHER

  datatype Errno = EBADF | ENOMEM | EFAULT | EINVAL | ENOTTY

  datatype Reply = Opened(fd: nat) | Done | Transferred(count: nat) | Moved(pos: nat) | Failed(errno: Errno)

  ghost predicate WellFormed(d: Device) {
    AllLines(d.lines) && NL !in d.tail
  }

  // ----- What can be read -----

  /** Number of lines already evicted. */
  function Base(lines: seq<Bytes>): (b: nat)
    ensures b <= |lines|
  {
    if |lines| <= CAPACITY then 0 else |lines| - CAPACITY
  }

  function Window(lines: seq<Bytes>): seq<Bytes> {
    lines[Base(lines)..]
  }

  function Contents(d: Device): Bytes {
    Flatten(Window(d.lines))
  }

  /** All bytes ever committed as lines. */
  function Committed(d: Device): Bytes {
    Flatten(d.lines)
  }

  /** Offset in the committed stream at which the readable contents begin. */
  function BaseOffset(d: Device): nat {
    |Flatten(d.lines[..Base(d.lines)])|
  }

  /** All bytes the device has accepted and not dropped. */
  function Accepted(d: Device): Bytes {
    Committed(d) + d.tail
  }

  // ----- Operations -----

  /** A write without failures. */
  function Absorb(d: Device, data: Bytes): Device {
    Device(d.lines + Lines(d.tail + data), Tail(d.tail + data))
  }

  function AbsorbAll(d: Device, inputs: seq<Bytes>): Device
    decreases |inputs|
  {
    if inputs == [] then d else AbsorbAll(Absorb(d, inputs[0]), inputs[1..])
  }

  /**
   * A write whose first `grants` allocations succeed and whose next one fails.  The call allocates a
   * copy of the data, a combined buffer, and then one block a line; it gives up at the first refusal.
   */
  function Write(d: Device, data: Bytes, copyOk: bool, grants: nat): (Device, Reply) {
    var pending := Lines(d.tail + data);
    if grants == 0 then (d, Failed(ENOMEM))
    else if !copyOk then (d, Failed(EFAULT))
    else if grants == 1 then (d, Failed(ENOMEM))
    else if grants - 2 < |pending| then (Device(d.lines + pending[..grants - 2], []), Failed(ENOMEM))
    else (Absorb(d, data), Transferred(|data|))
  }

  /** The line index and the byte in it that flat offset `k` denotes. */
  function Locate(window: seq<Bytes>, k: nat): (r: Option<(nat, nat)>)
    ensures r.Some? ==> r.value.0 < |window| && r.value.1 < |window[r.value.0]|
  {
    if window == [] then None
    else if k < |window[0]| then Some((0, k))
    else
      match Locate(window[1..], k - |window[0]|)
      case None => None
      case Some(p) => Some((p.0 + 1, p.1))
  }

  /** The flat offset of byte `o` of line `c`; a pair that denotes no byte has none. */
  function Position(window: seq<Bytes>, c: nat, o: nat): Option<nat> {
    if c < |window| && o < |window[c]| then Some(|Flatten(window[..c])| + o) else None
  }

  /** Bytes from flat offset `p` on that `copies` copies deliver: each ends with the entry it starts in. */
  function Reach(window: seq<Bytes>, p: nat, copies: nat): nat {
    match Locate(window, p)
    case None => 0
    case Some(at) =>
      if copies == 0 then 0 else |Flatten(window[at.0..Min(at.0 + copies, |window|)])| - at.1
  }

  /** What a read delivers whose first `copies` copies to user space succeed and whose next one fails. */
  function ReadAt(d: Device, p: nat, count: nat, copies: nat): Bytes {
    Slice(Contents(d), p, Min(count, Reach(Window(d.lines), p, copies)))
  }

  /** The read's return value. */
  function ReadReply(d: Device, p: nat, count: nat, copies: nat): Reply {
    var bytes := ReadAt(d, p, count, copies);
    if bytes == Slice(Contents(d), p, count) then Transferred(|bytes|) else Failed(EFAULT)
  }

  /** The line that flat offset `k` lies in. */
  function LineOf(window: seq<Bytes>, k: nat): nat {
    match Locate(window, k)
    case None => |window|
    case Some(at) => at.0
  }

  /** In how many lines the bytes lie that a read asks for. */
  function Touched(window: seq<Bytes>, p: nat, count: nat): int {
    var n := |Slice(Flatten(window), p, count)|;
    if n == 0 then 0 else LineOf(window, p + n - 1) + 1 - LineOf(window, p)
  }

  /** The position a descriptor at `pos` has after an llseek, and the call's return value. */
  function Llseek(pos: nat, offset: Offset, whence: Whence): (nat, Reply) {
    var target := offset + match whence { case SEEK_CUR => pos case SEEK_END => CAPACITY case _ => 0 };
    if whence != OTHER && 0 <= target <= LOFF_MAX then (target, Moved(target)) else (pos, Failed(EINVAL))
  }

  /** The position a descriptor at `pos` has after a seek, and whether the seek was accepted. */
  function Seek(d: Device, pos: nat, c: nat, o: nat): (nat, Reply) {
    match Position(Window(d.lines), c, o)
    case None => (pos, Failed(EINVAL))
    case Some(p) => (p, Done)
  }

  // ----- Line assembly -----

  lemma AbsorbKeepsWellFormed(d: Device, data: Bytes)
    requires WellFormed(d)
    ensures WellFormed(Absorb(d, data))
  {
    SplitRecomposes(d.tail + data);
    AllLinesAppend(d.lines, Lines(d.tail + data));
  }

  lemma WriteKeepsWellFormed(d: Device, data: Bytes, copyOk: bool, grants: nat)
    requires WellFormed(d)
    ensures WellFormed(Write(d, data, copyOk, grants).0)
  {
    AbsorbKeepsWellFormed(d, data);
    SplitRecomposes(d.tail + data);
  }

  /** Chunking invariance: two writes leave what one write of their concatenation leaves. */
  lemma AbsorbTwice(d: Device, a: Bytes, b: Bytes)
    ensures Absorb(Absorb(d, a), b) == Absorb(d, a + b)
  {
    SplitAppend(d.tail + a, b);
    Assoc(d.tail, a, b);
    Assoc(d.lines, Lines(d.tail + a), Lines(Tail(d.tail + a) + b));
  }

  lemma AbsorbNothing(d: Device)
    requires NL !in d.tail
    ensures Absorb(d, []) == d
  {
    assert d.tail + [] == d.tail;
    NoLines(d.tail);
    assert d.lines + [] == d.lines;
  }

  lemma {:induction false} AbsorbAllIsAbsorb(d: Device, inputs: seq<Bytes>)
    requires WellFormed(d)
    ensures AbsorbAll(d, inputs) == Absorb(d, Flatten(inputs))
    decreases |inputs|
  {
    if inputs == [] {
      AbsorbNothing(d);
    } else {
      AbsorbKeepsWellFormed(d, inputs[0]);
      AbsorbAllIsAbsorb(Absorb(d, inputs[0]), inputs[1..]);
      AbsorbTwice(d, inputs[0], Flatten(inputs[1..]));
    }
  }

  /** Any two ways of cutting one stream into writes leave the same device. */
  lemma ChunkingInvariance(d: Device, xs: seq<Bytes>, ys: seq<Bytes>)
    requires WellFormed(d)
    requires Flatten(xs) == Flatten(ys)
    ensures AbsorbAll(d, xs) == AbsorbAll(d, ys)
  {
    AbsorbAllIsAbsorb(d, xs);
    AbsorbAllIsAbsorb(d, ys);
  }

  /** After any writes the lines are those of the concatenated input, and the tail is its rest. */
  lemma LineAssembly(inputs: seq<Bytes>)
    ensures AbsorbAll(EMPTY, inputs) == Device(Lines(Flatten(inputs)), Tail(Flatten(inputs)))
  {
    AbsorbAllIsAbsorb(EMPTY, inputs);
    assert [] + Flatten(inputs) == Flatten(inputs);
    assert [] + Lines(Flatten(inputs)) == Lines(Flatten(inputs));
  }

  // ----- Conservation -----

  /** Without failures no byte is lost, duplicated or reordered. */
  lemma AbsorbConserves(d: Device, data: Bytes)
    ensures Accepted(Absorb(d, data)) == Accepted(d) + data
  {
    var all := d.tail + data;
    SplitRecomposes(all);
    FlattenAppend(d.lines, Lines(all));
    Assoc(Committed(d), Flatten(Lines(all)), Tail(all));
    Assoc(Committed(d), d.tail, data);
  }

  /** The bytes a write gives up when its allocations run out. */
  function Dropped(d: Device, data: Bytes, grants: nat): Bytes
    requires 2 <= grants
  {
    var pending := Lines(d.tail + data);
    if grants - 2 < |pending| then Flatten(pending[grants - 2..]) + Tail(d.tail + data) else []
  }

  lemma RegroupDropped(a: Bytes, b: Bytes, c: Bytes, t: Bytes)
    ensures (a + b + []) + (c + t) == a + ((b + c) + t)
  {
  }

  /**
   * Allocation faults: before the buffers are joined a refusal changes nothing; afterwards the pending
   * lines that got a block are committed in order, and exactly the bytes from the refused line on are
   * lost.  The write succeeds if and only if nothing was refused.
   */
  lemma FailureAccounting(d: Device, data: Bytes, copyOk: bool, grants: nat)
    ensures (grants < 2 || !copyOk) ==> Write(d, data, copyOk, grants).0 == d
    ensures 2 <= grants && copyOk ==>
      var r := Write(d, data, copyOk, grants);
      && Accepted(r.0) + Dropped(d, data, grants) == Accepted(d) + data
      && (r.1.Transferred? <==> Dropped(d, data, grants) == [])
      && (r.1.Failed? ==> r.0.tail == [] && |r.0.lines| == |d.lines| + grants - 2)
  {
    hide Lines, Tail, Flatten;
    if 2 <= grants && copyOk {
      var all := d.tail + data;
      var pending := Lines(all);
      SplitRecomposes(all);
      if grants - 2 < |pending| {
        var k := grants - 2;
        FlattenSplit(pending, k);
        FlattenAppend(d.lines, pending[..k]);
        LinesHaveBytes(pending[k..]);
        RegroupDropped(Committed(d), Flatten(pending[..k]), Flatten(pending[k..]), Tail(all));
        Assoc(Committed(d), d.tail, data);
      } else {
        AbsorbConserves(d, data);
      }
    }
  }

  /**
   * What a write answers.  It needs a block for its copy of the data, one for the combined buffer, and one
   * for every newline in the data; it answers the number of bytes passed, and so many more bytes have then
   * been accepted.
   */
  lemma WriteAnswers(d: Device, data: Bytes, copyOk: bool, grants: nat)
    requires WellFormed(d)
    ensures var (e, reply) := Write(d, data, copyOk, grants);
      && (reply == Failed(EFAULT) <==> 0 < grants && !copyOk)
      && (reply == Failed(ENOMEM) <==> grants == 0 || (copyOk && grants < 2 + Newlines(data)))
      && (reply.Failed? ==> reply == Failed(EFAULT) || reply == Failed(ENOMEM))
      && (!reply.Failed? ==> reply == Transferred(|data|))
      && (reply.Transferred? ==> |Accepted(e)| == |Accepted(d)| + reply.count)
  {
    LinesCountNewlines(d.tail + data);
    NewlinesAppend(d.tail, data);
    NoNewlines(d.tail);
    AbsorbConserves(d, data);
  }

  // ----- The sliding window -----

  /** The device keeps ten lines: all of them up to ten, and then exactly the last ten. */
  lemma LastTenLines(d: Device)
    ensures |d.lines| <= 10 ==> Contents(d) == Committed(d)
    ensures |d.lines| >= 10 ==> Contents(d) == Flatten(d.lines[|d.lines| - 10..])
  {
    assert d.lines[0..] == d.lines;
  }

  /** `e` is `d` after some writes: lines are only ever appended. */
  ghost predicate Later(d: Device, e: Device) {
    |d.lines| <= |e.lines| && e.lines[..|d.lines|] == d.lines
  }

  lemma LaterTransitive(d: Device, e: Device, f: Device)
    requires Later(d, e) && Later(e, f)
    ensures Later(d, f)
  {
    assert f.lines[..|d.lines|] == f.lines[..|e.lines|][..|d.lines|];
  }

  lemma WriteIsLater(d: Device, data: Bytes, copyOk: bool, grants: nat)
    ensures Later(d, Write(d, data, copyOk, grants).0)
  {
  }

  /** The readable contents are the committed stream from the base on. */
  lemma ContentsAreStream(d: Device)
    ensures BaseOffset(d) <= |Committed(d)|
    ensures Contents(d) == Committed(d)[BaseOffset(d)..]
    ensures Committed(d) == Committed(d)[..BaseOffset(d)] + Contents(d)
  {
    FlattenSplit(d.lines, Base(d.lines));
    var gone := Flatten(d.lines[..Base(d.lines)]);
    assert Committed(d) == gone + Contents(d);
    assert (gone + Contents(d))[|gone|..] == Contents(d);
  }

  /**
   * Between two moments the window only slides forward: the base grows by exactly the bytes of the
   * lines evicted in between, so it stays put if and only if no line was evicted.
   */
  lemma SlidingWindow(d: Device, e: Device)
    requires WellFormed(e) && Later(d, e)
    ensures Base(d.lines) <= Base(e.lines)
    ensures BaseOffset(e) == BaseOffset(d) + |Flatten(e.lines[Base(d.lines)..Base(e.lines)])|
    ensures BaseOffset(e) == BaseOffset(d) <==> Base(e.lines) == Base(d.lines)
    ensures Base(e.lines) == Base(d.lines) <==> |e.lines| <= CAPACITY || |e.lines| == |d.lines|
  {
    var b, c := Base(d.lines), Base(e.lines);
    FlattenSplit(e.lines[..c], b);
    assert e.lines[..c][..b] == d.lines[..b] by {
      assert e.lines[..c][..b] == e.lines[..|d.lines|][..b];
    }
    assert e.lines[..c][b..] == e.lines[b..c];
    LinesHaveBytes(e.lines[b..c]);
  }

  lemma BaseGrows(d: Device, e: Device)
    requires Later(d, e)
    ensures Base(d.lines) <= Base(e.lines)
  {
  }

  /** The bytes the device still holds: readable ones and the unfinished tail. */
  function Held(d: Device): nat {
    |Contents(d)| + |d.tail|
  }

  lemma BaseOffsetGrows(d: Device, e: Device)
    requires Later(d, e)
    ensures BaseOffset(d) <= BaseOffset(e)
  {
    var b, c := Base(d.lines), Base(e.lines);
    FlattenSplit(e.lines[..c], b);
    assert e.lines[..c][..b] == e.lines[..|d.lines|][..b];
  }

  /** A write never makes the device hold more than it held plus the data. */
  lemma WriteHolds(d: Device, data: Bytes, copyOk: bool, grants: nat)
    ensures Held(Write(d, data, copyOk, grants).0) <= Held(d) + |data|
  {
    hide Write, Contents, BaseOffset;
    var e := Write(d, data, copyOk, grants).0;
    WriteAccepts(d, data, copyOk, grants);
    WriteIsLater(d, data, copyOk, grants);
    ContentsAreStream(d);
    ContentsAreStream(e);
    BaseOffsetGrows(d, e);
  }

  lemma WriteAccepts(d: Device, data: Bytes, copyOk: bool, grants: nat)
    ensures |Accepted(Write(d, data, copyOk, grants).0)| <= |Accepted(d)| + |data|
  {
    hide Write;
    FailureAccounting(d, data, copyOk, grants);
  }

  /** One commit into a full ring moves the base by the size of the line it evicts. */
  lemma CommitMovesBase(d: Device, line: Bytes)
    requires WellFormed(d) && IsLine(line)
    ensures var e := Device(d.lines + [line], d.tail);
      BaseOffset(e) == BaseOffset(d) + if |d.lines| < CAPACITY then 0 else |Window(d.lines)[0]|
  {
    var e := Device(d.lines + [line], d.tail);
    assert e.lines[..|d.lines|] == d.lines;
    SlidingWindow(d, e);
    if |d.lines| >= CAPACITY {
      assert e.lines[Base(d.lines)..Base(e.lines)] == [Window(d.lines)[0]];
      FlattenOne(Window(d.lines)[0]);
    }
  }

  /** While nothing is evicted, newer contents extend older contents. */
  lemma ContentsGrow(d: Device, e: Device)
    requires Later(d, e) && Base(d.lines) == Base(e.lines)
    ensures Contents(e) == Contents(d) + Flatten(e.lines[|d.lines|..])
  {
    var n := |Window(d.lines)|;
    FlattenSplit(Window(e.lines), n);
    assert Window(e.lines)[..n] == Window(d.lines) by {
      assert Window(e.lines)[..n] == e.lines[..|d.lines|][Base(d.lines)..];
    }
    assert Window(e.lines)[n..] == e.lines[|d.lines|..];
  }

  // ----- Reads -----

  lemma PrefixPasses(window: seq<Bytes>, k: nat, e: nat)
    requires Locate(window, k).Some? && e <= |window|
    ensures |Flatten(window[..e])| > k <==> e > LineOf(window, k)
  {
    var (c, o) := Locate(window, k).value;
    SeekInvertsLookup(window, k, c, o);
    if e > c {
      FlattenSplit(window[..e], c + 1);
      assert window[..e][..c + 1] == window[..c] + [window[c]];
      FlattenSnoc(window[..c], window[c]);
    } else {
      FlattenSplit(window[..c], e);
      assert window[..c][..e] == window[..e];
    }
  }

  lemma ReachIsPrefix(window: seq<Bytes>, p: nat, copies: nat)
    requires Locate(window, p).Some?
    ensures p + Reach(window, p, copies) ==
      if copies == 0 then p else |Flatten(window[..Min(LineOf(window, p) + copies, |window|)])|
  {
    var (c, o) := Locate(window, p).value;
    var e := Min(c + copies, |window|);
    SeekInvertsLookup(window, p, c, o);
    FlattenSplit(window[..e], c);
    assert window[..e][..c] == window[..c];
    assert window[..e][c..] == window[c..e];
  }

  /** `n` bytes are within reach if and only if there is a copy for each of their lines. */
  lemma ReachIff(window: seq<Bytes>, p: nat, n: nat, copies: nat)
    requires 0 < n && p + n <= |Flatten(window)|
    ensures n <= Reach(window, p, copies) <==> copies >= LineOf(window, p + n - 1) + 1 - LineOf(window, p)
    ensures LineOf(window, p) <= LineOf(window, p + n - 1) < |window|
  {
    hide Flatten, Locate, Reach;
    LookupFindsTheByte(window, p);
    LookupFindsTheByte(window, p + n - 1);
    ReachIsPrefix(window, p, copies);
    PrefixPasses(window, p, LineOf(window, p));
    PrefixPasses(window, p + n - 1, LineOf(window, p));
    PrefixPasses(window, p + n - 1, Min(LineOf(window, p) + copies, |window|));
  }

  lemma PrefixSlice(s: Bytes, p: nat, a: nat, b: nat)
    requires a <= b
    ensures Slice(s, p, a) <= Slice(s, p, b)
    ensures Slice(s, p, a) == Slice(s, p, b) <==> |Slice(s, p, b)| <= a
  {
  }

  /**
   * A read needs one copy to user space for every line its bytes lie in, never more than CAPACITY.  If so
   * many succeed it delivers all its bytes and answers their number; otherwise it answers EFAULT, and has
   * delivered the bytes up to the end of the last line copied.
   */
  lemma ReadFaultIff(d: Device, p: nat, count: nat, copies: nat)
    ensures ReadReply(d, p, count, copies) ==
      if copies >= Touched(Window(d.lines), p, count) then Transferred(|Slice(Contents(d), p, count)|)
      else Failed(EFAULT)
    ensures ReadReply(d, p, count, copies).Transferred? ==>
      ReadAt(d, p, count, copies) == Slice(Contents(d), p, count)
    ensures ReadReply(d, p, count, copies).Failed? ==>
      p + |ReadAt(d, p, count, copies)| ==
        if copies == 0 then p
        else |Flatten(Window(d.lines)[..Min(LineOf(Window(d.lines), p) + copies, |Window(d.lines)|)])|
    ensures Touched(Window(d.lines), p, count) <= CAPACITY
    ensures ReadAt(d, p, count, copies) == Slice(Contents(d), p, |ReadAt(d, p, count, copies)|)
    ensures ReadAt(d, p, count, copies) <= Slice(Contents(d), p, count)
  {
    hide Reach, Flatten, LineOf, Slice;
    var w := Window(d.lines);
    var n := |Slice(Contents(d), p, count)|;
    PrefixSlice(Contents(d), p, Min(count, Reach(w, p, copies)), count);
    SliceIsExact(Contents(d), p, Min(count, Reach(w, p, copies)));
    if n > 0 {
      LookupFindsTheByte(w, p);
      ReachIff(w, p, n, copies);
      ReachIsPrefix(w, p, copies);
    }
  }

  /** Past the last byte of a line comes the first byte of the next one. */
  lemma NextLine(window: seq<Bytes>, k: nat)
    requires forall i :: 0 <= i < |window| ==> window[i] != []
    requires Locate(window, k).Some?
    ensures var at := Locate(window, k).value;
      Locate(window, k + |window[at.0]| - at.1) == if at.0 + 1 < |window| then Some((at.0 + 1, 0)) else None
  {
    hide Flatten, Locate;
    var (c, o) := Locate(window, k).value;
    var next := k + |window[c]| - o;
    SeekInvertsLookup(window, k, c, o);
    assert window[..c + 1] == window[..c] + [window[c]];
    FlattenSnoc(window[..c], window[c]);
    if c + 1 < |window| {
      SeekInvertsLookup(window, next, c + 1, 0);
    } else {
      assert window[..c + 1] == window;
      LookupFindsTheByte(window, next);
    }
  }

  /** One copy delivers the rest of the line it starts in; the remaining ones go on from there. */
  lemma ReachNext(window: seq<Bytes>, p: nat, copies: nat)
    requires forall i :: 0 <= i < |window| ==> window[i] != []
    requires Locate(window, p).Some? && copies > 0
    ensures var at := Locate(window, p).value;
      var rest := |window[at.0]| - at.1;
      Reach(window, p, copies) == rest + Reach(window, p + rest, copies - 1)
  {
    hide Flatten, Locate;
    var (c, o) := Locate(window, p).value;
    var e := Min(c + copies, |window|);
    assert window[c..e] == [window[c]] + window[c + 1..e];
    FlattenCons(window[c], window[c + 1..e]);
    NextLine(window, p);
    if copies == 1 || c + 1 == |window| {
      assert window[c + 1..e] == [];
      FlattenSplit([], 0);
    }
  }

  lemma NoReach(window: seq<Bytes>, p: nat, copies: nat)
    ensures Locate(window, p) == None || copies == 0 ==> Reach(window, p, copies) == 0
  {
  }

  /** One copy: it ends with the line or with what is asked for. */
  lemma ReadStep(window: seq<Bytes>, p: nat, left: nat, copies: nat)
    requires forall i :: 0 <= i < |window| ==> window[i] != []
    requires Locate(window, p).Some? && copies > 0
    ensures var at := Locate(window, p).value;
      var n := Min(left, |window[at.0]| - at.1);
      Min(left, Reach(window, p, copies)) == n + Min(left - n, Reach(window, p + n, copies - 1))
  {
    hide Reach, Locate;
    ReachNext(window, p, copies);
  }

  // ----- Reads interleaved with writes -----

  /** A read at position p delivers the committed stream from the base plus p on. */
  lemma ReadIsStreamSlice(d: Device, p: nat, count: nat)
    ensures Slice(Contents(d), p, count) == Slice(Committed(d), BaseOffset(d) + p, count)
  {
    ContentsAreStream(d);
  }

  datatype Op = WriteOp(data: Bytes, copyOk: bool, grants: nat) | ReadOp(count: nat, copies: nat)

  /** One descriptor, the device, and what the descriptor's reads have delivered so far. */
  datatype Reader = Reader(dev: Device, pos: nat, got: Bytes)

  function Perform(r: Reader, op: Op): Reader {
    match op
    case WriteOp(data, copyOk, grants) => r.(dev := Write(r.dev, data, copyOk, grants).0)
    case ReadOp(count, copies) =>
      var bytes := ReadAt(r.dev, r.pos, count, copies);
      r.(pos := r.pos + |bytes|, got := r.got + bytes)
  }

  function PerformAll(r: Reader, ops: seq<Op>): Reader
    decreases |ops|
  {
    if ops == [] then r else PerformAll(Perform(r, ops[0]), ops[1..])
  }

  lemma PerformIsLater(r: Reader, op: Op)
    requires WellFormed(r.dev)
    ensures WellFormed(Perform(r, op).dev)
    ensures Later(r.dev, Perform(r, op).dev)
  {
    if op.WriteOp? {
      WriteKeepsWellFormed(r.dev, op.data, op.copyOk, op.grants);
      WriteIsLater(r.dev, op.data, op.copyOk, op.grants);
    }
  }

  lemma {:induction false} PerformAllIsLater(r: Reader, ops: seq<Op>)
    requires WellFormed(r.dev)
    ensures WellFormed(PerformAll(r, ops).dev)
    ensures Later(r.dev, PerformAll(r, ops).dev)
    decreases |ops|
  {
    if ops != [] {
      var s := Perform(r, ops[0]);
      PerformIsLater(r, ops[0]);
      PerformAllIsLater(s, ops[1..]);
      LaterTransitive(r.dev, s.dev, PerformAll(s, ops[1..]).dev);
    }
  }

  /** The descriptor moved over, and delivered, one contiguous piece of the final contents. */
  ghost predicate Contiguous(r: Reader, e: Reader) {
    && e.pos >= r.pos
    && e.got == r.got + Slice(Contents(e.dev), r.pos, e.pos - r.pos)
    && |Slice(Contents(e.dev), r.pos, e.pos - r.pos)| == e.pos - r.pos
  }

  lemma ReadThenContiguous(r: Reader, count: nat, copies: nat, e: Reader)
    requires Later(r.dev, e.dev) && Base(r.dev.lines) == Base(e.dev.lines)
    requires Contiguous(Perform(r, ReadOp(count, copies)), e)
    ensures Contiguous(r, e)
  {
    hide Slice, Contents, Flatten, Base, Reach;
    var c, more := Contents(r.dev), Flatten(e.dev.lines[|r.dev.lines|..]);
    var first := ReadAt(r.dev, r.pos, count, copies);
    SliceIsExact(c, r.pos, Min(count, Reach(Window(r.dev.lines), r.pos, copies)));
    var rest := Slice(Contents(e.dev), r.pos + |first|, e.pos - (r.pos + |first|));
    ContentsGrow(r.dev, e.dev);
    SliceOfLonger(c, more, r.pos, |first|);
    SliceAdjacent(c + more, r.pos, |first|, e.pos - (r.pos + |first|));
    Assoc(r.got, first, rest);
  }

  /**
   * Reads mixed with arbitrary writes, faulty ones included: as long as nothing is evicted, what a
   * descriptor delivers is one contiguous piece of the contents, with no gap and no repeat.
   */
  lemma {:induction false} ReadsAreContiguous(r: Reader, ops: seq<Op>)
    requires WellFormed(r.dev)
    requires Base(PerformAll(r, ops).dev.lines) == Base(r.dev.lines)
    ensures Contiguous(r, PerformAll(r, ops))
    decreases |ops|
  {
    if ops == [] {
      assert r.got + [] == r.got;
    } else {
      var s := Perform(r, ops[0]);
      var e := PerformAll(s, ops[1..]);
      PerformIsLater(r, ops[0]);
      PerformAllIsLater(s, ops[1..]);
      LaterTransitive(r.dev, s.dev, e.dev);
      BaseGrows(r.dev, s.dev);
      BaseGrows(s.dev, e.dev);
      ReadsAreContiguous(s, ops[1..]);
      if ops[0].ReadOp? {
        ReadThenContiguous(r, ops[0].count, ops[0].copies, e);
      }
    }
  }

  /** From a fresh descriptor on a device that has evicted nothing: a prefix of the committed stream. */
  lemma FreshReaderSeesPrefix(d: Device, ops: seq<Op>)
    requires WellFormed(d)
    requires |PerformAll(Reader(d, 0, []), ops).dev.lines| <= CAPACITY
    ensures var e := PerformAll(Reader(d, 0, []), ops);
      |e.got| == e.pos <= |Committed(e.dev)| && e.got == Committed(e.dev)[..e.pos]
  {
    var r := Reader(d, 0, []);
    var e := PerformAll(r, ops);
    PerformAllIsLater(r, ops);
    ReadsAreContiguous(r, ops);
    assert Contents(e.dev) == Committed(e.dev) by { assert e.dev.lines[0..] == e.dev.lines; }
    assert e.got == Slice(Contents(e.dev), 0, e.pos);
  }

  /**
   * When lines are evicted between two reads the second resumes later in the stream than the first
   * stopped, by exactly the evicted bytes: there is a gap if and only if something was evicted.
   */
  lemma GapIsEvictedBytes(r: Reader, count: nat, copies: nat, ops: seq<Op>)
    requires WellFormed(r.dev)
    requires forall i :: 0 <= i < |ops| ==> ops[i].WriteOp?
    ensures var s := Perform(r, ReadOp(count, copies));
      var e := PerformAll(s, ops);
      && e.pos == s.pos
      && Base(r.dev.lines) <= Base(e.dev.lines)
      && BaseOffset(e.dev) + e.pos
          == BaseOffset(s.dev) + s.pos + |Flatten(e.dev.lines[Base(r.dev.lines)..Base(e.dev.lines)])|
      && (BaseOffset(e.dev) + e.pos == BaseOffset(s.dev) + s.pos
          <==> |e.dev.lines| <= CAPACITY || |e.dev.lines| == |r.dev.lines|)
  {
    var s := Perform(r, ReadOp(count, copies));
    PerformAllIsLater(s, ops);
    WritesDoNotMove(s, ops);
    SlidingWindow(s.dev, PerformAll(s, ops).dev);
  }

  /** No write moves a descriptor. */
  lemma {:induction false} WritesDoNotMove(r: Reader, ops: seq<Op>)
    requires forall i :: 0 <= i < |ops| ==> ops[i].WriteOp?
    ensures PerformAll(r, ops).pos == r.pos && PerformAll(r, ops).got == r.got
    decreases |ops|
  {
    if ops != [] {
      WritesDoNotMove(Perform(r, ops[0]), ops[1..]);
    }
  }

  // ----- Draining -----

  /** What successive reads of the given sizes deliver from position p of `s`. */
  function Drain(s: Bytes, p: nat, sizes: seq<nat>): Bytes
    decreases |sizes|
  {
    if sizes == [] then []
    else
      var bytes := Slice(s, p, sizes[0]);
      bytes + Drain(s, p + |bytes|, sizes[1..])
  }

  lemma {:induction false} DrainIsSlice(s: Bytes, p: nat, sizes: seq<nat>)
    ensures Drain(s, p, sizes) == Slice(s, p, |Drain(s, p, sizes)|)
    decreases |sizes|
  {
    hide Slice;
    if sizes == [] {
      EmptySlice(s, p);
    } else {
      var bytes := Slice(s, p, sizes[0]);
      var rest := Drain(s, p + |bytes|, sizes[1..]);
      assert Drain(s, p, sizes) == bytes + rest;
      DrainIsSlice(s, p + |bytes|, sizes[1..]);
      SliceIsExact(s, p, sizes[0]);
      SliceGrows(s, p, bytes, rest);
    }
  }

  /** Reads of positive sizes, repeated until one returns nothing, deliver all that was left. */
  lemma DrainEquivalence(s: Bytes, p: nat, sizes: seq<nat>, last: nat)
    requires 0 < last
    requires Slice(s, p + |Drain(s, p, sizes)|, last) == []
    ensures Drain(s, p, sizes) == From(s, p)
  {
    DrainIsSlice(s, p, sizes);
  }

  lemma {:induction false} DrainMakesProgress(s: Bytes, p: nat, sizes: seq<nat>)
    requires forall i :: 0 <= i < |sizes| ==> 0 < sizes[i]
    ensures |Drain(s, p, sizes)| >= |sizes| || p + |Drain(s, p, sizes)| >= |s|
    decreases |sizes|
  {
    if sizes != [] {
      var n, rest := |Slice(s, p, sizes[0])|, sizes[1..];
      var more := |Drain(s, p + n, rest)|;
      assert |Drain(s, p, sizes)| == n + more;
      assert n >= 1 || p >= |s|;
      DrainMakesProgress(s, p + n, rest);
      assert |rest| == |sizes| - 1;
      assert more >= |rest| || p + n + more >= |s|;
    }
  }

  /** Such reads do reach the end: each one but the last makes progress. */
  lemma DrainEnds(s: Bytes, p: nat, sizes: seq<nat>)
    requires forall i :: 0 <= i < |sizes| ==> 0 < sizes[i]
    requires p + |sizes| >= |s|
    ensures Drain(s, p, sizes) == From(s, p)
  {
    DrainIsSlice(s, p, sizes);
    DrainMakesProgress(s, p, sizes);
  }

  // ----- Seek and lookup -----

  /** The two translations are inverse to each other, and both hit exactly the stored bytes. */
  lemma {:induction false} SeekInvertsLookup(window: seq<Bytes>, k: nat, c: nat, o: nat)
    ensures Locate(window, k) == Some((c, o)) <==> Position(window, c, o) == Some(k)
  {
    if window != [] {
      var w := |window[0]|;
      if k >= w && c > 0 {
        SeekInvertsLookup(window[1..], k - w, c - 1, o);
        assert c <= |window| ==> window[..c][1..] == window[1..][..c - 1];
      } else if c > 0 && c < |window| {
        assert Flatten(window[..c]) == window[0] + Flatten(window[..c][1..]);
      }
    }
  }

  lemma {:induction false} LookupFindsTheByte(window: seq<Bytes>, k: nat)
    ensures Locate(window, k).Some? <==> k < |Flatten(window)|
    ensures match Locate(window, k)
      case None => true
      case Some(p) => p.1 < |window[p.0]| && Flatten(window)[k] == window[p.0][p.1]
  {
    if window != [] && k >= |window[0]| {
      LookupFindsTheByte(window[1..], k - |window[0]|);
    }
  }

  /** From the byte found on, the text continues with the rest of the line it was found in. */
  lemma LookupRun(window: seq<Bytes>, k: nat, n: nat)
    requires Locate(window, k).Some?
    requires Locate(window, k).value.1 + n <= |window[Locate(window, k).value.0]|
    ensures k + n <= |Flatten(window)|
    ensures var at := Locate(window, k).value;
      Slice(Flatten(window), k, n) == window[at.0][at.1..at.1 + n]
  {
    hide Flatten, Slice, Locate;
    var (c, o) := Locate(window, k).value;
    var before, after := Flatten(window[..c]), Flatten(window[c + 1..]);
    SeekInvertsLookup(window, k, c, o);
    assert k == |before| + o;
    FlattenSplit(window, c);
    assert window[c..] == [window[c]] + window[c + 1..];
    FlattenCons(window[c], window[c + 1..]);
    InnerSlice(before, window[c], after, o, n);
  }

  /**
   * What a seek answers.  A pair that names a stored byte is accepted, and the next byte read is that one;
   * every other pair is refused, and the position stays.
   */
  lemma SeekAnswers(d: Device, pos: nat, c: nat, o: nat)
    ensures var w := Window(d.lines);
      var (p, reply) := Seek(d, pos, c, o);
      if c < |w| && o < |w[c]| then
        && reply == Done && p == |Flatten(w[..c])| + o < |Contents(d)|
        && Contents(d)[p] == w[c][o] && Slice(Contents(d), p, 1) == [w[c][o]]
      else p == pos && reply == Failed(EINVAL)
  {
    var w := Window(d.lines);
    if c < |w| && o < |w[c]| {
      var p := Position(w, c, o).value;
      SeekInvertsLookup(w, p, c, o);
      LookupFindsTheByte(w, p);
      assert Slice(Contents(d), p, 1) == Contents(d)[p..p + 1];
    }
  }

  /**
   * What an llseek answers: the position it leads to, which counts from the start, from the current
   * position or from the number of slots; out of range, or with an unknown origin, EINVAL.
   */
  lemma LlseekAnswers(pos: nat, offset: Offset, whence: Whence)
    requires pos <= LOFF_MAX
    ensures var (p, reply) := Llseek(pos, offset, whence);
      && (reply.Moved? ==> reply.pos == p <= 0x7FFF_FFFF_FFFF_FFFF)
      && (!reply.Moved? ==> reply == Failed(EINVAL) && p == pos)
      && (reply.Moved? <==>
            || (whence == SEEK_SET && offset >= 0)
            || (whence == SEEK_CUR && 0 <= pos + offset <= 0x7FFF_FFFF_FFFF_FFFF)
            || (whence == SEEK_END && 0 <= 10 + offset <= 0x7FFF_FFFF_FFFF_FFFF))
      && (reply.Moved? ==> match whence
            case SEEK_SET => p == offset
            case SEEK_CUR => p - pos == offset
            case SEEK_END => p - 10 == offset
            case OTHER => false)
  {
  }

  /** Relative llseeks add up, and one of offset 0 tells the position. */
  lemma RelativeLlseeksAddUp(pos: nat, a: Offset, b: Offset)
    requires pos <= LOFF_MAX && -LOFF_MAX - 1 <= a + b <= LOFF_MAX
    ensures Llseek(pos, 0, SEEK_CUR) == (pos, Moved(pos))
    ensures Llseek(pos, a, SEEK_CUR).1.Moved? ==>
      var p := Llseek(pos, a, SEEK_CUR).0;
      && (Llseek(p, b, SEEK_CUR).1.Moved? <==> Llseek(pos, a + b, SEEK_CUR).1.Moved?)
      && (Llseek(p, b, SEEK_CUR).1.Moved? ==> Llseek(p, b, SEEK_CUR) == Llseek(pos, a + b, SEEK_CUR))
  {
  }

  /** Every stored offset is the target of exactly one accepted seek; all other seeks change nothing. */
  lemma SeekIsABijection(d: Device, pos: nat, k: nat)
    ensures k < |Contents(d)| <==>
      exists c: nat, o: nat :: Seek(d, pos, c, o) == (k, Done)
    ensures forall c: nat, o: nat, c': nat, o': nat ::
      Seek(d, pos, c, o) == (k, Done) && Seek(d, pos, c', o') == (k, Done) ==> c == c' && o == o'
    ensures forall c: nat, o: nat ::
      if c < |Window(d.lines)| && o < |Window(d.lines)[c]| then Seek(d, pos, c, o).1 == Done
      else Seek(d, pos, c, o) == (pos, Failed(EINVAL))
  {
    var w := Window(d.lines);
    LookupFindsTheByte(w, k);
    forall c: nat, o: nat
      ensures Seek(d, pos, c, o) == (k, Done) <==> Locate(w, k) == Some((c, o))
    {
      SeekInvertsLookup(w, k, c, o);
    }
    if k < |Contents(d)| {
      var (c, o) := Locate(w, k).value;
      assert Seek(d, pos, c, o) == (k, Done);
    }
  }
}
