/** What a client gets back. */
module ServerResponses {
  import opened ByteStrings
  import opened LineSplitting
  import opened DeviceSpec
  import opened ServerSpec
  import opened ServerProtocol
  import opened ServerInvariant

  /** The device just before thread `c`'s command. */
  function Before(s: Server, c: Conn): Device
    requires c.event < |s.log|
  {
    Replay(s.log[..c.event])
  }

  /** The device at the moment thread `c` took the mutex to stream. */
  function AtStream(s: Server, c: Conn): Device
    requires c.snapshot <= |s.log|
  {
    Replay(s.log[..c.snapshot])
  }

  /** The device just after it. */
  function After(s: Server, c: Conn): Device
    requires c.event < |s.log|
  {
    Replay(s.log[..c.event + 1])
  }

  lemma {:induction false} ReplayWellFormed(log: seq<Event>)
    ensures WellFormed(Replay(log))
    decreases |log|
  {
    if log != [] {
      var init, e := log[..|log| - 1], log[|log| - 1];
      ReplayWellFormed(init);
      WriteKeepsWellFormed(Replay(init), e.packet, true, e.grants);
    }
  }

  lemma LaterReflexive(d: Device)
    ensures Later(d, d)
  {
  }

  lemma EventIsLater(log: seq<Event>, k: nat)
    requires k < |log|
    ensures Later(Replay(log[..k]), Replay(log[..k + 1]))
  {
    var e := log[k];
    assert log[..k + 1] == log[..k] + [e];
    ReplaySnoc(log[..k], e);
    WriteIsLater(Replay(log[..k]), e.packet, true, e.grants);
  }

  /** A longer log only adds lines. */
  lemma {:induction false} ReplayLater(log: seq<Event>, j: nat, k: nat)
    requires j <= k <= |log|
    ensures Later(Replay(log[..j]), Replay(log[..k]))
    decreases k
  {
    hide Later;
    if j == k {
      LaterReflexive(Replay(log[..j]));
    } else {
      ReplayLater(log, j, k - 1);
      EventIsLater(log, k - 1);
      LaterTransitive(Replay(log[..j]), Replay(log[..k - 1]), Replay(log[..k]));
    }
  }

  /** A command of the log, and what comes after it. */
  lemma DevicesAround(log: seq<Event>, j: nat, k: nat)
    requires j < k <= |log|
    ensures Replay(log[..j + 1]) == Act(Replay(log[..j]), 0, log[j].command, log[j].packet, log[j].grants).0
    ensures Later(Replay(log[..j + 1]), Replay(log[..k]))
    ensures WellFormed(Replay(log[..j])) && WellFormed(Replay(log[..k]))
  {
    hide Act, Replay, Later, WellFormed;
    assert log[..j + 1] == log[..j] + [log[j]];
    ReplaySnoc(log[..j], log[j]);
    ReplayLater(log, j + 1, k);
    ReplayWellFormed(log[..j]);
    ReplayWellFormed(log[..k]);
  }

  lemma AnsweredFrom(scan: Scanner, s: Server, t: nat)
    requires Inv(scan, s) && t < |s.conns| && s.conns[t].answered
    ensures var c := s.conns[t];
      && c.event < c.snapshot <= |s.log|
      && s.log[c.event].packet == c.packet && s.log[c.event].command == CommandOf(scan, c.packet)
      && c.sent == From(Contents(AtStream(s, c)), PosAfter(s.log, c.event))
  {
    hide LogOk, PacketOk, PosAfter, Replay, CommandOf, From, Contents;
    assert ConnOk(scan, s, t);
  }

  /** A finished response, in terms of the device before the thread's command and at its stream. */
  lemma AnsweredFacts(scan: Scanner, s: Server, t: nat)
    requires Inv(scan, s) && t < |s.conns| && s.conns[t].answered
    ensures var c := s.conns[t];
      && c.event < c.snapshot <= |s.log|
      && var act := Act(Before(s, c), 0, CommandOf(scan, c.packet), c.packet, s.log[c.event].grants);
      && c.sent == From(Contents(AtStream(s, c)), act.1)
      && Replay(s.log[..c.event + 1]) == act.0
      && Later(act.0, AtStream(s, c)) && WellFormed(Before(s, c)) && WellFormed(AtStream(s, c))
  {
    hide Inv, Replay, Act, CommandOf, From, Contents, Later, WellFormed;
    var c := s.conns[t];
    AnsweredFrom(scan, s, t);
    DevicesAround(s.log, c.event, c.snapshot);
  }

  /** A thread nobody's command came in between of is answered as if it had been served alone. */
  lemma UndisturbedResponse(scan: Scanner, steps: seq<Step>, t: nat)
    requires Legal(scan, INIT, steps)
    requires t < |Run(scan, INIT, steps).conns| && Run(scan, INIT, steps).conns[t].answered
    ensures var s := Run(scan, INIT, steps); var c := s.conns[t];
      && c.event < |s.log|
      && (c.snapshot == c.event + 1 ==>
            (AtStream(s, c), c.sent) == Serve(Before(s, c), c.packet, scan, s.log[c.event].grants))
  {
    ReachableInv(scan, steps);
    AnsweredFacts(scan, Run(scan, INIT, steps), t);
  }

  // ----- Read your own packet -----

  /** Lines committed at one moment are readable, together, for as long as ten lines are not exceeded. */
  lemma CommittedStayTogether(d: Device, ls: seq<Bytes>, e: Device)
    requires Later(Device(d.lines + ls, []), e)
    requires |e.lines| <= |d.lines| + CAPACITY
    ensures Occurs(Flatten(ls), Contents(e))
  {
    var b, m := Base(e.lines), |d.lines|;
    var w := Window(e.lines);
    assert e.lines[..m + |ls|] == d.lines + ls;
    FlattenSplit(w, m - b);
    FlattenSplit(w[m - b..], |ls|);
    assert w[m - b..][..|ls|] == ls by {
      assert w[m - b..][..|ls|] == e.lines[..m + |ls|][m..];
    }
    Assoc(Flatten(w[..m - b]), Flatten(ls), Flatten(w[m - b..][|ls|..]));
    assert Contents(e) == Flatten(w[..m - b]) + Flatten(ls) + Flatten(w[m - b..][|ls|..]);
  }

  /**
   * The ten-line condition is exact: the first byte committed after `d` can still be read from `e` if and
   * only if at most ten lines have been committed since.
   */
  lemma StillReadableIff(d: Device, e: Device)
    requires WellFormed(e) && Later(d, e)
    ensures BaseOffset(e) <= |Committed(d)| <==> |e.lines| <= |d.lines| + CAPACITY
  {
    var b, m := Base(e.lines), |d.lines|;
    if b <= m {
      FlattenSplit(d.lines, b);
      assert d.lines[..b] == e.lines[..b];
    } else {
      FlattenSplit(e.lines[..b], m);
      assert e.lines[..b][..m] == d.lines;
      LinesHaveBytes(e.lines[..b][m..]);
    }
  }

  lemma LastByte(f: Bytes, t: Bytes)
    ensures t == [] || (f + t)[|f + t| - 1] in t
  {
  }

  lemma EndsInNewline(s: Bytes)
    requires s != [] && s[|s| - 1] == NL
    ensures Tail(s) == [] && Flatten(Lines(s)) == s
  {
    SplitRecomposes(s);
    var f, t := Flatten(Lines(s)), Tail(s);
    LastByte(f, t);
    assert f + [] == f;
  }

  /**
   * Read your own packet: a client whose packet was written without refusals gets back, in one piece, all
   * the lines its packet completed, as long as at most ten lines were committed from its write, its own
   * included, up to its stream.
   */
  lemma ReadYourOwnLines(scan: Scanner, steps: seq<Step>, t: nat)
    requires Legal(scan, INIT, steps)
    requires t < |Run(scan, INIT, steps).conns| && Run(scan, INIT, steps).conns[t].answered
    ensures var s := Run(scan, INIT, steps); var c := s.conns[t];
      && c.event < |s.log| && c.snapshot <= |s.log|
      && (IsData(scan, c.packet)
          && Write(Before(s, c), c.packet, true, s.log[c.event].grants).1.Transferred?
          && |AtStream(s, c).lines| <= |Before(s, c).lines| + CAPACITY
          ==> Occurs(Flatten(Lines(Before(s, c).tail + c.packet)), c.sent))
  {
    var s := Run(scan, INIT, steps);
    var c := s.conns[t];
    ReachableInv(scan, steps);
    AnsweredFacts(scan, s, t);
    DataIsWritten(scan, c.packet);
    if && IsData(scan, c.packet)
       && Write(Before(s, c), c.packet, true, s.log[c.event].grants).1.Transferred?
       && |AtStream(s, c).lines| <= |Before(s, c).lines| + CAPACITY {
      CommittedStayTogether(Before(s, c), Lines(Before(s, c).tail + c.packet), AtStream(s, c));
      assert c.sent == Contents(AtStream(s, c));
    }
  }

  /** In particular the packet itself, when it ends in a newline and no unfinished data preceded it. */
  lemma ReadYourOwnPacket(scan: Scanner, steps: seq<Step>, t: nat)
    requires Legal(scan, INIT, steps)
    requires t < |Run(scan, INIT, steps).conns| && Run(scan, INIT, steps).conns[t].answered
    ensures var s := Run(scan, INIT, steps); var c := s.conns[t];
      && c.event < |s.log| && c.snapshot <= |s.log|
      && (IsData(scan, c.packet)
          && Write(Before(s, c), c.packet, true, s.log[c.event].grants).1.Transferred?
          && |AtStream(s, c).lines| <= |Before(s, c).lines| + CAPACITY
          && Before(s, c).tail == [] && c.packet != [] && c.packet[|c.packet| - 1] == NL
          ==> Occurs(c.packet, c.sent))
  {
    var s := Run(scan, INIT, steps);
    var c := s.conns[t];
    ReadYourOwnLines(scan, steps, t);
    if Before(s, c).tail == [] && c.packet != [] && c.packet[|c.packet| - 1] == NL {
      assert [] + c.packet == c.packet;
      EndsInNewline(c.packet);
    }
  }

  // ----- Seek -----

  /** From byte `o` of line `c` of a text to the end of a longer text. */
  lemma FromPosition(w: seq<Bytes>, more: Bytes, c: nat, o: nat)
    requires c < |w| && o < |w[c]|
    ensures Position(w, c, o).Some?
    ensures From(Flatten(w) + more, Position(w, c, o).value) == w[c][o..] + Flatten(w[c + 1..]) + more
  {
    var before, after := Flatten(w[..c]), Flatten(w[c + 1..]);
    FlattenSplit(w, c);
    assert w[c..] == [w[c]] + w[c + 1..];
    FlattenCons(w[c], w[c + 1..]);
    DropInside(before, w[c], after, more, o);
  }

  lemma DropInside(before: Bytes, line: Bytes, after: Bytes, more: Bytes, o: nat)
    requires o < |line|
    ensures From(before + (line + after) + more, |before| + o) == line[o..] + after + more
  {
    var all := before + (line + after) + more;
    assert all == (before + line[..o]) + (line[o..] + after + more);
  }

  lemma FromBase(d: Device, p: nat)
    ensures From(Contents(d), p) == From(Committed(d), BaseOffset(d) + p)
  {
    ContentsAreStream(d);
  }

  /** What a descriptor reads to the end of `e` after a seek on the earlier device `d`. */
  ghost predicate AnswersSeek(d: Device, e: Device, x: nat, y: nat, sent: Bytes)
    requires Later(d, e)
  {
    var w := Window(d.lines);
    if x < |w| && y < |w[x]| then
      && Position(w, x, y).Some?
      && sent == From(Committed(e), BaseOffset(e) + Position(w, x, y).value)
      && (Base(e.lines) == Base(d.lines) ==>
            sent == w[x][y..] + Flatten(w[x + 1..]) + Flatten(e.lines[|d.lines|..]))
    else sent == Contents(e)
  }

  lemma SeekThenRead(d: Device, e: Device, x: nat, y: nat)
    requires Later(d, e)
    ensures AnswersSeek(d, e, x, y, From(Contents(e), Seek(d, 0, x, y).0))
  {
    hide Flatten, BaseOffset, Committed, Base;
    var w := Window(d.lines);
    if x < |w| && y < |w[x]| {
      FromBase(e, Position(w, x, y).value);
      if Base(e.lines) == Base(d.lines) {
        ContentsGrow(d, e);
        FromPosition(w, Flatten(e.lines[|d.lines|..]), x, y);
      }
    }
  }

  /**
   * Seek, end to end: a packet that scans as a seek to byte y of command x leaves the device as it is, and
   * the response starts with exactly that byte of that command as the device held it at the seek, and goes
   * on to the end of what it held at the stream, provided nothing was evicted in between; by SlidingWindow
   * every evicted byte makes it start one byte later in the committed stream.  A refused seek is answered
   * with everything.  So is a packet that is data; if its write is accepted, the device has accepted its
   * bytes.
   */
  lemma SeekResponse(scan: Scanner, steps: seq<Step>, t: nat)
    requires Legal(scan, INIT, steps)
    requires t < |Run(scan, INIT, steps).conns| && Run(scan, INIT, steps).conns[t].answered
    ensures var s := Run(scan, INIT, steps); var conn := s.conns[t];
      && conn.event < |s.log| && conn.snapshot <= |s.log|
      && Later(Before(s, conn), AtStream(s, conn))
      && (forall x: nat, y: nat :: ScansAs(scan, conn.packet, x, y) ==>
            After(s, conn) == Before(s, conn) && AnswersSeek(Before(s, conn), AtStream(s, conn), x, y, conn.sent))
      && (IsData(scan, conn.packet) ==>
            && conn.sent == Contents(AtStream(s, conn))
            && (2 + Newlines(conn.packet) <= s.log[conn.event].grants ==>
                  Accepted(After(s, conn)) == Accepted(Before(s, conn)) + conn.packet))
  {
    hide Inv, AnswersSeek, Seek, From, IsData, Write, WellFormed, Accepted;
    var s := Run(scan, INIT, steps);
    var conn := s.conns[t];
    ReachableInv(scan, steps);
    AnsweredFacts(scan, s, t);
    ReplayLater(s.log, conn.event, conn.snapshot);
    DataIsWritten(scan, conn.packet);
    FromStart(Contents(AtStream(s, conn)));
    match CommandOf(scan, conn.packet) {
      case WriteAll => EnoughMemory(Before(s, conn), conn.packet, s.log[conn.event].grants);
      case SeekTo(x, y) => SeekThenRead(Before(s, conn), AtStream(s, conn), x, y);
    }
  }

  lemma FromStart(s: Bytes)
    ensures From(s, 0) == s
  {
  }

  lemma EnoughMemory(d: Device, data: Bytes, grants: nat)
    requires WellFormed(d)
    ensures 2 + Newlines(data) <= grants ==> Accepted(Write(d, data, true, grants).0) == Accepted(d) + data
  {
    WriteAnswers(d, data, true, grants);
    AbsorbConserves(d, data);
  }

  /** The same for a connection served alone. */
  lemma ServedAlone(d: Device, packet: Bytes, scan: Scanner, grants: nat)
    requires WellFormed(d)
    ensures var (e, sent) := Serve(d, packet, scan, grants);
      && (forall x: nat, y: nat :: ScansAs(scan, packet, x, y) ==>
            var w := Window(d.lines);
            && e == d
            && sent == if x < |w| && y < |w[x]| then w[x][y..] + Flatten(w[x + 1..]) else Contents(d))
      && (IsData(scan, packet) ==>
            && sent == Contents(e)
            && (2 + Newlines(packet) <= grants ==> Accepted(e) == Accepted(d) + packet))
  {
    hide IsData, Seek, Write, Position, Flatten, From, Accepted, WellFormed;
    DataIsWritten(scan, packet);
    FromStart(Contents(Serve(d, packet, scan, grants).0));
    match CommandOf(scan, packet) {
      case WriteAll => EnoughMemory(d, packet, grants);
      case SeekTo(x, y) => SeekAlone(d, x, y);
    }
  }

  lemma SeekAlone(d: Device, x: nat, y: nat)
    ensures var w := Window(d.lines);
      From(Contents(d), Seek(d, 0, x, y).0) ==
        if x < |w| && y < |w[x]| then w[x][y..] + Flatten(w[x + 1..]) else Contents(d)
  {
    var w := Window(d.lines);
    if x < |w| && y < |w[x]| {
      FromPosition(w, [], x, y);
      assert Flatten(w) + [] == Flatten(w);
      assert w[x][y..] + Flatten(w[x + 1..]) + [] == w[x][y..] + Flatten(w[x + 1..]);
    }
  }
}
