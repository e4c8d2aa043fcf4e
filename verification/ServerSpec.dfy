/** What one connection of the socket server does, as a value: packet, command, response. */
module ServerSpec {
  import opened ByteStrings
  import opened DeviceSpec

  /** sizeof(buffer) - 1: the most one recv or one read transfers. */
  const CHUNK: nat := 1023

  /**
   * The seek command's text, as sscanf reads it from the start of a string: the two numbers when both
   * conversions succeed.  The server's behaviour is studied for every such parser.
   */
  type Scanner = Bytes -> Option<(nat, nat)>

  /** The C string at the start of `s`: everything before the first NUL. */
  function CString(s: Bytes): Bytes {
    if s == [] || s[0] == NUL then [] else [s[0]] + CString(s[1..])
  }

  /** strchr finds a newline: the packet counts as complete. */
  predicate Complete(packet: Bytes) {
    NL in CString(packet)
  }

  lemma {:induction false} CStringEnds(s: Bytes)
    ensures CString(s) <= s && NUL !in CString(s)
    ensures |CString(s)| < |s| ==> s[|CString(s)|] == NUL
  {
    if s != [] && s[0] != NUL {
      CStringEnds(s[1..]);
    }
  }

  /** A packet is complete if and only if it has a newline that no NUL precedes. */
  lemma CompleteIff(packet: Bytes)
    ensures Complete(packet) <==> exists i :: 0 <= i < |packet| && packet[i] == NL && NUL !in packet[..i]
  {
    var s := CString(packet);
    CStringEnds(packet);
    if Complete(packet) {
      var i :| 0 <= i < |s| && s[i] == NL;
      assert packet[i] == NL && packet[..i] == s[..i];
    }
    if i :| 0 <= i < |packet| && packet[i] == NL && NUL !in packet[..i] {
      assert s[i] == NL;
    }
  }

  /** For input without NUL bytes a packet is complete as soon as it contains a newline. */
  lemma {:induction false} CompleteWithoutNul(packet: Bytes)
    requires NUL !in packet
    ensures CString(packet) == packet
    ensures Complete(packet) <==> NL in packet
  {
    if packet != [] {
      CompleteWithoutNul(packet[1..]);
    }
  }

  /** The packet collected when it first is complete, starting from what has arrived so far. */
  function Gather(sofar: Bytes, chunks: seq<Bytes>): Option<Bytes>
    decreases |chunks|
  {
    if chunks == [] then None
    else if Complete(sofar + chunks[0]) then Some(sofar + chunks[0])
    else Gather(sofar + chunks[0], chunks[1..])
  }

  /** The packet is made of the first `k` chunks, and no fewer would have completed it. */
  ghost predicate FirstComplete(chunks: seq<Bytes>, k: nat) {
    && 0 < k <= |chunks| && Complete(Flatten(chunks[..k]))
    && forall j :: 0 < j < k ==> !Complete(Flatten(chunks[..j]))
  }

  datatype Command = SeekTo(writeCmd: nat, writeCmdOffset: nat) | WriteAll

  /** A seek only if both numbers are there and the first is below the capacity; everything else is data. */
  function CommandOf(scan: Scanner, packet: Bytes): Command {
    match scan(CString(packet))
    case None => WriteAll
    case Some(p) => if p.0 < CAPACITY then SeekTo(p.0, p.1) else WriteAll
  }

  /** The packet scans as a seek to byte `y` of command `x`, one of the ten there can be. */
  ghost predicate ScansAs(scan: Scanner, packet: Bytes, x: nat, y: nat) {
    scan(CString(packet)) == Some((x, y)) && x < 10
  }

  /** The packet is data. */
  ghost predicate IsData(scan: Scanner, packet: Bytes) {
    forall x: nat, y: nat :: !ScansAs(scan, packet, x, y)
  }

  lemma DataIsWritten(scan: Scanner, packet: Bytes)
    ensures IsData(scan, packet) <==> CommandOf(scan, packet) == WriteAll
    ensures forall x: nat, y: nat :: ScansAs(scan, packet, x, y) <==> CommandOf(scan, packet) == SeekTo(x, y)
  {
    match scan(CString(packet)) {
      case None =>
      case Some(p) => assert ScansAs(scan, packet, p.0, p.1) <==> p.0 < 10;
    }
  }

  /** The device and the position after the one command of a connection whose descriptor is at `pos`. */
  function Act(d: Device, pos: nat, c: Command, packet: Bytes, grants: nat): (Device, nat) {
    match c
    case SeekTo(x, y) => (d, Seek(d, pos, x, y).0)
    case WriteAll => (Write(d, packet, true, grants).0, pos)
  }

  /** One connection served without interruption: the device it leaves and the bytes it sends. */
  function Serve(d: Device, packet: Bytes, scan: Scanner, grants: nat): (Device, Bytes) {
    var (d', pos) := Act(d, 0, CommandOf(scan, packet), packet, grants);
    (d', From(Contents(d'), pos))
  }

  /** Serving the packet never leaves more to read than a position can count. */
  predicate ServeFits(d: Device, packet: Bytes, scan: Scanner, grants: nat) {
    |Contents(d)| <= LOFF_MAX && |Contents(Serve(d, packet, scan, grants).0)| <= LOFF_MAX
  }

  /** It is enough that what the device holds and the packet fit together. */
  lemma EnoughRoom(d: Device, packet: Bytes, scan: Scanner, grants: nat)
    requires Held(d) + |packet| <= LOFF_MAX
    ensures ServeFits(d, packet, scan, grants)
  {
    WriteHolds(d, packet, true, grants);
  }

  /** Receive reassembly: the packet is the concatenation of the chunks up to the one that completes it. */
  lemma GatherIsFirstComplete(chunks: seq<Bytes>)
    ensures Gather([], chunks).Some? <==> exists k: nat :: FirstComplete(chunks, k)
    ensures forall k: nat :: FirstComplete(chunks, k) ==> Gather([], chunks) == Some(Flatten(chunks[..k]))
  {
    assert chunks == [] + chunks;
    assert chunks[0..] == chunks;
    GatherFrom(chunks, 0);
    if Gather([], chunks).Some? {
      var k := GatherStops(chunks, 0);
    }
  }

  lemma {:induction false} GatherFrom(chunks: seq<Bytes>, i: nat)
    requires i <= |chunks|
    ensures forall k: nat :: i < k && FirstComplete(chunks, k) ==>
      Gather(Flatten(chunks[..i]), chunks[i..]) == Some(Flatten(chunks[..k]))
    decreases |chunks| - i
  {
    if i < |chunks| {
      NextPrefix(chunks, i);
      GatherFrom(chunks, i + 1);
    }
  }

  lemma {:induction false} GatherStops(chunks: seq<Bytes>, i: nat) returns (k: nat)
    requires i <= |chunks|
    requires forall j :: 0 < j <= i ==> !Complete(Flatten(chunks[..j]))
    requires Gather(Flatten(chunks[..i]), chunks[i..]).Some?
    ensures FirstComplete(chunks, k)
    decreases |chunks| - i
  {
    NextPrefix(chunks, i);
    if Complete(Flatten(chunks[..i + 1])) {
      k := i + 1;
    } else {
      k := GatherStops(chunks, i + 1);
    }
  }

  lemma NextPrefix(chunks: seq<Bytes>, i: nat)
    requires i < |chunks|
    ensures Flatten(chunks[..i]) + chunks[i..][0] == Flatten(chunks[..i + 1])
    ensures chunks[i..][1..] == chunks[i + 1..]
  {
    assert chunks[..i + 1] == chunks[..i] + [chunks[i]];
    FlattenSnoc(chunks[..i], chunks[i]);
  }
}
