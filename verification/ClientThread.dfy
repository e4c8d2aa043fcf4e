/** data_processing: the life of one connection, served by one thread without interruption. */
module ClientThread {
  import opened ByteStrings
  import opened LineSplitting
  import opened KernelHeap
  import opened DeviceSpec
  import opened CircularBuffers
  import opened CharDevice
  import opened ServerSpec

  /** struct data_packet and the flag of struct socket_processing. */
  class Connection {
    var data: Pointer
    var length: nat
    var endOfPacket: bool
    var connectionActive: bool

    /** The data is followed by a NUL once there is any. */
    ghost predicate Valid()
      reads this, data
    {
      if data == null then length == 0 else data.Length == length + 1 && data[length] == NUL
    }

    ghost function Packet(): Bytes
      reads this, data
    {
      if data == null || length > data.Length then [] else data[..length]
    }

    /** client_handler's set-up of a new client. */
    constructor ()
      ensures Valid() && Packet() == [] && data == null && !endOfPacket && connectionActive
    {
      data, length, endOfPacket, connectionActive := null, 0, false, true;
    }

    /** realloc, memcpy and the terminating NUL. */
    method Append(chunk: Bytes)
      requires Valid()
      modifies this
      ensures Valid() && data != null && fresh(data)
      ensures Packet() == old(Packet()) + chunk
      ensures endOfPacket == old(endOfPacket) && connectionActive == old(connectionActive)
    {
      var grown := new byte[length + |chunk| + 1];
      if data != null {
        forall i | 0 <= i < length {
          grown[i] := data[i];
        }
      }
      forall i | 0 <= i < |chunk| {
        grown[length + i] := chunk[i];
      }
      data := grown;
      length := length + |chunk|;
      data[length] := NUL;
    }

    /** strchr for a newline: stops at the first NUL, which need not be the terminating one. */
    method HasNewline() returns (found: bool)
      requires Valid() && data != null
      ensures found <==> Complete(Packet())
    {
      var i := 0;
      CStringScan(Packet(), 0);
      while data[i] != NL && data[i] != NUL
        invariant i <= length
        invariant NL in CString(Packet()) <==> NL in CString(Packet()[i..])
        decreases length - i
      {
        assert Packet()[i] == data[i];
        CStringScan(Packet(), i);
        i := i + 1;
      }
      if i < length {
        assert Packet()[i..][0] == data[i];
      }
      found := data[i] == NL;
    }
  }

  lemma CStringScan(s: Bytes, i: nat)
    requires i <= |s|
    ensures s[0..] == s
    ensures i < |s| && s[i] != NUL ==> CString(s[i..]) == [s[i]] + CString(s[i + 1..])
  {
    if i < |s| {
      assert s[i..][1..] == s[i + 1..];
    }
  }

  /** send, which takes at least one of the offered bytes. */
  method Send(offered: Bytes) returns (n: nat)
    requires offered != []
    ensures 1 <= n <= |offered|
  {
    n :| 1 <= n <= |offered|;
  }

  /** The critical section after a complete packet: one seek or one write. */
  method Command(dev: AesdDevice, filp: File, packet: Bytes, scan: Scanner)
    requires dev.Valid() && dev.Fits()
    modifies filp, dev, dev.heap, dev.ring, dev.ring.entry, dev.partialBuffer
    ensures dev.Valid() && dev.heap.Evolves()
    ensures dev.partialBuffer == null || dev.partialBuffer == old(dev.partialBuffer) || fresh(dev.partialBuffer)
    ensures (dev.Abs(), filp.pos) ==
      Act(old(dev.Abs()), old(filp.pos), CommandOf(scan, packet), packet, old(dev.heap.grants))
    ensures forall x: nat, y: nat :: ScansAs(scan, packet, x, y) ==>
      dev.Abs() == old(dev.Abs()) && filp.pos == Seek(dev.Abs(), old(filp.pos), x, y).0
    ensures IsData(scan, packet) ==>
      filp.pos == old(filp.pos) && dev.Abs() == Write(old(dev.Abs()), packet, true, old(dev.heap.grants)).0
  {
    hide CircularBuffer.Valid, AesdDevice.Consistent, Flatten, Window, CString, Lines, Tail, IsData, ScansAs;
    DataIsWritten(scan, packet);
    var numbers := scan(CString(packet));
    if numbers.Some? && numbers.value.0 < CAPACITY {
      var reply := dev.SetPos(filp, numbers.value.0, numbers.value.1, true);
    } else {
      var reply := dev.Write(packet, true);
    }
  }

  /** The inner loop of stream_file_reader: one buffer of data, in as many sends as it takes. */
  method SendAll(buffer: array<byte>, bytesRead: nat) returns (sent: Bytes)
    requires bytesRead <= buffer.Length
    ensures sent == buffer[..bytesRead]
  {
    var totalSent := 0;
    sent := [];
    while totalSent < bytesRead
      invariant totalSent <= bytesRead && sent == buffer[..totalSent]
    {
      var n := Send(buffer[totalSent..bytesRead]);
      sent := sent + buffer[totalSent..totalSent + n];
      totalSent := totalSent + n;
    }
  }

  /** read on the device: the next bytes of its contents, at most CHUNK of them. */
  method ReadChunk(dev: AesdDevice, filp: File, buffer: array<byte>) returns (n: nat)
    requires dev.Valid() && dev.Fits() && buffer.Length > CHUNK && buffer !in dev.heap.issued
    modifies filp, buffer
    ensures dev.Valid() && dev.Abs() == old(dev.Abs())
    ensures n <= CHUNK && buffer[..n] == Slice(Contents(dev.Abs()), old(filp.pos), CHUNK)
    ensures filp.pos == old(filp.pos) + n
  {
    hide AesdDevice.Valid, Slice, Contents, Reach;
    ReadFaultIff(dev.Abs(), filp.pos, CHUNK, CAPACITY);
    var reply := dev.Read(filp, buffer, CHUNK, CAPACITY);
    n := reply.count;
  }

  /** stream_file_reader: however the reads and sends fall, everything from the position on is sent. */
  method StreamFileReader(dev: AesdDevice, filp: File) returns (sent: Bytes)
    requires dev.Valid() && dev.Fits()
    modifies filp
    ensures sent == From(Contents(dev.Abs()), old(filp.pos))
    ensures filp.pos == old(filp.pos) + |sent|
  {
    hide AesdDevice.Valid, Flatten, Window;
    ghost var text := Contents(dev.Abs());
    var buffer := new byte[CHUNK + 1];
    sent := [];
    EmptySlice(text, filp.pos);
    var bytesRead := ReadChunk(dev, filp, buffer);
    ghost var p := old(filp.pos);
    while bytesRead > 0
      invariant 0 <= bytesRead <= CHUNK && buffer[..bytesRead] == Slice(text, p + |sent|, CHUNK)
      invariant filp.pos == p + |sent| + bytesRead
      invariant sent == Slice(text, p, |sent|)
      decreases |text| - p - |sent|
    {
      var piece := SendAll(buffer, bytesRead);
      SliceIsExact(text, p + |sent|, CHUNK);
      SliceGrows(text, p, sent, piece);
      sent := sent + piece;
      bytesRead := ReadChunk(dev, filp, buffer);
    }
    SliceSaturates(text, p, |sent|, |text| + |sent|);
  }

  /** The rest of a turn of the receive loop: command and stream, once the packet is complete. */
  method AnswerIfComplete(sp: Connection, dev: AesdDevice, filp: File, scan: Scanner) returns (sent: Bytes)
    requires sp.Valid() && sp.data != null && !sp.endOfPacket && sp.connectionActive
    requires dev.Valid()
    requires Complete(sp.Packet()) ==> ServeFits(dev.Abs(), sp.Packet(), scan, dev.heap.grants)
    requires filp.pos == 0 && sp.data != dev.partialBuffer
    modifies sp`endOfPacket, sp`connectionActive
    modifies filp, dev, dev.heap, dev.ring, dev.ring.entry, dev.partialBuffer
    ensures dev.Valid() && dev.heap.Evolves() && sp.Valid() && sp.Packet() == old(sp.Packet())
    ensures sp.endOfPacket == !sp.connectionActive == Complete(sp.Packet())
    ensures Complete(sp.Packet()) ==>
      (dev.Abs(), sent) == Serve(old(dev.Abs()), sp.Packet(), scan, old(dev.heap.grants))
    ensures !Complete(sp.Packet()) ==>
      && sent == [] && filp.pos == 0 && dev.Abs() == old(dev.Abs())
      && dev.partialBuffer == old(dev.partialBuffer) && dev.heap.grants == old(dev.heap.grants)
  {
    hide AesdDevice.Valid, Complete, CommandOf, Act, Contents, From;
    sent := [];
    var newline := sp.HasNewline();
    if newline {
      sp.endOfPacket := true;
      Command(dev, filp, sp.data[..sp.length], scan);
    }
    if sp.endOfPacket {
      sp.connectionActive := false;
      sent := StreamFileReader(dev, filp);
    }
  }

  /**
   * data_processing.  `chunks` are what recv returns, one after the other; after them recv fails.  The
   * packet is complete with the first chunk that makes it so; then there is one device command, and one
   * stream of what the device holds from the descriptor's position on.
   */
  method DataProcessing(sp: Connection, dev: AesdDevice, chunks: seq<Bytes>, scan: Scanner)
    returns (sent: Bytes)
    requires sp.Valid() && sp.data == null && !sp.endOfPacket && sp.connectionActive
    requires dev.Valid()
    requires match Gather([], chunks)
      case None => true
      case Some(packet) => ServeFits(dev.Abs(), packet, scan, dev.heap.grants)
    modifies sp, dev, dev.heap, dev.ring, dev.ring.entry, dev.partialBuffer
    ensures dev.Valid() && dev.heap.Evolves()
    ensures match Gather([], chunks)
      case None => sent == [] && dev.Abs() == old(dev.Abs()) && sp.connectionActive && !sp.endOfPacket
      case Some(packet) =>
        && (dev.Abs(), sent) == Serve(old(dev.Abs()), packet, scan, old(dev.heap.grants))
        && sp.Packet() == packet && !sp.connectionActive && sp.endOfPacket
  {
    hide AesdDevice.Valid, Complete, Serve, ServeFits, Connection.Valid;
    var filp := new File();
    sent := [];
    var i := 0;
    assert chunks[0..] == chunks;
    while sp.connectionActive && i < |chunks|
      invariant i <= |chunks| && dev.Valid() && dev.heap.Evolves()
      invariant sp.Valid() && (sp.data == null || fresh(sp.data))
      invariant sp.connectionActive ==>
        && !sp.endOfPacket && sent == [] && filp.pos == 0
        && dev.Abs() == old(dev.Abs()) && dev.heap.grants == old(dev.heap.grants)
        && dev.partialBuffer == old(dev.partialBuffer)
        && Gather([], chunks) == Gather(sp.Packet(), chunks[i..])
      invariant !sp.connectionActive ==>
        && sp.endOfPacket && Gather([], chunks) == Some(sp.Packet())
        && (dev.Abs(), sent) == Serve(old(dev.Abs()), sp.Packet(), scan, old(dev.heap.grants))
      decreases |chunks| - i
    {
      NextChunkOf(chunks, i);
      sp.Append(chunks[i]);
      sent := AnswerIfComplete(sp, dev, filp, scan);
      i := i + 1;
    }
  }

  lemma NextChunkOf(chunks: seq<Bytes>, i: nat)
    requires i < |chunks|
    ensures chunks[i..][0] == chunks[i] && chunks[i..][1..] == chunks[i + 1..]
  {
  }
}
