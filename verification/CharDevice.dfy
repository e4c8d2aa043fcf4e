/** The aesdchar driver: one device, its file operations, and its module entry and exit. */
module CharDevice {
  import opened ByteStrings
  import opened LineSplitting
  import opened KernelHeap
  import opened DeviceSpec
  import opened CircularBuffers

  /** A sum of two loff_t values that exceeds the largest one comes out negative. */
  function WrapSigned(x: int): int {
    if x > LOFF_MAX then x - SIZE_T else x
  }

  /** The open file description: all the driver uses of it is the position. */
  class File {
    var pos: nat

    constructor ()
      ensures pos == 0
    {
      pos := 0;
    }
  }

  /**
   * Where the splitting of `all` stands after `k` commits: `h` has grown from `h0` by the first k lines
   * of `all`, `rest` is what follows them, and `g` allocations of the initial `g0` are left.
   */
  ghost predicate SplitAt(h0: seq<Bytes>, all: Bytes, g0: nat, k: nat, h: seq<Bytes>, rest: Bytes, g: nat) {
    && k <= |Lines(all)| && g == g0 - k
    && h == h0 + Lines(all)[..k]
    && Lines(rest) == Lines(all)[k..] && Tail(rest) == Tail(all)
  }

  lemma SplitStart(h0: seq<Bytes>, all: Bytes, g0: nat)
    ensures SplitAt(h0, all, g0, 0, h0, all, g0)
  {
    assert h0 + Lines(all)[..0] == h0;
  }

  lemma SplitStep(h0: seq<Bytes>, all: Bytes, g0: nat, k: nat, h: seq<Bytes>, rest: Bytes, g: nat)
    requires SplitAt(h0, all, g0, k, h, rest, g)
    requires g > 0 && FirstNewline(rest) < |rest|
    ensures var n := FirstNewline(rest) + 1;
      SplitAt(h0, all, g0, k + 1, h + [rest[..n]], rest[n..], g - 1)
  {
    FirstLine(rest);
    TakeNext(h0, Lines(all), k);
  }

  /** Out of lines, or out of memory with a line still to go. */
  lemma SplitEnd(h0: seq<Bytes>, all: Bytes, g0: nat, k: nat, h: seq<Bytes>, rest: Bytes, g: nat)
    requires SplitAt(h0, all, g0, k, h, rest, g)
    ensures FirstNewline(rest) == |rest| ==>
      |Lines(all)| <= g0 && h == h0 + Lines(all) && rest == Tail(all)
    ensures FirstNewline(rest) < |rest| && g == 0 ==>
      g0 < |Lines(all)| && h == h0 + Lines(all)[..g0]
  {
    NoLines(rest);
    assert Lines(all)[..|Lines(all)|] == Lines(all);
  }

  /** Where a seek goes, in terms of the running total its loop computes. */
  ghost function Target(w: seq<Bytes>, c: nat, o: nat): Option<nat> {
    if c < |w| && o < |w[c]| then Some(SizeUpTo(w, c) + o) else None
  }

  lemma TargetIsPosition(w: seq<Bytes>, c: nat, o: nat)
    ensures Target(w, c, o) == Position(w, c, o)
  {
    SizeUpToIsPrefix(w, c);
  }

  lemma CommittedAreLines(h0: seq<Bytes>, all: Bytes, g0: nat)
    requires AllLines(h0)
    ensures AllLines(h0 + Lines(all)) && NL !in Tail(all)
    ensures g0 <= |Lines(all)| ==> AllLines(h0 + Lines(all)[..g0])
  {
    SplitRecomposes(all);
    AllLinesAppend(h0, Lines(all));
  }

  lemma ReadEnds(text: Bytes, p: nat, n: nat, count: nat, fault: bool)
    requires n <= count && n == |Slice(text, p, n)|
    requires if fault then n < count && p + n < |text| else n == count || p + n >= |text|
    ensures fault <==> Slice(text, p, n) != Slice(text, p, count)
  {
  }

  class AesdDevice {
    const heap: Heap
    const ring: CircularBuffer
    var partialBuffer: Pointer
    var partialSize: nat

    ghost function Partial(): Bytes
      reads this, partialBuffer
    {
      if partialBuffer == null || partialSize > partialBuffer.Length then [] else partialBuffer[..partialSize]
    }

    /** The device this state stands for. */
    ghost function Abs(): Device
      reads this, ring, partialBuffer
    {
      Device(ring.history, Partial())
    }

    /**
     * Every live block is in exactly one place: a ring slot, the partial buffer, or one of the pointers
     * local to the call in progress.
     */
    ghost predicate Owns(locals: set<Block>)
      reads this, heap, ring
    {
      && heap.live == ring.owned + Pointee(partialBuffer) + locals
      && (partialBuffer != null ==> partialBuffer !in ring.owned)
      && locals !! ring.owned && partialBuffer !in locals
    }

    /** What holds even in the middle of a write, when the partial buffer may still contain lines. */
    ghost predicate Consistent(locals: set<Block>)
      reads this, heap, ring, ring.entry, ring.owned, partialBuffer
    {
      && heap.Valid() && ring.Valid() && Owns(locals)
      && (if partialBuffer == null then partialSize == 0 else partialSize <= partialBuffer.Length)
    }

    ghost predicate Valid()
      reads this, heap, ring, ring.entry, ring.owned, partialBuffer
    {
      Consistent({}) && WellFormed(Abs())
    }

    /** aesd_init_module, on a heap from which nothing is allocated yet. */
    constructor (heap: Heap)
      requires heap.Valid() && heap.live == {}
      ensures Valid() && this.heap == heap && fresh(ring) && fresh(ring.entry)
      ensures Abs() == EMPTY && partialBuffer == null
    {
      this.heap := heap;
      ring := new CircularBuffer();
      partialBuffer, partialSize := null, 0;
    }

    /** Copies the partial buffer, if there is one, to the start of `to` and frees it. */
    method MovePartial(to: Block)
      requires heap.Valid() && to in heap.live && to != partialBuffer && partialSize <= to.Length
      requires if partialBuffer == null then partialSize == 0
               else partialBuffer in heap.live && partialSize <= partialBuffer.Length
      modifies to, heap
      ensures heap.Valid() && heap.Evolves() && heap.grants == old(heap.grants) && heap.issued == old(heap.issued)
      ensures to[..partialSize] == old(Partial())
      ensures heap.live == old(heap.live) - Pointee(partialBuffer)
      ensures heap.freed == old(heap.freed) + Pointee(partialBuffer)
    {
      if partialBuffer != null {
        heap.Memcpy(to, 0, partialBuffer, 0, partialSize);
        heap.Kfree(partialBuffer);
      }
    }

    /** Joins the partial buffer and the call's copy of the data into one new buffer. */
    method Join(kbuf: Block) returns (ok: bool)
      requires Consistent({kbuf})
      modifies this, heap
      ensures Consistent({}) && heap.Evolves()
      ensures ok <==> old(heap.grants) > 0
      ensures ok ==> heap.grants == old(heap.grants) - 1 && fresh(partialBuffer)
      ensures !ok ==> heap.grants == 0 && partialBuffer == old(partialBuffer) && heap.live == old(heap.live) - {kbuf}
      ensures heap.freed == old(heap.freed) + {kbuf} + if ok then Pointee(old(partialBuffer)) else {}
      ensures Partial() == if ok then old(Partial() + kbuf[..]) else old(Partial())
    {
      hide CircularBuffer.Valid;
      var newSize := partialSize + kbuf.Length;
      var combined := heap.Kmalloc(newSize);
      if combined == null {
        heap.Kfree(kbuf);
        return false;
      }
      MovePartial(combined);
      heap.Memcpy(combined, partialSize, kbuf, 0, kbuf.Length);
      assert combined[..newSize] == old(Partial() + kbuf[..]);
      heap.Kfree(kbuf);
      partialBuffer := combined;
      partialSize := newSize;
      ok := true;
    }

    /** Moves the first line of the partial buffer, whose newline is at `newline`, into the ring. */
    method CommitLine(newline: nat) returns (ok: bool)
      requires Consistent({})
      requires newline < partialSize
      modifies this, heap, ring, ring.entry, partialBuffer
      ensures Consistent({}) && heap.Evolves()
      ensures ok <==> old(heap.grants) > 0
      ensures partialBuffer == null || partialBuffer == old(partialBuffer)
      ensures heap.freed == old(heap.freed) +
        (if ok then old(Evicted(ring.entry[..], ring.inOffs, ring.full)) else {}) +
        (if partialBuffer == null then Pointee(old(partialBuffer)) else {})
      ensures ok ==> heap.grants == old(heap.grants) - 1
      ensures ok ==> ring.history == old(ring.history) + [old(Partial())[..newline + 1]]
      ensures ok ==> Partial() == old(Partial())[newline + 1..] && partialSize < old(partialSize)
      ensures !ok ==> heap.grants == 0 && ring.history == old(ring.history) && partialBuffer == null
    {
      hide CircularBuffer.Valid;
      var buffptr := heap.Kmalloc(newline + 1);
      ok := buffptr != null;
      if ok {
        StoreLine(buffptr);
        DropFront(newline + 1);
      } else {
        heap.Kfree(partialBuffer);
        partialBuffer := null;
        partialSize := 0;
      }
    }

    /** Copies the first line of the partial buffer to its block and adds the block to the ring. */
    method StoreLine(buffptr: Block)
      requires Consistent({buffptr})
      requires 0 < buffptr.Length <= partialSize
      modifies heap, ring, ring.entry, buffptr
      ensures Consistent({}) && heap.Evolves() && heap.grants == old(heap.grants)
      ensures heap.freed == old(heap.freed + Evicted(ring.entry[..], ring.inOffs, ring.full))
      ensures ring.history == old(ring.history) + [old(Partial())[..buffptr.Length]]
      ensures Partial() == old(Partial())
    {
      heap.Memcpy(buffptr, 0, partialBuffer, 0, buffptr.Length);
      assert buffptr[..buffptr.Length] == old(Partial())[..buffptr.Length];
      ring.AddEntry(heap, Some(Entry(buffptr, buffptr.Length)));
    }

    /** Removes the first `n` bytes of the partial buffer in place, and the buffer once it is empty. */
    method DropFront(n: nat)
      requires Consistent({})
      requires 0 < n <= partialSize
      modifies this, heap, partialBuffer
      ensures Consistent({}) && heap.Evolves() && heap.grants == old(heap.grants)
      ensures heap.freed == old(heap.freed) + if n == old(partialSize) then Pointee(old(partialBuffer)) else {}
      ensures Partial() == old(Partial())[n..] && partialSize == old(partialSize) - n
      ensures partialBuffer == if n == old(partialSize) then null else old(partialBuffer)
    {
      var remaining := partialSize - n;
      if remaining > 0 {
        heap.Memmove(partialBuffer, n, remaining);
      }
      partialSize := remaining;
      if remaining == 0 {
        heap.Kfree(partialBuffer);
        partialBuffer := null;
      }
    }

    /**
     * aesd_write.  The first `heap.grants` allocations succeed; `copyOk` says whether the copy from user
     * space does.  The open file is not touched: a write never moves a position.
     */
    method Write(data: Bytes, copyOk: bool) returns (reply: Reply)
      requires Valid()
      modifies this, heap, ring, ring.entry, partialBuffer
      ensures Valid() && heap.Evolves()
      ensures partialBuffer == null || partialBuffer == old(partialBuffer) || fresh(partialBuffer)
      ensures old(heap.grants) < 2 || !copyOk ==> heap.live == old(heap.live)
      ensures (Abs(), reply) == DeviceSpec.Write(old(Abs()), data, copyOk, old(heap.grants))
      ensures !reply.Failed? ==> reply == Transferred(|data|)
    {
      hide CircularBuffer.Valid, AesdDevice.Consistent, Lines, Tail, AllLines, FirstNewline;
      var kbuf, errno := CopyFromUser(data, copyOk);
      if kbuf == null {
        return Failed(errno);
      }
      var joined := Join(kbuf);
      if !joined {
        return Failed(ENOMEM);
      }
      var split := SplitPartial();
      reply := if split then Transferred(|data|) else Failed(ENOMEM);
    }

    /** The call's own copy of the data; NULL, with the reason, when there is none. */
    method CopyFromUser(data: Bytes, copyOk: bool) returns (kbuf: Pointer, errno: Errno)
      requires Consistent({})
      modifies heap
      ensures heap.Evolves()
      ensures kbuf != null <==> old(heap.grants) > 0 && copyOk
      ensures heap.live == old(heap.live) + Pointee(kbuf)
      ensures kbuf == null ==> Consistent({}) && errno == if old(heap.grants) == 0 then ENOMEM else EFAULT
      ensures kbuf != null ==>
        Consistent({kbuf}) && fresh(kbuf) && kbuf[..] == data && heap.grants == old(heap.grants) - 1
    {
      hide CircularBuffer.Valid;
      errno := ENOMEM;
      kbuf := heap.Kmalloc(|data|);
      if kbuf == null {
        return;
      }
      if !copyOk {
        heap.Kfree(kbuf);
        return null, EFAULT;
      }
      heap.CopyFromUser(kbuf, data);
    }

    /** memchr for the newline in the partial buffer. */
    method FindNewline() returns (i: nat)
      requires Consistent({})
      ensures i == FirstNewline(Partial()) && |Partial()| == partialSize
    {
      i := heap.Memchr(partialBuffer, NL, partialSize);
      FirstNewlineIs(Partial(), i);
    }

    /** One turn of the loop: the split of `all` advances by a line, or memory runs out. */
    method CommitNext(newline: nat, ghost h0: seq<Bytes>, ghost all: Bytes, ghost g0: nat, ghost k: nat)
      returns (ok: bool)
      requires Consistent({})
      requires SplitAt(h0, all, g0, k, ring.history, Partial(), heap.grants)
      requires newline == FirstNewline(Partial()) < |Partial()| == partialSize
      modifies this, heap, ring, ring.entry, partialBuffer
      ensures Consistent({}) && heap.Evolves()
      ensures partialBuffer == null || partialBuffer == old(partialBuffer)
      ensures ok ==> SplitAt(h0, all, g0, k + 1, ring.history, Partial(), heap.grants)
      ensures ok ==> partialSize < old(partialSize)
      ensures !ok ==> g0 < |Lines(all)| && ring.history == h0 + Lines(all)[..g0] && Partial() == []
    {
      SplitEnd(h0, all, g0, k, ring.history, Partial(), heap.grants);
      if heap.grants > 0 {
        SplitStep(h0, all, g0, k, ring.history, Partial(), heap.grants);
      }
      ok := CommitLine(newline);
    }

    /** The loop of aesd_write: commits every complete line of the partial buffer, oldest first. */
    method SplitPartial() returns (ok: bool)
      requires Consistent({}) && AllLines(ring.history)
      modifies this, heap, ring, ring.entry, partialBuffer
      ensures Valid() && heap.Evolves()
      ensures partialBuffer == null || partialBuffer == old(partialBuffer)
      ensures ok <==> |old(Lines(Partial()))| <= old(heap.grants)
      ensures ring.history == old(ring.history) +
        if ok then old(Lines(Partial())) else old(Lines(Partial()))[..old(heap.grants)]
      ensures Partial() == if ok then old(Tail(Partial())) else []
    {
      hide CircularBuffer.Valid, SplitAt, Lines, Tail, FirstNewline, AllLines, AesdDevice.Consistent;
      ghost var h0, all, g0, k := ring.history, Partial(), heap.grants, 0;
      SplitStart(h0, all, g0);
      CommittedAreLines(h0, all, g0);
      var newline := FindNewline();
      while newline < partialSize
        invariant Consistent({}) && heap.Evolves()
        invariant partialBuffer == null || partialBuffer == old(partialBuffer)
        invariant SplitAt(h0, all, g0, k, ring.history, Partial(), heap.grants)
        invariant newline == FirstNewline(Partial()) && |Partial()| == partialSize
        decreases partialSize
      {
        var stored := CommitNext(newline, h0, all, g0, k);
        if !stored {
          return false;
        }
        k := k + 1;
        newline := FindNewline();
      }
      SplitEnd(h0, all, g0, k, ring.history, Partial(), heap.grants);
      ok := true;
    }

    /** The readable bytes; their number fits a position. */
    ghost predicate Fits()
      reads this, ring, partialBuffer
    {
      |Contents(Abs())| <= LOFF_MAX
    }

    /**
     * aesd_read: fills `buf` across entry boundaries and moves the position by what it delivered, even when
     * it then fails.  The first `copies` copies to user space succeed.
     */
    method Read(filp: File, buf: array<byte>, count: nat, copies: nat) returns (reply: Reply)
      requires Valid() && Fits()
      requires count <= buf.Length && buf !in heap.issued
      modifies filp, buf
      ensures Valid() && Abs() == old(Abs())
      ensures reply == ReadReply(Abs(), old(filp.pos), count, copies)
      ensures !reply.Failed? ==>
        && reply.Transferred? && filp.pos == old(filp.pos) + reply.count && reply.count <= buf.Length
        && buf[..reply.count] == Slice(Contents(Abs()), old(filp.pos), count)
      ensures var bytes := ReadAt(Abs(), old(filp.pos), count, copies);
        && filp.pos == old(filp.pos) + |bytes| && buf[..|bytes|] == bytes
        && forall i :: (if reply.Failed? then count else |bytes|) <= i < buf.Length ==> buf[i] == old(buf[i])
    {
      hide CircularBuffer.Valid, Reach, Flatten, Window;
      var n, fault := FillBuffer(filp, buf, count, copies);
      reply := if fault then Failed(EFAULT) else Transferred(n);
    }

    /** The loop of aesd_read. */
    method FillBuffer(filp: File, buf: array<byte>, count: nat, copies: nat) returns (n: nat, fault: bool)
      requires Readable() && count <= buf.Length && buf !in heap.issued
      modifies filp, buf
      ensures n == Min(count, Reach(Window(ring.history), old(filp.pos), copies))
      ensures n == |Slice(ring.Text(), old(filp.pos), n)|
      ensures buf[..n] == Slice(ring.Text(), old(filp.pos), n)
      ensures fault <==> Slice(ring.Text(), old(filp.pos), n) != Slice(ring.Text(), old(filp.pos), count)
      ensures forall i :: (if fault then count else n) <= i < buf.Length ==> buf[i] == old(buf[i])
      ensures filp.pos == old(filp.pos) + n
    {
      hide AesdDevice.Readable, Slice, Flatten, Window, Reach;
      var budget := copies;
      ghost var w, text, p := Window(ring.history), ring.Text(), filp.pos;
      n, fault := 0, false;
      EmptySlice(text, p);
      ReadableFacts(buf);
      while n < count
        invariant n <= count && 0 <= budget && !fault
        invariant filp.pos == p + n
        invariant buf[..n] == Slice(text, p, n)
        invariant forall i :: n <= i < buf.Length ==> buf[i] == old(buf[i])
        invariant Min(count, Reach(w, p, copies)) == n + Min(count - n, Reach(w, p + n, budget))
        decreases count - n
      {
        ghost var done := buf[..n];
        var copied;
        copied, fault := CopyChunk(filp, buf, n, count - n, budget);
        if copied == 0 {
          break;
        }
        SliceGrows(text, p, done, Slice(text, p + n, copied));
        n := n + copied;
        budget := budget - 1;
      }
      ReadEnds(text, p, n, count, fault);
    }

    /** What the loop relies on. */
    ghost predicate Readable()
      reads this, heap, ring, ring.entry, ring.owned
    {
      && ring.Valid() && AllLines(ring.history) && |ring.Text()| <= LOFF_MAX
      && heap.Valid() && ring.owned <= heap.live
    }

    lemma ReadableFacts(buf: array<byte>)
      requires Readable() && buf !in heap.issued
      ensures heap.Valid() && buf !in ring.owned
      ensures forall i :: 0 <= i < |Window(ring.history)| ==> Window(ring.history)[i] != []
    {
    }

    /**
     * One turn of the loop: copies what one entry has to offer, if there is an entry and the copy
     * succeeds.
     */
    method CopyChunk(filp: File, buf: array<byte>, done: nat, left: nat, budget: nat) returns (n: nat, fault: bool)
      requires Readable() && buf !in heap.issued
      requires left > 0 && done + left <= buf.Length
      modifies filp, buf
      ensures n <= left && filp.pos == old(filp.pos) + n
      ensures fault <==> old(filp.pos) < |ring.Text()| && budget == 0
      ensures n == 0 <==> old(filp.pos) >= |ring.Text()| || budget == 0
      ensures n == 0 ==> Reach(Window(ring.history), old(filp.pos), budget) == 0
      ensures n > 0 ==> var w := Window(ring.history);
        Min(left, Reach(w, old(filp.pos), budget)) == n + Min(left - n, Reach(w, filp.pos, budget - 1))
      ensures |Slice(ring.Text(), old(filp.pos), n)| == n
      ensures buf[..done + n] == old(buf[..done]) + Slice(ring.Text(), old(filp.pos), n)
      ensures forall i :: done + (if fault then left else n) <= i < buf.Length ==> buf[i] == old(buf[i])
    {
      hide AesdDevice.Readable, Flatten, Window, Slice, Locate, Reach;
      ghost var w := Window(ring.history);
      ReadableFacts(buf);
      EmptySlice(ring.Text(), filp.pos);
      var from, offset, toCopy := NextChunk(filp.pos, left);
      NoReach(w, filp.pos, budget);
      n, fault := 0, false;
      if from != null {
        heap.CopyToUser(buf, done, from, offset, toCopy, budget > 0);
        if budget == 0 {
          fault := true;
          return;
        }
        ReadStep(w, filp.pos, left, budget);
        filp.pos := filp.pos + toCopy;
        n := toCopy;
      }
    }

    /** The stored bytes at `pos` that lie in one entry, at most `left` of them; NULL past the end. */
    method NextChunk(pos: nat, left: nat) returns (from: Pointer, offset: nat, n: nat)
      requires Readable() && left > 0
      ensures from == null <==> pos >= |ring.Text()|
      ensures from == null ==> Locate(Window(ring.history), pos) == None
      ensures from != null ==>
        && from in heap.live && 0 < n <= left && offset + n <= from.Length
        && from[offset..offset + n] == Slice(ring.Text(), pos, n) && |Slice(ring.Text(), pos, n)| == n
        && var at := Locate(Window(ring.history), pos);
        && at.Some? && n == Min(left, |Window(ring.history)[at.value.0]| - at.value.1)
    {
      hide CircularBuffer.Valid, Locate, Flatten, Window, Slice;
      ring.CountIsWindow();
      from, n := null, 0;
      LookupFindsTheByte(Window(ring.history), pos);
      var found: Option<nat>;
      found, offset := ring.FindEntryOffsetForFpos(pos, 0);
      if found.Some? {
        ring.Piece(pos, 0);
        var e := ring.entry[found.value];
        n := Min(left, e.size - offset);
        ring.Piece(pos, n);
        from := e.buffptr;
      }
    }

    /**
     * aesd_llseek.  Signed overflow wraps to a negative position, which is refused.  SEEK_END counts from
     * the number of slots, as the source does, not from the number of stored bytes.
     */
    method Llseek(filp: File, offset: Offset, whence: Whence) returns (reply: Reply)
      requires filp.pos <= LOFF_MAX
      modifies filp
      ensures (filp.pos, reply) == DeviceSpec.Llseek(old(filp.pos), offset, whence)
    {
      var newPos := 0;
      match whence {
        case SEEK_SET => newPos := offset;
        case SEEK_CUR => newPos := WrapSigned(filp.pos + offset);
        case SEEK_END => newPos := WrapSigned(CAPACITY + offset);
        case OTHER => return Failed(EINVAL);
      }
      if newPos < 0 {
        return Failed(EINVAL);
      }
      filp.pos := newPos;
      reply := Moved(newPos);
    }

    /** aesd_ioctl_set_pos */
    method SetPos(filp: File, writeCmd: nat, writeCmdOffset: nat, copyOk: bool) returns (reply: Reply)
      requires Valid() && Fits()
      modifies filp
      ensures !copyOk ==> filp.pos == old(filp.pos) && reply == Failed(EFAULT)
      ensures copyOk ==> (filp.pos, reply) == Seek(Abs(), old(filp.pos), writeCmd, writeCmdOffset)
      ensures reply.Failed? ==> filp.pos == old(filp.pos)
    {
      if !copyOk {
        return Failed(EFAULT);
      }
      var target := CommandOffset(writeCmd, writeCmdOffset);
      TargetIsPosition(Window(ring.history), writeCmd, writeCmdOffset);
      if target == None {
        return Failed(EINVAL);
      }
      filp.pos := target.value;
      reply := Done;
    }

    /** The range checks of aesd_ioctl_set_pos and the sum of the entries before the command. */
    method CommandOffset(writeCmd: nat, writeCmdOffset: nat) returns (target: Option<nat>)
      requires ring.Valid() && AllLines(ring.history) && |ring.Text()| <= LOFF_MAX
      ensures target == Target(Window(ring.history), writeCmd, writeCmdOffset)
    {
      hide CircularBuffer.Valid;
      ring.CountIsWindow();
      if writeCmd >= CAPACITY {
        return None;
      }
      var cmdCount := if ring.full then CAPACITY else ring.inOffs;
      if writeCmd >= cmdCount {
        return None;
      }
      var before := SizeBefore(writeCmd);
      if before == None {
        return None;
      }
      var cmdIdx := Modulo(ring.outOffs + writeCmd);
      LiveIsLine(writeCmd);
      ring.Turn(writeCmd);
      if ring.entry[cmdIdx].buffptr == null || writeCmdOffset >= ring.entry[cmdIdx].size {
        return None;
      }
      target := Some(WrapAdd(before.value, writeCmdOffset));
    }

    /** In the driver's ring every live entry has a block: it holds a line. */
    lemma LiveIsLine(i: nat)
      requires ring.Valid() && AllLines(ring.history) && i < CAPACITY
      ensures ring.outOffs < CAPACITY && ring.entry.Length == CAPACITY
      ensures ring.entry[ring.Slot(i)].buffptr != null <==> i < |Window(ring.history)|
      ensures i < |Window(ring.history)| ==>
        && ring.entry[ring.Slot(i)].size == |Window(ring.history)[i]|
        && Stored(ring.entry[ring.Slot(i)]) == Window(ring.history)[i] && IsLine(Window(ring.history)[i])
    {
      hide CircularBuffer.Valid;
      ring.CountIsWindow();
      ring.LiveSlot(i);
    }

    /** The loop of aesd_ioctl_set_pos: the size of the entries before the command. */
    method SizeBefore(writeCmd: nat) returns (size: Option<nat>)
      requires ring.Valid() && AllLines(ring.history) && |ring.Text()| <= LOFF_MAX
      requires writeCmd < |Window(ring.history)|
      ensures size == Some(SizeUpTo(Window(ring.history), writeCmd))
    {
      hide CircularBuffer.Valid;
      ring.CountIsWindow();
      var pos := 0;
      for i := 0 to writeCmd
        invariant pos == SizeUpTo(Window(ring.history), i)
      {
        var idx := Modulo(ring.outOffs + i);
        LiveIsLine(i);
        ring.Turn(i);
        if ring.entry[idx].buffptr == null {
          return None;
        }
        pos := WrapAdd(pos, ring.entry[idx].size);
      }
      size := Some(pos);
    }

    /** aesd_cleanup_module: every block still held is freed, each once. */
    method Cleanup()
      requires Valid()
      modifies heap, ring.entry
      ensures heap.Valid() && heap.Evolves() && heap.live == {} && heap.issued == old(heap.issued)
      ensures heap.freed == old(heap.freed + heap.live)
    {
      ghost var gone: set<Block> := {};
      var index := 0;
      while index < CAPACITY
        invariant 0 <= index <= CAPACITY
        invariant heap.Valid() && heap.Evolves() && heap.issued == old(heap.issued)
        invariant heap.live == old(heap.live) - gone && heap.freed == old(heap.freed) + gone
        invariant gone <= ring.owned
        invariant forall i :: 0 <= i < index && old(ring.entry[i].buffptr) != null ==>
          old(ring.entry[i].buffptr) in gone
        invariant forall i :: index <= i < CAPACITY ==>
          ring.entry[i] == old(ring.entry[i]) && (ring.entry[i].buffptr != null ==> ring.entry[i].buffptr !in gone)
      {
        var p := ring.entry[index].buffptr;
        if p != null {
          heap.Kfree(p);
          ring.entry[index] := ring.entry[index].(buffptr := null);
          gone := gone + {p};
        }
        index := index + 1;
      }
      assert gone == ring.owned;
      heap.Kfree(partialBuffer);
    }
  }

  /**
   * The shape of the ring after n commits, and what it holds: complete lines, the newline their last byte
   * and only there.  The count the seek relies on is therefore right: out_offs stays 0 until the ring is
   * full.
   */
  lemma RingShape(dev: AesdDevice)
    requires dev.Valid()
    ensures var n := |dev.ring.history|;
      && dev.ring.inOffs == n % CAPACITY
      && (dev.ring.full <==> n >= CAPACITY)
      && dev.ring.outOffs == (if dev.ring.full then dev.ring.inOffs else 0)
      && (if dev.ring.full then CAPACITY else dev.ring.inOffs) == Min(n, CAPACITY) == |Window(dev.ring.history)|
    ensures forall i :: 0 <= i < CAPACITY ==>
      (dev.ring.entry[i].buffptr != null <==> dev.ring.full || i < dev.ring.inOffs)
    ensures forall i :: 0 <= i < CAPACITY && dev.ring.entry[i].buffptr != null ==>
      IsLine(Stored(dev.ring.entry[i]))
  {
    forall i | 0 <= i < CAPACITY
      ensures dev.ring.entry[i].buffptr != null <==> dev.ring.full || i < dev.ring.inOffs
      ensures dev.ring.entry[i].buffptr != null ==> IsLine(Stored(dev.ring.entry[i]))
    {
      var k := SlotAge(dev.ring, i);
      dev.LiveIsLine(k);
    }
  }

  /** How many live entries are older than the one in slot `i`. */
  lemma SlotAge(ring: CircularBuffer, i: nat) returns (k: nat)
    requires ring.Valid() && i < CAPACITY
    ensures k < CAPACITY && ring.Slot(k) == i
  {
    k := if ring.outOffs <= i then i - ring.outOffs else i + CAPACITY - ring.outOffs;
  }

  /**
   * The offsets, the flag, the bytes of every slot and the partial bytes are functions of the abstract
   * device.  With AbsorbTwice: however a stream is cut into writes, the ring ends up the same, slot by
   * slot.  Only whether an empty partial buffer is NULL or a block of length 0 may differ.
   */
  lemma AbstractionDeterminesState(a: AesdDevice, b: AesdDevice)
    requires a.Valid() && b.Valid() && a.Abs() == b.Abs()
    ensures a.ring.inOffs == b.ring.inOffs && a.ring.outOffs == b.ring.outOffs && a.ring.full == b.ring.full
    ensures forall i :: 0 <= i < CAPACITY ==>
      && (a.ring.entry[i].buffptr == null <==> b.ring.entry[i].buffptr == null)
      && (a.ring.entry[i].buffptr != null ==> Stored(a.ring.entry[i]) == Stored(b.ring.entry[i]))
    ensures a.Partial() == b.Partial() && a.partialSize == b.partialSize
  {
    forall i | 0 <= i < CAPACITY
      ensures a.ring.entry[i].buffptr == null <==> b.ring.entry[i].buffptr == null
      ensures a.ring.entry[i].buffptr != null ==> Stored(a.ring.entry[i]) == Stored(b.ring.entry[i])
    {
      var k := SlotAge(a.ring, i);
      a.LiveIsLine(k);
      b.LiveIsLine(k);
    }
  }
}
