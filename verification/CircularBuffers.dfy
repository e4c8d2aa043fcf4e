/** struct aesd_circular_buffer: ten slots, two offsets and a flag. */
module CircularBuffers {
  import opened ByteStrings
  import opened KernelHeap
  import opened DeviceSpec

  /** One past the largest size_t. */
  const SIZE_T: nat := 0x1_0000_0000_0000_0000

  /** Addition of two size_t values. */
  function WrapAdd(a: nat, b: nat): nat {
    if a + b < SIZE_T then a + b else a + b - SIZE_T
  }

  /** Reduction modulo the capacity, for indices less than two turns on. */
  function Wrap(i: nat): (r: nat)
    requires i < 2 * CAPACITY
    ensures r < CAPACITY
  {
    if i < CAPACITY then i else i - CAPACITY
  }

  lemma WrapIsMod(i: nat)
    requires i < 2 * CAPACITY
    ensures i % CAPACITY == Wrap(i)
  {
  }

  /** The `% AESDCHAR_MAX_WRITE_OPERATIONS_SUPPORTED` of the index computations. */
  method Modulo(i: nat) returns (r: nat)
    requires i < 2 * CAPACITY
    ensures r == Wrap(i)
  {
    WrapIsMod(i);
    r := i % CAPACITY;
  }

  lemma ModSuccessor(n: nat)
    ensures n % CAPACITY < CAPACITY
    ensures (n + 1) % CAPACITY == Wrap(n % CAPACITY + 1)
  {
  }

  datatype Entry = Entry(buffptr: Pointer, size: nat)

  /** What a slot stores; without a block, nothing. */
  ghost function Stored(e: Entry): Bytes
    reads e.buffptr
  {
    if e.buffptr == null || e.size > e.buffptr.Length then [] else e.buffptr[..e.size]
  }

  /** The offsets and the flag are functions of the number of entries ever added. */
  ghost predicate ShapeOk(n: nat, inOffs: nat, outOffs: nat, full: bool) {
    && inOffs == n % CAPACITY < CAPACITY
    && full == (n >= CAPACITY)
    && outOffs == (if full then inOffs else 0)
  }

  /** Stepping the offsets as an addition does accounts for one more entry. */
  lemma ShapeStep(n: nat, inOffs: nat, outOffs: nat, full: bool)
    requires ShapeOk(n, inOffs, outOffs, full)
    ensures var in' := (inOffs + 1) % CAPACITY;
      var out' := if full then (outOffs + 1) % CAPACITY else outOffs;
      && in' == Wrap(inOffs + 1)
      && out' == (if n < CAPACITY then 0 else Wrap(outOffs + 1))
      && (in' == out' <==> full || inOffs + 1 == CAPACITY)
      && ShapeOk(n + 1, in', out', in' == out')
  {
    ModSuccessor(n);
    WrapIsMod(inOffs + 1);
    WrapIsMod(outOffs + 1);
  }

  /**
   * Slots hold distinct blocks, which together are the owned ones.  Before the buffer is full only the
   * slots below in_offs are live, and all others are NULL.
   */
  ghost predicate SlotsOk(es: seq<Entry>, owned: set<Block>, inOffs: nat, full: bool) {
    && |es| == CAPACITY
    && (forall i :: 0 <= i < |es| ==> (es[i].buffptr != null ==> full || i < inOffs))
    && (forall i :: 0 <= i < |es| && es[i].buffptr != null ==>
          es[i].buffptr in owned && es[i].size <= es[i].buffptr.Length)
    && (forall i, j :: 0 <= i < j < |es| && es[i].buffptr != null ==> es[i].buffptr != es[j].buffptr)
    && (forall b :: b in owned ==> exists i :: 0 <= i < |es| && es[i].buffptr == b)
  }

  /** The block that storing an entry at in_offs frees. */
  ghost function Evicted(es: seq<Entry>, inOffs: nat, full: bool): set<Block>
    requires inOffs < |es|
  {
    if full then Pointee(es[inOffs].buffptr) else {}
  }

  lemma StoreKeepsSlots(es: seq<Entry>, owned: set<Block>, inOffs: nat, full: bool, e: Entry, full': bool)
    requires inOffs < CAPACITY && SlotsOk(es, owned, inOffs, full)
    requires e.buffptr != null ==> e.size <= e.buffptr.Length && e.buffptr !in owned
    requires full' == (full || inOffs + 1 == CAPACITY)
    ensures SlotsOk(es[inOffs := e], owned - Evicted(es, inOffs, full) + Pointee(e.buffptr), Wrap(inOffs + 1), full')
  {
    var es' := es[inOffs := e];
    var owned' := owned - Evicted(es, inOffs, full) + Pointee(e.buffptr);
    assert es'[inOffs].buffptr == e.buffptr;
    forall b | b in owned'
      ensures exists i :: 0 <= i < |es'| && es'[i].buffptr == b
    {
      if b != e.buffptr {
        var i :| 0 <= i < |es| && es[i].buffptr == b;
        assert es'[i].buffptr == b;
      }
    }
  }

  /** Bytes in the first `i` lines, or in all when there are fewer: the loops' running total. */
  ghost function SizeUpTo(w: seq<Bytes>, i: nat): nat {
    if i == 0 then 0 else SizeUpTo(w, i - 1) + if i <= |w| then |w[i - 1]| else 0
  }

  lemma {:induction false} SizeUpToIsPrefix(w: seq<Bytes>, i: nat)
    ensures SizeUpTo(w, i) == |Flatten(w[..Min(i, |w|)])| <= |Flatten(w)|
    ensures i >= |w| ==> SizeUpTo(w, i) == |Flatten(w)|
  {
    if i > 0 {
      SizeUpToIsPrefix(w, i - 1);
      if i <= |w| {
        assert w[..i] == w[..i - 1] + [w[i - 1]];
        FlattenSnoc(w[..i - 1], w[i - 1]);
      }
    }
    FlattenSplit(w, Min(i, |w|));
    assert w[..|w|] == w;
  }

  lemma SizeUpToBound(w: seq<Bytes>, i: nat)
    ensures SizeUpTo(w, i) <= |Flatten(w)|
    ensures i >= |w| ==> SizeUpTo(w, i) == |Flatten(w)|
  {
    SizeUpToIsPrefix(w, i);
  }

  /** Counted from `out`, the slots hold the last lines of `history`, oldest first. */
  ghost predicate HoldsWindow(texts: seq<Bytes>, out: nat, history: seq<Bytes>)
    requires |texts| == CAPACITY && out < CAPACITY
  {
    forall k :: 0 <= k < |Window(history)| ==> texts[Wrap(out + k)] == Window(history)[k]
  }

  /** Overwriting the slot at in_offs drops the oldest line of a full window and appends the new one. */
  lemma OverwriteSlides(texts: seq<Bytes>, target: nat, out: nat, history: seq<Bytes>, line: Bytes)
    requires |texts| == CAPACITY && target < CAPACITY && out < CAPACITY
    requires if |history| < CAPACITY then out == 0 && target == |history| else out == target
    requires HoldsWindow(texts, out, history)
    ensures var out' := if |history| < CAPACITY then 0 else Wrap(out + 1);
      HoldsWindow(texts[target := line], out', history + [line])
  {
    var out' := if |history| < CAPACITY then 0 else Wrap(out + 1);
    var h := history + [line];
    forall k | 0 <= k < |Window(h)|
      ensures texts[target := line][Wrap(out' + k)] == Window(h)[k]
    {
      if k < |Window(h)| - 1 {
        var j := if |history| < CAPACITY then k else k + 1;
        assert Wrap(out' + k) == Wrap(out + j) != target;
        assert Window(h)[k] == Window(history)[j];
      } else {
        assert Wrap(out' + k) == target;
      }
    }
  }

  lemma LookupHit(w: seq<Bytes>, k: nat, i: nat, before: nat)
    requires i < |w| && before == SizeUpTo(w, i) <= k < before + |w[i]|
    ensures Locate(w, k) == Some((i, k - before))
  {
    hide Locate, Flatten, SizeUpTo;
    SizeUpToIsPrefix(w, i);
    assert Position(w, i, k - before) == Some(k);
    SeekInvertsLookup(w, k, i, k - before);
  }

  lemma LookupMiss(w: seq<Bytes>, k: nat)
    requires |Flatten(w)| <= k
    ensures Locate(w, k) == None
  {
    LookupFindsTheByte(w, k);
  }

  class CircularBuffer {
    const entry: array<Entry>
    var inOffs: nat
    var outOffs: nat
    var full: bool

    /** Every string ever added, oldest first. */
    ghost var history: seq<Bytes>
    /** The blocks the slots point to. */
    ghost var owned: set<Block>
    /** The bytes each slot stores. */
    ghost var texts: seq<Bytes>

    /** The slot of the k-th oldest live entry. */
    ghost function Slot(k: nat): nat
      requires outOffs < CAPACITY && k <= CAPACITY
      reads this
    {
      Wrap(outOffs + k)
    }

    /** Every slot stores its text. */
    ghost predicate Stores()
      requires SlotsOk(entry[..], owned, inOffs, full) && |texts| == CAPACITY
      reads this, entry, owned
    {
      forall i :: 0 <= i < CAPACITY ==> Stored(entry[..][i]) == texts[i]
    }

    ghost predicate Valid()
      reads this, entry, owned
    {
      && entry.Length == CAPACITY
      && ShapeOk(|history|, inOffs, outOffs, full)
      && SlotsOk(entry[..], owned, inOffs, full)
      && |texts| == CAPACITY && Stores()
      && HoldsWindow(texts, outOffs, history)
    }

    constructor ()
      ensures Valid() && fresh(entry)
      ensures history == [] && owned == {} && !full && inOffs == 0 && outOffs == 0
    {
      entry := new Entry[CAPACITY](_ => Entry(null, 0));
      inOffs, outOffs, full := 0, 0, false;
      history, owned, texts := [], {}, seq(CAPACITY, _ => []);
    }

    /** Gives back the block that the next entry would overwrite. */
    method FreeTarget(heap: Heap)
      requires Valid() && heap.Valid() && owned <= heap.live
      modifies entry, heap
      ensures heap.Valid() && heap.Evolves() && heap.grants == old(heap.grants) && heap.issued == old(heap.issued)
      ensures heap.live == old(heap.live - Evicted(entry[..], inOffs, full))
      ensures heap.freed == old(heap.freed + Evicted(entry[..], inOffs, full))
      ensures forall i :: 0 <= i < CAPACITY && i != inOffs ==> entry[i] == old(entry[i])
    {
      if full && entry[inOffs].buffptr != null {
        heap.Kfree(entry[inOffs].buffptr);
        entry[inOffs] := entry[inOffs].(buffptr := null);
      }
    }

    /**
     * Stores an entry as the newest one; a full buffer frees and forgets its oldest one.  An entry without
     * a block takes a slot like any other; a NULL argument, here None, changes nothing.
     */
    method AddEntry(heap: Heap, add: Option<Entry>)
      requires Valid() && heap.Valid() && owned <= heap.live
      requires add.Some? && add.value.buffptr != null ==>
        add.value.size <= add.value.buffptr.Length && add.value.buffptr in heap.live - owned
      modifies this, entry, heap
      ensures Valid() && heap.Valid() && heap.Evolves()
      ensures heap.grants == old(heap.grants) && heap.issued == old(heap.issued)
      ensures add == None ==> history == old(history) && owned == old(owned) && entry[..] == old(entry[..])
      ensures add == None ==> heap.live == old(heap.live) && heap.freed == old(heap.freed)
      ensures add.Some? ==>
        var gone := old(Evicted(entry[..], inOffs, full));
        && history == old(history) + [Stored(add.value)]
        && owned == old(owned) - gone + Pointee(add.value.buffptr)
        && heap.live == old(heap.live) - gone && heap.freed == old(heap.freed) + gone
    {
      if add.Some? {
        StoreEntry(heap, add.value);
      }
    }

    method StoreEntry(heap: Heap, e: Entry)
      requires Valid() && heap.Valid() && owned <= heap.live
      requires e.buffptr != null ==> e.size <= e.buffptr.Length && e.buffptr in heap.live - owned
      modifies this, entry, heap
      ensures Valid() && heap.Valid() && heap.Evolves()
      ensures heap.grants == old(heap.grants) && heap.issued == old(heap.issued)
      ensures history == old(history) + [Stored(e)]
      ensures owned == old(owned - Evicted(entry[..], inOffs, full)) + Pointee(e.buffptr)
      ensures heap.live == old(heap.live - Evicted(entry[..], inOffs, full))
      ensures heap.freed == old(heap.freed + Evicted(entry[..], inOffs, full))
    {
      hide HoldsWindow, Window, SlotsOk;
      ghost var line := Stored(e);
      StoreKeepsSlots(entry[..], owned, inOffs, full, e, full || inOffs + 1 == CAPACITY);
      OverwriteSlides(texts, inOffs, outOffs, history, line);
      FreeTarget(heap);
      entry[inOffs] := e;
      assert entry[..] == old(entry[..])[inOffs := e];
      owned, history, texts :=
        owned - old(Evicted(entry[..], inOffs, full)) + Pointee(e.buffptr), history + [line], texts[inOffs := line];
      Advance();
    }

    /** Moves in_offs on, and out_offs with it when an entry has just been overwritten. */
    method Advance()
      requires |history| > 0 && ShapeOk(|history| - 1, inOffs, outOffs, full)
      modifies `inOffs, `outOffs, `full
      ensures ShapeOk(|history|, inOffs, outOffs, full)
      ensures inOffs == Wrap(old(inOffs) + 1)
      ensures outOffs == if |history| <= CAPACITY then 0 else Wrap(old(outOffs) + 1)
      ensures full <==> old(full) || old(inOffs) + 1 == CAPACITY
    {
      ShapeStep(|history| - 1, inOffs, outOffs, full);
      inOffs := (inOffs + 1) % CAPACITY;
      if full {
        outOffs := (outOffs + 1) % CAPACITY;
      }
      full := inOffs == outOffs;
    }

    /** The number of live entries, as the seek counts them. */
    lemma CountIsWindow()
      requires Valid()
      ensures entry.Length == CAPACITY && outOffs < CAPACITY && inOffs < CAPACITY
      ensures (if full then CAPACITY else inOffs) == |Window(history)|
    {
    }

    /** A full buffer evicts the oldest live entry, and no other buffer evicts anything. */
    lemma EvictedIsOldest()
      requires Valid()
      ensures Evicted(entry[..], inOffs, full) ==
        if |history| < CAPACITY then {} else Pointee(entry[Slot(0)].buffptr)
    {
    }

    /** The bytes of all live entries, oldest first. */
    ghost function Text(): Bytes
      reads this
    {
      Flatten(Window(history))
    }

    /** Counted from the oldest, only the first slots have a block, and they hold the window. */
    lemma LiveSlot(i: nat)
      requires Valid() && i < CAPACITY
      ensures i >= |Window(history)| ==> entry[Slot(i)].buffptr == null
      ensures i < |Window(history)| ==>
        && Stored(entry[Slot(i)]) == Window(history)[i]
        && (entry[Slot(i)].buffptr == null ==> Window(history)[i] == [])
        && (entry[Slot(i)].buffptr != null ==>
              && entry[Slot(i)].buffptr in owned
              && entry[Slot(i)].size == |Window(history)[i]| <= entry[Slot(i)].buffptr.Length)
    {
    }

    /** The next `n` bytes of the text, from the byte the lookup finds on, lie together in one block. */
    lemma Piece(k: nat, n: nat)
      requires Valid() && Locate(Window(history), k).Some?
      requires var at := Locate(Window(history), k).value; at.1 + n <= |Window(history)[at.0]|
      ensures var at := Locate(Window(history), k).value; var e := entry[Slot(at.0)];
        && e.buffptr != null && e.buffptr in owned
        && e.size == |Window(history)[at.0]| && at.1 + n <= e.size <= e.buffptr.Length
        && e.buffptr[at.1..at.1 + n] == Slice(Text(), k, n)
    {
      hide Valid, Slice, Flatten, Locate;
      CountIsWindow();
      var at := Locate(Window(history), k).value;
      LiveSlot(at.0);
      LookupRun(Window(history), k, n);
      var e := entry[Slot(at.0)];
      assert Stored(e) == e.buffptr[..e.size];
      assert e.buffptr[..e.size][at.1..at.1 + n] == e.buffptr[at.1..at.1 + n];
    }

    /** What a loop over the live entries meets at its i-th turn: its running total does not wrap. */
    lemma Turn(i: nat)
      requires Valid() && i < CAPACITY && |Text()| < SIZE_T
      ensures entry[Slot(i)].buffptr == null ==> SizeUpTo(Window(history), i + 1) == SizeUpTo(Window(history), i)
      ensures entry[Slot(i)].buffptr != null ==>
        && i < |Window(history)| && entry[Slot(i)].size == |Window(history)[i]|
        && WrapAdd(SizeUpTo(Window(history), i), entry[Slot(i)].size) == SizeUpTo(Window(history), i + 1)
        && SizeUpTo(Window(history), i + 1) == SizeUpTo(Window(history), i) + entry[Slot(i)].size
        && SizeUpTo(Window(history), i + 1) <= |Text()|
    {
      hide Valid, Flatten;
      CountIsWindow();
      LiveSlot(i);
      SizeUpToBound(Window(history), i + 1);
    }

    /** Stepping the index visits the next slot; in a buffer not yet full, in_offs marks the end. */
    lemma NextSlot(i: nat)
      requires Valid() && i < CAPACITY
      ensures Wrap(Slot(i) + 1) == Slot(i + 1)
      ensures i + 1 == CAPACITY || (!full && Slot(i + 1) == inOffs) ==> i + 1 >= |Window(history)|
      ensures i < |Window(history)| <= i + 1 ==> i + 1 == CAPACITY || (!full && Slot(i + 1) == inOffs)
    {
    }

    /**
     * The slot and the byte in it that flat offset `charOffset` denotes.  The out-parameter keeps the
     * caller's value when there is no such byte.
     */
    method FindEntryOffsetForFpos(charOffset: nat, entryOffset: nat) returns (found: Option<nat>, offset: nat)
      requires Valid()
      requires |Text()| < SIZE_T
      ensures var at := Locate(Window(history), charOffset);
        if at == None then found == None && offset == entryOffset
        else found == Some(Slot(at.value.0)) && offset == at.value.1
    {
      hide Valid;
      found, offset := None, entryOffset;
      CountIsWindow();
      var totalSize, index, i := 0, outOffs, 0;
      ghost var w := Window(history);
      while i < CAPACITY
        invariant 0 <= i <= CAPACITY && index == Slot(i)
        invariant |w| == 0 || i == CAPACITY || i < |w|
        invariant totalSize == SizeUpTo(w, i) <= charOffset
      {
        Turn(i);
        NextSlot(i);
        var e := entry[index];
        if e.buffptr != null {
          if charOffset < WrapAdd(totalSize, e.size) {
            LookupHit(w, charOffset, i, totalSize);
            return Some(index), charOffset - totalSize;
          }
          totalSize := WrapAdd(totalSize, e.size);
        }
        index := Modulo(index + 1);
        i := i + 1;
        if !full && index == inOffs {
          break;
        }
      }
      SizeUpToBound(w, i);
      LookupMiss(w, charOffset);
    }
  }
}
