/** Kernel memory: blocks, who may free them, and the byte operations on them. */
module KernelHeap {
  import opened ByteStrings

  type Block = array<byte>
  type Pointer = array?<byte>

  /** The block a pointer points to, if any. */
  ghost function Pointee(p: Pointer): set<Block> {
    if p == null then {} else {p}
  }

  /**
   * kmalloc and kfree.  Every block ever handed out is either live or freed, never both.  Freeing a block,
   * reading it and writing it all demand that it is live, so neither a second free nor an access to a freed
   * block can be written.
   */
  class Heap {
    ghost var issued: set<Block>
    ghost var live: set<Block>
    ghost var freed: set<Block>
    /** How many further allocations succeed: arbitrary, and unknown to the driver. */
    var grants: nat

    ghost predicate Valid()
      reads this
    {
      live !! freed && live + freed == issued
    }

    /** Since then no block has been forgotten, no freed one has come back, and every other one is new. */
    twostate predicate Evolves()
      reads this
    {
      && old(issued) <= issued && old(freed) <= freed
      && fresh(issued - old(issued))
    }

    constructor ()
      ensures Valid() && issued == {} && grants == 0
    {
      issued, live, freed, grants := {}, {}, {}, 0;
    }

    method Kmalloc(size: nat) returns (p: Pointer)
      requires Valid()
      modifies this
      ensures Valid() && Evolves() && freed == old(freed)
      ensures p == null <==> old(grants) == 0
      ensures live == old(live) + Pointee(p) && issued == old(issued) + Pointee(p)
      ensures p == null ==> grants == 0
      ensures p != null ==> fresh(p) && p.Length == size && grants == old(grants) - 1
    {
      if grants == 0 {
        p := null;
      } else {
        p := new byte[size];
        issued, live := issued + {p}, live + {p};
        grants := grants - 1;
      }
    }

    method Kfree(p: Pointer)
      requires Valid()
      requires p != null ==> p in live
      modifies this
      ensures Valid() && Evolves() && grants == old(grants) && issued == old(issued)
      ensures live == old(live) - Pointee(p) && freed == old(freed) + Pointee(p)
    {
      if p != null {
        live := live - {p};
        freed := freed + {p};
      }
    }

    /** memcpy of `n` bytes of `from`, starting at `offset`, to `to`, starting at `at`. */
    method Memcpy(to: Block, at: nat, from: Block, offset: nat, n: nat)
      requires to in live && from in live
      requires to != from && at + n <= to.Length && offset + n <= from.Length
      modifies to
      ensures to[..at + n] == old(to[..at]) + from[offset..offset + n]
      ensures forall i :: at + n <= i < to.Length ==> to[i] == old(to[i])
    {
      forall i | 0 <= i < n {
        to[at + i] := from[offset + i];
      }
    }

    /** memmove of `n` bytes, starting at `offset`, to the start of the same block. */
    method Memmove(p: Block, offset: nat, n: nat)
      requires p in live && offset + n <= p.Length
      modifies p
      ensures p[..n] == old(p[offset..offset + n])
      ensures forall i :: n <= i < p.Length ==> p[i] == old(p[i])
    {
      forall i | 0 <= i < n {
        p[i] := p[offset + i];
      }
    }

    /** copy_from_user: all of `data`, to the start of a block. */
    method CopyFromUser(to: Block, data: Bytes)
      requires to in live && |data| <= to.Length
      modifies to
      ensures to[..|data|] == data
      ensures forall i :: |data| <= i < to.Length ==> to[i] == old(to[i])
    {
      forall i | 0 <= i < |data| {
        to[i] := data[i];
      }
    }

    /**
     * copy_to_user of `n` bytes of `from`, starting at `offset`, to a buffer outside the heap, starting at
     * `at`.  When it fails, part of the bytes may have been copied.
     */
    method CopyToUser(buf: array<byte>, at: nat, from: Block, offset: nat, n: nat, ok: bool)
      requires buf !in issued && from in live && Valid()
      requires at + n <= buf.Length && offset + n <= from.Length
      modifies buf
      ensures ok ==> buf[..at + n] == old(buf[..at]) + from[offset..offset + n]
      ensures forall i :: 0 <= i < at || at + n <= i < buf.Length ==> buf[i] == old(buf[i])
    {
      var copied :| copied <= n && (ok ==> copied == n) && 0 <= copied;
      forall i | 0 <= i < copied {
        buf[at + i] := from[offset + i];
      }
    }

    /** Index of the first `c` among the first `n` bytes of a live block, or `n`. */
    method Memchr(p: Pointer, c: byte, n: nat) returns (i: nat)
      requires n == 0 || (p != null && p in live && n <= p.Length)
      ensures i <= n
      ensures i < n ==> p[i] == c
      ensures forall k :: 0 <= k < i ==> p[k] != c
    {
      i := 0;
      while i < n && p[i] != c
        invariant i <= n
        invariant forall k :: 0 <= k < i ==> p[k] != c
      {
        i := i + 1;
      }
    }
  }
}
