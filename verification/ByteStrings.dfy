/** Byte strings and the few operations on them that the driver and the server share. */
module ByteStrings {

  newtype byte = x: int | 0 <= x < 256

  type Bytes = seq<byte>

  datatype Option<+T> = None | Some(value: T)

  const NL: byte := 10
  const NUL: byte := 0

  /** All strings of `parts`, end to end. */
  function Flatten(parts: seq<Bytes>): Bytes {
    if parts == [] then [] else parts[0] + Flatten(parts[1..])
  }

  lemma FlattenCons(a: Bytes, b: seq<Bytes>)
    ensures Flatten([a] + b) == a + Flatten(b)
  {
    assert ([a] + b)[1..] == b;
  }

  lemma {:induction false} FlattenAppend(a: seq<Bytes>, b: seq<Bytes>)
    ensures Flatten(a + b) == Flatten(a) + Flatten(b)
  {
    if a == [] {
      assert a + b == b;
    } else {
      assert a + b == [a[0]] + (a[1..] + b);
      FlattenCons(a[0], a[1..] + b);
      FlattenAppend(a[1..], b);
      Assoc(a[0], Flatten(a[1..]), Flatten(b));
    }
  }

  lemma FlattenOne(a: Bytes)
    ensures Flatten([a]) == a
  {
    assert [a][1..] == [];
  }

  lemma FlattenSnoc(a: seq<Bytes>, b: Bytes)
    ensures Flatten(a + [b]) == Flatten(a) + b
  {
    FlattenAppend(a, [b]);
    FlattenOne(b);
  }

  lemma FlattenSplit(parts: seq<Bytes>, k: nat)
    requires k <= |parts|
    ensures Flatten(parts) == Flatten(parts[..k]) + Flatten(parts[k..])
  {
    FlattenAppend(parts[..k], parts[k..]);
    assert parts[..k] + parts[k..] == parts;
  }

  lemma Assoc<T>(a: seq<T>, b: seq<T>, c: seq<T>)
    ensures a + b + c == a + (b + c)
  {
  }

  lemma ConsParts<T>(a: T, b: seq<T>)
    ensures ([a] + b)[0] == a && ([a] + b)[1..] == b
  {
  }

  /** Moving the first of the elements still to come over to those already taken. */
  lemma TakeNext<T>(before: seq<T>, all: seq<T>, k: nat)
    requires k < |all|
    ensures all[k..][0] == all[k] && all[k..][1..] == all[k + 1..]
    ensures before + all[..k] + [all[k]] == before + all[..k + 1]
  {
  }

  function Min(a: nat, b: nat): nat { if a < b then a else b }

  /** At most `count` bytes of `s` from offset `from`: what a read of a file holding `s` returns. */
  function Slice(s: Bytes, from: nat, count: nat): (r: Bytes)
    ensures |r| == if from >= |s| then 0 else Min(count, |s| - from)
  {
    if from >= |s| then [] else s[from..from + Min(count, |s| - from)]
  }

  /** Everything of `s` from offset `from` on. */
  function From(s: Bytes, from: nat): Bytes {
    if from >= |s| then [] else s[from..]
  }

  /** Two adjacent slices are one slice. */
  lemma SliceAdjacent(s: Bytes, p: nat, a: nat, b: nat)
    ensures Slice(s, p, a) + Slice(s, p + |Slice(s, p, a)|, b) == Slice(s, p, |Slice(s, p, a)| + b)
  {
  }

  lemma EmptySlice(s: Bytes, p: nat)
    ensures Slice(s, p, 0) == []
  {
  }

  /** A slice that has reached the end of `s` is the longest there is. */
  lemma SliceSaturates(s: Bytes, p: nat, n: nat, count: nat)
    requires n == count || (n <= count && p + n >= |s|)
    ensures Slice(s, p, n) == Slice(s, p, count)
  {
  }

  lemma SliceIsExact(s: Bytes, p: nat, count: nat)
    ensures Slice(s, p, |Slice(s, p, count)|) == Slice(s, p, count)
  {
  }

  lemma InnerSlice(before: Bytes, part: Bytes, after: Bytes, o: nat, n: nat)
    requires o + n <= |part|
    ensures |before| + o + n <= |before + (part + after)|
    ensures Slice(before + (part + after), |before| + o, n) == part[o..o + n]
  {
  }

  lemma SliceGrows(s: Bytes, p: nat, done: Bytes, piece: Bytes)
    requires done == Slice(s, p, |done|) && piece == Slice(s, p + |done|, |piece|)
    ensures done + piece == Slice(s, p, |done| + |piece|)
  {
    hide Slice;
    SliceAdjacent(s, p, |done|, |piece|);
  }

  /** Appending to `s` does not change what a slice delivered. */
  lemma SliceOfLonger(s: Bytes, more: Bytes, p: nat, count: nat)
    ensures Slice(s + more, p, |Slice(s, p, count)|) == Slice(s, p, count)
  {
  }

  /** `part` occurs in `whole` as one contiguous block. */
  ghost predicate Occurs(part: Bytes, whole: Bytes) {
    exists before: Bytes, after: Bytes :: whole == before + part + after
  }
}
