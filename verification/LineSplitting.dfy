/** Newline-terminated lines: how a byte stream is cut, and why the cut is unique. */
module LineSplitting {
  import opened ByteStrings

  /** Index of the first newline of `s`, or `|s|` when there is none. */
  function FirstNewline(s: Bytes): (i: nat)
    ensures i <= |s|
    ensures NL !in s[..i]
    ensures i < |s| ==> s[i] == NL
    ensures i == |s| <==> NL !in s
  {
    if s == [] then 0
    else if s[0] == NL then 0
    else
      var i := 1 + FirstNewline(s[1..]);
      assert s[..i] == [s[0]] + s[1..][..i - 1];
      assert s == [s[0]] + s[1..];
      i
  }

  /** A newline, exactly one, and it is the last byte. */
  predicate IsLine(l: Bytes) {
    |l| > 0 && l[|l| - 1] == NL && NL !in l[..|l| - 1]
  }

  ghost predicate AllLines(ls: seq<Bytes>) {
    forall i :: 0 <= i < |ls| ==> IsLine(ls[i])
  }

  /** The complete lines of a stream, in order. */
  function Lines(s: Bytes): (ls: seq<Bytes>)
    decreases |s|
  {
    var i := FirstNewline(s);
    if i == |s| then [] else [s[..i + 1]] + Lines(s[i + 1..])
  }

  /** What follows the last newline of a stream. */
  function Tail(s: Bytes): (t: Bytes)
    decreases |s|
  {
    var i := FirstNewline(s);
    if i == |s| then s else Tail(s[i + 1..])
  }

  function Newlines(s: Bytes): nat {
    if s == [] then 0 else (if s[0] == NL then 1 else 0) + Newlines(s[1..])
  }

  lemma {:induction false} NewlinesAppend(a: Bytes, b: Bytes)
    ensures Newlines(a + b) == Newlines(a) + Newlines(b)
  {
    if a == [] {
      assert a + b == b;
    } else {
      assert (a + b)[1..] == a[1..] + b;
      NewlinesAppend(a[1..], b);
    }
  }

  lemma {:induction false} NoNewlines(s: Bytes)
    requires NL !in s
    ensures Newlines(s) == 0
  {
    if s != [] {
      NoNewlines(s[1..]);
    }
  }

  /** There are as many lines as newlines. */
  lemma {:induction false} LinesCountNewlines(s: Bytes)
    ensures |Lines(s)| == Newlines(s)
    decreases |s|
  {
    var i := FirstNewline(s);
    NoNewlines(s[..i]);
    if i == |s| {
      assert s[..i] == s;
    } else {
      assert s == s[..i] + ([NL] + s[i + 1..]);
      NewlinesAppend(s[..i], [NL] + s[i + 1..]);
      NewlinesAppend([NL], s[i + 1..]);
      LinesCountNewlines(s[i + 1..]);
    }
  }

  lemma FirstNewlineIs(s: Bytes, i: nat)
    requires i <= |s| && (i < |s| ==> s[i] == NL)
    requires forall k :: 0 <= k < i ==> s[k] != NL
    ensures FirstNewline(s) == i
  {
    var j := FirstNewline(s);
    assert forall k :: 0 <= k < j ==> s[k] == s[..j][k];
    if i == |s| {
      assert forall k :: 0 <= k < |s| ==> s[k] != NL;
    }
  }

  /** The first pending line, and what is pending after it. */
  lemma FirstLine(s: Bytes)
    requires FirstNewline(s) < |s|
    ensures var n := FirstNewline(s) + 1;
      Lines(s) != [] && Lines(s)[0] == s[..n] && Lines(s)[1..] == Lines(s[n..]) && Tail(s) == Tail(s[n..])
  {
    hide FirstNewline;
    var n := FirstNewline(s) + 1;
    ConsParts(s[..n], Lines(s[n..]));
  }

  lemma FirstLineIsLine(s: Bytes)
    requires FirstNewline(s) < |s|
    ensures IsLine(s[..FirstNewline(s) + 1])
  {
    hide FirstNewline;
    var i := FirstNewline(s);
    assert s[..i + 1][..i] == s[..i];
  }

  /** The cut loses nothing, and its pieces are lines followed by an unfinished rest. */
  lemma {:induction false} SplitRecomposes(s: Bytes)
    ensures Flatten(Lines(s)) + Tail(s) == s
    ensures AllLines(Lines(s))
    ensures NL !in Tail(s)
    decreases |s|
  {
    if FirstNewline(s) == |s| {
      NoLines(s);
    } else {
      var n := FirstNewline(s) + 1;
      FirstLine(s);
      FirstLineIsLine(s);
      SplitRecomposes(s[n..]);
      Recompose(s, n, Lines(s), Tail(s));
    }
  }

  lemma Recompose(s: Bytes, n: nat, ls: seq<Bytes>, t: Bytes)
    requires n <= |s| && ls != [] && ls[0] == s[..n]
    requires Flatten(ls[1..]) + t == s[n..]
    requires IsLine(ls[0]) && AllLines(ls[1..])
    ensures Flatten(ls) + t == s
    ensures AllLines(ls)
  {
    assert s == s[..n] + s[n..];
    assert ls == [ls[0]] + ls[1..];
    FlattenCons(ls[0], ls[1..]);
    Assoc(ls[0], Flatten(ls[1..]), t);
  }

  lemma FirstNewlineOfLine(l: Bytes, rest: Bytes)
    requires IsLine(l)
    ensures FirstNewline(l + rest) == |l| - 1
  {
    var s := l + rest;
    var i := FirstNewline(s);
    assert forall k :: 0 <= k < |l| - 1 ==> s[k] == l[..|l| - 1][k];
    assert s[|l| - 1] == NL;
    assert forall k :: 0 <= k < i ==> s[k] == s[..i][k];
  }

  /** There is only one way to write a stream as lines followed by an unfinished rest. */
  lemma {:induction false} SplitUnique(ls: seq<Bytes>, t: Bytes)
    requires AllLines(ls) && NL !in t
    ensures Lines(Flatten(ls) + t) == ls
    ensures Tail(Flatten(ls) + t) == t
  {
    if ls == [] {
      assert Flatten(ls) + t == t;
    } else {
      var rest := Flatten(ls[1..]) + t;
      assert Flatten(ls) + t == ls[0] + rest;
      FirstNewlineOfLine(ls[0], rest);
      assert (ls[0] + rest)[..|ls[0]|] == ls[0];
      assert (ls[0] + rest)[|ls[0]|..] == rest;
      SplitUnique(ls[1..], t);
      assert ls == [ls[0]] + ls[1..];
    }
  }

  lemma AllLinesAppend(a: seq<Bytes>, b: seq<Bytes>)
    requires AllLines(a) && AllLines(b)
    ensures AllLines(a + b)
  {
  }

  lemma SplitRegroup(first: seq<Bytes>, rest: Bytes, b: Bytes, more: seq<Bytes>, last: Bytes)
    requires AllLines(first) && AllLines(more) && NL !in last
    requires rest + b == Flatten(more) + last
    ensures Lines(Flatten(first) + rest + b) == first + more
    ensures Tail(Flatten(first) + rest + b) == last
  {
    FlattenAppend(first, more);
    assert Flatten(first) + rest + b == Flatten(first) + (rest + b);
    assert Flatten(first + more) + last == Flatten(first) + (Flatten(more) + last);
    SplitUnique(first + more, last);
  }

  /** Cutting `a` first and continuing with its rest cuts `a + b`. */
  lemma SplitAppend(a: Bytes, b: Bytes)
    ensures Lines(a + b) == Lines(a) + Lines(Tail(a) + b)
    ensures Tail(a + b) == Tail(Tail(a) + b)
  {
    SplitRecomposes(a);
    SplitRecomposes(Tail(a) + b);
    SplitRegroup(Lines(a), Tail(a), b, Lines(Tail(a) + b), Tail(Tail(a) + b));
  }

  lemma NoLines(s: Bytes)
    ensures NL !in s <==> Lines(s) == []
    ensures NL !in s ==> Tail(s) == s
  {
  }

  /** Nonempty pieces: leaving lines out always leaves bytes out. */
  lemma {:induction false} LinesHaveBytes(ls: seq<Bytes>)
    requires AllLines(ls)
    ensures |Flatten(ls)| >= |ls|
  {
    if ls != [] {
      LinesHaveBytes(ls[1..]);
    }
  }
}
