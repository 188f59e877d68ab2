/** Newline framing of a byte stream: what `bufio.Reader.ReadBytes('\n')`
    yields when called until it reports an error, and the inverse direction,
    concatenating newline-terminated frames. */
module Framing {
  import opened Proto

  /** The index of the first newline in `s`, or `|s|` when there is none. */
  function FindNewline(s: Bytes): (i: nat)
    ensures i <= |s|
    ensures i < |s| ==> s[i] == NL
    ensures forall j :: 0 <= j < i ==> s[j] != NL
  {
    if |s| == 0 then 0
    else if s[0] == NL then 0
    else 1 + FindNewline(s[1..])
  }

  /** The complete lines of `s`, each one keeping its terminating newline:
      what `ReadBytes('\n')` returns with a nil error, call after call. */
  function Lines(s: Bytes): (ls: seq<Bytes>)
    ensures forall k :: 0 <= k < |ls| ==> IsLine(ls[k])
    decreases |s|
  {
    var i := FindNewline(s);
    if i == |s| then [] else
      assert IsLine(s[..i + 1]);
      [s[..i + 1]] + Lines(s[i + 1..])
  }

  /** The bytes after the last newline: what `ReadBytes('\n')` returns
      together with EOF, a partial line that is never answered. */
  function Trailing(s: Bytes): (t: Bytes)
    ensures NL !in t
    ensures |t| <= |s|
    decreases |s|
  {
    var i := FindNewline(s);
    if i == |s| then
      assert forall j :: 0 <= j < |s| ==> s[j] != NL;
      s
    else Trailing(s[i + 1..])
  }

  function Concat(ss: seq<Bytes>): Bytes {
    if |ss| == 0 then [] else ss[0] + Concat(ss[1..])
  }

  /** A frame: newline-terminated, with no newline before the end. */
  predicate IsLine(l: Bytes) {
    && |l| > 0
    && l[|l| - 1] == NL
    && forall j :: 0 <= j < |l| - 1 ==> l[j] != NL
  }

  function CountNewlines(s: Bytes): nat {
    if |s| == 0 then 0 else (if s[0] == NL then 1 else 0) + CountNewlines(s[1..])
  }

  /** Splitting at the first newline: the first line, then the rest. */
  lemma {:induction false} SplitFirst(s: Bytes)
    requires FindNewline(s) < |s|
    ensures Lines(s) == [s[..FindNewline(s) + 1]] + Lines(s[FindNewline(s) + 1..])
    ensures Trailing(s) == Trailing(s[FindNewline(s) + 1..])
    ensures s == s[..FindNewline(s) + 1] + s[FindNewline(s) + 1..]
  {
    var i := FindNewline(s);
    assert s == s[..i + 1] + s[i + 1..];
  }

  lemma ConcatCons(x: Bytes, ys: seq<Bytes>)
    ensures Concat([x] + ys) == x + Concat(ys)
  {
    assert ([x] + ys)[1..] == ys;
  }

  /** Splitting loses nothing: the lines followed by the trailing bytes give
      back the stream. */
  lemma {:induction false} SplitLines(s: Bytes)
    ensures Concat(Lines(s)) + Trailing(s) == s
    decreases |s|
  {
    var i := FindNewline(s);
    if i < |s| {
      var rest := s[i + 1..];
      SplitFirst(s);
      SplitLines(rest);
      ConcatCons(s[..i + 1], Lines(rest));
    }
  }

  lemma {:induction false} CountNewlinesAppend(a: Bytes, b: Bytes)
    ensures CountNewlines(a + b) == CountNewlines(a) + CountNewlines(b)
    decreases |a|
  {
    if |a| == 0 {
      assert a + b == b;
    } else {
      assert (a + b)[1..] == a[1..] + b;
      CountNewlinesAppend(a[1..], b);
    }
  }

  lemma {:induction false} CountNewlinesNone(s: Bytes)
    requires NL !in s
    ensures CountNewlines(s) == 0
    decreases |s|
  {
    if |s| > 0 {
      CountNewlinesNone(s[1..]);
    }
  }

  /** One line per newline: every `'\n'` in the stream closes exactly one line. */
  lemma {:induction false} LinesCount(s: Bytes)
    ensures |Lines(s)| == CountNewlines(s)
    decreases |s|
  {
    var i := FindNewline(s);
    if i == |s| {
      assert NL !in s by {
        forall j | 0 <= j < |s| ensures s[j] != NL { }
      }
      CountNewlinesNone(s);
    } else {
      var rest := s[i + 1..];
      LinesCount(rest);
      assert s == s[..i] + [NL] + rest;
      assert NL !in s[..i];
      CountNewlinesNone(s[..i]);
      CountNewlinesAppend(s[..i] + [NL], rest);
      CountNewlinesAppend(s[..i], [NL]);
    }
  }

  /** Lines of a stream that ends on a line boundary are unaffected by what follows. */
  lemma {:induction false} LinesAppend(a: Bytes, b: Bytes)
    requires Trailing(a) == []
    ensures Lines(a + b) == Lines(a) + Lines(b)
    ensures Trailing(a + b) == Trailing(b)
    decreases |a|
  {
    var i := FindNewline(a);
    if i == |a| {
      assert a == [];
      assert a + b == b;
    } else {
      var j := FindNewline(a + b);
      assert j == i by {
        assert (a + b)[i] == NL;
        forall k | 0 <= k < i ensures (a + b)[k] != NL {
          assert (a + b)[k] == a[k];
        }
      }
      assert (a + b)[..i + 1] == a[..i + 1];
      assert (a + b)[i + 1..] == a[i + 1..] + b;
      LinesAppend(a[i + 1..], b);
    }
  }

  /** Reading back frames: splitting the concatenation of frames returns the
      frames themselves and leaves nothing over. */
  lemma {:induction false} LinesOfFrames(frames: seq<Bytes>)
    requires forall k :: 0 <= k < |frames| ==> IsLine(frames[k])
    ensures Lines(Concat(frames)) == frames
    ensures Trailing(Concat(frames)) == []
    decreases |frames|
  {
    if |frames| > 0 {
      var f := frames[0];
      LineIsOneFrame(f);
      LinesOfFrames(frames[1..]);
      LinesAppend(f, Concat(frames[1..]));
      assert frames == [f] + frames[1..];
    }
  }

  /** A single frame splits into itself. */
  lemma LineIsOneFrame(l: Bytes)
    requires IsLine(l)
    ensures Lines(l) == [l]
    ensures Trailing(l) == []
  {
    var i := FindNewline(l);
    assert i == |l| - 1;
    assert l[i + 1..] == [];
    assert l[..i + 1] == l;
  }

  /** Lines only grow as more bytes arrive: the lines of any prefix are a
      prefix of the lines of the whole stream. */
  lemma {:induction false} LinesPrefix(p: Bytes, s: Bytes)
    requires p <= s
    ensures Lines(p) <= Lines(s)
    decreases |p|
  {
    var i := FindNewline(p);
    if i < |p| {
      var j := FindNewline(s);
      assert j == i by {
        assert s[i] == NL;
        forall k | 0 <= k < i ensures s[k] != NL {
          assert s[k] == p[k];
        }
      }
      SplitFirst(p);
      SplitFirst(s);
      assert p[..i + 1] == s[..i + 1];
      assert p[i + 1..] <= s[i + 1..];
      LinesPrefix(p[i + 1..], s[i + 1..]);
    }
  }
}
