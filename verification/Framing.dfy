/** Line framing on the LSC's serial line (ferrodac/devices/lsc.py): `_readline` turns the
    byte strings that `read_until` returns into text lines, whatever way the stream was cut. */
module Framing {
  import opened Values
  import opened Text

  type Byte = b: nat | b < 256
  type Bytes = seq<Byte>

  const LF: Byte := 10

  // ----- the stream and its lines -----

  /** What `read_until` can return: nothing (timeout), a fragment without terminator, or
      bytes up to and including the first terminator. */
  predicate IsRead(data: Bytes) { forall i :: 0 <= i < |data| - 1 ==> data[i] != LF }

  predicate AreReads(cuts: seq<Bytes>) { forall i :: 0 <= i < |cuts| ==> IsRead(cuts[i]) }

  predicate Unterminated(data: Bytes) { LF !in data }

  function Flatten(parts: seq<Bytes>): Bytes {
    if parts == [] then [] else parts[0] + Flatten(parts[1..])
  }

  /** Length of the first line with its terminator; 0 when there is none. */
  function FirstLine(stream: Bytes): (n: nat)
    ensures n <= |stream|
  {
    if stream == [] then 0
    else if stream[0] == LF then 1
    else
      var n := FirstLine(stream[1..]);
      if n == 0 then 0 else n + 1
  }

  predicate FirstIs(stream: Bytes, n: int) {
    0 < n <= |stream| && stream[n - 1] == LF && forall i :: 0 <= i < n - 1 ==> stream[i] != LF
  }

  lemma {:induction false} FirstLineFacts(stream: Bytes)
    ensures FirstLine(stream) == 0 <==> Unterminated(stream)
    ensures FirstLine(stream) > 0 ==> FirstIs(stream, FirstLine(stream))
  {
    if stream != [] && stream[0] != LF {
      var rest := stream[1..];
      FirstLineFacts(rest);
      assert stream == [stream[0]] + rest;
      assert forall i :: 0 < i < |stream| ==> stream[i] == rest[i - 1];
    }
  }

  /** The terminated lines of a stream, terminators included. */
  function Lines(stream: Bytes): seq<Bytes>
    decreases |stream|
  {
    var n := FirstLine(stream);
    if n == 0 then [] else [stream[..n]] + Lines(stream[n..])
  }

  /** What is left after the last terminator. */
  function Tail(stream: Bytes): Bytes
    decreases |stream|
  {
    var n := FirstLine(stream);
    if n == 0 then stream else Tail(stream[n..])
  }

  predicate IsLine(l: Bytes) { l != [] && l[|l| - 1] == LF && Unterminated(l[..|l| - 1]) }

  predicate AreLines(ls: seq<Bytes>) { forall i :: 0 <= i < |ls| ==> IsLine(ls[i]) }

  lemma Assoc<T>(a: seq<T>, b: seq<T>, c: seq<T>)
    ensures a + (b + c) == a + b + c
  {
  }

  lemma Halves(a: Bytes, n: nat)
    requires n <= |a|
    ensures a == a[..n] + a[n..]
  {
  }

  lemma LineFirst(l: Bytes, ls: seq<Bytes>)
    ensures Flatten([]) == [] && AreLines([])
    ensures Flatten([l] + ls) == l + Flatten(ls)
    ensures IsLine(l) && AreLines(ls) ==> AreLines([l] + ls)
  {
    assert ([l] + ls)[1..] == ls;
  }

  lemma FirstIsLine(stream: Bytes, n: nat)
    requires FirstIs(stream, n)
    ensures IsLine(stream[..n])
  {
    var l := stream[..n];
    assert l[..|l| - 1] == stream[..n - 1];
  }

  /** Lines and tail are the one way to read a stream as terminated lines and a rest. */
  lemma {:induction false} LinesExact(stream: Bytes)
    ensures Flatten(Lines(stream)) + Tail(stream) == stream
    ensures AreLines(Lines(stream)) && Unterminated(Tail(stream))
    decreases |stream|
  {
    hide FirstLine, FirstIs, IsLine, Unterminated, Flatten, AreLines;
    FirstLineFacts(stream);
    var n := FirstLine(stream);
    if n > 0 {
      FirstIsLine(stream, n);
      LinesExact(stream[n..]);
      LineFirst(stream[..n], Lines(stream[n..]));
      Halves(stream, n);
      Assoc(stream[..n], Flatten(Lines(stream[n..])), Tail(stream[n..]));
    } else {
      LineFirst([], []);
      assert [] + stream == stream;
    }
  }

  lemma FirstLineAt(l: Bytes, rest: Bytes)
    requires IsLine(l)
    ensures FirstLine(l + rest) == |l|
  {
    var s := l + rest;
    FirstLineFacts(s);
    assert forall i :: 0 <= i < |l| - 1 ==> l[..|l| - 1][i] == l[i];
    assert FirstIs(s, |l|) && LF in s;
  }

  lemma {:induction false} LinesUnique(ls: seq<Bytes>, tail: Bytes)
    requires AreLines(ls) && Unterminated(tail)
    ensures Lines(Flatten(ls) + tail) == ls && Tail(Flatten(ls) + tail) == tail
  {
    if ls == [] {
      assert Flatten(ls) + tail == tail;
      FirstLineFacts(tail);
    } else {
      var rest := Flatten(ls[1..]) + tail;
      LinesUnique(ls[1..], tail);
      assert Flatten(ls) + tail == ls[0] + rest;
      LineAhead(ls[0], rest);
      assert [ls[0]] + ls[1..] == ls;
    }
  }

  lemma LineAhead(l: Bytes, rest: Bytes)
    requires IsLine(l)
    ensures Lines(l + rest) == [l] + Lines(rest) && Tail(l + rest) == Tail(rest)
  {
    FirstLineAt(l, rest);
    assert (l + rest)[..|l|] == l && (l + rest)[|l|..] == rest;
  }

  /** A line is whatever precedes a byte 10, with that byte. */
  lemma LineFeedEnds(data: Bytes, rest: Bytes)
    requires 10 !in data
    ensures Lines(data + [10] + rest) == [data + [10]] + Lines(rest) && Lines(data) == []
  {
    assert (data + [10])[..|data|] == data && IsLine(data + [10]);
    LineAhead(data + [10], rest);
    FirstLineFacts(data);
  }

  // ----- the reader -----

  /** ASCII with every other byte replaced by U+FFFD. */
  function Decode(data: Bytes): (t: string)
    ensures |t| == |data|
  {
    seq(|data|, i requires 0 <= i < |data| => if data[i] < 128 then data[i] as char else '\U{FFFD}')
  }

  /** A line as text; None if nothing but blanks. */
  function TextOf(line: Bytes): Option<string> {
    var t := Strip(LINE_BLANK, Decode(line));
    if t == "" then None else Some(t)
  }

  predicate IsAscii(s: string) { forall i :: 0 <= i < |s| ==> s[i] as int < 128 }

  /** The bytes of an ASCII text. */
  function Encode(s: string): (r: Bytes)
    requires IsAscii(s)
    ensures |r| == |s| && forall i :: 0 <= i < |s| ==> r[i] == s[i] as int
  {
    seq(|s|, i requires 0 <= i < |s| => s[i] as int)
  }

  /** Each ASCII byte is its character, any other one U+FFFD. */
  lemma DecodeIs(data: Bytes, i: nat)
    requires i < |data|
    ensures Decode(data)[i] == if data[i] < 128 then data[i] as char else '\U{FFFD}'
  {
  }

  /** An ASCII text that neither starts nor ends in a blank is read back from its line,
      whatever blanks and line ends surround it; a line of blanks is read as nothing. */
  lemma LineReadsBack(a: string, s: string, b: string)
    requires IsAscii(a + s + b)
    requires forall i :: 0 <= i < |a| ==> a[i] in "\r\n \t"
    requires forall i :: 0 <= i < |b| ==> b[i] in "\r\n \t"
    requires s != "" ==> s[0] !in "\r\n \t" && s[|s| - 1] !in "\r\n \t"
    ensures TextOf(Encode(a + s + b)) == if s == "" then None else Some(s)
  {
    hide Strip;
    var line := a + s + b;
    assert Decode(Encode(line)) == line;
    assert PaddedBy(LINE_BLANK, a, s, b, line);
    assert Padded(LINE_BLANK, s, line) && Bare(LINE_BLANK, s);
    StripFacts(LINE_BLANK, line);
    StripUnique(LINE_BLANK, s, Strip(LINE_BLANK, line), line);
  }

  /** One `_readline`: the line it returns, if any, and the stash it leaves. */
  function ReadLine(stash: Bytes, data: Bytes): (Option<string>, Bytes) {
    if data == [] then (None, stash)
    else if data[|data| - 1] != LF then (None, stash + data)
    else (TextOf(stash + data), [])
  }

  function Emitted(stash: Bytes, cuts: seq<Bytes>): (seq<string>, Bytes)
    decreases |cuts|
  {
    if cuts == [] then ([], stash)
    else
      var (line, kept) := ReadLine(stash, cuts[0]);
      var (lines, end) := Emitted(kept, cuts[1..]);
      (if line.Some? then [line.value] + lines else lines, end)
  }

  /** The non-blank lines, as text, in order. */
  function Texts(lines: seq<Bytes>): seq<string> {
    if lines == [] then []
    else
      var t := TextOf(lines[0]);
      if t.Some? then [t.value] + Texts(lines[1..]) else Texts(lines[1..])
  }

  /** Framing does not depend on the cutting: what is emitted are exactly the non-blank
      terminated lines of the stream, and the stash is exactly its unterminated rest. */
  lemma {:induction false} FramingIndependent(stash: Bytes, cuts: seq<Bytes>)
    requires AreReads(cuts) && Unterminated(stash)
    ensures Emitted(stash, cuts) == (Texts(Lines(stash + Flatten(cuts))), Tail(stash + Flatten(cuts)))
    decreases |cuts|
  {
    if cuts == [] {
      assert stash + Flatten(cuts) == stash;
      FirstLineFacts(stash);
    } else {
      var data, rest := cuts[0], cuts[1..];
      var whole := Flatten(rest);
      assert IsRead(data) && AreReads(rest);
      assert stash + Flatten(cuts) == (stash + data) + whole;
      if data == [] || data[|data| - 1] != LF {
        assert Unterminated(data);
        assert data == [] ==> stash + data == stash;
        FramingIndependent(stash + data, rest);
      } else {
        FramingIndependent([], rest);
        assert [] + whole == whole;
        JoinedLine(stash, data);
        LineAhead(stash + data, whole);
        assert ([stash + data] + Lines(whole))[1..] == Lines(whole);
      }
    }
  }

  lemma JoinedLine(stash: Bytes, data: Bytes)
    requires Unterminated(stash) && IsRead(data) && data != [] && data[|data| - 1] == LF
    ensures IsLine(stash + data)
  {
    assert forall i :: 0 <= i < |data[..|data| - 1]| ==> data[..|data| - 1][i] == data[i];
    assert (stash + data)[..|stash + data| - 1] == stash + data[..|data| - 1];
  }

  /** Two cuttings of the same stream give the same lines and the same rest. */
  lemma SameStreamSameLines(stash: Bytes, p: seq<Bytes>, q: seq<Bytes>)
    requires AreReads(p) && AreReads(q) && Unterminated(stash) && Flatten(p) == Flatten(q)
    ensures Emitted(stash, p) == Emitted(stash, q)
  {
    FramingIndependent(stash, p);
    FramingIndependent(stash, q);
  }

  // ----- dropping the input buffer under a stash -----

  /** `_send` and `start_reader` drop the port's input buffer but keep the stash. The next
      lines are those of the new stream exactly when the stash holds nothing but blanks;
      otherwise the stale fragment is glued to the first new line. */
  lemma StaleStash(stash: Bytes, next: seq<Bytes>)
    requires AreReads(next) && Unterminated(stash) && LF in Flatten(next)
    ensures Emitted(stash, next).0 == Emitted([], next).0 <==> AllOf(LINE_BLANK, Decode(stash))
  {
    assert Unterminated([]);
    hide *;
    var whole := Flatten(next);
    FramingIndependent(stash, next);
    FramingIndependent([], next);
    assert [] + whole == whole;
    FirstOfMany(stash, whole);
    var n := FirstLine(whole);
    Halves(whole, n);
    StaleLine(stash, whole[..n], whole[n..]);
  }

  lemma StaleLine(stash: Bytes, l: Bytes, rest: Bytes)
    requires IsLine(l) && IsLine(stash + l)
    ensures Texts(Lines(stash + (l + rest))) == Texts(Lines(l + rest)) <==> AllOf(LINE_BLANK, Decode(stash))
  {
    hide *;
    Assoc(stash, l, rest);
    LineAhead(stash + l, rest);
    LineAhead(l, rest);
    GluedLine(stash, l);
    TextsAhead(stash + l, Lines(rest));
    TextsAhead(l, Lines(rest));
    OneAhead(TextOf(stash + l), TextOf(l), Texts(Lines(rest)));
  }

  function Ahead(t: Option<string>, ts: seq<string>): seq<string> { (if t.Some? then [t.value] else []) + ts }

  lemma OneAhead(p: Option<string>, q: Option<string>, ts: seq<string>)
    requires q.Some? ==> p.Some?
    ensures Ahead(p, ts) == Ahead(q, ts) <==> p == q
  {
    if p.Some? {
      assert Ahead(p, ts)[0] == p.value && |Ahead(p, ts)| == |ts| + 1;
    }
  }

  lemma FirstOfMany(stash: Bytes, whole: Bytes)
    requires Unterminated(stash) && LF in whole
    ensures var n := FirstLine(whole); IsLine(whole[..n]) && IsLine(stash + whole[..n])
  {
    hide FirstLine;
    FirstLineFacts(whole);
    var n := FirstLine(whole);
    FirstIsLine(whole, n);
    var l := whole[..n];
    assert (stash + l)[..|stash + l| - 1] == stash + l[..|l| - 1];
  }

  lemma TextsAhead(l: Bytes, ls: seq<Bytes>)
    ensures Texts([l] + ls) == Ahead(TextOf(l), Texts(ls))
  {
    assert ([l] + ls)[1..] == ls;
  }

  /** Gluing a fragment in front of a line leaves its text alone iff the fragment is blank. */
  lemma GluedLine(stash: Bytes, l: Bytes)
    ensures TextOf(stash + l) == TextOf(l) <==> AllOf(LINE_BLANK, Decode(stash))
    ensures TextOf(l).Some? ==> TextOf(stash + l).Some?
  {
    hide Strip;
    var d, t, s := Decode(stash), Decode(l), Decode(stash + l);
    assert s == d + t;
    StripFacts(LINE_BLANK, t);
    StripFacts(LINE_BLANK, s);
    GluedText(d, t, Strip(LINE_BLANK, t), Strip(LINE_BLANK, s));
  }

  lemma GluedText(d: string, t: string, r: string, q: string)
    requires Bare(LINE_BLANK, r) && Padded(LINE_BLANK, r, t)
    requires Bare(LINE_BLANK, q) && Padded(LINE_BLANK, q, d + t)
    ensures if AllOf(LINE_BLANK, d) then q == r else |q| > |r|
  {
    var a, b :| PaddedBy(LINE_BLANK, a, r, b, t);
    if AllOf(LINE_BLANK, d) {
      assert d + t == d + a + r + b;
      assert PaddedBy(LINE_BLANK, d + a, r, b, d + t);
      assert Padded(LINE_BLANK, r, d + t);
      StripUnique(LINE_BLANK, r, q, d + t);
    } else {
      var c, e :| PaddedBy(LINE_BLANK, c, q, e, d + t);
      Longer(d, t, a, r, b, c, q, e);
    }
  }

  lemma Longer(d: string, t: string, a: string, r: string, b: string, c: string, q: string, e: string)
    requires !AllOf(LINE_BLANK, d)
    requires Bare(LINE_BLANK, r) && PaddedBy(LINE_BLANK, a, r, b, t)
    requires Bare(LINE_BLANK, q) && PaddedBy(LINE_BLANK, c, q, e, d + t)
    ensures |q| > |r|
  {
    var s := d + t;
    PaddingEnds(LINE_BLANK, a, r, b, t);
    PaddingEnds(LINE_BLANK, c, q, e, s);
    var i :| 0 <= i < |d| && !LINE_BLANK(d[i]);
    assert s[i] == d[i];
    assert First(LINE_BLANK, s, |c|) && |c| <= i;
    if r != "" {
      var k := |t| - 1 - |b|;
      assert s[|d| + k] == t[k];
      assert Last(LINE_BLANK, s, |s| - 1 - |e|) && |s| - 1 - |e| >= |d| + k;
    }
  }
}
