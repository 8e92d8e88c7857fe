/** Python's string handling as the LSC line protocol uses it: strip, split and join on a
    comma, and int(). */
module Text {
  import opened Values

  /** What `strip("\r\n \t")` drops from a line. */
  const LINE_BLANK: char -> bool := (c: char) => c == '\r' || c == '\n' || c == ' ' || c == '\t'

  /** What `strip()` drops from an ASCII field: tab to return, the four separators, space. */
  const SPACE: char -> bool := (c: char) => 9 <= c as int <= 13 || 28 <= c as int <= 32

  lemma BlanksAre(c: char)
    ensures LINE_BLANK(c) <==> c in ['\r', '\n', ' ', '\t']
    ensures SPACE(c) <==> c in ['\t', '\n', 11 as char, 12 as char, '\r', 28 as char, 29 as char, 30 as char, 31 as char, ' ']
  {
  }

  // ----- strip -----

  function LStrip(p: char -> bool, s: string): string {
    if s != "" && p(s[0]) then LStrip(p, s[1..]) else s
  }

  function RStrip(p: char -> bool, s: string): string {
    if s != "" && p(s[|s| - 1]) then RStrip(p, s[..|s| - 1]) else s
  }

  function Strip(p: char -> bool, s: string): string { RStrip(p, LStrip(p, s)) }

  predicate AllOf(p: char -> bool, s: string) { forall i :: 0 <= i < |s| ==> p(s[i]) }

  /** Nothing is left to drop at either end. */
  predicate Bare(p: char -> bool, s: string) { s != "" ==> !p(s[0]) && !p(s[|s| - 1]) }

  lemma {:induction false} LStripFacts(p: char -> bool, s: string)
    ensures exists a :: AllOf(p, a) && s == a + LStrip(p, s)
    ensures LStrip(p, s) != "" ==> !p(LStrip(p, s)[0])
  {
    if s != "" && p(s[0]) {
      LStripFacts(p, s[1..]);
      var a :| AllOf(p, a) && s[1..] == a + LStrip(p, s[1..]);
      assert AllOf(p, [s[0]] + a) && s == [s[0]] + a + LStrip(p, s);
    } else {
      assert AllOf(p, "") && s == "" + LStrip(p, s);
    }
  }

  lemma {:induction false} RStripFacts(p: char -> bool, s: string)
    ensures exists b :: AllOf(p, b) && s == RStrip(p, s) + b
    ensures RStrip(p, s) != "" ==> !p(RStrip(p, s)[|RStrip(p, s)| - 1])
  {
    if s != "" && p(s[|s| - 1]) {
      RStripFacts(p, s[..|s| - 1]);
      var b :| AllOf(p, b) && s[..|s| - 1] == RStrip(p, s[..|s| - 1]) + b;
      assert AllOf(p, b + [s[|s| - 1]]) && s == RStrip(p, s) + (b + [s[|s| - 1]]);
    } else {
      assert AllOf(p, "") && s == RStrip(p, s) + "";
    }
  }

  /** s is r with droppable characters around it. */
  ghost predicate Padded(p: char -> bool, r: string, s: string) {
    exists a, b :: PaddedBy(p, a, r, b, s)
  }

  predicate PaddedBy(p: char -> bool, a: string, r: string, b: string, s: string) {
    AllOf(p, a) && AllOf(p, b) && s == a + r + b
  }

  /** strip() returns the one bare string the text is a padding of. */
  lemma StripFacts(p: char -> bool, s: string)
    ensures Bare(p, Strip(p, s)) && Padded(p, Strip(p, s), s)
  {
    var l := LStrip(p, s);
    LStripFacts(p, s);
    RStripFacts(p, l);
    var a :| AllOf(p, a) && s == a + l;
    var b :| AllOf(p, b) && l == RStrip(p, l) + b;
    assert PaddedBy(p, a, Strip(p, s), b, s);
    if Strip(p, s) != "" {
      assert l[0] == Strip(p, s)[0];
    }
  }

  /** k is the place of the first (last) character that stays. */
  predicate First(p: char -> bool, s: string, k: int) {
    0 <= k < |s| && !p(s[k]) && forall i :: 0 <= i < k ==> p(s[i])
  }

  predicate Last(p: char -> bool, s: string, k: int) {
    0 <= k < |s| && !p(s[k]) && forall i :: k < i < |s| ==> p(s[i])
  }

  lemma PaddingEnds(p: char -> bool, a: string, r: string, b: string, s: string)
    requires Bare(p, r) && PaddedBy(p, a, r, b, s)
    ensures r == "" <==> AllOf(p, s)
    ensures r != "" ==> First(p, s, |a|) && Last(p, s, |s| - 1 - |b|)
    ensures r == s[|a|..|s| - |b|]
  {
    assert r != "" ==> s[|a|] == r[0] && s[|s| - 1 - |b|] == r[|r| - 1];
  }

  lemma StripUnique(p: char -> bool, r: string, t: string, s: string)
    requires Bare(p, r) && Bare(p, t) && Padded(p, r, s) && Padded(p, t, s)
    ensures r == t
  {
    var a, b :| PaddedBy(p, a, r, b, s);
    var c, d :| PaddedBy(p, c, t, d, s);
    PaddingEnds(p, a, r, b, s);
    PaddingEnds(p, c, t, d, s);
  }

  // ----- split and join on a comma -----

  function Split(s: string): (r: seq<string>)
    ensures r != []
  {
    if s == "" then [""]
    else if s[0] == ',' then [""] + Split(s[1..])
    else
      var r := Split(s[1..]);
      [[s[0]] + r[0]] + r[1..]
  }

  function Join(fields: seq<string>): string {
    if fields == [] then ""
    else if |fields| == 1 then fields[0]
    else fields[0] + "," + Join(fields[1..])
  }

  predicate NoComma(s: string) { ',' !in s }

  predicate NoCommas(fields: seq<string>) { forall i :: 0 <= i < |fields| ==> NoComma(fields[i]) }

  lemma {:induction false} JoinSplit(s: string)
    ensures Join(Split(s)) == s && NoCommas(Split(s))
  {
    if s != "" {
      var r := Split(s[1..]);
      JoinSplit(s[1..]);
      hide Join, Split;
      assert s == [s[0]] + s[1..];
      if s[0] == ',' {
        JoinComma(s[1..], r);
      } else {
        JoinChar(s[0], s[1..], r);
      }
    }
  }

  lemma JoinComma(s: string, r: seq<string>)
    requires r == Split(s) && Join(r) == s && NoCommas(r)
    ensures Join(Split([','] + s)) == [','] + s && NoCommas(Split([','] + s))
  {
    assert ([','] + s)[1..] == s && ([""] + r)[1..] == r;
    assert "" + "," + s == [','] + s;
  }

  lemma JoinChar(c: char, s: string, r: seq<string>)
    requires c != ',' && r == Split(s) && Join(r) == s && NoCommas(r)
    ensures Join(Split([c] + s)) == [c] + s && NoCommas(Split([c] + s))
  {
    var t := [[c] + r[0]] + r[1..];
    assert ([c] + s)[1..] == s && t[1..] == r[1..];
    assert |r| > 1 ==> [c] + r[0] + "," + Join(r[1..]) == [c] + (r[0] + "," + Join(r[1..]));
  }

  /** A comma-free field in front splits off. */
  lemma {:induction false} SplitField(f: string, rest: string)
    requires NoComma(f)
    ensures Split(f + "," + rest) == [f] + Split(rest)
  {
    var s := f + "," + rest;
    if f == "" {
      assert s[1..] == rest;
    } else {
      SplitField(f[1..], rest);
      assert s[1..] == f[1..] + "," + rest && s[0] == f[0];
      assert [f[0]] + f[1..] == f;
      assert ([f[1..]] + Split(rest))[1..] == Split(rest);
    }
  }

  /** Splitting a joined record gives back its comma-free head and splits its tail. */
  lemma {:induction false} SplitJoin(head: seq<string>, tail: string)
    requires NoCommas(head)
    ensures Split(Join(head + [tail])) == head + Split(tail)
  {
    if head == [] {
      assert head + [tail] == [tail] && head + Split(tail) == Split(tail);
    } else {
      var rest := head[1..];
      SplitJoin(rest, tail);
      JoinHead(head[0], rest, tail);
      assert head == [head[0]] + rest;
      hide Split, Join;
      SplitField(head[0], Join(rest + [tail]));
      assert [head[0]] + (rest + Split(tail)) == [head[0]] + rest + Split(tail);
    }
  }

  lemma JoinHead(f: string, rest: seq<string>, tail: string)
    ensures Join([f] + rest + [tail]) == f + "," + Join(rest + [tail])
  {
    assert ([f] + rest + [tail])[1..] == rest + [tail];
  }

  // ----- int() -----

  predicate Digit(c: char) { '0' <= c <= '9' }

  /** Digits, with single underscores allowed between them. */
  function ParseNat(s: string): Option<nat> {
    if s == "" || !Digit(s[|s| - 1]) then None
    else
      var d := s[|s| - 1] as int - '0' as int;
      if |s| == 1 then Some(d)
      else
        match ParseNat(if s[|s| - 2] == '_' then s[..|s| - 2] else s[..|s| - 1])
        case None => None
        case Some(v) => Some(10 * v + d)
  }

  function ParseInt(text: string): Option<int> {
    var s := Strip(SPACE, text);
    var signed := s != "" && (s[0] == '-' || s[0] == '+');
    var m := ParseNat(if signed then s[1..] else s);
    if m.None? then None
    else
      var v: int := m.value;
      Some(if signed && s[0] == '-' then -v else v)
  }

  function FormatNat(n: nat): (s: string)
    ensures s != "" && forall i :: 0 <= i < |s| ==> Digit(s[i])
  {
    var last := ('0' as int + n % 10) as char;
    if n < 10 then [last] else FormatNat(n / 10) + [last]
  }

  function FormatInt(n: int): string { if n < 0 then "-" + FormatNat(-n) else FormatNat(n) }

  lemma {:induction false} ParseFormatNat(n: nat)
    ensures ParseNat(FormatNat(n)) == Some(n)
  {
    if n >= 10 {
      ParseFormatNat(n / 10);
      var init, s := FormatNat(n / 10), FormatNat(n);
      assert s[..|s| - 1] == init && s[|s| - 2] == init[|init| - 1];
    }
  }

  lemma ParseFormatInt(n: int, a: string, b: string)
    requires AllOf(SPACE, a) && AllOf(SPACE, b)
    ensures ParseInt(a + FormatInt(n) + b) == Some(n) && NoComma(FormatInt(n))
  {
    var f := FormatInt(n);
    var s := a + f + b;
    StripFacts(SPACE, s);
    assert PaddedBy(SPACE, a, f, b, s);
    assert Padded(SPACE, f, s);
    assert Bare(SPACE, f);
    StripUnique(SPACE, f, Strip(SPACE, s), s);
    ParseBare(n, s);
  }

  lemma ParseBare(n: int, s: string)
    requires Strip(SPACE, s) == FormatInt(n)
    ensures ParseInt(s) == Some(n) && NoComma(FormatInt(n))
  {
    hide Strip;
    if n < 0 {
      assert FormatInt(n)[1..] == FormatNat(-n);
      ParseFormatNat(-n);
    } else {
      ParseFormatNat(n);
      assert Digit(FormatInt(n)[0]);
    }
  }

  // ----- what int() accepts -----

  /** Digits, with single underscores between them. */
  predicate Numeral(s: string) {
    && s != "" && Digit(s[0]) && Digit(s[|s| - 1])
    && forall i :: 0 <= i < |s| ==> Digit(s[i]) || (s[i] == '_' && 0 < i < |s| - 1 && s[i + 1] != '_')
  }

  /** The number read from the left, v being the value so far. */
  function ValueFrom(v: nat, s: string): nat
    decreases |s|
  {
    if s == "" then v
    else if Digit(s[0]) then ValueFrom(10 * v + (s[0] as int - '0' as int), s[1..])
    else ValueFrom(v, s[1..])
  }

  lemma {:induction false} ValueLast(v: nat, s: string, c: char)
    ensures ValueFrom(v, s + [c]) == if Digit(c) then 10 * ValueFrom(v, s) + (c as int - '0' as int) else ValueFrom(v, s)
    decreases |s|
  {
    if s == "" {
      assert "" + [c] == [c] && [c][1..] == "";
    } else {
      assert (s + [c])[1..] == s[1..] + [c];
      ValueLast(if Digit(s[0]) then 10 * v + (s[0] as int - '0' as int) else v, s[1..], c);
    }
  }

  /** The numeral without its last digit, and without the underscore before that. */
  function Shorter(s: string): string
    requires |s| >= 2
  {
    if s[|s| - 2] == '_' then s[..|s| - 2] else s[..|s| - 1]
  }

  lemma NumeralShorter(s: string)
    requires |s| >= 2 && Digit(s[|s| - 1])
    ensures Numeral(s) <==> Numeral(Shorter(s))
    ensures ValueFrom(0, s) == 10 * ValueFrom(0, Shorter(s)) + (s[|s| - 1] as int - '0' as int)
  {
    var n, t := |s| - 1, Shorter(s);
    NumeralCut(s);
    ValueLast(0, s[..n], s[n]);
    assert s == s[..n] + [s[n]];
    if s[n - 1] == '_' {
      ValueLast(0, s[..n - 1], '_');
      assert s[..n] == s[..n - 1] + ['_'];
    }
  }

  lemma NumeralCut(s: string)
    requires |s| >= 2 && Digit(s[|s| - 1])
    ensures Numeral(s) <==> Numeral(Shorter(s))
  {
    var t := Shorter(s);
    if Numeral(s) {
      assert s[|s| - 2] == '_' ==> |t| > 0 && s[|t| - 1] != '_';
      forall i | 0 <= i < |t| ensures Digit(t[i]) || (t[i] == '_' && 0 < i < |t| - 1 && t[i + 1] != '_') {
        assert t[i] == s[i] && (i < |t| - 1 ==> t[i + 1] == s[i + 1]);
      }
    }
    if Numeral(t) {
      forall i | 0 <= i < |s| ensures Digit(s[i]) || (s[i] == '_' && 0 < i < |s| - 1 && s[i + 1] != '_') {
        assert i < |t| ==> s[i] == t[i];
        assert 0 <= i < |t| - 1 ==> s[i + 1] == t[i + 1];
      }
    }
  }

  lemma {:induction false} ParseNatIs(s: string)
    ensures ParseNat(s) == if Numeral(s) then Some(ValueFrom(0, s)) else None
  {
    if |s| >= 2 && Digit(s[|s| - 1]) {
      NumeralShorter(s);
      ParseNatIs(Shorter(s));
      hide Numeral, ValueFrom;
    } else if |s| == 1 && Digit(s[0]) {
      assert s[1..] == "";
    }
  }

  /** int() reads a numeral with an optional sign and blanks around it, and nothing else. */
  lemma ParseIntIs(text: string)
    ensures var s := Strip(SPACE, text);
            && (Numeral(s) ==> ParseInt(text) == Some(ValueFrom(0, s)))
            && (s != "" && s[0] == '+' && Numeral(s[1..]) ==> ParseInt(text) == Some(ValueFrom(0, s[1..])))
            && (s != "" && s[0] == '-' && Numeral(s[1..]) ==> ParseInt(text).Some? && ParseInt(text).value + ValueFrom(0, s[1..]) == 0)
            && (ParseInt(text).Some? ==> Numeral(s) || (s != "" && (s[0] == '+' || s[0] == '-') && Numeral(s[1..])))
  {
    var s := Strip(SPACE, text);
    assert Numeral(s) ==> s[0] != '+' && s[0] != '-';
    hide Strip, ParseNat, Numeral;
    ParseNatIs(s);
    if s != "" {
      ParseNatIs(s[1..]);
    }
  }

  /** s is this lower-case word, in either case. */
  predicate IsWord(s: string, word: string) {
    |s| == |word| && forall i :: 0 <= i < |s| ==> s[i] == word[i] || ('a' <= word[i] <= 'z' && s[i] as int + 32 == word[i] as int)
  }
}
