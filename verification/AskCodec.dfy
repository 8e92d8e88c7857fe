/** The `?ASK` and `?DONE` prompt lines of the LSC protocol (ferrodac/devices/lsc.py). */
module AskCodec {
  import opened Values
  import opened Text

  datatype Ask = Ask(id: int, kind: string, severity: string, timeoutMs: int, options: seq<string>, question: string)

  datatype Done = Done(id: int, answer: string, via: string)

  datatype Message = Asked(ask: Ask) | Resolved(done: Done)

  function StripAll(fields: seq<string>): seq<string> {
    seq(|fields|, i requires 0 <= i < |fields| => Strip(SPACE, fields[i]))
  }

  function IntOr(text: string, other: int): int {
    var n := ParseInt(text);
    if n.None? then other else n.value
  }

  /** How many of `have` fields a declared option count takes. */
  function Taken(declared: int, have: nat): (n: nat)
    ensures n <= have
  {
    if declared <= 0 then 0 else if declared <= have then declared else have
  }

  function ParseAsk(rest: string): Option<Ask> {
    var fields := Split(rest);
    if |fields| < 6 then None
    else
      var id := ParseInt(fields[0]);
      if id.None? then None
      else
        var n := Taken(IntOr(fields[4], 0), |fields| - 5);
        Some(Ask(id.value, Strip(SPACE, fields[1]), Strip(SPACE, fields[2]), IntOr(fields[3], 0),
                 StripAll(fields[5..5 + n]), Strip(SPACE, Join(fields[5 + n..]))))
  }

  function ParseDone(rest: string): Option<Done> {
    var fields := Split(rest);
    var id := ParseInt(fields[0]);
    if id.None? then None
    else Some(Done(id.value, if |fields| > 1 then Strip(SPACE, fields[1]) else "",
                   if |fields| > 2 then Strip(SPACE, Join(fields[2..])) else ""))
  }

  function Upper(s: string): string {
    seq(|s|, i requires 0 <= i < |s| => if 'a' <= s[i] <= 'z' then (s[i] as int - 32) as char else s[i])
  }

  function ParsePrompt(raw: string): Option<Message>
    requires raw != ""
  {
    var fields := Split(raw[1..]);
    var rest := Join(fields[1..]);
    if Upper(fields[0]) == "ASK" then
      var a := ParseAsk(rest);
      if a.Some? then Some(Asked(a.value)) else None
    else if Upper(fields[0]) == "DONE" then
      var d := ParseDone(rest);
      if d.Some? then Some(Resolved(d.value)) else None
    else None
  }

  function Commas(s: string): nat { if s == "" then 0 else (if s[0] == ',' then 1 else 0) + Commas(s[1..]) }

  lemma {:induction false} SplitCount(s: string)
    ensures |Split(s)| == Commas(s) + 1
  {
    if s != "" {
      SplitCount(s[1..]);
    }
  }

  /** The text before the first comma. */
  function Lead(s: string): string { if s == "" || s[0] == ',' then "" else [s[0]] + Lead(s[1..]) }

  lemma {:induction false} SplitLead(s: string)
    ensures Split(s)[0] == Lead(s)
  {
    if s != "" {
      SplitLead(s[1..]);
    }
  }

  /** An ask is rejected exactly when it has fewer than five commas or no integer id; a bad
      timeout or option count is read as 0. */
  lemma AskAccepted(rest: string)
    ensures ParseAsk(rest).Some? <==> Commas(rest) >= 5 && ParseInt(Lead(rest)).Some?
    ensures ParseAsk(rest).Some? ==> Some(ParseAsk(rest).value.id) == ParseInt(Lead(rest))
    ensures ParseAsk(rest).Some? && ParseInt(Split(rest)[4]) == None ==> ParseAsk(rest).value.options == []
    ensures ParseAsk(rest).Some? && ParseInt(Split(rest)[3]) == None ==> ParseAsk(rest).value.timeoutMs == 0
  {
    assert StripAll([]) == [];
    hide ParseInt, Strip, StripAll, Split, Join;
    SplitCount(rest);
    SplitLead(rest);
    var fields := Split(rest);
    assert |fields| >= 6 ==> fields[5..5 + 0] == [];
  }

  /** Where an ask is cut: of the fields after the count as many are options as it says, all
      of them if it says more, none if it is negative or no integer; the rest, commas
      included, is the question. */
  lemma AskSplits(rest: string, i: nat)
    requires ParseAsk(rest).Some?
    ensures var f, a := Split(rest), ParseAsk(rest).value;
            && |f| >= 6 && a.kind == Strip(SPACE, f[1]) && a.severity == Strip(SPACE, f[2])
            && a.timeoutMs == (match ParseInt(f[3]) case Some(n) => n case None => 0)
            && |a.options| == (match ParseInt(f[4]) case Some(n) => if n < 0 then 0 else if n > |f| - 5 then |f| - 5 else n case None => 0)
            && (i < |a.options| ==> a.options[i] == Strip(SPACE, f[5 + i]))
            && a.question == Strip(SPACE, Join(f[5 + |a.options|..]))
  {
    hide ParseInt, Strip, Split, Join;
  }

  /** The text after the first comma. */
  function Behind(s: string): string { if s == "" then "" else if s[0] == ',' then s[1..] else Behind(s[1..]) }

  lemma {:induction false} SplitBehind(s: string)
    ensures Join(Split(s)[1..]) == Behind(s)
  {
    if s != "" {
      if s[0] == ',' {
        JoinSplit(s[1..]);
        assert ([""] + Split(s[1..]))[1..] == Split(s[1..]);
      } else {
        SplitBehind(s[1..]);
        var r := Split(s[1..]);
        assert ([[s[0]] + r[0]] + r[1..])[1..] == r[1..];
      }
    }
  }

  lemma Commands(s: string)
    ensures Upper(s) == "ASK" <==> IsWord(s, "ask")
    ensures Upper(s) == "DONE" <==> IsWord(s, "done")
  {
    var u := Upper(s);
    if |s| == 3 {
      assert u == "ASK" <==> u[0] == 'A' && u[1] == 'S' && u[2] == 'K';
    }
    if |s| == 4 {
      assert u == "DONE" <==> u[0] == 'D' && u[1] == 'O' && u[2] == 'N' && u[3] == 'E';
    }
  }

  /** A prompt line is what its first field says, in either case: an ask, a done, or
      nothing; the rest of the line is parsed accordingly. */
  lemma PromptIs(raw: string)
    requires raw != ""
    ensures var name, rest := Lead(raw[1..]), Behind(raw[1..]);
            ParsePrompt(raw) ==
              if IsWord(name, "ask") && ParseAsk(rest).Some? then Some(Asked(ParseAsk(rest).value))
              else if IsWord(name, "done") && ParseDone(rest).Some? then Some(Resolved(ParseDone(rest).value))
              else None
  {
    SplitLead(raw[1..]);
    SplitBehind(raw[1..]);
    Commands(Lead(raw[1..]));
    hide ParseAsk, ParseDone, Split, Join, Upper;
    assert IsWord(Lead(raw[1..]), "ask") ==> !IsWord(Lead(raw[1..]), "done");
  }

  /** A done line is rejected exactly when it has no integer id; fields it lacks are empty. */
  lemma DoneAccepted(rest: string)
    ensures ParseDone(rest).Some? <==> ParseInt(Lead(rest)).Some?
    ensures ParseDone(rest).Some? ==> Some(ParseDone(rest).value.id) == ParseInt(Lead(rest))
    ensures ParseDone(rest).Some? && Commas(rest) == 0 ==> ParseDone(rest).value.answer == "" && ParseDone(rest).value.via == ""
    ensures ParseDone(rest).Some? && Commas(rest) == 1 ==> ParseDone(rest).value.answer == Strip(SPACE, Behind(rest)) && ParseDone(rest).value.via == ""
  {
    SplitCount(rest);
    SplitLead(rest);
    SplitBehind(rest);
    hide ParseInt, Strip, Split;
  }

  // ----- the firmware's side -----

  /** An ask line as the protocol describes it, with the option count it declares. */
  function FormatAsk(a: Ask, declared: int): string {
    "?" + Join(["ASK", FormatInt(a.id), a.kind, a.severity, FormatInt(a.timeoutMs), FormatInt(declared)] + a.options + [a.question])
  }

  function FormatDone(d: Done): string { "?" + Join(["DONE", FormatInt(d.id), d.answer, d.via]) }

  /** No comma outside the question, which is the tail of the line. */
  predicate Sendable(a: Ask) { NoComma(a.kind) && NoComma(a.severity) && NoCommas(a.options) }

  /** What a receiver can recover: fields without their padding. */
  function Trimmed(a: Ask): Ask {
    a.(kind := Strip(SPACE, a.kind), severity := Strip(SPACE, a.severity),
       options := StripAll(a.options), question := Strip(SPACE, a.question))
  }

  lemma IntField(n: int)
    ensures ParseInt(FormatInt(n)) == Some(n) && NoComma(FormatInt(n))
  {
    ParseFormatInt(n, "", "");
    assert "" + FormatInt(n) + "" == FormatInt(n);
  }

  function Head(a: Ask, declared: int): seq<string> {
    [FormatInt(a.id), a.kind, a.severity, FormatInt(a.timeoutMs), FormatInt(declared)]
  }

  lemma SentFields(a: Ask, declared: int)
    requires Sendable(a)
    ensures var fields := Head(a, declared) + (a.options + Split(a.question));
            Split(FormatAsk(a, declared)[1..]) == ["ASK"] + fields && Split(Join(fields)) == fields
  {
    IntField(a.id);
    IntField(a.timeoutMs);
    IntField(declared);
    hide ParseInt, FormatInt, Split, Join;
    var head := Head(a, declared);
    var line := ["ASK"] + head + a.options;
    assert ["ASK", FormatInt(a.id), a.kind, a.severity, FormatInt(a.timeoutMs), FormatInt(declared)] + a.options + [a.question]
        == line + [a.question];
    SplitJoin(line, a.question);
    assert FormatAsk(a, declared)[1..] == Join(line + [a.question]);
    Rejoin(head + a.options, a.question);
    assert head + a.options + Split(a.question) == head + (a.options + Split(a.question));
    assert line + Split(a.question) == ["ASK"] + (head + (a.options + Split(a.question)));
  }

  /** What an ask line says when the fields after the count are these. */
  function AskOf(a: Ask, declared: int, tail: seq<string>): Ask {
    var n := Taken(declared, |tail|);
    Ask(a.id, Strip(SPACE, a.kind), Strip(SPACE, a.severity), a.timeoutMs, StripAll(tail[..n]), Strip(SPACE, Join(tail[n..])))
  }

  lemma ParseFields(rest: string, a: Ask, declared: int, tail: seq<string>)
    requires tail != [] && Split(rest) == Head(a, declared) + tail
    ensures ParseAsk(rest) == Some(AskOf(a, declared, tail))
  {
    IntField(a.id);
    IntField(a.timeoutMs);
    IntField(declared);
    hide ParseInt, FormatInt, Strip, Split, Join, StripAll;
    var fields, n := Split(rest), Taken(declared, |tail|);
    assert fields[5..5 + n] == tail[..n] && fields[5 + n..] == tail[n..];
  }

  /** Where the declared count cuts the option and question fields of the line. */
  lemma ParseSent(a: Ask, declared: int)
    requires Sendable(a)
    ensures ParsePrompt(FormatAsk(a, declared)) == Some(Asked(AskOf(a, declared, a.options + Split(a.question))))
  {
    hide ParseAsk, AskOf, Split, Join, FormatInt;
    var tail := a.options + Split(a.question);
    var fields := Head(a, declared) + tail;
    SentFields(a, declared);
    var sent := Split(FormatAsk(a, declared)[1..]);
    assert sent[1..] == fields && sent[0] == "ASK";
    assert Upper("ASK") == "ASK";
    ParseFields(Join(fields), a, declared, tail);
  }

  /** Splitting, joining and splitting again changes nothing. */
  lemma Rejoin(head: seq<string>, tail: string)
    requires NoCommas(head)
    ensures Split(Join(head + Split(tail))) == head + Split(tail)
  {
    var t := Split(tail);
    JoinSplit(tail);
    var n := |t| - 1;
    assert head + t == (head + t[..n]) + [t[n]];
    SplitJoin(head + t[..n], t[n]);
    SplitPlain(t[n]);
  }

  lemma {:induction false} SplitPlain(s: string)
    requires NoComma(s)
    ensures Split(s) == [s]
  {
    if s != "" {
      SplitPlain(s[1..]);
      assert [s[0]] + s[1..] == s;
    }
  }

  /** Commas in the question survive, whatever the fields hold: a well-formed ask line is
      read back up to padding exactly when it declares the number of options it sends. */
  lemma AskRoundTrip(a: Ask, declared: int)
    requires Sendable(a)
    ensures ParsePrompt(FormatAsk(a, declared)) == Some(Asked(Trimmed(a)))
            <==> declared == |a.options| || (declared < 0 && a.options == [])
  {
    hide FormatAsk, ParsePrompt, Strip;
    ParseSent(a, declared);
    var tail := a.options + Split(a.question);
    var n := Taken(declared, |tail|);
    JoinSplit(a.question);
    if n == |a.options| {
      assert tail[..n] == a.options && tail[n..] == Split(a.question);
    } else {
      assert |StripAll(tail[..n])| == n;
    }
  }

  lemma DoneRoundTrip(d: Done)
    requires NoComma(d.answer)
    ensures ParsePrompt(FormatDone(d)) == Some(Resolved(Done(d.id, Strip(SPACE, d.answer), Strip(SPACE, d.via))))
  {
    hide ParseInt, FormatInt, Strip;
    IntField(d.id);
    var line := ["DONE", FormatInt(d.id), d.answer];
    assert ["DONE", FormatInt(d.id), d.answer, d.via] == line + [d.via];
    SplitJoin(line, d.via);
    var raw := FormatDone(d);
    assert raw[1..] == Join(line + [d.via]);
    var rest := line[1..] + Split(d.via);
    assert Split(raw[1..])[1..] == rest && Split(raw[1..])[0] == "DONE";
    assert Upper("DONE") == "DONE" && Upper("DONE") != "ASK";
    Rejoin(line[1..], d.via);
    JoinSplit(d.via);
    assert rest[2..] == Split(d.via);
  }
}
