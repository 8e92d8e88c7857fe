/** The LSC's background reader (ferrodac/devices/lsc.py): it stitches lines together and
    routes each, by its first character, to its own channel. */
module LscReader {
  import opened Values
  import opened Framing
  import A = AskCodec

  function Tag(c: char, line: string): seq<string> { if line != "" && line[0] == c then [line] else [] }

  function Payload(line: string): seq<string> { if line != "" then [line[1..]] else [] }

  function Message(line: string): seq<A.Message> {
    if line == "" || A.ParsePrompt(line).None? then [] else [A.ParsePrompt(line).value]
  }

  /** The lines that start with this character, in order. */
  function Tagged(c: char, lines: seq<string>): seq<string> {
    if lines == [] then [] else Tag(c, lines[0]) + Tagged(c, lines[1..])
  }

  function Payloads(lines: seq<string>): seq<string> {
    if lines == [] then [] else Payload(lines[0]) + Payloads(lines[1..])
  }

  function Messages(lines: seq<string>): seq<A.Message> {
    if lines == [] then [] else Message(lines[0]) + Messages(lines[1..])
  }

  /** Everything that was handed to a channel so far. */
  datatype Channels = Channels(replies: seq<string>, frames: seq<string>, events: seq<string>, prompts: seq<A.Message>)

  /** The channels after these lines: replies without their '=', frames and events as raw
      lines, prompts parsed; a malformed prompt and any other line go nowhere. */
  function After(ch: Channels, lines: seq<string>): Channels {
    Channels(ch.replies + Payloads(Tagged('=', lines)), ch.frames + Tagged('#', lines),
             ch.events + Tagged('!', lines), ch.prompts + Messages(Tagged('?', lines)))
  }

  lemma {:induction false} TaggedPlus(c: char, p: seq<string>, q: seq<string>)
    ensures Tagged(c, p + q) == Tagged(c, p) + Tagged(c, q)
  {
    hide Tag;
    if p == [] {
      assert p + q == q;
    } else {
      TaggedPlus(c, p[1..], q);
      assert (p + q)[1..] == p[1..] + q;
      Assoc(Tag(c, p[0]), Tagged(c, p[1..]), Tagged(c, q));
    }
  }

  /** How often a line is on a channel, skipped, and in the stream. */
  function Times(x: string, lines: seq<string>): nat { multiset(lines)[x] }

  /** Every non-blank line goes to one of the four channels or is skipped, exactly once. */
  lemma {:induction false} RoutedOnce(lines: seq<string>, x: string)
    requires "" !in lines
    ensures Times(x, Tagged('=', lines)) + Times(x, Tagged('#', lines)) + Times(x, Tagged('!', lines))
            + Times(x, Tagged('?', lines)) + Times(x, Unknown(lines)) == Times(x, lines)
  {
    if lines != [] {
      var l, rest := lines[0], lines[1..];
      assert lines == [l] + rest && l in lines;
      RoutedOnce(rest, x);
      hide Tagged, Unknown, Times;
      TaggedHead('=', l, rest, x);
      TaggedHead('#', l, rest, x);
      TaggedHead('!', l, rest, x);
      TaggedHead('?', l, rest, x);
      UnknownHead(l, rest, x);
    }
  }

  lemma TaggedHead(c: char, l: string, rest: seq<string>, x: string)
    requires l != ""
    ensures Times(x, Tagged(c, [l] + rest)) == (if l[0] == c && x == l then 1 else 0) + Times(x, Tagged(c, rest))
  {
    assert ([l] + rest)[1..] == rest;
  }

  lemma UnknownHead(l: string, rest: seq<string>, x: string)
    requires l != ""
    ensures Times(x, Unknown([l] + rest)) == (if l[0] !in "=#!?" && x == l then 1 else 0) + Times(x, Unknown(rest))
    ensures Times(x, [l] + rest) == (if x == l then 1 else 0) + Times(x, rest)
  {
    assert ([l] + rest)[1..] == rest;
  }

  /** Nothing is on a channel that is not a line of its kind. */
  lemma {:induction false} TaggedOnly(c: char, lines: seq<string>)
    ensures forall s :: s in Tagged(c, lines) <==> s in lines && s != "" && s[0] == c
  {
    if lines != [] {
      TaggedOnly(c, lines[1..]);
      assert forall s :: s in lines <==> s == lines[0] || s in lines[1..];
    }
  }

  function Unknown(lines: seq<string>): seq<string> {
    if lines == [] then []
    else (if lines[0] != "" && lines[0][0] in "=#!?" then [] else [lines[0]]) + Unknown(lines[1..])
  }

  lemma {:induction false} TextsNonEmpty(ls: seq<Bytes>)
    ensures "" !in Texts(ls)
  {
    hide TextOf;
    if ls != [] {
      TextsNonEmpty(ls[1..]);
      NoEmptyText(ls[0]);
    }
  }

  lemma NoEmptyText(l: Bytes)
    ensures TextOf(l) != Some("")
  {
  }

  lemma AfterOne(ch: Channels, line: string, lines: seq<string>)
    ensures After(After(ch, [line]), lines) == After(ch, [line] + lines)
  {
    hide Tagged, Payloads, Messages;
    TaggedPlus('=', [line], lines);
    TaggedPlus('#', [line], lines);
    TaggedPlus('!', [line], lines);
    TaggedPlus('?', [line], lines);
    PlusPayloads(Tagged('=', [line]), Tagged('=', lines));
    PlusMessages(Tagged('?', [line]), Tagged('?', lines));
    Assoc(ch.replies, Payloads(Tagged('=', [line])), Payloads(Tagged('=', lines)));
    Assoc(ch.frames, Tagged('#', [line]), Tagged('#', lines));
    Assoc(ch.events, Tagged('!', [line]), Tagged('!', lines));
    Assoc(ch.prompts, Messages(Tagged('?', [line])), Messages(Tagged('?', lines)));
  }

  lemma AfterNone(ch: Channels)
    ensures After(ch, []) == ch
  {
  }

  /** One routed line lands on the channel of its first character only. */
  lemma RouteOne(ch: Channels, raw: string)
    requires raw != ""
    ensures var r := After(ch, [raw]);
            && r.replies == (if raw[0] == '=' then ch.replies + [raw[1..]] else ch.replies)
            && r.frames == (if raw[0] == '#' then ch.frames + [raw] else ch.frames)
            && r.events == (if raw[0] == '!' then ch.events + [raw] else ch.events)
            && r.prompts == (if raw[0] == '?' && A.ParsePrompt(raw).Some? then ch.prompts + [A.ParsePrompt(raw).value] else ch.prompts)
  {
    hide A.ParsePrompt, Tagged;
    TagOne('=', raw);
    TagOne('#', raw);
    TagOne('!', raw);
    TagOne('?', raw);
    ItemOne(raw);
  }

  lemma ItemOne(raw: string)
    ensures Payloads([raw]) == Payload(raw) && Messages([raw]) == Message(raw)
  {
    hide Payload, Message;
    assert [raw][1..] == [];
  }

  lemma TagOne(c: char, raw: string)
    requires raw != ""
    ensures Tagged(c, [raw]) == if raw[0] == c then [raw] else []
  {
    assert [raw][1..] == [];
  }

  lemma {:induction false} PlusPayloads(p: seq<string>, q: seq<string>)
    ensures Payloads(p + q) == Payloads(p) + Payloads(q)
  {
    hide Payload;
    if p == [] {
      assert p + q == q;
    } else {
      PlusPayloads(p[1..], q);
      assert (p + q)[1..] == p[1..] + q;
      Assoc(Payload(p[0]), Payloads(p[1..]), Payloads(q));
    }
  }

  lemma {:induction false} PlusMessages(p: seq<string>, q: seq<string>)
    ensures Messages(p + q) == Messages(p) + Messages(q)
  {
    hide Message;
    if p == [] {
      assert p + q == q;
    } else {
      PlusMessages(p[1..], q);
      assert (p + q)[1..] == p[1..] + q;
      Assoc(Message(p[0]), Messages(p[1..]), Messages(q));
    }
  }

  class Reader {
    var rxPartial: Bytes
    var replies: seq<string>
    var frames: seq<string>
    var events: seq<string>
    var prompts: seq<A.Message>

    constructor ()
      ensures rxPartial == [] && Sent() == Channels([], [], [], [])
    {
      rxPartial, replies, frames, events, prompts := [], [], [], [], [];
    }

    function Sent(): Channels
      reads this`replies, this`frames, this`events, this`prompts
    {
      Channels(replies, frames, events, prompts)
    }

    /** One `read_until` result. */
    method ReadLine(data: Bytes) returns (line: Option<string>)
      modifies this`rxPartial
      ensures (line, rxPartial) == Framing.ReadLine(old(rxPartial), data)
    {
      if data == [] {
        return None;
      }
      if data[|data| - 1] != LF {
        rxPartial := rxPartial + data;
        return None;
      }
      var whole := rxPartial + data;
      rxPartial := [];
      line := TextOf(whole);
    }

    method Route(raw: string)
      requires raw != ""
      modifies this`replies, this`frames, this`events, this`prompts
      ensures Sent() == After(old(Sent()), [raw])
    {
      hide A.ParsePrompt, After;
      RouteOne(Sent(), raw);
      var c := raw[0];
      if c == '=' {
        replies := replies + [raw[1..]];
      } else if c == '#' {
        frames := frames + [raw];
      } else if c == '!' {
        events := events + [raw];
      } else if c == '?' {
        var msg := A.ParsePrompt(raw);
        if msg.Some? {
          prompts := prompts + [msg.value];
        }
      }
    }

    /** The reader thread over a run of reads: whatever way the bytes were cut, the
        channels receive exactly the non-blank lines of the stream, each on its own, and
        the unterminated rest stays stashed. */
    method Run(cuts: seq<Bytes>)
      requires AreReads(cuts) && Unterminated(rxPartial)
      modifies this
      ensures Sent() == After(old(Sent()), Texts(Lines(old(rxPartial) + Flatten(cuts))))
      ensures rxPartial == Tail(old(rxPartial) + Flatten(cuts)) && Unterminated(rxPartial)
    {
      hide *;
      FramingIndependent(rxPartial, cuts);
      LinesExact(rxPartial + Flatten(cuts));
      AfterNone(Sent());
      assert cuts[0..] == cuts;
      for i := 0 to |cuts|
        invariant After(Sent(), Emitted(rxPartial, cuts[i..]).0) == After(old(Sent()), Emitted(old(rxPartial), cuts).0)
        invariant Emitted(rxPartial, cuts[i..]).1 == Emitted(old(rxPartial), cuts).1
      {
        EmittedStep(rxPartial, cuts, i);
        var raw := ReadLine(cuts[i]);
        if raw.Some? {
          ghost var rest := Emitted(rxPartial, cuts[i + 1..]).0;
          AfterOne(Sent(), raw.value, rest);
          Route(raw.value);
        }
      }
      EmittedNone(rxPartial, cuts);
      AfterNone(Sent());
    }
  }

  lemma EmittedStep(stash: Bytes, cuts: seq<Bytes>, i: nat)
    requires i < |cuts|
    ensures var (line, kept) := Framing.ReadLine(stash, cuts[i]);
            var (rest, end) := Emitted(kept, cuts[i + 1..]);
            Emitted(stash, cuts[i..]) == (if line.Some? then [line.value] + rest else rest, end) && line != Some("")
  {
    hide TextOf;
    assert cuts[i..][1..] == cuts[i + 1..];
    NoEmptyText(stash + cuts[i]);
  }

  lemma EmittedNone(stash: Bytes, cuts: seq<Bytes>)
    ensures Emitted(stash, cuts[|cuts|..]) == ([], stash)
  {
  }
}
