/** The open-prompt table of an LSC device (ferrodac/devices/lsc.py:958-1051): a ?ASK opens
    or re-announces a prompt, and the pop by a ?DONE or by the operator's answer claims it.
    Each step runs under `_prompt_lock`, so a run of the two threads is a sequence of steps. */
module PromptSpec {
  import opened Values
  import opened Text
  import opened AskCodec

  datatype Kind = Confirm | Choice | FreeText | Acknowledge

  function Lower(s: string): string {
    seq(|s|, i requires 0 <= i < |s| => if 'A' <= s[i] <= 'Z' then (s[i] as int + 32) as char else s[i])
  }

  /** An unknown kind degrades to an acknowledge. */
  function KindOf(slug: string): Kind {
    var k := Lower(Strip(SPACE, slug));
    if k == "confirm" then Confirm
    else if k == "choice" then Choice
    else if k == "text" then FreeText
    else Acknowledge
  }

  /** The three kinds by name, in either case and with blanks around; any other slug is an
      acknowledge. */
  lemma KindIs(slug: string)
    ensures var w := Strip(SPACE, slug);
            KindOf(slug) == if IsWord(w, "confirm") then Confirm
                            else if IsWord(w, "choice") then Choice
                            else if IsWord(w, "text") then FreeText
                            else Acknowledge
  {
    var w := Strip(SPACE, slug);
    LowerIs(w, "confirm");
    LowerIs(w, "choice");
    LowerIs(w, "text");
    hide IsWord, Lower, Strip;
  }

  lemma LowerIs(s: string, word: string)
    requires forall i :: 0 <= i < |word| ==> 'a' <= word[i] <= 'z'
    ensures Lower(s) == word <==> IsWord(s, word)
  {
    if IsWord(s, word) {
      assert forall i :: 0 <= i < |s| ==> Lower(s)[i] == word[i];
    }
    if Lower(s) == word {
      assert forall i :: 0 <= i < |s| ==> Lower(s)[i] == word[i];
    }
  }

  /** What an operator's answer can be. */
  datatype Answer = Truth(b: bool) | Number(n: int) | Words(s: string)

  predicate Truthy(a: Answer) {
    match a
    case Truth(b) => b
    case Number(n) => n != 0
    case Words(s) => s != ""
  }

  function IndexOf(s: string, options: seq<string>): (k: nat)
    requires s in options
    ensures k < |options| && options[k] == s && forall i :: 0 <= i < k ==> options[i] != s
  {
    if options[0] == s then 0 else IndexOf(s, options[1..]) + 1
  }

  function AnswerToIndex(a: Answer, options: seq<string>, kind: Kind): nat {
    match kind
    case Confirm => if Truthy(a) then 1 else 0
    case Choice =>
      if a.Words? && a.s in options then IndexOf(a.s, options)
      else if a.Number? && 0 <= a.n < (if |options| == 0 then 1 else |options|) then a.n
      else 0
    case FreeText => 0
    case Acknowledge => 0
  }

  /** RESPOND carries an index into the option list exactly when the list is long enough for
      the kind: a confirm answered yes needs two options, anything else one. A choice
      answered by one of its options carries that option, by a valid index that index. */
  lemma IndexMeans(a: Answer, options: seq<string>, kind: Kind)
    ensures AnswerToIndex(a, options, kind) < |options| <==> |options| >= if kind == Confirm && Truthy(a) then 2 else 1
    ensures kind == Choice && a.Words? && a.s in options ==> options[AnswerToIndex(a, options, kind)] == a.s
    ensures kind == Choice && a.Words? && NoRepeat(options) ==>
              forall k :: 0 <= k < |options| && options[k] == a.s ==> AnswerToIndex(a, options, kind) == k
    ensures kind == Choice && a.Number? && 0 <= a.n < |options| ==> AnswerToIndex(a, options, kind) == a.n
    ensures kind == Confirm ==> (AnswerToIndex(a, options, kind) != 0 <==> Truthy(a))
  {
  }

  /** The index of every answer: a confirm says no to False, zero and the empty string and
      yes to anything else; a choice is the first place of the option or the index given, if
      there is such a one; anything else is 0. */
  lemma AnswerIs(a: Answer, options: seq<string>, kind: Kind)
    ensures kind == Confirm ==> AnswerToIndex(a, options, kind) == if a in [Truth(false), Number(0), Words("")] then 0 else 1
    ensures kind == Choice && a.Words? ==>
              && (a.s !in options ==> AnswerToIndex(a, options, kind) == 0)
              && forall k :: 0 <= k < |options| && options[k] == a.s && (forall i :: 0 <= i < k ==> options[i] != a.s) ==>
                   AnswerToIndex(a, options, kind) == k
    ensures kind == Choice && a.Number? ==> AnswerToIndex(a, options, kind) == if 0 <= a.n < |options| then a.n else 0
    ensures (kind == Choice && a.Truth?) || kind == FreeText || kind == Acknowledge ==> AnswerToIndex(a, options, kind) == 0
  {
    if kind == Choice && a.Words? && a.s in options {
      forall k | 0 <= k < |options| && options[k] == a.s && (forall i :: 0 <= i < k ==> options[i] != a.s)
        ensures IndexOf(a.s, options) == k
      {
        assert options[IndexOf(a.s, options)] == a.s;
      }
    }
  }

  predicate NoRepeat(options: seq<string>) { forall i, j :: 0 <= i < j < |options| ==> options[i] != options[j] }

  // ----- the table and its history -----

  /** Prompt objects are numbered in the order they are made. */
  datatype Entry = Entry(prompt: nat, kind: Kind, options: seq<string>)

  /** A RESPOND sent: the firmware id, the option index, the prompt whose entry was popped,
      and the prompt the operator answered. */
  datatype Response = Response(fw: int, index: nat, claimed: nat, answered: nat)

  /** owner[p] is the firmware id prompt p was made for, and its callback is bound to. */
  datatype Desk = Desk(open: map<int, Entry>, owner: seq<int>, sent: seq<Response>, withdrawn: seq<nat>)

  const NO_PROMPTS := Desk(map[], [], [], [])

  function OnAsk(d: Desk, ask: Ask): Desk {
    if ask.id in d.open then d
    else d.(open := d.open[ask.id := Entry(|d.owner|, KindOf(ask.kind), ask.options)], owner := d.owner + [ask.id])
  }

  function OnDone(d: Desk, fw: int): Desk {
    if fw !in d.open then d
    else d.(open := d.open - {fw}, withdrawn := d.withdrawn + [d.open[fw].prompt])
  }

  /** The callback of prompt p. */
  function Respond(d: Desk, p: nat, a: Answer): Desk
    requires p < |d.owner|
  {
    var fw := d.owner[p];
    if fw !in d.open then d
    else
      var e := d.open[fw];
      d.(open := d.open - {fw}, sent := d.sent + [Response(fw, AnswerToIndex(a, e.options, e.kind), e.prompt, p)])
  }

  datatype Event = AskEvent(ask: Ask) | DoneEvent(fw: int) | AnswerEvent(prompt: nat, answer: Answer)

  /** A prompt that was never raised cannot be answered. */
  function Next(d: Desk, e: Event): Desk {
    match e
    case AskEvent(ask) => OnAsk(d, ask)
    case DoneEvent(fw) => OnDone(d, fw)
    case AnswerEvent(p, a) => if p < |d.owner| then Respond(d, p, a) else d
  }

  function Run(events: seq<Event>): Desk {
    if events == [] then NO_PROMPTS else Next(Run(events[..|events| - 1]), events[|events| - 1])
  }

  /** From the ask line to the wire: an ask under an id that is not open raises a new prompt,
      and its answer is sent under that id with the index that goes by the kind and the
      options on the line. */
  lemma LineToWire(d: Desk, ask: Ask, a: Answer)
    requires Sendable(ask) && ask.id !in d.open
    ensures ParsePrompt(FormatAsk(ask, |ask.options|)) == Some(Asked(Trimmed(ask)))
    ensures var p, w := |d.owner|, Strip(SPACE, ask.kind);
            var r := Respond(OnAsk(d, Trimmed(ask)), p, a);
            var index := AnswerToIndex(a, StripAll(ask.options), if IsWord(w, "confirm") then Confirm else if IsWord(w, "choice") then Choice else Acknowledge);
            r.open == d.open && r.owner == d.owner + [ask.id] && r.withdrawn == d.withdrawn
            && r.sent == d.sent + [Response(ask.id, index, p, p)]
  {
    AskRoundTrip(ask, |ask.options|);
    StripTwice(ask.kind);
    KindIs(Strip(SPACE, ask.kind));
    hide FormatAsk, ParsePrompt, Strip, StripAll, IsWord, KindOf, OnAsk, Respond;
    AnswerNew(d, Trimmed(ask), a);
  }

  lemma AnswerNew(d: Desk, ask: Ask, a: Answer)
    requires ask.id !in d.open
    ensures |OnAsk(d, ask).owner| == |d.owner| + 1
    ensures Respond(OnAsk(d, ask), |d.owner|, a) ==
              Desk(d.open, d.owner + [ask.id],
                   d.sent + [Response(ask.id, AnswerToIndex(a, ask.options, KindOf(ask.kind)), |d.owner|, |d.owner|)], d.withdrawn)
  {
    hide KindOf, AnswerToIndex;
    assert d.open[ask.id := Entry(|d.owner|, KindOf(ask.kind), ask.options)] - {ask.id} == d.open;
  }

  lemma StripTwice(s: string)
    ensures Strip(SPACE, Strip(SPACE, s)) == Strip(SPACE, s)
  {
    var t := Strip(SPACE, s);
    StripFacts(SPACE, s);
    StripFacts(SPACE, t);
    hide Strip;
    assert PaddedBy(SPACE, "", t, "", t);
    assert Padded(SPACE, t, t);
    StripUnique(SPACE, Strip(SPACE, t), t, t);
  }

  /** A done under an open id withdraws its prompt, sends nothing and leaves the other
      prompts open; under any other id it changes nothing. */
  lemma DoneDoes(d: Desk, fw: int)
    ensures var r := Next(d, DoneEvent(fw));
            && fw !in r.open && (forall k :: k != fw ==> (k in r.open <==> k in d.open) && (k in d.open ==> r.open[k] == d.open[k]))
            && r.owner == d.owner && r.sent == d.sent
            && r.withdrawn == d.withdrawn + (if fw in d.open then [d.open[fw].prompt] else [])
  {
  }

  // ----- each prompt has one fate -----

  function Claimed(sent: seq<Response>): seq<nat> { seq(|sent|, i requires 0 <= i < |sent| => sent[i].claimed) }

  predicate IsOpen(d: Desk, p: nat) { p < |d.owner| && d.owner[p] in d.open && d.open[d.owner[p]].prompt == p }

  function Fates(d: Desk, p: nat): nat {
    (if IsOpen(d, p) then 1 else 0) + multiset(Claimed(d.sent))[p] + multiset(d.withdrawn)[p]
  }

  ghost predicate Inv(d: Desk) {
    && (forall fw :: fw in d.open ==> d.open[fw].prompt < |d.owner| && d.owner[d.open[fw].prompt] == fw)
    && (forall p: nat :: Fates(d, p) == if p < |d.owner| then 1 else 0)
    && (forall i :: 0 <= i < |d.sent| ==> Addressed(d, d.sent[i]))
  }

  /** A RESPOND goes to the firmware id of the prompt it claims. */
  predicate Addressed(d: Desk, r: Response) {
    r.claimed < |d.owner| && r.answered < |d.owner| && d.owner[r.claimed] == r.fw && d.owner[r.answered] == r.fw
  }

  lemma NextInv(d: Desk, e: Event)
    requires Inv(d)
    ensures Inv(Next(d, e))
  {
    var r := Next(d, e);
    match e
    case AskEvent(ask) => AskKeeps(d, ask);
    case DoneEvent(fw) =>
      if fw in d.open {
        PopKeeps(d, r, fw);
      }
    case AnswerEvent(p, a) =>
      if p < |d.owner| && d.owner[p] in d.open {
        assert Claimed(r.sent) == Claimed(d.sent) + [d.open[d.owner[p]].prompt];
        PopKeeps(d, r, d.owner[p]);
      }
  }

  lemma AskKeeps(d: Desk, ask: Ask)
    requires Inv(d)
    ensures Inv(OnAsk(d, ask))
  {
    var r := OnAsk(d, ask);
    forall p: nat ensures Fates(r, p) == if p < |r.owner| then 1 else 0 {
      assert Fates(d, p) == if p < |d.owner| then 1 else 0;
    }
  }

  /** Popping an entry turns its prompt from open to claimed or withdrawn. */
  lemma PopKeeps(d: Desk, r: Desk, fw: int)
    requires Inv(d) && fw in d.open && r.open == d.open - {fw} && r.owner == d.owner
    requires var p := d.open[fw].prompt;
             || (r.sent == d.sent && r.withdrawn == d.withdrawn + [p])
             || (Claimed(r.sent) == Claimed(d.sent) + [p] && r.withdrawn == d.withdrawn)
    requires forall i :: 0 <= i < |r.sent| ==> Addressed(r, r.sent[i])
    ensures Inv(r)
  {
    forall q: nat ensures Fates(r, q) == if q < |r.owner| then 1 else 0 {
      assert Fates(d, q) == if q < |d.owner| then 1 else 0;
      assert IsOpen(r, q) <==> IsOpen(d, q) && q != d.open[fw].prompt;
    }
  }

  lemma {:induction false} RunInv(events: seq<Event>)
    ensures Inv(Run(events))
  {
    if events != [] {
      RunInv(events[..|events| - 1]);
      NextInv(Run(events[..|events| - 1]), events[|events| - 1]);
    }
  }

  /** Over any run of asks, dones and answers, a prompt is answered on the wire at most
      once, withdrawn at most once, never both, and neither while it is still open. */
  lemma ResolvedOnce(events: seq<Event>, p: nat)
    ensures var d := Run(events);
            (if IsOpen(d, p) then 1 else 0) + multiset(Claimed(d.sent))[p] + multiset(d.withdrawn)[p]
              == if p < |d.owner| then 1 else 0
  {
    RunInv(events);
    assert Fates(Run(events), p) == if p < |Run(events).owner| then 1 else 0;
  }

  /** An answer is sent for the answered prompt exactly when that prompt is still open. It
      is sent for another prompt exactly when the answered one is resolved and its
      firmware id has been asked again since: the callback knows the id only. */
  lemma AnswerReaches(d: Desk, p: nat, a: Answer)
    requires Inv(d) && p < |d.owner|
    ensures var r, fw := Respond(d, p, a), d.owner[p];
            && (r == d <==> fw !in d.open)
            && (IsOpen(d, p) <==> r != d && r.sent[|d.sent|].claimed == p)
            && (fw in d.open && !IsOpen(d, p) <==> r != d && r.sent[|d.sent|].claimed != p)
  {
    var r := Respond(d, p, a);
    if d.owner[p] in d.open {
      assert |r.sent| == |d.sent| + 1;
    }
  }

  predicate NoReuse(d: Desk) { forall i, j :: 0 <= i < |d.owner| && 0 <= j < |d.owner| && d.owner[i] == d.owner[j] ==> i == j }

  /** Where firmware ids are not used for two prompts, every RESPOND carries the answer to
      the prompt it resolves. */
  lemma NoReuseNoMixup(events: seq<Event>)
    requires NoReuse(Run(events))
    ensures forall r :: r in Run(events).sent ==> r.claimed == r.answered
  {
    RunInv(events);
    var d := Run(events);
    hide Run;
    forall r | r in d.sent ensures r.claimed == r.answered {
      var i :| 0 <= i < |d.sent| && d.sent[i] == r;
      assert Addressed(d, d.sent[i]);
    }
  }

  /** A late answer to a withdrawn prompt is sent as the answer to the next prompt that
      reuses its firmware id. */
  lemma LateAnswerMixup(first: Ask, second: Ask, a: Answer)
    requires first.id == second.id
    ensures var d := Run([AskEvent(first), DoneEvent(first.id), AskEvent(second), AnswerEvent(0, a)]);
            d.sent == [Response(first.id, AnswerToIndex(a, second.options, KindOf(second.kind)), 1, 0)] && d.withdrawn == [0]
  {
    hide KindOf, AnswerToIndex;
    var e := [AskEvent(first), DoneEvent(first.id), AskEvent(second), AnswerEvent(0, a)];
    assert e[..3][..2] == e[..2] && e[..2][..1] == e[..1] && e[..1][..0] == [];
    assert Run(e[..1]) == OnAsk(NO_PROMPTS, first);
    assert Run(e[..2]) == OnDone(OnAsk(NO_PROMPTS, first), first.id);
    assert Run(e[..3]) == OnAsk(OnDone(OnAsk(NO_PROMPTS, first), first.id), second);
  }

  /** Announcing an open prompt again (PROMPTS? after a reconnect) makes no second prompt,
      and the first announcement's options stay. */
  lemma ReannounceKeeps(events: seq<Event>, ask: Ask)
    requires ask.id in Run(events).open
    ensures Run(events + [AskEvent(ask)]) == Run(events)
  {
    assert (events + [AskEvent(ask)])[..|events|] == events;
  }
}

module PromptDesks {
  import opened PromptSpec
  import A = AskCodec

  class PromptDesk {
    var openPrompts: map<int, Entry>
    var minted: nat
    var wire: seq<(int, nat)>
    var withdrawn: seq<nat>
    ghost var owner: seq<int>
    ghost var sent: seq<Response>

    constructor ()
      ensures Valid() && State() == NO_PROMPTS
    {
      openPrompts, minted, wire, withdrawn, owner, sent := map[], 0, [], [], [], [];
    }

    ghost function State(): Desk
      reads this
    {
      Desk(openPrompts, owner, sent, withdrawn)
    }

    /** The RESPONDs on the wire are those of the history. */
    ghost predicate Valid()
      reads this
    {
      minted == |owner| && |wire| == |sent| && forall i :: 0 <= i < |sent| ==> wire[i] == (sent[i].fw, sent[i].index)
    }

    /** The prompt raised, new or announced again, goes to the app with a callback bound
        to the firmware id. */
    method OnAsk(ask: A.Ask) returns (prompt: nat)
      requires Valid()
      modifies this
      ensures Valid() && State() == PromptSpec.OnAsk(old(State()), ask)
      ensures ask.id in openPrompts && openPrompts[ask.id].prompt == prompt
    {
      if ask.id in openPrompts {
        return openPrompts[ask.id].prompt;
      }
      prompt := minted;
      openPrompts := openPrompts[ask.id := Entry(prompt, KindOf(ask.kind), ask.options)];
      minted := minted + 1;
      owner := owner + [ask.id];
    }

    method OnDone(done: A.Done)
      requires Valid()
      modifies this
      ensures Valid() && State() == PromptSpec.OnDone(old(State()), done.id)
    {
      if done.id in openPrompts {
        var entry := openPrompts[done.id];
        openPrompts := openPrompts - {done.id};
        withdrawn := withdrawn + [entry.prompt];
      }
    }

    /** The callback of prompt p, bound to firmware id fw. */
    method Respond(fw: int, answer: Answer, ghost p: nat)
      requires Valid() && p < |owner| && owner[p] == fw
      modifies this
      ensures Valid() && State() == PromptSpec.Respond(old(State()), p, answer)
    {
      if fw !in openPrompts {
        return;
      }
      var entry := openPrompts[fw];
      openPrompts := openPrompts - {fw};
      var index := AnswerToIndex(answer, entry.options, entry.kind);
      wire := wire + [(fw, index)];
      sent := sent + [Response(fw, index, entry.prompt, p)];
    }
  }
}
