/** One worker lane of the bus (ferrodac/core/bus.py:52-127) as a protocol of atomic
    steps, and what every run of it keeps. */
module PumpSpec {
  import opened Values

  datatype Reading = Reading(key: string, value: Val)

  type Batch = seq<Reading>

  datatype Mode = Lossless | Conflate

  const CONFLATE_DEPTH: nat := 8
  const HIGH_WATER: nat := 100

  /** The fields of `_Pump`; `inflight` is the batch its thread has popped and is handing
      to the sink outside the lock, `exited` says the thread has returned. */
  datatype Pump = Pump(mode: Mode, conflateMax: int, q: seq<Batch>, stopping: bool, delivered: nat,
                       dropped: int, errors: nat, warned: bool, inflight: Option<Batch>, exited: bool)

  function Flatten(q: seq<Batch>): Batch {
    if q == [] then [] else q[0] + Flatten(q[1..])
  }

  /** Python's `s[-m:]`. For m = 0 that is the whole sequence. */
  function LastSlice(s: Batch, m: int): (r: Batch)
    ensures |r| <= |s| && r == s[|s| - |r|..]
  {
    if m > 0 then (if m >= |s| then s else s[|s| - m..])
    else if -m >= |s| then [] else s[-m..]
  }

  function Put(p: Pump, batch: Batch): Pump {
    if p.stopping then p else
      var q := p.q + [batch];
      if p.mode.Conflate? && |q| > CONFLATE_DEPTH then
        var merged := Flatten(q);
        if |merged| > p.conflateMax
        then p.(q := [LastSlice(merged, p.conflateMax)], dropped := p.dropped + (|merged| - p.conflateMax))
        else p.(q := [merged])
      else if p.mode.Lossless? && |q| > HIGH_WATER then p.(q := q, warned := true)
      else if p.warned && |q| < HIGH_WATER / 2 then p.(q := q, warned := false)
      else p.(q := q)
  }

  /** The locked part of `_run`. */
  function Pop(p: Pump): Pump
    requires p.q != []
  {
    p.(q := p.q[1..], inflight := Some(p.q[0]))
  }

  function SinkReturned(p: Pump, ok: bool): Pump
    requires p.inflight.Some?
  {
    if ok then p.(delivered := p.delivered + |p.inflight.value|, inflight := None)
    else p.(errors := p.errors + 1, inflight := None)
  }

  function Close(p: Pump, flush: bool): Pump {
    p.(q := if flush then p.q else [], stopping := true)
  }

  /** Readings delivered, and batches that raised, when the sink's k-th call returns as ok(k)
      says. */
  function Returned(q: seq<Batch>, ok: nat -> bool, k: nat): nat {
    if q == [] then 0 else (if ok(k) then |q[0]| else 0) + Returned(q[1..], ok, k + 1)
  }

  function Raised(q: seq<Batch>, ok: nat -> bool, k: nat): nat {
    if q == [] then 0 else (if ok(k) then 0 else 1) + Raised(q[1..], ok, k + 1)
  }

  lemma ExitStep(handed: Batch, q: seq<Batch>, ok: nat -> bool, k: nat)
    ensures Returned([], ok, k) == 0 && Raised([], ok, k) == 0
    ensures q != [] ==> handed + Flatten(q) == handed + q[0] + Flatten(q[1..])
    ensures q != [] ==> Returned(q, ok, k) == (if ok(k) then |q[0]| else 0) + Returned(q[1..], ok, k + 1)
    ensures q != [] ==> Raised(q, ok, k) == (if ok(k) then 0 else 1) + Raised(q[1..], ok, k + 1)
  {
  }

  // ----- runs -----

  datatype Event = PutBatch(batch: Batch) | Take | SinkOk | SinkError | Exit | CloseWith(flush: bool)

  /** A run keeps what was accepted, what was handed to the sink, how many readings went
      down with a sink error, and whether a non-flushing close threw the backlog away. */
  datatype Trace = Trace(p: Pump, accepted: Batch, handed: Batch, failed: nat, discarded: bool)

  predicate Enabled(t: Trace, e: Event) {
    match e
    case Take => t.p.q != [] && t.p.inflight.None? && !t.p.exited
    case SinkOk => t.p.inflight.Some?
    case SinkError => t.p.inflight.Some?
    case Exit => t.p.q == [] && t.p.stopping && t.p.inflight.None? && !t.p.exited
    case _ => true
  }

  function Next(t: Trace, e: Event): Trace
    requires Enabled(t, e)
  {
    match e
    case PutBatch(b) => t.(p := Put(t.p, b), accepted := if t.p.stopping then t.accepted else t.accepted + b)
    case Take => t.(p := Pop(t.p), handed := t.handed + t.p.q[0])
    case SinkOk => t.(p := SinkReturned(t.p, true))
    case SinkError => t.(p := SinkReturned(t.p, false), failed := t.failed + |t.p.inflight.value|)
    case Exit => t.(p := t.p.(exited := true))
    case CloseWith(flush) => t.(p := Close(t.p, flush), discarded := t.discarded || !flush)
  }

  predicate EnabledRun(t: Trace, es: seq<Event>)
    decreases |es|
  {
    es == [] || (Enabled(t, es[0]) && EnabledRun(Next(t, es[0]), es[1..]))
  }

  function Run(t: Trace, es: seq<Event>): Trace
    requires EnabledRun(t, es)
    decreases |es|
  {
    if es == [] then t else Run(Next(t, es[0]), es[1..])
  }

  function Start(mode: Mode, conflateMax: int): Trace {
    Trace(Pump(mode, conflateMax, [], false, 0, 0, 0, false, None, false), [], [], 0, false)
  }

  // ----- the invariant -----

  /** What the sink has had or will have, in order. */
  function Kept(t: Trace): Batch { t.handed + Flatten(t.p.q) }

  /** kept is all[idx[0]], all[idx[1]], ... in order. */
  predicate Picks(kept: Batch, all: Batch, idx: seq<nat>) {
    && |idx| == |kept|
    && (forall i, j :: 0 <= i < j < |idx| ==> idx[i] < idx[j])
    && forall i :: 0 <= i < |idx| ==> idx[i] < |all| && kept[i] == all[idx[i]]
  }

  /** An ordered selection of everything accepted that includes the newest reading. */
  ghost predicate Fresh(kept: Batch, all: Batch) {
    exists idx :: Picks(kept, all, idx) && (all != [] ==> idx != [] && idx[|idx| - 1] == |all| - 1)
  }

  predicate Usable(p: Pump) { p.mode.Lossless? || p.conflateMax >= 1 }

  ghost predicate Inv(t: Trace) {
    && Usable(t.p)
    && (t.p.exited ==> t.p.stopping && t.p.q == [] && t.p.inflight.None?)
    && (t.discarded ==> t.p.stopping)
    && |t.handed| == t.p.delivered + t.failed + (if t.p.inflight.Some? then |t.p.inflight.value| else 0)
    && (t.p.mode.Lossless? && !t.discarded ==> t.accepted == Kept(t))
    && (t.p.mode.Conflate? ==> |t.p.q| <= CONFLATE_DEPTH)
    && (t.p.mode.Conflate? && !t.discarded ==>
          Fresh(Kept(t), t.accepted) && |t.accepted| == |t.handed| + |Flatten(t.p.q)| + t.p.dropped)
  }

  lemma {:induction false} FlattenAppend(q: seq<Batch>, b: Batch)
    ensures Flatten(q + [b]) == Flatten(q) + b
  {
    if q == [] {
      assert ([] + [b])[1..] == [];
      assert Flatten([] + [b]) == b + Flatten([]);
    } else {
      FlattenAppend(q[1..], b);
      assert (q + [b])[1..] == q[1..] + [b];
    }
  }

  lemma FlattenOne(b: Batch)
    ensures Flatten([b]) == b
  {
    assert [b][1..] == [];
  }

  /** What a put does to the backlog: it appends, and a conflating put that runs past the
      depth keeps exactly the newest conflateMax readings and counts the others. */
  lemma PutBacklog(p: Pump, b: Batch)
    requires !p.stopping && Usable(p)
    ensures var all, left := Flatten(p.q) + b, Flatten(Put(p, b).q);
            && |left| <= |all| && left == all[|all| - |left|..]
            && Put(p, b).dropped == p.dropped + |all| - |left|
            && (p.mode.Lossless? || |p.q| < 8 ==> Put(p, b).q == p.q + [b] && left == all)
            && (p.mode.Conflate? && |p.q| >= 8 ==>
                  |Put(p, b).q| == 1 && |left| == if |all| > p.conflateMax then p.conflateMax else |all|)
  {
    var all := Flatten(p.q) + b;
    if p.mode.Conflate? && |p.q| >= 8 {
      PutMerges(p, b);
      FlattenOne(all);
      FlattenOne(LastSlice(all, p.conflateMax));
      hide Put, Flatten;
    } else {
      PutAppends(p, b);
      FlattenAppend(p.q, b);
      hide Put, Flatten;
      assert all == all[|all| - |all|..];
    }
  }

  lemma PutAppends(p: Pump, b: Batch)
    requires !p.stopping && (p.mode.Lossless? || |p.q| < 8)
    ensures Put(p, b).q == p.q + [b] && Put(p, b).dropped == p.dropped
  {
  }

  /** The rest of what a put does: nothing once the pump stops; otherwise only the queue, the
      drop count and the warning latch change. A lossless backlog of more than 100 batches
      sets the latch, and it is released when a put leaves fewer than 50 without merging. */
  lemma PutRest(p: Pump, b: Batch)
    ensures var r, n := Put(p, b), |p.q| + 1;
            && (p.stopping ==> r == p)
            && r.mode == p.mode && r.conflateMax == p.conflateMax && r.stopping == p.stopping && r.exited == p.exited
            && r.inflight == p.inflight && r.delivered == p.delivered && r.errors == p.errors
            && (p.mode.Lossless? ==> r.dropped == p.dropped)
            && (!p.stopping && p.mode.Lossless? ==> r.warned == (n > 100 || (p.warned && n >= 50)))
            && (!p.stopping && p.mode.Conflate? ==> r.warned == (p.warned && n > 8))
  {
  }

  /** The ninth batch of a conflating queue merges them all, whatever the cap: more readings
      than the cap are sliced to it, and as many as exceed it are counted as dropped. */
  lemma PutMerges(p: Pump, b: Batch)
    requires !p.stopping && p.mode.Conflate? && |p.q| >= 8
    ensures var all, r := Flatten(p.q) + b, Put(p, b);
            && r.q == [if |all| > p.conflateMax then LastSlice(all, p.conflateMax) else all]
            && r.dropped == p.dropped + (if |all| > p.conflateMax then |all| - p.conflateMax else 0)
  {
    FlattenAppend(p.q, b);
  }

  /** Python's slice keeps the last m entries; for m = 0 that is all of them, and below it
      drops the first -m. */
  lemma LastSliceIs(s: Batch, m: int)
    ensures LastSlice(s, m) ==
              if m == 0 then s
              else if m > 0 then s[if m < |s| then |s| - m else 0..]
              else s[if -m < |s| then -m else |s|..]
  {
  }

  /** A close stops the pump and, unless it flushes, throws the backlog away. */
  lemma CloseDoes(p: Pump, flush: bool)
    ensures var r := Close(p, flush);
            && r.stopping && (flush ==> r.q == p.q) && (!flush ==> r.q == [])
            && r.mode == p.mode && r.conflateMax == p.conflateMax && r.exited == p.exited && r.inflight == p.inflight
            && r.delivered == p.delivered && r.dropped == p.dropped && r.errors == p.errors && r.warned == p.warned
  {
  }

  /** The sink's return ends the delivery: its readings count as delivered, or the batch as
      one error. */
  lemma ReturnDoes(p: Pump, ok: bool)
    requires p.inflight.Some?
    ensures var r := SinkReturned(p, ok);
            && r.inflight.None? && r.q == p.q && r.stopping == p.stopping && r.exited == p.exited
            && r.mode == p.mode && r.conflateMax == p.conflateMax && r.dropped == p.dropped && r.warned == p.warned
            && r.delivered == p.delivered + (if ok then |p.inflight.value| else 0)
            && r.errors == p.errors + (if ok then 0 else 1)
  {
  }

  lemma PicksAppend(kept: Batch, all: Batch, b: Batch, idx: seq<nat>) returns (idx': seq<nat>)
    requires Picks(kept, all, idx)
    ensures Picks(kept + b, all + b, idx')
    ensures b == [] ==> idx' == idx
    ensures b != [] ==> idx' != [] && idx'[|idx'| - 1] == |all + b| - 1
  {
    idx' := idx + seq(|b|, i requires 0 <= i < |b| => |all| + i);
  }

  /** Removing readings in the middle keeps an ordered selection. */
  lemma PicksDrop(head: Batch, tail: Batch, all: Batch, cut: nat, idx: seq<nat>) returns (idx': seq<nat>)
    requires cut <= |tail| && Picks(head + tail, all, idx)
    ensures Picks(head + tail[cut..], all, idx')
    ensures cut < |tail| ==> idx' != [] && idx'[|idx'| - 1] == idx[|idx| - 1]
    ensures cut == 0 ==> idx' == idx
  {
    idx' := idx[..|head|] + idx[|head| + cut..];
    var kept, kept' := head + tail, head + tail[cut..];
    forall i | 0 <= i < |idx'| ensures idx'[i] < |all| && kept'[i] == all[idx'[i]] {
      if i >= |head| {
        assert idx'[i] == idx[i + cut] && kept'[i] == kept[i + cut];
      }
    }
  }

  /** Appending a batch and then dropping the oldest part of the backlog. */
  lemma FreshPut(handed: Batch, backlog: Batch, accepted: Batch, b: Batch, cut: nat)
    requires Fresh(handed + backlog, accepted)
    requires cut == 0 || cut < |backlog + b|
    ensures Fresh(handed + (backlog + b)[cut..], accepted + b)
  {
    hide Picks;
    var kept := handed + backlog;
    var idx :| Picks(kept, accepted, idx) && (accepted != [] ==> idx != [] && idx[|idx| - 1] == |accepted| - 1);
    var mid := PicksAppend(kept, accepted, b, idx);
    assert kept + b == handed + (backlog + b);
    var idx' := PicksDrop(handed, backlog + b, accepted + b, cut, mid);
    assert b == [] ==> accepted + b == accepted;
  }

  lemma PutInv(t: Trace, b: Batch)
    requires Inv(t)
    ensures Inv(Next(t, PutBatch(b)))
  {
    hide Picks, Fresh, Flatten;
    if t.p.stopping {
      assert Put(t.p, b) == t.p;
    } else {
      hide Put;
      PutConfig(t.p, b);
      if t.p.mode.Conflate? {
        ConflatedPut(t, b);
      } else {
        LosslessPut(t, b);
      }
    }
  }

  lemma LosslessPut(t: Trace, b: Batch)
    requires !t.p.stopping && t.p.mode.Lossless?
    ensures t.handed + Flatten(Put(t.p, b).q) == t.handed + Flatten(t.p.q) + b
  {
    PutBacklog(t.p, b);
  }

  lemma ConflatedPut(t: Trace, b: Batch)
    requires Usable(t.p) && !t.p.stopping && t.p.mode.Conflate?
    ensures |Flatten(Put(t.p, b).q)| + Put(t.p, b).dropped == |Flatten(t.p.q)| + |b| + t.p.dropped
    ensures Fresh(t.handed + Flatten(t.p.q), t.accepted) ==> Fresh(t.handed + Flatten(Put(t.p, b).q), t.accepted + b)
  {
    hide Picks, Fresh, Put, LastSlice;
    PutBacklog(t.p, b);
    var all, left := Flatten(t.p.q) + b, Flatten(Put(t.p, b).q);
    hide Flatten;
    if Fresh(t.handed + Flatten(t.p.q), t.accepted) {
      FreshPut(t.handed, Flatten(t.p.q), t.accepted, b, |all| - |left|);
    }
  }

  lemma PutConfig(p: Pump, b: Batch)
    ensures var p' := Put(p, b);
            && p'.mode == p.mode && p'.conflateMax == p.conflateMax && p'.stopping == p.stopping && p'.exited == p.exited
            && p'.inflight == p.inflight && p'.delivered == p.delivered && p'.errors == p.errors
    ensures p.mode.Conflate? && |p.q| <= CONFLATE_DEPTH ==> |Put(p, b).q| <= CONFLATE_DEPTH
  {
  }

  lemma NextInv(t: Trace, e: Event)
    requires Inv(t) && Enabled(t, e)
    ensures Inv(Next(t, e))
  {
    hide Picks, Fresh, Put;
    match e {
      case PutBatch(b) =>
        PutInv(t, b);
      case Take =>
        assert t.handed + Flatten(t.p.q) == (t.handed + t.p.q[0]) + Flatten(t.p.q[1..]);
      case CloseWith(flush) =>
      case _ =>
    }
  }

  lemma {:induction false} RunInv(t: Trace, es: seq<Event>)
    requires Inv(t) && EnabledRun(t, es)
    ensures Inv(Run(t, es))
    decreases |es|
  {
    if es != [] {
      NextInv(t, es[0]);
      RunInv(Next(t, es[0]), es[1..]);
    }
  }

  lemma StartInv(mode: Mode, conflateMax: int)
    requires mode.Lossless? || conflateMax >= 1
    ensures Inv(Start(mode, conflateMax))
  {
    assert Picks([], [], []);
  }

  /** The configuration never changes. */
  lemma {:induction false} RunKeepsMode(t: Trace, es: seq<Event>)
    requires EnabledRun(t, es)
    ensures Run(t, es).p.mode == t.p.mode && Run(t, es).p.conflateMax == t.p.conflateMax
    decreases |es|
  {
    if es != [] {
      RunKeepsMode(Next(t, es[0]), es[1..]);
    }
  }

  /** Lossless: in every state reachable without a discarding close, accepted is exactly
      handed followed by the backlog; once the thread has exited, everything accepted has
      been handed to the sink. */
  lemma LosslessDelivers(conflateMax: int, es: seq<Event>)
    requires EnabledRun(Start(Lossless, conflateMax), es)
    ensures var t := Run(Start(Lossless, conflateMax), es);
            && (!t.discarded ==> t.accepted == t.handed + Flatten(t.p.q))
            && (!t.discarded && t.p.exited ==> t.handed == t.accepted && t.p.delivered + t.failed == |t.accepted|)
  {
    StartInv(Lossless, conflateMax);
    RunInv(Start(Lossless, conflateMax), es);
    RunKeepsMode(Start(Lossless, conflateMax), es);
  }

  /** Conflating with room for at least one reading: an ordered selection with the newest
      reading, exact accounting, and a bounded queue. */
  lemma ConflateKeepsNewest(conflateMax: int, es: seq<Event>)
    requires conflateMax >= 1 && EnabledRun(Start(Conflate, conflateMax), es)
    ensures var t := Run(Start(Conflate, conflateMax), es);
            && |t.p.q| <= 8
            && (!t.discarded ==>
                  && Fresh(t.handed + Flatten(t.p.q), t.accepted)
                  && |t.accepted| == |t.handed| + |Flatten(t.p.q)| + t.p.dropped)
  {
    StartInv(Conflate, conflateMax);
    RunInv(Start(Conflate, conflateMax), es);
    RunKeepsMode(Start(Conflate, conflateMax), es);
  }

  // ----- the accounting needs conflateMax >= 1 -----

  ghost predicate Accounts(t: Trace) {
    |t.accepted| == |t.handed| + |Flatten(t.p.q)| + t.p.dropped
  }

  function Puts(r: Reading, k: nat): seq<Event> {
    if k == 0 then [] else [PutBatch([r])] + Puts(r, k - 1)
  }

  /** k puts of one reading each on a conflating pump that has room for them. */
  lemma {:induction false} PutsRun(t: Trace, r: Reading, k: nat)
    requires t.p.mode.Conflate? && !t.p.stopping && !t.p.warned && |t.p.q| + k <= CONFLATE_DEPTH
    ensures EnabledRun(t, Puts(r, k))
    ensures var t' := Run(t, Puts(r, k));
            && t'.p.mode.Conflate? && t'.p.conflateMax == t.p.conflateMax && !t'.p.stopping
            && |t'.p.q| == |t.p.q| + k && |Flatten(t'.p.q)| == |Flatten(t.p.q)| + k
            && t'.p.dropped == t.p.dropped && t'.handed == t.handed && |t'.accepted| == |t.accepted| + k
    decreases k
  {
    if k > 0 {
      var e := PutBatch([r]);
      FlattenAppend(t.p.q, [r]);
      assert Puts(r, k)[0] == e && Puts(r, k)[1..] == Puts(r, k - 1);
      PutsRun(Next(t, e), r, k - 1);
    }
  }

  /** The ninth put merges; with a cap below one the count of dropped readings is wrong. */
  lemma NinthPut(conflateMax: int, r: Reading) returns (es: seq<Event>)
    requires conflateMax < 1
    ensures EnabledRun(Start(Conflate, conflateMax), es)
    ensures !Accounts(Run(Start(Conflate, conflateMax), es)) && !Run(Start(Conflate, conflateMax), es).discarded
  {
    var s := Start(Conflate, conflateMax);
    PutsRun(s, r, 8);
    RunThen(s, Puts(r, 8), PutBatch([r]));
    es := Puts(r, 8) + [PutBatch([r])];
    var t := Run(s, Puts(r, 8));
    FlattenAppend(t.p.q, [r]);
    FlattenOne(LastSlice(Flatten(t.p.q + [[r]]), conflateMax));
    DiscardOnlyByClose(s, r, 8);
  }

  lemma {:induction false} RunThen(t: Trace, es: seq<Event>, e: Event)
    requires EnabledRun(t, es) && Enabled(Run(t, es), e)
    ensures EnabledRun(t, es + [e]) && Run(t, es + [e]) == Next(Run(t, es), e)
    decreases |es|
  {
    if es == [] {
      assert [] + [e] == [e] && [e][1..] == [];
      assert EnabledRun(Next(t, e), []);
    } else {
      RunThen(Next(t, es[0]), es[1..], e);
      assert (es + [e])[0] == es[0] && (es + [e])[1..] == es[1..] + [e];
    }
  }

  lemma {:induction false} DiscardOnlyByClose(t: Trace, r: Reading, k: nat)
    requires EnabledRun(t, Puts(r, k))
    ensures Run(t, Puts(r, k)).discarded == t.discarded
    decreases k
  {
    if k > 0 {
      assert Puts(r, k)[0] == PutBatch([r]) && Puts(r, k)[1..] == Puts(r, k - 1);
      DiscardOnlyByClose(Next(t, PutBatch([r])), r, k - 1);
    }
  }

  /** |accepted| = |handed| + |queued| + dropped on every run until a discarding close,
      exactly when the cap is at least one. */
  lemma AccountingIffCap(conflateMax: int, r: Reading)
    ensures conflateMax >= 1 <==>
            forall es :: EnabledRun(Start(Conflate, conflateMax), es) ==>
              var t := Run(Start(Conflate, conflateMax), es); t.discarded || Accounts(t)
  {
    if conflateMax >= 1 {
      forall es | EnabledRun(Start(Conflate, conflateMax), es)
        ensures var t := Run(Start(Conflate, conflateMax), es); t.discarded || Accounts(t)
      {
        ConflateKeepsNewest(conflateMax, es);
      }
    } else {
      var es := NinthPut(conflateMax, r);
    }
  }

  // ----- closing terminates -----

  /** Steps the worker thread still has to take once the pump is stopping. */
  function Work(p: Pump): nat {
    2 * |p.q| + (if p.inflight.Some? then 1 else 0) + (if p.exited then 0 else 1)
  }

  predicate IsWorker(e: Event) { e.Take? || e.SinkOk? || e.SinkError? || e.Exit? }

  /** After a close the thread is never stuck, and every step it or a late put takes leads
      towards its exit; so it exits after at most Work(p) steps of its own. */
  lemma CloseTerminates(t: Trace, e: Event)
    requires t.p.stopping
    ensures t.p.exited || Enabled(t, Take) || Enabled(t, SinkOk) || Enabled(t, Exit)
    ensures Enabled(t, e) && IsWorker(e) ==> Work(Next(t, e).p) < Work(t.p)
    ensures Enabled(t, e) && !IsWorker(e) ==> Work(Next(t, e).p) <= Work(t.p) && Next(t, e).accepted == t.accepted
    ensures Enabled(t, e) ==> Next(t, e).p.stopping
  {
  }
}
