/** The bus (ferrodac/core/bus.py:166-252) as a system of atomic steps: producers publish
    while one thread drains, workers pop their own queues, subscriptions come and go. */
module BusSpec {
  import opened Values
  import opened PumpSpec

  /** A sink: a worker lane with its pump, or an inline one with what it has been called with.
      `since` is the position in the published stream where it starts. */
  datatype Lane = Worker(t: Trace) | Inline(got: Batch)

  datatype Sub = Sub(lane: Lane, since: nat)

  /** Where the draining thread is: outside, popping into a batch, or handing the batch to
      the sinks of its snapshot one by one. */
  datatype Phase = Idle | Filling(batch: Batch, cap: Option<nat>) | Fanout(batch: Batch, todo: seq<nat>)

  /** `subs` holds every subscription ever made, `active` the indices still registered. */
  datatype Sys = Sys(published: Batch, inbox: Batch, latest: map<string, Reading>, subs: seq<Sub>, active: seq<nat>, phase: Phase)

  datatype Step =
    | Publish(r: Reading)
    | SubscribeWorker(mode: Mode, conflateMax: int)
    | SubscribeInline
    | Remove(i: nat)
    | StopPump(i: nat, flush: bool)
    | DrainStart(cap: Option<nat>)
    | DrainPop
    | DrainSnapshot
    | DrainDeliver
    | PumpStep(i: nat, e: Event)

  predicate MayPop(s: Sys) {
    s.phase.Filling? && s.inbox != [] && (s.phase.cap.None? || |s.phase.batch| < s.phase.cap.value)
  }

  predicate Able(s: Sys, st: Step) {
    match st
    case Publish(_) => true
    case SubscribeWorker(_, _) => true
    case SubscribeInline => true
    case Remove(_) => true
    case StopPump(i, _) => i < |s.subs| && i !in s.active && s.subs[i].lane.Worker?
    case DrainStart(_) => s.phase.Idle? && s.inbox != []
    case DrainPop => MayPop(s)
    case DrainSnapshot => s.phase.Filling? && !MayPop(s)
    case DrainDeliver => s.phase.Fanout?
    case PumpStep(i, e) => i < |s.subs| && s.subs[i].lane.Worker? && IsWorker(e) && Enabled(s.subs[i].lane.t, e)
  }

  function Without(a: seq<nat>, i: nat): seq<nat> {
    if a == [] then [] else (if a[0] == i then [] else [a[0]]) + Without(a[1..], i)
  }

  lemma {:induction false} WithoutFacts(a: seq<nat>, i: nat)
    ensures forall x :: x in Without(a, i) <==> x in a && x != i
    ensures Distinct(a) ==> Distinct(Without(a, i))
  {
    if a != [] {
      WithoutFacts(a[1..], i);
      assert a == [a[0]] + a[1..];
      if Distinct(a) {
        assert Distinct(a[1..]) && a[0] !in a[1..];
      }
    }
  }

  predicate Distinct(a: seq<nat>) { forall i, j :: 0 <= i < j < |a| ==> a[i] != a[j] }

  /** `latest` after a batch: per key the last reading. */
  function Newest(m: map<string, Reading>, b: Batch): map<string, Reading>
    decreases |b|
  {
    if b == [] then m else Newest(m[b[0].key := b[0]], b[1..])
  }

  lemma {:induction false} NewestConcat(m: map<string, Reading>, a: Batch, b: Batch)
    ensures Newest(m, a + b) == Newest(Newest(m, a), b)
    decreases |a|
  {
    if a == [] {
      assert a + b == b;
    } else {
      NewestConcat(m[a[0].key := a[0]], a[1..], b);
      assert (a + b)[1..] == a[1..] + b;
    }
  }

  /** ... that is, every key maps to its newest reading, and other keys are untouched. */
  lemma {:induction false} NewestIsLast(m: map<string, Reading>, b: Batch, i: nat)
    requires i < |b| && forall j :: i < j < |b| ==> b[j].key != b[i].key
    ensures b[i].key in Newest(m, b) && Newest(m, b)[b[i].key] == b[i]
    decreases |b|
  {
    if i > 0 {
      NewestIsLast(m[b[0].key := b[0]], b[1..], i - 1);
    } else {
      NewestElsewhere(m[b[0].key := b[0]], b[1..], b[0].key);
    }
  }

  lemma {:induction false} NewestElsewhere(m: map<string, Reading>, b: Batch, k: string)
    requires forall j :: 0 <= j < |b| ==> b[j].key != k
    ensures k in Newest(m, b) <==> k in m
    ensures k in m ==> Newest(m, b)[k] == m[k]
    decreases |b|
  {
    if b != [] {
      NewestElsewhere(m[b[0].key := b[0]], b[1..], k);
    }
  }

  function Deliver(l: Lane, b: Batch): Lane {
    match l
    case Worker(t) => Worker(PumpSpec.Next(t, PutBatch(b)))
    case Inline(got) => Inline(got + b)
  }

  /** Position of the first reading a subscription made now will receive. */
  function Position(s: Sys): int {
    |s.published| - |s.inbox| - (if s.phase.Filling? then |s.phase.batch| else 0)
  }

  function Do(s: Sys, st: Step): Sys
    requires Able(s, st) && Position(s) >= 0
  {
    match st
    case Publish(r) => s.(published := s.published + [r], inbox := s.inbox + [r])
    case SubscribeWorker(mode, cm) =>
      s.(subs := s.subs + [Sub(Worker(Start(mode, cm)), Position(s))], active := s.active + [|s.subs|])
    case SubscribeInline => s.(subs := s.subs + [Sub(Inline([]), Position(s))], active := s.active + [|s.subs|])
    case Remove(i) => s.(active := Without(s.active, i))
    case StopPump(i, flush) => s.(subs := s.subs[i := s.subs[i].(lane := Worker(PumpSpec.Next(s.subs[i].lane.t, CloseWith(flush))))])
    case DrainStart(cap) => s.(phase := Filling([], cap))
    case DrainPop => s.(inbox := s.inbox[1..], phase := Filling(s.phase.batch + [s.inbox[0]], s.phase.cap))
    case DrainSnapshot =>
      if s.phase.batch == [] then s.(phase := Idle)
      else s.(latest := Newest(s.latest, s.phase.batch), phase := Fanout(s.phase.batch, s.active))
    case DrainDeliver =>
      if s.phase.todo == [] then s.(phase := Idle) else
        var i := s.phase.todo[0];
        var subs := if i < |s.subs| then s.subs[i := s.subs[i].(lane := Deliver(s.subs[i].lane, s.phase.batch))] else s.subs;
        s.(subs := subs, phase := Fanout(s.phase.batch, s.phase.todo[1..]))
    case PumpStep(i, e) => s.(subs := s.subs[i := s.subs[i].(lane := Worker(PumpSpec.Next(s.subs[i].lane.t, e)))])
  }

  // ----- the invariant -----

  function Received(l: Lane): Batch { if l.Worker? then l.t.accepted else l.got }

  predicate Stopped(l: Lane) { l.Worker? && l.t.p.stopping }

  /** The part of the current drain that sub i has still to get. */
  function Coming(s: Sys, i: nat): Batch {
    match s.phase
    case Idle => []
    case Filling(b, _) => b
    case Fanout(b, todo) => if i in todo then b else []
  }

  /** Sub i will get the next thing the drain hands out. */
  predicate Live(s: Sys, i: nat)
    requires i < |s.subs|
  {
    !Stopped(s.subs[i].lane) && (i in s.active || (s.phase.Fanout? && i in s.phase.todo))
  }

  /** Everything received is a gap-free stretch of the published stream; for a live
      subscription the batch under way continues it, and for a registered one the inbox
      follows that. */
  predicate SubInv(s: Sys, i: nat)
    requires i < |s.subs|
  {
    var u := s.subs[i];
    && u.since + |Received(u.lane)| <= |s.published|
    && s.published[u.since..u.since + |Received(u.lane)|] == Received(u.lane)
    && (i in s.active ==> !Stopped(u.lane))
    && (Live(s, i) ==> u.since + |Received(u.lane)| + |Coming(s, i)| + |s.inbox| == |s.published|)
  }

  predicate StreamInv(s: Sys) {
    && |s.inbox| <= |s.published| && s.published[|s.published| - |s.inbox|..] == s.inbox
    && Position(s) >= 0
    && s.latest == Newest(map[], s.published[..Position(s)])
    && (s.phase.Filling? ==> s.published[Position(s)..|s.published| - |s.inbox|] == s.phase.batch)
    && (s.phase.Fanout? ==> |s.phase.batch| + |s.inbox| <= |s.published|
                            && s.published[|s.published| - |s.inbox| - |s.phase.batch|..|s.published| - |s.inbox|] == s.phase.batch)
  }

  predicate RegistryInv(s: Sys) {
    && Distinct(s.active) && (forall i :: i in s.active ==> i < |s.subs|)
    && (s.phase.Fanout? ==> Distinct(s.phase.todo) && forall i :: i in s.phase.todo ==> i < |s.subs|)
  }

  predicate SubsInv(s: Sys) { forall i :: 0 <= i < |s.subs| ==> SubInv(s, i) }

  predicate Inv(s: Sys) { StreamInv(s) && RegistryInv(s) && SubsInv(s) }

  lemma DeliverFacts(l: Lane, b: Batch)
    ensures Stopped(Deliver(l, b)) <==> Stopped(l)
    ensures Received(Deliver(l, b)) == if Stopped(l) then Received(l) else Received(l) + b
  {
  }

  /** A step of the worker or a close leaves what was accepted alone. */
  lemma PumpStepFacts(t: Trace, e: Event)
    requires Enabled(t, e) && (IsWorker(e) || e.CloseWith?)
    ensures PumpSpec.Next(t, e).accepted == t.accepted
    ensures if e.CloseWith? then PumpSpec.Next(t, e).p.stopping else PumpSpec.Next(t, e).p.stopping == t.p.stopping
  {
  }

  /** Subs that a step does not touch keep their invariant when nothing moved. */
  lemma SameSub(s: Sys, s': Sys, i: nat)
    requires i < |s.subs| && i < |s'.subs| && SubInv(s, i)
    requires s'.subs[i].since == s.subs[i].since && Received(s'.subs[i].lane) == Received(s.subs[i].lane)
    requires s.published == s'.published && |s.inbox| + |Coming(s, i)| == |s'.inbox| + |Coming(s', i)|
    requires Live(s', i) ==> Live(s, i)
    requires i in s'.active ==> !Stopped(s'.subs[i].lane)
    ensures SubInv(s', i)
  {
  }

  // each step, first for the stream, then for the registry, then for one subscription

  lemma PublishStream(s: Sys, r: Reading)
    requires StreamInv(s)
    ensures StreamInv(Do(s, Publish(r)))
  {
    var s' := Do(s, Publish(r));
    var hi := |s.published| - |s.inbox|;
    assert s'.published[|s'.published| - |s'.inbox|..] == s'.inbox;
    assert s'.published[..Position(s)] == s.published[..Position(s)];
    if !s.phase.Idle? {
      PrefixSlice(s.published, [r], hi - |s.phase.batch|, hi);
    }
  }

  lemma PrefixSlice(a: Batch, b: Batch, lo: nat, hi: nat)
    requires lo <= hi <= |a|
    ensures (a + b)[lo..hi] == a[lo..hi]
  {
  }

  lemma PopStream(s: Sys)
    requires StreamInv(s) && Able(s, DrainPop)
    ensures StreamInv(Do(s, DrainPop))
  {
    var s' := Do(s, DrainPop);
    var lo, hi := Position(s), |s.published| - |s.inbox|;
    assert s.published[hi] == s.published[hi..][0] == s.inbox[0];
    assert s.published[hi + 1..] == s.published[hi..][1..] == s'.inbox;
    assert s.published[lo..hi + 1] == s.published[lo..hi] + [s.published[hi]];
  }

  lemma SnapshotStream(s: Sys)
    requires StreamInv(s) && Able(s, DrainSnapshot)
    ensures StreamInv(Do(s, DrainSnapshot))
  {
    var lo, hi := Position(s), |s.published| - |s.inbox|;
    NewestConcat(map[], s.published[..lo], s.phase.batch);
    assert s.published[..lo] + s.phase.batch == s.published[..hi];
  }

  /** The other steps move no reading. */
  lemma SameStream(s: Sys, s': Sys)
    requires StreamInv(s) && s'.published == s.published && s'.inbox == s.inbox && s'.latest == s.latest
    requires || s'.phase == s.phase
             || (!s.phase.Filling? && s'.phase.Idle?)
             || (s.phase.Idle? && s'.phase.Filling? && s'.phase.batch == [])
             || (s.phase.Fanout? && s'.phase.Fanout? && s'.phase.batch == s.phase.batch)
    ensures StreamInv(s')
  {
    hide Newest;
    assert Position(s') == Position(s);
  }

  lemma DoStream(s: Sys, st: Step)
    requires StreamInv(s) && Able(s, st)
    ensures StreamInv(Do(s, st))
  {
    assert Position(s) >= 0;
    hide StreamInv, Newest, Deliver, PumpSpec.Next;
    match st {
      case Publish(r) => PublishStream(s, r);
      case DrainPop => PopStream(s);
      case DrainSnapshot => SnapshotStream(s);
      case _ => SameStream(s, Do(s, st));
    }
  }

  lemma DoRegistry(s: Sys, st: Step)
    requires RegistryInv(s) && Able(s, st) && Position(s) >= 0
    ensures RegistryInv(Do(s, st))
  {
    hide Deliver, PumpSpec.Next, Newest;
    match st {
      case Remove(i) =>
        WithoutFacts(s.active, i);
      case DrainDeliver =>
        var todo := s.phase.todo;
        assert todo != [] ==> forall k :: 0 <= k < |todo[1..]| ==> todo[1..][k] == todo[k + 1];
        assert todo != [] ==> forall i :: i in todo[1..] ==> i in todo;
      case _ =>
        assert forall k :: 0 <= k < |s.active| ==> s.active[k] in s.active;
    }
  }

  lemma PublishSub(s: Sys, r: Reading, i: nat)
    requires Position(s) >= 0 && i < |s.subs| && SubInv(s, i)
    ensures SubInv(Do(s, Publish(r)), i)
  {
    var s', u := Do(s, Publish(r)), s.subs[i];
    assert s'.published[u.since..u.since + |Received(u.lane)|] == s.published[u.since..u.since + |Received(u.lane)|];
  }

  lemma DeliverSub(s: Sys, i: nat)
    requires StreamInv(s) && RegistryInv(s) && Able(s, DrainDeliver) && i < |s.subs| && SubInv(s, i)
    ensures SubInv(Do(s, DrainDeliver), i)
  {
    assert Position(s) >= 0;
    hide Deliver, Newest, Received, Stopped, StreamInv, SubInv, Live, Coming;
    var s', todo := Do(s, DrainDeliver), s.phase.todo;
    if todo != [] {
      assert todo == [todo[0]] + todo[1..];
      assert todo[0] !in todo[1..];
    }
    if todo != [] && i == todo[0] {
      DeliverHere(s, i);
    } else {
      DeliverElsewhere(s, s', i);
    }
  }

  lemma DeliverElsewhere(s: Sys, s': Sys, i: nat)
    requires Able(s, DrainDeliver) && Position(s) >= 0 && s' == Do(s, DrainDeliver) && i < |s.subs| && SubInv(s, i)
    requires s.phase.todo != [] ==> i != s.phase.todo[0] && s.phase.todo == [s.phase.todo[0]] + s.phase.todo[1..]
    ensures SubInv(s', i)
  {
    hide Deliver, Newest, Received, Stopped;
    SameSub(s, s', i);
  }

  lemma DeliverHere(s: Sys, i: nat)
    requires StreamInv(s) && Able(s, DrainDeliver) && i < |s.subs| && SubInv(s, i)
    requires s.phase.todo != [] && s.phase.todo[0] == i && i !in s.phase.todo[1..]
    ensures SubInv(Do(s, DrainDeliver), i)
  {
    hide Deliver, Newest, Received, Stopped;
    var s', b, u := Do(s, DrainDeliver), s.phase.batch, s.subs[i];
    assert s'.subs[i].lane == Deliver(u.lane, b) && s'.published == s.published && s'.inbox == s.inbox && Coming(s', i) == [];
    DeliverFacts(u.lane, b);
    if !Stopped(u.lane) {
      assert Live(s, i) && Coming(s, i) == b;
      hide Do, Position;
      Stretch(s.published, u.since, Received(u.lane), b);
    }
  }

  lemma Stretch(all: Batch, from: nat, a: Batch, b: Batch)
    requires from + |a| + |b| <= |all| && all[from..from + |a|] == a && all[from + |a|..from + |a| + |b|] == b
    ensures all[from..from + |a + b|] == a + b
  {
  }

  lemma WorkerSub(s: Sys, st: Step, i: nat)
    requires Position(s) >= 0 && Able(s, st) && i < |s.subs| && SubInv(s, i) && (st.StopPump? || st.PumpStep?)
    ensures SubInv(Do(s, st), i)
  {
    hide PumpSpec.Next;
    PumpStepFacts(s.subs[st.i].lane.t, if st.StopPump? then CloseWith(st.flush) else st.e);
    SameSub(s, Do(s, st), i);
  }

  lemma DoSub(s: Sys, st: Step, i: nat)
    requires StreamInv(s) && RegistryInv(s) && SubsInv(s) && Able(s, st) && i < |Do(s, st).subs|
    ensures SubInv(Do(s, st), i)
  {
    hide Deliver, PumpSpec.Next, Newest;
    var s' := Do(s, st);
    assert i < |s.subs| ==> SubInv(s, i);
    match st {
      case Publish(r) => PublishSub(s, r, i);
      case DrainDeliver => DeliverSub(s, i);
      case SubscribeWorker(_, _) =>
        if i < |s.subs| { SameSub(s, s', i); }
      case SubscribeInline =>
        if i < |s.subs| { SameSub(s, s', i); }
      case Remove(j) =>
        WithoutFacts(s.active, j);
        SameSub(s, s', i);
      case StopPump(_, _) => WorkerSub(s, st, i);
      case PumpStep(_, _) => WorkerSub(s, st, i);
      case DrainStart(_) => SameSub(s, s', i);
      case DrainPop => SameSub(s, s', i);
      case DrainSnapshot => SnapshotSub(s, i);
    }
  }

  lemma SnapshotSub(s: Sys, i: nat)
    requires Position(s) >= 0 && Able(s, DrainSnapshot) && i < |s.subs| && SubInv(s, i)
    ensures SubInv(Do(s, DrainSnapshot), i)
  {
    hide Newest;
    var s' := Do(s, DrainSnapshot);
    if Live(s', i) {
      assert Live(s, i) && |Coming(s', i)| == |Coming(s, i)|;
    }
  }

  lemma DoInv(s: Sys, st: Step)
    requires Inv(s) && Able(s, st)
    ensures Inv(Do(s, st))
  {
    assert Position(s) >= 0;
    hide StreamInv, RegistryInv, SubInv, Do;
    DoStream(s, st);
    DoRegistry(s, st);
    forall i | 0 <= i < |Do(s, st).subs| { DoSub(s, st, i); }
  }

  predicate AbleRun(s: Sys, sts: seq<Step>)
    decreases |sts|
  {
    sts == [] || (Able(s, sts[0]) && Position(s) >= 0 && AbleRun(Do(s, sts[0]), sts[1..]))
  }

  function RunAll(s: Sys, sts: seq<Step>): Sys
    requires AbleRun(s, sts)
    decreases |sts|
  {
    if sts == [] then s else RunAll(Do(s, sts[0]), sts[1..])
  }

  lemma {:induction false} RunAllInv(s: Sys, sts: seq<Step>)
    requires Inv(s) && AbleRun(s, sts)
    ensures Inv(RunAll(s, sts))
    decreases |sts|
  {
    if sts != [] {
      DoInv(s, sts[0]);
      RunAllInv(Do(s, sts[0]), sts[1..]);
    }
  }

  // ----- what single steps do -----

  /** A subscription starts empty, with the first reading not yet popped by a drain that has
      taken its snapshot; a removed one is registered no more. Neither touches anything else. */
  lemma RegistryDoes(s: Sys, mode: Mode, conflateMax: int, i: nat)
    requires Position(s) >= 0
    ensures var r, n := Do(s, SubscribeWorker(mode, conflateMax)), |s.subs|;
            && r == s.(subs := s.subs + [r.subs[n]], active := s.active + [n])
            && r.subs[n].since == |s.published| - |s.inbox| - (if s.phase.Filling? then |s.phase.batch| else 0)
            && r.subs[n].lane.Worker? && r.subs[n].lane.t.p.mode == mode && r.subs[n].lane.t.p.conflateMax == conflateMax
            && r.subs[n].lane.t.p.q == [] && !r.subs[n].lane.t.p.stopping && r.subs[n].lane.t.accepted == []
    ensures var r, n := Do(s, SubscribeInline), |s.subs|;
            && r == s.(subs := s.subs + [r.subs[n]], active := s.active + [n])
            && r.subs[n].since == |s.published| - |s.inbox| - (if s.phase.Filling? then |s.phase.batch| else 0)
            && r.subs[n].lane == Inline([])
    ensures var r := Do(s, Remove(i));
            r == s.(active := r.active) && forall j :: j in r.active <==> j in s.active && j != i
  {
    WithoutFacts(s.active, i);
  }

  /** Stopping a pump touches no other sink; without a flush its backlog is gone. */
  lemma StopDoes(s: Sys, i: nat, flush: bool)
    requires Position(s) >= 0 && Able(s, StopPump(i, flush))
    ensures var r := Do(s, StopPump(i, flush));
            && r == s.(subs := r.subs) && |r.subs| == |s.subs| && forall j :: 0 <= j < |s.subs| && j != i ==> r.subs[j] == s.subs[j]
    ensures var p, t, t' := s.subs[i].lane.t.p, s.subs[i].lane.t, Do(s, StopPump(i, flush)).subs[i].lane.t;
            && t'.p.stopping && t'.p.q == (if flush then p.q else []) && t'.accepted == t.accepted && t'.handed == t.handed
            && t'.discarded == (t.discarded || !flush)
  {
  }

  /** A drain starts only on a non-empty inbox, pops from its front up to the cap, and stops
      popping exactly at the cap or with nothing left. */
  lemma DrainDoes(s: Sys, cap: Option<nat>)
    requires Position(s) >= 0
    ensures Able(s, DrainStart(cap)) <==> s.phase.Idle? && s.inbox != []
    ensures Able(s, DrainStart(cap)) ==> Do(s, DrainStart(cap)) == s.(phase := Filling([], cap))
    ensures s.phase.Filling? && s.phase.cap == cap ==>
              var full := s.inbox == [] || (cap.Some? && |s.phase.batch| >= cap.value);
              && (Able(s, DrainPop) <==> !full) && (Able(s, DrainSnapshot) <==> full)
              && (!full ==> Do(s, DrainPop) == s.(inbox := s.inbox[1..], phase := Filling(s.phase.batch + [s.inbox[0]], cap)))
  {
  }

  // ----- end to end -----

  /** Every worker lane that is lossless, or conflates into at least one slot, keeps the
      laws of its pump. */
  ghost predicate LanesInv(s: Sys) {
    forall i :: 0 <= i < |s.subs| && s.subs[i].lane.Worker? && Usable(s.subs[i].lane.t.p) ==> PumpSpec.Inv(s.subs[i].lane.t)
  }

  lemma DoLanes(s: Sys, st: Step)
    requires LanesInv(s) && Able(s, st) && Position(s) >= 0
    ensures LanesInv(Do(s, st))
  {
    hide PumpSpec.Inv, PumpSpec.Next, Usable;
    var s' := Do(s, st);
    match st {
      case SubscribeWorker(mode, cm) =>
        if Usable(Start(mode, cm).p) {
          StartUsable(mode, cm);
        }
      case StopPump(i, flush) =>
        LaneStep(s.subs[i].lane.t, CloseWith(flush));
      case PumpStep(i, e) =>
        LaneStep(s.subs[i].lane.t, e);
      case DrainDeliver =>
        if s.phase.todo != [] && s.phase.todo[0] < |s.subs| && s.subs[s.phase.todo[0]].lane.Worker? {
          LaneStep(s.subs[s.phase.todo[0]].lane.t, PutBatch(s.phase.batch));
        }
      case _ =>
    }
  }

  lemma StartUsable(mode: Mode, cm: int)
    requires Usable(Start(mode, cm).p)
    ensures PumpSpec.Inv(Start(mode, cm))
  {
    StartInv(mode, cm);
  }

  lemma LaneStep(t: Trace, e: Event)
    requires Enabled(t, e) && (Usable(t.p) ==> PumpSpec.Inv(t))
    ensures Usable(PumpSpec.Next(t, e).p) ==> PumpSpec.Inv(PumpSpec.Next(t, e))
  {
    assert Usable(PumpSpec.Next(t, e).p) <==> Usable(t.p);
    if Usable(t.p) {
      NextInv(t, e);
    }
  }

  lemma {:induction false} RunAllLanes(s: Sys, sts: seq<Step>)
    requires LanesInv(s) && AbleRun(s, sts)
    ensures LanesInv(RunAll(s, sts))
    decreases |sts|
  {
    if sts != [] {
      DoLanes(s, sts[0]);
      RunAllLanes(Do(s, sts[0]), sts[1..]);
    }
  }

  const BOOT := Sys([], [], map[], [], [], Idle)

  /** From publish to sink: in every reachable state, what was published since a lossless
      worker subscribed is, in order and without a gap, what its sink was handed, then its
      queue, then the batch under way, then the inbox. */
  lemma LosslessEndToEnd(sts: seq<Step>, i: nat)
    requires AbleRun(BOOT, sts)
    requires var s := RunAll(BOOT, sts);
             i in s.active && i < |s.subs| && s.subs[i].lane.Worker? && s.subs[i].lane.t.p.mode.Lossless?
    ensures var s := RunAll(BOOT, sts);
            var t := s.subs[i].lane.t;
            0 <= s.subs[i].since <= |s.published| &&
            s.published[s.subs[i].since..] == t.handed + Flatten(t.p.q) + Coming(s, i) + s.inbox
  {
    RunAllInv(BOOT, sts);
    RunAllLanes(BOOT, sts);
    SubEndToEnd(RunAll(BOOT, sts), i);
  }

  lemma SubEndToEnd(s: Sys, i: nat)
    requires Inv(s) && LanesInv(s) && i in s.active && i < |s.subs|
    ensures var u := s.subs[i];
            u.since <= |s.published| && s.published[u.since..] == Received(u.lane) + Coming(s, i) + s.inbox
    ensures var u := s.subs[i];
            u.lane.Worker? && u.lane.t.p.mode.Lossless? ==> Received(u.lane) == u.lane.t.handed + Flatten(u.lane.t.p.q)
  {
    hide Newest;
    assert SubInv(s, i) && Live(s, i);
    var u := s.subs[i];
    ThreeParts(s.published, u.since, Received(u.lane), Coming(s, i), s.inbox);
  }

  lemma ThreeParts(all: Batch, from: nat, a: Batch, b: Batch, c: Batch)
    requires from + |a| + |b| + |c| == |all|
    requires all[from..from + |a|] == a && all[from + |a|..from + |a| + |b|] == b && all[from + |a| + |b|..] == c
    ensures all[from..] == a + b + c
  {
    var mid, hi := from + |a|, from + |a| + |b|;
    assert all[from..] == all[from..mid] + all[mid..hi] + all[hi..];
  }

  /** A lossless worker lane whose thread has exited, its backlog never discarded. */
  predicate Finished(s: Sys, i: nat) {
    && i < |s.subs| && s.subs[i].lane.Worker?
    && s.subs[i].lane.t.p.mode.Lossless? && s.subs[i].lane.t.p.exited && !s.subs[i].lane.t.discarded
  }

  /** Its sink was handed exactly the stretch of the published stream that starts where it
      subscribed and ends with the last batch it accepted. */
  predicate HandedStretch(s: Sys, i: nat)
    requires i < |s.subs| && s.subs[i].lane.Worker?
  {
    var u := s.subs[i];
    && u.since + |u.lane.t.accepted| <= |s.published|
    && u.lane.t.handed == s.published[u.since..u.since + |u.lane.t.accepted|]
    && u.lane.t.p.delivered + u.lane.t.failed == |u.lane.t.accepted|
  }

  /** Fully delivered on close, from publish to sink. */
  lemma ClosedEndToEnd(sts: seq<Step>, i: nat)
    requires AbleRun(BOOT, sts) && Finished(RunAll(BOOT, sts), i)
    ensures HandedStretch(RunAll(BOOT, sts), i)
  {
    BootInv();
    hide AbleRun, RunAll, Inv, LanesInv, HandedStretch;
    RunAllInv(BOOT, sts);
    RunAllLanes(BOOT, sts);
    LaneClosed(RunAll(BOOT, sts), i);
  }

  lemma BootInv()
    ensures Inv(BOOT) && LanesInv(BOOT)
  {
  }

  lemma LaneClosed(s: Sys, i: nat)
    requires Inv(s) && LanesInv(s) && Finished(s, i)
    ensures HandedStretch(s, i)
  {
    hide StreamInv, RegistryInv, Live, Fresh;
    assert SubInv(s, i) && PumpSpec.Inv(s.subs[i].lane.t);
  }

  /** The inline counterpart: an inline sink has been called with everything drained. */
  lemma InlineEndToEnd(sts: seq<Step>, i: nat)
    requires AbleRun(BOOT, sts)
    requires var s := RunAll(BOOT, sts); i in s.active && i < |s.subs| && s.subs[i].lane.Inline?
    ensures var s := RunAll(BOOT, sts);
            s.subs[i].since <= |s.published| &&
            s.published[s.subs[i].since..] == s.subs[i].lane.got + Coming(s, i) + s.inbox
  {
    RunAllInv(BOOT, sts);
    RunAllLanes(BOOT, sts);
    SubEndToEnd(RunAll(BOOT, sts), i);
  }
}
