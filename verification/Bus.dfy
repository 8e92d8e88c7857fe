/** `_Pump`, `Subscription` and `Bus` (ferrodac/core/bus.py) with their fields; every
    method is one locked section, tied to the functions of PumpSpec and BusSpec. */
module Buses {
  import opened Values
  import P = PumpSpec
  import S = BusSpec

  class Pump {
    const mode: P.Mode
    const conflateMax: int
    var q: seq<P.Batch>
    var stopping: bool
    var delivered: nat
    var dropped: int
    var errors: nat
    var warned: bool
    var inflight: Option<P.Batch>
    var exited: bool

    constructor (mode: P.Mode, conflateMax: int)
      ensures State() == P.Start(mode, conflateMax).p
    {
      this.mode, this.conflateMax := mode, conflateMax;
      q, stopping, delivered, dropped, errors, warned := [], false, 0, 0, 0, false;
      inflight, exited := None, false;
    }

    function State(): P.Pump
      reads this
    {
      P.Pump(mode, conflateMax, q, stopping, delivered, dropped, errors, warned, inflight, exited)
    }

    method Put(batch: P.Batch)
      modifies this
      ensures State() == P.Put(old(State()), batch)
    {
      if stopping {
        return;
      }
      q := q + [batch];
      if mode == P.Conflate && |q| > P.CONFLATE_DEPTH {
        var merged: P.Batch := [];
        ghost var all := P.Flatten(q);
        while q != []
          invariant merged + P.Flatten(q) == all
          invariant this.State() == old(State()).(q := q)
          decreases |q|
        {
          merged := merged + q[0];
          q := q[1..];
        }
        assert merged == all;
        if |merged| > conflateMax {
          dropped := dropped + (|merged| - conflateMax);
          merged := P.LastSlice(merged, conflateMax);
        }
        assert q + [merged] == [merged];
        q := q + [merged];
      } else if mode == P.Lossless && |q| > P.HIGH_WATER {
        if !warned {
          warned := true;
        }
      } else if warned && |q| < P.HIGH_WATER / 2 {
        warned := false;
      }
    }

    /** The locked section of `_run`: take the next batch, or leave when stopping and
        drained. With neither, the thread keeps waiting. */
    method Take() returns (batch: Option<P.Batch>)
      requires inflight.None? && !exited
      modifies this
      ensures old(q) != [] ==> State() == P.Pop(old(State())) && batch == Some(old(q)[0])
      ensures old(q) == [] ==> batch.None? && State() == old(State()).(exited := old(stopping))
    {
      if q != [] {
        batch := Some(q[0]);
        inflight := batch;
        q := q[1..];
      } else {
        batch := None;
        exited := stopping;
      }
    }

    method SinkReturned(ok: bool)
      requires inflight.Some?
      modifies this
      ensures State() == P.SinkReturned(old(State()), ok)
    {
      if ok {
        delivered := delivered + |inflight.value|;
      } else {
        errors := errors + 1;
      }
      inflight := None;
    }

    method Close(flush: bool)
      modifies this
      ensures State() == P.Close(old(State()), flush) && stopping && q == if flush then old(q) else []
    {
      if !flush {
        q := [];
      }
      stopping := true;
    }

    /** The worker thread after a flushing close, with a sink that returns: the k-th call
        raises or not as `ok` says. The whole backlog is handed over in order, a batch that
        raised included, and the thread exits. */
    method RunToExit(ok: nat -> bool) returns (handed: P.Batch)
      requires stopping && inflight.None? && !exited
      modifies this
      ensures exited && q == [] && handed == P.Flatten(old(q))
      ensures delivered == old(delivered) + P.Returned(old(q), ok, 0) && errors == old(errors) + P.Raised(old(q), ok, 0)
    {
      handed := [];
      var k := 0;
      assert P.Flatten([]) == [];
      while !exited
        invariant stopping && inflight.None?
        invariant handed + P.Flatten(q) == P.Flatten(old(q))
        invariant delivered + P.Returned(q, ok, k) == old(delivered) + P.Returned(old(q), ok, 0)
        invariant errors + P.Raised(q, ok, k) == old(errors) + P.Raised(old(q), ok, 0)
        invariant exited ==> q == []
        decreases |q|, !exited
      {
        P.ExitStep(handed, q, ok, k);
        hide P.Flatten, P.Returned, P.Raised;
        var batch := Take();
        if batch.Some? {
          handed := handed + batch.value;
          SinkReturned(ok(k));
          k := k + 1;
        }
      }
    }
  }

  /** An inline sink is represented by the readings it has been called with. */
  class Subscription {
    const pump: Pump?
    var got: P.Batch

    constructor (pump: Pump?)
      ensures this.pump == pump && got == []
    {
      this.pump := pump;
      got := [];
    }
  }

  class Bus {
    var inbox: P.Batch
    var latest: map<string, P.Reading>
    var subs: seq<Subscription>

    constructor ()
      ensures inbox == [] && latest == map[] && subs == [] && Valid()
    {
      inbox, latest, subs := [], map[], [];
    }

    /** Subscriptions are distinct objects and no two share a pump. */
    ghost predicate Valid()
      reads this
    {
      forall i, j :: 0 <= i < j < |subs| ==> subs[i] != subs[j] && (subs[i].pump != null ==> subs[i].pump != subs[j].pump)
    }

    ghost function Sinks(): set<object>
      reads this
    {
      (set s | s in subs :: s as object) + (set s | s in subs && s.pump != null :: s.pump as object)
    }

    method Publish(r: P.Reading)
      modifies this`inbox
      ensures inbox == old(inbox) + [r]
    {
      inbox := inbox + [r];
    }

    method Subscribe(worker: bool, mode: P.Mode, conflateMax: int) returns (sub: Subscription)
      requires Valid()
      modifies this`subs
      ensures Valid() && fresh(sub) && subs == old(subs) + [sub] && sub.got == []
      ensures worker <==> sub.pump != null
      ensures worker ==> fresh(sub.pump) && sub.pump.State() == P.Start(mode, conflateMax).p
    {
      var pump: Pump? := null;
      if worker {
        pump := new Pump(mode, conflateMax);
      }
      sub := new Subscription(pump);
      subs := subs + [sub];
    }

    method Remove(sub: Subscription)
      requires Valid()
      modifies this`subs
      ensures Valid() && sub !in subs
      ensures sub !in old(subs) ==> subs == old(subs)
      ensures sub in old(subs) ==> exists i :: 0 <= i < |old(subs)| && old(subs)[i] == sub && subs == old(subs)[..i] + old(subs)[i + 1..]
    {
      var i := 0;
      while i < |subs| && subs[i] != sub
        invariant 0 <= i <= |subs|
        invariant sub !in subs[..i]
      {
        i := i + 1;
      }
      if i < |subs| {
        subs := subs[..i] + subs[i + 1..];
      }
    }

    /** `Subscription.close`: out of the registry first, then stop its pump, delivering the
        backlog of a lossless sink and discarding that of a conflating one. */
    method CloseSubscription(sub: Subscription)
      requires Valid()
      modifies this`subs, sub.pump
      ensures Valid() && sub !in subs
      ensures sub.pump != null ==> sub.pump.State() == P.Close(old(sub.pump.State()), sub.pump.mode.Lossless?)
    {
      Remove(sub);
      if sub.pump != null {
        sub.pump.Close(sub.pump.mode.Lossless?);
      }
    }

    /** What one drain leaves behind: the first `max` readings leave the inbox in order,
        `latest` is brought up to date, and every registered sink gets the batch once. */
    method Drain(max: Option<nat>) returns (batch: P.Batch)
      requires Valid()
      modifies this`inbox, this`latest, Sinks()
      ensures Valid() && subs == old(subs)
      ensures batch + inbox == old(inbox)
      ensures max.None? || max.value >= |old(inbox)| ==> batch == old(inbox)
      ensures max.Some? && max.value <= |old(inbox)| ==> |batch| == max.value
      ensures latest == S.Newest(old(latest), batch)
      ensures batch == [] ==> unchanged(Sinks())
      ensures batch != [] ==> forall s :: s in subs && s.pump != null ==> s.pump.State() == P.Put(old(s.pump.State()), batch)
      ensures batch != [] ==> forall s :: s in subs && s.pump == null ==> s.got == old(s.got) + batch
    {
      batch := [];
      while inbox != [] && (max.None? || |batch| < max.value)
        invariant batch + inbox == old(inbox)
        invariant max.Some? ==> |batch| <= max.value
        decreases |inbox|
        modifies this`inbox
      {
        batch := batch + [inbox[0]];
        inbox := inbox[1..];
      }
      if batch == [] {
        return;
      }
      TakeLatest(batch);
      Fanout(batch);
    }

    method TakeLatest(batch: P.Batch)
      modifies this`latest
      ensures latest == S.Newest(old(latest), batch)
    {
      for i := 0 to |batch|
        invariant S.Newest(latest, batch[i..]) == S.Newest(old(latest), batch)
      {
        assert batch[i..][0] == batch[i] && batch[i..][1..] == batch[i + 1..];
        latest := latest[batch[i].key := batch[i]];
      }
    }

    method Fanout(batch: P.Batch)
      requires Valid()
      modifies Sinks()
      ensures forall s :: s in subs && s.pump != null ==> s.pump.State() == P.Put(old(s.pump.State()), batch)
      ensures forall s :: s in subs && s.pump == null ==> s.got == old(s.got) + batch
    {
      hide P.Put;
      for k := 0 to |subs|
        invariant forall i :: 0 <= i < k && subs[i].pump != null ==> subs[i].pump.State() == P.Put(old(subs[i].pump.State()), batch)
        invariant forall i :: 0 <= i < k && subs[i].pump == null ==> subs[i].got == old(subs[i].got) + batch
        invariant forall i :: k <= i < |subs| && subs[i].pump != null ==> subs[i].pump.State() == old(subs[i].pump.State())
        invariant forall i :: k <= i < |subs| ==> subs[i].got == old(subs[i].got)
      {
        var sub := subs[k];
        assert sub in subs;
        if sub.pump != null {
          sub.pump.Put(batch);
        } else {
          sub.got := sub.got + batch;
        }
      }
    }
  }
}
