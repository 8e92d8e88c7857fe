/** VideoStore (ferrodac/core/videostore.py) as an object over its camera directories, and
    the sync pass between two of them (ferrodac/core/videosync.py). */
module VideoStores {
  import opened Values
  import opened VideoSpec
  import Q = VideoQueries
  import S = Sorting

  class VideoStore {
    var cams: map<string, Cam>

    constructor ()
      ensures cams == map[]
    {
      cams := map[];
    }

    function Dir(cam: string): Cam
      reads this
    {
      DirOf(cams, cam)
    }

    /** The recorder finished a file; an absent or empty one is not indexed. */
    method CommitSegment(cam: string, t0: int, t1: int, f: FileName) returns (ok: bool)
      modifies this
      ensures ok <==> f in old(Dir(cam)).files && old(Dir(cam)).files[f] != []
      ensures cams == if ok then old(cams)[cam := Commit(old(Dir(cam)), t0, t1, f)] else old(cams)
    {
      var c := Dir(cam);
      ok := f in c.files && c.files[f] != [];
      if ok {
        cams := cams[cam := Commit(c, t0, t1, f)];
      }
    }

    /** {(cam, key)} for every stored segment. */
    method Have() returns (r: set<(string, int)>)
      ensures forall c, k :: (c, k) in r <==> k in Keys(Dir(c))
    {
      r := {};
      var todo := cams.Keys;
      while todo != {}
        invariant todo <= cams.Keys
        invariant forall c, k :: (c, k) in r <==> c in cams && c !in todo && k in Keys(Dir(c))
        decreases |todo|
      {
        var c :| c in todo;
        r := r + set k | k in Keys(Dir(c)) :: (c, k);
        todo := todo - {c};
      }
    }

    method MarkSynced(cam: string, t0: int) returns (hit: bool)
      modifies this
      ensures hit <==> t0 in Keys(old(Dir(cam)))
      ensures cams == if hit then old(cams)[cam := Mark(old(Dir(cam)), t0)] else old(cams)
    {
      var c := Dir(cam);
      hit := t0 in Keys(c);
      if hit {
        cams := cams[cam := Mark(c, t0)];
      }
    }

    method ReadSegmentBytes(cam: string, t0: int) returns (data: Option<Bytes>)
      ensures data == Read(Dir(cam), t0)
    {
      var c := Dir(cam);
      assert c.index[0..] == c.index;
      for i := 0 to |c.index|
        invariant FileOf(c.index[i..], t0) == FileOf(c.index, t0)
      {
        assert c.index[i..][0] == c.index[i] && c.index[i..][1..] == c.index[i + 1..];
        if c.index[i].t0 == t0 {
          return if c.index[i].file in c.files then Some(c.files[c.index[i].file]) else None;
        }
      }
      return None;
    }

    /** Write received bytes and index them, unless the segment is held already. */
    method ImportSegment(cam: string, t0: int, t1: int, data: Bytes) returns (written: nat)
      modifies this
      ensures Dir(cam) == Import(old(Dir(cam)), t0, t1, data)
      ensures SameBut(cam, cams, old(cams))
      ensures written == if data == [] || t0 in Keys(old(Dir(cam))) then 0 else |data|
    {
      if data == [] {
        return 0;
      }
      var c := Dir(cam);
      if t0 in Keys(c) {
        return 0;
      }
      cams := cams[cam := c.(files := c.files[Seg(t0) := data])];
      var ok := CommitSegment(cam, t0, t1, Seg(t0));
      CommitHolds(c.(files := c.files[Seg(t0) := data]), t0, t1, Seg(t0));
      var hit := MarkSynced(cam, t0);
      return |data|;
    }

    method PruneRetentionSize(cam: string, cap: nat) returns (freed: nat)
      modifies this
      ensures Dir(cam).index == old(Dir(cam)).index[Q.Excess(old(Dir(cam)).index, cap)..]
      ensures Dir(cam).files == old(Dir(cam)).files - Q.Names(old(Dir(cam)).index[..Q.Excess(old(Dir(cam)).index, cap)])
      ensures freed + Q.TotalSize(Dir(cam).index) == Q.TotalSize(old(Dir(cam)).index)
      ensures SameBut(cam, cams, old(cams))
    {
      var r: Cam;
      r, freed := Q.PruneToSize(Dir(cam), cap);
      cams := cams[cam := r];
    }

    method DeleteOlderThan(cam: string, cutoff: int) returns (freed: nat)
      modifies this
      ensures Dir(cam).index == Q.Kept(old(Dir(cam)).index, cutoff)
      ensures Dir(cam).files == old(Dir(cam)).files - Q.Expired(old(Dir(cam)).index, cutoff)
      ensures freed + Q.TotalSize(Dir(cam).index) == Q.TotalSize(old(Dir(cam)).index)
      ensures SameBut(cam, cams, old(cams))
    {
      var r: Cam;
      r, freed := Q.DeleteOlderThan(Dir(cam), cutoff);
      cams := cams[cam := r];
    }
  }

  lemma CommitHolds(c: Cam, t0: int, t1: int, f: FileName)
    requires f in c.files && c.files[f] != []
    ensures t0 in Keys(Commit(c, t0, t1, f))
  {
    var e := Entry(t0, t1, f, |c.files[f]|, false);
    S.SortMembers(BY_START, c.index + [e]);
    assert e in c.index + [e];
  }

  function DirOf(cams: map<string, Cam>, cam: string): Cam { if cam in cams then cams[cam] else NO_CAM }

  /** Uploads one pass over these cameras makes. */
  ghost function TotalPending(order: seq<string>, local: map<string, Cam>, remote: map<string, Cam>): nat {
    if order == [] then 0
    else TotalPending(order[..|order| - 1], local, remote) + CamPending(local, remote, order[|order| - 1])
  }

  ghost function CamPending(local: map<string, Cam>, remote: map<string, Cam>, cam: string): nat {
    PendingCount(DirOf(local, cam), Keys(DirOf(remote, cam)), DirOf(local, cam).index)
  }

  /** order lists each of these cameras once. */
  ghost predicate Lists(order: seq<string>, cams: set<string>) {
    && (forall c :: c in order <==> c in cams)
    && (forall i, j :: 0 <= i < j < |order| ==> order[i] != order[j])
  }

  lemma {:induction false} NothingPending(order: seq<string>, local: map<string, Cam>, remote: map<string, Cam>)
    ensures TotalPending(order, local, remote) == 0 <==> forall c :: c in order ==> CamPending(local, remote, c) == 0
  {
    hide CamPending;
    if order != [] {
      var n := |order| - 1;
      NothingPending(order[..n], local, remote);
      assert order == order[..n] + [order[n]];
      assert forall c :: c in order <==> c in order[..n] || c == order[n];
    }
  }

  lemma NoCamPass(remote: Cam)
    ensures AfterLocal(NO_CAM, remote) == NO_CAM && AfterRemote(NO_CAM, remote) == remote
    ensures PendingCount(NO_CAM, Keys(remote), NO_CAM.index) == 0
    ensures Passed(NO_CAM, remote, NO_CAM, remote)
  {
    assert Confirmed(NO_CAM, Keys(remote)).index == NO_CAM.index;
  }

  /** Both sides of this camera are as the pass functions of VideoSpec say. */
  ghost predicate Passed(local: Cam, remote: Cam, local0: Cam, remote0: Cam) {
    local == AfterLocal(local0, remote0) && remote == AfterRemote(local0, remote0)
  }

  /** One pass: upload every local segment the remote lacks, mark what it holds. For every
      camera the two directories end as the pass functions of VideoSpec say. */
  method SyncOnce(local: VideoStore, remote: VideoStore) returns (sent: nat, ghost order: seq<string>)
    requires local != remote
    modifies local, remote
    ensures forall c :: Passed(local.Dir(c), remote.Dir(c), old(local.Dir(c)), old(remote.Dir(c)))
    ensures Lists(order, old(local.cams.Keys)) && sent == TotalPending(order, old(local.cams), old(remote.cams))
  {
    ghost var local0, remote0 := local.cams, remote.cams;
    assert Lists([], local0.Keys - local0.Keys) && TotalPending([], local0, remote0) == 0;
    assert Progress(local0, remote0, local0, remote0, local0.Keys);
    hide Passed, Keys, TotalPending, CamPending, Lists, Progress, SameBut;
    var have := remote.Have();
    sent, order := 0, [];
    var todo := local.cams.Keys;
    while todo != {}
      invariant todo <= local.cams.Keys == local0.Keys
      invariant Lists(order, local0.Keys - todo)
      invariant Progress(local.cams, remote.cams, local0, remote0, todo)
      invariant sent == TotalPending(order, local0, remote0)
      decreases |todo|
    {
      var cam :| cam in todo;
      ghost var l, r := local.cams, remote.cams;
      Untouched(l, r, local0, remote0, todo, cam);
      var n := SyncCamera(local, remote, cam, have);
      ProgressStep(l, r, local.cams, remote.cams, local0, remote0, todo, cam);
      sent := sent + n;
      OneMore(order, local0, remote0, cam, todo);
      order := order + [cam];
      todo := todo - {cam};
    }
    assert local0.Keys - {} == local0.Keys;
    ProgressDone(local.cams, remote.cams, local0, remote0);
  }

  /** Every camera but this one has the same directory in both. */
  ghost predicate SameBut(cam: string, l1: map<string, Cam>, l: map<string, Cam>) {
    forall c :: c != cam ==> DirOf(l1, c) == DirOf(l, c)
  }

  /** The cameras in `todo` are untouched, the others have had their pass. */
  ghost predicate Progress(l: map<string, Cam>, r: map<string, Cam>, l0: map<string, Cam>, r0: map<string, Cam>, todo: set<string>) {
    forall c :: if c in todo || c !in l0 then DirOf(l, c) == DirOf(l0, c) && DirOf(r, c) == DirOf(r0, c)
                else Passed(DirOf(l, c), DirOf(r, c), DirOf(l0, c), DirOf(r0, c))
  }

  lemma Untouched(l: map<string, Cam>, r: map<string, Cam>, l0: map<string, Cam>, r0: map<string, Cam>, todo: set<string>, cam: string)
    requires Progress(l, r, l0, r0, todo) && cam in todo
    ensures DirOf(l, cam) == DirOf(l0, cam) && DirOf(r, cam) == DirOf(r0, cam)
  {
  }

  lemma ProgressStep(l: map<string, Cam>, r: map<string, Cam>, l1: map<string, Cam>, r1: map<string, Cam>,
                     l0: map<string, Cam>, r0: map<string, Cam>, todo: set<string>, cam: string)
    requires Progress(l, r, l0, r0, todo) && cam in todo && cam in l0
    requires Passed(DirOf(l1, cam), DirOf(r1, cam), DirOf(l, cam), DirOf(r, cam))
    requires SameBut(cam, l1, l) && SameBut(cam, r1, r)
    ensures Progress(l1, r1, l0, r0, todo - {cam})
  {
    hide Passed, DirOf;
    Untouched(l, r, l0, r0, todo, cam);
  }

  lemma ProgressDone(l: map<string, Cam>, r: map<string, Cam>, l0: map<string, Cam>, r0: map<string, Cam>)
    requires Progress(l, r, l0, r0, {})
    ensures forall c :: Passed(DirOf(l, c), DirOf(r, c), DirOf(l0, c), DirOf(r0, c))
  {
    hide Passed;
    forall c ensures Passed(DirOf(l, c), DirOf(r, c), DirOf(l0, c), DirOf(r0, c)) {
      assert c !in l0 ==> DirOf(l0, c) == NO_CAM;
      NoCamPass(DirOf(r0, c));
    }
  }

  lemma OneMore(order: seq<string>, local: map<string, Cam>, remote: map<string, Cam>, cam: string, todo: set<string>)
    requires cam in todo && todo <= local.Keys && Lists(order, local.Keys - todo)
    ensures Lists(order + [cam], local.Keys - (todo - {cam}))
    ensures TotalPending(order + [cam], local, remote) == TotalPending(order, local, remote)
              + PendingCount(DirOf(local, cam), Keys(DirOf(remote, cam)), DirOf(local, cam).index)
  {
    assert (order + [cam])[..|order|] == order;
  }

  /** The directory with every entry under one of these keys flagged. */
  ghost function Flagged(c: Cam, keys: set<int>): Cam {
    c.(index := seq(|c.index|, i requires 0 <= i < |c.index| =>
      if c.index[i].t0 in keys then c.index[i].(synced := true) else c.index[i]))
  }

  lemma FlaggedFacts(c: Cam, keys: set<int>, k: int)
    ensures Flagged(c, {}) == c
    ensures Mark(Flagged(c, keys), k) == Flagged(c, keys + {k})
    ensures Keys(Flagged(c, keys)) == Keys(c)
    ensures Read(Flagged(c, keys), k) == Read(c, k)
  {
    var r := Flagged(c, keys);
    assert Flagged(c, {}).index == c.index;
    assert Mark(r, k).index == Flagged(c, keys + {k}).index;
    SameFile(r.index, c.index, k);
    forall j ensures j in Keys(r) <==> j in Keys(c) {
      KeysOfFacts(r.index, j);
      KeysOfFacts(c.index, j);
      assert forall i :: 0 <= i < |r.index| ==> r.index[i].t0 == c.index[i].t0;
    }
  }

  /** The remote reported this segment, or its bytes can be read here. */
  ghost predicate Confirmable(c: Cam, have: set<int>, e: Entry) { e.t0 in have || Read(c, e.t0).Some? }

  lemma FlaggedIsConfirmed(c: Cam, have: set<int>, keys: set<int>)
    requires MarkedUpTo(c, have, keys, |c.index|)
    ensures Flagged(c, keys) == Confirmed(c, have)
  {
    hide Read;
    assert Flagged(c, keys).index == Confirmed(c, have).index;
  }

  /** One segment of a pass. `marked` are the keys flagged so far, `now` after it. */
  method SyncEntry(local: VideoStore, remote: VideoStore, cam: string, have: set<(string, int)>, e: Entry,
                   ghost l0: Cam, ghost keys: set<int>, ghost marked: set<int>)
    returns (sent: nat, ghost now: set<int>)
    requires local != remote && cam in local.cams && e in l0.index
    requires forall k :: (cam, k) in have <==> k in keys
    requires local.Dir(cam) == Flagged(l0, marked)
    modifies local, remote
    ensures local.Dir(cam) == Flagged(l0, now)
    ensures now == if Confirmable(l0, keys, e) && !(e.t0 in keys && e.synced) then marked + {e.t0} else marked
    ensures sent == if Pending(l0, keys, e) then 1 else 0
    ensures remote.Dir(cam) ==
            if Pending(l0, keys, e) then Import(old(remote.Dir(cam)), e.t0, e.t1, Read(l0, e.t0).value) else old(remote.Dir(cam))
    ensures SameBut(cam, local.cams, old(local.cams)) && SameBut(cam, remote.cams, old(remote.cams))
    ensures local.cams.Keys == old(local.cams.Keys)
  {
    FlaggedFacts(l0, marked, e.t0);
    EntryKeys(l0);
    hide Read, Import, Mark, Keys, Flagged;
    sent, now := 0, marked;
    if (cam, e.t0) in have {
      if !e.synced {
        var hit := local.MarkSynced(cam, e.t0);
        now := marked + {e.t0};
      }
      return;
    }
    var data := local.ReadSegmentBytes(cam, e.t0);
    if data.None? {
      return;
    }
    var written := remote.ImportSegment(cam, e.t0, e.t1, data.value);
    var hit := local.MarkSynced(cam, e.t0);
    now := marked + {e.t0};
    sent := 1;
  }

  /** The inner loop of a pass: one camera. */
  method SyncCamera(local: VideoStore, remote: VideoStore, cam: string, have: set<(string, int)>) returns (sent: nat)
    requires local != remote && cam in local.cams
    requires forall k :: (cam, k) in have <==> k in Keys(remote.Dir(cam))
    modifies local, remote
    ensures Passed(local.Dir(cam), remote.Dir(cam), old(local.Dir(cam)), old(remote.Dir(cam)))
    ensures SameBut(cam, local.cams, old(local.cams)) && SameBut(cam, remote.cams, old(remote.cams))
    ensures local.cams.Keys == old(local.cams.Keys)
    ensures sent == PendingCount(old(local.Dir(cam)), Keys(old(remote.Dir(cam))), old(local.Dir(cam)).index)
  {
    ghost var l0, r0, keys := local.Dir(cam), remote.Dir(cam), Keys(remote.Dir(cam));
    ghost var marked: set<int> := {};
    FlaggedFacts(l0, marked, 0);
    hide Read, Import, Mark, Keys, Confirmed, Flagged, Confirmable, Pending;
    var entries := local.Dir(cam).index;
    assert entries[0..] == entries;
    sent := 0;
    for i := 0 to |entries|
      invariant cam in local.cams && local.cams.Keys == old(local.cams.Keys)
      invariant local.Dir(cam) == Flagged(l0, marked)
      invariant MarkedUpTo(l0, keys, marked, i)
      invariant Pushed(l0, keys, remote.Dir(cam), entries[i..]) == AfterRemote(l0, r0)
      invariant sent + PendingCount(l0, keys, entries[i..]) == PendingCount(l0, keys, entries)
      invariant SameBut(cam, local.cams, old(local.cams)) && SameBut(cam, remote.cams, old(remote.cams))
    {
      var e := entries[i];
      assert entries[i..][0] == e && entries[i..][1..] == entries[i + 1..];
      ghost var before := marked;
      var n;
      n, marked := SyncEntry(local, remote, cam, have, e, l0, keys, marked);
      MarkedNext(l0, keys, before, marked, i);
      sent := sent + n;
    }
    FlaggedIsConfirmed(l0, keys, marked);
  }

  /** The keys flagged are those of confirmable entries, and cover the first n entries. */
  ghost predicate MarkedUpTo(c: Cam, have: set<int>, marked: set<int>, n: int) {
    && (forall j :: 0 <= j < n && j < |c.index| && Confirmable(c, have, c.index[j]) ==> c.index[j].synced || c.index[j].t0 in marked)
    && (forall j :: 0 <= j < |c.index| && c.index[j].t0 in marked ==> Confirmable(c, have, c.index[j]))
  }

  lemma MarkedNext(c: Cam, have: set<int>, marked: set<int>, now: set<int>, n: nat)
    requires n < |c.index| && MarkedUpTo(c, have, marked, n)
    requires var e := c.index[n];
             now == if Confirmable(c, have, e) && !(e.t0 in have && e.synced) then marked + {e.t0} else marked
    ensures MarkedUpTo(c, have, now, n + 1)
  {
    hide Read;
  }

  /** A second pass right after the first changes neither store; it sends nothing exactly
      when no readable segment the remote lacks is an empty file. */
  method SyncTwice(local: VideoStore, remote: VideoStore) returns (first: nat, second: nat)
    requires local != remote
    modifies local, remote
    ensures forall c :: Passed(local.Dir(c), remote.Dir(c), old(local.Dir(c)), old(remote.Dir(c)))
    ensures forall c :: Tidy(old(remote.Dir(c))) ==> Tidy(remote.Dir(c))
    ensures second == 0 <==> forall c, k :: !Hollow(old(local.Dir(c)), Keys(old(remote.Dir(c))), k)
  {
    ghost var local0, remote0 := local.cams, remote.cams;
    hide Tidy, Passed, CamPending, Hollow, Keys, TotalPending, Lists;
    ghost var order;
    first, order := SyncOnce(local, remote);
    ghost var local1, remote1 := local.cams, remote.cams;
    forall c
      ensures Passed(DirOf(local1, c), DirOf(remote1, c), DirOf(local1, c), DirOf(remote1, c))
      ensures Tidy(DirOf(remote0, c)) ==> Tidy(DirOf(remote1, c))
      ensures CamPending(local1, remote1, c) == 0 <==> forall k :: !Hollow(DirOf(local0, c), Keys(DirOf(remote0, c)), k)
    {
      assert local.Dir(c) == DirOf(local1, c) && old(remote.Dir(c)) == DirOf(remote0, c);
      PassAgain(local0, remote0, local1, remote1, c);
    }
    second, order := SyncOnce(local, remote);
    NothingPending(order, local1, remote1);
    AbsentCams(order, local1, remote1);
    forall c ensures local.Dir(c) == DirOf(local1, c) && remote.Dir(c) == DirOf(remote1, c) {
      PassedOneWay(local.Dir(c), remote.Dir(c), DirOf(local1, c), DirOf(remote1, c));
    }
  }

  lemma PassedOneWay(local: Cam, remote: Cam, local0: Cam, remote0: Cam)
    requires Passed(local, remote, local0, remote0) && Passed(local0, remote0, local0, remote0)
    ensures local == local0 && remote == remote0
  {
  }

  lemma PassAgain(local0: map<string, Cam>, remote0: map<string, Cam>, local1: map<string, Cam>, remote1: map<string, Cam>, c: string)
    requires Passed(DirOf(local1, c), DirOf(remote1, c), DirOf(local0, c), DirOf(remote0, c))
    ensures Passed(DirOf(local1, c), DirOf(remote1, c), DirOf(local1, c), DirOf(remote1, c))
    ensures Tidy(DirOf(remote0, c)) ==> Tidy(DirOf(remote1, c))
    ensures CamPending(local1, remote1, c) == 0 <==> forall k :: !Hollow(DirOf(local0, c), Keys(DirOf(remote0, c)), k)
  {
    hide Tidy, DirOf, Keys, Hollow, Pushed, Confirmed, PendingCount, Read;
    SecondPass(DirOf(local0, c), DirOf(remote0, c));
    PassDelivers(DirOf(local0, c), DirOf(remote0, c), 0);
  }

  /** A camera that has no directory has nothing pending. */
  lemma AbsentCams(order: seq<string>, local: map<string, Cam>, remote: map<string, Cam>)
    requires Lists(order, local.Keys)
    ensures (forall c :: c in order ==> CamPending(local, remote, c) == 0) <==> (forall c :: CamPending(local, remote, c) == 0)
  {
    forall c | c !in order ensures CamPending(local, remote, c) == 0 {
      NoCamPass(DirOf(remote, c));
    }
  }

  // ----- on-demand backfill -----

  /** The segment the peer can serve for instant t: its entry there and its bytes. */
  function Servable(remote: Cam, t: int): Option<(Entry, Bytes)> {
    var e := Q.EntryAt(remote.index, t);
    if e.None? then None
    else
      var data := Read(remote, e.value.t0);
      if data.None? then None else Some((e.value, data.value))
  }

  /** The backfill really lands: bytes, and a key the local index does not hold yet. */
  predicate Lands(local: Cam, remote: Cam, t: int) {
    var got := Servable(remote, t);
    got.Some? && got.value.1 != [] && got.value.0.t0 !in Keys(local)
  }

  /** The local directory after `backfill_at`. */
  function Backfilled(local: Cam, remote: Cam, t: int): Cam {
    var got := Servable(remote, t);
    if Q.EntryAt(local.index, t).Some? || got.None? then local
    else Import(local, got.value.0.t0, got.value.0.t1, got.value.1)
  }

  lemma ImportHolds(c: Cam, t0: int, t1: int, data: Bytes)
    requires data != [] && t0 !in Keys(c)
    ensures exists e :: e in Import(c, t0, t1, data).index && e.t0 == t0 && e.t1 == t1
  {
    var files := c.files[Seg(t0) := data];
    var e := Entry(t0, t1, Seg(t0), |data|, false);
    var grown := Commit(c.(files := files), t0, t1, Seg(t0)).index;
    S.SortMembers(BY_START, c.index + [e]);
    assert e in c.index + [e];
    var i :| 0 <= i < |grown| && grown[i] == e;
    assert Flag(grown, t0)[i] in Import(c, t0, t1, data).index;
  }

  /** After a backfill the instant is covered exactly if it was before, or the peer's
      segment landed. Footage the peer has is not enough: its file must be readable and not
      empty, and the local index must hold no segment with the same start. */
  lemma BackfillCovers(local: Cam, remote: Cam, t: int)
    ensures Q.EntryAt(Backfilled(local, remote, t).index, t).Some? <==>
              Q.EntryAt(local.index, t).Some? || Lands(local, remote, t)
  {
    hide Import, Read, Keys;
    var r := Backfilled(local, remote, t);
    Q.EntryAtFacts(local.index, t);
    Q.EntryAtFacts(remote.index, t);
    Q.EntryAtFacts(r.index, t);
    if Q.EntryAt(local.index, t).None? && Servable(remote, t).Some? {
      var got := Servable(remote, t).value;
      if !Lands(local, remote, t) {
        ImportNothing(local, got.0.t0, got.0.t1, got.1);
      } else {
        ImportHolds(local, got.0.t0, got.0.t1, got.1);
        var e :| e in r.index && e.t0 == got.0.t0 && e.t1 == got.0.t1;
        assert Q.At(e, t);
      }
    }
  }

  /** What a backfill brings in: where the local index has no segment at t, the peer's
      readable segment there is imported under its own start and end, with the peer's bytes. */
  lemma BackfillBrings(local: Cam, remote: Cam, t: int)
    ensures Q.EntryAt(local.index, t).Some? ==> Backfilled(local, remote, t) == local
    ensures Q.EntryAt(local.index, t).None? && Lands(local, remote, t) ==>
              exists e :: e in remote.index && e.t0 <= t < e.t1 && Read(remote, e.t0).Some?
                && Read(Backfilled(local, remote, t), e.t0) == Read(remote, e.t0)
                && forall x :: x in Backfilled(local, remote, t).index <==>
                               x in local.index || x == Entry(e.t0, e.t1, Seg(e.t0), |Read(remote, e.t0).value|, true)
  {
    Q.EntryAtFacts(remote.index, t);
    if Q.EntryAt(local.index, t).None? && Lands(local, remote, t) {
      var got := Servable(remote, t).value;
      ImportFacts(local, got.0.t0, got.0.t1, got.1);
      hide Import, Read, Keys;
      assert got.0 in remote.index && Q.At(got.0, t);
      assert Backfilled(local, remote, t) == Import(local, got.0.t0, got.0.t1, got.1);
    }
  }

  lemma ImportNothing(c: Cam, t0: int, t1: int, data: Bytes)
    requires data == [] || t0 in Keys(c)
    ensures Import(c, t0, t1, data) == c
  {
  }

  /** `backfill_at` against an in-process peer. */
  method BackfillAt(local: VideoStore, remote: VideoStore, cam: string, t: int) returns (r: Option<Entry>)
    requires local != remote
    modifies local
    ensures local.Dir(cam) == Backfilled(old(local.Dir(cam)), remote.Dir(cam), t)
    ensures SameBut(cam, local.cams, old(local.cams))
    ensures r == Q.EntryAt(local.Dir(cam).index, t)
    ensures r.Some? <==> Q.EntryAt(old(local.Dir(cam)).index, t).Some? || Lands(old(local.Dir(cam)), remote.Dir(cam), t)
  {
    BackfillCovers(local.Dir(cam), remote.Dir(cam), t);
    hide Import, Read, Keys, Lands;
    r := Q.SegmentEntryAt(local.Dir(cam).index, t);
    if r.Some? {
      return;
    }
    var there := Q.SegmentEntryAt(remote.Dir(cam).index, t);
    if there.None? {
      return;
    }
    var data := remote.ReadSegmentBytes(cam, there.value.t0);
    if data.None? {
      return;
    }
    var written := local.ImportSegment(cam, there.value.t0, there.value.t1, data.value);
    r := Q.SegmentEntryAt(local.Dir(cam).index, t);
  }
}
