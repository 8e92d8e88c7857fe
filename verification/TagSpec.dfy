/** The tag store (ferrodac/core/markers.py) as functions on values: tags keyed by id,
    merged by version, deletes kept as tombstones. */
module TagSpec {
  import opened Values

  const MEDIA := "media"

  /** `body` stands for the fields the merge never looks at (label, comment, colour, ...). */
  datatype Tag = Tag(id: string, t: real, kind: string, origin: string, body: string,
                     version: int, deleted: bool, immutable: Option<bool>)

  type Store = map<string, Tag>

  /** `is_movable` (ferrodac/core/tag.py:81-94): the flag decides when present. */
  predicate Movable(m: Tag) {
    match m.immutable
    case Some(b) => !b
    case None => m.kind != MEDIA && m.origin !in ["device", "processor", "system"]
  }

  /** The guard shared by `upsert` and `upsert_local`. */
  predicate Accepts(s: Store, m: Tag) {
    m.id !in s ||
    (m.version >= s[m.id].version && (m.version != s[m.id].version || m.deleted || s[m.id].deleted))
  }

  function Upsert(s: Store, m: Tag): Store {
    if Accepts(s, m) then s[m.id := m] else s
  }

  function UpsertLocal(s: Store, m: Tag): Store {
    if Accepts(s, m) then s[m.id := m.(version := m.version + 1)] else s
  }

  /** A locally created tag: version 1, then announced; the time is fixed by kind and
      origin unless the caller says otherwise. */
  function Created(m: Tag): Tag {
    var made := m.(version := 1, deleted := false);
    var fixed := match m.immutable case Some(b) => b case None => !Movable(made);
    made.(immutable := Some(fixed), version := 2)
  }

  function Add(s: Store, m: Tag): Store { s[m.id := Created(m)] }

  function Remove(s: Store, id: string): Store {
    if id !in s || s[id].deleted then s else s[id := s[id].(deleted := true, version := s[id].version + 1)]
  }

  function Move(s: Store, id: string, t: real): Store {
    if id in s && Movable(s[id]) then s[id := s[id].(t := t, version := s[id].version + 1)] else s
  }

  // ----- versions along a run -----

  datatype Op = OpAdd(m: Tag) | OpRemove(id: string) | OpMove(id: string, t: real) | OpUpsert(m: Tag) | OpUpsertLocal(m: Tag)

  function Step(s: Store, op: Op): Store {
    match op
    case OpAdd(m) => Add(s, m)
    case OpRemove(id) => Remove(s, id)
    case OpMove(id, t) => Move(s, id, t)
    case OpUpsert(m) => Upsert(s, m)
    case OpUpsertLocal(m) => UpsertLocal(s, m)
  }

  /** An `add` under the id of a tag that has been edited since its own creation. */
  predicate Clobbers(s: Store, op: Op, id: string) {
    op.OpAdd? && op.m.id == id && id in s && s[id].version > 2
  }

  /** No id is ever lost, and its version drops in exactly one case. */
  lemma VersionDropsOnlyByClobber(s: Store, op: Op, id: string)
    requires id in s
    ensures id in Step(s, op)
    ensures Step(s, op)[id].version < s[id].version <==> Clobbers(s, op, id)
  {
  }

  // ----- what one operation does -----

  /** Every tag but this one is as it was. */
  ghost predicate OnlyChanges(s: Store, r: Store, id: string) {
    forall k :: k != id ==> (k in r <==> k in s) && (k in s ==> r[k] == s[k])
  }

  /** The two tags agree in all that no local edit touches. */
  predicate SameTag(a: Tag, b: Tag) {
    a.id == b.id && a.kind == b.kind && a.origin == b.origin && a.body == b.body && a.immutable == b.immutable
  }

  /** A remove leaves a tombstone at the same time, one version up if the tag was live. */
  lemma RemoveDoes(s: Store, id: string)
    ensures OnlyChanges(s, Step(s, OpRemove(id)), id)
    ensures id in Step(s, OpRemove(id)) <==> id in s
    ensures id in s ==>
              var r := Step(s, OpRemove(id))[id];
              r.deleted && SameTag(r, s[id]) && r.t == s[id].t && r.version == s[id].version + (if s[id].deleted then 0 else 1)
  {
  }

  /** A move sets the time of a movable tag and raises its version; a fixed tag, or none at
      all, is left alone. Movable is what the flag says or, without one, anything but media
      and what a device, a processor or the system emitted. */
  lemma MoveDoes(s: Store, id: string, t: real)
    ensures OnlyChanges(s, Step(s, OpMove(id, t)), id)
    ensures id in Step(s, OpMove(id, t)) <==> id in s
    ensures id in s ==>
              var m, r := s[id], Step(s, OpMove(id, t))[id];
              if m.immutable == Some(false)
                 || (m.immutable == None && m.kind != "media" && m.origin != "device" && m.origin != "processor" && m.origin != "system")
              then SameTag(r, m) && r.deleted == m.deleted && r.t == t && r.version == m.version + 1
              else r == m
  {
  }

  /** An add stores a live tag of version 2 with the caller's content, fixed in time as the
      caller says or, if he says nothing, by kind and origin. */
  lemma AddDoes(s: Store, m: Tag)
    ensures OnlyChanges(s, Step(s, OpAdd(m)), m.id)
    ensures m.id in Step(s, OpAdd(m))
    ensures var r := Step(s, OpAdd(m))[m.id];
            && r.id == m.id && r.t == m.t && r.kind == m.kind && r.origin == m.origin && r.body == m.body
            && r.version == 2 && !r.deleted
            && r.immutable == Some(if m.immutable.Some? then m.immutable.value
                                   else m.kind == "media" || m.origin == "device" || m.origin == "processor" || m.origin == "system")
  {
  }

  /** A merge takes the incoming tag exactly if the id is new, its version is higher, or
      versions tie and one of the two is deleted; a local one then raises its version. */
  lemma MergeDoes(s: Store, m: Tag)
    ensures OnlyChanges(s, Step(s, OpUpsert(m)), m.id) && OnlyChanges(s, Step(s, OpUpsertLocal(m)), m.id)
    ensures m.id in Step(s, OpUpsert(m)) && m.id in Step(s, OpUpsertLocal(m))
    ensures if m.id in s && (m.version < s[m.id].version || (m.version == s[m.id].version && !m.deleted && !s[m.id].deleted))
            then Step(s, OpUpsert(m))[m.id] == s[m.id] && Step(s, OpUpsertLocal(m))[m.id] == s[m.id]
            else Step(s, OpUpsert(m))[m.id] == m && Step(s, OpUpsertLocal(m))[m.id] == m.(version := m.version + 1)
  {
  }

  function Run(s: Store, ops: seq<Op>): Store
    decreases |ops|
  {
    if ops == [] then s else Run(Step(s, ops[0]), ops[1..])
  }

  ghost predicate NeverClobbers(s: Store, ops: seq<Op>)
    decreases |ops|
  {
    ops == [] || ((forall id :: !Clobbers(s, ops[0], id)) && NeverClobbers(Step(s, ops[0]), ops[1..]))
  }

  lemma {:induction false} VersionsNeverDrop(s: Store, ops: seq<Op>, id: string)
    requires id in s && NeverClobbers(s, ops)
    ensures id in Run(s, ops) && Run(s, ops)[id].version >= s[id].version
    decreases |ops|
  {
    if ops != [] {
      VersionDropsOnlyByClobber(s, ops[0], id);
      assert !Clobbers(s, ops[0], id);
      VersionsNeverDrop(Step(s, ops[0]), ops[1..], id);
    }
  }

  /** A tombstone is only lifted by a merge or by creating the tag anew. */
  lemma DeletedStays(s: Store, op: Op, id: string)
    requires id in s && s[id].deleted && id in Step(s, op) && !Step(s, op)[id].deleted
    ensures (op.OpAdd? || op.OpUpsert? || op.OpUpsertLocal?) && op.m.id == id
    ensures !op.OpAdd? ==> op.m.version >= s[id].version && !op.m.deleted
  {
  }

  // ----- fixed instants -----

  /** A tag made by `add` can be moved exactly when the caller says so or, if it says
      nothing, when it is neither media nor emitted by a device, processor or system. */
  lemma CreatedMovable(m: Tag)
    ensures Movable(Created(m)) <==>
              m.immutable == Some(false) || (m.immutable == None && m.kind != MEDIA && m.origin !in ["device", "processor", "system"])
  {
  }

  /** The run makes or merges no tag under this id. */
  predicate LeavesAlone(ops: seq<Op>, id: string) {
    forall i :: 0 <= i < |ops| ==> (ops[i].OpAdd? || ops[i].OpUpsert? || ops[i].OpUpsertLocal?) ==> ops[i].m.id != id
  }

  /** No run of local edits shifts the time of a fixed tag, however often a move is tried. */
  lemma {:induction false} FixedTimeStays(s: Store, ops: seq<Op>, id: string)
    requires id in s && !Movable(s[id]) && LeavesAlone(ops, id)
    ensures id in Run(s, ops) && Run(s, ops)[id].t == s[id].t && !Movable(Run(s, ops)[id])
    decreases |ops|
  {
    if ops != [] {
      FixedTimeStays(Step(s, ops[0]), ops[1..], id);
    }
  }

  /** A tag made by `add` as media or as a device, processor or system event, and not said
      to be movable, keeps its instant whatever is edited locally afterwards. */
  lemma EmittedStays(s: Store, m: Tag, ops: seq<Op>)
    requires m.immutable == Some(true) || (m.immutable == None && (m.kind == MEDIA || m.origin in ["device", "processor", "system"]))
    requires LeavesAlone(ops, m.id)
    ensures m.id in Run(Add(s, m), ops) && Run(Add(s, m), ops)[m.id].t == m.t
  {
    CreatedMovable(m);
    FixedTimeStays(Add(s, m), ops, m.id);
  }

  /** No merge in the run is a live tag of this id and at least this version, and none is
      added anew. */
  predicate NothingNewer(ops: seq<Op>, id: string, version: int) {
    forall i :: 0 <= i < |ops| ==>
      && (ops[i].OpAdd? ==> ops[i].m.id != id)
      && ((ops[i].OpUpsert? || ops[i].OpUpsertLocal?) && ops[i].m.id == id ==> ops[i].m.deleted || ops[i].m.version < version)
  }

  /** A deleted tag stays deleted along any run of edits and of stale or deleting merges. */
  lemma {:induction false} TombstoneStays(s: Store, ops: seq<Op>, id: string)
    requires id in s && s[id].deleted && NothingNewer(ops, id, s[id].version)
    ensures id in Run(s, ops) && Run(s, ops)[id].deleted && Run(s, ops)[id].version >= s[id].version
    decreases |ops|
  {
    if ops != [] {
      var r := Step(s, ops[0]);
      if !r[id].deleted {
        DeletedStays(s, ops[0], id);
      }
      VersionDropsOnlyByClobber(s, ops[0], id);
      assert NothingNewer(ops[1..], id, r[id].version);
      TombstoneStays(r, ops[1..], id);
    }
  }

  // ----- replication -----

  function Feed(s: Store, l: seq<Tag>): Store
    decreases |l|
  {
    if l == [] then s else Feed(Upsert(s, l[0]), l[1..])
  }

  /** m has the highest version among the tags with its id. */
  predicate IsTop(l: set<Tag>, m: Tag) {
    m in l && forall n :: n in l && n.id == m.id ==> n.version <= m.version
  }

  function Elements(l: seq<Tag>): (r: set<Tag>)
    ensures forall m :: m in r <==> m in l
  {
    set m | m in l
  }

  /** Whatever the order, each id seen ends with a tag of its highest version. */
  ghost predicate HoldsTops(s: Store, seen: set<Tag>) {
    && (forall id :: id in s ==> s[id].id == id && IsTop(seen, s[id]))
    && (forall m :: m in seen ==> m.id in s)
  }

  lemma UpsertHoldsTops(s: Store, seen: set<Tag>, m: Tag)
    requires HoldsTops(s, seen)
    ensures HoldsTops(Upsert(s, m), seen + {m})
  {
  }

  lemma {:induction false} FeedHoldsTops(s: Store, seen: set<Tag>, l: seq<Tag>)
    requires HoldsTops(s, seen)
    ensures HoldsTops(Feed(s, l), seen + Elements(l))
    decreases |l|
  {
    hide Upsert, HoldsTops;
    if l == [] {
      assert seen + Elements(l) == seen;
    } else {
      UpsertHoldsTops(s, seen, l[0]);
      FeedHoldsTops(Upsert(s, l[0]), seen + {l[0]}, l[1..]);
      assert l == [l[0]] + l[1..];
      assert seen + {l[0]} + Elements(l[1..]) == seen + Elements(l);
    }
  }

  /** The tags of highest version agree per id: in particular when (id, version)
      determines the content. */
  ghost predicate Agreeing(tags: set<Tag>) {
    forall m, n :: IsTop(tags, m) && IsTop(tags, n) && m.id == n.id ==> m == n
  }

  /** Every way of delivering these tags, in any order and with any repetition, leads to
      one and the same store. */
  ghost predicate Converges(tags: set<Tag>) {
    forall l, k :: Elements(l) == tags && Elements(k) == tags ==> Feed(map[], l) == Feed(map[], k)
  }

  lemma {:induction false} FeedAppend(s: Store, l: seq<Tag>, m: Tag)
    ensures Feed(s, l + [m]) == Upsert(Feed(s, l), m)
    decreases |l|
  {
    if l == [] {
      assert [] + [m] == [m] && [m][1..] == [];
    } else {
      FeedAppend(Upsert(s, l[0]), l[1..], m);
      assert (l + [m])[1..] == l[1..] + [m];
    }
  }

  /** A live tag keeps its place against older tags and live tags of its own version. */
  lemma {:induction false} FirstLiveStays(s: Store, l: seq<Tag>, a: Tag)
    requires a.id in s && s[a.id] == a && !a.deleted
    requires forall m :: m in l && m.id == a.id ==> m.version < a.version || (m.version == a.version && !m.deleted)
    ensures a.id in Feed(s, l) && Feed(s, l)[a.id] == a
    decreases |l|
  {
    if l != [] {
      assert l[0] in l;
      FirstLiveStays(Upsert(s, l[0]), l[1..], a);
    }
  }

  lemma {:induction false} Enumerate(tags: set<Tag>) returns (l: seq<Tag>)
    ensures Elements(l) == tags
    decreases |tags|
  {
    if tags == {} {
      l := [];
    } else {
      var m :| m in tags;
      var rest := Enumerate(tags - {m});
      l := [m] + rest;
    }
  }

  /** Two different tags of highest version under one id can be delivered so that the
      replicas end up different. */
  lemma Disagree(tags: set<Tag>, a: Tag, b: Tag) returns (l: seq<Tag>, k: seq<Tag>)
    requires IsTop(tags, a) && IsTop(tags, b) && a.id == b.id && a != b
    ensures Elements(l) == tags && Elements(k) == tags && Feed(map[], l) != Feed(map[], k)
  {
    var e := Enumerate(tags);
    if exists c :: IsTop(tags, c) && c.id == a.id && c.deleted {
      var c :| IsTop(tags, c) && c.id == a.id && c.deleted;
      var d := if a == c then b else a;
      l, k := e + [c], e + [c] + [d];
      LastWins(tags, e, c, d);
    } else {
      l, k := [a] + e, [b] + e;
      assert l[1..] == e && k[1..] == e;
      FirstLiveStays(map[a.id := a], e, a);
      FirstLiveStays(map[b.id := b], e, b);
    }
  }

  /** At equal versions a deleted tag and whatever follows it are taken in turn. */
  lemma LastWins(tags: set<Tag>, e: seq<Tag>, c: Tag, d: Tag)
    requires Elements(e) == tags && IsTop(tags, c) && IsTop(tags, d) && c.id == d.id && c.deleted
    ensures c.id in Feed(map[], e + [c]) && Feed(map[], e + [c])[c.id] == c
    ensures c.id in Feed(map[], e + [c] + [d]) && Feed(map[], e + [c] + [d])[c.id] == d
  {
    hide Feed, Elements;
    assert HoldsTops(map[], {});
    FeedHoldsTops(map[], {}, e);
    assert {} + Elements(e) == tags;
    FeedAppend(map[], e, c);
    FeedAppend(map[], e + [c], d);
  }

  /** Replicas converge exactly when the newest versions agree; older versions, order and
      repetition never matter. */
  lemma ConvergesIffAgreeing(tags: set<Tag>)
    ensures Converges(tags) <==> Agreeing(tags)
  {
    if Agreeing(tags) {
      forall l, k | Elements(l) == tags && Elements(k) == tags ensures Feed(map[], l) == Feed(map[], k) {
        FeedHoldsTops(map[], {}, l);
        FeedHoldsTops(map[], {}, k);
        assert {} + Elements(l) == tags && {} + Elements(k) == tags;
        TopsUnique(tags, Feed(map[], l), Feed(map[], k));
      }
    } else {
      var a, b :| IsTop(tags, a) && IsTop(tags, b) && a.id == b.id && a != b;
      var l, k := Disagree(tags, a, b);
    }
  }

  lemma TopsUnique(tags: set<Tag>, s: Store, r: Store)
    requires HoldsTops(s, tags) && HoldsTops(r, tags) && Agreeing(tags)
    ensures s == r
  {
    forall id ensures id in s <==> id in r {
      if id in s { assert s[id] in tags; }
      if id in r { assert r[id] in tags; }
    }
    forall id | id in s && id in r ensures s[id] == r[id] {
      assert IsTop(tags, s[id]) && IsTop(tags, r[id]);
    }
  }
}
