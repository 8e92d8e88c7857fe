/** One camera directory of the ambient video store (ferrodac/core/videostore.py) and the
    store-and-forward pass over it (ferrodac/core/videosync.py), as functions on values.
    Times are integer milliseconds, so a segment's key is its start. */
module VideoSpec {
  import opened Values
  import opened Sorting

  type Bytes = seq<bv8>

  /** `segment_path` names a file after its start; a committed file may have any name. */
  datatype FileName = Seg(ms: int) | Other(name: string)

  datatype Entry = Entry(t0: int, t1: int, file: FileName, size: nat, synced: bool)

  /** A camera directory: its index.json, if there is one, and its files. */
  datatype Cam = Cam(indexed: bool, index: seq<Entry>, files: map<FileName, Bytes>)

  const NO_CAM := Cam(false, [], map[])

  const BY_START: (Entry, Entry) -> bool := (p: Entry, q: Entry) => p.t0 <= q.t0

  function KeysOf(index: seq<Entry>): (r: set<int>)
  {
    set e | e in index :: e.t0
  }

  function Keys(c: Cam): set<int> { KeysOf(c.index) }

  // ----- one directory -----

  function Commit(c: Cam, t0: int, t1: int, f: FileName): Cam {
    if f !in c.files || c.files[f] == [] then c
    else c.(indexed := true, index := Sort(BY_START, c.index + [Entry(t0, t1, f, |c.files[f]|, false)]))
  }

  function Flag(index: seq<Entry>, key: int): (r: seq<Entry>)
    ensures |r| == |index|
  {
    seq(|index|, i requires 0 <= i < |index| => if index[i].t0 == key then index[i].(synced := true) else index[i])
  }

  function Mark(c: Cam, key: int): Cam { c.(index := Flag(c.index, key)) }

  /** The file name in the first entry under this key. */
  function FileOf(index: seq<Entry>, key: int): Option<FileName> {
    if index == [] then None else if index[0].t0 == key then Some(index[0].file) else FileOf(index[1..], key)
  }

  /** That file, if there is an entry and it can be read. */
  function Read(c: Cam, key: int): Option<Bytes> {
    var f := FileOf(c.index, key);
    if f.Some? && f.value in c.files then Some(c.files[f.value]) else None
  }

  function Import(c: Cam, t0: int, t1: int, data: Bytes): Cam {
    if data == [] || t0 in Keys(c) then c
    else Mark(Commit(c.(files := c.files[Seg(t0) := data]), t0, t1, Seg(t0)), t0)
  }

  // ----- one pass over one camera -----

  /** Entry e is uploaded: the remote did not report it and its file can be read. */
  predicate Pending(local: Cam, have: set<int>, e: Entry) { e.t0 !in have && Read(local, e.t0).Some? }

  function Pushed(local: Cam, have: set<int>, remote: Cam, todo: seq<Entry>): Cam
    decreases |todo|
  {
    if todo == [] then remote
    else if Pending(local, have, todo[0])
    then Pushed(local, have, Import(remote, todo[0].t0, todo[0].t1, Read(local, todo[0].t0).value), todo[1..])
    else Pushed(local, have, remote, todo[1..])
  }

  function PendingCount(local: Cam, have: set<int>, todo: seq<Entry>): nat {
    if todo == [] then 0 else (if Pending(local, have, todo[0]) then 1 else 0) + PendingCount(local, have, todo[1..])
  }

  /** The local flags after a pass: confirmed by the remote's report, or just uploaded. */
  function Confirmed(local: Cam, have: set<int>): Cam {
    local.(index := seq(|local.index|, i requires 0 <= i < |local.index| =>
      if local.index[i].t0 in have || Read(local, local.index[i].t0).Some? then local.index[i].(synced := true) else local.index[i]))
  }

  // ----- facts about the index -----

  predicate SortedIndex(index: seq<Entry>) { SortedBy(BY_START, index) }

  predicate UniqueKeys(index: seq<Entry>) { forall i, j :: 0 <= i < j < |index| ==> index[i].t0 != index[j].t0 }

  /** Files are named after their segment, as `segment_path` does. */
  predicate WellNamed(c: Cam) { forall i :: 0 <= i < |c.index| ==> c.index[i].file == Seg(c.index[i].t0) }

  lemma KeysOfFacts(index: seq<Entry>, k: int)
    ensures k in KeysOf(index) <==> exists i :: 0 <= i < |index| && index[i].t0 == k
  {
    if k in KeysOf(index) {
      var e :| e in index && e.t0 == k;
      var i :| 0 <= i < |index| && index[i] == e;
      assert index[i].t0 == k;
    }
    if exists i :: 0 <= i < |index| && index[i].t0 == k {
      var i :| 0 <= i < |index| && index[i].t0 == k;
      assert index[i] in index;
    }
  }

  lemma FlagKeys(index: seq<Entry>, key: int)
    ensures KeysOf(Flag(index, key)) == KeysOf(index)
    ensures SortedIndex(index) ==> SortedIndex(Flag(index, key))
    ensures UniqueKeys(index) ==> UniqueKeys(Flag(index, key))
  {
    var r := Flag(index, key);
    assert forall i :: 0 <= i < |r| ==> r[i].t0 == index[i].t0;
    forall k ensures k in KeysOf(r) <==> k in KeysOf(index) {
      KeysOfFacts(r, k);
      KeysOfFacts(index, k);
    }
  }

  /** A lookup sees only starts and file names. */
  lemma {:induction false} SameFile(p: seq<Entry>, q: seq<Entry>, k: int)
    requires |p| == |q| && forall i :: 0 <= i < |p| ==> p[i].t0 == q[i].t0 && p[i].file == q[i].file
    ensures FileOf(p, k) == FileOf(q, k)
  {
    if p != [] {
      assert forall i :: 0 <= i < |p[1..]| ==> p[1..][i] == p[i + 1] && q[1..][i] == q[i + 1];
      SameFile(p[1..], q[1..], k);
    }
  }

  lemma {:induction false} HasFile(index: seq<Entry>, k: int)
    ensures FileOf(index, k).Some? <==> k in KeysOf(index)
  {
    KeysOfFacts(index, k);
    if index != [] {
      HasFile(index[1..], k);
      KeysOfFacts(index[1..], k);
      assert forall i :: 0 <= i < |index[1..]| ==> index[1..][i] == index[i + 1];
    }
  }

  /** An inserted entry goes before those of its own start, so it is found first. */
  lemma {:induction false} InsertFile(e: Entry, index: seq<Entry>, k: int)
    ensures FileOf(Insert(BY_START, e, index), k) == if k == e.t0 then Some(e.file) else FileOf(index, k)
  {
    if index == [] || e.t0 <= index[0].t0 {
      assert ([e] + index)[1..] == index;
    } else {
      InsertFile(e, index[1..], k);
      var r := Insert(BY_START, e, index);
      assert r[0] == index[0] && r[1..] == Insert(BY_START, e, index[1..]);
    }
  }

  /** Sorting is stable, so it changes no lookup, also where a key is repeated. */
  lemma {:induction false} SortFile(index: seq<Entry>, k: int)
    ensures FileOf(Sort(BY_START, index), k) == FileOf(index, k)
  {
    if index != [] {
      SortFile(index[1..], k);
      InsertFile(index[0], Sort(BY_START, index[1..]), k);
    }
  }

  lemma {:induction false} AppendFile(index: seq<Entry>, e: Entry, k: int)
    ensures FileOf(index + [e], k) == if FileOf(index, k).None? && k == e.t0 then Some(e.file) else FileOf(index, k)
  {
    if index == [] {
      assert [] + [e] == [e] && [e][1..] == [];
    } else {
      AppendFile(index[1..], e, k);
      assert (index + [e])[1..] == index[1..] + [e];
    }
  }

  /** A finished file that landed is indexed under its start, unconfirmed and with its real
      size; the entries stay, the index comes out in order, and no file changes. An absent or
      empty file changes nothing. */
  lemma CommitDoes(c: Cam, t0: int, t1: int, f: FileName)
    ensures f !in c.files || c.files[f] == [] ==> Commit(c, t0, t1, f) == c
    ensures f in c.files && c.files[f] != [] ==>
              var r := Commit(c, t0, t1, f);
              && r.indexed && r.files == c.files && SortedIndex(r.index)
              && multiset(r.index) == multiset(c.index) + multiset{Entry(t0, t1, f, |c.files[f]|, false)}
              && forall k :: FileOf(r.index, k) == if FileOf(c.index, k).None? && k == t0 then Some(f) else FileOf(c.index, k)
  {
    if f in c.files && c.files[f] != [] {
      var e := Entry(t0, t1, f, |c.files[f]|, false);
      var all := c.index + [e];
      assert TotalPreorder(BY_START);
      SortSorts(BY_START, all);
      SortPermutes(BY_START, all);
      forall k
        ensures FileOf(Sort(BY_START, all), k) == if FileOf(c.index, k).None? && k == t0 then Some(f) else FileOf(c.index, k)
      {
        SortFile(all, k);
        AppendFile(c.index, e, k);
      }
    }
  }

  /** Flagging a key touches nothing but the flag of its entries. */
  lemma MarkDoes(c: Cam, key: int)
    ensures var r := Mark(c, key);
            && r.indexed == c.indexed && r.files == c.files && |r.index| == |c.index|
            && forall i :: 0 <= i < |c.index| ==> r.index[i] == c.index[i].(synced := c.index[i].synced || c.index[i].t0 == key)
  {
  }

  // ----- importing a segment -----

  lemma {:induction false} InsertUnique(e: Entry, index: seq<Entry>)
    requires UniqueKeys(index) && e.t0 !in KeysOf(index)
    ensures UniqueKeys(Insert(BY_START, e, index))
  {
    KeysOfFacts(index, e.t0);
    if index != [] && e.t0 > index[0].t0 {
      var r := Insert(BY_START, e, index[1..]);
      TailUnique(index, e.t0);
      InsertUnique(e, index[1..]);
      InsertPermutes(BY_START, e, index[1..]);
      forall j | 0 <= j < |r| ensures r[j].t0 != index[0].t0 {
        assert r[j] in multiset(r);
        assert r[j] == e || r[j] in index[1..];
      }
    }
  }

  lemma TailUnique(index: seq<Entry>, k: int)
    requires index != [] && UniqueKeys(index) && k !in KeysOf(index)
    ensures UniqueKeys(index[1..]) && k !in KeysOf(index[1..])
    ensures forall x :: x in index[1..] ==> x.t0 != index[0].t0
  {
    assert forall i :: 0 <= i < |index[1..]| ==> index[1..][i] == index[i + 1];
    KeysOfFacts(index, k);
    KeysOfFacts(index[1..], k);
  }

  lemma {:induction false} SortUnique(index: seq<Entry>)
    requires UniqueKeys(index)
    ensures UniqueKeys(Sort(BY_START, index))
  {
    if index != [] {
      var t := index[1..];
      assert forall i :: 0 <= i < |t| ==> t[i] == index[i + 1];
      SortUnique(t);
      SortMembers(BY_START, t);
      InsertUnique(index[0], Sort(BY_START, t));
    }
  }

  /** An index that is sorted with unique keys and files named after their segments. */
  predicate Tidy(c: Cam) { SortedIndex(c.index) && UniqueKeys(c.index) && WellNamed(c) }

  /** The entry a new segment is committed under. */
  function NewEntry(t0: int, t1: int, data: Bytes): Entry { Entry(t0, t1, Seg(t0), |data|, false) }

  /** The index after importing a new segment. */
  function Grown(c: Cam, t0: int, t1: int, data: Bytes): seq<Entry> {
    Flag(Sort(BY_START, c.index + [NewEntry(t0, t1, data)]), t0)
  }

  lemma ImportIs(c: Cam, t0: int, t1: int, data: Bytes)
    requires data != [] && t0 !in Keys(c)
    ensures Import(c, t0, t1, data) == Cam(true, Grown(c, t0, t1, data), c.files[Seg(t0) := data])
  {
  }

  lemma GrownMembers(c: Cam, t0: int, t1: int, data: Bytes)
    requires t0 !in Keys(c)
    ensures var r := Grown(c, t0, t1, data);
            && (forall x :: x in r <==> x == NewEntry(t0, t1, data).(synced := true) || x in c.index)
            && KeysOf(r) == KeysOf(c.index) + {t0}
  {
    var e, r := NewEntry(t0, t1, data), Grown(c, t0, t1, data);
    var s := Sort(BY_START, c.index + [e]);
    SortMembers(BY_START, c.index + [e]);
    forall x ensures x in r <==> x == e.(synced := true) || x in c.index {
      if x in r {
        var i :| 0 <= i < |r| && r[i] == x;
        assert s[i] in c.index + [e];
        assert s[i] in c.index ==> s[i].t0 in Keys(c);
      }
      if x == e.(synced := true) || x in c.index {
        var y := if x in c.index then x else e;
        assert y in c.index + [e];
        var i :| 0 <= i < |s| && s[i] == y;
        assert y in c.index ==> y.t0 in Keys(c);
        assert r[i] == x;
      }
    }
    forall k ensures k in KeysOf(r) <==> k in KeysOf(c.index) + {t0} {
      if k == t0 {
        assert e.(synced := true) in r;
      }
    }
  }

  lemma GrownFile(c: Cam, t0: int, t1: int, data: Bytes, k: int)
    requires t0 !in Keys(c)
    ensures FileOf(Grown(c, t0, t1, data), k) == if k == t0 then Some(Seg(t0)) else FileOf(c.index, k)
  {
    var e := NewEntry(t0, t1, data);
    SameFile(Grown(c, t0, t1, data), Sort(BY_START, c.index + [e]), k);
    SortFile(c.index + [e], k);
    AppendFile(c.index, e, k);
    HasFile(c.index, t0);
  }

  lemma GrownTidy(c: Cam, t0: int, t1: int, data: Bytes)
    requires t0 !in Keys(c)
    ensures SortedIndex(Grown(c, t0, t1, data))
    ensures UniqueKeys(c.index) ==> UniqueKeys(Grown(c, t0, t1, data))
    ensures WellNamed(c) ==> forall f :: WellNamed(Cam(true, Grown(c, t0, t1, data), f))
  {
    var e := NewEntry(t0, t1, data);
    var grown, r := c.index + [e], Grown(c, t0, t1, data);
    assert TotalPreorder(BY_START);
    SortSorts(BY_START, grown);
    FlagKeys(Sort(BY_START, grown), t0);
    KeysOfFacts(c.index, t0);
    if UniqueKeys(c.index) {
      SortUnique(grown);
    }
    GrownMembers(c, t0, t1, data);
    if WellNamed(c) {
      forall i | 0 <= i < |r| ensures r[i].file == Seg(r[i].t0) {
        assert r[i] in r;
      }
    }
  }

  /** A new key is added with exactly these bytes and confirmed, and the index comes out in
      order of start. Every entry held stays, and with it its bytes, unless its file bears
      the name of the new segment: then it now has the new bytes. Importing nothing, or a
      held key, changes nothing. */
  lemma ImportFacts(c: Cam, t0: int, t1: int, data: Bytes)
    ensures data == [] || t0 in Keys(c) ==> Import(c, t0, t1, data) == c
    ensures data != [] && t0 !in Keys(c) ==>
              var r := Import(c, t0, t1, data);
              && Keys(r) == Keys(c) + {t0} && Read(r, t0) == Some(data)
              && (forall x :: x in r.index <==> x in c.index || x == Entry(t0, t1, Seg(t0), |data|, true))
              && (forall k :: FileOf(r.index, k) == if k == t0 then Some(Seg(t0)) else FileOf(c.index, k))
              && r.files == c.files[Seg(t0) := data]
              && SortedIndex(r.index) && (UniqueKeys(c.index) ==> UniqueKeys(r.index)) && (WellNamed(c) ==> WellNamed(r))
    ensures forall k :: k in Keys(c) ==>
              Read(Import(c, t0, t1, data), k) ==
                if data != [] && t0 !in Keys(c) && FileOf(c.index, k) == Some(Seg(t0)) then Some(data) else Read(c, k)
  {
    if data != [] && t0 !in Keys(c) {
      ImportIs(c, t0, t1, data);
      GrownMembers(c, t0, t1, data);
      GrownTidy(c, t0, t1, data);
      hide Grown, Import, SortedIndex, UniqueKeys, WellNamed, FileOf, KeysOf;
      forall k ensures FileOf(Grown(c, t0, t1, data), k) == if k == t0 then Some(Seg(t0)) else FileOf(c.index, k) {
        GrownFile(c, t0, t1, data, k);
      }
      HasNoFile(c, t0);
    }
  }

  lemma HasNoFile(c: Cam, t0: int)
    requires t0 !in Keys(c)
    ensures FileOf(c.index, t0).None?
  {
    HasFile(c.index, t0);
  }

  // ----- a pass -----

  /** Entry e has key k and is uploaded with content. */
  predicate Carries(local: Cam, have: set<int>, e: Entry, k: int) {
    e.t0 == k && Pending(local, have, e) && Read(local, k) != Some([])
  }

  predicate Delivers(local: Cam, have: set<int>, todo: seq<Entry>, k: int) {
    exists i :: 0 <= i < |todo| && Carries(local, have, todo[i], k)
  }

  /** Key m arrives with the pass. */
  predicate Arrives(local: Cam, have: set<int>, remote: Cam, todo: seq<Entry>, m: int) {
    m !in Keys(remote) && Delivers(local, have, todo, m)
  }

  /** What arrived is indexed under its own name; every entry is as it was. */
  ghost predicate IndexAdvanced(local: Cam, have: set<int>, remote: Cam, todo: seq<Entry>, r: Cam) {
    && (forall k :: k in Keys(r) <==> k in Keys(remote) || Arrives(local, have, remote, todo, k))
    && (forall x :: x in remote.index ==> x in r.index)
    && (forall k :: FileOf(r.index, k) == if Arrives(local, have, remote, todo, k) then Some(Seg(k)) else FileOf(remote.index, k))
  }

  /** What arrived is stored with the local bytes; every other file is as it was. */
  ghost predicate FilesAdvanced(local: Cam, have: set<int>, remote: Cam, todo: seq<Entry>, r: Cam) {
    forall f: FileName ::
      if f.Seg? && Arrives(local, have, remote, todo, f.ms) then f in r.files && Some(r.files[f]) == Read(local, f.ms)
      else (f in r.files <==> f in remote.files) && (f in r.files ==> r.files[f] == remote.files[f])
  }

  predicate ShapeKept(remote: Cam, r: Cam) {
    && (SortedIndex(remote.index) ==> SortedIndex(r.index))
    && (UniqueKeys(remote.index) ==> UniqueKeys(r.index))
    && (WellNamed(remote) ==> WellNamed(r))
  }

  /** r is the remote after these entries were walked. */
  ghost predicate Advanced(local: Cam, have: set<int>, remote: Cam, todo: seq<Entry>, r: Cam) {
    IndexAdvanced(local, have, remote, todo, r) && FilesAdvanced(local, have, remote, todo, r) && ShapeKept(remote, r)
  }

  lemma {:induction false} PushedFacts(local: Cam, have: set<int>, remote: Cam, todo: seq<Entry>)
    ensures Advanced(local, have, remote, todo, Pushed(local, have, remote, todo))
    decreases |todo|
  {
    hide Advanced, Import, Read, Keys;
    if todo == [] {
      AdvancedNone(local, have, remote);
    } else {
      var e, rest := todo[0], todo[1..];
      if Pending(local, have, e) {
        var mid := Import(remote, e.t0, e.t1, Read(local, e.t0).value);
        PushedFacts(local, have, mid, rest);
        AdvancedStep(local, have, remote, mid, todo, Pushed(local, have, mid, rest));
      } else {
        PushedFacts(local, have, remote, rest);
        AdvancedSkip(local, have, remote, todo, Pushed(local, have, remote, rest));
      }
    }
  }

  lemma AdvancedNone(local: Cam, have: set<int>, remote: Cam)
    ensures Advanced(local, have, remote, [], remote)
  {
    hide Read, SortedIndex, UniqueKeys, WellNamed;
  }

  /** An entry that carries nothing new to the remote can be left out. */
  lemma AdvancedSkip(local: Cam, have: set<int>, remote: Cam, todo: seq<Entry>, r: Cam)
    requires todo != [] && Advanced(local, have, remote, todo[1..], r)
    requires !Carries(local, have, todo[0], todo[0].t0) || todo[0].t0 in Keys(remote)
    ensures Advanced(local, have, remote, todo, r)
  {
    hide Read, SortedIndex, UniqueKeys, WellNamed, Delivers, FileOf, KeysOf;
    DeliversStep(local, have, todo);
    assert forall m :: Arrives(local, have, remote, todo, m) <==> Arrives(local, have, remote, todo[1..], m);
    hide Arrives;
  }

  lemma AdvancedStep(local: Cam, have: set<int>, remote: Cam, mid: Cam, todo: seq<Entry>, r: Cam)
    requires todo != [] && Pending(local, have, todo[0])
    requires mid == Import(remote, todo[0].t0, todo[0].t1, Read(local, todo[0].t0).value)
    requires Advanced(local, have, mid, todo[1..], r)
    ensures Advanced(local, have, remote, todo, r)
  {
    var e, data := todo[0], Read(local, todo[0].t0).value;
    ImportFacts(remote, e.t0, e.t1, data);
    if data == [] || e.t0 in Keys(remote) {
      AdvancedSkip(local, have, remote, todo, r);
    } else {
      ArrivesStep(local, have, remote, mid, todo);
      hide Import, SortedIndex, UniqueKeys, WellNamed;
      assert ShapeKept(remote, mid);
      StepIndex(local, have, remote, mid, todo, r);
      StepFiles(local, have, remote, mid, todo, r);
    }
  }

  /** With a new segment in front, it arrives first and the others as from there. */
  ghost predicate FirstArrives(local: Cam, have: set<int>, remote: Cam, mid: Cam, todo: seq<Entry>)
    requires todo != []
  {
    forall m :: Arrives(local, have, remote, todo, m) <==> m == todo[0].t0 || Arrives(local, have, mid, todo[1..], m)
  }

  lemma ArrivesStep(local: Cam, have: set<int>, remote: Cam, mid: Cam, todo: seq<Entry>)
    requires todo != [] && Carries(local, have, todo[0], todo[0].t0) && todo[0].t0 !in Keys(remote)
    requires Keys(mid) == Keys(remote) + {todo[0].t0}
    ensures FirstArrives(local, have, remote, mid, todo)
  {
    hide Delivers, Keys;
    DeliversStep(local, have, todo);
  }

  lemma StepIndex(local: Cam, have: set<int>, remote: Cam, mid: Cam, todo: seq<Entry>, r: Cam)
    requires todo != [] && FirstArrives(local, have, remote, mid, todo) && IndexAdvanced(local, have, mid, todo[1..], r)
    requires Keys(mid) == Keys(remote) + {todo[0].t0} && forall x :: x in remote.index ==> x in mid.index
    requires forall k :: FileOf(mid.index, k) == if k == todo[0].t0 then Some(Seg(k)) else FileOf(remote.index, k)
    ensures IndexAdvanced(local, have, remote, todo, r)
  {
    hide Arrives, Keys, FileOf;
  }

  lemma StepFiles(local: Cam, have: set<int>, remote: Cam, mid: Cam, todo: seq<Entry>, r: Cam)
    requires todo != [] && FirstArrives(local, have, remote, mid, todo) && FilesAdvanced(local, have, mid, todo[1..], r)
    requires Read(local, todo[0].t0).Some? && mid.files == remote.files[Seg(todo[0].t0) := Read(local, todo[0].t0).value]
    ensures FilesAdvanced(local, have, remote, todo, r)
  {
    hide Arrives, Read;
  }

  lemma DeliversStep(local: Cam, have: set<int>, todo: seq<Entry>)
    requires todo != []
    ensures forall k :: Delivers(local, have, todo, k) <==> Carries(local, have, todo[0], k) || Delivers(local, have, todo[1..], k)
  {
    hide Carries;
    forall k
      ensures Delivers(local, have, todo, k) <==> Carries(local, have, todo[0], k) || Delivers(local, have, todo[1..], k)
    {
      if Delivers(local, have, todo[1..], k) {
        var i :| 0 <= i < |todo[1..]| && Carries(local, have, todo[1..][i], k);
        assert todo[i + 1] == todo[1..][i];
      }
    }
  }

  /** A readable segment the remote lacks whose file is empty: the upload is a no-op. */
  predicate Hollow(local: Cam, have: set<int>, k: int) {
    k in Keys(local) && k !in have && Read(local, k) == Some([])
  }

  /** What one pass leaves on both sides of a camera. */
  function AfterLocal(local: Cam, remote: Cam): Cam { Confirmed(local, Keys(remote)) }

  function AfterRemote(local: Cam, remote: Cam): Cam { Pushed(local, Keys(remote), remote, local.index) }

  lemma ConfirmedReads(local: Cam, have: set<int>)
    ensures Keys(Confirmed(local, have)) == Keys(local)
    ensures forall k :: Read(Confirmed(local, have), k) == Read(local, k)
  {
    var r := Confirmed(local, have);
    forall k
      ensures Read(r, k) == Read(local, k)
      ensures k in Keys(r) <==> k in Keys(local)
    {
      SameFile(r.index, local.index, k);
      HasFile(r.index, k);
      HasFile(local.index, k);
    }
  }

  lemma DeliversAll(local: Cam, have: set<int>, k: int)
    ensures Delivers(local, have, local.index, k) <==>
              k in Keys(local) && k !in have && Read(local, k).Some? && Read(local, k) != Some([])
  {
    hide Read;
    KeysOfFacts(local.index, k);
    if k in Keys(local) && k !in have && Read(local, k).Some? && Read(local, k) != Some([]) {
      var i :| 0 <= i < |local.index| && local.index[i].t0 == k;
      assert Carries(local, have, local.index[i], k);
    }
  }

  /** A pass changes nothing of the local side but the flags: an entry is flagged afterwards
      if it was, or the remote reported its key, or its file could be read. */
  lemma PassFlags(local: Cam, remote: Cam, i: nat)
    requires i < |local.index|
    ensures var l, e := AfterLocal(local, remote), local.index[i];
            && l.indexed == local.indexed && l.files == local.files && |l.index| == |local.index|
            && l.index[i] == e.(synced := e.synced || e.t0 in Keys(remote) || Read(local, e.t0).Some?)
  {
    hide Read, Keys;
  }

  /** What a pass sends: the entries the remote did not report whose file can be read. */
  lemma {:induction false} PendingIs(local: Cam, have: set<int>, todo: seq<Entry>, e: Entry)
    ensures PendingCount(local, have, []) == 0
    ensures PendingCount(local, have, todo + [e]) ==
              PendingCount(local, have, todo) + (if e.t0 !in have && Read(local, e.t0).Some? then 1 else 0)
  {
    hide Read;
    if todo == [] {
      assert [] + [e] == [e] && [e][1..] == [];
    } else {
      PendingIs(local, have, todo[1..], e);
      assert (todo + [e])[1..] == todo[1..] + [e];
    }
  }

  /** What can be read under a key: the file of its first entry, if it is there. */
  lemma {:induction false} ReadIs(c: Cam, k: int, i: nat)
    requires i < |c.index| && c.index[i].t0 == k && forall j :: 0 <= j < i ==> c.index[j].t0 != k
    ensures Read(c, k) == if c.index[i].file in c.files then Some(c.files[c.index[i].file]) else None
  {
    FirstFile(c.index, k, i);
  }

  lemma {:induction false} FirstFile(index: seq<Entry>, k: int, i: nat)
    requires i < |index| && index[i].t0 == k && forall j :: 0 <= j < i ==> index[j].t0 != k
    ensures FileOf(index, k) == Some(index[i].file)
  {
    if i > 0 {
      assert forall j :: 0 <= j < i - 1 ==> index[1..][j] == index[j + 1];
      FirstFile(index[1..], k, i - 1);
    }
  }

  /** Held entry k of the remote is stored under the name of a segment that arrives. */
  predicate Overwritten(local: Cam, remote: Cam, k: int) {
    var f := FileOf(remote.index, k);
    f.Some? && f.value.Seg? && Arrives(local, Keys(remote), remote, local.index, f.value.ms)
  }

  /** After a pass, whatever the remote looked like: every readable local segment is flagged;
      it is held by the remote exactly when its file is not empty or the remote had it before;
      what arrived is the local bytes; every entry of the remote stays, with its own bytes
      exactly as far as its file does not bear the name of a segment that arrived. A tidy
      remote stays tidy, and nothing in it is overwritten. */
  lemma PassDelivers(local: Cam, remote: Cam, k: int)
    ensures var l, r := AfterLocal(local, remote), AfterRemote(local, remote);
            && (k in Keys(local) && Read(local, k).Some? ==> forall i :: 0 <= i < |l.index| && l.index[i].t0 == k ==> l.index[i].synced)
            && (k in Keys(local) && Read(local, k).Some? ==> (k in Keys(r) <==> !Hollow(local, Keys(remote), k)))
            && (k in Keys(r) && k !in Keys(remote) ==> Read(r, k) == Read(local, k))
            && (forall x :: x in remote.index ==> x in r.index)
            && (k in Keys(remote) ==> Read(r, k) == if Overwritten(local, remote, k) then Read(local, FileOf(remote.index, k).value.ms) else Read(remote, k))
            && (Tidy(remote) ==> Tidy(r) && !Overwritten(local, remote, k))
  {
    PushedFacts(local, Keys(remote), remote, local.index);
    DeliversAll(local, Keys(remote), k);
    HasFile(remote.index, k);
    if k in Keys(remote) {
      NamedAfter(remote, k);
    }
    hide Keys, SortedIndex, UniqueKeys, WellNamed, FileOf, Pushed, Delivers;
  }

  lemma {:induction false} NamedAfter(c: Cam, k: int)
    requires k in Keys(c)
    ensures WellNamed(c) ==> FileOf(c.index, k) == Some(Seg(k))
  {
    HasFile(c.index, k);
    FileFrom(c.index, k);
  }

  lemma {:induction false} FileFrom(index: seq<Entry>, k: int)
    ensures FileOf(index, k).Some? ==> exists i :: 0 <= i < |index| && index[i].t0 == k && Some(index[i].file) == FileOf(index, k)
  {
    if index != [] && index[0].t0 != k {
      FileFrom(index[1..], k);
      if FileOf(index, k).Some? {
        var i :| 0 <= i < |index[1..]| && index[1..][i].t0 == k && Some(index[1..][i].file) == FileOf(index[1..], k);
        assert index[i + 1] == index[1..][i];
      }
    }
  }

  /** A second pass changes neither side, and sends exactly the hollow segments again. */
  lemma SecondPass(local: Cam, remote: Cam)
    ensures var l, r := AfterLocal(local, remote), AfterRemote(local, remote);
            AfterLocal(l, r) == l && AfterRemote(l, r) == r
    ensures var l, r := AfterLocal(local, remote), AfterRemote(local, remote);
            PendingCount(l, Keys(r), l.index) == 0 <==> forall k :: !Hollow(local, Keys(remote), k)
  {
    hide Read, Keys, Pushed, Confirmed, FileOf, SortedIndex, UniqueKeys, WellNamed;
    var l, r := AfterLocal(local, remote), AfterRemote(local, remote);
    ConfirmedReads(local, Keys(remote));
    PushedFacts(local, Keys(remote), remote, local.index);
    forall k ensures k in Keys(r) <==> k in Keys(remote) || (k in Keys(local) && Read(local, k).Some? && Read(local, k) != Some([])) {
      DeliversAll(local, Keys(remote), k);
      assert k in Keys(r) <==> k in Keys(remote) || Arrives(local, Keys(remote), remote, local.index, k);
    }
    forall k | k in Keys(remote) ensures k in Keys(r) {
      assert k in Keys(remote) || Arrives(local, Keys(remote), remote, local.index, k);
    }
    assert Keys(remote) <= Keys(r);
    hide Advanced, Delivers, Arrives;
    ConfirmedTwice(local, Keys(remote), Keys(r));
    EntryKeys(l);
    forall e | e in l.index && Pending(l, Keys(r), e) ensures Read(l, e.t0) == Some([]) {
      assert e.t0 in Keys(local);
    }
    NothingNew(l, Keys(r), r, l.index);
    forall k ensures Hollow(l, Keys(r), k) <==> Hollow(local, Keys(remote), k) {
    }
    NoneHollow(l, Keys(r));
  }

  lemma EntryKeys(c: Cam)
    ensures forall e :: e in c.index ==> e.t0 in Keys(c)
  {
  }

  lemma ConfirmedTwice(local: Cam, have: set<int>, more: set<int>)
    requires forall k :: k in more ==> k in have || Read(local, k).Some?
    requires have <= more
    ensures Confirmed(Confirmed(local, have), more) == Confirmed(local, have)
  {
    var l := Confirmed(local, have);
    ConfirmedReads(local, have);
    hide Read;
    assert Confirmed(l, more).index == l.index;
  }

  /** Only empty files are left to push, and pushing them does nothing. */
  lemma {:induction false} NothingNew(l: Cam, have: set<int>, r: Cam, todo: seq<Entry>)
    requires forall e :: e in todo && Pending(l, have, e) ==> Read(l, e.t0) == Some([])
    ensures Pushed(l, have, r, todo) == r
    decreases |todo|
  {
    hide Read, Pending;
    if todo != [] {
      assert todo[0] in todo && forall e :: e in todo[1..] ==> e in todo;
      if Pending(l, have, todo[0]) {
        ImportFacts(r, todo[0].t0, todo[0].t1, []);
      }
      NothingNew(l, have, r, todo[1..]);
    }
  }

  lemma {:induction false} CountZero(l: Cam, have: set<int>, todo: seq<Entry>)
    ensures PendingCount(l, have, todo) == 0 <==> forall e :: e in todo ==> !Pending(l, have, e)
  {
    hide Pending;
    if todo != [] {
      CountZero(l, have, todo[1..]);
      assert forall e :: e in todo <==> e == todo[0] || e in todo[1..];
    }
  }

  lemma NoneHollow(l: Cam, have: set<int>)
    requires forall e :: e in l.index && Pending(l, have, e) ==> Read(l, e.t0) == Some([])
    ensures PendingCount(l, have, l.index) == 0 <==> forall k :: !Hollow(l, have, k)
  {
    hide Read, PendingCount;
    CountZero(l, have, l.index);
    if PendingCount(l, have, l.index) == 0 {
      forall k ensures !Hollow(l, have, k) {
        if k in Keys(l) {
          var e :| e in l.index && e.t0 == k;
          assert !Pending(l, have, e);
        }
      }
    }
    if forall k :: !Hollow(l, have, k) {
      forall e | e in l.index ensures !Pending(l, have, e) {
        assert !Hollow(l, have, e.t0);
        assert e.t0 in Keys(l);
      }
    }
  }
}
