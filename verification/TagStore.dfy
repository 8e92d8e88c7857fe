/** MarkerModel (ferrodac/core/markers.py): a dictionary of mutable marker objects; a merge
    stores the incoming object itself, a local edit updates it in place. */
module TagStores {
  import opened Values
  import opened TagSpec

  class Marker {
    const id: string
    const kind: string
    const origin: string
    const body: string
    var t: real
    var version: int
    var deleted: bool
    var immutable: Option<bool>

    constructor (m: Tag)
      ensures Value() == m
    {
      id, kind, origin, body := m.id, m.kind, m.origin, m.body;
      t, version, deleted, immutable := m.t, m.version, m.deleted, m.immutable;
    }

    function Value(): Tag
      reads this
    {
      Tag(id, t, kind, origin, body, version, deleted, immutable)
    }
  }

  /** A marker built by `add`: version 1, its time fixed by kind and origin unless told. */
  method Make(m: Tag) returns (made: Marker)
    ensures fresh(made) && made.id == m.id && made.Value() == Created(m).(version := 1) && Created(m).version == 2
  {
    made := new Marker(m.(version := 1, deleted := false));
    made.immutable := Some(match m.immutable case Some(b) => b case None => !Movable(made.Value()));
  }

  class MarkerModel {
    var markers: map<string, Marker>
    // ids announced through the `tag_changed` and `tag_removed` signals
    var changed: seq<string>
    var removed: seq<string>

    constructor ()
      ensures Valid() && View() == map[] && changed == [] && removed == []
    {
      markers, changed, removed := map[], [], [];
    }

    ghost predicate Valid()
      reads this
    {
      forall k :: k in markers ==> markers[k].id == k
    }

    ghost function View(): (s: Store)
      reads this, markers.Values
    {
      map k | k in markers :: markers[k].Value()
    }

    /** The tag is there and not deleted. */
    ghost predicate Live(id: string)
      reads this, markers.Values
    {
      id in markers && !markers[id].deleted
    }

    /** A local create or edit: bump the version and announce it. */
    method Local(m: Marker)
      requires Valid() && m.id in markers && markers[m.id] == m
      modifies this`changed, m`version
      ensures Valid() && changed == old(changed) + [m.id]
      ensures View() == old(View())[m.id := old(m.Value()).(version := old(m.version) + 1)]
    {
      m.version := m.version + 1;
      changed := changed + [m.id];
    }

    /** The object itself becomes the entry of its id. */
    method Store(m: Marker)
      requires Valid()
      modifies this`markers
      ensures Valid() && markers == old(markers)[m.id := m]
      ensures View() == old(View())[m.id := m.Value()]
    {
      markers := markers[m.id := m];
    }

    method AddTag(m: Tag)
      requires Valid()
      modifies this
      ensures Valid() && View() == Add(old(View()), m)
      ensures changed == old(changed) + [m.id] && removed == old(removed)
    {
      var made := Make(m);
      hide Created;
      Store(made);
      Local(made);
    }

    method RemoveTag(id: string)
      requires Valid()
      modifies this`removed, markers.Values
      ensures Valid() && View() == Remove(old(View()), id)
      ensures removed == old(removed) + (if old(Live(id)) then [id] else [])
      ensures !Live(id)
    {
      if id !in markers || markers[id].deleted {
        return;
      }
      var m := markers[id];
      m.deleted := true;
      m.version := m.version + 1;
      removed := removed + [id];
      assert View() == Remove(old(View()), id);
    }

    method MoveTag(id: string, t: real)
      requires Valid()
      modifies this`changed, markers.Values
      ensures Valid() && View() == Move(old(View()), id, t)
      ensures changed == old(changed) + (if old(View()) != View() then [id] else [])
      ensures id in old(View()) && Movable(old(View())[id]) ==> id in markers && markers[id].t == t && changed == old(changed) + [id]
    {
      if id in markers && Movable(markers[id].Value()) {
        ghost var before := View();
        markers[id].t := t;
        assert View() == before[id := before[id].(t := t)];
        Local(markers[id]);
        assert View() == Move(before, id, t);
        assert View()[id].version != before[id].version;
      }
    }

    /** Merge a tag from a peer: silent, so that it is not echoed back. */
    method UpsertTag(m: Marker) returns (took: bool)
      requires Valid()
      modifies this`markers
      ensures Valid() && View() == Upsert(old(View()), m.Value())
      ensures took <==> Accepts(old(View()), m.Value())
      ensures took ==> m.id in markers && markers[m.id] == m
    {
      if m.id in markers && m.version < markers[m.id].version {
        return false;
      }
      if m.id in markers && m.version == markers[m.id].version && !m.deleted && !markers[m.id].deleted {
        return false;
      }
      Store(m);
      took := true;
    }

    /** Ingest a tag raised on this box: the same guard, then bumped and announced. */
    method UpsertLocalTag(m: Marker) returns (took: bool)
      requires Valid()
      modifies this`markers, this`changed, m`version
      ensures Valid() && View() == UpsertLocal(old(View()), old(m.Value()))
      ensures took <==> Accepts(old(View()), old(m.Value()))
      ensures changed == old(changed) + (if took then [m.id] else [])
    {
      if m.id in markers && m.version < markers[m.id].version {
        return false;
      }
      if m.id in markers && m.version == markers[m.id].version && !m.deleted && !markers[m.id].deleted {
        return false;
      }
      Store(m);
      Local(m);
      took := true;
    }

    method Get(id: string) returns (m: Marker?)
      ensures m != null <==> Live(id)
      ensures m != null ==> m.Value() == View()[id]
    {
      if id in markers && !markers[id].deleted {
        m := markers[id];
      } else {
        m := null;
      }
    }
  }
}
