/** The k-way cursor merge behind the CSV export (`_write_scalars`,
    ferrodac/store/export.py:237-271), with rows as a sequence and cells unformatted. */
module Export {
  import opened Values

  datatype Sample = Sample(t: real, v: Val)

  type Source = seq<Sample>

  datatype Row = Row(t: real, cells: seq<Option<Val>>)

  // ----- one row -----

  predicate Done(srcs: seq<Source>) { forall i :: 0 <= i < |srcs| ==> srcs[i] == [] }

  /** `min(heads)` */
  function MinHead(srcs: seq<Source>): (ts: real)
    requires !Done(srcs)
    ensures exists i :: 0 <= i < |srcs| && srcs[i] != [] && srcs[i][0].t == ts
    ensures forall i :: 0 <= i < |srcs| && srcs[i] != [] ==> ts <= srcs[i][0].t
    decreases |srcs|
  {
    var n := |srcs| - 1;
    if srcs[n] == [] then MinHead(srcs[..n])
    else if Done(srcs[..n]) then
      assert forall i :: 0 <= i < n ==> srcs[i] == srcs[..n][i];
      srcs[n][0].t
    else
      var m := MinHead(srcs[..n]);
      assert forall i :: 0 <= i < n ==> srcs[i] == srcs[..n][i];
      if srcs[n][0].t < m then srcs[n][0].t else m
  }

  /** The source has a sample due in the row at ts. */
  predicate Due(s: Source, ts: real) { s != [] && s[0].t == ts }

  function Advance(srcs: seq<Source>, ts: real): (r: seq<Source>)
    ensures |r| == |srcs|
  {
    seq(|srcs|, i requires 0 <= i < |srcs| => if Due(srcs[i], ts) then srcs[i][1..] else srcs[i])
  }

  function Seen(srcs: seq<Source>, last: seq<Option<Val>>, ts: real): (r: seq<Option<Val>>)
    requires |last| == |srcs|
    ensures |r| == |srcs|
  {
    seq(|srcs|, i requires 0 <= i < |srcs| => if Due(srcs[i], ts) then Some(srcs[i][0].v) else last[i])
  }

  function Cells(srcs: seq<Source>, last: seq<Option<Val>>, ts: real, fill: bool): (r: seq<Option<Val>>)
    requires |last| == |srcs|
    ensures |r| == |srcs|
  {
    seq(|srcs|, i requires 0 <= i < |srcs| =>
      if Due(srcs[i], ts) then Some(srcs[i][0].v) else if fill then last[i] else None)
  }

  // ----- all rows -----

  function Left(srcs: seq<Source>): nat {
    if srcs == [] then 0 else |srcs[0]| + Left(srcs[1..])
  }

  lemma {:induction false} AdvanceShrinks(srcs: seq<Source>, ts: real)
    ensures Left(Advance(srcs, ts)) <= Left(srcs)
    ensures (exists i :: 0 <= i < |srcs| && Due(srcs[i], ts)) ==> Left(Advance(srcs, ts)) < Left(srcs)
  {
    if srcs != [] {
      AdvanceShrinks(srcs[1..], ts);
      assert Advance(srcs, ts)[1..] == Advance(srcs[1..], ts);
      if exists i :: 0 <= i < |srcs| && Due(srcs[i], ts) {
        var i :| 0 <= i < |srcs| && Due(srcs[i], ts);
        assert i > 0 ==> Due(srcs[1..][i - 1], ts);
      }
    }
  }

  function Rows(srcs: seq<Source>, last: seq<Option<Val>>, fill: bool): seq<Row>
    requires |last| == |srcs|
    decreases Left(srcs)
  {
    if Done(srcs) then [] else
      var ts := MinHead(srcs);
      AdvanceShrinks(srcs, ts);
      [Row(ts, Cells(srcs, last, ts, fill))] + Rows(Advance(srcs, ts), Seen(srcs, last, ts), fill)
  }

  function Blank(k: nat): (r: seq<Option<Val>>)
    ensures |r| == k && forall i :: 0 <= i < k ==> r[i] == None
  {
    seq(k, _ => None)
  }

  /** The suffixes the cursors still have to read. */
  function Rest(srcs: seq<Source>, idx: seq<nat>): (r: seq<Source>)
    requires Within(srcs, idx)
    ensures |r| == |srcs|
  {
    seq(|srcs|, i requires 0 <= i < |srcs| => srcs[i][idx[i]..])
  }

  method WriteScalars(srcs: seq<Source>, fill: bool) returns (rows: seq<Row>)
    ensures rows == Rows(srcs, Blank(|srcs|), fill)
  {
    var idx := new nat[|srcs|](_ => 0);
    var last := new Option<Val>[|srcs|](_ => None);
    assert Within(srcs, idx[..]);
    assert Rest(srcs, idx[..]) == srcs && last[..] == Blank(|srcs|);
    rows := MergeRows(srcs, fill, idx, last);
  }

  /** The outer loop, from wherever the cursors stand. */
  method MergeRows(srcs: seq<Source>, fill: bool, idx: array<nat>, last: array<Option<Val>>) returns (rows: seq<Row>)
    requires Within(srcs, idx[..]) && last.Length == |srcs| && idx as object != last as object
    modifies idx, last
    ensures rows == old(Rows(Rest(srcs, idx[..]), last[..], fill))
  {
    hide *;
    ghost var all := Rows(Rest(srcs, idx[..]), last[..], fill);
    rows := [];
    while !Done(Rest(srcs, idx[..]))
      invariant Within(srcs, idx[..])
      invariant rows + Rows(Rest(srcs, idx[..]), last[..], fill) == all
      decreases Left(Rest(srcs, idx[..]))
    {
      RowsStep(Rest(srcs, idx[..]), last[..], fill);
      var ts := MinHead(Rest(srcs, idx[..]));
      var cells := WriteRow(srcs, fill, ts, idx, last);
      rows := rows + [Row(ts, cells)];
    }
    RowsStep(Rest(srcs, idx[..]), last[..], fill);
  }

  lemma RowsStep(srcs: seq<Source>, last: seq<Option<Val>>, fill: bool)
    requires |last| == |srcs|
    ensures Done(srcs) ==> Rows(srcs, last, fill) == []
    ensures !Done(srcs) ==>
              var ts := MinHead(srcs);
              && Rows(srcs, last, fill) == [Row(ts, Cells(srcs, last, ts, fill))] + Rows(Advance(srcs, ts), Seen(srcs, last, ts), fill)
              && Left(Advance(srcs, ts)) < Left(srcs)
  {
    if !Done(srcs) {
      AdvanceShrinks(srcs, MinHead(srcs));
    }
  }

  predicate Within(srcs: seq<Source>, idx: seq<nat>) {
    |idx| == |srcs| && forall i :: 0 <= i < |srcs| ==> idx[i] <= |srcs[i]|
  }

  /** Cursor i is on a sample due in the row at ts. */
  predicate DueAt(srcs: seq<Source>, idx: seq<nat>, i: nat, ts: real)
    requires Within(srcs, idx) && i < |srcs|
  {
    idx[i] < |srcs[i]| && srcs[i][idx[i]].t == ts
  }

  lemma DueIsDueAt(srcs: seq<Source>, idx: seq<nat>, i: nat, ts: real)
    requires Within(srcs, idx) && i < |srcs|
    ensures Due(Rest(srcs, idx)[i], ts) <==> DueAt(srcs, idx, i, ts)
    ensures DueAt(srcs, idx, i, ts) ==>
              Rest(srcs, idx)[i][0] == srcs[i][idx[i]] && Rest(srcs, idx)[i][1..] == srcs[i][idx[i] + 1..]
  {
  }

  /** The inner loop: one cell per source, consuming at most one sample of each. */
  method WriteRow(srcs: seq<Source>, fill: bool, ts: real, idx: array<nat>, last: array<Option<Val>>)
    returns (cells: seq<Option<Val>>)
    requires Within(srcs, idx[..]) && last.Length == |srcs|
    requires idx as object != last as object
    modifies idx, last
    ensures Within(srcs, idx[..])
    ensures cells == Cells(old(Rest(srcs, idx[..])), old(last[..]), ts, fill)
    ensures Rest(srcs, idx[..]) == Advance(old(Rest(srcs, idx[..])), ts)
    ensures last[..] == Seen(old(Rest(srcs, idx[..])), old(last[..]), ts)
  {
    ghost var at, seen := idx[..], last[..];
    ghost var rest := Rest(srcs, at);
    ghost var wanted := Cells(rest, seen, ts, fill);
    cells := [];
    for i := 0 to |srcs|
      invariant |cells| == i && cells == wanted[..i]
      invariant forall j :: 0 <= j < i ==> idx[j] == at[j] + if DueAt(srcs, at, j, ts) then 1 else 0
      invariant forall j :: 0 <= j < i ==> last[j] == if DueAt(srcs, at, j, ts) then Some(srcs[j][at[j]].v) else seen[j]
      invariant forall j :: i <= j < |srcs| ==> idx[j] == at[j] && last[j] == seen[j]
    {
      DueIsDueAt(srcs, at, i, ts);
      if idx[i] < |srcs[i]| && srcs[i][idx[i]].t == ts {
        last[i] := Some(srcs[i][idx[i]].v);
        idx[i] := idx[i] + 1;
        cells := cells + [last[i]];
      } else if fill && last[i].Some? {
        cells := cells + [last[i]];
      } else {
        cells := cells + [None];
      }
    }
    Moved(srcs, at, idx[..], seen, last[..], ts);
  }

  lemma Moved(srcs: seq<Source>, at: seq<nat>, to: seq<nat>, seen: seq<Option<Val>>, last: seq<Option<Val>>, ts: real)
    requires Within(srcs, at) && |to| == |seen| == |last| == |srcs|
    requires forall j :: 0 <= j < |srcs| ==> to[j] == at[j] + if DueAt(srcs, at, j, ts) then 1 else 0
    requires forall j :: 0 <= j < |srcs| ==> last[j] == if DueAt(srcs, at, j, ts) then Some(srcs[j][at[j]].v) else seen[j]
    ensures Within(srcs, to) && Rest(srcs, to) == Advance(Rest(srcs, at), ts) && last == Seen(Rest(srcs, at), seen, ts)
  {
    forall j | 0 <= j < |srcs|
      ensures to[j] <= |srcs[j]| && srcs[j][to[j]..] == Advance(Rest(srcs, at), ts)[j]
      ensures last[j] == Seen(Rest(srcs, at), seen, ts)[j]
    {
      DueIsDueAt(srcs, at, j, ts);
    }
  }

  // ----- no sample is lost -----

  /** Column i without its blanks, each value with the time of its row. */
  function Column(rows: seq<Row>, i: nat): Source
    requires forall r :: 0 <= r < |rows| ==> i < |rows[r].cells|
  {
    if rows == [] then []
    else (if rows[0].cells[i].Some? then [Sample(rows[0].t, rows[0].cells[i].value)] else []) + Column(rows[1..], i)
  }

  lemma {:induction false} RowsWide(srcs: seq<Source>, last: seq<Option<Val>>, fill: bool)
    requires |last| == |srcs|
    ensures forall r :: 0 <= r < |Rows(srcs, last, fill)| ==> |Rows(srcs, last, fill)[r].cells| == |srcs|
    decreases Left(srcs)
  {
    if !Done(srcs) {
      var ts := MinHead(srcs);
      AdvanceShrinks(srcs, ts);
      RowsWide(Advance(srcs, ts), Seen(srcs, last, ts), fill);
    }
  }

  /** Without fill, column i is exactly source i, sample for sample and at its own times,
      whatever order and however many duplicates the timestamps have. */
  lemma {:induction false} ColumnIsSource(srcs: seq<Source>, last: seq<Option<Val>>, i: nat)
    requires |last| == |srcs| && i < |srcs|
    ensures forall r :: 0 <= r < |Rows(srcs, last, false)| ==> i < |Rows(srcs, last, false)[r].cells|
    ensures Column(Rows(srcs, last, false), i) == srcs[i]
    decreases Left(srcs)
  {
    hide Rows, MinHead, Left;
    RowsWide(srcs, last, false);
    RowsStep(srcs, last, false);
    if !Done(srcs) {
      var ts := MinHead(srcs);
      var rest := Rows(Advance(srcs, ts), Seen(srcs, last, ts), false);
      ColumnIsSource(Advance(srcs, ts), Seen(srcs, last, ts), i);
      ColumnStep(Row(ts, Cells(srcs, last, ts, false)), rest, i);
    }
  }

  lemma ColumnStep(row: Row, rows: seq<Row>, i: nat)
    requires i < |row.cells| && forall r :: 0 <= r < |rows| ==> i < |rows[r].cells|
    ensures Column([row] + rows, i) == (if row.cells[i].Some? then [Sample(row.t, row.cells[i].value)] else []) + Column(rows, i)
  {
    assert ([row] + rows)[1..] == rows;
  }

  // ----- row times -----

  predicate Ordered(s: Source) { forall i, j :: 0 <= i < j < |s| ==> s[i].t <= s[j].t }

  predicate AllOrdered(srcs: seq<Source>) { forall i :: 0 <= i < |srcs| ==> Ordered(srcs[i]) }

  predicate RowsFrom(rows: seq<Row>, t: real) { forall r :: 0 <= r < |rows| ==> t <= rows[r].t }

  predicate TimesSorted(rows: seq<Row>) { forall r, q :: 0 <= r < q < |rows| ==> rows[r].t <= rows[q].t }

  lemma AdvanceOrdered(srcs: seq<Source>, ts: real)
    requires AllOrdered(srcs)
    ensures AllOrdered(Advance(srcs, ts))
  {
  }

  /** For sorted sources the row times are non-decreasing. */
  lemma {:induction false} RowTimesSorted(srcs: seq<Source>, last: seq<Option<Val>>, fill: bool, t: real)
    requires |last| == |srcs| && AllOrdered(srcs)
    requires forall i :: 0 <= i < |srcs| && srcs[i] != [] ==> t <= srcs[i][0].t
    ensures TimesSorted(Rows(srcs, last, fill)) && RowsFrom(Rows(srcs, last, fill), t)
    decreases Left(srcs)
  {
    if !Done(srcs) {
      var ts := MinHead(srcs);
      AdvanceShrinks(srcs, ts);
      AdvanceOrdered(srcs, ts);
      var next: seq<Source> := Advance(srcs, ts);
      forall i | 0 <= i < |next| && next[i] != [] ensures ts <= next[i][0].t {
        assert Ordered(srcs[i]);
        assert Due(srcs[i], ts) ==> next[i][0] == srcs[i][1];
      }
      RowTimesSorted(next, Seen(srcs, last, ts), fill, ts);
      RowsStep(srcs, last, fill);
      ConsSorted(Row(ts, Cells(srcs, last, ts, fill)), Rows(next, Seen(srcs, last, ts), fill), t);
    }
  }

  lemma ConsSorted(row: Row, rows: seq<Row>, t: real)
    requires TimesSorted(rows) && RowsFrom(rows, row.t) && t <= row.t
    ensures TimesSorted([row] + rows) && RowsFrom([row] + rows, t)
  {
  }

  // ----- how many rows one instant gets -----

  function Multiplicity(s: Source, t: real): nat {
    if s == [] then 0 else (if s[0].t == t then 1 else 0) + Multiplicity(s[1..], t)
  }

  function RowsAt(rows: seq<Row>, t: real): nat {
    if rows == [] then 0 else (if rows[0].t == t then 1 else 0) + RowsAt(rows[1..], t)
  }

  lemma {:induction false} NoneBefore(s: Source, t: real)
    requires Ordered(s) && s != [] && s[0].t > t
    ensures Multiplicity(s, t) == 0
  {
    if |s| > 1 {
      NoneBefore(s[1..], t);
    }
  }

  predicate IsLargest(srcs: seq<Source>, t: real, n: nat) {
    && (forall i :: 0 <= i < |srcs| ==> Multiplicity(srcs[i], t) <= n)
    && (n == 0 || exists i :: 0 <= i < |srcs| && Multiplicity(srcs[i], t) == n)
  }

  /** For sorted sources the rows at an instant number the largest multiplicity any source
      has there. */
  lemma {:induction false} RowsAtInstant(srcs: seq<Source>, last: seq<Option<Val>>, fill: bool, t: real)
    requires |last| == |srcs| && AllOrdered(srcs)
    ensures IsLargest(srcs, t, RowsAt(Rows(srcs, last, fill), t))
    decreases Left(srcs)
  {
    if !Done(srcs) {
      var ts := MinHead(srcs);
      var next, seen := Advance(srcs, ts), Seen(srcs, last, ts);
      var rest := Rows(next, seen, fill);
      AdvanceShrinks(srcs, ts);
      AdvanceOrdered(srcs, ts);
      RowsAtInstant(next, seen, fill, t);
      RowsStep(srcs, last, fill);
      assert Rows(srcs, last, fill)[1..] == rest;
      LargestStep(srcs, ts, t, RowsAt(rest, t));
    }
  }

  lemma LargestStep(srcs: seq<Source>, ts: real, t: real, n: nat)
    requires AllOrdered(srcs) && !Done(srcs) && ts == MinHead(srcs) && IsLargest(Advance(srcs, ts), t, n)
    ensures IsLargest(srcs, t, n + if ts == t then 1 else 0)
  {
    hide MinHead;
    var next := Advance(srcs, ts);
    forall i | 0 <= i < |srcs|
      ensures ts != t ==> Multiplicity(next[i], t) == Multiplicity(srcs[i], t)
      ensures ts == t && Due(srcs[i], ts) ==> Multiplicity(next[i], t) + 1 == Multiplicity(srcs[i], t)
      ensures ts == t && !Due(srcs[i], ts) ==> Multiplicity(srcs[i], t) == 0
    {
      if ts == t && srcs[i] != [] && !Due(srcs[i], ts) {
        NoneBefore(srcs[i], t);
      }
    }
    if ts == t {
      var d :| 0 <= d < |srcs| && srcs[d] != [] && srcs[d][0].t == ts;
      assert Due(srcs[d], ts);
      if n > 0 {
        var i :| 0 <= i < |next| && Multiplicity(next[i], t) == n;
        assert Due(srcs[i], ts);
        assert Multiplicity(srcs[i], t) == n + 1;
      } else {
        assert Multiplicity(srcs[d], t) == 1;
      }
    } else if n > 0 {
      var i :| 0 <= i < |next| && Multiplicity(next[i], t) == n;
      assert Multiplicity(srcs[i], t) == n;
    }
  }

  // ----- forward fill -----

  /** Carry the last value of every column down into its blanks. */
  function Carried(rows: seq<Row>, last: seq<Option<Val>>): seq<Row>
    requires forall r :: 0 <= r < |rows| ==> |rows[r].cells| == |last|
  {
    if rows == [] then [] else
      var cells := seq(|last|, i requires 0 <= i < |last| => if rows[0].cells[i].Some? then rows[0].cells[i] else last[i]);
      [Row(rows[0].t, cells)] + Carried(rows[1..], cells)
  }

  /** Export with fill is the blank export with every column carried down. */
  lemma {:induction false} FillCarriesDown(srcs: seq<Source>, last: seq<Option<Val>>)
    requires |last| == |srcs|
    ensures forall r :: 0 <= r < |Rows(srcs, last, false)| ==> |Rows(srcs, last, false)[r].cells| == |last|
    ensures Rows(srcs, last, true) == Carried(Rows(srcs, last, false), last)
    decreases Left(srcs)
  {
    hide Rows, MinHead, Left, Due;
    RowsWide(srcs, last, false);
    RowsStep(srcs, last, false);
    RowsStep(srcs, last, true);
    if !Done(srcs) {
      var ts := MinHead(srcs);
      var next, seen := Advance(srcs, ts), Seen(srcs, last, ts);
      FillCarriesDown(next, seen);
      CarriedStep(Row(ts, Cells(srcs, last, ts, false)), Rows(next, seen, false), last, seen);
      assert Cells(srcs, last, ts, true) == seen;
    }
  }

  lemma CarriedStep(row: Row, rows: seq<Row>, last: seq<Option<Val>>, cells: seq<Option<Val>>)
    requires |row.cells| == |last| == |cells| && forall r :: 0 <= r < |rows| ==> |rows[r].cells| == |last|
    requires forall i :: 0 <= i < |last| ==> cells[i] == if row.cells[i].Some? then row.cells[i] else last[i]
    ensures Carried([row] + rows, last) == [Row(row.t, cells)] + Carried(rows, cells)
  {
    assert cells == seq(|last|, i requires 0 <= i < |last| => if row.cells[i].Some? then row.cells[i] else last[i]);
    assert ([row] + rows)[1..] == rows;
  }

  /** A carried cell is the latest value at or above it in its column, and blank only where
      the column has had none yet. */
  lemma {:induction false} CarriedIsLatest(rows: seq<Row>, last: seq<Option<Val>>, r: nat, i: nat)
    requires forall q :: 0 <= q < |rows| ==> |rows[q].cells| == |last|
    requires r < |rows| && i < |last|
    ensures |Carried(rows, last)| == |rows| && |Carried(rows, last)[r].cells| == |last|
    ensures var c := Carried(rows, last)[r].cells[i];
            (c == last[i] && forall q :: 0 <= q <= r ==> rows[q].cells[i].None?) ||
            (exists q :: 0 <= q <= r && rows[q].cells[i].Some? && c == rows[q].cells[i]
                         && forall p :: q < p <= r ==> rows[p].cells[i].None?)
  {
    var cells := seq(|last|, k requires 0 <= k < |last| => if rows[0].cells[k].Some? then rows[0].cells[k] else last[k]);
    if r == 0 {
      CarriedLength(rows[1..], cells);
    } else {
      CarriedIsLatest(rows[1..], cells, r - 1, i);
      var c := Carried(rows[1..], cells)[r - 1].cells[i];
      if exists q :: 0 <= q <= r - 1 && rows[1..][q].cells[i].Some? && c == rows[1..][q].cells[i]
                     && forall p :: q < p <= r - 1 ==> rows[1..][p].cells[i].None? {
        var q :| 0 <= q <= r - 1 && rows[1..][q].cells[i].Some? && c == rows[1..][q].cells[i]
                     && forall p :: q < p <= r - 1 ==> rows[1..][p].cells[i].None?;
        forall p | q + 1 < p <= r ensures rows[p].cells[i].None? {
          assert rows[1..][p - 1] == rows[p];
        }
        assert rows[q + 1].cells[i].Some? && c == rows[q + 1].cells[i];
      } else {
        forall p | 1 <= p <= r ensures rows[p].cells[i].None? {
          assert rows[1..][p - 1] == rows[p];
        }
      }
    }
  }

  lemma {:induction false} CarriedLength(rows: seq<Row>, last: seq<Option<Val>>)
    requires forall q :: 0 <= q < |rows| ==> |rows[q].cells| == |last|
    ensures |Carried(rows, last)| == |rows|
  {
    if rows != [] {
      CarriedLength(rows[1..], seq(|last|, k requires 0 <= k < |last| => if rows[0].cells[k].Some? then rows[0].cells[k] else last[k]));
    }
  }
}
