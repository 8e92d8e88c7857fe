/** Envelope decimation (ferrodac/store/decimate.py). The three parallel arrays
    (t, min, max) of one pyramid level are one sequence of bins here. */
module Decimate {
  import opened Values

  datatype Bin = Bin(t: real, mn: Val, mx: Val)

  // ----- one level -----

  /** Reshape into rows of f, the last row padded with copies of the last bin. */
  function Rows(s: seq<Bin>, f: nat): (r: seq<seq<Bin>>)
    requires f >= 1
    ensures forall i :: 0 <= i < |r| ==> |r[i]| == f
    decreases |s|
  {
    if s == [] then []
    else if |s| < f then [s + Copies(s[|s| - 1], f - |s|)]
    else [s[..f]] + Rows(s[f..], f)
  }

  function Copies(b: Bin, k: nat): (r: seq<Bin>)
    ensures |r| == k && forall i :: 0 <= i < k ==> r[i] == b
  {
    seq(k, _ => b)
  }

  function Lesser(a: Val, b: Val): Val { if Leq(a, b) then a else b }

  function Greater(a: Val, b: Val): Val { if Leq(a, b) then b else a }

  /** `np.where(isnan(mn), inf, mn).min()` */
  function Least(row: seq<Bin>): (v: Val)
    ensures !v.NaN?
  {
    if row == [] then PosInf else Lesser(if row[0].mn.NaN? then PosInf else row[0].mn, Least(row[1..]))
  }

  /** `np.where(isnan(mx), -inf, mx).max()` */
  function Greatest(row: seq<Bin>): (v: Val)
    ensures !v.NaN?
  {
    if row == [] then NegInf else Greater(if row[0].mx.NaN? then NegInf else row[0].mx, Greatest(row[1..]))
  }

  predicate AllBreaks(row: seq<Bin>) { forall i :: 0 <= i < |row| ==> row[i].mn.NaN? }

  function SumT(row: seq<Bin>): real {
    if row == [] then 0.0 else row[0].t + SumT(row[1..])
  }

  /** One bucket: mean time, finite extrema, NaN for both lanes when the min lane is all NaN. */
  function Fold(row: seq<Bin>): Bin
    requires row != []
  {
    var t := SumT(row) / |row| as real;
    if AllBreaks(row) then Bin(t, NaN, NaN) else Bin(t, Least(row), Greatest(row))
  }

  function FoldAll(rows: seq<seq<Bin>>): (r: seq<Bin>)
    requires forall i :: 0 <= i < |rows| ==> rows[i] != []
    ensures |r| == |rows| && forall i :: 0 <= i < |r| ==> r[i] == Fold(rows[i])
  {
    seq(|rows|, i requires 0 <= i < |rows| => Fold(rows[i]))
  }

  function Downsample(s: seq<Bin>, f: nat): (r: seq<Bin>)
    requires f >= 1
    ensures |r| == |Rows(s, f)|
  {
    FoldAll(Rows(s, f))
  }

  /** The number of buckets is ceil(n / f). */
  lemma {:induction false} BucketCount(s: seq<Bin>, f: nat)
    requires f >= 1
    ensures |Rows(s, f)| * f >= |s|
    ensures s != [] ==> |Rows(s, f)| >= 1 && (|Rows(s, f)| - 1) * f < |s|
    decreases |s|
  {
    if |s| >= f {
      BucketCount(s[f..], f);
      var k := |Rows(s, f)|;
      assert k == 1 + |Rows(s[f..], f)|;
      MulStep(k, f);
      if |s| > f {
        MulStep(k - 1, f);
      }
    }
  }

  /** Row i holds the samples i * f onwards; beyond the end it repeats the last one. */
  lemma {:induction false} RowAt(s: seq<Bin>, f: nat, i: nat, k: nat)
    requires f >= 1 && i < |Rows(s, f)| && k < f
    ensures Rows(s, f)[i][k] == s[if i * f + k < |s| then i * f + k else |s| - 1]
    decreases |s|
  {
    if |s| >= f && i > 0 {
      RowAt(s[f..], f, i - 1, k);
      assert Rows(s, f)[i] == Rows(s[f..], f)[i - 1];
      MulStep(i, f);
    }
  }

  /** The extrema of a row are attained by its readable members, and bound them. */
  lemma {:induction false} ExtremaAttained(row: seq<Bin>)
    ensures AllBreaks(row) || exists i :: 0 <= i < |row| && row[i].mn == Least(row)
    ensures (forall i :: 0 <= i < |row| ==> row[i].mx.NaN?) || exists i :: 0 <= i < |row| && row[i].mx == Greatest(row)
    ensures forall i :: 0 <= i < |row| ==> (row[i].mn.NaN? || Leq(Least(row), row[i].mn)) && (row[i].mx.NaN? || Leq(row[i].mx, Greatest(row)))
  {
    if row != [] {
      ExtremaAttained(row[1..]);
      forall i | 0 <= i < |row|
        ensures (row[i].mn.NaN? || Leq(Least(row), row[i].mn)) && (row[i].mx.NaN? || Leq(row[i].mx, Greatest(row)))
      {
        ExtremaMember(row, i);
      }
      if exists i :: 0 <= i < |row[1..]| && row[1..][i].mn == Least(row[1..]) {
        var i :| 0 <= i < |row[1..]| && row[1..][i].mn == Least(row[1..]);
        assert row[i + 1].mn == Least(row[1..]);
      } else {
        AllBreaksLeast(row[1..]);
      }
      if exists i :: 0 <= i < |row[1..]| && row[1..][i].mx == Greatest(row[1..]) {
        var i :| 0 <= i < |row[1..]| && row[1..][i].mx == Greatest(row[1..]);
        assert row[i + 1].mx == Greatest(row[1..]);
      } else {
        NoValueGreatest(row[1..]);
      }
    }
  }

  lemma {:induction false} NoValueGreatest(s: seq<Bin>)
    requires forall i :: 0 <= i < |s| ==> s[i].mx.NaN?
    ensures Greatest(s) == NegInf
  {
    if s != [] {
      NoValueGreatest(s[1..]);
    }
  }

  // ----- extrema as folds -----

  lemma {:induction false} ExtremaConcat(a: seq<Bin>, b: seq<Bin>)
    ensures Least(a + b) == Lesser(Least(a), Least(b))
    ensures Greatest(a + b) == Greater(Greatest(a), Greatest(b))
  {
    if a == [] {
      assert a + b == b;
    } else {
      ExtremaConcat(a[1..], b);
      assert (a + b)[0] == a[0] && (a + b)[1..] == a[1..] + b;
    }
  }

  lemma BreaksConcat(a: seq<Bin>, b: seq<Bin>)
    ensures AllBreaks(a + b) <==> AllBreaks(a) && AllBreaks(b)
  {
    assert forall i :: 0 <= i < |a| ==> (a + b)[i] == a[i];
    assert forall i :: 0 <= i < |b| ==> (a + b)[|a| + i] == b[i];
  }

  lemma {:induction false} ExtremaMember(s: seq<Bin>, i: nat)
    requires i < |s|
    ensures !s[i].mn.NaN? ==> Leq(Least(s), s[i].mn)
    ensures !s[i].mx.NaN? ==> Leq(s[i].mx, Greatest(s))
  {
    if i > 0 {
      ExtremaMember(s[1..], i - 1);
    }
  }

  lemma {:induction false} PaddingNeutral(s: seq<Bin>, k: nat)
    requires s != []
    ensures var p := s + Copies(s[|s| - 1], k);
            Least(p) == Least(s) && Greatest(p) == Greatest(s) && (AllBreaks(p) <==> AllBreaks(s))
  {
    var last := s[|s| - 1];
    if k == 0 {
      assert s + Copies(last, 0) == s;
    } else {
      PaddingNeutral(s, k - 1);
      assert s + Copies(last, k) == (s + Copies(last, k - 1)) + [last];
      ExtremaConcat(s + Copies(last, k - 1), [last]);
      BreaksConcat(s + Copies(last, k - 1), [last]);
      ExtremaMember(s, |s| - 1);
    }
  }

  /** NaN-aligned lanes: a break in the min lane is one in the max lane. */
  predicate Aligned(s: seq<Bin>) { forall i :: 0 <= i < |s| ==> s[i].mn.NaN? ==> s[i].mx.NaN? }

  lemma {:induction false} AllBreaksLeast(s: seq<Bin>)
    requires AllBreaks(s)
    ensures Least(s) == PosInf
  {
    if s != [] {
      AllBreaksLeast(s[1..]);
    }
  }

  /** A bucket that is all breaks hides no value of the max lane. */
  predicate Sound(row: seq<Bin>) { AllBreaks(row) ==> forall i :: 0 <= i < |row| ==> row[i].mx.NaN? }

  /** The first bucket's own bins, before padding, and the others. */
  function Own(s: seq<Bin>, f: nat): seq<Bin> { s[..Min(f, |s|)] }

  function Others(s: seq<Bin>, f: nat): (r: seq<Bin>)
    requires f >= 1
    ensures s != [] ==> |r| < |s|
  {
    s[Min(f, |s|)..]
  }

  /** No bucket of f bins hides a value. */
  predicate AllSound(s: seq<Bin>, f: nat)
    requires f >= 1
    decreases |s|
  {
    s == [] || (Sound(Own(s, f)) && AllSound(Others(s, f), f))
  }

  /** A level is its first bucket, padded if it is the last one, and the level of the rest. */
  lemma LevelStep(s: seq<Bin>, f: nat)
    requires f >= 1 && s != []
    ensures var head := Own(s, f) + Copies(s[|s| - 1], f - |Own(s, f)|);
            Downsample(s, f) == [Fold(head)] + Downsample(Others(s, f), f)
    ensures s == Own(s, f) + Others(s, f) && Own(s, f) != [] && (Others(s, f) == [] || |Own(s, f)| == f)
    ensures Others(s, f) == [] ==> Own(s, f) == s
    ensures Others(s, f) != [] ==> Own(s, f) + Copies(s[|s| - 1], f - |Own(s, f)|) == Own(s, f)
  {
    var own := Own(s, f);
    if |s| < f {
      assert own == s && Others(s, f) == [];
      assert Rows(s, f) == [s + Copies(s[|s| - 1], f - |s|)];
    } else {
      assert own == s[..f] && own + Copies(s[|s| - 1], 0) == own;
      assert Rows(s, f) == [own] + Rows(Others(s, f), f);
    }
  }

  /** Padding changes nothing a bucket reports, nor whether it hides something. */
  lemma HeadFacts(s: seq<Bin>, f: nat)
    requires f >= 1 && s != []
    ensures var own, head := Own(s, f), Own(s, f) + Copies(s[|s| - 1], f - |Own(s, f)|);
            && Least(head) == Least(own) && Greatest(head) == Greatest(own)
            && (AllBreaks(head) <==> AllBreaks(own)) && (Sound(head) <==> Sound(own))
  {
    var own := Own(s, f);
    if |s| <= f {
      assert own == s;
      PaddingNeutral(s, f - |s|);
      var head := s + Copies(s[|s| - 1], f - |s|);
      assert forall i :: 0 <= i < |s| ==> head[i] == s[i];
      assert forall i :: |s| <= i < |head| ==> head[i] == s[|s| - 1];
    } else {
      assert own + Copies(s[|s| - 1], 0) == own;
    }
  }

  /** What a bucket contributes to a coarser one. */
  lemma FoldContributes(row: seq<Bin>)
    requires row != []
    ensures Least([Fold(row)]) == Least(row)
    ensures AllBreaks([Fold(row)]) <==> AllBreaks(row)
    ensures Sound(row) ==> Greatest([Fold(row)]) == Greatest(row)
  {
    if AllBreaks(row) {
      AllBreaksLeast(row);
      if Sound(row) {
        NoValueGreatest(row);
      }
    }
    assert [Fold(row)][1..] == [];
    assert [Fold(row)][0] == Fold(row);
  }

  /** A level keeps the least value of the whole series and its breaks, and the greatest
      value if no bucket hides one. */
  lemma {:induction false} LevelKeepsExtrema(s: seq<Bin>, f: nat)
    requires f >= 1
    ensures Least(Downsample(s, f)) == Least(s)
    ensures AllBreaks(Downsample(s, f)) <==> AllBreaks(s)
    ensures AllSound(s, f) ==> Greatest(Downsample(s, f)) == Greatest(s)
    decreases |s|
  {
    if s != [] {
      var own, rest := Own(s, f), Others(s, f);
      var head := own + Copies(s[|s| - 1], f - |own|);
      LevelKeepsExtrema(rest, f);
      LevelStep(s, f);
      HeadFacts(s, f);
      hide Own, Others, Downsample, Least, Greatest, AllBreaks, Sound, Fold;
      FoldContributes(head);
      ExtremaConcat(own, rest);
      BreaksConcat(own, rest);
      ExtremaConcat([Fold(head)], Downsample(rest, f));
      BreaksConcat([Fold(head)], Downsample(rest, f));
    }
  }

  /** With aligned lanes, or with nothing but breaks in both, no bucket hides a value. */
  lemma {:induction false} AlignedSound(s: seq<Bin>, f: nat)
    requires f >= 1 && Aligned(s)
    ensures AllSound(s, f)
    decreases |s|
  {
    if s != [] {
      AlignedSound(Others(s, f), f);
    }
  }

  // ----- composition -----

  /** Whole rows split off cleanly. */
  lemma {:induction false} RowsSplit(a: seq<Bin>, b: seq<Bin>, f: nat, k: nat)
    requires f >= 1 && |a| == k * f
    ensures Rows(a + b, f) == Rows(a, f) + Rows(b, f) && |Rows(a, f)| == k
  {
    hide Rows;
    if k == 0 {
      assert a + b == b;
      RowsStep(a, f);
    } else {
      MulStep(k, f);
      RowsSplit(a[f..], b, f, k - 1);
      RowsStep(a, f);
      RowsStep(a + b, f);
      assert (a + b)[..f] == a[..f] && (a + b)[f..] == a[f..] + b;
    }
  }

  lemma MulStep(k: nat, f: nat)
    requires k >= 1
    ensures k * f == f + (k - 1) * f && (k - 1) * f >= 0
  {
  }

  lemma RowsStep(s: seq<Bin>, f: nat)
    requires f >= 1
    ensures |s| >= f ==> Rows(s, f) == [s[..f]] + Rows(s[f..], f)
    ensures s == [] ==> Rows(s, f) == []
  {
  }

  predicate SameEnvelope(a: seq<Bin>, b: seq<Bin>) {
    |a| == |b| && forall i :: 0 <= i < |a| ==> a[i].mn == b[i].mn && a[i].mx == b[i].mx
  }

  /** If two rows agree on extrema and breaks, so do their buckets. */
  lemma FoldEnvelope(p: seq<Bin>, q: seq<Bin>)
    requires p != [] && q != [] && Least(p) == Least(q) && (AllBreaks(p) || Greatest(p) == Greatest(q)) && (AllBreaks(p) <==> AllBreaks(q))
    ensures Fold(p).mn == Fold(q).mn && Fold(p).mx == Fold(q).mx
  {
  }

  /** In every bucket of fg bins that has a readable one, no bucket of f bins hides a value. */
  predicate KeepsPeaks(s: seq<Bin>, f: nat, fg: nat)
    requires f >= 1 && fg >= 1
    decreases |s|
  {
    s == [] || ((AllBreaks(Own(s, fg)) || AllSound(Own(s, fg), f)) && KeepsPeaks(Others(s, fg), f, fg))
  }

  /** The pyramid composes: folding by f and then by g draws the same envelope as folding
      by f * g at once, for every length, padding included. */
  lemma {:induction false} PyramidComposes(s: seq<Bin>, f: nat, g: nat, fg: nat)
    requires f >= 1 && g >= 1 && fg == g * f && fg >= 1 && KeepsPeaks(s, f, fg)
    ensures SameEnvelope(Downsample(Downsample(s, f), g), Downsample(s, fg))
    decreases |s|
  {
    hide Downsample, SameEnvelope, AllSound, AllBreaks;
    if s == [] {
      NoBuckets(f, g);
      NoBuckets(fg, g);
      EnvelopeConcat([], [], [], []);
    } else if |s| <= fg {
      assert Own(s, fg) == s;
      OneBucket(s, f, g, fg);
    } else {
      var a, b := Own(s, fg), Others(s, fg);
      assert s == a + b;
      PyramidComposes(b, f, g, fg);
      OneBucket(a, f, g, fg);
      TwoParts(a, b, f, g, fg);
      EnvelopeConcat(Downsample(Downsample(a, f), g), Downsample(a, fg), Downsample(Downsample(b, f), g), Downsample(b, fg));
    }
  }

  /** Both ways round, a whole coarse bucket in front goes its own way. */
  lemma TwoParts(a: seq<Bin>, b: seq<Bin>, f: nat, g: nat, fg: nat)
    requires f >= 1 && g >= 1 && fg == g * f && fg >= 1 && |a| == fg
    ensures Downsample(Downsample(a + b, f), g) == Downsample(Downsample(a, f), g) + Downsample(Downsample(b, f), g)
    ensures Downsample(a + b, fg) == Downsample(a, fg) + Downsample(b, fg)
    ensures |Downsample(Downsample(a, f), g)| == 1 == |Downsample(a, fg)|
  {
    hide Downsample;
    LevelConcat(a, b, f, g);
    LevelConcat(a, b, fg, 1);
    LevelConcat(Downsample(a, f), Downsample(b, f), g, 1);
  }

  lemma EnvelopeConcat(a: seq<Bin>, a': seq<Bin>, b: seq<Bin>, b': seq<Bin>)
    requires (a == [] == a' || SameEnvelope(a, a')) && (b == [] == b' || SameEnvelope(b, b'))
    ensures SameEnvelope(a + b, a' + b') && SameEnvelope([], [])
  {
  }

  lemma NoBuckets(f: nat, g: nat)
    requires f >= 1 && g >= 1
    ensures Downsample([], f) == [] && Downsample([], g) == []
  {
  }

  lemma LevelConcat(a: seq<Bin>, b: seq<Bin>, f: nat, k: nat)
    requires f >= 1 && |a| == k * f
    ensures Downsample(a + b, f) == Downsample(a, f) + Downsample(b, f) && |Downsample(a, f)| == k
  {
    RowsSplit(a, b, f, k);
  }

  /** At most f * g bins end up in a single bucket either way. */
  lemma OneBucket(s: seq<Bin>, f: nat, g: nat, fg: nat)
    requires f >= 1 && g >= 1 && fg == g * f && fg >= 1
    requires s != [] && |s| <= fg && (AllBreaks(s) || AllSound(s, f))
    ensures SameEnvelope(Downsample(Downsample(s, f), g), Downsample(s, fg))
  {
    var d := Downsample(s, f);
    FitsOneRow(s, f, g, fg);
    LevelKeepsExtrema(s, f);
    SingleRow(d, g);
    SingleRow(s, fg);
    FoldEnvelope(Rows(d, g)[0], Rows(s, fg)[0]);
  }

  lemma FitsOneRow(s: seq<Bin>, f: nat, g: nat, fg: nat)
    requires f >= 1 && g >= 1 && fg == g * f && s != [] && |s| <= fg
    ensures 1 <= |Downsample(s, f)| <= g
  {
    var d := Downsample(s, f);
    BucketCount(s, f);
    if |d| > g {
      MulMono(g, |d| - 1, f);
    }
  }

  lemma MulMono(a: nat, b: nat, f: nat)
    requires a <= b
    ensures a * f <= b * f
  {
  }

  lemma SingleRow(s: seq<Bin>, f: nat)
    requires f >= 1 && s != [] && |s| <= f
    ensures |Rows(s, f)| == 1
    ensures var r := Rows(s, f)[0];
            Least(r) == Least(s) && Greatest(r) == Greatest(s) && (AllBreaks(r) <==> AllBreaks(s))
  {
    if |s| == f {
      assert s[..f] == s && s[f..] == [];
    } else {
      PaddingNeutral(s, f - |s|);
    }
  }

  /** The same series but for the values of the max lane: times, min lane and the places
      of NaN in the max lane agree. */
  predicate SamePattern(w: seq<Bin>, s: seq<Bin>) {
    |w| == |s| && forall j :: 0 <= j < |s| ==> w[j].t == s[j].t && w[j].mn == s[j].mn && (w[j].mx.NaN? <==> s[j].mx.NaN?)
  }

  /** The series with one value wherever the max lane is readable. */
  function Levelled(s: seq<Bin>, v: Val): (w: seq<Bin>)
    requires !v.NaN?
    ensures SamePattern(w, s)
  {
    seq(|s|, j requires 0 <= j < |s| => if s[j].mx.NaN? then s[j] else s[j].(mx := v))
  }

  lemma {:induction false} PatternSound(w: seq<Bin>, s: seq<Bin>, f: nat)
    requires f >= 1 && SamePattern(w, s)
    ensures AllSound(w, f) <==> AllSound(s, f)
    decreases |s|
  {
    if s != [] {
      PatternSound(Others(w, f), Others(s, f), f);
      assert SamePattern(Own(w, f), Own(s, f));
    }
  }

  lemma {:induction false} PatternKeeps(w: seq<Bin>, s: seq<Bin>, f: nat, fg: nat)
    requires f >= 1 && fg >= 1 && SamePattern(w, s)
    ensures KeepsPeaks(w, f, fg) <==> KeepsPeaks(s, f, fg)
    decreases |s|
  {
    if s != [] {
      PatternKeeps(Others(w, fg), Others(s, fg), f, fg);
      assert SamePattern(Own(w, fg), Own(s, fg));
      PatternSound(Own(w, fg), Own(s, fg), f);
    }
  }

  predicate NoPeaks(s: seq<Bin>) { forall j :: 0 <= j < |s| ==> s[j].mx != PosInf }

  lemma {:induction false} NoPeaksLevel(s: seq<Bin>, f: nat)
    requires f >= 1 && NoPeaks(s)
    ensures NoPeaks(Downsample(s, f))
    decreases |s|
  {
    if s != [] {
      NoPeaksLevel(Others(s, f), f);
      LevelStep(s, f);
      NoPeak(Own(s, f) + Copies(s[|s| - 1], f - |Own(s, f)|));
      hide Downsample, Own;
    }
  }

  /** If some bucket of f bins hides a value, a max lane of the same pattern has its peak
      hidden there: no bucket reports it. */
  lemma {:induction false} HidePeak(s: seq<Bin>, f: nat) returns (w: seq<Bin>)
    requires f >= 1 && !AllSound(s, f)
    ensures SamePattern(w, s) && Greatest(w) == PosInf && NoPeaks(Downsample(w, f))
    decreases |s|
  {
    var own, rest := Own(s, f), Others(s, f);
    LevelStep(s, f);
    if Sound(own) {
      var p := Levelled(own, Num(0.0));
      var r := HidePeak(rest, f);
      w := p + r;
      NoPeaksLevel(p, f);
      PeakOfParts(p, r, f);
      PatternJoins(p, own, r, rest);
    } else {
      var p, r := Levelled(own, PosInf), Levelled(rest, Num(0.0));
      w := p + r;
      HiddenBucket(p, own, f);
      NoPeaksLevel(r, f);
      PeakOfParts(p, r, f);
      PatternJoins(p, own, r, rest);
    }
  }

  lemma PeakOfParts(p: seq<Bin>, r: seq<Bin>, f: nat)
    requires f >= 1 && p != [] && |p| <= f && (r == [] || |p| == f)
    requires NoPeaks(Downsample(p, f)) && NoPeaks(Downsample(r, f))
    requires Greatest(p) == PosInf || Greatest(r) == PosInf
    ensures Greatest(p + r) == PosInf && NoPeaks(Downsample(p + r, f))
  {
    hide Downsample, Greatest;
    GluedLevel(p + r, p, r, f);
    ExtremaConcat(p, r);
  }

  lemma PatternJoins(p: seq<Bin>, own: seq<Bin>, r: seq<Bin>, rest: seq<Bin>)
    requires SamePattern(p, own) && SamePattern(r, rest)
    ensures SamePattern(p + r, own + rest)
  {
  }

  /** A whole bucket in front, or the only one. */
  lemma GluedLevel(w: seq<Bin>, own: seq<Bin>, rest: seq<Bin>, f: nat)
    requires f >= 1 && own != [] && |own| <= f && w == own + rest && (rest == [] || |own| == f)
    ensures Downsample(w, f) == Downsample(own, f) + Downsample(rest, f)
  {
    if rest == [] {
      assert w == own && Downsample(rest, f) == [];
    } else {
      LevelConcat(own, rest, f, 1);
    }
  }

  lemma HiddenBucket(p: seq<Bin>, own: seq<Bin>, f: nat)
    requires f >= 1 && own != [] && |own| <= f && !Sound(own) && p == Levelled(own, PosInf)
    ensures Greatest(p) == PosInf && NoPeaks(Downsample(p, f))
  {
    var i :| 0 <= i < |own| && !own[i].mx.NaN?;
    ExtremaMember(p, i);
    LevelStep(p, f);
    HeadFacts(p, f);
    assert Own(p, f) == p && Others(p, f) == [];
    assert AllBreaks(p);
    assert Downsample([], f) == [];
  }

  /** If the pattern does not keep peaks, some max lane of it loses one in the coarse level. */
  lemma {:induction false} LosesPeak(s: seq<Bin>, f: nat, g: nat, fg: nat) returns (w: seq<Bin>)
    requires f >= 1 && g >= 1 && fg == g * f && fg >= 1 && !KeepsPeaks(s, f, fg)
    ensures SamePattern(w, s) && !SameEnvelope(Downsample(Downsample(w, f), g), Downsample(w, fg))
    decreases |s|
  {
    hide Downsample, SameEnvelope, AllSound, AllBreaks;
    var a, b := Own(s, fg), Others(s, fg);
    assert s == a + b;
    if AllBreaks(a) || AllSound(a, f) {
      var r := LosesPeak(b, f, g, fg);
      w := a + r;
      NoBuckets(f, g);
      NoBuckets(fg, g);
      assert r != [] by { EnvelopeConcat([], [], [], []); }
      TwoParts(a, r, f, g, fg);
      EnvelopeParts(Downsample(Downsample(a, f), g), Downsample(a, fg), Downsample(Downsample(r, f), g), Downsample(r, fg));
    } else {
      var p := LosesHere(a, f, g, fg);
      w := p + b;
      if b == [] {
        assert w == p;
      } else {
        TwoParts(p, b, f, g, fg);
        EnvelopeParts(Downsample(Downsample(p, f), g), Downsample(p, fg), Downsample(Downsample(b, f), g), Downsample(b, fg));
      }
    }
  }

  lemma EnvelopeParts(a: seq<Bin>, a': seq<Bin>, b: seq<Bin>, b': seq<Bin>)
    requires |a| == |a'|
    ensures SameEnvelope(a + b, a' + b') ==> SameEnvelope(a, a') && SameEnvelope(b, b')
  {
    assert forall i :: 0 <= i < |a| ==> (a + b)[i] == a[i] && (a' + b')[i] == a'[i];
    assert forall i :: 0 <= i < |b| ==> (a + b)[|a| + i] == b[i];
    assert forall i :: 0 <= i < |b'| ==> (a' + b')[|a| + i] == b'[i];
  }

  lemma LosesHere(s: seq<Bin>, f: nat, g: nat, fg: nat) returns (w: seq<Bin>)
    requires f >= 1 && g >= 1 && fg == g * f && fg >= 1 && s != [] && |s| <= fg
    requires !AllBreaks(s) && !AllSound(s, f)
    ensures SamePattern(w, s) && !SameEnvelope(Downsample(Downsample(w, f), g), Downsample(w, fg))
  {
    w := HidePeak(s, f);
    var d := Downsample(w, f);
    FitsOneRow(w, f, g, fg);
    LevelKeepsExtrema(w, f);
    SingleRow(d, g);
    SingleRow(w, fg);
    NoPeak(d);
  }

  /** The exact condition, for each pair of factors: every max lane with this pattern of NaN
      composes if and only if no readable coarse bucket has a fine one that hides a value. */
  lemma ComposesExactly(s: seq<Bin>, f: nat, g: nat, fg: nat)
    requires f >= 1 && g >= 1 && fg == g * f && fg >= 1
    ensures (forall w :: SamePattern(w, s) ==> SameEnvelope(Downsample(Downsample(w, f), g), Downsample(w, fg)))
            <==> KeepsPeaks(s, f, fg)
  {
    hide Downsample, SameEnvelope, KeepsPeaks;
    if KeepsPeaks(s, f, fg) {
      forall w | SamePattern(w, s) ensures SameEnvelope(Downsample(Downsample(w, f), g), Downsample(w, fg)) {
        PatternKeeps(w, s, f, fg);
        PyramidComposes(w, f, g, fg);
      }
    } else {
      var w := LosesPeak(s, f, g, fg);
    }
  }

  lemma KeepsForAllFactors(s: seq<Bin>)
    ensures (forall f: nat, fg: nat :: f >= 1 && fg >= 1 ==> KeepsPeaks(s, f, fg)) <==> Aligned(s) || AllBreaks(s)
  {
    if Aligned(s) || AllBreaks(s) {
      forall f: nat, fg: nat | f >= 1 && fg >= 1 ensures KeepsPeaks(s, f, fg) {
        AlignedKeeps(s, f, fg);
      }
    } else {
      LosesAllAtOnce(s);
    }
  }

  lemma LosesAllAtOnce(s: seq<Bin>)
    requires !Aligned(s) && !AllBreaks(s)
    ensures s != [] && !KeepsPeaks(s, 1, |s|)
  {
    assert s != [] && Own(s, |s|) == s;
    if AllSound(s, 1) {
      OnesSound(s);
    }
  }

  lemma {:induction false} AlignedKeeps(s: seq<Bin>, f: nat, fg: nat)
    requires f >= 1 && fg >= 1 && (Aligned(s) || AllBreaks(s))
    ensures KeepsPeaks(s, f, fg)
    decreases |s|
  {
    if s != [] {
      AlignedKeeps(Others(s, fg), f, fg);
      if Aligned(s) {
        AlignedSound(Own(s, fg), f);
      }
    }
  }

  /** For all factors at once: the lanes are aligned, or the min lane is all breaks. */
  lemma ComposesForAllFactors(s: seq<Bin>)
    ensures (forall w, f: nat, g: nat, fg: nat ::
               SamePattern(w, s) && f >= 1 && g >= 1 && fg >= 1 && fg == g * f ==>
                 SameEnvelope(Downsample(Downsample(w, f), g), Downsample(w, fg)))
            <==> Aligned(s) || AllBreaks(s)
  {
    KeepsForAllFactors(s);
    hide SamePattern, SameEnvelope, Downsample, KeepsPeaks, Aligned, AllBreaks;
    if Aligned(s) || AllBreaks(s) {
      forall w, f: nat, g: nat, fg: nat | SamePattern(w, s) && f >= 1 && g >= 1 && fg >= 1 && fg == g * f
        ensures SameEnvelope(Downsample(Downsample(w, f), g), Downsample(w, fg))
      {
        ComposesExactly(s, f, g, fg);
      }
    } else {
      var n := |s|;
      LosesAllAtOnce(s);
      assert n == n * 1;
      ComposesExactly(s, 1, n, n);
    }
  }

  lemma {:induction false} OnesSound(s: seq<Bin>)
    requires AllSound(s, 1)
    ensures Aligned(s)
    decreases |s|
  {
    if s != [] {
      OnesSound(Others(s, 1));
      assert Own(s, 1) == [s[0]] && s == [s[0]] + Others(s, 1);
      assert AllBreaks([s[0]]) <==> s[0].mn.NaN?;
      assert Sound(Own(s, 1)) ==> [s[0]][0].mn.NaN? ==> [s[0]][0].mx.NaN?;
    }
  }

  lemma {:induction false} NoPeak(s: seq<Bin>)
    requires forall j :: 0 <= j < |s| ==> s[j].mx != PosInf
    ensures Greatest(s) != PosInf
  {
    if s != [] {
      NoPeak(s[1..]);
    }
  }

  // ----- bucket times -----

  predicate TimesWithin(s: seq<Bin>, lo: real, hi: real) { forall i :: 0 <= i < |s| ==> lo <= s[i].t <= hi }

  lemma {:induction false} SumBounds(row: seq<Bin>, lo: real, hi: real)
    requires TimesWithin(row, lo, hi)
    ensures |row| as real * lo <= SumT(row) <= |row| as real * hi
  {
    if row != [] {
      SumBounds(row[1..], lo, hi);
      assert |row| as real == 1.0 + |row[1..]| as real;
      assert |row| as real * lo == lo + |row[1..]| as real * lo;
      assert |row| as real * hi == hi + |row[1..]| as real * hi;
    }
  }

  /** A bucket's time is within the range of its members' times. */
  lemma FoldTime(row: seq<Bin>, lo: real, hi: real)
    requires row != [] && TimesWithin(row, lo, hi)
    ensures lo <= Fold(row).t <= hi
  {
    SumBounds(row, lo, hi);
    DivBounds(SumT(row), |row| as real, lo, hi);
  }

  lemma DivBounds(x: real, n: real, lo: real, hi: real)
    requires n > 0.0 && n * lo <= x <= n * hi
    ensures lo <= x / n <= hi
  {
    var q := x / n;
    assert q * n == x;
    MulOrder(q, lo, n);
    MulOrder(hi, q, n);
  }

  lemma MulOrder(a: real, b: real, n: real)
    requires n > 0.0
    ensures a < b ==> a * n < b * n
  {
  }

  /** Every bucket time is within the range of all sample times. */
  lemma {:induction false} LevelWithin(s: seq<Bin>, f: nat, lo: real, hi: real)
    requires f >= 1 && TimesWithin(s, lo, hi)
    ensures TimesWithin(Downsample(s, f), lo, hi)
    decreases |s|
  {
    if s == [] {
      NoBuckets(f, f);
    } else {
      var own, rest := Own(s, f), Others(s, f);
      LevelStep(s, f);
      hide Downsample;
      FoldTime(own + Copies(s[|s| - 1], f - |own|), lo, hi);
      LevelWithin(rest, f, lo, hi);
    }
  }

  // ----- a bucket, from its members -----

  /** The times of the first k members, added up. */
  function TimeSum(row: seq<Bin>, k: nat): real
    requires k <= |row|
  {
    if k == 0 then 0.0 else TimeSum(row, k - 1) + row[k - 1].t
  }

  lemma {:induction false} SumSnoc(row: seq<Bin>, b: Bin)
    ensures SumT(row + [b]) == SumT(row) + b.t
  {
    if row == [] {
      assert [] + [b] == [b] && [b][1..] == [];
    } else {
      SumSnoc(row[1..], b);
      assert (row + [b])[1..] == row[1..] + [b];
    }
  }

  lemma {:induction false} SumPrefix(row: seq<Bin>, k: nat)
    requires k <= |row|
    ensures SumT(row[..k]) == TimeSum(row, k)
  {
    if k == 0 {
      assert row[..0] == [];
    } else {
      SumPrefix(row, k - 1);
      SumSnoc(row[..k - 1], row[k - 1]);
      assert row[..k] == row[..k - 1] + [row[k - 1]];
    }
  }

  /** v is the least (greatest) readable value of the lane. */
  predicate IsLeastOf(v: Val, row: seq<Bin>) {
    && (exists k :: 0 <= k < |row| && row[k].mn == v)
    && forall k :: 0 <= k < |row| && !row[k].mn.NaN? ==> Leq(v, row[k].mn)
  }

  predicate IsGreatestOf(v: Val, row: seq<Bin>) {
    && (exists k :: 0 <= k < |row| && row[k].mx == v)
    && forall k :: 0 <= k < |row| && !row[k].mx.NaN? ==> Leq(row[k].mx, v)
  }

  predicate NoGreatest(row: seq<Bin>) { forall k :: 0 <= k < |row| ==> row[k].mx.NaN? }

  /** A bucket is drawn at the mean of its members' times, with the least and the greatest
      readable value; it is a break exactly if the min lane has none. */
  lemma FoldIs(row: seq<Bin>)
    requires row != []
    ensures Fold(row).t * |row| as real == TimeSum(row, |row|)
    ensures Fold(row).mn.NaN? <==> forall k :: 0 <= k < |row| ==> row[k].mn.NaN?
    ensures Fold(row).mn.NaN? ==> Fold(row).mx.NaN?
    ensures !Fold(row).mn.NaN? ==> IsLeastOf(Fold(row).mn, row)
    ensures !Fold(row).mn.NaN? ==> if NoGreatest(row) then Fold(row).mx == NegInf else IsGreatestOf(Fold(row).mx, row)
  {
    hide Least, Greatest, SumT;
    ExtremaAttained(row);
    SumPrefix(row, |row|);
    assert row[..|row|] == row;
    if NoGreatest(row) {
      NoValueGreatest(row);
    }
  }

  /** The members of bucket i: samples i * f onwards, the last one repeated at the end. */
  function Members(s: seq<Bin>, f: nat, i: nat): (row: seq<Bin>)
    requires s != []
    ensures |row| == f && forall k :: 0 <= k < f ==> row[k] == s[if i * f + k < |s| then i * f + k else |s| - 1]
  {
    seq(f, k requires 0 <= k < f => s[if i * f + k < |s| then i * f + k else |s| - 1])
  }

  /** Bucket i of a level is the fold of its members, FoldIs saying what that is. */
  lemma BucketIs(s: seq<Bin>, f: nat, i: nat)
    requires f >= 1 && i < |Downsample(s, f)|
    ensures s != [] && Downsample(s, f)[i] == Fold(Members(s, f, i))
  {
    hide Fold;
    var row := Rows(s, f)[i];
    forall k | 0 <= k < f ensures row[k] == Members(s, f, i)[k] {
      RowAt(s, f, i, k);
    }
    assert row == Members(s, f, i);
  }

  predicate TimesSorted(s: seq<Bin>) { forall i, j :: 0 <= i < j < |s| ==> s[i].t <= s[j].t }

  /** For non-decreasing times every bucket time lies between the first and the last sample
      time and the bucket times are non-decreasing. */
  lemma {:induction false} LevelTimes(s: seq<Bin>, f: nat)
    requires f >= 1 && TimesSorted(s) && s != []
    ensures TimesSorted(Downsample(s, f))
    ensures TimesWithin(Downsample(s, f), s[0].t, s[|s| - 1].t)
    decreases |s|
  {
    var own, rest := Own(s, f), Others(s, f);
    LevelStep(s, f);
    hide Downsample;
    FoldTime(own + Copies(s[|s| - 1], f - |own|), s[0].t, own[|own| - 1].t);
    if rest == [] {
      NoBuckets(f, f);
    } else {
      LevelTimes(rest, f);
    }
  }

  // ----- the polyline -----

  /** `interleave`: (t, min), (t, max) per bucket. */
  function Interleave(s: seq<Bin>): (r: seq<(Val, Val)>)
    ensures |r| == 2 * |s|
  {
    if s == [] then [] else [(Num(s[0].t), s[0].mn), (Num(s[0].t), s[0].mx)] + Interleave(s[1..])
  }

  /** The least value of a bucket comes first, then the greatest, both at its time. */
  lemma {:induction false} InterleaveAt(s: seq<Bin>, i: nat)
    requires i < |s|
    ensures Interleave(s)[2 * i] == (Num(s[i].t), s[i].mn) && Interleave(s)[2 * i + 1] == (Num(s[i].t), s[i].mx)
  {
    if i > 0 {
      InterleaveAt(s[1..], i - 1);
      assert Interleave(s)[2..] == Interleave(s[1..]);
    }
  }

  /** `0.5 * (a + b)` in IEEE arithmetic. */
  function Mid(a: Val, b: Val): Val {
    if a.NaN? || b.NaN? then NaN
    else if a.Num? && b.Num? then Num(0.5 * (a.v + b.v))
    else if a.Num? then b
    else if b.Num? || a == b then a
    else NaN
  }

  predicate Twins(p: (Val, Val), q: (Val, Val)) { !p.0.NaN? && p.0 == q.0 }

  function Midline(p: seq<(Val, Val)>): (r: seq<(Val, Val)>)
    ensures |r| <= |p|
  {
    if p == [] then []
    else if |p| >= 2 && Twins(p[0], p[1]) then [(p[0].0, Mid(p[0].1, p[1].1))] + Midline(p[2..])
    else [p[0]] + Midline(p[1..])
  }

  method EnvelopeMidline(p: seq<(Val, Val)>) returns (out: seq<(Val, Val)>)
    ensures out == Midline(p)
  {
    var n := |p|;
    if n < 2 {
      return p;
    }
    hide Midline;
    assert Midline([]) == [];
    assert p[0..] == p;
    out := [];
    var i := 0;
    while i < n
      invariant 0 <= i <= n
      invariant out + Midline(p[i..]) == Midline(p)
    {
      MidlineStep(out, p, i);
      if i + 1 < n && !p[i].0.NaN? && p[i].0 == p[i + 1].0 {
        out := out + [(p[i].0, Mid(p[i].1, p[i + 1].1))];
        i := i + 2;
      } else {
        out := out + [p[i]];
        i := i + 1;
      }
    }
  }

  lemma MidlineStep(out: seq<(Val, Val)>, p: seq<(Val, Val)>, i: nat)
    requires i < |p|
    ensures out + Midline(p[i..]) ==
              if i + 1 < |p| && Twins(p[i], p[i + 1]) then (out + [(p[i].0, Mid(p[i].1, p[i + 1].1))]) + Midline(p[i + 2..])
              else (out + [p[i]]) + Midline(p[i + 1..])
  {
    assert p[i..][0] == p[i] && p[i..][1..] == p[i + 1..];
    assert i + 1 < |p| ==> p[i..][1] == p[i + 1] && p[i..][2..] == p[i + 2..];
  }

  /** m is half way between a and b. */
  predicate HalfWay(m: Val, a: Val, b: Val) {
    && (m.NaN? <==> a.NaN? || b.NaN? || (a.NegInf? && b.PosInf?) || (a.PosInf? && b.NegInf?))
    && (Leq(a, b) && !m.NaN? ==> Leq(a, m) && Leq(m, b))
    && (!m.NaN? && (a.PosInf? || b.PosInf?) ==> m.PosInf?) && (!m.NaN? && (a.NegInf? || b.NegInf?) ==> m.NegInf?)
    && (a.Num? && b.Num? ==> m.Num? && m.v - a.v == b.v - m.v)
  }

  /** The midline undoes the doubling of `interleave`: one point per bucket, at its time and
      half way between its extremes. */
  lemma {:induction false} MidlineOfInterleave(s: seq<Bin>)
    ensures |Midline(Interleave(s))| == |s|
    ensures forall i :: 0 <= i < |s| ==> Midline(Interleave(s))[i] == (Num(s[i].t), Mid(s[i].mn, s[i].mx))
    ensures forall i :: 0 <= i < |s| ==> HalfWay(Midline(Interleave(s))[i].1, s[i].mn, s[i].mx)
  {
    if s != [] {
      MidlineOfInterleave(s[1..]);
      assert Interleave(s)[2..] == Interleave(s[1..]);
    }
  }

  /** p is one run of points at the same x, or a single break, and q does not continue it. */
  predicate IsRun(p: seq<(Val, Val)>, q: seq<(Val, Val)>) {
    && p != [] && (forall i :: 0 <= i < |p| ==> p[i].0 == p[0].0)
    && (p[0].0.NaN? ==> |p| == 1) && (q == [] || p[0].0.NaN? || q[0].0 != p[0].0)
  }

  /** r is the run p with its points replaced pair by pair, an odd one out kept, then rest. */
  predicate PairedOff(r: seq<(Val, Val)>, p: seq<(Val, Val)>, rest: seq<(Val, Val)>) {
    var h := |p| / 2;
    && |r| == h + |p| % 2 + |rest| && r[h + |p| % 2..] == rest
    && (forall i :: 0 <= i < h ==> r[i].0 == p[2 * i].0 && HalfWay(r[i].1, p[2 * i].1, p[2 * i + 1].1))
    && (|p| % 2 == 1 ==> r[h] == p[|p| - 1])
  }

  lemma PairedStep(m: (Val, Val), r: seq<(Val, Val)>, p: seq<(Val, Val)>, rest: seq<(Val, Val)>)
    requires |p| >= 2 && PairedOff(r, p[2..], rest) && m.0 == p[0].0 && HalfWay(m.1, p[0].1, p[1].1)
    ensures PairedOff([m] + r, p, rest)
  {
    hide HalfWay;
    forall i | 1 <= i < |p| / 2 ensures ([m] + r)[i].0 == p[2 * i].0 && HalfWay(([m] + r)[i].1, p[2 * i].1, p[2 * i + 1].1) {
      assert p[2..][2 * (i - 1)] == p[2 * i] && p[2..][2 * (i - 1) + 1] == p[2 * i + 1];
    }
  }

  lemma MidlineHead(p: seq<(Val, Val)>, q: seq<(Val, Val)>)
    requires IsRun(p, q)
    ensures |p| == 1 ==> Midline(p + q) == p + Midline(q)
    ensures |p| >= 2 ==> Midline(p + q) == [(p[0].0, Mid(p[0].1, p[1].1))] + Midline(p[2..] + q)
  {
    if |p| == 1 {
      assert (p + q)[1..] == q && p == [p[0]];
    } else {
      assert (p + q)[2..] == p[2..] + q && Twins((p + q)[0], (p + q)[1]);
    }
  }

  lemma {:induction false} MidlineOfRun(p: seq<(Val, Val)>, q: seq<(Val, Val)>)
    requires IsRun(p, q)
    ensures PairedOff(Midline(p + q), p, Midline(q))
    decreases |p|
  {
    MidlineHead(p, q);
    if |p| >= 2 {
      PairHalfWay(p[0].1, p[1].1);
      hide Midline, HalfWay, Mid;
      if |p| == 2 {
        assert p[2..] + q == q;
      } else {
        MidlineOfRun(p[2..], q);
      }
      hide IsRun;
      PairedStep((p[0].0, Mid(p[0].1, p[1].1)), Midline(p[2..] + q), p, Midline(q));
    }
  }

  lemma PairHalfWay(a: Val, b: Val)
    ensures HalfWay(Mid(a, b), a, b)
  {
  }

  predicate NoTwins(p: seq<(Val, Val)>) { forall i :: 0 <= i < |p| - 1 ==> !Twins(p[i], p[i + 1]) }

  lemma NoTwinsTail(p: seq<(Val, Val)>)
    requires |p| >= 2
    ensures NoTwins(p) <==> !Twins(p[0], p[1]) && NoTwins(p[1..])
  {
    if !Twins(p[0], p[1]) && NoTwins(p[1..]) {
      forall i | 0 <= i < |p| - 1 ensures !Twins(p[i], p[i + 1]) {
        assert i > 0 ==> p[1..][i - 1] == p[i] && p[1..][i] == p[i + 1];
      }
    }
  }

  /** A polyline passes through unchanged exactly when no two neighbours share an x. */
  lemma {:induction false} MidlineFixed(p: seq<(Val, Val)>)
    ensures Midline(p) == p <==> NoTwins(p)
  {
    assert |p| < 2 ==> NoTwins(p);
    hide NoTwins, Twins;
    if |p| >= 2 {
      NoTwinsTail(p);
      if !Twins(p[0], p[1]) {
        MidlineFixed(p[1..]);
        assert p == [p[0]] + p[1..];
      }
    }
  }
}
