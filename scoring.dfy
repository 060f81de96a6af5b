/** The scoring step of the script: the target table is left-merged with the
    expanded predictions on `(id, residue_id)`, the predictions the merge leaves
    missing become 0, and the `true` and `prediction` columns are compared by
    intersection over union of the positive class. */
module Scoring {
  import opened Wrappers
  import opened Sequences
  import opened Submission

  /** A row of the target table: residue `residueId` of sample `id`, with its
      ground-truth label (the `true` column). */
  datatype TargetRow = TargetRow(id: string, residueId: string, truth: int)

  /** A row of the merged table. `prediction` is missing when no prediction row
      has the row's key. */
  datatype MergedRow = MergedRow(id: string, residueId: string, truth: int, prediction: Option<int>)

  /** A row of the merged table after `fillna(0)`. */
  datatype ScoredRow = ScoredRow(id: string, residueId: string, truth: int, prediction: int)

  /** The two counts the Jaccard score divides: rows positive in both columns,
      and rows positive in either. */
  datatype IoU = IoU(intersection: nat, union: nat)

  /** The merge key `on=["id", "residue_id"]`. */
  predicate SameKey(t: TargetRow, p: PredictionRow) {
    t.id == p.id && t.residueId == p.residueId
  }

  /** Some prediction row has the key of `t`. */
  predicate Submitted(t: TargetRow, preds: seq<PredictionRow>) {
    exists k :: 0 <= k < |preds| && SameKey(t, preds[k])
  }

  /** No two prediction rows share a key. */
  predicate UniqueKeys(preds: seq<PredictionRow>) {
    forall i, j :: 0 <= i < j < |preds| ==> preds[i].id != preds[j].id || preds[i].residueId != preds[j].residueId
  }

  /** `p` alone when it has the key of `t`, nothing otherwise. */
  function KeepMatch(t: TargetRow): PredictionRow -> seq<PredictionRow> {
    p => if SameKey(t, p) then [p] else []
  }

  /** The prediction rows with the key of `t`, in prediction order. */
  function Matches(t: TargetRow, preds: seq<PredictionRow>): seq<PredictionRow> {
    FlatMap(preds, KeepMatch(t))
  }

  /** The matches of `t` are exactly the prediction rows with its key. */
  lemma {:induction false} MatchesSpec(t: TargetRow, preds: seq<PredictionRow>)
    ensures forall p :: p in Matches(t, preds) <==> p in preds && SameKey(t, p)
    decreases |preds|
  {
    if preds != [] {
      var init, last := preds[..|preds| - 1], preds[|preds| - 1];
      MatchesSpec(t, init);
      assert Matches(t, preds) == Matches(t, init) + KeepMatch(t)(last);
      assert preds == init + [last];
    }
  }

  /** The number of prediction rows with the key of `t`. */
  function KeyCount(t: TargetRow, preds: seq<PredictionRow>): nat {
    if preds == [] then 0
    else KeyCount(t, preds[..|preds| - 1]) + (if SameKey(t, preds[|preds| - 1]) then 1 else 0)
  }

  /** Every prediction row with the key of `t` is a match of its own: a key
      submitted twice matches twice. */
  lemma {:induction false} MatchesCount(t: TargetRow, preds: seq<PredictionRow>)
    ensures |Matches(t, preds)| == KeyCount(t, preds)
    decreases |preds|
  {
    if preds != [] {
      var init, last := preds[..|preds| - 1], preds[|preds| - 1];
      MatchesCount(t, init);
      assert Matches(t, preds) == Matches(t, init) + KeepMatch(t)(last);
    }
  }

  /** Matches keep prediction order: the matches of a concatenation are those
      of its first part followed by those of its second, and a single row is
      its own match exactly when it has the key. */
  lemma MatchesOrder(t: TargetRow, a: seq<PredictionRow>, b: seq<PredictionRow>, p: PredictionRow)
    ensures Matches(t, a + b) == Matches(t, a) + Matches(t, b)
    ensures Matches(t, [p]) == if SameKey(t, p) then [p] else []
  {
    FlatMapAppend(a, b, KeepMatch(t));
    FlatMapSnoc([], p, KeepMatch(t));
    assert [] + [p] == [p];
  }

  /** `t` has a match exactly when some prediction row has its key. */
  lemma MatchedIffSubmitted(t: TargetRow, preds: seq<PredictionRow>)
    ensures Matches(t, preds) != [] <==> Submitted(t, preds)
  {
    MatchesSpec(t, preds);
    var m := Matches(t, preds);
    if m != [] {
      assert m[0] in m;
      var k :| 0 <= k < |preds| && preds[k] == m[0];
      assert SameKey(t, preds[k]);
    }
    if Submitted(t, preds) {
      var k :| 0 <= k < |preds| && SameKey(t, preds[k]);
      assert preds[k] in preds;
      assert preds[k] in m;
    }
  }

  /** With unique keys, a target row has at most one match. */
  lemma {:induction false} UniqueKeysMatchOnce(t: TargetRow, preds: seq<PredictionRow>)
    requires UniqueKeys(preds)
    ensures |Matches(t, preds)| <= 1
    decreases |preds|
  {
    if preds != [] {
      var init, last := preds[..|preds| - 1], preds[|preds| - 1];
      assert UniqueKeys(init) by {
        forall i, j | 0 <= i < j < |init|
          ensures init[i].id != init[j].id || init[i].residueId != init[j].residueId
        {
          assert init[i] == preds[i] && init[j] == preds[j];
        }
      }
      UniqueKeysMatchOnce(t, init);
      assert Matches(t, preds) == Matches(t, init) + KeepMatch(t)(last);
      if SameKey(t, last) && Matches(t, init) != [] {
        MatchedIffSubmitted(t, init);
        assert false;
      }
    }
  }

  /** The merged rows of one target row: one per matching prediction row, in
      prediction order, or a single row with a missing prediction. */
  function MergeRow(t: TargetRow, preds: seq<PredictionRow>): seq<MergedRow> {
    var m := Matches(t, preds);
    if m == [] then [MergedRow(t.id, t.residueId, t.truth, None)]
    else seq(|m|, k requires 0 <= k < |m| => MergedRow(t.id, t.residueId, t.truth, Some(m[k].prediction)))
  }

  /** What one target row contributes: at least one row; every row keeps the
      target's key and label; the prediction is missing exactly when nothing
      matched, and otherwise the rows carry the matches' predictions in order. */
  lemma MergeRowSpec(t: TargetRow, preds: seq<PredictionRow>)
    ensures var rows, m := MergeRow(t, preds), Matches(t, preds);
      |rows| == (if m == [] then 1 else |m|)
      && (forall k :: 0 <= k < |rows| ==>
            rows[k].id == t.id && rows[k].residueId == t.residueId && rows[k].truth == t.truth)
      && (m == [] <==> rows[0].prediction.None?)
      && (forall k :: 0 <= k < |m| ==> rows[k].prediction == Some(m[k].prediction))
  {
  }

  function MergeWith(preds: seq<PredictionRow>): TargetRow -> seq<MergedRow> {
    t => MergeRow(t, preds)
  }

  /** `pd.merge(target, predictions, on=["id", "residue_id"], how="left")`:
      the merged rows of every target row, in target order. */
  function LeftMerge(target: seq<TargetRow>, preds: seq<PredictionRow>): seq<MergedRow> {
    FlatMap(target, MergeWith(preds))
  }

  /** The merge of a concatenated target is the concatenation of the merges. */
  lemma LeftMergeAppend(t1: seq<TargetRow>, t2: seq<TargetRow>, preds: seq<PredictionRow>)
    ensures LeftMerge(t1 + t2, preds) == LeftMerge(t1, preds) + LeftMerge(t2, preds)
  {
    FlatMapAppend(t1, t2, MergeWith(preds));
  }

  /** Every target row is kept, in target order: the rows of target row `i` sit
      between those of the rows before it and those of the rows after it. */
  lemma LeftMergeAt(target: seq<TargetRow>, i: nat, preds: seq<PredictionRow>)
    requires i < |target|
    ensures LeftMerge(target, preds)
      == LeftMerge(target[..i], preds) + MergeRow(target[i], preds) + LeftMerge(target[i + 1..], preds)
  {
    FlatMapAt(target, i, MergeWith(preds));
  }

  /** The merged table is never shorter than the target, and has exactly the
      target's length when no target row matches more than one prediction row. */
  lemma {:induction false} LeftMergeLength(target: seq<TargetRow>, preds: seq<PredictionRow>)
    ensures |LeftMerge(target, preds)| >= |target|
    ensures |LeftMerge(target, preds)| == |target|
      <==> forall i :: 0 <= i < |target| ==> |Matches(target[i], preds)| <= 1
    decreases |target|
  {
    if target != [] {
      var init, last := target[..|target| - 1], target[|target| - 1];
      LeftMergeLength(init, preds);
      MergeRowSpec(last, preds);
      assert LeftMerge(target, preds) == LeftMerge(init, preds) + MergeRow(last, preds);
      if forall i :: 0 <= i < |target| ==> |Matches(target[i], preds)| <= 1 {
        assert forall i :: 0 <= i < |init| ==> init[i] == target[i];
        assert |Matches(last, preds)| <= 1;
      } else {
        var i :| 0 <= i < |target| && |Matches(target[i], preds)| > 1;
        if i < |init| {
          assert init[i] == target[i];
        }
      }
    }
  }

  /** With unique prediction keys the merge keeps the target's length. */
  lemma UniqueKeysKeepLength(target: seq<TargetRow>, preds: seq<PredictionRow>)
    requires UniqueKeys(preds)
    ensures |LeftMerge(target, preds)| == |target|
  {
    forall i | 0 <= i < |target| ensures |Matches(target[i], preds)| <= 1 {
      UniqueKeysMatchOnce(target[i], preds);
    }
    LeftMergeLength(target, preds);
  }

  /** A key submitted twice fans out: two prediction rows with the key of one
      target row make the merge longer than the target. */
  lemma DuplicateKeyFansOut(target: seq<TargetRow>, preds: seq<PredictionRow>, k: nat, i: nat, j: nat)
    requires k < |target| && i < j < |preds|
    requires SameKey(target[k], preds[i]) && SameKey(target[k], preds[j])
    ensures |LeftMerge(target, preds)| > |target|
  {
    var t := target[k];
    MatchesOrder(t, preds[..j], preds[j..], preds[j]);
    assert preds[..j] + preds[j..] == preds;
    MatchesSpec(t, preds[..j]);
    MatchesSpec(t, preds[j..]);
    assert preds[i] == preds[..j][i];
    assert preds[j] == preds[j..][0];
    assert preds[i] in Matches(t, preds[..j]);
    assert preds[j] in Matches(t, preds[j..]);
    assert |Matches(t, preds)| >= 2;
    LeftMergeLength(target, preds);
  }

  /** `fillna(0)` on one `prediction` cell. */
  function FillZero(cell: Option<int>): int {
    match cell
    case Some(v) => v
    case None => 0
  }

  /** `fillna(0)` on the `prediction` column of the merged table. */
  function FillPredictions(rows: seq<MergedRow>): seq<ScoredRow> {
    seq(|rows|, k requires 0 <= k < |rows| =>
      ScoredRow(rows[k].id, rows[k].residueId, rows[k].truth, FillZero(rows[k].prediction)))
  }

  lemma FillAppend(a: seq<MergedRow>, b: seq<MergedRow>)
    ensures FillPredictions(a + b) == FillPredictions(a) + FillPredictions(b)
  {
  }

  /** Whether or not keys repeat, every row a target row contributes after
      `fillna(0)` keeps the target's key and label and has prediction 1 when the
      key was submitted and 0 when it was not, provided every prediction row
      says 1. */
  lemma FilledRowOfTarget(t: TargetRow, preds: seq<PredictionRow>)
    requires forall k :: 0 <= k < |preds| ==> preds[k].prediction == 1
    ensures forall r :: r in FillPredictions(MergeRow(t, preds)) ==>
      r.id == t.id && r.residueId == t.residueId && r.truth == t.truth
      && r.prediction == (if Submitted(t, preds) then 1 else 0)
  {
    MatchedIffSubmitted(t, preds);
    MatchesSpec(t, preds);
    var m := Matches(t, preds);
    forall k | 0 <= k < |m| ensures m[k].prediction == 1 {
      assert m[k] in m;
    }
  }

  /** The table the merge and fill should give when every submitted key is
      unique and predicted 1: each target row once, in order, with prediction 1
      when it was submitted and 0 when it was not. */
  function Aligned(target: seq<TargetRow>, preds: seq<PredictionRow>): seq<ScoredRow> {
    seq(|target|, i requires 0 <= i < |target| =>
      ScoredRow(target[i].id, target[i].residueId, target[i].truth, if Submitted(target[i], preds) then 1 else 0))
  }

  /** Matched target rows get prediction 1 and unmatched ones 0, each target
      row once and in order, when the prediction keys are unique and every
      prediction row says 1 (as every row of the expanded submission does). */
  lemma {:induction false} MergeFillIsAligned(target: seq<TargetRow>, preds: seq<PredictionRow>)
    requires UniqueKeys(preds)
    requires forall k :: 0 <= k < |preds| ==> preds[k].prediction == 1
    ensures FillPredictions(LeftMerge(target, preds)) == Aligned(target, preds)
    decreases |target|
  {
    if target != [] {
      var init, last := target[..|target| - 1], target[|target| - 1];
      MergeFillIsAligned(init, preds);
      assert LeftMerge(target, preds) == LeftMerge(init, preds) + MergeRow(last, preds);
      FillAppend(LeftMerge(init, preds), MergeRow(last, preds));
      var row := ScoredRow(last.id, last.residueId, last.truth, if Submitted(last, preds) then 1 else 0);
      assert FillPredictions(MergeRow(last, preds)) == [row] by {
        UniqueKeysMatchOnce(last, preds);
        MatchedIffSubmitted(last, preds);
        var m := Matches(last, preds);
        if m != [] {
          MatchesSpec(last, preds);
          assert m[0] in m;
        }
      }
      assert Aligned(target, preds) == Aligned(init, preds) + [row];
    }
  }

  /** The merge looks at prediction rows only through their matches. */
  lemma LeftMergeFollowsMatches(target: seq<TargetRow>, p: seq<PredictionRow>, q: seq<PredictionRow>)
    requires forall i :: 0 <= i < |target| ==> Matches(target[i], p) == Matches(target[i], q)
    ensures LeftMerge(target, p) == LeftMerge(target, q)
  {
    FlatMapCongruent(target, MergeWith(p), MergeWith(q));
  }

  /** A submitted residue that no target row has never changes the merged
      table, wherever it sits among the prediction rows. */
  lemma UnknownResidueIgnored(target: seq<TargetRow>, p1: seq<PredictionRow>, x: PredictionRow, p2: seq<PredictionRow>)
    requires forall i :: 0 <= i < |target| ==> !SameKey(target[i], x)
    ensures LeftMerge(target, p1 + [x] + p2) == LeftMerge(target, p1 + p2)
  {
    forall i | 0 <= i < |target|
      ensures Matches(target[i], p1 + [x] + p2) == Matches(target[i], p1 + p2)
    {
      var f := KeepMatch(target[i]);
      FlatMapAppend(p1 + [x], p2, f);
      FlatMapSnoc(p1, x, f);
      FlatMapAppend(p1, p2, f);
    }
    LeftMergeFollowsMatches(target, p1 + [x] + p2, p1 + p2);
  }

  /** `jaccard_score` reads a label as positive when it is 1. */
  predicate Positive(value: int) {
    value == 1
  }

  /** The intersection and union counts of the `true` and `prediction` columns. */
  function Counts(rows: seq<ScoredRow>): IoU {
    if rows == [] then IoU(0, 0)
    else
      var c, r := Counts(rows[..|rows| - 1]), rows[|rows| - 1];
      IoU(c.intersection + (if Positive(r.truth) && Positive(r.prediction) then 1 else 0),
          c.union + (if Positive(r.truth) || Positive(r.prediction) then 1 else 0))
  }

  /** The intersection never exceeds the union, nor the union the row count. */
  lemma {:induction false} CountsBounds(rows: seq<ScoredRow>)
    ensures Counts(rows).intersection <= Counts(rows).union <= |rows|
    decreases |rows|
  {
    if rows != [] {
      CountsBounds(rows[..|rows| - 1]);
    }
  }

  /** Intersection equals union exactly when the two columns agree on every
      row about positivity: the perfect-match case. */
  lemma {:induction false} PerfectMatch(rows: seq<ScoredRow>)
    ensures Counts(rows).intersection == Counts(rows).union
      <==> forall k :: 0 <= k < |rows| ==> (Positive(rows[k].truth) <==> Positive(rows[k].prediction))
    decreases |rows|
  {
    if rows != [] {
      var init := rows[..|rows| - 1];
      PerfectMatch(init);
      CountsBounds(init);
      assert forall k :: 0 <= k < |init| ==> init[k] == rows[k];
    }
  }

  /** The intersection is empty exactly when no row is positive in both
      columns: the no-overlap case. */
  lemma {:induction false} NoOverlap(rows: seq<ScoredRow>)
    ensures Counts(rows).intersection == 0
      <==> forall k :: 0 <= k < |rows| ==> !(Positive(rows[k].truth) && Positive(rows[k].prediction))
    decreases |rows|
  {
    if rows != [] {
      var init := rows[..|rows| - 1];
      NoOverlap(init);
      assert forall k :: 0 <= k < |init| ==> init[k] == rows[k];
    }
  }

  /** The union is empty exactly when both columns are all negative. */
  lemma {:induction false} AllNegative(rows: seq<ScoredRow>)
    ensures Counts(rows).union == 0
      <==> forall k :: 0 <= k < |rows| ==> !Positive(rows[k].truth) && !Positive(rows[k].prediction)
    decreases |rows|
  {
    if rows != [] {
      var init := rows[..|rows| - 1];
      AllNegative(init);
      assert forall k :: 0 <= k < |init| ==> init[k] == rows[k];
    }
  }

  /** The score of the counts, `|true ∩ pred| / |true ∪ pred|`, with 0 when
      the union is empty (the metric's zero-division default). */
  function Jaccard(c: IoU): real {
    if c.union == 0 then 0.0 else c.intersection as real / c.union as real
  }

  /** For counts whose intersection does not exceed the union, the score lies
      in [0, 1]; it is 1 exactly when the union is not empty and equals the
      intersection, and 0 exactly when the intersection is empty. */
  lemma JaccardSpec(c: IoU)
    requires c.intersection <= c.union
    ensures 0.0 <= Jaccard(c) <= 1.0
    ensures Jaccard(c) == 1.0 <==> c.union > 0 && c.intersection == c.union
    ensures Jaccard(c) == 0.0 <==> c.intersection == 0
  {
    if c.union > 0 {
      var i, u := c.intersection as real, c.union as real;
      assert (i / u) * u == i;
    }
  }

  /** The score of two label columns: 1.0 exactly when some row is positive
      and the columns agree on every row (perfect match), 0.0 exactly when no
      row is positive in both (no overlap, including the all-negative case). */
  lemma JaccardOfRows(rows: seq<ScoredRow>)
    ensures 0.0 <= Jaccard(Counts(rows)) <= 1.0
    ensures Jaccard(Counts(rows)) == 1.0 <==>
      (exists k :: 0 <= k < |rows| && (Positive(rows[k].truth) || Positive(rows[k].prediction)))
      && forall k :: 0 <= k < |rows| ==> (Positive(rows[k].truth) <==> Positive(rows[k].prediction))
    ensures Jaccard(Counts(rows)) == 0.0 <==>
      forall k :: 0 <= k < |rows| ==> !(Positive(rows[k].truth) && Positive(rows[k].prediction))
  {
    CountsBounds(rows);
    JaccardSpec(Counts(rows));
    PerfectMatch(rows);
    NoOverlap(rows);
    AllNegative(rows);
  }

  /** The main block from the merge on: the merge needs a target table, so a
      missing one is excluded. The counts satisfy the metric's bounds over the
      merged table, which holds at least one row per target row. */
  function Evaluate(target: Option<seq<TargetRow>>, preds: seq<PredictionRow>): (c: IoU)
    requires target.Some?
    ensures c.intersection <= c.union <= |LeftMerge(target.value, preds)|
  {
    var rows := FillPredictions(LeftMerge(target.value, preds));
    CountsBounds(rows);
    Counts(rows)
  }

  /** A submitted residue absent from the target never changes the counts. */
  lemma EvaluateIgnoresUnknownResidue(target: seq<TargetRow>, p1: seq<PredictionRow>, x: PredictionRow, p2: seq<PredictionRow>)
    requires forall i :: 0 <= i < |target| ==> !SameKey(target[i], x)
    ensures Evaluate(Some(target), p1 + [x] + p2) == Evaluate(Some(target), p1 + p2)
  {
    UnknownResidueIgnored(target, p1, x, p2);
  }

  /** Scoring a parsed submission with unique keys: the counts are those of
      the target's labels against "was this residue submitted". */
  lemma EvaluateSubmission(target: seq<TargetRow>, records: seq<FilledRecord>)
    requires UniqueKeys(Expand(records))
    ensures Evaluate(Some(target), Expand(records)) == Counts(Aligned(target, Expand(records)))
  {
    ExpandSpec(records);
    MergeFillIsAligned(target, Expand(records));
  }
}
