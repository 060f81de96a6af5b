/** `parse_submission`: expands each submission row, whose `prediction` cell
    lists the predicted residues of one sample separated by spaces, into one
    `(id, residue_id, prediction = 1)` row per listed residue. */
module Submission {
  import opened Wrappers
  import opened Text
  import opened Sequences

  /** A row of the submission file as read. A `prediction` cell that the file
      leaves empty is read as missing. */
  datatype SubmissionRecord = SubmissionRecord(id: string, prediction: Option<string>)

  /** A row of the submission table once its missing predictions are filled. */
  datatype FilledRecord = FilledRecord(id: string, prediction: string)

  /** A row of the expanded table: residue `residueId` of sample `id` is
      predicted positive. */
  datatype PredictionRow = PredictionRow(id: string, residueId: string, prediction: int)

  /** `fillna("")` on one `prediction` cell. */
  function FillMissing(cell: Option<string>): string {
    match cell
    case Some(text) => text
    case None => ""
  }

  /** `fillna("")` on the `prediction` column of a whole table. */
  function FillAll(records: seq<SubmissionRecord>): seq<FilledRecord> {
    seq(|records|, i requires 0 <= i < |records| => FilledRecord(records[i].id, FillMissing(records[i].prediction)))
  }

  /** A missing prediction is read exactly as an empty one: a table with a
      missing cell fills to the same table as with "" written in that cell. */
  lemma MissingReadsAsEmpty(records: seq<SubmissionRecord>, i: nat)
    requires i < |records| && records[i].prediction.None?
    ensures FillAll(records) == FillAll(records[i := SubmissionRecord(records[i].id, Some(""))])
  {
  }

  /** The residue ids the parser emits for one prediction text, in order: the
      stripped text split on single spaces, each piece stripped again. */
  function Residues(text: string): seq<string> {
    var pieces := SplitOnSpace(Strip(text));
    seq(|pieces|, k requires 0 <= k < |pieces| => Strip(pieces[k]))
  }

  /** There is one residue more than there are spaces in the stripped text. */
  lemma ResiduesCount(text: string)
    ensures |Residues(text)| == CountSpaces(Strip(text)) + 1
  {
    SplitSpec(Strip(text));
  }

  /** No emitted residue id contains a space or starts or ends with whitespace. */
  lemma ResidueIdsAreClean(text: string, k: nat)
    requires k < |Residues(text)|
    ensures ' ' !in Residues(text)[k] && Trimmed(Residues(text)[k])
  {
    var piece := SplitOnSpace(Strip(text))[k];
    SplitSpec(Strip(text));
    StripKeepsChars(piece);
    StripSpec(piece);
  }

  /** The rows emitted for one filled record, one per residue. */
  function ExpandRecord(rec: FilledRecord): seq<PredictionRow> {
    var res := Residues(rec.prediction);
    seq(|res|, k requires 0 <= k < |res| => PredictionRow(rec.id, res[k], 1))
  }

  /** A record emits as many rows as its stripped prediction has spaces plus
      one; each carries the record's id, the next residue and the prediction 1. */
  lemma ExpandRecordSpec(rec: FilledRecord)
    ensures |ExpandRecord(rec)| == CountSpaces(Strip(rec.prediction)) + 1
    ensures forall k :: 0 <= k < |ExpandRecord(rec)| ==>
      ExpandRecord(rec)[k] == PredictionRow(rec.id, Residues(rec.prediction)[k], 1)
  {
    ResiduesCount(rec.prediction);
  }

  /** The number of rows each record emits, summed over `records`. */
  function TotalRows(records: seq<FilledRecord>): nat {
    if records == [] then 0
    else
      var last := records[|records| - 1];
      TotalRows(records[..|records| - 1]) + CountSpaces(Strip(last.prediction)) + 1
  }

  /** The expanded table of a whole filled submission: the rows of each record
      in record order. */
  function Expand(records: seq<FilledRecord>): seq<PredictionRow> {
    FlatMap(records, ExpandRecord)
  }

  /** The expanded table has as many rows as the records emit together, so at
      least one per record, and every row predicts 1. */
  lemma {:induction false} ExpandSpec(records: seq<FilledRecord>)
    ensures |Expand(records)| == TotalRows(records) && |Expand(records)| >= |records|
    ensures forall k :: 0 <= k < |Expand(records)| ==> Expand(records)[k].prediction == 1
    decreases |records|
  {
    if records != [] {
      var init, last := records[..|records| - 1], records[|records| - 1];
      ExpandSpec(init);
      ExpandRecordSpec(last);
      var done, more := Expand(init), ExpandRecord(last);
      var rows: seq<PredictionRow> := done + more;
      assert Expand(records) == rows;
      forall k | 0 <= k < |rows| ensures rows[k].prediction == 1 {
        if k >= |done| { assert rows[k] == more[k - |done|]; }
      }
    }
  }

  /** `pd.DataFrame(pairs, columns=["id", "residue_id"])` followed by the
      assignment of the constant column `prediction = 1`. */
  function Tabulate(pairs: seq<(string, string)>): seq<PredictionRow> {
    seq(|pairs|, k requires 0 <= k < |pairs| => PredictionRow(pairs[k].0, pairs[k].1, 1))
  }

  /** The submission table as read from the file, column by column. pandas
      changes the `prediction` column of the caller's table in place. */
  class SubmissionFrame {
    var id: seq<string>
    var prediction: seq<Option<string>>

    ghost predicate Valid()
      reads this
    {
      |id| == |prediction|
    }

    /** The table's rows. */
    function Records(): seq<SubmissionRecord>
      reads this
      requires Valid()
    {
      var ids, cells := id, prediction;
      seq(|ids|, i requires 0 <= i < |ids| => SubmissionRecord(ids[i], cells[i]))
    }

    constructor (id: seq<string>, prediction: seq<Option<string>>)
      requires |id| == |prediction|
      ensures Valid() && this.id == id && this.prediction == prediction
    {
      this.id := id;
      this.prediction := prediction;
    }

    /** `df["prediction"] = df["prediction"].fillna("")`: every missing cell
        becomes the empty string, the other cells and the ids stay. */
    method FillMissingPredictions()
      requires Valid()
      modifies this
      ensures Valid() && id == old(id) && |prediction| == old(|prediction|)
      ensures forall i :: 0 <= i < |prediction| ==> prediction[i] == Some(FillMissing(old(prediction[i])))
    {
      var cells := prediction;
      prediction := seq(|cells|, i requires 0 <= i < |cells| => Some(FillMissing(cells[i])));
    }
  }

  /** `parse_submission(df)`: fills the missing predictions of `df` in place,
      then expands the filled table. The result is the expanded table of the
      records `df` held on entry, with missing predictions read as "". */
  method ParseSubmission(df: SubmissionFrame) returns (rows: seq<PredictionRow>)
    requires df.Valid()
    modifies df
    ensures df.Valid() && df.id == old(df.id) && |df.prediction| == old(|df.prediction|)
    ensures forall i :: 0 <= i < |df.prediction| ==> df.prediction[i] == Some(FillMissing(old(df.prediction[i])))
    ensures rows == Expand(FillAll(old(df.Records())))
  {
    ghost var filled := FillAll(df.Records());
    df.FillMissingPredictions();
    var ids, cells := df.id, df.prediction;
    var texts := seq(|cells|, i requires 0 <= i < |cells| => cells[i].value);
    assert Zip(ids, texts) == filled;
    rows := ExpandRows(ids, texts);
  }

  /** The filled table whose columns are `ids` and `texts`. */
  function Zip(ids: seq<string>, texts: seq<string>): seq<FilledRecord>
    requires |ids| == |texts|
  {
    seq(|ids|, i requires 0 <= i < |ids| => FilledRecord(ids[i], texts[i]))
  }

  /** The nested loops of `parse_submission` over the filled table: one
      `(id, residue)` pair per residue of every row, in row order and residue
      order, tabulated with prediction 1. */
  method ExpandRows(ids: seq<string>, texts: seq<string>) returns (rows: seq<PredictionRow>)
    requires |ids| == |texts|
    ensures rows == Expand(Zip(ids, texts))
  {
    ghost var records := Zip(ids, texts);
    var pairs: seq<(string, string)> := [];
    var i := 0;
    while i < |ids|
      invariant 0 <= i <= |ids|
      invariant Tabulate(pairs) == Expand(records[..i])
    {
      var pieces := SplitOnSpace(Strip(texts[i]));
      ghost var expected := ExpandRecord(records[i]);
      ExpandRecordPieces(records[i]);
      ghost var done := Tabulate(pairs);
      var j := 0;
      while j < |pieces|
        invariant 0 <= j <= |pieces|
        invariant Tabulate(pairs) == done + expected[..j]
      {
        assert expected[..j + 1] == expected[..j] + [expected[j]];
        TabulateSnoc(pairs, (ids[i], Strip(pieces[j])));
        AppendAssoc(done, expected[..j], [expected[j]]);
        pairs := pairs + [(ids[i], Strip(pieces[j]))];
        j := j + 1;
      }
      assert expected[..j] == expected;
      assert records[..i + 1] == records[..i] + [records[i]];
      FlatMapSnoc(records[..i], records[i], ExpandRecord);
      i := i + 1;
    }
    assert records[..i] == records;
    rows := Tabulate(pairs);
  }

  /** The rows of one record, in terms of the pieces of its stripped text. */
  lemma ExpandRecordPieces(rec: FilledRecord)
    ensures var pieces := SplitOnSpace(Strip(rec.prediction));
      |ExpandRecord(rec)| == |pieces|
      && forall k :: 0 <= k < |pieces| ==> ExpandRecord(rec)[k] == PredictionRow(rec.id, Strip(pieces[k]), 1)
  {
  }

  lemma TabulateSnoc(pairs: seq<(string, string)>, pair: (string, string))
    ensures Tabulate(pairs + [pair]) == Tabulate(pairs) + [PredictionRow(pair.0, pair.1, 1)]
  {
  }

  /** Expansion distributes over concatenation of submissions. */
  lemma ExpandAppend(a: seq<FilledRecord>, b: seq<FilledRecord>)
    ensures Expand(a + b) == Expand(a) + Expand(b)
  {
    FlatMapAppend(a, b, ExpandRecord);
  }

  /** Rows come out in record order: the rows of record `i` sit, contiguous and
      in residue order, after those of the records before it and before those
      of the records after it. */
  lemma ExpandAt(records: seq<FilledRecord>, i: nat)
    requires i < |records|
    ensures Expand(records) == Expand(records[..i]) + ExpandRecord(records[i]) + Expand(records[i + 1..])
  {
    FlatMapAt(records, i, ExpandRecord);
  }

  /** A missing prediction is read as the empty string, and an empty or blank
      prediction emits exactly one row, whose residue id is empty. */
  lemma BlankPredictionGivesOneEmptyRow(id: string, cell: Option<string>)
    requires cell.None? || AllSpace(cell.value)
    ensures FillAll([SubmissionRecord(id, cell)]) == [FilledRecord(id, FillMissing(cell))]
    ensures ExpandRecord(FilledRecord(id, FillMissing(cell))) == [PredictionRow(id, "", 1)]
  {
    StripSpec(FillMissing(cell));
    assert SplitOnSpace("") == [""];
    assert Strip("") == "";
  }

  /** Two adjacent spaces inside the stripped prediction emit a row with an
      empty residue id: the one numbered by the spaces up to the first. */
  lemma AdjacentSpacesGiveEmptyResidue(rec: FilledRecord, i: nat)
    requires var s := Strip(rec.prediction); i + 1 < |s| && s[i] == ' ' && s[i + 1] == ' '
    ensures var s := Strip(rec.prediction);
      CountSpaces(s[..i + 1]) < |ExpandRecord(rec)|
      && ExpandRecord(rec)[CountSpaces(s[..i + 1])] == PredictionRow(rec.id, "", 1)
  {
    var s := Strip(rec.prediction);
    AdjacentSpacesGiveEmptyPiece(s, i);
    assert Strip("") == "";
  }

  /** When the only whitespace in a prediction is the plain space, joining the
      emitted residue ids with single spaces gives back the stripped prediction. */
  lemma ResiduesRoundTrip(text: string)
    requires OnlyPlainBlanks(text)
    ensures JoinWithSpace(Residues(text)) == Strip(text)
  {
    var pieces := SplitOnSpace(Strip(text));
    StripKeepsPlainBlanks(text);
    SplitPiecesHaveNoBlank(Strip(text));
    forall k | 0 <= k < |pieces| ensures Strip(pieces[k]) == pieces[k] {
      StripTrimmed(pieces[k]);
    }
    assert Residues(text) == pieces;
    JoinSplit(Strip(text));
  }

  /** Residue ids are neither dropped, reordered nor deduplicated: a prediction
      written as non-empty, whitespace-free ids joined by single spaces emits
      exactly those ids, repeats included. */
  lemma ResiduesOfJoin(ids: seq<string>)
    requires |ids| > 0
    requires forall k :: 0 <= k < |ids| ==> ids[k] != [] && NoSpace(ids[k])
    ensures Residues(JoinWithSpace(ids)) == ids
  {
    var text := JoinWithSpace(ids);
    JoinEnds(ids);
    StripTrimmed(text);
    forall k | 0 <= k < |ids| ensures ' ' !in ids[k] && Strip(ids[k]) == ids[k] {
      assert IsSpace(' ');
      StripTrimmed(ids[k]);
    }
    SplitJoin(ids);
  }
}
