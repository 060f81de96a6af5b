# Residue-prediction scoring, modelled in Dafny

The script `alphafold_testing/evaluation.py` scores a competition submission.
Each submission row names a sample (`id`) and lists its predicted residues in one
`prediction` cell, separated by spaces. `parse_submission` expands every row into
one `(id, residue_id, prediction = 1)` row per listed residue. The main block then
left-merges the ground-truth target table (`id`, `residue_id`, `true`) with those
rows on `(id, residue_id)`. It fills the predictions the merge leaves missing with
0 and prints the Jaccard score (intersection over union of the positive class) of
the `true` and `prediction` columns.

The model has five modules:

- `Wrappers` (`wrappers.dfy`): `Option`, which stands for a cell pandas reads as missing.
- `Sequences` (`sequences.dfy`): `FlatMap`, the "rows of every element, in order"
  shape shared by the parser's nested loops and by the left merge, with its
  concatenation lemmas.
- `Text` (`text.dfy`): Python's `str.strip()` (whitespace as `str.isspace`
  defines it), `str.split(" ")`, and `" ".join` as its inverse. Strings are
  sequences of code points.
- `Submission` (`submission.dfy`): `parse_submission`. It is imperative, as the
  source is. The submission table is the class `SubmissionFrame`, whose
  `prediction` column `FillMissingPredictions` overwrites in place (`fillna("")`).
  `ParseSubmission` runs the nested loops over rows and residues, appending
  `(id, residue)` pairs. `FillMissingPredictions` is proved to replace every cell
  by its filled value (`FillMissing`); `ParseSubmission` is proved to return
  `Expand(FillAll(...))` of the table it was given. The properties of the
  expansion are lemmas about that specification.
- `Scoring` (`scoring.dfy`): the merge, `fillna(0)` and the counts of the
  metric, as pure functions and lemmas. `Evaluate` takes the target as an
  `Option` and requires it to be present.

Line 11 strips every piece of the split again and emits it even when it is
empty. The model follows the code: an empty or blank prediction emits one row
with residue id `""`, and two adjacent spaces emit an empty residue id. No
non-empty filter is applied.

## Model

| member | source | states |
|---|---|---|
| `Text.StripLeftSpec` | alphafold_testing/evaluation.py:10 | left stripping keeps the longest suffix not starting with whitespace; everything dropped is whitespace |
| `Text.StripRightSpec` | alphafold_testing/evaluation.py:10 | right stripping keeps the longest prefix not ending with whitespace; everything dropped is whitespace |
| `Text.StripSpec` | alphafold_testing/evaluation.py:10 | `strip()` is the slice of its input between an all-whitespace prefix and an all-whitespace suffix, has no whitespace at either end, and is empty exactly when the input is all whitespace |
| `Text.SplitSpec` | alphafold_testing/evaluation.py:10 | `split(" ")` gives one piece more than there are spaces, and no piece holds a space |
| `Text.JoinSplit` | alphafold_testing/evaluation.py:10 | joining the pieces of any string with single spaces gives the string back |
| `Text.SplitJoin` | alphafold_testing/evaluation.py:10 | splitting a join of space-free pieces gives those pieces back, in order, with repeats and empty pieces kept |
| `Text.SplitAround` | alphafold_testing/evaluation.py:10 | a space between two strings splits into the pieces of the left followed by the pieces of the right |
| `Text.AdjacentSpacesGiveEmptyPiece` | alphafold_testing/evaluation.py:10 | two adjacent spaces give an empty piece, at the index counted by the spaces up to the first one |
| `Submission.MissingReadsAsEmpty` | alphafold_testing/evaluation.py:7 | a table with a missing prediction fills to the same table as with "" in that cell |
| `Submission.SubmissionFrame.FillMissingPredictions` | alphafold_testing/evaluation.py:7 | the frame's prediction column is overwritten in place: every missing cell becomes "", other cells and the ids stay |
| `Submission.ResiduesCount` | alphafold_testing/evaluation.py:10 | a prediction yields one residue more than its stripped text has spaces |
| `Submission.ResidueIdsAreClean` | alphafold_testing/evaluation.py:10-11 | no emitted residue id contains a space or starts or ends with whitespace |
| `Submission.ExpandRecordSpec` | alphafold_testing/evaluation.py:9-14 | a row emits as many rows as its stripped prediction has spaces plus one; each carries the row's id, the next residue in order and prediction 1 |
| `Submission.ExpandSpec` | alphafold_testing/evaluation.py:8-14 | the expanded table's length is the sum of the per-row counts, so at least one per row, and every row has prediction 1 |
| `Submission.ExpandAppend` | alphafold_testing/evaluation.py:9-11 | expanding two tables one after the other gives the expansion of each, concatenated |
| `Submission.ExpandAt` | alphafold_testing/evaluation.py:9-11 | the rows of input row `i` sit contiguously, in residue order, between those of the rows before and after it |
| `Submission.BlankPredictionGivesOneEmptyRow` | alphafold_testing/evaluation.py:7-11 | a missing, empty or all-blank prediction emits exactly one row, with residue id "" and prediction 1 |
| `Submission.AdjacentSpacesGiveEmptyResidue` | alphafold_testing/evaluation.py:10-11 | two adjacent spaces inside the stripped prediction emit a row whose residue id is "" |
| `Submission.ResiduesRoundTrip` | alphafold_testing/evaluation.py:10-11 | when the only whitespace is the plain space, joining a row's residue ids with single spaces gives its stripped prediction |
| `Submission.ResiduesOfJoin` | alphafold_testing/evaluation.py:10-11 | non-empty whitespace-free ids joined by single spaces come back exactly, in order, duplicates kept |
| `Submission.ExpandRows` | alphafold_testing/evaluation.py:8-14 | the nested loops, appending one pair per residue and tabulating with prediction 1, produce the expansion of the filled table |
| `Submission.ParseSubmission` | alphafold_testing/evaluation.py:6-15 | fills the caller's prediction column in place and returns the expansion of the table the caller passed in, missing predictions read as "" |
| `Scoring.MatchesSpec` | alphafold_testing/evaluation.py:32-33 | the matches of a target row are exactly the prediction rows with its `(id, residue_id)` key |
| `Scoring.MatchesCount` | alphafold_testing/evaluation.py:32-33 | a target row has exactly as many matches as there are prediction rows with its key, so a key submitted twice matches twice |
| `Scoring.MatchesOrder` | alphafold_testing/evaluation.py:32-33 | the matches of concatenated prediction rows are those of each part, in order; a single row is its own match exactly when it has the key |
| `Scoring.MatchedIffSubmitted` | alphafold_testing/evaluation.py:32-33 | a target row has a match exactly when some prediction row has its key |
| `Scoring.UniqueKeysMatchOnce` | alphafold_testing/evaluation.py:32-33 | with unique prediction keys, a target row matches at most one prediction row |
| `Scoring.LeftMergeAppend` | alphafold_testing/evaluation.py:32-33 | merging two target tables one after the other gives the two merges concatenated |
| `Scoring.LeftMergeAt` | alphafold_testing/evaluation.py:32-33 | every target row is kept, in target order, between the rows of the target rows before and after it |
| `Scoring.LeftMergeLength` | alphafold_testing/evaluation.py:32-33 | the merge is never shorter than the target, and has exactly its length iff no target row matches more than once |
| `Scoring.UniqueKeysKeepLength` | alphafold_testing/evaluation.py:32-33 | with unique prediction keys, the merge has the target's length |
| `Scoring.DuplicateKeyFansOut` | alphafold_testing/evaluation.py:32-33 | two prediction rows with the key of one target row make the merged table longer than the target |
| `Scoring.FilledRowOfTarget` | alphafold_testing/evaluation.py:32-35 | with or without repeated keys, every row a target row contributes after filling keeps its key and label and has prediction 1 if the key was submitted and 0 if not |
| `Scoring.MergeFillIsAligned` | alphafold_testing/evaluation.py:32-35 | with unique keys and all predictions 1, merging and filling gives each target row once, in order, with 1 if submitted and 0 if not |
| `Scoring.UnknownResidueIgnored` | alphafold_testing/evaluation.py:32-33 | a prediction row whose key no target row has does not change the merged table |
| `Scoring.CountsBounds` | alphafold_testing/evaluation.py:37-41 | the intersection count never exceeds the union count, nor the union the number of rows |
| `Scoring.PerfectMatch` | alphafold_testing/evaluation.py:37-41 | intersection equals union iff the two columns agree about positivity on every row |
| `Scoring.NoOverlap` | alphafold_testing/evaluation.py:37-41 | the intersection is 0 iff no row is positive in both columns |
| `Scoring.AllNegative` | alphafold_testing/evaluation.py:37-41 | the union is 0 iff both columns are negative on every row |
| `Scoring.JaccardSpec` | alphafold_testing/evaluation.py:41 | the score of counts lies in [0, 1]; it is 1 iff the union is non-empty and equals the intersection, 0 iff the intersection is empty |
| `Scoring.JaccardOfRows` | alphafold_testing/evaluation.py:37-41 | the score is 1.0 iff some row is positive and the columns agree everywhere, and 0.0 iff no row is positive in both |
| `Scoring.Evaluate` | alphafold_testing/evaluation.py:28-41 | given a present target, the counts satisfy intersection <= union <= number of merged rows |
| `Scoring.EvaluateIgnoresUnknownResidue` | alphafold_testing/evaluation.py:32-41 | a submitted residue absent from the target never changes the counts |
| `Scoring.EvaluateSubmission` | alphafold_testing/evaluation.py:26-41 | scoring a parsed submission with unique keys counts the target labels against "this residue was submitted", one row per target row |

## Left out

- Command-line parsing, reading the CSV files and printing the score (`alphafold_testing/evaluation.py:19-25,30,41`) are I/O. `SubmissionFrame`'s constructor stands for the table `read_csv` returns, and the target is a parameter.
- The run without `--target` (`alphafold_testing/evaluation.py:28-33`) hands `None` to the merge, which fails at run time. `Evaluate` requires the target to be present instead of modelling the failure.
- `Scoring.Jaccard` is the exact rational `intersection / union`, with 0 for an empty union. That is the metric's default for zero division. Floating-point rounding and the warning the library emits in that case are not modelled.
- The metric's label validation is not modelled. The library rejects label columns that are not binary. The model reads a label as positive when it is 1, and as negative otherwise.
- pandas type inference is not modelled. Ids, residue ids and keys are strings. A `prediction` column read as numbers, which would make `strip()` fail, is not modelled. The float 0.0/1.0 that `fillna(0)` leaves is the integer 0/1.
- The merge matching a missing key with a missing key is left out: keys are never missing in the model.
- `Text.IsSpace` is a fixed list of the code points `str.isspace` accepts. The list does not follow later Unicode versions. Normalisation and case play no part in the parser.
- A table missing its `prediction`, `id`, `residue_id` or `true` column makes the script fail with a `KeyError`. The model's rows always carry those fields, so that failure is not modelled.
