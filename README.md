# dbinit core in Dafny

This project models the non-graphical core of dbinit, a tool that prepares discrete-breather
initial conditions on a point dataset of atoms. The core has four parts:

- **The LAMMPS data-file scanner** (`lammps_parser.dfy`, module `LammpsParser`). It reads the
  file's lines and does the following:
  - strips `#` comments;
  - takes the box bounds from `xlo xhi` / `ylo yhi` / `zlo zhi` lines, where the last matching
    line wins and missing z bounds are (0, 0);
  - finds the first `Atoms` header;
  - collects the block that follows, up to the next single-word section header;
  - keeps every `id ... x y z` line that parses and silently skips the rest;
  - sorts the atoms stably by id.
- **The project state** (`model.dfy`, module `Model`). `ProjectState` is a class holding:
  - the per-atom label array (`assignment`);
  - the group table, an insertion-ordered dict modelled as a map plus the key order;
  - the undo and redo stacks of `Edit`s;
  - the localisation parameters and two flags.

  Its methods change these fields in place, as add/remove/clear groups, colour rows, undo and
  redo. `Valid()` is the invariant they keep: the table is consistent, every stacked edit fits
  the label array, and the two stacks stay within `max_history`.
- **Selection and the edit transaction** of the main window (`selection.dfy`, module `Selection`;
  `main_window.dfy`, module `MainWindow`). This part consists of:
  - the circle constraint, the nearest-atom pick, the rectangle and line band picks, periodic
    decimation (`keep = arange % N == off`), `np.unique` and the axis sort;
  - `_assign_indices` as the pure `Transaction`, which computes the new labels, the edit pushed
    with eviction past `max_history`, and the cleared redo stack;
  - the class `Editor`, which holds the remembered line (`last_line_orientation`,
    `last_line_indices`) and performs rectangle, line, click and rule selections on its
    `ProjectState`.
- **The project document** (`project_io.dfy`, module `ProjectIO`). `save_project` is a function
  from the state to a typed `Document`. `load_project` is a method that builds a fresh
  `ProjectState` and re-adds the saved groups one by one. `SaveThenLoad` proves that loading a
  saved state gives back:
  - the dataset and the labels;
  - the group table, with its key order;
  - the parameters and both flags;
  - the `ui` entry.

  The loaded state starts with an empty history.

Supporting modules:

- `wrappers.dfy` provides `Option` and `Result`.
- `text.dfy` provides the Python string operations the scanner uses: `split("#", 1)[0]`,
  `strip`, `split`, `lower`, `startswith` and `str(int)`.
- `scan.dfy` provides generic scans: the first element passing a test, the last value a partial
  function gives, and the values it gives in order.

Coordinates are `real`. The host's number parsing (`float(tok)`, `int(tok)`) is the parameter
`Numbers`, a pair of partial functions. The view-dependent quantities are parameters of the
methods that use them: the pick radius `R`, the click tolerance squared and the circle mask.

Several quirks of the code are kept and proved:

- `add` relabels atoms that belong to other groups too (`AddRelabelsAll`).
- The remembered line holds the decimated hits (`Editor.SelectLine`).
- Only single-word section names end the atoms block (`OnlySingleWordKeysEndBlock`). So
  `Pair Coeffs` does not stop the scan.
- `remove_group` bypasses the history, so a later undo can write the removed gid back
  (`RemoveThenUndo`).
- `np.argsort` on the selection paths is not stable. `SortAlong` therefore promises only
  "sorted along the axis, and a permutation", and every caller is specified through that.

## Model

| member | source | states |
|---|---|---|
| Model.ProjectState.constructor | dbi/core/model.py:41-55 | the dataclass defaults: empty table, empty stacks, `max_history` 100, default parameters, both flags true; an empty assignment becomes one zero per atom id |
| Model.ProjectState.ClearGroups | dbi/core/model.py:57-61 | the table is empty, every label is 0 (same length), both stacks are empty, the rest is unchanged |
| Model.ProjectState.AddGroup | dbi/core/model.py:63-66 | the returned group has the given gid, name and colour and direction (1,0,0); it is stored under gid; a new gid goes last in the key order and an existing one keeps its place; every other key keeps its group; labels, stacks and settings are unchanged; Valid is kept |
| Model.PutGroupValid | dbi/core/model.py:65 | storing a group under its gid keeps the table consistent (distinct key order, keys equal to the map's, each group filed under its own gid) |
| Model.Without | dbi/core/model.py:70 | deleting a dict key removes it from the key order and keeps the order distinct |
| Model.ProjectState.RemoveGroup | dbi/core/model.py:68-71 | on a present gid: the key is gone from table and order, exactly the labels equal to gid become 0, other labels are unchanged; the stacks are untouched; on an absent gid nothing changes |
| Model.ProjectState.ColorsRgbaForAll | dbi/core/model.py:73-80 | one row per atom: the unassigned colour for label 0 or a label with no group, otherwise that group's colour |
| Model.ProjectState.Scatter | dbi/core/model.py:89 | `assignment[idx] = vals` is WriteAt on the old labels |
| Model.WriteAtDistinct | dbi/core/model.py:89 | after writing values at distinct indices, each index holds its value |
| Model.WriteAtRestores | dbi/core/model.py:86-98 | writing v1 and then the values that were there before restores the array |
| Model.ProjectState.Undo | dbi/core/model.py:83-91 | returns an edit exactly when `can_undo`; with an empty stack nothing changes; otherwise the top edit is popped, its `before` labels are written at its indices with every other label kept, it is pushed on redo and returned; Valid is kept |
| Model.ProjectState.Redo | dbi/core/model.py:84-98 | the mirror of Undo: pops redo, writes `after`, pushes on undo |
| Model.UndoThenRedo | dbi/core/model.py:86-98 | when the top edit's `after` labels are in place, undo then redo restores the labels and both stacks exactly |
| Model.RedoThenUndo | dbi/core/model.py:86-98 | when the top undone edit's `before` labels are in place, redo then undo restores the labels and both stacks exactly |
| Model.RemoveThenUndo | dbi/core/model.py:68-91 | removing a group and then undoing an edit whose `before` names it leaves that gid on an atom while the gid is no longer in the table |
| LammpsParser.LineBounds | dbi/core/lammps_parser.py:19-27 | a line offers a bound pair exactly when it has at least four comment-stripped tokens and the first two parse as floats; the pair is those two numbers, and its tag is the lowercased last two tokens joined by one space |
| LammpsParser.LastBoundsLines | dbi/core/lammps_parser.py:18-30 | a tag has no bounds exactly when no line gives them; otherwise the bounds are those of a line after which no line gives any (a later line overrides an earlier one) |
| LammpsParser.BoxFrom | dbi/core/lammps_parser.py:31-35 | failure (MissingBoxBounds) exactly when x or y bounds are missing; otherwise x and y from their last lines and z from its last line or (0, 0) |
| LammpsParser.BoxFromFails | dbi/core/lammps_parser.py:31-32 | the box fails exactly when no line gives x bounds or no line gives y bounds |
| LammpsParser.LastBoundsStep | dbi/core/lammps_parser.py:28-30 | one more line sets the bound pair when it gives one and keeps the previous pair otherwise |
| LammpsParser.ParseBox | dbi/core/lammps_parser.py:16-35 | the loop that reassigns the six bounds computes BoxFrom |
| LammpsParser.FirstSection | dbi/core/lammps_parser.py:37-43 | the index found is a header line for the key with none before it; none is found only when no line is a header |
| LammpsParser.FindSection | dbi/core/lammps_parser.py:37-43 | the loop with early return finds the first header for the lowercased key |
| LammpsParser.AtomsKey | dbi/core/lammps_parser.py:38 | the lowered key `Atoms` is `atoms` |
| LammpsParser.AtomsBlockShape | dbi/core/lammps_parser.py:45-58 | the block is a consecutive run after the blank lines that follow the header; none of its lines ends it; it stops at an ending line or at the end of the file |
| LammpsParser.SkipBlanks | dbi/core/lammps_parser.py:49 | the first loop stops at the first non-blank line |
| LammpsParser.IterAtomsBlock | dbi/core/lammps_parser.py:45-58 | the two loops compute the block |
| LammpsParser.OneWordKeys | dbi/core/lammps_parser.py:7-14 | a header key without a space is one of the twelve single-word keys |
| LammpsParser.OnlySingleWordKeysEndBlock | dbi/core/lammps_parser.py:53-55 | a line ends the block only when its head word is a single-word key other than `atoms`; two-word keys such as `pair coeffs` never do |
| LammpsParser.ParseAtomLine | dbi/core/lammps_parser.py:60-70 | a record exactly when there are at least four tokens, the first parses as an int and the last three as floats; the record holds those four numbers |
| LammpsParser.AtomLineColumns | dbi/core/lammps_parser.py:60-70 | the middle columns are ignored: the record depends only on the first and the last three tokens |
| LammpsParser.Accept | dbi/core/lammps_parser.py:83-88 | blank and `#` lines give no record |
| LammpsParser.SkippedLine | dbi/core/lammps_parser.py:84-88 | a skipped line contributes nothing wherever it stands |
| LammpsParser.AcceptedLine | dbi/core/lammps_parser.py:86-89 | an accepted line contributes exactly its record, at its place |
| LammpsParser.AcceptedRecordsMembers | dbi/core/lammps_parser.py:82-89 | a record is kept exactly when some block line gives it |
| LammpsParser.CollectRecords | dbi/core/lammps_parser.py:81-89 | the append loop computes the accepted records in file order |
| LammpsParser.SortById | dbi/core/lammps_parser.py:99 | ascending ids and the same multiset of records |
| LammpsParser.SortByIdStable | dbi/core/lammps_parser.py:99 | a stable mergesort: the records of each id keep their file order |
| LammpsParser.SortByIdUnique | dbi/core/lammps_parser.py:99 | any ascending order that keeps each id's records in order is the sort's result |
| LammpsParser.SortedEqualByIds | dbi/core/lammps_parser.py:99 | two ascending sequences with the same records per id are equal |
| LammpsParser.DataSetOf | dbi/core/lammps_parser.py:94-100 | the four columns have one entry per record, and entry i is record i |
| LammpsParser.RecordsOfDataSetOf | dbi/core/lammps_parser.py:100 | reading the records back from the columns gives the records |
| LammpsParser.SortedDataSet | dbi/core/lammps_parser.py:99-100 | the sorted dataset has four equal-length columns, ascending ids, the same records, and each id's records in file order |
| LammpsParser.LammpsData | dbi/core/lammps_parser.py:72-100 | the error cases in the order the source tests them (missing box bounds, then no atoms header, then zero atoms parsed), each exactly when its condition holds; on success the box is BoxFrom's |
| LammpsParser.LammpsDataResult | dbi/core/lammps_parser.py:91-100 | a successful read has one atom per accepted record and at least one, four equal-length columns, ascending ids, the same records (coordinates travel with their ids), and equal ids in file order |
| LammpsParser.ReadLammpsData | dbi/core/lammps_parser.py:72-100 | the imperative read computes LammpsData |
| Text.BeforeHashSpec | dbi/core/lammps_parser.py:19 | `split("#", 1)[0]` is the prefix up to the first `#`, without `#` |
| Text.StripSpec | dbi/core/lammps_parser.py:19 | `strip()` is the infix of the text left after cutting the whitespace on both sides: it is empty exactly when the line is all whitespace, and otherwise starts and ends with a non-space |
| Text.SplitSpec | dbi/core/lammps_parser.py:21 | `split()` gives non-empty tokens without whitespace, and none exactly for an all-whitespace text |
| Text.SplitJoined | dbi/core/lammps_parser.py:21 | `split()` of words laid out with whitespace gaps (only the outer gaps may be empty) gives back exactly those words, in order |
| Text.SplitCovers | dbi/core/lammps_parser.py:21 | every text is its `split()` tokens laid out with such whitespace gaps, so the tokens are exactly its maximal non-whitespace runs, in order |
| Text.FirstWordSpec | dbi/core/lammps_parser.py:54 | `fw` is the run of non-whitespace characters that starts after the leading whitespace and ends at whitespace or the end of the text; it is empty exactly when the text is all whitespace |
| Scan.FirstFrom | dbi/core/lammps_parser.py:49 | the first position at or after i that passes the test, or the end |
| Scan.LastSomeSpec | dbi/core/lammps_parser.py:18-30 | no value exactly when no element gives one; otherwise the value of an element that no later element overrides |
| Scan.TakeUntil | dbi/core/lammps_parser.py:50-57 | the collecting loop takes the elements up to the first one that passes the test |
| Scan.SkipThenTake | dbi/core/lammps_parser.py:47-57 | after skipping and taking, the skipped elements fail the first test and the taken ones fail the second |
| Scan.CollectMembers | dbi/core/lammps_parser.py:82-89 | a value is collected exactly when some element gives it |
| Selection.Filter | dbi/ui/main_window.py:1067 | boolean-mask indexing keeps the elements satisfying the mask, in order and with their multiplicities |
| Selection.IndicesWhere | dbi/ui/main_window.py:931-936 | `np.nonzero` gives the satisfying indices below n, strictly ascending |
| Selection.ApplyCircleConstraint | dbi/ui/main_window.py:1060-1067 | unchanged when the mask is off, has no centre or has radius at most 0; otherwise the in-order subsequence within squared distance R² of the centre |
| Selection.ApplyCircleMembers | dbi/ui/main_window.py:1060-1067 | an index survives exactly when it is an input and, under an active mask, lies in the disc |
| Selection.RectHitsMembers | dbi/ui/main_window.py:931-937 | the rectangle pick is exactly the atoms inside the closed bounds and the active disc |
| Selection.LineBandMembers | dbi/ui/main_window.py:962-965 | the band pick is exactly the atoms within R of the line and in the active disc |
| Selection.PicksBounded | dbi/ui/main_window.py:937 | the circle constraint keeps indices within the dataset |
| Selection.FirstMinimum | dbi/ui/main_window.py:1057 | `np.argmin`: a least element, before which every element is larger |
| Selection.NearestAtom | dbi/ui/main_window.py:1049-1058 | the first atom of least squared distance, provided it is within tol²; none exactly when every atom is farther than tol² |
| Selection.KeepPositionsStrided | dbi/ui/main_window.py:971-972 | the kept elements are those at positions phase, phase+N, phase+2N, ..., in order |
| Selection.DecimateStrided | dbi/ui/main_window.py:959-972 | decimation by (N, off) keeps exactly the positions congruent to off mod max(1, N) |
| Selection.DecimateByOne | dbi/ui/main_window.py:971 | with stride 1 every hit is kept |
| Selection.KeepPositionsBounded | dbi/ui/main_window.py:972 | decimation keeps indices within the dataset |
| Selection.Unique | dbi/ui/main_window.py:1073 | `np.unique`: strictly ascending, with the same elements |
| Selection.AscendingListingUnique | dbi/ui/main_window.py:1073 | a set has only one ascending listing |
| Selection.UniqueOfAscending | dbi/ui/main_window.py:1438 | `np.unique` of `sorted(set(final))` gives it back |
| Selection.UniqueBounded | dbi/ui/main_window.py:1073-1074 | deduplication keeps indices within the dataset |
| Selection.SortAlong | dbi/ui/main_window.py:969-970 | `idx[argsort(key[idx])]`: a permutation of the hits, sorted by the key |
| MainWindow.PushedEdit | dbi/ui/main_window.py:1102-1107 | the recorded edit fits the label array: ascending, distinct, in-range indices; before and after of equal length |
| MainWindow.AddRelabelsAll | dbi/ui/main_window.py:1097 | `add` gives every selected atom the active gid, whichever group it had before |
| MainWindow.TransactionLabels | dbi/ui/main_window.py:1072-1104 | a refused transaction (gid 0 with add or toggle, or an unknown mode) changes nothing; otherwise the selected atoms get the mode's label (remove gives 0, toggle swaps gid and 0, add gives gid) and every other atom keeps its label |
| MainWindow.TransactionHistory | dbi/ui/main_window.py:1105-1110 | the redo stack is cleared, the edit goes on top, and the oldest edit is dropped once `max_history` would be exceeded |
| MainWindow.TransactionKeepsFit | dbi/ui/main_window.py:1102-1110 | every stacked edit still fits the labels, and the history stays within its bound |
| MainWindow.TransactionEdit | dbi/ui/main_window.py:1102-1107 | the edit holds the deduplicated selection with exactly the labels there before and after |
| MainWindow.TransactionUndone | dbi/ui/main_window.py:1102-1107 | writing the edit's `before` back over the result restores the labels the transaction started from |
| MainWindow.ToggleTwice | dbi/ui/main_window.py:1087 | toggling the same atoms twice restores them exactly when each was unlabelled or in the active group |
| MainWindow.SortedSetTransaction | dbi/ui/main_window.py:1438 | assigning `sorted(set(final))` is the same transaction as assigning `final` |
| MainWindow.ClickTarget | dbi/ui/main_window.py:1009-1017 | the nearest atom within tolerance, unless an active mask excludes it |
| MainWindow.PerpBandBounded | dbi/ui/main_window.py:1416-1419 | the perpendicular band through an anchor holds atom indices only |
| MainWindow.RuleUnionMembers | dbi/ui/main_window.py:1413-1433 | an atom is in `final` exactly when one band's decimation keeps it |
| MainWindow.RuleUnionBounded | dbi/ui/main_window.py:1423 | `final` holds atom indices only |
| MainWindow.RuleBands | dbi/ui/main_window.py:1413-1433 | the anchor loop: one band per anchor, each a permutation of that anchor's perpendicular band sorted across the line, and `final` the union of their decimations |
| MainWindow.IdToIndex | dbi/ui/main_window.py:1195 | the id map has exactly the dataset's ids, each mapped to a position holding it, with no later position holding it (a later duplicate wins) |
| MainWindow.Pos | dbi/ui/main_window.py:1207-1215 | `pos(id)` fails exactly for an unknown id; otherwise it is the (x, y) of the last atom with that id, as the id map keeps the later duplicate |
| MainWindow.ApplyTransaction | dbi/ui/main_window.py:1069-1110 | the in-place writes, the push with `pop(0)` and the redo clear give Transaction's labels and history; settings unchanged; Valid kept |
| MainWindow.CommitEdit | dbi/ui/main_window.py:1102-1110 | the edit's new labels written in place, the given undo stack and an empty redo stack; Valid kept; settings unchanged |
| MainWindow.Editor.constructor | dbi/ui/main_window.py:44-62 | the editor starts with no active group and no remembered line |
| MainWindow.Editor.AssignIndices | dbi/ui/main_window.py:1069-1110 | `_assign_indices` on the editor's state is Transaction with the active gid |
| MainWindow.Editor.SelectRect | dbi/ui/main_window.py:923-946 | an empty pick changes nothing; otherwise the pick is assigned with add when the base selection is preserved and toggle otherwise |
| MainWindow.Editor.SelectLine | dbi/ui/main_window.py:951-1006 | an empty band changes nothing, not even the remembered line; otherwise the band sorted along the line is decimated, remembered with the orientation, and assigned |
| MainWindow.Editor.Click | dbi/ui/main_window.py:1008-1024 | no target, no change; otherwise the atom is added when unlabelled and removed when labelled (base preserved), or toggled |
| MainWindow.Editor.ApplyRule | dbi/ui/main_window.py:1357-1438 | it needs a remembered line; the anchors are that line sorted along its axis and decimated by (N, Off); each anchor's perpendicular band is sorted and decimated by (M, Off2); the union is added with `add`; no anchors or an empty union change nothing |
| MainWindow.AssignThenUndo | dbi/ui/main_window.py:1102-1110 | an assignment that goes ahead followed by undo restores the labels and leaves exactly its edit on the redo stack |
| ProjectIO.LoadedGroupsValid | dbi/core/project_io.py:51-54 | the loaded group table is consistent |
| ProjectIO.LoadedGroupsKeys | dbi/core/project_io.py:52-54 | a gid is loaded exactly when some saved record has it |
| ProjectIO.LoadedGroupsLast | dbi/core/project_io.py:52-54 | the last record of a gid is the one kept |
| ProjectIO.ReloadPrefix | dbi/core/project_io.py:23-28 | loading the records of the first n keys gives those keys in order, each with its group |
| ProjectIO.SavedGroupsReload | dbi/core/project_io.py:23-54 | the saved group list, loaded again, gives the same key order and the same groups |
| ProjectIO.ReAddGroups | dbi/core/project_io.py:51-54 | the `add_group` loop with the direction set afterwards builds the loaded table; everything else is unchanged |
| ProjectIO.LoadProject | dbi/core/project_io.py:39-59 | a fresh valid state with the document's data, labels, groups, parameters and flags (missing ones true); empty history with the default bound; the `ui` entry or an empty object |
| ProjectIO.SaveThenLoad | dbi/core/project_io.py:8-59 | load after save gives back the dataset, labels, group order and groups, parameters, both flags and the `ui` object; the history is empty |

## Left out

- File and text I/O are not modelled: `read_text`, `splitlines` and the utf-8 decoding. The
  scanner starts from the file's lines.
- JSON text is not modelled: `json.dumps` and `json.loads`. A document is the decoded object, as
  the typed `Document`. A document with a missing key or a value of the wrong type makes the
  source raise; the typed document cannot express one, so that error path is not modelled.
- `float()` and `int()` on tokens are the parameter `Numbers`. Float rounding, `nan` and `inf`
  are not modelled. A float round trip through JSON text is assumed exact.
- Lowercasing is modelled on ASCII letters only. No other character lowers to a character of
  the compared keys.
- The Qt presentation is not modelled: widgets, overlays, scatter colours, the log, dialogs and
  the dirty flag. The values read from widgets are method parameters: R and its diameter-based
  fallback, N, offset, M, Off2, the pick tolerance and the circle mask.
- `eval` of the centre expression is not modelled, because it is the host's evaluator. Neither
  is the check that the result has at least two components. Only `id_to_index` and `pos` are
  modelled.
- `dbi/core/color_utils.py` and the exporter are not part of this model.
- `Selection.NearestAtom`: on a dataset with no atoms the model returns none, while `np.argmin`
  would raise.
- `_assign_indices` returns early when `self.state` is None. The model always has a state, so
  that branch is not modelled. The same holds for the `not self.dataset` guards.
- Labels are unbounded integers, not `int32`.
- Indices are natural numbers, so numpy's negative-index wraparound cannot occur.
- `Selection.SortAlong`: the `np.argsort` calls on the selection paths (dbi/ui/main_window.py:969,
  991, 1395, 1397, 1420, 1430) use numpy's default, unstable sort. The order of equal
  coordinates is therefore left open: the contract gives a permutation sorted by the key, and
  every selection contract holds for any such permutation.
- `LammpsParser.LammpsData`: `np.asarray(ids, dtype=int)` (dbi/core/lammps_parser.py:94) raises
  `OverflowError` for an id outside 64-bit range. The model keeps ids as unbounded integers and
  succeeds for them.
- `Model.ProjectState.ColorsRgbaForAll`: the source writes each colour into a 4-column `np.ubyte`
  array (dbi/core/model.py:74-79). A colour without four components raises, and components
  outside 0..255 raise or wrap. The model returns the colours as given.
- `Model.ProjectState.AddGroup` and `Model.ProjectState.ColorsRgbaForAll`: the default arguments
  `(200,200,200,255)` and `(160,160,160,255)` (dbi/core/model.py:63, 73) are not modelled. The
  colour is a required parameter, and every caller passes one (dbi/ui/main_window.py:638, 832;
  dbi/core/project_io.py:54).
- `MainWindow.Pos`: the `int(atom_id)` coercion (dbi/ui/main_window.py:1208-1211) is not
  modelled. The id is an integer argument, so `pos(3.7)` (atom 3) and the `ValueError` for a
  non-numeric id are outside the model.
- `MainWindow.Editor.SelectLine` and `MainWindow.Editor.ApplyRule` return the sorted hits they
  used. The source keeps these internal, so the contracts are stated relative to them.
- Loading a project in the window does not reset the remembered line. A recorded
  `last_line_indices` can then address atoms of the previous dataset. The model's `Editor` keeps
  one state, so this staleness is not modelled.
