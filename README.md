# Sudoku puzzle model in Dafny

This project models the engine of `puzzle/model.go`, a Sudoku-style puzzle
that propagates constraints. It follows the source layer by layer, as
imperative Dafny proved against functional specifications.

- **Mapping** (`geometry.dfy`). This gives a puzzle its shape. It holds:
  - the side length, the number of squares and the number of groups;
  - for each group, its descriptor: the group's name and the ascending
    indices of its squares;
  - for each square, the list of the groups that contain it.

  The mapping is an input that the model only reads. Squares and groups
  are numbered from 1, as in the source. Group `g` is described by
  `gdescs[g - 1]`, and the groups of square `i` are listed in `ixmap[i - 1]`.
- **Intsets** (`intsets.dfy`). An intset is a sorted sequence of integers
  with no duplicates. The operations `newIntsetRange`, `find`, `insert`,
  `remove`, `subtract` and `intersect` are methods over `seq<int>`. Their
  loops work like the source's, including the two-pointer merges that
  compact the sequence in place. Each method is proved against the
  functions `Drop` and `Keep` and against set membership.
- **Errors** (`errors.dfy`). An error is a value with these parts: a scope,
  a structure, an attribute, a condition and a list of data. The
  constructors `argumentError`, `rangeError`, `squareError` and
  `groupError` are functions over it.
- **Index logger** (`logger.dfy`). The class `IndexLogger` has a `logging`
  flag and an intset of entries. It has the methods `start`, `stop` and
  `log`.
- **Squares** (`squares.dfy`). The class `Square` has the fields `aval`,
  `pvals`, `bval` and `bsrc`. Its methods `assign`, `bind`, `remove`,
  `subtract`, `intersect` and `removeMultiple` change those fields in
  place and log the square. Each method equals a step function on the
  snapshot `Cell`, such as `AssignStep` or `RemoveStep`. What each step
  reports is stated in lemmas, such as `AssignReports`.
- **Groups** (`group_spec.dfy`, `group_props.dfy`, `groups.dfy`).
  - The class `Group` has the fields `where`, `need` and `free`.
  - `newGroup`, `group.analyze` (with its `setCandidate` helper) and
    `group.assign` are methods over the puzzle's shared sequence of
    squares.
  - Each method is proved equal to a specification function in
    `GroupSpecs`. That function returns an `Outcome`: the group state,
    every square's contents, the errors, and the indices logged.
  - `GroupProps` proves what those functions promise.
- **Puzzle** (`puzzle_spec.dfy`, `puzzle_props.dfy`, `puzzle.dfy`).
  - The class `Puzzle` owns the squares, the groups, the error list and
    the logger.
  - The following are methods proved against the functions of
    `PuzzleSpecs`:
    - `assign`, with its three parts: counting the affected groups,
      telling the containing groups with a break on the first error, and
      analyzing the affected groups with a break on the first error;
    - `Assign` with its argument checks;
    - the deep `copy`;
    - `create`;
    - `New`, with its checks of the summary record;
    - `indicesToSquares`.
  - `PuzzleProps` proves what those functions promise:
    - which groups are affected;
    - what changes and what is logged;
    - every group's `where` table keeps agreeing with the squares;
    - the assigned value is cleared from the containing groups;
    - the checks of `create` and `New`.

## Model

| member | source | states |
|---|---|---|
| IntSets.RangeMembers | puzzle/model.go:960-969 | the range intset is sorted and holds exactly 1..max |
| IntSets.NewRange | puzzle/model.go:960-969 | the loop builds the intset 1..max: sorted, with x in it iff 1 <= x <= max |
| IntSets.Find | puzzle/model.go:983-996 | returns found iff v is in the set; when found, the position holds v; otherwise everything before the position is below v and everything after it is above |
| IntSets.Insert | puzzle/model.go:999-1013 | the result is sorted and holds the old elements plus v; the result is true iff v was present, and then the set is unchanged; the length grows by one exactly when v was absent |
| IntSets.Remove | puzzle/model.go:1016-1030 | the result is the old set without v, in order, still sorted; removed is true iff v was present; otherwise the set is unchanged |
| IntSets.Subtract | puzzle/model.go:1035-1068 | the result is old \ xs in the old order; changed iff something was removed, and then nothing is touched; the marker flag is true iff marker is in old and in xs |
| IntSets.Intersect | puzzle/model.go:1073-1110 | the result is old ∩ xs in the old order; changed iff it shrank; the marker flag is true iff marker is in old and not in xs |
| IntSets.DropProps | puzzle/model.go:1035-1068 | dropping d leaves exactly the elements not in d, keeps the set sorted, and changes nothing iff no element is in d |
| IntSets.KeepProps | puzzle/model.go:1073-1110 | keeping k leaves exactly the elements in k, keeps the set sorted, and changes nothing iff every element is in k |
| IntSets.Unique | puzzle/model.go:954-957 | two sorted duplicate-free sequences with the same elements are equal |
| Errors.ArgumentError | puzzle/model.go:1120-1128 | an argument-scope attribute/value error with the given attribute, condition and values |
| Errors.RangeError | puzzle/model.go:1131-1144 | TooSmall with the minimum iff val < min, otherwise TooLarge with the maximum; the first datum is the value |
| Errors.SquareError | puzzle/model.go:1149-1165 | a square-scope error whose data are the index and the value, plus the possible values for NotInSet |
| Errors.GroupError | puzzle/model.go:1168-1182 | a group-scope error with only the condition, whose data are the group's name and the value |
| Logging.IndexLogger.Start | puzzle/model.go:925-930 | logging is on and the entries are exactly [idx] |
| Logging.IndexLogger.Stop | puzzle/model.go:933-937 | logging is off and the entries are unchanged |
| Logging.IndexLogger.Log | puzzle/model.go:940-946 | while logging, idx joins the entries (still an intset); while not logging, nothing changes |
| Squares.AssignReports | puzzle/model.go:816-830 | assign leaves aval = v and pvals empty, keeps bval and bsrc, and always logs; it reports one NoGroupValue per binding group iff bval is not 0 and not v, and one NotInSet iff v is not possible; there are no other errors |
| Squares.BindReports | puzzle/model.go:836-850 | bind sets bval = v and appends the group to bsrc even when it reports a conflict; the errors are as for assign |
| Squares.RemoveReports | puzzle/model.go:855-870 | remove takes v out of pvals; the square is logged iff v was possible, iff it changed; one NoGroupValue per binding group iff v is the bound value; one NoPossibleValues iff pvals was exactly [v] |
| Squares.NarrowReports | puzzle/model.go:875-910 | subtract and intersect leave pvals minus or intersected with vals; logged iff changed; one NoGroupValue per binding group iff the bound value was lost; one NoPossibleValues iff nothing is left |
| Squares.Square.Empty | puzzle/model.go:802-807 | an unassigned, unbound square whose possible values are 1..sidelen |
| Squares.Square.Filled | puzzle/model.go:809-814 | a square assigned the value, with no possible values |
| Squares.Square.Conflicts | puzzle/model.go:816-830 | the NoGroupValue errors, one for each group that bound the square, in order |
| Squares.Square.Assign | puzzle/model.go:816-830 | the fields and errors are those of AssignStep; the square is logged |
| Squares.Square.Bind | puzzle/model.go:836-850 | the fields and errors are those of BindStep; the square is logged |
| Squares.Square.Remove | puzzle/model.go:855-870 | the fields and errors are those of RemoveStep; the square is logged exactly when v was possible |
| Squares.Square.RemoveMultiple | puzzle/model.go:888-910 | the fields and errors are those of NarrowStep; the square is logged exactly when pvals shrank |
| Squares.Square.Subtract | puzzle/model.go:875-880 | removeMultiple with keep = false |
| Squares.Square.Intersect | puzzle/model.go:882-886 | removeMultiple with keep = true |
| GroupProps.NewGroupRecords | puzzle/model.go:634-658 | after newGroup: where[v] names an assigned square holding v, and is nonzero iff some square holds v; need is the values no square holds; free is the unassigned squares; there is a DuplicateGroupValues error for v iff at least two squares of the group hold v |
| GroupProps.NewGroupDuplicates | puzzle/model.go:647-667 | newGroup reports, for each value v, one DuplicateGroupValues error per square of the group holding v after the first one; where[v] names the last square of the group holding v |
| GroupProps.NewGroupCells | puzzle/model.go:660-664 | each free square is narrowed to need and every other square is unchanged; a square is logged iff it changed |
| GroupProps.NewGroupKeepsOk | puzzle/model.go:634-667 | newGroup keeps the group state and every square well formed, and changes no assigned value |
| GroupSpecs.NewGroupSpec | puzzle/model.go:634-667 | newGroup keeps the number of squares |
| Groups.NewGroup | puzzle/model.go:634-667 | the new group's state, the squares and the errors are those of NewGroupSpec |
| GroupProps.AssignRecords | puzzle/model.go:754-775 | when where[av] = ai, group.assign does nothing and reports nothing; otherwise where[av] = ai, av leaves need, ai leaves free, and there is one DuplicateGroupValues iff where[av] named another square |
| GroupProps.RemovedShorter | puzzle/model.go:1016-1027 | removing a value a square holds shortens its possible values by exactly one |
| GroupProps.AssignSweeps | puzzle/model.go:777-781 | av is removed from every unassigned square of the group; every other square is unchanged; a square is logged iff it changed |
| GroupProps.AssignKeepsOk | puzzle/model.go:754-782 | group.assign keeps the group state and the squares well formed, and changes no assigned value |
| GroupSpecs.AssignSpec | puzzle/model.go:754-782 | group.assign keeps the number of squares |
| Groups.Group.Assign | puzzle/model.go:754-782 | the group state, the squares and the errors are those of AssignSpec |
| GroupProps.SetCandidateShrinks | puzzle/model.go:695-709 | setCandidate takes idx out of free and val out of need and touches nothing else of the group |
| GroupSpecs.CandidateBind | puzzle/model.go:698-701 | a square with more than one possible value is bound as bind does it: bval = val and the group appended to bsrc; any other square is left alone and reports nothing |
| GroupProps.SetCandidateTracks | puzzle/model.go:695-709 | setCandidate changes only bindings, and only of squares with more than one possible value |
| GroupProps.SetCandidateBinds | puzzle/model.go:695-701 | setCandidate changes no possible value and removes no binding source; a square with more than one possible value ends bound to val, with the group among its binding sources |
| GroupProps.SetCandidateDuplicate | puzzle/model.go:702-708 | setCandidate keeps the earlier errors and adds exactly one DuplicateGroupValues error for the group and val iff another square of the group is bound to val |
| GroupSpecs.SetCandidateSpec | puzzle/model.go:695-709 | setCandidate keeps the number of squares |
| Groups.Group.FindBound | puzzle/model.go:703-708 | true iff another square of the group is bound to val |
| Groups.Group.SetCandidate | puzzle/model.go:695-709 | the group state, the squares and the errors are those of SetCandidateSpec |
| GroupSpecs.LastCandidate | puzzle/model.go:716-730 | 0 iff there is no candidate; otherwise it is a free square of the group |
| GroupProps.NoCandidates | puzzle/model.go:725-728 | a count of zero means that no free square with other than one possible value has v |
| GroupProps.OnlyCandidate | puzzle/model.go:725-728 | the recorded last candidate is a candidate; when the count is one, it is the only candidate |
| GroupProps.PhaseOneKeeps | puzzle/model.go:716-730 | the singleton pass removes from need only values held by a singleton, and from free only singleton squares |
| GroupProps.PhaseTwoKeeps | puzzle/model.go:738-745 | the candidate pass removes from need only values with one candidate, and from free only the sole candidates of needed values |
| GroupProps.AnalyzeSettles | puzzle/model.go:689-747 | analyze only shrinks free and need and keeps where; every singleton free square leaves free, and its value leaves need; every needed value with no candidate yields NoGroupValue; a value with one candidate leaves need, its square leaves free, and that square is bound by the group; nothing else leaves: a value held by no singleton and with other than one candidate stays in need, and a square that is neither a singleton nor the only candidate of a needed value stays in free |
| GroupProps.AnalyzeCells | puzzle/model.go:689-747 | analyze changes no assigned value and no possible value; it binds only squares with more than one possible value; no square loses a binding source; a square is logged iff it changed, and a logged square gained a binding source |
| GroupProps.AnalyzeBinds | puzzle/model.go:689-747 | analyze changes no possible value and removes no binding source; for each needed value with exactly one candidate, that last candidate has the group among its binding sources |
| GroupSpecs.AnalyzeSpec | puzzle/model.go:689-747 | analyze keeps the number of squares |
| GroupProps.AnalyzeKeepsOk | puzzle/model.go:689-747 | analyze keeps the group state and the squares well formed |
| Groups.Tally | puzzle/model.go:725-728 | each possible value of the square gets one more count, and the square becomes its last candidate |
| Groups.Group.Analyze | puzzle/model.go:689-747 | the group state, the squares and the errors are those of AnalyzeSpec |
| PuzzleProps.AffectedExact | puzzle/model.go:232-245 | group g gets a positive count iff it contains square idx, or it contains an unassigned square of a group that contains idx |
| PuzzleProps.MarkAffectedPositive | puzzle/model.go:233-245 | the counts that become positive are exactly those of the groups touched through gis |
| Puzzles.CountGroups | puzzle/model.go:240-242 | the loop adds one count per listed group (MarkGroups) |
| Puzzles.CountMembers | puzzle/model.go:236-243 | the loop counts the groups of every unassigned member (MarkMembers) |
| Puzzles.CountAffected | puzzle/model.go:232-245 | the loops compute the affected counts (Affected) |
| PuzzleSpecs.AssignGroups | puzzle/model.go:250-257 | telling the groups keeps the puzzle well formed and changes no assigned value |
| Puzzles.TellGroups | puzzle/model.go:250-257 | the loop over the containing groups, with its break on the first error, leaves the contents of AssignGroups |
| PuzzleSpecs.AnalyzeGroups | puzzle/model.go:262-275 | analyzing the affected groups keeps the puzzle well formed and changes no assigned value |
| Puzzles.AnalyzeAffected | puzzle/model.go:262-275 | the loop over the affected groups, with its break on the first error, leaves the contents of AnalyzeGroups |
| PuzzleProps.AssignGroupsFacts | puzzle/model.go:250-257 | telling the groups only extends the errors and the log, changes only logged squares, and leaves the state of every other group unchanged |
| PuzzleProps.AnalyzeGroupsFacts | puzzle/model.go:262-275 | analyzing the affected groups keeps every possible value and leaves every unaffected group unchanged |
| PuzzleProps.PuzzleAssignValues | puzzle/model.go:211-277 | square idx ends assigned val with no possible values; no other assigned value changes; the errors start with the old errors and the square's own errors |
| PuzzleProps.PuzzleAssignLog | puzzle/model.go:211-277 | the returned indices include idx and name only squares; they are exactly the squares that changed, where idx itself is logged always and changed whenever it was unassigned |
| PuzzleProps.AssignInAdvances | puzzle/model.go:777-781 | telling one group of an assignment takes no square back, and every square it logs lost a possible value |
| PuzzleProps.AnalyzeInAdvances | puzzle/model.go:689-747 | analyzing one group takes no square back, and every square it logs gained a binding source |
| PuzzleProps.AssignAdvances | puzzle/model.go:247-276 | after the square's own assignment, the group sweeps and analyses take no square back and advance every square they newly log |
| PuzzleProps.PuzzleAssignGroups | puzzle/model.go:232-275 | a group that the assignment does not affect keeps its state |
| PuzzleProps.PuzzleAssignConsistent | puzzle/model.go:211-277 | assigning an unassigned square leaves every group's where table naming squares that hold those values |
| PuzzleProps.PuzzleAssignClears | puzzle/model.go:247-257 | when no group reports an error, no unassigned square of a group containing idx keeps val as possible |
| PuzzleSpecs.PuzzleAssign | puzzle/model.go:211-277 | assign keeps the puzzle well formed |
| Puzzles.Puzzle.AssignAt | puzzle/model.go:211-277 | the puzzle becomes PuzzleAssign of the old one; the logger is stopped; the entries returned are the indices logged; the puzzle stays valid |
| PuzzleSpecs.AssignCheck | puzzle/model.go:450-476 | passes iff the puzzle has no errors, idx is in 1..scount, val is in 1..sidelen and the square is unassigned; otherwise it gives the first failing check's error, in that order |
| Puzzles.Puzzle.Assign | puzzle/model.go:446-481 | a rejected choice returns its error and leaves the puzzle unchanged; an accepted one makes the assignment and returns the views of the logged squares and the errors |
| PuzzleSpecs.View | puzzle/model.go:145-161 | an assigned square shows only its value; an unassigned one shows its possible values, and its binding exactly when it has other than one possible value and is bound; an unbound view has no binding sources |
| Puzzles.Puzzle.IndicesToSquares | puzzle/model.go:143-164 | the loop gives the view of each listed square, in order |
| Puzzles.Puzzle.Copy | puzzle/model.go:280-312 | a valid puzzle with the same mapping and contents, made of new squares, groups and logger |
| PuzzleSpecs.FirstBad | puzzle/model.go:511-520 | the first value that is neither 0 nor in 1..n, when there is one |
| PuzzleSpecs.InitialCells | puzzle/model.go:511-520 | one well-formed, unbound square per value, assigned that value; a 0 gives the possible values exactly 1..n, any other value none |
| Puzzles.MakeSquares | puzzle/model.go:509-520 | fails iff some value is rejected, with the range error of the first one; otherwise it makes the initial squares |
| PuzzleProps.CreateAccepts | puzzle/model.go:505-546 | create succeeds iff every value is 0 or in 1..sidelen; otherwise it fails with the range error of the first rejected value |
| PuzzleProps.CreateValues | puzzle/model.go:509-520 | a created puzzle's squares are assigned the input values |
| PuzzleProps.CreateConsistent | puzzle/model.go:522-546 | a created puzzle's where tables agree with its squares |
| PuzzleProps.CreateClears | puzzle/model.go:498-546 | in a created puzzle, no unassigned square of a group keeps the value of an assigned square of that group as possible |
| PuzzleProps.BuildGroupsRelax | puzzle/model.go:522-533 | the groups loop only narrows the squares, and every group built so far has its assigned values cleared from its unassigned squares |
| PuzzleProps.NewGroupRelaxes | puzzle/model.go:634-667 | newGroup only narrows the squares and clears its assigned values from its unassigned squares |
| PuzzleProps.AnalyzeAllNarrower | puzzle/model.go:535-542 | the analysis loop changes no assigned and no possible value |
| PuzzleSpecs.BuildGroups | puzzle/model.go:522-533 | the groups loop builds one well-formed group per descriptor and changes no assigned value |
| Puzzles.BuildAll | puzzle/model.go:526-533 | the loop leaves the contents of BuildGroups, with new groups |
| PuzzleSpecs.AnalyzeAll | puzzle/model.go:535-542 | the analysis loop keeps the puzzle well formed and changes no assigned value |
| Puzzles.AnalyzeEvery | puzzle/model.go:537-542 | the loop leaves the contents of AnalyzeAll |
| PuzzleSpecs.CreateSpec | puzzle/model.go:505-546 | a created puzzle is well formed |
| Puzzles.Create | puzzle/model.go:505-546 | fails exactly as CreateSpec does; otherwise it returns a new valid puzzle whose contents are CreateSpec's |
| PuzzleProps.NewChecks | puzzle/model.go:565-577 | New rejects an unknown geometry, then a side length of 0, then a value count other than 0 or sidelen², each with its own error; a puzzle results only when all pass |
| PuzzleProps.NewKeeps | puzzle/model.go:572-592 | a new puzzle has sidelen² empty squares when no values are given, and otherwise the given values; the record's errors, when it has any, replace the computed ones |
| PuzzleSpecs.NewSpec | puzzle/model.go:561-600 | a new puzzle is well formed |
| Puzzles.Puzzle.SetErrors | puzzle/model.go:582-591 | the puzzle's errors become the given ones and nothing else changes |
| Puzzles.New | puzzle/model.go:561-600 | fails exactly as NewSpec does; otherwise it returns a new valid puzzle with NewSpec's mapping and contents |

## Left out

- `newIntsetCopy` (puzzle/model.go:972-980) is the identity on values. Sequences are values here, so a copy needs no member.
- Metadata maps, JSON shapes, error message text, `allErrors(verbose)` and `GroupID.String` are left out. They hold no logic that the engine reads.
- The nil checks are left out: the nil summary check in `New`, the nil-receiver checks of the logger, and `isValid`. Dafny objects and values are never nil, and the valid flag of a constructed puzzle is always true.
- The geometry constructors and their registry are not part of this model. `New` takes the registry as a parameter: a map from geometry names to functions that yield a mapping or an error. The model then calls `create` on the mapping. In the source, the geometry's constructor calls `create` itself.
- The panics of the source become preconditions: `group.assign` on an unassigned square, and the square and group error constructors called with other conditions.
- The projections `summary`, `state`, `allValues`, `allPossibles` and `allSquares` are left out. They are outside the core operations.
- The source stores squares and groups in slices with an unused slot 0. The model uses sequences indexed from 0: square `i` is `squares[i - 1]`.
- Puzzles.Puzzle.AssignAt: requires the square to be unassigned. `Assign`, its only caller, checks this first.
- Go's integer width is not modelled. `sidelen * sidelen` in `New` could overflow for huge side lengths; the model computes it exactly.
- Squares.NarrowStep: the NoPossibleValues error (Errors.SquareError) stores the narrowing values as a copy. In the source, `removeMultiple` stores the caller's slice itself (puzzle/model.go:904). In `newGroup` that slice is the group's `need` (puzzle/model.go:663). A later in-place `need.remove` in `analyze` (puzzle/model.go:697, 1016-1027) then changes what the source's error shows: a payload [2,5,7] can later read [5,7,7]. The model does not capture this aliasing.
- Puzzles.Puzzle.Assign: the errors in the returned content are the puzzle's error values, without the message text that `allErrors(true)` fills in.
