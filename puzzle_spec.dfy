/** What the puzzle operations do, stated on values.  A puzzle's contents
    are the contents of its squares (cells[i - 1] is square i), the states
    of its groups (gs[g - 1] is group g) and its error list; an operation is
    a function from the mapping and the old contents to the new ones,
    following the loops of the source in the same order. */
module PuzzleSpecs {
  import IntSets
  import opened Geometry
  import opened Errors
  import opened Squares
  import opened GroupSpecs
  import GroupProps

  /** Square and group contents, the puzzle's errors, and the squares logged
      during the operation. */
  datatype PState = PState(cells: seq<Cell>, gs: seq<GroupState>, errs: seq<Error>, logged: set<int>)

  /** The contents fit the mapping: one valid square per index and one valid
      group state per group. */
  predicate PuzzleOk(m: Mapping, st: PState) {
    && WellFormed(m)
    && |st.cells| == m.scount && |st.gs| == m.gcount
    && CellsOk(st.cells, m.sidelen)
    && GroupsOk(m, st.gs)
  }

  /** Every group state fits its descriptor. */
  predicate GroupsOk(m: Mapping, gs: seq<GroupState>) {
    |gs| <= |m.gdescs| && forall g :: 0 <= g < |gs| ==> StateOk(m.gdescs[g], gs[g])
  }

  /** Group g of a well-formed mapping describes squares of cells. */
  lemma GroupFits(m: Mapping, cells: seq<Cell>, g: int)
    requires WellFormed(m) && |cells| == m.scount && 1 <= g <= m.gcount
    ensures Fits(m.gdescs[g - 1], cells) && |m.gdescs[g - 1].indices| == m.sidelen
  {
    assert GroupOk(m.gdescs[g - 1], m.sidelen, m.scount);
  }

  /** No square's assigned value differs between a and b. */
  predicate SameValues(a: seq<Cell>, b: seq<Cell>) {
    |a| == |b| && forall j :: 0 <= j < |a| ==> a[j].aval == b[j].aval
  }

  // ---------------------------------------------------------------------
  // assign (puzzle)

  /** Group g is told that square idx was assigned. */
  function AssignIn(m: Mapping, st: PState, g: int, idx: int): (r: PState)
    requires PuzzleOk(m, st) && 1 <= g <= m.gcount && 1 <= idx <= m.scount && st.cells[idx - 1].aval != 0
    ensures PuzzleOk(m, r) && SameValues(st.cells, r.cells)
  {
    var gd := m.gdescs[g - 1];
    GroupFits(m, st.cells, g);
    GroupProps.AssignKeepsOk(gd, st.gs[g - 1], st.cells, idx);
    var o := AssignSpec(gd, st.gs[g - 1], st.cells, idx);
    PState(o.cells, st.gs[g - 1 := o.g], st.errs + o.errs, st.logged + o.logged)
  }

  /** Part 2 of assign: the groups gis, which contain square idx, are told
      of the assignment in order, stopping after the first that reports
      errors. */
  function AssignGroups(m: Mapping, st: PState, idx: int, gis: seq<int>): (r: PState)
    requires PuzzleOk(m, st) && IntSets.Within(gis, 1, m.gcount) && 1 <= idx <= m.scount
    requires st.cells[idx - 1].aval != 0
    ensures PuzzleOk(m, r) && SameValues(st.cells, r.cells)
    decreases |gis|
  {
    if gis == [] then st
    else
      assert gis[0] in gis;
      var s := AssignIn(m, st, gis[0], idx);
      if |s.errs| > |st.errs| then s
      else
        assert forall x :: x in gis[1..] ==> x in gis;
        AssignGroups(m, s, idx, gis[1..])
  }

  /** Square e is unassigned in cells and belongs to group g, so removing
      a value from it can change what g may conclude. */
  predicate Spreads(m: Mapping, cells: seq<Cell>, e: int, g: int) {
    && 1 <= e <= |cells| && e <= |m.ixmap|
    && cells[e - 1].aval == 0 && g in m.ixmap[e - 1]
  }

  /** Group gi, containing square idx, makes group g worth analyzing: it is
      g itself, or one of its unassigned squares belongs to g. */
  predicate Touches(m: Mapping, cells: seq<Cell>, gi: int, g: int)
    requires WellFormed(m) && 1 <= gi <= m.gcount
  {
    g == gi || exists e :: e in m.gdescs[gi - 1].indices && Spreads(m, cells, e, g)
  }

  /** Part 1 of assign: group g has to be analyzed after square idx is
      assigned, judged on the contents cells right after the square's own
      assignment. */
  predicate Affects(m: Mapping, cells: seq<Cell>, idx: int, g: int)
    requires WellFormed(m) && 1 <= idx <= m.scount
  {
    exists gi :: gi in m.ixmap[idx - 1] && 1 <= gi <= m.gcount && Touches(m, cells, gi, g)
  }

  /** Adds one to the count of each group of gs, in order. */
  function MarkGroups(aff: seq<int>, gs: seq<int>): (r: seq<int>)
    requires IntSets.Within(gs, 0, |aff| - 1)
    ensures |r| == |aff|
    decreases |gs|
  {
    if gs == [] then aff
    else
      assert gs[0] in gs;
      assert forall x :: x in gs[1..] ==> x in gs;
      MarkGroups(aff[gs[0] := aff[gs[0]] + 1], gs[1..])
  }

  /** For each unassigned square of eis, counts the groups containing it. */
  function MarkMembers(m: Mapping, cells: seq<Cell>, aff: seq<int>, eis: seq<int>): (r: seq<int>)
    requires WellFormed(m) && |cells| == m.scount && |aff| == m.gcount + 1
    requires IntSets.Within(eis, 1, m.scount)
    ensures |r| == |aff|
    decreases |eis|
  {
    if eis == [] then aff
    else
      assert eis[0] in eis;
      assert forall x :: x in eis[1..] ==> x in eis;
      var e := eis[0];
      var a := if cells[e - 1].aval == 0 then MarkGroups(aff, m.ixmap[e - 1]) else aff;
      MarkMembers(m, cells, a, eis[1..])
  }

  /** Part 1 of assign over the groups gis: each is counted, and so are the
      groups of its unassigned squares. */
  function MarkAffected(m: Mapping, cells: seq<Cell>, aff: seq<int>, gis: seq<int>): (r: seq<int>)
    requires WellFormed(m) && |cells| == m.scount && |aff| == m.gcount + 1
    requires IntSets.Within(gis, 1, m.gcount)
    ensures |r| == |aff|
    decreases |gis|
  {
    if gis == [] then aff
    else
      assert gis[0] in gis;
      assert forall x :: x in gis[1..] ==> x in gis;
      var gi := gis[0];
      assert GroupOk(m.gdescs[gi - 1], m.sidelen, m.scount);
      MarkAffected(m, cells, MarkMembers(m, cells, aff[gi := aff[gi] + 1], m.gdescs[gi - 1].indices), gis[1..])
  }

  /** Part 1 of assign: the count array, indexed by group number (slot 0
      unused), for the groups containing square idx. */
  function Affected(m: Mapping, cells: seq<Cell>, idx: int): (r: seq<int>)
    requires WellFormed(m) && |cells| == m.scount && 1 <= idx <= m.scount
    ensures |r| == m.gcount + 1
  {
    MarkAffected(m, cells, seq(m.gcount + 1, _ => 0), m.ixmap[idx - 1])
  }

  /** Group g is analyzed. */
  function AnalyzeIn(m: Mapping, st: PState, g: int): (r: PState)
    requires PuzzleOk(m, st) && 1 <= g <= m.gcount
    ensures PuzzleOk(m, r) && SameValues(st.cells, r.cells)
  {
    var gd := m.gdescs[g - 1];
    GroupFits(m, st.cells, g);
    GroupProps.AnalyzeKeepsOk(gd, st.gs[g - 1], st.cells);
    var o := AnalyzeSpec(gd, st.gs[g - 1], st.cells);
    PState(o.cells, st.gs[g - 1 := o.g], st.errs + o.errs, st.logged + o.logged)
  }

  /** Part 3 of assign over the group numbers g..gcount: every group with a
      positive count is analyzed in order, stopping after the first that
      reports errors.  Slot 0 is no group (its count stays 0). */
  function AnalyzeGroups(m: Mapping, st: PState, aff: seq<int>, g: int): (r: PState)
    requires PuzzleOk(m, st) && |aff| == m.gcount + 1 && 0 <= g <= m.gcount + 1
    ensures PuzzleOk(m, r) && SameValues(st.cells, r.cells)
    decreases m.gcount + 1 - g
  {
    if g == m.gcount + 1 then st
    else if 1 <= g && aff[g] > 0 then
      var s := AnalyzeIn(m, st, g);
      if |s.errs| > |st.errs| then s else AnalyzeGroups(m, s, aff, g + 1)
    else AnalyzeGroups(m, st, aff, g + 1)
  }

  /** The square's own assignment, the first step of assign; the logging
      session starts with idx. */
  function SquareAssigned(m: Mapping, st: PState, idx: int, val: int): (r: PState)
    requires PuzzleOk(m, st) && 1 <= idx <= m.scount && 1 <= val <= m.sidelen
    ensures PuzzleOk(m, r) && r.cells[idx - 1].aval == val
  {
    var a := AssignStep(st.cells[idx - 1], idx, val);
    UpdateKeepsOk(st.cells, idx - 1, a.cell, m.sidelen);
    PState(st.cells[idx - 1 := a.cell], st.gs, st.errs + a.errs, {idx})
  }

  /** assign (puzzle): square idx takes val; the groups containing it are
      told, and, when the puzzle then has no errors at all, the affected
      groups are analyzed.  logged is the session's log. */
  function PuzzleAssign(m: Mapping, st: PState, idx: int, val: int): (r: PState)
    requires PuzzleOk(m, st) && 1 <= idx <= m.scount && 1 <= val <= m.sidelen
    ensures PuzzleOk(m, r)
  {
    var s1 := SquareAssigned(m, st, idx, val);
    var s2 := AssignGroups(m, s1, idx, m.ixmap[idx - 1]);
    if |s2.errs| == 0 then AnalyzeGroups(m, s2, Affected(m, s1.cells, idx), 0) else s2
  }

  // ---------------------------------------------------------------------
  // Assign (public)

  /** The outcome of Assign's argument checks. */
  datatype Check = Pass | Reject(error: Error)

  /** Assign's checks, in the source's order: a puzzle with errors, an index
      out of range, a value out of range, an assigned square. */
  function AssignCheck(m: Mapping, st: PState, idx: int, val: int): (r: Check)
    requires |st.cells| == m.scount
    ensures r.Pass? <==> |st.errs| == 0 && 1 <= idx <= m.scount && 1 <= val <= m.sidelen && st.cells[idx - 1].aval == 0
    ensures |st.errs| != 0 ==> r.error.condition == InvalidPuzzleAssignmentCondition
    ensures |st.errs| == 0 && !(1 <= idx <= m.scount) ==> r.error == RangeError(IndexAttribute, idx, 1, m.scount)
    ensures |st.errs| == 0 && 1 <= idx <= m.scount && !(1 <= val <= m.sidelen) ==>
      r.error == RangeError(ValueAttribute, val, 1, m.sidelen)
    ensures |st.errs| == 0 && 1 <= idx <= m.scount && 1 <= val <= m.sidelen && st.cells[idx - 1].aval != 0 ==>
      && r.error.condition == DuplicateAssignmentCondition && r.error.attribute == AssignedValueAttribute
      && r.error.values == [IntDatum(val), IntDatum(idx), IntDatum(st.cells[idx - 1].aval)]
  {
    if |st.errs| != 0 then Reject(Error(ArgumentScope, ScopeStructure, NoAttribute, InvalidPuzzleAssignmentCondition, []))
    else if idx < 1 || idx > m.scount then Reject(RangeError(IndexAttribute, idx, 1, m.scount))
    else if val < 1 || val > m.sidelen then Reject(RangeError(ValueAttribute, val, 1, m.sidelen))
    else if st.cells[idx - 1].aval != 0 then
      var aval := st.cells[idx - 1].aval;
      Reject(Error(ArgumentScope, AttributeValueStructure, AssignedValueAttribute, DuplicateAssignmentCondition,
                   [IntDatum(val), IntDatum(idx), IntDatum(aval)]))
    else Pass
  }

  // ---------------------------------------------------------------------
  // indicesToSquares

  /** The public form of a square. */
  datatype SquareView = SquareView(index: int, aval: int, bval: int, bsrc: seq<GroupId>, pvals: seq<int>)

  /** indicesToSquares for one square: an assigned square shows only its
      value; an unassigned one shows its possible values, and its binding
      only when it has other than one possible value. */
  function View(index: int, c: Cell): (v: SquareView)
    ensures v.index == index && v.aval == c.aval
    ensures c.aval != 0 ==> v.pvals == [] && v.bval == 0 && v.bsrc == []
    ensures c.aval == 0 ==> v.pvals == c.pvals
    ensures v.bval != 0 ==> c.aval == 0 && |c.pvals| != 1 && v.bval == c.bval && v.bsrc == c.bsrc
    ensures c.aval == 0 && |c.pvals| != 1 && c.bval != 0 ==> v.bval == c.bval && v.bsrc == c.bsrc
    ensures v.bval == 0 ==> v.bsrc == []
  {
    if c.aval != 0 then SquareView(index, c.aval, 0, [], [])
    else if |c.pvals| == 1 || c.bval == 0 then SquareView(index, 0, 0, [], c.pvals)
    else SquareView(index, 0, c.bval, c.bsrc, c.pvals)
  }

  /** The views of the squares listed in ixs. */
  function Views(cells: seq<Cell>, ixs: seq<int>): (r: seq<SquareView>)
    requires IntSets.Within(ixs, 1, |cells|)
    ensures |r| == |ixs|
  {
    seq(|ixs|, k requires 0 <= k < |ixs| => assert ixs[k] in ixs; View(ixs[k], cells[ixs[k] - 1]))
  }

  // ---------------------------------------------------------------------
  // create

  /** The square create makes for input value v. */
  function InitialCell(v: int, n: int): Cell {
    if v == 0 then Cell(0, IntSets.Range(n), 0, []) else Cell(v, [], 0, [])
  }

  /** An input value create accepts: 0 (empty) or 1..n. */
  predicate Acceptable(v: int, n: int) {
    v == 0 || 1 <= v <= n
  }

  /** The position of the first value from k on that create rejects, or
      |values| when there is none. */
  function FirstBad(values: seq<int>, n: int, k: nat): (r: nat)
    requires k <= |values|
    ensures k <= r <= |values|
    ensures forall j :: k <= j < r ==> Acceptable(values[j], n)
    ensures r < |values| ==> !Acceptable(values[r], n)
    decreases |values| - k
  {
    if k == |values| then k
    else if !Acceptable(values[k], n) then k
    else FirstBad(values, n, k + 1)
  }

  /** The squares create makes from accepted values. */
  function InitialCells(values: seq<int>, n: int): (r: seq<Cell>)
    requires n >= 1 && forall j :: 0 <= j < |values| ==> Acceptable(values[j], n)
    ensures |r| == |values| && CellsOk(r, n)
    ensures forall j :: 0 <= j < |values| ==> r[j].aval == values[j] && r[j].bval == 0 && r[j].bsrc == []
    ensures forall j :: 0 <= j < |values| && values[j] == 0 ==> forall x :: x in r[j].pvals <==> 1 <= x <= n
    ensures forall j :: 0 <= j < |values| && values[j] != 0 ==> r[j].pvals == []
  {
    IntSets.RangeMembers(n);
    assert CellOk(InitialCell(0, n), n);
    var r := seq(|values|, j requires 0 <= j < |values| => InitialCell(values[j], n));
    assert forall j :: 0 <= j < |values| ==> CellOk(r[j], n) by {
      forall j | 0 <= j < |values| ensures CellOk(r[j], n) {
        assert Acceptable(values[j], n);
        assert values[j] == 0 || r[j].pvals == [];
      }
    }
    r
  }

  /** The group-building loop of create over the first k groups: each new
      group is built on the squares as the earlier groups left them. */
  function BuildGroups(m: Mapping, cells: seq<Cell>, k: int): (r: PState)
    requires WellFormed(m) && |cells| == m.scount && CellsOk(cells, m.sidelen) && 0 <= k <= m.gcount
    ensures |r.gs| == k && |r.cells| == m.scount && CellsOk(r.cells, m.sidelen) && r.logged == {}
    ensures forall g :: 0 <= g < k ==> StateOk(m.gdescs[g], r.gs[g])
    ensures SameValues(cells, r.cells)
    decreases k
  {
    if k == 0 then PState(cells, [], [], {})
    else
      var p := BuildGroups(m, cells, k - 1);
      var gd := m.gdescs[k - 1];
      GroupFits(m, p.cells, k);
      GroupProps.NewGroupKeepsOk(gd, p.cells);
      var o := NewGroupSpec(gd, p.cells);
      PState(o.cells, p.gs + [o.g], p.errs + o.errs, {})
  }

  /** The analysis loop of create over the first k groups; it does not stop
      at errors. */
  function AnalyzeAll(m: Mapping, st: PState, k: int): (r: PState)
    requires PuzzleOk(m, st) && 0 <= k <= m.gcount
    ensures PuzzleOk(m, r) && SameValues(st.cells, r.cells)
    decreases k
  {
    if k == 0 then st
    else
      var p := AnalyzeAll(m, st, k - 1);
      AnalyzeIn(m, p, k).(logged := p.logged)
  }

  /** create: the first rejected value is a range error; otherwise the
      squares are made, the groups built, and every group analyzed. */
  function CreateSpec(m: Mapping, values: seq<int>): (r: Result<PState>)
    requires WellFormed(m) && |values| == m.scount
    ensures r.Ok? ==> PuzzleOk(m, r.value)
  {
    var b := FirstBad(values, m.sidelen, 0);
    if b < |values| then Fail(RangeError(ValueAttribute, values[b], 1, m.sidelen))
    else
      var built := BuildGroups(m, InitialCells(values, m.sidelen), m.gcount);
      Ok(AnalyzeAll(m, built, m.gcount))
  }

  // ---------------------------------------------------------------------
  // New

  /** The compact record a puzzle is rebuilt from. */
  datatype Summary = Summary(geometry: string, sidelen: int, values: seq<int>, errors: seq<Error>)

  /** A geometry's constructor: the mapping for an array of values, or an
      error. */
  type Maker = seq<int> -> Result<Mapping>

  /** Every registered constructor yields a well-formed mapping with one
      square per value. */
  ghost predicate MakersOk(geometries: map<string, Maker>) {
    forall name, vs :: name in geometries && geometries[name](vs).Ok? ==>
      WellFormed(geometries[name](vs).value) && geometries[name](vs).value.scount == |vs|
  }

  /** A registered constructor that succeeds yields a well-formed mapping
      with one square per value. */
  lemma MakerMade(geometries: map<string, Maker>, name: string, vs: seq<int>)
    requires MakersOk(geometries) && name in geometries && geometries[name](vs).Ok?
    ensures WellFormed(geometries[name](vs).value) && geometries[name](vs).value.scount == |vs|
  {
  }

  /** The number of squares of a puzzle with side length n. */
  function Area(n: int): nat {
    if n < 0 then (-n) * (-n) else n * n
  }

  /** New: the record's checks in the source's order, then the geometry's
      constructor and create; a record that declares errors has them
      replace the computed ones, unless none were computed. */
  function NewSpec(s: Summary, geometries: map<string, Maker>): (r: Result<(Mapping, PState)>)
    requires MakersOk(geometries)
    ensures r.Ok? ==> PuzzleOk(r.value.0, r.value.1)
  {
    if s.geometry !in geometries then
      Fail(ArgumentError(GeometryAttribute, UnknownGeometryCondition, [TextDatum(s.geometry)]))
    else if s.sidelen == 0 then
      Fail(ArgumentError(SideLengthAttribute, InvalidArgumentCondition, [IntDatum(0)]))
    else if |s.values| != 0 && |s.values| != Area(s.sidelen) then
      Fail(ArgumentError(PuzzleSizeAttribute, WrongPuzzleSizeCondition, [IntDatum(|s.values|), IntDatum(s.sidelen)]))
    else
      var values := if |s.values| == 0 then seq(Area(s.sidelen), _ => 0) else s.values;
      var made := geometries[s.geometry](values);
      if made.Fail? then Fail(made.error)
      else
        MakerMade(geometries, s.geometry, values);
        var m := made.value;
        var created := CreateSpec(m, values);
        if created.Fail? then Fail(created.error)
        else
          var st := created.value;
          if |s.errors| > 0 && |st.errs| == 0 then
            Fail(ArgumentError(SummaryAttribute, MismatchedSummaryErrorsCondition, [ErrorsDatum(s.errors)]))
          else if |s.errors| > 0 then Ok((m, st.(errs := s.errors)))
          else Ok((m, st))
  }
}
