/** The puzzle: its mapping, its squares and groups (shared objects that
    the groups update in place), its error list and its logger.  Every
    method is proved to leave the puzzle as the matching function of
    PuzzleSpecs says, and to keep the puzzle valid: its contents fit the
    mapping and every group's table agrees with the squares. */
module Puzzles {
  import IntSets
  import opened Geometry
  import opened Errors
  import opened Logging
  import opened Squares
  import opened GroupSpecs
  import opened Groups
  import opened PuzzleSpecs
  import PuzzleProps

  /** The states of a sequence of groups. */
  function GStates(gs: seq<Group>): seq<GroupState>
    reads set g | g in gs
  {
    seq(|gs|, k reads set g | g in gs requires 0 <= k < |gs| => gs[k].State())
  }

  /** The groups gs are distinct and are the first groups of m, in order. */
  predicate Described(m: Mapping, gs: seq<Group>) {
    && |gs| <= |m.gdescs|
    && (forall g :: 0 <= g < |gs| ==> gs[g].desc == m.gdescs[g])
    && (forall a, b :: 0 <= a < |gs| && 0 <= b < |gs| && a != b ==> gs[a] != gs[b])
  }

  /** A new group for the next descriptor extends the described groups. */
  lemma DescribedAppend(m: Mapping, gs: seq<Group>, g: Group)
    requires Described(m, gs) && |gs| < |m.gdescs| && g.desc == m.gdescs[|gs|] && g !in gs
    ensures Described(m, gs + [g])
  {
    forall a, b | 0 <= a < |gs| + 1 && 0 <= b < |gs| + 1 && a != b ensures (gs + [g])[a] != (gs + [g])[b] {
      if a == |gs| {
        assert (gs + [g])[b] == gs[b];
      } else if b == |gs| {
        assert (gs + [g])[a] == gs[a];
      }
    }
  }

  /** The squares ss and groups gs are laid out as m says, and the squares
      all report to the logger lg. */
  ghost predicate Laid(m: Mapping, ss: seq<Square>, gs: seq<Group>, lg: IndexLogger)
    reads lg
  {
    WellFormed(m) && |ss| == m.scount && Indexed(ss, lg) && lg.Valid() && Described(m, gs)
  }

  /** The contents of the squares ss and groups gs, with the error list errs
      and the indices the logger lg holds. */
  ghost function Contents(ss: seq<Square>, gs: seq<Group>, errs: seq<Error>, lg: IndexLogger): PState
    reads lg, (set s | s in ss), (set g | g in gs)
  {
    PState(Cells(ss), GStates(gs), errs, lg.Elements())
  }

  // ---------------------------------------------------------------------
  // Part 1 of assign: the count array

  /** The innermost loop of Part 1: one more count for each group of gis. */
  method CountGroups(aff: seq<int>, gis: seq<int>) returns (r: seq<int>)
    requires IntSets.Within(gis, 0, |aff| - 1)
    ensures r == MarkGroups(aff, gis)
  {
    r := aff;
    var k := 0;
    while k < |gis|
      invariant 0 <= k <= |gis| && |r| == |aff|
      invariant IntSets.Within(gis[k..], 0, |aff| - 1)
      invariant MarkGroups(aff, gis) == MarkGroups(r, gis[k..])
    {
      assert gis[k] in gis[k..];
      assert gis[k..][1..] == gis[k + 1..];
      IntSets.WithinFrom(gis, k + 1, 0, |aff| - 1);
      r := r[gis[k] := r[gis[k]] + 1];
      k := k + 1;
    }
  }

  /** The middle loop of Part 1: every unassigned square of eis counts its
      groups. */
  method CountMembers(m: Mapping, ss: seq<Square>, aff: seq<int>, eis: seq<int>) returns (r: seq<int>)
    requires WellFormed(m) && |ss| == m.scount && |aff| == m.gcount + 1
    requires IntSets.Within(eis, 1, m.scount)
    ensures r == MarkMembers(m, Cells(ss), aff, eis)
  {
    r := aff;
    var k := 0;
    while k < |eis|
      invariant 0 <= k <= |eis| && |r| == |aff|
      invariant IntSets.Within(eis[k..], 1, m.scount)
      invariant MarkMembers(m, Cells(ss), aff, eis) == MarkMembers(m, Cells(ss), r, eis[k..])
    {
      var e := eis[k];
      assert e in eis[k..];
      assert eis[k..][1..] == eis[k + 1..];
      IntSets.WithinFrom(eis, k + 1, 1, m.scount);
      assert Cells(ss)[e - 1] == ss[e - 1].State();
      if ss[e - 1].aval == 0 {
        r := CountGroups(r, m.ixmap[e - 1]);
      }
      k := k + 1;
    }
  }

  /** Part 1 of assign: the groups of square idx are counted, and so are
      the groups of their unassigned squares. */
  method CountAffected(m: Mapping, ss: seq<Square>, idx: int) returns (r: seq<int>)
    requires WellFormed(m) && |ss| == m.scount && 1 <= idx <= m.scount
    ensures r == Affected(m, Cells(ss), idx)
  {
    var gis := m.ixmap[idx - 1];
    r := seq(m.gcount + 1, _ => 0);
    var k := 0;
    while k < |gis|
      invariant 0 <= k <= |gis| && |r| == m.gcount + 1
      invariant IntSets.Within(gis[k..], 1, m.gcount)
      invariant Affected(m, Cells(ss), idx) == MarkAffected(m, Cells(ss), r, gis[k..])
    {
      var gi := gis[k];
      assert gi in gis[k..];
      assert gis[k..][1..] == gis[k + 1..];
      IntSets.WithinFrom(gis, k + 1, 1, m.gcount);
      assert GroupOk(m.gdescs[gi - 1], m.sidelen, m.scount);
      r := r[gi := r[gi] + 1];
      r := CountMembers(m, ss, r, m.gdescs[gi - 1].indices);
      k := k + 1;
    }
  }

  // ---------------------------------------------------------------------
  // One step of the puzzle's loops, seen from the whole puzzle

  /** The square's own assignment, the first step of assign. */
  method AssignSquare(ss: seq<Square>, idx: int, val: int, ghost lg: IndexLogger) returns (errs: seq<Error>)
    requires Indexed(ss, lg) && lg.Valid() && 1 <= idx <= |ss| && IntSets.Valid(ss[idx - 1].pvals)
    modifies ss[idx - 1], lg
    ensures var a := AssignStep(old(Cells(ss))[idx - 1], idx, val);
      Cells(ss) == old(Cells(ss))[idx - 1 := a.cell] && errs == a.errs && Noted(lg, {idx})
  {
    ghost var before := Cells(ss);
    errs := ss[idx - 1].Assign(val);
    Others(ss, lg, idx - 1);
    assert Cells(ss) == before[idx - 1 := ss[idx - 1].State()];
  }

  /** Part 2 of assign for group g: the group is told that square idx was
      assigned; its errors are returned. */
  method TellGroup(m: Mapping, ss: seq<Square>, gs: seq<Group>, g: int, idx: int, ghost st: PState, ghost lg: IndexLogger)
    returns (errs: seq<Error>)
    requires Laid(m, ss, gs, lg) && lg.logging && 1 <= g <= |gs| && 1 <= idx <= m.scount
    requires PuzzleOk(m, st) && st.cells[idx - 1].aval != 0 && Contents(ss, gs, st.errs, lg) == st
    modifies gs[g - 1], (set s | s in ss), lg
    ensures Laid(m, ss, gs, lg) && lg.logging
    ensures Contents(ss, gs, st.errs + errs, lg) == AssignIn(m, st, g, idx)
  {
    var gr := gs[g - 1];
    GroupFits(m, st.cells, g);
    assert gr.State() == st.gs[g - 1] && StateOk(gr.desc, gr.State());
    assert st.cells[idx - 1] == ss[idx - 1].State();
    errs := gr.Assign(ss, idx, lg);
    assert GStates(gs) == st.gs[g - 1 := gr.State()];
  }

  /** Group g is analyzed; its errors are returned.  The logged indices
      grow only while the logger is on. */
  method AnalyzeGroup(m: Mapping, ss: seq<Square>, gs: seq<Group>, g: int, ghost st: PState, ghost lg: IndexLogger)
    returns (errs: seq<Error>)
    requires Laid(m, ss, gs, lg) && 1 <= g <= |gs|
    requires PuzzleOk(m, st) && Contents(ss, gs, st.errs, lg) == st
    modifies gs[g - 1], (set s | s in ss), lg
    ensures Laid(m, ss, gs, lg) && lg.logging == old(lg.logging)
    ensures var r := AnalyzeIn(m, st, g);
      Contents(ss, gs, st.errs + errs, lg) == if lg.logging then r else r.(logged := st.logged)
  {
    var gr := gs[g - 1];
    GroupFits(m, st.cells, g);
    assert gr.State() == st.gs[g - 1] && StateOk(gr.desc, gr.State());
    errs := gr.Analyze(ss, lg);
    assert GStates(gs) == st.gs[g - 1 := gr.State()];
  }

  // ---------------------------------------------------------------------
  // Parts 2 and 3 of assign

  /** Part 2 of assign: the groups containing square idx are told of the
      assignment in order; the first to report errors has them appended
      to errs0 and ends the loop. */
  method TellGroups(m: Mapping, ss: seq<Square>, gs: seq<Group>, idx: int, errs0: seq<Error>,
                    ghost st: PState, ghost lg: IndexLogger) returns (errs: seq<Error>)
    requires Laid(m, ss, gs, lg) && lg.logging && 1 <= idx <= m.scount
    requires PuzzleOk(m, st) && st.cells[idx - 1].aval != 0 && st.errs == errs0 && Contents(ss, gs, errs0, lg) == st
    modifies (set g | g in gs), (set s | s in ss), lg
    ensures Laid(m, ss, gs, lg) && lg.logging
    ensures Contents(ss, gs, errs, lg) == AssignGroups(m, st, idx, m.ixmap[idx - 1])
  {
    var gis := m.ixmap[idx - 1];
    ghost var target := AssignGroups(m, st, idx, gis);
    errs := errs0;
    var stop := false;
    var k := 0;
    while k < |gis| && !stop
      invariant 0 <= k <= |gis| && Laid(m, ss, gs, lg) && lg.logging
      invariant IntSets.Within(gis[k..], 1, m.gcount)
      invariant var cur := Contents(ss, gs, errs, lg);
        && PuzzleOk(m, cur) && cur.cells[idx - 1].aval != 0
        && (stop ==> cur == target)
        && (!stop ==> target == AssignGroups(m, cur, idx, gis[k..]))
    {
      ghost var cur := Contents(ss, gs, errs, lg);
      var gi := gis[k];
      assert gi in gis[k..];
      assert gis[k..][1..] == gis[k + 1..];
      IntSets.WithinFrom(gis, k + 1, 1, m.gcount);
      var e := TellGroup(m, ss, gs, gi, idx, cur, lg);
      errs := errs + e;
      if |e| > 0 {
        stop := true;
      }
      k := k + 1;
    }
  }

  /** Part 3 of assign: the groups with a positive count in aff are
      analyzed in order; the first to report errors has them appended to
      errs0 and ends the loop. */
  method AnalyzeAffected(m: Mapping, ss: seq<Square>, gs: seq<Group>, aff: seq<int>, errs0: seq<Error>,
                         ghost st: PState, ghost lg: IndexLogger) returns (errs: seq<Error>)
    requires Laid(m, ss, gs, lg) && lg.logging && |aff| == m.gcount + 1
    requires PuzzleOk(m, st) && st.errs == errs0 && Contents(ss, gs, errs0, lg) == st
    modifies (set g | g in gs), (set s | s in ss), lg
    ensures Laid(m, ss, gs, lg) && lg.logging
    ensures Contents(ss, gs, errs, lg) == AnalyzeGroups(m, st, aff, 0)
  {
    ghost var target := AnalyzeGroups(m, st, aff, 0);
    errs := errs0;
    var stop := false;
    var g := 0;
    while g <= m.gcount && !stop
      invariant 0 <= g <= m.gcount + 1 && Laid(m, ss, gs, lg) && lg.logging
      invariant var cur := Contents(ss, gs, errs, lg);
        && PuzzleOk(m, cur)
        && (stop ==> cur == target)
        && (!stop ==> target == AnalyzeGroups(m, cur, aff, g))
    {
      ghost var cur := Contents(ss, gs, errs, lg);
      if 1 <= g && aff[g] > 0 {
        var e := AnalyzeGroup(m, ss, gs, g, cur, lg);
        errs := errs + e;
        if |e| > 0 {
          stop := true;
        }
      }
      g := g + 1;
    }
  }

  /** The whole of assign while the logger runs a session started with
      idx: the square's assignment, then Parts 1, 2 and 3. */
  method Propagate(m: Mapping, ss: seq<Square>, gs: seq<Group>, idx: int, val: int, errs0: seq<Error>,
                   ghost st: PState, ghost lg: IndexLogger) returns (errs: seq<Error>)
    requires Laid(m, ss, gs, lg) && lg.logging && lg.entries == [idx]
    requires 1 <= idx <= m.scount && 1 <= val <= m.sidelen
    requires PuzzleOk(m, st) && Contents(ss, gs, errs0, lg) == st.(logged := {idx})
    modifies (set g | g in gs), (set s | s in ss), lg
    ensures Laid(m, ss, gs, lg) && lg.logging
    ensures Contents(ss, gs, errs, lg) == PuzzleAssign(m, st, idx, val)
  {
    assert Cells(ss)[idx - 1] == ss[idx - 1].State();
    var e := AssignSquare(ss, idx, val, lg);
    errs := errs0 + e;
    ghost var s1 := SquareAssigned(m, st, idx, val);
    assert Contents(ss, gs, errs, lg) == s1;
    var affected := CountAffected(m, ss, idx);
    errs := TellGroups(m, ss, gs, idx, errs, s1, lg);
    ghost var s2 := AssignGroups(m, s1, idx, m.ixmap[idx - 1]);
    if |errs| == 0 {
      errs := AnalyzeAffected(m, ss, gs, affected, errs, s2, lg);
    }
  }

  /** What the puzzle keeps of an assignment's outcome: not its log. */
  lemma Unlogged(m: Mapping, r: PState)
    requires PuzzleOk(m, r) && PuzzleProps.Consistent(r)
    ensures PuzzleOk(m, r.(logged := {})) && PuzzleProps.Consistent(r.(logged := {}))
  {
  }

  // ---------------------------------------------------------------------
  // The puzzle

  /** The public result of an assignment: the squares it changed and the
      puzzle's errors. */
  datatype Content = Content(squares: seq<SquareView>, errors: seq<Error>)

  class Puzzle {
    const mapping: Mapping
    const squares: seq<Square>
    const groups: seq<Group>
    var errors: seq<Error>
    const logger: IndexLogger

    /** The puzzle's contents. */
    ghost function State(): PState
      reads this, set s | s in squares, set g | g in groups
    {
      PState(Cells(squares), GStates(groups), errors, {})
    }

    /** A puzzle between operations: laid out as its mapping says, not
        logging, its contents fitting the mapping and every group's table
        agreeing with the squares. */
    ghost predicate Valid()
      reads this, logger, set s | s in squares, set g | g in groups
    {
      && Laid(mapping, squares, groups, logger) && !logger.logging
      && PuzzleOk(mapping, State()) && PuzzleProps.Consistent(State())
    }

    /** The puzzle assembled from its parts. */
    constructor (mapping: Mapping, squares: seq<Square>, groups: seq<Group>, errors: seq<Error>, logger: IndexLogger)
      ensures this.mapping == mapping && this.squares == squares && this.groups == groups
      ensures this.errors == errors && this.logger == logger
    {
      this.mapping := mapping;
      this.squares := squares;
      this.groups := groups;
      this.errors := errors;
      this.logger := logger;
    }

    /** assign: square idx, which is unassigned, takes val; the change is
        propagated through the groups.  The logger's entries, returned,
        are the squares the assignment changed. */
    method AssignAt(idx: int, val: int) returns (entries: seq<int>)
      requires Valid() && 1 <= idx <= mapping.scount && 1 <= val <= mapping.sidelen
      requires State().cells[idx - 1].aval == 0
      modifies this, logger, (set s | s in squares), (set g | g in groups)
      ensures Valid() && entries == logger.entries
      ensures var r := PuzzleAssign(mapping, old(State()), idx, val);
        State() == r.(logged := {}) && IntSets.Valid(entries) && IntSets.Elems(entries) == r.logged
    {
      ghost var st := State();
      logger.Start(idx);
      errors := Propagate(mapping, squares, groups, idx, val, errors, st, logger);
      ghost var r := PuzzleAssign(mapping, st, idx, val);
      assert State() == r.(logged := {});
      PuzzleProps.PuzzleAssignConsistent(mapping, st, idx, val);
      Unlogged(mapping, r);
      logger.Stop();
      entries := logger.entries;
    }

    /** The puzzle's errors become es, as New does for a record that
        declares errors. */
    method SetErrors(es: seq<Error>)
      requires Valid()
      modifies this
      ensures Valid() && State() == old(State()).(errs := es)
    {
      errors := es;
    }

    /** indicesToSquares: the public form of the squares listed in ixs. */
    method IndicesToSquares(ixs: seq<int>) returns (vs: seq<SquareView>)
      requires Indexed(squares, logger) && IntSets.Within(ixs, 1, |squares|)
      ensures vs == Views(Cells(squares), ixs)
    {
      vs := [];
      var k := 0;
      while k < |ixs|
        invariant 0 <= k <= |ixs| && |vs| == k
        invariant forall t :: 0 <= t < k ==> vs[t] == Views(Cells(squares), ixs)[t]
      {
        assert ixs[k] in ixs;
        var s := squares[ixs[k] - 1];
        assert Cells(squares)[ixs[k] - 1] == s.State();
        var v := SquareView(s.index, 0, 0, [], []);
        if s.aval != 0 {
          v := v.(aval := s.aval);
        } else {
          v := v.(pvals := s.pvals);
          if |s.pvals| != 1 && s.bval != 0 {
            v := v.(bval := s.bval, bsrc := s.bsrc);
          }
        }
        vs := vs + [v];
        k := k + 1;
      }
    }

    /** Assign: the checks of AssignCheck, in order, reject the choice with
        the puzzle unchanged; otherwise the assignment is made and the
        squares it changed are returned with the puzzle's errors. */
    method Assign(idx: int, val: int) returns (r: Result<Content>)
      requires Valid()
      modifies this, logger, (set s | s in squares), (set g | g in groups)
      ensures Valid()
      ensures var c := AssignCheck(mapping, old(State()), idx, val);
        && (c.Reject? ==> r == Fail(c.error) && State() == old(State()))
        && (c.Pass? ==>
              var n := PuzzleAssign(mapping, old(State()), idx, val);
              && State() == n.(logged := {})
              && IntSets.Valid(logger.entries) && IntSets.Elems(logger.entries) == n.logged
              && IntSets.Within(logger.entries, 1, mapping.scount)
              && r == Ok(Content(Views(n.cells, logger.entries), n.errs)))
    {
      if |errors| != 0 {
        return Fail(Error(ArgumentScope, ScopeStructure, NoAttribute, InvalidPuzzleAssignmentCondition, []));
      }
      if idx < 1 || idx > mapping.scount {
        return Fail(RangeError(IndexAttribute, idx, 1, mapping.scount));
      }
      if val < 1 || val > mapping.sidelen {
        return Fail(RangeError(ValueAttribute, val, 1, mapping.sidelen));
      }
      assert Cells(squares)[idx - 1] == squares[idx - 1].State();
      if squares[idx - 1].aval != 0 {
        return Fail(Error(ArgumentScope, AttributeValueStructure, AssignedValueAttribute, DuplicateAssignmentCondition,
                          [IntDatum(val), IntDatum(idx), IntDatum(squares[idx - 1].aval)]));
      }
      ghost var st := State();
      var entries := AssignAt(idx, val);
      PuzzleProps.PuzzleAssignLog(mapping, st, idx, val);
      assert IntSets.Within(entries, 1, mapping.scount) by {
        forall x | x in entries ensures 1 <= x <= mapping.scount {
          assert x in IntSets.Elems(entries);
        }
      }
      var views := IndicesToSquares(entries);
      r := Ok(Content(views, errors));
    }

    /** copy: a puzzle with the same mapping and contents that shares no
        square, group or logger with this one. */
    method Copy() returns (c: Puzzle)
      requires Valid()
      ensures fresh(c) && fresh(c.logger) && c.Valid()
      ensures c.mapping == mapping && c.State() == State()
      ensures forall s :: s in c.squares ==> fresh(s)
      ensures forall g :: g in c.groups ==> fresh(g)
    {
      var lg := new IndexLogger();
      var ss: seq<Square> := [];
      var k := 0;
      while k < |squares|
        invariant 0 <= k <= |squares| && |ss| == k && Indexed(ss, lg) && lg.Valid() && !lg.logging
        invariant forall t :: 0 <= t < k ==> fresh(ss[t]) && ss[t].State() == squares[t].State()
      {
        var s := new Square.Copy(squares[k].index, squares[k].State(), lg);
        ss := ss + [s];
        k := k + 1;
      }
      var gs: seq<Group> := [];
      k := 0;
      while k < |groups|
        invariant 0 <= k <= |groups| && |gs| == k && Described(mapping, gs) && lg.Valid() && !lg.logging
        invariant forall t :: 0 <= t < |ss| ==> ss[t].State() == squares[t].State()
        invariant forall t :: 0 <= t < k ==> fresh(gs[t]) && gs[t].State() == groups[t].State()
      {
        var g := new Group(groups[k].desc, groups[k].State());
        DescribedAppend(mapping, gs, g);
        gs := gs + [g];
        k := k + 1;
      }
      c := new Puzzle(mapping, ss, gs, errors, lg);
      assert Cells(ss) == Cells(squares);
      assert GStates(gs) == GStates(groups);
    }
  }

  // ---------------------------------------------------------------------
  // create and New

  /** The squares loop of create: a square for each input value, all
      reporting to lg; the first value that is neither 0 nor within
      1..n is a range error. */
  method MakeSquares(values: seq<int>, n: int, lg: IndexLogger) returns (r: Result<seq<Square>>)
    requires n >= 1
    ensures var b := FirstBad(values, n, 0);
      && (r.Fail? <==> b < |values|)
      && (r.Fail? ==> r.error == RangeError(ValueAttribute, values[b], 1, n))
      && (r.Ok? ==> Indexed(r.value, lg) && Cells(r.value) == InitialCells(values, n))
    ensures r.Ok? ==> forall s :: s in r.value ==> fresh(s)
  {
    var ss: seq<Square> := [];
    var k := 0;
    while k < |values|
      invariant 0 <= k <= |values| && |ss| == k && Indexed(ss, lg)
      invariant FirstBad(values, n, 0) == FirstBad(values, n, k)
      invariant forall t :: 0 <= t < k ==> fresh(ss[t]) && ss[t].State() == InitialCell(values[t], n)
    {
      var v := values[k];
      var s;
      if v == 0 {
        s := new Square.Empty(k + 1, n, lg);
      } else {
        if v < 1 || v > n {
          return Fail(RangeError(ValueAttribute, v, 1, n));
        }
        s := new Square.Filled(k + 1, v, lg);
      }
      ss := ss + [s];
      k := k + 1;
    }
    assert Cells(ss) == InitialCells(values, n);
    r := Ok(ss);
  }

  /** The body of the groups loop of create: group k + 1 is built over
      the squares and appended to gs. */
  method BuildOne(m: Mapping, ss: seq<Square>, gs: seq<Group>, errs0: seq<Error>, ghost cells: seq<Cell>,
                  ghost lg: IndexLogger) returns (ngs: seq<Group>, errs: seq<Error>)
    requires WellFormed(m) && |ss| == m.scount && Indexed(ss, lg) && CellsOk(cells, m.sidelen) && |cells| == m.scount
    requires |gs| < m.gcount && Described(m, gs) && lg.Valid() && !lg.logging && lg.Elements() == {}
    requires Contents(ss, gs, errs0, lg) == BuildGroups(m, cells, |gs|)
    modifies (set s | s in ss), lg
    ensures |ngs| == |gs| + 1 && Described(m, ngs) && lg.Valid() && !lg.logging && lg.Elements() == {}
    ensures Contents(ss, ngs, errs, lg) == BuildGroups(m, cells, |gs| + 1)
    ensures ngs[..|gs|] == gs && fresh(ngs[|gs|])
  {
    ghost var p := BuildGroups(m, cells, |gs|);
    GroupFits(m, p.cells, |gs| + 1);
    var g, e := NewGroup(m.gdescs[|gs|], ss, lg);
    DescribedAppend(m, gs, g);
    ngs := gs + [g];
    assert GStates(ngs) == GStates(gs) + [g.State()];
    assert ngs[..|gs|] == gs;
    errs := errs0 + e;
  }

  /** The groups loop of create: group g is built over the squares as the
      groups before it left them. */
  method BuildAll(m: Mapping, ss: seq<Square>, lg: IndexLogger) returns (gs: seq<Group>, errs: seq<Error>)
    requires WellFormed(m) && |ss| == m.scount && Indexed(ss, lg) && CellsOk(Cells(ss), m.sidelen)
    requires lg.Valid() && !lg.logging && lg.Elements() == {}
    modifies (set s | s in ss), lg
    ensures Laid(m, ss, gs, lg) && !lg.logging && lg.Elements() == {}
    ensures Contents(ss, gs, errs, lg) == BuildGroups(m, old(Cells(ss)), m.gcount)
    ensures forall g :: g in gs ==> fresh(g)
  {
    ghost var cells := Cells(ss);
    gs, errs := [], [];
    while |gs| < m.gcount
      invariant |gs| <= m.gcount && Described(m, gs) && lg.Valid() && !lg.logging && lg.Elements() == {}
      invariant Contents(ss, gs, errs, lg) == BuildGroups(m, cells, |gs|)
      invariant forall g :: g in gs ==> fresh(g)
      decreases m.gcount - |gs|
    {
      ghost var before := gs;
      gs, errs := BuildOne(m, ss, gs, errs, cells, lg);
      assert forall g :: g in gs ==> g in before || g == gs[|before|];
    }
  }

  /** The analysis loop of create: every group is analyzed in order, and
      all their errors are kept. */
  method AnalyzeEvery(m: Mapping, ss: seq<Square>, gs: seq<Group>, errs0: seq<Error>, ghost st: PState,
                      ghost lg: IndexLogger) returns (errs: seq<Error>)
    requires Laid(m, ss, gs, lg) && !lg.logging
    requires PuzzleOk(m, st) && st.errs == errs0 && Contents(ss, gs, errs0, lg) == st
    modifies (set g | g in gs), (set s | s in ss), lg
    ensures Laid(m, ss, gs, lg) && !lg.logging && lg.Elements() == old(lg.Elements())
    ensures Contents(ss, gs, errs, lg) == AnalyzeAll(m, st, m.gcount)
  {
    errs := errs0;
    var g := 1;
    while g <= m.gcount
      invariant 1 <= g <= m.gcount + 1 && Laid(m, ss, gs, lg) && !lg.logging
      invariant lg.Elements() == old(lg.Elements())
      invariant Contents(ss, gs, errs, lg) == AnalyzeAll(m, st, g - 1)
    {
      ghost var cur := Contents(ss, gs, errs, lg);
      var e := AnalyzeGroup(m, ss, gs, g, cur, lg);
      errs := errs + e;
      g := g + 1;
    }
  }

  /** When create accepts every value, it builds the groups and analyzes
      them. */
  lemma CreateShape(m: Mapping, values: seq<int>)
    requires WellFormed(m) && |values| == m.scount && FirstBad(values, m.sidelen, 0) == |values|
    ensures var built := BuildGroups(m, InitialCells(values, m.sidelen), m.gcount);
      CreateSpec(m, values) == Ok(AnalyzeAll(m, built, m.gcount))
  {
  }

  /** When New's record passes its checks, the geometry yields m and create
      yields st, New's outcome depends only on the declared errors. */
  lemma NewShape(s: Summary, geometries: map<string, Maker>, values: seq<int>, m: Mapping, st: PState)
    requires MakersOk(geometries) && s.geometry in geometries && s.sidelen != 0
    requires |s.values| == 0 || |s.values| == Area(s.sidelen)
    requires values == if |s.values| == 0 then seq(Area(s.sidelen), _ => 0) else s.values
    requires geometries[s.geometry](values) == Ok(m) && WellFormed(m) && |values| == m.scount
    requires CreateSpec(m, values) == Ok(st)
    ensures NewSpec(s, geometries) ==
      if |s.errors| > 0 && |st.errs| == 0 then
        Fail(ArgumentError(SummaryAttribute, MismatchedSummaryErrorsCondition, [ErrorsDatum(s.errors)]))
      else Ok((m, if |s.errors| > 0 then st.(errs := s.errors) else st))
  {
  }

  /** The rest of create once the squares ss are made: the groups loop,
      the analysis loop and the puzzle assembled from its pieces. */
  method Assemble(m: Mapping, values: seq<int>, ss: seq<Square>, lg: IndexLogger) returns (p: Puzzle)
    requires WellFormed(m) && |values| == m.scount && FirstBad(values, m.sidelen, 0) == |values|
    requires |ss| == m.scount && Indexed(ss, lg) && Cells(ss) == InitialCells(values, m.sidelen)
    requires lg.Valid() && !lg.logging && lg.Elements() == {}
    modifies (set s | s in ss), lg
    ensures fresh(p) && p.Valid() && p.mapping == m && CreateSpec(m, values) == Ok(p.State())
  {
    var gs, errs := BuildAll(m, ss, lg);
    ghost var built := BuildGroups(m, InitialCells(values, m.sidelen), m.gcount);
    errs := AnalyzeEvery(m, ss, gs, errs, built, lg);
    ghost var analyzed := AnalyzeAll(m, built, m.gcount);
    CreateShape(m, values);
    PuzzleProps.CreateConsistent(m, values);
    p := new Puzzle(m, ss, gs, errs, lg);
    assert p.State() == analyzed;
  }

  /** create: the squares, then the groups, then their analysis; the puzzle
      is as CreateSpec says, valid, and made of new objects. */
  method Create(m: Mapping, values: seq<int>) returns (r: Result<Puzzle>)
    requires WellFormed(m) && |values| == m.scount
    ensures var spec := CreateSpec(m, values);
      && (r.Fail? <==> spec.Fail?)
      && (r.Fail? ==> r.error == spec.error)
      && (r.Ok? ==> fresh(r.value) && r.value.Valid() && r.value.mapping == m && r.value.State() == spec.value)
  {
    var lg := new IndexLogger();
    assert lg.Elements() == {};
    var made := MakeSquares(values, m.sidelen, lg);
    if made.Fail? {
      return Fail(made.error);
    }
    var p := Assemble(m, values, made.value, lg);
    r := Ok(p);
  }

  /** New: the record's checks in order, the geometry's mapping, then
      create; a record that declares errors has them replace the
      computed ones, and is rejected when none were computed. */
  method New(s: Summary, geometries: map<string, Maker>) returns (r: Result<Puzzle>)
    requires MakersOk(geometries)
    ensures var spec := NewSpec(s, geometries);
      && (r.Fail? <==> spec.Fail?)
      && (r.Fail? ==> r.error == spec.error)
      && (r.Ok? ==> fresh(r.value) && r.value.Valid() && r.value.mapping == spec.value.0 && r.value.State() == spec.value.1)
  {
    if s.geometry !in geometries {
      return Fail(ArgumentError(GeometryAttribute, UnknownGeometryCondition, [TextDatum(s.geometry)]));
    }
    var makefn := geometries[s.geometry];
    if s.sidelen == 0 {
      return Fail(ArgumentError(SideLengthAttribute, InvalidArgumentCondition, [IntDatum(0)]));
    }
    var values := s.values;
    if |values| == 0 {
      values := seq(Area(s.sidelen), _ => 0);
    } else if |values| != Area(s.sidelen) {
      return Fail(ArgumentError(PuzzleSizeAttribute, WrongPuzzleSizeCondition, [IntDatum(|values|), IntDatum(s.sidelen)]));
    }
    var made := makefn(values);
    if made.Fail? {
      return Fail(made.error);
    }
    var m := made.value;
    var created := Create(m, values);
    if created.Fail? {
      return Fail(created.error);
    }
    var p := created.value;
    ghost var st := p.State();
    NewShape(s, geometries, values, m, st);
    if |s.errors| > 0 {
      if |p.errors| == 0 {
        return Fail(ArgumentError(SummaryAttribute, MismatchedSummaryErrorsCondition, [ErrorsDatum(s.errors)]));
      }
      p.SetErrors(s.errors);
    }
    r := Ok(p);
  }
}
