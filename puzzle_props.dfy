/** Properties of the puzzle operations, proved from their value-level
    definitions and the group properties. */
module PuzzleProps {
  import IntSets
  import opened Geometry
  import opened Errors
  import opened Squares
  import opened GroupSpecs
  import GroupProps
  import opened PuzzleSpecs

  // ---------------------------------------------------------------------
  // assign (puzzle)

  /** r continues st: errors are only appended, the log only grows and
      names squares, every changed square is logged, and an assigned square
      without possible values is left alone. */
  ghost predicate Extends(m: Mapping, st: PState, r: PState) {
    && st.errs <= r.errs
    && st.logged <= r.logged
    && (forall i :: i in r.logged && i !in st.logged ==> 1 <= i <= m.scount)
    && |r.cells| == |st.cells|
    && (forall j :: 0 <= j < |st.cells| && r.cells[j] != st.cells[j] ==> j + 1 in r.logged)
    && (forall j :: 0 <= j < |st.cells| && st.cells[j].aval != 0 && st.cells[j].pvals == [] ==> r.cells[j] == st.cells[j])
  }

  lemma ExtendsTrans(m: Mapping, a: PState, b: PState, c: PState)
    requires Extends(m, a, b) && Extends(m, b, c)
    ensures Extends(m, a, c)
  {
    assert a.errs == b.errs[..|a.errs|] && b.errs == c.errs[..|b.errs|];
    assert a.errs == c.errs[..|a.errs|];
    forall j | 0 <= j < |a.cells| && c.cells[j] != a.cells[j] ensures j + 1 in c.logged {
      assert b.cells[j] != a.cells[j] ==> j + 1 in b.logged;
    }
  }

  /** Telling group g of an assignment continues the state and touches no
      other group. */
  lemma AssignInFacts(m: Mapping, st: PState, g: int, idx: int)
    requires PuzzleOk(m, st) && 1 <= g <= m.gcount && 1 <= idx <= m.scount && st.cells[idx - 1].aval != 0
    ensures var r := AssignIn(m, st, g, idx);
      && Extends(m, st, r)
      && (forall h :: 0 <= h < m.gcount && h != g - 1 ==> r.gs[h] == st.gs[h])
  {
    GroupFits(m, st.cells, g);
    GroupProps.AssignSweeps(m.gdescs[g - 1], st.gs[g - 1], st.cells, idx);
  }

  /** r continues st and every group outside gis keeps its state. */
  ghost predicate AssignedFrom(m: Mapping, st: PState, r: PState, gis: seq<int>) {
    && Extends(m, st, r)
    && |st.gs| == m.gcount && |r.gs| == m.gcount
    && forall h :: 0 <= h < m.gcount && h + 1 !in gis ==> r.gs[h] == st.gs[h]
  }

  /** One told group of part 2. */
  lemma AssignedStep(m: Mapping, st: PState, s: PState, r: PState, idx: int, gis: seq<int>)
    requires PuzzleOk(m, st) && IntSets.Within(gis, 1, m.gcount) && gis != []
    requires 1 <= idx <= m.scount && st.cells[idx - 1].aval != 0
    requires 1 <= gis[0] <= m.gcount
    requires s == AssignIn(m, st, gis[0], idx) && AssignedFrom(m, s, r, gis[1..])
    ensures AssignedFrom(m, st, r, gis)
  {
    AssignInFacts(m, st, gis[0], idx);
    ExtendsTrans(m, st, s, r);
    assert forall x :: x in gis[1..] ==> x in gis;
  }

  /** Part 2 of assign continues the state and touches only the groups it
      tells. */
  lemma {:induction false} AssignGroupsFacts(m: Mapping, st: PState, idx: int, gis: seq<int>)
    requires PuzzleOk(m, st) && IntSets.Within(gis, 1, m.gcount) && 1 <= idx <= m.scount
    requires st.cells[idx - 1].aval != 0
    ensures AssignedFrom(m, st, AssignGroups(m, st, idx, gis), gis)
    decreases |gis|
  {
    if gis != [] {
      assert gis[0] in gis;
      var s := AssignIn(m, st, gis[0], idx);
      if |s.errs| <= |st.errs| {
        assert forall x :: x in gis[1..] ==> x in gis;
        AssignGroupsFacts(m, s, idx, gis[1..]);
        AssignedStep(m, st, s, AssignGroups(m, s, idx, gis[1..]), idx, gis);
      } else {
        AssignInFacts(m, st, gis[0], idx);
      }
    }
  }

  /** No count is negative. */
  predicate Nonneg(aff: seq<int>) {
    forall g :: 0 <= g < |aff| ==> aff[g] >= 0
  }

  /** Counting the groups gs makes exactly them positive. */
  lemma {:induction false} MarkGroupsPositive(aff: seq<int>, gs: seq<int>)
    requires IntSets.Within(gs, 0, |aff| - 1) && Nonneg(aff)
    ensures var r := MarkGroups(aff, gs);
      && Nonneg(r)
      && forall g :: 0 <= g < |aff| ==> (r[g] > 0 <==> aff[g] > 0 || g in gs)
    decreases |gs|
  {
    if gs != [] {
      assert gs[0] in gs;
      assert forall x :: x in gs[1..] ==> x in gs;
      var a := aff[gs[0] := aff[gs[0]] + 1];
      MarkGroupsPositive(a, gs[1..]);
      assert forall g :: g in gs ==> g == gs[0] || g in gs[1..];
    }
  }

  /** Counting the groups of the unassigned squares eis makes exactly the
      groups of those squares positive. */
  lemma {:induction false} MarkMembersPositive(m: Mapping, cells: seq<Cell>, aff: seq<int>, eis: seq<int>)
    requires WellFormed(m) && |cells| == m.scount && |aff| == m.gcount + 1
    requires IntSets.Within(eis, 1, m.scount) && Nonneg(aff)
    ensures var r := MarkMembers(m, cells, aff, eis);
      && Nonneg(r)
      && forall g :: 0 <= g < |aff| ==> (r[g] > 0 <==> aff[g] > 0 || exists e :: e in eis && Spreads(m, cells, e, g))
    decreases |eis|
  {
    if eis != [] {
      var e := eis[0];
      assert e in eis;
      var rest := eis[1..];
      assert forall x :: x in rest ==> x in eis;
      var a := if cells[e - 1].aval == 0 then MarkGroups(aff, m.ixmap[e - 1]) else aff;
      if cells[e - 1].aval == 0 {
        assert IntSets.Within(m.ixmap[e - 1], 1, m.gcount);
        MarkGroupsPositive(aff, m.ixmap[e - 1]);
      }
      assert forall g :: 0 <= g < |aff| ==> (a[g] > 0 <==> aff[g] > 0 || Spreads(m, cells, e, g));
      MarkMembersPositive(m, cells, a, rest);
      var r := MarkMembers(m, cells, aff, eis);
      forall g | 0 <= g < |aff|
        ensures r[g] > 0 <==> aff[g] > 0 || exists x :: x in eis && Spreads(m, cells, x, g)
      {
        if exists x :: x in eis && Spreads(m, cells, x, g) {
          var x :| x in eis && Spreads(m, cells, x, g);
          if x != e {
            assert x in rest;
          }
        }
      }
    }
  }

  /** Part 1 of assign over gis makes positive exactly the groups that a
      group of gis touches. */
  lemma {:induction false} MarkAffectedPositive(m: Mapping, cells: seq<Cell>, aff: seq<int>, gis: seq<int>)
    requires WellFormed(m) && |cells| == m.scount && |aff| == m.gcount + 1
    requires IntSets.Within(gis, 1, m.gcount) && Nonneg(aff)
    ensures var r := MarkAffected(m, cells, aff, gis);
      && Nonneg(r)
      && forall g :: 0 <= g < |aff| ==>
           (r[g] > 0 <==> aff[g] > 0 || exists gi :: gi in gis && 1 <= gi <= m.gcount && Touches(m, cells, gi, g))
    decreases |gis|
  {
    if gis != [] {
      var gi := gis[0];
      assert gi in gis;
      var rest := gis[1..];
      assert forall x :: x in rest ==> x in gis;
      var gd := m.gdescs[gi - 1];
      assert GroupOk(gd, m.sidelen, m.scount);
      var a1 := aff[gi := aff[gi] + 1];
      var a2 := MarkMembers(m, cells, a1, gd.indices);
      MarkMembersPositive(m, cells, a1, gd.indices);
      assert forall g :: 0 <= g < |aff| ==> (a2[g] > 0 <==> aff[g] > 0 || Touches(m, cells, gi, g));
      MarkAffectedPositive(m, cells, a2, rest);
      var r := MarkAffected(m, cells, aff, gis);
      forall g | 0 <= g < |aff|
        ensures r[g] > 0 <==> aff[g] > 0 || exists x :: x in gis && 1 <= x <= m.gcount && Touches(m, cells, x, g)
      {
        if exists x :: x in gis && 1 <= x <= m.gcount && Touches(m, cells, x, g) {
          var x :| x in gis && 1 <= x <= m.gcount && Touches(m, cells, x, g);
          if x != gi {
            assert x in rest;
          }
        }
      }
    }
  }

  /** Part 1 of assign computes Affects: a group's count is positive exactly
      when the group is affected. */
  lemma AffectedExact(m: Mapping, cells: seq<Cell>, idx: int)
    requires WellFormed(m) && |cells| == m.scount && 1 <= idx <= m.scount
    ensures forall g :: 0 <= g <= m.gcount ==> (Affected(m, cells, idx)[g] > 0 <==> Affects(m, cells, idx, g))
  {
    MarkAffectedPositive(m, cells, seq(m.gcount + 1, _ => 0), m.ixmap[idx - 1]);
  }

  /** Analyzing group g continues the state, touches no other group, and
      changes no square's assigned or possible values. */
  lemma AnalyzeInFacts(m: Mapping, st: PState, g: int)
    requires PuzzleOk(m, st) && 1 <= g <= m.gcount
    ensures var r := AnalyzeIn(m, st, g);
      && Extends(m, st, r)
      && (forall h :: 0 <= h < m.gcount && h != g - 1 ==> r.gs[h] == st.gs[h])
      && (forall j :: 0 <= j < m.scount ==> r.cells[j].pvals == st.cells[j].pvals)
  {
    GroupFits(m, st.cells, g);
    GroupProps.AnalyzeCells(m.gdescs[g - 1], st.gs[g - 1], st.cells);
  }

  /** b keeps every square's possible values from a. */
  predicate SamePvals(a: seq<Cell>, b: seq<Cell>) {
    |a| == |b| && forall j :: 0 <= j < |a| ==> b[j].pvals == a[j].pvals
  }

  /** r continues st, with the same possible values, and every group
      before g or not affected by the assignment of idx keeps its state. */
  ghost predicate AnalyzedFrom(m: Mapping, st: PState, r: PState, aff: seq<int>, g: int)
    requires |aff| == m.gcount + 1
  {
    && Extends(m, st, r) && SamePvals(st.cells, r.cells)
    && |st.gs| == m.gcount && |r.gs| == m.gcount
    && forall h :: 0 <= h < m.gcount && (h + 1 < g || aff[h + 1] <= 0) ==> r.gs[h] == st.gs[h]
  }

  /** One analyzed group of part 3. */
  lemma AnalyzedStep(m: Mapping, st: PState, s: PState, r: PState, aff: seq<int>, g: int)
    requires PuzzleOk(m, st) && |aff| == m.gcount + 1 && 1 <= g <= m.gcount && aff[g] > 0
    requires s == AnalyzeIn(m, st, g) && AnalyzedFrom(m, s, r, aff, g + 1)
    ensures AnalyzedFrom(m, st, r, aff, g)
  {
    AnalyzeInFacts(m, st, g);
    ExtendsTrans(m, st, s, r);
  }

  /** Part 3 of assign continues the state, keeps every square's possible
      values, and leaves alone the groups it does not analyze. */
  lemma {:induction false} AnalyzeGroupsFacts(m: Mapping, st: PState, aff: seq<int>, g: int)
    requires PuzzleOk(m, st) && |aff| == m.gcount + 1 && 0 <= g <= m.gcount + 1
    ensures AnalyzedFrom(m, st, AnalyzeGroups(m, st, aff, g), aff, g)
    decreases m.gcount + 1 - g
  {
    var r := AnalyzeGroups(m, st, aff, g);
    if g < m.gcount + 1 {
      if 1 <= g && aff[g] > 0 {
        var s := AnalyzeIn(m, st, g);
        if |s.errs| <= |st.errs| {
          AnalyzeGroupsFacts(m, s, aff, g + 1);
          AnalyzedStep(m, st, s, r, aff, g);
        } else {
          AnalyzeInFacts(m, st, g);
        }
      } else {
        AnalyzeGroupsFacts(m, st, aff, g + 1);
      }
    }
  }

  /** assign: square idx ends up holding val with no possible values, no
      other square's value changes, and the puzzle's earlier errors and the
      square's own errors come first. */
  lemma PuzzleAssignValues(m: Mapping, st: PState, idx: int, val: int)
    requires PuzzleOk(m, st) && 1 <= idx <= m.scount && 1 <= val <= m.sidelen
    ensures var r := PuzzleAssign(m, st, idx, val);
      && r.cells[idx - 1].aval == val && r.cells[idx - 1].pvals == []
      && (forall j :: 0 <= j < m.scount && j != idx - 1 ==> r.cells[j].aval == st.cells[j].aval)
      && st.errs + AssignStep(st.cells[idx - 1], idx, val).errs <= r.errs
  {
    var s1 := SquareAssigned(m, st, idx, val);
    AfterSquare(m, st, idx, val);
    assert SameValues(s1.cells, PuzzleAssign(m, st, idx, val).cells);
  }

  /** assign: the log names squares only, starts with idx, and is exactly
      the squares that changed (idx changes when it was unassigned). */
  lemma PuzzleAssignLog(m: Mapping, st: PState, idx: int, val: int)
    requires PuzzleOk(m, st) && 1 <= idx <= m.scount && 1 <= val <= m.sidelen
    ensures var r := PuzzleAssign(m, st, idx, val);
      && idx in r.logged && (forall i :: i in r.logged ==> 1 <= i <= m.scount)
      && (forall j :: 0 <= j < m.scount && r.cells[j] != st.cells[j] ==> j + 1 in r.logged)
      && (forall i :: i in r.logged && i != idx ==> r.cells[i - 1] != st.cells[i - 1])
      && (st.cells[idx - 1].aval == 0 ==> r.cells[idx - 1] != st.cells[idx - 1])
  {
    var s1 := SquareAssigned(m, st, idx, val);
    var r := PuzzleAssign(m, st, idx, val);
    AfterSquare(m, st, idx, val);
    LogFrom(m, st, s1, r, idx);
    AssignAdvances(m, st, idx, val);
    PuzzleAssignValues(m, st, idx, val);
    forall i | i in r.logged && i != idx ensures r.cells[i - 1] != st.cells[i - 1] {
      assert 1 <= i <= m.scount && i !in s1.logged;
      assert Progress(s1.cells[i - 1]) < Progress(r.cells[i - 1]);
    }
  }

  /** How far square c has come: every binding source gained, every
      possible value lost and the assignment count one step. */
  function Progress(c: Cell): int {
    |c.bsrc| - |c.pvals| + if c.aval != 0 then 1 else 0
  }

  /** From st to r no square went back, and every square newly logged
      moved on. */
  ghost predicate Advances(st: PState, r: PState) {
    && |r.cells| == |st.cells|
    && forall j :: 0 <= j < |st.cells| ==>
         && Progress(st.cells[j]) <= Progress(r.cells[j])
         && (j + 1 in r.logged && j + 1 !in st.logged ==> Progress(st.cells[j]) < Progress(r.cells[j]))
  }

  lemma AdvancesTrans(a: PState, b: PState, c: PState)
    requires Advances(a, b) && Advances(b, c)
    ensures Advances(a, c)
  {
  }

  /** Telling group g of an assignment advances every square it logs: each
      one lost a possible value. */
  lemma AssignInAdvances(m: Mapping, st: PState, g: int, idx: int)
    requires PuzzleOk(m, st) && 1 <= g <= m.gcount && 1 <= idx <= m.scount && st.cells[idx - 1].aval != 0
    ensures Advances(st, AssignIn(m, st, g, idx))
  {
    var gd := m.gdescs[g - 1];
    var gs := st.gs[g - 1];
    var av := st.cells[idx - 1].aval;
    GroupFits(m, st.cells, g);
    GroupProps.AssignSweeps(gd, gs, st.cells, idx);
    var o := AssignSpec(gd, gs, st.cells, idx);
    var r := AssignIn(m, st, g, idx);
    assert gs.where[av] == idx ==> o.cells == st.cells;
    forall j | 0 <= j < |st.cells| && o.cells[j] != st.cells[j]
      ensures Progress(st.cells[j]) < Progress(o.cells[j])
    {
      assert j + 1 in gd.indices && st.cells[j].aval == 0;
      assert GroupProps.Removed(st.cells[j], o.cells[j], av);
      assert CellOk(st.cells[j], m.sidelen);
      GroupProps.RemovedShorter(st.cells[j], o.cells[j], av);
    }
  }

  /** Analyzing group g advances every square it logs: each one gained a
      binding source. */
  lemma AnalyzeInAdvances(m: Mapping, st: PState, g: int)
    requires PuzzleOk(m, st) && 1 <= g <= m.gcount
    ensures Advances(st, AnalyzeIn(m, st, g))
  {
    GroupFits(m, st.cells, g);
    GroupProps.AnalyzeCells(m.gdescs[g - 1], st.gs[g - 1], st.cells);
  }

  /** Part 2 of assign advances every square it logs. */
  lemma {:induction false} AssignGroupsAdvances(m: Mapping, st: PState, idx: int, gis: seq<int>)
    requires PuzzleOk(m, st) && IntSets.Within(gis, 1, m.gcount) && 1 <= idx <= m.scount
    requires st.cells[idx - 1].aval != 0
    ensures Advances(st, AssignGroups(m, st, idx, gis))
    decreases |gis|
  {
    if gis == [] {
    } else {
      assert gis[0] in gis;
      var s := AssignIn(m, st, gis[0], idx);
      AssignInAdvances(m, st, gis[0], idx);
      if |s.errs| <= |st.errs| {
        assert forall x :: x in gis[1..] ==> x in gis;
        AssignGroupsAdvances(m, s, idx, gis[1..]);
        AdvancesTrans(st, s, AssignGroups(m, s, idx, gis[1..]));
      }
    }
  }

  /** Part 3 of assign advances every square it logs. */
  lemma {:induction false} AnalyzeGroupsAdvances(m: Mapping, st: PState, aff: seq<int>, g: int)
    requires PuzzleOk(m, st) && |aff| == m.gcount + 1 && 0 <= g <= m.gcount + 1
    ensures Advances(st, AnalyzeGroups(m, st, aff, g))
    decreases m.gcount + 1 - g
  {
    if g == m.gcount + 1 {
    } else if 1 <= g && aff[g] > 0 {
      var s := AnalyzeIn(m, st, g);
      AnalyzeInAdvances(m, st, g);
      if |s.errs| <= |st.errs| {
        AnalyzeGroupsAdvances(m, s, aff, g + 1);
        AdvancesTrans(st, s, AnalyzeGroups(m, s, aff, g + 1));
      }
    } else {
      AnalyzeGroupsAdvances(m, st, aff, g + 1);
    }
  }

  /** What follows the square's own assignment advances every square it
      logs. */
  lemma AssignAdvances(m: Mapping, st: PState, idx: int, val: int)
    requires PuzzleOk(m, st) && 1 <= idx <= m.scount && 1 <= val <= m.sidelen
    ensures Advances(SquareAssigned(m, st, idx, val), PuzzleAssign(m, st, idx, val))
  {
    var s1 := SquareAssigned(m, st, idx, val);
    var s2 := AssignGroups(m, s1, idx, m.ixmap[idx - 1]);
    AssignGroupsAdvances(m, s1, idx, m.ixmap[idx - 1]);
    if |s2.errs| == 0 {
      AnalyzeGroupsAdvances(m, s2, Affected(m, s1.cells, idx), 0);
      AdvancesTrans(s1, s2, PuzzleAssign(m, st, idx, val));
    }
  }

  /** A log that starts with idx, where only square idx changed first. */
  lemma LogFrom(m: Mapping, st: PState, s1: PState, r: PState, idx: int)
    requires 1 <= idx <= m.scount && |st.cells| == m.scount && Extends(m, s1, r)
    requires s1.logged == {idx} && |s1.cells| == m.scount
    requires forall j :: 0 <= j < m.scount && j != idx - 1 ==> s1.cells[j] == st.cells[j]
    ensures idx in r.logged && (forall i :: i in r.logged ==> 1 <= i <= m.scount)
    ensures forall j :: 0 <= j < m.scount && r.cells[j] != st.cells[j] ==> j + 1 in r.logged
  {
    forall j | 0 <= j < m.scount && r.cells[j] != st.cells[j] ensures j + 1 in r.logged {
      if j != idx - 1 {
        assert r.cells[j] != s1.cells[j];
      }
    }
  }

  /** assign: a group not affected by the assignment keeps its state. */
  lemma PuzzleAssignGroups(m: Mapping, st: PState, idx: int, val: int)
    requires PuzzleOk(m, st) && 1 <= idx <= m.scount && 1 <= val <= m.sidelen
    ensures var r := PuzzleAssign(m, st, idx, val);
      var s1 := SquareAssigned(m, st, idx, val);
      forall h :: 0 <= h < m.gcount && !Affects(m, s1.cells, idx, h + 1) ==> r.gs[h] == st.gs[h]
  {
    AfterSquare(m, st, idx, val);
  }

  /** What follows the square's own assignment continues its state and
      touches only affected groups. */
  lemma AfterSquare(m: Mapping, st: PState, idx: int, val: int)
    requires PuzzleOk(m, st) && 1 <= idx <= m.scount && 1 <= val <= m.sidelen
    ensures var r := PuzzleAssign(m, st, idx, val);
      var s1 := SquareAssigned(m, st, idx, val);
      && Extends(m, s1, r)
      && (forall h :: 0 <= h < m.gcount && !Affects(m, s1.cells, idx, h + 1) ==> r.gs[h] == s1.gs[h])
  {
    var s1 := SquareAssigned(m, st, idx, val);
    var gis := m.ixmap[idx - 1];
    var s2 := AssignGroups(m, s1, idx, gis);
    AssignGroupsFacts(m, s1, idx, gis);
    var r := PuzzleAssign(m, st, idx, val);
    var aff := Affected(m, s1.cells, idx);
    AffectedExact(m, s1.cells, idx);
    if |s2.errs| == 0 {
      AnalyzeGroupsFacts(m, s2, aff, 0);
      ExtendsTrans(m, s1, s2, r);
    }
    forall h | 0 <= h < m.gcount && !Affects(m, s1.cells, idx, h + 1) ensures r.gs[h] == s1.gs[h] {
      assert h + 1 in gis ==> Touches(m, s1.cells, h + 1, h + 1);
      assert aff[h + 1] <= 0;
    }
  }

  // ---------------------------------------------------------------------
  // The groups' tables agree with the squares

  /** Group state g's table names, for every value it records, a square
      assigned that value. */
  predicate Recorded(g: GroupState, cells: seq<Cell>) {
    forall v :: 1 <= v < |g.where| && g.where[v] != 0 ==>
      1 <= g.where[v] <= |cells| && cells[g.where[v] - 1].aval == v
  }

  /** Every group's table agrees with the squares. */
  ghost predicate Consistent(st: PState) {
    forall h :: 0 <= h < |st.gs| ==> Recorded(st.gs[h], st.cells)
  }

  lemma RecordedKept(g: GroupState, a: seq<Cell>, b: seq<Cell>)
    requires Recorded(g, a) && SameValues(a, b)
    ensures Recorded(g, b)
  {
  }

  /** Telling a group of an assignment keeps every table in agreement. */
  lemma AssignInConsistent(m: Mapping, st: PState, g: int, idx: int)
    requires PuzzleOk(m, st) && 1 <= g <= m.gcount && 1 <= idx <= m.scount && st.cells[idx - 1].aval != 0
    requires Consistent(st)
    ensures Consistent(AssignIn(m, st, g, idx))
  {
    GroupFits(m, st.cells, g);
    GroupProps.AssignRecords(m.gdescs[g - 1], st.gs[g - 1], st.cells, idx);
    var r := AssignIn(m, st, g, idx);
    forall h | 0 <= h < |r.gs| ensures Recorded(r.gs[h], r.cells) {
      if h != g - 1 {
        RecordedKept(st.gs[h], st.cells, r.cells);
      } else {
        assert Recorded(r.gs[h], st.cells);
        RecordedKept(r.gs[h], st.cells, r.cells);
      }
    }
  }

  /** Analyzing a group keeps every table in agreement. */
  lemma AnalyzeInConsistent(m: Mapping, st: PState, g: int)
    requires PuzzleOk(m, st) && 1 <= g <= m.gcount && Consistent(st)
    ensures Consistent(AnalyzeIn(m, st, g))
  {
    GroupFits(m, st.cells, g);
    GroupProps.AnalyzeSettles(m.gdescs[g - 1], st.gs[g - 1], st.cells);
    var r := AnalyzeIn(m, st, g);
    forall h | 0 <= h < |r.gs| ensures Recorded(r.gs[h], r.cells) {
      assert r.gs[h].where == st.gs[h].where;
      RecordedKept(st.gs[h], st.cells, r.cells);
    }
  }

  lemma {:induction false} AssignGroupsConsistent(m: Mapping, st: PState, idx: int, gis: seq<int>)
    requires PuzzleOk(m, st) && IntSets.Within(gis, 1, m.gcount) && 1 <= idx <= m.scount
    requires st.cells[idx - 1].aval != 0 && Consistent(st)
    ensures Consistent(AssignGroups(m, st, idx, gis))
    decreases |gis|
  {
    if gis != [] {
      assert gis[0] in gis;
      var s := AssignIn(m, st, gis[0], idx);
      AssignInConsistent(m, st, gis[0], idx);
      if |s.errs| <= |st.errs| {
        assert forall x :: x in gis[1..] ==> x in gis;
        AssignGroupsConsistent(m, s, idx, gis[1..]);
      }
    }
  }

  lemma {:induction false} AnalyzeGroupsConsistent(m: Mapping, st: PState, aff: seq<int>, g: int)
    requires PuzzleOk(m, st) && |aff| == m.gcount + 1 && 0 <= g <= m.gcount + 1
    requires Consistent(st)
    ensures Consistent(AnalyzeGroups(m, st, aff, g))
    decreases m.gcount + 1 - g
  {
    if g < m.gcount + 1 {
      if 1 <= g && aff[g] > 0 {
        var s := AnalyzeIn(m, st, g);
        AnalyzeInConsistent(m, st, g);
        if |s.errs| <= |st.errs| {
          AnalyzeGroupsConsistent(m, s, aff, g + 1);
        }
      } else {
        AnalyzeGroupsConsistent(m, st, aff, g + 1);
      }
    }
  }

  /** Assigning an unassigned square keeps every table in agreement. */
  lemma PuzzleAssignConsistent(m: Mapping, st: PState, idx: int, val: int)
    requires PuzzleOk(m, st) && 1 <= idx <= m.scount && 1 <= val <= m.sidelen
    requires Consistent(st) && st.cells[idx - 1].aval == 0
    ensures Consistent(PuzzleAssign(m, st, idx, val))
  {
    var s1 := SquareAssigned(m, st, idx, val);
    forall h | 0 <= h < |s1.gs| ensures Recorded(s1.gs[h], s1.cells) {
      assert Recorded(st.gs[h], st.cells);
    }
    var s2 := AssignGroups(m, s1, idx, m.ixmap[idx - 1]);
    AssignGroupsConsistent(m, s1, idx, m.ixmap[idx - 1]);
    if |s2.errs| == 0 {
      AnalyzeGroupsConsistent(m, s2, Affected(m, s1.cells, idx), 0);
    }
  }

  // ---------------------------------------------------------------------
  // Propagation of an assignment

  /** d has c's assigned value and no possible value c lacks. */
  predicate Fewer(c: Cell, d: Cell) {
    d.aval == c.aval && forall x :: x in d.pvals ==> x in c.pvals
  }

  /** Square by square, b has fewer possible values than a. */
  predicate Narrower(a: seq<Cell>, b: seq<Cell>) {
    |a| == |b| && forall j :: 0 <= j < |a| ==> Fewer(a[j], b[j])
  }

  lemma NarrowerTrans(a: seq<Cell>, b: seq<Cell>, c: seq<Cell>)
    requires Narrower(a, b) && Narrower(b, c)
    ensures Narrower(a, c)
  {
    forall j | 0 <= j < |a| ensures Fewer(a[j], c[j]) {
      assert Fewer(a[j], b[j]) && Fewer(b[j], c[j]);
    }
  }

  /** Square e, if unassigned, has lost the possible value v. */
  predicate Lacks(cells: seq<Cell>, e: int, v: int) {
    1 <= e <= |cells| && cells[e - 1].aval == 0 ==> v !in cells[e - 1].pvals
  }

  /** No unassigned square of group gi still has v as a possible value. */
  predicate Cleared(m: Mapping, cells: seq<Cell>, gi: int, v: int)
    requires WellFormed(m) && 1 <= gi <= m.gcount
  {
    forall e :: e in m.gdescs[gi - 1].indices ==> Lacks(cells, e, v)
  }

  lemma ClearedKept(m: Mapping, a: seq<Cell>, b: seq<Cell>, gi: int, v: int)
    requires WellFormed(m) && 1 <= gi <= m.gcount
    requires Cleared(m, a, gi, v) && Narrower(a, b)
    ensures Cleared(m, b, gi, v)
  {
    forall e | e in m.gdescs[gi - 1].indices ensures Lacks(b, e, v) {
      assert Lacks(a, e, v);
      if 1 <= e <= |b| {
        assert Fewer(a[e - 1], b[e - 1]);
      }
    }
  }

  /** Telling group g of an assignment only takes possible values away,
      and, unless the group had already recorded it, leaves the assigned
      value in none of its unassigned squares. */
  lemma AssignInClears(m: Mapping, st: PState, g: int, idx: int)
    requires PuzzleOk(m, st) && 1 <= g <= m.gcount && 1 <= idx <= m.scount && st.cells[idx - 1].aval != 0
    ensures var av := st.cells[idx - 1].aval; var r := AssignIn(m, st, g, idx);
      && Narrower(st.cells, r.cells)
      && (st.gs[g - 1].where[av] != idx ==> Cleared(m, r.cells, g, av))
  {
    var gd := m.gdescs[g - 1];
    var av := st.cells[idx - 1].aval;
    GroupFits(m, st.cells, g);
    GroupProps.AssignRecords(gd, st.gs[g - 1], st.cells, idx);
    GroupProps.AssignSweeps(gd, st.gs[g - 1], st.cells, idx);
    var r := AssignIn(m, st, g, idx);
    forall j | 0 <= j < |st.cells| ensures Fewer(st.cells[j], r.cells[j]) {
      if r.cells[j] != st.cells[j] {
        assert j + 1 in gd.indices && st.cells[j].aval == 0;
        assert GroupProps.Removed(st.cells[j], r.cells[j], av);
        forall x | x in r.cells[j].pvals ensures x in st.cells[j].pvals {
          assert x in IntSets.Elems(r.cells[j].pvals);
        }
      }
    }
    if st.gs[g - 1].where[av] != idx {
      forall e | e in gd.indices ensures Lacks(r.cells, e, av) {
        if 1 <= e <= |r.cells| && r.cells[e - 1].aval == 0 {
          assert GroupProps.Removed(st.cells[e - 1], r.cells[e - 1], av);
        }
      }
    }
  }

  /** A group of gis that will not sweep (its table already names idx for
      the value) has nothing left to clear. */
  ghost predicate Pending(m: Mapping, st: PState, idx: int, gis: seq<int>)
    requires PuzzleOk(m, st) && IntSets.Within(gis, 1, m.gcount) && 1 <= idx <= m.scount
  {
    forall gi :: gi in gis ==>
      st.gs[gi - 1].where[st.cells[idx - 1].aval] != idx || Cleared(m, st.cells, gi, st.cells[idx - 1].aval)
  }

  /** One step of part 2: the group told is cleared, and what is left to
      tell is still pending. */
  lemma ClearsStep(m: Mapping, st: PState, idx: int, gis: seq<int>)
    requires PuzzleOk(m, st) && IntSets.Within(gis, 1, m.gcount) && 1 <= idx <= m.scount
    requires st.cells[idx - 1].aval != 0 && Pending(m, st, idx, gis) && gis != []
    ensures 1 <= gis[0] <= m.gcount
    ensures var av := st.cells[idx - 1].aval; var s := AssignIn(m, st, gis[0], idx);
      && Narrower(st.cells, s.cells) && Extends(m, st, s)
      && Cleared(m, s.cells, gis[0], av)
      && IntSets.Within(gis[1..], 1, m.gcount) && Pending(m, s, idx, gis[1..])
  {
    var av := st.cells[idx - 1].aval;
    var g := gis[0];
    assert g in gis;
    var s := AssignIn(m, st, g, idx);
    AssignInClears(m, st, g, idx);
    AssignInFacts(m, st, g, idx);
    if st.gs[g - 1].where[av] == idx {
      ClearedKept(m, st.cells, s.cells, g, av);
    }
    var rest := gis[1..];
    assert forall x :: x in rest ==> x in gis;
    assert s.cells[idx - 1].aval == av;
    forall gi | gi in rest
      ensures s.gs[gi - 1].where[av] != idx || Cleared(m, s.cells, gi, av)
    {
      if gi != g && st.gs[gi - 1].where[av] == idx {
        ClearedKept(m, st.cells, s.cells, gi, av);
      }
    }
  }

  /** Part 2 of assign only takes possible values away; when no group
      reports an error, every group it tells is left without the value in
      its unassigned squares. */
  lemma {:induction false} AssignGroupsClears(m: Mapping, st: PState, idx: int, gis: seq<int>)
    requires PuzzleOk(m, st) && IntSets.Within(gis, 1, m.gcount) && 1 <= idx <= m.scount
    requires st.cells[idx - 1].aval != 0 && Pending(m, st, idx, gis)
    ensures var r := AssignGroups(m, st, idx, gis);
      && Narrower(st.cells, r.cells)
      && (|r.errs| == |st.errs| ==> forall gi :: gi in gis ==> Cleared(m, r.cells, gi, st.cells[idx - 1].aval))
    decreases |gis|
  {
    var av := st.cells[idx - 1].aval;
    if gis != [] {
      var g := gis[0];
      ClearsStep(m, st, idx, gis);
      var s := AssignIn(m, st, g, idx);
      if |s.errs| <= |st.errs| {
        var rest := gis[1..];
        AssignGroupsClears(m, s, idx, rest);
        var r := AssignGroups(m, s, idx, rest);
        assert r == AssignGroups(m, st, idx, gis);
        AssignGroupsFacts(m, s, idx, rest);
        NarrowerTrans(st.cells, s.cells, r.cells);
        ClearedKept(m, s.cells, r.cells, g, av);
        assert forall gi :: gi in gis ==> gi == g || gi in rest;
      }
    } else {
      assert Narrower(st.cells, st.cells) by {
        forall j | 0 <= j < |st.cells| ensures Fewer(st.cells[j], st.cells[j]) { }
      }
    }
  }

  /** The propagation the engine exists for: after square idx, until then
      unassigned, is assigned val in a consistent puzzle, and no group
      reports an error, no unassigned square sharing a group with idx still
      has val as a possible value. */
  lemma PuzzleAssignClears(m: Mapping, st: PState, idx: int, val: int)
    requires PuzzleOk(m, st) && 1 <= idx <= m.scount && 1 <= val <= m.sidelen
    requires Consistent(st) && st.cells[idx - 1].aval == 0
    ensures var r := PuzzleAssign(m, st, idx, val);
      |r.errs| == |st.errs| + |AssignStep(st.cells[idx - 1], idx, val).errs| ==>
        forall gi :: gi in m.ixmap[idx - 1] ==> 1 <= gi <= m.gcount && Cleared(m, r.cells, gi, val)
  {
    var s1 := SquareAssigned(m, st, idx, val);
    var gis := m.ixmap[idx - 1];
    assert Pending(m, s1, idx, gis) by {
      forall gi | gi in gis ensures s1.gs[gi - 1].where[val] != idx {
        assert Recorded(st.gs[gi - 1], st.cells);
      }
    }
    AssignGroupsClears(m, s1, idx, gis);
    AssignGroupsFacts(m, s1, idx, gis);
    var s2 := AssignGroups(m, s1, idx, gis);
    PuzzleAssignValues(m, st, idx, val);
    var r := PuzzleAssign(m, st, idx, val);
    if |r.errs| == |st.errs| + |AssignStep(st.cells[idx - 1], idx, val).errs| {
      assert |s2.errs| == |s1.errs|;
      if |s2.errs| == 0 {
        AnalyzeGroupsFacts(m, s2, Affected(m, s1.cells, idx), 0);
        assert Narrower(s2.cells, r.cells) by {
          forall j | 0 <= j < |s2.cells| ensures Fewer(s2.cells[j], r.cells[j]) { }
        }
      } else {
        assert r == s2;
      }
      forall gi | gi in gis ensures 1 <= gi <= m.gcount && Cleared(m, r.cells, gi, val) {
        assert Cleared(m, s2.cells, gi, val);
        if |s2.errs| == 0 {
          ClearedKept(m, s2.cells, r.cells, gi, val);
        }
      }
    }
  }

  // ---------------------------------------------------------------------
  // create and New

  /** create succeeds exactly when every value is 0 or in 1..sidelen;
      otherwise it reports the first other value as out of range. */
  lemma CreateAccepts(m: Mapping, values: seq<int>)
    requires WellFormed(m) && |values| == m.scount
    ensures var r := CreateSpec(m, values);
      && (r.Ok? <==> forall j :: 0 <= j < |values| ==> Acceptable(values[j], m.sidelen))
      && (r.Fail? ==> exists b :: 0 <= b < |values| && !Acceptable(values[b], m.sidelen)
                        && (forall j :: 0 <= j < b ==> Acceptable(values[j], m.sidelen))
                        && r.error == RangeError(ValueAttribute, values[b], 1, m.sidelen))
  {
    var b := FirstBad(values, m.sidelen, 0);
    if b == |values| {
      assert forall j :: 0 <= j < |values| ==> Acceptable(values[j], m.sidelen);
    }
  }

  /** create keeps the given values: square i + 1 is assigned values[i]
      (0 for an empty square). */
  lemma CreateValues(m: Mapping, values: seq<int>)
    requires WellFormed(m) && |values| == m.scount
    ensures var r := CreateSpec(m, values);
      r.Ok? ==> forall j :: 0 <= j < |values| ==> r.value.cells[j].aval == values[j]
  {
    var r := CreateSpec(m, values);
    if r.Ok? {
      CreateAccepts(m, values);
      var cells := InitialCells(values, m.sidelen);
      var built := BuildGroups(m, cells, m.gcount);
      assert SameValues(cells, built.cells);
      assert SameValues(built.cells, r.value.cells);
    }
  }

  /** The groups create builds agree with the squares. */
  lemma {:induction false} BuildGroupsConsistent(m: Mapping, cells: seq<Cell>, k: int)
    requires WellFormed(m) && |cells| == m.scount && CellsOk(cells, m.sidelen) && 0 <= k <= m.gcount
    ensures Consistent(BuildGroups(m, cells, k))
    decreases k
  {
    if k > 0 {
      BuildGroupsConsistent(m, cells, k - 1);
      var p := BuildGroups(m, cells, k - 1);
      var gd := m.gdescs[k - 1];
      var o := NewGroupSpec(gd, p.cells);
      assert Recorded(o.g, p.cells) && SameValues(p.cells, o.cells) by {
        GroupFits(m, p.cells, k);
        GroupProps.NewGroupRecords(gd, p.cells);
        GroupProps.NewGroupKeepsOk(gd, p.cells);
      }
      var r := BuildGroups(m, cells, k);
      assert r.gs == p.gs + [o.g] && r.cells == o.cells;
      forall h | 0 <= h < |r.gs| ensures Recorded(r.gs[h], r.cells) {
        if h < k - 1 {
          RecordedKept(p.gs[h], p.cells, o.cells);
        } else {
          RecordedKept(o.g, p.cells, o.cells);
        }
      }
    }
  }

  lemma {:induction false} AnalyzeAllConsistent(m: Mapping, st: PState, k: int)
    requires PuzzleOk(m, st) && 0 <= k <= m.gcount && Consistent(st)
    ensures Consistent(AnalyzeAll(m, st, k))
    decreases k
  {
    if k > 0 {
      AnalyzeAllConsistent(m, st, k - 1);
      AnalyzeInConsistent(m, AnalyzeAll(m, st, k - 1), k);
    }
  }

  /** A created puzzle's groups agree with its squares. */
  lemma CreateConsistent(m: Mapping, values: seq<int>)
    requires WellFormed(m) && |values| == m.scount
    ensures var r := CreateSpec(m, values); r.Ok? ==> Consistent(r.value)
  {
    var r := CreateSpec(m, values);
    if r.Ok? {
      CreateAccepts(m, values);
      var cells := InitialCells(values, m.sidelen);
      BuildGroupsConsistent(m, cells, m.gcount);
      AnalyzeAllConsistent(m, BuildGroups(m, cells, m.gcount), m.gcount);
    }
  }

  /** Constraint relaxation in group g: no unassigned square of the group
      keeps the value of an assigned square of the group as possible. */
  ghost predicate Relaxed(m: Mapping, cells: seq<Cell>, g: int)
    requires WellFormed(m) && 1 <= g <= m.gcount
  {
    forall a :: RelaxedAt(m, cells, g, a)
  }

  /** The assigned square a of group g has its value cleared from the group. */
  predicate RelaxedAt(m: Mapping, cells: seq<Cell>, g: int, a: int)
    requires WellFormed(m) && 1 <= g <= m.gcount
  {
    a in m.gdescs[g - 1].indices && 1 <= a <= |cells| && cells[a - 1].aval != 0 ==>
      Cleared(m, cells, g, cells[a - 1].aval)
  }

  /** Relaxation survives narrowing. */
  lemma RelaxedKept(m: Mapping, a: seq<Cell>, b: seq<Cell>, g: int)
    requires WellFormed(m) && 1 <= g <= m.gcount && Relaxed(m, a, g) && Narrower(a, b)
    ensures Relaxed(m, b, g)
  {
    forall x ensures RelaxedAt(m, b, g, x) {
      if x in m.gdescs[g - 1].indices && 1 <= x <= |b| && b[x - 1].aval != 0 {
        assert RelaxedAt(m, a, g, x);
        assert Fewer(a[x - 1], b[x - 1]);
        ClearedKept(m, a, b, g, a[x - 1].aval);
      }
    }
  }

  /** newGroup only narrows the squares, and relaxes its own group: pass 2
      keeps in each free square only values no square of the group holds. */
  lemma NewGroupRelaxes(m: Mapping, cells: seq<Cell>, g: int)
    requires WellFormed(m) && |cells| == m.scount && CellsOk(cells, m.sidelen) && 1 <= g <= m.gcount
    ensures Fits(m.gdescs[g - 1], cells) && CellsOk(cells, |m.gdescs[g - 1].indices|)
    ensures var o := NewGroupSpec(m.gdescs[g - 1], cells); Narrower(cells, o.cells) && Relaxed(m, o.cells, g)
  {
    var gd := m.gdescs[g - 1];
    var n := |gd.indices|;
    GroupFits(m, cells, g);
    GroupProps.NewGroupRecords(gd, cells);
    GroupProps.NewGroupCells(gd, cells);
    var o := NewGroupSpec(gd, cells);
    forall j | 0 <= j < |cells| ensures Fewer(cells[j], o.cells[j]) {
      if j + 1 in o.g.free {
        assert GroupProps.Narrowed(cells[j], o.cells[j], o.g.need);
        forall x | x in o.cells[j].pvals ensures x in cells[j].pvals {
          assert x in IntSets.Elems(o.cells[j].pvals);
        }
      }
    }
    forall a | a in gd.indices && 1 <= a <= |o.cells| && o.cells[a - 1].aval != 0
      ensures RelaxedAt(m, o.cells, g, a)
    {
      var av := cells[a - 1].aval;
      var k :| 0 <= k < n && gd.indices[k] == a;
      assert GroupProps.Holds(gd, cells, k, av);
      assert GroupProps.HeldBefore(gd, cells, n, av);
      assert av !in o.g.need;
      forall e | e in gd.indices ensures Lacks(o.cells, e, av) {
        if 1 <= e <= |o.cells| && o.cells[e - 1].aval == 0 {
          assert e in o.g.free;
          assert GroupProps.Narrowed(cells[e - 1], o.cells[e - 1], o.g.need);
          assert av !in IntSets.Elems(o.g.need);
          assert av !in IntSets.Elems(o.cells[e - 1].pvals);
        }
      }
    }
  }

  /** The groups loop of create only narrows the squares, and relaxes every
      group it has built. */
  lemma {:induction false} BuildGroupsRelax(m: Mapping, cells: seq<Cell>, k: int)
    requires WellFormed(m) && |cells| == m.scount && CellsOk(cells, m.sidelen) && 0 <= k <= m.gcount
    ensures var r := BuildGroups(m, cells, k);
      Narrower(cells, r.cells) && forall g :: 1 <= g <= k ==> Relaxed(m, r.cells, g)
    decreases k
  {
    if k == 0 {
      assert forall j :: 0 <= j < |cells| ==> Fewer(cells[j], cells[j]);
    } else {
      BuildGroupsRelax(m, cells, k - 1);
      var p := BuildGroups(m, cells, k - 1);
      NewGroupRelaxes(m, p.cells, k);
      var o := NewGroupSpec(m.gdescs[k - 1], p.cells);
      var r := BuildGroups(m, cells, k);
      assert r.cells == o.cells;
      NarrowerTrans(cells, p.cells, r.cells);
      forall g | 1 <= g < k ensures Relaxed(m, r.cells, g) {
        RelaxedKept(m, p.cells, r.cells, g);
      }
    }
  }

  /** The analysis loop of create changes no assigned and no possible
      value. */
  lemma {:induction false} AnalyzeAllNarrower(m: Mapping, st: PState, k: int)
    requires PuzzleOk(m, st) && 0 <= k <= m.gcount
    ensures Narrower(st.cells, AnalyzeAll(m, st, k).cells)
    decreases k
  {
    if k == 0 {
      assert forall j :: 0 <= j < |st.cells| ==> Fewer(st.cells[j], st.cells[j]);
    } else {
      AnalyzeAllNarrower(m, st, k - 1);
      var p := AnalyzeAll(m, st, k - 1);
      AnalyzeInFacts(m, p, k);
      var q := AnalyzeIn(m, p, k);
      assert forall j :: 0 <= j < |p.cells| ==> Fewer(p.cells[j], q.cells[j]);
      NarrowerTrans(st.cells, p.cells, q.cells);
    }
  }

  /** create does constraint relaxation: in a created puzzle, no unassigned
      square of any group keeps the value of an assigned square of that
      group as a possible value. */
  lemma CreateClears(m: Mapping, values: seq<int>)
    requires WellFormed(m) && |values| == m.scount
    ensures var r := CreateSpec(m, values);
      r.Ok? ==> forall g :: 1 <= g <= m.gcount ==> Relaxed(m, r.value.cells, g)
  {
    var r := CreateSpec(m, values);
    if r.Ok? {
      CreateAccepts(m, values);
      var cells := InitialCells(values, m.sidelen);
      BuildGroupsRelax(m, cells, m.gcount);
      var built := BuildGroups(m, cells, m.gcount);
      AnalyzeAllNarrower(m, built, m.gcount);
      forall g | 1 <= g <= m.gcount ensures Relaxed(m, r.value.cells, g) {
        RelaxedKept(m, built.cells, r.value.cells, g);
      }
    }
  }

  /** New rejects a record in the order of its checks: an unknown
      geometry, a side length of 0, then a value count that is neither 0
      nor the side length squared. */
  lemma NewChecks(s: Summary, geometries: map<string, Maker>)
    requires MakersOk(geometries)
    ensures var r := NewSpec(s, geometries);
      && (s.geometry !in geometries ==> r == Fail(ArgumentError(GeometryAttribute, UnknownGeometryCondition, [TextDatum(s.geometry)])))
      && (s.geometry in geometries && s.sidelen == 0 ==> r == Fail(ArgumentError(SideLengthAttribute, InvalidArgumentCondition, [IntDatum(0)])))
      && (s.geometry in geometries && s.sidelen != 0 && |s.values| != 0 && |s.values| != Area(s.sidelen) ==>
            r == Fail(ArgumentError(PuzzleSizeAttribute, WrongPuzzleSizeCondition, [IntDatum(|s.values|), IntDatum(s.sidelen)])))
      && (r.Ok? ==> s.geometry in geometries && s.sidelen != 0 && (|s.values| == 0 || |s.values| == Area(s.sidelen)))
  {
  }

  /** New keeps the record's values (all squares empty when it has none),
      takes its errors when it declares some, and builds a puzzle whose
      groups agree with its squares. */
  lemma NewKeeps(s: Summary, geometries: map<string, Maker>)
    requires MakersOk(geometries)
    ensures var r := NewSpec(s, geometries);
      r.Ok? ==>
        var st := r.value.1;
        && |st.cells| == (if |s.values| == 0 then Area(s.sidelen) else |s.values|)
        && (forall j :: 0 <= j < |st.cells| ==> st.cells[j].aval == (if |s.values| == 0 then 0 else s.values[j]))
        && (|s.errors| > 0 ==> st.errs == s.errors)
        && Consistent(st)
  {
    var r := NewSpec(s, geometries);
    if r.Ok? {
      var values := if |s.values| == 0 then seq(Area(s.sidelen), _ => 0) else s.values;
      var made := geometries[s.geometry](values);
      assert made.Ok?;
      var m := made.value;
      assert WellFormed(m) && m.scount == |values|;
      var created := CreateSpec(m, values);
      assert created.Ok?;
      var st := created.value;
      assert r.value.1 == if |s.errors| > 0 then st.(errs := s.errors) else st;
      CreateValues(m, values);
      CreateConsistent(m, values);
    }
  }
}
