/** What the group operations guarantee, proved about the functions of
    GroupSpecs for all inputs: what assign records and removes, what
    analyze discovers, and what newGroup builds. */
module GroupProps {
  import IntSets
  import opened Geometry
  import opened Errors
  import opened Squares
  import opened GroupSpecs

  /** x is in Drop(s, d) exactly when it is in s and not in d. */
  lemma DropMember(s: seq<int>, d: set<int>)
    ensures forall x :: x in IntSets.Drop(s, d) <==> x in s && x !in d
  {
    IntSets.DropProps(s, d);
    forall x ensures x in IntSets.Drop(s, d) <==> x in s && x !in d {
      assert x in IntSets.Drop(s, d) <==> x in IntSets.Elems(IntSets.Drop(s, d));
      assert x in s <==> x in IntSets.Elems(s);
    }
  }

  /** x is in Keep(s, k) exactly when it is in s and in k. */
  lemma KeepMember(s: seq<int>, k: set<int>)
    ensures forall x :: x in IntSets.Keep(s, k) <==> x in s && x in k
  {
    IntSets.KeepProps(s, k);
    forall x ensures x in IntSets.Keep(s, k) <==> x in s && x in k {
      assert x in IntSets.Keep(s, k) <==> x in IntSets.Elems(IntSets.Keep(s, k));
      assert x in s <==> x in IntSets.Elems(s);
    }
  }

  /** The ascending indices of a group hold each square once. */
  lemma NotEarlier(s: seq<int>, k: int)
    requires IntSets.Valid(s) && 0 <= k < |s|
    ensures s[k] !in s[..k]
  {
    IntSets.Around(s, k);
  }

  // ---------------------------------------------------------------------
  // assign

  /** Every square's possible values form an intset. */
  predicate AllValid(cells: seq<Cell>) {
    forall j :: 0 <= j < |cells| ==> IntSets.Valid(cells[j].pvals)
  }

  /** d is c with the possible value av removed and nothing else changed. */
  predicate Removed(c: Cell, d: Cell, av: int) {
    && d.aval == c.aval && d.bval == c.bval && d.bsrc == c.bsrc
    && IntSets.Valid(d.pvals) && IntSets.Elems(d.pvals) == IntSets.Elems(c.pvals) - {av}
    && av !in d.pvals
  }

  /** A square that lost the possible value av and changed has one
      possible value fewer. */
  lemma RemovedShorter(c: Cell, d: Cell, av: int)
    requires Removed(c, d, av) && IntSets.Valid(c.pvals) && d != c
    ensures |d.pvals| == |c.pvals| - 1
  {
    var dr := IntSets.Drop(c.pvals, {av});
    IntSets.DropProps(c.pvals, {av});
    IntSets.Unique(d.pvals, dr);
    assert dr != c.pvals;
    assert exists x :: x in c.pvals && x in {av};
    var i :| 0 <= i < |c.pvals| && c.pvals[i] == av;
    IntSets.DropAtPrefix(c.pvals, i);
  }

  /** One step of the sweep changes square i only: if unassigned it loses
      av, and it is logged exactly when it changed.  Errors are only
      appended, and none of them is a duplicate. */
  lemma RemoveInFacts(o: Outcome, i: int, av: int)
    requires 1 <= i <= |o.cells| && IntSets.Valid(o.cells[i - 1].pvals)
    ensures var r := RemoveIn(o, i, av);
      && (forall j :: 0 <= j < |o.cells| && j != i - 1 ==> r.cells[j] == o.cells[j])
      && (o.cells[i - 1].aval == 0 ==> Removed(o.cells[i - 1], r.cells[i - 1], av))
      && (o.cells[i - 1].aval != 0 ==> r.cells[i - 1] == o.cells[i - 1])
      && r.logged == o.logged + (if r.cells[i - 1] != o.cells[i - 1] then {i} else {})
      && r.errs[..|o.errs|] == o.errs
      && CountOf(r.errs, DuplicateGroupValuesCondition) == CountOf(o.errs, DuplicateGroupValuesCondition)
  {
    var c := o.cells[i - 1];
    var r := RemoveIn(o, i, av);
    if c.aval == 0 {
      var s := RemoveStep(c, i, av);
      RemoveReports(c, i, av);
      assert av !in IntSets.Elems(s.cell.pvals);
      assert r.errs[..|o.errs|] == o.errs;
      CountOfBound(s.errs, NoGroupValueCondition, NoPossibleValuesCondition, DuplicateGroupValuesCondition);
      CountOfConcat(o.errs, s.errs, DuplicateGroupValuesCondition);
    } else {
      assert r.errs[..|o.errs|] == o.errs;
    }
  }

  /** What the sweep over the first k squares of the group does: to the
      squares, to the log and to the errors. */
  ghost predicate SweptBy(gd: GroupDescriptor, o: Outcome, r: Outcome, av: int, k: int)
    requires 0 <= k <= |gd.indices|
  {
    SweptCells(gd, o, r, av, k) && LogsChanges(o, r) && ErrsKept(o, r)
  }

  /** Each unassigned square among the first k of the group lost av; no
      other square changed. */
  ghost predicate SweptCells(gd: GroupDescriptor, o: Outcome, r: Outcome, av: int, k: int)
    requires 0 <= k <= |gd.indices|
  {
    && |r.cells| == |o.cells|
    && forall j :: 0 <= j < |o.cells| ==>
         if j + 1 in gd.indices[..k] && o.cells[j].aval == 0 then Removed(o.cells[j], r.cells[j], av)
         else r.cells[j] == o.cells[j]
  }

  /** From o to r, every square that changed was logged, and every square
      logged anew changed. */
  ghost predicate LogsChanges(o: Outcome, r: Outcome) {
    && |r.cells| == |o.cells|
    && (forall j :: 0 <= j < |o.cells| && r.cells[j] != o.cells[j] ==> j + 1 in r.logged)
    && (forall i :: i in r.logged ==> i in o.logged || (1 <= i <= |o.cells| && r.cells[i - 1] != o.cells[i - 1]))
  }

  /** From o to r, errors were only appended, and no duplicate among them. */
  ghost predicate ErrsKept(o: Outcome, r: Outcome) {
    && |o.errs| <= |r.errs| && r.errs[..|o.errs|] == o.errs
    && CountOf(r.errs, DuplicateGroupValuesCondition) == CountOf(o.errs, DuplicateGroupValuesCondition)
  }

  /** The sweep over the first k squares of the group removes av from each
      of them that is unassigned, and touches nothing else. */
  lemma {:induction false} RemoveFromFacts(gd: GroupDescriptor, o: Outcome, av: int, k: int)
    requires IntSets.Valid(gd.indices) && IntSets.Within(gd.indices, 1, |o.cells|) && 0 <= k <= |gd.indices|
    requires AllValid(o.cells)
    ensures SweptBy(gd, o, RemoveFrom(gd, o, av, k), av, k)
  {
    if k == 0 {
      assert RemoveFrom(gd, o, av, 0) == o;
    } else {
      RemoveFromFacts(gd, o, av, k - 1);
      assert gd.indices[k - 1] in gd.indices;
      SweepStep(gd, o, RemoveFrom(gd, o, av, k - 1), av, k);
    }
  }

  /** One more square of the sweep. */
  lemma SweepStep(gd: GroupDescriptor, o: Outcome, p: Outcome, av: int, k: int)
    requires IntSets.Valid(gd.indices) && IntSets.Within(gd.indices, 1, |o.cells|) && 1 <= k <= |gd.indices|
    requires AllValid(o.cells)
    requires SweptBy(gd, o, p, av, k - 1)
    ensures assert gd.indices[k - 1] in gd.indices; SweptBy(gd, o, RemoveIn(p, gd.indices[k - 1], av), av, k)
  {
    var i := gd.indices[k - 1];
    assert i in gd.indices;
    var r := RemoveIn(p, i, av);
    NotEarlier(gd.indices, k - 1);
    assert p.cells[i - 1] == o.cells[i - 1];
    RemoveInFacts(p, i, av);
    assert SweptCells(gd, o, r, av, k) by {
      SweepCells(gd, o, p, r, av, k);
    }
    assert LogsChanges(o, r) by {
      LogsChain(o, p, r, i);
    }
    assert ErrsKept(o, r) by {
      ErrsChain(o, p, r);
    }
  }

  /** The squares after one more step of the sweep. */
  lemma SweepCells(gd: GroupDescriptor, o: Outcome, p: Outcome, r: Outcome, av: int, k: int)
    requires IntSets.Within(gd.indices, 1, |o.cells|) && 1 <= k <= |gd.indices|
    requires SweptCells(gd, o, p, av, k - 1)
    requires var i := gd.indices[k - 1];
      && 1 <= i <= |o.cells| && i !in gd.indices[..k - 1] && |r.cells| == |o.cells|
      && (forall j :: 0 <= j < |o.cells| && j != i - 1 ==> r.cells[j] == p.cells[j])
      && (p.cells[i - 1].aval == 0 ==> Removed(p.cells[i - 1], r.cells[i - 1], av))
      && (p.cells[i - 1].aval != 0 ==> r.cells[i - 1] == p.cells[i - 1])
    ensures SweptCells(gd, o, r, av, k)
  {
    forall j | 0 <= j < |o.cells|
      ensures if j + 1 in gd.indices[..k] && o.cells[j].aval == 0 then Removed(o.cells[j], r.cells[j], av)
              else r.cells[j] == o.cells[j]
    {
      IntSets.PrefixIn(gd.indices, k - 1, j + 1);
    }
  }

  /** Logging stays exact across one more step that changes at most
      square i and logs it exactly when it changes. */
  lemma LogsChain(o: Outcome, p: Outcome, r: Outcome, i: int)
    requires LogsChanges(o, p) && 1 <= i <= |o.cells| && |r.cells| == |o.cells|
    requires forall j :: 0 <= j < |o.cells| && j != i - 1 ==> r.cells[j] == p.cells[j]
    requires r.logged == p.logged + (if r.cells[i - 1] != p.cells[i - 1] then {i} else {})
    requires p.cells[i - 1] == o.cells[i - 1]
    ensures LogsChanges(o, r)
  {
  }

  /** Keeping the errors is transitive. */
  lemma ErrsChain(o: Outcome, p: Outcome, r: Outcome)
    requires ErrsKept(o, p) && ErrsKept(p, r)
    ensures ErrsKept(o, r)
  {
    assert r.errs[..|o.errs|] == r.errs[..|p.errs|][..|o.errs|];
  }

  /** group.assign, its bookkeeping: when the group already records square
      ai for its value, nothing happens.  Otherwise where[av] becomes ai, av
      leaves need, ai leaves free, and exactly one duplicate error is
      reported when where[av] named another square (none otherwise). */
  lemma AssignRecords(gd: GroupDescriptor, g: GroupState, cells: seq<Cell>, ai: int)
    requires Fits(gd, cells) && StateOk(gd, g) && CellsOk(cells, |gd.indices|)
    requires 1 <= ai <= |cells| && cells[ai - 1].aval != 0
    ensures var av := cells[ai - 1].aval; var r := AssignSpec(gd, g, cells, ai);
      && (g.where[av] == ai ==> r == Outcome(g, cells, [], {}))
      && (g.where[av] != ai ==>
            && r.g.where == g.where[av := ai]
            && IntSets.Elems(r.g.need) == IntSets.Elems(g.need) - {av}
            && IntSets.Elems(r.g.free) == IntSets.Elems(g.free) - {ai}
            && CountOf(r.errs, DuplicateGroupValuesCondition) == (if g.where[av] != 0 then 1 else 0))
  {
    var av := cells[ai - 1].aval;
    var wi := g.where[av];
    if wi != ai {
      var dup := if wi != 0 then [GroupError(gd.id, av, DuplicateGroupValuesCondition)] else [];
      var g' := GroupState(g.where[av := ai], IntSets.Drop(g.need, {av}), IntSets.Drop(g.free, {ai}));
      IntSets.DropProps(g.need, {av});
      IntSets.DropProps(g.free, {ai});
      RemoveFromFacts(gd, Outcome(g', cells, dup, {}), av, |gd.indices|);
      assert CountOf(dup, DuplicateGroupValuesCondition) == (if wi != 0 then 1 else 0);
    }
  }

  /** group.assign, its sweep: every unassigned square of the group loses
      av, no other square changes, and exactly the changed squares are
      logged. */
  lemma AssignSweeps(gd: GroupDescriptor, g: GroupState, cells: seq<Cell>, ai: int)
    requires Fits(gd, cells) && StateOk(gd, g) && CellsOk(cells, |gd.indices|)
    requires 1 <= ai <= |cells| && cells[ai - 1].aval != 0
    ensures var av := cells[ai - 1].aval; var r := AssignSpec(gd, g, cells, ai);
      && (forall i :: i in gd.indices && cells[i - 1].aval == 0 && g.where[av] != ai ==> Removed(cells[i - 1], r.cells[i - 1], av))
      && (forall j :: 0 <= j < |cells| && (j + 1 !in gd.indices || cells[j].aval != 0) ==> r.cells[j] == cells[j])
      && (forall j :: 0 <= j < |cells| ==> (r.cells[j] != cells[j] <==> j + 1 in r.logged))
      && (forall i :: i in r.logged ==> 1 <= i <= |cells|)
  {
    var av := cells[ai - 1].aval;
    var wi := g.where[av];
    if wi != ai {
      var n := |gd.indices|;
      var dup := if wi != 0 then [GroupError(gd.id, av, DuplicateGroupValuesCondition)] else [];
      var g' := GroupState(g.where[av := ai], IntSets.Drop(g.need, {av}), IntSets.Drop(g.free, {ai}));
      var o := Outcome(g', cells, dup, {});
      RemoveFromFacts(gd, o, av, n);
      assert gd.indices[..n] == gd.indices;
    }
  }
  // ---------------------------------------------------------------------
  // analyze

  /** From o to r the group's table is kept, need and free only lose
      elements, and every error of o is still reported. */
  ghost predicate Shrinks(o: Outcome, r: Outcome) {
    && r.g.where == o.g.where
    && (forall v :: v in r.g.need ==> v in o.g.need)
    && (forall i :: i in r.g.free ==> i in o.g.free)
    && (forall e :: e in o.errs ==> e in r.errs)
  }

  /** setCandidate takes idx out of free and val out of need, and does
      nothing else to the group. */
  lemma SetCandidateShrinks(gd: GroupDescriptor, o: Outcome, idx: int, val: int)
    requires IntSets.Within(gd.indices, 1, |o.cells|) && 1 <= idx <= |o.cells|
    ensures var r := SetCandidateSpec(gd, o, idx, val);
      Shrinks(o, r) && idx !in r.g.free && val !in r.g.need
  {
    DropMember(o.g.free, {idx});
    DropMember(o.g.need, {val});
  }

  /** What analyze may do to square c0, logged or not: its assigned and
      possible values stay; a square it logs gained a binding source and
      had more than one possible value; a square it does not log is
      unchanged. */
  predicate Tracks(c0: Cell, c: Cell, logged: bool) {
    && c.aval == c0.aval && c.pvals == c0.pvals && |c.bsrc| >= |c0.bsrc|
    && (logged ==> |c.bsrc| > |c0.bsrc| && |c0.pvals| > 1)
    && (!logged ==> c == c0)
  }

  /** Every square of r tracks its contents in cells0. */
  ghost predicate CellsTrack(cells0: seq<Cell>, r: Outcome) {
    && |r.cells| == |cells0|
    && (forall i :: i in r.logged ==> 1 <= i <= |cells0|)
    && forall j :: 0 <= j < |cells0| ==> Tracks(cells0[j], r.cells[j], j + 1 in r.logged)
  }

  /** setCandidate keeps every square tracking its original contents. */
  lemma SetCandidateTracks(gd: GroupDescriptor, cells0: seq<Cell>, o: Outcome, idx: int, val: int)
    requires IntSets.Within(gd.indices, 1, |o.cells|) && 1 <= idx <= |o.cells|
    requires CellsTrack(cells0, o)
    ensures CellsTrack(cells0, SetCandidateSpec(gd, o, idx, val))
  {
    var c := o.cells[idx - 1];
    var s := CandidateBind(c, idx, val, gd.id);
    assert Tracks(cells0[idx - 1], s.cell, idx in o.logged || s.logged);
  }

  /** The first loop of analyze leaves the squares and the log alone. */
  lemma PhaseOneTracks(gd: GroupDescriptor, o: Outcome, fr: seq<int>)
    requires IntSets.Within(gd.indices, 1, |o.cells|) && IntSets.Within(fr, 1, |o.cells|)
    requires o.logged == {}
    ensures CellsTrack(o.cells, Phase1(gd, o, fr, 0))
  {
    PhaseOneCells(gd, o, fr, 0);
  }

  /** The second loop of analyze keeps every square tracking its contents
      in cells0. */
  lemma {:induction false} PhaseTwoTracks(gd: GroupDescriptor, cells0: seq<Cell>, o: Outcome, cells: seq<Cell>,
                                          fr: seq<int>, nd: seq<int>, j: int)
    requires IntSets.Within(gd.indices, 1, |o.cells|) && |cells| == |o.cells|
    requires IntSets.Within(fr, 1, |cells|) && 0 <= j <= |nd|
    requires CellsTrack(cells0, o)
    ensures CellsTrack(cells0, Phase2(gd, o, cells, fr, nd, j))
    decreases |nd| - j
  {
    if j < |nd| {
      PhaseTwoTracks(gd, cells0, o, cells, fr, nd, j + 1);
      var p := Phase2(gd, o, cells, fr, nd, j + 1);
      var v := nd[j];
      if Candidates(cells, fr, 0, v) == 1 {
        SetCandidateTracks(gd, cells0, p, LastCandidate(cells, fr, 0, v), v);
      }
    }
  }

  /** analyze, on the squares: no square's assigned or possible values
      change, a square with at most one possible value is not touched (it
      is never bound), exactly the squares that change are logged, and a
      logged square has gained a binding source. */
  lemma AnalyzeCells(gd: GroupDescriptor, g: GroupState, cells: seq<Cell>)
    requires Fits(gd, cells) && StateOk(gd, g)
    ensures var r := AnalyzeSpec(gd, g, cells);
      && (forall j :: 0 <= j < |cells| ==> r.cells[j].aval == cells[j].aval && r.cells[j].pvals == cells[j].pvals)
      && (forall j :: 0 <= j < |cells| && |cells[j].pvals| <= 1 ==> r.cells[j] == cells[j])
      && (forall j :: 0 <= j < |cells| ==> (r.cells[j] != cells[j] <==> j + 1 in r.logged))
      && (forall i :: i in r.logged ==> 1 <= i <= |cells|)
      && (forall j :: 0 <= j < |cells| ==>
            |r.cells[j].bsrc| >= |cells[j].bsrc| && (j + 1 in r.logged ==> |r.cells[j].bsrc| > |cells[j].bsrc|))
  {
    FreeWithin(gd, g, |cells|);
    var o := Outcome(g, cells, [], {});
    var p := Phase1(gd, o, g.free, 0);
    PhaseOneTracks(gd, o, g.free);
    PhaseOneCells(gd, o, g.free, 0);
    PhaseTwoTracks(gd, cells, p, cells, g.free, p.g.need, 0);
    var r := AnalyzeSpec(gd, g, cells);
    forall j | 0 <= j < |cells|
      ensures r.cells[j] != cells[j] <==> j + 1 in r.logged
      ensures |r.cells[j].bsrc| >= |cells[j].bsrc| && (j + 1 in r.logged ==> |r.cells[j].bsrc| > |cells[j].bsrc|)
    {
      assert Tracks(cells[j], r.cells[j], j + 1 in r.logged);
    }
  }
  /** No candidate for v among fr[j..] exactly when the count is zero. */
  lemma {:induction false} NoCandidates(cells: seq<Cell>, fr: seq<int>, j: int, v: int)
    requires IntSets.Within(fr, 1, |cells|) && 0 <= j <= |fr|
    ensures Candidates(cells, fr, j, v) == 0 <==> forall k :: j <= k < |fr| ==> !IsCandidate(cells, fr, k, v)
    decreases |fr| - j
  {
    if j < |fr| {
      NoCandidates(cells, fr, j + 1, v);
    }
  }

  /** The frontmost candidate is a candidate; when the count is one it is
      the only one. */
  lemma {:induction false} OnlyCandidate(cells: seq<Cell>, fr: seq<int>, j: int, v: int)
    requires IntSets.Within(fr, 1, |cells|) && 0 <= j <= |fr|
    ensures var r := LastCandidate(cells, fr, j, v);
      r != 0 ==> exists k :: j <= k < |fr| && fr[k] == r && IsCandidate(cells, fr, k, v)
    ensures Candidates(cells, fr, j, v) == 1 ==>
      forall k :: j <= k < |fr| && IsCandidate(cells, fr, k, v) ==> fr[k] == LastCandidate(cells, fr, j, v)
    decreases |fr| - j
  {
    if j < |fr| {
      OnlyCandidate(cells, fr, j + 1, v);
      NoCandidates(cells, fr, j + 1, v);
    }
  }

  /** What the second loop of analyze promises for the needed value v:
      without candidates an error names it; with one candidate the value
      leaves need and its square leaves free. */
  ghost predicate Settled(gd: GroupDescriptor, r: Outcome, cells: seq<Cell>, fr: seq<int>, v: int)
    requires IntSets.Within(fr, 1, |cells|)
  {
    && (Candidates(cells, fr, 0, v) == 0 ==> GroupError(gd.id, v, NoGroupValueCondition) in r.errs)
    && (Candidates(cells, fr, 0, v) == 1 ==> v !in r.g.need && LastCandidate(cells, fr, 0, v) !in r.g.free)
  }

  /** What the first loop of analyze promises for square i: when it has a
      single possible value, the square leaves free and the value leaves
      need. */
  ghost predicate SingleSettled(r: Outcome, cells: seq<Cell>, i: int) {
    1 <= i <= |cells| && |cells[i - 1].pvals| == 1 ==> i !in r.g.free && cells[i - 1].pvals[0] !in r.g.need
  }

  /** One step of the first loop shrinks and settles its square. */
  lemma SingleInFacts(gd: GroupDescriptor, p: Outcome, i: int)
    requires IntSets.Within(gd.indices, 1, |p.cells|) && 1 <= i <= |p.cells|
    ensures Shrinks(p, SingleIn(gd, p, i)) && SingleSettled(SingleIn(gd, p, i), p.cells, i)
  {
    var c := p.cells[i - 1];
    if |c.pvals| == 1 {
      SetCandidateShrinks(gd, p, i, c.pvals[0]);
    }
  }

  /** The first loop of analyze over fr[j..] shrinks the group and settles
      every singleton square it visits. */
  lemma {:induction false} PhaseOneSettles(gd: GroupDescriptor, o: Outcome, fr: seq<int>, j: int)
    requires IntSets.Within(gd.indices, 1, |o.cells|) && IntSets.Within(fr, 1, |o.cells|)
    requires 0 <= j <= |fr|
    ensures var r := Phase1(gd, o, fr, j);
      Shrinks(o, r) && forall k :: j <= k < |fr| ==> SingleSettled(r, o.cells, fr[k])
    decreases |fr| - j
  {
    if j < |fr| {
      PhaseOneSettles(gd, o, fr, j + 1);
      PhaseOneCells(gd, o, fr, j + 1);
      var p := Phase1(gd, o, fr, j + 1);
      assert fr[j] in fr;
      SingleStep(gd, o, p, fr, j);
    }
  }

  /** The induction step of PhaseOneSettles. */
  lemma SingleStep(gd: GroupDescriptor, o: Outcome, p: Outcome, fr: seq<int>, j: int)
    requires IntSets.Within(gd.indices, 1, |p.cells|) && 0 <= j < |fr| && 1 <= fr[j] <= |p.cells|
    requires p.cells == o.cells && Shrinks(o, p)
    requires forall k :: j + 1 <= k < |fr| ==> SingleSettled(p, o.cells, fr[k])
    ensures var r := SingleIn(gd, p, fr[j]);
      Shrinks(o, r) && forall k :: j <= k < |fr| ==> SingleSettled(r, o.cells, fr[k])
  {
    var r := SingleIn(gd, p, fr[j]);
    SingleInFacts(gd, p, fr[j]);
    ShrinksTrans(o, p, r);
    forall k | j + 1 <= k < |fr| ensures SingleSettled(r, o.cells, fr[k]) {
      SingleSettledKept(p, r, o.cells, fr[k]);
    }
  }

  lemma ShrinksTrans(a: Outcome, b: Outcome, c: Outcome)
    requires Shrinks(a, b) && Shrinks(b, c)
    ensures Shrinks(a, c)
  {
  }

  /** One step of the second loop shrinks the group and settles its value. */
  lemma NeedInFacts(gd: GroupDescriptor, p: Outcome, cells: seq<Cell>, fr: seq<int>, v: int)
    requires IntSets.Within(gd.indices, 1, |p.cells|) && |cells| == |p.cells| && IntSets.Within(fr, 1, |cells|)
    ensures Shrinks(p, NeedIn(gd, p, cells, fr, v)) && Settled(gd, NeedIn(gd, p, cells, fr, v), cells, fr, v)
  {
    if Candidates(cells, fr, 0, v) == 1 {
      SetCandidateShrinks(gd, p, LastCandidate(cells, fr, 0, v), v);
    }
  }

  /** Settled survives a later shrinking step. */
  lemma SettledKept(gd: GroupDescriptor, a: Outcome, b: Outcome, cells: seq<Cell>, fr: seq<int>, v: int)
    requires IntSets.Within(fr, 1, |cells|)
    requires Settled(gd, a, cells, fr, v) && Shrinks(a, b)
    ensures Settled(gd, b, cells, fr, v)
  {
  }

  /** The second loop of analyze over nd[j..] shrinks the group and settles
      every value it visits. */
  lemma {:induction false} PhaseTwoSettles(gd: GroupDescriptor, o: Outcome, cells: seq<Cell>,
                                           fr: seq<int>, nd: seq<int>, j: int)
    requires IntSets.Within(gd.indices, 1, |o.cells|) && |cells| == |o.cells|
    requires IntSets.Within(fr, 1, |cells|) && 0 <= j <= |nd|
    ensures var r := Phase2(gd, o, cells, fr, nd, j);
      Shrinks(o, r) && forall k :: j <= k < |nd| ==> Settled(gd, r, cells, fr, nd[k])
    decreases |nd| - j
  {
    if j < |nd| {
      PhaseTwoSettles(gd, o, cells, fr, nd, j + 1);
      var p := Phase2(gd, o, cells, fr, nd, j + 1);
      var r := NeedIn(gd, p, cells, fr, nd[j]);
      NeedInFacts(gd, p, cells, fr, nd[j]);
      forall k | j + 1 <= k < |nd| ensures Settled(gd, r, cells, fr, nd[k]) {
        SettledKept(gd, p, r, cells, fr, nd[k]);
      }
    }
  }

  /** SingleSettled survives a later shrinking step. */
  lemma SingleSettledKept(a: Outcome, b: Outcome, cells: seq<Cell>, i: int)
    requires SingleSettled(a, cells, i) && Shrinks(a, b)
    ensures SingleSettled(b, cells, i)
  {
    if 1 <= i <= |cells| && |cells[i - 1].pvals| == 1 {
      var v := cells[i - 1].pvals[0];
      assert v in b.g.need ==> v in a.g.need;
    }
  }

  /** analyze, on the group: the table of assigned squares is kept, need
      and free only shrink and the errors of the first loop are kept; every
      free square with a single possible value leaves free with its value
      leaving need; every value still needed after the first loop either is
      reported as missing (no candidate) or, with a single candidate,
      leaves need with that square leaving free and bound to the group.
      Nothing else leaves: a value held by no singleton and with other than
      one candidate stays needed, and a square that is neither a singleton
      nor the only candidate of a value still needed stays free. */
  lemma AnalyzeSettles(gd: GroupDescriptor, g: GroupState, cells: seq<Cell>)
    requires Fits(gd, cells) && StateOk(gd, g)
    ensures IntSets.Within(g.free, 1, |cells|)
    ensures var r := AnalyzeSpec(gd, g, cells);
      var p := Phase1(gd, Outcome(g, cells, [], {}), g.free, 0);
      && Shrinks(Outcome(g, cells, [], {}), r)
      && (forall i :: i in g.free ==> SingleSettled(r, cells, i))
      && (forall v :: v in p.g.need ==> Settled(gd, r, cells, g.free, v))
      && (forall v :: v in p.g.need ==> BoundHere(gd, r, cells, g.free, v))
      && (forall v :: v in g.need && !SingleHolds(cells, g.free, 0, v) && Candidates(cells, g.free, 0, v) != 1 ==>
            v in r.g.need)
      && (forall i ::
            (i in g.free && 1 <= i <= |cells| && |cells[i - 1].pvals| != 1 && !ForcedAt(cells, g.free, p.g.need, 0, i))
            ==> i in r.g.free)
  {
    AnalyzeBinds(gd, g, cells);
    PhaseOneKeeps(gd, Outcome(g, cells, [], {}), g.free, 0);
    FreeWithin(gd, g, |cells|);
    var o := Outcome(g, cells, [], {});
    var p := Phase1(gd, o, g.free, 0);
    PhaseOneSettles(gd, o, g.free, 0);
    PhaseOneCells(gd, o, g.free, 0);
    PhaseTwoSettles(gd, p, cells, g.free, p.g.need, 0);
    PhaseTwoKeeps(gd, p, cells, g.free, p.g.need, 0);
    var r := AnalyzeSpec(gd, g, cells);
    forall i | i in g.free ensures SingleSettled(r, cells, i) {
      var k :| 0 <= k < |g.free| && g.free[k] == i;
      SingleSettledKept(p, r, cells, i);
    }
    forall v | v in p.g.need ensures Settled(gd, r, cells, g.free, v) {
      var k :| 0 <= k < |p.g.need| && p.g.need[k] == v;
    }
  }
  /** From o to r no possible value changed and no square lost a group that
      bound it. */
  ghost predicate BindsGrow(o: Outcome, r: Outcome) {
    && |r.cells| == |o.cells|
    && forall j :: 0 <= j < |o.cells| ==>
         r.cells[j].pvals == o.cells[j].pvals && forall x :: x in o.cells[j].bsrc ==> x in r.cells[j].bsrc
  }

  /** The binding half of what the second loop of analyze promises for v:
      a single candidate is bound with the group among its sources. */
  ghost predicate BoundHere(gd: GroupDescriptor, r: Outcome, cells: seq<Cell>, fr: seq<int>, v: int)
    requires IntSets.Within(fr, 1, |cells|)
  {
    Candidates(cells, fr, 0, v) == 1 ==>
      var i := LastCandidate(cells, fr, 0, v); 1 <= i <= |r.cells| && gd.id in r.cells[i - 1].bsrc
  }

  /** setCandidate keeps every possible value and every binding source, and
      binds a square with more than one possible value to the group. */
  lemma SetCandidateBinds(gd: GroupDescriptor, o: Outcome, idx: int, val: int)
    requires IntSets.Within(gd.indices, 1, |o.cells|) && 1 <= idx <= |o.cells|
    ensures var r := SetCandidateSpec(gd, o, idx, val);
      && BindsGrow(o, r)
      && (|o.cells[idx - 1].pvals| > 1 ==> r.cells[idx - 1].bval == val && gd.id in r.cells[idx - 1].bsrc)
  {
    var r := SetCandidateSpec(gd, o, idx, val);
    var c := o.cells[idx - 1];
    var s := CandidateBind(c, idx, val, gd.id);
    assert r.cells == o.cells[idx - 1 := s.cell];
    forall j, x | 0 <= j < |o.cells| && x in o.cells[j].bsrc ensures x in r.cells[j].bsrc {
      if j == idx - 1 && |c.pvals| > 1 {
        assert s.cell.bsrc == c.bsrc + [gd.id];
      }
    }
  }

  /** The duplicate check of setCandidate (Issue 32): exactly one
      DuplicateGroupValues error is added, naming the group and val, when
      another square of the group is already bound to val, and none
      otherwise. */
  lemma SetCandidateDuplicate(gd: GroupDescriptor, o: Outcome, idx: int, val: int)
    requires IntSets.Within(gd.indices, 1, |o.cells|) && 1 <= idx <= |o.cells|
    ensures var r := SetCandidateSpec(gd, o, idx, val);
      && |o.errs| <= |r.errs| && r.errs[..|o.errs|] == o.errs
      && CountOf(r.errs, DuplicateGroupValuesCondition) ==
           CountOf(o.errs, DuplicateGroupValuesCondition) + (if BoundElsewhere(gd, o.cells, idx, val) then 1 else 0)
      && (GroupError(gd.id, val, DuplicateGroupValuesCondition) in r.errs[|o.errs|..] <==> BoundElsewhere(gd, o.cells, idx, val))
  {
    var r := SetCandidateSpec(gd, o, idx, val);
    var c := o.cells[idx - 1];
    var s := CandidateBind(c, idx, val, gd.id);
    var cells := o.cells[idx - 1 := s.cell];
    assert BoundElsewhere(gd, cells, idx, val) == BoundElsewhere(gd, o.cells, idx, val) by {
      forall i | i in gd.indices && i != idx ensures cells[i - 1] == o.cells[i - 1] {
      }
    }
    var dup := if BoundElsewhere(gd, o.cells, idx, val) then [GroupError(gd.id, val, DuplicateGroupValuesCondition)] else [];
    assert r.errs == o.errs + s.errs + dup;
    assert CountOf(s.errs, DuplicateGroupValuesCondition) == 0 by {
      if |c.pvals| > 1 {
        BindReports(c, idx, val, gd.id);
        CountOfBound(s.errs, NoGroupValueCondition, NotInSetCondition, DuplicateGroupValuesCondition);
      }
    }
    CountOfNone(s.errs, DuplicateGroupValuesCondition);
    CountOfConcat(o.errs, s.errs, DuplicateGroupValuesCondition);
    CountOfConcat(o.errs + s.errs, dup, DuplicateGroupValuesCondition);
    assert r.errs[|o.errs|..] == s.errs + dup;
  }

  /** Binding sources only accumulate. */
  lemma BindsGrowTrans(a: Outcome, b: Outcome, c: Outcome)
    requires BindsGrow(a, b) && BindsGrow(b, c)
    ensures BindsGrow(a, c)
  {
  }

  /** One step of the second loop binds the single candidate of v, if any,
      and loses no binding. */
  lemma NeedInBinds(gd: GroupDescriptor, p: Outcome, cells: seq<Cell>, fr: seq<int>, v: int)
    requires IntSets.Within(gd.indices, 1, |p.cells|) && |cells| == |p.cells| && IntSets.Within(fr, 1, |cells|)
    requires forall j :: 0 <= j < |cells| ==> p.cells[j].pvals == cells[j].pvals
    ensures BindsGrow(p, NeedIn(gd, p, cells, fr, v)) && BoundHere(gd, NeedIn(gd, p, cells, fr, v), cells, fr, v)
  {
    var count := Candidates(cells, fr, 0, v);
    if count == 1 {
      var i := LastCandidate(cells, fr, 0, v);
      OnlyCandidate(cells, fr, 0, v);
      var k :| 0 <= k < |fr| && fr[k] == i && IsCandidate(cells, fr, k, v);
      assert |p.cells[i - 1].pvals| > 1;
      SetCandidateBinds(gd, p, i, v);
    }
  }

  /** BoundHere survives a step that loses no binding. */
  lemma BoundHereKept(gd: GroupDescriptor, a: Outcome, b: Outcome, cells: seq<Cell>, fr: seq<int>, v: int)
    requires IntSets.Within(fr, 1, |cells|)
    requires BoundHere(gd, a, cells, fr, v) && BindsGrow(a, b)
    ensures BoundHere(gd, b, cells, fr, v)
  {
    if Candidates(cells, fr, 0, v) == 1 {
      var i := LastCandidate(cells, fr, 0, v);
      assert gd.id in a.cells[i - 1].bsrc;
    }
  }

  /** The second loop over nd[j..] binds the single candidate of every value
      it settles. */
  lemma {:induction false} PhaseTwoBinds(gd: GroupDescriptor, o: Outcome, cells: seq<Cell>,
                                         fr: seq<int>, nd: seq<int>, j: int)
    requires IntSets.Within(gd.indices, 1, |o.cells|) && |cells| == |o.cells|
    requires IntSets.Within(fr, 1, |cells|) && 0 <= j <= |nd|
    requires forall i :: 0 <= i < |cells| ==> o.cells[i].pvals == cells[i].pvals
    ensures var r := Phase2(gd, o, cells, fr, nd, j);
      BindsGrow(o, r) && forall k :: j <= k < |nd| ==> BoundHere(gd, r, cells, fr, nd[k])
    decreases |nd| - j
  {
    if j < |nd| {
      PhaseTwoBinds(gd, o, cells, fr, nd, j + 1);
      var q := Phase2(gd, o, cells, fr, nd, j + 1);
      var r := NeedIn(gd, q, cells, fr, nd[j]);
      NeedInBinds(gd, q, cells, fr, nd[j]);
      BindsGrowTrans(o, q, r);
      forall k | j + 1 <= k < |nd| ensures BoundHere(gd, r, cells, fr, nd[k]) {
        BoundHereKept(gd, q, r, cells, fr, nd[k]);
      }
    }
  }

  /** analyze binds the forced square: every value still needed after the
      first loop that has a single candidate has that square bound, with
      the group among its binding sources; no binding is lost and no
      possible value changes. */
  lemma AnalyzeBinds(gd: GroupDescriptor, g: GroupState, cells: seq<Cell>)
    requires Fits(gd, cells) && StateOk(gd, g)
    ensures IntSets.Within(g.free, 1, |cells|)
    ensures var r := AnalyzeSpec(gd, g, cells);
      var p := Phase1(gd, Outcome(g, cells, [], {}), g.free, 0);
      && BindsGrow(Outcome(g, cells, [], {}), r)
      && forall v :: v in p.g.need ==> BoundHere(gd, r, cells, g.free, v)
  {
    FreeWithin(gd, g, |cells|);
    var o := Outcome(g, cells, [], {});
    var p := Phase1(gd, o, g.free, 0);
    PhaseOneCells(gd, o, g.free, 0);
    PhaseTwoBinds(gd, p, cells, g.free, p.g.need, 0);
    var r := AnalyzeSpec(gd, g, cells);
    forall v | v in p.g.need ensures BoundHere(gd, r, cells, g.free, v) {
      var k :| 0 <= k < |p.g.need| && p.g.need[k] == v;
    }
  }

  /** setCandidate takes only idx out of free and only val out of need. */
  lemma SetCandidateKeeps(gd: GroupDescriptor, o: Outcome, idx: int, val: int)
    requires IntSets.Within(gd.indices, 1, |o.cells|) && 1 <= idx <= |o.cells|
    ensures var r := SetCandidateSpec(gd, o, idx, val);
      && (forall v :: v in o.g.need && v != val ==> v in r.g.need)
      && (forall i :: i in o.g.free && i != idx ==> i in r.g.free)
  {
    DropMember(o.g.need, {val});
    DropMember(o.g.free, {idx});
  }

  /** Square i has the single possible value v. */
  predicate OnlyValue(cells: seq<Cell>, i: int, v: int) {
    1 <= i <= |cells| && |cells[i - 1].pvals| == 1 && cells[i - 1].pvals[0] == v
  }

  /** Some square among fr[j..] has the single possible value v. */
  ghost predicate SingleHolds(cells: seq<Cell>, fr: seq<int>, j: int, v: int)
    requires IntSets.Within(fr, 1, |cells|) && 0 <= j <= |fr|
  {
    exists k :: j <= k < |fr| && OnlyValue(cells, fr[k], v)
  }

  /** The first loop of analyze over fr[j..] keeps in need every value that
      no singleton square it visits has, and keeps in free every square
      with other than one possible value. */
  lemma {:induction false} PhaseOneKeeps(gd: GroupDescriptor, o: Outcome, fr: seq<int>, j: int)
    requires IntSets.Within(gd.indices, 1, |o.cells|) && IntSets.Within(fr, 1, |o.cells|)
    requires 0 <= j <= |fr|
    ensures var r := Phase1(gd, o, fr, j);
      && (forall v :: v in o.g.need && !SingleHolds(o.cells, fr, j, v) ==> v in r.g.need)
      && (forall i :: i in o.g.free && 1 <= i <= |o.cells| && |o.cells[i - 1].pvals| != 1 ==> i in r.g.free)
    decreases |fr| - j
  {
    if j < |fr| {
      PhaseOneKeeps(gd, o, fr, j + 1);
      PhaseOneCells(gd, o, fr, j + 1);
      var p := Phase1(gd, o, fr, j + 1);
      var i := fr[j];
      assert i in fr;
      var c := p.cells[i - 1];
      if |c.pvals| == 1 {
        SetCandidateKeeps(gd, p, i, c.pvals[0]);
      }
    }
  }

  /** Square i is the only candidate of some value among nd[j..]. */
  ghost predicate ForcedAt(cells: seq<Cell>, fr: seq<int>, nd: seq<int>, j: int, i: int)
    requires IntSets.Within(fr, 1, |cells|) && 0 <= j <= |nd|
  {
    exists k :: j <= k < |nd| && Candidates(cells, fr, 0, nd[k]) == 1 && LastCandidate(cells, fr, 0, nd[k]) == i
  }

  /** The second loop of analyze over nd[j..] keeps in need every value
      that has other than one candidate, and keeps in free every square
      that is the only candidate of none of the values it visits. */
  lemma {:induction false} PhaseTwoKeeps(gd: GroupDescriptor, o: Outcome, cells: seq<Cell>,
                                         fr: seq<int>, nd: seq<int>, j: int)
    requires IntSets.Within(gd.indices, 1, |o.cells|) && |cells| == |o.cells|
    requires IntSets.Within(fr, 1, |cells|) && 0 <= j <= |nd|
    ensures var r := Phase2(gd, o, cells, fr, nd, j);
      && (forall v :: v in o.g.need && Candidates(cells, fr, 0, v) != 1 ==> v in r.g.need)
      && (forall i :: i in o.g.free && !ForcedAt(cells, fr, nd, j, i) ==> i in r.g.free)
    decreases |nd| - j
  {
    if j < |nd| {
      PhaseTwoKeeps(gd, o, cells, fr, nd, j + 1);
      var p := Phase2(gd, o, cells, fr, nd, j + 1);
      var v := nd[j];
      if Candidates(cells, fr, 0, v) == 1 {
        var i := LastCandidate(cells, fr, 0, v);
        SetCandidateKeeps(gd, p, i, v);
      }
    }
  }

  // ---------------------------------------------------------------------
  // newGroup

  /** The j-th square of the group is assigned v. */
  predicate Holds(gd: GroupDescriptor, cells: seq<Cell>, j: int, v: int) {
    0 <= j < |gd.indices| && 1 <= gd.indices[j] <= |cells| && cells[gd.indices[j] - 1].aval == v
  }

  /** One of the first k squares of the group is assigned v. */
  ghost predicate HeldBefore(gd: GroupDescriptor, cells: seq<Cell>, k: int, v: int) {
    exists j :: 0 <= j < k && Holds(gd, cells, j, v)
  }

  /** Two of the first k squares of the group are assigned v. */
  ghost predicate TwiceBefore(gd: GroupDescriptor, cells: seq<Cell>, k: int, v: int) {
    exists a, b :: 0 <= a < b < k && Holds(gd, cells, a, v) && Holds(gd, cells, b, v)
  }

  lemma HeldStep(gd: GroupDescriptor, cells: seq<Cell>, k: int, v: int)
    requires 1 <= k
    ensures HeldBefore(gd, cells, k, v) <==> HeldBefore(gd, cells, k - 1, v) || Holds(gd, cells, k - 1, v)
  {
    if HeldBefore(gd, cells, k, v) {
      var j :| 0 <= j < k && Holds(gd, cells, j, v);
      if j < k - 1 {
        assert HeldBefore(gd, cells, k - 1, v);
      }
    }
  }

  lemma TwiceStep(gd: GroupDescriptor, cells: seq<Cell>, k: int, v: int)
    requires 1 <= k
    ensures TwiceBefore(gd, cells, k, v) <==>
      TwiceBefore(gd, cells, k - 1, v) || (Holds(gd, cells, k - 1, v) && HeldBefore(gd, cells, k - 1, v))
  {
    if TwiceBefore(gd, cells, k, v) {
      var a, b :| 0 <= a < b < k && Holds(gd, cells, a, v) && Holds(gd, cells, b, v);
      if b < k - 1 {
        assert TwiceBefore(gd, cells, k - 1, v);
      } else {
        assert HeldBefore(gd, cells, k - 1, v);
      }
    }
    if Holds(gd, cells, k - 1, v) && HeldBefore(gd, cells, k - 1, v) {
      var a :| 0 <= a < k - 1 && Holds(gd, cells, a, v);
      assert Holds(gd, cells, a, v) && Holds(gd, cells, k - 1, v);
    }
  }

  /** After pass 1 over the first k squares, where[v] names a square among
      them assigned v exactly when there is one, and where[0] is 0. */
  ghost predicate WhereRecords(gd: GroupDescriptor, cells: seq<Cell>, r: Outcome, k: int)
    requires |r.g.where| == |gd.indices| + 1 && 0 <= k <= |gd.indices|
  {
    && r.g.where[0] == 0
    && (forall v :: 1 <= v <= |gd.indices| ==> (r.g.where[v] != 0 <==> HeldBefore(gd, cells, k, v)))
    && (forall v :: 1 <= v <= |gd.indices| && r.g.where[v] != 0 ==>
          r.g.where[v] in gd.indices[..k] && 1 <= r.g.where[v] <= |cells| && cells[r.g.where[v] - 1].aval == v)
  }

  /** After pass 1 over the first k squares, every error is a duplicate,
      and one names v exactly when two of those squares are assigned v. */
  ghost predicate DupsRecord(gd: GroupDescriptor, cells: seq<Cell>, r: Outcome, k: int) {
    && (forall e :: e in r.errs ==> e.condition == DuplicateGroupValuesCondition)
    && (forall v :: GroupError(gd.id, v, DuplicateGroupValuesCondition) in r.errs <==>
          1 <= v <= |gd.indices| && TwiceBefore(gd, cells, k, v))
  }

  /** After pass 1 over the first k squares, need holds the values 1..n
      that none of them is assigned. */
  ghost predicate NeedRecords(gd: GroupDescriptor, cells: seq<Cell>, r: Outcome, k: int) {
    forall v :: v in r.g.need <==> 1 <= v <= |gd.indices| && !HeldBefore(gd, cells, k, v)
  }

  /** After pass 1 over the first k squares, free holds the squares of the
      group except the assigned ones among those k. */
  ghost predicate FreeRecords(gd: GroupDescriptor, cells: seq<Cell>, r: Outcome, k: int)
    requires IntSets.Within(gd.indices, 1, |cells|) && 0 <= k <= |gd.indices|
  {
    forall i :: i in r.g.free <==> i in gd.indices && (i !in gd.indices[..k] || cells[i - 1].aval == 0)
  }

  /** The step of pass 1 for WhereRecords and DupsRecord. */
  lemma RecordStep(gd: GroupDescriptor, cells: seq<Cell>, p: Outcome, k: int)
    requires Fits(gd, cells) && CellsOk(cells, |gd.indices|) && 1 <= k <= |gd.indices|
    requires p.cells == cells && |p.g.where| == |gd.indices| + 1
    requires WhereRecords(gd, cells, p, k - 1) && DupsRecord(gd, cells, p, k - 1)
    ensures assert gd.indices[k - 1] in gd.indices;
      var r := AssignedIn(gd, p, gd.indices[k - 1]);
      WhereRecords(gd, cells, r, k) && DupsRecord(gd, cells, r, k)
  {
    var n := |gd.indices|;
    var i := gd.indices[k - 1];
    assert i in gd.indices;
    assert CellOk(cells[i - 1], n);
    WhereStep(gd, cells, p, k);
    DupStep(gd, cells, p, k);
  }

  /** The step of pass 1 for WhereRecords. */
  lemma WhereStep(gd: GroupDescriptor, cells: seq<Cell>, p: Outcome, k: int)
    requires IntSets.Within(gd.indices, 1, |cells|) && 1 <= k <= |gd.indices|
    requires p.cells == cells && |p.g.where| == |gd.indices| + 1
    requires 1 <= gd.indices[k - 1] <= |cells| && 0 <= cells[gd.indices[k - 1] - 1].aval <= |gd.indices|
    requires WhereRecords(gd, cells, p, k - 1)
    ensures WhereRecords(gd, cells, AssignedIn(gd, p, gd.indices[k - 1]), k)
  {
    var n := |gd.indices|;
    var i := gd.indices[k - 1];
    var a := cells[i - 1].aval;
    var r := AssignedIn(gd, p, i);
    assert Holds(gd, cells, k - 1, a);
    forall v | 1 <= v <= n
      ensures r.g.where[v] != 0 <==> HeldBefore(gd, cells, k, v)
      ensures r.g.where[v] != 0 ==> r.g.where[v] in gd.indices[..k] && 1 <= r.g.where[v] <= |cells| && cells[r.g.where[v] - 1].aval == v
    {
      HeldStep(gd, cells, k, v);
      IntSets.PrefixIn(gd.indices, k - 1, r.g.where[v]);
    }
  }

  /** The step of pass 1 for DupsRecord. */
  lemma DupStep(gd: GroupDescriptor, cells: seq<Cell>, p: Outcome, k: int)
    requires IntSets.Within(gd.indices, 1, |cells|) && 1 <= k <= |gd.indices|
    requires p.cells == cells && |p.g.where| == |gd.indices| + 1
    requires 1 <= gd.indices[k - 1] <= |cells| && 0 <= cells[gd.indices[k - 1] - 1].aval <= |gd.indices|
    requires WhereRecords(gd, cells, p, k - 1) && DupsRecord(gd, cells, p, k - 1)
    ensures DupsRecord(gd, cells, AssignedIn(gd, p, gd.indices[k - 1]), k)
  {
    var n := |gd.indices|;
    var i := gd.indices[k - 1];
    var a := cells[i - 1].aval;
    var r := AssignedIn(gd, p, i);
    assert Holds(gd, cells, k - 1, a);
    if a != 0 && p.g.where[a] != 0 {
      assert r.errs == p.errs + [GroupError(gd.id, a, DuplicateGroupValuesCondition)];
    } else {
      assert r.errs == p.errs;
    }
    forall v
      ensures GroupError(gd.id, v, DuplicateGroupValuesCondition) in r.errs <==> 1 <= v <= n && TwiceBefore(gd, cells, k, v)
    {
      TwiceStep(gd, cells, k, v);
    }
  }

  /** The step of pass 1 for NeedRecords and FreeRecords. */
  lemma LeftStep(gd: GroupDescriptor, cells: seq<Cell>, p: Outcome, k: int)
    requires Fits(gd, cells) && CellsOk(cells, |gd.indices|) && 1 <= k <= |gd.indices|
    requires p.cells == cells && |p.g.where| == |gd.indices| + 1
    requires NeedRecords(gd, cells, p, k - 1) && FreeRecords(gd, cells, p, k - 1)
    ensures assert gd.indices[k - 1] in gd.indices;
      var r := AssignedIn(gd, p, gd.indices[k - 1]);
      NeedRecords(gd, cells, r, k) && FreeRecords(gd, cells, r, k)
  {
    var n := |gd.indices|;
    var i := gd.indices[k - 1];
    assert i in gd.indices;
    var a := cells[i - 1].aval;
    assert 0 <= a <= n by { assert CellOk(cells[i - 1], n); }
    var r := AssignedIn(gd, p, i);
    DropMember(p.g.need, {a});
    DropMember(p.g.free, {i});
    NotEarlier(gd.indices, k - 1);
    forall v ensures v in r.g.need <==> 1 <= v <= n && !HeldBefore(gd, cells, k, v) {
      HeldStep(gd, cells, k, v);
    }
    forall x ensures x in r.g.free <==> x in gd.indices && (x !in gd.indices[..k] || cells[x - 1].aval == 0) {
      IntSets.PrefixIn(gd.indices, k - 1, x);
    }
  }

  /** Pass 1 of newGroup over the first k squares: what where, need, free
      and the duplicate errors record. */
  lemma {:induction false} PassOneRecords(gd: GroupDescriptor, cells: seq<Cell>, k: int)
    requires Fits(gd, cells) && CellsOk(cells, |gd.indices|) && 0 <= k <= |gd.indices|
    ensures var r := Pass1(gd, cells, k);
      && WhereRecords(gd, cells, r, k) && DupsRecord(gd, cells, r, k)
      && NeedRecords(gd, cells, r, k) && FreeRecords(gd, cells, r, k)
  {
    var n := |gd.indices|;
    if k == 0 {
      var r := Pass1(gd, cells, 0);
      IntSets.RangeMembers(n);
      assert gd.indices[..0] == [];
    } else {
      PassOneRecords(gd, cells, k - 1);
      assert gd.indices[k - 1] in gd.indices;
      RecordStep(gd, cells, Pass1(gd, cells, k - 1), k);
      LeftStep(gd, cells, Pass1(gd, cells, k - 1), k);
    }
  }
  /** How many of the first k squares of the group are assigned v. */
  function HolderCount(gd: GroupDescriptor, cells: seq<Cell>, k: int, v: int): nat
    requires 0 <= k <= |gd.indices|
  {
    if k == 0 then 0 else HolderCount(gd, cells, k - 1, v) + if Holds(gd, cells, k - 1, v) then 1 else 0
  }

  /** Some of the first k squares holds v exactly when the count is not 0. */
  lemma {:induction false} HolderCountHeld(gd: GroupDescriptor, cells: seq<Cell>, k: int, v: int)
    requires 0 <= k <= |gd.indices|
    ensures HolderCount(gd, cells, k, v) > 0 <==> HeldBefore(gd, cells, k, v)
  {
    if k > 0 {
      HolderCountHeld(gd, cells, k - 1, v);
      HeldStep(gd, cells, k, v);
    }
  }

  /** After pass 1 over the first k squares: there is one duplicate error
      for v per holder of v after the first, and where[v] is the last
      holder of v. */
  ghost predicate DupsCounted(gd: GroupDescriptor, cells: seq<Cell>, r: Outcome, k: int)
    requires |r.g.where| == |gd.indices| + 1 && 0 <= k <= |gd.indices|
  {
    && (forall v :: 1 <= v <= |gd.indices| ==>
          multiset(r.errs)[GroupError(gd.id, v, DuplicateGroupValuesCondition)] ==
            if HolderCount(gd, cells, k, v) == 0 then 0 else HolderCount(gd, cells, k, v) - 1)
    && (forall v, j :: 1 <= v <= |gd.indices| && 0 <= j < k && Holds(gd, cells, j, v) ==>
          gd.indices[j] <= r.g.where[v])
  }

  /** The step of pass 1 for DupsCounted. */
  lemma CountStep(gd: GroupDescriptor, cells: seq<Cell>, p: Outcome, k: int)
    requires Fits(gd, cells) && CellsOk(cells, |gd.indices|) && 1 <= k <= |gd.indices|
    requires p.cells == cells && |p.g.where| == |gd.indices| + 1
    requires WhereRecords(gd, cells, p, k - 1) && DupsCounted(gd, cells, p, k - 1)
    ensures assert gd.indices[k - 1] in gd.indices;
      DupsCounted(gd, cells, AssignedIn(gd, p, gd.indices[k - 1]), k)
  {
    var n := |gd.indices|;
    var i := gd.indices[k - 1];
    assert i in gd.indices;
    assert CellOk(cells[i - 1], n);
    var a := cells[i - 1].aval;
    var r := AssignedIn(gd, p, i);
    forall v | 1 <= v <= n
      ensures multiset(r.errs)[GroupError(gd.id, v, DuplicateGroupValuesCondition)] ==
        if HolderCount(gd, cells, k, v) == 0 then 0 else HolderCount(gd, cells, k, v) - 1
    {
      HolderCountHeld(gd, cells, k - 1, v);
      if a == v {
        assert Holds(gd, cells, k - 1, v);
        var dup := if p.g.where[a] != 0 then [GroupError(gd.id, a, DuplicateGroupValuesCondition)] else [];
        assert r.errs == p.errs + dup;
        assert multiset(r.errs) == multiset(p.errs) + multiset(dup);
      } else {
        assert !Holds(gd, cells, k - 1, v);
        assert multiset(r.errs)[GroupError(gd.id, v, DuplicateGroupValuesCondition)] ==
          multiset(p.errs)[GroupError(gd.id, v, DuplicateGroupValuesCondition)] by {
          if a != 0 {
            var dup := if p.g.where[a] != 0 then [GroupError(gd.id, a, DuplicateGroupValuesCondition)] else [];
            assert r.errs == p.errs + dup;
            assert multiset(r.errs) == multiset(p.errs) + multiset(dup);
          }
        }
      }
    }
    forall v, j | 1 <= v <= n && 0 <= j < k && Holds(gd, cells, j, v)
      ensures gd.indices[j] <= r.g.where[v]
    {
      if j == k - 1 {
        assert a == v;
      } else if a == v {
        assert gd.indices[j] < gd.indices[k - 1];
      }
    }
  }

  /** Pass 1 of newGroup over the first k squares: the duplicate errors
      are counted per value, and where records the last holder. */
  lemma {:induction false} PassOneCounts(gd: GroupDescriptor, cells: seq<Cell>, k: int)
    requires Fits(gd, cells) && CellsOk(cells, |gd.indices|) && 0 <= k <= |gd.indices|
    ensures DupsCounted(gd, cells, Pass1(gd, cells, k), k)
  {
    if k == 0 {
      assert Pass1(gd, cells, 0).errs == [];
    } else {
      PassOneCounts(gd, cells, k - 1);
      var p := Pass1(gd, cells, k - 1);
      assert WhereRecords(gd, cells, p, k - 1) by {
        PassOneRecords(gd, cells, k - 1);
      }
      assert gd.indices[k - 1] in gd.indices;
      assert Pass1(gd, cells, k) == AssignedIn(gd, p, gd.indices[k - 1]);
      CountStep(gd, cells, p, k);
    }
  }

  /** d is c with its possible values narrowed to those in nd. */
  predicate Narrowed(c: Cell, d: Cell, nd: seq<int>) {
    && d.aval == c.aval && d.bval == c.bval && d.bsrc == c.bsrc
    && IntSets.Valid(d.pvals) && IntSets.Elems(d.pvals) == IntSets.Elems(c.pvals) * IntSets.Elems(nd)
  }

  /** One step of pass 2 changes square i only, narrowing it to nd; it is
      logged exactly when it changed; errors are only appended, and none
      of them is a duplicate. */
  lemma NarrowInFacts(o: Outcome, i: int, nd: seq<int>)
    requires 1 <= i <= |o.cells| && IntSets.Valid(o.cells[i - 1].pvals)
    ensures var r := NarrowIn(o, i, nd);
      && (forall j :: 0 <= j < |o.cells| && j != i - 1 ==> r.cells[j] == o.cells[j])
      && Narrowed(o.cells[i - 1], r.cells[i - 1], nd)
      && r.logged == o.logged + (if r.cells[i - 1] != o.cells[i - 1] then {i} else {})
      && ErrsKept(o, r)
  {
    var c := o.cells[i - 1];
    var s := NarrowStep(c, i, nd, true);
    var r := NarrowIn(o, i, nd);
    NarrowReports(c, i, nd, true);
    assert r.errs[..|o.errs|] == o.errs;
    OnlyTwo(s.errs, NoGroupValueCondition, NoPossibleValuesCondition, DuplicateGroupValuesCondition);
    CountOfBound(s.errs, NoGroupValueCondition, NoPossibleValuesCondition, DuplicateGroupValuesCondition);
    CountOfConcat(o.errs, s.errs, DuplicateGroupValuesCondition);
  }

  /** Each of the first k squares of fr is narrowed to nd; no other square
      changed. */
  ghost predicate NarrowedCells(o: Outcome, r: Outcome, fr: seq<int>, nd: seq<int>, k: int)
    requires 0 <= k <= |fr|
  {
    && |r.cells| == |o.cells|
    && forall j :: 0 <= j < |o.cells| ==>
         if j + 1 in fr[..k] then Narrowed(o.cells[j], r.cells[j], nd) else r.cells[j] == o.cells[j]
  }

  /** The squares after one more step of pass 2. */
  lemma NarrowCells(o: Outcome, p: Outcome, r: Outcome, fr: seq<int>, nd: seq<int>, k: int)
    requires 1 <= k <= |fr| && NarrowedCells(o, p, fr, nd, k - 1)
    requires var i := fr[k - 1];
      && 1 <= i <= |o.cells| && i !in fr[..k - 1] && |r.cells| == |o.cells|
      && (forall j :: 0 <= j < |o.cells| && j != i - 1 ==> r.cells[j] == p.cells[j])
      && Narrowed(p.cells[i - 1], r.cells[i - 1], nd)
    ensures NarrowedCells(o, r, fr, nd, k)
  {
    forall j | 0 <= j < |o.cells|
      ensures if j + 1 in fr[..k] then Narrowed(o.cells[j], r.cells[j], nd) else r.cells[j] == o.cells[j]
    {
      IntSets.PrefixIn(fr, k - 1, j + 1);
    }
  }

  /** What pass 2 over the first k squares of fr does: to the squares, to
      the log and to the errors. */
  ghost predicate NarrowedBy(o: Outcome, r: Outcome, fr: seq<int>, nd: seq<int>, k: int)
    requires 0 <= k <= |fr|
  {
    NarrowedCells(o, r, fr, nd, k) && LogsChanges(o, r) && ErrsKept(o, r)
  }

  /** One more square of pass 2. */
  lemma NarrowStepFacts(o: Outcome, p: Outcome, fr: seq<int>, nd: seq<int>, k: int)
    requires IntSets.Valid(fr) && IntSets.Within(fr, 1, |o.cells|) && 1 <= k <= |fr|
    requires AllValid(o.cells)
    requires NarrowedBy(o, p, fr, nd, k - 1)
    ensures assert fr[k - 1] in fr; NarrowedBy(o, NarrowIn(p, fr[k - 1], nd), fr, nd, k)
  {
    var i := fr[k - 1];
    assert i in fr;
    var r := NarrowIn(p, i, nd);
    NotEarlier(fr, k - 1);
    assert p.cells[i - 1] == o.cells[i - 1];
    NarrowInFacts(p, i, nd);
    assert NarrowedCells(o, r, fr, nd, k) by {
      NarrowCells(o, p, r, fr, nd, k);
    }
    assert LogsChanges(o, r) by {
      LogsChain(o, p, r, i);
    }
    assert ErrsKept(o, r) by {
      ErrsChain(o, p, r);
    }
  }

  /** Pass 2 over the first k free squares narrows each of them to nd, and
      touches nothing else. */
  lemma {:induction false} PassTwoFacts(o: Outcome, fr: seq<int>, nd: seq<int>, k: int)
    requires IntSets.Valid(fr) && IntSets.Within(fr, 1, |o.cells|) && 0 <= k <= |fr|
    requires AllValid(o.cells)
    ensures NarrowedBy(o, Pass2(o, fr, nd, k), fr, nd, k)
  {
    if k == 0 {
      NarrowedByNothing(o, fr, nd);
    } else {
      PassTwoFacts(o, fr, nd, k - 1);
      assert fr[k - 1] in fr;
      var p := Pass2(o, fr, nd, k - 1);
      assert Pass2(o, fr, nd, k) == NarrowIn(p, fr[k - 1], nd);
      NarrowStepFacts(o, p, fr, nd, k);
    }
  }

  /** Before pass 2 nothing is narrowed. */
  lemma NarrowedByNothing(o: Outcome, fr: seq<int>, nd: seq<int>)
    ensures NarrowedBy(o, o, fr, nd, 0)
  {
    assert fr[..0] == [];
  }

  /** Appending errors without a duplicate keeps the set of duplicate
      errors. */
  lemma DupsKept(o: Outcome, r: Outcome)
    requires ErrsKept(o, r)
    ensures forall e: Error :: e.condition == DuplicateGroupValuesCondition ==> (e in r.errs <==> e in o.errs)
  {
    var tail := r.errs[|o.errs|..];
    assert r.errs == o.errs + tail;
    CountOfConcat(o.errs, tail, DuplicateGroupValuesCondition);
    CountOfNone(tail, DuplicateGroupValuesCondition);
  }

  /** newGroup, on the group: where[v] names a square of the group assigned
      v exactly when there is one; need is the values no square of the
      group is assigned; free is the unassigned squares of the group; and
      a duplicate error names v exactly when two squares of the group are
      assigned v. */
  lemma NewGroupRecords(gd: GroupDescriptor, cells: seq<Cell>)
    requires Fits(gd, cells) && CellsOk(cells, |gd.indices|)
    ensures var n := |gd.indices|; var r := NewGroupSpec(gd, cells);
      && |r.g.where| == n + 1 && r.g.where[0] == 0
      && (forall v :: 1 <= v <= n ==> (r.g.where[v] != 0 <==> HeldBefore(gd, cells, n, v)))
      && (forall v :: 1 <= v <= n && r.g.where[v] != 0 ==>
            r.g.where[v] in gd.indices && 1 <= r.g.where[v] <= |cells| && cells[r.g.where[v] - 1].aval == v)
      && (forall v :: v in r.g.need <==> 1 <= v <= n && !HeldBefore(gd, cells, n, v))
      && (forall i :: i in r.g.free <==> i in gd.indices && cells[i - 1].aval == 0)
      && (forall v :: GroupError(gd.id, v, DuplicateGroupValuesCondition) in r.errs <==>
            1 <= v <= n && TwiceBefore(gd, cells, n, v))
  {
    var n := |gd.indices|;
    var p := Pass1(gd, cells, n);
    PassOneRecords(gd, cells, n);
    PassOneShape(gd, cells, n);
    assert gd.indices[..n] == gd.indices;
    var r := NewGroupSpec(gd, cells);
    PassTwoFacts(p, p.g.free, p.g.need, |p.g.free|);
    DupsKept(p, r);
  }

  /** newGroup reports one DuplicateGroupValues error for v per square of
      the group assigned v after the first one, and leaves where[v] naming
      the last square of the group assigned v. */
  lemma NewGroupDuplicates(gd: GroupDescriptor, cells: seq<Cell>)
    requires Fits(gd, cells) && CellsOk(cells, |gd.indices|)
    ensures var n := |gd.indices|; var r := NewGroupSpec(gd, cells);
      && |r.g.where| == n + 1
      && (forall v :: 1 <= v <= n ==>
            multiset(r.errs)[GroupError(gd.id, v, DuplicateGroupValuesCondition)] ==
              if HolderCount(gd, cells, n, v) == 0 then 0 else HolderCount(gd, cells, n, v) - 1)
      && (forall v, j :: 1 <= v <= n && Holds(gd, cells, j, v) ==> gd.indices[j] <= r.g.where[v])
  {
    var n := |gd.indices|;
    var p := Pass1(gd, cells, n);
    PassOneCounts(gd, cells, n);
    PassOneShape(gd, cells, n);
    var r := NewGroupSpec(gd, cells);
    assert ErrsKept(p, r) by {
      PassTwoFacts(p, p.g.free, p.g.need, |p.g.free|);
    }
    DupCountsKept(p, r);
  }

  /** Appending errors without a duplicate keeps the number of times each
      duplicate error occurs. */
  lemma DupCountsKept(o: Outcome, r: Outcome)
    requires ErrsKept(o, r)
    ensures forall e: Error :: e.condition == DuplicateGroupValuesCondition ==> multiset(r.errs)[e] == multiset(o.errs)[e]
  {
    var tail := r.errs[|o.errs|..];
    assert r.errs == o.errs + tail;
    CountOfConcat(o.errs, tail, DuplicateGroupValuesCondition);
    CountOfNone(tail, DuplicateGroupValuesCondition);
    assert multiset(r.errs) == multiset(o.errs) + multiset(tail);
  }

  /** newGroup, on the squares: each unassigned square of the group keeps
      only the values the group needs; every other square is unchanged; and
      exactly the squares that changed are logged. */
  lemma NewGroupCells(gd: GroupDescriptor, cells: seq<Cell>)
    requires Fits(gd, cells) && CellsOk(cells, |gd.indices|)
    ensures var r := NewGroupSpec(gd, cells);
      && |r.cells| == |cells|
      && (forall j :: 0 <= j < |cells| ==>
            if j + 1 in r.g.free then Narrowed(cells[j], r.cells[j], r.g.need) else r.cells[j] == cells[j])
      && (forall j :: 0 <= j < |cells| ==> (r.cells[j] != cells[j] <==> j + 1 in r.logged))
      && (forall i :: i in r.logged ==> 1 <= i <= |cells|)
  {
    var n := |gd.indices|;
    var p := Pass1(gd, cells, n);
    PassOneShape(gd, cells, n);
    var fr := p.g.free;
    assert fr[..|fr|] == fr;
    PassTwoFacts(p, fr, p.g.need, |fr|);
  }
  // ---------------------------------------------------------------------
  // Well-formedness across the group operations

  /** A square whose possible values lost some and whose assigned value is
      kept stays valid. */
  lemma SmallerOk(c: Cell, d: Cell, n: int)
    requires CellOk(c, n) && d.aval == c.aval && IntSets.Valid(d.pvals)
    requires IntSets.Elems(d.pvals) <= IntSets.Elems(c.pvals)
    ensures CellOk(d, n)
  {
    forall x | x in d.pvals ensures 1 <= x <= n {
      assert x in IntSets.Elems(d.pvals);
      assert x in c.pvals;
    }
  }

  /** group.assign keeps the group state and every square well formed, and
      changes no square's assigned value. */
  lemma AssignKeepsOk(gd: GroupDescriptor, g: GroupState, cells: seq<Cell>, ai: int)
    requires Fits(gd, cells) && StateOk(gd, g) && CellsOk(cells, |gd.indices|)
    requires 1 <= ai <= |cells| && cells[ai - 1].aval != 0
    ensures var r := AssignSpec(gd, g, cells, ai);
      && StateOk(gd, r.g) && CellsOk(r.cells, |gd.indices|)
      && forall j :: 0 <= j < |cells| ==> r.cells[j].aval == cells[j].aval
  {
    var n := |gd.indices|;
    var av := cells[ai - 1].aval;
    var r := AssignSpec(gd, g, cells, ai);
    assert CellOk(cells[ai - 1], n);
    AssignSweeps(gd, g, cells, ai);
    forall j | 0 <= j < |cells| ensures CellOk(r.cells[j], n) && r.cells[j].aval == cells[j].aval {
      assert CellOk(cells[j], n);
      if r.cells[j] != cells[j] {
        assert j + 1 in gd.indices && cells[j].aval == 0;
        assert Removed(cells[j], r.cells[j], av);
        SmallerOk(cells[j], r.cells[j], n);
      }
    }
    if g.where[av] != ai {
      FreeWithin(gd, g, |cells|);
      DropOneOk(g.need, av, 1, n);
      DropOneOk(g.free, ai, 1, |cells|);
    }
  }

  /** The first loop of analyze keeps the group state well formed. */
  lemma {:induction false} PhaseOneOk(gd: GroupDescriptor, o: Outcome, fr: seq<int>, j: int)
    requires Fits(gd, o.cells) && StateOk(gd, o.g) && CellsOk(o.cells, |gd.indices|)
    requires IntSets.Within(fr, 1, |o.cells|) && 0 <= j <= |fr|
    ensures var r := Phase1(gd, o, fr, j); StateOk(gd, r.g) && r.cells == o.cells
    decreases |fr| - j
  {
    if j < |fr| {
      PhaseOneOk(gd, o, fr, j + 1);
      PhaseOneCells(gd, o, fr, j + 1);
      var p := Phase1(gd, o, fr, j + 1);
      assert fr[j] in fr;
      SingleKeepsCells(gd, p, fr[j]);
      if |p.cells[fr[j] - 1].pvals| == 1 {
        SetCandidateKeepsOk(gd, p, fr[j], p.cells[fr[j] - 1].pvals[0]);
      }
    }
  }

  /** The second loop of analyze keeps the group state and the squares
      well formed. */
  lemma {:induction false} PhaseTwoOk(gd: GroupDescriptor, o: Outcome, cells: seq<Cell>, fr: seq<int>, nd: seq<int>, j: int)
    requires Fits(gd, o.cells) && StateOk(gd, o.g) && CellsOk(o.cells, |gd.indices|)
    requires |cells| == |o.cells| && IntSets.Within(fr, 1, |cells|) && 0 <= j <= |nd|
    ensures var r := Phase2(gd, o, cells, fr, nd, j); StateOk(gd, r.g) && CellsOk(r.cells, |gd.indices|)
    decreases |nd| - j
  {
    if j < |nd| {
      PhaseTwoOk(gd, o, cells, fr, nd, j + 1);
      var p := Phase2(gd, o, cells, fr, nd, j + 1);
      if Candidates(cells, fr, 0, nd[j]) == 1 {
        SetCandidateKeepsOk(gd, p, LastCandidate(cells, fr, 0, nd[j]), nd[j]);
      }
    }
  }

  /** analyze keeps the group state and every square well formed, and
      changes no square's assigned value. */
  lemma AnalyzeKeepsOk(gd: GroupDescriptor, g: GroupState, cells: seq<Cell>)
    requires Fits(gd, cells) && StateOk(gd, g) && CellsOk(cells, |gd.indices|)
    ensures var r := AnalyzeSpec(gd, g, cells);
      && StateOk(gd, r.g) && CellsOk(r.cells, |gd.indices|)
      && forall j :: 0 <= j < |cells| ==> r.cells[j].aval == cells[j].aval
  {
    FreeWithin(gd, g, |cells|);
    var o := Outcome(g, cells, [], {});
    PhaseOneOk(gd, o, g.free, 0);
    var p := Phase1(gd, o, g.free, 0);
    PhaseTwoOk(gd, p, cells, g.free, p.g.need, 0);
    AnalyzeCells(gd, g, cells);
  }
  /** newGroup builds a well-formed group state, keeps every square well
      formed, and changes no square's assigned value. */
  lemma NewGroupKeepsOk(gd: GroupDescriptor, cells: seq<Cell>)
    requires Fits(gd, cells) && CellsOk(cells, |gd.indices|)
    ensures var r := NewGroupSpec(gd, cells);
      && StateOk(gd, r.g) && CellsOk(r.cells, |gd.indices|)
      && forall j :: 0 <= j < |cells| ==> r.cells[j].aval == cells[j].aval
  {
    var n := |gd.indices|;
    var r := NewGroupSpec(gd, cells);
    PassOneShape(gd, cells, n);
    NewGroupCells(gd, cells);
    forall j | 0 <= j < |cells| ensures CellOk(r.cells[j], n) && r.cells[j].aval == cells[j].aval {
      assert CellOk(cells[j], n);
      if j + 1 in r.g.free {
        SmallerOk(cells[j], r.cells[j], n);
      }
    }
  }
}
