/** What the group operations do, stated on values.  A group's state is the
    table `where` (where[v] is the square assigned v, or 0), the intset
    `need` of values not yet assigned or bound in the group, and the intset
    `free` of its squares not yet assigned or bound.  Each operation is a
    function from the group state and the contents of all the puzzle's
    squares (cells[i - 1] is square i) to an Outcome; the functions follow
    the loops of the source step by step, in the same order. */
module GroupSpecs {
  import IntSets
  import opened Geometry
  import opened Errors
  import opened Squares

  datatype GroupState = GroupState(where: seq<int>, need: seq<int>, free: seq<int>)

  /** The group state, square contents, errors reported so far and indices
      of the squares that notified the logger. */
  datatype Outcome = Outcome(g: GroupState, cells: seq<Cell>, errs: seq<Error>, logged: set<int>)

  /** Every square's contents respect side length n. */
  predicate CellsOk(cells: seq<Cell>, n: int) {
    forall k :: 0 <= k < |cells| ==> CellOk(cells[k], n)
  }

  /** Replacing one square's contents by valid contents keeps all valid. */
  lemma UpdateKeepsOk(cells: seq<Cell>, j: int, c: Cell, n: int)
    requires CellsOk(cells, n) && 0 <= j < |cells| && CellOk(c, n)
    ensures CellsOk(cells[j := c], n)
  {
  }

  /** remove keeps a square's contents valid. */
  lemma RemoveKeepsOk(c: Cell, index: int, v: int, n: int)
    requires CellOk(c, n)
    ensures CellOk(RemoveStep(c, index, v).cell, n)
  {
    IntSets.DropProps(c.pvals, {v});
    var r := RemoveStep(c, index, v).cell.pvals;
    forall x | x in r ensures 1 <= x <= n {
      assert x in IntSets.Elems(r);
    }
  }

  /** Narrowing keeps a square's contents valid. */
  lemma NarrowKeepsOk(c: Cell, index: int, vals: seq<int>, keep: bool, n: int)
    requires CellOk(c, n)
    ensures CellOk(NarrowStep(c, index, vals, keep).cell, n)
  {
    var r := NarrowStep(c, index, vals, keep).cell.pvals;
    if keep {
      IntSets.KeepProps(c.pvals, IntSets.Elems(vals));
    } else {
      IntSets.DropProps(c.pvals, IntSets.Elems(vals));
    }
    forall x | x in r ensures 1 <= x <= n {
      assert x in IntSets.Elems(r);
    }
  }

  /** Removing one element keeps an intset's shape and bounds. */
  lemma DropOneOk(s: seq<int>, x: int, lo: int, hi: int)
    requires IntSets.Valid(s) && IntSets.Within(s, lo, hi)
    ensures IntSets.Valid(IntSets.Drop(s, {x})) && IntSets.Within(IntSets.Drop(s, {x}), lo, hi)
    ensures forall y :: y in IntSets.Drop(s, {x}) ==> y in s
  {
    var r := IntSets.Drop(s, {x});
    IntSets.DropProps(s, {x});
    forall y | y in r ensures y in s {
      assert y in IntSets.Elems(r);
    }
  }

  /** The group descriptor names squares of cells. */
  predicate Fits(gd: GroupDescriptor, cells: seq<Cell>) {
    GroupOk(gd, |gd.indices|, |cells|)
  }

  /** The group state's shape: where has a slot for every value 0..n, need
      is an intset of values 1..n and free an intset of the group's squares. */
  predicate StateOk(gd: GroupDescriptor, g: GroupState) {
    && |g.where| == |gd.indices| + 1
    && IntSets.Valid(g.need) && IntSets.Within(g.need, 1, |gd.indices|)
    && IntSets.Valid(g.free) && (forall i :: i in g.free ==> i in gd.indices)
  }

  // ---------------------------------------------------------------------
  // assign (group)

  /** One step of the sweep of group.assign: square i, if unassigned,
      loses the possible value av. */
  function RemoveIn(o: Outcome, i: int, av: int): (r: Outcome)
    requires 1 <= i <= |o.cells|
    ensures |r.cells| == |o.cells| && r.g == o.g
  {
    if o.cells[i - 1].aval == 0 then
      var s := RemoveStep(o.cells[i - 1], i, av);
      Outcome(o.g, o.cells[i - 1 := s.cell], o.errs + s.errs, o.logged + if s.logged then {i} else {})
    else o
  }

  /** The sweep of group.assign over the first k squares of the group. */
  function RemoveFrom(gd: GroupDescriptor, o: Outcome, av: int, k: int): (r: Outcome)
    requires IntSets.Within(gd.indices, 1, |o.cells|) && 0 <= k <= |gd.indices|
    ensures |r.cells| == |o.cells| && r.g == o.g
    decreases k
  {
    if k == 0 then o
    else
      assert gd.indices[k - 1] in gd.indices;
      RemoveIn(RemoveFrom(gd, o, av, k - 1), gd.indices[k - 1], av)
  }

  /** group.assign: square ai of the group has just been assigned.  Unless
      the group already records that assignment, it records it (reporting a
      duplicate when another square holds the same value) and removes the
      value from every unassigned square of the group. */
  function AssignSpec(gd: GroupDescriptor, g: GroupState, cells: seq<Cell>, ai: int): (r: Outcome)
    requires Fits(gd, cells) && StateOk(gd, g) && CellsOk(cells, |gd.indices|)
    requires 1 <= ai <= |cells| && cells[ai - 1].aval != 0
    ensures |r.cells| == |cells|
  {
    var av := cells[ai - 1].aval;
    var wi := g.where[av];
    if wi != 0 && wi == ai then Outcome(g, cells, [], {})
    else
      var dup := if wi != 0 then [GroupError(gd.id, av, DuplicateGroupValuesCondition)] else [];
      var g' := GroupState(g.where[av := ai], IntSets.Drop(g.need, {av}), IntSets.Drop(g.free, {ai}));
      RemoveFrom(gd, Outcome(g', cells, dup, {}), av, |gd.indices|)
  }

  // ---------------------------------------------------------------------
  // newGroup

  /** Pass 1 of newGroup over the first k squares of the group: each
      assigned square is recorded in where (a duplicate error when the value
      was already seen) and its value and index leave need and free. */
  function Pass1(gd: GroupDescriptor, cells: seq<Cell>, k: int): (r: Outcome)
    requires Fits(gd, cells) && CellsOk(cells, |gd.indices|) && 0 <= k <= |gd.indices|
    ensures r.cells == cells && r.logged == {} && |r.g.where| == |gd.indices| + 1
    decreases k
  {
    var n := |gd.indices|;
    if k == 0 then
      Outcome(GroupState(seq(n + 1, _ => 0), IntSets.Range(n), gd.indices), cells, [], {})
    else
      var i := gd.indices[k - 1];
      assert i in gd.indices;
      AssignedIn(gd, Pass1(gd, cells, k - 1), i)
  }

  /** One step of pass 1 of newGroup: square i, if assigned, is recorded. */
  function AssignedIn(gd: GroupDescriptor, p: Outcome, i: int): (r: Outcome)
    requires 1 <= i <= |p.cells| && 0 <= p.cells[i - 1].aval < |p.g.where|
    ensures r.cells == p.cells && r.logged == p.logged && |r.g.where| == |p.g.where|
  {
    var a := p.cells[i - 1].aval;
    if a != 0 then
      var dup := if p.g.where[a] != 0 then [GroupError(gd.id, a, DuplicateGroupValuesCondition)] else [];
      var g := GroupState(p.g.where[a := i], IntSets.Drop(p.g.need, {a}), IntSets.Drop(p.g.free, {i}));
      Outcome(g, p.cells, p.errs + dup, p.logged)
    else p
  }

  /** Pass 2 of newGroup over the first k free squares: each is narrowed to
      the values the group still needs. */
  function Pass2(o: Outcome, fr: seq<int>, nd: seq<int>, k: int): (r: Outcome)
    requires IntSets.Within(fr, 1, |o.cells|) && 0 <= k <= |fr|
    ensures |r.cells| == |o.cells| && r.g == o.g
    decreases k
  {
    if k == 0 then o
    else
      assert fr[k - 1] in fr;
      NarrowIn(Pass2(o, fr, nd, k - 1), fr[k - 1], nd)
  }

  /** One step of pass 2 of newGroup: square i keeps only the values in nd. */
  function NarrowIn(o: Outcome, i: int, nd: seq<int>): (r: Outcome)
    requires 1 <= i <= |o.cells|
    ensures |r.cells| == |o.cells| && r.g == o.g
  {
    var s := NarrowStep(o.cells[i - 1], i, nd, true);
    Outcome(o.g, o.cells[i - 1 := s.cell], o.errs + s.errs, o.logged + if s.logged then {i} else {})
  }

  /** newGroup: builds the group's state from its squares' contents. */
  function NewGroupSpec(gd: GroupDescriptor, cells: seq<Cell>): (r: Outcome)
    requires Fits(gd, cells) && CellsOk(cells, |gd.indices|)
    ensures |r.cells| == |cells|
  {
    var p := Pass1(gd, cells, |gd.indices|);
    PassOneShape(gd, cells, |gd.indices|);
    Pass2(p, p.g.free, p.g.need, |p.g.free|)
  }

  /** Pass 1 keeps the group state well formed, and free within the
      puzzle's squares. */
  lemma {:induction false} PassOneShape(gd: GroupDescriptor, cells: seq<Cell>, k: int)
    requires Fits(gd, cells) && CellsOk(cells, |gd.indices|) && 0 <= k <= |gd.indices|
    ensures StateOk(gd, Pass1(gd, cells, k).g)
    ensures IntSets.Within(Pass1(gd, cells, k).g.free, 1, |cells|)
  {
    var n := |gd.indices|;
    if k == 0 {
      IntSets.RangeMembers(n);
    } else {
      PassOneShape(gd, cells, k - 1);
      var p := Pass1(gd, cells, k - 1);
      var i := gd.indices[k - 1];
      assert i in gd.indices;
      var a := cells[i - 1].aval;
      if a != 0 {
        var f := IntSets.Drop(p.g.free, {i});
        var d := IntSets.Drop(p.g.need, {a});
        IntSets.DropProps(p.g.free, {i});
        IntSets.DropProps(p.g.need, {a});
        assert Pass1(gd, cells, k).g == GroupState(p.g.where[a := i], d, f);
        forall x | x in f ensures x in p.g.free {
          assert x in IntSets.Elems(f);
        }
        forall x | x in d ensures x in p.g.need {
          assert x in IntSets.Elems(d);
        }
      }
    }
  }

  // ---------------------------------------------------------------------
  // analyze

  /** Some square of the group other than idx is bound to val. */
  predicate BoundElsewhere(gd: GroupDescriptor, cells: seq<Cell>, idx: int, val: int)
    requires IntSets.Within(gd.indices, 1, |cells|)
  {
    exists i :: i in gd.indices && i != idx && cells[i - 1].bval == val
  }

  /** setCandidate: square idx is the only place for val.  The square leaves
      free and the value leaves need; the square is bound when it has more
      than one possible value; a duplicate is reported when another square
      of the group is bound to val. */
  function SetCandidateSpec(gd: GroupDescriptor, o: Outcome, idx: int, val: int): (r: Outcome)
    requires IntSets.Within(gd.indices, 1, |o.cells|) && 1 <= idx <= |o.cells|
    ensures |r.cells| == |o.cells|
  {
    var g := o.g.(free := IntSets.Drop(o.g.free, {idx}), need := IntSets.Drop(o.g.need, {val}));
    var s := CandidateBind(o.cells[idx - 1], idx, val, gd.id);
    var cells := o.cells[idx - 1 := s.cell];
    var dup := if BoundElsewhere(gd, cells, idx, val) then [GroupError(gd.id, val, DuplicateGroupValuesCondition)] else [];
    Outcome(g, cells, o.errs + s.errs + dup, o.logged + if s.logged then {idx} else {})
  }

  /** The binding step of setCandidate: a square with more than one
      possible value is bound to val; any other square is left alone. */
  function CandidateBind(c: Cell, idx: int, val: int, gid: GroupId): (s: Step)
    ensures s.cell.aval == c.aval && s.cell.pvals == c.pvals
    ensures |c.pvals| <= 1 ==> s == Step(c, [], false)
    ensures |c.pvals| > 1 ==> s == BindStep(c, idx, val, gid) && s.cell.bval == val && s.cell.bsrc == c.bsrc + [gid]
  {
    if |c.pvals| > 1 then BindStep(c, idx, val, gid) else Step(c, [], false)
  }

  /** Square fr[k] is a candidate: it has other than one possible value,
      and v is one of them. */
  predicate IsCandidate(cells: seq<Cell>, fr: seq<int>, k: int, v: int)
    requires IntSets.Within(fr, 1, |cells|) && 0 <= k < |fr|
  {
    assert fr[k] in fr;
    |cells[fr[k] - 1].pvals| != 1 && v in cells[fr[k] - 1].pvals
  }

  /** setCandidate keeps the group state and the squares well formed. */
  lemma SetCandidateKeepsOk(gd: GroupDescriptor, o: Outcome, idx: int, val: int)
    requires Fits(gd, o.cells) && StateOk(gd, o.g) && CellsOk(o.cells, |gd.indices|) && 1 <= idx <= |o.cells|
    ensures StateOk(gd, SetCandidateSpec(gd, o, idx, val).g)
    ensures CellsOk(SetCandidateSpec(gd, o, idx, val).cells, |gd.indices|)
  {
    var n := |gd.indices|;
    FreeWithin(gd, o.g, |o.cells|);
    DropOneOk(o.g.free, idx, 1, |o.cells|);
    DropOneOk(o.g.need, val, 1, n);
    var c := o.cells[idx - 1];
    assert CellOk(c, n);
    UpdateKeepsOk(o.cells, idx - 1, CandidateBind(c, idx, val, gd.id).cell, n);
  }

  /** What setCandidate does to the errors and the group state does not
      depend on the indices logged before it. */
  lemma SetCandidateLogged(gd: GroupDescriptor, o: Outcome, idx: int, val: int)
    requires IntSets.Within(gd.indices, 1, |o.cells|) && 1 <= idx <= |o.cells|
    ensures var r := SetCandidateSpec(gd, o.(logged := {}), idx, val);
      SetCandidateSpec(gd, o, idx, val) == r.(logged := o.logged + r.logged)
  {
  }

  /** The number of candidates for v among fr[j..]. */
  function Candidates(cells: seq<Cell>, fr: seq<int>, j: int, v: int): nat
    requires IntSets.Within(fr, 1, |cells|) && 0 <= j <= |fr|
    decreases |fr| - j
  {
    if j == |fr| then 0
    else Candidates(cells, fr, j + 1, v) + if IsCandidate(cells, fr, j, v) then 1 else 0
  }

  /** The frontmost candidate for v among fr[j..] (the last one a
      back-to-front walk sees), or 0 when there is none. */
  function LastCandidate(cells: seq<Cell>, fr: seq<int>, j: int, v: int): (r: int)
    requires IntSets.Within(fr, 1, |cells|) && 0 <= j <= |fr|
    ensures r == 0 <==> Candidates(cells, fr, j, v) == 0
    ensures r != 0 ==> r in fr && 1 <= r <= |cells|
    decreases |fr| - j
  {
    if j == |fr| then 0
    else if IsCandidate(cells, fr, j, v) then assert fr[j] in fr; fr[j]
    else LastCandidate(cells, fr, j + 1, v)
  }

  /** The candidate counts for every value 0..n among fr[j..]. */
  function CandidateCounts(cells: seq<Cell>, fr: seq<int>, j: int, n: nat): (r: seq<int>)
    requires IntSets.Within(fr, 1, |cells|) && 0 <= j <= |fr|
    ensures |r| == n + 1
  {
    seq(n + 1, v => Candidates(cells, fr, j, v))
  }

  /** The frontmost candidate for every value 0..n among fr[j..]. */
  function FrontCandidates(cells: seq<Cell>, fr: seq<int>, j: int, n: nat): (r: seq<int>)
    requires IntSets.Within(fr, 1, |cells|) && 0 <= j <= |fr|
    ensures |r| == n + 1
  {
    seq(n + 1, v => LastCandidate(cells, fr, j, v))
  }

  /** Tallying the possible values of square fr[j], which is not a
      singleton, extends the counts and frontmost candidates of fr[j + 1..]
      to those of fr[j..]. */
  lemma TallyStep(cells: seq<Cell>, fr: seq<int>, j: int, n: nat, counts: seq<int>, lasts: seq<int>, nc: seq<int>, nl: seq<int>)
    requires IntSets.Within(fr, 1, |cells|) && 0 <= j < |fr|
    requires fr[j] in fr && |cells[fr[j] - 1].pvals| != 1
    requires counts == CandidateCounts(cells, fr, j + 1, n) && lasts == FrontCandidates(cells, fr, j + 1, n)
    requires |nc| == n + 1 && |nl| == n + 1
    requires forall v :: 0 <= v < n + 1 ==> nc[v] == counts[v] + if v in cells[fr[j] - 1].pvals then 1 else 0
    requires forall v :: 0 <= v < n + 1 ==> nl[v] == if v in cells[fr[j] - 1].pvals then fr[j] else lasts[v]
    ensures nc == CandidateCounts(cells, fr, j, n) && nl == FrontCandidates(cells, fr, j, n)
  {
    forall v | 0 <= v < n + 1 ensures nc[v] == CandidateCounts(cells, fr, j, n)[v] && nl[v] == FrontCandidates(cells, fr, j, n)[v] {
      assert IsCandidate(cells, fr, j, v) <==> v in cells[fr[j] - 1].pvals;
    }
  }

  /** A singleton square fr[j] is nobody's candidate. */
  lemma SkipStep(cells: seq<Cell>, fr: seq<int>, j: int, n: nat)
    requires IntSets.Within(fr, 1, |cells|) && 0 <= j < |fr|
    requires fr[j] in fr && |cells[fr[j] - 1].pvals| == 1
    ensures CandidateCounts(cells, fr, j, n) == CandidateCounts(cells, fr, j + 1, n)
    ensures FrontCandidates(cells, fr, j, n) == FrontCandidates(cells, fr, j + 1, n)
  {
    forall v | 0 <= v < n + 1
      ensures CandidateCounts(cells, fr, j, n)[v] == CandidateCounts(cells, fr, j + 1, n)[v]
      ensures FrontCandidates(cells, fr, j, n)[v] == FrontCandidates(cells, fr, j + 1, n)[v]
    {
      assert !IsCandidate(cells, fr, j, v);
    }
  }

  /** The first loop of analyze over fr[j..], back to front: a free square
      with a single possible value becomes the candidate for it. */
  function Phase1(gd: GroupDescriptor, o: Outcome, fr: seq<int>, j: int): (r: Outcome)
    requires IntSets.Within(gd.indices, 1, |o.cells|) && IntSets.Within(fr, 1, |o.cells|)
    requires 0 <= j <= |fr|
    ensures |r.cells| == |o.cells|
    decreases |fr| - j
  {
    if j == |fr| then o
    else
      assert fr[j] in fr;
      SingleIn(gd, Phase1(gd, o, fr, j + 1), fr[j])
  }

  /** One step of the first loop of analyze: free square i, when it has a
      single possible value, becomes the candidate for it. */
  function SingleIn(gd: GroupDescriptor, p: Outcome, i: int): (r: Outcome)
    requires IntSets.Within(gd.indices, 1, |p.cells|) && 1 <= i <= |p.cells|
    ensures |r.cells| == |p.cells|
  {
    var c := p.cells[i - 1];
    if |c.pvals| == 1 then SetCandidateSpec(gd, p, i, c.pvals[0]) else p
  }

  /** The first loop of analyze never changes a square: a square with one
      possible value is not bound. */
  lemma {:induction false} PhaseOneCells(gd: GroupDescriptor, o: Outcome, fr: seq<int>, j: int)
    requires IntSets.Within(gd.indices, 1, |o.cells|) && IntSets.Within(fr, 1, |o.cells|)
    requires 0 <= j <= |fr|
    ensures Phase1(gd, o, fr, j).cells == o.cells && Phase1(gd, o, fr, j).logged == o.logged
    decreases |fr| - j
  {
    if j < |fr| {
      PhaseOneCells(gd, o, fr, j + 1);
      var p := Phase1(gd, o, fr, j + 1);
      assert fr[j] in fr;
      SingleKeepsCells(gd, p, fr[j]);
    }
  }

  /** The step of the first loop leaves the squares and the log alone. */
  lemma SingleKeepsCells(gd: GroupDescriptor, p: Outcome, i: int)
    requires IntSets.Within(gd.indices, 1, |p.cells|) && 1 <= i <= |p.cells|
    ensures SingleIn(gd, p, i).cells == p.cells && SingleIn(gd, p, i).logged == p.logged
  {
    var c := p.cells[i - 1];
    assert p.cells[i - 1 := c] == p.cells;
  }

  /** The second loop of analyze over nd[j..], back to front: a needed value
      without candidates is an error, and one with a single candidate gets
      it.  The candidates are counted in cells over fr, the free squares at
      the start of the analysis. */
  function Phase2(gd: GroupDescriptor, o: Outcome, cells: seq<Cell>, fr: seq<int>, nd: seq<int>, j: int): (r: Outcome)
    requires IntSets.Within(gd.indices, 1, |o.cells|) && |cells| == |o.cells|
    requires IntSets.Within(fr, 1, |cells|) && 0 <= j <= |nd|
    ensures |r.cells| == |o.cells|
    decreases |nd| - j
  {
    if j == |nd| then o
    else NeedIn(gd, Phase2(gd, o, cells, fr, nd, j + 1), cells, fr, nd[j])
  }

  /** One step of the second loop of analyze: the needed value v is an
      error without candidates and is settled on its only candidate. */
  function NeedIn(gd: GroupDescriptor, p: Outcome, cells: seq<Cell>, fr: seq<int>, v: int): (r: Outcome)
    requires IntSets.Within(gd.indices, 1, |p.cells|) && |cells| == |p.cells| && IntSets.Within(fr, 1, |cells|)
    ensures |r.cells| == |p.cells|
  {
    var count := Candidates(cells, fr, 0, v);
    if count == 0 then p.(errs := p.errs + [GroupError(gd.id, v, NoGroupValueCondition)])
    else if count == 1 then SetCandidateSpec(gd, p, LastCandidate(cells, fr, 0, v), v)
    else p
  }

  /** analyze: forced-move discovery in one group. */
  function AnalyzeSpec(gd: GroupDescriptor, g: GroupState, cells: seq<Cell>): (r: Outcome)
    requires Fits(gd, cells) && StateOk(gd, g)
    ensures |r.cells| == |cells|
  {
    FreeWithin(gd, g, |cells|);
    var p := Phase1(gd, Outcome(g, cells, [], {}), g.free, 0);
    Phase2(gd, p, cells, g.free, p.g.need, 0)
  }

  lemma FreeWithin(gd: GroupDescriptor, g: GroupState, scount: int)
    requires GroupOk(gd, |gd.indices|, scount) && StateOk(gd, g)
    ensures IntSets.Within(g.free, 1, scount)
  {
  }
}
