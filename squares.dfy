/** Squares.  A square has a fixed 1-based index, an assigned value (0 when
    unassigned), an intset of possible values, a value bound to it by a
    group (0 when none) together with the groups that bound it, and the
    logger it reports its changes to.

    Each operation is given twice: as a function on the square's contents
    (a Cell), which the group and puzzle specifications compose, and as a
    method of class Square that updates the fields in place and is proved
    to agree with the function. */
module Squares {
  import IntSets
  import opened Geometry
  import opened Errors
  import opened Logging

  /** The contents of a square. */
  datatype Cell = Cell(aval: int, pvals: seq<int>, bval: int, bsrc: seq<GroupId>)

  /** What one square operation does: the new contents, the errors it
      reports and whether it notified the logger. */
  datatype Step = Step(cell: Cell, errs: seq<Error>, logged: bool)

  /** A square in a puzzle with side length n: its possible values form an
      intset within 1..n and its assigned value is 0 or within 1..n. */
  predicate CellOk(c: Cell, n: int) {
    IntSets.Valid(c.pvals) && IntSets.Within(c.pvals, 1, n) && 0 <= c.aval <= n
  }

  /** One NoGroupValue error for each group that bound the square, naming
      that group and the bound value. */
  function BindingErrors(c: Cell): seq<Error> {
    seq(|c.bsrc|, i requires 0 <= i < |c.bsrc| => GroupError(c.bsrc[i], c.bval, NoGroupValueCondition))
  }

  /** assign: the square takes value v and loses its possible values; the
      bound value and its sources are kept. */
  function AssignStep(c: Cell, index: int, v: int): Step {
    var conflicts := if c.bval != 0 && c.bval != v then BindingErrors(c) else [];
    var impossible :=
      if v in c.pvals then []
      else [SquareError(index, IntDatum(v), AssignedValueAttribute, NotInSetCondition, c.pvals)];
    Step(c.(aval := v, pvals := []), conflicts + impossible, true)
  }

  /** bind: group gid forces value v on the square; the new value and
      source are recorded even when a conflict is reported. */
  function BindStep(c: Cell, index: int, v: int, gid: GroupId): Step {
    var conflicts := if c.bval != 0 && c.bval != v then BindingErrors(c) else [];
    var impossible :=
      if v in c.pvals then []
      else [SquareError(index, IntDatum(v), BoundValueAttribute, NotInSetCondition, c.pvals)];
    Step(c.(bval := v, bsrc := c.bsrc + [gid]), conflicts + impossible, true)
  }

  /** remove: v stops being possible. */
  function RemoveStep(c: Cell, index: int, v: int): Step {
    var conflicts := if v == c.bval then BindingErrors(c) else [];
    var rest := IntSets.Drop(c.pvals, {v});
    var removed := v in c.pvals;
    var empty :=
      if removed && rest == [] then [SquareError(index, IntDatum(v), RemovedValueAttribute, NoPossibleValuesCondition, rest)]
      else [];
    Step(c.(pvals := rest), conflicts + empty, removed)
  }

  /** removeMultiple: the possible values are narrowed to those in vals
      (keep) or to those not in vals (not keep). */
  function NarrowStep(c: Cell, index: int, vals: seq<int>, keep: bool): Step {
    var rest := if keep then IntSets.Keep(c.pvals, IntSets.Elems(vals)) else IntSets.Drop(c.pvals, IntSets.Elems(vals));
    var lostBound := c.bval in c.pvals && (if keep then c.bval !in vals else c.bval in vals);
    var attr := if keep then RetainedValuesAttribute else RemovedValuesAttribute;
    var conflicts := if lostBound then BindingErrors(c) else [];
    var empty := if rest == [] then [SquareError(index, SetDatum(vals), attr, NoPossibleValuesCondition, rest)] else [];
    Step(c.(pvals := rest), conflicts + empty, |rest| < |c.pvals|)
  }

  lemma BindingErrorsCount(c: Cell, other: Condition)
    requires other != NoGroupValueCondition
    ensures CountOf(BindingErrors(c), NoGroupValueCondition) == |c.bsrc|
    ensures CountOf(BindingErrors(c), other) == 0
  {
    CountOfUniform(BindingErrors(c), NoGroupValueCondition, other);
  }

  /** assign always sets the value and clears the possible values, keeps
      the binding, reports one NoGroupValue error per binding source when
      the square was bound to a different value, and one NotInSet error when
      v was not possible. */
  lemma AssignReports(c: Cell, index: int, v: int)
    ensures var o := AssignStep(c, index, v);
      && o.cell.aval == v && o.cell.pvals == []
      && o.cell.bval == c.bval && o.cell.bsrc == c.bsrc
      && o.logged
      && CountOf(o.errs, NoGroupValueCondition) == (if c.bval != 0 && c.bval != v then |c.bsrc| else 0)
      && CountOf(o.errs, NotInSetCondition) == (if v in c.pvals then 0 else 1)
      && |o.errs| == CountOf(o.errs, NoGroupValueCondition) + CountOf(o.errs, NotInSetCondition)
      && (c.bval != 0 && c.bval != v ==>
            forall i :: 0 <= i < |c.bsrc| ==> GroupError(c.bsrc[i], c.bval, NoGroupValueCondition) in o.errs)
  {
    var o := AssignStep(c, index, v);
    var lost := c.bval != 0 && c.bval != v;
    var conflicts := if lost then BindingErrors(c) else [];
    var impossible :=
      if v in c.pvals then []
      else [SquareError(index, IntDatum(v), AssignedValueAttribute, NotInSetCondition, c.pvals)];
    assert o.errs == conflicts + impossible;
    ConflictCounts(c, lost, impossible, NotInSetCondition);
    if c.bval != 0 && c.bval != v {
      forall i | 0 <= i < |c.bsrc| ensures GroupError(c.bsrc[i], c.bval, NoGroupValueCondition) in o.errs {
        assert o.errs[i] == conflicts[i];
      }
    }
  }

  /** bind records the new value and appends the source even when it
      reports a conflict: one NoGroupValue error per earlier source when a
      different value was bound, and one NotInSet error when v was not
      possible. */
  lemma BindReports(c: Cell, index: int, v: int, gid: GroupId)
    ensures var o := BindStep(c, index, v, gid);
      && o.cell.bval == v && o.cell.bsrc == c.bsrc + [gid]
      && o.cell.aval == c.aval && o.cell.pvals == c.pvals
      && o.logged
      && CountOf(o.errs, NoGroupValueCondition) == (if c.bval != 0 && c.bval != v then |c.bsrc| else 0)
      && CountOf(o.errs, NotInSetCondition) == (if v in c.pvals then 0 else 1)
      && |o.errs| == CountOf(o.errs, NoGroupValueCondition) + CountOf(o.errs, NotInSetCondition)
  {
    var lost := c.bval != 0 && c.bval != v;
    var impossible :=
      if v in c.pvals then []
      else [SquareError(index, IntDatum(v), BoundValueAttribute, NotInSetCondition, c.pvals)];
    assert BindStep(c, index, v, gid).errs == (if lost then BindingErrors(c) else []) + impossible;
    ConflictCounts(c, lost, impossible, NotInSetCondition);
  }

  /** remove deletes exactly v from the possible values; it reports one
      NoGroupValue error per binding source when v is the bound value, and
      a NoPossibleValues error when it removed the last possible value.  It
      notifies the logger exactly when it changed the square. */
  lemma RemoveReports(c: Cell, index: int, v: int)
    requires IntSets.Valid(c.pvals)
    ensures var o := RemoveStep(c, index, v);
      && IntSets.Valid(o.cell.pvals)
      && IntSets.Elems(o.cell.pvals) == IntSets.Elems(c.pvals) - {v}
      && o.cell.aval == c.aval && o.cell.bval == c.bval && o.cell.bsrc == c.bsrc
      && (o.logged <==> v in c.pvals)
      && (o.logged <==> o.cell != c)
      && CountOf(o.errs, NoGroupValueCondition) == (if v == c.bval then |c.bsrc| else 0)
      && CountOf(o.errs, NoPossibleValuesCondition) == (if c.pvals == [v] then 1 else 0)
      && |o.errs| == CountOf(o.errs, NoGroupValueCondition) + CountOf(o.errs, NoPossibleValuesCondition)
  {
    var o := RemoveStep(c, index, v);
    var rest := o.cell.pvals;
    assert IntSets.Valid(rest) && IntSets.Elems(rest) == IntSets.Elems(c.pvals) - {v} by {
      IntSets.DropProps(c.pvals, {v});
    }
    assert (v in c.pvals && rest == []) <==> c.pvals == [v] by {
      IntSets.EmptiedBy(c.pvals, v);
    }
    assert o.logged <==> o.cell != c by {
      if v in c.pvals {
        assert v !in IntSets.Elems(rest);
        assert v in IntSets.Elems(c.pvals);
      } else {
        IntSets.DropAbsent(c.pvals, v);
      }
    }
    var empty :=
      if v in c.pvals && rest == [] then [SquareError(index, IntDatum(v), RemovedValueAttribute, NoPossibleValuesCondition, rest)]
      else [];
    assert o.errs == (if v == c.bval then BindingErrors(c) else []) + empty;
    ConflictCounts(c, v == c.bval, empty, NoPossibleValuesCondition);
  }

  /** removeMultiple leaves the possible values narrowed to those in vals
      (keep) or outside vals (not keep); it reports one NoGroupValue error
      per binding source when the bound value was possible and is no
      longer, and a NoPossibleValues error whenever no possible value is
      left (even if none was removed).  It notifies the logger exactly when
      it changed the square. */
  lemma NarrowReports(c: Cell, index: int, vals: seq<int>, keep: bool)
    requires IntSets.Valid(c.pvals)
    ensures var o := NarrowStep(c, index, vals, keep);
      && IntSets.Valid(o.cell.pvals)
      && IntSets.Elems(o.cell.pvals) ==
           (if keep then IntSets.Elems(c.pvals) * IntSets.Elems(vals) else IntSets.Elems(c.pvals) - IntSets.Elems(vals))
      && o.cell.aval == c.aval && o.cell.bval == c.bval && o.cell.bsrc == c.bsrc
      && (o.logged <==> o.cell != c)
      && CountOf(o.errs, NoGroupValueCondition) ==
           (if c.bval in c.pvals && c.bval !in o.cell.pvals then |c.bsrc| else 0)
      && CountOf(o.errs, NoPossibleValuesCondition) == (if o.cell.pvals == [] then 1 else 0)
      && |o.errs| == CountOf(o.errs, NoGroupValueCondition) + CountOf(o.errs, NoPossibleValuesCondition)
  {
    NarrowContents(c, index, vals, keep);
    NarrowErrors(c, index, vals, keep);
  }

  /** The contents part of NarrowReports. */
  lemma NarrowContents(c: Cell, index: int, vals: seq<int>, keep: bool)
    requires IntSets.Valid(c.pvals)
    ensures var o := NarrowStep(c, index, vals, keep);
      && IntSets.Valid(o.cell.pvals)
      && IntSets.Elems(o.cell.pvals) ==
           (if keep then IntSets.Elems(c.pvals) * IntSets.Elems(vals) else IntSets.Elems(c.pvals) - IntSets.Elems(vals))
      && (c.bval in c.pvals && c.bval !in o.cell.pvals <==> c.bval in c.pvals && (if keep then c.bval !in vals else c.bval in vals))
      && (o.logged <==> o.cell != c)
  {
    var o := NarrowStep(c, index, vals, keep);
    var e := IntSets.Elems(vals);
    if keep {
      IntSets.KeepProps(c.pvals, e);
    } else {
      IntSets.DropProps(c.pvals, e);
    }
    assert c.bval in vals <==> c.bval in e;
    assert c.bval in c.pvals <==> c.bval in IntSets.Elems(c.pvals);
    assert c.bval in o.cell.pvals <==> c.bval in IntSets.Elems(o.cell.pvals);
  }

  /** The error part of NarrowReports. */
  lemma NarrowErrors(c: Cell, index: int, vals: seq<int>, keep: bool)
    ensures var o := NarrowStep(c, index, vals, keep);
      var lostBound := c.bval in c.pvals && (if keep then c.bval !in vals else c.bval in vals);
      && CountOf(o.errs, NoGroupValueCondition) == (if lostBound then |c.bsrc| else 0)
      && CountOf(o.errs, NoPossibleValuesCondition) == (if o.cell.pvals == [] then 1 else 0)
      && |o.errs| == CountOf(o.errs, NoGroupValueCondition) + CountOf(o.errs, NoPossibleValuesCondition)
  {
    var o := NarrowStep(c, index, vals, keep);
    var lostBound := c.bval in c.pvals && (if keep then c.bval !in vals else c.bval in vals);
    var attr := if keep then RetainedValuesAttribute else RemovedValuesAttribute;
    var rest := o.cell.pvals;
    var empty := if rest == [] then [SquareError(index, SetDatum(vals), attr, NoPossibleValuesCondition, rest)] else [];
    assert o.errs == (if lostBound then BindingErrors(c) else []) + empty;
    ConflictCounts(c, lostBound, empty, NoPossibleValuesCondition);
  }

  /** Counting the errors of a square operation: the binding conflicts
      (when lost) followed by errors of one other condition. */
  lemma ConflictCounts(c: Cell, lost: bool, tail: seq<Error>, other: Condition)
    requires other != NoGroupValueCondition
    requires forall i :: 0 <= i < |tail| ==> tail[i].condition == other
    ensures var es := (if lost then BindingErrors(c) else []) + tail;
      && CountOf(es, NoGroupValueCondition) == (if lost then |c.bsrc| else 0)
      && CountOf(es, other) == |tail|
      && |es| == CountOf(es, NoGroupValueCondition) + CountOf(es, other)
  {
    var conflicts := if lost then BindingErrors(c) else [];
    CountOfConcat(conflicts, tail, NoGroupValueCondition);
    CountOfConcat(conflicts, tail, other);
    BindingErrorsCount(c, other);
    CountOfUniform(tail, other, NoGroupValueCondition);
  }

  /** Square s of a puzzle's sequence ss sits at position s.index - 1, and all
      squares share the logger lg; in particular the squares are distinct. */
  predicate Indexed(ss: seq<Square>, lg: IndexLogger) {
    forall i :: 0 <= i < |ss| ==> ss[i].index == i + 1 && ss[i].logger == lg
  }

  /** The contents of a sequence of squares. */
  function Cells(ss: seq<Square>): seq<Cell>
    reads set s | s in ss
  {
    seq(|ss|, i reads set s | s in ss requires 0 <= i < |ss| => ss[i].State())
  }

  class Square {
    const index: int
    var aval: int
    var pvals: seq<int>
    var bval: int
    var bsrc: seq<GroupId>
    const logger: IndexLogger

    /** The square's contents. */
    function State(): Cell
      reads this
    {
      Cell(aval, pvals, bval, bsrc)
    }

    /** newEmptySquare: unassigned, unbound, every value 1..sidelen possible. */
    constructor Empty(index: int, sidelen: int, logger: IndexLogger)
      ensures this.index == index && this.logger == logger
      ensures State() == Cell(0, IntSets.Range(sidelen), 0, [])
    {
      var all := IntSets.NewRange(sidelen);
      this.index := index;
      this.logger := logger;
      aval := 0;
      pvals := all;
      bval := 0;
      bsrc := [];
    }

    /** newFilledSquare: assigned the given value, with no possible values. */
    constructor Filled(index: int, value: int, logger: IndexLogger)
      ensures this.index == index && this.logger == logger
      ensures State() == Cell(value, [], 0, [])
    {
      this.index := index;
      this.logger := logger;
      aval := value;
      pvals := [];
      bval := 0;
      bsrc := [];
    }

    /** A square with the given contents (the copy made for a copied puzzle). */
    constructor Copy(index: int, c: Cell, logger: IndexLogger)
      ensures this.index == index && this.logger == logger && State() == c
    {
      this.index := index;
      this.logger := logger;
      aval := c.aval;
      pvals := c.pvals;
      bval := c.bval;
      bsrc := c.bsrc;
    }

    /** The NoGroupValue errors naming each group that bound the square. */
    method Conflicts() returns (errs: seq<Error>)
      ensures errs == BindingErrors(State())
    {
      errs := [];
      var i := 0;
      while i < |bsrc|
        invariant 0 <= i <= |bsrc|
        invariant errs == BindingErrors(State())[..i]
      {
        errs := errs + [GroupError(bsrc[i], bval, NoGroupValueCondition)];
        i := i + 1;
      }
    }

    /** assign (square): see AssignStep and AssignReports. */
    method Assign(v: int) returns (errs: seq<Error>)
      requires IntSets.Valid(pvals) && logger.Valid()
      modifies this, logger
      ensures State() == AssignStep(old(State()), index, v).cell
      ensures errs == AssignStep(old(State()), index, v).errs
      ensures Noted(logger, {index})
    {
      errs := [];
      if bval != 0 && bval != v {
        errs := Conflicts();
      }
      var _, found := IntSets.Find(pvals, v);
      if !found {
        errs := errs + [SquareError(index, IntDatum(v), AssignedValueAttribute, NotInSetCondition, pvals)];
      }
      aval := v;
      pvals := [];
      logger.Log(index);
    }

    /** bind: see BindStep and BindReports. */
    method Bind(v: int, gid: GroupId) returns (errs: seq<Error>)
      requires IntSets.Valid(pvals) && logger.Valid()
      modifies this, logger
      ensures State() == BindStep(old(State()), index, v, gid).cell
      ensures errs == BindStep(old(State()), index, v, gid).errs
      ensures Noted(logger, {index})
    {
      errs := [];
      if bval != 0 && bval != v {
        errs := Conflicts();
      }
      var _, found := IntSets.Find(pvals, v);
      if !found {
        errs := errs + [SquareError(index, IntDatum(v), BoundValueAttribute, NotInSetCondition, pvals)];
      }
      bval := v;
      bsrc := bsrc + [gid];
      logger.Log(index);
    }

    /** remove (square): see RemoveStep and RemoveReports. */
    method Remove(v: int) returns (errs: seq<Error>)
      requires IntSets.Valid(pvals) && logger.Valid()
      modifies this, logger
      ensures State() == RemoveStep(old(State()), index, v).cell
      ensures errs == RemoveStep(old(State()), index, v).errs
      ensures Noted(logger, if RemoveStep(old(State()), index, v).logged then {index} else {})
    {
      errs := [];
      if v == bval {
        errs := Conflicts();
      }
      var removed;
      pvals, removed := IntSets.Remove(pvals, v);
      if removed {
        if |pvals| == 0 {
          errs := errs + [SquareError(index, IntDatum(v), RemovedValueAttribute, NoPossibleValuesCondition, pvals)];
        }
        logger.Log(index);
      }
    }

    /** subtract (square): removes the values in vals. */
    method Subtract(vals: seq<int>) returns (errs: seq<Error>)
      requires IntSets.Valid(pvals) && IntSets.Valid(vals) && logger.Valid()
      modifies this, logger
      ensures State() == NarrowStep(old(State()), index, vals, false).cell
      ensures errs == NarrowStep(old(State()), index, vals, false).errs
      ensures Noted(logger, if NarrowStep(old(State()), index, vals, false).logged then {index} else {})
    {
      errs := RemoveMultiple(vals, false);
    }

    /** intersect (square): keeps only the values in vals. */
    method Intersect(vals: seq<int>) returns (errs: seq<Error>)
      requires IntSets.Valid(pvals) && IntSets.Valid(vals) && logger.Valid()
      modifies this, logger
      ensures State() == NarrowStep(old(State()), index, vals, true).cell
      ensures errs == NarrowStep(old(State()), index, vals, true).errs
      ensures Noted(logger, if NarrowStep(old(State()), index, vals, true).logged then {index} else {})
    {
      errs := RemoveMultiple(vals, true);
    }

    /** removeMultiple: see NarrowStep and NarrowReports.  The bound value is
        the marker whose loss the intset operations report. */
    method RemoveMultiple(vals: seq<int>, keep: bool) returns (errs: seq<Error>)
      requires IntSets.Valid(pvals) && IntSets.Valid(vals) && logger.Valid()
      modifies this, logger
      ensures State() == NarrowStep(old(State()), index, vals, keep).cell
      ensures errs == NarrowStep(old(State()), index, vals, keep).errs
      ensures Noted(logger, if NarrowStep(old(State()), index, vals, keep).logged then {index} else {})
    {
      var attr := if keep then RetainedValuesAttribute else RemovedValuesAttribute;
      var remsome, rembound := Narrow(vals, keep);
      errs := [];
      if rembound {
        errs := Conflicts();
      }
      if |pvals| == 0 {
        errs := errs + [SquareError(index, SetDatum(vals), attr, NoPossibleValuesCondition, pvals)];
      }
      if remsome {
        logger.Log(index);
      }
    }

    /** The intset part of removeMultiple: the possible values are narrowed;
        the flags say whether any value went and whether the bound one did. */
    method Narrow(vals: seq<int>, keep: bool) returns (remsome: bool, rembound: bool)
      requires IntSets.Valid(pvals) && IntSets.Valid(vals)
      modifies this
      ensures var o := NarrowStep(old(State()), index, vals, keep);
        && State() == o.cell
        && remsome == o.logged
        && rembound == (old(bval) in old(pvals) && if keep then old(bval) !in vals else old(bval) in vals)
    {
      if keep {
        pvals, remsome, rembound := IntSets.Intersect(pvals, vals, bval);
      } else {
        pvals, remsome, rembound := IntSets.Subtract(pvals, vals, bval);
      }
    }
  }
}
