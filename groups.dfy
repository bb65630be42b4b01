/** Groups: the sets of squares that must hold distinct values (rows,
    columns, tiles, ...).  A group keeps its state in place and works on the
    puzzle's squares, which it shares with the other groups; every method is
    proved to leave the group and the squares exactly as the matching
    function of GroupSpecs says. */
module Groups {
  import IntSets
  import opened Geometry
  import opened Errors
  import opened Logging
  import opened Squares
  import opened GroupSpecs

  /** remove on square i, seen from the whole puzzle: only that
      square's contents change. */
  method RemoveAt(ss: seq<Square>, i: int, v: int, ghost n: int, ghost lg: IndexLogger) returns (errs: seq<Error>)
    requires Indexed(ss, lg) && lg.Valid() && 1 <= i <= |ss| && CellsOk(Cells(ss), n)
    modifies ss[i - 1], lg
    ensures var st := RemoveStep(old(Cells(ss))[i - 1], i, v);
      Cells(ss) == old(Cells(ss))[i - 1 := st.cell] && errs == st.errs && Noted(lg, if st.logged then {i} else {})
    ensures CellsOk(Cells(ss), n)
  {
    ghost var before := Cells(ss);
    ghost var c := before[i - 1];
    assert c == ss[i - 1].State();
    errs := ss[i - 1].Remove(v);
    Others(ss, lg, i - 1);
    assert Cells(ss) == before[i - 1 := ss[i - 1].State()];
    assert CellsOk(Cells(ss), n) by {
      RemoveKeepsOk(c, i, v, n);
      UpdateKeepsOk(before, i - 1, ss[i - 1].State(), n);
    }
  }

  /** The logger holds the indices E0 it held before an operation, and
      the indices L if it is logging. */
  ghost predicate Logs(lg: IndexLogger, E0: set<int>, L: set<int>)
    reads lg
  {
    lg.Valid() && lg.Elements() == E0 + if lg.logging then L else {}
  }

  /** The body of the sweep of assign on square i. */
  method RemoveInAt(ss: seq<Square>, i: int, av: int, errs0: seq<Error>, ghost o: Outcome, ghost E0: set<int>,
                    ghost n: int, ghost lg: IndexLogger) returns (errs: seq<Error>)
    requires Indexed(ss, lg) && 1 <= i <= |ss| && CellsOk(Cells(ss), n)
    requires Cells(ss) == o.cells && errs0 == o.errs && Logs(lg, E0, o.logged)
    modifies ss[i - 1], lg
    ensures var r := RemoveIn(o, i, av); Cells(ss) == r.cells && errs == r.errs && Logs(lg, E0, r.logged)
    ensures lg.logging == old(lg.logging) && CellsOk(Cells(ss), n)
  {
    assert o.cells[i - 1] == ss[i - 1].State();
    if ss[i - 1].aval == 0 {
      var e := RemoveAt(ss, i, av, n, lg);
      errs := errs0 + e;
    } else {
      errs := errs0;
    }
  }

  /** bind on square i, seen from the whole puzzle. */
  method BindAt(ss: seq<Square>, i: int, v: int, gid: GroupId, ghost lg: IndexLogger) returns (errs: seq<Error>)
    requires Indexed(ss, lg) && lg.Valid() && 1 <= i <= |ss| && IntSets.Valid(ss[i - 1].pvals)
    modifies ss[i - 1], lg
    ensures var st := BindStep(old(Cells(ss))[i - 1], i, v, gid);
      Cells(ss) == old(Cells(ss))[i - 1 := st.cell] && errs == st.errs && Noted(lg, {i})
  {
    ghost var before := Cells(ss);
    errs := ss[i - 1].Bind(v, gid);
    Others(ss, lg, i - 1);
    assert Cells(ss) == before[i - 1 := ss[i - 1].State()];
  }

  /** The binding step of setCandidate on square idx. */
  method BindCandidate(ss: seq<Square>, idx: int, val: int, gid: GroupId, ghost lg: IndexLogger)
    returns (errs: seq<Error>)
    requires Indexed(ss, lg) && lg.Valid() && 1 <= idx <= |ss| && IntSets.Valid(ss[idx - 1].pvals)
    modifies ss[idx - 1], lg
    ensures var st := CandidateBind(old(Cells(ss))[idx - 1], idx, val, gid);
      Cells(ss) == old(Cells(ss))[idx - 1 := st.cell] && errs == st.errs && Noted(lg, if st.logged then {idx} else {})
  {
    ghost var cells := Cells(ss);
    assert cells[idx - 1] == ss[idx - 1].State();
    if |ss[idx - 1].pvals| > 1 {
      errs := BindAt(ss, idx, val, gid, lg);
    } else {
      errs := [];
      assert cells[idx - 1 := cells[idx - 1]] == cells;
    }
  }

  /** intersect on square i, seen from the whole puzzle. */
  method IntersectAt(ss: seq<Square>, i: int, vals: seq<int>, ghost n: int, ghost lg: IndexLogger) returns (errs: seq<Error>)
    requires Indexed(ss, lg) && lg.Valid() && 1 <= i <= |ss| && CellsOk(Cells(ss), n) && IntSets.Valid(vals)
    modifies ss[i - 1], lg
    ensures var st := NarrowStep(old(Cells(ss))[i - 1], i, vals, true);
      Cells(ss) == old(Cells(ss))[i - 1 := st.cell] && errs == st.errs && Noted(lg, if st.logged then {i} else {})
    ensures CellsOk(Cells(ss), n)
  {
    ghost var before := Cells(ss);
    ghost var c := before[i - 1];
    assert c == ss[i - 1].State();
    errs := ss[i - 1].Intersect(vals);
    Others(ss, lg, i - 1);
    assert Cells(ss) == before[i - 1 := ss[i - 1].State()];
    assert CellsOk(Cells(ss), n) by {
      NarrowKeepsOk(c, i, vals, true, n);
      UpdateKeepsOk(before, i - 1, ss[i - 1].State(), n);
    }
  }

  /** The body of pass 2 of newGroup on square i. */
  method NarrowInAt(ss: seq<Square>, i: int, nd: seq<int>, errs0: seq<Error>, ghost o: Outcome, ghost E0: set<int>,
                    ghost n: int, ghost lg: IndexLogger) returns (errs: seq<Error>)
    requires Indexed(ss, lg) && 1 <= i <= |ss| && CellsOk(Cells(ss), n) && IntSets.Valid(nd)
    requires Cells(ss) == o.cells && errs0 == o.errs && Logs(lg, E0, o.logged)
    modifies ss[i - 1], lg
    ensures var r := NarrowIn(o, i, nd); Cells(ss) == r.cells && errs == r.errs && Logs(lg, E0, r.logged)
    ensures lg.logging == old(lg.logging) && CellsOk(Cells(ss), n)
  {
    var e := IntersectAt(ss, i, nd, n, lg);
    errs := errs0 + e;
  }

  /** Pass 1 of newGroup: the assigned squares of the group are recorded in
      where, and their values and indices leave need and free. */
  method ScanAssigned(gd: GroupDescriptor, ss: seq<Square>) returns (st: GroupState, errs: seq<Error>)
    requires Fits(gd, Cells(ss)) && CellsOk(Cells(ss), |gd.indices|)
    ensures var r := Pass1(gd, Cells(ss), |gd.indices|); st == r.g && errs == r.errs
  {
    var sidelen := |gd.indices|;
    var need := IntSets.NewRange(sidelen);
    st := GroupState(seq(sidelen + 1, _ => 0), need, gd.indices);
    errs := [];
    var k := 0;
    while k < |gd.indices|
      invariant 0 <= k <= |gd.indices|
      invariant var p := Pass1(gd, Cells(ss), k); st == p.g && errs == p.errs
    {
      PassOneShape(gd, Cells(ss), k);
      var i := gd.indices[k];
      assert i in gd.indices;
      assert Cells(ss)[i - 1] == ss[i - 1].State() && CellOk(Cells(ss)[i - 1], sidelen);
      st, errs := AssignedAt(gd, ss, i, st, errs, Pass1(gd, Cells(ss), k));
      k := k + 1;
    }
  }

  /** The body of pass 1 of newGroup on square i of the group. */
  method AssignedAt(gd: GroupDescriptor, ss: seq<Square>, i: int, st0: GroupState, errs0: seq<Error>, ghost p: Outcome)
    returns (st: GroupState, errs: seq<Error>)
    requires 1 <= i <= |ss| && p.cells == Cells(ss) && p.g == st0 && p.errs == errs0
    requires IntSets.Valid(st0.need) && IntSets.Valid(st0.free) && 0 <= ss[i - 1].aval < |st0.where|
    ensures var r := AssignedIn(gd, p, i); st == r.g && errs == r.errs
  {
    assert Cells(ss)[i - 1] == ss[i - 1].State();
    var a := ss[i - 1].aval;
    var where, need, free := st0.where, st0.need, st0.free;
    errs := errs0;
    if a != 0 {
      if where[a] != 0 {
        errs := errs + [GroupError(gd.id, a, DuplicateGroupValuesCondition)];
      }
      where := where[a := i];
      var removed;
      free, removed := IntSets.Remove(free, i);
      need, removed := IntSets.Remove(need, a);
    }
    st := GroupState(where, need, free);
  }

  /** Pass 2 of newGroup: every free square fr[k] keeps only the needed
      values nd. */
  method NarrowFree(ss: seq<Square>, fr: seq<int>, nd: seq<int>, errs0: seq<Error>, ghost o: Outcome, ghost n: int,
                    ghost lg: IndexLogger) returns (errs: seq<Error>)
    requires Indexed(ss, lg) && lg.Valid() && CellsOk(Cells(ss), n)
    requires IntSets.Within(fr, 1, |ss|) && IntSets.Valid(nd)
    requires o.cells == Cells(ss) && o.errs == errs0 && o.logged == {}
    modifies (set s | s in ss), lg
    ensures var r := Pass2(o, fr, nd, |fr|); Cells(ss) == r.cells && errs == r.errs && Noted(lg, r.logged)
    ensures CellsOk(Cells(ss), n)
  {
    ghost var E0 := lg.Elements();
    errs := errs0;
    var k := 0;
    while k < |fr|
      invariant 0 <= k <= |fr|
      invariant CellsOk(Cells(ss), n) && lg.logging == old(lg.logging)
      invariant var p := Pass2(o, fr, nd, k); Cells(ss) == p.cells && errs == p.errs && Logs(lg, E0, p.logged)
    {
      var i := fr[k];
      assert i in fr;
      errs := NarrowInAt(ss, i, nd, errs, Pass2(o, fr, nd, k), E0, n, lg);
      k := k + 1;
    }
  }

  /** newGroup: builds the group described by gd over the squares ss and
      narrows its free squares to the values it still needs. */
  method NewGroup(gd: GroupDescriptor, ss: seq<Square>, ghost lg: IndexLogger) returns (g: Group, errs: seq<Error>)
    requires Indexed(ss, lg) && lg.Valid() && Fits(gd, Cells(ss)) && CellsOk(Cells(ss), |gd.indices|)
    modifies (set s | s in ss), lg
    ensures fresh(g) && g.desc == gd
    ensures var r := NewGroupSpec(gd, old(Cells(ss)));
      g.State() == r.g && Cells(ss) == r.cells && errs == r.errs && Noted(lg, r.logged)
    ensures StateOk(gd, g.State()) && CellsOk(Cells(ss), |gd.indices|)
  {
    ghost var cells := Cells(ss);
    var st, e1 := ScanAssigned(gd, ss);
    PassOneShape(gd, cells, |gd.indices|);
    errs := NarrowFree(ss, st.free, st.need, e1, Pass1(gd, cells, |gd.indices|), |gd.indices|, lg);
    g := new Group(gd, st);
  }

  /** The candidate bookkeeping of analyze for one square: every possible
      value v of square i gains a candidate, and i becomes its latest one. */
  method Tally(pv: seq<int>, i: int, counts: seq<int>, lasts: seq<int>) returns (nc: seq<int>, nl: seq<int>)
    requires IntSets.Valid(pv) && IntSets.Within(pv, 0, |counts| - 1) && |lasts| == |counts|
    ensures |nc| == |counts| && |nl| == |lasts|
    ensures forall v :: 0 <= v < |counts| ==> nc[v] == counts[v] + if v in pv then 1 else 0
    ensures forall v :: 0 <= v < |counts| ==> nl[v] == if v in pv then i else lasts[v]
  {
    nc, nl := counts, lasts;
    var t := 0;
    while t < |pv|
      invariant 0 <= t <= |pv| && |nc| == |counts| && |nl| == |lasts|
      invariant forall v :: 0 <= v < |counts| ==> nc[v] == counts[v] + if v in pv[..t] then 1 else 0
      invariant forall v :: 0 <= v < |counts| ==> nl[v] == if v in pv[..t] then i else lasts[v]
    {
      var v := pv[t];
      assert v in pv;
      IntSets.Around(pv, t);
      forall u | 0 <= u < |counts| ensures u in pv[..t + 1] <==> u in pv[..t] || u == v {
        IntSets.PrefixIn(pv, t, u);
      }
      nc := nc[v := nc[v] + 1];
      nl := nl[v := i];
      t := t + 1;
    }
    assert pv[..t] == pv;
  }

  /** The squares of ss other than the j-th are distinct from it. */
  lemma Others(ss: seq<Square>, lg: IndexLogger, j: int)
    requires Indexed(ss, lg) && 0 <= j < |ss|
    ensures forall k :: 0 <= k < |ss| && k != j ==> ss[k] != ss[j]
  {
  }

  class Group {
    const desc: GroupDescriptor
    var where: seq<int>
    var need: seq<int>
    var free: seq<int>

    function State(): GroupState
      reads this
    {
      GroupState(where, need, free)
    }

    constructor (desc: GroupDescriptor, g: GroupState)
      ensures this.desc == desc && State() == g
    {
      this.desc := desc;
      where, need, free := g.where, g.need, g.free;
    }

    /** assign: square ai, which belongs to the group, has just been
        assigned a value. */
    method Assign(ss: seq<Square>, ai: int, ghost lg: IndexLogger) returns (errs: seq<Error>)
      requires Indexed(ss, lg) && lg.Valid()
      requires Fits(desc, Cells(ss)) && StateOk(desc, State()) && CellsOk(Cells(ss), |desc.indices|)
      requires 1 <= ai <= |ss| && ss[ai - 1].aval != 0
      modifies this, (set s | s in ss), lg
      ensures var r := AssignSpec(desc, old(State()), old(Cells(ss)), ai);
        State() == r.g && Cells(ss) == r.cells && errs == r.errs && Noted(lg, r.logged)
    {
      ghost var cells := Cells(ss);
      assert cells[ai - 1] == ss[ai - 1].State();
      var av := ss[ai - 1].aval;
      var wi := where[av];
      errs := [];
      if wi != 0 {
        if wi == ai {
          return;
        }
        errs := [GroupError(desc.id, av, DuplicateGroupValuesCondition)];
      }
      Record(av, ai);
      errs := RemoveAll(ss, av, errs, lg);
    }

    /** The bookkeeping of assign: value av is now held by square ai. */
    method Record(av: int, ai: int)
      requires IntSets.Valid(free) && IntSets.Valid(need) && 0 <= av < |where|
      modifies this
      ensures State() == GroupState(old(where)[av := ai], IntSets.Drop(old(need), {av}), IntSets.Drop(old(free), {ai}))
    {
      where := where[av := ai];
      var removed;
      need, removed := IntSets.Remove(need, av);
      free, removed := IntSets.Remove(free, ai);
    }

    /** The sweep of assign: every unassigned square of the group loses the
        possible value av; the errors are appended to errs0. */
    method RemoveAll(ss: seq<Square>, av: int, errs0: seq<Error>, ghost lg: IndexLogger) returns (errs: seq<Error>)
      requires Indexed(ss, lg) && lg.Valid()
      requires Fits(desc, Cells(ss)) && CellsOk(Cells(ss), |desc.indices|)
      modifies (set s | s in ss), lg
      ensures var r := RemoveFrom(desc, Outcome(State(), old(Cells(ss)), errs0, {}), av, |desc.indices|);
        Cells(ss) == r.cells && errs == r.errs && Noted(lg, r.logged)
    {
      ghost var start := Outcome(State(), Cells(ss), errs0, {});
      ghost var E0 := lg.Elements();
      errs := errs0;
      var k := 0;
      while k < |desc.indices|
        invariant 0 <= k <= |desc.indices|
        invariant CellsOk(Cells(ss), |desc.indices|) && lg.logging == old(lg.logging)
        invariant var p := RemoveFrom(desc, start, av, k);
          Cells(ss) == p.cells && errs == p.errs && Logs(lg, E0, p.logged)
      {
        var i := desc.indices[k];
        assert i in desc.indices;
        errs := RemoveInAt(ss, i, av, errs, RemoveFrom(desc, start, av, k), E0, |desc.indices|, lg);
        k := k + 1;
      }
    }

    /** The duplicate check of setCandidate: is some other square of the
        group bound to val? */
    method FindBound(ss: seq<Square>, idx: int, val: int) returns (found: bool)
      requires IntSets.Within(desc.indices, 1, |ss|)
      ensures found == BoundElsewhere(desc, Cells(ss), idx, val)
    {
      found := false;
      var k := 0;
      while k < |desc.indices|
        invariant 0 <= k <= |desc.indices|
        invariant forall t :: 0 <= t < k ==>
          1 <= desc.indices[t] <= |ss| && (desc.indices[t] == idx || Cells(ss)[desc.indices[t] - 1].bval != val)
      {
        var i := desc.indices[k];
        assert i in desc.indices;
        if i != idx && ss[i - 1].bval == val {
          found := true;
          return;
        }
        k := k + 1;
      }
      forall i | i in desc.indices ensures i == idx || Cells(ss)[i - 1].bval != val {
        var t :| 0 <= t < |desc.indices| && desc.indices[t] == i;
      }
    }

    /** The bookkeeping of setCandidate: square idx is no longer free and
        value val no longer needed. */
    method Settle(idx: int, val: int)
      requires IntSets.Valid(free) && IntSets.Valid(need)
      modifies this
      ensures State() == old(State()).(free := IntSets.Drop(old(free), {idx}), need := IntSets.Drop(old(need), {val}))
    {
      var removed;
      free, removed := IntSets.Remove(free, idx);
      need, removed := IntSets.Remove(need, val);
    }

    /** setCandidate: square idx is the only place left for val. */
    method SetCandidate(ss: seq<Square>, idx: int, val: int, errs0: seq<Error>, ghost lg: IndexLogger)
      returns (errs: seq<Error>)
      requires Indexed(ss, lg) && lg.Valid() && IntSets.Within(desc.indices, 1, |ss|)
      requires IntSets.Valid(free) && IntSets.Valid(need)
      requires 1 <= idx <= |ss| && IntSets.Valid(ss[idx - 1].pvals)
      modifies this, ss[idx - 1], lg
      ensures var r := SetCandidateSpec(desc, Outcome(old(State()), old(Cells(ss)), errs0, {}), idx, val);
        State() == r.g && Cells(ss) == r.cells && errs == r.errs && Noted(lg, r.logged)
    {
      Settle(idx, val);
      var e := BindCandidate(ss, idx, val, desc.id, lg);
      var dup := FindBound(ss, idx, val);
      errs := errs0 + e + if dup then [GroupError(desc.id, val, DuplicateGroupValuesCondition)] else [];
    }

    /** analyze: the forced-move discovery of the group. */
    method Analyze(ss: seq<Square>, ghost lg: IndexLogger) returns (errs: seq<Error>)
      requires Indexed(ss, lg) && lg.Valid()
      requires Fits(desc, Cells(ss)) && StateOk(desc, State()) && CellsOk(Cells(ss), |desc.indices|)
      modifies this, (set s | s in ss), lg
      ensures var r := AnalyzeSpec(desc, old(State()), old(Cells(ss)));
        State() == r.g && Cells(ss) == r.cells && errs == r.errs && Noted(lg, r.logged)
    {
      ghost var cells := Cells(ss);
      ghost var fr := free;
      FreeWithin(desc, State(), |ss|);
      ghost var p := Phase1(desc, Outcome(State(), cells, [], {}), fr, 0);
      PhaseOneCells(desc, Outcome(State(), cells, [], {}), fr, 0);
      var counts, lasts;
      counts, lasts, errs := ScanFree(ss, lg);
      assert Outcome(State(), Cells(ss), errs, {}) == p;
      errs := SettleNeeds(ss, counts, lasts, cells, fr, errs, lg);
    }

    /** The first loop of analyze, over the free squares back to front. */
    method ScanFree(ss: seq<Square>, ghost lg: IndexLogger) returns (counts: seq<int>, lasts: seq<int>, errs: seq<Error>)
      requires Indexed(ss, lg) && lg.Valid()
      requires Fits(desc, Cells(ss)) && StateOk(desc, State()) && CellsOk(Cells(ss), |desc.indices|)
      modifies this, (set s | s in ss), lg
      ensures IntSets.Within(old(free), 1, |ss|)
      ensures var r := Phase1(desc, Outcome(old(State()), old(Cells(ss)), [], {}), old(free), 0);
        State() == r.g && Cells(ss) == old(Cells(ss)) && errs == r.errs && Noted(lg, {})
      ensures StateOk(desc, State())
      ensures counts == CandidateCounts(old(Cells(ss)), old(free), 0, |desc.indices|)
      ensures lasts == FrontCandidates(old(Cells(ss)), old(free), 0, |desc.indices|)
    {
      var n := |desc.indices|;
      ghost var cells := Cells(ss);
      ghost var fr := free;
      FreeWithin(desc, State(), |ss|);
      ghost var o0 := Outcome(State(), cells, [], {});
      counts := seq(n + 1, _ => 0);
      lasts := seq(n + 1, _ => 0);
      errs := [];
      assert counts == CandidateCounts(cells, fr, |fr|, n);
      assert lasts == FrontCandidates(cells, fr, |fr|, n);
      var fi := |free| - 1;
      while fi >= 0
        invariant -1 <= fi < |fr| && |free| > fi && free[..fi + 1] == fr[..fi + 1]
        invariant StateOk(desc, State()) && Cells(ss) == cells && lg.Valid()
        invariant lg.logging == old(lg.logging) && lg.Elements() == old(lg.Elements())
        invariant var p := Phase1(desc, o0, fr, fi + 1); State() == p.g && errs == p.errs
        invariant counts == CandidateCounts(cells, fr, fi + 1, n) && lasts == FrontCandidates(cells, fr, fi + 1, n)
      {
        PhaseOneCells(desc, o0, fr, fi + 1);
        assert free[fi] == free[..fi + 1][fi];
        counts, lasts, errs := ScanOne(ss, fi, counts, lasts, errs, cells, fr, Phase1(desc, o0, fr, fi + 1), lg);
        fi := fi - 1;
      }
    }

    /** The body of the first loop of analyze for free square fr[fi]: a
        square with one possible value becomes its candidate, any other
        square is tallied as a candidate for each of its values. */
    method ScanOne(ss: seq<Square>, fi: int, counts: seq<int>, lasts: seq<int>, errs0: seq<Error>,
                   ghost cells: seq<Cell>, ghost fr: seq<int>, ghost p: Outcome, ghost lg: IndexLogger)
      returns (nc: seq<int>, nl: seq<int>, errs: seq<Error>)
      requires Indexed(ss, lg) && lg.Valid()
      requires Fits(desc, Cells(ss)) && StateOk(desc, State()) && CellsOk(Cells(ss), |desc.indices|)
      requires IntSets.Within(fr, 1, |ss|) && 0 <= fi < |fr| && fi < |free| && free[..fi + 1] == fr[..fi + 1]
      requires Cells(ss) == cells && p.cells == cells && p.g == State() && p.errs == errs0 && p.logged == {}
      requires counts == CandidateCounts(cells, fr, fi + 1, |desc.indices|)
      requires lasts == FrontCandidates(cells, fr, fi + 1, |desc.indices|)
      modifies this, (set s | s in ss), lg
      ensures assert fr[fi] in fr; var r := SingleIn(desc, p, fr[fi]); State() == r.g && errs == r.errs
      ensures Cells(ss) == cells && StateOk(desc, State())
      ensures lg.Valid() && lg.logging == old(lg.logging) && lg.Elements() == old(lg.Elements())
      ensures |free| >= fi && free[..fi] == fr[..fi]
      ensures nc == CandidateCounts(cells, fr, fi, |desc.indices|) && nl == FrontCandidates(cells, fr, fi, |desc.indices|)
    {
      var n := |desc.indices|;
      assert free[fi] == free[..fi + 1][fi];
      var i := free[fi];
      assert i == fr[fi] && i in fr;
      assert cells[i - 1] == ss[i - 1].State();
      if |ss[i - 1].pvals| == 1 {
        ghost var f0 := free;
        errs := TakeSingle(ss, fi, i, errs0, lg);
        assert free[..fi] == fr[..fi] by {
          assert f0[..fi] == f0[..fi + 1][..fi];
          assert fr[..fi] == fr[..fi + 1][..fi];
        }
        SkipStep(cells, fr, fi, n);
        nc, nl := counts, lasts;
      } else {
        errs := errs0;
        assert free[..fi] == fr[..fi] by {
          assert free[..fi] == free[..fi + 1][..fi];
          assert fr[..fi] == fr[..fi + 1][..fi];
        }
        nc, nl := Tally(ss[i - 1].pvals, i, counts, lasts);
        TallyStep(cells, fr, fi, n, counts, lasts, nc, nl);
      }
    }

    /** The singleton case of the first loop of analyze: free square i, at
        position fi, has a single possible value and becomes its candidate.
        Nothing changes in the squares, and free keeps its first fi
        elements. */
    method TakeSingle(ss: seq<Square>, fi: int, i: int, errs0: seq<Error>, ghost lg: IndexLogger) returns (errs: seq<Error>)
      requires Indexed(ss, lg) && lg.Valid()
      requires Fits(desc, Cells(ss)) && StateOk(desc, State()) && CellsOk(Cells(ss), |desc.indices|)
      requires 0 <= fi < |free| && free[fi] == i && 1 <= i <= |ss| && |ss[i - 1].pvals| == 1
      modifies this, ss[i - 1], lg
      ensures var r := SetCandidateSpec(desc, Outcome(old(State()), old(Cells(ss)), errs0, {}), i, old(ss[i - 1].pvals[0]));
        State() == r.g && errs == r.errs
      ensures Cells(ss) == old(Cells(ss)) && Noted(lg, {})
      ensures StateOk(desc, State()) && |free| >= fi && free[..fi] == old(free[..fi])
    {
      ghost var cells := Cells(ss);
      ghost var f0 := free;
      ghost var o := Outcome(State(), cells, errs0, {});
      assert cells[i - 1] == ss[i - 1].State();
      errs := SetCandidate(ss, i, ss[i - 1].pvals[0], errs0, lg);
      assert Cells(ss) == cells by {
        assert cells[i - 1 := cells[i - 1]] == cells;
      }
      assert StateOk(desc, State()) by {
        SetCandidateKeepsOk(desc, o, i, old(ss[i - 1].pvals[0]));
      }
      IntSets.DropAtPrefix(f0, fi);
    }

    /** The single-candidate case of the second loop of analyze: idx is the
        only candidate for the needed value v, at position ni of need.  need
        keeps its first ni elements. */
    method TakeForced(ss: seq<Square>, ni: int, v: int, idx: int, errs0: seq<Error>, ghost lg: IndexLogger)
      returns (errs: seq<Error>)
      requires Indexed(ss, lg) && lg.Valid()
      requires Fits(desc, Cells(ss)) && StateOk(desc, State()) && CellsOk(Cells(ss), |desc.indices|)
      requires 0 <= ni < |need| && need[ni] == v && 1 <= idx <= |ss|
      modifies this, ss[idx - 1], lg
      ensures var r := SetCandidateSpec(desc, Outcome(old(State()), old(Cells(ss)), errs0, {}), idx, v);
        State() == r.g && Cells(ss) == r.cells && errs == r.errs && Noted(lg, r.logged)
      ensures Fits(desc, Cells(ss)) && StateOk(desc, State()) && CellsOk(Cells(ss), |desc.indices|)
      ensures |need| >= ni && need[..ni] == old(need[..ni])
    {
      ghost var o := Outcome(State(), Cells(ss), errs0, {});
      ghost var n0 := need;
      assert Cells(ss)[idx - 1] == ss[idx - 1].State();
      errs := SetCandidate(ss, idx, v, errs0, lg);
      assert StateOk(desc, State()) && CellsOk(Cells(ss), |desc.indices|) by {
        SetCandidateKeepsOk(desc, o, idx, v);
      }
      IntSets.DropAtPrefix(n0, ni);
    }

    /** The second loop of analyze, over the needed values back to front.
        counts and lasts are the candidate counts and frontmost candidates
        collected by the first loop over the free squares fr of cells. */
    method SettleNeeds(ss: seq<Square>, counts: seq<int>, lasts: seq<int>, ghost cells: seq<Cell>, ghost fr: seq<int>,
                       errs0: seq<Error>, ghost lg: IndexLogger) returns (errs: seq<Error>)
      requires Indexed(ss, lg) && lg.Valid()
      requires Fits(desc, Cells(ss)) && StateOk(desc, State()) && CellsOk(Cells(ss), |desc.indices|)
      requires |cells| == |ss| && IntSets.Within(fr, 1, |ss|)
      requires counts == CandidateCounts(cells, fr, 0, |desc.indices|)
      requires lasts == FrontCandidates(cells, fr, 0, |desc.indices|)
      modifies this, (set s | s in ss), lg
      ensures var r := Phase2(desc, Outcome(old(State()), old(Cells(ss)), errs0, {}), cells, fr, old(need), 0);
        State() == r.g && Cells(ss) == r.cells && errs == r.errs && Noted(lg, r.logged)
    {
      var n := |desc.indices|;
      ghost var nd := need;
      ghost var o := Outcome(State(), Cells(ss), errs0, {});
      ghost var E0 := lg.Elements();
      errs := errs0;
      var ni := |need| - 1;
      while ni >= 0
        invariant -1 <= ni < |nd| && |need| > ni && need[..ni + 1] == nd[..ni + 1]
        invariant Fits(desc, Cells(ss)) && StateOk(desc, State()) && CellsOk(Cells(ss), n)
        invariant lg.logging == old(lg.logging)
        invariant var p := Phase2(desc, o, cells, fr, nd, ni + 1);
          State() == p.g && Cells(ss) == p.cells && errs == p.errs && Logs(lg, E0, p.logged)
      {
        assert need[ni] == need[..ni + 1][ni];
        var v := need[ni];
        assert v == nd[ni] && v in need;
        ghost var n0 := need;
        errs := SettleNeed(ss, ni, counts[v], lasts[v], errs, cells, fr, Phase2(desc, o, cells, fr, nd, ni + 1), E0, lg);
        assert need[..ni] == nd[..ni] by {
          assert n0[..ni] == n0[..ni + 1][..ni];
          assert nd[..ni] == nd[..ni + 1][..ni];
        }
        ni := ni - 1;
      }
    }

    /** The body of the second loop of analyze for the needed value
        need[ni], which has count candidates, the frontmost being idx. */
    method SettleNeed(ss: seq<Square>, ni: int, count: int, idx: int, errs0: seq<Error>,
                      ghost cells: seq<Cell>, ghost fr: seq<int>, ghost p: Outcome, ghost E0: set<int>, ghost lg: IndexLogger)
      returns (errs: seq<Error>)
      requires Indexed(ss, lg) && lg.Valid()
      requires Fits(desc, Cells(ss)) && StateOk(desc, State()) && CellsOk(Cells(ss), |desc.indices|)
      requires |cells| == |ss| && IntSets.Within(fr, 1, |ss|) && 0 <= ni < |need|
      requires count == Candidates(cells, fr, 0, need[ni]) && idx == LastCandidate(cells, fr, 0, need[ni])
      requires State() == p.g && Cells(ss) == p.cells && errs0 == p.errs && Logs(lg, E0, p.logged)
      modifies this, (set s | s in ss), lg
      ensures var r := NeedIn(desc, p, cells, fr, old(need[ni]));
        State() == r.g && Cells(ss) == r.cells && errs == r.errs && Logs(lg, E0, r.logged)
      ensures Fits(desc, Cells(ss)) && StateOk(desc, State()) && CellsOk(Cells(ss), |desc.indices|)
      ensures lg.logging == old(lg.logging) && |need| >= ni && need[..ni] == old(need[..ni])
    {
      var v := need[ni];
      if count == 0 {
        errs := errs0 + [GroupError(desc.id, v, NoGroupValueCondition)];
      } else if count == 1 {
        assert Outcome(State(), Cells(ss), errs0, {}) == p.(logged := {});
        SetCandidateLogged(desc, p, idx, v);
        errs := TakeForced(ss, ni, v, idx, errs0, lg);
      } else {
        errs := errs0;
      }
    }
  }
}
