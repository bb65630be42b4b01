/** Ordered integer sets: an intset is a strictly ascending sequence of
    integers.  The source keeps them in Go slices that its operations
    rewrite in place; here every operation takes the old sequence and
    returns the new one, and rewrites a local copy as the source's loops
    and `copy` calls rewrite its slice. */
module IntSets {

  /** The intset invariant: ascending, no duplicates. */
  predicate Valid(s: seq<int>) {
    forall i, j :: 0 <= i < j < |s| ==> s[i] < s[j]
  }

  /** The set an intset stands for. */
  function Elems(s: seq<int>): set<int> {
    set x | x in s
  }

  /** Every element of s lies in [lo, hi]. */
  predicate Within(s: seq<int>, lo: int, hi: int) {
    forall x :: x in s ==> lo <= x <= hi
  }

  /** The elements of s that are not in d, in their original order. */
  function Drop(s: seq<int>, d: set<int>): (r: seq<int>)
    ensures |r| <= |s|
  {
    if s == [] then [] else (if s[0] in d then [] else [s[0]]) + Drop(s[1..], d)
  }

  /** The elements of s that are in k, in their original order. */
  function Keep(s: seq<int>, k: set<int>): (r: seq<int>)
    ensures |r| <= |s|
  {
    if s == [] then [] else (if s[0] in k then [s[0]] else []) + Keep(s[1..], k)
  }

  /** A suffix of a sequence within [lo, hi] is within [lo, hi]. */
  lemma WithinFrom(s: seq<int>, k: int, lo: int, hi: int)
    requires Within(s, lo, hi) && 0 <= k <= |s|
    ensures Within(s[k..], lo, hi)
  {
    forall x | x in s[k..] ensures lo <= x <= hi {
      var j :| 0 <= j < |s[k..]| && s[k..][j] == x;
      assert s[k + j] == x && s[k + j] in s;
    }
  }

  lemma ElemsConcat(a: seq<int>, b: seq<int>)
    ensures Elems(a + b) == Elems(a) + Elems(b)
  {
    assert forall x :: x in a + b <==> x in a || x in b;
  }

  /** Dropping values removes exactly them, keeps the order, and changes
      nothing when none of them is present. */
  lemma DropProps(s: seq<int>, d: set<int>)
    ensures Elems(Drop(s, d)) == Elems(s) - d
    ensures |Drop(s, d)| == |s| <==> forall x :: x in s ==> x !in d
    ensures |Drop(s, d)| == |s| ==> Drop(s, d) == s
    ensures Valid(s) ==> Valid(Drop(s, d))
  {
    DropElems(s, d);
    DropSame(s, d);
    if Valid(s) {
      DropValid(s, d);
    }
  }

  lemma {:induction false} DropElems(s: seq<int>, d: set<int>)
    ensures Elems(Drop(s, d)) == Elems(s) - d
  {
    if s != [] {
      DropElems(s[1..], d);
      assert s == [s[0]] + s[1..];
      ElemsConcat([s[0]], s[1..]);
      ElemsConcat(if s[0] in d then [] else [s[0]], Drop(s[1..], d));
    }
  }

  lemma {:induction false} DropSame(s: seq<int>, d: set<int>)
    ensures |Drop(s, d)| == |s| <==> forall x :: x in s ==> x !in d
    ensures |Drop(s, d)| == |s| ==> Drop(s, d) == s
  {
    if s != [] {
      DropSame(s[1..], d);
      assert forall x :: x in s <==> x == s[0] || x in s[1..];
      assert s == [s[0]] + s[1..];
    }
  }

  lemma {:induction false} DropValid(s: seq<int>, d: set<int>)
    requires Valid(s)
    ensures Valid(Drop(s, d))
  {
    if s != [] {
      var rest := Drop(s[1..], d);
      DropValid(s[1..], d);
      DropElems(s[1..], d);
      forall j | 0 <= j < |rest| ensures s[0] < rest[j] {
        assert rest[j] in Elems(rest);
      }
    }
  }

  /** Keeping values retains exactly them, keeps the order, and changes
      nothing when all elements are kept. */
  lemma KeepProps(s: seq<int>, k: set<int>)
    ensures Elems(Keep(s, k)) == Elems(s) * k
    ensures |Keep(s, k)| == |s| <==> forall x :: x in s ==> x in k
    ensures |Keep(s, k)| == |s| ==> Keep(s, k) == s
    ensures Valid(s) ==> Valid(Keep(s, k))
  {
    KeepElems(s, k);
    KeepSame(s, k);
    if Valid(s) {
      KeepValid(s, k);
    }
  }

  lemma {:induction false} KeepElems(s: seq<int>, k: set<int>)
    ensures Elems(Keep(s, k)) == Elems(s) * k
  {
    if s != [] {
      KeepElems(s[1..], k);
      assert s == [s[0]] + s[1..];
      ElemsConcat([s[0]], s[1..]);
      ElemsConcat(if s[0] in k then [s[0]] else [], Keep(s[1..], k));
    }
  }

  lemma {:induction false} KeepSame(s: seq<int>, k: set<int>)
    ensures |Keep(s, k)| == |s| <==> forall x :: x in s ==> x in k
    ensures |Keep(s, k)| == |s| ==> Keep(s, k) == s
  {
    if s != [] {
      KeepSame(s[1..], k);
      assert forall x :: x in s <==> x == s[0] || x in s[1..];
      assert s == [s[0]] + s[1..];
    }
  }

  lemma {:induction false} KeepValid(s: seq<int>, k: set<int>)
    requires Valid(s)
    ensures Valid(Keep(s, k))
  {
    if s != [] {
      var rest := Keep(s[1..], k);
      KeepValid(s[1..], k);
      KeepElems(s[1..], k);
      forall j | 0 <= j < |rest| ensures s[0] < rest[j] {
        assert rest[j] in Elems(rest);
      }
    }
  }

  lemma {:induction false} DropConcat(a: seq<int>, b: seq<int>, d: set<int>)
    ensures Drop(a + b, d) == Drop(a, d) + Drop(b, d)
  {
    if a != [] {
      assert (a + b)[1..] == a[1..] + b;
      DropConcat(a[1..], b, d);
    } else {
      assert a + b == b;
    }
  }

  lemma {:induction false} KeepConcat(a: seq<int>, b: seq<int>, k: set<int>)
    ensures Keep(a + b, k) == Keep(a, k) + Keep(b, k)
  {
    if a != [] {
      assert (a + b)[1..] == a[1..] + b;
      KeepConcat(a[1..], b, k);
    } else {
      assert a + b == b;
    }
  }

  /** An intset is determined by the set it stands for. */
  lemma {:induction false} Unique(a: seq<int>, b: seq<int>)
    requires Valid(a) && Valid(b) && Elems(a) == Elems(b)
    ensures a == b
  {
    assert a != [] ==> a[0] in Elems(a);
    assert b != [] ==> b[0] in Elems(b);
    if a != [] && b != [] {
      assert b[0] <= a[0] by { assert a[0] in Elems(b); }
      assert a[0] <= b[0] by { assert b[0] in Elems(a); }
      assert Elems(a[1..]) == Elems(a) - {a[0]};
      assert Elems(b[1..]) == Elems(b) - {b[0]};
      Unique(a[1..], b[1..]);
      assert a == [a[0]] + a[1..];
      assert b == [b[0]] + b[1..];
    }
  }

  /** The intset 1, 2, ..., max (empty when max < 1). */
  function Range(max: int): seq<int> {
    seq(if max < 1 then 0 else max, i => i + 1)
  }

  lemma RangeMembers(max: int)
    ensures Valid(Range(max))
    ensures forall x :: x in Range(max) <==> 1 <= x <= max
  {
    var r := Range(max);
    forall x | 1 <= x <= max ensures x in r {
      assert r[x - 1] == x;
    }
  }

  /** newIntsetRange: builds 1, 2, ..., max element by element. */
  method NewRange(max: int) returns (r: seq<int>)
    ensures r == Range(max)
    ensures Valid(r)
    ensures forall x :: x in r <==> 1 <= x <= max
  {
    RangeMembers(max);
    if max < 1 {
      return [];
    }
    r := seq(max, _ => 0);
    var i := 0;
    while i < max
      invariant 0 <= i <= max && |r| == max
      invariant forall k :: 0 <= k < i ==> r[k] == k + 1
    {
      r := r[i := i + 1];
      i := i + 1;
    }
  }

  /** find: the position where v is, or where it would be inserted. */
  method Find(s: seq<int>, v: int) returns (where: nat, found: bool)
    requires Valid(s)
    ensures where <= |s|
    ensures found <==> v in s
    ensures found ==> where < |s| && s[where] == v
    ensures forall k :: 0 <= k < where ==> s[k] < v
    ensures !found ==> forall k :: where <= k < |s| ==> v < s[k]
  {
    var end := |s|;
    where := end;
    var i := 0;
    while i < end
      invariant 0 <= i <= end
      invariant forall k :: 0 <= k < i ==> s[k] < v
    {
      if s[i] == v {
        return i, true;
      }
      if s[i] > v {
        where := i;
        break;
      }
      i := i + 1;
    }
    found := false;
  }

  /** insert: adds v at its sorted position; reports whether v was there. */
  method Insert(s: seq<int>, v: int) returns (r: seq<int>, present: bool)
    requires Valid(s)
    ensures Valid(r) && Elems(r) == Elems(s) + {v}
    ensures present <==> v in s
    ensures present ==> r == s
    ensures |r| == if present then |s| else |s| + 1
  {
    var end := |s|;
    var where, found := Find(s, v);
    if found {
      return s, true;
    }
    // lengthen, shift the tail up by one, and put v in the gap
    r := s + [v];
    if where < end {
      r := r[..where + 1] + r[where..end];
      r := r[where := v];
    }
    assert r == s[..where] + [v] + s[where..];
    assert Elems(r) == Elems(s) + {v} by {
      assert s == s[..where] + s[where..];
    }
    present := false;
  }

  /** remove: deletes v if present; reports whether it was. */
  method Remove(s: seq<int>, v: int) returns (r: seq<int>, removed: bool)
    requires Valid(s)
    ensures removed <==> v in s
    ensures r == Drop(s, {v})
    ensures Valid(r) && Elems(r) == Elems(s) - {v}
    ensures !removed ==> r == s
  {
    var end := |s|;
    var i := 0;
    while i < end
      invariant 0 <= i <= end
      invariant forall k :: 0 <= k < i ==> s[k] < v
    {
      var pv := s[i];
      if pv == v {
        // shift the tail down by one and shorten
        r := s[..i] + s[i + 1..];
        Around(s, i);
        DropAt(s, i, {v});
        DropProps(s, {v});
        return r, true;
      }
      if pv > v {
        NotInSorted(s, i, v);
        DropAbsent(s, v);
        return s, false;
      }
      i := i + 1;
    }
    DropAbsent(s, v);
    return s, false;
  }

  /** Dropping a set that of all of s meets only s[i] cuts out that position. */
  lemma DropAt(s: seq<int>, i: int, d: set<int>)
    requires 0 <= i < |s| && s[i] in d
    requires forall x :: x in s[..i] ==> x !in d
    requires forall x :: x in s[i + 1..] ==> x !in d
    ensures Drop(s, d) == s[..i] + s[i + 1..]
  {
    var a, b := s[..i], s[i + 1..];
    var t := [s[i]] + b;
    assert Drop(s, d) == Drop(a, d) + Drop(t, d) by {
      assert s == a + t;
      DropConcat(a, t, d);
    }
    assert Drop(t, d) == Drop(b, d) by {
      assert t[1..] == b;
    }
    assert Drop(a, d) == a by { DropSame(a, d); }
    assert Drop(b, d) == b by { DropSame(b, d); }
  }

  /** In an intset, what precedes position i is below s[i] and what follows is above. */
  lemma Around(s: seq<int>, i: int)
    requires Valid(s) && 0 <= i < |s|
    ensures s[i] !in s[..i] && s[i] !in s[i + 1..]
  {
    var a, b := s[..i], s[i + 1..];
    forall k | 0 <= k < |a| ensures a[k] != s[i] {
      assert a[k] == s[k];
    }
    forall k | 0 <= k < |b| ensures b[k] != s[i] {
      assert b[k] == s[i + 1 + k];
    }
  }

  /** Removing the element at position i keeps the elements before it. */
  lemma DropAtPrefix(s: seq<int>, i: int)
    requires Valid(s) && 0 <= i < |s|
    ensures |Drop(s, {s[i]})| == |s| - 1 && Drop(s, {s[i]})[..i] == s[..i]
  {
    Around(s, i);
    DropAt(s, i, {s[i]});
    assert (s[..i] + s[i + 1..])[..i] == s[..i];
  }

  /** Removing v leaves an intset empty exactly when the intset was [v]. */
  lemma EmptiedBy(s: seq<int>, v: int)
    requires Valid(s)
    ensures (v in s && Drop(s, {v}) == []) <==> s == [v]
  {
    if v in s && Drop(s, {v}) == [] {
      DropElems(s, {v});
      assert Elems(s) == Elems([v]);
      Unique(s, [v]);
    }
    if s == [v] {
      assert Drop(s, {v}) == [] + Drop([], {v});
    }
  }

  /** Dropping an absent value changes nothing. */
  lemma DropAbsent(s: seq<int>, v: int)
    requires v !in s
    ensures Drop(s, {v}) == s
  {
    DropSame(s, {v});
  }

  /** Extending a merged prefix by one element. */
  lemma DropSnoc(s: seq<int>, i: int, d: set<int>)
    requires 0 <= i < |s|
    ensures Drop(s[..i + 1], d) == Drop(s[..i], d) + (if s[i] in d then [] else [s[i]])
  {
    assert s[..i + 1] == s[..i] + [s[i]];
    DropConcat(s[..i], [s[i]], d);
  }

  lemma KeepSnoc(s: seq<int>, i: int, k: set<int>)
    requires 0 <= i < |s|
    ensures Keep(s[..i + 1], k) == Keep(s[..i], k) + (if s[i] in k then [s[i]] else [])
  {
    assert s[..i + 1] == s[..i] + [s[i]];
    KeepConcat(s[..i], [s[i]], k);
  }

  /** A value below xs[xi] and above everything before it is not in xs. */
  lemma NotInSorted(xs: seq<int>, xi: int, v: int)
    requires Valid(xs) && 0 <= xi < |xs| && v < xs[xi]
    requires forall k :: 0 <= k < xi ==> xs[k] < v
    ensures v !in Elems(xs)
  {
    forall k | 0 <= k < |xs| ensures xs[k] != v {
      if k > xi { assert xs[xi] < xs[k]; }
    }
  }

  /** Membership in a prefix grown by one element. */
  lemma PrefixIn(s: seq<int>, i: int, x: int)
    requires 0 <= i < |s|
    ensures x in s[..i + 1] <==> x in s[..i] || x == s[i]
  {
    assert s[..i + 1] == s[..i] + [s[i]];
  }

  /** Membership in s is membership in one of its two parts. */
  lemma SplitIn(s: seq<int>, i: int, x: int)
    requires 0 <= i <= |s|
    ensures x in s <==> x in s[..i] || x in s[i..]
  {
    assert s == s[..i] + s[i..];
  }

  /** When a merge stops, the unexamined tail of s has nothing in common with xs:
      either the tail is empty or every element of xs was passed, each below the
      tail's first element. */
  lemma MergeTail(s: seq<int>, xs: seq<int>, pi: int, xi: int)
    requires Valid(s) && 0 <= pi <= |s| && 0 <= xi <= |xs| && (pi == |s| || xi == |xs|)
    requires forall k :: 0 <= k < xi && pi < |s| ==> xs[k] < s[pi]
    ensures forall x :: x in s[pi..] ==> x !in Elems(xs)
  {
    var t := s[pi..];
    forall j | 0 <= j < |t| ensures t[j] !in Elems(xs) {
      assert t[j] == s[pi + j];
      forall k | 0 <= k < |xs| ensures xs[k] != t[j] {
        assert xs[k] < s[pi];
        if j > 0 { assert s[pi] < s[pi + j]; }
      }
    }
  }

  /** Dropping from a split sequence whose tail is untouched. */
  lemma DropSplit(s: seq<int>, pi: int, d: set<int>)
    requires 0 <= pi <= |s|
    requires forall x :: x in s[pi..] ==> x !in d
    ensures Drop(s, d) == Drop(s[..pi], d) + s[pi..]
  {
    assert Drop(s, d) == Drop(s[..pi], d) + Drop(s[pi..], d) by {
      assert s == s[..pi] + s[pi..];
      DropConcat(s[..pi], s[pi..], d);
    }
    DropSame(s[pi..], d);
  }

  /** Keeping from a split sequence whose tail is all dropped. */
  lemma KeepSplit(s: seq<int>, pi: int, k: set<int>)
    requires 0 <= pi <= |s|
    requires forall x :: x in s[pi..] ==> x !in k
    ensures Keep(s, k) == Keep(s[..pi], k)
  {
    assert Keep(s, k) == Keep(s[..pi], k) + Keep(s[pi..], k) by {
      assert s == s[..pi] + s[pi..];
      KeepConcat(s[..pi], s[pi..], k);
    }
    KeepNone(s[pi..], k);
  }

  /** Keeping from a sequence none of whose elements is kept gives nothing. */
  lemma {:induction false} KeepNone(s: seq<int>, k: set<int>)
    requires forall x :: x in s ==> x !in k
    ensures Keep(s, k) == []
  {
    if s != [] {
      var h := s[0];
      assert h in s;
      assert h !in k;
      assert forall x :: x in s[1..] ==> x in s;
      KeepNone(s[1..], k);
    }
  }

  /** Writing the element at pi down to slot newend (as the merges do)
      extends the kept prefix by it and leaves the unexamined tail alone. */
  lemma Overwrite(ps: seq<int>, newend: int, pi: int)
    requires 0 <= newend <= pi < |ps|
    ensures var q := if newend != pi then ps[newend := ps[pi]] else ps;
      |q| == |ps| && q[..newend + 1] == ps[..newend] + [ps[pi]] && forall k :: pi < k < |ps| ==> q[k] == ps[k]
  {
  }

  /** When the merge of subtract stops, the kept prefix followed by the
      unexamined tail is s without the elements of xs, and no element of
      the tail is in xs. */
  lemma SubtractDone(s: seq<int>, xs: seq<int>, ps: seq<int>, pi: int, xi: int, newend: int)
    requires Valid(s) && 0 <= newend <= pi <= |s| == |ps| && 0 <= xi <= |xs| && (pi == |s| || xi == |xs|)
    requires forall k :: pi <= k < |s| ==> ps[k] == s[k]
    requires ps[..newend] == Drop(s[..pi], Elems(xs))
    requires forall k :: 0 <= k < xi && pi < |s| ==> xs[k] < s[pi]
    ensures Drop(s, Elems(xs)) == ps[..newend] + ps[pi..]
    ensures forall x :: x in s[pi..] ==> x !in xs
  {
    MergeTail(s, xs, pi, xi);
    DropSplit(s, pi, Elems(xs));
    assert ps[pi..] == s[pi..];
    forall x | x in s[pi..] ensures x !in xs {
      assert x !in Elems(xs);
    }
  }

  /** subtract: removes the elements of xs by a single merge over both
      sorted sequences.  Reports whether anything was removed and whether
      the marker was among the removed values; when nothing is removed the
      sequence comes back untouched. */
  method Subtract(s: seq<int>, xs: seq<int>, marker: int)
    returns (r: seq<int>, changed: bool, remMarker: bool)
    requires Valid(s) && Valid(xs)
    ensures r == Drop(s, Elems(xs))
    ensures changed <==> |r| < |s|
    ensures !changed ==> r == s
    ensures remMarker <==> marker in s && marker in xs
  {
    ghost var e := Elems(xs);
    var ps := s;
    var pend, xend := |s|, |xs|;
    var pi, xi, newend := 0, 0, 0;
    remMarker := false;
    while pi < pend && xi < xend
      invariant 0 <= newend <= pi <= pend && 0 <= xi <= xend && |ps| == pend
      invariant forall k :: pi <= k < pend ==> ps[k] == s[k]
      invariant ps[..newend] == Drop(s[..pi], e)
      invariant newend == pi ==> !remMarker
      invariant remMarker <==> marker in s[..pi] && marker in xs
      invariant forall k :: 0 <= k < xi && pi < pend ==> xs[k] < s[pi]
      decreases pend - pi + xend - xi
    {
      var pv, xv := ps[pi], xs[xi];
      PrefixIn(s, pi, marker);
      ghost var kept := ps[..newend];
      if pv == xv {
        assert Drop(s[..pi + 1], e) == kept by {
          assert pv in e;
          DropSnoc(s, pi, e);
        }
        if pv == marker {
          remMarker := true;
        }
        pi, xi := pi + 1, xi + 1;
      } else if pv < xv {
        assert Drop(s[..pi + 1], e) == kept + [pv] by {
          NotInSorted(xs, xi, pv);
          DropSnoc(s, pi, e);
        }
        Overwrite(ps, newend, pi);
        if newend != pi {
          ps := ps[newend := pv];
        }
        newend, pi := newend + 1, pi + 1;
      } else {
        xi := xi + 1;
      }
    }
    SubtractDone(s, xs, ps, pi, xi, newend);
    assert remMarker <==> marker in s && marker in xs by {
      SplitIn(s, pi, marker);
    }
    if newend == pi {
      // nothing was removed
      assert Drop(s, e) == s by {
        DropSame(s, e);
      }
      return s, false, false;
    }
    // move the unexamined tail down and shorten
    r := ps[..newend] + ps[pi..];
    changed := true;
  }

  /** intersect: keeps only the elements of xs by a single merge over both
      sorted sequences.  Reports whether anything was dropped and whether
      the marker was present and did not survive. */
  method Intersect(s: seq<int>, xs: seq<int>, marker: int)
    returns (r: seq<int>, changed: bool, lostMarker: bool)
    requires Valid(s) && Valid(xs)
    ensures r == Keep(s, Elems(xs))
    ensures changed <==> |r| < |s|
    ensures lostMarker <==> marker in s && marker !in xs
  {
    ghost var e := Elems(xs);
    var ps := s;
    var pend, xend := |s|, |xs|;
    var sawMarker, savedMarker := false, false;
    var pi, xi, newend := 0, 0, 0;
    while pi < pend && xi < xend
      invariant 0 <= newend <= pi <= pend && 0 <= xi <= xend && |ps| == pend
      invariant forall k :: pi <= k < pend ==> ps[k] == s[k]
      invariant ps[..newend] == Keep(s[..pi], e)
      invariant marker in s[..pi] ==> sawMarker
      invariant sawMarker ==> marker in s
      invariant savedMarker <==> marker in s[..pi] && marker in xs
      invariant forall k :: 0 <= k < xi && pi < pend ==> xs[k] < s[pi]
      decreases pend - pi + xend - xi
    {
      var pv, xv := ps[pi], xs[xi];
      PrefixIn(s, pi, marker);
      assert pi + 1 < pend ==> s[pi] < s[pi + 1];
      if pv == marker {
        sawMarker := true;
      }
      ghost var kept := ps[..newend];
      if pv == xv {
        assert Keep(s[..pi + 1], e) == kept + [pv] by {
          assert pv in e;
          KeepSnoc(s, pi, e);
        }
        if pv == marker {
          savedMarker := true;
        }
        Overwrite(ps, newend, pi);
        if newend != pi {
          ps := ps[newend := pv];
        }
        newend, pi, xi := newend + 1, pi + 1, xi + 1;
      } else if pv < xv {
        assert Keep(s[..pi + 1], e) == kept by {
          NotInSorted(xs, xi, pv);
          KeepSnoc(s, pi, e);
        }
        pi := pi + 1;
      } else {
        xi := xi + 1;
      }
    }
    MergeTail(s, xs, pi, xi);
    KeepSplit(s, pi, e);
    assert |Keep(s, e)| == newend;
    // look for the marker in the dropped tail
    var ti := pi;
    while ti < pend
      invariant pi <= ti <= pend
      invariant marker in s[..ti] ==> sawMarker
      invariant sawMarker ==> marker in s
    {
      PrefixIn(s, ti, marker);
      if ps[ti] == marker {
        sawMarker := true;
      }
      ti := ti + 1;
    }
    assert s[..pend] == s;
    assert savedMarker <==> marker in s && marker in xs by {
      SplitIn(s, pi, marker);
    }
    r := ps[..newend];
    changed := newend < pend;
    lostMarker := sawMarker && !savedMarker;
  }
}
