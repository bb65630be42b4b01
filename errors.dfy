/** Structured errors.  An error records where the problem lies (its scope),
    how it is described (its structure), the attribute concerned, a
    condition code and the values that locate it.  Errors are values and
    are returned, never raised. */
module Errors {
  import opened Geometry

  datatype Scope = ArgumentScope | SquareScope | GroupScope

  datatype Structure = ScopeStructure | AttributeValueStructure

  /** NoAttribute stands for the empty attribute of scope-only errors. */
  datatype Attribute =
    | NoAttribute
    | IndexAttribute | ValueAttribute
    | AssignedValueAttribute | BoundValueAttribute
    | RemovedValueAttribute | RemovedValuesAttribute | RetainedValuesAttribute
    | SummaryAttribute | GeometryAttribute | SideLengthAttribute | PuzzleSizeAttribute

  datatype Condition =
    | TooSmallCondition | TooLargeCondition
    | NotInSetCondition | NoPossibleValuesCondition
    | NoGroupValueCondition | DuplicateGroupValuesCondition
    | InvalidPuzzleAssignmentCondition | DuplicateAssignmentCondition
    | InvalidArgumentCondition | UnknownGeometryCondition
    | WrongPuzzleSizeCondition | MismatchedSummaryErrorsCondition

  /** One value of an error's payload. */
  datatype Datum =
    | IntDatum(n: int)
    | SetDatum(s: seq<int>)
    | GroupDatum(gid: GroupId)
    | TextDatum(t: string)
    | ErrorsDatum(es: seq<Error>)

  datatype Error = Error(
    scope: Scope,
    structure: Structure,
    attribute: Attribute,
    condition: Condition,
    values: seq<Datum>)

  datatype Result<T> = Ok(value: T) | Fail(error: Error)

  /** A group-scope error (an unsatisfiable group). */
  predicate IsGroupError(e: Error) {
    e.scope == GroupScope && e.structure == ScopeStructure
  }

  /** argumentError: an invalid summary or puzzle argument. */
  function ArgumentError(attr: Attribute, cond: Condition, values: seq<Datum>): (e: Error)
    ensures e.scope == ArgumentScope && e.structure == AttributeValueStructure
    ensures e.attribute == attr && e.condition == cond && e.values == values
  {
    Error(ArgumentScope, AttributeValueStructure, attr, cond, values)
  }

  /** rangeError: an argument outside [min, max].  The error reports
      TooSmall with the lower bound when val < min, and otherwise TooLarge
      with the upper bound. */
  function RangeError(attr: Attribute, val: int, min: int, max: int): (e: Error)
    ensures e.scope == ArgumentScope && e.structure == AttributeValueStructure
    ensures e.attribute == attr
    ensures e.condition == TooSmallCondition <==> val < min
    ensures e.condition == TooSmallCondition || e.condition == TooLargeCondition
    ensures |e.values| == 2 && e.values[0] == IntDatum(val)
    ensures e.values[1] == IntDatum(if e.condition == TooSmallCondition then min else max)
  {
    if val < min then
      Error(ArgumentScope, AttributeValueStructure, attr, TooSmallCondition, [IntDatum(val), IntDatum(min)])
    else
      Error(ArgumentScope, AttributeValueStructure, attr, TooLargeCondition, [IntDatum(val), IntDatum(max)])
  }

  /** squareError: an operation on square `index` that would break one of
      its constraints.  Only the NotInSet and NoPossibleValues conditions are
      square errors; a NotInSet error also carries the square's possible
      values. */
  function SquareError(index: int, v: Datum, attr: Attribute, cond: Condition, pvals: seq<int>): (e: Error)
    requires cond == NotInSetCondition || cond == NoPossibleValuesCondition
    ensures e.scope == SquareScope && e.structure == AttributeValueStructure
    ensures e.attribute == attr && e.condition == cond
    ensures |e.values| == (if cond == NotInSetCondition then 3 else 2)
    ensures e.values[..2] == [IntDatum(index), v]
    ensures cond == NotInSetCondition ==> e.values[2] == SetDatum(pvals)
  {
    var base := [IntDatum(index), v];
    Error(SquareScope, AttributeValueStructure, attr, cond,
      if cond == NotInSetCondition then base + [SetDatum(pvals)] else base)
  }

  /** groupError: group gid cannot be satisfied for value v.  Only the
      NoGroupValue and DuplicateGroupValues conditions are group errors. */
  function GroupError(gid: GroupId, v: int, cond: Condition): (e: Error)
    requires cond == NoGroupValueCondition || cond == DuplicateGroupValuesCondition
    ensures IsGroupError(e) && e.attribute == NoAttribute && e.condition == cond
    ensures e.values == [GroupDatum(gid), IntDatum(v)]
  {
    Error(GroupScope, ScopeStructure, NoAttribute, cond, [GroupDatum(gid), IntDatum(v)])
  }

  /** The number of errors in es with condition cond. */
  function CountOf(es: seq<Error>, cond: Condition): nat {
    if es == [] then 0 else (if es[0].condition == cond then 1 else 0) + CountOf(es[1..], cond)
  }

  lemma {:induction false} CountOfConcat(a: seq<Error>, b: seq<Error>, cond: Condition)
    ensures CountOf(a + b, cond) == CountOf(a, cond) + CountOf(b, cond)
  {
    if a != [] {
      assert (a + b)[1..] == a[1..] + b;
      CountOfConcat(a[1..], b, cond);
    } else {
      assert a + b == b;
    }
  }

  /** When every error has condition cond, all of them count for cond and
      none for any other condition. */
  lemma {:induction false} CountOfUniform(es: seq<Error>, cond: Condition, other: Condition)
    requires forall i :: 0 <= i < |es| ==> es[i].condition == cond
    requires other != cond
    ensures CountOf(es, cond) == |es| && CountOf(es, other) == 0
  {
    if es != [] {
      CountOfUniform(es[1..], cond, other);
    }
  }
  /** Errors of three distinct conditions are at most all the errors. */
  lemma {:induction false} CountOfBound(es: seq<Error>, a: Condition, b: Condition, c: Condition)
    requires a != b && b != c && a != c
    ensures CountOf(es, a) + CountOf(es, b) + CountOf(es, c) <= |es|
  {
    if es != [] {
      CountOfBound(es[1..], a, b, c);
    }
  }

  /** No error of es has a condition that CountOf does not find. */
  lemma {:induction false} CountOfNone(es: seq<Error>, cond: Condition)
    requires CountOf(es, cond) == 0
    ensures forall e :: e in es ==> e.condition != cond
  {
    if es != [] {
      CountOfNone(es[1..], cond);
      forall e | e in es ensures e.condition != cond {
        if e != es[0] {
          assert e in es[1..];
        }
      }
    }
  }

  /** When the errors of es all have condition a or b, none has any other. */
  lemma OnlyTwo(es: seq<Error>, a: Condition, b: Condition, c: Condition)
    requires a != b && b != c && a != c
    requires |es| == CountOf(es, a) + CountOf(es, b)
    ensures forall e :: e in es ==> e.condition != c
  {
    CountOfBound(es, a, b, c);
    CountOfNone(es, c);
  }
}
