/** The puzzle geometry: which squares form which groups.  The mapping is
    produced by geometry-specific code outside this model and is only read
    here; it is shared, unchanged, by every puzzle of the same shape.

    Squares are numbered 1..scount and groups 1..gcount, as in the source.
    The source keeps its per-group and per-square tables in slices with an
    unused slot 0; here group g is described by gdescs[g - 1] and the groups
    containing square i are listed by ixmap[i - 1]. */
module Geometry {
  import IntSets

  /** A group's name: its type (row, column, tile, ...) and 1-based number. */
  datatype GroupId = GroupId(gtype: string, index: int)

  /** A group's name and the ascending indices of its squares. */
  datatype GroupDescriptor = GroupDescriptor(id: GroupId, indices: seq<int>)

  /** The mapping for one geometry and side length. */
  datatype Mapping = Mapping(
    geometry: string,
    sidelen: int,
    scount: int,
    gcount: int,
    gdescs: seq<GroupDescriptor>,
    ixmap: seq<seq<int>>)

  /** What the model relies on in a mapping: the tables have the declared
      sizes, every group descriptor is an intset of exactly sidelen square
      indices, and ixmap names only existing groups. */
  predicate WellFormed(m: Mapping) {
    && m.sidelen >= 1
    && m.scount >= 0 && m.gcount >= 0
    && |m.gdescs| == m.gcount && |m.ixmap| == m.scount
    && (forall g :: 0 <= g < m.gcount ==> GroupOk(m.gdescs[g], m.sidelen, m.scount))
    && (forall i :: 0 <= i < m.scount ==> IntSets.Within(m.ixmap[i], 1, m.gcount))
  }

  /** A group descriptor lists sidelen distinct squares in ascending order. */
  predicate GroupOk(gd: GroupDescriptor, sidelen: int, scount: int) {
    && |gd.indices| == sidelen
    && IntSets.Valid(gd.indices)
    && IntSets.Within(gd.indices, 1, scount)
  }
}
