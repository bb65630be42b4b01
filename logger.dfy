/** The index logger: an on/off switch and an intset of logged indices.
    Squares report every change to their logger; the indices only
    accumulate while a logging session is running. */
module Logging {
  import IntSets

  /** Across an operation the logger stayed valid, kept its switch, and
      gained exactly the indices idxs if it was logging (none otherwise). */
  twostate predicate Noted(l: IndexLogger, idxs: set<int>)
    reads l
  {
    && l.Valid()
    && l.logging == old(l.logging)
    && l.Elements() == old(l.Elements()) + (if l.logging then idxs else {})
  }

  class IndexLogger {
    var logging: bool
    var entries: seq<int>

    /** The entries always form an intset. */
    predicate Valid()
      reads this
    {
      IntSets.Valid(entries)
    }

    /** The set of indices logged so far. */
    function Elements(): set<int>
      reads this
    {
      IntSets.Elems(entries)
    }

    /** A fresh logger is off and empty. */
    constructor ()
      ensures Valid() && !logging && entries == []
    {
      logging := false;
      entries := [];
    }

    /** start: turns logging on with idx as the only entry. */
    method Start(idx: int)
      modifies this
      ensures Valid() && logging && entries == [idx]
    {
      logging := true;
      entries := [idx];
    }

    /** stop: turns logging off and keeps the entries. */
    method Stop()
      modifies this
      ensures !logging && entries == old(entries)
    {
      logging := false;
    }

    /** log: records idx while logging is on; does nothing otherwise. */
    method Log(idx: int)
      requires Valid()
      modifies this
      ensures Valid() && logging == old(logging)
      ensures Elements() == old(Elements()) + if logging then {idx} else {}
      ensures !logging ==> entries == old(entries)
      ensures idx in old(Elements()) ==> entries == old(entries)
    {
      if logging {
        var present;
        entries, present := IntSets.Insert(entries, idx);
      }
    }
  }
}
