/** The handle table `resources_table_` as the resource manager relies on
    it. The table's own slot recycling and generation counting are not part
    of this model: insert is only known to return a key that is not live,
    and erase to drop exactly the key it is given. */
module Handles {

  /** The table_info insert hands back: a slot index and its generation. */
  datatype SlotInfo = SlotInfo(index: nat, generation: nat)

  /** The largest slot index among `live` (0 when there is none). */
  ghost function MaxIndex(live: set<SlotInfo>): (m: nat)
    ensures forall s :: s in live ==> s.index <= m
    decreases live
  {
    if live == {} then 0
    else
      var s :| s in live;
      var rest := MaxIndex(live - {s});
      if s.index > rest then s.index else rest
  }

  /** Finitely many live keys never exhaust the key space, so insert can
      always hand out a key that is not live. */
  lemma FreeSlotExists(live: set<SlotInfo>)
    ensures exists s :: s !in live
  {
    var s := SlotInfo(MaxIndex(live) + 1, 0);
    assert s !in live;
  }

  /** A table from live keys to the resources registered under them. */
  class HandleTable<R> {
    var entries: map<SlotInfo, R>

    constructor ()
      ensures entries == map[]
    {
      entries := map[];
    }

    /** Registers `resource` under a key that was not live. */
    method Insert(resource: R) returns (info: SlotInfo)
      modifies this
      ensures info !in old(entries)
      ensures entries == old(entries)[info := resource]
    {
      FreeSlotExists(entries.Keys);
      info :| info !in entries;
      entries := entries[info := resource];
    }

    /** Drops exactly the entry under `info`. */
    method Erase(info: SlotInfo)
      modifies this
      ensures entries == old(entries) - {info}
    {
      entries := entries - {info};
    }
  }
}
