/**
 * The database context: the tables the services read and append to, and the audit-stamping
 * loop `SaveChangesAsync` runs over the tracked warehouse entries before the underlying save.
 */
module Data {
  import opened Wrappers
  import opened Entities
  import Inventory

  /** The states of the change tracker. */
  datatype EntityState = Detached | Unchanged | Deleted | Modified | Added

  /** A tracked warehouse entry: its state and the entity it refers to. */
  datatype WarehouseEntry = WarehouseEntry(state: EntityState, entity: Warehouse)

  /** What the loop body does to one entry: Added entries get `CreatedAt`, Modified ones
      `UpdatedAt`, every other entry is left alone. */
  function StampEntry(e: WarehouseEntry, now: Ticks): WarehouseEntry {
    match e.state
    case Added => e.(entity := e.entity.(createdAt := now))
    case Modified => e.(entity := e.entity.(updatedAt := Some(now)))
    case _ => e
  }

  /** The audit policy of one entry: which audit field it sets, and that it changes nothing else. */
  lemma StampEntryEffect(e: WarehouseEntry, now: Ticks)
    ensures StampEntry(e, now).state == e.state
    ensures e.state == Added ==>
              StampEntry(e, now).entity == e.entity.(createdAt := now)
              && StampEntry(e, now).entity.updatedAt == e.entity.updatedAt
    ensures e.state == Modified ==>
              StampEntry(e, now).entity == e.entity.(updatedAt := Some(now))
              && StampEntry(e, now).entity.createdAt == e.entity.createdAt
    ensures e.state !in {Added, Modified} ==> StampEntry(e, now) == e
  {
  }

  /** Stamping twice at the same instant is the same as stamping once. */
  lemma StampEntryIdempotent(e: WarehouseEntry, now: Ticks)
    ensures StampEntry(StampEntry(e, now), now) == StampEntry(e, now)
  {
  }

  class LogisticsDb {
    var warehouses: seq<Warehouse>
    var commodities: seq<Commodity>
    var operators: seq<Operator>
    var stocks: seq<Inventory.InventoryRecord>
    var readings: seq<Inventory.InventoryRecord>

    constructor(warehouses: seq<Warehouse>, commodities: seq<Commodity>, operators: seq<Operator>)
      ensures this.warehouses == warehouses && this.commodities == commodities
      ensures this.operators == operators && stocks == [] && readings == []
    {
      this.warehouses := warehouses;
      this.commodities := commodities;
      this.operators := operators;
      stocks := [];
      readings := [];
    }

    /** The body of `SaveChangesAsync` before it hands over to the base save: one pass over the
        tracked warehouse entries, each visited once and stamped in place. */
    method StampAuditFields(entries: array<WarehouseEntry>, now: Ticks)
      modifies entries
      ensures forall i | 0 <= i < entries.Length :: entries[i] == StampEntry(old(entries[i]), now)
    {
      for i := 0 to entries.Length
        invariant forall k | 0 <= k < i :: entries[k] == StampEntry(old(entries[k]), now)
        invariant forall k | i <= k < entries.Length :: entries[k] == old(entries[k])
      {
        var entry := entries[i];
        if entry.state == Added {
          entries[i] := entry.(entity := entry.entity.(createdAt := now));
        } else if entry.state == Modified {
          entries[i] := entry.(entity := entry.entity.(updatedAt := Some(now)));
        }
      }
    }
  }
}
