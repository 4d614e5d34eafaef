/**
 * The `Reading` entity: a mutable object whose SKU property lower-cases whatever it is given
 * and refuses null, and whose other properties start at fixed defaults.
 */
module Models {
  import opened Wrappers
  import opened Text
  import opened Entities
  import opened Inventory

  class Reading {
    var id: nat
    var warehouseId: nat
    var commodityId: nat
    /** The private backing field `_sku`; only `SetSku` writes it. */
    var sku: string
    var unitOfMeasure: string
    var quantity: real
    var batchNumber: Option<string>
    var warehouseZone: string
    var operatorId: Option<nat>
    var createdBy: string
    var source: string
    var occurredAt: Ticks
    var createdAt: Ticks
    var metadata: string

    /** The backing field only ever holds what the setter produced: no upper-case letter. */
    ghost predicate Valid()
      reads this
    {
      NoUpper(sku)
    }

    /** A fresh reading carries the property initializers' defaults. */
    constructor()
      ensures Valid()
      ensures sku == [] && unitOfMeasure == [] && createdBy == []
      ensures warehouseZone == "DEFAULT" && source == "manual" && metadata == "{}"
      ensures batchNumber == None && operatorId == None
      ensures id == 0 && warehouseId == 0 && commodityId == 0 && quantity == 0.0
      ensures occurredAt == UnsetTime && createdAt == UnsetTime
    {
      id := 0;
      warehouseId := 0;
      commodityId := 0;
      sku := [];
      unitOfMeasure := [];
      quantity := 0.0;
      batchNumber := None;
      warehouseZone := "DEFAULT";
      operatorId := None;
      createdBy := [];
      source := "manual";
      occurredAt := UnsetTime;
      createdAt := UnsetTime;
      metadata := "{}";
    }

    /** The `Sku` setter: null is refused (the field keeps its value), anything else is stored
        lower-cased, so the stored SKU equals the given one up to case and holds no capital;
        assigning back the SKU the reading already has changes nothing. */
    method SetSku(value: Option<string>) returns (r: Result<(), ServiceError>)
      modifies this`sku
      ensures value.None? ==> r == Failure(NullArgument) && sku == old(sku)
      ensures value.Some? ==> r == Success(()) && sku == Lower(value.value)
      ensures value.Some? ==> SameIgnoringCase(sku, value.value) && NoUpper(sku)
      ensures old(Valid()) ==> Valid()
      ensures old(Valid()) && value == Some(old(sku)) ==> sku == old(sku)
    {
      if value.None? {
        return Failure(NullArgument);
      }
      LowerIsCanonical(value.value);
      LowerIdempotent(value.value);
      LowerFixedPoint(sku);
      sku := Lower(value.value);
      r := Success(());
    }

    /** The row the store persists for this reading. */
    function Snapshot(): (rec: InventoryRecord)
      reads this
      ensures Valid() ==> NoUpper(rec.sku)
    {
      InventoryRecord(id, warehouseId, commodityId, sku, unitOfMeasure, quantity, warehouseZone,
                      operatorId, createdBy, source, occurredAt, createdAt, metadata)
    }
  }
}
