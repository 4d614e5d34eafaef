/**
 * The reading service: the same checks and defaults as the stock service, but the row is built
 * through a `Reading` object whose SKU setter lower-cases the commodity's SKU.
 */
module Readings {
  import opened Wrappers
  import opened Text
  import opened Collections
  import opened Entities
  import opened Inventory
  import opened Models
  import Data
  import Stocks

  /** The outcome of `CreateReadingAsync` against the tables as they are. The row is exactly the
      one the stock service would append for the same request, except that its SKU has been
      through the lower-casing setter. */
  function ReadingToCreate(ws: seq<Warehouse>, cs: seq<Commodity>, ops: seq<Operator>,
                           readings: seq<InventoryRecord>, req: MovementRequest, now: Ticks, storeNow: Ticks)
    : (r: Result<InventoryRecord, ServiceError>)
    ensures r.Failure? <==> ValidateMovement(ws, cs, ops, req).Failure?
    ensures r.Failure? ==> r.error == ValidateMovement(ws, cs, ops, req).error
    ensures r.Success? ==>
              var stock := Stocks.StockToCreate(ws, cs, ops, readings, req, now, storeNow);
              && stock.Success?
              && r.value == stock.value.(sku := Lower(stock.value.sku))
              && NoUpper(r.value.sku) && SameIgnoringCase(r.value.sku, stock.value.sku)
  {
    match ValidateMovement(ws, cs, ops, req)
    case Failure(e) => Failure(e)
    case Success((w, c)) =>
      LowerIsCanonical(c.sku);
      LowerIdempotent(c.sku);
      Success(BuildRecord(w, c, req, |readings| + 1, now, storeNow).(sku := Lower(c.sku)))
  }

  class ReadingService {
    const db: Data.LogisticsDb

    constructor(db: Data.LogisticsDb)
      ensures this.db == db
    {
      this.db := db;
    }

    /** `CreateReadingAsync`: on success exactly the row `ReadingToCreate` describes is appended
        and returned; on failure the Readings table is left as it was. */
    method CreateReading(req: MovementRequest, now: Ticks, storeNow: Ticks)
      returns (r: Result<InventoryResponse, ServiceError>)
      modifies db`readings
      ensures match ReadingToCreate(db.warehouses, db.commodities, db.operators, old(db.readings), req, now, storeNow)
              case Success(rec) => r == Success(ToResponse(rec)) && db.readings == old(db.readings) + [rec]
              case Failure(e) => r == Failure(e) && db.readings == old(db.readings)
    {
      if req.quantity <= 0.0 {
        return Failure(InvalidQuantity);
      }
      var warehouse := FirstWhere(db.warehouses, ActiveWarehouseWithId(req.warehouseId));
      if warehouse.None? {
        return Failure(WarehouseNotFound(req.warehouseId));
      }
      var commodity := FirstWhere(db.commodities, ActiveCommodityWithId(req.commodityId));
      if commodity.None? {
        return Failure(CommodityNotFound(req.commodityId));
      }
      if req.operatorId.Some? {
        var operatorExists := FirstIndexWhere(db.operators, OperatorWithId(req.operatorId.value)).Some?;
        if !operatorExists {
          return Failure(OperatorNotFound(req.operatorId.value));
        }
      }
      var row := NewReading(warehouse.value, commodity.value, req, |db.readings| + 1, now, storeNow);
      db.readings := db.readings + [row];
      r := Success(ToResponse(row));
    }
  }

  /** The object initializer of `CreateReadingAsync` followed by the store's save: a fresh
      `Reading` whose properties are assigned from the request, the warehouse and the commodity
      (the SKU through its setter), plus the identity value and the creation time the store
      fills in from its own clock. The row it persists is the shared record with the SKU
      lower-cased. */
  method NewReading(w: Warehouse, c: Commodity, req: MovementRequest, id: nat, now: Ticks, storeNow: Ticks)
    returns (row: InventoryRecord)
    ensures row == BuildRecord(w, c, req, id, now, storeNow).(sku := Lower(c.sku))
  {
    var reading := new Reading();
    reading.warehouseId := req.warehouseId;
    reading.commodityId := req.commodityId;
    var _ := reading.SetSku(Some(c.sku));
    reading.unitOfMeasure := c.unitOfMeasure;
    reading.quantity := req.quantity;
    reading.warehouseZone := OrDefault(req.warehouseZone, w.defaultZone);
    reading.operatorId := req.operatorId;
    reading.createdBy := OrDefault(req.createdBy, "system");
    reading.source := OrDefault(req.source, "manual");
    reading.occurredAt := req.occurredAt.GetOr(now);
    reading.metadata := OrDefault(req.metadata, "{}");
    reading.id := id;
    reading.createdAt := storeNow;
    row := reading.Snapshot();
    assert row == InventoryRecord(reading.id, reading.warehouseId, reading.commodityId, reading.sku,
                                  reading.unitOfMeasure, reading.quantity, reading.warehouseZone,
                                  reading.operatorId, reading.createdBy, reading.source,
                                  reading.occurredAt, reading.createdAt, reading.metadata);
  }

  /** `GetReadingByIdAsync`: the response of the stored row with that id, or null. */
  function GetReadingById(readings: seq<InventoryRecord>, id: nat): (r: Option<InventoryResponse>)
    ensures r.None? <==> forall i | 0 <= i < |readings| :: readings[i].id != id
    ensures r.Some? ==> FromResponse(r.value) in readings && r.value.id == id
  {
    match FindById(readings, id)
    case None => None
    case Some(rec) => Some(ToResponse(rec))
  }

  /** `GetReadingsAsync`: the rows passing every filter given (an inclusive time window on
      `OccurredAt`), newest first, at most the effective limit of them. */
  function GetReadings(readings: seq<InventoryRecord>, warehouseId: Option<nat>, commodityId: Option<nat>,
                       from: Option<Ticks>, to: Option<Ticks>, limit: int): (r: seq<InventoryResponse>)
    ensures |r| <= EffectiveLimit(limit) && |r| <= |readings|
    ensures var n := |Matching(readings, RecordFilter(warehouseId, commodityId, from, to))|;
            |r| == if n <= EffectiveLimit(limit) then n else EffectiveLimit(limit)
    ensures forall i | 0 <= i < |r| ::
              && FromResponse(r[i]) in readings
              && (warehouseId.Some? ==> r[i].warehouseId == warehouseId.value)
              && (commodityId.Some? ==> r[i].commodityId == commodityId.value)
              && (from.Some? ==> r[i].occurredAt >= from.value)
              && (to.Some? ==> r[i].occurredAt <= to.value)
    ensures forall i, j | 0 <= i < j < |r| :: r[i].occurredAt >= r[j].occurredAt
    ensures multiset(Records(r)) <= multiset(readings)
    ensures NoNewerLeftOut(readings, RecordFilter(warehouseId, commodityId, from, to), Records(r))
  {
    var f := RecordFilter(warehouseId, commodityId, from, to);
    var r := ListResponses(readings, f, limit);
    r
  }

  /** `GetReadingsByWarehouseAsync`: the general query with only the warehouse filter set; the time
      window and the limit are passed through. */
  function GetReadingsByWarehouse(readings: seq<InventoryRecord>, warehouseId: nat,
                                  from: Option<Ticks>, to: Option<Ticks>, limit: int): (r: seq<InventoryResponse>)
    ensures var n := |Matching(readings, RecordFilter(Some(warehouseId), None, from, to))|;
            |r| == if n <= EffectiveLimit(limit) then n else EffectiveLimit(limit)
    ensures forall i | 0 <= i < |r| ::
              && FromResponse(r[i]) in readings && r[i].warehouseId == warehouseId
              && (from.Some? ==> r[i].occurredAt >= from.value)
              && (to.Some? ==> r[i].occurredAt <= to.value)
    ensures forall i, j | 0 <= i < j < |r| :: r[i].occurredAt >= r[j].occurredAt
    ensures multiset(Records(r)) <= multiset(readings)
    ensures NoNewerLeftOut(readings, RecordFilter(Some(warehouseId), None, from, to), Records(r))
  {
    var r := GetReadings(readings, Some(warehouseId), None, from, to, limit);
    assert r == ListResponses(readings, RecordFilter(Some(warehouseId), None, from, to), limit);
    r
  }

  /** Nothing of that warehouse within the window is missing when its rows fit within the limit. */
  lemma GetReadingsByWarehouseComplete(readings: seq<InventoryRecord>, warehouseId: nat,
                                       from: Option<Ticks>, to: Option<Ticks>, limit: int, x: InventoryRecord)
    requires |Matching(readings, RecordFilter(Some(warehouseId), None, from, to))| <= EffectiveLimit(limit)
    requires x in readings && x.warehouseId == warehouseId
    requires (from.Some? ==> x.occurredAt >= from.value) && (to.Some? ==> x.occurredAt <= to.value)
    ensures ToResponse(x) in GetReadingsByWarehouse(readings, warehouseId, from, to, limit)
  {
    ListResponsesComplete(readings, RecordFilter(Some(warehouseId), None, from, to), limit, x);
  }

  /** `GetReadingsByCommodityAsync`: the general query with only the commodity filter set; the time
      window and the limit are passed through. */
  function GetReadingsByCommodity(readings: seq<InventoryRecord>, commodityId: nat,
                                  from: Option<Ticks>, to: Option<Ticks>, limit: int): (r: seq<InventoryResponse>)
    ensures var n := |Matching(readings, RecordFilter(None, Some(commodityId), from, to))|;
            |r| == if n <= EffectiveLimit(limit) then n else EffectiveLimit(limit)
    ensures forall i | 0 <= i < |r| ::
              && FromResponse(r[i]) in readings && r[i].commodityId == commodityId
              && (from.Some? ==> r[i].occurredAt >= from.value)
              && (to.Some? ==> r[i].occurredAt <= to.value)
    ensures forall i, j | 0 <= i < j < |r| :: r[i].occurredAt >= r[j].occurredAt
    ensures multiset(Records(r)) <= multiset(readings)
    ensures NoNewerLeftOut(readings, RecordFilter(None, Some(commodityId), from, to), Records(r))
  {
    var r := GetReadings(readings, None, Some(commodityId), from, to, limit);
    assert r == ListResponses(readings, RecordFilter(None, Some(commodityId), from, to), limit);
    r
  }

  /** Nothing of that commodity within the window is missing when its rows fit within the limit. */
  lemma GetReadingsByCommodityComplete(readings: seq<InventoryRecord>, commodityId: nat,
                                       from: Option<Ticks>, to: Option<Ticks>, limit: int, x: InventoryRecord)
    requires |Matching(readings, RecordFilter(None, Some(commodityId), from, to))| <= EffectiveLimit(limit)
    requires x in readings && x.commodityId == commodityId
    requires (from.Some? ==> x.occurredAt >= from.value) && (to.Some? ==> x.occurredAt <= to.value)
    ensures ToResponse(x) in GetReadingsByCommodity(readings, commodityId, from, to, limit)
  {
    ListResponsesComplete(readings, RecordFilter(None, Some(commodityId), from, to), limit, x);
  }

  /** With unique primary keys, a reading's SKU is THE named commodity's SKU up to case, and is
      that SKU exactly when the commodity's SKU is already lower-case (as the commodity service
      stores them). */
  lemma ReadingSkuIsCommoditySku(ws: seq<Warehouse>, cs: seq<Commodity>, ops: seq<Operator>,
                                 readings: seq<InventoryRecord>, req: MovementRequest, now: Ticks, storeNow: Ticks,
                                 c: Commodity)
    requires UniqueBy(cs, (x: Commodity) => x.id)
    requires c in cs && c.id == req.commodityId
    requires ReadingToCreate(ws, cs, ops, readings, req, now, storeNow).Success?
    ensures var rec := ReadingToCreate(ws, cs, ops, readings, req, now, storeNow).value;
            && rec.sku == Lower(c.sku)
            && (NoUpper(c.sku) ==> rec.sku == c.sku)
  {
    var c' := ValidateMovement(ws, cs, ops, req).value.1;
    UniqueByIdentifies(cs, (x: Commodity) => x.id, c, c');
    LowerFixedPoint(c.sku);
  }

  /** The Readings table stays numbered 1, 2, 3, ... across creates, and the created row is then
      what the by-id query returns for its id, while every other id answers as before. */
  lemma CreatedReadingIsFoundById(ws: seq<Warehouse>, cs: seq<Commodity>, ops: seq<Operator>,
                                  readings: seq<InventoryRecord>, req: MovementRequest, now: Ticks, storeNow: Ticks)
    requires SequentialIds(readings)
    requires ReadingToCreate(ws, cs, ops, readings, req, now, storeNow).Success?
    ensures var rec := ReadingToCreate(ws, cs, ops, readings, req, now, storeNow).value;
            && SequentialIds(readings + [rec])
            && GetReadingById(readings + [rec], rec.id) == Some(ToResponse(rec))
            && forall id | id != rec.id :: GetReadingById(readings + [rec], id) == GetReadingById(readings, id)
  {
    var rec := ReadingToCreate(ws, cs, ops, readings, req, now, storeNow).value;
    AppendNextId(readings, rec);
  }
}
