/**
 * The stock service: records an inbound stock movement after checking the quantity and the
 * warehouse, commodity and operator it names, and answers the by-id and list queries over the
 * append-only Stocks table.
 */
module Stocks {
  import opened Wrappers
  import opened Text
  import opened Collections
  import opened Entities
  import opened Inventory
  import Data

  /** The outcome of `CreateStockAsync` against the tables as they are: the failure it raises,
      or the row it appends. The row carries the next identity value, the request's ids, quantity
      and operator, the SKU and unit of measure of the active commodity the request names, the
      zone given or else the warehouse's default zone, and as creation time the store's clock
      `storeNow` (the column default), which is a different clock from the application's `now`. */
  function StockToCreate(ws: seq<Warehouse>, cs: seq<Commodity>, ops: seq<Operator>,
                         stocks: seq<InventoryRecord>, req: MovementRequest, now: Ticks, storeNow: Ticks)
    : (r: Result<InventoryRecord, ServiceError>)
    ensures r.Failure? <==> ValidateMovement(ws, cs, ops, req).Failure?
    ensures r.Failure? ==> r.error == ValidateMovement(ws, cs, ops, req).error
    ensures r.Success? ==>
              && r.value.id == |stocks| + 1 && r.value.createdAt == storeNow
              && r.value.warehouseId == req.warehouseId && r.value.commodityId == req.commodityId
              && r.value.quantity == req.quantity > 0.0 && r.value.operatorId == req.operatorId
              && (exists c | c in cs :: c.id == req.commodityId && c.isActive
                                        && r.value.sku == c.sku && r.value.unitOfMeasure == c.unitOfMeasure)
              && (exists w | w in ws :: w.id == req.warehouseId && w.isActive
                                        && r.value.warehouseZone == OrDefault(req.warehouseZone, w.defaultZone))
  {
    match ValidateMovement(ws, cs, ops, req)
    case Failure(e) => Failure(e)
    case Success((w, c)) => Success(BuildRecord(w, c, req, |stocks| + 1, now, storeNow))
  }

  class StockService {
    const db: Data.LogisticsDb

    constructor(db: Data.LogisticsDb)
      ensures this.db == db
    {
      this.db := db;
    }

    /** `CreateStockAsync`: on success exactly the row `StockToCreate` describes is appended and
        returned; on failure the Stocks table is left as it was. */
    method CreateStock(req: MovementRequest, now: Ticks, storeNow: Ticks)
      returns (r: Result<InventoryResponse, ServiceError>)
      modifies db`stocks
      ensures match StockToCreate(db.warehouses, db.commodities, db.operators, old(db.stocks), req, now, storeNow)
              case Success(rec) => r == Success(ToResponse(rec)) && db.stocks == old(db.stocks) + [rec]
              case Failure(e) => r == Failure(e) && db.stocks == old(db.stocks)
    {
      if req.quantity <= 0.0 {
        return Failure(InvalidQuantity);
      }
      var warehouse := FirstWhere(db.warehouses, ActiveWarehouseWithId(req.warehouseId));
      if warehouse.None? {
        return Failure(WarehouseNotFound(req.warehouseId));
      }
      var commodity := FirstWhere(db.commodities, ActiveCommodityWithId(req.commodityId));
      if commodity.None? {
        return Failure(CommodityNotFound(req.commodityId));
      }
      if req.operatorId.Some? {
        var operatorExists := FirstIndexWhere(db.operators, OperatorWithId(req.operatorId.value)).Some?;
        if !operatorExists {
          return Failure(OperatorNotFound(req.operatorId.value));
        }
      }
      var stock := BuildRecord(warehouse.value, commodity.value, req, |db.stocks| + 1, now, storeNow);
      db.stocks := db.stocks + [stock];
      r := Success(ToResponse(stock));
    }
  }

  /** `GetStockByIdAsync`: the response of the stored row with that id, or null. */
  function GetStockById(stocks: seq<InventoryRecord>, id: nat): (r: Option<InventoryResponse>)
    ensures r.None? <==> forall i | 0 <= i < |stocks| :: stocks[i].id != id
    ensures r.Some? ==> FromResponse(r.value) in stocks && r.value.id == id
  {
    match FindById(stocks, id)
    case None => None
    case Some(rec) => Some(ToResponse(rec))
  }

  /** `GetStocksAsync`: the rows passing every filter given (an inclusive time window on
      `OccurredAt`), newest first, at most the effective limit of them. */
  function GetStocks(stocks: seq<InventoryRecord>, warehouseId: Option<nat>, commodityId: Option<nat>,
                     from: Option<Ticks>, to: Option<Ticks>, limit: int): (r: seq<InventoryResponse>)
    ensures |r| <= EffectiveLimit(limit) && |r| <= |stocks|
    ensures var n := |Matching(stocks, RecordFilter(warehouseId, commodityId, from, to))|;
            |r| == if n <= EffectiveLimit(limit) then n else EffectiveLimit(limit)
    ensures forall i | 0 <= i < |r| ::
              && FromResponse(r[i]) in stocks
              && (warehouseId.Some? ==> r[i].warehouseId == warehouseId.value)
              && (commodityId.Some? ==> r[i].commodityId == commodityId.value)
              && (from.Some? ==> r[i].occurredAt >= from.value)
              && (to.Some? ==> r[i].occurredAt <= to.value)
    ensures forall i, j | 0 <= i < j < |r| :: r[i].occurredAt >= r[j].occurredAt
    ensures multiset(Records(r)) <= multiset(stocks)
    ensures NoNewerLeftOut(stocks, RecordFilter(warehouseId, commodityId, from, to), Records(r))
  {
    var f := RecordFilter(warehouseId, commodityId, from, to);
    var r := ListResponses(stocks, f, limit);
    r
  }

  /** `GetStocksByWarehouseAsync`: the general query with only the warehouse filter set; the time
      window and the limit are passed through. */
  function GetStocksByWarehouse(stocks: seq<InventoryRecord>, warehouseId: nat,
                                from: Option<Ticks>, to: Option<Ticks>, limit: int): (r: seq<InventoryResponse>)
    ensures var n := |Matching(stocks, RecordFilter(Some(warehouseId), None, from, to))|;
            |r| == if n <= EffectiveLimit(limit) then n else EffectiveLimit(limit)
    ensures forall i | 0 <= i < |r| ::
              && FromResponse(r[i]) in stocks && r[i].warehouseId == warehouseId
              && (from.Some? ==> r[i].occurredAt >= from.value)
              && (to.Some? ==> r[i].occurredAt <= to.value)
    ensures forall i, j | 0 <= i < j < |r| :: r[i].occurredAt >= r[j].occurredAt
    ensures multiset(Records(r)) <= multiset(stocks)
    ensures NoNewerLeftOut(stocks, RecordFilter(Some(warehouseId), None, from, to), Records(r))
  {
    var r := GetStocks(stocks, Some(warehouseId), None, from, to, limit);
    assert r == ListResponses(stocks, RecordFilter(Some(warehouseId), None, from, to), limit);
    r
  }

  /** Nothing of that warehouse within the window is missing when its rows fit within the limit. */
  lemma GetStocksByWarehouseComplete(stocks: seq<InventoryRecord>, warehouseId: nat,
                                     from: Option<Ticks>, to: Option<Ticks>, limit: int, x: InventoryRecord)
    requires |Matching(stocks, RecordFilter(Some(warehouseId), None, from, to))| <= EffectiveLimit(limit)
    requires x in stocks && x.warehouseId == warehouseId
    requires (from.Some? ==> x.occurredAt >= from.value) && (to.Some? ==> x.occurredAt <= to.value)
    ensures ToResponse(x) in GetStocksByWarehouse(stocks, warehouseId, from, to, limit)
  {
    ListResponsesComplete(stocks, RecordFilter(Some(warehouseId), None, from, to), limit, x);
  }

  /** `GetStocksByCommodityAsync`: the general query with only the commodity filter set; the time
      window and the limit are passed through. */
  function GetStocksByCommodity(stocks: seq<InventoryRecord>, commodityId: nat,
                                from: Option<Ticks>, to: Option<Ticks>, limit: int): (r: seq<InventoryResponse>)
    ensures var n := |Matching(stocks, RecordFilter(None, Some(commodityId), from, to))|;
            |r| == if n <= EffectiveLimit(limit) then n else EffectiveLimit(limit)
    ensures forall i | 0 <= i < |r| ::
              && FromResponse(r[i]) in stocks && r[i].commodityId == commodityId
              && (from.Some? ==> r[i].occurredAt >= from.value)
              && (to.Some? ==> r[i].occurredAt <= to.value)
    ensures forall i, j | 0 <= i < j < |r| :: r[i].occurredAt >= r[j].occurredAt
    ensures multiset(Records(r)) <= multiset(stocks)
    ensures NoNewerLeftOut(stocks, RecordFilter(None, Some(commodityId), from, to), Records(r))
  {
    var r := GetStocks(stocks, None, Some(commodityId), from, to, limit);
    assert r == ListResponses(stocks, RecordFilter(None, Some(commodityId), from, to), limit);
    r
  }

  /** Nothing of that commodity within the window is missing when its rows fit within the limit. */
  lemma GetStocksByCommodityComplete(stocks: seq<InventoryRecord>, commodityId: nat,
                                     from: Option<Ticks>, to: Option<Ticks>, limit: int, x: InventoryRecord)
    requires |Matching(stocks, RecordFilter(None, Some(commodityId), from, to))| <= EffectiveLimit(limit)
    requires x in stocks && x.commodityId == commodityId
    requires (from.Some? ==> x.occurredAt >= from.value) && (to.Some? ==> x.occurredAt <= to.value)
    ensures ToResponse(x) in GetStocksByCommodity(stocks, commodityId, from, to, limit)
  {
    ListResponsesComplete(stocks, RecordFilter(None, Some(commodityId), from, to), limit, x);
  }

  /** With unique primary keys, a created stock row copies THE named commodity's SKU and unit of
      measure and THE named warehouse's default zone when no zone is given; omitted texts take
      "system", "manual" and "{}", an omitted `OccurredAt` is the application clock's `now`, and
      the texts that were given are kept. */
  lemma StockDefaults(ws: seq<Warehouse>, cs: seq<Commodity>, ops: seq<Operator>,
                      stocks: seq<InventoryRecord>, req: MovementRequest, now: Ticks, storeNow: Ticks,
                      w: Warehouse, c: Commodity)
    requires UniqueBy(ws, (x: Warehouse) => x.id) && UniqueBy(cs, (x: Commodity) => x.id)
    requires w in ws && w.id == req.warehouseId && c in cs && c.id == req.commodityId
    requires StockToCreate(ws, cs, ops, stocks, req, now, storeNow).Success?
    ensures var rec := StockToCreate(ws, cs, ops, stocks, req, now, storeNow).value;
            && rec.sku == c.sku && rec.unitOfMeasure == c.unitOfMeasure
            && (IsNullOrWhiteSpace(req.warehouseZone) ==> rec.warehouseZone == w.defaultZone)
            && (!IsNullOrWhiteSpace(req.warehouseZone) ==> Some(rec.warehouseZone) == req.warehouseZone)
            && (IsNullOrWhiteSpace(req.createdBy) ==> rec.createdBy == "system")
            && (!IsNullOrWhiteSpace(req.createdBy) ==> Some(rec.createdBy) == req.createdBy)
            && (IsNullOrWhiteSpace(req.source) ==> rec.source == "manual")
            && (!IsNullOrWhiteSpace(req.source) ==> Some(rec.source) == req.source)
            && (IsNullOrWhiteSpace(req.metadata) ==> rec.metadata == "{}")
            && (!IsNullOrWhiteSpace(req.metadata) ==> Some(rec.metadata) == req.metadata)
            && (req.occurredAt.None? ==> rec.occurredAt == now)
            && (req.occurredAt.Some? ==> rec.occurredAt == req.occurredAt.value)
  {
    ValidateMovementResolves(ws, cs, ops, req, w, c);
  }

  /** The Stocks table stays numbered 1, 2, 3, ... across creates, and the created row is then
      what the by-id query returns for its id, while every other id answers as before. */
  lemma CreatedStockIsFoundById(ws: seq<Warehouse>, cs: seq<Commodity>, ops: seq<Operator>,
                                stocks: seq<InventoryRecord>, req: MovementRequest, now: Ticks, storeNow: Ticks)
    requires SequentialIds(stocks)
    requires StockToCreate(ws, cs, ops, stocks, req, now, storeNow).Success?
    ensures var rec := StockToCreate(ws, cs, ops, stocks, req, now, storeNow).value;
            && SequentialIds(stocks + [rec])
            && GetStockById(stocks + [rec], rec.id) == Some(ToResponse(rec))
            && forall id | id != rec.id :: GetStockById(stocks + [rec], id) == GetStockById(stocks, id)
  {
    var rec := StockToCreate(ws, cs, ops, stocks, req, now, storeNow).value;
    AppendNextId(stocks, rec);
  }
}
