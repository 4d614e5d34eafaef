/**
 * What the stock service and the reading service have in common: the append-only inventory
 * record both tables hold, the create request and its ordered checks, the defaults a new
 * record receives, the response mapping and the filtered, ordered, capped list query.
 */
module Inventory {
  import opened Wrappers
  import opened Text
  import opened Collections
  import opened Entities

  const DefaultLimit: nat := 100
  const MaxLimit: nat := 1000

  /** A row of the Stocks or the Readings table. */
  datatype InventoryRecord = InventoryRecord(
    id: nat,
    warehouseId: nat,
    commodityId: nat,
    sku: string,
    unitOfMeasure: string,
    quantity: real,
    warehouseZone: string,
    operatorId: Option<nat>,
    createdBy: string,
    source: string,
    occurredAt: Ticks,
    createdAt: Ticks,
    metadata: string)

  /** `CreateStockRequest` / `CreateReadingRequest` (the two records have the same fields). */
  datatype MovementRequest = MovementRequest(
    warehouseId: nat,
    commodityId: nat,
    quantity: real,
    warehouseZone: Option<string>,
    operatorId: Option<nat>,
    createdBy: Option<string>,
    source: Option<string>,
    occurredAt: Option<Ticks>,
    metadata: Option<string>)

  /** `StockResponse` / `ReadingResponse`. */
  datatype InventoryResponse = InventoryResponse(
    id: nat,
    warehouseId: nat,
    commodityId: nat,
    sku: string,
    unitOfMeasure: string,
    quantity: real,
    warehouseZone: string,
    operatorId: Option<nat>,
    createdBy: string,
    source: string,
    occurredAt: Ticks,
    createdAt: Ticks,
    metadata: string)

  /** `MapToResponse`. */
  function ToResponse(r: InventoryRecord): InventoryResponse {
    InventoryResponse(r.id, r.warehouseId, r.commodityId, r.sku, r.unitOfMeasure, r.quantity,
      r.warehouseZone, r.operatorId, r.createdBy, r.source, r.occurredAt, r.createdAt, r.metadata)
  }

  /** The record a response was made from. */
  function FromResponse(r: InventoryResponse): InventoryRecord {
    InventoryRecord(r.id, r.warehouseId, r.commodityId, r.sku, r.unitOfMeasure, r.quantity,
      r.warehouseZone, r.operatorId, r.createdBy, r.source, r.occurredAt, r.createdAt, r.metadata)
  }

  /** `MapToResponse` loses nothing: the record can be read back from its response. */
  lemma ResponseRoundTrip(r: InventoryRecord)
    ensures FromResponse(ToResponse(r)) == r
  {
  }

  // ---- Create: the ordered checks -------------------------------------------------------------

  predicate HasActiveWarehouse(ws: seq<Warehouse>, id: nat) {
    exists i | 0 <= i < |ws| :: ws[i].id == id && ws[i].isActive
  }

  predicate HasActiveCommodity(cs: seq<Commodity>, id: nat) {
    exists i | 0 <= i < |cs| :: cs[i].id == id && cs[i].isActive
  }

  /** The lookup conditions of the three queries the create path runs. */
  function ActiveWarehouseWithId(id: nat): Warehouse -> bool {
    (w: Warehouse) => w.id == id && w.isActive
  }

  function ActiveCommodityWithId(id: nat): Commodity -> bool {
    (c: Commodity) => c.id == id && c.isActive
  }

  function OperatorWithId(id: nat): Operator -> bool {
    (o: Operator) => o.id == id
  }

  /** Existence only: an inactive operator satisfies it. */
  predicate HasOperator(ops: seq<Operator>, id: nat) {
    exists i | 0 <= i < |ops| :: ops[i].id == id
  }

  /** The checks of `CreateStockAsync` / `CreateReadingAsync`, in their order: positive quantity,
      then an active warehouse, then an active commodity, then (only when one is named) an
      existing operator. On success it yields the warehouse and commodity the record is built from. */
  function ValidateMovement(ws: seq<Warehouse>, cs: seq<Commodity>, ops: seq<Operator>, req: MovementRequest)
    : (r: Result<(Warehouse, Commodity), ServiceError>)
    ensures r == Failure(InvalidQuantity) <==> req.quantity <= 0.0
    ensures r == Failure(WarehouseNotFound(req.warehouseId)) <==>
              req.quantity > 0.0 && !HasActiveWarehouse(ws, req.warehouseId)
    ensures r == Failure(CommodityNotFound(req.commodityId)) <==>
              req.quantity > 0.0 && HasActiveWarehouse(ws, req.warehouseId)
              && !HasActiveCommodity(cs, req.commodityId)
    ensures r.Failure? && r.error.OperatorNotFound? <==>
              req.quantity > 0.0 && HasActiveWarehouse(ws, req.warehouseId)
              && HasActiveCommodity(cs, req.commodityId)
              && req.operatorId.Some? && !HasOperator(ops, req.operatorId.value)
    ensures r.Success? <==>
              req.quantity > 0.0 && HasActiveWarehouse(ws, req.warehouseId)
              && HasActiveCommodity(cs, req.commodityId)
              && (req.operatorId.Some? ==> HasOperator(ops, req.operatorId.value))
    ensures r.Success? ==>
              && r.value.0 in ws && r.value.0.id == req.warehouseId && r.value.0.isActive
              && r.value.1 in cs && r.value.1.id == req.commodityId && r.value.1.isActive
  {
    if req.quantity <= 0.0 then Failure(InvalidQuantity)
    else match FirstWhere(ws, ActiveWarehouseWithId(req.warehouseId))
      case None => Failure(WarehouseNotFound(req.warehouseId))
      case Some(warehouse) =>
        match FirstWhere(cs, ActiveCommodityWithId(req.commodityId))
        case None => Failure(CommodityNotFound(req.commodityId))
        case Some(commodity) =>
          if req.operatorId.Some? && FirstIndexWhere(ops, OperatorWithId(req.operatorId.value)).None?
          then Failure(OperatorNotFound(req.operatorId.value))
          else Success((warehouse, commodity))
  }

  /** The record the object initializer of the create path builds: SKU and unit of measure are
      copied from the commodity, blank optional texts take their defaults and a missing
      `OccurredAt` is the application clock's `now`. The service never sets `CreatedAt`: the
      store fills it from its own clock (the column default), `storeNow`, which nothing ties to
      `now`. */
  function BuildRecord(w: Warehouse, c: Commodity, req: MovementRequest, id: nat,
                       now: Ticks, storeNow: Ticks): InventoryRecord {
    InventoryRecord(
      id := id,
      warehouseId := req.warehouseId,
      commodityId := req.commodityId,
      sku := c.sku,
      unitOfMeasure := c.unitOfMeasure,
      quantity := req.quantity,
      warehouseZone := OrDefault(req.warehouseZone, w.defaultZone),
      operatorId := req.operatorId,
      createdBy := OrDefault(req.createdBy, "system"),
      source := OrDefault(req.source, "manual"),
      occurredAt := req.occurredAt.GetOr(now),
      createdAt := storeNow,
      metadata := OrDefault(req.metadata, "{}"))
  }

  /** With unique primary keys, the warehouse and commodity a successful validation resolves are
      THE warehouse and commodity the request names. */
  lemma ValidateMovementResolves(ws: seq<Warehouse>, cs: seq<Commodity>, ops: seq<Operator>,
                                 req: MovementRequest, w: Warehouse, c: Commodity)
    requires UniqueBy(ws, (x: Warehouse) => x.id) && UniqueBy(cs, (x: Commodity) => x.id)
    requires w in ws && w.id == req.warehouseId
    requires c in cs && c.id == req.commodityId
    requires ValidateMovement(ws, cs, ops, req).Success?
    ensures ValidateMovement(ws, cs, ops, req).value == (w, c)
  {
    var (w', c') := ValidateMovement(ws, cs, ops, req).value;
    UniqueByIdentifies(ws, (x: Warehouse) => x.id, w, w');
    UniqueByIdentifies(cs, (x: Commodity) => x.id, c, c');
  }

  // ---- List: filter, order, take --------------------------------------------------------------

  /** `Math.Min(limit > 0 ? limit : DefaultLimit, MaxLimit)`. */
  function EffectiveLimit(limit: int): (n: nat)
    ensures 1 <= n <= MaxLimit
    ensures 0 < limit <= MaxLimit ==> n == limit
    ensures limit > MaxLimit ==> n == MaxLimit
    ensures limit <= 0 ==> n == DefaultLimit
  {
    var requested := if limit > 0 then limit else DefaultLimit;
    if requested < MaxLimit then requested else MaxLimit
  }

  /** The optional filters of the list query; `None` means "not filtered on". */
  datatype RecordFilter = RecordFilter(
    warehouseId: Option<nat>,
    commodityId: Option<nat>,
    from: Option<Ticks>,
    to: Option<Ticks>)

  /** The conjunction of the `Where` clauses the query adds, the time window inclusive at both ends. */
  predicate Matches(rec: InventoryRecord, f: RecordFilter) {
    && (f.warehouseId.Some? ==> rec.warehouseId == f.warehouseId.value)
    && (f.commodityId.Some? ==> rec.commodityId == f.commodityId.value)
    && (f.from.Some? ==> rec.occurredAt >= f.from.value)
    && (f.to.Some? ==> rec.occurredAt <= f.to.value)
  }

  function Matching(rows: seq<InventoryRecord>, f: RecordFilter): seq<InventoryRecord> {
    Filter(rows, (rec: InventoryRecord) => Matches(rec, f))
  }

  /** The `OrderByDescending(r => r.OccurredAt)` comparison. */
  predicate OccurredNotBefore(a: InventoryRecord, b: InventoryRecord) {
    a.occurredAt >= b.occurredAt
  }

  function NewestFirst(rows: seq<InventoryRecord>): (r: seq<InventoryRecord>)
    ensures |r| == |rows| && multiset(r) == multiset(rows)
    ensures forall i, j | 0 <= i < j < |r| :: r[i].occurredAt >= r[j].occurredAt
  {
    var r := InsertionSort(rows, OccurredNotBefore);
    assert forall i, j | 0 <= i < j < |r| :: OccurredNotBefore(r[i], r[j]);
    r
  }

  /** Every matching row satisfies the filter and comes from the table. */
  lemma MatchingSound(rows: seq<InventoryRecord>, f: RecordFilter)
    ensures forall x | x in Matching(rows, f) :: Matches(x, f) && x in rows
  {
    var m := Matching(rows, f);
    forall x | x in m ensures Matches(x, f) && x in rows {
      var i :| 0 <= i < |m| && m[i] == x;
      assert Matches(m[i], f);
      assert multiset(m)[x] > 0;
    }
  }

  /** A prefix of a reordering of matching rows holds matching rows only. */
  lemma PrefixSound(m: seq<InventoryRecord>, s: seq<InventoryRecord>, r: seq<InventoryRecord>,
                    rows: seq<InventoryRecord>, f: RecordFilter)
    requires forall x | x in m :: Matches(x, f) && x in rows
    requires multiset(s) == multiset(m)
    requires |r| <= |s| && r == s[..|r|]
    ensures forall i | 0 <= i < |r| :: Matches(r[i], f) && r[i] in rows
  {
    forall i | 0 <= i < |r| ensures Matches(r[i], f) && r[i] in rows {
      assert r[i] == s[i];
      assert s[i] in multiset(m);
    }
  }

  /** No matching row of `rows` that `listed` leaves out (counted with multiplicity) is newer than
      the last row listed. */
  ghost predicate NoNewerLeftOut(rows: seq<InventoryRecord>, f: RecordFilter, listed: seq<InventoryRecord>) {
    forall x {:trigger multiset(listed)[x]} | x in rows && Matches(x, f) && multiset(listed)[x] < multiset(rows)[x] ::
      |listed| > 0 ==> x.occurredAt <= listed[|listed| - 1].occurredAt
  }

  /** A prefix of the matching rows sorted newest first leaves out nothing newer than its last row. */
  lemma PrefixLeavesOutOlder(rows: seq<InventoryRecord>, f: RecordFilter, m: seq<InventoryRecord>,
                             s: seq<InventoryRecord>, r: seq<InventoryRecord>)
    requires forall x | x in rows && Matches(x, f) :: multiset(m)[x] == multiset(rows)[x]
    requires multiset(s) == multiset(m)
    requires forall i, j | 0 <= i < j < |s| :: s[i].occurredAt >= s[j].occurredAt
    requires |r| <= |s| && r == s[..|r|]
    ensures NoNewerLeftOut(rows, f, r)
  {
    forall x | x in rows && Matches(x, f) && multiset(r)[x] < multiset(rows)[x]
      ensures |r| > 0 ==> x.occurredAt <= r[|r| - 1].occurredAt
    {
      if |r| > 0 {
        CutOffIsNoNewer(s, r, x, |r| - 1);
      }
    }
  }

  /** `GetStocksAsync` / `GetReadingsAsync` without the response mapping. */
  function ListRecords(rows: seq<InventoryRecord>, f: RecordFilter, limit: int): (r: seq<InventoryRecord>)
    ensures |r| <= EffectiveLimit(limit)
    ensures |Matching(rows, f)| <= EffectiveLimit(limit) ==> |r| == |Matching(rows, f)|
    ensures |Matching(rows, f)| > EffectiveLimit(limit) ==> |r| == EffectiveLimit(limit)
    ensures forall i | 0 <= i < |r| :: Matches(r[i], f) && r[i] in rows
    ensures forall i, j | 0 <= i < j < |r| :: r[i].occurredAt >= r[j].occurredAt
    ensures multiset(r) <= multiset(rows)
  {
    var m := Matching(rows, f);
    var s := NewestFirst(m);
    var r := Take(s, EffectiveLimit(limit));
    TakeSubMultiset(s, EffectiveLimit(limit));
    MatchingSound(rows, f);
    PrefixSound(m, s, r, rows, f);
    r
  }

  /** The list is the most recent matching rows: a matching row that is left out (counted with
      multiplicity) is no more recent than any row returned. */
  lemma ListRecordsIsMostRecent(rows: seq<InventoryRecord>, f: RecordFilter, limit: int, x: InventoryRecord, i: nat)
    requires x in rows && Matches(x, f)
    requires multiset(ListRecords(rows, f, limit))[x] < multiset(rows)[x]
    requires i < |ListRecords(rows, f, limit)|
    ensures x.occurredAt <= ListRecords(rows, f, limit)[i].occurredAt
  {
    var m := Matching(rows, f);
    var s := NewestFirst(m);
    var r := ListRecords(rows, f, limit);
    assert r == Take(s, EffectiveLimit(limit));
    assert multiset(m)[x] == multiset(rows)[x];
    CutOffIsNoNewer(s, r, x, i);
  }

  /** In a list sorted newest first, an element left out of a prefix is no newer than any element
      of the prefix. */
  lemma CutOffIsNoNewer(s: seq<InventoryRecord>, r: seq<InventoryRecord>, x: InventoryRecord, i: nat)
    requires forall i, j | 0 <= i < j < |s| :: s[i].occurredAt >= s[j].occurredAt
    requires |r| <= |s| && r == s[..|r|]
    requires multiset(r)[x] < multiset(s)[x]
    requires i < |r|
    ensures x.occurredAt <= r[i].occurredAt
  {
    var rest := s[|r|..];
    assert s == r + rest;
    assert multiset(s) == multiset(r) + multiset(rest);
    assert x in multiset(rest);
    var j :| 0 <= j < |rest| && rest[j] == x;
    assert s[|r| + j] == x;
    assert s[i] == r[i];
  }

  /** Adding a `from`/`to` window never lengthens the list. */
  lemma WindowNeverGrows(rows: seq<InventoryRecord>, f: RecordFilter, limit: int)
    ensures |ListRecords(rows, f, limit)| <= |ListRecords(rows, f.(from := None, to := None), limit)|
  {
    WindowNeverAddsMatches(rows, f);
  }

  lemma WindowNeverAddsMatches(rows: seq<InventoryRecord>, f: RecordFilter)
    ensures |Matching(rows, f)| <= |Matching(rows, f.(from := None, to := None))|
  {
    var g := f.(from := None, to := None);
    FilterMonotone(rows, (rec: InventoryRecord) => Matches(rec, f), (rec: InventoryRecord) => Matches(rec, g));
  }

  /** When the matching rows fit within the effective limit nothing is cut off: every matching
      stored row is listed, as often as it is stored. */
  lemma ListRecordsComplete(rows: seq<InventoryRecord>, f: RecordFilter, limit: int)
    requires |Matching(rows, f)| <= EffectiveLimit(limit)
    ensures multiset(ListRecords(rows, f, limit)) == multiset(Matching(rows, f))
    ensures forall x | x in rows && Matches(x, f) :: x in ListRecords(rows, f, limit)
  {
    var m := Matching(rows, f);
    var s := NewestFirst(m);
    assert ListRecords(rows, f, limit) == s;
    forall x | x in rows && Matches(x, f) ensures x in s {
      assert multiset(m)[x] == multiset(rows)[x];
      assert x in multiset(s);
    }
  }

  /** `Select(MapToResponse)` over a list of records. */
  function Responses(rows: seq<InventoryRecord>): (r: seq<InventoryResponse>)
    ensures |r| == |rows|
    ensures forall i | 0 <= i < |r| :: FromResponse(r[i]) == rows[i]
  {
    seq(|rows|, i requires 0 <= i < |rows| => ToResponse(rows[i]))
  }

  /** The records a list of responses was mapped from. */
  function Records(rs: seq<InventoryResponse>): (r: seq<InventoryRecord>)
    ensures |r| == |rs|
    ensures forall i | 0 <= i < |r| :: r[i] == FromResponse(rs[i]) && r[i].occurredAt == rs[i].occurredAt
  {
    seq(|rs|, i requires 0 <= i < |rs| => FromResponse(rs[i]))
  }

  /** The list query with its responses: every response satisfies the filters, comes from a
      stored row, the responses run newest first and there are never more than the effective limit.
      Response by response they are the rows `ListRecords` selects, so no stored row is listed more
      often than it is stored, and a matching row that is left out is no newer than the last one
      listed. */
  function ListResponses(rows: seq<InventoryRecord>, f: RecordFilter, limit: int): (r: seq<InventoryResponse>)
    ensures |r| == |ListRecords(rows, f, limit)| <= EffectiveLimit(limit) && |r| <= |rows|
    ensures forall i | 0 <= i < |r| :: FromResponse(r[i]) == ListRecords(rows, f, limit)[i]
    ensures forall i | 0 <= i < |r| :: Matches(FromResponse(r[i]), f) && FromResponse(r[i]) in rows
    ensures forall i, j | 0 <= i < j < |r| :: r[i].occurredAt >= r[j].occurredAt
    ensures multiset(Records(r)) <= multiset(rows)
    ensures NoNewerLeftOut(rows, f, Records(r))
  {
    var recs := ListRecords(rows, f, limit);
    var r := Responses(recs);
    ResponsesRecords(recs);
    ListRecordsCutOff(rows, f, limit);
    assert |multiset(recs)| <= |multiset(rows)|;
    r
  }

  /** Mapping records to responses and back gives the records again. */
  lemma ResponsesRecords(recs: seq<InventoryRecord>)
    ensures Records(Responses(recs)) == recs
  {
    assert forall i | 0 <= i < |recs| :: Records(Responses(recs))[i] == recs[i];
  }

  /** Every matching row cut off the list is no newer than the last record listed. */
  lemma ListRecordsCutOff(rows: seq<InventoryRecord>, f: RecordFilter, limit: int)
    ensures NoNewerLeftOut(rows, f, ListRecords(rows, f, limit))
  {
    var m := Matching(rows, f);
    var s := NewestFirst(m);
    assert ListRecords(rows, f, limit) == Take(s, EffectiveLimit(limit));
    PrefixLeavesOutOlder(rows, f, m, s, ListRecords(rows, f, limit));
  }

  /** The response-level form of `ListRecordsComplete`. */
  lemma ListResponsesComplete(rows: seq<InventoryRecord>, f: RecordFilter, limit: int, x: InventoryRecord)
    requires |Matching(rows, f)| <= EffectiveLimit(limit)
    requires x in rows && Matches(x, f)
    ensures ToResponse(x) in ListResponses(rows, f, limit)
  {
    ListRecordsComplete(rows, f, limit);
    var recs := ListRecords(rows, f, limit);
    var k :| 0 <= k < |recs| && recs[k] == x;
    assert Responses(recs)[k] == ToResponse(x);
  }

  // ---- Identity column ------------------------------------------------------------------------

  /** The store numbers the rows of an append-only table 1, 2, 3, ... in insertion order. */
  predicate SequentialIds(rows: seq<InventoryRecord>) {
    forall i | 0 <= i < |rows| :: rows[i].id == i + 1
  }

  function RecordWithId(id: nat): InventoryRecord -> bool {
    (x: InventoryRecord) => x.id == id
  }

  /** `FirstOrDefaultAsync(r => r.Id == id)`. */
  function FindById(rows: seq<InventoryRecord>, id: nat): (r: Option<InventoryRecord>)
    ensures r.None? <==> forall i | 0 <= i < |rows| :: rows[i].id != id
    ensures r.Some? ==> r.value in rows && r.value.id == id
  {
    FirstWhere(rows, RecordWithId(id))
  }

  /** Appending the row the next identity value goes to keeps the numbering, and the new row is
      found by its id (the earlier rows all have smaller ids). */
  lemma {:induction false} AppendNextId(rows: seq<InventoryRecord>, rec: InventoryRecord)
    requires SequentialIds(rows) && rec.id == |rows| + 1
    ensures SequentialIds(rows + [rec])
    ensures FindById(rows + [rec], rec.id) == Some(rec)
    ensures forall id | id != rec.id :: FindById(rows + [rec], id) == FindById(rows, id)
  {
    FirstIndexWhereAppend(rows, rec, RecordWithId(rec.id));
    forall id | id != rec.id ensures FindById(rows + [rec], id) == FindById(rows, id) {
      if FindById(rows, id).Some? {
        FirstIndexWhereExtend(rows, [rec], RecordWithId(id));
      }
    }
  }
}
