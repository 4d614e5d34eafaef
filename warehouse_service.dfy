/**
 * The warehouse service: registers a warehouse under a code no stored warehouse has (compared
 * exactly, case included), lets the store's save stamp its creation time, and answers lookups by
 * id and by code and the listing, each response counting the commodities stored in the warehouse.
 */
module Warehouses {
  import opened Wrappers
  import opened Collections
  import opened Entities
  import Data

  /** `CreateWarehouseRequest`. */
  datatype CreateWarehouseRequest = CreateWarehouseRequest(
    name: string,
    code: string,
    address: string,
    city: string,
    country: string,
    postalCode: Option<string>,
    capacity: real,
    isActive: bool)

  /** `WarehouseResponse`. */
  datatype WarehouseResponse = WarehouseResponse(
    id: nat,
    name: string,
    code: string,
    address: string,
    city: string,
    country: string,
    postalCode: Option<string>,
    capacity: real,
    isActive: bool,
    createdAt: Ticks,
    updatedAt: Option<Ticks>,
    commodityCount: nat)

  /** `MapToResponse`, given the warehouse's loaded `Commodities` collection. */
  function MapToResponse(w: Warehouse, commodities: seq<Commodity>): WarehouseResponse {
    WarehouseResponse(w.id, w.name, w.code, w.address, w.city, w.country, w.postalCode, w.capacity,
                      w.isActive, w.createdAt, w.updatedAt, |commodities|)
  }

  function InWarehouse(id: nat): Commodity -> bool {
    (c: Commodity) => c.warehouseId == id
  }

  /** `Include(w => w.Commodities)`: the stored commodities linked to the warehouse. */
  function CommoditiesOf(cs: seq<Commodity>, id: nat): (r: seq<Commodity>)
    ensures |r| <= |cs|
    ensures forall i | 0 <= i < |r| :: r[i].warehouseId == id
    ensures forall c | c in cs && c.warehouseId == id :: multiset(r)[c] == multiset(cs)[c]
  {
    Filter(cs, InWarehouse(id))
  }

  /** The response as a lookup returns it. */
  function Loaded(w: Warehouse, cs: seq<Commodity>): WarehouseResponse {
    MapToResponse(w, CommoditiesOf(cs, w.id))
  }

  /** The lookup condition `w.Code == code` (ordinal, case-sensitive). */
  function CodeIs(code: string): Warehouse -> bool {
    (w: Warehouse) => w.code == code
  }

  function IdIs(id: nat): Warehouse -> bool {
    (w: Warehouse) => w.id == id
  }

  /** The object initializer of the create path: the request's fields, the class defaults for the
      rest, and the identity value the store assigns. */
  function NewWarehouse(req: CreateWarehouseRequest, id: nat): Warehouse {
    Warehouse(
      id := id,
      name := req.name,
      code := req.code,
      address := req.address,
      city := req.city,
      country := req.country,
      postalCode := req.postalCode,
      defaultZone := "DEFAULT",
      capacity := req.capacity,
      isActive := req.isActive,
      deactivatedAt := None,
      createdAt := UnsetTime,
      updatedAt := None)
  }

  /** The outcome of `CreateWarehouseAsync` against the stored warehouses: refused exactly when
      some stored warehouse has the very same code; otherwise a warehouse that copies the
      request, takes the next identity value and the default zone "DEFAULT", and leaves the save
      with `CreatedAt` stamped and `UpdatedAt` still empty (it was Added, not Modified). */
  function WarehouseToCreate(ws: seq<Warehouse>, req: CreateWarehouseRequest, now: Ticks)
    : (r: Result<Warehouse, ServiceError>)
    ensures r.Failure? <==> exists i | 0 <= i < |ws| :: ws[i].code == req.code
    ensures r.Failure? ==> r.error == DuplicateCode(req.code)
    ensures r.Success? ==>
              && r.value.id == |ws| + 1
              && r.value.name == req.name && r.value.code == req.code && r.value.address == req.address
              && r.value.city == req.city && r.value.country == req.country
              && r.value.postalCode == req.postalCode && r.value.capacity == req.capacity
              && r.value.isActive == req.isActive && r.value.defaultZone == "DEFAULT"
              && r.value.deactivatedAt.None? && r.value.createdAt == now && r.value.updatedAt.None?
  {
    if FirstWhere(ws, CodeIs(req.code)).Some? then Failure(DuplicateCode(req.code))
    else
      var entry := Data.StampEntry(Data.WarehouseEntry(Data.Added, NewWarehouse(req, |ws| + 1)), now);
      Data.StampEntryEffect(Data.WarehouseEntry(Data.Added, NewWarehouse(req, |ws| + 1)), now);
      Success(entry.entity)
  }

  class WarehouseService {
    const db: Data.LogisticsDb

    constructor(db: Data.LogisticsDb)
      ensures this.db == db
    {
      this.db := db;
    }

    /** `CreateWarehouseAsync`: the new warehouse goes through the save's audit pass as an Added
        entry; on success exactly the warehouse `WarehouseToCreate` describes is appended and
        returned, with no commodities yet; on failure the table is left as it was. */
    method CreateWarehouse(req: CreateWarehouseRequest, now: Ticks) returns (r: Result<WarehouseResponse, ServiceError>)
      modifies db`warehouses
      ensures match WarehouseToCreate(old(db.warehouses), req, now)
              case Success(w) => r == Success(MapToResponse(w, [])) && db.warehouses == old(db.warehouses) + [w]
              case Failure(e) => r == Failure(e) && db.warehouses == old(db.warehouses)
      ensures r.Success? ==> r.value.commodityCount == 0 && r.value.createdAt == now
    {
      var existingWarehouse := FirstWhere(db.warehouses, CodeIs(req.code));
      if existingWarehouse.Some? {
        return Failure(DuplicateCode(req.code));
      }
      var warehouse := NewWarehouse(req, |db.warehouses| + 1);
      var entries := new Data.WarehouseEntry[1] [Data.WarehouseEntry(Data.Added, warehouse)];
      db.StampAuditFields(entries, now);
      warehouse := entries[0].entity;
      db.warehouses := db.warehouses + [warehouse];
      r := Success(MapToResponse(warehouse, []));
    }
  }

  /** `GetWarehouseByIdAsync`: the warehouse with that id and its commodity count, or null. */
  function GetWarehouseById(ws: seq<Warehouse>, cs: seq<Commodity>, id: nat): (r: Option<WarehouseResponse>)
    ensures r.None? <==> forall i | 0 <= i < |ws| :: ws[i].id != id
    ensures r.Some? ==> exists w | w in ws :: w.id == id && r.value == Loaded(w, cs)
    ensures r.Some? ==> r.value.commodityCount == |CommoditiesOf(cs, id)| <= |cs|
  {
    match FirstWhere(ws, IdIs(id))
    case None => None
    case Some(w) => Some(Loaded(w, cs))
  }

  /** `GetWarehouseByCodeAsync`: the first warehouse whose code is exactly `code`, or null. */
  function GetWarehouseByCode(ws: seq<Warehouse>, cs: seq<Commodity>, code: string): (r: Option<WarehouseResponse>)
    ensures r.None? <==> forall i | 0 <= i < |ws| :: ws[i].code != code
    ensures r.Some? ==> r.value.code == code && exists w | w in ws :: w.code == code && r.value == Loaded(w, cs)
  {
    match FirstWhere(ws, CodeIs(code))
    case None => None
    case Some(w) => Some(Loaded(w, cs))
  }

  /** The `Where(w => w.IsActive)` applied unless inactive warehouses are asked for. */
  function Listed(includeInactive: bool): Warehouse -> bool {
    (w: Warehouse) => includeInactive || w.isActive
  }

  /** `resp` is the response of some stored warehouse. */
  ghost predicate LoadedFromStore(ws: seq<Warehouse>, cs: seq<Commodity>, resp: WarehouseResponse) {
    exists w | w in ws :: resp == Loaded(w, cs)
  }

  /** `Select(MapToResponse)` over the loaded warehouses. */
  function LoadedAll(ws: seq<Warehouse>, cs: seq<Commodity>): (r: seq<WarehouseResponse>)
    ensures |r| == |ws|
    ensures forall i | 0 <= i < |r| :: r[i] == Loaded(ws[i], cs)
  {
    seq(|ws|, i requires 0 <= i < |ws| => Loaded(ws[i], cs))
  }

  /** `GetAllWarehousesAsync`: one response per listed warehouse (every active one, or every one
      when inactive ones are included), and nothing else. */
  function GetAllWarehouses(ws: seq<Warehouse>, cs: seq<Commodity>, includeInactive: bool): (r: seq<WarehouseResponse>)
    ensures |r| == |Filter(ws, Listed(includeInactive))| <= |ws|
    ensures forall i | 0 <= i < |r| :: includeInactive || r[i].isActive
    ensures forall i | 0 <= i < |r| :: LoadedFromStore(ws, cs, r[i])
    ensures forall w | w in ws && (includeInactive || w.isActive) :: Loaded(w, cs) in r
  {
    var kept := Filter(ws, Listed(includeInactive));
    var r := LoadedAll(kept, cs);
    ListedResponses(ws, cs, includeInactive, kept, r);
    r
  }

  lemma ListedResponses(ws: seq<Warehouse>, cs: seq<Commodity>, includeInactive: bool,
                        kept: seq<Warehouse>, r: seq<WarehouseResponse>)
    requires kept == Filter(ws, Listed(includeInactive))
    requires r == LoadedAll(kept, cs)
    ensures forall i | 0 <= i < |r| :: kept[i] in ws && r[i] == Loaded(kept[i], cs)
    ensures forall i | 0 <= i < |r| :: LoadedFromStore(ws, cs, r[i])
    ensures forall w | w in ws && (includeInactive || w.isActive) :: Loaded(w, cs) in r
  {
    forall i | 0 <= i < |r| ensures kept[i] in ws && r[i] == Loaded(kept[i], cs) {
      assert kept[i] in multiset(kept);
    }
    forall i | 0 <= i < |r| ensures LoadedFromStore(ws, cs, r[i]) {
      assert kept[i] in ws && r[i] == Loaded(kept[i], cs);
    }
    forall w | w in ws && (includeInactive || w.isActive) ensures Loaded(w, cs) in r {
      assert Listed(includeInactive)(w);
      assert multiset(kept)[w] == multiset(ws)[w];
      assert w in multiset(kept);
      var k :| 0 <= k < |kept| && kept[k] == w;
      assert r[k] == Loaded(w, cs);
    }
  }

  // ---- Properties ------------------------------------------------------------------------------

  /** Once created, a warehouse is what the code lookup answers for its code, with its commodity
      count; every other code is answered as before. */
  lemma CreatedWarehouseIsFoundByCode(ws: seq<Warehouse>, cs: seq<Commodity>, req: CreateWarehouseRequest,
                                      now: Ticks, code: string)
    requires WarehouseToCreate(ws, req, now).Success?
    ensures var w := WarehouseToCreate(ws, req, now).value;
            && (code == req.code ==> GetWarehouseByCode(ws + [w], cs, code) == Some(Loaded(w, cs)))
            && (code != req.code ==> GetWarehouseByCode(ws + [w], cs, code) == GetWarehouseByCode(ws, cs, code))
  {
    var w := WarehouseToCreate(ws, req, now).value;
    if code == req.code {
      FirstIndexWhereAppend(ws, w, CodeIs(code));
    } else if FirstIndexWhere(ws, CodeIs(code)).Some? {
      FirstIndexWhereExtend(ws, [w], CodeIs(code));
    }
  }

  /** Creates keep the warehouses numbered 1, 2, 3, ... (so their ids stay unique), and the
      created warehouse is then what the by-id lookup answers for its id; every other id is
      answered as before. */
  lemma CreatedWarehouseIsFoundById(ws: seq<Warehouse>, cs: seq<Commodity>, req: CreateWarehouseRequest, now: Ticks)
    requires NumberedFromOne(ws, (x: Warehouse) => x.id)
    requires WarehouseToCreate(ws, req, now).Success?
    ensures var w := WarehouseToCreate(ws, req, now).value;
            && NumberedFromOne(ws + [w], (x: Warehouse) => x.id)
            && UniqueBy(ws + [w], (x: Warehouse) => x.id)
            && GetWarehouseById(ws + [w], cs, w.id) == Some(Loaded(w, cs))
            && forall id | id != w.id :: GetWarehouseById(ws + [w], cs, id) == GetWarehouseById(ws, cs, id)
  {
    var w := WarehouseToCreate(ws, req, now).value;
    var s := ws + [w];
    assert NumberedFromOne(s, (x: Warehouse) => x.id) by {
      forall i | 0 <= i < |s| ensures s[i].id == i + 1 {
        if i < |ws| {
          assert s[i] == ws[i];
        }
      }
    }
    NumberedIsUnique(s, (x: Warehouse) => x.id);
    FirstIndexWhereAppend(ws, w, IdIs(w.id));
    forall id | id != w.id ensures GetWarehouseById(s, cs, id) == GetWarehouseById(ws, cs, id) {
      if FirstIndexWhere(ws, IdIs(id)).Some? {
        FirstIndexWhereExtend(ws, [w], IdIs(id));
      }
    }
  }

  /** Creates keep warehouse codes unique. */
  lemma CreateKeepsCodesUnique(ws: seq<Warehouse>, req: CreateWarehouseRequest, now: Ticks)
    requires UniqueBy(ws, (w: Warehouse) => w.code)
    requires WarehouseToCreate(ws, req, now).Success?
    ensures UniqueBy(ws + [WarehouseToCreate(ws, req, now).value], (w: Warehouse) => w.code)
  {
    var w := WarehouseToCreate(ws, req, now).value;
    var s := ws + [w];
    forall i, j | 0 <= i < j < |s| ensures s[i].code != s[j].code {
      if j == |ws| {
        assert s[i] == ws[i];
      } else {
        assert s[i] == ws[i] && s[j] == ws[j];
      }
    }
  }

  /** The duplicate check compares codes exactly: with "WH-1" stored, "wh-1" is accepted. */
  lemma CodeCheckIsCaseSensitive(stored: Warehouse, req: CreateWarehouseRequest, now: Ticks)
    requires stored.code == "WH-1" && req.code == "wh-1"
    ensures WarehouseToCreate([stored], req, now).Success?
  {
    assert stored.code[0] != req.code[0];
  }
}
