/**
 * The commodity service: registers a commodity under a lower-cased, unique SKU after checking
 * its required texts, and answers lookups by id and by SKU (case-insensitively) and the
 * catalogue listing ordered by SKU.
 */
module Commodities {
  import opened Wrappers
  import opened Text
  import opened Collections
  import opened Entities
  import Data

  /** `CreateCommodityRequest` (its strings are non-nullable). */
  datatype CreateCommodityRequest = CreateCommodityRequest(
    sku: string,
    name: string,
    unitOfMeasure: string,
    batchRequired: bool,
    controlParameters: string,
    isActive: bool)

  /** `CommodityResponse`. */
  datatype CommodityResponse = CommodityResponse(
    id: nat,
    sku: string,
    name: string,
    unitOfMeasure: string,
    batchRequired: bool,
    controlParameters: string,
    isActive: bool,
    deactivatedAt: Option<Ticks>,
    createdAt: Ticks,
    updatedAt: Option<Ticks>)

  /** `MapToResponse`: every field but the warehouse link. */
  function ToCommodityResponse(c: Commodity): CommodityResponse {
    CommodityResponse(c.id, c.sku, c.name, c.unitOfMeasure, c.batchRequired, c.controlParameters,
                      c.isActive, c.deactivatedAt, c.createdAt, c.updatedAt)
  }

  /** The lookup condition `c.Sku == normalizedSku`. */
  function SkuIs(sku: string): Commodity -> bool {
    (c: Commodity) => c.sku == sku
  }

  function IdIs(id: nat): Commodity -> bool {
    (c: Commodity) => c.id == id
  }

  /** The three required texts are present. */
  predicate RequiredTextsPresent(req: CreateCommodityRequest) {
    !AllWhiteSpace(req.sku) && !AllWhiteSpace(req.name) && !AllWhiteSpace(req.unitOfMeasure)
  }

  /** The outcome of `CreateCommodityAsync` against the catalogue as it is. The checks run in
      order (SKU, name, unit of measure, then duplicates); a duplicate is a stored SKU equal to
      the lower-cased requested one. A new commodity stores the lower-cased SKU, which no stored
      commodity has, copies the request's name, unit, batch flag and active flag, replaces blank
      control parameters by "{}", takes the next identity value, and is stamped with `now`. */
  function CommodityToCreate(cs: seq<Commodity>, req: CreateCommodityRequest, now: Ticks)
    : (r: Result<Commodity, ServiceError>)
    ensures r == Failure(SkuRequired) <==> AllWhiteSpace(req.sku)
    ensures r == Failure(NameRequired) <==> !AllWhiteSpace(req.sku) && AllWhiteSpace(req.name)
    ensures r == Failure(UnitOfMeasureRequired) <==>
              !AllWhiteSpace(req.sku) && !AllWhiteSpace(req.name) && AllWhiteSpace(req.unitOfMeasure)
    ensures r == Failure(DuplicateSku(req.sku)) <==>
              RequiredTextsPresent(req) && exists i | 0 <= i < |cs| :: cs[i].sku == Lower(req.sku)
    ensures r.Success? <==>
              RequiredTextsPresent(req) && forall i | 0 <= i < |cs| :: cs[i].sku != Lower(req.sku)
    ensures r.Success? ==>
              && r.value.sku == Lower(req.sku) && NoUpper(r.value.sku) && SameIgnoringCase(r.value.sku, req.sku)
              && r.value.id == |cs| + 1
              && r.value.name == req.name && r.value.unitOfMeasure == req.unitOfMeasure
              && r.value.batchRequired == req.batchRequired && r.value.isActive == req.isActive
              && (AllWhiteSpace(req.controlParameters) ==> r.value.controlParameters == "{}")
              && (!AllWhiteSpace(req.controlParameters) ==> r.value.controlParameters == req.controlParameters)
              && r.value.deactivatedAt.None? && r.value.createdAt == now && r.value.updatedAt.None?
  {
    var normalizedSku := Lower(req.sku);
    if AllWhiteSpace(req.sku) then Failure(SkuRequired)
    else if AllWhiteSpace(req.name) then Failure(NameRequired)
    else if AllWhiteSpace(req.unitOfMeasure) then Failure(UnitOfMeasureRequired)
    else if FirstWhere(cs, SkuIs(normalizedSku)).Some? then Failure(DuplicateSku(req.sku))
    else
      LowerIsCanonical(req.sku);
      LowerIdempotent(req.sku);
      Success(NewCommodity(req, normalizedSku, |cs| + 1, now))
  }

  /** The object initializer of the create path, with the identity value and the creation time
      the store fills in. */
  function NewCommodity(req: CreateCommodityRequest, sku: string, id: nat, now: Ticks): Commodity {
    Commodity(
      id := id,
      sku := sku,
      name := req.name,
      unitOfMeasure := req.unitOfMeasure,
      batchRequired := req.batchRequired,
      controlParameters := OrDefault(Some(req.controlParameters), "{}"),
      isActive := req.isActive,
      deactivatedAt := None,
      createdAt := now,
      updatedAt := None,
      warehouseId := 0)
  }

  class CommodityService {
    const db: Data.LogisticsDb

    constructor(db: Data.LogisticsDb)
      ensures this.db == db
    {
      this.db := db;
    }

    /** `CreateCommodityAsync`: on success exactly the commodity `CommodityToCreate` describes is
        appended and returned; on failure the catalogue is left as it was. */
    method CreateCommodity(req: CreateCommodityRequest, now: Ticks) returns (r: Result<CommodityResponse, ServiceError>)
      modifies db`commodities
      ensures match CommodityToCreate(old(db.commodities), req, now)
              case Success(c) => r == Success(ToCommodityResponse(c)) && db.commodities == old(db.commodities) + [c]
              case Failure(e) => r == Failure(e) && db.commodities == old(db.commodities)
    {
      var normalizedSku := Lower(req.sku);
      if AllWhiteSpace(req.sku) {
        return Failure(SkuRequired);
      }
      if AllWhiteSpace(req.name) {
        return Failure(NameRequired);
      }
      if AllWhiteSpace(req.unitOfMeasure) {
        return Failure(UnitOfMeasureRequired);
      }
      var existingCommodity := FirstWhere(db.commodities, SkuIs(normalizedSku));
      if existingCommodity.Some? {
        return Failure(DuplicateSku(req.sku));
      }
      var commodity := NewCommodity(req, normalizedSku, |db.commodities| + 1, now);
      db.commodities := db.commodities + [commodity];
      r := Success(ToCommodityResponse(commodity));
    }
  }

  /** `GetCommodityByIdAsync`: the commodity with that id, or null. */
  function GetCommodityById(cs: seq<Commodity>, id: nat): (r: Option<CommodityResponse>)
    ensures r.None? <==> forall i | 0 <= i < |cs| :: cs[i].id != id
    ensures r.Some? ==> exists c | c in cs :: c.id == id && r.value == ToCommodityResponse(c)
  {
    match FirstWhere(cs, IdIs(id))
    case None => None
    case Some(c) => Some(ToCommodityResponse(c))
  }

  /** `GetCommodityBySkuAsync`: the commodity whose stored SKU is the lower-cased argument, or null. */
  function GetCommodityBySku(cs: seq<Commodity>, sku: string): (r: Option<CommodityResponse>)
    ensures r.None? <==> forall i | 0 <= i < |cs| :: cs[i].sku != Lower(sku)
    ensures r.Some? ==> exists c | c in cs :: c.sku == Lower(sku) && r.value == ToCommodityResponse(c)
  {
    match FirstWhere(cs, SkuIs(Lower(sku)))
    case None => None
    case Some(c) => Some(ToCommodityResponse(c))
  }

  // ---- Catalogue listing --------------------------------------------------------------------

  /** `OrderBy(c => c.Sku)`, as an ordinal comparison of the SKUs. */
  predicate SkuNotAfter(a: Commodity, b: Commodity) {
    LexLe(a.sku, b.sku)
  }

  lemma SkuOrderIsTotalPreorder()
    ensures TotalPreorder(SkuNotAfter)
  {
    forall a: Commodity, b: Commodity ensures SkuNotAfter(a, b) || SkuNotAfter(b, a) {
      LexLeTotal(a.sku, b.sku);
    }
    forall a: Commodity, b: Commodity, c: Commodity | SkuNotAfter(a, b) && SkuNotAfter(b, c)
      ensures SkuNotAfter(a, c)
    {
      LexLeTransitive(a.sku, b.sku, c.sku);
    }
  }

  /** The `Where(c => c.IsActive)` applied unless inactive commodities are asked for. */
  function Listed(includeInactive: bool): Commodity -> bool {
    (c: Commodity) => includeInactive || c.isActive
  }

  /** The commodities `GetAllCommoditiesAsync` lists, in its order: exactly the active ones (all
      of them when inactive ones are included), each as often as it is stored, sorted by SKU. */
  function Catalogue(cs: seq<Commodity>, includeInactive: bool): (r: seq<Commodity>)
    ensures multiset(r) == multiset(Filter(cs, Listed(includeInactive)))
    ensures forall i | 0 <= i < |r| :: r[i] in cs && (includeInactive || r[i].isActive)
    ensures forall c | c in cs && (includeInactive || c.isActive) :: c in r
    ensures forall i, j | 0 <= i < j < |r| :: LexLe(r[i].sku, r[j].sku)
  {
    var kept := Filter(cs, Listed(includeInactive));
    SkuOrderIsTotalPreorder();
    var r := InsertionSort(kept, SkuNotAfter);
    CatalogueMembers(cs, includeInactive, kept, r);
    r
  }

  lemma CatalogueMembers(cs: seq<Commodity>, includeInactive: bool, kept: seq<Commodity>, r: seq<Commodity>)
    requires kept == Filter(cs, Listed(includeInactive))
    requires multiset(r) == multiset(kept)
    ensures forall i | 0 <= i < |r| :: r[i] in cs && (includeInactive || r[i].isActive)
    ensures forall c | c in cs && (includeInactive || c.isActive) :: c in r
  {
    forall i | 0 <= i < |r| ensures r[i] in cs && (includeInactive || r[i].isActive) {
      assert r[i] in multiset(r);
      assert r[i] in multiset(kept);
      var k :| 0 <= k < |kept| && kept[k] == r[i];
      assert Listed(includeInactive)(kept[k]);
      assert r[i] in multiset(cs);
    }
    forall c | c in cs && (includeInactive || c.isActive) ensures c in r {
      assert Listed(includeInactive)(c);
      assert multiset(kept)[c] == multiset(cs)[c];
      assert c in multiset(r);
    }
  }

  /** `Select(MapToResponse)` over a list of commodities. */
  function CommodityResponses(cs: seq<Commodity>): (r: seq<CommodityResponse>)
    ensures |r| == |cs|
    ensures forall i | 0 <= i < |r| :: r[i] == ToCommodityResponse(cs[i])
  {
    seq(|cs|, i requires 0 <= i < |cs| => ToCommodityResponse(cs[i]))
  }

  /** `GetAllCommoditiesAsync`: the responses of the catalogue, in SKU order. */
  function GetAllCommodities(cs: seq<Commodity>, includeInactive: bool): (r: seq<CommodityResponse>)
    ensures |r| == |Filter(cs, Listed(includeInactive))| <= |cs|
    ensures forall i | 0 <= i < |r| :: includeInactive || r[i].isActive
    ensures forall c | c in cs && (includeInactive || c.isActive) :: ToCommodityResponse(c) in r
    ensures forall i | 0 <= i < |r| :: exists c | c in cs :: r[i] == ToCommodityResponse(c)
    ensures forall i, j | 0 <= i < j < |r| :: LexLe(r[i].sku, r[j].sku)
  {
    var listed := Catalogue(cs, includeInactive);
    assert |listed| == |Filter(cs, Listed(includeInactive))| by {
      assert |multiset(listed)| == |multiset(Filter(cs, Listed(includeInactive)))|;
    }
    var r := CommodityResponses(listed);
    ResponsesOfCatalogue(cs, includeInactive, listed, r);
    r
  }

  lemma ResponsesOfCatalogue(cs: seq<Commodity>, includeInactive: bool, listed: seq<Commodity>,
                             r: seq<CommodityResponse>)
    requires listed == Catalogue(cs, includeInactive)
    requires r == CommodityResponses(listed)
    ensures forall c | c in cs && (includeInactive || c.isActive) :: ToCommodityResponse(c) in r
    ensures forall i | 0 <= i < |r| :: exists c | c in cs :: r[i] == ToCommodityResponse(c)
  {
    forall c | c in cs && (includeInactive || c.isActive) ensures ToCommodityResponse(c) in r {
      var k :| 0 <= k < |listed| && listed[k] == c;
      assert r[k] == ToCommodityResponse(c);
    }
    forall i | 0 <= i < |r| ensures exists c | c in cs :: r[i] == ToCommodityResponse(c) {
      assert listed[i] in cs;
    }
  }

  // ---- Properties of the catalogue ----------------------------------------------------------

  /** The invariant the create path keeps: stored SKUs are lower-case and unique. */
  ghost predicate CanonicalSkus(cs: seq<Commodity>) {
    && (forall i | 0 <= i < |cs| :: NoUpper(cs[i].sku))
    && UniqueBy(cs, (c: Commodity) => c.sku)
  }

  lemma CreateKeepsSkusCanonical(cs: seq<Commodity>, req: CreateCommodityRequest, now: Ticks)
    requires CanonicalSkus(cs)
    requires CommodityToCreate(cs, req, now).Success?
    ensures CanonicalSkus(cs + [CommodityToCreate(cs, req, now).value])
  {
    var c := CommodityToCreate(cs, req, now).value;
    var s := cs + [c];
    forall i, j | 0 <= i < j < |s| ensures s[i].sku != s[j].sku {
      if j == |cs| {
        assert s[i] == cs[i];
      } else {
        assert s[i] == cs[i] && s[j] == cs[j];
      }
    }
  }

  /** Over a catalogue of lower-case SKUs, a create is refused as a duplicate exactly when some
      stored SKU equals the requested one up to case ("SKU-1" collides with a stored "sku-1"). */
  lemma DuplicateSkuIgnoresCase(cs: seq<Commodity>, req: CreateCommodityRequest, now: Ticks)
    requires forall i | 0 <= i < |cs| :: NoUpper(cs[i].sku)
    requires RequiredTextsPresent(req)
    ensures CommodityToCreate(cs, req, now) == Failure(DuplicateSku(req.sku)) <==>
              exists i | 0 <= i < |cs| :: SameIgnoringCase(cs[i].sku, req.sku)
  {
    forall i | 0 <= i < |cs| ensures SameIgnoringCase(cs[i].sku, req.sku) <==> cs[i].sku == Lower(req.sku) {
      LowerFixedPoint(cs[i].sku);
    }
  }

  /** Once created, a commodity is what the SKU lookup answers for every spelling of its SKU that
      differs only in case; every other SKU is answered as before. */
  lemma CreatedCommodityIsFoundBySku(cs: seq<Commodity>, req: CreateCommodityRequest, now: Ticks, sku: string)
    requires CommodityToCreate(cs, req, now).Success?
    ensures var c := CommodityToCreate(cs, req, now).value;
            && (SameIgnoringCase(sku, req.sku) ==> GetCommodityBySku(cs + [c], sku) == Some(ToCommodityResponse(c)))
            && (!SameIgnoringCase(sku, req.sku) ==> GetCommodityBySku(cs + [c], sku) == GetCommodityBySku(cs, sku))
  {
    var c := CommodityToCreate(cs, req, now).value;
    if SameIgnoringCase(sku, req.sku) {
      FirstIndexWhereAppend(cs, c, SkuIs(Lower(sku)));
    } else if FirstIndexWhere(cs, SkuIs(Lower(sku))).Some? {
      FirstIndexWhereExtend(cs, [c], SkuIs(Lower(sku)));
    }
  }

  /** Creates keep the catalogue numbered 1, 2, 3, ... (so commodity ids stay unique), and the
      created commodity is then what the by-id lookup answers for its id; every other id is
      answered as before. */
  lemma CreatedCommodityIsFoundById(cs: seq<Commodity>, req: CreateCommodityRequest, now: Ticks)
    requires NumberedFromOne(cs, (x: Commodity) => x.id)
    requires CommodityToCreate(cs, req, now).Success?
    ensures var c := CommodityToCreate(cs, req, now).value;
            && NumberedFromOne(cs + [c], (x: Commodity) => x.id)
            && UniqueBy(cs + [c], (x: Commodity) => x.id)
            && GetCommodityById(cs + [c], c.id) == Some(ToCommodityResponse(c))
            && forall id | id != c.id :: GetCommodityById(cs + [c], id) == GetCommodityById(cs, id)
  {
    var c := CommodityToCreate(cs, req, now).value;
    var s := cs + [c];
    assert NumberedFromOne(s, (x: Commodity) => x.id) by {
      forall i | 0 <= i < |s| ensures s[i].id == i + 1 {
        if i < |cs| {
          assert s[i] == cs[i];
        }
      }
    }
    NumberedIsUnique(s, (x: Commodity) => x.id);
    FirstIndexWhereAppend(cs, c, IdIs(c.id));
    forall id | id != c.id ensures GetCommodityById(s, id) == GetCommodityById(cs, id) {
      if FirstIndexWhere(cs, IdIs(id)).Some? {
        FirstIndexWhereExtend(cs, [c], IdIs(id));
      }
    }
  }
}
