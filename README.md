# AntLogistics Core services — a Dafny model

This project models the service layer of the AntLogistics Core API, a warehouse-logistics
back end. It covers:

- **Stock and reading records.** Creating an append-only stock or reading record checks, in a
  fixed order, the quantity, the warehouse, the commodity and the operator. It then fills in
  defaults and appends exactly one row. The list queries filter, order newest first and cap the
  result at an effective limit.
- **Commodities.** Registration with a lower-cased, unique SKU, and lookups by id, by SKU in any
  casing, and as a catalogue ordered by SKU.
- **Warehouses.** Registration with an exactly-matched unique code, and lookups by id, by code,
  and as a listing that counts each warehouse's commodities.
- **Credential check.** The username is trimmed and lower-cased, the single active operator with
  that username is looked up, and a successful password check records the login time.
- **Audit stamping.** The database context's save visits the tracked warehouse entries and stamps
  `CreatedAt` on Added entries and `UpdatedAt` on Modified ones.
- **The `Reading` entity.** Its `Sku` setter lower-cases the value and refuses null.

**Form of the model**

- The store is the class `Data.LogisticsDb`, with one `seq` field per table.
- Each service is a class holding the store. Its create method changes only its own table (a
  `modifies` frame on that field).
- Each create method is proved equal to a specification function, such as
  `Stocks.StockToCreate`, and the lemmas are stated about that function.
- Queries are functions over the tables.
- Thrown exceptions become `Failure` values of a `Result`, and null becomes `None`.
- `decimal` values are `real`, and `DateTime` values are integer ticks.
- The application's clock (`DateTime.UtcNow`) is a `now` parameter. The store's clock, which
  fills the `now()` column defaults of stock and reading rows, is a separate `storeNow`
  parameter; nothing ties the two together.
- The password-hash check (`BCrypt.Verify`) is a `verify` function parameter.

**Modules**

| file | module |
|---|---|
| `wrappers.dfy` | `Option`, `Result` |
| `text.dfy` | white space, `Trim`, `ToLowerInvariant`, ordinal string order |
| `collections.dfy` | `FirstOrDefault`, `SingleOrDefault`, `Where`, `OrderBy`, `Take` |
| `entities.dfy` | entity records and error kinds |
| `db_context.dfy` | the store and the audit pass |
| `inventory.dfy` | what the stock and reading services share |
| `reading_model.dfy` | the `Reading` class |
| `stock_service.dfy`, `reading_service.dfy`, `commodity_service.dfy`, `warehouse_service.dfy`, `authorization_service.dfy` | one module per service |

## Model

| member | source | states |
|---|---|---|
| Text.OrDefault | src/AntLogistics.Core/Services/StockService.cs:81-86 | a null or white-space value gives the fallback; any other value is kept, and it is not blank |
| Text.LowerIsCanonical | src/AntLogistics.Core/Data/Models/Reading.cs:32 | lower-casing keeps the length, leaves no upper-case letter and changes no other character |
| Text.LowerFixedPoint | src/AntLogistics.Core/Data/Models/Reading.cs:29-33 | a string is unchanged by lower-casing exactly when it holds no upper-case letter |
| Text.LowerIdempotent | src/AntLogistics.Core/Services/CommodityService.cs:125 | lower-casing twice is lower-casing once |
| Text.TrimIsSlice | src/AntLogistics.Core/Services/AuthorizationService.cs:24 | `Trim` returns a contiguous slice of its input |
| Text.TrimEmptyIffBlank | src/AntLogistics.Core/Services/AuthorizationService.cs:19-24 | trimming gives the empty string exactly for blank input; otherwise the result starts and ends with a non-white-space character |
| Text.LexLeTotal | src/AntLogistics.Core/Services/CommodityService.cs:112 | any two SKUs are comparable in ordinal order |
| Text.LexLeTransitive | src/AntLogistics.Core/Services/CommodityService.cs:112 | ordinal order is transitive |
| Collections.FirstIndexWhere | src/AntLogistics.Core/Services/StockService.cs:41-43 | no result exactly when nothing matches; otherwise the index of the first match |
| Collections.FirstWhere | src/AntLogistics.Core/Services/CommodityService.cs:52-54 | null exactly when nothing matches; otherwise a stored element that matches |
| Collections.FirstIndexWhereAppend | src/AntLogistics.Core/Services/CommodityService.cs:127-129 | an appended element is the first match when nothing before it matched |
| Collections.FirstIndexWhereExtend | src/AntLogistics.Core/Services/WarehouseService.cs:108-111 | appending behind an existing match does not change the first match |
| Collections.SingleIndexWhere | src/AntLogistics.Core/Services/AuthorizationService.cs:26 | the three outcomes of `SingleOrDefault`: no match, the only match, or two or more matches (it throws) |
| Collections.Filter | src/AntLogistics.Core/Services/StockService.cs:132-150 | keeps only matching elements, each matching element as often as stored |
| Collections.FilterMonotone | src/AntLogistics.Core/Services/StockService.cs:142-150 | a weaker condition keeps at least as many elements |
| Collections.Take | src/AntLogistics.Core/Services/StockService.cs:154 | a prefix of length min(n, length) |
| Collections.NumberedIsUnique | src/AntLogistics.Core/Data/AntLogisticsDbContext.cs:82-99 | an identity column numbered 1, 2, 3, ... is a unique key |
| Collections.InsertionSort | src/AntLogistics.Core/Services/CommodityService.cs:111-113 | the result is sorted and is a permutation of the input |
| Data.StampEntryEffect | src/AntLogistics.Core/Data/AntLogisticsDbContext.cs:86-96 | Added entries get only `CreatedAt = now`; Modified entries get only `UpdatedAt = now` and keep `CreatedAt`; any other entry is untouched |
| Data.StampEntryIdempotent | src/AntLogistics.Core/Data/AntLogisticsDbContext.cs:86-96 | stamping twice at the same instant equals stamping once |
| Data.LogisticsDb.StampAuditFields | src/AntLogistics.Core/Data/AntLogisticsDbContext.cs:82-99 | the loop visits every tracked warehouse entry once and leaves each one stamped by that policy |
| Inventory.ResponseRoundTrip | src/AntLogistics.Core/Services/StockService.cs:189-207 | the response mapping loses no field: the record can be read back from it |
| Inventory.ValidateMovement | src/AntLogistics.Core/Services/StockService.cs:35-72 | the errors and their order: quantity ≤ 0; else no active warehouse with that id; else no active commodity; else, only if an operator id is given, no operator (active or not) with it; success yields an active warehouse and commodity with the requested ids |
| Inventory.ValidateMovementResolves | src/AntLogistics.Core/Services/StockService.cs:41-59 | with unique ids, the warehouse and commodity found are the ones the request names |
| Inventory.EffectiveLimit | src/AntLogistics.Core/Services/StockService.cs:128 | always in [1, 1000]; a limit in (0, 1000] is kept, a larger one becomes 1000, a non-positive one becomes 100 |
| Inventory.NewestFirst | src/AntLogistics.Core/Services/StockService.cs:153 | a permutation of the rows with `OccurredAt` non-increasing |
| Inventory.ListRecords | src/AntLogistics.Core/Services/StockService.cs:128-155 | only stored rows that pass every filter; newest first; min(matching, effective limit) of them |
| Inventory.ListRecordsIsMostRecent | src/AntLogistics.Core/Services/StockService.cs:152-155 | a matching row that was cut off is no newer than any returned row |
| Inventory.CutOffIsNoNewer | src/AntLogistics.Core/Services/StockService.cs:152-154 | in a newest-first list, an element left out of a prefix is no newer than any element kept |
| Inventory.WindowNeverGrows | src/AntLogistics.Core/Services/StockService.cs:142-150 | adding a time window never lengthens the result |
| Inventory.WindowNeverAddsMatches | src/AntLogistics.Core/Services/StockService.cs:142-150 | a `from`/`to` window never adds matching rows |
| Inventory.ListResponses | src/AntLogistics.Core/Services/StockService.cs:152-159 | response by response, the rows `ListRecords` selects: they keep its filters, order and bound, no stored row is listed more often than it is stored, and a matching row left out is no newer than the last one listed |
| Inventory.ListRecordsComplete | src/AntLogistics.Core/Services/StockService.cs:132-155 | when the matching rows fit within the effective limit, the list is exactly the matching rows, each as often as stored |
| Inventory.ResponsesRecords | src/AntLogistics.Core/Services/StockService.cs:159 | mapping records to responses and back gives the records again |
| Inventory.PrefixLeavesOutOlder | src/AntLogistics.Core/Services/StockService.cs:152-154 | a prefix of the matching rows sorted newest first leaves out no matching row newer than its last row |
| Inventory.ListRecordsCutOff | src/AntLogistics.Core/Services/StockService.cs:152-155 | every matching row cut off the list is no newer than the last record listed |
| Inventory.ListResponsesComplete | src/AntLogistics.Core/Services/StockService.cs:132-159 | when the matching rows fit within the limit, the response of every matching stored row is listed |
| Inventory.FindById | src/AntLogistics.Core/Services/StockService.cs:103-105 | null exactly when no row has the id; otherwise a stored row with it |
| Inventory.AppendNextId | src/AntLogistics.Core/Services/StockService.cs:89-90 | appending the row with the next identity value keeps ids sequential; the new row is found by its id, and every other id answers as before |
| Stocks.StockToCreate | src/AntLogistics.Core/Services/StockService.cs:35-90 | fails exactly as the validation does; otherwise a row with the next id, the request's ids, quantity and operator, the named active commodity's SKU and unit, the zone or the warehouse's default zone, and `CreatedAt` from the store's clock |
| Stocks.StockService.CreateStock | src/AntLogistics.Core/Services/StockService.cs:30-96 | on success appends exactly that row and returns its response; on failure returns the error and leaves Stocks unchanged |
| Stocks.GetStockById | src/AntLogistics.Core/Services/StockService.cs:99-114 | null exactly for an unknown id; otherwise the response of a stored row with that id |
| Stocks.GetStocks | src/AntLogistics.Core/Services/StockService.cs:117-160 | every result is a stored row with the given warehouse and commodity and `from ≤ OccurredAt ≤ to`; newest first; min(matching, effective limit) results; no stored row listed more often than it is stored; a matching row left out is no newer than the last one listed |
| Stocks.GetStocksByWarehouse | src/AntLogistics.Core/Services/StockService.cs:163-171 | only stored rows of that warehouse with `from ≤ OccurredAt ≤ to`; newest first; min(matching, effective limit) results; no stored row listed more often than it is stored; a matching row of that kind left out is no newer than the last one listed |
| Stocks.GetStocksByWarehouseComplete | src/AntLogistics.Core/Services/StockService.cs:163-171 | when that warehouse's rows in the window fit within the limit, every one of them is listed |
| Stocks.GetStocksByCommodity | src/AntLogistics.Core/Services/StockService.cs:174-182 | only stored rows of that commodity with `from ≤ OccurredAt ≤ to`; newest first; min(matching, effective limit) results; no stored row listed more often than it is stored; a matching row of that kind left out is no newer than the last one listed |
| Stocks.GetStocksByCommodityComplete | src/AntLogistics.Core/Services/StockService.cs:174-182 | when that commodity's rows in the window fit within the limit, every one of them is listed |
| Stocks.StockDefaults | src/AntLogistics.Core/Services/StockService.cs:74-87 | with unique ids: SKU and unit are the named commodity's; blank zone, createdBy, source and metadata become the warehouse's default zone, "system", "manual" and "{}"; given values are kept; a missing `OccurredAt` is the application clock's `now`, and a given one is kept |
| Stocks.CreatedStockIsFoundById | src/AntLogistics.Core/Services/StockService.cs:89-105 | after a create, the by-id query returns the new row for its id and answers every other id as before |
| Models.Reading.constructor | src/AntLogistics.Core/Data/Models/Reading.cs:9-83 | a fresh reading has SKU "", zone "DEFAULT", source "manual", metadata "{}", empty createdBy and unit, and no batch or operator |
| Models.Reading.SetSku | src/AntLogistics.Core/Data/Models/Reading.cs:29-33 | null fails and keeps the SKU; otherwise the SKU becomes the lower-cased value; only the SKU changes; no upper-case letter is ever stored; assigning back the current SKU changes nothing |
| Models.Reading.Snapshot | src/AntLogistics.Core/Data/Models/Reading.cs:7-83 | the persisted row of a valid reading has a SKU without upper-case letters |
| Readings.ReadingToCreate | src/AntLogistics.Core/Services/ReadingService.cs:35-87 | fails exactly as the validation does; otherwise the stock path's row for the same request with the SKU lower-cased |
| Readings.NewReading | src/AntLogistics.Core/Services/ReadingService.cs:74-90 | building a `Reading` object (SKU through its setter) and saving it persists the shared record with the SKU lower-cased |
| Readings.ReadingService.CreateReading | src/AntLogistics.Core/Services/ReadingService.cs:30-96 | on success appends exactly that row and returns its response; on failure leaves Readings unchanged |
| Readings.GetReadingById | src/AntLogistics.Core/Services/ReadingService.cs:99-114 | null exactly for an unknown id; otherwise the response of a stored row with that id |
| Readings.GetReadings | src/AntLogistics.Core/Services/ReadingService.cs:117-160 | every result is a stored row passing all filters (inclusive window); newest first; min(matching, effective limit) results; no stored row listed more often than it is stored; a matching row left out is no newer than the last one listed |
| Readings.GetReadingsByWarehouse | src/AntLogistics.Core/Services/ReadingService.cs:163-171 | only stored rows of that warehouse with `from ≤ OccurredAt ≤ to`; newest first; min(matching, effective limit) results; no stored row listed more often than it is stored; a matching row of that kind left out is no newer than the last one listed |
| Readings.GetReadingsByWarehouseComplete | src/AntLogistics.Core/Services/ReadingService.cs:163-171 | when that warehouse's readings in the window fit within the limit, every one of them is listed |
| Readings.GetReadingsByCommodity | src/AntLogistics.Core/Services/ReadingService.cs:174-182 | only stored rows of that commodity with `from ≤ OccurredAt ≤ to`; newest first; min(matching, effective limit) results; no stored row listed more often than it is stored; a matching row of that kind left out is no newer than the last one listed |
| Readings.GetReadingsByCommodityComplete | src/AntLogistics.Core/Services/ReadingService.cs:174-182 | when that commodity's readings in the window fit within the limit, every one of them is listed |
| Readings.ReadingSkuIsCommoditySku | src/AntLogistics.Core/Services/ReadingService.cs:78 | with unique ids, a reading's SKU is the named commodity's SKU lower-cased, and equals it when that SKU is already lower-case |
| Readings.CreatedReadingIsFoundById | src/AntLogistics.Core/Services/ReadingService.cs:89-105 | after a create, the by-id query returns the new row for its id and answers every other id as before |
| Commodities.CommodityToCreate | src/AntLogistics.Core/Services/CommodityService.cs:32-70 | the errors and their order: blank SKU; else blank name; else blank unit; else a stored SKU equal to the lower-cased request SKU; otherwise a commodity with the lower-cased, previously unused SKU, the request's name, unit, batch and active flags, "{}" for blank control parameters, the next id and `CreatedAt = now` |
| Commodities.CommodityService.CreateCommodity | src/AntLogistics.Core/Services/CommodityService.cs:28-78 | on success appends exactly that commodity and returns its response; on failure leaves the catalogue unchanged |
| Commodities.GetCommodityById | src/AntLogistics.Core/Services/CommodityService.cs:81-96 | null exactly for an unknown id; otherwise a stored commodity with that id |
| Commodities.GetCommodityBySku | src/AntLogistics.Core/Services/CommodityService.cs:121-138 | null exactly when no stored SKU equals the lower-cased argument; otherwise such a commodity |
| Commodities.SkuOrderIsTotalPreorder | src/AntLogistics.Core/Services/CommodityService.cs:112 | ordering by SKU is a total preorder, so the catalogue can be sorted by it |
| Commodities.Catalogue | src/AntLogistics.Core/Services/CommodityService.cs:103-113 | exactly the active commodities (all of them when inactive ones are included), each as often as stored, in ascending SKU order |
| Commodities.GetAllCommodities | src/AntLogistics.Core/Services/CommodityService.cs:99-118 | as many responses as listed commodities: only active ones unless inactive are included, every listed one present, each from a stored commodity, ascending SKU order |
| Commodities.CreateKeepsSkusCanonical | src/AntLogistics.Core/Services/CommodityService.cs:52-70 | creating keeps stored SKUs lower-case and unique |
| Commodities.DuplicateSkuIgnoresCase | src/AntLogistics.Core/Services/CommodityService.cs:52-60 | over lower-case stored SKUs, a create is a duplicate exactly when a stored SKU equals the requested one up to case |
| Commodities.CreatedCommodityIsFoundById | src/AntLogistics.Core/Services/CommodityService.cs:72-96 | creates keep commodity ids numbered 1, 2, 3, ... and so unique; the by-id lookup then returns the new commodity for its id and answers every other id as before |
| Commodities.CreatedCommodityIsFoundBySku | src/AntLogistics.Core/Services/CommodityService.cs:121-137 | after a create, the SKU lookup finds the new commodity under any casing of its SKU; other SKUs answer as before |
| Warehouses.CommoditiesOf | src/AntLogistics.Core/Services/WarehouseService.cs:70 | the loaded collection holds exactly the stored commodities linked to the warehouse |
| Warehouses.WarehouseToCreate | src/AntLogistics.Core/Services/WarehouseService.cs:33-56 | fails exactly when a stored warehouse has the same code; otherwise a warehouse with name, code, address, city, country, postal code, capacity and active flag copied, zone "DEFAULT", the next id, `CreatedAt = now` from the audit pass and no `UpdatedAt` |
| Warehouses.WarehouseService.CreateWarehouse | src/AntLogistics.Core/Services/WarehouseService.cs:28-61 | runs the audit pass on the new Added entry, then appends exactly that warehouse and returns it with `CommodityCount = 0`; on failure leaves Warehouses unchanged |
| Warehouses.GetWarehouseById | src/AntLogistics.Core/Services/WarehouseService.cs:64-80 | null exactly for an unknown id; otherwise that warehouse with `CommodityCount` equal to the number of its commodities |
| Warehouses.GetWarehouseByCode | src/AntLogistics.Core/Services/WarehouseService.cs:104-120 | null exactly when no stored code equals the argument; otherwise a warehouse with exactly that code |
| Warehouses.GetAllWarehouses | src/AntLogistics.Core/Services/WarehouseService.cs:83-101 | exactly one response per active warehouse (per warehouse when inactive ones are included), and nothing else |
| Warehouses.CreatedWarehouseIsFoundById | src/AntLogistics.Core/Services/WarehouseService.cs:55-80 | creates keep warehouse ids numbered 1, 2, 3, ... and so unique; the by-id lookup then returns the new warehouse for its id and answers every other id as before |
| Warehouses.CreatedWarehouseIsFoundByCode | src/AntLogistics.Core/Services/WarehouseService.cs:104-120 | after a create, the code lookup finds the new warehouse; other codes answer as before |
| Warehouses.CreateKeepsCodesUnique | src/AntLogistics.Core/Services/WarehouseService.cs:33-41 | creating keeps stored codes unique |
| Warehouses.CodeCheckIsCaseSensitive | src/AntLogistics.Core/Services/WarehouseService.cs:35 | with "WH-1" stored, "wh-1" is accepted |
| Authorization.Authenticate | src/AntLogistics.Core/Services/AuthorizationService.cs:17-46 | blank input gives false with nothing changed; true exactly when exactly one active operator has the normalised username and the password verifies; two such operators is an error; every other outcome (no such operator, a wrong password) is false; only a true answer changes the table, and only that operator's `LastLoginAt`, which becomes `now` |
| Authorization.AuthorizationService.ValidateCredentials | src/AntLogistics.Core/Services/AuthorizationService.cs:17-46 | its answer and the new operators table are those of `Authenticate` |
| Authorization.LoginNeverAmbiguous | src/AntLogistics.Core/Services/AuthorizationService.cs:26 | while active usernames are unique the lookup never throws, and a login keeps them unique |
| Authorization.StampKeepsUnique | src/AntLogistics.Core/Services/AuthorizationService.cs:34-37 | recording a login time keeps active usernames unique |
| Authorization.UniqueActiveMatch | src/AntLogistics.Core/Services/AuthorizationService.cs:26 | under that invariant the active operator with the username is the lookup's only match |
| Authorization.LoginMatchesNormalisedUsername | src/AntLogistics.Core/Services/AuthorizationService.cs:24-45 | for an operator stored under the normalised form of the given username, the answer is exactly the password check |
| Authorization.LoginIsRepeatable | src/AntLogistics.Core/Services/AuthorizationService.cs:33-37 | a successful login succeeds again later with the same credentials |
| Authorization.OnlyLowerCaseUsernamesLogIn | src/AntLogistics.Core/Services/AuthorizationService.cs:24-26 | an operator whose stored username has an upper-case letter is never the one a login stamps |
| Authorization.LoginKeyExample | src/AntLogistics.Core/Services/AuthorizationService.cs:24 | "TestUser" is looked up as "testuser" |

## Where the code and its documentation disagree

In each of these cases the model follows the code.

- The warehouse duplicate check and the code lookup compare codes exactly, so "WH-1" and "wh-1"
  do not conflict (`Warehouses.CodeCheckIsCaseSensitive`). The warehouse service tests expect
  the codes to be normalised so that they conflict, and a non-positive capacity to be refused.
  This service does neither.
- `SaveChangesAsync` stamps only `CreatedAt` on an Added warehouse. The auditing tests also expect
  `UpdatedAt` to be set on add, and `OccurredAt` to be stamped on stocks.
- `CommodityResponse` has no `BatchRequired` property, but the commodity mapper assigns one. The
  model's response carries the flag, as the mapper intends.

## Left out

- The HTTP layer, JWT and cookie sessions, CORS and the mapping from exceptions to HTTP status
  codes: framework code.
- The UI projects and the EF Core migrations: rendering and DDL.
  - The migrations' check constraints (lower-case usernames and codes, positive capacity and
    quantity, and so on) are not stated as store invariants. The services do not enforce them.
- Async execution, cancellation and logging: plumbing with no effect on results.
- `BCrypt.Verify` is the `verify` parameter, `DateTime.UtcNow` is the `now` parameter and the
  store's clock is the `storeNow` parameter; none is modelled further.
- Text.Lower: folds only the ASCII letters A–Z. `ToLowerInvariant` also folds non-ASCII letters.
- Text.LexLe: orders SKUs by ordinal character comparison. The database orders by its own
  collation.
- `decimal` quantities and capacities are unbounded reals. Their 28-digit precision and their
  scale are not modelled.
- Identifiers:
  - Every identifier is a natural number. The source mixes `int`, `long` and `Guid` across its
    versions.
  - A new row's identity value is the table length plus one.
- Creation times of stock and reading rows come from the store's column default `now()`: the
  `storeNow` parameter, which the model does not relate to the application's `now`. The
  commodity create reads no application clock, so its one `now` stands for the store's clock.
- The underlying base save and EF change tracking are modelled as the services' appends and
  in-place updates.
  - The audit pass is applied to the one entry each warehouse create adds. Other tracked
    entities are not stamped by this code.
- Data.LogisticsDb.StampAuditFields: uses one `now` for every entry. The source reads
  `DateTime.UtcNow` afresh for each entry, so with several tracked entries their stamps may
  differ slightly. Each create tracks a single entry, where the two agree.
- Data.LogisticsDb.constructor: accepts any initial tables. The numbering of identity columns
  (`SequentialIds`, `NumberedFromOne`) is an invariant the creates are proved to keep, not one
  the store is proved to start with.
- Commodities.CommodityToCreate: assumes the request's strings are non-null, as their
  non-nullable declarations say. A null SKU would throw a `NullReferenceException` before the
  blank check, because the SKU is lower-cased first. The model does not represent that.
- Inventory.NewestFirst: does not fix the order among rows with equal `OccurredAt`. The query
  leaves that order to the database.
- Commodities.Catalogue: likewise does not fix the order among commodities with equal SKUs.
- `Reading.BatchNumber`: the `Reading` class holds it, but no service assigns it. The shared
  stock/reading record does not carry it.
- The `Stock` entity class is not part of this model. Stock rows copy the commodity's SKU
  unchanged, because no setter is known to normalise it.
- `GetStocksByWarehouse` and `GetStocksByCommodity` (and their reading twins) are defined as the
  general query with one filter set. Their contracts state its filter, window, order and count
  guarantees for that filter.
- Warehouses.WarehouseToCreate: copies the request's `IsActive` into the new row, as the
  in-memory store does. The `IsActive` column has the store default `true`
  (`src/AntLogistics.Core/Data/AntLogisticsDbContext.cs:67-69`). On the PostgreSQL provider the
  service is configured with, EF Core leaves a CLR `false` out of the INSERT for such a column,
  so a warehouse created inactive is stored active. The model does not capture that behaviour.
