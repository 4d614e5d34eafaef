/**
 * The persisted entities (record shapes only: the entity classes carry no logic apart from
 * Reading, modelled in its own module) and the error kinds the services raise.
 * Identifiers are naturals, `decimal` values are reals and `DateTime` values are integer ticks.
 */
module Entities {
  import opened Wrappers

  type Ticks = int

  /** `default(DateTime)`: the value an audit field holds before anything stamps it. */
  const UnsetTime: Ticks := 0

  datatype Warehouse = Warehouse(
    id: nat,
    name: string,
    code: string,
    address: string,
    city: string,
    country: string,
    postalCode: Option<string>,
    defaultZone: string,
    capacity: real,
    isActive: bool,
    deactivatedAt: Option<Ticks>,
    createdAt: Ticks,
    updatedAt: Option<Ticks>)

  datatype Commodity = Commodity(
    id: nat,
    sku: string,
    name: string,
    unitOfMeasure: string,
    batchRequired: bool,
    controlParameters: string,
    isActive: bool,
    deactivatedAt: Option<Ticks>,
    createdAt: Ticks,
    updatedAt: Option<Ticks>,
    warehouseId: nat)

  datatype OperatorRole = OperatorRole | AdminRole

  datatype Operator = Operator(
    id: nat,
    username: string,
    passwordHash: string,
    fullName: string,
    role: OperatorRole,
    idleTimeoutMinutes: int,
    isActive: bool,
    lastLoginAt: Option<Ticks>,
    createdAt: Ticks,
    updatedAt: Option<Ticks>)

  /** The `InvalidOperationException`s (and the one `ArgumentNullException`) the core throws, by cause. */
  datatype ServiceError =
    | InvalidQuantity
    | WarehouseNotFound(warehouseId: nat)
    | CommodityNotFound(commodityId: nat)
    | OperatorNotFound(operatorId: nat)
    | SkuRequired
    | NameRequired
    | UnitOfMeasureRequired
    | DuplicateSku(sku: string)
    | DuplicateCode(code: string)
    | AmbiguousOperator
    | NullArgument
}
