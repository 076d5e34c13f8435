/** Values shared by every part of the model: optional values, the errors the
    controllers and repositories raise, and the dynamic attribute values an
    ORM object carries. */
module Common {

  datatype Option<T> = None | Some(value: T)

  /** Every exception the modelled code raises, one constructor per message. */
  datatype Error =
    // inventory ledger (src/controller/inventory_controller.py)
    | StockRequired                                   // "new_stock must be provided."
    | NegativeStock                                   // "new_stock cannot be negative."
    | QuantityNotPositive                             // "Quantity must be positive."
    | InventoryNotFound(productId: int)               // "Inventory record not found for product ID .."
    | InsufficientStock(current: int, requested: int) // "Insufficient stock (Current: ..) to deduct .."
    // the database refusing a flush or commit (IntegrityError, DataError)
    | CommitRejected
    // Decimal(str(v)) on a value that is not a number (decimal.InvalidOperation)
    | NotADecimal
    // a call with a keyword the callee does not declare (TypeError)
    | UnexpectedKeyword(keyword: string)
    // products
    | ProductNameTaken(name: string)                  // "Product with name '..' already exists."
    | ProductNameBlank                                // "Product name cannot be blank."
    | CategoryMissing(categoryId: int)                // "Category with ID .. does not exist."
    // categories
    | CategoryNameRequired                            // "Category name is required."
    | CategoryNameBlank                               // "Category name cannot be blank."
    | CategoryNameTaken(name: string)                 // "Category with name '..' already exists."
    | CategoryNotFound(categoryId: int)               // "Category with ID .. not found."
    | CategoryUpdateFailed(categoryId: int)           // "Failed to update category ID .."
    // services
    | ServiceNameTaken(name: string)                  // "Service with name '..' already exists."
    | ServiceNotFound(serviceId: int)                 // "Service with ID .. not found."
    // admin and technical accounts (HTTPException with a status and a detail)
    | Http(status: int, detail: string)
    // settings: int() of an environment value that is not an integer literal
    | NotAnInteger(text: string)

  datatype Result<T> = Ok(value: T) | Err(error: Error)

  /** A Python attribute value as the ORM object holds it. Decimal amounts are
      exact integers in hundredths (the scale of a Numeric(10,2) column);
      dates are day numbers. */
  datatype Value =
    | VNone
    | VInt(i: int)
    | VNum(hundredths: int)
    | VText(text: string)
    | VBool(flag: bool)
    | VDate(day: int)

  /** An ORM object: its attribute names and their values. */
  type Record = map<string, Value>

  function OptionalNum(o: Option<int>): (v: Value)
    ensures o.None? <==> v == VNone
    ensures o.Some? ==> v == VNum(o.value)
  {
    match o
    case None => VNone
    case Some(n) => VNum(n)
  }

  function OptionalDate(o: Option<int>): (v: Value)
    ensures o.None? <==> v == VNone
    ensures o.Some? ==> v == VDate(o.value)
  {
    match o
    case None => VNone
    case Some(d) => VDate(d)
  }

  function OptionalInt(o: Option<int>): (v: Value)
    ensures o.None? <==> v == VNone
    ensures o.Some? ==> v == VInt(o.value)
  {
    match o
    case None => VNone
    case Some(n) => VInt(n)
  }

  /** A Numeric(10,2) column holds at most 8 digits before the point:
      PostgreSQL refuses anything of absolute value 10^8 or more
      ("numeric field overflow"). In hundredths that is 10^10. */
  const NumericBound: int := 10_000_000_000

  predicate FitsNumeric(hundredths: int) {
    -NumericBound < hundredths < NumericBound
  }
}
