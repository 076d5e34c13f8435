/** The request schemas of src/models/product_model.py: the field bounds
    and validators of ProductCreate and ProductUpdate. A payload is
    validated field by field in declaration order; every field that fails
    adds its error and is then missing from the values later validators
    see, and a field's own validator only runs once its bound has passed.
    Amounts are hundredths; an absent key is None. */
module ProductModel {
  import opened Common
  import opened Text

  /** One entry of a validation error list. */
  datatype FieldError =
    | FieldRequired(field: string)     // a required field with no value
    | NameTooShort                     // min_length=1
    | NameBlank                        // "Product name cannot be blank."
    | PriceNotPositive                 // selling_price: gt=0
    | NegativeAmount(field: string)    // ge=0
    | CostExceedsPrice                 // "Unit cost cannot exceed selling price."

  /** The outcome of validating a payload: the parsed model, or the list
      of every field error. */
  datatype Validated<T> = Accepted(value: T) | Refused(errors: seq<FieldError>)

  /** A create request as it arrives. */
  datatype CreatePayload = CreatePayload(
    name: Option<string>,
    sellingPrice: Option<int>,
    unitCost: Option<int>,
    categoryId: Option<int>,
    initialStock: Option<int>,
    minStockLevel: Option<int>)

  /** A validated ProductCreate: initial_stock has taken its default. */
  datatype ProductCreate = ProductCreate(
    name: string,
    sellingPrice: int,
    unitCost: Option<int>,
    categoryId: Option<int>,
    initialStock: int,
    minStockLevel: Option<int>)

  /** An update request: every field optional. */
  datatype ProductUpdate = ProductUpdate(
    name: Option<string>,
    sellingPrice: Option<int>,
    unitCost: Option<int>,
    categoryId: Option<int>)

  /** The name field: min_length=1 first, then name_not_blank. The name
      is kept as given, not stripped. */
  function NameErrors(name: string): (e: seq<FieldError>)
    ensures e == [] <==> exists k :: 0 <= k < |name| && !IsSpace(name[k])
    ensures e == [] <==> !IsBlank(name)
    ensures e != [] ==> e == [if name == [] then NameTooShort else NameBlank]
  {
    BlankIffAllSpace(name);
    if name == [] then [NameTooShort]
    else if IsBlank(name) then [NameBlank]
    else []
  }

  /** selling_price: gt=0. */
  function PriceErrors(price: int): (e: seq<FieldError>)
    ensures e == [] <==> price > 0
  {
    if price > 0 then [] else [PriceNotPositive]
  }

  /** ge=0 on an optional amount; None passes. */
  function NonNegativeErrors(field: string, amount: Option<int>): (e: seq<FieldError>)
    ensures e == [] <==> amount.None? || amount.value >= 0
    ensures e != [] ==> e == [NegativeAmount(field)]
  {
    if amount.Some? && amount.value < 0 then [NegativeAmount(field)] else []
  }

  /** unit_cost: ge=0, then the cost rule against the selling price as it
      stands among the values validated so far (None when selling_price
      was absent or failed). */
  function CostErrors(cost: Option<int>, validPrice: Option<int>): (e: seq<FieldError>)
    ensures CostExceedsPrice in e <==> cost.Some? && cost.value >= 0 && validPrice.Some? && cost.value > validPrice.value
    ensures NegativeAmount("unit_cost") in e <==> cost.Some? && cost.value < 0
    ensures |e| <= 1
  {
    if cost.None? then []
    else if cost.value < 0 then [NegativeAmount("unit_cost")]
    else if validPrice.Some? && cost.value > validPrice.value then [CostExceedsPrice]
    else []
  }

  /** The selling price as later validators of the same payload see it. */
  function ValidPrice(price: Option<int>): (v: Option<int>)
    ensures v.Some? <==> price.Some? && price.value > 0
    ensures v.Some? ==> v == price
  {
    if price.Some? && price.value > 0 then price else None
  }

  /** Every rule ProductCreate imposes, stated field by field. */
  predicate CreateRules(p: CreatePayload) {
    && p.name.Some? && (exists k :: 0 <= k < |p.name.value| && !IsSpace(p.name.value[k]))
    && p.sellingPrice.Some? && p.sellingPrice.value > 0
    && (p.unitCost.Some? ==> 0 <= p.unitCost.value <= p.sellingPrice.value)
    && (p.initialStock.Some? ==> p.initialStock.value >= 0)
    && (p.minStockLevel.Some? ==> p.minStockLevel.value >= 0)
  }

  /** The errors of a create payload, in field order. */
  function CreateErrors(p: CreatePayload): (e: seq<FieldError>)
    ensures e == [] <==> CreateRules(p)
    ensures CostExceedsPrice in e <==>
      p.unitCost.Some? && p.unitCost.value >= 0 && p.sellingPrice.Some? && p.sellingPrice.value > 0
      && p.unitCost.value > p.sellingPrice.value
    ensures p.name.None? ==> e[0] == FieldRequired("name")
  {
    var nameErrors := if p.name.None? then [FieldRequired("name")] else NameErrors(p.name.value);
    var priceErrors := if p.sellingPrice.None? then [FieldRequired("selling_price")] else PriceErrors(p.sellingPrice.value);
    var costErrors := CostErrors(p.unitCost, ValidPrice(p.sellingPrice));
    var stockErrors := NonNegativeErrors("initial_stock", p.initialStock);
    var minErrors := NonNegativeErrors("min_stock_level", p.minStockLevel);
    assert CostExceedsPrice !in nameErrors + priceErrors + stockErrors + minErrors;
    nameErrors + priceErrors + costErrors + stockErrors + minErrors
  }

  /** ProductCreate(**payload). */
  function ValidateCreate(p: CreatePayload): (r: Validated<ProductCreate>)
    ensures r.Accepted? <==> CreateRules(p)
    ensures r.Refused? ==> r.errors != []
    ensures r.Accepted? ==>
      && r.value.name == p.name.value
      && r.value.sellingPrice == p.sellingPrice.value
      && r.value.unitCost == p.unitCost
      && r.value.categoryId == p.categoryId
      && r.value.initialStock == (if p.initialStock.Some? then p.initialStock.value else 0)
      && r.value.minStockLevel == p.minStockLevel
  {
    var errors := CreateErrors(p);
    if errors != [] then Refused(errors)
    else
      Accepted(ProductCreate(p.name.value, p.sellingPrice.value, p.unitCost, p.categoryId,
        if p.initialStock.Some? then p.initialStock.value else 0, p.minStockLevel))
  }

  /** A unit cost equal to the selling price is accepted. */
  lemma CostEqualToPriceAccepted(name: string, price: int)
    requires price > 0 && !IsBlank(name)
    ensures ValidateCreate(CreatePayload(Some(name), Some(price), Some(price), None, None, None)).Accepted?
  {
    var e := NameErrors(name);
  }

  /** The cost rule is skipped when the selling price is absent or itself
      invalid: the payload is refused for the price alone. */
  lemma CostRuleNeedsValidPrice(p: CreatePayload)
    requires p.name.Some? && !IsBlank(p.name.value)
    requires p.sellingPrice.Some? && p.sellingPrice.value <= 0
    requires p.unitCost.Some? && p.unitCost.value > 0
    requires p.initialStock.None? && p.minStockLevel.None?
    ensures ValidateCreate(p) == Refused([PriceNotPositive])
  {
    var e := NameErrors(p.name.value);
  }

  /** Every rule ProductUpdate imposes: only the fields that are given are
      checked, and the cost rule only when both amounts are given. */
  predicate UpdateRules(p: ProductUpdate) {
    && (p.name.Some? ==> exists k :: 0 <= k < |p.name.value| && !IsSpace(p.name.value[k]))
    && (p.sellingPrice.Some? ==> p.sellingPrice.value > 0)
    && (p.unitCost.Some? ==> p.unitCost.value >= 0)
    && (p.unitCost.Some? && p.sellingPrice.Some? ==> p.unitCost.value <= p.sellingPrice.value)
  }

  /** The errors of an update payload, in field order. */
  function UpdateErrors(p: ProductUpdate): (e: seq<FieldError>)
    ensures e == [] <==> UpdateRules(p)
    ensures CostExceedsPrice in e ==> p.sellingPrice.Some? && p.unitCost.Some?
    ensures FieldRequired("name") !in e && FieldRequired("selling_price") !in e
  {
    var nameErrors := if p.name.None? then [] else NameErrors(p.name.value);
    var priceErrors := if p.sellingPrice.None? then [] else PriceErrors(p.sellingPrice.value);
    var costErrors := CostErrors(p.unitCost, ValidPrice(p.sellingPrice));
    nameErrors + priceErrors + costErrors
  }

  /** ProductUpdate(**payload): the accepted model is the payload itself. */
  function ValidateUpdate(p: ProductUpdate): (r: Validated<ProductUpdate>)
    ensures r.Accepted? <==> UpdateRules(p)
    ensures r.Accepted? ==> r.value == p
    ensures r.Refused? ==> r.errors != []
  {
    var errors := UpdateErrors(p);
    if errors != [] then Refused(errors) else Accepted(p)
  }

  /** An empty update passes, and so does a blank-free rename alone. */
  lemma PartialUpdatesAccepted(name: string)
    requires !IsBlank(name)
    ensures ValidateUpdate(ProductUpdate(None, None, None, None)).Accepted?
    ensures ValidateUpdate(ProductUpdate(Some(name), None, None, None)).Accepted?
  {
    var e := NameErrors(name);
  }

  /** A cost above the current price is not caught by an update that does
      not restate the price. */
  lemma UpdateCostAlone(cost: int)
    requires cost >= 0
    ensures ValidateUpdate(ProductUpdate(None, None, Some(cost), None)).Accepted?
  {
  }
}
