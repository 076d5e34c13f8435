/** The product catalogue as the two tables `products` and `inventory` hold
    it, typed, and what each product operation does to them: the pair
    insert and the pair delete of src/repositories/product_repositories.py,
    both as written and as intended, the older variants of
    src/repositories/productrepository_repositorie.py, and the checks of
    src/controller/product_controller.py. The repository and controller
    classes are proved against these functions. */
module Catalog {
  import opened Common
  import opened Text
  import opened Schema

  datatype Tables = Tables(products: Products, stock: Stock)

  /** The invariant of the product/inventory pair: every product has
      exactly one inventory row and every inventory row has its product. */
  predicate Paired(c: Tables) {
    c.products.Keys == c.stock.Keys
  }

  /** The foreign key inventory.product_id -> products.product_id, which
      the database itself enforces. */
  predicate Linked(c: Tables) {
    c.stock.Keys <= c.products.Keys
  }

  /** Every row keyed by its own id and within its columns. */
  predicate WellFormed(c: Tables) {
    && (forall k :: k in c.products ==> c.products[k].productId == k && ProductFits(c.products[k]))
    && (forall k :: k in c.stock ==> c.stock[k].productId == k && InventoryFits(c.stock[k]))
  }

  /** The arguments of a product creation. Amounts are hundredths, dates
      day numbers. */
  datatype NewProduct = NewProduct(
    name: string,
    sellingPrice: int,
    unitCost: Option<int>,
    categoryId: Option<int>,
    initialStock: Option<int>,
    minStockLevel: Option<int>,
    lastRestockDate: Option<int>)

  /** The product row created under `id`. */
  function NewRow(id: int, n: NewProduct): (p: Product)
    ensures p.productId == id && p.name == n.name && p.sellingPrice == n.sellingPrice
    ensures p.unitCost == n.unitCost && p.categoryId == n.categoryId
  {
    Product(id, n.name, n.unitCost, n.sellingPrice, n.categoryId)
  }

  /** The inventory row created with it: `initial_stock or 0`, a reorder
      point and a restock date as given. */
  function NewStock(id: int, n: NewProduct): (inv: Inventory)
    ensures inv.productId == id
    ensures inv.currentStock == if n.initialStock.Some? then n.initialStock.value else 0
    ensures inv.minStockLevel == n.minStockLevel && inv.lastRestockDate == n.lastRestockDate
  {
    Inventory(id, if n.initialStock.Some? then n.initialStock.value else 0, n.minStockLevel, n.lastRestockDate)
  }

  /** `categories` does not hold the category the arguments name. */
  predicate CategoryAbsent(categories: set<int>, categoryId: Option<int>) {
    categoryId.Some? && categoryId.value !in categories
  }

  /** Binding keyword arguments to a Python function's parameters: the
      first keyword, in call order, that names no parameter raises
      TypeError. */
  function FirstUnexpected(given: seq<string>, params: set<string>): (r: Option<string>)
    ensures r.None? <==> forall i :: 0 <= i < |given| ==> given[i] in params
    ensures r.Some? ==> exists i :: 0 <= i < |given| && given[i] == r.value && r.value !in params
                                    && forall j :: 0 <= j < i ==> given[j] in params
  {
    if given == [] then None
    else if given[0] !in params then Some(given[0])
    else
      var rest := FirstUnexpected(given[1..], params);
      if rest.Some? then
        ghost var i :| 0 <= i < |given[1..]| && given[1..][i] == rest.value && rest.value !in params
                       && forall j :: 0 <= j < i ==> given[1..][j] in params;
        assert given[i + 1] == rest.value;
        rest
      else
        assert forall i :: 1 <= i < |given| ==> given[i] == given[1..][i - 1];
        rest
  }

  /** The parameters of create_inventory (inventory_repositories.py). */
  const CreateInventoryParameters: set<string> :=
    {"product_id", "current_stock", "min_stock_level", "last_restock_date"}

  /** The keywords product_repositories.py passes to create_inventory. */
  const AsWrittenKeywords: seq<string> :=
    ["product_id", "current_stock", "min_stock_level", "last_restock_data"]

  /** The keywords that match the parameters. */
  const IntendedKeywords: seq<string> :=
    ["product_id", "current_stock", "min_stock_level", "last_restock_date"]

  /** The call as written names the column, not the parameter. */
  lemma AsWrittenKeywordsRejected()
    ensures FirstUnexpected(AsWrittenKeywords, CreateInventoryParameters) == Some("last_restock_data")
    ensures FirstUnexpected(IntendedKeywords, CreateInventoryParameters) == None
  {
    assert AsWrittenKeywords[3] !in CreateInventoryParameters;
  }

  /** ProductRepository.create, calling create_inventory with `keywords`:
      the category check before any write, the product insert and flush,
      which draws the product's id and may be refused, the call, and the
      inventory insert and flush. Any failure inside the savepoint rolls
      back both inserts. */
  function CreateWith(c: Tables, categories: set<int>, id: int, keywords: seq<string>, n: NewProduct)
    : (s: (Result<Product>, Tables))
  {
    if CategoryAbsent(categories, n.categoryId) then (Err(CategoryMissing(n.categoryId.value)), c)
    else if id in c.products || !ProductFits(NewRow(id, n)) then (Err(CommitRejected), c)
    else
      var unexpected := FirstUnexpected(keywords, CreateInventoryParameters);
      if unexpected.Some? then (Err(UnexpectedKeyword(unexpected.value)), c)
      else if id in c.stock || !InventoryFits(NewStock(id, n)) then (Err(CommitRejected), c)
      else (Ok(NewRow(id, n)), Tables(c.products[id := NewRow(id, n)], c.stock[id := NewStock(id, n)]))
  }

  /** ProductRepository.create as intended. */
  function Create(c: Tables, categories: set<int>, id: int, n: NewProduct): (s: (Result<Product>, Tables))
  {
    CreateWith(c, categories, id, IntendedKeywords, n)
  }

  /** ProductRepository.create as written never creates a product: once the
      category and the product row pass, the call to create_inventory
      raises TypeError, and the savepoint rolls the product back. */
  lemma CreateAsWrittenNeverCreates(c: Tables, categories: set<int>, id: int, n: NewProduct)
    ensures CreateWith(c, categories, id, AsWrittenKeywords, n).0.Err?
    ensures CreateWith(c, categories, id, AsWrittenKeywords, n).1 == c
    ensures !CategoryAbsent(categories, n.categoryId) && id !in c.products && ProductFits(NewRow(id, n)) ==>
      CreateWith(c, categories, id, AsWrittenKeywords, n).0 == Err(UnexpectedKeyword("last_restock_data"))
  {
    AsWrittenKeywordsRejected();
  }

  /** The intended create: refused with no write exactly when the category
      is missing or a row does not fit its columns; otherwise the product
      and its inventory row appear together under the new id, so the pair
      invariant and the foreign key survive. */
  lemma CreateSpec(c: Tables, categories: set<int>, id: int, n: NewProduct)
    requires WellFormed(c) && Linked(c) && id !in c.products
    ensures var (r, c') := Create(c, categories, id, n);
      && (r.Ok? <==> !CategoryAbsent(categories, n.categoryId) && ProductFits(NewRow(id, n))
                     && InventoryFits(NewStock(id, n)))
      && (CategoryAbsent(categories, n.categoryId) ==> r == Err(CategoryMissing(n.categoryId.value)))
      && (r.Err? ==> c' == c)
      && (r.Ok? ==> r.value == NewRow(id, n)
                    && c'.products == c.products[id := NewRow(id, n)]
                    && c'.stock == c.stock[id := NewStock(id, n)])
      && WellFormed(c') && Linked(c')
      && (Paired(c) ==> Paired(c'))
  {
    AsWrittenKeywordsRejected();
  }

  /** The product after an update that assigns only the arguments that are
      not None. */
  function ProductOverlay(p: Product, name: Option<string>, sellingPrice: Option<int>, unitCost: Option<int>,
                          categoryId: Option<int>): (r: Product)
    ensures r.productId == p.productId
    ensures r.name == if name.Some? then name.value else p.name
    ensures r.sellingPrice == if sellingPrice.Some? then sellingPrice.value else p.sellingPrice
    ensures r.unitCost == if unitCost.Some? then unitCost else p.unitCost
    ensures r.categoryId == if categoryId.Some? then categoryId else p.categoryId
  {
    var r := if name.Some? then p.(name := name.value) else p;
    var r := if sellingPrice.Some? then r.(sellingPrice := sellingPrice.value) else r;
    var r := if unitCost.Some? then r.(unitCost := unitCost) else r;
    if categoryId.Some? then r.(categoryId := categoryId) else r
  }

  /** `name.strip()` when a name is given. */
  function StrippedName(name: Option<string>): (r: Option<string>)
    ensures r.Some? <==> name.Some?
    ensures r.Some? ==> r.value == Strip(name.value)
  {
    if name.Some? then Some(Strip(name.value)) else None
  }

  /** ProductRepository.update: the category check comes before the
      lookup; the name, when given, is stored stripped. */
  function Update(c: Tables, categories: set<int>, id: int, name: Option<string>, sellingPrice: Option<int>,
                  unitCost: Option<int>, categoryId: Option<int>): (s: (Result<Option<Product>>, Tables))
  {
    if CategoryAbsent(categories, categoryId) then (Err(CategoryMissing(categoryId.value)), c)
    else if id !in c.products then (Ok(None), c)
    else
      var p := ProductOverlay(c.products[id], StrippedName(name), sellingPrice, unitCost, categoryId);
      if ProductFits(p) then (Ok(Some(p)), c.(products := c.products[id := p])) else (Err(CommitRejected), c)
  }

  /** ProductRepository.update: a missing category is refused even for a
      product that does not exist; a found product keeps every field whose
      argument is None; inventory is never touched, so the pair survives. */
  lemma UpdateSpec(c: Tables, categories: set<int>, id: int, name: Option<string>, sellingPrice: Option<int>,
                   unitCost: Option<int>, categoryId: Option<int>)
    requires WellFormed(c)
    ensures var (r, c') := Update(c, categories, id, name, sellingPrice, unitCost, categoryId);
      && c'.stock == c.stock && c'.products.Keys == c.products.Keys
      && WellFormed(c') && (Paired(c) ==> Paired(c')) && (Linked(c) ==> Linked(c'))
      && (CategoryAbsent(categories, categoryId) ==> r == Err(CategoryMissing(categoryId.value)) && c' == c)
      && (!CategoryAbsent(categories, categoryId) && id !in c.products ==> r == Ok(None) && c' == c)
      && (r.Ok? && r.value.Some? ==>
            && r.value.value == c'.products[id]
            && (name.Some? ==> r.value.value.name == Strip(name.value))
            && (name.None? ==> r.value.value.name == c.products[id].name)
            && (sellingPrice.None? ==> r.value.value.sellingPrice == c.products[id].sellingPrice)
            && (unitCost.None? ==> r.value.value.unitCost == c.products[id].unitCost)
            && (categoryId.None? ==> r.value.value.categoryId == c.products[id].categoryId))
  {
  }

  /** ProductRepository.delete as intended: one transaction, so a product
      that a service still uses keeps its inventory row too. */
  function Delete(c: Tables, referenced: set<int>, id: int): (s: (Result<bool>, Tables))
  {
    if id !in c.products then (Ok(false), c)
    else if id in referenced then (Err(CommitRejected), c)
    else (Ok(true), Tables(c.products - {id}, c.stock - {id}))
  }

  /** ProductRepository.delete as written: delete_inventory commits the
      removal of the inventory row, then the product's own delete commits,
      or is refused while a service still uses the product. */
  function DeleteAsWritten(c: Tables, referenced: set<int>, id: int): (s: (Result<bool>, Tables))
  {
    var stock := c.stock - {id};
    if id !in c.products then (Ok(false), c.(stock := stock))
    else if id in referenced then (Err(CommitRejected), c.(stock := stock))
    else (Ok(true), Tables(c.products - {id}, stock))
  }

  /** The intended delete keeps the pair: True exactly when the product
      existed and went, with its inventory row; False when there was no
      such product; otherwise nothing changes. */
  lemma DeleteSpec(c: Tables, referenced: set<int>, id: int)
    requires Paired(c)
    ensures var (r, c') := Delete(c, referenced, id);
      && Paired(c')
      && (r == Ok(true) <==> id in c.products && id !in referenced)
      && (r == Ok(false) <==> id !in c.products)
      && (r == Ok(true) ==> c'.products == c.products - {id} && c'.stock == c.stock - {id})
      && (r != Ok(true) ==> c' == c)
  {
  }

  /** Deleting the same product twice answers True, then False. */
  lemma DeleteTwice(c: Tables, referenced: set<int>, id: int)
    requires Paired(c) && id in c.products && id !in referenced
    ensures Delete(c, referenced, id).0 == Ok(true)
    ensures Delete(Delete(c, referenced, id).1, referenced, id).0 == Ok(false)
  {
  }

  /** The delete as written agrees with the intended one except when the
      product's own delete is refused: then its inventory row is already
      gone and the product is left without one. */
  lemma DeleteAsWrittenBreaksPair(c: Tables, referenced: set<int>, id: int)
    requires Paired(c)
    ensures id in c.products && id in referenced ==>
      var c' := DeleteAsWritten(c, referenced, id).1;
      id in c'.products && id !in c'.stock && !Paired(c')
    ensures !(id in c.products && id in referenced) ==> DeleteAsWritten(c, referenced, id) == Delete(c, referenced, id)
  {
    if id !in c.products {
      assert c.stock - {id} == c.stock;
    }
  }

  /** A product that a service uses, deleted as written. */
  lemma DeleteAsWrittenExample()
    ensures var p := Product(5, "Brake Pad", None, 1999, None);
      var c := Tables(map[5 := p], map[5 := Inventory(5, 5000, None, None)]);
      && Paired(c)
      && DeleteAsWritten(c, {5}, 5) == (Err(CommitRejected), Tables(map[5 := p], map[]))
      && !Paired(DeleteAsWritten(c, {5}, 5).1)
      && Delete(c, {5}, 5) == (Err(CommitRejected), c)
  {
    var p := Product(5, "Brake Pad", None, 1999, None);
    var c := Tables(map[5 := p], map[5 := Inventory(5, 5000, None, None)]);
    assert c.stock - {5} == map[];
    assert 5 in DeleteAsWritten(c, {5}, 5).1.products;
  }

  /** The older ProductRepository.create: the product is committed first,
      then the inventory repository's create stores `initial_stock` with no
      reorder point and no restock date, in a commit of its own. */
  function LegacyCreate(c: Tables, categories: set<int>, id: int, name: string, sellingPrice: int,
                        unitCost: Option<int>, categoryId: Option<int>, initialStock: int)
    : (s: (Result<Product>, Tables))
  {
    var p := Product(id, name, unitCost, sellingPrice, categoryId);
    var inv := Inventory(id, initialStock, None, None);
    if CategoryAbsent(categories, categoryId) then (Err(CategoryMissing(categoryId.value)), c)
    else if id in c.products || !ProductFits(p) then (Err(CommitRejected), c)
    else
      var products := c.products[id := p];
      if id in c.stock || !InventoryFits(inv) then (Err(CommitRejected), c.(products := products))
      else (Ok(p), Tables(products, c.stock[id := inv]))
  }

  /** When the inventory commit of the older create is refused, the product
      stays committed without an inventory row. */
  lemma LegacyCreateLeavesOrphan(c: Tables, categories: set<int>, id: int, name: string, sellingPrice: int,
                                 unitCost: Option<int>, categoryId: Option<int>, initialStock: int)
    requires Paired(c) && id !in c.products
    requires !CategoryAbsent(categories, categoryId) && ProductFits(Product(id, name, unitCost, sellingPrice, categoryId))
    requires !FitsNumeric(initialStock)
    ensures var (r, c') := LegacyCreate(c, categories, id, name, sellingPrice, unitCost, categoryId, initialStock);
      r == Err(CommitRejected) && id in c'.products && id !in c'.stock && !Paired(c')
  {
  }

  /** An opening stock of 10^8 units overflows Numeric(10,2): the product
      is kept, its inventory row is not. */
  lemma LegacyCreateExample()
    ensures var c := Tables(map[], map[]);
      var (r, c') := LegacyCreate(c, {}, 1, "Oil Filter", 1250, None, None, NumericBound);
      && r == Err(CommitRejected) && c'.products.Keys == {1} && c'.stock == map[]
      && Create(c, {}, 1, NewProduct("Oil Filter", 1250, None, None, Some(NumericBound), None, None))
         == (Err(CommitRejected), c)
  {
    AsWrittenKeywordsRejected();
  }

  /** The older ProductRepository.update: the lookup comes before the
      category check, and the name is stored as given. */
  function LegacyUpdate(c: Tables, categories: set<int>, id: int, name: Option<string>, sellingPrice: Option<int>,
                        unitCost: Option<int>, categoryId: Option<int>): (s: (Result<Option<Product>>, Tables))
  {
    if id !in c.products then (Ok(None), c)
    else if CategoryAbsent(categories, categoryId) then (Err(CategoryMissing(categoryId.value)), c)
    else
      var p := ProductOverlay(c.products[id], name, sellingPrice, unitCost, categoryId);
      if ProductFits(p) then (Ok(Some(p)), c.(products := c.products[id := p])) else (Err(CommitRejected), c)
  }

  /** The two updates check in opposite orders: for a missing product and
      a missing category the newer one refuses, the older one answers None. */
  lemma UpdateCheckOrder(c: Tables, categories: set<int>, id: int, name: Option<string>,
                         sellingPrice: Option<int>, unitCost: Option<int>, categoryId: Option<int>)
    requires id !in c.products && CategoryAbsent(categories, categoryId)
    ensures Update(c, categories, id, name, sellingPrice, unitCost, categoryId).0 == Err(CategoryMissing(categoryId.value))
    ensures LegacyUpdate(c, categories, id, name, sellingPrice, unitCost, categoryId).0 == Ok(None)
  {
  }

  /** get_by_name finds a product. */
  predicate NameTaken(products: Products, name: string) {
    exists id :: id in products && products[id].name == name
  }

  /** No two products share a name: what the controller's checks keep. */
  predicate UniqueNames(products: Products) {
    forall a, b :: a in products && b in products && products[a].name == products[b].name ==> a == b
  }

  /** ProductController.create_product: the exact name must be free, then
      the category must exist, then the repository's create. */
  function ControllerCreate(c: Tables, categories: set<int>, id: int, n: NewProduct): (s: (Result<Product>, Tables))
  {
    var refusal := CreateRefusal(c, categories, n);
    if refusal.Some? then (Err(refusal.value), c) else Create(c, categories, id, n)
  }

  /** ProductController.create_product as written: the same checks, then
      the repository's create as written. */
  function ControllerCreateAsWritten(c: Tables, categories: set<int>, id: int, n: NewProduct)
    : (s: (Result<Product>, Tables))
  {
    var refusal := CreateRefusal(c, categories, n);
    if refusal.Some? then (Err(refusal.value), c) else CreateWith(c, categories, id, AsWrittenKeywords, n)
  }

  /** create_product as written never creates a product: a request that
      passes both checks, and whose product row fits, ends in the TypeError
      of the keyword `last_restock_data`, and the tables are left as they
      were. */
  lemma ControllerCreateAsWrittenNeverCreates(c: Tables, categories: set<int>, id: int, n: NewProduct)
    requires id !in c.products
    ensures ControllerCreateAsWritten(c, categories, id, n).0.Err?
    ensures ControllerCreateAsWritten(c, categories, id, n).1 == c
    ensures CreateRefusal(c, categories, n).Some? ==>
      ControllerCreateAsWritten(c, categories, id, n).0 == Err(CreateRefusal(c, categories, n).value)
    ensures CreateRefusal(c, categories, n).None? && ProductFits(NewRow(id, n)) ==>
      ControllerCreateAsWritten(c, categories, id, n).0 == Err(UnexpectedKeyword("last_restock_data"))
  {
    CreateAsWrittenNeverCreates(c, categories, id, n);
  }

  /** The checks of ProductController.create_product, in their order. */
  function CreateRefusal(c: Tables, categories: set<int>, n: NewProduct): (e: Option<Error>)
  {
    if NameTaken(c.products, n.name) then Some(ProductNameTaken(n.name))
    else if CategoryAbsent(categories, n.categoryId) then Some(CategoryMissing(n.categoryId.value))
    else None
  }

  /** The checks of ProductController.update_product on a product that
      exists, in their order: a given name must not be blank once stripped,
      and may clash only with another product; then the category. */
  function UpdateRefusal(c: Tables, categories: set<int>, id: int, name: Option<string>, categoryId: Option<int>)
    : (e: Option<Error>)
    requires id in c.products
  {
    if name.Some? && IsBlank(name.value) then Some(ProductNameBlank)
    else if name.Some? && Strip(name.value) != c.products[id].name && NameTaken(c.products, Strip(name.value))
    then Some(ProductNameTaken(Strip(name.value)))
    else if CategoryAbsent(categories, categoryId) then Some(CategoryMissing(categoryId.value))
    else None
  }

  /** ProductController.update_product: None for a missing product before
      any check; then the checks; then the repository's update with the
      stripped name. */
  function ControllerUpdate(c: Tables, categories: set<int>, id: int, name: Option<string>,
                            sellingPrice: Option<int>, unitCost: Option<int>, categoryId: Option<int>)
    : (s: (Result<Option<Product>>, Tables))
  {
    if id !in c.products then (Ok(None), c)
    else
      var refusal := UpdateRefusal(c, categories, id, name, categoryId);
      if refusal.Some? then (Err(refusal.value), c)
      else Update(c, categories, id, StrippedName(name), sellingPrice, unitCost, categoryId)
  }

  /** The repository's update, reached past the controller's checks, is
      the controller's update and keeps its invariants. */
  lemma ControllerUpdateKeeps(c: Tables, c': Tables, r: Result<Option<Product>>, categories: set<int>, id: int,
                              name: Option<string>, sellingPrice: Option<int>, unitCost: Option<int>,
                              categoryId: Option<int>)
    requires WellFormed(c) && Paired(c) && UniqueNames(c.products)
    requires id in c.products && UpdateRefusal(c, categories, id, name, categoryId).None?
    requires (r, c') == Update(c, categories, id, StrippedName(name), sellingPrice, unitCost, categoryId)
    ensures (r, c') == ControllerUpdate(c, categories, id, name, sellingPrice, unitCost, categoryId)
    ensures Paired(c') && UniqueNames(c'.products)
  {
    ControllerUpdateSpec(c, categories, id, name, sellingPrice, unitCost, categoryId);
  }

  /** create_product refuses a taken name before anything else and writes
      nothing then; it keeps names unique and the pair intact. */
  lemma ControllerCreateSpec(c: Tables, categories: set<int>, id: int, n: NewProduct)
    requires WellFormed(c) && Paired(c) && UniqueNames(c.products) && id !in c.products
    ensures var (r, c') := ControllerCreate(c, categories, id, n);
      && (NameTaken(c.products, n.name) ==> r == Err(ProductNameTaken(n.name)) && c' == c)
      && (r.Ok? ==> r.value.name == n.name && c'.products == c.products[id := r.value])
      && WellFormed(c') && Paired(c') && UniqueNames(c'.products)
  {
    CreateSpec(c, categories, id, n);
  }

  /** update_product keeps names unique and the pair intact; the name it
      stores is the stripped one, never blank. */
  lemma ControllerUpdateSpec(c: Tables, categories: set<int>, id: int, name: Option<string>,
                             sellingPrice: Option<int>, unitCost: Option<int>, categoryId: Option<int>)
    requires WellFormed(c) && Paired(c) && UniqueNames(c.products)
    ensures var (r, c') := ControllerUpdate(c, categories, id, name, sellingPrice, unitCost, categoryId);
      && WellFormed(c') && Paired(c') && UniqueNames(c'.products)
      && (id !in c.products ==> r == Ok(None) && c' == c)
      && (r.Ok? && r.value.Some? && name.Some? ==>
            r.value.value.name == Strip(name.value) && !IsBlank(r.value.value.name))
  {
    if name.Some? {
      StripIdempotent(name.value);
    }
    UpdateSpec(c, categories, id, StrippedName(name), sellingPrice, unitCost, categoryId);
  }

  /** A product may be renamed to its own name, with or without padding. */
  lemma RenameToOwnNameAllowed(c: Tables, categories: set<int>, id: int, padded: string)
    requires WellFormed(c) && id in c.products && !IsBlank(padded)
    requires Strip(padded) == c.products[id].name
    ensures ControllerUpdate(c, categories, id, Some(padded), None, None, None).0 == Ok(Some(c.products[id]))
  {
    StripIdempotent(padded);
    assert ProductOverlay(c.products[id], Some(Strip(Strip(padded))), None, None, None) == c.products[id];
  }
}
