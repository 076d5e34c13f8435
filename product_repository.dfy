/** The product repository of src/repositories/product_repositories.py: a
    BaseRepository over table `products`, next to the inventory repository
    of inventory_repositories.py and the categories. Its methods are proved
    against the typed steps of module Catalog. */
module ProductRepo {
  import opened Common
  import opened Text
  import opened Schema
  import opened BaseRepo
  import InventoryRepo
  import CategoryControl
  import Catalog

  /** A stored row holds the text `name` in column "name" exactly when its
      typed product is named `name`. */
  lemma NameColumn(rows: map<int, Record>, k: int, name: string)
    requires k in rows && IsProductRow(k, rows[k])
    ensures ("name" in rows[k] && rows[k]["name"] == VText(name)) <==> AsProduct(k, rows[k]).name == name
  {
  }

  /** A name is taken in the typed view exactly when some stored row holds
      it in column "name". */
  lemma NameTakenRows(rows: map<int, Record>, name: string)
    requires forall k :: k in rows ==> IsProductRow(k, rows[k])
    ensures Catalog.NameTaken(ProductsOf(rows), name) <==>
            exists k :: k in rows && "name" in rows[k] && rows[k]["name"] == VText(name)
  {
    if Catalog.NameTaken(ProductsOf(rows), name) {
      var k :| k in ProductsOf(rows) && ProductsOf(rows)[k].name == name;
      NameColumn(rows, k, name);
    }
    if exists k :: k in rows && "name" in rows[k] && rows[k]["name"] == VText(name) {
      var k :| k in rows && "name" in rows[k] && rows[k]["name"] == VText(name);
      NameColumn(rows, k, name);
      assert ProductsOf(rows)[k].name == name;
    }
  }

  /** The `j`-th row list_by_category selects is a product row of that
      category under its own id. */
  ghost predicate ListedAt(order: seq<int>, rows: map<int, Record>, categoryId: int, j: int)
    requires ProductRows(rows)
    requires 0 <= j < |Matching(order, rows, "category_id", VInt(categoryId))|
  {
    var k := Matching(order, rows, "category_id", VInt(categoryId))[j];
    && k in rows && IsProductRow(k, rows[k]) && rows[k]["product_id"] == VInt(k)
    && ProductsOf(rows)[k] == AsProduct(k, rows[k]) && AsProduct(k, rows[k]).categoryId == Some(categoryId)
  }

  /** A row that list_by_category selects is a product of that category,
      stored under its own id. */
  lemma ListedRow(order: seq<int>, rows: map<int, Record>, categoryId: int, j: int)
    requires ProductRows(rows)
    requires 0 <= j < |Matching(order, rows, "category_id", VInt(categoryId))|
    ensures ListedAt(order, rows, categoryId, j)
  {
    MatchingHolds(order, rows, "category_id", VInt(categoryId), j);
  }

  /** Rows that carry their own product id, as a query returns them. */
  predicate ProductRecords(records: seq<Record>) {
    forall i :: 0 <= i < |records| ==>
      "product_id" in records[i] && records[i]["product_id"].VInt? && IsProductRow(records[i]["product_id"].i, records[i])
  }

  /** The products a query returns, decoded row by row. */
  function DecodedProducts(records: seq<Record>): seq<Product>
    requires ProductRecords(records)
  {
    seq(|records|, i requires 0 <= i < |records| => AsProduct(records[i]["product_id"].i, records[i]))
  }

  /** The page list_by_category reads decodes to the same page of the
      typed products, and every product on it has that category. */
  lemma ListedRows(order: seq<int>, rows: map<int, Record>, categoryId: int, skip: nat, limit: nat)
    requires ProductRows(rows)
    ensures var ids := Matching(order, rows, "category_id", VInt(categoryId));
      var records := Page(ids, rows, skip, limit);
      && ProductRecords(records)
      && DecodedProducts(records) == Page(ids, ProductsOf(rows), skip, limit)
      && forall k :: 0 <= k < |records| ==> DecodedProducts(records)[k].categoryId == Some(categoryId)
  {
    PageRows(order, rows, categoryId, skip, limit);
  }

  /** The update dictionary of update, built one argument at a time. */
  method BuildUpdateData(name: Option<string>, sellingPrice: Option<int>, unitCost: Option<int>,
                         categoryId: Option<int>) returns (updateData: map<string, Value>)
    ensures updateData == UpdateData(Catalog.StrippedName(name), sellingPrice, unitCost, categoryId)
  {
    updateData := map[];
    if name.Some? {
      updateData := updateData["name" := VText(Strip(name.value))];
    }
    if sellingPrice.Some? {
      updateData := updateData["selling_price" := VNum(sellingPrice.value)];
    }
    if unitCost.Some? {
      updateData := updateData["unit_cost" := VNum(unitCost.value)];
    }
    if categoryId.Some? {
      updateData := updateData["category_id" := VInt(categoryId.value)];
    }
  }

  /** Row by row, the page list_by_category reads. */
  lemma PageRows(order: seq<int>, rows: map<int, Record>, categoryId: int, skip: nat, limit: nat)
    requires ProductRows(rows)
    ensures var ids := Matching(order, rows, "category_id", VInt(categoryId));
      var records := Page(ids, rows, skip, limit);
      var lo := PageBounds(|ids|, skip, limit).0;
      && ProductRecords(records)
      && forall k :: 0 <= k < |records| ==>
           && AsProduct(records[k]["product_id"].i, records[k]) == ProductsOf(rows)[ids[lo + k]]
           && ProductsOf(rows)[ids[lo + k]].categoryId == Some(categoryId)
  {
    var ids := Matching(order, rows, "category_id", VInt(categoryId));
    var records: seq<Record> := Page(ids, rows, skip, limit);
    var lo := PageBounds(|ids|, skip, limit).0;
    forall k | 0 <= k < |records|
      ensures "product_id" in records[k] && records[k]["product_id"].VInt?
      ensures IsProductRow(records[k]["product_id"].i, records[k])
      ensures AsProduct(records[k]["product_id"].i, records[k]) == ProductsOf(rows)[ids[lo + k]]
      ensures ProductsOf(rows)[ids[lo + k]].categoryId == Some(categoryId)
    {
      PageEntry(order, rows, categoryId, skip, limit, k);
    }
  }

  /** The `k`-th row of the page is the product listed at `lo + k`. */
  lemma PageEntry(order: seq<int>, rows: map<int, Record>, categoryId: int, skip: nat, limit: nat, k: int)
    requires ProductRows(rows)
    requires 0 <= k < |Page(Matching(order, rows, "category_id", VInt(categoryId)), rows, skip, limit)|
    ensures var ids := Matching(order, rows, "category_id", VInt(categoryId));
      var r := Page(ids, rows, skip, limit)[k];
      var j := PageBounds(|ids|, skip, limit).0 + k;
      && "product_id" in r && r["product_id"].VInt? && IsProductRow(r["product_id"].i, r)
      && AsProduct(r["product_id"].i, r) == ProductsOf(rows)[ids[j]]
      && ProductsOf(rows)[ids[j]].categoryId == Some(categoryId)
  {
    var ids := Matching(order, rows, "category_id", VInt(categoryId));
    var j := PageBounds(|ids|, skip, limit).0 + k;
    ListedRow(order, rows, categoryId, j);
  }

  /** The fields an update assigns: one entry per argument that is not
      None, the name as it is to be stored. */
  function UpdateData(name: Option<string>, sellingPrice: Option<int>, unitCost: Option<int>,
                      categoryId: Option<int>): (data: map<string, Value>)
    ensures data.Keys <= ProductColumns - {"product_id"}
    ensures ("name" in data <==> name.Some?) && (name.Some? ==> data["name"] == VText(name.value))
    ensures ("selling_price" in data <==> sellingPrice.Some?)
            && (sellingPrice.Some? ==> data["selling_price"] == VNum(sellingPrice.value))
    ensures ("unit_cost" in data <==> unitCost.Some?) && (unitCost.Some? ==> data["unit_cost"] == VNum(unitCost.value))
    ensures ("category_id" in data <==> categoryId.Some?)
            && (categoryId.Some? ==> data["category_id"] == VInt(categoryId.value))
  {
    var data: map<string, Value> := map[];
    var data := if name.Some? then data["name" := VText(name.value)] else data;
    var data := if sellingPrice.Some? then data["selling_price" := VNum(sellingPrice.value)] else data;
    var data := if unitCost.Some? then data["unit_cost" := VNum(unitCost.value)] else data;
    if categoryId.Some? then data["category_id" := VInt(categoryId.value)] else data
  }

  /** Assigning the update dictionary to a stored product row is the typed
      overlay, and the database accepts the result exactly when the
      overlaid product fits its columns. */
  lemma UpdateDataAssigned(id: int, rec: Record, name: Option<string>, sellingPrice: Option<int>,
                           unitCost: Option<int>, categoryId: Option<int>)
    requires IsProductRow(id, rec)
    ensures var p := Catalog.ProductOverlay(AsProduct(id, rec), name, sellingPrice,
                                            unitCost, categoryId);
      && (IsProductRow(id, Assigned(rec, UpdateData(name, sellingPrice, unitCost, categoryId))) <==> ProductFits(p))
      && (ProductFits(p) ==> Assigned(rec, UpdateData(name, sellingPrice, unitCost, categoryId)) == ProductRecord(p))
  {
    var q := AsProduct(id, rec);
    ProductRowRoundTrip(id, rec);
    OverlayAssigned(q, name, sellingPrice, unitCost, categoryId);
    ProductRoundTrip(Catalog.ProductOverlay(q, name, sellingPrice, unitCost, categoryId));
  }

  /** The update dictionary assigned to the encoding of a product is the
      encoding of the overlaid product, whether or not it fits. */
  lemma OverlayAssigned(q: Product, name: Option<string>, sellingPrice: Option<int>, unitCost: Option<int>,
                        categoryId: Option<int>)
    ensures Assigned(ProductRecord(q), UpdateData(name, sellingPrice, unitCost, categoryId))
            == ProductRecord(Catalog.ProductOverlay(q, name, sellingPrice, unitCost, categoryId))
  {
    AssignedProduct(q, UpdateData(name, sellingPrice, unitCost, categoryId),
                    Catalog.ProductOverlay(q, name, sellingPrice, unitCost, categoryId));
  }

  /** Assigning a dictionary to the encoding of `q` gives the encoding of
      `p` when each column the dictionary holds carries p's value and each
      other column keeps q's. */
  lemma AssignedProduct(q: Product, data: map<string, Value>, p: Product)
    requires data.Keys <= ProductColumns - {"product_id"} && p.productId == q.productId
    requires if "name" in data then data["name"] == VText(p.name) else p.name == q.name
    requires if "selling_price" in data then data["selling_price"] == VNum(p.sellingPrice)
             else p.sellingPrice == q.sellingPrice
    requires if "unit_cost" in data then data["unit_cost"] == OptionalNum(p.unitCost) else p.unitCost == q.unitCost
    requires if "category_id" in data then data["category_id"] == OptionalInt(p.categoryId)
             else p.categoryId == q.categoryId
    ensures Assigned(ProductRecord(q), data) == ProductRecord(p)
  {
    var obj, want := Assigned(ProductRecord(q), data), ProductRecord(p);
    assert obj.Keys == want.Keys;
    forall k | k in obj ensures obj[k] == want[k] {
      if k == "product_id" {
      } else if k == "name" {
      } else if k == "selling_price" {
      } else if k == "unit_cost" {
      } else {
        assert k == "category_id";
      }
    }
  }

  predicate ProductRows(rows: map<int, Record>) {
    forall k :: k in rows ==> IsProductRow(k, rows[k])
  }

  predicate InventoryRows(rows: map<int, Record>) {
    forall k :: k in rows ==> IsInventoryRow(k, rows[k])
  }

  /** The typed view of a products table and an inventory table. */
  function TablesOf(productRows: map<int, Record>, stockRows: map<int, Record>): Catalog.Tables
    requires ProductRows(productRows) && InventoryRows(stockRows)
  {
    Catalog.Tables(ProductsOf(productRows), StockOf(stockRows))
  }

  /** The pair invariant, read on the stored rows. */
  lemma PairedRows(p: map<int, Record>, s: map<int, Record>)
    requires ProductRows(p) && InventoryRows(s)
    ensures Catalog.Paired(TablesOf(p, s)) <==> p.Keys == s.Keys
    ensures Catalog.Linked(TablesOf(p, s)) <==> s.Keys <= p.Keys
  {
    StockOfTyped(s);
    ProductsOfTyped(p);
  }

  /** Removing a row just inserted under a fresh key restores the table. */
  lemma DiscardRestores(p: map<int, Record>, id: int, rec: Record, p': map<int, Record>)
    requires id !in p && p' == p[id := rec] - {id}
    ensures p' == p
  {
    assert p'.Keys == p.Keys;
  }

  /** The steps of a creation that passed the category check, on the rows:
      the product insert, the call with `keywords`, the inventory insert,
      and on any refusal the rollback of both. */
  ghost predicate CreateSteps(p: map<int, Record>, s: map<int, Record>, p': map<int, Record>, s': map<int, Record>,
                              id: int, keywords: seq<string>, n: Catalog.NewProduct, r: Result<Product>)
  {
    var row := Catalog.NewRow(id, n);
    var unexpected := Catalog.FirstUnexpected(keywords, Catalog.CreateInventoryParameters);
    var inv := Catalog.NewStock(id, n);
    && (!ProductFits(row) ==> r == Err(CommitRejected) && p' == p && s' == s)
    && (ProductFits(row) && unexpected.Some? ==> r == Err(UnexpectedKeyword(unexpected.value)) && p' == p && s' == s)
    && (ProductFits(row) && unexpected.None? && !InventoryFits(inv) ==> r == Err(CommitRejected) && p' == p && s' == s)
    && (ProductFits(row) && unexpected.None? && InventoryFits(inv) ==>
          r == Ok(row) && p' == p[id := ProductRecord(row)] && s' == s[id := InventoryRecord(inv)])
  }

  /** Those steps, seen through the typed view. */
  lemma TablesAfterCreate(p: map<int, Record>, s: map<int, Record>, p': map<int, Record>, s': map<int, Record>,
                          categories: set<int>, id: int, keywords: seq<string>, n: Catalog.NewProduct,
                          r: Result<Product>)
    requires ProductRows(p) && InventoryRows(s) && s.Keys <= p.Keys && id !in p
    requires !Catalog.CategoryAbsent(categories, n.categoryId)
    requires CreateSteps(p, s, p', s', id, keywords, n, r)
    ensures ProductRows(p') && InventoryRows(s') && s'.Keys <= p'.Keys
    ensures (r, TablesOf(p', s')) == Catalog.CreateWith(TablesOf(p, s), categories, id, keywords, n)
  {
    var row := Catalog.NewRow(id, n);
    var inv := Catalog.NewStock(id, n);
    var unexpected := Catalog.FirstUnexpected(keywords, Catalog.CreateInventoryParameters);
    StockOfTyped(s);
    ProductsOfTyped(p);
    if ProductFits(row) && unexpected.None? && InventoryFits(inv) {
      CreatedRows(p, s, id, row, inv);
    } else {
      assert p' == p && s' == s;
    }
  }

  /** Writing a fresh product and its inventory row, typed. */
  lemma CreatedRows(p: map<int, Record>, s: map<int, Record>, id: int, row: Product, inv: Inventory)
    requires ProductRows(p) && InventoryRows(s) && s.Keys <= p.Keys && id !in p
    requires row.productId == id && ProductFits(row) && inv.productId == id && InventoryFits(inv)
    ensures var p' := p[id := ProductRecord(row)]; var s' := s[id := InventoryRecord(inv)];
      && ProductRows(p') && InventoryRows(s') && s'.Keys <= p'.Keys
      && TablesOf(p', s') == Catalog.Tables(TablesOf(p, s).products[id := row], TablesOf(p, s).stock[id := inv])
  {
    var p', s' := p[id := ProductRecord(row)], s[id := InventoryRecord(inv)];
    ProductsOfWrite(p, id, row);
    StockOfWrite(s, id, inv);
    assert ProductRows(p') by {
      forall k | k in p' ensures IsProductRow(k, p'[k]) {
        if k != id { assert p'[k] == p[k]; }
      }
    }
    assert InventoryRows(s') by {
      forall k | k in s' ensures IsInventoryRow(k, s'[k]) {
        if k != id { assert s'[k] == s[k]; }
      }
    }
  }

  /** The base update of product `id` with the update dictionary, seen
      through the typed view. */
  lemma TablesAfterUpdate(p: map<int, Record>, s: map<int, Record>, p': map<int, Record>, categories: set<int>,
                          id: int, name: Option<string>, sellingPrice: Option<int>, unitCost: Option<int>,
                          categoryId: Option<int>, r: Result<Option<Product>>)
    requires ProductRows(p) && InventoryRows(s) && s.Keys <= p.Keys
    requires !Catalog.CategoryAbsent(categories, categoryId)
    requires id !in p ==> r == Ok(None) && p' == p
    requires id in p ==>
      var obj := Assigned(p[id], UpdateData(Catalog.StrippedName(name), sellingPrice, unitCost, categoryId));
      && (IsProductRow(id, obj) ==> r == Ok(Some(AsProduct(id, obj))) && p' == p[id := obj])
      && (!IsProductRow(id, obj) ==> r == Err(CommitRejected) && p' == p)
    ensures ProductRows(p') && p'.Keys == p.Keys
    ensures (r, TablesOf(p', s)) == Catalog.Update(TablesOf(p, s), categories, id, name, sellingPrice,
                                                   unitCost, categoryId)
  {
    ProductsOfTyped(p);
    if id in p {
      UpdateDataAssigned(id, p[id], Catalog.StrippedName(name), sellingPrice, unitCost, categoryId);
      var q := Catalog.ProductOverlay(ProductsOf(p)[id], Catalog.StrippedName(name), sellingPrice, unitCost,
                                      categoryId);
      if ProductFits(q) {
        UpdatedRow(p, s, id, q);
      } else {
        assert p' == p;
      }
    }
  }

  /** Overwriting a stored product with a typed one that fits, typed. */
  lemma UpdatedRow(p: map<int, Record>, s: map<int, Record>, id: int, q: Product)
    requires ProductRows(p) && InventoryRows(s) && id in p && q.productId == id && ProductFits(q)
    ensures var p' := p[id := ProductRecord(q)];
      && ProductRows(p') && p'.Keys == p.Keys && AsProduct(id, ProductRecord(q)) == q
      && TablesOf(p', s) == TablesOf(p, s).(products := TablesOf(p, s).products[id := q])
  {
    ProductsOfWrite(p, id, q);
    ProductRowRoundTrip(id, ProductRecord(q));
  }

  /** delete_inventory's outcome on rows nothing references: the row is
      removed when present, and nothing changes otherwise. */
  predicate Removed(s: map<int, Record>, s': map<int, Record>, id: int) {
    if id in s then s' == s - {id} else s' == s
  }

  /** The two commits of the delete as written, seen through the typed
      view. */
  lemma TablesAfterDeleteAsWritten(p: map<int, Record>, s: map<int, Record>, p': map<int, Record>,
                                   s': map<int, Record>, referenced: set<int>, id: int, r: Result<bool>)
    requires ProductRows(p) && InventoryRows(s) && s.Keys <= p.Keys
    requires Removed(s, s', id)
    requires id !in p ==> r == Ok(false) && p' == p
    requires id in p && id in referenced ==> r == Err(CommitRejected) && p' == p
    requires id in p && id !in referenced ==> r == Ok(true) && p' == p - {id}
    ensures ProductRows(p') && InventoryRows(s') && s'.Keys <= p'.Keys
    ensures (r, TablesOf(p', s')) == Catalog.DeleteAsWritten(TablesOf(p, s), referenced, id)
  {
    if id !in s {
      AbsentKey(s, id);
    }
    StockOfRemove(s, id);
    ProductsOfRemove(p, id);
  }

  /** Removing an absent key changes nothing. */
  lemma AbsentKey(s: map<int, Record>, id: int)
    requires id !in s
    ensures s - {id} == s
  {
  }

  class ProductRepository {
    const products: BaseRepository
    const inventory: InventoryRepo.InventoryRepository
    const categories: CategoryControl.CategoryRepository

    /** The tables as the database keeps them: each within its columns, the
        foreign key from inventory to products, and no table outside the
        model referencing an inventory row. */
    ghost predicate Valid()
      reads this, products, inventory, inventory.table, categories
    {
      && products.kind == ProductTable && products.Valid()
      && inventory.Valid() && categories.Valid()
      && ProductRows(products.rows) && InventoryRows(inventory.table.rows)
      && products != inventory.table
      && inventory.table.referenced == {}
      && inventory.table.rows.Keys <= products.rows.Keys
    }

    /** The two tables, typed. */
    ghost function Tables(): Catalog.Tables
      requires Valid()
      reads this, products, inventory, inventory.table, categories
    {
      TablesOf(products.rows, inventory.table.rows)
    }

    /** The typed tables are well formed and keep the foreign key. */
    lemma TablesTyped()
      requires Valid()
      ensures Catalog.Linked(Tables()) && Catalog.WellFormed(Tables())
      ensures Tables().products.Keys == products.rows.Keys && Tables().stock.Keys == inventory.table.rows.Keys
    {
      StockOfTyped(inventory.table.rows);
      ProductsOfTyped(products.rows);
    }

    /** The category ids the categories table holds. */
    ghost function CategoryIds(): set<int>
      reads categories
    {
      categories.categories.Keys
    }

    constructor (products: BaseRepository, inventory: InventoryRepo.InventoryRepository,
                 categories: CategoryControl.CategoryRepository)
      requires products.kind == ProductTable && products.Valid()
      requires inventory.Valid() && categories.Valid() && products != inventory.table
      requires inventory.table.referenced == {} && inventory.table.rows.Keys <= products.rows.Keys
      requires ProductRows(products.rows) && InventoryRows(inventory.table.rows)
      ensures this.products == products && this.inventory == inventory && this.categories == categories
      ensures Valid()
    {
      this.products := products;
      this.inventory := inventory;
      this.categories := categories;
    }

    /** get_by_id. */
    method GetById(productId: int) returns (r: Option<Product>)
      requires Valid()
      ensures r.Some? <==> productId in Tables().products
      ensures r.Some? ==> r.value == Tables().products[productId]
    {
      var found := products.Get(productId);
      if found.None? {
        return None;
      }
      r := Some(AsProduct(productId, found.value));
    }

    /** get_by_name: the first product, in listing order, with exactly that
        name. */
    method GetByName(name: string) returns (r: Option<Product>)
      requires Valid()
      ensures r.Some? <==> Catalog.NameTaken(Tables().products, name)
      ensures r.Some? ==> r.value.productId in Tables().products && Tables().products[r.value.productId] == r.value
                          && r.value.name == name
    {
      var found := products.FirstWhere("name", VText(name));
      NameTakenRows(products.rows, name);
      if found.None? {
        return None;
      }
      NameColumn(products.rows, found.value, name);
      r := Some(AsProduct(found.value, products.rows[found.value]));
    }

    /** list_by_category: the products of one category, in listing order,
        `skip` of them passed over and at most `limit` returned. */
    method ListByCategory(categoryId: int, skip: nat, limit: nat) returns (items: seq<Product>)
      requires Valid()
      ensures items == Page(Matching(products.order, products.rows, "category_id", VInt(categoryId)),
                            Tables().products, skip, limit)
      ensures forall k :: 0 <= k < |items| ==> items[k].categoryId == Some(categoryId)
    {
      var records := products.ListWhere("category_id", VInt(categoryId), skip, limit);
      ListedRows(products.order, products.rows, categoryId, skip, limit);
      items := DecodedProducts(records);
    }

    /** create, calling create_inventory with `keywords`: the category
        check, the product insert and flush under a fresh id, the call, and
        the inventory insert and flush; a failure after the product insert
        rolls it back, but the id stays drawn. */
    method CreateWith(keywords: seq<string>, name: string, sellingPrice: int, unitCost: Option<int>,
                      categoryId: Option<int>, initialStock: Option<int>, minStockLevel: Option<int>,
                      lastRestockDate: Option<int>) returns (r: Result<Product>)
      requires Valid()
      modifies products, inventory.table
      ensures Valid()
      ensures products.referenced == old(products.referenced)
      ensures products.nextId == if Catalog.CategoryAbsent(old(CategoryIds()), categoryId) then old(products.nextId)
                                 else old(products.nextId) + 1
      ensures (r, Tables()) == Catalog.CreateWith(old(Tables()), old(CategoryIds()), old(products.nextId), keywords,
        Catalog.NewProduct(name, sellingPrice, unitCost, categoryId, initialStock, minStockLevel, lastRestockDate))
    {
      ghost var categoryIds := CategoryIds();
      var n := Catalog.NewProduct(name, sellingPrice, unitCost, categoryId, initialStock, minStockLevel,
                                  lastRestockDate);
      if categoryId.Some? {
        var category := categories.GetById(categoryId.value);
        if category.None? {
          return Err(CategoryMissing(categoryId.value));
        }
      }
      ghost var p := products.rows;
      ghost var s := inventory.table.rows;
      var productId := products.NextId();
      r := Insert(productId, keywords, n);
      TablesAfterCreate(p, s, products.rows, inventory.table.rows, categoryIds, productId, keywords, n, r);
    }

    /** The part of create after the category check and the id draw: the
        product insert, the call, the inventory insert, and the rollback of
        the product when anything after its insert fails. */
    method Insert(productId: int, keywords: seq<string>, n: Catalog.NewProduct) returns (r: Result<Product>)
      requires Valid() && productId !in products.rows && productId < products.nextId
      modifies products, inventory.table
      ensures Valid()
      ensures products.referenced == old(products.referenced) && products.nextId == old(products.nextId)
      ensures CreateSteps(old(products.rows), old(inventory.table.rows), products.rows, inventory.table.rows,
                          productId, keywords, n, r)
    {
      ghost var p := products.rows;
      var product := Product(productId, n.name, n.unitCost, n.sellingPrice, n.categoryId);
      ProductRoundTrip(product);
      var added := products.Add(productId, ProductRecord(product));
      if added.Err? {
        return Err(CommitRejected);
      }
      var unexpected := Catalog.FirstUnexpected(keywords, Catalog.CreateInventoryParameters);
      if unexpected.Some? {
        products.Discard(productId);
        DiscardRestores(p, productId, ProductRecord(product), products.rows);
        return Err(UnexpectedKeyword(unexpected.value));
      }
      var created := inventory.CreateInventory(products.rows.Keys, productId, n.initialStock, n.minStockLevel, n.lastRestockDate);
      if created.Err? {
        products.Discard(productId);
        DiscardRestores(p, productId, ProductRecord(product), products.rows);
        return Err(CommitRejected);
      }
      r := Ok(product);
    }

    /** create as intended: the product and its inventory row together. */
    method Create(name: string, sellingPrice: int, unitCost: Option<int>, categoryId: Option<int>,
                  initialStock: Option<int>, minStockLevel: Option<int>, lastRestockDate: Option<int>)
      returns (r: Result<Product>)
      requires Valid()
      modifies products, inventory.table
      ensures Valid()
      ensures products.referenced == old(products.referenced)
      ensures (r, Tables()) == Catalog.Create(old(Tables()), old(CategoryIds()), old(products.nextId),
        Catalog.NewProduct(name, sellingPrice, unitCost, categoryId, initialStock, minStockLevel, lastRestockDate))
    {
      r := CreateWith(Catalog.IntendedKeywords, name, sellingPrice, unitCost, categoryId, initialStock,
                      minStockLevel, lastRestockDate);
    }

    /** create as written: create_inventory is called with the keyword
        `last_restock_data`, which it does not declare. */
    method CreateAsWritten(name: string, sellingPrice: int, unitCost: Option<int>, categoryId: Option<int>,
                           initialStock: Option<int>, minStockLevel: Option<int>, lastRestockDate: Option<int>)
      returns (r: Result<Product>)
      requires Valid()
      modifies products, inventory.table
      ensures Valid()
      ensures products.referenced == old(products.referenced)
      ensures (r, Tables()) == Catalog.CreateWith(old(Tables()), old(CategoryIds()), old(products.nextId),
        Catalog.AsWrittenKeywords,
        Catalog.NewProduct(name, sellingPrice, unitCost, categoryId, initialStock, minStockLevel, lastRestockDate))
    {
      r := CreateWith(Catalog.AsWrittenKeywords, name, sellingPrice, unitCost, categoryId, initialStock,
                      minStockLevel, lastRestockDate);
    }

    /** update: the category check, then the update dictionary built from
        the arguments that are not None, then the base update. */
    method Update(productId: int, name: Option<string>, sellingPrice: Option<int>, unitCost: Option<int>,
                  categoryId: Option<int>) returns (r: Result<Option<Product>>)
      requires Valid()
      modifies products`rows
      ensures Valid()
      ensures (r, Tables()) == Catalog.Update(old(Tables()), old(CategoryIds()), productId, name, sellingPrice,
                                              unitCost, categoryId)
    {
      ghost var categoryIds := CategoryIds();
      if categoryId.Some? {
        var category := categories.GetById(categoryId.value);
        if category.None? {
          return Err(CategoryMissing(categoryId.value));
        }
      }
      var updateData := BuildUpdateData(name, sellingPrice, unitCost, categoryId);
      ghost var p := products.rows;
      var updated := products.Update(productId, updateData);
      if updated.Err? {
        r := Err(updated.error);
      } else if updated.value.None? {
        r := Ok(None);
      } else {
        r := Ok(Some(AsProduct(productId, updated.value.value)));
      }
      TablesAfterUpdate(p, inventory.table.rows, products.rows, categoryIds, productId, name, sellingPrice,
                        unitCost, categoryId, r);
    }

    /** delete as intended: the inventory row and the product in one
        transaction, refused as a whole while a service uses the product;
        once that refusal is ruled out, the two deletes of the written
        version give the same outcome. */
    method Delete(productId: int) returns (r: Result<bool>)
      requires Valid() && Catalog.Paired(Tables())
      modifies products`rows, products`order, inventory.table`rows, inventory.table`order
      ensures Valid() && Catalog.Paired(Tables())
      ensures (r, Tables()) == Catalog.Delete(old(Tables()), products.referenced, productId)
    {
      var found := products.Get(productId);
      if found.Some? && productId in products.referenced {
        return Err(CommitRejected);
      }
      ghost var before := Tables();
      r := DeleteAsWritten(productId);
      Catalog.DeleteAsWrittenBreaksPair(before, products.referenced, productId);
      Catalog.DeleteSpec(before, products.referenced, productId);
    }

    /** delete as written: delete_inventory commits, then the base delete
        commits or is refused on its own. */
    method DeleteAsWritten(productId: int) returns (r: Result<bool>)
      requires Valid()
      modifies products`rows, products`order, inventory.table`rows, inventory.table`order
      ensures Valid()
      ensures (r, Tables()) == Catalog.DeleteAsWritten(old(Tables()), products.referenced, productId)
    {
      ghost var productRows := products.rows;
      ghost var stockRows := inventory.table.rows;
      var _ := inventory.DeleteInventory(productId);
      r := products.Delete(productId);
      TablesAfterDeleteAsWritten(productRows, stockRows, products.rows, inventory.table.rows, products.referenced,
                                 productId, r);
    }
  }
}
