/** The older product repository of
    src/repositories/productrepository_repositorie.py: the same tables, but
    the product is committed before its inventory row is created (through
    the inventory repository of inventoryrepository_repositorie.py), the
    fields of an update are assigned to the fetched row in place, and the
    delete commits twice. Its methods are proved against the typed steps
    Catalog.LegacyCreate, Catalog.LegacyUpdate and Catalog.DeleteAsWritten. */
module LegacyProductRepo {
  import opened Common
  import opened Schema
  import opened BaseRepo
  import opened ProductRepo
  import LedgerRepo
  import CategoryControl
  import Catalog

  /** The product commit and then the inventory commit of the older
      create, seen through the typed view. */
  lemma TablesAfterLegacyCreate(p: map<int, Record>, s: map<int, Record>, p': map<int, Record>,
                                s': map<int, Record>, categories: set<int>, id: int, name: string,
                                sellingPrice: int, unitCost: Option<int>, categoryId: Option<int>,
                                initialStock: int, r: Result<Product>)
    requires ProductRows(p) && InventoryRows(s) && s.Keys <= p.Keys && id !in p
    requires !Catalog.CategoryAbsent(categories, categoryId)
    requires var row := Product(id, name, unitCost, sellingPrice, categoryId);
      var inv := Inventory(id, initialStock, None, None);
      && (!ProductFits(row) ==> r == Err(CommitRejected) && p' == p && s' == s)
      && (ProductFits(row) && !InventoryFits(inv) ==>
            r == Err(CommitRejected) && p' == p[id := ProductRecord(row)] && s' == s)
      && (ProductFits(row) && InventoryFits(inv) ==>
            r == Ok(row) && p' == p[id := ProductRecord(row)] && s' == s[id := InventoryRecord(inv)])
    ensures ProductRows(p') && InventoryRows(s') && s'.Keys <= p'.Keys
    ensures (r, TablesOf(p', s')) ==
            Catalog.LegacyCreate(TablesOf(p, s), categories, id, name, sellingPrice, unitCost, categoryId, initialStock)
  {
    var row := Product(id, name, unitCost, sellingPrice, categoryId);
    var inv := Inventory(id, initialStock, None, None);
    StockOfTyped(s);
    ProductsOfTyped(p);
    if !ProductFits(row) {
      assert p' == p && s' == s;
    } else if !InventoryFits(inv) {
      OrphanRow(p, s, id, row);
    } else {
      CreatedRows(p, s, id, row, inv);
    }
  }

  /** Writing a fresh product alone, typed. */
  lemma OrphanRow(p: map<int, Record>, s: map<int, Record>, id: int, row: Product)
    requires ProductRows(p) && InventoryRows(s) && s.Keys <= p.Keys && id !in p
    requires row.productId == id && ProductFits(row)
    ensures var p' := p[id := ProductRecord(row)];
      && ProductRows(p') && s.Keys <= p'.Keys
      && TablesOf(p', s) == Catalog.Tables(TablesOf(p, s).products[id := row], TablesOf(p, s).stock)
  {
    ProductsOfWrite(p, id, row);
  }

  /** The older update, seen through the typed view: the lookup, then the
      category check, then the fields assigned in place and committed. */
  lemma TablesAfterLegacyUpdate(p: map<int, Record>, s: map<int, Record>, p': map<int, Record>,
                                categories: set<int>, id: int, name: Option<string>, sellingPrice: Option<int>,
                                unitCost: Option<int>, categoryId: Option<int>, r: Result<Option<Product>>)
    requires ProductRows(p) && InventoryRows(s) && s.Keys <= p.Keys
    requires id !in p ==> r == Ok(None) && p' == p
    requires id in p && Catalog.CategoryAbsent(categories, categoryId) ==>
      r == Err(CategoryMissing(categoryId.value)) && p' == p
    requires id in p && !Catalog.CategoryAbsent(categories, categoryId) ==>
      var obj := Assigned(p[id], UpdateData(name, sellingPrice, unitCost, categoryId));
      && (IsProductRow(id, obj) ==> r == Ok(Some(AsProduct(id, obj))) && p' == p[id := obj])
      && (!IsProductRow(id, obj) ==> r == Err(CommitRejected) && p' == p)
    ensures ProductRows(p') && p'.Keys == p.Keys
    ensures (r, TablesOf(p', s)) ==
            Catalog.LegacyUpdate(TablesOf(p, s), categories, id, name, sellingPrice, unitCost, categoryId)
  {
    ProductsOfTyped(p);
    if id in p && !Catalog.CategoryAbsent(categories, categoryId) {
      UpdateDataAssigned(id, p[id], name, sellingPrice, unitCost, categoryId);
      var q := Catalog.ProductOverlay(ProductsOf(p)[id], name, sellingPrice, unitCost, categoryId);
      if ProductFits(q) {
        UpdatedRow(p, s, id, q);
      } else {
        assert p' == p;
      }
    }
  }

  /** The attribute assignments of the older update on the fetched row:
      each argument that is not None overwrites its column, the name as
      given. */
  method AssignFields(product: Record, name: Option<string>, sellingPrice: Option<int>, unitCost: Option<int>,
                      categoryId: Option<int>) returns (obj: Record)
    requires product.Keys == ProductColumns
    ensures obj == Assigned(product, UpdateData(name, sellingPrice, unitCost, categoryId))
  {
    obj := product;
    if name.Some? {
      obj := obj["name" := VText(name.value)];
    }
    if sellingPrice.Some? {
      obj := obj["selling_price" := VNum(sellingPrice.value)];
    }
    if unitCost.Some? {
      obj := obj["unit_cost" := VNum(unitCost.value)];
    }
    if categoryId.Some? {
      obj := obj["category_id" := VInt(categoryId.value)];
    }
  }

  class LegacyProductRepository {
    const products: BaseRepository
    const inventory: LedgerRepo.InventoryRepository
    const categories: CategoryControl.CategoryRepository

    /** The tables as the database keeps them: each within its columns, the
        foreign key from inventory to products, and no table outside the
        model referencing an inventory row. */
    ghost predicate Valid()
      reads this, products, inventory, inventory.table, categories
    {
      && products.kind == ProductTable && products.Valid()
      && inventory.Valid() && categories.Valid()
      && ProductRows(products.rows) && InventoryRows(inventory.table.rows)
      && products != inventory.table
      && inventory.table.referenced == {}
      && inventory.table.rows.Keys <= products.rows.Keys
    }

    /** The two tables, typed. */
    ghost function Tables(): Catalog.Tables
      requires Valid()
      reads this, products, inventory, inventory.table, categories
    {
      TablesOf(products.rows, inventory.table.rows)
    }

    /** The category ids the categories table holds. */
    ghost function CategoryIds(): set<int>
      reads categories
    {
      categories.categories.Keys
    }

    constructor (products: BaseRepository, inventory: LedgerRepo.InventoryRepository,
                 categories: CategoryControl.CategoryRepository)
      requires products.kind == ProductTable && products.Valid()
      requires inventory.Valid() && categories.Valid() && products != inventory.table
      requires inventory.table.referenced == {} && inventory.table.rows.Keys <= products.rows.Keys
      requires ProductRows(products.rows) && InventoryRows(inventory.table.rows)
      ensures this.products == products && this.inventory == inventory && this.categories == categories
      ensures Valid()
    {
      this.products := products;
      this.inventory := inventory;
      this.categories := categories;
    }

    /** create: the category check, the product added and committed under a
        fresh id, then the inventory repository's create with
        `initial_stock` as the current stock, committed on its own. */
    method Create(name: string, sellingPrice: int, unitCost: Option<int>, categoryId: Option<int>,
                  initialStock: int) returns (r: Result<Product>)
      requires Valid()
      modifies products, inventory.table
      ensures Valid()
      ensures products.referenced == old(products.referenced)
      ensures (r, Tables()) == Catalog.LegacyCreate(old(Tables()), old(CategoryIds()), old(products.nextId), name,
                                                    sellingPrice, unitCost, categoryId, initialStock)
    {
      ghost var categoryIds := CategoryIds();
      if categoryId.Some? {
        var category := categories.GetById(categoryId.value);
        if category.None? {
          return Err(CategoryMissing(categoryId.value));
        }
      }
      ghost var p := products.rows;
      ghost var s := inventory.table.rows;
      var productId := products.NextId();
      var product := Product(productId, name, unitCost, sellingPrice, categoryId);
      ProductRoundTrip(product);
      var added := products.Add(productId, ProductRecord(product));
      if added.Err? {
        r := Err(CommitRejected);
      } else {
        var created := inventory.Create(products.rows.Keys, productId, Some(initialStock), None, None);
        r := if created.Err? then Err(CommitRejected) else Ok(product);
      }
      TablesAfterLegacyCreate(p, s, products.rows, inventory.table.rows, categoryIds, productId, name,
                              sellingPrice, unitCost, categoryId, initialStock, r);
    }

    /** update: None for an absent product; then the category check; then
        each argument that is not None assigned to the fetched row, and the
        commit. */
    method Update(productId: int, name: Option<string>, sellingPrice: Option<int>, unitCost: Option<int>,
                  categoryId: Option<int>) returns (r: Result<Option<Product>>)
      requires Valid()
      modifies products`rows
      ensures Valid()
      ensures (r, Tables()) == Catalog.LegacyUpdate(old(Tables()), old(CategoryIds()), productId, name, sellingPrice,
                                                    unitCost, categoryId)
    {
      ghost var categoryIds := CategoryIds();
      ghost var p := products.rows;
      var found := products.Get(productId);
      if found.None? {
        r := Ok(None);
      } else {
        var missing := false;
        if categoryId.Some? {
          var category := categories.GetById(categoryId.value);
          missing := category.None?;
        }
        if missing {
          r := Err(CategoryMissing(categoryId.value));
        } else {
          var product := AssignFields(found.value, name, sellingPrice, unitCost, categoryId);
          var ok := products.CommitChanged(productId, product);
          r := if ok then Ok(Some(AsProduct(productId, product))) else Err(CommitRejected);
        }
      }
      TablesAfterLegacyUpdate(p, inventory.table.rows, products.rows, categoryIds, productId, name,
                              sellingPrice, unitCost, categoryId, r);
    }

    /** delete: False for an absent product; otherwise the inventory row is
        deleted and committed, then the product, in a commit of its own
        that a service still using the product makes fail. */
    method Delete(productId: int) returns (r: Result<bool>)
      requires Valid()
      modifies products`rows, products`order, inventory.table`rows, inventory.table`order
      ensures Valid()
      ensures (r, Tables()) == Catalog.DeleteAsWritten(old(Tables()), products.referenced, productId)
    {
      ghost var p := products.rows;
      ghost var s := inventory.table.rows;
      var found := products.Get(productId);
      if found.None? {
        r := Ok(false);
      } else {
        var _ := inventory.Delete(productId);
        r := products.Delete(productId);
      }
      TablesAfterDeleteAsWritten(p, s, products.rows, inventory.table.rows, products.referenced, productId, r);
    }
  }
}
