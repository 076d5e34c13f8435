/** The two tables of the product/inventory core (src/schemas/product.py):
    their columns, what PostgreSQL accepts in them, and typed views of their
    rows with encode/decode round trips. */
module Schema {
  import opened Common

  datatype TableKind = ProductTable | InventoryTable

  const ProductColumns: set<string> :=
    {"product_id", "name", "unit_cost", "selling_price", "category_id"}

  const InventoryColumns: set<string> :=
    {"product_id", "current_stock", "min_stock_level", "last_restock_data"}

  /** The relationship attributes of the mapped classes. hasattr holds for
      them as it does for the columns, and setattr on them changes the
      object graph; the attribute maps of this model hold columns only. */
  const ProductRelationships: set<string> := {"category", "inventory", "service_associations"}
  const InventoryRelationships: set<string> := {"product"}

  /** A row of table `products`. */
  datatype Product = Product(
    productId: int,
    name: string,
    unitCost: Option<int>,
    sellingPrice: int,
    categoryId: Option<int>)

  /** A row of table `inventory`; its key is the owning product's id. */
  datatype Inventory = Inventory(
    productId: int,
    currentStock: int,
    minStockLevel: Option<int>,
    lastRestockDate: Option<int>)

  /** A non-null Numeric(10,2) value. */
  predicate RequiredNumeric(v: Value) {
    v.VNum? && FitsNumeric(v.hundredths)
  }

  /** A nullable Numeric(10,2) value. */
  predicate NullableNumeric(v: Value) {
    v.VNone? || RequiredNumeric(v)
  }

  /** What the database accepts as the product row stored under key `id`:
      name and selling_price NOT NULL, both amounts within Numeric(10,2). */
  predicate IsProductRow(id: int, rec: Record) {
    && rec.Keys == ProductColumns
    && rec["product_id"] == VInt(id)
    && rec["name"].VText?
    && NullableNumeric(rec["unit_cost"])
    && RequiredNumeric(rec["selling_price"])
    && (rec["category_id"].VNone? || rec["category_id"].VInt?)
  }

  /** What the database accepts as the inventory row stored under key `id`:
      current_stock NOT NULL, both amounts within Numeric(10,2). */
  predicate IsInventoryRow(id: int, rec: Record) {
    && rec.Keys == InventoryColumns
    && rec["product_id"] == VInt(id)
    && RequiredNumeric(rec["current_stock"])
    && NullableNumeric(rec["min_stock_level"])
    && (rec["last_restock_data"].VNone? || rec["last_restock_data"].VDate?)
  }

  /** The column constraints of each table, checked at flush/commit. */
  predicate Accepts(kind: TableKind, id: int, rec: Record) {
    match kind
    case ProductTable => IsProductRow(id, rec)
    case InventoryTable => IsInventoryRow(id, rec)
  }

  predicate OptionFits(o: Option<int>) {
    o.None? || FitsNumeric(o.value)
  }

  /** The typed rows the columns can hold. */
  predicate ProductFits(p: Product) {
    OptionFits(p.unitCost) && FitsNumeric(p.sellingPrice)
  }

  predicate InventoryFits(inv: Inventory) {
    FitsNumeric(inv.currentStock) && OptionFits(inv.minStockLevel)
  }

  function ProductRecord(p: Product): Record {
    map["product_id" := VInt(p.productId), "name" := VText(p.name),
        "unit_cost" := OptionalNum(p.unitCost), "selling_price" := VNum(p.sellingPrice),
        "category_id" := OptionalInt(p.categoryId)]
  }

  function InventoryRecord(inv: Inventory): Record {
    map["product_id" := VInt(inv.productId), "current_stock" := VNum(inv.currentStock),
        "min_stock_level" := OptionalNum(inv.minStockLevel),
        "last_restock_data" := OptionalDate(inv.lastRestockDate)]
  }

  function NumOption(v: Value): Option<int> {
    if v.VNum? then Some(v.hundredths) else None
  }

  function IntOption(v: Value): Option<int> {
    if v.VInt? then Some(v.i) else None
  }

  function DateOption(v: Value): Option<int> {
    if v.VDate? then Some(v.day) else None
  }

  function AsProduct(id: int, rec: Record): Product
    requires IsProductRow(id, rec)
  {
    Product(id, rec["name"].text, NumOption(rec["unit_cost"]), rec["selling_price"].hundredths,
            IntOption(rec["category_id"]))
  }

  function AsInventory(id: int, rec: Record): Inventory
    requires IsInventoryRow(id, rec)
  {
    Inventory(id, rec["current_stock"].hundredths, NumOption(rec["min_stock_level"]),
              DateOption(rec["last_restock_data"]))
  }

  /** A typed product that fits the columns encodes to an accepted row that
      decodes back to it. */
  lemma ProductRoundTrip(p: Product)
    ensures IsProductRow(p.productId, ProductRecord(p)) <==> ProductFits(p)
    ensures ProductFits(p) ==> AsProduct(p.productId, ProductRecord(p)) == p
  {
    assert ProductRecord(p).Keys == ProductColumns;
  }

  /** Every accepted product row is the encoding of its decoding. */
  lemma ProductRowRoundTrip(id: int, rec: Record)
    requires IsProductRow(id, rec)
    ensures ProductFits(AsProduct(id, rec)) && ProductRecord(AsProduct(id, rec)) == rec
  {
    var back := ProductRecord(AsProduct(id, rec));
    assert back.Keys == rec.Keys;
    forall k | k in rec ensures back[k] == rec[k] {
    }
  }

  /** A typed inventory row that fits the columns encodes to an accepted row
      that decodes back to it. */
  lemma InventoryRoundTrip(inv: Inventory)
    ensures IsInventoryRow(inv.productId, InventoryRecord(inv)) <==> InventoryFits(inv)
    ensures InventoryFits(inv) ==> AsInventory(inv.productId, InventoryRecord(inv)) == inv
  {
    assert InventoryRecord(inv).Keys == InventoryColumns;
  }

  /** Every accepted inventory row is the encoding of its decoding. */
  lemma InventoryRowRoundTrip(id: int, rec: Record)
    requires IsInventoryRow(id, rec)
    ensures InventoryFits(AsInventory(id, rec)) && InventoryRecord(AsInventory(id, rec)) == rec
  {
    var back := InventoryRecord(AsInventory(id, rec));
    assert back.Keys == rec.Keys;
    forall k | k in rec ensures back[k] == rec[k] {
    }
  }

  /** The inventory table, typed: row by product id. */
  type Stock = map<int, Inventory>

  /** The products table, typed: row by product id. */
  type Products = map<int, Product>

  /** The typed view of the stored inventory rows. */
  function StockOf(rows: map<int, Record>): Stock
    requires forall k :: k in rows ==> IsInventoryRow(k, rows[k])
  {
    map k | k in rows :: AsInventory(k, rows[k])
  }

  /** The typed view of the stored product rows. */
  function ProductsOf(rows: map<int, Record>): Products
    requires forall k :: k in rows ==> IsProductRow(k, rows[k])
  {
    map k | k in rows :: AsProduct(k, rows[k])
  }

  /** The typed views hold a row under each stored key, keyed by its own
      id, within its columns, and encoding back to the stored row. */
  lemma StockOfTyped(rows: map<int, Record>)
    requires forall k :: k in rows ==> IsInventoryRow(k, rows[k])
    ensures StockOf(rows).Keys == rows.Keys
    ensures forall k :: k in rows ==>
      StockOf(rows)[k].productId == k && InventoryFits(StockOf(rows)[k]) && InventoryRecord(StockOf(rows)[k]) == rows[k]
  {
    forall k | k in rows
      ensures InventoryFits(StockOf(rows)[k]) && InventoryRecord(StockOf(rows)[k]) == rows[k]
    {
      InventoryRowRoundTrip(k, rows[k]);
    }
  }

  lemma ProductsOfTyped(rows: map<int, Record>)
    requires forall k :: k in rows ==> IsProductRow(k, rows[k])
    ensures ProductsOf(rows).Keys == rows.Keys
    ensures forall k :: k in rows ==>
      ProductsOf(rows)[k].productId == k && ProductFits(ProductsOf(rows)[k]) && ProductRecord(ProductsOf(rows)[k]) == rows[k]
  {
    forall k | k in rows
      ensures ProductFits(ProductsOf(rows)[k]) && ProductRecord(ProductsOf(rows)[k]) == rows[k]
    {
      ProductRowRoundTrip(k, rows[k]);
    }
  }

  /** Writing one typed row changes the typed view at that key only. */
  lemma StockOfWrite(rows: map<int, Record>, id: int, inv: Inventory)
    requires forall k :: k in rows ==> IsInventoryRow(k, rows[k])
    requires inv.productId == id && InventoryFits(inv)
    ensures IsInventoryRow(id, InventoryRecord(inv))
    ensures StockOf(rows[id := InventoryRecord(inv)]) == StockOf(rows)[id := inv]
  {
    InventoryRoundTrip(inv);
  }

  lemma ProductsOfWrite(rows: map<int, Record>, id: int, p: Product)
    requires forall k :: k in rows ==> IsProductRow(k, rows[k])
    requires p.productId == id && ProductFits(p)
    ensures IsProductRow(id, ProductRecord(p))
    ensures ProductsOf(rows[id := ProductRecord(p)]) == ProductsOf(rows)[id := p]
  {
    ProductRoundTrip(p);
  }

  /** Removing a row removes it from the typed view and nothing else. */
  lemma StockOfRemove(rows: map<int, Record>, id: int)
    requires forall k :: k in rows ==> IsInventoryRow(k, rows[k])
    ensures StockOf(rows - {id}) == StockOf(rows) - {id}
  {
  }

  lemma ProductsOfRemove(rows: map<int, Record>, id: int)
    requires forall k :: k in rows ==> IsProductRow(k, rows[k])
    ensures ProductsOf(rows - {id}) == ProductsOf(rows) - {id}
  {
  }
}
