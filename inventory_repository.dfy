/** The inventory repository of src/repositories/inventory_repositories.py,
    the one ProductRepository uses: a BaseRepository over table `inventory`
    with keyword-argument updates that normalise amounts to Decimal and
    rename the restock-date key to the column's spelling. */
module InventoryRepo {
  import opened Common
  import opened Schema
  import opened BaseRepo

  /** The keys whose non-None values update_inventory_fields converts. */
  const NumericKeys: set<string> := {"current_stock", "min_stock_level"}

  /** Decimal(str(v)): an amount stays as it is, an integer becomes the same
      amount in hundredths, and anything else is not a decimal literal. */
  function ToDecimal(v: Value): (r: Result<Value>)
    ensures r.Ok? <==> v.VNum? || v.VInt?
    ensures r.Ok? ==> r.value.VNum?
  {
    match v
    case VNum(_) => Ok(v)
    case VInt(i) => Ok(VNum(100 * i))
    case _ => Err(NotADecimal)
  }

  /** Every numeric keyword that is not None converts to a Decimal. */
  predicate Convertible(kwargs: map<string, Value>) {
    forall k :: k in kwargs && k in NumericKeys && kwargs[k] != VNone ==> ToDecimal(kwargs[k]).Ok?
  }

  /** kwargs after the conversion loop: non-None numeric values converted,
      everything else as given. */
  function Converted(kwargs: map<string, Value>): (r: map<string, Value>)
    requires Convertible(kwargs)
    ensures r.Keys == kwargs.Keys
    ensures forall k :: k in r && (k !in NumericKeys || kwargs[k] == VNone) ==> r[k] == kwargs[k]
    ensures forall k :: k in r && k in NumericKeys && kwargs[k] != VNone ==> r[k].VNum?
  {
    map k | k in kwargs :: if k in NumericKeys && kwargs[k] != VNone then ToDecimal(kwargs[k]).value else kwargs[k]
  }

  /** kwargs after `kwargs["last_restock_data"] = kwargs.pop("last_restock_date")`
      when the key is present; unchanged otherwise. */
  function Renamed(kwargs: map<string, Value>): (r: map<string, Value>)
    ensures "last_restock_date" !in r
    ensures "last_restock_date" in kwargs ==> r.Keys == kwargs.Keys - {"last_restock_date"} + {"last_restock_data"}
    ensures "last_restock_date" in kwargs ==> r["last_restock_data"] == kwargs["last_restock_date"]
    ensures forall k :: k in kwargs && k != "last_restock_date" && k != "last_restock_data" ==> k in r && r[k] == kwargs[k]
    ensures "last_restock_date" !in kwargs ==> r == kwargs
  {
    if "last_restock_date" in kwargs then
      (kwargs - {"last_restock_date"})["last_restock_data" := kwargs["last_restock_date"]]
    else kwargs
  }

  /** What update_inventory_fields hands to the base update. */
  function Normalized(kwargs: map<string, Value>): (r: Result<map<string, Value>>)
  {
    if Convertible(kwargs) then Ok(Renamed(Converted(kwargs))) else Err(NotADecimal)
  }

  /** The data passed to the base update assigns the restock date, given
      under either spelling, to the column `last_restock_data`; the spelling
      of the function's parameter never reaches the object. */
  lemma NormalizedReachesColumn(kwargs: map<string, Value>, rec: Record)
    requires rec.Keys == InventoryColumns
    requires Convertible(kwargs) && "last_restock_date" in kwargs
    ensures Normalized(kwargs).Ok?
    ensures Assigned(rec, Normalized(kwargs).value)["last_restock_data"] == kwargs["last_restock_date"]
    ensures Assigned(rec, Normalized(kwargs).value).Keys == InventoryColumns
  {
  }

  /** A keyword that names neither a column nor a relationship of
      `Inventory` changes nothing. Relationship keywords, and the other
      class attributes hasattr also finds, are not part of this model. */
  lemma NonColumnKeywordIgnored(kwargs: map<string, Value>, rec: Record, k: string, v: Value)
    requires rec.Keys == InventoryColumns
    requires k !in InventoryColumns && k !in InventoryRelationships && k !in NumericKeys && k != "last_restock_date"
    requires Convertible(kwargs)
    ensures Convertible(kwargs[k := v])
    ensures Assigned(rec, Normalized(kwargs[k := v]).value) == Assigned(rec, Normalized(kwargs).value)
  {
    NormalizedAgrees(kwargs, k, v);
    AssignedAgrees(rec, Normalized(kwargs[k := v]).value, Normalized(kwargs).value);
  }

  /** Adding a plain keyword to kwargs changes the normalised data at that
      keyword only. */
  lemma NormalizedAgrees(kwargs: map<string, Value>, k: string, v: Value)
    requires k !in NumericKeys && k != "last_restock_date" && k != "last_restock_data"
    requires Convertible(kwargs)
    ensures Convertible(kwargs[k := v])
    ensures var n1, n0 := Normalized(kwargs[k := v]).value, Normalized(kwargs).value;
      forall c :: c != k ==> (c in n1 <==> c in n0) && (c in n1 ==> n1[c] == n0[c])
  {
  }

  /** Two data maps that agree on the row's columns assign the same. */
  lemma AssignedAgrees(rec: Record, d1: map<string, Value>, d2: map<string, Value>)
    requires forall c :: c in rec ==> (c in d1 <==> c in d2) && (c in d1 ==> d1[c] == d2[c])
    ensures Assigned(rec, d1) == Assigned(rec, d2)
  {
    assert Assigned(rec, d1).Keys == Assigned(rec, d2).Keys;
  }

  class InventoryRepository {
    const table: BaseRepository

    ghost predicate Valid()
      reads this, table
    {
      table.kind == InventoryTable && table.Valid()
    }

    constructor (table: BaseRepository)
      requires table.kind == InventoryTable && table.Valid()
      ensures this.table == table && Valid()
    {
      this.table := table;
    }

    /** get_by_product_id: the stored row under the key, decoded. */
    method GetByProductId(productId: int) returns (r: Option<Inventory>)
      requires Valid()
      ensures r.Some? <==> productId in table.rows
      ensures r.Some? ==> r.value.productId == productId && InventoryRecord(r.value) == table.rows[productId]
      ensures r.Some? ==> r.value == AsInventory(productId, table.rows[productId])
    {
      var found := table.Get(productId);
      if found.None? {
        return None;
      }
      InventoryRowRoundTrip(productId, found.value);
      r := Some(AsInventory(productId, found.value));
    }

    /** create_inventory: a None or zero current_stock is stored as 0, the
        other fields as given; the row is added and flushed, and the flush
        is refused on a duplicate key, a value the columns cannot hold, or a
        product id that names no row of `products` (`productIds`, the keys
        of that table), which the foreign key rejects. */
    method CreateInventory(productIds: set<int>, productId: int, currentStock: Option<int>,
                           minStockLevel: Option<int>, lastRestockDate: Option<int>) returns (r: Result<Inventory>)
      requires Valid()
      modifies table
      ensures Valid() && table.referenced == old(table.referenced)
      ensures var inv := Inventory(productId, if currentStock.Some? then currentStock.value else 0,
                                   minStockLevel, lastRestockDate);
        if productId in productIds && productId !in old(table.rows) && InventoryFits(inv)
        then r == Ok(inv) && table.rows == old(table.rows)[productId := InventoryRecord(inv)]
             && table.order == old(table.order) + [productId]
        else r == Err(CommitRejected) && table.rows == old(table.rows) && table.order == old(table.order)
    {
      var stock := if currentStock.Some? then currentStock.value else 0;
      var inv := Inventory(productId, stock, minStockLevel, lastRestockDate);
      if productId !in productIds {
        return Err(CommitRejected);
      }
      InventoryRoundTrip(inv);
      var added := table.Add(productId, InventoryRecord(inv));
      if added.Err? {
        return Err(added.error);
      }
      r := Ok(inv);
    }

    /** update_inventory_fields: the conversion loop over the keywords (a
        value that is not a number raises before the row is looked up), the
        rename of `last_restock_date`, then the base update. */
    method UpdateInventoryFields(productId: int, kwargs: map<string, Value>) returns (r: Result<Option<Record>>)
      requires Valid()
      modifies table`rows
      ensures Valid()
      ensures !Convertible(kwargs) ==> r == Err(NotADecimal) && table.rows == old(table.rows)
      ensures Convertible(kwargs) && productId !in old(table.rows) ==>
        r == Ok(None) && table.rows == old(table.rows)
      ensures Convertible(kwargs) && productId in old(table.rows) ==>
        var obj := Assigned(old(table.rows)[productId], Renamed(Converted(kwargs)));
        if IsInventoryRow(productId, obj)
        then r == Ok(Some(obj)) && table.rows == old(table.rows)[productId := obj]
        else r == Err(CommitRejected) && table.rows == old(table.rows)
    {
      var args := kwargs;
      var pending := kwargs.Keys;
      while pending != {}
        invariant pending <= kwargs.Keys && args.Keys == kwargs.Keys
        invariant forall k :: k in kwargs && k !in pending && k in NumericKeys && kwargs[k] != VNone ==>
          ToDecimal(kwargs[k]).Ok?
        invariant forall k :: k in args ==>
          args[k] == if k !in pending && k in NumericKeys && kwargs[k] != VNone
                     then ToDecimal(kwargs[k]).value else kwargs[k]
        decreases pending
      {
        var k :| k in pending;
        if k in NumericKeys && args[k] != VNone {
          var converted := ToDecimal(args[k]);
          if converted.Err? {
            return Err(NotADecimal);
          }
          args := args[k := converted.value];
        }
        pending := pending - {k};
      }
      assert args == Converted(kwargs);
      if "last_restock_date" in args {
        args := (args - {"last_restock_date"})["last_restock_data" := args["last_restock_date"]];
      }
      r := table.Update(productId, args);
    }

    /** update_stock: update_inventory_fields with current_stock alone, so
        only that column changes. */
    method UpdateStock(productId: int, newStock: int) returns (r: Result<Option<Record>>)
      requires Valid()
      modifies table`rows
      ensures Valid()
      ensures productId !in old(table.rows) ==> r == Ok(None) && table.rows == old(table.rows)
      ensures productId in old(table.rows) ==>
        var obj := old(table.rows)[productId]["current_stock" := VNum(newStock)];
        if FitsNumeric(newStock)
        then r == Ok(Some(obj)) && table.rows == old(table.rows)[productId := obj]
        else r == Err(CommitRejected) && table.rows == old(table.rows)
    {
      var kwargs := map["current_stock" := VNum(newStock)];
      assert Renamed(Converted(kwargs)) == kwargs;
      if productId in table.rows {
        assert Assigned(table.rows[productId], kwargs) == table.rows[productId]["current_stock" := VNum(newStock)];
      }
      r := UpdateInventoryFields(productId, kwargs);
    }

    /** delete_inventory: the base delete, True exactly when a row existed
        and went. */
    method DeleteInventory(productId: int) returns (r: Result<bool>)
      requires Valid()
      modifies table`rows, table`order
      ensures Valid()
      ensures productId !in old(table.rows) ==>
        r == Ok(false) && table.rows == old(table.rows) && table.order == old(table.order)
      ensures productId in old(table.rows) && productId in table.referenced ==>
        r == Err(CommitRejected) && table.rows == old(table.rows) && table.order == old(table.order)
      ensures productId in old(table.rows) && productId !in table.referenced ==>
        r == Ok(true) && table.rows == old(table.rows) - {productId}
        && table.order == Without(old(table.order), productId)
    {
      r := table.Delete(productId);
    }
  }
}
