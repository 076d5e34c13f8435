/** The inventory repository of src/repositories/inventoryrepository_repositorie.py,
    the store the stock ledger works through: typed arguments, updates that
    assign only the arguments that are not None, and a commit per call. */
module LedgerRepo {
  import opened Common
  import opened Schema
  import opened BaseRepo

  /** The row `update` leaves: each field whose argument is not None takes
      the argument, every other field keeps its value. */
  function Overlay(inv: Inventory, currentStock: Option<int>, minStockLevel: Option<int>,
                   lastRestockData: Option<int>): (r: Inventory)
    ensures r.productId == inv.productId
    ensures r.currentStock == if currentStock.Some? then currentStock.value else inv.currentStock
    ensures r.minStockLevel == if minStockLevel.Some? then minStockLevel else inv.minStockLevel
    ensures r.lastRestockDate == if lastRestockData.Some? then lastRestockData else inv.lastRestockDate
  {
    var r := if currentStock.Some? then inv.(currentStock := currentStock.value) else inv;
    var r := if minStockLevel.Some? then r.(minStockLevel := minStockLevel) else r;
    if lastRestockData.Some? then r.(lastRestockDate := lastRestockData) else r
  }

  /** A reorder point, once set, cannot be cleared through `update`: a None
      argument means "leave as is". */
  lemma MinLevelNeverCleared(inv: Inventory, c: Option<int>, m: Option<int>, d: Option<int>)
    requires inv.minStockLevel.Some?
    ensures Overlay(inv, c, m, d).minStockLevel.Some?
  {
  }

  /** Applying the same update twice is applying it once, and an update
      with every argument None changes nothing. */
  lemma OverlayIdempotent(inv: Inventory, c: Option<int>, m: Option<int>, d: Option<int>)
    ensures Overlay(Overlay(inv, c, m, d), c, m, d) == Overlay(inv, c, m, d)
    ensures Overlay(inv, None, None, None) == inv
  {
  }

  /** The attribute assignments of update on the fetched row: each
      argument that is not None overwrites its column. */
  method AssignStockFields(productId: int, row: Record, currentStock: Option<int>, minStockLevel: Option<int>,
                           lastRestockData: Option<int>) returns (inventory: Record)
    requires IsInventoryRow(productId, row)
    ensures inventory == InventoryRecord(Overlay(AsInventory(productId, row), currentStock, minStockLevel,
                                                 lastRestockData))
  {
    inventory := row;
    if currentStock.Some? {
      inventory := inventory["current_stock" := VNum(currentStock.value)];
    }
    if minStockLevel.Some? {
      inventory := inventory["min_stock_level" := VNum(minStockLevel.value)];
    }
    if lastRestockData.Some? {
      inventory := inventory["last_restock_data" := VDate(lastRestockData.value)];
    }
    var inv := Overlay(AsInventory(productId, row), currentStock, minStockLevel, lastRestockData);
    InventoryRowRoundTrip(productId, row);
    InventoryRoundTrip(inv);
  }

  class InventoryRepository {
    const table: BaseRepository

    ghost predicate Valid()
      reads this, table
    {
      table.kind == InventoryTable && table.Valid()
    }

    constructor (table: BaseRepository)
      requires table.kind == InventoryTable && table.Valid()
      ensures this.table == table && Valid()
    {
      this.table := table;
    }

    /** get_by_product_id: the first row whose product_id is the given one,
        which, product_id being the key, is the row stored under it. */
    method GetByProductId(productId: int) returns (r: Option<Inventory>)
      requires Valid()
      ensures r.Some? <==> productId in table.rows
      ensures r.Some? ==> r.value.productId == productId && InventoryRecord(r.value) == table.rows[productId]
      ensures r.Some? ==> r.value == AsInventory(productId, table.rows[productId])
    {
      var found := table.Get(productId);
      if found.None? {
        return None;
      }
      InventoryRowRoundTrip(productId, found.value);
      r := Some(AsInventory(productId, found.value));
    }

    /** create: the row is stored as given, except that a None
        current_stock is left out of the INSERT, so the column default 0 is
        stored in its place. The commit is refused on a duplicate key, a
        value the columns cannot hold, or a product id that names no row of
        `products` (`productIds`, the keys of that table). */
    method Create(productIds: set<int>, productId: int, currentStock: Option<int>,
                  minStockLevel: Option<int>, lastRestockData: Option<int>) returns (r: Result<Inventory>)
      requires Valid()
      modifies table
      ensures Valid() && table.referenced == old(table.referenced)
      ensures var inv := Inventory(productId, if currentStock.Some? then currentStock.value else 0,
                                   minStockLevel, lastRestockData);
        if productId in productIds && productId !in old(table.rows) && InventoryFits(inv)
        then r == Ok(inv) && table.rows == old(table.rows)[productId := InventoryRecord(inv)]
             && table.order == old(table.order) + [productId]
        else r == Err(CommitRejected) && table.rows == old(table.rows) && table.order == old(table.order)
    {
      var inv := Inventory(productId, if currentStock.Some? then currentStock.value else 0,
                           minStockLevel, lastRestockData);
      if productId !in productIds {
        return Err(CommitRejected);
      }
      InventoryRoundTrip(inv);
      var added := table.Add(productId, InventoryRecord(inv));
      if added.Err? {
        return Err(added.error);
      }
      r := Ok(inv);
    }

    /** update: None for an absent row; otherwise the arguments that are
        not None are assigned to the fetched row in place and committed. */
    method Update(productId: int, currentStock: Option<int>, minStockLevel: Option<int>,
                  lastRestockData: Option<int>) returns (r: Result<Option<Inventory>>)
      requires Valid()
      modifies table`rows
      ensures Valid()
      ensures productId !in old(table.rows) ==> r == Ok(None) && table.rows == old(table.rows)
      ensures productId in old(table.rows) ==>
        var inv := Overlay(AsInventory(productId, old(table.rows)[productId]),
                           currentStock, minStockLevel, lastRestockData);
        if InventoryFits(inv)
        then r == Ok(Some(inv)) && table.rows == old(table.rows)[productId := InventoryRecord(inv)]
        else r == Err(CommitRejected) && table.rows == old(table.rows)
    {
      var found := table.Get(productId);
      if found.None? {
        return Ok(None);
      }
      var inventory := AssignStockFields(productId, found.value, currentStock, minStockLevel, lastRestockData);
      var inv := Overlay(AsInventory(productId, found.value), currentStock, minStockLevel, lastRestockData);
      InventoryRoundTrip(inv);
      var ok := table.CommitChanged(productId, inventory);
      if !ok {
        return Err(CommitRejected);
      }
      r := Ok(Some(inv));
    }

    /** update_stock: update with current_stock alone. */
    method UpdateStock(productId: int, newStock: int) returns (r: Result<Option<Inventory>>)
      requires Valid()
      modifies table`rows
      ensures Valid()
      ensures productId !in old(table.rows) ==> r == Ok(None) && table.rows == old(table.rows)
      ensures productId in old(table.rows) ==>
        var inv := AsInventory(productId, old(table.rows)[productId]).(currentStock := newStock);
        if FitsNumeric(newStock)
        then r == Ok(Some(inv)) && table.rows == old(table.rows)[productId := InventoryRecord(inv)]
        else r == Err(CommitRejected) && table.rows == old(table.rows)
    {
      r := Update(productId, Some(newStock), None, None);
    }

    /** delete: False and no change when absent, otherwise the row is
        removed and committed and the answer is True. */
    method Delete(productId: int) returns (r: Result<bool>)
      requires Valid()
      modifies table`rows, table`order
      ensures Valid()
      ensures productId !in old(table.rows) ==>
        r == Ok(false) && table.rows == old(table.rows) && table.order == old(table.order)
      ensures productId in old(table.rows) && productId in table.referenced ==>
        r == Err(CommitRejected) && table.rows == old(table.rows) && table.order == old(table.order)
      ensures productId in old(table.rows) && productId !in table.referenced ==>
        r == Ok(true) && table.rows == old(table.rows) - {productId}
        && table.order == Without(old(table.order), productId)
    {
      var inventory := GetByProductId(productId);
      if inventory.None? {
        return Ok(false);
      }
      r := table.Delete(productId);
    }

    /** list() of the inherited base: the first 100 rows in listing order. */
    method List() returns (items: seq<Inventory>)
      requires Valid()
      ensures |items| == if |table.order| < 100 then |table.order| else 100
      ensures forall k :: 0 <= k < |items| ==>
        && items[k].productId == table.order[k] && InventoryRecord(items[k]) == table.rows[table.order[k]]
        && items[k] == AsInventory(table.order[k], table.rows[table.order[k]])
    {
      var records := table.List(0, 100);
      items := [];
      for i := 0 to |records|
        invariant |items| == i
        invariant forall k :: 0 <= k < i ==>
          && items[k].productId == table.order[k] && InventoryRecord(items[k]) == table.rows[table.order[k]]
          && items[k] == AsInventory(table.order[k], table.rows[table.order[k]])
      {
        InventoryRowRoundTrip(table.order[i], records[i]);
        items := items + [AsInventory(table.order[i], records[i])];
      }
    }
  }
}
