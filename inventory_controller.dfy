/** The stock ledger of src/controller/inventory_controller.py
    (InventoryControll): overwrite, increment and deduct the stock of one
    product, and scan the listed rows for products at or below their reorder
    point. The typed functions below say what each operation does to the
    table; the controller's methods are proved against them. */
module Ledger {
  import opened Common
  import opened Schema
  import opened BaseRepo
  import opened LedgerRepo

  /** A committed stock write, seen through the typed view, is WriteStock. */
  lemma StockOfWriteStock(before: map<int, Record>, id: int, n: int)
    requires forall k :: k in before ==> IsInventoryRow(k, before[k])
    requires id in before && FitsNumeric(n)
    ensures var inv := AsInventory(id, before[id]).(currentStock := n);
      && IsInventoryRow(id, InventoryRecord(inv))
      && WriteStock(StockOf(before), id, n) == (Ok(inv), StockOf(before[id := InventoryRecord(inv)]))
  {
    var inv := AsInventory(id, before[id]).(currentStock := n);
    InventoryRowRoundTrip(id, before[id]);
    StockOfWrite(before, id, inv);
  }

  /** update_stock's outcome on a present row, seen through the typed
      view, is WriteStock. */
  lemma UpdateStockWrites(before: map<int, Record>, after: map<int, Record>, id: int, n: int,
                          updated: Result<Option<Inventory>>)
    requires forall k :: k in before ==> IsInventoryRow(k, before[k])
    requires id in before
    requires var inv := AsInventory(id, before[id]).(currentStock := n);
      if FitsNumeric(n)
      then updated == Ok(Some(inv)) && after == before[id := InventoryRecord(inv)]
      else updated == Err(CommitRejected) && after == before
    ensures updated.Ok? ==> updated.value.Some?
    ensures (if updated.Err? then Err(updated.error) else Ok(updated.value.value), StockOf(after))
            == WriteStock(StockOf(before), id, n)
  {
    if FitsNumeric(n) {
      StockOfWriteStock(before, id, n);
    }
  }

  /** The rows stored under `ids`, decoded, in the order of `ids`. */
  function Decoded(ids: seq<int>, rows: map<int, Record>): (r: seq<Inventory>)
    requires forall i :: 0 <= i < |ids| ==> ids[i] in rows && IsInventoryRow(ids[i], rows[ids[i]])
    ensures |r| == |ids|
    ensures forall k :: 0 <= k < |ids| ==> r[k] == AsInventory(ids[k], rows[ids[k]])
  {
    seq(|ids|, k requires 0 <= k < |ids| && ids[k] in rows && IsInventoryRow(ids[k], rows[ids[k]]) =>
      AsInventory(ids[k], rows[ids[k]]))
  }

  /** The ledger invariant: no stock below zero. */
  predicate NonNegative(t: Stock) {
    forall k :: k in t ==> t[k].currentStock >= 0
  }

  /** What the database can hold: every row keyed by its own product id and
      within its columns' range. */
  predicate Stored(t: Stock) {
    forall k :: k in t ==> t[k].productId == k && InventoryFits(t[k])
  }

  lemma StockOfStored(rows: map<int, Record>)
    requires forall k :: k in rows ==> IsInventoryRow(k, rows[k])
    ensures Stored(StockOf(rows))
  {
    forall k | k in rows
      ensures StockOf(rows)[k].productId == k && InventoryFits(StockOf(rows)[k])
    {
      InventoryRowRoundTrip(k, rows[k]);
    }
  }

  /** The reorder condition: a reorder point is set and the stock is at or
      below it. */
  predicate NeedsReorder(inv: Inventory) {
    inv.minStockLevel.Some? && inv.currentStock <= inv.minStockLevel.value
  }

  /** update_stock through the repository: the commit is refused when the
      new amount does not fit Numeric(10,2). */
  function WriteStock(t: Stock, id: int, n: int): (s: (Result<Inventory>, Stock))
    requires id in t
  {
    var inv := t[id].(currentStock := n);
    if FitsNumeric(n) then (Ok(inv), t[id := inv]) else (Err(CommitRejected), t)
  }

  /** set_current_stock. */
  function SetStock(t: Stock, id: int, newStock: Option<int>): (s: (Result<Inventory>, Stock))
  {
    if newStock.None? then (Err(StockRequired), t)
    else if newStock.value < 0 then (Err(NegativeStock), t)
    else if id !in t then (Err(InventoryNotFound(id)), t)
    else WriteStock(t, id, newStock.value)
  }

  /** record_incoming_stock. */
  function Receive(t: Stock, id: int, quantity: Option<int>): (s: (Result<Inventory>, Stock))
  {
    if quantity.None? || quantity.value <= 0 then (Err(QuantityNotPositive), t)
    else if id !in t then (Err(InventoryNotFound(id)), t)
    else WriteStock(t, id, t[id].currentStock + quantity.value)
  }

  /** A deduction's outcome: the updated row, and whether the reorder alert
      fires for it. */
  datatype Deduction = Deduction(inventory: Inventory, alert: bool)

  /** process_stock_deduction. */
  function Deduct(t: Stock, id: int, quantity: Option<int>): (s: (Result<Deduction>, Stock))
  {
    if quantity.None? || quantity.value <= 0 then (Err(QuantityNotPositive), t)
    else if id !in t then (Err(InventoryNotFound(id)), t)
    else
      var newStock := t[id].currentStock - quantity.value;
      if newStock < 0 then (Err(InsufficientStock(t[id].currentStock, quantity.value)), t)
      else
        var w := WriteStock(t, id, newStock);
        if w.0.Err? then (Err(w.0.error), t)
        else (Ok(Deduction(w.0.value, NeedsReorder(w.0.value))), w.1)
  }

  /** The outcome of a deduction that passes every check. */
  lemma DeductAccepted(t: Stock, id: int, q: int)
    requires id in t && q > 0 && 0 <= t[id].currentStock - q && FitsNumeric(t[id].currentStock - q)
    ensures var inv := t[id].(currentStock := t[id].currentStock - q);
      Deduct(t, id, Some(q)) == (Ok(Deduction(inv, NeedsReorder(inv))), t[id := inv])
  {
  }

  /** set_current_stock: None and negative amounts are refused before the
      lookup, a missing row after it, and each refusal writes nothing; on
      success only current_stock of that one row changes, to exactly the
      amount given. */
  lemma SetStockSpec(t: Stock, id: int, newStock: Option<int>)
    requires Stored(t)
    ensures var (r, t') := SetStock(t, id, newStock);
      && (newStock.None? <==> r == Err(StockRequired))
      && (newStock.Some? && newStock.value < 0 <==> r == Err(NegativeStock))
      && (r.Err? ==> t' == t)
      && (r.Ok? <==> newStock.Some? && 0 <= newStock.value < NumericBound && id in t)
      && (r.Ok? ==> r.value == t[id].(currentStock := newStock.value) && t' == t[id := r.value])
  {
  }

  /** record_incoming_stock: a missing, zero or negative quantity and a
      missing row are refused without a write; otherwise the stock grows by
      exactly the quantity, and nothing else changes: the restock date is
      not touched. */
  lemma ReceiveSpec(t: Stock, id: int, quantity: Option<int>)
    requires Stored(t)
    ensures var (r, t') := Receive(t, id, quantity);
      && (quantity.None? || quantity.value <= 0 <==> r == Err(QuantityNotPositive))
      && (r.Err? ==> t' == t)
      && (r.Ok? ==> id in t && r.value.currentStock == t[id].currentStock + quantity.value
                    && r.value.lastRestockDate == t[id].lastRestockDate
                    && r.value.minStockLevel == t[id].minStockLevel
                    && t' == t[id := r.value])
  {
  }

  /** process_stock_deduction: a deduction that would take the stock below
      zero is refused with the current amount and the quantity, and writes
      nothing (no partial deduction); an accepted one lowers the stock by
      exactly the quantity. */
  lemma DeductSpec(t: Stock, id: int, quantity: Option<int>)
    requires Stored(t)
    ensures var (r, t') := Deduct(t, id, quantity);
      && (quantity.None? || quantity.value <= 0 <==> r == Err(QuantityNotPositive))
      && (r.Err? ==> t' == t)
      && (quantity.Some? && quantity.value > 0 && id in t ==>
            (r.Err? <==> t[id].currentStock < quantity.value)
            && (r.Err? ==> r.error == InsufficientStock(t[id].currentStock, quantity.value)))
      && (r.Ok? ==> id in t && r.value.inventory == t[id].(currentStock := t[id].currentStock - quantity.value)
                    && t' == t[id := r.value.inventory])
  {
  }

  /** The alert after a deduction fires exactly when the reorder point is
      set and the new stock is at or below it. */
  lemma AlertIffReorderPoint(t: Stock, id: int, quantity: Option<int>)
    requires Deduct(t, id, quantity).0.Ok?
    ensures var d := Deduct(t, id, quantity).0.value;
      d.alert <==> d.inventory.minStockLevel.Some? && d.inventory.currentStock <= d.inventory.minStockLevel.value
  {
  }

  /** Deducting exactly the current stock is allowed (the test is strict)
      and leaves zero. */
  lemma DeductAllLeavesZero(t: Stock, id: int)
    requires Stored(t) && id in t && t[id].currentStock > 0
    ensures Deduct(t, id, Some(t[id].currentStock)).0.Ok?
    ensures Deduct(t, id, Some(t[id].currentStock)).1[id].currentStock == 0
  {
  }

  /** All three mutators keep every stock non-negative. */
  lemma {:induction false} MutatorsKeepNonNegative(t: Stock, id: int, x: Option<int>)
    requires NonNegative(t)
    ensures NonNegative(SetStock(t, id, x).1)
    ensures NonNegative(Receive(t, id, x).1)
    ensures NonNegative(Deduct(t, id, x).1)
  {
    if x.Some? && id in t {
      if x.value >= 0 {
        assert SetStock(t, id, x).1 == t || SetStock(t, id, x).1 == t[id := t[id].(currentStock := x.value)];
      }
      if x.value > 0 {
        assert Receive(t, id, x).1 == t
          || Receive(t, id, x).1 == t[id := t[id].(currentStock := t[id].currentStock + x.value)];
      }
    }
  }

  /** Receiving a quantity and then deducting the same quantity gives back
      the table it started from. */
  lemma ReceiveThenDeductRestores(t: Stock, id: int, q: int)
    requires Stored(t) && NonNegative(t) && id in t && q > 0
    requires FitsNumeric(t[id].currentStock + q)
    ensures Receive(t, id, Some(q)).0.Ok?
    ensures Deduct(Receive(t, id, Some(q)).1, id, Some(q)).0.Ok?
    ensures Deduct(Receive(t, id, Some(q)).1, id, Some(q)).1 == t
  {
    var t1 := Receive(t, id, Some(q)).1;
    assert t1[id].(currentStock := t[id].currentStock) == t[id];
  }

  /** Starting from 50 units, receiving 10 and deducting 30 leaves 30
      (amounts in hundredths). */
  lemma ReceiveDeductExample()
    ensures var t0 := map[7 := Inventory(7, 5000, None, None)];
      var t1 := Receive(t0, 7, Some(1000)).1;
      var t2 := Deduct(t1, 7, Some(3000)).1;
      7 in t2 && t2[7].currentStock == 3000
  {
  }

  /** The ids check_for_reorder collects from the listed rows, in order. */
  function LowStock(listed: seq<Inventory>): (ids: seq<int>)
    ensures |ids| <= |listed|
  {
    if listed == [] then []
    else
      var last := listed[|listed| - 1];
      LowStock(listed[..|listed| - 1]) + (if NeedsReorder(last) then [last.productId] else [])
  }

  /** An id is reported exactly when a listed row with that id needs
      reordering. */
  lemma {:induction false} LowStockMembers(listed: seq<Inventory>)
    ensures forall x :: x in LowStock(listed) <==>
      exists i :: 0 <= i < |listed| && listed[i].productId == x && NeedsReorder(listed[i])
  {
    if listed != [] {
      var init := listed[..|listed| - 1];
      LowStockMembers(init);
      forall x | x in LowStock(listed)
        ensures exists i :: 0 <= i < |listed| && listed[i].productId == x && NeedsReorder(listed[i])
      {
        if x in LowStock(init) {
          var i :| 0 <= i < |init| && init[i].productId == x && NeedsReorder(init[i]);
          assert listed[i] == init[i];
        } else {
          assert listed[|listed| - 1].productId == x && NeedsReorder(listed[|listed| - 1]);
        }
      }
      forall x | exists i :: 0 <= i < |listed| && listed[i].productId == x && NeedsReorder(listed[i])
        ensures x in LowStock(listed)
      {
        var i :| 0 <= i < |listed| && listed[i].productId == x && NeedsReorder(listed[i]);
        if i < |init| {
          assert init[i] == listed[i];
        }
      }
    }
  }

  /** A listed row without a reorder point is never reported (product ids
      being distinct, as keys of the table are). */
  lemma NoReorderPointNeverReported(listed: seq<Inventory>, i: int)
    requires 0 <= i < |listed| && listed[i].minStockLevel.None?
    requires forall j, k :: 0 <= j < k < |listed| ==> listed[j].productId != listed[k].productId
    ensures listed[i].productId !in LowStock(listed)
  {
    LowStockMembers(listed);
  }

  /** With a reorder point of 10 and 15 in stock, deducting 6 leaves 9,
      fires the alert, and puts the product in the report it was not in
      before. */
  lemma ReorderExample()
    ensures var t0 := map[3 := Inventory(3, 1500, Some(1000), None)];
      var (r, t1) := Deduct(t0, 3, Some(600));
      && r.Ok? && r.value.alert && t1[3].currentStock == 900
      && 3 !in LowStock([t0[3]]) && LowStock([t1[3]]) == [3]
  {
    var t0 := map[3 := Inventory(3, 1500, Some(1000), None)];
    assert LowStock([t0[3]]) == LowStock([]) + [];
  }

  /** The append loop of check_for_reorder over the listed rows. */
  method CollectLowStock(listed: seq<Inventory>) returns (lowStockProducts: seq<int>)
    ensures lowStockProducts == LowStock(listed)
  {
    lowStockProducts := [];
    for i := 0 to |listed|
      invariant lowStockProducts == LowStock(listed[..i])
    {
      assert listed[..i + 1][..i] == listed[..i];
      var inv := listed[i];
      if inv.minStockLevel.Some? && inv.currentStock <= inv.minStockLevel.value {
        lowStockProducts := lowStockProducts + [inv.productId];
      }
    }
    assert listed[..|listed|] == listed;
  }

  class InventoryController {
    const repo: InventoryRepository

    ghost predicate Valid()
      reads this, repo, repo.table
    {
      repo.Valid() && NonNegative(StockOf(repo.table.rows))
    }

    /** The table as the ledger sees it. */
    ghost function Stock(): Stock
      reads this, repo, repo.table
      requires repo.Valid()
    {
      StockOf(repo.table.rows)
    }

    /** The rows `inventory_repo.list()` returns: the first 100 in listing
        order, decoded. */
    ghost function Listed(): seq<Inventory>
      reads this, repo, repo.table
      requires repo.Valid()
    {
      var n := if |repo.table.order| < 100 then |repo.table.order| else 100;
      Decoded(repo.table.order[..n], repo.table.rows)
    }

    constructor (repo: InventoryRepository)
      requires repo.Valid() && NonNegative(StockOf(repo.table.rows))
      ensures this.repo == repo && Valid()
    {
      this.repo := repo;
    }

    /** set_current_stock. */
    method SetCurrentStock(productId: int, newStock: Option<int>) returns (r: Result<Inventory>)
      requires Valid()
      modifies repo.table`rows
      ensures Valid()
      ensures (r, Stock()) == SetStock(old(Stock()), productId, newStock)
    {
      if newStock.None? {
        return Err(StockRequired);
      }
      if newStock.value < 0 {
        return Err(NegativeStock);
      }
      var inventory := repo.GetByProductId(productId);
      if inventory.None? {
        return Err(InventoryNotFound(productId));
      }
      ghost var before := repo.table.rows;
      ghost var t := Stock();
      var updated := repo.UpdateStock(productId, newStock.value);
      UpdateStockWrites(before, repo.table.rows, productId, newStock.value, updated);
      MutatorsKeepNonNegative(t, productId, newStock);
      if updated.Err? {
        return Err(updated.error);
      }
      r := Ok(updated.value.value);
    }

    /** record_incoming_stock. */
    method RecordIncomingStock(productId: int, quantity: Option<int>) returns (r: Result<Inventory>)
      requires Valid()
      modifies repo.table`rows
      ensures Valid()
      ensures (r, Stock()) == Receive(old(Stock()), productId, quantity)
    {
      if quantity.None? || quantity.value <= 0 {
        return Err(QuantityNotPositive);
      }
      var inventory := repo.GetByProductId(productId);
      if inventory.None? {
        return Err(InventoryNotFound(productId));
      }
      ghost var before := repo.table.rows;
      ghost var t := Stock();
      assert t[productId] == inventory.value;
      var newStock := inventory.value.currentStock + quantity.value;
      assert Receive(t, productId, quantity) == WriteStock(t, productId, newStock);
      var updated := repo.UpdateStock(productId, newStock);
      UpdateStockWrites(before, repo.table.rows, productId, newStock, updated);
      MutatorsKeepNonNegative(t, productId, quantity);
      if updated.Err? {
        return Err(updated.error);
      }
      r := Ok(updated.value.value);
    }

    /** process_stock_deduction; the alert the source prints is returned. */
    method ProcessStockDeduction(productId: int, quantity: Option<int>) returns (r: Result<Deduction>)
      requires Valid()
      modifies repo.table`rows
      ensures Valid()
      ensures (r, Stock()) == Deduct(old(Stock()), productId, quantity)
    {
      if quantity.None? || quantity.value <= 0 {
        return Err(QuantityNotPositive);
      }
      var inventory := repo.GetByProductId(productId);
      if inventory.None? {
        return Err(InventoryNotFound(productId));
      }
      ghost var before := repo.table.rows;
      ghost var t := Stock();
      assert t[productId] == inventory.value;
      var newStock := inventory.value.currentStock - quantity.value;
      if newStock < 0 {
        return Err(InsufficientStock(inventory.value.currentStock, quantity.value));
      }
      DeductAccepted(t, productId, quantity.value);
      var updated := repo.UpdateStock(productId, newStock);
      UpdateStockWrites(before, repo.table.rows, productId, newStock, updated);
      MutatorsKeepNonNegative(t, productId, quantity);
      var updatedInventory := updated.value.value;
      var alert := updatedInventory.minStockLevel.Some?
                   && updatedInventory.currentStock <= updatedInventory.minStockLevel.value;
      r := Ok(Deduction(updatedInventory, alert));
    }

    /** check_for_reorder: the listed rows, then the append loop. */
    method CheckForReorder() returns (lowStockProducts: seq<int>)
      requires Valid()
      ensures lowStockProducts == LowStock(Listed())
    {
      var listed := repo.List();
      assert listed == Listed();
      lowStockProducts := CollectLowStock(listed);
    }
  }
}
