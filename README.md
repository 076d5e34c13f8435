# Garage service provider back end: stock ledger, catalogue and account checks

This project models the core of a FastAPI/SQLAlchemy back end for a garage
that sells parts and services. It covers:

- **The stock ledger.** `InventoryControll` (sic) overwrites, increments and deducts
  the `current_stock` of an inventory row and reports rows at or below their
  reorder point. It works through the older inventory repository.
- **The tables underneath.** `products` and `inventory` as the generic
  `BaseRepository` and the two inventory repositories see them. A table is
  a class holding its rows (attribute maps of the columns, over which the
  `setattr` loop of `update` is modelled), its listing order and its id
  sequence.
  Typed views decode the rows into `Product` and `Inventory` values, with
  proved round trips.
- **The product↔inventory lifecycle.**
  - The newer `ProductRepository` inserts a product and its inventory row
    inside a savepoint. It deletes the inventory row, then the product.
  - The older repository commits the product before creating its
    inventory row.
  - `ProductController` checks names and categories in front of the
    repository.
  - The invariant proved is that every product has exactly one inventory
    row and that no two products share a name.
- **Request validation.** `ProductCreate` and `ProductUpdate`; the admin and
  technical account schemas; and the two regular expressions behind them,
  as a small matcher with proved characterisations.
- **Uniqueness-checking controllers.** Categories, services, admins and
  technical accounts. Each check-then-write operation is a function from
  the old store to an outcome and a new store, and the controller methods
  are proved equal to these functions.
- **`Settings.construct_db_url`.** The environment is a map parameter, and
  a proved parser reads the built URL back into its components.

Amounts (`Numeric(10,2)`) are integers counting hundredths. A value of
10^10 hundredths or more in magnitude overflows the column, and the commit
is refused. Every exception the code raises is a constructor of
`Common.Error`, and an operation that can raise returns a `Result`.
A database commit is refused only for causes inside the model:
- column constraints (NOT NULL, type, numeric overflow, string length);
- duplicate keys;
- a unique index;
- a foreign key still pointing at a deleted row;
- an inventory row whose `product_id` names no product.

Where the code and the system's documented design differ, the code is
modelled:
- `record_incoming_stock` does not set a restock date;
- the pair delete is two commits;
- the create of the newer repository always fails (see Findings);
- the stock mutations are plain read-then-write sequences.

## Model

| member | source | states |
|---|---|---|
| Text.StripShape | src/controller/category_controller.py:16-18 | `strip()` removes only whitespace and keeps a contiguous slice that neither starts nor ends with whitespace |
| Text.StripIdempotent | src/controller/product_controller.py:86-91 | stripping twice is stripping once, so a stored stripped name compares equal to a re-stripped one |
| Text.BlankIffAllSpace | src/controller/category_controller.py:16 | `not name.strip()` holds exactly when every character is whitespace |
| Schema.ProductRoundTrip | src/schemas/product.py:14-22 | a typed product is accepted as a row of `products` exactly when it fits the columns, and it decodes back to itself |
| Schema.ProductRowRoundTrip | src/schemas/product.py:14-22 | every accepted product row is the encoding of its own decoding |
| Schema.InventoryRoundTrip | src/schemas/product.py:30-36 | a typed inventory row is accepted exactly when it fits the columns, and it decodes back to itself |
| Schema.InventoryRowRoundTrip | src/schemas/product.py:30-36 | every accepted inventory row is the encoding of its own decoding |
| Schema.StockOfWrite | src/schemas/product.py:30-36 | writing one encoded inventory row changes the typed table at that key only |
| Schema.StockOfRemove | src/schemas/product.py:30-36 | removing a row removes exactly that key from the typed table |
| BaseRepo.Without | src/repositories/base_repositories.py:44-50 | removing a key from the listing order keeps every other key in order, keeps keys distinct and never lengthens the order |
| BaseRepo.MatchingHolds | src/repositories/product_repositories.py:62-69 | every key a `WHERE column = v` filter keeps holds `v` in that column |
| BaseRepo.MatchingComplete | src/repositories/product_repositories.py:62-69 | every listed key whose row holds `v` in that column is kept by the filter |
| BaseRepo.Assigned | src/repositories/base_repositories.py:32-34 | the `setattr` loop keeps the attribute set, assigns every given key that is an attribute (None included) and ignores the others |
| BaseRepo.PageBounds | src/repositories/base_repositories.py:16-17 | `offset(skip).limit(limit)` keeps a slice of at most `limit` results inside the result list |
| BaseRepo.AssignAttributes | src/repositories/base_repositories.py:32-34 | the loop over `data` leaves exactly the assigned record |
| BaseRepo.BaseRepository.Get | src/repositories/base_repositories.py:13-14 | returns the row stored under the id, and None exactly when there is none |
| BaseRepo.BaseRepository.List | src/repositories/base_repositories.py:16-17 | returns the rows at positions `skip` to `skip + limit` of the listing order, at most `limit` of them |
| BaseRepo.BaseRepository.Add | src/repositories/base_repositories.py:19-27 | the row is stored and appended to the order when its key is new and the columns accept it; otherwise it is rolled back and nothing changes |
| BaseRepo.BaseRepository.Update | src/repositories/base_repositories.py:29-42 | None and no change for an absent id; otherwise the assigned row is committed, or rolled back and refused when the columns reject it |
| BaseRepo.BaseRepository.Delete | src/repositories/base_repositories.py:44-50 | False and no change when absent; True and the row gone when nothing references it; refused with no change while a foreign key still points at it |
| BaseRepo.BaseRepository.FirstWhere | src/repositories/product_repositories.py:39-41 | the first key in listing order whose row holds `v` in `column`, or None exactly when no row does |
| BaseRepo.BaseRepository.ListWhere | src/repositories/product_repositories.py:62-69 | the page `skip`/`limit` of the rows matching the filter, in listing order |
| InventoryRepo.ToDecimal | src/repositories/inventory_repositories.py:57 | exactly an amount or an integer converts, and always to an amount; any other value raises |
| InventoryRepo.Converted | src/repositories/inventory_repositories.py:54-57 | only non-None `current_stock`/`min_stock_level` values are converted; every other key keeps its value |
| InventoryRepo.Renamed | src/repositories/inventory_repositories.py:61-62 | `last_restock_date` is moved to `last_restock_data`, every other key keeps its value, and a map without it is unchanged |
| InventoryRepo.NormalizedReachesColumn | src/repositories/inventory_repositories.py:49-67 | a restock date given as `last_restock_date` reaches the `last_restock_data` column, and the row keeps exactly the table's columns |
| InventoryRepo.NonColumnKeywordIgnored | src/repositories/inventory_repositories.py:49-67 | a keyword that names neither a column nor a relationship of `Inventory` changes nothing in the updated row |
| InventoryRepo.InventoryRepository.GetByProductId | src/repositories/inventory_repositories.py:19-21 | the decoded row under the product id, or None exactly when there is none |
| InventoryRepo.InventoryRepository.CreateInventory | src/repositories/inventory_repositories.py:24-46 | flushes a row with `current_stock` as given, or 0 for None; the reorder point and the restock date are passed through; refused with no change on a duplicate key, a column overflow or a product id that names no product |
| InventoryRepo.InventoryRepository.UpdateInventoryFields | src/repositories/inventory_repositories.py:49-67 | an unconvertible numeric keyword raises with no change; an absent row gives None; otherwise the base update with the converted and renamed keywords |
| InventoryRepo.InventoryRepository.UpdateStock | src/repositories/inventory_repositories.py:70-71 | None and no change for an absent row; otherwise only `current_stock` of that row becomes the new amount, or the commit is refused with no change when it overflows |
| InventoryRepo.InventoryRepository.DeleteInventory | src/repositories/inventory_repositories.py:74-76 | False and no change when absent; refused with no change while a foreign key points at the row; otherwise True and the row gone |
| LedgerRepo.Overlay | src/repositories/inventoryrepository_repositorie.py:37-42 | each field whose argument is not None takes the argument; every other field keeps its value |
| LedgerRepo.MinLevelNeverCleared | src/repositories/inventoryrepository_repositorie.py:39-40 | a reorder point, once set, survives every update |
| LedgerRepo.OverlayIdempotent | src/repositories/inventoryrepository_repositorie.py:31-45 | applying the same update twice is applying it once, and an all-None update changes nothing |
| LedgerRepo.AssignStockFields | src/repositories/inventoryrepository_repositorie.py:37-42 | the attribute assignments on the fetched row give the encoded overlay |
| LedgerRepo.InventoryRepository.GetByProductId | src/repositories/inventoryrepository_repositorie.py:12-13 | the decoded row with that product id, or None exactly when there is none |
| LedgerRepo.InventoryRepository.Create | src/repositories/inventoryrepository_repositorie.py:16-28 | commits a row holding the given stock, reorder point and restock date, the stock 0 when None (the column default); refused with no change when the key is taken, a column overflows or the product id names no product |
| LedgerRepo.InventoryRepository.Update | src/repositories/inventoryrepository_repositorie.py:31-45 | None and no change for an absent row; otherwise the overlay is committed, or refused with no change |
| LedgerRepo.InventoryRepository.UpdateStock | src/repositories/inventoryrepository_repositorie.py:48-49 | None and no change for an absent row; otherwise only `current_stock` of that row becomes the new amount, or the commit is refused with no change when it overflows |
| LedgerRepo.InventoryRepository.Delete | src/repositories/inventoryrepository_repositorie.py:52-58 | False and no change when absent; refused with no change while a foreign key points at the row; otherwise True and the row gone |
| LedgerRepo.InventoryRepository.List | src/repositories/baserepository.py:11-12 | the first 100 rows in listing order, decoded |
| Ledger.SetStockSpec | src/controller/inventory_controller.py:12-25 | None, then a negative amount, is refused before the lookup; a missing row and an amount that overflows the column are refused; no refusal writes; on success exactly `current_stock` of that row becomes the given amount |
| Ledger.ReceiveSpec | src/controller/inventory_controller.py:27-39 | a missing or non-positive quantity and a missing row are refused with no write; otherwise the stock grows by exactly the quantity and the restock date and reorder point are untouched |
| Ledger.DeductSpec | src/controller/inventory_controller.py:41-58 | a non-positive quantity and a missing row are refused; a deduction below zero is refused with the current amount, and no partial deduction is written; otherwise the stock drops by exactly the quantity |
| Ledger.DeductAccepted | src/controller/inventory_controller.py:52-68 | a deduction past every check stores the lowered row and reports the reorder condition of that row |
| Ledger.AlertIffReorderPoint | src/controller/inventory_controller.py:61-66 | after a deduction the alert fires exactly when a reorder point is set and the new stock is at or below it |
| Ledger.DeductAllLeavesZero | src/controller/inventory_controller.py:52-53 | deducting exactly the current stock is accepted and leaves zero |
| Ledger.MutatorsKeepNonNegative | src/controller/inventory_controller.py:16-58 | from non-negative stock, set, receive and deduct all leave every stock non-negative |
| Ledger.ReceiveThenDeductRestores | src/controller/inventory_controller.py:27-58 | receiving a quantity and then deducting it gives back the original table |
| Ledger.ReceiveDeductExample | src/controller/inventory_controller.py:27-58 | from 50 units, receiving 10 and deducting 30 leaves 30 |
| Ledger.LowStockMembers | src/controller/inventory_controller.py:70-78 | an id is reported exactly when a listed row with that id has a reorder point and stock at or below it |
| Ledger.NoReorderPointNeverReported | src/controller/inventory_controller.py:76 | a listed row without a reorder point is never reported |
| Ledger.ReorderExample | src/controller/inventory_controller.py:58-66 | with a reorder point of 10 and 15 in stock, deducting 6 leaves 9, raises the alert and puts the product in the reorder report it was not in before |
| Ledger.CollectLowStock | src/controller/inventory_controller.py:74-78 | the append loop collects exactly the low-stock ids, in listing order |
| Ledger.InventoryController.SetCurrentStock | src/controller/inventory_controller.py:12-25 | the outcome and the new table are those of `SetStock` on the old table |
| Ledger.InventoryController.RecordIncomingStock | src/controller/inventory_controller.py:27-39 | the outcome and the new table are those of `Receive` on the old table |
| Ledger.InventoryController.ProcessStockDeduction | src/controller/inventory_controller.py:41-68 | the outcome, the alert and the new table are those of `Deduct` on the old table |
| Ledger.InventoryController.CheckForReorder | src/controller/inventory_controller.py:70-78 | the ids of the listed rows that need reordering, in listing order |
| Catalog.FirstUnexpected | src/repositories/product_repositories.py:107-112 | keyword binding fails exactly when some keyword names no parameter, and reports the first such keyword in call order |
| Catalog.AsWrittenKeywordsRejected | src/repositories/product_repositories.py:107-112 | the call as written is refused for `last_restock_data`, and the intended keywords all bind |
| Catalog.CreateAsWrittenNeverCreates | src/repositories/product_repositories.py:100-120 | the create as written never succeeds and leaves both tables as they were |
| Catalog.CreateSpec | src/repositories/product_repositories.py:72-120 | the intended create is refused with no write exactly when the category is missing or a row overflows; otherwise the product and its inventory row appear together under the new id; the pair invariant and the foreign key survive |
| Catalog.UpdateSpec | src/repositories/product_repositories.py:123-152 | a missing category is refused even for an absent product; an absent product gives None; a found one keeps every field whose argument is None and stores the stripped name; inventory is untouched |
| Catalog.DeleteSpec | src/repositories/product_repositories.py:155-159 | the intended delete keeps the pair: True exactly when the product existed and could go, with its inventory row; False exactly when absent; otherwise no change |
| Catalog.DeleteTwice | src/repositories/product_repositories.py:155-159 | deleting the same product twice answers True, then False |
| Catalog.DeleteAsWrittenBreaksPair | src/repositories/product_repositories.py:155-159 | the two-commit delete agrees with the intended one except when the product's own delete is refused, which leaves a product without an inventory row |
| Catalog.DeleteAsWrittenExample | src/repositories/product_repositories.py:155-159 | a product still used by a service, deleted as written, loses its inventory row and stays, while the intended delete refuses and changes nothing |
| Catalog.LegacyCreateLeavesOrphan | src/repositories/productrepository_repositorie.py:51-55 | when the inventory commit of the older create is refused, the product stays committed without an inventory row |
| Catalog.LegacyCreateExample | src/repositories/productrepository_repositorie.py:37-57 | an opening stock of 10^8 units leaves the older create with a product and no inventory row, while the intended create writes nothing |
| Catalog.UpdateCheckOrder | src/repositories/productrepository_repositorie.py:64-72 | for an absent product and a missing category, the older update answers None while the newer one refuses |
| Catalog.ControllerCreateSpec | src/controller/product_controller.py:21-50 | a taken name is refused first, with no write; an accepted product keeps its name; names stay unique and the pair intact |
| Catalog.ControllerCreateAsWrittenNeverCreates | src/controller/product_controller.py:21-50 | the controller's create over the repository's create as written never succeeds: a refused check gives its refusal, and a product that passes every check and fits gives the TypeError; the tables never change |
| Catalog.ControllerUpdateSpec | src/controller/product_controller.py:66-105 | an absent product gives None with no checks and no write; names stay unique and the pair intact; a stored new name is the stripped one and never blank |
| Catalog.ControllerUpdateKeeps | src/controller/product_controller.py:85-105 | the repository's update reached past every check is the controller's update and keeps the invariants |
| Catalog.RenameToOwnNameAllowed | src/controller/product_controller.py:90-91 | a product may be renamed to its own name, padded or not, and is left unchanged |
| ProductRepo.NameTakenRows | src/repositories/product_repositories.py:39-41 | a name is taken in the typed table exactly when a stored row holds it in column `name` |
| ProductRepo.ListedRows | src/repositories/product_repositories.py:62-69 | the rows `list_by_category` reads decode to the page of that category's products |
| ProductRepo.BuildUpdateData | src/repositories/product_repositories.py:141-149 | the update dictionary built one argument at a time has an entry exactly for each argument that is not None, with the name stripped |
| ProductRepo.UpdateDataAssigned | src/repositories/product_repositories.py:141-152 | assigning the update dictionary to a stored row gives the encoding of the typed overlay |
| ProductRepo.TablesAfterCreate | src/repositories/product_repositories.py:100-120 | the savepoint steps of create, read through the typed view, are the catalogue's create |
| ProductRepo.TablesAfterDeleteAsWritten | src/repositories/product_repositories.py:155-159 | the two commits of delete, read through the typed view, are the catalogue's delete as written |
| ProductRepo.ProductRepository.GetById | src/repositories/product_repositories.py:22-24 | the typed product under the id, or None exactly when there is none |
| ProductRepo.ProductRepository.GetByName | src/repositories/product_repositories.py:39-41 | a product with exactly that name, or None exactly when no product has it |
| ProductRepo.ProductRepository.ListByCategory | src/repositories/product_repositories.py:62-69 | the page of that category's products in listing order; every item is in the category |
| ProductRepo.ProductRepository.Create | src/repositories/product_repositories.py:72-120 | the outcome and the new tables are those of the catalogue's intended create |
| ProductRepo.ProductRepository.CreateAsWritten | src/repositories/product_repositories.py:72-120 | the outcome and the new tables are those of the create with the keywords as written |
| ProductRepo.ProductRepository.Update | src/repositories/product_repositories.py:123-152 | the outcome and the new tables are those of the catalogue's update |
| ProductRepo.ProductRepository.Delete | src/repositories/product_repositories.py:155-159 | the outcome and the new tables are those of the intended one-transaction delete, and the pair invariant is kept |
| ProductRepo.ProductRepository.DeleteAsWritten | src/repositories/product_repositories.py:155-159 | the outcome and the new tables are those of the two-commit delete |
| LegacyProductRepo.TablesAfterLegacyCreate | src/repositories/productrepository_repositorie.py:37-57 | the two commits of the older create, read through the typed view, are `LegacyCreate` |
| LegacyProductRepo.AssignFields | src/repositories/productrepository_repositorie.py:75-82 | the in-place assignments leave the row with every non-None argument assigned |
| LegacyProductRepo.LegacyProductRepository.Create | src/repositories/productrepository_repositorie.py:37-57 | the outcome and the new tables are those of `LegacyCreate` |
| LegacyProductRepo.LegacyProductRepository.Update | src/repositories/productrepository_repositorie.py:59-86 | the outcome and the new tables are those of `LegacyUpdate`: lookup first, then the category, then the non-None fields |
| LegacyProductRepo.LegacyProductRepository.Delete | src/repositories/productrepository_repositorie.py:89-98 | False when absent; otherwise the inventory commit, then the product commit, as the two-commit delete |
| ProductControl.ProductController.CreateProduct | src/controller/product_controller.py:21-50 | the outcome and the new tables are those of `ControllerCreate`, and the pair and name invariants are kept |
| ProductControl.ProductController.CreateProductAsWritten | src/controller/product_controller.py:21-50 | the outcome and the new tables are those of the controller's create over the repository's create as written, which never succeeds |
| ProductControl.ProductController.CheckCreate | src/controller/product_controller.py:31-37 | the exact-name check, then the category check, give the refusal `CreateRefusal` describes |
| ProductControl.ProductController.UpdateProduct | src/controller/product_controller.py:66-105 | the outcome and the new tables are those of `ControllerUpdate`, and the invariants are kept |
| ProductControl.ProductController.CheckFields | src/controller/product_controller.py:85-95 | the blank-name, rename-clash and category checks give the refusal `UpdateRefusal` describes |
| ProductControl.ProductController.DeleteProduct | src/controller/product_controller.py:107-112 | the outcome and the new tables are those of the intended delete |
| ProductControl.ProductController.DeleteProductAsWritten | src/controller/product_controller.py:107-112 | the outcome and the new tables are those of the two-commit delete; the name invariant is kept, the pair invariant is not promised |
| ProductControl.ProductController.ListProductByCategory | src/controller/product_controller.py:60-64 | refused exactly when the category is missing; otherwise exactly the repository's page of that category's products in listing order, at most `limit` stored products |
| ProductModel.NameErrors | src/models/product_model.py:13-22 | a name passes exactly when it holds a non-whitespace character; an empty name fails `min_length`, a blank one the blank check |
| ProductModel.CostErrors | src/models/product_model.py:51-57 | the cost rule fires exactly when a non-negative cost exceeds a selling price that itself passed; a negative cost fails `ge=0` instead |
| ProductModel.CreateErrors | src/models/product_model.py:12-57 | no errors exactly when every create rule holds; the cost rule fires exactly when cost > price with both valid |
| ProductModel.ValidateCreate | src/models/product_model.py:36-57 | accepted exactly when the create rules hold; the name is kept unstripped and `initial_stock` defaults to 0 |
| ProductModel.CostEqualToPriceAccepted | src/models/product_model.py:55 | a unit cost equal to the selling price is accepted |
| ProductModel.CostRuleNeedsValidPrice | src/models/product_model.py:51-57 | with an invalid selling price the cost rule is skipped, and the only error is the price's |
| ProductModel.ValidateUpdate | src/models/product_model.py:61-86 | accepted exactly when the given fields pass; the accepted model is the payload itself |
| ProductModel.PartialUpdatesAccepted | src/models/product_model.py:61-72 | an empty update and a rename alone are accepted |
| ProductModel.UpdateCostAlone | src/models/product_model.py:80-86 | a cost given without a price is not checked against any price |
| Patterns.PhoneMatchIff | src/models/technical_model.py:22-23 | the phone pattern accepts exactly an optional `+` and 7 to 15 ASCII digits, optionally followed by one newline |
| Patterns.EmailMatchIff | src/models/admin.py:21-24 | the email pattern accepts exactly a non-empty local part of word characters, dots and dashes, `@`, a non-empty host of the same characters, a dot and a non-empty label of word characters, optionally followed by one newline |
| Patterns.EmailShape | src/models/admin.py:21 | an accepted address holds exactly one `@`, not first, and a last dot that is neither first nor last |
| Patterns.PhoneIsContact | src/models/admin.py:22-24 | every phone number passes the contact check |
| Patterns.PhoneNewlineAccepted | src/models/technical_model.py:22-23 | a phone number followed by one newline is accepted |
| Patterns.PhoneSixDigitsRefused | src/models/technical_model.py:22 | six digits are refused |
| Accounts.ParseStatus | src/models/technical_model.py:8 | a parsed status has exactly the given name |
| Accounts.StatusRoundTrip | src/models/technical_model.py:8 | each status name parses to its status, and nothing else parses to it |
| Accounts.LengthErrors | src/models/admin.py:11-13 | no error exactly when the length is within the bounds |
| Accounts.ContactIff | src/models/admin.py:17-26 | the contact check accepts exactly an email address or a phone number, optionally followed by one newline |
| Accounts.PhoneErrors | src/models/technical_model.py:19-25 | no error exactly when the value is a phone number, optionally followed by one newline |
| Accounts.ValidateAdminCreate | src/models/admin.py:6-26 | accepted exactly when the username has 4 to 50 characters, the password at least 8 and the contact has a valid form; the values are kept as given |
| Accounts.ValidateAdminUpdate | src/models/admin.py:43-47 | accepted exactly when the given username and password are within bounds; `email_phone` is not checked |
| Accounts.AdminUpdateSkipsContact | src/models/admin.py:43-47 | a contact the create refuses passes an update |
| Accounts.ValidateTechnicalCreate | src/models/technical_model.py:12-25 | accepted exactly when the username, password, name and phone rules hold; the phone is kept as given |
| Accounts.ValidateTechnicalUpdate | src/models/technical_model.py:35-51 | accepted exactly when the given fields pass; a phone is checked only when given; a status must be one of the three literals |
| Accounts.AccountBoundsAgree | src/models/technical_model.py:14-38 | the username and password bounds are the same on technical create, technical update and admin update |
| CategoryControl.Get | src/controller/category_controller.py:27-31 | the category under the id, or "not found" exactly when it is absent |
| CategoryControl.CreateSpec | src/controller/category_controller.py:14-25 | a None or blank name is refused; the duplicate check uses the stripped name; a refusal writes nothing; an accepted category is stored under the new id with the stripped name |
| CategoryControl.CreateKeepsInvariants | src/controller/category_controller.py:14-25 | creation keeps names unique, non-blank and stripped |
| CategoryControl.RenameToOwnNameAllowed | src/controller/category_controller.py:46-51 | renaming a category to its own name, padded or not, is accepted and keeps the name |
| CategoryControl.UpdateKeepsInvariants | src/controller/category_controller.py:36-62 | updates keep names unique and stripped, keep the key set, and touch no other category |
| CategoryControl.CategoryRepository.GetById | src/repositories/category_repositories.py:17-18 | the category under the id, or None exactly when there is none |
| CategoryControl.CategoryRepository.GetByName | src/repositories/category_repositories.py:21-23 | a category with exactly that name, or None exactly when none has it |
| CategoryControl.CategoryRepository.Create | src/repositories/category_repositories.py:32-34 | stores the category under the next id |
| CategoryControl.CategoryRepository.Update | src/repositories/category_repositories.py:37-44 | None and no change when absent; otherwise assigns the name and description that are not None |
| CategoryControl.CategoryRepository.Delete | src/repositories/category_repositories.py:47-49 | True exactly when the category existed; it is gone afterwards |
| CategoryControl.CategoryController.CreateCategory | src/controller/category_controller.py:14-25 | the outcome and the new store are those of `Create`, and the invariants are kept |
| CategoryControl.CategoryController.GetCategory | src/controller/category_controller.py:27-31 | the outcome of `Get` |
| CategoryControl.CategoryController.UpdateCategory | src/controller/category_controller.py:36-62 | the outcome and the new store are those of `Update`; the "failed to update" branch is unreachable |
| CategoryControl.CategoryController.DeleteCategory | src/controller/category_controller.py:64-71 | "not found" for an absent category; otherwise the store's delete |
| ServiceControl.Overlay | src/repositories/service_repositories.py:87-98 | each non-None argument overwrites its field; every other field keeps its value |
| ServiceControl.CreateSpec | src/controller/service_controller.py:14-35 | a taken name is refused with no write; otherwise the row holds exactly the given fields under the new id; the table stays consistent |
| ServiceControl.UpdateSpec | src/controller/service_controller.py:52-80 | None exactly for an absent service; the table stays consistent; no other service changes |
| ServiceControl.NoConflictElsewhere | src/controller/service_controller.py:68-70 | a rename past the check leaves a name no other service holds |
| ServiceControl.RenameToOwnNameAllowed | src/controller/service_controller.py:68-70 | renaming a service to its own name is no conflict and changes nothing |
| ServiceControl.DeleteTwice | src/controller/service_controller.py:82-86 | a deleted service is gone, and deleting it again is refused |
| ServiceControl.AssignServiceFields | src/repositories/service_repositories.py:87-98 | the in-place assignments give the overlay |
| ServiceControl.ServiceRepository.GetById | src/repositories/service_repositories.py:14-15 | the service under the id, or None exactly when there is none |
| ServiceControl.ServiceRepository.GetByName | src/repositories/service_repositories.py:25-27 | a service with exactly that name, or None exactly when none has it |
| ServiceControl.ServiceRepository.Create | src/repositories/service_repositories.py:51-71 | the row is committed under the next id, or refused with no change |
| ServiceControl.ServiceRepository.Update | src/repositories/service_repositories.py:73-102 | None and no change when absent; otherwise the overlay is committed, or refused with no change |
| ServiceControl.ServiceRepository.Delete | src/repositories/service_repositories.py:104-110 | True exactly when the service existed; it is gone afterwards |
| ServiceControl.ServiceController.CreateService | src/controller/service_controller.py:14-35 | the outcome and the new store are those of `Create` |
| ServiceControl.ServiceController.UpdateService | src/controller/service_controller.py:52-80 | the outcome and the new store are those of `Update` |
| ServiceControl.ServiceController.DeleteService | src/controller/service_controller.py:82-86 | the outcome and the new store are those of `Delete` |
| AdminControl.NewAdmin | src/repositories/admin_repositories.py:53-64 | the stored admin holds the hashed password, the given username and contact, and role "admin" |
| AdminControl.AdminOverlay | src/controller/admin_controller.py:58-62 | the fields the request sets are written, a new password hashed; the id and role are kept |
| AdminControl.NewTechnical | src/repositories/technical_repository.py:23-39 | the stored account holds the hashed password, role "technical" and status free |
| AdminControl.CreateAdminSpec | src/controller/admin_controller.py:39-50 | a taken username is refused first, then a taken contact; a refusal writes nothing; only the hashed password is stored; usernames and contacts stay unique |
| AdminControl.UpdateAdminSpec | src/controller/admin_controller.py:52-62 | 404 exactly for an absent admin; only that admin changes, only in the fields set; the password is rehashed only when supplied; the table stays consistent |
| AdminControl.CreateTechnicalChecks | src/controller/admin_controller.py:64-79 | the username is checked against both tables, then the phone against technicals, then against admin contacts, each with its 409 message; creation happens only when all three are free |
| AdminControl.CreateTechnicalKeeps | src/controller/admin_controller.py:64-79 | a refusal writes nothing; the new account is stored under its id; technical usernames and phones stay unique |
| AdminControl.UsernameCheckOneWay | src/controller/admin_controller.py:42-43 | create_admin does not look at the technical table, so an admin can take a technical account's username; a later technical create with it is refused |
| AdminControl.Assigned | src/repositories/admin_repositories.py:75-77 | each key of the update data that names an attribute is assigned; the others are ignored |
| AdminControl.AdminRepository.GetById | src/repositories/admin_repositories.py:41-43 | the admin under the id, or None exactly when there is none |
| AdminControl.AdminRepository.GetByUsername | src/repositories/admin_repositories.py:44-46 | the admin with exactly that username, or None exactly when none has it |
| AdminControl.AdminRepository.GetByEmailPhone | src/repositories/admin_repositories.py:48-51 | None exactly when no admin holds that contact; otherwise a stored admin holding it |
| AdminControl.AdminRepository.Create | src/repositories/admin_repositories.py:53-64 | commits the admin with role "admin", or is refused with no change on a key or unique-column clash |
| AdminControl.AdminRepository.Update | src/repositories/admin_repositories.py:66-82 | commits the assigned row, or is refused with no change when it clashes with another admin |
| AdminControl.TechnicalRepository.GetByUsername | src/repositories/technical_repository.py:14-16 | None exactly when no technical account has that username; otherwise a stored account with it |
| AdminControl.TechnicalRepository.GetByPhoneNumber | src/repositories/technical_repository.py:18-21 | None exactly when no technical account has that phone number; otherwise a stored account with it |
| AdminControl.TechnicalRepository.Create | src/repositories/technical_repository.py:23-39 | commits the account with the role and status defaults, or is refused with no change |
| AdminControl.AdminController.AuthenticationAdmin | src/controller/admin_controller.py:21-30 | the admin with that username when the password verifies against its hash; None for an unknown username or a wrong password |
| AdminControl.AdminController.GetAdminById | src/controller/admin_controller.py:32-37 | the admin, or 404 "Admin not found" exactly when absent |
| AdminControl.AdminController.CreateAdmin | src/controller/admin_controller.py:39-50 | the outcome and the new table are those of `CreateAdminOutcome` |
| AdminControl.AdminController.UpdateAdmin | src/controller/admin_controller.py:52-62 | the outcome and the new table are those of `UpdateAdminOutcome` |
| AdminControl.AdminController.CreateTechnicalAccount | src/controller/admin_controller.py:64-79 | the outcome and the new technical table are those of `CreateTechnicalOutcome` |
| Config.Or | src/config/settings.py:45-50 | `a or b`: `a` unless it is empty |
| Config.OrOpt | src/config/settings.py:45-46 | `a or b` on an optional string: `b` for None and for "" |
| Config.GetenvOr | src/config/settings.py:47-50 | the environment's value when the key is set, the default otherwise |
| Config.IntRoundTrip | src/config/settings.py:48 | `int(str(n)) == n` for every integer |
| Config.Auth | src/config/settings.py:53-56 | `user:password@` when there is a password, `user@` otherwise |
| Config.User | src/config/settings.py:45 | the user is never empty: it falls back to the environment, then to "postgres" |
| Config.Port | src/config/settings.py:48 | a non-zero field wins; otherwise 5432 when the environment has no port; the only error names the environment's `DB_PORT` value |
| Config.FieldDefaultsWin | src/config/settings.py:22-26 | with the field defaults, only the user and the password come from the environment |
| Config.AllDefaults | src/config/settings.py:45-58 | with empty fields and an empty environment every component takes its last default |
| Config.UrlRoundTrip | src/config/settings.py:58 | parsing a built URL gives back the driver, user, password, host, port and database name |
| Config.Settings.constructor | src/config/settings.py:18-26 | the settings hold exactly the given field values |
| Config.Settings.ConstructDbUrl | src/config/settings.py:33-59 | a non-empty DATABASE_URL is kept; otherwise the built URL is stored, or the port error is returned with no change |

## Left out

- `get_product`, `list_product` and `get_service`/`list_*` are lookups with no checks. The repository lookups they call are modelled.
- `list_category`, `get_service_with_associations`, `list_services_with_associations` and `list_available_services` are not modelled. They are plain paginated queries with no logic beyond `BaseRepository.List`.
- InventoryRepo.ToDecimal: `Decimal(str(v))` also converts text that holds a decimal literal (e.g. "12.5"); the model refuses every text value, because amounts are hundredths and text parsing is not modelled.
- BaseRepo.Assigned: `hasattr` also holds for relationships (`category`, `inventory`, `service_associations`, `product`; src/schemas/product.py:24-28, 39) and other class attributes such as `metadata`, and `setattr` on those changes the object graph or raises. The attribute maps hold columns only, and the model ignores such keys.
- ProductControl.ProductController.CreateProduct: composes the controller's checks with the corrected repository create; the controller over the create as written is `CreateProductAsWritten`, which never succeeds.
- Catalog.ControllerCreateSpec: states the controller over the corrected create; the as-written composition is `Catalog.ControllerCreateAsWritten`, characterised by `Catalog.ControllerCreateAsWrittenNeverCreates`.
- ProductControl.ProductController.DeleteProduct: composes with the corrected one-transaction delete; the controller over the two-commit delete as written is `DeleteProductAsWritten`.
- Decimal and float conversion (`Decimal(str(v))`, `to_dec`): quantities and prices are exact hundredths. A float's rounding is not modelled. An integer argument becomes the same amount.
- Pydantic type coercion is not modelled. Inputs arrive already typed, and an absent key is None. An explicit JSON null is not distinguished from an absent key, both for a required field and for a field with a default: `ProductCreate.initial_stock` takes 0 in the model, whereas Pydantic refuses a null there.
- `AdminUpdate` with an explicit null `email_phone`: the model treats it as not set, whereas `exclude_unset` would clear the contact.
- Concurrency: the read-then-write of the stock mutations runs as sequential calls; isolation levels are not modelled.
- The reorder alert's `print` is returned as the boolean `Deduction.alert`.
- Password hashing and verification are the function parameters `hash` and `verify` of `AdminController`; bcrypt itself is not modelled.
- Admin ids come from the ORM's client-side default `uuid.uuid4` (src/models/admin_model.py:12), and technical ids likewise. Randomness is outside the model, so the new id is a parameter.
- SQL queries are functions over maps. Listing order is insertion order; an ORDER BY is not modelled.
- `\w` is ASCII word characters only. Python's `str` patterns also accept Unicode letters and digits, which the model leaves out.
- `int()` of a port also accepts Unicode digits and `_` separators; the model accepts ASCII digits only.
- The technical table's own schema (column lengths, unique constraints) is not part of this model. Only the uniqueness the controller checks is kept as an invariant.
- Deleting a category makes the ORM set `category_id` to NULL on its products, because the relationship has no cascade (src/schemas/product.py:12). The model's `delete_category` works on the category store alone and leaves those ids as they were, so a product's `category_id` may name a deleted category; the category check of `Catalog.CreateSpec` and `Catalog.ControllerUpdateSpec` holds only when the write is made.
- The set of products still used by a service (`referenced`) is a fixed snapshot of the `service_products` rows, which lie outside the model. Deleting a service removes its associations by cascade (src/schemas/product.py:53-57); the model does not capture this, so a referenced product never becomes deletable later.
- `DB_DRIVER`'s class-level default is read from the environment when the class is defined. The model takes the field value as given.
- Loading `Settings` fields from the environment, which `BaseSettings` does, is not modelled; the fields are constructor arguments.
- Config.AllDefaults: states the default URL through its components, `DbUrl("psycopg2", "postgres", "", "localhost", 5432, "fixing_service_db")`, rather than as one literal string.
- The HTTP layer, JWT handling, database plumbing and the tests are outside this model.

## Findings

| source | as written | input that shows it | evidently intended | confidence | as-written member | corrected member |
|---|---|---|---|---|---|---|
| src/repositories/product_repositories.py:111 | `create` passes `last_restock_data=` to `create_inventory`, whose parameter is `last_restock_date`, so the call raises TypeError and the savepoint rolls the product back | any create that passes the category check and whose product row fits, e.g. name "Oil Filter", price 12.50, no category id | the product and its inventory row are created together | high (not executed) | ProductRepo.ProductRepository.CreateAsWritten, Catalog.CreateAsWrittenNeverCreates, ProductControl.ProductController.CreateProductAsWritten, Catalog.ControllerCreateAsWrittenNeverCreates | ProductRepo.ProductRepository.Create, Catalog.CreateSpec, ProductControl.ProductController.CreateProduct, Catalog.ControllerCreateSpec |
| src/repositories/product_repositories.py:155-159 | `delete` commits the removal of the inventory row, then deletes the product in a second commit; when the second commit is refused the product stays without inventory | a product used by a service (`service_products` row), e.g. product 5 with 50 units | the pair is deleted in one transaction, or not at all | high (not executed) | Catalog.DeleteAsWritten, Catalog.DeleteAsWrittenBreaksPair, ProductControl.ProductController.DeleteProductAsWritten | ProductRepo.ProductRepository.Delete, Catalog.DeleteSpec, ProductControl.ProductController.DeleteProduct |
| src/repositories/productrepository_repositorie.py:51-55 | the older `create` commits the product before creating its inventory row in a separate commit; a refused inventory commit leaves the product without inventory | an opening stock of 10^8 units, which overflows Numeric(10,2) | the product and its inventory row are created atomically | medium (not executed) | LegacyProductRepo.LegacyProductRepository.Create, Catalog.LegacyCreateLeavesOrphan | ProductRepo.ProductRepository.Create, Catalog.CreateSpec |
