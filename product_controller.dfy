/** The product controller of src/controller/product_controller.py: name
    and category checks in front of the product repository. Its methods are
    proved against Catalog.ControllerCreate, Catalog.ControllerUpdate and
    Catalog.Delete, and keep two invariants of the tables: every product has
    exactly one inventory row, and no two products share a name. */
module ProductControl {
  import opened Common
  import opened Text
  import opened Schema
  import BaseRepo
  import ProductRepo
  import Catalog

  class ProductController {
    const repo: ProductRepo.ProductRepository

    /** The repository's tables, paired and with unique product names. */
    ghost predicate Valid()
      reads this, repo, repo.products, repo.inventory, repo.inventory.table, repo.categories
    {
      && repo.Valid()
      && Catalog.Paired(repo.Tables())
      && Catalog.UniqueNames(repo.Tables().products)
    }

    constructor (repo: ProductRepo.ProductRepository)
      requires repo.Valid() && Catalog.Paired(repo.Tables()) && Catalog.UniqueNames(repo.Tables().products)
      ensures this.repo == repo && Valid()
    {
      this.repo := repo;
    }

    /** create_product: a product with exactly this name refuses the
        creation, then a missing category does, then the repository's
        create. */
    method CreateProduct(name: string, sellingPrice: int, unitCost: Option<int>, categoryId: Option<int>,
                         initialStock: Option<int>, minStockLevel: Option<int>, lastRestockDate: Option<int>)
      returns (r: Result<Product>)
      requires Valid()
      modifies repo.products, repo.inventory.table
      ensures Valid()
      ensures (r, repo.Tables()) == Catalog.ControllerCreate(old(repo.Tables()), old(repo.CategoryIds()),
        old(repo.products.nextId),
        Catalog.NewProduct(name, sellingPrice, unitCost, categoryId, initialStock, minStockLevel, lastRestockDate))
    {
      ghost var before := repo.Tables();
      var refusal := CheckCreate(name, categoryId, before);
      assert Valid() && repo.Tables() == before;
      if refusal.Some? {
        return Err(refusal.value);
      }
      r := ApplyCreate(name, sellingPrice, unitCost, categoryId, initialStock, minStockLevel, lastRestockDate);
    }

    /** The checks of create_product: the exact name, then the category. */
    method CheckCreate(name: string, categoryId: Option<int>, ghost tables: Catalog.Tables)
      returns (refusal: Option<Error>)
      requires repo.Valid() && tables == repo.Tables()
      ensures forall n: Catalog.NewProduct | n.name == name && n.categoryId == categoryId ::
        refusal == Catalog.CreateRefusal(tables, repo.CategoryIds(), n)
    {
      var existing := repo.GetByName(name);
      if existing.Some? {
        return Some(ProductNameTaken(name));
      }
      if categoryId.Some? {
        var category := repo.categories.GetById(categoryId.value);
        if category.None? {
          return Some(CategoryMissing(categoryId.value));
        }
      }
      refusal := None;
    }

    /** The repository's create once both checks of create_product have
        passed. */
    method ApplyCreate(name: string, sellingPrice: int, unitCost: Option<int>, categoryId: Option<int>,
                       initialStock: Option<int>, minStockLevel: Option<int>, lastRestockDate: Option<int>)
      returns (r: Result<Product>)
      requires Valid()
      requires Catalog.CreateRefusal(repo.Tables(), repo.CategoryIds(),
        Catalog.NewProduct(name, sellingPrice, unitCost, categoryId, initialStock, minStockLevel, lastRestockDate)).None?
      modifies repo.products, repo.inventory.table
      ensures Valid()
      ensures (r, repo.Tables()) == Catalog.ControllerCreate(old(repo.Tables()), old(repo.CategoryIds()),
        old(repo.products.nextId),
        Catalog.NewProduct(name, sellingPrice, unitCost, categoryId, initialStock, minStockLevel, lastRestockDate))
    {
      ghost var before := repo.Tables();
      ghost var id := repo.products.nextId;
      ghost var n := Catalog.NewProduct(name, sellingPrice, unitCost, categoryId, initialStock, minStockLevel,
                                        lastRestockDate);
      repo.TablesTyped();
      assert id !in before.products;
      Catalog.ControllerCreateSpec(before, repo.CategoryIds(), id, n);
      r := repo.Create(name, sellingPrice, unitCost, categoryId, initialStock, minStockLevel, lastRestockDate);
    }

    /** create_product as written: the same checks, then the repository's
        create as written, which never creates a product. */
    method CreateProductAsWritten(name: string, sellingPrice: int, unitCost: Option<int>, categoryId: Option<int>,
                                  initialStock: Option<int>, minStockLevel: Option<int>,
                                  lastRestockDate: Option<int>)
      returns (r: Result<Product>)
      requires Valid()
      modifies repo.products, repo.inventory.table
      ensures Valid()
      ensures (r, repo.Tables()) == Catalog.ControllerCreateAsWritten(old(repo.Tables()), old(repo.CategoryIds()),
        old(repo.products.nextId),
        Catalog.NewProduct(name, sellingPrice, unitCost, categoryId, initialStock, minStockLevel, lastRestockDate))
    {
      ghost var before := repo.Tables();
      var refusal := CheckCreate(name, categoryId, before);
      assert Valid() && repo.Tables() == before;
      if refusal.Some? {
        return Err(refusal.value);
      }
      r := ApplyCreateAsWritten(name, sellingPrice, unitCost, categoryId, initialStock, minStockLevel,
                                lastRestockDate);
    }

    /** The repository's create as written once both checks of
        create_product have passed: it refuses, and the tables stay as
        they were. */
    method ApplyCreateAsWritten(name: string, sellingPrice: int, unitCost: Option<int>, categoryId: Option<int>,
                                initialStock: Option<int>, minStockLevel: Option<int>,
                                lastRestockDate: Option<int>)
      returns (r: Result<Product>)
      requires Valid()
      requires Catalog.CreateRefusal(repo.Tables(), repo.CategoryIds(),
        Catalog.NewProduct(name, sellingPrice, unitCost, categoryId, initialStock, minStockLevel, lastRestockDate)).None?
      modifies repo.products, repo.inventory.table
      ensures Valid()
      ensures (r, repo.Tables()) == Catalog.ControllerCreateAsWritten(old(repo.Tables()), old(repo.CategoryIds()),
        old(repo.products.nextId),
        Catalog.NewProduct(name, sellingPrice, unitCost, categoryId, initialStock, minStockLevel, lastRestockDate))
    {
      ghost var before := repo.Tables();
      ghost var id := repo.products.nextId;
      ghost var n := Catalog.NewProduct(name, sellingPrice, unitCost, categoryId, initialStock, minStockLevel,
                                        lastRestockDate);
      repo.TablesTyped();
      assert id !in before.products;
      Catalog.ControllerCreateAsWrittenNeverCreates(before, repo.CategoryIds(), id, n);
      r := repo.CreateAsWritten(name, sellingPrice, unitCost, categoryId, initialStock, minStockLevel,
                                lastRestockDate);
    }

    /** update_product: None for a missing product before any check; a
        given name, stripped, must not be blank and may clash only with
        another product; then the category; then the repository's update
        with the stripped name. */
    method UpdateProduct(productId: int, name: Option<string>, sellingPrice: Option<int>, unitCost: Option<int>,
                         categoryId: Option<int>) returns (r: Result<Option<Product>>)
      requires Valid()
      modifies repo.products`rows
      ensures Valid()
      ensures (r, repo.Tables()) == Catalog.ControllerUpdate(old(repo.Tables()), old(repo.CategoryIds()), productId,
                                                             name, sellingPrice, unitCost, categoryId)
    {
      ghost var before := repo.Tables();
      var found, refusal, stripped := CheckUpdate(productId, name, categoryId, before);
      assert Valid() && repo.Tables() == before;
      if !found {
        r := Ok(None);
      } else if refusal.Some? {
        r := Err(refusal.value);
      } else {
        r := ApplyUpdate(productId, name, stripped, sellingPrice, unitCost, categoryId);
      }
    }

    /** The repository's update once every check of update_product has
        passed, with the stripped name. */
    method ApplyUpdate(productId: int, name: Option<string>, stripped: Option<string>, sellingPrice: Option<int>,
                       unitCost: Option<int>, categoryId: Option<int>) returns (r: Result<Option<Product>>)
      requires Valid() && productId in repo.Tables().products && stripped == Catalog.StrippedName(name)
      requires Catalog.UpdateRefusal(repo.Tables(), repo.CategoryIds(), productId, name, categoryId).None?
      modifies repo.products`rows
      ensures Valid()
      ensures (r, repo.Tables()) == Catalog.ControllerUpdate(old(repo.Tables()), old(repo.CategoryIds()), productId,
                                                             name, sellingPrice, unitCost, categoryId)
    {
      ghost var before, categories := repo.Tables(), repo.CategoryIds();
      repo.TablesTyped();
      r := repo.Update(productId, stripped, sellingPrice, unitCost, categoryId);
      Catalog.ControllerUpdateKeeps(before, repo.Tables(), r, categories, productId, name, sellingPrice,
                                    unitCost, categoryId);
    }

    /** The checks of update_product: the lookup of the product, then the
        checks of its new fields. */
    method CheckUpdate(productId: int, name: Option<string>, categoryId: Option<int>, ghost tables: Catalog.Tables)
      returns (found: bool, refusal: Option<Error>, stripped: Option<string>)
      requires repo.Valid() && tables == repo.Tables()
      ensures found <==> productId in tables.products
      ensures found ==> refusal == Catalog.UpdateRefusal(tables, repo.CategoryIds(), productId, name, categoryId)
      ensures stripped == Catalog.StrippedName(name)
    {
      var product := repo.GetById(productId);
      found := product.Some?;
      if product.None? {
        return found, None, Catalog.StrippedName(name);
      }
      refusal, stripped := CheckFields(productId, product.value.name, name, categoryId, tables);
    }

    /** The checks of update_product on a product that exists: the name,
        when given, stripped and tested for blankness and for a clash with
        another product; then the category. */
    method CheckFields(productId: int, current: string, name: Option<string>, categoryId: Option<int>,
                       ghost tables: Catalog.Tables) returns (refusal: Option<Error>, stripped: Option<string>)
      requires repo.Valid() && tables == repo.Tables()
      requires productId in tables.products && current == tables.products[productId].name
      ensures refusal == Catalog.UpdateRefusal(tables, repo.CategoryIds(), productId, name, categoryId)
      ensures stripped == Catalog.StrippedName(name)
    {
      stripped := Catalog.StrippedName(name);
      if name.Some? {
        var s := Strip(name.value);
        if s == [] {
          return Some(ProductNameBlank), stripped;
        }
        if s != current {
          var existing := repo.GetByName(s);
          if existing.Some? {
            return Some(ProductNameTaken(s)), stripped;
          }
        }
      }
      if categoryId.Some? {
        var category := repo.categories.GetById(categoryId.value);
        if category.None? {
          return Some(CategoryMissing(categoryId.value)), stripped;
        }
      }
      refusal := None;
    }

    /** delete_product: the repository's delete. */
    method DeleteProduct(productId: int) returns (r: Result<bool>)
      requires Valid()
      modifies repo.products`rows, repo.products`order, repo.inventory.table`rows, repo.inventory.table`order
      ensures Valid()
      ensures (r, repo.Tables()) == Catalog.Delete(old(repo.Tables()), repo.products.referenced, productId)
    {
      ghost var before := repo.Tables();
      Catalog.DeleteSpec(before, repo.products.referenced, productId);
      r := repo.Delete(productId);
    }

    /** delete_product as written: the repository's two-commit delete, which
        leaves a product still used by a service without its inventory row,
        so the pair invariant is not kept. */
    method DeleteProductAsWritten(productId: int) returns (r: Result<bool>)
      requires Valid()
      modifies repo.products`rows, repo.products`order, repo.inventory.table`rows, repo.inventory.table`order
      ensures repo.Valid() && Catalog.UniqueNames(repo.Tables().products)
      ensures (r, repo.Tables()) == Catalog.DeleteAsWritten(old(repo.Tables()), repo.products.referenced, productId)
    {
      ghost var before := repo.Tables();
      r := repo.DeleteAsWritten(productId);
      assert repo.Tables().products.Keys <= before.products.Keys;
      assert forall k :: k in repo.Tables().products ==> repo.Tables().products[k] == before.products[k];
    }

    /** list_product_by_category: a missing category is refused; otherwise
        the repository's page of that category's products. */
    method ListProductByCategory(categoryId: int, skip: nat, limit: nat) returns (r: Result<seq<Product>>)
      requires Valid()
      ensures r.Err? <==> categoryId !in repo.CategoryIds()
      ensures r.Err? ==> r.error == CategoryMissing(categoryId)
      ensures r.Ok? ==> r.value == BaseRepo.Page(BaseRepo.Matching(repo.products.order, repo.products.rows,
                                                                  "category_id", VInt(categoryId)),
                                                repo.Tables().products, skip, limit)
      ensures r.Ok? ==> |r.value| <= limit
      ensures r.Ok? ==> forall k :: 0 <= k < |r.value| ==>
        r.value[k].categoryId == Some(categoryId)
        && r.value[k].productId in repo.Tables().products
        && repo.Tables().products[r.value[k].productId] == r.value[k]
    {
      var category := repo.categories.GetById(categoryId);
      if category.None? {
        return Err(CategoryMissing(categoryId));
      }
      var items := repo.ListByCategory(categoryId, skip, limit);
      r := Ok(items);
    }
  }
}
