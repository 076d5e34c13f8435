/** Categories: the store behind src/repositories/category_repositories.py,
    taken as a map from id to row, and the checks of
    src/controller/category_controller.py (CategoryController) in front of
    it. The functions Create, Update and Delete say what each controller
    operation does to the stored categories; the controller's methods are
    proved against them. */
module CategoryControl {
  import opened Common
  import opened Text

  /** A row of table `categories`. */
  datatype Category = Category(categoryId: int, name: string, description: Option<string>)

  type Categories = map<int, Category>

  /** get_by_name(name) finds a row. */
  predicate NameTaken(cats: Categories, name: string) {
    exists id :: id in cats && cats[id].name == name
  }

  /** No two categories share a name: the invariant the controller keeps. */
  predicate UniqueNames(cats: Categories) {
    forall a, b :: a in cats && b in cats && cats[a].name == cats[b].name ==> a == b
  }

  /** Every stored name is non-blank and already stripped. */
  predicate StrippedNames(cats: Categories) {
    forall id :: id in cats ==> !IsBlank(cats[id].name) && Strip(cats[id].name) == cats[id].name
  }

  /** create_category with the id the table's sequence hands out next. */
  function Create(cats: Categories, nextId: int, name: Option<string>, description: Option<string>)
    : (s: (Result<Category>, Categories))
  {
    if name.None? || IsBlank(name.value) then (Err(CategoryNameRequired), cats)
    else
      var stripped := Strip(name.value);
      if NameTaken(cats, stripped) then (Err(CategoryNameTaken(stripped)), cats)
      else
        var c := Category(nextId, stripped, description);
        (Ok(c), cats[nextId := c])
  }

  /** get_category. */
  function Get(cats: Categories, id: int): (r: Result<Category>)
    ensures r.Ok? <==> id in cats
    ensures r.Ok? ==> r.value == cats[id]
    ensures r.Err? ==> r.error == CategoryNotFound(id)
  {
    if id in cats then Ok(cats[id]) else Err(CategoryNotFound(id))
  }

  /** update_category: the name, when given, is stripped; a description
      that is None leaves the stored one. */
  function Update(cats: Categories, id: int, name: Option<string>, description: Option<string>)
    : (s: (Result<Category>, Categories))
  {
    if id !in cats then (Err(CategoryNotFound(id)), cats)
    else if name.Some? && IsBlank(name.value) then (Err(CategoryNameBlank), cats)
    else if name.Some? && Strip(name.value) != cats[id].name && NameTaken(cats, Strip(name.value))
    then (Err(CategoryNameTaken(Strip(name.value))), cats)
    else
      var c := cats[id].(name := if name.Some? then Strip(name.value) else cats[id].name,
                         description := if description.Some? then description else cats[id].description);
      (Ok(c), cats[id := c])
  }

  /** delete_category. */
  function Delete(cats: Categories, id: int): (s: (Result<bool>, Categories))
  {
    if id !in cats then (Err(CategoryNotFound(id)), cats) else (Ok(true), cats - {id})
  }

  /** create_category: the name must be present and not blank, and no
      category may already hold its stripped form; a refusal writes
      nothing, and an accepted category is stored under the fresh id with
      the stripped name. */
  lemma CreateSpec(cats: Categories, nextId: int, name: Option<string>, description: Option<string>)
    requires nextId !in cats
    ensures var (r, cats') := Create(cats, nextId, name, description);
      && (r == Err(CategoryNameRequired) <==> name.None? || AllSpace(name.value))
      && (r.Err? ==> cats' == cats)
      && (r.Ok? ==> r.value.name == Strip(name.value) && cats' == cats[nextId := r.value]
                    && r.value.categoryId == nextId && r.value.description == description)
      && (r.Ok? <==> name.Some? && !AllSpace(name.value) && !NameTaken(cats, Strip(name.value)))
  {
    if name.Some? {
      BlankIffAllSpace(name.value);
    }
  }

  /** Creation keeps names unique and stored names stripped. */
  lemma CreateKeepsInvariants(cats: Categories, nextId: int, name: Option<string>, description: Option<string>)
    requires nextId !in cats && UniqueNames(cats) && StrippedNames(cats)
    ensures UniqueNames(Create(cats, nextId, name, description).1)
    ensures StrippedNames(Create(cats, nextId, name, description).1)
  {
    var (r, cats') := Create(cats, nextId, name, description);
    if r.Ok? {
      StripIdempotent(name.value);
    }
  }

  /** update_category: a rename conflicts only with ANOTHER category; a
      category may be renamed to its own name, padded with whitespace or
      not. */
  lemma RenameToOwnNameAllowed(cats: Categories, id: int, padded: string, description: Option<string>)
    requires id in cats && StrippedNames(cats)
    requires Strip(padded) == cats[id].name
    ensures Update(cats, id, Some(padded), description).0.Ok?
    ensures Update(cats, id, Some(padded), description).1[id].name == cats[id].name
  {
    assert !IsBlank(padded);
  }

  /** Updates keep names unique and stored names stripped, and touch at
      most the one category. */
  lemma UpdateKeepsInvariants(cats: Categories, id: int, name: Option<string>, description: Option<string>)
    requires UniqueNames(cats) && StrippedNames(cats)
    ensures UniqueNames(Update(cats, id, name, description).1)
    ensures StrippedNames(Update(cats, id, name, description).1)
    ensures Update(cats, id, name, description).1.Keys == cats.Keys
    ensures forall k :: k in cats && k != id ==> Update(cats, id, name, description).1[k] == cats[k]
  {
    var (r, cats') := Update(cats, id, name, description);
    if r.Ok? {
      if name.Some? {
        StripIdempotent(name.value);
      }
      RewriteKeepsInvariants(cats, id, r.value);
    }
  }

  /** Overwriting one category with a row whose name is stripped, not
      blank, and either its old name or one no category holds. */
  lemma RewriteKeepsInvariants(cats: Categories, id: int, c: Category)
    requires UniqueNames(cats) && StrippedNames(cats) && id in cats
    requires !IsBlank(c.name) && Strip(c.name) == c.name
    requires c.name == cats[id].name || !NameTaken(cats, c.name)
    ensures UniqueNames(cats[id := c]) && StrippedNames(cats[id := c])
  {
  }

  /** The store behind category_repositories.py. */
  class CategoryRepository {
    var categories: Categories
    var nextId: int

    ghost predicate Valid()
      reads this
    {
      forall id :: id in categories ==> categories[id].categoryId == id && id < nextId
    }

    constructor ()
      ensures Valid() && categories == map[]
    {
      categories, nextId := map[], 1;
    }

    /** get_by_id. */
    method GetById(id: int) returns (r: Option<Category>)
      ensures r.Some? <==> id in categories
      ensures r.Some? ==> r.value == categories[id]
    {
      if id in categories {
        r := Some(categories[id]);
      } else {
        r := None;
      }
    }

    /** get_by_name: a row with that exact name, if any. */
    method GetByName(name: string) returns (r: Option<Category>)
      requires Valid()
      ensures r.Some? <==> NameTaken(categories, name)
      ensures r.Some? ==> r.value.categoryId in categories && categories[r.value.categoryId] == r.value
                          && r.value.name == name
    {
      if id :| id in categories && categories[id].name == name {
        r := Some(categories[id]);
      } else {
        r := None;
      }
    }

    /** create: a new row under the next id, committed. */
    method Create(name: string, description: Option<string>) returns (c: Category)
      requires Valid()
      modifies this
      ensures Valid()
      ensures c == Category(old(nextId), name, description)
      ensures categories == old(categories)[c.categoryId := c] && old(nextId) !in old(categories)
    {
      c := Category(nextId, name, description);
      categories := categories[nextId := c];
      nextId := nextId + 1;
    }

    /** update: name and description that are not None are assigned;
        None for an absent row. */
    method Update(id: int, name: Option<string>, description: Option<string>) returns (r: Option<Category>)
      requires Valid()
      modifies this`categories
      ensures Valid()
      ensures id !in old(categories) ==> r.None? && categories == old(categories)
      ensures id in old(categories) ==>
        var c := old(categories)[id].(name := if name.Some? then name.value else old(categories)[id].name,
                                      description := if description.Some? then description
                                                     else old(categories)[id].description);
        r == Some(c) && categories == old(categories)[id := c]
    {
      if id !in categories {
        return None;
      }
      var c := categories[id];
      if name.Some? {
        c := c.(name := name.value);
      }
      if description.Some? {
        c := c.(description := description);
      }
      categories := categories[id := c];
      r := Some(c);
    }

    /** delete: True and the row gone when present, False otherwise. */
    method Delete(id: int) returns (deleted: bool)
      requires Valid()
      modifies this`categories
      ensures Valid()
      ensures deleted <==> id in old(categories)
      ensures categories == old(categories) - {id}
    {
      deleted := id in categories;
      categories := categories - {id};
    }
  }

  class CategoryController {
    const repo: CategoryRepository

    ghost predicate Valid()
      reads this, repo
    {
      repo.Valid() && UniqueNames(repo.categories) && StrippedNames(repo.categories)
    }

    constructor (repo: CategoryRepository)
      requires repo.Valid() && UniqueNames(repo.categories) && StrippedNames(repo.categories)
      ensures this.repo == repo && Valid()
    {
      this.repo := repo;
    }

    /** create_category. */
    method CreateCategory(name: Option<string>, description: Option<string>) returns (r: Result<Category>)
      requires Valid()
      modifies repo
      ensures Valid()
      ensures (r, repo.categories) == Create(old(repo.categories), old(repo.nextId), name, description)
    {
      if name.None? || name.value == [] || IsBlank(name.value) {
        return Err(CategoryNameRequired);
      }
      var stripped := Strip(name.value);
      var existing := repo.GetByName(stripped);
      if existing.Some? {
        return Err(CategoryNameTaken(stripped));
      }
      CreateKeepsInvariants(repo.categories, repo.nextId, name, description);
      var c := repo.Create(stripped, description);
      r := Ok(c);
    }

    /** get_category. */
    method GetCategory(id: int) returns (r: Result<Category>)
      requires Valid()
      ensures r == Get(repo.categories, id)
    {
      var c := repo.GetById(id);
      if c.None? {
        return Err(CategoryNotFound(id));
      }
      r := Ok(c.value);
    }

    /** update_category; the "failed to update" branch is unreachable, the
        existence of the row having been checked first. */
    method UpdateCategory(id: int, name: Option<string>, description: Option<string>) returns (r: Result<Category>)
      requires Valid()
      modifies repo`categories
      ensures Valid()
      ensures (r, repo.categories) == Update(old(repo.categories), id, name, description)
    {
      var category := GetCategory(id);
      if category.Err? {
        return Err(category.error);
      }
      var newName := name;
      if name.Some? {
        var stripped := Strip(name.value);
        if stripped == [] {
          return Err(CategoryNameBlank);
        }
        if stripped != category.value.name {
          var existing := repo.GetByName(stripped);
          if existing.Some? {
            return Err(CategoryNameTaken(stripped));
          }
        }
        newName := Some(stripped);
      }
      UpdateKeepsInvariants(repo.categories, id, name, description);
      var updated := repo.Update(id, newName, description);
      if updated.None? {
        assert false;
        return Err(CategoryUpdateFailed(id));
      }
      r := Ok(updated.value);
    }

    /** delete_category. */
    method DeleteCategory(id: int) returns (r: Result<bool>)
      requires Valid()
      modifies repo`categories
      ensures Valid()
      ensures (r, repo.categories) == Delete(old(repo.categories), id)
    {
      var category := repo.GetById(id);
      if category.None? {
        return Err(CategoryNotFound(id));
      }
      var deleted := repo.Delete(id);
      r := Ok(deleted);
    }
  }
}
