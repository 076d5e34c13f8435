/** The generic repository of src/repositories/base_repositories.py. An
    instance stands for one table as the shared session sees it: the rows by
    primary key, the order a query without ORDER BY lists them in, the
    table's id sequence, and the keys that rows of tables outside this model
    still reference through a foreign key (service_products.product_id). */
module BaseRepo {
  import opened Common
  import opened Schema

  predicate Distinct(s: seq<int>) {
    forall i, j :: 0 <= i < j < |s| ==> s[i] != s[j]
  }

  /** `s` with every occurrence of `x` taken out, the rest in order. */
  function Without(s: seq<int>, x: int): (r: seq<int>)
    ensures forall y :: y in r <==> y in s && y != x
    ensures Distinct(s) ==> Distinct(r)
    ensures |r| <= |s|
  {
    if s == [] then []
    else
      var rest := Without(s[1..], x);
      if s[0] == x then rest
      else
        assert Distinct(s) ==> Distinct(s[1..]) && s[0] !in s[1..];
        [s[0]] + rest
  }

  /** The keys among `s` whose row holds `v` in attribute `column`, in order. */
  function Matching(s: seq<int>, rows: map<int, Record>, column: string, v: Value): (r: seq<int>)
    ensures forall y :: y in r ==> y in s
    ensures forall i :: 0 <= i < |r| ==> r[i] in rows
    ensures |r| <= |s|
  {
    if s == [] then []
    else
      var last := s[|s| - 1];
      var hit := last in rows && column in rows[last] && rows[last][column] == v;
      Matching(s[..|s| - 1], rows, column, v) + (if hit then [last] else [])
  }

  /** Every key Matching keeps holds `v` in `column`. */
  lemma {:induction false} MatchingHolds(s: seq<int>, rows: map<int, Record>, column: string, v: Value, i: int)
    requires 0 <= i < |Matching(s, rows, column, v)|
    ensures var m := Matching(s, rows, column, v);
      m[i] in rows && column in rows[m[i]] && rows[m[i]][column] == v
    decreases |s|
  {
    var last := s[|s| - 1];
    var prefix := Matching(s[..|s| - 1], rows, column, v);
    if i < |prefix| {
      MatchingHolds(s[..|s| - 1], rows, column, v, i);
    }
  }

  /** Every key of `s` whose row holds `v` in `column` is kept by Matching. */
  lemma {:induction false} MatchingComplete(s: seq<int>, rows: map<int, Record>, column: string, v: Value, y: int)
    requires y in s && y in rows && column in rows[y] && rows[y][column] == v
    ensures y in Matching(s, rows, column, v)
    decreases |s|
  {
    var last := s[|s| - 1];
    if y != last {
      assert s == s[..|s| - 1] + [last];
      MatchingComplete(s[..|s| - 1], rows, column, v, y);
    }
  }

  /** The record after `setattr(obj, key, value)` for every `key, value` of
      `data` with `hasattr(obj, key)`: keys that are not attributes are
      ignored, and a VNone value is assigned like any other. */
  function Assigned(rec: Record, data: map<string, Value>): (r: Record)
    ensures r.Keys == rec.Keys
    ensures forall k :: k in rec && k in data ==> r[k] == data[k]
    ensures forall k :: k in rec && k !in data ==> r[k] == rec[k]
  {
    map k | k in rec :: if k in data then data[k] else rec[k]
  }

  /** The entries stored under the keys `ids` that `offset(skip).limit(limit)`
      keeps, in the order of `ids`. */
  function Page<T>(ids: seq<int>, m: map<int, T>, skip: nat, limit: nat): (items: seq<T>)
    requires forall i :: 0 <= i < |ids| ==> ids[i] in m
    ensures |items| <= limit
    ensures var (lo, hi) := PageBounds(|ids|, skip, limit);
      |items| == hi - lo && forall k :: 0 <= k < |items| ==> items[k] == m[ids[lo + k]]
  {
    var (lo, hi) := PageBounds(|ids|, skip, limit);
    seq(hi - lo, k requires 0 <= k < hi - lo => m[ids[lo + k]])
  }

  /** The slice `offset(skip).limit(limit)` keeps of `n` results. */
  function PageBounds(n: nat, skip: nat, limit: nat): (b: (nat, nat))
    ensures b.0 <= b.1 <= n
    ensures b.1 - b.0 <= limit
  {
    var lo := if skip < n then skip else n;
    var hi := if skip + limit < n then skip + limit else n;
    (lo, hi)
  }

  /** The loop of update over `data`: each key that names an attribute of
      the row is set to its value, the others are skipped. */
  method AssignAttributes(row: Record, data: map<string, Value>) returns (obj: Record)
    ensures obj == Assigned(row, data)
  {
    obj := row;
    var pending := data.Keys;
    while pending != {}
      invariant pending <= data.Keys
      invariant obj.Keys == row.Keys
      invariant forall k :: k in obj ==> obj[k] == if k in data && k !in pending then data[k] else row[k]
      decreases pending
    {
      var key :| key in pending;
      if key in obj {
        obj := obj[key := data[key]];
      }
      pending := pending - {key};
    }
  }

  class BaseRepository {
    const kind: TableKind
    var order: seq<int>
    var rows: map<int, Record>
    var nextId: int
    var referenced: set<int>

    ghost predicate Valid()
      reads this
    {
      && Distinct(order)
      && (forall k :: k in order <==> k in rows)
      && (forall i :: 0 <= i < |order| ==> order[i] in rows)
      && (forall k :: k in rows ==> Accepts(kind, k, rows[k]) && k < nextId)
    }

    constructor (kind: TableKind)
      ensures Valid()
      ensures this.kind == kind && order == [] && rows == map[] && referenced == {}
    {
      this.kind := kind;
      order, rows, nextId, referenced := [], map[], 1, {};
    }

    /** get(id): the row stored under `id`, if any. */
    method Get(id: int) returns (r: Option<Record>)
      ensures r.Some? <==> id in rows
      ensures r.Some? ==> r.value == rows[id]
    {
      if id in rows {
        r := Some(rows[id]);
      } else {
        r := None;
      }
    }

    /** list(skip, limit): at most `limit` rows, from position `skip` of the
        listing order on. */
    method List(skip: nat, limit: nat) returns (items: seq<Record>)
      requires Valid()
      ensures |items| <= limit
      ensures var (lo, hi) := PageBounds(|order|, skip, limit);
        |items| == hi - lo && forall k :: 0 <= k < |items| ==> items[k] == rows[order[lo + k]]
    {
      var (lo, hi) := PageBounds(|order|, skip, limit);
      items := [];
      for i := lo to hi
        invariant |items| == i - lo
        invariant forall k :: 0 <= k < |items| ==> items[k] == rows[order[lo + k]]
      {
        items := items + [rows[order[i]]];
      }
    }

    /** The next value of the table's id sequence. Sequences are not
        transactional: a value handed out stays used after a rollback. */
    method NextId() returns (id: int)
      requires Valid()
      modifies this`nextId
      ensures Valid()
      ensures id == old(nextId) && nextId == id + 1 && id !in rows
    {
      id := nextId;
      nextId := nextId + 1;
    }

    /** Inserting `rec` under `id` and flushing or committing it: the
        database refuses a duplicate key and a row its columns cannot hold,
        and then nothing is written (add rolls back and re-raises). */
    method Add(id: int, rec: Record) returns (r: Result<Record>)
      requires Valid()
      modifies this
      ensures Valid()
      ensures referenced == old(referenced)
      ensures id in old(rows) || !Accepts(kind, id, rec) ==>
        r == Err(CommitRejected) && rows == old(rows) && order == old(order) && nextId == old(nextId)
      ensures id !in old(rows) && Accepts(kind, id, rec) ==>
        && r == Ok(rec) && rows == old(rows)[id := rec] && order == old(order) + [id]
        && nextId == (if id < old(nextId) then old(nextId) else id + 1)
    {
      if id in rows || !Accepts(kind, id, rec) {
        return Err(CommitRejected);
      }
      rows := rows[id := rec];
      order := order + [id];
      if nextId <= id {
        nextId := id + 1;
      }
      r := Ok(rec);
    }

    /** Rolling back a savepoint whose only write was the insert of `id`, the
        last row inserted: the row goes, the id sequence keeps its value. */
    method Discard(id: int)
      requires Valid() && |order| > 0 && order[|order| - 1] == id
      modifies this`rows, this`order
      ensures Valid()
      ensures rows == old(rows) - {id} && order == old(order)[..|old(order)| - 1]
    {
      rows := rows - {id};
      order := order[..|order| - 1];
    }

    /** update(id, data): absent rows give None and no change; otherwise the
        setattr loop over `data`, then the commit, which the database refuses
        when the assigned row breaks a column constraint (rollback, re-raise). */
    method Update(id: int, data: map<string, Value>) returns (r: Result<Option<Record>>)
      requires Valid()
      modifies this`rows
      ensures Valid()
      ensures id !in old(rows) ==> r == Ok(None) && rows == old(rows)
      ensures id in old(rows) ==>
        var obj := Assigned(old(rows)[id], data);
        if Accepts(kind, id, obj)
        then r == Ok(Some(obj)) && rows == old(rows)[id := obj]
        else r == Err(CommitRejected) && rows == old(rows)
    {
      var found := Get(id);
      if found.None? {
        return Ok(None);
      }
      var obj := AssignAttributes(found.value, data);
      if !Accepts(kind, id, obj) {
        return Err(CommitRejected);
      }
      rows := rows[id := obj];
      r := Ok(Some(obj));
    }

    /** The commit after attributes of the row under `id` were assigned in
        place: the database refuses a row its columns cannot hold, and then
        the stored row stays as it was. */
    method CommitChanged(id: int, obj: Record) returns (ok: bool)
      requires Valid() && id in rows
      modifies this`rows
      ensures Valid()
      ensures ok == Accepts(kind, id, obj)
      ensures rows == if ok then old(rows)[id := obj] else old(rows)
    {
      ok := Accepts(kind, id, obj);
      if ok {
        rows := rows[id := obj];
      }
    }

    /** delete(id): False and no change when absent; otherwise the row is
        removed and committed, unless a row outside the model still
        references it, in which case the commit raises and nothing changes. */
    method Delete(id: int) returns (r: Result<bool>)
      requires Valid()
      modifies this`rows, this`order
      ensures Valid()
      ensures id !in old(rows) ==> r == Ok(false) && rows == old(rows) && order == old(order)
      ensures id in old(rows) && id in referenced ==>
        r == Err(CommitRejected) && rows == old(rows) && order == old(order)
      ensures id in old(rows) && id !in referenced ==>
        r == Ok(true) && rows == old(rows) - {id} && order == Without(old(order), id)
    {
      var found := Get(id);
      if found.None? {
        return Ok(false);
      }
      if id in referenced {
        return Err(CommitRejected);
      }
      rows := rows - {id};
      order := Without(order, id);
      r := Ok(true);
    }

    /** SELECT ... WHERE column = v, first row: the key of the first row in
        listing order whose attribute `column` holds `v`. */
    method FirstWhere(column: string, v: Value) returns (r: Option<int>)
      requires Valid()
      ensures r.Some? ==> r.value in rows && column in rows[r.value] && rows[r.value][column] == v
      ensures r.Some? ==> exists i ::
        && 0 <= i < |order| && order[i] == r.value
        && forall j :: 0 <= j < i ==> !(column in rows[order[j]] && rows[order[j]][column] == v)
      ensures r.None? <==> forall k :: k in rows ==> !(column in rows[k] && rows[k][column] == v)
    {
      for i := 0 to |order|
        invariant forall j :: 0 <= j < i ==> !(column in rows[order[j]] && rows[order[j]][column] == v)
      {
        var rec := rows[order[i]];
        if column in rec && rec[column] == v {
          return Some(order[i]);
        }
      }
      forall k | k in rows
        ensures !(column in rows[k] && rows[k][column] == v)
      {
        assert k in order;
      }
      r := None;
    }

    /** The keys of the rows whose attribute `column` holds `v`, in listing
        order. */
    method MatchingKeys(column: string, v: Value) returns (ids: seq<int>)
      requires Valid()
      ensures ids == Matching(order, rows, column, v)
    {
      ids := [];
      for i := 0 to |order|
        invariant ids == Matching(order[..i], rows, column, v)
      {
        assert order[..i + 1][..i] == order[..i];
        var rec := rows[order[i]];
        if column in rec && rec[column] == v {
          ids := ids + [order[i]];
        }
      }
      assert order[..|order|] == order;
    }

    /** SELECT ... WHERE column = v OFFSET skip LIMIT limit. */
    method ListWhere(column: string, v: Value, skip: nat, limit: nat) returns (items: seq<Record>)
      requires Valid()
      ensures items == Page(Matching(order, rows, column, v), rows, skip, limit)
    {
      var ids := MatchingKeys(column, v);
      items := Page(ids, rows, skip, limit);
    }
  }
}
