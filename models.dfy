/** The persisted side of the service: the product row, the nullable string
    type, and the product table with the lookups and writes the generated
    data-access layer offers (find by id, list all, insert, update, delete).
    The table is an in-memory map from primary key to row; a storage failure
    is a `fail` flag given to each call. */
module Models {

  /** A nullable string: `valid` is false for SQL NULL. */
  datatype NullString = NullString(str: string, valid: bool)

  /** One row of the products table. The price is kept as an exact integer
      amount; the service only ever stores whole-unit prices. */
  datatype Product = Product(id: int, name: string, description: NullString, price: int)

  /** The answer of a query: the rows found, "no rows", or a driver failure. */
  datatype Query<T> = Rows(value: T) | ErrNoRows | ErrDriver

  /** Every row is stored under its own primary key. */
  ghost predicate Keyed(rows: map<int, Product>) {
    forall id :: id in rows ==> rows[id].id == id
  }

  /** `s` lists the table: as many entries as rows, each entry a stored row,
      each stored row present. */
  ghost predicate Lists(s: seq<Product>, rows: map<int, Product>) {
    && |s| == |rows|
    && (forall i :: 0 <= i < |s| ==> s[i] in rows.Values)
    && (forall id :: id in rows ==> rows[id] in s)
  }

  /** Looking a product up by primary key: the stored row, "no rows" for an
      id with no row, or a driver failure. */
  function FindProduct(rows: map<int, Product>, id: int, fail: bool): (r: Query<Product>)
    ensures fail <==> r.ErrDriver?
    ensures r.Rows? <==> !fail && id in rows
    ensures r.ErrNoRows? <==> !fail && id !in rows
    ensures r.Rows? ==> r.value == rows[id]
    ensures r.Rows? && Keyed(rows) ==> r.value.id == id
  {
    if fail then ErrDriver
    else if id in rows then Rows(rows[id])
    else ErrNoRows
  }

  /** A non-empty set has an element. */
  lemma NonEmptyHasElement(keys: set<int>)
    requires keys != {}
    ensures exists k :: k in keys
  {
    if forall k :: k !in keys {
      assert false;
    }
  }

  /** A non-empty set of ids has a least element. */
  lemma {:induction false} MinimumExists(keys: set<int>)
    requires keys != {}
    ensures exists m :: m in keys && forall k :: k in keys ==> m <= k
  {
    NonEmptyHasElement(keys);
    var x :| x in keys;
    var rest := keys - {x};
    if rest == {} {
      forall k | k in keys ensures x <= k {
        assert k !in rest;
      }
    } else {
      MinimumExists(rest);
      var m :| m in rest && forall k :: k in rest ==> m <= k;
      var least := if x < m then x else m;
      forall k | k in keys ensures least <= k {
        if k != x { assert k in rest; }
      }
      assert least in keys;
    }
  }

  /** Strictly increasing, hence without repetition. */
  ghost predicate Ascending(ks: seq<int>) {
    forall i, j :: 0 <= i < j < |ks| ==> ks[i] < ks[j]
  }

  /** Putting the least id in front of an ascending listing of the other
      ids gives an ascending listing of all of them. */
  lemma SortedCons(keys: set<int>, m: int, rest: seq<int>)
    requires m in keys && forall k :: k in keys ==> m <= k
    requires |rest| == |keys - {m}|
    requires forall i :: 0 <= i < |rest| ==> rest[i] in keys - {m}
    requires forall k :: k in keys - {m} ==> k in rest
    requires Ascending(rest)
    ensures |[m] + rest| == |keys|
    ensures forall i :: 0 <= i < |[m] + rest| ==> ([m] + rest)[i] in keys
    ensures forall k :: k in keys ==> k in [m] + rest
    ensures Ascending([m] + rest)
  {
    var ks := [m] + rest;
    forall i, j | 0 <= i < j < |ks| ensures ks[i] < ks[j] {
      assert ks[j] == rest[j - 1];
      if 0 < i { assert ks[i] == rest[i - 1]; }
    }
    forall k | k in keys ensures k in ks {
      if k != m { assert k in keys - {m}; }
    }
  }

  /** The ids of `keys` in ascending order, each once. */
  function SortedIds(keys: set<int>): (ks: seq<int>)
    ensures |ks| == |keys|
    ensures forall i :: 0 <= i < |ks| ==> ks[i] in keys
    ensures forall k :: k in keys ==> k in ks
    ensures Ascending(ks)
    decreases keys
  {
    if keys == {} then []
    else
      MinimumExists(keys);
      var m :| m in keys && forall k :: k in keys ==> m <= k;
      var rest := SortedIds(keys - {m});
      SortedCons(keys, m, rest);
      [m] + rest
  }

  /** An id no row uses: one past the largest stored id. Storage may choose
      any id no row uses; callers rely only on that. */
  function UnusedId(keys: set<int>): (id: int)
    ensures id !in keys
    ensures forall k :: k in keys ==> k < id
  {
    var ks := SortedIds(keys);
    if ks == [] then 1
    else
      assert forall i :: 0 <= i < |ks| ==> ks[i] <= ks[|ks| - 1];
      ks[|ks| - 1] + 1
  }

  /** The rows stored under the ids `ks`, in that order. */
  function RowsAt(rows: map<int, Product>, ks: seq<int>): seq<Product>
    requires forall i :: 0 <= i < |ks| ==> ks[i] in rows
  {
    seq(|ks|, i requires 0 <= i < |ks| => rows[ks[i]])
  }

  /** The rows under an ascending listing of every key list the table. */
  lemma ListedBySortedIds(rows: map<int, Product>, ks: seq<int>)
    requires |ks| == |rows.Keys|
    requires forall i :: 0 <= i < |ks| ==> ks[i] in rows
    requires forall id :: id in rows ==> id in ks
    requires Ascending(ks)
    ensures Lists(RowsAt(rows, ks), rows)
    ensures Keyed(rows) ==>
      forall i, j :: 0 <= i < j < |ks| ==> RowsAt(rows, ks)[i] != RowsAt(rows, ks)[j]
  {
    var s := RowsAt(rows, ks);
    forall id | id in rows ensures rows[id] in s {
      var i :| 0 <= i < |ks| && ks[i] == id;
      assert s[i] == rows[id];
    }
    if Keyed(rows) {
      forall i, j | 0 <= i < j < |ks| ensures s[i] != s[j] {
        assert s[i].id == ks[i] && s[j].id == ks[j];
      }
    }
  }

  /** Listing every product. A failed listing is a driver failure, never
      "no rows": an empty table lists as the empty sequence. The order is the
      storage's; this model happens to list by ascending id. */
  function All(rows: map<int, Product>, fail: bool): (r: Query<seq<Product>>)
    ensures r.Rows? <==> !fail
    ensures !r.ErrNoRows?
    ensures r.Rows? ==> Lists(r.value, rows)
    ensures r.Rows? && Keyed(rows) ==>
      forall i, j :: 0 <= i < j < |r.value| ==> r.value[i] != r.value[j]
  {
    if fail then ErrDriver
    else
      var ks := SortedIds(rows.Keys);
      ListedBySortedIds(rows, ks);
      Rows(RowsAt(rows, ks))
  }

  /** The products table. */
  class ProductTable {
    var rows: map<int, Product>

    ghost predicate Valid()
      reads this
    {
      Keyed(rows)
    }

    constructor ()
      ensures Valid() && rows == map[]
    {
      rows := map[];
    }

    /** Inserting a row: storage assigns an id no row uses, stores the row
        under it and hands back the row with that id filled in. */
    method Insert(p: Product, fail: bool) returns (err: bool, stored: Product)
      requires Valid()
      modifies this
      ensures Valid()
      ensures err == fail
      ensures err ==> rows == old(rows)
      ensures !err ==> stored == p.(id := stored.id) && stored.id !in old(rows)
                       && rows == old(rows)[stored.id := stored]
    {
      err, stored := fail, p;
      if !fail {
        stored := p.(id := UnusedId(rows.Keys));
        rows := rows[stored.id := stored];
      }
    }

    /** Updating a row by its primary key: every column is written; a key
        with no row affects nothing and is not an error. */
    method Update(p: Product, fail: bool) returns (err: bool)
      requires Valid()
      modifies this
      ensures Valid()
      ensures err == fail
      ensures rows == if !fail && p.id in old(rows) then old(rows)[p.id := p] else old(rows)
    {
      err := fail;
      if !fail && p.id in rows {
        rows := rows[p.id := p];
      }
    }

    /** Deleting a row by its primary key. */
    method Delete(p: Product, fail: bool) returns (err: bool)
      requires Valid()
      modifies this
      ensures Valid()
      ensures err == fail
      ensures rows == if fail then old(rows) else old(rows) - {p.id}
    {
      err := fail;
      if !fail {
        rows := rows - {p.id};
      }
    }
  }
}
