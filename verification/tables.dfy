/** What SaveChanges does to one keyed table, shared by the exercise and user
    handlers: an insert that can collide on the key or overflow a column, an
    in-place update that can overflow a column, and reading every row out. */
module Tables {
  import opened Wrappers
  import opened Entities

  /** Add followed by SaveChanges. A key already present raises before any
      column is looked at; otherwise a row that does not fit its columns
      raises. Either way the table is left as it was. */
  function AddRow<T>(table: map<Guid, T>, key: Guid, row: T, fits: bool): (r: Result<map<Guid, T>, StoreError>)
    ensures r == Err(DuplicateKey) <==> key in table
    ensures r == Err(ValueTooLong) <==> key !in table && !fits
    ensures r.Ok? ==> r.value.Keys == table.Keys + {key} && r.value[key] == row
    ensures r.Ok? ==> forall k | k in table :: r.value[k] == table[k]
  {
    if key in table then Err(DuplicateKey)
    else if !fits then Err(ValueTooLong)
    else Ok(table[key := row])
  }

  /** A tracked row changed in place, then SaveChanges: the key set stays the
      same and only that row changes. */
  function ReplaceRow<T>(table: map<Guid, T>, key: Guid, row: T, fits: bool): (r: Result<map<Guid, T>, StoreError>)
    requires key in table
    ensures r.Err? <==> !fits
    ensures r.Err? ==> r.error == ValueTooLong
    ensures r.Ok? ==> r.value.Keys == table.Keys && r.value[key] == row
    ensures r.Ok? ==> forall k | k in table && k != key :: r.value[k] == table[k]
  {
    if !fits then Err(ValueTooLong) else Ok(table[key := row])
  }

  /** `ToListAsync` over a table: every row exactly once, in an order the
      store chooses. `keys` records which key each position came from. */
  method Rows<T(==)>(table: map<Guid, T>) returns (r: seq<T>, ghost keys: seq<Guid>)
    ensures |r| == |keys| == |table|
    ensures forall i | 0 <= i < |keys| :: keys[i] in table && r[i] == table[keys[i]]
    ensures forall i, j | 0 <= i < j < |keys| :: keys[i] != keys[j]
    ensures forall k | k in table :: exists i | 0 <= i < |keys| :: keys[i] == k
    ensures forall v | v in table.Values :: v in r
    ensures forall v | v in r :: v in table.Values
  {
    var rest := table.Keys;
    r, keys := [], [];
    ghost var done: set<Guid> := {};
    while rest != {}
      invariant rest !! done && rest + done == table.Keys
      invariant |r| == |keys| == |done|
      invariant forall i | 0 <= i < |keys| :: keys[i] in done && r[i] == table[keys[i]]
      invariant forall i, j | 0 <= i < j < |keys| :: keys[i] != keys[j]
      invariant forall k | k in done :: exists i | 0 <= i < |keys| :: keys[i] == k
      decreases |rest|
    {
      var k :| k in rest;
      ghost var before := keys;
      r, keys := r + [table[k]], keys + [k];
      rest, done := rest - {k}, done + {k};
      assert forall i | 0 <= i < |before| :: keys[i] == before[i];
      assert keys[|before|] == k;
    }
    forall v | v in table.Values
      ensures v in r
    {
      var k :| k in table && table[k] == v;
      var i :| 0 <= i < |keys| && keys[i] == k;
      assert r[i] == v;
    }
  }
}
