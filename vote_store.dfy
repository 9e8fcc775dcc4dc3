/** The votes table: rows plus the unique index on (edition, category, voter).
    Insert is one atomic step; whether another failure happens is an input. */
module VoteStore {
  import opened VoteTypes

  /** The uniqueness keys of a set of rows. */
  function KeysOf(rows: set<Vote>): (keys: set<VoteKey>)
    ensures forall v :: v in rows ==> v.Key() in keys
    ensures forall k :: k in keys ==> exists v :: v in rows && v.Key() == k
  {
    set v | v in rows :: v.Key()
  }

  /** At most one row per (edition, category, voter). */
  ghost predicate OnePerKey(rows: set<Vote>) {
    forall a, b :: a in rows && b in rows && a.Key() == b.Key() ==> a == b
  }

  /** The error the store reports when the unique index rejects a row. */
  const CONFLICT: InsertResult :=
    InsertError(Some(UNIQUE_VIOLATION), Some("duplicate key value violates unique constraint"))

  /** What an insert of `v` into `rows` reports and the rows afterwards.
      `fault` is a failure that stops the insert before the unique index is
      consulted (the request never reaches the database, or a permission
      check refuses the row); without one, a key already indexed is a conflict. */
  function InsertSpec(rows: set<Vote>, v: Vote, fault: Option<StoreFault>): (r: (InsertResult, set<Vote>))
    ensures fault.Some? ==> r == (InsertError(fault.value.code, fault.value.message), rows)
    ensures fault.None? && v.Key() in KeysOf(rows) ==> r == (CONFLICT, rows)
    ensures r.0.InsertOk? <==> v.Key() !in KeysOf(rows) && fault.None?
    ensures r.1 == if r.0.InsertOk? then rows + {v} else rows
    ensures r.0.InsertError? && r.0.code == Some(UNIQUE_VIOLATION) <==>
              if fault.Some? then fault.value.code == Some(UNIQUE_VIOLATION) else v.Key() in KeysOf(rows)
    ensures OnePerKey(rows) ==> OnePerKey(r.1)
    ensures KeysOf(r.1) == if r.0.InsertOk? then KeysOf(rows) + {v.Key()} else KeysOf(rows)
  {
    if fault.Some? then (InsertError(fault.value.code, fault.value.message), rows)
    else if v.Key() in KeysOf(rows) then (CONFLICT, rows)
    else (InsertOk, rows + {v})
  }

  class Store {
    /** The unique index. */
    var keys: set<VoteKey>
    /** The rows of the table. */
    var rows: set<Vote>

    ghost predicate Valid()
      reads this
    {
      keys == KeysOf(rows) && OnePerKey(rows)
    }

    constructor ()
      ensures Valid() && rows == {}
    {
      keys, rows := {}, {};
    }

    /** Insert one row: the fault when there is one, a conflict when its key
        is already indexed, otherwise the row is stored. */
    method Insert(v: Vote, fault: Option<StoreFault>) returns (r: InsertResult)
      requires Valid()
      modifies this
      ensures Valid()
      ensures (r, rows) == InsertSpec(old(rows), v, fault)
    {
      if fault.Some? {
        return InsertError(fault.value.code, fault.value.message);
      }
      if v.Key() in keys {
        return CONFLICT;
      }
      rows := rows + {v};
      keys := keys + {v.Key()};
      r := InsertOk;
    }
  }
}
