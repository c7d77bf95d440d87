/** The persistent seen-item store: the `seen_items` table, id -> first_seen_at. */
module Repository {
  import opened Wrappers

  /** The rows of `seen_items`: each id mapped to its first-seen timestamp (ISO-8601). */
  type Rows = map<string, string>

  /** The ids of a sequence, as a set. */
  function Elements(ids: seq<string>): set<string> {
    set x | x in ids
  }

  /**
   * The table after `INSERT OR IGNORE` of every id of `ids` with timestamp `now`: ids
   * already present keep their row, the others get a new row stamped `now`.
   */
  function InsertOrIgnore(rows: Rows, ids: seq<string>, now: string): Rows {
    map k | k in rows.Keys + Elements(ids) :: if k in rows then rows[k] else now
  }

  /** How many rows `INSERT OR IGNORE` of `ids` adds: the distinct ids not yet present. */
  function NewIdCount(rows: Rows, ids: seq<string>): nat {
    |Elements(ids) - rows.Keys|
  }

  /**
   * The reported count is exactly the growth of the table, existing rows keep their
   * timestamp, and every added row carries `now`.
   */
  lemma InsertOrIgnoreGrowth(rows: Rows, ids: seq<string>, now: string)
    ensures InsertOrIgnore(rows, ids, now).Keys == rows.Keys + Elements(ids)
    ensures |InsertOrIgnore(rows, ids, now)| == |rows| + NewIdCount(rows, ids)
    ensures forall k :: k in rows ==> InsertOrIgnore(rows, ids, now)[k] == rows[k]
    ensures forall k :: k in InsertOrIgnore(rows, ids, now) && k !in rows ==> InsertOrIgnore(rows, ids, now)[k] == now
  {
    var r := InsertOrIgnore(rows, ids, now);
    var added := Elements(ids) - rows.Keys;
    assert r.Keys == rows.Keys + added;
    assert rows.Keys !! added;
  }

  /**
   * Re-inserting the same ids, at any later time, adds no row and changes no timestamp.
   */
  lemma InsertOrIgnoreIdempotent(rows: Rows, ids: seq<string>, now: string, later: string)
    ensures InsertOrIgnore(InsertOrIgnore(rows, ids, now), ids, later) == InsertOrIgnore(rows, ids, now)
    ensures NewIdCount(InsertOrIgnore(rows, ids, now), ids) == 0
  {
    var once := InsertOrIgnore(rows, ids, now);
    assert Elements(ids) - once.Keys == {};
  }

  /** The insert depends on the ids only as a set: order and repetition do not matter. */
  lemma InsertOrIgnoreSetOnly(rows: Rows, ids: seq<string>, ids': seq<string>, now: string)
    requires Elements(ids) == Elements(ids')
    ensures InsertOrIgnore(rows, ids, now) == InsertOrIgnore(rows, ids', now)
    ensures NewIdCount(rows, ids) == NewIdCount(rows, ids')
  {
  }

  lemma InsertNothing(rows: Rows, now: string)
    ensures InsertOrIgnore(rows, [], now) == rows && NewIdCount(rows, []) == 0
  {
    assert Elements([]) == {};
  }

  lemma ElementsSnoc(ids: seq<string>, id: string)
    ensures Elements(ids + [id]) == Elements(ids) + {id}
  {
  }

  lemma InsertKeysSnoc(rows: Rows, ids: seq<string>, id: string, now: string)
    ensures InsertOrIgnore(rows, ids + [id], now).Keys == InsertOrIgnore(rows, ids, now).Keys + {id}
  {
    ElementsSnoc(ids, id);
  }

  /** One row of `executemany`: the id is inserted unless the table already has it. */
  lemma InsertStep(rows: Rows, ids: seq<string>, id: string, now: string)
    ensures var before := InsertOrIgnore(rows, ids, now);
      InsertOrIgnore(rows, ids + [id], now) == if id in before then before else before[id := now]
  {
    ElementsSnoc(ids, id);
    InsertKeysSnoc(rows, ids, id, now);
  }

  /** One row of `executemany` adds one to `rowcount` exactly when it inserts. */
  lemma CountStep(rows: Rows, ids: seq<string>, id: string, now: string)
    ensures var before := InsertOrIgnore(rows, ids, now);
      NewIdCount(rows, ids + [id]) == NewIdCount(rows, ids) + (if id in before then 0 else 1)
  {
    ElementsSnoc(ids, id);
    NewElementStep(Elements(ids), rows.Keys, id);
    assert id in InsertOrIgnore(rows, ids, now) <==> id in rows.Keys || id in Elements(ids);
  }

  lemma NewElementStep(elems: set<string>, keys: set<string>, id: string)
    ensures |(elems + {id}) - keys| == |elems - keys| + (if id in keys || id in elems then 0 else 1)
  {
    if id in keys || id in elems {
      assert (elems + {id}) - keys == elems - keys;
    } else {
      assert (elems + {id}) - keys == (elems - keys) + {id};
    }
  }

  /** `ItemRepository` over one database file. */
  class ItemRepository {
    /** The `seen_items` table exists in the database. */
    var hasTable: bool
    /** Its rows. */
    var rows: Rows

    ghost predicate Valid()
      reads this
    {
      !hasTable ==> rows == map[]
    }

    /** A repository on a database as found: `existing` is its table, None when it has none. */
    constructor (existing: Option<Rows>)
      ensures Valid()
      ensures hasTable == existing.Some?
      ensures rows == if existing.Some? then existing.value else map[]
    {
      hasTable := existing.Some?;
      rows := if existing.Some? then existing.value else map[];
    }

    /** `initialize`: `CREATE TABLE IF NOT EXISTS`; existing rows are kept. */
    method Initialize()
      requires Valid()
      modifies this
      ensures Valid() && hasTable
      ensures rows == old(rows)
    {
      hasTable := true;
    }

    /** `get_seen_ids`: `SELECT id FROM seen_items`. */
    method GetSeenIds() returns (ids: set<string>)
      requires hasTable
      ensures ids == rows.Keys
    {
      ids := rows.Keys;
    }

    /**
     * `add_seen_ids`: an empty input returns 0 without touching the database; otherwise
     * every id is inserted with `INSERT OR IGNORE` in one `executemany`, and the summed
     * `rowcount` (the rows actually added) is returned.
     */
    method AddSeenIds(ids: seq<string>, now: string) returns (count: nat)
      requires Valid()
      requires ids != [] ==> hasTable
      modifies this
      ensures Valid() && hasTable == old(hasTable)
      ensures ids == [] ==> count == 0 && rows == old(rows)
      ensures rows == InsertOrIgnore(old(rows), ids, now)
      ensures count == NewIdCount(old(rows), ids)
    {
      if ids == [] {
        InsertNothing(rows, now);
        return 0;
      }
      ghost var before := rows;
      count := 0;
      var i := 0;
      assert ids[..0] == [];
      InsertNothing(rows, now);
      while i < |ids|
        invariant 0 <= i <= |ids|
        invariant rows == InsertOrIgnore(before, ids[..i], now)
        invariant rows.Keys == before.Keys + Elements(ids[..i])
        invariant count == NewIdCount(before, ids[..i])
        invariant hasTable
      {
        var id := ids[i];
        assert ids[..i + 1] == ids[..i] + [id];
        InsertStep(before, ids[..i], id, now);
        CountStep(before, ids[..i], id, now);
        if id !in rows {
          rows := rows[id := now];
          count := count + 1;
        }
        i := i + 1;
      }
      assert ids[..i] == ids;
    }

    /**
     * `clear_all`: `DELETE FROM seen_items`; `ok` is false where SQLite raises because
     * the table does not exist, and then nothing changes.
     */
    method ClearAll() returns (ok: bool)
      requires Valid()
      modifies this
      ensures Valid() && hasTable == old(hasTable)
      ensures ok <==> hasTable
      ensures rows == map[]
    {
      ok := hasTable;
      if ok {
        rows := map[];
      }
    }
  }
}
