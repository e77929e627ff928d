/**
 * The data the two tasks of the rates DAG share: the rows of the `rates`
 * table in Postgres, the records its latest-rate query returns, and the two
 * stores themselves. The Postgres table is a sequence of rows that is only
 * ever appended to; the Redis store is a map from a key to a scalar.
 */
module Rates {

  /** One row of the `rates` table: `(pair, valid_until, rate)`. */
  datatype Row = Row(pair: string, validUntil: int, rate: real)

  /** One record of the latest-rate query: `(pair, rate)`. */
  datatype Record = Record(pair: string, rate: real)

  /** The pairs that occur in some row. */
  function Pairs(rows: seq<Row>): (ps: set<string>)
    ensures forall i :: 0 <= i < |rows| ==> rows[i].pair in ps
    ensures forall p :: p in ps ==> exists i :: 0 <= i < |rows| && rows[i].pair == p
  {
    set i | 0 <= i < |rows| :: rows[i].pair
  }

  /** The `rates` table, reached through `PostgresHook(postgres_conn_id='rates')`. */
  class RatesTable {
    var rows: seq<Row>

    constructor ()
      ensures rows == []
    {
      rows := [];
    }

    /** `INSERT INTO rates (pair, valid_until, rate) VALUES (...)`: one row at the end. */
    method Insert(row: Row)
      modifies this
      ensures rows == old(rows) + [row]
    {
      rows := rows + [row];
    }
  }

  /** The Redis store, reached through `redis.StrictRedis(host='redis')`. */
  class Cache {
    var entries: map<string, real>

    constructor ()
      ensures entries == map[]
    {
      entries := map[];
    }

    /** `SET key value`: overwrites one entry and no other. */
    method Set(key: string, value: real)
      modifies this
      ensures entries == old(entries)[key := value]
    {
      entries := entries[key := value];
    }
  }
}
