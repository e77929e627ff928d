/**
 * The `cache_latest_rates` task: query the `rates` table for the latest
 * rate of every pair and write each one into Redis under the pair's code.
 */
module Publish {
  import opened Rates

  /** `r` is a row of `rows` whose `valid_until` is the greatest among the rows of its pair. */
  ghost predicate IsLatestRow(rows: seq<Row>, r: Row) {
    r in rows && forall s :: s in rows && s.pair == r.pair ==> s.validUntil <= r.validUntil
  }

  /** No two records name the same pair. */
  predicate DistinctPairs(records: seq<Record>) {
    forall i, j :: 0 <= i < j < |records| ==> records[i].pair != records[j].pair
  }

  /** `record` carries the pair and rate of a latest row of `rows`. */
  ghost predicate IsLatestRecord(rows: seq<Row>, record: Record) {
    exists r :: IsLatestRow(rows, r) && r.pair == record.pair && r.rate == record.rate
  }

  /** The pairs the records name. */
  function RecordPairs(records: seq<Record>): set<string> {
    set i | 0 <= i < |records| :: records[i].pair
  }

  /**
   * What `SELECT DISTINCT ON (pair) pair, rate FROM rates ORDER BY pair,
   * valid_until DESC` may return: one record per pair of the table, each
   * carrying the rate of a latest row of its pair. Among rows that tie on
   * `valid_until` any one may be chosen.
   */
  ghost predicate IsLatestRates(rows: seq<Row>, records: seq<Record>) {
    && DistinctPairs(records)
    && (forall i :: 0 <= i < |records| ==> IsLatestRecord(rows, records[i]))
    && (forall p :: p in Pairs(rows) ==> exists i :: 0 <= i < |records| && records[i].pair == p)
  }

  /** Rows that tie on pair and `valid_until` carry the same rate. */
  ghost predicate TiesAgree(rows: seq<Row>) {
    forall r, s :: r in rows && s in rows && r.pair == s.pair && r.validUntil == s.validUntil ==> r.rate == s.rate
  }

  /** No two rows of the table share a pair and a `valid_until`. */
  predicate DistinctVersions(rows: seq<Row>) {
    forall i, j :: 0 <= i < j < |rows| ==>
      rows[i].pair != rows[j].pair || rows[i].validUntil != rows[j].validUntil
  }

  /** A table whose rows are keyed by pair and `valid_until` has no disagreeing ties. */
  lemma DistinctVersionsAgree(rows: seq<Row>)
    requires DistinctVersions(rows)
    ensures TiesAgree(rows)
  {
    forall r, s | r in rows && s in rows && r.pair == s.pair && r.validUntil == s.validUntil
      ensures r.rate == s.rate
    {
      var i :| 0 <= i < |rows| && rows[i] == r;
      var j :| 0 <= j < |rows| && rows[j] == s;
      assert i == j;
    }
  }

  /** The position of the entry for pair `p` in `best`, or `|best|` when there is none. */
  function IndexOfPair(best: seq<Row>, p: string): (j: nat)
    ensures j <= |best|
    ensures j < |best| ==> best[j].pair == p
    ensures j == |best| ==> forall k :: 0 <= k < |best| ==> best[k].pair != p
  {
    if best == [] then 0
    else if best[0].pair == p then 0
    else 1 + IndexOfPair(best[1..], p)
  }

  /**
   * What a scan has gathered after reading `seen`: one entry per pair seen
   * so far, each a latest row of `seen` for its pair.
   */
  ghost predicate Gathered(seen: seq<Row>, best: seq<Row>) {
    && DistinctPairs(RecordsOf(best))
    && (forall j :: 0 <= j < |best| ==> IsLatestRow(seen, best[j]))
    && Covers(best, seen)
  }

  /** The records a scan's entries become: each entry's pair and rate. */
  function RecordsOf(best: seq<Row>): (records: seq<Record>)
    ensures |records| == |best|
    ensures forall j :: 0 <= j < |best| ==> records[j] == Record(best[j].pair, best[j].rate)
  {
    seq(|best|, j requires 0 <= j < |best| => Record(best[j].pair, best[j].rate))
  }

  /** Every pair of `seen` has an entry in `best`. */
  ghost predicate Covers(best: seq<Row>, seen: seq<Row>) {
    Pairs(seen) <= Pairs(best)
  }

  /** One step of the scan: a new pair gets an entry, a later row replaces its pair's entry. */
  function KeepLatest(best: seq<Row>, row: Row): seq<Row> {
    var j := IndexOfPair(best, row.pair);
    if j == |best| then best + [row]
    else if best[j].validUntil < row.validUntil then best[j := row]
    else best
  }

  /** A latest row stays latest when a row of another pair, or an earlier one, is read. */
  lemma LatestAfter(seen: seq<Row>, r: Row, row: Row)
    requires IsLatestRow(seen, r)
    requires row.pair == r.pair ==> row.validUntil <= r.validUntil
    ensures IsLatestRow(seen + [row], r)
  {
    forall s | s in seen + [row] && s.pair == r.pair ensures s.validUntil <= r.validUntil {
      if s != row {
        assert s in seen;
      }
    }
  }

  /** A row no earlier row of its pair outlasts is latest once read. */
  lemma LatestNew(seen: seq<Row>, row: Row)
    requires forall s :: s in seen && s.pair == row.pair ==> s.validUntil <= row.validUntil
    ensures IsLatestRow(seen + [row], row)
  {
    forall s | s in seen + [row] && s.pair == row.pair ensures s.validUntil <= row.validUntil {
      if s != row {
        assert s in seen;
      }
    }
  }

  lemma KeepLatestGathers(seen: seq<Row>, best: seq<Row>, row: Row)
    requires Gathered(seen, best)
    ensures Gathered(seen + [row], KeepLatest(best, row))
  {
    var j := IndexOfPair(best, row.pair);
    if j == |best| {
      GatherNewPair(seen, best, row);
    } else if best[j].validUntil < row.validUntil {
      GatherLaterRow(seen, best, row, j);
    } else {
      GatherEarlierRow(seen, best, row, j);
    }
  }

  /** A row of a pair not seen before gets an entry of its own. */
  lemma GatherNewPair(seen: seq<Row>, best: seq<Row>, row: Row)
    requires Gathered(seen, best)
    requires forall k :: 0 <= k < |best| ==> best[k].pair != row.pair
    ensures Gathered(seen + [row], best + [row])
  {
    var next := best + [row];
    forall s | s in seen ensures s.pair != row.pair {
      assert s.pair in Pairs(seen);
      var m :| 0 <= m < |best| && best[m].pair == s.pair;
      assert best[m].pair != row.pair;
    }
    LatestNew(seen, row);
    forall k | 0 <= k < |next| ensures IsLatestRow(seen + [row], next[k]) {
      if k < |best| {
        LatestAfter(seen, best[k], row);
      }
    }
    CoversAfter(seen, best, row, next, |best|);
  }

  /** A row later than its pair's entry replaces it. */
  lemma GatherLaterRow(seen: seq<Row>, best: seq<Row>, row: Row, j: nat)
    requires Gathered(seen, best)
    requires j < |best| && best[j].pair == row.pair && best[j].validUntil < row.validUntil
    ensures Gathered(seen + [row], best[j := row])
  {
    var next := best[j := row];
    assert IsLatestRow(seen, best[j]);
    LatestNew(seen, row);
    forall k | 0 <= k < |next| ensures IsLatestRow(seen + [row], next[k]) {
      if k != j {
        LatestAfter(seen, best[k], row);
      }
    }
    CoversAfter(seen, best, row, next, j);
  }

  /** A row no later than its pair's entry changes nothing. */
  lemma GatherEarlierRow(seen: seq<Row>, best: seq<Row>, row: Row, j: nat)
    requires Gathered(seen, best)
    requires j < |best| && best[j].pair == row.pair && row.validUntil <= best[j].validUntil
    ensures Gathered(seen + [row], best)
  {
    forall k | 0 <= k < |best| ensures IsLatestRow(seen + [row], best[k]) {
      LatestAfter(seen, best[k], row);
    }
    CoversAfter(seen, best, row, best, j);
  }

  /** Reading a row keeps every seen pair covered when the entries keep their pairs and `row`'s pair has one. */
  lemma CoversAfter(seen: seq<Row>, best: seq<Row>, row: Row, next: seq<Row>, j: nat)
    requires Covers(best, seen)
    requires |best| <= |next| && forall k :: 0 <= k < |best| ==> next[k].pair == best[k].pair
    requires j < |next| && next[j].pair == row.pair
    ensures Covers(next, seen + [row])
  {
    PairsAppend(seen, row);
    forall p | p in Pairs(best) ensures p in Pairs(next) {
      var k :| 0 <= k < |best| && best[k].pair == p;
      assert next[k].pair == p;
    }
  }

  lemma PairsAppend(rows: seq<Row>, row: Row)
    ensures Pairs(rows + [row]) == Pairs(rows) + {row.pair}
  {
    var ext := rows + [row];
    forall p | p in Pairs(ext) ensures p in Pairs(rows) + {row.pair} {
      var k :| 0 <= k < |ext| && ext[k].pair == p;
      if k < |rows| {
        assert rows[k] == ext[k];
      }
    }
    assert ext[|rows|] == row;
    forall p | p in Pairs(rows) ensures p in Pairs(ext) {
      var k :| 0 <= k < |rows| && rows[k].pair == p;
      assert ext[k] == rows[k];
    }
  }

  /** The records of a finished scan are a latest-rate result. */
  lemma GatheredIsLatest(rows: seq<Row>, best: seq<Row>)
    requires Gathered(rows, best)
    ensures IsLatestRates(rows, RecordsOf(best))
  {
    var records := RecordsOf(best);
    forall p | p in Pairs(rows)
      ensures exists i :: 0 <= i < |records| && records[i].pair == p
    {
      var j :| 0 <= j < |best| && best[j].pair == p;
      assert records[j].pair == p;
    }
    forall i | 0 <= i < |records| ensures IsLatestRecord(rows, records[i]) {
      assert IsLatestRow(rows, best[i]);
      assert records[i].pair == best[i].pair && records[i].rate == best[i].rate;
    }
  }

  /**
   * `pg_hook.get_records(latest_rates)`: a result of the latest-rate query.
   * It scans the table once, keeping for every pair the first row seen with
   * the greatest `valid_until`; callers rely only on `IsLatestRates`.
   */
  method SelectLatest(rows: seq<Row>) returns (records: seq<Record>)
    ensures IsLatestRates(rows, records)
  {
    var best: seq<Row> := [];
    for i := 0 to |rows|
      invariant Gathered(rows[..i], best)
    {
      assert rows[..i + 1] == rows[..i] + [rows[i]];
      KeepLatestGathers(rows[..i], best, rows[i]);
      best := KeepLatest(best, rows[i]);
    }
    assert rows[..|rows|] == rows;
    records := RecordsOf(best);
    GatheredIsLatest(rows, best);
  }

  /** The cache after `redis_conn.set(pair, rate)` for each record in turn. */
  function Published(cache: map<string, real>, records: seq<Record>): map<string, real> {
    if records == [] then cache
    else
      var last := records[|records| - 1];
      Published(cache, records[..|records| - 1])[last.pair := last.rate]
  }

  /**
   * `cache_latest_rates`: the cache is its old self overwritten with a result
   * of the latest-rate query. Every pair of the table then maps to the rate of
   * one of its latest rows; every other key keeps its old entry or its absence.
   */
  method CacheLatestRates(table: RatesTable, cache: Cache)
    modifies cache
    ensures exists records :: IsLatestRates(table.rows, records)
                              && cache.entries == Published(old(cache.entries), records)
    ensures cache.entries.Keys == old(cache.entries).Keys + Pairs(table.rows)
    ensures forall p :: p in Pairs(table.rows) ==>
              exists r :: IsLatestRow(table.rows, r) && r.pair == p && cache.entries[p] == r.rate
    ensures forall k :: k in old(cache.entries) && k !in Pairs(table.rows) ==>
              cache.entries[k] == old(cache.entries)[k]
  {
    var records := SelectLatest(table.rows);
    for i := 0 to |records|
      invariant cache.entries == Published(old(cache.entries), records[..i])
    {
      assert records[..i + 1][..i] == records[..i];
      cache.Set(records[i].pair, records[i].rate);
    }
    assert records[..|records|] == records;
    PublishedLatest(old(cache.entries), table.rows, records);
  }

  // ---------------------------------------------------------------------
  // What publishing promises about the cache.

  /** Publishing adds the records' pairs to the cache's keys and removes none. */
  lemma {:induction false} PublishedKeys(cache: map<string, real>, records: seq<Record>)
    ensures Published(cache, records).Keys == cache.Keys + RecordPairs(records)
  {
    if records != [] {
      var n := |records| - 1;
      PublishedKeys(cache, records[..n]);
      assert RecordPairs(records) == RecordPairs(records[..n]) + {records[n].pair} by {
        assert forall i :: 0 <= i < n ==> records[..n][i] == records[i];
      }
    }
  }

  /** A key no record names keeps its old entry. */
  lemma {:induction false} PublishedElsewhere(cache: map<string, real>, records: seq<Record>, key: string)
    requires key in cache && key !in RecordPairs(records)
    ensures key in Published(cache, records) && Published(cache, records)[key] == cache[key]
  {
    if records != [] {
      var n := |records| - 1;
      assert forall i :: 0 <= i < n ==> records[..n][i] == records[i];
      PublishedElsewhere(cache, records[..n], key);
    }
  }

  /** When the records name distinct pairs, each pair ends up with its record's rate. */
  lemma {:induction false} PublishedValue(cache: map<string, real>, records: seq<Record>, i: nat)
    requires DistinctPairs(records) && i < |records|
    ensures records[i].pair in Published(cache, records)
    ensures Published(cache, records)[records[i].pair] == records[i].rate
  {
    var n := |records| - 1;
    if i < n {
      assert records[..n][i] == records[i];
      PublishedValue(cache, records[..n], i);
    }
  }

  /** The pairs of a latest-rate result are exactly the pairs of the table. */
  lemma LatestRatesPairs(rows: seq<Row>, records: seq<Record>)
    requires IsLatestRates(rows, records)
    ensures RecordPairs(records) == Pairs(rows)
  {
    forall p | p in RecordPairs(records) ensures p in Pairs(rows) {
      var i :| 0 <= i < |records| && records[i].pair == p;
      var r :| IsLatestRow(rows, r) && r.pair == records[i].pair && r.rate == records[i].rate;
    }
  }

  /** The rate a published latest-rate result stores for a pair of the table is that of a latest row of the pair. */
  lemma PublishedRate(cache: map<string, real>, rows: seq<Row>, records: seq<Record>, p: string) returns (r: Row)
    requires IsLatestRates(rows, records) && p in Pairs(rows)
    ensures IsLatestRow(rows, r) && r.pair == p
    ensures p in Published(cache, records) && Published(cache, records)[p] == r.rate
  {
    var i :| 0 <= i < |records| && records[i].pair == p;
    PublishedValue(cache, records, i);
    r :| IsLatestRow(rows, r) && r.pair == records[i].pair && r.rate == records[i].rate;
  }

  /** A row later than every other row of its pair is the one whose rate is published. */
  lemma PublishedUniqueLatest(cache: map<string, real>, rows: seq<Row>, records: seq<Record>, r: Row)
    requires IsLatestRates(rows, records) && r in rows
    requires forall s :: s in rows && s.pair == r.pair && s != r ==> s.validUntil < r.validUntil
    ensures r.pair in Published(cache, records) && Published(cache, records)[r.pair] == r.rate
  {
    var i :| 0 <= i < |rows| && rows[i] == r;
    assert r.pair in Pairs(rows);
    var latest := PublishedRate(cache, rows, records, r.pair);
    assert latest == r;
  }

  /**
   * Publishing a latest-rate result: every pair of the table maps to the rate
   * of a latest row of that pair (`(USD, 1, 1.0)` and `(USD, 2, 1.05)` give
   * 1.05), and every other key keeps its old entry or its absence.
   */
  lemma PublishedLatest(cache: map<string, real>, rows: seq<Row>, records: seq<Record>)
    requires IsLatestRates(rows, records)
    ensures Published(cache, records).Keys == cache.Keys + Pairs(rows)
    ensures forall p :: p in Pairs(rows) ==>
              exists r :: IsLatestRow(rows, r) && r.pair == p && Published(cache, records)[p] == r.rate
    ensures forall k :: k in cache && k !in Pairs(rows) ==> Published(cache, records)[k] == cache[k]
  {
    PublishedKeys(cache, records);
    LatestRatesPairs(rows, records);
    forall p | p in Pairs(rows)
      ensures exists r :: IsLatestRow(rows, r) && r.pair == p && Published(cache, records)[p] == r.rate
    {
      var r := PublishedRate(cache, rows, records, p);
    }
    forall k | k in cache && k !in Pairs(rows)
      ensures Published(cache, records)[k] == cache[k]
    {
      PublishedElsewhere(cache, records, k);
    }
  }

  /** Publishing the same records twice leaves the cache as publishing them once. */
  lemma PublishedIdempotent(cache: map<string, real>, records: seq<Record>)
    requires DistinctPairs(records)
    ensures Published(Published(cache, records), records) == Published(cache, records)
  {
    var once := Published(cache, records);
    var twice := Published(once, records);
    PublishedKeys(cache, records);
    PublishedKeys(once, records);
    forall k | k in twice ensures twice[k] == once[k] {
      if k in RecordPairs(records) {
        var i :| 0 <= i < |records| && records[i].pair == k;
        PublishedValue(cache, records, i);
        PublishedValue(once, records, i);
      } else {
        PublishedElsewhere(once, records, k);
      }
    }
  }

  /**
   * Re-running the publisher with no new rows leaves the cache as it was,
   * whichever latest-rate results the two runs get, provided rows that tie on
   * pair and `valid_until` agree on the rate.
   */
  lemma RepublishStable(cache: map<string, real>, rows: seq<Row>, first: seq<Record>, second: seq<Record>)
    requires IsLatestRates(rows, first) && IsLatestRates(rows, second) && TiesAgree(rows)
    ensures Published(Published(cache, first), second) == Published(cache, first)
  {
    var once := Published(cache, first);
    var twice := Published(once, second);
    RepublishKeys(cache, rows, first, second);
    forall k | k in twice ensures twice[k] == once[k] {
      RepublishKey(cache, rows, first, second, k);
    }
  }

  /** A second run adds no key to the cache. */
  lemma RepublishKeys(cache: map<string, real>, rows: seq<Row>, first: seq<Record>, second: seq<Record>)
    requires IsLatestRates(rows, first) && IsLatestRates(rows, second)
    ensures Published(Published(cache, first), second).Keys == Published(cache, first).Keys
  {
    PublishedKeys(cache, first);
    PublishedKeys(Published(cache, first), second);
    LatestRatesPairs(rows, first);
    LatestRatesPairs(rows, second);
  }

  /** A second run leaves every key of the cache with its value, when tied rows agree. */
  lemma RepublishKey(cache: map<string, real>, rows: seq<Row>, first: seq<Record>, second: seq<Record>, k: string)
    requires IsLatestRates(rows, first) && IsLatestRates(rows, second) && TiesAgree(rows)
    requires k in Published(cache, first)
    ensures k in Published(Published(cache, first), second)
    ensures Published(Published(cache, first), second)[k] == Published(cache, first)[k]
  {
    RepublishKeys(cache, rows, first, second);
    if k in Pairs(rows) {
      RepublishPair(cache, rows, first, second, k);
    } else {
      LatestRatesPairs(rows, second);
      PublishedElsewhere(Published(cache, first), second, k);
    }
  }

  /** A pair of the table gets the same rate from two runs when tied rows agree. */
  lemma RepublishPair(cache: map<string, real>, rows: seq<Row>, first: seq<Record>, second: seq<Record>, p: string)
    requires IsLatestRates(rows, first) && IsLatestRates(rows, second) && TiesAgree(rows)
    requires p in Pairs(rows)
    ensures p in Published(cache, first) && p in Published(Published(cache, first), second)
    ensures Published(Published(cache, first), second)[p] == Published(cache, first)[p]
  {
    var r := PublishedRate(cache, rows, first, p);
    var s := PublishedRate(Published(cache, first), rows, second, p);
    assert r.validUntil == s.validUntil;
  }

  /** Inserting the same rows a second time creates no tie that disagrees. */
  lemma RepeatedRowsAgree(rows: seq<Row>, added: seq<Row>)
    requires TiesAgree(rows + added)
    ensures TiesAgree(rows + added + added)
  {
    forall r | r in rows + added + added ensures r in rows + added {
    }
  }

  /** A latest-rate result for a table is one for every table holding the same rows. */
  lemma LatestRatesSameRows(rows: seq<Row>, more: seq<Row>, records: seq<Record>)
    requires forall r :: r in more <==> r in rows
    requires IsLatestRates(more, records)
    ensures IsLatestRates(rows, records)
  {
    forall p | p in Pairs(rows) ensures p in Pairs(more) {
      var i :| 0 <= i < |rows| && rows[i].pair == p;
      assert rows[i] in rows;
      var k :| 0 <= k < |more| && more[k] == rows[i];
    }
    forall i | 0 <= i < |records| ensures IsLatestRecord(rows, records[i]) {
      assert IsLatestRecord(more, records[i]);
      var r :| IsLatestRow(more, r) && r.pair == records[i].pair && r.rate == records[i].rate;
      forall s | s in rows && s.pair == r.pair ensures s.validUntil <= r.validUntil {
        assert s in more;
      }
      assert IsLatestRow(rows, r);
    }
  }

  /**
   * `get_rates` run twice on one response, with the publisher run after each:
   * the second publish leaves the cache as the first left it, whenever the
   * table after the first run has no disagreeing ties.
   */
  lemma RerunRepublishStable(cache: map<string, real>, rows: seq<Row>, added: seq<Row>,
                             first: seq<Record>, second: seq<Record>)
    requires TiesAgree(rows + added)
    requires IsLatestRates(rows + added, first)
    requires IsLatestRates(rows + added + added, second)
    ensures Published(Published(cache, first), second) == Published(cache, first)
  {
    forall r ensures r in rows + added + added <==> r in rows + added {
    }
    LatestRatesSameRows(rows + added, rows + added + added, second);
    RepublishStable(cache, rows + added, first, second);
  }
}
