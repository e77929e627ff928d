/**
 * The `get_rates` task: read the parsed response of the rate provider,
 * coerce, normalise and validate each quoted rate, and append one row per
 * accepted quote to the `rates` table.
 */
module Ingest {
  import opened Wrappers
  import opened PyStr
  import opened Rates

  /**
   * A value of the parsed JSON response. `Container` stands for an array or
   * an object, which Python's `float()` refuses.
   */
  datatype Raw = Null | Bool(b: bool) | Number(x: real) | Text(s: string) | Container

  /** How `float()` reads a string: `None` where it raises `ValueError`. */
  type FloatParser = string -> Option<real>

  /** Python `float(v)` on a JSON value; `None` where it raises. */
  function Float(parse: FloatParser, v: Raw): Option<real> {
    match v
    case Null => None
    case Bool(b) => Some(if b then 1.0 else 0.0)
    case Number(x) => Some(x)
    case Text(s) => parse(s)
    case Container => None
  }

  /**
   * The pairs the database supports, in the order of the source's tuple;
   * any other code is ignored. The table is written as blocks of twenty so
   * that the verifier can unfold each block on its own.
   */
  const ValidPairs: seq<string> :=
    PairsBlock0 + PairsBlock1 + PairsBlock2 + PairsBlock3 + PairsBlock4 + PairsBlock5 + PairsBlock6 + PairsBlock7 + PairsBlock8

  const PairsBlock0: seq<string> := [
    "AED", "AFN", "ALL", "AMD", "ANG", "AOA", "ARS", "AUD", "AWG", "AZN",
    "BAM", "BBD", "BDT", "BGN", "BHD", "BIF", "BMD", "BND", "BOB", "BRL"]
  const PairsBlock1: seq<string> := [
    "BSD", "BTC", "BTN", "BWP", "BYN", "BYR", "BZD", "CAD", "CDF", "CHF",
    "CLF", "CLP", "CNY", "COP", "CRC", "CUC", "CUP", "CVE", "CZK", "DJF"]
  const PairsBlock2: seq<string> := [
    "DKK", "DOP", "DZD", "EEK", "EGP", "ERN", "ETB", "EUR", "FJD", "FKP",
    "GBP", "GEL", "GGP", "GHS", "GIP", "GMD", "GNF", "GTQ", "GYD", "HKD"]
  const PairsBlock3: seq<string> := [
    "HNL", "HRK", "HTG", "HUF", "IDR", "ILS", "IMP", "INR", "IQD", "IRR",
    "ISK", "JEP", "JMD", "JOD", "JPY", "KES", "KGS", "KHR", "KMF", "KPW"]
  const PairsBlock4: seq<string> := [
    "KRW", "KWD", "KYD", "KZT", "LAK", "LBP", "LKR", "LRD", "LSL", "LTL",
    "LVL", "LYD", "MAD", "MDL", "MGA", "MKD", "MMK", "MNT", "MOP", "MRO"]
  const PairsBlock5: seq<string> := [
    "MTL", "MUR", "MVR", "MWK", "MXN", "MYR", "MZN", "NAD", "NGN", "NIO",
    "NOK", "NPR", "NZD", "OMR", "PAB", "PEN", "PGK", "PHP", "PKR", "PLN"]
  const PairsBlock6: seq<string> := [
    "PYG", "QAR", "RON", "RSD", "RUB", "RWF", "SAR", "SBD", "SCR", "SDG",
    "SEK", "SGD", "SHP", "SLL", "SOS", "SRD", "STD", "SVC", "SYP", "SZL"]
  const PairsBlock7: seq<string> := [
    "THB", "TJS", "TMT", "TND", "TOP", "TRY", "TTD", "TWD", "TZS", "UAH",
    "UGX", "USD", "UYU", "UZS", "VEF", "VND", "VUV", "WST", "XAF", "XAG"]
  const PairsBlock8: seq<string> := [
    "XAU", "XCD", "XDR", "XOF", "XPD", "XPF", "XPT", "YER", "ZAR", "ZMK",
    "ZMW", "ZWL"]

  /** A currency code: three upper-case ASCII letters. */
  predicate IsCode(p: string) {
    |p| == 3 && IsCapital(p[0]) && IsCapital(p[1]) && IsCapital(p[2])
  }

  predicate IsCapital(c: char) {
    'A' <= c <= 'Z'
  }

  /** `iso2.upper().strip()` */
  function Normalize(key: string): string {
    Strip(Upper(key))
  }

  /** One `(currency code, raw rate)` item of `resp['rates'].items()`. */
  type Item = (string, Raw)

  /**
   * The parsed response. `timestamp` is `None` when the key is missing or
   * `datetime.fromtimestamp` refuses its value; `rates` is `None` when the
   * key is missing.
   */
  datatype Response = Response(timestamp: Option<int>, rates: Option<seq<Item>>)

  /** The exceptions that fail the whole run and reach the scheduler. */
  datatype RunError = MissingTimestamp | MissingRates

  datatype Outcome = Done | Failed(error: RunError)

  /*
   * The functions below take the table of supported pairs as a parameter,
   * `supported`; `get_rates` passes `ValidPairs`. Keeping the 172 literal
   * codes out of the general lemmas keeps their proofs small.
   */

  /** The rows one loop iteration inserts: none when it reaches a `continue`. */
  function Admit(parse: FloatParser, supported: seq<string>, item: Item, validUntil: int): seq<Row> {
    match Float(parse, item.1)
    case None => []
    case Some(rate) =>
      var pair := Normalize(item.0);
      if pair !in supported || rate < 0.0 then [] else [Row(pair, validUntil, rate)]
  }

  /** The rows the loop over `items` inserts, in order. */
  function Ingested(parse: FloatParser, supported: seq<string>, items: seq<Item>, validUntil: int): seq<Row> {
    if items == [] then []
    else Ingested(parse, supported, items[..|items| - 1], validUntil)
         + Admit(parse, supported, items[|items| - 1], validUntil)
  }

  /** True of an item the loop keeps: its rate coerces, its code is supported and its rate is not negative. */
  predicate Accepted(parse: FloatParser, supported: seq<string>, item: Item) {
    && Float(parse, item.1).Some?
    && Normalize(item.0) in supported
    && Float(parse, item.1).value >= 0.0
  }

  /** True when `item` is accepted and its coerced rate and normalised code are `row`'s rate and pair. */
  predicate Yields(parse: FloatParser, supported: seq<string>, item: Item, row: Row) {
    && Accepted(parse, supported, item)
    && Float(parse, item.1).value == row.rate
    && Normalize(item.0) == row.pair
  }

  /**
   * `get_rates`: fails before inserting anything when the timestamp or the
   * rates are missing; otherwise appends the rows of the accepted items, all
   * with the one `valid_until` taken from the timestamp.
   */
  method GetRates(resp: Response, parse: FloatParser, table: RatesTable) returns (outcome: Outcome)
    modifies table
    ensures resp.timestamp.None? ==> outcome == Failed(MissingTimestamp)
    ensures resp.timestamp.Some? && resp.rates.None? ==> outcome == Failed(MissingRates)
    ensures outcome.Failed? ==> table.rows == old(table.rows)
    ensures resp.timestamp.Some? && resp.rates.Some? ==>
              && outcome == Done
              && table.rows == old(table.rows)
                               + Ingested(parse, ValidPairs, resp.rates.value, resp.timestamp.value)
  {
    if resp.timestamp.None? {
      return Failed(MissingTimestamp);
    }
    var validUntil := resp.timestamp.value;
    if resp.rates.None? {
      return Failed(MissingRates);
    }
    var items := resp.rates.value;
    for i := 0 to |items|
      invariant table.rows == old(table.rows) + Ingested(parse, ValidPairs, items[..i], validUntil)
    {
      assert items[..i + 1][..i] == items[..i];
      var (iso2, raw) := items[i];
      var rate := Float(parse, raw);
      if rate.None? {
        continue;
      }
      var pair := Normalize(iso2);
      if pair !in ValidPairs || rate.value < 0.0 {
        assert Admit(parse, ValidPairs, items[i], validUntil) == [];
        continue;
      }
      assert Admit(parse, ValidPairs, items[i], validUntil) == [Row(pair, validUntil, rate.value)];
      table.Insert(Row(pair, validUntil, rate.value));
    }
    assert items[..|items|] == items;
    return Done;
  }

  /** Running `get_rates` twice on one response stores its rows twice: nothing is deduplicated. */
  method GetRatesTwice(resp: Response, parse: FloatParser, table: RatesTable)
    returns (first: Outcome, second: Outcome)
    modifies table
    ensures first == second
    ensures first.Failed? ==> table.rows == old(table.rows)
    ensures resp.timestamp.Some? && resp.rates.Some? ==>
              var added := Ingested(parse, ValidPairs, resp.rates.value, resp.timestamp.value);
              table.rows == old(table.rows) + added + added
  {
    first := GetRates(resp, parse, table);
    second := GetRates(resp, parse, table);
  }

  // ---------------------------------------------------------------------
  // What the ingestor promises about the rows it inserts.

  /** Every currency code the database supports is three upper-case letters. */
  lemma ValidPairsAreCodes()
    ensures forall p :: p in ValidPairs ==> IsCode(p)
  {
    PairsBlock0AreCodes(); PairsBlock1AreCodes(); PairsBlock2AreCodes();
    PairsBlock3AreCodes(); PairsBlock4AreCodes(); PairsBlock5AreCodes();
    PairsBlock6AreCodes(); PairsBlock7AreCodes(); PairsBlock8AreCodes();
  }

  lemma PairsBlock0AreCodes() ensures forall p :: p in PairsBlock0 ==> IsCode(p) { }
  lemma PairsBlock1AreCodes() ensures forall p :: p in PairsBlock1 ==> IsCode(p) { }
  lemma PairsBlock2AreCodes() ensures forall p :: p in PairsBlock2 ==> IsCode(p) { }
  lemma PairsBlock3AreCodes() ensures forall p :: p in PairsBlock3 ==> IsCode(p) { }
  lemma PairsBlock4AreCodes() ensures forall p :: p in PairsBlock4 ==> IsCode(p) { }
  lemma PairsBlock5AreCodes() ensures forall p :: p in PairsBlock5 ==> IsCode(p) { }
  lemma PairsBlock6AreCodes() ensures forall p :: p in PairsBlock6 ==> IsCode(p) { }
  lemma PairsBlock7AreCodes() ensures forall p :: p in PairsBlock7 ==> IsCode(p) { }
  lemma PairsBlock8AreCodes() ensures forall p :: p in PairsBlock8 ==> IsCode(p) { }

  /** Every inserted row has a supported pair, a rate that is not negative and the run's `valid_until`. */
  lemma {:induction false} IngestedRowsValid(parse: FloatParser, supported: seq<string>, items: seq<Item>, validUntil: int)
    ensures forall r :: r in Ingested(parse, supported, items, validUntil) ==>
              r.pair in supported && r.rate >= 0.0 && r.validUntil == validUntil
  {
    if items != [] {
      IngestedRowsValid(parse, supported, items[..|items| - 1], validUntil);
    }
  }

  /** With the source's table, every stored pair is a three-letter upper-case code. */
  lemma IngestedPairsAreCodes(parse: FloatParser, items: seq<Item>, validUntil: int)
    ensures forall r :: r in Ingested(parse, ValidPairs, items, validUntil) ==> IsCode(r.pair)
  {
    IngestedRowsValid(parse, ValidPairs, items, validUntil);
    ValidPairsAreCodes();
  }

  lemma AdmitMember(parse: FloatParser, supported: seq<string>, item: Item, validUntil: int, row: Row)
    ensures row in Admit(parse, supported, item, validUntil) <==>
              row.validUntil == validUntil && Yields(parse, supported, item, row)
  {
  }

  /** Every inserted row comes from an item that yields it, and carries the run's `valid_until`. */
  lemma {:induction false} IngestedFromItem(parse: FloatParser, supported: seq<string>, items: seq<Item>,
                                            validUntil: int, row: Row)
    requires row in Ingested(parse, supported, items, validUntil)
    ensures row.validUntil == validUntil
    ensures exists i :: 0 <= i < |items| && Yields(parse, supported, items[i], row)
  {
    var n := |items| - 1;
    AdmitMember(parse, supported, items[n], validUntil, row);
    if row !in Admit(parse, supported, items[n], validUntil) {
      IngestedFromItem(parse, supported, items[..n], validUntil, row);
      var i :| 0 <= i < n && Yields(parse, supported, items[..n][i], row);
      assert items[..n][i] == items[i];
    }
  }

  /** Every item that yields a row gets that row, with the run's `valid_until`, inserted. */
  lemma {:induction false} IngestedHasItem(parse: FloatParser, supported: seq<string>, items: seq<Item>,
                                           validUntil: int, row: Row, i: nat)
    requires i < |items| && Yields(parse, supported, items[i], row) && row.validUntil == validUntil
    ensures row in Ingested(parse, supported, items, validUntil)
  {
    var n := |items| - 1;
    if i < n {
      assert items[..n][i] == items[i];
      IngestedHasItem(parse, supported, items[..n], validUntil, row, i);
    } else {
      AdmitMember(parse, supported, items[n], validUntil, row);
    }
  }

  /**
   * A row is inserted exactly when some item yields its pair and rate, and
   * it carries the run's `valid_until`.
   */
  lemma IngestedMember(parse: FloatParser, supported: seq<string>, items: seq<Item>, validUntil: int, row: Row)
    ensures row in Ingested(parse, supported, items, validUntil) <==>
              && row.validUntil == validUntil
              && exists i :: 0 <= i < |items| && Yields(parse, supported, items[i], row)
  {
    if row in Ingested(parse, supported, items, validUntil) {
      IngestedFromItem(parse, supported, items, validUntil, row);
    }
    if row.validUntil == validUntil && exists i :: 0 <= i < |items| && Yields(parse, supported, items[i], row) {
      var i :| 0 <= i < |items| && Yields(parse, supported, items[i], row);
      IngestedHasItem(parse, supported, items, validUntil, row, i);
    }
  }

  /** The table grows by exactly one row per accepted item, and by none for a skipped one. */
  lemma {:induction false} IngestedAppendOne(parse: FloatParser, supported: seq<string>, items: seq<Item>,
                                             item: Item, validUntil: int)
    ensures Ingested(parse, supported, items + [item], validUntil) ==
              Ingested(parse, supported, items, validUntil)
              + (if Accepted(parse, supported, item)
                 then [Row(Normalize(item.0), validUntil, Float(parse, item.1).value)]
                 else [])
  {
    assert (items + [item])[..|items|] == items;
  }

  /** Ingesting two batches one after the other inserts the rows of each, in order. */
  lemma {:induction false} IngestedConcat(parse: FloatParser, supported: seq<string>, a: seq<Item>, b: seq<Item>,
                                          validUntil: int)
    ensures Ingested(parse, supported, a + b, validUntil)
            == Ingested(parse, supported, a, validUntil) + Ingested(parse, supported, b, validUntil)
  {
    if b == [] {
      assert a + b == a;
    } else {
      var n := |b| - 1;
      assert (a + b)[..|a + b| - 1] == a + b[..n];
      assert (a + b)[|a + b| - 1] == b[n];
      IngestedConcat(parse, supported, a, b[..n], validUntil);
    }
  }

  /**
   * A skipped item (its rate does not coerce, its code is not supported, or
   * its rate is negative) inserts nothing and stops nothing: the items after
   * it are ingested as if it were absent.
   */
  lemma RejectedItemSkipped(parse: FloatParser, supported: seq<string>, before: seq<Item>, item: Item,
                            after: seq<Item>, validUntil: int)
    requires !Accepted(parse, supported, item)
    ensures Ingested(parse, supported, before + [item] + after, validUntil)
            == Ingested(parse, supported, before + after, validUntil)
  {
    IngestedConcat(parse, supported, before + [item], after, validUntil);
    IngestedAppendOne(parse, supported, before, item, validUntil);
    IngestedConcat(parse, supported, before, after, validUntil);
  }

  /** Only the normalised code of a key matters: keys that normalise alike ingest alike. */
  lemma {:induction false} IngestedSeesNormalisedKeys(parse: FloatParser, supported: seq<string>,
                                                      a: seq<Item>, b: seq<Item>, validUntil: int)
    requires |a| == |b|
    requires forall i :: 0 <= i < |a| ==> Normalize(a[i].0) == Normalize(b[i].0) && a[i].1 == b[i].1
    ensures Ingested(parse, supported, a, validUntil) == Ingested(parse, supported, b, validUntil)
  {
    if a != [] {
      var n := |a| - 1;
      IngestedSeesNormalisedKeys(parse, supported, a[..n], b[..n], validUntil);
    }
  }

  /** Case and surrounding whitespace do not change a normalised code: `" usd "` and `"USD"` agree. */
  lemma NormalizeIgnoresCaseAndPadding(w1: string, u: string, w2: string, key: string)
    requires AllSpace(w1) && AllSpace(w2) && Upper(u) == Upper(key)
    ensures Normalize(w1 + u + w2) == Normalize(key)
  {
    UpperConcat(w1 + u, w2);
    UpperConcat(w1, u);
    UpperKeepsSpace(w1);
    UpperKeepsSpace(w2);
    StripIgnoresPadding(w1, Upper(u), w2);
  }

  /** A normalised code has no lower-case letter and no surrounding whitespace, so it normalises to itself. */
  lemma NormalizeIdempotent(key: string)
    ensures var n := Normalize(key);
            && (forall i :: 0 <= i < |n| ==> !IsLower(n[i]))
            && (n != [] ==> !IsSpace(n[0]) && !IsSpace(n[|n| - 1]))
            && Normalize(n) == n
  {
    var u := Upper(key);
    var n := Strip(u);
    UpperIdempotent(key);
    StripIsInfix(u);
    StripKeepsNoLower(u);
    UpperNoLower(n);
    StripUnpadded(n);
  }
}
