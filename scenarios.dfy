/**
 * Concrete runs of the two tasks: what one response of the rate provider
 * stores, and what the cache holds afterwards.
 */
module Scenarios {
  import opened Wrappers
  import opened PyStr
  import opened Rates
  import opened Ingest
  import opened Publish

  /** A code in lower case with padding is stored under its upper-case code. */
  lemma PaddedLowerCode()
    ensures Normalize(" usd ") == "USD"
  {
    assert Upper("usd") == Upper("USD") == "USD";
    NormalizeIgnoresCaseAndPadding(" ", "usd", " ", "USD");
    assert " " + "usd" + " " == " usd ";
    StripUnpadded("USD");
  }

  /** A code that is three letters but not in the supported table. */
  lemma UnsupportedCode()
    ensures "XXX" !in ValidPairs
  {
    XXXOutsideBlock0(); XXXOutsideBlock1(); XXXOutsideBlock2();
    XXXOutsideBlock3(); XXXOutsideBlock4(); XXXOutsideBlock5();
    XXXOutsideBlock6(); XXXOutsideBlock7(); XXXOutsideBlock8();
  }

  lemma XXXOutsideBlock0() ensures "XXX" !in PairsBlock0 { }
  lemma XXXOutsideBlock1() ensures "XXX" !in PairsBlock1 { }
  lemma XXXOutsideBlock2() ensures "XXX" !in PairsBlock2 { }
  lemma XXXOutsideBlock3() ensures "XXX" !in PairsBlock3 { }
  lemma XXXOutsideBlock4() ensures "XXX" !in PairsBlock4 { }
  lemma XXXOutsideBlock5() ensures "XXX" !in PairsBlock5 { }
  lemma XXXOutsideBlock6() ensures "XXX" !in PairsBlock6 { }
  lemma XXXOutsideBlock7() ensures "XXX" !in PairsBlock7 { }
  lemma XXXOutsideBlock8() ensures "XXX" !in PairsBlock8 { }

  /** Two codes of the supported table. */
  lemma SupportedCodes()
    ensures "USD" in ValidPairs && "EUR" in ValidPairs
  {
    assert "USD" in PairsBlock7;
    assert "EUR" in PairsBlock2;
  }

  const Stamp := 1700000000

  /** The codes of the scenarios below, normalised. */
  lemma ScenarioCodes()
    ensures Normalize("usd") == "USD" && Normalize("eur") == "EUR" && Normalize("xxx") == "XXX"
    ensures Normalize("USD") == "USD" && Normalize("EUR") == "EUR"
  {
    assert Upper("usd") == "USD" && Upper("eur") == "EUR" && Upper("xxx") == "XXX";
    assert Upper("USD") == "USD" && Upper("EUR") == "EUR";
    StripUnpadded("USD");
    StripUnpadded("EUR");
    StripUnpadded("XXX");
  }

  /** `{"usd": "1.00", "eur": 0.92, "xxx": 5.0, "jpy": "bad"}` */
  const MixedItems: seq<Item> := [("usd", Text("1.00")), ("eur", Number(0.92)), ("xxx", Number(5.0)), ("jpy", Text("bad"))]

  lemma MixedAcceptedPart(parse: FloatParser, supported: seq<string>, usd: string, eur: string)
    requires parse("1.00") == Some(1.0)
    requires "USD" in supported && "EUR" in supported
    requires Normalize(usd) == "USD" && Normalize(eur) == "EUR"
    ensures Ingested(parse, supported, [(usd, Text("1.00")), (eur, Number(0.92))], Stamp)
            == [Row("USD", Stamp, 1.0), Row("EUR", Stamp, 0.92)]
  {
    AcceptedLast(parse, supported, [], (usd, Text("1.00")), Row("USD", Stamp, 1.0));
    assert [] + [(usd, Text("1.00"))] == [(usd, Text("1.00"))];
    AcceptedLast(parse, supported, [(usd, Text("1.00"))], (eur, Number(0.92)), Row("EUR", Stamp, 0.92));
    assert [(usd, Text("1.00"))] + [(eur, Number(0.92))] == [(usd, Text("1.00")), (eur, Number(0.92))];
  }

  lemma MixedResponseIn(parse: FloatParser, supported: seq<string>, usd: string, eur: string, xxx: string, jpy: string)
    requires parse("1.00") == Some(1.0) && parse("bad") == None
    requires "USD" in supported && "EUR" in supported && "XXX" !in supported
    requires Normalize(usd) == "USD" && Normalize(eur) == "EUR" && Normalize(xxx) == "XXX"
    ensures Ingested(parse, supported, [(usd, Text("1.00")), (eur, Number(0.92)), (xxx, Number(5.0)), (jpy, Text("bad"))], Stamp)
            == [Row("USD", Stamp, 1.0), Row("EUR", Stamp, 0.92)]
  {
    var accepted := [(usd, Text("1.00")), (eur, Number(0.92))];
    MixedAcceptedPart(parse, supported, usd, eur);
    SkippedLast(parse, supported, accepted, (xxx, Number(5.0)));
    SkippedLast(parse, supported, accepted + [(xxx, Number(5.0))], (jpy, Text("bad")));
    assert accepted + [(xxx, Number(5.0))] + [(jpy, Text("bad"))]
           == [(usd, Text("1.00")), (eur, Number(0.92)), (xxx, Number(5.0)), (jpy, Text("bad"))];
  }

  /** An item the loop accepts adds its row after what the items before it stored. */
  lemma AcceptedLast(parse: FloatParser, supported: seq<string>, items: seq<Item>, item: Item, row: Row)
    requires Yields(parse, supported, item, row) && row.validUntil == Stamp
    ensures Ingested(parse, supported, items + [item], Stamp) == Ingested(parse, supported, items, Stamp) + [row]
  {
    IngestedAppendOne(parse, supported, items, item, Stamp);
  }

  /** An item the loop skips adds nothing to what the items before it stored. */
  lemma SkippedLast(parse: FloatParser, supported: seq<string>, items: seq<Item>, item: Item)
    requires !Accepted(parse, supported, item)
    ensures Ingested(parse, supported, items + [item], Stamp) == Ingested(parse, supported, items, Stamp)
  {
    IngestedAppendOne(parse, supported, items, item, Stamp);
  }

  /**
   * The mixed response: the string rate is coerced, the unsupported code and
   * the rate `float()` refuses are skipped, and the two remaining rows share
   * the run's `valid_until`.
   */
  lemma MixedResponse(parse: FloatParser)
    requires parse("1.00") == Some(1.0) && parse("bad") == None
    ensures Ingested(parse, ValidPairs, MixedItems, Stamp) == [Row("USD", Stamp, 1.0), Row("EUR", Stamp, 0.92)]
  {
    UnsupportedCode();
    SupportedCodes();
    ScenarioCodes();
    MixedResponseIn(parse, ValidPairs, "usd", "eur", "xxx", "jpy");
  }

  /** The pairs of a two-row table. */
  lemma PairsOfTwo(a: Row, b: Row)
    ensures Pairs([a, b]) == {a.pair, b.pair}
  {
    assert [a, b][0] == a && [a, b][1] == b;
  }

  /** A published latest-rate result has exactly the table's pairs as keys. */
  lemma PublishedPairsOfTwo(a: Row, b: Row, records: seq<Record>)
    requires IsLatestRates([a, b], records)
    ensures Published(map[], records).Keys == {a.pair, b.pair}
  {
    PublishedKeys(map[], records);
    LatestRatesPairs([a, b], records);
    PairsOfTwo(a, b);
  }

  /** Two rows of different pairs: publishing stores each one's rate. */
  lemma PublishTwoPairs(a: Row, b: Row, records: seq<Record>)
    requires a.pair != b.pair && IsLatestRates([a, b], records)
    ensures Published(map[], records) == map[a.pair := a.rate, b.pair := b.rate]
  {
    var m := Published(map[], records);
    PublishedPairsOfTwo(a, b, records);
    PairsOfTwo(a, b);
    var ra := PublishedRate(map[], [a, b], records, a.pair);
    var rb := PublishedRate(map[], [a, b], records, b.pair);
    assert ra == a && rb == b;
    MapOfTwo(m, a.pair, a.rate, b.pair, b.rate);
  }

  /** A map with two keys is the display of its two entries. */
  lemma MapOfTwo(m: map<string, real>, k1: string, v1: real, k2: string, v2: real)
    requires k1 != k2 && m.Keys == {k1, k2} && m[k1] == v1 && m[k2] == v2
    ensures m == map[k1 := v1, k2 := v2]
  {
    var expected := map[k1 := v1, k2 := v2];
    assert m.Keys == expected.Keys;
  }

  /** Two rows of one pair with different `valid_until`: publishing stores the later one's rate. */
  lemma PublishLaterRow(x: Row, y: Row, later: Row, records: seq<Record>)
    requires x.pair == y.pair && IsLatestRates([x, y], records)
    requires (later == x && y.validUntil < x.validUntil) || (later == y && x.validUntil < y.validUntil)
    ensures Published(map[], records) == map[later.pair := later.rate]
  {
    var m := Published(map[], records);
    PublishedPairsOfTwo(x, y, records);
    PublishedUniqueLatest(map[], [x, y], records, later);
    var expected := map[later.pair := later.rate];
    assert m.Keys == expected.Keys;
  }

  /** Publishing the rows of the mixed response to an empty cache stores both rates. */
  lemma MixedResponsePublished(records: seq<Record>)
    requires IsLatestRates([Row("USD", Stamp, 1.0), Row("EUR", Stamp, 0.92)], records)
    ensures Published(map[], records) == map["USD" := 1.0, "EUR" := 0.92]
  {
    PublishTwoPairs(Row("USD", Stamp, 1.0), Row("EUR", Stamp, 0.92), records);
  }

  /** `(USD, 1, 1.0)` and `(USD, 2, 1.05)`: the later row wins, whatever the insertion order. */
  lemma LaterRowWins(records: seq<Record>)
    requires IsLatestRates([Row("USD", 1, 1.0), Row("USD", 2, 1.05)], records)
             || IsLatestRates([Row("USD", 2, 1.05), Row("USD", 1, 1.0)], records)
    ensures Published(map[], records) == map["USD" := 1.05]
  {
    var a, b := Row("USD", 1, 1.0), Row("USD", 2, 1.05);
    if IsLatestRates([a, b], records) {
      PublishLaterRow(a, b, b, records);
    } else {
      PublishLaterRow(b, a, b, records);
    }
  }

  /** Either of two rows that tie on pair and `valid_until` is a latest row of its pair. */
  lemma TieEitherLatest(a: Row, b: Row)
    requires a.pair == b.pair && a.validUntil == b.validUntil
    ensures IsLatestRates([a, b], [Record(a.pair, a.rate)])
    ensures IsLatestRates([a, b], [Record(b.pair, b.rate)])
  {
    var rows := [a, b];
    assert IsLatestRow(rows, a) && IsLatestRow(rows, b);
    PairsOfTwo(a, b);
    assert [Record(a.pair, a.rate)][0].pair == a.pair && [Record(b.pair, b.rate)][0].pair == b.pair;
  }

  /** Rows that tie on pair and `valid_until` leave the choice between them open. */
  lemma TieLeavesChoiceOpen()
    ensures var rows := [Row("USD", 1, 1.0), Row("USD", 1, 2.0)];
            IsLatestRates(rows, [Record("USD", 1.0)]) && IsLatestRates(rows, [Record("USD", 2.0)])
            && !TiesAgree(rows)
  {
    var rows := [Row("USD", 1, 1.0), Row("USD", 1, 2.0)];
    TieEitherLatest(rows[0], rows[1]);
    assert !TiesAgree(rows) by {
      assert rows[0] in rows && rows[1] in rows;
    }
  }

  /** `{"usd": 1.0, "USD": 1.1}`: two keys that name one code. */
  const CollidingItems: seq<Item> := [("usd", Number(1.0)), ("USD", Number(1.1))]

  lemma CollidingKeysIn(parse: FloatParser, supported: seq<string>, lower: string, upper: string)
    requires "USD" in supported && Normalize(lower) == "USD" && Normalize(upper) == "USD"
    ensures Ingested(parse, supported, [(lower, Number(1.0)), (upper, Number(1.1))], Stamp)
            == [Row("USD", Stamp, 1.0), Row("USD", Stamp, 1.1)]
  {
    AcceptedLast(parse, supported, [], (lower, Number(1.0)), Row("USD", Stamp, 1.0));
    assert [] + [(lower, Number(1.0))] == [(lower, Number(1.0))];
    AcceptedLast(parse, supported, [(lower, Number(1.0))], (upper, Number(1.1)), Row("USD", Stamp, 1.1));
    assert [(lower, Number(1.0))] + [(upper, Number(1.1))] == [(lower, Number(1.0)), (upper, Number(1.1))];
  }

  /**
   * One response whose keys `"usd"` and `"USD"` name the same code stores two
   * rows with the same pair and `valid_until` but different rates.
   */
  lemma CollidingKeys(parse: FloatParser)
    ensures var rows := Ingested(parse, ValidPairs, CollidingItems, Stamp);
            rows == [Row("USD", Stamp, 1.0), Row("USD", Stamp, 1.1)] && !TiesAgree(rows)
  {
    SupportedCodes();
    ScenarioCodes();
    CollidingKeysIn(parse, ValidPairs, "usd", "USD");
    var rows := Ingested(parse, ValidPairs, CollidingItems, Stamp);
    assert rows[0] in rows && rows[1] in rows;
  }

  /** `{"EUR": 0, "GBP": -0.5, "JPY": null}` */
  const BoundaryItems: seq<Item> := [("EUR", Number(0.0)), ("GBP", Number(-0.5)), ("JPY", Null)]

  lemma RateBoundsIn(parse: FloatParser, supported: seq<string>, eur: string, gbp: string, jpy: string)
    requires "EUR" in supported && Normalize(eur) == "EUR"
    ensures Ingested(parse, supported, [(eur, Number(0.0)), (gbp, Number(-0.5)), (jpy, Null)], Stamp)
            == [Row("EUR", Stamp, 0.0)]
  {
    AcceptedLast(parse, supported, [], (eur, Number(0.0)), Row("EUR", Stamp, 0.0));
    assert [] + [(eur, Number(0.0))] == [(eur, Number(0.0))];
    SkippedLast(parse, supported, [(eur, Number(0.0))], (gbp, Number(-0.5)));
    SkippedLast(parse, supported, [(eur, Number(0.0)), (gbp, Number(-0.5))], (jpy, Null));
    assert [(eur, Number(0.0))] + [(gbp, Number(-0.5))] == [(eur, Number(0.0)), (gbp, Number(-0.5))];
    assert [(eur, Number(0.0)), (gbp, Number(-0.5))] + [(jpy, Null)] == [(eur, Number(0.0)), (gbp, Number(-0.5)), (jpy, Null)];
  }

  /** A zero rate is stored; a negative one, and a quote of `null`, are skipped. */
  lemma RateBounds(parse: FloatParser)
    ensures Ingested(parse, ValidPairs, BoundaryItems, Stamp) == [Row("EUR", Stamp, 0.0)]
  {
    SupportedCodes();
    ScenarioCodes();
    RateBoundsIn(parse, ValidPairs, "EUR", "GBP", "JPY");
  }
}
