/** What one collection cycle does and does not do to the registry. */
module CycleProperties {
  import opened Strings
  import opened Gauges
  import opened Collector

  /** A series changes (appears, or takes a different value) only when its
      labels are a configured exchange and pair whose market the snapshot
      quotes; and no series ever disappears. */
  lemma OnlyQuotedMarketsChange(series: map<SeriesKey, Float64>, exchanges: string, pairs: string,
                                fetched: FetchResult, parse: Parser, now: Float64, k: SeriesKey)
    ensures k in series ==> k in CycleResult(series, exchanges, pairs, fetched, parse, now)
    ensures var r := CycleResult(series, exchanges, pairs, fetched, parse, now);
      k in r && (k !in series || r[k] != series[k]) ==>
        k.exchange in Split(exchanges, ',') && k.pair in Split(pairs, ',')
        && MarketKey(k.exchange, k.pair) in fetched.summaries
  {
    UpdatesAt(Split(exchanges, ','), Split(pairs, ','), fetched.summaries, parse, now, k);
  }

  /** A market whose key the snapshot lacks has none of its six series
      created or modified by the cycle. */
  lemma AbsentMarketUntouched(series: map<SeriesKey, Float64>, exchanges: string, pairs: string,
                              fetched: FetchResult, parse: Parser, now: Float64,
                              exchange: string, pair: string, m: Metric)
    requires MarketKey(exchange, pair) !in fetched.summaries
    ensures var r := CycleResult(series, exchanges, pairs, fetched, parse, now);
      var k := SeriesKey(m, exchange, pair);
      (k in r <==> k in series) && (k in series ==> r[k] == series[k])
  {
    UpdatesAt(Split(exchanges, ','), Split(pairs, ','), fetched.summaries, parse, now, SeriesKey(m, exchange, pair));
  }

  /** A configured market the snapshot quotes has all six series set: five to
      the parser's value for their own field (whether or not the parser
      reported an error) and the sixth to the cycle timestamp. */
  lemma QuotedMarketUpdated(series: map<SeriesKey, Float64>, exchanges: string, pairs: string,
                            fetched: FetchResult, parse: Parser, now: Float64,
                            exchange: string, pair: string)
    requires exchange in Split(exchanges, ',') && pair in Split(pairs, ',')
    requires MarketKey(exchange, pair) in fetched.summaries
    ensures var r := CycleResult(series, exchanges, pairs, fetched, parse, now);
      var s := fetched.summaries[MarketKey(exchange, pair)];
      && SeriesKey(Last, exchange, pair) in r && r[SeriesKey(Last, exchange, pair)] == parse(s.last).value
      && SeriesKey(High24, exchange, pair) in r && r[SeriesKey(High24, exchange, pair)] == parse(s.high).value
      && SeriesKey(Low24, exchange, pair) in r && r[SeriesKey(Low24, exchange, pair)] == parse(s.low).value
      && SeriesKey(ChangeAbsolute, exchange, pair) in r
      && r[SeriesKey(ChangeAbsolute, exchange, pair)] == parse(s.changeAbsolute).value
      && SeriesKey(ChangePercent, exchange, pair) in r
      && r[SeriesKey(ChangePercent, exchange, pair)] == parse(s.changePercent).value
      && SeriesKey(LastUpdate, exchange, pair) in r && r[SeriesKey(LastUpdate, exchange, pair)] == now
  {
    forall m | m in AllMetrics
      ensures var u := Updates(Split(exchanges, ','), Split(pairs, ','), fetched.summaries, parse, now);
        SeriesKey(m, exchange, pair) in u
        && u[SeriesKey(m, exchange, pair)] == Reading(m, fetched.summaries[MarketKey(exchange, pair)], parse, now)
    {
      UpdatesAt(Split(exchanges, ','), Split(pairs, ','), fetched.summaries, parse, now, SeriesKey(m, exchange, pair));
    }
  }

  /** A reading uses only the value the parser returns. */
  lemma ReadingUsesParsedValue(m: Metric, s: Summary, parse: Parser, parse': Parser, now: Float64)
    requires forall text :: parse(text).value == parse'(text).value
    ensures Reading(m, s, parse, now) == Reading(m, s, parse', now)
  {
    match m
    case Last => assert parse(s.last).value == parse'(s.last).value;
    case High24 => assert parse(s.high).value == parse'(s.high).value;
    case Low24 => assert parse(s.low).value == parse'(s.low).value;
    case ChangeAbsolute => assert parse(s.changeAbsolute).value == parse'(s.changeAbsolute).value;
    case ChangePercent => assert parse(s.changePercent).value == parse'(s.changePercent).value;
    case LastUpdate =>
  }

  /** The write a cycle makes to series `k` uses only the values the parser
      returns. */
  lemma UpdateUsesParsedValue(exchanges: seq<string>, pairs: seq<string>, snapshot: map<string, Summary>,
                              parse: Parser, parse': Parser, now: Float64, k: SeriesKey)
    requires forall text :: parse(text).value == parse'(text).value
    ensures (k in Updates(exchanges, pairs, snapshot, parse, now)) == (k in Updates(exchanges, pairs, snapshot, parse', now))
    ensures k in Updates(exchanges, pairs, snapshot, parse, now) ==>
      Updates(exchanges, pairs, snapshot, parse, now)[k] == Updates(exchanges, pairs, snapshot, parse', now)[k]
  {
    UpdatesAt(exchanges, pairs, snapshot, parse, now, k);
    UpdatesAt(exchanges, pairs, snapshot, parse', now, k);
    if k in Updates(exchanges, pairs, snapshot, parse, now) {
      ReadingUsesParsedValue(k.metric, snapshot[MarketKey(k.exchange, k.pair)], parse, parse', now);
    }
  }

  /** Parse errors are discarded: two parsers that return the same values
      give the same registry, whatever errors each of them reports. */
  lemma ParseErrorsIgnored(series: map<SeriesKey, Float64>, exchanges: string, pairs: string,
                           fetched: FetchResult, parse: Parser, parse': Parser, now: Float64)
    requires forall text :: parse(text).value == parse'(text).value
    ensures CycleResult(series, exchanges, pairs, fetched, parse, now)
         == CycleResult(series, exchanges, pairs, fetched, parse', now)
  {
    var exs, prs := Split(exchanges, ','), Split(pairs, ',');
    var u := Updates(exs, prs, fetched.summaries, parse, now);
    var u' := Updates(exs, prs, fetched.summaries, parse', now);
    forall k
      ensures (k in u) == (k in u')
      ensures k in u ==> u[k] == u'[k]
    {
      UpdateUsesParsedValue(exs, prs, fetched.summaries, parse, parse', now, k);
    }
    assert u == u';
  }

  /** The summary field a metric is read from agrees in `s` and `s'` (the
      last-update gauge reads no field). */
  predicate SameField(m: Metric, s: Summary, s': Summary)
  {
    match m
    case Last => s.last == s'.last
    case High24 => s.high == s'.high
    case Low24 => s.low == s'.low
    case ChangeAbsolute => s.changeAbsolute == s'.changeAbsolute
    case ChangePercent => s.changePercent == s'.changePercent
    case LastUpdate => true
  }

  /** Each gauge depends on its own field only: two snapshots quoting the same
      markets, whose summaries agree on metric `m`'s field, leave every series
      of `m` in the same state, however the other fields differ (one of them
      failing to parse, say). */
  lemma FieldsAreIsolated(series: map<SeriesKey, Float64>, exchanges: string, pairs: string,
                          snapshot: map<string, Summary>, snapshot': map<string, Summary>,
                          parse: Parser, now: Float64, k: SeriesKey)
    requires snapshot.Keys == snapshot'.Keys
    requires forall key | key in snapshot :: SameField(k.metric, snapshot[key], snapshot'[key])
    ensures var r := CycleResult(series, exchanges, pairs, FetchResult(snapshot, false), parse, now);
      var r' := CycleResult(series, exchanges, pairs, FetchResult(snapshot', false), parse, now);
      (k in r <==> k in r') && (k in r ==> r[k] == r'[k])
  {
    var exs, prs := Split(exchanges, ','), Split(pairs, ',');
    UpdatesAt(exs, prs, snapshot, parse, now, k);
    UpdatesAt(exs, prs, snapshot', parse, now, k);
    var key := MarketKey(k.exchange, k.pair);
    if key in snapshot {
      assert SameField(k.metric, snapshot[key], snapshot'[key]);
      match k.metric
      case Last =>
      case High24 =>
      case Low24 =>
      case ChangeAbsolute =>
      case ChangePercent =>
      case LastUpdate =>
    }
  }

  /** A failed fetch is only logged: the registry depends on the returned map
      alone, and the empty (nil) map a failed fetch returns changes nothing. */
  lemma FetchErrorOnlyLogged(series: map<SeriesKey, Float64>, exchanges: string, pairs: string,
                             fetched: FetchResult, parse: Parser, now: Float64)
    ensures CycleResult(series, exchanges, pairs, fetched, parse, now)
         == CycleResult(series, exchanges, pairs, FetchResult(fetched.summaries, false), parse, now)
    ensures fetched.summaries == map[] ==> CycleResult(series, exchanges, pairs, fetched, parse, now) == series
  {
    if fetched.summaries == map[] {
      var u := Updates(Split(exchanges, ','), Split(pairs, ','), fetched.summaries, parse, now);
      forall k ensures k !in u {
        UpdatesAt(Split(exchanges, ','), Split(pairs, ','), fetched.summaries, parse, now, k);
      }
      assert u == map[];
    }
  }

  /** The pieces of the example configuration. */
  lemma ExampleConfiguration()
    ensures Split("kraken,bitstamp", ',') == ["kraken", "bitstamp"] && Split("btcusd", ',') == ["btcusd"]
  {
    assert Join(["kraken", "bitstamp"], ',') == "kraken,bitstamp";
    SplitJoin(["kraken", "bitstamp"], ',');
    SplitWithoutSeparator("btcusd", ',');
  }

  /** The snapshot keys of the example markets. */
  lemma ExampleKeys()
    ensures MarketKey("kraken", "btcusd") == "kraken:btcusd"
    ensures MarketKey("bitstamp", "btcusd") != "kraken:btcusd"
  {
    assert MarketKey("bitstamp", "btcusd")[0] == 'b';
  }

  /** Exchanges "kraken,bitstamp", pair "btcusd" (any configuration strings
      with those pieces, which ExampleConfiguration shows these two literals
      are), and a snapshot quoting only kraken:btcusd with last price
      "50000.5": starting from an empty
      registry, kraken/btcusd's last-price series holds the parsed price and no
      bitstamp/btcusd series exists. */
  lemma TwoExchangesOneQuoted(exchanges: string, pairs: string, snapshot: map<string, Summary>,
                              parse: Parser, now: Float64, m: Metric)
    requires Split(exchanges, ',') == ["kraken", "bitstamp"] && Split(pairs, ',') == ["btcusd"]
    requires snapshot.Keys == {"kraken:btcusd"} && snapshot["kraken:btcusd"].last == "50000.5"
    ensures var r := CycleResult(map[], exchanges, pairs, FetchResult(snapshot, false), parse, now);
      && SeriesKey(Last, "kraken", "btcusd") in r
      && r[SeriesKey(Last, "kraken", "btcusd")] == parse("50000.5").value
      && SeriesKey(m, "bitstamp", "btcusd") !in r
  {
    var fetched := FetchResult(snapshot, false);
    var r := CycleResult(map[], exchanges, pairs, fetched, parse, now);
    ExampleKeys();
    assert SeriesKey(Last, "kraken", "btcusd") in r && r[SeriesKey(Last, "kraken", "btcusd")] == parse("50000.5").value by {
      QuotedMarketUpdated(map[], exchanges, pairs, fetched, parse, now, "kraken", "btcusd");
    }
    assert SeriesKey(m, "bitstamp", "btcusd") !in r by {
      AbsentMarketUntouched(map[], exchanges, pairs, fetched, parse, now, "bitstamp", "btcusd", m);
    }
  }

  /** The market key is not injective: a colon inside a label lets two
      different (exchange, pair) label pairs share one snapshot key. */
  lemma MarketKeyCollides()
    ensures ("a:b", "c") != ("a", "b:c") && MarketKey("a:b", "c") == MarketKey("a", "b:c")
  {
    assert MarketKey("a:b", "c") == "a:b:c" == MarketKey("a", "b:c");
  }

  /** The first character of a market key. */
  lemma MarketKeyHead(exchange: string, pair: string)
    ensures MarketKey(exchange, pair)[0] == if exchange == [] then ':' else exchange[0]
    ensures exchange == [] ==> MarketKey(exchange, pair)[1..] == pair
    ensures exchange != [] ==> MarketKey(exchange, pair)[1..] == MarketKey(exchange[1..], pair)
  {
  }

  /** Without a colon in the exchange, the key determines the labels. */
  lemma {:induction false} MarketKeyInjective(exchange: string, pair: string, exchange': string, pair': string)
    requires ':' !in exchange && ':' !in exchange'
    requires MarketKey(exchange, pair) == MarketKey(exchange', pair')
    ensures exchange == exchange' && pair == pair'
    decreases |exchange|
  {
    MarketKeyHead(exchange, pair);
    MarketKeyHead(exchange', pair');
    if exchange == [] || exchange' == [] {
      assert exchange == [] && exchange' == [];
    } else {
      MarketKeyInjective(exchange[1..], pair, exchange'[1..], pair');
      assert exchange == [exchange[0]] + exchange[1..];
      assert exchange' == [exchange'[0]] + exchange'[1..];
    }
  }
}
