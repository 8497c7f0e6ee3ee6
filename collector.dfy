/** One collection cycle of the exporter: split the configured exchange and
    pair lists, walk their cross product, and for every market the fetched
    snapshot quotes overwrite its six gauge series. */
module Collector {
  import opened Strings
  import opened Gauges

  /** The summary fields of one market that the cycle reads, each a decimal
      string as the provider sends it. */
  datatype Summary = Summary(last: string, high: string, low: string,
                             changeAbsolute: string, changePercent: string)

  /** What strconv.ParseFloat(s, 64) returns: a value, and whether it also
      reported an error.  On an error the value is still defined (zero for
      malformed input, an infinity for an out-of-range one). */
  datatype ParseOutcome = ParseOutcome(value: Float64, failed: bool)

  /** The float parser, left uninterpreted. */
  type Parser = string -> ParseOutcome

  /** What the market-data fetch returned: the snapshot map (empty, the nil
      map, after a failed fetch) and whether an error was reported. */
  datatype FetchResult = FetchResult(summaries: map<string, Summary>, failed: bool)

  /** The snapshot key of a market: exchange, a colon, pair. */
  function MarketKey(exchange: string, pair: string): string
  {
    exchange + ":" + pair
  }

  /** The value the cycle writes into `metric`'s series for a market with
      summary `s`; the cycle timestamp for the last-update gauge.  A parse
      error is discarded: the parser's value is written all the same. */
  function Reading(metric: Metric, s: Summary, parse: Parser, now: Float64): Float64
  {
    match metric
    case Last => parse(s.last).value
    case High24 => parse(s.high).value
    case Low24 => parse(s.low).value
    case ChangeAbsolute => parse(s.changeAbsolute).value
    case ChangePercent => parse(s.changePercent).value
    case LastUpdate => now
  }

  /** Every series whose labels are a configured exchange and pair. */
  function Candidates(exchanges: seq<string>, pairs: seq<string>): (keys: set<SeriesKey>)
    ensures forall k :: k in keys <==> k.exchange in exchanges && k.pair in pairs
  {
    assert forall k: SeriesKey :: k.metric in AllMetrics by {
      forall k: SeriesKey { MetricsAreSixDistinctNames(k.metric, k.metric); }
    }
    set m, e, p | m in AllMetrics && e in exchanges && p in pairs :: SeriesKey(m, e, p)
  }

  /** True when the cycle visits (exchange, pair) and finds its key. */
  predicate Quoted(exchanges: seq<string>, pairs: seq<string>, snapshot: map<string, Summary>,
                   exchange: string, pair: string)
  {
    exchange in exchanges && pair in pairs && MarketKey(exchange, pair) in snapshot
  }

  /** The writes one cycle makes, as a map: every series of every quoted
      configured market, with the value read from that market's summary. */
  function Updates(exchanges: seq<string>, pairs: seq<string>, snapshot: map<string, Summary>,
                   parse: Parser, now: Float64): map<SeriesKey, Float64>
  {
    map k | k in Candidates(exchanges, pairs) && MarketKey(k.exchange, k.pair) in snapshot
      :: Reading(k.metric, snapshot[MarketKey(k.exchange, k.pair)], parse, now)
  }

  /** The registry after one cycle with configuration strings `exchanges` and
      `pairs`, fetch result `fetched` and timestamp `now`. */
  function CycleResult(series: map<SeriesKey, Float64>, exchanges: string, pairs: string,
                       fetched: FetchResult, parse: Parser, now: Float64): map<SeriesKey, Float64>
  {
    series + Updates(Split(exchanges, ','), Split(pairs, ','), fetched.summaries, parse, now)
  }

  /** Visiting one more exchange adds that exchange's writes. */
  lemma UpdatesAppendExchange(exchanges: seq<string>, exchange: string, pairs: seq<string>,
                              snapshot: map<string, Summary>, parse: Parser, now: Float64)
    ensures Updates(exchanges + [exchange], pairs, snapshot, parse, now)
         == Updates(exchanges, pairs, snapshot, parse, now) + Updates([exchange], pairs, snapshot, parse, now)
  {
  }

  /** Visiting one more pair of an exchange adds that market's writes. */
  lemma UpdatesAppendPair(exchange: string, pairs: seq<string>, pair: string,
                          snapshot: map<string, Summary>, parse: Parser, now: Float64)
    ensures Updates([exchange], pairs + [pair], snapshot, parse, now)
         == Updates([exchange], pairs, snapshot, parse, now) + Updates([exchange], [pair], snapshot, parse, now)
  {
  }

  /** Which series one cycle writes, and with what value. */
  lemma UpdatesAt(exchanges: seq<string>, pairs: seq<string>, snapshot: map<string, Summary>,
                  parse: Parser, now: Float64, k: SeriesKey)
    ensures k in Updates(exchanges, pairs, snapshot, parse, now)
        <==> Quoted(exchanges, pairs, snapshot, k.exchange, k.pair)
    ensures k in Updates(exchanges, pairs, snapshot, parse, now) ==>
      Updates(exchanges, pairs, snapshot, parse, now)[k]
        == Reading(k.metric, snapshot[MarketKey(k.exchange, k.pair)], parse, now)
  {
  }

  /** A market whose key is absent is written nowhere. */
  lemma AbsentMarketWritesNothing(exchange: string, pair: string, snapshot: map<string, Summary>,
                                  parse: Parser, now: Float64)
    requires MarketKey(exchange, pair) !in snapshot
    ensures Updates([exchange], [pair], snapshot, parse, now) == map[]
  {
    forall k: SeriesKey ensures k !in Updates([exchange], [pair], snapshot, parse, now) {
      UpdatesAt([exchange], [pair], snapshot, parse, now, k);
    }
  }

  /** Overriding `series` with a map that holds exactly the six series of one
      market is the same as setting those six series one after another. */
  lemma OverrideBySix(series: map<SeriesKey, Float64>, u: map<SeriesKey, Float64>,
                      exchange: string, pair: string,
                      v1: Float64, v2: Float64, v3: Float64, v4: Float64, v5: Float64, v6: Float64)
    requires forall k :: k in u ==> k.exchange == exchange && k.pair == pair
    requires SeriesKey(Last, exchange, pair) in u && u[SeriesKey(Last, exchange, pair)] == v1
    requires SeriesKey(High24, exchange, pair) in u && u[SeriesKey(High24, exchange, pair)] == v2
    requires SeriesKey(Low24, exchange, pair) in u && u[SeriesKey(Low24, exchange, pair)] == v3
    requires SeriesKey(ChangeAbsolute, exchange, pair) in u && u[SeriesKey(ChangeAbsolute, exchange, pair)] == v4
    requires SeriesKey(ChangePercent, exchange, pair) in u && u[SeriesKey(ChangePercent, exchange, pair)] == v5
    requires SeriesKey(LastUpdate, exchange, pair) in u && u[SeriesKey(LastUpdate, exchange, pair)] == v6
    ensures series + u == series[SeriesKey(Last, exchange, pair) := v1]
                                [SeriesKey(High24, exchange, pair) := v2]
                                [SeriesKey(Low24, exchange, pair) := v3]
                                [SeriesKey(ChangeAbsolute, exchange, pair) := v4]
                                [SeriesKey(ChangePercent, exchange, pair) := v5]
                                [SeriesKey(LastUpdate, exchange, pair) := v6]
  {
    var chain := series[SeriesKey(Last, exchange, pair) := v1]
                       [SeriesKey(High24, exchange, pair) := v2]
                       [SeriesKey(Low24, exchange, pair) := v3]
                       [SeriesKey(ChangeAbsolute, exchange, pair) := v4]
                       [SeriesKey(ChangePercent, exchange, pair) := v5]
                       [SeriesKey(LastUpdate, exchange, pair) := v6];
    forall k | k in u ensures k in chain && chain[k] == u[k] {
      assert k == SeriesKey(k.metric, exchange, pair);
      match k.metric
      case Last =>
      case High24 =>
      case Low24 =>
      case ChangeAbsolute =>
      case ChangePercent =>
      case LastUpdate =>
    }
  }

  /** One step of the inner loop: the writes for pairs[..j] followed by those
      for market (exchange, pairs[j]) are the writes for pairs[..j + 1]. */
  lemma PairStep(series: map<SeriesKey, Float64>, exchange: string, pairs: seq<string>, j: nat,
                 snapshot: map<string, Summary>, parse: Parser, now: Float64)
    requires j < |pairs|
    ensures series + Updates([exchange], pairs[..j], snapshot, parse, now)
                   + Updates([exchange], [pairs[j]], snapshot, parse, now)
         == series + Updates([exchange], pairs[..j + 1], snapshot, parse, now)
  {
    assert pairs[..j + 1] == pairs[..j] + [pairs[j]];
    UpdatesAppendPair(exchange, pairs[..j], pairs[j], snapshot, parse, now);
  }

  /** One step of the outer loop: the writes for exchanges[..i] followed by
      those for exchanges[i] are the writes for exchanges[..i + 1]. */
  lemma ExchangeStep(series: map<SeriesKey, Float64>, exchanges: seq<string>, i: nat, pairs: seq<string>,
                     snapshot: map<string, Summary>, parse: Parser, now: Float64)
    requires i < |exchanges|
    ensures series + Updates(exchanges[..i], pairs, snapshot, parse, now)
                   + Updates([exchanges[i]], pairs, snapshot, parse, now)
         == series + Updates(exchanges[..i + 1], pairs, snapshot, parse, now)
  {
    assert exchanges[..i + 1] == exchanges[..i] + [exchanges[i]];
    UpdatesAppendExchange(exchanges[..i], exchanges[i], pairs, snapshot, parse, now);
  }

  /** A quoted market gets its six series set, in the order the cycle sets
      them, each to the value parsed from its own field. */
  lemma QuotedMarketWritesSix(series: map<SeriesKey, Float64>, exchange: string, pair: string,
                              snapshot: map<string, Summary>, parse: Parser, now: Float64)
    requires MarketKey(exchange, pair) in snapshot
    ensures
      var s := snapshot[MarketKey(exchange, pair)];
      series + Updates([exchange], [pair], snapshot, parse, now)
        == series[SeriesKey(Last, exchange, pair) := parse(s.last).value]
                 [SeriesKey(High24, exchange, pair) := parse(s.high).value]
                 [SeriesKey(Low24, exchange, pair) := parse(s.low).value]
                 [SeriesKey(ChangeAbsolute, exchange, pair) := parse(s.changeAbsolute).value]
                 [SeriesKey(ChangePercent, exchange, pair) := parse(s.changePercent).value]
                 [SeriesKey(LastUpdate, exchange, pair) := now]
  {
    var u := Updates([exchange], [pair], snapshot, parse, now);
    var s := snapshot[MarketKey(exchange, pair)];
    forall k | k in u ensures k.exchange == exchange && k.pair == pair {
      UpdatesAt([exchange], [pair], snapshot, parse, now, k);
    }
    forall m | m in AllMetrics
      ensures SeriesKey(m, exchange, pair) in u && u[SeriesKey(m, exchange, pair)] == Reading(m, s, parse, now)
    {
      UpdatesAt([exchange], [pair], snapshot, parse, now, SeriesKey(m, exchange, pair));
    }
    OverrideBySix(series, u, exchange, pair, parse(s.last).value, parse(s.high).value, parse(s.low).value,
                  parse(s.changeAbsolute).value, parse(s.changePercent).value, now);
  }

  /** The body of the inner loop for one (exchange, pair): look the market up
      and, when it is quoted, set its six gauges; otherwise only log. */
  method RecordMarket(reg: Registry, exchange: string, pair: string,
                      marketSummaries: map<string, Summary>, parse: Parser, now: Float64)
    modifies reg
    ensures reg.series == old(reg.series) + Updates([exchange], [pair], marketSummaries, parse, now)
  {
    var key := MarketKey(exchange, pair);
    if key in marketSummaries {
      var summary := marketSummaries[key];
      var cwLast := parse(summary.last).value;
      reg.Set(Last, exchange, pair, cwLast);
      var cwHigh24 := parse(summary.high).value;
      reg.Set(High24, exchange, pair, cwHigh24);
      var cwLow24 := parse(summary.low).value;
      reg.Set(Low24, exchange, pair, cwLow24);
      var cwChangeAbsolute := parse(summary.changeAbsolute).value;
      reg.Set(ChangeAbsolute, exchange, pair, cwChangeAbsolute);
      var cwChangePercent := parse(summary.changePercent).value;
      reg.Set(ChangePercent, exchange, pair, cwChangePercent);
      reg.Set(LastUpdate, exchange, pair, now);
      QuotedMarketWritesSix(old(reg.series), exchange, pair, marketSummaries, parse, now);
    } else {
      AbsentMarketWritesNothing(exchange, pair, marketSummaries, parse, now);
    }
  }

  /** One iteration of the collection loop (main.go, recordMetrics): the fetch
      outcome and the timestamp are inputs; a fetch error is only logged. */
  method Collect(reg: Registry, exchanges: string, pairs: string, fetched: FetchResult,
                 parse: Parser, now: Float64)
    modifies reg
    ensures reg.series == CycleResult(old(reg.series), exchanges, pairs, fetched, parse, now)
  {
    var marketSummaries := fetched.summaries;
    var exchangesSlice := Split(exchanges, ',');
    var pairsSlice := Split(pairs, ',');
    ghost var before := reg.series;

    for i := 0 to |exchangesSlice|
      invariant reg.series == before + Updates(exchangesSlice[..i], pairsSlice, marketSummaries, parse, now)
    {
      var exchange := exchangesSlice[i];
      ghost var outer := reg.series;
      for j := 0 to |pairsSlice|
        invariant reg.series == outer + Updates([exchange], pairsSlice[..j], marketSummaries, parse, now)
      {
        RecordMarket(reg, exchange, pairsSlice[j], marketSummaries, parse, now);
        PairStep(outer, exchange, pairsSlice, j, marketSummaries, parse, now);
      }
      assert pairsSlice[..|pairsSlice|] == pairsSlice;
      ExchangeStep(before, exchangesSlice, i, pairsSlice, marketSummaries, parse, now);
    }
    assert exchangesSlice[..|exchangesSlice|] == exchangesSlice;
  }

  /** The inputs of one cycle: what the fetch returned and the timestamp
      taken right after it. */
  datatype CycleInput = CycleInput(fetched: FetchResult, now: Float64)

  /** The registry after the given cycles, run in order with one fixed
      configuration. */
  function RunResult(series: map<SeriesKey, Float64>, exchanges: string, pairs: string,
                     inputs: seq<CycleInput>, parse: Parser): map<SeriesKey, Float64>
    decreases |inputs|
  {
    if inputs == [] then series
    else
      var last := inputs[|inputs| - 1];
      CycleResult(RunResult(series, exchanges, pairs, inputs[..|inputs| - 1], parse),
                  exchanges, pairs, last.fetched, parse, last.now)
  }

  /** A bounded prefix of the endless collection loop: one cycle per input.
      The sleep between cycles is not modelled. */
  method Run(reg: Registry, exchanges: string, pairs: string, inputs: seq<CycleInput>, parse: Parser)
    modifies reg
    ensures reg.series == RunResult(old(reg.series), exchanges, pairs, inputs, parse)
  {
    for n := 0 to |inputs|
      invariant reg.series == RunResult(old(reg.series), exchanges, pairs, inputs[..n], parse)
    {
      Collect(reg, exchanges, pairs, inputs[n].fetched, parse, inputs[n].now);
      assert inputs[..n + 1][..n] == inputs[..n];
    }
    assert inputs[..|inputs|] == inputs;
  }
}
