# cryptowat_exporter collection cycle, modelled in Dafny

The exporter polls a market-data provider and republishes five fields of each
configured market, plus a last-update timestamp, as Prometheus gauges
labelled `(exchange, pair)`. This project models one collection cycle of
`recordMetrics` in `main.go`, run once or over a bounded sequence of cycles:

1. split the comma-separated exchange and pair configuration strings;
2. walk the exchange × pair cross product and build the key `exchange:pair`;
3. for every key the fetched snapshot contains, overwrite the six gauge
   series of that `(exchange, pair)`: five with the parsed summary fields
   and one with the cycle timestamp;
4. for every key it lacks, do nothing (the source only logs).

Modules:

- `Strings` (`strings.dfy`): `Split` and `Join` for a one-character
  separator, with their round trips.
- `Gauges` (`gauges.dfy`): the six gauge vectors as a `Metric` enumeration
  with their published names. `Registry` is a class whose `series` map goes
  from `(metric, exchange, pair)` to the current value. `Registry.Set` models
  `WithLabelValues(exchange, pair).Set(v)`.
- `Collector` (`collector.dfy`): the summary, parse and fetch records and
  `Updates`, the map of writes one cycle makes. `Collect` is the cycle itself:
  a method with the source's two nested loops, proved to leave
  `old(series) + Updates(...)`. `Run` repeats it over a sequence of inputs.
- `CycleProperties` (`properties.dfy`): what a cycle changes and what it
  leaves alone.
- `Bounds` (`bounds.dfy`): label cardinality over many cycles, and why
  duplicate configuration entries are harmless.

Modelling choices:

- A float64 gauge value is its 64-bit pattern (`bv64`), copied and never
  interpreted.
- `strconv.ParseFloat` is the parameter `parse: string -> ParseOutcome`,
  left uninterpreted. It returns a value and an error flag. The cycle writes
  the value whatever the flag says, as the source does when it discards the
  error with `_`.
- The fetch result and the timestamp are inputs of each cycle.
- Two error paths have no explicit skip in the code. The model follows the
  code in both.
  - A failed fetch is only logged; the cycle then walks the cross product
    over the returned map. That map is nil after a failure, so nothing is
    written, which has the same effect as skipping the cycle. The only
    difference is that the skip is implicit: it relies on the client
    returning an empty map with its error. See `FetchErrorOnlyLogged`.
  - A field that fails to parse is not skipped. Its gauge is overwritten with
    what `ParseFloat` returned (0 or ±Inf). This one is a real difference in
    behaviour. See `QuotedMarketUpdated` and `ParseErrorsIgnored`.
- `exchange + ":" + pair` is not injective (`MarketKeyCollides`). No property
  here assumes that it is. Series are identified by their labels, so every
  lemma holds even when two label pairs share a key.

## Model

| member | source | states |
|---|---|---|
| `Strings.Split` | main.go:43-44 | strings.Split on one separator character: the number of pieces is one more than the number of separators, so there is always at least one piece |
| `Strings.SplitPiecesHaveNoSeparator` | main.go:43-44 | no configuration piece contains a comma |
| `Strings.JoinSplit` | main.go:43-44 | joining the pieces back with the separator reproduces the configuration string |
| `Strings.SplitWithoutSeparator` | main.go:43-44 | a string with no separator (in particular `""`) splits into itself alone, so `""` gives one empty piece |
| `Strings.SplitJoin` | main.go:43-44 | splitting a join of one or more separator-free pieces gives those pieces back (the other half of the round trip) |
| `Gauges.MetricsAreSixDistinctNames` | main.go:75-136 | there are exactly six gauge vectors and their published names are pairwise distinct |
| `Gauges.Registry.constructor` | main.go:75-136 | at start the registry has no series |
| `Gauges.Registry.Set` | main.go:52-61 | `WithLabelValues(e, p).Set(v)` creates or overwrites series `(metric, e, p)` with `v` and changes no other series |
| `Collector.UpdatesAt` | main.go:47-61 | a cycle writes series `k` if and only if its labels are configured and their key is in the snapshot, and then writes the value read from that summary's own field |
| `Collector.AbsentMarketWritesNothing` | main.go:50-64 | a market whose key is absent gets no writes |
| `Collector.QuotedMarketWritesSix` | main.go:50-61 | a quoted market's writes are exactly the six `Set` calls, in source order, with last, high, low, absolute change, percent change and the timestamp |
| `Collector.RecordMarket` | main.go:49-64 | one inner iteration leaves the old registry overridden with that market's writes |
| `Collector.Collect` | main.go:37-66 | the two nested loops leave exactly the old registry overridden by the cycle's writes; the fetch error flag is not consulted |
| `Collector.Run` | main.go:36-71 | a bounded run of the endless loop leaves the registry the cycles give when applied one after another |
| `CycleProperties.OnlyQuotedMarketsChange` | main.go:47-52 | a series that appears or changes value has a configured exchange, a configured pair, and a key present in the snapshot; no series is ever removed |
| `CycleProperties.AbsentMarketUntouched` | main.go:50-64 | if `e:p` is absent from the snapshot, no series labelled `(e, p)` is created or modified |
| `CycleProperties.QuotedMarketUpdated` | main.go:51-61 | if `e:p` is present and configured, all six series of `(e, p)` are set: five to the parser's value of their own field, even when the parser reports an error, and one to the timestamp |
| `CycleProperties.ReadingUsesParsedValue` | main.go:51-60 | the value written for a field depends on the parser's value only, never on its error |
| `CycleProperties.UpdateUsesParsedValue` | main.go:51-60 | the same holds for every write of a cycle |
| `CycleProperties.ParseErrorsIgnored` | main.go:51-60 | two parsers that return the same values and report different errors give identical registries |
| `CycleProperties.FieldsAreIsolated` | main.go:51-60 | every series of a metric depends on that metric's field only: snapshots that differ in other fields leave it in the same state |
| `CycleProperties.FetchErrorOnlyLogged` | main.go:37-41 | the registry after a cycle does not depend on the fetch error flag, and an empty (nil) snapshot leaves the registry unchanged |
| `CycleProperties.ExampleConfiguration` | main.go:43-44 | `"kraken,bitstamp"` splits into `kraken`, `bitstamp`; `"btcusd"` into `btcusd` alone |
| `CycleProperties.TwoExchangesOneQuoted` | main.go:43-64 | with those exchanges and pairs and only `kraken:btcusd` quoted, an empty registry ends with kraken/btcusd's last price parsed from `"50000.5"` and no bitstamp/btcusd series |
| `CycleProperties.MarketKeyCollides` | main.go:50 | two different label pairs, `("a:b", "c")` and `("a", "b:c")`, share the key `a:b:c` |
| `CycleProperties.MarketKeyInjective` | main.go:50 | when neither exchange contains a colon, equal keys mean equal exchanges and equal pairs |
| `Bounds.CycleStaysWithinGrid` | main.go:47-61 | preservation: if every label pair of the registry lies in configured exchanges × configured pairs before a cycle, it still does after it |
| `Bounds.RunStaysWithinGrid` | main.go:36-66 | over any sequence of cycles with the configuration fixed, the labels stay within that cross product |
| `Bounds.GridSize` | main.go:47-48 | the cross product of the pieces has at most `exchanges × pairs` label pairs |
| `Bounds.RunLabelCount` | main.go:36-66 | from an empty registry, any number of cycles leaves at most `exchanges × pairs` label pairs, however many markets the snapshots hold |
| `Bounds.UpdatesDependOnMembersOnly` | main.go:47-61 | the writes of a cycle depend on which exchanges and pairs are listed, not on repeats or order |
| `Bounds.DuplicateEntriesHarmless` | main.go:43-61 | a cycle with repeated configuration entries leaves the same registry as one with each entry listed once |

## Left out

- The goroutine, the endless `for` and `time.Sleep` with `strconv.ParseInt` of the cache period (main.go:34-36, 68-70): concurrency and timing. `Run` models a bounded number of cycles and leaves out the sleep between them.
- The REST client and its `GetMarketSummaries` call (main.go:35, 37): a network call. Its result is the `FetchResult` input.
- `strconv.ParseFloat` internals (main.go:51-59): floating-point parsing, kept as an uninterpreted parameter.
- `time.Now().UnixNano()/1000` (main.go:45): the wall clock. It is the `now` input, taken once per cycle. The value is microseconds, although the variable name says milliseconds and the gauge's name and help text say seconds; the model does not interpret it.
- Prometheus internals, the thread safety of gauge reads during scrapes, and the exposition format (main.go:24-26, 75-136, 149): a foreign library and concurrency. The registry is a map.
- Flag parsing, the HTTP server and all logging (main.go:40, 49, 63, 69, 138-152): I/O and configuration plumbing.
- Go splits and compares bytes. The model uses characters, which gives the same pieces for valid UTF-8 because the separators `,` and `:` are single ASCII bytes. Go strings, and so the flag values, may also hold invalid UTF-8, which a Dafny `string` cannot represent; such configurations are outside the model. For them no `Set` is reached in the source either, since a piece holding invalid UTF-8 never equals a key decoded from the provider's JSON response.
- `Bounds.RunLabelCount` bounds the number of label pairs. It does not separately count series: each label pair has at most one series per gauge vector.
