/** Label cardinality: with the configuration fixed, the registry only ever
    holds series labelled by a configured exchange and a configured pair, and
    repeated configuration entries change nothing. */
module Bounds {
  import opened Strings
  import opened Gauges
  import opened Collector

  /** The (exchange, pair) label pairs that have at least one series. */
  function Labels(series: map<SeriesKey, Float64>): set<(string, string)>
  {
    set k | k in series :: (k.exchange, k.pair)
  }

  /** The configured cross product of exchanges and pairs. */
  function Grid(exchanges: seq<string>, pairs: seq<string>): set<(string, string)>
  {
    set e, p | e in exchanges && p in pairs :: (e, p)
  }

  /** The label pairs of one exchange. */
  function Row(exchange: string, pairs: seq<string>): set<(string, string)>
  {
    set p | p in pairs :: (exchange, p)
  }

  /** One cycle adds only series whose labels lie in the configured grid. */
  lemma CycleStaysWithinGrid(series: map<SeriesKey, Float64>, exchanges: string, pairs: string,
                             fetched: FetchResult, parse: Parser, now: Float64)
    requires Labels(series) <= Grid(Split(exchanges, ','), Split(pairs, ','))
    ensures Labels(CycleResult(series, exchanges, pairs, fetched, parse, now))
         <= Grid(Split(exchanges, ','), Split(pairs, ','))
  {
    var exs, prs := Split(exchanges, ','), Split(pairs, ',');
    var r := CycleResult(series, exchanges, pairs, fetched, parse, now);
    forall l | l in Labels(r) ensures l in Grid(exs, prs) {
      var k :| k in r && (k.exchange, k.pair) == l;
      UpdatesAt(exs, prs, fetched.summaries, parse, now, k);
      if k !in series {
        assert k.exchange in exs && k.pair in prs;
      } else {
        assert l in Labels(series);
      }
    }
  }

  /** Over any sequence of cycles the labels stay within the grid. */
  lemma {:induction false} RunStaysWithinGrid(series: map<SeriesKey, Float64>, exchanges: string, pairs: string,
                                              inputs: seq<CycleInput>, parse: Parser)
    requires Labels(series) <= Grid(Split(exchanges, ','), Split(pairs, ','))
    ensures Labels(RunResult(series, exchanges, pairs, inputs, parse)) <= Grid(Split(exchanges, ','), Split(pairs, ','))
    decreases |inputs|
  {
    if inputs != [] {
      var last := inputs[|inputs| - 1];
      RunStaysWithinGrid(series, exchanges, pairs, inputs[..|inputs| - 1], parse);
      CycleStaysWithinGrid(RunResult(series, exchanges, pairs, inputs[..|inputs| - 1], parse),
                           exchanges, pairs, last.fetched, parse, last.now);
    }
  }

  /** An exchange contributes at most one label pair per configured pair. */
  lemma {:induction false} RowSize(exchange: string, pairs: seq<string>)
    ensures |Row(exchange, pairs)| <= |pairs|
    decreases |pairs|
  {
    if pairs != [] {
      var init := pairs[..|pairs| - 1];
      RowSize(exchange, init);
      assert pairs == init + [pairs[|pairs| - 1]];
      assert Row(exchange, pairs) == Row(exchange, init) + {(exchange, pairs[|pairs| - 1])};
    }
  }

  /** Listing one more exchange adds that exchange's row to the grid. */
  lemma GridAppend(exchanges: seq<string>, exchange: string, pairs: seq<string>)
    ensures Grid(exchanges + [exchange], pairs) == Grid(exchanges, pairs) + Row(exchange, pairs)
  {
    forall l | l in Grid(exchanges + [exchange], pairs)
      ensures l in Grid(exchanges, pairs) + Row(exchange, pairs)
    {
      var e, p :| e in exchanges + [exchange] && p in pairs && l == (e, p);
      if e != exchange {
        assert e in exchanges;
      }
    }
  }

  /** The grid has at most |exchanges| * |pairs| elements. */
  lemma {:induction false} GridSize(exchanges: seq<string>, pairs: seq<string>)
    ensures |Grid(exchanges, pairs)| <= |exchanges| * |pairs|
    decreases |exchanges|
  {
    if exchanges == [] {
      assert Grid(exchanges, pairs) == {};
    } else {
      var init := exchanges[..|exchanges| - 1];
      var e := exchanges[|exchanges| - 1];
      GridSize(init, pairs);
      RowSize(e, pairs);
      assert exchanges == init + [e];
      GridAppend(init, e, pairs);
      calc {
        |Grid(exchanges, pairs)|;
        <= |Grid(init, pairs)| + |Row(e, pairs)|;
        <= |init| * |pairs| + |pairs|;
        == (|init| + 1) * |pairs|;
      }
    }
  }

  /** A subset is no larger than its superset. */
  lemma SubsetSize<T>(small: set<T>, large: set<T>)
    requires small <= large
    ensures |small| <= |large|
  {
    assert large == small + (large - small);
  }

  /** Starting from an empty registry, any number of cycles leaves at most
      |exchange pieces| * |pair pieces| label pairs in the registry, however
      many markets the snapshots contain. */
  lemma RunLabelCount(exchanges: string, pairs: string, inputs: seq<CycleInput>, parse: Parser)
    ensures |Labels(RunResult(map[], exchanges, pairs, inputs, parse))|
         <= |Split(exchanges, ',')| * |Split(pairs, ',')|
  {
    var exs, prs := Split(exchanges, ','), Split(pairs, ',');
    assert Labels(map[]) == {};
    RunStaysWithinGrid(map[], exchanges, pairs, inputs, parse);
    SubsetSize(Labels(RunResult(map[], exchanges, pairs, inputs, parse)), Grid(exs, prs));
    GridSize(exs, prs);
  }

  /** The entries of `s`, each listed once. */
  function Dedup(s: seq<string>): (r: seq<string>)
    ensures forall x :: x in r <==> x in s
    ensures forall i, j :: 0 <= i < j < |r| ==> r[i] != r[j]
    decreases |s|
  {
    if s == [] then []
    else
      var r := Dedup(s[..|s| - 1]);
      var x := s[|s| - 1];
      assert forall y :: y in s <==> y in s[..|s| - 1] || y == x by {
        assert s == s[..|s| - 1] + [x];
      }
      if x in r then r else r + [x]
  }

  /** The writes of a cycle depend on which exchanges and pairs are listed,
      not on how often or in which order. */
  lemma UpdatesDependOnMembersOnly(exchanges: seq<string>, pairs: seq<string>,
                                   exchanges': seq<string>, pairs': seq<string>,
                                   snapshot: map<string, Summary>, parse: Parser, now: Float64)
    requires forall x :: x in exchanges <==> x in exchanges'
    requires forall x :: x in pairs <==> x in pairs'
    ensures Updates(exchanges, pairs, snapshot, parse, now) == Updates(exchanges', pairs', snapshot, parse, now)
  {
    var u, u' := Updates(exchanges, pairs, snapshot, parse, now), Updates(exchanges', pairs', snapshot, parse, now);
    forall k ensures (k in u) == (k in u') && (k in u ==> u[k] == u'[k]) {
      UpdatesAt(exchanges, pairs, snapshot, parse, now, k);
      UpdatesAt(exchanges', pairs', snapshot, parse, now, k);
    }
    assert u == u';
  }

  /** Deduplicating a configuration string keeps it a valid list: its pieces
      come back unchanged from a split. */
  lemma SplitOfDeduplicated(config: string)
    ensures Split(Join(Dedup(Split(config, ',')), ','), ',') == Dedup(Split(config, ','))
  {
    var pieces := Split(config, ',');
    var d := Dedup(pieces);
    assert pieces[0] in d;
    SplitPiecesHaveNoSeparator(config, ',');
    forall i | 0 <= i < |d| ensures ',' !in d[i] {
      assert d[i] in pieces;
    }
    SplitJoin(d, ',');
  }

  /** Duplicate configuration entries are harmless: a cycle leaves the same
      registry as one with each exchange and pair listed once. */
  lemma DuplicateEntriesHarmless(series: map<SeriesKey, Float64>, exchanges: string, pairs: string,
                                 fetched: FetchResult, parse: Parser, now: Float64)
    ensures CycleResult(series, exchanges, pairs, fetched, parse, now)
         == CycleResult(series, Join(Dedup(Split(exchanges, ',')), ','), Join(Dedup(Split(pairs, ',')), ','),
                        fetched, parse, now)
  {
    SplitOfDeduplicated(exchanges);
    SplitOfDeduplicated(pairs);
    UpdatesDependOnMembersOnly(Split(exchanges, ','), Split(pairs, ','),
                               Dedup(Split(exchanges, ',')), Dedup(Split(pairs, ',')),
                               fetched.summaries, parse, now);
  }
}
