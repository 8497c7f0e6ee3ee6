/** The six gauge vectors of the exporter, each labelled by (exchange, pair),
    held together as one registry of series. */
module Gauges {

  /** A float64 gauge value, kept as its 64-bit IEEE-754 pattern and never
      interpreted: the model only copies such values around. */
  type Float64 = bv64

  /** One constructor per gauge vector, in the order the cycle sets them. */
  datatype Metric = Last | High24 | Low24 | ChangeAbsolute | ChangePercent | LastUpdate

  const AllMetrics: set<Metric> := {Last, High24, Low24, ChangeAbsolute, ChangePercent, LastUpdate}

  /** The published metric name of each gauge vector. */
  function Name(m: Metric): string
  {
    match m
    case Last => "crypto_currency"
    case High24 => "crypto_high_24h_currency"
    case Low24 => "crypto_low_24h_currency"
    case ChangePercent => "crypto_change_24h_ratio"
    case ChangeAbsolute => "crypto_change_24h_currency"
    case LastUpdate => "crypto_last_update_seconds"
  }

  /** Every metric is one of the six vectors, and no two vectors share a
      published name, so a series is identified by its name and labels. */
  lemma MetricsAreSixDistinctNames(m: Metric, m': Metric)
    ensures m in AllMetrics && |AllMetrics| == 6
    ensures m != m' ==> Name(m) != Name(m')
  {
  }

  /** One time series: a metric name with its two label values. */
  datatype SeriesKey = SeriesKey(metric: Metric, exchange: string, pair: string)

  /** All series that exist, with their current values.  A series comes into
      existence the first time it is set and is never removed. */
  class Registry {
    var series: map<SeriesKey, Float64>

    /** The registry at process start: no series yet. */
    constructor ()
      ensures series == map[]
    {
      series := map[];
    }

    /** metric.WithLabelValues(exchange, pair).Set(value): creates the series on
        first use and overwrites it afterwards; no other series changes. */
    method Set(metric: Metric, exchange: string, pair: string, value: Float64)
      modifies this
      ensures series == old(series)[SeriesKey(metric, exchange, pair) := value]
    {
      series := series[SeriesKey(metric, exchange, pair) := value];
    }
  }
}
