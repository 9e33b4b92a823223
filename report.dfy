/** The records of report.go: the metrics of the sending phase and the
    reconciliation report. */
module Reports {

  /** The load generator's own statistics (latencies, throughput, status
      codes). The harness only carries them through, so they stay opaque. */
  datatype LoadStats = LoadStats(raw: seq<int>)

  /** Counts of the sending phase (report.go:7-11). */
  datatype Metrics = Metrics(proposedCount: int, acceptedCount: int, load: LoadStats)

  /** Go's zero value of `Metrics`, the value a fresh ledger holds. */
  const ZeroMetrics := Metrics(0, 0, LoadStats([]))

  /** The reconciliation report (report.go:13-25); each map goes from a
      partition key to a list of event identifiers. */
  datatype Report = Report(
    lostCount: int,
    lostEvents: map<string, seq<string>>,
    duplicateCount: int,
    duplicateEvents: map<string, seq<string>>,
    receivedCount: int,
    receivedEvents: map<string, seq<string>>,
    terminated: bool,
    metrics: Metrics)
}
