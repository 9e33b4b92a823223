/** `StateManager` (state.go): the ledger of sent and received event
    identifiers, filled by two feeder loops and read by the reconciler.
    The lock and the goroutines of the source are not modelled: each
    operation here is one critical section, and a feeder loop is the
    sequence of its inserts. */
module State {
  import opened StringOrder
  import opened Events
  import opened Reports
  import opened Configuration
  import opened Ledger

  class StateManager {
    var received: Store
    var sent: Store
    var config: Config
    var stateManagerConfig: StateManagerConfig
    var terminated: bool
    var metrics: Metrics

    /** `NewStateManager`: empty ledger, not terminated, zero metrics. */
    constructor (config: Config)
      ensures received == map[] && sent == map[]
      ensures this.config == config
      ensures stateManagerConfig == StateManagerConfigFromConfig(config)
      ensures !terminated && metrics == ZeroMetrics
    {
      received := map[];
      sent := map[];
      this.config := config;
      stateManagerConfig := StateManagerConfigFromConfig(config);
      terminated := false;
      metrics := ZeroMetrics;
    }

    /** The loop of `ReadSent`: `insert` of every event, in arrival order,
        into the sent side. */
    method ReadSent(events: seq<Event>)
      modifies this`sent
      ensures sent == InsertAll(old(sent), events, stateManagerConfig)
      ensures forall k :: Bucket(sent, k) == Bucket(old(sent), k) + IdsFor(events, k, stateManagerConfig)
      ensures TotalLength(sent) == TotalLength(old(sent)) + |events|
    {
      for i := 0 to |events|
        invariant sent == InsertAll(old(sent), events[..i], stateManagerConfig)
      {
        assert events[..i + 1][..i] == events[..i];
        sent := Insert(sent, events[i], stateManagerConfig);
      }
      assert events[..|events|] == events;
      forall k | true ensures Bucket(sent, k) == Bucket(old(sent), k) + IdsFor(events, k, stateManagerConfig) {
        InsertAllBuckets(old(sent), events, stateManagerConfig, k);
      }
      InsertAllGrowsTotal(old(sent), events, stateManagerConfig);
    }

    /** The loop of `ReadReceived`: the same on the received side. */
    method ReadReceived(events: seq<Event>)
      modifies this`received
      ensures received == InsertAll(old(received), events, stateManagerConfig)
      ensures forall k :: Bucket(received, k) == Bucket(old(received), k) + IdsFor(events, k, stateManagerConfig)
      ensures TotalLength(received) == TotalLength(old(received)) + |events|
    {
      for i := 0 to |events|
        invariant received == InsertAll(old(received), events[..i], stateManagerConfig)
      {
        assert events[..i + 1][..i] == events[..i];
        received := Insert(received, events[i], stateManagerConfig);
      }
      assert events[..|events|] == events;
      forall k | true ensures Bucket(received, k) == Bucket(old(received), k) + IdsFor(events, k, stateManagerConfig) {
        InsertAllBuckets(old(received), events, stateManagerConfig, k);
      }
      InsertAllGrowsTotal(old(received), events, stateManagerConfig);
    }

    /** `ReceivedCount`: the number of received deliveries over all
        partitions, duplicates included; it changes nothing. */
    method ReceivedCount() returns (count: int)
      ensures count == TotalLength(received)
    {
      count := 0;
      var rest := received;
      while rest != map[]
        invariant count + TotalLength(rest) == TotalLength(received)
        decreases |rest|
      {
        var k :| k in rest;
        TotalLengthRemove(rest, k);
        count := count + |rest[k]|;
        rest := rest - {k};
      }
    }

    /** `GenerateReport`: one reconciliation per sent partition, visited in
        any order; received buckets without a sent partition are ignored. */
    method GenerateReport() returns (r: Report)
      ensures r == WrittenReport(sent, received, stateManagerConfig.ordered, terminated, metrics)
    {
      ghost var all := Partitions(CopiedSent(sent), received, stateManagerConfig.ordered);
      RestrictBounds(all);
      ReportOfEmpty(terminated, metrics);
      r := Report(0, map[], 0, map[], 0, map[], terminated, metrics);
      var rest := sent.Keys;
      while rest != {}
        invariant rest <= all.Keys == sent.Keys
        invariant r == ReportOf(Restrict(all, all.Keys - rest), terminated, metrics)
        decreases rest
      {
        var k :| k in rest;
        var p := ReconcileKey(k);
        RestrictStep(all, rest, k);
        r := AddPartitionResult(r, Restrict(all, all.Keys - rest), k, p);
        rest := rest - {k};
      }
    }

    /** The body of the loop of `GenerateReport` for the sent partition `k`:
        the local copy of the sent list, the split of the received bucket,
        the sorting when unordered and the set difference. */
    method ReconcileKey(k: string) returns (p: PartitionResult)
      requires k in sent
      ensures p == Partitions(CopiedSent(sent), received, stateManagerConfig.ordered)[k]
    {
      var v := sent[k];
      var sentCopy := GoCopy([], v);
      var receivedList: seq<string> := [];
      var duplicates: seq<string> := [];
      if k in received {
        receivedList, duplicates := RemoveDuplicates(received[k]);
      }
      if !stateManagerConfig.ordered {
        sentCopy := Sort(sentCopy);
        receivedList := Sort(receivedList);
        duplicates := Sort(duplicates);
      }
      var diff := DifferenceList(sentCopy, receivedList);
      p := PartitionResult(diff, duplicates, receivedList);
    }

    /** `Diff`: as written it is always "", because the report never lists
        a lost event (WrittenReportNeverLoses). */
    method Diff(encode: Store -> string) returns (d: string)
      ensures d == DiffText(WrittenReport(sent, received, stateManagerConfig.ordered, terminated, metrics).lostEvents, encode)
      ensures d == ""
    {
      var report := GenerateReport();
      WrittenReportNeverLoses(sent, received, stateManagerConfig.ordered, terminated, metrics);
      if report.lostEvents != map[] {
        d := "lost events by partition key:\n" + encode(report.lostEvents);
      } else {
        d := "";
      }
    }

    /** `Terminated`: records the final metrics of the sending phase. */
    method Terminated(m: Metrics)
      modifies this`terminated, this`metrics
      ensures terminated && metrics == m
    {
      terminated := true;
      metrics := m;
    }
  }

  /** The three `if len(x) > 0 { ... }` blocks of one iteration of
      `GenerateReport`: the report over `parts` becomes the report over
      `parts` with partition `k` added. */
  method AddPartitionResult(r: Report, ghost parts: map<string, PartitionResult>, k: string, p: PartitionResult)
    returns (r': Report)
    requires k !in parts && r == ReportOf(parts, r.terminated, r.metrics)
    ensures r' == ReportOf(parts[k := p], r.terminated, r.metrics)
  {
    AddPartitionEntries(parts, k, p);
    var lost, lostCount := AddEntry(r.lostEvents, r.lostCount, k, p.lost);
    var dups, dupCount := AddEntry(r.duplicateEvents, r.duplicateCount, k, p.duplicates);
    var recv, recvCount := AddEntry(r.receivedEvents, r.receivedCount, k, p.received);
    r' := r.(lostEvents := lost, lostCount := lostCount,
             duplicateEvents := dups, duplicateCount := dupCount,
             receivedEvents := recv, receivedCount := recvCount);
  }

  /** One `if len(x) > 0 { ... }` block of `GenerateReport`: a non-empty
      list is recorded under its partition and its length added to the
      count, so the count stays the summed length of the entries. */
  method AddEntry(entries: Store, count: int, k: string, v: seq<string>) returns (entries': Store, count': int)
    requires k !in entries && count == TotalLength(entries)
    ensures entries' == if v != [] then entries[k := v] else entries
    ensures count' == TotalLength(entries')
  {
    entries', count' := entries, count;
    if |v| > 0 {
      TotalLengthAdd(entries, k, v);
      entries' := entries[k := v];
      count' := count + |v|;
    }
  }

  /** `removeDuplicates`: one pass with a seen-set; the first occurrence of
      an identifier is kept, every later one is a duplicate. */
  method RemoveDuplicates(a: seq<string>) returns (result: seq<string>, duplicates: seq<string>)
    ensures (result, duplicates) == SplitDuplicates(a)
    ensures |result| + |duplicates| == |a|
    ensures Distinct(result)
    ensures forall x :: x in result <==> x in a
  {
    var seen: set<string> := {};
    result, duplicates := [], [];
    for i := 0 to |a|
      invariant (result, duplicates) == SplitDuplicates(a[..i])
      invariant seen == set j | 0 <= j < i :: a[j]
    {
      var v := a[i];
      assert a[..i + 1][..i] == a[..i];
      assert v in seen <==> v in a[..i];
      if v !in seen {
        result := result + [v];
      } else {
        duplicates := duplicates + [v];
      }
      seen := seen + {v};
    }
    assert a[..|a|] == a;
    SplitPartition(a);
    SplitUnique(a);
  }
}
