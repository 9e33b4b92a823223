/** The value-level side of the event ledger (state.go): partition buckets,
    `insert`, `removeDuplicates`, the per-partition reconciliation of
    `GenerateReport` and the sums behind its counts. The StateManager class
    that holds the mutable ledger is in module State. */
module Ledger {
  import opened StringOrder
  import opened Events
  import opened Reports
  import opened Configuration

  /** The bucket used when ordering is off or an event carries no partition key. */
  const UnknownPartitionKey := "unknown"

  /** Partition key -> identifiers in arrival order (Go's `map[string][]string`). */
  type Store = map<string, seq<string>>

  datatype StateManagerConfig = StateManagerConfig(ordered: bool, orderedConfig: OrderedConfig)

  /** `stateManagerConfigFromConfig`: ordering is on exactly when the
      configuration has an `ordered` section, whose settings are taken over;
      otherwise the settings are Go's zero value. */
  function StateManagerConfigFromConfig(config: Config): StateManagerConfig
  {
    if config.ordered.Some? then StateManagerConfig(true, config.ordered.value)
    else StateManagerConfig(false, OrderedConfig(0))
  }

  /** The list stored under `k`, or the empty list when there is none. */
  function Bucket(store: Store, k: string): seq<string>
  {
    if k in store then store[k] else []
  }

  /** The bucket `insert` chooses for `e`. */
  function PartitionKeyOf(e: Event, cfg: StateManagerConfig): (pk: string)
    ensures pk != UnknownPartitionKey ==> cfg.ordered && PartitionKeyExtension in e.extensions
    ensures cfg.ordered && PartitionKeyExtension in e.extensions ==> pk == e.extensions[PartitionKeyExtension]
  {
    if cfg.ordered && PartitionKeyExtension in e.extensions then e.extensions[PartitionKeyExtension]
    else UnknownPartitionKey
  }

  /** `insert`: appends the identifier of `e` to the end of one bucket,
      creating the bucket if needed; every other bucket is left alone. */
  function Insert(store: Store, e: Event, cfg: StateManagerConfig): (r: Store)
    ensures r.Keys == store.Keys + {PartitionKeyOf(e, cfg)}
    ensures r[PartitionKeyOf(e, cfg)] == Bucket(store, PartitionKeyOf(e, cfg)) + [e.id]
    ensures forall k :: k in store && k != PartitionKeyOf(e, cfg) ==> r[k] == store[k]
  {
    var pk := PartitionKeyOf(e, cfg);
    store[pk := Bucket(store, pk) + [e.id]]
  }

  /** The effect of a feeder loop: `insert` for each event, in order. */
  function InsertAll(store: Store, events: seq<Event>, cfg: StateManagerConfig): Store
    decreases |events|
  {
    if events == [] then store
    else Insert(InsertAll(store, events[..|events| - 1], cfg), events[|events| - 1], cfg)
  }

  /** The identifiers of the events that go to bucket `k`, in order. */
  function IdsFor(events: seq<Event>, k: string, cfg: StateManagerConfig): seq<string>
    decreases |events|
  {
    if events == [] then []
    else
      var last := events[|events| - 1];
      IdsFor(events[..|events| - 1], k, cfg) + (if PartitionKeyOf(last, cfg) == k then [last.id] else [])
  }

  /** Feeding a list of events preserves arrival order inside every bucket:
      each bucket is extended by exactly the identifiers routed to it. */
  lemma {:induction false} InsertAllBuckets(store: Store, events: seq<Event>, cfg: StateManagerConfig, k: string)
    ensures Bucket(InsertAll(store, events, cfg), k) == Bucket(store, k) + IdsFor(events, k, cfg)
    decreases |events|
  {
    if events != [] {
      InsertAllBuckets(store, events[..|events| - 1], cfg, k);
    }
  }

  /** Without an `ordered` section every event lands in the "unknown"
      bucket, in arrival order, and every other bucket receives nothing. */
  lemma {:induction false} UnorderedSingleBucket(config: Config, events: seq<Event>)
    requires config.ordered.None?
    ensures var cfg := StateManagerConfigFromConfig(config);
      forall k :: k != UnknownPartitionKey ==> IdsFor(events, k, cfg) == []
    ensures var ids := IdsFor(events, UnknownPartitionKey, StateManagerConfigFromConfig(config));
      |ids| == |events| && forall i :: 0 <= i < |events| ==> ids[i] == events[i].id
    decreases |events|
  {
    if events != [] {
      var cfg := StateManagerConfigFromConfig(config);
      var init := events[..|events| - 1];
      UnorderedSingleBucket(config, init);
      assert PartitionKeyOf(events[|events| - 1], cfg) == UnknownPartitionKey;
      var ids := IdsFor(events, UnknownPartitionKey, cfg);
      assert ids == IdsFor(init, UnknownPartitionKey, cfg) + [events[|events| - 1].id];
      forall i | 0 <= i < |events| ensures ids[i] == events[i].id {
        if i < |init| {
          assert ids[i] == IdsFor(init, UnknownPartitionKey, cfg)[i] == init[i].id;
        }
      }
    }
  }

  // ---------------------------------------------------------------------
  // Sums over buckets. Go visits map keys in an unspecified order, so the
  // sum is defined by picking any key, and TotalLengthRemove shows that the
  // choice does not matter.

  /** The summed length of all buckets, duplicates included. */
  ghost function TotalLength(m: Store): nat
    decreases |m|
  {
    if m == map[] then 0
    else
      var k :| k in m;
      |m[k]| + TotalLength(m - {k})
  }

  /** Any key can be taken out first. */
  lemma {:induction false} TotalLengthRemove(m: Store, k: string)
    requires k in m
    ensures TotalLength(m) == |m[k]| + TotalLength(m - {k})
    decreases |m|
  {
    var j :| j in m && TotalLength(m) == |m[j]| + TotalLength(m - {j});
    if j != k {
      TotalLengthRemove(m - {j}, k);
      TotalLengthRemove(m - {k}, j);
      assert m - {j} - {k} == m - {k} - {j};
    }
  }

  /** Adding a new bucket adds its length. */
  lemma TotalLengthAdd(m: Store, k: string, v: seq<string>)
    requires k !in m
    ensures TotalLength(m[k := v]) == TotalLength(m) + |v|
  {
    TotalLengthRemove(m[k := v], k);
    assert m[k := v] - {k} == m;
  }

  /** Every `insert` grows the summed length by exactly one. */
  lemma InsertGrowsTotal(store: Store, e: Event, cfg: StateManagerConfig)
    ensures TotalLength(Insert(store, e, cfg)) == TotalLength(store) + 1
  {
    var pk := PartitionKeyOf(e, cfg);
    var r := Insert(store, e, cfg);
    TotalLengthRemove(r, pk);
    assert r - {pk} == store - {pk};
    if pk in store {
      TotalLengthRemove(store, pk);
    } else {
      assert store - {pk} == store;
    }
  }

  /** A feeder loop grows the summed length by the number of events fed. */
  lemma {:induction false} InsertAllGrowsTotal(store: Store, events: seq<Event>, cfg: StateManagerConfig)
    ensures TotalLength(InsertAll(store, events, cfg)) == TotalLength(store) + |events|
    decreases |events|
  {
    if events != [] {
      InsertAllGrowsTotal(store, events[..|events| - 1], cfg);
      InsertGrowsTotal(InsertAll(store, events[..|events| - 1], cfg), events[|events| - 1], cfg);
    }
  }

  // ---------------------------------------------------------------------
  // removeDuplicates

  /** `removeDuplicates`: one pass left to right; an identifier already seen
      earlier in `a` goes to the second list, otherwise to the first. */
  function SplitDuplicates(a: seq<string>): (seq<string>, seq<string>)
    decreases |a|
  {
    if a == [] then ([], [])
    else
      var (unique, duplicates) := SplitDuplicates(a[..|a| - 1]);
      var x := a[|a| - 1];
      if x in a[..|a| - 1] then (unique, duplicates + [x]) else (unique + [x], duplicates)
  }

  /** Every input element lands in exactly one of the two outputs. */
  lemma {:induction false} SplitPartition(a: seq<string>)
    ensures |SplitDuplicates(a).0| + |SplitDuplicates(a).1| == |a|
    ensures multiset(SplitDuplicates(a).0) + multiset(SplitDuplicates(a).1) == multiset(a)
    decreases |a|
  {
    if a != [] {
      SplitPartition(a[..|a| - 1]);
      assert a == a[..|a| - 1] + [a[|a| - 1]];
    }
  }

  /** The first output has no repeats and holds every identifier of the
      input; every repeat is an identifier of the first output. */
  lemma {:induction false} SplitUnique(a: seq<string>)
    ensures Distinct(SplitDuplicates(a).0)
    ensures forall x :: x in SplitDuplicates(a).0 <==> x in a
    ensures forall x :: x in SplitDuplicates(a).1 ==> x in SplitDuplicates(a).0
    decreases |a|
  {
    if a != [] {
      var p := a[..|a| - 1];
      SplitUnique(p);
      assert a == p + [a[|a| - 1]];
    }
  }

  /** Position of the first occurrence of `x` in `s`. */
  function FirstIndex(s: seq<string>, x: string): (i: nat)
    requires x in s
    ensures i < |s| && s[i] == x && x !in s[..i]
  {
    if s[0] == x then 0 else 1 + FirstIndex(s[1..], x)
  }

  lemma {:induction false} FirstIndexAppend(s: seq<string>, y: string, x: string)
    requires x in s + [y]
    ensures FirstIndex(s + [y], x) == if x in s then FirstIndex(s, x) else |s|
  {
    var i := FirstIndex(s + [y], x);
    if x in s {
      var j := FirstIndex(s, x);
      assert (s + [y])[..j] == s[..j];
      assert (s + [y])[j] == x;
      assert forall k :: 0 <= k < i ==> (s + [y])[..i][k] != x;
      if i < j { assert false; }
    } else {
      if i < |s| { assert false; }
    }
  }

  /** `u` lists identifiers of `a` by increasing position of their first
      occurrence in `a`. */
  ghost predicate InFirstOccurrenceOrder(u: seq<string>, a: seq<string>)
  {
    (forall x :: x in u ==> x in a)
    && forall i, j :: 0 <= i < j < |u| && u[i] in a && u[j] in a ==> FirstIndex(a, u[i]) < FirstIndex(a, u[j])
  }

  /** The first output lists first occurrences in the order of the input. */
  lemma {:induction false} SplitKeepsFirstOccurrenceOrder(a: seq<string>)
    ensures InFirstOccurrenceOrder(SplitDuplicates(a).0, a)
    decreases |a|
  {
    if a != [] {
      var p := a[..|a| - 1];
      var x := a[|a| - 1];
      assert a == p + [x];
      SplitKeepsFirstOccurrenceOrder(p);
      SplitUnique(p);
      var u := SplitDuplicates(p).0;
      var u' := SplitDuplicates(a).0;
      SplitUnique(a);
      forall i, j | 0 <= i < j < |u'| && u'[i] in a && u'[j] in a
        ensures FirstIndex(a, u'[i]) < FirstIndex(a, u'[j])
      {
        assert u'[i] in u && u'[i] in p;
        FirstIndexAppend(p, x, u'[i]);
        FirstIndexAppend(p, x, u'[j]);
        if j < |u| {
          assert u'[j] == u[j];
        } else {
          assert u'[j] == x && x !in p;
          assert FirstIndex(p, u'[i]) < |p|;
        }
      }
    }
  }

  /** An identifier delivered n >= 1 times contributes n - 1 duplicates. */
  lemma DuplicateMultiplicity(a: seq<string>, x: string)
    requires x in a
    ensures multiset(SplitDuplicates(a).1)[x] == multiset(a)[x] - 1
  {
    SplitPartition(a);
    SplitUnique(a);
    DistinctIffMultiset(SplitDuplicates(a).0);
    assert x in multiset(SplitDuplicates(a).0);
  }

  // ---------------------------------------------------------------------
  // Reconciliation of one partition

  /** Go's built-in `copy(dst, src)`: overwrites the first min(len(dst),
      len(src)) elements of `dst`; the length of `dst` never changes. */
  function GoCopy(dst: seq<string>, src: seq<string>): (r: seq<string>)
    ensures |r| == |dst|
    ensures forall i :: 0 <= i < |r| ==> r[i] == if i < |src| then src[i] else dst[i]
  {
    var n := if |dst| < |src| then |dst| else |src|;
    src[..n] + dst[n..]
  }

  /** The elements of `a` that do not occur in `b`, in order. */
  function Without(a: seq<string>, b: seq<string>): (r: seq<string>)
    ensures forall x :: x in r <==> x in a && x !in b
    decreases |a|
  {
    if a == [] then []
    else
      var rest := Without(a[..|a| - 1], b);
      var x := a[|a| - 1];
      assert a == a[..|a| - 1] + [x];
      if x in b then rest else rest + [x]
  }

  /** `sets.NewString(a...).Difference(sets.NewString(b...)).List()`: the
      distinct elements of `a` missing from `b`, ascending. */
  function DifferenceList(a: seq<string>, b: seq<string>): (r: seq<string>)
    ensures Ascending(r) && Distinct(r)
    ensures forall x :: x in r <==> x in a && x !in b
  {
    var w := Without(a, b);
    SplitUnique(w);
    SortKeepsDistinct(SplitDuplicates(w).0);
    var r := Sort(SplitDuplicates(w).0);
    assert forall x :: x in r <==> x in multiset(r);
    r
  }

  /** What one partition contributes to the report. */
  datatype PartitionResult = PartitionResult(lost: seq<string>, duplicates: seq<string>, received: seq<string>)

  /** The body of the loop in `GenerateReport` for one partition: `sentList`
      is the list the loss is computed from, `receivedRaw` the received
      bucket (empty when absent). Without ordering all lists are sorted.
      Its properties are stated by ReconcilePartitionSpec. */
  function ReconcilePartition(sentList: seq<string>, receivedRaw: seq<string>, ordered: bool): PartitionResult
  {
    var (unique, duplicates) := SplitDuplicates(receivedRaw);
    var sentList' := if ordered then sentList else Sort(sentList);
    var received := if ordered then unique else Sort(unique);
    var duplicates' := if ordered then duplicates else Sort(duplicates);
    PartitionResult(DifferenceList(sentList', received), duplicates', received)
  }

  /** One partition of the report: lost is the ascending set difference of
      the sent list minus the received identifiers; received is the bucket
      without repeats and, with the duplicates, accounts for every delivery;
      without ordering both lists are ascending. This lemma only bundles
      ReconcileReceived and ReconcileLost, which are proved apart to keep
      each proof small. */
  lemma ReconcilePartitionSpec(sentList: seq<string>, receivedRaw: seq<string>, ordered: bool)
    ensures var p := ReconcilePartition(sentList, receivedRaw, ordered);
      && Ascending(p.lost) && Distinct(p.lost)
      && (forall x :: x in p.lost <==> x in sentList && x !in receivedRaw)
      && Distinct(p.received)
      && (forall x :: x in p.received <==> x in receivedRaw)
      && multiset(p.received) + multiset(p.duplicates) == multiset(receivedRaw)
      && |p.received| + |p.duplicates| == |receivedRaw|
      && (ordered ==> (p.received, p.duplicates) == SplitDuplicates(receivedRaw))
      && (!ordered ==> Ascending(p.received) && Ascending(p.duplicates))
  {
    ReconcileReceived(sentList, receivedRaw, ordered);
    ReconcileLost(sentList, receivedRaw, ordered);
  }

  /** The received and duplicate halves of ReconcilePartitionSpec. */
  lemma ReconcileReceived(sentList: seq<string>, receivedRaw: seq<string>, ordered: bool)
    ensures var p := ReconcilePartition(sentList, receivedRaw, ordered);
      && Distinct(p.received)
      && (forall x :: x in p.received <==> x in receivedRaw)
      && multiset(p.received) + multiset(p.duplicates) == multiset(receivedRaw)
      && |p.received| + |p.duplicates| == |receivedRaw|
      && (ordered ==> (p.received, p.duplicates) == SplitDuplicates(receivedRaw))
      && (!ordered ==> Ascending(p.received) && Ascending(p.duplicates))
  {
    var (unique, duplicates) := SplitDuplicates(receivedRaw);
    SplitPartition(receivedRaw);
    SplitUnique(receivedRaw);
    SortKeepsDistinct(unique);
    var received := if ordered then unique else Sort(unique);
    assert forall x :: x in received <==> x in multiset(received);
  }

  /** The lost half of ReconcilePartitionSpec. */
  lemma ReconcileLost(sentList: seq<string>, receivedRaw: seq<string>, ordered: bool)
    ensures var p := ReconcilePartition(sentList, receivedRaw, ordered);
      && Ascending(p.lost) && Distinct(p.lost)
      && (forall x :: x in p.lost <==> x in sentList && x !in receivedRaw)
  {
    SplitUnique(receivedRaw);
    SortMembers(SplitDuplicates(receivedRaw).0);
    SortMembers(sentList);
  }

  // ---------------------------------------------------------------------
  // The report

  /** One reconciliation per key of the sent side; `sentLists` gives, per
      sent partition, the list the loss is computed from. */
  function Partitions(sentLists: Store, received: Store, ordered: bool): map<string, PartitionResult>
  {
    map k | k in sentLists :: ReconcilePartition(sentLists[k], Bucket(received, k), ordered)
  }

  /** The entries of `m` whose keys are in `d`. */
  function Restrict<V>(m: map<string, V>, d: set<string>): (r: map<string, V>)
    ensures r.Keys == m.Keys * d
    ensures forall j :: j in r ==> r[j] == m[j]
  {
    map j | j in m && j in d :: m[j]
  }

  /** Restricting to no key gives the empty map; to every key, the map itself. */
  lemma RestrictBounds<V>(m: map<string, V>)
    ensures Restrict(m, {}) == map[]
    ensures Restrict(m, m.Keys - {}) == m
  {
    assert m.Keys - {} == m.Keys;
  }

  /** Visiting one more key `k` of the keys still `rest`ing extends the
      restriction to the visited keys by that key's entry. */
  lemma RestrictStep<V>(m: map<string, V>, rest: set<string>, k: string)
    requires k in rest && rest <= m.Keys
    ensures k !in Restrict(m, m.Keys - rest)
    ensures Restrict(m, m.Keys - (rest - {k})) == Restrict(m, m.Keys - rest)[k := m[k]]
  {
    assert m.Keys - (rest - {k}) == (m.Keys - rest) + {k};
  }

  /** The per-partition maps of the report keep only non-empty entries. */
  function LostOf(parts: map<string, PartitionResult>): Store
  {
    map k | k in parts && parts[k].lost != [] :: parts[k].lost
  }

  function DuplicatesOf(parts: map<string, PartitionResult>): Store
  {
    map k | k in parts && parts[k].duplicates != [] :: parts[k].duplicates
  }

  function ReceivedOf(parts: map<string, PartitionResult>): Store
  {
    map k | k in parts && parts[k].received != [] :: parts[k].received
  }

  /** The report assembled from the partitions: each count is the summed
      length of the entries of its map. */
  ghost function ReportOf(parts: map<string, PartitionResult>, terminated: bool, metrics: Metrics): Report
  {
    Report(
      TotalLength(LostOf(parts)), LostOf(parts),
      TotalLength(DuplicatesOf(parts)), DuplicatesOf(parts),
      TotalLength(ReceivedOf(parts)), ReceivedOf(parts),
      terminated, metrics)
  }

  /** With no partition reconciled yet, the report is empty. */
  lemma ReportOfEmpty(terminated: bool, metrics: Metrics)
    ensures ReportOf(map[], terminated, metrics) == Report(0, map[], 0, map[], 0, map[], terminated, metrics)
  {
    assert LostOf(map[]) == map[] && DuplicatesOf(map[]) == map[] && ReceivedOf(map[]) == map[];
  }

  /** The list `GenerateReport` computes the loss from, for every sent
      partition, as state.go:130-131 writes it: `copy` into a nil slice. */
  function CopiedSent(sent: Store): (r: Store)
    ensures r.Keys == sent.Keys
    ensures forall k :: k in r ==> r[k] == []
  {
    map k | k in sent :: GoCopy([], sent[k])
  }

  /** The report `GenerateReport` returns, as written. */
  ghost function WrittenReport(sent: Store, received: Store, ordered: bool, terminated: bool, metrics: Metrics): Report
  {
    ReportOf(Partitions(CopiedSent(sent), received, ordered), terminated, metrics)
  }

  /** The evidently intended report: the loss is computed from the sent
      bucket itself. */
  ghost function IntendedReport(sent: Store, received: Store, ordered: bool, terminated: bool, metrics: Metrics): Report
  {
    ReportOf(Partitions(sent, received, ordered), terminated, metrics)
  }

  /** `Diff`: a message listing the lost events, or "" when there are none.
      The JSON rendering (`json.MarshalIndent`) is a parameter. */
  function DiffText(lost: Store, encode: Store -> string): (d: string)
    ensures d == "" <==> lost == map[]
  {
    if lost != map[] then "lost events by partition key:\n" + encode(lost) else ""
  }

  // ---------------------------------------------------------------------
  // Properties of the report

  /** A duplicate is found exactly when the bucket holds some identifier twice. */
  lemma {:induction false} NoDuplicatesIffDistinct(a: seq<string>)
    ensures SplitDuplicates(a).1 == [] <==> Distinct(a)
    decreases |a|
  {
    if a != [] {
      var p := a[..|a| - 1];
      var x := a[|a| - 1];
      NoDuplicatesIffDistinct(p);
      if Distinct(a) {
        assert Distinct(p);
        assert x !in p;
      }
      if !Distinct(p) {
        var i, j :| 0 <= i < j < |p| && p[i] == p[j];
        assert a[i] == a[j];
      }
    }
  }

  /** Adding one partition to the report adds its non-empty entries and
      their lengths to the counts. */
  lemma AddPartitionEntries(parts: map<string, PartitionResult>, k: string, p: PartitionResult)
    requires k !in parts
    ensures LostOf(parts[k := p]) == if p.lost != [] then LostOf(parts)[k := p.lost] else LostOf(parts)
    ensures DuplicatesOf(parts[k := p]) == if p.duplicates != [] then DuplicatesOf(parts)[k := p.duplicates] else DuplicatesOf(parts)
    ensures ReceivedOf(parts[k := p]) == if p.received != [] then ReceivedOf(parts)[k := p.received] else ReceivedOf(parts)
  {
    AddLost(parts, k, p);
    AddDuplicates(parts, k, p);
    AddReceived(parts, k, p);
  }

  lemma AddLost(parts: map<string, PartitionResult>, k: string, p: PartitionResult)
    requires k !in parts
    ensures LostOf(parts[k := p]) == if p.lost != [] then LostOf(parts)[k := p.lost] else LostOf(parts)
  {
    var a, b := LostOf(parts[k := p]), if p.lost != [] then LostOf(parts)[k := p.lost] else LostOf(parts);
    assert a.Keys == b.Keys;
  }

  lemma AddDuplicates(parts: map<string, PartitionResult>, k: string, p: PartitionResult)
    requires k !in parts
    ensures DuplicatesOf(parts[k := p]) == if p.duplicates != [] then DuplicatesOf(parts)[k := p.duplicates] else DuplicatesOf(parts)
  {
    var a, b := DuplicatesOf(parts[k := p]), if p.duplicates != [] then DuplicatesOf(parts)[k := p.duplicates] else DuplicatesOf(parts);
    assert a.Keys == b.Keys;
  }

  lemma AddReceived(parts: map<string, PartitionResult>, k: string, p: PartitionResult)
    requires k !in parts
    ensures ReceivedOf(parts[k := p]) == if p.received != [] then ReceivedOf(parts)[k := p.received] else ReceivedOf(parts)
  {
    var a, b := ReceivedOf(parts[k := p]), if p.received != [] then ReceivedOf(parts)[k := p.received] else ReceivedOf(parts);
    assert a.Keys == b.Keys;
  }

  lemma AddPartition(parts: map<string, PartitionResult>, k: string, p: PartitionResult)
    requires k !in parts
    ensures TotalLength(LostOf(parts[k := p])) == TotalLength(LostOf(parts)) + |p.lost|
    ensures TotalLength(DuplicatesOf(parts[k := p])) == TotalLength(DuplicatesOf(parts)) + |p.duplicates|
    ensures TotalLength(ReceivedOf(parts[k := p])) == TotalLength(ReceivedOf(parts)) + |p.received|
  {
    AddPartitionEntries(parts, k, p);
    if p.lost != [] { TotalLengthAdd(LostOf(parts), k, p.lost); }
    if p.duplicates != [] { TotalLengthAdd(DuplicatesOf(parts), k, p.duplicates); }
    if p.received != [] { TotalLengthAdd(ReceivedOf(parts), k, p.received); }
  }

  /** The bug of state.go:130-131: `copy` into a nil slice copies nothing,
      so the report as written never lists a lost event, whatever was sent
      and received. */
  lemma WrittenReportNeverLoses(sent: Store, received: Store, ordered: bool, terminated: bool, metrics: Metrics)
    ensures WrittenReport(sent, received, ordered, terminated, metrics).lostEvents == map[]
    ensures WrittenReport(sent, received, ordered, terminated, metrics).lostCount == 0
  {
    var parts := Partitions(CopiedSent(sent), received, ordered);
    forall k | k in parts ensures parts[k].lost == [] {
      assert CopiedSent(sent)[k] == [];
    }
    assert LostOf(parts) == map[];
  }

  /** A run that shows the bug: "a" and "b" are sent in partition "p1" and
      only "a" arrives. The report as written counts no loss, while the set
      difference the code evidently means to take lists "b" as lost. */
  lemma WrittenReportMissesLoss()
    ensures var sent := map["p1" := ["a", "b"]];
      var received := map["p1" := ["a"]];
      && WrittenReport(sent, received, true, true, ZeroMetrics).lostCount == 0
      && WrittenReport(sent, received, true, true, ZeroMetrics).lostEvents == map[]
      && "p1" in IntendedReport(sent, received, true, true, ZeroMetrics).lostEvents
      && IntendedReport(sent, received, true, true, ZeroMetrics).lostEvents["p1"] == ["b"]
  {
    var sent := map["p1" := ["a", "b"]];
    var received := map["p1" := ["a"]];
    WrittenReportNeverLoses(sent, received, true, true, ZeroMetrics);
    assert SplitDuplicates(["a"]) == (["a"], []) by {
      var a: seq<string> := ["a"];
      assert a[..0] == [];
      assert a[0] !in a[..0];
      assert SplitDuplicates(a[..0]) == ([], []);
      assert [] + [a[0]] == a;
    }
    assert Without(["a", "b"], ["a"]) == ["b"] by {
      assert ["a", "b"][..1] == ["a"];
      assert ["a"][..0] == [];
    }
    assert SplitDuplicates(["b"]) == (["b"], []) by {
      var a: seq<string> := ["b"];
      assert a[..0] == [];
      assert a[0] !in a[..0];
      assert SplitDuplicates(a[..0]) == ([], []);
      assert [] + [a[0]] == a;
    }
    assert Sort(["b"]) == ["b"] by {
      assert ["b"][1..] == [];
    }
    var p := ReconcilePartition(["a", "b"], ["a"], true);
    assert p.lost == ["b"];
    var parts := Partitions(sent, received, true);
    assert parts["p1"] == p;
  }

  /** The intended report lists, per sent partition, exactly the identifiers
      sent but never received, ascending and without repeats; partitions
      without loss have no entry. */
  lemma IntendedLossIsSetDifference(sent: Store, received: Store, ordered: bool, k: string)
    ensures var lost := LostOf(Partitions(sent, received, ordered));
      (k in lost <==> k in sent && exists x :: x in sent[k] && x !in Bucket(received, k))
      && (k in lost ==>
            Ascending(lost[k]) && Distinct(lost[k])
            && forall x :: x in lost[k] <==> x in sent[k] && x !in Bucket(received, k))
  {
    if k in sent {
      ReconcilePartitionSpec(sent[k], Bucket(received, k), ordered);
      var p := ReconcilePartition(sent[k], Bucket(received, k), ordered);
      if p.lost != [] {
        assert p.lost[0] in p.lost;
      }
    }
  }

  /** With the intended report, nothing is lost when every sent identifier
      was received in its partition. */
  lemma IntendedNoLossWhenAllReceived(sent: Store, received: Store, ordered: bool, terminated: bool, metrics: Metrics)
    requires forall k, x :: k in sent && x in sent[k] ==> x in Bucket(received, k)
    ensures IntendedReport(sent, received, ordered, terminated, metrics).lostEvents == map[]
    ensures IntendedReport(sent, received, ordered, terminated, metrics).lostCount == 0
  {
    var lost := LostOf(Partitions(sent, received, ordered));
    forall k | k in sent ensures k !in lost {
      IntendedLossIsSetDifference(sent, received, ordered, k);
    }
    assert lost == map[];
  }

  /** With the intended report, nothing is lost exactly when every sent
      identifier was received in its partition. */
  lemma IntendedNoLossIff(sent: Store, received: Store, ordered: bool)
    ensures LostOf(Partitions(sent, received, ordered)) == map[]
        <==> forall k, x :: k in sent && x in sent[k] ==> x in Bucket(received, k)
  {
    var lost := LostOf(Partitions(sent, received, ordered));
    if lost == map[] {
      forall k, x | k in sent && x in sent[k] ensures x in Bucket(received, k) {
        IntendedLossIsSetDifference(sent, received, ordered, k);
      }
    } else {
      var k :| k in lost;
      IntendedLossIsSetDifference(sent, received, ordered, k);
    }
  }

  /** The evident intent of `Diff`: empty exactly when nothing was lost. */
  function IntendedDiff(sent: Store, received: Store, ordered: bool, encode: Store -> string): (d: string)
    ensures d == "" <==> forall k, x :: k in sent && x in sent[k] ==> x in Bucket(received, k)
  {
    IntendedNoLossIff(sent, received, ordered);
    DiffText(LostOf(Partitions(sent, received, ordered)), encode)
  }

  /** The duplicate and received entries of a report: only sent partitions
      appear; the received entry is the bucket without repeats (sorted when
      unordered, in first-arrival order when ordered); a duplicate entry
      appears exactly when the bucket holds an identifier twice. */
  lemma ReportEntries(sentLists: Store, received: Store, ordered: bool, k: string)
    ensures var parts := Partitions(sentLists, received, ordered);
      && (k in ReceivedOf(parts) <==> k in sentLists && Bucket(received, k) != [])
      && (k in DuplicatesOf(parts) <==> k in sentLists && !Distinct(Bucket(received, k)))
      && (k in ReceivedOf(parts) ==>
            Distinct(ReceivedOf(parts)[k])
            && (forall x :: x in ReceivedOf(parts)[k] <==> x in Bucket(received, k))
            && (ordered ==> ReceivedOf(parts)[k] == SplitDuplicates(Bucket(received, k)).0)
            && (!ordered ==> Ascending(ReceivedOf(parts)[k])))
      && (k in DuplicatesOf(parts) ==>
            multiset(DuplicatesOf(parts)[k]) == multiset(SplitDuplicates(Bucket(received, k)).1)
            && (ordered ==> DuplicatesOf(parts)[k] == SplitDuplicates(Bucket(received, k)).1)
            && (!ordered ==> Ascending(DuplicatesOf(parts)[k])))
  {
    if k in sentLists {
      var b := Bucket(received, k);
      ReconcilePartitionSpec(sentLists[k], b, ordered);
      var p := ReconcilePartition(sentLists[k], b, ordered);
      NoDuplicatesIffDistinct(b);
      SplitPartition(b);
      if b != [] { assert b[0] in p.received; }
      assert p.duplicates == [] <==> SplitDuplicates(b).1 == [];
    }
  }

  /** A received bucket whose key was never sent contributes nothing to the
      report. */
  lemma ReceivedOnlyPartitionIgnored(sentLists: Store, received: Store, ordered: bool, terminated: bool, metrics: Metrics, k: string, v: seq<string>)
    requires k !in sentLists
    ensures ReportOf(Partitions(sentLists, received[k := v], ordered), terminated, metrics)
         == ReportOf(Partitions(sentLists, received, ordered), terminated, metrics)
  {
    assert Partitions(sentLists, received[k := v], ordered) == Partitions(sentLists, received, ordered) by {
      forall j | j in sentLists ensures Bucket(received[k := v], j) == Bucket(received, j) {
        assert j != k;
      }
    }
  }

  /** The per-key view of Partitions: taking one key out. */
  lemma PartitionsRemove(sentLists: Store, received: Store, ordered: bool, k: string)
    requires k in sentLists
    ensures Partitions(sentLists, received, ordered)
         == Partitions(sentLists - {k}, received, ordered)[k := ReconcilePartition(sentLists[k], Bucket(received, k), ordered)]
  {
    var a := Partitions(sentLists, received, ordered);
    var b := Partitions(sentLists - {k}, received, ordered)[k := ReconcilePartition(sentLists[k], Bucket(received, k), ordered)];
    assert a.Keys == b.Keys;
    forall j | j in a ensures a[j] == b[j] {
      if j != k {
        assert (sentLists - {k})[j] == sentLists[j];
      }
    }
  }

  /** The received buckets of the sent partitions. */
  function ReceivedInSent(sentLists: Store, received: Store): (m: Store)
    ensures m.Keys == sentLists.Keys
  {
    map k | k in sentLists :: Bucket(received, k)
  }

  /** Every identifier received in a sent partition is counted exactly once,
      either as received or as a duplicate: receivedCount counts distinct
      identifiers, not deliveries. */
  lemma {:induction false} ReportCountsAddUp(sentLists: Store, received: Store, ordered: bool)
    ensures var parts := Partitions(sentLists, received, ordered);
      TotalLength(ReceivedOf(parts)) + TotalLength(DuplicatesOf(parts)) == TotalLength(ReceivedInSent(sentLists, received))
    decreases |sentLists|
  {
    var parts := Partitions(sentLists, received, ordered);
    if sentLists == map[] {
      assert ReceivedInSent(sentLists, received) == map[];
      assert DuplicatesOf(parts) == map[] && ReceivedOf(parts) == map[];
    } else {
      var k :| k in sentLists;
      var rest := sentLists - {k};
      var b := Bucket(received, k);
      var p := ReconcilePartition(sentLists[k], b, ordered);
      var parts' := Partitions(rest, received, ordered);
      ReportCountsAddUp(rest, received, ordered);
      PartitionsRemove(sentLists, received, ordered, k);
      assert parts == parts'[k := p];
      AddPartition(parts', k, p);
      ReconcileReceived(sentLists[k], b, ordered);
      ReceivedInSentRemove(sentLists, received, k);
      TotalLengthAdd(ReceivedInSent(rest, received), k, b);
    }
  }

  lemma ReceivedInSentRemove(sentLists: Store, received: Store, k: string)
    requires k in sentLists
    ensures ReceivedInSent(sentLists, received) == ReceivedInSent(sentLists - {k}, received)[k := Bucket(received, k)]
  {
  }
}
