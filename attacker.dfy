/** The sending side of the harness (attacker.go): the correlator that pairs
    each event the targeter proposes with the acceptance of its request, and
    the loop that classifies the load generator's results.

    The two correlator goroutines take one mutex around each step, so every
    step is atomic and any interleaving of the two is a sequence of steps
    (`Signal`s). The load generator, the channels and the rate are not
    modelled; its statistics stay opaque. */
module Attacker {
  import opened StringOrder
  import opened Events
  import opened Reports

  // ---------------------------------------------------------------------
  // The correlator as a state machine

  /** One atomic step of the correlator: an event arriving on `proposed` or
      an identifier arriving on `accepted`. */
  datatype Signal = Proposal(event: Event) | Acceptance(id: string)

  /** The state the two goroutines share: `proposedArr`, `acceptedArr`,
      `proposedCount` and what was written to `sentOut`, in order. */
  datatype Correlation = Correlation(
    proposed: map<string, Event>,
    accepted: set<string>,
    proposedCount: nat,
    sentOut: seq<Event>)

  const Initial := Correlation(map[], {}, 0, [])

  /** No identifier waits on both sides at once. */
  ghost predicate Disjoint(s: Correlation)
  {
    s.proposed.Keys !! s.accepted
  }

  /** Every stored event is stored under its own identifier. */
  ghost predicate WellKeyed(s: Correlation)
  {
    forall k :: k in s.proposed ==> s.proposed[k].id == k
  }

  ghost predicate Consistent(s: Correlation)
  {
    Disjoint(s) && WellKeyed(s)
  }

  /** The body of the proposal goroutine: count the proposal, store the
      event; when its acceptance is already there, send the event out and
      forget the identifier on both sides. */
  function ProposeStep(s: Correlation, e: Event): (r: Correlation)
    ensures Consistent(s) ==> Consistent(r)
    ensures r.proposedCount == s.proposedCount + 1
  {
    var stored := s.(proposedCount := s.proposedCount + 1, proposed := s.proposed[e.id := e]);
    if e.id in stored.accepted then
      stored.(sentOut := stored.sentOut + [e],
              proposed := stored.proposed - {e.id},
              accepted := stored.accepted - {e.id})
    else
      stored
  }

  /** The body of the acceptance goroutine: record the identifier; when its
      event is already stored, send that event out and forget the identifier
      on both sides. */
  function AcceptStep(s: Correlation, id: string): (r: Correlation)
    ensures Consistent(s) ==> Consistent(r)
    ensures r.proposedCount == s.proposedCount
  {
    var recorded := s.(accepted := s.accepted + {id});
    if id in recorded.proposed then
      recorded.(sentOut := recorded.sentOut + [recorded.proposed[id]],
                proposed := recorded.proposed - {id},
                accepted := recorded.accepted - {id})
    else
      recorded
  }

  function Step(s: Correlation, sig: Signal): (r: Correlation)
    ensures Consistent(s) ==> Consistent(r)
  {
    match sig
    case Proposal(e) => ProposeStep(s, e)
    case Acceptance(id) => AcceptStep(s, id)
  }

  /** The state after the steps `sigs`, in order. */
  function Run(s: Correlation, sigs: seq<Signal>): Correlation
    decreases |sigs|
  {
    if sigs == [] then s else Step(Run(s, sigs[..|sigs| - 1]), sigs[|sigs| - 1])
  }

  /** The identifier a signal is about. */
  function SignalId(sig: Signal): string
  {
    match sig
    case Proposal(e) => e.id
    case Acceptance(id) => id
  }

  /** The identifiers of the proposals among `sigs`, in order. */
  function ProposedIds(sigs: seq<Signal>): (ids: seq<string>)
    ensures |ids| <= |sigs|
    decreases |sigs|
  {
    if sigs == [] then []
    else
      var last := sigs[|sigs| - 1];
      ProposedIds(sigs[..|sigs| - 1]) + (if last.Proposal? then [last.event.id] else [])
  }

  /** The identifiers of the acceptances among `sigs`, in order. */
  function AcceptedIds(sigs: seq<Signal>): (ids: seq<string>)
    ensures |ids| <= |sigs|
    decreases |sigs|
  {
    if sigs == [] then []
    else
      var last := sigs[|sigs| - 1];
      AcceptedIds(sigs[..|sigs| - 1]) + (if last.Acceptance? then [last.id] else [])
  }

  /** The identifiers of a sequence of events. */
  function EventIds(es: seq<Event>): (ids: seq<string>)
    ensures |ids| == |es|
    ensures forall i :: 0 <= i < |es| ==> ids[i] == es[i].id
    decreases |es|
  {
    if es == [] then [] else EventIds(es[..|es| - 1]) + [es[|es| - 1].id]
  }

  // ---------------------------------------------------------------------
  // The correlator as the source keeps it: one object updated in place

  class Correlator {
    var proposedArr: map<string, Event>
    var acceptedArr: set<string>
    var proposedCount: nat
    var sentOut: seq<Event>

    function State(): Correlation
      reads this
    {
      Correlation(proposedArr, acceptedArr, proposedCount, sentOut)
    }

    /** `proposedCount := 0`, an empty map and an empty set. */
    constructor ()
      ensures State() == Initial
    {
      proposedArr := map[];
      acceptedArr := {};
      proposedCount := 0;
      sentOut := [];
    }

    /** One iteration of `for e := range proposed`, under the mutex. */
    method OnProposed(e: Event)
      modifies this
      ensures State() == ProposeStep(old(State()), e)
    {
      proposedCount := proposedCount + 1;
      proposedArr := proposedArr[e.id := e];
      if e.id in acceptedArr {
        sentOut := sentOut + [e];
        proposedArr := proposedArr - {e.id};
        acceptedArr := acceptedArr - {e.id};
      }
    }

    /** One iteration of `for id := range accepted`, under the mutex. */
    method OnAccepted(id: string)
      modifies this
      ensures State() == AcceptStep(old(State()), id)
    {
      acceptedArr := acceptedArr + {id};
      if id in proposedArr {
        var v := proposedArr[id];
        sentOut := sentOut + [v];
        proposedArr := proposedArr - {id};
        acceptedArr := acceptedArr - {id};
      }
    }
  }

  /** The two goroutines of `StartSender` run to completion under one
      schedule `sigs`: every interleaving of their locked steps is such a
      sequence. */
  method Correlate(sigs: seq<Signal>) returns (sentOut: seq<Event>, proposedCount: nat)
    ensures sentOut == Run(Initial, sigs).sentOut
    ensures proposedCount == Run(Initial, sigs).proposedCount
  {
    var c := new Correlator();
    for i := 0 to |sigs|
      invariant c.State() == Run(Initial, sigs[..i])
    {
      assert sigs[..i + 1][..i] == sigs[..i];
      match sigs[i]
      case Proposal(e) => c.OnProposed(e);
      case Acceptance(id) => c.OnAccepted(id);
    }
    assert sigs[..|sigs|] == sigs;
    sentOut, proposedCount := c.sentOut, c.proposedCount;
  }

  // ---------------------------------------------------------------------
  // Properties of the correlator

  /** One step sends out at most one event, and it does so exactly when the
      partner of the step's identifier is already waiting; the event sent is
      the stored proposal, and its identifier is then forgotten on both
      sides. */
  lemma StepEmission(s: Correlation, sig: Signal)
    requires Consistent(s)
    ensures var r := Step(s, sig);
      && s.sentOut <= r.sentOut
      && |r.sentOut| <= |s.sentOut| + 1
      && (|r.sentOut| == |s.sentOut| + 1 <==>
            (sig.Proposal? && sig.event.id in s.accepted) || (sig.Acceptance? && sig.id in s.proposed))
      && (|r.sentOut| == |s.sentOut| + 1 ==>
            var e := r.sentOut[|s.sentOut|];
            && e.id == SignalId(sig)
            && (sig.Proposal? ==> e == sig.event)
            && (sig.Acceptance? ==> e == s.proposed[sig.id])
            && e.id !in r.proposed && e.id !in r.accepted)
      && (|r.sentOut| == |s.sentOut| ==>
            (sig.Proposal? ==> r.proposed == s.proposed[sig.event.id := sig.event] && r.accepted == s.accepted)
            && (sig.Acceptance? ==> r.proposed == s.proposed && r.accepted == s.accepted + {sig.id}))
  {
  }

  /** Every state reached from the initial one is consistent. */
  lemma {:induction false} RunConsistent(sigs: seq<Signal>)
    ensures Consistent(Run(Initial, sigs))
    decreases |sigs|
  {
    if sigs != [] {
      RunConsistent(sigs[..|sigs| - 1]);
    }
  }

  /** Everything sent out was proposed, as that very event, and its
      identifier was accepted; everything waiting came from a step. */
  lemma {:induction false} RunProvenance(sigs: seq<Signal>)
    ensures var r := Run(Initial, sigs);
      && (forall k :: k in r.proposed ==> Proposal(r.proposed[k]) in sigs)
      && (forall k :: k in r.accepted ==> k in AcceptedIds(sigs))
      && (forall e :: e in r.sentOut ==> Proposal(e) in sigs && e.id in AcceptedIds(sigs))
    decreases |sigs|
  {
    if sigs != [] {
      var prefix := sigs[..|sigs| - 1];
      var last := sigs[|sigs| - 1];
      RunProvenance(prefix);
      RunConsistent(prefix);
      assert forall sig :: sig in prefix ==> sig in sigs;
      assert forall x :: x in AcceptedIds(prefix) ==> x in AcceptedIds(sigs);
      assert last in sigs;
      var prev := Run(Initial, prefix);
      if last.Acceptance? {
        assert last.id in AcceptedIds(sigs);
      }
    }
  }

  /** `proposedCount` counts every proposal, matched or not. */
  lemma {:induction false} ProposedCountCountsProposals(sigs: seq<Signal>)
    ensures Run(Initial, sigs).proposedCount == |ProposedIds(sigs)|
    decreases |sigs|
  {
    if sigs != [] {
      ProposedCountCountsProposals(sigs[..|sigs| - 1]);
    }
  }

  /** Each event sent out uses up one proposal and one acceptance, and so
      does each identifier still waiting on its side. */
  lemma {:induction false} RunBounds(sigs: seq<Signal>)
    ensures var r := Run(Initial, sigs);
      && |r.sentOut| + |r.proposed.Keys| <= |ProposedIds(sigs)|
      && |r.sentOut| + |r.accepted| <= |AcceptedIds(sigs)|
    decreases |sigs|
  {
    if sigs != [] {
      var prefix := sigs[..|sigs| - 1];
      RunBounds(prefix);
      RunConsistent(prefix);
      var prev := Run(Initial, prefix);
      match sigs[|sigs| - 1]
      case Proposal(e) =>
        assert prev.proposed[e.id := e].Keys == prev.proposed.Keys + {e.id};
        if e.id in prev.accepted {
          assert (prev.proposed[e.id := e] - {e.id}).Keys == prev.proposed.Keys;
        }
      case Acceptance(id) =>
        if id in prev.proposed {
          assert (prev.proposed - {id}).Keys == prev.proposed.Keys - {id};
          assert prev.accepted + {id} - {id} == prev.accepted;
        }
    }
  }

  /** The bookkeeping of an identifier `x` after the proposals `P` and the
      acceptances `A`, when none repeats: sent out once if it was both
      proposed and accepted, and otherwise waiting on the side it came from. */
  ghost predicate Tracks(s: Correlation, P: seq<string>, A: seq<string>)
  {
    forall x ::
      && multiset(EventIds(s.sentOut))[x] == (if x in P && x in A then 1 else 0)
      && (x in s.proposed <==> x in P && x !in A)
      && (x in s.accepted <==> x in A && x !in P)
  }

  /** A proposal of a new identifier keeps the bookkeeping. */
  lemma TracksProposal(s: Correlation, P: seq<string>, A: seq<string>, e: Event)
    requires Consistent(s) && Tracks(s, P, A) && e.id !in P
    ensures Tracks(ProposeStep(s, e), P + [e.id], A)
  {
    var r := ProposeStep(s, e);
    if e.id in s.accepted {
      assert EventIds(r.sentOut) == EventIds(s.sentOut) + [e.id];
    } else {
      assert r.sentOut == s.sentOut;
    }
  }

  /** An acceptance of a new identifier keeps the bookkeeping. */
  lemma TracksAcceptance(s: Correlation, P: seq<string>, A: seq<string>, id: string)
    requires Consistent(s) && Tracks(s, P, A) && id !in A
    ensures Tracks(AcceptStep(s, id), P, A + [id])
  {
    var r := AcceptStep(s, id);
    if id in s.proposed {
      assert EventIds(r.sentOut) == EventIds(s.sentOut) + [id];
    } else {
      assert r.sentOut == s.sentOut;
    }
  }

  /** Exactly once: when no identifier is proposed twice and none is
      accepted twice, then whatever the interleaving, an identifier is sent
      out once if it was both proposed and accepted and never otherwise, and
      an identifier still waits on one side exactly when its partner never
      came. */
  lemma {:induction false} ExactlyOnce(sigs: seq<Signal>)
    requires Distinct(ProposedIds(sigs)) && Distinct(AcceptedIds(sigs))
    ensures var r := Run(Initial, sigs);
      forall x ::
        && multiset(EventIds(r.sentOut))[x] == (if x in ProposedIds(sigs) && x in AcceptedIds(sigs) then 1 else 0)
        && (x in r.proposed <==> x in ProposedIds(sigs) && x !in AcceptedIds(sigs))
        && (x in r.accepted <==> x in AcceptedIds(sigs) && x !in ProposedIds(sigs))
    decreases |sigs|
  {
    if sigs == [] {
      assert EventIds([]) == [];
    } else {
      var prefix := sigs[..|sigs| - 1];
      var prev := Run(Initial, prefix);
      DistinctPrefix(ProposedIds(prefix), if sigs[|sigs| - 1].Proposal? then [sigs[|sigs| - 1].event.id] else []);
      DistinctPrefix(AcceptedIds(prefix), if sigs[|sigs| - 1].Acceptance? then [sigs[|sigs| - 1].id] else []);
      ExactlyOnce(prefix);
      RunConsistent(prefix);
      match sigs[|sigs| - 1]
      case Proposal(e) =>
        TracksProposal(prev, ProposedIds(prefix), AcceptedIds(prefix), e);
        assert AcceptedIds(sigs) == AcceptedIds(prefix) + [];
      case Acceptance(id) =>
        TracksAcceptance(prev, ProposedIds(prefix), AcceptedIds(prefix), id);
        assert ProposedIds(sigs) == ProposedIds(prefix) + [];
    }
  }

  /** A sequence without repeats keeps none in its prefix, and an element
      appended to it was not there before. */
  lemma DistinctPrefix(a: seq<string>, b: seq<string>)
    requires Distinct(a + b)
    ensures Distinct(a)
    ensures forall x :: x in b ==> x !in a
  {
    forall i, j | 0 <= i < |a| && 0 <= j < |b| ensures a[i] != b[j] {
      assert (a + b)[i] == a[i] && (a + b)[|a| + j] == b[j];
    }
    forall i, j | 0 <= i < j < |a| ensures a[i] != a[j] {
      assert (a + b)[i] == a[i] && (a + b)[j] == a[j];
    }
  }

  // ---------------------------------------------------------------------
  // The result loop

  /** What the loop reads of one result of the load generator: the error
      text, the status code and the `Cloudevent-Id` request header (empty when
      absent). */
  datatype AttackResult = AttackResult(error: string, code: int, idHeader: string)

  /** A request counts as accepted when it did not fail and got a 2xx. */
  predicate IsAccepted(res: AttackResult)
  {
    res.error == "" && 200 <= res.code < 300
  }

  /** The number of accepted requests among `results`. */
  function AcceptedCount(results: seq<AttackResult>): (n: nat)
    ensures n <= |results|
    decreases |results|
  {
    if results == [] then 0
    else AcceptedCount(results[..|results| - 1]) + (if IsAccepted(results[|results| - 1]) then 1 else 0)
  }

  /** The identifiers handed to the acceptance goroutine, in order: the
      header of every accepted request that carries one. */
  function ForwardedIds(results: seq<AttackResult>): seq<string>
    decreases |results|
  {
    if results == [] then []
    else
      var res := results[|results| - 1];
      ForwardedIds(results[..|results| - 1]) + (if IsAccepted(res) && res.idHeader != "" then [res.idHeader] else [])
  }

  /** The loop over the results of the attack: counts the accepted requests
      and forwards the identifier of each accepted request that has one. */
  method CollectAcceptances(results: seq<AttackResult>) returns (acceptedCount: nat, forwarded: seq<string>)
    ensures acceptedCount == AcceptedCount(results)
    ensures forwarded == ForwardedIds(results)
  {
    acceptedCount, forwarded := 0, [];
    for i := 0 to |results|
      invariant acceptedCount == AcceptedCount(results[..i])
      invariant forwarded == ForwardedIds(results[..i])
    {
      assert results[..i + 1][..i] == results[..i];
      var res := results[i];
      if res.error == "" && res.code >= 200 && res.code < 300 {
        acceptedCount := acceptedCount + 1;
        var id := res.idHeader;
        if id != "" {
          forwarded := forwarded + [id];
        }
      }
    }
    assert results[..|results|] == results;
  }

  /** An identifier is forwarded exactly when some accepted request carried
      it as a non-empty header: an empty header is never forwarded, and an
      accepted request without one is counted all the same. */
  lemma {:induction false} ForwardedIdsAreAcceptedHeaders(results: seq<AttackResult>)
    ensures forall x :: x in ForwardedIds(results) <==>
      x != "" && exists res :: res in results && IsAccepted(res) && res.idHeader == x
    decreases |results|
  {
    if results != [] {
      var prefix := results[..|results| - 1];
      var last := results[|results| - 1];
      ForwardedIdsAreAcceptedHeaders(prefix);
      assert results == prefix + [last];
      assert forall res :: res in results <==> res in prefix || res == last;
    }
  }

  /** No more identifiers are forwarded than requests were accepted. */
  lemma {:induction false} ForwardedAtMostAccepted(results: seq<AttackResult>)
    ensures |ForwardedIds(results)| <= AcceptedCount(results)
    decreases |results|
  {
    if results != [] {
      ForwardedAtMostAccepted(results[..|results| - 1]);
    }
  }

  /** `StartSender`'s returned counts: the proposals seen by the correlator
      and the accepted requests; the load statistics pass through. */
  function SenderMetrics(c: Correlation, acceptedCount: nat, load: LoadStats): Metrics
  {
    Metrics(c.proposedCount, acceptedCount, load)
  }

  /** The whole sending phase: whatever the interleaving of proposals with
      the forwarded acceptances, no more events are sent out than requests
      were accepted, and the reported counts are the proposals made and the
      requests accepted. */
  lemma SendingPhase(results: seq<AttackResult>, sigs: seq<Signal>, load: LoadStats)
    requires AcceptedIds(sigs) == ForwardedIds(results)
    ensures |Run(Initial, sigs).sentOut| <= AcceptedCount(results)
    ensures SenderMetrics(Run(Initial, sigs), AcceptedCount(results), load)
         == Metrics(|ProposedIds(sigs)|, AcceptedCount(results), load)
  {
    RunBounds(sigs);
    ForwardedAtMostAccepted(results);
    ProposedCountCountsProposals(sigs);
  }
}
