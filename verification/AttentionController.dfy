/**
 * `useAttentionController` in its own form: refs and React state updated in place, one method for
 * each synchronous block. Every method is proved to be the step of `AttentionProtocol` it stands for,
 * and so are whole runs of them.
 */
module AttentionController {
  import opened AttentionProtocol

  class Controller {
    var events: seq<Event>
    var refreshDue: bool
    var inFlightRef: bool
    var pendingRef: bool
    var requestSeqRef: nat
    var mutationSeqRef: nat
    var mutationChainRef: nat
    var followUps: multiset<nat>
    var hydrated: bool
    var loading: bool
    var error: bool

    function View(): Client
      reads this
    {
      Client(events, refreshDue, inFlightRef, pendingRef, requestSeqRef, mutationSeqRef, mutationChainRef,
             followUps, hydrated, loading, error)
    }

    constructor ()
      ensures View() == Client([], true, false, false, 0, 0, 0, multiset{}, false, false, false)
    {
      events, refreshDue, inFlightRef, pendingRef := [], true, false, false;
      requestSeqRef, mutationSeqRef, mutationChainRef, followUps := 0, 0, 0, multiset{};
      hydrated, loading, error := false, false, false;
    }

    /** The effect body up to its first `await`. */
    method RunEffectBody() returns (started: bool)
      modifies this
      ensures (View(), started) == RunEffect(old(View()))
    {
      refreshDue := false;
      if inFlightRef {
        pendingRef := true;
        return false;
      }
      inFlightRef := true;
      requestSeqRef := requestSeqRef + 1;
      if !hydrated { loading := true; }
      return true;
    }

    /**
     * `awaitMutationChainAndSnapshot`: `arrivals[k]` are the changes the user makes while the k-th
     * `await` is pending, `waits[k]` the length of the chain that it waits for. The loop ends with the
     * first wait during which no change came; the sequence it answers then counts exactly the writes
     * of the chain as it stood when that wait began, so none is counted that had not settled, and
     * whatever comes later counts as newer than the read.
     */
    method AwaitMutationChainAndSnapshot(arrivals: seq<seq<Mutation>>)
      returns (seqAtStart: nat, ghost waits: seq<nat>)
      requires mutationSeqRef == mutationChainRef
      requires forall k | 0 <= k < |arrivals| :: MarkSeen({}) !in arrivals[k]
      modifies this
      ensures 0 < |waits| <= |arrivals| + 1
      ensures forall k | 0 <= k < |waits| :: waits[k] == old(mutationChainRef) + |Flat(arrivals[..k])|
      ensures seqAtStart == mutationSeqRef == waits[|waits| - 1]
      ensures Woken(View(), waits[|waits| - 1]) == Snapshotted(seqAtStart)
      ensures View() == MutateAll(old(View()), Flat(arrivals[..|waits| - 1]))
      ensures forall k | 0 <= k < |waits| - 1 :: arrivals[k] != []
      ensures |waits| == |arrivals| + 1 || arrivals[|waits| - 1] == []
    {
      hide MutateAll, Flat;
      var k, waiting := 0, true;
      ghost var rounds := 0;
      waits := [];
      NoArrivals(View(), arrivals[..0]);
      while waiting
        invariant 0 <= k <= |arrivals| + 1 && rounds == (if waiting || k == 0 then k else k - 1) <= |arrivals|
        invariant |waits| == k && (!waiting ==> k > 0)
        invariant mutationSeqRef == mutationChainRef == old(mutationChainRef) + |Flat(arrivals[..rounds])|
        invariant forall j | 0 <= j < k :: waits[j] == old(mutationChainRef) + |Flat(arrivals[..j])|
        invariant View() == MutateAll(old(View()), Flat(arrivals[..rounds]))
        invariant forall j | 0 <= j < rounds :: arrivals[j] != []
        invariant !waiting ==> rounds == |arrivals| || arrivals[rounds] == []
        decreases waiting, |arrivals| - k
      {
        var chain := mutationChainRef;
        waits := waits + [chain];
        if k < |arrivals| {
          Act(arrivals[k]);
          ArrivalsOneMore(old(View()), arrivals, k);
          if arrivals[k] != [] { rounds := rounds + 1; }
        }
        waiting := chain != mutationChainRef;
        k := k + 1;
      }
      return mutationSeqRef, waits;
    }

    /** The user's changes in one go, each by its own callback. */
    method Act(ops: seq<Mutation>)
      requires MarkSeen({}) !in ops
      modifies this
      ensures View() == MutateAll(old(View()), ops)
      ensures mutationChainRef == old(mutationChainRef) + |ops| && mutationSeqRef == old(mutationSeqRef) + |ops|
    {
      for i := 0 to |ops|
        invariant View() == MutateAll(old(View()), ops[..i])
        invariant mutationChainRef == old(mutationChainRef) + i && mutationSeqRef == old(mutationSeqRef) + i
      {
        assert ops[..i + 1][..i] == ops[..i];
        match ops[i] {
          case MarkSeen(ids) => var written := MarkManySeen(ids);
          case Dismiss(id) => DismissEvent(id);
        }
      }
      assert ops[..|ops|] == ops;
    }

    /** `refresh`, also the failure handler of a write. */
    method Refresh()
      modifies this
      ensures View() == old(View()).(due := true)
    {
      refreshDue := true;
    }

    /** The re-fetch a discarded answer scheduled, once the chain it waited for has settled. */
    method FollowUpAfter(chain: nat)
      requires chain in followUps
      modifies this
      ensures View() == old(View()).(due := true, followUps := old(followUps) - multiset{chain})
    {
      followUps := followUps - multiset{chain};
      refreshDue := true;
    }

    method Settle()
      modifies this
      ensures View() == AttentionProtocol.Settle(old(View()))
    {
      inFlightRef := false;
      if pendingRef {
        pendingRef := false;
        refreshDue := true;
      }
    }

    /** The response block, for the request and the mutation sequence it was started with. */
    method OnAnswer(requestSeq: nat, mutationSeqAtStart: nat, nextEvents: seq<Event>)
      modifies this
      ensures View() == AttentionProtocol.OnAnswer(old(View()), requestSeq, mutationSeqAtStart, nextEvents)
    {
      Settle();
      if requestSeqRef != requestSeq { return; }
      if mutationSeqRef != mutationSeqAtStart {
        followUps := followUps + multiset{mutationChainRef};
        return;
      }
      if events != nextEvents { events := nextEvents; }
      error := false;
      loading := false;
      hydrated := true;
    }

    method OnFailure(requestSeq: nat)
      modifies this
      ensures View() == AttentionProtocol.OnFailure(old(View()), requestSeq)
    {
      Settle();
      if requestSeqRef != requestSeq { return; }
      error := true;
      loading := false;
    }

    method PersistMutation()
      modifies this`mutationChainRef
      ensures mutationChainRef == old(mutationChainRef) + 1
    {
      mutationChainRef := mutationChainRef + 1;
    }

    method MarkOneSeen(id: string)
      modifies this
      ensures View() == Mutate(old(View()), MarkSeen({id}))
      ensures IsMarked(old(events), events, {id})
    {
      MarkingMarks({id}, events);
      mutationSeqRef := mutationSeqRef + 1;
      events := Effect(MarkSeen({id}), events);
      PersistMutation();
    }

    method MarkManySeen(ids: set<string>) returns (written: bool)
      modifies this
      ensures written <==> ids != {}
      ensures View() == if written then Mutate(old(View()), MarkSeen(ids)) else old(View())
      ensures IsMarked(old(events), events, ids)
    {
      MarkingMarks(ids, events);
      if ids == {} { return false; }
      mutationSeqRef := mutationSeqRef + 1;
      events := Effect(MarkSeen(ids), events);
      PersistMutation();
      return true;
    }

    method DismissEvent(id: string)
      modifies this
      ensures View() == Mutate(old(View()), Dismiss(id))
      ensures IsRest(old(events), events, id)
    {
      DismissingLeavesTheRest(id, events);
      mutationSeqRef := mutationSeqRef + 1;
      events := Effect(Dismiss(id), events);
      PersistMutation();
    }

    /** One step of the protocol, by the method that stands for it. */
    method Perform(s: System, l: Label)
      requires View() == s.client && Enabled(s, l)
      modifies this
      ensures View() == Next(s, l).client
    {
      match l {
        case UserActs(MarkSeen(ids)) => var written := MarkManySeen(ids);
        case UserActs(Dismiss(id)) => DismissEvent(id);
        case Resync(_) => Refresh();
        case AskRefresh => Refresh();
        case RunEffectBody => var started := RunEffectBody();
        case Answer(r) => OnAnswer(r, s.fetches[r].seqAtStart, s.fetches[r].data);
        case FailRead(r) => OnFailure(r);
        case FollowUp(k) => FollowUpAfter(k);
        case _ =>
      }
    }

    /** A whole run: whatever comes in whatever order, the controller's state is the protocol's. */
    method Drive(s: System, run: seq<Label>)
      requires View() == s.client && Runs(s, run)
      modifies this
      ensures View() == After(s, run).client
    {
      hide After, Next, Runs, Enabled;
      var rest, now := run, s;
      while rest != []
        invariant Runs(now, rest) && After(now, rest) == After(s, run) && View() == now.client
        decreases |rest|
      {
        AfterStep(now, rest);
        Perform(now, rest[0]);
        now, rest := Next(now, rest[0]), rest[1..];
      }
      AfterNothing(now, rest);
    }
  }

  function MutateAll(c: Client, ops: seq<Mutation>): Client {
    if ops == [] then c else Mutate(MutateAll(c, ops[..|ops| - 1]), ops[|ops| - 1])
  }

  function Flat(lists: seq<seq<Mutation>>): seq<Mutation> {
    if lists == [] then [] else Flat(lists[..|lists| - 1]) + lists[|lists| - 1]
  }

  lemma NoArrivals(c: Client, lists: seq<seq<Mutation>>)
    requires lists == []
    ensures MutateAll(c, Flat(lists)) == c && |Flat(lists)| == 0
  {
  }

  lemma ArrivalsOneMore(c: Client, lists: seq<seq<Mutation>>, k: nat)
    requires k < |lists|
    ensures MutateAll(c, Flat(lists[..k + 1])) == MutateAll(MutateAll(c, Flat(lists[..k])), lists[k])
    ensures |Flat(lists[..k + 1])| == |Flat(lists[..k])| + |lists[k]|
    ensures lists[k] == [] ==> MutateAll(c, Flat(lists[..k + 1])) == MutateAll(c, Flat(lists[..k]))
  {
    assert lists[..k + 1][..k] == lists[..k];
    MutateAllOfConcat(c, Flat(lists[..k]), lists[k]);
  }

  lemma {:induction false} MutateAllOfConcat(c: Client, a: seq<Mutation>, b: seq<Mutation>)
    ensures MutateAll(c, a + b) == MutateAll(MutateAll(c, a), b)
  {
    if b == [] {
      assert a + b == a;
    } else {
      assert (a + b)[..|a + b| - 1] == a + b[..|b| - 1];
      MutateAllOfConcat(c, a, b[..|b| - 1]);
    }
  }
}
