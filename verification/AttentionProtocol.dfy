/**
 * The attention events of the client: optimistic changes, their writes to the backend, and the
 * reads that bring both together again. Every synchronous JavaScript block is one atomic step; in
 * between, writes commit, fail and settle in any order and reads are answered whenever they are.
 *
 * Reads are kept per request number, so that "one fetch at a time" is proved and not built in.
 */
module AttentionProtocol {

  datatype Event = Event(id: string, seen: bool, detail: string)

  /** `markSeen` and `markManySeen`, and `dismiss`. */
  datatype Mutation = MarkSeen(ids: set<string>) | Dismiss(id: string)

  /** What a mutation does to a list of active events: the optimistic change, and the backend's own. */
  function Effect(m: Mutation, events: seq<Event>): (r: seq<Event>)
    ensures |r| <= |events|
  {
    if events == [] then []
    else
      var rest := Effect(m, events[1..]);
      match m
      case MarkSeen(ids) => [if events[0].id in ids then events[0].(seen := true) else events[0]] + rest
      case Dismiss(id) => if events[0].id == id then rest else [events[0]] + rest
  }

  lemma {:induction false} EffectIdempotent(m: Mutation, events: seq<Event>)
    ensures Effect(m, Effect(m, events)) == Effect(m, events)
  {
    if events != [] {
      EffectIdempotent(m, events[1..]);
      var r := Effect(m, events);
      if r != Effect(m, events[1..]) { assert r[1..] == Effect(m, events[1..]); }
    }
  }

  /** All mutations commute: the order in which the backend commits them cannot be seen. */
  lemma {:induction false} EffectsCommute(m: Mutation, n: Mutation, events: seq<Event>)
    ensures Effect(m, Effect(n, events)) == Effect(n, Effect(m, events))
  {
    if events != [] {
      EffectsCommute(m, n, events[1..]);
      var a, b := Effect(m, events), Effect(n, events);
      if a != Effect(m, events[1..]) { assert a[1..] == Effect(m, events[1..]); }
      if b != Effect(n, events[1..]) { assert b[1..] == Effect(n, events[1..]); }
    }
  }

  /** Every event stays in its place as it was, but that it is seen if it was or if its id is among `ids`. */
  ghost predicate IsMarked(events: seq<Event>, r: seq<Event>, ids: set<string>) {
    |r| == |events| && forall i | 0 <= i < |events| ::
      && r[i].id == events[i].id && r[i].detail == events[i].detail
      && (r[i].seen <==> events[i].seen || events[i].id in ids)
  }

  lemma {:induction false} MarkingMarks(ids: set<string>, events: seq<Event>)
    ensures IsMarked(events, Effect(MarkSeen(ids), events), ids)
  {
    if events != [] {
      MarkingMarks(ids, events[1..]);
      var rest := Effect(MarkSeen(ids), events[1..]);
      assert Effect(MarkSeen(ids), events)[1..] == rest;
      assert forall i | 0 < i < |events| :: events[i] == events[1..][i - 1];
    }
  }

  /** `r` is the events at `places`, which are all the places of events with another id, in their order. */
  ghost predicate IsRestAt(events: seq<Event>, r: seq<Event>, id: string, places: seq<nat>) {
    && |places| == |r| && (forall k, l | 0 <= k < l < |r| :: places[k] < places[l])
    && (forall k | 0 <= k < |r| :: places[k] < |events| && r[k] == events[places[k]])
    && (forall i: nat | i < |events| :: i in places <==> events[i].id != id)
  }

  ghost predicate IsRest(events: seq<Event>, r: seq<Event>, id: string) {
    exists places: seq<nat> :: IsRestAt(events, r, id, places)
  }

  lemma {:induction false} DismissOfLast(id: string, events: seq<Event>, last: Event)
    ensures Effect(Dismiss(id), events + [last]) == Effect(Dismiss(id), events) + if last.id == id then [] else [last]
  {
    if events == [] {
      assert events + [last] == [last] && [last][1..] == [];
    } else {
      assert (events + [last])[1..] == events[1..] + [last];
      DismissOfLast(id, events[1..], last);
    }
  }

  /** Dismissing leaves exactly the events with another id, each as often as before and in their order. */
  lemma {:induction false} DismissingLeavesTheRest(id: string, events: seq<Event>)
    ensures IsRest(events, Effect(Dismiss(id), events), id)
  {
    if events == [] {
      assert IsRestAt(events, [], id, []);
    } else {
      var n := |events| - 1;
      assert events == events[..n] + [events[n]];
      DismissOfLast(id, events[..n], events[n]);
      DismissingLeavesTheRest(id, events[..n]);
      var before := Effect(Dismiss(id), events[..n]);
      var places: seq<nat> :| IsRestAt(events[..n], before, id, places);
      OneMoreBehind(events, before, id, places);
    }
  }

  lemma OneMoreBehind(events: seq<Event>, before: seq<Event>, id: string, places: seq<nat>)
    requires events != [] && IsRestAt(events[..|events| - 1], before, id, places)
    ensures var last := events[|events| - 1];
      IsRest(events, before + if last.id == id then [] else [last], id)
  {
    var n := |events| - 1;
    assert forall k | 0 <= k < |places| :: places[k] in places && places[k] < n;
    if events[n].id == id {
      assert IsRestAt(events, before + [], id, places);
    } else {
      assert IsRestAt(events, before + [events[n]], id, places + [n]);
    }
  }

  // ---- The client -------------------------------------------------------------------------

  datatype Read =
    | Waiting(chain: nat)                    // awaits the first `chain` writes
    | Snapshotted(seqAtStart: nat)           // the wait loop has returned
    | Reading(seqAtStart: nat)               // the request is on its way
    | Answered(seqAtStart: nat, data: seq<Event>, current: bool)

  /**
   * `due`: the effect is to run (again); `chain`: how many writes the persistence chain holds;
   * `followUps`: re-fetches scheduled for when the chain, as it then was, has settled.
   */
  datatype Client = Client(
    events: seq<Event>, due: bool, inFlight: bool, pending: bool, requestSeq: nat, mutationSeq: nat,
    chain: nat, followUps: multiset<nat>, hydrated: bool, loading: bool, error: bool)

  /** The effect body: fold into the running fetch, or start one. Answers whether one was started. */
  function RunEffect(c: Client): (Client, bool) {
    if c.inFlight then (c.(due := false, pending := true), false)
    else (c.(due := false, inFlight := true, requestSeq := c.requestSeq + 1, loading := c.loading || !c.hydrated), true)
  }

  function Settle(c: Client): Client {
    c.(inFlight := false, pending := false, due := c.due || c.pending)
  }

  /** The response block: ignored, discarded for a re-fetch, or applied. */
  function OnAnswer(c: Client, request: nat, seqAtStart: nat, data: seq<Event>): Client {
    var settled := Settle(c);
    if settled.requestSeq != request then settled
    else if settled.mutationSeq != seqAtStart then settled.(followUps := settled.followUps + multiset{settled.chain})
    else settled.(events := data, error := false, loading := false, hydrated := true)
  }

  function OnFailure(c: Client, request: nat): Client {
    var settled := Settle(c);
    if settled.requestSeq != request then settled else settled.(error := true, loading := false)
  }

  function Mutate(c: Client, m: Mutation): Client {
    c.(mutationSeq := c.mutationSeq + 1, events := Effect(m, c.events), chain := c.chain + 1)
  }

  // ---- The whole system -------------------------------------------------------------------

  datatype Fate = Outgoing | Committed | Refused
  /** `settled`: its promise is settled; `resynced`: the failure handler has asked for a refresh. */
  datatype Write = Write(op: Mutation, fate: Fate, settled: bool, resynced: bool)

  /** `foreign`: the backend changed by other hands since the last answer that was applied. */
  datatype System = System(client: Client, fetches: map<nat, Read>, writes: seq<Write>, backend: seq<Event>,
    foreign: bool)

  datatype Label =
    | UserActs(op: Mutation)
    | Commit(write: nat)
    | Refuse(write: nat, backend: seq<Event>)    // a failed write may have been applied in part
    | SettleWrite(write: nat)
    | Resync(write: nat)
    | AskRefresh
    | RunEffectBody
    | Wake(request: nat)
    | Send(request: nat)
    | Serve(request: nat)
    | Answer(request: nat)
    | FailRead(request: nat)
    | FollowUp(chain: nat)
    | OthersAct(backend: seq<Event>)

  predicate ChainSettled(writes: seq<Write>, chain: nat) {
    forall i | 0 <= i < chain && i < |writes| :: writes[i].settled
  }

  /** A list on which every committed change shows. */
  predicate Keeps(events: seq<Event>, writes: seq<Write>) {
    forall i | 0 <= i < |writes| && writes[i].fate == Committed :: Effect(writes[i].op, events) == events
  }

  predicate Enabled(s: System, l: Label) {
    match l
    case UserActs(op) => op != MarkSeen({})
    case Commit(i) => i < |s.writes| && s.writes[i].fate == Outgoing
    case Refuse(i, b) => i < |s.writes| && s.writes[i].fate == Outgoing && Keeps(b, s.writes)
    case SettleWrite(i) => i < |s.writes| && s.writes[i].fate != Outgoing && !s.writes[i].settled
    case Resync(i) => i < |s.writes| && s.writes[i].fate == Refused && s.writes[i].settled && !s.writes[i].resynced
    case AskRefresh => true
    case RunEffectBody => s.client.due
    case Wake(r) => r in s.fetches && s.fetches[r].Waiting? && ChainSettled(s.writes, s.fetches[r].chain)
    case Send(r) => r in s.fetches && s.fetches[r].Snapshotted?
    case Serve(r) => r in s.fetches && s.fetches[r].Reading?
    case Answer(r) => r in s.fetches && s.fetches[r].Answered?
    case FailRead(r) => r in s.fetches && s.fetches[r].Reading?
    case FollowUp(k) => k in s.client.followUps && ChainSettled(s.writes, k)
    case OthersAct(b) => Keeps(b, s.writes)
  }

  function Next(s: System, l: Label): System
    requires Enabled(s, l)
  {
    match l
    case UserActs(op) => s.(client := Mutate(s.client, op), writes := s.writes + [Write(op, Outgoing, false, false)])
    case Commit(i) => s.(writes := s.writes[i := s.writes[i].(fate := Committed)],
      backend := Effect(s.writes[i].op, s.backend))
    case Refuse(i, b) => s.(writes := s.writes[i := s.writes[i].(fate := Refused)], backend := b)
    case SettleWrite(i) => s.(writes := s.writes[i := s.writes[i].(settled := true)])
    case Resync(i) => s.(writes := s.writes[i := s.writes[i].(resynced := true)], client := s.client.(due := true))
    case AskRefresh => s.(client := s.client.(due := true))
    case RunEffectBody =>
      var (client, started) := RunEffect(s.client);
      s.(client := client, fetches := if started
        then s.fetches[client.requestSeq := Waiting(client.chain)] else s.fetches)
    case Wake(r) =>
      s.(fetches := s.fetches[r := Woken(s.client, s.fetches[r].chain)])
    case Send(r) => s.(fetches := s.fetches[r := Reading(s.fetches[r].seqAtStart)])
    case Serve(r) => s.(fetches := s.fetches[r := Answered(s.fetches[r].seqAtStart, s.backend, true)])
    case Answer(r) =>
      var client := OnAnswer(s.client, r, s.fetches[r].seqAtStart, s.fetches[r].data);
      s.(client := client, fetches := s.fetches - {r}, foreign := if Applies(s, r)
        then !s.fetches[r].current else s.foreign)
    case FailRead(r) => s.(client := OnFailure(s.client, r), fetches := s.fetches - {r})
    case FollowUp(k) => s.(client := s.client.(due := true, followUps := s.client.followUps - multiset{k}))
    case OthersAct(b) => s.(backend := b, foreign := true, fetches := Outdated(s.fetches))
  }

  /** One round of the wait loop: the sequence is read in the very block that finds the chain unchanged. */
  function Woken(c: Client, chain: nat): Read {
    if chain == c.chain then Snapshotted(c.mutationSeq) else Waiting(c.chain)
  }

  predicate Applies(s: System, r: nat) {
    r in s.fetches && s.fetches[r].Answered? && s.client.requestSeq == r &&
      s.client.mutationSeq == s.fetches[r].seqAtStart
  }

  function Outdated(fetches: map<nat, Read>): map<nat, Read> {
    map r | r in fetches :: if fetches[r].Answered? then fetches[r].(current := false) else fetches[r]
  }

  // ---- Invariants -------------------------------------------------------------------------

  /** The backend with every write still on its way applied on top. */
  function Expected(writes: seq<Write>, backend: seq<Event>): seq<Event> {
    if writes == [] then backend
    else
      var w := writes[|writes| - 1];
      var before := Expected(writes[..|writes| - 1], backend);
      if w.fate == Outgoing then Effect(w.op, before) else before
  }

  /** Something is already on its way that will read the backend again. */
  predicate RepairUnderWay(s: System) {
    || s.client.due || s.client.inFlight || s.client.followUps != multiset{}
    || exists i | 0 <= i < |s.writes| :: s.writes[i].fate == Refused && !s.writes[i].resynced
  }

  ghost predicate Sequenced(s: System) {
    && s.client.chain == s.client.mutationSeq == |s.writes|
    && s.fetches.Keys == (if s.client.inFlight then {s.client.requestSeq} else {})
    && (s.client.pending ==> s.client.inFlight)
    && (forall i | 0 <= i < |s.writes| :: s.writes[i].settled ==> s.writes[i].fate != Outgoing)
    && (forall i | 0 <= i < |s.writes| :: s.writes[i].resynced ==> s.writes[i].settled)
  }

  ghost predicate ReadInv(s: System, r: Read) {
    match r
    case Waiting(chain) => chain <= |s.writes|
    case Snapshotted(n) => n <= |s.writes| && ChainSettled(s.writes, n)
    case Reading(n) => n <= |s.writes| && ChainSettled(s.writes, n)
    case Answered(n, data, current) =>
      && n <= |s.writes| && ChainSettled(s.writes, n) && Keeps(data, s.writes[..n])
      && (n == |s.writes| && current ==> data == s.backend)
  }

  ghost predicate ReadsInv(s: System) { forall r | r in s.fetches :: ReadInv(s, s.fetches[r]) }

  /** Every change the user made shows on screen, unless its write was refused. */
  predicate Shown(events: seq<Event>, writes: seq<Write>) {
    forall i | 0 <= i < |writes| && writes[i].fate != Refused :: Effect(writes[i].op, events) == events
  }

  predicate InStep(s: System) {
    RepairUnderWay(s) || s.client.error || s.foreign || s.client.events == Expected(s.writes, s.backend)
  }

  ghost predicate Inv(s: System) {
    Sequenced(s) && ReadsInv(s) && Keeps(s.backend, s.writes) && Shown(s.client.events, s.writes) && InStep(s)
  }

  ghost predicate Initial(s: System) {
    && s.client == Client([], true, false, false, 0, 0, 0, multiset{}, false, false, false)
    && s.fetches == map[] && s.writes == [] && !s.foreign
  }

  // ---- Writes on their way ----------------------------------------------------------------

  lemma {:induction false} ExpectedShifts(writes: seq<Write>, m: Mutation, backend: seq<Event>)
    ensures Expected(writes, Effect(m, backend)) == Effect(m, Expected(writes, backend))
  {
    if writes != [] {
      ExpectedShifts(writes[..|writes| - 1], m, backend);
      EffectsCommute(writes[|writes| - 1].op, m, Expected(writes[..|writes| - 1], backend));
    }
  }

  /** Committing any write, in whatever order, leaves what is expected in the end unchanged. */
  lemma {:induction false} CommitKeepsExpected(writes: seq<Write>, i: nat, backend: seq<Event>)
    requires i < |writes| && writes[i].fate == Outgoing
    ensures Expected(writes[i := writes[i].(fate := Committed)], Effect(writes[i].op, backend))
      == Expected(writes, backend)
  {
    var n := |writes| - 1;
    var writes' := writes[i := writes[i].(fate := Committed)];
    if i == n {
      assert writes'[..n] == writes[..n];
      ExpectedShifts(writes[..n], writes[i].op, backend);
    } else {
      assert writes'[..n] == writes[..n][i := writes[..n][i].(fate := Committed)];
      CommitKeepsExpected(writes[..n], i, backend);
    }
  }

  lemma {:induction false} ExpectedOfQuiet(writes: seq<Write>, backend: seq<Event>)
    requires forall i | 0 <= i < |writes| :: writes[i].fate != Outgoing
    ensures Expected(writes, backend) == backend
  {
    if writes != [] { ExpectedOfQuiet(writes[..|writes| - 1], backend); }
  }

  lemma {:induction false} ExpectedIgnoresFlags(writes: seq<Write>, writes': seq<Write>, backend: seq<Event>)
    requires |writes| == |writes'|
    requires forall i | 0 <= i < |writes| :: writes[i].op == writes'[i].op && writes[i].fate == writes'[i].fate
    ensures Expected(writes, backend) == Expected(writes', backend)
  {
    if writes != [] { ExpectedIgnoresFlags(writes[..|writes| - 1], writes'[..|writes| - 1], backend); }
  }

  lemma CommitKeeps(writes: seq<Write>, i: nat, backend: seq<Event>)
    requires i < |writes| && Keeps(backend, writes)
    ensures Keeps(Effect(writes[i].op, backend), writes[i := writes[i].(fate := Committed)])
  {
    forall j | 0 <= j < |writes| && (j == i || writes[j].fate == Committed)
      ensures Effect(writes[j].op, Effect(writes[i].op, backend)) == Effect(writes[i].op, backend)
    {
      if j == i { EffectIdempotent(writes[i].op, backend); }
      else { EffectsCommute(writes[j].op, writes[i].op, backend); }
    }
  }

  lemma MutationShows(events: seq<Event>, writes: seq<Write>, m: Mutation, w: Write)
    requires Shown(events, writes) && w.op == m
    ensures Shown(Effect(m, events), writes + [w])
  {
    forall i | 0 <= i <= |writes| && (writes + [w])[i].fate != Refused
      ensures Effect((writes + [w])[i].op, Effect(m, events)) == Effect(m, events)
    {
      if i == |writes| { EffectIdempotent(m, events); }
      else { EffectsCommute(writes[i].op, m, events); }
    }
  }

  // ---- Every step keeps the invariant -----------------------------------------------------

  lemma NextKeepsSequenced(s: System, l: Label)
    requires Inv(s) && Enabled(s, l)
    ensures Sequenced(Next(s, l))
  {
    hide InStep, Shown, Effect, Keeps, ReadsInv;
  }

  lemma ReadSurvivesMutation(s: System, s': System, r: Read)
    requires ReadInv(s, r) && |s'.writes| == |s.writes| + 1 && s'.writes[..|s.writes|] == s.writes
    ensures ReadInv(s', r)
  {
    if !r.Waiting? { assert s'.writes[..r.seqAtStart] == s.writes[..r.seqAtStart]; }
  }

  /** What a read brought stays good when the writes behind it, not settled yet, move on. */
  lemma ReadSurvivesFlags(s: System, s': System, r: Read)
    requires ReadInv(s, r) && |s'.writes| == |s.writes|
    requires forall i | 0 <= i < |s.writes| && s.writes[i].settled :: s'.writes[i].settled
    requires forall i | 0 <= i < |s.writes| && s.writes[i].settled :: s'.writes[i].op == s.writes[i].op
    requires forall i | 0 <= i < |s.writes| && s.writes[i].settled :: s'.writes[i].fate == s.writes[i].fate
    requires s'.backend == s.backend || exists i :: 0 <= i < |s.writes| && !s.writes[i].settled
    ensures ReadInv(s', r)
  {
  }

  lemma NextKeepsRead(s: System, l: Label, r: nat)
    requires Inv(s) && Enabled(s, l) && r in Next(s, l).fetches
    ensures ReadInv(Next(s, l), Next(s, l).fetches[r])
  {
    hide InStep, Shown, Effect;
    var s' := Next(s, l);
    if r in s.fetches { assert ReadInv(s, s.fetches[r]); }
    match l
    case UserActs(op) => ReadSurvivesMutation(s, s', s.fetches[r]);
    case Commit(i) => ReadSurvivesFlags(s, s', s.fetches[r]);
    case Refuse(i, _) => ReadSurvivesFlags(s, s', s.fetches[r]);
    case SettleWrite(i) => ReadSurvivesFlags(s, s', s.fetches[r]);
    case Resync(i) => ReadSurvivesFlags(s, s', s.fetches[r]);
    case Serve(q) => assert s.writes[..|s.writes|] == s.writes;
    case _ =>
  }

  lemma NextKeepsFetches(s: System, l: Label)
    requires Inv(s) && Enabled(s, l)
    ensures ReadsInv(Next(s, l))
  {
    var s' := Next(s, l);
    forall r | r in s'.fetches ensures ReadInv(s', s'.fetches[r]) { NextKeepsRead(s, l, r); }
  }

  lemma NextKeepsBackend(s: System, l: Label)
    requires Inv(s) && Enabled(s, l)
    ensures Keeps(Next(s, l).backend, Next(s, l).writes)
  {
    if l.Commit? { CommitKeeps(s.writes, l.write, s.backend); }
  }

  lemma NextKeepsShown(s: System, l: Label)
    requires Inv(s) && Enabled(s, l)
    ensures Shown(Next(s, l).client.events, Next(s, l).writes)
  {
    if l.UserActs? { MutationShows(s.client.events, s.writes, l.op, Write(l.op, Outgoing, false, false)); }
    else if l.Answer? && Applies(s, l.request) {
      assert ReadInv(s, s.fetches[l.request]);
      assert s.writes[..|s.writes|] == s.writes;
    }
  }

  lemma RefusedStays(writes: seq<Write>, writes': seq<Write>)
    requires |writes| <= |writes'|
    requires forall j | 0 <= j < |writes| && writes[j].fate == Refused :: writes'[j] == writes[j]
    ensures (exists j | 0 <= j < |writes| :: writes[j].fate == Refused && !writes[j].resynced)
        ==> (exists j | 0 <= j < |writes'| :: writes'[j].fate == Refused && !writes'[j].resynced)
  {
    if j :| 0 <= j < |writes| && writes[j].fate == Refused && !writes[j].resynced { assert writes'[j].fate == Refused; }
  }

  lemma NextKeepsInStep(s: System, l: Label)
    requires Inv(s) && Enabled(s, l)
    ensures InStep(Next(s, l))
  {
    var s' := Next(s, l);
    match l
    case UserActs(op) => assert s'.writes[..|s.writes|] == s.writes;
    case Commit(i) =>
      CommitKeepsExpected(s.writes, i, s.backend);
      RefusedStays(s.writes, s'.writes);
    case SettleWrite(_) => ExpectedIgnoresFlags(s.writes, s'.writes, s.backend);
    case Refuse(i, _) => assert s'.writes[i].fate == Refused && !s'.writes[i].resynced;
    case Answer(r) =>
      assert ReadInv(s, s.fetches[r]);
      if Applies(s, r) { ExpectedOfQuiet(s.writes, s.backend); }
    case _ =>
  }

  lemma NextKeepsInv(s: System, l: Label)
    requires Inv(s) && Enabled(s, l)
    ensures Inv(Next(s, l))
  {
    NextKeepsSequenced(s, l);
    NextKeepsFetches(s, l);
    NextKeepsBackend(s, l);
    NextKeepsShown(s, l);
    NextKeepsInStep(s, l);
  }

  // ---- Runs -------------------------------------------------------------------------------

  predicate Runs(s: System, run: seq<Label>)
    decreases run
  {
    run == [] || (Enabled(s, run[0]) && Runs(Next(s, run[0]), run[1..]))
  }

  function After(s: System, run: seq<Label>): System
    requires Runs(s, run)
    decreases run
  {
    if run == [] then s else After(Next(s, run[0]), run[1..])
  }

  lemma AfterStep(s: System, run: seq<Label>)
    requires run != [] && Runs(s, run)
    ensures Enabled(s, run[0]) && Runs(Next(s, run[0]), run[1..]) && After(s, run) == After(Next(s, run[0]), run[1..])
  {
  }

  lemma AfterNothing(s: System, run: seq<Label>)
    requires run == []
    ensures Runs(s, run) && After(s, run) == s
  {
  }

  lemma {:induction false} RunKeepsInv(s: System, run: seq<Label>)
    requires Inv(s) && Runs(s, run)
    ensures Inv(After(s, run))
    decreases run
  {
    if run != [] {
      NextKeepsInv(s, run[0]);
      RunKeepsInv(Next(s, run[0]), run[1..]);
    }
  }

  lemma {:induction false} NobodyElseActed(s: System, run: seq<Label>)
    requires Runs(s, run) && !s.foreign && (forall r | r in s.fetches && s.fetches[r].Answered? :: s.fetches[r].current)
    requires forall l | l in run :: !l.OthersAct?
    ensures !After(s, run).foreign
    decreases run
  {
    if run != [] {
      assert !run[0].OthersAct?;
      NobodyElseActed(Next(s, run[0]), run[1..]);
    }
  }

  /** Nothing is outstanding: every write has settled and no read is running or scheduled. */
  predicate Quiet(s: System) {
    && (forall i | 0 <= i < |s.writes| :: s.writes[i].settled)
    && !RepairUnderWay(s)
  }

  /**
   * In every reachable state, whatever writes failed (even half-applied), whatever reads failed and
   * whatever answers were discarded: a read that will repair the screen is running or scheduled, or
   * the error strip is up, or the screen shows the backend with the writes still on their way.
   */
  lemma AlwaysInStep(s: System, run: seq<Label>)
    requires Initial(s) && Runs(s, run) && (forall l | l in run :: !l.OthersAct?)
    ensures var e := After(s, run);
      RepairUnderWay(e) || e.client.error || e.client.events == Expected(e.writes, e.backend)
  {
    RunKeepsInv(s, run);
    NobodyElseActed(s, run);
  }

  /** CONVERGENCE. Once nothing is outstanding and no read has failed since, screen and backend agree. */
  lemma Converges(s: System, run: seq<Label>)
    requires Initial(s) && Runs(s, run) && (forall l | l in run :: !l.OthersAct?)
    requires Quiet(After(s, run)) && !After(s, run).client.error
    ensures After(s, run).client.events == After(s, run).backend
  {
    RunKeepsInv(s, run);
    NobodyElseActed(s, run);
    var e := After(s, run);
    ExpectedOfQuiet(e.writes, e.backend);
  }

  /** The change shows: the named events are seen, or the dismissed one is gone. */
  predicate Reflects(events: seq<Event>, m: Mutation) {
    forall e | e in events ::
      match m
      case MarkSeen(ids) => e.id in ids ==> e.seen
      case Dismiss(id) => e.id != id
  }

  lemma {:induction false} ReflectsIsFixed(events: seq<Event>, m: Mutation)
    ensures Effect(m, events) == events <==> Reflects(events, m)
  {
    if events != [] {
      ReflectsIsFixed(events[1..], m);
      assert events == [events[0]] + events[1..];
      var r := Effect(m, events);
      if |r| == |events| { assert r[1..] == Effect(m, events[1..]); }
    }
  }

  /**
   * NO UNDO. In every reachable state, with other hands on the backend too, every change the user
   * made and whose write was not refused is showing: no answer ever takes one back.
   */
  lemma NothingIsUndone(s: System, run: seq<Label>, i: nat)
    requires Initial(s) && Runs(s, run)
    requires i < |After(s, run).writes| && After(s, run).writes[i].fate != Refused
    ensures Reflects(After(s, run).client.events, After(s, run).writes[i].op)
  {
    RunKeepsInv(s, run);
    ReflectsIsFixed(After(s, run).client.events, After(s, run).writes[i].op);
  }

  /** A request is sent once: its sequence stays, and no later request takes its number. */
  ghost predicate Sent(s: System, r: nat, seqAtStart: nat) {
    && r <= s.client.requestSeq
    && (r in s.fetches ==> !s.fetches[r].Waiting? && s.fetches[r].seqAtStart == seqAtStart)
  }

  lemma NextKeepsSent(s: System, l: Label, r: nat, seqAtStart: nat)
    requires Inv(s) && Enabled(s, l) && Sent(s, r, seqAtStart)
    ensures Sent(Next(s, l), r, seqAtStart) && |s.writes| <= |Next(s, l).writes|
  {
    hide ReadsInv, Keeps, Shown, InStep, Effect;
  }

  lemma {:induction false} RunKeepsSent(s: System, run: seq<Label>, r: nat, seqAtStart: nat)
    requires Inv(s) && Runs(s, run) && Sent(s, r, seqAtStart)
    ensures Sent(After(s, run), r, seqAtStart) && |s.writes| <= |After(s, run).writes|
    decreases run
  {
    if run != [] {
      NextKeepsSent(s, run[0], r, seqAtStart);
      NextKeepsInv(s, run[0]);
      RunKeepsSent(Next(s, run[0]), run[1..], r, seqAtStart);
    }
  }

  /**
   * From the moment its read is about to be sent: if an answer is applied after whatever happened
   * since, no change was made in between, and every write ever issued had settled at that moment.
   */
  lemma AppliedAnswerWasSentAfterAllWrites(m: System, run: seq<Label>, r: nat)
    requires Inv(m) && Enabled(m, Send(r)) && Runs(m, run) && Applies(After(m, run), r)
    ensures |After(m, run).writes| == |m.writes| && ChainSettled(m.writes, |m.writes|)
    ensures Keeps(After(m, run).fetches[r].data, After(m, run).writes)
  {
    RunKeepsInv(m, run);
    RunKeepsSent(m, run, r, m.fetches[r].seqAtStart);
    var e := After(m, run);
    assert ReadInv(m, m.fetches[r]) && ReadInv(e, e.fetches[r]);
    assert e.writes[..|e.writes|] == e.writes;
  }

  /** A read that is out, or answered, was sent at some step of the run. */
  lemma {:induction false} SendSplits(s: System, run: seq<Label>, r: nat)
    returns (before: seq<Label>, later: seq<Label>)
    requires Runs(s, run) && r in After(s, run).fetches
    requires After(s, run).fetches[r].Reading? || After(s, run).fetches[r].Answered?
    requires r in s.fetches ==> !s.fetches[r].Reading? && !s.fetches[r].Answered?
    ensures run == before + [Send(r)] + later && Runs(s, before) && Enabled(After(s, before), Send(r))
    ensures Runs(After(s, before), [Send(r)] + later) && After(After(s, before), [Send(r)] + later) == After(s, run)
    decreases run
  {
    if run[0] == Send(r) {
      before, later := [], run[1..];
      assert run == [Send(r)] + later;
    } else {
      before, later := SendSplits(Next(s, run[0]), run[1..], r);
      before := [run[0]] + before;
      assert before[1..] + [Send(r)] + later == run[1..] && run == before + [Send(r)] + later;
    }
  }

  /**
   * RECENT. Whenever an answer is applied, the run went through the step that sent its read, and there
   * every write issued by now had been issued and had settled; what it brings shows all that committed.
   */
  lemma AppliedAnswersAreRecent(s: System, run: seq<Label>, r: nat) returns (before: seq<Label>, later: seq<Label>)
    requires Initial(s) && Runs(s, run) && Applies(After(s, run), r)
    ensures run == before + [Send(r)] + later && Runs(s, before)
    ensures var m, e := After(s, before), After(s, run);
      |m.writes| == |e.writes| && ChainSettled(m.writes, |m.writes|) && Keeps(e.fetches[r].data, e.writes)
  {
    before, later := SendSplits(s, run, r);
    RunKeepsInv(s, before);
    AppliedAnswerWasSentAfterAllWrites(After(s, before), [Send(r)] + later, r);
  }

  /** Single flight: never two reads at once, so no answer is ever an old request's. */
  lemma NoAnswerIsSuperseded(s: System, run: seq<Label>, r: nat, q: nat)
    requires Initial(s) && Runs(s, run) && r in After(s, run).fetches && q in After(s, run).fetches
    ensures r == q == After(s, run).client.requestSeq && After(s, run).client.inFlight
  {
    RunKeepsInv(s, run);
  }

  // ---- Repairs end ------------------------------------------------------------------------

  /** The steps that finish what is under way: no new action, and nothing that fails. */
  predicate Finishes(l: Label) {
    !l.UserActs? && !l.AskRefresh? && !l.Refuse? && !l.FailRead? && !l.OthersAct?
  }

  function WriteCost(w: Write): nat {
    (if w.fate == Outgoing then 2 else if !w.settled then 1 else 0) + if w.fate == Refused && !w.resynced then 7 else 0
  }

  function WritesCost(writes: seq<Write>): nat {
    if writes == [] then 0 else WritesCost(writes[..|writes| - 1]) + WriteCost(writes[|writes| - 1])
  }

  /** What a read has ahead of it; one that will be discarded schedules another. */
  function ReadCost(c: Client, r: Read): nat {
    match r
    case Waiting(chain) => if chain == c.chain then 5 else 6
    case Snapshotted(n) => 4 + Discarded(c, n)
    case Reading(n) => 3 + Discarded(c, n)
    case Answered(n, _, _) => 2 + Discarded(c, n)
  }

  function Discarded(c: Client, seqAtStart: nat): nat { if seqAtStart == c.mutationSeq then 0 else 7 }

  /** A bound on the number of finishing steps. */
  function Outstanding(s: System): nat {
    var c := s.client;
    WritesCost(s.writes) + (if c.due then 6 else 0) + (if c.pending then 5 else 0) + 7 * |c.followUps|
    + if c.requestSeq in s.fetches then ReadCost(c, s.fetches[c.requestSeq]) else 0
  }

  lemma {:induction false} WritesCostOf(writes: seq<Write>, i: nat, w: Write)
    requires i < |writes|
    ensures WritesCost(writes[i := w]) + WriteCost(writes[i]) == WritesCost(writes) + WriteCost(w)
  {
    var n := |writes| - 1;
    if i == n { assert writes[i := w][..n] == writes[..n]; }
    else {
      assert writes[i := w][..n] == writes[..n][i := w];
      WritesCostOf(writes[..n], i, w);
    }
  }

  lemma WriteStepCosts(s: System, l: Label)
    requires Inv(s) && Enabled(s, l) && (l.Commit? || l.SettleWrite? || l.Resync?)
    ensures Outstanding(Next(s, l)) < Outstanding(s)
  {
    hide ReadsInv, Keeps, Shown, InStep, Effect, WritesCost;
    match l
    case Commit(i) => WritesCostOf(s.writes, i, s.writes[i].(fate := Committed));
    case SettleWrite(i) => WritesCostOf(s.writes, i, s.writes[i].(settled := true));
    case Resync(i) => WritesCostOf(s.writes, i, s.writes[i].(resynced := true));
  }

  lemma AnswerCosts(s: System, r: nat)
    requires Inv(s) && Enabled(s, Answer(r))
    ensures Outstanding(Next(s, Answer(r))) < Outstanding(s)
  {
    hide ReadsInv, Keeps, Shown, InStep, Effect, WritesCost;
    assert r == s.client.requestSeq;
  }

  /** Every finishing step lowers what is outstanding. */
  lemma FinishingCosts(s: System, l: Label)
    requires Inv(s) && Enabled(s, l) && Finishes(l)
    ensures Outstanding(Next(s, l)) < Outstanding(s)
  {
    if l.Commit? || l.SettleWrite? || l.Resync? {
      WriteStepCosts(s, l);
    } else if l.Answer? {
      AnswerCosts(s, l.request);
    } else {
      hide ReadsInv, Keeps, Shown, InStep, Effect, WritesCost;
      if l.FollowUp? { assert |s.client.followUps - multiset{l.chain}| == |s.client.followUps| - 1; }
    }
  }

  /** Unless everything has settled, some finishing step is open. */
  lemma SomethingFinishes(s: System)
    requires Inv(s) && !Quiet(s)
    ensures exists l :: Enabled(s, l) && Finishes(l)
  {
    if i :| 0 <= i < |s.writes| && !s.writes[i].settled {
      assert if s.writes[i].fate == Outgoing then Enabled(s, Commit(i)) else Enabled(s, SettleWrite(i));
      assert Finishes(Commit(i)) && Finishes(SettleWrite(i));
    } else if s.client.due {
      assert Enabled(s, RunEffectBody) && Finishes(RunEffectBody);
    } else if s.client.inFlight {
      ReadGoesOn(s, s.client.requestSeq);
    } else if s.client.followUps != multiset{} {
      var k :| k in s.client.followUps;
      assert Enabled(s, FollowUp(k)) && Finishes(FollowUp(k));
    } else {
      var i :| 0 <= i < |s.writes| && s.writes[i].fate == Refused && !s.writes[i].resynced;
      assert Enabled(s, Resync(i)) && Finishes(Resync(i));
    }
  }

  lemma ReadGoesOn(s: System, r: nat)
    requires r in s.fetches && forall i | 0 <= i < |s.writes| :: s.writes[i].settled
    ensures exists l :: Enabled(s, l) && Finishes(l)
  {
    match s.fetches[r]
    case Waiting(_) => assert Enabled(s, Wake(r)) && Finishes(Wake(r));
    case Snapshotted(_) => assert Enabled(s, Send(r)) && Finishes(Send(r));
    case Reading(_) => assert Enabled(s, Serve(r)) && Finishes(Serve(r));
    case Answered(_, _, _) => assert Enabled(s, Answer(r)) && Finishes(Answer(r));
  }

  /**
   * A REPAIR ENDS. From any reachable state, every run of finishing steps in whatever order is
   * bounded, and one that cannot be extended has left nothing outstanding.
   */
  lemma {:induction false} RepairEnds(s: System, run: seq<Label>)
    requires Inv(s) && Runs(s, run) && forall l | l in run :: Finishes(l)
    ensures |run| + Outstanding(After(s, run)) <= Outstanding(s)
    ensures Quiet(After(s, run)) || exists l :: Enabled(After(s, run), l) && Finishes(l)
    decreases run
  {
    if run == [] {
      if !Quiet(s) { SomethingFinishes(s); }
    } else {
      assert Finishes(run[0]);
      FinishingCosts(s, run[0]);
      NextKeepsInv(s, run[0]);
      RepairEnds(Next(s, run[0]), run[1..]);
    }
  }

  /** So from any reachable state such a run to the end exists, of no more steps than are outstanding. */
  lemma {:induction false} RepairCompletes(s: System) returns (run: seq<Label>)
    requires Inv(s)
    ensures Runs(s, run) && (forall l | l in run :: Finishes(l)) && Quiet(After(s, run)) && |run| <= Outstanding(s)
    decreases Outstanding(s)
  {
    if Quiet(s) {
      run := [];
    } else {
      SomethingFinishes(s);
      var l :| Enabled(s, l) && Finishes(l);
      FinishingCosts(s, l);
      NextKeepsInv(s, l);
      var rest := RepairCompletes(Next(s, l));
      run := [l] + rest;
      assert run[1..] == rest;
    }
  }
}
