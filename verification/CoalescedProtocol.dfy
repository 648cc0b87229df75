/**
 * One polled resource: one request at a time, one follow-up for all the ticks that came meanwhile,
 * and a generation that every disabling bumps. `loading` and `hydrated` are the panel's own flags.
 *
 * A tick may come from a stale closure (`enabled` as some earlier render saw it); requests are kept
 * by number, so that single flight is proved and not built in.
 */
module CoalescedProtocol {
  datatype Flight = Flight(generation: nat, answered: bool)

  /** `started`: how many requests were ever issued; `applied`: how many answers were kept. */
  datatype Panel = Panel(
    enabled: bool, effectDue: bool, mounted: bool, inFlight: bool, pending: bool, generation: nat,
    flights: map<nat, Flight>, started: nat, applied: nat, loading: bool, hydrated: bool)

  /**
   * `Tick`: a call of `run` of a render that saw the resource enabled, either of the panel's poll,
   * which shows `loading` until the first answer, or a plain one (the summary, an explicit refresh).
   * `Effect`: the `[enabled]` effect of the first render, and of every render that changed it.
   */
  datatype Label =
    | Tick(poll: bool)
    | Render(enabled: bool)
    | Effect
    | Answer(request: nat, ok: bool)
    | Finally(request: nat)
    | Unmount

  /** `run()`, from a closure that saw `enabled`. */
  function Run(p: Panel): Panel {
    if p.inFlight then p.(pending := true)
    else p.(inFlight := true, flights := p.flights[p.started := Flight(p.generation, false)], started := p.started + 1)
  }

  predicate Enabled(p: Panel, l: Label) {
    match l
    case Tick(_) => true
    case Render(_) => !p.effectDue && p.mounted
    case Effect => p.effectDue
    case Answer(r, _) => r in p.flights && !p.flights[r].answered
    case Finally(r) => r in p.flights && p.flights[r].answered
    case Unmount => p.mounted
  }

  /** Is the answer of request `r` kept, or thrown away? */
  predicate Accepts(p: Panel, r: nat) {
    r in p.flights && p.mounted && p.flights[r].generation == p.generation
  }

  function Next(p: Panel, l: Label): Panel
    requires Enabled(p, l)
  {
    match l
    case Tick(poll) => Run(p.(loading := p.loading || (poll && !p.hydrated)))
    case Render(b) => p.(enabled := b, effectDue := b != p.enabled)
    case Effect => EnabledEffect(p)
    case Answer(r, ok) => OnAnswer(p, r, ok)
    case Finally(r) => OnFinally(p, r)
    case Unmount => p.(mounted := false)
  }

  function EnabledEffect(p: Panel): Panel {
    if p.enabled then p.(effectDue := false)
    else p.(effectDue := false, generation := p.generation + 1, pending := false)
  }

  function OnAnswer(p: Panel, r: nat, ok: bool): Panel
    requires r in p.flights
  {
    var seen := p.(flights := p.flights[r := p.flights[r].(answered := true)]);
    if Accepts(p, r) then seen.(applied := p.applied + 1, loading := false, hydrated := p.hydrated || ok) else seen
  }

  function OnFinally(p: Panel, r: nat): Panel {
    var landed := p.(inFlight := false, flights := p.flights - {r});
    if p.mounted && p.pending then Run(landed.(pending := false)) else landed
  }

  // ---- Invariant and runs -----------------------------------------------------------------

  /** At most one request is out, and it is the last one started. */
  ghost predicate SingleFlight(p: Panel) {
    && (p.inFlight ==> p.started > 0 && p.started - 1 in p.flights)
    && (forall r | r in p.flights :: p.inFlight && r + 1 == p.started && p.flights[r].generation <= p.generation)
  }

  ghost predicate Inv(p: Panel) {
    SingleFlight(p) && (p.pending && p.mounted ==> p.inFlight)
  }

  /** A resource whose first render saw `enabled`; its effects are still to run. */
  function Mounted(enabled: bool): Panel {
    Panel(enabled, true, true, false, false, 0, map[], 0, 0, false, false)
  }

  predicate Runs(p: Panel, run: seq<Label>)
    decreases run
  {
    run == [] || (Enabled(p, run[0]) && Runs(Next(p, run[0]), run[1..]))
  }

  function After(p: Panel, run: seq<Label>): Panel
    requires Runs(p, run)
    decreases run
  {
    if run == [] then p else After(Next(p, run[0]), run[1..])
  }

  lemma AfterStep(p: Panel, run: seq<Label>)
    requires run != [] && Runs(p, run)
    ensures Enabled(p, run[0]) && Runs(Next(p, run[0]), run[1..]) && After(p, run) == After(Next(p, run[0]), run[1..])
  {
  }

  lemma AfterNothing(p: Panel, run: seq<Label>)
    requires run == []
    ensures Runs(p, run) && After(p, run) == p
  {
  }

  lemma AppliedOfNext(p: Panel, l: Label)
    requires Enabled(p, l)
    ensures Next(p, l).applied == p.applied + if l.Answer? && Accepts(p, l.request) then 1 else 0
  {
    match l
    case Tick(_) =>
    case Effect =>
    case Answer(_, _) =>
    case Finally(_) =>
    case _ =>
  }

  lemma NextKeepsSingleFlight(p: Panel, l: Label)
    requires Inv(p) && Enabled(p, l)
    ensures SingleFlight(Next(p, l))
  {
    match l
    case Tick(_) =>
    case Effect =>
    case Answer(r, ok) =>
    case Finally(r) => NoneLeft(p, r);
    case _ =>
  }

  lemma NoneLeft(p: Panel, r: nat)
    requires SingleFlight(p) && r in p.flights
    ensures p.flights - {r} == map[]
  {
    assert forall k | k in p.flights :: k == r;
  }

  lemma NextKeepsInv(p: Panel, l: Label)
    requires Inv(p) && Enabled(p, l)
    ensures Inv(Next(p, l))
  {
    NextKeepsSingleFlight(p, l);
  }

  lemma {:induction false} RunKeepsInv(p: Panel, run: seq<Label>)
    requires Inv(p) && Runs(p, run)
    ensures Inv(After(p, run))
    decreases run
  {
    if run != [] {
      NextKeepsInv(p, run[0]);
      RunKeepsInv(Next(p, run[0]), run[1..]);
    }
  }

  ghost predicate Reachable(p: Panel) {
    exists enabled, run :: Runs(Mounted(enabled), run) && After(Mounted(enabled), run) == p
  }

  lemma ReachableInv(p: Panel)
    requires Reachable(p)
    ensures Inv(p)
  {
    var enabled, run :| Runs(Mounted(enabled), run) && After(Mounted(enabled), run) == p;
    RunKeepsInv(Mounted(enabled), run);
  }

  /** SINGLE FLIGHT. At most one request is ever out, and it is the last one started. */
  lemma OneRequestAtATime(p: Panel, r: nat, q: nat)
    requires Reachable(p) && r in p.flights && q in p.flights
    ensures r == q == p.started - 1
  {
    ReachableInv(p);
  }

  // ---- Stale answers ----------------------------------------------------------------------

  /** How often a run disables the resource. */
  function Disablings(p: Panel, run: seq<Label>): nat
    requires Runs(p, run)
    decreases run
  {
    if run == [] then 0
    else (if run[0].Effect? && !p.enabled then 1 else 0) + Disablings(Next(p, run[0]), run[1..])
  }

  /** How often a run closes an open resource: renders that turn `enabled` from true to false. */
  function Closings(p: Panel, run: seq<Label>): nat
    requires Runs(p, run)
    decreases run
  {
    if run == [] then 0
    else (if p.enabled && run[0] == Render(false) then 1 else 0) + Closings(Next(p, run[0]), run[1..])
  }

  /** An effect is due that will disable. */
  function Due(p: Panel): nat { if p.effectDue && !p.enabled then 1 else 0 }

  lemma NextDisables(p: Panel, l: Label)
    requires Enabled(p, l)
    ensures (if l.Effect? && !p.enabled then 1 else 0) + Due(Next(p, l))
      == (if p.enabled && l == Render(false) then 1 else 0) + Due(p)
  {
    match l
    case Tick(_) =>
    case Answer(_, _) =>
    case Finally(_) =>
    case _ =>
  }

  /** Each closing disables once, when its effect runs; rendering again without a change does nothing. */
  lemma {:induction false} DisablingsAreClosings(p: Panel, run: seq<Label>)
    requires Runs(p, run)
    ensures Disablings(p, run) + Due(After(p, run)) == Closings(p, run) + Due(p)
    decreases run
  {
    if run != [] {
      NextDisables(p, run[0]);
      hide Next, Due;
      DisablingsAreClosings(Next(p, run[0]), run[1..]);
    }
  }

  lemma NextGeneration(p: Panel, l: Label, r: nat)
    requires SingleFlight(p) && Enabled(p, l) && r < p.started && r in Next(p, l).flights
    ensures r in p.flights && Next(p, l).flights[r].generation == p.flights[r].generation
    ensures Next(p, l).generation == p.generation + if l.Effect? && !p.enabled then 1 else 0
  {
    match l
    case Tick(_) =>
    case Answer(_, _) =>
    case Finally(_) =>
    case _ =>
  }

  lemma NextStarted(p: Panel, l: Label)
    requires Enabled(p, l)
    ensures p.started <= Next(p, l).started
  {
    hide Accepts;
    match l
    case Tick(_) =>
    case Effect =>
    case Answer(r, ok) =>
    case Finally(r) =>
    case _ =>
  }

  lemma {:induction false} GenerationCountsDisablings(p: Panel, run: seq<Label>, r: nat)
    requires Inv(p) && Runs(p, run) && r < p.started && r in After(p, run).flights
    ensures After(p, run).generation == p.generation + Disablings(p, run)
    ensures r in p.flights && After(p, run).flights[r].generation == p.flights[r].generation
    decreases run
  {
    if run != [] {
      var n := Next(p, run[0]);
      NextKeepsInv(p, run[0]);
      NextStarted(p, run[0]);
      hide Next;
      GenerationCountsDisablings(n, run[1..], r);
      NextGeneration(p, run[0], r);
    }
  }

  /**
   * NO STALE ANSWER. Of any request out in any reachable state, whoever started it, the answer is
   * kept exactly when the request carries the current generation there, the resource is still mounted
   * when it lands and was never disabled in between; closing and opening again does not bring it back.
   */
  lemma KeptIffNeverDisabled(p: Panel, run: seq<Label>, r: nat)
    requires Reachable(p) && r in p.flights && Runs(p, run) && r in After(p, run).flights
    ensures Accepts(After(p, run), r) <==>
      After(p, run).mounted && p.flights[r].generation == p.generation && Disablings(p, run) == 0
  {
    ReachableInv(p);
    GenerationCountsDisablings(p, run, r);
  }

  // ---- Follow-ups -------------------------------------------------------------------------

  /** Did some tick come after the last disabling? */
  predicate TickedSince(p: Panel, run: seq<Label>, ticked: bool)
    requires Runs(p, run)
    decreases run
  {
    if run == [] then ticked
    else
      TickedSince(Next(p, run[0]), run[1..],
        if run[0].Tick? then true else if run[0].Effect? && !p.enabled then false else ticked)
  }

  lemma NextInFlight(p: Panel, l: Label)
    requires SingleFlight(p) && p.inFlight && Enabled(p, l) && !l.Finally?
    ensures Next(p, l).inFlight && Next(p, l).started == p.started
    ensures Next(p, l).flights.Keys == p.flights.Keys
    ensures Next(p, l).pending == (if l.Tick? then true else if l.Effect? && !p.enabled then false else p.pending)
  {
    match l
    case Tick(_) =>
    case Answer(_, _) =>
    case _ =>
  }

  lemma {:induction false} PendingMeansTicked(p: Panel, run: seq<Label>)
    requires Inv(p) && p.inFlight && Runs(p, run) && (forall l | l in run :: !l.Finally?)
    ensures After(p, run).pending == TickedSince(p, run, p.pending)
    ensures After(p, run).inFlight && After(p, run).started == p.started && After(p, run).flights.Keys == p.flights.Keys
    decreases run
  {
    if run != [] {
      assert !run[0].Finally?;
      NextKeepsInv(p, run[0]);
      NextInFlight(p, run[0]);
      hide Next;
      PendingMeansTicked(Next(p, run[0]), run[1..]);
    }
  }

  /**
   * ONE FOLLOW-UP. However many ticks come while a request is out, none of them starts a request;
   * when it lands, exactly one more is started if some tick came since the last disabling and the
   * panel is still mounted, and none otherwise. The new one carries the current generation.
   */
  lemma TicksCoalesce(p: Panel, run: seq<Label>, r: nat)
    requires Inv(p) && p.inFlight && !p.pending && Runs(p, run) && (forall l | l in run :: !l.Finally?)
    requires Enabled(After(p, run), Finally(r))
    ensures var e := After(p, run);
      var n := Next(e, Finally(r));
      && e.started == p.started
      && n.started == p.started + (if e.mounted && TickedSince(p, run, false) then 1 else 0)
      && (n.started > p.started <==> n.inFlight) && !(n.pending && n.mounted)
      && (n.inFlight ==> n.flights == map[p.started := Flight(n.generation, false)])
  {
    PendingMeansTicked(p, run);
    RunKeepsInv(p, run);
    var e := After(p, run);
    assert e.flights - {r} == map[];
  }

  // ---- The loading flag -------------------------------------------------------------------

  /** Steps that may come while a request is out, before its answer lands. */
  predicate Waits(l: Label) { l.Tick? || l.Render? || l.Effect? }

  lemma {:induction false} LoadingStays(p: Panel, run: seq<Label>, r: nat)
    requires Inv(p) && p.loading && p.mounted && r in p.flights && !p.flights[r].answered
    requires Runs(p, run) && (forall l | l in run :: Waits(l))
    ensures var e := After(p, run); e.loading && e.mounted && r in e.flights && !e.flights[r].answered
    decreases run
  {
    if run != [] {
      assert Waits(run[0]);
      NextKeepsInv(p, run[0]);
      LoadingStays(Next(p, run[0]), run[1..], r);
    }
  }

  /** The state in which the request `r` has landed. */
  function Landed(p: Panel, r: nat, ok: bool): Panel
    requires r in p.flights && !p.flights[r].answered
  {
    Next(Next(p, Answer(r, ok)), Finally(r))
  }

  /**
   * WHEN `loading` STICKS. While a request is out with `loading` set, let any ticks, renders and
   * effects come. When it lands, `loading` is left set with no request out if and only if its answer
   * is stale, because it was so before or the resource was disabled meanwhile, and no tick came since
   * the last disabling. Otherwise it is cleared, or a follow-up is out, to which this applies again.
   */
  lemma LoadingSticksIff(p: Panel, run: seq<Label>, r: nat, ok: bool)
    requires Reachable(p) && p.loading && p.mounted && r in p.flights && !p.flights[r].answered
    requires Runs(p, run) && (forall l | l in run :: Waits(l))
    ensures r in After(p, run).flights && !After(p, run).flights[r].answered
    ensures var e := Landed(After(p, run), r, ok);
      e.loading && !e.inFlight <==>
      (p.flights[r].generation != p.generation || Disablings(p, run) > 0) && !TickedSince(p, run, p.pending)
  {
    ReachableInv(p);
    LoadingStays(p, run, r);
    KeptIffNeverDisabled(p, run, r);
    forall l | l in run ensures !l.Finally? { assert Waits(l); }
    PendingMeansTicked(p, run);
  }

  /** With no request out only a tick changes `loading`, and it leaves a request out. */
  lemma LoadingIsOnlySetByATick(p: Panel, l: Label)
    requires Reachable(p) && !p.inFlight && Enabled(p, l)
    ensures if l.Tick? then Next(p, l).inFlight else Next(p, l).loading == p.loading
  {
    ReachableInv(p);
  }

  // ---- The first answer -------------------------------------------------------------------

  /** Was some successful answer kept in the course of the run? */
  predicate KeptOne(p: Panel, run: seq<Label>)
    requires Runs(p, run)
    decreases run
  {
    run != [] && ((run[0].Answer? && run[0].ok && p.mounted && p.flights[run[0].request].generation == p.generation)
                  || KeptOne(Next(p, run[0]), run[1..]))
  }

  lemma NextHydrated(p: Panel, l: Label)
    requires Enabled(p, l)
    ensures Next(p, l).hydrated <==>
      p.hydrated || (l.Answer? && l.ok && p.mounted && p.flights[l.request].generation == p.generation)
    ensures p.hydrated && !p.loading ==> !Next(p, l).loading
    ensures l.Answer? && p.mounted && p.flights[l.request].generation == p.generation ==> !Next(p, l).loading
    ensures !p.loading && Next(p, l).loading <==> !p.loading && !p.hydrated && l == Tick(true)
  {
    match l
    case Tick(_) =>
    case Effect =>
    case Answer(_, _) =>
    case Finally(_) =>
    case _ =>
  }

  /** The panel counts as hydrated exactly since the first successful answer that was kept. */
  lemma {:induction false} HydratedIff(p: Panel, run: seq<Label>)
    requires Runs(p, run)
    ensures After(p, run).hydrated <==> p.hydrated || KeptOne(p, run)
    decreases run
  {
    if run != [] {
      NextHydrated(p, run[0]);
      hide Next;
      HydratedIff(Next(p, run[0]), run[1..]);
    }
  }

  /** A hydrated panel that shows no loading never shows it again, whatever ticks and closings come. */
  lemma {:induction false} HydratedStaysQuiet(p: Panel, run: seq<Label>)
    requires Runs(p, run) && p.hydrated && !p.loading
    ensures After(p, run).hydrated && !After(p, run).loading
    decreases run
  {
    if run != [] {
      NextHydrated(p, run[0]);
      hide Next;
      HydratedStaysQuiet(Next(p, run[0]), run[1..]);
    }
  }

  lemma ReachableNext(p: Panel, l: Label)
    requires Reachable(p) && Enabled(p, l)
    ensures Reachable(Next(p, l))
  {
    var enabled, run :| Runs(Mounted(enabled), run) && After(Mounted(enabled), run) == p;
    RunExtends(Mounted(enabled), run, l);
  }

  lemma {:induction false} RunExtends(p: Panel, run: seq<Label>, l: Label)
    requires Runs(p, run) && Enabled(After(p, run), l)
    ensures Runs(p, run + [l]) && After(p, run + [l]) == Next(After(p, run), l)
    decreases run
  {
    if run == [] {
      assert [l][1..] == [] && run + [l] == [l];
    } else {
      assert (run + [l])[1..] == run[1..] + [l];
      RunExtends(Next(p, run[0]), run[1..], l);
    }
  }

  lemma MountedIsReachable(enabled: bool)
    ensures Reachable(Mounted(enabled))
  {
    assert Runs(Mounted(enabled), []) && After(Mounted(enabled), []) == Mounted(enabled);
  }

  /** Closing the panel during its first read leaves `loading` set with no request out. */
  lemma LoadingCanStick()
    ensures exists p: Panel :: Reachable(p) && p.loading && !p.inFlight && p.mounted
  {
    var p := Mounted(false);
    MountedIsReachable(false);
    p := Goes(p, Effect);
    p := Goes(p, Render(true));
    p := Goes(p, Effect);
    p := Goes(p, Tick(true));
    p := Goes(p, Render(false));
    p := Goes(p, Effect);
    p := Goes(p, Answer(0, true));
    p := Goes(p, Finally(0));
  }

  lemma Goes(p: Panel, l: Label) returns (n: Panel)
    requires Reachable(p) && Enabled(p, l)
    ensures Reachable(n) && n == Next(p, l)
  {
    ReachableNext(p, l);
    n := Next(p, l);
  }
}
