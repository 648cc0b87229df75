/**
 * `useCoalescedResource` in its own form: four refs mutated by callbacks and effects. Each method is
 * proved to do to the refs exactly what its step of `CoalescedProtocol` does to a panel `p` whose refs
 * look like these, and so are whole runs of them.
 */
module CoalescedResource {
  import opened CoalescedProtocol

  datatype Refs = Refs(inFlight: bool, pending: bool, mounted: bool, generation: nat)

  function RefsOf(p: Panel): Refs { Refs(p.inFlight, p.pending, p.mounted, p.generation) }

  class Resource {
    var inFlightRef: bool
    var pendingRef: bool
    var mountedRef: bool
    var generationRef: nat

    function View(): Refs
      reads this
    {
      Refs(inFlightRef, pendingRef, mountedRef, generationRef)
    }

    constructor ()
      ensures forall enabled :: View() == RefsOf(Mounted(enabled))
    {
      inFlightRef, pendingRef, mountedRef, generationRef := false, false, true, 0;
    }

    /** The `[enabled]` effect. */
    method EnabledEffect(ghost p: Panel, enabled: bool)
      requires View() == RefsOf(p) && p.enabled == enabled
      modifies this
      ensures View() == RefsOf(CoalescedProtocol.EnabledEffect(p))
    {
      if !enabled {
        generationRef := generationRef + 1;
        pendingRef := false;
      }
    }

    /** `run` of a closure that saw `enabled`; answers the generation a new request is tagged with. */
    method Run(ghost p: Panel, enabled: bool) returns (started: bool, generation: nat)
      requires View() == RefsOf(p)
      modifies this
      ensures !enabled ==> !started && View() == old(View())
      ensures enabled ==> View() == RefsOf(CoalescedProtocol.Run(p))
      ensures enabled ==> CoalescedProtocol.Run(p).started == p.started + if started then 1 else 0
      ensures started ==> p.started in CoalescedProtocol.Run(p).flights
      ensures started ==> CoalescedProtocol.Run(p).flights[p.started].generation == generation
    {
      generation := generationRef;
      if !enabled { return false, generation; }
      if inFlightRef {
        pendingRef := true;
        return false, generation;
      }
      inFlightRef := true;
      return true, generation;
    }

    /** The `.then`/`.catch` guard: is the answer of request `r`, tagged with `generation`, handed on? */
    method Accept(ghost p: Panel, ghost r: nat, generation: nat) returns (kept: bool)
      requires View() == RefsOf(p) && r in p.flights && p.flights[r].generation == generation
      ensures kept == Accepts(p, r)
    {
      return mountedRef && generation == generationRef;
    }

    /** The `.finally` block of request `r`, whose `run` closure saw the resource enabled. */
    method Finally(ghost p: Panel, ghost r: nat) returns (started: bool)
      requires View() == RefsOf(p)
      modifies this
      ensures View() == RefsOf(OnFinally(p, r))
      ensures OnFinally(p, r).started == p.started + if started then 1 else 0
    {
      started := false;
      inFlightRef := false;
      if !mountedRef { return; }
      if pendingRef {
        pendingRef := false;
        var generation;
        started, generation := Run(p.(inFlight := false, flights := p.flights - {r}, pending := false), true);
      }
    }

    method OnUnmount()
      modifies this
      ensures View() == old(View()).(mounted := false)
    {
      mountedRef := false;
    }

    /** One step of the protocol, by the method that stands for it. */
    method Perform(p: Panel, l: Label) returns (kept: nat)
      requires View() == RefsOf(p) && Enabled(p, l)
      modifies this
      ensures View() == RefsOf(Next(p, l)) && Next(p, l).applied == p.applied + kept
    {
      hide CoalescedProtocol.Run, OnFinally, CoalescedProtocol.EnabledEffect;
      AppliedOfNext(p, l);
      kept := 0;
      match l {
        case Tick(poll) =>
          var started, generation := Run(p.(loading := p.loading || (poll && !p.hydrated)), true);
        case Effect => EnabledEffect(p, p.enabled);
        case Answer(r, _) =>
          var handedOn := Accept(p, r, p.flights[r].generation);
          if handedOn { kept := 1; }
        case Finally(r) => var started := Finally(p, r);
        case Unmount => OnUnmount();
        case Render(_) =>
      }
    }

    /**
     * A whole run: whatever the panel and its closures do, the refs stay those of the protocol, and
     * as many answers are handed on as the protocol keeps.
     */
    method Drive(p: Panel, run: seq<Label>) returns (kept: nat)
      requires View() == RefsOf(p) && Runs(p, run)
      modifies this
      ensures View() == RefsOf(After(p, run)) && p.applied + kept == After(p, run).applied
    {
      hide After, Next, Runs, Enabled;
      var rest, panel := run, p;
      kept := 0;
      while rest != []
        invariant Runs(panel, rest) && After(panel, rest) == After(p, run)
        invariant View() == RefsOf(panel) && p.applied + kept == panel.applied
        decreases |rest|
      {
        AfterStep(panel, rest);
        var one := Perform(panel, rest[0]);
        kept := kept + one;
        panel, rest := Next(panel, rest[0]), rest[1..];
      }
      AfterNothing(panel, rest);
    }
  }
}
