/** The host's recovery policy: when a foreground return or a network change may ask the
    engine to verify its connection.  A ticket names the run, the revision and the reason
    of a request; it is taken before the request is made. */
module RecoveryPolicy {
  import opened Wrappers

  type RunId = nat

  const REVISIONS: nat := 0x1_0000_0000_0000_0000   // the revision counter wraps

  datatype Reason = Foreground | NetworkChanged

  datatype Ticket = Ticket(run: RunId, revision: nat, reason: Reason)

  datatype Policy = Policy(
    run: Option<RunId>,
    ready: bool,
    background: bool,
    hasPathSnapshot: bool,
    revision: nat,
    pending: Option<Reason>,
    bumps: nat)              // history: how often the revision has moved
  {
    /** The request that could be made now. */
    function Offer(): Option<Ticket> {
      if run.Some? && ready && !background && pending.Some?
      then Some(Ticket(run.value, revision, pending.value)) else None
    }

    function Bumped(): Policy {
      this.(revision := (revision + 1) % REVISIONS, bumps := bumps + 1)
    }

    function AfterStop(): Policy {
      this.(run := None, ready := false, pending := None).Bumped()
    }

    function AfterBegin(runId: RunId, cardOnly: bool): Policy {
      AfterStop().(run := if cardOnly then None else Some(runId))
    }

    function AfterStarted(runId: RunId): Policy {
      if run == Some(runId) then this.(ready := true) else this
    }

    function AfterBackground(allScenes: bool): Policy {
      if allScenes && !background then this.(background := true).Bumped() else this
    }

    function AfterRequest(reason: Reason): Policy {
      if run.None? then this
      else this.(pending := if pending == Some(Foreground) then pending else Some(reason)).Bumped()
    }

    function AfterForeground(): Policy {
      if background then this.(background := false).AfterRequest(Foreground) else this
    }

    function AfterPath(changed: bool): Policy {
      (if hasPathSnapshot && changed then AfterRequest(NetworkChanged) else this).(hasPathSnapshot := true)
    }

    function AfterTake(expected: Ticket): Policy {
      if Offer() == Some(expected) then this.(pending := None) else this
    }
  }

  datatype Event =
    | Begin(runId: RunId, cardOnly: bool)
    | Stop
    | Started(runId: RunId)
    | EnteredBackground(allScenes: bool)
    | EnteredForeground
    | PathUpdated(changed: bool)
    | Take(expected: Ticket)

  function Next(p: Policy, e: Event): Policy {
    match e
    case Begin(runId, cardOnly) => p.AfterBegin(runId, cardOnly)
    case Stop => p.AfterStop()
    case Started(runId) => p.AfterStarted(runId)
    case EnteredBackground(allScenes) => p.AfterBackground(allScenes)
    case EnteredForeground => p.AfterForeground()
    case PathUpdated(changed) => p.AfterPath(changed)
    case Take(expected) => p.AfterTake(expected)
  }

  predicate IsRun(states: seq<Policy>, events: seq<Event>) {
    && |states| == |events| + 1
    && forall i :: 0 <= i < |events| ==> states[i + 1] == Next(states[i], events[i])
  }

  /** The counter shows the number of bumps, and numbers in range. */
  predicate Inv(p: Policy) {
    p.revision == p.bumps % REVISIONS
  }

  lemma StepInv(p: Policy, e: Event)
    requires Inv(p)
    ensures Inv(Next(p, e))
    ensures p.bumps <= Next(p, e).bumps
  {
  }

  lemma {:induction false} RunInv(states: seq<Policy>, events: seq<Event>, i: nat, k: nat)
    requires IsRun(states, events) && i <= k < |states| && Inv(states[0])
    ensures Inv(states[i]) && Inv(states[k]) && states[i].bumps <= states[k].bumps
    decreases k
  {
    if i < k {
      RunInv(states, events, i, k - 1);
      StepInv(states[k - 1], events[k - 1]);
    } else if k > 0 {
      RunInv(states, events, k - 1, k - 1);
      StepInv(states[k - 1], events[k - 1]);
    }
  }

  /** What moves the revision: stopping, beginning, going to the background, and requests of a
      live run (returning to the foreground and changed paths). */
  predicate Supersedes(p: Policy, e: Event) {
    match e
    case Begin(_, _) => true
    case Stop => true
    case EnteredBackground(allScenes) => allScenes && !p.background
    case EnteredForeground => p.background && p.run.Some?
    case PathUpdated(changed) => changed && p.hasPathSnapshot && p.run.Some?
    case _ => false
  }

  lemma SupersedingBumps(p: Policy, e: Event)
    ensures Next(p, e).bumps == p.bumps + if Supersedes(p, e) then 1 else 0
  {
  }

  /** While nothing supersedes it, a ticket once taken is not offered again. */
  lemma {:induction false} TakenStaysTaken(states: seq<Policy>, events: seq<Event>, i: nat, k: nat)
    requires IsRun(states, events) && i <= k < |states|
    requires states[i].pending.None? && states[i].bumps == states[k].bumps && Inv(states[0])
    ensures states[k].pending.None?
    decreases k
  {
    if i < k {
      RunInv(states, events, i, k - 1);
      StepInv(states[k - 1], events[k - 1]);
      SupersedingBumps(states[k - 1], events[k - 1]);
      TakenStaysTaken(states, events, i, k - 1);
    }
  }

  /** A ticket offered at one moment and successfully taken at a later one has not been
      superseded by a stop, a begin, a move to the background or a newer request in between,
      nor been taken before, unless the revision moved 2^64 times meanwhile. */
  lemma TicketTakenFresh(states: seq<Policy>, events: seq<Event>, i: nat, k: nat, ticket: Ticket)
    requires IsRun(states, events) && Inv(states[0]) && i <= k < |events|
    requires states[i].Offer() == Some(ticket) && events[k] == Take(ticket) && states[k].Offer() == Some(ticket)
    requires states[k].bumps < states[i].bumps + REVISIONS
    ensures forall j :: i <= j < k ==> !Supersedes(states[j], events[j])
    ensures forall j :: i <= j < k && events[j] == Take(ticket) ==> states[j].Offer() != Some(ticket)
  {
    RunInv(states, events, i, k);
    SameBumps(states[i].bumps, states[k].bumps);
    forall j | i <= j < k
      ensures !Supersedes(states[j], events[j])
      ensures events[j] == Take(ticket) ==> states[j].Offer() != Some(ticket)
    {
      RunInv(states, events, i, j);
      RunInv(states, events, j + 1, k);
      SupersedingBumps(states[j], events[j]);
      if events[j] == Take(ticket) && states[j].Offer() == Some(ticket) {
        TakenStaysTaken(states, events, j + 1, k);
      }
    }
  }

  lemma SameBumps(a: nat, b: nat)
    requires a <= b < a + REVISIONS && a % REVISIONS == b % REVISIONS
    ensures a == b
  {
  }

  /** A pending foreground reason stays one until it is taken or the run is stopped or replaced. */
  lemma ForegroundNotDowngraded(p: Policy, e: Event)
    requires p.pending == Some(Foreground)
    ensures Next(p, e).pending == Some(Foreground) ||
            (Next(p, e).pending.None? && (e == Stop || e.Begin? || (e.Take? && p.Offer() == Some(e.expected))))
  {
  }

  lemma {:induction false} ForegroundKept(states: seq<Policy>, events: seq<Event>, i: nat, k: nat)
    requires IsRun(states, events) && i <= k < |states| && states[i].pending == Some(Foreground)
    requires forall j :: i <= j < k ==>
      events[j] != Stop && !events[j].Begin? && !(events[j].Take? && states[j].Offer() == Some(events[j].expected))
    ensures states[k].pending == Some(Foreground)
    decreases k
  {
    if i < k {
      ForegroundKept(states, events, i, k - 1);
      ForegroundNotDowngraded(states[k - 1], events[k - 1]);
    }
  }

  // ---- Requests are offered ----

  /** What takes a pending request away: stopping, beginning, or taking it. */
  predicate Withdraws(p: Policy, e: Event) {
    e == Stop || e.Begin? || (e.Take? && p.Offer() == Some(e.expected))
  }

  /** A request of a live run, foreground or network, is pending from then on until it is withdrawn, and
      offered, at its latest revision, whenever the run has started and no scene is hidden. */
  lemma {:induction false} RequestIsOffered(states: seq<Policy>, events: seq<Event>, k: nat, n: nat)
    requires IsRun(states, events) && k < n < |states| && states[k].run.Some?
    requires (events[k] == EnteredForeground && states[k].background)
          || (events[k] == PathUpdated(true) && states[k].hasPathSnapshot)
    requires forall j :: k < j < n ==> !Withdraws(states[j], events[j])
    ensures states[n].run == states[k].run && states[n].pending.Some?
    ensures events[k] == EnteredForeground ==> states[n].pending == Some(Foreground)
    ensures states[n].ready && !states[n].background ==>
              states[n].Offer() == Some(Ticket(states[k].run.value, states[n].revision, states[n].pending.value))
    decreases n
  {
    hide Next;
    if n == k + 1 {
      RequestMade(states[k], events[k]);
    } else {
      RequestIsOffered(states, events, k, n - 1);
      RequestStays(states[n - 1], events[n - 1]);
    }
  }

  lemma RequestMade(p: Policy, e: Event)
    requires p.run.Some?
    requires (e == EnteredForeground && p.background) || (e == PathUpdated(true) && p.hasPathSnapshot)
    ensures var q := Next(p, e);
            && q.run == p.run && q.pending.Some? && q.bumps == p.bumps + 1
            && (e == EnteredForeground ==> q.pending == Some(Foreground) && !q.background)
            && (e == PathUpdated(true) ==> q.pending == if p.pending == Some(Foreground) then p.pending else Some(NetworkChanged))
  {
  }

  lemma RequestStays(p: Policy, e: Event)
    requires p.run.Some? && p.pending.Some? && !Withdraws(p, e)
    ensures Next(p, e).run == p.run && Next(p, e).pending.Some?
    ensures p.pending == Some(Foreground) ==> Next(p, e).pending == Some(Foreground)
  {
  }

  /** Taking the ticket on offer withdraws the request it names, and nothing else ever succeeds. */
  lemma TakeTakes(p: Policy, ticket: Ticket)
    ensures p.Offer() == Some(ticket) ==> Next(p, Take(ticket)) == p.(pending := None)
    ensures p.Offer() != Some(ticket) ==> Next(p, Take(ticket)) == p
  {
  }

  /** A run that started stays ready, and one being hidden hidden, until what ends that. */
  lemma {:induction false} ReadyLasts(states: seq<Policy>, events: seq<Event>, k: nat, n: nat, run: RunId)
    requires IsRun(states, events) && k < n < |states| && events[k] == Started(run) && states[k].run == Some(run)
    requires forall j :: k < j < n ==> events[j] != Stop && !events[j].Begin?
    ensures states[n].ready && states[n].run == Some(run)
    decreases n
  {
    if n > k + 1 { ReadyLasts(states, events, k, n - 1, run); }
  }

  lemma {:induction false} NothingOfferedHidden(states: seq<Policy>, events: seq<Event>, k: nat, n: nat)
    requires IsRun(states, events) && k < n < |states| && events[k] == EnteredBackground(true)
    requires forall j :: k < j < n ==> events[j] != EnteredForeground
    ensures states[n].background && states[n].Offer().None?
    decreases n
  {
    if n > k + 1 { NothingOfferedHidden(states, events, k, n - 1); }
  }

  /** A beginning run is the named one, unless only the card is wanted, with nothing pending and not started. */
  lemma BeginStartsAfresh(p: Policy, run: RunId, cardOnly: bool)
    ensures var q := Next(p, Begin(run, cardOnly));
            q.run == (if cardOnly then None else Some(run)) && q.pending.None? && !q.ready && q.background == p.background
  {
  }

  // ---- The policy in the program's form ----

  class RecoveryState {
    var runID: Option<RunId>
    var ready: bool
    var background: bool
    var hasPathSnapshot: bool
    var revision: nat
    var pending: Option<Reason>
    ghost var bumps: nat

    ghost function View(): Policy
      reads this
    {
      Policy(runID, ready, background, hasPathSnapshot, revision, pending, bumps)
    }

    constructor ()
      ensures View() == Policy(None, false, false, false, 0, None, 0) && Inv(View())
    {
      runID, ready, background, hasPathSnapshot, revision, pending, bumps := None, false, false, false, 0, None, 0;
    }

    method BumpRevision()
      modifies this`revision, this`bumps
      ensures View() == old(View()).Bumped()
    {
      revision := (revision + 1) % REVISIONS;
      bumps := bumps + 1;
    }

    method Stop()
      modifies this
      ensures View() == old(View()).AfterStop()
    {
      runID := None;
      ready := false;
      pending := None;
      BumpRevision();
    }

    method Begin(runID: RunId, cardOnly: bool)
      modifies this
      ensures View() == old(View()).AfterBegin(runID, cardOnly)
    {
      Stop();
      this.runID := if cardOnly then None else Some(runID);
    }

    method Started(runID: RunId)
      modifies this
      ensures View() == old(View()).AfterStarted(runID)
    {
      if this.runID != Some(runID) {
        return;
      }
      ready := true;
    }

    method EnteredBackground(allScenesBackground: bool)
      modifies this
      ensures View() == old(View()).AfterBackground(allScenesBackground)
    {
      if !allScenesBackground || background {
        return;
      }
      background := true;
      BumpRevision();
    }

    method Request(reason: Reason)
      modifies this
      ensures View() == old(View()).AfterRequest(reason)
    {
      if runID.None? {
        return;
      }
      if pending != Some(Foreground) {
        pending := Some(reason);
      }
      BumpRevision();
    }

    method EnteredForeground()
      modifies this
      ensures View() == old(View()).AfterForeground()
    {
      if !background {
        return;
      }
      background := false;
      Request(Foreground);
    }

    /** The first delivery is only a baseline. */
    method PathUpdated(changed: bool)
      modifies this
      ensures View() == old(View()).AfterPath(changed)
    {
      if hasPathSnapshot && changed {
        Request(NetworkChanged);
      }
      hasPathSnapshot := true;
    }

    method Take(expected: Ticket) returns (taken: bool)
      modifies this`pending
      ensures taken == (old(View()).Offer() == Some(expected))
      ensures View() == old(View()).AfterTake(expected)
    {
      if runID.None? || !ready || background || pending.None? {
        return false;
      }
      if Ticket(runID.value, revision, pending.value) != expected {
        return false;
      }
      pending := None;
      return true;
    }
  }
}
