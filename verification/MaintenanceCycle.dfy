/** The maintenance loop of one registered IMS cycle.

    Host requests, the loop, its worker, the renewal timer, cancellation and the clock
    interleave.  A step is what one party does between two points at which another
    could observe or change shared state: a critical section of the engine's lock, a
    channel operation, or a loop-local decision glued to one of those.  The class
    holds the fields; `Next` says what each step does to them; the lemmas below are
    about every run of steps.

    The program's revision counter has 64 bits and wraps.  `accepted` counts accepted
    requests without bound and the counter is its remainder. */
module MaintenanceCycle {
  import opened Wrappers

  const REVISIONS: nat := 0x1_0000_0000_0000_0000

  // ---- Registration lifetimes, in seconds ----

  function Min(a: int, b: int): int { if a < b then a else b }

  function Max(a: int, b: int): int { if a > b then a else b }

  const DAY: int := 24 * 60 * 60

  /** How long after a grant to renew it. */
  function RenewalDelay(expires: int): int {
    var e := Min(if expires <= 0 then 3600 else expires, DAY);
    Max(e - Min(Max(e / 4, 1), 300), 1)
  }

  /** Until when a grant is known to be fresh. */
  function FreshUntil(now: int, expires: int): int {
    now + Min(Max(expires, 0), DAY)
  }

  /** A check may use OPTIONS only when they are enabled and 60 seconds of binding remain. */
  predicate NeedsRefresh(now: int, registeredUntil: int, optionsInterval: int) {
    optionsInterval <= 0 || now + 60 >= registeredUntil
  }

  /** A positive grant is renewed after at least a second and within its freshness window,
      before the window closes when it is two seconds or more. */
  lemma RenewalWithinBinding(now: int, expires: int)
    requires expires > 0
    ensures 1 <= RenewalDelay(expires)
    ensures now + RenewalDelay(expires) <= FreshUntil(now, expires)
    ensures expires >= 2 ==> now + RenewalDelay(expires) < FreshUntil(now, expires)
  {
  }

  /** The margin is a quarter of the lifetime, at most five minutes and at least a second, and no
      lifetime counts for more than a day; without one an hour is assumed. */
  lemma RenewalMargin(now: int, expires: int)
    ensures 4 <= expires < 1200 ==> RenewalDelay(expires) == expires - expires / 4
    ensures 1200 <= expires <= DAY ==> RenewalDelay(expires) == expires - 300
    ensures expires > DAY ==> RenewalDelay(expires) == DAY - 300 && FreshUntil(now, expires) == now + DAY
    ensures expires <= 0 ==> RenewalDelay(expires) == 3300 && FreshUntil(now, expires) == now
    ensures 0 < expires <= DAY ==> FreshUntil(now, expires) == now + expires
  {
  }

  // ---- The state ----

  /** A maintenance operation: what it was started for, whether it registers or only probes,
      the revision it was started at, and (history) when and after how many requests. */
  datatype Operation = Operation(check: bool, refresh: bool, revision: nat, started: int, seen: nat)

  datatype Outcome = Outcome(operation: Operation, ok: bool, granted: nat)

  datatype Timer = Idle | Armed(due: int) | Fired

  /** Where the loop is. */
  datatype Place =
    | Selecting
    | Starting(check: bool)                      // busy, about to note the revision
    | Finishing(revision: nat, seen: nat)        // successful result taken, about to settle the check
    | Deferring                                  // failure noted, about to publish it
    | Returned                                   // about to tear the cycle down
    | Gone

  datatype State = State(
    now: int,
    cancelled: bool,
    published: bool,
    recoveryPending: bool,
    checking: bool,
    token: bool,
    accepted: nat,
    place: Place,
    busy: bool,
    renewPending: bool,
    failed: bool,
    timer: Timer,
    registeredUntil: int,
    optionsInterval: int,
    workers: seq<Operation>,
    results: seq<Outcome>)
  {
    function Revision(): nat { accepted % REVISIONS }

    /** The cycle is the engine's current one and its loop has not returned. */
    predicate Running() { published && place != Returned && place != Gone }
  }

  datatype Event =
    | Elapse(seconds: nat)
    | Request
    | Cancel
    | TimerFires
    | TakeTimer
    | TakeToken
    | TakeRecovery
    | TakeResult
    | StartOperation
    | FinishCheck
    | DeferRecovery(callActive: bool)
    | WorkerSucceeds(granted: nat)
    | WorkerFails
    | WorkerAbandons
    | LoopReturns
    | Teardown

  /** When a step can happen.  A refresh that succeeds brings a positive grant and a probe
      none; a worker only gives up silently once the cycle is cancelled. */
  predicate Enabled(s: State, e: Event) {
    match e
    case Elapse(_) => true
    case Request => true
    case Cancel => true
    case TimerFires => s.timer.Armed? && s.timer.due <= s.now
    case TakeTimer => s.place == Selecting && s.timer == Fired
    case TakeToken => s.place == Selecting && s.token
    case TakeRecovery => s.place == Selecting
    case TakeResult => s.place == Selecting && s.results != []
    case StartOperation => s.place.Starting?
    case FinishCheck => s.place.Finishing?
    case DeferRecovery(_) => s.place == Deferring
    case WorkerSucceeds(granted) => s.workers != [] && |s.results| < 1 && (s.workers[0].refresh <==> granted > 0)
    case WorkerFails => s.workers != [] && |s.results| < 1
    case WorkerAbandons => s.workers != [] && (s.cancelled || !s.Running())
    case LoopReturns => s.place == Selecting
    case Teardown => s.place == Returned
  }

  function Begin(s: State, check: bool): State {
    s.(busy := true, place := Starting(check))
  }

  /** A request accepted by the current, unbroken cycle. */
  predicate Accepts(s: State) {
    !s.cancelled && s.published && !s.recoveryPending
  }

  /** A successful result, as the loop takes it: an OPTIONS answer after the binding lapsed
      proves nothing and leads to a registration; a grant rearms the timer. */
  function Taken(s: State, r: Outcome): State {
    if r.granted == 0 && s.now >= s.registeredUntil then Begin(s, true)
    else
      var s := s.(busy := false, place := Finishing(r.operation.revision, r.operation.seen));
      if r.granted > 0 then
        s.(registeredUntil := FreshUntil(s.now, r.granted), timer := Armed(s.now + RenewalDelay(r.granted)),
           renewPending := false)
      else s
  }

  /** The check is settled when no request came since the finished operation noted the revision. */
  function Settled(s: State, revision: nat): State {
    if s.published && !s.cancelled && s.Revision() == revision then s.(checking := false, token := false) else s
  }

  function AfterRequest(s: State): State {
    if Accepts(s) then s.(accepted := s.accepted + 1, checking := true, token := s.token || !s.checking) else s
  }

  function AfterTimer(s: State): State {
    var s := s.(timer := Idle);
    if !s.busy && !s.failed then Begin(s, false) else s.(renewPending := true)
  }

  function AfterToken(s: State): State {
    var s := s.(token := false);
    if !s.busy && !s.failed then Begin(s, true) else s
  }

  function AfterRecovery(s: State): State {
    if s.failed then s else if s.busy then s.(renewPending := true) else Begin(s, false)
  }

  function AfterResult(s: State): State
    requires s.results != []
  {
    var r := s.results[0];
    var s := s.(results := []);
    if r.ok then Taken(s, r) else s.(busy := false, failed := true, place := Deferring)
  }

  function AfterStart(s: State): State
    requires s.place.Starting?
  {
    var refresh := !s.place.check || NeedsRefresh(s.now, s.registeredUntil, s.optionsInterval);
    s.(place := Selecting,
       workers := s.workers + [Operation(s.place.check, refresh, s.Revision(), s.now, s.accepted)])
  }

  function AfterFinish(s: State): State
    requires s.place.Finishing?
  {
    var s := Settled(s, s.place.revision);
    if s.renewPending then Begin(s.(renewPending := false), false)
    else if s.published && !s.cancelled && s.checking then Begin(s, true)
    else s.(place := Selecting)
  }

  function AfterDeferral(s: State, callActive: bool): State {
    var s := if s.published then s.(checking := false, recoveryPending := true, token := false) else s;
    s.(place := if callActive then Selecting else Returned)
  }

  function AfterWorker(s: State, ok: bool, granted: nat): State
    requires s.workers != []
  {
    s.(workers := s.workers[1..], results := s.results + [Outcome(s.workers[0], ok, granted)])
  }

  function Next(s: State, e: Event): State
    requires Enabled(s, e)
  {
    match e
    case Elapse(seconds) => s.(now := s.now + seconds)
    case Request => AfterRequest(s)
    case Cancel => s.(cancelled := true)
    case TimerFires => s.(timer := Fired)
    case TakeTimer => AfterTimer(s)
    case TakeToken => AfterToken(s)
    case TakeRecovery => AfterRecovery(s)
    case TakeResult => AfterResult(s)
    case StartOperation => AfterStart(s)
    case FinishCheck => AfterFinish(s)
    case DeferRecovery(callActive) => AfterDeferral(s, callActive)
    case WorkerSucceeds(granted) => AfterWorker(s, true, granted)
    case WorkerFails => AfterWorker(s, false, 0)
    case WorkerAbandons => s.(workers := s.workers[1..])
    case LoopReturns => s.(place := Returned)
    case Teardown => AfterTeardown(s)
  }

  function AfterTeardown(s: State): State {
    s.(published := false, checking := false, token := false, place := Gone)
  }

  /** The state in which a cycle is published, whatever lifetime the registration is known to have. */
  ghost predicate Initial(s: State) {
    && s.published && !s.recoveryPending && !s.checking && !s.token
    && s.place == Selecting && !s.busy && !s.renewPending && !s.failed
    && s.workers == [] && s.results == []
    && s.timer.Armed?
    && exists expires :: s.timer.due == s.now + RenewalDelay(expires) && s.registeredUntil == FreshUntil(s.now, expires)
  }

  // ---- Invariants ----

  /** At most one operation is under way, it has not answered yet or its answer waits in the
      one-slot channel, and the loop knows it is busy. */
  predicate OneOperation(s: State) {
    && |s.workers| + |s.results| <= 1
    && (s.workers != [] || s.results != [] ==> s.busy && s.place !in {Starting(true), Starting(false), Deferring}
                                               && !s.place.Finishing?)
    && (s.place.Starting? ==> s.busy)
    && (s.place.Finishing? || s.place == Deferring ==> !s.busy)
    && (s.busy && s.Running() && !s.cancelled ==> s.place.Starting? || |s.workers| + |s.results| == 1)
  }

  /** Operations remember a revision that was current when they started. */
  predicate HonestSnapshot(s: State, revision: nat, seen: nat) {
    seen <= s.accepted && revision == seen % REVISIONS
  }

  predicate HonestSnapshots(s: State) {
    && (forall w :: w in s.workers ==> HonestSnapshot(s, w.revision, w.seen))
    && (forall r :: r in s.results ==> HonestSnapshot(s, r.operation.revision, r.operation.seen))
    && (s.place.Finishing? ==> HonestSnapshot(s, s.place.revision, s.place.seen))
  }

  /** While a check is wanted someone is seeing to it. */
  predicate Attended(s: State) {
    && (s.token ==> s.checking)
    && (s.checking ==> s.published)
    && (s.Running() && !s.failed && !s.cancelled && s.checking ==> s.token || s.busy || s.place.Finishing?)
  }

  /** A registration is being made or will be made whatever the clock does. */
  predicate RefreshUnderWay(s: State) {
    || s.place == Starting(false)
    || (s.place == Starting(true) && s.now >= s.registeredUntil)
    || (s.workers != [] && s.workers[0].refresh)
    || (s.results != [] && s.results[0].operation.refresh)
  }

  /** The registration will be renewed. */
  predicate RenewalAssured(s: State) {
    s.Running() && !s.failed && !s.cancelled ==>
      s.timer != Idle || RefreshUnderWay(s) || (s.renewPending && (s.busy || s.place.Finishing?))
  }

  /** While the binding lasts the timer goes off within it, and a probe has its whole minute left in it. */
  predicate WithinBinding(s: State) {
    && (s.timer.Armed? && s.now < s.registeredUntil ==> s.timer.due <= s.registeredUntil)
    && (forall w :: w in s.workers && !w.refresh ==> w.started + 60 < s.registeredUntil)
    && (forall w :: w in s.workers ==> w.started <= s.now)
  }

  /** Results are what the service's contract allows. */
  predicate HonestResults(s: State) {
    forall r :: r in s.results && r.ok ==> (r.operation.refresh <==> r.granted > 0)
  }

  /** After a failure the cycle only winds down. */
  predicate WindingDown(s: State) {
    s.failed ==>
      && s.workers == [] && s.results == [] && !s.busy
      && s.place in {Selecting, Deferring, Returned, Gone}
      && (s.place != Deferring && s.published ==> s.recoveryPending && !s.checking && !s.token)
  }

  predicate Inv(s: State) {
    && OneOperation(s)
    && HonestSnapshots(s)
    && Attended(s)
    && RenewalAssured(s)
    && WithinBinding(s)
    && HonestResults(s)
    && WindingDown(s)
    && (s.place != Gone ==> s.published)
    && (s.place == Deferring ==> s.failed)
    && (s.place == Gone ==> !s.published)
  }

  lemma InitialInv(s: State)
    requires Initial(s)
    ensures Inv(s)
  {
    var expires :| s.timer.due == s.now + RenewalDelay(expires) && s.registeredUntil == FreshUntil(s.now, expires);
    if expires > 0 { RenewalWithinBinding(s.now, expires); }
  }

  lemma RequestKeepsInv(s: State)
    requires Inv(s)
    ensures Inv(Next(s, Request))
  {
  }

  lemma TakeTimerKeepsInv(s: State)
    requires Inv(s) && Enabled(s, TakeTimer)
    ensures Inv(Next(s, TakeTimer))
  {
  }

  lemma TakeTokenKeepsInv(s: State)
    requires Inv(s) && Enabled(s, TakeToken)
    ensures Inv(Next(s, TakeToken))
  {
  }

  lemma TakeRecoveryKeepsInv(s: State)
    requires Inv(s) && Enabled(s, TakeRecovery)
    ensures Inv(Next(s, TakeRecovery))
  {
  }

  lemma TakeResultKeepsInv(s: State)
    requires Inv(s) && Enabled(s, TakeResult)
    ensures Inv(Next(s, TakeResult))
  {
    var r := s.results[0];
    assert r in s.results;
    if r.ok && r.granted > 0 { RenewalWithinBinding(s.now, r.granted); }
  }

  lemma StartOperationKeepsInv(s: State)
    requires Inv(s) && Enabled(s, StartOperation)
    ensures Inv(Next(s, StartOperation))
  {
  }

  lemma FinishKeepsOperation(s: State)
    requires Inv(s) && s.place.Finishing?
    ensures OneOperation(AfterFinish(s)) && HonestSnapshots(AfterFinish(s)) && HonestResults(AfterFinish(s))
    ensures WindingDown(AfterFinish(s))
  {
    hide RenewalAssured, WithinBinding, Attended;
  }

  lemma FinishKeepsAttended(s: State)
    requires Inv(s) && s.place.Finishing?
    ensures Attended(AfterFinish(s))
  {
    hide RenewalAssured, WithinBinding, HonestSnapshots, HonestResults;
  }

  lemma FinishKeepsRenewal(s: State)
    requires Inv(s) && s.place.Finishing?
    ensures RenewalAssured(AfterFinish(s)) && WithinBinding(AfterFinish(s))
  {
    hide Attended, HonestSnapshots, HonestResults;
  }

  lemma FinishCheckKeepsInv(s: State)
    requires Inv(s) && Enabled(s, FinishCheck)
    ensures Inv(Next(s, FinishCheck))
  {
    FinishKeepsOperation(s);
    FinishKeepsAttended(s);
    FinishKeepsRenewal(s);
    hide OneOperation, HonestSnapshots, HonestResults, WindingDown, Attended, RenewalAssured, WithinBinding;
  }

  lemma WorkerKeepsInv(s: State, e: Event)
    requires Inv(s) && Enabled(s, e) && (e.WorkerSucceeds? || e.WorkerFails? || e.WorkerAbandons?)
    ensures Inv(Next(s, e))
  {
    assert s.workers[0] in s.workers && s.workers[1..] == [];
  }

  lemma OtherStepKeepsInv(s: State, e: Event)
    requires Inv(s) && Enabled(s, e)
    requires e.Elapse? || e.Cancel? || e.TimerFires? || e.DeferRecovery? || e.LoopReturns? || e.Teardown?
    ensures Inv(Next(s, e))
  {
  }

  lemma StepInv(s: State, e: Event)
    requires Inv(s) && Enabled(s, e)
    ensures Inv(Next(s, e))
  {
    hide Inv, Next;
    match e {
      case Request => RequestKeepsInv(s);
      case TakeTimer => TakeTimerKeepsInv(s);
      case TakeToken => TakeTokenKeepsInv(s);
      case TakeRecovery => TakeRecoveryKeepsInv(s);
      case TakeResult => TakeResultKeepsInv(s);
      case StartOperation => StartOperationKeepsInv(s);
      case FinishCheck => FinishCheckKeepsInv(s);
      case WorkerSucceeds(_) => WorkerKeepsInv(s, e);
      case WorkerFails => WorkerKeepsInv(s, e);
      case WorkerAbandons => WorkerKeepsInv(s, e);
      case _ => OtherStepKeepsInv(s, e);
    }
  }

  // ---- Runs ----

  /** A run: each state comes from the one before it by an enabled step. */
  predicate IsRun(states: seq<State>, events: seq<Event>) {
    && |states| == |events| + 1
    && forall i :: 0 <= i < |events| ==> Enabled(states[i], events[i]) && states[i + 1] == Next(states[i], events[i])
  }

  lemma {:induction false} RunInv(states: seq<State>, events: seq<Event>, k: nat)
    requires IsRun(states, events) && Initial(states[0]) && k < |states|
    ensures Inv(states[k])
  {
    hide Inv, Next, Initial, Enabled;
    if k == 0 {
      InitialInv(states[0]);
    } else {
      RunInv(states, events, k - 1);
      StepInv(states[k - 1], events[k - 1]);
    }
  }

  /** No check is lost: in every state of every run, a check that is wanted in a live,
      unbroken cycle has its token in the channel, an operation under way, or a result just
      being settled; whenever the loop waits, it is one of the first two. */
  lemma NoCheckLost(states: seq<State>, events: seq<Event>, k: nat)
    requires IsRun(states, events) && Initial(states[0]) && k < |states|
    requires states[k].Running() && !states[k].failed && !states[k].cancelled && states[k].checking
    ensures states[k].token || states[k].busy || states[k].place.Finishing?
    ensures states[k].place == Selecting ==> states[k].token || states[k].busy
  {
    RunInv(states, events, k);
  }

  /** A check is only ever cleared by tearing down, by a failure, or by settling a successful
      operation; and that operation noted the revision after the latest accepted request,
      unless 2^64 or more requests were accepted since. */
  lemma ClearedOnlyByFreshCheck(states: seq<State>, events: seq<Event>, k: nat)
    requires IsRun(states, events) && Initial(states[0]) && k < |events|
    requires states[k].checking && !states[k + 1].checking
    requires events[k] != Teardown && !events[k].DeferRecovery?
    ensures events[k] == FinishCheck && states[k].place.Finishing?
    ensures var since := states[k].accepted - states[k].place.seen;
            since == 0 || since >= REVISIONS
  {
    hide Inv, Next, Initial;
    RunInv(states, events, k);
    StepClearsFresh(states[k], events[k]);
  }

  lemma StepClearsFresh(s: State, e: Event)
    requires Inv(s) && Enabled(s, e) && s.checking && !Next(s, e).checking
    requires e != Teardown && !e.DeferRecovery?
    ensures e == FinishCheck && s.place.Finishing?
    ensures s.accepted - s.place.seen == 0 || s.accepted - s.place.seen >= REVISIONS
  {
    hide OneOperation, RenewalAssured, WithinBinding, HonestResults, WindingDown, Attended, RenewalDelay, FreshUntil,
         NeedsRefresh;
    OnlySettlingClears(s, e);
    if 0 < s.accepted - s.place.seen < REVISIONS {
      SameRemainder(s.accepted, s.place.seen);
    }
  }

  lemma OnlySettlingClears(s: State, e: Event)
    requires Enabled(s, e) && s.checking && !Next(s, e).checking
    requires e != Teardown && !e.DeferRecovery?
    ensures e == FinishCheck && s.place.Finishing? && s.Revision() == s.place.revision
  {
    hide RenewalDelay, FreshUntil, NeedsRefresh, AfterStart, AfterFinish, AfterResult, AfterWorker;
    match e {
      case StartOperation => StartKeepsCheck(s);
      case FinishCheck => FinishClears(s);
      case TakeResult => ResultKeepsCheck(s);
      case WorkerSucceeds(granted) => WorkerKeepsCheck(s, true, granted);
      case WorkerFails => WorkerKeepsCheck(s, false, 0);
      case _ =>
    }
  }

  lemma StartKeepsCheck(s: State)
    requires s.place.Starting?
    ensures AfterStart(s).checking == s.checking && AfterStart(s).accepted == s.accepted
  {
  }

  lemma FinishClears(s: State)
    requires s.place.Finishing? && s.checking && !AfterFinish(s).checking
    ensures s.Revision() == s.place.revision
  {
  }

  lemma ResultKeepsCheck(s: State)
    requires s.results != []
    ensures AfterResult(s).checking == s.checking && AfterResult(s).accepted == s.accepted
  {
    hide Taken;
    TakenKeepsCheck(s.(results := []), s.results[0]);
  }

  lemma TakenKeepsCheck(s: State, r: Outcome)
    ensures Taken(s, r).checking == s.checking && Taken(s, r).accepted == s.accepted
  {
    hide RenewalDelay, FreshUntil;
    if r.granted == 0 && s.now >= s.registeredUntil {
    } else if r.granted > 0 {
    } else {
    }
  }

  lemma WorkerKeepsCheck(s: State, ok: bool, granted: nat)
    requires s.workers != []
    ensures AfterWorker(s, ok, granted).checking == s.checking && AfterWorker(s, ok, granted).accepted == s.accepted
  {
  }

  lemma SameRemainder(a: nat, b: nat)
    requires b < a < b + REVISIONS
    ensures a % REVISIONS != b % REVISIONS
  {
  }

  /** Draining the token never discards a request: whenever a token disappears without an
      operation being begun or under way for it, the check itself is settled. */
  lemma TokenNotDiscarded(states: seq<State>, events: seq<Event>, k: nat)
    requires IsRun(states, events) && Initial(states[0]) && k < |events|
    requires states[k].token && !states[k + 1].token
    requires states[k + 1].Running() && !states[k + 1].failed && !states[k + 1].cancelled
    ensures states[k + 1].busy || !states[k + 1].checking
  {
    hide Next, Initial, Enabled, OneOperation, HonestSnapshots, RenewalAssured, WithinBinding;
    RunInv(states, events, k);
    RunInv(states, events, k + 1);
    TokenStep(states[k], events[k]);
  }

  lemma TokenStep(s: State, e: Event)
    requires Enabled(s, e) && s.token && !Next(s, e).token
    ensures !Next(s, e).place.Finishing?
  {
    match e {
      case TakeToken =>
      case FinishCheck =>
      case _ =>
    }
  }

  // ---- What requests and demands lead to ----

  /** An accepted request wants a check, and puts the token into the channel unless one was wanted already. */
  lemma RequestIsHeard(states: seq<State>, events: seq<Event>, k: nat)
    requires IsRun(states, events) && k < |events| && events[k] == Request
    requires states[k].published && !states[k].cancelled && !states[k].recoveryPending
    ensures states[k + 1].checking && states[k + 1].accepted == states[k].accepted + 1
    ensures !states[k].checking ==> states[k + 1].token
  {
  }

  lemma {:induction false} AcceptedGrows(states: seq<State>, events: seq<Event>, j: nat, k: nat)
    requires IsRun(states, events) && j <= k < |states|
    ensures states[j].accepted <= states[k].accepted
    decreases k
  {
    hide Next, Enabled;
    if j < k {
      AcceptedGrows(states, events, j, k - 1);
      AcceptedStep(states[k - 1], events[k - 1]);
    }
  }

  lemma AcceptedStep(s: State, e: Event)
    requires Enabled(s, e)
    ensures s.accepted <= Next(s, e).accepted
  {
    hide RenewalDelay, FreshUntil, NeedsRefresh, AfterStart, AfterFinish, AfterResult, AfterWorker;
    match e {
      case StartOperation => StartKeepsCheck(s);
      case FinishCheck => FinishKeepsAccepted(s);
      case TakeResult => ResultKeepsCheck(s);
      case WorkerSucceeds(granted) => WorkerKeepsCheck(s, true, granted);
      case WorkerFails => WorkerKeepsCheck(s, false, 0);
      case _ =>
    }
  }

  lemma FinishKeepsAccepted(s: State)
    requires s.place.Finishing?
    ensures AfterFinish(s).accepted == s.accepted
  {
  }

  /** And that check is only ever settled by a successful operation that noted the revision after the
      request (or during which 2^64 requests were accepted): in every run, when the check is no
      longer wanted and the cycle neither failed nor ended since, such an operation was settled. */
  lemma {:induction false} RequestIsServed(states: seq<State>, events: seq<Event>, k: nat, n: nat) returns (m: nat)
    requires IsRun(states, events) && Initial(states[0]) && k < n < |states| && events[k] == Request
    requires states[k].published && !states[k].cancelled && !states[k].recoveryPending
    requires forall j :: k < j < n ==> events[j] != Teardown && !events[j].DeferRecovery?
    requires !states[n].checking
    ensures k < m < n && events[m] == FinishCheck && states[m].place.Finishing?
    ensures states[m].place.seen > states[k].accepted || states[m].accepted - states[m].place.seen >= REVISIONS
    decreases n
  {
    hide Next, Initial, Enabled, Accepts;
    RequestIsHeard(states, events, k);
    if states[n - 1].checking {
      m := n - 1;
      ClearedOnlyByFreshCheck(states, events, m);
      AcceptedGrows(states, events, k + 1, m);
    } else {
      m := RequestIsServed(states, events, k, n - 1);
    }
  }

  /** A registration was started, or one was granted, in a stretch of a run. */
  predicate Refreshed(states: seq<State>, events: seq<Event>, j: nat, n: nat)
    requires IsRun(states, events) && n < |states|
  {
    exists m :: j <= m < n && RefreshStep(states[m], events[m])
  }

  predicate RefreshStep(s: State, e: Event) {
    || (e == StartOperation && s.place == Starting(false))
    || (e == TakeResult && s.results != [] && s.results[0].ok && s.results[0].granted > 0)
  }

  /** A registration is about to be started, or will be once the operation under way is settled. */
  predicate RefreshOwed(s: State) {
    s.place == Starting(false) || (s.renewPending && (s.busy || s.place.Finishing?))
  }

  /** When the renewal timer or the service demands a registration of a healthy cycle, then at every
      later point at which it is still healthy one is owed, or was started or granted since. */
  lemma {:induction false} DemandIsServed(states: seq<State>, events: seq<Event>, k: nat, n: nat)
    requires IsRun(states, events) && Initial(states[0]) && k < n < |states|
    requires events[k] == TakeTimer || events[k] == TakeRecovery
    requires !states[k].failed && states[n].Running() && !states[n].failed && !states[n].cancelled
    ensures RefreshOwed(states[n]) || Refreshed(states, events, k, n)
    decreases n
  {
    hide Inv, Next, Initial, Enabled, RefreshStep;
    RunInv(states, events, n - 1);
    RunInv(states, events, n);
    StillHealthy(states[n - 1], events[n - 1]);
    if n == k + 1 {
      DemandStep(states[k], events[k]);
    } else {
      DemandIsServed(states, events, k, n - 1);
      if RefreshOwed(states[n - 1]) {
        OwedStep(states[n - 1], events[n - 1]);
        if RefreshStep(states[n - 1], events[n - 1]) { assert Refreshed(states, events, k, n); }
      } else {
        var m :| k <= m < n - 1 && RefreshStep(states[m], events[m]);
        assert Refreshed(states, events, k, n);
      }
    }
  }

  /** What is healthy now was so before. */
  lemma StillHealthy(s: State, e: Event)
    requires Inv(s) && Enabled(s, e) && Next(s, e).Running() && !Next(s, e).failed && !Next(s, e).cancelled
    ensures s.Running() && !s.failed && !s.cancelled
  {
    hide RenewalDelay, FreshUntil, NeedsRefresh, OneOperation, HonestSnapshots, Attended, RenewalAssured, WithinBinding,
         HonestResults;
    match e {
      case TakeResult =>
      case FinishCheck =>
      case StartOperation =>
      case _ =>
    }
  }

  lemma DemandStep(s: State, e: Event)
    requires Enabled(s, e) && !s.failed && (e == TakeTimer || e == TakeRecovery)
    ensures RefreshOwed(Next(s, e))
  {
  }

  lemma OwedStep(s: State, e: Event)
    requires Inv(s) && Enabled(s, e) && RefreshOwed(s) && s.Running() && !s.failed && !s.cancelled
    requires Next(s, e).Running() && !Next(s, e).failed && !Next(s, e).cancelled
    ensures RefreshOwed(Next(s, e)) || RefreshStep(s, e)
  {
    hide RenewalDelay, FreshUntil, NeedsRefresh, HonestSnapshots, Attended, RenewalAssured, WithinBinding;
    match e {
      case TakeResult =>
      case FinishCheck =>
      case StartOperation =>
      case _ =>
    }
  }

  /** A token drained from an idle healthy cycle starts a check. */
  lemma TokenStartsCheck(states: seq<State>, events: seq<Event>, k: nat)
    requires IsRun(states, events) && k < |events| && events[k] == TakeToken
    requires !states[k].busy && !states[k].failed
    ensures states[k + 1].place == Starting(true) && states[k + 1].busy
  {
  }

  /** What is started is one operation, of the latest revision, and it probes rather than registers
      exactly when it serves a check, probing is enabled and more than a minute of binding is left. */
  lemma CheckSparesRegistration(states: seq<State>, events: seq<Event>, k: nat)
    requires IsRun(states, events) && Initial(states[0]) && k < |events| && events[k] == StartOperation
    ensures |states[k + 1].workers| == 1
    ensures var w := states[k + 1].workers[0];
            && w.seen == states[k].accepted && w.started == states[k].now
            && (w.check <==> states[k].place == Starting(true))
            && (!w.refresh <==> w.check && states[k].optionsInterval > 0 && states[k].registeredUntil - states[k].now > 60)
  {
    hide Initial;
    RunInv(states, events, k);
  }

  /** After a settled result a pending renewal comes first, then a check that is still wanted, and otherwise
      the loop waits. */
  lemma SettlingGoesOn(states: seq<State>, events: seq<Event>, k: nat)
    requires IsRun(states, events) && Initial(states[0]) && k < |events| && events[k] == FinishCheck
    requires states[k].published && !states[k].cancelled
    ensures states[k + 1].place == if states[k].renewPending then Starting(false)
                                   else if states[k + 1].checking then Starting(true)
                                   else Selecting
  {
  }

  /** A failed operation breaks the cycle, and once that is published the loop returns at once unless a
      call is established; with one it returns only by a step of its own. */
  lemma FailureIsPublished(states: seq<State>, events: seq<Event>, k: nat)
    requires IsRun(states, events) && Initial(states[0]) && k < |events|
    ensures events[k] == TakeResult && !states[k].results[0].ok ==> states[k + 1].failed && states[k + 1].place == Deferring
    ensures events[k].DeferRecovery? ==>
              && states[k + 1].recoveryPending && !states[k + 1].checking && !states[k + 1].token
              && (states[k + 1].place == Returned <==> !events[k].callActive)
  {
    hide Initial;
    RunInv(states, events, k);
  }

  /** A call that outlives a failure keeps the loop until it is seen to have ended. */
  lemma {:induction false} CallKeepsLoop(states: seq<State>, events: seq<Event>, k: nat, n: nat)
    requires IsRun(states, events) && Initial(states[0]) && k < n < |states| && events[k] == DeferRecovery(true)
    requires forall j :: k < j < n ==> events[j] != LoopReturns
    ensures states[n].place == Selecting && states[n].failed
    decreases n
  {
    hide Inv, Next, Initial, Enabled;
    RunInv(states, events, n - 1);
    if n > k + 1 { CallKeepsLoop(states, events, k, n - 1); }
    BrokenLoopWaits(states[n - 1], events[n - 1]);
  }

  lemma BrokenLoopWaits(s: State, e: Event)
    requires Inv(s) && Enabled(s, e) && e != LoopReturns
    requires (s.failed && s.place == Selecting) || e == DeferRecovery(true)
    ensures Next(s, e).failed && Next(s, e).place == Selecting
  {
    hide RenewalDelay, FreshUntil, NeedsRefresh, HonestSnapshots, Attended, RenewalAssured, WithinBinding;
  }

  /** The one-slot result channel never blocks a worker, and no two operations overlap. */
  lemma NeverTwoOperations(states: seq<State>, events: seq<Event>, k: nat)
    requires IsRun(states, events) && Initial(states[0]) && k < |states|
    ensures |states[k].workers| + |states[k].results| <= 1
    ensures states[k].workers != [] ==> Enabled(states[k], WorkerFails)
  {
    RunInv(states, events, k);
  }

  /** While the cycle is healthy its registration will be renewed, and in time. */
  lemma RegistrationKept(states: seq<State>, events: seq<Event>, k: nat)
    requires IsRun(states, events) && Initial(states[0]) && k < |states|
    requires states[k].Running() && !states[k].failed && !states[k].cancelled
    ensures states[k].timer != Idle || RefreshUnderWay(states[k])
         || (states[k].renewPending && (states[k].busy || states[k].place.Finishing?))
    ensures states[k].timer.Armed? && states[k].now < states[k].registeredUntil ==>
              states[k].timer.due <= states[k].registeredUntil
  {
    RunInv(states, events, k);
  }

  /** A probe that keeps its 60-second deadline ends within the binding. */
  lemma ProbeWithinBinding(states: seq<State>, events: seq<Event>, k: nat)
    requires IsRun(states, events) && Initial(states[0]) && k < |events|
    requires events[k].WorkerSucceeds? && !states[k].workers[0].refresh
    requires states[k].now <= states[k].workers[0].started + 60
    ensures states[k].now < states[k].registeredUntil
  {
    RunInv(states, events, k);
    assert states[k].workers[0] in states[k].workers;
  }

  /** An OPTIONS answer taken after the binding lapsed settles nothing: the check stays and a
      registration is begun. */
  lemma LapsedProbeSettlesNothing(states: seq<State>, events: seq<Event>, k: nat)
    requires IsRun(states, events) && Initial(states[0]) && k < |events|
    requires events[k] == TakeResult && states[k].results[0].ok && !states[k].results[0].operation.refresh
    requires states[k].now >= states[k].registeredUntil
    ensures states[k + 1].checking == states[k].checking && states[k + 1].token == states[k].token
    ensures states[k + 1].place == Starting(true) && RefreshUnderWay(states[k + 1])
  {
    RunInv(states, events, k);
    assert states[k].results[0] in states[k].results;
  }

  /** Once a failure has been published no operation starts and no request is accepted for the
      rest of the cycle. */
  lemma {:induction false} NothingAfterFailure(states: seq<State>, events: seq<Event>, j: nat, k: nat)
    requires IsRun(states, events) && Initial(states[0]) && j <= k < |states|
    requires states[j].failed && states[j].place != Deferring
    ensures states[k].failed && states[k].place != Deferring
    ensures states[k].workers == [] && states[k].results == [] && !states[k].checking
    ensures states[k].accepted == states[j].accepted
    decreases k
  {
    hide Inv, Next, Initial, Enabled;
    RunInv(states, events, k);
    if j < k {
      NothingAfterFailure(states, events, j, k - 1);
      RunInv(states, events, k - 1);
      BrokenStep(states[k - 1], events[k - 1]);
    }
    BrokenCycle(states[k]);
  }

  lemma BrokenCycle(s: State)
    requires Inv(s) && s.failed && s.place != Deferring
    ensures s.workers == [] && s.results == [] && !s.checking
  {
  }

  lemma BrokenStep(s: State, e: Event)
    requires Inv(s) && Enabled(s, e) && s.failed && s.place != Deferring
    ensures Next(s, e).failed && Next(s, e).place != Deferring && Next(s, e).accepted == s.accepted
  {
  }

  // ---- Progress ----

  /** Steps of the loop and a succeeding worker: what happens when nothing new comes in. */
  predicate Quiet(s: State, e: Event) {
    match e
    case TakeToken => true
    case TakeResult => s.results != [] && s.results[0].ok
    case StartOperation => true
    case FinishCheck => true
    case WorkerSucceeds(_) => true
    case _ => false
  }

  predicate Fresh(s: State, seen: nat) { seen == s.accepted }

  /** How many quiet steps a pending check is away from being settled, at most. */
  function Distance(s: State): nat {
    (if s.token then 1 else 0) +
    match s.place
    case Starting(check) => if !check || NeedsRefresh(s.now, s.registeredUntil, s.optionsInterval) then 4 else 8
    case Finishing(_, seen) => if Fresh(s, seen) then 1 else 9
    case _ =>
      if s.workers != [] then
        if !Fresh(s, s.workers[0].seen) then 11 else if s.workers[0].refresh then 3 else 7
      else if s.results != [] then
        if !Fresh(s, s.results[0].operation.seen) then 10 else if s.results[0].operation.refresh then 2 else 6
      else 8
  }

  predicate Pending(s: State) {
    Inv(s) && s.Running() && !s.failed && !s.cancelled && s.checking
  }

  /** A pending check is never stuck: some quiet step is possible. */
  lemma CheckNotStuck(s: State)
    requires Pending(s) && (forall r :: r in s.results ==> r.ok)
    ensures exists e :: Enabled(s, e) && Quiet(s, e)
  {
    if s.place.Starting? {
      assert Enabled(s, StartOperation) && Quiet(s, StartOperation);
    } else if s.place.Finishing? {
      assert Enabled(s, FinishCheck) && Quiet(s, FinishCheck);
    } else if s.workers != [] {
      var e := WorkerSucceeds(if s.workers[0].refresh then 1 else 0);
      assert Enabled(s, e) && Quiet(s, e);
    } else if s.results != [] {
      assert s.results[0] in s.results;
      assert Enabled(s, TakeResult) && Quiet(s, TakeResult);
    } else {
      assert Enabled(s, TakeToken) && Quiet(s, TakeToken);
    }
  }

  /** And every quiet step either settles it or brings it closer: after at most twelve of
      them the check has been answered. */
  lemma CheckComesCloser(s: State, e: Event)
    requires Pending(s) && Enabled(s, e) && Quiet(s, e)
    ensures Distance(s) <= 12
    ensures !Next(s, e).checking || (Pending(Next(s, e)) && Distance(Next(s, e)) < Distance(s))
  {
    StepInv(s, e);
    QuietStep(s, e);
    assert Inv(s);
  }

  /** Settled, or still pending and closer. */
  predicate Closer(s: State, s': State) {
    && Distance(s) <= 12
    && (!s'.checking || (s'.Running() && !s'.failed && !s'.cancelled && Distance(s') < Distance(s)))
  }

  lemma QuietResult(s: State)
    requires Pending(s) && Enabled(s, TakeResult) && s.results[0].ok
    ensures Closer(s, AfterResult(s))
  {
    hide RenewalAssured, RenewalDelay, FreshUntil;
    assert s.results[0] in s.results;
  }

  lemma QuietFinish(s: State)
    requires Pending(s) && Enabled(s, FinishCheck)
    ensures Closer(s, AfterFinish(s))
  {
    hide RenewalAssured, WithinBinding, HonestResults;
  }

  lemma QuietStart(s: State)
    requires Pending(s) && Enabled(s, StartOperation)
    ensures Closer(s, AfterStart(s))
  {
    hide RenewalAssured, WithinBinding, HonestResults;
  }

  lemma QuietStep(s: State, e: Event)
    requires Pending(s) && Enabled(s, e) && Quiet(s, e)
    ensures Closer(s, Next(s, e))
  {
    hide AfterResult, AfterFinish, AfterStart, RenewalAssured, WithinBinding, HonestSnapshots;
    match e {
      case TakeToken =>
      case TakeResult => QuietResult(s);
      case StartOperation => QuietStart(s);
      case FinishCheck => QuietFinish(s);
      case WorkerSucceeds(_) =>
    }
  }

  /** A run of nothing but quiet steps answers a pending check within twelve of them. */
  lemma QuietRunAnswersCheck(states: seq<State>, events: seq<Event>)
    requires IsRun(states, events) && Pending(states[0]) && |events| > 12
    requires forall i :: 0 <= i < |events| ==> Quiet(states[i], events[i])
    ensures exists k :: 0 < k <= 13 && !states[k].checking
  {
    hide Inv, Next, Enabled, Quiet, Distance;
    var k := 0;
    CheckComesCloser(states[0], events[0]);
    while k < 13 && Pending(states[k])
      invariant 0 <= k <= 13
      invariant k > 0 ==> Pending(states[k]) || !states[k].checking
      invariant k > 0 && !Pending(states[k]) ==> !states[k].checking
      invariant Pending(states[k]) ==> Distance(states[k]) + k <= 12
    {
      CheckComesCloser(states[k], events[k]);
      k := k + 1;
    }
  }

  // ---- The program's fields and critical sections ----

  datatype CheckError = MissingGeneration | InvalidReason | GenerationChanged | Stopped

  /** Each method is the step its postcondition names, in the program's own form. */
  class Cycle {
    var generation: int               // the engine's
    var run: Option<int>              // generation of the engine's run, None once it has ended
    var now: int
    var cancelled: bool
    var published: bool
    var recoveryPending: bool
    var checking: bool
    var token: bool
    var accepted: nat
    var place: Place
    var busy: bool
    var renewPending: bool
    var failed: bool
    var timer: Timer
    var registeredUntil: int
    var optionsInterval: int
    var workers: seq<Operation>
    var results: seq<Outcome>

    ghost function View(): State
      reads this
    {
      State(now, cancelled, published, recoveryPending, checking, token, accepted, place, busy, renewPending, failed,
            timer, registeredUntil, optionsInterval, workers, results)
    }

    /** Publishing a registered service: the cycle starts from here. */
    constructor (generation: int, expires: int, now: int, accepted: nat, optionsInterval: int)
      ensures Initial(View()) && View().accepted == accepted && View().now == now
    {
      this.generation, run := generation, Some(generation);
      this.now, this.accepted, this.optionsInterval := now, accepted, optionsInterval;
      cancelled, published, recoveryPending, checking, token := false, true, false, false, false;
      place, busy, renewPending, failed := Selecting, false, false, false;
      timer, registeredUntil := Armed(now + RenewalDelay(expires)), FreshUntil(now, expires);
      workers, results := [], [];
    }

    method RequestCheck(wanted: Option<int>, reason: string) returns (r: Result<(), CheckError>)
      modifies this
      ensures r == if wanted.None? then Failure(MissingGeneration)
                   else if reason !in {"", "foreground", "network_changed"} then Failure(InvalidReason)
                   else if wanted.value != old(generation) || (old(run).Some? && wanted.value != old(run).value)
                     then Failure(GenerationChanged)
                   else if old(run).None? || old(cancelled) then Failure(Stopped)
                   else Success(())
      ensures View() == if r.Success? then AfterRequest(old(View())) else old(View())
      ensures generation == old(generation) && run == old(run)
    {
      if wanted.None? {
        return Failure(MissingGeneration);
      }
      if reason != "" && reason != "foreground" && reason != "network_changed" {
        return Failure(InvalidReason);
      }
      if wanted.value != generation || (run.Some? && wanted.value != run.value) {
        return Failure(GenerationChanged);
      }
      if run.None? || cancelled {
        return Failure(Stopped);
      }
      if published && !recoveryPending {
        accepted := accepted + 1;
        if !checking {
          checking := true;
          if !token {
            token := true;
          }
        }
      }
      return Success(());
    }

    /** Settles the check if the finished operation is current; says whether one is still wanted. */
    method FinishConnectionCheck(revision: nat) returns (wanted: bool)
      modifies this`checking, this`token
      ensures View() == Settled(old(View()), revision)
      ensures wanted == (published && !cancelled && checking)
    {
      if !published || cancelled {
        return false;
      }
      if accepted % REVISIONS == revision {
        checking := false;
        if token {
          token := false;
        }
      }
      return checking;
    }

    /** Busy first; the revision is noted in the next critical section. */
    method StartMaintenance(check: bool)
      modifies this`busy, this`place
      ensures View() == Begin(old(View()), check)
    {
      busy := true;
      place := Starting(check);
    }

    method NoteRevision()
      requires Enabled(View(), StartOperation)
      modifies this`place, this`workers
      ensures View() == AfterStart(old(View()))
    {
      var check := place.check;
      var revision := accepted % REVISIONS;
      var refresh := !check || NeedsRefresh(now, registeredUntil, optionsInterval);
      workers := workers + [Operation(check, refresh, revision, now, accepted)];
      place := Selecting;
    }

    method OnRenewalTimer()
      requires Enabled(View(), TakeTimer)
      modifies this
      ensures View() == AfterTimer(old(View()))
    {
      timer := Idle;
      if !busy && !failed {
        StartMaintenance(false);
      } else {
        renewPending := true;
      }
    }

    method OnCheckToken()
      requires Enabled(View(), TakeToken)
      modifies this
      ensures View() == AfterToken(old(View()))
    {
      token := false;
      if !busy && !failed {
        StartMaintenance(true);
      }
    }

    method OnRecoveryRequest()
      requires Enabled(View(), TakeRecovery)
      modifies this
      ensures View() == AfterRecovery(old(View()))
    {
      if !busy && !failed {
        StartMaintenance(false);
      } else if !failed {
        renewPending := true;
      }
    }

    method OnResult()
      requires Enabled(View(), TakeResult)
      modifies this
      ensures View() == AfterResult(old(View()))
    {
      var result := results[0];
      results := [];
      if result.ok {
        OnSuccess(result);
      } else {
        busy := false;
        failed := true;
        place := Deferring;
      }
    }

    method OnSuccess(result: Outcome)
      modifies this
      ensures View() == Taken(old(View()), result)
    {
      busy := false;
      if result.granted == 0 && now >= registeredUntil {
        StartMaintenance(true);
        return;
      }
      if result.granted > 0 {
        registeredUntil := FreshUntil(now, result.granted);
        timer := Armed(now + RenewalDelay(result.granted));
        renewPending := false;
      }
      place := Finishing(result.operation.revision, result.operation.seen);
    }

    method SettleResult()
      requires Enabled(View(), FinishCheck)
      modifies this
      ensures View() == AfterFinish(old(View()))
    {
      var wanted := FinishConnectionCheck(place.revision);
      if renewPending {
        renewPending := false;
        StartMaintenance(false);
      } else if wanted {
        StartMaintenance(true);
      } else {
        place := Selecting;
      }
    }

    /** Publishes the failure; an established call keeps the loop waiting. */
    method DeferConnectionRecovery(callActive: bool)
      requires Enabled(View(), DeferRecovery(callActive))
      modifies this
      ensures View() == AfterDeferral(old(View()), callActive)
    {
      if published {
        checking, recoveryPending := false, true;
        if token {
          token := false;
        }
      }
      place := if callActive then Selecting else Returned;
    }

    /** A worker's answer goes into the one-slot channel. */
    method Deliver(ok: bool, granted: nat)
      requires Enabled(View(), if ok then WorkerSucceeds(granted) else WorkerFails)
      modifies this`workers, this`results
      ensures View() == AfterWorker(old(View()), ok, if ok then granted else 0)
    {
      results := results + [Outcome(workers[0], ok, if ok then granted else 0)];
      workers := workers[1..];
    }

    method TearDown()
      requires Enabled(View(), Teardown)
      modifies this
      ensures View() == AfterTeardown(old(View()))
    {
      if published {
        published := false;
      }
      checking, token := false, false;
      place := Gone;
    }
  }
}
