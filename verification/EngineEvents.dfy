/** Which run and attempt an engine's published diagnostics belong to.

    Start, Stop, the serving goroutine, and tunnel callbacks of any age interleave at
    the engine's lock; callbacks carry the run and attempt they were created for. */
module EngineEvents {
  import opened Wrappers

  type RunId = nat

  datatype Phase = Idle | Sim | Ike | Ims | Ready | Failed | Stopped

  /** A stored diagnostic, by the run and attempt it was recorded for. */
  datatype Tag = Tag(run: RunId, attempt: nat)

  datatype State = State(
    run: Option<RunId>,          // the current run
    started: nat,                // runs started so far; the latest is started-1
    cancelled: set<RunId>,       // runs whose context is cancelled
    phase: Phase,
    attempt: nat,
    stage: string,
    retrying: bool,
    terminal: bool,
    authDiagnostic: Option<Tag>,
    requestDiagnostic: Option<Tag>,
    policy: Option<Tag>,
    stopped: bool)               // history: Stop came after the latest Start

  datatype Event =
    | Start
    | Stop
    | ServingEnds(run: RunId)
    | BeginAttempt(run: RunId)
    | PhaseChanged(run: RunId, phase: Phase)
    | Progress(run: RunId, attempt: nat, stage: string)
    | AuthDiagnostic(run: RunId, attempt: nat, known: bool)
    | RequestDiagnostic(run: RunId, attempt: nat, known: bool, cycleCancelled: bool)

  predicate Live(s: State, run: RunId) {
    s.run == Some(run) && run !in s.cancelled
  }

  function AfterStart(s: State): State {
    if s.run.Some? then s
    else s.(run := Some(s.started), started := s.started + 1, phase := Sim, attempt := 0, stage := "",
            retrying := false, terminal := false,
            authDiagnostic := None, requestDiagnostic := None, policy := None, stopped := false)
  }

  function AfterStop(s: State): State {
    s.(authDiagnostic := None, requestDiagnostic := None, policy := None, stopped := true,
       cancelled := if s.run.Some? then s.cancelled + {s.run.value} else s.cancelled)
  }

  function AfterServing(s: State, run: RunId): State {
    if s.run != Some(run) then s
    else
      var s := s.(run := None);
      var s := if run in s.cancelled
               then s.(phase := Stopped, authDiagnostic := None, requestDiagnostic := None, policy := None) else s;
      s.(retrying := false, terminal := s.phase == Failed)
  }

  function AfterBegin(s: State, run: RunId): State {
    if !Live(s, run) then s
    else s.(attempt := s.attempt + 1, authDiagnostic := None, requestDiagnostic := None,
            policy := Some(Tag(run, s.attempt + 1)), stage := "transport")
  }

  function AfterPhase(s: State, run: RunId, phase: Phase): State {
    if s.run != Some(run) then s
    else
      var s := s.(phase := phase);
      if phase != Failed then s.(retrying := false, terminal := false) else s
  }

  /** What every tunnel callback checks before it stores anything. */
  predicate Admits(s: State, run: RunId, attempt: nat) {
    Live(s, run) && s.attempt == attempt && s.phase == Ike
  }

  function Next(s: State, e: Event): State {
    match e
    case Start => AfterStart(s)
    case Stop => AfterStop(s)
    case ServingEnds(run) => AfterServing(s, run)
    case BeginAttempt(run) => AfterBegin(s, run)
    case PhaseChanged(run, phase) => AfterPhase(s, run, phase)
    case Progress(run, attempt, stage) => if Admits(s, run, attempt) then s.(stage := stage) else s
    case AuthDiagnostic(run, attempt, known) =>
      if known && Admits(s, run, attempt) then s.(authDiagnostic := Some(Tag(run, attempt))) else s
    case RequestDiagnostic(run, attempt, known, cycleCancelled) =>
      if known && !cycleCancelled && Admits(s, run, attempt) then s.(requestDiagnostic := Some(Tag(run, attempt))) else s
  }

  const FRESH := State(None, 0, {}, Idle, 0, "", false, false, None, None, None, false)

  function Play(s: State, events: seq<Event>): State
    decreases |events|
  {
    if events == [] then s else Play(Next(s, events[0]), events[1..])
  }

  /** A tag, if present, is of the current attempt of the latest run. */
  predicate Current(s: State, tag: Option<Tag>) {
    tag.Some? ==> s.started > 0 && tag.value == Tag(s.started - 1, s.attempt)
  }

  predicate Inv(s: State) {
    && Current(s, s.authDiagnostic) && Current(s, s.requestDiagnostic) && Current(s, s.policy)
    && (s.run.Some? ==> s.started > 0 && s.run.value == s.started - 1)
    && (forall r :: r in s.cancelled ==> r < s.started)
    && (s.stopped ==> s.authDiagnostic.None? && s.requestDiagnostic.None? && s.policy.None?
                      && (s.run.Some? ==> s.run.value in s.cancelled))
  }

  lemma StepInv(s: State, e: Event)
    requires Inv(s)
    ensures Inv(Next(s, e))
  {
  }

  lemma {:induction false} PlayInv(s: State, events: seq<Event>)
    requires Inv(s)
    ensures Inv(Play(s, events))
    decreases |events|
  {
    if events != [] {
      StepInv(s, events[0]);
      PlayInv(Next(s, events[0]), events[1..]);
    }
  }

  /** Whatever arrives late, a stored diagnostic belongs to the current attempt of the latest
      run, and none is left once Stop has been called and no new run started. */
  lemma DiagnosticsAreCurrent(events: seq<Event>)
    ensures var s := Play(FRESH, events);
            && Current(s, s.authDiagnostic) && Current(s, s.requestDiagnostic) && Current(s, s.policy)
            && (s.stopped ==> s.authDiagnostic.None? && s.requestDiagnostic.None? && s.policy.None?)
  {
    PlayInv(FRESH, events);
  }

  lemma {:induction false} PlayAppend(s: State, first: seq<Event>, rest: seq<Event>)
    ensures Play(s, first + rest) == Play(Play(s, first), rest)
    decreases |first|
  {
    if first == [] {
      assert first + rest == rest;
    } else {
      PlayAppend(Next(s, first[0]), first[1..], rest);
      assert (first + rest)[1..] == first[1..] + rest;
    }
  }

  lemma {:induction false} StaysStopped(s: State, later: seq<Event>)
    requires s.stopped && Start !in later
    ensures Play(s, later).stopped
    decreases |later|
  {
    if later != [] {
      assert later[0] in later && later[0] != Start;
      StaysStopped(Next(s, later[0]), later[1..]);
    }
  }

  /** Nothing that happens between Stop and the next Start, callbacks of the stopped run
      included, brings a diagnostic back. */
  lemma NoneSurvivesStop(before: seq<Event>, later: seq<Event>)
    requires Start !in later
    ensures var s := Play(FRESH, before + [Stop] + later);
            s.authDiagnostic.None? && s.requestDiagnostic.None? && s.policy.None?
  {
    PlayAppend(FRESH, before + [Stop], later);
    PlayAppend(FRESH, before, [Stop]);
    var s := Play(FRESH, before + [Stop]);
    assert Play(Play(FRESH, before), [Stop]) == AfterStop(Play(FRESH, before)) by {
      assert [Stop][1..] == [];
    }
    StaysStopped(s, later);
    PlayInv(FRESH, before + [Stop] + later);
  }

  /** A run that serves is not replaced: it stays the current one until its serving ends. */
  lemma {:induction false} RunStaysUntilItEnds(s: State, run: RunId, later: seq<Event>)
    requires s.run == Some(run) && ServingEnds(run) !in later
    ensures Play(s, later).run == Some(run)
    decreases |later|
  {
    if later != [] {
      assert later[0] in later;
      RunStaysUntilItEnds(Next(s, later[0]), run, later[1..]);
    }
  }

  // ---- What the host gets to see ----

  /** What puts stored diagnostics away: a new run, a stop, a new attempt, or the end of serving. */
  predicate Clears(e: Event) {
    e == Start || e == Stop || e.BeginAttempt? || e.ServingEnds?
  }

  /** A diagnostic of a known outcome, delivered during the attempt of a live run in its IKE phase, is
      stored, and stays until something puts it away. */
  lemma {:induction false} AuthDiagnosticStored(s: State, run: RunId, attempt: nat, later: seq<Event>)
    requires Live(s, run) && s.attempt == attempt && s.phase == Ike && Inv(s)
    requires forall e :: e in later ==> !Clears(e)
    ensures Play(Next(s, AuthDiagnostic(run, attempt, true)), later).authDiagnostic == Some(Tag(run, attempt))
    ensures Play(Next(s, RequestDiagnostic(run, attempt, true, false)), later).requestDiagnostic == Some(Tag(run, attempt))
  {
    DiagnosticsStay(Next(s, AuthDiagnostic(run, attempt, true)), run, attempt, later);
    DiagnosticsStay(Next(s, RequestDiagnostic(run, attempt, true, false)), run, attempt, later);
  }

  /** While nothing puts diagnostics away only those of the same attempt can replace them. */
  lemma {:induction false} DiagnosticsStay(s: State, run: RunId, attempt: nat, later: seq<Event>)
    requires s.run == Some(run) && s.attempt == attempt
    requires forall e :: e in later ==> !Clears(e)
    ensures s.authDiagnostic == Some(Tag(run, attempt)) ==> Play(s, later).authDiagnostic == Some(Tag(run, attempt))
    ensures s.requestDiagnostic == Some(Tag(run, attempt)) ==> Play(s, later).requestDiagnostic == Some(Tag(run, attempt))
    decreases |later|
  {
    if later != [] {
      assert later[0] in later;
      DiagnosticsStay(Next(s, later[0]), run, attempt, later[1..]);
    }
  }

  /** A live run's new attempt is the next one, starts at the transport and has its policy recorded; its
      progress in the IKE phase moves the stage. */
  lemma AttemptBegins(s: State, run: RunId, stage: string)
    requires Live(s, run)
    ensures var t := Next(s, BeginAttempt(run));
            && t.attempt == s.attempt + 1 && t.stage == "transport" && t.policy == Some(Tag(run, t.attempt))
            && (t.phase == Ike ==> Next(t, Progress(run, t.attempt, stage)).stage == stage)
  {
  }

  /** The current run's phase is what is shown, and any but a failure takes back the word that it will be
      retried or is final; a phase of any other run changes nothing. */
  lemma PhaseShown(s: State, run: RunId, phase: Phase)
    ensures var t := Next(s, PhaseChanged(run, phase));
            if s.run == Some(run) then t.phase == phase && (phase != Failed ==> !t.retrying && !t.terminal) else t == s
  {
  }

  /** An idle engine starts a run that is live, with nothing left of earlier ones. */
  lemma StartBegins(events: seq<Event>)
    requires Play(FRESH, events).run.None?
    ensures var t := Next(Play(FRESH, events), Start);
            t.run.Some? && Live(t, t.run.value) && t.phase == Sim && t.attempt == 0 && !t.retrying && !t.terminal
  {
    PlayInv(FRESH, events);
  }

  /** When the current run's serving ends the engine is idle: stopped if the run was cancelled, and
      otherwise in the phase it was in, terminal exactly if that is a failure. */
  lemma ServingEndsProperly(s: State, run: RunId)
    requires s.run == Some(run)
    ensures var t := Next(s, ServingEnds(run));
            && t.run.None? && !t.retrying
            && t.phase == (if run in s.cancelled then Stopped else s.phase)
            && (t.terminal <==> t.phase == Failed)
  {
  }

  // ---- The engine in its own form ----

  class Engine {
    var run: Option<RunId>
    var started: nat
    var cancelled: set<RunId>
    var phase: Phase
    var attempt: nat
    var ikeStage: string
    var retrying: bool
    var terminal: bool
    var ikeAuthDiagnostic: Option<Tag>
    var ikeAuthRequestDiagnostic: Option<Tag>
    var connectionPolicy: Option<Tag>
    ghost var stopped: bool

    ghost function View(): State
      reads this
    {
      State(run, started, cancelled, phase, attempt, ikeStage, retrying, terminal, ikeAuthDiagnostic,
            ikeAuthRequestDiagnostic, connectionPolicy, stopped)
    }

    constructor ()
      ensures View() == FRESH
    {
      run, started, cancelled, phase, attempt, ikeStage := None, 0, {}, Idle, 0, "";
      retrying, terminal, stopped := false, false, false;
      ikeAuthDiagnostic, ikeAuthRequestDiagnostic, connectionPolicy := None, None, None;
    }

    method Start() returns (ok: bool)
      modifies this
      ensures View() == AfterStart(old(View())) && ok == old(run).None?
    {
      if run.Some? {
        return false;
      }
      run := Some(started);
      started := started + 1;
      phase, retrying, terminal := Sim, false, false;
      ikeStage, attempt := "", 0;
      ikeAuthDiagnostic, connectionPolicy := None, None;
      ikeAuthRequestDiagnostic := None;
      stopped := false;
      return true;
    }

    method Stop()
      modifies this
      ensures View() == AfterStop(old(View()))
    {
      ikeAuthDiagnostic, connectionPolicy := None, None;
      ikeAuthRequestDiagnostic := None;
      if run.Some? {
        cancelled := cancelled + {run.value};
      }
      stopped := true;
    }

    /** The deferred end of the serving goroutine. */
    method EndServing(ended: RunId)
      modifies this
      ensures View() == AfterServing(old(View()), ended)
    {
      if run == Some(ended) {
        run := None;
        if ended in cancelled {
          phase := Stopped;
          ikeAuthDiagnostic, connectionPolicy := None, None;
          ikeAuthRequestDiagnostic := None;
        }
        retrying := false;
        terminal := phase == Failed;
      }
    }

    method BeginConnectionAttempt(of: RunId) returns (ok: bool)
      modifies this
      ensures View() == AfterBegin(old(View()), of) && ok == Live(old(View()), of)
    {
      if run != Some(of) || of in cancelled {
        return false;
      }
      attempt := attempt + 1;
      ikeAuthDiagnostic, ikeAuthRequestDiagnostic := None, None;
      connectionPolicy := Some(Tag(of, attempt));
      ikeStage := "transport";
      return true;
    }

    method ChangePhase(of: RunId, to: Phase)
      modifies this
      ensures View() == AfterPhase(old(View()), of, to)
    {
      if run != Some(of) {
        return;
      }
      phase := to;
      if to != Failed {
        retrying, terminal := false, false;
      }
    }

    method RecordProgress(of: RunId, during: nat, stage: string)
      modifies this
      ensures View() == Next(old(View()), Progress(of, during, stage))
    {
      if run != Some(of) || of in cancelled || attempt != during || phase != Ike || ikeStage == stage {
        return;
      }
      ikeStage := stage;
    }

    method RecordAuthDiagnostic(of: RunId, during: nat, known: bool)
      modifies this
      ensures View() == Next(old(View()), AuthDiagnostic(of, during, known))
    {
      if !known {
        return;
      }
      if run != Some(of) || of in cancelled || attempt != during || phase != Ike {
        return;
      }
      ikeAuthDiagnostic := Some(Tag(of, during));
    }

    method RecordAuthRequestDiagnostic(of: RunId, during: nat, known: bool, cycleCancelled: bool)
      modifies this
      ensures View() == Next(old(View()), RequestDiagnostic(of, during, known, cycleCancelled))
    {
      if !known {
        return;
      }
      if run != Some(of) || of in cancelled || cycleCancelled || attempt != during || phase != Ike {
        return;
      }
      ikeAuthRequestDiagnostic := Some(Tag(of, during));
    }
  }
}
