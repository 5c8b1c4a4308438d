/** The reconnect loop of one run: connection attempts, the failure budget, failover among
    ePDG candidates and bounded authenticated redirects. */
module ReconnectLoop {
  import opened Wrappers
  import opened Text

  // ---- Errors of a cycle ----

  /** What the loop can tell about the error of a connection cycle: whether it is a context
      cancellation, a peer authentication failure or a redirect refused by policy, whether
      its text carries one of the permanent markers, and the redirect it reports. */
  datatype CycleError = CycleError(cancellation: bool, peerAuthentication: bool, policy: bool, marker: bool,
                                   redirect: Option<Redirect>)

  datatype Redirect = Redirect(address: string, authenticated: bool)

  const REFUSED := CycleError(false, false, true, false, None)

  /** A cancellation that is not the owner's loses its identity, and keeps only its text. */
  function Classify(ownerCancelled: bool, error: Option<CycleError>): Option<CycleError> {
    if !ownerCancelled && error.Some? && error.value.cancellation
    then Some(CycleError(false, false, false, error.value.marker, None))
    else error
  }

  predicate Permanent(error: CycleError) {
    error.cancellation || error.peerAuthentication || error.policy || error.marker
  }

  /** New failure count, whether to try again, and after how many seconds. */
  function ReconnectPolicy(failures: nat, registered: bool, error: Option<CycleError>): (nat, bool, nat) {
    if error.None? then (0, true, 1)
    else
      var failures := if registered then 0 else failures;
      if Permanent(error.value) then (failures, false, 0)
      else if registered then (0, true, 2)
      else if failures + 1 >= 3 then (failures + 1, false, 0)
      else (failures + 1, true, if failures + 1 == 1 then 2 else 4)
  }

  // ---- Destinations ----

  datatype Source = Custom | CarrierOverride | CarrierTemplate | OtherSource

  datatype Effective = Effective(epdg: string, source: Source, candidates: seq<string>, hostname: string)

  /** What the platform decides about names: numeric addresses, and equality up to case. */
  datatype Names = Names(numeric: string -> bool, sameFold: (string, string) -> bool) {
    ghost predicate Valid() {
      forall s :: sameFold(s, s)
    }
  }

  function ForCandidate(source: Effective, index: nat): Effective {
    if source.source == CarrierTemplate && 0 < index < |source.candidates|
    then source.(epdg := source.candidates[index]) else source
  }

  datatype Stage = Transport | IkeSaInit | LaterStage

  predicate CanAdvance(stage: Stage, error: Option<CycleError>) {
    error.Some? && !Permanent(error.value) && (stage == Transport || stage == IkeSaInit)
  }

  /** The dot-separated parts of a name. */
  function Labels(name: string): (r: seq<string>)
    ensures r != []
  {
    if name == "" then [""]
    else
      var rest := Labels(name[1..]);
      if name[0] == '.' then [""] + rest else [[name[0]] + rest[0]] + rest[1..]
  }

  predicate LabelCharacter(c: char) {
    'a' <= c <= 'z' || 'A' <= c <= 'Z' || '0' <= c <= '9' || c == '-'
  }

  predicate ValidLabel(part: string) {
    && 0 < |part| <= 63
    && part[0] != '-' && part[|part| - 1] != '-'
    && forall i :: 0 <= i < |part| ==> LabelCharacter(part[i])
  }

  predicate ValidRedirectAddress(names: Names, address: string) {
    names.numeric(address) ||
    var name := TrimSuffix(address, '.');
    0 < |name| <= 253 && forall part :: part in Labels(name) ==> ValidLabel(part)
  }

  /** The configuration after an authenticated redirect, None when the destination policy refuses it. */
  function ForRedirect(names: Names, source: Effective, redirect: Redirect, count: nat): Option<Effective> {
    if !redirect.authenticated || count >= 3 || source.source == Custom || source.source == CarrierOverride then None
    else
      var address := TrimSpace(redirect.address);
      if !ValidRedirectAddress(names, address)
         || names.sameFold(TrimSuffix(address, '.'), TrimSuffix(source.epdg, '.')) then None
      else Some(source.(epdg := address, candidates := [address],
                        hostname := if source.hostname == "" then source.epdg else source.hostname))
  }

  /** The identity demanded of the peer. */
  function RemoteIdentifier(effective: Effective): string {
    if Blank(effective.hostname) then effective.epdg else TrimSpace(effective.hostname)
  }

  /** An accepted redirect leaves the demanded identity alone exactly when the certificate
      hostname says something, or is empty and the redirecting name is neither blank nor
      surrounded by space.  A hostname of nothing but space hands the identity over to the
      redirect's target. */
  lemma RedirectKeepsIdentity(names: Names, source: Effective, redirect: Redirect, count: nat)
    requires names.Valid() && ForRedirect(names, source, redirect, count).Some?
    requires !names.numeric("")
    ensures RemoteIdentifier(ForRedirect(names, source, redirect, count).value) == RemoteIdentifier(source)
       <==> !Blank(source.hostname) || (source.hostname == "" && TrimSpace(source.epdg) == source.epdg != "")
  {
    var address := TrimSpace(redirect.address);
    assert address != source.epdg by {
      assert names.sameFold(TrimSuffix(address, '.'), TrimSuffix(address, '.'));
    }
    TrimSpaceIsTrimmed(redirect.address);
    TrimSpaceIsTrimmed(source.epdg);
    assert address != "";
  }

  // ---- The run ----

  datatype Phase = Connecting | Failed | Stopped

  /** A connection attempt as it was made: the address dialled, the identity demanded, how many
      redirects had been accepted, and the candidate index. */
  datatype Dial = Dial(address: string, identity: string, epoch: nat, index: nat)

  datatype Run = Run(
    effective: Effective,
    candidate: nat,
    redirects: nat,
    failures: nat,
    cancelled: bool,
    phase: Phase,
    retrying: bool,
    terminal: bool,
    ended: bool,
    // history
    dials: seq<Dial>,
    targets: seq<string>,      // accepted redirect targets
    registrations: nat,        // cycles that registered
    silent: nat)               // cycles that ended without registering and without an error

  function Launched(effective: Effective): Run {
    Run(effective, 0, 0, 0, false, Connecting, false, false, false, [], [], 0, 0)
  }

  /** What a turn of the loop meets: cancellation of the run before the attempt, right after it,
      while its error is classified, or during the delay; and how the connection cycle went. */
  datatype Turn = Turn(cancelledBefore: bool, registered: bool, error: Option<CycleError>, stage: Stage,
                       cancelledAfter: bool, cancelledLate: bool, cancelledInDelay: bool)

  /** The run is over: the deferred bookkeeping. */
  function End(r: Run): Run {
    var phase := if r.cancelled then Stopped else r.phase;
    r.(ended := true, phase := phase, retrying := false, terminal := phase == Failed)
  }

  /** The attempt itself is recorded and made. */
  function Attempt(r: Run): Run {
    var cycle := ForCandidate(r.effective, r.candidate);
    r.(phase := Connecting, retrying := false, terminal := false,
       dials := r.dials + [Dial(cycle.epdg, RemoteIdentifier(cycle), r.redirects, r.candidate)])
  }

  /** The redirect a cycle reported, followed or refused. */
  function FollowRedirect(names: Names, r: Run, error: Option<CycleError>): (Run, Option<CycleError>) {
    if error.None? || error.value.redirect.None? then (r, error)
    else
      var cycle := ForCandidate(r.effective, r.candidate);
      match ForRedirect(names, cycle, error.value.redirect.value, r.redirects)
      case None => (r, Some(REFUSED))
      case Some(redirected) =>
        (r.(effective := redirected, candidate := 0, redirects := r.redirects + 1, targets := r.targets + [redirected.epdg]),
         error)
  }

  /** Budget, failover and publication of a classified result. */
  function Judge(r: Run, turn: Turn, error: Option<CycleError>): (Run, bool) {
    var (failures, retry, _) := ReconnectPolicy(r.failures, turn.registered, error);
    var advance := retry && CanAdvance(turn.stage, error) && r.candidate + 1 < |r.effective.candidates|;
    var r := r.(failures := failures, retrying := retry, terminal := !retry,
                candidate := if advance then r.candidate + 1 else r.candidate,
                registrations := r.registrations + (if turn.registered then 1 else 0),
                silent := r.silent + (if !turn.registered && error.None? then 1 else 0));
    (if error.Some? then r.(phase := Failed) else r, retry)
  }

  function TakeTurn(names: Names, r: Run, turn: Turn): Run
    requires !r.ended
  {
    if r.cancelled || turn.cancelledBefore then End(r.(cancelled := true))
    else
      var attempted := Attempt(r);
      if turn.cancelledAfter then End(attempted.(cancelled := true))
      else
        var (followed, error) := FollowRedirect(names, attempted, turn.error);
        var (judged, retry) := Judge(followed.(cancelled := turn.cancelledLate), turn,
                                     Classify(turn.cancelledLate, error));
        if !retry then End(judged)
        else if turn.cancelledInDelay then End(judged.(cancelled := true))
        else judged
  }

  /** The loop over the turns it is given; it stops by itself when the run ends. */
  function Play(names: Names, r: Run, turns: seq<Turn>): Run
    decreases |turns|
  {
    if turns == [] || r.ended then r else Play(names, TakeTurn(names, r, turns[0]), turns[1..])
  }

  /** A general scheme: what the start has and every turn keeps holds at every point of every run. */
  ghost predicate Kept(names: Names, inv: Run -> bool) {
    forall r, turn :: inv(r) && !r.ended ==> inv(TakeTurn(names, r, turn))
  }

  lemma {:induction false} PlayKeeps(names: Names, inv: Run -> bool, r: Run, turns: seq<Turn>)
    requires Kept(names, inv) && inv(r)
    ensures inv(Play(names, r, turns))
    decreases |turns|
  {
    if turns != [] && !r.ended { PlayKeeps(names, inv, TakeTurn(names, r, turns[0]), turns[1..]); }
  }

  // ---- Budget ----

  /** Attempts made so far, against the cycles that paid for them. */
  predicate WithinBudget(r: Run) {
    && r.redirects <= 3
    && r.redirects == |r.targets|
    && (if r.ended then |r.dials| <= 3 * (r.registrations + r.silent + 1)
        else r.failures <= 2 && |r.dials| <= 3 * (r.registrations + r.silent) + r.failures)
  }

  /** As before, with the latest attempt not yet judged. */
  predicate AttemptDue(r: Run) {
    && r.redirects <= 3
    && r.redirects == |r.targets|
    && !r.ended && r.failures <= 2
    && |r.dials| <= 3 * (r.registrations + r.silent) + r.failures + 1
  }

  lemma AttemptKeepsBudget(r: Run)
    requires WithinBudget(r) && !r.ended
    ensures AttemptDue(Attempt(r))
  {
  }

  lemma RedirectKeepsBudget(names: Names, r: Run, error: Option<CycleError>)
    requires AttemptDue(r)
    ensures AttemptDue(FollowRedirect(names, r, error).0)
  {
  }

  lemma VerdictKeepsBudget(r: Run, turn: Turn, error: Option<CycleError>)
    requires AttemptDue(r)
    ensures var (judged, retry) := Judge(r, turn, error);
            && !judged.ended
            && (if retry then WithinBudget(judged) else WithinBudget(End(judged)))
            && WithinBudget(End(judged.(cancelled := true)))
  {
  }

  lemma TurnKeepsBudget(names: Names, r: Run, turn: Turn)
    requires WithinBudget(r) && !r.ended
    ensures WithinBudget(TakeTurn(names, r, turn))
  {
    hide Attempt, FollowRedirect, Judge;
    AttemptKeepsBudget(r);
    var attempted := Attempt(r);
    RedirectKeepsBudget(names, attempted, turn.error);
    var (followed, error) := FollowRedirect(names, attempted, turn.error);
    VerdictKeepsBudget(followed.(cancelled := turn.cancelledLate), turn, Classify(turn.cancelledLate, error));
  }

  /** However long the run, a run in which R cycles registered and S ended silently makes at most
      3(R+S+1) attempts, and fewer while it is still going; three redirects at most are accepted. */
  lemma AttemptsBounded(names: Names, effective: Effective, turns: seq<Turn>)
    ensures var r := Play(names, Launched(effective), turns);
            && |r.dials| <= 3 * (r.registrations + r.silent + 1)
            && (!r.ended ==> |r.dials| <= 3 * (r.registrations + r.silent) + 2)
            && r.redirects <= 3
            && ((forall i :: 0 <= i < |turns| ==> turns[i].error.Some?) ==> r.silent == 0)
  {
    hide TakeTurn;
    forall r, turn | WithinBudget(r) && !r.ended ensures WithinBudget(TakeTurn(names, r, turn)) {
      TurnKeepsBudget(names, r, turn);
    }
    PlayKeeps(names, WithinBudget, Launched(effective), turns);
    if forall i :: 0 <= i < |turns| ==> turns[i].error.Some? { NoneSilent(names, Launched(effective), turns); }
  }

  /** The cycle function always ends with an error; then no cycle is silent. */
  lemma {:induction false} NoneSilent(names: Names, r: Run, turns: seq<Turn>)
    requires r.silent == 0 && forall i :: 0 <= i < |turns| ==> turns[i].error.Some?
    ensures Play(names, r, turns).silent == 0
    decreases |turns|
  {
    hide ReconnectPolicy, ForRedirect;
    if turns != [] && !r.ended {
      assert turns[0].error.Some?;
      NoneSilent(names, TakeTurn(names, r, turns[0]), turns[1..]);
    }
  }

  /** A run that has ended was stopped if it was cancelled, and otherwise failed for good. */
  predicate EndedProperly(r: Run) {
    r.ended ==>
      && !r.retrying
      && (r.cancelled ==> r.phase == Stopped && !r.terminal)
      && (!r.cancelled ==> r.phase == Failed && r.terminal)
  }

  lemma RunsEndProperly(names: Names, effective: Effective, turns: seq<Turn>)
    ensures EndedProperly(Play(names, Launched(effective), turns))
  {
    forall r, turn | EndedProperly(r) && !r.ended ensures EndedProperly(TakeTurn(names, r, turn)) {}
    PlayKeeps(names, EndedProperly, Launched(effective), turns);
  }

  // ---- Destinations over whole runs ----

  /** The address candidate `index` stands for after `epoch` redirects. */
  function Destination(initial: Effective, targets: seq<string>, epoch: nat, index: nat): Option<string> {
    if epoch > |targets| then None
    else if epoch > 0 then if index == 0 then Some(targets[epoch - 1]) else None
    else if index == 0 then Some(initial.epdg)
    else if index >= |initial.candidates| then None
    else if initial.source == CarrierTemplate then Some(initial.candidates[index])
    else Some(initial.epdg)
  }

  /** From one attempt to the next: the same destination, the next candidate, or a new redirect. */
  predicate Follows(a: Dial, b: Dial) {
    || (b.epoch == a.epoch && (b.index == a.index || b.index == a.index + 1))
    || (b.epoch == a.epoch + 1 && b.index == 0)
  }

  predicate DestinationsKept(initial: Effective, r: Run) {
    && r.redirects == |r.targets|
    && r.effective.source == initial.source
    && Destination(initial, r.targets, r.redirects, r.candidate) == Some(ForCandidate(r.effective, r.candidate).epdg)
    && (r.redirects > 0 ==> r.candidate == 0 && |r.effective.candidates| == 1)
    && (r.redirects == 0 ==> r.effective == initial)
    && (r.candidate == 0 || r.candidate < |r.effective.candidates|)
    && (initial.source == Custom || initial.source == CarrierOverride ==> r.redirects == 0)
    && (forall k :: 0 <= k < |r.dials| ==>
          Destination(initial, r.targets, r.dials[k].epoch, r.dials[k].index) == Some(r.dials[k].address))
    && (forall k :: 0 < k < |r.dials| ==> Follows(r.dials[k - 1], r.dials[k]))
    && (r.dials != [] ==> r.dials[0].epoch == 0 && r.dials[0].index == 0)
    && (r.dials != [] && !r.ended ==> Follows(r.dials[|r.dials| - 1], Dial("", "", r.redirects, r.candidate)))
    && (r.dials == [] ==> r.redirects == 0 && r.candidate == 0)
  }

  lemma DestinationsStable(initial: Effective, targets: seq<string>, target: string, dials: seq<Dial>)
    requires forall k :: 0 <= k < |dials| ==>
               Destination(initial, targets, dials[k].epoch, dials[k].index) == Some(dials[k].address)
    ensures forall k :: 0 <= k < |dials| ==>
              Destination(initial, targets + [target], dials[k].epoch, dials[k].index) == Some(dials[k].address)
  {
  }

  /** The latest dial is the one the current configuration and candidate stand for. */
  predicate JustDialled(r: Run) {
    && r.dials != []
    && var last := r.dials[|r.dials| - 1];
       var cycle := ForCandidate(r.effective, r.candidate);
       last == Dial(cycle.epdg, RemoteIdentifier(cycle), r.redirects, r.candidate)
  }

  lemma AttemptKeepsDestinations(initial: Effective, r: Run)
    requires DestinationsKept(initial, r) && !r.ended
    ensures DestinationsKept(initial, Attempt(r)) && JustDialled(Attempt(r))
  {
    var d := Attempt(r).dials;
    forall k | 0 < k < |d| ensures Follows(d[k - 1], d[k]) {
      if k == |r.dials| { assert d[k - 1] == r.dials[|r.dials| - 1]; }
    }
  }

  lemma RedirectKeepsDestinations(names: Names, initial: Effective, r: Run, error: Option<CycleError>)
    requires DestinationsKept(initial, r) && JustDialled(r) && !r.ended
    ensures var (followed, _) := FollowRedirect(names, r, error);
            && DestinationsKept(initial, followed) && followed.dials == r.dials && !followed.ended
            && (JustDialled(followed) || |followed.effective.candidates| == 1)
  {
    var (followed, _) := FollowRedirect(names, r, error);
    if followed.redirects > r.redirects {
      DestinationsStable(initial, r.targets, followed.effective.epdg, r.dials);
    }
  }

  lemma VerdictKeepsDestinations(initial: Effective, r: Run, turn: Turn, error: Option<CycleError>)
    requires DestinationsKept(initial, r) && r.dials != [] && !r.ended
    requires JustDialled(r) || |r.effective.candidates| == 1
    ensures DestinationsKept(initial, Judge(r, turn, error).0)
  {
  }

  lemma TurnKeepsDestinations(names: Names, initial: Effective, r: Run, turn: Turn)
    requires DestinationsKept(initial, r) && !r.ended
    ensures DestinationsKept(initial, TakeTurn(names, r, turn))
  {
    hide Attempt, FollowRedirect, Judge, DestinationsKept, JustDialled;
    if r.cancelled || turn.cancelledBefore {
      SameHistory(initial, r, End(r.(cancelled := true)));
    } else {
      AttemptKeepsDestinations(initial, r);
      var attempted := Attempt(r);
      RedirectKeepsDestinations(names, initial, attempted, turn.error) by { AttemptGoesOn(r); }
      if turn.cancelledAfter {
        SameHistory(initial, attempted, End(attempted.(cancelled := true)));
      } else {
        var (followed, error) := FollowRedirect(names, attempted, turn.error);
        var late := followed.(cancelled := turn.cancelledLate);
        AttemptGoesOn(r);
        SameHistory(initial, followed, late);
        VerdictKeepsDestinations(initial, late, turn, Classify(turn.cancelledLate, error));
        var (judged, retry) := Judge(late, turn, Classify(turn.cancelledLate, error));
        SameHistory(initial, judged, TakeTurn(names, r, turn));
      }
    }
  }

  lemma AttemptGoesOn(r: Run)
    ensures Attempt(r).dials != [] && Attempt(r).ended == r.ended
  {
  }

  /** Cancelling or ending a run does not touch its configuration or history. */
  lemma SameHistory(initial: Effective, r: Run, r': Run)
    requires DestinationsKept(initial, r)
    requires r'.effective == r.effective && r'.candidate == r.candidate && r'.redirects == r.redirects
    requires r'.dials == r.dials && r'.targets == r.targets && (r.ended ==> r'.ended)
    ensures DestinationsKept(initial, r')
    ensures JustDialled(r') == JustDialled(r)
  {
  }

  /** A turn reported an authenticated redirect to a valid address that, trimmed, is the target. */
  predicate ReportedBy(names: Names, turn: Turn, target: string) {
    && turn.error.Some? && turn.error.value.redirect.Some?
    && var redirect := turn.error.value.redirect.value;
       redirect.authenticated && target == TrimSpace(redirect.address) && ValidRedirectAddress(names, target)
  }

  lemma RedirectReported(names: Names, r: Run, error: Option<CycleError>)
    ensures var targets := FollowRedirect(names, r, error).0.targets;
            targets == r.targets || (&& error.Some? && error.value.redirect.Some? && error.value.redirect.value.authenticated
                                     && ValidRedirectAddress(names, TrimSpace(error.value.redirect.value.address))
                                     && targets == r.targets + [TrimSpace(error.value.redirect.value.address)])
  {
    hide ValidRedirectAddress, TrimSpace;
  }

  lemma TargetReported(names: Names, r: Run, turn: Turn)
    requires !r.ended
    ensures var targets := TakeTurn(names, r, turn).targets;
            targets == r.targets || (|targets| == |r.targets| + 1 && targets[..|r.targets|] == r.targets
                                     && ReportedBy(names, turn, targets[|r.targets|]))
  {
    hide ValidRedirectAddress, ReconnectPolicy, FollowRedirect, TrimSpace;
    RedirectReported(names, Attempt(r), turn.error);
  }

  ghost predicate Reported(names: Names, turns: seq<Turn>, target: string) {
    exists i :: 0 <= i < |turns| && ReportedBy(names, turns[i], target)
  }

  /** Every target a run accepted was reported in one of its turns. */
  lemma {:induction false} TargetsReported(names: Names, r: Run, turns: seq<Turn>)
    ensures var targets := Play(names, r, turns).targets;
            && |r.targets| <= |targets| && targets[..|r.targets|] == r.targets
            && forall k :: |r.targets| <= k < |targets| ==> Reported(names, turns, targets[k])
    decreases |turns|
  {
    hide TakeTurn, ReportedBy;
    if turns != [] && !r.ended {
      var next := TakeTurn(names, r, turns[0]);
      var targets := Play(names, r, turns).targets;
      TargetReported(names, r, turns[0]);
      TargetsReported(names, next, turns[1..]);
      forall k | |r.targets| <= k < |targets| ensures Reported(names, turns, targets[k]) {
        if k < |next.targets| {
          assert targets[k] == next.targets[k];
        } else {
          var i :| 0 <= i < |turns[1..]| && ReportedBy(names, turns[1..][i], targets[k]);
          assert ReportedBy(names, turns[i + 1], targets[k]);
        }
      }
    }
  }

  /** Every address dialled in any run is the resolved ePDG, a listed candidate or the target of
      an accepted redirect; candidates are taken in order, none skipped; a configured address is
      never left; and every target is the valid address of an authenticated redirect reported in
      some turn. */
  lemma OnlyPermittedDestinations(names: Names, initial: Effective, turns: seq<Turn>)
    ensures var r := Play(names, Launched(initial), turns);
            && (forall k :: 0 <= k < |r.dials| ==>
                  Destination(initial, r.targets, r.dials[k].epoch, r.dials[k].index) == Some(r.dials[k].address))
            && (forall k :: 0 < k < |r.dials| ==> Follows(r.dials[k - 1], r.dials[k]))
            && (r.dials != [] ==> r.dials[0].epoch == 0 && r.dials[0].index == 0)
            && (initial.source == Custom || initial.source == CarrierOverride ==>
                  r.targets == [] && forall k :: 0 <= k < |r.dials| ==> r.dials[k].address == initial.epdg)
            && (forall k :: 0 <= k < |r.targets| ==> Reported(names, turns, r.targets[k]))
  {
    TargetsReported(names, Launched(initial), turns);
    var inv := (r: Run) => DestinationsKept(initial, r);
    forall r, turn | inv(r) && !r.ended ensures inv(TakeTurn(names, r, turn)) {
      TurnKeepsDestinations(names, initial, r, turn);
    }
    PlayKeeps(names, inv, Launched(initial), turns);
  }

  // ---- What a turn leads to ----

  /** An error no further attempt is made after: a marked one, or one of the peer's authentication or of
      the destination policy; a cancellation other than the owner's is not one. */
  predicate EndsForGood(error: CycleError) {
    error.marker || (!error.cancellation && (error.peerAuthentication || error.policy))
  }

  /** Which redirects are followed: authenticated ones, three at most, never away from a configured
      address, to a valid address other than the one that redirects. */
  predicate Followed(names: Names, source: Source, epoch: nat, address: string, redirect: Redirect) {
    && redirect.authenticated && epoch < 3 && source != Custom && source != CarrierOverride
    && ValidRedirectAddress(names, TrimSpace(redirect.address))
    && !names.sameFold(TrimSuffix(TrimSpace(redirect.address), '.'), TrimSuffix(address, '.'))
  }

  /** How many candidates are listed after so many redirects. */
  function ListedAfter(initial: Effective, epoch: nat): nat {
    if epoch == 0 then |initial.candidates| else 1
  }

  /** The failure leaves the peer's address in doubt, and another candidate is listed. */
  predicate FailsOver(initial: Effective, dial: Dial, turn: Turn) {
    && turn.error.Some? && !EndsForGood(turn.error.value)
    && turn.stage != LaterStage
    && dial.index + 1 < ListedAfter(initial, dial.epoch)
  }

  /** The next attempt, as the attempt before it and what it met determine it. */
  predicate Leads(names: Names, initial: Effective, a: Dial, turn: Turn, b: Dial) {
    if turn.error.Some? && turn.error.value.redirect.Some? then
      var redirect := turn.error.value.redirect.value;
      && Followed(names, initial.source, a.epoch, a.address, redirect)
      && b.epoch == a.epoch + 1 && b.index == 0 && b.address == TrimSpace(redirect.address)
    else
      && b.epoch == a.epoch
      && b.index == if FailsOver(initial, a, turn) then a.index + 1 else a.index
  }

  /** A turn that goes on: every attempt so far is led to by the turn before it, and the next one
      will be by this. */
  predicate LedTo(names: Names, initial: Effective, r: Run, turns: seq<Turn>) {
    && |r.dials| <= |turns|
    && (!r.ended ==> |r.dials| == |turns|)
    && (forall k :: 0 < k < |r.dials| ==> Leads(names, initial, r.dials[k - 1], turns[k - 1], r.dials[k]))
    && (!r.ended && r.dials != [] && !r.cancelled ==>
          Leads(names, initial, r.dials[|r.dials| - 1], turns[|r.dials| - 1], Upcoming(r)))
  }

  /** The attempt a run would make next. */
  function Upcoming(r: Run): Dial {
    var cycle := ForCandidate(r.effective, r.candidate);
    Dial(cycle.epdg, RemoteIdentifier(cycle), r.redirects, r.candidate)
  }

  lemma PermanentAfterClassify(error: CycleError)
    ensures Permanent(Classify(false, Some(error)).value) <==> EndsForGood(error)
    ensures Permanent(REFUSED)
  {
  }

  /** What becomes of the redirect a cycle reported. */
  lemma RedirectLeads(names: Names, initial: Effective, r: Run, error: Option<CycleError>)
    requires r.effective.source == initial.source
    ensures var (followed, verdict) := FollowRedirect(names, r, error);
            if error.None? || error.value.redirect.None? then followed == r && verdict == error
            else
              var redirect := error.value.redirect.value;
              if !Followed(names, initial.source, r.redirects, ForCandidate(r.effective, r.candidate).epdg, redirect)
              then followed == r && verdict == Some(REFUSED)
              else
                && verdict == error
                && followed.redirects == r.redirects + 1 && followed.candidate == 0
                && followed.effective.epdg == TrimSpace(redirect.address) && |followed.effective.candidates| == 1
                && followed.dials == r.dials && followed.ended == r.ended
  {
    hide ValidRedirectAddress, TrimSpace, TrimSuffix;
  }

  /** What a retry does to the candidate. */
  lemma VerdictLeads(r: Run, turn: Turn, error: Option<CycleError>)
    ensures var (judged, retry) := Judge(r, turn, error);
            && judged.effective == r.effective && judged.redirects == r.redirects && judged.dials == r.dials
            && judged.ended == r.ended && judged.cancelled == r.cancelled
            && (retry ==> (error.None? || !Permanent(error.value))
                          && judged.candidate == (if error.Some? && turn.stage != LaterStage
                                                     && r.candidate + 1 < |r.effective.candidates|
                                                  then r.candidate + 1 else r.candidate))
  {
    hide ReconnectPolicy;
    RetryMeans(r.failures, turn.registered, error);
  }

  /** A turn that neither ends the run nor cancels it leads to the next attempt. */
  lemma TurnLeads(names: Names, initial: Effective, r: Run, turn: Turn)
    requires DestinationsKept(initial, r) && !r.ended
    ensures var next := TakeTurn(names, r, turn);
            && (next.dials == r.dials || next.dials == r.dials + [Upcoming(r)])
            && (next.dials == r.dials ==> next.ended)
            && (!next.ended && !next.cancelled ==> Leads(names, initial, Upcoming(r), turn, Upcoming(next)))
  {
    hide FollowRedirect, Judge, ForRedirect, ValidRedirectAddress, TrimSpace, TrimSuffix, RemoteIdentifier, Followed, Permanent;
    RedirectLeads(names, initial, Attempt(r), turn.error);
    var (followed, verdict) := FollowRedirect(names, Attempt(r), turn.error);
    var late := followed.(cancelled := turn.cancelledLate);
    VerdictLeads(late, turn, Classify(turn.cancelledLate, verdict));
    PermanentAfterClassify(REFUSED);
    if turn.error.Some? { PermanentAfterClassify(turn.error.value); }
  }

  /** A retry is never granted after a permanent error. */
  lemma RetryMeans(failures: nat, registered: bool, error: Option<CycleError>)
    ensures ReconnectPolicy(failures, registered, error).1 ==> error.None? || !Permanent(error.value)
  {
  }

  lemma {:induction false} PlayLeads(names: Names, initial: Effective, turns: seq<Turn>)
    ensures LedTo(names, initial, Play(names, Launched(initial), turns), turns)
    ensures DestinationsKept(initial, Play(names, Launched(initial), turns))
    decreases |turns|
  {
    hide TakeTurn, Leads, DestinationsKept, Upcoming;
    if turns == [] {
      LaunchedKeepsDestinations(initial);
    } else {
      var before, last := turns[..|turns| - 1], turns[|turns| - 1];
      PlayLeads(names, initial, before);
      PlayOneMore(names, Launched(initial), turns);
      var r := Play(names, Launched(initial), before);
      if !r.ended {
        TurnKeepsDestinations(names, initial, r, last);
        TurnLeads(names, initial, r, last);
        GoesOnUncancelled(names, r, last);
      }
    }
  }

  lemma GoesOnUncancelled(names: Names, r: Run, turn: Turn)
    requires !r.ended
    ensures r.cancelled ==> TakeTurn(names, r, turn).dials == r.dials
  {
  }

  lemma LaunchedKeepsDestinations(initial: Effective)
    ensures DestinationsKept(initial, Launched(initial))
  {
  }

  /** A run over some turns is the run over all but the last, and the last. */
  lemma {:induction false} PlayOneMore(names: Names, r: Run, turns: seq<Turn>)
    requires turns != []
    ensures var before := Play(names, r, turns[..|turns| - 1]);
            Play(names, r, turns) == if before.ended then before else TakeTurn(names, before, turns[|turns| - 1])
    decreases |turns|
  {
    hide TakeTurn;
    if !r.ended {
      if |turns| == 1 {
        assert turns[..0] == [] && turns[1..] == [];
        assert Play(names, TakeTurn(names, r, turns[0]), []) == TakeTurn(names, r, turns[0]);
      } else {
        assert turns[..|turns| - 1][1..] == turns[1..][..|turns[1..]| - 1];
        PlayOneMore(names, TakeTurn(names, r, turns[0]), turns[1..]);
      }
    }
  }

  /** In every run each attempt is the one the attempt before it and its turn lead to: a reported
      redirect is followed to its target; otherwise the next candidate is dialled if and only if
      the error leaves the address in doubt and another candidate is listed, and the same
      one again in every other case. */
  lemma NextAttemptDetermined(names: Names, initial: Effective, turns: seq<Turn>, k: nat)
    requires 0 < k < |Play(names, Launched(initial), turns).dials|
    ensures |Play(names, Launched(initial), turns).dials| <= |turns|
    ensures var r := Play(names, Launched(initial), turns);
            Leads(names, initial, r.dials[k - 1], turns[k - 1], r.dials[k])
  {
    PlayLeads(names, initial, turns);
  }

  /** Consecutive failures at the end: cycles that ended with an error and had not registered. */
  function Streak(turns: seq<Turn>): nat {
    if turns == [] then 0
    else
      var last := turns[|turns| - 1];
      if last.registered || last.error.None? then 0 else Streak(turns[..|turns| - 1]) + 1
  }

  lemma {:induction false} FailuresAreStreak(names: Names, initial: Effective, turns: seq<Turn>)
    requires !Play(names, Launched(initial), turns).ended
    ensures Play(names, Launched(initial), turns).failures == Streak(turns)
    decreases |turns|
  {
    hide TakeTurn;
    if turns != [] {
      PlayOneMore(names, Launched(initial), turns);
      FailuresAreStreak(names, initial, turns[..|turns| - 1]);
      FailureCounted(names, Play(names, Launched(initial), turns[..|turns| - 1]), turns[|turns| - 1]);
    }
  }

  lemma FailureCounted(names: Names, r: Run, turn: Turn)
    requires !r.ended && !TakeTurn(names, r, turn).ended
    ensures TakeTurn(names, r, turn).failures == if turn.registered || turn.error.None? then 0 else r.failures + 1
  {
    hide ForRedirect, CanAdvance, RemoteIdentifier;
  }

  predicate Uncancelled(turn: Turn) {
    !turn.cancelledBefore && !turn.cancelledAfter && !turn.cancelledLate && !turn.cancelledInDelay
  }

  /** Why a run ends in a turn that nobody cancels: a redirect that is not followed, an error for good, or
      the third failure in a row. */
  predicate GivesUp(names: Names, initial: Effective, dial: Dial, turns: seq<Turn>, turn: Turn) {
    && turn.error.Some?
    && var error := turn.error.value;
       || (error.redirect.Some? && !Followed(names, initial.source, dial.epoch, dial.address, error.redirect.value))
       || EndsForGood(error)
       || (!turn.registered && Streak(turns) >= 2)
  }

  /** A run that has gone on so far, and is not cancelled, ends in the next turn exactly when it has to. */
  lemma RunGoesOnExactly(names: Names, initial: Effective, turns: seq<Turn>, turn: Turn)
    requires !Play(names, Launched(initial), turns).ended && !Play(names, Launched(initial), turns).cancelled
    requires Uncancelled(turn)
    ensures var r := Play(names, Launched(initial), turns);
            TakeTurn(names, r, turn).ended <==> GivesUp(names, initial, Upcoming(r), turns, turn)
  {
    hide Play, TakeTurn, Streak;
    PlayLeads(names, initial, turns);
    FailuresAreStreak(names, initial, turns);
    TurnEndsExactly(names, initial, Play(names, Launched(initial), turns), turns, turn);
  }

  lemma TurnEndsExactly(names: Names, initial: Effective, r: Run, turns: seq<Turn>, turn: Turn)
    requires DestinationsKept(initial, r) && !r.ended && !r.cancelled && Uncancelled(turn) && r.failures == Streak(turns)
    ensures TakeTurn(names, r, turn).ended <==> GivesUp(names, initial, Upcoming(r), turns, turn)
  {
    hide ValidRedirectAddress, TrimSpace, TrimSuffix, RemoteIdentifier, Streak, CanAdvance;
    if turn.error.Some? { PermanentAfterClassify(turn.error.value); }
  }

  function PowerOfTwo(n: nat): nat {
    if n == 0 then 1 else 2 * PowerOfTwo(n - 1)
  }

  /** The delay before another attempt doubles with every failure in a row, from two seconds; it is two
      seconds after a registered cycle and one after a cycle without an error. */
  lemma DelaysDouble(failures: nat, registered: bool, error: Option<CycleError>)
    ensures var (count, retry, delay) := ReconnectPolicy(failures, registered, error);
            retry ==> delay == if error.None? then 1 else if registered then 2 else PowerOfTwo(count)
  {
    assert PowerOfTwo(1) == 2 && PowerOfTwo(2) == 4;
    var (count, retry, delay) := ReconnectPolicy(failures, registered, error);
    assert retry && error.Some? && !registered ==> count == 1 || count == 2;
  }

  /** The certificate hostname says something, or it is empty and the names that stand in for it
      are not and carry no space around them. */
  predicate Tidy(initial: Effective) {
    || !Blank(initial.hostname)
    || (&& initial.hostname == ""
        && TrimSpace(initial.epdg) == initial.epdg != ""
        && forall c :: c in initial.candidates ==> TrimSpace(c) == c != "")
  }

  /** The identity demanded since the last dial before the first redirect is the one still in force. */
  predicate IdentityKept(r: Run) {
    && Tidy(r.effective)
    && (r.candidate == 0 || r.candidate < |r.effective.candidates|)
    && (r.redirects > 0 ==> |r.effective.candidates| == 1 && r.candidate == 0)
    && (forall k :: 0 <= k < |r.dials| ==> r.dials[k].epoch <= r.redirects)
    && (r.redirects > 0 ==> r.dials != [] && !Blank(r.effective.hostname))
    && (forall k :: 0 < k < |r.dials| && r.dials[k].epoch > 0 ==> r.dials[k].identity == r.dials[k - 1].identity)
    && (r.dials != [] ==> r.dials[0].epoch == 0)
    && (r.dials != [] && r.redirects > 0 && !r.ended ==>
          r.dials[|r.dials| - 1].identity == RemoteIdentifier(ForCandidate(r.effective, r.candidate)))
  }

  lemma AttemptKeepsIdentity(r: Run)
    requires IdentityKept(r) && !r.ended
    ensures IdentityKept(Attempt(r)) && JustDialled(Attempt(r))
  {
    var d := Attempt(r).dials;
    forall k | 0 < k < |d| && d[k].epoch > 0 ensures d[k].identity == d[k - 1].identity {
      if k == |r.dials| { assert d[k - 1] == r.dials[|r.dials| - 1]; }
    }
  }

  lemma FollowingKeepsIdentity(names: Names, r: Run, error: Option<CycleError>)
    requires names.Valid() && !names.numeric("")
    requires IdentityKept(r) && JustDialled(r) && !r.ended
    ensures IdentityKept(FollowRedirect(names, r, error).0)
    ensures JustDialled(FollowRedirect(names, r, error).0) || |FollowRedirect(names, r, error).0.effective.candidates| == 1
  {
    hide ForRedirect;
    if error.Some? && error.value.redirect.Some? {
      var cycle, redirect := ForCandidate(r.effective, r.candidate), error.value.redirect.value;
      assert r.candidate < |r.effective.candidates| ==> r.effective.candidates[r.candidate] in r.effective.candidates;
      assert Tidy(cycle);
      if ForRedirect(names, cycle, redirect, r.redirects).Some? {
        TidyRedirect(names, cycle, redirect, r.redirects);
      }
    }
  }

  lemma TidyRedirect(names: Names, cycle: Effective, redirect: Redirect, count: nat)
    requires names.Valid() && !names.numeric("")
    requires Tidy(cycle) && ForRedirect(names, cycle, redirect, count).Some?
    ensures var redirected := ForRedirect(names, cycle, redirect, count).value;
            && Tidy(redirected) && |redirected.candidates| == 1 && !Blank(redirected.hostname)
            && RemoteIdentifier(redirected) == RemoteIdentifier(cycle)
            && ForCandidate(redirected, 0) == redirected
  {
    RedirectKeepsIdentity(names, cycle, redirect, count);
    TrimSpaceIsTrimmed(redirect.address);
    assert TrimSpace(redirect.address) != "";
  }

  lemma VerdictKeepsIdentity(r: Run, turn: Turn, error: Option<CycleError>)
    requires IdentityKept(r) && !r.ended
    requires JustDialled(r) || |r.effective.candidates| == 1
    ensures IdentityKept(Judge(r, turn, error).0)
  {
  }

  lemma SameIdentityHistory(r: Run, r': Run)
    requires IdentityKept(r)
    requires r'.effective == r.effective && r'.candidate == r.candidate && r'.redirects == r.redirects
    requires r'.dials == r.dials && (r.ended ==> r'.ended)
    ensures IdentityKept(r')
    ensures JustDialled(r') == JustDialled(r)
  {
  }

  lemma TurnKeepsIdentity(names: Names, r: Run, turn: Turn)
    requires names.Valid() && !names.numeric("")
    requires IdentityKept(r) && !r.ended
    ensures IdentityKept(TakeTurn(names, r, turn))
  {
    hide Attempt, FollowRedirect, Judge, IdentityKept, JustDialled;
    if r.cancelled || turn.cancelledBefore {
      SameIdentityHistory(r, End(r.(cancelled := true)));
    } else {
      AttemptKeepsIdentity(r);
      AttemptGoesOn(r);
      var attempted := Attempt(r);
      if turn.cancelledAfter {
        SameIdentityHistory(attempted, End(attempted.(cancelled := true)));
      } else {
        FollowingKeepsIdentity(names, attempted, turn.error);
        var (followed, error) := FollowRedirect(names, attempted, turn.error);
        FollowingGoesOn(names, attempted, turn.error);
        var late := followed.(cancelled := turn.cancelledLate);
        SameIdentityHistory(followed, late);
        VerdictKeepsIdentity(late, turn, Classify(turn.cancelledLate, error));
        var (judged, retry) := Judge(late, turn, Classify(turn.cancelledLate, error));
        SameIdentityHistory(judged, TakeTurn(names, r, turn));
      }
    }
  }

  lemma FollowingGoesOn(names: Names, r: Run, error: Option<CycleError>)
    ensures FollowRedirect(names, r, error).0.ended == r.ended
  {
  }

  /** Each attempt after a redirect demands the identity of the attempt before it. */
  ghost predicate SameIdentity(r: Run) {
    forall k :: 0 < k < |r.dials| && r.dials[k].epoch > 0 ==> r.dials[k].identity == r.dials[k - 1].identity
  }

  /** Where an address was configured no redirect is followed; from anywhere else the names must be tidy. */
  predicate Settled(initial: Effective) {
    initial.source == Custom || initial.source == CarrierOverride || Tidy(initial)
  }

  /** Routing hints never change who the peer has to be, in any run from a settled start. */
  lemma RedirectsKeepIdentity(names: Names, initial: Effective, turns: seq<Turn>)
    requires names.Valid() && !names.numeric("") && Settled(initial)
    ensures SameIdentity(Play(names, Launched(initial), turns))
  {
    if Tidy(initial) {
      forall r, turn | IdentityKept(r) && !r.ended ensures IdentityKept(TakeTurn(names, r, turn)) {
        TurnKeepsIdentity(names, r, turn);
      }
      PlayKeeps(names, IdentityKept, Launched(initial), turns);
    } else {
      NoRedirectFromConfigured(names, initial, turns);
    }
  }

  lemma NoRedirectFromConfigured(names: Names, initial: Effective, turns: seq<Turn>)
    requires initial.source == Custom || initial.source == CarrierOverride
    ensures SameIdentity(Play(names, Launched(initial), turns))
  {
    var r := Play(names, Launched(initial), turns);
    OnlyPermittedDestinations(names, initial, turns);
    forall k | 0 <= k < |r.dials| ensures r.dials[k].epoch == 0 {
      assert Destination(initial, r.targets, r.dials[k].epoch, r.dials[k].index).Some?;
    }
  }

  // ---- The loop in the program's form ----

  /** The variables of the serving goroutine and the engine fields it publishes. */
  class Session {
    var effective: Effective
    var candidateIndex: nat
    var redirects: nat
    var failures: nat
    var cancelled: bool
    var phase: Phase
    var retrying: bool
    var terminal: bool
    var ended: bool
    ghost var dials: seq<Dial>
    ghost var targets: seq<string>
    ghost var registrations: nat
    ghost var silent: nat

    ghost function View(): Run
      reads this
    {
      Run(effective, candidateIndex, redirects, failures, cancelled, phase, retrying, terminal, ended, dials, targets,
          registrations, silent)
    }

    constructor (effective: Effective)
      ensures View() == Launched(effective)
    {
      this.effective := effective;
      candidateIndex, redirects, failures := 0, 0, 0;
      cancelled, phase, retrying, terminal, ended := false, Connecting, false, false, false;
      dials, targets, registrations, silent := [], [], 0, 0;
    }

    /** The deferred bookkeeping when serving ends. */
    method Finish()
      modifies this
      ensures View() == End(old(View()))
    {
      if cancelled {
        phase := Stopped;
      }
      retrying := false;
      terminal := phase == Failed;
      ended := true;
    }

    method BeginConnectionAttempt()
      modifies this
      ensures View() == Attempt(old(View()))
    {
      var cycle := ForCandidate(effective, candidateIndex);
      dials := dials + [Dial(cycle.epdg, RemoteIdentifier(cycle), redirects, candidateIndex)];
      phase := Connecting;
      retrying, terminal := false, false;
    }

    method HandleRedirect(names: Names, error: Option<CycleError>) returns (verdict: Option<CycleError>)
      modifies this
      ensures (View(), verdict) == FollowRedirect(names, old(View()), error)
    {
      verdict := error;
      if error.Some? && error.value.redirect.Some? {
        var cycle := ForCandidate(effective, candidateIndex);
        var redirected := ForRedirect(names, cycle, error.value.redirect.value, redirects);
        if redirected.None? {
          verdict := Some(REFUSED);
        } else {
          effective, candidateIndex := redirected.value, 0;
          redirects := redirects + 1;
          targets := targets + [effective.epdg];
        }
      }
    }

    method ApplyPolicy(turn: Turn, error: Option<CycleError>) returns (retry: bool)
      modifies this
      ensures (View(), retry) == Judge(old(View()), turn, error)
    {
      var (nextFailures, again, _) := ReconnectPolicy(failures, turn.registered, error);
      retry := again;
      failures := nextFailures;
      retrying, terminal := retry, !retry;
      if retry && CanAdvance(turn.stage, error) && candidateIndex + 1 < |effective.candidates| {
        candidateIndex := candidateIndex + 1;
      }
      if turn.registered {
        registrations := registrations + 1;
      } else if error.None? {
        silent := silent + 1;
      }
      if error.Some? {
        phase := Failed;
      }
    }

    method OneTurn(names: Names, turn: Turn)
      requires !ended
      modifies this
      ensures View() == TakeTurn(names, old(View()), turn)
    {
      if turn.cancelledBefore {
        cancelled := true;
      }
      if cancelled {
        Finish();
        return;
      }
      BeginConnectionAttempt();
      if turn.cancelledAfter {
        cancelled := true;
        Finish();
        return;
      }
      var error := HandleRedirect(names, turn.error);
      cancelled := turn.cancelledLate;
      var retry := ApplyPolicy(turn, Classify(cancelled, error));
      if !retry {
        Finish();
        return;
      }
      if turn.cancelledInDelay {
        cancelled := true;
        Finish();
      }
    }

    method Serve(names: Names, turns: seq<Turn>)
      modifies this
      ensures View() == Play(names, old(View()), turns)
    {
      var i := 0;
      assert turns[0..] == turns;
      while i < |turns| && !ended
        invariant 0 <= i <= |turns|
        invariant Play(names, View(), turns[i..]) == Play(names, old(View()), turns)
      {
        assert turns[i..][1..] == turns[i + 1..];
        OneTurn(names, turns[i]);
        i := i + 1;
      }
    }
  }
}
