/** Where the addresses and the certificate hostname of a run come from: a carrier bundle, the
    built-in template or the standard name, and the addresses a user or an override configures. */
module EpdgResolution {
  import opened Wrappers
  import opened Text
  import opened ReconnectLoop

  /** The naming part of a carrier bundle. */
  datatype Bundle = Bundle(address: string, candidates: seq<string>, epdgHostname: string, ikeHostname: string)

  datatype Profile = Profile(candidates: seq<string>, hostname: string)

  // ---- Profiles ----

  /** The trimmed, non-empty, not yet listed candidates, in order. */
  function Listed(found: seq<string>, candidates: seq<string>): seq<string>
    decreases |candidates|
  {
    if candidates == [] then found
    else
      var address := TrimSpace(candidates[0]);
      Listed(if address == "" || address in found then found else found + [address], candidates[1..])
  }

  function Expanded(b: Bundle): Profile {
    var address, hostname := TrimSpace(b.address), TrimSpace(b.epdgHostname);
    var found := Listed(if address == "" then [] else [address], b.candidates);
    Profile(if found == [] && hostname != "" then [hostname] else found,
            if TrimSpace(b.ikeHostname) == "" then hostname else TrimSpace(b.ikeHostname))
  }

  method ExpandBundle(b: Bundle) returns (p: Profile)
    ensures p == Expanded(b)
  {
    var candidates: seq<string> := [];
    var first := TrimSpace(b.address);
    if first != "" {
      candidates := [first];
    }
    ghost var start := candidates;
    assert b.candidates[0..] == b.candidates;
    for i := 0 to |b.candidates|
      invariant Listed(candidates, b.candidates[i..]) == Listed(start, b.candidates)
    {
      assert b.candidates[i..][1..] == b.candidates[i + 1..];
      var address := TrimSpace(b.candidates[i]);
      if address != "" && address !in candidates {
        candidates := candidates + [address];
      }
    }
    var hostname := TrimSpace(b.epdgHostname);
    if |candidates| == 0 && hostname != "" {
      candidates := [hostname];
    }
    var ikeHostname := TrimSpace(b.ikeHostname);
    if ikeHostname != "" {
      hostname := ikeHostname;
    }
    return Profile(candidates, hostname);
  }

  /** A profile for a network no bundle is known for. */
  const STANDARD := Profile([], "")

  /** The built-in template replaces the candidates of an expanded bundle by its one address. */
  function WithTemplate(p: Profile, address: string): Profile {
    p.(candidates := [address])
  }

  predicate Trimmed(name: string) { TrimSpace(name) == name != "" }

  /** What every resolved profile has: trimmed names, and a hostname that is trimmed or empty. */
  predicate Clean(p: Profile) {
    (p.hostname == "" || Trimmed(p.hostname)) && forall c :: c in p.candidates ==> Trimmed(c)
  }

  lemma {:induction false} ListedTrimmed(found: seq<string>, candidates: seq<string>)
    requires forall c :: c in found ==> Trimmed(c)
    ensures forall c :: c in Listed(found, candidates) ==> Trimmed(c)
    decreases |candidates|
  {
    if candidates != [] {
      var address := TrimSpace(candidates[0]);
      TrimSpaceIsTrimmed(candidates[0]);
      ListedTrimmed(if address == "" || address in found then found else found + [address], candidates[1..]);
    }
  }

  /** Whatever a bundle says, its profile is clean. */
  lemma ExpandedIsClean(b: Bundle)
    ensures Clean(Expanded(b))
  {
    TrimSpaceIsTrimmed(b.address);
    TrimSpaceIsTrimmed(b.epdgHostname);
    TrimSpaceIsTrimmed(b.ikeHostname);
    var address := TrimSpace(b.address);
    ListedTrimmed(if address == "" then [] else [address], b.candidates);
  }

  /** So are the profiles made without a bundle, or from one by the template with its trimmed address. */
  lemma OtherProfilesAreClean(p: Profile, address: string)
    requires Clean(p) && Trimmed(address)
    ensures Clean(STANDARD) && Clean(WithTemplate(p, address))
  {
    assert forall c :: c in WithTemplate(p, address).candidates ==> c == address;
  }

  predicate Unique(names: seq<string>) {
    forall i, j :: 0 <= i < j < |names| ==> names[i] != names[j]
  }

  lemma {:induction false} ListedKeeps(found: seq<string>, candidates: seq<string>)
    requires Unique(found)
    ensures Unique(Listed(found, candidates)) && found <= Listed(found, candidates)
    ensures forall i :: 0 <= i < |candidates| && TrimSpace(candidates[i]) != "" ==>
              TrimSpace(candidates[i]) in Listed(found, candidates)
    ensures forall c :: c in Listed(found, candidates) ==>
              c in found || exists i :: 0 <= i < |candidates| && TrimSpace(candidates[i]) == c
    decreases |candidates|
  {
    hide TrimSpace;
    if candidates != [] {
      var address := TrimSpace(candidates[0]);
      var more := if address == "" || address in found then found else found + [address];
      ListedKeeps(more, candidates[1..]);
      var result := Listed(more, candidates[1..]);
      forall i | 0 <= i < |candidates| && TrimSpace(candidates[i]) != "" ensures TrimSpace(candidates[i]) in result {
        if i == 0 {
          assert address in more;
          assert result[..|more|] == more;
        } else {
          assert candidates[i] == candidates[1..][i - 1];
        }
      }
      forall c | c in result && c !in found ensures exists i :: 0 <= i < |candidates| && TrimSpace(candidates[i]) == c {
        if c !in more {
          var i :| 0 <= i < |candidates[1..]| && TrimSpace(candidates[1..][i]) == c;
          assert TrimSpace(candidates[i + 1]) == c;
        }
      }
    }
  }

  /** A bundle's address comes first, and its candidates are exactly the address and the stated ones,
      trimmed, blanks left out, each once; with none the certificate hostname stands in. */
  lemma BundleNamesKept(b: Bundle, c: string)
    ensures Unique(Expanded(b).candidates)
    ensures !Blank(b.address) ==> Expanded(b).candidates != [] && Expanded(b).candidates[0] == TrimSpace(b.address)
    ensures (exists i :: 0 <= i < |b.candidates| && TrimSpace(b.candidates[i]) == c) && c != "" ==> c in Expanded(b).candidates
    ensures c in Expanded(b).candidates ==>
              || (c == TrimSpace(b.address) && c != "")
              || (exists i :: 0 <= i < |b.candidates| && TrimSpace(b.candidates[i]) == c)
              || Expanded(b).candidates == [TrimSpace(b.epdgHostname)]
    ensures Expanded(b).hostname == if Blank(b.ikeHostname) then TrimSpace(b.epdgHostname) else TrimSpace(b.ikeHostname)
  {
    hide TrimSpace;
    ListedKeeps(if TrimSpace(b.address) == "" then [] else [TrimSpace(b.address)], b.candidates);
  }

  // ---- The effective configuration ----

  predicate Bracketed(name: string) {
    |name| >= 2 && name[0] == '[' && name[|name| - 1] == ']'
  }

  /** Trimmed, and without the brackets of a literal address; what they enclose is not trimmed again. */
  function TrimAddressBrackets(value: string): string {
    var name := TrimSpace(value);
    if Bracketed(name) then name[1..|name| - 1] else name
  }

  datatype Refused = EmptyAddress

  /** The configuration a run starts from; standardName is the name derived from the network. */
  function Resolve(p: Profile, standardName: string, requested: string, overriding: Option<string>)
    : Result<Effective, Refused>
  {
    var (epdg, source) :=
      if !Blank(requested) then (TrimAddressBrackets(requested), Custom)
      else if overriding.Some? && !Blank(overriding.value) then (TrimAddressBrackets(overriding.value), CarrierOverride)
      else if p.candidates != [] && !Blank(p.candidates[0]) then (TrimAddressBrackets(p.candidates[0]), CarrierTemplate)
      else (TrimAddressBrackets(standardName), OtherSource);
    if epdg == "" then Failure(EmptyAddress)
    else Success(Effective(epdg, source, if source == CarrierTemplate then p.candidates else [epdg], p.hostname))
  }

  /** A requested address goes before everything, an overriding one before the profile, and either is the
      only destination; a profile with candidates offers them all, in order. */
  lemma AddressPriority(p: Profile, standardName: string, requested: string, overriding: Option<string>)
    requires Resolve(p, standardName, requested, overriding).Success?
    ensures var e := Resolve(p, standardName, requested, overriding).value;
            && (e.source == Custom <==> !Blank(requested))
            && (e.source == CarrierOverride <==> Blank(requested) && overriding.Some? && !Blank(overriding.value))
            && (e.source == Custom && !Bracketed(TrimSpace(requested)) ==> e.epdg == TrimSpace(requested))
            && (e.source == CarrierOverride && !Bracketed(TrimSpace(overriding.value)) ==> e.epdg == TrimSpace(overriding.value))
            && (e.source == CarrierTemplate ==> e.candidates == p.candidates
                                                && (!Bracketed(TrimSpace(p.candidates[0])) ==> e.epdg == TrimSpace(p.candidates[0])))
            && (e.source != CarrierTemplate ==> e.candidates == [e.epdg])
            && e.hostname == p.hostname
  {
    hide TrimSpace;
  }

  /** The resolved address has no space around it: brackets enclose none. */
  predicate PlainAddress(e: Effective) {
    TrimSpace(e.epdg) == e.epdg
  }

  /** The start of every run from a clean profile is settled exactly when its address was configured,
      the certificate hostname is not empty, or the address is plain. */
  lemma ResolvedIsSettled(p: Profile, standardName: string, requested: string, overriding: Option<string>)
    requires Clean(p) && Resolve(p, standardName, requested, overriding).Success?
    ensures var e := Resolve(p, standardName, requested, overriding).value;
            Settled(e) <==> e.source == Custom || e.source == CarrierOverride || e.hostname != "" || PlainAddress(e)
  {
    hide TrimSpace;
    NothingIsBlank();
  }

  lemma NothingIsBlank()
    ensures TrimSpace("") == ""
  {
  }

  /** In particular every address without brackets is plain. */
  lemma UnbracketedIsPlain(p: Profile, standardName: string, requested: string, overriding: Option<string>)
    requires Clean(p) && Resolve(p, standardName, requested, overriding).Success?
    requires p.candidates != [] ==> !Bracketed(p.candidates[0])
    requires !Bracketed(TrimSpace(standardName))
    ensures Settled(Resolve(p, standardName, requested, overriding).value)
  {
    hide TrimSpace;
    NothingIsBlank();
    TrimSpaceIsTrimmed(standardName);
    ResolvedIsSettled(p, standardName, requested, overriding);
    if p.candidates != [] { assert p.candidates[0] in p.candidates; }
  }

  /** No run from a clean profile lets a redirect change the identity demanded of the peer, whatever
      names it holds and whoever configures the address, unless brackets enclose space in the
      first candidate and no certificate hostname is given. */
  lemma ResolvedRunsKeepIdentity(names: Names, p: Profile, standardName: string, requested: string,
                                 overriding: Option<string>, turns: seq<Turn>)
    requires names.Valid() && !names.numeric("")
    requires Clean(p) && Resolve(p, standardName, requested, overriding).Success?
    requires var e := Resolve(p, standardName, requested, overriding).value;
             e.source == Custom || e.source == CarrierOverride || e.hostname != "" || PlainAddress(e)
    ensures SameIdentity(Play(names, Launched(Resolve(p, standardName, requested, overriding).value), turns))
  {
    hide Play;
    ResolvedIsSettled(p, standardName, requested, overriding);
    RedirectsKeepIdentity(names, Resolve(p, standardName, requested, overriding).value, turns);
  }

  /** The family of that one case: a bracketed first candidate with space inside at an end. */
  lemma SpaceInBrackets(name: string, standardName: string)
    requires name != "" && (IsSpace(name[0]) || IsSpace(name[|name| - 1]))
    ensures var p := Profile(["[" + name + "]"], "");
            && Clean(p)
            && Resolve(p, standardName, "", None) == Success(Effective(name, CarrierTemplate, p.candidates, ""))
            && !PlainAddress(Resolve(p, standardName, "", None).value)
  {
    hide TrimSpace;
    var bracketed := "[" + name + "]";
    TrimSpaceKeeps(bracketed);
    TrimSpaceKeeps(name);
    NothingIsBlank();
    assert bracketed[1..|bracketed| - 1] == name;
  }

  /** The report of a first cycle that failed with an authenticated redirect. */
  function Redirected(address: string): Turn {
    Turn(false, false, Some(CycleError(false, false, false, false, Some(Redirect(address, true)))), Transport, false, false, false)
  }

  /** An attempt that meets a redirect, and one more. */
  function TwoAttempts(address: string): seq<Turn> {
    [Redirected(address), Redirected("")]
  }

  /** And in that one case the identity does change: the first accepted redirect already moves it. */
  lemma UnsettledIdentityMoves(names: Names, e: Effective, address: string)
    requires names.Valid() && !names.numeric("")
    requires e.hostname == "" && e.epdg != "" && !PlainAddress(e)
    requires ForRedirect(names, ForCandidate(e, 0), Redirect(address, true), 0).Some?
    ensures !SameIdentity(Play(names, Launched(e), TwoAttempts(address)))
  {
    hide ValidRedirectAddress, TrimSpace, TakeTurn, RemoteIdentifier, ForRedirect;
    NothingIsBlank();
    var first := TakeTurn(names, Launched(e), Redirected(address));
    RedirectKeepsIdentity(names, e, Redirect(address, true), 0);
    FirstTurn(names, e, address);
    var second := TakeTurn(names, first, Redirected(""));
    SecondTurn(names, first, "");
    assert TwoAttempts(address)[1..] == [Redirected("")] && [Redirected("")][1..] == [];
    assert Play(names, first, [Redirected("")]) == Play(names, second, []);
    var r := Play(names, Launched(e), TwoAttempts(address));
    assert r == second;
    assert r.dials[1].epoch == 1 && r.dials[1].identity != r.dials[0].identity;
  }

  lemma FirstTurn(names: Names, e: Effective, address: string)
    requires ForRedirect(names, ForCandidate(e, 0), Redirect(address, true), 0).Some?
    ensures var r := TakeTurn(names, Launched(e), Redirected(address));
            && !r.ended && !r.cancelled && r.candidate == 0 && r.redirects == 1
            && r.dials == [Dial(e.epdg, RemoteIdentifier(e), 0, 0)]
            && r.effective == ForRedirect(names, e, Redirect(address, true), 0).value
  {
    hide ValidRedirectAddress, TrimSpace, TrimSuffix, RemoteIdentifier;
  }

  lemma SecondTurn(names: Names, r: Run, address: string)
    requires !r.ended && !r.cancelled && r.candidate == 0
    ensures var next := TakeTurn(names, r, Redirected(address));
            next.dials == r.dials + [Dial(r.effective.epdg, RemoteIdentifier(r.effective), r.redirects, 0)]
  {
    hide ForRedirect;
  }
}
