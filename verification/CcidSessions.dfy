/** The iOS smart-card reader plugin: a reader's card, its retained session, and the one
    asynchronous operation that may be under way on it.

    Method calls arrive on the main queue; a card's replies come from the platform and
    are handled in blocks queued on the main queue.  Calls, replies and blocks
    interleave freely.  `Next` says what each of them does to the plugin's three
    collections and to the platform's sessions; the class has the program's form. */
module CcidSessions {
  type Reader = string
  type Card = nat     // an object identity: every card made is new
  type Call = nat     // a pending result callback

  /** What a begun session is for. */
  datatype Purpose = Retain | OneShot

  /** An operation whose block has not run yet. */
  datatype Operation =
    | Beginning(reader: Reader, card: Card, purpose: Purpose)
    | Begun(reader: Reader, card: Card, purpose: Purpose, success: bool)   // the platform has replied
    | Transmitting(reader: Reader, card: Card, purpose: Purpose)           // in a retained or a one-shot session

  datatype State = State(
    cards: map<Reader, Card>,
    retained: set<Reader>,
    busy: set<Reader>,
    pending: map<Call, Operation>,
    // the platform and history
    open: set<Card>,           // cards whose session is open
    made: Card,                // cards made so far
    calls: Call,               // calls received so far
    answered: set<Call>,
    owner: map<Reader, Call>,  // the call that made a reader busy
    home: map<Card, Reader>,   // the reader a card was made for
    fault: bool)               // a session ended or begun out of turn, a transmission outside one, a second answer

  datatype Event =
    | Connect(reader: Reader, slot: bool, present: bool)
    | BeginSession(reader: Reader, valid: bool)
    | EndSession(reader: Reader)
    | Transceive(reader: Reader, valid: bool)
    | Disconnect(reader: Reader)
    | Malformed
    | Reply(call: Call, success: bool)
    | BeginBlock(call: Call)
    | TransmitBlock(call: Call)

  predicate Enabled(s: State, e: Event) {
    match e
    case Reply(call, _) => call in s.pending && s.pending[call].Beginning?
    case BeginBlock(call) => call in s.pending && s.pending[call].Begun?
    case TransmitBlock(call) => call in s.pending && s.pending[call].Transmitting?
    case _ => true
  }

  // ---- What the platform and Flutter observe ----

  function Answer(s: State, call: Call): State {
    s.(answered := s.answered + {call}, fault := s.fault || call in s.answered)
  }

  function EndCard(s: State, card: Card): State {
    s.(open := s.open - {card}, fault := s.fault || card !in s.open)
  }

  function OpenCard(s: State, card: Card): State {
    s.(open := s.open + {card}, fault := s.fault || card in s.open)
  }

  function Transmit(s: State, call: Call, reader: Reader, card: Card, purpose: Purpose): State {
    s.(busy := s.busy + {reader}, owner := s.owner[reader := call],
       pending := s.pending[call := Transmitting(reader, card, purpose)], fault := s.fault || card !in s.open)
  }

  function BeginCard(s: State, call: Call, reader: Reader, card: Card, purpose: Purpose): State {
    s.(busy := s.busy + {reader}, owner := s.owner[reader := call],
       pending := s.pending[call := Beginning(reader, card, purpose)])
  }

  // ---- Method calls; each takes the next call number ----

  function AfterConnect(s: State, reader: Reader, slot: bool, present: bool): State {
    var call, s := s.calls, s.(calls := s.calls + 1);
    if reader in s.cards || reader in s.busy || !slot || !present then Answer(s, call)
    else Answer(s.(cards := s.cards[reader := s.made], home := s.home[s.made := reader], made := s.made + 1), call)
  }

  function AfterBeginSession(s: State, reader: Reader, valid: bool): State {
    var call, s := s.calls, s.(calls := s.calls + 1);
    if reader !in s.cards || !valid || reader in s.busy || reader in s.retained then Answer(s, call)
    else BeginCard(s, call, reader, s.cards[reader], Retain)
  }

  /** Gives up the retained session, at once unless an operation is still using it. */
  function Release(s: State, reader: Reader): State {
    var released := s.(retained := s.retained - {reader});
    if reader in s.retained && reader !in s.busy && reader in s.cards then EndCard(released, s.cards[reader]) else released
  }

  function AfterEndSession(s: State, reader: Reader): State {
    Answer(Release(s.(calls := s.calls + 1), reader), s.calls)
  }

  function AfterDisconnect(s: State, reader: Reader): State {
    var released := Release(s.(calls := s.calls + 1), reader);
    Answer(released.(cards := released.cards - {reader}), s.calls)
  }

  function AfterTransceive(s: State, reader: Reader, valid: bool): State {
    var call, s := s.calls, s.(calls := s.calls + 1);
    if reader in s.busy || reader !in s.cards then Answer(s, call)
    else
      var card := s.cards[reader];
      if !valid then
        var s' := if reader in s.retained then EndCard(s.(retained := s.retained - {reader}), card) else s;
        Answer(s'.(cards := s'.cards - {reader}), call)
      else if reader in s.retained then Transmit(s, call, reader, card, Retain)
      else BeginCard(s, call, reader, card, OneShot)
  }

  function AfterMalformed(s: State): State {
    Answer(s.(calls := s.calls + 1), s.calls)
  }

  // ---- Replies and blocks ----

  function AfterReply(s: State, call: Call, success: bool): State
    requires Enabled(s, Reply(call, success))
  {
    var op := s.pending[call];
    var s := s.(pending := s.pending[call := Begun(op.reader, op.card, op.purpose, success)]);
    if success then OpenCard(s, op.card) else s
  }

  /** The reader is no longer busy with the call. */
  function Idle(s: State, call: Call, reader: Reader): State {
    s.(busy := s.busy - {reader}, owner := s.owner - {reader}, pending := s.pending - {call})
  }

  /** The card is still the reader's. */
  predicate Current(s: State, reader: Reader, card: Card) {
    reader in s.cards && s.cards[reader] == card
  }

  function AfterBeginBlock(s: State, call: Call): State
    requires Enabled(s, BeginBlock(call))
  {
    var op := s.pending[call];
    var done := Idle(s, call, op.reader);
    if !op.success then Answer(done, call)
    else if !Current(s, op.reader, op.card) then Answer(EndCard(done, op.card), call)
    else if op.purpose == Retain then Answer(done.(retained := done.retained + {op.reader}), call)
    else Transmit(s, call, op.reader, op.card, OneShot)
  }

  function AfterTransmitBlock(s: State, call: Call): State
    requires Enabled(s, TransmitBlock(call))
  {
    var op := s.pending[call];
    var done := Idle(s, call, op.reader);
    var ended := if op.purpose == OneShot || op.reader !in s.retained then EndCard(done, op.card) else done;
    Answer(ended, call)
  }

  function Next(s: State, e: Event): State
    requires Enabled(s, e)
  {
    match e
    case Connect(reader, slot, present) => AfterConnect(s, reader, slot, present)
    case BeginSession(reader, valid) => AfterBeginSession(s, reader, valid)
    case EndSession(reader) => AfterEndSession(s, reader)
    case Transceive(reader, valid) => AfterTransceive(s, reader, valid)
    case Disconnect(reader) => AfterDisconnect(s, reader)
    case Malformed => AfterMalformed(s)
    case Reply(call, success) => AfterReply(s, call, success)
    case BeginBlock(call) => AfterBeginBlock(s, call)
    case TransmitBlock(call) => AfterTransmitBlock(s, call)
  }

  const START := State(map[], {}, {}, map[], {}, 0, 0, {}, map[], map[], false)

  // ---- The invariant ----

  /** An operation that has the card's session open. */
  predicate Holds(op: Operation, card: Card) {
    op.card == card && (op.Transmitting? || (op.Begun? && op.success))
  }

  /** The card's session is in use: its reader is retained, or the operation on its reader holds it. */
  predicate InUse(s: State, card: Card) {
    card in s.home &&
    var reader := s.home[card];
    || (reader in s.retained && Current(s, reader, card))
    || (reader in s.owner && s.owner[reader] in s.pending && Holds(s.pending[s.owner[reader]], card))
  }

  /** A reader is busy exactly while an operation is pending on it, and then only one is. */
  predicate OneOperationPerReader(s: State) {
    && s.busy == s.owner.Keys
    && (forall r :: r in s.owner ==> s.owner[r] in s.pending && s.pending[s.owner[r]].reader == r)
    && (forall c :: c in s.pending ==> s.pending[c].reader in s.owner && s.owner[s.pending[c].reader] == c)
  }

  /** Cards are made for one reader each, and a reader that still has a card while an operation
      is pending on it has the operation's card. */
  predicate CardsDistinct(s: State) {
    && (forall card: Card :: card in s.home ==> card < s.made)
    && (forall r :: r in s.cards ==> s.cards[r] in s.home && s.home[s.cards[r]] == r)
    && (forall c :: c in s.pending ==> s.pending[c].card in s.home && s.home[s.pending[c].card] == s.pending[c].reader)
    && (forall c :: c in s.pending && s.pending[c].reader in s.cards ==> s.cards[s.pending[c].reader] == s.pending[c].card)
  }

  /** A retained reader has its card, and no operation on it but a transmission in the session. */
  predicate RetainedConsistent(s: State) {
    && (forall r :: r in s.retained ==> r in s.cards)
    && (forall c :: c in s.pending && s.pending[c].reader in s.retained ==>
          s.pending[c].Transmitting? && s.pending[c].purpose == Retain)
  }

  /** Every call received is answered, pending, or (within a step) the loose one in hand. */
  predicate AnswersBalanced(s: State, loose: set<Call>) {
    && (forall c :: c in s.answered ==> c < s.calls && c !in s.pending && c !in loose)
    && (forall c :: c in s.pending ==> c < s.calls && c !in loose)
    && (forall c :: c in loose ==> c < s.calls)
    && (forall c: Call :: c < s.calls ==> c in s.answered || c in s.pending || c in loose)
  }

  predicate SessionsBalanced(s: State) {
    && (forall card :: card in s.open ==> card in s.home)
    && (forall card :: card in s.home ==> (card in s.open <==> InUse(s, card)))
  }

  /** How the collections fit together, apart from the sessions. */
  predicate Shaped(s: State, loose: set<Call>) {
    OneOperationPerReader(s) && CardsDistinct(s) && RetainedConsistent(s) && AnswersBalanced(s, loose)
  }

  predicate Inv(s: State) {
    !s.fault && Shaped(s, {}) && SessionsBalanced(s)
  }

  lemma StartInv()
    ensures Inv(START)
  {
  }

  // ---- How each piece of a step treats the shape ----

  function Received(s: State): State { s.(calls := s.calls + 1) }

  lemma ReceivedShape(s: State)
    requires Shaped(s, {})
    ensures Shaped(Received(s), {s.calls}) && s.calls !in s.answered && s.calls !in s.pending
  {
  }

  lemma AnswerShape(s: State, call: Call)
    requires Shaped(s, {call})
    ensures Shaped(Answer(s, call), {}) && Answer(s, call).fault == s.fault
  {
  }

  /** An operation is entered for an idle reader on its current card. */
  predicate Enters(s: State, s': State, call: Call, op: Operation) {
    && op.reader !in s.busy && Current(s, op.reader, op.card)
    && (op.reader in s.retained ==> op.Transmitting? && op.purpose == Retain)
    && s' == s.(busy := s.busy + {op.reader}, owner := s.owner[op.reader := call], pending := s.pending[call := op],
                fault := s'.fault)
  }

  lemma EntersOnce(s: State, s': State, call: Call, op: Operation)
    requires Shaped(s, {call}) && Enters(s, s', call, op)
    ensures OneOperationPerReader(s')
  {
    hide CardsDistinct, RetainedConsistent, Current;
  }

  lemma EntersOnCard(s: State, s': State, call: Call, op: Operation)
    requires Shaped(s, {call}) && Enters(s, s', call, op)
    ensures CardsDistinct(s')
  {
    hide RetainedConsistent, AnswersBalanced;
  }

  lemma EntersRetained(s: State, s': State, call: Call, op: Operation)
    requires Shaped(s, {call}) && Enters(s, s', call, op)
    ensures RetainedConsistent(s') && AnswersBalanced(s', {})
  {
    hide CardsDistinct;
  }

  lemma OperationShape(s: State, s': State, call: Call, op: Operation)
    requires Shaped(s, {call}) && Enters(s, s', call, op)
    ensures Shaped(s', {})
  {
    hide Enters, OneOperationPerReader, CardsDistinct, RetainedConsistent, AnswersBalanced;
    EntersOnce(s, s', call, op);
    EntersOnCard(s, s', call, op);
    EntersRetained(s, s', call, op);
  }

  lemma ProgressShape(s: State, s': State, call: Call, op: Operation)
    requires Shaped(s, {}) && call in s.pending && !s.pending[call].Transmitting?
    requires op.reader == s.pending[call].reader && op.card == s.pending[call].card
    requires s'.pending == s.pending[call := op]
    requires s' == s.(pending := s'.pending, owner := s'.owner, busy := s'.busy, open := s'.open, fault := s'.fault)
    requires s'.owner == s.owner && s'.busy == s.busy
    ensures Shaped(s', {})
  {
  }

  lemma IdleShape(s: State, call: Call)
    requires Shaped(s, {}) && call in s.pending
    ensures Shaped(Idle(s, call, s.pending[call].reader), {call})
  {
  }

  lemma SessionShape(s: State, s': State, loose: set<Call>)
    requires Shaped(s, loose)
    requires s' == s.(open := s'.open, fault := s'.fault, retained := s'.retained, cards := s'.cards)
    requires s'.retained <= s.retained
    requires s'.cards == s.cards || exists r :: r !in s'.retained && s'.cards == s.cards - {r}
    ensures Shaped(s', loose)
  {
  }

  lemma RetainShape(s: State, reader: Reader, loose: set<Call>)
    requires Shaped(s, loose) && reader in s.cards && reader !in s.busy
    ensures Shaped(s.(retained := s.retained + {reader}), loose)
  {
  }

  lemma NewCardShape(s: State, reader: Reader, loose: set<Call>)
    requires Shaped(s, loose) && reader !in s.cards && reader !in s.busy
    ensures Shaped(s.(cards := s.cards[reader := s.made], home := s.home[s.made := reader], made := s.made + 1), loose)
  {
  }

  // ---- Every step keeps the shape ----

  lemma ConnectKeepsShape(s: State, reader: Reader, slot: bool, present: bool)
    requires Shaped(s, {})
    ensures Shaped(AfterConnect(s, reader, slot, present), {})
  {
    hide Shaped, Answer;
    ReceivedShape(s);
    var t := Received(s);
    if reader in t.cards || reader in t.busy || !slot || !present {
      AnswerShape(t, s.calls);
    } else {
      NewCardShape(t, reader, {s.calls});
      AnswerShape(t.(cards := t.cards[reader := t.made], home := t.home[t.made := reader], made := t.made + 1), s.calls);
    }
  }

  lemma BeginSessionKeepsShape(s: State, reader: Reader, valid: bool)
    requires Shaped(s, {})
    ensures Shaped(AfterBeginSession(s, reader, valid), {})
  {
    hide Shaped, Answer;
    ReceivedShape(s);
    var t := Received(s);
    if reader !in t.cards || !valid || reader in t.busy || reader in t.retained {
      AnswerShape(t, s.calls);
    } else {
      OperationShape(t, AfterBeginSession(s, reader, valid), s.calls, Beginning(reader, t.cards[reader], Retain));
    }
  }

  lemma ReleaseShape(s: State, reader: Reader, loose: set<Call>)
    requires Shaped(s, loose)
    ensures Shaped(Release(s, reader), loose) && reader !in Release(s, reader).retained
  {
    hide Shaped;
    SessionShape(s, Release(s, reader), loose);
  }

  lemma EndSessionKeepsShape(s: State, reader: Reader)
    requires Shaped(s, {})
    ensures Shaped(AfterEndSession(s, reader), {})
  {
    hide Shaped, Answer, Release;
    ReceivedShape(s);
    ReleaseShape(Received(s), reader, {s.calls});
    AnswerShape(Release(Received(s), reader), s.calls);
  }

  lemma DisconnectKeepsShape(s: State, reader: Reader)
    requires Shaped(s, {})
    ensures Shaped(AfterDisconnect(s, reader), {})
  {
    hide Shaped, Answer, Release;
    ReceivedShape(s);
    var t := Release(Received(s), reader);
    ReleaseShape(Received(s), reader, {s.calls});
    SessionShape(t, t.(cards := t.cards - {reader}), {s.calls});
    AnswerShape(t.(cards := t.cards - {reader}), s.calls);
  }

  lemma TransceiveKeepsShape(s: State, reader: Reader, valid: bool)
    requires Shaped(s, {})
    ensures Shaped(AfterTransceive(s, reader, valid), {})
  {
    hide Shaped, Answer;
    ReceivedShape(s);
    var t := Received(s);
    if reader in t.busy || reader !in t.cards {
      AnswerShape(t, s.calls);
    } else if !valid {
      var u := if reader in t.retained then EndCard(t.(retained := t.retained - {reader}), t.cards[reader]) else t;
      SessionShape(t, u.(cards := u.cards - {reader}), {s.calls});
      AnswerShape(u.(cards := u.cards - {reader}), s.calls);
    } else if reader in t.retained {
      OperationShape(t, AfterTransceive(s, reader, valid), s.calls, Transmitting(reader, t.cards[reader], Retain));
    } else {
      OperationShape(t, AfterTransceive(s, reader, valid), s.calls, Beginning(reader, t.cards[reader], OneShot));
    }
  }

  lemma ReplyKeepsShape(s: State, call: Call, success: bool)
    requires Shaped(s, {}) && Enabled(s, Reply(call, success))
    ensures Shaped(AfterReply(s, call, success), {})
  {
    hide Shaped;
    var op := s.pending[call];
    ProgressShape(s, AfterReply(s, call, success), call, Begun(op.reader, op.card, op.purpose, success));
  }

  lemma BeginBlockKeepsShape(s: State, call: Call)
    requires Shaped(s, {}) && Enabled(s, BeginBlock(call))
    ensures Shaped(AfterBeginBlock(s, call), {})
  {
    hide Shaped, Answer;
    var op := s.pending[call];
    var done := Idle(s, call, op.reader);
    IdleShape(s, call);
    if !op.success {
      AnswerShape(done, call);
    } else if !Current(s, op.reader, op.card) {
      SessionShape(done, EndCard(done, op.card), {call});
      AnswerShape(EndCard(done, op.card), call);
    } else if op.purpose == Retain {
      RetainShape(done, op.reader, {call});
      AnswerShape(done.(retained := done.retained + {op.reader}), call);
    } else {
      OwnerOf(s, call);
      assert s.busy + {op.reader} == s.busy && s.owner[op.reader := call] == s.owner;
      ProgressShape(s, AfterBeginBlock(s, call), call, Transmitting(op.reader, op.card, OneShot));
    }
  }

  lemma OwnerOf(s: State, call: Call)
    requires Shaped(s, {}) && call in s.pending
    ensures var reader := s.pending[call].reader; reader in s.busy && reader in s.owner && s.owner[reader] == call
  {
  }

  lemma TransmitBlockKeepsShape(s: State, call: Call)
    requires Shaped(s, {}) && Enabled(s, TransmitBlock(call))
    ensures Shaped(AfterTransmitBlock(s, call), {})
  {
    hide Shaped, Answer;
    var op := s.pending[call];
    var done := Idle(s, call, op.reader);
    IdleShape(s, call);
    if op.purpose == OneShot || op.reader !in s.retained {
      SessionShape(done, EndCard(done, op.card), {call});
      AnswerShape(EndCard(done, op.card), call);
    } else {
      AnswerShape(done, call);
    }
  }

  // ---- Every step keeps sessions balanced and commits no fault ----

  lemma ConnectKeepsSessions(s: State, reader: Reader, slot: bool, present: bool)
    requires Inv(s)
    ensures !AfterConnect(s, reader, slot, present).fault && SessionsBalanced(AfterConnect(s, reader, slot, present))
  {
  }

  lemma BeginSessionKeepsSessions(s: State, reader: Reader, valid: bool)
    requires Inv(s)
    ensures !AfterBeginSession(s, reader, valid).fault && SessionsBalanced(AfterBeginSession(s, reader, valid))
  {
  }

  lemma EndSessionKeepsSessions(s: State, reader: Reader)
    requires Inv(s)
    ensures !AfterEndSession(s, reader).fault && SessionsBalanced(AfterEndSession(s, reader))
  {
  }

  lemma DisconnectKeepsSessions(s: State, reader: Reader)
    requires Inv(s)
    ensures !AfterDisconnect(s, reader).fault && SessionsBalanced(AfterDisconnect(s, reader))
  {
    if reader !in s.cards {
    } else if reader !in s.retained {
    } else if reader !in s.busy {
    } else {
    }
  }

  lemma TransceiveKeepsSessions(s: State, reader: Reader, valid: bool)
    requires Inv(s)
    ensures !AfterTransceive(s, reader, valid).fault && SessionsBalanced(AfterTransceive(s, reader, valid))
  {
    var t := Received(s);
    if reader in t.busy || reader !in t.cards {
    } else if !valid {
    } else if reader in t.retained {
    } else {
    }
  }

  lemma ReplyKeepsSessions(s: State, call: Call, success: bool)
    requires Inv(s) && Enabled(s, Reply(call, success))
    ensures !AfterReply(s, call, success).fault && SessionsBalanced(AfterReply(s, call, success))
  {
  }

  lemma BeginBlockKeepsSessions(s: State, call: Call)
    requires Inv(s) && Enabled(s, BeginBlock(call))
    ensures !AfterBeginBlock(s, call).fault && SessionsBalanced(AfterBeginBlock(s, call))
  {
    var op := s.pending[call];
    if !op.success {
    } else if !Current(s, op.reader, op.card) {
    } else if op.purpose == Retain {
    } else {
    }
  }

  lemma TransmitBlockKeepsSessions(s: State, call: Call)
    requires Inv(s) && Enabled(s, TransmitBlock(call))
    ensures !AfterTransmitBlock(s, call).fault && SessionsBalanced(AfterTransmitBlock(s, call))
  {
    var op := s.pending[call];
    if op.purpose == OneShot {
    } else if op.reader !in s.retained {
    } else {
    }
  }

  lemma StepInv(s: State, e: Event)
    requires Inv(s) && Enabled(s, e)
    ensures Inv(Next(s, e))
  {
    hide Shaped, SessionsBalanced, AfterConnect, AfterBeginSession, AfterEndSession, AfterDisconnect, AfterTransceive,
         AfterReply, AfterBeginBlock, AfterTransmitBlock, AfterMalformed;
    match e {
      case Connect(reader, slot, present) =>
        ConnectKeepsShape(s, reader, slot, present);
        ConnectKeepsSessions(s, reader, slot, present);
      case BeginSession(reader, valid) =>
        BeginSessionKeepsShape(s, reader, valid);
        BeginSessionKeepsSessions(s, reader, valid);
      case EndSession(reader) =>
        EndSessionKeepsShape(s, reader);
        EndSessionKeepsSessions(s, reader);
      case Transceive(reader, valid) =>
        TransceiveKeepsShape(s, reader, valid);
        TransceiveKeepsSessions(s, reader, valid);
      case Disconnect(reader) =>
        DisconnectKeepsShape(s, reader);
        DisconnectKeepsSessions(s, reader);
      case Malformed => MalformedKeepsInv(s);
      case Reply(call, success) =>
        ReplyKeepsShape(s, call, success);
        ReplyKeepsSessions(s, call, success);
      case BeginBlock(call) =>
        BeginBlockKeepsShape(s, call);
        BeginBlockKeepsSessions(s, call);
      case TransmitBlock(call) =>
        TransmitBlockKeepsShape(s, call);
        TransmitBlockKeepsSessions(s, call);
    }
  }

  lemma MalformedKeepsInv(s: State)
    requires Inv(s)
    ensures Inv(AfterMalformed(s))
  {
    ReceivedShape(s);
    AnswerShape(Received(s), s.calls);
  }

  // ---- What holds in every run ----

  predicate IsRun(states: seq<State>, events: seq<Event>) {
    && |states| == |events| + 1
    && states[0] == START
    && forall i :: 0 <= i < |events| ==> Enabled(states[i], events[i]) && states[i + 1] == Next(states[i], events[i])
  }

  lemma {:induction false} RunInv(states: seq<State>, events: seq<Event>, k: nat)
    requires IsRun(states, events) && k < |states|
    ensures Inv(states[k])
  {
    hide Inv, Next, Enabled;
    if k == 0 {
      StartInv();
    } else {
      RunInv(states, events, k - 1);
      StepInv(states[k - 1], events[k - 1]);
    }
  }

  /** In every interleaving a card's session is open exactly while its reader is retained, an
      operation transmits on it, or the reply that opened it waits to be handled; no session is
      begun twice or ended twice, and nothing is transmitted outside one. */
  lemma SessionBalance(states: seq<State>, events: seq<Event>, k: nat, card: Card)
    requires IsRun(states, events) && k < |states|
    ensures var s := states[k];
            && !s.fault
            && (card in s.open <==>
                  || (exists reader :: reader in s.retained && Current(s, reader, card))
                  || (exists call :: call in s.pending && Holds(s.pending[call], card)))
  {
    hide Next, Enabled;
    RunInv(states, events, k);
    InUseMeans(states[k], card);
  }

  lemma InUseMeans(s: State, card: Card)
    requires Shaped(s, {})
    ensures InUse(s, card) <==>
      || (exists reader :: reader in s.retained && Current(s, reader, card))
      || (exists call :: call in s.pending && Holds(s.pending[call], card))
  {
    if InUse(s, card) {
      var reader := s.home[card];
      if reader in s.retained && Current(s, reader, card) {
      } else {
        var call := s.owner[reader];
        assert call in s.pending && Holds(s.pending[call], card);
      }
    }
  }

  /** Two different cards of one reader are never open together. */
  lemma OneOpenCardPerReader(states: seq<State>, events: seq<Event>, k: nat, a: Card, b: Card)
    requires IsRun(states, events) && k < |states|
    requires a in states[k].open && b in states[k].open && a in states[k].home && b in states[k].home
    requires states[k].home[a] == states[k].home[b]
    ensures a == b
  {
    hide Next, Enabled;
    RunInv(states, events, k);
    assert InUse(states[k], a) && InUse(states[k], b);
  }

  /** Every call received is answered once, or is pending and not answered yet. */
  lemma EachCallAnsweredOnce(states: seq<State>, events: seq<Event>, k: nat, call: Call)
    requires IsRun(states, events) && k < |states| && call < states[k].calls
    ensures (call in states[k].answered) != (call in states[k].pending)
    ensures !states[k].fault
  {
    hide Next, Enabled;
    RunInv(states, events, k);
  }

  /** The reply or block that a pending call waits for. */
  predicate OwnStep(e: Event, call: Call) {
    match e
    case Reply(c, _) => c == call
    case BeginBlock(c) => c == call
    case TransmitBlock(c) => c == call
    case _ => false
  }

  function StepsLeft(op: Operation): nat {
    match op
    case Beginning(_, _, _) => 3
    case Begun(_, _, _, _) => 2
    case Transmitting(_, _, _) => 1
  }

  function OwnSteps(events: seq<Event>, call: Call): nat {
    if events == [] then 0
    else OwnSteps(events[..|events| - 1], call) + if OwnStep(events[|events| - 1], call) then 1 else 0
  }

  /** A pending call always has such a step ahead of it. */
  lemma PendingCallCanMove(s: State, call: Call)
    requires call in s.pending
    ensures exists e :: OwnStep(e, call) && Enabled(s, e)
  {
    match s.pending[call] {
      case Beginning(_, _, _) => assert OwnStep(Reply(call, true), call) && Enabled(s, Reply(call, true));
      case Begun(_, _, _, _) => assert OwnStep(BeginBlock(call), call) && Enabled(s, BeginBlock(call));
      case Transmitting(_, _, _) => assert OwnStep(TransmitBlock(call), call) && Enabled(s, TransmitBlock(call));
    }
  }

  /** Its own steps answer it or bring it closer; nothing else touches it. */
  lemma StepMovesCall(s: State, e: Event, call: Call)
    requires Inv(s) && Enabled(s, e) && call in s.pending
    ensures if OwnStep(e, call) then
              call in Next(s, e).answered || (call in Next(s, e).pending
                                              && StepsLeft(Next(s, e).pending[call]) < StepsLeft(s.pending[call]))
            else call in Next(s, e).pending && Next(s, e).pending[call] == s.pending[call]
  {
    hide SessionsBalanced, CardsDistinct, RetainedConsistent;
    match e {
      case Connect(_, _, _) =>
      case BeginSession(_, _) =>
      case EndSession(_) =>
      case Transceive(_, _) =>
      case Disconnect(_) =>
      case Malformed =>
      case Reply(_, _) =>
      case BeginBlock(_) =>
      case TransmitBlock(_) =>
    }
  }

  /** In every run a call pending at some point has been answered once three steps of its own
      have happened since. */
  lemma {:induction false} AnsweredWithinThree(states: seq<State>, events: seq<Event>, j: nat, k: nat, call: Call)
    requires IsRun(states, events) && j <= k < |states| && call in states[j].pending
    ensures call in states[k].answered ||
            (call in states[k].pending
             && StepsLeft(states[k].pending[call]) + OwnSteps(events[j..k], call) <= StepsLeft(states[j].pending[call]))
    ensures OwnSteps(events[j..k], call) >= 3 ==> call in states[k].answered
    decreases k
  {
    hide Inv, Next, Enabled, OwnStep;
    if j == k {
      assert events[j..k] == [];
    } else {
      AnsweredWithinThree(states, events, j, k - 1, call);
      assert events[j..k][..k - 1 - j] == events[j..k - 1];
      RunInv(states, events, k - 1);
      if call in states[k - 1].pending && call !in states[k - 1].answered {
        StepMovesCall(states[k - 1], events[k - 1], call);
      } else {
        StaysAnswered(states[k - 1], events[k - 1], call);
      }
    }
  }

  lemma StaysAnswered(s: State, e: Event, call: Call)
    requires Enabled(s, e) && call in s.answered
    ensures call in Next(s, e).answered
  {
    match e {
      case Connect(_, _, _) =>
      case BeginSession(_, _) =>
      case EndSession(_) =>
      case Transceive(_, _) =>
      case Disconnect(_) =>
      case Malformed =>
      case Reply(_, _) =>
      case BeginBlock(_) =>
      case TransmitBlock(_) =>
    }
  }

  /** Nothing leaks: when no operation is pending on a reader that is not retained, no card ever
      made for it is open. */
  lemma NothingLeaks(states: seq<State>, events: seq<Event>, k: nat, card: Card)
    requires IsRun(states, events) && k < |states| && card in states[k].home
    requires states[k].home[card] !in states[k].retained
    requires forall call :: call in states[k].pending ==> states[k].pending[call].reader != states[k].home[card]
    ensures card !in states[k].open
  {
    hide Next, Enabled;
    RunInv(states, events, k);
    BusyMeansPending(states[k], states[k].home[card]);
    IdleCardClosed(states[k], card);
  }

  lemma BusyMeansPending(s: State, reader: Reader)
    requires Shaped(s, {})
    ensures reader in s.busy ==> exists call :: call in s.pending && s.pending[call].reader == reader
  {
    if reader in s.busy {
      assert s.owner[reader] in s.pending;
    }
  }

  /** In particular disconnecting or ending a session on an idle reader closes its card for good. */
  lemma IdleReaderCloses(states: seq<State>, events: seq<Event>, k: nat, reader: Reader, card: Card)
    requires IsRun(states, events) && k < |events| && reader !in states[k].busy
    requires events[k] == Disconnect(reader) || events[k] == EndSession(reader)
    requires card in states[k + 1].home && states[k + 1].home[card] == reader
    ensures card !in states[k + 1].open
  {
    hide Inv;
    RunInv(states, events, k + 1);
    IdleCardClosed(states[k + 1], card);
  }

  lemma IdleCardClosed(s: State, card: Card)
    requires Inv(s) && card in s.home && s.home[card] !in s.busy && s.home[card] !in s.retained
    ensures card !in s.open
  {
  }

  // ---- Calls take effect ----

  /** A free reader whose slot holds a card gets a card that was never made before. */
  lemma ConnectMakesCard(states: seq<State>, events: seq<Event>, k: nat, reader: Reader)
    requires IsRun(states, events) && k < |events| && events[k] == Connect(reader, true, true)
    requires reader !in states[k].cards && reader !in states[k].busy
    ensures reader in states[k + 1].cards && states[k + 1].cards[reader] !in states[k].home
    ensures states[k + 1].cards[reader] in states[k + 1].home && states[k + 1].home[states[k + 1].cards[reader]] == reader
  {
    hide OneOperationPerReader, RetainedConsistent, AnswersBalanced, SessionsBalanced;
    RunInv(states, events, k);
  }

  /** A session wanted on a connected, free and unretained reader is begun on its card. */
  lemma BeginSessionBegins(states: seq<State>, events: seq<Event>, k: nat, reader: Reader)
    requires IsRun(states, events) && k < |events| && events[k] == BeginSession(reader, true)
    requires reader in states[k].cards && reader !in states[k].busy && reader !in states[k].retained
    ensures var call, s := states[k].calls, states[k + 1];
            call in s.pending && s.pending[call] == Beginning(reader, states[k].cards[reader], Retain) && reader in s.busy
  {
  }

  /** An APDU for a connected, free reader is transmitted in its retained session at once, and
      otherwise a session of its own is begun for it. */
  lemma TransceiveBegins(states: seq<State>, events: seq<Event>, k: nat, reader: Reader)
    requires IsRun(states, events) && k < |events| && events[k] == Transceive(reader, true)
    requires reader in states[k].cards && reader !in states[k].busy
    ensures var call, card, s := states[k].calls, states[k].cards[reader], states[k + 1];
            && call in s.pending && reader in s.busy
            && (reader in states[k].retained ==> s.pending[call] == Transmitting(reader, card, Retain) && card in s.open)
            && (reader !in states[k].retained ==> s.pending[call] == Beginning(reader, card, OneShot))
  {
    hide OneOperationPerReader, AnswersBalanced;
    RunInv(states, events, k);
    if reader in states[k].retained { assert InUse(states[k], states[k].cards[reader]); }
  }

  /** An APDU's own session, once begun on the reader's card, transmits. */
  lemma OneShotTransmits(states: seq<State>, events: seq<Event>, k: nat, call: Call, reader: Reader, card: Card)
    requires IsRun(states, events) && k < |events| && events[k] == BeginBlock(call)
    requires states[k].pending[call] == Begun(reader, card, OneShot, true) && Current(states[k], reader, card)
    ensures call in states[k + 1].pending && states[k + 1].pending[call] == Transmitting(reader, card, OneShot)
  {
  }

  /** Giving a session up does so at once, even while an operation uses it, and so does losing the card. */
  lemma GivenUp(states: seq<State>, events: seq<Event>, k: nat, reader: Reader)
    requires IsRun(states, events) && k < |events|
    ensures events[k] == EndSession(reader) ==> reader !in states[k + 1].retained
    ensures events[k] == Disconnect(reader) ==> reader !in states[k + 1].retained && reader !in states[k + 1].cards
    ensures events[k] == Transceive(reader, false) && reader !in states[k].busy ==>
              reader !in states[k + 1].retained && reader !in states[k + 1].cards
  {
    hide OneOperationPerReader, CardsDistinct, AnswersBalanced, SessionsBalanced;
    RunInv(states, events, k);
  }

  /** The reader is retained on a card whose session is open. */
  predicate Held(s: State, reader: Reader, card: Card) {
    reader in s.retained && Current(s, reader, card) && card in s.open
  }

  /** What gives a retained session up. */
  predicate GivesUp(e: Event, reader: Reader) {
    e == EndSession(reader) || e == Disconnect(reader) || e == Transceive(reader, false)
  }

  lemma HeldStays(s: State, e: Event, reader: Reader, card: Card)
    requires Enabled(s, e) && Inv(s) && Inv(Next(s, e)) && Held(s, reader, card) && !GivesUp(e, reader)
    ensures Held(Next(s, e), reader, card)
  {
    hide OneOperationPerReader, AnswersBalanced;
    hide Next;
    RetainedStays(s, e, reader);
    CardStays(s, e, reader);
    HomeStays(s, e, card);
    assert InUse(s, card);
    assert InUse(Next(s, e), card);
  }

  /** A reader loses its card only by being disconnected, or found invalid while free. */
  lemma CardStays(s: State, e: Event, reader: Reader)
    requires Enabled(s, e) && reader in s.cards && e != Disconnect(reader)
    requires e == Transceive(reader, false) ==> reader in s.busy
    ensures reader in Next(s, e).cards && Next(s, e).cards[reader] == s.cards[reader]
  {
    match e {
      case Connect(_, _, _) =>
      case BeginSession(_, _) =>
      case EndSession(_) =>
      case Transceive(_, _) =>
      case Disconnect(_) =>
      case Malformed =>
      case Reply(_, _) =>
      case BeginBlock(_) =>
      case TransmitBlock(_) =>
    }
  }

  lemma RetainedStays(s: State, e: Event, reader: Reader)
    requires Enabled(s, e) && reader in s.retained && !GivesUp(e, reader)
    ensures reader in Next(s, e).retained
  {
    match e {
      case Connect(_, _, _) =>
      case BeginSession(_, _) =>
      case EndSession(_) =>
      case Transceive(_, _) =>
      case Disconnect(_) =>
      case Malformed =>
      case Reply(_, _) =>
      case BeginBlock(_) =>
      case TransmitBlock(_) =>
    }
  }

  lemma HomeStays(s: State, e: Event, card: Card)
    requires Enabled(s, e) && card in s.home && card != s.made
    ensures card in Next(s, e).home && Next(s, e).home[card] == s.home[card]
  {
    match e {
      case Connect(_, _, _) =>
      case BeginSession(_, _) =>
      case EndSession(_) =>
      case Transceive(_, _) =>
      case Disconnect(_) =>
      case Malformed =>
      case Reply(_, _) =>
      case BeginBlock(_) =>
      case TransmitBlock(_) =>
    }
  }

  /** A session begun to be retained is: when its block finds the card still connected, the reader is
      retained and the session open from then on, whatever else happens, until that reader's
      session is ended, the reader is disconnected or its card found invalid. */
  lemma {:induction false} SessionLasts(states: seq<State>, events: seq<Event>, k: nat, n: nat, call: Call, reader: Reader,
                                        card: Card)
    requires IsRun(states, events) && k < n < |states| && events[k] == BeginBlock(call)
    requires states[k].pending[call] == Begun(reader, card, Retain, true) && Current(states[k], reader, card)
    requires forall j :: k < j < n ==> !GivesUp(events[j], reader)
    ensures Held(states[n], reader, card)
    decreases n
  {
    hide Inv, Next, Enabled, Held;
    RunInv(states, events, n - 1);
    RunInv(states, events, n);
    if n == k + 1 {
      BlockRetains(states[k], call, reader, card);
    } else {
      SessionLasts(states, events, k, n - 1, call, reader, card);
      HeldStays(states[n - 1], events[n - 1], reader, card);
    }
  }

  lemma BlockRetains(s: State, call: Call, reader: Reader, card: Card)
    requires Inv(s) && Enabled(s, BeginBlock(call)) && Inv(Next(s, BeginBlock(call)))
    requires s.pending[call] == Begun(reader, card, Retain, true) && Current(s, reader, card)
    ensures Held(Next(s, BeginBlock(call)), reader, card)
  {
    hide OneOperationPerReader, AnswersBalanced;
    assert InUse(Next(s, BeginBlock(call)), card);
  }

  /** While a reader's operation is pending only a disconnection takes its card away. */
  lemma {:induction false} PendingKeepsCard(states: seq<State>, events: seq<Event>, k: nat, n: nat, call: Call)
    requires IsRun(states, events) && k <= n < |states| && call in states[k].pending && call in states[n].pending
    requires Current(states[k], states[k].pending[call].reader, states[k].pending[call].card)
    requires forall j :: k <= j < n ==> events[j] != Disconnect(states[k].pending[call].reader)
    ensures states[n].pending[call].reader == states[k].pending[call].reader
    ensures states[n].pending[call].card == states[k].pending[call].card
    ensures states[n].pending[call].purpose == states[k].pending[call].purpose
    ensures Current(states[n], states[n].pending[call].reader, states[n].pending[call].card)
    decreases n
  {
    hide Inv, Next, Enabled;
    if k < n {
      RunInv(states, events, n - 1);
      RunInv(states, events, k);
      PendingSoFar(states, events, k, n, call);
      PendingKeepsCard(states, events, k, n - 1, call);
      PendingCardStep(states[n - 1], events[n - 1], call);
    }
  }

  /** A call pending now that was pending before was pending in between. */
  lemma PendingSoFar(states: seq<State>, events: seq<Event>, k: nat, n: nat, call: Call)
    requires IsRun(states, events) && k < n < |states| && call in states[k].pending && call in states[n].pending
    ensures call in states[n - 1].pending
  {
    hide Inv, Next, Enabled, OwnStep;
    AnsweredWithinThree(states, events, k, n - 1, call);
    RunInv(states, events, n - 1);
    RunInv(states, events, n);
    if call in states[n - 1].answered {
      StaysAnswered(states[n - 1], events[n - 1], call);
      NotBoth(states[n], call);
    }
  }

  lemma NotBoth(s: State, call: Call)
    requires Inv(s) && call in s.answered
    ensures call !in s.pending
  {
  }

  lemma PendingCardStep(s: State, e: Event, call: Call)
    requires Inv(s) && Enabled(s, e) && call in s.pending && call in Next(s, e).pending
    requires Current(s, s.pending[call].reader, s.pending[call].card) && e != Disconnect(s.pending[call].reader)
    ensures var op, op' := s.pending[call], Next(s, e).pending[call];
            && op'.reader == op.reader && op'.card == op.card && op'.purpose == op.purpose
            && Current(Next(s, e), op.reader, op.card)
  {
    hide Next, SessionsBalanced, CardsDistinct, RetainedConsistent, AnswersBalanced;
    CardStays(s, e, s.pending[call].reader);
    StepMovesCall(s, e, call);
    if OwnStep(e, call) { OwnStepKeepsCard(s, e, call); }
  }

  lemma OwnStepKeepsCard(s: State, e: Event, call: Call)
    requires Enabled(s, e) && call in s.pending && OwnStep(e, call) && call in Next(s, e).pending
    ensures var op, op' := s.pending[call], Next(s, e).pending[call];
            op'.reader == op.reader && op'.card == op.card && op'.purpose == op.purpose
  {
  }

  /** From the call on: a session asked for on a connected, free reader that the platform grants is
      retained when its block runs, unless the reader was disconnected meanwhile. */
  lemma BeginSessionRetains(states: seq<State>, events: seq<Event>, i: nat, k: nat, reader: Reader)
    requires IsRun(states, events) && i < k < |events| && events[i] == BeginSession(reader, true)
    requires reader in states[i].cards && reader !in states[i].busy && reader !in states[i].retained
    requires events[k] == BeginBlock(states[i].calls) && states[k].pending[states[i].calls].success
    requires forall j :: i < j < k ==> events[j] != Disconnect(reader)
    ensures Held(states[k + 1], reader, states[i].cards[reader])
  {
    hide Inv, Next, Held;
    var call := states[i].calls;
    BeginSessionBegins(states, events, i, reader);
    BegunCurrent(states[i], reader);
    PendingKeepsCard(states, events, i + 1, k, call);
    SessionLasts(states, events, k, k + 1, call, reader, states[i].cards[reader]);
  }

  lemma BegunCurrent(s: State, reader: Reader)
    requires reader in s.cards
    ensures Current(Next(s, BeginSession(reader, true)), reader, s.cards[reader])
  {
  }

  // ---- The plugin in its own form ----

  class CcidPlugin {
    var cards: map<Reader, Card>
    var retainedSessions: set<Reader>
    var busyReaders: set<Reader>
    var pending: map<Call, Operation>   // blocks and replies still to come, by the call they answer
    var made: Card
    var calls: Call
    ghost var open: set<Card>
    ghost var answered: set<Call>
    ghost var owner: map<Reader, Call>
    ghost var home: map<Card, Reader>
    ghost var fault: bool

    ghost function View(): State
      reads this
    {
      State(cards, retainedSessions, busyReaders, pending, open, made, calls, answered, owner, home, fault)
    }

    constructor ()
      ensures View() == START
    {
      cards, retainedSessions, busyReaders, pending := map[], {}, {}, map[];
      made, calls := 0, 0;
      open, answered, owner, home, fault := {}, {}, map[], map[], false;
    }

    /** Receives a method call. */
    method Receive() returns (call: Call)
      modifies this`calls
      ensures View() == old(View()).(calls := old(calls) + 1) && call == old(calls)
    {
      call := calls;
      calls := calls + 1;
    }

    /** result(...) */
    ghost method Result(call: Call)
      modifies this`answered, this`fault
      ensures View() == Answer(old(View()), call)
    {
      fault := fault || call in answered;
      answered := answered + {call};
    }

    /** card.endSession() */
    ghost method EndCardSession(card: Card)
      modifies this`open, this`fault
      ensures View() == EndCard(old(View()), card)
    {
      fault := fault || card !in open;
      open := open - {card};
    }

    /** card.beginSession, whose reply is still to come */
    method BeginCardSession(call: Call, reader: Reader, card: Card, purpose: Purpose)
      modifies this
      ensures View() == BeginCard(old(View()), call, reader, card, purpose)
    {
      busyReaders := busyReaders + {reader};
      owner := owner[reader := call];
      pending := pending[call := Beginning(reader, card, purpose)];
    }

    /** card.transmit, whose block is still to come */
    method TransmitOn(call: Call, reader: Reader, card: Card, purpose: Purpose)
      modifies this
      ensures View() == Transmit(old(View()), call, reader, card, purpose)
    {
      busyReaders := busyReaders + {reader};
      owner := owner[reader := call];
      pending := pending[call := Transmitting(reader, card, purpose)];
      fault := fault || card !in open;
    }

    method HandleConnect(reader: Reader, slot: bool, present: bool)
      modifies this
      ensures View() == AfterConnect(old(View()), reader, slot, present)
    {
      var call := Receive();
      if reader in cards || reader in busyReaders {
        Result(call);
        return;
      }
      if slot && present {
        cards := cards[reader := made];
        home := home[made := reader];
        made := made + 1;
      }
      Result(call);
    }

    method HandleBeginSession(reader: Reader, valid: bool)
      modifies this
      ensures View() == AfterBeginSession(old(View()), reader, valid)
    {
      var call := Receive();
      if reader !in cards || !valid {
        Result(call);
        return;
      }
      if reader in busyReaders || reader in retainedSessions {
        Result(call);
        return;
      }
      BeginCardSession(call, reader, cards[reader], Retain);
    }

    method ReleaseSession(reader: Reader)
      modifies this
      ensures View() == Release(old(View()), reader)
    {
      var wasRetained := reader in retainedSessions;
      retainedSessions := retainedSessions - {reader};
      if wasRetained && reader !in busyReaders && reader in cards {
        EndCardSession(cards[reader]);
      }
    }

    method HandleEndSession(reader: Reader)
      modifies this
      ensures View() == AfterEndSession(old(View()), reader)
    {
      hide Release, Answer;
      var call := Receive();
      ReleaseSession(reader);
      Result(call);
    }

    method HandleDisconnect(reader: Reader)
      modifies this
      ensures View() == AfterDisconnect(old(View()), reader)
    {
      hide Release, Answer;
      var call := Receive();
      ReleaseSession(reader);
      cards := cards - {reader};
      Result(call);
    }

    method HandleTransceive(reader: Reader, valid: bool)
      modifies this
      ensures View() == AfterTransceive(old(View()), reader, valid)
    {
      var call := Receive();
      if reader in busyReaders || reader !in cards {
        Result(call);
        return;
      }
      var card := cards[reader];
      if valid {
        if reader in retainedSessions {
          TransmitOn(call, reader, card, Retain);
        } else {
          BeginCardSession(call, reader, card, OneShot);
        }
      } else {
        if reader in retainedSessions {
          retainedSessions := retainedSessions - {reader};
          EndCardSession(card);
        }
        cards := cards - {reader};
        Result(call);
      }
    }

    /** The platform answers a begin; its block is queued. */
    method OnReply(call: Call, success: bool)
      requires Enabled(View(), Reply(call, success))
      modifies this
      ensures View() == AfterReply(old(View()), call, success)
    {
      var op := pending[call];
      pending := pending[call := Begun(op.reader, op.card, op.purpose, success)];
      if success {
        fault := fault || op.card in open;
        open := open + {op.card};
      }
    }

    method NoLongerBusy(call: Call, reader: Reader)
      modifies this
      ensures View() == Idle(old(View()), call, reader)
    {
      busyReaders := busyReaders - {reader};
      owner := owner - {reader};
      pending := pending - {call};
    }

    method OnBegun(call: Call)
      requires Enabled(View(), BeginBlock(call))
      modifies this
      ensures View() == AfterBeginBlock(old(View()), call)
    {
      var op := pending[call];
      if !op.success {
        NoLongerBusy(call, op.reader);
        Result(call);
        return;
      }
      if !(op.reader in cards && cards[op.reader] == op.card) {
        NoLongerBusy(call, op.reader);
        EndCardSession(op.card);
        Result(call);
        return;
      }
      if op.purpose == Retain {
        NoLongerBusy(call, op.reader);
        retainedSessions := retainedSessions + {op.reader};
        Result(call);
      } else {
        TransmitOn(call, op.reader, op.card, OneShot);
      }
    }

    method OnTransmitted(call: Call)
      requires Enabled(View(), TransmitBlock(call))
      modifies this
      ensures View() == AfterTransmitBlock(old(View()), call)
    {
      var op := pending[call];
      NoLongerBusy(call, op.reader);
      if op.purpose == OneShot || op.reader !in retainedSessions {
        EndCardSession(op.card);
      }
      Result(call);
    }
  }
}
