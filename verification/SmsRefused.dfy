/** What a decoder refuses and what it never looks at: units cut short, octets behind a unit, broken
    escapes, headers longer than their data, and text marked by a byte order mark. */
module SmsRefused {
  import opened Bits
  import opened Wrappers
  import opened SmsTypes
  import opened SmsAddress
  import opened SmsSubmit
  import opened SmsReceived
  import opened Septets
  import SmsRoundTrip
  import D = SmsDecode
  import Gsm7
  import SmsTime
  import Utf16

  // ---- Nothing is read behind a unit ----

  /** An address that is not cut short is read alike whatever follows. */
  lemma AddressAlone(a: Gsm7.Alphabet, data: seq<Byte>, at: nat, more: seq<Byte>)
    requires a.Valid() && AddressAt(a, data, at) != Failure(Truncated)
    ensures AddressAt(a, data + more, at) == AddressAt(a, data, at)
  {
    hide AddressValue, ZeroPadded;
    var all := data + more;
    assert all[at] == data[at] && all[at + 1] == data[at + 1];
    var length, toa := data[at], data[at + 1];
    ExtentAlone(data, at, more);
    var next := at + 2 + Extent(data, at + 2, length, toa).0;
    assert all[at + 2..next] == data[at + 2..next];
  }

  lemma ExtentAlone(data: seq<Byte>, at: nat, more: seq<Byte>)
    requires at + 2 <= |data| && at + 2 + Extent(data, at + 2, data[at], data[at + 1]).0 <= |data|
    ensures Extent(data + more, at + 2, data[at], data[at + 1]) == Extent(data, at + 2, data[at], data[at + 1])
  {
    hide ZeroPadded;
    var octets: nat := (data[at] as int + 1) / 2;
    assert at + 2 + octets <= |data|;
    assert (data + more)[at + 2..at + 2 + octets] == data[at + 2..at + 2 + octets];
  }

  predicate Whole(error: Option<SmsError>) {
    error != Some(Truncated) && error != Some(TooShort)
  }

  lemma UserDataAlone(codec: Codec, rest: seq<Byte>, more: seq<Byte>, first: Byte, dcs: Byte, length: Byte, m: Message)
    requires codec.Valid() && Whole(D.UserDataOutcome(codec, rest, first, dcs, length, m).1)
    ensures D.UserDataOutcome(codec, rest + more, first, dcs, length, m) == D.UserDataOutcome(codec, rest, first, dcs, length, m)
  {
    hide D.TextOutcome, D.ExpectedOctets, D.ElementsOf, D.ConcatIn;
    var expected := D.ExpectedOctets(dcs, length);
    assert (rest + more)[..expected] == rest[..expected];
  }

  lemma SubmitAlone(codec: Codec, data: seq<Byte>, more: seq<Byte>, at: nat, first: Byte, m: Message)
    requires codec.Valid() && Whole(D.SubmitOutcome(codec, data, at, first, m).1)
    ensures D.SubmitOutcome(codec, data + more, at, first, m) == D.SubmitOutcome(codec, data, at, first, m)
  {
    hide AddressAt, D.UserDataOutcome, D.ValidityOctets;
    AddressAlone(codec.alphabet, data, at + 1, more);
    match AddressAt(codec.alphabet, data, at + 1) {
      case Failure(_) =>
      case Success((address, p)) =>
        var m := m.(reference := Some(data[at]), to := address, protocolId := data[p], codingScheme := data[p + 1]);
        var q := p + 2 + D.ValidityOctets(first);
        assert (data + more)[q + 1..] == data[q + 1..] + more;
        UserDataAlone(codec, data[q + 1..], more, first, data[p + 1], data[q], m);
    }
  }

  lemma DeliverAlone(codec: Codec, data: seq<Byte>, more: seq<Byte>, at: nat, first: Byte, m: Message)
    requires codec.Valid() && Whole(D.DeliverOutcome(codec, data, at, first, m).1)
    ensures D.DeliverOutcome(codec, data + more, at, first, m) == D.DeliverOutcome(codec, data, at, first, m)
  {
    hide AddressAt, D.UserDataOutcome, SmsTime.TimeOf;
    AddressAlone(codec.alphabet, data, at, more);
    match AddressAt(codec.alphabet, data, at) {
      case Failure(_) =>
      case Success((address, p)) =>
        var m := m.(from := address, protocolId := data[p], codingScheme := data[p + 1],
                    serviceCentreTime := D.Newer(m.serviceCentreTime, SmsTime.TimeOf(data[p + 2..p + 9])));
        assert (data + more)[p + 2..p + 9] == data[p + 2..p + 9];
        assert (data + more)[p + 10..] == data[p + 10..] + more;
        UserDataAlone(codec, data[p + 10..], more, first, data[p + 1], data[p + 9], m);
    }
  }

  lemma ReportAlone(codec: Codec, data: seq<Byte>, more: seq<Byte>, at: nat, m: Message)
    requires codec.Valid() && Whole(D.StatusReportOutcome(codec, data, at, m).1)
    ensures D.StatusReportOutcome(codec, data + more, at, m) == D.StatusReportOutcome(codec, data, at, m)
  {
    hide AddressAt, SmsTime.TimeOf, D.StatusOf;
    AddressAlone(codec.alphabet, data, at + 1, more);
    match AddressAt(codec.alphabet, data, at + 1) {
      case Failure(_) =>
      case Success((_, p)) =>
        assert (data + more)[p..p + 7] == data[p..p + 7] && (data + more)[p + 7..p + 14] == data[p + 7..p + 14];
    }
  }

  /** Whatever is decoded or refused for another reason than its length comes out the same with any
      octets behind it. */
  lemma NothingReadBehind(codec: Codec, pdu: seq<Byte>, more: seq<Byte>)
    requires codec.Valid() && Whole(D.PduOutcome(codec, pdu).1)
    ensures D.PduOutcome(codec, pdu + more) == D.PduOutcome(codec, pdu)
  {
    hide D.SubmitOutcome, D.DeliverOutcome, D.StatusReportOutcome, D.ServiceCentreOf;
    var all := pdu + more;
    var at := 1 + pdu[0] as int;
    assert all[1..at] == pdu[1..at] && all[0] == pdu[0];
    var m := BLANK.(serviceCentre := D.ServiceCentreOf(pdu[1..at]));
    assert Whole(D.TpduOutcome(codec, pdu, at, m).1);
    assert at < |pdu| && all[at] == pdu[at];
    match pdu[at] % 4 {
      case 0 => DeliverAlone(codec, pdu, more, at + 1, pdu[at], m.(direction := Received));
      case 1 => SubmitAlone(codec, pdu, more, at + 1, pdu[at], m.(direction := Submitted));
      case 2 => ReportAlone(codec, pdu, more, at + 1, m.(direction := StatusReport));
      case _ =>
    }
  }

  // ---- Units cut short ----

  /** An address cut short is never read as a shorter one. */
  lemma AddressCut(a: Gsm7.Alphabet, party: Party, data: seq<Byte>, at: nat)
    requires a.Valid() && ValidParty(a, party) && at <= |data| < at + |PartyOctets(a, party)|
    requires data[at..] == PartyOctets(a, party)[..|data| - at]
    ensures AddressAt(a, data, at) == Failure(Truncated)
  {
    hide AddressValue, ZeroPadded, Gsm7.WholeCharacters, SemiOctets;
    var octets := PartyOctets(a, party);
    if at + 2 <= |data| {
      assert data[at] == data[at..][0] == octets[0] && data[at + 1] == data[at..][1] == octets[1];
      if party.Name? {
        SenderExtent(|party.septets|);
      }
    }
  }

  lemma AddressOrCut(a: Gsm7.Alphabet, party: Party, pdu: seq<Byte>, at: nat, n: nat)
    requires a.Valid() && ValidParty(a, party) && at + |PartyOctets(a, party)| <= |pdu| && at <= n <= |pdu|
    requires pdu[at..at + |PartyOctets(a, party)|] == PartyOctets(a, party)
    ensures AddressAt(a, pdu[..n], at)
         == if n < at + |PartyOctets(a, party)| then Failure(Truncated)
            else Success((PartyText(a, party), at + |PartyOctets(a, party)|))
  {
    hide AddressAt, PartyOctets, ValidParty, PartyText;
    var data, p := pdu[..n], at + |PartyOctets(a, party)|;
    if n < p {
      assert data[at..] == pdu[at..p][..n - at];
      AddressCut(a, party, data, at);
    } else {
      assert data[at..p] == pdu[at..p];
      PartyRead(a, party, data, at);
    }
  }

  /** User data takes exactly the octets its length announces. */
  lemma DataAnnounced(content: Content, header: seq<Byte>)
    requires Fits(content, header) && (content.Gsm7Content? ==> content.septets != [])
    ensures |DataOctets(content, header)| == D.ExpectedOctets(CodingScheme(content), DataLength(content, header) % 256)
  {
  }

  lemma DeliverCut(codec: Codec, data: seq<Byte>, p: nat)
    requires codec.Valid() && 2 <= |data| && data[0] == 0x00 && data[1] % 4 == 0
    requires match AddressAt(codec.alphabet, data, 2)
             case Failure(e) => e == Truncated
             case Success((_, next)) =>
               next == p && (p + 10 <= |data| ==> p + 10 + D.ExpectedOctets(data[p + 1], data[p + 9]) > |data|)
    ensures D.PduOutcome(codec, data).1 == Some(Truncated)
  {
    hide AddressAt, SmsTime.TimeOf, D.TextOutcome, D.ElementsOf, D.ConcatIn, D.SubmitOutcome, D.StatusReportOutcome,
         D.ExpectedOctets;
  }

  /** A received unit cut short anywhere is refused as truncated, never read as a shorter message. */
  lemma DeliverCutShort(codec: Codec, first: Byte, sender: Party, pid: Byte, time: seq<Byte>, content: Content,
                        header: seq<Byte>, k: nat)
    requires codec.Valid() && first % 4 == 0 && ValidParty(codec.alphabet, sender) && |time| == 7
    requires Fits(content, header) && (content.Gsm7Content? ==> content.septets != [])
    requires 0 < k < |DeliverTpdu(first, PartyOctets(codec.alphabet, sender), pid, time, content, header)|
    ensures D.Decoded(codec, DeliverTpdu(first, PartyOctets(codec.alphabet, sender), pid, time, content, header)[..k]).1
         == Some(Truncated)
  {
    hide AddressAt, D.PduOutcome, D.Decoded, PartyOctets, ValidParty, Fits, DataOctets, DataLength, CodingScheme,
         D.ExpectedOctets, DeliverTpdu;
    var address := PartyOctets(codec.alphabet, sender);
    var tpdu, p := DeliverTpdu(first, address, pid, time, content, header), 2 + |address|;
    var pdu := [0x00] + tpdu;
    var data := pdu[..k + 1];
    assert data == [0x00] + tpdu[..k];
    DeliverLayout(first, address, pid, time, content, header);
    DataAnnounced(content, header);
    AddressOrCut(codec.alphabet, sender, pdu, 2, |data|);
    DeliverCut(codec, data, p);
    SmsRoundTrip.TpduIsPdu(codec, tpdu[..k]);
  }

  lemma SubmitCut(codec: Codec, data: seq<Byte>, p: nat)
    requires codec.Valid() && 2 <= |data| && data[0] == 0x00 && data[1] % 4 == 1
    requires |data| >= 3 ==>
               match AddressAt(codec.alphabet, data, 3)
               case Failure(e) => e == Truncated
               case Success((_, next)) =>
                 var q := p + 2 + D.ValidityOctets(data[1]);
                 next == p && (q < |data| ==> q + 1 + D.ExpectedOctets(data[p + 1], data[q]) > |data|)
    ensures D.PduOutcome(codec, data).1 == Some(Truncated)
  {
    hide AddressAt, D.TextOutcome, D.ElementsOf, D.ConcatIn, D.DeliverOutcome, D.StatusReportOutcome, D.ExpectedOctets,
         D.ValidityOctets;
  }

  /** So is a submitted unit. */
  lemma SubmitCutShort(codec: Codec, first: Byte, mr: Byte, to: Party, pid: Byte, validity: seq<Byte>, content: Content,
                       header: seq<Byte>, k: nat)
    requires codec.Valid() && first % 4 == 1 && ValidParty(codec.alphabet, to) && ValidityFits(first, validity)
    requires Fits(content, header) && (content.Gsm7Content? ==> content.septets != [])
    requires 0 < k < |SubmittedTpdu(first, mr, PartyOctets(codec.alphabet, to), pid, validity, content, header)|
    ensures D.Decoded(codec, SubmittedTpdu(first, mr, PartyOctets(codec.alphabet, to), pid, validity, content, header)[..k]).1
         == Some(Truncated)
  {
    hide AddressAt, D.PduOutcome, D.Decoded, PartyOctets, ValidParty, Fits, DataOctets, DataLength, CodingScheme,
         D.ExpectedOctets, SubmittedTpdu;
    var address := PartyOctets(codec.alphabet, to);
    var tpdu, p := SubmittedTpdu(first, mr, address, pid, validity, content, header), 3 + |address|;
    var pdu := [0x00] + tpdu;
    var data := pdu[..k + 1];
    assert data == [0x00] + tpdu[..k];
    SubmittedLayout(first, mr, address, pid, validity, content, header);
    DataAnnounced(content, header);
    assert D.ValidityOctets(first) == |validity|;
    if 3 <= |data| {
      AddressOrCut(codec.alphabet, to, pdu, 3, |data|);
    }
    SubmitCut(codec, data, p);
    SmsRoundTrip.TpduIsPdu(codec, tpdu[..k]);
  }

  lemma ReportCut(codec: Codec, data: seq<Byte>, p: nat)
    requires codec.Valid() && 2 <= |data| && data[0] == 0x00 && data[1] % 4 == 2
    requires |data| >= 3 ==>
               match AddressAt(codec.alphabet, data, 3)
               case Failure(e) => e == Truncated
               case Success((_, next)) => next == p && |data| < p + 15
    ensures D.PduOutcome(codec, data).1 == Some(Truncated)
  {
    hide AddressAt, D.DeliverOutcome, D.SubmitOutcome, SmsTime.TimeOf, D.StatusOf;
  }

  /** And a status report. */
  lemma ReportCutShort(codec: Codec, first: Byte, mr: Byte, to: Party, sent: seq<Byte>, done: seq<Byte>, status: Byte, k: nat)
    requires codec.Valid() && first % 4 == 2 && ValidParty(codec.alphabet, to) && |sent| == 7 && |done| == 7
    requires 0 < k < |ReportTpdu(first, mr, PartyOctets(codec.alphabet, to), sent, done, status, [])|
    ensures D.Decoded(codec, ReportTpdu(first, mr, PartyOctets(codec.alphabet, to), sent, done, status, [])[..k]).1
         == Some(Truncated)
  {
    hide AddressAt, D.PduOutcome, D.Decoded, PartyOctets, ValidParty;
    var address := PartyOctets(codec.alphabet, to);
    var tpdu, p := ReportTpdu(first, mr, address, sent, done, status, []), 3 + |address|;
    var pdu := [0x00] + tpdu;
    var data := pdu[..k + 1];
    assert data == [0x00] + tpdu[..k];
    ReportLayout(first, mr, address, sent, done, status, []);
    if 3 <= |data| {
      AddressOrCut(codec.alphabet, to, pdu, 3, |data|);
    }
    ReportCut(codec, data, p);
    SmsRoundTrip.TpduIsPdu(codec, tpdu[..k]);
  }

  // ---- Broken escapes ----

  /** An escape that ends the text or stands before a code outside the extension table, behind septets
      that are in order. */
  predicate BrokenAt(a: Gsm7.Alphabet, septets: seq<Byte>, k: nat)
    requires a.Valid()
  {
    && k < |septets| && septets[k] == Gsm7.ESCAPE && Gsm7.Decoded(a, septets[..k]).1
    && (k + 1 < |septets| ==> septets[k + 1] !in a.extensions)
  }

  /** Septets are at fault exactly when an escape is broken. */
  lemma {:induction false} FaultExactly(a: Gsm7.Alphabet, septets: seq<Byte>)
    requires a.Valid() && forall s :: s in septets ==> s < 128
    ensures Gsm7.Decoded(a, septets).1 <==> !exists k: nat :: BrokenAt(a, septets, k)
    decreases |septets|
  {
    if septets != [] {
      assert septets[0] in septets;
      if septets[0] == Gsm7.ESCAPE && (|septets| == 1 || septets[1] !in a.extensions) {
        assert BrokenAt(a, septets, 0);
      } else {
        var n := if septets[0] == Gsm7.ESCAPE then 2 else 1;
        assert forall s :: s in septets[n..] ==> s in septets;
        FaultExactly(a, septets[n..]);
        FaultMoves(a, septets, n);
      }
    }
  }

  lemma FaultMoves(a: Gsm7.Alphabet, septets: seq<Byte>, n: nat)
    requires a.Valid() && septets != [] && septets[0] < 128
    requires if septets[0] == Gsm7.ESCAPE then n == 2 <= |septets| && septets[1] in a.extensions else n == 1
    ensures (exists k: nat :: BrokenAt(a, septets, k)) <==> exists k: nat :: BrokenAt(a, septets[n..], k)
  {
    var rest := septets[n..];
    forall k: nat ensures BrokenAt(a, rest, k) <==> BrokenAt(a, septets, k + n) {
      if k <= |rest| {
        assert septets[..k + n][n..] == rest[..k];
      }
    }
    forall k: nat | BrokenAt(a, septets, k) ensures k >= n && BrokenAt(a, rest, k - n) {
      assert n == 2 ==> !Gsm7.Decoded(a, septets[..1]).1;
      assert k >= n ==> (BrokenAt(a, rest, k - n) <==> BrokenAt(a, septets, k - n + n));
    }
  }

  /** A delivered GSM 7-bit message is refused as text exactly when an escape in it is broken. */
  lemma BrokenTextRefused(codec: Codec, first: Byte, sender: Party, pid: Byte, time: seq<Byte>,
                          septets: seq<Byte>, header: seq<Byte>, concat: Option<ConcatInfo>)
    requires codec.Valid() && first % 4 == 0 && (first / 64 % 2 == 1 <==> header != [])
    requires ValidParty(codec.alphabet, sender) && |time| == 7
    requires septets != [] && forall s :: s in septets ==> s < 128
    requires SmsRoundTrip.IsPartHeader(header, concat) && Fits(Gsm7Content(septets), header)
    ensures var content := Gsm7Content(septets);
            D.Decoded(codec, DeliverTpdu(first, PartyOctets(codec.alphabet, sender), pid, time, content, header)).1
            == if exists k: nat :: BrokenAt(codec.alphabet, septets, k) then Some(InvalidText) else None
  {
    hide Gsm7.Decoded, D.Decoded, DeliverTpdu, PartyOctets, SmsRoundTrip.IsPartHeader, Fits, ValidParty, ReceivedFrom, BrokenAt;
    ReceivedSeptets(codec, first, sender, pid, time, septets, header, concat);
    FaultExactly(codec.alphabet, septets);
  }

  /** And a sender's name with one is refused as an address. */
  lemma BrokenNameRefused(a: Gsm7.Alphabet, septets: seq<Byte>, toa: Byte, data: seq<Byte>, at: nat)
    requires a.Valid() && septets != [] && forall s :: s in septets ==> s < 128
    requires SenderStandsAt(septets, toa, data, at)
    ensures AddressAt(a, data, at) == Failure(InvalidAddress) <==> exists k: nat :: BrokenAt(a, septets, k)
  {
    hide Gsm7.Decoded, BrokenAt;
    SenderExtentAt(septets, toa, data, at);
    UnpackInvertsPack(septets, 0, []);
    assert Overlay(Packed(septets, 0), []) == Packed(septets, 0);
    FaultExactly(a, septets);
  }

  // ---- Headers ----

  /** A header is refused exactly when the data, as long as announced, is empty or shorter than the
      header says it is. */
  lemma HeaderMustFit(codec: Codec, rest: seq<Byte>, first: Byte, dcs: Byte, length: Byte, m: Message)
    requires codec.Valid() && first / 64 % 2 == 1 && D.ExpectedOctets(dcs, length) <= |rest|
    ensures D.UserDataOutcome(codec, rest, first, dcs, length, m).1 == Some(InvalidHeader)
       <==> D.ExpectedOctets(dcs, length) == 0 || rest[0] >= D.ExpectedOctets(dcs, length)
  {
    hide D.ElementsOf, D.ConcatIn, D.Gsm7TextOf, D.DetectedText, D.UpperHex, D.ExpectedOctets;
  }

  // ---- Byte order marks ----

  function LittleEndian(units: seq<Utf16.Unit>): (r: seq<Byte>)
    ensures |r| == 2 * |units|
  {
    if units == [] then [] else [units[0] % 256, units[0] / 256] + LittleEndian(units[1..])
  }

  lemma {:induction false} LittleEndianRead(units: seq<Utf16.Unit>)
    ensures Utf16.Units(LittleEndian(units), true) == units
  {
    if units != [] {
      LittleEndianRead(units[1..]);
      assert LittleEndian(units)[2..] == LittleEndian(units[1..]);
      assert units == [units[0]] + units[1..];
    }
  }

  /** Octets in another or an unknown alphabet are text when a byte order mark says so, in either order,
      provided that they read well; the mark itself is no part of the text. */
  lemma MarkedDataIsText(codec: Codec, units: seq<Utf16.Unit>, little: bool, data: seq<Byte>, header: seq<Byte>,
                         headerOctets: nat, dcs: Byte, length: Byte, m: Message)
    requires codec.Valid() && headerOctets <= |data| && !D.PortsIn(D.ElementsOf(header))
    requires D.AlphabetOf(dcs) == D.EightBitAlphabet || D.AlphabetOf(dcs) == D.UnknownAlphabet
    requires data[headerOctets..] == if little then [0xff, 0xfe] + LittleEndian(units) else [0xfe, 0xff] + Utf16.Octets(units)
    requires Utf16.REPLACEMENT !in Utf16.Decode(units) && Utf16.Readable(codec.printable, Utf16.Decode(units))
    ensures D.TextOutcome(codec, data, header, headerOctets, dcs, length, m)
         == (m.(text := Utf16.Decode(units), encoding := Ucs2Pdu), None)
  {
    hide D.ElementsOf, D.PortsIn, Utf16.Decode, Utf16.Readable, D.AlphabetOf, Utf16.Units, Utf16.Octets, LittleEndian;
    var payload := data[headerOctets..];
    LittleEndianRead(units);
    Utf16.UnitsUndoOctets(units);
    assert payload[2..] == if little then LittleEndian(units) else Utf16.Octets(units);
    assert Utf16.DecodePayload(codec.printable, payload) == (Utf16.Decode(units), true);
  }

  // ---- What is accepted ----

  /** Whatever is decoded is one of the three units, behind a service centre's address of the stated
      length, and reported as what its first octet says. */
  lemma AcceptedIsOfAKind(codec: Codec, pdu: seq<Byte>)
    requires codec.Valid() && D.PduOutcome(codec, pdu).1.None?
    ensures |pdu| >= 2 && pdu[0] as int + 1 < |pdu|
    ensures var first, read := pdu[pdu[0] as int + 1], D.PduOutcome(codec, pdu).0.direction;
            && (first % 4 == 0 ==> read == Received)
            && (first % 4 == 1 ==> read == Submitted)
            && (first % 4 == 2 ==> read == StatusReport)
            && first % 4 != 3
  {
    hide D.SubmitOutcome, D.DeliverOutcome, D.StatusReportOutcome, D.ServiceCentreOf;
    var at := 1 + pdu[0] as int;
    var m := BLANK.(serviceCentre := D.ServiceCentreOf(pdu[1..at]));
    assert D.TpduOutcome(codec, pdu, at, m) == D.PduOutcome(codec, pdu);
    KindIsKept(codec, pdu, at + 1, pdu[at], m);
  }

  /** A bare unit likewise; nothing at all is no unit. */
  lemma AcceptedTpdu(codec: Codec, tpdu: seq<Byte>)
    requires codec.Valid() && D.Decoded(codec, tpdu).1.None?
    ensures tpdu != [] && tpdu[0] % 4 != 3
    ensures D.Decoded(codec, tpdu).0.direction == [Received, Submitted, StatusReport][tpdu[0] % 4]
  {
    hide D.PduOutcome;
    AcceptedIsOfAKind(codec, [0x00] + tpdu);
  }

  lemma KindIsKept(codec: Codec, data: seq<Byte>, at: nat, first: Byte, m: Message)
    requires codec.Valid()
    ensures D.DeliverOutcome(codec, data, at, first, m.(direction := Received)).0.direction == Received
    ensures D.SubmitOutcome(codec, data, at, first, m.(direction := Submitted)).0.direction == Submitted
    ensures D.StatusReportOutcome(codec, data, at, m.(direction := StatusReport)).0.direction == StatusReport
  {
    hide AddressAt, SmsTime.TimeOf, D.StatusOf, D.UserDataOutcome;
    forall rest, dcs: Byte, length: Byte, m': Message
      ensures D.UserDataOutcome(codec, rest, first, dcs, length, m').0.direction == m'.direction
    {
      DataKeepsKind(codec, rest, first, dcs, length, m');
    }
  }

  lemma DataKeepsKind(codec: Codec, rest: seq<Byte>, first: Byte, dcs: Byte, length: Byte, m: Message)
    requires codec.Valid()
    ensures D.UserDataOutcome(codec, rest, first, dcs, length, m).0.direction == m.direction
  {
    hide D.ElementsOf, D.ConcatIn, D.Gsm7TextOf, D.DetectedText, D.UpperHex, D.AlphabetOf;
  }

  /** The characters that neither print nor are line breaks or tabs. */
  function Odd(printable: char -> bool, text: string): string {
    if text == "" then ""
    else if printable(text[0]) || text[0] == '\n' || text[0] == '\r' || text[0] == '\t' then Odd(printable, text[1..])
    else [text[0]] + Odd(printable, text[1..])
  }

  lemma {:induction false} OddOrReadable(printable: char -> bool, text: string)
    ensures Utf16.CountReadable(printable, text) + |Odd(printable, text)| == |text|
  {
    if text != "" { OddOrReadable(printable, text[1..]); }
  }

  /** What is reported as UCS-2 text came in whole units, was not cut inside a character, and has at
      most one odd character in ten. */
  lemma Ucs2TextIsReadable(codec: Codec, data: seq<Byte>, header: seq<Byte>, headerOctets: nat, dcs: Byte, length: Byte,
                           m: Message)
    requires codec.Valid() && headerOctets <= |data|
    ensures var (read, error) := D.TextOutcome(codec, data, header, headerOctets, dcs, length, m);
            error.None? && read.encoding == Ucs2Pdu ==>
              && (|data| - headerOctets) % 2 == 0
              && Utf16.REPLACEMENT !in read.text
              && 10 * |Odd(codec.printable, read.text)| <= |read.text|
  {
    hide D.ElementsOf, D.PortsIn, D.AlphabetOf, Utf16.Units, Utf16.Decode, D.Gsm7TextOf, D.UpperHex, Odd;
    var payload := data[headerOctets..];
    var (text, ok) := Utf16.DecodePayload(codec.printable, payload);
    OddOrReadable(codec.printable, text);
    assert D.DetectedText(codec, payload, header).Some? && D.DetectedText(codec, payload, header).value.1 == Ucs2Pdu ==>
             ok && D.DetectedText(codec, payload, header).value.0 == text;
  }

  /** Nine characters in ten are enough. */
  lemma ReadableExactly(printable: char -> bool, text: string)
    ensures Utf16.Readable(printable, text) <==> 10 * |Odd(printable, text)| <= |text|
  {
    OddOrReadable(printable, text);
  }
}
