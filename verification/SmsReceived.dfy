/** What arrives is read back: delivered messages, submitted ones with a validity period, status
    reports, and any of them behind the number of a service centre. */
module SmsReceived {
  import opened Bits
  import opened Wrappers
  import opened SmsTypes
  import opened SmsAddress
  import opened SmsSubmit
  import opened SmsRoundTrip
  import opened Septets
  import D = SmsDecode
  import Gsm7
  import SmsTime
  import Utf16

  // ---- Addresses ----

  /** Who a message is from or to: septets of a name, with the type octet, or a number. */
  datatype Party = Name(septets: seq<Byte>, toa: Byte) | Number(number: string)

  predicate ValidParty(alphabet: Gsm7.Alphabet, party: Party)
    requires alphabet.Valid()
  {
    match party
    case Name(septets, toa) =>
      Gsm7.WholeCharacters(alphabet, septets) && (7 * |septets| + 3) / 4 < 256 && TypeOfNumber(toa) == 5
    case Number(number) => IsNumber(number)
  }

  function PartyText(alphabet: Gsm7.Alphabet, party: Party): string
    requires alphabet.Valid()
  {
    match party
    case Name(septets, _) => Gsm7.Decoded(alphabet, septets).0
    case Number(number) => number
  }

  ghost function PartyOctets(alphabet: Gsm7.Alphabet, party: Party): seq<Byte>
    requires alphabet.Valid() && ValidParty(alphabet, party)
  {
    match party
    case Name(septets, toa) => [(7 * |septets| + 3) / 4, toa] + Packed(septets, 0)
    case Number(number) => [|DigitsOf(number)|, TypeOfAddress(number)] + SemiOctets(DigitsOf(number))
  }

  /** An address is read wherever it stands. */
  lemma PartyRead(alphabet: Gsm7.Alphabet, party: Party, pdu: seq<Byte>, at: nat)
    requires alphabet.Valid() && ValidParty(alphabet, party)
    requires at + |PartyOctets(alphabet, party)| <= |pdu|
    requires pdu[at..at + |PartyOctets(alphabet, party)|] == PartyOctets(alphabet, party)
    ensures AddressAt(alphabet, pdu, at) == Success((PartyText(alphabet, party), at + |PartyOctets(alphabet, party)|))
  {
    hide Gsm7.Decoded, Gsm7.WholeCharacters, AddressAt, SemiOctets, AlphanumericExtent;
    var address := PartyOctets(alphabet, party);
    assert pdu[at..at + |address|][0] == pdu[at] && pdu[at..at + |address|][1] == pdu[at + 1];
    assert pdu[at + 2..at + |address|] == address[2..];
    match party {
      case Name(septets, toa) =>
        assert address[2..] == Packed(septets, 0);
        SenderRoundTrip(alphabet, septets, toa, pdu, at);
      case Number(number) =>
        assert address[2..] == SemiOctets(DigitsOf(number));
        NumberRead(alphabet, number, pdu, at);
    }
  }

  // ---- Delivered messages ----

  /** An SMS-DELIVER transfer unit (section 9.2.2.1). */
  ghost function DeliverTpdu(first: Byte, address: seq<Byte>, pid: Byte, time: seq<Byte>, content: Content,
                             header: seq<Byte>): seq<Byte> {
    [first] + address + [pid, CodingScheme(content)] + time + [DataLength(content, header) % 256]
    + DataOctets(content, header)
  }

  /** Where everything stands in the PDU of a received unit. */
  lemma DeliverLayout(first: Byte, address: seq<Byte>, pid: Byte, time: seq<Byte>, content: Content, header: seq<Byte>)
    requires |time| == 7
    ensures var pdu := [0x00] + DeliverTpdu(first, address, pid, time, content, header);
            var p := 2 + |address|;
            && |pdu| == p + 10 + |DataOctets(content, header)|
            && pdu[0] == 0x00 && pdu[1] == first && pdu[2..p] == address
            && pdu[p] == pid && pdu[p + 1] == CodingScheme(content)
            && pdu[p + 2..p + 9] == time && pdu[p + 9] == DataLength(content, header) % 256
            && pdu[p + 10..] == DataOctets(content, header)
  {
    hide DataOctets, CodingScheme, DataLength;
    var l: Byte := DataLength(content, header) % 256;
    var c: seq<Byte> := [pid, CodingScheme(content)];
    var d := DataOctets(content, header);
    var pdu := [0x00] + DeliverTpdu(first, address, pid, time, content, header);
    var middle := c + time + [l];
    assert pdu == [0x00, first] + address + middle + d;
    Slices([0x00, first], address, middle, d);
    var p := 2 + |address|;
    assert pdu[0] == pdu[..2][0] && pdu[1] == pdu[..2][1];
    assert pdu[p..p + 10] == middle;
    assert pdu[p] == middle[0] && pdu[p + 1] == middle[1] && pdu[p + 9] == middle[9];
    assert middle[2..9] == time;
    assert pdu[p + 2..p + 9] == pdu[p..p + 10][2..9];
  }

  /** The message a received unit announces before its user data is read. */
  function ReceivedFrom(alphabet: Gsm7.Alphabet, sender: Party, pid: Byte, time: seq<Byte>, content: Content): Message
    requires alphabet.Valid()
  {
    BLANK.(direction := Received, from := PartyText(alphabet, sender), protocolId := pid,
           codingScheme := CodingScheme(content), serviceCentreTime := SmsTime.TimeOf(time))
  }

  /** Any septets from a name or a number are read as far as they spell characters, and refused as text
      if they do not all do so; sender, identifiers, time and place among the parts are read in either
      case, whatever else the first octet says. */
  lemma ReceivedSeptets(codec: Codec, first: Byte, sender: Party, pid: Byte, time: seq<Byte>,
                        septets: seq<Byte>, header: seq<Byte>, concat: Option<ConcatInfo>)
    requires codec.Valid() && first % 4 == 0 && (first / 64 % 2 == 1 <==> header != [])
    requires ValidParty(codec.alphabet, sender) && |time| == 7
    requires septets != [] && forall s :: s in septets ==> s < 128
    requires IsPartHeader(header, concat) && Fits(Gsm7Content(septets), header)
    ensures var content := Gsm7Content(septets);
            var (text, ok) := Gsm7.Decoded(codec.alphabet, septets);
            D.Decoded(codec, DeliverTpdu(first, PartyOctets(codec.alphabet, sender), pid, time, content, header))
            == (ReceivedFrom(codec.alphabet, sender, pid, time, content).(
                  concat := concat, encoding := Gsm7Pdu, text := text), if ok then None else Some(InvalidText))
  {
    hide Gsm7.Decoded, Gsm7.WholeCharacters, DataOctets, DataLength, D.UserDataOutcome, D.Decoded, DeliverTpdu,
         PartyOctets, IsPartHeader, Fits, ValidParty, PartyText;
    var content := Gsm7Content(septets);
    var m := ReceivedFrom(codec.alphabet, sender, pid, time, content);
    ReceivedOutcome(codec, first, sender, pid, time, content, header);
    Gsm7DataOutcome(codec, septets, header, concat, m);
    OnlyHeaderBit(codec, DataOctets(content, header), first, header, CodingScheme(content),
                  DataLength(content, header) % 256, m);
  }

  /** So every GSM 7-bit message is read in full. */
  lemma ReceivedMessage(codec: Codec, first: Byte, sender: Party, pid: Byte, time: seq<Byte>,
                        septets: seq<Byte>, header: seq<Byte>, concat: Option<ConcatInfo>)
    requires codec.Valid() && first % 4 == 0 && (first / 64 % 2 == 1 <==> header != [])
    requires ValidParty(codec.alphabet, sender) && |time| == 7
    requires septets != [] && Gsm7.WholeCharacters(codec.alphabet, septets)
    requires IsPartHeader(header, concat) && Fits(Gsm7Content(septets), header)
    ensures var content := Gsm7Content(septets);
            D.Decoded(codec, DeliverTpdu(first, PartyOctets(codec.alphabet, sender), pid, time, content, header))
            == (ReceivedFrom(codec.alphabet, sender, pid, time, content).(
                  concat := concat, encoding := Gsm7Pdu, text := Gsm7.Decoded(codec.alphabet, septets).0), None)
  {
    hide Gsm7.Decoded, Gsm7.WholeCharacters, D.Decoded, DeliverTpdu, PartyOctets, IsPartHeader, Fits, ValidParty, ReceivedFrom;
    Gsm7.WholeCharactersSeparable(codec.alphabet, septets);
    Gsm7.DecodedAppend(codec.alphabet, septets, []);
    ReceivedSeptets(codec, first, sender, pid, time, septets, header, concat);
  }

  /** And every UCS-2 message whose segment survives; any other is refused, reported in another
      encoding, or shorter. */
  lemma ReceivedUcs2Message(codec: Codec, first: Byte, sender: Party, pid: Byte, time: seq<Byte>,
                            units: seq<Utf16.Unit>, header: seq<Byte>, concat: Option<ConcatInfo>)
    requires codec.Valid() && first % 4 == 0 && (first / 64 % 2 == 1 <==> header != [])
    requires ValidParty(codec.alphabet, sender) && |time| == 7
    requires units != [] && IsPartHeader(header, concat) && Fits(Ucs2Content(Utf16.Octets(units)), header)
    ensures var content := Ucs2Content(Utf16.Octets(units));
            var (read, error) :=
              D.Decoded(codec, DeliverTpdu(first, PartyOctets(codec.alphabet, sender), pid, time, content, header));
            if Utf16.Survives(codec.printable, units) then
              error.None? && read == ReceivedFrom(codec.alphabet, sender, pid, time, content).(
                                       concat := concat, encoding := Ucs2Pdu, text := Utf16.Decode(units))
            else error.Some? || read.encoding != Ucs2Pdu || |Utf16.Encode(read.text)| < |units|
  {
    hide DataOctets, DataLength, D.UserDataOutcome, D.Decoded, DeliverTpdu, PartyOctets, IsPartHeader, Fits, ValidParty,
         PartyText, Utf16.Octets, Utf16.Survives, Utf16.Decode, Utf16.Encode, FirstOctet, SmsTime.TimeOf;
    var content := Ucs2Content(Utf16.Octets(units));
    var m := ReceivedFrom(codec.alphabet, sender, pid, time, content);
    ReceivedOutcome(codec, first, sender, pid, time, content, header);
    Ucs2DataRoundTrip(codec, units, header, concat, m);
    OnlyHeaderBit(codec, DataOctets(content, header), first, header, CodingScheme(content),
                  DataLength(content, header) % 256, m);
  }

  lemma ReceivedOutcome(codec: Codec, first: Byte, sender: Party, pid: Byte, time: seq<Byte>, content: Content,
                        header: seq<Byte>)
    requires codec.Valid() && first % 4 == 0 && ValidParty(codec.alphabet, sender) && |time| == 7
    ensures D.Decoded(codec, DeliverTpdu(first, PartyOctets(codec.alphabet, sender), pid, time, content, header))
         == D.UserDataOutcome(codec, DataOctets(content, header), first, CodingScheme(content),
                              DataLength(content, header) % 256,
                              ReceivedFrom(codec.alphabet, sender, pid, time, content))
  {
    hide DataOctets, DataLength, CodingScheme, D.UserDataOutcome, D.Decoded, AddressAt, DeliverTpdu, PartyOctets,
         PartyText, ValidParty, D.PduOutcome, SmsTime.TimeOf;
    var address := PartyOctets(codec.alphabet, sender);
    var tpdu := DeliverTpdu(first, address, pid, time, content, header);
    DeliverLayout(first, address, pid, time, content, header);
    PartyRead(codec.alphabet, sender, [0x00] + tpdu, 2);
    DeliverReaches(codec, [0x00] + tpdu, 2 + |address|, ReceivedFrom(codec.alphabet, sender, pid, time, content));
    TpduIsPdu(codec, tpdu);
  }

  /** A received PDU whose sender is read comes down to its user data. */
  lemma DeliverReaches(codec: Codec, pdu: seq<Byte>, p: nat, m: Message)
    requires codec.Valid() && 2 <= p && p + 10 <= |pdu| && pdu[0] == 0x00 && pdu[1] % 4 == 0
    requires AddressAt(codec.alphabet, pdu, 2) == Success((m.from, p))
    requires m == BLANK.(direction := Received, from := m.from, protocolId := pdu[p], codingScheme := pdu[p + 1],
                         serviceCentreTime := SmsTime.TimeOf(pdu[p + 2..p + 9]))
    ensures D.PduOutcome(codec, pdu) == D.UserDataOutcome(codec, pdu[p + 10..], pdu[1], pdu[p + 1], pdu[p + 9], m)
  {
    hide AddressAt, D.UserDataOutcome, D.SubmitOutcome, D.StatusReportOutcome, NumericAddress, SmsTime.TimeOf;
    assert D.ServiceCentreOf(pdu[1..1]) == "";
  }

  /** Of the first octet only the header bit matters to the user data. */
  lemma OnlyHeaderBit(codec: Codec, data: seq<Byte>, first: Byte, header: seq<Byte>, dcs: Byte, length: Byte, m: Message)
    requires codec.Valid() && (first / 64 % 2 == 1 <==> header != [])
    ensures D.UserDataOutcome(codec, data, first, dcs, length, m)
         == D.UserDataOutcome(codec, data, FirstOctet(header), dcs, length, m)
  {
    hide D.TextOutcome, D.ElementsOf, D.ConcatIn, D.ExpectedOctets;
  }

  // ---- Submitted messages with a validity period ----

  /** An SMS-SUBMIT transfer unit (section 9.2.2.2) as any sender may build it. */
  ghost function SubmittedTpdu(first: Byte, mr: Byte, address: seq<Byte>, pid: Byte, validity: seq<Byte>, content: Content,
                               header: seq<Byte>): seq<Byte> {
    [first, mr] + address + [pid, CodingScheme(content)] + validity + [DataLength(content, header) % 256]
    + DataOctets(content, header)
  }

  /** The validity period takes no octet, seven, one or seven for the four formats in bits 3 and 4. */
  predicate ValidityFits(first: Byte, validity: seq<Byte>) {
    |validity| == [0, 7, 1, 7][first / 8 % 4]
  }

  lemma SubmittedLayout(first: Byte, mr: Byte, address: seq<Byte>, pid: Byte, validity: seq<Byte>, content: Content,
                        header: seq<Byte>)
    ensures var pdu := [0x00] + SubmittedTpdu(first, mr, address, pid, validity, content, header);
            var p, v := 3 + |address|, |validity|;
            && |pdu| == p + 3 + v + |DataOctets(content, header)|
            && pdu[0] == 0x00 && pdu[1] == first && pdu[2] == mr && pdu[3..p] == address
            && pdu[p] == pid && pdu[p + 1] == CodingScheme(content) && pdu[p + 2 + v] == DataLength(content, header) % 256
            && pdu[p + 3 + v..] == DataOctets(content, header)
  {
    hide DataOctets, CodingScheme, DataLength;
    var l: Byte := DataLength(content, header) % 256;
    var c: seq<Byte> := [pid, CodingScheme(content)];
    var d := DataOctets(content, header);
    var pdu := [0x00] + SubmittedTpdu(first, mr, address, pid, validity, content, header);
    var middle := c + validity + [l];
    assert pdu == [0x00, first, mr] + address + middle + d;
    Slices([0x00, first, mr], address, middle, d);
    var p := 3 + |address|;
    assert pdu[0] == pdu[..3][0] && pdu[1] == pdu[..3][1] && pdu[2] == pdu[..3][2];
    assert pdu[p..p + |middle|] == middle;
    assert pdu[p] == middle[0] && pdu[p + 1] == middle[1] && pdu[p + |middle| - 1] == middle[|middle| - 1];
  }

  /** Every GSM 7-bit SMS-SUBMIT unit is read in full, whatever its validity period. */
  lemma SubmittedMessage(codec: Codec, first: Byte, mr: Byte, to: Party, pid: Byte, validity: seq<Byte>,
                         septets: seq<Byte>, header: seq<Byte>, concat: Option<ConcatInfo>)
    requires codec.Valid() && first % 4 == 1 && (first / 64 % 2 == 1 <==> header != [])
    requires ValidParty(codec.alphabet, to) && ValidityFits(first, validity)
    requires septets != [] && Gsm7.WholeCharacters(codec.alphabet, septets)
    requires IsPartHeader(header, concat) && Fits(Gsm7Content(septets), header)
    ensures D.Decoded(codec, SubmittedTpdu(first, mr, PartyOctets(codec.alphabet, to), pid, validity, Gsm7Content(septets), header))
         == (BLANK.(direction := Submitted, reference := Some(mr), to := PartyText(codec.alphabet, to), protocolId := pid,
                    concat := concat, encoding := Gsm7Pdu, text := Gsm7.Decoded(codec.alphabet, septets).0), None)
  {
    hide Gsm7.Decoded, Gsm7.WholeCharacters, DataOctets, DataLength, D.UserDataOutcome, D.Decoded, D.PduOutcome,
         SubmittedTpdu, PartyOctets, IsPartHeader, Fits, ValidParty, PartyText, AddressAt;
    var content, address := Gsm7Content(septets), PartyOctets(codec.alphabet, to);
    var tpdu := SubmittedTpdu(first, mr, address, pid, validity, content, header);
    var m := BLANK.(direction := Submitted, reference := Some(mr), to := PartyText(codec.alphabet, to), protocolId := pid);
    SubmittedLayout(first, mr, address, pid, validity, content, header);
    PartyRead(codec.alphabet, to, [0x00] + tpdu, 3);
    SubmitReaches(codec, [0x00] + tpdu, 3 + |address|, |validity|, m);
    TpduIsPdu(codec, tpdu);
    Gsm7DataRoundTrip(codec, septets, header, concat, m);
    OnlyHeaderBit(codec, DataOctets(content, header), first, header, 0x00, DataLength(content, header) % 256, m);
  }

  // ---- Status reports ----

  /** An SMS-STATUS-REPORT transfer unit (section 9.2.2.3), with whatever optional octets follow. */
  ghost function ReportTpdu(first: Byte, mr: Byte, address: seq<Byte>, sent: seq<Byte>, done: seq<Byte>, status: Byte,
                            rest: seq<Byte>): seq<Byte> {
    [first, mr] + address + sent + done + [status] + rest
  }

  lemma ReportLayout(first: Byte, mr: Byte, address: seq<Byte>, sent: seq<Byte>, done: seq<Byte>, status: Byte, rest: seq<Byte>)
    requires |sent| == 7 && |done| == 7
    ensures var pdu := [0x00] + ReportTpdu(first, mr, address, sent, done, status, rest);
            var p := 3 + |address|;
            && p + 15 <= |pdu|
            && pdu[0] == 0x00 && pdu[1] == first && pdu[2] == mr && pdu[3..p] == address
            && pdu[p..p + 7] == sent && pdu[p + 7..p + 14] == done && pdu[p + 14] == status
  {
    var pdu := [0x00] + ReportTpdu(first, mr, address, sent, done, status, rest);
    var tail := [status] + rest;
    assert pdu == [0x00, first, mr] + address + (sent + done) + tail;
    Slices([0x00, first, mr], address, sent + done, tail);
    var p := 3 + |address|;
    assert pdu[0] == pdu[..3][0] && pdu[1] == pdu[..3][1] && pdu[2] == pdu[..3][2];
    assert (sent + done)[..7] == sent && (sent + done)[7..] == done;
    assert pdu[p..p + 14][..7] == pdu[p..p + 7] && pdu[p..p + 14][7..] == pdu[p + 7..p + 14];
    assert pdu[p + 14] == pdu[p + 14..][0];
  }

  /** The outcome a status octet reports (section 9.2.3.15). */
  predicate Reports(status: Byte, outcome: DeliveryStatus) {
    match outcome
    case Delivered => status < 0x20
    case TemporaryError => 0x20 <= status < 0x40
    case PermanentError => 0x40 <= status < 0x60
    case TemporaryErrorNoRetry => 0x60 <= status < 0x80
    case ReservedStatus => 0x80 <= status
  }

  /** Every status report is read in full: which message, to whom, when it was handed over, when it was
      discharged, and with what outcome. */
  lemma StatusReportRead(codec: Codec, first: Byte, mr: Byte, to: Party, sent: SmsTime.Timestamp, done: SmsTime.Timestamp,
                         status: Byte, outcome: DeliveryStatus, rest: seq<Byte>)
    requires codec.Valid() && first % 4 == 2 && ValidParty(codec.alphabet, to)
    requires SmsTime.Expressible(sent) && SmsTime.Expressible(done) && Reports(status, outcome)
    ensures D.Decoded(codec, ReportTpdu(first, mr, PartyOctets(codec.alphabet, to), SmsTime.Stamp(sent), SmsTime.Stamp(done),
                                        status, rest))
         == (BLANK.(direction := StatusReport, reference := Some(mr), to := PartyText(codec.alphabet, to),
                    serviceCentreTime := Some(sent), dischargeTime := Some(done), status := Some(status),
                    deliveryStatus := Some(outcome)), None)
  {
    hide D.Decoded, D.PduOutcome, ReportTpdu, PartyOctets, ValidParty, PartyText, AddressAt, SmsTime.TimeOf, SmsTime.Stamp,
         SmsTime.Expressible, D.StatusOf, Reports;
    var address := PartyOctets(codec.alphabet, to);
    var octets, times := SmsTime.Stamp(sent), SmsTime.Stamp(done);
    StampLength(sent);
    StampLength(done);
    var tpdu := ReportTpdu(first, mr, address, octets, times, status, rest);
    ReportLayout(first, mr, address, octets, times, status, rest);
    PartyRead(codec.alphabet, to, [0x00] + tpdu, 3);
    SmsTime.TimestampRoundTrip(sent);
    SmsTime.TimestampRoundTrip(done);
    StatusReported(status, outcome);
    ReportReaches(codec, [0x00] + tpdu, 3 + |address|, PartyText(codec.alphabet, to));
    TpduIsPdu(codec, tpdu);
  }

  lemma StampLength(t: SmsTime.Timestamp)
    requires SmsTime.Expressible(t)
    ensures |SmsTime.Stamp(t)| == 7
  {
  }

  lemma StatusReported(status: Byte, outcome: DeliveryStatus)
    requires Reports(status, outcome)
    ensures D.StatusOf(status) == outcome
  {
  }

  lemma ReportReaches(codec: Codec, pdu: seq<Byte>, p: nat, to: string)
    requires codec.Valid() && 3 <= p && p + 15 <= |pdu| && pdu[0] == 0x00 && pdu[1] % 4 == 2
    requires AddressAt(codec.alphabet, pdu, 3) == Success((to, p))
    ensures D.PduOutcome(codec, pdu)
         == (BLANK.(direction := StatusReport, reference := Some(pdu[2]), to := to,
                    serviceCentreTime := SmsTime.TimeOf(pdu[p..p + 7]), dischargeTime := SmsTime.TimeOf(pdu[p + 7..p + 14]),
                    status := Some(pdu[p + 14]), deliveryStatus := Some(D.StatusOf(pdu[p + 14]))), None)
  {
    hide AddressAt, D.SubmitOutcome, D.DeliverOutcome, NumericAddress, SmsTime.TimeOf, D.StatusOf;
    assert D.ServiceCentreOf(pdu[1..1]) == "";
  }

  // ---- Service centres ----

  /** The number of the service centre is read from in front of any unit, whatever becomes of the unit. */
  lemma ServiceCentreRead(codec: Codec, number: string, tpdu: seq<Byte>)
    requires codec.Valid() && IsNumber(number)
    ensures var octets := [TypeOfAddress(number)] + SemiOctets(DigitsOf(number));
            D.PduOutcome(codec, [|octets|] + octets + tpdu).0.serviceCentre == number
  {
    hide NumericAddress, SemiOctets, D.TpduOutcome;
    var digits := SemiOctets(DigitsOf(number));
    var octets := [TypeOfAddress(number)] + digits;
    var pdu := [|octets|] + octets + tpdu;
    var at := 1 + |octets|;
    assert pdu[0] == |octets| && pdu[1..at] == octets && octets[1..] == digits;
    NumberReadFromAll(number);
    assert D.ServiceCentreOf(pdu[1..at]) == number;
    UnitKeepsCentre(codec, pdu, at, BLANK.(serviceCentre := number));
  }

  lemma UnitKeepsCentre(codec: Codec, data: seq<Byte>, at: nat, m: Message)
    requires codec.Valid()
    ensures D.TpduOutcome(codec, data, at, m).0.serviceCentre == m.serviceCentre
  {
    hide AddressAt, D.UserDataOutcome, SmsTime.TimeOf, D.StatusOf, D.SubmitOutcome, D.DeliverOutcome;
    if at < |data| {
      SubmitKeepsCentre(codec, data, at + 1, data[at], m.(direction := Submitted));
      DeliverKeepsCentre(codec, data, at + 1, data[at], m.(direction := Received));
    }
  }

  lemma SubmitKeepsCentre(codec: Codec, data: seq<Byte>, at: nat, first: Byte, m: Message)
    requires codec.Valid()
    ensures D.SubmitOutcome(codec, data, at, first, m).0.serviceCentre == m.serviceCentre
  {
    hide AddressAt, D.UserDataOutcome;
    forall rest, dcs: Byte, length: Byte, m': Message
      ensures D.UserDataOutcome(codec, rest, first, dcs, length, m').0.serviceCentre == m'.serviceCentre
    {
      DataKeepsCentre(codec, rest, first, dcs, length, m');
    }
  }

  lemma DeliverKeepsCentre(codec: Codec, data: seq<Byte>, at: nat, first: Byte, m: Message)
    requires codec.Valid()
    ensures D.DeliverOutcome(codec, data, at, first, m).0.serviceCentre == m.serviceCentre
  {
    hide AddressAt, D.UserDataOutcome, SmsTime.TimeOf;
    forall rest, dcs: Byte, length: Byte, m': Message
      ensures D.UserDataOutcome(codec, rest, first, dcs, length, m').0.serviceCentre == m'.serviceCentre
    {
      DataKeepsCentre(codec, rest, first, dcs, length, m');
    }
  }

  lemma DataKeepsCentre(codec: Codec, rest: seq<Byte>, first: Byte, dcs: Byte, length: Byte, m: Message)
    requires codec.Valid()
    ensures D.UserDataOutcome(codec, rest, first, dcs, length, m).0.serviceCentre == m.serviceCentre
  {
    hide D.ElementsOf, D.ConcatIn, D.Gsm7TextOf, D.DetectedText, D.UpperHex, D.AlphabetOf;
  }
}
