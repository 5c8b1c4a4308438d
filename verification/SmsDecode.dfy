/** Decoding service-centre PDUs and bare TPDUs: SMS-DELIVER, SMS-SUBMIT and
    SMS-STATUS-REPORT (3GPP TS 23.040 sections 9.2.2 and 9.2.3.24, TS 23.038 section 4). */
module SmsDecode {
  import opened Bits
  import opened Wrappers
  import opened SmsTypes
  import opened SmsAddress
  import SmsTime
  import opened Septets
  import Gsm7
  import Utf16

  // ---- The user data header as a list of information elements ----

  datatype Elements = End | Broken | Element(id: Byte, value: seq<Byte>, rest: Elements)

  /** A header is read element by element; an element longer than what is left breaks
      it, and a last lone octet is ignored. */
  function ElementsOf(header: seq<Byte>): Elements
    decreases |header|
  {
    if |header| < 2 then End
    else
      var next := 2 + header[1] as int;
      if next > |header| then Broken
      else Element(header[0], header[2..next], ElementsOf(header[next..]))
  }

  /** The first concatenation element, with an 8-bit or a 16-bit reference. */
  function ConcatIn(elements: Elements): Option<ConcatInfo> {
    match elements
    case End => None
    case Broken => None
    case Element(id, v, rest) =>
      if id == 0x00 && |v| == 3 then Some(ConcatInfo(v[0], v[1], v[2]))
      else if id == 0x08 && |v| == 4 then Some(ConcatInfo(v[0] as int * 256 + v[1] as int, v[2], v[3]))
      else ConcatIn(rest)
  }

  /** The national language a header asks for under an identifier. */
  function LanguageIn(elements: Elements, identifier: Byte): Option<Byte> {
    match elements
    case End => None
    case Broken => None
    case Element(id, v, rest) =>
      if id == identifier && |v| == 1 then Some(v[0]) else LanguageIn(rest, identifier)
  }

  /** Application port addressing, which a broken header is also taken to have. */
  predicate PortsIn(elements: Elements) {
    match elements
    case End => false
    case Broken => true
    case Element(id, v, rest) => (id == 0x04 && |v| == 2) || (id == 0x05 && |v| == 4) || PortsIn(rest)
  }

  method ParseConcatHeader(header: seq<Byte>) returns (r: Option<ConcatInfo>)
    ensures r == ConcatIn(ElementsOf(header))
  {
    hide ElementsOf;
    var index := 0;
    assert header[0..] == header;
    while index + 1 < |header|
      invariant 0 <= index <= |header|
      invariant ConcatIn(ElementsOf(header[index..])) == ConcatIn(ElementsOf(header))
      decreases |header| - index
    {
      var identifier := header[index];
      var length: int := header[index + 1];
      ElementAt(header, index);
      index := index + 2;
      if index + length > |header| {
        return None;
      }
      var value := header[index..index + length];
      if identifier == 0x00 && length == 3 {
        return Some(ConcatInfo(value[0], value[1], value[2]));
      } else if identifier == 0x08 && length == 4 {
        return Some(ConcatInfo(value[0] as int * 256 + value[1] as int, value[2], value[3]));
      }
      index := index + length;
    }
    ElementsEnd(header, index);
    return None;
  }

  lemma ElementAt(header: seq<Byte>, index: nat)
    requires index + 2 <= |header|
    ensures var length: int := header[index + 1];
            ElementsOf(header[index..]) ==
              if index + 2 + length > |header| then Broken
              else Element(header[index], header[index + 2..index + 2 + length], ElementsOf(header[index + 2 + length..]))
  {
    var rest := header[index..];
    var next := 2 + rest[1] as int;
    if next <= |rest| {
      assert rest[2..next] == header[index + 2..index + next] && rest[next..] == header[index + next..];
    }
  }

  lemma ElementsEnd(header: seq<Byte>, index: nat)
    requires index <= |header| < index + 2
    ensures ElementsOf(header[index..]) == End
  {
  }

  method UserDataHeaderLanguage(header: seq<Byte>, identifier: Byte) returns (r: Option<Byte>)
    ensures r == LanguageIn(ElementsOf(header), identifier)
  {
    hide ElementsOf;
    var index := 0;
    assert header[0..] == header;
    while index + 1 < |header|
      invariant 0 <= index <= |header|
      invariant LanguageIn(ElementsOf(header[index..]), identifier) == LanguageIn(ElementsOf(header), identifier)
      decreases |header| - index
    {
      var id := header[index];
      var length: int := header[index + 1];
      ElementAt(header, index);
      index := index + 2;
      if index + length > |header| {
        return None;
      }
      if id == identifier && length == 1 {
        return Some(header[index]);
      }
      index := index + length;
    }
    ElementsEnd(header, index);
    return None;
  }

  method HasApplicationPortAddressing(header: seq<Byte>) returns (r: bool)
    ensures r == PortsIn(ElementsOf(header))
  {
    hide ElementsOf;
    var index := 0;
    assert header[0..] == header;
    while index + 1 < |header|
      invariant 0 <= index <= |header|
      invariant PortsIn(ElementsOf(header[index..])) == PortsIn(ElementsOf(header))
      decreases |header| - index
    {
      var identifier := header[index];
      var length: int := header[index + 1];
      ElementAt(header, index);
      index := index + 2;
      if index + length > |header| {
        return true;
      }
      if (identifier == 0x04 && length == 2) || (identifier == 0x05 && length == 4) {
        return true;
      }
      index := index + length;
    }
    ElementsEnd(header, index);
    return false;
  }

  // ---- User data ----

  datatype SmsAlphabet = Gsm7Alphabet | EightBitAlphabet | Ucs2Alphabet | UnknownAlphabet

  /** The coding groups of TS 23.038 section 4. */
  function AlphabetOf(dcs: Byte): SmsAlphabet {
    if dcs < 0x80 then
      if dcs / 0x20 % 2 == 1 then UnknownAlphabet
      else match dcs / 4 % 4
        case 0 => Gsm7Alphabet
        case 1 => EightBitAlphabet
        case 2 => Ucs2Alphabet
        case _ => UnknownAlphabet
    else if 0xc0 <= dcs < 0xe0 then Gsm7Alphabet
    else if 0xe0 <= dcs < 0xf0 then Ucs2Alphabet
    else if 0xf0 <= dcs then if dcs / 4 % 2 == 1 then EightBitAlphabet else Gsm7Alphabet
    else UnknownAlphabet
  }

  /** Octets that user data of stated length takes. */
  function ExpectedOctets(dcs: Byte, length: nat): nat {
    if AlphabetOf(dcs) == Gsm7Alphabet then (length * 7 + 7) / 8 else length
  }

  /** firstOctet & 0x40: a user data header is present. */
  predicate HasHeader(firstOctet: Byte) {
    firstOctet / 0x40 % 2 == 1
  }

  /** GSM 7-bit text in the alphabet the header selects. */
  function Gsm7TextOf(codec: Codec, septets: seq<Byte>, header: seq<Byte>): (string, bool)
    requires codec.alphabet.Valid()
  {
    var locking, shift := LanguageIn(ElementsOf(header), 0x25), LanguageIn(ElementsOf(header), 0x24);
    if locking.None? && shift.None? then Gsm7.Decoded(codec.alphabet, septets)
    else codec.national(septets, locking, shift)
  }

  method DecodeGsm7WithHeader(codec: Codec, septets: seq<Byte>, header: seq<Byte>) returns (text: string, ok: bool)
    requires codec.alphabet.Valid()
    ensures (text, ok) == Gsm7TextOf(codec, septets, header)
  {
    var locking := UserDataHeaderLanguage(header, 0x25);
    var shift := UserDataHeaderLanguage(header, 0x24);
    if locking.None? && shift.None? {
      text, ok := Gsm7.DecodeGsm7(codec.alphabet, septets);
    } else {
      var decoded := codec.national(septets, locking, shift);
      text, ok := decoded.0, decoded.1;
    }
  }

  /** Text found in octets of another or unknown character set. */
  function DetectedText(codec: Codec, payload: seq<Byte>, header: seq<Byte>): Option<(string, Encoding)> {
    if PortsIn(ElementsOf(header)) || payload == [] then None
    else if ByteOrderMark(payload) && Utf16.DecodePayload(codec.printable, payload).1 then
      Some((Utf16.DecodePayload(codec.printable, payload).0, Ucs2Pdu))
    else match codec.detect(payload)
      case None => None
      case Some((text, charset)) => Some((text, Detected(charset)))
  }

  predicate ByteOrderMark(payload: seq<Byte>) {
    |payload| >= 2 && ((payload[0] == 0xfe && payload[1] == 0xff) || (payload[0] == 0xff && payload[1] == 0xfe))
  }

  method DecodeTextBytes(codec: Codec, payload: seq<Byte>, header: seq<Byte>) returns (r: Option<(string, Encoding)>)
    ensures r == DetectedText(codec, payload, header)
  {
    var ports := HasApplicationPortAddressing(header);
    if ports || |payload| == 0 {
      return None;
    }
    if ByteOrderMark(payload) {
      var text, ok := Utf16.DecodeUtf16Bytes(codec.printable, payload);
      if ok {
        return Some((text, Ucs2Pdu));
      }
    }
    match codec.detect(payload) {
      case None => return None;
      case Some(found) => return Some((found.0, Detected(found.1)));
    }
  }

  function UpperHex(data: seq<Byte>): string {
    if data == [] then "" else [HexDigit(data[0] / 16), HexDigit(data[0] % 16)] + UpperHex(data[1..])
  }

  function HexDigit(d: Byte): char
    requires d < 16
  {
    "0123456789ABCDEF"[d]
  }

  /** The result of a decoding step: the message so far and the fault that stopped it, if any. */
  type Outcome = (Message, Option<SmsError>)

  ghost function UserDataOutcome(codec: Codec, rest: seq<Byte>, firstOctet: Byte, dcs: Byte, length: Byte, m: Message): Outcome
    requires codec.alphabet.Valid()
  {
    var expected := ExpectedOctets(dcs, length);
    if expected > |rest| then (m, Some(Truncated))
    else
      var data := rest[..expected];
      if !HasHeader(firstOctet) then TextOutcome(codec, data, [], 0, dcs, length, m)
      else if data == [] || data[0] as int + 1 > |data| then (m, Some(InvalidHeader))
      else
        var headerOctets := data[0] as int + 1;
        var header := data[1..headerOctets];
        TextOutcome(codec, data, header, headerOctets, dcs, length, m.(concat := ConcatIn(ElementsOf(header))))
  }

  ghost function TextOutcome(codec: Codec, data: seq<Byte>, header: seq<Byte>, headerOctets: nat, dcs: Byte, length: Byte,
                             m: Message): Outcome
    requires codec.alphabet.Valid() && headerOctets <= |data|
  {
    match AlphabetOf(dcs)
    case Gsm7Alphabet =>
      var m := m.(encoding := Gsm7Pdu);
      var headerSeptets := (headerOctets * 8 + 6) / 7;
      if length as int < headerSeptets || length as int * 7 > |data| * 8 then (m, Some(Truncated))
      else
        var (text, ok) := Gsm7TextOf(codec, Unpacked(data, length as int - headerSeptets, headerSeptets * 7), header);
        (m.(text := text), if ok then None else Some(InvalidText))
    case Ucs2Alphabet =>
      var payload := data[headerOctets..];
      var m := m.(encoding := Ucs2Pdu);
      var (text, ok) := Utf16.DecodePayload(codec.printable, payload);
      if ok then (m.(text := text), None)
      else (match DetectedText(codec, payload, header)
        case Some((text, encoding)) => (m.(text := text, encoding := encoding), None)
        case None => (m, Some(InvalidText)))
    case _ =>
      var payload := data[headerOctets..];
      match DetectedText(codec, payload, header)
      case Some((text, encoding)) => (m.(text := text, encoding := encoding), None)
      case None => (m.(encoding := EightBitPdu, text := UpperHex(payload)), None)
  }

  method DecodeUserData(codec: Codec, rest: seq<Byte>, firstOctet: Byte, dcs: Byte, length: Byte, message: Message)
    returns (m: Message, error: Option<SmsError>)
    requires codec.alphabet.Valid()
    ensures (m, error) == UserDataOutcome(codec, rest, firstOctet, dcs, length, message)
  {
    m := message;
    var alphabet := AlphabetOf(dcs);
    var expectedOctets: int := length;
    if alphabet == Gsm7Alphabet {
      expectedOctets := (length as int * 7 + 7) / 8;
    }
    if expectedOctets > |rest| {
      return m, Some(Truncated);
    }
    var data := rest[..expectedOctets];
    var headerOctets := 0;
    var header: seq<Byte> := [];
    if HasHeader(firstOctet) {
      if |data| == 0 {
        return m, Some(InvalidHeader);
      }
      headerOctets := data[0] as int + 1;
      if headerOctets > |data| {
        return m, Some(InvalidHeader);
      }
      header := data[1..headerOctets];
      var concat := ParseConcatHeader(header);
      m := m.(concat := concat);
    }
    m, error := DecodeText(codec, data, header, headerOctets, dcs, length, m);
  }

  /** The switch on the alphabet. */
  method DecodeText(codec: Codec, data: seq<Byte>, header: seq<Byte>, headerOctets: nat, dcs: Byte, length: Byte,
                    message: Message)
    returns (m: Message, error: Option<SmsError>)
    requires codec.alphabet.Valid() && headerOctets <= |data|
    ensures (m, error) == TextOutcome(codec, data, header, headerOctets, dcs, length, message)
  {
    m := message;
    match AlphabetOf(dcs) {
      case Gsm7Alphabet =>
        m := m.(encoding := Gsm7Pdu);
        var headerSeptets := 0;
        if headerOctets > 0 {
          headerSeptets := (headerOctets * 8 + 6) / 7;
        }
        var textSeptets := length as int - headerSeptets;
        var septets := UnpackSeptets(data, textSeptets, headerSeptets * 7);
        if septets.None? {
          return m, Some(Truncated);
        }
        var text, ok := DecodeGsm7WithHeader(codec, septets.value, header);
        m := m.(text := text);
        return m, if ok then None else Some(InvalidText);
      case Ucs2Alphabet =>
        m := m.(encoding := Ucs2Pdu);
        var payload := data[headerOctets..];
        var text, ok := Utf16.DecodeUtf16Bytes(codec.printable, payload);
        if ok {
          return m.(text := text), None;
        }
        var detected := DecodeTextBytes(codec, payload, header);
        match detected {
          case Some(found) => return m.(text := found.0, encoding := found.1), None;
          case None => return m, Some(InvalidText);
        }
      case _ =>
        var payload := data[headerOctets..];
        var detected := DecodeTextBytes(codec, payload, header);
        match detected {
          case Some(found) => return m.(text := found.0, encoding := found.1), None;
          case None => return m.(encoding := EightBitPdu, text := UpperHex(payload)), None;
        }
    }
  }

  // ---- Transfer units ----

  /** Octets of the validity period that a SUBMIT's first octet announces. */
  function ValidityOctets(firstOctet: Byte): nat {
    match firstOctet / 8 % 4
    case 0 => 0
    case 2 => 1
    case _ => 7
  }

  /** SMS-SUBMIT from the octet after its first. */
  ghost function SubmitOutcome(codec: Codec, data: seq<Byte>, at: nat, firstOctet: Byte, m: Message): Outcome
    requires codec.alphabet.Valid()
  {
    if at >= |data| then (m, Some(Truncated))
    else
      var m := m.(reference := Some(data[at]));
      match AddressAt(codec.alphabet, data, at + 1)
      case Failure(e) => (m, Some(e))
      case Success((address, p)) =>
        var m := m.(to := address);
        if p + 2 > |data| then (m, Some(Truncated))
        else
          var m := m.(protocolId := data[p], codingScheme := data[p + 1]);
          var q := p + 2 + ValidityOctets(firstOctet);
          if q >= |data| then (m, Some(Truncated))
          else UserDataOutcome(codec, data[q + 1..], firstOctet, data[p + 1], data[q], m)
  }

  method DecodeSubmitPdu(codec: Codec, cursor: PduCursor, firstOctet: Byte, message: Message)
    returns (m: Message, error: Option<SmsError>)
    requires codec.alphabet.Valid() && cursor.Valid()
    modifies cursor
    ensures (m, error) == SubmitOutcome(codec, cursor.data, old(cursor.index), firstOctet, message)
  {
    hide AddressAt, UserDataOutcome;
    m := message;
    var reference := cursor.Octet();
    if reference.Failure? { return m, Some(reference.error); }
    m := m.(reference := Some(reference.value));
    var address := ReadTpAddress(codec.alphabet, cursor);
    if address.Failure? { return m, Some(address.error); }
    m := m.(to := address.value);
    var pid := cursor.Octet();
    if pid.Failure? { return m, Some(pid.error); }
    var dcs := cursor.Octet();
    if dcs.Failure? { return m, Some(dcs.error); }
    m := m.(protocolId := pid.value, codingScheme := dcs.value);
    var validity := cursor.Octets(ValidityOctets(firstOctet));
    if validity.Failure? { return m, Some(validity.error); }
    var length := cursor.Octet();
    if length.Failure? { return m, Some(length.error); }
    m, error := DecodeUserData(codec, cursor.data[cursor.index..], firstOctet, dcs.value, length.value, m);
  }

  /** A field that is only written when there is something to write. */
  function Newer<T>(old_: Option<T>, new_: Option<T>): Option<T> {
    if new_.Some? then new_ else old_
  }

  /** SMS-DELIVER from the octet after its first. */
  ghost function DeliverOutcome(codec: Codec, data: seq<Byte>, at: nat, firstOctet: Byte, m: Message): Outcome
    requires codec.alphabet.Valid()
  {
    match AddressAt(codec.alphabet, data, at)
    case Failure(e) => (m, Some(e))
    case Success((address, p)) =>
      var m := m.(from := address);
      if p + 2 > |data| then (m, Some(Truncated))
      else
        var m := m.(protocolId := data[p], codingScheme := data[p + 1]);
        if p + 9 > |data| then (m, Some(Truncated))
        else
          var m := m.(serviceCentreTime := Newer(m.serviceCentreTime, SmsTime.TimeOf(data[p + 2..p + 9])));
          if p + 9 >= |data| then (m, Some(Truncated))
          else UserDataOutcome(codec, data[p + 10..], firstOctet, data[p + 1], data[p + 9], m)
  }

  method DecodeDeliverPdu(codec: Codec, cursor: PduCursor, firstOctet: Byte, message: Message)
    returns (m: Message, error: Option<SmsError>)
    requires codec.alphabet.Valid() && cursor.Valid()
    modifies cursor
    ensures (m, error) == DeliverOutcome(codec, cursor.data, old(cursor.index), firstOctet, message)
  {
    hide AddressAt, UserDataOutcome;
    m := message;
    var address := ReadTpAddress(codec.alphabet, cursor);
    if address.Failure? { return m, Some(address.error); }
    m := m.(from := address.value);
    var pid := cursor.Octet();
    if pid.Failure? { return m, Some(pid.error); }
    var dcs := cursor.Octet();
    if dcs.Failure? { return m, Some(dcs.error); }
    m := m.(protocolId := pid.value, codingScheme := dcs.value);
    var timestamp := cursor.Octets(7);
    if timestamp.Failure? { return m, Some(timestamp.error); }
    var received := SmsTime.DecodeTimestamp(timestamp.value);
    if received.Some? {
      m := m.(serviceCentreTime := received);
    }
    var length := cursor.Octet();
    if length.Failure? { return m, Some(length.error); }
    m, error := DecodeUserData(codec, cursor.data[cursor.index..], firstOctet, dcs.value, length.value, m);
  }

  /** The groups of TS 23.040 section 9.2.3.15. */
  function StatusOf(status: Byte): DeliveryStatus {
    if status <= 0x1f then Delivered
    else if status <= 0x3f then TemporaryError
    else if status <= 0x5f then PermanentError
    else if status <= 0x7f then TemporaryErrorNoRetry
    else ReservedStatus
  }

  /** SMS-STATUS-REPORT from the octet after its first. */
  ghost function StatusReportOutcome(codec: Codec, data: seq<Byte>, at: nat, m: Message): Outcome
    requires codec.alphabet.Valid()
  {
    if at >= |data| then (m, Some(Truncated))
    else
      var m := m.(reference := Some(data[at]));
      match AddressAt(codec.alphabet, data, at + 1)
      case Failure(e) => (m, Some(e))
      case Success((address, p)) =>
        var m := m.(to := address);
        if p + 15 > |data| then (m, Some(Truncated))
        else (m.(serviceCentreTime := Newer(m.serviceCentreTime, SmsTime.TimeOf(data[p..p + 7])),
                 dischargeTime := Newer(m.dischargeTime, SmsTime.TimeOf(data[p + 7..p + 14])),
                 status := Some(data[p + 14]), deliveryStatus := Some(StatusOf(data[p + 14]))), None)
  }

  method DecodeStatusReportPdu(codec: Codec, cursor: PduCursor, message: Message)
    returns (m: Message, error: Option<SmsError>)
    requires codec.alphabet.Valid() && cursor.Valid()
    modifies cursor
    ensures (m, error) == StatusReportOutcome(codec, cursor.data, old(cursor.index), message)
  {
    hide AddressAt;
    m := message;
    var reference := cursor.Octet();
    if reference.Failure? { return m, Some(reference.error); }
    m := m.(reference := Some(reference.value));
    var address := ReadTpAddress(codec.alphabet, cursor);
    if address.Failure? { return m, Some(address.error); }
    m := m.(to := address.value);
    var submitted := cursor.Octets(7);
    if submitted.Failure? { return m, Some(submitted.error); }
    var discharged := cursor.Octets(7);
    if discharged.Failure? { return m, Some(discharged.error); }
    var status := cursor.Octet();
    if status.Failure? { return m, Some(status.error); }
    m := m.(status := Some(status.value), deliveryStatus := Some(StatusOf(status.value)));
    var sent := SmsTime.DecodeTimestamp(submitted.value);
    if sent.Some? {
      m := m.(serviceCentreTime := sent);
    }
    var done := SmsTime.DecodeTimestamp(discharged.value);
    if done.Some? {
      m := m.(dischargeTime := done);
    }
    return m, None;
  }

  /** A transfer unit at a position, told apart by the two low bits of its first octet. */
  ghost function TpduOutcome(codec: Codec, data: seq<Byte>, at: nat, m: Message): Outcome
    requires codec.alphabet.Valid()
  {
    if at >= |data| then (m, Some(Truncated))
    else match data[at] % 4
      case 0 => DeliverOutcome(codec, data, at + 1, data[at], m.(direction := Received))
      case 1 => SubmitOutcome(codec, data, at + 1, data[at], m.(direction := Submitted))
      case 2 => StatusReportOutcome(codec, data, at + 1, m.(direction := StatusReport))
      case _ => (m, Some(UnsupportedType))
  }

  /** The number of the service centre: its type octet and half-octets of digits. */
  function ServiceCentreOf(octets: seq<Byte>): string {
    if |octets| > 1 then NumericAddress(octets[1..], 2 * (|octets| - 1), octets[0]) else ""
  }

  /** A PDU: the service-centre address, then the transfer unit. */
  ghost function PduOutcome(codec: Codec, pdu: seq<Byte>): Outcome
    requires codec.alphabet.Valid()
  {
    if |pdu| < 2 then (BLANK, Some(TooShort))
    else if pdu[0] as int > |pdu| - 1 then (BLANK, Some(Truncated))
    else
      var at := 1 + pdu[0] as int;
      TpduOutcome(codec, pdu, at, BLANK.(serviceCentre := ServiceCentreOf(pdu[1..at])))
  }

  method DecodePdu(codec: Codec, pdu: seq<Byte>) returns (m: Message, error: Option<SmsError>)
    requires codec.alphabet.Valid()
    ensures (m, error) == PduOutcome(codec, pdu)
  {
    hide SubmitOutcome, DeliverOutcome, StatusReportOutcome, NumericAddress;
    m := BLANK;
    if |pdu| < 2 {
      return m, Some(TooShort);
    }
    var cursor := new PduCursor(pdu);
    var smscLength := cursor.Octet();
    if smscLength.value as int > |pdu| - 1 {
      return m, Some(Truncated);
    }
    if smscLength.value > 0 {
      var smsc := cursor.Octets(smscLength.value);
      if |smsc.value| > 1 {
        var number := DecodeNumericAddress(smsc.value[1..], (|smsc.value| - 1) * 2, smsc.value[0]);
        m := m.(serviceCentre := number);
      }
    }
    var first := cursor.Octet();
    if first.Failure? { return m, Some(first.error); }
    match first.value % 4 {
      case 0 => m, error := DecodeDeliverPdu(codec, cursor, first.value, m.(direction := Received));
      case 1 => m, error := DecodeSubmitPdu(codec, cursor, first.value, m.(direction := Submitted));
      case 2 => m, error := DecodeStatusReportPdu(codec, cursor, m.(direction := StatusReport));
      case _ => return m, Some(UnsupportedType);
    }
  }

  /** What a bare TPDU, as carried by RP-DATA, decodes to. */
  ghost function Decoded(codec: Codec, tpdu: seq<Byte>): Outcome
    requires codec.alphabet.Valid()
  {
    if tpdu == [] then (BLANK, Some(EmptyTpdu)) else PduOutcome(codec, [0x00] + tpdu)
  }

  method DecodeTpdu(codec: Codec, tpdu: seq<Byte>) returns (m: Message, error: Option<SmsError>)
    requires codec.alphabet.Valid()
    ensures (m, error) == Decoded(codec, tpdu)
  {
    if |tpdu| == 0 {
      return BLANK, Some(EmptyTpdu);
    }
    m, error := DecodePdu(codec, [0x00] + tpdu);
  }
}
