/** Building SMS-SUBMIT transfer units (3GPP TS 23.040 section 9.2.2.2), one per part of a text. */
module SmsSubmit {
  import opened Bits
  import opened Wrappers
  import opened SmsTypes
  import opened SmsAddress
  import opened Septets
  import Gsm7
  import Utf16
  import Segmentation

  /** What one part carries: septets of GSM 7-bit text or octets of UCS-2 text. */
  datatype Content = Gsm7Content(septets: seq<Byte>) | Ucs2Content(octets: seq<Byte>)

  /** The user data header of a concatenated part (section 9.2.3.24.1): an element with
      identifier 0 and three octets. */
  function ConcatHeader(reference: Byte, total: nat, sequence: nat): seq<Byte> {
    [0x05, 0x00, 0x03, reference, total % 256, sequence % 256]
  }

  /** Septets a header of n octets takes, counting the fill bits that align the text. */
  function HeaderSeptets(n: nat): nat {
    (n * 8 + 6) / 7
  }

  /** TP-UDL counts septets or octets according to the alphabet. */
  function DataLength(content: Content, header: seq<Byte>): nat {
    match content
    case Gsm7Content(septets) => HeaderSeptets(|header|) + |septets|
    case Ucs2Content(octets) => |header| + |octets|
  }

  predicate Fits(content: Content, header: seq<Byte>) {
    DataLength(content, header) <= if content.Gsm7Content? then 160 else 140
  }

  ghost function DataOctets(content: Content, header: seq<Byte>): seq<Byte> {
    match content
    case Gsm7Content(septets) => Overlay(Packed(septets, HeaderSeptets(|header|) * 7), header)
    case Ucs2Content(octets) => header + octets
  }

  function CodingScheme(content: Content): Byte {
    if content.Gsm7Content? then 0x00 else 0x08
  }

  function FirstOctet(header: seq<Byte>): Byte {
    if header == [] then 0x21 else 0x61
  }

  ghost function SubmitTpdu(number: string, content: Content, header: seq<Byte>): seq<Byte>
    requires AllDigits(DigitsOf(number))
  {
    [FirstOctet(header), 0x00, |DigitsOf(number)| % 256, TypeOfAddress(number)]
    + SemiOctets(DigitsOf(number))
    + [0x00, CodingScheme(content), DataLength(content, header) % 256]
    + DataOctets(content, header)
  }

  /** The PDU a recipient, content and header lead to, or why there is none.  A PDU is a
      TPDU behind an empty service-centre address. */
  ghost function SubmitPdu(number: string, content: Option<Content>, header: seq<Byte>): Result<seq<Byte>, SmsError> {
    if DigitsOf(number) == "" || !AllDigits(DigitsOf(number)) then Failure(InvalidRecipient)
    else if header != [] && header[0] as int + 1 != |header| then Failure(InvalidHeader)
    else if content.None? then Failure(NoUserData)
    else if !Fits(content.value, header) then Failure(TooLong)
    else Success([0x00] + SubmitTpdu(number, content.value, header))
  }

  /** The program passes two optional slices of which at most one is set. */
  function Chosen(septets: Option<seq<Byte>>, ucs2: Option<seq<Byte>>): Option<Content> {
    if septets.Some? then Some(Gsm7Content(septets.value))
    else if ucs2.Some? then Some(Ucs2Content(ucs2.value))
    else None
  }

  method EncodeSubmitPdu(number: string, septets: Option<seq<Byte>>, ucs2: Option<seq<Byte>>, header: seq<Byte>)
    returns (r: Result<seq<Byte>, SmsError>)
    ensures r == SubmitPdu(number, Chosen(septets, ucs2), header)
  {
    var digits := DigitsOf(number);
    var address := EncodeSemiOctets(digits);
    if address.Failure? { return Failure(address.error); }
    var toa: Byte := 0x81;
    if number != [] && number[0] == '+' {
      toa := 0x91;
    }
    var firstOctet: Byte := 0x21;
    if |header| > 0 {
      if header[0] as int + 1 != |header| {
        return Failure(InvalidHeader);
      }
      firstOctet := firstOctet + 0x40; // sets TP-UDHI, which 0x21 leaves clear
    }
    var pdu: seq<Byte> := [0x00, firstOctet, 0x00, |digits| % 256, toa];
    assert firstOctet == FirstOctet(header) && toa == TypeOfAddress(number);
    pdu := pdu + address.value;
    pdu := pdu + [0x00];
    var userData := EncodeUserData(septets, ucs2, header);
    if userData.Failure? { return Failure(userData.error); }
    var (dcs, length, data) := userData.value;
    ghost var content := Chosen(septets, ucs2).value;
    assert SubmitPdu(number, Some(content), header) == Success([0x00] + SubmitTpdu(number, content, header));
    AssembledPdu(number, Chosen(septets, ucs2).value, header, pdu);
    return Success(pdu + [dcs, length] + data);
  }

  /** The end of a PDU: coding scheme, length and user data. */
  method EncodeUserData(septets: Option<seq<Byte>>, ucs2: Option<seq<Byte>>, header: seq<Byte>)
    returns (r: Result<(Byte, Byte, seq<Byte>), SmsError>)
    ensures var content := Chosen(septets, ucs2);
            r == if content.None? then Failure(NoUserData)
                 else if !Fits(content.value, header) then Failure(TooLong)
                 else Success((CodingScheme(content.value), DataLength(content.value, header),
                               DataOctets(content.value, header)))
  {
    if septets.Some? {
      var headerSeptets := 0;
      var startBit := 0;
      if |header| > 0 {
        headerSeptets := (|header| * 8 + 6) / 7;
        startBit := headerSeptets * 7;
      }
      var userDataLength := headerSeptets + |septets.value|;
      if userDataLength > 160 {
        return Failure(TooLong);
      }
      var packed := PackSeptets(septets.value, startBit);
      CopyOver(packed, header);
      return Success((0x00, userDataLength, packed[..]));
    } else if ucs2.Some? {
      var userDataLength := |header| + |ucs2.value|;
      if userDataLength > 140 {
        return Failure(TooLong);
      }
      return Success((0x08, userDataLength, header + ucs2.value));
    } else {
      return Failure(NoUserData);
    }
  }

  lemma AssembledPdu(number: string, content: Content, header: seq<Byte>, pdu: seq<Byte>)
    requires AllDigits(DigitsOf(number))
    requires pdu == [0x00, FirstOctet(header), 0x00, |DigitsOf(number)| % 256, TypeOfAddress(number)]
                    + SemiOctets(DigitsOf(number)) + [0x00]
    ensures pdu + [CodingScheme(content), DataLength(content, header) % 256] + DataOctets(content, header)
         == [0x00] + SubmitTpdu(number, content, header)
  {
    var head := [FirstOctet(header), 0x00, |DigitsOf(number)| % 256, TypeOfAddress(number)];
    var tail := [CodingScheme(content), DataLength(content, header) % 256];
    var address, data := SemiOctets(DigitsOf(number)), DataOctets(content, header);
    SubmitTpduParts(number, content, header, head, tail);
    Joined([0x00], head, address, [0x00], tail, data);
    assert [0x00] + head == [0x00, FirstOctet(header), 0x00, |DigitsOf(number)| % 256, TypeOfAddress(number)];
  }

  lemma SubmitTpduParts(number: string, content: Content, header: seq<Byte>, head: seq<Byte>, tail: seq<Byte>)
    requires AllDigits(DigitsOf(number))
    requires head == [FirstOctet(header), 0x00, |DigitsOf(number)| % 256, TypeOfAddress(number)]
    requires tail == [CodingScheme(content), DataLength(content, header) % 256]
    ensures SubmitTpdu(number, content, header)
         == head + SemiOctets(DigitsOf(number)) + ([0x00] + tail) + DataOctets(content, header)
  {
    assert [0x00] + tail == [0x00, CodingScheme(content), DataLength(content, header) % 256];
  }

  lemma Joined<T>(a: seq<T>, b: seq<T>, c: seq<T>, d: seq<T>, e: seq<T>, f: seq<T>)
    ensures a + b + c + d + e + f == a + (b + c + (d + e) + f)
  {
  }

  /** Go's copy(target, source). */
  method CopyOver(target: array<Byte>, source: seq<Byte>)
    modifies target
    ensures target[..] == Overlay(old(target[..]), source)
  {
    var n := if |source| < target.Length then |source| else target.Length;
    for i := 0 to n
      invariant target[..i] == source[..i]
      invariant target[i..] == old(target[i..])
    {
      target[i] := source[i];
    }
    assert target[..] == target[..n] + target[n..];
  }

  /** A part ready to send: plain text the modem encodes itself, or a PDU. */
  datatype Payload = Text(text: string) | Pdu(pdu: seq<Byte>)

  datatype Prepared = Prepared(to: string, encoding: Encoding, payload: Payload, part: nat, total: nat,
                               reference: Option<Byte>)

  /** The septets of each part: one part when they fit, otherwise a greedy split that leaves
      room for the concatenation header. */
  function Gsm7Segments(encoder: Gsm7.Encoder, text: string): seq<seq<Byte>>
    requires Gsm7.Encodable(encoder, text)
  {
    var septets := Gsm7.Septets(encoder, text);
    if |septets| <= 160 then [septets] else Segmentation.Greedy(Gsm7.EscapePair, 153, septets)
  }

  /** The code units of each part of a text outside the GSM 7-bit alphabet. */
  function Ucs2Segments(text: string): seq<seq<Utf16.Unit>> {
    var units := Utf16.Encode(text);
    if |units| <= 70 then [units] else Segmentation.Greedy(Utf16.SurrogatePair, 67, units)
  }

  /** What each part of a text carries. */
  function Contents(encoder: Gsm7.Encoder, text: string): seq<Content> {
    if Gsm7.Encodable(encoder, text) then Gsm7Contents(Gsm7Segments(encoder, text))
    else Ucs2Contents(Ucs2Segments(text))
  }

  function Gsm7Contents(segments: seq<seq<Byte>>): seq<Content> {
    seq(|segments|, i requires 0 <= i < |segments| => Gsm7Content(segments[i]))
  }

  function Ucs2Contents(segments: seq<seq<Utf16.Unit>>): seq<Content> {
    seq(|segments|, i requires 0 <= i < |segments| => Ucs2Content(Utf16.Octets(segments[i])))
  }

  /** Every character is its own single-septet code, so a modem in text mode needs no PDU. */
  predicate DirectCharacter(encoder: Gsm7.Encoder, c: char) {
    c in encoder && |encoder[c]| == 1 && encoder[c][0] != Gsm7.ESCAPE && c as int <= 0x7f && c as int == encoder[c][0]
  }

  predicate Direct(encoder: Gsm7.Encoder, text: string) {
    forall i :: 0 <= i < |text| ==> DirectCharacter(encoder, text[i])
  }

  method CanSendDirect(encoder: Gsm7.Encoder, text: string) returns (r: bool)
    ensures r == Direct(encoder, text)
  {
    for i := 0 to |text|
      invariant forall k :: 0 <= k < i ==> DirectCharacter(encoder, text[k])
    {
      var c := text[i];
      if c !in encoder || |encoder[c]| != 1 || encoder[c][0] == Gsm7.ESCAPE || c as int > 0x7f
         || c as int != encoder[c][0] {
        return false;
      }
    }
    return true;
  }

  function HeaderFor(reference: Byte, total: nat, index: nat): seq<Byte> {
    if total == 1 then [] else ConcatHeader(reference, total, index + 1)
  }

  function EncodingOf(content: Content): Encoding {
    if content.Gsm7Content? then Gsm7Pdu else Ucs2Pdu
  }

  ghost function PduPart(number: string, reference: Byte, contents: seq<Content>, index: nat): Prepared
    requires IsNumber(number) && index < |contents|
  {
    var total := |contents|;
    Prepared(number, EncodingOf(contents[index]),
             Pdu([0x00] + SubmitTpdu(number, contents[index], HeaderFor(reference, total, index))),
             index + 1, total, if total == 1 then None else Some(reference))
  }

  /** Part `index` as the preparation step hands it on. */
  ghost function PreparedPart(encoder: Gsm7.Encoder, number: string, text: string, reference: Byte,
                              contents: seq<Content>, index: nat): Prepared
    requires IsNumber(number) && index < |contents|
  {
    if |contents| == 1 && contents[index].Gsm7Content? && Direct(encoder, text)
    then Prepared(number, Gsm7Text, Text(text), 1, 1, None)
    else PduPart(number, reference, contents, index)
  }

  /** Why a request cannot be sent, if so. */
  function Refusal(encoder: Gsm7.Encoder, recipient: string, text: string): Option<SmsError> {
    if Normalized(recipient).Failure? then Some(InvalidRecipient)
    else if text == "" then Some(EmptyText)
    else if '\0' in text then Some(TextContainsNul)
    else if |Contents(encoder, text)| > 255 then Some(TooLong)
    else None
  }

  /** Every part of an admissible text fits its transfer unit, so the encoder's own length
      and header checks never fire. */
  lemma PartsFit(encoder: Gsm7.Encoder, text: string, reference: Byte, index: nat)
    requires index < |Contents(encoder, text)|
    ensures Fits(Contents(encoder, text)[index], HeaderFor(reference, |Contents(encoder, text)|, index))
    ensures text != "" && (forall c :: c in encoder ==> encoder[c] != []) ==>
              DataLength(Contents(encoder, text)[index], []) > 0
  {
    if Gsm7.Encodable(encoder, text) {
      var septets := Gsm7.Septets(encoder, text);
      if |septets| > 160 {
        GreedyPartsBounded(Gsm7.EscapePair, 153, septets, index);
      }
    } else {
      var units := Utf16.Encode(text);
      if |units| > 70 {
        GreedyPartsBounded(Utf16.SurrogatePair, 67, units, index);
      }
    }
  }

  lemma {:induction false} GreedyPartsBounded<T>(glued: Segmentation.Glue<T>, maximum: nat, s: seq<T>, index: nat)
    requires maximum >= 2 && index < |Segmentation.Greedy(glued, maximum, s)|
    ensures 0 < |Segmentation.Greedy(glued, maximum, s)[index]| <= maximum
    decreases |s|
  {
    if index > 0 {
      GreedyPartsBounded(glued, maximum, s[Segmentation.FirstPart(glued, maximum, s)..], index - 1);
    }
  }

  /** A text too long for one part has at least two. */
  lemma GreedyHasTwoParts<T>(glued: Segmentation.Glue<T>, maximum: nat, s: seq<T>)
    requires maximum >= 2 && |s| > maximum
    ensures |Segmentation.Greedy(glued, maximum, s)| >= 2
  {
    var rest := s[Segmentation.FirstPart(glued, maximum, s)..];
    assert rest != [];
    assert |Segmentation.Greedy(glued, maximum, rest)| >= 1;
  }

  /** The encoder accepts a part that fits, with its own header. */
  lemma FittingPart(number: string, reference: Byte, contents: seq<Content>, index: nat)
    requires IsNumber(number) && index < |contents|
    requires Fits(contents[index], HeaderFor(reference, |contents|, index))
    ensures SubmitPdu(number, Some(contents[index]), HeaderFor(reference, |contents|, index))
         == Success(PduPart(number, reference, contents, index).payload.pdu)
  {
    hide SubmitTpdu;
  }

  method PrepareParts(encoder: Gsm7.Encoder, recipient: string, text: string, reference: Byte)
    returns (r: Result<seq<Prepared>, SmsError>)
    ensures Refusal(encoder, recipient, text).Some? ==> r == Failure(Refusal(encoder, recipient, text).value)
    ensures Refusal(encoder, recipient, text).None? ==>
      && r.Success? && |r.value| == |Contents(encoder, text)|
      && forall i :: 0 <= i < |r.value| ==>
           r.value[i] == PreparedPart(encoder, Normalized(recipient).value, text, reference, Contents(encoder, text), i)
  {
    var normalized := NormalizeRecipient(recipient);
    if normalized.Failure? { return Failure(normalized.error); }
    var number := normalized.value;
    if text == "" { return Failure(EmptyText); }
    if '\0' in text { return Failure(TextContainsNul); }
    ghost var contents := Contents(encoder, text);
    forall i | 0 <= i < |contents| { PartsFit(encoder, text, reference, i); }

    var gsm7 := Gsm7.EncodeGsm7(encoder, text);
    if gsm7.Some? && |gsm7.value| <= 160 {
      var direct := CanSendDirect(encoder, text);
      if direct {
        return Success([Prepared(number, Gsm7Text, Text(text), 1, 1, None)]);
      }
      FittingPart(number, reference, contents, 0);
      var pdu := EncodeSubmitPdu(number, gsm7, None, []);
      match pdu {
        case Failure(e) => return Failure(e);
        case Success(octets) => return Success([Prepared(number, Gsm7Pdu, Pdu(octets), 1, 1, None)]);
      }
    }
    if gsm7.Some? {
      var segments := Gsm7.SplitGsm7(gsm7.value, 153);
      GreedyHasTwoParts(Gsm7.EscapePair, 153, gsm7.value);
      if |segments| > 255 { return Failure(TooLong); }
      r := PrepareGsm7Segments(number, segments, reference);
      return;
    }
    var units := Utf16.Encode(text);
    if |units| <= 70 {
      FittingPart(number, reference, contents, 0);
      var userData := Utf16.EncodeUnits(units);
      var pdu := EncodeSubmitPdu(number, None, Some(userData), []);
      match pdu {
        case Failure(e) => return Failure(e);
        case Success(octets) => return Success([Prepared(number, Ucs2Pdu, Pdu(octets), 1, 1, None)]);
      }
    }
    var segments := Utf16.SplitUcs2(units, 67);
    GreedyHasTwoParts(Utf16.SurrogatePair, 67, units);
    if |segments| > 255 { return Failure(TooLong); }
    r := PrepareUcs2Segments(number, segments, reference);
  }

  method PrepareGsm7Segments(number: string, segments: seq<seq<Byte>>, reference: Byte)
    returns (r: Result<seq<Prepared>, SmsError>)
    requires IsNumber(number) && |segments| != 1
    requires forall i :: 0 <= i < |segments| ==>
               Fits(Gsm7Contents(segments)[i], HeaderFor(reference, |segments|, i))
    ensures r.Success? && |r.value| == |segments|
    ensures forall i :: 0 <= i < |segments| ==> r.value[i] == PduPart(number, reference, Gsm7Contents(segments), i)
  {
    hide SubmitTpdu, PduPart;
    ghost var contents := Gsm7Contents(segments);
    var result: seq<Prepared> := [];
    for index := 0 to |segments|
      invariant |result| == index
      invariant forall i :: 0 <= i < index ==> result[i] == PduPart(number, reference, contents, i)
    {
      var part := PrepareSegment(number, Some(segments[index]), None, reference, |segments|, index, contents);
      match part {
        case Failure(e) => return Failure(e);
        case Success(p) => result := result + [p];
      }
    }
    return Success(result);
  }

  /** The body of both segment loops. */
  method PrepareSegment(number: string, septets: Option<seq<Byte>>, ucs2: Option<seq<Byte>>, reference: Byte,
                        total: nat, index: nat, ghost contents: seq<Content>)
    returns (r: Result<Prepared, SmsError>)
    requires IsNumber(number) && index < total == |contents| && total != 1
    requires Chosen(septets, ucs2) == Some(contents[index])
    requires Fits(contents[index], HeaderFor(reference, total, index))
    ensures r == Success(PduPart(number, reference, contents, index))
  {
    FittingPart(number, reference, contents, index);
    var header := ConcatHeader(reference, total, index + 1);
    var pdu := EncodeSubmitPdu(number, septets, ucs2, header);
    match pdu {
      case Failure(e) => return Failure(e);
      case Success(octets) =>
        var encoding := if septets.Some? then Gsm7Pdu else Ucs2Pdu;
        return Success(Prepared(number, encoding, Pdu(octets), index + 1, total, Some(reference)));
    }
  }

  method PrepareUcs2Segments(number: string, segments: seq<seq<Utf16.Unit>>, reference: Byte)
    returns (r: Result<seq<Prepared>, SmsError>)
    requires IsNumber(number) && |segments| != 1
    requires forall i :: 0 <= i < |segments| ==>
               Fits(Ucs2Contents(segments)[i], HeaderFor(reference, |segments|, i))
    ensures r.Success? && |r.value| == |segments|
    ensures forall i :: 0 <= i < |segments| ==> r.value[i] == PduPart(number, reference, Ucs2Contents(segments), i)
  {
    hide SubmitTpdu, PduPart;
    ghost var contents := Ucs2Contents(segments);
    var result: seq<Prepared> := [];
    for index := 0 to |segments|
      invariant |result| == index
      invariant forall i :: 0 <= i < index ==> result[i] == PduPart(number, reference, contents, i)
    {
      var octets := Utf16.EncodeUnits(segments[index]);
      var part := PrepareSegment(number, None, Some(octets), reference, |segments|, index, contents);
      match part {
        case Failure(e) => return Failure(e);
        case Success(p) => result := result + [p];
      }
    }
    return Success(result);
  }

  /** One transfer unit, independent of any modem. */
  datatype SubmitUnit = SubmitUnit(to: string, encoding: Encoding, tpdu: seq<Byte>, part: nat, total: nat,
                                   reference: Option<Byte>)

  lemma AlphabetOfContents(encoder: Gsm7.Encoder, text: string, index: nat)
    requires index < |Contents(encoder, text)|
    ensures Contents(encoder, text)[index].Gsm7Content? <==> Gsm7.Encodable(encoder, text)
  {
  }

  /** What the first octet asks for: an SMS-SUBMIT (bits 0 and 1) that may be stored twice (bit 2), has no
      validity period (bits 3 and 4), asks for a status report (bit 5), has a user data header
      exactly when it is one of several parts (bit 6), and sets no reply path (bit 7). */
  predicate Requests(tpdu: seq<Byte>, severalParts: bool) {
    && |tpdu| > 4
    && Bit(tpdu[0], 0) && !Bit(tpdu[0], 1) && !Bit(tpdu[0], 2) && !Bit(tpdu[0], 3) && !Bit(tpdu[0], 4)
    && Bit(tpdu[0], 5) && (Bit(tpdu[0], 6) <==> severalParts) && !Bit(tpdu[0], 7)
  }

  /** How many digits the address has and of what type it is (section 9.1.2.5): the extension bit is set,
      the numbering plan is 1, and the type is international exactly for a number with a plus. */
  predicate Addressed(tpdu: seq<Byte>, number: string) {
    && |tpdu| > 4
    && tpdu[1] == 0 && tpdu[2] == |DigitsOf(number)|
    && Bit(tpdu[3], 7) && tpdu[3] % 16 == 1
    && (TypeOfNumber(tpdu[3]) == if "+" <= number then 1 else 0)
  }

  /** Behind the address: protocol identifier 0, and coding scheme 0 for GSM 7-bit text or 8 for UCS-2. */
  predicate Coded(tpdu: seq<Byte>, number: string, gsm7: bool) {
    var p := 4 + (|DigitsOf(number)| + 1) / 2;
    p + 1 < |tpdu| && tpdu[p] == 0x00 && tpdu[p + 1] == if gsm7 then 0x00 else 0x08
  }

  predicate Shaped(tpdu: seq<Byte>, severalParts: bool, number: string, gsm7: bool) {
    Requests(tpdu, severalParts) && Addressed(tpdu, number) && Coded(tpdu, number, gsm7)
  }

  /** The fixed octets of every unit built. */
  lemma UnitRequests(number: string, content: Content, reference: Byte, total: nat, index: nat)
    requires IsNumber(number) && index < total
    ensures Shaped(SubmitTpdu(number, content, HeaderFor(reference, total, index)), total > 1, number, content.Gsm7Content?)
  {
    hide DataOctets, SemiOctets, DataLength;
    var header := HeaderFor(reference, total, index);
    var tpdu := SubmitTpdu(number, content, header);
    assert tpdu[..4] == [FirstOctet(header), 0x00, |DigitsOf(number)|, TypeOfAddress(number)];
    assert tpdu[0] == tpdu[..4][0] && tpdu[1] == tpdu[..4][1] && tpdu[2] == tpdu[..4][2] && tpdu[3] == tpdu[..4][3];
    FirstOctetBits(header);
    assert "+" <= number <==> number[0] == '+';
    TypeBits();
  }

  lemma FirstOctetBits(header: seq<Byte>)
    ensures var b := FirstOctet(header);
            && Bit(b, 0) && !Bit(b, 1) && !Bit(b, 2) && !Bit(b, 3) && !Bit(b, 4) && Bit(b, 5) && !Bit(b, 7)
            && (Bit(b, 6) <==> header != [])
  {
  }

  lemma TypeBits()
    ensures Bit(0x91, 7) && Bit(0x81, 7)
  {
  }

  ghost function UnitOf(number: string, reference: Byte, contents: seq<Content>, index: nat): SubmitUnit
    requires IsNumber(number) && index < |contents|
  {
    var total := |contents|;
    SubmitUnit(number, EncodingOf(contents[index]),
               SubmitTpdu(number, contents[index], HeaderFor(reference, total, index)),
               index + 1, total, if total == 1 then None else Some(reference))
  }

  /** The transfer units of a text.  `random` is the concatenation reference drawn when there
      is more than one part, None when the random source fails. */
  method PrepareSubmitTpdus(encoder: Gsm7.Encoder, recipient: string, text: string, random: Option<Byte>)
    returns (r: Result<seq<SubmitUnit>, SmsError>)
    ensures Refusal(encoder, recipient, text).Some? ==> r == Failure(Refusal(encoder, recipient, text).value)
    ensures Refusal(encoder, recipient, text).None? && |Contents(encoder, text)| > 1 && random.None? ==>
              r == Failure(NoReference)
    ensures Refusal(encoder, recipient, text).None? && (|Contents(encoder, text)| == 1 || random.Some?) ==>
      && r.Success? && |r.value| == |Contents(encoder, text)|
      && forall i :: 0 <= i < |r.value| ==>
           r.value[i] == UnitOf(Normalized(recipient).value, if random.Some? then random.value else 0,
                                Contents(encoder, text), i)
    ensures r.Success? <==>
      && Normalized(recipient).Success? && text != "" && '\0' !in text && |Contents(encoder, text)| <= 255
      && (|Contents(encoder, text)| == 1 || random.Some?)
    ensures r.Success? ==> forall i :: 0 <= i < |r.value| ==>
      && r.value[i].to == Normalized(recipient).value && r.value[i].part == i + 1 && r.value[i].total == |r.value|
      && (r.value[i].reference == if |r.value| == 1 then None else random)
      && Shaped(r.value[i].tpdu, |r.value| > 1, r.value[i].to, Gsm7.Encodable(encoder, text))
  {
    hide Shaped, SubmitTpdu, HeaderFor, Contents, UnitFrom;
    var prepared := PrepareParts(encoder, recipient, text, 0);
    if prepared.Failure? { return Failure(prepared.error); }
    if |prepared.value| > 1 {
      if random.None? { return Failure(NoReference); }
      prepared := PrepareParts(encoder, recipient, text, random.value);
    }
    AtLeastOnePart(encoder, text);
    ghost var contents := Contents(encoder, text);
    ghost var number := Normalized(recipient).value;
    ghost var reference := if random.Some? then random.value else 0;
    forall i | 0 <= i < |contents| { UnitOfPart(encoder, text, number, reference, contents, i); }
    forall i | 0 <= i < |contents|
      ensures Shaped(UnitOf(number, reference, contents, i).tpdu, |contents| > 1, number, Gsm7.Encodable(encoder, text))
    {
      UnitRequests(number, contents[i], reference, |contents|, i);
      AlphabetOfContents(encoder, text, i);
    }
    r := ToUnits(encoder, text, prepared.value);
  }

  method ToUnits(encoder: Gsm7.Encoder, text: string, parts: seq<Prepared>) returns (r: Result<seq<SubmitUnit>, SmsError>)
    requires forall i :: 0 <= i < |parts| ==>
      (parts[i].encoding == Gsm7Text <==> parts[i].payload.Text?) && UnitFrom(encoder, text, parts[i]).Success?
    ensures r.Success? && |r.value| == |parts|
    ensures forall i :: 0 <= i < |parts| ==> UnitFrom(encoder, text, parts[i]) == Success(r.value[i])
  {
    var result: seq<SubmitUnit> := [];
    for index := 0 to |parts|
      invariant |result| == index
      invariant forall i :: 0 <= i < index ==> UnitFrom(encoder, text, parts[i]) == Success(result[i])
    {
      var unit := ToUnit(encoder, text, parts[index]);
      match unit {
        case Failure(e) => return Failure(e);
        case Success(u) => result := result + [u];
      }
    }
    return Success(result);
  }

  /** The transfer unit of one prepared part: a text-mode part is encoded after all, and the
      service-centre prefix is dropped. */
  method ToUnit(encoder: Gsm7.Encoder, text: string, part: Prepared) returns (r: Result<SubmitUnit, SmsError>)
    requires part.encoding == Gsm7Text <==> part.payload.Text?
    ensures r == UnitFrom(encoder, text, part)
  {
    var encoding := part.encoding;
    var pdu: seq<Byte>;
    if part.encoding == Gsm7Text {
      var septets := Gsm7.EncodeGsm7(encoder, text);
      if septets.None? { return Failure(InvalidText); }
      var encoded := EncodeSubmitPdu(part.to, septets, None, []);
      if encoded.Failure? { return Failure(encoded.error); }
      pdu := encoded.value;
      encoding := Gsm7Pdu;
    } else {
      pdu := part.payload.pdu;
    }
    if |pdu| < 2 { return Failure(TooShort); }
    var smscOctets: int := pdu[0];
    if 1 + smscOctets >= |pdu| { return Failure(TooShort); }
    return Success(SubmitUnit(part.to, encoding, pdu[1 + smscOctets..], part.part, part.total, part.reference));
  }

  ghost function UnitFrom(encoder: Gsm7.Encoder, text: string, part: Prepared): Result<SubmitUnit, SmsError> {
    var pdu :=
      if part.payload.Pdu? then Success(part.payload.pdu)
      else if !Gsm7.Encodable(encoder, text) then Failure(InvalidText)
      else SubmitPdu(part.to, Some(Gsm7Content(Gsm7.Septets(encoder, text))), []);
    match pdu
    case Failure(e) => Failure(e)
    case Success(pdu) =>
      if |pdu| < 2 || 1 + pdu[0] as int >= |pdu| then Failure(TooShort)
      else Success(SubmitUnit(part.to, if part.payload.Text? then Gsm7Pdu else part.encoding,
                              pdu[1 + pdu[0] as int..], part.part, part.total, part.reference))
  }

  /** Both ways of preparing a part come to the same transfer unit. */
  lemma UnitOfPart(encoder: Gsm7.Encoder, text: string, number: string, reference: Byte, contents: seq<Content>,
                   index: nat)
    requires IsNumber(number) && contents == Contents(encoder, text) && index < |contents|
    ensures UnitFrom(encoder, text, PreparedPart(encoder, number, text, reference, contents, index))
         == Success(UnitOf(number, reference, contents, index))
    ensures |contents| == 1 ==>
      PreparedPart(encoder, number, text, 0, contents, index)
        == PreparedPart(encoder, number, text, reference, contents, index)
  {
    hide SubmitTpdu;
    PartsFit(encoder, text, reference, index);
    FittingPart(number, reference, contents, index);
    var tpdu := SubmitTpdu(number, contents[index], HeaderFor(reference, |contents|, index));
    TpduBehindPrefix(number, contents[index], HeaderFor(reference, |contents|, index));
    if |contents| == 1 && contents[0].Gsm7Content? && Direct(encoder, text) {
      DirectIsEncodable(encoder, text);
    }
  }

  lemma TpduBehindPrefix(number: string, content: Content, header: seq<Byte>)
    requires AllDigits(DigitsOf(number))
    ensures var tpdu := SubmitTpdu(number, content, header);
            ([0x00] + tpdu)[1..] == tpdu && |tpdu| > 0
  {
  }

  lemma DirectIsEncodable(encoder: Gsm7.Encoder, text: string)
    requires Direct(encoder, text) && |Contents(encoder, text)| == 1 && Contents(encoder, text)[0].Gsm7Content?
    ensures Gsm7.Encodable(encoder, text)
    ensures Contents(encoder, text)[0] == Gsm7Content(Gsm7.Septets(encoder, text))
  {
    if |Gsm7.Septets(encoder, text)| > 160 {
      GreedyHasTwoParts(Gsm7.EscapePair, 153, Gsm7.Septets(encoder, text));
    }
  }

  lemma AtLeastOnePart(encoder: Gsm7.Encoder, text: string)
    ensures |Contents(encoder, text)| >= 1
  {
    if Gsm7.Encodable(encoder, text) {
      if |Gsm7.Septets(encoder, text)| > 160 {
        GreedyHasTwoParts(Gsm7.EscapePair, 153, Gsm7.Septets(encoder, text));
      }
    } else if |Utf16.Encode(text)| > 70 {
      GreedyHasTwoParts(Utf16.SurrogatePair, 67, Utf16.Encode(text));
    }
  }

  /** User data never exceeds the 140 octets of a TPDU. */
  lemma UserDataFits140(encoder: Gsm7.Encoder, text: string, reference: Byte, index: nat)
    requires index < |Contents(encoder, text)|
    ensures |DataOctets(Contents(encoder, text)[index], HeaderFor(reference, |Contents(encoder, text)|, index))| <= 140
  {
    PartsFit(encoder, text, reference, index);
  }
}
