/** What is submitted is what is read back: every part of every admissible text decodes
    to its recipient, its place among the parts and its share of the text. */
module SmsRoundTrip {
  import opened Bits
  import opened Wrappers
  import opened SmsTypes
  import opened SmsAddress
  import opened SmsSubmit
  import opened Septets
  import D = SmsDecode
  import Gsm7
  import Utf16
  import Segmentation

  /** A transfer unit with its message reference filled in. */
  ghost function Stamped(number: string, content: Content, header: seq<Byte>, mr: Byte): seq<Byte>
    requires AllDigits(DigitsOf(number))
  {
    SubmitTpdu(number, content, header)[1 := mr]
  }

  /** Where everything stands in the PDU of a stamped transfer unit. */
  lemma Layout(number: string, content: Content, header: seq<Byte>, mr: Byte)
    requires IsNumber(number)
    ensures var digits := DigitsOf(number);
            var pdu := [0x00] + Stamped(number, content, header, mr);
            var p := 5 + |SemiOctets(digits)|;
            && |pdu| == p + 3 + |DataOctets(content, header)|
            && pdu[..5] == [0x00, FirstOctet(header), mr, |digits|, TypeOfAddress(number)]
            && pdu[5..p] == SemiOctets(digits)
            && pdu[p..p + 3] == [0x00, CodingScheme(content), DataLength(content, header) % 256]
            && pdu[p + 3..] == DataOctets(content, header)
  {
    hide DataOctets, SemiOctets;
    var digits := DigitsOf(number);
    var a, c, d := SemiOctets(digits), [0x00, CodingScheme(content), DataLength(content, header) % 256],
                   DataOctets(content, header);
    var b := [FirstOctet(header), 0x00, |digits| % 256, TypeOfAddress(number)];
    assert SubmitTpdu(number, content, header) == b + a + c + d;
    var b' := [0x00] + b[1 := mr];
    assert [0x00] + (b + a + c + d)[1 := mr] == b' + a + c + d;
    Slices(b', a, c, d);
  }

  lemma Slices<T>(b: seq<T>, a: seq<T>, c: seq<T>, d: seq<T>)
    ensures var s := b + a + c + d;
            var p := |b| + |a|;
            s[..|b|] == b && s[|b|..p] == a && s[p..p + |c|] == c && s[p + |c|..] == d
  {
  }

  /** The message a stamped part announces before its user data is read. */
  function Announced(number: string, content: Content, mr: Byte): Message {
    BLANK.(direction := Submitted, reference := Some(mr), to := number, codingScheme := CodingScheme(content))
  }

  /** A number is read wherever its address octets stand. */
  lemma NumberRead(alphabet: Gsm7.Alphabet, number: string, data: seq<Byte>, at: nat)
    requires alphabet.Valid() && IsNumber(number)
    requires at + 2 + |SemiOctets(DigitsOf(number))| <= |data|
    requires data[at] == |DigitsOf(number)| && data[at + 1] == TypeOfAddress(number)
    requires data[at + 2..at + 2 + |SemiOctets(DigitsOf(number))|] == SemiOctets(DigitsOf(number))
    ensures AddressAt(alphabet, data, at) == Success((number, at + 2 + |SemiOctets(DigitsOf(number))|))
  {
    hide SemiOctets, NumericAddress;
    NumberRoundTrip(number);
    AddressFrom(alphabet, data, at, SemiOctets(DigitsOf(number)), 0, number);
  }

  /** A submitted PDU whose recipient is read comes down to its user data, behind whatever validity
      period its first octet announces. */
  lemma SubmitReaches(codec: Codec, pdu: seq<Byte>, p: nat, validity: nat, m: Message)
    requires codec.Valid() && p + 3 + validity <= |pdu| && pdu[0] == 0x00 && pdu[1] % 4 == 1
    requires D.ValidityOctets(pdu[1]) == validity
    requires AddressAt(codec.alphabet, pdu, 3) == Success((m.to, p))
    requires m == BLANK.(direction := Submitted, reference := Some(pdu[2]), to := m.to, protocolId := pdu[p],
                         codingScheme := pdu[p + 1])
    ensures D.PduOutcome(codec, pdu)
         == D.UserDataOutcome(codec, pdu[p + 3 + validity..], pdu[1], pdu[p + 1], pdu[p + 2 + validity], m)
  {
    hide AddressAt, D.UserDataOutcome, D.DeliverOutcome, D.StatusReportOutcome, NumericAddress;
    assert D.ServiceCentreOf(pdu[1..1]) == "";
  }

  lemma TpduIsPdu(codec: Codec, tpdu: seq<Byte>)
    requires codec.Valid() && |[0x00] + tpdu| >= 2
    ensures D.Decoded(codec, tpdu) == D.PduOutcome(codec, [0x00] + tpdu)
  {
    hide D.PduOutcome;
  }

  /** Decoding a stamped part comes down to decoding its user data. */
  lemma PartOutcome(codec: Codec, number: string, content: Content, header: seq<Byte>, mr: Byte)
    requires codec.Valid() && IsNumber(number)
    ensures D.Decoded(codec, Stamped(number, content, header, mr))
         == D.UserDataOutcome(codec, DataOctets(content, header), FirstOctet(header), CodingScheme(content),
                              DataLength(content, header) % 256, Announced(number, content, mr))
  {
    hide D.UserDataOutcome, D.PduOutcome, D.Decoded, Stamped, DataOctets, SemiOctets, DataLength, CodingScheme, AddressAt;
    var pdu := [0x00] + Stamped(number, content, header, mr);
    var digits := DigitsOf(number);
    var p := 5 + |SemiOctets(digits)|;
    Layout(number, content, header, mr);
    TpduIsPdu(codec, Stamped(number, content, header, mr));
    var head, middle := pdu[..5], pdu[p..p + 3];
    assert pdu[0] == head[0] && pdu[1] == head[1] && pdu[2] == head[2] && pdu[3] == head[3] && pdu[4] == head[4];
    assert pdu[p] == middle[0] && pdu[p + 1] == middle[1] && pdu[p + 2] == middle[2];
    NumberRead(codec.alphabet, number, pdu, 3);
    assert D.ValidityOctets(FirstOctet(header)) == 0;
    SubmitReaches(codec, pdu, p, 0, Announced(number, content, mr));
  }

  /** The header of a concatenated part says exactly which part of which message it is. */
  lemma HeaderMeans(reference: Byte, total: nat, sequence: nat)
    ensures var header := ConcatHeader(reference, total, sequence);
            var elements := D.ElementsOf(header[1..]);
            && D.ConcatIn(elements) == Some(ConcatInfo(reference, total % 256, sequence % 256))
            && D.LanguageIn(elements, 0x24).None? && D.LanguageIn(elements, 0x25).None?
            && !D.PortsIn(elements)
  {
    var body := ConcatHeader(reference, total, sequence)[1..];
    assert body == [0x00, 0x03, reference, total % 256, sequence % 256];
    var value: seq<Byte> := [reference, total % 256, sequence % 256];
    assert D.ElementsOf(body) == D.Element(0x00, value, D.End) by {
      assert body == [0x00, 0x03] + value;
      OneElement(0x00, value);
    }
  }

  lemma OneElement(identifier: Byte, value: seq<Byte>)
    requires |value| == 3
    ensures D.ElementsOf([identifier, 0x03] + value) == D.Element(identifier, value, D.End)
  {
    var body := [identifier, 0x03] + value;
    assert body[0] == identifier && body[1] == 0x03;
    assert body[2..5] == value;
    assert |body[5..]| == 0;
  }

  /** A header is absent or a concatenation header for one of at most 255 parts. */
  predicate IsPartHeader(header: seq<Byte>, concat: Option<ConcatInfo>) {
    || (header == [] && concat.None?)
    || (concat.Some? && concat.value.reference < 256 && concat.value.total < 256 && concat.value.sequence < 256
        && header == ConcatHeader(concat.value.reference, concat.value.total, concat.value.sequence))
  }

  lemma HeaderRead(header: seq<Byte>, concat: Option<ConcatInfo>, data: seq<Byte>)
    requires IsPartHeader(header, concat) && header != [] && header <= data
    ensures data[0] as int + 1 == |header| == 6
    ensures var elements := D.ElementsOf(data[1..6]);
            D.ConcatIn(elements) == concat && D.LanguageIn(elements, 0x24).None?
            && D.LanguageIn(elements, 0x25).None? && !D.PortsIn(elements)
  {
    HeaderMeans(concat.value.reference, concat.value.total, concat.value.sequence);
    assert data[1..6] == header[1..];
    assert data[0] == header[0];
  }

  /** The information elements of a part's header, without its length octet. */
  function HeaderBody(header: seq<Byte>): seq<Byte> {
    if header == [] then [] else header[1..]
  }

  /** Reading user data behind a part header: the place is recorded and the text decoder takes over. */
  lemma HeaderConsumed(codec: Codec, data: seq<Byte>, header: seq<Byte>, concat: Option<ConcatInfo>, dcs: Byte,
                       length: Byte, m: Message)
    requires codec.Valid() && m.concat.None?
    requires IsPartHeader(header, concat) && header <= data && D.ExpectedOctets(dcs, length) == |data|
    ensures D.UserDataOutcome(codec, data, FirstOctet(header), dcs, length, m)
         == D.TextOutcome(codec, data, HeaderBody(header), |header|, dcs, length, m.(concat := concat))
    ensures var elements := D.ElementsOf(HeaderBody(header));
            D.LanguageIn(elements, 0x24).None? && D.LanguageIn(elements, 0x25).None? && !D.PortsIn(elements)
  {
    hide D.ElementsOf, D.ConcatIn, D.LanguageIn, D.PortsIn, D.TextOutcome;
    assert data[..|data|] == data;
    if header != [] {
      HeaderRead(header, concat, data);
      assert data[1..6] == HeaderBody(header);
    } else {
      NoLanguage();
      assert m.(concat := None) == m;
    }
  }

  lemma NoLanguage()
    ensures D.ElementsOf([]) == D.End
    ensures forall identifier: Byte :: D.LanguageIn(D.End, identifier).None?
    ensures D.ConcatIn(D.End).None? && !D.PortsIn(D.End)
  {
  }

  /** GSM 7-bit user data is unpacked to its own septets whatever header precedes it, and read as far as
      they spell characters. */
  lemma Gsm7DataOutcome(codec: Codec, septets: seq<Byte>, header: seq<Byte>, concat: Option<ConcatInfo>, m: Message)
    requires codec.Valid() && m.concat.None?
    requires septets != [] && forall s :: s in septets ==> s < 128
    requires IsPartHeader(header, concat) && Fits(Gsm7Content(septets), header)
    ensures D.UserDataOutcome(codec, DataOctets(Gsm7Content(septets), header), FirstOctet(header), 0x00,
                              DataLength(Gsm7Content(septets), header) % 256, m)
         == (m.(concat := concat, encoding := Gsm7Pdu, text := Gsm7.Decoded(codec.alphabet, septets).0),
             if Gsm7.Decoded(codec.alphabet, septets).1 then None else Some(InvalidText))
  {
    hide Gsm7.Decoded, D.ElementsOf, D.LanguageIn, D.PortsIn, Unpacked, D.UserDataOutcome, D.TextOutcome, DataOctets, Fits,
         IsPartHeader, FirstOctet, D.ExpectedOctets;
    var data := DataOctets(Gsm7Content(septets), header);
    var length := DataLength(Gsm7Content(septets), header);
    Gsm7Form(septets, header);
    HeaderConsumed(codec, data, header, concat, 0x00, length, m);
    Gsm7TextOutcome(codec, data, HeaderBody(header), |header|, length, septets, m.(concat := concat));
  }

  /** Packed user data begins with its header, holds the septets behind it and takes the octets that its
      length announces. */
  lemma Gsm7Form(septets: seq<Byte>, header: seq<Byte>)
    requires septets != [] && (forall s :: s in septets ==> s < 128) && Fits(Gsm7Content(septets), header)
    ensures var data, length := DataOctets(Gsm7Content(septets), header), DataLength(Gsm7Content(septets), header);
            && header <= data && length < 256 && D.ExpectedOctets(0x00, length) == |data| && 7 * length <= 8 * |data|
            && Unpacked(data, |septets|, HeaderSeptets(|header|) * 7) == septets
  {
    hide Packed, Unpacked;
    var startBit := HeaderSeptets(|header|) * 7;
    UnpackInvertsPack(septets, startBit, header);
    PackedLayout(septets, startBit, header);
  }

  /** The GSM 7-bit branch of the text decoder where no language is selected. */
  lemma Gsm7TextOutcome(codec: Codec, data: seq<Byte>, header: seq<Byte>, headerOctets: nat, length: Byte,
                        septets: seq<Byte>, m: Message)
    requires codec.Valid() && headerOctets <= |data| && length as int * 7 <= 8 * |data|
    requires length == HeaderSeptets(headerOctets) + |septets|
    requires Unpacked(data, |septets|, HeaderSeptets(headerOctets) * 7) == septets
    requires D.LanguageIn(D.ElementsOf(header), 0x24).None? && D.LanguageIn(D.ElementsOf(header), 0x25).None?
    ensures D.TextOutcome(codec, data, header, headerOctets, 0x00, length, m)
         == (m.(encoding := Gsm7Pdu, text := Gsm7.Decoded(codec.alphabet, septets).0),
             if Gsm7.Decoded(codec.alphabet, septets).1 then None else Some(InvalidText))
  {
    hide Gsm7.Decoded, D.ElementsOf, D.LanguageIn, Unpacked;
  }

  /** Whole characters are read back without a fault. */
  lemma Gsm7DataRoundTrip(codec: Codec, septets: seq<Byte>, header: seq<Byte>, concat: Option<ConcatInfo>, m: Message)
    requires codec.Valid() && m.concat.None?
    requires septets != [] && Gsm7.WholeCharacters(codec.alphabet, septets)
    requires IsPartHeader(header, concat) && Fits(Gsm7Content(septets), header)
    ensures D.UserDataOutcome(codec, DataOctets(Gsm7Content(septets), header), FirstOctet(header), 0x00,
                              DataLength(Gsm7Content(septets), header) % 256, m)
         == (m.(concat := concat, encoding := Gsm7Pdu, text := Gsm7.Decoded(codec.alphabet, septets).0), None)
  {
    hide Gsm7.Decoded, Gsm7.WholeCharacters, D.UserDataOutcome, DataOctets, DataLength, FirstOctet, IsPartHeader, Fits;
    Gsm7.WholeCharactersSeparable(codec.alphabet, septets);
    Gsm7.DecodedAppend(codec.alphabet, septets, []);
    Gsm7DataOutcome(codec, septets, header, concat, m);
  }

  /** UCS-2 user data is read back as UCS-2 text exactly when the segment survives; any other
      segment loses its first unit, is reported in another encoding, or is refused. */
  lemma Ucs2DataRoundTrip(codec: Codec, units: seq<Utf16.Unit>, header: seq<Byte>, concat: Option<ConcatInfo>, m: Message)
    requires codec.Valid() && m.concat.None? && units != []
    requires IsPartHeader(header, concat) && Fits(Ucs2Content(Utf16.Octets(units)), header)
    ensures var (read, error) := D.UserDataOutcome(codec, DataOctets(Ucs2Content(Utf16.Octets(units)), header),
                                   FirstOctet(header), 0x08, DataLength(Ucs2Content(Utf16.Octets(units)), header) % 256, m);
            && (Utf16.Survives(codec.printable, units) ==>
                  error.None? && read == m.(concat := concat, encoding := Ucs2Pdu, text := Utf16.Decode(units)))
            && (!Utf16.Survives(codec.printable, units) ==>
                  error.Some? || read.encoding != Ucs2Pdu || |Utf16.Encode(read.text)| < |units|)
  {
    hide D.ElementsOf, D.LanguageIn, D.PortsIn, Utf16.Decode, Utf16.Octets, Utf16.DecodePayload, Utf16.Survives,
         D.UserDataOutcome, D.TextOutcome, Utf16.Encode, D.AlphabetOf, D.ExpectedOctets,
         DataOctets, DataLength, FirstOctet, IsPartHeader, HeaderBody;
    var octets := Utf16.Octets(units);
    var data := header + octets;
    Ucs2Form(octets, header);
    var length: Byte := |data|;
    assert data[|header|..] == octets;
    Ucs2Scheme(length);
    HeaderConsumed(codec, data, header, concat, 0x08, length, m);
    PayloadOutcome(codec.printable, units);
    Ucs2TextOutcome(codec, data, HeaderBody(header), |header|, length, m.(concat := concat));
  }

  lemma Ucs2Form(octets: seq<Byte>, header: seq<Byte>)
    requires Fits(Ucs2Content(octets), header)
    ensures DataOctets(Ucs2Content(octets), header) == header + octets
    ensures DataLength(Ucs2Content(octets), header) % 256 == |header + octets| < 256
  {
  }

  lemma Ucs2Scheme(length: Byte)
    ensures D.AlphabetOf(0x08) == D.Ucs2Alphabet && D.ExpectedOctets(0x08, length) == length
  {
  }

  /** The UCS-2 branch of the text decoder where no ports are addressed: a refused payload is
      never reported as UCS-2. */
  lemma Ucs2TextOutcome(codec: Codec, data: seq<Byte>, header: seq<Byte>, headerOctets: nat, length: Byte, m: Message)
    requires codec.Valid() && headerOctets <= |data| && !D.PortsIn(D.ElementsOf(header))
    ensures var (text, ok) := Utf16.DecodePayload(codec.printable, data[headerOctets..]);
            var (read, error) := D.TextOutcome(codec, data, header, headerOctets, 0x08, length, m);
            if ok then error.None? && read == m.(encoding := Ucs2Pdu, text := text)
            else error.Some? || read.encoding != Ucs2Pdu
  {
    hide D.ElementsOf, D.PortsIn, Utf16.DecodePayload, D.AlphabetOf;
    Ucs2Scheme(length);
  }

  /** What reading a payload back can come to. */
  lemma PayloadOutcome(printable: char -> bool, units: seq<Utf16.Unit>)
    requires units != []
    ensures var (text, ok) := Utf16.DecodePayload(printable, Utf16.Octets(units));
            && (Utf16.Survives(printable, units) ==> ok && text == Utf16.Decode(units))
            && (!Utf16.Survives(printable, units) ==> !ok || |Utf16.Encode(text)| < |units|)
  {
    Utf16.PayloadRoundTrip(printable, units);
    var payload := Utf16.Octets(units);
    assert payload[0] == units[0] / 256 && payload[1] == units[0] % 256;
    Utf16.UnitsUndoOctets(units);
    if units[0] == 0xfeff || units[0] == 0xfffe {
      Utf16.DecodeKeepsLength(Utf16.Units(payload[2..], units[0] == 0xfffe));
    }
  }

  // ---- Whole messages ----

  /** Place in the message, absent for a message of one part. */
  function PlaceOf(reference: Byte, total: nat, index: nat): Option<ConcatInfo> {
    if total == 1 then None else Some(ConcatInfo(reference, total, index + 1))
  }

  lemma PartHeader(reference: Byte, total: nat, index: nat)
    requires index < total <= 255
    ensures IsPartHeader(HeaderFor(reference, total, index), PlaceOf(reference, total, index))
  {
  }

  /** What a decoder makes of part `index` once stamped with message reference mr. */
  ghost function ReadBack(codec: Codec, number: string, reference: Byte, contents: seq<Content>, index: nat, mr: Byte): D.Outcome
    requires codec.Valid() && IsNumber(number) && index < |contents|
  {
    D.Decoded(codec, Stamped(number, contents[index], HeaderFor(reference, |contents|, index), mr))
  }

  /** A part read back in full: no error, the recipient, the reference it was stamped with,
      its place, and the encoding it was sent in. */
  ghost predicate PartArrives(codec: Codec, number: string, reference: Byte, contents: seq<Content>, index: nat, mr: Byte)
    requires codec.Valid() && IsNumber(number) && index < |contents|
  {
    var (m, error) := ReadBack(codec, number, reference, contents, index, mr);
    && error.None?
    && m.direction == Submitted && m.to == number && m.reference == Some(mr)
    && m.concat == PlaceOf(reference, |contents|, index)
    && m.encoding == EncodingOf(contents[index])
  }

  ghost function TextsRead(codec: Codec, number: string, reference: Byte, contents: seq<Content>, mrs: seq<Byte>): seq<string>
    requires codec.Valid() && IsNumber(number) && |mrs| == |contents|
  {
    seq(|contents|, i requires 0 <= i < |contents| => ReadBack(codec, number, reference, contents, i, mrs[i]).0.text)
  }

  /** The whole message arrives: every part does, and the texts read spell out the original. */
  ghost predicate Arrives(codec: Codec, number: string, reference: Byte, text: string, mrs: seq<Byte>)
    requires codec.Valid() && IsNumber(number) && |mrs| == |Contents(codec.encoder, text)|
  {
    var contents := Contents(codec.encoder, text);
    && (forall i :: 0 <= i < |contents| ==> PartArrives(codec, number, reference, contents, i, mrs[i]))
    && Segmentation.Flatten(TextsRead(codec, number, reference, contents, mrs)) == text
  }

  ghost predicate Gsm7Part(codec: Codec, number: string, reference: Byte, septets: seq<Byte>, contents: seq<Content>,
                           index: nat, mr: Byte)
    requires codec.Valid() && IsNumber(number) && index < |contents|
  {
    && PartArrives(codec, number, reference, contents, index, mr)
    && ReadBack(codec, number, reference, contents, index, mr).0.text == Gsm7.Decoded(codec.alphabet, septets).0
  }

  lemma Gsm7PartArrives(codec: Codec, number: string, reference: Byte, septets: seq<Byte>, contents: seq<Content>,
                        index: nat, mr: Byte)
    requires codec.Valid() && IsNumber(number) && index < |contents| <= 255
    requires contents[index] == Gsm7Content(septets) && septets != []
    requires Gsm7.WholeCharacters(codec.alphabet, septets)
    requires Fits(contents[index], HeaderFor(reference, |contents|, index))
    ensures Gsm7Part(codec, number, reference, septets, contents, index, mr)
  {
    hide D.UserDataOutcome, DataOctets, Gsm7.Decoded, Gsm7.WholeCharacters, Stamped, D.Decoded;
    PartHeader(reference, |contents|, index);
    PartOutcome(codec, number, contents[index], HeaderFor(reference, |contents|, index), mr);
    Gsm7DataRoundTrip(codec, septets, HeaderFor(reference, |contents|, index), PlaceOf(reference, |contents|, index),
                      Announced(number, contents[index], mr));
  }

  /** Every text in the GSM 7-bit alphabet arrives, for every recipient, references and alphabet. */
  lemma Gsm7MessageArrives(codec: Codec, recipient: string, text: string, reference: Byte, mrs: seq<Byte>)
    requires codec.Valid() && Refusal(codec.encoder, recipient, text).None?
    requires Gsm7.Encodable(codec.encoder, text) && |mrs| == |Contents(codec.encoder, text)|
    ensures Arrives(codec, Normalized(recipient).value, reference, text, mrs)
  {
    hide ReadBack, PartArrives, Gsm7.WholeCharacters, Gsm7.Decoded, Segmentation.LegalSplit, Gsm7Segments;
    var number := Normalized(recipient).value;
    var contents, segments := Contents(codec.encoder, text), Gsm7Segments(codec.encoder, text);
    var septets := Gsm7.Septets(codec.encoder, text);
    Gsm7.DecodeUndoesEncode(codec.alphabet, codec.encoder, text);
    Gsm7SegmentsLegal(codec, text);
    var read := TextsRead(codec, number, reference, contents, mrs);
    var texts := seq(|segments|, i requires 0 <= i < |segments| => Gsm7.Decoded(codec.alphabet, segments[i]).0);
    Gsm7.DecodedSegments(codec.alphabet, 160, segments, septets, texts);
    forall i | 0 <= i < |contents| ensures Gsm7Part(codec, number, reference, segments[i], contents, i, mrs[i]) {
      PartsFit(codec.encoder, text, reference, i);
      Gsm7PartArrives(codec, number, reference, segments[i], contents, i, mrs[i]);
    }
    assert read == texts;
  }

  lemma Gsm7SegmentsLegal(codec: Codec, text: string)
    requires codec.Valid() && Gsm7.Encodable(codec.encoder, text) && text != ""
    ensures Segmentation.LegalSplit(Gsm7.EscapePair, 160, Gsm7Segments(codec.encoder, text), Gsm7.Septets(codec.encoder, text))
    ensures forall i :: 0 <= i < |Gsm7Segments(codec.encoder, text)| ==> Gsm7Segments(codec.encoder, text)[i] != []
  {
    var septets := Gsm7.Septets(codec.encoder, text);
    SomeSeptets(codec, text);
    Gsm7.DecodeUndoesEncode(codec.alphabet, codec.encoder, text);
    Gsm7.WholeCharactersSeparable(codec.alphabet, septets);
    SplitIsLegal(Gsm7.EscapePair, 153, 160, septets);
  }

  /** One part when it fits the wide limit, the greedy split under the narrow limit otherwise. */
  lemma SplitIsLegal<T>(glued: Segmentation.Glue<T>, narrow: nat, wide: nat, s: seq<T>)
    requires 2 <= narrow <= wide && Segmentation.Separable(glued, s) && s != []
    ensures var segments := if |s| <= wide then [s] else Segmentation.Greedy(glued, narrow, s);
            && Segmentation.LegalSplit(glued, wide, segments, s)
            && forall i :: 0 <= i < |segments| ==> segments[i] != []
  {
    hide Segmentation.Separable;
    if |s| <= wide {
      OnePartIsLegal(glued, wide, s);
    } else {
      Segmentation.GreedyIsLegal(glued, narrow, s);
      forall i | 0 <= i < |Segmentation.Greedy(glued, narrow, s)| ensures Segmentation.Greedy(glued, narrow, s)[i] != [] {
        GreedyPartsBounded(glued, narrow, s, i);
      }
      WiderIsLegal(glued, narrow, wide, Segmentation.Greedy(glued, narrow, s), s);
    }
  }

  lemma SomeSeptets(codec: Codec, text: string)
    requires codec.Valid() && Gsm7.Encodable(codec.encoder, text) && text != ""
    ensures Gsm7.Septets(codec.encoder, text) != []
  {
    assert text[0] in codec.encoder;
  }

  lemma OnePartIsLegal<T>(glued: Segmentation.Glue<T>, maximum: nat, s: seq<T>)
    requires |s| <= maximum
    ensures Segmentation.LegalSplit(glued, maximum, [s], s)
  {
    assert [s][1..] == [] && s[|s|..] == [];
  }

  lemma {:induction false} WiderIsLegal<T>(glued: Segmentation.Glue<T>, narrow: nat, wide: nat, segments: seq<seq<T>>, s: seq<T>)
    requires narrow <= wide && Segmentation.LegalSplit(glued, narrow, segments, s)
    ensures Segmentation.LegalSplit(glued, wide, segments, s)
    decreases |segments|
  {
    if segments != [] {
      WiderIsLegal(glued, narrow, wide, segments[1..], s[|segments[0]|..]);
    }
  }

  /** A part arrives with its segment's text if the segment survives, and otherwise at best as
      a shorter text. */
  ghost predicate Ucs2Part(codec: Codec, number: string, reference: Byte, units: seq<Utf16.Unit>, contents: seq<Content>,
                           index: nat, mr: Byte)
    requires codec.Valid() && IsNumber(number) && index < |contents|
  {
    var read := ReadBack(codec, number, reference, contents, index, mr).0.text;
    if Utf16.Survives(codec.printable, units)
    then PartArrives(codec, number, reference, contents, index, mr) && read == Utf16.Decode(units)
    else PartArrives(codec, number, reference, contents, index, mr) ==> |Utf16.Encode(read)| < |units|
  }

  lemma Ucs2PartArrives(codec: Codec, number: string, reference: Byte, units: seq<Utf16.Unit>, contents: seq<Content>,
                        index: nat, mr: Byte)
    requires codec.Valid() && IsNumber(number) && index < |contents| <= 255
    requires contents[index] == Ucs2Content(Utf16.Octets(units)) && units != []
    requires Fits(contents[index], HeaderFor(reference, |contents|, index))
    ensures Ucs2Part(codec, number, reference, units, contents, index, mr)
  {
    hide D.UserDataOutcome, DataOctets, Utf16.Survives, Utf16.Octets, Utf16.Decode, Stamped, D.Decoded;
    PartHeader(reference, |contents|, index);
    PartOutcome(codec, number, contents[index], HeaderFor(reference, |contents|, index), mr);
    Ucs2DataRoundTrip(codec, units, HeaderFor(reference, |contents|, index), PlaceOf(reference, |contents|, index),
                      Announced(number, contents[index], mr));
  }

  /** Any other text arrives exactly when each of its segments survives. */
  lemma Ucs2MessageArrives(codec: Codec, recipient: string, text: string, reference: Byte, mrs: seq<Byte>)
    requires codec.Valid() && Refusal(codec.encoder, recipient, text).None?
    requires !Gsm7.Encodable(codec.encoder, text) && |mrs| == |Contents(codec.encoder, text)|
    ensures Arrives(codec, Normalized(recipient).value, reference, text, mrs)
       <==> forall i :: 0 <= i < |Ucs2Segments(text)| ==> Utf16.Survives(codec.printable, Ucs2Segments(text)[i])
  {
    hide ReadBack, PartArrives, Utf16.Survives, Ucs2Segments, Segmentation.LegalSplit, Utf16.Decode, Utf16.Encode;
    var number := Normalized(recipient).value;
    var contents, segments := Contents(codec.encoder, text), Ucs2Segments(text);
    var read := TextsRead(codec, number, reference, contents, mrs);
    SegmentsLegal(text);
    forall i | 0 <= i < |segments| ensures Ucs2Part(codec, number, reference, segments[i], contents, i, mrs[i]) {
      PartsFit(codec.encoder, text, reference, i);
      Ucs2PartArrives(codec, number, reference, segments[i], contents, i, mrs[i]);
    }
    if forall i :: 0 <= i < |segments| ==> Utf16.Survives(codec.printable, segments[i]) {
      Utf16.DecodedSegments(70, segments, Utf16.Encode(text), read);
      Utf16.DecodeUndoesEncode(text);
    } else if Arrives(codec, number, reference, text, mrs) {
      var k :| 0 <= k < |segments| && !Utf16.Survives(codec.printable, segments[k]);
      forall i | 0 <= i < |segments|
        ensures |Utf16.Encode(read[i])| <= |segments[i]| && (i == k ==> |Utf16.Encode(read[i])| < |segments[i]|)
      {
        assert PartArrives(codec, number, reference, contents, i, mrs[i]);
        if Utf16.Survives(codec.printable, segments[i]) { Utf16.DecodeKeepsLength(segments[i]); }
      }
      Segmentation.LegalSplitIsLossless(Utf16.SurrogatePair, 70, segments, Utf16.Encode(text));
      ShorterSomewhere(read, segments, k);
    }
  }

  /** A text that begins with a byte order mark never arrives. */
  lemma MarkedTextIsLost(codec: Codec, recipient: string, text: string, reference: Byte, mrs: seq<Byte>)
    requires codec.Valid() && codec.alphabet == Gsm7.STANDARD && Refusal(codec.encoder, recipient, text).None?
    requires |mrs| == |Contents(codec.encoder, text)| && text[0] == '\U{FEFF}'
    ensures !Arrives(codec, Normalized(recipient).value, reference, text, mrs)
  {
    hide Arrives, Contents, Gsm7.STANDARD;
    Gsm7.MarkIsNotStandard(codec.encoder);
    assert text[0] in text;
    Ucs2MessageArrives(codec, recipient, text, reference, mrs);
    FirstUnitLeads(text);
    assert !Utf16.Survives(codec.printable, Ucs2Segments(text)[0]);
  }

  lemma FirstUnitLeads(text: string)
    requires text != "" && text[0] == '\U{FEFF}'
    ensures var segments := Ucs2Segments(text); segments != [] && segments[0] != [] && segments[0][0] == 0xfeff
  {
    var units := Utf16.Encode(text);
    assert units[0] == 0xfeff;
    assert |units| > 70 ==> Ucs2Segments(text)[0] == units[..Segmentation.FirstPart(Utf16.SurrogatePair, 67, units)];
  }

  /** Such as the mark alone, sent to any number. */
  lemma LoneMarkIsLost(codec: Codec, number: string, reference: Byte, mr: Byte)
    requires codec.Valid() && codec.alphabet == Gsm7.STANDARD && IsNumber(number)
    ensures var text := "\U{FEFF}";
            && Refusal(codec.encoder, number, text).None? && |Contents(codec.encoder, text)| == 1
            && !Arrives(codec, number, reference, text, [mr])
  {
    hide Arrives, Gsm7.STANDARD, Normalized;
    var text := "\U{FEFF}";
    NumberIsNormal(number);
    Gsm7.MarkIsNotStandard(codec.encoder);
    assert text[0] in text;
    assert Utf16.Encode(text) == [0xfeff] by { assert text[1..] == ""; }
    MarkedTextIsLost(codec, number, text, reference, [mr]);
  }

  lemma SegmentsLegal(text: string)
    requires text != ""
    ensures Segmentation.LegalSplit(Utf16.SurrogatePair, 70, Ucs2Segments(text), Utf16.Encode(text))
    ensures forall i :: 0 <= i < |Ucs2Segments(text)| ==> Ucs2Segments(text)[i] != []
  {
    Utf16.UnitsSeparable(Utf16.Encode(text));
    SplitIsLegal(Utf16.SurrogatePair, 67, 70, Utf16.Encode(text));
  }

  lemma {:induction false} EncodeAppend(s: string, t: string)
    ensures Utf16.Encode(s + t) == Utf16.Encode(s) + Utf16.Encode(t)
  {
    if s == [] {
      assert s + t == t;
    } else {
      EncodeAppend(s[1..], t);
      var u := s + t;
      assert u[0] == s[0] && u[1..] == s[1..] + t;
      Segmentation.Associate(Utf16.EncodeChar(s[0]), Utf16.Encode(s[1..]), Utf16.Encode(t));
    }
  }

  /** Texts that take no more units than their segments, and fewer for one, cannot spell the same message. */
  lemma {:induction false} ShorterSomewhere(texts: seq<string>, segments: seq<seq<Utf16.Unit>>, k: nat)
    requires |texts| == |segments|
    requires forall i :: 0 <= i < |texts| ==> |Utf16.Encode(texts[i])| <= |segments[i]|
    requires k < |texts| ==> |Utf16.Encode(texts[k])| < |segments[k]|
    ensures |Utf16.Encode(Segmentation.Flatten(texts))| <= |Segmentation.Flatten(segments)|
    ensures k < |texts| ==> |Utf16.Encode(Segmentation.Flatten(texts))| < |Segmentation.Flatten(segments)|
  {
    if texts != [] {
      EncodeAppend(texts[0], Segmentation.Flatten(texts[1..]));
      ShorterSomewhere(texts[1..], segments[1..], if k == 0 then |texts| else k - 1);
    }
  }

  /** Splitting is only refused when no legal split into 255 parts exists. */
  lemma RefusedExactlyWhenTooLong(encoder: Gsm7.Encoder, alphabet: Gsm7.Alphabet, recipient: string, text: string)
    requires alphabet.Valid() && Gsm7.IsEncoder(alphabet, encoder)
    requires Normalized(recipient).Success? && text != "" && '\0' !in text
    ensures Gsm7.Encodable(encoder, text) ==>
      (Refusal(encoder, recipient, text) == Some(TooLong) <==>
        && |Gsm7.Septets(encoder, text)| > 160
        && !exists rival :: Segmentation.LegalSplit(Gsm7.EscapePair, 153, rival, Gsm7.Septets(encoder, text)) && |rival| <= 255)
    ensures !Gsm7.Encodable(encoder, text) ==>
      (Refusal(encoder, recipient, text) == Some(TooLong) <==>
        && |Utf16.Encode(text)| > 70
        && !exists rival :: Segmentation.LegalSplit(Utf16.SurrogatePair, 67, rival, Utf16.Encode(text)) && |rival| <= 255)
  {
    hide Segmentation.Greedy, Segmentation.LegalSplit, Segmentation.Separable, Gsm7.Septets, Utf16.Encode;
    if Gsm7.Encodable(encoder, text) {
      var septets := Gsm7.Septets(encoder, text);
      Gsm7.DecodeUndoesEncode(alphabet, encoder, text);
      Gsm7.WholeCharactersSeparable(alphabet, septets);
      Segmentation.TooLongExactly(Gsm7.EscapePair, 153, septets, 255);
    } else {
      Utf16.UnitsSeparable(Utf16.Encode(text));
      Segmentation.TooLongExactly(Utf16.SurrogatePair, 67, Utf16.Encode(text), 255);
    }
  }

  // ---- The send command ----

  /** Message reference of part i, counting on from a random seed in one octet. */
  function ReferenceOf(seed: Byte, i: nat): Byte {
    (seed as int + i) % 256
  }

  /** The parts of one message have different message references. */
  lemma ReferencesDistinct(seed: Byte, i: nat, j: nat)
    requires i < j < 256
    ensures ReferenceOf(seed, i) != ReferenceOf(seed, j)
  {
  }

  /** The stamping loop of the send command: part i gets reference seed+i, in one octet. */
  method StampParts(units: seq<SubmitUnit>, seed: Byte) returns (stamped: seq<(Byte, seq<Byte>)>)
    requires forall i :: 0 <= i < |units| ==> |units[i].tpdu| >= 2
    ensures |stamped| == |units|
    ensures forall i :: 0 <= i < |units| ==>
              stamped[i] == (ReferenceOf(seed, i), units[i].tpdu[1 := ReferenceOf(seed, i)])
  {
    stamped := [];
    for i := 0 to |units|
      invariant |stamped| == i
      invariant forall k :: 0 <= k < i ==>
                  stamped[k] == (ReferenceOf(seed, k), units[k].tpdu[1 := ReferenceOf(seed, k)])
    {
      var ref := ReferenceOf(seed, i);
      stamped := stamped + [(ref, units[i].tpdu[1 := ref])];
    }
  }
}
