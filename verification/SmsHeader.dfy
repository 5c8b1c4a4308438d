/** Information elements of a user data header (3GPP TS 23.040 section 9.2.3.24) and coding schemes
    (TS 23.038 section 4): what each of them makes of the text, wherever it stands. */
module SmsHeader {
  import opened Bits
  import opened Wrappers
  import opened SmsTypes
  import opened SmsAddress
  import opened Septets
  import D = SmsDecode
  import Gsm7
  import Segmentation

  datatype Part = Part(identifier: Byte, value: seq<Byte>) {
    predicate Writable() { |value| < 256 }
  }

  function Written(parts: seq<Part>): seq<Byte>
    requires forall p :: p in parts ==> p.Writable()
  {
    if parts == [] then []
    else
      assert parts[0].Writable();
      [parts[0].identifier, |parts[0].value|] + parts[0].value + Written(parts[1..])
  }

  lemma ElementFirst(part: Part, rest: seq<Byte>)
    requires part.Writable()
    ensures D.ElementsOf([part.identifier, |part.value|] + part.value + rest)
         == D.Element(part.identifier, part.value, D.ElementsOf(rest))
  {
    var header := [part.identifier, |part.value|] + part.value + rest;
    assert header[2..2 + |part.value|] == part.value && header[2 + |part.value|..] == rest;
  }

  /** A part in front of anything. */
  lemma WrittenFirst(parts: seq<Part>, rest: seq<Byte>)
    requires parts != [] && forall p :: p in parts ==> p.Writable()
    ensures parts[0].Writable() && forall p :: p in parts[1..] ==> p.Writable()
    ensures D.ElementsOf(Written(parts) + rest)
         == D.Element(parts[0].identifier, parts[0].value, D.ElementsOf(Written(parts[1..]) + rest))
  {
    assert parts[0].Writable();
    var first := [parts[0].identifier, |parts[0].value|] + parts[0].value;
    Segmentation.Associate(first, Written(parts[1..]), rest);
    ElementFirst(parts[0], Written(parts[1..]) + rest);
  }

  // ---- Concatenation ----

  /** A reference of one octet under identifier 0 or of two, the high one first, under 8; then how many
      parts there are and which one this is. */
  function Concatenation(info: ConcatInfo, wide: bool): Part
    requires info.total < 256 && info.sequence < 256 && info.reference < if wide then 0x1_0000 else 0x100
  {
    if wide then Part(0x08, [info.reference / 256, info.reference % 256, info.total, info.sequence])
    else Part(0x00, [info.reference, info.total, info.sequence])
  }

  predicate Concatenates(p: Part) {
    (p.identifier == 0x00 && |p.value| == 3) || (p.identifier == 0x08 && |p.value| == 4)
  }

  /** The first concatenation element counts, whatever other elements stand before it and whatever
      octets after it. */
  lemma {:induction false} FirstConcatenationCounts(before: seq<Part>, info: ConcatInfo, wide: bool, after: seq<Byte>)
    requires forall p :: p in before ==> p.Writable() && !Concatenates(p)
    requires info.total < 256 && info.sequence < 256 && info.reference < if wide then 0x1_0000 else 0x100
    ensures D.ConcatIn(D.ElementsOf(Written(before) + (Written([Concatenation(info, wide)]) + after))) == Some(info)
    decreases |before|
  {
    hide D.ElementsOf, Written;
    var part := Concatenation(info, wide);
    var rest := Written([part]) + after;
    if before == [] {
      WrittenNothing(rest);
      WrittenFirst([part], after);
    } else {
      WrittenFirst(before, rest);
      assert before[0] in before;
      FirstConcatenationCounts(before[1..], info, wide, after);
    }
  }

  lemma WrittenNothing(rest: seq<Byte>)
    ensures Written([]) + rest == rest
  {
  }

  // ---- Languages ----

  lemma {:induction false} LanguageCounts(before: seq<Part>, identifier: Byte, language: Byte, after: seq<Byte>)
    requires forall p :: p in before ==> p.Writable() && !(p.identifier == identifier && |p.value| == 1)
    ensures D.LanguageIn(D.ElementsOf(Written(before) + (Written([Part(identifier, [language])]) + after)), identifier)
         == Some(language)
    decreases |before|
  {
    hide D.ElementsOf, Written;
    var part := Part(identifier, [language]);
    var rest := Written([part]) + after;
    if before == [] {
      WrittenNothing(rest);
      WrittenFirst([part], after);
    } else {
      WrittenFirst(before, rest);
      assert before[0] in before;
      LanguageCounts(before[1..], identifier, language, after);
    }
  }

  lemma {:induction false} NoLanguageHere(parts: seq<Part>, identifier: Byte)
    requires forall p :: p in parts ==> p.Writable() && p.identifier != identifier
    ensures D.LanguageIn(D.ElementsOf(Written(parts)), identifier).None?
    decreases |parts|
  {
    hide D.ElementsOf;
    assert Written(parts) + [] == Written(parts);
    if parts == [] {
      NoElements();
    } else {
      WrittenFirst(parts, []);
      assert Written(parts[1..]) + [] == Written(parts[1..]);
      assert parts[0] in parts;
      NoLanguageHere(parts[1..], identifier);
    }
  }

  lemma NoElements()
    ensures D.ElementsOf([]) == D.End
  {
  }

  /** Identifier 0x24 selects the single shift table of a language and 0x25 its locking shift table, also
      beside other elements. */
  lemma TablesSelected(codec: Codec, septets: seq<Byte>, before: seq<Part>, language: Byte)
    requires codec.Valid()
    requires forall p :: p in before ==> p.Writable() && p.identifier != 0x24 && p.identifier != 0x25
    ensures D.Gsm7TextOf(codec, septets, Written(before + [Part(0x25, [language])])) == codec.national(septets, Some(language), None)
    ensures D.Gsm7TextOf(codec, septets, Written(before + [Part(0x24, [language])])) == codec.national(septets, None, Some(language))
  {
    hide D.ElementsOf, Written, D.LanguageIn;
    OneTable(before, 0x25, 0x24, language);
    OneTable(before, 0x24, 0x25, language);
  }

  lemma OneTable(before: seq<Part>, identifier: Byte, other: Byte, language: Byte)
    requires forall p :: p in before ==> p.Writable() && p.identifier != identifier && p.identifier != other
    requires identifier != other
    ensures forall p :: p in before + [Part(identifier, [language])] ==> p.Writable()
    ensures var elements := D.ElementsOf(Written(before + [Part(identifier, [language])]));
            D.LanguageIn(elements, identifier) == Some(language) && D.LanguageIn(elements, other).None?
  {
    hide D.ElementsOf, D.LanguageIn, Written;
    LanguageCounts(before, identifier, language, []);
    WrittenLast(before, Part(identifier, [language]));
    NoLanguageHere(before + [Part(identifier, [language])], other);
  }

  lemma {:induction false} WrittenLast(before: seq<Part>, last: Part)
    requires last.Writable() && forall p :: p in before ==> p.Writable()
    ensures Written(before + [last]) == Written(before) + (Written([last]) + [])
    decreases |before|
  {
    assert Written([last]) + [] == Written([last]);
    if before == [] {
      assert before + [last] == [last];
    } else {
      assert (before + [last])[1..] == before[1..] + [last] && before[0].Writable();
      WrittenLast(before[1..], last);
      Segmentation.Associate([before[0].identifier, |before[0].value|] + before[0].value, Written(before[1..]), Written([last]));
    }
  }

  // ---- Ports ----

  predicate Ports(p: Part) {
    (p.identifier == 0x04 && |p.value| == 2) || (p.identifier == 0x05 && |p.value| == 4)
  }

  /** Ports are addressed exactly when some element addresses them. */
  lemma {:induction false} PortsAddressed(parts: seq<Part>)
    requires forall p :: p in parts ==> p.Writable()
    ensures D.PortsIn(D.ElementsOf(Written(parts))) <==> exists p :: p in parts && Ports(p)
    decreases |parts|
  {
    hide D.ElementsOf;
    assert Written(parts) + [] == Written(parts);
    if parts == [] {
      NoElements();
    } else {
      WrittenFirst(parts, []);
      assert Written(parts[1..]) + [] == Written(parts[1..]);
      PortsAddressed(parts[1..]);
      if p :| p in parts[1..] && Ports(p) { assert p in parts; }
      if p :| p in parts && Ports(p) { assert p == parts[0] || p in parts[1..]; }
      assert parts[0] in parts;
    }
  }

  // ---- Octets that are not text ----

  function HexValue(c: char): nat {
    if '0' <= c <= '9' then c as int - '0' as int else if 'A' <= c <= 'F' then c as int - 'A' as int + 10 else 0
  }

  function FromHex(s: string): seq<nat>
    decreases |s|
  {
    if |s| < 2 then [] else [16 * HexValue(s[0]) + HexValue(s[1])] + FromHex(s[2..])
  }

  lemma {:induction false} HexReadBack(data: seq<Byte>)
    ensures |D.UpperHex(data)| == 2 * |data| && FromHex(D.UpperHex(data)) == data
  {
    if data != [] {
      HexReadBack(data[1..]);
      var s := D.UpperHex(data);
      assert s[2..] == D.UpperHex(data[1..]);
      HexDigitValue(data[0] / 16);
      HexDigitValue(data[0] % 16);
      assert data[0] == 16 * (data[0] / 16) + data[0] % 16;
    }
  }

  lemma HexDigitValue(d: Byte)
    requires d < 16
    ensures HexValue(D.HexDigit(d)) == d
  {
  }

  /** Eight-bit data for a port is never taken for text: its octets are reported as they are. */
  lemma PortDataKept(codec: Codec, data: seq<Byte>, parts: seq<Part>, headerOctets: nat, dcs: Byte, length: Byte, m: Message)
    requires codec.Valid() && headerOctets <= |data| && D.AlphabetOf(dcs) == D.EightBitAlphabet
    requires forall p :: p in parts ==> p.Writable()
    requires exists p :: p in parts && Ports(p)
    ensures var (read, error) := D.TextOutcome(codec, data, Written(parts), headerOctets, dcs, length, m);
            error.None? && read.encoding == EightBitPdu && FromHex(read.text) == data[headerOctets..]
  {
    hide D.ElementsOf, D.UpperHex, Written, D.PortsIn;
    PortsAddressed(parts);
    HexReadBack(data[headerOctets..]);
  }

  // ---- Coding schemes ----

  function AlphabetNumber(n: nat): D.SmsAlphabet {
    match n
    case 0 => D.Gsm7Alphabet
    case 1 => D.EightBitAlphabet
    case 2 => D.Ucs2Alphabet
    case _ => D.UnknownAlphabet
  }

  /** General data coding and automatic deletion (groups 00xx and 01xx): bits 2 and 3 number the
      alphabet whatever bits 0, 1 and 4 say, unless bit 5 says the text is compressed. */
  lemma GeneralCoding(deletion: bool, compressed: bool, hasClass: bool, alphabet: nat, class_: nat)
    requires alphabet < 4 && class_ < 4
    ensures D.AlphabetOf((if deletion then 0x40 else 0) + (if compressed then 0x20 else 0) + (if hasClass then 0x10 else 0)
                         + 4 * alphabet + class_)
         == if compressed then D.UnknownAlphabet else AlphabetNumber(alphabet)
  {
  }

  /** Message waiting groups 1100 and 1101 carry GSM 7-bit text and 1110 UCS-2, whatever they indicate; in
      group 1111 bit 2 chooses between GSM 7-bit text and eight-bit data; 1000 to 1011 are reserved. */
  lemma OtherGroups(group: nat, low: nat)
    requires 8 <= group < 16 && low < 16
    ensures D.AlphabetOf(16 * group + low)
         == if group < 12 then D.UnknownAlphabet
            else if group < 14 then D.Gsm7Alphabet
            else if group == 14 then D.Ucs2Alphabet
            else if low / 4 % 2 == 1 then D.EightBitAlphabet
            else D.Gsm7Alphabet
  {
  }

  // ---- Senders whose length counts characters ----

  /** An alphanumeric sender whose length octet counts its characters is read in full as well, exactly
      where the standard reading of that length is ruled out by set bits after its last septet. */
  lemma CountedSenderRead(a: Gsm7.Alphabet, septets: seq<Byte>, toa: Byte, data: seq<Byte>, at: nat)
    requires a.Valid() && Gsm7.WholeCharacters(a, septets) && |septets| < 256 && TypeOfNumber(toa) == 5
    requires at + 2 + |Packed(septets, 0)| <= |data|
    requires data[at] == |septets| && data[at + 1] == toa && data[at + 2..at + 2 + |Packed(septets, 0)|] == Packed(septets, 0)
    requires !ZeroPadded(Packed(septets, 0)[..(|septets| + 1) / 2], 4 * |septets| / 7)
    ensures AddressAt(a, data, at) == Success((Gsm7.Decoded(a, septets).0, at + 2 + (7 * |septets| + 7) / 8))
  {
    hide Gsm7.Decoded, Gsm7.WholeCharacters, ZeroPadded;
    var n, packed := |septets|, Packed(septets, 0);
    assert data[at + 2..at + 2 + (n + 1) / 2] == packed[..(n + 1) / 2] by {
      assert data[at + 2..at + 2 + |packed|][..(n + 1) / 2] == data[at + 2..at + 2 + (n + 1) / 2];
    }
    PackedSenderName(a, septets);
    AddressFrom(a, data, at, packed, n, Gsm7.Decoded(a, septets).0);
  }
}
