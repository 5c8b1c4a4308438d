/** UTF-16 code units and the UCS-2 user data of a message (3GPP TS 23.038 section 6.2.3).

    Text is a sequence of Unicode scalar values; a code unit is a number below 0x10000. */
module Utf16 {
  import opened Bits
  import opened Segmentation

  type Unit = x: int | 0 <= x < 0x1_0000

  const REPLACEMENT: char := '\U{FFFD}'

  predicate High(u: Unit) { 0xd800 <= u <= 0xdbff }

  predicate LowSurrogate(u: Unit) { 0xdc00 <= u <= 0xdfff }

  /** A high surrogate belongs with the low surrogate after it. */
  predicate SurrogatePair(first: Unit, second: Unit) {
    High(first) && LowSurrogate(second)
  }

  function EncodeChar(c: char): seq<Unit> {
    var v := c as int;
    if v < 0x1_0000 then [v]
    else [0xd800 + (v - 0x1_0000) / 0x400, 0xdc00 + (v - 0x1_0000) % 0x400]
  }

  function Encode(text: string): seq<Unit> {
    if text == [] then [] else EncodeChar(text[0]) + Encode(text[1..])
  }

  function PairValue(high: Unit, low: Unit): char
    requires SurrogatePair(high, low)
  {
    (0x1_0000 + (high - 0xd800) * 0x400 + (low - 0xdc00)) as char
  }

  /** The first character of some units and the number of units it takes; an unpaired
      surrogate reads as the replacement character. */
  function First(units: seq<Unit>): (r: (char, nat))
    requires units != []
    ensures 0 < r.1 <= |units|
  {
    if !High(units[0]) && !LowSurrogate(units[0]) then (units[0] as char, 1)
    else if |units| >= 2 && SurrogatePair(units[0], units[1]) then (PairValue(units[0], units[1]), 2)
    else (REPLACEMENT, 1)
  }

  function Decode(units: seq<Unit>): string
    decreases |units|
  {
    if units == [] then ""
    else
      var (c, k) := First(units);
      [c] + Decode(units[k..])
  }

  lemma {:induction false} DecodeUndoesEncode(text: string)
    ensures Decode(Encode(text)) == text
  {
    if text != [] {
      DecodeUndoesEncode(text[1..]);
      var head, rest := EncodeChar(text[0]), Encode(text[1..]);
      assert (head + rest)[|head|..] == rest;
      assert text == [text[0]] + text[1..];
      if text[0] as int >= 0x1_0000 {
        var v := text[0] as int - 0x1_0000;
        assert v == v / 0x400 * 0x400 + v % 0x400;
        assert (head + rest)[0] == head[0] && (head + rest)[1] == head[1];
      }
    }
  }

  lemma FirstOfAppend(s: seq<Unit>, t: seq<Unit>)
    requires s != [] && CutAllowed(SurrogatePair, s + t, |s|)
    ensures First(s + t) == First(s)
  {
    var u := s + t;
    assert u[0] == s[0];
    if |s| >= 2 {
      assert u[1] == s[1];
    } else if t != [] {
      assert u[|s| - 1] == s[0] && u[|s|] == t[0];
    }
  }

  /** Decoding distributes over concatenation unless the seam separates a surrogate pair. */
  lemma {:induction false} DecodeAppend(s: seq<Unit>, t: seq<Unit>)
    requires CutAllowed(SurrogatePair, s + t, |s|)
    ensures Decode(s + t) == Decode(s) + Decode(t)
    decreases |s|
  {
    if s == [] {
      assert s + t == t;
    } else {
      var u := s + t;
      FirstOfAppend(s, t);
      var (c, k) := First(s);
      assert u[k..] == s[k..] + t;
      assert CutAllowed(SurrogatePair, s[k..] + t, |s| - k) by {
        if 0 < |s| - k < |u| - k {
          assert u[k..][|s| - k - 1] == u[|s| - 1] && u[k..][|s| - k] == u[|s|];
        }
      }
      DecodeAppend(s[k..], t);
    }
  }

  lemma UnitsSeparable(units: seq<Unit>)
    ensures Separable(SurrogatePair, units)
  {
  }

  /** Decoding the segments of a legal split one by one spells out the whole text. */
  lemma {:induction false} DecodedSegments(maximum: nat, segments: seq<seq<Unit>>, units: seq<Unit>, texts: seq<string>)
    requires LegalSplit(SurrogatePair, maximum, segments, units)
    requires |texts| == |segments| && forall i :: 0 <= i < |texts| ==> texts[i] == Decode(segments[i])
    ensures Flatten(texts) == Decode(units)
    decreases |segments|
  {
    if segments != [] {
      var first, rest := segments[0], units[|segments[0]|..];
      assert units == first + rest;
      DecodeAppend(first, rest);
      DecodedSegments(maximum, segments[1..], rest, texts[1..]);
    }
  }

  method SplitUcs2(units: seq<Unit>, maximum: nat) returns (result: seq<seq<Unit>>)
    requires maximum >= 2
    ensures result == Greedy(SurrogatePair, maximum, units)
  {
    result := [];
    var rest := units;
    while |rest| > 0
      invariant result + Greedy(SurrogatePair, maximum, rest) == Greedy(SurrogatePair, maximum, units)
      decreases |rest|
    {
      var count := maximum;
      if count > |rest| {
        count := |rest|;
      }
      if count < |rest| && 0xd800 <= rest[count - 1] <= 0xdbff && 0xdc00 <= rest[count] <= 0xdfff {
        count := count - 1;
      }
      assert count == FirstPart(SurrogatePair, maximum, rest);
      GreedyUnfolds(SurrogatePair, maximum, rest, result);
      result := result + [rest[..count]];
      rest := rest[count..];
    }
  }

  /** Big-endian octets of the units. */
  function Octets(units: seq<Unit>): (r: seq<Byte>)
    ensures |r| == 2 * |units|
  {
    if units == [] then [] else [units[0] / 256, units[0] % 256] + Octets(units[1..])
  }

  method EncodeUnits(units: seq<Unit>) returns (r: seq<Byte>)
    ensures r == Octets(units)
  {
    r := [];
    for i := 0 to |units|
      invariant r == Octets(units[..i])
    {
      assert units[..i + 1] == units[..i] + [units[i]];
      OctetsAppend(units[..i], [units[i]]);
      r := r + [units[i] / 256, units[i] % 256];
    }
    assert units[..|units|] == units;
  }

  lemma {:induction false} OctetsAppend(s: seq<Unit>, t: seq<Unit>)
    ensures Octets(s + t) == Octets(s) + Octets(t)
  {
    if s == [] {
      assert s + t == t;
    } else {
      OctetsAppend(s[1..], t);
      var head, u := [s[0] / 256, s[0] % 256], s + t;
      assert u[0] == s[0] && u[1..] == s[1..] + t;
      assert Octets(u) == head + Octets(u[1..]);
      Associate(head, Octets(s[1..]), Octets(t));
    }
  }

  function FromOctets(high: Byte, low: Byte): Unit {
    high as int * 256 + low as int
  }

  /** The units of an even number of octets, in the stated byte order. */
  function Units(payload: seq<Byte>, littleEndian: bool): (r: seq<Unit>)
    requires |payload| % 2 == 0
    ensures |r| == |payload| / 2
  {
    if payload == [] then []
    else [if littleEndian then FromOctets(payload[1], payload[0]) else FromOctets(payload[0], payload[1])]
         + Units(payload[2..], littleEndian)
  }

  lemma {:induction false} UnitsUndoOctets(units: seq<Unit>)
    ensures Units(Octets(units), false) == units
  {
    if units != [] {
      UnitsUndoOctets(units[1..]);
      assert Octets(units)[2..] == Octets(units[1..]);
      assert units == [units[0]] + units[1..];
    }
  }

  /** At least 90% of the characters print or are line breaks or tabs. */
  predicate Readable(printable: char -> bool, text: string) {
    100 * CountReadable(printable, text) >= 90 * |text|
  }

  function CountReadable(printable: char -> bool, text: string): nat {
    if text == [] then 0
    else (if printable(text[0]) || text[0] in "\n\r\t" then 1 else 0) + CountReadable(printable, text[1..])
  }

  /** What the payload of a UCS-2 message says, and whether it is acceptable text: a
      leading byte order mark is dropped and selects the byte order, and a payload
      with an unpaired surrogate or too little readable text is refused. */
  function DecodePayload(printable: char -> bool, payload: seq<Byte>): (string, bool) {
    if payload == [] then ("", true)
    else if |payload| % 2 != 0 then ("", false)
    else
      var littleEndian := payload[0] == 0xff && payload[1] == 0xfe;
      var marked := (payload[0] == 0xfe && payload[1] == 0xff) || littleEndian;
      var text := Decode(Units(if marked then payload[2..] else payload, littleEndian));
      (text, REPLACEMENT !in text && Readable(printable, text))
  }

  lemma UnitsFrom(data: seq<Byte>, index: nat, littleEndian: bool)
    requires index + 2 <= |data| && |data| % 2 == 0 && index % 2 == 0
    ensures var unit := if littleEndian then FromOctets(data[index + 1], data[index])
                        else FromOctets(data[index], data[index + 1]);
            Units(data[index..], littleEndian) == [unit] + Units(data[index + 2..], littleEndian)
  {
    assert data[index..][2..] == data[index + 2..];
  }

  /** The unit-reading loop of DecodeUtf16Bytes. */
  method ReadUnits(data: seq<Byte>, littleEndian: bool) returns (units: seq<Unit>)
    requires |data| % 2 == 0
    ensures units == Units(data, littleEndian)
  {
    units := [];
    var index := 0;
    assert data[0..] == data;
    while index < |data|
      invariant 0 <= index <= |data| && index % 2 == 0
      invariant units + Units(data[index..], littleEndian) == Units(data, littleEndian)
    {
      var unit := FromOctets(data[index], data[index + 1]);
      if littleEndian {
        unit := FromOctets(data[index + 1], data[index]);
      }
      UnitsFrom(data, index, littleEndian);
      Associate(units, [unit], Units(data[index + 2..], littleEndian));
      units := units + [unit];
      index := index + 2;
    }
  }

  method DecodeUtf16Bytes(printable: char -> bool, payload: seq<Byte>) returns (text: string, ok: bool)
    ensures (text, ok) == DecodePayload(printable, payload)
  {
    if |payload| == 0 {
      return "", true;
    }
    if |payload| % 2 != 0 {
      return "", false;
    }
    var data := payload;
    var littleEndian := data[0] == 0xff && data[1] == 0xfe;
    if (data[0] == 0xfe && data[1] == 0xff) || littleEndian {
      data := data[2..];
    }
    var units := ReadUnits(data, littleEndian);
    text := Decode(units);
    var readable := ReadableText(printable, text);
    ok := REPLACEMENT !in text && readable;
  }

  method ReadableText(printable: char -> bool, text: string) returns (r: bool)
    ensures r == Readable(printable, text)
  {
    if text == "" {
      return true;
    }
    var count, total := 0, 0;
    for i := 0 to |text|
      invariant total == i
      invariant count + CountReadable(printable, text[i..]) == CountReadable(printable, text)
    {
      total := total + 1;
      if printable(text[i]) || text[i] == '\n' || text[i] == '\r' || text[i] == '\t' {
        count := count + 1;
      }
    }
    return count * 100 >= total * 90;
  }

  /** A segment survives: its first unit is not read as a byte order mark, and its
      text has no replacement character and is readable. */
  predicate Survives(printable: char -> bool, units: seq<Unit>) {
    && units != []
    && units[0] != 0xfeff && units[0] != 0xfffe
    && REPLACEMENT !in Decode(units)
    && Readable(printable, Decode(units))
  }

  /** Decode produces one unit's worth of text per unit: re-encoding has the same length. */
  lemma {:induction false} DecodeKeepsLength(units: seq<Unit>)
    ensures |Encode(Decode(units))| == |units|
    decreases |units|
  {
    if units != [] {
      var k := First(units).1;
      DecodeKeepsLength(units[k..]);
      assert Decode(units)[1..] == Decode(units[k..]);
    }
  }

  /** The payload of a segment decodes to the segment's text, and is accepted, exactly
      when the segment survives. */
  lemma PayloadRoundTrip(printable: char -> bool, units: seq<Unit>)
    requires units != []
    ensures DecodePayload(printable, Octets(units)) == (Decode(units), true) <==> Survives(printable, units)
  {
    var payload := Octets(units);
    assert payload[0] == units[0] / 256 && payload[1] == units[0] % 256;
    UnitsUndoOctets(units);
    if units[0] == 0xfeff || units[0] == 0xfffe {
      var read := Units(payload[2..], units[0] == 0xfffe);
      DecodeKeepsLength(units);
      DecodeKeepsLength(read);
    }
  }
}
