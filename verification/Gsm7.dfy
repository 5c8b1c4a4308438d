/** The GSM 7-bit default alphabet (3GPP TS 23.038 section 6.2.1): text to septets and back.

    The codec is stated over any alphabet of 128 basic characters with an extension
    table reached through the escape code; STANDARD is the one the program embeds. */
module Gsm7 {
  import opened Bits
  import opened Wrappers
  import Segmentation

  const ESCAPE: Byte := 0x1b

  datatype Alphabet = Alphabet(basic: seq<char>, extensions: map<Byte, char>) {
    /** 128 basic characters; extension codes are septets other than the escape itself. */
    predicate Valid() {
      && |basic| == 128
      && (forall code :: code in extensions ==> code < 128 && code != ESCAPE)
    }
  }

  type Encoder = map<char, seq<Byte>>

  /** The septets code c: a basic character by its position, any other through the escape. */
  predicate CodesFor(a: Alphabet, c: char, codes: seq<Byte>)
    requires a.Valid()
  {
    || (|codes| == 1 && codes[0] < 128 && codes[0] != ESCAPE && a.basic[codes[0]] == c)
    || (|codes| == 2 && codes[0] == ESCAPE && codes[1] < 128 && codes[1] != ESCAPE && codes[1] in a.extensions && a.extensions[codes[1]] == c)
  }

  /** The encoder knows exactly the characters of the alphabet, and codes each of them. */
  ghost predicate IsEncoder(a: Alphabet, encoder: Encoder)
    requires a.Valid()
  {
    && (forall c :: c in encoder ==> CodesFor(a, c, encoder[c]))
    && (forall i :: 0 <= i < 128 && i != ESCAPE as int ==> a.basic[i] in encoder)
    && (forall code :: code in a.extensions ==> a.extensions[code] in encoder)
  }

  method BuildEncoder(a: Alphabet) returns (encoder: Encoder)
    requires a.Valid()
    ensures IsEncoder(a, encoder)
  {
    encoder := map[];
    for code := 0 to 128
      invariant forall c :: c in encoder ==> CodesFor(a, c, encoder[c])
      invariant forall i :: 0 <= i < code && i != ESCAPE as int ==> a.basic[i] in encoder
    {
      if code != ESCAPE {
        assert CodesFor(a, a.basic[code], [code]);
        encoder := encoder[a.basic[code] := [code]];
      }
    }
    var codes := a.extensions.Keys;
    while codes != {}
      invariant codes <= a.extensions.Keys
      invariant forall c :: c in encoder ==> CodesFor(a, c, encoder[c])
      invariant forall i :: 0 <= i < 128 && i != ESCAPE as int ==> a.basic[i] in encoder
      invariant forall code :: code in a.extensions && code !in codes ==> a.extensions[code] in encoder
      decreases |codes|
    {
      var code :| code in codes;
      assert CodesFor(a, a.extensions[code], [ESCAPE, code]);
      encoder := encoder[a.extensions[code] := [ESCAPE, code]];
      codes := codes - {code};
    }
  }

  predicate Encodable(encoder: Encoder, text: string) {
    forall c :: c in text ==> c in encoder
  }

  function Septets(encoder: Encoder, text: string): seq<Byte>
    requires Encodable(encoder, text)
  {
    if text == [] then [] else encoder[text[0]] + Septets(encoder, text[1..])
  }

  method EncodeGsm7(encoder: Encoder, text: string) returns (r: Option<seq<Byte>>)
    ensures r.Some? <==> Encodable(encoder, text)
    ensures r.Some? ==> r.value == Septets(encoder, text)
  {
    var result: seq<Byte> := [];
    for i := 0 to |text|
      invariant Encodable(encoder, text[..i])
      invariant result == Septets(encoder, text[..i])
    {
      if text[i] !in encoder {
        return None;
      }
      assert text[..i + 1] == text[..i] + [text[i]];
      SeptetsAppend(encoder, text[..i], [text[i]]);
      result := result + encoder[text[i]];
    }
    assert text[..|text|] == text;
    return Some(result);
  }

  lemma {:induction false} SeptetsAppend(encoder: Encoder, s: string, t: string)
    requires Encodable(encoder, s) && Encodable(encoder, t)
    ensures Encodable(encoder, s + t)
    ensures Septets(encoder, s + t) == Septets(encoder, s) + Septets(encoder, t)
  {
    if s == [] {
      assert s + t == t;
    } else {
      SeptetsAppend(encoder, s[1..], t);
      assert (s + t)[1..] == s[1..] + t;
    }
  }

  /** What a septet sequence says: the text up to the first fault, and whether there was none. */
  function Decoded(a: Alphabet, septets: seq<Byte>): (string, bool)
    requires a.Valid()
    decreases |septets|
  {
    if septets == [] then ("", true)
    else if septets[0] != ESCAPE then
      if septets[0] >= 128 then ("", false)
      else
        var (rest, ok) := Decoded(a, septets[1..]);
        ([a.basic[septets[0]]] + rest, ok)
    else if |septets| == 1 then ("", false)
    else if septets[1] !in a.extensions then ("", false)
    else
      var (rest, ok) := Decoded(a, septets[2..]);
      ([a.extensions[septets[1]]] + rest, ok)
  }

  method DecodeGsm7(a: Alphabet, septets: seq<Byte>) returns (text: string, ok: bool)
    requires a.Valid()
    ensures (text, ok) == Decoded(a, septets)
  {
    text := "";
    var index := 0;
    assert septets[0..] == septets && "" + Decoded(a, septets).0 == Decoded(a, septets).0;
    while index < |septets|
      invariant 0 <= index <= |septets|
      invariant text + Decoded(a, septets[index..]).0 == Decoded(a, septets).0
      invariant Decoded(a, septets[index..]).1 == Decoded(a, septets).1
    {
      assert text + "" == text;
      var code := septets[index];
      assert septets[index..][0] == code;
      if code != ESCAPE {
        if code >= 128 {
          return text, false;
        }
        assert septets[index..][1..] == septets[index + 1..];
        Segmentation.Associate(text, [a.basic[code]], Decoded(a, septets[index + 1..]).0);
        text := text + [a.basic[code]];
        index := index + 1;
      } else {
        assert index + 1 < |septets| ==> septets[index..][1] == septets[index + 1];
        if index + 1 >= |septets| {
          return text, false;
        }
        assert septets[index..][2..] == septets[index + 2..];
        if septets[index + 1] !in a.extensions {
          return text, false;
        }
        var character := a.extensions[septets[index + 1]];
        Segmentation.Associate(text, [character], Decoded(a, septets[index + 2..]).0);
        text := text + [character];
        index := index + 2;
      }
    }
    return text, true;
  }

  /** A sequence of whole characters: nothing to complain about and no escape left dangling. */
  predicate WholeCharacters(a: Alphabet, septets: seq<Byte>)
    requires a.Valid()
    decreases |septets|
  {
    if septets == [] then true
    else if septets[0] != ESCAPE then
      septets[0] < 128 && WholeCharacters(a, septets[1..])
    else
      && |septets| >= 2
      && septets[1] < 128 && septets[1] != ESCAPE && septets[1] in a.extensions
      && WholeCharacters(a, septets[2..])
  }

  /** Decoding undoes encoding. */
  lemma {:induction false} DecodeUndoesEncode(a: Alphabet, encoder: Encoder, text: string)
    requires a.Valid() && IsEncoder(a, encoder) && Encodable(encoder, text)
    ensures Decoded(a, Septets(encoder, text)) == (text, true)
    ensures WholeCharacters(a, Septets(encoder, text))
  {
    if text != [] {
      DecodeUndoesEncode(a, encoder, text[1..]);
      var codes, rest := encoder[text[0]], Septets(encoder, text[1..]);
      assert CodesFor(a, text[0], codes);
      assert text == [text[0]] + text[1..];
      assert (codes + rest)[|codes|..] == rest;
    }
  }

  /** Decoding distributes over concatenation after whole characters. */
  lemma {:induction false} DecodedAppend(a: Alphabet, s: seq<Byte>, t: seq<Byte>)
    requires a.Valid() && WholeCharacters(a, s)
    ensures Decoded(a, s).1
    ensures Decoded(a, s + t) == (Decoded(a, s).0 + Decoded(a, t).0, Decoded(a, t).1)
    decreases |s|
  {
    if s == [] {
      assert s + t == t && "" + Decoded(a, t).0 == Decoded(a, t).0;
    } else {
      var k := if s[0] != ESCAPE then 1 else 2;
      DecodedAppend(a, s[k..], t);
      assert (s + t)[k..] == s[k..] + t;
      var u := s + t;
      assert u[0] == s[0] && (s[0] == ESCAPE ==> u[1] == s[1]);
      var c := if s[0] != ESCAPE then a.basic[s[0]] else a.extensions[s[1]];
      assert Decoded(a, s).0 == [c] + Decoded(a, s[k..]).0;
      Segmentation.Associate([c], Decoded(a, s[k..]).0, Decoded(a, t).0);
      assert Decoded(a, u).0 == [c] + (Decoded(a, s[k..]).0 + Decoded(a, t).0);
    }
  }

  /** An escape belongs with the code after it. */
  predicate EscapePair(first: Byte, second: Byte) {
    first == ESCAPE
  }

  /** Cutting whole characters anywhere but behind an escape leaves whole characters on both sides. */
  lemma {:induction false} CutWholeCharacters(a: Alphabet, s: seq<Byte>, k: nat)
    requires a.Valid() && WholeCharacters(a, s) && k <= |s|
    requires Segmentation.CutAllowed(EscapePair, s, k)
    ensures WholeCharacters(a, s[..k]) && WholeCharacters(a, s[k..])
    decreases |s|
  {
    if k == 0 {
      assert s[k..] == s;
    } else if k == |s| {
      assert s[..k] == s;
    } else {
      var n := if s[0] != ESCAPE then 1 else 2;
      assert n <= k;
      assert s[n..][k - n..] == s[k..] && s[..k][n..] == s[n..][..k - n];
      CutWholeCharacters(a, s[n..], k - n);
    }
  }

  lemma {:induction false} WholeCharactersSeparable(a: Alphabet, s: seq<Byte>)
    requires a.Valid() && WholeCharacters(a, s)
    ensures Segmentation.Separable(EscapePair, s)
    ensures forall i :: 0 <= i < |s| ==> s[i] < 128
    decreases |s|
  {
    if s != [] {
      var n := if s[0] != ESCAPE then 1 else 2;
      var rest := s[n..];
      WholeCharactersSeparable(a, rest);
      forall i | 0 < i < |s| - 1 ensures !(EscapePair(s[i - 1], s[i]) && EscapePair(s[i], s[i + 1])) {
        if i > n {
          assert s[i - 1] == rest[i - n - 1] && s[i] == rest[i - n] && s[i + 1] == rest[i - n + 1];
        }
      }
      forall i | 0 <= i < |s| ensures s[i] < 128 {
        if i >= n { assert s[i] == rest[i - n]; }
      }
    }
  }

  /** Decoding the segments of a legal split one by one spells out the whole text. */
  lemma {:induction false} DecodedSegments(a: Alphabet, maximum: nat, segments: seq<seq<Byte>>, s: seq<Byte>,
                                           texts: seq<string>)
    requires a.Valid() && WholeCharacters(a, s)
    requires Segmentation.LegalSplit(EscapePair, maximum, segments, s)
    requires |texts| == |segments| && forall i :: 0 <= i < |texts| ==> texts[i] == Decoded(a, segments[i]).0
    ensures forall i :: 0 <= i < |segments| ==> WholeCharacters(a, segments[i])
    ensures Segmentation.Flatten(texts) == Decoded(a, s).0
    decreases |segments|
  {
    if segments != [] {
      var first, rest := segments[0], s[|segments[0]|..];
      assert s[..|first|] == first && s == first + rest;
      CutWholeCharacters(a, s, |first|);
      DecodedAppend(a, first, rest);
      DecodedSegments(a, maximum, segments[1..], rest, texts[1..]);
      forall i | 0 <= i < |segments| ensures WholeCharacters(a, segments[i]) {
        if i > 0 { assert segments[i] == segments[1..][i - 1]; }
      }
    }
  }

  method SplitGsm7(septets: seq<Byte>, maximum: nat) returns (result: seq<seq<Byte>>)
    requires maximum >= 2
    ensures result == Segmentation.Greedy(EscapePair, maximum, septets)
  {
    result := [];
    var rest := septets;
    while |rest| > 0
      invariant result + Segmentation.Greedy(EscapePair, maximum, rest)
             == Segmentation.Greedy(EscapePair, maximum, septets)
      decreases |rest|
    {
      var count := maximum;
      if count > |rest| {
        count := |rest|;
      }
      if count < |rest| && rest[count - 1] == ESCAPE {
        count := count - 1;
      }
      assert count == Segmentation.FirstPart(EscapePair, maximum, rest);
      Segmentation.GreedyUnfolds(EscapePair, maximum, rest, result);
      result := result + [rest[..count]];
      rest := rest[count..];
    }
  }

  // The alphabet the program embeds, eight characters to a line from code 0x00.

  const CODES_00: string := [
    '@', '\U{00A3}', '$', '\U{00A5}', '\U{00E8}', '\U{00E9}', '\U{00F9}', '\U{00EC}',
    '\U{00F2}', '\U{00C7}', '\n', '\U{00D8}', '\U{00F8}', '\r', '\U{00C5}', '\U{00E5}',
    '\U{0394}', '_', '\U{03A6}', '\U{0393}', '\U{039B}', '\U{03A9}', '\U{03A0}', '\U{03A8}',
    '\U{03A3}', '\U{0398}', '\U{039E}', '\U{001B}', '\U{00C6}', '\U{00E6}', '\U{00DF}', '\U{00C9}']

  const CODES_20: string := [
    ' ', '!', '"', '#', '\U{00A4}', '%', '&', '\'',
    '(', ')', '*', '+', ',', '-', '.', '/',
    '0', '1', '2', '3', '4', '5', '6', '7',
    '8', '9', ':', ';', '<', '=', '>', '?']

  const CODES_40: string := [
    '\U{00A1}', 'A', 'B', 'C', 'D', 'E', 'F', 'G',
    'H', 'I', 'J', 'K', 'L', 'M', 'N', 'O',
    'P', 'Q', 'R', 'S', 'T', 'U', 'V', 'W',
    'X', 'Y', 'Z', '\U{00C4}', '\U{00D6}', '\U{00D1}', '\U{00DC}', '\U{00A7}']

  const CODES_60: string := [
    '\U{00BF}', 'a', 'b', 'c', 'd', 'e', 'f', 'g',
    'h', 'i', 'j', 'k', 'l', 'm', 'n', 'o',
    'p', 'q', 'r', 's', 't', 'u', 'v', 'w',
    'x', 'y', 'z', '\U{00E4}', '\U{00F6}', '\U{00F1}', '\U{00FC}', '\U{00E0}']

  const EXTENSIONS: map<Byte, char> :=
    map[0x0a := '\U{000C}', 0x14 := '^', 0x28 := '{', 0x29 := '}', 0x2f := '\\',
         0x3c := '[', 0x3d := '~', 0x3e := ']', 0x40 := '|', 0x65 := '\U{20AC}']

  const STANDARD := Alphabet(CODES_00 + CODES_20 + CODES_40 + CODES_60, EXTENSIONS)

  lemma StandardAlphabetIsValid()
    ensures STANDARD.Valid()
  {
    assert |CODES_00| == 32 && |CODES_20| == 32 && |CODES_40| == 32 && |CODES_60| == 32;
  }

  predicate BelowMark(c: char) { c as int < 0xfeff }

  lemma Codes00BelowMark(c: char)
    requires c in CODES_00
    ensures BelowMark(c)
  {
  }

  lemma Codes20BelowMark(c: char)
    requires c in CODES_20
    ensures BelowMark(c)
  {
  }

  lemma Codes40BelowMark(c: char)
    requires c in CODES_40
    ensures BelowMark(c)
  {
  }

  lemma Codes60BelowMark(c: char)
    requires c in CODES_60
    ensures BelowMark(c)
  {
  }

  lemma BasicIsBelowMark(c: char)
    requires c in CODES_00 + CODES_20 + CODES_40 + CODES_60
    ensures BelowMark(c)
  {
    hide BelowMark, CODES_00, CODES_20, CODES_40, CODES_60;
    if c in CODES_00 {
      Codes00BelowMark(c);
    } else if c in CODES_20 {
      Codes20BelowMark(c);
    } else if c in CODES_40 {
      Codes40BelowMark(c);
    } else {
      Codes60BelowMark(c);
    }
  }

  /** The byte order mark is not a character of the alphabet. */
  lemma MarkIsNotStandard(encoder: Encoder)
    requires STANDARD.Valid() && IsEncoder(STANDARD, encoder)
    ensures '\U{FEFF}' !in encoder
  {
    hide CODES_00, CODES_20, CODES_40, CODES_60;
    if '\U{FEFF}' in encoder {
      var codes := encoder['\U{FEFF}'];
      assert CodesFor(STANDARD, '\U{FEFF}', codes);
      if |codes| == 1 {
        BasicIsBelowMark(STANDARD.basic[codes[0]]);
      }
    }
  }
}
