/** Telephone numbers and sender names in a TPDU (3GPP TS 23.040 section 9.1.2.5). */
module SmsAddress {
  import opened Bits
  import opened Wrappers
  import opened SmsTypes
  import opened Septets
  import opened Text
  import Gsm7
  import Segmentation

  predicate IsDigit(c: char) { '0' <= c <= '9' }

  predicate AllDigits(s: string) {
    forall i :: 0 <= i < |s| ==> IsDigit(s[i])
  }

  function DigitsOf(number: string): string {
    if number != [] && number[0] == '+' then number[1..] else number
  }

  /** An optional plus sign and one to twenty digits. */
  predicate IsNumber(s: string) {
    1 <= |DigitsOf(s)| <= 20 && AllDigits(DigitsOf(s))
  }

  predicate IsSeparator(c: char) { c == ' ' || c == '-' || c == '(' || c == ')' }

  function WithoutSeparators(s: string): string {
    if s == [] then []
    else (if IsSeparator(s[0]) then [] else [s[0]]) + WithoutSeparators(s[1..])
  }

  lemma {:induction false} WithoutSeparatorsAppend(s: string, t: string)
    ensures WithoutSeparators(s + t) == WithoutSeparators(s) + WithoutSeparators(t)
  {
    if s == [] {
      assert s + t == t;
    } else {
      WithoutSeparatorsAppend(s[1..], t);
      var u := s + t;
      assert u[0] == s[0] && u[1..] == s[1..] + t;
      Segmentation.Associate(if IsSeparator(s[0]) then [] else [s[0]], WithoutSeparators(s[1..]), WithoutSeparators(t));
    }
  }

  /** A recipient is accepted exactly when, trimmed and without separators, it is a
      number; the result is that number. */
  function Normalized(value: string): Result<string, SmsError> {
    var number := WithoutSeparators(TrimSpace(value));
    if IsNumber(number) then Success(number) else Failure(InvalidRecipient)
  }

  lemma NextKept(s: string, i: nat)
    requires i < |s|
    ensures WithoutSeparators(s[..i + 1]) == WithoutSeparators(s[..i]) + if IsSeparator(s[i]) then [] else [s[i]]
  {
    assert s[..i + 1] == s[..i] + [s[i]];
    WithoutSeparatorsAppend(s[..i], [s[i]]);
  }

  /** A character that is neither digit nor separator is only ever acceptable as a leading plus. */
  lemma RefusedCharacter(s: string, i: nat)
    requires i < |s| && !IsDigit(s[i]) && !IsSeparator(s[i])
    requires s[i] != '+' || WithoutSeparators(s[..i]) != []
    ensures !IsNumber(WithoutSeparators(s))
  {
    hide WithoutSeparators, IsNumber, IsDigit, IsSeparator;
    var before, whole, rest := WithoutSeparators(s[..i]), WithoutSeparators(s), WithoutSeparators(s[i + 1..]);
    NextKept(s, i);
    assert s == s[..i + 1] + s[i + 1..];
    WithoutSeparatorsAppend(s[..i + 1], s[i + 1..]);
    assert whole == before + [s[i]] + rest;
    NotANumber(whole, |before|);
  }

  lemma NotANumber(whole: string, k: nat)
    requires k < |whole| && !IsDigit(whole[k]) && (whole[k] != '+' || k > 0)
    ensures !IsNumber(whole)
  {
    var digits := DigitsOf(whole);
    if |digits| < |whole| {
      assert k > 0 ==> digits[k - 1] == whole[k];
    } else {
      assert digits[k] == whole[k];
    }
  }

  /** A digit may follow anything that is digits so far; a plus, nothing. */
  lemma Grown(s: string, c: char)
    ensures AllDigits(DigitsOf(s)) && IsDigit(c) ==> AllDigits(DigitsOf(s + [c]))
    ensures AllDigits(DigitsOf("")) && (s == "" && c == '+' ==> AllDigits(DigitsOf(s + [c])))
  {
    if s != "" {
      assert DigitsOf(s + [c]) == DigitsOf(s) + [c];
    }
  }

  lemma NothingLeftOver()
    ensures WithoutSeparators("") == ""
  {
  }

  method NormalizeRecipient(value: string) returns (r: Result<string, SmsError>)
    ensures r == Normalized(value)
  {
    hide TrimSpace, WithoutSeparators, AllDigits, DigitsOf;
    var trimmed := TrimSpace(value);
    var result := "";
    Grown("", '+');
    assert WithoutSeparators(trimmed[..0]) == "" by { NothingLeftOver(); }
    for i := 0 to |trimmed|
      invariant result == WithoutSeparators(trimmed[..i])
      invariant AllDigits(DigitsOf(result))
    {
      var character := trimmed[i];
      NextKept(trimmed, i);
      Grown(result, character);
      if IsDigit(character) {
        result := result + [character];
      } else if character == '+' && |result| == 0 {
        result := result + [character];
      } else if IsSeparator(character) {
      } else {
        RefusedCharacter(trimmed, i);
        return Failure(InvalidRecipient);
      }
    }
    assert trimmed[..|trimmed|] == trimmed;
    var digits := DigitsOf(result);
    if |digits| < 1 || |digits| > 20 {
      return Failure(InvalidRecipient);
    }
    return Success(result);
  }

  /** A number has neither separators nor surrounding space: normalising it changes nothing. */
  lemma NumberIsNormal(number: string)
    requires IsNumber(number)
    ensures Normalized(number) == Success(number)
  {
    forall i | 0 <= i < |number| ensures !IsSeparator(number[i]) && !IsSpace(number[i]) {
      if number[0] != '+' {
        assert number[i] == DigitsOf(number)[i];
      } else if i > 0 {
        assert number[i] == DigitsOf(number)[i - 1];
      }
    }
    NoSeparators(number);
  }

  lemma {:induction false} NoSeparators(s: string)
    requires forall i :: 0 <= i < |s| ==> !IsSeparator(s[i])
    ensures WithoutSeparators(s) == s
  {
    if s != [] {
      NoSeparators(s[1..]);
      assert s == [s[0]] + s[1..];
    }
  }

  function DigitValue(c: char): Byte
    requires IsDigit(c)
  {
    c as int - '0' as int
  }

  function DigitChar(d: Byte): char
    requires d <= 9
  {
    (d as int + '0' as int) as char
  }

  /** Two digits to an octet, the first in the low half; a lone last digit is paired with 0xF. */
  function SemiOctets(digits: string): (r: seq<Byte>)
    requires AllDigits(digits)
    ensures |r| == (|digits| + 1) / 2
  {
    seq((|digits| + 1) / 2, i requires 0 <= i < (|digits| + 1) / 2 => SemiOctet(digits, i))
  }

  function SemiOctet(digits: string, i: nat): Byte
    requires AllDigits(digits) && 2 * i < |digits|
  {
    16 * (if 2 * i + 1 < |digits| then DigitValue(digits[2 * i + 1]) else 0x0f) + DigitValue(digits[2 * i])
  }

  method EncodeSemiOctets(digits: string) returns (r: Result<seq<Byte>, SmsError>)
    ensures r == if digits == "" || !AllDigits(digits) then Failure(InvalidRecipient) else Success(SemiOctets(digits))
  {
    if digits == "" {
      return Failure(InvalidRecipient);
    }
    var result := new Byte[(|digits| + 1) / 2](_ => 0);
    var index := 0;
    while index < |digits|
      invariant 0 <= index <= |digits| + 1 && index % 2 == 0
      invariant forall k :: 0 <= k < index && k < |digits| ==> IsDigit(digits[k])
      invariant AllDigits(digits) ==> forall i :: 0 <= i < index / 2 ==> result[i] == SemiOctet(digits, i)
    {
      var low := digits[index];
      if !IsDigit(low) {
        return Failure(InvalidRecipient);
      }
      var highNibble: Byte := 0x0f;
      if index + 1 < |digits| {
        var high := digits[index + 1];
        if !IsDigit(high) {
          return Failure(InvalidRecipient);
        }
        highNibble := DigitValue(high);
      }
      result[index / 2] := 16 * highNibble + DigitValue(low);
      index := index + 2;
    }
    assert AllDigits(digits);
    assert result[..] == SemiOctets(digits);
    return Success(result[..]);
  }

  /** Half-octet k, the low half of each octet before its high half. */
  function Nibble(value: seq<Byte>, k: nat): Byte
    requires k < 2 * |value|
  {
    if k % 2 == 0 then value[k / 2] % 16 else value[k / 2] / 16
  }

  /** The first n decimal digits among the half-octets from k on; any other half-octet,
      the filler included, is skipped. */
  function DigitNibbles(value: seq<Byte>, k: nat, n: nat): string
    decreases 2 * |value| - k
  {
    if k >= 2 * |value| || n == 0 then ""
    else if Nibble(value, k) <= 9 then [DigitChar(Nibble(value, k))] + DigitNibbles(value, k + 1, n - 1)
    else DigitNibbles(value, k + 1, n)
  }

  /** toa & 0x70: the type of number. */
  function TypeOfNumber(toa: Byte): Byte {
    toa / 16 % 8
  }

  function NumericAddress(value: seq<Byte>, digits: nat, toa: Byte): string {
    (if TypeOfNumber(toa) == 1 then "+" else "") + DigitNibbles(value, 0, digits)
  }

  method DecodeNumericAddress(value: seq<Byte>, digits: nat, toa: Byte) returns (r: string)
    ensures r == NumericAddress(value, digits, toa)
  {
    var prefix := if TypeOfNumber(toa) == 1 then "+" else "";
    var result := "";
    for k := 0 to 2 * |value|
      invariant |result| <= digits
      invariant result + DigitNibbles(value, k, digits - |result|) == DigitNibbles(value, 0, digits)
    {
      var digit := Nibble(value, k);
      if |result| >= digits {
        return prefix + result;
      }
      if digit <= 9 {
        Segmentation.Associate(result, [DigitChar(digit)], DigitNibbles(value, k + 1, digits - |result| - 1));
        result := result + [DigitChar(digit)];
      }
    }
    return prefix + result;
  }

  lemma NibbleOfSemiOctets(digits: string, k: nat)
    requires AllDigits(digits) && k < |digits|
    ensures Nibble(SemiOctets(digits), k) == DigitValue(digits[k])
  {
    var i := k / 2;
    assert SemiOctets(digits)[i] == SemiOctet(digits, i);
    assert 2 * i == k || 2 * i + 1 == k;
  }

  lemma {:induction false} NibblesOfSemiOctets(digits: string, k: nat)
    requires AllDigits(digits) && k <= |digits|
    ensures DigitNibbles(SemiOctets(digits), k, |digits| - k) == digits[k..]
    decreases |digits| - k
  {
    if k < |digits| {
      NibbleOfSemiOctets(digits, k);
      NibblesOfSemiOctets(digits, k + 1);
      assert digits[k..] == [digits[k]] + digits[k + 1..];
    }
  }

  /** A number survives the trip through its address octets. */
  lemma NumberRoundTrip(number: string)
    requires IsNumber(number)
    ensures NumericAddress(SemiOctets(DigitsOf(number)), |DigitsOf(number)|, TypeOfAddress(number)) == number
  {
    NibblesOfSemiOctets(DigitsOf(number), 0);
    if number[0] == '+' {
      assert number == "+" + number[1..];
    }
  }

  /** The filler after an odd number of digits is skipped. */
  lemma {:induction false} NibblesOfAll(digits: string, k: nat, n: nat)
    requires AllDigits(digits) && k <= |digits| <= k + n
    ensures DigitNibbles(SemiOctets(digits), k, n) == digits[k..]
    decreases |digits| - k
  {
    if k < |digits| {
      NibbleOfSemiOctets(digits, k);
      NibblesOfAll(digits, k + 1, n - 1);
      assert digits[k..] == [digits[k]] + digits[k + 1..];
    } else if k < 2 * |SemiOctets(digits)| {
      assert SemiOctets(digits)[k / 2] == SemiOctet(digits, k / 2);
      assert DigitNibbles(SemiOctets(digits), k + 1, n) == "";
    }
  }

  /** So a number is read even when every half-octet may be a digit. */
  lemma NumberReadFromAll(number: string)
    requires IsNumber(number)
    ensures NumericAddress(SemiOctets(DigitsOf(number)), 2 * |SemiOctets(DigitsOf(number))|, TypeOfAddress(number)) == number
  {
    NibblesOfAll(DigitsOf(number), 0, 2 * |SemiOctets(DigitsOf(number))|);
    if number[0] == '+' {
      assert number == "+" + number[1..];
    }
  }

  function TypeOfAddress(number: string): Byte {
    if number != [] && number[0] == '+' then 0x91 else 0x81
  }

  /** There is a septet, and every bit after the last septet is zero. */
  predicate ZeroPadded(data: seq<Byte>, septetCount: nat) {
    && 0 < septetCount && septetCount * 7 <= |data| * 8
    && forall bit :: septetCount * 7 <= bit < |data| * 8 ==> !OctetStreamBit(data, bit)
  }

  method HasZeroGsm7Padding(data: seq<Byte>, septetCount: nat) returns (r: bool)
    ensures r == ZeroPadded(data, septetCount)
  {
    if septetCount <= 0 || septetCount * 7 > |data| * 8 {
      return false;
    }
    for bit := septetCount * 7 to |data| * 8
      invariant forall b :: septetCount * 7 <= b < bit ==> !OctetStreamBit(data, b)
    {
      if Bit(data[bit / 8], bit % 8) {
        assert OctetStreamBit(data, bit);
        return false;
      }
    }
    return true;
  }

  /** A read position in a PDU. */
  class PduCursor {
    const data: seq<Byte>
    var index: nat

    ghost predicate Valid()
      reads this
    {
      index <= |data|
    }

    constructor (data: seq<Byte>)
      ensures Valid() && this.data == data && index == 0
    {
      this.data := data;
      index := 0;
    }

    method Octet() returns (r: Result<Byte, SmsError>)
      requires Valid()
      modifies this
      ensures Valid()
      ensures r == if old(index) < |data| then Success(data[old(index)]) else Failure(Truncated)
      ensures index == if r.Success? then old(index) + 1 else old(index)
    {
      if index >= |data| {
        return Failure(Truncated);
      }
      r := Success(data[index]);
      index := index + 1;
    }

    method Octets(count: nat) returns (r: Result<seq<Byte>, SmsError>)
      requires Valid()
      modifies this
      ensures Valid()
      ensures r == if old(index) + count <= |data| then Success(data[old(index)..old(index) + count]) else Failure(Truncated)
      ensures index == if r.Success? then old(index) + count else old(index)
    {
      if index + count > |data| {
        return Failure(Truncated);
      }
      r := Success(data[index..index + count]);
      index := index + count;
    }
  }

  /** How many octets and septets an alphanumeric address takes: the standard reading
      of the length as useful semi-octets when the octets can be such an address, and
      otherwise the legacy reading as a number of characters. */
  ghost function AlphanumericExtent(data: seq<Byte>, at: nat, length: Byte): (nat, nat) {
    var octets, septets := (length + 1) / 2, length * 4 / 7;
    if octets == 0 || at + octets > |data| || !ZeroPadded(data[at..at + octets], septets)
    then ((length * 7 + 7) / 8, length)
    else (octets, septets)
  }

  /** The address at a position, and the position after it. */
  ghost function AddressAt(a: Gsm7.Alphabet, data: seq<Byte>, at: nat): Result<(string, nat), SmsError>
    requires a.Valid()
  {
    if at + 2 > |data| then Failure(Truncated)
    else
      var length: int, toa := data[at], data[at + 1];
      var (octets, septets) := Extent(data, at + 2, length, toa);
      var next := at + 2 + octets;
      if next > |data| then Failure(Truncated)
      else match AddressValue(a, data[at + 2..next], length, toa, septets)
        case Success(address) => Success((address, next))
        case Failure(e) => Failure(e)
  }

  ghost function Extent(data: seq<Byte>, at: nat, length: Byte, toa: Byte): (nat, nat) {
    if TypeOfNumber(toa) == 5 then AlphanumericExtent(data, at, length) else ((length + 1) / 2, 0)
  }

  ghost function AddressValue(a: Gsm7.Alphabet, value: seq<Byte>, length: Byte, toa: Byte, septets: nat)
    : Result<string, SmsError>
    requires a.Valid()
  {
    if TypeOfNumber(toa) == 5 then SenderName(a, value, septets) else Success(NumericAddress(value, length, toa))
  }

  ghost function SenderName(a: Gsm7.Alphabet, value: seq<Byte>, septets: nat): Result<string, SmsError>
    requires a.Valid()
  {
    if septets * 7 > |value| * 8 then Failure(Truncated)
    else
      var (text, ok) := Gsm7.Decoded(a, Unpacked(value, septets, 0));
      if ok then Success(text) else Failure(InvalidAddress)
  }

  method ReadTpAddress(a: Gsm7.Alphabet, cursor: PduCursor) returns (r: Result<string, SmsError>)
    requires a.Valid() && cursor.Valid()
    modifies cursor
    ensures cursor.Valid()
    ensures match AddressAt(a, cursor.data, old(cursor.index))
            case Success((text, next)) => r == Success(text) && cursor.index == next
            case Failure(e) => r == Failure(e)
  {
    var lengthRead := cursor.Octet();
    if lengthRead.Failure? { return Failure(lengthRead.error); }
    var toaRead := cursor.Octet();
    if toaRead.Failure? { return Failure(toaRead.error); }
    var length: int, toa := lengthRead.value, toaRead.value;
    var octetCount := (length + 1) / 2;
    var septetCount := 0;
    if TypeOfNumber(toa) == 5 {
      octetCount, septetCount := MeasureAlphanumeric(cursor.data, cursor.index, length);
    }
    var valueRead := cursor.Octets(octetCount);
    if valueRead.Failure? { return Failure(valueRead.error); }
    if TypeOfNumber(toa) == 5 {
      r := ReadSenderName(a, valueRead.value, septetCount);
    } else {
      var number := DecodeNumericAddress(valueRead.value, length, toa);
      r := Success(number);
    }
  }

  method MeasureAlphanumeric(data: seq<Byte>, at: nat, length: Byte) returns (octetCount: nat, septetCount: nat)
    ensures (octetCount, septetCount) == AlphanumericExtent(data, at, length)
  {
    octetCount := (length + 1) / 2;
    septetCount := length * 4 / 7;
    var standard := octetCount != 0 && at + octetCount <= |data|;
    if standard {
      standard := HasZeroGsm7Padding(data[at..at + octetCount], septetCount);
    }
    if !standard {
      octetCount := (length * 7 + 7) / 8;
      septetCount := length;
    }
  }

  method ReadSenderName(a: Gsm7.Alphabet, value: seq<Byte>, septetCount: nat) returns (r: Result<string, SmsError>)
    requires a.Valid()
    ensures r == SenderName(a, value, septetCount)
  {
    var septets := UnpackSeptets(value, septetCount, 0);
    if septets.None? { return Failure(Truncated); }
    var text, ok := Gsm7.DecodeGsm7(a, septets.value);
    return if ok then Success(text) else Failure(InvalidAddress);
  }

  /** An alphanumeric sender of n characters stands at a position, packed as TS 23.040
      section 9.1.2.5 requires: the length counts useful semi-octets. */
  ghost predicate SenderStandsAt(septets: seq<Byte>, toa: Byte, data: seq<Byte>, at: nat) {
    var packed := Packed(septets, 0);
    && TypeOfNumber(toa) == 5
    && at + 2 + |packed| <= |data|
    && data[at] == (7 * |septets| + 3) / 4
    && data[at + 1] == toa
    && data[at + 2..at + 2 + |packed|] == packed
  }

  /** The length octet gives back the number of septets and of octets. */
  lemma SenderExtent(n: nat)
    ensures var length := (7 * n + 3) / 4; length * 4 / 7 == n && (length + 1) / 2 == (7 * n + 7) / 8
  {
  }

  lemma PackedIsZeroPadded(septets: seq<Byte>)
    requires septets != []
    ensures ZeroPadded(Packed(septets, 0), |septets|)
  {
    var data := Packed(septets, 0);
    PackedLayout(septets, 0, []);
    assert Overlay(data, []) == data;
    forall bit | |septets| * 7 <= bit < |data| * 8 ensures !OctetStreamBit(data, bit) {
      assert OctetStreamBit(data, bit) == SeptetStreamBit(septets, 0, bit);
    }
  }

  /** Every such sender is read back, in full and consuming exactly its own octets, wherever
      it stands in the PDU, by the standard reading of its length. */
  lemma SenderRoundTrip(a: Gsm7.Alphabet, septets: seq<Byte>, toa: Byte, data: seq<Byte>, at: nat)
    requires a.Valid() && Gsm7.WholeCharacters(a, septets)
    requires SenderStandsAt(septets, toa, data, at)
    ensures AddressAt(a, data, at) == Success((Gsm7.Decoded(a, septets).0, at + 2 + (7 * |septets| + 7) / 8))
    ensures AlphanumericExtent(data, at + 2, data[at]) == ((7 * |septets| + 7) / 8, |septets|)
  {
    SenderExtentAt(septets, toa, data, at);
    PackedSenderName(a, septets);
    AddressFrom(a, data, at, Packed(septets, 0), |septets|, Gsm7.Decoded(a, septets).0);
  }

  lemma SenderExtentAt(septets: seq<Byte>, toa: Byte, data: seq<Byte>, at: nat)
    requires SenderStandsAt(septets, toa, data, at)
    ensures AlphanumericExtent(data, at + 2, data[at]) == ((7 * |septets| + 7) / 8, |septets|)
  {
    SenderExtent(|septets|);
    if septets != [] { PackedIsZeroPadded(septets); }
  }

  lemma AddressFrom(a: Gsm7.Alphabet, data: seq<Byte>, at: nat, value: seq<Byte>, septets: nat, name: string)
    requires a.Valid() && at + 2 + |value| <= |data|
    requires data[at + 2..at + 2 + |value|] == value
    requires Extent(data, at + 2, data[at], data[at + 1]) == (|value|, septets)
    requires AddressValue(a, value, data[at], data[at + 1], septets) == Success(name)
    ensures AddressAt(a, data, at) == Success((name, at + 2 + |value|))
  {
  }

  lemma PackedSenderName(a: Gsm7.Alphabet, septets: seq<Byte>)
    requires a.Valid() && Gsm7.WholeCharacters(a, septets)
    ensures SenderName(a, Packed(septets, 0), |septets|) == Success(Gsm7.Decoded(a, septets).0)
  {
    Gsm7.DecodedAppend(a, septets, []);
    if septets == [] {
      assert Unpacked([], 0, 0) == [];
    } else {
      Gsm7.WholeCharactersSeparable(a, septets);
      UnpackInvertsPack(septets, 0, []);
      assert Overlay(Packed(septets, 0), []) == Packed(septets, 0);
    }
  }
}
