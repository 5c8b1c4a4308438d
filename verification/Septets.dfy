/** GSM 7-bit packing (3GPP TS 23.038 section 6.1.2.1) at an arbitrary bit offset.

    The specification is a bit stream: octet i of the packed form holds stream bits
    8i to 8i+7, and septet i occupies seven consecutive stream bits.  The loops
    below, which shift and combine octets, are proved to produce that stream. */
module Septets {
  import opened Bits
  import opened Wrappers

  /** Bit k of the stream in which septet i occupies bits startBit+7i to startBit+7i+6. */
  predicate SeptetStreamBit(septets: seq<Byte>, startBit: nat, k: nat) {
    startBit <= k < startBit + 7 * |septets| && Bit(septets[(k - startBit) / 7], (k - startBit) % 7)
  }

  /** Bit k of the stream carried by a sequence of octets. */
  predicate OctetStreamBit(data: seq<Byte>, k: nat) {
    k < 8 * |data| && Bit(data[k / 8], k % 8)
  }

  /** Bit j of septet i when septets are read from the octet stream at startBit. */
  predicate UnpackedBit(data: seq<Byte>, startBit: nat, i: nat, j: nat) {
    j < 7 && OctetStreamBit(data, startBit + 7 * i + j)
  }

  ghost predicate HasBits(b: Byte, f: nat -> bool) {
    forall j: nat :: Bit(b, j) == (j < 8 && f(j))
  }

  /** The octet whose bit j is f(j). */
  ghost function OctetFrom(f: nat -> bool): (b: Byte)
    ensures HasBits(b, f)
  {
    OctetExists(f);
    var b: Byte :| HasBits(b, f);
    b
  }

  lemma OctetExists(f: nat -> bool)
    ensures exists b: Byte :: HasBits(b, f)
  {
    FromBitsBound(8, f);
    assert Shl(1, 8) == 256;
    var b: Byte := FromBits(8, f);
    forall j: nat ensures Bit(b, j) == (j < 8 && f(j)) { BitOfFromBits(8, f, j); }
    assert HasBits(b, f);
  }

  /** The septet stream cut into n octets. */
  ghost function StreamOctets(septets: seq<Byte>, startBit: nat, n: nat): (r: seq<Byte>)
    ensures |r| == n
    ensures forall i, j :: 0 <= i < n && 0 <= j < 8 ==> Bit(r[i], j) == SeptetStreamBit(septets, startBit, 8 * i + j)
  {
    seq(n, i requires i >= 0 => OctetFrom((j: nat) => SeptetStreamBit(septets, startBit, 8 * i + j)))
  }

  /** The packed form: as many octets as the stream needs, padded with zero bits. */
  ghost function Packed(septets: seq<Byte>, startBit: nat): (r: seq<Byte>)
    ensures |r| == if septets == [] then 0 else (startBit + 7 * |septets| + 7) / 8
    ensures forall i, j :: 0 <= i < |r| && 0 <= j < 8 ==> Bit(r[i], j) == SeptetStreamBit(septets, startBit, 8 * i + j)
  {
    if septets == [] then [] else StreamOctets(septets, startBit, (startBit + 7 * |septets| + 7) / 8)
  }

  /** The count septets read from the octet stream at startBit. */
  ghost function Unpacked(data: seq<Byte>, count: nat, startBit: nat): (r: seq<Byte>)
    ensures |r| == count
    ensures forall i, j: nat :: 0 <= i < count ==> Bit(r[i], j) == UnpackedBit(data, startBit, i, j)
  {
    seq(count, i requires i >= 0 => UnpackedSeptet(data, startBit, i))
  }

  ghost function UnpackedSeptet(data: seq<Byte>, startBit: nat, i: nat): (b: Byte)
    ensures forall j: nat :: Bit(b, j) == UnpackedBit(data, startBit, i, j)
  {
    OctetFrom((j: nat) => UnpackedBit(data, startBit, i, j))
  }

  /** octet | byte(septet & 0x7f) << shift */
  function PlaceLow(octet: Byte, septet: Byte, shift: nat): (r: Byte)
    ensures forall j: nat :: j < 8 ==>
              Bit(r, j) == (Bit(octet, j) || (shift <= j < shift + 7 && Bit(septet, j - shift)))
  {
    var placed := Shl(septet % 128, shift) % 256;
    OrOctet(octet, placed);
    assert forall j: nat :: j < 8 ==>
        Bit(Or(octet, placed), j) == (Bit(octet, j) || (shift <= j < shift + 7 && Bit(septet, j - shift))) by {
      forall j: nat | j < 8
        ensures Bit(Or(octet, placed), j) == (Bit(octet, j) || (shift <= j < shift + 7 && Bit(septet, j - shift)))
      {
        BitOfOr(octet, placed, j);
        BitOfOctet(Shl(septet % 128, shift), j);
        BitOfShl(septet % 128, shift, j);
        if j >= shift { BitOfSeptet(septet, j - shift); }
      }
    }
    Or(octet, placed)
  }

  /** octet | (septet & 0x7f) >> (8 - shift) */
  function PlaceHigh(octet: Byte, septet: Byte, shift: nat): (r: Byte)
    requires shift < 8
    ensures forall j: nat :: j < 8 ==>
              Bit(r, j) == (Bit(octet, j) || (8 - shift + j < 7 && Bit(septet, 8 - shift + j)))
  {
    var spilled := Shr(septet % 128, 8 - shift);
    ShrShrinks(septet % 128, 8 - shift);
    OrOctet(octet, spilled);
    assert forall j: nat :: j < 8 ==>
        Bit(Or(octet, spilled), j) == (Bit(octet, j) || (8 - shift + j < 7 && Bit(septet, 8 - shift + j))) by {
      forall j: nat | j < 8
        ensures Bit(Or(octet, spilled), j) == (Bit(octet, j) || (8 - shift + j < 7 && Bit(septet, 8 - shift + j)))
      {
        BitOfOr(octet, spilled, j);
        BitOfShr(septet % 128, 8 - shift, j);
        BitOfSeptet(septet, 8 - shift + j);
      }
    }
    Or(octet, spilled)
  }

  lemma OrOctet(a: Byte, b: Byte)
    ensures Or(a, b) < 256
  {
    assert Shl(1, 8) == 256;
    forall k: nat | 8 <= k ensures !Bit(Or(a, b), k) {
      BitOfOr(a, b, k);
      NoHighBits(a, 8, k);
      NoHighBits(b, 8, k);
    }
    BoundFromBits(Or(a, b), 8);
  }

  lemma {:induction false} ShrShrinks(a: nat, n: nat)
    ensures Shr(a, n) <= a
    decreases n
  {
    if n > 0 { ShrShrinks(a / 2, n - 1); }
  }

  /** The octets after one more septet has been combined in. */
  function Place(data: seq<Byte>, septet: Byte, bit: nat): seq<Byte>
    requires bit / 8 < |data|
  {
    var byteIndex, shift := bit / 8, bit % 8;
    var data' := data[byteIndex := PlaceLow(data[byteIndex], septet, shift)];
    if shift > 1 && byteIndex + 1 < |data|
    then data'[byteIndex + 1 := PlaceHigh(data[byteIndex + 1], septet, shift)] else data'
  }

  lemma PlaceExtendsStream(septets: seq<Byte>, startBit: nat, n: nat, index: nat)
    requires index < |septets| && (startBit + index * 7) / 8 < n
    ensures Place(StreamOctets(septets[..index], startBit, n), septets[index], startBit + index * 7)
         == StreamOctets(septets[..index + 1], startBit, n)
  {
    var data := StreamOctets(septets[..index], startBit, n);
    var data' := Place(data, septets[index], startBit + index * 7);
    var next := StreamOctets(septets[..index + 1], startBit, n);
    forall i, j | 0 <= i < n && 0 <= j < 8 ensures Bit(data'[i], j) == Bit(next[i], j) {
      PlacedStreamBit(septets, startBit, n, index, i, j);
    }
    SameOctets(data', next);
  }

  lemma PlacedStreamBit(septets: seq<Byte>, startBit: nat, n: nat, index: nat, i: nat, j: nat)
    requires index < |septets| && (startBit + index * 7) / 8 < n && i < n && j < 8
    ensures Bit(Place(StreamOctets(septets[..index], startBit, n), septets[index], startBit + index * 7)[i], j)
         == Bit(StreamOctets(septets[..index + 1], startBit, n)[i], j)
  {
    var data := StreamOctets(septets[..index], startBit, n);
    PlacedBit(data, septets[index], startBit + index * 7, i, j);
    assert Bit(data[i], j) == SeptetStreamBit(septets[..index], startBit, 8 * i + j);
    assert Bit(StreamOctets(septets[..index + 1], startBit, n)[i], j)
        == SeptetStreamBit(septets[..index + 1], startBit, 8 * i + j);
    StreamGrows(septets, startBit, index, 8 * i + j);
  }

  lemma EmptyStream(startBit: nat, n: nat)
    ensures StreamOctets([], startBit, n) == seq(n, _ => 0)
  {
    var none := StreamOctets([], startBit, n);
    forall i, j | 0 <= i < n && 0 <= j < 8 ensures Bit(none[i], j) == Bit(0, j) { BitOfZero(j); }
    SameOctets(none, seq(n, _ => 0));
  }

  lemma PlacedBit(data: seq<Byte>, septet: Byte, bit: nat, i: nat, j: nat)
    requires bit / 8 < |data| && i < |data| && j < 8
    ensures Bit(Place(data, septet, bit)[i], j)
         == (Bit(data[i], j) || (bit <= 8 * i + j < bit + 7 && Bit(septet, 8 * i + j - bit)))
  {
    var byteIndex, shift := bit / 8, bit % 8;
    assert bit == 8 * byteIndex + shift;
  }

  method PackSeptets(septets: seq<Byte>, startBit: nat) returns (result: array<Byte>)
    ensures fresh(result)
    ensures result[..] == Packed(septets, startBit)
  {
    if |septets| == 0 {
      result := new Byte[0];
      return;
    }
    var bitLength := startBit + |septets| * 7;
    result := new Byte[(bitLength + 7) / 8](_ => 0);
    EmptyStream(startBit, result.Length);
    assert septets[..0] == [];
    for index := 0 to |septets|
      invariant result[..] == StreamOctets(septets[..index], startBit, result.Length)
    {
      PlaceExtendsStream(septets, startBit, result.Length, index);
      PlaceInto(result, septets[index], startBit + index * 7);
    }
    assert septets[..|septets|] == septets;
  }

  /** The body of the packing loop. */
  method PlaceInto(result: array<Byte>, septet: Byte, bit: nat)
    requires bit / 8 < result.Length
    modifies result
    ensures result[..] == Place(old(result[..]), septet, bit)
  {
    var byteIndex := bit / 8;
    var shift := bit % 8;
    result[byteIndex] := PlaceLow(result[byteIndex], septet, shift);
    if shift > 1 && byteIndex + 1 < result.Length {
      result[byteIndex + 1] := PlaceHigh(result[byteIndex + 1], septet, shift);
    }
  }

  lemma StreamGrows(septets: seq<Byte>, startBit: nat, index: nat, k: nat)
    requires index < |septets|
    ensures SeptetStreamBit(septets[..index + 1], startBit, k)
         == (SeptetStreamBit(septets[..index], startBit, k)
             || (startBit + 7 * index <= k < startBit + 7 * index + 7 && Bit(septets[index], k - startBit - 7 * index)))
  {
  }

  lemma SameOctets(a: seq<Byte>, b: seq<Byte>)
    requires |a| == |b|
    requires forall i, j :: 0 <= i < |a| && 0 <= j < 8 ==> Bit(a[i], j) == Bit(b[i], j)
    ensures a == b
  {
    forall i | 0 <= i < |a| ensures a[i] == b[i] { SameOctet(a[i], b[i]); }
  }

  /** The septet at stream bit `bit`, combined from the one or two octets that hold it. */
  function ExtractSeptet(data: seq<Byte>, bit: nat): (b: Byte)
    requires bit + 7 <= 8 * |data|
  {
    var byteIndex, shift := bit / 8, bit % 8;
    var low := Shr(data[byteIndex], shift);
    var value := if shift > 1 && byteIndex + 1 < |data|
                 then Or(low, Shl(data[byteIndex + 1], 8 - shift) % 256) else low;
    value % 128
  }

  lemma Extracted(data: seq<Byte>, bit: nat, j: nat)
    requires bit + 7 <= 8 * |data|
    ensures Bit(ExtractSeptet(data, bit), j) == (j < 7 && OctetStreamBit(data, bit + j))
  {
    var byteIndex, shift := bit / 8, bit % 8;
    var low := Shr(data[byteIndex], shift);
    BitOfShr(data[byteIndex], shift, j);
    assert Shl(1, 8) == 256;
    if shift + j >= 8 { NoHighBits(data[byteIndex], 8, shift + j); }
    if shift > 1 && byteIndex + 1 < |data| {
      var high := Shl(data[byteIndex + 1], 8 - shift);
      BitOfOr(low, high % 256, j);
      BitOfOctet(high, j);
      BitOfShl(data[byteIndex + 1], 8 - shift, j);
      BitOfSeptet(Or(low, high % 256), j);
    } else {
      BitOfSeptet(low, j);
    }
    if j < 7 {
      if shift + j < 8 {
        assert (bit + j) / 8 == byteIndex && (bit + j) % 8 == shift + j;
      } else {
        assert (bit + j) / 8 == byteIndex + 1 && (bit + j) % 8 == shift + j - 8;
      }
    }
  }

  lemma ExtractionMeetsStream(data: seq<Byte>, startBit: nat, i: nat)
    requires startBit + 7 * i + 7 <= 8 * |data|
    ensures ExtractSeptet(data, startBit + 7 * i) == UnpackedSeptet(data, startBit, i)
  {
    var a, b := ExtractSeptet(data, startBit + 7 * i), UnpackedSeptet(data, startBit, i);
    forall j | 0 <= j < 8 ensures Bit(a, j) == Bit(b, j) {
      Extracted(data, startBit + 7 * i, j);
      assert UnpackedBit(data, startBit, i, j) == (j < 7 && OctetStreamBit(data, startBit + 7 * i + j));
    }
    SameOctet(a, b);
  }

  lemma UnpackedFromSeptets(result: seq<Byte>, data: seq<Byte>, startBit: nat)
    requires forall i :: 0 <= i < |result| ==> result[i] == UnpackedSeptet(data, startBit, i)
    ensures result == Unpacked(data, |result|, startBit)
  {
  }

  method UnpackSeptets(data: seq<Byte>, count: int, startBit: int) returns (r: Option<seq<Byte>>)
    ensures r.None? <==> count < 0 || startBit < 0 || startBit + count * 7 > |data| * 8
    ensures r.Some? ==> r.value == Unpacked(data, count, startBit)
  {
    if count < 0 || startBit < 0 || startBit + count * 7 > |data| * 8 {
      return None;
    }
    var result := new Byte[count](_ => 0);
    for index := 0 to count
      invariant forall i :: 0 <= i < index ==> result[i] == UnpackedSeptet(data, startBit, i)
    {
      var bit := startBit + index * 7;
      result[index] := ExtractSeptet(data, bit);
      ExtractionMeetsStream(data, startBit, index);
    }
    UnpackedFromSeptets(result[..], data, startBit);
    return Some(result[..]);
  }

  /** Writing `header` over the front of `data`, as Go's copy does. */
  function Overlay(data: seq<Byte>, header: seq<Byte>): (r: seq<Byte>)
    ensures |r| == |data|
  {
    if |header| <= |data| then header + data[|header|..] else header[..|data|]
  }

  /** Unpacking what was packed returns the septets, even after a header that stays
      below the first septet's bit has been written over the front. */
  lemma UnpackInvertsPack(septets: seq<Byte>, startBit: nat, header: seq<Byte>)
    requires forall s :: s in septets ==> s < 128
    requires 8 * |header| <= startBit
    ensures startBit + 7 * |septets| <= 8 * |Packed(septets, startBit)| || septets == []
    ensures septets != [] ==> Unpacked(Overlay(Packed(septets, startBit), header), |septets|, startBit) == septets
  {
    if septets != [] {
      var data := Overlay(Packed(septets, startBit), header);
      forall i | 0 <= i < |septets| ensures UnpackedSeptet(data, startBit, i) == septets[i] {
        assert septets[i] in septets;
        RecoveredSeptet(septets, startBit, header, i);
      }
    }
  }

  lemma RecoveredSeptet(septets: seq<Byte>, startBit: nat, header: seq<Byte>, i: nat)
    requires i < |septets| && septets[i] < 128 && 8 * |header| <= startBit
    ensures UnpackedSeptet(Overlay(Packed(septets, startBit), header), startBit, i) == septets[i]
  {
    var data := Overlay(Packed(septets, startBit), header);
    var back := UnpackedSeptet(data, startBit, i);
    forall j | 0 <= j < 8 ensures Bit(back, j) == Bit(septets[i], j) {
      assert Bit(back, j) == UnpackedBit(data, startBit, i, j);
      if j == 7 {
        assert Shl(1, 7) == 128;
        NoHighBits(septets[i], 7, j);
      } else {
        var k := startBit + 7 * i + j;
        OverlaidBit(septets, startBit, header, k);
        assert (k - startBit) / 7 == i && (k - startBit) % 7 == j;
      }
    }
    SameOctet(back, septets[i]);
  }

  /** Bits at or beyond the header are the septet stream's. */
  lemma OverlaidBit(septets: seq<Byte>, startBit: nat, header: seq<Byte>, k: nat)
    requires septets != [] && 8 * |header| <= k < 8 * |Packed(septets, startBit)|
    ensures OctetStreamBit(Overlay(Packed(septets, startBit), header), k) == SeptetStreamBit(septets, startBit, k)
  {
    var p := Packed(septets, startBit);
    assert Overlay(p, header)[k / 8] == p[k / 8];
    assert 8 * (k / 8) + k % 8 == k;
  }

  /** The header field and the padding after the last septet. */
  lemma PackedLayout(septets: seq<Byte>, startBit: nat, header: seq<Byte>)
    requires septets != [] && 8 * |header| <= startBit
    ensures var r := Overlay(Packed(septets, startBit), header);
            && r[..|header|] == header
            && (forall k: nat :: 8 * |header| <= k < 8 * |r| ==>
                  OctetStreamBit(r, k) == SeptetStreamBit(septets, startBit, k))
  {
    var r := Overlay(Packed(septets, startBit), header);
    forall k: nat | 8 * |header| <= k < 8 * |r|
      ensures OctetStreamBit(r, k) == SeptetStreamBit(septets, startBit, k)
    {
      OverlaidBit(septets, startBit, header, k);
    }
  }
}
