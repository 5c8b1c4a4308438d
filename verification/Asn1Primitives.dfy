/** Lengths, integers and bit strings as the generated Dart encodes and decodes them.
    Dart integers have 64 bits and wrap. */
module Asn1Primitives {
  import opened Bits
  import opened Asn1Tags
  import Segmentation

  const WORD: int := 0x1_0000_0000_0000_0000

  predicate IsInt64(v: int) { -(WORD / 2) <= v < WORD / 2 }

  // ---- Lengths (X.690 section 8.1.3) ----

  function LengthOctets(length: nat): seq<Byte> {
    if length < 0x80 then [length]
    else
      var octets := Octets(length);
      [(0x80 + |octets|) % 256] + octets
  }

  method EncodeLength(length: nat) returns (r: seq<Byte>)
    ensures r == LengthOctets(length)
  {
    if length < 0x80 {
      return [length];
    }
    var octets := TagBytes(length);
    return [(0x80 + |octets|) % 256] + octets;
  }

  /** How many octets a number takes is what its size says. */
  lemma {:induction false} OctetsBounded(v: nat, n: nat)
    requires v < Shl(1, 8 * n)
    ensures |Octets(v)| <= n
    decreases n
  {
    if v > 0 {
      assert n > 0 by { assert Shl(1, 0) == 1; }
      ShlByEight(1, n);
      OctetsBounded(v / 256, n - 1);
    }
  }

  lemma ShlByEight(a: nat, n: nat)
    requires n > 0
    ensures Shl(a, 8 * n) == 256 * Shl(a, 8 * n - 8)
  {
    var k := 8 * n - 8;
    assert Shl(a, k + 1) == 2 * Shl(a, k) && Shl(a, k + 2) == 4 * Shl(a, k);
    assert Shl(a, k + 3) == 8 * Shl(a, k) && Shl(a, k + 4) == 16 * Shl(a, k);
    assert Shl(a, k + 5) == 32 * Shl(a, k) && Shl(a, k + 6) == 64 * Shl(a, k);
    assert Shl(a, k + 7) == 128 * Shl(a, k) && Shl(a, k + 8) == 256 * Shl(a, k);
  }

  /** The form is the shortest: one octet below 128, otherwise a count and that many octets,
      the first of them not zero. */
  lemma LengthIsMinimal(length: nat)
    requires length < WORD
    ensures length < 0x80 ==> LengthOctets(length) == [length]
    ensures length >= 0x80 ==>
      var r := LengthOctets(length);
      && 2 <= |r| <= 9 && r[0] == 0x80 + |r| - 1 && r[1] > 0 && Pack(r[1..]) == length
  {
    if length >= 0x80 {
      Word();
      OctetsBounded(length, 8);
      PackUndoesOctets(length);
      assert LengthOctets(length)[1..] == Octets(length);
    }
  }

  lemma Word()
    ensures Shl(1, 8 * 8) == WORD
  {
    ShlByEight(1, 8);
    ShlByEight(1, 7);
    ShlByEight(1, 6);
    ShlByEight(1, 5);
    ShlByEight(1, 4);
    ShlByEight(1, 3);
    ShlByEight(1, 2);
    ShlByEight(1, 1);
    assert Shl(1, 0) == 1;
  }

  // ---- Integers (X.690 section 8.3) ----

  /** The two's complement number octets stand for. */
  function Signed(octets: seq<Byte>): int
    decreases |octets|
  {
    if octets == [] then 0
    else if |octets| == 1 then (if octets[0] >= 0x80 then octets[0] as int - 256 else octets[0])
    else 256 * Signed(octets[..|octets| - 1]) + octets[|octets| - 1] as int
  }

  /** Half the range of n octets: n of them reach from -Half(n) to Half(n)-1. */
  function Half(n: nat): (r: int)
    ensures r > 0
  {
    if n <= 1 then 128 else 256 * Half(n - 1)
  }

  lemma {:induction false} SignedRange(octets: seq<Byte>)
    requires octets != []
    ensures -Half(|octets|) <= Signed(octets) < Half(|octets|)
    decreases |octets|
  {
    if |octets| > 1 { SignedRange(octets[..|octets| - 1]); }
  }

  /** The first octet carries only the sign: X.690 forbids it. */
  predicate Redundant(octets: seq<Byte>) {
    |octets| > 1 && ((octets[0] == 0x00 && octets[1] < 0x80) || (octets[0] == 0xff && octets[1] >= 0x80))
  }

  /** Without a redundant octet no shorter one stands for the same number. */
  lemma {:induction false} IrredundantIsLarge(octets: seq<Byte>)
    requires |octets| >= 2 && !Redundant(octets)
    ensures Signed(octets) >= Half(|octets| - 1) || Signed(octets) < -Half(|octets| - 1)
    decreases |octets|
  {
    if |octets| == 2 {
      assert octets[..1] == [octets[0]];
    } else {
      IrredundantIsLarge(octets[..|octets| - 1]);
    }
  }

  lemma {:induction false} HalfMonotone(m: nat, n: nat)
    requires m <= n
    ensures Half(m) <= Half(n)
    decreases n
  {
    if m < n { HalfMonotone(m, n - 1); }
  }

  lemma {:induction false} RedundantDropped(octets: seq<Byte>)
    requires Redundant(octets)
    ensures Signed(octets[1..]) == Signed(octets)
    decreases |octets|
  {
    var init, rest := octets[..|octets| - 1], octets[1..];
    if |octets| == 2 {
      assert init == [octets[0]];
    } else {
      RedundantDropped(init);
      assert rest[..|rest| - 1] == init[1..];
    }
  }

  /** n octets of v, most significant first: the low 8n bits of its two's complement. */
  function Window(v: int, n: nat): seq<Byte>
    decreases n
  {
    if n == 0 then [] else Window(v / 256, n - 1) + [v % 256]
  }

  lemma {:induction false} WindowIsSigned(v: int, n: nat)
    requires n > 0 && -Half(n) <= v < Half(n)
    ensures |Window(v, n)| == n && Signed(Window(v, n)) == v
    decreases n
  {
    var w := Window(v, n);
    if n > 1 {
      WindowIsSigned(v / 256, n - 1);
      assert w[..|w| - 1] == Window(v / 256, n - 1);
    } else {
      assert w == [v % 256];
    }
  }

  function Trimmed(octets: seq<Byte>): seq<Byte>
    decreases |octets|
  {
    if Redundant(octets) then Trimmed(octets[1..]) else octets
  }

  lemma {:induction false} TrimmedMeans(octets: seq<Byte>)
    requires octets != []
    ensures Signed(Trimmed(octets)) == Signed(octets) && !Redundant(Trimmed(octets)) && Trimmed(octets) != []
    ensures |Trimmed(octets)| <= |octets|
    decreases |octets|
  {
    if Redundant(octets) {
      RedundantDropped(octets);
      TrimmedMeans(octets[1..]);
    }
  }

  function IntOctets(v: int): seq<Byte> {
    if v == 0 then [0] else Trimmed(Window(v, 8))
  }

  method EncodeInt(value: int) returns (r: seq<Byte>)
    requires IsInt64(value)
    ensures r == IntOctets(value)
  {
    if value == 0 {
      return [0];
    }
    var octets: seq<Byte> := [];
    var v := value;
    for i := 0 to 8
      invariant Window(v, 8 - i) + octets == Window(value, 8)
    {
      Segmentation.Associate(Window(v / 256, 7 - i), [v % 256], octets);
      octets := [v % 256] + octets;
      v := v / 256;
    }
    assert [] + octets == octets;
    while |octets| > 1
      invariant Trimmed(octets) == Trimmed(Window(value, 8))
      decreases |octets|
    {
      if octets[0] == 0x00 && octets[1] < 0x80 {
        octets := octets[1..];
      } else if octets[0] == 0xff && octets[1] >= 0x80 {
        octets := octets[1..];
      } else {
        break;
      }
    }
    return octets;
  }

  /** A 64-bit result. */
  function Wrap(x: int): (r: int)
    ensures IsInt64(r) && (IsInt64(x) ==> r == x)
  {
    (x + WORD / 2) % WORD - WORD / 2
  }

  /** The decoding loop's value: sign-fill, then octet by octet in 64 bits. */
  function DecodedInt(octets: seq<Byte>): int
    decreases |octets|
  {
    if octets == [] then 0
    else if |octets| == 1 then (if octets[0] >= 0x80 then octets[0] as int - 256 else octets[0])
    else Wrap(256 * DecodedInt(octets[..|octets| - 1]) + octets[|octets| - 1] as int)
  }

  method DecodeInt(octets: seq<Byte>) returns (v: int)
    ensures v == DecodedInt(octets)
  {
    if |octets| == 0 {
      return 0;
    }
    v := if octets[0] >= 0x80 then -1 else 0;
    for i := 0 to |octets|
      invariant v == if i == 0 then (if octets[0] >= 0x80 then -1 else 0) else DecodedInt(octets[..i])
    {
      assert octets[..i + 1][..i] == octets[..i] && octets[..i + 1][i] == octets[i];
      v := Wrap(256 * v + octets[i] as int);
    }
    assert octets[..|octets|] == octets;
  }

  lemma {:induction false} DecodedIsSigned(octets: seq<Byte>)
    requires 0 < |octets| <= 8
    ensures DecodedInt(octets) == Signed(octets)
    decreases |octets|
  {
    SignedRange(octets);
    HalfMonotone(|octets|, 8);
    assert Half(8) == WORD / 2 by { HalfOfWord(); }
    if |octets| > 1 { DecodedIsSigned(octets[..|octets| - 1]); }
  }

  lemma HalfOfWord()
    ensures Half(8) == WORD / 2
  {
    assert Half(4) == 0x8000_0000;
  }

  /** The n octets of v without the redundant ones: they stand for v, and nothing shorter does. */
  lemma TrimmedWindow(v: int, n: nat)
    requires n > 0 && -Half(n) <= v < Half(n)
    ensures var r := Trimmed(Window(v, n)); 1 <= |r| <= n && Signed(r) == v && !Redundant(r)
  {
    WindowIsSigned(v, n);
    TrimmedMeans(Window(v, n));
  }

  lemma NoneShorter(r: seq<Byte>, octets: seq<Byte>)
    requires r != [] && octets != [] && !Redundant(r) && Signed(r) == Signed(octets)
    ensures |r| <= |octets|
  {
    hide Signed, Redundant;
    SignedRange(octets);
    if |r| > |octets| {
      IrredundantIsLarge(r);
      HalfMonotone(|octets|, |r| - 1);
    }
  }

  /** Every 64-bit integer is decoded back, and no other octets of that number are shorter. */
  lemma IntRoundTrip(v: int)
    requires IsInt64(v)
    ensures DecodedInt(IntOctets(v)) == v
    ensures !Redundant(IntOctets(v)) && 1 <= |IntOctets(v)| <= 8
    ensures forall octets: seq<Byte> :: octets != [] && Signed(octets) == v ==> |IntOctets(v)| <= |octets|
  {
    hide Signed, Redundant, DecodedInt;
    var r := IntOctets(v);
    IntOctetsMean(v);
    DecodedIsSigned(r);
    forall octets: seq<Byte> | octets != [] && Signed(octets) == v ensures |r| <= |octets| { NoneShorter(r, octets); }
  }

  lemma IntOctetsMean(v: int)
    requires IsInt64(v)
    ensures var r := IntOctets(v); 1 <= |r| <= 8 && Signed(r) == v && !Redundant(r)
  {
    hide Window, Trimmed;
    HalfOfWord();
    TrimmedWindow(v, 8);
  }

  // ---- Integers read from more octets than they were written in ----

  function Pow256(n: nat): nat {
    if n == 0 then 1 else 256 * Pow256(n - 1)
  }

  lemma {:induction false} WindowIgnoresHigh(v: int, q: int, k: nat, e: nat)
    requires k <= e
    ensures Window(v + q * Pow256(e), k) == Window(v, k)
    decreases k
  {
    if k > 0 {
      var p := Pow256(e - 1);
      assert q * (256 * p) == 256 * (q * p);
      WindowIgnoresHigh(v / 256, q, k - 1, e - 1);
    }
  }

  lemma WrapIgnoresHigh(x: int, k: nat)
    requires k <= 8
    ensures Window(Wrap(x), k) == Window(x, k)
  {
    hide Window;
    assert Pow256(4) == 0x1_0000_0000;
    assert Pow256(8) == WORD;
    WindowIgnoresHigh(x, -((x + WORD / 2) / WORD), k, 8);
  }

  lemma WindowStep(v: int, last: Byte, k: nat)
    requires k > 0
    ensures Window(256 * v + last, k) == Window(v, k - 1) + [last]
  {
    assert (256 * v + last) / 256 == v && (256 * v + last) % 256 == last;
  }

  /** The low octets of what is decoded are the last octets read. */
  lemma {:induction false} LastOctets(octets: seq<Byte>, k: nat)
    requires octets != [] && k <= 8 && k <= |octets|
    ensures Window(DecodedInt(octets), k) == octets[|octets| - k..]
    decreases |octets|
  {
    hide Window;
    if k == 0 {
      assert Window(DecodedInt(octets), 0) == [] by { NoWindow(DecodedInt(octets)); }
    } else if |octets| == 1 {
      WindowIsSigned(DecodedInt(octets), 1);
      assert Window(DecodedInt(octets), 1) == octets by { OneOctet(octets[0]); }
    } else {
      var init, last := octets[..|octets| - 1], octets[|octets| - 1];
      WrapIgnoresHigh(256 * DecodedInt(init) + last, k);
      WindowStep(DecodedInt(init), last, k);
      LastOctets(init, k - 1);
      assert octets[|octets| - k..] == init[|init| - (k - 1)..] + [last];
    }
  }

  lemma NoWindow(v: int)
    ensures Window(v, 0) == []
  {
  }

  lemma OneOctet(octet: Byte)
    ensures Window(if octet >= 0x80 then octet - 256 else octet, 1) == [octet]
  {
    hide Window;
    LastOfWindow(if octet >= 0x80 then octet - 256 else octet);
  }

  lemma LastOfWindow(v: int)
    ensures Window(v, 1) == [v % 256]
  {
    assert Window(v, 1) == Window(v / 256, 0) + [v % 256];
  }

  /** One octet more than a number needs is a sign octet. */
  lemma {:induction false} WindowTop(v: int, n: nat)
    requires n > 0 && -Half(n) <= v < Half(n)
    ensures |Window(v, n + 1)| == n + 1 && Window(v, n + 1)[0] in {0x00, 0xff}
    decreases n
  {
    if n == 1 {
      assert Window(v, 2) == Window(v / 256, 1) + [v % 256];
      assert Window(v / 256, 1) == Window(v / 256 / 256, 0) + [v / 256 % 256];
    } else {
      WindowTop(v / 256, n - 1);
    }
  }

  lemma {:induction false} WindowOfSigned(octets: seq<Byte>)
    requires octets != []
    ensures Window(Signed(octets), |octets|) == octets
    decreases |octets|
  {
    if |octets| == 1 {
      OneOctet(octets[0]);
    } else {
      var init, last := octets[..|octets| - 1], octets[|octets| - 1];
      WindowOfSigned(init);
      WindowStep(Signed(init), last, |octets|);
      assert octets == init + [last];
    }
  }

  /** An integer read together with the octets of its tag and length comes out the same exactly
      when it fills the 64 bits by itself. */
  lemma IntBehindItsLength(v: int, octets: seq<Byte>)
    requires IsInt64(v) && |octets| >= |IntOctets(v)| + 2
    requires octets[|octets| - |IntOctets(v)|..] == IntOctets(v)
    requires octets[|octets| - |IntOctets(v)| - 1] == |IntOctets(v)|
    ensures DecodedInt(octets) == v <==> |IntOctets(v)| == 8
  {
    hide Window, Signed, IntOctets, Redundant;
    var own := IntOctets(v);
    IntOctetsMean(v);
    WindowOfSigned(own);
    if |own| == 8 {
      LastOctets(octets, 8);
      HalfOfWord();
      WindowIsSigned(v, 8);
      WindowIsSigned(DecodedInt(octets), 8);
    } else if DecodedInt(octets) == v {
      LastOctets(octets, |own| + 1);
      SignedRange(own);
      WindowTop(v, |own|);
    }
  }

  // ---- Bit strings: bit i of the mask is bit i of the string ----

  /** The highest set bit of a mask below 2^n, None if there is none. */
  function TopBit(value: nat, n: nat): int {
    if n == 0 then -1 else if Bit(value, n - 1) then n - 1 else TopBit(value, n - 1)
  }

  /** Octet i of the string for a mask: bit 0 of the string is the octet's most significant. */
  function StringOctet(value: nat, i: nat): Byte {
    FromBitsBound(8, StringBits(value, i));
    assert Shl(1, 8) == 256;
    FromBits(8, StringBits(value, i))
  }

  function StringBits(value: nat, i: nat): nat -> bool {
    (j: nat) => j < 8 && Bit(value, 8 * i + 7 - j)
  }

  /** The contents octets of X.690 section 8.6 for a mask, up to its highest set bit. */
  function BitOctets(value: nat): seq<Byte> {
    TopBitMeans(value, 64);
    var top := TopBit(value, 64);
    if top == -1 then [0, 0]
    else [(8 - (top + 1) % 8) % 8] + seq(top / 8 + 1, i requires 0 <= i => StringOctet(value, i))
  }

  /** octet | 1 << bit */
  function SetBit(octet: Byte, bit: nat): (r: Byte)
    requires bit < 8
    ensures forall j: nat :: j < 8 ==> (Bit(r, j) <==> Bit(octet, j) || j == bit)
  {
    var mask := Shl(1, bit);
    assert Shl(1, 8) == 256;
    assert forall j: nat :: Bit(Or(octet, mask), j) <==> Bit(octet, j) || j == bit by {
      forall j: nat ensures Bit(Or(octet, mask), j) <==> Bit(octet, j) || j == bit {
        BitOfOr(octet, mask, j);
        BitOfShl(1, bit, j);
        if j > bit { OnlyBitZero(j - bit); }
      }
    }
    assert Or(octet, mask) < 256 by {
      forall k: nat | 8 <= k ensures !Bit(Or(octet, mask), k) { NoHighBits(octet, 8, k); }
      BoundFromBits(Or(octet, mask), 8);
    }
    Or(octet, mask)
  }

  lemma OnlyBitZero(k: nat)
    requires k > 0
    ensures !Bit(1, k)
  {
    BitOfZero(k - 1);
  }

  method EncodeBits(value: nat) returns (out: seq<Byte>)
    requires value < WORD
    ensures out == BitOctets(value)
  {
    hide FromBits, Bit, StringOctet, BitOctets;
    if value == 0 {
      ZeroHasNoTop(64);
      NoBits(value);
      return [0, 0];
    }
    var maxBit := -1;
    var i := 63;
    while i >= 0
      invariant -1 <= i <= 63 && maxBit == -1
      invariant TopBit(value, i + 1) == TopBit(value, 64)
    {
      if Bit(value, i) {
        maxBit := i;
        break;
      }
      i := i - 1;
    }
    if maxBit == -1 {
      NoBits(value);
      return [0, 0];
    }
    TopBitMeans(value, 64);
    var octets := new Byte[2 + maxBit / 8](_ => 0);
    octets[0] := (8 - (maxBit + 1) % 8) % 8;
    ghost var unused := octets[0];
    forall k, j: nat | 1 <= k < octets.Length ensures !Bit(octets[k], j) { BitOfZero(j); }
    for k := 0 to maxBit + 1
      invariant octets[0] == unused
      invariant forall n, j :: 1 <= n < octets.Length && 0 <= j < 8 ==>
        (Bit(octets[n], j) <==> 8 * (n - 1) + 7 - j < k && Bit(value, 8 * (n - 1) + 7 - j))
    {
      if Bit(value, k) {
        octets[k / 8 + 1] := SetBit(octets[k / 8 + 1], 7 - k % 8);
      }
    }
    forall n | 1 <= n < octets.Length ensures octets[n] == StringOctet(value, n - 1) {
      OctetIsString(value, n - 1, octets[n]);
    }
    BitOctetsAre(value, octets[..]);
    return octets[..];
  }

  lemma NoBits(value: nat)
    requires TopBit(value, 64) == -1
    ensures BitOctets(value) == [0, 0]
  {
  }

  lemma BitOctetsAre(value: nat, octets: seq<Byte>)
    requires value < WORD && TopBit(value, 64) >= 0
    requires |octets| == 2 + TopBit(value, 64) / 8 && octets[0] == (8 - (TopBit(value, 64) + 1) % 8) % 8
    requires forall n :: 1 <= n < |octets| ==> octets[n] == StringOctet(value, n - 1)
    ensures octets == BitOctets(value)
  {
    hide StringOctet, TopBit;
  }

  lemma StringOctetBit(value: nat, i: nat, j: nat)
    requires j < 8
    ensures Bit(StringOctet(value, i), j) == Bit(value, 8 * i + 7 - j)
  {
    hide FromBits, Bit, StringOctet;
    BitOfFromBits(8, StringBits(value, i), j);
    StringOctetIs(value, i);
  }

  lemma StringOctetIs(value: nat, i: nat)
    ensures StringOctet(value, i) == FromBits(8, StringBits(value, i))
  {
    hide FromBits;
  }

  lemma OctetIsString(value: nat, i: nat, octet: Byte)
    requires value < WORD
    requires forall j :: 0 <= j < 8 ==> (Bit(octet, j) <==> 8 * i + 7 - j <= TopBit(value, 64) && Bit(value, 8 * i + 7 - j))
    ensures octet == StringOctet(value, i)
  {
    hide Bit, TopBit, StringOctet;
    forall j | 0 <= j < 8 ensures Bit(octet, j) == Bit(StringOctet(value, i), j) {
      StringOctetBit(value, i, j);
      if 8 * i + 7 - j > TopBit(value, 64) { AboveTopClear(value, 8 * i + 7 - j); }
    }
    SameOctet(octet, StringOctet(value, i));
  }

  lemma AboveTopClear(value: nat, k: nat)
    requires value < WORD && k > TopBit(value, 64)
    ensures !Bit(value, k)
  {
    TopBitMeans(value, 64);
    if k >= 64 {
      Word();
      NoHighBits(value, 64, k);
    }
  }

  lemma {:induction false} ZeroHasNoTop(n: nat)
    ensures TopBit(0, n) == -1
  {
    if n > 0 {
      BitOfZero(n - 1);
      ZeroHasNoTop(n - 1);
    }
  }

  /** Bit k of a string: the unused bits of its last octet are masked away. */
  predicate ReadBit(octets: seq<Byte>, k: nat) {
    && k / 8 + 1 < |octets|
    && Bit(octets[k / 8 + 1], 7 - k % 8)
    && (k / 8 + 2 == |octets| ==> 7 - k % 8 >= octets[0])
  }

  /** The mask a bit string decodes to: as many of its bits as fit in 64. */
  function DecodedBits(octets: seq<Byte>): nat {
    FromBits(64, (k: nat) => ReadBit(octets, k))
  }

  method DecodeBits(octets: seq<Byte>) returns (result: nat)
    ensures result == DecodedBits(octets)
  {
    result := 0;
    forall k: nat ensures !Bit(0, k) { BitOfZero(k); }
    if |octets| < 2 {
      DecodedBitsAre(octets, result);
      return;
    }
    var unused := octets[0];
    for i := 1 to |octets|
      invariant forall k: nat :: Bit(result, k) <==> k < 8 * (i - 1) && k < 64 && ReadBit(octets, k)
    {
      for j := 0 to 8
        invariant forall k: nat :: Bit(result, k) <==> k < 8 * (i - 1) + j && k < 64 && ReadBit(octets, k)
      {
        var bitIdx := (i - 1) * 8 + j;
        var isSet := Bit(octets[i], 7 - j) && (i == |octets| - 1 ==> 7 - j >= unused);
        assert bitIdx / 8 == i - 1 && bitIdx % 8 == j;
        assert isSet == ReadBit(octets, bitIdx);
        if isSet && bitIdx < 64 {
          SetWordBit(result, bitIdx);
          result := Or(result, Shl(1, bitIdx));
        }
      }
    }
    DecodedBitsAre(octets, result);
  }

  lemma DecodedBitsAre(octets: seq<Byte>, value: nat)
    requires forall k: nat :: Bit(value, k) <==> k < 64 && ReadBit(octets, k)
    ensures value == DecodedBits(octets)
  {
    forall k: nat ensures Bit(value, k) == Bit(DecodedBits(octets), k) {
      BitOfFromBits(64, (k: nat) => ReadBit(octets, k), k);
    }
    SameBits(value, DecodedBits(octets));
  }

  lemma SetWordBit(value: nat, bit: nat)
    ensures forall k: nat :: Bit(Or(value, Shl(1, bit)), k) <==> Bit(value, k) || k == bit
  {
    forall k: nat ensures Bit(Or(value, Shl(1, bit)), k) <==> Bit(value, k) || k == bit {
      BitOfOr(value, Shl(1, bit), k);
      BitOfShl(1, bit, k);
      if k > bit { OnlyBitZero(k - bit); }
    }
  }

  lemma {:induction false} TopBitMeans(value: nat, n: nat)
    ensures -1 <= TopBit(value, n) < n
    ensures TopBit(value, n) >= 0 ==> Bit(value, TopBit(value, n))
    ensures forall k: nat :: TopBit(value, n) < k < n ==> !Bit(value, k)
  {
    if n > 0 { TopBitMeans(value, n - 1); }
  }

  /** Every 64-bit mask is decoded back. */
  lemma BitsRoundTrip(value: nat)
    requires value < WORD
    ensures DecodedBits(BitOctets(value)) == value
  {
    var octets := BitOctets(value);
    forall k: nat ensures Bit(value, k) <==> k < 64 && ReadBit(octets, k) { SameBit(value, k); }
    DecodedBitsAre(octets, value);
  }

  /** The unused count leaves exactly the bits up to the highest set one. */
  lemma UnusedMeans(top: nat, k: nat)
    requires k / 8 == top / 8
    ensures 7 - k % 8 >= (8 - (top + 1) % 8) % 8 <==> k <= top
  {
    assert k <= top <==> k % 8 <= top % 8;
    assert (top + 1) % 8 == (if top % 8 == 7 then 0 else top % 8 + 1);
  }

  lemma BitOctetAt(value: nat, i: nat)
    requires TopBit(value, 64) >= 0 && i <= TopBit(value, 64) / 8
    ensures |BitOctets(value)| == 2 + TopBit(value, 64) / 8
    ensures BitOctets(value)[0] == (8 - (TopBit(value, 64) + 1) % 8) % 8
    ensures BitOctets(value)[i + 1] == StringOctet(value, i)
  {
    hide TopBit, StringOctet;
  }

  lemma SameBit(value: nat, k: nat)
    requires value < WORD
    ensures Bit(value, k) <==> k < 64 && ReadBit(BitOctets(value), k)
  {
    hide Bit, TopBit, StringOctet, BitOctets, ReadBit;
    var top := TopBit(value, 64);
    TopBitMeans(value, 64);
    if k > top { AboveTopClear(value, k); }
    if top == -1 {
      NoBits(value);
      ZeroStringClear(k);
    } else if k / 8 <= top / 8 {
      StringBitRead(value, k);
    } else {
      BitOctetAt(value, 0);
      BeyondString(BitOctets(value), k);
    }
  }

  lemma ZeroStringClear(k: nat)
    ensures !ReadBit([0, 0], k)
  {
    hide Bit;
    if k < 8 { BitOfZero(7 - k); }
  }

  lemma BeyondString(octets: seq<Byte>, k: nat)
    requires k / 8 + 1 >= |octets|
    ensures !ReadBit(octets, k)
  {
    hide Bit;
  }

  lemma StringBitRead(value: nat, k: nat)
    requires 0 <= TopBit(value, 64) < 64 && k / 8 <= TopBit(value, 64) / 8
    ensures ReadBit(BitOctets(value), k) <==> Bit(value, k) && k <= TopBit(value, 64)
    ensures k < 64
  {
    hide Bit, TopBit, StringOctet, BitOctets;
    BitOctetAt(value, k / 8);
    StringOctetBit(value, k / 8, 7 - k % 8);
    if k / 8 == TopBit(value, 64) / 8 { UnusedMeans(TopBit(value, 64), k); }
  }

  /** How many bits a string holds: eight to an octet, but for the unused ones of the last. */
  function BitsHeld(octets: seq<Byte>): int {
    8 * (|octets| - 1) - if octets == [] then 0 else octets[0] as int
  }

  /** Bit k of a string of octets, the first octet being the count of unused bits. */
  predicate StringBit(octets: seq<Byte>, k: nat)
    requires k / 8 + 1 < |octets|
  {
    Bit(octets[k / 8 + 1], 7 - k % 8)
  }

  /** A mask other than zero becomes the string of its bits up to the highest set one, bit 0 the first,
      and zeros after it. */
  lemma BitStringForm(value: nat)
    requires 0 < value < WORD
    ensures var r := BitOctets(value);
            && |r| >= 2 && r[0] < 8 && BitsHeld(r) > 0 && Bit(value, BitsHeld(r) - 1)
            && forall k: nat :: k / 8 + 1 < |r| ==> (StringBit(r, k) <==> Bit(value, k) && k < BitsHeld(r))
  {
    hide Bit, TopBit, StringOctet, BitOctets, StringBit;
    var r, top := BitOctets(value), TopBit(value, 64);
    TopBitMeans(value, 64);
    if top == -1 { NothingSet(value); }
    BitOctetAt(value, 0);
    assert BitsHeld(r) == top + 1;
    forall k: nat | k / 8 + 1 < |r| ensures StringBit(r, k) <==> Bit(value, k) && k < BitsHeld(r) {
      StringBitIs(value, k);
      if k > top { AboveTopClear(value, k); }
    }
  }

  lemma StringBitIs(value: nat, k: nat)
    requires TopBit(value, 64) >= 0 && k / 8 + 1 < |BitOctets(value)|
    ensures StringBit(BitOctets(value), k) <==> Bit(value, k)
  {
    hide Bit, TopBit, StringOctet, BitOctets;
    BitOctetAt(value, 0);
    BitOctetAt(value, k / 8);
    StringOctetBit(value, k / 8, 7 - k % 8);
  }

  lemma NothingSet(value: nat)
    requires value < WORD && TopBit(value, 64) == -1
    ensures value == 0
  {
    forall k: nat ensures Bit(value, k) == Bit(0, k) {
      TopBitMeans(value, 64);
      BitOfZero(k);
      AboveTopClear(value, k);
    }
    SameBits(value, 0);
  }

  /** Read back are the bits a string holds, up to 64, whatever stands in its unused ones. */
  lemma HeldBitsRead(octets: seq<Byte>, k: nat)
    requires |octets| >= 2 && octets[0] < 8
    ensures Bit(DecodedBits(octets), k) <==> k < 64 && k < BitsHeld(octets) && StringBit(octets, k)
  {
    hide Bit;
    BitOfFromBits(64, (k: nat) => ReadBit(octets, k), k);
  }
}
