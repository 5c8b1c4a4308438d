/** Packed identifiers of the ASN.1 generator and of the Dart code it emits.

    An identifier (X.690 section 8.1.2) is folded into one number, its octets in order:
    BF 2D becomes 0xBF2D.  Numbers are unbounded here, so identifiers of any length are
    covered.  Where the program combines disjoint bits with |, the model adds. */
module Asn1Tags {
  import opened Bits
  import Segmentation

  /** The class bits of a leading octet. */
  datatype Class = Universal | Application | ContextSpecific | Private {
    function Base(): Byte {
      match this
      case Universal => 0x00
      case Application => 0x40
      case ContextSpecific => 0x80
      case Private => 0xc0
    }
  }

  datatype Identifier = Identifier(number: nat, class_: Class, constructed: bool)

  /** The number folded from octets, most significant first. */
  function Pack(octets: seq<Byte>): nat {
    if octets == [] then 0 else 256 * Pack(octets[..|octets| - 1]) + octets[|octets| - 1]
  }

  lemma PackOne(octet: Byte)
    ensures Pack([octet]) == octet
  {
    assert [octet][..0] == [];
  }

  /** Base-128 digits, most significant first. */
  function Digits128(v: nat): seq<Byte> {
    if v == 0 then [] else Digits128(v / 128) + [v % 128]
  }

  /** All but the last digit get the continuation bit. */
  function Continued(digits: seq<Byte>): (r: seq<Byte>)
    requires forall d :: d in digits ==> d < 128
    ensures |r| == |digits|
  {
    seq(|digits|, i requires 0 <= i < |digits| =>
      assert digits[i] in digits; if i < |digits| - 1 then digits[i] + 0x80 else digits[i])
  }

  lemma {:induction false} Digits128Small(v: nat)
    ensures forall d :: d in Digits128(v) ==> d < 128
    ensures v > 0 ==> Digits128(v) != [] && Digits128(v)[0] > 0
  {
    if v > 0 { Digits128Small(v / 128); }
  }

  function Lead(id: Identifier): Byte {
    id.class_.Base() + (if id.constructed then 0x20 else 0x00) + (if id.number < 31 then id.number else 0x1f)
  }

  /** The identifier octets of X.690. */
  function IdentifierOctets(id: Identifier): seq<Byte> {
    if id.number < 31 then [Lead(id)]
    else (Digits128Small(id.number); [Lead(id)] + Continued(Digits128(id.number)))
  }

  /** The packed tag. */
  function TagOf(id: Identifier): nat {
    Pack(IdentifierOctets(id))
  }

  /** The one identifier whose packed tag is zero, which X.690 reserves. */
  predicate Reserved(id: Identifier) {
    id.number == 0 && id.class_ == Universal && !id.constructed
  }

  method EncodeTagValue(number: nat, class_: Class, constructed: bool) returns (value: nat)
    ensures value == TagOf(Identifier(number, class_, constructed))
  {
    hide IdentifierOctets, Pack, Digits128;
    var id := Identifier(number, class_, constructed);
    var first: nat := class_.Base() as int + if constructed then 0x20 else 0x00;
    if number < 31 {
      assert TagOf(id) == Lead(id) by { SmallTag(id); }
      return first + number;
    }
    first := first + 0x1f;
    var octets := TagDigits(number);
    value := first;
    FirstFolded(id);
    for idx := 0 to |octets|
      invariant value == Pack(IdentifierOctets(id)[..1 + idx])
    {
      NextFolded(id, idx);
      var octet := if idx < |octets| - 1 then octets[idx] + 0x80 else octets[idx];
      value := 256 * value + octet;
    }
    assert IdentifierOctets(id)[..1 + |octets|] == IdentifierOctets(id);
  }

  lemma SmallTag(id: Identifier)
    requires id.number < 31
    ensures TagOf(id) == Lead(id)
  {
    PackOne(Lead(id));
  }

  lemma FirstFolded(id: Identifier)
    requires id.number >= 31
    ensures |IdentifierOctets(id)| == 1 + |Digits128(id.number)|
    ensures Pack(IdentifierOctets(id)[..1]) == Lead(id)
  {
    Digits128Small(id.number);
    assert IdentifierOctets(id)[..1] == [Lead(id)];
    PackOne(Lead(id));
  }

  lemma NextFolded(id: Identifier, idx: nat)
    requires id.number >= 31 && idx < |Digits128(id.number)|
    ensures |IdentifierOctets(id)| == 1 + |Digits128(id.number)| && Digits128(id.number)[idx] < 128
    ensures var all, digits := IdentifierOctets(id), Digits128(id.number);
            Pack(all[..2 + idx])
            == 256 * Pack(all[..1 + idx]) + (digits[idx] as int + if idx < |digits| - 1 then 0x80 else 0)
  {
    Digits128Small(id.number);
    var all, digits := IdentifierOctets(id), Digits128(id.number);
    assert digits[idx] in digits;
    assert all[..2 + idx][..1 + idx] == all[..1 + idx] && all[1 + idx] == Continued(digits)[idx];
  }

  /** The digit loop: prepend the low seven bits until nothing is left. */
  method TagDigits(number: nat) returns (digits: seq<Byte>)
    ensures digits == Digits128(number)
  {
    digits := [];
    var v := number;
    while v > 0
      invariant Digits128(v) + digits == Digits128(number)
    {
      Segmentation.Associate(Digits128(v / 128), [v % 128], digits);
      digits := [v % 128] + digits;
      v := v / 128;
    }
  }

  // ---- Back to octets ----

  /** Base-256 digits, most significant first. */
  function Octets(v: nat): seq<Byte> {
    if v == 0 then [] else Octets(v / 256) + [v % 256]
  }

  method TagBytes(tag: nat) returns (out: seq<Byte>)
    ensures out == Octets(tag)
  {
    out := [];
    var v := tag;
    while v > 0
      invariant Octets(v) + out == Octets(tag)
    {
      Segmentation.Associate(Octets(v / 256), [v % 256], out);
      out := [v % 256] + out;
      v := v / 256;
    }
  }

  lemma {:induction false} PackPositive(octets: seq<Byte>)
    requires octets != [] && octets[0] > 0
    ensures Pack(octets) > 0
    decreases |octets|
  {
    if |octets| > 1 { PackPositive(octets[..|octets| - 1]); }
  }

  /** Unfolding a packed number returns its octets, unless they start with zero. */
  lemma {:induction false} OctetsUndoPack(octets: seq<Byte>)
    requires octets == [] || octets[0] > 0
    ensures Octets(Pack(octets)) == octets
    decreases |octets|
  {
    if octets != [] {
      var init := octets[..|octets| - 1];
      OctetsUndoPack(init);
      PackPositive(octets);
      assert octets == init + [octets[|octets| - 1]];
    }
  }

  lemma {:induction false} PackUndoesOctets(v: nat)
    ensures Pack(Octets(v)) == v
    ensures v > 0 ==> Octets(v) != [] && Octets(v)[0] > 0
  {
    if v > 0 {
      PackUndoesOctets(v / 256);
      assert Octets(v)[..|Octets(v)| - 1] == Octets(v / 256);
    }
  }

  /** Exactly the identifier octets are emitted for a packed tag, for any number and class,
      except for the reserved identifier, for which nothing is. */
  lemma TagBytesAreIdentifier(id: Identifier)
    ensures Octets(TagOf(id)) == if Reserved(id) then [] else IdentifierOctets(id)
    ensures TagOf(id) == 0 <==> Reserved(id)
  {
    var octets := IdentifierOctets(id);
    if Reserved(id) {
      assert octets == [0] && octets[..0] == [];
    } else {
      assert octets[0] == Lead(id) > 0;
      OctetsUndoPack(octets);
      PackPositive(octets);
    }
  }

  // ---- Injectivity ----

  function Unpacked128(digits: seq<Byte>): nat {
    if digits == [] then 0 else 128 * Unpacked128(digits[..|digits| - 1]) + digits[|digits| - 1] % 128
  }

  lemma {:induction false} DigitsUndone(v: nat)
    ensures Unpacked128(Digits128(v)) == v
  {
    if v > 0 {
      DigitsUndone(v / 128);
      assert Digits128(v)[..|Digits128(v)| - 1] == Digits128(v / 128);
    }
  }

  lemma {:induction false} ContinuationIgnored(a: seq<Byte>, b: seq<Byte>)
    requires |a| == |b| && forall i :: 0 <= i < |a| ==> a[i] % 128 == b[i] % 128
    ensures Unpacked128(a) == Unpacked128(b)
    decreases |a|
  {
    if a != [] { ContinuationIgnored(a[..|a| - 1], b[..|b| - 1]); }
  }

  /** The number can be read back from the identifier octets. */
  function NumberIn(octets: seq<Byte>): nat
    requires octets != []
  {
    if octets[0] % 32 < 31 then octets[0] % 32 else Unpacked128(octets[1..])
  }

  lemma NumberReadBack(id: Identifier)
    ensures NumberIn(IdentifierOctets(id)) == id.number
  {
    hide Unpacked128;
    LeadSays(id);
    if id.number >= 31 {
      Digits128Small(id.number);
      var digits := Digits128(id.number);
      assert IdentifierOctets(id)[1..] == Continued(digits);
      assert forall i :: 0 <= i < |digits| ==> digits[i] in digits;
      ContinuationIgnored(Continued(digits), digits);
      DigitsUndone(id.number);
    }
  }

  /** Different identifiers have different packed tags. */
  lemma TagInjective(a: Identifier, b: Identifier)
    requires TagOf(a) == TagOf(b)
    ensures a == b
  {
    TagBytesAreIdentifier(a);
    TagBytesAreIdentifier(b);
    if !Reserved(a) {
      NumberReadBack(a);
      NumberReadBack(b);
      assert Lead(a) == IdentifierOctets(a)[0] == IdentifierOctets(b)[0] == Lead(b);
      LeadSays(a);
      LeadSays(b);
    }
  }

  lemma LeadSays(id: Identifier)
    ensures Lead(id) / 64 == id.class_.Base() / 64
    ensures Lead(id) / 32 % 2 == 1 <==> id.constructed
    ensures Lead(id) % 32 == if id.number < 31 then id.number else 31
  {
  }

  /** Bit by bit: the class in bits 7 and 6 of the first octet, constructed in bit 5, a number below 31 in
      the rest; a larger one in further octets of seven bits each, as few as possible, all but the last
      of them continued in bit 7. */
  lemma IdentifierForm(id: Identifier)
    ensures var r := IdentifierOctets(id);
            && NumberIn(r) == id.number
            && (r[0] >= 0x80 <==> id.class_ == ContextSpecific || id.class_ == Private)
            && (r[0] / 0x40 % 2 == 1 <==> id.class_ == Application || id.class_ == Private)
            && (r[0] / 0x20 % 2 == 1 <==> id.constructed)
            && (if id.number < 31 then |r| == 1
                else |r| >= 2 && r[0] % 32 == 31 && r[1] != 0x80 && r[|r| - 1] < 0x80
                     && forall i :: 0 < i < |r| - 1 ==> r[i] >= 0x80)
  {
    hide NumberIn, Lead;
    NumberReadBack(id);
    LeadSays(id);
    LeadClass(id);
    if id.number >= 31 {
      TailForm(id.number);
      assert IdentifierOctets(id)[0] == Lead(id) && IdentifierOctets(id)[1..] == Continued(Digits128(id.number));
    }
  }

  lemma LeadClass(id: Identifier)
    ensures Lead(id) >= 0x80 <==> id.class_ == ContextSpecific || id.class_ == Private
    ensures Lead(id) / 0x40 % 2 == 1 <==> id.class_ == Application || id.class_ == Private
  {
  }

  lemma TailForm(number: nat)
    requires number > 0
    ensures forall d :: d in Digits128(number) ==> d < 128
    ensures var r := Continued(Digits128(number));
            r != [] && r[0] != 0x80 && r[|r| - 1] < 0x80 && forall i :: 0 <= i < |r| - 1 ==> r[i] >= 0x80
  {
    Digits128Small(number);
    var digits := Digits128(number);
    assert forall i :: 0 <= i < |digits| ==> digits[i] in digits;
  }

  // ---- Ignoring the constructed bit ----

  function ClearConstructed(octet: Byte): Byte {
    if octet / 0x20 % 2 == 1 then octet - 0x20 else octet
  }

  /** A packed tag with the constructed bit of its leading octet cleared. */
  function TagClass(tag: nat): nat {
    if tag <= 0xff then ClearConstructed(tag) else 256 * TagClass(tag / 256) + tag % 256
  }

  /** x at a place of some weight, over what lies below it. */
  function At(x: nat, place: nat, low: nat): nat {
    x * place + low
  }

  lemma Shift(q: nat, r: nat, place: nat, low: nat)
    ensures At(256 * q + r, place, low) == At(q, 256 * place, At(r, place, low))
  {
    assert (256 * q + r) * place == q * (256 * place) + r * place;
  }

  lemma ClearedAt(head: Byte, place: nat, low: nat)
    ensures At(ClearConstructed(head), place, low)
         == At(head, place, low) - if head / 0x20 % 2 == 1 then 0x20 * place else 0
  {
    if head / 0x20 % 2 == 1 {
      assert (head - 0x20) * place == head * place - 0x20 * place;
    }
  }

  /** The emitted _tagClass: find the leading octet and the weight of its place, then take the bit away. */
  method ClearTagClass(tag: nat) returns (r: nat)
    ensures r == TagClass(tag)
  {
    hide At;
    var place: nat := 1;
    var head := tag;
    ghost var low: nat := 0;
    assert At(tag, 1, 0) == tag && At(TagClass(tag), 1, 0) == TagClass(tag) by { UnitPlace(tag); UnitPlace(TagClass(tag)); }
    while head > 0xff
      invariant tag == At(head, place, low)
      invariant TagClass(tag) == At(TagClass(head), place, low)
      decreases head
    {
      Shift(head / 256, head % 256, place, low);
      Shift(TagClass(head / 256), head % 256, place, low);
      low := At(head % 256, place, low);
      head := head / 256;
      place := 256 * place;
    }
    ClearedAt(head, place, low);
    r := if head / 0x20 % 2 == 1 then tag - 0x20 * place else tag;
  }

  lemma UnitPlace(x: nat)
    ensures At(x, 1, 0) == x
  {
  }

  lemma TagClassGrows(a: nat, last: Byte)
    requires a > 0
    ensures TagClass(256 * a + last) == 256 * TagClass(a) + last
  {
    assert (256 * a + last) / 256 == a && (256 * a + last) % 256 == last;
  }

  lemma {:induction false} TagClassOfPacked(octets: seq<Byte>)
    requires octets != [] && (octets[0] > 0 || |octets| == 1)
    ensures TagClass(Pack(octets)) == Pack([ClearConstructed(octets[0])] + octets[1..])
    decreases |octets|
  {
    hide TagClass;
    var last := octets[|octets| - 1];
    var cleared := [ClearConstructed(octets[0])] + octets[1..];
    if |octets| == 1 {
      assert octets == [last] && cleared == [ClearConstructed(last)];
      PackOne(last);
      PackOne(ClearConstructed(last));
      SmallTagClass(last);
    } else {
      var init := octets[..|octets| - 1];
      TagClassOfPacked(init);
      PackPositive(init);
      TagClassGrows(Pack(init), last);
      assert cleared[..|cleared| - 1] == [ClearConstructed(init[0])] + init[1..];
    }
  }

  lemma SmallTagClass(octet: Byte)
    ensures TagClass(octet) == ClearConstructed(octet)
  {
  }

  /** Clearing the bit is taking the primitive identifier of the same number and class. */
  lemma TagClassForgetsConstructed(id: Identifier)
    ensures TagClass(TagOf(id)) == TagOf(id.(constructed := false))
  {
    var octets, plain := IdentifierOctets(id), IdentifierOctets(id.(constructed := false));
    LeadSays(id);
    LeadSays(id.(constructed := false));
    TagBytesAreIdentifier(id);
    if !Reserved(id) { assert octets[0] == Lead(id) > 0; }
    TagClassOfPacked(octets);
    assert [ClearConstructed(octets[0])] + octets[1..] == plain;
  }

  /** Tags agree up to the constructed bit exactly when number and class agree. */
  lemma TagClassesAgree(a: Identifier, b: Identifier)
    ensures TagClass(TagOf(a)) == TagClass(TagOf(b)) <==> a.number == b.number && a.class_ == b.class_
  {
    TagClassForgetsConstructed(a);
    TagClassForgetsConstructed(b);
    if TagClass(TagOf(a)) == TagClass(TagOf(b)) {
      TagInjective(a.(constructed := false), b.(constructed := false));
    }
  }
}
