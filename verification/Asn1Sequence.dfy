/** The SEQUENCE scheme of the generated code: a schema of members, how a value is encoded
    under it, and how the members are found again by tag. */
module Asn1Sequence {
  import opened Bits
  import opened Wrappers
  import opened Asn1Tags
  import opened Asn1Primitives
  import opened Asn1Tlv
  import Segmentation

  // ---- Schemas and values ----

  /** What a member holds.  defaultId is the tag a generated class encodes itself with when
      nothing else is asked for. */
  datatype Type = Integer | BitString | Boolean | Text | OctetString | Record(defaultId: Identifier, fields: seq<Field>)

  /** A member with a determinate tag.  itemId is the tag of a list's elements. */
  datatype Field = Field(number: nat, class_: Class, isExplicit: bool, isList: bool, itemId: Identifier, type_: Type) {
    function Id(): Identifier { Identifier(number, class_, isList || type_.Record? || isExplicit) }
    function Tag(): nat { TagOf(Id()) }

    /** An explicitly tagged class is encoded inside a wrapper of its own. */
    predicate Wraps() { isExplicit && type_.Record? }

    predicate SameNumber(id: Identifier) { number == id.number && class_ == id.class_ }
  }

  /** Chars holds UTF-16 code units. */
  datatype Value = Number(n: int) | Mask(mask: nat) | Flag(b: bool) | Chars(units: seq<nat>) | Bytes(octets: seq<Byte>)
                 | Members(members: seq<Option<Value>>) | Items(items: seq<Value>)

  predicate Fits(t: Type, v: Value)
    decreases t, 0
  {
    match t
    case Integer => v.Number? && IsInt64(v.n)
    case BitString => v.Mask? && v.mask < WORD
    case Boolean => v.Flag?
    case Text => v.Chars? && forall i :: 0 <= i < |v.units| ==> v.units[i] < 0x1_0000
    case OctetString => v.Bytes?
    case Record(_, fields) => v.Members? && MembersFit(fields, v.members)
  }

  predicate MembersFit(fields: seq<Field>, members: seq<Option<Value>>)
    decreases fields
  {
    && |members| == |fields|
    && forall k :: 0 <= k < |fields| && members[k].Some? ==> FieldFits(fields[k], members[k].value)
  }

  predicate FieldFits(f: Field, v: Value)
    decreases f
  {
    if f.isList then v.Items? && ItemsFit(f.type_, v.items) else Fits(f.type_, v)
  }

  predicate ItemsFit(t: Type, items: seq<Value>)
    decreases t, 1
  {
    forall k :: 0 <= k < |items| ==> Fits(t, items[k])
  }

  // ---- Encoding ----

  /** The contents octets of a value on its own. */
  function Contents(t: Type, v: Value): seq<Byte>
    requires Fits(t, v)
    decreases t
  {
    match t
    case Integer => IntOctets(v.n)
    case BitString => BitOctets(v.mask)
    case Boolean => [if v.b then 0xff else 0x00]
    case Text => seq(|v.units|, i requires 0 <= i < |v.units| => v.units[i] % 256)
    case OctetString => v.octets
    case Record(_, fields) => Written(MemberItems(fields, v.members))
  }

  /** The members that are present, in schema order. */
  function MemberItems(fields: seq<Field>, members: seq<Option<Value>>): seq<Item>
    requires MembersFit(fields, members)
    decreases fields
  {
    if fields == [] then []
    else
      var rest := MemberItems(fields[1..], members[1..]);
      if members[0].None? then rest
      else [Item(fields[0].Id(), FieldContents(fields[0], members[0].value))] + rest
  }

  function FieldContents(f: Field, v: Value): seq<Byte>
    requires FieldFits(f, v)
    decreases f, 2
  {
    if f.isList then Written(ElementItems(f, v.items)) else ElementContents(f, v)
  }

  function ElementItems(f: Field, items: seq<Value>): seq<Item>
    requires ItemsFit(f.type_, items)
    decreases f, 1, |items|
  {
    if items == [] then []
    else [Item(f.itemId, ElementContents(f, items[0]))] + ElementItems(f, items[1..])
  }

  function ElementContents(f: Field, v: Value): seq<Byte>
    requires Fits(f.type_, v)
    decreases f, 0
  {
    if f.Wraps() then Raw(TagOf(f.type_.defaultId), Contents(f.type_, v)) else Contents(f.type_, v)
  }

  // ---- Decoding ----

  /** The first node carrying a tag, the constructed bit aside. */
  function Seek(nodes: seq<Node>, tag: nat): (r: Option<nat>)
    ensures r.Some? ==> r.value < |nodes|
  {
    if nodes == [] then None
    else if TagClass(nodes[0].tag) == TagClass(tag) then Some(0)
    else match Seek(nodes[1..], tag)
      case None => None
      case Some(i) => Some(i + 1)
  }

  function Decoded(t: Type, value: seq<Byte>): Value
    decreases t, 0
  {
    match t
    case Integer => Number(DecodedInt(value))
    case BitString => Mask(DecodedBits(value))
    case Boolean => Flag(value != [] && value[0] != 0)
    case Text => Chars(seq(|value|, i requires 0 <= i < |value| => value[i]))
    case OctetString => Bytes(value)
    case Record(_, fields) => Members(DecodedMembers(fields, Children(value)))
  }

  /** Each member is sought from the node after the last one found. */
  function DecodedMembers(fields: seq<Field>, nodes: seq<Node>): (r: seq<Option<Value>>)
    ensures |r| == |fields|
    decreases fields
  {
    if fields == [] then []
    else
      var found := Seek(nodes, fields[0].Tag());
      [DecodedMember(fields[0], nodes, found)] + DecodedMembers(fields[1..], After(nodes, found))
  }

  function DecodedMember(f: Field, nodes: seq<Node>, found: Option<nat>): Option<Value>
    requires found.Some? ==> found.value < |nodes|
    decreases f, 1
  {
    if found.None? then None else Some(DecodedField(f, nodes[found.value].value))
  }

  function After(nodes: seq<Node>, found: Option<nat>): seq<Node>
    requires found.Some? ==> found.value < |nodes|
  {
    if found.None? then nodes else nodes[found.value + 1..]
  }

  function DecodedField(f: Field, value: seq<Byte>): Value
    decreases f, 0
  {
    if f.isList then Items(DecodedItems(f.type_, Children(value))) else Decoded(f.type_, value)
  }

  function DecodedItems(t: Type, nodes: seq<Node>): (r: seq<Value>)
    ensures |r| == |nodes|
    decreases t, 1, |nodes|
  {
    if nodes == [] then [] else [Decoded(t, nodes[0].value)] + DecodedItems(t, nodes[1..])
  }

  // ---- The emitted encoder and decoder ----

  method EncodeRecord(tag: nat, fields: seq<Field>, members: seq<Option<Value>>) returns (out: seq<Byte>)
    requires MembersFit(fields, members)
    ensures out == Raw(tag, Written(MemberItems(fields, members)))
    decreases fields
  {
    hide Raw, FieldFits, FieldContents;
    var children := [];
    for k := 0 to |fields|
      invariant Segmentation.Flatten(children) + Written(MemberItems(fields[k..], members[k..]))
             == Written(MemberItems(fields, members))
    {
      ghost var before := Segmentation.Flatten(children);
      MemberStep(fields[k..], members[k..]);
      if members[k].Some? {
        var child := EncodeField(fields[k], members[k].value);
        FlattenLast(children, child);
        children := children + [child];
        Segmentation.Associate(before, child, Written(MemberItems(fields[k + 1..], members[k + 1..])));
      }
    }
    assert Segmentation.Flatten(children) + [] == Segmentation.Flatten(children);
    out := EncodeConstructed(tag, children);
  }

  lemma MemberStep(fields: seq<Field>, members: seq<Option<Value>>)
    requires MembersFit(fields, members) && fields != []
    ensures MembersFit(fields[1..], members[1..])
    ensures Written(MemberItems(fields, members))
         == (if members[0].None? then [] else Raw(fields[0].Tag(), FieldContents(fields[0], members[0].value)))
            + Written(MemberItems(fields[1..], members[1..]))
  {
    hide Raw, FieldFits, FieldContents, TagOf;
    var rest := MemberItems(fields[1..], members[1..]);
    if members[0].Some? {
      var first := Item(fields[0].Id(), FieldContents(fields[0], members[0].value));
      assert MemberItems(fields, members) == [first] + rest;
      assert ([first] + rest)[1..] == rest;
    } else {
      assert [] + Written(rest) == Written(rest);
    }
  }

  lemma {:induction false} FlattenLast(parts: seq<seq<Byte>>, last: seq<Byte>)
    ensures Segmentation.Flatten(parts + [last]) == Segmentation.Flatten(parts) + last
  {
    if parts == [] {
      assert [last][1..] == [] && parts + [last] == [last];
    } else {
      assert (parts + [last])[1..] == parts[1..] + [last];
      FlattenLast(parts[1..], last);
    }
  }

  method EncodeField(f: Field, v: Value) returns (out: seq<Byte>)
    requires FieldFits(f, v)
    ensures out == Raw(f.Tag(), FieldContents(f, v))
    decreases f, 1
  {
    if !f.isList {
      out := EncodeElement(f, f.Tag(), v);
      return;
    }
    hide Raw, ElementContents, TagOf;
    var items := [];
    for k := 0 to |v.items|
      invariant Segmentation.Flatten(items) + Written(ElementItems(f, v.items[k..])) == Written(ElementItems(f, v.items))
    {
      ghost var before, left := Segmentation.Flatten(items), v.items[k..];
      var item := EncodeElement(f, TagOf(f.itemId), v.items[k]);
      assert left[0] == v.items[k] && left[1..] == v.items[k + 1..];
      FirstElement(f, left);
      FlattenLast(items, item);
      items := items + [item];
      Segmentation.Associate(before, item, Written(ElementItems(f, left[1..])));
    }
    assert Segmentation.Flatten(items) + [] == Segmentation.Flatten(items);
    out := EncodeConstructed(f.Tag(), items);
  }

  lemma FirstElement(f: Field, items: seq<Value>)
    requires ItemsFit(f.type_, items) && items != []
    ensures Written(ElementItems(f, items))
         == Raw(TagOf(f.itemId), ElementContents(f, items[0])) + Written(ElementItems(f, items[1..]))
  {
    hide Raw, ElementContents, TagOf;
    var first, rest := Item(f.itemId, ElementContents(f, items[0])), ElementItems(f, items[1..]);
    assert ([first] + rest)[1..] == rest;
  }

  method EncodeElement(f: Field, tag: nat, v: Value) returns (out: seq<Byte>)
    requires Fits(f.type_, v)
    ensures out == Raw(tag, ElementContents(f, v))
    decreases f, 0
  {
    hide Raw, TagOf, IntOctets, BitOctets;
    match f.type_ {
      case Integer =>
        var octets := EncodeInt(v.n);
        out := EncodeRaw(tag, octets);
      case BitString =>
        var octets := EncodeBits(v.mask);
        out := EncodeRaw(tag, octets);
      case Boolean =>
        out := EncodeRaw(tag, [if v.b then 0xff else 0x00]);
      case Text =>
        out := EncodeRaw(tag, seq(|v.units|, i requires 0 <= i < |v.units| => v.units[i] % 256));
      case OctetString =>
        out := EncodeRaw(tag, v.octets);
      case Record(defaultId, fields) =>
        if f.isExplicit {
          var inner := EncodeRecord(TagOf(defaultId), fields, v.members);
          out := EncodeConstructed(tag, [inner]);
          assert Segmentation.Flatten([inner]) == inner + [] == inner;
        } else {
          out := EncodeRecord(tag, fields, v.members);
        }
    }
  }

  /** The index of the first child at or after one that carries a tag, or -1. */
  method SeekTag(children: seq<Node>, from: nat, tag: nat) returns (found: int)
    requires from <= |children|
    ensures found == match Seek(children[from..], tag) case None => -1 case Some(i) => from + i
  {
    var want := ClearTagClass(tag);
    for i := from to |children|
      invariant Seek(children[from..], tag) == match Seek(children[i..], tag) case None => None case Some(k) => Some(i - from + k)
    {
      var carried := ClearTagClass(children[i].tag);
      assert children[i..][1..] == children[i + 1..];
      if carried == want {
        return i;
      }
    }
    return -1;
  }

  lemma DecodeStep(fields: seq<Field>, nodes: seq<Node>, found: Option<nat>)
    requires fields != [] && found == Seek(nodes, fields[0].Tag())
    ensures DecodedMembers(fields, nodes)
         == [DecodedMember(fields[0], nodes, found)] + DecodedMembers(fields[1..], After(nodes, found))
  {
    hide Seek, TagOf, DecodedMember, After, Field.Tag;
  }

  method DecodeRecord(fields: seq<Field>, children: seq<Node>) returns (members: seq<Option<Value>>)
    ensures members == DecodedMembers(fields, children)
    decreases fields
  {
    hide DecodedField, TagOf, Field.Tag, Seek, DecodedMembers;
    members := [];
    var childIdx := 0;
    assert children[0..] == children && fields[0..] == fields && members + DecodedMembers(fields, children) == DecodedMembers(fields, children);
    for k := 0 to |fields|
      invariant childIdx <= |children|
      invariant members + DecodedMembers(fields[k..], children[childIdx..]) == DecodedMembers(fields, children)
    {
      ghost var before, left, nodes := members, fields[k..], children[childIdx..];
      assert left[0] == fields[k] && left[1..] == fields[k + 1..];
      DecodeStep(left, nodes, Seek(nodes, fields[k].Tag()));
      var found := SeekTag(children, childIdx, fields[k].Tag());
      if found >= 0 {
        var value := DecodeField(fields[k], children[found]);
        assert nodes[found - childIdx] == children[found] && nodes[found - childIdx + 1..] == children[found + 1..];
        members := members + [Some(value)];
        childIdx := found + 1;
        Segmentation.Associate(before, [Some(value)], DecodedMembers(left[1..], children[childIdx..]));
      } else {
        members := members + [None];
        Segmentation.Associate(before, [None], DecodedMembers(left[1..], nodes));
      }
    }
    assert |DecodedMembers(fields[|fields|..], children[childIdx..])| == 0;
  }

  method DecodeField(f: Field, child: Node) returns (v: Value)
    ensures v == DecodedField(f, child.value)
    decreases f
  {
    if !f.isList {
      v := DecodeElement(f.type_, child);
      return;
    }
    var children := ReadChildren(child.value);
    var items := [];
    assert children[0..] == children;
    for k := 0 to |children|
      invariant items + DecodedItems(f.type_, children[k..]) == DecodedItems(f.type_, children)
    {
      ghost var before, left := items, children[k..];
      var item := DecodeElement(f.type_, children[k]);
      assert left[0] == children[k] && left[1..] == children[k + 1..];
      items := items + [item];
      Segmentation.Associate(before, [item], DecodedItems(f.type_, left[1..]));
    }
    v := Items(items);
  }

  method DecodeElement(t: Type, child: Node) returns (v: Value)
    ensures v == Decoded(t, child.value)
    decreases t
  {
    match t {
      case Integer =>
        var n := DecodeInt(child.value);
        v := Number(n);
      case BitString =>
        var mask := DecodeBits(child.value);
        v := Mask(mask);
      case Boolean => v := Flag(child.value != [] && child.value[0] != 0);
      case Text => v := Chars(seq(|child.value|, i requires 0 <= i < |child.value| => child.value[i]));
      case OctetString => v := Bytes(child.value);
      case Record(_, fields) =>
        var children := ReadChildren(child.value);
        var members := DecodeRecord(fields, children);
        v := Members(members);
    }
  }
}
