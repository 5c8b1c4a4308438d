/** The generated encoder and decoder undo each other, exactly when, and what the decoder ignores. */
module Asn1RoundTrip {
  import opened Bits
  import opened Wrappers
  import opened Asn1Tags
  import opened Asn1Primitives
  import opened Asn1Tlv
  import opened Asn1Sequence

  // ---- Children nobody asked for ----

  /** A node that carries no member of the schema. */
  predicate Undeclared(fields: seq<Field>, node: Node) {
    forall k :: 0 <= k < |fields| ==> TagClass(node.tag) != TagClass(fields[k].Tag())
  }

  lemma {:induction false} SeekAcross(a: seq<Node>, node: Node, b: seq<Node>, tag: nat)
    requires TagClass(node.tag) != TagClass(tag)
    ensures Seek(a + b, tag).None? <==> Seek(a + [node] + b, tag).None?
    ensures Seek(a + b, tag).Some? ==>
      var i := Seek(a + b, tag).value;
      Seek(a + [node] + b, tag) == Some(if i < |a| then i else i + 1)
    decreases |a|
  {
    hide TagClass;
    if a == [] {
      assert a + b == b && (a + [node] + b)[1..] == b;
    } else {
      SeekAcross(a[1..], node, b, tag);
      assert (a + b)[1..] == a[1..] + b;
      assert (a + [node] + b)[1..] == a[1..] + [node] + b;
    }
  }

  lemma UndeclaredOfRest(fields: seq<Field>, node: Node)
    requires fields != [] && Undeclared(fields, node)
    ensures TagClass(node.tag) != TagClass(fields[0].Tag()) && Undeclared(fields[1..], node)
  {
    hide TagClass, TagOf;
  }

  /** A child with an undeclared tag changes nothing, wherever it stands. */
  lemma {:induction false} UndeclaredIgnored(fields: seq<Field>, a: seq<Node>, node: Node, b: seq<Node>)
    requires Undeclared(fields, node)
    ensures DecodedMembers(fields, a + [node] + b) == DecodedMembers(fields, a + b)
    decreases |fields|
  {
    hide Seek, TagClass, DecodedField, TagOf, Undeclared, DecodedMembers, Field.Tag;
    if fields == [] {
      NoMembers(a + [node] + b);
      NoMembers(a + b);
    } else {
      var without, with_ := a + b, a + [node] + b;
      UndeclaredOfRest(fields, node);
      DecodeStep(fields, without, Seek(without, fields[0].Tag()));
      DecodeStep(fields, with_, Seek(with_, fields[0].Tag()));
      SeekAcross(a, node, b, fields[0].Tag());
      match Seek(without, fields[0].Tag()) {
        case None => UndeclaredIgnored(fields[1..], a, node, b);
        case Some(i) =>
          if i < |a| {
            assert without[i + 1..] == a[i + 1..] + b && with_[i + 1..] == a[i + 1..] + [node] + b;
            UndeclaredIgnored(fields[1..], a[i + 1..], node, b);
          } else {
            assert without[i + 1..] == with_[i + 2..];
          }
      }
    }
  }

  lemma NoMembers(nodes: seq<Node>)
    ensures DecodedMembers([], nodes) == []
  {
  }

  /** The children that carry a member of the schema. */
  function Declared(fields: seq<Field>, nodes: seq<Node>): seq<Node> {
    if nodes == [] then []
    else (if Undeclared(fields, nodes[0]) then [] else [nodes[0]]) + Declared(fields, nodes[1..])
  }

  lemma {:induction false} OnlyDeclaredMatter(fields: seq<Field>, before: seq<Node>, nodes: seq<Node>)
    ensures DecodedMembers(fields, before + nodes) == DecodedMembers(fields, before + Declared(fields, nodes))
    decreases |nodes|
  {
    hide DecodedMembers, Undeclared;
    if nodes != [] {
      var rest, kept := nodes[1..], Declared(fields, nodes[1..]);
      assert before + nodes == before + [nodes[0]] + rest;
      if Undeclared(fields, nodes[0]) {
        UndeclaredIgnored(fields, before, nodes[0], rest);
        OnlyDeclaredMatter(fields, before, rest);
        assert [] + kept == kept;
      } else {
        OnlyDeclaredMatter(fields, before + [nodes[0]], rest);
        assert before + ([nodes[0]] + kept) == before + [nodes[0]] + kept;
      }
    }
  }

  // ---- Encodings that mean the same ----

  /** The two contents differ, at any depth, only in children with undeclared tags and in
      constructed bits. */
  predicate Alike(t: Type, a: seq<Byte>, b: seq<Byte>)
    decreases t, 0
  {
    if t.Record? then MembersAlike(t.fields, Declared(t.fields, Children(a)), Declared(t.fields, Children(b)))
    else a == b
  }

  /** Pairwise: the same tag but for the constructed bit, and values alike for the members of
      some of the fields. */
  predicate MembersAlike(some: seq<Field>, a: seq<Node>, b: seq<Node>)
    decreases some
  {
    && |a| == |b|
    && (forall i :: 0 <= i < |a| ==> TagClass(a[i].tag) == TagClass(b[i].tag))
    && forall i, k :: 0 <= i < |a| && 0 <= k < |some| && TagClass(a[i].tag) == TagClass(some[k].Tag()) ==>
         FieldAlike(some[k], a[i].value, b[i].value)
  }

  predicate FieldAlike(f: Field, a: seq<Byte>, b: seq<Byte>)
    decreases f
  {
    if f.isList then
      var x, y := Children(a), Children(b);
      |x| == |y| && forall i :: 0 <= i < |x| ==> Alike(f.type_, x[i].value, y[i].value)
    else Alike(f.type_, a, b)
  }

  lemma {:induction false} SeekAlike(a: seq<Node>, b: seq<Node>, tag: nat)
    requires |a| == |b| && forall i :: 0 <= i < |a| ==> TagClass(a[i].tag) == TagClass(b[i].tag)
    ensures Seek(a, tag) == Seek(b, tag)
    ensures Seek(a, tag).Some? ==> TagClass(a[Seek(a, tag).value].tag) == TagClass(tag)
    decreases |a|
  {
    hide TagClass;
    if a != [] { SeekAlike(a[1..], b[1..], tag); }
  }

  /** Whatever the octets, contents that are alike decode to the same value. */
  lemma {:induction false} AlikeDecodeAlike(t: Type, a: seq<Byte>, b: seq<Byte>)
    requires Alike(t, a, b)
    ensures Decoded(t, a) == Decoded(t, b)
    decreases t, 0
  {
    hide DecodedMembers, Children, Declared, MembersAlike;
    if t.Record? {
      var x, y := Children(a), Children(b);
      OnlyDeclaredMatter(t.fields, [], x);
      OnlyDeclaredMatter(t.fields, [], y);
      assert [] + x == x && [] + y == y;
      assert [] + Declared(t.fields, x) == Declared(t.fields, x) && [] + Declared(t.fields, y) == Declared(t.fields, y);
      MembersDecodeAlike(t.fields, Declared(t.fields, x), Declared(t.fields, y));
    }
  }

  lemma {:induction false} MembersDecodeAlike(some: seq<Field>, a: seq<Node>, b: seq<Node>)
    requires MembersAlike(some, a, b)
    ensures DecodedMembers(some, a) == DecodedMembers(some, b)
    decreases some
  {
    hide Seek, TagClass, DecodedField, TagOf, FieldAlike, DecodedMembers, MembersAlike, Field.Tag;
    if some == [] {
      NoMembers(a);
      NoMembers(b);
    } else {
      var found := Seek(a, some[0].Tag());
      DecodeStep(some, a, found);
      MembersAlikeFound(some, a, b);
      DecodeStep(some, b, found);
      if found.Some? { FieldDecodesAlike(some[0], a[found.value].value, b[found.value].value); }
      MembersDecodeAlike(some[1..], After(a, found), After(b, found));
    }
  }

  lemma MembersAlikeFound(some: seq<Field>, a: seq<Node>, b: seq<Node>)
    requires MembersAlike(some, a, b) && some != []
    ensures Seek(a, some[0].Tag()) == Seek(b, some[0].Tag())
    ensures var found := Seek(a, some[0].Tag());
            && MembersAlike(some[1..], After(a, found), After(b, found))
            && (found.Some? ==> FieldAlike(some[0], a[found.value].value, b[found.value].value))
  {
    hide Seek, TagClass, TagOf, FieldAlike, Field.Tag;
    SeekAlike(a, b, some[0].Tag());
    assert forall k :: 0 <= k < |some| - 1 ==> some[1..][k] == some[k + 1];
  }

  lemma {:induction false} FieldDecodesAlike(f: Field, a: seq<Byte>, b: seq<Byte>)
    requires FieldAlike(f, a, b)
    ensures DecodedField(f, a) == DecodedField(f, b)
    decreases f
  {
    hide Decoded, Alike, Children;
    if f.isList {
      ItemsDecodeAlike(f.type_, Children(a), Children(b));
    } else {
      AlikeDecodeAlike(f.type_, a, b);
    }
  }

  lemma {:induction false} ItemsDecodeAlike(t: Type, a: seq<Node>, b: seq<Node>)
    requires |a| == |b| && forall i :: 0 <= i < |a| ==> Alike(t, a[i].value, b[i].value)
    ensures DecodedItems(t, a) == DecodedItems(t, b)
    decreases t, 1, |a|
  {
    hide Decoded, Alike;
    if a != [] {
      AlikeDecodeAlike(t, a[0].value, b[0].value);
      ItemsDecodeAlike(t, a[1..], b[1..]);
    }
  }

  // ---- Round trip ----

  /** What the standards ask of a schema: no reserved tags, and members told apart by number and
      class. */
  predicate Sound(t: Type)
    decreases t
  {
    t.Record? ==>
      && Distinct(t.fields)
      && forall k :: 0 <= k < |t.fields| ==> SoundField(t.fields[k])
  }

  predicate Distinct(fields: seq<Field>) {
    forall i, j :: 0 <= i < j < |fields| ==> !fields[i].SameNumber(fields[j].Id())
  }

  predicate SoundField(f: Field)
    decreases f
  {
    && !Reserved(f.Id())
    && (f.isList ==> !Reserved(f.itemId))
    && (f.Wraps() ==> !Reserved(f.type_.defaultId))
    && Sound(f.type_)
  }

  /** No member has the number and class of an identifier. */
  predicate Clear(fields: seq<Field>, id: Identifier) {
    forall k :: 0 <= k < |fields| ==> !fields[k].SameNumber(id)
  }

  predicate AllAbsent(members: seq<Option<Value>>) {
    forall k :: 0 <= k < |members| ==> members[k].None?
  }

  // ---- Contents that reach the decoder inside wrappers it does not know of ----

  /** Contents inside elements with these tags, the first outermost. */
  function Nest(ids: seq<Identifier>, contents: seq<Byte>): seq<Byte> {
    if ids == [] then contents else Raw(TagOf(ids[0]), Nest(ids[1..], contents))
  }

  /** The wrapper an explicitly tagged class is encoded in. */
  function Wrapper(f: Field): seq<Identifier> {
    if f.Wraps() then [f.type_.defaultId] else []
  }

  predicate AllUnreserved(ids: seq<Identifier>) {
    forall id :: id in ids ==> !Reserved(id)
  }

  /** The values that survive, of contents that the decoder is handed inside some wrappers.  With
      none, text survives if its code units are below 256, and a class if its members do.  Inside
      a wrapper only true, integers that fill 64 bits and bit strings that happen to begin with
      the octets around them survive; and of a class at most the member that has the wrapper's
      number and class, because the decoder takes the wrapper for that member. */
  predicate Survives(t: Type, ids: seq<Identifier>, v: Value)
    requires Fits(t, v)
    decreases t, 0
  {
    match t
    case Integer => ids == [] || |IntOctets(v.n)| == 8
    case BitString => ids == [] || DecodedBits(Nest(ids, BitOctets(v.mask))) == v.mask
    case Boolean => ids == [] || v.b
    case Text => ids == [] && forall i :: 0 <= i < |v.units| ==> v.units[i] < 0x100
    case OctetString => ids == []
    case Record(_, fields) =>
      if ids == [] then MembersSurvive(fields, v.members) else OnlyCollidingSurvives(fields, ids, v.members)
  }

  predicate MembersSurvive(fields: seq<Field>, members: seq<Option<Value>>)
    requires MembersFit(fields, members)
    decreases fields
  {
    forall k :: 0 <= k < |fields| && members[k].Some? ==> FieldSurvives(fields[k], [], members[k].value)
  }

  /** The first member with the outermost wrapper's number and class is present and survives what
      is left of the wrappers and its own tag; every other member is absent. */
  predicate OnlyCollidingSurvives(fields: seq<Field>, ids: seq<Identifier>, members: seq<Option<Value>>)
    requires MembersFit(fields, members) && ids != []
    decreases fields
  {
    if fields == [] then true
    else if fields[0].SameNumber(ids[0]) then
      && members[0].Some?
      && FieldSurvives(fields[0], ids[1..] + [fields[0].Id()], members[0].value)
      && AllAbsent(members[1..])
    else members[0].None? && OnlyCollidingSurvives(fields[1..], ids, members[1..])
  }

  predicate FieldSurvives(f: Field, ids: seq<Identifier>, v: Value)
    requires FieldFits(f, v)
    decreases f
  {
    if !f.isList then Survives(f.type_, ids + Wrapper(f), v)
    else if ids == [] then forall k :: 0 <= k < |v.items| ==> ItemSurvives(f, v.items, [], k)
    else |v.items| == 1 && ItemSurvives(f, v.items, ids[1..] + [f.itemId], 0)
  }

  predicate ItemSurvives(f: Field, items: seq<Value>, ids: seq<Identifier>, k: nat)
    requires ItemsFit(f.type_, items) && k < |items|
    decreases f, 0
  {
    Survives(f.type_, ids + Wrapper(f), items[k])
  }

  lemma NoNest(contents: seq<Byte>)
    ensures Nest([], contents) == contents
  {
  }

  lemma {:induction false} NestWithin(ids: seq<Identifier>, id: Identifier, contents: seq<Byte>)
    ensures Nest(ids, Raw(TagOf(id), contents)) == Nest(ids + [id], contents)
  {
    hide Raw, TagOf;
    if ids == [] {
      assert (ids + [id])[1..] == [];
    } else {
      assert (ids + [id])[1..] == ids[1..] + [id];
      NestWithin(ids[1..], id, contents);
    }
  }

  /** The contents stand at the end, behind their own length. */
  lemma {:induction false} NestEnds(ids: seq<Identifier>, contents: seq<Byte>)
    requires ids != [] && AllUnreserved(ids)
    ensures var nest := Nest(ids, contents);
            && |nest| >= |contents| + 2
            && nest[|nest| - |contents|..] == contents
            && (|contents| < 0x80 ==> nest[|nest| - |contents| - 1] == |contents|)
            && nest[0] != 0
  {
    hide TagOf, Octets;
    var inner := Nest(ids[1..], contents);
    var nest := Nest(ids, contents);
    TagBytesAreIdentifier(ids[0]);
    assert ids[0] in ids;
    var lead := Octets(TagOf(ids[0]));
    assert lead != [] && lead[0] != 0 by { LeadNotZero(ids[0]); }
    assert nest == lead + LengthOctets(|inner|) + inner;
    assert nest[0] == lead[0];
    if |ids| > 1 {
      NestEnds(ids[1..], contents);
      assert nest[|nest| - |inner|..] == inner;
    } else {
      assert inner == contents by { assert ids[1..] == []; }
    }
  }

  lemma LeadNotZero(id: Identifier)
    requires !Reserved(id)
    ensures IdentifierOctets(id) != [] && IdentifierOctets(id)[0] != 0
  {
  }

  lemma NestNode(ids: seq<Identifier>, contents: seq<Byte>)
    requires ids != [] && AllUnreserved(ids) && |Nest(ids, contents)| < WORD
    ensures Children(Nest(ids, contents)) == [Node(TagOf(ids[0]), Nest(ids[1..], contents))]
    ensures |Nest(ids[1..], contents)| <= |Nest(ids, contents)|
  {
    hide Children, TagOf, Octets, LengthOctets;
    var item := Item(ids[0], Nest(ids[1..], contents));
    assert ids[0] in ids;
    WrittenOne(item);
    ChildrenWritten([item]);
    assert Nodes([item]) == [item.AsNode()];
  }

  lemma TextRoundTrip(v: Value)
    requires Fits(Text, v)
    ensures Decoded(Text, Contents(Text, v)) == v <==> Survives(Text, [], v)
  {
    var read := Decoded(Text, Contents(Text, v)).units;
    assert forall i :: 0 <= i < |v.units| ==> read[i] == v.units[i] % 256;
    if forall i :: 0 <= i < |v.units| ==> v.units[i] < 0x100 {
      assert read == v.units;
    }
  }

  /** Every item fits where the whole does. */
  lemma {:induction false} ItemsReadable(items: seq<Item>)
    requires forall i :: 0 <= i < |items| ==> !Reserved(items[i].id)
    requires |Written(items)| < WORD
    ensures forall i :: 0 <= i < |items| ==> items[i].Readable()
    decreases |items|
  {
    hide Octets, LengthOctets, TagOf;
    if items != [] {
      ItemsReadable(items[1..]);
      assert forall i :: 0 < i < |items| ==> items[i] == items[1..][i - 1];
    }
  }

  ghost predicate HasId(fields: seq<Field>, id: Identifier) {
    exists k :: 0 <= k < |fields| && fields[k].Id() == id
  }

  /** A present member's item carries the identifier of its field. */
  lemma {:induction false} ItemsOfFields(fields: seq<Field>, members: seq<Option<Value>>)
    requires MembersFit(fields, members)
    ensures forall i :: 0 <= i < |MemberItems(fields, members)| ==> HasId(fields, MemberItems(fields, members)[i].id)
    decreases fields
  {
    hide FieldFits, FieldContents;
    if fields == [] {
      assert MemberItems(fields, members) == [];
    } else {
      var rest := MemberItems(fields[1..], members[1..]);
      ItemsOfFields(fields[1..], members[1..]);
      forall id | HasId(fields[1..], id) ensures HasId(fields, id) {
        var k :| 0 <= k < |fields[1..]| && fields[1..][k].Id() == id;
        assert fields[k + 1].Id() == id;
      }
      if members[0].Some? {
        assert HasId(fields, fields[0].Id());
        var first := Item(fields[0].Id(), FieldContents(fields[0], members[0].value));
        assert MemberItems(fields, members) == [first] + rest;
      }
    }
  }

  lemma {:induction false} SeekNothing(nodes: seq<Node>, tag: nat)
    requires forall i :: 0 <= i < |nodes| ==> TagClass(nodes[i].tag) != TagClass(tag)
    ensures Seek(nodes, tag).None?
    decreases |nodes|
  {
    hide TagClass;
    if nodes != [] { SeekNothing(nodes[1..], tag); }
  }

  /** No node of the other members is mistaken for the first one. */
  lemma FirstNotAmongRest(fields: seq<Field>, members: seq<Option<Value>>)
    requires fields != [] && Distinct(fields) && MembersFit(fields[1..], members)
    ensures Seek(Nodes(MemberItems(fields[1..], members)), fields[0].Tag()).None?
  {
    hide TagClass, TagOf, FieldFits, MemberItems;
    var items := MemberItems(fields[1..], members);
    ItemsOfFields(fields[1..], members);
    forall i | 0 <= i < |items| ensures TagClass(Nodes(items)[i].tag) != TagClass(fields[0].Tag()) {
      assert HasId(fields[1..], items[i].id);
      var k :| 0 <= k < |fields[1..]| && fields[1..][k].Id() == items[i].id;
      assert fields[1..][k] == fields[k + 1];
      TagClassesAgree(items[i].id, fields[0].Id());
    }
    SeekNothing(Nodes(items), fields[0].Tag());
  }

  /** Each present member is found and decoded from its own contents, each absent one is not found. */
  lemma {:induction false} MembersFound(fields: seq<Field>, members: seq<Option<Value>>, k: nat)
    requires Distinct(fields) && MembersFit(fields, members) && k < |fields|
    ensures DecodedMembers(fields, Nodes(MemberItems(fields, members)))[k]
         == if members[k].None? then None else Some(DecodedField(fields[k], FieldContents(fields[k], members[k].value)))
    decreases fields
  {
    hide Seek, TagClass, TagOf, FieldFits, FieldContents, DecodedField;
    var nodes, rest := Nodes(MemberItems(fields, members)), Nodes(MemberItems(fields[1..], members[1..]));
    FirstNotAmongRest(fields, members[1..]);
    if members[0].Some? {
      var value := FieldContents(fields[0], members[0].value);
      assert nodes == [Node(fields[0].Tag(), value)] + rest;
      SeekFirst(nodes, fields[0].Tag());
      assert nodes[1..] == rest;
    }
    if k > 0 { MembersFound(fields[1..], members[1..], k - 1); }
  }

  lemma SeekFirst(nodes: seq<Node>, tag: nat)
    requires nodes != [] && nodes[0].tag == tag
    ensures Seek(nodes, tag) == Some(0)
  {
  }

  lemma {:induction false} MemberSize(fields: seq<Field>, members: seq<Option<Value>>, k: nat)
    requires MembersFit(fields, members) && k < |fields| && members[k].Some?
    ensures |FieldContents(fields[k], members[k].value)| <= |Written(MemberItems(fields, members))|
    decreases fields
  {
    hide FieldFits, FieldContents, TagOf, Octets, LengthOctets;
    MemberStep(fields, members);
    if k > 0 { MemberSize(fields[1..], members[1..], k - 1); }
  }

  lemma ChildrenWritten(items: seq<Item>)
    requires forall i :: 0 <= i < |items| ==> items[i].Readable()
    ensures Children(Written(items)) == Nodes(items)
  {
    ListReadBack(items, []);
    assert Written(items) + [] == Written(items);
    assert Nodes(items) + [] == Nodes(items);
  }

  /** Contents handed over inside wrappers are decoded to the value exactly when it survives them. */
  lemma {:induction false} ReadsBack(t: Type, ids: seq<Identifier>, v: Value)
    requires Sound(t) && Fits(t, v) && AllUnreserved(ids) && |Nest(ids, Contents(t, v))| < WORD
    ensures Decoded(t, Nest(ids, Contents(t, v))) == v <==> Survives(t, ids, v)
    decreases t, 1
  {
    if ids == [] {
      PlainReadsBack(t, v);
    } else if t.Record? {
      WrappedRecord(t, ids, v);
    } else {
      WrappedPrimitive(t, ids, v);
    }
  }

  lemma {:induction false} PlainReadsBack(t: Type, v: Value)
    requires Sound(t) && Fits(t, v) && |Contents(t, v)| < WORD
    ensures Decoded(t, Contents(t, v)) == v <==> Survives(t, [], v)
    decreases t, 0, 1
  {
    match t {
      case Integer => IntRoundTrip(v.n);
      case BitString => BitsRoundTrip(v.mask);
      case Boolean =>
      case Text => TextRoundTrip(v);
      case OctetString =>
      case Record(_, _) => RecordExactly(t, v);
    }
  }

  lemma WrappedPrimitive(t: Type, ids: seq<Identifier>, v: Value)
    requires !t.Record? && Fits(t, v) && ids != [] && AllUnreserved(ids)
    ensures Decoded(t, Nest(ids, Contents(t, v))) == v <==> Survives(t, ids, v)
  {
    hide Nest, DecodedInt, DecodedBits, BitOctets, IntOctets;
    NestEnds(ids, Contents(t, v));
    if t == Integer {
      IntOctetsMean(v.n);
      IntBehindItsLength(v.n, Nest(ids, Contents(t, v)));
    }
  }

  lemma {:induction false} WrappedRecord(t: Type, ids: seq<Identifier>, v: Value)
    requires t.Record? && Sound(t) && Fits(t, v) && ids != [] && AllUnreserved(ids)
    requires |Nest(ids, Contents(t, v))| < WORD
    ensures Decoded(t, Nest(ids, Contents(t, v))) == v <==> Survives(t, ids, v)
    decreases t, 0, 0
  {
    hide Nest, Children, DecodedMembers, MemberItems, OnlyCollidingSurvives, MembersFit, SoundField, Distinct, Written;
    FitsMembers(t, v);
    NestNode(ids, Contents(t, v));
    WrapperRead(t.fields, ids, v.members);
  }

  /** Handed a wrapper instead of its members, the decoder finds at most the member with the
      wrapper's number and class, in the rest of the wrapping. */
  lemma {:induction false} WrapperRead(fields: seq<Field>, ids: seq<Identifier>, members: seq<Option<Value>>)
    requires MembersFit(fields, members) && ids != [] && AllUnreserved(ids)
    requires forall k :: 0 <= k < |fields| ==> SoundField(fields[k])
    requires |Nest(ids[1..], Written(MemberItems(fields, members)))| < WORD
    ensures DecodedMembers(fields, [Node(TagOf(ids[0]), Nest(ids[1..], Written(MemberItems(fields, members))))]) == members
       <==> OnlyCollidingSurvives(fields, ids, members)
    decreases fields
  {
    hide Nest, Seek, TagClass, TagOf, DecodedMembers, DecodedField, FieldFits, FieldContents, FieldSurvives, Raw, Field.Tag,
         MemberItems;
    if fields == [] {
      NoMembers([Node(TagOf(ids[0]), Nest(ids[1..], Written(MemberItems(fields, members))))]);
    } else {
      var inner := Nest(ids[1..], Written(MemberItems(fields, members)));
      var node := Node(TagOf(ids[0]), inner);
      MemberStep(fields, members);
      TagMatches(fields[0], ids[0], node);
      DecodeStep(fields, [node], Seek([node], fields[0].Tag()));
      var rest := Written(MemberItems(fields[1..], members[1..]));
      assert [] + rest == rest;
      if fields[0].SameNumber(ids[0]) {
        CollidingRead(fields, ids, members);
      } else if members[0].None? {
        WrapperRead(fields[1..], ids, members[1..]);
        HeadsAndTails(DecodedMembers(fields, [node]), None, DecodedMembers(fields[1..], [node]), members);
      } else {
        assert DecodedMembers(fields, [node])[0].None?;
      }
    }
  }

  lemma HeadsAndTails<T>(all: seq<T>, head: T, tail: seq<T>, other: seq<T>)
    requires all == [head] + tail && |other| == |all|
    ensures all == other <==> other[0] == head && tail == other[1..]
  {
    if other[0] == head && tail == other[1..] {
      assert other == [other[0]] + other[1..];
    }
  }

  lemma TagMatches(f: Field, id: Identifier, node: Node)
    requires node.tag == TagOf(id)
    ensures Seek([node], f.Tag()) == if f.SameNumber(id) then Some(0) else None
  {
    hide TagClass, TagOf;
    TagClassesAgree(f.Id(), id);
    if !f.SameNumber(id) { SeekNothing([node], f.Tag()); }
  }

  lemma {:induction false} CollidingRead(fields: seq<Field>, ids: seq<Identifier>, members: seq<Option<Value>>)
    requires fields != [] && MembersFit(fields, members) && ids != [] && AllUnreserved(ids)
    requires SoundField(fields[0]) && fields[0].SameNumber(ids[0])
    requires |Nest(ids[1..], Written(MemberItems(fields, members)))| < WORD
    ensures DecodedMembers(fields, [Node(TagOf(ids[0]), Nest(ids[1..], Written(MemberItems(fields, members))))]) == members
       <==> OnlyCollidingSurvives(fields, ids, members)
    decreases fields, 0
  {
    hide Nest, Seek, TagClass, TagOf, DecodedMembers, DecodedField, FieldFits, FieldContents, FieldSurvives, Raw, Field.Tag,
         MemberItems;
    var f, inner := fields[0], Nest(ids[1..], Written(MemberItems(fields, members)));
    var node := Node(TagOf(ids[0]), inner);
    TagMatches(f, ids[0], node);
    DecodeStep(fields, [node], Some(0));
    NothingLeft(fields[1..]);
    assert After([node], Some(0)) == [];
    HeadsAndTails(DecodedMembers(fields, [node]), Some(DecodedField(f, inner)), DecodedMembers(fields[1..], []), members);
    assert DecodedMembers(fields[1..], []) == members[1..] <==> AllAbsent(members[1..]);
    if members[0].Some? && AllAbsent(members[1..]) {
      AloneInside(fields, ids, members);
      FieldReadsBack(f, ids[1..] + [f.Id()], members[0].value);
    }
  }

  lemma {:induction false} NothingLeft(fields: seq<Field>)
    ensures AllAbsent(DecodedMembers(fields, []))
  {
    hide DecodedField;
    if fields != [] { NothingLeft(fields[1..]); }
  }

  /** A member on its own inside wrappers. */
  lemma AloneInside(fields: seq<Field>, ids: seq<Identifier>, members: seq<Option<Value>>)
    requires fields != [] && MembersFit(fields, members) && ids != [] && members[0].Some? && AllAbsent(members[1..])
    ensures Nest(ids[1..], Written(MemberItems(fields, members)))
         == Nest(ids[1..] + [fields[0].Id()], FieldContents(fields[0], members[0].value))
  {
    hide Nest, FieldFits, FieldContents, Raw, TagOf;
    MemberStep(fields, members);
    NoItems(fields[1..], members[1..]);
    var own := Raw(fields[0].Tag(), FieldContents(fields[0], members[0].value));
    assert own + [] == own;
    NestWithin(ids[1..], fields[0].Id(), FieldContents(fields[0], members[0].value));
  }

  lemma {:induction false} NoItems(fields: seq<Field>, members: seq<Option<Value>>)
    requires MembersFit(fields, members) && AllAbsent(members)
    ensures MemberItems(fields, members) == []
  {
    hide FieldFits, FieldContents;
    if fields != [] { NoItems(fields[1..], members[1..]); }
  }

  lemma {:induction false} RecordExactly(t: Type, v: Value)
    requires t.Record? && Sound(t) && Fits(t, v) && |Contents(t, v)| < WORD
    ensures Decoded(t, Contents(t, v)) == v <==> Survives(t, [], v)
    decreases t, 0, 0
  {
    hide FieldFits, FieldContents, DecodedField, FieldSurvives, SoundField, MemberItems, DecodedMembers;
    var fields, members := t.fields, v.members;
    RecordChildren(t, v);
    var read := DecodedMembers(fields, Children(Contents(t, v)));
    forall k | 0 <= k < |fields|
      ensures read[k] == members[k] <==> members[k].Some? ==> FieldSurvives(fields[k], [], members[k].value)
    {
      MembersFound(fields, members, k);
      if members[k].Some? {
        MemberSize(fields, members, k);
        FieldReadsBack(fields[k], [], members[k].value);
      }
    }
    assert read == members <==> forall k :: 0 <= k < |fields| ==> read[k] == members[k];
  }

  lemma RecordChildren(t: Type, v: Value)
    requires t.Record? && Sound(t) && Fits(t, v) && |Contents(t, v)| < WORD
    ensures Children(Contents(t, v)) == Nodes(MemberItems(t.fields, v.members))
  {
    hide FieldFits, MemberItems;
    var items := MemberItems(t.fields, v.members);
    ItemsOfFields(t.fields, v.members);
    forall i | 0 <= i < |items| ensures !Reserved(items[i].id) {
      assert HasId(t.fields, items[i].id);
      var k :| 0 <= k < |t.fields| && t.fields[k].Id() == items[i].id;
      assert SoundField(t.fields[k]);
    }
    ItemsReadable(items);
    ChildrenWritten(items);
  }

  lemma {:induction false} FieldReadsBack(f: Field, ids: seq<Identifier>, v: Value)
    requires SoundField(f) && FieldFits(f, v) && AllUnreserved(ids) && |Nest(ids, FieldContents(f, v))| < WORD
    ensures DecodedField(f, Nest(ids, FieldContents(f, v))) == v <==> FieldSurvives(f, ids, v)
    decreases f
  {
    hide Fits, ElementContents, Decoded, Survives, Sound, Children, Nest;
    if !f.isList {
      ElementReadsBack(f, ids, v);
    } else if ids == [] {
      NoNest(FieldContents(f, v));
      ListReadsBack(f, v);
    } else {
      var contents := FieldContents(f, v);
      NestNode(ids, contents);
      var node := Node(TagOf(ids[0]), Nest(ids[1..], contents));
      DecodedItemAt(f.type_, [node], 0);
      var read := DecodedItems(f.type_, [node]);
      if |v.items| == 1 {
        OneItemInside(f, ids[1..], v.items);
        ElementReadsBack(f, ids[1..] + [f.itemId], v.items[0]);
        assert read == v.items <==> read[0] == v.items[0];
      }
    }
  }

  lemma OneItemInside(f: Field, ids: seq<Identifier>, items: seq<Value>)
    requires ItemsFit(f.type_, items) && |items| == 1
    ensures Nest(ids, Written(ElementItems(f, items))) == Nest(ids + [f.itemId], ElementContents(f, items[0]))
  {
    hide Fits, ElementContents, Nest, TagOf;
    FirstElement(f, items);
    assert items[1..] == [];
    var own := Raw(TagOf(f.itemId), ElementContents(f, items[0]));
    assert Written(ElementItems(f, items[1..])) == [] && own + [] == own;
    NestWithin(ids, f.itemId, ElementContents(f, items[0]));
  }

  lemma {:induction false} ListReadsBack(f: Field, v: Value)
    requires f.isList && SoundField(f) && FieldFits(f, v) && |FieldContents(f, v)| < WORD
    ensures DecodedField(f, FieldContents(f, v)) == v <==> FieldSurvives(f, [], v)
    decreases f, 1
  {
    hide Fits, ElementContents, Decoded, Survives, Sound, Children, Clear;
    var items, nodes := ElementItems(f, v.items), Nodes(ElementItems(f, v.items));
    ElementItemsAre(f, v.items);
    ItemsReadable(items);
    ChildrenWritten(items);
    var read := DecodedItems(f.type_, nodes);
    forall k | 0 <= k < |items| ensures read[k] == v.items[k] <==> ItemSurvives(f, v.items, [], k) {
      DecodedItemAt(f.type_, nodes, k);
      assert items[k].Readable();
      ElementReadsBack(f, [], v.items[k]);
    }
    assert read == v.items <==> forall k :: 0 <= k < |items| ==> read[k] == v.items[k];
  }

  lemma {:induction false} ElementItemsAre(f: Field, items: seq<Value>)
    requires ItemsFit(f.type_, items)
    ensures |ElementItems(f, items)| == |items|
    ensures forall k :: 0 <= k < |items| ==> ElementItems(f, items)[k] == Item(f.itemId, ElementContents(f, items[k]))
    decreases |items|
  {
    hide Fits, ElementContents;
    if items != [] { ElementItemsAre(f, items[1..]); }
  }

  lemma {:induction false} DecodedItemAt(t: Type, nodes: seq<Node>, k: nat)
    requires k < |nodes|
    ensures DecodedItems(t, nodes)[k] == Decoded(t, nodes[k].value)
    decreases |nodes|
  {
    hide Decoded;
    if k > 0 { DecodedItemAt(t, nodes[1..], k - 1); }
  }

  lemma {:induction false} ElementReadsBack(f: Field, ids: seq<Identifier>, v: Value)
    requires SoundField(f) && Fits(f.type_, v) && AllUnreserved(ids) && |Nest(ids, ElementContents(f, v))| < WORD
    ensures Decoded(f.type_, Nest(ids, ElementContents(f, v))) == v <==> Survives(f.type_, ids + Wrapper(f), v)
    decreases f, 0
  {
    hide Fits, Contents, Decoded, Survives, Sound, Nest;
    assert Nest(ids, ElementContents(f, v)) == Nest(ids + Wrapper(f), Contents(f.type_, v)) by {
      if f.Wraps() {
        NestWithin(ids, f.type_.defaultId, Contents(f.type_, v));
      } else {
        assert ids + [] == ids;
      }
    }
    ReadsBack(f.type_, ids + Wrapper(f), v);
  }

  lemma WrittenOne(item: Item)
    ensures Written([item]) == item.Bytes()
  {
    assert [item][1..] == [];
    assert item.Bytes() + [] == item.Bytes();
  }

  lemma FitsMembers(t: Type, v: Value)
    requires t.Record? && Fits(t, v)
    ensures v.Members? && MembersFit(t.fields, v.members)
  {
  }

  /** For every schema with distinct and unreserved tags, decoding the encoding of a value gives that
      value exactly when it survives. */
  lemma RoundTripExactly(t: Type, v: Value)
    requires Sound(t) && Fits(t, v) && |Contents(t, v)| < WORD
    ensures Decoded(t, Contents(t, v)) == v <==> Survives(t, [], v)
  {
    hide Fits, Contents, Decoded, Survives, Sound;
    NoNest(Contents(t, v));
    ReadsBack(t, [], v);
  }

  // ---- What survival comes to for explicitly tagged classes ----

  /** Where no member has the wrapper's number and class, nothing in an explicitly tagged class survives. */
  lemma {:induction false} ClearWrapper(fields: seq<Field>, ids: seq<Identifier>, members: seq<Option<Value>>)
    requires MembersFit(fields, members) && ids != [] && Clear(fields, ids[0])
    ensures OnlyCollidingSurvives(fields, ids, members) <==> AllAbsent(members)
    decreases |fields|
  {
    hide FieldFits, FieldSurvives;
    if fields != [] {
      assert forall k :: 0 <= k < |fields| - 1 ==> fields[1..][k] == fields[k + 1];
      ClearWrapper(fields[1..], ids, members[1..]);
      assert AllAbsent(members) <==> members[0].None? && AllAbsent(members[1..]) by {
        assert forall k :: 0 <= k < |members| - 1 ==> members[1..][k] == members[k + 1];
        assert forall k :: 0 < k < |members| ==> members[k] == members[1..][k - 1];
      }
    }
  }

  /** Where a member has them, the class survives only if that member is present and alone: in
      particular a class without members is lost. */
  lemma {:induction false} CollidingWrapper(fields: seq<Field>, ids: seq<Identifier>, members: seq<Option<Value>>)
    requires MembersFit(fields, members) && ids != [] && !Clear(fields, ids[0])
    requires OnlyCollidingSurvives(fields, ids, members)
    ensures !AllAbsent(members)
    ensures exists k: nat :: Alone(members, k) && k < |fields| && fields[k].SameNumber(ids[0])
    decreases |fields|
  {
    hide FieldFits, FieldSurvives;
    assert forall k :: 0 < k < |members| ==> members[k] == members[1..][k - 1];
    if fields[0].SameNumber(ids[0]) {
      assert Alone(members, 0);
    } else {
      var hit :| 0 <= hit < |fields| && fields[hit].SameNumber(ids[0]);
      assert fields[1..][hit - 1].SameNumber(ids[0]);
      CollidingWrapper(fields[1..], ids, members[1..]);
      var k: nat :| Alone(members[1..], k) && k < |fields[1..]| && fields[1..][k].SameNumber(ids[0]);
      assert Alone(members, k + 1) && fields[k + 1] == fields[1..][k];
    }
  }

  /** Member k is present and no other is. */
  predicate Alone(members: seq<Option<Value>>, k: nat) {
    k < |members| && members[k].Some? && forall j :: 0 <= j < |members| && j != k ==> members[j].None?
  }

  /** A whole message: what a generated class writes, with whatever follows it, is read as one node
      and decoded to the same value, exactly for the values kept; and so is anything alike. */
  lemma MessageRoundTrip(t: Type, v: Value, rest: seq<Byte>, other: seq<Byte>)
    requires t.Record? && Sound(t) && !Reserved(t.defaultId) && Fits(t, v) && |Contents(t, v)| < WORD
    requires Alike(t, other, Contents(t, v))
    ensures Raw(TagOf(t.defaultId), Contents(t, v)) != []
    ensures Next(Raw(TagOf(t.defaultId), Contents(t, v)) + rest) == Read(Node(TagOf(t.defaultId), Contents(t, v)), rest)
    ensures Decoded(t, Contents(t, v)) == v <==> Survives(t, [], v)
    ensures Decoded(t, other) == v <==> Survives(t, [], v)
  {
    hide Raw, Contents, Decoded, Survives, Sound, Fits, Alike;
    NodeReadBack(Item(t.defaultId, Contents(t, v)), rest);
    RoundTripExactly(t, v);
    AlikeDecodeAlike(t, other, Contents(t, v));
  }

  /** Any number of extra children among the encoded members, at any places, change nothing. */
  lemma ExtraChildrenIgnored(t: Type, v: Value, items: seq<Item>)
    requires t.Record? && Sound(t) && Fits(t, v) && |Contents(t, v)| < WORD
    requires forall i :: 0 <= i < |items| ==> items[i].Readable()
    requires Declared(t.fields, Nodes(items)) == Nodes(MemberItems(t.fields, v.members))
    ensures Decoded(t, Written(items)) == Decoded(t, Contents(t, v))
  {
    hide Contents, DecodedMembers, Children, Sound, Fits, MemberItems, Declared, Written, Item.Readable;
    FitsMembers(t, v);
    RecordChildren(t, v);
    ChildrenWritten(items);
    OnlyDeclaredMatter(t.fields, [], Nodes(items));
    var nodes, kept := Nodes(items), Declared(t.fields, Nodes(items));
    assert [] + nodes == nodes && [] + kept == kept;
  }

  // ---- A message that is lost ----

  const SEQUENCE_ID := Identifier(16, Universal, true)

  /** The members of a certificate extension that have a tag of their own. */
  const EXTENSION := Record(SEQUENCE_ID, [Field(1, Universal, false, false, SEQUENCE_ID, Boolean),
                                          Field(4, Universal, false, false, SEQUENCE_ID, OctetString)])

  /** A certificate's explicitly tagged list of extensions. */
  const CERTIFICATE := Record(SEQUENCE_ID, [Field(3, ContextSpecific, true, true, SEQUENCE_ID, EXTENSION)])

  function Extension(critical: bool, octets: seq<Byte>): Value {
    Members([Some(Flag(critical)), Some(Bytes(octets))])
  }

  /** Every certificate extension is decoded without its contents. */
  lemma ExtensionsAreLost(critical: bool, octets: seq<Byte>)
    requires |octets| < 0x60
    ensures var v := Members([Some(Items([Extension(critical, octets)]))]);
            Sound(CERTIFICATE) && Fits(CERTIFICATE, v) && Decoded(CERTIFICATE, Contents(CERTIFICATE, v)) != v
  {
    hide Decoded, Raw, TagOf;
    var extension := Extension(critical, octets);
    var f := CERTIFICATE.fields[0];
    var list := Items([extension]);
    var v := Members([Some(list)]);
    ExtensionFits(critical, octets);
    assert FieldFits(f, list);
    assert Fits(CERTIFICATE, v);
    CertificateSound();
    ClearWrapper(EXTENSION.fields, [SEQUENCE_ID], extension.members);
    assert [] + Wrapper(f) == [SEQUENCE_ID];
    assert !OnlyCollidingSurvives(EXTENSION.fields, [SEQUENCE_ID], extension.members);
    assert !ItemSurvives(f, list.items, [], 0);
    assert !FieldSurvives(f, [], list);
    assert !Survives(CERTIFICATE, [], v);
    OneMember(CERTIFICATE.fields, list);
    FirstElement(f, list.items);
    assert list.items[1..] == [] && Written(ElementItems(f, [])) == [];
    ExtensionSize(critical, octets);
    RawSize(SEQUENCE_ID, Contents(EXTENSION, extension));
    RawSize(f.itemId, ElementContents(f, extension));
    RawSize(f.Id(), FieldContents(f, list));
    RoundTripExactly(CERTIFICATE, v);
  }

  lemma ExtensionFits(critical: bool, octets: seq<Byte>)
    ensures Fits(EXTENSION, Extension(critical, octets))
  {
    assert FieldFits(EXTENSION.fields[0], Flag(critical));
    assert FieldFits(EXTENSION.fields[1], Bytes(octets));
  }

  lemma CertificateSound()
    ensures Sound(CERTIFICATE)
  {
    assert SoundField(EXTENSION.fields[0]) && SoundField(EXTENSION.fields[1]);
    assert Sound(EXTENSION);
    assert SoundField(CERTIFICATE.fields[0]);
  }

  lemma ExtensionSize(critical: bool, octets: seq<Byte>)
    requires |octets| < 0x60 && Fits(EXTENSION, Extension(critical, octets))
    ensures |Contents(EXTENSION, Extension(critical, octets))| <= |octets| + 5
  {
    hide Raw, TagOf;
    var fields, members := EXTENSION.fields, Extension(critical, octets).members;
    MemberStep(fields, members);
    assert fields[1..] == [fields[1]] && members[1..] == [Some(Bytes(octets))];
    OneMember(fields[1..], Bytes(octets));
    assert FieldContents(fields[0], Flag(critical)) == [if critical then 0xff else 0x00];
    assert FieldContents(fields[1], Bytes(octets)) == octets;
    RawSize(fields[0].Id(), [if critical then 0xff else 0x00]);
    RawSize(fields[1].Id(), octets);
  }

  lemma OneMember(fields: seq<Field>, v: Value)
    requires |fields| == 1 && FieldFits(fields[0], v)
    ensures MembersFit(fields, [Some(v)])
    ensures Written(MemberItems(fields, [Some(v)])) == Raw(fields[0].Tag(), FieldContents(fields[0], v))
  {
    hide FieldFits, FieldContents, Raw, TagOf;
    MemberStep(fields, [Some(v)]);
    assert fields[1..] == [];
    assert MemberItems(fields[1..], [Some(v)][1..]) == [];
  }

  lemma RawSize(id: Identifier, value: seq<Byte>)
    requires id.number < 31 && |value| < 0x80
    ensures |Raw(TagOf(id), value)| <= |value| + 2
  {
    hide TagOf, Octets;
    TagBytesAreIdentifier(id);
  }
}
