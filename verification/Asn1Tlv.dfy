/** Tag-length-value encodings: what the generated code writes, and the parser that reads them. */
module Asn1Tlv {
  import opened Bits
  import opened Wrappers
  import opened Asn1Tags
  import opened Asn1Primitives
  import Segmentation

  // ---- Writing ----

  function Raw(tag: nat, value: seq<Byte>): seq<Byte> {
    Octets(tag) + LengthOctets(|value|) + value
  }

  method EncodeRaw(tag: nat, value: seq<Byte>) returns (out: seq<Byte>)
    ensures out == Raw(tag, value)
  {
    hide Octets, LengthOctets;
    var tb := TagBytes(tag);
    var lb := EncodeLength(|value|);
    var buffer := new Byte[|tb| + |lb| + |value|](_ => 0);
    SetRange(buffer, 0, tb);
    SetRange(buffer, |tb|, lb);
    SetRange(buffer, |tb| + |lb|, value);
    assert buffer[..] == buffer[..|tb| + |lb|] + value;
    return buffer[..];
  }

  /** Dart's buffer.setRange(start, start + source.length, source). */
  method SetRange(buffer: array<Byte>, start: nat, source: seq<Byte>)
    requires start + |source| <= buffer.Length
    modifies buffer
    ensures buffer[..start] == old(buffer[..start])
    ensures buffer[..start + |source|] == old(buffer[..start]) + source
    ensures buffer[start + |source|..] == old(buffer[start + |source|..])
  {
    for i := 0 to |source|
      invariant buffer[..start] == old(buffer[..start])
      invariant buffer[start..start + i] == source[..i]
      invariant buffer[start + i..] == old(buffer[start + i..])
    {
      buffer[start + i] := source[i];
    }
    assert buffer[..start + |source|] == buffer[..start] + buffer[start..start + |source|];
  }

  /** Children are sized once and copied into place; the result is their plain concatenation. */
  method EncodeConstructed(tag: nat, children: seq<seq<Byte>>) returns (out: seq<Byte>)
    ensures out == Raw(tag, Segmentation.Flatten(children))
  {
    var total := 0;
    for i := 0 to |children|
      invariant total + |Segmentation.Flatten(children[i..])| == |Segmentation.Flatten(children)|
    {
      total := total + |children[i]|;
    }
    var body := new Byte[total](_ => 0);
    var offset := 0;
    for i := 0 to |children|
      invariant 0 <= offset <= total
      invariant offset + |Segmentation.Flatten(children[i..])| == total == |Segmentation.Flatten(children)|
      invariant body[..offset] + Segmentation.Flatten(children[i..]) == Segmentation.Flatten(children)
    {
      ghost var before, rest := body[..offset], Segmentation.Flatten(children[i + 1..]);
      assert Segmentation.Flatten(children[i..]) == children[i] + rest;
      SetRange(body, offset, children[i]);
      Segmentation.Associate(before, children[i], rest);
      offset := offset + |children[i]|;
    }
    assert body[..] == body[..offset];
    out := EncodeRaw(tag, body[..]);
  }

  // ---- Reading ----

  datatype Node = Node(tag: nat, value: seq<Byte>)

  datatype TagRead = TagRead(tag: nat, rest: seq<Byte>)

  /** The octets after a leading octet with number 31, up to one without the continuation bit. */
  function ReadTagTail(data: seq<Byte>, tag: nat): (r: TagRead)
    ensures |r.rest| <= |data|
    decreases |data|
  {
    if data == [] then TagRead(tag, [])
    else if data[0] < 0x80 then TagRead(256 * tag + data[0], data[1..])
    else ReadTagTail(data[1..], 256 * tag + data[0])
  }

  function ReadTag(data: seq<Byte>): (r: TagRead)
    requires data != []
    ensures |r.rest| < |data|
  {
    if data[0] % 32 == 31 then ReadTagTail(data[1..], data[0]) else TagRead(data[0], data[1..])
  }

  datatype LengthRead = CutShort | Indefinite(rest: seq<Byte>) | Definite(length: nat, rest: seq<Byte>)

  function ReadLength(data: seq<Byte>): LengthRead {
    if data == [] then CutShort
    else if data[0] < 0x80 then Definite(data[0], data[1..])
    else if data[0] == 0x80 then Indefinite(data[1..])
    else
      var count := data[0] - 0x80;
      if |data| < 1 + count then CutShort else Definite(Pack(data[1..1 + count]), data[1 + count..])
  }

  /** What one call of the parser reads: nothing more, or a node and the data after it. */
  datatype Step = Missing | Read(node: Node, rest: seq<Byte>)

  /** A value of indefinite length is taken as empty; one that runs past the end is cut there. */
  function Next(data: seq<Byte>): (step: Step)
    requires data != []
    ensures step.Read? ==> |step.rest| < |data|
  {
    var tag := ReadTag(data);
    Delimited(tag.tag, ReadLength(tag.rest))
  }

  function Delimited(tag: nat, read: LengthRead): Step {
    match read
    case CutShort => Missing
    case Indefinite(rest) => Read(Node(tag, []), rest)
    case Definite(length, rest) =>
      var n := if length > |rest| then |rest| else length;
      Read(Node(tag, rest[..n]), rest[n..])
  }

  function Children(data: seq<Byte>): seq<Node>
    decreases |data|
  {
    if data == [] then []
    else match Next(data)
      case Missing => []
      case Read(node, rest) => [node] + Children(rest)
  }

  lemma NextSplits(data: seq<Byte>)
    requires data != []
    ensures Next(data) == Delimited(ReadTag(data).tag, ReadLength(ReadTag(data).rest))
  {
    hide ReadTag, ReadLength, Delimited;
  }

  lemma NothingDelimited(tag: nat)
    ensures Delimited(tag, ReadLength([])) == Missing
  {
  }

  class Reader {
    const data: seq<Byte>
    var offset: nat

    constructor (data: seq<Byte>)
      ensures this.data == data && offset == 0
    {
      this.data := data;
      offset := 0;
    }

    ghost predicate Valid()
      reads this
    {
      offset <= |data|
    }

    ghost function Remaining(): seq<Byte>
      requires Valid()
      reads this
    {
      data[offset..]
    }

    method ReadNext() returns (node: Option<Node>)
      requires Valid()
      modifies `offset
      ensures Valid()
      ensures old(Remaining()) == [] ==> node == None && Remaining() == []
      ensures old(Remaining()) != [] ==>
        match Next(old(Remaining()))
        case Missing => node == None && Remaining() == []
        case Read(n, rest) => node == Some(n) && Remaining() == rest
    {
      if offset >= |data| {
        return None;
      }
      hide ReadTag, ReadLength, Next, Delimited;
      NextSplits(Remaining());
      var tagValue := ReadTagOctets();
      if offset >= |data| {
        NothingDelimited(tagValue);
        return None;
      }
      var read := ReadLengthOctets();
      node := TakeValue(tagValue, read);
    }

    /** The value octets a length announces, as many of them as there are. */
    method TakeValue(tagValue: nat, read: LengthRead) returns (node: Option<Node>)
      requires Valid() && Remaining() == if read.CutShort? then [] else read.rest
      modifies `offset
      ensures Valid()
      ensures match Delimited(tagValue, read)
              case Missing => node == None && Remaining() == []
              case Read(n, rest) => node == Some(n) && Remaining() == rest
    {
      match read {
        case CutShort => node := None;
        case Indefinite(_) => node := Some(Node(tagValue, []));
        case Definite(stated, rest) =>
          var length := stated;
          if offset + length > |data| {
            length := |data| - offset;
          }
          assert data[offset..offset + length] == rest[..length] && data[offset + length..] == rest[length..];
          node := Some(Node(tagValue, data[offset..offset + length]));
          offset := offset + length;
      }
    }

    method ReadTagOctets() returns (tagValue: nat)
      requires Valid() && offset < |data|
      modifies `offset
      ensures Valid() && TagRead(tagValue, Remaining()) == ReadTag(old(Remaining()))
    {
      ghost var before := Remaining();
      var firstByte := data[offset];
      offset := offset + 1;
      tagValue := firstByte;
      assert before[1..] == data[offset..];
      if firstByte % 32 == 31 {
        while offset < |data|
          invariant offset <= |data|
          invariant ReadTagTail(data[offset..], tagValue) == ReadTag(before)
          decreases |data| - offset
        {
          var b := data[offset];
          assert data[offset..][0] == b && data[offset..][1..] == data[offset + 1..];
          offset := offset + 1;
          tagValue := 256 * tagValue + b;
          if b < 0x80 {
            break;
          }
        }
      }
    }

    method ReadLengthOctets() returns (read: LengthRead)
      requires Valid() && offset < |data|
      modifies `offset
      ensures Valid() && read == ReadLength(old(Remaining()))
      ensures Remaining() == if read.CutShort? then [] else read.rest
    {
      ghost var before := Remaining();
      var lengthByte := data[offset];
      offset := offset + 1;
      assert before[0] == lengthByte && before[1..] == Remaining();
      if lengthByte < 0x80 {
        return Definite(lengthByte, data[offset..]);
      }
      var count := lengthByte - 0x80;
      if count == 0 {
        return Indefinite(data[offset..]);
      }
      var length := ReadNumber(count);
      if length.None? {
        return CutShort;
      }
      assert before[1..1 + count] == before[1..][..count] && before[1 + count..] == before[1..][count..];
      return Definite(length.value, data[offset..]);
    }

    /** A number of so many octets, or None and nothing left if there are too few. */
    method ReadNumber(count: nat) returns (length: Option<nat>)
      requires Valid()
      modifies `offset
      ensures Valid()
      ensures if |old(Remaining())| < count then length == None && Remaining() == []
              else length == Some(Pack(old(Remaining())[..count])) && Remaining() == old(Remaining())[count..]
    {
      ghost var before, start := Remaining(), offset;
      var number: nat := 0;
      for i := 0 to count
        invariant offset == start + i <= |data|
        invariant number == Pack(before[..i])
      {
        if offset >= |data| {
          return None;
        }
        assert before[..i + 1][..i] == before[..i] && before[i] == data[offset];
        number := 256 * number + data[offset];
        offset := offset + 1;
      }
      return Some(number);
    }
  }

  /** The child list a node parses its value into. */
  method ReadChildren(value: seq<Byte>) returns (list: seq<Node>)
    ensures list == Children(value)
  {
    var reader := new Reader(value);
    list := [];
    assert value[0..] == value;
    while reader.offset < |value|
      invariant reader.Valid() && reader.data == value && fresh(reader)
      invariant list + Children(reader.Remaining()) == Children(value)
      decreases |reader.Remaining()|
    {
      ghost var before, listed := reader.Remaining(), list;
      var n := reader.ReadNext();
      if n.Some? {
        list := list + [n.value];
        Segmentation.Associate(listed, [n.value], Children(reader.Remaining()));
      }
    }
  }

  // ---- Unique decodability ----

  datatype Item = Item(id: Identifier, value: seq<Byte>) {
    function Bytes(): seq<Byte> { Raw(TagOf(id), value) }
    function AsNode(): Node { Node(TagOf(id), value) }
    predicate Readable() { !Reserved(id) && |value| < WORD }
  }

  function Written(items: seq<Item>): seq<Byte> {
    if items == [] then [] else items[0].Bytes() + Written(items[1..])
  }

  function Nodes(items: seq<Item>): seq<Node> {
    seq(|items|, i requires 0 <= i < |items| => items[i].AsNode())
  }

  lemma {:induction false} TailReadBack(digits: seq<Byte>, rest: seq<Byte>, tag: nat)
    requires digits != [] && forall i :: 0 <= i < |digits| ==> (digits[i] < 0x80 <==> i == |digits| - 1)
    ensures ReadTagTail(digits + rest, tag) == TagRead(Folded(tag, digits), rest)
    decreases |digits|
  {
    var data := digits + rest;
    if |digits| == 1 {
      assert data[1..] == rest && Folded(256 * tag + digits[0], []) == 256 * tag + digits[0];
    } else {
      assert data[1..] == digits[1..] + rest;
      TailReadBack(digits[1..], rest, 256 * tag + digits[0]);
    }
  }

  /** A number with octets appended below it, from the first on. */
  function Folded(tag: nat, octets: seq<Byte>): nat
    decreases |octets|
  {
    if octets == [] then tag else Folded(256 * tag + octets[0], octets[1..])
  }

  lemma {:induction false} FoldedIsPacked(head: seq<Byte>, octets: seq<Byte>)
    ensures Folded(Pack(head), octets) == Pack(head + octets)
    decreases |octets|
  {
    if octets == [] {
      assert head + octets == head;
    } else {
      var longer := head + [octets[0]];
      assert longer[..|longer| - 1] == head;
      FoldedIsPacked(longer, octets[1..]);
      assert longer + octets[1..] == head + octets;
    }
  }

  lemma TagReadBack(id: Identifier, rest: seq<Byte>)
    requires !Reserved(id)
    ensures Octets(TagOf(id)) != [] && ReadTag(Octets(TagOf(id)) + rest) == TagRead(TagOf(id), rest)
  {
    hide ReadTagTail, Folded, TagOf;
    TagBytesAreIdentifier(id);
    LeadSays(id);
    var octets := IdentifierOctets(id);
    TagIsPacked(id);
    PackOne(Lead(id));
    if id.number < 31 {
      assert (octets + rest)[1..] == rest;
    } else {
      var digits := octets[1..];
      assert (octets + rest)[1..] == digits + rest;
      Digits128Small(id.number);
      var plain := Digits128(id.number);
      assert digits == Continued(plain);
      assert forall i :: 0 <= i < |plain| ==> plain[i] in plain;
      TailReadBack(digits, rest, Lead(id));
      FoldedIsPacked([Lead(id)], digits);
      assert [Lead(id)] + digits == octets;
    }
  }

  lemma TagIsPacked(id: Identifier)
    ensures TagOf(id) == Pack(IdentifierOctets(id))
  {
  }

  lemma LengthReadBack(length: nat, rest: seq<Byte>)
    requires length < WORD
    ensures ReadLength(LengthOctets(length) + rest) == Definite(length, rest)
  {
    hide Octets, Pack;
    LengthIsMinimal(length);
    var octets := LengthOctets(length);
    var data := octets + rest;
    if length < 0x80 {
      assert data[1..] == rest;
    } else {
      assert data[1..|octets|] == octets[1..] && data[|octets|..] == rest;
    }
  }

  /** One encoding in front of anything is read back as exactly its tag and value. */
  lemma NodeReadBack(item: Item, rest: seq<Byte>)
    requires item.Readable()
    ensures item.Bytes() != [] && Next(item.Bytes() + rest) == Read(item.AsNode(), rest)
  {
    hide Octets, LengthOctets, TagOf, ReadTag, ReadLength;
    TagBytesAreIdentifier(item.id);
    var tag, length, value := Octets(TagOf(item.id)), LengthOctets(|item.value|), item.value;
    assert item.Bytes() + rest == tag + (length + (value + rest));
    TagReadBack(item.id, length + (value + rest));
    LengthReadBack(|value|, value + rest);
    assert (value + rest)[..|value|] == value && (value + rest)[|value|..] == rest;
    assert tag != [] by { IdentifierStarts(item.id); }
  }

  lemma IdentifierStarts(id: Identifier)
    ensures IdentifierOctets(id) != []
  {
  }

  /** A list of encodings, whatever follows them, is read back as exactly that list. */
  lemma {:induction false} ListReadBack(items: seq<Item>, rest: seq<Byte>)
    requires forall i :: 0 <= i < |items| ==> items[i].Readable()
    ensures Children(Written(items) + rest) == Nodes(items) + Children(rest)
    decreases |items|
  {
    hide Next, Item.Bytes, Item.AsNode;
    if items == [] {
      assert Written(items) + rest == rest && Nodes(items) + Children(rest) == Children(rest);
    } else {
      var more := Written(items[1..]) + rest;
      NodeReadBack(items[0], more);
      ListReadBack(items[1..], rest);
      Segmentation.Associate(items[0].Bytes(), Written(items[1..]), rest);
      assert Nodes(items) == [items[0].AsNode()] + Nodes(items[1..]);
      Segmentation.Associate([items[0].AsNode()], Nodes(items[1..]), Children(rest));
    }
  }

  /** Two lists of encodings with the same octets are the same list. */
  lemma UniquelyDecodable(a: seq<Item>, b: seq<Item>)
    requires forall i :: 0 <= i < |a| ==> a[i].Readable()
    requires forall i :: 0 <= i < |b| ==> b[i].Readable()
    requires Written(a) == Written(b)
    ensures a == b
  {
    hide TagOf, Children;
    ListReadBack(a, []);
    ListReadBack(b, []);
    assert Written(a) + [] == Written(b) + [];
    assert Nodes(a) == Nodes(b) by { EndsEqual(Nodes(a), Nodes(b), Children([])); }
    forall i | 0 <= i < |a| ensures a[i] == b[i] {
      assert Nodes(a)[i] == a[i].AsNode() && Nodes(b)[i] == b[i].AsNode();
      TagInjective(a[i].id, b[i].id);
    }
  }

  lemma EndsEqual<T>(a: seq<T>, b: seq<T>, c: seq<T>)
    requires a + c == b + c
    ensures a == b
  {
    assert |a| == |b|;
    assert a == (a + c)[..|a|] && b == (b + c)[..|b|];
  }

  /** The reserved identifier is the exception: no octet is written for it, so even an empty
      value is not read back. */
  lemma ReservedNotReadBack(id: Identifier)
    requires Reserved(id)
    ensures Children(Item(id, []).Bytes()) == []
  {
    TagBytesAreIdentifier(id);
    assert Item(id, []).Bytes() == [0];
  }

  // ---- Octets cut short, and forms the encoder does not write ----

  lemma {:induction false} TailRunsOut(digits: seq<Byte>, tag: nat)
    requires forall i :: 0 <= i < |digits| ==> digits[i] >= 0x80
    ensures ReadTagTail(digits, tag).rest == []
    decreases |digits|
  {
    if digits != [] { TailRunsOut(digits[1..], 256 * tag + digits[0]); }
  }

  lemma TagCut(id: Identifier, n: nat)
    requires 0 < n < |IdentifierOctets(id)|
    ensures ReadTag(IdentifierOctets(id)[..n]).rest == []
  {
    var octets := IdentifierOctets(id);
    IdentifierForm(id);
    assert octets[..n][1..] == octets[1..n];
    TailRunsOut(octets[1..n], octets[0]);
  }

  lemma LengthCut(length: nat, n: nat)
    requires length < WORD && n < |LengthOctets(length)|
    ensures ReadLength(LengthOctets(length)[..n]) == CutShort
  {
    hide Octets, Pack;
    LengthIsMinimal(length);
  }

  /** How many octets stand before an encoding's value. */
  function HeadLength(item: Item): (r: nat)
    requires item.Readable()
    ensures 0 < r && r + |item.value| == |item.Bytes()|
  {
    TagBytesAreIdentifier(item.id);
    IdentifierStarts(item.id);
    |IdentifierOctets(item.id)| + |LengthOctets(|item.value|)|
  }

  /** An encoding cut short within its tag or length is not read; one cut within its value is read with
      the part that is there. */
  lemma CutNode(item: Item, n: nat)
    requires item.Readable() && 0 < n < |item.Bytes()|
    ensures Next(item.Bytes()[..n])
         == if n < HeadLength(item) then Missing else Read(Node(TagOf(item.id), item.value[..n - HeadLength(item)]), [])
  {
    hide Octets, LengthOctets, TagOf, ReadTag, ReadLength, IdentifierOctets;
    TagBytesAreIdentifier(item.id);
    var tag, length, value := IdentifierOctets(item.id), LengthOctets(|item.value|), item.value;
    assert item.Bytes() == tag + (length + value);
    var data := item.Bytes()[..n];
    if n < |tag| {
      assert data == tag[..n];
      TagCut(item.id, n);
      NothingDelimited(ReadTag(data).tag);
    } else {
      var rest := (length + value)[..n - |tag|];
      assert data == tag + rest;
      TagReadBack(item.id, rest);
      if n < HeadLength(item) {
        assert rest == length[..n - |tag|];
        LengthCut(|value|, n - |tag|);
      } else {
        assert rest == length + value[..n - HeadLength(item)];
        LengthReadBack(|value|, value[..n - HeadLength(item)]);
      }
    }
  }

  /** So of a list cut short anywhere the whole encodings are read, then the last one as far as its
      value goes, and nothing else. */
  lemma CutListRead(items: seq<Item>, last: Item, n: nat)
    requires forall i :: 0 <= i < |items| ==> items[i].Readable()
    requires last.Readable() && n < |last.Bytes()|
    ensures Children(Written(items) + last.Bytes()[..n])
         == Nodes(items) + if n < HeadLength(last) then [] else [Node(TagOf(last.id), last.value[..n - HeadLength(last)])]
  {
    hide Item.Bytes, Item.AsNode, Next, TagOf, LengthOctets, IdentifierOctets;
    ListReadBack(items, last.Bytes()[..n]);
    if n > 0 {
      CutNode(last, n);
      var data := last.Bytes()[..n];
      assert data != [] && Children([]) == [];
      assert Children(data) == match Next(data) case Missing => [] case Read(node, rest) => [node] + Children(rest);
    }
  }

  /** A value of indefinite length is taken as empty, and what would be its contents as what follows. */
  lemma IndefiniteIsEmpty(id: Identifier, rest: seq<Byte>)
    requires !Reserved(id)
    ensures Children(IdentifierOctets(id) + [0x80] + rest) == [Node(TagOf(id), [])] + Children(rest)
  {
    hide Octets, TagOf, ReadTag, IdentifierOctets;
    var data := IdentifierOctets(id) + ([0x80] + rest);
    assert IdentifierOctets(id) + [0x80] + rest == data;
    TagBytesAreIdentifier(id);
    TagReadBack(id, [0x80] + rest);
    IdentifierStarts(id);
    assert ([0x80] + rest)[1..] == rest;
  }

  /** A length in more octets than it needs is read all the same. */
  lemma LongFormRead(id: Identifier, length: seq<Byte>, value: seq<Byte>, rest: seq<Byte>)
    requires !Reserved(id) && 0 < |length| < 0x80 && Pack(length) == |value|
    ensures Children(IdentifierOctets(id) + [0x80 + |length|] + length + value + rest) == [Node(TagOf(id), value)] + Children(rest)
  {
    hide Octets, TagOf, ReadTag, IdentifierOctets, Pack;
    var tail := [0x80 + |length|] + length + (value + rest);
    var data := IdentifierOctets(id) + tail;
    assert IdentifierOctets(id) + [0x80 + |length|] + length + value + rest == data;
    TagBytesAreIdentifier(id);
    TagReadBack(id, tail);
    IdentifierStarts(id);
    assert tail[1..1 + |length|] == length && tail[1 + |length|..] == value + rest;
    assert (value + rest)[..|value|] == value && (value + rest)[|value|..] == rest;
  }
}
