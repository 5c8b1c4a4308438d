/** The tag-length-value walk over SIM card files. */
module CardTlv {
  import opened Bits
  import opened Wrappers
  import Segmentation

  // ---- The walk ----

  /** One element at the front: its tag, its value, and where the next one starts. */
  datatype Item = Item(tag: Byte, value: seq<Byte>, next: nat)

  /** tag & 0x20: the value is itself a sequence of elements. */
  predicate Constructed(tag: Byte) {
    tag / 0x20 % 2 == 1
  }

  predicate Filler(b: Byte) { b == 0x00 || b == 0xff }

  /** Where a value starts and how long it is stated to be: short form, or one or two length octets. */
  function LengthAt(data: seq<Byte>): Option<(nat, nat)>
    requires |data| >= 2
  {
    if data[1] < 0x80 then Some((2, data[1]))
    else if data[1] == 0x81 && |data| >= 3 then Some((3, data[2]))
    else if data[1] == 0x82 && |data| >= 4 then Some((4, data[2] as int * 256 + data[3] as int))
    else None
  }

  function Head(data: seq<Byte>): (r: Option<Item>)
    ensures r.Some? ==> 2 <= r.value.next <= |data| && |r.value.value| + 2 <= r.value.next
  {
    if |data| < 2 || Filler(data[0]) then None
    else match LengthAt(data)
      case None => None
      case Some((start, size)) =>
        if start + size > |data| then None else Some(Item(data[0], data[start..start + size], start + size))
  }

  /** The values carried under a tag, outer elements before the elements inside them; the walk
      ends at filler or at anything it cannot read. */
  function Values(data: seq<Byte>, wanted: Byte): seq<seq<Byte>>
    decreases |data|
  {
    match Head(data)
    case None => []
    case Some(item) => Found(item, wanted) + Values(data[item.next..], wanted)
  }

  /** What one element contributes: its own value, then what is inside it. */
  function Found(item: Item, wanted: Byte): seq<seq<Byte>>
    decreases |item.value| + 1
  {
    (if item.tag == wanted then [item.value] else []) + (if Constructed(item.tag) then Values(item.value, wanted) else [])
  }

  lemma ValuesAt(data: seq<Byte>, offset: nat, wanted: Byte)
    requires offset <= |data|
    ensures match Head(data[offset..])
            case None => Values(data[offset..], wanted) == []
            case Some(item) =>
              Values(data[offset..], wanted) == Found(item, wanted) + Values(data[offset + item.next..], wanted)
  {
    var rest := data[offset..];
    if Head(rest).Some? { assert rest[Head(rest).value.next..] == data[offset + Head(rest).value.next..]; }
  }

  method TlvValues(data: seq<Byte>, wanted: Byte) returns (out: seq<seq<Byte>>)
    ensures out == Values(data, wanted)
    decreases |data|, 1
  {
    hide Values, Found, Head;
    out := [];
    var offset := 0;
    assert data[0..] == data;
    while offset + 2 <= |data|
      invariant 0 <= offset <= |data|
      invariant out + Values(data[offset..], wanted) == Values(data, wanted)
      decreases |data| - offset
    {
      ValuesAt(data, offset, wanted);
      var item := ReadItem(data, offset);
      if item.None? {
        return;
      }
      var found := Collect(item.value, wanted);
      Segmentation.Associate(out, found, Values(data[offset + item.value.next..], wanted));
      out := out + found;
      offset := offset + item.value.next;
    }
    ShortTail(data[offset..], wanted);
  }

  lemma ShortTail(data: seq<Byte>, wanted: Byte)
    requires |data| < 2
    ensures Values(data, wanted) == []
  {
  }

  /** The end of the loop body: an element's value, then the walk inside it. */
  method Collect(item: Item, wanted: Byte) returns (found: seq<seq<Byte>>)
    ensures found == Found(item, wanted)
    decreases |item.value| + 1, 0
  {
    found := [];
    if item.tag == wanted {
      found := found + [item.value];
    }
    if Constructed(item.tag) {
      var inner := TlvValues(item.value, wanted);
      found := found + inner;
    }
  }

  /** The head of the loop body: tag, length and value at an offset. */
  method ReadItem(data: seq<Byte>, at: nat) returns (r: Option<Item>)
    requires at + 2 <= |data|
    ensures r == Head(data[at..])
  {
    ghost var rest := data[at..];
    assert rest[0] == data[at] && rest[1] == data[at + 1];
    assert (|rest| > 2 ==> rest[2] == data[at + 2]) && (|rest| > 3 ==> rest[3] == data[at + 3]);
    var offset := at;
    var tag := data[offset];
    if tag == 0xff || tag == 0 {
      return None;
    }
    offset := offset + 1;
    var size: int := data[offset];
    offset := offset + 1;
    if size >= 0x80 {
      var count := size - 0x80;
      if count < 1 || count > 2 || offset + count > |data| {
        return None;
      }
      size := 0;
      for i := 0 to count
        invariant offset == at + 2 + i
        invariant size == if i == 0 then 0 else if i == 1 then data[at + 2] as int
                          else data[at + 2] as int * 256 + data[at + 3] as int
      {
        size := size * 256 + data[offset] as int;
        offset := offset + 1;
      }
    }
    assert LengthAt(rest) == Some((offset - at, size));
    if offset + size > |data| {
      return None;
    }
    assert rest[offset - at..offset - at + size] == data[offset..offset + size];
    return Some(Item(tag, data[offset..offset + size], offset + size - at));
  }

  // ---- Any input ----

  /** part stands somewhere in whole. */
  ghost predicate SliceOf(part: seq<Byte>, whole: seq<Byte>) {
    exists i, j :: 0 <= i <= j <= |whole| && whole[i..j] == part
  }

  lemma SliceOfSlice(part: seq<Byte>, whole: seq<Byte>, lo: nat, hi: nat, inner: seq<Byte>)
    requires lo <= hi <= |whole| && inner == whole[lo..hi] && SliceOf(part, inner)
    ensures SliceOf(part, whole)
  {
    var i, j :| 0 <= i <= j <= |inner| && inner[i..j] == part;
    SliceTwice(whole, lo, hi, i, j);
  }

  lemma SliceTwice(whole: seq<Byte>, lo: nat, hi: nat, i: nat, j: nat)
    requires lo <= hi <= |whole| && i <= j <= hi - lo
    ensures whole[lo..hi][i..j] == whole[lo + i..lo + j]
  {
    var a, b := whole[lo..hi][i..j], whole[lo + i..lo + j];
    assert |a| == |b|;
    forall k | 0 <= k < |a| ensures a[k] == b[k] {}
  }

  /** Whatever the bytes, everything the walk returns is a stretch of its input. */
  lemma {:induction false} OnlySlices(data: seq<Byte>, wanted: Byte, value: seq<Byte>)
    requires value in Values(data, wanted)
    ensures SliceOf(value, data)
    decreases |data|
  {
    var item := Head(data).value;
    var start := item.next - |item.value|;
    var rest := data[item.next..];
    assert item.value == data[start..item.next];
    if value in Values(rest, wanted) {
      OnlySlices(rest, wanted, value);
      SliceOfSlice(value, data, item.next, |data|, rest);
    } else if Constructed(item.tag) && value in Values(item.value, wanted) {
      OnlySlices(item.value, wanted, value);
      SliceOfSlice(value, data, start, item.next, item.value);
    } else {
      assert value in Found(item, wanted);
      assert value == item.value;
    }
  }

  // ---- Reference forests ----

  datatype Form = Short | Long1 | Long2

  /** An element as a card writes it; a constructed one may have filler after its elements. */
  datatype Element =
    | Primitive(tag: Byte, form: Form, value: seq<Byte>)
    | Nested(tag: Byte, form: Form, elements: seq<Element>, filler: seq<Byte>)

  predicate IsFiller(bytes: seq<Byte>) {
    bytes == [] || Filler(bytes[0])
  }

  function ValueOf(e: Element): seq<Byte>
    decreases e, 0
  {
    match e
    case Primitive(_, _, value) => value
    case Nested(_, _, elements, filler) => Written(elements) + filler
  }

  function LengthOctets(form: Form, n: nat): seq<Byte> {
    match form
    case Short => [n % 256]
    case Long1 => [0x81, n % 256]
    case Long2 => [0x82, n / 256 % 256, n % 256]
  }

  function WrittenElement(e: Element): seq<Byte>
    decreases e, 1
  {
    [e.tag] + LengthOctets(e.form, |ValueOf(e)|) + ValueOf(e)
  }

  function Written(elements: seq<Element>): seq<Byte>
    decreases elements
  {
    if elements == [] then [] else WrittenElement(elements[0]) + Written(elements[1..])
  }

  /** Tags are not filler and say truly whether the element is constructed; lengths fit their form. */
  predicate WellFormed(e: Element)
    decreases e, 0
  {
    && !Filler(e.tag)
    && (Constructed(e.tag) <==> e.Nested?)
    && |ValueOf(e)| < (match e.form case Short => 0x80 case Long1 => 0x100 case Long2 => 0x1_0000)
    && (e.Nested? ==> IsFiller(e.filler) && AllWellFormed(e.elements))
  }

  predicate AllWellFormed(elements: seq<Element>)
    decreases elements
  {
    elements == [] || (WellFormed(elements[0]) && AllWellFormed(elements[1..]))
  }

  /** The values under a tag, in pre-order. */
  function Carried(elements: seq<Element>, wanted: Byte): seq<seq<Byte>>
    decreases elements
  {
    if elements == [] then []
    else CarriedBy(elements[0], wanted) + Carried(elements[1..], wanted)
  }

  function CarriedBy(e: Element, wanted: Byte): seq<seq<Byte>>
    decreases e, 0
  {
    (if e.tag == wanted then [ValueOf(e)] else []) + (if e.Nested? then Carried(e.elements, wanted) else [])
  }

  /** The head of written elements is the first element, whatever follows. */
  lemma HeadOfWritten(e: Element, rest: seq<Byte>)
    requires WellFormed(e)
    ensures Head(WrittenElement(e) + rest) == Some(Item(e.tag, ValueOf(e), |WrittenElement(e)|))
    ensures (WrittenElement(e) + rest)[|WrittenElement(e)|..] == rest
  {
    hide ValueOf, LengthAt, LengthOctets;
    var value := ValueOf(e);
    var n := |value|;
    var lengths := LengthOctets(e.form, n);
    var data := WrittenElement(e) + rest;
    var start := 1 + |lengths|;
    assert data == [e.tag] + lengths + (value + rest);
    WrittenLength(e.form, n, e.tag, value + rest);
    assert data[start..start + n] == value;
  }

  lemma WrittenLength(form: Form, n: nat, tag: Byte, rest: seq<Byte>)
    requires n < match form case Short => 0x80 case Long1 => 0x100 case Long2 => 0x1_0000
    ensures var lengths := LengthOctets(form, n);
            |lengths| >= 1 && LengthAt([tag] + lengths + rest) == Some((1 + |lengths|, n))
  {
    var lengths := LengthOctets(form, n);
    var data := [tag] + lengths + rest;
    assert data[1] == lengths[0];
    if form == Long1 { assert data[2] == lengths[1]; }
    if form == Long2 { assert data[2] == lengths[1] && data[3] == lengths[2]; }
  }

  /** Behind a forest the walk goes on with whatever stands there. */
  lemma {:induction false} WalkGoesOn(elements: seq<Element>, rest: seq<Byte>, wanted: Byte)
    requires AllWellFormed(elements)
    ensures Values(Written(elements) + rest, wanted) == Carried(elements, wanted) + Values(rest, wanted)
    decreases elements, 0
  {
    var data := Written(elements) + rest;
    if elements == [] {
      assert data == rest && Carried(elements, wanted) + Values(rest, wanted) == Values(rest, wanted);
    } else {
      var e, tail := elements[0], Written(elements[1..]) + rest;
      assert data == WrittenElement(e) + tail;
      HeadOfWritten(e, tail);
      WalkGoesOn(elements[1..], rest, wanted);
      assert Found(Item(e.tag, ValueOf(e), |WrittenElement(e)|), wanted) == CarriedBy(e, wanted) by {
        if e.Nested? { WalkReadsForest(e.elements, e.filler, wanted); }
      }
      Segmentation.Associate(CarriedBy(e, wanted), Carried(elements[1..], wanted), Values(rest, wanted));
    }
  }

  /** For every forest, followed by filler, the walk returns exactly the values under the wanted
      tag, in pre-order. */
  lemma {:induction false} WalkReadsForest(elements: seq<Element>, filler: seq<Byte>, wanted: Byte)
    requires AllWellFormed(elements) && IsFiller(filler)
    ensures Values(Written(elements) + filler, wanted) == Carried(elements, wanted)
    decreases elements, 1
  {
    WalkGoesOn(elements, filler, wanted);
    assert Head(filler).None?;
  }

  /** An element cut short contributes nothing, not even the part that is there, and ends the walk. */
  lemma CutElementIgnored(elements: seq<Element>, last: Element, n: nat, wanted: Byte)
    requires AllWellFormed(elements) && WellFormed(last) && n < |WrittenElement(last)|
    ensures Values(Written(elements) + WrittenElement(last)[..n], wanted) == Carried(elements, wanted)
  {
    WalkGoesOn(elements, WrittenElement(last)[..n], wanted);
    CutHead(last, n);
  }

  lemma CutHead(e: Element, n: nat)
    requires WellFormed(e) && n < |WrittenElement(e)|
    ensures Head(WrittenElement(e)[..n]).None?
  {
    hide ValueOf;
  }

  /** So does one whose length takes no octet or more than two. */
  lemma OddLengthIgnored(elements: seq<Element>, tag: Byte, length: Byte, rest: seq<Byte>, wanted: Byte)
    requires AllWellFormed(elements) && (length == 0x80 || length > 0x82)
    ensures Values(Written(elements) + ([tag, length] + rest), wanted) == Carried(elements, wanted)
  {
    WalkGoesOn(elements, [tag, length] + rest, wanted);
    assert Head([tag, length] + rest).None?;
  }
}
