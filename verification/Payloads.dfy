/** How the data kept in the trees over ids is laid out in a file. */
module Payloads {
  import opened Streams

  /** An element's id, type and real-world type, as they lie in memory. */
  datatype Element = Element(id: U64, kind: U32, realWorld: U32)

  datatype Position = Position(x: Int32, y: Int32)

  datatype Relation = Relation(members: seq<Element>, flags: seq<U16>)

  function PutElement(e: Element): seq<Byte> {
    PutU64(e.id) + PutU32(e.kind) + PutU32(e.realWorld)
  }

  function TakeElement(bytes: seq<Byte>): (r: Reading<Element>)
    ensures r.Read? ==> |r.rest| <= |bytes|
  {
    match TakeU64(bytes)
    case Fatal => Fatal
    case Read(id, afterId) =>
      match TakeU32(afterId)
      case Fatal => Fatal
      case Read(kind, afterKind) =>
        match TakeU32(afterKind)
        case Fatal => Fatal
        case Read(realWorld, rest) => Read(Element(id, kind, realWorld), rest)
  }

  lemma ElementRoundTrip(e: Element, tail: seq<Byte>)
    ensures TakeElement(PutElement(e) + tail) == Read(e, tail)
  {
    var last := PutU32(e.realWorld) + tail;
    assert PutElement(e) + tail == PutU64(e.id) + (PutU32(e.kind) + last);
    U64RoundTrip(e.id, PutU32(e.kind) + last);
    U32RoundTrip(e.kind, last);
    U32RoundTrip(e.realWorld, tail);
  }

  // ----- coordinates

  function PutPosition(c: Position): seq<Byte> {
    PutInt32(c.x) + PutInt32(c.y)
  }

  function TakePosition(bytes: seq<Byte>): (r: Reading<Position>)
    ensures r.Read? ==> |r.rest| <= |bytes|
  {
    match TakeInt32(bytes)
    case Fatal => Fatal
    case Read(x, afterX) =>
      match TakeInt32(afterX)
      case Fatal => Fatal
      case Read(y, rest) => Read(Position(x, y), rest)
  }

  lemma PositionRoundTrip(c: Position, tail: seq<Byte>)
    ensures TakePosition(PutPosition(c) + tail) == Read(c, tail)
  {
    assert PutPosition(c) + tail == PutInt32(c.x) + (PutInt32(c.y) + tail);
    Int32RoundTrip(c.x, PutInt32(c.y) + tail);
    Int32RoundTrip(c.y, tail);
  }

  // ----- ways

  /** The number of nodes, which is kept in 32 bits, and the nodes. */
  function PutWay(nodes: seq<U64>): seq<Byte> {
    Encoded(|nodes|, 4) + PutAll(PutU64, nodes)
  }

  function TakeWay(bytes: seq<Byte>): (r: Reading<seq<U64>>)
    ensures r.Read? ==> |r.rest| <= |bytes|
  {
    match TakeU32(bytes)
    case Fatal => Fatal
    case Read(count, afterCount) =>
      match TakeAll(TakeU64, afterCount, count)
      case Fatal => Fatal
      case Read(nodes, rest) => Read(nodes, rest)
  }

  lemma WayRoundTrip(nodes: seq<U64>, tail: seq<Byte>)
    requires |nodes| < Limit(4)
    ensures TakeWay(PutWay(nodes) + tail) == Read(nodes, tail)
  {
    assert PutWay(nodes) + tail == Encoded(|nodes|, 4) + (PutAll(PutU64, nodes) + tail);
    TakeEncoded(|nodes|, 4, PutAll(PutU64, nodes) + tail);
    forall n, t {
      U64RoundTrip(n, t);
    }
    AllRoundTrip(PutU64, TakeU64, nodes, tail);
  }

  // ----- relations

  function PutRelation(r: Relation): seq<Byte> {
    Encoded(|r.members|, 4) + (PutAll(PutElement, r.members) + PutAll(PutU16, r.flags))
  }

  function TakeRelation(bytes: seq<Byte>): (r: Reading<Relation>)
    ensures r.Read? ==> |r.rest| <= |bytes|
  {
    match TakeU32(bytes)
    case Fatal => Fatal
    case Read(count, afterCount) =>
      match TakeAll(TakeElement, afterCount, count)
      case Fatal => Fatal
      case Read(members, afterMembers) =>
        match TakeAll(TakeU16, afterMembers, count)
        case Fatal => Fatal
        case Read(flags, rest) => Read(Relation(members, flags), rest)
  }

  lemma MembersRoundTrip(members: seq<Element>, tail: seq<Byte>)
    ensures TakeAll(TakeElement, PutAll(PutElement, members) + tail, |members|) == Read(members, tail)
  {
    forall e, t {
      ElementRoundTrip(e, t);
    }
    AllRoundTrip(PutElement, TakeElement, members, tail);
  }

  lemma FlagsRoundTrip(flags: seq<U16>, tail: seq<Byte>)
    ensures TakeAll(TakeU16, PutAll(PutU16, flags) + tail, |flags|) == Read(flags, tail)
  {
    forall n, t {
      U16RoundTrip(n, t);
    }
    AllRoundTrip(PutU16, TakeU16, flags, tail);
  }

  lemma RelationRoundTrip(r: Relation, tail: seq<Byte>)
    requires |r.members| == |r.flags| < Limit(4)
    ensures TakeRelation(PutRelation(r) + tail) == Read(r, tail)
  {
    var last := PutAll(PutU16, r.flags) + tail;
    assert PutRelation(r) + tail == Encoded(|r.members|, 4) + (PutAll(PutElement, r.members) + last);
    TakeEncoded(|r.members|, 4, PutAll(PutElement, r.members) + last);
    MembersRoundTrip(r.members, last);
    FlagsRoundTrip(r.flags, tail);
  }

  // ----- names

  function PutText(characters: seq<Byte>): seq<Byte> {
    Encoded(|characters|, 8) + characters
  }

  function TakeText(bytes: seq<Byte>): (r: Reading<seq<Byte>>)
    ensures r.Read? ==> |r.rest| <= |bytes|
  {
    match TakeU64(bytes)
    case Fatal => Fatal
    case Read(length, rest) =>
      if |rest| < length then Fatal else Read(rest[..length], rest[length..])
  }

  lemma TextRoundTrip(characters: seq<Byte>, tail: seq<Byte>)
    requires |characters| < Limit(8)
    ensures TakeText(PutText(characters) + tail) == Read(characters, tail)
  {
    assert PutText(characters) + tail == Encoded(|characters|, 8) + (characters + tail);
    TakeEncoded(|characters|, 8, characters + tail);
  }

  // ----- the elements stored under a text

  const NO_ELEMENTS: Byte := 'n' as int
  const ELEMENTS: Byte := 'i' as int

  /** A marker for an empty list, or one for a list and then its length and its values. */
  function PutList<T>(put: T -> seq<Byte>, values: seq<T>): seq<Byte> {
    if values == [] then [NO_ELEMENTS] else [ELEMENTS] + (Encoded(|values|, 8) + PutAll(put, values))
  }

  function TakeList<T>(take: seq<Byte> -> Reading<T>, bytes: seq<Byte>): (r: Reading<seq<T>>)
    requires Consumes(take)
    ensures r.Read? ==> |r.rest| < |bytes|
  {
    if bytes == [] then Fatal
    else if bytes[0] == NO_ELEMENTS then Read([], bytes[1..])
    else if bytes[0] == ELEMENTS then
      match TakeU64(bytes[1..])
      case Fatal => Fatal
      case Read(count, rest) => TakeAll(take, rest, count)
    else Fatal
  }

  lemma ListRoundTrip<T(!new)>(put: T -> seq<Byte>, take: seq<Byte> -> Reading<T>, values: seq<T>, tail: seq<Byte>)
    requires RoundTrips(put, take) && Consumes(take) && |values| < Limit(8)
    ensures TakeList(take, PutList(put, values) + tail) == Read(values, tail)
  {
    if values == [] {
      assert ([NO_ELEMENTS] + tail)[1..] == tail;
    } else {
      var count, all := Encoded(|values|, 8), PutAll(put, values);
      assert ([ELEMENTS] + (count + all) + tail)[1..] == count + all + tail == count + (all + tail);
      TakeEncoded(|values|, 8, all + tail);
      AllRoundTrip(put, take, values, tail);
    }
  }

  function PutElements(elements: seq<Element>): seq<Byte> {
    PutList(PutElement, elements)
  }

  function TakeElements(bytes: seq<Byte>): (r: Reading<seq<Element>>)
    ensures r.Read? ==> |r.rest| < |bytes|
  {
    TakeList(TakeElement, bytes)
  }

  lemma ElementsRoundTrip(elements: seq<Element>, tail: seq<Byte>)
    requires |elements| < Limit(8)
    ensures TakeElements(PutElements(elements) + tail) == Read(elements, tail)
  {
    forall e, t {
      ElementRoundTrip(e, t);
    }
    ListRoundTrip(PutElement, TakeElement, elements, tail);
  }

  // ----- the kinds of data

  /**
   * What the tree needs to know about its data: the value before anything is assigned, the bytes, what the fields can
   * hold, and whether assigning it goes through; assigning a way or a relation that is empty stops the program.
   */
  datatype Codec<!T> = Codec(blank: T, put: T -> seq<Byte>, take: seq<Byte> -> Reading<T>, fits: T -> bool,
      assignable: T -> bool)

  /** Every value that fits is read back from its own bytes, whatever follows. */
  ghost predicate Faithful<T(!new)>(codec: Codec<T>) {
    && Consumes(codec.take)
    && forall data, tail :: codec.fits(data) ==> codec.take(codec.put(data) + tail) == Read(data, tail)
  }

  function PositionCodec(): (codec: Codec<Position>)
    ensures Faithful(codec)
  {
    assert forall c, tail :: TakePosition(PutPosition(c) + tail) == Read(c, tail) by {
      forall c, tail { PositionRoundTrip(c, tail); }
    }
    Codec(Position(0, 0), PutPosition, TakePosition, _ => true, _ => true)
  }

  function WayCodec(): (codec: Codec<seq<U64>>)
    ensures Faithful(codec)
  {
    assert forall nodes, tail | |nodes| < Limit(4) :: TakeWay(PutWay(nodes) + tail) == Read(nodes, tail) by {
      forall nodes, tail | |nodes| < Limit(4) { WayRoundTrip(nodes, tail); }
    }
    Codec([], PutWay, TakeWay, (nodes: seq<U64>) => |nodes| < Limit(4), (nodes: seq<U64>) => nodes != [])
  }

  function RelationCodec(): (codec: Codec<Relation>)
    ensures Faithful(codec)
  {
    assert forall r: Relation, tail | |r.members| == |r.flags| < Limit(4) ::
          TakeRelation(PutRelation(r) + tail) == Read(r, tail) by {
      forall r: Relation, tail | |r.members| == |r.flags| < Limit(4) { RelationRoundTrip(r, tail); }
    }
    Codec(Relation([], []), PutRelation, TakeRelation,
          (r: Relation) => |r.members| == |r.flags| < Limit(4), (r: Relation) => r.members != [])
  }

  function TextCodec(): (codec: Codec<seq<Byte>>)
    ensures Faithful(codec)
  {
    assert forall text, tail | |text| < Limit(8) :: TakeText(PutText(text) + tail) == Read(text, tail) by {
      forall text, tail | |text| < Limit(8) { TextRoundTrip(text, tail); }
    }
    Codec([], PutText, TakeText, (text: seq<Byte>) => |text| < Limit(8), _ => true)
  }

  function ElementsCodec(): (codec: Codec<seq<Element>>)
    ensures Faithful(codec)
  {
    assert forall elements, tail | |elements| < Limit(8) ::
          TakeElements(PutElements(elements) + tail) == Read(elements, tail) by {
      forall elements, tail | |elements| < Limit(8) { ElementsRoundTrip(elements, tail); }
    }
    Codec([], PutElements, TakeElements, (elements: seq<Element>) => |elements| < Limit(8), _ => true)
  }
}
