/** How the tree over encoded texts is laid out in a file. */
module TextTreeFormat {
  import opened Options
  import opened Payloads
  import opened Streams
  import opened SwedishText

  const NO_CHILDREN: Byte := 'N' as int
  const CHILDREN: Byte := 'C' as int
  const NO_CHILD: Byte := '0' as int
  const CHILD: Byte := '1' as int

  /** A node with no children at all, or with a slot for each code, and what it holds. */
  datatype TextNode<T> = TextNode(children: seq<Option<TextNode<T>>>, elements: T)

  ghost predicate Storable<T>(codec: Codec<T>, n: TextNode<T>)
    decreases n
  {
    && (n.children == [] || |n.children| == NUM_CODES)
    && codec.fits(n.elements)
    && forall i | 0 <= i < |n.children| && n.children[i].Some? :: Storable(codec, n.children[i].value)
  }

  // ----- bytes of a node

  function Put<T>(codec: Codec<T>, n: TextNode<T>): seq<Byte>
    decreases n, |n.children| + 1
  {
    PutChildren(codec, n) + codec.put(n.elements)
  }

  function PutChildren<T>(codec: Codec<T>, n: TextNode<T>): seq<Byte>
    decreases n, |n.children|, 1
  {
    if n.children == [] then [NO_CHILDREN] else [CHILDREN] + PutSlots(codec, n, |n.children|)
  }

  function PutSlot<T>(codec: Codec<T>, n: TextNode<T>, i: nat): seq<Byte>
    requires i < |n.children|
    decreases n, 0, 0
  {
    if n.children[i].None? then [NO_CHILD] else [CHILD] + Put(codec, n.children[i].value)
  }

  /** The last c slots, the first of them first. */
  function PutSlots<T>(codec: Codec<T>, n: TextNode<T>, c: nat): seq<Byte>
    requires c <= |n.children|
    decreases n, c, 0
  {
    if c == 0 then [] else PutSlot(codec, n, |n.children| - c) + PutSlots(codec, n, c - 1)
  }

  // ----- and back

  function Take<T>(codec: Codec<T>, bytes: seq<Byte>): (r: Reading<TextNode<T>>)
    requires Consumes(codec.take)
    ensures r.Read? ==> |r.rest| < |bytes|
    decreases |bytes|, NUM_CODES + 2
  {
    match TakeChildren(codec, bytes)
    case Fatal => Fatal
    case Read(children, rest) => TakeRest(codec, children, rest)
  }

  function TakeRest<T>(codec: Codec<T>, children: seq<Option<TextNode<T>>>, bytes: seq<Byte>): (r: Reading<TextNode<T>>)
    requires Consumes(codec.take)
    ensures r.Read? ==> |r.rest| <= |bytes|
  {
    match codec.take(bytes)
    case Fatal => Fatal
    case Read(elements, rest) => Read(TextNode(children, elements), rest)
  }

  function TakeChildren<T>(codec: Codec<T>, bytes: seq<Byte>): (r: Reading<seq<Option<TextNode<T>>>>)
    requires Consumes(codec.take)
    ensures r.Read? ==> |r.rest| < |bytes|
    decreases |bytes|, NUM_CODES + 1
  {
    if bytes == [] then Fatal
    else if bytes[0] == NO_CHILDREN then Read([], bytes[1..])
    else if bytes[0] == CHILDREN then TakeSlots(codec, bytes[1..], NUM_CODES)
    else Fatal
  }

  function TakeSlots<T>(codec: Codec<T>, bytes: seq<Byte>, c: nat): (r: Reading<seq<Option<TextNode<T>>>>)
    requires Consumes(codec.take)
    ensures r.Read? ==> |r.value| == c && |r.rest| <= |bytes|
    decreases |bytes|, c
  {
    if c == 0 then Read([], bytes)
    else if bytes == [] then Fatal
    else if bytes[0] == NO_CHILD then After([None], TakeSlots(codec, bytes[1..], c - 1))
    else if bytes[0] == CHILD then
      match Take(codec, bytes[1..])
      case Fatal => Fatal
      case Read(child, rest) => After([Some(child)], TakeSlots(codec, rest, c - 1))
    else Fatal
  }

  /** What was read, with more slots before it. */
  function After<T>(lower: seq<Option<TextNode<T>>>,
                    upper: Reading<seq<Option<TextNode<T>>>>): Reading<seq<Option<TextNode<T>>>> {
    match upper
    case Fatal => Fatal
    case Read(slots, rest) => Read(lower + slots, rest)
  }

  lemma AfterTwice<T>(lower: seq<Option<TextNode<T>>>, middle: seq<Option<TextNode<T>>>,
                      upper: Reading<seq<Option<TextNode<T>>>>)
    ensures After(lower, After(middle, upper)) == After(lower + middle, upper)
  {
    if upper.Read? {
      assert lower + (middle + upper.value) == lower + middle + upper.value;
    }
  }

  // ----- round trip

  /** Reading what was written gives the same node and leaves exactly what followed, whatever that is. */
  lemma {:induction false} RoundTrip<T(!new)>(codec: Codec<T>, n: TextNode<T>, tail: seq<Byte>)
    requires Faithful(codec) && Storable(codec, n)
    ensures Take(codec, Put(codec, n) + tail) == Read(n, tail)
    decreases n, |n.children| + 1
  {
    var after := codec.put(n.elements) + tail;
    assert Put(codec, n) + tail == PutChildren(codec, n) + after;
    if n.children == [] {
      assert ([NO_CHILDREN] + after)[1..] == after;
    } else {
      var slots := PutSlots(codec, n, |n.children|);
      assert ([CHILDREN] + slots + after)[1..] == slots + after;
      SlotsRoundTrip(codec, n, |n.children|, after);
      assert n.children[0..] == n.children;
    }
  }

  lemma {:induction false} SlotsRoundTrip<T(!new)>(codec: Codec<T>, n: TextNode<T>, c: nat, tail: seq<Byte>)
    requires Faithful(codec) && Storable(codec, n) && c <= |n.children|
    ensures TakeSlots(codec, PutSlots(codec, n, c) + tail, c) == Read(n.children[|n.children| - c..], tail)
    decreases n, c
  {
    if c == 0 {
      assert PutSlots(codec, n, 0) + tail == tail && n.children[|n.children|..] == [];
    } else {
      var i, after := |n.children| - c, PutSlots(codec, n, c - 1) + tail;
      assert PutSlots(codec, n, c) + tail == PutSlot(codec, n, i) + after;
      assert n.children[i..] == [n.children[i]] + n.children[i + 1..];
      SlotsRoundTrip(codec, n, c - 1, tail);
      SlotRoundTrip(codec, n, c, after);
    }
  }

  lemma {:induction false} SlotRoundTrip<T(!new)>(codec: Codec<T>, n: TextNode<T>, c: nat, after: seq<Byte>)
    requires Faithful(codec) && Storable(codec, n) && 0 < c <= |n.children|
    ensures var i := |n.children| - c;
            TakeSlots(codec, PutSlot(codec, n, i) + after, c) == After([n.children[i]], TakeSlots(codec, after, c - 1))
    decreases n, 0
  {
    var slot := n.children[|n.children| - c];
    if slot.None? {
      assert ([NO_CHILD] + after)[1..] == after;
    } else {
      var child := Put(codec, slot.value);
      assert [CHILD] + child + after == [CHILD] + (child + after);
      assert ([CHILD] + (child + after))[1..] == child + after;
      RoundTrip(codec, slot.value, after);
    }
  }

  /** Different trees cannot be confused, whatever follows them. */
  lemma SelfDelimiting<T(!new)>(codec: Codec<T>, a: TextNode<T>, b: TextNode<T>, tailA: seq<Byte>, tailB: seq<Byte>)
    requires Faithful(codec) && Storable(codec, a) && Storable(codec, b)
             && Put(codec, a) + tailA == Put(codec, b) + tailB
    ensures a == b && tailA == tailB
  {
    RoundTrip(codec, a, tailA);
    RoundTrip(codec, b, tailB);
  }

  // ----- reading step by step

  method ReadNode<T>(codec: Codec<T>, input: InputStream) returns (r: Option<TextNode<T>>)
    requires Consumes(codec.take)
    modifies input
    ensures Agrees(Take(codec, old(input.rest)), r, input.rest)
    decreases |input.rest|, 1
  {
    var chr := input.Read(1);
    if chr.None? {
      return None;
    }
    var children := [];
    if chr.value[0] == CHILDREN {
      var slots := ReadSlots(codec, input);
      if slots.None? {
        return None;
      }
      children := slots.value;
    } else if chr.value[0] != NO_CHILDREN {
      return None;
    }
    assert TakeChildren(codec, old(input.rest)) == Read(children, input.rest);
    match codec.take(input.rest) {
      case Fatal =>
        return None;
      case Read(elements, rest) =>
        input.rest := rest;
        r := Some(TextNode(children, elements));
    }
  }

  method ReadSlots<T>(codec: Codec<T>, input: InputStream) returns (r: Option<seq<Option<TextNode<T>>>>)
    requires Consumes(codec.take)
    modifies input
    ensures Agrees(TakeSlots(codec, old(input.rest), NUM_CODES), r, input.rest)
    decreases |input.rest|, NUM_CODES
  {
    ghost var whole := TakeSlots(codec, input.rest, NUM_CODES);
    var slots := [];
    assert whole.Read? ==> [] + whole.value == whole.value;
    for i := 0 to NUM_CODES
      invariant |input.rest| <= |old(input.rest)|
      invariant whole == After(slots, TakeSlots(codec, input.rest, NUM_CODES - i))
    {
      var chr := input.Read(1);
      if chr.None? {
        return None;
      }
      if chr.value[0] == NO_CHILD {
        AfterTwice(slots, [None], TakeSlots(codec, input.rest, NUM_CODES - i - 1));
        slots := slots + [None];
      } else if chr.value[0] == CHILD {
        var child := ReadNode(codec, input);
        if child.None? {
          return None;
        }
        AfterTwice(slots, [Some(child.value)], TakeSlots(codec, input.rest, NUM_CODES - i - 1));
        slots := slots + [Some(child.value)];
      } else {
        return None;
      }
    }
    assert slots + [] == slots;
    r := Some(slots);
  }
}
