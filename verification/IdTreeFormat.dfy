/** How the tree over ids and its leaf count are laid out in a file. */
module IdTreeFormat {
  import opened Ids
  import opened Options
  import opened Payloads
  import opened Streams

  const LEAF_DEPTH := 15  // the depth of the nodes whose children are leaves
  const LEAF: Byte := 'N' as int
  const INNER: Byte := 'C' as int
  const NO_CHILD: Byte := '0' as int
  const CHILD: Byte := '1' as int

  /** How ids and how the data of a tree are laid out. */
  datatype Layout<!T> = Layout(putId: Id -> seq<Byte>, takeId: seq<Byte> -> Reading<Id>, data: Codec<T>) {
    ghost predicate Consuming() {
      Consumes(takeId) && Consumes(data.take)
    }
  }

  ghost predicate Sound<T(!new)>(layout: Layout<T>) {
    Consumes(layout.takeId) && RoundTrips(layout.putId, layout.takeId) && Faithful(layout.data)
  }

  // ----- nodes

  /** A node with no children at all, or with a slot for each of the sixteen. */
  datatype Node<T> = Node(id: Id, counter: U16, data: T, children: seq<Option<Node<T>>>)

  /** A node of the tree over one kind of payload: an inner node was never counted and holds no data. */
  ghost predicate Storable<T>(layout: Layout<T>, n: Node<T>)
    decreases n
  {
    if n.children == [] then
      layout.data.fits(n.data)
    else
      && |n.children| == NUM_CHILDREN && n.counter == 0 && n.data == layout.data.blank
      && forall i | 0 <= i < |n.children| && n.children[i].Some? :: Storable(layout, n.children[i].value)
  }

  function PutLeaf<T>(layout: Layout<T>, counter: U16, data: T): seq<Byte> {
    PutU16(counter) + layout.data.put(data)
  }

  function Put<T>(layout: Layout<T>, n: Node<T>): seq<Byte>
    decreases n, |n.children| + 2
  {
    layout.putId(n.id) + PutBody(layout, n)
  }

  /** What follows the id: how the node continues, and its leaf part or its slots. */
  function PutBody<T>(layout: Layout<T>, n: Node<T>): seq<Byte>
    decreases n, |n.children| + 1
  {
    if n.children == []
    then [LEAF] + PutLeaf(layout, n.counter, n.data)
    else [INNER] + PutSlots(layout, n, |n.children|)
  }

  function PutSlot<T>(layout: Layout<T>, n: Node<T>, i: nat): seq<Byte>
    requires i < |n.children|
    decreases n, 0
  {
    var slot := n.children[i];
    if slot.None? then [NO_CHILD] else [CHILD] + Put(layout, slot.value)
  }

  /** The first c slots, the last of them first. */
  function PutSlots<T>(layout: Layout<T>, n: Node<T>, c: nat): seq<Byte>
    requires c <= |n.children|
    decreases n, c
  {
    if c == 0 then [] else PutSlot(layout, n, c - 1) + PutSlots(layout, n, c - 1)
  }

  /** The counter and the payload of a childless node; assigning the payload may stop the program. */
  function TakeLeaf<T>(layout: Layout<T>, id: Id, bytes: seq<Byte>): (r: Reading<Node<T>>)
    requires layout.Consuming()
    ensures r.Read? ==> |r.rest| <= |bytes|
  {
    match TakeU16(bytes)
    case Fatal => Fatal
    case Read(counter, afterCounter) =>
      match layout.data.take(afterCounter)
      case Fatal => Fatal
      case Read(data, rest) => if layout.data.assignable(data) then Read(Node(id, counter, data, []), rest) else Fatal
  }

  lemma LeafRoundTrip<T(!new)>(layout: Layout<T>, id: Id, counter: U16, data: T, tail: seq<Byte>)
    requires Sound(layout) && layout.data.fits(data)
    ensures TakeLeaf(layout, id, PutLeaf(layout, counter, data) + tail) ==
            if layout.data.assignable(data) then Read(Node(id, counter, data, []), tail) else Fatal
  {
    assert PutLeaf(layout, counter, data) + tail == PutU16(counter) + (layout.data.put(data) + tail);
    U16RoundTrip(counter, layout.data.put(data) + tail);
  }

  function Take<T>(layout: Layout<T>, bytes: seq<Byte>): (r: Reading<Node<T>>)
    requires layout.Consuming()
    ensures r.Read? ==> |r.rest| < |bytes|
    decreases |bytes|, 1
  {
    match layout.takeId(bytes)
    case Fatal => Fatal
    case Read(id, rest) => TakeBody(layout, id, rest)
  }

  function TakeBody<T>(layout: Layout<T>, id: Id, bytes: seq<Byte>): (r: Reading<Node<T>>)
    requires layout.Consuming()
    ensures r.Read? ==> |r.rest| < |bytes|
    decreases |bytes|, 0
  {
    if bytes == [] then Fatal
    else if bytes[0] == LEAF then TakeLeaf(layout, id, bytes[1..])
    else if bytes[0] == INNER then
      match TakeSlots(layout, bytes[1..], NUM_CHILDREN)
      case Fatal => Fatal
      case Read(slots, rest) => Read(Node(id, 0, layout.data.blank, slots), rest)
    else Fatal
  }

  function TakeSlots<T>(layout: Layout<T>, bytes: seq<Byte>, c: nat): (r: Reading<seq<Option<Node<T>>>>)
    requires layout.Consuming()
    ensures r.Read? ==> |r.value| == c && |r.rest| <= |bytes|
    decreases |bytes|, c
  {
    if c == 0 then Read([], bytes)
    else if bytes == [] then Fatal
    else if bytes[0] == NO_CHILD then
      Followed(TakeSlots(layout, bytes[1..], c - 1), [None])
    else if bytes[0] == CHILD then
      match Take(layout, bytes[1..])
      case Fatal => Fatal
      case Read(child, afterChild) => Followed(TakeSlots(layout, afterChild, c - 1), [Some(child)])
    else Fatal
  }

  /** What was read, with more slots after it. */
  function Followed<T>(lower: Reading<seq<Option<Node<T>>>>,
                       upper: seq<Option<Node<T>>>): Reading<seq<Option<Node<T>>>> {
    match lower
    case Fatal => Fatal
    case Read(slots, rest) => Read(slots + upper, rest)
  }

  lemma FollowedTwice<T>(lower: Reading<seq<Option<Node<T>>>>, middle: seq<Option<Node<T>>>,
                         upper: seq<Option<Node<T>>>)
    ensures Followed(Followed(lower, middle), upper) == Followed(lower, middle + upper)
  {
    if lower.Read? {
      assert lower.value + middle + upper == lower.value + (middle + upper);
    }
  }

  /** Reading the nodes back will not assign an empty way or relation. */
  predicate Reloadable<T>(layout: Layout<T>, n: Node<T>)
    decreases n
  {
    if n.children == [] then layout.data.assignable(n.data)
    else forall i | 0 <= i < |n.children| && n.children[i].Some? :: Reloadable(layout, n.children[i].value)
  }

  predicate ReloadableSlots<T>(layout: Layout<T>, n: Node<T>, c: nat)
    requires c <= |n.children|
  {
    forall i | 0 <= i < c && n.children[i].Some? :: Reloadable(layout, n.children[i].value)
  }

  /**
   * Reading what was written gives the same node and leaves exactly what followed, whatever that is;
   * the one exception are childless nodes with an empty way or relation, which stop the program.
   */
  lemma {:induction false} RoundTrip<T(!new)>(layout: Layout<T>, n: Node<T>, tail: seq<Byte>)
    requires Sound(layout) && Storable(layout, n)
    ensures Take(layout, Put(layout, n) + tail) == if Reloadable(layout, n) then Read(n, tail) else Fatal
    decreases n, |n.children| + 2
  {
    assert Put(layout, n) + tail == layout.putId(n.id) + (PutBody(layout, n) + tail);
    assert layout.takeId(layout.putId(n.id) + (PutBody(layout, n) + tail)) == Read(n.id, PutBody(layout, n) + tail);
    BodyRoundTrip(layout, n, tail);
  }

  lemma {:induction false} BodyRoundTrip<T(!new)>(layout: Layout<T>, n: Node<T>, tail: seq<Byte>)
    requires Sound(layout) && Storable(layout, n)
    ensures TakeBody(layout, n.id, PutBody(layout, n) + tail) == if Reloadable(layout, n) then Read(n, tail) else Fatal
    decreases n, |n.children| + 1
  {
    if n.children == [] {
      var leaf := PutLeaf(layout, n.counter, n.data);
      assert ([LEAF] + leaf + tail)[1..] == leaf + tail;
      LeafRoundTrip(layout, n.id, n.counter, n.data, tail);
    } else {
      SlotsRoundTrip(layout, n, NUM_CHILDREN, tail);
      InnerRoundTrip(layout, n, PutSlots(layout, n, NUM_CHILDREN), tail);
    }
  }

  lemma InnerRoundTrip<T(!new)>(layout: Layout<T>, n: Node<T>, slots: seq<Byte>, tail: seq<Byte>)
    requires layout.Consuming() && |n.children| == NUM_CHILDREN && n.counter == 0 && n.data == layout.data.blank
    requires TakeSlots(layout, slots + tail, NUM_CHILDREN) == ReadBack(layout, n, NUM_CHILDREN, tail)
    ensures TakeBody(layout, n.id, [INNER] + slots + tail) == if Reloadable(layout, n) then Read(n, tail) else Fatal
  {
    assert ([INNER] + slots + tail)[1..] == slots + tail;
    assert n.children[..NUM_CHILDREN] == n.children;
  }

  /** What reading the first c slots gives back. */
  function ReadBack<T>(layout: Layout<T>, n: Node<T>, c: nat, tail: seq<Byte>): Reading<seq<Option<Node<T>>>>
    requires c <= |n.children|
  {
    if ReloadableSlots(layout, n, c) then Read(n.children[..c], tail) else Fatal
  }

  lemma OneMoreSlot<T(!new)>(layout: Layout<T>, n: Node<T>, c: nat, tail: seq<Byte>)
    requires 0 < c <= |n.children|
    ensures var slot := n.children[c - 1];
            ReadBack(layout, n, c, tail) ==
            if slot.None? || Reloadable(layout, slot.value)
            then Followed(ReadBack(layout, n, c - 1, tail), [slot])
            else Fatal
  {
    assert n.children[..c] == n.children[..c - 1] + [n.children[c - 1]];
  }

  lemma {:induction false} SlotsRoundTrip<T(!new)>(layout: Layout<T>, n: Node<T>, c: nat, tail: seq<Byte>)
    requires Sound(layout) && Storable(layout, n) && n.children != [] && c <= NUM_CHILDREN
    ensures TakeSlots(layout, PutSlots(layout, n, c) + tail, c) == ReadBack(layout, n, c, tail)
    decreases n, c
  {
    if c == 0 {
      assert [] + tail == tail;
    } else {
      var after := PutSlots(layout, n, c - 1) + tail;
      assert PutSlots(layout, n, c) + tail == PutSlot(layout, n, c - 1) + after;
      SlotsRoundTrip(layout, n, c - 1, tail);
      SlotRoundTrip(layout, n, c, after);
      OneMoreSlot(layout, n, c, tail);
    }
  }

  lemma {:induction false} SlotRoundTrip<T(!new)>(layout: Layout<T>, n: Node<T>, c: nat, after: seq<Byte>)
    requires Sound(layout) && Storable(layout, n) && n.children != [] && 0 < c <= NUM_CHILDREN
    ensures var slot := n.children[c - 1];
            TakeSlots(layout, PutSlot(layout, n, c - 1) + after, c) ==
            if slot.None? || Reloadable(layout, slot.value)
            then Followed(TakeSlots(layout, after, c - 1), [slot])
            else Fatal
    decreases n, 0
  {
    var slot := n.children[c - 1];
    if slot.None? {
      assert ([NO_CHILD] + after)[1..] == after;
    } else {
      var child := Put(layout, slot.value);
      assert [CHILD] + child + after == [CHILD] + (child + after);
      assert ([CHILD] + (child + after))[1..] == child + after;
      RoundTrip(layout, slot.value, after);
    }
  }

  /** No written tree is the beginning of another: different trees cannot be confused, whatever follows them. */
  lemma SelfDelimiting<T(!new)>(layout: Layout<T>, a: Node<T>, b: Node<T>, tailA: seq<Byte>, tailB: seq<Byte>)
    requires Sound(layout) && Storable(layout, a) && Storable(layout, b) && Reloadable(layout, a)
    requires Put(layout, a) + tailA == Put(layout, b) + tailB
    ensures a == b && tailA == tailB
  {
    RoundTrip(layout, a, tailA);
    RoundTrip(layout, b, tailB);
  }

  // ----- trees with their size

  /** The leaves below a node at some depth: what lies deeper, or elsewhere, is not counted. */
  function LeafCount<T>(n: Node<T>, depth: nat): nat
    decreases n, |n.children| + 1
  {
    LeafCountOfSlots(n, |n.children|, depth)
  }

  function LeafCountOfSlots<T>(n: Node<T>, c: nat, depth: nat): nat
    requires c <= |n.children|
    decreases n, c, 1
  {
    if c == 0 then 0 else LeafCountOfSlots(n, c - 1, depth) + LeafCountOfSlot(n, c - 1, depth)
  }

  function LeafCountOfSlot<T>(n: Node<T>, i: nat, depth: nat): nat
    requires i < |n.children|
    decreases n, 0, 0
  {
    if n.children[i].None? then 0
    else if depth < LEAF_DEPTH then LeafCount(n.children[i].value, depth + 1)
    else 1
  }

  datatype Tree<T> = Tree(size: U64, root: Node<T>)

  /** The size is counted when it is asked for and not known. */
  function SizeOf<T>(t: Tree<T>): nat {
    if t.size == 0 then LeafCount(t.root, 0) else t.size
  }

  function PutTree<T>(layout: Layout<T>, t: Tree<T>): seq<Byte> {
    Encoded(SizeOf(t), 8) + Put(layout, t.root)
  }

  function TakeTree<T>(layout: Layout<T>, bytes: seq<Byte>): Reading<Tree>
    requires layout.Consuming()
  {
    match TakeU64(bytes)
    case Fatal => Fatal
    case Read(s, afterSize) =>
      match Take(layout, afterSize)
      case Fatal => Fatal
      case Read(root, rest) => if s == LeafCount(root, 0) then Read(Tree(s, root), rest) else Fatal
  }

  /** A tree is read back exactly when its size is right and no childless node holds an empty way or relation. */
  lemma TreeRoundTrip<T(!new)>(layout: Layout<T>, t: Tree<T>, tail: seq<Byte>)
    requires Sound(layout) && Storable(layout, t.root) && SizeOf(t) < Limit(8)
    ensures TakeTree(layout, PutTree(layout, t) + tail) ==
            if SizeOf(t) == LeafCount(t.root, 0) && Reloadable(layout, t.root)
            then Read(Tree(SizeOf(t), t.root), tail)
            else Fatal
  {
    assert PutTree(layout, t) + tail == Encoded(SizeOf(t), 8) + (Put(layout, t.root) + tail);
    TakeEncoded(SizeOf(t), 8, Put(layout, t.root) + tail);
    RoundTrip(layout, t.root, tail);
  }

  // ----- reading step by step

  method ReadLeaf<T>(layout: Layout<T>, id: Id, input: InputStream) returns (r: Option<Node<T>>)
    requires layout.Consuming()
    modifies input
    ensures Agrees(TakeLeaf(layout, id, old(input.rest)), r, input.rest)
  {
    var counter := input.Read(2);
    if counter == None {
      return None;
    }
    assert TakeU16(old(input.rest)) == Read(Decoded(counter.value), input.rest);
    match layout.data.take(input.rest) {
      case Fatal =>
        return None;
      case Read(data, rest) =>
        if !layout.data.assignable(data) {
          return None;
        }
        input.rest := rest;
        return Some(Node(id, Decoded(counter.value), data, []));
    }
  }

  method ReadNode<T>(layout: Layout<T>, input: InputStream) returns (r: Option<Node<T>>)
    requires layout.Consuming()
    modifies input
    ensures Agrees(Take(layout, old(input.rest)), r, input.rest)
    decreases |input.rest|
  {
    var id;
    match layout.takeId(input.rest) {
      case Fatal =>
        return None;
      case Read(number, rest) =>
        input.rest := rest;
        id := number;
    }
    assert Take(layout, old(input.rest)) == TakeBody(layout, id, input.rest);
    var chr := input.Read(1);
    if chr.None? {
      return None;
    }
    if chr.value[0] == LEAF {
      r := ReadLeaf(layout, id, input);
      return;
    } else if chr.value[0] == INNER {
      var slots := ReadSlots(layout, input);
      if slots.None? {
        return None;
      }
      return Some(Node(id, 0, layout.data.blank, slots.value));
    }
    return None;
  }

  method ReadSlots<T>(layout: Layout<T>, input: InputStream) returns (r: Option<seq<Option<Node<T>>>>)
    requires layout.Consuming()
    modifies input
    ensures Agrees(TakeSlots(layout, old(input.rest), NUM_CHILDREN), r, input.rest)
    decreases |input.rest|
  {
    ghost var whole := TakeSlots(layout, input.rest, NUM_CHILDREN);
    var slots := [];
    assert whole.Read? ==> whole.value + [] == whole.value;
    for c := NUM_CHILDREN downto 0
      invariant |input.rest| <= |old(input.rest)|
      invariant whole == Followed(TakeSlots(layout, input.rest, c), slots)
    {
      var chr := input.Read(1);
      if chr.None? {
        return None;
      }
      if chr.value[0] == NO_CHILD {
        FollowedTwice(TakeSlots(layout, input.rest, c), [None], slots);
        slots := [None] + slots;
      } else if chr.value[0] == CHILD {
        var child := ReadNode(layout, input);
        if child.None? {
          return None;
        }
        FollowedTwice(TakeSlots(layout, input.rest, c), [Some(child.value)], slots);
        slots := [Some(child.value)] + slots;
      } else {
        return None;
      }
    }
    assert [] + slots == slots;
    r := Some(slots);
  }
}
