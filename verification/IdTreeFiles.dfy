/** Trees over ids as they are in memory, and what is written of them. */
module IdTreeFiles {
  import opened Ids
  import opened Options
  import opened Payloads
  import opened Sequences
  import opened Streams
  import F = IdTreeFormat
  import M = IdTrees

  /** A value shows a node in memory and all that is below it. */
  ghost predicate Mirrors<T>(owned: set<M.Node<T>>, n: M.Node<T>, v: F.Node<T>)
    reads owned
    decreases v
  {
    && n in owned
    && v.id == n.id && v.counter == n.counter && v.data == n.data
    && |v.children| == |n.children|
    && forall i | 0 <= i < |v.children| ::
         if v.children[i].None? then n.children[i] == null
         else n.children[i] != null && Mirrors(owned, n.children[i], v.children[i].value)
  }

  // ----- writing

  method WriteNode<T>(layout: F.Layout<T>, n: M.Node<T>, output: OutputStream, ghost owned: set<M.Node<T>>,
                      ghost v: F.Node<T>)
    requires Mirrors(owned, n, v)
    modifies output
    ensures output.written == old(output.written) + F.Put(layout, v)
    decreases v, 2
  {
    output.Write(layout.putId(n.id));
    if n.children == [] {
      output.Write([F.LEAF]);
      output.Write(PutU16(n.counter));
      output.Write(layout.data.put(n.data));
      assert output.written == old(output.written) + (layout.putId(v.id) + F.PutBody(layout, v));
    } else {
      output.Write([F.INNER]);
      WriteSlots(layout, n, output, owned, v);
    }
  }

  method WriteSlots<T>(layout: F.Layout<T>, n: M.Node<T>, output: OutputStream, ghost owned: set<M.Node<T>>,
                       ghost v: F.Node<T>)
    requires Mirrors(owned, n, v)
    modifies output
    ensures output.written == old(output.written) + F.PutSlots(layout, v, |v.children|)
    decreases v, 1
  {
    for c := |n.children| downto 0
      invariant output.written + F.PutSlots(layout, v, c) == old(output.written) + F.PutSlots(layout, v, |v.children|)
    {
      ghost var before := output.written;
      var child := n.children[c];
      if child == null {
        output.Write([F.NO_CHILD]);
      } else {
        output.Write([F.CHILD]);
        WriteNode(layout, child, output, owned, v.children[c].value);
      }
      assert output.written == before + F.PutSlot(layout, v, c);
      Regroup(before, F.PutSlot(layout, v, c), F.PutSlots(layout, v, c));
    }
  }

  // ----- the value of a reachable tree

  /** There is such a value for every node of a tree. */
  lemma {:induction false} Image<T>(tree: M.IdTree<T>, p: Path) returns (v: F.Node<T>)
    requires tree.Shape() && p in tree.nodes
    ensures Mirrors(tree.owned, tree.nodes[p], v)
    decreases DEPTH - tree.nodes[p].level, NUM_CHILDREN + 1
  {
    var n := tree.nodes[p];
    assert tree.Linked(p);
    var children := ImagesBelow(tree, p, |n.children|);
    v := F.Node(n.id, n.counter, n.data, children);
  }

  lemma {:induction false} ImagesBelow<T>(tree: M.IdTree<T>, p: Path, c: nat) returns (slots: seq<Option<F.Node<T>>>)
    requires tree.Shape() && p in tree.nodes && c <= |tree.nodes[p].children|
    ensures |slots| == c
    ensures forall i | 0 <= i < c ::
              if slots[i].None? then tree.nodes[p].children[i] == null
              else tree.nodes[p].children[i] != null && Mirrors(tree.owned, tree.nodes[p].children[i], slots[i].value)
    decreases DEPTH - tree.nodes[p].level, c
  {
    assert tree.Linked(p);
    if c == 0 {
      slots := [];
    } else {
      slots := ImagesBelow(tree, p, c - 1);
      if tree.nodes[p].children[c - 1] == null {
        slots := slots + [None];
      } else {
        var child := Image(tree, Below(p, c - 1));
        slots := slots + [Some(child)];
      }
    }
  }

  /** The data of a tree can be written, and what it does not hold is blank. */
  ghost predicate Matches<T>(tree: M.IdTree<T>, layout: F.Layout<T>)
    reads tree
  {
    layout.data.blank == tree.blank && layout.data.fits(layout.data.blank)
        && forall id | id in tree.contents :: layout.data.fits(tree.contents[id])
  }

  /** What a node without children holds: the data of its id, or nothing at all. */
  lemma ChildlessData<T>(tree: M.IdTree<T>, p: Path)
    requires tree.Valid() && p in tree.nodes && tree.nodes[p].children == []
    ensures var n := tree.nodes[p];
            if n.level == DEPTH then n.id in tree.contents && n.data == tree.contents[n.id] && Digits(n.id, DEPTH) == p
            else p == M.LastZero() && n.data == tree.blank
  {
    assert tree.Linked(p) && tree.PlainAt(p) && tree.Labelled(p);
    if tree.nodes[p].level == DEPTH {
      assert tree.Stored(tree.nodes[p].id);
    } else {
      assert !M.HasChild(tree.nodes, p);
    }
  }

  lemma {:induction false} ImageStorable<T(!new)>(tree: M.IdTree<T>, layout: F.Layout<T>, p: Path, v: F.Node<T>)
    requires tree.Valid() && Matches(tree, layout) && p in tree.nodes && Mirrors(tree.owned, tree.nodes[p], v)
    ensures F.Storable(layout, v)
    decreases v
  {
    assert tree.Linked(p) && tree.PlainAt(p);
    if v.children == [] {
      ChildlessData(tree, p);
    } else {
      forall i | 0 <= i < |v.children| && v.children[i].Some?
        ensures F.Storable(layout, v.children[i].value)
      {
        ImageStorable(tree, layout, Below(p, i), v.children[i].value);
      }
    }
  }

  // ----- its size

  /** If the counts of the single slots are right, so is their sum. */
  lemma {:induction false} SumOfSlots<T>(ids: set<Id>, p: Path, level: nat, v: F.Node<T>, c: nat)
    requires c <= |v.children| == NUM_CHILDREN
    requires forall i: Digit :: F.LeafCountOfSlot(v, i, level) == |M.IdsUnder(ids, Below(p, i), level + 1)|
    ensures F.LeafCountOfSlots(v, c, level) == M.CountBelow(ids, p, level, c)
  {
    if c > 0 {
      SumOfSlots(ids, p, level, v, c - 1);
    }
  }

  lemma {:induction false} ImageLeaves<T>(tree: M.IdTree<T>, p: Path, v: F.Node<T>)
    requires tree.Shape() && tree.Labels() && p in tree.nodes && tree.nodes[p].level < DEPTH
             && Mirrors(tree.owned, tree.nodes[p], v)
    ensures F.LeafCount(v, tree.nodes[p].level) == |M.IdsUnder(tree.contents.Keys, p, tree.nodes[p].level)|
    decreases v, 1
  {
    var level := tree.nodes[p].level;
    assert tree.Linked(p);
    M.CountBelowAll(tree.contents.Keys, p, level);
    if v.children == [] {
      tree.ChildlessCount(p, level);
    } else {
      forall i: Digit
        ensures F.LeafCountOfSlot(v, i, level) == |M.IdsUnder(tree.contents.Keys, Below(p, i), level + 1)|
      {
        ImageLeavesOfSlot(tree, p, v, i);
      }
      SumOfSlots(tree.contents.Keys, p, level, v, NUM_CHILDREN);
    }
  }

  lemma {:induction false} ImageLeavesOfSlot<T>(tree: M.IdTree<T>, p: Path, v: F.Node<T>, i: Digit)
    requires tree.Shape() && tree.Labels() && p in tree.nodes && tree.nodes[p].level < DEPTH
             && Mirrors(tree.owned, tree.nodes[p], v)
    requires i < |v.children|
    ensures var level := tree.nodes[p].level;
            F.LeafCountOfSlot(v, i, level) == |M.IdsUnder(tree.contents.Keys, Below(p, i), level + 1)|
    decreases v, 0
  {
    assert tree.Linked(p);
    var level, q, slot := tree.nodes[p].level, Below(p, i), v.children[i];
    if slot.None? {
      assert F.LeafCountOfSlot(v, i, level) == 0;
      tree.NobodyBelow(q, level + 1);
    } else if level < F.LEAF_DEPTH {
      assert F.LeafCountOfSlot(v, i, level) == F.LeafCount(slot.value, level + 1);
      assert tree.nodes[q].level == level + 1;
      ImageLeaves(tree, q, slot.value);
    } else {
      assert F.LeafCountOfSlot(v, i, level) == 1;
      tree.LeafIsOneId(q);
    }
  }

  /** The leaves that reading counts are as many as the ids that were inserted. */
  lemma ImageSize<T>(tree: M.IdTree<T>, v: F.Node<T>)
    requires tree.Valid() && Mirrors(tree.owned, tree.root, v)
    ensures F.LeafCount(v, 0) == |tree.contents|
  {
    assert tree.Linked(Root);
    ImageLeaves(tree, Root, v);
    assert M.IdsUnder(tree.contents.Keys, Root, 0) == tree.contents.Keys;
  }

  // ----- whether it can be read again

  /** The position q is p or below p. */
  predicate Within(q: Path, p: Path) {
    q == p || (q.Below? && Within(q.parent, p))
  }

  lemma {:induction false} WithinTrans(q: Path, d: Digit, p: Path)
    requires Within(q, Below(p, d))
    ensures Within(q, p)
  {
    if q != Below(p, d) {
      WithinTrans(q.parent, d, p);
    }
  }

  lemma {:induction false} WithinRoot(q: Path)
    ensures Within(q, Root)
  {
    if q.Below? {
      WithinRoot(q.parent);
    }
  }

  /** On the way from p to a node below it there is a child of p. */
  lemma {:induction false} StepTowards<T>(tree: M.IdTree<T>, q: Path, p: Path) returns (d: Digit)
    requires tree.Shape() && q in tree.nodes && Within(q, p) && q != p
    ensures Below(p, d) in tree.nodes && Within(q, Below(p, d))
    decreases q
  {
    if q.parent == p {
      d := q.digit;
    } else {
      assert M.HasParent(tree.nodes, q);
      d := StepTowards(tree, q.parent, p);
    }
  }

  /** All data that reading assigns at or below p can be assigned. */
  ghost predicate ChildlessAssignable<T>(tree: M.IdTree<T>, layout: F.Layout<T>, p: Path)
    reads tree, tree.owned
    requires tree.Shape()
  {
    forall q {:trigger Within(q, p)} | q in tree.nodes && Within(q, p) :: AssignableAt(tree, layout, q)
  }

  ghost predicate AssignableAt<T>(tree: M.IdTree<T>, layout: F.Layout<T>, q: Path)
    reads tree, tree.owned
    requires tree.Shape() && q in tree.nodes
  {
    assert tree.Linked(q);
    tree.nodes[q].children == [] ==> layout.data.assignable(tree.nodes[q].data)
  }

  lemma {:induction false} ImageReloadable<T>(tree: M.IdTree<T>, layout: F.Layout<T>, p: Path, v: F.Node<T>)
    requires tree.Shape() && p in tree.nodes && Mirrors(tree.owned, tree.nodes[p], v)
    ensures F.Reloadable(layout, v) <==> ChildlessAssignable(tree, layout, p)
    decreases v
  {
    assert tree.Linked(p);
    forall i | 0 <= i < |v.children| && v.children[i].Some?
      ensures F.Reloadable(layout, v.children[i].value) <==> ChildlessAssignable(tree, layout, Below(p, i))
    {
      ImageReloadable(tree, layout, Below(p, i), v.children[i].value);
    }
    if F.Reloadable(layout, v) {
      forall q | q in tree.nodes && Within(q, p)
        ensures AssignableAt(tree, layout, q)
      {
        if q != p {
          var d := StepTowards(tree, q, p);
          assert v.children[d].Some?;
        }
      }
    }
    if ChildlessAssignable(tree, layout, p) {
      ChildrenAssignable(tree, layout, p);
      assert Within(p, p) && AssignableAt(tree, layout, p);
    }
  }

  lemma ChildrenAssignable<T>(tree: M.IdTree<T>, layout: F.Layout<T>, p: Path)
    requires tree.Shape() && ChildlessAssignable(tree, layout, p)
    ensures forall d: Digit :: ChildlessAssignable(tree, layout, Below(p, d))
  {
    forall d: Digit, q | q in tree.nodes && Within(q, Below(p, d))
      ensures AssignableAt(tree, layout, q)
    {
      WithinTrans(q, d, p);
    }
  }

  lemma {:induction false} LevelIsLength<T>(tree: M.IdTree<T>, p: Path)
    requires tree.Shape() && p in tree.nodes
    ensures tree.nodes[p].level == Length(p)
    decreases p
  {
    if p != Root {
      assert M.HasParent(tree.nodes, p);
      LevelIsLength(tree, p.parent);
      assert tree.Linked(p.parent);
    }
  }

  lemma {:induction false} ZerosLength(k: nat)
    ensures Length(M.Zeros(k)) == k
  {
    if k > 0 {
      ZerosLength(k - 1);
    }
  }

  /** Below the end of the recorded path every node leads on to the leaf of some id. */
  lemma {:induction false} LeafBelow<T>(tree: M.IdTree<T>, p: Path) returns (id: Id)
    requires tree.Shape() && tree.Labels() && M.Busy(tree.nodes, M.LastZero()) && p in tree.nodes
             && Length(p) >= ZERO_PATH_DEPTH
    ensures id in tree.contents && Within(Digits(id, DEPTH), p)
    decreases DEPTH - tree.nodes[p].level
  {
    LevelIsLength(tree, p);
    assert tree.Linked(p);
    if tree.nodes[p].level == DEPTH {
      assert tree.Labelled(p);
      id := tree.nodes[p].id;
    } else {
      ZerosLength(ZERO_PATH_DEPTH - 1);
      assert M.HasChild(tree.nodes, p);
      var d: Digit :| Below(p, d) in tree.nodes;
      id := LeafBelow(tree, Below(p, d));
      WithinTrans(Digits(id, DEPTH), d, p);
    }
  }

  lemma {:induction false} DigitsWithin(id: Id, k: nat, p: Path)
    requires Within(Digits(id, k), p)
    ensures Length(p) <= k && p == Digits(id, Length(p))
  {
    DigitsLength(id, k);
    if Digits(id, k) != p {
      DigitsWithin(id, k - 1, p);
    }
  }

  /** The id is less than two to the power of 36. */
  predicate Small(id: Id) {
    id.bits as nat < 0x10_0000_0000
  }

  /** That is so if and only if its digits lead through the whole recorded path. */
  lemma SmallIds(id: Id)
    ensures Small(id) <==> Digits(id, ZERO_PATH_DEPTH - 1) == M.LastZero()
  {
    FirstDigits(id, ZERO_PATH_DEPTH - 1);
    NoQuotient(id.bits as nat, Number(Digits(id, ZERO_PATH_DEPTH - 1)));
    ZerosLength(ZERO_PATH_DEPTH - 1);
    DigitsLength(id, ZERO_PATH_DEPTH - 1);
    NothingButZeros(Digits(id, ZERO_PATH_DEPTH - 1), ZERO_PATH_DEPTH - 1);
  }

  lemma NoQuotient(n: nat, number: nat)
    requires number == n / Sixteens(DEPTH - (ZERO_PATH_DEPTH - 1))
    ensures number == 0 <==> n < 0x10_0000_0000
  {
    assert Sixteens(4) == 0x1_0000 && Sixteens(8) == 0x1_0000_0000;
    assert Sixteens(DEPTH - (ZERO_PATH_DEPTH - 1)) == 0x10_0000_0000;
  }

  /** Of all positions of a length only the one along zeros has the number zero. */
  lemma {:induction false} NothingButZeros(p: Path, k: nat)
    requires Length(p) == k
    ensures Number(p) == 0 <==> p == M.Zeros(k)
  {
    if k > 0 {
      NothingButZeros(p.parent, k - 1);
    }
  }

  /** The end of the recorded path has a child exactly when a small id was inserted. */
  lemma EndHasChild<T>(tree: M.IdTree<T>)
    requires tree.Valid()
    ensures M.HasChild(tree.nodes, M.LastZero()) <==> exists id :: id in tree.contents && Small(id)
  {
    ZerosLength(ZERO_PATH_DEPTH - 1);
    if M.HasChild(tree.nodes, M.LastZero()) {
      var d: Digit :| Below(M.LastZero(), d) in tree.nodes;
      var id := LeafBelow(tree, Below(M.LastZero(), d));
      DigitsWithin(id, DEPTH, Below(M.LastZero(), d));
      SmallIds(id);
    }
    if id :| id in tree.contents && Small(id) {
      SmallIds(id);
      assert tree.Stored(id);
      if Digits(id, ZERO_PATH_DEPTH) !in tree.nodes {
        tree.AbsentBelow(id, ZERO_PATH_DEPTH, DEPTH);
        assert false;
      }
      assert Digits(id, ZERO_PATH_DEPTH) == Below(M.LastZero(), DigitAt(id.bits, ZERO_PATH_DEPTH - 1));
    }
  }

  /** What the data of a tree must be like for the tree to be read again. */
  ghost predicate Loadable<T>(tree: M.IdTree<T>, layout: F.Layout<T>)
    reads tree
  {
    && (forall id | id in tree.contents :: layout.data.assignable(tree.contents[id]))
    && (layout.data.assignable(tree.blank) || exists id :: id in tree.contents && Small(id))
  }

  lemma LeafChildless<T>(tree: M.IdTree<T>, layout: F.Layout<T>, id: Id)
    requires tree.Valid() && id in tree.contents && ChildlessAssignable(tree, layout, Root)
    ensures layout.data.assignable(tree.contents[id])
  {
    assert tree.Stored(id);
    var p := Digits(id, DEPTH);
    assert tree.Linked(p);
    WithinRoot(p);
    assert AssignableAt(tree, layout, p);
  }

  lemma EndChildless<T>(tree: M.IdTree<T>, layout: F.Layout<T>)
    requires tree.Valid() && ChildlessAssignable(tree, layout, Root) && !M.HasChild(tree.nodes, M.LastZero())
    ensures layout.data.assignable(tree.blank)
  {
    var p := M.LastZero();
    var end := tree.zeroPath[ZERO_PATH_DEPTH - 1];
    assert tree.Linked(p) && tree.PlainAt(p);
    LevelIsLength(tree, p);
    ZerosLength(ZERO_PATH_DEPTH - 1);
    WithinRoot(p);
    assert AssignableAt(tree, layout, p);
  }

  /**
   * A tree can be read again exactly when all data can be assigned, and blank data too unless a small id was inserted.
   */
  lemma RootAssignable<T>(tree: M.IdTree<T>, layout: F.Layout<T>)
    requires tree.Valid()
    ensures ChildlessAssignable(tree, layout, Root) <==> Loadable(tree, layout)
  {
    EndHasChild(tree);
    if ChildlessAssignable(tree, layout, Root) {
      forall id | id in tree.contents
        ensures layout.data.assignable(tree.contents[id])
      {
        LeafChildless(tree, layout, id);
      }
      if !M.HasChild(tree.nodes, M.LastZero()) {
        EndChildless(tree, layout);
      }
    }
    if Loadable(tree, layout) {
      forall q {:trigger Within(q, Root)} | q in tree.nodes && Within(q, Root)
        ensures AssignableAt(tree, layout, q)
      {
        assert tree.Linked(q);
        if tree.nodes[q].children == [] {
          ChildlessData(tree, q);
        }
      }
    }
  }

  // ----- looking up in what was read

  /** The node that the digits of an id lead to, from the k-th digit on. */
  function Lookup<T>(v: F.Node<T>, id: Id, k: nat): Option<F.Node<T>>
    decreases v
  {
    if k >= DEPTH then Some(v)
    else
      var d := DigitAt(id.bits, k);
      if d >= |v.children| || v.children[d].None? then None else Lookup(v.children[d].value, id, k + 1)
  }

  /** Exactly the inserted ids are found, with their data and their counters. */
  lemma {:induction false} ImageLookup<T>(tree: M.IdTree<T>, id: Id, k: nat, v: F.Node<T>)
    requires tree.Shape() && tree.Labels() && k <= DEPTH && Digits(id, k) in tree.nodes
             && Mirrors(tree.owned, tree.nodes[Digits(id, k)], v)
    ensures var found := Lookup(v, id, k);
            if id in tree.contents then
              found.Some? && found.value.id == id && found.value.data == tree.contents[id] && id in tree.counts
                  && found.value.counter == tree.counts[id]
            else found.None?
    decreases v
  {
    assert tree.Linked(Digits(id, k));
    tree.LevelOf(id, k);
    if k == DEPTH {
      tree.LeafOf(id);
      assert tree.Stored(id);
    } else if Digits(id, k + 1) in tree.nodes {
      ImageLookup(tree, id, k + 1, v.children[DigitAt(id.bits, k)].value);
    } else {
      tree.AbsentBelow(id, k + 1, DEPTH);
      tree.LeafOf(id);
    }
  }

  // ----- saving and loading a tree

  /** Write the number of ids and the nodes. */
  method Save<T>(tree: M.IdTree<T>, layout: F.Layout<T>, output: OutputStream) returns (ghost v: F.Node<T>)
    requires tree.Valid() && |tree.contents| < Limit(8)
    modifies output, tree`size
    ensures tree.Valid() && Mirrors(tree.owned, tree.root, v)
    ensures output.written == old(output.written) + F.PutTree(layout, F.Tree(|tree.contents|, v))
  {
    v := Image(tree, Root);
    ImageSize(tree, v);
    ghost var before := output.written;
    var s := tree.Size();
    output.Write(Encoded(s, 8));
    WriteNode(layout, tree.root, output, tree.owned, v);
    Regroup(before, Encoded(s, 8), F.Put(layout, v));
  }

  /**
   * A reachable tree, written and read: either the program stops, or there is a tree of the same size in which exactly
   * the inserted ids are found, with their data and counters; and exactly what follows the tree is left.
   */
  lemma SavedTreeLoads<T(!new)>(tree: M.IdTree<T>, layout: F.Layout<T>, v: F.Node<T>, tail: seq<Byte>)
    requires tree.Valid() && |tree.contents| < Limit(8) && Mirrors(tree.owned, tree.root, v)
    requires F.Sound(layout) && Matches(tree, layout)
    ensures F.TakeTree(layout, F.PutTree(layout, F.Tree(|tree.contents|, v)) + tail) ==
            if Loadable(tree, layout) then Read(F.Tree(|tree.contents|, v), tail) else Fatal
    ensures forall id :: var found := Lookup(v, id, 0);
              if id in tree.contents then
                found.Some? && found.value.data == tree.contents[id] && id in tree.counts
                    && found.value.counter == tree.counts[id]
              else found.None?
  {
    ImageSize(tree, v);
    ImageStorable(tree, layout, Root, v);
    ImageReloadable(tree, layout, Root, v);
    RootAssignable(tree, layout);
    F.TreeRoundTrip(layout, F.Tree(|tree.contents|, v), tail);
    forall id
      ensures var found := Lookup(v, id, 0);
        if id in tree.contents then
          found.Some? && found.value.data == tree.contents[id] && id in tree.counts
              && found.value.counter == tree.counts[id]
        else found.None?
    {
      ImageLookup(tree, id, 0, v);
    }
  }

  // ----- the trees of the program

  function NumberOf(id: Id): U64 {
    id.bits as nat
  }

  function IdOf(n: U64): Id {
    Id(n as Word)
  }

  lemma NumberBack(id: Id)
    ensures IdOf(NumberOf(id)) == id
  {
  }

  function PutId(id: Id): seq<Byte> {
    PutU64(NumberOf(id))
  }

  function TakeId(bytes: seq<Byte>): Reading<Id> {
    match TakeU64(bytes)
    case Fatal => Fatal
    case Read(n, rest) => Read(IdOf(n), rest)
  }

  lemma IdRoundTrip(id: Id, tail: seq<Byte>)
    ensures TakeId(PutId(id) + tail) == Read(id, tail)
  {
    U64RoundTrip(NumberOf(id), tail);
    NumberBack(id);
  }

  /** Ids as 64-bit numbers, and some data. */
  function InFile<T>(data: Codec<T>): F.Layout<T> {
    F.Layout(PutId, TakeId, data)
  }

  lemma InFileSound<T(!new)>(data: Codec<T>)
    requires Faithful(data)
    ensures F.Sound(InFile(data))
  {
    forall id, tail
      ensures TakeId(PutId(id) + tail) == Read(id, tail)
    {
      IdRoundTrip(id, tail);
    }
  }

  /** Trees over ways and over relations can be read again exactly when a small id was inserted. */
  lemma WaysLoadable(ways: M.IdTree<seq<U64>>, relations: M.IdTree<Relation>)
    requires ways.blank == WayCodec().blank && relations.blank == RelationCodec().blank
    requires forall id | id in ways.contents :: ways.contents[id] != []
    requires forall id | id in relations.contents :: relations.contents[id].members != []
    ensures Loadable(ways, InFile(WayCodec())) <==> exists id :: id in ways.contents && Small(id)
    ensures Loadable(relations, InFile(RelationCodec())) <==> exists id :: id in relations.contents && Small(id)
  {
  }

  /** Trees over data that can always be assigned, such as positions and names, can always be read again. */
  lemma AlwaysLoadable<T(!new)>(tree: M.IdTree<T>, data: Codec<T>)
    requires forall value :: data.assignable(value)
    ensures Loadable(tree, InFile(data))
  {
  }

  /** The tree over ways: each has nodes, as a way without any cannot be made, and their number is kept in 32 bits. */
  ghost predicate OverWays(tree: M.IdTree<seq<U64>>)
    reads tree, tree.cache, tree.owned
  {
    && tree.Valid() && tree.blank == [] && |tree.contents| < Limit(8)
    && forall id | id in tree.contents :: 0 < |tree.contents[id]| < Limit(4)
  }

  /** The file of the tree over ways is read back exactly when a small id was inserted; else the program stops. */
  lemma SavedWaysLoad(tree: M.IdTree<seq<U64>>, v: F.Node<seq<U64>>, tail: seq<Byte>)
    requires OverWays(tree) && Mirrors(tree.owned, tree.root, v)
    ensures var file := F.Tree(|tree.contents|, v);
            F.TakeTree(InFile(WayCodec()), F.PutTree(InFile(WayCodec()), file) + tail) ==
            if exists id :: id in tree.contents && Small(id) then Read(file, tail) else Fatal
  {
    InFileSound(WayCodec());
    SavedTreeLoads(tree, InFile(WayCodec()), v, tail);
  }

  /** The tree over relations: each has members, with one flag for each. */
  ghost predicate OverRelations(tree: M.IdTree<Relation>)
    reads tree, tree.cache, tree.owned
  {
    && tree.Valid() && tree.blank == Relation([], []) && |tree.contents| < Limit(8)
    && forall id | id in tree.contents :: 0 < |tree.contents[id].members| == |tree.contents[id].flags| < Limit(4)
  }

  lemma SavedRelationsLoad(tree: M.IdTree<Relation>, v: F.Node<Relation>, tail: seq<Byte>)
    requires OverRelations(tree) && Mirrors(tree.owned, tree.root, v)
    ensures var file := F.Tree(|tree.contents|, v);
            F.TakeTree(InFile(RelationCodec()), F.PutTree(InFile(RelationCodec()), file) + tail) ==
            if exists id :: id in tree.contents && Small(id) then Read(file, tail) else Fatal
  {
    InFileSound(RelationCodec());
    SavedTreeLoads(tree, InFile(RelationCodec()), v, tail);
  }

  /** The file of the tree over positions is always read back. */
  lemma SavedPositionsLoad(tree: M.IdTree<Position>, v: F.Node<Position>, tail: seq<Byte>)
    requires tree.Valid() && tree.blank == Position(0, 0) && |tree.contents| < Limit(8)
             && Mirrors(tree.owned, tree.root, v)
    ensures var file := F.Tree(|tree.contents|, v);
            F.TakeTree(InFile(PositionCodec()), F.PutTree(InFile(PositionCodec()), file) + tail) == Read(file, tail)
  {
    InFileSound(PositionCodec());
    AlwaysLoadable(tree, PositionCodec());
    SavedTreeLoads(tree, InFile(PositionCodec()), v, tail);
  }

  /** The file of a tree over names is always read back. */
  lemma SavedNamesLoad(tree: M.IdTree<seq<Byte>>, v: F.Node<seq<Byte>>, tail: seq<Byte>)
    requires tree.Valid() && tree.blank == [] && |tree.contents| < Limit(8) && Mirrors(tree.owned, tree.root, v)
    requires forall id | id in tree.contents :: |tree.contents[id]| < Limit(8)
    ensures var file := F.Tree(|tree.contents|, v);
            F.TakeTree(InFile(TextCodec()), F.PutTree(InFile(TextCodec()), file) + tail) == Read(file, tail)
  {
    InFileSound(TextCodec());
    AlwaysLoadable(tree, TextCodec());
    SavedTreeLoads(tree, InFile(TextCodec()), v, tail);
  }
}
