/**
 * Trees over ids brought back into memory: nodes made for what was read, and a path of leading zeros recorded again.
 */
module IdTreeLoading {
  import opened Ids
  import opened IdTreeFiles
  import opened Options
  import opened Payloads
  import opened Sequences
  import opened Streams
  import F = IdTreeFormat
  import M = IdTrees

  // ----- making nodes

  /** A node shows a value, as do the nodes below it, each at its place. */
  ghost predicate Placed<T>(owned: set<M.Node<T>>, n: M.Node<T>, v: F.Node<T>, p: Path)
    reads owned
    decreases v
  {
    && n in owned && n.path == p && n.level == Length(p)
    && n.id == v.id && n.counter == v.counter && n.data == v.data
    && |n.children| == |v.children| <= NUM_CHILDREN
    && forall i | 0 <= i < |v.children| ::
         if v.children[i].None? then n.children[i] == null
         else n.children[i] != null && Placed(owned, n.children[i], v.children[i].value, Below(p, i))
  }

  lemma {:induction false} PlacedAmongMore<T>(owned: set<M.Node<T>>, more: set<M.Node<T>>, n: M.Node<T>, v: F.Node<T>,
                                              p: Path)
    requires Placed(owned, n, v, p) && owned <= more
    ensures Placed(more, n, v, p)
    decreases v
  {
    forall i | 0 <= i < |v.children| && v.children[i].Some?
      ensures Placed(more, n.children[i], v.children[i].value, Below(p, i))
    {
      PlacedAmongMore(owned, more, n.children[i], v.children[i].value, Below(p, i));
    }
  }

  /** No node has more children than digits; that is so in every file that can be read. */
  ghost predicate Narrow<T>(v: F.Node<T>)
    decreases v
  {
    && |v.children| <= NUM_CHILDREN
    && forall i | 0 <= i < |v.children| && v.children[i].Some? :: Narrow(v.children[i].value)
  }

  /** Make the nodes for a value and for all that is below it. */
  method MakeNode<T>(v: F.Node<T>, ghost p: Path) returns (n: M.Node<T>, ghost owned: set<M.Node<T>>)
    requires Narrow(v)
    ensures fresh(owned) && Placed(owned, n, v, p)
    decreases v, 1
  {
    var slots, below := MakeSlots(v, p);
    n := new M.Node(v.data, p, Length(p));
    n.id := v.id;
    n.counter := v.counter;
    n.children := slots;
    owned := below + {n};
    forall i | 0 <= i < |v.children| && v.children[i].Some?
      ensures Placed(owned, n.children[i], v.children[i].value, Below(p, i))
    {
      PlacedAmongMore(below, owned, n.children[i], v.children[i].value, Below(p, i));
    }
  }

  /** The slots from the c-th on show those of a value. */
  ghost predicate SlotsPlaced<T>(owned: set<M.Node<T>>, slots: seq<M.Node?<T>>, v: F.Node<T>, p: Path, c: nat)
    reads owned
  {
    && c <= |v.children| <= NUM_CHILDREN && |slots| == |v.children| - c
    && forall i | c <= i < |v.children| ::
         if v.children[i].None? then slots[i - c] == null
         else slots[i - c] != null && Placed(owned, slots[i - c], v.children[i].value, Below(p, i))
  }

  /** Make the nodes for the slots of a value, the last of them first. */
  method MakeSlots<T>(v: F.Node<T>, ghost p: Path) returns (slots: seq<M.Node?<T>>, ghost owned: set<M.Node<T>>)
    requires Narrow(v)
    ensures fresh(owned) && SlotsPlaced(owned, slots, v, p, 0)
    decreases v, 0
  {
    slots, owned := [], {};
    for c := |v.children| downto 0
      invariant fresh(owned) && SlotsPlaced(owned, slots, v, p, c)
    {
      if v.children[c].None? {
        slots := [null] + slots;
      } else {
        var child, below := MakeNode(v.children[c].value, Below(p, c));
        OneMoreSlot(owned, below, slots, v, p, c, child);
        slots := [child] + slots;
        owned := owned + below;
      }
    }
  }

  lemma OneMoreSlot<T>(owned: set<M.Node<T>>, below: set<M.Node<T>>, slots: seq<M.Node?<T>>, v: F.Node<T>, p: Path,
                       c: nat, child: M.Node<T>)
    requires c < |v.children| && SlotsPlaced(owned, slots, v, p, c + 1)
    requires v.children[c].Some? && Placed(below, child, v.children[c].value, Below(p, c))
    ensures SlotsPlaced(owned + below, [child] + slots, v, p, c)
  {
    PlacedAmongMore(below, owned + below, child, v.children[c].value, Below(p, c));
    forall i | c < i < |v.children| && v.children[i].Some?
      ensures Placed(owned + below, slots[i - c - 1], v.children[i].value, Below(p, i))
    {
      PlacedAmongMore(owned, owned + below, slots[i - c - 1], v.children[i].value, Below(p, i));
    }
  }

  // ----- the same tree again

  /** The node that is reached from the root along a path. */
  ghost function Reached<T>(owned: set<M.Node<T>>, root: M.Node<T>, q: Path): M.Node<T>
    reads owned
  {
    if q == Root then root
    else
      var up := Reached(owned, root, q.parent);
      if up in owned && q.digit < |up.children| && up.children[q.digit] != null then up.children[q.digit] else root
  }

  /** At each position of the tree that was, there is a node that shows the same value. */
  lemma {:induction false} Twin<T>(was: M.IdTree<T>, owned: set<M.Node<T>>, root: M.Node<T>, v: F.Node<T>, q: Path)
    returns (w: F.Node<T>)
    requires was.Shape() && q in was.nodes && Mirrors(was.owned, was.root, v) && Placed(owned, root, v, Root)
    ensures Mirrors(was.owned, was.nodes[q], w) && Placed(owned, Reached(owned, root, q), w, q)
    decreases q
  {
    if q == Root {
      w := v;
    } else {
      assert M.HasParent(was.nodes, q);
      assert was.Linked(q.parent);
      var up := Twin(was, owned, root, v, q.parent);
      w := up.children[q.digit].value;
    }
  }

  /** The nodes that were made, by position. */
  ghost function Positions<T>(was: M.IdTree<T>, owned: set<M.Node<T>>, root: M.Node<T>): map<Path, M.Node<T>>
    reads was, owned
  {
    map q | q in was.nodes :: Reached(owned, root, q)
  }

  /** A node at its place agrees in everything with the one that was there. */
  ghost predicate Twins<T>(was: M.IdTree<T>, now: M.IdTree<T>, q: Path)
    reads was, was.owned, now, now.owned
  {
    && q in was.nodes && q in now.nodes && was.nodes[q] in was.owned && now.nodes[q] in now.owned
    && var a, b := was.nodes[q], now.nodes[q];
       && b.path == q && b.level == a.level && b.id == a.id && b.data == a.data && b.counter == a.counter
       && |b.children| == |a.children|
       && forall d: Digit | d < |b.children| ::
            b.children[d] ==
            if a.children[d] == null then null
            else if Below(q, d) in now.nodes then now.nodes[Below(q, d)]
            else null
  }

  ghost predicate AllTwins<T>(was: M.IdTree<T>, now: M.IdTree<T>)
    reads was, was.owned, now, now.owned
  {
    && now.nodes.Keys == was.nodes.Keys
    && forall q {:trigger Twins(was, now, q)} | q in now.nodes :: Twins(was, now, q)
  }

  lemma MadeTwins<T>(was: M.IdTree<T>, now: M.IdTree<T>, v: F.Node<T>)
    requires was.Shape() && Mirrors(was.owned, was.root, v) && Placed(now.owned, now.root, v, Root)
    requires now.nodes == Positions(was, now.owned, now.root)
    ensures AllTwins(was, now)
  {
    forall q {:trigger Twins(was, now, q)} | q in now.nodes
      ensures Twins(was, now, q)
    {
      var w := Twin(was, now.owned, now.root, v, q);
      LevelIsLength(was, q);
      assert was.Linked(q);
    }
  }

  lemma TwinShape<T>(was: M.IdTree<T>, now: M.IdTree<T>)
    requires was.Shape() && AllTwins(was, now) && now.nodes[Root] == now.root
    ensures now.Shape()
  {
    forall q | q in now.nodes
      ensures now.Linked(q)
    {
      assert was.Linked(q) && Twins(was, now, q);
      forall d: Digit | Below(q, d) in now.nodes
        ensures now.nodes[Below(q, d)].level == now.nodes[q].level + 1
      {
        assert Twins(was, now, Below(q, d));
      }
    }
    assert Twins(was, now, Root);
    forall q {:trigger M.HasParent(now.nodes, q)} | q in now.nodes
      ensures M.HasParent(now.nodes, q)
    {
      assert M.HasParent(was.nodes, q);
    }
  }

  lemma TwinLabels<T>(was: M.IdTree<T>, now: M.IdTree<T>)
    requires was.Shape() && was.Labels() && AllTwins(was, now) && now.contents == was.contents
             && now.counts == was.counts
    ensures now.Labels()
  {
    forall id {:trigger now.Stored(id)} | id in now.contents
      ensures now.Stored(id)
    {
      assert was.Stored(id) && Twins(was, now, Digits(id, DEPTH));
    }
    forall p {:trigger now.Labelled(p)} | p in now.nodes
      ensures now.Labelled(p)
    {
      assert was.Labelled(p) && Twins(was, now, p);
    }
  }

  lemma TwinRest<T>(was: M.IdTree<T>, now: M.IdTree<T>)
    requires was.Shape() && was.Plain() && was.EndSound() && M.Busy(was.nodes, M.LastZero()) && AllTwins(was, now)
             && now.blank == was.blank
    ensures now.Plain() && now.EndSound() && M.Busy(now.nodes, M.LastZero()) && M.Busy(now.nodes, Root)
  {
    forall p {:trigger now.PlainAt(p)} | p in now.nodes
      ensures now.PlainAt(p)
    {
      assert was.PlainAt(p) && Twins(was, now, p);
    }
    if M.LastZero() in now.nodes {
      assert Twins(was, now, M.LastZero());
      if M.HasChild(was.nodes, M.LastZero()) {
        var d: Digit :| Below(M.LastZero(), d) in was.nodes;
        assert Below(M.LastZero(), d) in now.nodes;
      }
    }
    forall p | p in now.nodes && p != M.LastZero() && now.nodes[p].level < DEPTH
      ensures M.HasChild(now.nodes, p)
    {
      assert Twins(was, now, p) && M.HasChild(was.nodes, p);
      var d: Digit :| Below(p, d) in was.nodes;
      assert Below(p, d) in now.nodes;
    }
  }

  lemma {:induction false} ImageNarrow<T>(was: M.IdTree<T>, p: Path, v: F.Node<T>)
    requires was.Shape() && p in was.nodes && Mirrors(was.owned, was.nodes[p], v)
    ensures Narrow(v)
    decreases v
  {
    assert was.Linked(p);
    forall i | 0 <= i < |v.children| && v.children[i].Some?
      ensures Narrow(v.children[i].value)
    {
      ImageNarrow(was, Below(p, i), v.children[i].value);
    }
  }

  // ----- loading

  lemma TwinSound<T>(was: M.IdTree<T>, now: M.IdTree<T>, v: F.Node<T>)
    requires was.Valid() && Mirrors(was.owned, was.root, v) && Placed(now.owned, now.root, v, Root)
    requires now.nodes == Positions(was, now.owned, now.root) && now.contents == was.contents
             && now.counts == was.counts
    requires now.blank == was.blank
    ensures now.Shape() && now.Labels() && now.Plain() && now.EndSound() && M.Busy(now.nodes, Root)
  {
    MadeTwins(was, now, v);
    assert Reached(now.owned, now.root, Root) == now.root;
    TwinShape(was, now);
    TwinLabels(was, now);
    TwinRest(was, now);
  }

  /** Nodes for the value of a tree that was saved, in a tree that has no recorded path yet. */
  method MakeTree<T>(v: F.Node<T>, blank: T, ghost was: M.IdTree<T>) returns (tree: M.IdTree<T>)
    requires was.Valid() && Mirrors(was.owned, was.root, v) && blank == was.blank
    ensures fresh(tree) && fresh(tree.owned) && fresh(tree.cache) && tree.blank == blank
    ensures tree.Shape() && tree.Labels() && tree.Plain() && tree.EndSound() && M.Busy(tree.nodes, Root)
            && tree.Cached()
    ensures tree.contents == was.contents && tree.counts == was.counts && tree.size == 0 && tree.zeroPath == []
  {
    ImageNarrow(was, Root, v);
    var root, owned := MakeNode(v, Root);
    tree := new M.IdTree.Around(blank, root, owned, Positions(was, owned, root), was.contents, was.counts);
    TwinSound(was, tree, v);
  }

  /** Record the path of leading zeros of a tree that has been loaded. */
  method RecordPath<T>(tree: M.IdTree<T>)
    requires tree.Shape() && tree.Labels() && tree.Plain() && tree.EndSound() && M.Busy(tree.nodes, Root)
             && tree.Cached()
    requires tree.counts.Keys == tree.contents.Keys && tree.size == |tree.contents| && tree.zeroPath == []
    modifies tree`nodes, tree`owned, tree`zeroPath, tree.owned`children
    ensures tree.Valid() && fresh(tree.owned - old(tree.owned))
  {
    tree.BuildZeroPath();
    forall id {:trigger tree.Stored(id)} | id in tree.contents
      ensures tree.Stored(id)
    {
      assert old(tree.Stored(id));
    }
    forall p {:trigger tree.Labelled(p)} | p in tree.nodes
      ensures tree.Labelled(p)
    {
      assert p in old(tree.nodes) ==> old(tree.Labelled(p));
      assert p !in old(tree.nodes) && p != Root ==> tree.nodes[p].level < DEPTH;
    }
  }

  /** What the size and the nodes in a file are read as. */
  lemma PartsRead<T(!new)>(was: M.IdTree<T>, layout: F.Layout<T>, v: F.Node<T>, tail: seq<Byte>)
    requires was.Valid() && |was.contents| < Limit(8) && Mirrors(was.owned, was.root, v)
    requires F.Sound(layout) && Matches(was, layout)
    ensures var file, nodes := F.PutTree(layout, F.Tree(|was.contents|, v)) + tail, F.Put(layout, v) + tail;
            && 8 <= |file| && file[8..] == nodes && Decoded(file[..8]) == |was.contents|
            && F.Take(layout, nodes) == if Loadable(was, layout) then Read(v, tail) else Fatal
  {
    ImageSize(was, v);
    ImageStorable(was, layout, Root, v);
    ImageReloadable(was, layout, Root, v);
    RootAssignable(was, layout);
    F.RoundTrip(layout, v, tail);
    var size, nodes := Encoded(|was.contents|, 8), F.Put(layout, v) + tail;
    Regroup(size, F.Put(layout, v), tail);
    NumberRoundTrip(|was.contents|, 8);
    assert (size + nodes)[..8] == size && (size + nodes)[8..] == nodes;
  }

  /** Read the size and the nodes. */
  method ReadParts<T(==)>(layout: F.Layout<T>, input: InputStream) returns (parts: Option<F.Tree<T>>)
    requires layout.Consuming()
    modifies input
    ensures var file := old(input.rest);
            if |file| < 8 then parts == None
            else
              match F.Take(layout, file[8..])
              case Fatal => parts == None
              case Read(root, rest) => parts == Some(F.Tree(Decoded(file[..8]), root)) && input.rest == rest
  {
    var s := input.Read(8);
    if s == None {
      return None;
    }
    var root := F.ReadNode(layout, input);
    if root == None {
      return None;
    }
    parts := Some(F.Tree(Decoded(s.value), root.value));
  }

  /**
   * Read a tree from its file: the program stops exactly when not all data can be assigned, and otherwise there is a
   * tree in memory, with everything that every reachable tree has, in which the same ids are stored with the same data
   * and counters; and exactly what follows the tree is left in the file.
   */
  method Load<T(==,!new)>(layout: F.Layout<T>, input: InputStream, ghost was: M.IdTree<T>, ghost v: F.Node<T>,
                          ghost tail: seq<Byte>)
    returns (tree: Option<M.IdTree<T>>)
    requires was.Valid() && |was.contents| < Limit(8) && Mirrors(was.owned, was.root, v)
    requires F.Sound(layout) && Matches(was, layout)
    requires input.rest == F.PutTree(layout, F.Tree(|was.contents|, v)) + tail
    modifies input
    ensures tree.Some? <==> Loadable(was, layout)
    ensures tree.Some? ==> fresh(tree.value) && tree.value.Valid() && tree.value.blank == was.blank
    ensures tree.Some? ==> tree.value.contents == was.contents && tree.value.counts == was.counts && input.rest == tail
  {
    PartsRead(was, layout, v, tail);
    var parts := ReadParts(layout, input);
    if parts == None {
      return None;
    }
    var t := Admit(parts.value, layout.data.blank, was);
    tree := Some(t);
  }

  /** Make the tree, compare its size with the recorded one, and record the path of leading zeros. */
  method Admit<T>(parts: F.Tree<T>, blank: T, ghost was: M.IdTree<T>) returns (tree: M.IdTree<T>)
    requires was.Valid() && Mirrors(was.owned, was.root, parts.root) && parts.size == |was.contents|
             && blank == was.blank
    ensures fresh(tree) && tree.Valid() && tree.blank == blank
    ensures tree.contents == was.contents && tree.counts == was.counts
  {
    tree := MakeTree(parts.root, blank, was);
    var counted := tree.Size();
    if parts.size != counted {
      assert false;
    }
    RecordPath(tree);
  }
}
