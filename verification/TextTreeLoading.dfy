/** Trees over encoded texts brought back into memory: nodes made for what was read. */
module TextTreeLoading {
  import opened Options
  import opened Payloads
  import opened Streams
  import opened SwedishText
  import opened TextTreeFiles
  import F = TextTreeFormat
  import M = TextTrees

  // ----- making nodes

  /** A node shows a value, as do the nodes below it, each at its place. */
  ghost predicate Placed<T>(owned: set<M.Node<T>>, n: M.Node<T>, v: F.TextNode<seq<T>>, p: M.Place)
    reads owned
    decreases v
  {
    && n in owned && n.place == p && n.level == M.Depth(p) && n.elements == v.elements
    && |n.children| == |v.children| <= NUM_CODES
    && forall i | 0 <= i < |v.children| ::
         if v.children[i].None? then n.children[i] == null
         else n.children[i] != null && Placed(owned, n.children[i], v.children[i].value, M.Under(p, i))
  }

  lemma {:induction false} PlacedAmongMore<T>(owned: set<M.Node<T>>, more: set<M.Node<T>>, n: M.Node<T>,
                                              v: F.TextNode<seq<T>>, p: M.Place)
    requires Placed(owned, n, v, p) && owned <= more
    ensures Placed(more, n, v, p)
    decreases v
  {
    forall i | 0 <= i < |v.children| && v.children[i].Some?
      ensures Placed(more, n.children[i], v.children[i].value, M.Under(p, i))
    {
      PlacedAmongMore(owned, more, n.children[i], v.children[i].value, M.Under(p, i));
    }
  }

  /** No node has more children than codes; that is so in every file that can be read. */
  ghost predicate Narrow<T>(v: F.TextNode<seq<T>>)
    decreases v
  {
    |v.children| <= NUM_CODES && forall i | 0 <= i < |v.children| && v.children[i].Some? :: Narrow(v.children[i].value)
  }

  /** Make the nodes for a value and for all that is below it. */
  method MakeNode<T>(v: F.TextNode<seq<T>>, ghost p: M.Place) returns (n: M.Node<T>, ghost owned: set<M.Node<T>>)
    requires Narrow(v)
    ensures fresh(owned) && Placed(owned, n, v, p)
    decreases v, 1
  {
    var slots, below := MakeSlots(v, p);
    n := new M.Node(p, M.Depth(p));
    n.children := slots;
    n.elements := v.elements;
    owned := below + {n};
    forall i | 0 <= i < |v.children| && v.children[i].Some?
      ensures Placed(owned, n.children[i], v.children[i].value, M.Under(p, i))
    {
      PlacedAmongMore(below, owned, n.children[i], v.children[i].value, M.Under(p, i));
    }
  }

  /** The first c slots show those of a value. */
  ghost predicate SlotsPlaced<T>(owned: set<M.Node<T>>, slots: seq<M.Node?<T>>, v: F.TextNode<seq<T>>, p: M.Place,
                                 c: nat)
    reads owned
  {
    && |slots| == c <= |v.children| <= NUM_CODES
    && forall i | 0 <= i < c ::
         if v.children[i].None? then slots[i] == null
         else slots[i] != null && Placed(owned, slots[i], v.children[i].value, M.Under(p, i))
  }

  /** Make the nodes for the slots of a value, the first of them first. */
  method MakeSlots<T>(v: F.TextNode<seq<T>>, ghost p: M.Place)
    returns (slots: seq<M.Node?<T>>, ghost owned: set<M.Node<T>>)
    requires Narrow(v)
    ensures fresh(owned) && SlotsPlaced(owned, slots, v, p, |v.children|)
    decreases v, 0
  {
    slots, owned := [], {};
    for c := 0 to |v.children|
      invariant fresh(owned) && SlotsPlaced(owned, slots, v, p, c)
    {
      if v.children[c].None? {
        slots := slots + [null];
      } else {
        var child, below := MakeNode(v.children[c].value, M.Under(p, c));
        OneMoreSlot(owned, below, slots, v, p, c, child);
        slots := slots + [child];
        owned := owned + below;
      }
    }
  }

  lemma OneMoreSlot<T>(owned: set<M.Node<T>>, below: set<M.Node<T>>, slots: seq<M.Node?<T>>, v: F.TextNode<seq<T>>,
                       p: M.Place,
                       c: nat, child: M.Node<T>)
    requires c < |v.children| && SlotsPlaced(owned, slots, v, p, c)
    requires v.children[c].Some? && Placed(below, child, v.children[c].value, M.Under(p, c))
    ensures SlotsPlaced(owned + below, slots + [child], v, p, c + 1)
  {
    PlacedAmongMore(below, owned + below, child, v.children[c].value, M.Under(p, c));
    forall i | 0 <= i < c && v.children[i].Some?
      ensures Placed(owned + below, slots[i], v.children[i].value, M.Under(p, i))
    {
      PlacedAmongMore(owned, owned + below, slots[i], v.children[i].value, M.Under(p, i));
    }
  }

  // ----- the same tree again

  /** The node that is reached from the root along a place. */
  ghost function Reached<T>(owned: set<M.Node<T>>, root: M.Node<T>, q: M.Place): M.Node<T>
    reads owned
  {
    if q == M.Top then root
    else
      var up := Reached(owned, root, q.parent);
      if up in owned && q.code < |up.children| && up.children[q.code] != null then up.children[q.code] else root
  }

  /** At each place of the tree that was, there is a node that shows the same value. */
  lemma {:induction false} Twin<T>(was: M.SwedishTextTree<T>, owned: set<M.Node<T>>, root: M.Node<T>,
                                   v: F.TextNode<seq<T>>, q: M.Place)
    returns (w: F.TextNode<seq<T>>)
    requires was.Shape() && q in was.nodes && Mirrors(was.owned, was.root, v) && Placed(owned, root, v, M.Top)
    ensures Mirrors(was.owned, was.nodes[q], w) && Placed(owned, Reached(owned, root, q), w, q)
    decreases q
  {
    if q == M.Top {
      w := v;
    } else {
      assert M.HasParent(was.nodes, q);
      assert was.Linked(q.parent);
      var up := Twin(was, owned, root, v, q.parent);
      w := up.children[q.code].value;
    }
  }

  lemma {:induction false} LevelIsDepth<T>(was: M.SwedishTextTree<T>, q: M.Place)
    requires was.Shape() && q in was.nodes
    ensures was.nodes[q].level == M.Depth(q)
    decreases q
  {
    if q != M.Top {
      assert M.HasParent(was.nodes, q);
      LevelIsDepth(was, q.parent);
      assert was.Linked(q.parent);
    }
  }

  /** The nodes that were made, by place. */
  ghost function Places<T>(was: M.SwedishTextTree<T>, owned: set<M.Node<T>>, root: M.Node<T>): map<M.Place, M.Node<T>>
    reads was, owned
  {
    map q | q in was.nodes :: Reached(owned, root, q)
  }

  /** A node at its place agrees in everything with the one that was there. */
  ghost predicate Twins<T>(was: M.SwedishTextTree<T>, now: M.SwedishTextTree<T>, q: M.Place)
    reads was, was.owned, now, now.owned
  {
    && q in was.nodes && q in now.nodes && was.nodes[q] in was.owned && now.nodes[q] in now.owned
    && var a, b := was.nodes[q], now.nodes[q];
       && b.place == q && b.level == a.level && b.elements == a.elements && |b.children| == |a.children|
       && forall c: Code | c < |b.children| ::
            b.children[c] ==
            if a.children[c] == null then null
            else if M.Under(q, c) in now.nodes then now.nodes[M.Under(q, c)]
            else null
  }

  ghost predicate AllTwins<T>(was: M.SwedishTextTree<T>, now: M.SwedishTextTree<T>)
    reads was, was.owned, now, now.owned
  {
    && now.nodes.Keys == was.nodes.Keys
    && forall q {:trigger Twins(was, now, q)} | q in now.nodes :: Twins(was, now, q)
  }

  lemma MadeTwins<T>(was: M.SwedishTextTree<T>, now: M.SwedishTextTree<T>, v: F.TextNode<seq<T>>)
    requires was.Shape() && Mirrors(was.owned, was.root, v) && Placed(now.owned, now.root, v, M.Top)
    requires now.nodes == Places(was, now.owned, now.root)
    ensures AllTwins(was, now)
  {
    forall q {:trigger Twins(was, now, q)} | q in now.nodes
      ensures Twins(was, now, q)
    {
      var w := Twin(was, now.owned, now.root, v, q);
      LevelIsDepth(was, q);
      assert was.Linked(q);
    }
  }

  lemma TwinShape<T>(was: M.SwedishTextTree<T>, now: M.SwedishTextTree<T>)
    requires was.Shape() && AllTwins(was, now) && M.Top in now.nodes && now.nodes[M.Top] == now.root
             && now.deepest == was.deepest
    ensures now.Shape()
  {
    forall q | q in now.nodes
      ensures now.Linked(q)
    {
      assert was.Linked(q) && Twins(was, now, q);
      forall c: Code | M.Under(q, c) in now.nodes
        ensures now.nodes[M.Under(q, c)].level == now.nodes[q].level + 1
      {
        assert Twins(was, now, M.Under(q, c));
      }
    }
    assert Twins(was, now, M.Top);
    forall q {:trigger M.HasParent(now.nodes, q)} | q in now.nodes
      ensures M.HasParent(now.nodes, q)
    {
      assert M.HasParent(was.nodes, q);
    }
  }

  lemma TwinKept<T>(was: M.SwedishTextTree<T>, now: M.SwedishTextTree<T>)
    requires was.Kept() && AllTwins(was, now) && now.log == was.log
    ensures now.Kept()
  {
    forall p {:trigger now.Filled(p)} | p in now.nodes
      ensures now.Filled(p)
    {
      assert was.Filled(p) && Twins(was, now, p);
    }
  }

  lemma TwinSound<T>(was: M.SwedishTextTree<T>, now: M.SwedishTextTree<T>, v: F.TextNode<seq<T>>)
    requires was.Valid() && Mirrors(was.owned, was.root, v) && Placed(now.owned, now.root, v, M.Top)
    requires now.nodes == Places(was, now.owned, now.root) && now.log == was.log && now.deepest == was.deepest
    ensures now.Valid()
  {
    MadeTwins(was, now, v);
    assert Reached(now.owned, now.root, M.Top) == now.root;
    TwinShape(was, now);
    TwinKept(was, now);
  }

  lemma {:induction false} ImageNarrow<T>(was: M.SwedishTextTree<T>, p: M.Place, v: F.TextNode<seq<T>>)
    requires was.Shape() && p in was.nodes && Mirrors(was.owned, was.nodes[p], v)
    ensures Narrow(v)
    decreases v
  {
    assert was.Linked(p);
    forall i | 0 <= i < |v.children| && v.children[i].Some?
      ensures Narrow(v.children[i].value)
    {
      ImageNarrow(was, M.Under(p, i), v.children[i].value);
    }
  }

  // ----- loading

  /** Nodes for the value of a tree that was saved. */
  method MakeTree<T>(v: F.TextNode<seq<T>>, ghost was: M.SwedishTextTree<T>) returns (tree: M.SwedishTextTree<T>)
    requires was.Valid() && Mirrors(was.owned, was.root, v)
    ensures fresh(tree) && fresh(tree.owned) && tree.Valid() && tree.log == was.log && tree.size == 0
  {
    ImageNarrow(was, M.Top, v);
    var root, owned := MakeNode(v, M.Top);
    tree := new M.SwedishTextTree.Around(root, owned, Places(was, owned, root), was.deepest, was.log);
    TwinSound(was, tree, v);
  }

  /**
   * Read a tree from its file: there is a tree in memory, with everything that every reachable tree has, in which the
   * same elements are stored at the same places in the same order; and exactly what follows the tree is left in the
   * file.
   */
  method Load<T(==,!new)>(codec: Codec<seq<T>>, input: InputStream, ghost was: M.SwedishTextTree<T>,
                          ghost v: F.TextNode<seq<T>>,
                          ghost tail: seq<Byte>)
    returns (tree: M.SwedishTextTree<T>)
    requires was.Valid() && Mirrors(was.owned, was.root, v) && Faithful(codec)
    requires forall q :: codec.fits(M.Bucket(was.log, q))
    requires input.rest == F.Put(codec, v) + tail
    modifies input
    ensures fresh(tree) && fresh(tree.owned) && tree.Valid() && tree.log == was.log && input.rest == tail
  {
    SavedTreeLoads(was, codec, v, tail);
    var root := F.ReadNode(codec, input);
    if root == None {
      assert false;
    }
    tree := MakeTree(root.value, was);
  }
}
