/** Trees over encoded texts as they are in memory, and what is written of them. */
module TextTreeFiles {
  import opened Options
  import opened Payloads
  import opened Sequences
  import opened Streams
  import opened SwedishText
  import F = TextTreeFormat
  import M = TextTrees

  /** A value shows a node in memory and all that is below it. */
  ghost predicate Mirrors<T>(owned: set<M.Node<T>>, n: M.Node<T>, v: F.TextNode<seq<T>>)
    reads owned
    decreases v
  {
    && n in owned && v.elements == n.elements && |v.children| == |n.children|
    && forall i | 0 <= i < |v.children| ::
         if v.children[i].None? then n.children[i] == null
         else n.children[i] != null && Mirrors(owned, n.children[i], v.children[i].value)
  }

  // ----- writing

  method WriteNode<T>(codec: Codec<seq<T>>, n: M.Node<T>, output: OutputStream, ghost owned: set<M.Node<T>>,
                      ghost v: F.TextNode<seq<T>>)
    requires Mirrors(owned, n, v)
    modifies output
    ensures output.written == old(output.written) + F.Put(codec, v)
    decreases v, 2
  {
    if n.children == [] {
      output.Write([F.NO_CHILDREN]);
    } else {
      output.Write([F.CHILDREN]);
      WriteSlots(codec, n, output, owned, v);
    }
    assert output.written == old(output.written) + F.PutChildren(codec, v);
    output.Write(codec.put(n.elements));
    Regroup(old(output.written), F.PutChildren(codec, v), codec.put(v.elements));
  }

  method WriteSlots<T>(codec: Codec<seq<T>>, n: M.Node<T>, output: OutputStream, ghost owned: set<M.Node<T>>,
                       ghost v: F.TextNode<seq<T>>)
    requires Mirrors(owned, n, v)
    modifies output
    ensures output.written == old(output.written) + F.PutSlots(codec, v, |v.children|)
    decreases v, 1
  {
    for i := 0 to |n.children|
      invariant output.written + F.PutSlots(codec, v, |v.children| - i)
                == old(output.written) + F.PutSlots(codec, v, |v.children|)
    {
      ghost var before := output.written;
      var child := n.children[i];
      if child == null {
        output.Write([F.NO_CHILD]);
      } else {
        output.Write([F.CHILD]);
        WriteNode(codec, child, output, owned, v.children[i].value);
      }
      assert output.written == before + F.PutSlot(codec, v, i);
      Regroup(before, F.PutSlot(codec, v, i), F.PutSlots(codec, v, |v.children| - i - 1));
    }
  }

  // ----- the value of a tree

  /** There is such a value for every node of a tree. */
  lemma {:induction false} Image<T>(tree: M.SwedishTextTree<T>, p: M.Place) returns (v: F.TextNode<seq<T>>)
    requires tree.Shape() && p in tree.nodes
    ensures Mirrors(tree.owned, tree.nodes[p], v)
    decreases tree.deepest - tree.nodes[p].level, NUM_CODES + 1
  {
    assert tree.Linked(p);
    var children := ImagesBelow(tree, p, |tree.nodes[p].children|);
    v := F.TextNode(children, tree.nodes[p].elements);
  }

  lemma {:induction false} ImagesBelow<T>(tree: M.SwedishTextTree<T>, p: M.Place, c: nat)
    returns (slots: seq<Option<F.TextNode<seq<T>>>>)
    requires tree.Shape() && p in tree.nodes && c <= |tree.nodes[p].children|
    ensures |slots| == c
    ensures forall i | 0 <= i < c ::
              if slots[i].None? then tree.nodes[p].children[i] == null
              else tree.nodes[p].children[i] != null && Mirrors(tree.owned, tree.nodes[p].children[i], slots[i].value)
    decreases tree.deepest - tree.nodes[p].level, c
  {
    assert tree.Linked(p);
    if c == 0 {
      slots := [];
    } else {
      slots := ImagesBelow(tree, p, c - 1);
      if tree.nodes[p].children[c - 1] == null {
        slots := slots + [None];
      } else {
        assert tree.Linked(M.Under(p, c - 1));
        var child := Image(tree, M.Under(p, c - 1));
        slots := slots + [Some(child)];
      }
    }
  }

  lemma {:induction false} ImageStorable<T(!new)>(tree: M.SwedishTextTree<T>, codec: Codec<seq<T>>, p: M.Place,
                                                  v: F.TextNode<seq<T>>)
    requires tree.Valid() && p in tree.nodes && Mirrors(tree.owned, tree.nodes[p], v)
    requires forall q :: codec.fits(M.Bucket(tree.log, q))
    ensures F.Storable(codec, v)
    decreases v
  {
    assert tree.Linked(p) && tree.Filled(p);
    forall i | 0 <= i < |v.children| && v.children[i].Some?
      ensures F.Storable(codec, v.children[i].value)
    {
      ImageStorable(tree, codec, M.Under(p, i), v.children[i].value);
    }
  }

  // ----- looking up in what was read

  /** The elements that some codes lead to, from the k-th code on. */
  function Lookup<T>(v: F.TextNode<seq<T>>, code: seq<Code>, k: nat): seq<T>
    requires k <= |code|
    decreases v
  {
    if k == |code| then v.elements
    else if code[k] >= |v.children| || v.children[code[k]].None? then []
    else Lookup(v.children[code[k]].value, code, k + 1)
  }

  lemma {:induction false} ImageLookup<T>(tree: M.SwedishTextTree<T>, code: seq<Code>, k: nat, v: F.TextNode<seq<T>>)
    requires tree.Valid() && k <= |code| && M.PlaceAt(code, k) in tree.nodes
             && Mirrors(tree.owned, tree.nodes[M.PlaceAt(code, k)], v)
    ensures Lookup(v, code, k) == M.Bucket(tree.log, M.PlaceOf(code))
    decreases v
  {
    assert tree.Linked(M.PlaceAt(code, k));
    if k == |code| {
      assert tree.Filled(M.PlaceOf(code));
    } else if M.PlaceAt(code, k + 1) in tree.nodes {
      ImageLookup(tree, code, k + 1, v.children[code[k]].value);
    } else {
      tree.AbsentBelow(code, k + 1, |code|);
      tree.NothingStored(M.PlaceOf(code));
    }
  }

  // ----- saving and loading a tree

  method Save<T>(tree: M.SwedishTextTree<T>, codec: Codec<seq<T>>, output: OutputStream)
    returns (ghost v: F.TextNode<seq<T>>)
    requires tree.Valid()
    modifies output
    ensures Mirrors(tree.owned, tree.root, v) && output.written == old(output.written) + F.Put(codec, v)
  {
    v := Image(tree, M.Top);
    WriteNode(codec, tree.root, output, tree.owned, v);
  }

  /**
   * A tree, written and read, gives for every text the elements that the tree gives; and exactly what follows the tree
   * is left.
   */
  lemma SavedTreeLoads<T(!new)>(tree: M.SwedishTextTree<T>, codec: Codec<seq<T>>, v: F.TextNode<seq<T>>,
                                tail: seq<Byte>)
    requires tree.Valid() && Mirrors(tree.owned, tree.root, v) && Faithful(codec)
    requires forall q :: codec.fits(M.Bucket(tree.log, q))
    ensures F.Take(codec, F.Put(codec, v) + tail) == Read(v, tail)
    ensures forall text :: Lookup(v, CodeWord(text), 0) == M.Bucket(tree.log, M.PlaceOf(CodeWord(text)))
  {
    ImageStorable(tree, codec, M.Top, v);
    F.RoundTrip(codec, v, tail);
    forall text
      ensures Lookup(v, CodeWord(text), 0) == M.Bucket(tree.log, M.PlaceOf(CodeWord(text)))
    {
      ImageLookup(tree, CodeWord(text), 0, v);
    }
  }

  // ----- the tree of the program

  lemma {:induction false} BucketLength<T>(log: seq<M.Entry<T>>, p: M.Place)
    ensures |M.Bucket(log, p)| <= |log|
  {
    if log != [] {
      BucketLength(log[..|log| - 1], p);
    }
  }

  /**
   * The file of the tree over names and elements is always read back, and what it gives answers every text as before.
   */
  lemma SavedElementsLoad(tree: M.SwedishTextTree<Element>, v: F.TextNode<seq<Element>>, text: seq<Byte>,
                          tail: seq<Byte>)
    requires tree.Valid() && |tree.log| < Limit(8) && Mirrors(tree.owned, tree.root, v)
    ensures F.Take(ElementsCodec(), F.Put(ElementsCodec(), v) + tail) == Read(v, tail)
    ensures Lookup(v, CodeWord(text), 0) == M.Bucket(tree.log, M.PlaceOf(CodeWord(text)))
  {
    forall q
      ensures ElementsCodec().fits(M.Bucket(tree.log, q))
    {
      BucketLength(tree.log, q);
    }
    SavedTreeLoads(tree, ElementsCodec(), v, tail);
  }
}
