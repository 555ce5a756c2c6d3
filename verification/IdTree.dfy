/** The 16-ary radix tree over 64-bit ids, with its path of leading zeros and its cache. */
module IdTrees {
  import opened Counters
  import opened Ids
  import opened Options

  class Node<T> {
    var children: seq<Node?<T>>  // none at all, or one slot per digit
    var id: Id
    var data: T
    var counter: Count
    ghost const path: Path  // where in the tree the node was put
    ghost const level: nat  // how far below the root that is

    constructor (blank: T, ghost path: Path, ghost level: nat)
      ensures children == [] && id == NO_ID && data == blank && counter == 0 && this.path == path && this.level == level
    {
      children := [];
      id := NO_ID;
      data := blank;
      counter := 0;
      this.path := path;
      this.level := level;
    }
  }

  datatype CacheLine<T> = CacheLine(id: Id, data: T)

  /** The position reached by following child 0 k times. */
  function Zeros(k: nat): Path {
    if k == 0 then Root else Below(Zeros(k - 1), 0)
  }

  /** The recorded nodes are the ones reached by child 0 alone. */
  ghost predicate AlongZeros<T>(nodes: map<Path, Node<T>>, recorded: seq<Node<T>>) {
    forall k {:trigger recorded[k]} | 0 <= k < |recorded| :: Zeros(k) in nodes && recorded[k] == nodes[Zeros(k)]
  }

  lemma AlongZerosExtended<T>(nodes: map<Path, Node<T>>, recorded: seq<Node<T>>)
    requires AlongZeros(nodes, recorded) && Zeros(|recorded|) in nodes
    ensures AlongZeros(nodes, recorded + [nodes[Zeros(|recorded|)]])
  {
    var longer := recorded + [nodes[Zeros(|recorded|)]];
    forall k | 0 <= k < |longer|
      ensures Zeros(k) in nodes && longer[k] == nodes[Zeros(k)]
    {
      assert k < |recorded| ==> longer[k] == recorded[k];
    }
  }

  lemma AlongZerosKept<T>(nodes: map<Path, Node<T>>, after: map<Path, Node<T>>, recorded: seq<Node<T>>)
    requires AlongZeros(nodes, recorded) && forall p | p in nodes :: p in after && after[p] == nodes[p]
    ensures AlongZeros(after, recorded)
  {
    forall k | 0 <= k < |recorded|
      ensures Zeros(k) in after && recorded[k] == after[Zeros(k)]
    {
      var node := recorded[k];
    }
  }

  /** The positions on the way down along the digits of an id. */
  ghost predicate IsWay(id: Id, way: seq<Path>) {
    |way| == DEPTH + 1 && forall k {:trigger Digits(id, k)} | 0 <= k <= DEPTH :: way[k] == Digits(id, k)
  }

  lemma WayOf(id: Id) returns (way: seq<Path>)
    ensures IsWay(id, way) && way[0] == Root && way[DEPTH] == Digits(id, DEPTH)
  {
    way := seq(DEPTH + 1, k requires 0 <= k => Digits(id, k));
    assert way[0] == Digits(id, 0);
  }

  /** Cut the next digit off a working id; it leads to the next position. */
  method TakeStep(ghost id: Id, ghost way: seq<Path>, ghost k: nat, workingId: Word) returns (digit: Digit, rest: Word)
    requires IsWay(id, way) && k < DEPTH && workingId == Shifted(id.bits, k)
    ensures rest == Shifted(id.bits, k + 1) && way[k + 1] == Below(way[k], digit)
    ensures way[k + 1] == way[DEPTH] <==> k + 1 == DEPTH
  {
    digit, rest := TakeDigit(id.bits, k, workingId);
    DigitsLength(id, k + 1);
    DigitsLength(id, DEPTH);
    assert Digits(id, k + 1) == Below(Digits(id, k), digit);
  }

  /** The nodes met on the way down along the digits of an id. */
  ghost predicate AlongDigits<T>(nodes: map<Path, Node<T>>, id: Id, met: seq<Node<T>>) {
    forall k {:trigger met[k]} | 0 <= k < |met| :: Digits(id, k) in nodes && met[k] == nodes[Digits(id, k)]
  }

  /** The same by position. */
  ghost predicate AlongWay<T>(nodes: map<Path, Node<T>>, way: seq<Path>, met: seq<Node<T>>)
    requires |met| <= |way|
  {
    forall k {:trigger met[k]} | 0 <= k < |met| :: way[k] in nodes && met[k] == nodes[way[k]]
  }

  lemma AlongWayIsAlongDigits<T>(nodes: map<Path, Node<T>>, id: Id, way: seq<Path>, met: seq<Node<T>>)
    requires IsWay(id, way) && |met| <= DEPTH
    ensures AlongWay(nodes, way, met) <==> AlongDigits(nodes, id, met)
  {
    forall k | 0 <= k < |met| && AlongWay(nodes, way, met)
      ensures Digits(id, k) in nodes && met[k] == nodes[Digits(id, k)]
    {
      var node := met[k];
      assert way[k] == Digits(id, k) && way[k] in nodes;
    }
    forall k | 0 <= k < |met| && AlongDigits(nodes, id, met)
      ensures way[k] in nodes && met[k] == nodes[way[k]]
    {
      var node := met[k];
      assert way[k] == Digits(id, k);
    }
  }

  lemma AlongWayExtended<T>(nodes: map<Path, Node<T>>, way: seq<Path>, met: seq<Node<T>>)
    requires |met| < |way| && AlongWay(nodes, way, met) && way[|met|] in nodes
    ensures AlongWay(nodes, way, met + [nodes[way[|met|]]])
  {
    var longer := met + [nodes[way[|met|]]];
    forall k | 0 <= k < |longer|
      ensures way[k] in nodes && longer[k] == nodes[way[k]]
    {
      assert k < |met| ==> longer[k] == met[k];
    }
  }

  /** An id whose first s digits are hidden zeros starts along the recorded path. */
  lemma {:induction false} ZerosAreDigits(id: Id, s: nat, k: nat)
    requires k <= s && 1 <= s <= ZERO_PATH_DEPTH && Hides(id.bits, s)
    ensures Digits(id, k) == Zeros(k)
  {
    if k > 0 {
      ZerosAreDigits(id, s, k - 1);
      MaskedDigitsZero(id.bits, s, k - 1);
    }
  }

  lemma ZerosAlongDigits<T>(nodes: map<Path, Node<T>>, id: Id, s: nat, recorded: seq<Node<T>>)
    requires AlongZeros(nodes, recorded) && 1 <= s < |recorded| <= ZERO_PATH_DEPTH && Hides(id.bits, s)
    ensures AlongDigits(nodes, id, recorded[..s]) && Digits(id, s) in nodes && recorded[s] == nodes[Digits(id, s)]
  {
    ZerosAreDigits(id, s, s);
    var last := recorded[s];
    forall k | 0 <= k < s
      ensures Digits(id, k) in nodes && recorded[..s][k] == nodes[Digits(id, k)]
    {
      ZerosAreDigits(id, s, k);
      var node := recorded[k];
    }
  }

  /** The ids whose first k digits lead to p. */
  ghost function IdsUnder(ids: set<Id>, p: Path, k: nat): set<Id> {
    set id | id in ids && Digits(id, k) == p
  }

  /** Those of them whose next digit is below i. */
  ghost function IdsBranching(ids: set<Id>, p: Path, k: nat, i: nat): set<Id> {
    set id | id in ids && Digits(id, k) == p && DigitAt(id.bits, k) < i
  }

  lemma OneMoreBranch(ids: set<Id>, p: Path, k: nat, i: Digit, j: nat)
    requires j == i + 1
    ensures |IdsBranching(ids, p, k, j)| == |IdsBranching(ids, p, k, i)| + |IdsUnder(ids, Below(p, i), k + 1)|
  {
    var a, b := IdsBranching(ids, p, k, i), IdsUnder(ids, Below(p, i), k + 1);
    assert IdsBranching(ids, p, k, j) == a + b;
    assert a !! b;
  }

  lemma AllBranches(ids: set<Id>, p: Path, k: nat)
    ensures IdsBranching(ids, p, k, 0) == {}
    ensures IdsBranching(ids, p, k, NUM_CHILDREN) == IdsUnder(ids, p, k)
  {
  }

  /** The ids below the first c children of a position, counted child by child. */
  ghost function CountBelow(ids: set<Id>, p: Path, k: nat, c: nat): nat
    requires c <= NUM_CHILDREN
  {
    if c == 0 then 0 else CountBelow(ids, p, k, c - 1) + |IdsUnder(ids, Below(p, c - 1), k + 1)|
  }

  lemma {:induction false} CountBelowIsBranching(ids: set<Id>, p: Path, k: nat, c: nat)
    requires c <= NUM_CHILDREN
    ensures CountBelow(ids, p, k, c) == |IdsBranching(ids, p, k, c)|
  {
    if c == 0 {
      AllBranches(ids, p, k);
    } else {
      var i := c - 1;
      CountBelowIsBranching(ids, p, k, i);
      OneMoreBranch(ids, p, k, i, c);
    }
  }

  lemma CountBelowAll(ids: set<Id>, p: Path, k: nat)
    ensures CountBelow(ids, p, k, NUM_CHILDREN) == |IdsUnder(ids, p, k)|
  {
    CountBelowIsBranching(ids, p, k, NUM_CHILDREN);
    AllBranches(ids, p, k);
  }

  ghost predicate HasParent<T>(nodes: map<Path, Node<T>>, p: Path) {
    p.Below? ==> p.parent in nodes
  }

  ghost predicate HasChild<T>(nodes: map<Path, Node<T>>, p: Path) {
    exists d: Digit :: Below(p, d) in nodes
  }

  /** The end of the recorded path, which may be a node without children above the full depth. */
  function LastZero(): Path {
    Zeros(ZERO_PATH_DEPTH - 1)
  }

  /** Only there, and at one more position, an inner node may be without children. */
  ghost predicate Busy<T>(nodes: map<Path, Node<T>>, q: Path) {
    forall p {:trigger HasChild(nodes, p)} | p in nodes && p != q && p != LastZero() && nodes[p].level < DEPTH ::
      HasChild(nodes, p)
  }

  lemma BusyBelow<T>(nodes: map<Path, Node<T>>, after: map<Path, Node<T>>, p: Path, d: Digit)
    requires Busy(nodes, p) && Below(p, d) in after
    requires after == nodes || after == nodes[Below(p, d) := after[Below(p, d)]]
    ensures Busy(after, Below(p, d))
  {
    forall q | q in after && q != Below(p, d) && q != LastZero() && after[q].level < DEPTH
      ensures HasChild(after, q)
    {
      if q != p {
        assert HasChild(nodes, q);
        var e: Digit :| Below(q, e) in nodes;
        assert Below(q, e) in after;
      }
    }
  }

  /** From some nodes to others: nodes may have been added, a leaf only at the given position. */
  ghost predicate Grown<T>(nodes: map<Path, Node<T>>, owned: set<Node<T>>, after: map<Path, Node<T>>,
                           more: set<Node<T>>, target: Path) {
    && owned <= more
    && (forall p | p in nodes :: p in after && after[p] == nodes[p])
    && forall p | p in after && p !in nodes ::
         after[p] in more && after[p] !in owned && (after[p].level < DEPTH || p == target)
  }

  lemma GrownTwice<T>(a: map<Path, Node<T>>, x: set<Node<T>>, b: map<Path, Node<T>>, y: set<Node<T>>,
                      c: map<Path, Node<T>>, z: set<Node<T>>, target: Path)
    requires Grown(a, x, b, y, target) && Grown(b, y, c, z, target)
    ensures Grown(a, x, c, z, target)
  {
    forall p | p in c && p !in a
      ensures c[p] in z && c[p] !in x && (c[p].level < DEPTH || p == target)
    {
      assert p in b ==> c[p] == b[p];
    }
  }

  class IdTree<T> {
    const blank: T
    var root: Node<T>
    var size: nat
    var zeroPath: seq<Node<T>>
    const cache: array<CacheLine<T>>

    ghost var nodes: map<Path, Node<T>>     // all nodes, by position
    ghost var owned: set<Node<T>>           // the same without the positions
    ghost var contents: map<Id, T>          // what has been inserted
    ghost var counts: map<Id, Count>         // and how often that was counted since

    // ----- invariant

    /** The node at p knows its place, and its children mirror the positions below p. */
    ghost predicate Linked(p: Path)
      requires p in nodes
      reads this`nodes, this`owned, owned`children
    {
      var n := nodes[p];
      && n in owned && n.path == p
      && n.level <= DEPTH
      && (if n.children == []
          then forall d: Digit :: Below(p, d) !in nodes
          else && n.level < DEPTH
               && |n.children| == NUM_CHILDREN
               && forall d: Digit :: n.children[d] == if Below(p, d) in nodes then nodes[Below(p, d)] else null)
      && forall d: Digit | Below(p, d) in nodes :: nodes[Below(p, d)].level == n.level + 1
    }

    ghost predicate Shape()
      reads this`root, this`nodes, this`owned, owned`children
    {
      && Root in nodes && nodes[Root] == root && root.level == 0
      && (forall p | p in nodes :: Linked(p))
      && (forall p {:trigger HasParent(nodes, p)} | p in nodes :: HasParent(nodes, p))
    }

    /** The leaf of an inserted id is where its digits lead, and holds its data and its counter. */
    ghost predicate Stored(id: Id)
      requires id in contents
      reads this`nodes, this`owned, this`contents, this`counts, owned`id, owned`data, owned`counter
    {
      var p := Digits(id, DEPTH);
      && id != NO_ID && id in counts && p in nodes && nodes[p] in owned && nodes[p].level == DEPTH
      && nodes[p].id == id && nodes[p].data == contents[id] && nodes[p].counter == counts[id]
    }

    /** A node at full depth belongs to an inserted id. */
    ghost predicate Labelled(p: Path)
      requires p in nodes
      reads this`nodes, this`owned, this`contents, owned`id
    {
      nodes[p].level == DEPTH ==> nodes[p] in owned && nodes[p].id in contents && Digits(nodes[p].id, DEPTH) == p
    }

    ghost predicate Labels()
      reads this`nodes, this`owned, this`contents, this`counts, owned`id, owned`data, owned`counter
    {
      && (forall id {:trigger Stored(id)} | id in contents :: Stored(id))
      && (forall p {:trigger Labelled(p)} | p in nodes :: Labelled(p))
    }

    /** Every used cache line repeats what was inserted. */
    ghost predicate Cached()
      reads this`contents, cache
    {
      && cache.Length == CACHE_SIZE
      && forall i | 0 <= i < CACHE_SIZE && cache[i].id != NO_ID ::
           cache[i].id in contents && cache[i].data == contents[cache[i].id]
    }

    /** A node above full depth was never counted and holds nothing. */
    ghost predicate PlainAt(p: Path)
      requires p in nodes
      reads this`nodes, this`owned, owned`data, owned`counter
    {
      nodes[p] in owned && (nodes[p].level < DEPTH ==> nodes[p].data == blank && nodes[p].counter == 0)
    }

    ghost predicate Plain()
      reads this`nodes, this`owned, owned`data, owned`counter
    {
      forall p {:trigger PlainAt(p)} | p in nodes :: PlainAt(p)
    }

    /** If the end of the recorded path has slots for children, it has a child. */
    ghost predicate EndSound()
      reads this`nodes, this`owned, owned`children
    {
      LastZero() in nodes && nodes[LastZero()] in owned && nodes[LastZero()].children != [] ==>
        HasChild(nodes, LastZero())
    }

    ghost predicate Valid()
      reads this, cache, owned
    {
      Shape() && Labels() && Plain() && Busy(nodes, LastZero()) && EndSound() && Cached()
          && |zeroPath| == ZERO_PATH_DEPTH && AlongZeros(nodes, zeroPath)
      && counts.Keys == contents.Keys && size == |contents|
    }

    lemma {:induction false} LevelOf(id: Id, k: nat)
      requires Shape() && Digits(id, k) in nodes
      ensures nodes[Digits(id, k)].level == k
    {
      if k > 0 {
        assert HasParent(nodes, Digits(id, k));
        LevelOf(id, k - 1);
        assert Linked(Digits(id, k - 1));
      }
    }

    /** An id has a leaf exactly when it was inserted. */
    lemma LeafOf(id: Id)
      requires Shape() && Labels()
      ensures Digits(id, DEPTH) in nodes <==> id in contents
    {
      if id in contents {
        assert Stored(id);
      } else if Digits(id, DEPTH) in nodes {
        LevelOf(id, DEPTH);
        assert Labelled(Digits(id, DEPTH));
        DigitsInjective(nodes[Digits(id, DEPTH)].id, id);
      }
    }

    // ----- construction

    constructor (blank: T)
      ensures Valid() && contents == map[] && counts == map[] && fresh(cache) && fresh(owned)
    {
      this.blank := blank;
      var r := new Node(blank, Root, 0);
      root := r;
      size := 0;
      zeroPath := [];
      cache := new CacheLine<T>[CACHE_SIZE](_ => CacheLine(NO_ID, blank));
      nodes := map[Root := r];
      contents := map[];
      counts := map[];
      owned := {r};
      new;
      Plant(r);
    }

    /** A tree around nodes that are there already, with its size unknown and without a recorded path. */
    constructor Around(blank: T, root: Node<T>, ghost owned: set<Node<T>>, ghost nodes: map<Path, Node<T>>,
                       ghost contents: map<Id, T>, ghost counts: map<Id, Count>)
      ensures this.blank == blank && this.root == root && this.owned == owned && this.nodes == nodes
      ensures this.contents == contents && this.counts == counts && zeroPath == [] && size == 0 && Cached()
              && fresh(cache)
    {
      this.blank := blank;
      this.root := root;
      size := 0;
      zeroPath := [];
      cache := new CacheLine<T>[CACHE_SIZE](_ => CacheLine(NO_ID, blank));
      this.owned := owned;
      this.nodes := nodes;
      this.contents := contents;
      this.counts := counts;
    }

    /** Go from a mere root to a valid empty tree. */
    method Plant(r: Node<T>)
      requires root == r && nodes == map[Root := r] && owned == {r} && zeroPath == []
      requires r.children == [] && r.path == Root && r.level == 0 && r.data == blank && r.counter == 0
      requires contents == map[] && counts == map[] && size == 0 && Cached()
      modifies this`nodes, this`owned, this`zeroPath, r`children
      ensures Valid() && fresh(owned - {r})
    {
      assert Linked(Root) && PlainAt(Root) && HasParent(nodes, Root);
      BuildZeroPath();
      EmptyIsValid(r);
    }

    /** Only leaves need labels, and none is there yet. */
    lemma EmptyIsValid(r: Node<T>)
      requires Shape() && Plain() && EndSound() && Busy(nodes, LastZero()) && Cached()
               && |zeroPath| == ZERO_PATH_DEPTH && AlongZeros(nodes, zeroPath)
      requires Grown(map[Root := r], {r}, nodes, owned, Root) && r.level == 0 && contents == map[] && counts == map[]
               && size == 0
      ensures Valid()
    {
      forall p {:trigger Labelled(p)} | p in nodes
        ensures Labelled(p)
      {
        assert nodes[p].level < DEPTH;
      }
    }

    /** Remember the node reached so far and, except after the last one, go on to its child 0. */
    method ExtendZeroPath(cur: Node<T>, s: nat) returns (next: Node<T>)
      requires s < ZERO_PATH_DEPTH
      requires Shape() && AlongZeros(nodes, zeroPath) && |zeroPath| == s
      requires Zeros(s) in nodes && cur == nodes[Zeros(s)] && cur.level == s && Busy(nodes, Zeros(s)) && Plain()
               && EndSound()
      modifies this`nodes, this`owned, this`zeroPath, cur`children
      ensures Shape() && Plain() && EndSound() && AlongZeros(nodes, zeroPath) && |zeroPath| == s + 1
      ensures Busy(nodes, if s < ZERO_PATH_DEPTH - 1 then Zeros(s + 1) else LastZero())
      ensures s < ZERO_PATH_DEPTH - 1 ==> Zeros(s + 1) in nodes && next == nodes[Zeros(s + 1)] && next.level == s + 1
      ensures Grown(old(nodes), old(owned), nodes, owned, Root) && fresh(owned - old(owned))
    {
      AlongZerosExtended(nodes, zeroPath);
      zeroPath := zeroPath + [cur];
      if s >= ZERO_PATH_DEPTH - 1 {
        return cur;
      }
      ghost var before := nodes;
      next := EnsureChild(cur, Zeros(s), 0);
      AlongZerosKept(before, nodes, zeroPath);
      BusyBelow(before, nodes, Zeros(s), 0);
    }

    /** Create the nodes reached by child 0 alone, down to the recorded depth, and remember them. */
    method BuildZeroPath()
      requires Shape() && Plain() && EndSound() && zeroPath == [] && Busy(nodes, Root)
      modifies this`nodes, this`owned, this`zeroPath, owned`children
      ensures Shape() && Plain() && EndSound() && AlongZeros(nodes, zeroPath) && |zeroPath| == ZERO_PATH_DEPTH
              && Busy(nodes, LastZero())
      ensures Grown(old(nodes), old(owned), nodes, owned, Root) && fresh(owned - old(owned))
    {
      var cur := root;
      for s := 0 to ZERO_PATH_DEPTH
        invariant Shape() && Plain() && EndSound() && AlongZeros(nodes, zeroPath) && |zeroPath| == s
        invariant s < ZERO_PATH_DEPTH ==> Zeros(s) in nodes && cur == nodes[Zeros(s)] && cur.level == s
        invariant Busy(nodes, if s < ZERO_PATH_DEPTH then Zeros(s) else LastZero())
        invariant Grown(old(nodes), old(owned), nodes, owned, Root) && fresh(owned - old(owned))
      {
        assert Linked(Zeros(s));
        ghost var before, known := nodes, owned;
        cur := ExtendZeroPath(cur, s);
        GrownTwice(old(nodes), old(owned), before, known, nodes, owned, Root);
      }
    }

    // ----- growing the tree

    /** The child of a node for a digit, which is created where it is absent. */
    method EnsureChild(cur: Node<T>, ghost p: Path, d: Digit) returns (next: Node<T>)
      requires Shape() && Plain() && EndSound() && p in nodes && nodes[p] == cur && cur.level < DEPTH
      modifies cur`children, this`nodes, this`owned
      ensures fresh(owned - old(owned)) && old(owned) <= owned
      ensures Shape() && Plain() && EndSound() && Below(p, d) in nodes && nodes[Below(p, d)] == next
              && next.level == cur.level + 1
      ensures Below(p, d) in old(nodes) ==> nodes == old(nodes)
      ensures Below(p, d) !in old(nodes) ==>
                && nodes == old(nodes)[Below(p, d) := next]
                && fresh(next) && next.level == cur.level + 1
                && next.id == NO_ID && next.data == blank && next.counter == 0
    {
      if cur.children == [] || cur.children[d] == null {
        next := AddChild(cur, p, d);
      } else {
        next := cur.children[d];
        assert Linked(p) && Below(p, d) in nodes;
      }
      forall q {:trigger PlainAt(q)} | q in nodes
        ensures PlainAt(q)
      {
        assert q in old(nodes) ==> old(PlainAt(q));
      }
      if p == LastZero() {
        assert HasChild(nodes, p);
      } else if LastZero() in old(nodes) {
        assert old(Linked(LastZero())) && old(Linked(p));
        if HasChild(old(nodes), LastZero()) {
          var e: Digit :| Below(LastZero(), e) in old(nodes);
          assert Below(LastZero(), e) in nodes;
        }
      }
    }

    /** Create the child of a node for a digit, and the slots for all children where there are none yet. */
    method AddChild(cur: Node<T>, ghost p: Path, d: Digit) returns (next: Node<T>)
      requires Shape() && p in nodes && nodes[p] == cur && cur.level < DEPTH
      requires cur.children == [] || (|cur.children| == NUM_CHILDREN && cur.children[d] == null)
      modifies cur`children, this`nodes, this`owned
      ensures Shape() && Below(p, d) !in old(nodes) && nodes == old(nodes)[Below(p, d) := next]
      ensures fresh(next) && owned == old(owned) + {next} && next.children == [] && next.level == cur.level + 1
              && next.id == NO_ID && next.data == blank && next.counter == 0
    {
      assert Linked(p);
      next := new Node(blank, Below(p, d), cur.level + 1);
      forall e: Digit
        ensures Below(Below(p, d), e) !in nodes
      {
        assert HasParent(nodes, Below(Below(p, d), e)) || Below(Below(p, d), e) !in nodes;
      }
      if cur.children == [] {
        cur.children := seq(NUM_CHILDREN, _ => null);
      }
      cur.children := cur.children[d := next];
      nodes := nodes[Below(p, d) := next];
      owned := owned + {next};
      forall q | q in nodes
        ensures Linked(q)
      {
        if q != Below(p, d) {
          assert old(Linked(q));
        }
      }
      forall q {:trigger HasParent(nodes, q)} | q in nodes
        ensures HasParent(nodes, q)
      {
        assert q != Below(p, d) ==> HasParent(old(nodes), q);
      }
    }

    // ----- insertion

    /** One step down, creating the child where it is missing; only the last step leads to the target. */
    method StepDown(cur: Node<T>, digit: Digit, ghost p: Path, ghost target: Path, ghost nodes0: map<Path, Node<T>>,
                    ghost owned0: set<Node<T>>)
      returns (next: Node<T>)
      requires Grown(nodes0, owned0, nodes, owned, target)
      requires Shape() && p in nodes && cur == nodes[p] && cur.level < DEPTH && target !in nodes
      requires Busy(nodes, p) && Plain() && EndSound() && (Below(p, digit) == target <==> cur.level + 1 == DEPTH)
      modifies this`nodes, this`owned, cur`children
      ensures Shape() && Below(p, digit) in nodes && next == nodes[Below(p, digit)] && next.level == cur.level + 1
      ensures Grown(nodes0, owned0, nodes, owned, target) && fresh(owned - old(owned))
      ensures Busy(nodes, Below(p, digit)) && Plain() && EndSound()
      ensures if next.level < DEPTH then target !in nodes else next.counter == 0
    {
      next := EnsureChild(cur, p, digit);
      BusyBelow(old(nodes), nodes, p, digit);
      GrownTwice(nodes0, owned0, old(nodes), old(owned), nodes, owned, target);
    }

    /** Walk down along the digits of the id, creating what is missing. The leaf must not exist yet. */
    method DescendOrCreate(id: Id) returns (cur: Node<T>)
      requires Shape() && Plain() && EndSound() && Digits(id, DEPTH) !in nodes && Busy(nodes, LastZero())
      modifies this`nodes, this`owned, owned`children
      ensures Shape() && Digits(id, DEPTH) in nodes && cur == nodes[Digits(id, DEPTH)] && cur.level == DEPTH
      ensures Grown(old(nodes), old(owned), nodes, owned, Digits(id, DEPTH)) && fresh(owned - old(owned))
      ensures Busy(nodes, LastZero()) && Plain() && EndSound() && cur.counter == 0
    {
      ghost var way := WayOf(id);
      cur := Descend(id, way);
    }

    /** Take the next digit, and the step it stands for. */
    method StepOn(cur: Node<T>, workingId: Word, ghost id: Id, ghost way: seq<Path>, ghost k: nat,
                  ghost nodes0: map<Path, Node<T>>, ghost owned0: set<Node<T>>)
      returns (next: Node<T>, rest: Word)
      requires IsWay(id, way) && k < DEPTH && workingId == Shifted(id.bits, k)
      requires Shape() && way[k] in nodes && cur == nodes[way[k]] && cur.level == k && way[DEPTH] !in nodes
      requires Busy(nodes, way[k]) && Plain() && EndSound() && Grown(nodes0, owned0, nodes, owned, way[DEPTH])
      modifies this`nodes, this`owned, cur`children
      ensures Shape() && way[k + 1] in nodes && next == nodes[way[k + 1]] && next.level == k + 1
      ensures Busy(nodes, way[k + 1]) && Plain() && EndSound() && Grown(nodes0, owned0, nodes, owned, way[DEPTH])
      ensures fresh(owned - old(owned)) && rest == Shifted(id.bits, k + 1)
      ensures if k + 1 < DEPTH then way[DEPTH] !in nodes else next.counter == 0
    {
      var lowerBits;
      lowerBits, rest := TakeStep(id, way, k, workingId);
      next := StepDown(cur, lowerBits, way[k], way[DEPTH], nodes0, owned0);
    }

    method Descend(id: Id, ghost way: seq<Path>) returns (cur: Node<T>)
      requires IsWay(id, way) && way[0] == Root
      requires Shape() && Plain() && EndSound() && way[DEPTH] !in nodes && Busy(nodes, LastZero())
      modifies this`nodes, this`owned, owned`children
      ensures Shape() && way[DEPTH] in nodes && cur == nodes[way[DEPTH]] && cur.level == DEPTH
      ensures Grown(old(nodes), old(owned), nodes, owned, way[DEPTH]) && fresh(owned - old(owned))
      ensures Busy(nodes, LastZero()) && Plain() && EndSound() && cur.counter == 0
    {
      cur := root;
      var workingId := id.bits;
      ghost var k := 0;
      for s := DEPTH downto 0
        invariant k + s == DEPTH
        invariant Shape() && way[k] in nodes && cur == nodes[way[k]] && cur.level == k
        invariant workingId == Shifted(id.bits, k)
        invariant Grown(old(nodes), old(owned), nodes, owned, way[DEPTH]) && fresh(owned - old(owned))
        invariant Busy(nodes, way[k]) && Plain() && EndSound()
        invariant if k < DEPTH then way[DEPTH] !in nodes else cur.counter == 0
      {
        assert Linked(way[k]);
        cur, workingId := StepOn(cur, workingId, id, way, k, old(nodes), old(owned));
        k := k + 1;
      }
    }

    /** Create the leaf of an id, give it its label and its data. */
    method CreateLeaf(id: Id, data: T) returns (leaf: Node<T>)
      requires Shape() && Plain() && EndSound() && Digits(id, DEPTH) !in nodes && AlongZeros(nodes, zeroPath)
               && Busy(nodes, LastZero())
      modifies this`nodes, this`owned, owned`children
      ensures Shape() && Plain() && EndSound() && AlongZeros(nodes, zeroPath) && Busy(nodes, LastZero())
      ensures Grown(old(nodes), old(owned), nodes, owned, Digits(id, DEPTH)) && fresh(owned - old(owned))
              && leaf in owned && leaf !in old(owned)
      ensures Digits(id, DEPTH) in nodes && nodes[Digits(id, DEPTH)] == leaf && leaf.level == DEPTH
      ensures leaf.id == id && leaf.data == data && leaf.counter == 0 && leaf.path == Digits(id, DEPTH)
      ensures forall p | p in nodes && nodes[p] == leaf :: p == Digits(id, DEPTH)
    {
      leaf := DescendOrCreate(id);
      assert Linked(Digits(id, DEPTH));
      assert forall p | p in nodes && nodes[p] == leaf :: Linked(p);
      label Reached:
      leaf.id := id;
      leaf.data := data;
      forall p {:trigger PlainAt(p)} | p in nodes
        ensures PlainAt(p)
      {
        assert old@Reached(PlainAt(p));
      }
      AlongZerosKept(old(nodes), nodes, zeroPath);
    }

    /** Create the leaf of an id; everything stored before stays as it is. */
    method AddLeaf(id: Id, data: T) returns (leaf: Node<T>)
      requires Shape() && Labels() && Plain() && EndSound() && Digits(id, DEPTH) !in nodes
               && AlongZeros(nodes, zeroPath) && Busy(nodes, LastZero())
      modifies this`nodes, this`owned, owned`children
      ensures Shape() && Plain() && EndSound() && AlongZeros(nodes, zeroPath) && Busy(nodes, LastZero())
              && fresh(owned - old(owned))
      ensures forall other {:trigger Stored(other)} | other in contents :: Stored(other)
      ensures forall p {:trigger Labelled(p)} | p in nodes && p != Digits(id, DEPTH) :: Labelled(p)
      ensures Digits(id, DEPTH) in nodes && nodes[Digits(id, DEPTH)] == leaf && leaf in owned && leaf.level == DEPTH
      ensures leaf.id == id && leaf.data == data && leaf.counter == 0
    {
      leaf := CreateLeaf(id, data);
      forall other {:trigger Stored(other)} | other in contents
        ensures Stored(other)
      {
        assert old(Stored(other));
      }
      forall p {:trigger Labelled(p)} | p in nodes && p != Digits(id, DEPTH)
        ensures Labelled(p)
      {
        assert p in old(nodes) ==> old(Labelled(p));
      }
    }

    /** Store data under an id that is not in the tree yet; the program stops at any other id and at 0. */
    method Insert(id: Id, data: T)
      requires Valid() && id != NO_ID && id !in contents
      modifies this`nodes, this`owned, this`size, this`contents, this`counts, owned`children
      ensures Valid() && contents == old(contents)[id := data] && counts == old(counts)[id := 0]
      ensures fresh(owned - old(owned))
    {
      LeafOf(id);
      var leaf := AddLeaf(id, data);
      Record(id, leaf);
    }

    method Record(id: Id, leaf: Node<T>)
      requires Shape() && Plain() && EndSound() && AlongZeros(nodes, zeroPath) && Busy(nodes, LastZero()) && Cached()
               && |zeroPath| == ZERO_PATH_DEPTH
      requires counts.Keys == contents.Keys && size == |contents| && id != NO_ID && id !in contents
      requires forall other {:trigger Stored(other)} | other in contents :: Stored(other)
      requires forall p {:trigger Labelled(p)} | p in nodes && p != Digits(id, DEPTH) :: Labelled(p)
      requires Digits(id, DEPTH) in nodes && nodes[Digits(id, DEPTH)] == leaf && leaf in owned && leaf.level == DEPTH
      requires leaf.id == id && leaf.counter == 0
      modifies this`size, this`contents, this`counts
      ensures Valid() && contents == old(contents)[id := leaf.data] && counts == old(counts)[id := 0]
    {
      size := size + 1;
      contents := contents[id := leaf.data];
      counts := counts[id := 0];
      forall other {:trigger Stored(other)} | other in contents
        ensures Stored(other)
      {
        assert other != id ==> old(Stored(other));
      }
      forall p {:trigger Labelled(p)} | p in nodes
        ensures Labelled(p)
      {
        assert p != Digits(id, DEPTH) ==> old(Labelled(p));
      }
    }

    // ----- lookup

    lemma {:induction false} AbsentBelow(id: Id, k: nat, m: nat)
      requires Shape() && k <= m && Digits(id, k) !in nodes
      ensures Digits(id, m) !in nodes
    {
      if k < m {
        AbsentBelow(id, k, m - 1);
        assert Digits(id, m) in nodes ==> HasParent(nodes, Digits(id, m));
      }
    }

    /** Start as far down the recorded path as the leading zeros of the id allow. */
    method SkipAheadOnZeroPath(id: Id) returns (cur: Node<T>, workingId: Word, s: nat, path: seq<Node<T>>)
      requires Shape() && AlongZeros(nodes, zeroPath) && |zeroPath| == ZERO_PATH_DEPTH
      ensures s < DEPTH && Digits(id, s) in nodes && cur == nodes[Digits(id, s)] && workingId == Shifted(id.bits, s)
      ensures |path| == s && AlongDigits(nodes, id, path)
    {
      s := ZERO_PATH_DEPTH;
      while s > 0
        invariant s <= ZERO_PATH_DEPTH
      {
        MasksCover(s);
        if id.bits & MASKS[s - 1] == 0 && |zeroPath| > s {
          ZerosAlongDigits(nodes, id, s, zeroPath);
          var rest := SkipDigits(id.bits, s);
          return zeroPath[s], rest, s, zeroPath[..s];
        }
        s := s - 1;
      }
      return root, id.bits, 0, [];
    }

    lemma AbsentOnWay(id: Id, way: seq<Path>, k: nat)
      requires Shape() && IsWay(id, way) && k <= DEPTH && way[k] !in nodes
      ensures way[DEPTH] !in nodes
    {
      assert way[k] == Digits(id, k);
      AbsentBelow(id, k, DEPTH);
      assert way[DEPTH] == Digits(id, DEPTH);
    }

    /** The next node on a way; where there is none, nothing is at its end. */
    method Follow(cur: Node<T>, digit: Digit, ghost id: Id, ghost way: seq<Path>, ghost s: nat)
      returns (child: Node?<T>)
      requires Shape() && IsWay(id, way) && s < DEPTH && way[s] in nodes && cur == nodes[way[s]]
               && way[s + 1] == Below(way[s], digit)
      ensures child != null ==> way[s + 1] in nodes && child == nodes[way[s + 1]]
      ensures child == null ==> way[DEPTH] !in nodes
    {
      assert Linked(way[s]);
      child := if cur.children == [] then null else cur.children[digit];
      if child == null {
        AbsentOnWay(id, way, s + 1);
      }
    }

    /** Walk on from a node on the way to its end. */
    method WalkOn(cur0: Node<T>, workingId0: Word, s0: nat, path0: seq<Node<T>>, ghost id: Id, ghost way: seq<Path>)
      returns (found: Node?<T>, path: seq<Node<T>>)
      requires Shape() && IsWay(id, way) && s0 <= DEPTH && way[s0] in nodes && cur0 == nodes[way[s0]]
      requires workingId0 == Shifted(id.bits, s0) && |path0| == s0 && AlongWay(nodes, way, path0)
      ensures found == if way[DEPTH] in nodes then nodes[way[DEPTH]] else null
      ensures found != null ==> |path| == DEPTH && AlongWay(nodes, way, path)
    {
      var cur, workingId, s := cur0, workingId0, s0;
      path := path0;
      while s < DEPTH
        invariant s <= DEPTH && way[s] in nodes && cur == nodes[way[s]] && workingId == Shifted(id.bits, s)
        invariant |path| == s && AlongWay(nodes, way, path)
      {
        var bits;
        bits, workingId := TakeStep(id, way, s, workingId);
        var child := Follow(cur, bits, id, way, s);
        if child == null {
          return null, path;
        }
        AlongWayExtended(nodes, way, path);
        path := path + [cur];
        cur := child;
        s := s + 1;
      }
      found := cur;
    }

    /**
     * The node an id leads to, and the nodes on the way: the same as for a walk of sixteen steps
     * from the root, whatever part of the way was skipped.
     */
    method FindNodeForId(id: Id) returns (found: Node?<T>, path: seq<Node<T>>)
      requires Valid()
      ensures found == if Digits(id, DEPTH) in nodes then nodes[Digits(id, DEPTH)] else null
      ensures found != null ==> |path| == DEPTH && AlongDigits(nodes, id, path)
    {
      var cur, workingId, s;
      cur, workingId, s, path := SkipAheadOnZeroPath(id);
      ghost var way := WayOf(id);
      assert way[s] == Digits(id, s);
      AlongWayIsAlongDigits(nodes, id, way, path);
      found, path := WalkOn(cur, workingId, s, path, id, way);
      if found != null {
        AlongWayIsAlongDigits(nodes, id, way, path);
        LeafOf(id);
        assert Stored(id);
        if found.id != id {
          assert false;
        }
      }
    }

    /** The data stored for an id, from the cache where it holds the id, else from the tree. */
    method Retrieve(id: Id) returns (r: Option<T>)
      requires Valid() && id != NO_ID
      modifies cache
      ensures Valid()
      ensures r == if id in contents then Some(contents[id]) else None
    {
      var cacheIndex := CacheIndex(id);
      if cache[cacheIndex].id == id {
        return Some(cache[cacheIndex].data);
      }
      var cur, _ := FindNodeForId(id);
      LeafOf(id);
      if cur == null {
        return None;
      }
      assert Stored(id);
      cache[cacheIndex] := CacheLine(id, cur.data);
      r := Some(cur.data);
    }

    // ----- counters

    /** The counter of an inserted id; the program stops for any other. */
    method Counter(id: Id) returns (c: Count)
      requires Valid() && id in contents
      ensures c == counts[id]
    {
      LeafOf(id);
      assert Stored(id);
      var cur, _ := FindNodeForId(id);
      c := cur.counter;
    }

    /** Count an inserted id once more; only its own counter changes, and it wraps around. */
    method IncreaseCounter(id: Id)
      requires Valid() && id in contents
      modifies this`counts, owned`counter
      ensures Valid() && counts == old(counts)[id := Increased(old(counts)[id])]
    {
      LeafOf(id);
      var cur, _ := FindNodeForId(id);
      assert Stored(id);
      CountOnce(id, cur, counts[id := Increased(counts[id])]);
    }

    method CountOnce(id: Id, cur: Node<T>, ghost more: map<Id, Count>)
      requires Valid() && id in contents && Digits(id, DEPTH) in nodes && cur == nodes[Digits(id, DEPTH)]
      requires more == counts[id := Increased(counts[id])]
      modifies this`counts, cur`counter
      ensures Valid() && counts == more
    {
      assert Stored(id);
      cur.counter := Increased(cur.counter);
      counts := more;
      assert Labels() by {
        forall other {:trigger Stored(other)} | other in contents
          ensures Stored(other)
        {
          assert old(Stored(other));
        }
        forall p {:trigger Labelled(p)} | p in nodes
          ensures Labelled(p)
        {
          assert old(Labelled(p));
        }
      }
      assert Plain() by {
        forall p {:trigger PlainAt(p)} | p in nodes
          ensures PlainAt(p)
        {
          assert old(PlainAt(p));
        }
      }
    }

    // ----- size

    lemma NobodyBelow(p: Path, k: nat)
      requires Shape() && Labels() && 1 <= k <= DEPTH && p !in nodes
      ensures IdsUnder(contents.Keys, p, k) == {}
    {
      forall id | id in contents
        ensures Digits(id, k) != p
      {
        assert Stored(id);
        if Digits(id, k) == p {
          AbsentBelow(id, k, DEPTH);
        }
      }
    }

    lemma LeafIsOneId(p: Path)
      requires Shape() && Labels() && p in nodes && nodes[p].level == DEPTH
      ensures |IdsUnder(contents.Keys, p, DEPTH)| == 1
    {
      assert Labelled(p);
      var owner := nodes[p].id;
      forall id | id in contents && Digits(id, DEPTH) == p
        ensures id == owner
      {
        DigitsInjective(id, owner);
      }
      assert IdsUnder(contents.Keys, p, DEPTH) == {owner};
    }

    lemma ChildlessCount(p: Path, depth: nat)
      requires Shape() && Labels() && p in nodes && nodes[p].level == depth < DEPTH && nodes[p].children == []
      ensures IdsUnder(contents.Keys, p, depth) == {}
    {
      assert Linked(p);
      forall i: Digit
        ensures IdsUnder(contents.Keys, Below(p, i), depth + 1) == {}
      {
        NobodyBelow(Below(p, i), depth + 1);
      }
      NobodyBranches(p, depth);
    }

    /** Count the leaves below a node: as many as ids that lead through it. */
    method ComputeSize(cur: Node<T>, ghost p: Path, depth: nat) returns (result: nat)
      requires Shape() && Labels() && p in nodes && nodes[p] == cur && cur.level == depth < DEPTH
      ensures result == |IdsUnder(contents.Keys, p, depth)|
      decreases DEPTH - depth, 2
    {
      if cur.children == [] {
        ChildlessCount(p, depth);
        result := 0;
      } else {
        result := SizeOfChildren(cur, p, depth);
        CountBelowAll(contents.Keys, p, depth);
      }
    }

    method SizeOfChildren(cur: Node<T>, ghost p: Path, depth: nat) returns (result: nat)
      requires Shape() && Labels() && p in nodes && nodes[p] == cur && cur.level == depth < DEPTH && cur.children != []
      ensures result == CountBelow(contents.Keys, p, depth, NUM_CHILDREN)
      decreases DEPTH - depth, 1
    {
      result := 0;
      assert Linked(p);
      for i := 0 to NUM_CHILDREN
        invariant result == CountBelow(contents.Keys, p, depth, i)
      {
        var child := cur.children[i];
        assert child == if Below(p, i) in nodes then nodes[Below(p, i)] else null;
        var below := SizeOfChild(child, Below(p, i), depth);
        result := result + below;
      }
    }

    /** What one slot adds: nothing, a leaf, or all the leaves below an inner node. */
    method SizeOfChild(child: Node?<T>, ghost p: Path, depth: nat) returns (result: nat)
      requires Shape() && Labels() && depth < DEPTH && child == if p in nodes then nodes[p] else null
      requires child != null ==> child.level == depth + 1
      ensures result == |IdsUnder(contents.Keys, p, depth + 1)|
      decreases DEPTH - depth, 0
    {
      if child == null {
        NobodyBelow(p, depth + 1);
        result := 0;
      } else if depth < DEPTH - 1 {
        result := ComputeSize(child, p, depth + 1);
      } else {
        LeafIsOneId(p);
        result := 1;
      }
    }

    lemma NobodyBranches(p: Path, k: nat)
      requires forall i: Digit :: IdsUnder(contents.Keys, Below(p, i), k + 1) == {}
      ensures IdsUnder(contents.Keys, p, k) == {}
    {
      forall id | id in contents
        ensures Digits(id, k) != p
      {
        assert Digits(id, k) == p ==> id in IdsUnder(contents.Keys, Below(p, DigitAt(id.bits, k)), k + 1);
      }
    }

    /** The number of ids in the tree, counted afresh where it is not known. */
    method Size() returns (s: nat)
      requires Shape() && Labels()
      modifies this`size
      ensures s == size == if old(size) == 0 then |contents| else old(size)
    {
      if size == 0 {
        size := ComputeSize(root, Root, 0);
        assert IdsUnder(contents.Keys, Root, 0) == contents.Keys;
      }
      s := size;
    }
  }
}
