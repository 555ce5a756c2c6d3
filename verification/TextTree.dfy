/** The 48-ary tree from encoded texts to elements: a multimap, kept as nodes that are updated in place. */
module TextTrees {
  import opened Sequences
  import opened Streams
  import opened SwedishText

  /** A position in the tree: the codes that lead to it from the root. */
  datatype Place = Top | Under(parent: Place, code: Code)

  /** The position reached by the first k codes. */
  function PlaceAt(codes: seq<Code>, k: nat): Place
    requires k <= |codes|
  {
    if k == 0 then Top else Under(PlaceAt(codes, k - 1), codes[k - 1])
  }

  function PlaceOf(codes: seq<Code>): Place {
    PlaceAt(codes, |codes|)
  }

  lemma {:induction false} SameCodes(a: seq<Code>, i: nat, b: seq<Code>, j: nat)
    requires i <= |a| && j <= |b| && PlaceAt(a, i) == PlaceAt(b, j)
    ensures a[..i] == b[..j]
  {
    if i > 0 && j > 0 {
      SameCodes(a, i - 1, b, j - 1);
      assert a[..i] == a[..i - 1] + [a[i - 1]];
      assert b[..j] == b[..j - 1] + [b[j - 1]];
    }
  }

  /** Different code words lead to different places. */
  lemma PlaceInjective(a: seq<Code>, b: seq<Code>)
    requires PlaceOf(a) == PlaceOf(b)
    ensures a == b
  {
    SameCodes(a, |a|, b, |b|);
    assert a[..|a|] == a && b[..|b|] == b;
  }

  /** An element was stored at a place. */
  datatype Entry<T> = Entry(place: Place, element: T)

  /** The elements stored at a place, in the order they came. */
  function Bucket<T>(log: seq<Entry<T>>, p: Place): seq<T> {
    if log == [] then []
    else
      var last := log[|log| - 1];
      Bucket(log[..|log| - 1], p) + if last.place == p then [last.element] else []
  }

  function StoredAt<T>(p: Place): Entry<T> -> bool {
    (e: Entry<T>) => e.place == p
  }

  /** These are the elements of the entries for the place, each as often and in the same order. */
  lemma {:induction false} BucketInOrder<T(!new)>(log: seq<Entry<T>>, p: Place) returns (entries: seq<Entry<T>>)
    ensures SelectedFrom(log, StoredAt(p), entries)
    ensures |Bucket(log, p)| == |entries| && forall k | 0 <= k < |entries| :: Bucket(log, p)[k] == entries[k].element
  {
    if log == [] {
      entries := [];
      NothingSelected(StoredAt<T>(p));
    } else {
      var n := |log| - 1;
      var before := BucketInOrder(log[..n], p);
      SelectOneMore(log[..n], log[n], StoredAt(p), before);
      assert log[..n] + [log[n]] == log;
      entries := before + if StoredAt(p)(log[n]) then [log[n]] else [];
    }
  }

  lemma {:induction false} BucketEmpty<T>(log: seq<Entry<T>>, p: Place)
    requires forall e | e in log :: e.place != p
    ensures Bucket(log, p) == []
  {
    if log != [] {
      assert log[|log| - 1] in log;
      BucketEmpty(log[..|log| - 1], p);
    }
  }

  lemma BucketExtended<T>(log: seq<Entry<T>>, e: Entry<T>, p: Place)
    ensures Bucket(log + [e], p) == Bucket(log, p) + if e.place == p then [e.element] else []
  {
    assert (log + [e])[..|log|] == log;
  }

  lemma {:induction false} BucketSplit<T>(a: seq<Entry<T>>, b: seq<Entry<T>>, p: Place)
    ensures Bucket(a + b, p) == Bucket(a, p) + Bucket(b, p)
  {
    if b == [] {
      assert a + b == a;
    } else {
      assert (a + b)[..|a + b| - 1] == a + b[..|b| - 1];
      BucketSplit(a, b[..|b| - 1], p);
    }
  }

  lemma BucketFirst<T>(e: Entry<T>, rest: seq<Entry<T>>, p: Place)
    ensures Bucket([e] + rest, p) == (if e.place == p then [e.element] else []) + Bucket(rest, p)
  {
    BucketSplit([e], rest, p);
    BucketExtended([], e, p);
    assert [] + [e] == [e];
  }

  // ----- counting the entries below a place

  predicate Within(q: Place, p: Place) {
    q == p || (q.Under? && Within(q.parent, p))
  }

  function Depth(p: Place): nat {
    if p == Top then 0 else Depth(p.parent) + 1
  }

  lemma {:induction false} WithinIsDeeper(q: Place, p: Place)
    requires Within(q, p)
    ensures Depth(q) >= Depth(p)
  {
    if q != p {
      WithinIsDeeper(q.parent, p);
    }
  }

  /** The code after p on the way to q, or -1 at p itself. */
  function Branch(q: Place, p: Place): int
    requires Within(q, p)
  {
    if q == p then -1 else if q.parent == p then q.code else Branch(q.parent, p)
  }

  lemma {:induction false} BranchIsChild(q: Place, p: Place, c: Code)
    ensures Within(q, Under(p, c)) <==> Within(q, p) && Branch(q, p) == c
  {
    if q.Under? {
      BranchIsChild(q.parent, p, c);
      if Within(p, Under(p, c)) {
        WithinIsDeeper(p, Under(p, c));
      }
    }
  }

  lemma {:induction false} BranchIsCode(q: Place, p: Place)
    requires Within(q, p)
    ensures -1 <= Branch(q, p) < NUM_CODES && (Branch(q, p) == -1 <==> q == p)
  {
    if q != p && q.parent != p {
      BranchIsCode(q.parent, p);
    }
  }

  lemma {:induction false} WithinTop(q: Place)
    ensures Within(q, Top)
  {
    if q.Under? {
      WithinTop(q.parent);
    }
  }

  function Counts(b: bool): nat {
    if b then 1 else 0
  }

  /** The number of entries at a place or below it. */
  function CountWithin<T>(log: seq<Entry<T>>, p: Place): nat {
    if log == [] then 0 else CountWithin(log[..|log| - 1], p) + Counts(Within(log[|log| - 1].place, p))
  }

  predicate BranchesBefore(q: Place, p: Place, c: nat) {
    Within(q, p) && 0 <= Branch(q, p) < c
  }

  /** The number of entries below a place that are reached by a code less than c. */
  function CountBranching<T>(log: seq<Entry<T>>, p: Place, c: nat): nat {
    if log == [] then 0 else CountBranching(log[..|log| - 1], p, c) + Counts(BranchesBefore(log[|log| - 1].place, p, c))
  }

  lemma {:induction false} OneMoreBranch<T>(log: seq<Entry<T>>, p: Place, c: Code)
    ensures CountBranching(log, p, c + 1) == CountBranching(log, p, c) + CountWithin(log, Under(p, c))
  {
    if log != [] {
      OneMoreBranch(log[..|log| - 1], p, c);
      BranchIsChild(log[|log| - 1].place, p, c);
    }
  }

  lemma {:induction false} NoBranch<T>(log: seq<Entry<T>>, p: Place)
    ensures CountBranching(log, p, 0) == 0
  {
    if log != [] {
      NoBranch(log[..|log| - 1], p);
    }
  }

  lemma {:induction false} AllBranches<T>(log: seq<Entry<T>>, p: Place)
    ensures CountWithin(log, p) == |Bucket(log, p)| + CountBranching(log, p, NUM_CODES)
  {
    if log != [] {
      AllBranches(log[..|log| - 1], p);
      var q := log[|log| - 1].place;
      if Within(q, p) {
        BranchIsCode(q, p);
      }
    }
  }

  lemma {:induction false} CountWithinTop<T>(log: seq<Entry<T>>)
    ensures CountWithin(log, Top) == |log|
  {
    if log != [] {
      CountWithinTop(log[..|log| - 1]);
      WithinTop(log[|log| - 1].place);
    }
  }

  lemma {:induction false} NobodyWithin<T>(log: seq<Entry<T>>, p: Place)
    requires forall e | e in log :: !Within(e.place, p)
    ensures CountWithin(log, p) == 0
  {
    if log != [] {
      assert log[|log| - 1] in log;
      NobodyWithin(log[..|log| - 1], p);
    }
  }

  // ----- what inserting a name stores

  /** An element is stored under each run in turn, up to the first that has no code at all. */
  function Entries<T>(runs: seq<seq<Byte>>, element: T): seq<Entry<T>> {
    if runs == [] || CodeWord(runs[0]) == [] then []
    else [Entry(PlaceOf(CodeWord(runs[0])), element)] + Entries(runs[1..], element)
  }

  predicate AllCodable(runs: seq<seq<Byte>>) {
    runs == [] || (CodeWord(runs[0]) != [] && AllCodable(runs[1..]))
  }

  lemma {:induction false} EntriesSplit<T>(a: seq<seq<Byte>>, b: seq<seq<Byte>>, element: T)
    ensures Entries(a + b, element) == Entries(a, element) + if AllCodable(a) then Entries(b, element) else []
    ensures AllCodable(a + b) <==> AllCodable(a) && AllCodable(b)
  {
    if a == [] {
      assert a + b == b;
    } else {
      assert (a + b)[1..] == a[1..] + b;
      EntriesSplit(a[1..], b, element);
    }
  }

  /** Of all the runs, the rest is still to be stored; where the storing has ended early, nothing is. */
  ghost predicate Progress<T>(before: seq<Entry<T>>, now: seq<Entry<T>>, all: seq<seq<Byte>>, rest: seq<seq<Byte>>,
                              ok: bool, element: T) {
    if ok then now + Entries(rest, element) == before + Entries(all, element) && (AllCodable(all) <==> AllCodable(rest))
    else now == before + Entries(all, element) && !AllCodable(all)
  }

  lemma ProgressStep<T>(before: seq<Entry<T>>, now: seq<Entry<T>>, all: seq<seq<Byte>>, batch: seq<seq<Byte>>,
                        rest: seq<seq<Byte>>, element: T)
    requires Progress(before, now, all, batch + rest, true, element)
    ensures Progress(before, now + Entries(batch, element), all, rest, AllCodable(batch), element)
  {
    EntriesSplit(batch, rest, element);
    Regroup(now, Entries(batch, element), Entries(rest, element));
  }

  class Node<T> {
    var children: seq<Node?<T>>  // none at all, or one slot per code
    var elements: seq<T>
    ghost const place: Place     // where in the tree the node was put
    ghost const level: nat       // how far below the root that is

    constructor (ghost place: Place, ghost level: nat)
      ensures children == [] && elements == [] && this.place == place && this.level == level
    {
      children := [];
      elements := [];
      this.place := place;
      this.level := level;
    }
  }

  ghost predicate HasParent<T>(nodes: map<Place, Node<T>>, p: Place) {
    p.Under? ==> p.parent in nodes
  }

  class SwedishTextTree<T> {
    var root: Node<T>
    var size: nat

    ghost var nodes: map<Place, Node<T>>  // all nodes, by position
    ghost var owned: set<Node<T>>         // the same without the positions
    ghost var deepest: nat                // no node is further below the root
    ghost var log: seq<Entry<T>>          // what has been stored, in order

    /** The node at p knows its place, and its children mirror the positions below p. */
    ghost predicate Linked(p: Place)
      requires p in nodes
      reads this`nodes, this`owned, this`deepest, owned`children
    {
      var n := nodes[p];
      && n in owned && n.place == p && n.level <= deepest
      && (if n.children == []
          then forall c: Code :: Under(p, c) !in nodes
          else && |n.children| == NUM_CODES
               && forall c: Code :: n.children[c] == if Under(p, c) in nodes then nodes[Under(p, c)] else null)
      && forall c: Code | Under(p, c) in nodes :: nodes[Under(p, c)].level == n.level + 1
    }

    ghost predicate Shape()
      reads this`root, this`nodes, this`owned, this`deepest, owned`children
    {
      && Top in nodes && nodes[Top] == root && root.level == 0
      && (forall p | p in nodes :: Linked(p))
      && (forall p {:trigger HasParent(nodes, p)} | p in nodes :: HasParent(nodes, p))
    }

    /** The node at p holds what was stored there, in order. */
    ghost predicate Filled(p: Place)
      requires p in nodes
      reads this`nodes, this`owned, this`log, owned`elements
    {
      nodes[p] in owned && nodes[p].elements == Bucket(log, p)
    }

    ghost predicate Kept()
      reads this`nodes, this`owned, this`log, owned`elements
    {
      && (forall p {:trigger Filled(p)} | p in nodes :: Filled(p))
      && forall e | e in log :: e.place in nodes && e.place != Top
    }

    ghost predicate Valid()
      reads this, owned
    {
      Shape() && Kept()
    }

    constructor ()
      ensures Valid() && log == [] && size == 0 && fresh(owned)
    {
      var r := new Node(Top, 0);
      root := r;
      size := 0;
      nodes := map[Top := r];
      owned := {r};
      deepest := 0;
      log := [];
    }

    /** A tree around nodes that are there already, with its size unknown. */
    constructor Around(root: Node<T>, ghost owned: set<Node<T>>, ghost nodes: map<Place, Node<T>>, ghost deepest: nat,
                       ghost log: seq<Entry<T>>)
      ensures this.root == root && size == 0
      ensures this.owned == owned && this.nodes == nodes && this.deepest == deepest && this.log == log
    {
      this.root := root;
      size := 0;
      this.owned := owned;
      this.nodes := nodes;
      this.deepest := deepest;
      this.log := log;
    }

    /** Since the earlier state, only empty nodes have been added. */
    twostate predicate Grown()
      reads this`nodes, this`owned, owned`elements
    {
      && (forall p | p in old(nodes) :: p in nodes && nodes[p] == old(nodes)[p])
      && (forall p | p in nodes && p !in old(nodes) :: nodes[p] in owned && fresh(nodes[p]) && nodes[p].elements == [])
      && old(owned) <= owned && fresh(owned - old(owned))
    }

    // ----- growing the tree

    method Sprout(cur: Node<T>, ghost p: Place)
      requires Shape() && p in nodes && nodes[p] == cur && cur.children == []
      modifies cur`children
      ensures Shape() && |cur.children| == NUM_CODES
    {
      cur.children := seq(NUM_CODES, _ => null);
      forall q | q in nodes
        ensures Linked(q)
      {
        assert old(Linked(q));
      }
    }

    method AddChild(cur: Node<T>, ghost p: Place, c: Code) returns (next: Node<T>)
      requires Shape() && p in nodes && nodes[p] == cur && |cur.children| == NUM_CODES && cur.children[c] == null
      modifies cur`children, this`nodes, this`owned, this`deepest
      ensures Shape() && Under(p, c) !in old(nodes) && nodes == old(nodes)[Under(p, c) := next]
      ensures fresh(next) && owned == old(owned) + {next} && next.elements == []
    {
      assert Linked(p);
      next := new Node(Under(p, c), cur.level + 1);
      forall e: Code
        ensures Under(Under(p, c), e) !in nodes
      {
        assert HasParent(nodes, Under(Under(p, c), e)) || Under(Under(p, c), e) !in nodes;
      }
      cur.children := cur.children[c := next];
      nodes := nodes[Under(p, c) := next];
      owned := owned + {next};
      deepest := if cur.level + 1 > deepest then cur.level + 1 else deepest;
      forall q | q in nodes
        ensures Linked(q)
      {
        if q != Under(p, c) {
          assert old(Linked(q));
        }
      }
      forall q | q in nodes
        ensures HasParent(nodes, q)
      {
        assert q != Under(p, c) ==> HasParent(old(nodes), q);
      }
    }

    /** The child of a node for a code, which is created where it is absent. */
    method EnsureChild(cur: Node<T>, ghost p: Place, c: Code) returns (next: Node<T>)
      requires Shape() && p in nodes && nodes[p] == cur
      modifies cur`children, this`nodes, this`owned, this`deepest
      ensures Shape() && Under(p, c) in nodes && nodes[Under(p, c)] == next
      ensures Grown()
    {
      if cur.children == [] {
        Sprout(cur, p);
      }
      var slot := cur.children[c];
      if slot == null {
        next := AddChild(cur, p, c);
      } else {
        next := slot;
        assert Linked(p) && Under(p, c) in nodes;
      }
    }

    /** Walk down along some codes, creating what is missing. */
    method DescendOrCreate(code: seq<Code>) returns (cur: Node<T>)
      requires Shape()
      modifies this`nodes, this`owned, this`deepest, owned`children
      ensures Shape() && PlaceOf(code) in nodes && cur == nodes[PlaceOf(code)]
      ensures Grown()
    {
      cur := root;
      var pos := 0;
      while pos < |code|
        invariant pos <= |code|
        invariant Shape() && PlaceAt(code, pos) in nodes && cur == nodes[PlaceAt(code, pos)]
        invariant Grown()
      {
        assert Linked(PlaceAt(code, pos));
        cur := EnsureChild(cur, PlaceAt(code, pos), code[pos]);
        pos := pos + 1;
      }
    }

    // ----- storing

    lemma NothingStored(p: Place)
      requires Kept() && p !in nodes
      ensures Bucket(log, p) == []
    {
      BucketEmpty(log, p);
    }

    /** The node for some codes; the nodes created for it are empty, as nothing was stored there. */
    method Reach(code: seq<Code>) returns (cur: Node<T>)
      requires Valid()
      modifies this`nodes, this`owned, this`deepest, owned`children
      ensures Valid() && PlaceOf(code) in nodes && cur == nodes[PlaceOf(code)]
      ensures old(owned) <= owned && fresh(owned - old(owned))
    {
      cur := DescendOrCreate(code);
      forall q | q in nodes
        ensures Filled(q)
      {
        if q in old(nodes) {
          assert old(Filled(q));
        } else {
          BucketEmpty(log, q);
        }
      }
    }

    /** Append an element to those of a node. */
    method Store(cur: Node<T>, ghost p: Place, element: T)
      requires Valid() && p in nodes && nodes[p] == cur && p != Top
      modifies this`log, this`size, cur`elements
      ensures Valid() && log == old(log) + [Entry(p, element)] && size == old(size) + 1
    {
      cur.elements := cur.elements + [element];
      log := log + [Entry(p, element)];
      size := size + 1;
      forall q | q in nodes
        ensures Filled(q)
      {
        BucketExtended(old(log), Entry(p, element), q);
        assert old(Filled(q)) && Linked(q) && Linked(p);
      }
    }

    /** Store an element under one text, unless that has no code at all. */
    method InternalInsert(word: seq<Byte>, element: T) returns (ok: bool)
      requires Valid()
      modifies this`nodes, this`owned, this`deepest, this`log, this`size, owned`children, owned`elements
      ensures Valid() && old(owned) <= owned && fresh(owned - old(owned))
      ensures ok == (CodeWord(word) != [])
      ensures log == old(log) + if ok then [Entry(PlaceOf(CodeWord(word)), element)] else []
      ensures size == old(size) + |log| - |old(log)|
    {
      var code := ToCodeWord(word);
      if code == [] {
        return false;
      }
      var cur := Reach(code);
      assert Linked(PlaceOf(code));
      Store(cur, PlaceOf(code), element);
      ok := true;
    }

    /**
     * Store an element under the long runs of its name, longest first. This ends early at a run without any code,
     * and does nothing for a name without words.
     */
    method Insert(words: seq<seq<Byte>>, element: T) returns (result: bool)
      requires Valid() && (forall w | w in words :: 0 !in w) && |Joined(words)| <= LONGEST
      modifies this`nodes, this`owned, this`deepest, this`log, this`size, owned`children, owned`elements
      ensures Valid() && old(owned) <= owned && fresh(owned - old(owned))
      ensures result == (words != [] && AllCodable(Runs(words)))
      ensures log == old(log) + Entries(Runs(words), element)
      ensures size == old(size) + |log| - |old(log)|
    {
      if words == [] {
        return false;
      }
      result := true;
      var buffer := new Byte[BUFFER_LEN];
      var s := |words|;
      while result && s > |words| - 3 && s > 0
        invariant 0 <= s <= |words|
        invariant Valid() && old(owned) <= owned && fresh(owned - old(owned)) && fresh(buffer)
        invariant size == old(size) + |log| - |old(log)|
        invariant Progress(old(log), log, Runs(words), RunsFrom(words, s), result, element)
      {
        ghost var now := log;
        result := InsertRunsOfLength(words, s, element, buffer);
        ProgressStep(old(log), now, Runs(words), RunsOfLength(words, s, 0), RunsFrom(words, s - 1), element);
        s := s - 1;
      }
    }

    /** Store an element under the runs of s words, the leftmost first, up to the first run without any code. */
    method InsertRunsOfLength(words: seq<seq<Byte>>, s: nat, element: T, buffer: array<Byte>) returns (result: bool)
      requires Valid() && (forall w | w in words :: 0 !in w) && |Joined(words)| <= LONGEST
      requires 0 < s <= |words| && buffer.Length == BUFFER_LEN
      modifies this`nodes, this`owned, this`deepest, this`log, this`size, owned`children, owned`elements, buffer
      ensures Valid() && old(owned) <= owned && fresh(owned - old(owned))
      ensures result == AllCodable(RunsOfLength(words, s, 0))
      ensures log == old(log) + Entries(RunsOfLength(words, s, 0), element)
      ensures size == old(size) + |log| - |old(log)|
    {
      result := true;
      var start := 0;
      while result && start <= |words| - s
        invariant 0 <= start <= |words| - s + 1
        invariant Valid() && old(owned) <= owned && fresh(owned - old(owned))
        invariant size == old(size) + |log| - |old(log)|
        invariant Progress(old(log), log, RunsOfLength(words, s, 0), RunsOfLength(words, s, start), result, element)
      {
        ghost var now := log;
        result := InsertRun(words[start..start + s], element, buffer, words, start);
        ProgressStep(old(log), now, RunsOfLength(words, s, 0), [Joined(words[start..start + s])],
            RunsOfLength(words, s, start + 1), element);
        start := start + 1;
      }
    }

    method InsertRun(run: seq<seq<Byte>>, element: T, buffer: array<Byte>, ghost words: seq<seq<Byte>>,
                     ghost start: nat) returns (result: bool)
      requires Valid() && (forall w | w in words :: 0 !in w) && |Joined(words)| <= LONGEST
      requires run != [] && start + |run| <= |words| && run == words[start..start + |run|]
               && buffer.Length == BUFFER_LEN
      modifies this`nodes, this`owned, this`deepest, this`log, this`size, owned`children, owned`elements, buffer
      ensures Valid() && old(owned) <= owned && fresh(owned - old(owned))
      ensures result == AllCodable([Joined(run)])
      ensures log == old(log) + Entries([Joined(run)], element)
      ensures size == old(size) + |log| - |old(log)|
    {
      RunNoLonger(words, start, |run|);
      FillBuffer(run, buffer);
      result := InternalInsert(CString(buffer[..]), element);
    }

    // ----- looking up

    lemma AbsentBelow(code: seq<Code>, k: nat, m: nat)
      requires Shape() && k <= m <= |code| && PlaceAt(code, k) !in nodes
      ensures PlaceAt(code, m) !in nodes
    {
      if k < m {
        AbsentBelow(code, k, m - 1);
        assert PlaceAt(code, m) in nodes ==> HasParent(nodes, PlaceAt(code, m));
      }
    }

    /** The elements stored under the codes of a text, in the order they came. */
    method Retrieve(text: seq<Byte>) returns (result: seq<T>)
      requires Valid()
      ensures result == Bucket(log, PlaceOf(CodeWord(text)))
    {
      var code := ToCodeWord(text);
      var cur := root;
      var pos := 0;
      while pos < |code|
        invariant pos <= |code| && PlaceAt(code, pos) in nodes && cur == nodes[PlaceAt(code, pos)]
      {
        assert Linked(PlaceAt(code, pos));
        if cur.children == [] || cur.children[code[pos]] == null {
          AbsentBelow(code, pos + 1, |code|);
          NothingStored(PlaceOf(code));
          return [];
        }
        cur := cur.children[code[pos]];
        pos := pos + 1;
      }
      assert Filled(PlaceOf(code));
      result := cur.elements;
    }

    // ----- size

    lemma ParentIsThere(q: Place, p: Place)
      requires Shape() && q in nodes && Within(q, p)
      ensures p in nodes
      decreases q
    {
      if q != p {
        assert HasParent(nodes, q);
        ParentIsThere(q.parent, p);
      }
    }

    lemma NobodyBelow(p: Place)
      requires Valid() && p !in nodes
      ensures CountWithin(log, p) == 0
    {
      forall e | e in log
        ensures !Within(e.place, p)
      {
        if Within(e.place, p) {
          ParentIsThere(e.place, p);
        }
      }
      NobodyWithin(log, p);
    }

    /** Count the elements of a node and of the nodes below it. */
    method ComputeSize(cur: Node<T>, ghost p: Place) returns (result: nat)
      requires Valid() && p in nodes && nodes[p] == cur
      ensures result == CountWithin(log, p)
      decreases deepest - cur.level, 1
    {
      result := 0;
      NoBranch(log, p);
      AllBranches(log, p);
      assert Linked(p) && Filled(p);
      if cur.children != [] {
        for i := 0 to NUM_CODES
          invariant result == CountBranching(log, p, i)
        {
          OneMoreBranch(log, p, i);
          if cur.children[i] != null {
            assert Linked(Under(p, i));
            var below := ComputeSize(cur.children[i], Under(p, i));
            result := result + below;
          } else {
            NobodyBelow(Under(p, i));
          }
        }
      } else {
        NobodyBranches(p, NUM_CODES);
      }
      result := result + |cur.elements|;
    }

    lemma NobodyBranches(p: Place, c: nat)
      requires Valid() && c <= NUM_CODES && forall i: Code :: Under(p, i) !in nodes
      ensures CountBranching(log, p, c) == 0
    {
      NoBranch(log, p);
      if c > 0 {
        NobodyBranches(p, c - 1);
        OneMoreBranch(log, p, c - 1);
        NobodyBelow(Under(p, c - 1));
      }
    }

    /** The number of stored elements, counted afresh where it is not known. */
    method Size() returns (s: nat)
      requires Valid()
      modifies this`size
      ensures Valid() && s == size == if old(size) == 0 then |log| else old(size)
    {
      if size == 0 {
        size := ComputeSize(root, Top);
        CountWithinTop(log);
      }
      s := size;
    }
  }

  // ----- a multimap over whole names

  datatype Named<T> = Named(words: seq<seq<Byte>>, element: T)

  /** What inserting some names in order stores. */
  function Stored<T>(names: seq<Named<T>>): seq<Entry<T>> {
    if names == [] then []
    else Stored(names[..|names| - 1]) + Entries(Runs(names[|names| - 1].words), names[|names| - 1].element)
  }

  /** The element, once for each of the texts that has the given codes. */
  function Repeated<T>(runs: seq<seq<Byte>>, code: seq<Code>, element: T): seq<T> {
    if runs == [] then []
    else (if CodeWord(runs[0]) == code then [element] else []) + Repeated(runs[1..], code, element)
  }

  /** The elements whose names have a long run with the given codes: name by name, as often as there are such runs. */
  function Matches<T>(names: seq<Named<T>>, code: seq<Code>): seq<T> {
    if names == [] then []
    else Matches(names[..|names| - 1], code) + Repeated(Runs(names[|names| - 1].words), code,
        names[|names| - 1].element)
  }

  /** The runs before the first that has no code at all. */
  function Codable(runs: seq<seq<Byte>>): seq<seq<Byte>> {
    if runs == [] || CodeWord(runs[0]) == [] then [] else [runs[0]] + Codable(runs[1..])
  }

  lemma {:induction false} CodableIs(runs: seq<seq<Byte>>)
    ensures Codable(runs) <= runs && forall run | run in Codable(runs) :: CodeWord(run) != []
    ensures |Codable(runs)| < |runs| ==> CodeWord(runs[|Codable(runs)|]) == []
    ensures AllCodable(runs) <==> Codable(runs) == runs
  {
    if runs != [] && CodeWord(runs[0]) != [] {
      CodableIs(runs[1..]);
      assert runs == [runs[0]] + runs[1..];
    }
  }

  /** What is found: the matches, but of each name only the runs before the first that has no code. */
  function Found<T>(names: seq<Named<T>>, code: seq<Code>): seq<T> {
    if names == [] then []
    else
      var last := names[|names| - 1];
      Found(names[..|names| - 1], code) + Repeated(Codable(Runs(last.words)), code, last.element)
  }

  lemma {:induction false} EntriesMatch<T>(runs: seq<seq<Byte>>, element: T, code: seq<Code>)
    ensures Bucket(Entries(runs, element), PlaceOf(code)) == Repeated(Codable(runs), code, element)
  {
    if runs != [] && CodeWord(runs[0]) != [] {
      EntriesMatch(runs[1..], element, code);
      var own := CodeWord(runs[0]);
      BucketFirst(Entry(PlaceOf(own), element), Entries(runs[1..], element), PlaceOf(code));
      assert Codable(runs)[1..] == Codable(runs[1..]);
      if PlaceOf(own) == PlaceOf(code) {
        PlaceInjective(own, code);
      }
    }
  }

  /** What is found after any sequence of names, whatever characters are in them. */
  lemma {:induction false} BucketsAreFound<T>(names: seq<Named<T>>, code: seq<Code>)
    ensures Bucket(Stored(names), PlaceOf(code)) == Found(names, code)
  {
    if names != [] {
      var last := names[|names| - 1];
      BucketsAreFound(names[..|names| - 1], code);
      BucketSplit(Stored(names[..|names| - 1]), Entries(Runs(last.words), last.element), PlaceOf(code));
      EntriesMatch(Runs(last.words), last.element, code);
    }
  }

  lemma {:induction false} AllFound<T>(names: seq<Named<T>>, code: seq<Code>)
    requires forall n | n in names :: AllCodable(Runs(n.words))
    ensures Found(names, code) == Matches(names, code)
  {
    if names != [] {
      var last := names[|names| - 1];
      assert last in names;
      AllFound(names[..|names| - 1], code);
      CodableIs(Runs(last.words));
    }
  }

  lemma {:induction false} NoneWithoutCode<T>(names: seq<Named<T>>)
    ensures Found(names, []) == []
  {
    if names != [] {
      var last := names[|names| - 1];
      NoneWithoutCode(names[..|names| - 1]);
      CodableIs(Runs(last.words));
      if Repeated(Codable(Runs(last.words)), [], last.element) != [] {
        RepeatedWhenMatching(Codable(Runs(last.words)), [], last.element,
            Repeated(Codable(Runs(last.words)), [], last.element)[0]);
      }
    }
  }

  /**
   * After any sequence of names, the elements found are for every text those whose names match, in the order they came,
   * if and only if every long run of every name has a code.
   */
  lemma FoundAreMatches<T>(names: seq<Named<T>>)
    ensures (forall text :: Bucket(Stored(names), PlaceOf(CodeWord(text))) == Matches(names, CodeWord(text)))
       <==> forall n | n in names :: AllCodable(Runs(n.words))
  {
    if forall n | n in names :: AllCodable(Runs(n.words)) {
      forall text
        ensures Bucket(Stored(names), PlaceOf(CodeWord(text))) == Matches(names, CodeWord(text))
      {
        BucketsAreFound(names, CodeWord(text));
        AllFound(names, CodeWord(text));
      }
    } else {
      var n :| n in names && !AllCodable(Runs(n.words));
      CodableIs(Runs(n.words));
      var run := Runs(n.words)[|Codable(Runs(n.words))|];
      RunsAre(n.words, run);
      assert NameMatches(n, []);
      MatchesWhen(names, [], n.element);
      BucketsAreFound(names, CodeWord([]));
      NoneWithoutCode(names);
      assert Bucket(Stored(names), PlaceOf(CodeWord([]))) != Matches(names, CodeWord([]));
    }
  }

  /** No run without a code comes before a run with one. */
  ghost predicate CodesFirst(runs: seq<seq<Byte>>) {
    forall j, k | 0 <= j < k < |runs| && CodeWord(runs[j]) == [] :: CodeWord(runs[k]) == []
  }

  /**
   * What is found of a name is no more than what matches. It is all of it if codes come first, and less if a match
   * comes too late.
   */
  lemma {:induction false} FoundOfRuns<T>(runs: seq<seq<Byte>>, code: seq<Code>, element: T)
    requires code != []
    ensures |Repeated(Codable(runs), code, element)| <= |Repeated(runs, code, element)|
    ensures CodesFirst(runs) ==> Repeated(Codable(runs), code, element) == Repeated(runs, code, element)
    ensures (exists k :: |Codable(runs)| <= k < |runs| && CodeWord(runs[k]) == code) ==>
              |Repeated(Codable(runs), code, element)| < |Repeated(runs, code, element)|
    decreases |runs|, 1
  {
    if runs != [] {
      if CodeWord(runs[0]) != [] {
        FoundOfRest(runs, code, element);
      } else {
        RepeatedWhenMatching(runs, code, element, element);
        if CodesFirst(runs) {
          assert forall run | run in runs :: CodeWord(run) == [];
          NothingRepeated(runs, code, element);
        }
      }
    }
  }

  lemma {:induction false} FoundOfRest<T>(runs: seq<seq<Byte>>, code: seq<Code>, element: T)
    requires code != [] && runs != [] && CodeWord(runs[0]) != []
    ensures |Repeated(Codable(runs), code, element)| <= |Repeated(runs, code, element)|
    ensures CodesFirst(runs) ==> Repeated(Codable(runs), code, element) == Repeated(runs, code, element)
    ensures (exists k :: |Codable(runs)| <= k < |runs| && CodeWord(runs[k]) == code) ==>
              |Repeated(Codable(runs), code, element)| < |Repeated(runs, code, element)|
    decreases |runs|, 0
  {
    var rest := runs[1..];
    FoundOfRuns(rest, code, element);
    assert Codable(runs)[1..] == Codable(rest) && |Codable(runs)| == |Codable(rest)| + 1;
    if CodesFirst(runs) {
      assert forall j, k | 0 <= j < k < |rest| && CodeWord(rest[j]) == [] :: CodeWord(rest[k]) == [] by {
        assert forall j | 0 <= j < |rest| :: rest[j] == runs[j + 1];
      }
    }
    if k :| |Codable(runs)| <= k < |runs| && CodeWord(runs[k]) == code {
      assert rest[k - 1] == runs[k];
    }
  }

  lemma {:induction false} NothingRepeated<T>(runs: seq<seq<Byte>>, code: seq<Code>, element: T)
    requires forall run | run in runs :: CodeWord(run) != code
    ensures Repeated(runs, code, element) == []
  {
    if runs != [] {
      NothingRepeated(runs[1..], code, element);
    }
  }

  lemma {:induction false} FoundOfNames<T>(names: seq<Named<T>>, code: seq<Code>)
    requires code != []
    ensures |Found(names, code)| <= |Matches(names, code)|
    ensures (forall n | n in names :: CodesFirst(Runs(n.words))) ==> Found(names, code) == Matches(names, code)
    ensures (exists n :: n in names && ComesTooLate(n, code)) ==> |Found(names, code)| < |Matches(names, code)|
  {
    if names != [] {
      var front, last := names[..|names| - 1], names[|names| - 1];
      FoundOfNames(front, code);
      FoundOfRuns(Runs(last.words), code, last.element);
      assert last in names && names == front + [last];
    }
  }

  /** A run of the name has the codes, but only after one that has none. */
  ghost predicate ComesTooLate<T>(n: Named<T>, code: seq<Code>) {
    var runs := Runs(n.words);
    exists k :: |Codable(runs)| <= k < |runs| && CodeWord(runs[k]) == code
  }

  lemma TooLate<T>(n: Named<T>) returns (text: seq<Byte>)
    requires !CodesFirst(Runs(n.words))
    ensures CodeWord(text) != [] && ComesTooLate(n, CodeWord(text))
  {
    var runs := Runs(n.words);
    var j, k :| 0 <= j < k < |runs| && CodeWord(runs[j]) == [] && CodeWord(runs[k]) != [];
    CodableUpTo(runs, j);
    text := runs[k];
  }

  lemma {:induction false} CodableUpTo(runs: seq<seq<Byte>>, j: nat)
    requires j < |runs| && CodeWord(runs[j]) == []
    ensures |Codable(runs)| <= j
  {
    if j > 0 && CodeWord(runs[0]) != [] {
      CodableUpTo(runs[1..], j - 1);
    }
  }

  /**
   * For texts that have a code, the elements found are those whose names match, in the order they came, if and only if
   * in every name no long run without a code comes before one with a code.
   */
  lemma CodedTextsFoundIff<T>(names: seq<Named<T>>)
    ensures (forall text | CodeWord(text) != [] ::
              Bucket(Stored(names), PlaceOf(CodeWord(text))) == Matches(names, CodeWord(text)))
       <==> forall n | n in names :: CodesFirst(Runs(n.words))
  {
    if forall n | n in names :: CodesFirst(Runs(n.words)) {
      forall text | CodeWord(text) != []
        ensures Bucket(Stored(names), PlaceOf(CodeWord(text))) == Matches(names, CodeWord(text))
      {
        BucketsAreFound(names, CodeWord(text));
        FoundOfNames(names, CodeWord(text));
      }
    } else {
      var n :| n in names && !CodesFirst(Runs(n.words));
      var text := TooLate(n);
      BucketsAreFound(names, CodeWord(text));
      FoundOfNames(names, CodeWord(text));
      assert Bucket(Stored(names), PlaceOf(CodeWord(text))) != Matches(names, CodeWord(text));
    }
  }

  /** Such a name: a backspace and the letter b. Nothing is stored for it, not even under the letter. */
  lemma UncodableName<T>(element: T)
    ensures var names := [Named([[8], ['b' as int]], element)];
            !AllCodable(Runs(names[0].words)) && Stored(names) == []
                && element in Matches(names, CodeWord(['b' as int]))
  {
    var words: seq<seq<Byte>> := [[8], ['b' as int]];
    var names := [Named(words, element)];
    assert words[0..2] == words && Joined(words) == [8, 0x20, 'b' as int] by {
      assert words[1..] == [['b' as int]];
    }
    assert Runs(words)[0] == Joined(words[0..2]);
    assert CodeWord([8, 0x20, 'b' as int]) == [];
    assert names[..0] == [] && Stored(names[..0]) == [];
    assert words[1..2] == [['b' as int]] && Joined([['b' as int]]) == ['b' as int];
    assert IsRun(words, 1, 1, ['b' as int]);
    assert HasRunOfLength(words, 1, ['b' as int]);
    assert IsLongRun(words, ['b' as int]);
    assert NameMatches(names[0], CodeWord(['b' as int]));
    MatchesWhen(names, CodeWord(['b' as int]), element);
  }

  /** A name matches when one of its long runs has the same codes. */
  ghost predicate NameMatches<T>(n: Named<T>, code: seq<Code>) {
    exists run :: IsLongRun(n.words, run) && CodeWord(run) == code
  }

  /** The name is stored under the codes: they are those of a long run, and no run before it is without a code. */
  ghost predicate NameStored<T>(n: Named<T>, code: seq<Code>) {
    var runs := Runs(n.words);
    exists k {:trigger runs[k]} | 0 <= k < |runs| ::
      CodeWord(runs[k]) == code && forall j | 0 <= j <= k :: CodeWord(runs[j]) != []
  }

  lemma {:induction false} RepeatedWhenMatching<T>(runs: seq<seq<Byte>>, code: seq<Code>, element: T, e: T)
    ensures e in Repeated(runs, code, element) <==> e == element && exists run :: run in runs && CodeWord(run) == code
  {
    if runs != [] {
      RepeatedWhenMatching(runs[1..], code, element, e);
      assert runs == [runs[0]] + runs[1..];
    }
  }

  /** An element is among the matches exactly when one of its names matches. */
  lemma {:induction false} MatchesWhen<T>(names: seq<Named<T>>, code: seq<Code>, e: T)
    ensures e in Matches(names, code) <==> exists n :: n in names && n.element == e && NameMatches(n, code)
  {
    if names != [] {
      var last := names[|names| - 1];
      MatchesWhen(names[..|names| - 1], code, e);
      assert names == names[..|names| - 1] + [last];
      RepeatedWhenMatching(Runs(last.words), code, last.element, e);
      forall run {
        RunsAre(last.words, run);
      }
      assert NameMatches(last, code) <==> exists run :: run in Runs(last.words) && CodeWord(run) == code;
    }
  }

  lemma StoredWhen<T>(n: Named<T>, code: seq<Code>)
    ensures NameStored(n, code) <==> exists run :: run in Codable(Runs(n.words)) && CodeWord(run) == code
  {
    var runs := Runs(n.words);
    CodableIs(runs);
    if run :| run in Codable(runs) && CodeWord(run) == code {
      var k :| 0 <= k < |Codable(runs)| && Codable(runs)[k] == run;
      assert forall j | 0 <= j <= k :: runs[j] in Codable(runs) by {
        assert forall j | 0 <= j <= k :: runs[j] == Codable(runs)[j];
      }
      assert runs[k] == run;
    }
    if NameStored(n, code) {
      var k :| 0 <= k < |runs| && CodeWord(runs[k]) == code && forall j | 0 <= j <= k :: CodeWord(runs[j]) != [];
      assert k < |Codable(runs)|;
      assert runs[k] == Codable(runs)[k];
    }
  }

  /** After any sequence of names, an element is found exactly when one of its names is stored under the codes. */
  lemma {:induction false} FoundWhenStored<T>(names: seq<Named<T>>, code: seq<Code>, e: T)
    ensures e in Bucket(Stored(names), PlaceOf(code)) <==>
            exists n :: n in names && n.element == e && NameStored(n, code)
  {
    BucketsAreFound(names, code);
    if names != [] {
      var last := names[|names| - 1];
      FoundWhenStored(names[..|names| - 1], code, e);
      BucketsAreFound(names[..|names| - 1], code);
      assert names == names[..|names| - 1] + [last];
      RepeatedWhenMatching(Codable(Runs(last.words)), code, last.element, e);
      StoredWhen(last, code);
    }
  }
}
