/** Finite sequences: read backwards, put together, counted. */
module Sequences {

  function Reversed<T>(s: seq<T>): (r: seq<T>)
    ensures |r| == |s|
    ensures forall k | 0 <= k < |s| :: r[k] == s[|s| - 1 - k]
  {
    if s == [] then [] else Reversed(s[1..]) + [s[0]]
  }

  lemma ReversedMembers<T>(s: seq<T>)
    ensures forall x :: x in Reversed(s) <==> x in s
  {
    forall x | x in s
      ensures x in Reversed(s)
    {
      var k :| 0 <= k < |s| && s[k] == x;
      assert Reversed(s)[|s| - 1 - k] == x;
    }
  }

  lemma {:induction false} ReversedSplit<T>(a: seq<T>, x: T)
    ensures Reversed(a + [x]) == [x] + Reversed(a)
  {
  }

  lemma Regroup<T>(a: seq<T>, b: seq<T>, c: seq<T>)
    ensures a + b + c == a + (b + c)
  {
  }

  lemma RegroupFour<T>(a: seq<T>, b: seq<T>, c: seq<T>, d: seq<T>)
    ensures a + (b + c) + d == a + (b + (c + d))
  {
    Regroup(a, b + c, d);
    Regroup(b, c, d);
  }

  /** How often x occurs in s. */
  function Occurrences<T(==)>(s: seq<T>, x: T): nat {
    if s == [] then 0 else Occurrences(s[..|s| - 1], x) + if s[|s| - 1] == x then 1 else 0
  }

  lemma {:induction false} OccurrencesSplit<T>(a: seq<T>, b: seq<T>, x: T)
    ensures Occurrences(a + b, x) == Occurrences(a, x) + Occurrences(b, x)
  {
    if b == [] {
      assert a + b == a;
    } else {
      assert (a + b)[..|a + b| - 1] == a + b[..|b| - 1];
      OccurrencesSplit(a, b[..|b| - 1], x);
    }
  }

  lemma {:induction false} OccursAt<T>(s: seq<T>, x: T) returns (k: nat)
    requires Occurrences(s, x) > 0
    ensures k < |s| && s[k] == x
  {
    var n := |s| - 1;
    if s[n] == x {
      k := n;
    } else {
      k := OccursAt(s[..n], x);
    }
  }

  lemma {:induction false} OccursIff<T>(s: seq<T>, x: T)
    ensures Occurrences(s, x) > 0 <==> x in s
  {
    if s != [] {
      OccursIff(s[..|s| - 1], x);
      assert s == s[..|s| - 1] + [s[|s| - 1]];
    }
  }

  // ----- what is selected from a sequence, in order

  ghost predicate Increasing(s: seq<nat>) {
    forall i, j | 0 <= i < j < |s| :: s[i] < s[j]
  }

  /** These are exactly the places of the elements that are selected. */
  ghost predicate PlacesOf<T(!new)>(s: seq<T>, selects: T -> bool, places: seq<nat>) {
    Increasing(places) && forall i: nat :: i in places <==> i < |s| && selects(s[i])
  }

  ghost predicate ListedAt<T>(s: seq<T>, places: seq<nat>, t: seq<T>) {
    |t| == |places| && forall k | 0 <= k < |t| :: places[k] < |s| && t[k] == s[places[k]]
  }

  /** The sequence t has exactly those elements of s that are selected, each as often and in the same order. */
  ghost predicate SelectedFrom<T(!new)>(s: seq<T>, selects: T -> bool, t: seq<T>) {
    exists places: seq<nat> :: PlacesOf(s, selects, places) && ListedAt(s, places, t)
  }

  lemma NothingSelected<T(!new)>(selects: T -> bool)
    ensures SelectedFrom([], selects, [])
  {
    assert PlacesOf([], selects, []) && ListedAt<T>([], [], []);
  }

  lemma PlacesOfOneMore<T(!new)>(s: seq<T>, x: T, selects: T -> bool, places: seq<nat>, longer: seq<nat>)
    requires PlacesOf(s, selects, places) && longer == places + if selects(x) then [|s|] else []
    ensures PlacesOf(s + [x], selects, longer)
  {
    assert forall k | 0 <= k < |places| :: places[k] in places;
    forall i: nat
      ensures i in longer <==> i < |s| + 1 && selects((s + [x])[i])
    {
      assert i in places <==> i < |s| && selects(s[i]);
    }
  }

  lemma ListedOneMore<T>(s: seq<T>, x: T, places: seq<nat>, t: seq<T>)
    requires ListedAt(s, places, t)
    ensures ListedAt(s + [x], places, t)
    ensures ListedAt(s + [x], places + [|s|], t + [x])
  {
  }

  lemma SelectOneMore<T(!new)>(s: seq<T>, x: T, selects: T -> bool, t: seq<T>)
    requires SelectedFrom(s, selects, t)
    ensures SelectedFrom(s + [x], selects, t + if selects(x) then [x] else [])
  {
    var places: seq<nat> :| PlacesOf(s, selects, places) && ListedAt(s, places, t);
    ListedOneMore(s, x, places, t);
    if selects(x) {
      PlacesOfOneMore(s, x, selects, places, places + [|s|]);
    } else {
      assert places + [] == places && t + [] == t;
      PlacesOfOneMore(s, x, selects, places, places);
    }
  }
}
