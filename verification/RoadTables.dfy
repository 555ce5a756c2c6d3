/** The tables of ways by road, and sorting the roads of unknown county into their counties. */
module RoadTables {
  import opened Options
  import opened SparseFormat
  import opened Sequences
  import opened Streams
  import opened SwedenFormat

  // ----- road types, which are numbered

  const EUROPE := 0
  const NATIONAL := 1
  const LAN_Y := 20
  const LAN_UNKNOWN := 23
  const UNKNOWN_ROAD_TYPE := 24

  /** The place of the roads of unknown county. */
  const UNKNOWN_LAN := LAN_UNKNOWN - 2

  /** The road type of a county, given the code of the county or of a municipality in it. */
  function RoadTypeForArea(area: nat): (roadType: nat)
    ensures 2 <= roadType <= LAN_UNKNOWN
  {
    var code := if area > 100 then area / 100 else area;
    if code == 12 then 2
    else if code == 10 then 3
    else if code == 9 then 4
    else if code == 8 then 5
    else if code == 7 then 6
    else if code == 13 then 7
    else if code == 14 then 8
    else if code == 6 then 9
    else if code == 5 then 10
    else if code == 4 then 11
    else if code == 1 then 12
    else if code == 3 then 13
    else if code == 19 then 14
    else if code == 18 then 15
    else if code == 17 then 16
    else if code == 20 then 17
    else if code == 21 then 18
    else if code == 23 then 19
    else if code == 22 then 20
    else if code == 24 then 21
    else if code == 25 then 22
    else LAN_UNKNOWN
  }

  /** Different known counties have different road types. */
  lemma CountiesDiffer(a: nat, b: nat)
    requires a < 100 && b < 100 && RoadTypeForArea(a) != LAN_UNKNOWN && RoadTypeForArea(a) == RoadTypeForArea(b)
    ensures a == b
  {
  }

  /** The road types, in the order of their numbers: two kinds of roads, and the counties by their letters. */
  datatype RoadType =
    | Europe | National | LanM | LanK | LanI | LanH | LanG | LanN | LanO | LanF | LanE | LanD | LanAB
    | LanC | LanU | LanT | LanS | LanW | LanX | LanZ | LanY | LanAC | LanBD | LanUnknown | UnknownType
  {
    function Number(): nat {
      match this
      case Europe => 0
      case National => 1
      case LanM => 2
      case LanK => 3
      case LanI => 4
      case LanH => 5
      case LanG => 6
      case LanN => 7
      case LanO => 8
      case LanF => 9
      case LanE => 10
      case LanD => 11
      case LanAB => 12
      case LanC => 13
      case LanU => 14
      case LanT => 15
      case LanS => 16
      case LanW => 17
      case LanX => 18
      case LanZ => 19
      case LanY => 20
      case LanAC => 21
      case LanBD => 22
      case LanUnknown => 23
      case UnknownType => 24
    }
  }

  predicate IsType(code: nat, t: RoadType) {
    RoadTypeForArea(code) == t.Number()
  }

  /** From Stockholm, 1, to Norrbotten, 25: the official codes of the counties and their letters. */
  lemma CountyLetters()
    ensures IsType(1, LanAB) && IsType(3, LanC) && IsType(4, LanD) && IsType(5, LanE) && IsType(6, LanF)
    ensures IsType(7, LanG) && IsType(8, LanH) && IsType(9, LanI) && IsType(10, LanK) && IsType(12, LanM)
    ensures IsType(13, LanN) && IsType(14, LanO) && IsType(17, LanS) && IsType(18, LanT) && IsType(19, LanU)
    ensures IsType(20, LanW) && IsType(21, LanX) && IsType(22, LanY) && IsType(23, LanZ) && IsType(24, LanAC)
    ensures IsType(25, LanBD)
    ensures forall code | code in [0, 2, 11, 15, 16] || 26 <= code <= 100 :: IsType(code, LanUnknown)
  {
  }

  /** A municipality has the type of the county that the leading digits of its code give. */
  lemma MunicipalityInCounty(county: nat, rest: nat)
    requires 0 < county <= 100 && 0 < rest < 100
    ensures RoadTypeForArea(100 * county + rest) == RoadTypeForArea(county)
  {
    assert (100 * county + rest) / 100 == county;
  }

  // ----- cells of the regional table

  ghost predicate ShapedCounty(county: seq<Row>) {
    && |county| == REGIONAL_OUTER_LEN
    && forall a | 0 <= a < |county| && county[a].Some? :: |county[a].value| == REGIONAL_INNER_LEN
  }

  ghost predicate Shaped(t: seq<County>) {
    |t| == REGIONAL_LEN && forall l | 0 <= l < |t| && t[l].Some? :: ShapedCounty(t[l].value)
  }

  predicate InTable(l: nat, a: nat, b: nat) {
    l < REGIONAL_LEN && a < REGIONAL_OUTER_LEN && b < REGIONAL_INNER_LEN
  }

  function CellAt(t: seq<County>, l: nat, a: nat, b: nat): Cell
    requires Shaped(t) && InTable(l, a, b)
  {
    if t[l].None? || t[l].value[a].None? then None else t[l].value[a].value[b]
  }

  predicate HasRow(t: seq<County>, l: nat, a: nat)
    requires Shaped(t) && l < REGIONAL_LEN && a < REGIONAL_OUTER_LEN
  {
    t[l].Some? && t[l].value[a].Some?
  }

  /** The table with another cell; what there is not yet around it is created. */
  function WithCell(t: seq<County>, l: nat, a: nat, b: nat, cell: Cell): seq<County>
    requires Shaped(t) && InTable(l, a, b)
  {
    var county := if t[l].Some? then t[l].value else Nothing(REGIONAL_OUTER_LEN);
    var row := if county[a].Some? then county[a].value else Nothing(REGIONAL_INNER_LEN);
    t[l := Some(county[a := Some(row[b := cell])])]
  }

  lemma WithCellShaped(t: seq<County>, l: nat, a: nat, b: nat, cell: Cell)
    requires Shaped(t) && InTable(l, a, b)
    ensures Shaped(WithCell(t, l, a, b, cell)) && HasRow(WithCell(t, l, a, b, cell), l, a)
    ensures forall m, x | m < REGIONAL_LEN && x < REGIONAL_OUTER_LEN && 0 <= m && 0 <= x && (m != l || x != a) ::
              HasRow(WithCell(t, l, a, b, cell), m, x) == HasRow(t, m, x)
  {
    var county := if t[l].Some? then t[l].value else Nothing(REGIONAL_OUTER_LEN);
    var row := if county[a].Some? then county[a].value else Nothing(REGIONAL_INNER_LEN);
    assert ShapedCounty(county[a := Some(row[b := cell])]);
  }

  lemma WithCellAt(t: seq<County>, l: nat, a: nat, b: nat, cell: Cell, m: nat, x: nat, y: nat)
    requires Shaped(t) && InTable(l, a, b) && InTable(m, x, y)
    ensures Shaped(WithCell(t, l, a, b, cell))
    ensures CellAt(WithCell(t, l, a, b, cell), m, x, y) ==
            if m == l && x == a && y == b then cell else CellAt(t, m, x, y)
  {
    WithCellShaped(t, l, a, b, cell);
  }

  function Ways(cell: Cell): seq<U64> {
    if cell.None? then [] else cell.value
  }

  function Extended(cell: Cell, more: seq<U64>): Cell {
    if more == [] then cell else Some(Ways(cell) + more)
  }

  // ----- what becomes of a list of ways

  /** Where a way belongs: the county around its middle node, if it has nodes and that is known. */
  type Geography = U64 -> Option<nat>

  /** Of some ways those that belong to a county. */
  function Moved(where: Geography, ways: seq<U64>, l: nat): seq<U64> {
    if ways == [] then []
    else Moved(where, ways[..|ways| - 1], l) + if where(ways[|ways| - 1]) == Some(l) then [ways[|ways| - 1]] else []
  }

  /** And those that cannot be placed. */
  function Kept(where: Geography, ways: seq<U64>): seq<U64> {
    if ways == [] then []
    else Kept(where, ways[..|ways| - 1]) + if where(ways[|ways| - 1]) == None then [ways[|ways| - 1]] else []
  }

  function Fixed(where: Geography, t: seq<County>, l: nat, a: nat, b: nat): Cell
    requires Shaped(t) && InTable(l, a, b)
  {
    var ways := Ways(CellAt(t, UNKNOWN_LAN, a, b));
    if l != UNKNOWN_LAN then Extended(CellAt(t, l, a, b), Moved(where, ways, l))
    else if Kept(where, ways) == [] then None
    else Some(Kept(where, ways))
  }

  // ----- counting

  lemma OccurrencesStep(a: seq<U64>, added: bool, x: U64, w: U64)
    ensures Occurrences(a + if added then [x] else [], w) == Occurrences(a, w) + if added && x == w then 1 else 0
  {
    if added {
      assert (a + [x])[..|a|] == a;
    } else {
      assert a + [] == a;
    }
  }

  lemma MovedStep(where: Geography, ways: seq<U64>, x: U64, l: nat)
    ensures Moved(where, ways + [x], l) == Moved(where, ways, l) + if where(x) == Some(l) then [x] else []
    ensures Kept(where, ways + [x]) == Kept(where, ways) + if where(x) == None then [x] else []
  {
    assert (ways + [x])[..|ways|] == ways;
  }

  function CountIf(b: bool): nat {
    if b then 1 else 0
  }

  lemma MovedCount(where: Geography, ways: seq<U64>, longer: seq<U64>, last: U64, l: nat, w: U64)
    requires longer == ways + [last]
    ensures Occurrences(Moved(where, longer, l), w)
            == Occurrences(Moved(where, ways, l), w) + CountIf(where(last) == Some(l) && last == w)
  {
    MovedStep(where, ways, last, l);
    OccurrencesStep(Moved(where, ways, l), where(last) == Some(l), last, w);
  }

  lemma KeptCount(where: Geography, ways: seq<U64>, longer: seq<U64>, last: U64, w: U64)
    requires longer == ways + [last]
    ensures Occurrences(Kept(where, longer), w)
            == Occurrences(Kept(where, ways), w) + CountIf(where(last) == None && last == w)
  {
    MovedStep(where, ways, last, 0);
    OccurrencesStep(Kept(where, ways), where(last) == None, last, w);
  }

  function Sum(f: nat -> nat, n: nat): nat {
    if n == 0 then 0 else Sum(f, n - 1) + f(n - 1)
  }

  function ListedTimes(t: seq<County>, a: nat, b: nat, w: U64): nat -> nat
    requires Shaped(t) && a < REGIONAL_OUTER_LEN && b < REGIONAL_INNER_LEN
  {
    (l: nat) => if l < REGIONAL_LEN then Occurrences(Ways(CellAt(t, l, a, b)), w) else 0
  }

  /** How often a way is listed for a road number in the first n counties. */
  function Listings(t: seq<County>, a: nat, b: nat, w: U64, n: nat): nat
    requires Shaped(t) && n <= REGIONAL_LEN && a < REGIONAL_OUTER_LEN && b < REGIONAL_INNER_LEN
  {
    Sum(ListedTimes(t, a, b, w), n)
  }

  lemma {:induction false} SumAdded(f: nat -> nat, g: nat -> nat, h: nat -> nat, n: nat)
    requires forall l: nat | l < n :: h(l) == f(l) + g(l)
    ensures Sum(h, n) == Sum(f, n) + Sum(g, n)
  {
    if n > 0 {
      SumAdded(f, g, h, n - 1);
    }
  }

  lemma {:induction false} SumWithOneMore(f: nat -> nat, g: nat -> nat, at: Option<nat>, n: nat)
    requires forall l: nat :: g(l) == f(l) + CountIf(at == Some(l))
    ensures Sum(g, n) == Sum(f, n) + CountIf(at.Some? && at.value < n)
  {
    if n > 0 {
      SumWithOneMore(f, g, at, n - 1);
    }
  }

  lemma {:induction false} SumOfNothing(f: nat -> nat, n: nat)
    requires forall l: nat :: f(l) == 0
    ensures Sum(f, n) == 0
  {
    if n > 0 {
      SumOfNothing(f, n - 1);
    }
  }

  function MovedTimes(where: Geography, ways: seq<U64>, w: U64): nat -> nat {
    (l: nat) => Occurrences(Moved(where, ways, l), w)
  }

  /** How often a way is among those moved to the first n counties. */
  function MovedListings(where: Geography, ways: seq<U64>, w: U64, n: nat): nat {
    Sum(MovedTimes(where, ways, w), n)
  }

  lemma OneMoreWay(where: Geography, ways: seq<U64>, longer: seq<U64>, last: U64, w: U64, n: nat)
    requires longer == ways + [last]
    ensures MovedListings(where, longer, w, n) ==
            MovedListings(where, ways, w, n) + CountIf(last == w && where(w).Some? && where(w).value < n)
  {
    var f, g := MovedTimes(where, ways, w), MovedTimes(where, longer, w);
    var at := if last == w then where(w) else None;
    forall l: nat
      ensures g(l) == f(l) + CountIf(at == Some(l))
    {
      MovedCount(where, ways, longer, last, l, w);
    }
    SumWithOneMore(f, g, at, n);
  }

  /** A geography of counties the table knows. */
  ghost predicate Known(where: Geography) {
    forall w :: where(w).Some? ==> where(w).value < UNKNOWN_LAN
  }

  /** Every way is moved once or kept. */
  lemma {:induction false} MovedOrKept(where: Geography, ways: seq<U64>, w: U64)
    requires Known(where)
    ensures MovedListings(where, ways, w, UNKNOWN_LAN) + Occurrences(Kept(where, ways), w) == Occurrences(ways, w)
  {
    if ways == [] {
      NothingMoved(where, w, UNKNOWN_LAN);
    } else {
      var others, last := ways[..|ways| - 1], ways[|ways| - 1];
      assert ways == others + [last];
      MovedOrKept(where, others, w);
      OneMoreWay(where, others, ways, last, w, UNKNOWN_LAN);
      KeptCount(where, others, ways, last, w);
      OccurrencesStep(others, true, last, w);
    }
  }

  lemma NothingMoved(where: Geography, w: U64, n: nat)
    ensures MovedListings(where, [], w, n) == 0
  {
    SumOfNothing(MovedTimes(where, [], w), n);
  }

  lemma ExtendedListing(cell: Cell, more: seq<U64>, w: U64)
    ensures Occurrences(Ways(Extended(cell, more)), w) == Occurrences(Ways(cell), w) + Occurrences(more, w)
  {
    OccurrencesSplit(Ways(cell), more, w);
  }

  lemma ListingsGrow(where: Geography, before: seq<County>, after: seq<County>, a: nat, b: nat, ways: seq<U64>, w: U64,
                     n: nat)
    requires Shaped(before) && Shaped(after) && n <= UNKNOWN_LAN && a < REGIONAL_OUTER_LEN && b < REGIONAL_INNER_LEN
    requires forall l | 0 <= l < n :: CellAt(after, l, a, b) == Extended(CellAt(before, l, a, b), Moved(where, ways, l))
    ensures Listings(after, a, b, w, n) == Listings(before, a, b, w, n) + MovedListings(where, ways, w, n)
  {
    var f, g, h := ListedTimes(before, a, b, w), MovedTimes(where, ways, w), ListedTimes(after, a, b, w);
    forall l: nat | l < n
      ensures h(l) == f(l) + g(l)
    {
      ExtendedListing(CellAt(before, l, a, b), Moved(where, ways, l), w);
      assert CellAt(after, l, a, b) == Extended(CellAt(before, l, a, b), Moved(where, ways, l));
    }
    SumAdded(f, g, h, n);
  }

  /** No way is lost or doubled: for each road number it is listed as often as before, over all counties. */
  lemma FixingConserves(where: Geography, before: seq<County>, after: seq<County>, a: nat, b: nat, w: U64)
    requires Known(where) && Shaped(before) && Shaped(after) && a < REGIONAL_OUTER_LEN && b < REGIONAL_INNER_LEN
    requires forall l | 0 <= l < REGIONAL_LEN :: CellAt(after, l, a, b) == Fixed(where, before, l, a, b)
    ensures Listings(after, a, b, w, REGIONAL_LEN) == Listings(before, a, b, w, REGIONAL_LEN)
  {
    var ways := Ways(CellAt(before, UNKNOWN_LAN, a, b));
    ListingsGrow(where, before, after, a, b, ways, w, UNKNOWN_LAN);
    MovedOrKept(where, ways, w);
    assert CellAt(after, UNKNOWN_LAN, a, b) == Fixed(where, before, UNKNOWN_LAN, a, b);
    var f, h := ListedTimes(before, a, b, w), ListedTimes(after, a, b, w);
    assert f(UNKNOWN_LAN) == Occurrences(ways, w) && h(UNKNOWN_LAN) == Occurrences(Kept(where, ways), w);
    assert Sum(f, UNKNOWN_LAN + 1) == Sum(f, UNKNOWN_LAN) + f(UNKNOWN_LAN);
    assert Sum(h, UNKNOWN_LAN + 1) == Sum(h, UNKNOWN_LAN) + h(UNKNOWN_LAN);
  }

  lemma AllConserved(where: Geography, before: seq<County>, after: seq<County>)
    requires Known(where) && Shaped(before) && Shaped(after)
    requires forall l: nat, a: nat, b: nat | InTable(l, a, b) :: CellAt(after, l, a, b) == Fixed(where, before, l, a, b)
    ensures forall a: nat, b: nat, w: U64 | InTable(UNKNOWN_LAN, a, b) ::
              Listings(after, a, b, w, REGIONAL_LEN) == Listings(before, a, b, w, REGIONAL_LEN)
  {
    forall a: nat, b: nat, w: U64 | InTable(UNKNOWN_LAN, a, b)
      ensures Listings(after, a, b, w, REGIONAL_LEN) == Listings(before, a, b, w, REGIONAL_LEN)
    {
      forall l: nat | l < REGIONAL_LEN
        ensures CellAt(after, l, a, b) == Fixed(where, before, l, a, b)
      {
        assert InTable(l, a, b);
      }
      FixingConserves(where, before, after, a, b, w);
    }
  }

  lemma {:induction false} MovedBelongs(where: Geography, ways: seq<U64>, l: nat, w: U64)
    ensures w in Moved(where, ways, l) <==> w in ways && where(w) == Some(l)
    ensures w in Kept(where, ways) <==> w in ways && where(w) == None
  {
    if ways != [] {
      MovedBelongs(where, ways[..|ways| - 1], l, w);
      assert ways == ways[..|ways| - 1] + [ways[|ways| - 1]];
    }
  }

  /**
   * Each way lies in the slot of its own county afterwards, and those left behind are the ones that cannot be placed.
   */
  lemma FixingPlaces(where: Geography, t: seq<County>, a: nat, b: nat, l: nat, w: U64)
    requires Shaped(t) && InTable(l, a, b) && w in Ways(CellAt(t, UNKNOWN_LAN, a, b))
    ensures where(w) == Some(l) && l != UNKNOWN_LAN ==> w in Ways(Fixed(where, t, l, a, b))
    ensures w in Ways(Fixed(where, t, UNKNOWN_LAN, a, b)) <==> where(w) == None
  {
    MovedBelongs(where, Ways(CellAt(t, UNKNOWN_LAN, a, b)), l, w);
  }

  /** Whether a way goes to a county, or stays where l is None. */
  function GoesTo(where: Geography, l: Option<nat>): U64 -> bool {
    (w: U64) => where(w) == l
  }

  lemma {:induction false} MovedInOrder(where: Geography, ways: seq<U64>, l: nat)
    ensures SelectedFrom(ways, GoesTo(where, Some(l)), Moved(where, ways, l))
    ensures SelectedFrom(ways, GoesTo(where, None), Kept(where, ways))
  {
    if ways != [] {
      var n := |ways| - 1;
      MovedInOrder(where, ways[..n], l);
      SelectOneMore(ways[..n], ways[n], GoesTo(where, Some(l)), Moved(where, ways[..n], l));
      SelectOneMore(ways[..n], ways[n], GoesTo(where, None), Kept(where, ways[..n]));
      assert ways[..n] + [ways[n]] == ways;
    } else {
      NothingSelected(GoesTo(where, Some(l)));
      NothingSelected(GoesTo(where, None));
    }
  }

  /**
   * Order is kept: the ways a county had come first, as before, and then those moved there in the order they had; and
   * in that order the ways stay that cannot be placed.
   */
  lemma FixingKeepsOrder(where: Geography, t: seq<County>, l: nat, a: nat, b: nat)
    requires Shaped(t) && InTable(l, a, b)
    ensures var ways, had := Ways(CellAt(t, UNKNOWN_LAN, a, b)), Ways(CellAt(t, l, a, b));
            var has := Ways(Fixed(where, t, l, a, b));
            if l == UNKNOWN_LAN then SelectedFrom(ways, GoesTo(where, None), has)
            else had <= has && SelectedFrom(ways, GoesTo(where, Some(l)), has[|had|..])
  {
    MovedInOrder(where, Ways(CellAt(t, UNKNOWN_LAN, a, b)), l);
  }

  /** A list that nothing is left in is dropped, and one that is not there is not made for nothing. */
  lemma NoEmptyListMade(where: Geography, t: seq<County>, l: nat, a: nat, b: nat)
    requires Shaped(t) && InTable(l, a, b)
    ensures var ways := Ways(CellAt(t, UNKNOWN_LAN, a, b));
            Fixed(where, t, l, a, b).None? <==>
            if l == UNKNOWN_LAN then forall w | w in ways :: where(w) != None
            else CellAt(t, l, a, b).None? && forall w | w in ways :: where(w) != Some(l)
  {
    var ways := Ways(CellAt(t, UNKNOWN_LAN, a, b));
    forall w
      ensures w in Moved(where, ways, l) <==> w in ways && where(w) == Some(l)
      ensures w in Kept(where, ways) <==> w in ways && where(w) == None
    {
      MovedBelongs(where, ways, l, w);
    }
    assert Moved(where, ways, l) != [] ==> Moved(where, ways, l)[0] in Moved(where, ways, l);
    assert Kept(where, ways) != [] ==> Kept(where, ways)[0] in Kept(where, ways);
  }

  // ----- one list of ways, taken apart in place

  ghost predicate SameElsewhere(before: seq<County>, now: seq<County>, a: nat, b: nat)
    requires Shaped(before) && Shaped(now)
  {
    && (forall l, x, y | InTable(l, x, y) && (x != a || y != b) :: CellAt(now, l, x, y) == CellAt(before, l, x, y))
    && (forall x | 0 <= x < REGIONAL_OUTER_LEN :: HasRow(now, UNKNOWN_LAN, x) == HasRow(before, UNKNOWN_LAN, x))
  }

  ghost predicate Extends(where: Geography, before: seq<County>, now: seq<County>, a: nat, b: nat, ways: seq<U64>)
    requires Shaped(before) && Shaped(now) && a < REGIONAL_OUTER_LEN && b < REGIONAL_INNER_LEN
  {
    forall l | 0 <= l < UNKNOWN_LAN :: CellAt(now, l, a, b) == Extended(CellAt(before, l, a, b), Moved(where, ways, l))
  }

  /** The first n ways have been placed or kept, the others are still to be looked at. */
  ghost predicate Midway(where: Geography, before: seq<County>, now: seq<County>, a: nat, b: nat, ways: seq<U64>,
                         n: nat) {
    && Shaped(before) && Shaped(now) && a < REGIONAL_OUTER_LEN && b < REGIONAL_INNER_LEN && n <= |ways|
    && SameElsewhere(before, now, a, b)
    && Extends(where, before, now, a, b, ways[..n])
    && CellAt(now, UNKNOWN_LAN, a, b) == Some(Kept(where, ways[..n]) + ways[n..])
  }

  function WithWay(t: seq<County>, l: nat, a: nat, b: nat, w: U64): seq<County>
    requires Shaped(t) && InTable(l, a, b)
  {
    WithCell(t, l, a, b, Some(Ways(CellAt(t, l, a, b)) + [w]))
  }

  lemma ChangedCell(t: seq<County>, l: nat, a: nat, b: nat, cell: Cell)
    requires Shaped(t) && InTable(l, a, b) && HasRow(t, UNKNOWN_LAN, a)
    ensures var now := WithCell(t, l, a, b, cell);
            && Shaped(now) && SameElsewhere(t, now, a, b) && HasRow(now, UNKNOWN_LAN, a)
            && forall m | 0 <= m < REGIONAL_LEN :: CellAt(now, m, a, b) == if m == l then cell else CellAt(t, m, a, b)
  {
    var now := WithCell(t, l, a, b, cell);
    WithCellShaped(t, l, a, b, cell);
    forall m, x, y | InTable(m, x, y)
      ensures CellAt(now, m, x, y) == if m == l && x == a && y == b then cell else CellAt(t, m, x, y)
    {
      WithCellAt(t, l, a, b, cell, m, x, y);
    }
  }

  lemma SplitAt(where: Geography, ways: seq<U64>, n: nat, l: nat)
    requires n < |ways|
    ensures where(ways[n]) == Some(l) ==> Moved(where, ways[..n + 1], l) == Moved(where, ways[..n], l) + [ways[n]]
    ensures where(ways[n]) != Some(l) ==> Moved(where, ways[..n + 1], l) == Moved(where, ways[..n], l)
    ensures where(ways[n]) == None ==> Kept(where, ways[..n + 1]) == Kept(where, ways[..n]) + [ways[n]]
    ensures where(ways[n]) != None ==> Kept(where, ways[..n + 1]) == Kept(where, ways[..n])
  {
    assert ways[..n + 1] == ways[..n] + [ways[n]];
    MovedStep(where, ways[..n], ways[n], l);
  }

  lemma KeepStep(where: Geography, before: seq<County>, now: seq<County>, a: nat, b: nat, ways: seq<U64>, n: nat)
    requires Midway(where, before, now, a, b, ways, n) && n < |ways| && where(ways[n]) == None
    ensures Midway(where, before, now, a, b, ways, n + 1)
  {
    forall l | 0 <= l < UNKNOWN_LAN
      ensures CellAt(now, l, a, b) == Extended(CellAt(before, l, a, b), Moved(where, ways[..n + 1], l))
    {
      SplitAt(where, ways, n, l);
    }
    SplitAt(where, ways, n, 0);
    assert Kept(where, ways[..n]) + ways[n..] == Kept(where, ways[..n]) + [ways[n]] + ways[n + 1..];
  }

  lemma PlaceStep(where: Geography, before: seq<County>, now: seq<County>, placed: seq<County>, a: nat, b: nat,
                  ways: seq<U64>, n: nat, l: nat)
    requires Shaped(before) && Shaped(now) && Shaped(placed) && a < REGIONAL_OUTER_LEN && b < REGIONAL_INNER_LEN
    requires n < |ways| && where(ways[n]) == Some(l) && l < UNKNOWN_LAN
    requires Extends(where, before, now, a, b, ways[..n])
    requires forall m | 0 <= m < UNKNOWN_LAN ::
               CellAt(placed, m, a, b) ==
               if m == l then Some(Ways(CellAt(now, l, a, b)) + [ways[n]]) else CellAt(now, m, a, b)
    ensures Extends(where, before, placed, a, b, ways[..n + 1])
  {
    forall m | 0 <= m < UNKNOWN_LAN
      ensures CellAt(placed, m, a, b) == Extended(CellAt(before, m, a, b), Moved(where, ways[..n + 1], m))
    {
      SplitAt(where, ways, n, m);
      assert CellAt(now, m, a, b) == Extended(CellAt(before, m, a, b), Moved(where, ways[..n], m));
      if m == l {
        ExtendedOnce(CellAt(before, m, a, b), Moved(where, ways[..n], m), ways[n]);
      }
    }
  }

  lemma MoveStep(where: Geography, before: seq<County>, now: seq<County>, a: nat, b: nat, ways: seq<U64>, n: nat,
                 l: nat, left: seq<U64>)
    requires Midway(where, before, now, a, b, ways, n) && n < |ways| && where(ways[n]) == Some(l) && l < UNKNOWN_LAN
    requires HasRow(now, UNKNOWN_LAN, a) && left == Kept(where, ways[..n]) + ways[n + 1..]
    ensures var placed := WithWay(now, l, a, b, ways[n]);
            && Shaped(placed)
            && Midway(where, before, WithCell(placed, UNKNOWN_LAN, a, b, Some(left)), a, b, ways, n + 1)
            && HasRow(WithCell(placed, UNKNOWN_LAN, a, b, Some(left)), UNKNOWN_LAN, a)
  {
    var placed := WithWay(now, l, a, b, ways[n]);
    ChangedCell(now, l, a, b, Some(Ways(CellAt(now, l, a, b)) + [ways[n]]));
    ChangedCell(placed, UNKNOWN_LAN, a, b, Some(left));
    PlaceStep(where, before, now, WithCell(placed, UNKNOWN_LAN, a, b, Some(left)), a, b, ways, n, l);
    SplitAt(where, ways, n, 0);
  }

  lemma NextWay(where: Geography, ways: seq<U64>, n: nat, wayIds: seq<U64>, it: nat)
    requires n <= |ways| && wayIds == Kept(where, ways[..n]) + ways[n..] && it == |Kept(where, ways[..n])| < |wayIds|
    ensures n < |ways| && wayIds[it] == ways[n]
            && wayIds[..it] + wayIds[it + 1..] == Kept(where, ways[..n]) + ways[n + 1..]
    ensures |Kept(where, ways[..n + 1])| == if where(ways[n]) == None then it + 1 else it
  {
    SplitAt(where, ways, n, 0);
  }

  lemma ExtendedOnce(cell: Cell, more: seq<U64>, w: U64)
    ensures Some(Ways(Extended(cell, more)) + [w]) == Extended(cell, more + [w])
  {
    assert Ways(cell) + more + [w] == Ways(cell) + (more + [w]);
    assert more == [] ==> more + [w] == [w];
  }

  /** When all ways have been looked at, and an empty list has been dropped, the cell is as it should be. */
  lemma CellDone(where: Geography, before: seq<County>, now: seq<County>, a: nat, b: nat)
    requires Shaped(before) && a < REGIONAL_OUTER_LEN && b < REGIONAL_INNER_LEN
    requires var ways := Ways(CellAt(before, UNKNOWN_LAN, a, b)); Midway(where, before, now, a, b, ways, |ways|)
    requires HasRow(now, UNKNOWN_LAN, a)
    ensures var kept := Ways(CellAt(now, UNKNOWN_LAN, a, b));
            var after := WithCell(now, UNKNOWN_LAN, a, b, if kept == [] then None else Some(kept));
            && Shaped(after) && SameElsewhere(before, after, a, b)
            && forall l | 0 <= l < REGIONAL_LEN :: CellAt(after, l, a, b) == Fixed(where, before, l, a, b)
  {
    var ways := Ways(CellAt(before, UNKNOWN_LAN, a, b));
    var kept := Ways(CellAt(now, UNKNOWN_LAN, a, b));
    assert ways[..|ways|] == ways && kept == Kept(where, ways);
    ChangedCell(now, UNKNOWN_LAN, a, b, if kept == [] then None else Some(kept));
  }

  // ----- going through the table

  /** Cells before the given place, row by row, have been dealt with. */
  predicate Earlier(x: nat, y: nat, a: nat, b: nat) {
    x < a || (x == a && y < b)
  }

  ghost predicate FixedUpTo(where: Geography, before: seq<County>, now: seq<County>, a: nat, b: nat) {
    && Shaped(before) && Shaped(now)
    && forall l: nat, x: nat, y: nat | InTable(l, x, y) ::
         CellAt(now, l, x, y) == if Earlier(x, y, a, b) then Fixed(where, before, l, x, y) else CellAt(before, l, x, y)
  }

  lemma NextCell(where: Geography, before: seq<County>, now: seq<County>, after: seq<County>, a: nat, b: nat)
    requires FixedUpTo(where, before, now, a, b) && a < REGIONAL_OUTER_LEN && b < REGIONAL_INNER_LEN
    requires Shaped(after) && SameElsewhere(now, after, a, b)
    requires forall l | 0 <= l < REGIONAL_LEN :: CellAt(after, l, a, b) == Fixed(where, now, l, a, b)
    ensures FixedUpTo(where, before, after, a, b + 1)
  {
    forall l: nat, x: nat, y: nat | InTable(l, x, y)
      ensures CellAt(after, l, x, y)
              == if Earlier(x, y, a, b + 1) then Fixed(where, before, l, x, y) else CellAt(before, l, x, y)
    {
      if x == a && y == b {
        assert CellAt(now, l, a, b) == CellAt(before, l, a, b);
        assert CellAt(now, UNKNOWN_LAN, a, b) == CellAt(before, UNKNOWN_LAN, a, b);
      } else {
        assert CellAt(after, l, x, y) == CellAt(now, l, x, y);
      }
    }
  }

  /** A cell without a list needs nothing. */
  lemma EmptyCell(where: Geography, t: seq<County>, l: nat, a: nat, b: nat)
    requires Shaped(t) && InTable(l, a, b) && CellAt(t, UNKNOWN_LAN, a, b).None?
    ensures Fixed(where, t, l, a, b) == CellAt(t, l, a, b)
  {
  }

  lemma NextRow(where: Geography, before: seq<County>, now: seq<County>, a: nat)
    requires FixedUpTo(where, before, now, a, REGIONAL_INNER_LEN) && a < REGIONAL_OUTER_LEN
    ensures FixedUpTo(where, before, now, a + 1, 0)
  {
    forall l: nat, x: nat, y: nat | InTable(l, x, y)
      ensures CellAt(now, l, x, y)
              == if Earlier(x, y, a + 1, 0) then Fixed(where, before, l, x, y) else CellAt(before, l, x, y)
    {
      assert Earlier(x, y, a, REGIONAL_INNER_LEN) == Earlier(x, y, a + 1, 0);
    }
  }

  /** A row without lists is given up. */
  function WithoutRow(t: seq<County>, l: nat, a: nat): seq<County>
    requires Shaped(t) && l < REGIONAL_LEN && a < REGIONAL_OUTER_LEN && HasRow(t, l, a)
  {
    t[l := Some(t[l].value[a := None])]
  }

  lemma WithoutRowAt(t: seq<County>, l: nat, a: nat)
    requires Shaped(t) && l < REGIONAL_LEN && a < REGIONAL_OUTER_LEN && HasRow(t, l, a)
    requires forall b | 0 <= b < REGIONAL_INNER_LEN :: t[l].value[a].value[b].None?
    ensures Shaped(WithoutRow(t, l, a))
    ensures forall m: nat, x: nat, y: nat | InTable(m, x, y) ::
              CellAt(WithoutRow(t, l, a), m, x, y) == CellAt(t, m, x, y)
    ensures forall x | 0 <= x < REGIONAL_OUTER_LEN && x != a :: HasRow(WithoutRow(t, l, a), l, x) == HasRow(t, l, x)
  {
    assert ShapedCounty(t[l].value[a := None]);
  }

  lemma WithoutCountyAt(t: seq<County>, l: nat)
    requires Shaped(t) && l < REGIONAL_LEN && t[l].Some?
    requires forall a | 0 <= a < REGIONAL_OUTER_LEN :: t[l].value[a].None?
    ensures Shaped(t[l := None])
    ensures forall m: nat, x: nat, y: nat | InTable(m, x, y) :: CellAt(t[l := None], m, x, y) == CellAt(t, m, x, y)
  {
  }

  /** Whatever is there for roads of unknown county has a list in it. */
  ghost predicate Tidy(t: seq<County>, rows: nat)
    requires Shaped(t)
  {
    forall a | 0 <= a < rows <= REGIONAL_OUTER_LEN && HasRow(t, UNKNOWN_LAN, a) ::
      exists b | 0 <= b < REGIONAL_INNER_LEN :: CellAt(t, UNKNOWN_LAN, a, b).Some?
  }

  lemma StillTidy(before: seq<County>, now: seq<County>, a: nat, b: nat)
    requires Shaped(before) && Shaped(now) && SameElsewhere(before, now, a, b) && Tidy(before, a)
    ensures Tidy(now, a)
  {
    forall x | 0 <= x < a <= REGIONAL_OUTER_LEN && HasRow(now, UNKNOWN_LAN, x)
      ensures exists y | 0 <= y < REGIONAL_INNER_LEN :: CellAt(now, UNKNOWN_LAN, x, y).Some?
    {
      assert HasRow(before, UNKNOWN_LAN, x);
      var y :| 0 <= y < REGIONAL_INNER_LEN && CellAt(before, UNKNOWN_LAN, x, y).Some?;
      assert InTable(UNKNOWN_LAN, x, y) && CellAt(now, UNKNOWN_LAN, x, y).Some?;
    }
  }

  lemma EmptyRow(where: Geography, before: seq<County>, now: seq<County>, a: nat)
    requires FixedUpTo(where, before, now, a, 0) && a < REGIONAL_OUTER_LEN && !HasRow(now, UNKNOWN_LAN, a)
             && Tidy(now, a)
    ensures FixedUpTo(where, before, now, a + 1, 0) && Tidy(now, a + 1)
  {
    forall l: nat, x: nat, y: nat | InTable(l, x, y)
      ensures CellAt(now, l, x, y)
              == if Earlier(x, y, a + 1, 0) then Fixed(where, before, l, x, y) else CellAt(before, l, x, y)
    {
      if x == a {
        assert CellAt(now, UNKNOWN_LAN, a, y) == CellAt(before, UNKNOWN_LAN, a, y);
        EmptyCell(where, before, l, a, y);
      }
    }
  }

  lemma CellStart(where: Geography, t: seq<County>, a: nat, b: nat)
    requires Shaped(t) && a < REGIONAL_OUTER_LEN && b < REGIONAL_INNER_LEN && CellAt(t, UNKNOWN_LAN, a, b).Some?
    ensures Midway(where, t, t, a, b, Ways(CellAt(t, UNKNOWN_LAN, a, b)), 0)
  {
    var ways := Ways(CellAt(t, UNKNOWN_LAN, a, b));
    assert ways[..0] == [] && [] + ways[0..] == ways;
  }

  // ----- the tables

  /** The county around the middle node of a way, if the way has nodes and that node lies in a county. */
  function Geographic(wayNodes: map<U64, seq<U64>>, countyAround: U64 -> int): Geography {
    (w: U64) =>
      if w in wayNodes && wayNodes[w] != [] then
        var pivot := wayNodes[w][|wayNodes[w]| / 2];
        if countyAround(pivot) > 0 then Some(RoadTypeForArea(countyAround(pivot)) - 2) else None
      else None
  }

  ghost predicate KnownCounties(countyAround: U64 -> int) {
    forall node :: countyAround(node) > 0 ==> RoadTypeForArea(countyAround(node)) != LAN_UNKNOWN
  }

  /**
   * A way of unknown county leaves exactly if it has nodes and the middle one of them, the later one of two, lies in a
   * county: then it is in the list of that county for the same road number.
   */
  lemma WayFollowsMiddleNode(wayNodes: map<U64, seq<U64>>, countyAround: U64 -> int, t: seq<County>, a: nat, b: nat,
                             w: U64, before: seq<U64>, pivot: U64, after: seq<U64>)
    requires KnownCounties(countyAround) && Shaped(t) && InTable(UNKNOWN_LAN, a, b)
    requires w in Ways(CellAt(t, UNKNOWN_LAN, a, b)) && w in wayNodes
    requires wayNodes[w] == before + [pivot] + after && |after| <= |before| <= |after| + 1
    ensures var where := Geographic(wayNodes, countyAround);
            && (w in Ways(Fixed(where, t, UNKNOWN_LAN, a, b)) <==> countyAround(pivot) <= 0)
            && (countyAround(pivot) > 0 ==>
                  var l := RoadTypeForArea(countyAround(pivot)) - 2;
                  l < UNKNOWN_LAN && w in Ways(Fixed(where, t, l, a, b)))
  {
    var where, nodes := Geographic(wayNodes, countyAround), wayNodes[w];
    assert |nodes| / 2 == |before| && nodes[|before|] == pivot;
    FixingPlaces(where, t, a, b, UNKNOWN_LAN, w);
    if countyAround(pivot) > 0 {
      FixingPlaces(where, t, a, b, RoadTypeForArea(countyAround(pivot)) - 2, w);
    }
  }

  /** A way without nodes, or not known at all, stays. */
  lemma WayWithoutNodesStays(wayNodes: map<U64, seq<U64>>, countyAround: U64 -> int, t: seq<County>, a: nat, b: nat,
                             w: U64)
    requires Shaped(t) && InTable(UNKNOWN_LAN, a, b) && w in Ways(CellAt(t, UNKNOWN_LAN, a, b))
    requires w in wayNodes ==> wayNodes[w] == []
    ensures w in Ways(Fixed(Geographic(wayNodes, countyAround), t, UNKNOWN_LAN, a, b))
  {
    FixingPlaces(Geographic(wayNodes, countyAround), t, a, b, UNKNOWN_LAN, w);
  }

  class Roads {
    var european: seq<seq<U64>>
    var national: seq<seq<U64>>
    var regional: seq<County>

    ghost predicate Valid()
      reads this
    {
      |european| == EUROPEAN_LEN && |national| == NATIONAL_LEN && Shaped(regional)
    }

    constructor ()
      ensures Valid() && european == NoWays(EUROPEAN_LEN) && national == NoWays(NATIONAL_LEN)
              && regional == Nothing(REGIONAL_LEN)
    {
      european := NoWays(EUROPEAN_LEN);
      national := NoWays(NATIONAL_LEN);
      regional := Nothing(REGIONAL_LEN);
    }

    // ----- inserting a way

    /**
     * Add a way to the list of its road; European road numbers from 30 to 39 have no list. Some ways and some
     * numbers of one county are not wanted, other numbers make no sense.
     */
    method InsertWayAsRoad(unwanted: set<U64>, wayid: U64, roadType: nat, number: nat)
      requires Valid() && (roadType == EUROPE ==> number < 30 || 40 <= number)
      modifies this
      ensures Valid()
      ensures var ignored :=
                || wayid in unwanted || wayid == 0 || roadType >= UNKNOWN_ROAD_TYPE || number > 9999
                || (5300 <= number < 5400 && (roadType == LAN_UNKNOWN || roadType == LAN_Y))
                || (roadType == NATIONAL && number >= 500) || (roadType >= 2 && number >= 4096);
              && (ignored || roadType != EUROPE ==> european == old(european))
              && (ignored || roadType != NATIONAL ==> national == old(national))
              && (ignored || roadType < 2 ==> regional == old(regional))
              && (!ignored && roadType == EUROPE ==>
                    var slot := EuropeanIndex(number);
                    european == old(european)[slot := old(european)[slot] + [wayid]])
              && (!ignored && roadType == NATIONAL ==>
                    national == old(national)[number := old(national)[number] + [wayid]])
              && (!ignored && roadType >= 2 ==>
                    forall l: nat, a: nat, b: nat | InTable(l, a, b) ::
                      CellAt(regional, l, a, b) ==
                      if l == roadType - 2 && a * 64 + b == number
                      then Some(Ways(old(CellAt(regional, l, a, b))) + [wayid])
                      else old(CellAt(regional, l, a, b)))
    {
      if wayid in unwanted {
        return;
      }
      if 5300 <= number < 5400 && (roadType == LAN_UNKNOWN || roadType == LAN_Y) {
        return;
      }
      if wayid == 0 || roadType >= UNKNOWN_ROAD_TYPE || number > 9999 {
        return;
      }
      if roadType == EUROPE {
        var slot := EuropeanIndex(number);
        european := european[slot := european[slot] + [wayid]];
      } else if roadType == NATIONAL {
        if number < NATIONAL_LEN {
          national := national[number := national[number] + [wayid]];
        }
      } else {
        var idx := roadType - 2;
        if number < REGIONAL_OUTER_LEN * REGIONAL_INNER_LEN {
          var first, second := number / REGIONAL_INNER_LEN, number % REGIONAL_INNER_LEN;
          var cell := Some(Ways(CellAt(regional, idx, first, second)) + [wayid]);
          forall l: nat, a: nat, b: nat | InTable(l, a, b)
            ensures Shaped(WithCell(regional, idx, first, second, cell))
            ensures CellAt(WithCell(regional, idx, first, second, cell), l, a, b) ==
                    if l == idx && a * REGIONAL_INNER_LEN + b == number then cell else CellAt(regional, l, a, b)
          {
            WithCellAt(regional, idx, first, second, cell, l, a, b);
          }
          WithCellShaped(regional, idx, first, second, cell);
          regional := WithCell(regional, idx, first, second, cell);
        }
      }
    }

    // ----- roads of unknown county

    /** Move the ways of one list, as far as their county is known, to the lists of the same road number there. */
    method FixCell(where: Geography, a: nat, b: nat)
      requires Valid() && Known(where) && a < REGIONAL_OUTER_LEN && b < REGIONAL_INNER_LEN
      requires HasRow(regional, UNKNOWN_LAN, a) && CellAt(regional, UNKNOWN_LAN, a, b).Some?
      modifies this`regional
      ensures Valid() && SameElsewhere(old(regional), regional, a, b)
      ensures forall l | 0 <= l < REGIONAL_LEN :: CellAt(regional, l, a, b) == Fixed(where, old(regional), l, a, b)
    {
      ghost var before, ways := regional, Ways(CellAt(regional, UNKNOWN_LAN, a, b));
      ghost var n := 0;
      var it := 0;
      CellStart(where, before, a, b);
      while it < |Ways(CellAt(regional, UNKNOWN_LAN, a, b))|
        invariant Valid() && HasRow(regional, UNKNOWN_LAN, a)
        invariant Midway(where, before, regional, a, b, ways, n) && it == |Kept(where, ways[..n])|
        decreases |ways| - n
      {
        it := FixWay(where, a, b, it, before, ways, n);
        n := n + 1;
      }
      assert |Ways(CellAt(regional, UNKNOWN_LAN, a, b))| == |Kept(where, ways[..n])| + (|ways| - n);
      assert n == |ways|;
      DropEmptyList(where, a, b, before);
    }

    /** Keep the list with what is left in it, or drop it. */
    method DropEmptyList(where: Geography, a: nat, b: nat, ghost before: seq<County>)
      requires Valid() && Shaped(before) && a < REGIONAL_OUTER_LEN && b < REGIONAL_INNER_LEN
               && HasRow(regional, UNKNOWN_LAN, a)
      requires var ways := Ways(CellAt(before, UNKNOWN_LAN, a, b)); Midway(where, before, regional, a, b, ways, |ways|)
      modifies this`regional
      ensures Valid() && SameElsewhere(before, regional, a, b)
      ensures forall l | 0 <= l < REGIONAL_LEN :: CellAt(regional, l, a, b) == Fixed(where, before, l, a, b)
    {
      CellDone(where, before, regional, a, b);
      var kept := Ways(CellAt(regional, UNKNOWN_LAN, a, b));
      regional := WithCell(regional, UNKNOWN_LAN, a, b, if kept == [] then None else Some(kept));
    }

    /** Move one way to the list of its county, or go on to the next way. */
    method FixWay(where: Geography, a: nat, b: nat, it: nat, ghost before: seq<County>, ghost ways: seq<U64>,
                  ghost n: nat) returns (next: nat)
      requires Valid() && Known(where) && Midway(where, before, regional, a, b, ways, n)
               && HasRow(regional, UNKNOWN_LAN, a)
      requires it == |Kept(where, ways[..n])| < |Ways(CellAt(regional, UNKNOWN_LAN, a, b))|
      modifies this`regional
      ensures Valid() && n < |ways| && Midway(where, before, regional, a, b, ways, n + 1)
              && HasRow(regional, UNKNOWN_LAN, a)
      ensures next == |Kept(where, ways[..n + 1])|
    {
      var wayIds := Ways(CellAt(regional, UNKNOWN_LAN, a, b));
      NextWay(where, ways, n, wayIds, it);
      next := it;
      var properLan := where(wayIds[it]);
      if properLan.Some? {
        var left := wayIds[..it] + wayIds[it + 1..];
        MoveStep(where, before, regional, a, b, ways, n, properLan.value, left);
        regional := WithWay(regional, properLan.value, a, b, wayIds[it]);
        regional := WithCell(regional, UNKNOWN_LAN, a, b, Some(left));
      } else {
        KeepStep(where, before, regional, a, b, ways, n);
        next := it + 1;
      }
    }

    /** Go through the lists of one row, and give the row up if no list is left. */
    method FixRow(where: Geography, a: nat, ghost before: seq<County>)
      requires Valid() && Known(where) && a < REGIONAL_OUTER_LEN && HasRow(regional, UNKNOWN_LAN, a)
      requires FixedUpTo(where, before, regional, a, 0) && Tidy(regional, a)
      modifies this`regional
      ensures Valid() && FixedUpTo(where, before, regional, a + 1, 0) && Tidy(regional, a + 1)
      ensures regional[UNKNOWN_LAN].Some?
    {
      for b := 0 to REGIONAL_INNER_LEN
        invariant Valid() && FixedUpTo(where, before, regional, a, b) && Tidy(regional, a)
                  && HasRow(regional, UNKNOWN_LAN, a)
      {
        ghost var now := regional;
        if CellAt(regional, UNKNOWN_LAN, a, b).Some? {
          FixCell(where, a, b);
        } else {
          forall l: nat | l < REGIONAL_LEN
            ensures CellAt(now, l, a, b) == Fixed(where, now, l, a, b)
          {
            EmptyCell(where, now, l, a, b);
          }
        }
        NextCell(where, before, now, regional, a, b);
        StillTidy(now, regional, a, b);
      }
      NextRow(where, before, regional, a);
      GiveUpRow(a);
    }

    /** Give a row up if there is no list in it. */
    method GiveUpRow(a: nat)
      requires Valid() && a < REGIONAL_OUTER_LEN && HasRow(regional, UNKNOWN_LAN, a) && Tidy(regional, a)
      modifies this`regional
      ensures Valid() && Tidy(regional, a + 1) && regional[UNKNOWN_LAN].Some?
      ensures forall m: nat, x: nat, y: nat | InTable(m, x, y) ::
                CellAt(regional, m, x, y) == old(CellAt(regional, m, x, y))
    {
      var allNull := true;
      var inner := 0;
      while allNull && inner < REGIONAL_INNER_LEN
        invariant inner <= REGIONAL_INNER_LEN
        invariant allNull <==> forall b | 0 <= b < inner :: regional[UNKNOWN_LAN].value[a].value[b].None?
      {
        allNull := regional[UNKNOWN_LAN].value[a].value[inner].None?;
        inner := inner + 1;
      }
      if allNull {
        WithoutRowAt(regional, UNKNOWN_LAN, a);
        regional := WithoutRow(regional, UNKNOWN_LAN, a);
      } else {
        var b :| 0 <= b < inner && regional[UNKNOWN_LAN].value[a].value[b].Some?;
        assert CellAt(regional, UNKNOWN_LAN, a, b).Some?;
      }
    }

    /**
     * Move the ways of all roads of unknown county to their counties. Each list becomes what the ways it held require,
     * and of the table for roads of unknown county only lists, rows and the whole remain that are not empty.
     */
    method FixUnlabeledRegionalRoads(wayNodes: map<U64, seq<U64>>, countyAround: U64 -> int)
      requires Valid() && KnownCounties(countyAround)
      modifies this`regional
      ensures Valid()
      ensures forall l: nat, a: nat, b: nat | InTable(l, a, b) ::
                CellAt(regional, l, a, b) == Fixed(Geographic(wayNodes, countyAround), old(regional), l, a, b)
      ensures forall a: nat, b: nat, w: U64 | InTable(UNKNOWN_LAN, a, b) ::
                Listings(regional, a, b, w, REGIONAL_LEN) == Listings(old(regional), a, b, w, REGIONAL_LEN)
      ensures Tidy(regional, REGIONAL_OUTER_LEN)
      ensures regional[UNKNOWN_LAN].Some? ==> exists a | 0 <= a < REGIONAL_OUTER_LEN :: HasRow(regional, UNKNOWN_LAN, a)
    {
      var where := Geographic(wayNodes, countyAround);
      ghost var before := regional;
      if regional[UNKNOWN_LAN].None? {
        AllConserved(where, before, regional);
        return;
      }
      for outer := 0 to REGIONAL_OUTER_LEN
        invariant Valid() && FixedUpTo(where, before, regional, outer, 0) && Tidy(regional, outer)
                  && regional[UNKNOWN_LAN].Some?
      {
        if regional[UNKNOWN_LAN].value[outer].Some? {
          FixRow(where, outer, before);
        } else {
          EmptyRow(where, before, regional, outer);
        }
      }
      var allNull := true;
      var outer := 0;
      while allNull && outer < REGIONAL_OUTER_LEN
        invariant outer <= REGIONAL_OUTER_LEN
        invariant allNull <==> forall a | 0 <= a < outer :: regional[UNKNOWN_LAN].value[a].None?
      {
        allNull := regional[UNKNOWN_LAN].value[outer].None?;
        outer := outer + 1;
      }
      if allNull {
        WithoutCountyAt(regional, UNKNOWN_LAN);
        regional := regional[UNKNOWN_LAN := None];
      } else {
        var a :| 0 <= a < outer && regional[UNKNOWN_LAN].value[a].Some?;
        assert HasRow(regional, UNKNOWN_LAN, a);
      }
      AllConserved(where, before, regional);
    }
  }
}
