/** How areas, roads and administrative regions are laid out in a file. */
module SwedenFormat {
  import opened Options
  import opened Payloads
  import opened SparseFormat
  import opened Sequences
  import opened Streams

  const TERMINATOR_16: U16 := 0xfefe
  const REASONABLE := 0x3f_ffff
  const EUROPEAN_LEN := 30
  const NATIONAL_LEN := 500
  const REGIONAL_LEN := 22
  const REGIONAL_OUTER_LEN := 64
  const REGIONAL_INNER_LEN := 64
  const LONGEST_NAME := 8191

  // ----- lists of ways

  /** A count and the way ids; a count that looks too large stops the program. */
  function PutIds(ids: seq<U64>): seq<Byte> {
    Encoded(|ids|, 8) + PutAll(PutU64, ids)
  }

  function TakeIds(bytes: seq<Byte>): (r: Reading<seq<U64>>)
    ensures r.Read? ==> |r.rest| <= |bytes|
  {
    match TakeU64(bytes)
    case Fatal => Fatal
    case Read(count, rest) => if count > REASONABLE then Fatal else TakeAll(TakeU64, rest, count)
  }

  predicate Countable(ids: seq<U64>) {
    |ids| < Limit(8)
  }

  predicate Reasonable(ids: seq<U64>) {
    |ids| <= REASONABLE
  }

  lemma IdsRoundTrip(ids: seq<U64>, tail: seq<Byte>)
    requires Countable(ids)
    ensures TakeIds(PutIds(ids) + tail) == if Reasonable(ids) then Read(ids, tail) else Fatal
  {
    var all := PutAll(PutU64, ids);
    assert PutIds(ids) + tail == Encoded(|ids|, 8) + (all + tail);
    TakeEncoded(|ids|, 8, all + tail);
    forall n, t {
      U64RoundTrip(n, t);
    }
    AllRoundTrip(PutU64, TakeU64, ids, tail);
  }

  function IdsCodec(): (codec: Codec<seq<U64>>)
    ensures Checked(codec)
  {
    assert forall ids, tail | Countable(ids) ::
          TakeIds(PutIds(ids) + tail) == if Reasonable(ids) then Read(ids, tail) else Fatal by {
      forall ids, tail | Countable(ids) { IdsRoundTrip(ids, tail); }
    }
    Codec([], PutIds, TakeIds, Countable, Reasonable)
  }

  // ----- areas

  datatype Area = Area(code: Int32, relation: U64)

  /** Codes and their relations, as an ordered map lists them. */
  ghost predicate Ascending(areas: seq<Area>) {
    forall i, j | 0 <= i < j < |areas| :: areas[i].code < areas[j].code
  }

  /** Insert an area into an ordered map, unless its code is there already. */
  function WithArea(areas: seq<Area>, a: Area): seq<Area> {
    if areas == [] then [a]
    else if a.code < areas[0].code then [a] + areas
    else if a.code == areas[0].code then areas
    else [areas[0]] + WithArea(areas[1..], a)
  }

  lemma {:induction false} LargestGoesLast(areas: seq<Area>, a: Area)
    requires forall i | 0 <= i < |areas| :: areas[i].code < a.code
    ensures WithArea(areas, a) == areas + [a]
  {
    if areas != [] {
      LargestGoesLast(areas[1..], a);
      assert [areas[0]] + (areas[1..] + [a]) == areas + [a];
    }
  }

  /** The map stays in order and loses nothing, and the area is in it unless its code was there already. */
  lemma {:induction false} WithAreaIs(areas: seq<Area>, a: Area)
    requires Ascending(areas)
    ensures Ascending(WithArea(areas, a))
    ensures forall x :: x in WithArea(areas, a) <==>
              x in areas || (x == a && forall y | y in areas :: y.code != a.code)
  {
    if areas != [] {
      var first, others := areas[0], areas[1..];
      WithAreaIs(others, a);
      FirstIsLeast(first, others);
      if first.code < a.code {
        assert forall x :: x in others || x == a ==> first.code < x.code;
        AscendingBehind(first, WithArea(others, a));
      } else if a.code < first.code {
        AscendingBehind(a, areas);
      }
    }
  }

  lemma FirstIsLeast(first: Area, others: seq<Area>)
    requires Ascending([first] + others)
    ensures forall x | x in others :: first.code < x.code
  {
    forall x | x in others
      ensures first.code < x.code
    {
      var i :| 0 <= i < |others| && others[i] == x;
      var all := [first] + others;
      assert all[0] == first && all[i + 1] == x && all[0].code < all[i + 1].code;
    }
  }

  lemma AscendingBehind(first: Area, others: seq<Area>)
    requires Ascending(others) && forall x | x in others :: first.code < x.code
    ensures Ascending([first] + others)
  {
  }

  function PutArea(a: Area): seq<Byte> {
    PutInt32(a.code) + PutU64(a.relation)
  }

  function TakeArea(bytes: seq<Byte>): (r: Reading<Area>)
    ensures r.Read? ==> |r.rest| <= |bytes|
  {
    match TakeInt32(bytes)
    case Fatal => Fatal
    case Read(code, afterCode) =>
      match TakeU64(afterCode)
      case Fatal => Fatal
      case Read(relation, rest) => Read(Area(code, relation), rest)
  }

  lemma AreaRoundTrip(a: Area, tail: seq<Byte>)
    ensures TakeArea(PutArea(a) + tail) == Read(a, tail)
  {
    assert PutArea(a) + tail == PutInt32(a.code) + (PutU64(a.relation) + tail);
    Int32RoundTrip(a.code, PutU64(a.relation) + tail);
    U64RoundTrip(a.relation, tail);
  }

  function PutAreas(areas: seq<Area>): seq<Byte> {
    Encoded(|areas|, 8) + PutAll(PutArea, areas)
  }

  /** Read and insert so many areas. */
  function TakeAreasInto(areas: seq<Area>, bytes: seq<Byte>, count: nat): (r: Reading<seq<Area>>)
    ensures r.Read? ==> |r.rest| <= |bytes|
    decreases count
  {
    if count == 0 then Read(areas, bytes) else
    match TakeArea(bytes)
    case Fatal => Fatal
    case Read(a, rest) => TakeAreasInto(WithArea(areas, a), rest, count - 1)
  }

  function TakeAreas(bytes: seq<Byte>): (r: Reading<seq<Area>>)
    ensures r.Read? ==> |r.rest| <= |bytes|
  {
    match TakeU64(bytes)
    case Fatal => Fatal
    case Read(count, rest) => TakeAreasInto([], rest, count)
  }

  lemma {:induction false} AreasIntoRoundTrip(areas: seq<Area>, i: nat, tail: seq<Byte>)
    requires Ascending(areas) && i <= |areas|
    ensures TakeAreasInto(areas[..i], PutAll(PutArea, areas[i..]) + tail, |areas| - i) == Read(areas, tail)
    decreases |areas| - i
  {
    if i == |areas| {
      assert areas[..i] == areas && [] + tail == tail;
    } else {
      var rest := PutAll(PutArea, areas[i + 1..]);
      assert areas[i..][1..] == areas[i + 1..];
      assert PutAll(PutArea, areas[i..]) + tail == PutArea(areas[i]) + (rest + tail);
      AreaRoundTrip(areas[i], rest + tail);
      LargestGoesLast(areas[..i], areas[i]);
      assert areas[..i] + [areas[i]] == areas[..i + 1];
      AreasIntoRoundTrip(areas, i + 1, tail);
    }
  }

  lemma AreasRoundTrip(areas: seq<Area>, tail: seq<Byte>)
    requires Ascending(areas) && |areas| < Limit(8)
    ensures TakeAreas(PutAreas(areas) + tail) == Read(areas, tail)
  {
    var all := PutAll(PutArea, areas);
    assert PutAreas(areas) + tail == Encoded(|areas|, 8) + (all + tail);
    TakeEncoded(|areas|, 8, all + tail);
    AreasIntoRoundTrip(areas, 0, tail);
    assert areas[..0] == [] && areas[0..] == areas;
  }

  // ----- European roads

  const EUROPEAN_ROADS: seq<nat> := [4, 6, 10, 12, 14, 16, 18, 20, 22, 45, 47, 55, 65, 265]

  /**
   * The slot of a European road; numbers from 30 to 39 have none, and numbers without one of their own share slot 0.
   */
  function EuropeanIndex(number: nat): (i: nat)
    ensures number < 30 || 40 <= number ==> i < EUROPEAN_LEN
  {
    if number < 40 then number
    else if number < 40 + EUROPEAN_LEN then number - 40
    else if number == 265 then 1
    else 0
  }

  function SlotOf(i: nat): (slot: nat)
    requires i < |EUROPEAN_ROADS|
    ensures slot < EUROPEAN_LEN
  {
    EuropeanIndex(EUROPEAN_ROADS[i])
  }

  /** No two of the known European roads share a slot. */
  lemma SlotsDiffer(i: nat, j: nat)
    requires i < j < |EUROPEAN_ROADS|
    ensures SlotOf(i) != SlotOf(j)
  {
    assert [SlotOf(0), SlotOf(1), SlotOf(2), SlotOf(3), SlotOf(4), SlotOf(5), SlotOf(6)] == [4, 6, 10, 12, 14, 16, 18];
    assert [SlotOf(7), SlotOf(8), SlotOf(9), SlotOf(10), SlotOf(11), SlotOf(12), SlotOf(13)]
        == [20, 22, 5, 7, 15, 25, 1];
  }

  /** The slots of the known European roads, in the order of the roads. */
  const SLOTS: seq<nat> := [4, 6, 10, 12, 14, 16, 18, 20, 22, 5, 7, 15, 25, 1]

  lemma KnownSlots(i: nat)
    requires i < |EUROPEAN_ROADS|
    ensures SlotOf(i) == SLOTS[i]
  {
  }

  /** The slot belongs to a known road of another number. */
  ghost predicate SharedWithKnown(number: nat) {
    exists i | 0 <= i < |EUROPEAN_ROADS| :: SlotOf(i) == EuropeanIndex(number) && EUROPEAN_ROADS[i] != number
  }

  /** A road is listed under a known road of another number for exactly these numbers. */
  lemma SharedSlots(number: nat)
    requires number < 30 || 40 <= number
    ensures SharedWithKnown(number) <==> number in [1, 5, 7, 15, 25] + [41, 44, 46, 50, 52, 54, 56, 58, 60, 62]
    ensures number >= 70 && number != 265 ==> EuropeanIndex(number) == 0
  {
    var slot := EuropeanIndex(number);
    forall i | 0 <= i < |EUROPEAN_ROADS|
      ensures SlotOf(i) == SLOTS[i]
    {
      KnownSlots(i);
    }
    if slot in SLOTS {
      var i :| 0 <= i < |SLOTS| && SLOTS[i] == slot;
      assert SlotOf(i) == slot;
    }
  }

  function PutEuropean(european: seq<seq<U64>>, i: nat): seq<Byte>
    requires |european| == EUROPEAN_LEN && i <= |EUROPEAN_ROADS|
    decreases |EUROPEAN_ROADS| - i
  {
    if i == |EUROPEAN_ROADS| then [] else PutIds(european[SlotOf(i)]) + PutEuropean(european, i + 1)
  }

  function TakeEuropean(european: seq<seq<U64>>, bytes: seq<Byte>, i: nat): (r: Reading<seq<seq<U64>>>)
    requires |european| == EUROPEAN_LEN && i <= |EUROPEAN_ROADS|
    ensures r.Read? ==> |r.value| == EUROPEAN_LEN && |r.rest| <= |bytes|
    decreases |EUROPEAN_ROADS| - i
  {
    if i == |EUROPEAN_ROADS| then Read(european, bytes) else
    match TakeIds(bytes)
    case Fatal => Fatal
    case Read(ids, rest) => TakeEuropean(european[SlotOf(i) := european[SlotOf(i)] + ids], rest, i + 1)
  }

  /** A slot belongs to one of the first i known roads. */
  predicate Listed(slot: nat, i: nat)
    requires i <= |EUROPEAN_ROADS|
  {
    exists k | 0 <= k < i :: SlotOf(k) == slot
  }

  /** The slots of the first i known roads are as given, the others are empty. */
  ghost predicate RestoredUpTo(original: seq<seq<U64>>, european: seq<seq<U64>>, i: nat)
    requires |original| == EUROPEAN_LEN && i <= |EUROPEAN_ROADS|
  {
    && |european| == EUROPEAN_LEN
    && forall slot | 0 <= slot < EUROPEAN_LEN :: european[slot] == if Listed(slot, i) then original[slot] else []
  }

  predicate AllReasonable(european: seq<seq<U64>>, i: nat)
    requires |european| == EUROPEAN_LEN && i <= |EUROPEAN_ROADS|
    decreases |EUROPEAN_ROADS| - i
  {
    i == |EUROPEAN_ROADS| || (Reasonable(european[SlotOf(i)]) && AllReasonable(european, i + 1))
  }

  lemma RestoreOne(original: seq<seq<U64>>, european: seq<seq<U64>>, i: nat)
    requires |original| == EUROPEAN_LEN && i < |EUROPEAN_ROADS| && RestoredUpTo(original, european, i)
    ensures european[SlotOf(i)] == []
    ensures RestoredUpTo(original, european[SlotOf(i) := original[SlotOf(i)]], i + 1)
  {
    forall k | 0 <= k < i
      ensures SlotOf(k) != SlotOf(i)
    {
      SlotsDiffer(k, i);
    }
    forall slot | 0 <= slot < EUROPEAN_LEN
      ensures Listed(slot, i + 1) <==> Listed(slot, i) || slot == SlotOf(i)
    {
      if slot == SlotOf(i) {
        assert SlotOf(i) == slot;
      } else if Listed(slot, i) {
        var k :| 0 <= k < i && SlotOf(k) == slot;
        assert SlotOf(k) == slot;
      }
    }
  }

  /** What is read back are the slots of the known roads. */
  lemma {:induction false} EuropeanRoundTrip(original: seq<seq<U64>>, european: seq<seq<U64>>, i: nat, tail: seq<Byte>)
    requires |original| == EUROPEAN_LEN && i <= |EUROPEAN_ROADS| && RestoredUpTo(original, european, i)
    requires forall slot | 0 <= slot < EUROPEAN_LEN :: Countable(original[slot])
    ensures var r := TakeEuropean(european, PutEuropean(original, i) + tail, i);
            if AllReasonable(original, i)
            then r.Read? && r.rest == tail && RestoredUpTo(original, r.value, |EUROPEAN_ROADS|)
            else r == Fatal
    decreases |EUROPEAN_ROADS| - i
  {
    if i == |EUROPEAN_ROADS| {
      assert [] + tail == tail;
    } else {
      RestoreOne(original, european, i);
      NextEuropean(original, european, i, tail);
      EuropeanRoundTrip(original, european[SlotOf(i) := original[SlotOf(i)]], i + 1, tail);
    }
  }

  /** One road of the list. */
  lemma NextEuropean(original: seq<seq<U64>>, european: seq<seq<U64>>, i: nat, tail: seq<Byte>)
    requires |original| == |european| == EUROPEAN_LEN && i < |EUROPEAN_ROADS|
    requires european[SlotOf(i)] == [] && Countable(original[SlotOf(i)])
    ensures TakeEuropean(european, PutEuropean(original, i) + tail, i) ==
            if Reasonable(original[SlotOf(i)])
            then TakeEuropean(european[SlotOf(i) := original[SlotOf(i)]], PutEuropean(original, i + 1) + tail, i + 1)
            else Fatal
  {
    var ids, later := original[SlotOf(i)], PutEuropean(original, i + 1);
    Regroup(PutIds(ids), later, tail);
    IdsRoundTrip(ids, later + tail);
    assert [] + ids == ids;
  }

  // ----- national roads

  /** The roads that have ways, from number i on, and the terminator. */
  function PutNational(national: seq<seq<U64>>, i: nat): seq<Byte>
    requires i <= |national|
    decreases |national| - i
  {
    if i == |national| then PutU16(TERMINATOR_16)
    else if national[i] == [] then PutNational(national, i + 1)
    else Encoded(i, 2) + (PutIds(national[i]) + PutNational(national, i + 1))
  }

  /**
   * The first number is compared with the number of roads before anything else, so that it must not be the terminator.
   */
  function TakeNational(national: seq<seq<U64>>, bytes: seq<Byte>, first: bool): (r: Reading<seq<seq<U64>>>)
    ensures r.Read? ==> |r.value| == |national| && |r.rest| <= |bytes|
    decreases |bytes|
  {
    match TakeU16(bytes)
    case Fatal => Fatal
    case Read(road, rest) =>
      if first && road >= |national| then Fatal
      else if road == TERMINATOR_16 then Read(national, rest)
      else if road >= |national| then Fatal  // the program would write past the end of the table
      else
        match TakeIds(rest)
        case Fatal => Fatal
        case Read(ids, after) => TakeNational(national[road := national[road] + ids], after, false)
  }

  predicate NationalReasonable(national: seq<seq<U64>>, i: nat)
    requires i <= |national|
    decreases |national| - i
  {
    i == |national| || (Reasonable(national[i]) && NationalReasonable(national, i + 1))
  }

  predicate SomeRoad(national: seq<seq<U64>>, i: nat)
    requires i <= |national|
    decreases |national| - i
  {
    i < |national| && (national[i] != [] || SomeRoad(national, i + 1))
  }

  function NoWays(n: nat): seq<seq<U64>> {
    seq(n, _ => [])
  }

  function FilledRoads(national: seq<seq<U64>>, i: nat): seq<seq<U64>>
    requires i <= |national|
  {
    national[..i] + NoWays(|national| - i)
  }

  /** The ways of a road come behind those it has already. */
  lemma RoadRoundTrip(table: seq<seq<U64>>, road: nat, ids: seq<U64>, rest: seq<Byte>, first: bool)
    requires road < |table| <= TERMINATOR_16 && Countable(ids)
    ensures TakeNational(table, Encoded(road, 2) + (PutIds(ids) + rest), first) ==
            if Reasonable(ids) then TakeNational(table[road := table[road] + ids], rest, false) else Fatal
  {
    TakeEncoded(road, 2, PutIds(ids) + rest);
    IdsRoundTrip(ids, rest);
  }

  lemma EndOfRoads(national: seq<seq<U64>>, first: bool, tail: seq<Byte>)
    requires |national| <= TERMINATOR_16
    ensures TakeNational(national, PutU16(TERMINATOR_16) + tail, first) == if first then Fatal else Read(national, tail)
  {
    U16RoundTrip(TERMINATOR_16, tail);
  }

  lemma FilledRoadsNext(national: seq<seq<U64>>, i: nat)
    requires i < |national|
    ensures FilledRoads(national, i + 1) == FilledRoads(national, i)[i := FilledRoads(national, i)[i] + national[i]]
    ensures FilledRoads(national, |national|) == national
    ensures national[i] == [] ==> FilledRoads(national, i + 1) == FilledRoads(national, i)
  {
    assert FilledRoads(national, i)[i] == [] && [] + national[i] == national[i];
  }

  lemma OneRoad(national: seq<seq<U64>>, i: nat, tail: seq<Byte>)
    requires i < |national| && national[i] != []
    ensures PutNational(national, i) + tail
            == Encoded(i, 2) + (PutIds(national[i]) + (PutNational(national, i + 1) + tail))
  {
    var a, b, c := Encoded(i, 2), PutIds(national[i]), PutNational(national, i + 1);
    assert a + (b + c) + tail == a + (b + (c + tail));
  }

  /** National roads are read back, unless there are none: then the terminator comes first, and the program stops. */
  lemma {:induction false} NationalRoundTrip(national: seq<seq<U64>>, i: nat, first: bool, tail: seq<Byte>)
    requires i <= |national| <= TERMINATOR_16 && forall k | 0 <= k < |national| :: Countable(national[k])
    ensures TakeNational(FilledRoads(national, i), PutNational(national, i) + tail, first) ==
            if NationalReasonable(national, i) && (first ==> SomeRoad(national, i)) then Read(national, tail) else Fatal
    decreases |national| - i
  {
    if i == |national| {
      EndOfRoads(national, first, tail);
      assert FilledRoads(national, i) == national;
    } else if national[i] == [] {
      FilledRoadsNext(national, i);
      NationalRoundTrip(national, i + 1, first, tail);
    } else {
      FilledRoadsNext(national, i);
      OneRoad(national, i, tail);
      RoadRoundTrip(FilledRoads(national, i), i, national[i], PutNational(national, i + 1) + tail, first);
      NationalRoundTrip(national, i + 1, false, tail);
    }
  }

  // ----- regional roads

  type Cell = Option<seq<U64>>
  type Row = Option<seq<Cell>>
  type County = Option<seq<Row>>

  /** For each upper and each lower part of a road number, the ways if there is a list of them at all. */
  function CountyCodec(): Codec<seq<Row>> {
    SparseCodec(SparseCodec(IdsCodec(), REGIONAL_INNER_LEN), REGIONAL_OUTER_LEN)
  }

  /** And this for each county that has roads. */
  function RegionalCodec(): Codec<seq<County>> {
    SparseCodec(CountyCodec(), REGIONAL_LEN)
  }

  lemma RegionalChecked()
    ensures Checked(CountyCodec()) && Checked(RegionalCodec())
  {
    var rows := SparseCodec(IdsCodec(), REGIONAL_INNER_LEN);
    SparseChecked(IdsCodec(), REGIONAL_INNER_LEN);
    SparseChecked(rows, REGIONAL_OUTER_LEN);
    SparseChecked(CountyCodec(), REGIONAL_LEN);
  }

  // ----- administrative regions

  datatype AdminRegion = AdminRegion(relation: U64, level: Int32, name: seq<Byte>)

  /** A name is written up to its first zero. */
  function PutRegion(r: AdminRegion): seq<Byte> {
    PutU64(r.relation) + (PutInt32(r.level) + (Encoded(|CString(r.name)|, 8) + CString(r.name)))
  }

  function TakeName(bytes: seq<Byte>): (r: Reading<seq<Byte>>)
    ensures r.Read? ==> |r.rest| <= |bytes|
  {
    match TakeU64(bytes)
    case Fatal => Fatal
    case Read(length, rest) =>
      if length > LONGEST_NAME || length > |rest| then Fatal  // the program has a buffer of 8192 bytes
      else Read(CString(rest[..length]), rest[length..])
  }

  function TakeRegion(bytes: seq<Byte>): (r: Reading<AdminRegion>)
    ensures r.Read? ==> |r.rest| <= |bytes|
  {
    match TakeU64(bytes)
    case Fatal => Fatal
    case Read(relation, afterRelation) =>
      match TakeInt32(afterRelation)
      case Fatal => Fatal
      case Read(level, afterLevel) =>
        match TakeName(afterLevel)
        case Fatal => Fatal
        case Read(name, rest) => Read(AdminRegion(relation, level, name), rest)
  }

  predicate ShortName(r: AdminRegion) {
    |CString(r.name)| <= LONGEST_NAME
  }

  function Truncated(r: AdminRegion): AdminRegion {
    r.(name := CString(r.name))
  }

  /** A name comes back whole exactly when there is no zero in it. */
  lemma TruncatedIsSame(r: AdminRegion)
    ensures Truncated(r) == r <==> 0 !in r.name
  {
    WithoutZero(r.name);
  }

  lemma TextRoundTrip(text: seq<Byte>, tail: seq<Byte>)
    requires |text| <= LONGEST_NAME && CString(text) == text
    ensures TakeName(Encoded(|text|, 8) + text + tail) == Read(text, tail)
  {
    Regroup(PutU64(|text|), text, tail);
    U64RoundTrip(|text|, text + tail);
    assert (text + tail)[..|text|] == text && (text + tail)[|text|..] == tail;
  }

  lemma NameRoundTrip(name: seq<Byte>, tail: seq<Byte>)
    requires |CString(name)| <= LONGEST_NAME
    ensures TakeName(Encoded(|CString(name)|, 8) + CString(name) + tail) == Read(CString(name), tail)
  {
    WithoutZero(name);
    WithoutZero(CString(name));
    TextRoundTrip(CString(name), tail);
  }

  lemma RegionRoundTrip(r: AdminRegion, tail: seq<Byte>)
    requires ShortName(r)
    ensures TakeRegion(PutRegion(r) + tail) == Read(Truncated(r), tail)
  {
    var name := Encoded(|CString(r.name)|, 8) + CString(r.name);
    assert PutRegion(r) + tail == PutU64(r.relation) + (PutInt32(r.level) + (name + tail));
    U64RoundTrip(r.relation, PutInt32(r.level) + (name + tail));
    Int32RoundTrip(r.level, name + tail);
    NameRoundTrip(r.name, tail);
  }

  function PutRegions(regions: seq<AdminRegion>): seq<Byte> {
    Encoded(|regions|, 8) + PutAll(PutRegion, regions)
  }

  function TakeRegions(bytes: seq<Byte>): (r: Reading<seq<AdminRegion>>)
    ensures r.Read? ==> |r.rest| <= |bytes|
  {
    match TakeU64(bytes)
    case Fatal => Fatal
    case Read(count, rest) => TakeAll(TakeRegion, rest, count)
  }

  function AllTruncated(regions: seq<AdminRegion>): seq<AdminRegion> {
    if regions == [] then [] else [Truncated(regions[0])] + AllTruncated(regions[1..])
  }

  lemma {:induction false} AllRegionsRoundTrip(regions: seq<AdminRegion>, tail: seq<Byte>)
    requires forall i | 0 <= i < |regions| :: ShortName(regions[i])
    ensures TakeAll(TakeRegion, PutAll(PutRegion, regions) + tail, |regions|) == Read(AllTruncated(regions), tail)
  {
    if regions == [] {
      assert [] + tail == tail;
    } else {
      var rest := PutAll(PutRegion, regions[1..]) + tail;
      Regroup(PutRegion(regions[0]), PutAll(PutRegion, regions[1..]), tail);
      RegionRoundTrip(regions[0], rest);
      AllRegionsRoundTrip(regions[1..], tail);
    }
  }

  lemma RegionsRoundTrip(regions: seq<AdminRegion>, tail: seq<Byte>)
    requires |regions| < Limit(8) && forall i | 0 <= i < |regions| :: ShortName(regions[i])
    ensures TakeRegions(PutRegions(regions) + tail) == Read(AllTruncated(regions), tail)
  {
    var all := PutAll(PutRegion, regions);
    assert PutRegions(regions) + tail == Encoded(|regions|, 8) + (all + tail);
    TakeEncoded(|regions|, 8, all + tail);
    AllRegionsRoundTrip(regions, tail);
  }

  // ----- step by step

  method WriteAreas(areas: seq<Area>, output: OutputStream)
    modifies output
    ensures output.written == old(output.written) + PutAreas(areas)
  {
    output.Write(Encoded(|areas|, 8));
    ghost var header := output.written;
    assert areas[0..] == areas;
    for i := 0 to |areas|
      invariant output.written + PutAll(PutArea, areas[i..]) == header + PutAll(PutArea, areas)
    {
      ghost var before := output.written;
      output.Write(PutArea(areas[i]));
      assert areas[i..][1..] == areas[i + 1..];
      assert output.written + PutAll(PutArea, areas[i + 1..]) == before + PutAll(PutArea, areas[i..]);
    }
    Regroup(old(output.written), Encoded(|areas|, 8), PutAll(PutArea, areas));
  }

  method ReadAreas(input: InputStream) returns (r: Option<seq<Area>>)
    modifies input
    ensures Agrees(TakeAreas(old(input.rest)), r, input.rest)
  {
    var word := input.Read(8);
    if word.None? {
      return None;
    }
    var count := Decoded(word.value);
    assert TakeU64(old(input.rest)) == Read(count, input.rest);
    var areas := [];
    for i := 0 to count
      invariant TakeAreasInto(areas, input.rest, count - i) == TakeAreas(old(input.rest))
    {
      match TakeArea(input.rest) {
        case Fatal =>
          return None;
        case Read(a, rest) =>
          input.rest := rest;
          areas := WithArea(areas, a);
      }
    }
    r := Some(areas);
  }

  method WriteEuropean(european: seq<seq<U64>>, output: OutputStream)
    requires |european| == EUROPEAN_LEN
    modifies output
    ensures output.written == old(output.written) + PutEuropean(european, 0)
  {
    for i := 0 to |EUROPEAN_ROADS|
      invariant output.written + PutEuropean(european, i) == old(output.written) + PutEuropean(european, 0)
    {
      Regroup(output.written, PutIds(european[SlotOf(i)]), PutEuropean(european, i + 1));
      output.Write(PutIds(european[SlotOf(i)]));
    }
  }

  method ReadEuropean(input: InputStream) returns (r: Option<seq<seq<U64>>>)
    modifies input
    ensures Agrees(TakeEuropean(NoWays(EUROPEAN_LEN), old(input.rest), 0), r, input.rest)
  {
    var european := NoWays(EUROPEAN_LEN);
    for i := 0 to |EUROPEAN_ROADS|
      invariant |european| == EUROPEAN_LEN
      invariant TakeEuropean(european, input.rest, i) == TakeEuropean(NoWays(EUROPEAN_LEN), old(input.rest), 0)
    {
      match TakeIds(input.rest) {
        case Fatal =>
          return None;
        case Read(ids, rest) =>
          input.rest := rest;
          european := european[SlotOf(i) := european[SlotOf(i)] + ids];
      }
    }
    r := Some(european);
  }

  method WriteNational(national: seq<seq<U64>>, output: OutputStream)
    modifies output
    ensures output.written == old(output.written) + PutNational(national, 0)
  {
    for i := 0 to |national|
      invariant output.written + PutNational(national, i) == old(output.written) + PutNational(national, 0)
    {
      if national[i] != [] {
        ghost var before, number := output.written, Encoded(i, 2);
        ghost var ids, rest := PutIds(national[i]), PutNational(national, i + 1);
        output.Write(Encoded(i, 2));
        output.Write(PutIds(national[i]));
        Regroup(before + number, ids, rest);
        Regroup(before, number, ids + rest);
      }
    }
    output.Write(PutU16(TERMINATOR_16));
  }

  method ReadNational(input: InputStream) returns (r: Option<seq<seq<U64>>>)
    modifies input
    ensures Agrees(TakeNational(NoWays(NATIONAL_LEN), old(input.rest), true), r, input.rest)
  {
    var national := NoWays(NATIONAL_LEN);
    var first := true;
    while true
      invariant |national| == NATIONAL_LEN
      invariant TakeNational(national, input.rest, first) == TakeNational(NoWays(NATIONAL_LEN), old(input.rest), true)
      decreases |input.rest|
    {
      ghost var here := input.rest;
      var number := input.Read(2);
      if number.None? {
        return None;
      }
      var road := Decoded(number.value);
      assert TakeU16(here) == Read(road, input.rest);
      if first && road >= NATIONAL_LEN {
        return None;
      }
      if road == TERMINATOR_16 {
        return Some(national);
      }
      if road >= NATIONAL_LEN {
        return None;
      }
      match TakeIds(input.rest) {
        case Fatal =>
          return None;
        case Read(ids, rest) =>
          input.rest := rest;
          national := national[road := national[road] + ids];
      }
      first := false;
    }
    assert false;
  }
}
