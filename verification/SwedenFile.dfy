/** The whole file of areas and roads, written and read section by section. */
module SwedenFile {
  import opened Options
  import opened Payloads
  import opened SparseFormat
  import opened Sequences
  import opened Streams
  import opened SwedenFormat

  datatype Sweden = Sweden(
    scbAreas: seq<Area>,
    nuts3Areas: seq<Area>,
    european: seq<seq<U64>>,
    national: seq<seq<U64>>,
    regional: seq<County>,
    administrative: seq<AdminRegion>)

  function Blank(): Sweden {
    Sweden([], [], NoWays(EUROPEAN_LEN), NoWays(NATIONAL_LEN), Nothing(REGIONAL_LEN), [])
  }

  /** What the tables of the program are like: maps in order, tables of their sizes, counts of 64 bits, short names. */
  ghost predicate Valid(s: Sweden) {
    && Ascending(s.scbAreas) && |s.scbAreas| < Limit(8)
    && Ascending(s.nuts3Areas) && |s.nuts3Areas| < Limit(8)
    && |s.european| == EUROPEAN_LEN && (forall i | 0 <= i < EUROPEAN_LEN :: Countable(s.european[i]))
    && |s.national| == NATIONAL_LEN && (forall i | 0 <= i < NATIONAL_LEN :: Countable(s.national[i]))
    && RegionalCodec().fits(s.regional)
    && |s.administrative| < Limit(8) && (forall i | 0 <= i < |s.administrative| :: ShortName(s.administrative[i]))
  }

  /** The program accepts the file again: some national road has ways, and no list of ways looks too long. */
  predicate Reloadable(s: Sweden)
    requires |s.european| == EUROPEAN_LEN
  {
    && SomeRoad(s.national, 0)
    && AllReasonable(s.european, 0) && NationalReasonable(s.national, 0) && RegionalCodec().assignable(s.regional)
  }

  // ----- sections

  const SCB: Byte := 'S' as int
  const NUTS3: Byte := 'n' as int
  const EUROPEAN: Byte := 'E' as int
  const NATIONAL: Byte := 'R' as int
  const REGIONAL: Byte := 'L' as int
  const ADMINISTRATIVE: Byte := 'A' as int
  const END: Byte := '_' as int

  /**
   * Under its marker a section is read into the tables; at any other byte the section is passed over with a warning.
   */
  function Section(read: Reading<Sweden>, marker: Byte, take: (Sweden, seq<Byte>) -> Reading<Sweden>): Reading<Sweden> {
    match read
    case Fatal => Fatal
    case Read(s, bytes) =>
      if bytes == [] then Fatal
      else if bytes[0] == marker then take(s, bytes[1..])
      else Read(s, bytes[1..])
  }

  function TakeScb(s: Sweden, bytes: seq<Byte>): Reading<Sweden> {
    match TakeAreas(bytes)
    case Fatal => Fatal
    case Read(areas, rest) => Read(s.(scbAreas := areas), rest)
  }

  function TakeNuts3(s: Sweden, bytes: seq<Byte>): Reading<Sweden> {
    match TakeAreas(bytes)
    case Fatal => Fatal
    case Read(areas, rest) => Read(s.(nuts3Areas := areas), rest)
  }

  function TakeEuropeanRoads(s: Sweden, bytes: seq<Byte>): Reading<Sweden> {
    match TakeEuropean(NoWays(EUROPEAN_LEN), bytes, 0)
    case Fatal => Fatal
    case Read(european, rest) => Read(s.(european := european), rest)
  }

  function TakeNationalRoads(s: Sweden, bytes: seq<Byte>): Reading<Sweden> {
    match TakeNational(NoWays(NATIONAL_LEN), bytes, true)
    case Fatal => Fatal
    case Read(national, rest) => Read(s.(national := national), rest)
  }

  function TakeRegionalRoads(s: Sweden, bytes: seq<Byte>): Reading<Sweden> {
    match RegionalCodec().take(bytes)
    case Fatal => Fatal
    case Read(regional, rest) => Read(s.(regional := regional), rest)
  }

  /** The administrative regions are read whatever their marker is. */
  function TakeAdministrative(read: Reading<Sweden>): Reading<Sweden> {
    match read
    case Fatal => Fatal
    case Read(s, bytes) =>
      if bytes == [] then Fatal else
      match TakeRegions(bytes[1..])
      case Fatal => Fatal
      case Read(regions, rest) => Read(s.(administrative := regions), rest)
  }

  /** The bytes of the administrative regions and of the end. */
  function PutLast(s: Sweden): seq<Byte> {
    [ADMINISTRATIVE] + PutRegions(s.administrative) + [END]
  }

  function PutSwedishRoads(s: Sweden): seq<Byte> {
    [NATIONAL] + PutNational(s.national, 0) + ([REGIONAL] + RegionalCodec().put(s.regional))
  }

  function PutRoads(s: Sweden): seq<Byte>
    requires |s.european| == EUROPEAN_LEN
  {
    [EUROPEAN] + PutEuropean(s.european, 0) + PutSwedishRoads(s)
  }

  function PutAreaTables(s: Sweden): seq<Byte> {
    [SCB] + PutAreas(s.scbAreas) + ([NUTS3] + PutAreas(s.nuts3Areas))
  }

  function Put(s: Sweden): seq<Byte>
    requires |s.european| == EUROPEAN_LEN
  {
    PutAreaTables(s) + (PutRoads(s) + PutLast(s))
  }

  function TakeAreaTables(bytes: seq<Byte>): Reading<Sweden> {
    Section(Section(Read(Blank(), bytes), SCB, TakeScb), NUTS3, TakeNuts3)
  }

  function TakeRoads(read: Reading<Sweden>): Reading<Sweden> {
    Section(Section(Section(read, EUROPEAN, TakeEuropeanRoads), NATIONAL, TakeNationalRoads), REGIONAL,
        TakeRegionalRoads)
  }

  function TakeLast(read: Reading<Sweden>): Reading<Sweden> {
    Section(TakeAdministrative(read), END, (s, rest) => Read(s, rest))
  }

  function Take(bytes: seq<Byte>): Reading<Sweden> {
    TakeLast(TakeRoads(TakeAreaTables(bytes)))
  }

  // ----- round trip

  /** What comes back: European roads without a slot of their own are lost, and names end at their first zero. */
  ghost predicate Restored(s: Sweden, t: Sweden) {
    && t.scbAreas == s.scbAreas && t.nuts3Areas == s.nuts3Areas
    && |s.european| == EUROPEAN_LEN && RestoredUpTo(s.european, t.european, |EUROPEAN_ROADS|)
    && t.national == s.national && t.regional == s.regional
    && t.administrative == AllTruncated(s.administrative)
  }

  lemma Marked(read: Reading<Sweden>, marker: Byte, take: (Sweden, seq<Byte>) -> Reading<Sweden>, body: seq<Byte>,
               tail: seq<Byte>)
    requires read.Read? && read.rest == [marker] + body + tail
    ensures Section(read, marker, take) == take(read.value, body + tail)
  {
    assert read.rest[1..] == body + tail;
  }

  lemma ScbRoundTrip(s: Sweden, areas: seq<Area>, tail: seq<Byte>)
    requires Ascending(areas) && |areas| < Limit(8)
    ensures TakeScb(s, PutAreas(areas) + tail) == Read(s.(scbAreas := areas), tail)
    ensures TakeNuts3(s, PutAreas(areas) + tail) == Read(s.(nuts3Areas := areas), tail)
  {
    AreasRoundTrip(areas, tail);
  }

  lemma EuropeanRoadsRoundTrip(s: Sweden, european: seq<seq<U64>>, tail: seq<Byte>)
    requires |european| == EUROPEAN_LEN && forall i | 0 <= i < EUROPEAN_LEN :: Countable(european[i])
    ensures var r := TakeEuropeanRoads(s, PutEuropean(european, 0) + tail);
            if AllReasonable(european, 0) then
              r.Read? && r.rest == tail && RestoredUpTo(european, r.value.european, |EUROPEAN_ROADS|)
                  && r.value == s.(european := r.value.european)
            else r == Fatal
  {
    EuropeanRoundTrip(european, NoWays(EUROPEAN_LEN), 0, tail);
  }

  lemma NationalRoadsRoundTrip(s: Sweden, national: seq<seq<U64>>, tail: seq<Byte>)
    requires |national| == NATIONAL_LEN && forall i | 0 <= i < NATIONAL_LEN :: Countable(national[i])
    ensures TakeNationalRoads(s, PutNational(national, 0) + tail) ==
            if NationalReasonable(national, 0) && SomeRoad(national, 0)
            then Read(s.(national := national), tail)
            else Fatal
  {
    NationalRoundTrip(national, 0, true, tail);
    assert FilledRoads(national, 0) == NoWays(NATIONAL_LEN);
  }

  lemma RegionalRoadsRoundTrip(s: Sweden, regional: seq<County>, tail: seq<Byte>)
    requires RegionalCodec().fits(regional)
    ensures TakeRegionalRoads(s, RegionalCodec().put(regional) + tail) ==
            if RegionalCodec().assignable(regional) then Read(s.(regional := regional), tail) else Fatal
  {
    RegionalChecked();
    assert RegionalCodec().take(RegionalCodec().put(regional) + tail) ==
           if RegionalCodec().assignable(regional) then Read(regional, tail) else Fatal;
  }

  lemma AreaTablesRoundTrip(s: Sweden, tail: seq<Byte>)
    requires Valid(s)
    ensures TakeAreaTables(PutAreaTables(s) + tail)
            == Read(Blank().(scbAreas := s.scbAreas, nuts3Areas := s.nuts3Areas), tail)
  {
    var scb, nuts3 := PutAreas(s.scbAreas), PutAreas(s.nuts3Areas);
    assert PutAreaTables(s) + tail == [SCB] + scb + ([NUTS3] + nuts3 + tail);
    Marked(Read(Blank(), PutAreaTables(s) + tail), SCB, TakeScb, scb, [NUTS3] + nuts3 + tail);
    ScbRoundTrip(Blank(), s.scbAreas, [NUTS3] + nuts3 + tail);
    var t := Blank().(scbAreas := s.scbAreas);
    Marked(Read(t, [NUTS3] + nuts3 + tail), NUTS3, TakeNuts3, nuts3, tail);
    ScbRoundTrip(t, s.nuts3Areas, tail);
  }

  /** The bytes after the European roads. */
  function AfterEuropean(s: Sweden, tail: seq<Byte>): seq<Byte> {
    [NATIONAL] + PutNational(s.national, 0) + ([REGIONAL] + RegionalCodec().put(s.regional) + tail)
  }

  /** National and regional roads, once the European ones have been read. */
  lemma SwedishRoadsRoundTrip(s: Sweden, t: Sweden, tail: seq<Byte>)
    requires Valid(s)
    ensures Section(Section(Read(t, AfterEuropean(s, tail)), NATIONAL, TakeNationalRoads),
                    REGIONAL, TakeRegionalRoads) ==
            if NationalReasonable(s.national, 0) && SomeRoad(s.national, 0) && RegionalCodec().assignable(s.regional)
            then Read(t.(national := s.national, regional := s.regional), tail) else Fatal
  {
    var regional := RegionalCodec().put(s.regional);
    var rest := [REGIONAL] + regional + tail;
    Marked(Read(t, [NATIONAL] + PutNational(s.national, 0) + rest), NATIONAL, TakeNationalRoads,
        PutNational(s.national, 0), rest);
    NationalRoadsRoundTrip(t, s.national, rest);
    Marked(Read(t.(national := s.national), rest), REGIONAL, TakeRegionalRoads, regional, tail);
    RegionalRoadsRoundTrip(t.(national := s.national), s.regional, tail);
  }

  lemma RoadBytes(s: Sweden, tail: seq<Byte>)
    requires |s.european| == EUROPEAN_LEN
    ensures PutRoads(s) + tail == [EUROPEAN] + PutEuropean(s.european, 0) + AfterEuropean(s, tail)
  {
  }

  lemma RoadsRoundTrip(s: Sweden, t: Sweden, tail: seq<Byte>)
    requires Valid(s)
    ensures var r := TakeRoads(Read(t, PutRoads(s) + tail));
            if Reloadable(s) then
              && r.Read? && r.rest == tail && RestoredUpTo(s.european, r.value.european, |EUROPEAN_ROADS|)
              && r.value == t.(european := r.value.european, national := s.national, regional := s.regional)
            else r == Fatal
  {
    var rest := AfterEuropean(s, tail);
    RoadBytes(s, tail);
    Marked(Read(t, PutRoads(s) + tail), EUROPEAN, TakeEuropeanRoads, PutEuropean(s.european, 0), rest);
    EuropeanRoadsRoundTrip(t, s.european, rest);
    var r := TakeEuropeanRoads(t, PutEuropean(s.european, 0) + rest);
    if r.Read? {
      SwedishRoadsRoundTrip(s, r.value, tail);
    }
  }

  lemma LastRoundTrip(s: Sweden, t: Sweden, tail: seq<Byte>)
    requires Valid(s)
    ensures TakeLast(Read(t, PutLast(s) + tail)) == Read(t.(administrative := AllTruncated(s.administrative)), tail)
  {
    var after := [END] + tail;
    LastBytes(PutRegions(s.administrative), tail);
    RegionsRoundTrip(s.administrative, after);
    assert TakeAdministrative(Read(t, PutLast(s) + tail))
        == Read(t.(administrative := AllTruncated(s.administrative)), after);
    assert after[1..] == tail;
  }

  lemma LastBytes(regions: seq<Byte>, tail: seq<Byte>)
    ensures ([ADMINISTRATIVE] + regions + [END] + tail)[1..] == regions + ([END] + tail)
  {
    Regroup([ADMINISTRATIVE] + regions, [END], tail);
    Regroup([ADMINISTRATIVE], regions, [END] + tail);
  }

  lemma FileBytes(s: Sweden, tail: seq<Byte>)
    requires |s.european| == EUROPEAN_LEN
    ensures Put(s) + tail == PutAreaTables(s) + (PutRoads(s) + (PutLast(s) + tail))
  {
    RegroupFour(PutAreaTables(s), PutRoads(s), PutLast(s), tail);
  }

  /** The tables are read back exactly when the file is acceptable; what follows the file is left. */
  lemma RoundTrip(s: Sweden, tail: seq<Byte>)
    requires Valid(s)
    ensures var r := Take(Put(s) + tail);
            if Reloadable(s) then r.Read? && r.rest == tail && Restored(s, r.value) else r == Fatal
  {
    FileBytes(s, tail);
    AreaTablesRoundTrip(s, PutRoads(s) + (PutLast(s) + tail));
    var t := Blank().(scbAreas := s.scbAreas, nuts3Areas := s.nuts3Areas);
    RoadsRoundTrip(s, t, PutLast(s) + tail);
    var r := TakeRoads(Read(t, PutRoads(s) + (PutLast(s) + tail)));
    if r.Read? {
      LastRoundTrip(s, r.value, tail);
    }
  }

  predicate OnlyKnownEuropean(s: Sweden)
    requires |s.european| == EUROPEAN_LEN
  {
    forall slot | 0 <= slot < EUROPEAN_LEN && !Listed(slot, |EUROPEAN_ROADS|) :: s.european[slot] == []
  }

  predicate NamesWithoutZero(s: Sweden) {
    forall i | 0 <= i < |s.administrative| :: 0 !in s.administrative[i].name
  }

  lemma {:induction false} TruncatedNames(regions: seq<AdminRegion>)
    ensures AllTruncated(regions) == regions <==> forall i | 0 <= i < |regions| :: 0 !in regions[i].name
  {
    if regions != [] {
      TruncatedIsSame(regions[0]);
      TruncatedNames(regions[1..]);
      assert regions == [regions[0]] + regions[1..];
      assert AllTruncated(regions)[1..] == AllTruncated(regions[1..]);
    }
  }

  /** All tables come back as they were exactly when, besides, only known roads have ways and no name holds a zero. */
  lemma RestoredExactly(s: Sweden, t: Sweden)
    requires Valid(s) && Restored(s, t)
    ensures t == s <==> OnlyKnownEuropean(s) && NamesWithoutZero(s)
  {
    TruncatedNames(s.administrative);
    if OnlyKnownEuropean(s) {
      assert t.european == s.european;
    }
  }

  // ----- step by step

  method Write(s: Sweden, output: OutputStream)
    requires |s.european| == EUROPEAN_LEN
    modifies output
    ensures output.written == old(output.written) + Put(s)
  {
    WriteAreaTables(s, output);
    WriteRoads(s, output);
    WriteLast(s, output);
    Regroup(old(output.written), PutAreaTables(s), PutRoads(s));
    Regroup(old(output.written), PutAreaTables(s) + PutRoads(s), PutLast(s));
    Regroup(PutAreaTables(s), PutRoads(s), PutLast(s));
  }

  method WriteAreaTables(s: Sweden, output: OutputStream)
    modifies output
    ensures output.written == old(output.written) + PutAreaTables(s)
  {
    output.Write([SCB]);
    WriteAreas(s.scbAreas, output);
    output.Write([NUTS3]);
    WriteAreas(s.nuts3Areas, output);
    RegroupPairs(old(output.written), [SCB], PutAreas(s.scbAreas), [NUTS3], PutAreas(s.nuts3Areas));
  }

  lemma RegroupPairs(before: seq<Byte>, a: seq<Byte>, b: seq<Byte>, c: seq<Byte>, d: seq<Byte>)
    ensures before + a + b + c + d == before + (a + b + (c + d))
  {
    Regroup(before, a, b);
    Regroup(before + (a + b), c, d);
    Regroup(before, a + b, c + d);
  }

  method WriteRoads(s: Sweden, output: OutputStream)
    requires |s.european| == EUROPEAN_LEN
    modifies output
    ensures output.written == old(output.written) + PutRoads(s)
  {
    output.Write([EUROPEAN]);
    WriteEuropean(s.european, output);
    ghost var european := PutEuropean(s.european, 0);
    Regroup(old(output.written), [EUROPEAN], european);
    WriteSwedishRoads(s, output);
    Regroup(old(output.written), [EUROPEAN] + european, PutSwedishRoads(s));
  }

  method WriteSwedishRoads(s: Sweden, output: OutputStream)
    modifies output
    ensures output.written == old(output.written) + PutSwedishRoads(s)
  {
    output.Write([NATIONAL]);
    WriteNational(s.national, output);
    ghost var national, regional := PutNational(s.national, 0), RegionalCodec().put(s.regional);
    Regroup(old(output.written), [NATIONAL], national);
    ghost var before := output.written;
    output.Write([REGIONAL]);
    WriteSparse(CountyCodec(), s.regional, output);
    Regroup(before, [REGIONAL], regional);
    Regroup(old(output.written), [NATIONAL] + national, [REGIONAL] + regional);
  }

  method WriteLast(s: Sweden, output: OutputStream)
    modifies output
    ensures output.written == old(output.written) + PutLast(s)
  {
    output.Write([ADMINISTRATIVE]);
    output.Write(PutRegions(s.administrative));
    output.Write([END]);
    ghost var before, regions := old(output.written), PutRegions(s.administrative);
    assert before + [ADMINISTRATIVE] + regions + [END] == before + ([ADMINISTRATIVE] + regions + [END]);
  }

  method ReadScb(s: Sweden, input: InputStream) returns (r: Option<Sweden>)
    modifies input
    ensures Agrees(Section(Read(s, old(input.rest)), SCB, TakeScb), r, input.rest)
  {
    var chr := input.Read(1);
    if chr.None? {
      return None;
    }
    if chr.value[0] != SCB {
      return Some(s);
    }
    var table := ReadAreas(input);
    r := if table.None? then None else Some(s.(scbAreas := table.value));
  }

  method ReadNuts3(s: Sweden, input: InputStream) returns (r: Option<Sweden>)
    modifies input
    ensures Agrees(Section(Read(s, old(input.rest)), NUTS3, TakeNuts3), r, input.rest)
  {
    var chr := input.Read(1);
    if chr.None? {
      return None;
    }
    if chr.value[0] != NUTS3 {
      return Some(s);
    }
    var table := ReadAreas(input);
    r := if table.None? then None else Some(s.(nuts3Areas := table.value));
  }

  method ReadEuropeanRoads(s: Sweden, input: InputStream) returns (r: Option<Sweden>)
    modifies input
    ensures Agrees(Section(Read(s, old(input.rest)), EUROPEAN, TakeEuropeanRoads), r, input.rest)
  {
    var chr := input.Read(1);
    if chr.None? {
      return None;
    }
    if chr.value[0] != EUROPEAN {
      return Some(s);
    }
    var table := ReadEuropean(input);
    r := if table.None? then None else Some(s.(european := table.value));
  }

  method ReadNationalRoads(s: Sweden, input: InputStream) returns (r: Option<Sweden>)
    modifies input
    ensures Agrees(Section(Read(s, old(input.rest)), NATIONAL, TakeNationalRoads), r, input.rest)
  {
    var chr := input.Read(1);
    if chr.None? {
      return None;
    }
    if chr.value[0] != NATIONAL {
      return Some(s);
    }
    var table := ReadNational(input);
    r := if table.None? then None else Some(s.(national := table.value));
  }

  method ReadRegionalRoads(s: Sweden, input: InputStream) returns (r: Option<Sweden>)
    modifies input
    ensures Agrees(Section(Read(s, old(input.rest)), REGIONAL, TakeRegionalRoads), r, input.rest)
  {
    var chr := input.Read(1);
    if chr.None? {
      return None;
    }
    if chr.value[0] != REGIONAL {
      return Some(s);
    }
    var table := ReadSparse(CountyCodec(), REGIONAL_LEN, input);
    r := if table.None? then None else Some(s.(regional := table.value));
  }

  /** The administrative regions and the end; other markers than the expected ones only give warnings. */
  method ReadLast(s: Sweden, input: InputStream) returns (r: Option<Sweden>)
    modifies input
    ensures Agrees(TakeLast(Read(s, old(input.rest))), r, input.rest)
  {
    var chr := input.Read(1);
    if chr.None? {
      return None;
    }
    match TakeRegions(input.rest) {
      case Fatal =>
        return None;
      case Read(regions, rest) =>
        input.rest := rest;
        chr := input.Read(1);
        r := if chr.None? then None else Some(s.(administrative := regions));
    }
  }

  method ReadAreaTables(input: InputStream) returns (r: Option<Sweden>)
    modifies input
    ensures Agrees(TakeAreaTables(old(input.rest)), r, input.rest)
  {
    r := ReadScb(Blank(), input);
    if r.Some? {
      r := ReadNuts3(r.value, input);
    }
  }

  method ReadRoads(s: Sweden, input: InputStream) returns (r: Option<Sweden>)
    modifies input
    ensures Agrees(TakeRoads(Read(s, old(input.rest))), r, input.rest)
  {
    r := ReadEuropeanRoads(s, input);
    if r.Some? {
      r := ReadNationalRoads(r.value, input);
    }
    if r.Some? {
      r := ReadRegionalRoads(r.value, input);
    }
  }

  /** Fill empty tables from a file. */
  method Load(input: InputStream) returns (r: Option<Sweden>)
    modifies input
    ensures Agrees(Take(old(input.rest)), r, input.rest)
  {
    r := ReadAreaTables(input);
    if r.Some? {
      r := ReadRoads(r.value, input);
    }
    if r.Some? {
      r := ReadLast(r.value, input);
    }
  }
}
