/** What reading does with bytes that nothing was written as. */
module FileErrors {
  import opened Ids
  import opened Options
  import opened Payloads
  import opened Sequences
  import opened SparseFormat
  import opened Streams
  import opened SwedenFormat
  import I = IdTreeFormat
  import S = SwedenFile
  import X = TextTreeFormat

  /** After the id of a node only 'N' and 'C' are understood, and before each child only '0' and '1'. */
  lemma UnknownNodeMark<T(!new)>(layout: I.Layout<T>, id: Id, mark: Byte, rest: seq<Byte>, c: nat)
    requires I.Sound(layout)
    ensures mark != 'N' as int && mark != 'C' as int ==> I.Take(layout, layout.putId(id) + ([mark] + rest)) == Fatal
    ensures mark != '0' as int && mark != '1' as int && c > 0 ==> I.TakeSlots(layout, [mark] + rest, c) == Fatal
  {
    assert layout.takeId(layout.putId(id) + ([mark] + rest)) == Read(id, [mark] + rest);
  }

  /** So it is in the tree over texts, where the list of elements begins with 'n' or 'i'. */
  lemma UnknownTextMark<T(!new)>(codec: Codec<T>, mark: Byte, rest: seq<Byte>, c: nat)
    requires Consumes(codec.take)
    ensures mark != 'N' as int && mark != 'C' as int ==> X.Take(codec, [mark] + rest) == Fatal
    ensures mark != '0' as int && mark != '1' as int && c > 0 ==> X.TakeSlots(codec, [mark] + rest, c) == Fatal
    ensures mark != 'n' as int && mark != 'i' as int ==> TakeElements([mark] + rest) == Fatal
  {
  }

  /** An index beyond the rows, and not the terminator, stops the program. */
  lemma IndexBeyondRows<T>(take: seq<Byte> -> Reading<T>, rows: seq<Option<T>>, index: U64, rest: seq<Byte>)
    requires index >= |rows| && index != 0xcafe_babe
    ensures TakeSparse(take, rows, Encoded(index, 8) + rest) == Fatal
  {
    U64RoundTrip(index, rest);
  }

  /** The terminator ends the rows, whatever they are. */
  lemma TerminatorEnds<T>(take: seq<Byte> -> Reading<T>, rows: seq<Option<T>>, rest: seq<Byte>)
    ensures TakeSparse(take, rows, Encoded(0xcafe_babe, 8) + rest) == Read(rows, rest)
  {
    U64RoundTrip(0xcafe_babe, rest);
  }

  /** The first number of national roads is checked before the comparison with the terminator, later ones are not. */
  lemma FirstNationalNumber(national: seq<seq<U64>>, number: U16, rest: seq<Byte>)
    ensures number >= |national| ==> TakeNational(national, Encoded(number, 2) + rest, true) == Fatal
    ensures TakeNational(national, Encoded(0xfefe, 2) + rest, false) == Read(national, rest)
  {
    U16RoundTrip(number, rest);
    U16RoundTrip(0xfefe, rest);
  }

  /** More than 4194303 ways of a road stop the program, at whatever bytes follow. */
  lemma TooManyWays(count: U64, rest: seq<Byte>)
    requires count > 4194303
    ensures TakeIds(Encoded(count, 8) + rest) == Fatal
  {
    U64RoundTrip(count, rest);
  }

  /** And not more than that do not: the lists of ways that are read back are these. */
  lemma ListsReadBack(ids: seq<U64>, tail: seq<Byte>)
    requires |ids| < 0x1_0000_0000_0000_0000
    ensures TakeIds(PutIds(ids) + tail).Read? <==> |ids| <= 4194303
  {
    WordLimit();
    IdsRoundTrip(ids, tail);
  }

  lemma WordLimit()
    ensures Limit(8) == 0x1_0000_0000_0000_0000
  {
    assert Limit(2) == 0x1_0000 && Limit(4) == 0x1_0000 * Limit(2) && Limit(6) == 0x1_0000 * Limit(4);
  }

  /** A name ends at its first zero also where the file has more of it; one beyond the buffer stops the program. */
  lemma NameInFile(text: seq<Byte>, tail: seq<Byte>)
    requires |text| < 0x1_0000_0000_0000_0000
    ensures TakeName(Encoded(|text|, 8) + text + tail) == if |text| <= 8191 then Read(CString(text), tail) else Fatal
  {
    Regroup(PutU64(|text|), text, tail);
    U64RoundTrip(|text|, text + tail);
    assert (text + tail)[..|text|] == text && (text + tail)[|text|..] == tail;
  }

  /** Where another marker is found than that of the areas, they stay empty and reading goes on behind it. */
  lemma UnknownSectionMark(mark: Byte, rest: seq<Byte>)
    ensures mark != 'S' as int ==>
              S.TakeAreaTables([mark] + rest) == S.Section(Read(S.Blank(), rest), 'n' as int, S.TakeNuts3)
    ensures S.TakeAreaTables([]) == Fatal
  {
    assert ([mark] + rest)[1..] == rest;
  }
}
