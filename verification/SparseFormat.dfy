/**
 * Rows of optional entries in a file: the index of each entry and the entry itself, and a terminator after the last.
 */
module SparseFormat {
  import opened Options
  import opened Payloads
  import opened Streams

  const TERMINATOR: U64 := 0xcafe_babe

  /** Every value that fits is read back, whatever follows; or the program stops, if it does not accept the value. */
  ghost predicate Checked<T(!new)>(codec: Codec<T>) {
    && Consumes(codec.take)
    && forall data, tail :: codec.fits(data) ==>
         codec.take(codec.put(data) + tail) == if codec.assignable(data) then Read(data, tail) else Fatal
  }

  /** The entries from index i on, and the terminator. */
  function PutSparse<T>(put: T -> seq<Byte>, rows: seq<Option<T>>, i: nat): seq<Byte>
    requires i <= |rows|
    decreases |rows| - i
  {
    if i == |rows| then PutU64(TERMINATOR)
    else if rows[i].None? then PutSparse(put, rows, i + 1)
    else Encoded(i, 8) + (put(rows[i].value) + PutSparse(put, rows, i + 1))
  }

  /** Fill in entries up to the terminator; an index out of range stops the program. */
  function TakeSparse<T>(take: seq<Byte> -> Reading<T>, rows: seq<Option<T>>,
                         bytes: seq<Byte>): (r: Reading<seq<Option<T>>>)
    ensures r.Read? ==> |r.value| == |rows| && |r.rest| <= |bytes|
    decreases |bytes|
  {
    match TakeU64(bytes)
    case Fatal => Fatal
    case Read(index, rest) =>
      if index == TERMINATOR then Read(rows, rest)
      else if index >= |rows| then Fatal
      else
        match take(rest)
        case Fatal => Fatal
        case Read(entry, after) =>
          if |after| > |rest| then Fatal  // reading never adds bytes
          else TakeSparse(take, rows[index := Some(entry)], after)
  }

  function Nothing<T>(n: nat): seq<Option<T>> {
    seq(n, _ => None)
  }

  predicate AllEntries<T>(test: T -> bool, rows: seq<Option<T>>, i: nat)
    requires i <= |rows|
    decreases |rows| - i
  {
    i == |rows| || ((rows[i].Some? ==> test(rows[i].value)) && AllEntries(test, rows, i + 1))
  }

  /** The first i entries have been filled in. */
  function Filled<T>(rows: seq<Option<T>>, i: nat): seq<Option<T>>
    requires i <= |rows|
  {
    rows[..i] + Nothing(|rows| - i)
  }

  lemma FilledNext<T>(rows: seq<Option<T>>, i: nat)
    requires i < |rows|
    ensures Filled(rows, i + 1) ==
            if rows[i].None? then Filled(rows, i) else Filled(rows, i)[i := rows[i]]
  {
  }

  /** One entry is read back at its own place. */
  lemma EntryRoundTrip<T(!new)>(codec: Codec<T>, rows: seq<Option<T>>, i: nat, entry: T, rest: seq<Byte>)
    requires Checked(codec) && i < |rows| <= TERMINATOR && codec.fits(entry)
    ensures TakeSparse(codec.take, rows, Encoded(i, 8) + (codec.put(entry) + rest)) ==
            if codec.assignable(entry) then TakeSparse(codec.take, rows[i := Some(entry)], rest) else Fatal
  {
    var bytes := codec.put(entry) + rest;
    TakeEncoded(i, 8, bytes);
    assert codec.take(bytes) == if codec.assignable(entry) then Read(entry, rest) else Fatal;
  }

  /** Entries are read back at their own places; the terminator is not mistaken for an index. */
  lemma {:induction false} SparseRoundTrip<T(!new)>(codec: Codec<T>, rows: seq<Option<T>>, i: nat, tail: seq<Byte>)
    requires Checked(codec) && i <= |rows| <= TERMINATOR && AllEntries(codec.fits, rows, i)
    ensures TakeSparse(codec.take, Filled(rows, i), PutSparse(codec.put, rows, i) + tail) ==
            if AllEntries(codec.assignable, rows, i) then Read(rows, tail) else Fatal
    decreases |rows| - i
  {
    if i == |rows| {
      U64RoundTrip(TERMINATOR, tail);
      assert Filled(rows, i) == rows;
    } else {
      FilledNext(rows, i);
      SparseRoundTrip(codec, rows, i + 1, tail);
      if rows[i].Some? {
        var rest, entry := PutSparse(codec.put, rows, i + 1) + tail, rows[i].value;
        assert PutSparse(codec.put, rows, i) + tail == Encoded(i, 8) + (codec.put(entry) + rest);
        EntryRoundTrip(codec, Filled(rows, i), i, entry, rest);
      }
    }
  }

  /** The same as one kind of data: rows of a given length over another kind. */
  function SparseCodec<T(!new)>(codec: Codec<T>, size: nat): Codec<seq<Option<T>>> {
    Codec(Nothing(size),
          (rows: seq<Option<T>>) => PutSparse(codec.put, rows, 0),
          (bytes: seq<Byte>) => TakeSparse(codec.take, Nothing(size), bytes),
          (rows: seq<Option<T>>) => |rows| == size && AllEntries(codec.fits, rows, 0),
          (rows: seq<Option<T>>) => AllEntries(codec.assignable, rows, 0))
  }

  lemma SparseChecked<T(!new)>(codec: Codec<T>, size: nat)
    requires Checked(codec) && size <= TERMINATOR
    ensures Checked(SparseCodec(codec, size))
  {
    var sparse := SparseCodec(codec, size);
    forall rows, tail | sparse.fits(rows)
      ensures sparse.take(sparse.put(rows) + tail) == if sparse.assignable(rows) then Read(rows, tail) else Fatal
    {
      SparseRoundTrip(codec, rows, 0, tail);
      assert Filled(rows, 0) == Nothing(size);
    }
  }

  // ----- step by step

  method WriteSparse<T>(codec: Codec<T>, rows: seq<Option<T>>, output: OutputStream)
    modifies output
    ensures output.written == old(output.written) + PutSparse(codec.put, rows, 0)
  {
    for i := 0 to |rows|
      invariant output.written + PutSparse(codec.put, rows, i) == old(output.written) + PutSparse(codec.put, rows, 0)
    {
      WriteEntry(codec, rows, i, output);
    }
    output.Write(PutU64(TERMINATOR));
  }

  method WriteEntry<T>(codec: Codec<T>, rows: seq<Option<T>>, i: nat, output: OutputStream)
    requires i < |rows|
    modifies output
    ensures output.written + PutSparse(codec.put, rows, i + 1) == old(output.written) + PutSparse(codec.put, rows, i)
  {
    if rows[i].Some? {
      output.Write(Encoded(i, 8));
      output.Write(codec.put(rows[i].value));
      assert output.written == old(output.written) + Encoded(i, 8) + codec.put(rows[i].value);
    }
  }

  method ReadSparse<T>(codec: Codec<T>, size: nat, input: InputStream) returns (r: Option<seq<Option<T>>>)
    requires Consumes(codec.take)
    modifies input
    ensures Agrees(TakeSparse(codec.take, Nothing(size), old(input.rest)), r, input.rest)
  {
    var rows := Nothing(size);
    while true
      invariant TakeSparse(codec.take, rows, input.rest) == TakeSparse(codec.take, Nothing(size), old(input.rest))
      decreases |input.rest|
    {
      ghost var here := input.rest;
      var word := input.Read(8);
      if word.None? {
        return None;
      }
      var index := Decoded(word.value);
      assert TakeU64(here) == Read(index, input.rest);
      if index == TERMINATOR {
        return Some(rows);
      }
      if index >= |rows| {
        return None;
      }
      match codec.take(input.rest) {
        case Fatal =>
          return None;
        case Read(entry, after) =>
          input.rest := after;
          rows := rows[index := Some(entry)];
      }
    }
    assert false;
  }
}
