/** Byte streams and the fixed-width little-endian numbers in them. */
module Streams {
  import opened Options

  type Byte = b: nat | b < 256
  type U16 = n: nat | n < 0x1_0000
  type U32 = n: nat | n < 0x1_0000_0000
  type U64 = n: nat | n < 0x1_0000_0000_0000_0000
  type Int32 = x: int | -0x8000_0000 <= x < 0x8000_0000

  /**
   * The outcome of reading from the front of some bytes: the program stops, or there is a value and what follows it.
   */
  datatype Reading<+T> = Fatal | Read(value: T, rest: seq<Byte>)

  /** A stream that is only written at its end. */
  class OutputStream {
    var written: seq<Byte>

    constructor ()
      ensures written == []
    {
      written := [];
    }

    method Write(bytes: seq<Byte>)
      modifies this
      ensures written == old(written) + bytes
    {
      written := written + bytes;
    }
  }

  /** A stream that is only read at its front. */
  class InputStream {
    var rest: seq<Byte>

    constructor (bytes: seq<Byte>)
      ensures rest == bytes
    {
      rest := bytes;
    }

    method Read(k: nat) returns (bytes: Option<seq<Byte>>)
      modifies this
      ensures if k <= |old(rest)| then bytes == Some(old(rest)[..k]) && rest == old(rest)[k..] else bytes == None
    {
      if k > |rest| {
        return None;
      }
      bytes := Some(rest[..k]);
      rest := rest[k..];
    }
  }

  /** A reading method has done what the reading function says. */
  predicate Agrees<T(==)>(expected: Reading<T>, got: Option<T>, rest: seq<Byte>) {
    match expected
    case Fatal => got == None
    case Read(value, after) => got == Some(value) && rest == after
  }

  // ----- numbers

  /** How many numbers fit into k bytes. */
  function Limit(k: nat): nat {
    if k == 0 then 1 else 256 * Limit(k - 1)
  }

  function Encoded(n: nat, k: nat): (bytes: seq<Byte>)
    ensures |bytes| == k
    decreases n, k
  {
    if k == 0 then [] else [n % 256] + Encoded(n / 256, k - 1)
  }

  function Decoded(bytes: seq<Byte>): (n: nat)
    ensures n < Limit(|bytes|)
  {
    if bytes == [] then 0 else bytes[0] + 256 * Decoded(bytes[1..])
  }

  lemma {:induction false} NumberRoundTrip(n: nat, k: nat)
    requires n < Limit(k)
    ensures Decoded(Encoded(n, k)) == n
    decreases k
  {
    if k > 0 {
      NumberRoundTrip(n / 256, k - 1);
      assert Encoded(n, k)[1..] == Encoded(n / 256, k - 1);
    }
  }

  function TakeNumber(bytes: seq<Byte>, k: nat): (r: Reading<nat>)
    ensures r.Read? ==> r.value < Limit(k) && |r.rest| == |bytes| - k
  {
    if |bytes| < k then Fatal else Read(Decoded(bytes[..k]), bytes[k..])
  }

  /** A number is read back from its own bytes, and what follows them is left. */
  lemma TakeEncoded(n: nat, k: nat, tail: seq<Byte>)
    requires n < Limit(k)
    ensures TakeNumber(Encoded(n, k) + tail, k) == Read(n, tail)
  {
    NumberRoundTrip(n, k);
    assert (Encoded(n, k) + tail)[..k] == Encoded(n, k);
  }

  function TakeU16(bytes: seq<Byte>): (r: Reading<U16>)
    ensures r.Read? ==> |r.rest| == |bytes| - 2
  {
    match TakeNumber(bytes, 2)
    case Fatal => Fatal
    case Read(n, rest) => Read(n, rest)
  }

  function TakeU32(bytes: seq<Byte>): (r: Reading<U32>)
    ensures r.Read? ==> |r.rest| == |bytes| - 4
  {
    match TakeNumber(bytes, 4)
    case Fatal => Fatal
    case Read(n, rest) => Read(n, rest)
  }

  function TakeU64(bytes: seq<Byte>): (r: Reading<U64>)
    ensures r.Read? ==> |r.rest| == |bytes| - 8
  {
    match TakeNumber(bytes, 8)
    case Fatal => Fatal
    case Read(n, rest) => Read(n, rest)
  }

  function PutU16(n: U16): seq<Byte> { Encoded(n, 2) }

  function PutU32(n: U32): seq<Byte> { Encoded(n, 4) }

  function PutU64(n: U64): seq<Byte> { Encoded(n, 8) }

  function PutInt32(x: Int32): seq<Byte> {
    PutU32(if x < 0 then x + 0x1_0000_0000 else x)
  }

  function TakeInt32(bytes: seq<Byte>): (r: Reading<Int32>)
    ensures r.Read? ==> |r.rest| == |bytes| - 4
  {
    match TakeU32(bytes)
    case Fatal => Fatal
    case Read(n, rest) => Read(if n < 0x8000_0000 then n else n - 0x1_0000_0000, rest)
  }

  lemma U16RoundTrip(n: U16, tail: seq<Byte>)
    ensures TakeU16(PutU16(n) + tail) == Read(n, tail)
  {
    TakeEncoded(n, 2, tail);
  }

  lemma U32RoundTrip(n: U32, tail: seq<Byte>)
    ensures TakeU32(PutU32(n) + tail) == Read(n, tail)
  {
    TakeEncoded(n, 4, tail);
  }

  lemma U64RoundTrip(n: U64, tail: seq<Byte>)
    ensures TakeU64(PutU64(n) + tail) == Read(n, tail)
  {
    TakeEncoded(n, 8, tail);
  }

  lemma Int32RoundTrip(x: Int32, tail: seq<Byte>)
    ensures TakeInt32(PutInt32(x) + tail) == Read(x, tail)
  {
    U32RoundTrip(if x < 0 then x + 0x1_0000_0000 else x, tail);
  }

  // ----- runs of values of one kind

  function PutAll<T>(put: T -> seq<Byte>, values: seq<T>): seq<Byte> {
    if values == [] then [] else put(values[0]) + PutAll(put, values[1..])
  }

  /** Reading never adds bytes. */
  ghost predicate Consumes<T>(take: seq<Byte> -> Reading<T>) {
    forall bytes :: take(bytes).Read? ==> |take(bytes).rest| <= |bytes|
  }

  function TakeAll<T>(take: seq<Byte> -> Reading<T>, bytes: seq<Byte>, count: nat): (r: Reading<seq<T>>)
    requires Consumes(take)
    ensures r.Read? ==> |r.value| == count && |r.rest| <= |bytes|
    decreases count
  {
    if count == 0 then Read([], bytes) else
    match take(bytes)
    case Fatal => Fatal
    case Read(first, rest) =>
      match TakeAll(take, rest, count - 1)
      case Fatal => Fatal
      case Read(others, after) => Read([first] + others, after)
  }

  /** One kind of value is read back from its own bytes, whatever follows. */
  ghost predicate RoundTrips<T(!new)>(put: T -> seq<Byte>, take: seq<Byte> -> Reading<T>) {
    forall value, tail :: take(put(value) + tail) == Read(value, tail)
  }

  lemma {:induction false} AllRoundTrip<T(!new)>(put: T -> seq<Byte>, take: seq<Byte> -> Reading<T>, values: seq<T>,
                                                 tail: seq<Byte>)
    requires RoundTrips(put, take) && Consumes(take)
    ensures TakeAll(take, PutAll(put, values) + tail, |values|) == Read(values, tail)
  {
    if values == [] {
      assert [] + tail == tail;
    } else {
      var rest := PutAll(put, values[1..]);
      assert PutAll(put, values) + tail == put(values[0]) + (rest + tail);
      assert take(put(values[0]) + (rest + tail)) == Read(values[0], rest + tail);
      AllRoundTrip(put, take, values[1..], tail);
      assert [values[0]] + values[1..] == values;
    }
  }

  // ----- texts that end with a zero

  /** The text up to the first zero. */
  function CString(bytes: seq<Byte>): seq<Byte> {
    if bytes == [] || bytes[0] == 0 then [] else [bytes[0]] + CString(bytes[1..])
  }

  lemma {:induction false} TerminatedText(bytes: seq<Byte>, length: nat)
    requires length < |bytes| && bytes[length] == 0 && 0 !in bytes[..length]
    ensures CString(bytes) == bytes[..length]
  {
    if length > 0 {
      assert bytes[0] == bytes[..length][0] && bytes[1..][..length - 1] == bytes[..length][1..];
      TerminatedText(bytes[1..], length - 1);
      assert bytes[..length] == [bytes[0]] + bytes[1..][..length - 1];
    }
  }

  lemma {:induction false} WithoutZero(text: seq<Byte>)
    ensures 0 !in CString(text) && (CString(text) == text <==> 0 !in text)
  {
    if text != [] && text[0] != 0 {
      WithoutZero(text[1..]);
      assert text == [text[0]] + text[1..];
    }
  }
}
