/** Words as the text tree sees them: sequences of codes, one for each character it tells apart. */
module SwedishText {
  import opened Streams

  const NUM_CODES := 48
  const CODE_WORD_SEP: Code := 46
  const CODE_UNKNOWN: Code := 47

  type Code = c: nat | c < NUM_CODES

  /** The code of a byte, given the byte before it. */
  function CodeChar(previous: Byte, c: Byte): Code {
    if c == 0 then 0
    else if 0x61 <= c <= 0x7a then c - 0x61 + 1
    else if 0x30 <= c <= 0x39 then c - 0x30 + 27
    else if previous == 0xc3 then
      if c == 0xa5 then 37
      else if c == 0xa4 then 38
      else if c == 0xb6 then 39
      else if c == 0xa9 then 40
      else if c == 0xbc then 41
      else if c == 0xb8 then 42
      else CODE_UNKNOWN
    else if c <= 0x20 then CODE_WORD_SEP
    else if c == 0x2d then 45
    else CODE_UNKNOWN
  }

  /** The codes of some bytes that come after another byte; they end at a control character. */
  function CodesAfter(previous: Byte, text: seq<Byte>): seq<Code>
    decreases text
  {
    if text == [] || text[0] < 0x20 then []
    else if text[0] == 0xc3 then CodesAfter(0xc3, text[1..])
    else [CodeChar(previous, text[0])] + CodesAfter(text[0], text[1..])
  }

  function CodeWord(text: seq<Byte>): seq<Code> {
    CodesAfter(0, text)
  }

  lemma CodesAfterStep(codes: seq<Code>, previous: Byte, text: seq<Byte>, i: nat)
    requires i < |text| && text[i] >= 0x20
    ensures codes + CodesAfter(previous, text[i..]) ==
            if text[i] == 0xc3 then codes + CodesAfter(0xc3, text[i + 1..])
            else codes + [CodeChar(previous, text[i])] + CodesAfter(text[i], text[i + 1..])
  {
    assert text[i..][1..] == text[i + 1..];
  }

  method ToCodeWord(text: seq<Byte>) returns (result: seq<Code>)
    ensures result == CodeWord(text)
  {
    result := [];
    var previous: Byte := 0;
    assert text[0..] == text;
    for i := 0 to |text|
      invariant result + CodesAfter(previous, text[i..]) == CodeWord(text)
    {
      var c := text[i];
      if c < 0x20 {
        return;
      }
      CodesAfterStep(result, previous, text, i);
      if c == 0xc3 {
        previous := c;
        continue;
      }
      result := result + [CodeChar(previous, c)];
      previous := c;
    }
  }

  // ----- the supported alphabet

  /** A character with a code of its own. */
  datatype Symbol = Letter(index: nat) | Digit(value: nat) | Accented(which: nat) | Hyphen | Space {
    predicate Supported() {
      match this
      case Letter(index) => index < 26
      case Digit(value) => value < 10
      case Accented(which) => which < 6
      case _ => true
    }

    /** The character's bytes in UTF-8. */
    function Bytes(): seq<Byte>
      requires Supported()
    {
      match this
      case Letter(index) => [0x61 + index]
      case Digit(value) => [0x30 + value]
      case Accented(which) => [0xc3, SECOND_BYTES[which]]
      case Hyphen => [0x2d]
      case Space => [0x20]
    }
  }

  /** The second bytes of a with ring, a and o with diaeresis, e with acute, u with diaeresis, o with stroke. */
  const SECOND_BYTES: seq<Byte> := [0xa5, 0xa4, 0xb6, 0xa9, 0xbc, 0xb8]

  predicate AllSupported(word: seq<Symbol>) {
    forall i | 0 <= i < |word| :: word[i].Supported()
  }

  function Utf8(word: seq<Symbol>): seq<Byte>
    requires AllSupported(word)
  {
    if word == [] then [] else word[0].Bytes() + Utf8(word[1..])
  }

  /** The character with a code; the codes that stand for none give a space. */
  function SymbolOf(code: Code): Symbol {
    if 1 <= code <= 26 then Letter(code - 1)
    else if 27 <= code <= 36 then Digit(code - 27)
    else if 37 <= code <= 42 then Accented(code - 37)
    else if code == 45 then Hyphen
    else Space
  }

  function Decoded(codes: seq<Code>): seq<Symbol> {
    if codes == [] then [] else [SymbolOf(codes[0])] + Decoded(codes[1..])
  }

  lemma SymbolRoundTrip(previous: Byte, symbol: Symbol, rest: seq<Byte>)
    requires symbol.Supported() && previous != 0xc3
    ensures var bytes := symbol.Bytes();
            var codes := CodesAfter(previous, bytes + rest);
            && codes != [] && SymbolOf(codes[0]) == symbol && codes[0] != CODE_UNKNOWN
            && bytes[|bytes| - 1] != 0xc3 && codes[1..] == CodesAfter(bytes[|bytes| - 1], rest)
  {
    var bytes := symbol.Bytes();
    if symbol.Accented? {
      assert (bytes + rest)[1..] == [bytes[1]] + rest;
      assert ([bytes[1]] + rest)[1..] == rest;
    } else {
      assert (bytes + rest)[1..] == rest;
    }
  }

  lemma {:induction false} WordRoundTrip(previous: Byte, word: seq<Symbol>)
    requires AllSupported(word) && previous != 0xc3
    ensures Decoded(CodesAfter(previous, Utf8(word))) == word
    ensures CODE_UNKNOWN !in CodesAfter(previous, Utf8(word))
    decreases word
  {
    if word != [] {
      SymbolRoundTrip(previous, word[0], Utf8(word[1..]));
      var bytes := word[0].Bytes();
      WordRoundTrip(bytes[|bytes| - 1], word[1..]);
      var codes := CodesAfter(previous, Utf8(word));
      assert codes == [codes[0]] + codes[1..];
    }
  }

  /** Words over the supported alphabet have the same codes only if they are the same word. */
  lemma EncodingInjective(a: seq<Symbol>, b: seq<Symbol>)
    requires AllSupported(a) && AllSupported(b) && CodeWord(Utf8(a)) == CodeWord(Utf8(b))
    ensures a == b
  {
    WordRoundTrip(0, a);
    WordRoundTrip(0, b);
  }

  // ----- codes of all bytes

  /** The codes are numbered through: letters, digits, accented letters, and at the end the hyphen and the space. */
  lemma CodeOfSymbol(previous: Byte, symbol: Symbol)
    requires symbol.Supported() && previous != 0xc3
    ensures var code :=
              match symbol
              case Letter(index) => 1 + index
              case Digit(value) => 27 + value
              case Accented(which) => 37 + which
              case Hyphen => 45
              case Space => 46;
            CodesAfter(previous, symbol.Bytes()) == [code]
  {
    match symbol
    case Letter(index) => CodeOfByte(previous, 0x61 + index);
    case Digit(value) => CodeOfByte(previous, 0x30 + value);
    case Accented(which) =>
      assert symbol.Bytes()[1..] == [SECOND_BYTES[which]];
      CodeOfByte(0xc3, SECOND_BYTES[which]);
    case Hyphen => CodeOfByte(previous, 0x2d);
    case Space => CodeOfByte(previous, 0x20);
  }

  lemma CodeOfByte(previous: Byte, c: Byte)
    requires c >= 0x20 && c != 0xc3
    ensures CodesAfter(previous, [c]) == [CodeChar(previous, c)]
  {
    assert [c][1..] == [];
  }

  /** A byte that belongs to no character of the supported alphabet has the code for unknown ones. */
  lemma OtherBytesUnknown(previous: Byte, c: Byte)
    requires c > 0x20
    ensures CodeChar(previous, c) == 47 <==>
            && !('a' as int <= c <= 'z' as int) && !('0' as int <= c <= '9' as int)
            && (if previous == 0xc3 then c !in SECOND_BYTES else c != 0x2d)
  {
  }

  /** Each byte has its own code, which depends on the byte before it; a control character ends the codes. */
  lemma {:induction false} CodesAt(previous: Byte, a: seq<Byte>, c: Byte, b: seq<Byte>)
    requires forall x | x in a :: x >= 0x20
    ensures var before := if a == [] then previous else a[|a| - 1];
            CodesAfter(previous, a + [c] + b) ==
            CodesAfter(previous, a) +
            if c < 0x20 then [] else (if c == 0xc3 then [] else [CodeChar(before, c)]) + CodesAfter(c, b)
    decreases a
  {
    var text := a + [c] + b;
    if a == [] {
      assert text[1..] == b;
    } else {
      assert a[0] in a && text[1..] == a[1..] + [c] + b;
      assert forall x | x in a[1..] :: x in a;
      CodesAt(a[0], a[1..], c, b);
    }
  }

  // ----- the runs of words a name is found under

  /** Some words with a space between each two. */
  function Joined(words: seq<seq<Byte>>): seq<Byte> {
    if words == [] then []
    else if |words| == 1 then words[0]
    else words[0] + [0x20] + Joined(words[1..])
  }

  /** The text is what s words from the given start on read. */
  predicate IsRun(words: seq<seq<Byte>>, s: nat, start: nat, text: seq<Byte>) {
    start + s <= |words| && text == Joined(words[start..start + s])
  }

  /** The runs of s words each, from the given start on. */
  function RunsOfLength(words: seq<seq<Byte>>, s: nat, start: nat): seq<seq<Byte>>
    requires 0 < s <= |words|
    decreases |words| - start
  {
    if start + s > |words| then [] else [Joined(words[start..start + s])] + RunsOfLength(words, s, start + 1)
  }

  /** The runs of s words, of s - 1 words and so on; only the three longest lengths there are for n words. */
  function RunsFrom(words: seq<seq<Byte>>, s: nat): seq<seq<Byte>>
    requires s <= |words|
  {
    if s > |words| - 3 && s > 0 then RunsOfLength(words, s, 0) + RunsFrom(words, s - 1) else []
  }

  function Runs(words: seq<seq<Byte>>): seq<seq<Byte>> {
    RunsFrom(words, |words|)
  }

  ghost predicate HasRunOfLength(words: seq<seq<Byte>>, s: nat, text: seq<Byte>) {
    exists i: nat :: IsRun(words, s, i, text)
  }

  /** The text is a run of all words of a name, of one word less or of two less. */
  ghost predicate IsLongRun(words: seq<seq<Byte>>, text: seq<Byte>) {
    exists s: nat :: 0 < s <= |words| && s > |words| - 3 && HasRunOfLength(words, s, text)
  }

  lemma {:induction false} RunsOfLengthAre(words: seq<seq<Byte>>, s: nat, start: nat, text: seq<Byte>)
    requires 0 < s <= |words|
    ensures text in RunsOfLength(words, s, start) <==> exists i: nat :: start <= i && IsRun(words, s, i, text)
    decreases |words| - start
  {
    if start + s <= |words| {
      RunsOfLengthAre(words, s, start + 1, text);
      assert text == Joined(words[start..start + s]) <==> IsRun(words, s, start, text);
    }
  }

  lemma {:induction false} RunsFromAre(words: seq<seq<Byte>>, s: nat, text: seq<Byte>)
    requires s <= |words|
    ensures text in RunsFrom(words, s) <==>
            exists k: nat :: 0 < k <= s && k > |words| - 3 && HasRunOfLength(words, k, text)
  {
    if s > |words| - 3 && s > 0 {
      RunsOfLengthAre(words, s, 0, text);
      RunsFromAre(words, s - 1, text);
      assert text in RunsOfLength(words, s, 0) <==> HasRunOfLength(words, s, text);
    }
  }

  /** A name is stored under its long runs and under nothing else. */
  lemma RunsAre(words: seq<seq<Byte>>, text: seq<Byte>)
    ensures text in Runs(words) <==> IsLongRun(words, text)
  {
    RunsFromAre(words, |words|, text);
  }

  /** The runs of s words, as many as there are places for the first of them. */
  function RunsOf(words: seq<seq<Byte>>, s: int): seq<seq<Byte>> {
    if 0 < s <= |words| then RunsOfLength(words, s, 0) else []
  }

  /** The longest runs come first, then those of one word less, then those of two words less. */
  lemma LongestRunsFirst(words: seq<seq<Byte>>)
    ensures var n := |words|; Runs(words) == RunsOf(words, n) + (RunsOf(words, n - 1) + RunsOf(words, n - 2))
  {
    var n := |words|;
    LengthByLength(words, n);
    if n >= 1 {
      LengthByLength(words, n - 1);
    }
    if n >= 2 {
      LengthByLength(words, n - 2);
    }
    if n >= 3 {
      LengthByLength(words, n - 3);
    }
    NothingBehind(RunsOf(words, n));
    NothingBehind(RunsOf(words, n - 1));
    NothingBehind(RunsOf(words, n - 2));
  }

  lemma NothingBehind<T>(s: seq<T>)
    ensures s + [] == s
  {
  }

  lemma LengthByLength(words: seq<seq<Byte>>, s: nat)
    requires s <= |words|
    ensures RunsFrom(words, s) ==
            if s > |words| - 3 && s > 0 then RunsOfLength(words, s, 0) + RunsFrom(words, s - 1) else []
  {
  }

  lemma NextRun(words: seq<seq<Byte>>, s: nat, start: nat)
    requires 0 < s && start + s <= |words|
    ensures RunsOfLength(words, s, start)
         == [Joined(words[start..start + s])] + RunsOfLength(words, s, start + 1)
  {
  }

  /** Those of one length come from left to right. */
  lemma {:induction false} RunsFromLeftToRight(words: seq<seq<Byte>>, s: nat, start: nat, i: nat)
    requires 0 < s && start + i + s <= |words|
    ensures |RunsOfLength(words, s, start)| == |words| - s - start + 1
    ensures RunsOfLength(words, s, start)[i] == Joined(words[start + i..start + i + s])
    decreases |words| - start
  {
    NextRun(words, s, start);
    if start + s < |words| {
      RunsFromLeftToRight(words, s, start + 1, if i > 0 then i - 1 else 0);
    } else {
      assert RunsOfLength(words, s, start + 1) == [];
    }
  }

  // ----- putting a run together in a buffer of fixed size

  const BUFFER_LEN := 1024

  /** The longest text that leaves room for its terminator wherever its last word begins. */
  const LONGEST := BUFFER_LEN - 3

  /** Joined words are separated by single spaces, wherever the name is split. */
  lemma {:induction false} JoinedSplit(a: seq<seq<Byte>>, b: seq<seq<Byte>>)
    requires a != [] && b != []
    ensures Joined(a + b) == Joined(a) + [0x20] + Joined(b)
  {
    assert (a + b)[1..] == a[1..] + b;
    if |a| > 1 {
      JoinedSplit(a[1..], b);
    } else {
      assert (a + b)[1..] == b;
    }
  }

  lemma JoinedNoShorter(a: seq<seq<Byte>>, b: seq<seq<Byte>>)
    ensures |Joined(a)| <= |Joined(a + b)| && |Joined(b)| <= |Joined(a + b)|
  {
    if a == [] {
      assert a + b == b;
    } else if b == [] {
      assert a + b == a;
    } else {
      JoinedSplit(a, b);
    }
  }

  lemma PartNoLonger(a: seq<seq<Byte>>, run: seq<seq<Byte>>, b: seq<seq<Byte>>)
    ensures |Joined(run)| <= |Joined(a + (run + b))|
  {
    JoinedNoShorter(a, run + b);
    JoinedNoShorter(run, b);
  }

  lemma CutOut<T>(s: seq<T>, from: nat, to: nat)
    requires from <= to <= |s|
    ensures s[..from] + (s[from..to] + s[to..]) == s
  {
  }

  /** No run is longer than the whole name. */
  lemma RunNoLonger(words: seq<seq<Byte>>, start: nat, s: nat)
    requires start + s <= |words|
    ensures |Joined(words[start..start + s])| <= |Joined(words)|
  {
    CutOut(words, start, start + s);
    PartNoLonger(words[..start], words[start..start + s], words[start + s..]);
  }

  /** Copy at most n bytes of a text and fill what is left of them with zeros. */
  method CopyPadded(buffer: array<Byte>, at: nat, text: seq<Byte>, n: nat)
    requires at + n <= buffer.Length && |text| < n
    modifies buffer
    ensures buffer[..at] == old(buffer[..at])
    ensures buffer[at..at + |text|] == text && buffer[at + |text|] == 0
  {
    for i := 0 to n
      invariant buffer[..at] == old(buffer[..at])
      invariant forall k | at <= k < at + i :: buffer[k] == if k - at < |text| then text[k - at] else 0
    {
      buffer[at + i] := if i < |text| then text[i] else 0;
    }
  }

  /** What the buffer holds before word number i of the run is copied: the words so far, and the space after them. */
  function Begun(run: seq<seq<Byte>>, i: nat): seq<Byte>
    requires i <= |run|
  {
    if i == 0 || i == |run| then Joined(run[..i]) else Joined(run[..i]) + [0x20]
  }

  lemma OneMoreWord(run: seq<seq<Byte>>, i: nat)
    requires i < |run|
    ensures Begun(run, i + 1) == Begun(run, i) + run[i] + if i + 1 < |run| then [0x20] else []
    ensures |Begun(run, i) + run[i]| <= |Joined(run)|
  {
    assert run[..i + 1] == run[..i] + [run[i]];
    if i > 0 {
      JoinedSplit(run[..i], [run[i]]);
    }
    assert run[..i + 1] + run[i + 1..] == run;
    JoinedNoShorter(run[..i + 1], run[i + 1..]);
    assert Begun(run, i) + run[i] == Joined(run[..i + 1]);
  }

  lemma {:induction false} JoinedWithoutZero(run: seq<seq<Byte>>)
    requires forall w | w in run :: 0 !in w
    ensures 0 !in Joined(run)
  {
    if |run| > 1 {
      JoinedWithoutZero(run[1..]);
    }
  }

  /** Copy word number i of the run, and a space if it is not the last. */
  method CopyWord(run: seq<seq<Byte>>, i: nat, buffer: array<Byte>, cur: nat) returns (next: nat)
    requires i < |run| && buffer.Length == BUFFER_LEN && |Joined(run)| <= LONGEST
    requires cur == |Begun(run, i)| <= LONGEST + 1 && buffer[..cur] == Begun(run, i)
    modifies buffer
    ensures next == |Begun(run, i + 1)| <= LONGEST + 1 && buffer[..next] == Begun(run, i + 1)
    ensures i + 1 == |run| ==> next <= LONGEST && buffer[next] == 0
  {
    OneMoreWord(run, i);
    var cstr := run[i];
    ghost var before := buffer[..cur];
    CopyPadded(buffer, cur, cstr, BUFFER_LEN - cur - 2);
    next := cur + |cstr|;
    assert buffer[..next] == before + cstr;
    if i + 1 < |run| {
      buffer[next] := 0x20;
      assert buffer[..next + 1] == before + cstr + [0x20];
      next := next + 1;
    }
  }

  /**
   * Copy the words of a run one after another, with spaces in between: afterwards the buffer reads as the joined run.
   */
  method FillBuffer(run: seq<seq<Byte>>, buffer: array<Byte>)
    requires run != [] && (forall w | w in run :: 0 !in w)
    requires buffer.Length == BUFFER_LEN && |Joined(run)| <= LONGEST
    modifies buffer
    ensures CString(buffer[..]) == Joined(run)
  {
    var cur := 0;
    for i := 0 to |run|
      invariant cur == |Begun(run, i)| <= LONGEST + 1 && buffer[..cur] == Begun(run, i)
      invariant i == |run| ==> cur <= LONGEST && buffer[cur] == 0
    {
      cur := CopyWord(run, i, buffer, cur);
    }
    assert run[..|run|] == run;
    JoinedWithoutZero(run);
    TerminatedText(buffer[..], cur);
    assert buffer[..][..cur] == buffer[..cur];
  }
}
