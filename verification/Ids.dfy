/** 64-bit ids taken apart with masks and shifts, most significant digit first. */
module Ids {
  import opened Counters
  import opened Division

  type Word = bv64

  /** An id of a node, way or relation; 0 is not used. */
  datatype Id = Id(bits: Word)

  const NO_ID := Id(0)

  type Digit = d: nat | d < NUM_CHILDREN

  const MASK: bv64 := 0xF000_0000_0000_0000
  const BITS_PER_ID := 64
  const BITS_PER_NODE := 4
  const DEPTH := BITS_PER_ID / BITS_PER_NODE
  const NUM_CHILDREN := BITS_PER_NODE * BITS_PER_NODE  // which is also two to the power of BITS_PER_NODE
  const ZERO_PATH_DEPTH := 8
  const CACHE_SIZE := 1024

  /** A position in the tree: the digits that lead to it from the root. */
  datatype Path = Root | Below(parent: Path, digit: Digit)

  /** The four most significant bits, moved down. */
  function TopBits(w: Word): Word {
    (w & MASK) >> 60
  }

  function TopDigit(w: Word): Digit {
    TopBits(w) as nat
  }

  /** The working id after k steps of a descent. */
  function Shifted(id: Word, k: nat): Word {
    if k == 0 then id else Shifted(id, k - 1) << 4
  }

  function DigitAt(id: Word, k: nat): Digit {
    TopDigit(Shifted(id, k))
  }

  /** The position reached by the first k digits of an id. */
  function Digits(id: Id, k: nat): Path {
    if k == 0 then Root else Below(Digits(id, k - 1), DigitAt(id.bits, k - 1))
  }

  function Length(p: Path): nat {
    if p == Root then 0 else Length(p.parent) + 1
  }

  lemma {:induction false} DigitsLength(id: Id, k: nat)
    ensures Length(Digits(id, k)) == k
  {
    if k > 0 {
      DigitsLength(id, k - 1);
    }
  }

  function CacheIndex(id: Id): (i: nat)
    ensures i < CACHE_SIZE
  {
    (id.bits % 1024) as nat
  }

  /** The numbers below sixteen one by one. */
  lemma SmallNumber(x: Word)
    requires x < 16
    ensures x as nat == 8 * Bit(x, 8) + 4 * Bit(x, 4) + 2 * Bit(x, 2) + Bit(x, 1)
  {
    assert x == 0 || x == 1 || x == 2 || x == 3 || x == 4 || x == 5 || x == 6 || x == 7
        || x == 8 || x == 9 || x == 10 || x == 11 || x == 12 || x == 13 || x == 14 || x == 15;
  }

  /** Whether a bit is set, as a number. */
  function Bit(w: Word, bit: Word): nat {
    if w & bit == 0 then 0 else 1
  }

  lemma TopBitsBound(w: Word)
    ensures TopBits(w) < 16
  {
  }

  lemma SameBits(a: Word, b: Word)
    requires TopBits(a) & 8 == 0 <==> TopBits(b) & 8 == 0
    requires TopBits(a) & 4 == 0 <==> TopBits(b) & 4 == 0
    requires TopBits(a) & 2 == 0 <==> TopBits(b) & 2 == 0
    requires TopBits(a) & 1 == 0 <==> TopBits(b) & 1 == 0
    requires a << 4 == b << 4
    ensures a == b
  {
  }

  lemma SameWord(a: Word, b: Word)
    requires TopDigit(a) == TopDigit(b) && a << 4 == b << 4
    ensures a == b
  {
    TopBitsBound(a);
    TopBitsBound(b);
    SmallNumber(TopBits(a));
    SmallNumber(TopBits(b));
    SameBits(a, b);
  }

  lemma FourShifts(w: Word)
    ensures (((w << 4) << 4) << 4) << 4 == w << 16
    ensures (((w << 16) << 16) << 16) << 16 == 0
  {
  }

  lemma ShiftStep(id: Word, k: nat)
    ensures Shifted(id, k + 1) == Shifted(id, k) << 4
  {
  }

  /** Cut the next digit off a working id: the k-th of the sixteen base-16 digits of the id, most significant first. */
  method TakeDigit(ghost id: Word, ghost k: nat, workingId: Word) returns (digit: Digit, rest: Word)
    requires workingId == Shifted(id, k)
    ensures digit == DigitAt(id, k) && rest == Shifted(id, k + 1)
    ensures k < DEPTH ==> digit == id as nat / Sixteens(DEPTH - 1 - k) % 16
  {
    digit := TopDigit(workingId);
    ShiftStep(id, k);
    rest := workingId << 4;
    if k < DEPTH {
      DigitIsBase16(Id(id), k);
    }
  }

  // ----- the number that the digits make up

  function Sixteens(k: nat): (n: nat)
    ensures n > 0
  {
    if k == 0 then 1 else 16 * Sixteens(k - 1)
  }

  /** The number with these base-16 digits. */
  function Number(p: Path): nat {
    if p == Root then 0 else 16 * Number(p.parent) + p.digit
  }

  // A word is its uppermost bit and the rest; so it is when the bits above are zero.

  lemma SplitFirst(w: Word)
    ensures w as nat == Bit(w, 0x8000_0000_0000_0000) * 0x8000_0000_0000_0000 + (w & 0x7FFF_FFFF_FFFF_FFFF) as nat
  {
  }

  lemma SplitSecond(w: Word)
    requires w < 0x8000_0000_0000_0000
    ensures w as nat == Bit(w, 0x4000_0000_0000_0000) * 0x4000_0000_0000_0000 + (w & 0x3FFF_FFFF_FFFF_FFFF) as nat
  {
  }

  lemma SplitThird(w: Word)
    requires w < 0x4000_0000_0000_0000
    ensures w as nat == Bit(w, 0x2000_0000_0000_0000) * 0x2000_0000_0000_0000 + (w & 0x1FFF_FFFF_FFFF_FFFF) as nat
  {
  }

  lemma SplitFourth(w: Word)
    requires w < 0x2000_0000_0000_0000
    ensures w as nat == Bit(w, 0x1000_0000_0000_0000) * 0x1000_0000_0000_0000 + (w & 0x0FFF_FFFF_FFFF_FFFF) as nat
  {
  }

  // What is left after some bits is their next bit and what is left after that one.

  lemma AfterFirst(w: Word, x: Word)
    requires x == w & 0x7FFF_FFFF_FFFF_FFFF
    ensures x < 0x8000_0000_0000_0000 && x & 0x4000_0000_0000_0000 == w & 0x4000_0000_0000_0000
            && x & 0x3FFF_FFFF_FFFF_FFFF == w & 0x3FFF_FFFF_FFFF_FFFF
  {
  }

  lemma SecondBit(w: Word, x: Word, y: Word)
    requires x == w & 0x7FFF_FFFF_FFFF_FFFF && y == w & 0x3FFF_FFFF_FFFF_FFFF
    ensures x as nat == Bit(w, 0x4000_0000_0000_0000) * 0x4000_0000_0000_0000 + y as nat
  {
    AfterFirst(w, x);
    SplitSecond(x);
  }

  lemma AfterSecond(w: Word, x: Word)
    requires x == w & 0x3FFF_FFFF_FFFF_FFFF
    ensures x < 0x4000_0000_0000_0000 && x & 0x2000_0000_0000_0000 == w & 0x2000_0000_0000_0000
            && x & 0x1FFF_FFFF_FFFF_FFFF == w & 0x1FFF_FFFF_FFFF_FFFF
  {
  }

  lemma ThirdBit(w: Word, x: Word, y: Word)
    requires x == w & 0x3FFF_FFFF_FFFF_FFFF && y == w & 0x1FFF_FFFF_FFFF_FFFF
    ensures x as nat == Bit(w, 0x2000_0000_0000_0000) * 0x2000_0000_0000_0000 + y as nat
  {
    AfterSecond(w, x);
    SplitThird(x);
  }

  lemma AfterThird(w: Word, x: Word)
    requires x == w & 0x1FFF_FFFF_FFFF_FFFF
    ensures x < 0x2000_0000_0000_0000 && x & 0x1000_0000_0000_0000 == w & 0x1000_0000_0000_0000
            && x & 0x0FFF_FFFF_FFFF_FFFF == w & 0x0FFF_FFFF_FFFF_FFFF
  {
  }

  lemma FourthBit(w: Word, x: Word, y: Word)
    requires x == w & 0x1FFF_FFFF_FFFF_FFFF && y == w & 0x0FFF_FFFF_FFFF_FFFF
    ensures x as nat == Bit(w, 0x1000_0000_0000_0000) * 0x1000_0000_0000_0000 + y as nat
  {
    AfterThird(w, x);
    SplitFourth(x);
  }

  lemma BitsOfTop(w: Word)
    ensures TopBits(w) & 8 == 0 <==> w & 0x8000_0000_0000_0000 == 0
    ensures TopBits(w) & 4 == 0 <==> w & 0x4000_0000_0000_0000 == 0
    ensures TopBits(w) & 2 == 0 <==> w & 0x2000_0000_0000_0000 == 0
    ensures TopBits(w) & 1 == 0 <==> w & 0x1000_0000_0000_0000 == 0
  {
  }

  lemma FourBitsCount(w: Word, low: Word)
    requires low == w & 0x0FFF_FFFF_FFFF_FFFF
    ensures w as nat
            == Bit(w, 0x8000_0000_0000_0000) * 0x8000_0000_0000_0000
             + Bit(w, 0x4000_0000_0000_0000) * 0x4000_0000_0000_0000
             + Bit(w, 0x2000_0000_0000_0000) * 0x2000_0000_0000_0000
             + Bit(w, 0x1000_0000_0000_0000) * 0x1000_0000_0000_0000
             + low as nat
  {
    var x, y, z := w & 0x7FFF_FFFF_FFFF_FFFF, w & 0x3FFF_FFFF_FFFF_FFFF, w & 0x1FFF_FFFF_FFFF_FFFF;
    SplitFirst(w);
    SecondBit(w, x, y);
    ThirdBit(w, y, z);
    FourthBit(w, z, low);
  }

  /** A word is what its top digit counts for and the rest. */
  lemma TopDigitCounts(w: Word, low: Word)
    requires low == w & 0x0FFF_FFFF_FFFF_FFFF
    ensures w as nat == TopDigit(w) * 0x1000_0000_0000_0000 + low as nat
  {
    FourBitsCount(w, low);
    BitsOfTop(w);
    TopBitsBound(w);
    SmallNumber(TopBits(w));
  }

  lemma RestOfShift(w: Word, low: Word)
    requires low == w & 0x0FFF_FFFF_FFFF_FFFF
    ensures low < 0x1000_0000_0000_0000 && low << 4 == w << 4
  {
  }

  lemma LowShifted(low: Word)
    requires low < 0x1000_0000_0000_0000
    ensures (low << 4) as nat == low as nat * 16
  {
  }

  /** Shifting by a digit multiplies by sixteen and gives the top digit away. */
  lemma ShiftedNumber(w: Word, next: Word)
    requires next == w << 4
    ensures 16 * w as nat == TopDigit(w) * WORD + next as nat
  {
    var low := w & 0x0FFF_FFFF_FFFF_FFFF;
    TopDigitCounts(w, low);
    RestOfShift(w, low);
    LowShifted(low);
  }

  /** The number of the first k of some digits. */
  function NumberOf(digits: seq<Digit>, k: nat): nat
    requires k <= |digits|
  {
    if k == 0 then 0 else 16 * NumberOf(digits, k - 1) + digits[k - 1]
  }

  /** Each value, taken sixteen times, is the next one and what a digit counts for. */
  ghost predicate Cuts(values: seq<nat>, digits: seq<Digit>) {
    && |values| == |digits| + 1
    && forall j | 0 <= j < |digits| :: 16 * values[j] == digits[j] * WORD + values[j + 1]
  }

  lemma CutsOneMore(values: seq<nat>, digits: seq<Digit>, digit: Digit, next: nat)
    requires Cuts(values, digits) && 16 * values[|digits|] == digit * WORD + next
    ensures Cuts(values + [next], digits + [digit])
  {
  }

  /** What was cut off so far, and what is left. */
  lemma {:induction false} CutOff(values: seq<nat>, digits: seq<Digit>, k: nat)
    requires k <= |digits| && Cuts(values, digits)
    ensures values[0] * Sixteens(k) == NumberOf(digits, k) * WORD + values[k]
  {
    if k > 0 {
      CutOff(values, digits, k - 1);
      NextCut(values[0], Sixteens(k - 1), NumberOf(digits, k - 1), values[k - 1], digits[k - 1], values[k]);
    }
  }

  lemma NextCut(n: nat, power: nat, number: nat, rest: nat, digit: nat, next: nat)
    requires n * power == number * WORD + rest && 16 * rest == digit * WORD + next
    ensures n * (16 * power) == (16 * number + digit) * WORD + next
  {
    assert n * (16 * power) == 16 * (n * power);
  }

  /** The value of the working id after k steps. */
  function ValueAt(id: Word, k: nat): nat {
    Shifted(id, k) as nat
  }

  lemma FirstValue(id: Word)
    ensures ValueAt(id, 0) == id as nat
  {
  }

  lemma ValueBelowWord(id: Word, k: nat)
    ensures ValueAt(id, k) < WORD
  {
  }

  lemma NextValue(id: Word, k: nat)
    ensures 16 * ValueAt(id, k) == DigitAt(id, k) * WORD + ValueAt(id, k + 1)
  {
    ShiftStep(id, k);
    ShiftedNumber(Shifted(id, k), Shifted(id, k + 1));
  }

  /** The first k digits of an id, and the values of its working ids from the id itself on. */
  lemma {:induction false} DigitsAndValues(id: Id, k: nat) returns (digits: seq<Digit>, values: seq<nat>)
    ensures |digits| == k && Cuts(values, digits) && values[0] == ValueAt(id.bits, 0)
            && values[k] == ValueAt(id.bits, k)
    ensures NumberOf(digits, k) == Number(Digits(id, k))
  {
    if k == 0 {
      digits, values := [], [ValueAt(id.bits, 0)];
    } else {
      digits, values := DigitsAndValues(id, k - 1);
      NextValue(id.bits, k - 1);
      CutsOneMore(values, digits, DigitAt(id.bits, k - 1), ValueAt(id.bits, k));
      SameFront(digits, DigitAt(id.bits, k - 1), k - 1);
      digits, values := digits + [DigitAt(id.bits, k - 1)], values + [ValueAt(id.bits, k)];
    }
  }

  lemma {:induction false} SameFront(digits: seq<Digit>, digit: Digit, k: nat)
    requires k <= |digits|
    ensures NumberOf(digits + [digit], k) == NumberOf(digits, k)
  {
    if k > 0 {
      SameFront(digits, digit, k - 1);
    }
  }

  /** What is left of an id after k digits, and the number of these. */
  lemma IdSplits(id: Id, k: nat)
    ensures ValueAt(id.bits, 0) * Sixteens(k) == Number(Digits(id, k)) * WORD + ValueAt(id.bits, k)
  {
    var digits, values := DigitsAndValues(id, k);
    CutOff(values, digits, k);
  }

  lemma WordOfSixteens()
    ensures Sixteens(DEPTH) == WORD
  {
    assert Sixteens(4) == 0x1_0000;
    assert Sixteens(8) == 0x1_0000_0000;
    assert Sixteens(12) == 0x1_0000_0000_0000;
  }

  lemma {:induction false} SixteensSplit(j: nat, k: nat)
    ensures Sixteens(j + k) == Sixteens(j) * Sixteens(k)
  {
    if j > 0 {
      SixteensSplit(j - 1, k);
      assert 16 * (Sixteens(j - 1) * Sixteens(k)) == Sixteens(j) * Sixteens(k);
    }
  }

  /** The first k digits are the id without its last digits. */
  lemma FirstDigits(id: Id, k: nat)
    requires k <= DEPTH
    ensures Number(Digits(id, k)) == id.bits as nat / Sixteens(DEPTH - k)
  {
    IdSplits(id, k);
    FirstValue(id.bits);
    ValueBelowWord(id.bits, k);
    SixteensSplit(k, DEPTH - k);
    WordOfSixteens();
    Front(ValueAt(id.bits, 0), Sixteens(k), Sixteens(DEPTH - k), Number(Digits(id, k)), ValueAt(id.bits, k));
  }

  lemma Front(n: nat, upper: nat, lower: nat, number: nat, rest: nat)
    requires upper > 0 && lower > 0 && n * upper == number * (upper * lower) + rest && rest < upper * lower
    ensures number == n / lower
  {
    var r := n - number * lower;
    assert upper * r == rest;
    MulOrder(upper, r, lower);
    assert n == number * lower + r;
    QuotientIs(n, lower, number, r);
  }

  lemma MulOrder(a: nat, r: int, b: nat)
    requires a > 0 && 0 <= a * r < a * b
    ensures 0 <= r < b
  {
  }

  /** The sixteen digits of an id are its digits in base 16, most significant first. */
  lemma IdIsItsDigits(id: Id)
    ensures Number(Digits(id, DEPTH)) == id.bits as nat
  {
    FirstDigits(id, DEPTH);
    ByOne(id.bits as nat, Number(Digits(id, DEPTH)));
  }

  lemma ByOne(n: nat, number: nat)
    requires number == n / Sixteens(DEPTH - DEPTH)
    ensures number == n
  {
  }

  /** Each digit of a descent is the base-16 digit of the id at its place. */
  lemma DigitIsBase16(id: Id, k: nat)
    requires k < DEPTH
    ensures DigitAt(id.bits, k) == id.bits as nat / Sixteens(DEPTH - 1 - k) % 16
  {
    FirstDigits(id, k + 1);
    assert DEPTH - (k + 1) == DEPTH - 1 - k;
    LastDigit(Number(Digits(id, k + 1)), Number(Digits(id, k)), DigitAt(id.bits, k));
  }

  lemma LastDigit(number: nat, front: nat, digit: Digit)
    requires number == 16 * front + digit
    ensures number % 16 == digit
  {
  }

  // ----- several digits at once

  lemma ShiftAdds(w: Word, amount: bv7)
    requires amount < 60
    ensures (w << amount) << 4 == w << (amount + 4)
  {
  }

  /** The amounts by which up to eight digits are shifted. */
  lemma Amounts(s: nat)
    requires s <= ZERO_PATH_DEPTH
    ensures (BITS_PER_NODE * s) as bv7 ==
            if s == 0 then 0 else if s == 1 then 4 else if s == 2 then 8 else if s == 3 then 12
            else if s == 4 then 16 else if s == 5 then 20 else if s == 6 then 24 else if s == 7 then 28 else 32
  {
  }

  /** Shifting s times by one digit is shifting once by s digits. */
  lemma {:induction false} ShiftedOnce(id: Word, s: nat, amount: bv7)
    requires s <= ZERO_PATH_DEPTH && amount == (BITS_PER_NODE * s) as bv7
    ensures Shifted(id, s) == id << amount
  {
    Amounts(s);
    if s > 0 {
      var before := (BITS_PER_NODE * (s - 1)) as bv7;
      Amounts(s - 1);
      assert before + 4 == amount;
      ShiftedOnce(id, s - 1, before);
      ShiftAdds(id, before);
    }
  }

  /** The working id after s digits, at once. */
  method SkipDigits(id: Word, s: nat) returns (rest: Word)
    requires s <= ZERO_PATH_DEPTH
    ensures rest == Shifted(id, s)
  {
    var amount := (BITS_PER_NODE * s) as bv7;
    ShiftedOnce(id, s, amount);
    rest := id << amount;
  }

  lemma ShiftedByFour(id: Word, j: nat)
    ensures Shifted(id, j + 4) == Shifted(id, j) << 16
  {
    ShiftStep(id, j);
    ShiftStep(id, j + 1);
    ShiftStep(id, j + 2);
    ShiftStep(id, j + 3);
    FourShifts(Shifted(id, j));
  }

  /** Sixteen shifts push every bit out. */
  lemma ShiftedOut(id: Word)
    ensures Shifted(id, DEPTH) == 0
  {
    ShiftedByFour(id, 0);
    ShiftedByFour(id, 4);
    ShiftedByFour(id, 8);
    ShiftedByFour(id, 12);
    FourShifts(id);
  }

  lemma SameShifted(a: Word, b: Word, k: nat, x: Word, y: Word)
    requires x == Shifted(a, k) && y == Shifted(b, k)
    requires DigitAt(a, k) == DigitAt(b, k) && Shifted(a, k + 1) == Shifted(b, k + 1)
    ensures x == y
  {
    ShiftStep(a, k);
    ShiftStep(b, k);
    SameWord(x, y);
  }

  lemma {:induction false} SameRest(a: Word, b: Word, k: nat)
    requires k <= DEPTH && forall j | k <= j < DEPTH :: DigitAt(a, j) == DigitAt(b, j)
    ensures Shifted(a, k) == Shifted(b, k)
    decreases DEPTH - k
  {
    if k == DEPTH {
      ShiftedOut(a);
      ShiftedOut(b);
    } else {
      SameRest(a, b, k + 1);
      SameShifted(a, b, k, Shifted(a, k), Shifted(b, k));
    }
  }

  lemma {:induction false} SameDigits(a: Id, b: Id, k: nat, j: nat)
    requires j < k && Digits(a, k) == Digits(b, k)
    ensures DigitAt(a.bits, j) == DigitAt(b.bits, j)
  {
    if j < k - 1 {
      SameDigits(a, b, k - 1, j);
    }
  }

  /** Distinct ids lead to distinct leaves. */
  lemma DigitsInjective(a: Id, b: Id)
    requires Digits(a, DEPTH) == Digits(b, DEPTH)
    ensures a == b
  {
    forall j | 0 <= j < DEPTH
      ensures DigitAt(a.bits, j) == DigitAt(b.bits, j)
    {
      SameDigits(a, b, DEPTH, j);
    }
    SameRest(a.bits, b.bits, 0);
  }

  // ----- leading zeros

  /** Mask number s - 1 covers the s topmost digits. */
  const MASKS: seq<bv64> := [
    0xF000_0000_0000_0000, 0xFF00_0000_0000_0000, 0xFFF0_0000_0000_0000, 0xFFFF_0000_0000_0000,
    0xFFFF_F000_0000_0000, 0xFFFF_FF00_0000_0000, 0xFFFF_FFF0_0000_0000, 0xFFFF_FFFF_0000_0000]

  /** The bits of the s topmost digits. */
  function Covering(s: nat): Word {
    if s == 0 then 0 else (Covering(s - 1) >> 4) | MASK
  }

  /** This is what the table of masks holds. */
  lemma MasksCover(s: nat)
    requires 1 <= s <= ZERO_PATH_DEPTH
    ensures MASKS[s - 1] == Covering(s)
  {
    assert Covering(1) == MASKS[0] && Covering(2) == MASKS[1];
    assert Covering(3) == MASKS[2] && Covering(4) == MASKS[3];
    assert Covering(5) == MASKS[4] && Covering(6) == MASKS[5];
    assert Covering(7) == MASKS[6] && Covering(8) == MASKS[7];
  }

  /** The s topmost digits are zero. */
  predicate Hides(id: Word, s: nat) {
    id & Covering(s) == 0
  }

  lemma FirstDigitHidden(id: Word, s: nat)
    requires 1 <= s && Hides(id, s)
    ensures TopDigit(id) == 0
  {
    NothingOnTop(id, Covering(s - 1));
  }

  lemma NothingOnTop(id: Word, rest: Word)
    requires id & ((rest >> 4) | MASK) == 0
    ensures TopBits(id) == 0
  {
  }

  lemma RestHidden(id: Word, s: nat)
    requires 1 <= s && Hides(id, s)
    ensures Hides(id << 4, s - 1)
  {
    RestCovered(id, Covering(s - 1));
  }

  lemma RestCovered(id: Word, rest: Word)
    ensures id & ((rest >> 4) | MASK) == 0 <==> TopBits(id) == 0 && (id << 4) & rest == 0
  {
  }

  lemma {:induction false} HiddenAfter(id: Word, s: nat, k: nat)
    requires k <= s && Hides(id, s)
    ensures Hides(Shifted(id, k), s - k)
  {
    if k > 0 {
      HiddenAfter(id, s, k - 1);
      ShiftStep(id, k - 1);
      assert s - (k - 1) - 1 == s - k;
      RestHidden(Shifted(id, k - 1), s - (k - 1));
    }
  }

  /** A mask of s digits that meets only zeros tells that the first s digits are zero. */
  lemma MaskedDigitsZero(id: Word, s: nat, k: nat)
    requires k < s && Hides(id, s)
    ensures DigitAt(id, k) == 0
  {
    HiddenAfter(id, s, k);
    FirstDigitHidden(Shifted(id, k), s - k);
  }

  lemma ZeroTopDigit(w: Word)
    requires TopDigit(w) == 0
    ensures TopBits(w) == 0
  {
    TopBitsBound(w);
    SmallNumber(TopBits(w));
    FourBits(w);
  }

  lemma FourBits(w: Word)
    requires TopBits(w) & 8 == 0 && TopBits(w) & 4 == 0 && TopBits(w) & 2 == 0 && TopBits(w) & 1 == 0
    ensures TopBits(w) == 0
  {
  }

  lemma TopDigitsHide(w: Word, s: nat)
    requires 1 <= s && TopDigit(w) == 0 && Hides(w << 4, s - 1)
    ensures Hides(w, s)
  {
    ZeroTopDigit(w);
    RestCovered(w, Covering(s - 1));
  }

  lemma {:induction false} HiddenFrom(id: Word, s: nat, k: nat)
    requires k <= s && forall j | k <= j < s :: DigitAt(id, j) == 0
    ensures Hides(Shifted(id, k), s - k)
    decreases s - k
  {
    if k < s {
      HiddenFrom(id, s, k + 1);
      ShiftStep(id, k);
      assert DigitAt(id, k) == 0 && s - (k + 1) == s - k - 1;
      TopDigitsHide(Shifted(id, k), s - k);
    }
  }

  /** And the other way round: if the first s digits are zero, the mask meets only zeros. */
  lemma ZeroDigitsMasked(id: Word, s: nat)
    requires forall j | 0 <= j < s :: DigitAt(id, j) == 0
    ensures Hides(id, s)
  {
    HiddenFrom(id, s, 0);
  }
}
