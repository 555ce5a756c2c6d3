/** Where each number of a record lies in a file, byte by byte, lowest byte first. */
module FileBytes {
  import opened Division
  import opened Payloads
  import opened Sequences
  import opened Streams
  import opened SwedenFormat

  /** Byte i of a number, counted from the lowest one. */
  function ByteOf(n: nat, i: nat): Byte {
    if i == 0 then n % 256 else ByteOf(n / 256, i - 1)
  }

  lemma {:induction false} LimitPositive(i: nat)
    ensures 0 < Limit(i)
  {
    if i > 0 {
      LimitPositive(i - 1);
    }
  }

  /** It is the digit at that place in base 256. */
  lemma {:induction false} ByteIs(n: nat, i: nat)
    ensures 0 < Limit(i) && ByteOf(n, i) == n / Limit(i) % 256
  {
    LimitPositive(i);
    if i > 0 {
      ByteIs(n / 256, i - 1);
      NestedQuotient(n, Limit(i - 1));
    }
  }

  lemma NestedQuotient(n: nat, d: nat)
    requires 0 < d
    ensures n / 256 / d == n / (256 * d)
  {
    var q, r := n / 256, n % 256;
    var p, s := q / d, q % d;
    assert n == 256 * (d * p + s) + r == (256 * d) * p + (256 * s + r);
    QuotientIs(n, 256 * d, p, 256 * s + r);
  }

  /** The k bytes at a place of the file are those of a number. */
  ghost predicate Holds(bytes: seq<Byte>, at: nat, n: nat, k: nat) {
    at + k <= |bytes| && forall i: nat | i < k :: bytes[at + i] == ByteOf(n, i)
  }

  lemma {:induction false} EncodedHolds(n: nat, k: nat)
    ensures Holds(Encoded(n, k), 0, n, k)
    decreases k
  {
    if k > 0 {
      var bytes, rest := Encoded(n, k), Encoded(n / 256, k - 1);
      EncodedHolds(n / 256, k - 1);
      assert bytes == [n % 256] + rest;
      forall i: nat | i < k
        ensures bytes[0 + i] == ByteOf(n, i)
      {
        if i > 0 {
          assert rest[0 + (i - 1)] == ByteOf(n / 256, i - 1);
        }
      }
    }
  }

  lemma InFirst(a: seq<Byte>, b: seq<Byte>, at: nat, n: nat, k: nat)
    requires Holds(a, at, n, k)
    ensures Holds(a + b, at, n, k)
  {
    forall i: nat | i < k
      ensures (a + b)[at + i] == ByteOf(n, i)
    {
      assert a[at + i] == ByteOf(n, i);
    }
  }

  lemma InSecond(a: seq<Byte>, b: seq<Byte>, at: nat, n: nat, k: nat)
    requires Holds(b, at, n, k)
    ensures Holds(a + b, |a| + at, n, k)
  {
    forall i: nat | i < k
      ensures (a + b)[|a| + at + i] == ByteOf(n, i)
    {
      assert b[at + i] == ByteOf(n, i);
    }
  }

  // ----- records of one width

  ghost predicate Wide<T(!new)>(put: T -> seq<Byte>, width: nat) {
    forall value :: |put(value)| == width
  }

  /** Records of one width lie one after another. */
  lemma {:induction false} RecordAt<T(!new)>(put: T -> seq<Byte>, width: nat, values: seq<T>, i: nat)
    requires Wide(put, width) && i < |values|
    ensures |PutAll(put, values)| == width * |values|
    ensures width * i + width <= width * |values|
    ensures PutAll(put, values)[width * i..width * i + width] == put(values[i])
  {
    var rest := PutAll(put, values[1..]);
    assert |put(values[0])| == width;
    AllOfWidth(put, width, values);
    AllOfWidth(put, width, values[1..]);
    Products(width, i, |values|);
    if i > 0 {
      RecordAt(put, width, values[1..], i - 1);
      LaterSlice(put(values[0]), rest, width * (i - 1), width);
    }
  }

  lemma Products(width: nat, i: nat, n: nat)
    requires i < n
    ensures width * i + width <= width * n
    ensures i > 0 ==> width * (i - 1) + width == width * i
    ensures i == 0 ==> width * i == 0
  {
    var more := n - i - 1;
    assert n == i + 1 + more;
    assert width * n == width * (i + 1) + width * more;
    assert width * (i + 1) == width * i + width;
    if i > 0 {
      var less := i - 1;
      assert width * (less + 1) == width * less + width;
    }
  }

  lemma LaterSlice(first: seq<Byte>, rest: seq<Byte>, at: nat, width: nat)
    requires at + width <= |rest|
    ensures (first + rest)[|first| + at..|first| + at + width] == rest[at..at + width]
  {
  }

  lemma {:induction false} AllOfWidth<T(!new)>(put: T -> seq<Byte>, width: nat, values: seq<T>)
    requires Wide(put, width)
    ensures |PutAll(put, values)| == width * |values|
  {
    if values != [] {
      AllOfWidth(put, width, values[1..]);
      assert |put(values[0])| == width;
      assert width * |values| == width + width * (|values| - 1);
    }
  }

  lemma HoldsInSlice(bytes: seq<Byte>, from: nat, to: nat, slice: seq<Byte>, at: nat, n: nat, k: nat)
    requires from <= to <= |bytes| && bytes[from..to] == slice && Holds(slice, at, n, k)
    ensures Holds(bytes, from + at, n, k)
  {
    forall i: nat | i < k
      ensures bytes[from + at + i] == ByteOf(n, i)
    {
      assert slice[at + i] == bytes[from + at + i];
    }
  }

  /** A number of record i, if it lies at a certain place of each record. */
  lemma NumberOfRecord<T(!new)>(put: T -> seq<Byte>, width: nat, values: seq<T>, i: nat, from: nat, at: nat, n: nat,
                                k: nat)
    requires Wide(put, width) && i < |values| && from == width * i && Holds(put(values[i]), at, n, k)
    ensures Holds(PutAll(put, values), from + at, n, k)
  {
    var all, record := PutAll(put, values), put(values[i]);
    var to := from + width;
    RecordAt(put, width, values, i);
    assert to <= |all| && all[from..to] == record;
    HoldsInSlice(all, from, to, record, at, n, k);
  }

  // ----- payloads

  /** A signed number of 32 bits lies in the file as its remainder modulo two to the power of 32. */
  function Unsigned(x: Int32): nat {
    x % 0x1_0000_0000
  }

  lemma Int32Bytes(x: Int32)
    ensures |PutInt32(x)| == 4 && Holds(PutInt32(x), 0, Unsigned(x), 4)
  {
    EncodedHolds(Unsigned(x), 4);
  }

  /** The x value, and then the y value. */
  lemma PositionBytes(c: Position)
    ensures var bytes := PutPosition(c);
            |bytes| == 8 && Holds(bytes, 0, Unsigned(c.x), 4) && Holds(bytes, 4, Unsigned(c.y), 4)
  {
    var x, y, m, n := PutInt32(c.x), PutInt32(c.y), Unsigned(c.x), Unsigned(c.y);
    Int32Bytes(c.x);
    Int32Bytes(c.y);
    InFirst(x, y, 0, m, 4);
    InSecond(x, y, 0, n, 4);
  }

  /** The number, the kind and the real-world type of an element, and no more. */
  ghost predicate HoldsElement(bytes: seq<Byte>, at: nat, e: Element) {
    Holds(bytes, at, e.id, 8) && Holds(bytes, at + 8, e.kind, 4) && Holds(bytes, at + 12, e.realWorld, 4)
  }

  lemma ElementBytes(e: Element)
    ensures |PutElement(e)| == 16 && HoldsElement(PutElement(e), 0, e)
  {
    var id, kind, realWorld := PutU64(e.id), PutU32(e.kind), PutU32(e.realWorld);
    EncodedHolds(e.id, 8);
    EncodedHolds(e.kind, 4);
    EncodedHolds(e.realWorld, 4);
    InFirst(id, kind, 0, e.id, 8);
    InFirst(id + kind, realWorld, 0, e.id, 8);
    InSecond(id, kind, 0, e.kind, 4);
    InFirst(id + kind, realWorld, 8, e.kind, 4);
    InSecond(id + kind, realWorld, 0, e.realWorld, 4);
  }

  lemma ElementsWide()
    ensures Wide(PutElement, 16)
  {
    forall e: Element
      ensures |PutElement(e)| == 16
    {
      ElementBytes(e);
    }
  }

  lemma ElementOfMany(elements: seq<Element>, i: nat)
    requires i < |elements|
    ensures |PutAll(PutElement, elements)| == 16 * |elements|
    ensures HoldsElement(PutAll(PutElement, elements), 16 * i, elements[i])
  {
    var e := elements[i];
    ElementsWide();
    AllOfWidth(PutElement, 16, elements);
    ElementBytes(e);
    NumberOfRecord(PutElement, 16, elements, i, 16 * i, 0, e.id, 8);
    NumberOfRecord(PutElement, 16, elements, i, 16 * i, 8, e.kind, 4);
    NumberOfRecord(PutElement, 16, elements, i, 16 * i, 12, e.realWorld, 4);
  }

  lemma ElementInSecond(a: seq<Byte>, b: seq<Byte>, at: nat, e: Element)
    requires HoldsElement(b, at, e)
    ensures HoldsElement(a + b, |a| + at, e)
  {
    InSecond(a, b, at, e.id, 8);
    InSecond(a, b, at + 8, e.kind, 4);
    InSecond(a, b, at + 12, e.realWorld, 4);
  }

  lemma ElementInFirst(a: seq<Byte>, b: seq<Byte>, at: nat, e: Element)
    requires HoldsElement(a, at, e)
    ensures HoldsElement(a + b, at, e)
  {
    InFirst(a, b, at, e.id, 8);
    InFirst(a, b, at + 8, e.kind, 4);
    InFirst(a, b, at + 12, e.realWorld, 4);
  }

  lemma WideNumbers()
    ensures Wide(PutU64, 8) && Wide(PutU16, 2)
  {
  }

  lemma NumberOfMany(ids: seq<U64>, i: nat)
    requires i < |ids|
    ensures |PutAll(PutU64, ids)| == 8 * |ids| && Holds(PutAll(PutU64, ids), 8 * i, ids[i], 8)
  {
    WideNumbers();
    AllOfWidth(PutU64, 8, ids);
    EncodedHolds(ids[i], 8);
    NumberOfRecord(PutU64, 8, ids, i, 8 * i, 0, ids[i], 8);
  }

  /** The count of a way's nodes, and from byte 4 on the nodes. */
  lemma WayBytes(nodes: seq<U64>, i: nat)
    requires i < |nodes|
    ensures |PutWay(nodes)| == 4 + 8 * |nodes|
    ensures Holds(PutWay(nodes), 0, |nodes|, 4) && Holds(PutWay(nodes), 4 + 8 * i, nodes[i], 8)
  {
    var count, all := Encoded(|nodes|, 4), PutAll(PutU64, nodes);
    EncodedHolds(|nodes|, 4);
    NumberOfMany(nodes, i);
    InFirst(count, all, 0, |nodes|, 4);
    InSecond(count, all, 8 * i, nodes[i], 8);
  }

  /** The count of a relation's members, from byte 4 on the members, and behind all of these the flags. */
  lemma RelationBytes(r: Relation, i: nat)
    requires i < |r.members| == |r.flags|
    ensures var bytes, n := PutRelation(r), |r.members|;
            && |bytes| == 4 + 18 * n && Holds(bytes, 0, n, 4)
            && HoldsElement(bytes, 4 + 16 * i, r.members[i])
            && Holds(bytes, 4 + 16 * n + 2 * i, r.flags[i], 2)
  {
    var n := |r.members|;
    var count, members, flags := Encoded(n, 4), PutAll(PutElement, r.members), PutAll(PutU16, r.flags);
    EncodedHolds(n, 4);
    InFirst(count, members + flags, 0, n, 4);
    ElementOfMany(r.members, i);
    ElementInFirst(members, flags, 16 * i, r.members[i]);
    ElementInSecond(count, members + flags, 16 * i, r.members[i]);
    FlagOfMany(r.flags, i);
    InSecond(members, flags, 2 * i, r.flags[i], 2);
    InSecond(count, members + flags, |members| + 2 * i, r.flags[i], 2);
  }

  lemma FlagOfMany(flags: seq<U16>, i: nat)
    requires i < |flags|
    ensures |PutAll(PutU16, flags)| == 2 * |flags| && Holds(PutAll(PutU16, flags), 2 * i, flags[i], 2)
  {
    WideNumbers();
    AllOfWidth(PutU16, 2, flags);
    EncodedHolds(flags[i], 2);
    NumberOfRecord(PutU16, 2, flags, i, 2 * i, 0, flags[i], 2);
  }

  /** The length of a name, and from byte 8 on its characters. */
  lemma TextBytes(characters: seq<Byte>)
    ensures Holds(PutText(characters), 0, |characters|, 8) && PutText(characters)[8..] == characters
  {
    EncodedHolds(|characters|, 8);
    InFirst(Encoded(|characters|, 8), characters, 0, |characters|, 8);
  }

  /** The elements of a node: 'n' for none, or 'i', their number, and from byte 9 on the elements. */
  lemma ElementsBytes(elements: seq<Element>, i: nat)
    requires i < |elements|
    ensures PutElements([]) == ['n' as int]
    ensures var bytes := PutElements(elements);
            && |bytes| == 9 + 16 * |elements| && bytes[0] == 'i' as int && Holds(bytes, 1, |elements|, 8)
            && HoldsElement(bytes, 9 + 16 * i, elements[i])
  {
    var mark, count, all := ['i' as int], Encoded(|elements|, 8), PutAll(PutElement, elements);
    EncodedHolds(|elements|, 8);
    InFirst(count, all, 0, |elements|, 8);
    InSecond(mark, count + all, 0, |elements|, 8);
    ElementOfMany(elements, i);
    ElementInSecond(count, all, 16 * i, elements[i]);
    ElementInSecond(mark, count + all, 8 + 16 * i, elements[i]);
  }

  // ----- areas, roads and regions

  /** The number of ways of a road, and from byte 8 on the ways. */
  lemma IdsBytes(ids: seq<U64>, i: nat)
    requires i < |ids|
    ensures |PutIds(ids)| == 8 + 8 * |ids|
    ensures Holds(PutIds(ids), 0, |ids|, 8) && Holds(PutIds(ids), 8 + 8 * i, ids[i], 8)
  {
    var count, all := Encoded(|ids|, 8), PutAll(PutU64, ids);
    EncodedHolds(|ids|, 8);
    NumberOfMany(ids, i);
    InFirst(count, all, 0, |ids|, 8);
    InSecond(count, all, 8 * i, ids[i], 8);
  }

  lemma AreaBytes(a: Area)
    ensures |PutArea(a)| == 12 && Holds(PutArea(a), 0, Unsigned(a.code), 4) && Holds(PutArea(a), 4, a.relation, 8)
  {
    var code, relation, n := PutInt32(a.code), PutU64(a.relation), Unsigned(a.code);
    Int32Bytes(a.code);
    EncodedHolds(a.relation, 8);
    InFirst(code, relation, 0, n, 4);
    InSecond(code, relation, 0, a.relation, 8);
  }

  lemma AreaOfMany(areas: seq<Area>, i: nat)
    requires i < |areas|
    ensures |PutAll(PutArea, areas)| == 12 * |areas|
    ensures Holds(PutAll(PutArea, areas), 12 * i, Unsigned(areas[i].code), 4)
    ensures Holds(PutAll(PutArea, areas), 12 * i + 4, areas[i].relation, 8)
  {
    AreaBytes(areas[i]);
    AllOfWidth(PutArea, 12, areas);
    NumberOfRecord(PutArea, 12, areas, i, 12 * i, 0, Unsigned(areas[i].code), 4);
    NumberOfRecord(PutArea, 12, areas, i, 12 * i, 4, areas[i].relation, 8);
  }

  /** The number of areas, and from byte 8 on their codes and relations. */
  lemma AreasBytes(areas: seq<Area>, i: nat)
    requires i < |areas|
    ensures |PutAreas(areas)| == 8 + 12 * |areas| && Holds(PutAreas(areas), 0, |areas|, 8)
    ensures Holds(PutAreas(areas), 8 + 12 * i, Unsigned(areas[i].code), 4)
    ensures Holds(PutAreas(areas), 8 + 12 * i + 4, areas[i].relation, 8)
  {
    var count, all := Encoded(|areas|, 8), PutAll(PutArea, areas);
    EncodedHolds(|areas|, 8);
    AreaOfMany(areas, i);
    InFirst(count, all, 0, |areas|, 8);
    InSecond(count, all, 12 * i, Unsigned(areas[i].code), 4);
    InSecond(count, all, 12 * i + 4, areas[i].relation, 8);
  }

  /** The relation of a region, its level, the length of its name and its name, without what follows a zero in it. */
  lemma RegionBytes(r: AdminRegion)
    ensures var bytes, name := PutRegion(r), CString(r.name);
            && Holds(bytes, 0, r.relation, 8) && Holds(bytes, 8, Unsigned(r.level), 4)
            && Holds(bytes, 12, |name|, 8) && bytes[20..] == name
  {
    var name, m := CString(r.name), Unsigned(r.level);
    var relation, level, length := PutU64(r.relation), PutInt32(r.level), Encoded(|name|, 8);
    EncodedHolds(r.relation, 8);
    Int32Bytes(r.level);
    EncodedHolds(|name|, 8);
    InFirst(relation, level + (length + name), 0, r.relation, 8);
    InFirst(level, length + name, 0, m, 4);
    InSecond(relation, level + (length + name), 0, m, 4);
    InFirst(length, name, 0, |name|, 8);
    InSecond(level, length + name, 0, |name|, 8);
    InSecond(relation, level + (length + name), 4, |name|, 8);
    BehindThree(relation, level, length, name);
  }

  lemma BehindThree<T>(a: seq<T>, b: seq<T>, c: seq<T>, d: seq<T>)
    ensures (a + (b + (c + d)))[|a| + |b| + |c|..] == d
  {
  }
}
