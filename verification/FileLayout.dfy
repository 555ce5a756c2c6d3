/** The order of markers, slots and sections in the files of the trees and of the tables. */
module FileLayout {
  import opened FileBytes
  import opened Ids
  import opened Options
  import opened Payloads
  import opened Sequences
  import opened SparseFormat
  import opened Streams
  import opened SwedenFormat
  import opened SwedishText
  import I = IdTreeFormat
  import IdTreeFiles
  import SwedenFile
  import X = TextTreeFormat

  /** The same byte several times. */
  function Repeated(b: Byte, n: nat): (bytes: seq<Byte>)
    ensures |bytes| == n
  {
    seq(n, _ => b)
  }

  lemma OneMoreByte(b: Byte, n: nat, rest: seq<Byte>)
    ensures [b] + (Repeated(b, n) + rest) == Repeated(b, n + 1) + rest
  {
  }

  lemma NoByte(b: Byte, rest: seq<Byte>)
    ensures Repeated(b, 0) + rest == rest
  {
  }

  // ----- the tree over ids

  lemma LeafParts(number: U64, counter: U16, data: seq<Byte>, bytes: seq<Byte>)
    requires bytes == PutU64(number) + (['N' as int] + (PutU16(counter) + data))
    ensures |bytes| >= 11 && Holds(bytes, 0, number, 8) && bytes[8] == 'N' as int && Holds(bytes, 9, counter, 2)
    ensures bytes[11..] == data
  {
    var id, mark, count := PutU64(number), ['N' as int], PutU16(counter);
    EncodedHolds(number, 8);
    EncodedHolds(counter, 2);
    InFirst(id, mark + (count + data), 0, number, 8);
    InFirst(count, data, 0, counter, 2);
    InSecond(mark, count + data, 0, counter, 2);
    InSecond(id, mark + (count + data), 1, counter, 2);
    BehindThree(id, mark, count, data);
  }

  /** A node without children: its id, 'N', its counter, its data. */
  lemma LeafBytes<T>(codec: Codec<T>, n: I.Node<T>)
    requires n.children == []
    ensures var bytes := I.Put(IdTreeFiles.InFile(codec), n);
            && |bytes| >= 11 && Holds(bytes, 0, n.id.bits as nat, 8) && bytes[8] == 'N' as int
            && Holds(bytes, 9, n.counter, 2) && bytes[11..] == codec.put(n.data)
  {
    var layout := IdTreeFiles.InFile(codec);
    assert layout.putId(n.id) == PutU64(IdTreeFiles.NumberOf(n.id));
    assert I.PutBody(layout, n) == ['N' as int] + (PutU16(n.counter) + codec.put(n.data));
    LeafParts(IdTreeFiles.NumberOf(n.id), n.counter, codec.put(n.data), I.Put(layout, n));
  }

  lemma {:induction false} EmptySlots<T>(layout: I.Layout<T>, n: I.Node<T>, b: nat, c: nat)
    requires b <= c <= |n.children| && forall i | b <= i < c :: n.children[i].None?
    ensures I.PutSlots(layout, n, c) == Repeated('0' as int, c - b) + I.PutSlots(layout, n, b)
    decreases c
  {
    if b < c {
      EmptySlots(layout, n, b, c - 1);
      OneMoreByte('0' as int, c - 1 - b, I.PutSlots(layout, n, b));
    } else {
      NoByte('0' as int, I.PutSlots(layout, n, b));
    }
  }

  lemma OneChild<T>(layout: I.Layout<T>, n: I.Node<T>, i: nat, child: I.Node<T>)
    requires i < |n.children| && n.children[i] == Some(child)
    ensures I.PutSlots(layout, n, i + 1) == ['1' as int] + I.Put(layout, child) + I.PutSlots(layout, n, i)
  {
  }

  /** Two children among c slots: from the last slot to the first '0' for none or '1' and the child. */
  lemma TwoSlots<T>(layout: I.Layout<T>, n: I.Node<T>, i: nat, j: nat, c: nat)
    requires i < j < c == |n.children| && n.children[i].Some? && n.children[j].Some?
    requires forall k | 0 <= k < c && k != i && k != j :: n.children[k].None?
    ensures I.PutSlots(layout, n, c) ==
            Repeated('0' as int, c - 1 - j)
            + (['1' as int] + I.Put(layout, n.children[j].value) + (Repeated('0' as int, j - i - 1)
            + (['1' as int] + I.Put(layout, n.children[i].value) + Repeated('0' as int, i))))
  {
    EmptySlots(layout, n, j + 1, c);
    OneChild(layout, n, j, n.children[j].value);
    EmptySlots(layout, n, i + 1, j);
    OneChild(layout, n, i, n.children[i].value);
    EmptySlots(layout, n, 0, i);
    assert Repeated('0' as int, i) + [] == Repeated('0' as int, i);
  }

  /** A node with two children: its id, 'C', and the slots of the sixteen, the last of them first. */
  lemma TwoChildrenBytes<T>(layout: I.Layout<T>, n: I.Node<T>, i: nat, j: nat)
    requires i < j < |n.children| && n.children[i].Some? && n.children[j].Some? && I.Storable(layout, n)
    requires forall k | 0 <= k < |n.children| && k != i && k != j :: n.children[k].None?
    ensures I.Put(layout, n) ==
            layout.putId(n.id) + (['C' as int] + (Repeated('0' as int, 15 - j)
            + (['1' as int] + I.Put(layout, n.children[j].value) + (Repeated('0' as int, j - i - 1)
            + (['1' as int] + I.Put(layout, n.children[i].value) + Repeated('0' as int, i))))))
  {
    TwoSlots(layout, n, i, j, |n.children|);
  }

  /** A tree starts with the number of its leaves at full depth. */
  lemma TreeBytes<T>(layout: I.Layout<T>, t: I.Tree<T>)
    ensures Holds(I.PutTree(layout, t), 0, I.SizeOf(t), 8) && I.PutTree(layout, t)[8..] == I.Put(layout, t.root)
  {
    EncodedHolds(I.SizeOf(t), 8);
    InFirst(Encoded(I.SizeOf(t), 8), I.Put(layout, t.root), 0, I.SizeOf(t), 8);
  }

  // ----- the tree over texts

  lemma {:induction false} EmptyTextSlots<T>(codec: Codec<T>, n: X.TextNode<T>, b: nat, c: nat)
    requires b <= c <= |n.children| && forall i | |n.children| - c <= i < |n.children| - b :: n.children[i].None?
    ensures X.PutSlots(codec, n, c) == Repeated('0' as int, c - b) + X.PutSlots(codec, n, b)
    decreases c
  {
    if b < c {
      EmptyTextSlots(codec, n, b, c - 1);
      OneMoreByte('0' as int, c - 1 - b, X.PutSlots(codec, n, b));
    } else {
      NoByte('0' as int, X.PutSlots(codec, n, b));
    }
  }

  lemma OneTextChild<T>(codec: Codec<T>, n: X.TextNode<T>, i: nat, child: X.TextNode<T>)
    requires i < |n.children| && n.children[i] == Some(child)
    ensures X.PutSlots(codec, n, |n.children| - i) ==
            ['1' as int] + X.Put(codec, child) + X.PutSlots(codec, n, |n.children| - i - 1)
  {
  }

  /** A node without children: 'N' and what it holds. */
  lemma TextLeafBytes<T>(codec: Codec<T>, n: X.TextNode<T>)
    requires n.children == []
    ensures X.Put(codec, n) == ['N' as int] + codec.put(n.elements)
  {
  }

  /** Two children among c slots: from the first slot to the last '0' for none or '1' and the child. */
  lemma TwoTextSlots<T>(codec: Codec<T>, n: X.TextNode<T>, i: nat, j: nat, c: nat)
    requires i < j < c == |n.children| && n.children[i].Some? && n.children[j].Some?
    requires forall k | 0 <= k < c && k != i && k != j :: n.children[k].None?
    ensures X.PutSlots(codec, n, c) ==
            Repeated('0' as int, i)
            + (['1' as int] + X.Put(codec, n.children[i].value) + (Repeated('0' as int, j - i - 1)
            + (['1' as int] + X.Put(codec, n.children[j].value) + Repeated('0' as int, c - 1 - j))))
  {
    EmptyTextSlots(codec, n, c - i, c);
    OneTextChild(codec, n, i, n.children[i].value);
    EmptyTextSlots(codec, n, c - j, c - i - 1);
    OneTextChild(codec, n, j, n.children[j].value);
    EmptyTextSlots(codec, n, 0, c - j - 1);
    assert Repeated('0' as int, c - 1 - j) + [] == Repeated('0' as int, c - 1 - j);
  }

  /** A node with two children: 'C', the slots of the 48 codes, the first of them first, and what the node holds. */
  lemma TextChildrenBytes<T>(codec: Codec<T>, n: X.TextNode<T>, i: nat, j: nat)
    requires i < j < |n.children| && n.children[i].Some? && n.children[j].Some? && X.Storable(codec, n)
    requires forall k | 0 <= k < |n.children| && k != i && k != j :: n.children[k].None?
    ensures X.Put(codec, n) ==
            ['C' as int] + (Repeated('0' as int, i)
            + (['1' as int] + X.Put(codec, n.children[i].value) + (Repeated('0' as int, j - i - 1)
            + (['1' as int] + X.Put(codec, n.children[j].value) + Repeated('0' as int, 47 - j)))))
            + codec.put(n.elements)
  {
    TwoTextSlots(codec, n, i, j, |n.children|);
  }

  // ----- tables

  lemma {:induction false} NothingListed<T>(put: T -> seq<Byte>, rows: seq<Option<T>>, i: nat, j: nat)
    requires i <= j <= |rows| && forall k | i <= k < j :: rows[k].None?
    ensures PutSparse(put, rows, i) == PutSparse(put, rows, j)
    decreases j - i
  {
    if i < j {
      NothingListed(put, rows, i + 1, j);
    }
  }

  /** A table of two entries: eight bytes for the index of each, the entry, and a terminator of eight bytes. */
  lemma TwoEntriesBytes<T>(put: T -> seq<Byte>, rows: seq<Option<T>>, i: nat, j: nat)
    requires i < j < |rows| && rows[i].Some? && rows[j].Some?
    requires forall k | 0 <= k < |rows| && k != i && k != j :: rows[k].None?
    ensures PutSparse(put, rows, 0) ==
            Encoded(i, 8) + (put(rows[i].value) + (Encoded(j, 8) + (put(rows[j].value) + Encoded(0xcafe_babe, 8))))
  {
    NothingListed(put, rows, 0, i);
    NothingListed(put, rows, i + 1, j);
    NothingListed(put, rows, j + 1, |rows|);
  }

  lemma {:induction false} NoRoads(national: seq<seq<U64>>, i: nat, j: nat)
    requires i <= j <= |national| && forall k | i <= k < j :: national[k] == []
    ensures PutNational(national, i) == PutNational(national, j)
    decreases j - i
  {
    if i < j {
      NoRoads(national, i + 1, j);
    }
  }

  /** Two national roads: two bytes for the number of each, its ways, and a terminator of two bytes. */
  lemma TwoRoadsBytes(national: seq<seq<U64>>, i: nat, j: nat)
    requires i < j < |national| && national[i] != [] && national[j] != []
    requires forall k | 0 <= k < |national| && k != i && k != j :: national[k] == []
    ensures PutNational(national, 0) ==
            Encoded(i, 2) + (PutIds(national[i]) + (Encoded(j, 2) + (PutIds(national[j]) + Encoded(0xfefe, 2))))
  {
    NoRoads(national, 0, i);
    NoRoads(national, i + 1, j);
    NoRoads(national, j + 1, |national|);
  }

  /** European roads lie in the file by increasing number, each from its own place in the table. */
  lemma EuropeanBytes(e: seq<seq<U64>>)
    requires |e| == EUROPEAN_LEN
    ensures PutEuropean(e, 0) ==
            PutIds(e[4]) + (PutIds(e[6]) + (PutIds(e[10]) + (PutIds(e[12]) + (PutIds(e[14]) + (PutIds(e[16])
            + (PutIds(e[18]) + (PutIds(e[20]) + PutEuropean(e, 8))))))))
    ensures PutEuropean(e, 8) ==
            PutIds(e[22]) + (PutIds(e[45 - 40]) + (PutIds(e[47 - 40]) + (PutIds(e[55 - 40]) + (PutIds(e[65 - 40])
            + PutIds(e[1])))))
  {
    assert PutEuropean(e, 13) == PutIds(e[1]) + PutEuropean(e, 14) == PutIds(e[1]);
  }

  /** The sections of the file of all tables. */
  lemma SectionsInOrder(s: SwedenFile.Sweden)
    requires |s.european| == EUROPEAN_LEN
    ensures SwedenFile.Put(s) ==
            ['S' as int] + PutAreas(s.scbAreas) + (['n' as int] + PutAreas(s.nuts3Areas))
            + (['E' as int] + PutEuropean(s.european, 0)
               + (['R' as int] + PutNational(s.national, 0) + (['L' as int] + RegionalCodec().put(s.regional)))
               + (['A' as int] + PutRegions(s.administrative) + ['_' as int]))
  {
  }
}
