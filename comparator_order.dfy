/**
 * OffsetComparer, as written, against the order the merge sorts by: how it walks the
 * payload remainders, where it agrees with the line order, and inputs where it does not.
 */
module ComparatorOrder {
  import opened Bytes
  import opened Lines
  import opened ExternalMerge
  import opened MergeCorrectness
  import opened FileSorter
  import opened ChunkKeys

  /** The merge's order on lines as a three-way comparison: payload bytes, then the number. */
  function LineCmp(a: Line, b: Line): (r: int)
    ensures r == -1 || r == 0 || r == 1
    ensures r <= 0 <==> LineLe(a, b)
  {
    var c := BufferCmp(a.payload, b.payload);
    if c != 0 then c else Sign(a.number - b.number)
  }

  /** The remainder r of a payload sits at o in the window, followed by the terminator. */
  predicate RemainderAt(w: seq<byte>, o: int, r: seq<byte>)
  {
    0 <= o && o + |r| + 2 <= |w| && w[o..o + |r| + 2] == r + NewLine
  }

  predicate IsProperPrefix(a: seq<byte>, b: seq<byte>)
  {
    |a| < |b| && a == b[..|a|]
  }

  lemma RemainderByte(w: seq<byte>, o: int, r: seq<byte>, k: nat)
    requires RemainderAt(w, o, r) && k <= |r|
    ensures k < |r| ==> w[o + k] == r[k]
    ensures k == |r| ==> w[o + k] == CR
  {
    assert w[o..o + |r| + 2][k] == (r + NewLine)[k];
  }

  /**
   * The comparer's loop over two remainders that agree on their first k bytes: equal
   * remainders fall through to the numbers, the remainder that ends first compares
   * GREATER, and otherwise the first differing byte decides, as in BufferCmp.
   */
  lemma {:induction false} CompareFromRemainders(w: seq<byte>, x: FileItem, y: FileItem, r1: seq<byte>, r2: seq<byte>, k: nat)
    requires RemainderAt(w, x.offset, r1) && RemainderAt(w, y.offset, r2)
    requires CR !in r1 && CR !in r2
    requires k <= |r1| && k <= |r2| && r1[..k] == r2[..k]
    ensures CompareFrom(w, x, y, k).Some?
    ensures r1 == r2 ==> CompareFrom(w, x, y, k).value == Wrap32(x.number - y.number)
    ensures IsProperPrefix(r1, r2) ==> CompareFrom(w, x, y, k).value == 1
    ensures IsProperPrefix(r2, r1) ==> CompareFrom(w, x, y, k).value == -1
    ensures r1 != r2 && !IsProperPrefix(r1, r2) && !IsProperPrefix(r2, r1) ==>
      Sign(CompareFrom(w, x, y, k).value) == CmpFrom(r1, r2, k)
    decreases |r1| - k
  {
    RemainderByte(w, x.offset, r1, k);
    RemainderByte(w, y.offset, r2, k);
    if k == |r1| && k == |r2| {
      assert r1 == r1[..k] && r2 == r2[..k];
    } else if k == |r1| {
      assert r1 == r2[..k];
    } else if k == |r2| {
      assert r2 == r1[..k];
    } else if r1[k] == r2[k] {
      assert r1[..k + 1] == r2[..k + 1];
      CompareFromRemainders(w, x, y, r1, r2, k + 1);
    } else {
      assert r1[..k + 1] != r2[..k + 1];
    }
  }

  /** The remainder of a payload of five or more bytes, where ReadLines' key points. */
  lemma KeyRemainder(w: seq<byte>, pos: nat, l: Line)
    requires EncodedAt(w, pos, l) && |l.payload| >= 5
    ensures RemainderAt(w, KeyEntry(l, pos).item.offset, l.payload[5..])
    ensures KeyEntry(l, pos).item.offset >= 7
  {
    StoredOffsetIsRemainder(w, pos, l);
  }

  /**
   * On the keys of two encoded lines the comparer fails exactly when the prefixes are
   * equal, the first key has a stored offset and the second has none: the check for an
   * offset of 1 never fires for a key ReadLines stores, and the loop then reads position -1.
   */
  lemma CompareEncodedKeys(w: seq<byte>, pos1: nat, l1: Line, pos2: nat, l2: Line)
    requires WellFormed(l1) && WellFormed(l2) && EncodedAt(w, pos1, l1) && EncodedAt(w, pos2, l2)
    ensures var x := KeyEntry(l1, pos1).item;
      var y := KeyEntry(l2, pos2).item;
      Compare(w, x, y).None? <==> x.prefix == y.prefix && |l1.payload| >= 5 && |l2.payload| < 5
  {
    var x := KeyEntry(l1, pos1).item;
    var y := KeyEntry(l2, pos2).item;
    if x.prefix == y.prefix && |l1.payload| >= 5 {
      KeyRemainder(w, pos1, l1);
      if |l2.payload| >= 5 {
        KeyRemainder(w, pos2, l2);
        CompareFromRemainders(w, x, y, l1.payload[5..], l2.payload[5..], 0);
      }
    }
  }

  /**
   * The terminator that comes first wins the wrong way: when one payload of five or more
   * bytes is a proper prefix of the other, the comparer puts it AFTER the longer one,
   * while the merge puts it before.
   */
  lemma ShorterRemainderComparesGreater(w: seq<byte>, pos1: nat, l1: Line, pos2: nat, l2: Line)
    requires WellFormed(l1) && WellFormed(l2) && EncodedAt(w, pos1, l1) && EncodedAt(w, pos2, l2)
    requires |l1.payload| >= 5 && IsProperPrefix(l1.payload, l2.payload)
    ensures Compare(w, KeyEntry(l1, pos1).item, KeyEntry(l2, pos2).item) == Some(1)
    ensures LineCmp(l1, l2) == -1
  {
    var p1 := l1.payload;
    var p2 := l2.payload;
    assert p1[1..5] == p2[1..5];
    assert PrefixBytes(p1) == PrefixBytes(p2);
    KeyRemainder(w, pos1, l1);
    KeyRemainder(w, pos2, l2);
    assert p1[5..] == p2[5..][..|p1| - 5];
    CompareFromRemainders(w, KeyEntry(l1, pos1).item, KeyEntry(l2, pos2).item, p1[5..], p2[5..], 0);
    BufferCmpProperPrefix(p1, p2);
  }

  /**
   * A prefix of 2^31 or more turns negative in the signed subtraction: payload "AAAAA"
   * compares greater than "A" followed by 0xC3 "AAA", which the merge puts after it.
   */
  lemma SignedPrefixMisorders(w: seq<byte>, pos1: int, pos2: int)
    ensures var l1 := Line(1, [65, 65, 65, 65, 65]);
      var l2 := Line(2, [65, 0xC3, 65, 65, 65]);
      Compare(w, KeyEntry(l1, pos1).item, KeyEntry(l2, pos2).item) == Some(0x7E00_0000)
      && LineCmp(l1, l2) == -1
  {
    var p1: seq<byte> := [65, 65, 65, 65, 65];
    var p2: seq<byte> := [65, 0xC3, 65, 65, 65];
    assert PrefixBytes(p1) == [65, 65, 65, 65];
    assert PrefixBytes(p2) == [0xC3, 65, 65, 65];
    PackIsBigEndian([65, 65, 65, 65]);
    PackIsBigEndian([0xC3, 65, 65, 65]);
    BigEndianSmall(65, 65, 65, 65);
    BigEndianSmall(0xC3, 65, 65, 65);
    assert BufferCmp(p1, p2) == -1;
  }

  /**
   * Prefixes are right-aligned, so a shorter prefix packs to a smaller number whatever its
   * bytes: "AZ" compares less than "ABC", which the merge puts before it.
   */
  lemma RightAlignedPrefixMisorders(w: seq<byte>, pos1: int, pos2: int)
    ensures var l1 := Line(1, [65, 90]);
      var l2 := Line(2, [65, 66, 67]);
      Compare(w, KeyEntry(l1, pos1).item, KeyEntry(l2, pos2).item) == Some(0x5A - 0x4243)
      && LineCmp(l1, l2) == 1
  {
    RightAlignedPrefixes();
    assert BufferCmp([65, 90], [65, 66, 67]) == 1;
  }

  /**
   * Two lines, the first with a five-byte payload whose prefix bytes 0 'B' 'C' 'D' pack
   * like the second's 'B' 'C' 'D': ReadLines files both under 'A', and comparing the first
   * key with the second reads position -1.
   */
  lemma LongKeyAgainstShortKeyThrows(chunkSize: int, cancel: nat -> bool)
    requires chunkSize >= 19 && forall i :: !cancel(i)
    ensures var w := EncodeLines([Line(1, [65, 0, 66, 67, 68]), Line(2, [65, 66, 67, 68])]);
      var es := ScanWindow(w, chunkSize, cancel).entries;
      |es| == 2 && es[0].bucket == es[1].bucket == 65 && Compare(w, es[0].item, es[1].item).None?
  {
    var l1 := Line(1, [65, 0, 66, 67, 68]);
    var l2 := Line(2, [65, 66, 67, 68]);
    var e1 := EncodeLine(l1);
    var e2 := EncodeLine(l2);
    var w := EncodeLines([l1, l2]);
    assert Decimal(1) == [49] && Decimal(2) == [50];
    assert [l1, l2][1..] == [l2];
    assert EncodeLines([l2]) == e2 + EncodeLines([]);
    assert w == e1 + e2;
    assert |e1| == 10 && |e2| == 9;
    assert w[..10] == e1 && w[10..19] == e2;
    TwoLineWindow(l1, l2, chunkSize, cancel);
    assert PrefixBytes(l1.payload) == [0, 66, 67, 68];
    assert PrefixBytes(l2.payload) == [66, 67, 68];
    PackIsBigEndian([0, 66, 67, 68]);
    PackIsBigEndian([66, 67, 68]);
    BigEndianSmall(0, 66, 67, 68);
    BigEndianSmall(66, 67, 68, 0);
    CompareEncodedKeys(w, 0, l1, 10, l2);
  }
}
