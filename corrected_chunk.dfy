/**
 * The chunk comparer and the short-payload writer as they are evidently meant to work:
 * the prefix is packed left-aligned and compared unsigned, a missing offset is handled
 * on either side, the remainder that ends first sorts first, and the prefix bytes are
 * written back most significant first. For payloads without the byte 0 the comparer
 * then orders the keys of one bucket exactly as the merge orders the lines, and the
 * writer gives every line back unchanged.
 */
module CorrectedChunk {
  import opened Bytes
  import opened Lines
  import opened ExternalMerge
  import opened FileSorter
  import opened ChunkKeys
  import opened ComparatorOrder
  import opened RunText

  // ---------------------------------------------------------------------------
  // Byte strings and the numbers they pack to
  // ---------------------------------------------------------------------------

  lemma {:induction false} CmpFromSelf(a: seq<byte>, i: nat)
    requires i <= |a|
    ensures CmpFrom(a, a, i) == 0
    decreases |a| - i
  {
    if i < |a| {
      CmpFromSelf(a, i + 1);
    }
  }

  /** One more byte on each of two strings of equal length decides only a tie. */
  lemma {:induction false} CmpFromSnoc(a: seq<byte>, b: seq<byte>, x: byte, y: byte, i: nat)
    requires |a| == |b| && i <= |a|
    ensures CmpFrom(a + [x], b + [y], i) == if CmpFrom(a, b, i) != 0 then CmpFrom(a, b, i) else Sign(x - y)
    decreases |a| - i
  {
    assert (a + [x])[i] == if i < |a| then a[i] else x;
    assert (b + [y])[i] == if i < |b| then b[i] else y;
    if i < |a| && a[i] == b[i] {
      CmpFromSnoc(a, b, x, y, i + 1);
    }
  }

  /** On strings of equal length, comparing the packed numbers is comparing the bytes. */
  lemma {:induction false} BigEndianOrder(a: seq<byte>, b: seq<byte>)
    requires |a| == |b|
    ensures Sign(BigEndian(a) - BigEndian(b)) == BufferCmp(a, b)
    decreases |a|
  {
    if a != [] {
      var a0, b0 := a[..|a| - 1], b[..|b| - 1];
      var x, y := a[|a| - 1], b[|b| - 1];
      BigEndianOrder(a0, b0);
      assert a == a0 + [x] && b == b0 + [y];
      CmpFromSnoc(a0, b0, x, y, 0);
    }
  }

  /** q followed by zero bytes up to four bytes: the prefix left-aligned in a uint. */
  function Padded(q: seq<byte>): (r: seq<byte>)
    requires |q| <= 4
    ensures |r| == 4
  {
    q + Zeros(4 - |q|)
  }

  /** Zero padding keeps the order of strings without the byte 0: a string that ends first still sorts first. */
  lemma {:induction false} CmpFromPadded(q1: seq<byte>, q2: seq<byte>, i: nat)
    requires |q1| <= 4 && |q2| <= 4 && NulFree(q1) && NulFree(q2)
    requires i <= |q1| && i <= |q2| && q1[..i] == q2[..i]
    ensures CmpFrom(Padded(q1), Padded(q2), i) == CmpFrom(q1, q2, i)
    decreases 4 - i
  {
    var p1, p2 := Padded(q1), Padded(q2);
    if i < |q1| && i < |q2| {
      assert p1[i] == q1[i] && p2[i] == q2[i];
      if q1[i] == q2[i] {
        assert q1[..i + 1] == q2[..i + 1];
        CmpFromPadded(q1, q2, i + 1);
      }
    } else if |q1| == |q2| {
      assert q1 == q1[..i] && q2 == q2[..i];
      CmpFromSelf(p1, i);
    } else {
      assert p1[i] == (if i < |q1| then q1[i] else 0);
      assert p2[i] == (if i < |q2| then q2[i] else 0);
    }
  }

  lemma PaddedOrder(q1: seq<byte>, q2: seq<byte>)
    requires |q1| <= 4 && |q2| <= 4 && NulFree(q1) && NulFree(q2)
    ensures BufferCmp(Padded(q1), Padded(q2)) == BufferCmp(q1, q2)
    ensures Padded(q1) == Padded(q2) <==> q1 == q2
  {
    CmpFromPadded(q1, q2, 0);
    BufferCmpIsLexicographic(Padded(q1), Padded(q2));
    BufferCmpIsLexicographic(q1, q2);
  }

  /** The first n bytes of t, or all of t when it is shorter. */
  function Take(t: seq<byte>, n: nat): (r: seq<byte>)
    ensures |r| == Min(n, |t|) && r == t[..|r|]
  {
    t[..Min(n, |t|)]
  }

  /** When the first n bytes of two strings differ, they decide the comparison of the whole strings. */
  lemma {:induction false} CmpFromTake(t1: seq<byte>, t2: seq<byte>, n: nat, i: nat)
    requires Take(t1, n) != Take(t2, n)
    requires i <= |Take(t1, n)| && i <= |Take(t2, n)| && t1[..i] == t2[..i]
    ensures CmpFrom(t1, t2, i) == CmpFrom(Take(t1, n), Take(t2, n), i)
    decreases n - i
  {
    var q1, q2 := Take(t1, n), Take(t2, n);
    if i < |q1| && i < |q2| {
      assert q1[i] == t1[i] && q2[i] == t2[i];
      if t1[i] == t2[i] {
        assert t1[..i + 1] == t2[..i + 1];
        CmpFromTake(t1, t2, n, i + 1);
      }
    } else {
      assert q1[..i] == q2[..i] by {
        assert q1[..i] == t1[..i] && q2[..i] == t2[..i];
      }
      if |q1| == i {
        assert q1 == q1[..i];
      }
      if |q2| == i {
        assert q2 == q2[..i];
      }
    }
  }

  /** `BitConverter.GetBytes` in the order the prefix was packed: most significant byte first. */
  function BigEndianBytes(u: uint32): (bs: seq<byte>)
    ensures |bs| == 4
  {
    [u / 256 / 256 / 256, u / 256 / 256 % 256, u / 256 % 256, u % 256]
  }

  lemma DivMod256(hi: nat, lo: byte)
    ensures (hi * 256 + lo) / 256 == hi && (hi * 256 + lo) % 256 == lo
  {
  }

  lemma BigEndianBytesInverse(s: seq<byte>)
    requires |s| == 4
    ensures BigEndian(s) < TWO32 && BigEndianBytes(BigEndian(s)) == s
  {
    var a, b, c, d := s[0], s[1], s[2], s[3];
    assert s == [a, b, c, d];
    BigEndianSmall(a, b, c, d);
    var ab: nat := (a as int) * 256 + b;
    var abc: nat := ab * 256 + c;
    assert BigEndian(s) == abc * 256 + d;
    DivMod256(abc, d);
    DivMod256(ab, c);
    DivMod256(a, b);
  }

  // ---------------------------------------------------------------------------
  // The corrected key, comparer and writer
  // ---------------------------------------------------------------------------

  /** The prefix packed left-aligned: bytes 1 to 4 of the payload, zero bytes after a short payload's end. */
  function FixedPrefix(p: seq<byte>): (r: uint32)
    ensures BigEndianBytes(r) == Padded(PrefixBytes(p))
  {
    BigEndianBytesInverse(Padded(PrefixBytes(p)));
    BigEndian(Padded(PrefixBytes(p)))
  }

  /** The corrected prefix is ReadLines' prefix shifted left by the bytes a short payload lacks. */
  lemma FixedPrefixIsShiftedPrefix(p: seq<byte>)
    ensures FixedPrefix(p) == Pack(PrefixBytes(p)) * Pow256(4 - |PrefixBytes(p)|)
  {
    var q := PrefixBytes(p);
    PackIsBigEndian(q);
    BigEndianZeros(q, 4 - |q|);
  }

  lemma {:induction false} BigEndianZeros(q: seq<byte>, n: nat)
    ensures BigEndian(q + Zeros(n)) == BigEndian(q) * Pow256(n)
  {
    if n > 0 {
      BigEndianZeros(q, n - 1);
      assert (q + Zeros(n))[..|q| + n - 1] == q + Zeros(n - 1);
      assert (q + Zeros(n))[|q| + n - 1] == 0;
      assert BigEndian(q) * Pow256(n) == BigEndian(q) * Pow256(n - 1) * 256;
    } else {
      assert q + Zeros(0) == q;
    }
  }

  /** The key the corrected ReadLines files: ReadLines' key with the left-aligned prefix. */
  function KeyFixed(l: Line, pos: int): FileItem
  {
    KeyEntry(l, pos).item.(prefix := FixedPrefix(l.payload))
  }

  /**
   * The corrected comparer: prefixes compared as unsigned numbers, a key without a stored
   * offset sorting before one with it on either side, and the remainder that ends first
   * sorting first.
   */
  function CompareFixed(w: seq<byte>, x: FileItem, y: FileItem): Option<int32>
  {
    if x.prefix != y.prefix then Some(if x.prefix < y.prefix then -1 else 1)
    else if x.offset == -1 && y.offset == -1 then Some(Sign(x.number - y.number))
    else if x.offset == -1 then Some(-1)
    else if y.offset == -1 then Some(1)
    else CompareFixedFrom(w, x, y, 0)
  }

  function CompareFixedFrom(w: seq<byte>, x: FileItem, y: FileItem, k: nat): Option<int32>
    decreases |w| - x.offset - k
  {
    if !(x.offset + k < |w| && y.offset + k < |w|) then Some(Sign(x.number - y.number))
    else if x.offset + k < 0 || y.offset + k < 0 then None
    else
      var b1 := w[x.offset + k];
      var b2 := w[y.offset + k];
      if b1 == CR && b2 == CR then Some(Sign(x.number - y.number))
      else if b1 == CR then Some(-1)
      else if b2 == CR then Some(1)
      else if b1 == b2 then CompareFixedFrom(w, x, y, k + 1)
      else var d: int32 := b1 as int - b2 as int; Some(d)
  }

  /** The corrected short payload: bucket byte and prefix bytes in packing order, zero bytes dropped. */
  function ShortPayloadFixed(bucket: byte, prefix: uint32): seq<byte>
  {
    NonZero([bucket] + BigEndianBytes(prefix))
  }

  function ItemTextFixed(w: seq<byte>, bucket: byte, item: FileItem): seq<byte>
    requires Writable(item)
  {
    Decimal(item.number) + [Dot, Space]
      + if item.offset == -1 then ShortPayloadFixed(bucket, item.prefix) + NewLine else PayloadText(w, bucket, item)
  }

  // ---------------------------------------------------------------------------
  // What the corrections achieve
  // ---------------------------------------------------------------------------

  /** The corrected loop over two remainders that agree on their first k bytes orders them as BufferCmp. */
  lemma {:induction false} CompareFixedFromRemainders(w: seq<byte>, x: FileItem, y: FileItem, r1: seq<byte>, r2: seq<byte>, k: nat)
    requires RemainderAt(w, x.offset, r1) && RemainderAt(w, y.offset, r2)
    requires CR !in r1 && CR !in r2
    requires k <= |r1| && k <= |r2| && r1[..k] == r2[..k]
    ensures CompareFixedFrom(w, x, y, k).Some?
    ensures Sign(CompareFixedFrom(w, x, y, k).value)
      == if r1 == r2 then Sign(x.number - y.number) else CmpFrom(r1, r2, k)
    decreases |r1| - k
  {
    RemainderByte(w, x.offset, r1, k);
    RemainderByte(w, y.offset, r2, k);
    if k == |r1| && k == |r2| {
      assert r1 == r1[..k] && r2 == r2[..k];
    } else if k == |r1| {
      assert r1 == r2[..k];
    } else if k == |r2| {
      assert r2 == r1[..k];
    } else if r1[k] == r2[k] {
      assert r1[..k + 1] == r2[..k + 1];
      CompareFixedFromRemainders(w, x, y, r1, r2, k + 1);
    } else {
      assert r1[..k + 1] != r2[..k + 1];
    }
  }

  /** PrefixBytes takes at most the first four bytes after the bucket byte. */
  lemma PrefixBytesIsTake(p: seq<byte>)
    requires p != []
    ensures PrefixBytes(p) == Take(p[1..], 4)
  {
  }

  lemma NulFreeSlice(p: seq<byte>, i: nat, j: nat)
    requires NulFree(p) && i <= j <= |p|
    ensures NulFree(p[i..j])
  {
    forall k | 0 <= k < j - i
      ensures p[i..j][k] != 0
    {
      assert p[i..j][k] == p[i + k];
    }
  }

  /**
   * Two payloads with the same first byte whose left-aligned prefixes differ compare as
   * those prefixes do.
   */
  lemma DifferentPrefixesDecide(p1: seq<byte>, p2: seq<byte>)
    requires p1 != [] && p2 != [] && p1[0] == p2[0] && NulFree(p1) && NulFree(p2)
    requires Padded(PrefixBytes(p1)) != Padded(PrefixBytes(p2))
    ensures BufferCmp(Padded(PrefixBytes(p1)), Padded(PrefixBytes(p2))) == BufferCmp(p1, p2)
  {
    var q1, q2 := PrefixBytes(p1), PrefixBytes(p2);
    NulFreeSlice(p1, 1, |p1|);
    NulFreeSlice(p2, 1, |p2|);
    NulFreeSlice(p1[1..], 0, |q1|);
    NulFreeSlice(p2[1..], 0, |q2|);
    PrefixBytesIsTake(p1);
    PrefixBytesIsTake(p2);
    PaddedOrder(q1, q2);
    CmpFromTake(p1[1..], p2[1..], 4, 0);
    assert p1 == [p1[0]] + p1[1..] && p2 == [p1[0]] + p2[1..];
    BufferCmpSharedPrefix([p1[0]], p1[1..], p2[1..]);
  }

  /**
   * The corrected comparer orders the keys of two encoded lines of one bucket exactly as
   * the merge orders the lines, and never fails.
   */
  lemma CompareFixedAgrees(w: seq<byte>, pos1: nat, l1: Line, pos2: nat, l2: Line)
    requires WellFormed(l1) && WellFormed(l2) && NulFree(l1.payload) && NulFree(l2.payload)
    requires EncodedAt(w, pos1, l1) && EncodedAt(w, pos2, l2)
    requires BucketOf(l1.payload) == BucketOf(l2.payload)
    ensures CompareFixed(w, KeyFixed(l1, pos1), KeyFixed(l2, pos2)).Some?
    ensures Sign(CompareFixed(w, KeyFixed(l1, pos1), KeyFixed(l2, pos2)).value) == LineCmp(l1, l2)
  {
    var p1, p2 := l1.payload, l2.payload;
    if p1 == [] || p2 == [] {
      assert p1 == [] && p2 == [];
      CmpFromSelf([], 0);
    } else if Padded(PrefixBytes(p1)) != Padded(PrefixBytes(p2)) {
      DifferentPrefixesAgree(w, pos1, l1, pos2, l2);
    } else {
      EqualPrefixesAgree(w, pos1, l1, pos2, l2);
    }
  }

  lemma DifferentPrefixesAgree(w: seq<byte>, pos1: nat, l1: Line, pos2: nat, l2: Line)
    requires NulFree(l1.payload) && NulFree(l2.payload) && l1.payload != [] && l2.payload != []
    requires l1.payload[0] == l2.payload[0]
    requires Padded(PrefixBytes(l1.payload)) != Padded(PrefixBytes(l2.payload))
    ensures CompareFixed(w, KeyFixed(l1, pos1), KeyFixed(l2, pos2)).Some?
    ensures Sign(CompareFixed(w, KeyFixed(l1, pos1), KeyFixed(l2, pos2)).value) == LineCmp(l1, l2)
  {
    var pa, pb := Padded(PrefixBytes(l1.payload)), Padded(PrefixBytes(l2.payload));
    BigEndianOrder(pa, pb);
    BufferCmpIsLexicographic(pa, pb);
    DifferentPrefixesDecide(l1.payload, l2.payload);
  }

  lemma EqualPrefixesAgree(w: seq<byte>, pos1: nat, l1: Line, pos2: nat, l2: Line)
    requires WellFormed(l1) && WellFormed(l2) && NulFree(l1.payload) && NulFree(l2.payload)
    requires EncodedAt(w, pos1, l1) && EncodedAt(w, pos2, l2)
    requires l1.payload != [] && l2.payload != [] && l1.payload[0] == l2.payload[0]
    requires Padded(PrefixBytes(l1.payload)) == Padded(PrefixBytes(l2.payload))
    ensures CompareFixed(w, KeyFixed(l1, pos1), KeyFixed(l2, pos2)).Some?
    ensures Sign(CompareFixed(w, KeyFixed(l1, pos1), KeyFixed(l2, pos2)).value) == LineCmp(l1, l2)
  {
    var p1, p2 := l1.payload, l2.payload;
    var q1, q2 := PrefixBytes(p1), PrefixBytes(p2);
    NulFreeSlice(p1, 1, |p1|);
    NulFreeSlice(p2, 1, |p2|);
    NulFreeSlice(p1[1..], 0, |q1|);
    NulFreeSlice(p2[1..], 0, |q2|);
    PrefixBytesIsTake(p1);
    PrefixBytesIsTake(p2);
    PaddedOrder(q1, q2);
    if |p1| < 5 && |p2| < 5 {
      assert p1 == [p1[0]] + q1 && p2 == [p2[0]] + q2;
      CmpFromSelf(p1, 0);
    } else if |p1| >= 5 && |p2| >= 5 {
      assert p1[..5] == p2[..5] by {
        assert p1[..5] == [p1[0]] + q1 && p2[..5] == [p2[0]] + q2;
      }
      LongPayloadsAgree(w, pos1, l1, pos2, l2);
    }
  }

  lemma LongPayloadsAgree(w: seq<byte>, pos1: nat, l1: Line, pos2: nat, l2: Line)
    requires WellFormed(l1) && WellFormed(l2) && EncodedAt(w, pos1, l1) && EncodedAt(w, pos2, l2)
    requires |l1.payload| >= 5 && |l2.payload| >= 5 && l1.payload[..5] == l2.payload[..5]
    requires FixedPrefix(l1.payload) == FixedPrefix(l2.payload)
    ensures CompareFixed(w, KeyFixed(l1, pos1), KeyFixed(l2, pos2)).Some?
    ensures Sign(CompareFixed(w, KeyFixed(l1, pos1), KeyFixed(l2, pos2)).value) == LineCmp(l1, l2)
  {
    var p1, p2 := l1.payload, l2.payload;
    var r1, r2 := p1[5..], p2[5..];
    KeyRemainder(w, pos1, l1);
    KeyRemainder(w, pos2, l2);
    CompareFixedFromRemainders(w, KeyFixed(l1, pos1), KeyFixed(l2, pos2), r1, r2, 0);
    assert p1 == p1[..5] + r1 && p2 == p1[..5] + r2;
    BufferCmpSharedPrefix(p1[..5], r1, r2);
    BufferCmpIsLexicographic(r1, r2);
  }

  /**
   * The branch the corrected comparer adds for a second key without an offset: a payload of
   * five or more bytes against a shorter one of the same bucket and left-aligned prefix
   * (the shorter one is then its proper prefix) compares greater, as in the merge. The
   * byte 0 is allowed here.
   */
  lemma LongAgainstShortFixed(w: seq<byte>, pos1: nat, l1: Line, pos2: nat, l2: Line)
    requires |l1.payload| >= 5 && |l2.payload| < 5
    requires BucketOf(l1.payload) == BucketOf(l2.payload) && FixedPrefix(l1.payload) == FixedPrefix(l2.payload)
    ensures CompareFixed(w, KeyFixed(l1, pos1), KeyFixed(l2, pos2)) == Some(1)
    ensures LineCmp(l1, l2) == 1
  {
    var p1, p2 := l1.payload, l2.payload;
    var n := |p2|;
    assert p1[..n] == p2 by {
      var q1, q2 := PrefixBytes(p1), PrefixBytes(p2);
      assert Padded(q1) == Padded(q2);
      assert q1 == p1[1..5];
      forall i | 0 <= i < n
        ensures p1[i] == p2[i]
      {
        if i > 0 {
          assert q2 == p2[1..n];
          assert Padded(q2)[i - 1] == p2[i];
          assert Padded(q1)[i - 1] == p1[i];
        }
      }
    }
    BufferCmpProperPrefix(p2, p1);
    BufferCmpAntisymmetric(p1, p2);
  }

  /** A short payload without the byte 0 is rebuilt exactly from its bucket and left-aligned prefix. */
  lemma ShortPayloadFixedRestores(p: seq<byte>)
    requires |p| < 5 && NulFree(p)
    ensures ShortPayloadFixed(BucketOf(p), FixedPrefix(p)) == p
  {
    var q := PrefixBytes(p);
    var b := BucketOf(p);
    assert [b] + BigEndianBytes(FixedPrefix(p)) == ([b] + q) + Zeros(4 - |q|);
    if p == [] {
      assert ([b] + q) + Zeros(4 - |q|) == Zeros(5);
      NonZeroZeros(5);
    } else {
      assert p == [b] + q;
      NonZeroPadded(p, 4 - |q|);
    }
  }

  /** The corrected writer gives every line back as it was read. */
  lemma WriterFixedRestoresLine(w: seq<byte>, pos: nat, l: Line)
    requires WellFormed(l) && NulFree(l.payload) && EncodedAt(w, pos, l)
    ensures Writable(KeyFixed(l, pos))
    ensures ItemTextFixed(w, BucketOf(l.payload), KeyFixed(l, pos)) == EncodeLine(l)
  {
    if |l.payload| >= 5 {
      WriterRestoresLongLine(w, pos, l);
    } else {
      ShortPayloadFixedRestores(l.payload);
    }
  }
}
