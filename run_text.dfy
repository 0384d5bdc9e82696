/**
 * What WriteSortedLists writes back for the key of an encoded line, as written: a
 * payload of five or more bytes is copied unchanged from the window, a shorter one is
 * rebuilt from the bucket and the prefix with the prefix bytes in little-endian order.
 */
module RunText {
  import opened Bytes
  import opened Lines
  import opened FileSorter
  import opened ChunkKeys

  /** A payload without the byte 0. */
  predicate NulFree(p: seq<byte>)
  {
    0 !in p
  }

  function Reverse(s: seq<byte>): (r: seq<byte>)
    ensures |r| == |s|
  {
    if s == [] then [] else Reverse(s[1..]) + [s[0]]
  }

  /** Dropping the zero bytes of a concatenation drops them from each part. */
  lemma {:induction false} NonZeroAppend(a: seq<byte>, b: seq<byte>)
    ensures NonZero(a + b) == NonZero(a) + NonZero(b)
    decreases |b|
  {
    if b == [] {
      assert a + b == a;
    } else {
      var init := b[..|b| - 1];
      assert (a + b)[..|a + b| - 1] == a + init;
      NonZeroAppend(a, init);
    }
  }

  lemma {:induction false} NonZeroOfNulFree(s: seq<byte>)
    requires NulFree(s)
    ensures NonZero(s) == s
    decreases |s|
  {
    if s != [] {
      var init := s[..|s| - 1];
      assert NulFree(init) by {
        forall i | 0 <= i < |init|
          ensures init[i] != 0
        {
          assert init[i] == s[i];
        }
      }
      NonZeroOfNulFree(init);
      assert s == init + [s[|s| - 1]];
    }
  }

  /** The copy from a payload's first byte reproduces the payload and its terminator. */
  lemma {:induction false} CopyRemainderOfPayload(w: seq<byte>, s: nat, p: seq<byte>, k: nat)
    requires s + |p| + 2 <= |w| && w[s..s + |p| + 2] == p + NewLine && CR !in p && k <= |p|
    ensures CopyRemainder(w, s + k) == p[k..] + NewLine
    decreases |p| - k
  {
    assert w[s + k] == (p + NewLine)[k] by {
      assert w[s..s + |p| + 2][k] == (p + NewLine)[k];
    }
    if k < |p| {
      CopyRemainderOfPayload(w, s, p, k + 1);
      assert p[k..] == [p[k]] + p[k + 1..];
    } else {
      assert p[k..] == [];
    }
  }

  /** The payload of a line encoded at pos and its terminator, from the payload's first byte. */
  lemma PayloadWithTerminator(w: seq<byte>, pos: nat, l: Line)
    requires EncodedAt(w, pos, l)
    ensures var s := pos + |Decimal(l.number)| + 2;
      s + |l.payload| + 2 <= |w| && w[s..s + |l.payload| + 2] == l.payload + NewLine
  {
    var e := EncodeLine(l);
    var d := |Decimal(l.number)|;
    assert e == Decimal(l.number) + [Dot, Space] + (l.payload + NewLine);
    Slice(w, pos, e, d + 2, |e|);
    assert e[d + 2..|e|] == l.payload + NewLine;
  }

  /** A line with a payload of five or more bytes is written back exactly as it was read. */
  lemma WriterRestoresLongLine(w: seq<byte>, pos: nat, l: Line)
    requires WellFormed(l) && EncodedAt(w, pos, l) && |l.payload| >= 5
    ensures Writable(KeyEntry(l, pos).item)
    ensures ItemText(w, BucketOf(l.payload), KeyEntry(l, pos).item) == EncodeLine(l)
  {
    var s := pos + |Decimal(l.number)| + 2;
    PayloadWithTerminator(w, pos, l);
    CopyRemainderOfPayload(w, s, l.payload, 0);
    assert l.payload[0..] == l.payload;
  }

  function Zeros(n: nat): (z: seq<byte>)
    ensures |z| == n
  {
    seq(n, _ => 0)
  }

  lemma {:induction false} NonZeroZeros(n: nat)
    ensures NonZero(Zeros(n)) == []
  {
    if n > 0 {
      assert Zeros(n)[..n - 1] == Zeros(n - 1);
      NonZeroZeros(n - 1);
    }
  }

  lemma ReverseSmall(a: byte, b: byte, c: byte)
    ensures Reverse([a]) == [a]
    ensures Reverse([a, b]) == [b, a]
    ensures Reverse([a, b, c]) == [c, b, a]
  {
    assert [a, b][1..] == [b];
    assert [a, b, c][1..] == [b, c];
    assert Reverse([b, c]) == [c, b] by {
      assert [b, c][1..] == [c];
    }
  }

  /** The little-endian bytes of a number below 2^24 given by its three bytes. */
  lemma LittleEndianOfThree(a: byte, b: byte, c: byte)
    ensures LittleEndianBytes(a * 0x1_0000 + b * 0x100 + c) == [c, b, a, 0]
  {
    var u := a * 0x1_0000 + b * 0x100 + c;
    assert u % 256 == c;
    assert u / 256 == a * 0x100 + b;
    assert (u / 256) % 256 == b;
    assert u / 65536 == a;
    assert u / 16777216 == 0;
  }

  /** The non-zero bytes of xs followed by n zero bytes are xs itself. */
  lemma NonZeroPadded(xs: seq<byte>, n: nat)
    requires NulFree(xs)
    ensures NonZero(xs + Zeros(n)) == xs
  {
    NonZeroAppend(xs, Zeros(n));
    NonZeroOfNulFree(xs);
    NonZeroZeros(n);
  }

  /** The three cases below: zero bytes a (and b) stand for a shorter prefix. */
  lemma WrittenReversed(a: byte, b: byte, c: byte)
    requires c != 0 && (a != 0 ==> b != 0)
    ensures a == 0 && b == 0 ==> NonZero(LittleEndianBytes(c)) == [c]
    ensures a == 0 && b != 0 ==> NonZero(LittleEndianBytes(b * 0x100 + c)) == [c, b]
    ensures a != 0 ==> NonZero(LittleEndianBytes(a * 0x1_0000 + b * 0x100 + c)) == [c, b, a]
  {
    LittleEndianOfThree(a, b, c);
    if a == 0 && b == 0 {
      assert [c, b, a, 0] == [c] + Zeros(3);
      NonZeroPadded([c], 3);
    } else if a == 0 {
      assert [c, b, a, 0] == [c, b] + Zeros(2);
      NonZeroPadded([c, b], 2);
    } else {
      assert [c, b, a, 0] == [c, b, a] + Zeros(1);
      NonZeroPadded([c, b, a], 1);
    }
  }

  /**
   * A payload of one to four bytes (none of them 0) comes back with its bytes after the
   * first in reverse order: the writer emits the prefix least significant byte first.
   */
  lemma ShortPayloadReversed(p: seq<byte>)
    requires 1 <= |p| < 5 && NulFree(p)
    ensures ShortPayload(BucketOf(p), Pack(PrefixBytes(p))) == [p[0]] + Reverse(p[1..])
  {
    assert p[0] != 0 && forall i :: 1 <= i < |p| ==> p[i] != 0;
    if |p| == 1 {
      assert p[1..] == [];
    } else if |p| == 2 {
      TwoBytePayload(p[0], p[1]);
      assert p == [p[0], p[1]];
    } else if |p| == 3 {
      ThreeBytePayload(p[0], p[1], p[2]);
      assert p == [p[0], p[1], p[2]];
    } else {
      FourBytePayload(p[0], p[1], p[2], p[3]);
      assert p == [p[0], p[1], p[2], p[3]];
    }
  }

  lemma TwoBytePayload(h: byte, c: byte)
    requires c != 0
    ensures ShortPayload(h, Pack(PrefixBytes([h, c]))) == [h] + Reverse([c])
  {
    var q := PrefixBytes([h, c]);
    assert q == [c];
    PackIsBigEndian(q);
    BigEndianSmall(c, 0, 0, 0);
    ReverseSmall(c, 0, 0);
    WrittenReversed(0, 0, c);
  }

  lemma ThreeBytePayload(h: byte, b: byte, c: byte)
    requires b != 0 && c != 0
    ensures ShortPayload(h, Pack(PrefixBytes([h, b, c]))) == [h] + Reverse([b, c])
  {
    var q := PrefixBytes([h, b, c]);
    assert q == [b, c];
    PackIsBigEndian(q);
    BigEndianSmall(b, c, 0, 0);
    ReverseSmall(b, c, 0);
    WrittenReversed(0, b, c);
  }

  lemma FourBytePayload(h: byte, a: byte, b: byte, c: byte)
    requires a != 0 && b != 0 && c != 0
    ensures ShortPayload(h, Pack(PrefixBytes([h, a, b, c]))) == [h] + Reverse([a, b, c])
  {
    var q := PrefixBytes([h, a, b, c]);
    assert q == [a, b, c];
    PackIsBigEndian(q);
    BigEndianSmall(a, b, c, 0);
    ReverseSmall(a, b, c);
    WrittenReversed(a, b, c);
  }

  /** "ABC" is written back as "ACB". */
  lemma ThreeBytePayloadComesBackSwapped(w: seq<byte>, pos: int)
    ensures var l := Line(1, [65, 66, 67]);
      ItemText(w, BucketOf(l.payload), KeyEntry(l, pos).item) == EncodeLine(Line(1, [65, 67, 66]))
  {
    ShortPayloadReversed([65, 66, 67]);
    assert [65, 66, 67][1..] == [66, 67];
    assert Reverse([66, 67]) == [67, 66] by {
      assert [66, 67][1..] == [67];
    }
  }

  /** An empty payload is written back as the single byte 0. */
  lemma EmptyPayloadGainsNul(w: seq<byte>, pos: int, n: int32)
    ensures ItemText(w, BucketOf([]), KeyEntry(Line(n, []), pos).item) == EncodeLine(Line(n, [0]))
  {
  }
}
