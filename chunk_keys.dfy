/**
 * What ReadLines files for a window made of well-formed lines: one key per line, in
 * file order, built from the line's number and first five payload bytes, and the
 * stop rule stated on lines.
 */
module ChunkKeys {
  import opened Bytes
  import opened Lines
  import opened FileSorter

  /** The bucket of a payload: its first byte, or 0 (the reset value) for an empty payload. */
  function BucketOf(p: seq<byte>): byte
  {
    if |p| == 0 then 0 else p[0]
  }

  /** The payload bytes the prefix takes: those after the bucket byte, at most four. */
  function PrefixBytes(p: seq<byte>): (r: seq<byte>)
    ensures |r| <= 4
  {
    if |p| <= 1 then [] else p[1..Min(5, |p|)]
  }

  /** The bytes shifted into a `uint`, one after the other, as ReadLines does. */
  function Pack(bs: seq<byte>): uint32
  {
    if bs == [] then 0 else ShiftIn(Pack(bs[..|bs| - 1]), bs[|bs| - 1])
  }

  /**
   * Up to four bytes pack without loss, right-aligned: the prefix of a payload is the
   * big-endian number its bytes 1 to 4 spell.
   */
  lemma {:induction false} PackIsBigEndian(bs: seq<byte>)
    requires |bs| <= 4
    ensures Pack(bs) == BigEndian(bs)
  {
    if bs != [] {
      var init := bs[..|bs| - 1];
      PackIsBigEndian(init);
      var v := BigEndian(init);
      assert v < 0x100_0000 by {
        assert Pow256(0) == 1 && Pow256(1) == 256 && Pow256(2) == 0x1_0000 && Pow256(3) == 0x100_0000;
      }
      ShiftInExact(v, bs[|bs| - 1]);
    }
  }

  lemma ShiftInExact(v: uint32, b: byte)
    requires v < 0x100_0000
    ensures ShiftIn(v, b) == v * 256 + b
  {
    assert v * 256 + b < TWO32;
  }

  /** "AZ" and "ABC" in bucket 'A': the one-byte prefix 'Z' packs to 0x5A, the two bytes "BC" to 0x4243. */
  lemma RightAlignedPrefixes()
    ensures Pack(PrefixBytes([65, 90])) == 0x5A
    ensures Pack(PrefixBytes([65, 66, 67])) == 0x4243
  {
    assert PrefixBytes([65, 90]) == [90];
    assert PrefixBytes([65, 66, 67]) == [66, 67];
    PackIsBigEndian([90]);
    PackIsBigEndian([66, 67]);
    assert [66, 67][..1] == [66];
  }

  /** The key ReadLines files for a well-formed line whose encoding starts at `pos`. */
  function KeyEntry(l: Line, pos: int): Entry
  {
    var start := pos + |Decimal(l.number)| + 2;
    Entry(BucketOf(l.payload),
      FileItem(l.number, Pack(PrefixBytes(l.payload)), if |l.payload| < 5 then -1 else start + 5))
  }

  /**
   * The stored offset points into the window at the payload's sixth byte: what follows it
   * is the rest of the payload and the terminator (for a five-byte payload, the terminator itself).
   */
  lemma StoredOffsetIsRemainder(w: seq<byte>, pos: nat, l: Line)
    requires EncodedAt(w, pos, l)
    requires |l.payload| >= 5
    ensures var o := KeyEntry(l, pos).item.offset;
      0 <= o && o + |l.payload| - 5 + 2 <= |w| && w[o..o + |l.payload| - 5 + 2] == l.payload[5..] + NewLine
  {
    var e := EncodeLine(l);
    var d := |Decimal(l.number)|;
    assert e[d + 7..|e|] == l.payload[5..] + NewLine;
    Slice(w, pos, e, d + 7, |e|);
  }

  /**
   * The keys and stop offset ReadLines produces for the lines `ls` encoded from `pos` on,
   * `lines` lines having been read before: each line's key, until the first line whose
   * terminator ends at or past chunkSize or after which the token is set.
   */
  function ExpectedScan(ls: seq<Line>, pos: int, chunkSize: int, cancel: nat -> bool, lines: nat): ScanResult
  {
    if ls == [] then ScanResult([], pos)
    else
      var e := KeyEntry(ls[0], pos);
      var end := pos + |EncodeLine(ls[0])|;
      if end - 1 >= chunkSize || cancel(lines + 1) then ScanResult([e], end - 1)
      else
        var r := ExpectedScan(ls[1..], end, chunkSize, cancel, lines + 1);
        ScanResult([e] + r.entries, r.offset)
  }

  lemma {:induction false} ScanDigits(w: seq<byte>, pos: nat, ds: seq<byte>, chunkSize: int, cancel: nat -> bool, st: Scan, lines: nat)
    requires pos + |ds| <= |w| && w[pos..pos + |ds|] == ds
    requires forall i :: 0 <= i < |ds| ==> IsDigit(ds[i])
    requires st.isNumber && st.itemOffset >= -1
    ensures ScanFrom(w, chunkSize, cancel, pos, st, lines)
      == ScanFrom(w, chunkSize, cancel, pos + |ds|, st.(number := FoldDigits(st.number, ds)), lines)
    decreases ds
  {
    if ds != [] {
      assert w[pos] == ds[0];
      assert w[pos + 1..pos + |ds|] == ds[1..];
      ScanDigits(w, pos + 1, ds[1..], chunkSize, cancel, st.(number := AccumulateDigit(st.number, ds[0])), lines);
    }
  }

  lemma PrefixBytesStep(p: seq<byte>, k: nat)
    requires k < |p|
    ensures k < 1 ==> PrefixBytes(p[..k + 1]) == PrefixBytes(p[..k]) == []
    ensures 1 <= k < 5 ==> PrefixBytes(p[..k + 1]) == PrefixBytes(p[..k]) + [p[k]]
    ensures 5 <= k ==> PrefixBytes(p[..k + 1]) == PrefixBytes(p[..k])
  {
    if 1 <= k < 5 {
      assert PrefixBytes(p[..k + 1]) == p[1..k + 1];
      if k > 1 {
        assert PrefixBytes(p[..k]) == p[1..k];
      }
    }
  }

  lemma {:induction false} ScanPayload(w: seq<byte>, s: nat, p: seq<byte>, k: nat, chunkSize: int, cancel: nat -> bool, st: Scan, lines: nat)
    requires s + |p| <= |w| && w[s..s + |p|] == p && CR !in p && k <= |p|
    requires !st.isNumber && st.itemOffset == s
    requires st.bucket == BucketOf(p[..k]) && st.prefix == Pack(PrefixBytes(p[..k]))
    ensures ScanFrom(w, chunkSize, cancel, s + k, st, lines)
      == ScanFrom(w, chunkSize, cancel, s + |p|, st.(bucket := BucketOf(p), prefix := Pack(PrefixBytes(p))), lines)
    decreases |p| - k
  {
    if k == |p| {
      assert p[..k] == p;
    } else {
      var b := p[k];
      assert w[s + k] == b by {
        assert w[s..s + |p|][k] == p[k];
      }
      PrefixBytesStep(p, k);
      var next := if k < 1 then st.(bucket := b) else if k < 5 then st.(prefix := ShiftIn(st.prefix, b)) else st;
      assert BucketOf(p[..k + 1]) == next.bucket;
      if 1 <= k < 5 {
        var pb := PrefixBytes(p[..k]) + [b];
        assert pb[..|pb| - 1] == PrefixBytes(p[..k]);
      }
      assert ScanFrom(w, chunkSize, cancel, s + k, st, lines) == ScanFrom(w, chunkSize, cancel, s + k + 1, next, lines);
      ScanPayload(w, s, p, k + 1, chunkSize, cancel, next, lines);
    }
  }

  /** From the first byte of an encoded well-formed line to its first payload byte. */
  lemma ScanNumberPart(w: seq<byte>, pos: nat, l: Line, chunkSize: int, cancel: nat -> bool, st: Scan, lines: nat)
    requires WellFormed(l)
    requires EncodedAt(w, pos, l)
    requires st == Start.(itemOffset := st.itemOffset) && st.itemOffset >= -1
    ensures var s := pos + |Decimal(l.number)| + 2;
      ScanFrom(w, chunkSize, cancel, pos, st, lines)
      == ScanFrom(w, chunkSize, cancel, s, Scan(false, l.number, 0, 0, s), lines)
  {
    var e := EncodeLine(l);
    var ds := Digits(l.number);
    DigitsAreDigits(l.number);
    DigitsRoundTrip(l.number);
    assert e == ds + ([Dot, Space] + l.payload + NewLine);
    Slice(w, pos, e, 0, |ds| + 1);
    assert e[..|ds| + 1] == ds + [Dot];
    ScanNumber(w, pos, ds, l.number, chunkSize, cancel, st, lines);
  }

  /** ScanNumberPart for any digit string ds that parses to n and is followed by the dot. */
  lemma ScanNumber(w: seq<byte>, pos: nat, ds: seq<byte>, n: int32, chunkSize: int, cancel: nat -> bool, st: Scan, lines: nat)
    requires forall i :: 0 <= i < |ds| ==> IsDigit(ds[i])
    requires FoldDigits(0, ds) == n
    requires pos + |ds| < |w| && w[pos..pos + |ds| + 1] == ds + [Dot]
    requires st == Start.(itemOffset := st.itemOffset) && st.itemOffset >= -1
    ensures var s := pos + |ds| + 2;
      ScanFrom(w, chunkSize, cancel, pos, st, lines)
      == ScanFrom(w, chunkSize, cancel, s, Scan(false, n, 0, 0, s), lines)
  {
    assert w[pos..pos + |ds|] == ds by {
      assert w[pos..pos + |ds|] == w[pos..pos + |ds| + 1][..|ds|];
    }
    ScanDigits(w, pos, ds, chunkSize, cancel, st, lines);
    assert w[pos + |ds|] == Dot by {
      assert w[pos..pos + |ds| + 1][|ds|] == Dot;
    }
  }

  /** Where the payload and its terminator sit in the window, for a line encoded at `pos`. */
  lemma PayloadAt(w: seq<byte>, pos: nat, l: Line)
    requires EncodedAt(w, pos, l)
    ensures var s := pos + |Decimal(l.number)| + 2;
      s + |l.payload| + 2 <= |w| && w[s..s + |l.payload|] == l.payload && w[s + |l.payload|] == CR
  {
    var e := EncodeLine(l);
    var d := |Decimal(l.number)|;
    assert e == Decimal(l.number) + [Dot, Space] + l.payload + NewLine;
    Slice(w, pos, e, d + 2, d + 2 + |l.payload|);
    assert e[d + 2..d + 2 + |l.payload|] == l.payload;
    assert w[pos..pos + |e|][|e| - 2] == e[|e| - 2];
  }

  /** From the first byte of an encoded well-formed line to its terminator. */
  lemma ScanToTerminator(w: seq<byte>, pos: nat, l: Line, chunkSize: int, cancel: nat -> bool, st: Scan, lines: nat)
    requires WellFormed(l)
    requires EncodedAt(w, pos, l)
    requires st == Start.(itemOffset := st.itemOffset) && st.itemOffset >= -1
    ensures var s := pos + |Decimal(l.number)| + 2;
      ScanFrom(w, chunkSize, cancel, pos, st, lines)
      == ScanFrom(w, chunkSize, cancel, s + |l.payload|,
           Scan(false, l.number, BucketOf(l.payload), Pack(PrefixBytes(l.payload)), s), lines)
  {
    var s := pos + |Decimal(l.number)| + 2;
    ScanNumberPart(w, pos, l, chunkSize, cancel, st, lines);
    PayloadAt(w, pos, l);
    assert l.payload[..0] == [];
    ScanPayload(w, s, l.payload, 0, chunkSize, cancel, Scan(false, l.number, 0, 0, s), lines);
  }

  /** One encoded well-formed line: its key is filed, then the scan stops or goes on after the terminator. */
  lemma ScanEncodedLine(w: seq<byte>, pos: nat, l: Line, chunkSize: int, cancel: nat -> bool, st: Scan, lines: nat)
    requires WellFormed(l)
    requires EncodedAt(w, pos, l)
    requires st == Start.(itemOffset := st.itemOffset) && st.itemOffset >= -1
    ensures var e := KeyEntry(l, pos);
      var end := pos + |EncodeLine(l)|;
      ScanFrom(w, chunkSize, cancel, pos, st, lines)
      == if end - 1 >= chunkSize || cancel(lines + 1) then ScanResult([e], end - 1)
         else
           var r := ScanFrom(w, chunkSize, cancel, end, Start.(itemOffset := e.item.offset), lines + 1);
           ScanResult([e] + r.entries, r.offset)
  {
    ScanToTerminator(w, pos, l, chunkSize, cancel, st, lines);
    PayloadAt(w, pos, l);
  }

  /**
   * ReadLines on a window of encoded well-formed lines files exactly the keys of
   * ExpectedScan: one per line, in order, and stops where ExpectedScan says.
   */
  lemma {:induction false} ScanEncodedLines(w: seq<byte>, pos: nat, ls: seq<Line>, chunkSize: int, cancel: nat -> bool, st: Scan, lines: nat)
    requires pos <= |w| && w[pos..] == EncodeLines(ls) && AllWellFormed(ls)
    requires st == Start.(itemOffset := st.itemOffset) && st.itemOffset >= -1
    ensures ScanFrom(w, chunkSize, cancel, pos, st, lines) == ExpectedScan(ls, pos, chunkSize, cancel, lines)
    decreases |ls|
  {
    if ls == [] {
      assert |w[pos..]| == 0;
    } else {
      var e := EncodeLine(ls[0]);
      assert w[pos..] == e + EncodeLines(ls[1..]);
      assert w[pos..pos + |e|] == w[pos..][..|e|];
      ScanEncodedLine(w, pos, ls[0], chunkSize, cancel, st, lines);
      var end := pos + |e|;
      if !(end - 1 >= chunkSize || cancel(lines + 1)) {
        assert w[end..] == w[pos..][|e|..];
        ScanEncodedLines(w, end, ls[1..], chunkSize, cancel, Start.(itemOffset := KeyEntry(ls[0], pos).item.offset), lines + 1);
      }
    }
  }

  /** The whole window, when ReadLines starts at its first byte. */
  lemma ScanWindowOfLines(ls: seq<Line>, chunkSize: int, cancel: nat -> bool)
    requires AllWellFormed(ls)
    ensures ScanWindow(EncodeLines(ls), chunkSize, cancel) == ExpectedScan(ls, 0, chunkSize, cancel, 0)
  {
    ScanEncodedLines(EncodeLines(ls), 0, ls, chunkSize, cancel, Start, 0);
  }

  /** Bytes with no terminator file no key, whatever state the scan is in. */
  lemma {:induction false} UnterminatedTailFilesNothing(w: seq<byte>, off: nat, chunkSize: int, cancel: nat -> bool, st: Scan, lines: nat)
    requires off <= |w| + 1 && st.itemOffset >= -1
    requires forall i :: off <= i < |w| ==> w[i] != CR
    ensures ScanFrom(w, chunkSize, cancel, off, st, lines).entries == []
    decreases |w| + 1 - off
  {
    if off < |w| {
      var b := w[off];
      if st.isNumber && IsDigit(b) {
        UnterminatedTailFilesNothing(w, off + 1, chunkSize, cancel, st.(number := AccumulateDigit(st.number, b)), lines);
      } else if st.isNumber && b == Dot {
        UnterminatedTailFilesNothing(w, off + 2, chunkSize, cancel, st.(isNumber := false, itemOffset := off + 2), lines);
      } else if !st.isNumber && off < st.itemOffset + 5 {
        if off < st.itemOffset + 1 {
          UnterminatedTailFilesNothing(w, off + 1, chunkSize, cancel, st.(bucket := b), lines);
        } else {
          UnterminatedTailFilesNothing(w, off + 1, chunkSize, cancel, st.(prefix := ShiftIn(st.prefix, b)), lines);
        }
      } else {
        UnterminatedTailFilesNothing(w, off + 1, chunkSize, cancel, st, lines);
      }
    }
  }

  /** The keys of the lines ls encoded one after the other from pos on. */
  function KeysFrom(ls: seq<Line>, pos: int): (r: seq<Entry>)
    ensures |r| == |ls|
  {
    if ls == [] then [] else [KeyEntry(ls[0], pos)] + KeysFrom(ls[1..], pos + |EncodeLine(ls[0])|)
  }

  /**
   * With a chunk size past the last terminator and no cancellation, every line is read,
   * each giving its key, and the scan ends at the window's end.
   */
  lemma {:induction false} LargeChunkReadsAll(ls: seq<Line>, pos: int, chunkSize: int, cancel: nat -> bool, lines: nat)
    requires pos + |EncodeLines(ls)| <= chunkSize
    requires forall i :: !cancel(i)
    ensures ExpectedScan(ls, pos, chunkSize, cancel, lines).entries == KeysFrom(ls, pos)
    ensures ExpectedScan(ls, pos, chunkSize, cancel, lines).offset == pos + |EncodeLines(ls)|
    decreases |ls|
  {
    if ls != [] {
      assert !cancel(lines + 1);
      LargeChunkReadsAll(ls[1..], pos + |EncodeLine(ls[0])|, chunkSize, cancel, lines + 1);
    }
  }

  /** Two lines read as one window: ReadLines files exactly their two keys. */
  lemma TwoLineWindow(l1: Line, l2: Line, chunkSize: int, cancel: nat -> bool)
    requires WellFormed(l1) && WellFormed(l2)
    requires |EncodeLines([l1, l2])| <= chunkSize && forall i :: !cancel(i)
    ensures ScanWindow(EncodeLines([l1, l2]), chunkSize, cancel).entries
      == [KeyEntry(l1, 0), KeyEntry(l2, |EncodeLine(l1)|)]
  {
    ScanWindowOfLines([l1, l2], chunkSize, cancel);
    LargeChunkReadsAll([l1, l2], 0, chunkSize, cancel, 0);
    assert [l1, l2][1..] == [l2];
    assert [l2][1..] == [];
  }

  /** The encoded length of each line. */
  function Lengths(ls: seq<Line>): (r: seq<nat>)
    ensures |r| == |ls|
  {
    if ls == [] then [] else [|EncodeLine(ls[0])|] + Lengths(ls[1..])
  }

  function Sum(xs: seq<nat>): nat
  {
    if xs == [] then 0 else xs[0] + Sum(xs[1..])
  }

  /** The first k + 1 lines take the first line's length plus that of the next k. */
  lemma EncodeFirstLines(ls: seq<Line>, k: nat)
    requires k < |ls|
    ensures |EncodeLines(ls[..k + 1])| == |EncodeLine(ls[0])| + |EncodeLines(ls[1..][..k])|
  {
    assert ls[..k + 1] == [ls[0]] + ls[1..][..k];
    assert (ls[..k + 1])[1..] == ls[1..][..k];
  }

  lemma SumFirstLengths(ls: seq<Line>, k: nat)
    requires k < |ls|
    ensures Sum(Lengths(ls)[..k + 1]) == |EncodeLine(ls[0])| + Sum(Lengths(ls[1..])[..k])
  {
    assert Lengths(ls)[..k + 1][1..] == Lengths(ls[1..])[..k];
  }

  /** The first k lines take as many bytes as their lengths add up to. */
  lemma {:induction false} EncodeLinesLength(ls: seq<Line>, k: nat)
    requires k <= |ls|
    ensures |EncodeLines(ls[..k])| == Sum(Lengths(ls)[..k])
    decreases k
  {
    if k > 0 {
      EncodeLinesLength(ls[1..], k - 1);
      EncodeFirstLines(ls, k - 1);
      SumFirstLengths(ls, k - 1);
    } else {
      assert ls[..k] == [];
      assert Lengths(ls)[..k] == [];
    }
  }

  /** How many keys ExpectedScan files and where it stops, given the lines' lengths. */
  function ScanExtent(lens: seq<nat>, pos: int, chunkSize: int, cancel: nat -> bool, lines: nat): (nat, int)
  {
    if lens == [] then (0, pos)
    else
      var end := pos + lens[0];
      if end - 1 >= chunkSize || cancel(lines + 1) then (1, end - 1)
      else
        var r := ScanExtent(lens[1..], end, chunkSize, cancel, lines + 1);
        (1 + r.0, r.1)
  }

  lemma {:induction false} ExpectedScanExtent(ls: seq<Line>, pos: int, chunkSize: int, cancel: nat -> bool, lines: nat)
    ensures |ExpectedScan(ls, pos, chunkSize, cancel, lines).entries| == ScanExtent(Lengths(ls), pos, chunkSize, cancel, lines).0
    ensures ExpectedScan(ls, pos, chunkSize, cancel, lines).offset == ScanExtent(Lengths(ls), pos, chunkSize, cancel, lines).1
    decreases |ls|
  {
    if ls != [] {
      var end := pos + |EncodeLine(ls[0])|;
      ExpectedScanExtent(ls[1..], end, chunkSize, cancel, lines + 1);
      ExpectedScanStep(ls, pos, chunkSize, cancel, lines);
      LengthsStep(ls);
      ScanExtentStep(Lengths(ls), pos, chunkSize, cancel, lines);
    }
  }

  lemma LengthsStep(ls: seq<Line>)
    requires ls != []
    ensures Lengths(ls)[0] == |EncodeLine(ls[0])| && Lengths(ls)[1..] == Lengths(ls[1..])
  {
  }

  /** ExpectedScan reads the first line, and the rest unless it stops there. */
  lemma ExpectedScanStep(ls: seq<Line>, pos: int, chunkSize: int, cancel: nat -> bool, lines: nat)
    requires ls != []
    ensures var end := pos + |EncodeLine(ls[0])|;
      var r := ExpectedScan(ls, pos, chunkSize, cancel, lines);
      var rest := ExpectedScan(ls[1..], end, chunkSize, cancel, lines + 1);
      if end - 1 >= chunkSize || cancel(lines + 1) then |r.entries| == 1 && r.offset == end - 1
      else |r.entries| == 1 + |rest.entries| && r.offset == rest.offset
  {
  }

  lemma ScanExtentStep(lens: seq<nat>, pos: int, chunkSize: int, cancel: nat -> bool, lines: nat)
    requires lens != []
    ensures var end := pos + lens[0];
      var r := ScanExtent(lens, pos, chunkSize, cancel, lines);
      var rest := ScanExtent(lens[1..], end, chunkSize, cancel, lines + 1);
      if end - 1 >= chunkSize || cancel(lines + 1) then r == (1, end - 1)
      else r == (1 + rest.0, rest.1)
  {
  }

  /**
   * The stop rule: without cancellation the scan reads the lines up to and including
   * line k, the first whose terminator ends at or past chunkSize, and returns the index
   * of that line's last terminator byte.
   */
  lemma ChunkStopsAtCrossingLine(ls: seq<Line>, k: nat, pos: int, chunkSize: int, cancel: nat -> bool, lines: nat)
    requires k < |ls| && forall i :: !cancel(i)
    requires pos + |EncodeLines(ls[..k])| <= chunkSize
    requires pos + |EncodeLines(ls[..k + 1])| - 1 >= chunkSize
    ensures |ExpectedScan(ls, pos, chunkSize, cancel, lines).entries| == k + 1
    ensures ExpectedScan(ls, pos, chunkSize, cancel, lines).offset == pos + |EncodeLines(ls[..k + 1])| - 1
  {
    ExpectedScanExtent(ls, pos, chunkSize, cancel, lines);
    EncodeLinesLength(ls, k);
    EncodeLinesLength(ls, k + 1);
    ExtentAtCrossingLine(Lengths(ls), k, pos, chunkSize, cancel, lines);
  }

  lemma {:induction false} ExtentAtCrossingLine(lens: seq<nat>, k: nat, pos: int, chunkSize: int, cancel: nat -> bool, lines: nat)
    requires k < |lens| && forall i :: !cancel(i)
    requires pos + Sum(lens[..k]) <= chunkSize
    requires pos + Sum(lens[..k + 1]) - 1 >= chunkSize
    ensures ScanExtent(lens, pos, chunkSize, cancel, lines) == (k + 1, pos + Sum(lens[..k + 1]) - 1)
    decreases k
  {
    assert lens[..k + 1][1..] == lens[1..][..k];
    if k > 0 {
      assert lens[..k][1..] == lens[1..][..k - 1];
      assert !cancel(lines + 1);
      ExtentAtCrossingLine(lens[1..], k - 1, pos + lens[0], chunkSize, cancel, lines + 1);
    }
  }
}
