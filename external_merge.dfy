/**
 * The two-way merge of sorted run files (ExternalMerge.cs): the payload comparator,
 * the line decoder and encoder, the streaming merge loop and its file-handling wrapper.
 */
module ExternalMerge {
  import opened Bytes
  import opened Lines
  import opened Streams

  // ---------------------------------------------------------------------------
  // BufferCmp
  // ---------------------------------------------------------------------------

  /** Byte-wise comparison of two payloads: -1, 0 or 1. */
  function BufferCmp(x: seq<byte>, y: seq<byte>): (r: int)
    ensures r == -1 || r == 0 || r == 1
  {
    CmpFrom(x, y, 0)
  }

  /** The loop of BufferCmp from index i on: first mismatch below the common length, then the lengths. */
  function CmpFrom(x: seq<byte>, y: seq<byte>, i: nat): (r: int)
    requires i <= |x| && i <= |y|
    ensures r == -1 || r == 0 || r == 1
    decreases |x| - i
  {
    if i < |x| && i < |y| then
      if x[i] != y[i] then (if x[i] > y[i] then 1 else -1) else CmpFrom(x, y, i + 1)
    else if |x| > |y| then 1
    else if |x| < |y| then -1
    else 0
  }

  /** The lexicographic order on byte strings: a smaller byte at the first difference, or a proper prefix. */
  ghost predicate LexLess(x: seq<byte>, y: seq<byte>)
  {
    (exists k :: 0 <= k < |x| && k < |y| && x[..k] == y[..k] && x[k] < y[k])
    || (|x| < |y| && x == y[..|x|])
  }

  lemma FirstDifferenceDecides(x: seq<byte>, y: seq<byte>, i: nat)
    requires i < |x| && i < |y| && x[..i] == y[..i] && x[i] < y[i]
    ensures LexLess(x, y) && !LexLess(y, x)
  {
    assert 0 <= i < |x| && i < |y| && x[..i] == y[..i] && x[i] < y[i];
    forall k | 0 <= k < i
      ensures x[k] == y[k]
    {
      assert x[..i][k] == y[..i][k];
    }
    forall k | i < k <= |x| && k <= |y|
      ensures x[..k] != y[..k]
    {
      assert x[..k][i] == x[i] && y[..k][i] == y[i];
    }
    if |y| < |x| {
      assert x[..|y|][i] == x[i];
    }
  }

  lemma SharedPrefixDecides(x: seq<byte>, y: seq<byte>, i: nat)
    requires i <= |x| && i <= |y| && x[..i] == y[..i] && (i == |x| || i == |y|)
    ensures |x| < |y| ==> LexLess(x, y) && !LexLess(y, x)
    ensures |x| == |y| ==> x == y && !LexLess(x, y)
    ensures |y| < |x| ==> LexLess(y, x) && !LexLess(x, y)
  {
    forall k | 0 <= k < i
      ensures x[k] == y[k]
    {
      assert x[..i][k] == y[..i][k];
    }
    if |x| == |y| {
      assert x == x[..i] && y == y[..i];
    } else if |x| < |y| {
      assert x == x[..i];
    } else {
      assert y == y[..i];
    }
  }

  lemma {:induction false} CmpFromIsLexicographic(x: seq<byte>, y: seq<byte>, i: nat)
    requires i <= |x| && i <= |y| && x[..i] == y[..i]
    ensures CmpFrom(x, y, i) < 0 <==> LexLess(x, y)
    ensures CmpFrom(x, y, i) == 0 <==> x == y
    ensures CmpFrom(x, y, i) > 0 <==> LexLess(y, x)
    decreases |x| - i
  {
    if i < |x| && i < |y| {
      if x[i] < y[i] {
        FirstDifferenceDecides(x, y, i);
      } else if x[i] > y[i] {
        FirstDifferenceDecides(y, x, i);
      } else {
        assert x[..i + 1] == x[..i] + [x[i]] && y[..i + 1] == y[..i] + [y[i]];
        CmpFromIsLexicographic(x, y, i + 1);
      }
    } else {
      SharedPrefixDecides(x, y, i);
    }
  }

  /**
   * BufferCmp is the lexicographic order: negative exactly when x sorts first,
   * zero exactly when the buffers are equal.
   */
  lemma BufferCmpIsLexicographic(x: seq<byte>, y: seq<byte>)
    ensures BufferCmp(x, y) < 0 <==> LexLess(x, y)
    ensures BufferCmp(x, y) == 0 <==> x == y
    ensures BufferCmp(x, y) > 0 <==> LexLess(y, x)
  {
    CmpFromIsLexicographic(x, y, 0);
  }

  lemma BufferCmpAntisymmetric(x: seq<byte>, y: seq<byte>)
    ensures BufferCmp(x, y) == -BufferCmp(y, x)
  {
    BufferCmpIsLexicographic(x, y);
    BufferCmpIsLexicographic(y, x);
  }

  /** A proper prefix compares smaller. */
  lemma BufferCmpProperPrefix(x: seq<byte>, y: seq<byte>)
    requires |x| < |y| && x == y[..|x|]
    ensures BufferCmp(x, y) == -1
  {
    BufferCmpIsLexicographic(x, y);
  }

  lemma LexLessTransitive(a: seq<byte>, b: seq<byte>, c: seq<byte>)
    requires LexLess(a, b) && LexLess(b, c)
    ensures LexLess(a, c)
  {
    if exists k :: 0 <= k < |a| && k < |b| && a[..k] == b[..k] && a[k] < b[k] {
      var k1 :| 0 <= k1 < |a| && k1 < |b| && a[..k1] == b[..k1] && a[k1] < b[k1];
      if exists k :: 0 <= k < |b| && k < |c| && b[..k] == c[..k] && b[k] < c[k] {
        var k2 :| 0 <= k2 < |b| && k2 < |c| && b[..k2] == c[..k2] && b[k2] < c[k2];
        if k1 <= k2 {
          assert c[..k2][..k1] == c[..k1];
          assert b[..k2][..k1] == b[..k1];
          if k1 < k2 {
            assert b[..k2][k1] == c[..k2][k1];
          }
          assert a[..k1] == c[..k1] && a[k1] < c[k1];
        } else {
          assert a[..k1][..k2] == a[..k2];
          assert b[..k1][..k2] == b[..k2];
          assert a[..k1][k2] == b[..k1][k2];
          assert a[..k2] == c[..k2] && a[k2] < c[k2];
        }
      } else {
        assert b == c[..|b|];
        assert c[..|b|][..k1] == c[..k1];
        assert c[..|b|][k1] == c[k1];
        assert a[..k1] == c[..k1] && a[k1] < c[k1];
      }
    } else {
      assert |a| < |b| && a == b[..|a|];
      if exists k :: 0 <= k < |b| && k < |c| && b[..k] == c[..k] && b[k] < c[k] {
        var k2 :| 0 <= k2 < |b| && k2 < |c| && b[..k2] == c[..k2] && b[k2] < c[k2];
        if k2 < |a| {
          assert b[..|a|][..k2] == b[..k2];
          assert b[..|a|][k2] == b[k2];
          assert a[..k2] == c[..k2] && a[k2] < c[k2];
        } else {
          assert b[..k2][..|a|] == b[..|a|];
          assert c[..k2][..|a|] == c[..|a|];
          assert a == c[..|a|];
        }
      } else {
        assert |b| < |c| && b == c[..|b|];
        assert c[..|b|][..|a|] == c[..|a|];
      }
    }
  }

  lemma BufferCmpTransitive(x: seq<byte>, y: seq<byte>, z: seq<byte>)
    requires BufferCmp(x, y) < 0 && BufferCmp(y, z) < 0
    ensures BufferCmp(x, z) < 0
  {
    BufferCmpIsLexicographic(x, y);
    BufferCmpIsLexicographic(y, z);
    BufferCmpIsLexicographic(x, z);
    LexLessTransitive(x, y, z);
  }

  lemma {:induction false} CmpFromSharedPrefix(u: seq<byte>, v: seq<byte>, w: seq<byte>, i: nat)
    requires i <= |v| && i <= |w|
    ensures CmpFrom(u + v, u + w, |u| + i) == CmpFrom(v, w, i)
    decreases |v| - i
  {
    if i < |v| && i < |w| {
      assert (u + v)[|u| + i] == v[i] && (u + w)[|u| + i] == w[i];
      CmpFromSharedPrefix(u, v, w, i + 1);
    }
  }

  /** A common leading part does not change the comparison. */
  lemma BufferCmpSharedPrefix(u: seq<byte>, v: seq<byte>, w: seq<byte>)
    ensures BufferCmp(u + v, u + w) == BufferCmp(v, w)
  {
    BufferCmpIsLexicographic(u + v, u + w);
    BufferCmpIsLexicographic(v, w);
    assert (u + v)[..|u|] == (u + w)[..|u|];
    CmpFromIsLexicographic(u + v, u + w, |u|);
    CmpFromSharedPrefix(u, v, w, 0);
  }

  /**
   * The merge's tie rule (lines 84-86): side 1 is emitted when its payload is smaller,
   * or the payloads are equal and its number is not larger.
   */
  predicate TakeFirst(number1: int, buffer1: seq<byte>, number2: int, buffer2: seq<byte>)
  {
    var res := BufferCmp(buffer1, buffer2);
    res < 0 || (res == 0 && number1 == number2) || (res == 0 && number1 < number2)
  }

  // ---------------------------------------------------------------------------
  // ReadLine / WriteLine
  // ---------------------------------------------------------------------------

  /** One input of the merge: the number and payload of its pending line, and the stream position. */
  datatype Cursor = Cursor(number: int32, buffer: seq<byte>, pos: nat)

  /** `Stream.ReadByte` called k times from p: the position moves on, but never past the end. */
  function Skip(data: seq<byte>, p: nat, k: nat): (q: nat)
    requires p <= |data|
    ensures p <= q <= |data|
  {
    Min(p + k, |data|)
  }

  /**
   * The decoder loop of ReadLine from position pos in the given parser state: digits
   * before the dot accumulate into the number, the byte after the dot is skipped, the
   * terminator ends the line once the dot was seen, other bytes are appended to the
   * buffer, and the end of the stream returns what was gathered.
   */
  function ReadLineFrom(data: seq<byte>, pos: nat, isNumber: bool, number: int32, buffer: seq<byte>): (r: Cursor)
    requires pos <= |data|
    ensures pos <= r.pos <= |data|
    ensures r.pos == pos ==> pos == |data| && r.buffer == buffer
    ensures |buffer| <= |r.buffer| && r.buffer[..|buffer|] == buffer
    decreases |data| - pos
  {
    if pos == |data| then Cursor(number, buffer, pos)
    else
      var b := data[pos];
      if isNumber && IsDigit(b) then
        ReadLineFrom(data, pos + 1, true, AccumulateDigit(number, b), buffer)
      else if b == Dot && isNumber then
        ReadLineFrom(data, Skip(data, pos + 1, 1), false, number, buffer)
      else if b == NewLine[0] then
        var next := Skip(data, pos + 1, |NewLine| - 1);
        if !isNumber then Cursor(number, buffer, next)
        else ReadLineFrom(data, next, isNumber, number, buffer)
      else
        var r := ReadLineFrom(data, pos + 1, isNumber, number, buffer + [b]);
        assert r.buffer[..|buffer|] == r.buffer[..|buffer| + 1][..|buffer|];
        r
  }

  /** ReadLine(s, out number, buffer): decode the next line of s, appending its payload to buffer. */
  method ReadLine(s: Reader, buffer: ByteList) returns (number: int32)
    requires s.Valid()
    modifies s, buffer
    ensures s.Valid()
    ensures ReadLineFrom(s.data, old(s.pos), true, 0, old(buffer.items)) == Cursor(number, buffer.items, s.pos)
  {
    number := 0;
    var isNumber := true;
    while true
      invariant s.Valid()
      invariant ReadLineFrom(s.data, s.pos, isNumber, number, buffer.items)
        == ReadLineFrom(s.data, old(s.pos), true, 0, old(buffer.items))
      decreases |s.data| - s.pos
    {
      ghost var p := s.pos;
      var b := s.ReadByte();
      if b == -1 {
        return;
      }
      assert b == s.data[p];
      if isNumber && 48 <= b < 58 {
        number := AccumulateDigit(number, b);
      } else if b == 46 && isNumber {
        isNumber := false;
        var skipped := s.ReadByte();
        assert s.pos == Skip(s.data, p + 1, 1);
      } else if b == NewLine[0] {
        var i := 1;
        while i < |NewLine|
          invariant 1 <= i <= |NewLine| && s.Valid()
          invariant s.pos == Skip(s.data, p + 1, i - 1)
          modifies s
        {
          var skipped := s.ReadByte();
          i := i + 1;
        }
        if !isNumber {
          return;
        }
      } else {
        buffer.Add(b);
      }
    }
  }

  /** WriteLine(s, number, buffer): emit the line and clear the buffer. */
  method WriteLine(s: Writer, number: int32, buffer: ByteList)
    modifies s, buffer
    ensures s.written == old(s.written) + EncodeLine(Line(number, old(buffer.items)))
    ensures buffer.items == []
  {
    s.Write(Decimal(number));
    s.WriteByte(46);
    s.WriteByte(32);
    s.Write(buffer.items);
    s.Write(NewLine);
    buffer.Clear();
  }

  lemma {:induction false} ReadDigits(data: seq<byte>, pos: nat, ds: seq<byte>, acc: int32, buffer: seq<byte>)
    requires pos + |ds| <= |data| && data[pos..pos + |ds|] == ds
    requires forall i :: 0 <= i < |ds| ==> IsDigit(ds[i])
    ensures ReadLineFrom(data, pos, true, acc, buffer)
      == ReadLineFrom(data, pos + |ds|, true, FoldDigits(acc, ds), buffer)
    decreases ds
  {
    if ds != [] {
      assert data[pos] == ds[0];
      assert data[pos + 1..pos + |ds|] == ds[1..];
      ReadDigits(data, pos + 1, ds[1..], AccumulateDigit(acc, ds[0]), buffer);
    }
  }

  lemma {:induction false} ReadPayload(data: seq<byte>, pos: nat, p: seq<byte>, number: int32, buffer: seq<byte>)
    requires pos + |p| <= |data| && data[pos..pos + |p|] == p
    requires CR !in p
    ensures ReadLineFrom(data, pos, false, number, buffer)
      == ReadLineFrom(data, pos + |p|, false, number, buffer + p)
    decreases p
  {
    if p != [] {
      assert data[pos] == p[0];
      assert data[pos + 1..pos + |p|] == p[1..];
      assert buffer + [p[0]] + p[1..] == buffer + p;
      ReadPayload(data, pos + 1, p[1..], number, buffer + [p[0]]);
    } else {
      assert buffer + p == buffer;
    }
  }

  /**
   * Decoding an encoded well-formed line at pos yields its number and payload
   * (appended to an empty buffer) and stops right after its terminator.
   */
  lemma ReadEncodedLine(data: seq<byte>, pos: nat, l: Line)
    requires WellFormed(l)
    requires EncodedAt(data, pos, l)
    ensures ReadLineFrom(data, pos, true, 0, []) == Cursor(l.number, l.payload, pos + |EncodeLine(l)|)
  {
    DigitsRoundTrip(l.number);
    var ds := Digits(l.number);
    DigitsAreDigits(l.number);
    assert EncodeLine(l) == ds + ([Dot, Space] + l.payload + NewLine);
    ReadNumberedLine(data, pos, ds, l.number, l.payload);
  }

  /** ReadEncodedLine for any digit string ds that parses to n. */
  lemma ReadNumberedLine(data: seq<byte>, pos: nat, ds: seq<byte>, n: int32, payload: seq<byte>)
    requires forall i :: 0 <= i < |ds| ==> IsDigit(ds[i])
    requires FoldDigits(0, ds) == n && CR !in payload
    requires pos + |ds| + |payload| + 4 <= |data|
    requires data[pos..pos + |ds| + |payload| + 4] == ds + ([Dot, Space] + payload + NewLine)
    ensures ReadLineFrom(data, pos, true, 0, []) == Cursor(n, payload, pos + |ds| + |payload| + 4)
  {
    var e := ds + ([Dot, Space] + payload + NewLine);
    Slice(data, pos, e, 0, |ds|);
    ReadDigits(data, pos, ds, 0, []);
    Slice(data, pos, e, |ds|, |e|);
    ReadAfterNumber(data, pos + |ds|, n, [], payload);
    assert [] + payload == payload;
  }

  lemma ReadAfterNumber(data: seq<byte>, dot: nat, n: int32, buffer: seq<byte>, payload: seq<byte>)
    requires CR !in payload
    requires dot + |payload| + 4 <= |data|
    requires data[dot..dot + |payload| + 4] == [Dot, Space] + payload + NewLine
    ensures ReadLineFrom(data, dot, true, n, buffer) == Cursor(n, buffer + payload, dot + |payload| + 4)
  {
    var t := [Dot, Space] + payload + NewLine;
    var start := dot + 2;
    var cr := start + |payload|;
    Slice(data, dot, t, 0, 1);
    assert data[dot] == Dot;
    assert ReadLineFrom(data, dot, true, n, buffer) == ReadLineFrom(data, start, false, n, buffer);
    Slice(data, dot, t, 2, 2 + |payload|);
    assert t[2..2 + |payload|] == payload;
    ReadPayload(data, start, payload, n, buffer);
    Slice(data, dot, t, 2 + |payload|, 3 + |payload|);
    assert data[cr] == CR;
  }

  /** The round trip of the line codec: ReadLine recovers what WriteLine wrote. */
  lemma WriteThenReadLine(l: Line, rest: seq<byte>)
    requires WellFormed(l)
    ensures ReadLineFrom(EncodeLine(l) + rest, 0, true, 0, []) == Cursor(l.number, l.payload, |EncodeLine(l)|)
  {
    var data := EncodeLine(l) + rest;
    assert data[0..|EncodeLine(l)|] == EncodeLine(l);
    ReadEncodedLine(data, 0, l);
  }

  /**
   * The round trip fails for a negative number: the minus sign is not a digit, so ReadLine
   * appends it to the payload and reads the digits after it as the number. A line number
   * of 2^31 or more, wrapped negative by the chunk scanner and written with its sign,
   * comes back from the merge with an extra leading '-' in its payload.
   */
  lemma NegativeNumberReadsMinusAsPayload(l: Line)
    requires l.number < 0 && CR !in l.payload
    ensures ReadLineFrom(EncodeLine(l), 0, true, 0, [])
      == Cursor(Wrap32(-(l.number as int)), [Minus] + l.payload, |EncodeLine(l)|)
  {
    var m: nat := -(l.number as int);
    var ds := Digits(m);
    DigitsAreDigits(m);
    ParsedDigitsWrap(m);
    assert Decimal(l.number) == [Minus] + ds;
    var data := EncodeLine(l);
    assert data == [Minus] + ds + ([Dot, Space] + l.payload + NewLine);
    ReadSignedLine(data, ds, l.payload);
  }

  /** A minus sign, digits, ". ", a payload and CRLF: the sign lands in the buffer, the digits in the number. */
  lemma ReadSignedLine(data: seq<byte>, ds: seq<byte>, payload: seq<byte>)
    requires forall i :: 0 <= i < |ds| ==> IsDigit(ds[i])
    requires CR !in payload
    requires data == [Minus] + ds + ([Dot, Space] + payload + NewLine)
    ensures ReadLineFrom(data, 0, true, 0, []) == Cursor(FoldDigits(0, ds), [Minus] + payload, |data|)
  {
    var dot := 1 + |ds|;
    assert ReadLineFrom(data, 0, true, 0, []) == ReadLineFrom(data, 1, true, 0, [Minus]) by {
      assert data[0] == Minus && !IsDigit(Minus) && Minus != NewLine[0];
      assert [] + [Minus] == [Minus];
    }
    assert ReadLineFrom(data, 1, true, 0, [Minus]) == ReadLineFrom(data, dot, true, FoldDigits(0, ds), [Minus]) by {
      assert data[1..dot] == ds;
      ReadDigits(data, 1, ds, 0, [Minus]);
    }
    assert data[dot..dot + |payload| + 4] == [Dot, Space] + payload + NewLine;
    ReadAfterNumber(data, dot, FoldDigits(0, ds), [Minus], payload);
  }

  // ---------------------------------------------------------------------------
  // InternalSort
  // ---------------------------------------------------------------------------

  function Pending(c: Cursor): nat { if c.buffer == [] then 0 else 1 }

  /**
   * The output of the merge loop from the given state of its two inputs; `polls` counts
   * the cancellation polls made so far and `cancel(i)` is the token's answer to poll i.
   * An empty buffer stands for the end of that input: its partner's pending line is
   * written and the rest of the partner's bytes are copied verbatim.
   */
  function MergeFrom(file1: seq<byte>, file2: seq<byte>, c1: Cursor, c2: Cursor, polls: nat, cancel: nat -> bool): seq<byte>
    requires c1.pos <= |file1| && c2.pos <= |file2|
    decreases Remaining(file1, file2, c1, c2)
  {
    if c1.buffer == [] && c2.buffer == [] then []
    else if cancel(polls) then []
    else if c2.buffer == [] then EncodeLine(Line(c1.number, c1.buffer)) + file1[c1.pos..]
    else if c1.buffer == [] then EncodeLine(Line(c2.number, c2.buffer)) + file2[c2.pos..]
    else if TakeFirst(c1.number, c1.buffer, c2.number, c2.buffer) then
      EncodeLine(Line(c1.number, c1.buffer))
        + MergeFrom(file1, file2, ReadLineFrom(file1, c1.pos, true, 0, []), c2, polls + 1, cancel)
    else
      EncodeLine(Line(c2.number, c2.buffer))
        + MergeFrom(file1, file2, c1, ReadLineFrom(file2, c2.pos, true, 0, []), polls + 1, cancel)
  }

  /** What InternalSort writes: each input's first line is read, then the loop runs. */
  function MergeOutput(file1: seq<byte>, file2: seq<byte>, cancel: nat -> bool): seq<byte>
  {
    MergeFrom(file1, file2, ReadLineFrom(file1, 0, true, 0, []), ReadLineFrom(file2, 0, true, 0, []), 0, cancel)
  }

  /**
   * InternalSort on the contents of the two input files: the bytes of the (new, empty)
   * output file once the loop has ended, and its length.
   */
  method InternalSort(file1: seq<byte>, file2: seq<byte>, cancel: nat -> bool) returns (output: seq<byte>, size: int)
    ensures output == MergeOutput(file1, file2, cancel)
    ensures size == |output|
  {
    var buffer1 := new ByteList();
    var buffer2 := new ByteList();
    var fs := new Writer();
    var fs1 := new Reader(file1);
    var fs2 := new Reader(file2);
    var number1 := ReadLine(fs1, buffer1);
    var number2 := ReadLine(fs2, buffer2);
    var polls := 0;
    while buffer1.items != [] || buffer2.items != []
      invariant fs1.Valid() && fs2.Valid() && fs1.data == file1 && fs2.data == file2
      invariant fs.written
        + MergeFrom(file1, file2, Cursor(number1, buffer1.items, fs1.pos), Cursor(number2, buffer2.items, fs2.pos), polls, cancel)
        == MergeOutput(file1, file2, cancel)
      decreases Remaining(file1, file2, Cursor(number1, buffer1.items, fs1.pos), Cursor(number2, buffer2.items, fs2.pos))
    {
      if cancel(polls) {
        break;
      }
      if buffer2.items == [] || buffer1.items == [] {
        MergeDrain(fs, fs1, fs2, buffer1, buffer2, number1, number2, polls, cancel);
      } else {
        number1, number2 := MergeAdvance(fs, fs1, fs2, buffer1, buffer2, number1, number2, polls, cancel);
      }
      polls := polls + 1;
    }
    output := fs.written;
    size := |output|;
  }

  /** The merge loop's variant: unread bytes plus pending lines. */
  function Remaining(file1: seq<byte>, file2: seq<byte>, c1: Cursor, c2: Cursor): int
  {
    |file1| - c1.pos + |file2| - c2.pos + Pending(c1) + Pending(c2)
  }

  /**
   * The loop body when one input is exhausted (its buffer is empty): the partner's
   * pending line is written and the rest of the partner is copied.
   */
  method MergeDrain(fs: Writer, fs1: Reader, fs2: Reader, buffer1: ByteList, buffer2: ByteList,
                    number1: int32, number2: int32, ghost polls: nat, cancel: nat -> bool)
    requires fs1 != fs2 && buffer1 != buffer2
    requires fs1.Valid() && fs2.Valid()
    requires (buffer1.items == []) != (buffer2.items == [])
    requires !cancel(polls)
    modifies fs, fs1, fs2, buffer1, buffer2
    ensures fs1.Valid() && fs2.Valid()
    ensures var before1, before2 := Cursor(number1, old(buffer1.items), old(fs1.pos)), Cursor(number2, old(buffer2.items), old(fs2.pos));
      var after1, after2 := Cursor(number1, buffer1.items, fs1.pos), Cursor(number2, buffer2.items, fs2.pos);
      old(fs.written) + MergeFrom(fs1.data, fs2.data, before1, before2, polls, cancel)
        == fs.written + MergeFrom(fs1.data, fs2.data, after1, after2, polls + 1, cancel)
      && Remaining(fs1.data, fs2.data, after1, after2) < Remaining(fs1.data, fs2.data, before1, before2)
  {
    if buffer2.items == [] {
      WriteLine(fs, number1, buffer1);
      fs1.CopyTo(fs);
    } else {
      WriteLine(fs, number2, buffer2);
      fs2.CopyTo(fs);
    }
  }

  /** The loop body when both inputs have a pending line: the one the tie rule picks is written and replaced. */
  method MergeAdvance(fs: Writer, fs1: Reader, fs2: Reader, buffer1: ByteList, buffer2: ByteList,
                      number1: int32, number2: int32, ghost polls: nat, cancel: nat -> bool)
    returns (next1: int32, next2: int32)
    requires fs1 != fs2 && buffer1 != buffer2
    requires fs1.Valid() && fs2.Valid()
    requires buffer1.items != [] && buffer2.items != []
    requires !cancel(polls)
    modifies fs, fs1, fs2, buffer1, buffer2
    ensures fs1.Valid() && fs2.Valid()
    ensures var before1, before2 := Cursor(number1, old(buffer1.items), old(fs1.pos)), Cursor(number2, old(buffer2.items), old(fs2.pos));
      var after1, after2 := Cursor(next1, buffer1.items, fs1.pos), Cursor(next2, buffer2.items, fs2.pos);
      old(fs.written) + MergeFrom(fs1.data, fs2.data, before1, before2, polls, cancel)
        == fs.written + MergeFrom(fs1.data, fs2.data, after1, after2, polls + 1, cancel)
      && Remaining(fs1.data, fs2.data, after1, after2) < Remaining(fs1.data, fs2.data, before1, before2)
  {
    ghost var c1 := Cursor(number1, buffer1.items, fs1.pos);
    ghost var c2 := Cursor(number2, buffer2.items, fs2.pos);
    ghost var out := fs.written;
    next1, next2 := number1, number2;
    var res := BufferCmp(buffer1.items, buffer2.items);
    if res < 0 || (res == 0 && number1 == number2) || (res == 0 && number1 < number2) {
      next1 := WriteThenRead(fs, fs1, buffer1, number1);
      ConcatAssoc(out, EncodeLine(Line(c1.number, c1.buffer)),
        MergeFrom(fs1.data, fs2.data, Cursor(next1, buffer1.items, fs1.pos), c2, polls + 1, cancel));
      assert MergeFrom(fs1.data, fs2.data, c1, c2, polls, cancel)
        == EncodeLine(Line(c1.number, c1.buffer))
           + MergeFrom(fs1.data, fs2.data, Cursor(next1, buffer1.items, fs1.pos), c2, polls + 1, cancel);
    } else {
      next2 := WriteThenRead(fs, fs2, buffer2, number2);
      ConcatAssoc(out, EncodeLine(Line(c2.number, c2.buffer)),
        MergeFrom(fs1.data, fs2.data, c1, Cursor(next2, buffer2.items, fs2.pos), polls + 1, cancel));
      assert MergeFrom(fs1.data, fs2.data, c1, c2, polls, cancel)
        == EncodeLine(Line(c2.number, c2.buffer))
           + MergeFrom(fs1.data, fs2.data, c1, Cursor(next2, buffer2.items, fs2.pos), polls + 1, cancel);
    }
  }

  /** `WriteLine(fs, number, buffer); ReadLine(input, out number, buffer);` for the side just emitted. */
  method WriteThenRead(fs: Writer, input: Reader, buffer: ByteList, number: int32) returns (next: int32)
    requires input.Valid()
    modifies fs, input, buffer
    ensures input.Valid()
    ensures fs.written == old(fs.written) + EncodeLine(Line(number, old(buffer.items)))
    ensures Cursor(next, buffer.items, input.pos) == ReadLineFrom(input.data, old(input.pos), true, 0, [])
  {
    WriteLine(fs, number, buffer);
    next := ReadLine(input, buffer);
  }

  // ---------------------------------------------------------------------------
  // Sort: the file-handling wrapper
  // ---------------------------------------------------------------------------

  /** The directory of files the sorter touches, by path. */
  class FileSystem {
    var files: map<string, seq<byte>>

    constructor (initial: map<string, seq<byte>>)
      ensures files == initial
    {
      files := initial;
    }
  }

  /**
   * Sort(file1, file2): merge the two runs into the fresh temporary file `tempName`
   * (the name Path.GetTempFileName hands out). The inputs are opened with
   * FileShare.None, so a missing input or the same path given twice fails, and
   * `ioFault` stands for any other I/O error. On failure the result file is deleted
   * and the exception swallowed; both inputs are deleted in every case, and the
   * result path is returned in every case.
   */
  method Sort(fsys: FileSystem, file1: string, file2: string, tempName: string, ioFault: bool, cancel: nat -> bool)
    returns (resultFile: string)
    requires tempName !in fsys.files && tempName != file1 && tempName != file2
    modifies fsys
    ensures resultFile == tempName
    ensures file1 !in fsys.files && file2 !in fsys.files
    ensures MergeSucceeds(old(fsys.files), file1, file2, ioFault) ==>
      resultFile in fsys.files
      && fsys.files[resultFile] == MergeOutput(old(fsys.files)[file1], old(fsys.files)[file2], cancel)
    ensures !MergeSucceeds(old(fsys.files), file1, file2, ioFault) ==> resultFile !in fsys.files
    ensures forall f :: f in old(fsys.files) && f != file1 && f != file2 ==> f in fsys.files && fsys.files[f] == old(fsys.files)[f]
    ensures forall f :: f in fsys.files ==> f in old(fsys.files) || f == resultFile
  {
    resultFile := tempName;
    fsys.files := fsys.files[resultFile := []];
    if MergeSucceeds(fsys.files, file1, file2, ioFault) {
      var output, size := InternalSort(fsys.files[file1], fsys.files[file2], cancel);
      fsys.files := fsys.files[resultFile := output];
    } else {
      fsys.files := fsys.files - {resultFile};
    }
    fsys.files := fsys.files - {file1, file2};
  }

  /** InternalSort runs to completion: both inputs exist, are distinct, and no I/O error occurs. */
  predicate MergeSucceeds(files: map<string, seq<byte>>, file1: string, file2: string, ioFault: bool)
  {
    file1 in files && file2 in files && file1 != file2 && !ioFault
  }
}
