/**
 * What the merge achieves on well-formed runs: the order it merges by is a total
 * order, the merge of two sorted runs is a sorted permutation of their lines, and
 * the byte-level loop of InternalSort computes exactly that merge.
 */
module MergeCorrectness {
  import opened Bytes
  import opened Lines
  import opened ExternalMerge

  /** The required order on lines, as the merge decides it: payload bytes first, then the number. */
  predicate LineLe(a: Line, b: Line)
  {
    TakeFirst(a.number, a.payload, b.number, b.payload)
  }

  ghost predicate Sorted(ls: seq<Line>)
  {
    forall i, j :: 0 <= i < j < |ls| ==> LineLe(ls[i], ls[j])
  }

  lemma LineLeTotal(a: Line, b: Line)
    ensures LineLe(a, b) || LineLe(b, a)
  {
    BufferCmpAntisymmetric(a.payload, b.payload);
  }

  lemma LineLeAntisymmetric(a: Line, b: Line)
    requires LineLe(a, b) && LineLe(b, a)
    ensures a == b
  {
    BufferCmpAntisymmetric(a.payload, b.payload);
    BufferCmpIsLexicographic(a.payload, b.payload);
  }

  lemma LineLeTransitive(a: Line, b: Line, c: Line)
    requires LineLe(a, b) && LineLe(b, c)
    ensures LineLe(a, c)
  {
    BufferCmpIsLexicographic(a.payload, b.payload);
    BufferCmpIsLexicographic(b.payload, c.payload);
    if BufferCmp(a.payload, b.payload) < 0 && BufferCmp(b.payload, c.payload) < 0 {
      BufferCmpTransitive(a.payload, b.payload, c.payload);
    }
  }

  /** The two-way merge on lines, with the tie rule of InternalSort. */
  function Merge(xs: seq<Line>, ys: seq<Line>): seq<Line>
    decreases |xs| + |ys|
  {
    if xs == [] then ys
    else if ys == [] then xs
    else if LineLe(xs[0], ys[0]) then [xs[0]] + Merge(xs[1..], ys)
    else [ys[0]] + Merge(xs, ys[1..])
  }

  /** The merge loses and invents no line. */
  lemma {:induction false} MergePermutation(xs: seq<Line>, ys: seq<Line>)
    ensures multiset(Merge(xs, ys)) == multiset(xs) + multiset(ys)
    decreases |xs| + |ys|
  {
    if xs != [] && ys != [] {
      if LineLe(xs[0], ys[0]) {
        var m := Merge(xs[1..], ys);
        MergePermutation(xs[1..], ys);
        assert Merge(xs, ys) == [xs[0]] + m;
        assert multiset([xs[0]] + m) == multiset([xs[0]]) + multiset(m);
        assert xs == [xs[0]] + xs[1..];
        assert multiset(xs) == multiset([xs[0]]) + multiset(xs[1..]);
      } else {
        var m := Merge(xs, ys[1..]);
        MergePermutation(xs, ys[1..]);
        assert Merge(xs, ys) == [ys[0]] + m;
        assert multiset([ys[0]] + m) == multiset([ys[0]]) + multiset(m);
        assert ys == [ys[0]] + ys[1..];
        assert multiset(ys) == multiset([ys[0]]) + multiset(ys[1..]);
      }
    }
  }

  lemma SortedCons(h: Line, m: seq<Line>)
    requires Sorted(m)
    requires forall z :: z in m ==> LineLe(h, z)
    ensures Sorted([h] + m)
  {
    forall i, j | 0 <= i < j < |[h] + m|
      ensures LineLe(([h] + m)[i], ([h] + m)[j])
    {
      if i > 0 {
        assert ([h] + m)[i] == m[i - 1] && ([h] + m)[j] == m[j - 1];
      } else {
        assert ([h] + m)[j] == m[j - 1];
      }
    }
  }

  lemma HeadIsLeast(xs: seq<Line>, z: Line)
    requires Sorted(xs) && xs != [] && z in xs
    ensures LineLe(xs[0], z)
  {
    var k :| 0 <= k < |xs| && xs[k] == z;
    if k == 0 {
      BufferCmpIsLexicographic(z.payload, z.payload);
    }
  }

  /** The merge of two sorted runs is sorted. */
  lemma {:induction false} MergeSorted(xs: seq<Line>, ys: seq<Line>)
    requires Sorted(xs) && Sorted(ys)
    ensures Sorted(Merge(xs, ys))
    decreases |xs| + |ys|
  {
    if xs != [] && ys != [] {
      if LineLe(xs[0], ys[0]) {
        var m := Merge(xs[1..], ys);
        MergeSorted(xs[1..], ys);
        MergePermutation(xs[1..], ys);
        forall z | z in m
          ensures LineLe(xs[0], z)
        {
          assert z in multiset(m);
          if z in xs[1..] {
            HeadIsLeast(xs, z);
          } else {
            assert z in ys;
            HeadIsLeast(ys, z);
            LineLeTransitive(xs[0], ys[0], z);
          }
        }
        SortedCons(xs[0], m);
      } else {
        var m := Merge(xs, ys[1..]);
        LineLeTotal(xs[0], ys[0]);
        MergeSorted(xs, ys[1..]);
        MergePermutation(xs, ys[1..]);
        forall z | z in m
          ensures LineLe(ys[0], z)
        {
          assert z in multiset(m);
          if z in ys[1..] {
            HeadIsLeast(ys, z);
          } else {
            assert z in xs;
            HeadIsLeast(xs, z);
            LineLeTransitive(ys[0], xs[0], z);
          }
        }
        SortedCons(ys[0], m);
      }
    }
  }

  // ---------------------------------------------------------------------------
  // The byte-level loop against the merge on lines
  // ---------------------------------------------------------------------------

  /** A line the merge can carry: well formed, with a non-empty payload (an empty one reads as end of file). */
  predicate Mergeable(l: Line)
  {
    WellFormed(l) && l.payload != []
  }

  predicate AllMergeable(ls: seq<Line>)
  {
    forall i :: 0 <= i < |ls| ==> Mergeable(ls[i])
  }

  /** The lines an input of the merge still holds: its pending line (if any) and the encoded lines after pos. */
  ghost predicate Decodes(file: seq<byte>, c: Cursor, ls: seq<Line>)
  {
    c.pos <= |file| && AllMergeable(ls)
    && if c.buffer == [] then ls == [] && c.pos == |file|
       else ls != [] && ls[0] == Line(c.number, c.buffer) && file[c.pos..] == EncodeLines(ls[1..])
  }

  /** ReadLine at the start of encoded lines yields a cursor for exactly those lines. */
  lemma ReadNext(file: seq<byte>, pos: nat, rest: seq<Line>)
    requires pos <= |file| && file[pos..] == EncodeLines(rest) && AllMergeable(rest)
    ensures Decodes(file, ReadLineFrom(file, pos, true, 0, []), rest)
  {
    if rest == [] {
      assert |file[pos..]| == 0;
    } else {
      var e := EncodeLine(rest[0]);
      assert file[pos..] == e + EncodeLines(rest[1..]);
      assert file[pos..pos + |e|] == file[pos..][..|e|];
      ReadEncodedLine(file, pos, rest[0]);
      assert file[pos + |e|..] == file[pos..][|e|..];
    }
  }

  /** One step of Merge, encoded: the line taken first, then the encoding of the rest of the merge. */
  lemma EncodeMergeStep(xs: seq<Line>, ys: seq<Line>)
    requires xs != [] && ys != []
    ensures LineLe(xs[0], ys[0]) ==> EncodeLines(Merge(xs, ys)) == EncodeLine(xs[0]) + EncodeLines(Merge(xs[1..], ys))
    ensures !LineLe(xs[0], ys[0]) ==> EncodeLines(Merge(xs, ys)) == EncodeLine(ys[0]) + EncodeLines(Merge(xs, ys[1..]))
  {
    if LineLe(xs[0], ys[0]) {
      assert ([xs[0]] + Merge(xs[1..], ys))[1..] == Merge(xs[1..], ys);
    } else {
      assert ([ys[0]] + Merge(xs, ys[1..]))[1..] == Merge(xs, ys[1..]);
    }
  }

  /** When one input is exhausted, the merge loop re-emits the pending line of the other and copies its rest. */
  lemma DrainDecoded(file: seq<byte>, c: Cursor, ls: seq<Line>)
    requires Decodes(file, c, ls) && c.buffer != []
    ensures EncodeLine(Line(c.number, c.buffer)) + file[c.pos..] == EncodeLines(ls)
    ensures Merge(ls, []) == ls && Merge([], ls) == ls
  {
    assert ls == [ls[0]] + ls[1..];
  }

  /** The merge loop's step that takes the first input's pending line, against the step of Merge. */
  lemma TakeFirstStep(file1: seq<byte>, file2: seq<byte>, c1: Cursor, c2: Cursor,
                      xs: seq<Line>, ys: seq<Line>, polls: nat, cancel: nat -> bool)
    requires Decodes(file1, c1, xs) && Decodes(file2, c2, ys)
    requires c1.buffer != [] && c2.buffer != [] && !cancel(polls) && LineLe(xs[0], ys[0])
    requires MergeFrom(file1, file2, ReadLineFrom(file1, c1.pos, true, 0, []), c2, polls + 1, cancel)
             == EncodeLines(Merge(xs[1..], ys))
    ensures MergeFrom(file1, file2, c1, c2, polls, cancel) == EncodeLines(Merge(xs, ys))
  {
    EncodeMergeStep(xs, ys);
  }

  /** The merge loop's step that takes the second input's pending line, against the step of Merge. */
  lemma TakeSecondStep(file1: seq<byte>, file2: seq<byte>, c1: Cursor, c2: Cursor,
                       xs: seq<Line>, ys: seq<Line>, polls: nat, cancel: nat -> bool)
    requires Decodes(file1, c1, xs) && Decodes(file2, c2, ys)
    requires c1.buffer != [] && c2.buffer != [] && !cancel(polls) && !LineLe(xs[0], ys[0])
    requires MergeFrom(file1, file2, c1, ReadLineFrom(file2, c2.pos, true, 0, []), polls + 1, cancel)
             == EncodeLines(Merge(xs, ys[1..]))
    ensures MergeFrom(file1, file2, c1, c2, polls, cancel) == EncodeLines(Merge(xs, ys))
  {
    EncodeMergeStep(xs, ys);
  }

  /** From any state that decodes xs and ys, an uncancelled merge loop writes the encoding of Merge(xs, ys). */
  lemma {:induction false} MergeFromDecoded(file1: seq<byte>, file2: seq<byte>, c1: Cursor, c2: Cursor,
                                            xs: seq<Line>, ys: seq<Line>, polls: nat, cancel: nat -> bool)
    requires Decodes(file1, c1, xs) && Decodes(file2, c2, ys)
    requires forall i :: !cancel(i)
    ensures MergeFrom(file1, file2, c1, c2, polls, cancel) == EncodeLines(Merge(xs, ys))
    decreases Remaining(file1, file2, c1, c2)
  {
    assert !cancel(polls);
    if c1.buffer == [] && c2.buffer == [] {
    } else if c2.buffer == [] {
      DrainDecoded(file1, c1, xs);
    } else if c1.buffer == [] {
      DrainDecoded(file2, c2, ys);
    } else if LineLe(xs[0], ys[0]) {
      var n1 := ReadLineFrom(file1, c1.pos, true, 0, []);
      ReadNext(file1, c1.pos, xs[1..]);
      MergeFromDecoded(file1, file2, n1, c2, xs[1..], ys, polls + 1, cancel);
      TakeFirstStep(file1, file2, c1, c2, xs, ys, polls, cancel);
    } else {
      var n2 := ReadLineFrom(file2, c2.pos, true, 0, []);
      ReadNext(file2, c2.pos, ys[1..]);
      MergeFromDecoded(file1, file2, c1, n2, xs, ys[1..], polls + 1, cancel);
      TakeSecondStep(file1, file2, c1, c2, xs, ys, polls, cancel);
    }
  }

  /**
   * Sorted union: InternalSort over two sorted runs of well-formed lines with non-empty
   * payloads, left uncancelled, writes the encoding of their merge, which is sorted and
   * holds exactly the lines of both runs.
   */
  lemma InternalSortMergesSortedRuns(xs: seq<Line>, ys: seq<Line>, cancel: nat -> bool)
    requires AllMergeable(xs) && AllMergeable(ys) && Sorted(xs) && Sorted(ys)
    requires forall i :: !cancel(i)
    ensures MergeOutput(EncodeLines(xs), EncodeLines(ys), cancel) == EncodeLines(Merge(xs, ys))
    ensures Sorted(Merge(xs, ys))
    ensures multiset(Merge(xs, ys)) == multiset(xs) + multiset(ys)
  {
    ReadNext(EncodeLines(xs), 0, xs);
    ReadNext(EncodeLines(ys), 0, ys);
    MergeFromDecoded(EncodeLines(xs), EncodeLines(ys),
      ReadLineFrom(EncodeLines(xs), 0, true, 0, []), ReadLineFrom(EncodeLines(ys), 0, true, 0, []),
      xs, ys, 0, cancel);
    MergeSorted(xs, ys);
    MergePermutation(xs, ys);
  }

  function NeverCancelled(i: nat): bool { false }

  lemma {:induction false} CancelledMergeFromIsPrefix(file1: seq<byte>, file2: seq<byte>, c1: Cursor, c2: Cursor, polls: nat, cancel: nat -> bool)
    requires c1.pos <= |file1| && c2.pos <= |file2|
    ensures MergeFrom(file1, file2, c1, c2, polls, cancel) <= MergeFrom(file1, file2, c1, c2, polls, NeverCancelled)
    decreases Remaining(file1, file2, c1, c2)
  {
    if (c1.buffer != [] || c2.buffer != []) && !cancel(polls) && c1.buffer != [] && c2.buffer != [] {
      if TakeFirst(c1.number, c1.buffer, c2.number, c2.buffer) {
        CancelledMergeFromIsPrefix(file1, file2, ReadLineFrom(file1, c1.pos, true, 0, []), c2, polls + 1, cancel);
      } else {
        CancelledMergeFromIsPrefix(file1, file2, c1, ReadLineFrom(file2, c2.pos, true, 0, []), polls + 1, cancel);
      }
    }
  }

  /** A cancelled merge leaves a partial output: a prefix of what the full merge writes. */
  lemma CancelledMergeIsPrefix(file1: seq<byte>, file2: seq<byte>, cancel: nat -> bool)
    ensures MergeOutput(file1, file2, cancel) <= MergeOutput(file1, file2, NeverCancelled)
  {
    CancelledMergeFromIsPrefix(file1, file2,
      ReadLineFrom(file1, 0, true, 0, []), ReadLineFrom(file2, 0, true, 0, []), 0, cancel);
  }

  /**
   * An empty payload reads as the end of its file: if the first run starts with such a
   * line, none of its lines reach the output, which is just the second run.
   */
  lemma EmptyPayloadEndsRun(l: Line, rest: seq<Line>, ys: seq<Line>, cancel: nat -> bool)
    requires WellFormed(l) && l.payload == []
    requires AllMergeable(ys)
    requires forall i :: !cancel(i)
    ensures MergeOutput(EncodeLines([l] + rest), EncodeLines(ys), cancel) == EncodeLines(ys)
  {
    var f1 := EncodeLines([l] + rest);
    assert f1 == EncodeLine(l) + EncodeLines(rest);
    WriteThenReadLine(l, EncodeLines(rest));
    ReadNext(EncodeLines(ys), 0, ys);
    if ys != [] {
      assert !cancel(0);
      assert ys == [ys[0]] + ys[1..];
    }
  }

  /**
   * Wherever the loop reads run 1's next line, an empty payload there ends run 1: from that
   * point the output is the other run's remaining lines, and no byte of run 1 after that
   * line reaches the output.
   */
  lemma EmptyLineEndsRun1(file1: seq<byte>, file2: seq<byte>, pos: nat, l: Line, c2: Cursor, ys: seq<Line>,
                          polls: nat, cancel: nat -> bool)
    requires WellFormed(l) && l.payload == [] && EncodedAt(file1, pos, l)
    requires Decodes(file2, c2, ys)
    requires forall i :: !cancel(i)
    ensures MergeFrom(file1, file2, ReadLineFrom(file1, pos, true, 0, []), c2, polls, cancel) == EncodeLines(ys)
  {
    ReadEncodedLine(file1, pos, l);
    if c2.buffer != [] {
      assert !cancel(polls);
      DrainDecoded(file2, c2, ys);
    }
  }

  /** The same for run 2: an empty payload read there leaves the output to run 1's remaining lines. */
  lemma EmptyLineEndsRun2(file1: seq<byte>, file2: seq<byte>, c1: Cursor, xs: seq<Line>, pos: nat, l: Line,
                          polls: nat, cancel: nat -> bool)
    requires Decodes(file1, c1, xs)
    requires WellFormed(l) && l.payload == [] && EncodedAt(file2, pos, l)
    requires forall i :: !cancel(i)
    ensures MergeFrom(file1, file2, c1, ReadLineFrom(file2, pos, true, 0, []), polls, cancel) == EncodeLines(xs)
  {
    ReadEncodedLine(file2, pos, l);
    if c1.buffer != [] {
      assert !cancel(polls);
      DrainDecoded(file1, c1, xs);
    }
  }
}
