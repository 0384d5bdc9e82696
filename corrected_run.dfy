/**
 * The run file the corrected ReadLines, comparer and writer produce: when every bucket list
 * holds the corrected keys of lines of that bucket, sorted by the corrected comparer, the
 * run is the encoding of those lines, bucket after bucket, and the lines are in the order
 * the merge expects.
 */
module CorrectedRun {
  import opened Bytes
  import opened Lines
  import opened ExternalMerge
  import opened MergeCorrectness
  import opened FileSorter
  import opened ChunkKeys
  import opened ComparatorOrder
  import opened RunText
  import opened CorrectedChunk

  /** item is the corrected key of the line l encoded at pos, which belongs to bucket b. */
  predicate LineKey(w: seq<byte>, b: byte, item: FileItem, l: Line, pos: nat)
  {
    WellFormed(l) && NulFree(l.payload) && EncodedAt(w, pos, l)
    && BucketOf(l.payload) == b && item == KeyFixed(l, pos)
  }

  /** The list of bucket b holds the keys of the lines ls, encoded at the positions poss. */
  predicate BucketKeys(w: seq<byte>, b: byte, items: seq<FileItem>, ls: seq<Line>, poss: seq<nat>)
  {
    |items| == |ls| == |poss|
    && forall i :: 0 <= i < |ls| ==> LineKey(w, b, items[i], ls[i], poss[i])
  }

  /** What List.Sort leaves behind: each key compares at most equal to the next one. */
  predicate SortedByFixed(w: seq<byte>, items: seq<FileItem>)
  {
    forall i :: 0 <= i < |items| - 1 ==>
      CompareFixed(w, items[i], items[i + 1]).Some? && CompareFixed(w, items[i], items[i + 1]).value <= 0
  }

  /** A bucket list sorted by the corrected comparer holds its lines in the merge's order. */
  lemma {:induction false} SortedBucketIsSorted(w: seq<byte>, b: byte, items: seq<FileItem>, ls: seq<Line>, poss: seq<nat>)
    requires BucketKeys(w, b, items, ls, poss) && SortedByFixed(w, items)
    ensures Sorted(ls)
    decreases |ls|
  {
    if |ls| >= 2 {
      assert BucketKeys(w, b, items[1..], ls[1..], poss[1..]) by {
        forall i | 0 <= i < |ls| - 1
          ensures LineKey(w, b, items[1..][i], ls[1..][i], poss[1..][i])
        {
          assert LineKey(w, b, items[i + 1], ls[i + 1], poss[i + 1]);
        }
      }
      assert SortedByFixed(w, items[1..]) by {
        forall i | 0 <= i < |items| - 2
          ensures CompareFixed(w, items[1..][i], items[1..][i + 1]).Some?
          ensures CompareFixed(w, items[1..][i], items[1..][i + 1]).value <= 0
        {
          assert items[1..][i] == items[i + 1] && items[1..][i + 1] == items[i + 2];
        }
      }
      SortedBucketIsSorted(w, b, items[1..], ls[1..], poss[1..]);
      assert LineKey(w, b, items[0], ls[0], poss[0]) && LineKey(w, b, items[1], ls[1], poss[1]);
      CompareFixedAgrees(w, poss[0], ls[0], poss[1], ls[1]);
      assert LineLe(ls[0], ls[1]);
      forall i, j | 0 <= i < j < |ls|
        ensures LineLe(ls[i], ls[j])
      {
        if i > 0 {
          assert LineLe(ls[1..][i - 1], ls[1..][j - 1]);
        } else if j > 1 {
          assert LineLe(ls[1..][0], ls[1..][j - 1]);
          LineLeTransitive(ls[0], ls[1], ls[j]);
        }
      }
    }
  }

  /** The corrected writer's text for one bucket list: every key in list order. */
  function BucketTextFixed(w: seq<byte>, b: byte, items: seq<FileItem>): seq<byte>
    requires forall j :: 0 <= j < |items| ==> Writable(items[j])
  {
    if items == [] then [] else ItemTextFixed(w, b, items[0]) + BucketTextFixed(w, b, items[1..])
  }

  /** The corrected writer gives back the lines of a bucket exactly, in list order. */
  lemma {:induction false} BucketTextFixedRestores(w: seq<byte>, b: byte, items: seq<FileItem>, ls: seq<Line>, poss: seq<nat>)
    requires BucketKeys(w, b, items, ls, poss)
    ensures forall j :: 0 <= j < |items| ==> Writable(items[j])
    ensures BucketTextFixed(w, b, items) == EncodeLines(ls)
    decreases |ls|
  {
    forall j | 0 <= j < |items|
      ensures Writable(items[j])
    {
      assert LineKey(w, b, items[j], ls[j], poss[j]);
      WriterFixedRestoresLine(w, poss[j], ls[j]);
    }
    if ls != [] {
      assert BucketKeys(w, b, items[1..], ls[1..], poss[1..]) by {
        forall i | 0 <= i < |ls| - 1
          ensures LineKey(w, b, items[1..][i], ls[1..][i], poss[1..][i])
        {
          assert LineKey(w, b, items[i + 1], ls[i + 1], poss[i + 1]);
        }
      }
      BucketTextFixedRestores(w, b, items[1..], ls[1..], poss[1..]);
      assert LineKey(w, b, items[0], ls[0], poss[0]);
      WriterFixedRestoresLine(w, poss[0], ls[0]);
    }
  }

  /** The corrected run file from bucket i on, the token never set. */
  function RunFixed(w: seq<byte>, lists: seq<seq<FileItem>>, i: nat): seq<byte>
    requires |lists| == 256 && i <= 256 && AllWritable(lists)
    decreases 256 - i
  {
    if i == 256 then [] else BucketTextFixed(w, i, lists[i]) + RunFixed(w, lists, i + 1)
  }

  /** The lines of buckets i, i + 1, ... in that order. */
  function Flatten(lss: seq<seq<Line>>, i: nat): seq<Line>
    requires i <= |lss|
    decreases |lss| - i
  {
    if i == |lss| then [] else lss[i] + Flatten(lss, i + 1)
  }

  /** Every bucket list holds the sorted keys of lines of that bucket. */
  predicate RunKeys(w: seq<byte>, lists: seq<seq<FileItem>>, lss: seq<seq<Line>>, posss: seq<seq<nat>>)
  {
    |lists| == 256 && |lss| == 256 && |posss| == 256
    && forall b :: 0 <= b < 256 ==> BucketKeys(w, b, lists[b], lss[b], posss[b]) && SortedByFixed(w, lists[b])
  }

  lemma RunKeysWritable(w: seq<byte>, lists: seq<seq<FileItem>>, lss: seq<seq<Line>>, posss: seq<seq<nat>>)
    requires RunKeys(w, lists, lss, posss)
    ensures AllWritable(lists)
  {
    forall b | 0 <= b < 256
      ensures forall j :: 0 <= j < |lists[b]| ==> Writable(lists[b][j])
    {
      BucketTextFixedRestores(w, b, lists[b], lss[b], posss[b]);
    }
  }

  /** A line of a lower bucket comes before a line of a higher one. */
  lemma LowerBucketFirst(a: Line, c: Line)
    requires BucketOf(a.payload) < BucketOf(c.payload)
    ensures LineCmp(a, c) == -1
  {
    BufferCmpIsLexicographic(a.payload, c.payload);
    if a.payload != [] {
      assert a.payload[..0] == c.payload[..0];
    }
  }

  lemma {:induction false} FlattenBuckets(w: seq<byte>, lists: seq<seq<FileItem>>, lss: seq<seq<Line>>, posss: seq<seq<nat>>, i: nat)
    requires RunKeys(w, lists, lss, posss) && i <= 256
    ensures forall k :: 0 <= k < |Flatten(lss, i)| ==> BucketOf(Flatten(lss, i)[k].payload) >= i
    decreases 256 - i
  {
    if i < 256 {
      FlattenBuckets(w, lists, lss, posss, i + 1);
      var f := Flatten(lss, i);
      forall k | 0 <= k < |f|
        ensures BucketOf(f[k].payload) >= i
      {
        if k < |lss[i]| {
          assert BucketKeys(w, i, lists[i], lss[i], posss[i]);
          assert LineKey(w, i, lists[i][k], lss[i][k], posss[i][k]);
        } else {
          assert f[k] == Flatten(lss, i + 1)[k - |lss[i]|];
        }
      }
    }
  }

  lemma SortedAppend(xs: seq<Line>, ys: seq<Line>)
    requires Sorted(xs) && Sorted(ys)
    requires forall i, j :: 0 <= i < |xs| && 0 <= j < |ys| ==> LineLe(xs[i], ys[j])
    ensures Sorted(xs + ys)
  {
    forall i, j | 0 <= i < j < |xs + ys|
      ensures LineLe((xs + ys)[i], (xs + ys)[j])
    {
      if j < |xs| {
        assert LineLe(xs[i], xs[j]);
      } else if i < |xs| {
        assert LineLe(xs[i], ys[j - |xs|]);
      } else {
        assert LineLe(ys[i - |xs|], ys[j - |xs|]);
      }
    }
  }

  /**
   * The corrected run: the encoding of the lines of every bucket, bucket after bucket,
   * in list order, and those lines are sorted as the merge of runs requires.
   */
  lemma {:induction false} CorrectedRunIsSorted(w: seq<byte>, lists: seq<seq<FileItem>>, lss: seq<seq<Line>>, posss: seq<seq<nat>>, i: nat)
    requires RunKeys(w, lists, lss, posss) && i <= 256
    ensures AllWritable(lists)
    ensures RunFixed(w, lists, i) == EncodeLines(Flatten(lss, i))
    ensures Sorted(Flatten(lss, i))
    decreases 256 - i
  {
    RunKeysWritable(w, lists, lss, posss);
    if i < 256 {
      CorrectedRunIsSorted(w, lists, lss, posss, i + 1);
      assert BucketKeys(w, i, lists[i], lss[i], posss[i]) && SortedByFixed(w, lists[i]);
      BucketTextFixedRestores(w, i, lists[i], lss[i], posss[i]);
      EncodeLinesAppend(lss[i], Flatten(lss, i + 1));
      SortedBucketIsSorted(w, i, lists[i], lss[i], posss[i]);
      FlattenBuckets(w, lists, lss, posss, i + 1);
      var rest := Flatten(lss, i + 1);
      forall a, c | 0 <= a < |lss[i]| && 0 <= c < |rest|
        ensures LineLe(lss[i][a], rest[c])
      {
        assert LineKey(w, i, lists[i][a], lss[i][a], posss[i][a]);
        LowerBucketFirst(lss[i][a], rest[c]);
      }
      SortedAppend(lss[i], rest);
    }
  }

  // ---------------------------------------------------------------------------
  // The run holds the chunk's lines
  // ---------------------------------------------------------------------------

  /** The entries the corrected ReadLines files for the lines ls encoded one after the other from pos on. */
  function FixedKeysFrom(ls: seq<Line>, pos: int): (r: seq<Entry>)
    ensures |r| == |ls|
  {
    if ls == [] then [] else [Entry(BucketOf(ls[0].payload), KeyFixed(ls[0], pos))] + FixedKeysFrom(ls[1..], pos + |EncodeLine(ls[0])|)
  }

  /** The corrected ReadLines files what ReadLines files, line by line, with the left-aligned prefix. */
  lemma {:induction false} FixedKeysAreKeys(ls: seq<Line>, pos: int, k: nat)
    requires k < |ls|
    ensures FixedKeysFrom(ls, pos)[k].bucket == KeysFrom(ls, pos)[k].bucket
    ensures FixedKeysFrom(ls, pos)[k].item == KeysFrom(ls, pos)[k].item.(prefix := FixedPrefix(ls[k].payload))
    decreases k
  {
    if k > 0 {
      var next := pos + |EncodeLine(ls[0])|;
      FixedKeysAreKeys(ls[1..], next, k - 1);
      assert FixedKeysFrom(ls, pos)[k] == FixedKeysFrom(ls[1..], next)[k - 1];
      assert KeysFrom(ls, pos)[k] == KeysFrom(ls[1..], next)[k - 1];
    }
  }

  /** 256 empty bucket lists, as the sorter allocates them for a chunk. */
  function EmptyLists(): (r: seq<seq<FileItem>>)
    ensures |r| == 256 && forall b :: 0 <= b < 256 ==> r[b] == []
  {
    seq(256, _ => [])
  }

  /** The line the corrected writer's text for a key spells, as ReadLine reads it back. */
  function LineOfKey(w: seq<byte>, b: byte, item: FileItem): Line
  {
    if Writable(item) then
      var c := ReadLineFrom(ItemTextFixed(w, b, item), 0, true, 0, []);
      Line(c.number, c.buffer)
    else Line(0, [])
  }

  /** A corrected key names its line: the writer and ReadLine give that line back. */
  lemma KeyGivesLine(w: seq<byte>, b: byte, item: FileItem, l: Line, pos: nat)
    requires LineKey(w, b, item, l, pos)
    ensures LineOfKey(w, b, item) == l
  {
    WriterFixedRestoresLine(w, pos, l);
    WriteThenReadLine(l, []);
    assert EncodeLine(l) + [] == EncodeLine(l);
  }

  /** The decoder for the keys of bucket b, as a function value. */
  function Decoder(w: seq<byte>, b: byte): FileItem -> Line
  {
    item => LineOfKey(w, b, item)
  }

  /** The lines a decoder gives for the keys, in order. */
  function MapLines(f: FileItem -> Line, items: seq<FileItem>): (r: seq<Line>)
    ensures |r| == |items|
  {
    if items == [] then [] else [f(items[0])] + MapLines(f, items[1..])
  }

  lemma {:induction false} MapLinesAppend(f: FileItem -> Line, xs: seq<FileItem>, ys: seq<FileItem>)
    ensures MapLines(f, xs + ys) == MapLines(f, xs) + MapLines(f, ys)
    decreases |xs|
  {
    if xs == [] {
      assert xs + ys == ys;
    } else {
      assert (xs + ys)[1..] == xs[1..] + ys;
      MapLinesAppend(f, xs[1..], ys);
    }
  }

  /** The keys of a bucket list name exactly the lines it was built from. */
  lemma {:induction false} MapLinesOfKeys(w: seq<byte>, b: byte, items: seq<FileItem>, ls: seq<Line>, poss: seq<nat>)
    requires BucketKeys(w, b, items, ls, poss)
    ensures MapLines(Decoder(w, b), items) == ls
    decreases |ls|
  {
    if ls != [] {
      assert BucketKeys(w, b, items[1..], ls[1..], poss[1..]) by {
        forall i | 0 <= i < |ls| - 1
          ensures LineKey(w, b, items[1..][i], ls[1..][i], poss[1..][i])
        {
          assert LineKey(w, b, items[i + 1], ls[i + 1], poss[i + 1]);
        }
      }
      MapLinesOfKeys(w, b, items[1..], ls[1..], poss[1..]);
      assert LineKey(w, b, items[0], ls[0], poss[0]);
      KeyGivesLine(w, b, items[0], ls[0], poss[0]);
    }
  }

  /** Reordering keys reorders the lines they name the same way. */
  lemma {:induction false} MapLinesPermutes(f: FileItem -> Line, xs: seq<FileItem>, ys: seq<FileItem>)
    requires multiset(xs) == multiset(ys)
    ensures multiset(MapLines(f, xs)) == multiset(MapLines(f, ys))
    decreases |xs|
  {
    if xs == [] {
      assert |ys| == |multiset(ys)| == 0;
    } else {
      var x := xs[0];
      assert x in multiset(ys);
      var j :| 0 <= j < |ys| && ys[j] == x;
      var rest := ys[..j] + ys[j + 1..];
      assert ys == ys[..j] + [x] + ys[j + 1..];
      assert xs == [x] + xs[1..];
      assert multiset(xs[1..]) == multiset(xs) - multiset{x};
      assert multiset(ys) == multiset(ys[..j]) + multiset{x} + multiset(ys[j + 1..]);
      assert multiset(rest) == multiset(ys) - multiset{x};
      MapLinesPermutes(f, xs[1..], rest);
      MapLinesAppend(f, ys[..j] + [x], ys[j + 1..]);
      MapLinesAppend(f, ys[..j], [x]);
      MapLinesAppend(f, ys[..j], ys[j + 1..]);
      MapLinesAppend(f, [x], xs[1..]);
    }
  }

  /** The lines of ls in bucket b, in order. */
  function LinesInBucket(ls: seq<Line>, b: int): (r: seq<Line>)
    ensures |r| <= |ls|
  {
    if ls == [] then [] else (if BucketOf(ls[0].payload) == b then [ls[0]] else []) + LinesInBucket(ls[1..], b)
  }

  /** The lines of ls in bucket b or a later one, in order. */
  function LinesFromBucket(ls: seq<Line>, b: int): (r: seq<Line>)
    ensures |r| <= |ls|
  {
    if ls == [] then [] else (if BucketOf(ls[0].payload) >= b then [ls[0]] else []) + LinesFromBucket(ls[1..], b)
  }

  lemma {:induction false} SplitAtBucket(ls: seq<Line>, b: int)
    ensures multiset(LinesFromBucket(ls, b)) == multiset(LinesInBucket(ls, b)) + multiset(LinesFromBucket(ls, b + 1))
    decreases |ls|
  {
    if ls != [] {
      SplitAtBucket(ls[1..], b);
    }
  }

  lemma {:induction false} EveryBucketFromZero(ls: seq<Line>)
    ensures LinesFromBucket(ls, 0) == ls
    decreases |ls|
  {
    if ls != [] {
      EveryBucketFromZero(ls[1..]);
    }
  }

  lemma {:induction false} NoBucketFrom256(ls: seq<Line>)
    ensures LinesFromBucket(ls, 256) == []
    decreases |ls|
  {
    if ls != [] {
      NoBucketFrom256(ls[1..]);
    }
  }

  /** The lines ls are encoded one after the other in w from pos on. */
  predicate LinesAt(w: seq<byte>, pos: int, ls: seq<Line>)
  {
    0 <= pos && pos + |EncodeLines(ls)| <= |w| && w[pos..pos + |EncodeLines(ls)|] == EncodeLines(ls)
  }

  lemma SliceSplit(w: seq<byte>, pos: int, a: seq<byte>, b: seq<byte>)
    requires 0 <= pos && pos + |a| + |b| <= |w| && w[pos..pos + |a| + |b|] == a + b
    ensures w[pos..pos + |a|] == a && w[pos + |a|..pos + |a| + |b|] == b
  {
    assert w[pos..pos + |a|] == w[pos..pos + |a| + |b|][..|a|];
    assert w[pos + |a|..pos + |a| + |b|] == w[pos..pos + |a| + |b|][|a|..];
  }

  lemma LinesAtStep(w: seq<byte>, pos: int, ls: seq<Line>)
    requires LinesAt(w, pos, ls) && ls != []
    ensures EncodedAt(w, pos, ls[0]) && LinesAt(w, pos + |EncodeLine(ls[0])|, ls[1..])
  {
    assert EncodeLines(ls) == EncodeLine(ls[0]) + EncodeLines(ls[1..]);
    SliceSplit(w, pos, EncodeLine(ls[0]), EncodeLines(ls[1..]));
  }

  /** The keys filed under bucket b: the first line's key if it belongs there, then those of the rest. */
  lemma InBucketStep(ls: seq<Line>, pos: int, next: int, b: byte)
    requires ls != [] && next == pos + |EncodeLine(ls[0])|
    ensures InBucket(FixedKeysFrom(ls, pos), b)
      == (if BucketOf(ls[0].payload) == b then [KeyFixed(ls[0], pos)] else []) + InBucket(FixedKeysFrom(ls[1..], next), b)
  {
    assert FixedKeysFrom(ls, pos)[1..] == FixedKeysFrom(ls[1..], next);
  }

  /** Well-formed lines with NUL-free payloads, the lines the corrected key decodes. */
  predicate GoodLines(ls: seq<Line>)
  {
    forall k :: 0 <= k < |ls| ==> WellFormed(ls[k]) && NulFree(ls[k].payload)
  }

  lemma GoodLinesTail(ls: seq<Line>)
    requires GoodLines(ls) && ls != []
    ensures WellFormed(ls[0]) && NulFree(ls[0].payload) && GoodLines(ls[1..])
  {
    forall k | 0 <= k < |ls| - 1
      ensures WellFormed(ls[1..][k]) && NulFree(ls[1..][k].payload)
    {
      assert ls[1..][k] == ls[k + 1];
    }
  }

  /** Decoding the keys filed under bucket b gives the lines of bucket b, in file order. */
  lemma {:induction false} DecodeBucket(w: seq<byte>, ls: seq<Line>, pos: nat, b: byte)
    requires LinesAt(w, pos, ls) && GoodLines(ls)
    ensures MapLines(Decoder(w, b), InBucket(FixedKeysFrom(ls, pos), b)) == LinesInBucket(ls, b)
    decreases |ls|
  {
    if ls != [] {
      var next: nat := pos + |EncodeLine(ls[0])|;
      LinesAtStep(w, pos, ls);
      GoodLinesTail(ls);
      DecodeBucket(w, ls[1..], next, b);
      var f, key := Decoder(w, b), KeyFixed(ls[0], pos);
      if BucketOf(ls[0].payload) == b {
        KeyGivesLine(w, b, key, ls[0], pos);
        assert f(key) == ls[0];
      }
      var tail := InBucket(FixedKeysFrom(ls[1..], next), b);
      InBucketStep(ls, pos, next, b);
      DecodeBucketStep(f, ls, b, InBucket(FixedKeysFrom(ls, pos), b), key, tail);
    }
  }

  /** One line of DecodeBucket: a decoder that gives the first line back from its key, on that key and the tail's keys. */
  lemma DecodeBucketStep(f: FileItem -> Line, ls: seq<Line>, b: byte, items: seq<FileItem>, key: FileItem, tail: seq<FileItem>)
    requires ls != []
    requires items == (if BucketOf(ls[0].payload) == b then [key] else []) + tail
    requires BucketOf(ls[0].payload) == b ==> f(key) == ls[0]
    requires MapLines(f, tail) == LinesInBucket(ls[1..], b)
    ensures MapLines(f, items) == LinesInBucket(ls, b)
  {
    var head := if BucketOf(ls[0].payload) == b then [key] else [];
    MapLinesAppend(f, head, tail);
    if BucketOf(ls[0].payload) == b {
      assert MapLines(f, head) == [ls[0]];
    }
  }

  lemma {:induction false} FlattenHoldsBuckets(lss: seq<seq<Line>>, ls: seq<Line>, i: nat)
    requires |lss| == 256 && i <= 256
    requires forall b :: 0 <= b < 256 ==> multiset(lss[b]) == multiset(LinesInBucket(ls, b))
    ensures multiset(Flatten(lss, i)) == multiset(LinesFromBucket(ls, i))
    decreases 256 - i
  {
    if i == 256 {
      NoBucketFrom256(ls);
    } else {
      FlattenHoldsBuckets(lss, ls, i + 1);
      SplitAtBucket(ls, i);
    }
  }

  /**
   * The state the corrected sorter writes from, for the lines ls it filed from the window
   * w, which sit one after the other from pos on (a later window starts on the previous
   * terminator's LF and runs past the chunk's last line): the lines well-formed and free
   * of the byte 0, every bucket list the keys the corrected ReadLines filed there,
   * reordered by List.Sort, and sorted by the corrected comparer.
   */
  predicate ChunkRun(w: seq<byte>, pos: nat, ls: seq<Line>, lists: seq<seq<FileItem>>, lss: seq<seq<Line>>, posss: seq<seq<nat>>)
  {
    LinesAt(w, pos, ls) && GoodLines(ls)
    && RunKeys(w, lists, lss, posss)
    && forall b :: 0 <= b < 256 ==> multiset(lists[b]) == multiset(Distribute(EmptyLists(), FixedKeysFrom(ls, pos))[b])
  }

  /**
   * The corrected sorter turns a chunk into a run: the run file is the encoding of the
   * lines filed from the window, sorted in the merge's order, and those lines are the
   * filed lines, each as often as it was filed.
   */
  lemma CorrectedRunSortsChunk(w: seq<byte>, pos: nat, ls: seq<Line>, lists: seq<seq<FileItem>>, lss: seq<seq<Line>>, posss: seq<seq<nat>>)
    requires ChunkRun(w, pos, ls, lists, lss, posss)
    ensures AllWritable(lists)
    ensures RunFixed(w, lists, 0) == EncodeLines(Flatten(lss, 0))
    ensures Sorted(Flatten(lss, 0))
    ensures multiset(Flatten(lss, 0)) == multiset(ls)
  {
    CorrectedRunIsSorted(w, lists, lss, posss, 0);
    forall b | 0 <= b < 256
      ensures multiset(lss[b]) == multiset(LinesInBucket(ls, b))
    {
      var filed := InBucket(FixedKeysFrom(ls, pos), b);
      DistributeContents(EmptyLists(), FixedKeysFrom(ls, pos), b);
      assert [] + filed == filed;
      MapLinesOfKeys(w, b, lists[b], lss[b], posss[b]);
      MapLinesPermutes(Decoder(w, b), lists[b], filed);
      DecodeBucket(w, ls, pos, b);
    }
    FlattenHoldsBuckets(lss, ls, 0);
    EveryBucketFromZero(ls);
  }

  /** The first chunk: a window that is exactly the encoding of its lines, all of them filed. */
  lemma FirstChunkRun(ls: seq<Line>, lists: seq<seq<FileItem>>, lss: seq<seq<Line>>, posss: seq<seq<nat>>)
    requires AllWellFormed(ls) && forall k :: 0 <= k < |ls| ==> NulFree(ls[k].payload)
    requires RunKeys(EncodeLines(ls), lists, lss, posss)
    requires forall b :: 0 <= b < 256 ==> multiset(lists[b]) == multiset(Distribute(EmptyLists(), FixedKeysFrom(ls, 0))[b])
    ensures ChunkRun(EncodeLines(ls), 0, ls, lists, lss, posss)
  {
    assert LinesAt(EncodeLines(ls), 0, ls);
  }
}
