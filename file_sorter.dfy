/**
 * The chunk pass of FileSorter.cs: ReadLines scans a window of the input into 256
 * buckets of compact keys, OffsetComparer orders the keys of one bucket, and
 * WriteSortedLists turns the (sorted) buckets back into lines of a run file.
 *
 * The memory-mapped view is a read-only `seq<byte>` (its Capacity is its length);
 * the bucket array is an `array` of lists that ReadLines appends to.
 */
module FileSorter {
  import opened Bytes
  import opened Lines
  import opened Streams

  datatype Option<T> = None | Some(value: T)

  /**
   * The key kept for one line: its number, up to four payload bytes after the
   * bucket byte packed into a `uint`, and the position of the sixth payload byte
   * (the first one the prefix does not hold), or -1 for a payload shorter than five bytes.
   */
  datatype FileItem = FileItem(number: int32, prefix: uint32, offset: int)

  /** A key together with the bucket (first payload byte) it is filed under. */
  datatype Entry = Entry(bucket: byte, item: FileItem)

  /** The local variables ReadLines carries from one byte to the next. */
  datatype Scan = Scan(isNumber: bool, number: int32, bucket: byte, prefix: uint32, itemOffset: int)

  /** The state at the start of a window and, but for itemOffset, after every terminator. */
  const Start: Scan := Scan(true, 0, 0, 0, -1)

  /** What a scan produces: the keys in file order and the offset the loop stopped at. */
  datatype ScanResult = ScanResult(entries: seq<Entry>, offset: int)

  /** `prefix = prefix << 8; prefix += b;` on a C# `uint`. */
  function ShiftIn(prefix: uint32, b: byte): (r: uint32)
    ensures r == (prefix * 256 + b) % TWO32
  {
    ((prefix * 256) % TWO32 + b) % TWO32
  }

  /** Every offset a scan stores: -1, or a position in the window no smaller than 4. */
  predicate StoredOffset(offset: int, w: seq<byte>)
  {
    offset == -1 || 4 <= offset < |w|
  }

  /**
   * The byte loop of ReadLines from offset `off` in state `st`, `lines` lines having been
   * read: a terminator files a key and stops the scan when its last byte lies at or past
   * chunkSize, or when the token (polled after each line, `cancel(lines + 1)`) is set.
   * The number part skips the byte after the dot; a byte that fits no branch is ignored.
   */
  function ScanFrom(w: seq<byte>, chunkSize: int, cancel: nat -> bool, off: int, st: Scan, lines: nat): (r: ScanResult)
    requires 0 <= off <= |w| + 1 && st.itemOffset >= -1
    ensures off <= r.offset <= |w| + 1
    decreases |w| + 1 - off
  {
    if off >= |w| then ScanResult([], off)
    else
      var b := w[off];
      if st.isNumber && IsDigit(b) then
        ScanFrom(w, chunkSize, cancel, off + 1, st.(number := AccumulateDigit(st.number, b)), lines)
      else if st.isNumber && b == Dot then
        ScanFrom(w, chunkSize, cancel, off + 2, st.(isNumber := false, itemOffset := off + 2), lines)
      else if b == NewLine[0] then
        var io := if off < st.itemOffset + 5 then -1 else st.itemOffset + 5;
        var e := Entry(st.bucket, FileItem(st.number, st.prefix, io));
        var o := off + |NewLine| - 1;
        if o >= chunkSize || cancel(lines + 1) then ScanResult([e], o)
        else
          var rest := ScanFrom(w, chunkSize, cancel, o + 1, Start.(itemOffset := io), lines + 1);
          ScanResult([e] + rest.entries, rest.offset)
      else if !st.isNumber && off < st.itemOffset + 5 then
        if off < st.itemOffset + 1 then ScanFrom(w, chunkSize, cancel, off + 1, st.(bucket := b), lines)
        else ScanFrom(w, chunkSize, cancel, off + 1, st.(prefix := ShiftIn(st.prefix, b)), lines)
      else
        ScanFrom(w, chunkSize, cancel, off + 1, st, lines)
  }

  function ScanWindow(w: seq<byte>, chunkSize: int, cancel: nat -> bool): ScanResult
  {
    ScanFrom(w, chunkSize, cancel, 0, Start, 0)
  }

  /**
   * Where a scan can stop and what it stores: it ends at the end of the window or right
   * after a terminator byte that filed a key, and every stored offset is -1 or a position
   * of the window no smaller than 4.
   */
  predicate ScanEnds(w: seq<byte>, r: ScanResult)
  {
    (r.offset >= |w| || (r.offset >= 1 && |r.entries| > 0 && w[r.offset - 1] == NewLine[0]))
    && forall i :: 0 <= i < |r.entries| ==> StoredOffset(r.entries[i].item.offset, w)
  }

  /** Every scan ReadLines can run ends as ScanEnds says. */
  lemma {:induction false} ScanOutcome(w: seq<byte>, chunkSize: int, cancel: nat -> bool, off: int, st: Scan, lines: nat)
    requires 0 <= off <= |w| + 1 && st.itemOffset >= -1
    ensures ScanEnds(w, ScanFrom(w, chunkSize, cancel, off, st, lines))
    decreases |w| + 1 - off, 1
  {
    if off < |w| {
      var b := w[off];
      if st.isNumber && IsDigit(b) {
        ScanOutcome(w, chunkSize, cancel, off + 1, st.(number := AccumulateDigit(st.number, b)), lines);
      } else if st.isNumber && b == Dot {
        ScanOutcome(w, chunkSize, cancel, off + 2, st.(isNumber := false, itemOffset := off + 2), lines);
      } else if b == NewLine[0] {
        ScanOutcomeAtTerminator(w, chunkSize, cancel, off, st, lines);
      } else if !st.isNumber && off < st.itemOffset + 5 {
        if off < st.itemOffset + 1 {
          ScanOutcome(w, chunkSize, cancel, off + 1, st.(bucket := b), lines);
        } else {
          ScanOutcome(w, chunkSize, cancel, off + 1, st.(prefix := ShiftIn(st.prefix, b)), lines);
        }
      } else {
        ScanOutcome(w, chunkSize, cancel, off + 1, st, lines);
      }
    }
  }

  /** At a terminator the scan files a key whose offset is -1 or lies in the window. */
  lemma {:induction false} ScanOutcomeAtTerminator(w: seq<byte>, chunkSize: int, cancel: nat -> bool, off: int, st: Scan, lines: nat)
    requires 0 <= off < |w| && st.itemOffset >= -1
    requires w[off] == NewLine[0] && !(st.isNumber && IsDigit(w[off])) && !(st.isNumber && w[off] == Dot)
    ensures ScanEnds(w, ScanFrom(w, chunkSize, cancel, off, st, lines))
    decreases |w| + 1 - off, 0
  {
    var io := if off < st.itemOffset + 5 then -1 else st.itemOffset + 5;
    var e := Entry(st.bucket, FileItem(st.number, st.prefix, io));
    var o := off + |NewLine| - 1;
    assert StoredOffset(io, w);
    if o >= chunkSize || cancel(lines + 1) {
      assert ScanFrom(w, chunkSize, cancel, off, st, lines) == ScanResult([e], o);
    } else {
      var rest := ScanFrom(w, chunkSize, cancel, o + 1, Start.(itemOffset := io), lines + 1);
      ScanOutcome(w, chunkSize, cancel, o + 1, Start.(itemOffset := io), lines + 1);
      assert ScanFrom(w, chunkSize, cancel, off, st, lines) == ScanResult([e] + rest.entries, rest.offset);
      ConsEntryEnds(w, e, rest);
    }
  }

  lemma ConsEntryEnds(w: seq<byte>, e: Entry, rest: ScanResult)
    requires StoredOffset(e.item.offset, w) && ScanEnds(w, rest)
    ensures ScanEnds(w, ScanResult([e] + rest.entries, rest.offset))
  {
    var es := [e] + rest.entries;
    forall i | 0 <= i < |es|
      ensures StoredOffset(es[i].item.offset, w)
    {
      if i > 0 {
        assert es[i] == rest.entries[i - 1];
      }
    }
  }

  /** `items[e.bucket].Add(e.item)` on the 256 bucket lists. */
  function File(lists: seq<seq<FileItem>>, e: Entry): (r: seq<seq<FileItem>>)
    requires |lists| == 256
    ensures |r| == 256
  {
    lists[e.bucket := lists[e.bucket] + [e.item]]
  }

  /** The 256 bucket lists after the entries are filed, in order, each under its bucket. */
  function Distribute(lists: seq<seq<FileItem>>, es: seq<Entry>): (r: seq<seq<FileItem>>)
    requires |lists| == 256
    ensures |r| == 256
    decreases |es|
  {
    if es == [] then lists else Distribute(File(lists, es[0]), es[1..])
  }

  /** The keys of the entries filed under bucket k, in order. */
  function InBucket(es: seq<Entry>, k: int): (r: seq<FileItem>)
    ensures |r| <= |es|
    decreases |es|
  {
    if es == [] then []
    else (if es[0].bucket == k then [es[0].item] else []) + InBucket(es[1..], k)
  }

  lemma {:induction false} DistributeAppend(lists: seq<seq<FileItem>>, a: seq<Entry>, b: seq<Entry>)
    requires |lists| == 256
    ensures Distribute(lists, a + b) == Distribute(Distribute(lists, a), b)
    decreases |a|
  {
    if a != [] {
      assert (a + b)[1..] == a[1..] + b;
      DistributeAppend(File(lists, a[0]), a[1..], b);
    } else {
      assert a + b == b;
    }
  }

  /** Each bucket's list grows by exactly the keys filed under it, in file order. */
  lemma {:induction false} DistributeContents(lists: seq<seq<FileItem>>, es: seq<Entry>, k: int)
    requires |lists| == 256 && 0 <= k < 256
    ensures Distribute(lists, es)[k] == lists[k] + InBucket(es, k)
    decreases |es|
  {
    if es != [] {
      DistributeContents(File(lists, es[0]), es[1..], k);
    }
  }

  /** Filing keys the writer can handle keeps every bucket list writable. */
  lemma {:induction false} DistributeWritable(lists: seq<seq<FileItem>>, es: seq<Entry>)
    requires |lists| == 256 && AllWritable(lists)
    requires forall i :: 0 <= i < |es| ==> Writable(es[i].item)
    ensures AllWritable(Distribute(lists, es))
    decreases |es|
  {
    if es != [] {
      var next := File(lists, es[0]);
      assert AllWritable(next) by {
        forall i, j | 0 <= i < 256 && 0 <= j < |next[i]|
          ensures Writable(next[i][j])
        {
          if i == es[0].bucket && j == |lists[i]| {
            assert next[i][j] == es[0].item;
          } else {
            assert next[i][j] == lists[i][j];
          }
        }
      }
      DistributeWritable(next, es[1..]);
    }
  }

  /**
   * Every key ReadLines files is one WriteSortedLists can write: starting from empty
   * (or writable) buckets, the lists after a scan hold no offset from 1 to 3.
   */
  lemma ScanKeysWritable(w: seq<byte>, chunkSize: int, cancel: nat -> bool, lists: seq<seq<FileItem>>)
    requires |lists| == 256 && AllWritable(lists)
    ensures AllWritable(Distribute(lists, ScanWindow(w, chunkSize, cancel).entries))
  {
    var es := ScanWindow(w, chunkSize, cancel).entries;
    ScanOutcome(w, chunkSize, cancel, 0, Start, 0);
    assert forall i :: 0 <= i < |es| ==> StoredOffset(es[i].item.offset, w);
    DistributeWritable(lists, es);
  }

  /**
   * ReadLines: scans the window, appending each line's key to its bucket's list; returns
   * the offset the loop stopped at and the number of lines read. The locals of the
   * source loop are the fields of `st`.
   */
  method ReadLines(window: seq<byte>, chunkSize: int, items: array<seq<FileItem>>, cancel: nat -> bool)
    returns (offset: int, linesRead: nat)
    requires items.Length == 256
    modifies items
    ensures offset == ScanWindow(window, chunkSize, cancel).offset
    ensures linesRead == |ScanWindow(window, chunkSize, cancel).entries|
    ensures items[..] == Distribute(old(items[..]), ScanWindow(window, chunkSize, cancel).entries)
  {
    var st := Start;
    linesRead := 0;
    ghost var full := ScanWindow(window, chunkSize, cancel);
    ghost var target := Distribute(old(items[..]), full.entries);
    ghost var rest := full.entries;
    offset := 0;
    while offset < |window|
      invariant 0 <= offset <= |window| + 1 && st.itemOffset >= -1
      invariant rest == ScanFrom(window, chunkSize, cancel, offset, st, linesRead).entries
      invariant ScanFrom(window, chunkSize, cancel, offset, st, linesRead).offset == full.offset
      invariant Distribute(items[..], rest) == target
      invariant linesRead + |rest| == |full.entries|
      decreases |window| + 1 - offset
    {
      var stop: bool;
      var added: seq<Entry>;
      ghost var before := items[..];
      offset, st, stop, added := ScanStep(window, chunkSize, cancel, items, offset, st, linesRead);
      linesRead := linesRead + |added|;
      if stop {
        break;
      }
      ghost var next := ScanFrom(window, chunkSize, cancel, offset, st, linesRead).entries;
      DistributeAppend(before, added, next);
      rest := next;
    }
  }

  /**
   * One pass of the ReadLines loop body at `offset`, including the loop's own increment
   * unless the body breaks; `added` is the key filed on a terminator.
   */
  method ScanStep(window: seq<byte>, chunkSize: int, cancel: nat -> bool, items: array<seq<FileItem>>,
                  offset: int, st: Scan, linesRead: nat)
    returns (offset': int, st': Scan, stop: bool, added: seq<Entry>)
    requires items.Length == 256 && 0 <= offset < |window| && st.itemOffset >= -1
    modifies items
    ensures |added| <= 1 && st'.itemOffset >= -1 && offset < offset' <= |window| + 1
    ensures items[..] == Distribute(old(items[..]), added)
    ensures var r := ScanFrom(window, chunkSize, cancel, offset, st, linesRead);
      if stop then r == ScanResult(added, offset')
      else
        var next := ScanFrom(window, chunkSize, cancel, offset', st', linesRead + |added|);
        r.entries == added + next.entries && r.offset == next.offset
  {
    var b := window[offset];
    offset' := offset;
    st' := st;
    stop := false;
    added := [];
    if st.isNumber && b < 58 && b >= 48 {
      st' := st.(number := AccumulateDigit(st.number, b));
    } else if st.isNumber && b == 46 {
      st' := st.(isNumber := false, itemOffset := offset + 2);
      offset' := offset + 1;
    } else if b == NewLine[0] {
      var e: Entry;
      ghost var lists := items[..];
      offset', st', e, stop := EndOfLine(window, chunkSize, cancel, items, offset, st, linesRead);
      added := [e];
      assert Distribute(lists, added) == Distribute(File(lists, e), []);
      if stop {
        return;
      }
    } else if !st.isNumber && offset < st.itemOffset + 5 {
      if offset < st.itemOffset + 1 {
        st' := st.(bucket := b);
      } else {
        st' := st.(prefix := ShiftIn(st.prefix, b));
      }
    }
    offset' := offset' + 1;
  }

  /**
   * The terminator branch of ReadLines: files the line's key under its bucket, resets the
   * line state (itemOffset is kept), steps over the rest of the terminator and says
   * whether the loop stops.
   */
  method EndOfLine(window: seq<byte>, chunkSize: int, cancel: nat -> bool, items: array<seq<FileItem>>,
                   offset: int, st: Scan, linesRead: nat)
    returns (offset': int, st': Scan, e: Entry, stop: bool)
    requires items.Length == 256 && 0 <= offset < |window| && window[offset] == NewLine[0] && st.itemOffset >= -1
    requires !(st.isNumber && IsDigit(window[offset])) && !(st.isNumber && window[offset] == Dot)
    modifies items
    ensures items[..] == File(old(items[..]), e)
    ensures offset' == offset + 1 && st'.itemOffset >= -1
    ensures var r := ScanFrom(window, chunkSize, cancel, offset, st, linesRead);
      if stop then r == ScanResult([e], offset')
      else
        var next := ScanFrom(window, chunkSize, cancel, offset' + 1, st', linesRead + 1);
        r.entries == [e] + next.entries && r.offset == next.offset
  {
    var itemOffset := st.itemOffset;
    if offset < itemOffset + 5 {
      itemOffset := -1;
    } else {
      itemOffset := itemOffset + 5;
    }
    var item := FileItem(st.number, st.prefix, itemOffset);
    items[st.bucket] := items[st.bucket] + [item];
    e := Entry(st.bucket, item);
    st' := Start.(itemOffset := itemOffset);
    offset' := offset + |NewLine| - 1;
    stop := offset' >= chunkSize || cancel(linesRead + 1);
  }

  // ---------------------------------------------------------------------------
  // OffsetComparer
  // ---------------------------------------------------------------------------

  /**
   * OffsetComparer.Compare over the window, as written. None stands for the exception
   * ReadByte throws at a negative position. It fails only by reading before the window,
   * which needs equal prefixes, an offset on the first key and a negative offset on one
   * side; a second key without an offset (-1) always makes it fail, since the check meant
   * for it tests 1. Prefixes below 2^31 are ordered as unsigned numbers.
   */
  function Compare(w: seq<byte>, x: FileItem, y: FileItem): (r: Option<int32>)
    ensures r.None? ==> x.prefix == y.prefix && x.offset != -1 && (x.offset < 0 || y.offset < 0)
    ensures x.prefix == y.prefix && 0 <= x.offset < |w| && y.offset == -1 ==> r.None?
    ensures x.prefix != y.prefix && x.prefix < TWO31 && y.prefix < TWO31 ==>
      r.Some? && Sign(r.value) == Sign(x.prefix - y.prefix)
  {
    if x.prefix != y.prefix then Some(Wrap32(AsInt32(x.prefix) - AsInt32(y.prefix)))
    else if x.offset == -1 && y.offset == -1 then Some(Wrap32(x.number - y.number))
    else if x.offset == -1 then Some(-1)
    else if y.offset == 1 then Some(1)
    else CompareFrom(w, x, y, 0)
  }

  /** The comparer's scan of the two remainders from `k` bytes past their offsets. */
  function CompareFrom(w: seq<byte>, x: FileItem, y: FileItem, k: nat): (r: Option<int32>)
    ensures r.Some? && r.value != Wrap32(x.number - y.number) ==> r.value == 1 || r.value == -1 || x.offset + k < |w|
    ensures r.None? ==> x.offset < 0 || y.offset < 0
    decreases |w| - x.offset - k
  {
    if !(x.offset + k < |w| && y.offset + k < |w|) then Some(Wrap32(x.number - y.number))
    else if x.offset + k < 0 || y.offset + k < 0 then None
    else
      var b1 := w[x.offset + k];
      var b2 := w[y.offset + k];
      if b1 == 13 && b2 == 13 then Some(Wrap32(x.number - y.number))
      else if b1 == 13 then Some(1)
      else if b2 == 13 then Some(-1)
      else if b1 == b2 then CompareFrom(w, x, y, k + 1)
      else var d: int32 := b1 as int - b2 as int; Some(d)
  }

  // ---------------------------------------------------------------------------
  // WriteSortedLists
  // ---------------------------------------------------------------------------

  /**
   * A key the writer can handle: an offset from 1 to 3 would make it read at a negative
   * position (ReadLines stores none, see StoredOffset).
   */
  predicate Writable(item: FileItem)
  {
    !(1 <= item.offset < 4)
  }

  predicate AllWritable(lists: seq<seq<FileItem>>)
  {
    forall i, j :: 0 <= i < |lists| && 0 <= j < |lists[i]| ==> Writable(lists[i][j])
  }

  /** `BitConverter.GetBytes(uint)`: the four bytes of u, least significant first. */
  function LittleEndianBytes(u: uint32): (bs: seq<byte>)
    ensures |bs| == 4
  {
    var b0: byte := u % 256;
    var b1: byte := (u / 256) % 256;
    var b2: byte := (u / 65536) % 256;
    var b3: byte := u / 16777216;
    [b0, b1, b2, b3]
  }

  /** The bytes of bs that are not zero, in order. */
  function NonZero(bs: seq<byte>): (r: seq<byte>)
    ensures |r| <= |bs|
  {
    if bs == [] then []
    else NonZero(bs[..|bs| - 1]) + (if bs[|bs| - 1] != 0 then [bs[|bs| - 1]] else [])
  }

  /**
   * The payload the writer emits for a key with no stored offset: the bucket byte, then
   * the non-zero bytes of the prefix in little-endian order.
   */
  function ShortPayload(bucket: byte, prefix: uint32): seq<byte>
  {
    [bucket] + (if prefix > 0 then NonZero(LittleEndianBytes(prefix)) else [])
  }

  /**
   * The copy of a payload's remainder: bytes from pos up to a byte 13, which is written
   * as the whole terminator; at the end of the window the copy just stops.
   */
  function CopyRemainder(w: seq<byte>, pos: nat): (r: seq<byte>)
    decreases |w| - pos
  {
    if pos >= |w| then []
    else if w[pos] == NewLine[0] then NewLine
    else [w[pos]] + CopyRemainder(w, pos + 1)
  }

  /** The text the writer emits for one key filed under `bucket`. */
  function ItemText(w: seq<byte>, bucket: byte, item: FileItem): seq<byte>
    requires Writable(item)
  {
    Decimal(item.number) + [Dot, Space] + PayloadText(w, bucket, item)
  }

  /** What follows ". " for one key: rebuilt from bucket and prefix, or copied from the window. */
  function PayloadText(w: seq<byte>, bucket: byte, item: FileItem): seq<byte>
    requires Writable(item)
  {
    var start := if item.offset > 0 then item.offset - 5 else -1;
    if start == -1 then ShortPayload(bucket, item.prefix) + NewLine else CopyRemainder(w, start)
  }

  /** The texts of a bucket list's first n keys, in order. */
  function BucketText(w: seq<byte>, bucket: byte, items: seq<FileItem>, n: nat): seq<byte>
    requires n <= |items| && forall j :: 0 <= j < |items| ==> Writable(items[j])
  {
    if n == 0 then [] else BucketText(w, bucket, items, n - 1) + ItemText(w, bucket, items[n - 1])
  }

  /**
   * The run file from bucket i on: the buckets in ascending order, each list in its
   * order; the token is polled before each bucket and a set token ends the output.
   */
  function RunFrom(w: seq<byte>, lists: seq<seq<FileItem>>, i: nat, cancel: nat -> bool): seq<byte>
    requires |lists| == 256 && i <= 256 && AllWritable(lists)
    decreases 256 - i
  {
    if i == 256 then []
    else if cancel(i) then []
    else BucketText(w, i, lists[i], |lists[i]|) + RunFrom(w, lists, i + 1, cancel)
  }

  /** WriteSortedLists: the contents of the new run file written from the bucket lists. */
  method WriteSortedLists(window: seq<byte>, items: array<seq<FileItem>>, cancel: nat -> bool) returns (output: seq<byte>)
    requires items.Length == 256 && AllWritable(items[..])
    ensures output == RunFrom(window, items[..], 0, cancel)
  {
    var fs := new Writer();
    ghost var lists := items[..];
    ghost var all := RunFrom(window, lists, 0, cancel);
    var i := 0;
    while i < items.Length
      invariant 0 <= i <= 256
      invariant fs.written + RunFrom(window, lists, i, cancel) == all
    {
      if cancel(i) {
        assert fs.written + [] == fs.written;
        break;
      }
      ghost var before := fs.written;
      WriteBucket(fs, window, i, items[i]);
      ConcatAssoc(before, BucketText(window, i, lists[i], |lists[i]|), RunFrom(window, lists, i + 1, cancel));
      i := i + 1;
    }
    output := fs.written;
  }

  /** The inner loop of WriteSortedLists: every key of one bucket's list, in order. */
  method WriteBucket(fs: Writer, window: seq<byte>, i: byte, list: seq<FileItem>)
    requires forall j :: 0 <= j < |list| ==> Writable(list[j])
    modifies fs
    ensures fs.written == old(fs.written) + BucketText(window, i, list, |list|)
  {
    ghost var start := fs.written;
    var j := 0;
    while j < |list|
      invariant 0 <= j <= |list|
      invariant fs.written == start + BucketText(window, i, list, j)
    {
      WriteNextItem(fs, window, i, list, j, start);
      j := j + 1;
    }
  }

  /** One pass of the inner loop: the text of key j extends the bucket's text so far. */
  method WriteNextItem(fs: Writer, window: seq<byte>, i: byte, list: seq<FileItem>, j: nat, ghost start: seq<byte>)
    requires j < |list| && forall k :: 0 <= k < |list| ==> Writable(list[k])
    requires fs.written == start + BucketText(window, i, list, j)
    modifies fs
    ensures fs.written == start + BucketText(window, i, list, j + 1)
  {
    WriteItem(fs, window, i, list[j]);
    ConcatAssoc(start, BucketText(window, i, list, j), ItemText(window, i, list[j]));
  }

  /** The writer's body for one key. */
  method WriteItem(fs: Writer, w: seq<byte>, i: byte, item: FileItem)
    requires Writable(item)
    modifies fs
    ensures fs.written == old(fs.written) + ItemText(w, i, item)
  {
    WriteNumber(fs, item.number);
    fs.WriteByte(46);
    fs.WriteByte(32);
    ghost var head := fs.written;
    WritePayload(fs, w, i, item);
    ConcatAssoc(old(fs.written), Decimal(item.number) + [Dot, Space], PayloadText(w, i, item));
  }

  /** The rest of the writer's body for one key, after ". ". */
  method WritePayload(fs: Writer, w: seq<byte>, i: byte, item: FileItem)
    requires Writable(item)
    modifies fs
    ensures fs.written == old(fs.written) + PayloadText(w, i, item)
  {
    var itemOffset2 := if item.offset > 0 then item.offset - 5 else -1;
    if itemOffset2 == -1 {
      WriteShortPayload(fs, i, item.prefix);
      fs.Write(NewLine);
      return;
    }
    CopyRemainderTo(fs, w, itemOffset2);
  }

  /** `item.Number.ToString()` written character by character. */
  method WriteNumber(fs: Writer, n: int32)
    modifies fs
    ensures fs.written == old(fs.written) + Decimal(n)
  {
    var number := Decimal(n);
    var k := 0;
    while k < |number|
      invariant 0 <= k <= |number|
      invariant fs.written == old(fs.written) + number[..k]
    {
      fs.WriteByte(number[k]);
      k := k + 1;
    }
    assert number[..k] == number;
  }

  /** The branch for a key with no stored offset: bucket byte, then the prefix's non-zero bytes. */
  method WriteShortPayload(fs: Writer, i: byte, prefix: uint32)
    modifies fs
    ensures fs.written == old(fs.written) + ShortPayload(i, prefix)
  {
    fs.WriteByte(i);
    if prefix > 0 {
      var prefixBytes := LittleEndianBytes(prefix);
      var k := 0;
      while k < |prefixBytes|
        invariant 0 <= k <= 4
        invariant fs.written == old(fs.written) + [i] + NonZero(prefixBytes[..k])
      {
        assert prefixBytes[..k + 1][..k] == prefixBytes[..k];
        if prefixBytes[k] > 0 {
          fs.WriteByte(prefixBytes[k]);
        }
        k := k + 1;
      }
      assert prefixBytes[..4] == prefixBytes;
    }
  }

  /** The copy loop for a key with a stored offset, from `start` (the payload's first byte). */
  method CopyRemainderTo(fs: Writer, w: seq<byte>, start: nat)
    modifies fs
    ensures fs.written == old(fs.written) + CopyRemainder(w, start)
  {
    var itemOffset2 := start;
    while itemOffset2 < |w|
      invariant fs.written + CopyRemainder(w, itemOffset2) == old(fs.written) + CopyRemainder(w, start)
      decreases |w| - itemOffset2
    {
      var b := w[itemOffset2];
      itemOffset2 := itemOffset2 + 1;
      if b == NewLine[0] {
        fs.Write(NewLine);
        break;
      }
      fs.WriteByte(b);
    }
  }
}
