/** The text format of one line, `<number>. <payload><CRLF>`, shared by the run writer and the merge. */
module Lines {
  import opened Bytes

  /** A line as the sorter sees it: the leading number and the payload after ". ". */
  datatype Line = Line(number: int32, payload: seq<byte>)

  /** The bytes `Number.ToString()`, ". ", the payload and the terminator. */
  function EncodeLine(l: Line): seq<byte>
  {
    Decimal(l.number) + [Dot, Space] + l.payload + NewLine
  }

  function EncodeLines(ls: seq<Line>): seq<byte>
  {
    if ls == [] then [] else EncodeLine(ls[0]) + EncodeLines(ls[1..])
  }

  /** A line of the input grammar: a non-negative number and a payload without the terminator byte. */
  predicate WellFormed(l: Line)
  {
    0 <= l.number && CR !in l.payload
  }

  predicate AllWellFormed(ls: seq<Line>)
  {
    forall i :: 0 <= i < |ls| ==> WellFormed(ls[i])
  }

  /** The encoding of l sits in the window w from position pos on. */
  predicate EncodedAt(w: seq<byte>, pos: int, l: Line)
  {
    0 <= pos && pos + |EncodeLine(l)| <= |w| && w[pos..pos + |EncodeLine(l)|] == EncodeLine(l)
  }

  lemma {:induction false} EncodeLinesAppend(xs: seq<Line>, ys: seq<Line>)
    ensures EncodeLines(xs + ys) == EncodeLines(xs) + EncodeLines(ys)
    decreases xs
  {
    if xs == [] {
      assert xs + ys == ys;
    } else {
      assert (xs + ys)[1..] == xs[1..] + ys;
      EncodeLinesAppend(xs[1..], ys);
    }
  }
}
