/** Bytes, the C# integer widths the sorter uses, and decimal text. */
module Bytes {

  type byte = b: int | 0 <= b < 0x100
  /** C# `int`. */
  type int32 = x: int | -0x8000_0000 <= x < 0x8000_0000
  /** C# `uint`. */
  type uint32 = x: int | 0 <= x < 0x1_0000_0000

  const TWO32: int := 0x1_0000_0000
  const TWO31: int := 0x8000_0000

  const CR: byte := 13
  const LF: byte := 10
  const Dot: byte := 46
  const Space: byte := 32
  const Minus: byte := 45

  /** The line terminator, fixed as CRLF (the comparator hard-codes byte 13). */
  const NewLine: seq<byte> := [CR, LF]

  function Min(a: int, b: int): int { if a <= b then a else b }

  function Sign(x: int): (r: int)
    ensures r == -1 || r == 0 || r == 1
    ensures (r < 0 <==> x < 0) && (r == 0 <==> x == 0)
  {
    if x < 0 then -1 else if x == 0 then 0 else 1
  }

  /** Unchecked C# `int` arithmetic: the two's-complement value congruent to x modulo 2^32. */
  function Wrap32(x: int): (r: int32)
    ensures (x - r) % TWO32 == 0
    ensures -TWO31 <= x < TWO31 ==> r == x
  {
    var m := x % TWO32;
    if m < TWO31 then m else m - TWO32
  }

  lemma Wrap32Congruent(x: int, y: int)
    requires (x - y) % TWO32 == 0
    ensures Wrap32(x) == Wrap32(y)
  {
    var k := (x - y) / TWO32;
    assert x == y + k * TWO32;
    assert x % TWO32 == y % TWO32;
  }

  /** The C# cast `(int)u` of a `uint`: reinterpretation of the 32 bits. */
  function AsInt32(u: uint32): (r: int32)
    ensures r == if u < TWO31 then u else u - TWO32
  {
    Wrap32(u)
  }

  predicate IsDigit(b: int) { 48 <= b < 58 }

  /** `number *= 10; number += b - 48;` on a C# `int`. */
  function AccumulateDigit(number: int32, b: byte): int32
  {
    Wrap32(number * 10 + (b - 48))
  }

  /** Digits accumulated left to right from `acc`, as both line parsers do. */
  function FoldDigits(acc: int32, ds: seq<byte>): int32
    decreases ds
  {
    if ds == [] then acc else FoldDigits(AccumulateDigit(acc, ds[0]), ds[1..])
  }

  lemma {:induction false} FoldDigitsSnoc(acc: int32, ds: seq<byte>, d: byte)
    ensures FoldDigits(acc, ds + [d]) == AccumulateDigit(FoldDigits(acc, ds), d)
    decreases ds
  {
    if ds != [] {
      assert (ds + [d])[1..] == ds[1..] + [d];
      FoldDigitsSnoc(AccumulateDigit(acc, ds[0]), ds[1..], d);
    }
  }

  /** Decimal digits of a natural number, most significant first, no leading zeros. */
  function Digits(n: nat): (ds: seq<byte>)
    ensures |ds| >= 1
  {
    if n < 10 then [48 + n] else Digits(n / 10) + [48 + n % 10]
  }

  /** Every byte of Digits(n) is an ASCII digit. */
  lemma {:induction false} DigitsAreDigits(n: nat)
    ensures forall i :: 0 <= i < |Digits(n)| ==> IsDigit(Digits(n)[i])
  {
    if n >= 10 {
      DigitsAreDigits(n / 10);
    }
  }

  /** `Int32.ToString()`: an optional minus sign followed by the digits of the magnitude. */
  function Decimal(n: int32): seq<byte>
  {
    if n < 0 then [Minus] + Digits(-(n as int)) else Digits(n)
  }

  lemma ScaleCongruent(x: int, y: int, c: int)
    requires (x - y) % TWO32 == 0
    ensures (x * c - y * c) % TWO32 == 0
  {
    var k := (x - y) / TWO32;
    assert x - y == k * TWO32;
    assert x * c - y * c == (x - y) * c;
    assert (x - y) * c == (k * c) * TWO32;
  }

  /**
   * Parsing the digits of n yields n reduced to a C# `int`: exact below 2^31,
   * silently wrapped above it.
   */
  lemma {:induction false} ParsedDigitsWrap(n: nat)
    ensures FoldDigits(0, Digits(n)) == Wrap32(n)
  {
    if n >= 10 {
      var d: byte := 48 + n % 10;
      ParsedDigitsWrap(n / 10);
      FoldDigitsSnoc(0, Digits(n / 10), d);
      var w := Wrap32(n / 10);
      ScaleCongruent(w, n / 10, 10);
      assert (w * 10 + n % 10) - n == w * 10 - (n / 10) * 10;
      Wrap32Congruent(w * 10 + n % 10, n);
    }
  }

  lemma DigitsRoundTrip(n: nat)
    requires n < TWO31
    ensures FoldDigits(0, Digits(n)) == n
  {
    ParsedDigitsWrap(n);
  }

  /** One line number past the `int` range: "2147483648" is read back as -2147483648. */
  lemma NumberOverflowWraps()
    ensures FoldDigits(0, Digits(TWO31)) == -TWO31
  {
    ParsedDigitsWrap(TWO31);
  }

  /** Bytes packed most significant first: `v = (v << 8) + b` for each byte. */
  function BigEndian(bs: seq<byte>): (v: nat)
    ensures |bs| <= 4 ==> v < Pow256(|bs|)
  {
    if bs == [] then 0 else BigEndian(bs[..|bs| - 1]) * 256 + bs[|bs| - 1]
  }

  /** BigEndian on one to four explicit bytes. */
  lemma BigEndianSmall(a: byte, b: byte, c: byte, d: byte)
    ensures BigEndian([a]) == a
    ensures BigEndian([a, b]) == a * 0x100 + b
    ensures BigEndian([a, b, c]) == a * 0x1_0000 + b * 0x100 + c
    ensures BigEndian([a, b, c, d]) == a * 0x100_0000 + b * 0x1_0000 + c * 0x100 + d
  {
    assert [a, b][..1] == [a];
    assert [a, b, c][..2] == [a, b];
    assert [a, b, c, d][..3] == [a, b, c];
    assert BigEndian([a]) == BigEndian([]) * 256 + a;
  }

  function Pow256(k: nat): (p: nat)
    ensures p >= 1
  {
    if k == 0 then 1 else 256 * Pow256(k - 1)
  }

  /** Regrouping a concatenation; a step the solver is slow to find inside larger proofs. */
  lemma ConcatAssoc<T>(a: seq<T>, b: seq<T>, c: seq<T>)
    ensures (a + b) + c == a + (b + c)
  {
  }

  /** A slice of a slice of `data` that equals `e`. */
  lemma Slice(data: seq<byte>, pos: nat, e: seq<byte>, i: nat, j: nat)
    requires pos + |e| <= |data| && data[pos..pos + |e|] == e && i <= j <= |e|
    ensures data[pos + i..pos + j] == e[i..j]
  {
    forall k | 0 <= k < j - i
      ensures data[pos + i..pos + j][k] == e[i..j][k]
    {
      assert data[pos..pos + |e|][i + k] == e[i + k];
    }
  }
}
