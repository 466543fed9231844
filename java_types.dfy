/** The few Java value types and JDK comparisons the fragment model is built on:
    fixed-width integers with their wrap-around, null as `Option`, exceptions as
    `Result`, `String.compareTo`, `Arrays.compare(byte[], byte[])` and `Long.compare`. */
module JavaTypes {

  /** A possibly-null reference: `None` is Java's `null`. */
  datatype Option<+T> = None | Some(value: T)

  /** The outcome of a Java call that either returns a value or throws. */
  datatype Result<+T, +E> = Success(value: T) | Failure(error: E)

  const INT_MIN: int := -0x8000_0000
  const INT_MAX: int := 0x7FFF_FFFF

  /** Java `byte`, `short`, `int` and `long`. */
  type Byte = x: int | -0x80 <= x < 0x80
  type Short = x: int | -0x8000 <= x < 0x8000
  type Int32 = x: int | -0x8000_0000 <= x < 0x8000_0000
  type Long = x: int | -0x8000_0000_0000_0000 <= x < 0x8000_0000_0000_0000

  function Sign(x: int): int
  {
    if x < 0 then -1 else if x == 0 then 0 else 1
  }

  /** The value a Java `long` expression holds when the exact result is `x`
      (two's-complement wrap-around modulo 2^64). */
  function WrapLong(x: int): (r: Long)
    ensures (r - x) % 0x1_0000_0000_0000_0000 == 0
    ensures -0x8000_0000_0000_0000 <= x < 0x8000_0000_0000_0000 ==> r == x
  {
    (x + 0x8000_0000_0000_0000) % 0x1_0000_0000_0000_0000 - 0x8000_0000_0000_0000
  }

  /** The narrowing cast `(int) x`: keeps the low 32 bits of a `long`. */
  function ToInt32(x: Long): (r: Int32)
    ensures (r - x) % 0x1_0000_0000 == 0
    ensures INT_MIN <= x <= INT_MAX ==> r == x
  {
    (x + 0x8000_0000) % 0x1_0000_0000 - 0x8000_0000
  }

  /** `Long.compare(x, y)`: -1, 0 or 1. */
  function LongCompare(x: int, y: int): (r: int)
    ensures r == -1 || r == 0 || r == 1
    ensures r < 0 <==> x < y
    ensures r == 0 <==> x == y
  {
    if x < y then -1 else if x == y then 0 else 1
  }

  /** The comparison loop shared by `String.compareTo` and
      `Arrays.compare(byte[], byte[])`: the difference of the first pair of
      elements that differ, or else the difference of the lengths. */
  function LexCompare(a: seq<int>, b: seq<int>): int
    decreases |a|
  {
    if a == [] || b == [] then |a| - |b|
    else if a[0] != b[0] then a[0] - b[0]
    else LexCompare(a[1..], b[1..])
  }

  lemma {:induction false} LexCompareAntisymmetric(a: seq<int>, b: seq<int>)
    ensures LexCompare(a, b) == -LexCompare(b, a)
    decreases |a|
  {
    if a != [] && b != [] && a[0] == b[0] {
      LexCompareAntisymmetric(a[1..], b[1..]);
    }
  }

  lemma {:induction false} LexCompareZero(a: seq<int>, b: seq<int>)
    ensures LexCompare(a, b) == 0 <==> a == b
    decreases |a|
  {
    if a != [] && b != [] && a[0] == b[0] {
      LexCompareZero(a[1..], b[1..]);
      assert a == [a[0]] + a[1..];
      assert b == [b[0]] + b[1..];
    }
  }

  lemma {:induction false} LexCompareTransitive(a: seq<int>, b: seq<int>, c: seq<int>)
    requires LexCompare(a, b) < 0 && LexCompare(b, c) < 0
    ensures LexCompare(a, c) < 0
    decreases |a|
  {
    if a != [] && b != [] && c != [] && a[0] == b[0] && b[0] == c[0] {
      LexCompareTransitive(a[1..], b[1..], c[1..]);
    }
  }

  /** A sequence sorts before every strictly longer sequence it is a prefix of. */
  lemma {:induction false} LexComparePrefix(a: seq<int>, b: seq<int>)
    requires |a| < |b| && a == b[..|a|]
    ensures LexCompare(a, b) < 0
    decreases |a|
  {
    if a != [] {
      assert a[1..] == b[1..][..|a| - 1];
      LexComparePrefix(a[1..], b[1..]);
    }
  }

  /** The values `String.compareTo` subtracts. Java subtracts UTF-16 code
      units; a `char` here is a Unicode scalar value, so the two agree on
      strings of characters from the Basic Multilingual Plane. */
  function CodeUnits(s: string): (r: seq<int>)
    ensures |r| == |s|
  {
    seq(|s|, i requires 0 <= i < |s| => s[i] as int)
  }

  lemma CodeUnitsInjective(a: string, b: string)
    ensures CodeUnits(a) == CodeUnits(b) ==> a == b
  {
    if CodeUnits(a) == CodeUnits(b) {
      forall i | 0 <= i < |a| ensures a[i] == b[i] {
        assert CodeUnits(a)[i] == CodeUnits(b)[i];
      }
    }
  }

  /** `String.compareTo`. */
  function StringCompareTo(a: string, b: string): int
  {
    LexCompare(CodeUnits(a), CodeUnits(b))
  }

  /** The facts about `String.compareTo` the fragment order relies on, for
      every pair out of three strings. */
  lemma StringCompareToFacts(a: string, b: string, c: string)
    ensures StringCompareTo(a, b) == -StringCompareTo(b, a)
    ensures StringCompareTo(a, b) == 0 <==> a == b
    ensures StringCompareTo(b, c) == 0 <==> b == c
    ensures StringCompareTo(a, c) == 0 <==> a == c
    ensures StringCompareTo(a, b) < 0 && StringCompareTo(b, c) < 0 ==> StringCompareTo(a, c) < 0
  {
    LexCompareAntisymmetric(CodeUnits(a), CodeUnits(b));
    LexCompareZero(CodeUnits(a), CodeUnits(b));
    LexCompareZero(CodeUnits(b), CodeUnits(c));
    LexCompareZero(CodeUnits(a), CodeUnits(c));
    CodeUnitsInjective(a, b);
    CodeUnitsInjective(b, c);
    CodeUnitsInjective(a, c);
    if StringCompareTo(a, b) < 0 && StringCompareTo(b, c) < 0 {
      LexCompareTransitive(CodeUnits(a), CodeUnits(b), CodeUnits(c));
    }
  }

  /** `Arrays.compare(byte[], byte[])`: null sorts first, otherwise signed
      bytes compared element by element, a proper prefix sorting first. */
  function ByteArrayCompare(a: Option<seq<Byte>>, b: Option<seq<Byte>>): int
  {
    if a == b then 0
    else if a.None? then -1
    else if b.None? then 1
    else LexCompare(a.value, b.value)
  }

  lemma ByteArrayCompareFacts(a: Option<seq<Byte>>, b: Option<seq<Byte>>, c: Option<seq<Byte>>)
    ensures ByteArrayCompare(a, b) == -ByteArrayCompare(b, a)
    ensures ByteArrayCompare(a, b) == 0 <==> a == b
    ensures ByteArrayCompare(a, b) < 0 && ByteArrayCompare(b, c) < 0 ==> ByteArrayCompare(a, c) < 0
  {
    if a.Some? && b.Some? {
      LexCompareAntisymmetric(a.value, b.value);
      LexCompareZero(a.value, b.value);
    }
    if a.Some? && c.Some? {
      LexCompareZero(a.value, c.value);
    }
    if a.Some? && b.Some? && c.Some? && ByteArrayCompare(a, b) < 0 && ByteArrayCompare(b, c) < 0 {
      LexCompareTransitive(a.value, b.value, c.value);
    }
  }
}
