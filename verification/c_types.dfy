/**
 * Integer helpers shared by the plug-in models: the unsigned 8-bit sample
 * type of every pixel buffer, and C's integer division, which truncates
 * toward zero where Dafny's `/` is Euclidean.
 */
module CTypes {

  import opened Arith

  /** An unsigned 8-bit sample (`guchar`). */
  type Byte = b: int | 0 <= b < 256

  /** A `gint16`. */
  type Int16 = v: int | -0x8000 <= v < 0x8000

  /** A `gint32`. */
  type Int32 = v: int | -0x8000_0000 <= v < 0x8000_0000

  function Abs(a: int): (r: nat)
    ensures r == a || r == -a
  {
    if a < 0 then -a else a
  }

  /** C's `a / b` on `int`: the quotient truncated toward zero. */
  function TruncDiv(a: int, b: int): (q: int)
    requires b != 0
    ensures Abs(a - q * b) < Abs(b)
    ensures a >= 0 ==> 0 <= a - q * b
    ensures a < 0 ==> a - q * b <= 0
  {
    if a >= 0 && b > 0 then a / b
    else if a < 0 && b > 0 then -((-a) / b)
    else if a >= 0 then -(a / (-b))
    else (-a) / (-b)
  }

  /** On non-negative operands C and Dafny divide alike. */
  lemma TruncDivNonNegative(a: int, b: int)
    requires a >= 0 && b > 0
    ensures TruncDiv(a, b) == a / b
  {
  }

  /**
   * C's `a % b` on `int`: the remainder left by the truncating division,
   * smaller than the divisor in magnitude and with the sign of the dividend.
   */
  function TruncMod(a: int, b: int): (m: int)
    requires b != 0
    ensures Abs(m) < Abs(b)
    ensures a >= 0 ==> 0 <= m
    ensures a < 0 ==> m <= 0
    ensures b > 0 ==> (a - m) % b == 0
  {
    MultipleMod(TruncDiv(a, b), b);
    a - TruncDiv(a, b) * b
  }

  lemma MultipleMod(q: int, b: int)
    ensures b > 0 ==> (q * b) % b == 0
  {
    if b > 0 {
      ModAddMultiple(0, q, b);
    }
  }

  /** On non-negative operands C's and Dafny's remainders agree. */
  lemma TruncModNonNegative(a: int, b: int)
    requires a >= 0 && b > 0
    ensures TruncMod(a, b) == a % b
  {
  }

  /** The conversion of an `int` into a `guchar`: reduction modulo 256. */
  function ToByte(v: int): (b: Byte)
    ensures 0 <= v < 256 ==> b == v
    ensures (b - v) % 256 == 0
  {
    v % 256
  }

  /** A value or the `NULL` pointer. */
  datatype Option<T> = None | Some(value: T)

  /** `strchr`: the index of the first `c` in `s`, or `None`. */
  function Find(s: string, c: char): (r: Option<nat>)
    ensures r.Some? ==> r.value < |s| && s[r.value] == c && c !in s[..r.value]
    ensures r.None? <==> c !in s
  {
    if s == [] then None
    else if s[0] == c then Some(0)
    else match Find(s[1..], c)
      case None => None
      case Some(i) =>
        assert s[..i + 1] == [s[0]] + s[1..][..i];
        Some(i + 1)
  }

  /** `strrchr`: the index of the last `c` in `s`, or `None`. */
  function FindLast(s: string, c: char): (r: Option<nat>)
    ensures r.Some? ==> r.value < |s| && s[r.value] == c && c !in s[r.value + 1..]
    ensures r.None? <==> c !in s
  {
    if s == [] then None
    else if s[|s| - 1] == c then Some(|s| - 1)
    else
      var r := FindLast(s[..|s| - 1], c);
      assert s == s[..|s| - 1] + [s[|s| - 1]];
      r
  }
}
