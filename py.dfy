/** The Python and pandas built-ins that the cleaning helpers and the ranking
    rule rely on: cell values, NaN and exceptions as outcomes, str(), int() of
    a digit string, str.strip() and slicing with Python's index rules. */
module Py {

  datatype Option<T> = None | Some(value: T)

  /** A DataFrame cell as the model distinguishes it: a string, a missing
      value (pandas NaN) or an integer. */
  datatype Cell = Text(s: string) | Missing | Number(n: int)

  /** The exceptions the modelled code can raise. */
  datatype PyError = AttributeError | ValueError | KeyError

  /** What a column-cleaning helper yields for one cell: a value, NaN, or an
      exception that aborts the pandas `apply`. */
  datatype Outcome<T> = Value(v: T) | NaN | Raises(error: PyError)

  datatype Result<T> = Ok(value: T) | Err(error: PyError)

  function Min(a: int, b: int): int { if a <= b then a else b }

  function Max(a: int, b: int): int { if a <= b then b else a }

  // ---------------------------------------------------------------------
  // Decimal digits: int() of a digit string and str() of an integer

  predicate IsDigit(c: char) { '0' <= c <= '9' }

  predicate AllDigits(s: string) { forall i :: 0 <= i < |s| ==> IsDigit(s[i]) }

  function DigitValue(c: char): (d: nat)
    requires IsDigit(c)
    ensures d < 10
  {
    c as int - '0' as int
  }

  function DigitChar(d: nat): (c: char)
    requires d < 10
    ensures IsDigit(c) && DigitValue(c) == d
  {
    ('0' as int + d) as char
  }

  function Pow10(k: nat): (p: nat)
    ensures p >= 1
  {
    if k == 0 then 1 else 10 * Pow10(k - 1)
  }

  /** int(s) for a string of ASCII digits, most significant first; the
      empty string reads as 0 (used for the empty side of a decimal point). */
  function DecimalValue(s: string): (v: nat)
    requires AllDigits(s)
    ensures v < Pow10(|s|)
  {
    if s == [] then 0 else 10 * DecimalValue(s[..|s| - 1]) + DigitValue(s[|s| - 1])
  }

  /** str(n) for a natural number: its shortest decimal spelling. */
  function NatToDecimal(n: nat): (s: string)
    ensures |s| >= 1 && AllDigits(s)
    ensures DecimalValue(s) == n
    ensures n < 10 ==> |s| == 1
    ensures n >= 10 ==> |s| == |NatToDecimal(n / 10)| + 1
  {
    if n < 10 then [DigitChar(n)]
    else
      var s := NatToDecimal(n / 10) + [DigitChar(n % 10)];
      assert s[..|s| - 1] == NatToDecimal(n / 10);
      s
  }

  /** str(n) for an integer. */
  function IntToDecimal(n: int): string
  {
    if n < 0 then "-" + NatToDecimal(-n) else NatToDecimal(n)
  }

  /** Python's str() of a cell; a pandas missing value prints as "nan". */
  function Str(c: Cell): string
  {
    match c
    case Text(s) => s
    case Missing => "nan"
    case Number(n) => IntToDecimal(n)
  }

  // ---------------------------------------------------------------------
  // str.strip() with no argument

  /** The characters for which Python's str.isspace() holds. */
  predicate IsSpace(c: char)
  {
    var n := c as int;
    (9 <= n <= 13) || (0x1C <= n <= 0x20) || n == 0x85 || n == 0xA0 || n == 0x1680
    || (0x2000 <= n <= 0x200A) || n == 0x2028 || n == 0x2029 || n == 0x202F
    || n == 0x205F || n == 0x3000
  }

  /** s[i..j] is what strip() keeps of s: everything outside it is
      whitespace and it neither starts nor ends with whitespace. */
  predicate StrippedAt(s: string, i: nat, j: nat)
  {
    && i <= j <= |s|
    && (forall k :: 0 <= k < i ==> IsSpace(s[k]))
    && (forall k :: j <= k < |s| ==> IsSpace(s[k]))
    && (i < j ==> !IsSpace(s[i]) && !IsSpace(s[j - 1]))
  }

  ghost predicate IsStripOf(s: string, r: string)
  {
    exists i: nat, j: nat :: StrippedAt(s, i, j) && r == s[i..j]
  }

  /** Number of leading whitespace characters. */
  function LeadingSpace(s: string): (k: nat)
    ensures k <= |s|
    ensures forall i :: 0 <= i < k ==> IsSpace(s[i])
    ensures k < |s| ==> !IsSpace(s[k])
  {
    if s != [] && IsSpace(s[0]) then 1 + LeadingSpace(s[1..]) else 0
  }

  /** Number of trailing whitespace characters. */
  function TrailingSpace(s: string): (k: nat)
    ensures k <= |s|
    ensures forall i :: |s| - k <= i < |s| ==> IsSpace(s[i])
    ensures k < |s| ==> !IsSpace(s[|s| - 1 - k])
  {
    if s != [] && IsSpace(s[|s| - 1]) then 1 + TrailingSpace(s[..|s| - 1]) else 0
  }

  /** str.strip(): the contiguous part of s left after removing leading and
      trailing whitespace. */
  function Strip(s: string): (r: string)
    ensures IsStripOf(s, r)
  {
    var i := LeadingSpace(s);
    var t := TrailingSpace(s[i..]);
    var j := |s| - t;
    assert StrippedAt(s, i, j);
    s[i..j]
  }

  /** strip() on its own is idempotent. */
  lemma StripIdempotent(s: string)
    ensures Strip(Strip(s)) == Strip(s)
  {
    var r := Strip(s);
    var i: nat, j: nat :| StrippedAt(s, i, j) && r == s[i..j];
    assert LeadingSpace(r) == 0 by {
      if r != [] { assert r[0] == s[i]; }
    }
    assert TrailingSpace(r) == 0 by {
      if r != [] { assert r[|r| - 1] == s[j - 1]; }
    }
  }

  // ---------------------------------------------------------------------
  // Slicing

  /** A slice bound as Python normalises it for a sequence of length len:
      negative bounds count from the end, and the result is clamped. */
  function ClampIndex(i: int, len: nat): (k: nat)
    ensures k <= len
  {
    if i < 0 then (if i + len < 0 then 0 else i + len)
    else if i > len then len
    else i
  }

  /** s[start:stop] in Python. */
  function Slice<T>(s: seq<T>, start: int, stop: int): seq<T>
  {
    var lo, hi := ClampIndex(start, |s|), ClampIndex(stop, |s|);
    if lo < hi then s[lo..hi] else []
  }

  /** a occurs in b in order, not necessarily contiguously. */
  predicate IsSubsequence<T(==)>(a: seq<T>, b: seq<T>)
    decreases |b|
  {
    a == [] || (b != [] && if a[0] == b[0] then IsSubsequence(a[1..], b[1..]) else IsSubsequence(a, b[1..]))
  }
}
