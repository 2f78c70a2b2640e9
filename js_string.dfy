/** The JavaScript string built-ins the wins hook and the date helpers rely on:
    String.prototype.trim, padStart, slice, split(...)[0] and String(n) for
    integers, each over `string` (a sequence of UTF-16 code units in JS,
    of chars here). */
module JsString {

  /** A code point that `trim` strips: ECMAScript WhiteSpace (tab, vertical
      tab, form feed, space, no-break space, the byte order mark and the
      Unicode space separators) or LineTerminator (LF, CR, LS, PS). */
  predicate IsWhitespace(c: char) {
    var n := c as int;
    n == 0x09 || n == 0x0A || n == 0x0B || n == 0x0C || n == 0x0D || n == 0x20
    || n == 0xA0 || n == 0x1680 || (0x2000 <= n <= 0x200A) || n == 0x2028
    || n == 0x2029 || n == 0x202F || n == 0x205F || n == 0x3000 || n == 0xFEFF
  }

  predicate AllWhitespace(s: string) {
    forall i :: 0 <= i < |s| ==> IsWhitespace(s[i])
  }

  /** The index of the first non-whitespace character at or after `from`,
      or |s| when there is none. */
  function SkipWhitespace(s: string, from: nat): (k: nat)
    requires from <= |s|
    ensures from <= k <= |s|
    ensures forall i :: from <= i < k ==> IsWhitespace(s[i])
    ensures k < |s| ==> !IsWhitespace(s[k])
    decreases |s| - from
  {
    if from == |s| || !IsWhitespace(s[from]) then from else SkipWhitespace(s, from + 1)
  }

  /** The end of `s[lo..hi]` once its trailing whitespace is dropped. */
  function SkipWhitespaceBack(s: string, lo: nat, hi: nat): (k: nat)
    requires lo <= hi <= |s|
    ensures lo <= k <= hi
    ensures forall i :: k <= i < hi ==> IsWhitespace(s[i])
    ensures k > lo ==> !IsWhitespace(s[k - 1])
    decreases hi
  {
    if hi == lo || !IsWhitespace(s[hi - 1]) then hi else SkipWhitespaceBack(s, lo, hi - 1)
  }

  /** String.prototype.trim: the slice of `s` between its leading and its
      trailing whitespace. */
  function Trim(s: string): (r: string)
    ensures |r| <= |s|
    ensures r != [] ==> !IsWhitespace(r[0]) && !IsWhitespace(r[|r| - 1])
  {
    var start := SkipWhitespace(s, 0);
    s[start..SkipWhitespaceBack(s, start, |s|)]
  }

  /** Trimming removes only whitespace, at both ends, and keeps the middle
      of `s` verbatim. */
  lemma TrimDecomposition(s: string)
    ensures var start := SkipWhitespace(s, 0);
      var end := SkipWhitespaceBack(s, start, |s|);
      && Trim(s) == s[start..end]
      && (forall i :: 0 <= i < start ==> IsWhitespace(s[i]))
      && (forall i :: end <= i < |s| ==> IsWhitespace(s[i]))
  {
  }

  /** A draft is blank exactly when every character is whitespace. */
  lemma TrimEmptyIffBlank(s: string)
    ensures Trim(s) == [] <==> AllWhitespace(s)
  {
    var start := SkipWhitespace(s, 0);
    var end := SkipWhitespaceBack(s, start, |s|);
    if start < |s| {
      assert !IsWhitespace(s[start]);
      assert end > start;
    }
  }

  /** Trimming twice is trimming once. */
  lemma TrimIdempotent(s: string)
    ensures Trim(Trim(s)) == Trim(s)
  {
    var r := Trim(s);
    if r != [] {
      assert SkipWhitespace(r, 0) == 0;
      assert SkipWhitespaceBack(r, 0, |r|) == |r|;
    }
  }

  /** `k` copies of `c`. */
  function Repeat(c: char, k: nat): (r: string)
    ensures |r| == k
    ensures forall i :: 0 <= i < k ==> r[i] == c
  {
    if k == 0 then [] else [c] + Repeat(c, k - 1)
  }

  /** String.prototype.padStart with a one-character fill: the string is
      left-filled up to length `n`, and kept as it is when already as long. */
  function PadStart(s: string, n: nat, fill: char): (r: string)
    ensures |r| == if |s| < n then n else |s|
    ensures r[|r| - |s|..] == s
    ensures forall i :: 0 <= i < |r| - |s| ==> r[i] == fill
  {
    if |s| < n then Repeat(fill, n - |s|) + s else s
  }

  /** String.prototype.slice with one non-negative start index. */
  function SliceFrom(s: string, start: nat): (r: string)
    ensures |r| == if start < |s| then |s| - start else 0
    ensures forall i :: 0 <= i < |r| ==> r[i] == s[start + i]
  {
    if start < |s| then s[start..] else []
  }

  /** `s.split(sep)[0]`: everything before the first `sep`, or all of `s`
      when there is none. */
  function BeforeFirst(s: string, sep: char): (r: string)
    ensures |r| <= |s| && r == s[..|r|]
    ensures sep !in r
    ensures |r| < |s| ==> s[|r|] == sep
  {
    if s == [] || s[0] == sep then [] else [s[0]] + BeforeFirst(s[1..], sep)
  }

  /** The three properties of BeforeFirst's contract pin its result down:
      any prefix without `sep` that ends at `sep` or at the end of `s` is it. */
  lemma {:induction false} BeforeFirstUnique(s: string, sep: char, r: string)
    requires |r| <= |s| && r == s[..|r|]
    requires sep !in r
    requires |r| < |s| ==> s[|r|] == sep
    ensures BeforeFirst(s, sep) == r
  {
    if s == [] {
    } else if s[0] == sep {
      assert r == [];
    } else {
      assert r != [];
      assert r[0] == s[0];
      assert r[1..] == s[1..][..|r| - 1];
      BeforeFirstUnique(s[1..], sep, r[1..]);
      assert r == [s[0]] + r[1..];
    }
  }

  // ---- decimal rendering of integers, as String(n) does for whole numbers

  predicate IsDigit(c: char) {
    '0' <= c <= '9'
  }

  predicate IsDigits(s: string) {
    forall i :: 0 <= i < |s| ==> IsDigit(s[i])
  }

  function DigitChar(d: nat): (c: char)
    requires d < 10
    ensures IsDigit(c) && c as int - '0' as int == d
  {
    ('0' as int + d) as char
  }

  function Pow10(k: nat): (p: nat)
    ensures p >= 1
  {
    if k == 0 then 1 else 10 * Pow10(k - 1)
  }

  /** The number a string of decimal digits denotes. */
  function DecimalValue(s: string): nat
    requires IsDigits(s)
  {
    if s == [] then 0 else DecimalValue(s[..|s| - 1]) * 10 + (s[|s| - 1] as int - '0' as int)
  }

  /** String(n) for a non-negative integer: its decimal digits, with no
      leading zero except for 0 itself. */
  function NatToString(n: nat): (r: string)
    ensures r != [] && IsDigits(r)
    ensures r[0] == '0' <==> n == 0
    ensures n == 0 ==> r == "0"
  {
    if n < 10 then [DigitChar(n)] else NatToString(n / 10) + [DigitChar(n % 10)]
  }

  /** String(n) for any integer: a minus sign before the digits of |n|. */
  function IntToString(n: int): (r: string)
    ensures r != []
    ensures r[0] == '-' <==> n < 0
    ensures n >= 0 ==> IsDigits(r)
    ensures n < 0 ==> IsDigits(r[1..])
  {
    if n < 0 then "-" + NatToString(-n) else NatToString(n)
  }

  /** Reading String(n) back, past the sign of a negative number, gives n. */
  lemma IntToStringValue(n: int)
    ensures n >= 0 ==> DecimalValue(IntToString(n)) == n
    ensures n < 0 ==> DecimalValue(IntToString(n)[1..]) == -n
  {
    if n < 0 {
      assert IntToString(n)[1..] == NatToString(-n);
      NatToStringValue(-n);
    } else {
      NatToStringValue(n);
    }
  }

  /** Reading the digits back gives the number: rendering loses nothing. */
  lemma {:induction false} NatToStringValue(n: nat)
    ensures DecimalValue(NatToString(n)) == n
  {
    if n >= 10 {
      var s := NatToString(n);
      assert s[..|s| - 1] == NatToString(n / 10);
      NatToStringValue(n / 10);
    }
  }

  /** `n` renders in at most `k` digits exactly when it is below 10^k. */
  lemma {:induction false} NatToStringLength(n: nat, k: nat)
    requires k >= 1
    ensures |NatToString(n)| <= k <==> n < Pow10(k)
  {
    if n < 10 {
      PowAtLeastTen(k);
    } else if k == 1 {
      assert |NatToString(n)| == |NatToString(n / 10)| + 1;
    } else {
      NatToStringLength(n / 10, k - 1);
      assert n / 10 < Pow10(k - 1) <==> n < 10 * Pow10(k - 1);
    }
  }

  lemma {:induction false} PowAtLeastTen(k: nat)
    requires k >= 1
    ensures Pow10(k) >= 10
  {
    if k > 1 { PowAtLeastTen(k - 1); }
  }

  /** Zeros in front do not change the value of a digit string. */
  lemma {:induction false} LeadingZerosValue(k: nat, s: string)
    requires IsDigits(s)
    ensures IsDigits(Repeat('0', k) + s)
    ensures DecimalValue(Repeat('0', k) + s) == DecimalValue(s)
  {
    var z := Repeat('0', k);
    if s == [] {
      assert z + s == z;
      ZerosValue(k);
    } else {
      var t := z + s;
      assert t[..|t| - 1] == z + s[..|s| - 1];
      LeadingZerosValue(k, s[..|s| - 1]);
    }
  }

  lemma {:induction false} ZerosValue(k: nat)
    ensures IsDigits(Repeat('0', k))
    ensures DecimalValue(Repeat('0', k)) == 0
  {
    if k > 0 {
      var z := Repeat('0', k);
      assert z[..|z| - 1] == Repeat('0', k - 1);
      ZerosValue(k - 1);
    }
  }

  /** The value of a concatenation: the left part is shifted by the length of
      the right part. */
  lemma {:induction false} DecimalValueAppend(a: string, b: string)
    requires IsDigits(a) && IsDigits(b)
    ensures IsDigits(a + b)
    ensures DecimalValue(a + b) == DecimalValue(a) * Pow10(|b|) + DecimalValue(b)
  {
    if b == [] {
      assert a + b == a;
    } else {
      var t := a + b;
      var b' := b[..|b| - 1];
      var c := b[|b| - 1] as int - '0' as int;
      assert t[..|t| - 1] == a + b';
      DecimalValueAppend(a, b');
      var x, p, y := DecimalValue(a), Pow10(|b'|), DecimalValue(b');
      assert DecimalValue(t) == (x * p + y) * 10 + c;
      assert Pow10(|b|) == p * 10;
      assert (x * p) * 10 == x * (p * 10) by { MulAssoc(x, p, 10); }
    }
  }

  /** The last `k` digits of a digit string denote its value modulo 10^k. */
  lemma LastDigitsValue(s: string, k: nat)
    requires IsDigits(s) && k <= |s|
    ensures IsDigits(s[|s| - k..])
    ensures DecimalValue(s[|s| - k..]) == DecimalValue(s) % Pow10(k)
  {
    var hi, lo := s[..|s| - k], s[|s| - k..];
    assert |lo| == k;
    assert hi + lo == s;
    DecimalValueAppend(hi, lo);
    DecimalValueBound(lo);
    ModUnique(DecimalValue(hi + lo), DecimalValue(hi), DecimalValue(lo), Pow10(|lo|));
  }

  /** Euclidean division is unique: a remainder in [0, p) is `n % p`. */
  lemma ModUnique(n: int, q: int, r: int, p: int)
    requires p > 0 && n == q * p + r && 0 <= r < p
    ensures n % p == r
  {
    var q', r' := n / p, n % p;
    assert n == q' * p + r';
    var d := q - q';
    assert d * p == r' - r by { Distrib(q, q', p); }
    if d >= 1 {
      MulAtLeast(d, p);
    } else if d <= -1 {
      MulAtLeast(-d, p);
    }
  }

  lemma Distrib(a: int, b: int, p: int)
    ensures (a - b) * p == a * p - b * p
  {
  }

  lemma MulAtLeast(d: int, p: int)
    requires d >= 1 && p > 0
    ensures d * p >= p
  {
    assert d * p == (d - 1) * p + p;
  }

  lemma MulAssoc(x: int, y: int, z: int)
    ensures (x * y) * z == x * (y * z)
  {
  }

  /** A digit string of length k denotes a number below 10^k. */
  lemma {:induction false} DecimalValueBound(s: string)
    requires IsDigits(s)
    ensures DecimalValue(s) < Pow10(|s|)
  {
    if s != [] {
      DecimalValueBound(s[..|s| - 1]);
    }
  }
}
