/** The JavaScript string operations the core relies on: `trim`,
    `toLowerCase`, `includes`, `join`, number-to-string conversion of
    indices, and the splitting that reads joined text back. */
module JsString {

  // ---------------------------------------------------------------------
  // String.prototype.trim
  // ---------------------------------------------------------------------

  /** The ECMAScript WhiteSpace and LineTerminator code points, the set
      `trim` removes. */
  predicate IsWhiteSpace(c: char) {
    var n := c as int;
    n == 0x09 || n == 0x0A || n == 0x0B || n == 0x0C || n == 0x0D || n == 0x20 ||
    n == 0xA0 || n == 0x1680 || (0x2000 <= n <= 0x200A) || n == 0x2028 ||
    n == 0x2029 || n == 0x202F || n == 0x205F || n == 0x3000 || n == 0xFEFF
  }

  predicate AllWhiteSpace(s: string) {
    forall k :: 0 <= k < |s| ==> IsWhiteSpace(s[k])
  }

  /** The first index at or after `i` that does not hold white space, or
      `|s|`. */
  function SkipLeading(s: string, i: nat): (n: nat)
    requires i <= |s|
    ensures i <= n <= |s|
    ensures forall k :: i <= k < n ==> IsWhiteSpace(s[k])
    ensures n < |s| ==> !IsWhiteSpace(s[n])
    decreases |s| - i
  {
    if i < |s| && IsWhiteSpace(s[i]) then SkipLeading(s, i + 1) else i
  }

  /** The end of `s[lo..j]` once its trailing white space is dropped. */
  function SkipTrailing(s: string, lo: nat, j: nat): (m: nat)
    requires lo <= j <= |s|
    ensures lo <= m <= j
    ensures forall k :: m <= k < j ==> IsWhiteSpace(s[k])
    ensures m > lo ==> !IsWhiteSpace(s[m - 1])
    decreases j
  {
    if j > lo && IsWhiteSpace(s[j - 1]) then SkipTrailing(s, lo, j - 1) else j
  }

  /** `s.trim()`: `s` without its leading and trailing white space. */
  function Trim(s: string): (r: string)
    ensures exists i :: 0 <= i <= |s| - |r| && s[i..i + |r|] == r &&
                        AllWhiteSpace(s[..i]) && AllWhiteSpace(s[i + |r|..])
    ensures r != [] ==> !IsWhiteSpace(r[0]) && !IsWhiteSpace(r[|r| - 1])
    ensures r == [] <==> AllWhiteSpace(s)
  {
    var a := SkipLeading(s, 0);
    var b := SkipTrailing(s, a, |s|);
    var r := s[a..b];
    assert AllWhiteSpace(s[..a]) && AllWhiteSpace(s[a + |r|..]) && s[a..a + |r|] == r;
    assert r != [] ==> r[0] == s[a] && r[|r| - 1] == s[b - 1];
    assert AllWhiteSpace(s) ==> a == |s|;
    assert r == [] ==> a == |s| && s[..a] == s;
    r
  }

  /** Trimming twice is trimming once. */
  lemma TrimIdempotent(s: string)
    ensures Trim(Trim(s)) == Trim(s)
  {
    var r := Trim(s);
    assert SkipLeading(r, 0) == 0;
    assert SkipTrailing(r, 0, |r|) == |r|;
    assert r[0..|r|] == r;
  }

  // ---------------------------------------------------------------------
  // String.prototype.toLowerCase and String.prototype.includes
  // ---------------------------------------------------------------------

  /** Lower-case mapping of one character; only A-Z are mapped. */
  function LowerChar(c: char): char {
    if 'A' <= c <= 'Z' then (c as int - 'A' as int + 'a' as int) as char else c
  }

  /** `s.toLowerCase()` on ASCII letters: the result has no upper-case
      ASCII letter, and each character is the original or, for `A`-`Z`, the
      letter 32 code points later. */
  function ToLower(s: string): (r: string)
    ensures |r| == |s|
    ensures forall k :: 0 <= k < |s| ==> !('A' <= r[k] <= 'Z')
    ensures forall k :: 0 <= k < |s| ==>
      if 'A' <= s[k] <= 'Z' then r[k] as int == s[k] as int + 32 else r[k] == s[k]
  {
    seq(|s|, k requires 0 <= k < |s| => LowerChar(s[k]))
  }

  predicate StartsWith(s: string, prefix: string) {
    |prefix| <= |s| && s[..|prefix|] == prefix
  }

  /** `s.includes(t)`: scans the start positions of `s` left to right. */
  function Includes(s: string, t: string): bool
    decreases |s|
  {
    StartsWith(s, t) || (s != [] && Includes(s[1..], t))
  }

  /** `t` occurs in `s` starting at position `i`. */
  predicate OccursAt(s: string, t: string, i: int) {
    0 <= i <= |s| - |t| && s[i..i + |t|] == t
  }

  /** `includes` holds exactly when `t` occurs in `s` at some position. */
  lemma {:induction false} IncludesIff(s: string, t: string)
    ensures Includes(s, t) <==> exists i :: OccursAt(s, t, i)
    decreases |s|
  {
    if StartsWith(s, t) {
      assert OccursAt(s, t, 0);
    } else if s == [] {
    } else {
      IncludesIff(s[1..], t);
      if Includes(s[1..], t) {
        var i :| OccursAt(s[1..], t, i);
        assert s[1..][i..i + |t|] == s[i + 1..i + 1 + |t|];
        assert OccursAt(s, t, i + 1);
      } else {
        forall i | 0 <= i <= |s| - |t| ensures !OccursAt(s, t, i) {
          if i == 0 {
            assert s[..|t|] == s[0..0 + |t|];
          } else {
            assert s[i..i + |t|] == s[1..][i - 1..i - 1 + |t|];
            assert !OccursAt(s[1..], t, i - 1);
          }
        }
      }
    }
  }

  /** The empty search term is included in every string. */
  lemma IncludesEmpty(s: string)
    ensures Includes(s, "")
  {
    assert StartsWith(s, "");
  }

  // ---------------------------------------------------------------------
  // Decimal rendering of indices, as a template literal `${n}` does
  // ---------------------------------------------------------------------

  predicate IsDigit(c: char) { '0' as int <= c as int <= '9' as int }

  predicate IsDigits(s: string) {
    |s| > 0 && forall k :: 0 <= k < |s| ==> IsDigit(s[k])
  }

  function DigitChar(d: nat): (c: char)
    requires d < 10
    ensures IsDigit(c) && c as int - '0' as int == d
  {
    (d + '0' as int) as char
  }

  /** The decimal rendering of `n`, most significant digit first. */
  function NatToString(n: nat): (s: string)
    ensures IsDigits(s)
    decreases n
  {
    if n < 10 then [DigitChar(n)] else NatToString(n / 10) + [DigitChar(n % 10)]
  }

  /** The number a string of decimal digits denotes. */
  function DecimalValue(s: string): nat
    requires forall k :: 0 <= k < |s| ==> IsDigit(s[k])
    decreases |s|
  {
    if s == [] then 0
    else
      assert IsDigit(s[|s| - 1]);
      DecimalValue(s[..|s| - 1]) * 10 + (s[|s| - 1] as int - '0' as int)
  }

  /** Reading back a rendered index gives the index. */
  lemma {:induction false} DecimalRoundTrip(n: nat)
    ensures DecimalValue(NatToString(n)) == n
    decreases n
  {
    if n >= 10 {
      var s := NatToString(n);
      DecimalRoundTrip(n / 10);
      assert s[..|s| - 1] == NatToString(n / 10);
    }
  }

  // ---------------------------------------------------------------------
  // Array.prototype.join, and the split that inverts it
  // ---------------------------------------------------------------------

  /** `xs.join(sep)`. */
  function Join(xs: seq<string>, sep: string): string
    decreases |xs|
  {
    if |xs| == 0 then "" else if |xs| == 1 then xs[0] else xs[0] + sep + Join(xs[1..], sep)
  }

  /** Splits `s` at every occurrence of `sep`, scanning left to right. */
  function SplitOn(s: string, sep: string): (r: seq<string>)
    requires |sep| > 0
    ensures |r| > 0
    decreases |s|
  {
    if |sep| <= |s| && s[..|sep|] == sep then [""] + SplitOn(s[|sep|..], sep)
    else if s == [] then [""]
    else
      var t := SplitOn(s[1..], sep);
      [[s[0]] + t[0]] + t[1..]
  }

  /** `s` does not contain the character `c`. */
  predicate Avoids(s: string, c: char) {
    forall k :: 0 <= k < |s| ==> s[k] != c
  }

  /** A string free of the separator's first character is one piece. */
  lemma {:induction false} SplitNoSeparator(x: string, sep: string)
    requires |sep| > 0 && Avoids(x, sep[0])
    ensures SplitOn(x, sep) == [x]
    decreases |x|
  {
    if x != [] {
      assert |sep| <= |x| ==> x[..|sep|][0] != sep[0];
      assert Avoids(x[1..], sep[0]);
      SplitNoSeparator(x[1..], sep);
      assert [x[0]] + x[1..] == x;
    }
  }

  /** Splitting `x + sep + y` first yields `x` when `x` is free of the
      separator's first character. */
  lemma {:induction false} SplitAfterPiece(x: string, sep: string, y: string)
    requires |sep| > 0 && Avoids(x, sep[0])
    ensures SplitOn(x + sep + y, sep) == [x] + SplitOn(y, sep)
    decreases |x|
  {
    var s := x + sep + y;
    if x == [] {
      assert s == sep + y;
      assert s[..|sep|] == sep;
      assert s[|sep|..] == y;
    } else {
      assert s[0] == x[0];
      assert |sep| <= |s| ==> s[..|sep|][0] != sep[0];
      assert Avoids(x[1..], sep[0]);
      assert s[1..] == x[1..] + sep + y;
      SplitAfterPiece(x[1..], sep, y);
      assert [x[0]] + x[1..] == x;
    }
  }

  /** `SplitOn` inverts `Join` when no piece holds the separator's first
      character. */
  lemma {:induction false} SplitJoin(xs: seq<string>, sep: string)
    requires |xs| > 0 && |sep| > 0
    requires forall k :: 0 <= k < |xs| ==> Avoids(xs[k], sep[0])
    ensures SplitOn(Join(xs, sep), sep) == xs
    decreases |xs|
  {
    if |xs| == 1 {
      SplitNoSeparator(xs[0], sep);
    } else {
      SplitJoin(xs[1..], sep);
      SplitAfterPiece(xs[0], sep, Join(xs[1..], sep));
      assert [xs[0]] + xs[1..] == xs;
    }
  }

  /** A character found in neither the pieces nor the separator is not in
      the joined string. */
  lemma {:induction false} JoinAvoids(xs: seq<string>, sep: string, c: char)
    requires Avoids(sep, c)
    requires forall k :: 0 <= k < |xs| ==> Avoids(xs[k], c)
    ensures Avoids(Join(xs, sep), c)
    decreases |xs|
  {
    if |xs| > 1 {
      JoinAvoids(xs[1..], sep, c);
    }
  }
}
