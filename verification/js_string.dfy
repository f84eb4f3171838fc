/** The few JavaScript string operations the components rely on:
    `String.prototype.trim`, `startsWith`, the truthiness of a nullable
    string, and the decimal rendering of a non-negative integer used in
    template literals. */
module JsString {
  import opened Wrappers

  /** JavaScript truthiness of a `string | null`: null and "" are false. */
  predicate IsTruthy(s: Option<string>) {
    s.Some? && s.value != ""
  }

  /** The code points `trim` removes: ECMAScript WhiteSpace (tab, vertical
      tab, form feed, byte-order mark and every Space_Separator) and
      LineTerminator (line feed, carriage return, U+2028, U+2029). */
  predicate IsJsWhiteSpace(c: char) {
    var n := c as int;
    n == 0x09 || n == 0x0A || n == 0x0B || n == 0x0C || n == 0x0D || n == 0x20
    || n == 0xA0 || n == 0x1680 || (0x2000 <= n <= 0x200A)
    || n == 0x2028 || n == 0x2029 || n == 0x202F || n == 0x205F
    || n == 0x3000 || n == 0xFEFF
  }

  predicate AllWhiteSpace(s: string) {
    forall i :: 0 <= i < |s| ==> IsJsWhiteSpace(s[i])
  }

  /** A string `trim` leaves alone: empty, or with non-white-space ends. */
  predicate IsTrimmed(s: string) {
    s == [] || (!IsJsWhiteSpace(s[0]) && !IsJsWhiteSpace(s[|s| - 1]))
  }

  /** The number of white-space characters at the front of `s`. */
  function LeadingSpace(s: string): (n: nat)
    ensures n <= |s|
    ensures n < |s| ==> !IsJsWhiteSpace(s[n])
  {
    if |s| > 0 && IsJsWhiteSpace(s[0]) then 1 + LeadingSpace(s[1..]) else 0
  }

  /** The number of white-space characters at the back of `s`. */
  function TrailingSpace(s: string): (n: nat)
    ensures n <= |s|
    ensures n < |s| ==> !IsJsWhiteSpace(s[|s| - 1 - n])
  {
    if |s| > 0 && IsJsWhiteSpace(s[|s| - 1]) then 1 + TrailingSpace(s[..|s| - 1]) else 0
  }

  /** `String.prototype.trimStart`: drops the leading white space. */
  function TrimStart(s: string): string
  {
    s[LeadingSpace(s)..]
  }

  /** `String.prototype.trimEnd`: drops the trailing white space. */
  function TrimEnd(s: string): string
  {
    s[..|s| - TrailingSpace(s)]
  }

  /** `String.prototype.trim`: the input with white space removed from both
      ends; the result starts and ends with non-white-space. */
  function Trim(s: string): (r: string)
    ensures IsTrimmed(r)
    ensures |r| <= |s|
  {
    TrimEnd(TrimStart(s))
  }

  lemma {:induction false} LeadingSpaceIsWhiteSpace(s: string)
    ensures AllWhiteSpace(s[..LeadingSpace(s)])
    decreases |s|
  {
    if |s| > 0 && IsJsWhiteSpace(s[0]) {
      LeadingSpaceIsWhiteSpace(s[1..]);
      assert s[..LeadingSpace(s)] == [s[0]] + s[1..][..LeadingSpace(s[1..])];
    }
  }

  lemma {:induction false} TrailingSpaceIsWhiteSpace(s: string)
    ensures AllWhiteSpace(s[|s| - TrailingSpace(s)..])
    decreases |s|
  {
    if |s| > 0 && IsJsWhiteSpace(s[|s| - 1]) {
      var u := s[..|s| - 1];
      TrailingSpaceIsWhiteSpace(u);
      var k := |u| - TrailingSpace(u);
      assert |s| - TrailingSpace(s) == k;
      forall i | k <= i < |s|
        ensures IsJsWhiteSpace(s[i])
      {
        if i < |u| {
          assert s[i] == u[k..][i - k];
        }
      }
    }
  }

  lemma SliceOfSuffix(s: string, k: nat, n: nat)
    requires k + n <= |s|
    ensures s[k..k + n] == s[k..][..n] && s[k + n..] == s[k..][n..]
  {
  }

  /** What `trim` removes is white space at the two ends and nothing else. */
  lemma TrimRemovesOnlyWhiteSpace(s: string)
    ensures var r := Trim(s);
            exists k :: 0 <= k <= |s| - |r| && s[k..k + |r|] == r
                        && AllWhiteSpace(s[..k]) && AllWhiteSpace(s[k + |r|..])
  {
    var k := LeadingSpace(s);
    var t := TrimStart(s);
    var r := Trim(s);
    LeadingSpaceIsWhiteSpace(s);
    TrailingSpaceIsWhiteSpace(t);
    assert r == t[..|r|] && |r| == |t| - TrailingSpace(t);
    SliceOfSuffix(s, k, |r|);
  }

  /** `s.startsWith(p)` */
  predicate StartsWith(s: string, p: string) {
    |p| <= |s| && s[..|p|] == p
  }

  lemma {:induction false} LeadingSpaceSkips(a: string, t: string)
    requires AllWhiteSpace(a)
    ensures LeadingSpace(a + t) == |a| + LeadingSpace(t)
    decreases |a|
  {
    if a != [] {
      assert (a + t)[0] == a[0];
      assert (a + t)[1..] == a[1..] + t;
      LeadingSpaceSkips(a[1..], t);
    } else {
      assert a + t == t;
    }
  }

  lemma {:induction false} TrailingSpaceSkips(t: string, b: string)
    requires AllWhiteSpace(b)
    ensures TrailingSpace(t + b) == TrailingSpace(t) + |b|
    decreases |b|
  {
    if b != [] {
      assert (t + b)[|t + b| - 1] == b[|b| - 1];
      assert (t + b)[..|t + b| - 1] == t + b[..|b| - 1];
      TrailingSpaceSkips(t, b[..|b| - 1]);
    } else {
      assert t + b == t;
    }
  }

  /** The characterisation of `trim`: whatever white space surrounds a
      trimmed core, `trim` returns exactly that core. */
  lemma TrimOfPadded(a: string, m: string, b: string)
    requires AllWhiteSpace(a) && AllWhiteSpace(b) && IsTrimmed(m)
    ensures Trim(a + m + b) == m
  {
    if m == [] {
      TrimOfWhiteSpace(a, b);
      assert a + m + b == a + b;
    } else {
      TrimOfPaddedCore(a, m, b);
    }
  }

  lemma TrimOfWhiteSpace(a: string, b: string)
    requires AllWhiteSpace(a) && AllWhiteSpace(b)
    ensures Trim(a + b) == []
  {
    LeadingSpaceSkips(a, b);
    LeadingSpaceSkips(b, []);
    assert b + [] == b;
  }

  lemma TrimOfPaddedCore(a: string, m: string, b: string)
    requires AllWhiteSpace(a) && AllWhiteSpace(b) && IsTrimmed(m) && m != []
    ensures Trim(a + m + b) == m
  {
    var s := a + m + b;
    assert s == a + (m + b);
    LeadingSpaceSkips(a, m + b);
    assert (m + b)[0] == m[0];
    assert TrimStart(s) == m + b;
    TrailingSpaceSkips(m, b);
    assert m[|m| - 1 - 0] == m[|m| - 1];
    assert TrailingSpace(m) == 0;
    assert (m + b)[..|m|] == m;
  }

  /** A trimmed string is its own trim. */
  lemma TrimOfTrimmed(s: string)
    requires IsTrimmed(s)
    ensures Trim(s) == s
  {
    assert [] + s + [] == s;
    TrimOfPadded([], s, []);
  }

  /** `trim` is idempotent. */
  lemma TrimIdempotent(s: string)
    ensures Trim(Trim(s)) == Trim(s)
  {
    TrimOfTrimmed(Trim(s));
  }

  // ----- decimal rendering of non-negative integers ------------------------

  function DigitChar(d: nat): (c: char)
    requires d < 10
    ensures '0' <= c <= '9' && c as int - '0' as int == d
  {
    ('0' as int + d) as char
  }

  /** `String(n)` for a non-negative integer `n`: its decimal digits, with no
      leading zero unless `n` is zero. */
  function NatToDecimal(n: nat): (r: string)
    ensures |r| > 0
    ensures forall i :: 0 <= i < |r| ==> '0' <= r[i] <= '9'
    ensures r[0] == '0' ==> n == 0
    decreases n
  {
    if n < 10 then [DigitChar(n)] else NatToDecimal(n / 10) + [DigitChar(n % 10)]
  }

  /** A decimal numeral as `String(n)` writes it: digits only, non-empty,
      and no leading zero unless it is "0" itself. */
  predicate IsDecimal(d: string) {
    && |d| > 0
    && (forall i :: 0 <= i < |d| ==> '0' <= d[i] <= '9')
    && (d[0] == '0' ==> d == "0")
  }

  /** The value of a string of decimal digits, read most significant first. */
  function DecimalValue(s: string): nat
    requires forall i :: 0 <= i < |s| ==> '0' <= s[i] <= '9'
  {
    if s == [] then 0
    else 10 * DecimalValue(s[..|s| - 1]) + (s[|s| - 1] as int - '0' as int)
  }

  /** Reading back the rendered digits gives the number. */
  lemma {:induction false} DecimalRoundTrip(n: nat)
    ensures DecimalValue(NatToDecimal(n)) == n
    decreases n
  {
    if n >= 10 {
      var r := NatToDecimal(n);
      assert r[..|r| - 1] == NatToDecimal(n / 10);
      DecimalRoundTrip(n / 10);
    }
  }
}
