/**
 * The pieces of JavaScript's string semantics the analysis code relies on:
 * the `\s` / `trim()` whitespace class, `String.prototype.slice`,
 * `split(" ")`, decimal rendering of small integers and `parseInt` in
 * bases 10 and 16.
 */
module JsText {
  import opened Wrappers

  /** The LineTerminator code points: what `.` refuses and `^`/`$` see in multiline mode. */
  predicate IsLineTerminator(c: char) {
    c == '\n' || c == '\r' || c == '\U{2028}' || c == '\U{2029}'
  }

  /** The WhiteSpace and LineTerminator code points: the `\s` class and what `trim()` strips. */
  predicate IsWhiteSpace(c: char) {
    || c == ' ' || c == '\t' || c == '\U{000B}' || c == '\U{000C}'
    || c == '\U{00A0}' || c == '\U{FEFF}' || c == '\U{1680}'
    || ('\U{2000}' <= c <= '\U{200A}')
    || c == '\U{202F}' || c == '\U{205F}' || c == '\U{3000}'
    || IsLineTerminator(c)
  }

  /** Number of leading whitespace characters of `s`. */
  function LeadingSpace(s: string): (n: nat)
    ensures n <= |s|
    ensures forall k :: 0 <= k < n ==> IsWhiteSpace(s[k])
    ensures n < |s| ==> !IsWhiteSpace(s[n])
  {
    if s == [] || !IsWhiteSpace(s[0]) then 0 else 1 + LeadingSpace(s[1..])
  }

  /** Index where the trailing whitespace run of `s` begins. */
  function TrailingStart(s: string): (m: nat)
    ensures m <= |s|
    ensures forall k :: m <= k < |s| ==> IsWhiteSpace(s[k])
    ensures 0 < m ==> !IsWhiteSpace(s[m - 1])
  {
    if s == [] || !IsWhiteSpace(s[|s| - 1]) then |s| else TrailingStart(s[..|s| - 1])
  }

  /** `String.prototype.trim`: strips whitespace from both ends. */
  function Trim(s: string): (r: string)
    ensures r == [] <==> forall k :: 0 <= k < |s| ==> IsWhiteSpace(s[k])
    ensures r != [] ==> !IsWhiteSpace(r[0]) && !IsWhiteSpace(r[|r| - 1])
    ensures LeadingSpace(s) + |r| <= |s|
    ensures r == s[LeadingSpace(s)..LeadingSpace(s) + |r|]
    ensures forall k :: LeadingSpace(s) + |r| <= k < |s| ==> IsWhiteSpace(s[k])
  {
    var lead := LeadingSpace(s);
    if lead == |s| then []
    else
      var trail := TrailingStart(s);
      assert !IsWhiteSpace(s[lead]);
      s[lead..trail]
  }

  /** `s.slice(a, b)` for non-negative bounds: both are clamped to the length. */
  function Slice(s: string, a: nat, b: nat): (r: string)
    ensures a <= b <= |s| ==> r == s[a..b]
    ensures |r| <= |s|
    ensures a <= b ==> |r| <= b - a
  {
    var lo := if a < |s| then a else |s|;
    var hi := if b < |s| then b else |s|;
    if hi <= lo then [] else s[lo..hi]
  }

  /** Index of the first occurrence of `c` in `s`, or `|s|` when there is none. */
  function IndexOf(s: string, c: char): (i: nat)
    ensures i <= |s|
    ensures i < |s| ==> s[i] == c
    ensures forall k :: 0 <= k < i ==> s[k] != c
  {
    if s == [] then 0 else if s[0] == c then 0 else 1 + IndexOf(s[1..], c)
  }

  /** `s.split(" ")`: the pieces between single spaces, empty pieces included. */
  function Fields(s: string): (r: seq<string>)
    ensures |r| >= 1
    ensures forall k :: 0 <= k < |r| ==> ' ' !in r[k]
    decreases |s|
  {
    var i := IndexOf(s, ' ');
    if i == |s| then [s] else [s[..i]] + Fields(s[i + 1..])
  }

  /** Joins pieces with single spaces: the inverse of `Fields`. */
  function JoinSpaces(parts: seq<string>): string
    requires |parts| >= 1
  {
    if |parts| == 1 then parts[0] else parts[0] + " " + JoinSpaces(parts[1..])
  }

  lemma {:induction false} FieldsJoin(s: string)
    ensures JoinSpaces(Fields(s)) == s
    decreases |s|
  {
    var i := IndexOf(s, ' ');
    if i < |s| {
      var rest := s[i + 1..];
      FieldsJoin(rest);
      FieldsStep(s, i);
      JoinStep(s[..i], Fields(rest));
      assert s == s[..i] + " " + rest;
    }
  }

  /** Splitting at the first space: the piece before it, then the split of the rest. */
  lemma {:induction false} FieldsStep(s: string, i: nat)
    requires i == IndexOf(s, ' ') < |s|
    ensures Fields(s) == [s[..i]] + Fields(s[i + 1..])
  {
  }

  lemma {:induction false} JoinStep(p: string, ps: seq<string>)
    requires |ps| >= 1
    ensures JoinSpaces([p] + ps) == p + " " + JoinSpaces(ps)
  {
    assert ([p] + ps)[1..] == ps;
  }

  lemma {:induction false} JoinFields(parts: seq<string>)
    requires |parts| >= 1
    requires forall k :: 0 <= k < |parts| ==> ' ' !in parts[k]
    ensures Fields(JoinSpaces(parts)) == parts
    decreases |parts|
  {
    if |parts| > 1 {
      var p := parts[0];
      var rest := JoinSpaces(parts[1..]);
      assert parts == [p] + parts[1..];
      JoinStep(p, parts[1..]);
      var s := p + " " + rest;
      IndexOfPrefix(p, rest);
      JoinFields(parts[1..]);
      SplitAround(p, rest);
      FieldsStep(s, |p|);
    } else {
      var s := parts[0];
      assert forall k :: 0 <= k < |s| ==> s[k] != ' ';
    }
  }

  lemma {:induction false} SplitAround(p: string, rest: string)
    ensures (p + " " + rest)[..|p|] == p
    ensures (p + " " + rest)[|p| + 1..] == rest
  {
    var s := p + " " + rest;
    assert s[..|p|] == p;
    assert s[|p| + 1..] == rest;
  }

  lemma {:induction false} IndexOfPrefix(p: string, rest: string)
    requires ' ' !in p
    ensures IndexOf(p + " " + rest, ' ') == |p|
  {
    var s := p + " " + rest;
    assert s[|p|] == ' ';
  }

  /** The `k`-th element of `s.split(" ")`, or `None` where JavaScript gives `undefined`. */
  function Field(s: string, k: nat): Option<string> {
    var fs := Fields(s);
    if k < |fs| then Some(fs[k]) else None
  }

  predicate IsDigit(c: char) { '0' <= c <= '9' }

  function DigitChar(d: nat): (c: char)
    requires d < 10
    ensures IsDigit(c)
  {
    "0123456789"[d]
  }

  function DigitValue(c: char): (d: nat)
    requires IsDigit(c)
    ensures d < 10
    ensures DigitChar(d) == c
  {
    (c as int - '0' as int) as nat
  }

  /** The decimal rendering JavaScript gives a non-negative integer in a template string. */
  function DecimalString(n: nat): (r: string)
    ensures |r| >= 1
    ensures forall k :: 0 <= k < |r| ==> IsDigit(r[k])
    ensures n < 10 <==> |r| == 1
  {
    if n < 10 then [DigitChar(n)] else DecimalString(n / 10) + [DigitChar(n % 10)]
  }

  /** `parseInt(ds, 10)` for a non-empty run of decimal digits. */
  function DecimalValue(ds: string): nat
    requires forall k :: 0 <= k < |ds| ==> IsDigit(ds[k])
  {
    if ds == [] then 0 else DecimalValue(ds[..|ds| - 1]) * 10 + DigitValue(ds[|ds| - 1])
  }

  lemma {:induction false} DecimalRoundTrip(n: nat)
    ensures DecimalValue(DecimalString(n)) == n
  {
    if n >= 10 {
      var q, d := n / 10, n % 10;
      DecimalRoundTrip(q);
      var r := DecimalString(n);
      assert r[..|r| - 1] == DecimalString(q);
      assert r[|r| - 1] == DigitChar(d);
      DigitRoundTrip(d);
      assert DecimalValue(r) == q * 10 + d;
    } else {
      DigitRoundTrip(n);
    }
  }

  lemma {:induction false} DigitRoundTrip(d: nat)
    requires d < 10
    ensures DigitValue(DigitChar(d)) == d
  {
  }


  predicate IsHexDigit(c: char) {
    IsDigit(c) || ('a' <= c <= 'f') || ('A' <= c <= 'F')
  }

  function HexDigitValue(c: char): (d: nat)
    requires IsHexDigit(c)
    ensures d < 16
  {
    if IsDigit(c) then DigitValue(c)
    else if 'a' <= c <= 'f' then (c as int - 'a' as int + 10) as nat
    else (c as int - 'A' as int + 10) as nat
  }

  /** The upper-case hexadecimal digit `toString(16).toUpperCase()` produces for `d`. */
  function UpperHexDigit(d: nat): (c: char)
    requires d < 16
    ensures IsHexDigit(c) && HexDigitValue(c) == d
  {
    "0123456789ABCDEF"[d]
  }

  /** Length of the run of hexadecimal digits at the start of `s`. */
  function HexPrefixLength(s: string): (n: nat)
    ensures n <= |s|
    ensures forall k :: 0 <= k < n ==> IsHexDigit(s[k])
    ensures n < |s| ==> !IsHexDigit(s[n])
  {
    if s == [] || !IsHexDigit(s[0]) then 0 else 1 + HexPrefixLength(s[1..])
  }

  /** Value of a run of hexadecimal digits, most significant first. */
  function HexValue(ds: string): nat
    requires forall k :: 0 <= k < |ds| ==> IsHexDigit(ds[k])
  {
    if ds == [] then 0 else HexValue(ds[..|ds| - 1]) * 16 + HexDigitValue(ds[|ds| - 1])
  }

  /**
   * `parseInt(s, 16)` as `hexToRgb` uses it, on a two-character slice of a
   * bucket key: the value of the longest leading run of hexadecimal digits,
   * or `None` (`NaN`) when `s` does not start with one. The leading
   * whitespace, sign and `0x` prefix that `parseInt` also accepts never occur
   * in a bucket key and are not modelled.
   */
  function ParseHex(s: string): (r: Option<nat>)
    ensures r.None? <==> (s == [] || !IsHexDigit(s[0]))
  {
    var n := HexPrefixLength(s);
    if n == 0 then None else Some(HexValue(s[..n]))
  }
}
