/**
 * The JavaScript string operations the extension relies on: the `\s`
 * character class and `trim()`, ASCII lower-casing, `includes`, `startsWith`,
 * `join`, `substring(0, n)` and the decimal rendering of integers.
 */
module Text {

  /** JavaScript's WhiteSpace and LineTerminator characters: what `\s` matches and `trim()` removes. */
  predicate IsSpace(c: char) {
    c == ' ' || c == '\t' || c == '\n' || c == '\r' || c == '\U{B}' || c == '\U{C}' ||
    c == '\U{A0}' || c == '\U{1680}' || ('\U{2000}' <= c <= '\U{200A}') ||
    c == '\U{2028}' || c == '\U{2029}' || c == '\U{202F}' || c == '\U{205F}' ||
    c == '\U{3000}' || c == '\U{FEFF}'
  }

  /** Index of the first `c` at or after `i`, or `|s|` when there is none. */
  function IndexFrom(s: string, c: char, i: nat): (q: nat)
    requires i <= |s|
    ensures i <= q <= |s|
    ensures forall k :: i <= k < q ==> s[k] != c
    ensures q < |s| ==> s[q] == c
    decreases |s| - i
  {
    if i == |s| || s[i] == c then i else IndexFrom(s, c, i + 1)
  }

  /** `s.trimStart()`: the suffix of `s` after its leading white space. */
  function TrimStart(s: string): string
  {
    if s != [] && IsSpace(s[0]) then TrimStart(s[1..]) else s
  }

  /** `trimStart` removes exactly the leading white space: what is left is a suffix that does not start with it. */
  lemma {:induction false} TrimStartShape(s: string)
    ensures var r := TrimStart(s);
      |r| <= |s| && r == s[|s| - |r|..] && (r == [] || !IsSpace(r[0])) &&
      forall i :: 0 <= i < |s| - |r| ==> IsSpace(s[i])
  {
    if s != [] && IsSpace(s[0]) {
      var t := s[1..];
      TrimStartShape(t);
      var r := TrimStart(t);
      assert TrimStart(s) == r;
      assert t[|t| - |r|..] == s[|s| - |r|..];
      forall i | 0 <= i < |s| - |r| ensures IsSpace(s[i]) {
        if i > 0 { assert s[i] == t[i - 1]; }
      }
    }
  }

  /** `s.trimEnd()`: the prefix of `s` before its trailing white space. */
  function TrimEnd(s: string): string
  {
    if s != [] && IsSpace(s[|s| - 1]) then TrimEnd(s[..|s| - 1]) else s
  }

  /** `trimEnd` removes exactly the trailing white space: what is left is a prefix that does not end with it. */
  lemma {:induction false} TrimEndShape(s: string)
    ensures var r := TrimEnd(s);
      |r| <= |s| && r == s[..|r|] && (r == [] || !IsSpace(r[|r| - 1])) &&
      forall i :: |r| <= i < |s| ==> IsSpace(s[i])
  {
    if s != [] && IsSpace(s[|s| - 1]) {
      TrimEndShape(s[..|s| - 1]);
    }
  }

  /** White space alone trims from the start to nothing. */
  lemma {:induction false} TrimStartAllSpace(s: string)
    requires forall i :: 0 <= i < |s| ==> IsSpace(s[i])
    ensures TrimStart(s) == []
  {
    if s != [] {
      TrimStartAllSpace(s[1..]);
    }
  }

  /** `s.trim()`. */
  function Trim(s: string): (r: string)
    ensures |r| <= |s|
    ensures r == [] || (!IsSpace(r[0]) && !IsSpace(r[|r| - 1]))
    ensures forall c :: c in r ==> c in s
  {
    TrimStartShape(s);
    TrimEndShape(TrimStart(s));
    TrimEnd(TrimStart(s))
  }

  /** A trimmed string is its own trim. */
  lemma {:induction false} TrimTrimmed(s: string)
    requires s == [] || (!IsSpace(s[0]) && !IsSpace(s[|s| - 1]))
    ensures Trim(s) == s
  {
    if s != [] {
      assert TrimStart(s) == s;
      assert TrimEnd(s) == s;
    }
  }

  lemma {:induction false} TrimIdempotent(s: string)
    ensures Trim(Trim(s)) == Trim(s)
  {
    TrimTrimmed(Trim(s));
  }

  /** `Trim(s)` is the slice of `s` between its leading and its trailing white space. */
  lemma TrimIsSlice(s: string) returns (k: nat)
    ensures k + |Trim(s)| <= |s| && Trim(s) == s[k..k + |Trim(s)|]
    ensures forall i :: 0 <= i < k ==> IsSpace(s[i])
    ensures forall i :: k + |Trim(s)| <= i < |s| ==> IsSpace(s[i])
  {
    var t := TrimStart(s);
    TrimStartShape(s);
    TrimEndShape(t);
    k := |s| - |t|;
    assert TrimEnd(t) == t[..|Trim(s)|];
  }

  /** A string that ends in a character other than white space keeps that character last when trimmed. */
  lemma TrimKeepsLast(s: string)
    requires s != [] && !IsSpace(s[|s| - 1])
    ensures Trim(s) != [] && Trim(s)[|Trim(s)| - 1] == s[|s| - 1]
    ensures exists k :: 0 <= k < |s| && Trim(s) == s[k..]
  {
    var t := TrimStart(s);
    TrimStartShape(s);
    assert t != [] && t[|t| - 1] == s[|s| - 1];
    assert TrimEnd(t) == t;
    assert Trim(s) == s[|s| - |t|..];
  }

  function LowerChar(c: char): char {
    if 'A' <= c <= 'Z' then (c as int + 32) as char else c
  }

  /** `s.toLowerCase()` restricted to ASCII letters. */
  function Lower(s: string): (r: string)
    ensures |r| == |s|
  {
    seq(|s|, i requires 0 <= i < |s| => LowerChar(s[i]))
  }

  /** `s.startsWith(p)`. */
  predicate StartsWith(s: string, p: string) {
    |p| <= |s| && s[..|p|] == p
  }

  /** `p` occurs in `s` starting at index `i`. */
  predicate OccursAt(s: string, p: string, i: int) {
    0 <= i && i + |p| <= |s| && s[i..i + |p|] == p
  }

  /** `s.includes(p)`: `p` occurs in `s` at some position. */
  predicate Contains(s: string, p: string) {
    exists i | 0 <= i <= |s| - |p| :: OccursAt(s, p, i)
  }

  function Min(a: nat, b: nat): nat {
    if a <= b then a else b
  }

  /** No value occurs twice. */
  predicate NoDuplicates<T(==)>(s: seq<T>) {
    forall i, j :: 0 <= i < j < |s| ==> s[i] != s[j]
  }

  /** Each value is smaller than every later one. */
  predicate StrictlyIncreasing(s: seq<int>) {
    forall k, l :: 0 <= k < l < |s| ==> s[k] < s[l]
  }

  /** Every position moved one place on, as when a scan's first element is put in front. */
  function Shifted(s: seq<nat>): seq<nat> {
    seq(|s|, k requires 0 <= k < |s| => s[k] + 1)
  }

  /** Moving positions on keeps them increasing, also after a new first position 0. */
  lemma ShiftedIncreasing(s: seq<nat>)
    requires StrictlyIncreasing(s)
    ensures StrictlyIncreasing(Shifted(s)) && StrictlyIncreasing([0] + Shifted(s))
  {
    var t := Shifted(s);
    forall k, l | 0 <= k < l < |t| ensures t[k] < t[l] {
      assert s[k] < s[l];
    }
  }

  /**
   * Positions found in the tail of `xs` and moved one place on, with position 0 put in
   * front when `first` holds, still pick out the values found alongside them.
   */
  lemma ConsPositions<T>(xs: seq<T>, rest: seq<nat>, later: seq<T>, first: bool, idx: seq<nat>, vals: seq<T>)
    requires xs != [] && |later| == |rest|
    requires forall k :: 0 <= k < |rest| ==> rest[k] < |xs| - 1 && later[k] == xs[1..][rest[k]]
    requires idx == (if first then [0] + Shifted(rest) else Shifted(rest))
    requires vals == (if first then [xs[0]] + later else later)
    ensures |vals| == |idx| && forall k :: 0 <= k < |idx| ==> idx[k] < |xs| && vals[k] == xs[idx[k]]
  {
    var d := if first then 1 else 0;
    forall k | d <= k < |idx| ensures idx[k] < |xs| && vals[k] == xs[idx[k]] {
      assert idx[k] == rest[k - d] + 1 && vals[k] == later[k - d];
    }
  }

  /** `parts.join(sep)`. */
  function Join(parts: seq<string>, sep: string): string
    decreases |parts|
  {
    if |parts| == 0 then ""
    else if |parts| == 1 then parts[0]
    else parts[0] + sep + Join(parts[1..], sep)
  }

  /** `s.substring(0, n)`. */
  function Prefix(s: string, n: nat): (r: string)
    ensures |r| <= n && |r| <= |s|
    ensures StartsWith(s, r)
    ensures |s| <= n ==> r == s
  {
    if |s| <= n then s else s[..n]
  }

  function Digit(d: nat): char
    requires d < 10
  {
    "0123456789"[d]
  }

  predicate IsDigit(c: char) {
    '0' <= c <= '9'
  }

  /** The decimal numeral of a natural number, most significant digit first. */
  function NatToDecimal(n: nat): (r: string)
    decreases n
  {
    if n < 10 then [Digit(n)] else NatToDecimal(n / 10) + [Digit(n % 10)]
  }

  /** `String(n)` for an integer `n`: a minus sign before negative numbers. */
  function IntToDecimal(n: int): string {
    if n < 0 then "-" + NatToDecimal(-n) else NatToDecimal(n)
  }

  function DigitValue(c: char): nat
    requires IsDigit(c)
  {
    c as int - '0' as int
  }

  /** The value of a string of decimal digits. */
  function DecimalValue(s: string): nat
    requires forall i :: 0 <= i < |s| ==> IsDigit(s[i])
    decreases |s|
  {
    if s == [] then 0
    else
      assert IsDigit(s[|s| - 1]);
      10 * DecimalValue(s[..|s| - 1]) + DigitValue(s[|s| - 1])
  }

  /** The numeral is non-empty, all digits, without a leading zero, and reads back as `n`. */
  lemma {:induction false} NatToDecimalRoundTrip(n: nat)
    ensures var r := NatToDecimal(n);
      r != [] && (forall i :: 0 <= i < |r| ==> IsDigit(r[i])) &&
      (r[0] == '0' ==> r == "0") && DecimalValue(r) == n
    decreases n
  {
    var r := NatToDecimal(n);
    if n >= 10 {
      NatToDecimalRoundTrip(n / 10);
      assert r[..|r| - 1] == NatToDecimal(n / 10);
    }
  }
}
