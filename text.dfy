/**
  The JavaScript string operations the core relies on: `trim`, `split` on a
  one-character separator, and `parseInt(s, 10)` together with the integer
  syntax that validator.js accepts.
*/
module Text {
  import opened Wrappers

  // ---------------------------------------------------------------- trim

  /** ECMAScript WhiteSpace and LineTerminator characters (what `trim` and `\s` remove). */
  predicate IsJsSpace(c: char) {
    var n := c as int;
    n == 0x09 || n == 0x0A || n == 0x0B || n == 0x0C || n == 0x0D || n == 0x20 ||
    n == 0xA0 || n == 0x1680 || (0x2000 <= n <= 0x200A) || n == 0x2028 || n == 0x2029 ||
    n == 0x202F || n == 0x205F || n == 0x3000 || n == 0xFEFF
  }

  predicate AllSpace(s: string) {
    forall i :: 0 <= i < |s| ==> IsJsSpace(s[i])
  }

  function TrimStart(s: string): (r: string)
    ensures |r| <= |s| && r == s[|s| - |r|..]
    ensures AllSpace(s[..|s| - |r|])
    ensures r == [] || !IsJsSpace(r[0])
  {
    if s != [] && IsJsSpace(s[0]) then TrimStart(s[1..]) else s
  }

  function TrimEnd(s: string): (r: string)
    ensures |r| <= |s| && r == s[..|r|]
    ensures AllSpace(s[|r|..])
    ensures r == [] || !IsJsSpace(r[|r| - 1])
  {
    if s != [] && IsJsSpace(s[|s| - 1]) then TrimEnd(s[..|s| - 1]) else s
  }

  /** `String.prototype.trim`. */
  function Trim(s: string): string {
    TrimEnd(TrimStart(s))
  }

  /**
    Trimming leaves no white space at either end, and it leaves nothing
    exactly when the input is all white space.
  */
  lemma TrimSpec(s: string)
    ensures Trim(s) == [] || (!IsJsSpace(Trim(s)[0]) && !IsJsSpace(Trim(s)[|Trim(s)| - 1]))
    ensures Trim(s) == [] <==> AllSpace(s)
  {
    var a := TrimStart(s);
    var k := |s| - |a|;
    var r := TrimEnd(a);
    if r != [] {
      assert r[0] == a[0];
      assert a[0] == s[k];
    } else {
      TrimBlank(s);
    }
  }

  /** If nothing survives trimming, the string was all white space. */
  lemma TrimBlank(s: string)
    requires Trim(s) == []
    ensures AllSpace(s)
  {
    var a := TrimStart(s);
    var k := |s| - |a|;
    assert AllSpace(a[0..]);
    assert a == [];
    assert s[..k] == s;
  }

  /** Trimming twice is trimming once (express-validator and Mongoose both trim titles). */
  lemma TrimIdempotent(s: string)
    ensures Trim(Trim(s)) == Trim(s)
  {
    var r := Trim(s);
    TrimSpec(s);
    if r != [] {
      assert TrimStart(r) == r;
      assert TrimEnd(r) == r;
    }
  }

  // ---------------------------------------------------------------- split

  /** Position of the first occurrence of `d` in `s`. */
  function FirstIndex(s: string, d: char): (i: nat)
    requires d in s
    ensures i < |s| && s[i] == d && d !in s[..i]
  {
    if s[0] == d then 0 else 1 + FirstIndex(s[1..], d)
  }

  /** `s.split(d)` for a one-character separator `d`. */
  function Split(s: string, d: char): (r: seq<string>)
    ensures |r| >= 1
    ensures forall k :: 0 <= k < |r| ==> d !in r[k]
    decreases |s|
  {
    if d !in s then [s]
    else
      var i := FirstIndex(s, d);
      [s[..i]] + Split(s[i + 1..], d)
  }

  /** `parts.join(d)`. */
  function Join(parts: seq<string>, d: char): string
    requires |parts| >= 1
  {
    if |parts| == 1 then parts[0] else parts[0] + [d] + Join(parts[1..], d)
  }

  /** Splitting loses nothing: joining the fields with the separator restores the string. */
  lemma {:induction false} SplitJoin(s: string, d: char)
    ensures Join(Split(s, d), d) == s
    decreases |s|
  {
    if d in s {
      var i := FirstIndex(s, d);
      var rest := s[i + 1..];
      SplitJoin(rest, d);
      var parts := Split(s, d);
      assert parts == [s[..i]] + Split(rest, d);
      assert parts[1..] == Split(rest, d);
      assert Join(parts, d) == s[..i] + [d] + Join(Split(rest, d), d);
      assert s == s[..i] + [d] + rest;
    }
  }

  /** A separator after a separator-free prefix ends the first field there. */
  lemma SplitAfterField(a: string, d: char, rest: string)
    requires d !in a
    ensures Split(a + [d] + rest, d) == [a] + Split(rest, d)
  {
    var s := a + [d] + rest;
    assert s[|a|] == d;
    var i := FirstIndex(s, d);
    assert i == |a|;
    assert s[..i] == a;
    assert s[i + 1..] == rest;
  }

  /**
    Two separator-free fields `a` and `b`, followed by nothing or by the
    separator and anything, are the first two fields of the split.
  */
  lemma SplitTwoFields(a: string, b: string, tail: string, d: char)
    requires d !in a && d !in b
    requires tail == [] || tail[0] == d
    ensures |Split(a + [d] + b + tail, d)| >= 2
    ensures Split(a + [d] + b + tail, d)[..2] == [a, b]
    ensures tail == [] ==> Split(a + [d] + b + tail, d) == [a, b]
  {
    var t := b + tail;
    Regroup(a, [d], b, tail);
    SplitAfterField(a, d, t);
    var r := SplitLeadingField(b, tail, d);
    assert Split(a + [d] + b + tail, d) == [a] + ([b] + r);
    assert ([a] + ([b] + r))[..2] == [a, b];
  }

  /** A separator-free field followed by nothing or by the separator starts the split. */
  lemma SplitLeadingField(b: string, tail: string, d: char) returns (r: seq<string>)
    requires d !in b
    requires tail == [] || tail[0] == d
    ensures Split(b + tail, d) == [b] + r
    ensures tail == [] ==> r == []
  {
    if tail == [] {
      assert b + tail == b;
      r := [];
    } else {
      assert b + tail == b + [d] + tail[1..];
      SplitAfterField(b, d, tail[1..]);
      r := Split(tail[1..], d);
    }
  }

  lemma Regroup(a: string, x: string, b: string, tail: string)
    ensures a + x + b + tail == a + x + (b + tail)
  {
  }

  // ---------------------------------------------------------------- integers

  predicate IsDigit(c: char) {
    '0' <= c <= '9'
  }

  predicate AllDigits(s: string) {
    forall i :: 0 <= i < |s| ==> IsDigit(s[i])
  }

  /** The value of a string of decimal digits, most significant first. */
  function DigitsValue(s: string): nat
    requires AllDigits(s)
  {
    if s == [] then 0 else DigitsValue(s[..|s| - 1]) * 10 + (s[|s| - 1] as int - '0' as int)
  }

  /** `String(n)` for a natural number: its decimal digits, most significant first. */
  function DecimalString(n: nat): (r: string)
    ensures r != [] && AllDigits(r) && DigitsValue(r) == n
  {
    var last := [('0' as int + n % 10) as char];
    if n < 10 then last
    else
      var r := DecimalString(n / 10) + last;
      assert r[..|r| - 1] == DecimalString(n / 10);
      r
  }

  /** The longest prefix of `s` made of decimal digits. */
  function LeadingDigits(s: string): (r: string)
    ensures |r| <= |s| && r == s[..|r|] && AllDigits(r)
    ensures |r| < |s| ==> !IsDigit(s[|r|])
  {
    if s != [] && IsDigit(s[0]) then [s[0]] + LeadingDigits(s[1..]) else []
  }

  /** Sign and digits of `s` as `parseInt` reads them. */
  function SignOf(s: string): int {
    if s != [] && s[0] == '-' then -1 else 1
  }

  function Unsigned(s: string): string {
    if s != [] && (s[0] == '-' || s[0] == '+') then s[1..] else s
  }

  /**
    `parseInt(s, 10)` on a string without leading white space: an optional sign
    and the longest run of digits after it; `None` stands for `NaN`.
  */
  function ParseInt(s: string): Option<int> {
    var ds := LeadingDigits(Unsigned(s));
    if ds == [] then None else Some(SignOf(s) * DigitsValue(ds))
  }

  /** validator.js `isInt` with leading zeroes allowed: `/^[-+]?[0-9]+$/`. */
  predicate IsIntString(s: string) {
    Unsigned(s) != [] && AllDigits(Unsigned(s))
  }

  function IntValue(s: string): int
    requires IsIntString(s)
  {
    SignOf(s) * DigitsValue(Unsigned(s))
  }

  /** On the strings validator.js accepts as integers, `parseInt` reads the whole string. */
  lemma ParseIntOfIntString(s: string)
    requires IsIntString(s)
    ensures ParseInt(s) == Some(IntValue(s))
  {
    var u := Unsigned(s);
    var ds := LeadingDigits(u);
    assert ds == u;
  }
}
