/** The string primitives of the JavaScript runtime that the map script relies on:
    `String.prototype.trim`, `toLowerCase`, `includes`, and the decimal spelling
    of integers used by `String(n)` and `Number(s)`. */
module JsString {
  import opened Wrappers

  /** The characters `trim` removes: WhiteSpace and LineTerminator as defined in
      sections 12.2 and 12.3 of ECMA-262. */
  predicate IsJsSpace(c: char) {
    || c == ' ' || c == '\t' || c == '\n' || c == '\U{000B}' || c == '\U{000C}' || c == '\r'
    || c == '\U{00A0}' || c == '\U{1680}' || ('\U{2000}' <= c <= '\U{200A}')
    || c == '\U{2028}' || c == '\U{2029}' || c == '\U{202F}' || c == '\U{205F}'
    || c == '\U{3000}' || c == '\U{FEFF}'
  }

  /** An ASCII letter. */
  predicate IsLetter(c: char) {
    ('a' <= c <= 'z') || ('A' <= c <= 'Z')
  }

  lemma LetterIsNotSpace(c: char)
    requires IsLetter(c)
    ensures !IsJsSpace(c)
  {
  }

  predicate NoSpaces(s: string) {
    forall k :: 0 <= k < |s| ==> !IsJsSpace(s[k])
  }

  /** Index of the first character that `trim` keeps (or |s| if none). */
  function TrimStartIndex(s: string): (i: nat)
    ensures i <= |s|
    ensures forall k :: 0 <= k < i ==> IsJsSpace(s[k])
    ensures i == |s| || !IsJsSpace(s[i])
  {
    if s == [] || !IsJsSpace(s[0]) then 0 else 1 + TrimStartIndex(s[1..])
  }

  /** One past the last character that `trim` keeps, searching down to `lo`. */
  function TrimEndIndex(s: string, lo: nat): (j: nat)
    requires lo <= |s|
    ensures lo <= j <= |s|
    ensures forall k :: j <= k < |s| ==> IsJsSpace(s[k])
    ensures j == lo || !IsJsSpace(s[j - 1])
    decreases |s|
  {
    if |s| == lo || !IsJsSpace(s[|s| - 1]) then |s| else TrimEndIndex(s[..|s| - 1], lo)
  }

  /** `s.trim()`: white space removed from both ends (see `TrimSpec`). */
  function Trim(s: string): (r: string)
    ensures |r| <= |s|
  {
    var i := TrimStartIndex(s);
    var j := TrimEndIndex(s, i);
    s[i..j]
  }

  /** The trim of `s` neither starts nor ends with white space, and it is a slice of `s`
      obtained by removing only white space from both ends. */
  lemma TrimSpec(s: string)
    ensures var r := Trim(s);
      && (r == [] || (!IsJsSpace(r[0]) && !IsJsSpace(r[|r| - 1])))
      && (exists i, j :: 0 <= i <= j <= |s| && r == s[i..j] &&
            (forall k :: 0 <= k < i ==> IsJsSpace(s[k])) &&
            (forall k :: j <= k < |s| ==> IsJsSpace(s[k])))
  {
    var i := TrimStartIndex(s);
    var j := TrimEndIndex(s, i);
    assert Trim(s) == s[i..j];
  }

  /** A string without white space is its own trim. */
  lemma TrimNoSpaces(s: string)
    requires NoSpaces(s)
    ensures Trim(s) == s
  {
    assert TrimStartIndex(s) == 0 by {
      if s != [] { assert !IsJsSpace(s[0]); }
    }
    assert TrimEndIndex(s, 0) == |s| by {
      if s != [] { assert !IsJsSpace(s[|s| - 1]); }
    }
  }

  /** A string that neither starts nor ends with white space is its own trim. */
  lemma TrimUnpadded(s: string)
    requires s == [] || (!IsJsSpace(s[0]) && !IsJsSpace(s[|s| - 1]))
    ensures Trim(s) == s
  {
  }

  /** ASCII case mapping of `toLowerCase`. */
  function LowerChar(c: char): char {
    if 'A' <= c <= 'Z' then (c as int + 32) as char else c
  }

  /** `s.toLowerCase()`, restricted to the ASCII letters. */
  function ToLower(s: string): (r: string)
    ensures |r| == |s|
    ensures forall k :: 0 <= k < |r| ==> !('A' <= r[k] <= 'Z')
  {
    seq(|s|, k requires 0 <= k < |s| => LowerChar(s[k]))
  }

  /** `toLowerCase` works in place: each upper-case letter becomes its lower-case
      letter, and every other character is kept. */
  lemma ToLowerInPlace(s: string)
    ensures forall k :: 0 <= k < |s| && 'A' <= s[k] <= 'Z' ==>
      ToLower(s)[k] as int == s[k] as int + ('a' as int - 'A' as int)
    ensures forall k :: 0 <= k < |s| && !('A' <= s[k] <= 'Z') ==> ToLower(s)[k] == s[k]
  {
  }

  predicate StartsWith(s: string, p: string) {
    |p| <= |s| && s[..|p|] == p
  }

  /** `s.includes(q)`: `q` occurs in `s` as a contiguous piece. */
  predicate Includes(s: string, q: string)
    decreases |s|
  {
    StartsWith(s, q) || (|s| > 0 && Includes(s[1..], q))
  }

  /** `q` occurs in `s` starting at offset `i`. */
  predicate OccursAt(s: string, q: string, i: int) {
    0 <= i && i + |q| <= |s| && s[i..i + |q|] == q
  }

  /** `includes` is exactly "occurs at some offset". */
  lemma {:induction false} IncludesAt(s: string, q: string)
    ensures Includes(s, q) <==> exists i :: OccursAt(s, q, i)
    decreases |s|
  {
    if Includes(s, q) {
      if StartsWith(s, q) {
        assert OccursAt(s, q, 0);
      } else {
        IncludesAt(s[1..], q);
        var i :| OccursAt(s[1..], q, i);
        assert s[i + 1..i + 1 + |q|] == s[1..][i..i + |q|];
        assert OccursAt(s, q, i + 1);
      }
    }
    forall i | OccursAt(s, q, i) ensures Includes(s, q) {
      OccursAtIncludes(s, q, i);
    }
  }

  lemma {:induction false} OccursAtIncludes(s: string, q: string, i: int)
    requires OccursAt(s, q, i)
    ensures Includes(s, q)
    decreases i
  {
    if i == 0 {
      assert StartsWith(s, q);
    } else {
      assert s[1..][i - 1..i - 1 + |q|] == s[i..i + |q|];
      OccursAtIncludes(s[1..], q, i - 1);
    }
  }

  lemma {:induction false} IncludesEmpty(s: string)
    ensures Includes(s, "")
  {
    assert StartsWith(s, "");
  }

  /** A piece of a prefix of `s` is a piece of `s`. */
  lemma {:induction false} IncludesViaPrefix(s: string, q: string, w: string)
    requires StartsWith(s, q) && Includes(q, w)
    ensures Includes(s, w)
    decreases |q|
  {
    if StartsWith(q, w) {
      assert s[..|w|] == q[..|w|];
    } else {
      assert s[1..][..|q| - 1] == q[1..];
      IncludesViaPrefix(s[1..], q[1..], w);
    }
  }

  /** `includes` is transitive. */
  lemma {:induction false} IncludesTrans(s: string, q: string, w: string)
    requires Includes(s, q) && Includes(q, w)
    ensures Includes(s, w)
    decreases |s|
  {
    if StartsWith(s, q) {
      IncludesViaPrefix(s, q, w);
    } else {
      IncludesTrans(s[1..], q, w);
    }
  }

  /** A string includes itself. */
  lemma IncludesSelf(s: string)
    ensures Includes(s, s)
  {
    assert StartsWith(s, s);
  }

  /** A string that lacks one of `q`'s characters does not include `q`. */
  lemma MissingCharExcludes(s: string, q: string, c: char)
    requires c in q && c !in s
    ensures !Includes(s, q)
  {
    IncludesAt(s, q);
    forall i | 0 <= i <= |s| - |q|
      ensures !OccursAt(s, q, i)
    {
      var k :| 0 <= k < |q| && q[k] == c;
      assert s[i..i + |q|][k] == s[i + k];
    }
  }

  predicate IsDigit(c: char) { '0' <= c <= '9' }

  predicate AllDigits(s: string) {
    forall k :: 0 <= k < |s| ==> IsDigit(s[k])
  }

  function DigitChar(d: nat): char
    requires d < 10
  {
    ('0' as int + d) as char
  }

  /** Decimal spelling of a natural number, no leading zeros. */
  function NatToString(n: nat): (r: string)
    ensures |r| > 0 && AllDigits(r)
    ensures r[0] == '0' ==> n == 0
  {
    if n < 10 then [DigitChar(n)] else NatToString(n / 10) + [DigitChar(n % 10)]
  }

  /** `String(n)` for an integer `n`. */
  function IntToString(n: int): (r: string)
    ensures |r| > 0 && NoSpaces(r)
    ensures n >= 0 <==> AllDigits(r)
  {
    if n >= 0 then NatToString(n) else
      var r := "-" + NatToString(-n);
      assert !IsDigit(r[0]);
      r
  }

  /** Value of a string of decimal digits. */
  function DigitsValue(s: string): nat
    requires AllDigits(s)
  {
    if s == [] then 0 else 10 * DigitsValue(s[..|s| - 1]) + (s[|s| - 1] as int - '0' as int)
  }

  /** `Number(s)` for a string: white space is trimmed, the empty string is 0, an optional
      sign followed by decimal digits is that integer; anything else is `None` (NaN). */
  function ParseNumber(s: string): (r: Option<int>)
    ensures AllDigits(Trim(s)) ==> r == Some(DigitsValue(Trim(s)))
  {
    var t := Trim(s);
    if AllDigits(t) then Some(DigitsValue(t))
    else if |t| > 1 && t[0] == '-' && AllDigits(t[1..]) then Some(0 - DigitsValue(t[1..]))
    else if |t| > 1 && t[0] == '+' && AllDigits(t[1..]) then Some(DigitsValue(t[1..]))
    else None
  }

  lemma {:induction false} NatToStringRoundTrip(n: nat)
    ensures DigitsValue(NatToString(n)) == n
  {
    if n >= 10 {
      var s := NatToString(n);
      assert s[..|s| - 1] == NatToString(n / 10);
      NatToStringRoundTrip(n / 10);
    }
  }

  /** `Number(String(n)) === n` for every integer. */
  lemma IntToStringRoundTrip(n: int)
    ensures ParseNumber(IntToString(n)) == Some(n)
  {
    var s := IntToString(n);
    TrimNoSpaces(s);
    if n >= 0 {
      NatToStringRoundTrip(n);
    } else {
      NatToStringRoundTrip(-n);
      assert s[1..] == NatToString(-n);
      assert !AllDigits(s) by { assert !IsDigit(s[0]); }
    }
  }

  /** `String` on integers is injective. */
  lemma IntToStringInjective(m: int, n: int)
    requires IntToString(m) == IntToString(n)
    ensures m == n
  {
    IntToStringRoundTrip(m);
    IntToStringRoundTrip(n);
  }
}
