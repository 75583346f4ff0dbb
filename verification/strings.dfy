/** Python 2 byte-string primitives the modelled code relies on: ASCII case
    folding (`str.lower`), whitespace (`str.strip`, `str.isspace`), substring
    tests (`in`), `"sep".join`, decimal rendering (`"%d"`) and `int()`. */
module Strings {
  import opened Wrappers

  predicate IsUpper(c: char) {
    'A' <= c <= 'Z'
  }

  function LowerChar(c: char): char {
    if IsUpper(c) then (c as int - 'A' as int + 'a' as int) as char else c
  }

  /** `s.lower()`: ASCII letters are folded, every other character is kept. */
  function Lower(s: string): (r: string)
    ensures |r| == |s|
    ensures forall i :: 0 <= i < |s| ==> r[i] == LowerChar(s[i])
  {
    seq(|s|, i requires 0 <= i < |s| => LowerChar(s[i]))
  }

  lemma LowerIdempotent(s: string)
    ensures Lower(Lower(s)) == Lower(s)
  {
  }

  /** The characters C's `isspace` accepts in the "C" locale. */
  predicate IsSpace(c: char) {
    c == ' ' || c == '\t' || c == '\n' || c == '\r' || c == '\U{B}' || c == '\U{C}'
  }

  function StripLeft(s: string): string {
    if |s| > 0 && IsSpace(s[0]) then StripLeft(s[1..]) else s
  }

  function StripRight(s: string): string {
    if |s| > 0 && IsSpace(s[|s| - 1]) then StripRight(s[..|s| - 1]) else s
  }

  /** `s.strip()` */
  function Strip(s: string): string {
    StripRight(StripLeft(s))
  }

  /** Python's truth value of `s.strip()` is false exactly when `s` holds
      nothing but whitespace. */
  predicate IsBlank(s: string) {
    forall i :: 0 <= i < |s| ==> IsSpace(s[i])
  }

  lemma {:induction false} StripLeftEmpty(s: string)
    ensures StripLeft(s) == "" <==> IsBlank(s)
    decreases |s|
  {
    if |s| > 0 && IsSpace(s[0]) {
      StripLeftEmpty(s[1..]);
      assert IsBlank(s) <==> IsBlank(s[1..]) by {
        if IsBlank(s[1..]) {
          forall i | 0 <= i < |s| ensures IsSpace(s[i]) {
            if i > 0 { assert s[i] == s[1..][i - 1]; }
          }
        }
      }
    }
  }

  lemma {:induction false} StripRightEmptyOnlyIfEmpty(s: string)
    requires |s| == 0 || !IsSpace(s[0])
    ensures StripRight(s) == "" <==> s == ""
    decreases |s|
  {
    if |s| > 0 && IsSpace(s[|s| - 1]) {
      assert |s| > 1;
      StripRightEmptyOnlyIfEmpty(s[..|s| - 1]);
    }
  }

  lemma {:induction false} StripLeftNoSpaceHead(s: string)
    ensures |StripLeft(s)| == 0 || !IsSpace(StripLeft(s)[0])
    decreases |s|
  {
    if |s| > 0 && IsSpace(s[0]) {
      StripLeftNoSpaceHead(s[1..]);
    }
  }

  /** `s.strip()` is empty exactly when every character of `s` is whitespace. */
  lemma StripEmptyIffBlank(s: string)
    ensures Strip(s) == "" <==> IsBlank(s)
  {
    StripLeftEmpty(s);
    StripLeftNoSpaceHead(s);
    StripRightEmptyOnlyIfEmpty(StripLeft(s));
  }

  /** `sub in s` for strings: `sub` occurs at some position of `s`. */
  predicate Contains(s: string, sub: string) {
    exists i :: 0 <= i <= |s| && OccursAt(s, sub, i)
  }

  /** `sub` occurs in `s` starting at position `i`. */
  predicate OccursAt(s: string, sub: string, i: nat) {
    i + |sub| <= |s| && s[i..i + |sub|] == sub
  }

  /** The position of the first `c` in `s`, if any (`s.find(c)`). */
  function FindChar(s: string, c: char): (r: Option<nat>)
    ensures r.Some? ==> r.value < |s| && s[r.value] == c && c !in s[..r.value]
    ensures r.None? ==> c !in s
    decreases |s|
  {
    if |s| == 0 then None
    else if s[0] == c then Some(0)
    else match FindChar(s[1..], c)
      case None => None
      case Some(j) =>
        assert s[..j + 1] == [s[0]] + s[1..][..j];
        Some(j + 1)
  }

  /** The first `c` of `a + [c] + b` is the one after `a` when `a` has none. */
  lemma FindCharAfter(a: string, c: char, b: string)
    requires c !in a
    ensures FindChar(a + [c] + b, c) == Some(|a|)
  {
    var s := a + [c] + b;
    assert s[|a|] == c;
    var i := FindChar(s, c).value;
    assert forall j :: 0 <= j < |a| ==> s[j] == a[j];
  }

  /** `sep.join(parts)` */
  function Join(sep: string, parts: seq<string>): string
    decreases |parts|
  {
    if |parts| == 0 then ""
    else if |parts| == 1 then parts[0]
    else parts[0] + sep + Join(sep, parts[1..])
  }

  /** Every part occurs in the joined text. */
  lemma {:induction false} JoinContains(sep: string, parts: seq<string>)
    ensures forall i :: 0 <= i < |parts| ==> Contains(Join(sep, parts), parts[i])
    decreases |parts|
  {
    if |parts| == 1 {
      assert OccursAt(Join(sep, parts), parts[0], 0);
    } else if |parts| > 1 {
      var j := Join(sep, parts);
      var pre := parts[0] + sep;
      var rest := Join(sep, parts[1..]);
      assert j == pre + rest;
      assert OccursAt(j, parts[0], 0) by { assert j[..|parts[0]|] == parts[0]; }
      JoinContains(sep, parts[1..]);
      forall i | 1 <= i < |parts| ensures Contains(j, parts[i]) {
        assert parts[i] == parts[1..][i - 1];
        var k :| 0 <= k <= |rest| && OccursAt(rest, parts[i], k);
        assert j[|pre| + k..|pre| + k + |parts[i]|] == rest[k..k + |parts[i]|];
        assert OccursAt(j, parts[i], |pre| + k);
      }
    }
  }

  /** Every text occurs in itself. */
  lemma ContainsSelf(s: string)
    ensures Contains(s, s)
  {
    assert OccursAt(s, s, 0) by { assert s[0..|s|] == s; }
  }

  /** Text that occurs in a part occurs in any text built around it. */
  lemma ContainsWithin(s: string, a: string, b: string, sub: string)
    requires Contains(s, sub)
    ensures Contains(a + s + b, sub)
  {
    var k :| 0 <= k <= |s| && OccursAt(s, sub, k);
    assert (a + s + b)[|a| + k..|a| + k + |sub|] == s[k..k + |sub|];
    assert OccursAt(a + s + b, sub, |a| + k);
  }

  predicate IsDigit(c: char) {
    '0' <= c <= '9'
  }

  function DigitValue(c: char): nat
    requires IsDigit(c)
  {
    c as int - '0' as int
  }

  function DigitChar(d: nat): (c: char)
    requires d < 10
    ensures IsDigit(c) && DigitValue(c) == d
  {
    ('0' as int + d) as char
  }

  predicate IsDigits(s: string) {
    |s| > 0 && forall i :: 0 <= i < |s| ==> IsDigit(s[i])
  }

  /** The value of a run of decimal digits, most significant first. */
  function DigitsValue(s: string): nat
    requires forall i :: 0 <= i < |s| ==> IsDigit(s[i])
    decreases |s|
  {
    if |s| == 0 then 0 else DigitsValue(s[..|s| - 1]) * 10 + DigitValue(s[|s| - 1])
  }

  /** `"%d" % n` for a non-negative `n`: decimal digits without leading zeros. */
  function NatToString(n: nat): (r: string)
    ensures IsDigits(r)
    ensures r[0] != '0' || r == "0"
    decreases n
  {
    if n < 10 then [DigitChar(n)] else NatToString(n / 10) + [DigitChar(n % 10)]
  }

  /** `"%d" % n`: a minus sign for negative values, then the digits. */
  function IntToString(n: int): (r: string)
    ensures |r| > 0 && !IsSpace(r[0]) && !IsSpace(r[|r| - 1])
    ensures forall i :: 0 <= i < |r| ==> IsDigit(r[i]) || (i == 0 && r[i] == '-')
    ensures r[0] == '-' <==> n < 0
    ensures var d := if n < 0 then r[1..] else r; |d| > 0 && (d[0] != '0' || d == "0")
  {
    if n < 0 then "-" + NatToString(-n) else NatToString(n)
  }

  /** The texts `int()` accepts: blank, an optional sign, blank, one or
      more digits, blank. */
  predicate IntText(s: string, w1: string, sg: string, w2: string, d: string, w3: string) {
    && s == w1 + sg + w2 + d + w3
    && IsBlank(w1) && IsBlank(w2) && IsBlank(w3)
    && (sg == "" || sg == "+" || sg == "-")
    && IsDigits(d)
  }

  /** The value of digits `d` under sign `sg`. */
  function SignedValue(sg: string, d: string): int
    requires IsDigits(d)
  {
    if sg == "-" then -(DigitsValue(d) as int) else DigitsValue(d)
  }

  /** `int(s)` on a string: surrounding whitespace is ignored, then an
      optional sign, more whitespace after the sign, and at least one decimal
      digit must remain; anything else is a `ValueError`, modelled as `None`.
      An accepted text is blank, a sign, blank, digits, blank, and reads as
      the signed value of its digits. */
  function ParseInt(s: string): (r: Option<int>)
    ensures r.Some? ==> exists w1, sg, w2, d, w3 :: IntText(s, w1, sg, w2, d, w3) && r.value == SignedValue(sg, d)
    ensures r.Some? ==> forall i :: 0 <= i < |s| ==> IsDigit(s[i]) || IsSpace(s[i]) || s[i] == '-' || s[i] == '+'
    ensures r.Some? ==> exists i :: 0 <= i < |s| && IsDigit(s[i])
    ensures IsDigits(s) ==> r == Some(DigitsValue(s))
  {
    var t := Strip(s);
    if |t| > 0 && (t[0] == '-' || t[0] == '+') then
      var d := StripLeft(t[1..]);
      if IsDigits(d) then
        var v: int := DigitsValue(d);
        SignedShape(s);
        Some(if t[0] == '-' then -v else v)
      else
        DigitsUnsigned(s);
        None
    else if IsDigits(t) then
      UnsignedShape(s);
      Some(DigitsValue(t))
    else
      DigitsUnsigned(s);
      None
  }

  /** `strip()` removes a blank prefix and a blank suffix. */
  lemma StripShape(s: string)
    ensures exists w1, w3 :: s == w1 + Strip(s) + w3 && IsBlank(w1) && IsBlank(w3)
  {
    var u := StripLeft(s);
    var k1 := LeadLen(s);
    var k2 := KeepLen(u);
    SplitAt(s, k1);
    SplitAt(u, k2);
    Regroup(s[..k1], u[..k2], u[k2..]);
    assert s == s[..k1] + Strip(s) + u[k2..];
  }

  lemma SplitAt(x: string, k: nat)
    requires k <= |x|
    ensures x == x[..k] + x[k..]
  {
  }

  lemma Regroup(a: string, b: string, c: string)
    ensures a + (b + c) == a + b + c
  {
  }

  /** The length of the blank prefix `StripLeft` removes. */
  function LeadLen(s: string): (n: nat)
    ensures n <= |s| && IsBlank(s[..n]) && StripLeft(s) == s[n..]
    decreases |s|
  {
    if |s| > 0 && IsSpace(s[0]) then
      var m := LeadLen(s[1..]);
      assert s[1..][m..] == s[m + 1..];
      assert IsBlank(s[..m + 1]) by {
        forall i | 0 <= i < m + 1 ensures IsSpace(s[i]) {
          if i > 0 { assert s[i] == s[1..][..m][i - 1]; }
        }
      }
      m + 1
    else
      assert s[0..] == s;
      0
  }

  /** The length of what `StripRight` keeps. */
  function KeepLen(s: string): (n: nat)
    ensures n <= |s| && IsBlank(s[n..]) && StripRight(s) == s[..n]
    decreases |s|
  {
    if |s| > 0 && IsSpace(s[|s| - 1]) then
      var p := s[..|s| - 1];
      var m := KeepLen(p);
      assert p[..m] == s[..m];
      assert IsBlank(s[m..]) by {
        forall i | m <= i < |s| ensures IsSpace(s[i]) {
          if i < |p| { assert s[i] == p[m..][i - m]; }
        }
      }
      m
    else
      assert s[..|s|] == s;
      |s|
  }

  /** A stripped text made of a sign, blank and digits has the accepted
      form. */
  lemma SignedShape(s: string)
    requires |Strip(s)| > 0 && (Strip(s)[0] == '-' || Strip(s)[0] == '+')
    requires IsDigits(StripLeft(Strip(s)[1..]))
    ensures var t := Strip(s);
            var d := StripLeft(t[1..]);
            exists w1, w2, w3 :: IntText(s, w1, t[..1], w2, d, w3)
  ensures forall i :: 0 <= i < |s| ==> IsDigit(s[i]) || IsSpace(s[i]) || s[i] == '-' || s[i] == '+'
  ensures exists i :: 0 <= i < |s| && IsDigit(s[i])
  {
    var t := Strip(s);
    var r := t[1..];
    var k := LeadLen(r);
    StripShape(s);
    var w1, w3 :| s == w1 + t + w3 && IsBlank(w1) && IsBlank(w3);
    SplitAt(t, 1);
    SplitAt(r, k);
    Regroup5(w1, t[..1], r[..k], r[k..], w3);
    assert IntText(s, w1, t[..1], r[..k], StripLeft(t[1..]), w3);
    IntTextChars(s, w1, t[..1], r[..k], StripLeft(t[1..]), w3);
  }

  lemma Regroup5(a: string, b: string, c: string, d: string, e: string)
    ensures a + (b + (c + d)) + e == a + b + c + d + e
  {
  }

  /** A stripped text made of digits alone has the accepted form. */
  lemma UnsignedShape(s: string)
    requires IsDigits(Strip(s))
    ensures exists w1, w3 :: IntText(s, w1, "", "", Strip(s), w3)
    ensures forall i :: 0 <= i < |s| ==> IsDigit(s[i]) || IsSpace(s[i]) || s[i] == '-' || s[i] == '+'
    ensures exists i :: 0 <= i < |s| && IsDigit(s[i])
  {
    StripShape(s);
    var w1, w3 :| s == w1 + Strip(s) + w3 && IsBlank(w1) && IsBlank(w3);
    assert IntText(s, w1, "", "", Strip(s), w3);
    IntTextChars(s, w1, "", "", Strip(s), w3);
  }

  /** Every character of an accepted text is a digit, whitespace or a sign,
      and at least one is a digit. */
  lemma IntTextChars(s: string, w1: string, sg: string, w2: string, d: string, w3: string)
    requires IntText(s, w1, sg, w2, d, w3)
    ensures forall i :: 0 <= i < |s| ==> IsDigit(s[i]) || IsSpace(s[i]) || s[i] == '-' || s[i] == '+'
    ensures exists i :: 0 <= i < |s| && IsDigit(s[i])
  {
    var a := |w1| + |sg| + |w2|;
    assert s[a] == d[0];
    forall i | 0 <= i < |s|
      ensures IsDigit(s[i]) || IsSpace(s[i]) || s[i] == '-' || s[i] == '+'
    {
      if i < |w1| {
        assert s[i] == w1[i];
      } else if i < |w1| + |sg| {
        assert s[i] == sg[i - |w1|];
      } else if i < a {
        assert s[i] == w2[i - |w1| - |sg|];
      } else if i < a + |d| {
        assert s[i] == d[i - a];
      } else {
        assert s[i] == w3[i - a - |d|];
      }
    }
  }

  /** A plain run of digits is its own strip and carries no sign. */
  lemma DigitsUnsigned(s: string)
    ensures IsDigits(s) ==> Strip(s) == s && s[0] != '-' && s[0] != '+'
  {
    if IsDigits(s) {
      StripUnchanged(s);
    }
  }

  /** Every text of the form `int()` accepts is read as the signed value of
      its digits. */
  lemma ParseIntReads(w1: string, sg: string, w2: string, d: string, w3: string)
    requires IsBlank(w1) && IsBlank(w2) && IsBlank(w3)
    requires sg == "" || sg == "+" || sg == "-"
    requires IsDigits(d)
    ensures ParseInt(w1 + sg + w2 + d + w3) == Some(SignedValue(sg, d))
  {
    if sg == "" {
      assert w1 + sg == w1;
      BlankConcat(w1, w2);
      ReadsUnsigned(w1 + w2, d, w3);
    } else {
      Regroup4(w1, sg, w2, d);
      ReadsSigned(w1, sg, w2, d, w3);
    }
  }

  /** Blank, digits, blank reads as the digits' value. */
  lemma ReadsUnsigned(w1: string, d: string, w3: string)
    requires IsBlank(w1) && IsBlank(w3) && IsDigits(d)
    ensures ParseInt(w1 + d + w3) == Some(DigitsValue(d))
  {
    StripBlankAround(w1, d, w3);
  }

  /** Blank, a sign, blank, digits, blank reads as the signed value. */
  lemma ReadsSigned(w1: string, sg: string, w2: string, d: string, w3: string)
    requires IsBlank(w1) && IsBlank(w2) && IsBlank(w3)
    requires sg == "+" || sg == "-"
    requires IsDigits(d)
    ensures ParseInt(w1 + (sg + w2 + d) + w3) == Some(SignedValue(sg, d))
  {
    var core := sg + w2 + d;
    assert core[0] == sg[0];
    assert core[|core| - 1] == d[|d| - 1];
    StripBlankAround(w1, core, w3);
    assert core[1..] == w2 + d;
    StripLeftBlankPrefix(w2, d);
  }

  lemma Regroup4(a: string, b: string, c: string, d: string)
    ensures a + b + c + d == a + (b + c + d)
  {
  }

  lemma BlankConcat(a: string, b: string)
    requires IsBlank(a) && IsBlank(b)
    ensures IsBlank(a + b)
  {
    forall i | 0 <= i < |a + b| ensures IsSpace((a + b)[i]) {
      if i >= |a| { assert (a + b)[i] == b[i - |a|]; }
    }
  }

  /** Blank text before and after a core that neither starts nor ends with
      whitespace is what `strip()` removes. */
  lemma StripBlankAround(w1: string, core: string, w3: string)
    requires IsBlank(w1) && IsBlank(w3)
    requires |core| > 0 && !IsSpace(core[0]) && !IsSpace(core[|core| - 1])
    ensures Strip(w1 + core + w3) == core
  {
    StripLeftBlankPrefix(w1, core + w3);
    assert w1 + core + w3 == w1 + (core + w3);
    StripRightBlankSuffix(core, w3);
  }

  lemma {:induction false} StripLeftBlankPrefix(w: string, x: string)
    requires IsBlank(w) && (|x| == 0 || !IsSpace(x[0]))
    ensures StripLeft(w + x) == x
    decreases |w|
  {
    if |w| > 0 {
      assert (w + x)[1..] == w[1..] + x;
      StripLeftBlankPrefix(w[1..], x);
    } else {
      assert w + x == x;
    }
  }

  lemma {:induction false} StripRightBlankSuffix(x: string, w: string)
    requires IsBlank(w) && (|x| == 0 || !IsSpace(x[|x| - 1]))
    ensures StripRight(x + w) == x
    decreases |w|
  {
    if |w| > 0 {
      assert (x + w)[..|x + w| - 1] == x + w[..|w| - 1];
      StripRightBlankSuffix(x, w[..|w| - 1]);
    } else {
      assert x + w == x;
    }
  }

  /** `StripLeft` drops only whitespace and keeps the rest of the text. */
  lemma {:induction false} StripLeftChars(s: string)
    ensures forall c :: c in StripLeft(s) ==> c in s
    ensures forall i :: 0 <= i < |s| ==> IsSpace(s[i]) || s[i] in StripLeft(s)
    ensures (forall i :: 0 <= i < |s| ==> !IsSpace(s[i])) ==> StripLeft(s) == s
    decreases |s|
  {
    if |s| > 0 && IsSpace(s[0]) {
      StripLeftChars(s[1..]);
      assert forall i :: 1 <= i < |s| ==> s[i] == s[1..][i - 1];
    }
  }

  /** `StripRight` drops only whitespace and keeps the rest of the text. */
  lemma {:induction false} StripRightChars(s: string)
    ensures forall c :: c in StripRight(s) ==> c in s
    ensures forall i :: 0 <= i < |s| ==> IsSpace(s[i]) || s[i] in StripRight(s)
    ensures (forall i :: 0 <= i < |s| ==> !IsSpace(s[i])) ==> StripRight(s) == s
    decreases |s|
  {
    if |s| > 0 && IsSpace(s[|s| - 1]) {
      StripRightChars(s[..|s| - 1]);
      assert forall i :: 0 <= i < |s| - 1 ==> s[i] == s[..|s| - 1][i];
    }
  }

  /** `s.strip()` drops only whitespace and keeps the rest of the text. */
  lemma StripChars(s: string)
    ensures forall c :: c in Strip(s) ==> c in s
    ensures forall i :: 0 <= i < |s| ==> IsSpace(s[i]) || s[i] in Strip(s)
    ensures (forall i :: 0 <= i < |s| ==> !IsSpace(s[i])) ==> Strip(s) == s
  {
    StripLeftChars(s);
    StripRightChars(StripLeft(s));
  }

  lemma {:induction false} NatToStringValue(n: nat)
    ensures DigitsValue(NatToString(n)) == n
    decreases n
  {
    if n >= 10 {
      var p := NatToString(n / 10);
      var s := p + [DigitChar(n % 10)];
      assert s[..|s| - 1] == p;
      NatToStringValue(n / 10);
    }
  }

  lemma StripUnchanged(s: string)
    requires |s| > 0 && !IsSpace(s[0]) && !IsSpace(s[|s| - 1])
    ensures Strip(s) == s
  {
  }

  /** Rendering an integer with `"%d"` and reading it back with `int()`
      gives the integer back. */
  lemma {:induction false} ParseIntRoundTrip(n: int)
    ensures ParseInt(IntToString(n)) == Some(n)
  {
    var s := IntToString(n);
    StripUnchanged(s);
    if n < 0 {
      assert s[1..] == NatToString(-n);
      NatToStringValue(-n);
    } else {
      NatToStringValue(n);
    }
  }
}
