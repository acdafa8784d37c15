/**
 * Character and string helpers shared by the controllers: decimal digits,
 * ASCII case mapping (`toUpperCase`/`toLowerCase` on ASCII text) and
 * substring search (what a regular expression of alternatives `.test`s).
 */
module Text {
  import opened Wrappers


  predicate IsDigit(c: char) { '0' <= c <= '9' }

  predicate AllDigits(s: string) { forall i :: 0 <= i < |s| ==> IsDigit(s[i]) }

  function DigitValue(c: char): (d: nat)
    requires IsDigit(c)
    ensures d < 10
  {
    c as int - '0' as int
  }

  function DigitChar(d: nat): (c: char)
    requires d < 10
    ensures IsDigit(c) && DigitValue(c) == d
  {
    ('0' as int + d) as char
  }

  /** The number a string of decimal digits denotes, read most significant digit first. */
  function DigitsValue(s: string): nat
    requires AllDigits(s)
  {
    if s == [] then 0 else DigitsValue(s[..|s| - 1]) * 10 + DigitValue(s[|s| - 1])
  }

  function Pow10(n: nat): (p: nat)
    ensures p >= 1
  {
    if n == 0 then 1 else 10 * Pow10(n - 1)
  }

  /** The shortest decimal numeral of `n`, as `String(n)` prints it. */
  function Decimal(n: nat): (s: string)
    ensures |s| >= 1 && AllDigits(s)
  {
    if n < 10 then [DigitChar(n)] else Decimal(n / 10) + [DigitChar(n % 10)]
  }

  lemma {:induction false} DecimalRoundTrip(n: nat)
    ensures DigitsValue(Decimal(n)) == n
  {
    if n >= 10 {
      var s := Decimal(n);
      assert s[..|s| - 1] == Decimal(n / 10);
      DecimalRoundTrip(n / 10);
    }
  }

  /** A numeral has `k + 1` digits exactly when the number lies in [10^k, 10^(k+1)). */
  lemma {:induction false} DecimalLength(n: nat, k: nat)
    requires (if k == 0 then 0 else Pow10(k)) <= n < Pow10(k + 1)
    ensures |Decimal(n)| == k + 1
  {
    if k > 0 {
      assert Pow10(k + 1) == 10 * Pow10(k);
      assert n >= 10;
      var q := n / 10;
      assert n == 10 * q + n % 10;
      assert q < Pow10(k);
      if k > 1 {
        assert Pow10(k) == 10 * Pow10(k - 1);
        assert Pow10(k - 1) <= q;
      }
      DecimalLength(q, k - 1);
    }
  }

  /** Number of leading decimal digits of `s`. */
  function LeadingDigits(s: string): (k: nat)
    ensures k <= |s|
    ensures AllDigits(s[..k])
    ensures k < |s| ==> !IsDigit(s[k])
  {
    if s == [] || !IsDigit(s[0]) then 0
    else
      var k := 1 + LeadingDigits(s[1..]);
      assert s[..k] == [s[0]] + s[1..][..k - 1];
      k
  }

  /** Digits followed by a non-digit: the leading run is exactly the digits. */
  lemma {:induction false} LeadingDigitsOf(d: string, rest: string)
    requires AllDigits(d)
    requires rest == [] || !IsDigit(rest[0])
    ensures LeadingDigits(d + rest) == |d|
  {
    if d == [] {
      assert d + rest == rest;
    } else {
      assert (d + rest)[0] == d[0];
      assert (d + rest)[1..] == d[1..] + rest;
      LeadingDigitsOf(d[1..], rest);
    }
  }

  predicate IsHexDigit(c: char) { IsDigit(c) || 'a' <= c <= 'f' || 'A' <= c <= 'F' }

  predicate AllHexDigits(s: string) { forall i :: 0 <= i < |s| ==> IsHexDigit(s[i]) }

  function HexDigitValue(c: char): (d: nat)
    requires IsHexDigit(c)
    ensures d < 16
    ensures IsDigit(c) ==> d == DigitValue(c)
  {
    if IsDigit(c) then DigitValue(c)
    else if 'a' <= c <= 'f' then c as int - 'a' as int + 10
    else c as int - 'A' as int + 10
  }

  /** The number a string of hexadecimal digits denotes, most significant digit first. */
  function HexValue(s: string): nat
    requires AllHexDigits(s)
  {
    if s == [] then 0 else HexValue(s[..|s| - 1]) * 16 + HexDigitValue(s[|s| - 1])
  }

  /** Number of leading hexadecimal digits of `s`. */
  function LeadingHexDigits(s: string): (k: nat)
    ensures k <= |s|
    ensures AllHexDigits(s[..k])
    ensures k < |s| ==> !IsHexDigit(s[k])
  {
    if s == [] || !IsHexDigit(s[0]) then 0
    else
      var k := 1 + LeadingHexDigits(s[1..]);
      assert s[..k] == [s[0]] + s[1..][..k - 1];
      k
  }

  /**
   * The digits `parseInt` reads after the sign: base 16 after a "0x" or "0X"
   * prefix, base 10 otherwise, as far as the digits of that base run. None
   * when no digit follows (NaN).
   */
  function UnsignedPrefix(b: string): (r: Option<nat>)
    ensures r.Some? ==> b != []
    ensures AllDigits(b) && b != [] ==> r == Some(DigitsValue(b))
  {
    if |b| >= 2 && b[0] == '0' && (b[1] == 'x' || b[1] == 'X') then
      var h := b[2..];
      var k := LeadingHexDigits(h);
      if k == 0 then None else Some(HexValue(h[..k]))
    else
      var k := LeadingDigits(b);
      if k == 0 then None
      else
        assert AllDigits(b) ==> k == |b| && b[..k] == b;
        Some(DigitsValue(b[..k]))
  }

  /** An optional sign and the digits `UnsignedPrefix` reads after it. */
  function SignedPrefix(t: string): (r: Option<int>)
    ensures r.Some? ==> t != []
    ensures AllDigits(t) && t != [] ==> r == Some(DigitsValue(t))
  {
    var signed := t != [] && (t[0] == '-' || t[0] == '+');
    var m := UnsignedPrefix(if signed then t[1..] else t);
    if m.None? then None
    else if t[0] == '-' then Some(0 - m.value)
    else Some(m.value)
  }

  /**
   * `parseInt(s)` with no radix: leading white space is skipped, then the
   * signed numeral `SignedPrefix` reads; None stands for NaN.
   */
  function ParseInt(s: string): (r: Option<int>)
    ensures r.Some? ==> s != []
    ensures AllDigits(s) && s != [] ==> r == Some(DigitsValue(s))
  {
    SignedPrefix(TrimStart(s))
  }

  /** White space before the numeral does not change what `parseInt` reads. */
  lemma ParseIntSkipsSpace(c: char, s: string)
    requires IsSpace(c)
    ensures ParseInt([c] + s) == ParseInt(s)
  {
    var cs := [c] + s;
    assert cs[1..] == s;
    assert TrimStart(cs) == TrimStart(s);
  }

  /** Text starting with neither white space nor a sign is read by `UnsignedPrefix` alone. */
  lemma ParseIntUnsigned(s: string)
    requires s != [] && !IsSpace(s[0]) && s[0] != '-' && s[0] != '+'
    ensures ParseInt(s) == UnsignedPrefix(s)
  {
    assert TrimStart(s) == s;
  }

  /** A "0x" prefix followed by hexadecimal digits reads in base 16. */
  lemma ParseIntHex(x: char, h: string)
    requires (x == 'x' || x == 'X') && h != [] && AllHexDigits(h)
    ensures ParseInt(['0', x] + h) == Some(HexValue(h))
  {
    var s := ['0', x] + h;
    ParseIntUnsigned(s);
    assert s[2..] == h;
    assert LeadingHexDigits(h) == |h| && h[..|h|] == h;
  }

  /**
   * A decimal numeral not starting with 0 reads as its digits, whatever
   * follows the first non-digit.
   */
  lemma ParseIntDecimal(d: string, rest: string)
    requires d != [] && AllDigits(d) && d[0] != '0'
    requires rest == [] || !IsDigit(rest[0])
    ensures ParseInt(d + rest) == Some(DigitsValue(d))
  {
    var s := d + rest;
    assert s[0] == d[0];
    ParseIntUnsigned(s);
    LeadingDigitsOf(d, rest);
    assert s[..|d|] == d;
  }

  lemma TwoDigitsValue(a: char, b: char)
    requires IsDigit(a) && IsDigit(b)
    ensures AllDigits([a, b]) && DigitsValue([a, b]) == DigitValue(a) * 10 + DigitValue(b)
  {
    assert [a, b][..1] == [a] && [a][..0] == [];
    assert DigitsValue([a]) == DigitValue(a);
  }

  /** `parseInt` skips leading blanks: " 42" reads as 42. */
  lemma ParseIntLeadingBlank()
    ensures ParseInt(" 42") == Some(42)
  {
    assert " 42" == [' '] + "42";
    ParseIntSkipsSpace(' ', "42");
    TwoDigitsValue('4', '2');
    assert "42" == ['4', '2'];
  }

  /** "0x1A" reads in base 16, as 26. */
  lemma ParseIntHexExample()
    ensures ParseInt("0x1A") == Some(26)
  {
    assert ['1', 'A'][..1] == ['1'] && ['1'][..0] == [];
    assert HexValue(['1']) == 1;
    assert "0x1A" == ['0', 'x'] + ['1', 'A'];
    ParseIntHex('x', ['1', 'A']);
  }

  /** Reading stops at the first character that is not a digit: "12abc" reads as 12. */
  lemma ParseIntStopsAtLetter()
    ensures ParseInt("12abc") == Some(12)
  {
    TwoDigitsValue('1', '2');
    assert "12abc" == ['1', '2'] + "abc";
    ParseIntDecimal(['1', '2'], "abc");
  }

  /** A prefix with no digit after it is NaN. */
  lemma ParseIntBarePrefix()
    ensures ParseInt("0x") == None
  {
    var s := "0x";
    ParseIntUnsigned(s);
    assert s[2..] == [];
  }

  function UpperChar(c: char): char {
    if 'a' <= c <= 'z' then (c as int - 32) as char else c
  }

  function LowerChar(c: char): char {
    if 'A' <= c <= 'Z' then (c as int + 32) as char else c
  }

  /** `toUpperCase`, on ASCII letters. */
  function Upper(s: string): (r: string)
    ensures |r| == |s|
    ensures forall i :: 0 <= i < |s| ==> r[i] == UpperChar(s[i])
  {
    if s == [] then [] else [UpperChar(s[0])] + Upper(s[1..])
  }

  /** `toLowerCase`, on ASCII letters. */
  function Lower(s: string): (r: string)
    ensures |r| == |s|
    ensures forall i :: 0 <= i < |s| ==> r[i] == LowerChar(s[i])
  {
    if s == [] then [] else [LowerChar(s[0])] + Lower(s[1..])
  }

  /** No ASCII lower-case letter: the form Mongoose's `uppercase: true` stores. */
  predicate NoLowerCase(s: string) { forall i :: 0 <= i < |s| ==> !('a' <= s[i] <= 'z') }

  lemma UpperIsUpper(s: string)
    ensures NoLowerCase(Upper(s))
    ensures Upper(Upper(s)) == Upper(s)
  {
  }

  /** `w` occurs in `s` starting at position `i`. */
  predicate OccursAt(s: string, w: string, i: int) {
    0 <= i && i + |w| <= |s| && s[i..i + |w|] == w
  }

  /** `w` occurs in `s` at some position. */
  ghost predicate Occurs(s: string, w: string) {
    exists i :: OccursAt(s, w, i)
  }

  /** Substring search, scanning left to right. */
  function Contains(s: string, w: string): (b: bool)
    ensures b <==> Occurs(s, w)
  {
    if |w| > |s| then false
    else if s[..|w|] == w then assert OccursAt(s, w, 0); true
    else
      var b := Contains(s[1..], w);
      assert b ==> Occurs(s, w) by {
        if b {
          var i :| OccursAt(s[1..], w, i);
          assert s[i + 1..i + 1 + |w|] == s[1..][i..i + |w|];
          assert OccursAt(s, w, i + 1);
        }
      }
      assert Occurs(s, w) ==> b by {
        if Occurs(s, w) {
          var i :| OccursAt(s, w, i);
          assert i != 0;
          assert s[1..][i - 1..i - 1 + |w|] == s[i..i + |w|];
          assert OccursAt(s[1..], w, i - 1);
        }
      }
      b
  }

  /**
   * The white space `trim` removes and `parseInt` skips: the ECMAScript
   * WhiteSpace and LineTerminator characters.
   */
  predicate IsSpace(c: char) {
    || c == '\t' || c == '\n' || c == '\U{000B}' || c == '\U{000C}' || c == '\r' || c == ' '
    || c == '\U{00A0}' || c == '\U{1680}' || '\U{2000}' <= c <= '\U{200A}'
    || c == '\U{2028}' || c == '\U{2029}' || c == '\U{202F}' || c == '\U{205F}'
    || c == '\U{3000}' || c == '\U{FEFF}'
  }

  /** `s` without its leading white space. */
  function TrimStart(s: string): (r: string)
    ensures |r| <= |s| && r == s[|s| - |r|..]
    ensures r != [] ==> !IsSpace(r[0])
    ensures forall i :: 0 <= i < |s| - |r| ==> IsSpace(s[i])
  {
    if s != [] && IsSpace(s[0]) then TrimStart(s[1..]) else s
  }

  /** `s` without its trailing white space. */
  function TrimEnd(s: string): (r: string)
    ensures |r| <= |s| && r == s[..|r|]
    ensures r != [] ==> !IsSpace(r[|r| - 1])
    ensures forall i :: |r| <= i < |s| ==> IsSpace(s[i])
  {
    if s != [] && IsSpace(s[|s| - 1]) then TrimEnd(s[..|s| - 1]) else s
  }

  /** `trim()`, as the schema's `trim: true` applies it before validation. */
  function Trim(s: string): (r: string)
    ensures r != [] ==> !IsSpace(r[0]) && !IsSpace(r[|r| - 1])
    ensures r == [] <==> forall i :: 0 <= i < |s| ==> IsSpace(s[i])
  {
    var head := TrimStart(s);
    var r := TrimEnd(head);
    assert r == [] ==> head == [];
    r
  }

  /** Position of the last occurrence of `c` in `s`. */
  function LastIndexOf(s: string, c: char): (k: Option<nat>)
    ensures k.Some? ==> k.value < |s| && s[k.value] == c && forall j :: k.value < j < |s| ==> s[j] != c
    ensures k.None? ==> forall j :: 0 <= j < |s| ==> s[j] != c
  {
    if s == [] then None
    else if s[|s| - 1] == c then Some(|s| - 1)
    else LastIndexOf(s[..|s| - 1], c)
  }

  /** Lower-casing text without capitals leaves it as it is. */
  lemma LowerKeepsLowerCase(s: string)
    requires forall i :: 0 <= i < |s| ==> !('A' <= s[i] <= 'Z')
    ensures Lower(s) == s
  {
  }

  /** A word with a character that `s` lacks does not occur in `s`. */
  lemma MissingCharNoOccurrence(s: string, w: string, k: nat)
    requires k < |w| && forall i :: 0 <= i < |s| ==> s[i] != w[k]
    ensures !Occurs(s, w)
  {
    forall i ensures !OccursAt(s, w, i) {
      if 0 <= i && i + |w| <= |s| {
        assert s[i..i + |w|][k] == s[i + k] != w[k];
      }
    }
  }

  /** `w` occurs in `a + w + b` right after `a`. */
  lemma OccursInside(a: string, w: string, b: string)
    ensures OccursAt(a + w + b, w, |a|)
  {
    assert (a + w + b)[|a|..|a| + |w|] == w;
  }
}
