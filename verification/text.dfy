/** Number-to-text conversion as JavaScript performs it for the integers the
    colour formatters print: `Number.prototype.toString(radix)` (decimal for
    template literals, radix 16 for the hex code), together with reference
    readers that turn the text back into numbers. */
module Text {

  /** The digit character for `d`: '0'-'9', then lower-case 'a'-'f'. */
  function DigitChar(d: nat): (ch: char)
    requires d < 16
    ensures DigitValue(ch) == d
  {
    if d < 10 then ('0' as int + d) as char else ('a' as int + d - 10) as char
  }

  /** The value of a lower-case digit character, or -1 for any other character. */
  function DigitValue(ch: char): (d: int)
    ensures -1 <= d < 16
    ensures d < 0 <==> !('0' <= ch <= '9' || 'a' <= ch <= 'f')
  {
    if '0' <= ch <= '9' then ch as int - '0' as int
    else if 'a' <= ch <= 'f' then ch as int - 'a' as int + 10
    else -1
  }

  predicate IsDigitOf(ch: char, base: nat)
  {
    0 <= DigitValue(ch) < base
  }

  /** `n.toString(base)` for a non-negative integer: the digits of `n`, most
      significant first, without leading zeros. */
  function NatToString(n: nat, base: nat): (s: string)
    requires 2 <= base <= 16
    ensures 1 <= |s|
    ensures forall i :: 0 <= i < |s| ==> IsDigitOf(s[i], base)
    decreases n
  {
    if n < base then [DigitChar(n)] else NatToString(n / base, base) + [DigitChar(n % base)]
  }

  /** `n.toString(base)` for any integer: a minus sign before the digits of a negative number. */
  function IntToString(n: int, base: nat): (s: string)
    requires 2 <= base <= 16
    ensures 1 <= |s|
    ensures forall i :: 0 <= i < |s| ==> s[i] == '-' || IsDigitOf(s[i], base)
  {
    if n < 0 then "-" + NatToString(-n, base) else NatToString(n, base)
  }

  /** Reference reader: the value of a string of digits in `base`, most
      significant first (a character that is not a digit reads as 0). */
  function DigitsValue(s: string, base: nat): nat
    decreases |s|
  {
    if s == [] then 0
    else
      var d := DigitValue(s[|s| - 1]);
      DigitsValue(s[..|s| - 1], base) * base + (if d < 0 then 0 else d)
  }

  /** Reference reader for `IntToString`: an optional minus sign, then digits. */
  function ParseInt(s: string, base: nat): int
  {
    if |s| > 0 && s[0] == '-' then -(DigitsValue(s[1..], base) as int) else DigitsValue(s, base)
  }

  /** Reading back what `NatToString` wrote gives the number again. */
  lemma {:induction false} NatToStringRoundTrip(n: nat, base: nat)
    requires 2 <= base <= 16
    ensures DigitsValue(NatToString(n, base), base) == n
    decreases n
  {
    if n >= base {
      var q, d := n / base, n % base;
      var front := NatToString(q, base);
      var s := front + [DigitChar(d)];
      assert s == NatToString(n, base);
      assert s[..|s| - 1] == front;
      assert DigitsValue(s, base) == DigitsValue(front, base) * base + d;
      DivShrinks(n, base);
      NatToStringRoundTrip(q, base);
      assert q * base + d == n;
    }
  }

  lemma DivShrinks(n: nat, base: nat)
    requires 2 <= base <= n
    ensures n / base < n && (n / base) * base + n % base == n
  {
  }

  /** Reading back what `IntToString` wrote gives the number again. */
  lemma IntToStringRoundTrip(n: int, base: nat)
    requires 2 <= base <= 16
    ensures ParseInt(IntToString(n, base), base) == n
  {
    var s := IntToString(n, base);
    if n < 0 {
      assert s[1..] == NatToString(-n, base);
      NatToStringRoundTrip(-n, base);
    } else {
      assert IsDigitOf(s[0], base);
      NatToStringRoundTrip(n, base);
    }
  }

  /** Distinct numbers are printed differently. */
  lemma IntToStringInjective(a: int, b: int, base: nat)
    requires 2 <= base <= 16
    requires IntToString(a, base) == IntToString(b, base)
    ensures a == b
  {
    IntToStringRoundTrip(a, base);
    IntToStringRoundTrip(b, base);
  }

  /** A leading zero does not change the value of a digit string. */
  lemma {:induction false} LeadingZero(s: string, base: nat)
    ensures DigitsValue("0" + s, base) == DigitsValue(s, base)
    decreases |s|
  {
    if s != [] {
      var t := "0" + s;
      assert t[..|t| - 1] == "0" + s[..|s| - 1];
      assert t[|t| - 1] == s[|s| - 1];
      LeadingZero(s[..|s| - 1], base);
    }
  }

  /** A number below 256 takes at most two hexadecimal digits. */
  lemma HexAtMostTwoDigits(n: nat)
    requires n < 256
    ensures |NatToString(n, 16)| <= 2
  {
  }

  /** A separator character that occurs in neither of two prefixes splits
      equal strings at the same place. */
  lemma SplitAtSeparator(x: string, u: string, y: string, v: string, sep: char)
    requires forall i :: 0 <= i < |x| ==> x[i] != sep
    requires forall i :: 0 <= i < |y| ==> y[i] != sep
    requires x + [sep] + u == y + [sep] + v
    ensures x == y && u == v
  {
    var l := x + [sep] + u;
    var r := y + [sep] + v;
    var k := if |x| < |y| then |x| else |y|;
    assert l[k] == r[k];
    assert |x| == |y|;
    assert x == l[..|x|] == r[..|y|] == y;
    assert u == l[|x| + 1..] == r[|y| + 1..] == v;
  }

  /** Two printed integers followed by the same separator character, which
      is neither a digit nor a minus sign, split equal strings apart. */
  lemma SplitNumbers(a: int, u: string, b: int, v: string, sep: char, base: nat)
    requires 2 <= base <= 16
    requires sep != '-' && DigitValue(sep) < 0
    requires IntToString(a, base) + [sep] + u == IntToString(b, base) + [sep] + v
    ensures a == b && u == v
  {
    SplitAtSeparator(IntToString(a, base), u, IntToString(b, base), v, sep);
    IntToStringInjective(a, b, base);
  }

  /** A common prefix can be dropped from both sides of an equation. */
  lemma DropPrefix(p: string, x: string, y: string)
    requires p + x == p + y
    ensures x == y
  {
    assert x == (p + x)[|p|..];
    assert y == (p + y)[|p|..];
  }

  /** A printed integer after a common prefix and before a separator that
      is neither a digit nor a minus sign is read back unambiguously. */
  lemma SplitField(p: string, a: int, u: string, b: int, v: string, sep: char)
    requires sep != '-' && DigitValue(sep) < 0
    requires p + IntToString(a, 10) + [sep] + u == p + IntToString(b, 10) + [sep] + v
    ensures a == b && u == v
  {
    var x, y := IntToString(a, 10), IntToString(b, 10);
    assert p + x + [sep] + u == p + (x + [sep] + u);
    assert p + y + [sep] + v == p + (y + [sep] + v);
    DropPrefix(p, x + [sep] + u, y + [sep] + v);
    SplitNumbers(a, u, b, v, sep, 10);
  }
}
