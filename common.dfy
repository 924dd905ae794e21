/**
 * Small value types and text helpers shared by the server and client models:
 * an Option type, bytes, decimal rendering and parsing of integers (as PHP's
 * string interpolation, PHP's intval and JavaScript's template literals do
 * them for integers), and splitting a string at the last occurrence of a
 * separator.
 */
module Common {

  datatype Option<+T> = None | Some(value: T) {
    /** The value, or the default when there is none (PHP's ?? operator). */
    function GetOr(default: T): T {
      if Some? then value else default
    }
  }

  newtype byte = b: int | 0 <= b < 256

  type Bytes = seq<byte>

  predicate IsDigit(c: char) { '0' <= c <= '9' }

  predicate AllDigits(s: string) { forall i :: 0 <= i < |s| ==> IsDigit(s[i]) }

  function DigitChar(d: nat): (c: char)
    requires d < 10
    ensures IsDigit(c) && c as int - '0' as int == d
  {
    ('0' as int + d) as char
  }

  function DigitValue(c: char): nat
    requires IsDigit(c)
  {
    c as int - '0' as int
  }

  /** Decimal rendering of a natural number, most significant digit first, no leading zeros. */
  function NatToString(n: nat): (s: string)
    ensures 1 <= |s| && AllDigits(s)
    ensures s[0] == '0' ==> n == 0
    decreases n
  {
    if n < 10 then [DigitChar(n)] else NatToString(n / 10) + [DigitChar(n % 10)]
  }

  /** The value of a string of decimal digits (leading zeros allowed, no bound). */
  function ParseDigits(s: string): nat
    requires AllDigits(s)
  {
    if s == [] then 0 else ParseDigits(s[..|s| - 1]) * 10 + DigitValue(s[|s| - 1])
  }

  lemma {:induction false} ParseNatToString(n: nat)
    ensures ParseDigits(NatToString(n)) == n
  {
    if n >= 10 {
      var s := NatToString(n);
      assert s[..|s| - 1] == NatToString(n / 10);
      ParseNatToString(n / 10);
    }
  }

  lemma NatToStringInjective(a: nat, b: nat)
    ensures NatToString(a) == NatToString(b) ==> a == b
  {
    ParseNatToString(a);
    ParseNatToString(b);
  }

  /** Decimal rendering of an integer, with a leading '-' when it is negative. */
  function IntToString(x: int): (s: string)
    ensures 1 <= |s| && '.' !in s
  {
    if x < 0 then "-" + NatToString(-x) else NatToString(x)
  }

  lemma IntToStringInjective(a: int, b: int)
    ensures IntToString(a) == IntToString(b) ==> a == b
  {
    if IntToString(a) == IntToString(b) {
      if a < 0 && b < 0 {
        assert NatToString(-a) == IntToString(a)[1..];
        NatToStringInjective(-a, -b);
      } else if a >= 0 && b >= 0 {
        NatToStringInjective(a, b);
      }
    }
  }

  /**
   * Splits s at the LAST occurrence of c: s == before + [c] + after with no c
   * in after; None when c does not occur in s.
   */
  function SplitLast(s: string, c: char): (r: Option<(string, string)>)
    ensures r.None? <==> c !in s
    ensures r.Some? ==> s == r.value.0 + [c] + r.value.1 && c !in r.value.1
  {
    if s == [] then None
    else if s[|s| - 1] == c then Some((s[..|s| - 1], []))
    else match SplitLast(s[..|s| - 1], c)
      case None =>
        assert s == s[..|s| - 1] + [s[|s| - 1]];
        None
      case Some((a, b)) =>
        assert s == s[..|s| - 1] + [s[|s| - 1]];
        Some((a, b + [s[|s| - 1]]))
  }

  /** The decomposition SplitLast produces is the only one with no c after the separator. */
  lemma {:induction false} SplitLastOf(a: string, b: string, c: char)
    requires c !in b
    ensures SplitLast(a + [c] + b, c) == Some((a, b))
  {
    var s := a + [c] + b;
    if b == [] {
      assert s[..|s| - 1] == a;
    } else {
      var b0 := b[..|b| - 1];
      assert s[..|s| - 1] == a + [c] + b0;
      assert s[|s| - 1] == b[|b| - 1];
      SplitLastOf(a, b0, c);
      assert b0 + [b[|b| - 1]] == b;
    }
  }
}
