/** The few PHP value semantics the controller depends on. */
module Php {
  import opened Text

  /** PHP `empty()` on a string: true for "" and also for "0". */
  predicate IsEmpty(s: string)
  {
    s == "" || s == "0"
  }

  /** One character through PHP 8's locale-independent `strtolower`: only A-Z change. */
  function LowerChar(c: char): char
  {
    if 'A' <= c <= 'Z' then (c as int + 32) as char else c
  }

  predicate IsLowerChar(c: char)
  {
    !('A' <= c <= 'Z')
  }

  predicate IsLowerCase(s: string)
  {
    forall i :: 0 <= i < |s| ==> IsLowerChar(s[i])
  }

  /** PHP `strtolower`. */
  function Lower(s: string): (r: string)
    ensures |r| == |s|
    ensures forall i :: 0 <= i < |s| ==> r[i] == LowerChar(s[i])
    ensures IsLowerCase(r)
  {
    seq(|s|, i requires 0 <= i < |s| => LowerChar(s[i]))
  }

  /** Lower-casing is idempotent, and fixes exactly the strings that are already lower case. */
  lemma LowerFixes(s: string)
    ensures Lower(s) == s <==> IsLowerCase(s)
  {
    if IsLowerCase(s) {
      assert forall i :: 0 <= i < |s| ==> Lower(s)[i] == s[i];
    } else {
      var i :| 0 <= i < |s| && !IsLowerChar(s[i]);
      assert Lower(s)[i] != s[i];
    }
  }

  /** A PHP scalar as it can come back from a settings lookup or a filter. */
  datatype Scalar = PInt(n: int) | PStr(s: string) | PBool(b: bool) | PNull

  function DigitChar(d: int): char
    requires 0 <= d < 10
  {
    ('0' as int + d) as char
  }

  /** Decimal digits of a natural number, most significant first, with no leading zero. */
  function NatString(n: nat): (s: string)
    ensures 1 <= |s|
    ensures n >= 10 ==> 2 <= |s|
    ensures s[0] != '-'
    decreases n
  {
    if n < 10 then [DigitChar(n)] else NatString(n / 10) + [DigitChar(n % 10)]
  }

  /** PHP `strval` of an int. */
  function DecimalString(n: int): string
  {
    if n < 0 then "-" + NatString(-n) else NatString(n)
  }

  /** PHP `strval`: true is "1", false and null are "". */
  function StrVal(v: Scalar): string
  {
    match v
    case PInt(n) => DecimalString(n)
    case PStr(s) => s
    case PBool(b) => if b then "1" else ""
    case PNull => ""
  }

  lemma {:induction false} NatStringInjective(a: nat, b: nat)
    requires NatString(a) == NatString(b)
    ensures a == b
    decreases a
  {
    var s := NatString(a);
    if a < 10 && b < 10 {
      assert s[0] == DigitChar(a) && s[0] == DigitChar(b);
    } else if a >= 10 && b >= 10 {
      assert NatString(a / 10) == s[..|s| - 1] == NatString(b / 10);
      assert DigitChar(a % 10) == s[|s| - 1] == DigitChar(b % 10);
      NatStringInjective(a / 10, b / 10);
    }
  }

  /** Distinct integers have distinct `strval`s, so comparing ids as strings loses nothing for ints. */
  lemma DecimalStringInjective(a: int, b: int)
    requires DecimalString(a) == DecimalString(b)
    ensures a == b
  {
    if a < 0 && b < 0 {
      assert NatString(-a) == DecimalString(a)[1..] == NatString(-b);
      NatStringInjective(-a, -b);
    } else if a >= 0 && b >= 0 {
      NatStringInjective(a, b);
    }
  }
}
