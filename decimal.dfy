/** The numeric parse that `pd.to_numeric` applies to each rewritten cell,
    abstracted to plain decimal literals: an optional sign, then digits with
    at most one `.`, and at least one digit. */
module Decimal {
  import opened Tables

  predicate IsDigit(ch: char) {
    '0' <= ch <= '9'
  }

  predicate AllDigits(s: string) {
    forall i :: 0 <= i < |s| ==> IsDigit(s[i])
  }

  function DigitValue(ch: char): nat
    requires IsDigit(ch)
  {
    ch as int - '0' as int
  }

  /** The number a string of decimal digits denotes. */
  function DigitsValue(s: string): nat
    requires AllDigits(s)
  {
    if s == [] then 0 else DigitsValue(s[..|s| - 1]) * 10 + DigitValue(s[|s| - 1])
  }

  function Pow10(n: nat): (r: nat)
    ensures r >= 1
  {
    if n == 0 then 1 else 10 * Pow10(n - 1)
  }

  /** The position of the first `.`, or the length when there is none. */
  function DotIndex(s: string): (k: nat)
    ensures k <= |s|
    ensures k < |s| ==> s[k] == '.'
    ensures forall i :: 0 <= i < k ==> s[i] != '.'
  {
    if s == [] || s[0] == '.' then 0 else 1 + DotIndex(s[1..])
  }

  lemma {:induction false} DotIndexAfter(a: string, b: string)
    requires forall i :: 0 <= i < |a| ==> a[i] != '.'
    ensures DotIndex(a + b) == |a| + DotIndex(b)
  {
    if a == [] {
      assert a + b == b;
    } else {
      assert (a + b)[1..] == a[1..] + b;
      DotIndexAfter(a[1..], b);
    }
  }

  /** The value of `<whole>.<frac>`. */
  function DecimalValue(whole: string, frac: string): real
    requires AllDigits(whole) && AllDigits(frac)
  {
    DigitsValue(whole) as real + DigitsValue(frac) as real / Pow10(|frac|) as real
  }

  /** Digits, at most one `.`, at least one digit. */
  function ParseUnsigned(s: string): Option<real> {
    var k := DotIndex(s);
    var whole := s[..k];
    var frac := if k < |s| then s[k + 1..] else "";
    if |whole| + |frac| > 0 && AllDigits(whole) && AllDigits(frac) then
      Some(DecimalValue(whole, frac))
    else None
  }

  lemma UnsignedFraction(whole: string, frac: string)
    requires AllDigits(whole) && AllDigits(frac) && |whole| + |frac| > 0
    ensures ParseUnsigned(whole + ("." + frac)) == Some(DecimalValue(whole, frac))
  {
    var s := whole + ("." + frac);
    assert DotIndex(s) == |whole| by {
      DotIndexAfter(whole, "." + frac);
    }
    assert s[..|whole|] == whole;
    assert s[|whole| + 1..] == frac;
  }

  /** A decimal literal with an optional leading sign. */
  function ParseDecimal(s: string): Option<real> {
    if |s| > 0 && (s[0] == '+' || s[0] == '-') then
      match ParseUnsigned(s[1..])
      case None => None
      case Some(v) => Some(if s[0] == '-' then -v else v)
    else ParseUnsigned(s)
  }

  lemma UnsignedAlphabet(u: string)
    requires ParseUnsigned(u).Some?
    ensures exists i :: 0 <= i < |u| && IsDigit(u[i])
    ensures forall i :: 0 <= i < |u| ==> IsDigit(u[i]) || u[i] == '.'
  {
    var k := DotIndex(u);
    var whole := u[..k];
    var frac := if k < |u| then u[k + 1..] else "";
    if k > 0 {
      assert IsDigit(whole[0]);
    } else {
      assert IsDigit(frac[0]);
    }
    forall i | 0 <= i < |u| ensures IsDigit(u[i]) || u[i] == '.' {
      if i < k {
        assert whole[i] == u[i];
      } else if i > k {
        assert frac[i - k - 1] == u[i];
      }
    }
  }

  /** Only digits, one `.` and a leading sign can make up an accepted literal:
      any other character makes the parse fail. */
  lemma ParseDecimalAlphabet(s: string)
    requires ParseDecimal(s).Some?
    ensures exists i :: 0 <= i < |s| && IsDigit(s[i])
    ensures forall i :: 0 <= i < |s| ==>
      IsDigit(s[i]) || s[i] == '.' || (i == 0 && (s[i] == '+' || s[i] == '-'))
  {
    var off := if |s| > 0 && (s[0] == '+' || s[0] == '-') then 1 else 0;
    var u := s[off..];
    UnsignedAlphabet(u);
    var j :| 0 <= j < |u| && IsDigit(u[j]);
    assert s[off + j] == u[j];
    forall i | off <= i < |s| ensures IsDigit(s[i]) || s[i] == '.' {
      assert s[i] == u[i - off];
    }
  }

  /** The shape of an unsigned literal: digits and `.` only, at most one
      `.`, and at least one digit. */
  predicate UnsignedLiteral(u: string) {
    (exists i :: 0 <= i < |u| && IsDigit(u[i]))
    && (forall i :: 0 <= i < |u| ==> IsDigit(u[i]) || u[i] == '.')
    && (forall i, j :: 0 <= i < j < |u| && u[i] == '.' ==> u[j] != '.')
  }

  /** The shape of a literal: an unsigned literal, optionally after one sign. */
  predicate DecimalLiteral(s: string) {
    if |s| > 0 && (s[0] == '+' || s[0] == '-') then UnsignedLiteral(s[1..])
    else UnsignedLiteral(s)
  }

  /** The unsigned parse succeeds exactly on unsigned literals. */
  lemma ParseUnsignedIff(u: string)
    ensures ParseUnsigned(u).Some? <==> UnsignedLiteral(u)
  {
    if ParseUnsigned(u).Some? {
      UnsignedAlphabet(u);
      OneDot(u);
    }
    if UnsignedLiteral(u) {
      LiteralParses(u);
    }
  }

  lemma OneDot(u: string)
    requires ParseUnsigned(u).Some?
    ensures forall i, j :: 0 <= i < j < |u| && u[i] == '.' ==> u[j] != '.'
  {
    var k := DotIndex(u);
    forall i, j | 0 <= i < j < |u| && u[i] == '.' ensures u[j] != '.' {
      assert i == k;
      assert u[j] == u[k + 1..][j - k - 1];
    }
  }

  lemma LiteralParses(u: string)
    requires UnsignedLiteral(u)
    ensures ParseUnsigned(u).Some?
  {
    var k := DotIndex(u);
    var whole := u[..k];
    var frac := if k < |u| then u[k + 1..] else "";
    assert AllDigits(whole) by {
      forall i | 0 <= i < |whole| ensures IsDigit(whole[i]) {
        assert whole[i] == u[i];
      }
    }
    assert AllDigits(frac) by {
      forall i | 0 <= i < |frac| ensures IsDigit(frac[i]) {
        assert frac[i] == u[k + 1 + i];
      }
    }
    var d :| 0 <= d < |u| && IsDigit(u[d]);
    assert d < k || d > k;
  }

  /** The parse succeeds exactly on literals: an optional sign, then digits
      with at most one `.`, and at least one digit. */
  lemma ParseDecimalIff(s: string)
    ensures ParseDecimal(s).Some? <==> DecimalLiteral(s)
  {
    if |s| > 0 && (s[0] == '+' || s[0] == '-') {
      ParseUnsignedIff(s[1..]);
    } else {
      ParseUnsignedIff(s);
    }
  }

  /** A character other than a digit, `.` or a leading sign rejects the text. */
  lemma RejectsForeignChar(s: string, i: nat)
    requires i < |s| && !IsDigit(s[i]) && s[i] != '.'
    requires i > 0 || (s[i] != '+' && s[i] != '-')
    ensures ParseDecimal(s) == None
  {
    if ParseDecimal(s).Some? {
      ParseDecimalAlphabet(s);
    }
  }

  function DigitChar(d: nat): (ch: char)
    requires d < 10
    ensures IsDigit(ch) && DigitValue(ch) == d
  {
    ('0' as int + d) as char
  }

  /** The decimal text of a natural number, without sign or separator. */
  function NatText(n: nat): (s: string)
    ensures |s| > 0 && AllDigits(s)
  {
    if n < 10 then [DigitChar(n)] else NatText(n / 10) + [DigitChar(n % 10)]
  }

  lemma {:induction false} NatTextValue(n: nat)
    ensures DigitsValue(NatText(n)) == n
  {
    var s := NatText(n);
    if n >= 10 {
      NatTextValue(n / 10);
      assert s[..|s| - 1] == NatText(n / 10);
    }
  }

  /** Reading back the decimal text of a natural number gives that number,
      with or without a minus sign in front. */
  lemma NatTextRoundTrip(n: nat)
    ensures ParseDecimal(NatText(n)) == Some(n as real)
    ensures ParseDecimal("-" + NatText(n)) == Some(-(n as real))
  {
    var s := NatText(n);
    NatTextUnsigned(n);
    var m := "-" + s;
    assert m[1..] == s;
  }

  lemma NatTextUnsigned(n: nat)
    ensures ParseUnsigned(NatText(n)) == Some(n as real)
  {
    var s := NatText(n);
    NatTextValue(n);
    assert DotIndex(s) == |s| by {
      NoDotIndex(s);
    }
    assert s[..|s|] == s;
  }

  lemma NoDotIndex(s: string)
    requires AllDigits(s)
    ensures DotIndex(s) == |s|
  {
    assert forall i :: 0 <= i < |s| ==> s[i] != '.';
  }
}
