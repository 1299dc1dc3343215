/**
 * Number literals of the binder (`Num::parse`).
 *
 * A literal that contains `.`, `e` or `E` is a floating-point literal; its
 * text is kept as it is, because floating-point parsing is not part of this
 * model. Every other literal is read as a machine-size signed integer, with
 * the rules of `isize::from_str` on a 64-bit target: an optional `+` or `-`,
 * then one or more decimal digits, and a value that fits in 64 bits.
 */
module MirNum {
  import opened Wrappers

  const IsizeMin: int := -0x8000_0000_0000_0000
  const IsizeMax: int := 0x7fff_ffff_ffff_ffff

  /** A parsed number literal. */
  datatype Num = Float(text: string) | Int(i: int)

  predicate IsDigit(c: char) { '0' <= c <= '9' }

  predicate AllDigits(s: string) { forall i | 0 <= i < |s| :: IsDigit(s[i]) }

  /** The value of a string of decimal digits, most significant first. */
  function DigitsValue(s: string): nat
    requires AllDigits(s)
  {
    if s == [] then 0 else DigitsValue(s[..|s| - 1]) * 10 + (s[|s| - 1] as int - '0' as int)
  }

  /** `isize::from_str` on a 64-bit target; `None` is any parse error. */
  function ParseIsize(s: string): (r: Option<int>)
    ensures r.Some? ==> IsizeMin <= r.value <= IsizeMax
    ensures r.Some? ==> |s| > 0
  {
    if |s| == 0 then None
    else
      var signed := s[0] == '+' || s[0] == '-';
      var digits := if signed then s[1..] else s;
      if |digits| == 0 || !AllDigits(digits) then None
      else
        var v: int := if s[0] == '-' then 0 - DigitsValue(digits) as int else DigitsValue(digits);
        if IsizeMin <= v <= IsizeMax then Some(v) else None
  }

  /**
   * `Num::parse`: a float literal is kept as text; an integer literal that
   * `isize` cannot hold is an error that still carries the number `Int(0)`.
   */
  function ParseNum(n: string): Result<Num, Num>
  {
    if '.' in n || 'e' in n || 'E' in n then Ok(Float(n))
    else
      match ParseIsize(n)
      case Some(v) => Ok(Int(v))
      case None => Err(Int(0))
  }

  /** The decimal digits of a natural number, without leading zeros. */
  function Digits(n: nat): string
  {
    if n < 10 then [('0' as int + n) as char] else Digits(n / 10) + [('0' as int + n % 10) as char]
  }

  /** The decimal text of an integer, with a `-` for negative numbers. */
  function Decimal(n: int): string
  {
    if n < 0 then "-" + Digits(-n) else Digits(n)
  }

  lemma {:induction false} DigitsRoundTrip(n: nat)
    ensures |Digits(n)| > 0 && AllDigits(Digits(n)) && DigitsValue(Digits(n)) == n
    ensures '.' !in Digits(n) && 'e' !in Digits(n) && 'E' !in Digits(n) && '+' !in Digits(n) && '-' !in Digits(n)
    decreases n
  {
    if n >= 10 {
      DigitsRoundTrip(n / 10);
      var d := Digits(n / 10);
      var c := ('0' as int + n % 10) as char;
      assert Digits(n) == d + [c];
      assert (d + [c])[..|d|] == d;
    }
  }

  /**
   * Reading the decimal text of an integer gives the integer back when it
   * fits in `isize`, and the "cannot interpret as machine-size integer"
   * error (carrying `Int(0)`) when it does not.
   */
  lemma IntLiteralRoundTrip(n: int)
    ensures IsizeMin <= n <= IsizeMax ==> ParseNum(Decimal(n)) == Ok(Int(n))
    ensures !(IsizeMin <= n <= IsizeMax) ==> ParseNum(Decimal(n)) == Err(Int(0))
  {
    var m := if n < 0 then -n else n;
    DigitsRoundTrip(m);
    var s := Decimal(n);
    if n < 0 {
      assert s[0] == '-' && s[1..] == Digits(m);
    } else {
      assert s[0] != '+' && s[0] != '-' by { assert s[0] in Digits(m); }
    }
    assert '.' !in s && 'e' !in s && 'E' !in s by {
      assert forall c | c in s :: c == '-' || c in Digits(m);
    }
  }

  /** A run of `z` zero digits. */
  function Zeros(z: nat): (r: string)
    ensures |r| == z && AllDigits(r)
  {
    seq(z, _ => '0')
  }

  /** Leading zeros do not change the value of a digit string. */
  lemma {:induction false} LeadingZerosValue(z: nat, d: string)
    requires AllDigits(d)
    ensures AllDigits(Zeros(z) + d) && DigitsValue(Zeros(z) + d) == DigitsValue(d)
    decreases |d|
  {
    var s := Zeros(z) + d;
    assert AllDigits(s) by {
      forall i | 0 <= i < |s| ensures IsDigit(s[i]) {
        if i >= z { assert s[i] == d[i - z]; }
      }
    }
    if d == [] {
      ZerosValue(z);
      assert s == Zeros(z);
    } else {
      var n := |d| - 1;
      assert s[..|s| - 1] == Zeros(z) + d[..n];
      assert s[|s| - 1] == d[n];
      assert AllDigits(d[..n]) by { assert forall i | 0 <= i < n :: d[..n][i] == d[i]; }
      LeadingZerosValue(z, d[..n]);
    }
  }

  lemma {:induction false} ZerosValue(z: nat)
    ensures DigitsValue(Zeros(z)) == 0
    decreases z
  {
    if z > 0 {
      assert Zeros(z)[..z - 1] == Zeros(z - 1);
      ZerosValue(z - 1);
    }
  }

  /**
   * The integer literals `isize::from_str` reads: an optional sign, any
   * number of leading zeros, then the decimal digits of `n`. The result is
   * `n` (negated after a `-`) when it fits in `isize`, and an error
   * otherwise; `-0` reads as 0.
   */
  lemma ParseIsizeLiteral(sign: string, z: nat, n: nat)
    requires sign == "" || sign == "+" || sign == "-"
    ensures var v: int := if sign == "-" then 0 - (n as int) else n as int;
      ParseIsize(sign + Zeros(z) + Digits(n)) == if IsizeMin <= v <= IsizeMax then Some(v) else None
  {
    DigitsRoundTrip(n);
    LeadingZerosValue(z, Digits(n));
    var d := Zeros(z) + Digits(n);
    var s := sign + Zeros(z) + Digits(n);
    assert s == sign + d && |d| > 0;
    if sign == "" {
      assert s == d;
      assert s[0] != '+' && s[0] != '-' by {
        if z > 0 { assert s[0] == Zeros(z)[0]; } else { assert s[0] == Digits(n)[0]; }
      }
    } else {
      assert s[0] == sign[0] && s[1..] == d;
    }
  }

  /** A lone sign, and the empty string, are not integer literals. */
  lemma ParseIsizeNoDigits()
    ensures ParseIsize("") == None && ParseIsize("+") == None && ParseIsize("-") == None
  {
    assert "+"[1..] == "" && "-"[1..] == "";
  }

  /**
   * Any character other than a decimal digit, except a sign in the first
   * position, makes the literal unreadable: no `_` separators, no second
   * sign, no spaces.
   */
  lemma ParseIsizeNonDigit(s: string, i: nat)
    requires i < |s| && !IsDigit(s[i])
    requires i == 0 ==> s[0] != '+' && s[0] != '-'
    ensures ParseIsize(s) == None
  {
    if s[0] == '+' || s[0] == '-' {
      assert s[1..][i - 1] == s[i];
    }
  }
}
