/** `StatusCode` (http_server/src/http/status_code.rs): the closed set of
    status codes a response can carry, each with its number and its reason
    phrase, and `Display`, which prints the number in decimal.

    The numbers are those of section 15 of RFC 9110 (200 in section 15.3.1,
    400 in section 15.5.1, 404 in section 15.5.5).  The phrase for 200 is
    `Ok`, not the RFC's `OK`; section 4 of RFC 9112 makes the reason phrase
    advisory, and the model keeps the source's spelling. */
module StatusCodes {

  datatype StatusCode = Ok | BadRequest | NotFound

  /** The enum's discriminant, `*self as u16`. */
  function Code(s: StatusCode): (n: nat)
    ensures 100 <= n < 600
  {
    match s
    case Ok => 200
    case BadRequest => 400
    case NotFound => 404
  }

  /** `reason_phrase`: text that can go on a status line after the code. */
  function ReasonPhrase(s: StatusCode): (p: string)
    ensures |p| > 0
    ensures forall k :: 0 <= k < |p| ==> p[k] != '\r' && p[k] != '\n'
  {
    match s
    case Ok => "Ok"
    case BadRequest => "Bad Request"
    case NotFound => "Not Found"
  }

  predicate IsDigit(c: char)
  {
    '0' <= c <= '9'
  }

  predicate IsDigits(s: string)
  {
    forall k :: 0 <= k < |s| ==> IsDigit(s[k])
  }

  function DigitChar(d: nat): (c: char)
    requires d < 10
    ensures IsDigit(c)
  {
    (('0' as int) + d) as char
  }

  function DigitValue(c: char): (d: nat)
    requires IsDigit(c)
    ensures d < 10
  {
    (c as int) - ('0' as int)
  }

  function Pow10(k: nat): (p: nat)
    ensures p >= 1
  {
    if k == 0 then 1 else 10 * Pow10(k - 1)
  }

  /** The number a string of decimal digits denotes, most significant first. */
  function ParseDecimal(s: string): nat
    requires IsDigits(s)
  {
    if s == [] then 0 else 10 * ParseDecimal(s[..|s| - 1]) + DigitValue(s[|s| - 1])
  }

  /** How Rust's `{}` prints an unsigned integer: its decimal digits, with no
      leading zero. */
  function DecimalString(n: nat): (s: string)
    ensures |s| >= 1 && IsDigits(s)
    ensures |s| > 1 ==> s[0] != '0'
    ensures ParseDecimal(s) == n
  {
    if n < 10 then [DigitChar(n)]
    else
      var s := DecimalString(n / 10) + [DigitChar(n % 10)];
      assert s[..|s| - 1] == DecimalString(n / 10);
      s
  }

  /** `k` digits hold less than `10^k`, and at least `10^(k-1)` when the
      first is not zero. */
  lemma {:induction false} ParseDecimalBounds(s: string)
    requires IsDigits(s)
    ensures ParseDecimal(s) < Pow10(|s|)
    ensures |s| > 0 && s[0] != '0' ==> Pow10(|s| - 1) <= ParseDecimal(s)
  {
    if s != [] {
      var t := s[..|s| - 1];
      assert IsDigits(t);
      ParseDecimalBounds(t);
      if |t| > 0 {
        assert t[0] == s[0];
      }
    }
  }

  lemma {:induction false} Pow10Increasing(j: nat, k: nat)
    requires j < k
    ensures Pow10(j) < Pow10(k)
  {
    if j < k - 1 {
      Pow10Increasing(j, k - 1);
    }
  }

  /** Printing a number gives three digits exactly when it is between 100
      and 999. */
  lemma DecimalStringLength(n: nat)
    ensures |DecimalString(n)| == 3 <==> 100 <= n < 1000
  {
    var d := DecimalString(n);
    ParseDecimalBounds(d);
    if |d| < 2 {
      Pow10Increasing(|d|, 2);
    } else if |d| > 4 {
      Pow10Increasing(3, |d| - 1);
    }
  }

  /** Printing the number a canonical digit string denotes gives the string
      back: with `ParseDecimal (DecimalString n) == n`, the two are inverse. */
  lemma {:induction false} DecimalStringOfParse(s: string)
    requires IsDigits(s) && |s| >= 1 && (|s| > 1 ==> s[0] != '0')
    ensures DecimalString(ParseDecimal(s)) == s
  {
    var n := ParseDecimal(s);
    var t := s[..|s| - 1];
    assert IsDigits(t);
    if |s| == 1 {
      assert s == [DigitChar(n)];
    } else {
      assert t[0] == s[0];
      ParseDecimalBounds(t);
      LastDigit(ParseDecimal(t), DigitValue(s[|s| - 1]));
      DecimalStringOfParse(t);
      assert s == t + [s[|s| - 1]];
    }
  }

  /** Appending digit `d` to `q` and splitting the last digit off again. */
  lemma LastDigit(q: nat, d: nat)
    requires d < 10
    ensures (10 * q + d) / 10 == q && (10 * q + d) % 10 == d
  {
  }

  /** `Display`: the code in decimal, always three digits, which read back
      as the code. */
  function Display(s: StatusCode): (d: string)
    ensures |d| == 3 && IsDigits(d)
    ensures ParseDecimal(d) == Code(s)
  {
    DecimalStringLength(Code(s));
    DecimalString(Code(s))
  }

  /** The three codes and what they print as. */
  lemma CodeTable()
    ensures Code(Ok) == 200 && Display(Ok) == "200"
    ensures Code(BadRequest) == 400 && Display(BadRequest) == "400"
    ensures Code(NotFound) == 404 && Display(NotFound) == "404"
  {
  }

  /** Distinct status codes have distinct numbers, distinct printed forms
      and distinct reason phrases. */
  lemma StatusCodeInjective(a: StatusCode, b: StatusCode)
    ensures Code(a) == Code(b) <==> a == b
    ensures Display(a) == Display(b) <==> a == b
    ensures ReasonPhrase(a) == ReasonPhrase(b) <==> a == b
  {
    if Display(a) == Display(b) {
      DecimalStringOfParse(Display(a));
    }
  }

  /** The reason phrases, with `Ok` spelled as the source spells it. */
  lemma ReasonPhraseTable()
    ensures ReasonPhrase(Ok) == "Ok"
    ensures ReasonPhrase(BadRequest) == "Bad Request"
    ensures ReasonPhrase(NotFound) == "Not Found"
  {
  }
}
