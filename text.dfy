/** Rendering of the values that the bot turns into text to build job ids:
    Python's str() of an int, the "02d" format spec, repr() of a POSIX
    timestamp and str.lower() (on ASCII letters). */
module Text {

  predicate IsDigit(c: char) {
    '0' <= c <= '9'
  }

  /** True when every character of s is a decimal digit. */
  predicate AllDigits(s: string) {
    forall i :: 0 <= i < |s| ==> IsDigit(s[i])
  }

  function DigitChar(d: int): (c: char)
    requires 0 <= d < 10
    ensures IsDigit(c)
  {
    (d + '0' as int) as char
  }

  function DigitValue(c: char): int {
    c as int - '0' as int
  }

  /** str(n) for a non-negative int: the digits, most significant first,
      without leading zeros. */
  function NatText(n: nat): (s: string)
    ensures |s| >= 1 && AllDigits(s)
    ensures n < 10 <==> |s| == 1
    decreases n
  {
    if n < 10 then [DigitChar(n)] else NatText(n / 10) + [DigitChar(n % 10)]
  }

  /** str(n) for any int: a minus sign in front of the digits of -n when n is negative. */
  function IntText(n: int): string {
    if n < 0 then "-" + NatText(-n) else NatText(n)
  }

  /** The value of a string of decimal digits (the reading of NatText). */
  function ParseNat(s: string): int {
    if s == [] then 0 else ParseNat(s[..|s| - 1]) * 10 + DigitValue(s[|s| - 1])
  }

  /** The value of an optionally signed decimal (the reading of IntText). */
  function ParseInt(s: string): int {
    if |s| > 0 && s[0] == '-' then -ParseNat(s[1..]) else ParseNat(s)
  }

  lemma {:induction false} ParseNatText(n: nat)
    ensures ParseNat(NatText(n)) == n
  {
    if n >= 10 {
      var s := NatText(n);
      assert s[..|s| - 1] == NatText(n / 10);
      ParseNatText(n / 10);
    }
  }

  /** str() of an int is read back by ParseInt, so distinct ints never
      render to the same text. */
  lemma IntTextRoundTrip(n: int)
    ensures ParseInt(IntText(n)) == n
  {
    if n < 0 {
      assert IntText(n)[1..] == NatText(-n);
      ParseNatText(-n);
    } else {
      ParseNatText(n);
    }
  }

  lemma IntTextInjective(a: int, b: int)
    requires IntText(a) == IntText(b)
    ensures a == b
  {
    IntTextRoundTrip(a);
    IntTextRoundTrip(b);
  }

  lemma IntTextHasNoUnderscore(n: int)
    ensures '_' !in IntText(n)
  {
    var s := IntText(n);
    assert forall i :: 0 <= i < |s| ==> s[i] != '_';
  }

  /** Python's format(n, "02d"): at least two characters, zero padded
      after the sign (so a negative single digit stays "-d"). */
  function Pad2(n: int): string {
    if 0 <= n < 10 then "0" + NatText(n) else IntText(n)
  }

  /** For the clock fields 0..99, "02d" gives exactly two digits that read back as n. */
  lemma Pad2InRange(n: int)
    requires 0 <= n < 100
    ensures |Pad2(n)| == 2 && AllDigits(Pad2(n)) && ParseNat(Pad2(n)) == n
  {
    ParseNatText(n);
    if n < 10 {
      assert Pad2(n)[..1] == "0";
      assert ParseNat("0") == 0;
    } else {
      assert |NatText(n / 10)| == 1;
    }
  }

  /** The six fractional digits of a microsecond count 0 <= f < 1000000, zero padded. */
  function SixDigits(f: int): (s: string)
    requires 0 <= f < 1000000
    ensures |s| == 6 && AllDigits(s)
  {
    [DigitChar(f / 100000), DigitChar(f / 10000 % 10), DigitChar(f / 1000 % 10),
     DigitChar(f / 100 % 10), DigitChar(f / 10 % 10), DigitChar(f % 10)]
  }

  /** Drops trailing zeros but keeps at least one digit, as float repr does. */
  function TrimTrailingZeros(s: string): (r: string)
    requires |s| >= 1
    ensures 1 <= |r| <= |s| && r == s[..|r|]
    ensures |r| == 1 || r[|r| - 1] != '0'
  {
    if |s| > 1 && s[|s| - 1] == '0' then TrimTrailingZeros(s[..|s| - 1]) else s
  }

  /** repr() of the float timestamp() for a POSIX time given in microseconds:
      sign, whole seconds, a point and the trimmed fraction ("1700000000.5", "0.0"). */
  function TimestampText(micros: int): string {
    var a := if micros < 0 then -micros else micros;
    (if micros < 0 then "-" else "") + NatText(a / 1000000) + "." + TrimTrailingZeros(SixDigits(a % 1000000))
  }

  lemma TimestampTextHasNoUnderscore(micros: int)
    ensures '_' !in TimestampText(micros)
  {
    var a := if micros < 0 then -micros else micros;
    var whole := NatText(a / 1000000);
    var six := SixDigits(a % 1000000);
    var frac := TrimTrailingZeros(six);
    assert forall i :: 0 <= i < |frac| ==> frac[i] == six[i];
    var s := TimestampText(micros);
    var k := if micros < 0 then 1 else 0;
    assert s == (if micros < 0 then "-" else "") + whole + "." + frac;
    forall i | 0 <= i < |s|
      ensures s[i] != '_'
    {
      if k <= i < k + |whole| {
        assert s[i] == whole[i - k];
      } else if i > k + |whole| {
        assert s[i] == six[i - k - |whole| - 1];
      }
    }
  }

  function LowerChar(c: char): char {
    if 'A' <= c <= 'Z' then (c as int - 'A' as int + 'a' as int) as char else c
  }

  /** str.lower() restricted to ASCII: maps A-Z to a-z and leaves every other character. */
  function Lower(s: string): (r: string)
    ensures |r| == |s|
  {
    seq(|s|, i requires 0 <= i < |s| => LowerChar(s[i]))
  }

  lemma LowerIdempotent(s: string)
    ensures Lower(Lower(s)) == Lower(s)
    ensures forall i :: 0 <= i < |s| ==> !('A' <= Lower(s)[i] <= 'Z')
  {
  }
}
