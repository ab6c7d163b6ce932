/** `formatTime`: a count of seconds as `minutes:seconds`, written with Java's
    truncating `/` and `%` and the `"%d:%02d"` format. `ParseTime` reads the
    text back, and the two are inverse on the non-negative counts a clip has. */
module TimeFormat {
  import JavaLang

  /** The character of a decimal digit. */
  function DigitChar(d: int): (c: char)
    requires 0 <= d < 10
    ensures '0' <= c <= '9'
    ensures c as int - '0' as int == d
  {
    ('0' as int + d) as char
  }

  /** The value of a decimal digit character. */
  function DigitValue(c: char): (d: int)
    requires '0' <= c <= '9'
    ensures 0 <= d < 10
    ensures DigitChar(d) == c
  {
    c as int - '0' as int
  }

  predicate AllDigits(s: string) {
    forall i :: 0 <= i < |s| ==> '0' <= s[i] <= '9'
  }

  /** The decimal numeral of `n`, without leading zeros: what `%d` prints. */
  function Numeral(n: nat): (s: string)
    ensures 0 < |s| && AllDigits(s)
    ensures n < 10 <==> |s| == 1
    ensures n >= 10 ==> s[0] != '0'
  {
    if n < 10 then [DigitChar(n)]
    else
      var s := Numeral(n / 10) + [DigitChar(n % 10)];
      assert s[0] == Numeral(n / 10)[0];
      s
  }

  /** The value of a string of decimal digits; the empty string reads as 0. */
  function NumeralValue(s: string): (n: nat)
    requires AllDigits(s)
  {
    if |s| == 0 then 0
    else NumeralValue(s[..|s| - 1]) * 10 + DigitValue(s[|s| - 1])
  }

  /** Reading a numeral back gives the number written. */
  lemma {:induction false} NumeralRoundTrip(n: nat)
    ensures NumeralValue(Numeral(n)) == n
  {
    if n >= 10 {
      var q, d := n / 10, n % 10;
      var s := Numeral(n);
      assert s == Numeral(q) + [DigitChar(d)];
      assert s[..|s| - 1] == Numeral(q);
      NumeralRoundTrip(q);
      assert NumeralValue(s) == q * 10 + d;
    }
  }

  /** A leading zero does not change the value read. */
  lemma {:induction false} LeadingZero(s: string)
    requires AllDigits(s)
    ensures NumeralValue(['0'] + s) == NumeralValue(s)
  {
    if |s| > 0 {
      var t := ['0'] + s;
      assert t[..|t| - 1] == ['0'] + s[..|s| - 1];
      LeadingZero(s[..|s| - 1]);
    }
  }

  /** `%d`: a minus sign before the numeral of a negative value. */
  function Decimal(x: int): (s: string)
    ensures x >= 0 ==> s == Numeral(x)
    ensures x < 0 ==> s == ['-'] + Numeral(-x)
  {
    if x < 0 then ['-'] + Numeral(-x) else Numeral(x)
  }

  /** `%02d`: the decimal form, with zeros inserted after any sign until the
      text is two characters wide. Only 0 to 9 are short enough to be padded. */
  function ZeroPadded2(x: int): (s: string)
    ensures |s| >= 2
    ensures 0 <= x < 10 ==> s == ['0', DigitChar(x)]
    ensures 10 <= x < 100 ==> s == [DigitChar(x / 10), DigitChar(x % 10)]
    ensures x < 0 ==> s == Decimal(x)
  {
    var d := Decimal(x);
    assert 10 <= x < 100 ==> Numeral(x) == Numeral(x / 10) + [DigitChar(x % 10)];
    if |d| < 2 then ['0'] + d else d
  }

  /** `formatTime(seconds)`. */
  function FormatTime(seconds: JavaLang.Int32): (t: string)
    ensures ':' in t
  {
    var minutes := JavaLang.Div(seconds, 60);
    var rest := JavaLang.Rem(seconds, 60);
    Decimal(minutes) + [':'] + ZeroPadded2(rest)
  }

  /** For a non-negative count the text is the whole minutes, a colon, and the
      remaining seconds as exactly two digits. */
  lemma FormatTimeOfCount(seconds: JavaLang.Int32)
    requires seconds >= 0
    ensures FormatTime(seconds) == Numeral(seconds / 60) + [':', DigitChar(seconds % 60 / 10), DigitChar(seconds % 60 % 10)]
  {
    var r := seconds % 60;
    assert ZeroPadded2(r) == [DigitChar(r / 10), DigitChar(r % 10)];
  }

  /** Java's truncating operators make a negative count print both parts with a
      sign: -65 seconds is "-1:-5". */
  lemma FormatTimeOfNegative()
    ensures FormatTime(-65) == "-1:-5"
  {
    assert JavaLang.Div(-65, 60) == -1;
    assert Numeral(1) == "1";
    assert Numeral(5) == "5";
  }

  /** Reads `m:ss` back as `m * 60 + ss`; the text must hold a colon. */
  function ParseTime(t: string): (seconds: int)
    requires ':' in t
    requires AllDigits(t[..JavaLang.IndexOf(t, ':')])
    requires AllDigits(t[JavaLang.IndexOf(t, ':') + 1..])
    ensures seconds >= 0
  {
    var i := JavaLang.IndexOf(t, ':');
    NumeralValue(t[..i]) * 60 + NumeralValue(t[i + 1..])
  }

  /** In a colon-free numeral followed by a colon, the first colon is the one
      after the numeral. */
  lemma SplitAtColon(m: string, p: string)
    requires AllDigits(m)
    ensures JavaLang.IndexOf(m + [':'] + p, ':') == |m|
  {
    var t := m + [':'] + p;
    JavaLang.IndexOfIsFirst(t, ':');
    var i := JavaLang.IndexOf(t, ':');
    assert t[|m|] == ':';
    assert forall k :: 0 <= k < |m| ==> t[k] == m[k];
  }

  /** The seconds part of a non-negative count reads back as the remainder. */
  lemma SecondsReadBack(r: int)
    requires 0 <= r < 60
    ensures AllDigits(ZeroPadded2(r)) && NumeralValue(ZeroPadded2(r)) == r
  {
    NumeralRoundTrip(r);
    if r < 10 {
      assert ZeroPadded2(r) == ['0'] + Numeral(r);
      LeadingZero(Numeral(r));
    } else {
      assert ZeroPadded2(r) == Numeral(r);
    }
  }

  /** Formatting a non-negative count and reading the text back gives the count. */
  lemma FormatTimeRoundTrip(seconds: JavaLang.Int32)
    requires seconds >= 0
    ensures var t := FormatTime(seconds);
            && AllDigits(t[..JavaLang.IndexOf(t, ':')])
            && AllDigits(t[JavaLang.IndexOf(t, ':') + 1..])
            && ParseTime(t) == seconds
  {
    var q, r := seconds / 60, seconds % 60;
    var m := Numeral(q);
    var p := ZeroPadded2(r);
    var t := FormatTime(seconds);
    assert t == m + [':'] + p;
    SplitAtColon(m, p);
    assert t[..|m|] == m;
    assert t[|m| + 1..] == p;
    NumeralRoundTrip(q);
    SecondsReadBack(r);
    assert ParseTime(t) == q * 60 + r;
  }
}
