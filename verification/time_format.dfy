/** `formatTime`: a clock reading in milliseconds shown as minutes and two-digit seconds. */
module TimeFormat {
  import opened Wrappers

  predicate IsDigit(c: char) {
    '0' <= c <= '9'
  }

  predicate AllDigits(s: string) {
    forall i :: 0 <= i < |s| ==> IsDigit(s[i])
  }

  function DigitChar(d: nat): (c: char)
    requires d < 10
    ensures IsDigit(c) && c as int - '0' as int == d
  {
    ('0' as int + d) as char
  }

  function DigitValue(c: char): (d: nat)
    requires IsDigit(c)
    ensures d < 10 && DigitChar(d) == c
  {
    c as int - '0' as int
  }

  /** The decimal numeral of n, as JavaScript prints a whole number: no sign, no leading zero. */
  function Decimal(n: nat): (r: string)
    ensures |r| >= 1 && AllDigits(r)
    ensures r[0] == '0' <==> n == 0
    ensures r[0] == '0' ==> r == "0"
    decreases n
  {
    if n < 10 then [DigitChar(n)] else Decimal(n / 10) + [DigitChar(n % 10)]
  }

  /** The number a string of decimal digits denotes. */
  function ValueOf(s: string): nat
    requires AllDigits(s)
    decreases |s|
  {
    if |s| == 0 then 0 else ValueOf(s[..|s| - 1]) * 10 + DigitValue(s[|s| - 1])
  }

  /** Reading a numeral back gives the number printed. */
  lemma {:induction false} DecimalRoundTrip(n: nat)
    ensures ValueOf(Decimal(n)) == n
    decreases n
  {
    var r := Decimal(n);
    if n < 10 {
      assert r[..|r| - 1] == [];
    } else {
      assert r[..|r| - 1] == Decimal(n / 10);
      DecimalRoundTrip(n / 10);
    }
  }

  /** Two digits, with a leading zero below ten, as `padStart(2, '0')` gives for a number under 100. */
  function Pad2(n: nat): (r: string)
    requires n < 100
    ensures |r| == 2 && AllDigits(r) && ValueOf(r) == n
  {
    var r := [DigitChar(n / 10), DigitChar(n % 10)];
    assert r[..1] == [r[0]];
    assert r[..1][..0] == [];
    assert ValueOf(r[..1]) == n / 10;
    r
  }

  /** Whole seconds rounded up, `Math.ceil(ms / 1000)` for a positive whole number of milliseconds. */
  function CeilSeconds(ms: int): (secs: nat)
    requires ms > 0
    ensures secs >= 1 && (secs - 1) * 1000 < ms <= secs * 1000
  {
    (ms + 999) / 1000
  }

  /** `formatTime`: "0:00" when no time is left, otherwise the remaining seconds rounded up as M:SS. */
  function FormatTime(ms: int): (r: string)
    ensures |r| >= 4 && r[|r| - 3] == ':'
    ensures AllDigits(r[..|r| - 3]) && AllDigits(r[|r| - 2..])
    ensures r[0] == '0' ==> |r| == 4
  {
    if ms <= 0 then "0:00"
    else
      var total := CeilSeconds(ms);
      Decimal(total / 60) + ":" + Pad2(total % 60)
  }

  /** Reads a clock face of the form digits ':' two digits back into minutes and seconds. */
  function ParseClock(r: string): Option<(nat, nat)> {
    if |r| >= 4 && r[|r| - 3] == ':' && AllDigits(r[..|r| - 3]) && AllDigits(r[|r| - 2..]) then
      Some((ValueOf(r[..|r| - 3]), ValueOf(r[|r| - 2..])))
    else None
  }

  /**
   * What the display shows: for no time left it reads 0:00; otherwise it reads m:ss with ss below 60,
   * where m minutes and ss seconds is the remaining time rounded up to a whole second, and the
   * minutes are printed as the plain numeral of m.
   */
  lemma FormatTimeReadsBack(ms: int)
    ensures ms <= 0 ==> FormatTime(ms) == "0:00"
    ensures ParseClock(FormatTime(ms)).Some?
    ensures var (m, secs) := ParseClock(FormatTime(ms)).value;
            && secs < 60
            && FormatTime(ms)[..|FormatTime(ms)| - 3] == Decimal(m)
            && (ms <= 0 ==> m == 0 && secs == 0)
            && (ms > 0 ==> (m * 60 + secs - 1) * 1000 < ms <= (m * 60 + secs) * 1000)
  {
    var r := FormatTime(ms);
    if ms <= 0 {
      assert r[..|r| - 3] == "0" && r[|r| - 2..] == "00";
      assert ValueOf("0") == 0 by { assert "0"[..0] == []; }
      assert ValueOf("00") == 0 by { assert "00"[..1] == "0"; assert "0"[..0] == []; }
    } else {
      var total := CeilSeconds(ms);
      var minutes := Decimal(total / 60);
      assert r[..|r| - 3] == minutes;
      assert r[|r| - 2..] == Pad2(total % 60);
      DecimalRoundTrip(total / 60);
      assert (total / 60) * 60 + total % 60 == total;
    }
  }

  /** Five minutes shows as 5:00. */
  lemma FormatFiveMinutes()
    ensures FormatTime(300000) == "5:00"
  {
  }

  /** A single millisecond left shows as 0:01, since seconds are rounded up. */
  lemma FormatOneMillisecond()
    ensures FormatTime(1) == "0:01"
  {
  }

  /** 59.001 seconds rounds up to a full minute. */
  lemma FormatRoundsUpToMinute()
    ensures FormatTime(59001) == "1:00"
  {
  }
}
