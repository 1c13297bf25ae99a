/** The text form of slot times: `Number.prototype.toString()` on integers,
    `padStart(2, '0')` and the `HH:MM` template of src/utils/timetable.ts,
    with a parser that reads the minute count back. */
module ClockFormat {
  import opened Wrappers

  function DigitChar(d: int): char
    requires 0 <= d < 10
  {
    (('0' as int) + d) as char
  }

  function DigitValue(c: char): int {
    if '0' <= c <= '9' then (c as int) - ('0' as int) else 0
  }

  /** Decimal digits of a natural number, no leading zeros. */
  function NatToString(n: nat): (s: string)
    ensures |s| >= 1
    ensures (|s| == 1) == (n < 10)
    decreases n
  {
    if n < 10 then [DigitChar(n)] else NatToString(n / 10) + [DigitChar(n % 10)]
  }

  /** `n.toString()` for an integer `n`. */
  function IntToString(n: int): string {
    if n < 0 then "-" + NatToString(-n) else NatToString(n)
  }

  /** `s.padStart(2, '0')`. */
  function PadStart2(s: string): (r: string)
    ensures |r| == if |s| < 2 then 2 else |s|
  {
    if |s| == 0 then "00" else if |s| == 1 then "0" + s else s
  }

  /** The template `${hh}:${mm}` with both parts zero-padded. */
  function ClockText(hour: int, minute: int): string {
    PadStart2(IntToString(hour)) + ":" + PadStart2(IntToString(minute))
  }

  /** The clock text of a count of minutes since midnight (hours are not wrapped at 24). */
  function MinutesText(t: int): string {
    ClockText(t / 60, t % 60)
  }

  /** Reading back: the value of a digit string. */
  function ParseNat(s: string): int
    decreases |s|
  {
    if s == [] then 0 else ParseNat(s[..|s| - 1]) * 10 + DigitValue(s[|s| - 1])
  }

  function ParseInt(s: string): int {
    if |s| > 0 && s[0] == '-' then -ParseNat(s[1..]) else ParseNat(s)
  }

  /** Undoes `padStart(2, '0')` on the output of `toString()`. */
  function Unpad(s: string): string {
    if |s| == 2 && s[0] == '0' then s[1..] else s
  }

  /** Reads an `H..H:MM` text back as minutes since midnight. */
  function ParseClock(s: string): Option<int> {
    if |s| < 4 || s[|s| - 3] != ':' then None
    else Some(ParseInt(Unpad(s[..|s| - 3])) * 60 + ParseNat(Unpad(s[|s| - 2..])))
  }

  lemma {:induction false} ParseNatToString(n: nat)
    ensures ParseNat(NatToString(n)) == n
    ensures n >= 1 ==> NatToString(n)[0] != '0'
    ensures NatToString(n)[0] != '-'
    decreases n
  {
    var s := NatToString(n);
    if n >= 10 {
      ParseNatToString(n / 10);
      assert s[..|s| - 1] == NatToString(n / 10);
      assert s[0] == NatToString(n / 10)[0];
    }
  }

  /** `padStart(2, '0')` loses nothing: the padded text of `toString()` determines it. */
  lemma UnpadPadStart(n: int)
    ensures Unpad(PadStart2(IntToString(n))) == IntToString(n)
  {
    var s := IntToString(n);
    if n < 0 {
      assert s[0] == '-';
    } else {
      ParseNatToString(n);
      if |s| == 1 {
        assert PadStart2(s) == "0" + s;
        assert ("0" + s)[1..] == s;
      }
    }
  }

  lemma ParseIntToString(n: int)
    ensures ParseInt(IntToString(n)) == n
  {
    if n < 0 {
      ParseNatToString(-n);
      assert IntToString(n)[1..] == NatToString(-n);
    } else {
      ParseNatToString(n);
    }
  }

  /** A clock text with a minute field in [0, 59] reads back as the minute count it encodes. */
  lemma ClockTextRoundTrip(hour: int, minute: int)
    requires 0 <= minute < 60
    ensures ParseClock(ClockText(hour, minute)) == Some(hour * 60 + minute)
  {
    var h, m := PadStart2(IntToString(hour)), PadStart2(IntToString(minute));
    assert |m| == 2 && |h| >= 2;
    SplitClock(h, m);
    UnpadPadStart(hour);
    UnpadPadStart(minute);
    ParseIntToString(hour);
    ParseIntToString(minute);
    ParseNatToString(minute);
  }

  /** The parts of `${h}:${m}` for a two-character `m`. */
  lemma SplitClock(h: string, m: string)
    requires |m| == 2 && |h| >= 1
    ensures var s := h + ":" + m;
            |s| >= 4 && s[|s| - 3] == ':' && s[..|s| - 3] == h && s[|s| - 2..] == m
  {
    var s := h + ":" + m;
    assert s[..|s| - 3] == h;
    assert s[|s| - 2..] == m;
  }

  /** Every minute count reads back from its text, so `MinutesText` is injective. */
  lemma MinutesTextRoundTrip(t: int)
    ensures ParseClock(MinutesText(t)) == Some(t)
  {
    var h, m := t / 60, t % 60;
    DivMod60(t);
    ClockTextRoundTrip(h, m);
    assert ParseClock(ClockText(h, m)) == Some(t);
  }

  lemma DivMod60(t: int)
    ensures (t / 60) * 60 + t % 60 == t && 0 <= t % 60 < 60
  {
  }
}
