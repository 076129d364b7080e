/** The "HH:MM" <-> minutes-since-midnight codec of src/utils/timeUtils.ts,
    and the way App.tsx and TimeInput.tsx read a time through `Date`. */
module TimeCodec {

  predicate IsDigit(c: char) { '0' <= c <= '9' }

  function DigitValue(c: char): (d: nat)
    requires IsDigit(c)
    ensures d < 10
  {
    c as int - '0' as int
  }

  function DigitChar(d: nat): (c: char)
    requires d < 10
    ensures IsDigit(c) && DigitValue(c) == d
  {
    ('0' as int + d) as char
  }

  predicate AllDigits(s: string) { forall i | 0 <= i < |s| :: IsDigit(s[i]) }

  /** `Number(s)` for a string of decimal digits; leading zeros are allowed. */
  function DecimalValue(s: string): nat
    requires AllDigits(s)
  {
    if s == [] then 0 else DecimalValue(s[..|s| - 1]) * 10 + DigitValue(s[|s| - 1])
  }

  /** `n.toString()` for a non-negative integer: its shortest decimal form. */
  function NatToString(n: nat): (s: string)
    ensures 1 <= |s| && AllDigits(s) && DecimalValue(s) == n
    ensures |s| == 1 <==> n < 10
    ensures n < 100 ==> |s| <= 2
    // no leading zero: only 0 itself starts with '0'
    ensures n > 0 ==> s[0] != '0'
  {
    if n < 10 then [DigitChar(n)]
    else
      var prefix := NatToString(n / 10);
      var s := prefix + [DigitChar(n % 10)];
      assert s[..|s| - 1] == prefix;
      assert s[0] == prefix[0];
      s
  }

  /** `s.padStart(width, fill)`: fill on the left up to `width` characters. */
  function PadStart(s: string, width: nat, fill: char): string
  {
    if |s| >= width then s else seq(width - |s|, _ => fill) + s
  }

  /** The shape `time.split(':')` relies on: two digits, a colon, two digits,
      which is what an <input type="time"> holds once it is filled in. */
  predicate IsHHMM(s: string)
  {
    |s| == 5 && IsDigit(s[0]) && IsDigit(s[1]) && s[2] == ':' && IsDigit(s[3]) && IsDigit(s[4])
  }

  function Hours(s: string): nat
    requires IsHHMM(s)
  {
    DecimalValue(s[..2])
  }

  function Minutes(s: string): nat
    requires IsHHMM(s)
  {
    DecimalValue(s[3..])
  }

  /** A time of day as a browser time input produces it: 00:00 to 23:59. */
  predicate IsClockTime(s: string)
  {
    IsHHMM(s) && Hours(s) < 24 && Minutes(s) < 60
  }

  lemma TwoDigitValue(s: string)
    requires |s| == 2 && AllDigits(s)
    ensures DecimalValue(s) == DigitValue(s[0]) * 10 + DigitValue(s[1])
  {
    var first := s[..1];
    assert first[..0] == [];
    assert DecimalValue(first) == DecimalValue(first[..0]) * 10 + DigitValue(first[0]);
    assert DecimalValue(s) == DecimalValue(s[..1]) * 10 + DigitValue(s[1]);
  }

  /** `timeToMinutes`: hours * 60 + minutes of the two fields. The source does
      no range check, so only the "DD:DD" shape is demanded. */
  function TimeToMinutes(time: string): (m: nat)
    requires IsHHMM(time)
    ensures Minutes(time) < 60 ==> m / 60 == Hours(time) && m % 60 == Minutes(time)
    ensures IsClockTime(time) ==> m < 24 * 60
    ensures Minutes(time) < 60 ==> m < 100 * 60
  {
    TwoDigitValue(time[..2]);
    TwoDigitValue(time[3..]);
    Hours(time) * 60 + Minutes(time)
  }

  /** `minutesToTime`: both fields zero-padded to two digits. */
  function MinutesToTime(minutes: nat): string
  {
    var hours := minutes / 60;
    var mins := minutes % 60;
    PadStart(NatToString(hours), 2, '0') + ":" + PadStart(NatToString(mins), 2, '0')
  }

  /** A number below 100 is printed and padded as exactly its two digits. */
  lemma {:induction false} PaddedTwoDigits(n: nat)
    requires n < 100
    ensures PadStart(NatToString(n), 2, '0') == [DigitChar(n / 10), DigitChar(n % 10)]
  {
    var q, r := n / 10, n % 10;
    if n < 10 {
      assert q == 0 && r == n;
      var d := [DigitChar(n)];
      assert NatToString(n) == d;
      assert PadStart(d, 2, '0') == PadStart(['0'] + d, 2, '0') == ['0'] + d;
    } else {
      assert NatToString(q) == [DigitChar(q)];
      assert NatToString(n) == [DigitChar(q), DigitChar(r)];
    }
  }

  /** The five characters of "HH:MM" built from four digits read back as
      those digits. */
  lemma ReadDigits(a: nat, b: nat, c: nat, d: nat)
    requires a < 10 && b < 10 && c < 10 && d < 10
    ensures var s := [DigitChar(a), DigitChar(b), ':', DigitChar(c), DigitChar(d)];
      IsHHMM(s) && Hours(s) == a * 10 + b && Minutes(s) == c * 10 + d
  {
    var s := [DigitChar(a), DigitChar(b), ':', DigitChar(c), DigitChar(d)];
    assert s[..2] == [DigitChar(a), DigitChar(b)];
    assert s[3..] == [DigitChar(c), DigitChar(d)];
    TwoDigitValue(s[..2]);
    TwoDigitValue(s[3..]);
  }

  /** What `minutesToTime` prints below 100 hours: the four digits of the
      hour and minute fields around the colon. */
  lemma MinutesToTimeDigits(m: nat)
    requires m < 100 * 60
    ensures var h, mm := m / 60, m % 60;
      h < 100 && mm < 60 &&
      MinutesToTime(m) == [DigitChar(h / 10), DigitChar(h % 10), ':', DigitChar(mm / 10), DigitChar(mm % 10)]
  {
    var h, mm := m / 60, m % 60;
    assert h < 100;
    PaddedTwoDigits(h);
    PaddedTwoDigits(mm);
    var hh := PadStart(NatToString(h), 2, '0');
    var mi := PadStart(NatToString(mm), 2, '0');
    assert hh == [DigitChar(h / 10), DigitChar(h % 10)];
    assert mi == [DigitChar(mm / 10), DigitChar(mm % 10)];
    assert MinutesToTime(m) == hh + ":" + mi;
  }

  /** Every minute count below 100 hours prints as "HH:MM" and reads back as
      itself; a count within one day prints as a clock time. */
  lemma MinutesRoundTrip(m: nat)
    requires m < 100 * 60
    ensures IsHHMM(MinutesToTime(m))
    ensures TimeToMinutes(MinutesToTime(m)) == m
    ensures m < 24 * 60 ==> IsClockTime(MinutesToTime(m))
  {
    var h, mm := m / 60, m % 60;
    MinutesToTimeDigits(m);
    ReadDigits(h / 10, h % 10, mm / 10, mm % 10);
    var s := MinutesToTime(m);
    assert Hours(s) == h;
    assert Minutes(s) == mm;
    assert m == h * 60 + mm;
  }

  /** A "HH:MM" string whose minute field is below 60 is printed back
      unchanged after reading it as minutes. */
  lemma TimeRoundTrip(s: string)
    requires IsHHMM(s) && Minutes(s) < 60
    ensures MinutesToTime(TimeToMinutes(s)) == s
  {
    var m := TimeToMinutes(s);
    var h, mm := Hours(s), Minutes(s);
    assert m / 60 == h && m % 60 == mm;
    TwoDigitValue(s[..2]);
    TwoDigitValue(s[3..]);
    MinutesToTimeDigits(m);
    assert DigitChar(h / 10) == s[0] && DigitChar(h % 10) == s[1];
    assert DigitChar(mm / 10) == s[3] && DigitChar(mm % 10) == s[4];
    assert MinutesToTime(m) == [s[0], s[1], ':', s[3], s[4]];
  }

  /** `new Date('1970-01-01T' + time).getTime()` for a clock time, counted
      from local midnight: the zone offset is the same for every operand
      compared, so it is dropped. */
  function DateMillis(time: string): (ms: int)
    requires IsClockTime(time)
    ensures ms % 60000 == 0 && 0 <= ms < 24 * 60 * 60000
  {
    TimeToMinutes(time) * 60000
  }

  /** Comparing two such dates compares the minute counts. */
  lemma DateOrder(a: string, b: string)
    requires IsClockTime(a) && IsClockTime(b)
    ensures DateMillis(a) < DateMillis(b) <==> TimeToMinutes(a) < TimeToMinutes(b)
    ensures DateMillis(a) <= DateMillis(b) <==> TimeToMinutes(a) <= TimeToMinutes(b)
  {
    var x: int, y: int := TimeToMinutes(a), TimeToMinutes(b);
    assert DateMillis(a) - DateMillis(b) == (x - y) * 60000;
  }
}
