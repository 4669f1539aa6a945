/** The `HH:MM` time-of-day strings of a medicine: the dashboard's validating pattern
    `^([0-1]?[0-9]|2[0-3]):[0-5][0-9]$`, the `split(':')` + `parseInt` that both the
    dashboard and the worker apply to it, and decimal rendering of numbers
    (`String(n)` and `padStart(2, '0')`). */
module TimeFormat {

  predicate IsDigit(c: char) {
    '0' <= c <= '9'
  }

  predicate AllDigits(s: string) {
    forall i :: 0 <= i < |s| ==> IsDigit(s[i])
  }

  function DigitValue(c: char): (d: nat)
    requires IsDigit(c)
    ensures d <= 9
  {
    (c as int) - ('0' as int)
  }

  function Digit(d: nat): (c: char)
    requires d <= 9
    ensures IsDigit(c) && DigitValue(c) == d
  {
    (('0' as int) + d) as char
  }

  /** `parseInt(s, 10)` of a non-empty string of decimal digits. */
  function ParseDigits(s: string): nat
    requires AllDigits(s)
  {
    if |s| == 0 then 0 else ParseDigits(s[..|s| - 1]) * 10 + DigitValue(s[|s| - 1])
  }

  /** `String(n)`: the shortest decimal rendering of a natural number. */
  function NatToString(n: nat): (s: string)
    ensures 1 <= |s| && AllDigits(s)
    ensures n < 10 <==> |s| == 1
  {
    if n < 10 then [Digit(n)] else NatToString(n / 10) + [Digit(n % 10)]
  }

  /** `String(n).padStart(2, '0')`. */
  function Pad2(n: nat): string {
    var s := NatToString(n);
    if |s| < 2 then "0" + s else s
  }

  /** The value of a one- or two-digit string. */
  lemma ParseShort(s: string)
    requires 1 <= |s| <= 2 && AllDigits(s)
    ensures |s| == 1 ==> ParseDigits(s) == DigitValue(s[0])
    ensures |s| == 2 ==> ParseDigits(s) == DigitValue(s[0]) * 10 + DigitValue(s[1])
  {
    assert s[..|s| - 1][..0] == [];
    if |s| == 2 {
      assert s[..1] == [s[0]];
    }
  }

  /** Rendering and parsing are inverse: `parseInt(String(n)) == n`. */
  lemma {:induction false} ParseNatToString(n: nat)
    ensures ParseDigits(NatToString(n)) == n
  {
    if n >= 10 {
      var s := NatToString(n);
      assert s[..|s| - 1] == NatToString(n / 10);
      ParseNatToString(n / 10);
    }
  }

  /** Below 100, the padded rendering is exactly the two decimal digits. */
  lemma Pad2Digits(n: nat)
    requires n < 100
    ensures Pad2(n) == [Digit(n / 10), Digit(n % 10)]
  {
    if n >= 10 {
      assert NatToString(n / 10) == [Digit(n / 10)];
    }
  }

  lemma ParsePad2(n: nat)
    requires n < 100
    ensures AllDigits(Pad2(n)) && ParseDigits(Pad2(n)) == n
  {
    Pad2Digits(n);
    ParseShort(Pad2(n));
  }

  /** A two-character digit string is the padded rendering of its value. */
  lemma Pad2OfParse(s: string)
    requires |s| == 2 && AllDigits(s)
    ensures ParseDigits(s) < 100 && Pad2(ParseDigits(s)) == s
  {
    ParseShort(s);
    var n := ParseDigits(s);
    Pad2Digits(n);
  }

  // ---- the validating pattern ------------------------------------------------

  /** `[0-1]?[0-9]|2[0-3]` */
  predicate HourField(h: string) {
    || (|h| == 1 && IsDigit(h[0]))
    || (|h| == 2 && '0' <= h[0] <= '1' && IsDigit(h[1]))
    || (|h| == 2 && h[0] == '2' && '0' <= h[1] <= '3')
  }

  /** `[0-5][0-9]` */
  predicate MinuteField(m: string) {
    |m| == 2 && '0' <= m[0] <= '5' && IsDigit(m[1])
  }

  /** The whole anchored pattern. The minute field is exactly two characters, so the
      colon of a matching string stands three characters from its end. */
  predicate IsValidTime(s: string) {
    |s| >= 4 && s[|s| - 3] == ':' && HourField(s[..|s| - 3]) && MinuteField(s[|s| - 2..])
  }

  datatype TimeOfDay = TimeOfDay(hour: nat, minute: nat)

  /** `const [hour, minute] = time.split(':')` followed by `parseInt` of each part. */
  function ParseTime(s: string): (t: TimeOfDay)
    requires IsValidTime(s)
    ensures t.hour <= 23 && t.minute <= 59
  {
    var h := s[..|s| - 3];
    var m := s[|s| - 2..];
    ParseShort(h);
    ParseShort(m);
    TimeOfDay(ParseDigits(h), ParseDigits(m))
  }

  /** A matching string holds exactly one colon, so `split(':')` yields exactly the
      hour field and the minute field that `ParseTime` reads. */
  lemma OnlyColon(s: string)
    requires IsValidTime(s)
    ensures forall i :: 0 <= i < |s| ==> (s[i] == ':' <==> i == |s| - 3)
  {
    var h := s[..|s| - 3];
    forall i | 0 <= i < |s| - 3 ensures s[i] != ':' {
      assert s[i] == h[i];
    }
  }

  /** The two renderings the pattern admits: `HH:MM`, and `H:MM` for one-digit hours. */
  function Render(hour: nat, minute: nat): string {
    Pad2(hour) + ":" + Pad2(minute)
  }

  function RenderShort(hour: nat, minute: nat): string {
    NatToString(hour) + ":" + Pad2(minute)
  }

  /** Every valid hour and minute is accepted in both renderings and parses back. */
  lemma RenderAccepted(hour: nat, minute: nat)
    requires hour <= 23 && minute <= 59
    ensures IsValidTime(Render(hour, minute)) && ParseTime(Render(hour, minute)) == TimeOfDay(hour, minute)
    ensures IsValidTime(RenderShort(hour, minute)) && ParseTime(RenderShort(hour, minute)) == TimeOfDay(hour, minute)
  {
    Pad2Digits(hour);
    Pad2Digits(minute);
    ParsePad2(hour);
    ParsePad2(minute);
    ParseNatToString(hour);
    var s := Render(hour, minute);
    assert s[..|s| - 3] == Pad2(hour);
    assert s[|s| - 2..] == Pad2(minute);
    var t := RenderShort(hour, minute);
    assert t[..|t| - 3] == NatToString(hour);
    assert t[|t| - 2..] == Pad2(minute);
    if hour >= 10 {
      assert NatToString(hour) == Pad2(hour);
    }
  }

  /** The pattern accepts exactly the `H:MM` and `HH:MM` renderings of an hour in
      [0,23] and a minute in [0,59]. */
  lemma ValidTimeExactly(s: string)
    ensures IsValidTime(s) <==>
      exists hour: nat, minute: nat :: hour <= 23 && minute <= 59 &&
        (s == Render(hour, minute) || s == RenderShort(hour, minute))
  {
    if IsValidTime(s) {
      var t := ParseTime(s);
      var h := s[..|s| - 3];
      var m := s[|s| - 2..];
      Pad2OfParse(m);
      if |h| == 2 {
        Pad2OfParse(h);
        assert s == h + ":" + m;
        assert s == Render(t.hour, t.minute);
      } else {
        assert h[..0] == [];
        assert NatToString(t.hour) == h;
        assert s == h + ":" + m;
        assert s == RenderShort(t.hour, t.minute);
      }
    }
    if exists hour: nat, minute: nat :: hour <= 23 && minute <= 59 &&
        (s == Render(hour, minute) || s == RenderShort(hour, minute)) {
      var hour: nat, minute: nat :| hour <= 23 && minute <= 59 &&
        (s == Render(hour, minute) || s == RenderShort(hour, minute));
      RenderAccepted(hour, minute);
    }
  }
}
