/** The countdown label of the QR viewer window: a remaining duration, given in
    nanoseconds as Go's time.Duration counts it, becomes the text
    "Time remaining: MM:SS" (main.go, updateTimerLabel). */
module TimerLabel {

  /** Nanoseconds in one second. */
  const Second: nat := 1_000_000_000

  /** The fixed text in front of the clock fields. */
  const Prefix: string := "Time remaining: "

  datatype Option<T> = None | Some(value: T)

  /** The minutes and seconds fields read back from a label. */
  datatype Clock = Clock(minutes: nat, seconds: nat)

  /** A non-negative duration truncated to whole seconds, as int(d.Seconds()) does. */
  function WholeSeconds(remaining: nat): (s: nat)
    ensures s * Second <= remaining < (s + 1) * Second
  {
    remaining / Second
  }

  predicate IsDigit(c: char) {
    '0' <= c <= '9'
  }

  predicate AllDigits(s: string) {
    forall i :: 0 <= i < |s| ==> IsDigit(s[i])
  }

  function DigitChar(d: nat): (c: char)
    requires d < 10
    ensures IsDigit(c)
  {
    ('0' as int + d) as char
  }

  function DigitValue(c: char): nat
    requires IsDigit(c)
  {
    c as int - '0' as int
  }

  /** The shortest decimal spelling of n, as the %d verb writes it. */
  function Decimal(n: nat): (s: string)
    ensures 1 <= |s| && AllDigits(s)
    ensures n < 10 <==> |s| == 1
    ensures n < 100 <==> |s| <= 2
    ensures n >= 10 ==> s[0] != '0'
  {
    if n < 10 then [DigitChar(n)] else Decimal(n / 10) + [DigitChar(n % 10)]
  }

  /** The %02d verb: the decimal spelling of n, left-padded with '0' to width two. */
  function Pad2(n: nat): (s: string)
    ensures 2 <= |s| && AllDigits(s)
    ensures n < 100 <==> |s| == 2
    ensures n >= 10 ==> s[0] != '0'
  {
    if n < 10 then ['0', DigitChar(n)] else Decimal(n)
  }

  /** The value of a string of decimal digits, leading zeros allowed. */
  function FieldValue(s: string): nat
    requires AllDigits(s)
  {
    if s == [] then 0 else FieldValue(s[..|s| - 1]) * 10 + DigitValue(s[|s| - 1])
  }

  /** The label text shown for a remaining duration of `remaining` nanoseconds:
      the prefix, then minutes and seconds of the truncated whole seconds, each
      at least two digits wide. */
  function TimerText(remaining: nat): (text: string)
    ensures |text| >= |Prefix| + 5
  {
    var seconds := WholeSeconds(remaining);
    Prefix + Pad2(seconds / 60) + ":" + Pad2(seconds % 60)
  }

  /** Reads the minutes and seconds fields back out of a label: the prefix, a
      minutes field of at least two digits, ':' and a seconds field of two digits. */
  function ParseTimerText(text: string): (r: Option<Clock>)
    ensures r.Some? ==> |text| >= |Prefix| + 5 && text[..|Prefix|] == Prefix
    ensures r.Some? ==> r.value.seconds < 100
  {
    if |text| < |Prefix| + 5 || text[..|Prefix|] != Prefix then None
    else
      var fields := text[|Prefix|..];
      var minutes := fields[..|fields| - 3];
      var seconds := fields[|fields| - 2..];
      if fields[|fields| - 3] != ':' || !AllDigits(minutes) || !AllDigits(seconds) then None
      else
        Some(Clock(FieldValue(minutes), DigitValue(seconds[0]) * 10 + DigitValue(seconds[1])))
  }

  /** Reading back a decimal spelling gives the number. */
  lemma {:induction false} FieldValueDecimal(n: nat)
    ensures FieldValue(Decimal(n)) == n
  {
    if n >= 10 {
      var s := Decimal(n);
      assert s[..|s| - 1] == Decimal(n / 10);
      FieldValueDecimal(n / 10);
    }
  }

  /** Reading back a %02d field gives the number: the padding zero adds nothing. */
  lemma FieldValuePad2(n: nat)
    ensures FieldValue(Pad2(n)) == n
  {
    if n < 10 {
      var s := Pad2(n);
      assert s[..1] == ['0'] && ['0'][..0] == [];
    } else {
      FieldValueDecimal(n);
    }
  }

  /** The label is the prefix, a minutes field of at least two digits, ':' and a
      seconds field of exactly two digits; the fields are the %02d spellings of
      the truncated whole seconds over 60 and modulo 60. */
  lemma TimerTextFields(remaining: nat)
    ensures var s := WholeSeconds(remaining);
      var text := TimerText(remaining);
      |text| >= |Prefix| + 5 && text[..|Prefix|] == Prefix && text[|text| - 3] == ':' &&
      AllDigits(text[|Prefix|..|text| - 3]) && AllDigits(text[|text| - 2..]) &&
      text[|Prefix|..|text| - 3] == Pad2(s / 60) && text[|text| - 2..] == Pad2(s % 60)
  {
  }

  /** Round trip: parsing a label gives back minutes and a seconds field in
      0..59 that together make the truncated whole seconds. */
  lemma TimerTextRoundTrip(remaining: nat)
    ensures var c := ParseTimerText(TimerText(remaining));
      c.Some? && c.value.seconds < 60 &&
      c.value.minutes * 60 + c.value.seconds == WholeSeconds(remaining)
  {
    var s := WholeSeconds(remaining);
    var text := TimerText(remaining);
    TimerTextFields(remaining);
    var fields := text[|Prefix|..];
    assert fields[..|fields| - 3] == Pad2(s / 60);
    assert fields[|fields| - 2..] == Pad2(s % 60);
    FieldValuePad2(s / 60);
    FieldValuePad2(s % 60);
    FieldValueTwoDigits(Pad2(s % 60));
  }

  /** A two-digit field is worth ten times its first digit plus its second. */
  lemma FieldValueTwoDigits(f: string)
    requires |f| == 2 && AllDigits(f)
    ensures FieldValue(f) == DigitValue(f[0]) * 10 + DigitValue(f[1])
  {
    assert f[..1][..0] == [];
    assert FieldValue(f[..1]) == DigitValue(f[0]);
  }

  /** Two durations show the same label exactly when they have the same whole
      seconds: sub-second differences are invisible, whole seconds never are. */
  lemma TimerTextSameExactlyWhenSameSecond(a: nat, b: nat)
    ensures TimerText(a) == TimerText(b) <==> WholeSeconds(a) == WholeSeconds(b)
  {
    if TimerText(a) == TimerText(b) {
      TimerTextRoundTrip(a);
      TimerTextRoundTrip(b);
    }
  }

  /** Thirty seconds shows as 00:30, and half a second is truncated to 00:00. */
  lemma TimerTextExamples()
    ensures TimerText(30 * Second) == "Time remaining: 00:30"
    ensures TimerText(Second / 2) == "Time remaining: 00:00"
    ensures TimerText(0) == "Time remaining: 00:00"
    ensures TimerText(6000 * Second) == "Time remaining: 100:00"
  {
    assert WholeSeconds(30 * Second) == 30 && Pad2(30) == "30";
    assert WholeSeconds(Second / 2) == 0 && WholeSeconds(0) == 0 && Pad2(0) == "00";
    assert Decimal(10) == Decimal(1) + ['0'];
    assert Decimal(100) == Decimal(10) + ['0'];
    assert WholeSeconds(6000 * Second) == 6000 && Pad2(100) == "100";
    assert Prefix + "00" + ":" + "30" == "Time remaining: 00:30";
    assert Prefix + "00" + ":" + "00" == "Time remaining: 00:00";
    assert Prefix + "100" + ":" + "00" == "Time remaining: 100:00";
  }
}
