/**
 * What the app shows: `formatTime`, which renders the remaining seconds as
 * `MM:SS`, and the title and body of the session-complete notification.
 */
module Display {
  import opened Wrappers
  import opened Pomodoro

  // ---------------------------------------------------------------------------
  // Decimal digits

  predicate IsDigits(s: string) {
    forall i :: 0 <= i < |s| ==> '0' <= s[i] <= '9'
  }

  function DigitChar(d: nat): (c: char)
    requires d < 10
    ensures '0' <= c <= '9' && c as int - '0' as int == d
  {
    ('0' as int + d) as char
  }

  /** `Number.prototype.toString()` on a non-negative integer: its decimal digits,
      without leading zeros. */
  function NatToString(n: nat): (r: string)
    ensures IsDigits(r) && |r| >= 1
    ensures |r| == 1 <==> n < 10
    ensures r[0] == '0' ==> n == 0
  {
    if n < 10 then [DigitChar(n)] else NatToString(n / 10) + [DigitChar(n % 10)]
  }

  /** The number a string of decimal digits denotes (leading zeros allowed). */
  function DigitsValue(s: string): nat
    requires IsDigits(s)
  {
    if s == [] then 0
    else DigitsValue(s[..|s| - 1]) * 10 + (s[|s| - 1] as int - '0' as int)
  }

  /** `String.prototype.padStart(width, fill)`: fills on the left up to `width`
      characters and never cuts `s`. */
  function PadStart(s: string, width: nat, fill: char): (r: string)
    ensures |r| == if |s| >= width then |s| else width
    ensures r[|r| - |s|..] == s
    ensures forall i :: 0 <= i < |r| - |s| ==> r[i] == fill
  {
    if |s| >= width then s else seq(width - |s|, _ => fill) + s
  }

  /** One field of the display: a number padded with '0' to at least two digits. */
  function Field(n: nat): string {
    PadStart(NatToString(n), 2, '0')
  }

  /** `formatTime`: whole minutes and remaining seconds, each padded to two digits. */
  function FormatTime(time: nat): string {
    Field(time / 60) + ":" + Field(time % 60)
  }

  /** Reads a displayed `MM:SS` back: at least one minute digit, a colon, and two
      second digits below 60. */
  function ParseTime(s: string): Option<nat> {
    if |s| < 4 || s[|s| - 3] != ':' then None
    else
      var minutes, seconds := s[..|s| - 3], s[|s| - 2..];
      if IsDigits(minutes) && IsDigits(seconds) && DigitsValue(seconds) < 60
      then Some(DigitsValue(minutes) * 60 + DigitsValue(seconds))
      else None
  }

  lemma {:induction false} NatToStringValue(n: nat)
    ensures DigitsValue(NatToString(n)) == n
  {
    if n >= 10 {
      NatToStringValue(n / 10);
      var r := NatToString(n);
      assert r[..|r| - 1] == NatToString(n / 10);
    }
  }

  lemma {:induction false} LeadingZerosAreIgnored(k: nat, s: string)
    requires IsDigits(s)
    ensures IsDigits(seq(k, _ => '0') + s)
    ensures DigitsValue(seq(k, _ => '0') + s) == DigitsValue(s)
  {
    var z := seq(k, _ => '0');
    if s == [] {
      assert z + s == z;
      if k > 0 {
        var shorter := seq(k - 1, _ => '0');
        LeadingZerosAreIgnored(k - 1, []);
        assert shorter + [] == shorter;
        assert z[..k - 1] == shorter;
        assert z[k - 1] == '0';
      }
    } else {
      var init := s[..|s| - 1];
      LeadingZerosAreIgnored(k, init);
      assert (z + s)[..|z + s| - 1] == z + init;
    }
  }

  /** A padded field still denotes the number it pads. */
  lemma FieldValue(n: nat)
    ensures IsDigits(Field(n)) && DigitsValue(Field(n)) == n
  {
    var d := NatToString(n);
    NatToStringValue(n);
    if |d| < 2 {
      LeadingZerosAreIgnored(2 - |d|, d);
    }
  }

  /** A field is at least two characters wide, exactly two below 100, and
      from 10 on it is the plain digits, with no padding. */
  lemma FieldWidth(n: nat)
    ensures |Field(n)| >= 2 && (|Field(n)| == 2 <==> n < 100)
    ensures n >= 10 ==> Field(n) == NatToString(n)
  {
    if n >= 10 {
      assert |NatToString(n)| == |NatToString(n / 10)| + 1;
    }
  }

  /** What reading a field back needs to know of it. */
  lemma FieldFacts(n: nat)
    ensures IsDigits(Field(n)) && |Field(n)| >= 1 && DigitsValue(Field(n)) == n
    ensures n < 60 ==> |Field(n)| == 2
  {
    FieldValue(n);
    FieldWidth(n);
  }

  /** Reading back a minutes field, a colon and a two-digit seconds field. */
  lemma ParseFields(mm: string, ss: string, minutes: nat, seconds: nat, time: nat)
    requires IsDigits(mm) && |mm| >= 1 && DigitsValue(mm) == minutes
    requires IsDigits(ss) && |ss| == 2 && DigitsValue(ss) == seconds < 60
    requires minutes * 60 + seconds == time
    ensures ParseTime(mm + ":" + ss) == Some(time)
  {
    var r := mm + ":" + ss;
    assert r[..|r| - 3] == mm;
    assert r[|r| - 2..] == ss;
  }

  /** Two padded fields read back as the number of seconds they show. */
  lemma FieldsRoundTrip(minutes: nat, seconds: nat, time: nat)
    requires seconds < 60 && minutes * 60 + seconds == time
    ensures ParseTime(Field(minutes) + ":" + Field(seconds)) == Some(time)
  {
    FieldFacts(minutes);
    FieldFacts(seconds);
    ParseFields(Field(minutes), Field(seconds), minutes, seconds, time);
  }

  /** Whole minutes and remaining seconds recombine to the time. */
  lemma SplitTime(time: nat)
    ensures time % 60 < 60 && (time / 60) * 60 + time % 60 == time
  {
  }

  /** The display loses nothing: reading it back gives the remaining seconds, so
      the minutes are never cut to two digits and the seconds are `time % 60`. */
  lemma FormatTimeRoundTrip(time: nat)
    ensures ParseTime(FormatTime(time)) == Some(time)
  {
    SplitTime(time);
    FieldsRoundTrip(time / 60, time % 60, time);
  }

  /** Where the colon and the two digit strings sit once joined. */
  lemma JoinLayout(mm: string, ss: string)
    requires IsDigits(mm) && |mm| >= 2 && IsDigits(ss) && |ss| == 2
    ensures var r := mm + ":" + ss;
      && |r| >= 5 && r[|r| - 3] == ':'
      && IsDigits(r[..|r| - 3]) && IsDigits(r[|r| - 2..])
      && (|r| == 5 <==> |mm| == 2)
      && r[0] == mm[0]
  {
    var r := mm + ":" + ss;
    assert r[..|r| - 3] == mm;
    assert r[|r| - 2..] == ss;
  }

  /** The shape of a minutes field, a colon and a seconds field. */
  lemma FieldsLayout(minutes: nat, seconds: nat)
    requires seconds < 60
    ensures var r := Field(minutes) + ":" + Field(seconds);
      && |r| >= 5 && r[|r| - 3] == ':'
      && IsDigits(r[..|r| - 3]) && IsDigits(r[|r| - 2..])
      && (|r| == 5 <==> minutes < 100)
      && (minutes >= 10 ==> r[0] != '0')
  {
    FieldFacts(minutes);
    FieldWidth(minutes);
    FieldFacts(seconds);
    JoinLayout(Field(minutes), Field(seconds));
  }

  /** The shape of the display: two second digits after a colon, exactly
      `MM:SS` while fewer than 100 minutes remain, and no padding zero in
      front of a minute count of 10 or more. */
  lemma FormatTimeShape(time: nat)
    ensures var r := FormatTime(time);
      && |r| >= 5 && r[|r| - 3] == ':'
      && IsDigits(r[..|r| - 3]) && IsDigits(r[|r| - 2..])
      && (|r| == 5 <==> time < 6000)
      && (time >= 600 ==> r[0] != '0')
  {
    var minutes, seconds := time / 60, time % 60;
    FieldsLayout(minutes, seconds);
    assert FormatTime(time) == Field(minutes) + ":" + Field(seconds);
    assert minutes < 100 <==> time < 6000;
    assert minutes >= 10 <==> time >= 600;
  }

  // ---------------------------------------------------------------------------
  // The session-complete notification

  datatype Notification = Notification(title: string, body: string)

  /** `showNotification`: nothing without the browser's permission; otherwise a
      title and body chosen by the mode that just ended. */
  function SessionCompleteNotification(previous: Mode, permissionGranted: bool): Option<Notification> {
    if !permissionGranted then None
    else
      var title :=
        match previous
        case Focus => "Focus session complete!"
        case ShortBreak => "Short break over!"
        case LongBreak => "Long break over!";
      var body := if previous == Focus then "Take a short break or continue when ready."
                  else "Time to get back to work!";
      Some(Notification(title, body))
  }

  /** Each mode has its own title; both breaks share the back-to-work body. */
  lemma NotificationWording(previous: Mode, other: Mode)
    ensures SessionCompleteNotification(previous, false) == None
    ensures SessionCompleteNotification(previous, true).Some?
    ensures previous != other ==>
      SessionCompleteNotification(previous, true).value.title
        != SessionCompleteNotification(other, true).value.title
    ensures SessionCompleteNotification(previous, true).value.body == "Time to get back to work!"
      <==> previous != Focus
  {
  }
}
