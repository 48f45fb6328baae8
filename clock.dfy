/** Times of day as the views handle them: `HH:MM` texts, minutes since midnight, and the
    two ways the views turn a start time and a duration into an end time. */
module Clock {
  import opened Js

  /** Two half-open intervals of minutes [s1, e1) and [s2, e2) share a minute:
      `s1 < e2 && e1 > s2`. */
  predicate Overlaps(s1: int, e1: int, s2: int, e2: int) {
    s1 < e2 && s2 < e1
  }

  /** A zero-padded `HH:MM` with HH below 24 and MM below 60: what `<input type="time">`
      produces and what the stored schedules and bookings hold. */
  predicate IsClockTime(t: string) {
    |t| == 5 && t[2] == ':' && AllDigits(t[..2]) && AllDigits(t[3..])
    && DigitsValue(t[..2]) < 24 && DigitsValue(t[3..]) < 60
  }

  /** Minutes since midnight of a clock time. */
  function ClockMinutes(t: string): (n: nat)
    requires IsClockTime(t)
    ensures n < 1440
  {
    DigitsValue(t[..2]) * 60 + DigitsValue(t[3..])
  }

  lemma ClockParts(t: string)
    requires IsClockTime(t)
    ensures t == t[..2] + [':'] + t[3..] && |t[..2]| == 2 && |t[3..]| == 2
  {
  }

  /** On clock times, comparing the texts with `<` is comparing the minutes, and two clock
      times are the same text exactly when they are the same minute. */
  lemma ClockOrder(a: string, b: string)
    requires IsClockTime(a) && IsClockTime(b)
    ensures LexLess(a, b) <==> ClockMinutes(a) < ClockMinutes(b)
    ensures a == b <==> ClockMinutes(a) == ClockMinutes(b)
  {
    ClockParts(a);
    ClockParts(b);
    var ha, ma, hb, mb := a[..2], a[3..], b[..2], b[3..];
    LexLessConcat(ha, ":" + ma, hb, ":" + mb);
    LexLessConcat(":", ma, ":", mb);
    LexLessIrreflexive(":");
    LexLessDigits(ha, hb);
    LexLessDigits(ma, mb);
    if DigitsValue(ha) == DigitsValue(hb) {
      DigitsValueInjective(ha, hb);
    }
    if DigitsValue(ma) == DigitsValue(mb) {
      DigitsValueInjective(ma, mb);
    }
    assert a == ha + (":" + ma) && b == hb + (":" + mb);
  }

  lemma DigitsHaveNoColon(s: string)
    requires AllDigits(s)
    ensures ':' !in s
  {
    assert forall i :: 0 <= i < |s| ==> s[i] != ':';
  }

  /** getMinutes: `const [h, m] = time.split(':').map(Number); return h * 60 + m;` with a
      missing second part read as undefined, which makes the sum NaN; so a cleared time
      field reads as NaN. */
  function GetMinutes(t: string): (m: Number)
    ensures t == "" ==> m == NaN
  {
    var ns := MapNumber(Split(t, ':'));
    Sum(ns[0], if |ns| >= 2 then ns[1] else NaN)
  }

  /** `.map(Number)` over strings. */
  function MapNumber(parts: seq<string>): (ns: seq<Number>)
    ensures |ns| == |parts|
  {
    if |parts| == 0 then [] else [StringToNumber(parts[0])] + MapNumber(parts[1..])
  }

  /** `.split(':').map(Number)` of two fields around a colon. */
  lemma NumbersOfFields(t: string, h: string, m: string, x: real, y: real)
    requires t == h + [':'] + m && ':' !in h && ':' !in m
    requires StringToNumber(h) == Finite(x) && StringToNumber(m) == Finite(y)
    ensures MapNumber(Split(t, ':')) == [Finite(x), Finite(y)]
  {
    SplitPair(h, m, ':');
    assert [h, m][1..] == [m];
  }

  /** Parts that read as x and y give x * 60 + y. */
  lemma GetMinutesOfNumbers(t: string, x: nat, y: nat, n: nat)
    requires MapNumber(Split(t, ':')) == [Finite(x as real), Finite(y as real)] && n == x * 60 + y
    ensures GetMinutes(t) == Finite(n as real)
  {
  }

  /** Two fields around a colon that Number reads as x and y give x hours and y minutes. */
  lemma GetMinutesOfFields(t: string, h: string, m: string, x: nat, y: nat, n: nat)
    requires t == h + [':'] + m && ':' !in h && ':' !in m && n == x * 60 + y
    requires StringToNumber(h) == Finite(x as real) && StringToNumber(m) == Finite(y as real)
    ensures GetMinutes(t) == Finite(n as real)
  {
    NumbersOfFields(t, h, m, x as real, y as real);
    GetMinutesOfNumbers(t, x, y, n);
  }

  /** A field of digits has no colon and Number reads it as its digits' value. */
  lemma DigitField(s: string)
    requires |s| > 0 && AllDigits(s)
    ensures ':' !in s && StringToNumber(s) == Finite(DigitsValue(s) as real)
  {
    DigitsHaveNoColon(s);
    DigitStringNumber(s);
  }

  /** getMinutes reads a clock time as its minutes since midnight. */
  lemma GetMinutesOfClock(t: string)
    requires IsClockTime(t)
    ensures GetMinutes(t) == Finite(ClockMinutes(t) as real)
  {
    ClockParts(t);
    DigitField(t[..2]);
    DigitField(t[3..]);
    GetMinutesOfFields(t, t[..2], t[3..], DigitsValue(t[..2]), DigitsValue(t[3..]), ClockMinutes(t));
  }

  function Sum(h: Number, m: Number): Number {
    if h.Finite? && m.Finite? then Finite(h.value * 60.0 + m.value) else NaN
  }

  /** formatTime: hours `Math.floor(minutes / 60)` and minutes `minutes % 60`, each padded
      to two digits; nothing wraps at 24 hours. */
  function FormatTime(n: nat): (t: string)
    ensures n < 1440 ==> IsClockTime(t) && ClockMinutes(t) == n
  {
    var t := Pad(n / 60, 2) + ":" + Pad(n % 60, 2);
    if n < 1440 then
      ClockField(n / 60);
      ClockField(n % 60);
      assert t[..2] == Pad(n / 60, 2) && t[3..] == Pad(n % 60, 2);
      t
    else t
  }

  lemma ClockField(x: nat)
    requires x < 100
    ensures |Pad(x, 2)| == 2 && AllDigits(Pad(x, 2)) && DigitsValue(Pad(x, 2)) == x
  {
    assert Pow10(2) == 100;
    PadLength(x, 2);
    ZeroPaddedValue(x, 2);
  }

  /** Formatting the minutes of a clock time gives the same text back. */
  lemma FormatClockMinutes(t: string)
    requires IsClockTime(t)
    ensures FormatTime(ClockMinutes(t)) == t
  {
    var f := FormatTime(ClockMinutes(t));
    ClockOrder(f, t);
  }

  /** Reading back a formatted minute count gives the count, also past 24 hours, where the
      hour field grows instead of wrapping. */
  lemma GetMinutesOfFormat(n: nat)
    ensures GetMinutes(FormatTime(n)) == Finite(n as real)
  {
    var q, r := n / 60, n % 60;
    assert n == q * 60 + r;
    GetMinutesOfPadded(q, r);
    assert FormatTime(n) == Pad(q, 2) + [':'] + Pad(r, 2);
  }

  lemma GetMinutesOfPadded(q: nat, r: nat)
    ensures GetMinutes(Pad(q, 2) + [':'] + Pad(r, 2)) == Finite((q * 60 + r) as real)
  {
    PaddedField(q);
    PaddedField(r);
    GetMinutesOfFields(Pad(q, 2) + [':'] + Pad(r, 2), Pad(q, 2), Pad(r, 2), q, r, q * 60 + r);
  }

  /** A padded count has no colon and Number reads it as the count. */
  lemma PaddedField(n: nat)
    ensures ':' !in Pad(n, 2) && StringToNumber(Pad(n, 2)) == Finite(n as real)
  {
    PadDigits(n, 2);
    DigitField(Pad(n, 2));
  }

  /** A formatted count is a clock time exactly when it is less than a day. */
  lemma FormatTimeIsClock(n: nat)
    ensures IsClockTime(FormatTime(n)) <==> n < 1440
  {
    var t, h := FormatTime(n), Pad(n / 60, 2);
    ZeroPaddedValue(n / 60, 2);
    if |h| == 2 {
      assert t[..2] == h;
    }
  }

  /** The root view's end time: `h * 60 + m + duration`, hours `Math.floor(total / 60) % 24`
      and minutes `total % 60`, each padded to two digits. An empty time reads as NaN and
      prints as "NaN:NaN". */
  function CheckEnd(time: string, duration: nat): (r: string)
    requires time == "" || IsClockTime(time)
    ensures time == "" ==> r == "NaN:NaN"
    ensures IsClockTime(time) ==> IsClockTime(r) && ClockMinutes(r) == (ClockMinutes(time) + duration) % 1440
  {
    if time == "" then "NaN:NaN"
    else
      var total := ClockMinutes(time) + duration;
      var hh, mm := (total / 60) % 24, total % 60;
      ClockField(hh);
      ClockField(mm);
      WrapDay(total);
      var r := Pad(hh, 2) + ":" + Pad(mm, 2);
      assert r[..2] == Pad(hh, 2) && r[3..] == Pad(mm, 2);
      r
  }

  lemma WrapDay(total: nat)
    ensures ((total / 60) % 24) * 60 + total % 60 == total % 1440
  {
    var q := total / 60;
    assert total == 60 * q + total % 60;
    assert q == 24 * (q / 24) + q % 24;
    assert total == 1440 * (q / 24) + (q % 24) * 60 + total % 60;
  }

  lemma DayMinute(n: nat)
    requires n < 1440
    ensures n % 1440 == n
  {
  }

  /** Without crossing midnight the root end time is the frontend's formatted sum. */
  lemma CheckEndSameDay(time: string, duration: nat)
    requires IsClockTime(time) && ClockMinutes(time) + duration < 1440
    ensures CheckEnd(time, duration) == FormatTime(ClockMinutes(time) + duration)
  {
    var n := ClockMinutes(time) + duration;
    var r, f := CheckEnd(time, duration), FormatTime(n);
    DayMinute(n);
    assert IsClockTime(r) && ClockMinutes(r) == n;
    assert IsClockTime(f) && ClockMinutes(f) == n;
    ClockOrder(r, f);
  }
}
