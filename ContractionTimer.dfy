// The arithmetic of the timer display: the elapsed seconds shown while a
// contraction is in progress and their `mm:ss` rendering.

module ContractionTimer {
  import opened Types

  /** `Math.floor((now - startTime) / 1000)` on integer milliseconds. */
  function ElapsedSeconds(startTime: Instant, now: Instant): (r: int)
    ensures 1000 * r <= now - startTime < 1000 * r + 1000
    ensures now >= startTime ==> r >= 0
  {
    (now - startTime) / 1000
  }

  /**
   * The elapsed value the display holds after a tick at `now`: the floor of
   * the seconds since the start while tracking with a start time, and 0
   * otherwise.
   */
  function DisplayedElapsed(isTracking: bool, startTime: Option<Instant>, now: Instant): (r: int)
    ensures !(isTracking && startTime.Some?) ==> r == 0
    ensures isTracking && startTime.Some? ==>
      1000 * r <= now - startTime.value < 1000 * r + 1000
  {
    if isTracking && startTime.Some? then ElapsedSeconds(startTime.value, now) else 0
  }

  predicate IsDigit(c: char) {
    '0' <= c <= '9'
  }

  predicate AllDigits(s: string) {
    forall i :: 0 <= i < |s| ==> IsDigit(s[i])
  }

  function DigitChar(d: int): (c: char)
    requires 0 <= d < 10
    ensures IsDigit(c) && c as int - '0' as int == d
  {
    ('0' as int + d) as char
  }

  /** The number a string of decimal digits denotes, most significant digit first. */
  function DigitsValue(s: string): int {
    if s == [] then 0
    else DigitsValue(s[..|s| - 1]) * 10 + (s[|s| - 1] as int - '0' as int)
  }

  /** `n.toString()` for a non-negative integer: its decimal digits, no leading zero. */
  function NatToString(n: nat): (r: string)
    ensures |r| >= 1 && AllDigits(r)
    ensures |r| == 1 <==> n < 10
  {
    if n < 10 then [DigitChar(n)] else NatToString(n / 10) + [DigitChar(n % 10)]
  }

  /**
   * `n.toString()` for any integer: a minus sign before the digits of a
   * negative one. The digits denote the magnitude of `n`.
   */
  function IntToString(n: int): (r: string)
    ensures n >= 0 ==> |r| >= 1 && AllDigits(r) && DigitsValue(r) == n
    ensures n < 0 ==> |r| >= 2 && r[0] == '-' && AllDigits(r[1..]) && DigitsValue(r[1..]) == -n
  {
    if n < 0 then
      NatToStringValue(-n);
      assert ("-" + NatToString(-n))[1..] == NatToString(-n);
      "-" + NatToString(-n)
    else
      NatToStringValue(n);
      NatToString(n)
  }

  /** `s.padStart(2, '0')`: zeros are put in front until the string is two characters long. */
  function PadStart2(s: string): (r: string)
    ensures |r| == if |s| >= 2 then |s| else 2
    ensures r[|r| - |s|..] == s
    ensures forall i :: 0 <= i < |r| - |s| ==> r[i] == '0'
  {
    if |s| >= 2 then s else if |s| == 1 then ['0'] + s else ['0', '0']
  }

  /** `Math.floor(seconds / 60)`. */
  function MinutesField(seconds: int): (r: int)
    ensures 60 * r <= seconds < 60 * r + 60
  {
    seconds / 60
  }

  /** `seconds % 60` in JavaScript: the remainder takes the sign of the dividend. */
  function SecondsField(seconds: int): (r: int)
    ensures seconds >= 0 ==> 0 <= r < 60
    ensures seconds < 0 ==> -60 < r <= 0
    ensures (seconds - r) % 60 == 0
  {
    if seconds >= 0 then seconds % 60 else -((-seconds) % 60)
  }

  /**
   * The `mm:ss` text of the timer. For a non-negative count: at least two
   * minute digits, a colon, then exactly two second digits. A negative count
   * shows a minus sign first.
   */
  function FormatTime(seconds: int): (r: string)
    ensures |r| >= 5
    ensures seconds >= 0 ==>
      r[|r| - 3] == ':' && AllDigits(r[..|r| - 3]) && AllDigits(r[|r| - 2..])
    ensures seconds < 0 ==> r[0] == '-'
  {
    var a := PadStart2(IntToString(MinutesField(seconds)));
    var b := PadStart2(IntToString(SecondsField(seconds)));
    FieldTexts(seconds);
    if seconds >= 0 then JoinedFields(a, b); a + ":" + b else a + ":" + b
  }

  /** Two digit strings joined by a colon, the second one two digits long. */
  lemma JoinedFields(a: string, b: string)
    requires |a| >= 2 && AllDigits(a) && |b| == 2 && AllDigits(b)
    ensures var t := a + ":" + b;
      |t| >= 5 && t[|t| - 3] == ':' && AllDigits(t[..|t| - 3]) && AllDigits(t[|t| - 2..])
  {
    var t := a + ":" + b;
    assert t[..|t| - 3] == a;
    assert t[|t| - 2..] == b;
  }

  /** The two padded fields: digits for a non-negative count, a sign first otherwise. */
  lemma FieldTexts(seconds: int)
    ensures var a, b := PadStart2(IntToString(MinutesField(seconds))), PadStart2(IntToString(SecondsField(seconds)));
      && (seconds >= 0 ==> |a| >= 2 && AllDigits(a) && |b| == 2 && AllDigits(b))
      && (seconds < 0 ==> |a| >= 2 && a[0] == '-')
  {
    if seconds >= 0 {
      FieldsRecompose(seconds);
      TwoDigitField(SecondsField(seconds));
      PadStart2Digits(IntToString(MinutesField(seconds)));
    }
  }

  /** For a non-negative count the two fields are minutes and seconds of it. */
  lemma FieldsRecompose(seconds: int)
    requires seconds >= 0
    ensures MinutesField(seconds) >= 0 && 0 <= SecondsField(seconds) <= 59
    ensures MinutesField(seconds) * 60 + SecondsField(seconds) == seconds
  {
  }

  /**
   * For a negative count that is not a whole number of minutes, the floored
   * minutes and the truncated seconds add up to one minute too few.
   */
  lemma NegativeFieldsMissAMinute(seconds: int)
    requires seconds < 0 && seconds % 60 != 0
    ensures MinutesField(seconds) * 60 + SecondsField(seconds) == seconds - 60
  {
    var q, m := seconds / 60, seconds % 60;
    assert seconds == 60 * q + m && 0 < m < 60;
    assert -seconds == 60 * (-q - 1) + (60 - m);
    assert (-seconds) % 60 == 60 - m;
  }

  lemma {:induction false} NatToStringValue(n: nat)
    ensures DigitsValue(NatToString(n)) == n
  {
    var r := NatToString(n);
    if n < 10 {
      assert r[..0] == [];
    } else {
      NatToStringValue(n / 10);
      assert r[..|r| - 1] == NatToString(n / 10);
    }
  }

  lemma NatToStringShort(n: nat)
    requires n < 100
    ensures |NatToString(n)| <= 2
  {
    if n >= 10 {
      assert |NatToString(n / 10)| == 1;
    }
  }

  lemma {:induction false} LeadingZeroValue(s: string)
    ensures DigitsValue(['0'] + s) == DigitsValue(s)
  {
    var t := ['0'] + s;
    if s == [] {
      assert t[..0] == [];
    } else {
      assert t[..|t| - 1] == ['0'] + s[..|s| - 1];
      LeadingZeroValue(s[..|s| - 1]);
    }
  }

  lemma PadStart2Value(s: string)
    ensures DigitsValue(PadStart2(s)) == DigitsValue(s)
  {
    if |s| == 1 {
      LeadingZeroValue(s);
    } else if |s| == 0 {
      LeadingZeroValue(s);
      LeadingZeroValue(['0']);
      assert ['0'] + ['0'] == ['0', '0'];
    }
  }

  lemma PadStart2Digits(s: string)
    requires AllDigits(s)
    ensures AllDigits(PadStart2(s))
  {
    var r := PadStart2(s);
    forall i | 0 <= i < |r| ensures IsDigit(r[i]) {
      if i >= |r| - |s| {
        assert r[i] == r[|r| - |s|..][i - (|r| - |s|)];
      }
    }
  }

  /** A field below 100 renders as exactly two digits. */
  lemma TwoDigitField(n: int)
    requires 0 <= n < 100
    ensures |PadStart2(IntToString(n))| == 2 && AllDigits(PadStart2(IntToString(n)))
  {
    NatToStringShort(n);
    PadStart2Digits(NatToString(n));
  }

  /**
   * Below 100 minutes the text is exactly five characters: two digits, a
   * colon, two digits.
   */
  lemma FormatTimeShape(seconds: int)
    requires 0 <= seconds < 6000
    ensures var t := FormatTime(seconds);
      |t| == 5 && t[2] == ':' && forall i :: 0 <= i < 5 && i != 2 ==> IsDigit(t[i])
  {
    FieldsRecompose(seconds);
    var a := PadStart2(IntToString(MinutesField(seconds)));
    var b := PadStart2(IntToString(SecondsField(seconds)));
    TwoDigitField(MinutesField(seconds));
    TwoDigitField(SecondsField(seconds));
    var t := a + ":" + b;
    assert |t| == 5;
    assert t[0] == a[0] && t[1] == a[1] && t[2] == ':' && t[3] == b[0] && t[4] == b[1];
  }

  /** The position of the first colon, or the length when there is none. */
  function ColonIndex(t: string): (k: nat)
    ensures k <= |t|
    ensures k < |t| ==> t[k] == ':'
    ensures forall i :: 0 <= i < k ==> t[i] != ':'
  {
    if t == [] || t[0] == ':' then 0 else 1 + ColonIndex(t[1..])
  }

  /** Reads a `mm:ss` text back as a number of seconds: minutes times 60 plus seconds. */
  function ParseTime(t: string): (r: Option<int>)
    ensures r.Some? ==> r.value >= 0
  {
    var k := ColonIndex(t);
    if k < |t| && k > 0 && k + 1 < |t| && AllDigits(t[..k]) && AllDigits(t[k + 1..]) then
      DigitsNonNegative(t[..k]);
      DigitsNonNegative(t[k + 1..]);
      Some(DigitsValue(t[..k]) * 60 + DigitsValue(t[k + 1..]))
    else None
  }

  lemma {:induction false} DigitsNonNegative(s: string)
    requires AllDigits(s)
    ensures DigitsValue(s) >= 0
  {
    if s != [] {
      DigitsNonNegative(s[..|s| - 1]);
    }
  }

  /** Reading back the text of a non-negative count gives the count. */
  lemma FormatTimeRoundTrip(seconds: int)
    requires seconds >= 0
    ensures ParseTime(FormatTime(seconds)) == Some(seconds)
  {
    var mins, secs := MinutesField(seconds), SecondsField(seconds);
    FieldsRecompose(seconds);
    var a, b := PadStart2(NatToString(mins)), PadStart2(NatToString(secs));
    assert IntToString(mins) == NatToString(mins) && IntToString(secs) == NatToString(secs);
    var t := a + ":" + b;
    assert t == FormatTime(seconds);
    PadStart2Digits(NatToString(mins));
    PadStart2Digits(NatToString(secs));
    assert ColonIndex(t) == |a| by {
      forall i | 0 <= i < |a| ensures t[i] != ':' {
        assert t[i] == a[i] && IsDigit(a[i]);
      }
      assert t[|a|] == ':';
    }
    assert t[..|a|] == a;
    assert t[|a| + 1..] == b;
    PadStart2Value(NatToString(mins));
    PadStart2Value(NatToString(secs));
    NatToStringValue(mins);
    NatToStringValue(secs);
  }
}
