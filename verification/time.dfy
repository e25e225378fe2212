/**
 * `formatTime` of the lecture page, the `M:SS` clock the Markdown transcript
 * headings use as well: whole minutes without padding, a colon, and the
 * seconds of the current minute padded to two digits with `0`.
 */
module TimeFormat {
  import opened Text

  /** Two decimal digits for a number below 100. */
  function TwoDigits(n: nat): (digits: string)
    requires n < 100
    ensures |digits| == 2 && AllDigits(digits) && DigitsValue(digits) == n
  {
    var digits := [DigitChar(n / 10), DigitChar(n % 10)];
    assert digits[..1] == [DigitChar(n / 10)];
    assert DigitsValue(digits[..1]) == n / 10 by {
      assert digits[..1][..0] == [];
    }
    digits
  }

  /** `n.toString().padStart(2, '0')` writes the same two digits. */
  lemma PaddedIsTwoDigits(n: nat)
    requires n < 100
    ensures PadStart(NatToString(n), 2, '0') == TwoDigits(n)
  {
    if n >= 10 {
      assert NatToString(n) == NatToString(n / 10) + [DigitChar(n % 10)];
    }
  }

  /** A clock reading: minutes, a colon, two digits of seconds. */
  function Clock(minutes: string, secs: string): (clock: string)
    requires |secs| == 2
    ensures |clock| >= 3 && clock[|clock| - 3] == ':'
    ensures clock[..|clock| - 3] == minutes && clock[|clock| - 2..] == secs
  {
    minutes + ":" + secs
  }

  /** `${Math.floor(s / 60)}:${(s % 60).toString().padStart(2, '0')}`: the
      unpadded minute count, a colon, the seconds of the minute as two digits;
      read back as numbers they give `seconds` again. */
  function FormatTime(seconds: nat): (clock: string)
    ensures |clock| >= 4 && clock[|clock| - 3] == ':'
    ensures Canonical(clock[..|clock| - 3])
    ensures AllDigits(clock[|clock| - 2..]) && DigitsValue(clock[|clock| - 2..]) < 60
    ensures DigitsValue(clock[..|clock| - 3]) * 60 + DigitsValue(clock[|clock| - 2..]) == seconds
  {
    NatToStringValue(seconds / 60);
    Clock(NatToString(seconds / 60), TwoDigits(seconds % 60))
  }

  /** The shape `FormatTime` writes: a canonical minute count, a colon, two
      digits below 60. */
  predicate IsClock(clock: string) {
    && |clock| >= 4 && clock[|clock| - 3] == ':'
    && Canonical(clock[..|clock| - 3])
    && AllDigits(clock[|clock| - 2..]) && DigitsValue(clock[|clock| - 2..]) < 60
  }

  /** Reads an `M:SS` clock back into seconds; anything else is rejected. */
  function ParseTime(clock: string): (seconds: Option<nat>)
    ensures seconds.Some? <==> IsClock(clock)
  {
    if IsClock(clock)
    then Some(DigitsValue(clock[..|clock| - 3]) * 60 + DigitsValue(clock[|clock| - 2..]))
    else None
  }

  /** Reading a formatted time gives the seconds back. */
  lemma ParseFormatTime(seconds: nat)
    ensures ParseTime(FormatTime(seconds)) == Some(seconds)
  {
    FormattedSeconds(seconds);
  }

  lemma FormattedSeconds(seconds: nat)
    ensures ParseTime(FormatTime(seconds)).Some?
    ensures ParseTime(FormatTime(seconds)).value == seconds
  {
    var clock := FormatTime(seconds);
    assert ParseTime(clock).Some?;
    var m := DigitsValue(clock[..|clock| - 3]);
    var ss := DigitsValue(clock[|clock| - 2..]);
    assert ParseTime(clock).value == m * 60 + ss;
  }

  /** Every clock the parser accepts is what `FormatTime` writes for the
      seconds it denotes. */
  lemma FormatParsedTime(clock: string)
    requires ParseTime(clock).Some?
    ensures FormatTime(ParseTime(clock).value) == clock
  {
    var minutes := clock[..|clock| - 3];
    var secs := clock[|clock| - 2..];
    var m := DigitsValue(minutes);
    var ss := DigitsValue(secs);
    var seconds := ParseTime(clock).value;
    assert seconds == m * 60 + ss;
    assert seconds / 60 == m && seconds % 60 == ss;
    CanonicalRoundTrip(minutes);
    TwoDigitsOf(secs);
    assert clock == Clock(minutes, secs);
  }

  /** Two digits are the two-digit numeral of their value. */
  lemma TwoDigitsOf(digits: string)
    requires |digits| == 2 && AllDigits(digits)
    ensures DigitsValue(digits) < 100 && TwoDigits(DigitsValue(digits)) == digits
  {
    var n := DigitsValue(digits);
    assert digits[..1] == [digits[0]];
    assert DigitsValue(digits[..1]) == DigitValue(digits[0]) by {
      assert digits[..1][..0] == [];
    }
    assert n == 10 * DigitValue(digits[0]) + DigitValue(digits[1]);
    assert n / 10 == DigitValue(digits[0]) && n % 10 == DigitValue(digits[1]);
  }

  /** Different times have different clocks. */
  lemma FormatTimeInjective(a: nat, b: nat)
    requires FormatTime(a) == FormatTime(b)
    ensures a == b
  {
    ParseFormatTime(a);
    ParseFormatTime(b);
  }

  lemma FormatTimeExamples()
    ensures FormatTime(0) == "0:00"
    ensures FormatTime(90) == "1:30"
    ensures FormatTime(2730) == "45:30"
  {
    assert NatToString(45) == "45";
  }
}
