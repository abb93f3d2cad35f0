/**
  The `%M:%S` projection the component renders: the remaining time, held as a
  time of day `value` seconds after midnight, shown as two-digit minutes and
  two-digit seconds. `Parse` is its inverse on the first hour and serves as the
  independent reading against which the format is checked.
*/
module Clock {
  import opened Wrappers

  const SecondsPerMinute: nat := 60
  const MinutesPerHour: nat := 60
  const SecondsPerHour: nat := SecondsPerMinute * MinutesPerHour

  /** The decimal digit character for `d`. */
  function Digit(d: nat): (c: char)
    requires d < 10
    ensures '0' <= c <= '9'
  {
    (('0' as int) + d) as char
  }

  /** The value of a decimal digit character, `None` for any other character. */
  function DigitValue(c: char): (r: Option<nat>)
    ensures r.Some? <==> '0' <= c <= '9'
    ensures r.Some? ==> r.value < 10 && Digit(r.value) == c
  {
    if '0' <= c <= '9' then Some(c as int - '0' as int) else None
  }

  /** `n` as exactly two decimal digits, with a leading zero below ten. */
  function TwoDigits(n: nat): (t: string)
    requires n < 100
    ensures |t| == 2
    ensures DigitValue(t[0]).Some? && DigitValue(t[1]).Some?
    ensures 10 * DigitValue(t[0]).value + DigitValue(t[1]).value == n
  {
    [Digit(n / 10), Digit(n % 10)]
  }

  /**
    `%M:%S` of the time of day `v` seconds after midnight: minute of the hour,
    a colon, second of the minute. Any hour component is dropped, as the
    format string has none.
  */
  function Format(v: nat): (t: string)
    ensures |t| == 5 && t[2] == ':'
    ensures Parse(t) == Some(v % SecondsPerHour)
  {
    var minutes := (v / SecondsPerMinute) % MinutesPerHour;
    var seconds := v % SecondsPerMinute;
    assert v % SecondsPerHour == minutes * SecondsPerMinute + seconds by {
      DivModHour(v);
    }
    TwoDigits(minutes) + [':'] + TwoDigits(seconds)
  }

  /** Reads `MM:SS` back into a second count below one hour; `None` for anything else. */
  function Parse(t: string): (r: Option<nat>)
    ensures r.Some? ==> r.value < SecondsPerHour
  {
    if |t| != 5 || t[2] != ':' then None
    else
      match (DigitValue(t[0]), DigitValue(t[1]), DigitValue(t[3]), DigitValue(t[4]))
      case (Some(m1), Some(m0), Some(s1), Some(s0)) =>
        var minutes := 10 * m1 + m0;
        var seconds := 10 * s1 + s0;
        if minutes < MinutesPerHour && seconds < SecondsPerMinute
        then Some(minutes * SecondsPerMinute + seconds)
        else None
      case _ => None
  }

  /** Splitting a second count into minutes of the hour and seconds of the minute loses nothing below the hour. */
  lemma DivModHour(v: nat)
    ensures v % SecondsPerHour == ((v / SecondsPerMinute) % MinutesPerHour) * SecondsPerMinute + v % SecondsPerMinute
  {
  }

  /** Below one hour the display is faithful: reading it back gives the second count. */
  lemma ParseFormat(v: nat)
    requires v < SecondsPerHour
    ensures Parse(Format(v)) == Some(v)
  {
  }

  /** Every well-formed display is the format of the count it reads as. */
  lemma FormatParse(t: string)
    requires Parse(t).Some?
    ensures Format(Parse(t).value) == t
  {
    var v := Parse(t).value;
    var minutes := 10 * DigitValue(t[0]).value + DigitValue(t[1]).value;
    var seconds := 10 * DigitValue(t[3]).value + DigitValue(t[4]).value;
    assert v == minutes * SecondsPerMinute + seconds;
    assert v / SecondsPerMinute == minutes;
    assert v % SecondsPerMinute == seconds;
    var f := Format(v);
    assert f[0] == t[0] && f[1] == t[1] && f[3] == t[3] && f[4] == t[4];
  }

  /** Distinct counts below one hour are shown differently. */
  lemma FormatInjective(v: nat, w: nat)
    requires v < SecondsPerHour && w < SecondsPerHour
    requires Format(v) == Format(w)
    ensures v == w
  {
    ParseFormat(v);
    ParseFormat(w);
  }
}
