/**
 * The availability page's conversion between a minute-of-day count and the
 * "HH:MM" text shown to the user and put into the edit form, and the
 * recombination of the form's hour and minute fields into minutes.
 */
module Availability {
  import opened Options
  import opened JsRuntime

  /**
   * `convertMinsToHrsMins`: hours are `Math.floor(mins / 60)` (Dafny's `/`
   * by a positive divisor also rounds down), minutes are `mins % 60` with
   * JavaScript's truncating remainder; each part below 10 gets one "0" in
   * front, and the two are joined by ":".
   */
  function ConvertMinsToHrsMins(mins: int): (r: string)
    ensures ':' in r
  {
    var h := mins / 60;
    var m := Remainder(mins, 60);
    var hours := if h < 10 then "0" + IntToString(h) else IntToString(h);
    var minutes := if m < 10 then "0" + IntToString(m) else IntToString(m);
    assert (hours + ":" + minutes)[|hours|] == ':';
    hours + ":" + minutes
  }

  /** The form's submit handler: `parseInt(hours) * 60 + parseInt(minutes)`, `None` for `NaN`. */
  function RecombineMinutes(hours: string, minutes: string): (r: Option<int>)
    ensures r.Some? <==> ParseInt(hours).Some? && ParseInt(minutes).Some?
  {
    match (ParseInt(hours), ParseInt(minutes))
    case (Some(h), Some(m)) => Some(h * 60 + m)
    case _ => None
  }

  /** How a part below 10 is padded: one "0" in front of its single digit. */
  function Padded(n: nat): string
  {
    if n < 10 then "0" + NatToString(n) else NatToString(n)
  }

  lemma PaddedDigits(n: nat)
    ensures var p := Padded(n);
      AllDigits(p) && DigitsValue(p) == n && ':' !in p && |p| >= 2
      && (n < 10 ==> |p| == 2 && p[0] == '0')
      && (n >= 10 ==> p == NatToString(n) && p[0] != '0')
      && (n < 100 ==> |p| == 2)
  {
    DigitsValueOfNatToString(n);
    if n < 10 {
      LeadingZeroIgnored(NatToString(n));
    }
  }

  lemma PaddedParses(n: nat)
    ensures ParseInt(Padded(n)) == Some(n)
  {
    ParseIntOfNatToString(n);
  }

  /** Helper: for a non-negative count both parts are the `Padded` texts. */
  lemma ConvertIsPadded(mins: int)
    requires mins >= 0
    ensures ConvertMinsToHrsMins(mins) == Padded(mins / 60) + ":" + Padded(mins % 60)
  {
  }

  /**
   * For a non-negative count the text is `H:MM`: the part before the colon
   * holds at least two digits and reads as `mins / 60` (one leading "0"
   * below 10 hours, none from 10 hours on), the part after it holds exactly
   * two digits and reads as `mins % 60`, which lies in 0..59.
   */
  lemma ClockFormat(mins: int)
    requires mins >= 0
    ensures var r := ConvertMinsToHrsMins(mins);
      |r| >= 5 && r[|r| - 3] == ':'
      && AllDigits(r[..|r| - 3]) && DigitsValue(r[..|r| - 3]) == mins / 60
      && AllDigits(r[|r| - 2..]) && DigitsValue(r[|r| - 2..]) == mins % 60
      && 0 <= DigitsValue(r[|r| - 2..]) < 60
      && (mins / 60 < 10 ==> |r| == 5 && r[0] == '0')
      && (mins / 60 >= 10 ==> r[0] != '0')
  {
    var r := ConvertMinsToHrsMins(mins);
    var hs, ms := Padded(mins / 60), Padded(mins % 60);
    ConvertIsPadded(mins);
    PaddedDigits(mins / 60);
    PaddedDigits(mins % 60);
    assert r[..|r| - 3] == hs;
    assert r[|r| - 2..] == ms;
  }

  /**
   * Round trip between the page's two halves: splitting the text at ":"
   * gives exactly the hours and minutes fields, and recombining them as
   * `hours * 60 + minutes` gives back the original count.
   */
  lemma RoundTrip(mins: int)
    requires mins >= 0
    ensures var parts := Split(ConvertMinsToHrsMins(mins), ':');
      |parts| == 2 && RecombineMinutes(parts[0], parts[1]) == Some(mins)
  {
    var hs, ms := Padded(mins / 60), Padded(mins % 60);
    ConvertIsPadded(mins);
    PaddedDigits(mins / 60);
    PaddedDigits(mins % 60);
    SplitTwo(hs, ms, ':');
    assert hs + ":" + ms == hs + [':'] + ms;
    PaddedParses(mins / 60);
    PaddedParses(mins % 60);
    assert RecombineMinutes(hs, ms) == Some(mins / 60 * 60 + mins % 60);
  }
}
