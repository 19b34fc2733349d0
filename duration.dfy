/**
 * The label a package's duration gets on the payment form
 * (`getDurationText`): one hour and one week have fixed labels, up to a day
 * is counted in hours, and longer packages in days.
 */
module Duration {
  import opened Wrappers
  import opened Decimal

  /** The durations whose label is an exact text: a day or less, or a whole number of days. */
  predicate HasExactLabel(hours: int) {
    hours <= 24 || hours % 24 == 0
  }

  function DurationText(hours: int): (text: string)
    requires HasExactLabel(hours)
    ensures hours == 1 ==> text == "1 Hour"
    ensures hours == 168 ==> text == "7 Days"
    ensures hours != 1 && hours <= 24 ==> text == IntToDecimal(hours) + " Hours"
    ensures hours > 24 ==> text == IntToDecimal(hours / 24) + " Days"
  {
    if hours == 1 then "1 Hour"
    else if hours == 168 then "7 Days"
    else if hours <= 24 then IntToDecimal(hours) + " Hours"
    else IntToDecimal(hours / 24) + " Days"
  }

  predicate EndsWith(s: string, suffix: string) {
    |suffix| <= |s| && s[|s| - |suffix|..] == suffix
  }

  /** Reads a duration label back into hours; None for text that is not a label. */
  function ReadDuration(text: string): Option<int> {
    if EndsWith(text, " Hour") then ReadInt(text[..|text| - 5])
    else if EndsWith(text, " Hours") then ReadInt(text[..|text| - 6])
    else if EndsWith(text, " Days") then
      match ReadInt(text[..|text| - 5])
      case Some(days) => Some(days * 24)
      case None => None
    else None
  }

  /** Every label names exactly the duration it was made from. */
  lemma DurationTextRoundTrip(hours: int)
    requires HasExactLabel(hours)
    ensures ReadDuration(DurationText(hours)) == Some(hours)
  {
    var text := DurationText(hours);
    if hours == 1 {
      assert text[..1] == "1";
      IntToDecimalRoundTrip(1);
    } else if hours <= 24 || hours == 168 {
      var n := if hours == 168 then 7 else hours;
      var x := IntToDecimal(n);
      var suffix := if hours == 168 then " Days" else " Hours";
      assert text == x + suffix;
      IntToDecimalRoundTrip(n);
      assert text[..|x|] == x;
      assert text[|text| - 5..] != " Hour" by {
        assert text[|text| - 4] == suffix[|suffix| - 4];
      }
      if hours == 168 {
        assert text[|text| - 6] == '7';
        assert text[|text| - 5..] == " Days";
      } else {
        assert text[|text| - 6..] == " Hours";
      }
    } else {
      var x := IntToDecimal(hours / 24);
      assert text == x + " Days";
      IntToDecimalRoundTrip(hours / 24);
      assert text[..|x|] == x;
      assert text[|text| - 4] == 'D';
      assert text[|text| - 6] == x[|x| - 1];
      assert text[|text| - 5..] == " Days";
    }
  }

  /** Distinct durations never share a label. */
  lemma DurationTextInjective(h1: int, h2: int)
    requires HasExactLabel(h1) && HasExactLabel(h2)
    ensures DurationText(h1) == DurationText(h2) ==> h1 == h2
  {
    DurationTextRoundTrip(h1);
    DurationTextRoundTrip(h2);
  }
}
