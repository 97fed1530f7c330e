/** The meeting-history page's `formatDuration`: seconds shown as `m:ss`. */
module History {
  import Decimal

  /** Prepending zeros does not change the value of a digit string. */
  lemma {:induction false} LeadingZeroValue(s: string)
    requires Decimal.AllDigits(s)
    ensures Decimal.AllDigits("0" + s) && Decimal.DigitsValue("0" + s) == Decimal.DigitsValue(s)
  {
    var z := "0" + s;
    if |s| > 0 {
      var p := s[..|s| - 1];
      assert z[..|z| - 1] == "0" + p;
      LeadingZeroValue(p);
    }
  }

  lemma {:induction false} ZeroPaddedValue(s: string, width: nat)
    requires Decimal.AllDigits(s)
    ensures Decimal.AllDigits(Decimal.PadStart(s, width, '0'))
    ensures Decimal.DigitsValue(Decimal.PadStart(s, width, '0')) == Decimal.DigitsValue(s)
    decreases width - |s|
  {
    if |s| < width {
      LeadingZeroValue(s);
      assert "0" + s == ['0'] + s;
      ZeroPaddedValue("0" + s, width);
    }
  }

  /** The seconds field: two digits whose value is the remainder. */
  lemma SecondsField(remaining: nat)
    requires remaining < 60
    ensures |Decimal.PadStart(Decimal.NatToString(remaining), 2, '0')| == 2
    ensures Decimal.AllDigits(Decimal.PadStart(Decimal.NatToString(remaining), 2, '0'))
    ensures Decimal.DigitsValue(Decimal.PadStart(Decimal.NatToString(remaining), 2, '0')) == remaining
  {
    assert |Decimal.NatToString(remaining)| <= 2;
    ZeroPaddedValue(Decimal.NatToString(remaining), 2);
    Decimal.NatToStringValue(remaining);
  }

  /** The two sides of `m:ss` are where they should be. */
  lemma ColonLayout(m: string, sec: string)
    requires |sec| == 2
    ensures var r := m + ":" + sec;
      |r| == |m| + 3 && r[|r| - 3] == ':' && r[..|r| - 3] == m && r[|r| - 2..] == sec
  {
    var r := m + ":" + sec;
    assert r[..|m|] == m;
    assert r[|m| + 1..] == sec;
  }

  /** Reading the two fields of `m:ss` back. */
  lemma ColonFields(m: string, sec: string, minutes: nat, remaining: nat)
    requires Decimal.Canonical(m) && Decimal.DigitsValue(m) == minutes
    requires |sec| == 2 && Decimal.AllDigits(sec) && Decimal.DigitsValue(sec) == remaining
    ensures var r := m + ":" + sec;
      && |r| >= 4 && r[|r| - 3] == ':'
      && Decimal.Canonical(r[..|r| - 3]) && Decimal.DigitsValue(r[..|r| - 3]) == minutes
      && Decimal.AllDigits(r[|r| - 2..]) && Decimal.DigitsValue(r[|r| - 2..]) == remaining
  {
    ColonLayout(m, sec);
  }

  /** `formatDuration(seconds)`: whole minutes, a colon, then the remaining seconds
      left-padded with '0' to two digits. Reading the two fields back recovers the
      duration, and the seconds field is always below 60. */
  function FormatDuration(seconds: nat): (r: string)
    ensures |r| >= 4 && r[|r| - 3] == ':'
    ensures Decimal.Canonical(r[..|r| - 3])
    ensures Decimal.AllDigits(r[|r| - 2..])
    ensures Decimal.DigitsValue(r[|r| - 2..]) < 60
    ensures Decimal.DigitsValue(r[..|r| - 3]) * 60 + Decimal.DigitsValue(r[|r| - 2..]) == seconds
  {
    var minutes := seconds / 60;
    var remaining := seconds % 60;
    var m := Decimal.NatToString(minutes);
    var sec := Decimal.PadStart(Decimal.NatToString(remaining), 2, '0');
    SecondsField(remaining);
    Decimal.NatToStringValue(minutes);
    ColonFields(m, sec, minutes, remaining);
    m + ":" + sec
  }

  /** Under a minute the display starts with "0:". */
  lemma UnderAMinute(seconds: nat)
    requires seconds < 60
    ensures FormatDuration(seconds)[..2] == "0:"
  {
    assert seconds / 60 == 0;
    assert Decimal.NatToString(0) == "0";
  }
}
