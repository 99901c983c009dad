/**
  The text content of what the panel shows: the status bar redrawn every
  tick and the lines of the hourly-forecast scene. Positions, fonts and
  colours are not modelled.
 */
module Screens {
  import opened Wrappers
  import Decimal
  import Rounding
  import Weather
  import Formatters

  /** The fields of the real-time clock's `struct_time` that the bar shows. */
  datatype Clock = Clock(hour: nat, minute: nat, second: nat)

  /** What can be read back from a fixed-width status bar. */
  datatype StatusReading = StatusReading(hour: nat, minute: nat, second: nat, percent: nat, charging: bool)

  /** "+" while the fuel gauge reports a positive charge rate, "-" otherwise. */
  function BatteryBadge(chargeRate: real): char {
    if chargeRate > 0.0 then '+' else '-'
  }

  /**
    The status-bar text `HH:MM:SS | NNN%s`: clock fields padded to two
    digits, the truncated cell percentage to three, then the charge badge.
   */
  function StatusBar(clock: Clock, cellPercent: real, chargeRate: real): (r: string)
    ensures |r| >= 16 && r[|r| - 1] == BatteryBadge(chargeRate) && r[|r| - 2] == '%'
  {
    var hh, mm, ss := Decimal.ZeroPad(clock.hour, 2), Decimal.ZeroPad(clock.minute, 2), Decimal.ZeroPad(clock.second, 2);
    var nnn := Decimal.ZeroPad(Rounding.Truncate(cellPercent), 3);
    hh + ":" + mm + ":" + ss + " | " + nnn + "%" + [BatteryBadge(chargeRate)]
  }

  function DigitAt(r: string, i: nat): nat
    requires i < |r| && Decimal.IsDigit(r[i])
  {
    r[i] as int - '0' as int
  }

  /** The fixed 16-character layout `DD:DD:DD | DDD%s` with `s` one of "+" and "-". */
  predicate StatusLayout(r: string) {
    && |r| == 16
    && Decimal.IsDigit(r[0]) && Decimal.IsDigit(r[1]) && Decimal.IsDigit(r[3]) && Decimal.IsDigit(r[4])
    && Decimal.IsDigit(r[6]) && Decimal.IsDigit(r[7])
    && Decimal.IsDigit(r[11]) && Decimal.IsDigit(r[12]) && Decimal.IsDigit(r[13])
    && r[2] == ':' && r[5] == ':' && r[8] == ' ' && r[9] == '|' && r[10] == ' ' && r[14] == '%'
    && (r[15] == '+' || r[15] == '-')
  }

  /** Reads a status bar of the fixed layout back into its fields. */
  function ParseStatusBar(r: string): Option<StatusReading> {
    if StatusLayout(r) then
      Some(StatusReading(
             10 * DigitAt(r, 0) + DigitAt(r, 1),
             10 * DigitAt(r, 3) + DigitAt(r, 4),
             10 * DigitAt(r, 6) + DigitAt(r, 7),
             100 * DigitAt(r, 11) + 10 * DigitAt(r, 12) + DigitAt(r, 13),
             r[15] == '+'))
    else None
  }

  /** The parser on a string already known to have the layout. */
  lemma ParseFields(r: string, hour: nat, minute: nat, second: nat, percent: nat, charging: bool)
    requires StatusLayout(r)
    requires 10 * DigitAt(r, 0) + DigitAt(r, 1) == hour
    requires 10 * DigitAt(r, 3) + DigitAt(r, 4) == minute
    requires 10 * DigitAt(r, 6) + DigitAt(r, 7) == second
    requires 100 * DigitAt(r, 11) + 10 * DigitAt(r, 12) + DigitAt(r, 13) == percent
    requires (r[15] == '+') == charging
    ensures ParseStatusBar(r) == Some(StatusReading(hour, minute, second, percent, charging))
  {
  }

  /** Where each piece of an assembled status bar lands. */
  lemma LayoutChars(r: string, hh: string, mm: string, ss: string, nnn: string, badge: char)
    requires |hh| == 2 && |mm| == 2 && |ss| == 2 && |nnn| == 3
    requires r == hh + ":" + mm + ":" + ss + " | " + nnn + "%" + [badge]
    ensures |r| == 16
    ensures r[0] == hh[0] && r[1] == hh[1] && r[2] == ':' && r[3] == mm[0] && r[4] == mm[1] && r[5] == ':'
    ensures r[6] == ss[0] && r[7] == ss[1] && r[8] == ' ' && r[9] == '|' && r[10] == ' '
    ensures r[11] == nnn[0] && r[12] == nnn[1] && r[13] == nnn[2] && r[14] == '%' && r[15] == badge
  {
    assert r == [hh[0], hh[1], ':', mm[0], mm[1], ':', ss[0], ss[1], ' ', '|', ' ', nnn[0], nnn[1], nnn[2], '%', badge];
  }

  /** A bar assembled from fixed-width digit groups reads back as their values. */
  lemma ParseLayout(r: string, hh: string, mm: string, ss: string, nnn: string, badge: char)
    requires |hh| == 2 && |mm| == 2 && |ss| == 2 && |nnn| == 3
    requires Decimal.AllDigits(hh) && Decimal.AllDigits(mm) && Decimal.AllDigits(ss) && Decimal.AllDigits(nnn)
    requires badge == '+' || badge == '-'
    requires r == hh + ":" + mm + ":" + ss + " | " + nnn + "%" + [badge]
    ensures ParseStatusBar(r) == Some(StatusReading(Decimal.Value(hh), Decimal.Value(mm), Decimal.Value(ss),
                                                    Decimal.Value(nnn), badge == '+'))
  {
    LayoutChars(r, hh, mm, ss, nnn, badge);
    ParseAt(r, hh, mm, ss, nnn, badge);
  }

  lemma ParseAt(r: string, hh: string, mm: string, ss: string, nnn: string, badge: char)
    requires |hh| == 2 && |mm| == 2 && |ss| == 2 && |nnn| == 3
    requires Decimal.AllDigits(hh) && Decimal.AllDigits(mm) && Decimal.AllDigits(ss) && Decimal.AllDigits(nnn)
    requires badge == '+' || badge == '-'
    requires |r| == 16
    requires r[0] == hh[0] && r[1] == hh[1] && r[2] == ':' && r[3] == mm[0] && r[4] == mm[1] && r[5] == ':'
    requires r[6] == ss[0] && r[7] == ss[1] && r[8] == ' ' && r[9] == '|' && r[10] == ' '
    requires r[11] == nnn[0] && r[12] == nnn[1] && r[13] == nnn[2] && r[14] == '%' && r[15] == badge
    ensures ParseStatusBar(r) == Some(StatusReading(Decimal.Value(hh), Decimal.Value(mm), Decimal.Value(ss),
                                                    Decimal.Value(nnn), badge == '+'))
  {
    assert StatusLayout(r);
    Decimal.ValueSmall(hh);
    Decimal.ValueSmall(mm);
    Decimal.ValueSmall(ss);
    Decimal.ValueSmall(nnn);
    ParseFields(r, Decimal.Value(hh), Decimal.Value(mm), Decimal.Value(ss), Decimal.Value(nnn), badge == '+');
  }

  /**
    While every field fits its width the bar is exactly 16 characters and
    reads back as the clock, the truncated percentage and whether the
    battery is charging.
   */
  lemma StatusBarRoundTrip(clock: Clock, cellPercent: real, chargeRate: real)
    requires clock.hour < 100 && clock.minute < 100 && clock.second < 100
    requires 0 <= Rounding.Truncate(cellPercent) < 1000
    ensures |StatusBar(clock, cellPercent, chargeRate)| == 16
    ensures ParseStatusBar(StatusBar(clock, cellPercent, chargeRate))
            == Some(StatusReading(clock.hour, clock.minute, clock.second,
                                  Rounding.Truncate(cellPercent), chargeRate > 0.0))
  {
    var p := Rounding.Truncate(cellPercent);
    Decimal.ZeroPadFixedWidth(clock.hour, 2);
    Decimal.ZeroPadFixedWidth(clock.minute, 2);
    Decimal.ZeroPadFixedWidth(clock.second, 2);
    assert Decimal.Pow10(3) == 1000;
    Decimal.ZeroPadFixedWidth(p, 3);
    ParseLayout(StatusBar(clock, cellPercent, chargeRate), Decimal.ZeroPad(clock.hour, 2), Decimal.ZeroPad(clock.minute, 2),
                Decimal.ZeroPad(clock.second, 2), Decimal.ZeroPad(p, 3), BatteryBadge(chargeRate));
  }

  /** One line of the hourly scene: `HH:00  <temperature>  <chance>  <condition>`. */
  function SummaryLine(e: Weather.HourEntry): (r: string)
    ensures |r| >= 7 && Decimal.AllDigits(r[..2]) && Decimal.Value(r[..2]) == e.start.hour
    ensures r[2..7] == ":00  "
    ensures r[7..] == e.temperature + "  " + e.chance + "  " + e.condition
  {
    Decimal.ZeroPadFixedWidth(e.start.hour, 2);
    var hh := Decimal.ZeroPad(e.start.hour, 2);
    var tail := e.temperature + "  " + e.chance + "  " + e.condition;
    SplitAt(hh, ":00  ");
    SplitAt(hh + ":00  ", tail);
    hh + ":00  " + tail
  }

  /** The two halves of a concatenation, recovered by slicing. */
  lemma SplitAt(a: string, b: string)
    ensures (a + b)[..|a|] == a && (a + b)[|a|..] == b
  {
  }

  /** The texts of the hourly scene, one line per forecast hour, top to bottom. */
  function HourlyScene(f: Weather.Forecast): seq<string>
  {
    seq(|f.hours|, i requires 0 <= i < |f.hours| => SummaryLine(f.hours[i]))
  }

  /**
    End to end: the hourly scene of a forecast built from a response has
    one line per input hour, in order, each opening with that hour's start
    hour in two digits and carrying its formatted temperature.
   */
  lemma HourlySceneFollowsResponse(w: Weather.WeatherResponse, f: Weather.Forecast)
    requires Weather.Build(w) == Success(f)
    ensures Weather.Shaped(w) && |HourlyScene(f)| == |Weather.HoursOf(w)|
    ensures forall i :: 0 <= i < |HourlyScene(f)| ==>
              && Weather.HasStart(Weather.HoursOf(w)[i])
              && Decimal.Value(HourlyScene(f)[i][..2]) == Weather.HoursOf(w)[i].forecastStart.value.hour
              && Formatters.Temp(Weather.Get(Weather.HoursOf(w)[i].temperature)) <= HourlyScene(f)[i][7..]
  {
    Weather.BuildHours(w, f);
  }
}
