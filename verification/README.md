# weather-charm display core, modelled in Dafny

A battery-powered weather clock with a backlit display. At boot it fetches a weather
forecast and turns the decoded response into a record of display strings.
It then loops forever: it redraws a clock-and-battery status bar, dims the
backlight when idle, light-sleeps until a one-second timer or a button
fires, and switches between the current-conditions scene and the
hourly-forecast scene on the "previous" and "next" buttons. After seven
idle minutes it deep-sleeps, which ends the program.

This project models the pure part of `code.py`:

- `wrappers.dfy` (`Wrappers`): `Option` and `Result`.
- `decimal.dfy` (`Decimal`): Python's `str(int)` and its `:0<width>`
  zero-padding format, with a parser that reads the output back.
- `rounding.dfy` (`Rounding`): Python's `round` (round half to even) and
  `int()` (truncation toward zero), on exact reals.
- `formatters.dfy` (`Formatters`): `temp`, `percent`, `speed` and
  `condition`, with the camel-case prettifier and its inverse.
- `weather.dfy` (`Weather`): the decoded response as records whose members
  are absent, null or present, and the field mapping of `Forecast.__init__`.
  It reports the exceptions the constructor raises as `Failure` values.
- `screens.dfy` (`Screens`): the status-bar text, the hourly summary line
  and the lines of the hourly scene.
- `mainloop.dfy` (`MainLoop`): one tick of the main loop as a pure
  transition `Step(state, tick)` to the next state or to deep sleep, and
  `Run` over a sequence of ticks.

`speed` multiplies by 0.6213712, the kilometre-to-mile factor, so a
reading of 10 shows "6mph" (`Formatters.FormatterExamples`). The model
keeps that factor and does not name a unit for the input.

## Model

| member | source | states |
|---|---|---|
| Decimal.Digits | code.py:91 | the numeral of a natural number is non-empty, all digits, without a leading zero except for 0 itself, and reads back as the number |
| Decimal.FromInt | code.py:91 | Python's `str` of an integer reads back as that integer, starts with "-" exactly when it is negative, and is canonical: no leading zero and no "-0" |
| Decimal.DigitsOfValue | code.py:91 | a digit string without a leading zero is exactly the numeral of its value |
| Decimal.CanonicalUnique | code.py:91 | a canonical string that reads back as n is exactly `str(n)`, so canonical form plus read-back pins the text |
| Decimal.ZeroPad | code.py:216 | the `:0<width>` format reads back as the same integer, starts with "-" exactly when it is negative, and is as long as the width or the plain numeral, whichever is longer |
| Decimal.ZeroPadFixedWidth | code.py:216-218 | a number below 10^width takes exactly `width` digits, all of them digits, with the same value |
| Rounding.Round | code.py:91 | the result lies within one half of the argument, and a tie goes to the even neighbour |
| Rounding.RoundUnique | code.py:91 | those two properties single out exactly one integer, so they are a complete reference for `round` |
| Rounding.Truncate | code.py:218 | `int()` of a real drops the fraction toward zero: below the argument by less than one for non-negatives, above it by less than one for negatives |
| Formatters.Reading | code.py:88-116 | an absent reading shows "--" then the unit; a present one shows a canonical numeral that reads back as the integer, then the unit |
| Formatters.Temp | code.py:88-91 | absent gives "--°"; present ends in "°" after a canonical numeral that reads back as round(t*1.8+32), so by `Decimal.CanonicalUnique` exactly its `str` |
| Formatters.Percent | code.py:94-97 | absent gives "--%"; present ends in "%" after a canonical numeral that reads back as round(p*100), so by `Decimal.CanonicalUnique` exactly its `str` |
| Formatters.Speed | code.py:113-116 | absent gives "--mph"; present ends in "mph" after a canonical numeral that reads back as round(s*0.6213712), so by `Decimal.CanonicalUnique` exactly its `str` |
| Formatters.PresentIsNotPlaceholder | code.py:88-116 | no present value, whatever it is, displays as the placeholder |
| Formatters.FormatterExamples | code.py:88-116 | temp(0) is "32°", temp(100) is "212°", percent(0.5) is "50%", percent(0) is "0%", speed(10) is "6mph" |
| Formatters.Prettify | code.py:104-110 | the prettified code is longer than the code by the number of upper-case letters after its first character |
| Formatters.Condition | code.py:100-110 | an absent code shows "?"; a present one grows by one character per interior upper-case letter, keeps its first character first, and gives back the code when the inserted spaces are deleted |
| Formatters.PrettifyPrefix | code.py:105-108 | the text built from a prefix of the code is a prefix of the final text, so output is only ever appended |
| Formatters.PrettifyLayout | code.py:105-108 | each character of the code appears, in order, at its computed position; the first stays at index 0; neighbours are adjacent except that exactly one space sits before each interior upper-case letter; the text ends at the last character |
| Formatters.PrettifyFirst | code.py:105-108 | the text of a non-empty code starts with the code's own first character, never an inserted space |
| Formatters.StripPrettify | code.py:104-110 | deleting every space that directly precedes an upper-case letter gives back the original code exactly |
| Formatters.PrettifyInjective | code.py:100-110 | two different codes never display alike |
| Formatters.PrettifyNoInteriorUpper | code.py:105-108 | a code with no upper-case letter after its first character is shown unchanged |
| Formatters.PrettifyAppendWord | code.py:105-108 | appending a capitalised word to a non-empty code appends one space and the word |
| Formatters.ConditionExamples | code.py:100-110 | condition(None) is "?", "Clear" stays "Clear", "PartlyCloudy" becomes "Partly Cloudy" |
| Weather.UvIndex | code.py:140 | a missing UV index shows "0UV", an explicit null shows "NoneUV", and a present value shows its canonical numeral then "UV" |
| Weather.Hours | code.py:143-151 | the hourly rows succeed exactly when every hour has a start; then there is one row per hour, in input order, each built from its own hour; otherwise the error names the first hour without a start |
| Weather.Build | code.py:134-151 | a null `currentWeather`, `forecastHourly` or `hours` raises, in that order of precedence; otherwise the build succeeds exactly when every input hour has a start, and fails at the first hour that does not |
| Weather.BuildCurrentFields | code.py:135-141 | each current-conditions string is its formatter applied to the matching member of `currentWeather` |
| Weather.MissingCurrentWeather | code.py:135-141 | a missing `currentWeather` yields "--°", "--°", "?", "--%", "0UV" and "--mph" |
| Weather.BuildHours | code.py:142-151 | the forecast has one hourly row per input hour, in order, each with that hour's start, condition, temperature and chance; no rows when `forecastHourly` or `hours` is missing |
| Screens.StatusBar | code.py:215-219 | the bar is at least 16 characters, ends in "+" exactly when the charge rate is positive ("-" otherwise), with "%" before that |
| Screens.StatusBarRoundTrip | code.py:216-219 | while the clock fields are below 100 and the truncated percentage is between 0 and 999, the bar is exactly 16 characters in the fixed layout and reads back as the clock, the truncated percentage and the charging flag |
| Screens.SummaryLine | code.py:201 | the line opens with the start hour in exactly two digits, then ":00" and two spaces, then temperature, chance and condition separated by two spaces |
| Screens.HourlySceneFollowsResponse | code.py:143-208 | for a forecast built from a response, the hourly scene has one line per input hour, and line i starts with input hour i's start hour and carries its formatted temperature |
| MainLoop.Boot | code.py:211-213 | the loop starts with the boot time as last interaction, brightness 0.5 (set at line 56) and the current-conditions scene |
| MainLoop.Dim | code.py:223-224 | the backlight goes dark exactly when it was lit and more than 10 seconds have passed; nothing else changes |
| MainLoop.Wake | code.py:233-243 | a timer wake changes nothing; any button wake sets the last interaction to the wake time and brightness to 0.5; "previous" installs current conditions, "next" installs the hourly forecast, the others keep the scene |
| MainLoop.Step | code.py:222-246 | a tick deep-sleeps exactly when more than 420 seconds have passed since the last interaction; otherwise a timer wake keeps the last interaction and scene and darkens a lit backlight after 10 idle seconds, a button wake sets the last interaction to the wake time and brightness to 0.5, "previous" selects current conditions and "next" the hourly forecast |
| MainLoop.StepKeepsBrightness | code.py:223-235 | the backlight only ever holds 0.0 or 0.5 |
| MainLoop.StepKeepsPast | code.py:233-234 | with a monotonic clock the last interaction is never later than the latest wake time |
| MainLoop.ButtonWakeRestores | code.py:233-235 | a button wake before the sleep threshold restores brightness 0.5 and resets the idle timer |
| MainLoop.TimerRunKeepsInteraction | code.py:214-243 | any run of timer-only wakes keeps the last interaction and the scene |
| MainLoop.TimerRunStaysDark | code.py:222-235 | a dark backlight stays dark across timer-only wakes |
| MainLoop.TimerRunDims | code.py:222-224 | in a timer-only run, once a tick sees more than 10 idle seconds the backlight is dark from then on |
| MainLoop.TimerRunDeepSleeps | code.py:222-246 | in a timer-only run, once a tick sees more than 420 idle seconds the run ends in deep sleep |
| MainLoop.IdleScenario | code.py:222-246 | from boot at T, a timer tick at T+11 leaves the backlight dark, and a later one at T+421 deep-sleeps |
| MainLoop.PrevFromHourly | code.py:236-239 | the previous button while the hourly scene is up brings back the current-conditions scene |

`MainLoop.Run` has no contract of its own: it is the driver over a sequence of ticks that the `MainLoop.TimerRun*` lemmas are stated over.

## Left out

- Wi-Fi connection, the HTTP session, the time-sync request and the RTC write (code.py:21-46): network and peripheral I/O.
- The weather HTTP request, `datetime.now()` for the hourly window and JSON decoding (code.py:129-134): the model starts from the decoded response.
- `datetime.fromisoformat` on `forecastStart` (code.py:145): a present start is taken as already parsed, and only its hour is kept because nothing else reads it. A malformed timestamp string, which would raise, is not modelled; an absent or null one is.
- JSON members of the wrong type, such as a string temperature, a float UV index (Python would print "3.0UV") or a non-object hour: the records give every member its expected type.
- Fuel-gauge and RTC reads (code.py:215-218): they are inputs of `Screens.StatusBar`.
- Fonts, label positions, bounding boxes, colours and the display groups (code.py:50-85, 157-208): only the texts of the status bar and the hourly lines are modelled.
- The current-conditions scene (code.py:157-193): its labels show the `Forecast` strings as they are, with "Feels like " before the apparent temperature; it adds no logic beyond `Weather.Build`, so it has no member of its own.
- Alarm objects and the light and deep sleep calls (code.py:226-232, 245-246): they become the `WakeCause` input and the `DeepSleep` outcome. The one-second deadline of the timer alarm does not constrain `wokeAt`.
- MainLoop.Step: the script reads `time.monotonic()` separately for the sleep check and the dim check (code.py:222-223); the model uses one reading `now` for both.
- Formatters.Temp: computes on exact reals. The board runs CircuitPython, whose floats are single precision, so a result at or within float error of a .5 boundary can round differently; the contract holds for exact real arithmetic only.
- Formatters.Percent: the same exact-real caveat as `Formatters.Temp`.
- Formatters.Speed: the same exact-real caveat as `Formatters.Temp`.
- Rounding.Round: rounds exact reals half to even; CircuitPython rounds a single-precision float, whose value can sit on the other side of a .5 boundary from the exact result.
- `str.isupper` is modelled as ASCII 'A'..'Z' only; other cased Unicode letters are not.
- tools/gentoken.py: an offline token-signing script built on a JWT library, not part of the device core.
