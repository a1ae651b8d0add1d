# Coordinate parser of Sound Speed Manager's Qt callbacks

This project is a Dafny model of the routines that turn a latitude or a
longitude typed by the user into signed decimal degrees, in
`hyo/soundspeedmanager/qt_callbacks.py`:

- `dms2dd` converts degrees, minutes and seconds, with an optional
  hemisphere letter, to decimal degrees.
- `dm2dd` does the same for degrees and minutes.
- `interpret_latitude` and `interpret_longitude` parse the typed text:
  1. they cut the text with `re.split('[^\d\w.-]+', text)`;
  2. they classify the pieces by their number (1 to 4) and by their last
     piece, into nine forms (DD, DDH, DD H, DM, DMH, DM H, DMS, DMSH,
     DMS H);
  3. they hand the numbers to `float`, `dm2dd` or `dms2dd`;
  4. they turn every exception into `None`, and then every value outside
     [-90, 90] (latitude) or [-180, 180] (longitude) into `None`.

The routines are pure, so the model is made of datatypes, functions and
lemmas. It has five modules:

- `Outcomes` (`outcomes.dfy`): `Option`, and `Call`, which is either a
  returned value or a raised exception. `Caught` is the `except Exception`
  that turns an exception into `None`.
- `PyText` (`pytext.dfy`): `re.split` with the pattern above, as `Split`.
  `Interleave` puts the pieces and the separator runs between them back
  together. The blank-joined text `Join` is used to state that splitting
  gives the typed fields back.
- `PyFloat` (`pyfloat.dfy`): Python's `float` on decimal texts, as
  `ParseFloat` over exact reals. `IsDecimalText` is a separate grammar of
  the texts it accepts. `FormatDecimal` is the decimal text of a value with
  a fixed number of fraction digits.
- `QtCallbacks` (`qt_callbacks.dfy`): `dm2dd`, `dms2dd`, the nine forms,
  the classification and the two entry points. Both entry points share one
  function, `Interpret`, which takes the axis (`Latitude` or `Longitude`)
  to supply its hemisphere letters and its bound.
- `CoordinateExamples` (`coordinate_examples.dfy`): concrete inputs and
  their readings, each derived from the general lemmas. Each example text
  is written as its fields concatenated (`"122" + " " + "30" + " " + "W"`
  is the text `122 30 W`).

The model keeps the quirks of the code:

- Only `dm2dd` and `dms2dd` refuse a minus sign together with `S` or `W`.
  The degree-only forms negate whatever number comes before the letter, so
  `-45S` and `-45 S` both read as 45.
- `-0` is not negative, so `-0 30` reads as +0.5.
- `dms2dd` range-checks the minutes before it converts the seconds. Minutes
  out of range give `None` even when the seconds are not a number.
- `re.split` never returns an empty list. The empty text gives one empty
  piece, and a separator at the start or end of the text gives an empty
  first or last piece. An empty number piece makes `float` raise, and an
  empty last piece makes `token[-1]` raise. So the empty text, and any text
  that starts or ends with a separator (`45 N `, ` 45`), reads as `None`.
- `\w` also matches `_`, so `_` is a token character.

## Model

| member | source | states |
|---|---|---|
| QtCallbacks.DmToDecimal | hyo/soundspeedmanager/qt_callbacks.py:81-101 | `dm2dd` after both numbers are floats. The result is None exactly when the minutes are outside [0, 60] or negative degrees meet W/S. Otherwise its magnitude is \|degrees\| + minutes/60. It is non-positive when the degrees are negative or the direction is W/S, and non-negative otherwise. |
| QtCallbacks.DmsToDecimal | hyo/soundspeedmanager/qt_callbacks.py:51-76 | `dms2dd` after the three numbers are floats. The result is None exactly when the minutes or seconds are outside [0, 60], or negative degrees meet W/S. Otherwise its magnitude is \|degrees\| + minutes/60 + seconds/3600, with the same sign rule as `dm2dd`. |
| QtCallbacks.DmIsDmsWithoutSeconds | hyo/soundspeedmanager/qt_callbacks.py:49-101 | `dm2dd` gives the same result as `dms2dd` with zero seconds, for every input. |
| QtCallbacks.Dm2dd | hyo/soundspeedmanager/qt_callbacks.py:79-101 | `dm2dd` on texts raises exactly when the degrees or the minutes are not a number. Otherwise it returns the arithmetic result on their values. |
| QtCallbacks.Dms2dd | hyo/soundspeedmanager/qt_callbacks.py:49-76 | `dms2dd` on texts raises exactly when the degrees or minutes are not a number, or the minutes are in range and the seconds are not a number. Out-of-range minutes give None before the seconds are read. |
| PyText.Split | hyo/soundspeedmanager/qt_callbacks.py:108 | `re.split` always gives at least one piece. Every piece is free of separators, and only the first and last pieces can be empty. There is one piece exactly when the text has no separator, and then the piece is the text. The first piece is empty exactly when the text is empty or starts with a separator. |
| PyText.SplitCutsAtRuns | hyo/soundspeedmanager/qt_callbacks.py:108 | `re.split` cuts the text at every separator run. Between every two neighbouring pieces there is a non-empty run of separators, and the pieces with those runs put back in order are the text. Since no piece holds a separator, each run is maximal. |
| PyText.SplitLast | hyo/soundspeedmanager/qt_callbacks.py:108 | The last piece is empty exactly when the text is empty or ends with a separator. |
| PyText.SplitKeepsTokenChars | hyo/soundspeedmanager/qt_callbacks.py:108 | The pieces laid end to end are exactly the text's token characters, in order: splitting drops only separators. |
| PyText.SplitJoin | hyo/soundspeedmanager/qt_callbacks.py:108 | For every list of pieces that `re.split` can produce, splitting the pieces joined by single blanks gives the list back. |
| PyFloat.ParseFloat | hyo/soundspeedmanager/qt_callbacks.py:51-52 | `float` succeeds only on a non-empty text of digits, `-` and `.`. A negative value needs a leading minus sign. |
| PyFloat.ParseFloatAccepts | hyo/soundspeedmanager/qt_callbacks.py:51-52 | `float` returns exactly on the decimal texts: an optional `-`, then digits with an optional `.` and more digits, with at least one digit in all. It raises on every other text, such as `-`, `.`, `--5`, `1-2`, `1.2.3` and the empty text. Both directions are proved. |
| PyFloat.ParseFloatValue | hyo/soundspeedmanager/qt_callbacks.py:51-52 | The value of every decimal text is whole + fraction/10^(number of fraction digits), negated after a leading `-`. A missing whole or fraction part counts as zero. |
| PyFloat.ParseFormatDecimal | hyo/soundspeedmanager/qt_callbacks.py:128 | `float` of the decimal text of x/10^k, written with k fraction digits, is exactly x/10^k, for every integer x and every k. |
| QtCallbacks.Classify | hyo/soundspeedmanager/qt_callbacks.py:111-182 | The branching on the token count raises (`token[-1]` of an empty token) exactly when there are one to three tokens and the last is empty. It selects no form exactly when there are no tokens, more than four, or four whose last is not a hemisphere letter. A selected form's tokens are the pieces it was selected from. `ClassifyTokens` states which forms it selects. |
| QtCallbacks.Convert | hyo/soundspeedmanager/qt_callbacks.py:117-174 | A branch returns only when `float` accepts the degree text. The degree-only branches raise exactly when the degrees are not a number. Otherwise they return the number, with its sign changed at most, and DD returns it unchanged. The minute and second branches raise exactly when `dm2dd` or `dms2dd` does. `InterpretByForm` ties each branch to the whole parser. |
| QtCallbacks.Attempt | hyo/soundspeedmanager/qt_callbacks.py:106-186 | The `try` block with its `except` returns a value only for texts cut into one to four pieces, whose first and last pieces are non-empty. |
| QtCallbacks.ClassifyTokens | hyo/soundspeedmanager/qt_callbacks.py:113-182 | On every list `re.split` can produce, the branching on the token count and the last token selects a form exactly when the list is that well-formed form's tokens. Both directions are proved. |
| QtCallbacks.ClassifiedIsWellFormed | hyo/soundspeedmanager/qt_callbacks.py:113-182 | Every form the branching selects is well formed, and its tokens are the pieces it was selected from. |
| QtCallbacks.WellFormedIsClassified | hyo/soundspeedmanager/qt_callbacks.py:113-182 | The branching selects every well-formed form from that form's own tokens. |
| QtCallbacks.WithinBounds | hyo/soundspeedmanager/qt_callbacks.py:188-192 | The final check keeps a value exactly when it lies in [-bound, bound] inclusive, and keeps it unchanged. |
| QtCallbacks.Interpret | hyo/soundspeedmanager/qt_callbacks.py:104-195 | Every value the shared parser returns lies within the axis' bound. |
| QtCallbacks.InterpretLatitude | hyo/soundspeedmanager/qt_callbacks.py:104-195 | Every value `interpret_latitude` returns lies in [-90, 90]. |
| QtCallbacks.InterpretLongitude | hyo/soundspeedmanager/qt_callbacks.py:198-290 | Every value `interpret_longitude` returns lies in [-180, 180]. |
| QtCallbacks.InterpretByForm | hyo/soundspeedmanager/qt_callbacks.py:106-192 | A text whose pieces are a well-formed form's tokens reads as that form's branch (with any exception caught), followed by the range check. |
| QtCallbacks.InterpretAccepted | hyo/soundspeedmanager/qt_callbacks.py:106-192 | Every accepted text has one of the nine shapes, and its value is the one that shape's branch computes. |
| QtCallbacks.InterpretRejectsShape | hyo/soundspeedmanager/qt_callbacks.py:108-186 | The result is None for any of these texts: more than four pieces; four pieces whose last is not a hemisphere letter; the empty text; a text that starts with a separator; a text that ends with a separator. |
| QtCallbacks.EmptyDegreesRejected | hyo/soundspeedmanager/qt_callbacks.py:119-128 | A form whose degree text is empty fails, because `float("")` raises. |
| QtCallbacks.BareDecimalReadBack | hyo/soundspeedmanager/qt_callbacks.py:126-128 | A lone number text that `float` reads as an in-range value reads back as that value. |
| QtCallbacks.DecimalRoundTrip | hyo/soundspeedmanager/qt_callbacks.py:126-128 | Every in-range value x/10^k, typed with k fraction digits, is read back exactly. |
| QtCallbacks.GluedDegrees | hyo/soundspeedmanager/qt_callbacks.py:117-124 | A number with a hemisphere letter glued on (DDH) reads as the number, negated for S/W, and then range-checked. |
| QtCallbacks.SeparateDegrees | hyo/soundspeedmanager/qt_callbacks.py:130-137 | A number followed by a hemisphere token (DD H) reads as the number, negated for S/W, and then range-checked. |
| QtCallbacks.DegreeFormsNegateUnchecked | hyo/soundspeedmanager/qt_callbacks.py:117-137 | The degree-only forms have no contradiction check. A negative number with S/W glued on or as a separate token reads as the positive value. |
| QtCallbacks.MinuteFormsRefuseDoubleNegative | hyo/soundspeedmanager/qt_callbacks.py:88-93 | Negative degrees with minutes and a negative letter (glued or separate) read as None. |
| QtCallbacks.InterpretDmGlued | hyo/soundspeedmanager/qt_callbacks.py:141-144 | Degrees, then minutes with a hemisphere letter glued on (DMH), read as `dm2dd` with that letter, range-checked. |
| QtCallbacks.InterpretDm | hyo/soundspeedmanager/qt_callbacks.py:146-148 | Two numbers (DM) read as `dm2dd` without a direction, range-checked. |
| QtCallbacks.InterpretDmWithHemisphere | hyo/soundspeedmanager/qt_callbacks.py:152-155 | Degrees, minutes and a hemisphere token (DM H) read as `dm2dd` with that letter, range-checked. |
| QtCallbacks.InterpretDmsGlued | hyo/soundspeedmanager/qt_callbacks.py:159-162 | Degrees, minutes, then seconds with a hemisphere letter glued on (DMSH), read as `dms2dd` with that letter, range-checked. |
| QtCallbacks.InterpretDms | hyo/soundspeedmanager/qt_callbacks.py:164-167 | Three numbers (DMS) read as `dms2dd` without a direction, range-checked. |
| QtCallbacks.InterpretDmsWithHemisphere | hyo/soundspeedmanager/qt_callbacks.py:171-174 | Degrees, minutes, seconds and a hemisphere token (DMS H) read as `dms2dd` with that letter, range-checked. |
| CoordinateExamples.NorthGlued | hyo/soundspeedmanager/qt_callbacks.py:119-124 | `45N` reads as latitude 45. |
| CoordinateExamples.SouthGlued | hyo/soundspeedmanager/qt_callbacks.py:119-124 | `45S` reads as latitude -45. |
| CoordinateExamples.DoubleNegativeDegrees | hyo/soundspeedmanager/qt_callbacks.py:119-137 | `-45S` and `-45 S` both read as latitude 45. |
| CoordinateExamples.DoubleNegativeMinutes | hyo/soundspeedmanager/qt_callbacks.py:237-251 | `-122 30W` and `-122 30 W` both read as None for longitude. |
| CoordinateExamples.WesternMinutes | hyo/soundspeedmanager/qt_callbacks.py:248-251 | `122 30 W` reads as longitude -122.5. |
| CoordinateExamples.NorthernSeconds | hyo/soundspeedmanager/qt_callbacks.py:171-174 | `40 26 46 N` reads as latitude 40 + 26/60 + 46/3600. |
| CoordinateExamples.MinutesOutOfRange | hyo/soundspeedmanager/qt_callbacks.py:82-85 | `45 75` reads as None, because the minutes exceed 60. |
| CoordinateExamples.LatitudeOutOfRange | hyo/soundspeedmanager/qt_callbacks.py:188-192 | `95N` reads as None, because the value is out of range. |
| CoordinateExamples.MinusZeroDegrees | hyo/soundspeedmanager/qt_callbacks.py:86-99 | `-0 30` reads as +0.5, because `-0` is not negative. |
| CoordinateExamples.EmptyRefused | hyo/soundspeedmanager/qt_callbacks.py:117-119 | The empty text reads as None. |
| CoordinateExamples.FiveTokensRefused | hyo/soundspeedmanager/qt_callbacks.py:180-182 | `1 2 3 4 5` reads as None. |
| CoordinateExamples.OuterSeparatorsRefused | hyo/soundspeedmanager/qt_callbacks.py:108-186 | `45 N ` and ` 45` read as None. |
| CoordinateExamples.LoneSignOrDotRaises | hyo/soundspeedmanager/qt_callbacks.py:126-128 | `float` raises on `-` and on `.`. |
| CoordinateExamples.MisplacedSignRaises | hyo/soundspeedmanager/qt_callbacks.py:126-128 | `float` raises on `--5` and on `1-2`. |
| CoordinateExamples.SecondDotRaises | hyo/soundspeedmanager/qt_callbacks.py:126-128 | `float` raises on `1.2.3`. |
| CoordinateExamples.ReadsPointFive | hyo/soundspeedmanager/qt_callbacks.py:126-128 | `float(".5")` is 0.5. |
| CoordinateExamples.ReadsFivePoint | hyo/soundspeedmanager/qt_callbacks.py:126-128 | `float("5.")` is 5. |
| CoordinateExamples.ReadsLeadingZeros | hyo/soundspeedmanager/qt_callbacks.py:126-128 | `float("007")` is 7. |
| CoordinateExamples.LetterAlone | hyo/soundspeedmanager/qt_callbacks.py:119-122 | `N` alone reads as None, because there is no number before the letter. |

## Left out

- The Qt dialogs and message boxes of `QtCallbacks` (`ask_number`, `ask_text`, `ask_formatted_text`, `ask_filename`, `ask_directory`, `ask_tss`, `ask_draft`, `ask_location_from_sis`, `msg_*`) are user-interface glue and are not part of this model.
- `ask_location` is not part of this model. Its retry loops, its `QSettings` persistence and its defaults from the SIS listener are interactive and use external state. The model covers the parser it calls.
- `ask_date` is not part of this model. It is interactive, and its logic lies in `datetime.strptime` and `timedelta`.
- `hydroffice/soundspeedmanager/widgets/database.py` and `examples/workground/ex_basemap.py` are widgets and plotting over external libraries, and are not part of this model.
- Logging calls have no effect on the result and are left out.
- PyFloat.ParseFloat: it accepts only an optional `-`, digits, and an optional `.` with digits, with at least one digit. Python's `float` also accepts exponents (`1e1`), `inf`, `nan`, `infinity`, underscores between digits and non-ASCII digits. The model reads those as a conversion failure. So it gives `None` where the source returns a value, including `nan`, which slips through the range check because both comparisons with NaN are false. (`+` and white space can never reach `float`, because they are separators.)
- QtCallbacks.DmToDecimal, QtCallbacks.DmsToDecimal: the arithmetic is exact real arithmetic. IEEE double rounding of `/ 60`, `/ 3600` and of the parsed value is not modelled.
- PyText.Split: Python 3's `\w` on a `str` also matches non-ASCII letters and digits. The model treats only ASCII letters, digits and `_` as word characters, so a non-ASCII letter acts as a separator.
- Calls with a non-string argument, which raise and then read as `None`, are not modelled. The model's input is a string.
- `token.strip()` is modelled as the identity. White space is a separator, so no piece contains any.
