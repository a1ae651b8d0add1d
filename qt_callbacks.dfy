/** The geographic coordinate parser of the Qt callbacks: `dm2dd`, `dms2dd`,
    `interpret_latitude` and `interpret_longitude`.

    A latitude or longitude typed by the user is cut into tokens, the
    tokens are classified into one of nine shapes (degrees, degrees and
    minutes, degrees minutes and seconds, each bare, with a hemisphere
    letter glued to the last number, or with the letter as a token of its
    own), the numbers are converted to signed decimal degrees, and the
    result is kept only when it lies within the axis' range. Every failure,
    including any exception raised on the way, gives None. */
module QtCallbacks {
  import opened Outcomes
  import opened PyText
  import opened PyFloat

  /** Python's `abs` on a float. */
  function Abs(x: real): real {
    if x < 0.0 then -x else x
  }

  /** `direction in ['W', 'S']`: the hemisphere letters that make a
      coordinate negative, whatever the axis. */
  predicate IsNegativeDirection(direction: string) {
    direction == "W" || direction == "S"
  }

  // ---------------------------------------------------------------------
  // dm2dd and dms2dd
  // ---------------------------------------------------------------------

  /** The arithmetic of `dm2dd` once both numbers are floats: minutes
      outside [0, 60] and a negative degree value together with a negative
      direction give None; otherwise the magnitude is `|degrees| +
      minutes / 60`, negative when the degrees are negative or the
      direction is W or S. */
  function DmToDecimal(deg: real, min: real, direction: string): (r: Option<real>)
    ensures r.None? <==> min < 0.0 || min > 60.0 || (deg < 0.0 && IsNegativeDirection(direction))
    ensures r.Some? ==> Abs(r.value) == Abs(deg) + min / 60.0
    ensures r.Some? && (deg < 0.0 || IsNegativeDirection(direction)) ==> r.value <= 0.0
    ensures r.Some? && !(deg < 0.0 || IsNegativeDirection(direction)) ==> r.value >= 0.0
  {
    if min > 60.0 || min < 0.0 then None
    else
      var negDeg := deg < 0.0;
      var dd := Abs(deg) + min / 60.0;
      if negDeg && IsNegativeDirection(direction) then None
      else
        var dd' := if negDeg then -dd else dd;
        Some(if IsNegativeDirection(direction) then -dd' else dd')
  }

  /** The arithmetic of `dms2dd` once the three numbers are floats: as
      `DmToDecimal`, with seconds also confined to [0, 60] and adding
      `seconds / 3600` to the magnitude. */
  function DmsToDecimal(deg: real, min: real, sec: real, direction: string): (r: Option<real>)
    ensures r.None? <==>
      || min < 0.0 || min > 60.0 || sec < 0.0 || sec > 60.0
      || (deg < 0.0 && IsNegativeDirection(direction))
    ensures r.Some? ==> Abs(r.value) == Abs(deg) + min / 60.0 + sec / 3600.0
    ensures r.Some? && (deg < 0.0 || IsNegativeDirection(direction)) ==> r.value <= 0.0
    ensures r.Some? && !(deg < 0.0 || IsNegativeDirection(direction)) ==> r.value >= 0.0
  {
    if min > 60.0 || min < 0.0 then None
    else if sec > 60.0 || sec < 0.0 then None
    else
      var negDeg := deg < 0.0;
      var dd := Abs(deg) + min / 60.0 + sec / (60.0 * 60.0);
      if negDeg && IsNegativeDirection(direction) then None
      else
        var dd' := if negDeg then -dd else dd;
        Some(if IsNegativeDirection(direction) then -dd' else dd')
  }

  /** Degrees and minutes are degrees, minutes and zero seconds. */
  lemma DmIsDmsWithoutSeconds(deg: real, min: real, direction: string)
    ensures DmToDecimal(deg, min, direction) == DmsToDecimal(deg, min, 0.0, direction)
  {
  }

  /** `dm2dd(degrees, minutes, direction)`: `float` raises on a component
      that is not a number; otherwise the result is that of the
      arithmetic. */
  function Dm2dd(degrees: string, minutes: string, direction: string): (r: Call<Option<real>>)
    ensures r.Raises? <==> ParseFloat(degrees).None? || ParseFloat(minutes).None?
    ensures r.Returns? ==>
      r.value == DmToDecimal(ParseFloat(degrees).value, ParseFloat(minutes).value, direction)
  {
    match ParseFloat(degrees)
    case None => Raises
    case Some(deg) =>
      match ParseFloat(minutes)
      case None => Raises
      case Some(min) => Returns(DmToDecimal(deg, min, direction))
  }

  /** `dms2dd(degrees, minutes, seconds, direction)`: the minutes are
      range-checked before the seconds are converted, so out-of-range
      minutes give None even when the seconds are not a number. */
  function Dms2dd(degrees: string, minutes: string, seconds: string, direction: string)
    : (r: Call<Option<real>>)
    ensures r.Raises? <==>
      || ParseFloat(degrees).None?
      || ParseFloat(minutes).None?
      || (0.0 <= ParseFloat(minutes).value <= 60.0 && ParseFloat(seconds).None?)
    ensures r.Returns? && ParseFloat(seconds).Some? ==>
      r.value == DmsToDecimal(ParseFloat(degrees).value, ParseFloat(minutes).value,
                              ParseFloat(seconds).value, direction)
    ensures r.Returns? && ParseFloat(seconds).None? ==> r.value.None?
  {
    match ParseFloat(degrees)
    case None => Raises
    case Some(deg) =>
      match ParseFloat(minutes)
      case None => Raises
      case Some(min) =>
        if min > 60.0 || min < 0.0 then Returns(None)
        else
          match ParseFloat(seconds)
          case None => Raises
          case Some(sec) => Returns(DmsToDecimal(deg, min, sec, direction))
  }

  // ---------------------------------------------------------------------
  // The two axes
  // ---------------------------------------------------------------------

  /** `interpret_latitude` and `interpret_longitude` differ only in their
      hemisphere letters and their bound. */
  datatype Axis = Latitude | Longitude

  /** The letter of the positive hemisphere: N or E. */
  function Positive(axis: Axis): char {
    match axis
    case Latitude => 'N'
    case Longitude => 'E'
  }

  /** The letter of the negative hemisphere: S or W. */
  function Negative(axis: Axis): char {
    match axis
    case Latitude => 'S'
    case Longitude => 'W'
  }

  /** Results must lie in [-Bound, Bound]. */
  function Bound(axis: Axis): real {
    match axis
    case Latitude => 90.0
    case Longitude => 180.0
  }

  /** `token[-1] in ["N", "S"]` (or `["E", "W"]`). */
  predicate IsHemisphere(axis: Axis, c: char) {
    c == Positive(axis) || c == Negative(axis)
  }

  /** `token.strip() in ["N", "S"]` (or `["E", "W"]`). Tokens never hold
      white space (it is a separator), so `strip` leaves them unchanged. */
  predicate IsHemisphereToken(axis: Axis, t: string) {
    t == [Positive(axis)] || t == [Negative(axis)]
  }

  // ---------------------------------------------------------------------
  // Classification of the tokens
  // ---------------------------------------------------------------------

  /** The nine shapes of input, named as in the source: D degrees, M
      minutes, S seconds, H a hemisphere letter glued to the last number,
      ` H` a hemisphere letter as a token of its own. The number fields
      hold the text handed to `float`. */
  datatype Form =
    | DD(deg: string)
    | DDH(deg: string, letter: char)
    | DD_H(deg: string, hemisphere: string)
    | DM(deg: string, min: string)
    | DMH(deg: string, min: string, letter: char)
    | DM_H(deg: string, min: string, hemisphere: string)
    | DMS(deg: string, min: string, sec: string)
    | DMSH(deg: string, min: string, sec: string, letter: char)
    | DMS_H(deg: string, min: string, sec: string, hemisphere: string)

  /** All but the last character: `token[0:-1]`. */
  function AllButLast(t: string): string
    requires t != []
  {
    t[..|t| - 1]
  }

  /** The last character: `token[-1]`. */
  function Last(t: string): char
    requires t != []
  {
    t[|t| - 1]
  }

  /** The branching of `interpret_latitude` / `interpret_longitude` on the
      number of tokens and on their last token. `Raises` is the IndexError
      of `token[-1]` on an empty token; `Returns(None)` is a token count
      outside 1..4, or four tokens whose last one is not a hemisphere
      letter. */
  function Classify(axis: Axis, ts: seq<string>): (r: Call<Option<Form>>)
    ensures r.Raises? <==> 1 <= |ts| <= 3 && ts[|ts| - 1] == []
    ensures r == Returns(None) <==>
      |ts| == 0 || |ts| > 4 || (|ts| == 4 && !IsHemisphereToken(axis, ts[3]))
    ensures r.Returns? && r.value.Some? ==> Tokens(r.value.value) == ts
  {
    if |ts| == 0 then Returns(None)
    else if |ts| == 1 then
      if ts[0] == [] then Raises
      else if IsHemisphere(axis, Last(ts[0])) then
        assert AllButLast(ts[0]) + [Last(ts[0])] == ts[0];
        Returns(Some(DDH(AllButLast(ts[0]), Last(ts[0]))))
      else Returns(Some(DD(ts[0])))
    else if |ts| == 2 then
      if IsHemisphereToken(axis, ts[1]) then Returns(Some(DD_H(ts[0], ts[1])))
      else if ts[1] == [] then Raises
      else if IsHemisphere(axis, Last(ts[1])) then
        assert AllButLast(ts[1]) + [Last(ts[1])] == ts[1];
        Returns(Some(DMH(ts[0], AllButLast(ts[1]), Last(ts[1]))))
      else Returns(Some(DM(ts[0], ts[1])))
    else if |ts| == 3 then
      if IsHemisphereToken(axis, ts[2]) then Returns(Some(DM_H(ts[0], ts[1], ts[2])))
      else if ts[2] == [] then Raises
      else if IsHemisphere(axis, Last(ts[2])) then
        assert AllButLast(ts[2]) + [Last(ts[2])] == ts[2];
        Returns(Some(DMSH(ts[0], ts[1], AllButLast(ts[2]), Last(ts[2]))))
      else Returns(Some(DMS(ts[0], ts[1], ts[2])))
    else if |ts| == 4 then
      if IsHemisphereToken(axis, ts[3]) then Returns(Some(DMS_H(ts[0], ts[1], ts[2], ts[3])))
      else Returns(None)
    else Returns(None)
  }

  /** The tokens a form is made of: the inverse of `Classify`. */
  function Tokens(f: Form): seq<string> {
    match f
    case DD(d) => [d]
    case DDH(d, h) => [d + [h]]
    case DD_H(d, h) => [d, h]
    case DM(d, m) => [d, m]
    case DMH(d, m, h) => [d, m + [h]]
    case DM_H(d, m, h) => [d, m, h]
    case DMS(d, m, s) => [d, m, s]
    case DMSH(d, m, s, h) => [d, m, s + [h]]
    case DMS_H(d, m, s, h) => [d, m, s, h]
  }

  /** The forms `Classify` can produce: number fields free of separators,
      the fields after the first non-empty (`re.split` leaves only the
      first and the last token possibly empty, and the last one is indexed),
      hemisphere letters of the axis, and a bare last number that does not
      end in a hemisphere letter (or it would have been read as one). */
  predicate WellFormed(axis: Axis, f: Form) {
    && IsTokenText(f.deg)
    && (!f.DD? && !f.DDH? && !f.DD_H? ==> IsTokenText(f.min) && f.min != [])
    && (f.DMS? || f.DMSH? || f.DMS_H? ==> IsTokenText(f.sec) && f.sec != [])
    && (f.DDH? || f.DMH? || f.DMSH? ==> IsHemisphere(axis, f.letter))
    && (f.DD_H? || f.DM_H? || f.DMS_H? ==> IsHemisphereToken(axis, f.hemisphere))
    && (f.DD? ==> f.deg != [] && !IsHemisphere(axis, Last(f.deg)))
    && (f.DM? ==> !IsHemisphere(axis, Last(f.min)))
    && (f.DMS? ==> !IsHemisphere(axis, Last(f.sec)))
  }

  /** On the tokens `re.split` can produce, `Classify` yields a form
      exactly when the tokens are that well-formed form's tokens. */
  lemma ClassifyTokens(axis: Axis, ts: seq<string>, f: Form)
    requires IsSplitShape(ts)
    ensures Classify(axis, ts) == Returns(Some(f)) <==> WellFormed(axis, f) && Tokens(f) == ts
  {
    if Classify(axis, ts) == Returns(Some(f)) {
      ClassifiedIsWellFormed(axis, ts, f);
    }
    if WellFormed(axis, f) && Tokens(f) == ts {
      WellFormedIsClassified(axis, f);
    }
  }

  lemma ClassifiedIsWellFormed(axis: Axis, ts: seq<string>, f: Form)
    requires IsSplitShape(ts)
    requires Classify(axis, ts) == Returns(Some(f))
    ensures WellFormed(axis, f) && Tokens(f) == ts
  {
    assert IsTokenText(ts[0]);
    if |ts| >= 3 {
      assert ts[1] != [] && IsTokenText(ts[1]);
    }
    if |ts| == 4 {
      assert ts[2] != [] && IsTokenText(ts[2]);
    }
    var t := ts[|ts| - 1];
    assert IsTokenText(t);
    if f.DDH? || f.DMH? || f.DMSH? {
      GluedLetter(axis, t, |ts| > 1);
    }
  }

  /** A last token that ends in a hemisphere letter, and is not that letter
      alone when it follows other tokens, is a number text and the letter. */
  lemma GluedLetter(axis: Axis, t: string, notAlone: bool)
    requires IsTokenText(t) && t != [] && IsHemisphere(axis, Last(t))
    requires notAlone ==> !IsHemisphereToken(axis, t)
    ensures t == AllButLast(t) + [Last(t)]
    ensures IsTokenText(AllButLast(t))
    ensures notAlone ==> AllButLast(t) != []
  {
    forall i | 0 <= i < |t| - 1 ensures IsTokenChar(AllButLast(t)[i]) {
      assert AllButLast(t)[i] == t[i];
    }
  }

  lemma WellFormedIsClassified(axis: Axis, f: Form)
    requires WellFormed(axis, f)
    ensures Classify(axis, Tokens(f)) == Returns(Some(f))
  {
    match f
    case DD(d) =>
    case DDH(d, h) =>
      assert AllButLast(d + [h]) == d && Last(d + [h]) == h;
    case DD_H(d, h) =>
    case DM(d, m) =>
      assert !IsHemisphereToken(axis, m);
    case DMH(d, m, h) =>
      GluedNotAlone(axis, m, h);
    case DM_H(d, m, h) =>
    case DMS(d, m, s) =>
      assert !IsHemisphereToken(axis, s);
    case DMSH(d, m, s, h) =>
      GluedNotAlone(axis, s, h);
    case DMS_H(d, m, s, h) =>
  }

  /** A non-empty number with a letter glued to it is not a hemisphere
      token, and splits back into the number and the letter. */
  lemma GluedNotAlone(axis: Axis, u: string, h: char)
    requires u != []
    ensures !IsHemisphereToken(axis, u + [h])
    ensures AllButLast(u + [h]) == u && Last(u + [h]) == h
  {
    assert |u + [h]| >= 2;
  }


  // ---------------------------------------------------------------------
  // Conversion and the entry points
  // ---------------------------------------------------------------------

  /** The branch taken for each form. The degree-only forms call `float`
      and negate for the negative hemisphere letter, without the
      contradiction check of `dm2dd` and `dms2dd`. */
  function Convert(axis: Axis, f: Form): (r: Call<Option<real>>)
    ensures r.Returns? ==> ParseFloat(f.deg).Some?
    ensures f.DD? || f.DDH? || f.DD_H? ==>
      && (r.Raises? <==> ParseFloat(f.deg).None?)
      && (r.Returns? ==> r.value.Some? && Abs(r.value.value) == Abs(ParseFloat(f.deg).value))
    ensures f.DD? && r.Returns? ==> r.value == ParseFloat(f.deg)
    ensures f.DM? || f.DMH? || f.DM_H? ==>
      (r.Raises? <==> ParseFloat(f.deg).None? || ParseFloat(f.min).None?)
    ensures f.DMS? || f.DMSH? || f.DMS_H? ==>
      (r.Raises? <==>
        || ParseFloat(f.deg).None?
        || ParseFloat(f.min).None?
        || (0.0 <= ParseFloat(f.min).value <= 60.0 && ParseFloat(f.sec).None?))
  {
    match f
    case DD(d) =>
      (match ParseFloat(d)
       case None => Raises
       case Some(v) => Returns(Some(v)))
    case DDH(d, h) =>
      (match ParseFloat(d)
       case None => Raises
       case Some(v) => Returns(Some(if h == Negative(axis) then -v else v)))
    case DD_H(d, h) =>
      (match ParseFloat(d)
       case None => Raises
       case Some(v) => Returns(Some(if h == [Negative(axis)] then -v else v)))
    case DM(d, m) => Dm2dd(d, m, "")
    case DMH(d, m, h) => Dm2dd(d, m, [h])
    case DM_H(d, m, h) => Dm2dd(d, m, h)
    case DMS(d, m, s) => Dms2dd(d, m, s, "")
    case DMSH(d, m, s, h) => Dms2dd(d, m, s, [h])
    case DMS_H(d, m, s, h) => Dms2dd(d, m, s, h)
  }

  /** The `try` block with its `except Exception: ... = None`. */
  function Attempt(axis: Axis, s: string): (r: Option<real>)
    ensures r.Some? ==>
      var ts := Split(s);
      1 <= |ts| <= 4 && ts[0] != [] && ts[|ts| - 1] != []
  {
    match Classify(axis, Split(s))
    case Raises => None
    case Returns(None) => None
    case Returns(Some(f)) => Caught(Convert(axis, f))
  }

  /** The final range check: a value outside [-Bound, Bound] becomes None. */
  function WithinBounds(axis: Axis, o: Option<real>): (r: Option<real>)
    ensures r.Some? <==> o.Some? && -Bound(axis) <= o.value <= Bound(axis)
    ensures r.Some? ==> r.value == o.value
  {
    match o
    case None => None
    case Some(v) => if v < -Bound(axis) || v > Bound(axis) then None else Some(v)
  }

  /** The common body of `interpret_latitude` and `interpret_longitude`. */
  function Interpret(axis: Axis, s: string): (r: Option<real>)
    ensures r.Some? ==> -Bound(axis) <= r.value <= Bound(axis)
  {
    WithinBounds(axis, Attempt(axis, s))
  }

  /** `interpret_latitude(str_value)`. */
  function InterpretLatitude(s: string): (r: Option<real>)
    ensures r.Some? ==> -90.0 <= r.value <= 90.0
  {
    Interpret(Latitude, s)
  }

  /** `interpret_longitude(str_value)`. */
  function InterpretLongitude(s: string): (r: Option<real>)
    ensures r.Some? ==> -180.0 <= r.value <= 180.0
  {
    Interpret(Longitude, s)
  }

  // ---------------------------------------------------------------------
  // Properties of the entry points
  // ---------------------------------------------------------------------

  /** Every well-formed form is the split of its tokens joined by blanks. */
  lemma JoinedForm(axis: Axis, f: Form)
    requires WellFormed(axis, f)
    ensures Split(Join(Tokens(f))) == Tokens(f)
  {
    var ts := Tokens(f);
    assert IsTokenText(ts[|ts| - 1]) by {
      var t := ts[|ts| - 1];
      if f.DDH? || f.DMH? || f.DMSH? {
        var u := if f.DDH? then f.deg else if f.DMH? then f.min else f.sec;
        assert t == u + [f.letter];
        forall i | 0 <= i < |t| ensures IsTokenChar(t[i]) {
          if i < |u| { assert t[i] == u[i]; }
        }
      }
    }
    SplitJoin(ts);
  }

  /** A text whose tokens form a well-formed form is read through that
      form's branch, followed by the range check. */
  lemma InterpretByForm(axis: Axis, s: string, f: Form)
    requires WellFormed(axis, f) && Split(s) == Tokens(f)
    ensures Interpret(axis, s) == WithinBounds(axis, Caught(Convert(axis, f)))
  {
    WellFormedIsClassified(axis, f);
  }

  /** Every accepted text has one of the nine shapes, and its value is the
      one that shape's branch computes. */
  lemma InterpretAccepted(axis: Axis, s: string)
    requires Interpret(axis, s).Some?
    ensures exists f :: (WellFormed(axis, f) && Split(s) == Tokens(f)
      && Interpret(axis, s) == WithinBounds(axis, Caught(Convert(axis, f))))
  {
    var c := Classify(axis, Split(s));
    var f := c.value.value;
    ClassifiedIsWellFormed(axis, Split(s), f);
  }

  /** A text whose first token is empty (an empty text, or one that starts
      with a separator) is rejected: `float("")` raises. */
  lemma EmptyDegreesRejected(axis: Axis, f: Form)
    requires f.deg == []
    ensures Caught(Convert(axis, f)).None?
  {
    assert ParseFloat("").None?;
  }

  /** The inputs refused for their structure: more than four tokens, four
      tokens without a hemisphere token at the end, and any text that is
      empty, starts with a separator or ends with one. */
  lemma InterpretRejectsShape(axis: Axis, s: string)
    ensures |Split(s)| > 4 ==> Interpret(axis, s).None?
    ensures |Split(s)| == 4 && !IsHemisphereToken(axis, Split(s)[3]) ==> Interpret(axis, s).None?
    ensures s == [] ==> Interpret(axis, s).None?
    ensures s != [] && !IsTokenChar(s[0]) ==> Interpret(axis, s).None?
    ensures s != [] && !IsTokenChar(s[|s| - 1]) ==> Interpret(axis, s).None?
  {
    SplitLast(s);
  }

  /** A lone number is read as decimal degrees: every in-range number text
      is read back as its own value. */
  lemma BareDecimalReadBack(axis: Axis, t: string, v: real)
    requires ParseFloat(t) == Some(v) && -Bound(axis) <= v <= Bound(axis)
    ensures Interpret(axis, t) == Some(v)
  {
    NumberTextIsToken(t);
    SplitTokenText(t);
    assert !IsHemisphere(axis, Last(t)) by { assert IsNumberChar(t[|t| - 1]); }
    InterpretByForm(axis, t, DD(t));
  }

  /** Number characters are token characters. */
  lemma NumberTextIsToken(t: string)
    requires forall i :: 0 <= i < |t| ==> IsNumberChar(t[i])
    ensures IsTokenText(t)
  {
  }

  /** A value typed with a fixed number of decimals is read back exactly
      when it lies in the axis' range. */
  lemma DecimalRoundTrip(axis: Axis, x: int, k: nat)
    requires -Bound(axis) <= x as real / Pow10(k) as real <= Bound(axis)
    ensures Interpret(axis, FormatDecimal(x, k)) == Some(x as real / Pow10(k) as real)
  {
    ParseFormatDecimal(x, k);
    BareDecimalReadBack(axis, FormatDecimal(x, k), x as real / Pow10(k) as real);
  }

  /** The degree-only forms do not refuse a minus sign together with the
      negative hemisphere letter: the letter negates whatever number
      precedes it, glued (`-45S`) or as its own token (`-45 S`). */
  lemma DegreeFormsNegateUnchecked(axis: Axis, t: string, v: real)
    requires ParseFloat(t) == Some(v) && -Bound(axis) <= v <= Bound(axis)
    ensures Interpret(axis, t + [Negative(axis)]) == Some(-v)
    ensures Interpret(axis, t + " " + [Negative(axis)]) == Some(-v)
  {
    NumberTextIsToken(t);
    GluedDegrees(axis, t, Negative(axis), v);
    SeparateDegrees(axis, t, Negative(axis), v);
  }

  /** A number with a hemisphere letter glued on (`45N`, `45S`) is the
      number, negated for the negative letter. */
  lemma GluedDegrees(axis: Axis, t: string, h: char, v: real)
    requires ParseFloat(t) == Some(v) && IsTokenText(t) && IsHemisphere(axis, h)
    ensures Interpret(axis, t + [h]) == WithinBounds(axis, Some(if h == Negative(axis) then -v else v))
  {
    var f := DDH(t, h);
    assert Split(t + [h]) == Tokens(f) by {
      JoinedForm(axis, f);
    }
    assert Caught(Convert(axis, f)) == Some(if h == Negative(axis) then -v else v);
    InterpretByForm(axis, t + [h], f);
  }

  /** A number followed by a hemisphere token (`45 N`, `45 S`) is the
      number, negated for the negative letter. */
  lemma SeparateDegrees(axis: Axis, t: string, h: char, v: real)
    requires ParseFloat(t) == Some(v) && IsTokenText(t) && IsHemisphere(axis, h)
    ensures Interpret(axis, t + " " + [h]) == WithinBounds(axis, Some(if h == Negative(axis) then -v else v))
  {
    var f := DD_H(t, [h]);
    var s := t + " " + [h];
    assert Split(s) == Tokens(f) by {
      JoinedForm(axis, f);
      JoinTwo(t, [h]);
    }
    ConvertSeparateDegrees(axis, t, h, v);
    InterpretByForm(axis, s, f);
  }

  /** The `DD H` branch: the hemisphere token negates exactly when it is
      the negative letter. */
  lemma ConvertSeparateDegrees(axis: Axis, t: string, h: char, v: real)
    requires ParseFloat(t) == Some(v)
    ensures Caught(Convert(axis, DD_H(t, [h]))) == Some(if h == Negative(axis) then -v else v)
  {
    var n := Negative(axis);
    if h == n {
      assert [h] == [n];
      assert Convert(axis, DD_H(t, [h])) == Returns(Some(-v));
    } else {
      assert [h][0] != [n][0];
      assert Convert(axis, DD_H(t, [h])) == Returns(Some(v));
    }
  }

  /** The minute forms refuse a minus sign together with the negative
      hemisphere letter, whether the letter is glued to the minutes or is
      its own token. */
  lemma MinuteFormsRefuseDoubleNegative(axis: Axis, d: string, m: string, dv: real, mv: real)
    requires ParseFloat(d) == Some(dv) && ParseFloat(m) == Some(mv) && dv < 0.0
    ensures Interpret(axis, d + " " + m + [Negative(axis)]) == None
    ensures Interpret(axis, d + " " + m + " " + [Negative(axis)]) == None
  {
    var h := Negative(axis);
    assert DmToDecimal(dv, mv, [h]) == None;
    InterpretDmGlued(axis, d, m, h, dv, mv);
    InterpretDmWithHemisphere(axis, d, m, h, dv, mv);
  }

  /** Degrees and minutes with the hemisphere letter glued to the minutes
      (`122 30W`) give the value of `dm2dd`, range-checked. */
  lemma InterpretDmGlued(axis: Axis, d: string, m: string, h: char, dv: real, mv: real)
    requires ParseFloat(d) == Some(dv) && ParseFloat(m) == Some(mv)
    requires IsHemisphere(axis, h)
    ensures Interpret(axis, d + " " + m + [h]) == WithinBounds(axis, DmToDecimal(dv, mv, [h]))
  {
    NumberTextIsToken(d);
    NumberTextIsToken(m);
    var f := DMH(d, m, h);
    var s := d + " " + m + [h];
    assert Split(s) == Tokens(f) by {
      JoinedForm(axis, f);
      JoinTwo(d, m + [h]);
      assert d + " " + (m + [h]) == s;
    }
    assert Caught(Convert(axis, f)) == DmToDecimal(dv, mv, [h]);
    InterpretByForm(axis, s, f);
  }

  /** Degrees, minutes and seconds followed by a hemisphere token
      (`40 26 46 N`) give the value of `dms2dd`, range-checked. */
  lemma InterpretDmsWithHemisphere(axis: Axis, d: string, m: string, sec: string, h: char,
                                   dv: real, mv: real, sv: real)
    requires ParseFloat(d) == Some(dv) && ParseFloat(m) == Some(mv) && ParseFloat(sec) == Some(sv)
    requires IsHemisphere(axis, h)
    ensures Interpret(axis, d + " " + m + " " + sec + " " + [h])
      == WithinBounds(axis, DmsToDecimal(dv, mv, sv, [h]))
  {
    NumberTextIsToken(d);
    NumberTextIsToken(m);
    NumberTextIsToken(sec);
    var f := DMS_H(d, m, sec, [h]);
    var s := d + " " + m + " " + sec + " " + [h];
    assert Split(s) == Tokens(f) by {
      JoinedForm(axis, f);
      JoinSmall(d, m, sec, [h]);
    }
    assert Caught(Convert(axis, f)) == DmsToDecimal(dv, mv, sv, [h]);
    InterpretByForm(axis, s, f);
  }

  /** Degrees and minutes followed by a hemisphere token (`122 30 W`) give
      the value of `dm2dd`, range-checked. */
  lemma InterpretDmWithHemisphere(axis: Axis, d: string, m: string, h: char, dv: real, mv: real)
    requires ParseFloat(d) == Some(dv) && ParseFloat(m) == Some(mv)
    requires IsHemisphere(axis, h)
    ensures Interpret(axis, d + " " + m + " " + [h]) == WithinBounds(axis, DmToDecimal(dv, mv, [h]))
  {
    NumberTextIsToken(d);
    NumberTextIsToken(m);
    var f := DM_H(d, m, [h]);
    var s := d + " " + m + " " + [h];
    assert Split(s) == Tokens(f) by {
      JoinedForm(axis, f);
      JoinSmall(d, m, [h], "");
    }
    assert Caught(Convert(axis, f)) == DmToDecimal(dv, mv, [h]);
    InterpretByForm(axis, s, f);
  }

  /** Degrees, minutes and seconds with the hemisphere letter glued to the
      seconds (`40 26 46N`) give the value of `dms2dd`, range-checked. */
  lemma InterpretDmsGlued(axis: Axis, d: string, m: string, sec: string, h: char,
                          dv: real, mv: real, sv: real)
    requires ParseFloat(d) == Some(dv) && ParseFloat(m) == Some(mv) && ParseFloat(sec) == Some(sv)
    requires IsHemisphere(axis, h)
    ensures Interpret(axis, d + " " + m + " " + sec + [h])
      == WithinBounds(axis, DmsToDecimal(dv, mv, sv, [h]))
  {
    NumberTextIsToken(d);
    NumberTextIsToken(m);
    NumberTextIsToken(sec);
    var f := DMSH(d, m, sec, h);
    var s := d + " " + m + " " + sec + [h];
    assert Split(s) == Tokens(f) by {
      JoinedForm(axis, f);
      JoinSmall(d, m, sec + [h], "");
      assert d + " " + m + " " + (sec + [h]) == s;
    }
    assert Caught(Convert(axis, f)) == DmsToDecimal(dv, mv, sv, [h]);
    InterpretByForm(axis, s, f);
  }

  /** Two numbers (`45 30`) are degrees and minutes without a direction:
      a number never ends in a hemisphere letter. */
  lemma InterpretDm(axis: Axis, d: string, m: string, dv: real, mv: real)
    requires ParseFloat(d) == Some(dv) && ParseFloat(m) == Some(mv)
    ensures Interpret(axis, d + " " + m) == WithinBounds(axis, DmToDecimal(dv, mv, ""))
  {
    assert IsNumberChar(Last(m));
    NumberTextIsToken(d);
    NumberTextIsToken(m);
    var f := DM(d, m);
    var s := d + " " + m;
    assert Split(s) == Tokens(f) by {
      JoinedForm(axis, f);
      JoinTwo(d, m);
    }
    assert Caught(Convert(axis, f)) == DmToDecimal(dv, mv, "");
    InterpretByForm(axis, s, f);
  }

  /** Three numbers (`40 26 46`) are degrees, minutes and seconds without
      a direction: a number never ends in a hemisphere letter. */
  lemma InterpretDms(axis: Axis, d: string, m: string, sec: string, dv: real, mv: real, sv: real)
    requires ParseFloat(d) == Some(dv) && ParseFloat(m) == Some(mv) && ParseFloat(sec) == Some(sv)
    ensures Interpret(axis, d + " " + m + " " + sec) == WithinBounds(axis, DmsToDecimal(dv, mv, sv, ""))
  {
    assert IsNumberChar(Last(sec));
    NumberTextIsToken(d);
    NumberTextIsToken(m);
    NumberTextIsToken(sec);
    var f := DMS(d, m, sec);
    var s := d + " " + m + " " + sec;
    assert Split(s) == Tokens(f) by {
      JoinedForm(axis, f);
      JoinSmall(d, m, sec, "");
    }
    assert Caught(Convert(axis, f)) == DmsToDecimal(dv, mv, sv, "");
    InterpretByForm(axis, s, f);
  }
}
