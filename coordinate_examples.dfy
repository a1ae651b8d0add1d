/** Concrete readings of typed coordinates, each derived from the general
    properties of the parser. Each text is written as its tokens joined,
    so that `"122" + " " + "30" + " " + "W"` is the text `122 30 W`. */
module CoordinateExamples {
  import opened Outcomes
  import opened PyText
  import opened PyFloat
  import opened QtCallbacks

  /** `float` of the digits of a whole number, with and without a minus
      sign in front. */
  lemma WholeNumber(x: nat, t: string)
    requires NatDigits(x) == t
    ensures ParseFloat(t) == Some(x as real)
    ensures ParseFloat("-" + t) == Some(-(x as real))
  {
    assert ParseUnsigned(t) == Some(x as real) && t[0] != '-' by {
      ParseDigitsDotDigits(t, "", "");
      assert t + "" == t;
    }
    ParseNonNegative(t, x as real);
    ParseNegative(t, x as real);
  }

  // The numbers typed in the examples below, as `float` reads them.

  lemma Reads0()
    ensures ParseFloat("0") == Some(0.0)
    ensures ParseFloat("-0") == Some(0.0)
  {
    WholeNumber(0, "0");
    assert "-" + "0" == "-0";
  }

  lemma Reads26()
    ensures ParseFloat("26") == Some(26.0)
  {
    WholeNumber(26, "26");
  }

  lemma Reads30()
    ensures ParseFloat("30") == Some(30.0)
  {
    WholeNumber(30, "30");
  }

  lemma Reads40()
    ensures ParseFloat("40") == Some(40.0)
  {
    WholeNumber(40, "40");
  }

  lemma Reads45()
    ensures ParseFloat("45") == Some(45.0)
    ensures ParseFloat("-45") == Some(-45.0)
  {
    WholeNumber(45, "45");
    assert "-" + "45" == "-45";
  }

  lemma Reads46()
    ensures ParseFloat("46") == Some(46.0)
  {
    WholeNumber(46, "46");
  }

  lemma Reads75()
    ensures ParseFloat("75") == Some(75.0)
  {
    WholeNumber(75, "75");
  }

  lemma Reads95()
    ensures ParseFloat("95") == Some(95.0)
  {
    WholeNumber(95, "95");
  }

  lemma Reads122()
    ensures ParseFloat("122") == Some(122.0)
    ensures ParseFloat("-122") == Some(-122.0)
  {
    WholeNumber(122, "122");
    assert "-" + "122" == "-122";
  }

  /** A degree value with the positive hemisphere letter glued on. */
  lemma NorthGlued()
    ensures InterpretLatitude("45" + "N") == Some(45.0)
  {
    Reads45();
    var f := DDH("45", 'N');
    assert Split("45" + "N") == Tokens(f) by {
      JoinedForm(Latitude, f);
    }
    InterpretByForm(Latitude, "45" + "N", f);
  }

  /** The negative hemisphere letter negates the degrees. */
  lemma SouthGlued()
    ensures InterpretLatitude("45" + "S") == Some(-45.0)
  {
    Reads45();
    DegreeFormsNegateUnchecked(Latitude, "45", 45.0);
  }

  /** A minus sign together with the negative letter is not refused by the
      degree-only forms: both readings come out positive. */
  lemma DoubleNegativeDegrees()
    ensures InterpretLatitude("-45" + "S") == Some(45.0)
    ensures InterpretLatitude("-45" + " " + "S") == Some(45.0)
  {
    Reads45();
    DegreeFormsNegateUnchecked(Latitude, "-45", -45.0);
  }

  /** The same minus sign is refused once minutes follow the degrees. */
  lemma DoubleNegativeMinutes()
    ensures InterpretLongitude("-122" + " " + "30" + "W") == None
    ensures InterpretLongitude("-122" + " " + "30" + " " + "W") == None
  {
    Reads122();
    Reads30();
    MinuteFormsRefuseDoubleNegative(Longitude, "-122", "30", -122.0, 30.0);
  }

  /** Degrees and minutes with a western hemisphere token. */
  lemma WesternMinutes()
    ensures InterpretLongitude("122" + " " + "30" + " " + "W") == Some(-122.5)
  {
    Reads122();
    Reads30();
    InterpretDmWithHemisphere(Longitude, "122", "30", 'W', 122.0, 30.0);
  }

  /** Degrees, minutes and seconds with a northern hemisphere token. */
  lemma NorthernSeconds()
    ensures InterpretLatitude("40" + " " + "26" + " " + "46" + " " + "N")
      == Some(40.0 + 26.0 / 60.0 + 46.0 / 3600.0)
  {
    Reads40();
    Reads26();
    Reads46();
    InterpretDmsWithHemisphere(Latitude, "40", "26", "46", 'N', 40.0, 26.0, 46.0);
  }

  /** Minutes beyond 60 are refused. */
  lemma MinutesOutOfRange()
    ensures InterpretLatitude("45" + " " + "75") == None
  {
    Reads45();
    Reads75();
    InterpretDm(Latitude, "45", "75", 45.0, 75.0);
  }

  /** A latitude beyond 90 degrees is refused. */
  lemma LatitudeOutOfRange()
    ensures InterpretLatitude("95" + "N") == None
  {
    Reads95();
    var f := DDH("95", 'N');
    assert Split("95" + "N") == Tokens(f) by {
      JoinedForm(Latitude, f);
    }
    InterpretByForm(Latitude, "95" + "N", f);
  }

  /** A minus zero is not negative: `-0 30` is half a degree north. */
  lemma MinusZeroDegrees()
    ensures InterpretLatitude("-0" + " " + "30") == Some(0.5)
  {
    Reads0();
    Reads30();
    InterpretDm(Latitude, "-0", "30", 0.0, 30.0);
  }

  /** The empty text is refused. */
  lemma EmptyRefused()
    ensures InterpretLatitude("") == None
  {
    InterpretRejectsShape(Latitude, "");
  }

  /** Five numbers are refused. */
  lemma FiveTokensRefused()
    ensures InterpretLatitude("1" + " " + "2" + " " + "3" + " " + "4" + " " + "5") == None
  {
    var ts := ["1", "2", "3", "4", "5"];
    var s := "1" + " " + "2" + " " + "3" + " " + "4" + " " + "5";
    assert Join(ts) == s by {
      JoinSmall("2", "3", "4", "5");
      assert ts[1..] == ["2", "3", "4", "5"];
    }
    assert IsSplitShape(ts);
    SplitJoin(ts);
    InterpretRejectsShape(Latitude, s);
  }

  /** A separator at either end of the text makes it refused, even after a
      well-formed coordinate. */
  lemma OuterSeparatorsRefused()
    ensures InterpretLatitude("45" + " " + "N" + " ") == None
    ensures InterpretLatitude(" " + "45") == None
  {
    InterpretRejectsShape(Latitude, "45" + " " + "N" + " ");
    InterpretRejectsShape(Latitude, " " + "45");
  }

  /** A hemisphere letter with no number before it is refused: `float("")`
      raises. */
  lemma LetterAlone()
    ensures InterpretLatitude("N") == None
  {
    var f := DDH("", 'N');
    assert Split("N") == Tokens(f) by {
      JoinedForm(Latitude, f);
    }
    EmptyDegreesRejected(Latitude, f);
    InterpretByForm(Latitude, "N", f);
  }

  /** `float` raises on a lone sign or dot. */
  lemma LoneSignOrDotRaises()
    ensures ParseFloat("-") == None && ParseFloat(".") == None
  {
    ParseFloatAccepts("-");
    ParseFloatAccepts(".");
  }

  /** `float` raises on a doubled sign and on an inner minus. */
  lemma MisplacedSignRaises()
    ensures ParseFloat("-" + "-5") == None && ParseFloat("1-2") == None
  {
    ParseFloatAccepts("-" + "-5");
    ParseFloatAccepts("1-2");
  }

  /** `float` raises on a second dot. */
  lemma SecondDotRaises()
    ensures ParseFloat("1.2" + ".3") == None
  {
    var t := "1.2" + ".3";
    assert t == "1" + ".2.3";
    FindDotAfterDigits("1", ".2.3");
    assert t[2..][1] == '.';
  }

  /** A missing whole part is zero: `.5` is one half. */
  lemma ReadsPointFive()
    ensures ParseFloat("." + "5") == Some(0.5)
  {
    ParseFloatValue(false, "", true, "5");
    assert "" + ("" + ("." + "5")) == "." + "5";
  }

  /** A missing fraction part is zero: `5.` is five. */
  lemma ReadsFivePoint()
    ensures ParseFloat("5" + ".") == Some(5.0)
  {
    ParseFloatValue(false, "5", true, "");
    assert "" + ("5" + ("." + "")) == "5" + ".";
  }

  /** Leading zeros are accepted: `007` is seven. */
  lemma ReadsLeadingZeros()
    ensures ParseFloat("007") == Some(7.0)
  {
    ParseFloatValue(false, "007", false, "");
    assert "" + ("007" + "") == "007";
    assert DigitsValue("007") == 7 by {
      assert "007"[..2] == "00" && "00"[..1] == "0" && "0"[..0] == "";
    }
  }
}
