/**
  One satellite's observation line of a RINEX 3 data block: the satellite
  identifier in columns 0-2, then one 16-character field per observation
  type declared for that satellite's system, in header order. A field is a
  value (F14.3), a loss-of-lock indicator (I1) and a signal strength (I1);
  blank or missing parts read as zero.
*/
module ObsData {
  import opened Wrappers
  import opened Text
  import opened ObsSlices

  /** Fractional digits of an observation value: values are counted in thousandths. */
  const ValueScale: nat := 3

  /** One observation: its code, its value in thousandths, its LLI and its signal strength. */
  datatype Observation = Observation(code: string, value: int, lli: int, signalStrength: int)

  /** A satellite's line: its identifier and one observation per declared code. */
  datatype ObservationRecord = ObservationRecord(satellite: string, records: seq<Observation>)

  /** Why an observation line cannot be read. */
  datatype RecordError =
    | EmptyLine                   // no satellite identifier at all
    | UnknownSystem(system: char) // a system letter the header did not declare
    | BadValue(code: string)      // a value field that is neither blank nor a number
    | BadIndicator(code: string)  // an LLI or signal-strength column that is neither blank nor a digit

  /** An observation value: blank or absent reads as zero. */
  function ParseValue(s: string): Option<int> {
    if IsBlank(s) then Some(0) else ParseFixed(s, ValueScale)
  }

  /** A one-column indicator: blank or absent reads as zero. */
  function ParseIndicator(s: string): (r: Option<int>)
    requires |s| <= 1
    ensures r.Some? ==> 0 <= r.value <= 9
    ensures r.Some? && r.value != 0 ==> s == [DigitChar(r.value)]
    ensures IsBlank(s) ==> r == Some(0)
    ensures |s| == 1 && IsDigit(s[0]) ==> r == Some(DigitValue(s[0]))
    ensures |s| == 1 && s[0] != ' ' && !IsDigit(s[0]) ==> r.None?
  {
    IndicatorChar(s);
    if IsBlank(s) then Some(0) else ParseInt(s)
  }

  /** A single non-blank column reads as its digit, and as nothing when it is no digit. */
  lemma IndicatorChar(s: string)
    requires |s| <= 1
    ensures !IsBlank(s) ==> (|s| == 1 && s[0] != ' ' &&
      ParseInt(s) == if IsDigit(s[0]) then Some(DigitValue(s[0])) else None)
    ensures !IsBlank(s) && IsDigit(s[0]) ==> s == [DigitChar(DigitValue(s[0]))]
  {
    if !IsBlank(s) {
      StripPadLeft(s, 0);
      assert PadLeft(s, 0) == s;
      if IsDigit(s[0]) {
        assert s[..0] == [];
        ParseIntNonNegative(s, s);
      }
    }
  }

  /** Reads one 16-column field (or what is left of it at the end of the line). */
  function ParseField(code: string, field: string): (r: Result<Observation, RecordError>)
    ensures r.Ok? ==> r.value.code == code && 0 <= r.value.lli <= 9 && 0 <= r.value.signalStrength <= 9
    ensures IsBlank(field) ==> r == Ok(Observation(code, 0, 0, 0))
    ensures r.Err? ==> r.error == BadValue(code) || r.error == BadIndicator(code)
  {
    var value := ParseValue(Slice(field, 0, 14));
    var lli := ParseIndicator(Slice(field, 14, 15));
    var strength := ParseIndicator(Slice(field, 15, 16));
    if value.None? then Err(BadValue(code))
    else if lli.None? || strength.None? then Err(BadIndicator(code))
    else Ok(Observation(code, value.value, lli.value, strength.value))
  }

  /** The text of the field with the given column range. */
  function FieldText(row: string, span: Span): string
    requires span.start <= span.end
  {
    Slice(row, span.start, span.end)
  }

  /** The k-th declared code read from the k-th column range of the line. */
  function FieldResults(codes: seq<string>, row: string): (rs: seq<Result<Observation, RecordError>>)
    ensures |rs| == |codes|
    ensures forall k :: 0 <= k < |codes| ==> rs[k] == ParseField(codes[k], Slice(row, 3 + 16 * k, 19 + 16 * k))
  {
    var spans := ObsSliceIndices(|codes|);
    seq(|codes|, k requires 0 <= k < |codes| => ParseField(codes[k], FieldText(row, spans[k])))
  }

  /**
    Reads a satellite's observation line: the identifier is the first three
    columns, its first letter names the system whose declared codes give the
    fields, in header order.
  */
  function ParseObsRecord(obsTypes: map<char, seq<string>>, row: string): (r: Result<ObservationRecord, RecordError>)
    ensures r == Err(EmptyLine) <==> row == []
    ensures r.Err? && r.error.UnknownSystem? <==> row != [] && row[0] !in obsTypes
    ensures r.Ok? ==> r.value.satellite == Slice(row, 0, 3)
    ensures r.Ok? ==> var codes := obsTypes[row[0]];
      |r.value.records| == |codes| &&
      forall k :: 0 <= k < |codes| ==> r.value.records[k].code == codes[k]
  {
    if row == [] then Err(EmptyLine)
    else if row[0] !in obsTypes then Err(UnknownSystem(row[0]))
    else
      var codes := obsTypes[row[0]];
      var fields := Collect(FieldResults(codes, row));
      if fields.Err? then Err(fields.error)
      else Ok(ObservationRecord(Slice(row, 0, 3), fields.value))
  }

  /**
    Field by field: a line of a declared system reads exactly when each of
    its fields reads, and the k-th observation is what columns
    [3 + 16k, 19 + 16k) read as.
  */
  lemma RecordPointwise(obsTypes: map<char, seq<string>>, row: string)
    requires row != [] && row[0] in obsTypes
    ensures var r := ParseObsRecord(obsTypes, row); var codes := obsTypes[row[0]];
      (r.Ok? <==> forall k :: 0 <= k < |codes| ==> ParseField(codes[k], Slice(row, 3 + 16 * k, 19 + 16 * k)).Ok?) &&
      (r.Ok? ==> forall k :: 0 <= k < |codes| ==>
        r.value.records[k] == ParseField(codes[k], Slice(row, 3 + 16 * k, 19 + 16 * k)).value)
  {
  }

  /** Fields at or past the end of the line read as the code with zero value, LLI and strength. */
  lemma FieldsPastEnd(obsTypes: map<char, seq<string>>, row: string, k: nat)
    requires ParseObsRecord(obsTypes, row).Ok?
    requires k < |obsTypes[row[0]]| && |row| <= 3 + 16 * k
    ensures ParseObsRecord(obsTypes, row).value.records[k] == Observation(obsTypes[row[0]][k], 0, 0, 0)
  {
    SlicePastEnd(row, 3 + 16 * k, 19 + 16 * k);
  }

  // ---------------------------------------------------------------------------
  // Writing observation lines
  // ---------------------------------------------------------------------------

  /** The observations a 16-column field can hold. */
  predicate Fits(o: Observation) {
    Abs(o.value) < Pow10(12) && 0 <= o.lli <= 9 && 0 <= o.signalStrength <= 9
  }

  /** An indicator column: blank for zero, the digit otherwise. */
  function IndicatorText(i: int): (r: string)
    requires 0 <= i <= 9
    ensures |r| == 1
  {
    if i == 0 then " " else [DigitChar(i)]
  }

  /** A value field: blank for zero (not observed), F14.3 otherwise. */
  function ValueText(v: int): string {
    if v == 0 then Spaces(14) else FormatFixed(v, 14, ValueScale)
  }

  /** The 16 columns a RINEX 3 writer produces for one observation. */
  function FormatField(o: Observation): string
    requires Fits(o)
  {
    ValueText(o.value) + IndicatorText(o.lli) + IndicatorText(o.signalStrength)
  }

  /** A written field takes sixteen columns. */
  lemma FieldWidth(o: Observation)
    requires Fits(o)
    ensures |FormatField(o)| == 16
  {
    ValueTextWidth(o.value);
  }

  lemma ValueTextWidth(v: int)
    requires Abs(v) < Pow10(12)
    ensures |ValueText(v)| == 14
  {
    if v != 0 {
      FixedTextLength(v, ValueScale, 9);
    }
  }

  lemma ParseValueText(v: int)
    ensures ParseValue(ValueText(v)) == Some(v)
  {
    if v != 0 {
      ParseFormatFixed(v, 14, ValueScale);
      if IsBlank(ValueText(v)) {
        ParseFixedBlank(ValueText(v), ValueScale);
      }
    }
  }

  lemma ParseIndicatorText(i: int)
    requires 0 <= i <= 9
    ensures ParseIndicator(IndicatorText(i)) == Some(i)
  {
    if i != 0 {
      assert IndicatorText(i) == ZeroPad(i, 1);
      ParseZeroPad(i, 1);
    }
  }

  /** Every observation that fits its field reads back as itself. */
  lemma ParseFormatField(o: Observation)
    requires Fits(o)
    ensures |FormatField(o)| == 16
    ensures ParseField(o.code, FormatField(o)) == Ok(o)
  {
    var v, l, g := ValueText(o.value), IndicatorText(o.lli), IndicatorText(o.signalStrength);
    ValueTextWidth(o.value);
    SliceOfPrefix(v + l, g, 0, 14);
    SliceOfPrefix(v, l, 0, 14);
    assert Slice(v, 0, 14) == v;
    SliceOfPrefix(v + l, g, 14, 15);
    SliceOfLast(v, l);
    SliceOfLast(v + l, g);
    ParseValueText(o.value);
    ParseIndicatorText(o.lli);
    ParseIndicatorText(o.signalStrength);
  }

  /** The fields of a line, one after another. */
  function FieldsText(obs: seq<Observation>): (r: string)
    requires forall k :: 0 <= k < |obs| ==> Fits(obs[k])
    ensures |r| == 16 * |obs|
  {
    if obs == [] then ""
    else
      FieldWidth(obs[|obs| - 1]);
      FieldsText(obs[..|obs| - 1]) + FormatField(obs[|obs| - 1])
  }

  /** A satellite's observation line: its identifier, then its fields. */
  function FormatObsRecord(satellite: string, obs: seq<Observation>): string
    requires forall k :: 0 <= k < |obs| ==> Fits(obs[k])
  {
    satellite + FieldsText(obs)
  }

  /** The k-th written field sits in columns [3 + 16k, 19 + 16k). */
  lemma FieldsTextAt(satellite: string, obs: seq<Observation>, k: nat)
    requires |satellite| == 3 && k < |obs|
    requires forall j :: 0 <= j < |obs| ==> Fits(obs[j])
    ensures Slice(satellite + FieldsText(obs), 3 + 16 * k, 19 + 16 * k) == FormatField(obs[k])
  {
    FieldAt(obs, k);
    SliceOfSuffix(satellite, FieldsText(obs), 16 * k, 16 * k + 16);
  }

  /** The k-th field of the fields text is columns [16k, 16k + 16). */
  lemma {:induction false} FieldAt(obs: seq<Observation>, k: nat)
    requires k < |obs|
    requires forall j :: 0 <= j < |obs| ==> Fits(obs[j])
    ensures Slice(FieldsText(obs), 16 * k, 16 * k + 16) == FormatField(obs[k])
  {
    var n := |obs| - 1;
    var a, b := FieldsText(obs[..n]), FormatField(obs[n]);
    assert FieldsText(obs) == a + b;
    if k < n {
      FieldAt(obs[..n], k);
      SliceOfPrefix(a, b, 16 * k, 16 * k + 16);
    } else {
      SliceOfLast(a, b);
    }
  }

  /** The observations match the first declared codes, in order, and fit their fields. */
  predicate WritableFor(codes: seq<string>, obs: seq<Observation>) {
    |obs| <= |codes| && forall k :: 0 <= k < |obs| ==> obs[k].code == codes[k] && Fits(obs[k])
  }

  /** The record a reader gives: the written observations, then zeros for the codes left off the line. */
  function Completed(codes: seq<string>, obs: seq<Observation>): (r: seq<Observation>)
    requires |obs| <= |codes|
    ensures |r| == |codes|
  {
    obs + seq(|codes| - |obs|, j requires 0 <= j < |codes| - |obs| => Observation(codes[|obs| + j], 0, 0, 0))
  }

  /**
    A written line reads back as the satellite and its observations, in
    header order; declared codes whose fields the line leaves off read as
    zeros.
  */
  lemma ParseFormatObsRecord(obsTypes: map<char, seq<string>>, satellite: string, obs: seq<Observation>)
    requires |satellite| == 3 && satellite[0] in obsTypes
    requires WritableFor(obsTypes[satellite[0]], obs)
    ensures ParseObsRecord(obsTypes, FormatObsRecord(satellite, obs)) ==
      Ok(ObservationRecord(satellite, Completed(obsTypes[satellite[0]], obs)))
  {
    var codes := obsTypes[satellite[0]];
    var row := FormatObsRecord(satellite, obs);
    var expected := Completed(codes, obs);
    forall k | 0 <= k < |codes|
      ensures ParseField(codes[k], Slice(row, 3 + 16 * k, 19 + 16 * k)) == Ok(expected[k])
    {
      if k < |obs| {
        FieldsTextAt(satellite, obs, k);
        ParseFormatField(obs[k]);
      } else {
        SlicePastEnd(row, 3 + 16 * k, 19 + 16 * k);
      }
    }
    SliceOfPrefix(satellite, FieldsText(obs), 0, 3);
    assert Slice(satellite, 0, 3) == satellite;
    RecordOfFields(obsTypes, row, expected);
  }

  /** A line whose every field reads gives the record of those fields. */
  lemma RecordOfFields(obsTypes: map<char, seq<string>>, row: string, expected: seq<Observation>)
    requires row != [] && row[0] in obsTypes && |expected| == |obsTypes[row[0]]|
    requires forall k :: 0 <= k < |expected| ==>
      ParseField(obsTypes[row[0]][k], Slice(row, 3 + 16 * k, 19 + 16 * k)) == Ok(expected[k])
    ensures ParseObsRecord(obsTypes, row) == Ok(ObservationRecord(Slice(row, 0, 3), expected))
  {
    RecordPointwise(obsTypes, row);
    var r := ParseObsRecord(obsTypes, row);
    assert r.value.records == expected;
  }

  // ---------------------------------------------------------------------------
  // Trailing blanks
  // ---------------------------------------------------------------------------

  lemma ValueBlankSuffix(f: string, b: string)
    requires IsBlank(b)
    ensures ParseValue(Slice(f + b, 0, 14)) == ParseValue(Slice(f, 0, 14))
  {
    SliceBlankSuffix(f, b, 0, 14);
    var x := Slice(f, 0, 14);
    ParseBlankSuffix(x, Spaces(|Slice(f + b, 0, 14)| - |x|), ValueScale);
  }

  lemma IndicatorBlankSuffix(f: string, b: string, i: nat)
    requires IsBlank(b)
    ensures ParseIndicator(Slice(f + b, i, i + 1)) == ParseIndicator(Slice(f, i, i + 1))
  {
    SliceBlankSuffix(f, b, i, i + 1);
    var x := Slice(f, i, i + 1);
    ParseBlankSuffix(x, Spaces(|Slice(f + b, i, i + 1)| - |x|), 0);
  }

  /**
    A field as receivers write it when they fill the indicator columns: a
    right-justified value with three decimals, then the LLI and strength as
    digits, an explicit 0 included.
  */
  lemma ParseFieldOfDigits(code: string, pad: nat, w: string, f: string, l: char, g: char)
    requires w != [] && AllDigits(w) && AllDigits(f) && |f| == ValueScale && pad + |w| == 10
    requires IsDigit(l) && IsDigit(g)
    ensures ParseField(code, Spaces(pad) + w + "." + f + [l] + [g]) ==
      Ok(Observation(code, Scaled(ValueOfDigits(w), ValueScale) + ValueOfDigits(f), DigitValue(l), DigitValue(g)))
  {
    var v := Spaces(pad) + w + "." + f;
    ValueOfPadded(pad, w, f);
    assert |v| == 14;
    FieldOfParts(code, v, Scaled(ValueOfDigits(w), ValueScale) + ValueOfDigits(f), l, g);
  }

  /** A field reads as its value columns and its two indicator digits. */
  lemma FieldOfParts(code: string, v: string, n: int, l: char, g: char)
    requires |v| == 14 && ParseValue(v) == Some(n) && IsDigit(l) && IsDigit(g)
    ensures ParseField(code, v + [l] + [g]) == Ok(Observation(code, n, DigitValue(l), DigitValue(g)))
  {
    FieldColumns(v, [l], [g]);
    assert ParseIndicator([l]) == Some(DigitValue(l));
    assert ParseIndicator([g]) == Some(DigitValue(g));
  }

  /** The value, LLI and strength columns of a field made of its three parts. */
  lemma FieldColumns(v: string, l: string, g: string)
    requires |v| == 14 && |l| == 1 && |g| == 1
    ensures Slice(v + l + g, 0, 14) == v && Slice(v + l + g, 14, 15) == l && Slice(v + l + g, 15, 16) == g
  {
    var x := v + l + g;
    assert x[..14] == v;
    assert x[14..15] == l;
    assert x[15..] == g;
  }

  /** Blanks, whole digits, a point and three decimals read as that many thousandths. */
  lemma ValueOfPadded(pad: nat, w: string, f: string)
    requires w != [] && AllDigits(w) && AllDigits(f) && |f| == ValueScale && pad + |w| == 10
    ensures ParseValue(Spaces(pad) + w + "." + f) == Some(Scaled(ValueOfDigits(w), ValueScale) + ValueOfDigits(f))
  {
    var t := w + "." + f;
    assert Spaces(pad) + w + "." + f == Spaces(pad) + t;
    PaddedDecimal(pad, w, f);
    ValueOfDecimal(Spaces(pad) + t, w, f);
  }

  lemma PaddedDecimal(pad: nat, w: string, f: string)
    requires w != [] && AllDigits(w) && AllDigits(f) && |f| == ValueScale && pad + |w| == 10
    ensures var t := w + "." + f; Strip(Spaces(pad) + t) == t && !IsBlank(Spaces(pad) + t)
  {
    var t := w + "." + f;
    var v := Spaces(pad) + t;
    assert PadLeft(t, 14) == v;
    assert t[0] == w[0] && t[|t| - 1] == f[2];
    StripPadLeft(t, 14);
    assert v[pad] == w[0];
  }

  lemma ValueOfDecimal(v: string, w: string, f: string)
    requires w != [] && AllDigits(w) && AllDigits(f) && |f| == ValueScale
    requires Strip(v) == w + "." + f && !IsBlank(v)
    ensures ParseValue(v) == Some(Scaled(ValueOfDigits(w), ValueScale) + ValueOfDigits(f))
  {
    var t := w + "." + f;
    assert IsDigit(t[0]);
    ParseFixedNonNegative(v, ValueScale, t);
    UnsignedFixedOfParts(w, f, ValueScale);
  }

  /**
    The phase fields of the G05 line in the test of the observation parser:
    their LLI column holds an explicit 0, their strength a digit.
  */
  lemma G05PhaseFields()
    ensures ParseField("L1C", " 119450143.06408") == Ok(Observation("L1C", 119450143064, 0, 8))
    ensures ParseField("L2S", "  93078040.86407") == Ok(Observation("L2S", 93078040864, 0, 7))
    ensures ParseField("L2W", "  93078053.86507") == Ok(Observation("L2W", 93078053865, 0, 7))
  {
    L1CField();
    L2SField();
    L2WField();
  }

  lemma L1CField()
    ensures ParseField("L1C", " 119450143.06408") == Ok(Observation("L1C", 119450143064, 0, 8))
  {
    L1CDigits();
    PhaseField("L1C", 1, "119450143", "064", '8', 119450143, 64);
    L1CText();
  }

  lemma L1CDigits()
    ensures AllDigits("119450143") && ValueOfDigits("119450143") == 119450143
    ensures AllDigits("064") && ValueOfDigits("064") == 64
  {
    L1CWritten();
    DigitsOfRoundTrip(119450143);
    ZeroPadValue(64, ValueScale);
  }

  /** The writer's digits of the L1C field's whole and fractional parts. */
  lemma L1CWritten()
    ensures DigitsOf(119450143) == "119450143" && ZeroPad(64, ValueScale) == "064"
  {
    assert DigitsOf(1) == "1" && DigitsOf(11) == "11" && DigitsOf(119) == "119";
    assert DigitsOf(1194) == "1194" && DigitsOf(11945) == "11945" && DigitsOf(119450) == "119450";
    assert DigitsOf(1194501) == "1194501" && DigitsOf(11945014) == "11945014";
    assert DigitsOf(6) == "6" && DigitsOf(64) == "64" && Zeros(1) == "0";
  }

  lemma L1CText()
    ensures Spaces(1) + "119450143" + "." + "064" + ['0'] + ['8'] == " 119450143.06408"
    ensures Scaled(119450143, ValueScale) + 64 == 119450143064
  {
  }

  lemma L2SField()
    ensures ParseField("L2S", "  93078040.86407") == Ok(Observation("L2S", 93078040864, 0, 7))
  {
    L2SDigits();
    PhaseField("L2S", 2, "93078040", "864", '7', 93078040, 864);
    L2SText();
  }

  lemma L2SDigits()
    ensures AllDigits("93078040") && ValueOfDigits("93078040") == 93078040
    ensures AllDigits("864") && ValueOfDigits("864") == 864
  {
    L2SWritten();
    DigitsOfRoundTrip(93078040);
    DigitsOfRoundTrip(864);
  }

  /** The writer's digits of the L2S field's whole and fractional parts. */
  lemma L2SWritten()
    ensures DigitsOf(93078040) == "93078040" && DigitsOf(864) == "864"
  {
    assert DigitsOf(9) == "9" && DigitsOf(93) == "93" && DigitsOf(930) == "930";
    assert DigitsOf(9307) == "9307" && DigitsOf(93078) == "93078" && DigitsOf(930780) == "930780";
    assert DigitsOf(9307804) == "9307804";
    assert DigitsOf(8) == "8" && DigitsOf(86) == "86";
  }

  lemma L2SText()
    ensures Spaces(2) + "93078040" + "." + "864" + ['0'] + ['7'] == "  93078040.86407"
    ensures Scaled(93078040, ValueScale) + 864 == 93078040864
  {
  }

  lemma L2WField()
    ensures ParseField("L2W", "  93078053.86507") == Ok(Observation("L2W", 93078053865, 0, 7))
  {
    L2WDigits();
    PhaseField("L2W", 2, "93078053", "865", '7', 93078053, 865);
    L2WText();
  }

  lemma L2WDigits()
    ensures AllDigits("93078053") && ValueOfDigits("93078053") == 93078053
    ensures AllDigits("865") && ValueOfDigits("865") == 865
  {
    L2WWritten();
    DigitsOfRoundTrip(93078053);
    DigitsOfRoundTrip(865);
  }

  /** The writer's digits of the L2W field's whole and fractional parts. */
  lemma L2WWritten()
    ensures DigitsOf(93078053) == "93078053" && DigitsOf(865) == "865"
  {
    assert DigitsOf(9) == "9" && DigitsOf(93) == "93" && DigitsOf(930) == "930";
    assert DigitsOf(9307) == "9307" && DigitsOf(93078) == "93078" && DigitsOf(930780) == "930780";
    assert DigitsOf(9307805) == "9307805";
    assert DigitsOf(8) == "8" && DigitsOf(86) == "86";
  }

  lemma L2WText()
    ensures Spaces(2) + "93078053" + "." + "865" + ['0'] + ['7'] == "  93078053.86507"
    ensures Scaled(93078053, ValueScale) + 865 == 93078053865
  {
  }

  /** A phase field with an explicit 0 in its LLI column reads as its digits' value. */
  lemma PhaseField(code: string, pad: nat, w: string, f: string, g: char, whole: nat, frac: nat)
    requires w != [] && AllDigits(w) && AllDigits(f) && |f| == ValueScale && pad + |w| == 10 && IsDigit(g)
    requires ValueOfDigits(w) == whole && ValueOfDigits(f) == frac
    ensures ParseField(code, Spaces(pad) + w + "." + f + ['0'] + [g]) ==
      Ok(Observation(code, Scaled(whole, ValueScale) + frac, 0, DigitValue(g)))
  {
    ParseFieldOfDigits(code, pad, w, f, '0', g);
  }

  /** Blanks after a field's text do not change what it reads as. */
  lemma ParseFieldBlankSuffix(code: string, f: string, b: string)
    requires IsBlank(b)
    ensures ParseField(code, f + b) == ParseField(code, f)
  {
    ValueBlankSuffix(f, b);
    IndicatorBlankSuffix(f, b, 14);
    IndicatorBlankSuffix(f, b, 15);
  }

  /**
    Blanks at the end of a line do not change the record it reads as, so a
    writer may drop them: a line that stops inside a field reads as if the
    field were padded with blanks.
  */
  lemma TrailingBlanks(obsTypes: map<char, seq<string>>, row: string, n: nat)
    requires |row| >= 3
    ensures ParseObsRecord(obsTypes, row + Spaces(n)) == ParseObsRecord(obsTypes, row)
  {
    var padded := row + Spaces(n);
    assert padded[0] == row[0];
    SliceOfPrefix(row, Spaces(n), 0, 3);
    if row[0] in obsTypes {
      FieldsBlankPadded(obsTypes[row[0]], row, n);
    }
  }

  /** Trailing blanks leave every field's reading unchanged. */
  lemma FieldsBlankPadded(codes: seq<string>, row: string, n: nat)
    ensures FieldResults(codes, row + Spaces(n)) == FieldResults(codes, row)
  {
    var padded, plain := FieldResults(codes, row + Spaces(n)), FieldResults(codes, row);
    forall k | 0 <= k < |codes|
      ensures padded[k] == plain[k]
    {
      FieldBlankPadded(codes[k], row, n, 3 + 16 * k, 19 + 16 * k);
    }
  }

  /** Trailing blanks leave the reading of columns [i, j) unchanged. */
  lemma FieldBlankPadded(code: string, row: string, n: nat, i: nat, j: nat)
    requires i <= j
    ensures ParseField(code, Slice(row + Spaces(n), i, j)) == ParseField(code, Slice(row, i, j))
  {
    SliceBlankSuffix(row, Spaces(n), i, j);
    var x := Slice(row, i, j);
    ParseFieldBlankSuffix(code, x, Spaces(|Slice(row + Spaces(n), i, j)| - |x|));
  }
}
