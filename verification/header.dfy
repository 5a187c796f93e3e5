/**
  The part of a RINEX 3 observation header the decoder interprets: the
  `SYS / # / OBS TYPES` records, which give each satellite system's
  observation codes in column order (13 codes per line, continuation lines
  starting with blanks), and the time-system tag of `TIME OF FIRST OBS`.
  Every header line carries its label in columns 60-79; reading stops at
  `END OF HEADER`. Each line is first recognised by its label
  (`Classify`), then taken into the tables (`Apply`).
*/
module Header {
  import opened Wrappers
  import opened Text

  const ObsTypesLabel: string := "SYS / # / OBS TYPES"
  const FirstObsLabel: string := "TIME OF FIRST OBS"
  const EndLabel: string := "END OF HEADER"

  /** Time system assumed when `TIME OF FIRST OBS` names none. */
  const DefaultTimeSystem: string := "GPS"

  /** Observation codes one `SYS / # / OBS TYPES` line holds. */
  const CodesPerLine: nat := 13

  /** Version 3.02, in hundredths: its BeiDou B1 codes use band digit 1. */
  const BeiDouBandOneVersion: nat := 302

  datatype HeaderError =
    | MissingEndOfHeader
    | BadObsTypesCount(line: nat)
    | OrphanContinuation(line: nat)
    | ObsTypesCountMismatch(system: char)

  /**
    What the header has told so far: the codes read for each system, the
    count each system declared, the systems in declaration order, the system
    whose record a continuation line extends, and the time system.
  */
  datatype Tables = Tables(
    obsTypes: map<char, seq<string>>,
    declared: map<char, int>,
    systems: seq<char>,
    current: Option<char>,
    timeSystem: string)

  /** The decoded header: the code table, the time system and the index of the first data line. */
  datatype HeaderInfo = HeaderInfo(obsTypes: map<char, seq<string>>, timeSystem: string, bodyStart: nat)

  predicate Consistent(t: Tables) {
    t.obsTypes.Keys == t.declared.Keys &&
    (forall s :: s in t.obsTypes <==> s in t.systems) &&
    (t.current.Some? ==> t.current.value in t.obsTypes)
  }

  const NoTables: Tables := Tables(map[], map[], [], None, DefaultTimeSystem)

  // ---------------------------------------------------------------------------
  // Recognising header lines
  // ---------------------------------------------------------------------------

  /** The label of a header line: columns 60-79 without surrounding blanks. */
  function Label(line: string): string {
    Strip(Slice(line, 60, 80))
  }

  /** The line that closes the header. */
  predicate IsEndLine(line: string) {
    Label(line) == EndLabel
  }

  /** The codes of an observation-types line: the blank-separated words of columns 6-59. */
  function LineCodes(line: string): seq<string> {
    Tokens(Slice(line, 6, 60))
  }

  /** A non-blank first column opens a system's record; a blank one continues the current record. */
  predicate OpensRecord(line: string) {
    line != [] && line[0] != ' '
  }

  /** What one header line says, as far as the decoder is concerned. */
  datatype HeaderLine =
    | OpensObsTypes(sys: char, count: Option<int>, codes: seq<string>)
    | ContinuesObsTypes(codes: seq<string>)
    | FirstObs(tag: string)
    | EndOfHeader
    | OtherRecord

  /**
    Recognises a line by its label: an observation-types line gives its
    system (column 0), its count (columns 3-5) when it opens a record, and
    its codes; `TIME OF FIRST OBS` gives the tag of columns 48-50.
  */
  function Classify(line: string): (h: HeaderLine)
    ensures h == EndOfHeader <==> IsEndLine(line)
    ensures h.OpensObsTypes? || h.ContinuesObsTypes? <==> Label(line) == ObsTypesLabel
  {
    var name := Label(line);
    if name == ObsTypesLabel then
      if OpensRecord(line) then OpensObsTypes(line[0], ParseInt(Slice(line, 3, 6)), LineCodes(line))
      else ContinuesObsTypes(LineCodes(line))
    else if name == FirstObsLabel then FirstObs(Strip(Slice(line, 48, 51)))
    else if name == EndLabel then EndOfHeader
    else OtherRecord
  }

  /** Takes one recognised header line (the index is for error reports) into account. */
  function Apply(t: Tables, h: HeaderLine, index: nat): (r: Result<Tables, HeaderError>)
    requires Consistent(t)
    ensures r.Ok? ==> Consistent(r.value)
    ensures r.Err? ==> r.error == BadObsTypesCount(index) || r.error == OrphanContinuation(index)
  {
    match h
    case OpensObsTypes(sys, count, codes) =>
      (match count
       case None => Err(BadObsTypesCount(index))
       case Some(n) =>
         Ok(t.(obsTypes := t.obsTypes[sys := codes], declared := t.declared[sys := n],
               systems := t.systems + [sys], current := Some(sys))))
    case ContinuesObsTypes(codes) =>
      (match t.current
       case None => Err(OrphanContinuation(index))
       case Some(sys) => Ok(t.(obsTypes := t.obsTypes[sys := t.obsTypes[sys] + codes])))
    case FirstObs(tag) => Ok(t.(timeSystem := if tag == "" then DefaultTimeSystem else tag))
    case EndOfHeader => Ok(t)
    case OtherRecord => Ok(t)
  }

  /**
    A line is refused only when it is an observation-types line whose count
    field is not a number, or a continuation line with no record open.
  */
  lemma ReadLineFailure(t: Tables, line: string, index: nat)
    requires Consistent(t)
    ensures Apply(t, Classify(line), index).Err? <==> (Label(line) == ObsTypesLabel &&
      if OpensRecord(line) then ParseInt(Slice(line, 3, 6)).None? else t.current.None?)
  {
  }

  /** Any line other than the observation-types and first-observation lines leaves the tables as they are. */
  lemma OtherLinesIgnored(t: Tables, line: string, index: nat)
    requires Consistent(t) && Label(line) != ObsTypesLabel && Label(line) != FirstObsLabel
    ensures Apply(t, Classify(line), index) == Ok(t)
  {
  }

  /** `TIME OF FIRST OBS` sets the time system to its tag, or to GPS when the tag is blank. */
  lemma TimeSystemOfLine(t: Tables, line: string, index: nat)
    requires Consistent(t) && Label(line) == FirstObsLabel
    ensures var tag := Strip(Slice(line, 48, 51));
      Apply(t, Classify(line), index) == Ok(t.(timeSystem := if IsBlank(Slice(line, 48, 51)) then DefaultTimeSystem else tag))
  {
    StripEmptyIffBlank(Slice(line, 48, 51));
  }

  /** The header lines, each recognised. */
  function ClassifyAll(lines: seq<string>): (hs: seq<HeaderLine>)
    ensures |hs| == |lines| && forall k :: 0 <= k < |lines| ==> hs[k] == Classify(lines[k])
  {
    seq(|lines|, k requires 0 <= k < |lines| => Classify(lines[k]))
  }

  // ---------------------------------------------------------------------------
  // Scanning the header
  // ---------------------------------------------------------------------------

  /**
    Reads lines from index i up to the end-of-header line; the result holds
    the tables and the index of the first line after the header.
  */
  function ScanFrom(hs: seq<HeaderLine>, i: nat, t: Tables): (r: Result<(Tables, nat), HeaderError>)
    requires i <= |hs| && Consistent(t)
    ensures r.Ok? ==> Consistent(r.value.0) && i < r.value.1 <= |hs|
    decreases |hs| - i
  {
    if i == |hs| then Err(MissingEndOfHeader)
    else if hs[i] == EndOfHeader then Ok((t, i + 1))
    else
      match Apply(t, hs[i], i)
      case Err(e) => Err(e)
      case Ok(next) => ScanFrom(hs, i + 1, next)
  }

  /** The index of the first end-of-header line at or after i; |hs| when there is none. */
  function FirstEnd(hs: seq<HeaderLine>, i: nat): (n: nat)
    requires i <= |hs|
    ensures i <= n <= |hs| && (n < |hs| ==> hs[n] == EndOfHeader)
    ensures forall k :: i <= k < n ==> hs[k] != EndOfHeader
    decreases |hs| - i
  {
    if i == |hs| || hs[i] == EndOfHeader then i else FirstEnd(hs, i + 1)
  }

  /** One line of the header body read, the scan goes on from the next. */
  lemma ScanStep(hs: seq<HeaderLine>, i: nat, t: Tables)
    requires i < |hs| && Consistent(t) && hs[i] != EndOfHeader
    requires Apply(t, hs[i], i).Ok?
    ensures ScanFrom(hs, i, t) == ScanFrom(hs, i + 1, Apply(t, hs[i], i).value)
  {
  }

  /**
    The header ends at the first end-of-header line: a successful scan
    stops just past it; without one the scan fails, and it reports the line
    missing only when there is none.
  */
  lemma {:induction false} ScanStopsAtEnd(hs: seq<HeaderLine>, i: nat, t: Tables)
    requires i <= |hs| && Consistent(t)
    ensures var r := ScanFrom(hs, i, t);
      (r.Ok? ==> r.value.1 == FirstEnd(hs, i) + 1) &&
      (FirstEnd(hs, i) == |hs| ==> r.Err?) &&
      (r == Err(MissingEndOfHeader) ==> FirstEnd(hs, i) == |hs|)
    decreases |hs| - i
  {
    if i < |hs| && hs[i] != EndOfHeader {
      var step := Apply(t, hs[i], i);
      if step.Ok? {
        ScanStep(hs, i, t);
        ScanStopsAtEnd(hs, i + 1, step.value);
      }
    }
  }

  // ---------------------------------------------------------------------------
  // The decoded header
  // ---------------------------------------------------------------------------

  /** The first system, in declaration order, whose code count differs from its declared count. */
  function FirstMismatch(t: Tables, systems: seq<char>): (r: Option<char>)
    requires Consistent(t)
    requires forall k :: 0 <= k < |systems| ==> systems[k] in t.obsTypes
    ensures r.None? <==> forall k :: 0 <= k < |systems| ==> |t.obsTypes[systems[k]]| == t.declared[systems[k]]
    ensures r.Some? ==> r.value in systems && |t.obsTypes[r.value]| != t.declared[r.value]
    ensures r.Some? ==> exists k :: (0 <= k < |systems| && systems[k] == r.value &&
      forall j :: 0 <= j < k ==> |t.obsTypes[systems[j]]| == t.declared[systems[j]])
  {
    if systems == [] then None
    else if |t.obsTypes[systems[0]]| != t.declared[systems[0]] then Some(systems[0])
    else
      var r := FirstMismatch(t, systems[1..]);
      assert forall k :: 1 <= k < |systems| ==> systems[k] == systems[1..][k - 1];
      assert r.Some? ==> exists k :: (0 <= k < |systems| && systems[k] == r.value &&
        forall j :: 0 <= j < k ==> |t.obsTypes[systems[j]]| == t.declared[systems[j]]) by {
        if r.Some? {
          var k :| 0 <= k < |systems[1..]| && systems[1..][k] == r.value &&
            forall j :: 0 <= j < k ==> |t.obsTypes[systems[1..][j]]| == t.declared[systems[1..][j]];
          assert systems[k + 1] == r.value;
        }
      }
      r
  }

  /** A BeiDou code of band 1 (the B1 name of version 3.02) renamed to band 2, as version 3.03 names B1. */
  function RenumberBeiDou(code: string): (r: string)
    ensures |r| == |code|
  {
    if |code| == 3 && code[1] == '1' then [code[0], '2', code[2]] else code
  }

  function FixBeiDou(obsTypes: map<char, seq<string>>): (r: map<char, seq<string>>)
    ensures r.Keys == obsTypes.Keys
  {
    if 'C' in obsTypes then
      var codes := obsTypes['C'];
      obsTypes['C' := seq(|codes|, k requires 0 <= k < |codes| => RenumberBeiDou(codes[k]))]
    else obsTypes
  }

  /**
    Decodes the header of a file of the given version (in hundredths): the
    code table, with BeiDou renumbered for version 3.02, the time system
    and where the data begin. Fails when the end-of-header line is missing,
    a count is unreadable, a continuation line has no record to extend, or a
    system's codes do not match its declared count.
  */
  function ParseHeader(lines: seq<string>, version: nat): Result<HeaderInfo, HeaderError> {
    Decode(ClassifyAll(lines), version)
  }

  /** Decodes a header from its recognised lines. */
  function Decode(hs: seq<HeaderLine>, version: nat): Result<HeaderInfo, HeaderError> {
    match ScanFrom(hs, 0, NoTables)
    case Err(e) => Err(e)
    case Ok((t, next)) =>
      match FirstMismatch(t, t.systems)
      case Some(sys) => Err(ObsTypesCountMismatch(sys))
      case None =>
        var table := if version == BeiDouBandOneVersion then FixBeiDou(t.obsTypes) else t.obsTypes;
        Ok(HeaderInfo(table, t.timeSystem, next))
  }

  /**
    A header is accepted exactly when its scan succeeds and every system
    holds as many codes as it declared; the decoded table then has the
    scanned systems and the data start just past the first end-of-header line.
  */
  lemma HeaderCounts(lines: seq<string>, version: nat)
    ensures var hs := ClassifyAll(lines);
      match ScanFrom(hs, 0, NoTables)
      case Err(e) => ParseHeader(lines, version) == Err(e)
      case Ok((t, next)) =>
        (ParseHeader(lines, version).Ok? <==>
          forall s :: s in t.obsTypes ==> |t.obsTypes[s]| == t.declared[s]) &&
        (ParseHeader(lines, version).Ok? ==>
          ParseHeader(lines, version).value.obsTypes.Keys == t.obsTypes.Keys &&
          ParseHeader(lines, version).value.bodyStart == FirstEnd(hs, 0) + 1)
  {
    DecodeCounts(ClassifyAll(lines), version);
  }

  /** HeaderCounts for header lines already recognised. */
  lemma DecodeCounts(hs: seq<HeaderLine>, version: nat)
    ensures match ScanFrom(hs, 0, NoTables)
      case Err(e) => Decode(hs, version) == Err(e)
      case Ok((t, next)) =>
        (Decode(hs, version).Ok? <==> forall s :: s in t.obsTypes ==> |t.obsTypes[s]| == t.declared[s]) &&
        (Decode(hs, version).Ok? ==>
          Decode(hs, version).value.obsTypes.Keys == t.obsTypes.Keys &&
          Decode(hs, version).value.bodyStart == FirstEnd(hs, 0) + 1)
  {
    ScanStopsAtEnd(hs, 0, NoTables);
    match ScanFrom(hs, 0, NoTables)
    case Err(e) =>
    case Ok((t, next)) =>
      MismatchExactly(t);
  }

  /** The first mismatch is absent exactly when every read system holds as many codes as it declared. */
  lemma MismatchExactly(t: Tables)
    requires Consistent(t)
    ensures FirstMismatch(t, t.systems).None? <==> forall s :: s in t.obsTypes ==> |t.obsTypes[s]| == t.declared[s]
  {
    if FirstMismatch(t, t.systems).None? {
      forall s | s in t.obsTypes
        ensures |t.obsTypes[s]| == t.declared[s]
      {
        assert s in t.systems;
        var k :| 0 <= k < |t.systems| && t.systems[k] == s;
      }
    }
  }

  /**
    Renumbering touches BeiDou alone: every other system keeps its codes,
    and each BeiDou code keeps its place, type and attribute, band 1
    becoming band 2 and every other band staying.
  */
  lemma FixBeiDouEffect(obsTypes: map<char, seq<string>>)
    ensures var r := FixBeiDou(obsTypes);
      (forall s :: s in obsTypes && s != 'C' ==> r[s] == obsTypes[s]) &&
      ('C' in obsTypes ==> (|r['C']| == |obsTypes['C']| &&
        forall k :: 0 <= k < |obsTypes['C']| && |obsTypes['C'][k]| == 3 ==>
          var code, fixed := obsTypes['C'][k], r['C'][k];
          |fixed| == 3 && fixed[0] == code[0] && fixed[2] == code[2] &&
          fixed[1] == (if code[1] == '1' then '2' else code[1])))
  {
  }

  /** An observation code as a header lists it: three characters, none of them blank. */
  predicate ValidCode(code: string) {
    |code| == 3 && ' ' !in code
  }

  predicate ValidCodes(codes: seq<string>) {
    forall k :: 0 <= k < |codes| ==> ValidCode(codes[k])
  }

  /** Codes in the layout of an observation-types line: each one preceded by a blank (1X,A3). */
  function CodesText(codes: seq<string>): (r: string)
    requires ValidCodes(codes)
    ensures |r| == 4 * |codes|
  {
    if codes == [] then "" else " " + codes[0] + CodesText(codes[1..])
  }

  /** Splitting written codes, whatever blank padding follows, gives the codes back. */
  lemma {:induction false} TokensOfCodesText(codes: seq<string>, pad: nat)
    requires ValidCodes(codes)
    ensures Tokens(CodesText(codes) + Spaces(pad)) == codes
  {
    if codes == [] {
      assert CodesText(codes) + Spaces(pad) == Spaces(pad);
      TokensBlankPrefix(Spaces(pad), "");
    } else {
      assert ValidCodes(codes[1..]);
      TokensOfCodesText(codes[1..], pad);
      CodesTextCons(codes, pad);
    }
  }

  /** The first written code is the first token; the rest of the text gives the others. */
  lemma CodesTextCons(codes: seq<string>, pad: nat)
    requires ValidCodes(codes) && codes != []
    ensures var rest := CodesText(codes[1..]) + Spaces(pad);
      Tokens(CodesText(codes) + Spaces(pad)) == [codes[0]] + Tokens(rest)
  {
    var rest := CodesText(codes[1..]) + Spaces(pad);
    if codes[1..] != [] {
      assert rest[0] == CodesText(codes[1..])[0];
    }
    assert CodesText(codes) + Spaces(pad) == " " + codes[0] + rest;
    TokensAfterBlank(codes[0], rest);
  }

  /**
    One observation-types line: a six-column head (system letter and count,
    or blanks on a continuation line), up to 13 codes, blank padding to
    column 60 and the label.
  */
  function ObsTypesLine(head: string, codes: seq<string>): (r: string)
    requires |head| == 6 && |codes| <= CodesPerLine && ValidCodes(codes)
    ensures |r| == 60 + |ObsTypesLabel|
  {
    head + CodesText(codes) + Spaces(54 - 4 * |codes|) + ObsTypesLabel
  }

  /** The label of a written line is the observation-types label. */
  lemma ObsTypesLineLabel(head: string, codes: seq<string>)
    requires |head| == 6 && |codes| <= CodesPerLine && ValidCodes(codes)
    ensures Label(ObsTypesLine(head, codes)) == ObsTypesLabel
  {
    var mid := CodesText(codes) + Spaces(54 - 4 * |codes|);
    SliceOfLast(head + mid, ObsTypesLabel);
    assert ObsTypesLine(head, codes) == head + mid + ObsTypesLabel;
    StripLabel();
  }

  lemma StripLabel()
    ensures Strip(Slice(ObsTypesLabel, 0, 19)) == ObsTypesLabel
  {
    StripPadLeft(ObsTypesLabel, 0);
    assert PadLeft(ObsTypesLabel, 0) == ObsTypesLabel;
  }

  /** The codes of a written line are the codes written. */
  lemma ObsTypesLineCodes(head: string, codes: seq<string>)
    requires |head| == 6 && |codes| <= CodesPerLine && ValidCodes(codes)
    ensures LineCodes(ObsTypesLine(head, codes)) == codes
  {
    var pad: nat := 54 - 4 * |codes|;
    TokensOfCodesText(codes, pad);
    ObsTypesLineMiddle(head, codes);
    LineCodesOf(ObsTypesLine(head, codes), CodesText(codes) + Spaces(pad));
  }

  lemma ObsTypesLineMiddle(head: string, codes: seq<string>)
    requires |head| == 6 && |codes| <= CodesPerLine && ValidCodes(codes)
    ensures Slice(ObsTypesLine(head, codes), 6, 60) == CodesText(codes) + Spaces(54 - 4 * |codes|)
  {
    var mid := CodesText(codes) + Spaces(54 - 4 * |codes|);
    FieldOf(ObsTypesLine(head, codes), head, mid, ObsTypesLabel);
  }

  lemma LineCodesOf(line: string, mid: string)
    requires Slice(line, 6, 60) == mid
    ensures LineCodes(line) == Tokens(mid)
  {
  }

  /** The count columns and the first column of a written line come from its head. */
  lemma ObsTypesLineHead(head: string, codes: seq<string>)
    requires |head| == 6 && |codes| <= CodesPerLine && ValidCodes(codes)
    ensures Slice(ObsTypesLine(head, codes), 3, 6) == head[3..]
    ensures ObsTypesLine(head, codes)[0] == head[0]
    ensures OpensRecord(ObsTypesLine(head, codes)) <==> head[0] != ' '
  {
    var line := ObsTypesLine(head, codes);
    var rest := CodesText(codes) + Spaces(54 - 4 * |codes|) + ObsTypesLabel;
    assert line == head + rest;
    SliceOfPrefix(head, rest, 3, 6);
    assert line[0] == head[0];
  }

  /** The head of a record's first line: the system letter, two blanks and the count (A1,2X,I3). */
  function RecordHead(sys: char, count: nat): (r: string)
    requires count < 1000
    ensures |r| == 6
  {
    assert Pow10(3) == 1000;
    IntWidth(count, 3);
    [sys] + "  " + FormatInt(count, 3)
  }

  /** The lines of a record from the given head on: 13 codes a line, continuation lines with a blank head. */
  function RecordLines(head: string, codes: seq<string>): (r: seq<string>)
    requires |head| == 6 && ValidCodes(codes)
    decreases |codes|
  {
    if |codes| <= CodesPerLine then [ObsTypesLine(head, codes)]
    else [ObsTypesLine(head, codes[..CodesPerLine])] + RecordLines(Spaces(6), codes[CodesPerLine..])
  }

  /** The `SYS / # / OBS TYPES` record a writer produces for one system. */
  function ObsTypesRecord(sys: char, codes: seq<string>): seq<string>
    requires sys != ' ' && |codes| < 1000 && ValidCodes(codes)
  {
    RecordLines(RecordHead(sys, |codes|), codes)
  }


  /** An opening observation-types line is recognised with its system, count and codes. */
  lemma ClassifyOpening(line: string, sys: char, codes: seq<string>, count: int)
    requires Label(line) == ObsTypesLabel && OpensRecord(line) && line[0] == sys
    requires ParseInt(Slice(line, 3, 6)) == Some(count) && LineCodes(line) == codes
    ensures Classify(line) == OpensObsTypes(sys, Some(count), codes)
  {
  }

  /** The first line of a written record opens a record, and its count columns read as the count. */
  lemma OpeningLineCount(sys: char, chunk: seq<string>, count: nat)
    requires sys != ' ' && count < 1000 && |chunk| <= CodesPerLine && ValidCodes(chunk)
    ensures var line := ObsTypesLine(RecordHead(sys, count), chunk);
      OpensRecord(line) && line[0] == sys && ParseInt(Slice(line, 3, 6)) == Some(count)
  {
    var head := RecordHead(sys, count);
    ObsTypesLineHead(head, chunk);
    assert head[3..] == FormatInt(count, 3);
    ParseFormatInt(count, 3);
  }

  /** The first line of a written record opens the system with the declared count and its first codes. */
  lemma ClassifyOpeningLine(sys: char, chunk: seq<string>, count: nat)
    requires sys != ' ' && count < 1000 && |chunk| <= CodesPerLine && ValidCodes(chunk)
    ensures Classify(ObsTypesLine(RecordHead(sys, count), chunk)) == OpensObsTypes(sys, Some(count), chunk)
  {
    var head := RecordHead(sys, count);
    var line := ObsTypesLine(head, chunk);
    ObsTypesLineLabel(head, chunk);
    ObsTypesLineCodes(head, chunk);
    OpeningLineCount(sys, chunk, count);
    ClassifyOpening(line, sys, chunk, count);
  }

  /** A written continuation line continues the open record with its codes. */
  lemma ClassifyContinuationLine(chunk: seq<string>)
    requires |chunk| <= CodesPerLine && ValidCodes(chunk)
    ensures Classify(ObsTypesLine(Spaces(6), chunk)) == ContinuesObsTypes(chunk)
  {
    ObsTypesLineLabel(Spaces(6), chunk);
    ObsTypesLineCodes(Spaces(6), chunk);
    ObsTypesLineHead(Spaces(6), chunk);
  }

  /** What the continuation lines of a record say: the codes, 13 a line. */
  function ContinuationKinds(codes: seq<string>): (r: seq<HeaderLine>)
    ensures forall k :: 0 <= k < |r| ==> r[k].ContinuesObsTypes?
    decreases |codes|
  {
    if |codes| <= CodesPerLine then [ContinuesObsTypes(codes)]
    else [ContinuesObsTypes(codes[..CodesPerLine])] + ContinuationKinds(codes[CodesPerLine..])
  }

  /** What a written record says: the system, its count and first codes, then the continuations. */
  function RecordKinds(sys: char, codes: seq<string>): (r: seq<HeaderLine>)
    ensures forall k :: 0 <= k < |r| ==> r[k].OpensObsTypes? || r[k].ContinuesObsTypes?
  {
    if |codes| <= CodesPerLine then [OpensObsTypes(sys, Some(|codes|), codes)]
    else [OpensObsTypes(sys, Some(|codes|), codes[..CodesPerLine])] + ContinuationKinds(codes[CodesPerLine..])
  }

  lemma ClassifyAllAppend(a: seq<string>, b: seq<string>)
    ensures ClassifyAll(a + b) == ClassifyAll(a) + ClassifyAll(b)
  {
    var l, r := ClassifyAll(a + b), ClassifyAll(a) + ClassifyAll(b);
    assert |l| == |r|;
    forall k | 0 <= k < |l| ensures l[k] == r[k] {
      if k < |a| {
        assert (a + b)[k] == a[k];
      } else {
        assert (a + b)[k] == b[k - |a|];
      }
    }
  }

  lemma ClassifyAllOne(line: string)
    ensures ClassifyAll([line]) == [Classify(line)]
  {
  }

  /** The continuation lines of a written record are recognised as such, codes and all. */
  lemma {:induction false} ClassifyContinuation(codes: seq<string>)
    requires ValidCodes(codes)
    ensures ClassifyAll(RecordLines(Spaces(6), codes)) == ContinuationKinds(codes)
    decreases |codes|
  {
    if |codes| <= CodesPerLine {
      ClassifyContinuationLine(codes);
      ClassifyAllOne(ObsTypesLine(Spaces(6), codes));
    } else {
      var chunk, rest := codes[..CodesPerLine], codes[CodesPerLine..];
      ClassifyContinuationLine(chunk);
      ClassifyAllOne(ObsTypesLine(Spaces(6), chunk));
      ClassifyContinuation(rest);
      ClassifyAllAppend([ObsTypesLine(Spaces(6), chunk)], RecordLines(Spaces(6), rest));
    }
  }

  /** The lines of a written record are recognised as the record's system, count and codes. */
  lemma ClassifyRecord(sys: char, codes: seq<string>)
    requires sys != ' ' && |codes| < 1000 && ValidCodes(codes)
    ensures ClassifyAll(ObsTypesRecord(sys, codes)) == RecordKinds(sys, codes)
  {
    var head := RecordHead(sys, |codes|);
    if |codes| <= CodesPerLine {
      ClassifyOpeningLine(sys, codes, |codes|);
      ClassifyAllOne(ObsTypesLine(head, codes));
    } else {
      var chunk, rest := codes[..CodesPerLine], codes[CodesPerLine..];
      ClassifyOpeningLine(sys, chunk, |codes|);
      ClassifyAllOne(ObsTypesLine(head, chunk));
      ClassifyContinuation(rest);
      ClassifyAllAppend([ObsTypesLine(head, chunk)], RecordLines(Spaces(6), rest));
    }
  }

  // ---------------------------------------------------------------------------
  // Reading records back
  // ---------------------------------------------------------------------------

  /** Takes the given recognised lines into account one after another. */
  function ReadAll(t: Tables, hs: seq<HeaderLine>, index: nat): (r: Result<Tables, HeaderError>)
    requires Consistent(t)
    ensures r.Ok? ==> Consistent(r.value)
    decreases |hs|
  {
    if hs == [] then Ok(t)
    else
      match Apply(t, hs[0], index)
      case Err(e) => Err(e)
      case Ok(next) => ReadAll(next, hs[1..], index + 1)
  }

  /** The tables once a record declaring the codes of sys has been read. */
  function Declare(t: Tables, sys: char, codes: seq<string>): Tables {
    t.(obsTypes := t.obsTypes[sys := codes], declared := t.declared[sys := |codes|],
       systems := t.systems + [sys], current := Some(sys))
  }

  /** Reading a first line and then the rest. */
  lemma ReadAllCons(t: Tables, h: HeaderLine, rest: seq<HeaderLine>, index: nat)
    requires Consistent(t) && Apply(t, h, index).Ok?
    ensures ReadAll(t, [h] + rest, index) == ReadAll(Apply(t, h, index).value, rest, index + 1)
  {
    assert ([h] + rest)[0] == h && ([h] + rest)[1..] == rest;
  }

  /** Appending two runs of codes in turn appends their concatenation. */
  lemma AppendInTurn(t: Tables, sys: char, a: seq<string>, b: seq<string>)
    requires sys in t.obsTypes
    ensures var t1 := t.(obsTypes := t.obsTypes[sys := t.obsTypes[sys] + a]);
      t1.(obsTypes := t1.obsTypes[sys := t1.obsTypes[sys] + b]) == t.(obsTypes := t.obsTypes[sys := t.obsTypes[sys] + (a + b)])
  {
    assert t.obsTypes[sys] + a + b == t.obsTypes[sys] + (a + b);
  }

  /** Continuation lines append their codes, in order, to the open system. */
  lemma {:induction false} ReadContinuation(t: Tables, sys: char, codes: seq<string>, index: nat)
    requires Consistent(t) && t.current == Some(sys)
    ensures ReadAll(t, ContinuationKinds(codes), index) ==
      Ok(t.(obsTypes := t.obsTypes[sys := t.obsTypes[sys] + codes]))
    decreases |codes|
  {
    if |codes| <= CodesPerLine {
      ReadAllCons(t, ContinuesObsTypes(codes), [], index);
      assert ContinuationKinds(codes) == [ContinuesObsTypes(codes)] + [];
    } else {
      var chunk, rest := codes[..CodesPerLine], codes[CodesPerLine..];
      var t1 := t.(obsTypes := t.obsTypes[sys := t.obsTypes[sys] + chunk]);
      ReadAllCons(t, ContinuesObsTypes(chunk), ContinuationKinds(rest), index);
      ReadContinuation(t1, sys, rest, index + 1);
      AppendInTurn(t, sys, chunk, rest);
      assert chunk + rest == codes;
    }
  }

  lemma ReopenWhole(t: Tables, sys: char, chunk: seq<string>, rest: seq<string>, count: nat)
    ensures var t1 := t.(obsTypes := t.obsTypes[sys := chunk], declared := t.declared[sys := count],
                         systems := t.systems + [sys], current := Some(sys));
      t1.(obsTypes := t1.obsTypes[sys := t1.obsTypes[sys] + rest]) ==
      t.(obsTypes := t.obsTypes[sys := chunk + rest], declared := t.declared[sys := count],
         systems := t.systems + [sys], current := Some(sys))
  {
  }

  /**
    Reading a record declares exactly its codes, in order, with their
    number as the count, whatever the number of lines it takes.
  */
  lemma ReadRecord(t: Tables, sys: char, codes: seq<string>, index: nat)
    requires Consistent(t)
    ensures ReadAll(t, RecordKinds(sys, codes), index) == Ok(Declare(t, sys, codes))
  {
    var opening := OpensObsTypes(sys, Some(|codes|), if |codes| <= CodesPerLine then codes else codes[..CodesPerLine]);
    if |codes| <= CodesPerLine {
      ReadAllCons(t, opening, [], index);
      assert RecordKinds(sys, codes) == [opening] + [];
    } else {
      var chunk, rest := codes[..CodesPerLine], codes[CodesPerLine..];
      var t1 := t.(obsTypes := t.obsTypes[sys := chunk], declared := t.declared[sys := |codes|],
                   systems := t.systems + [sys], current := Some(sys));
      ReadAllCons(t, opening, ContinuationKinds(rest), index);
      ReadContinuation(t1, sys, rest, index + 1);
      ReopenWhole(t, sys, chunk, rest, |codes|);
      assert chunk + rest == codes;
    }
  }

  // ---------------------------------------------------------------------------
  // A written header, read back
  // ---------------------------------------------------------------------------

  /** One system's declaration: its letter and its observation codes in column order. */
  datatype Declaration = Declaration(sys: char, codes: seq<string>)

  predicate Writable(d: Declaration) {
    d.sys != ' ' && |d.codes| < 1000 && ValidCodes(d.codes)
  }

  predicate AllWritable(ds: seq<Declaration>) {
    forall k :: 0 <= k < |ds| ==> Writable(ds[k])
  }

  /** The observation-types records of the declarations, one after another. */
  function RecordsLines(ds: seq<Declaration>): seq<string>
    requires AllWritable(ds)
  {
    if ds == [] then [] else ObsTypesRecord(ds[0].sys, ds[0].codes) + RecordsLines(ds[1..])
  }

  /** What the records of the declarations say, one after another. */
  function RecordsKinds(ds: seq<Declaration>): (r: seq<HeaderLine>)
    ensures forall k :: 0 <= k < |r| ==> r[k].OpensObsTypes? || r[k].ContinuesObsTypes?
  {
    if ds == [] then [] else RecordKinds(ds[0].sys, ds[0].codes) + RecordsKinds(ds[1..])
  }

  /** Written records are recognised as the declarations they were written from. */
  lemma {:induction false} ClassifyRecords(ds: seq<Declaration>)
    requires AllWritable(ds)
    ensures ClassifyAll(RecordsLines(ds)) == RecordsKinds(ds)
    decreases |ds|
  {
    if ds != [] {
      assert Writable(ds[0]);
      ClassifyRecord(ds[0].sys, ds[0].codes);
      assert AllWritable(ds[1..]) by {
        assert forall k :: 0 <= k < |ds[1..]| ==> ds[1..][k] == ds[k + 1];
      }
      ClassifyRecords(ds[1..]);
      ClassifyAllAppend(ObsTypesRecord(ds[0].sys, ds[0].codes), RecordsLines(ds[1..]));
    }
  }

  /** The tables once every declaration has been read, in order. */
  function DeclareAll(t: Tables, ds: seq<Declaration>): Tables
    decreases |ds|
  {
    if ds == [] then t else DeclareAll(Declare(t, ds[0].sys, ds[0].codes), ds[1..])
  }

  /** Every system read so far holds as many codes as it declared. */
  predicate CountsAgree(t: Tables) {
    forall s :: s in t.obsTypes && s in t.declared ==> |t.obsTypes[s]| == t.declared[s]
  }

  lemma DeclareKeeps(t: Tables, sys: char, codes: seq<string>)
    requires Consistent(t) && CountsAgree(t)
    ensures Consistent(Declare(t, sys, codes)) && CountsAgree(Declare(t, sys, codes))
  {
  }

  /** Declaring systems in turn keeps the tables consistent, the counts in agreement and the time system. */
  lemma {:induction false} DeclareAllKeeps(t: Tables, ds: seq<Declaration>)
    requires Consistent(t) && CountsAgree(t)
    ensures Consistent(DeclareAll(t, ds)) && CountsAgree(DeclareAll(t, ds))
    ensures DeclareAll(t, ds).timeSystem == t.timeSystem
    decreases |ds|
  {
    if ds != [] {
      DeclareKeeps(t, ds[0].sys, ds[0].codes);
      DeclareAllKeeps(Declare(t, ds[0].sys, ds[0].codes), ds[1..]);
    }
  }

  /** Reading two runs of lines is reading the first, then the second from where the first stopped. */
  lemma {:induction false} ReadAllAppend(t: Tables, a: seq<HeaderLine>, b: seq<HeaderLine>, index: nat)
    requires Consistent(t) && ReadAll(t, a, index).Ok?
    ensures ReadAll(t, a + b, index) == ReadAll(ReadAll(t, a, index).value, b, index + |a|)
    decreases |a|
  {
    if a == [] {
      assert a + b == b;
    } else {
      var next := Apply(t, a[0], index).value;
      ReadAllCons(t, a[0], a[1..] + b, index);
      assert a + b == [a[0]] + (a[1..] + b);
      ReadAllAppend(next, a[1..], b, index + 1);
    }
  }

  /** Reading records declares their systems in turn. */
  lemma {:induction false} ReadRecords(t: Tables, ds: seq<Declaration>, index: nat)
    requires Consistent(t)
    ensures ReadAll(t, RecordsKinds(ds), index) == Ok(DeclareAll(t, ds))
    decreases |ds|
  {
    if ds != [] {
      var d := ds[0];
      var first := RecordKinds(d.sys, d.codes);
      ReadRecord(t, d.sys, d.codes, index);
      ReadAllAppend(t, first, RecordsKinds(ds[1..]), index);
      ReadRecords(Declare(t, d.sys, d.codes), ds[1..], index + |first|);
    }
  }

  /** Lines that hold no end of header and read without error carry the scan past them. */
  lemma {:induction false} ScanAcross(hs: seq<HeaderLine>, i: nat, k: nat, t: Tables)
    requires i + k <= |hs| && Consistent(t)
    requires forall j :: i <= j < i + k ==> hs[j] != EndOfHeader
    requires ReadAll(t, hs[i..i + k], i).Ok?
    ensures ScanFrom(hs, i, t) == ScanFrom(hs, i + k, ReadAll(t, hs[i..i + k], i).value)
    decreases k
  {
    var run := hs[i..i + k];
    if k == 0 {
      assert run == [];
    } else {
      assert run[0] == hs[i] && run[1..] == hs[i + 1..i + k];
      var next := Apply(t, hs[i], i).value;
      ScanStep(hs, i, t);
      ScanAcross(hs, i + 1, k - 1, next);
    }
  }

  /** The line that closes a written header: sixty blanks and the label. */
  const EndLine: string := Spaces(60) + EndLabel

  lemma EndLineIsEnd()
    ensures Classify(EndLine) == EndOfHeader
  {
    LabelAfterColumns(Spaces(60), EndLabel);
  }

  /** A label written right after column 60 reads back as itself. */
  lemma LabelAfterColumns(p: string, m: string)
    requires |p| == 60 && |m| <= 20
    requires m != [] && m[0] != ' ' && m[|m| - 1] != ' '
    ensures Label(p + m) == m
  {
    assert Slice(p + m, 60, 80) == m;
    StripPadLeft(m, 0);
    assert PadLeft(m, 0) == m;
  }

  /**
    A header made of written observation-types records and the end line
    decodes to the declared codes of each system (the last declaration of a
    system winning), with the default time system, and the data start right
    after it. Version 3.02 renumbers the BeiDou codes.
  */
  lemma WrittenHeaderRoundTrip(ds: seq<Declaration>, version: nat)
    requires AllWritable(ds)
    ensures var lines := RecordsLines(ds) + [EndLine];
      var table := DeclareAll(NoTables, ds).obsTypes;
      ParseHeader(lines, version) ==
        Ok(HeaderInfo(if version == BeiDouBandOneVersion then FixBeiDou(table) else table,
                      DefaultTimeSystem, |lines|))
  {
    var lines := RecordsLines(ds) + [EndLine];
    var t := DeclareAll(NoTables, ds);
    ScanWritten(ds);
    DeclareAllKeeps(NoTables, ds);
    NoMismatch(t);
    AcceptedHeader(lines, version, t, |lines|);
  }

  lemma NoMismatch(t: Tables)
    requires Consistent(t) && CountsAgree(t)
    ensures FirstMismatch(t, t.systems).None?
  {
  }

  /** The scan of a written header reads every declaration and stops at the end line. */
  lemma ScanWritten(ds: seq<Declaration>)
    requires AllWritable(ds)
    ensures var lines := RecordsLines(ds) + [EndLine];
      ScanFrom(ClassifyAll(lines), 0, NoTables) == Ok((DeclareAll(NoTables, ds), |lines|))
  {
    WrittenKinds(ds);
    ScanKinds(ds);
  }

  /** A written header is recognised as its records followed by the end of the header. */
  lemma WrittenKinds(ds: seq<Declaration>)
    requires AllWritable(ds)
    ensures ClassifyAll(RecordsLines(ds) + [EndLine]) == RecordsKinds(ds) + [EndOfHeader]
  {
    ClassifyRecords(ds);
    EndLineIsEnd();
    ClassifyAllOne(EndLine);
    ClassifyAllAppend(RecordsLines(ds), [EndLine]);
  }

  /** Scanning records followed by the end of the header declares every system and stops after the end. */
  lemma ScanKinds(ds: seq<Declaration>)
    ensures var hs := RecordsKinds(ds) + [EndOfHeader];
      ScanFrom(hs, 0, NoTables) == Ok((DeclareAll(NoTables, ds), |hs|))
  {
    var kinds := RecordsKinds(ds);
    var hs := kinds + [EndOfHeader];
    assert hs[0..|kinds|] == kinds;
    ReadRecords(NoTables, ds, 0);
    ScanAcross(hs, 0, |kinds|, NoTables);
  }

  /**
    A scan whose tables hold a system with a wrong count fails the header,
    naming the first such system in declaration order.
  */
  lemma MismatchedHeader(lines: seq<string>, version: nat, t: Tables, next: nat)
    requires Consistent(t) && ScanFrom(ClassifyAll(lines), 0, NoTables) == Ok((t, next))
    requires exists s :: s in t.obsTypes && |t.obsTypes[s]| != t.declared[s]
    ensures exists k :: (0 <= k < |t.systems| && ParseHeader(lines, version) == Err(ObsTypesCountMismatch(t.systems[k])) &&
      |t.obsTypes[t.systems[k]]| != t.declared[t.systems[k]] &&
      forall j :: 0 <= j < k ==> |t.obsTypes[t.systems[j]]| == t.declared[t.systems[j]])
  {
    MismatchExactly(t);
    var sys := FirstMismatch(t, t.systems).value;
    var k :| 0 <= k < |t.systems| && t.systems[k] == sys &&
      forall j :: 0 <= j < k ==> |t.obsTypes[t.systems[j]]| == t.declared[t.systems[j]];
    DecodeMismatch(ClassifyAll(lines), version, t, next);
  }

  /** Decoding fails with the first mismatch of a successful scan. */
  lemma DecodeMismatch(hs: seq<HeaderLine>, version: nat, t: Tables, next: nat)
    requires Consistent(t) && ScanFrom(hs, 0, NoTables) == Ok((t, next)) && FirstMismatch(t, t.systems).Some?
    ensures Decode(hs, version) == Err(ObsTypesCountMismatch(FirstMismatch(t, t.systems).value))
  {
  }

  /** A scan that succeeds with every count matched decodes to its tables. */
  lemma AcceptedHeader(lines: seq<string>, version: nat, t: Tables, next: nat)
    requires Consistent(t) && ScanFrom(ClassifyAll(lines), 0, NoTables) == Ok((t, next))
    requires FirstMismatch(t, t.systems).None?
    ensures ParseHeader(lines, version) ==
      Ok(HeaderInfo(if version == BeiDouBandOneVersion then FixBeiDou(t.obsTypes) else t.obsTypes, t.timeSystem, next))
  {
  }
}
