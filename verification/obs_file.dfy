/**
  The observation-file decoder: it reads the header when it is opened, then
  hands out one epoch block at a time, moving a cursor over the lines of the
  data section. An epoch block is an epoch line ('>') followed, for a normal
  epoch (flag 0) or one after a power failure (flag 1), by one observation
  line per satellite, or, for an event flag (2 to 6), by as many
  special-record lines, which are skipped.
*/
module ObsFile {
  import opened Wrappers
  import opened Header
  import opened ObsSlices
  import opened Epoch
  import opened ObsData
  import opened Priority
  import Text

  /** Why reading the data section stops. */
  datatype DataError =
    | NotAnEpochLine(line: nat)                  // a line where an epoch line was expected
    | BadEpoch(line: nat, epochError: EpochError)     // an epoch line that does not read
    | BadRecord(line: nat, recordError: RecordError)  // an observation line that does not read

  /** One epoch: its epoch line and the observation lines that follow it. */
  datatype EpochBlock = EpochBlock(epoch: EpochRecord, records: seq<ObservationRecord>)

  /** The first character of every epoch line. */
  const EpochMarker: char := '>'

  /** The line at index j; a line past the end of the file reads as empty. */
  function LineAt(lines: seq<string>, j: nat): string {
    if j < |lines| then lines[j] else ""
  }

  /** The observation line at index j, read with the header's code table. */
  function RowAt(obsTypes: map<char, seq<string>>, lines: seq<string>, j: nat): Result<ObservationRecord, RecordError> {
    ParseObsRecord(obsTypes, LineAt(lines, j))
  }

  /** Reads observation lines by index. */
  type RowReader = nat -> Result<ObservationRecord, RecordError>

  /** The reader of the file's observation lines under the header's code table. */
  function ReaderOf(obsTypes: map<char, seq<string>>, lines: seq<string>): RowReader {
    (j: nat) => RowAt(obsTypes, lines, j)
  }

  /** The observation lines [from, stop), the first failure stopping the reading. */
  function Rows(row: RowReader, from: nat, stop: nat): (r: Result<seq<ObservationRecord>, DataError>)
    requires from <= stop
    ensures r.Ok? ==> |r.value| == stop - from
    decreases stop
  {
    if stop == from then Ok([])
    else
      match Rows(row, from, stop - 1)
      case Err(e) => Err(e)
      case Ok(rs) =>
        match row(stop - 1)
        case Err(e) => Err(BadRecord(stop - 1, e))
        case Ok(rec) => Ok(rs + [rec])
  }

  /** No line from index size on reads: the reader ends at size. */
  ghost predicate EndsAt(row: RowReader, size: nat) {
    forall j: nat :: size <= j ==> row(j).Err?
  }

  /** A line past the end of the file does not read: it has no satellite identifier. */
  lemma ReaderEndsAt(obsTypes: map<char, seq<string>>, lines: seq<string>)
    ensures EndsAt(ReaderOf(obsTypes, lines), |lines|)
    ensures forall j: nat :: |lines| <= j ==> ReaderOf(obsTypes, lines)(j) == Err(EmptyLine)
  {
  }

  /** Observation lines read exactly when each of them reads, and the record for line j is what line j reads as. */
  lemma {:induction false} RowsPointwise(row: RowReader, from: nat, stop: nat)
    requires from <= stop
    ensures var r := Rows(row, from, stop);
      (r.Ok? <==> forall j :: from <= j < stop ==> row(j).Ok?) &&
      (r.Ok? ==> forall j :: from <= j < stop ==> row(j) == Ok(r.value[j - from]))
    decreases stop
  {
    if stop > from {
      RowsPointwise(row, from, stop - 1);
      var r := Rows(row, from, stop);
      if r.Ok? {
        var rs := Rows(row, from, stop - 1).value;
        assert r.value == rs + [row(stop - 1).value];
        forall j | from <= j < stop
          ensures row(j) == Ok(r.value[j - from])
        {
          if j < stop - 1 {
            assert r.value[j - from] == rs[j - from];
          }
        }
      }
    }
  }

  /** Reading lines of which none past some bound reads, all the lines read lie before the bound. */
  lemma RowsWithin(row: RowReader, from: nat, stop: nat, bound: nat)
    requires from <= stop && from <= bound && EndsAt(row, bound)
    ensures Rows(row, from, stop).Ok? ==> stop <= bound
  {
    RowsPointwise(row, from, stop);
    if stop > bound {
      assert row(stop - 1).Err?;
    }
  }

  /** A reading that fails names the first observation line that does not read. */
  lemma {:induction false} RowsFailure(row: RowReader, from: nat, stop: nat)
    requires from <= stop
    ensures var r := Rows(row, from, stop);
      r.Err? ==> (r.error.BadRecord? && from <= r.error.line < stop &&
        (forall j :: from <= j < r.error.line ==> row(j).Ok?) &&
        row(r.error.line) == Err(r.error.recordError))
    decreases stop
  {
    if stop > from {
      RowsFailure(row, from, stop - 1);
      if Rows(row, from, stop - 1).Ok? {
        RowsPointwise(row, from, stop - 1);
      }
    }
  }

  /** Once a reading fails, reading further lines fails the same way. */
  lemma {:induction false} RowsFailureStays(row: RowReader, from: nat, mid: nat, stop: nat)
    requires from <= mid <= stop && Rows(row, from, mid).Err?
    ensures Rows(row, from, stop) == Rows(row, from, mid)
    decreases stop
  {
    if stop > mid {
      RowsFailureStays(row, from, mid, stop - 1);
    }
  }

  /** The number of lines an epoch line announces; a negative count announces none. */
  function Announced(e: EpochRecord): nat {
    if e.count < 0 then 0 else e.count
  }

  function Min(a: nat, b: nat): nat {
    if a <= b then a else b
  }

  /**
    Epoch flags 0 (normal) and 1 (power failure since the previous epoch)
    are followed by observation lines; the event flags announce
    special-record lines instead.
  */
  predicate CarriesObservations(e: EpochRecord) {
    e.flag == 0 || e.flag == 1
  }

  /**
    The block of a read epoch line at index i in a file of size lines: an
    epoch carrying observations reads the announced observation lines, an
    event skips them (up to the end of the file). The result holds the block and the index of
    the line after it.
  */
  function Block(row: RowReader, size: nat, i: nat, e: EpochRecord): Result<(EpochBlock, nat), DataError> {
    var n := Announced(e);
    if CarriesObservations(e) then
      match Rows(row, i + 1, i + 1 + n)
      case Err(err) => Err(err)
      case Ok(rs) => Ok((EpochBlock(e, rs), i + 1 + n))
    else Ok((EpochBlock(e, []), Min(i + 1 + n, size)))
  }

  /** Reads the epoch block starting at line i. */
  function ReadBlock(obsTypes: map<char, seq<string>>, lines: seq<string>, i: nat)
    : Result<(EpochBlock, nat), DataError>
    requires i < |lines|
  {
    var line := lines[i];
    if line == [] || line[0] != EpochMarker then Err(NotAnEpochLine(i))
    else
      match ParseEpochRecord(line)
      case Err(e) => Err(BadEpoch(i, e))
      case Ok(e) => Block(ReaderOf(obsTypes, lines), |lines|, i, e)
  }

  /**
    A block that reads moves the cursor forward and stays inside the file; an
    epoch with observations holds one record per announced satellite, each
    what the corresponding line after the epoch line reads as, and an event
    holds none and skips the lines it announces.
  */
  lemma BlockShape(row: RowReader, size: nat, i: nat, e: EpochRecord)
    requires i < size && EndsAt(row, size)
    ensures var r := Block(row, size, i, e);
      r.Ok? ==> (r.value.0.epoch == e && i < r.value.1 <= size &&
        (CarriesObservations(e) ==> (r.value.1 == i + 1 + Announced(e) && |r.value.0.records| == Announced(e) &&
          forall j :: i < j <= i + Announced(e) ==> row(j) == Ok(r.value.0.records[j - i - 1]))) &&
        (!CarriesObservations(e) ==> r.value.0.records == [] && r.value.1 == Min(i + 1 + Announced(e), size)))
  {
    RowsPointwise(row, i + 1, i + 1 + Announced(e));
    RowsWithin(row, i + 1, i + 1 + Announced(e), size);
  }

  /** An epoch with observations fails exactly when one of its announced lines does not read, and names the first. */
  lemma BlockFailure(row: RowReader, size: nat, i: nat, e: EpochRecord)
    ensures var r := Block(row, size, i, e);
      (r.Err? <==> CarriesObservations(e) && exists j :: i < j <= i + Announced(e) && row(j).Err?) &&
      (r.Err? ==> (r.error.BadRecord? && i < r.error.line <= i + Announced(e) &&
        (forall j :: i < j < r.error.line ==> row(j).Ok?) &&
        row(r.error.line) == Err(r.error.recordError)))
  {
    RowsPointwise(row, i + 1, i + 1 + Announced(e));
    RowsFailure(row, i + 1, i + 1 + Announced(e));
  }

  /** Past a well-formed epoch line, the block is the one that epoch line announces. */
  lemma BlockOfEpochLine(obsTypes: map<char, seq<string>>, lines: seq<string>, i: nat, e: EpochRecord)
    requires i < |lines| && lines[i] != [] && lines[i][0] == EpochMarker && ParseEpochRecord(lines[i]) == Ok(e)
    ensures ReadBlock(obsTypes, lines, i) == Block(ReaderOf(obsTypes, lines), |lines|, i, e)
  {
  }

  /** Inside the file, the reader gives what the line itself reads as. */
  lemma ReaderInside(obsTypes: map<char, seq<string>>, lines: seq<string>, j: nat)
    requires j < |lines|
    ensures ReaderOf(obsTypes, lines)(j) == ObsData.ParseObsRecord(obsTypes, lines[j])
  {
  }

  /**
    The block for epoch e read at line i ends past its epoch line and inside
    the file; an epoch with observations holds, for each announced line after its epoch
    line, the record that line reads as, and an event holds none and
    skips the lines it announces.
  */
  ghost predicate ReadsAsBlock(obsTypes: map<char, seq<string>>, lines: seq<string>, i: nat, e: EpochRecord,
                               b: EpochBlock, next: nat) {
    i < next <= |lines| && b.epoch == e &&
    (CarriesObservations(e) ==> (next == i + 1 + Announced(e) && |b.records| == Announced(e) &&
      forall k :: 0 <= k < |b.records| ==> ObsData.ParseObsRecord(obsTypes, lines[i + 1 + k]) == Ok(b.records[k]))) &&
    (!CarriesObservations(e) ==> b.records == [] && next == Min(i + 1 + Announced(e), |lines|))
  }

  /** A block that reads is the block of the epoch its line parses as. */
  lemma ReadBlockRecords(obsTypes: map<char, seq<string>>, lines: seq<string>, i: nat)
    requires i < |lines| && ReadBlock(obsTypes, lines, i).Ok?
    ensures ParseEpochRecord(lines[i]).Ok?
    ensures var (b, next) := ReadBlock(obsTypes, lines, i).value;
      ReadsAsBlock(obsTypes, lines, i, ParseEpochRecord(lines[i]).value, b, next)
  {
    var e := ParseEpochRecord(lines[i]).value;
    BlockOfEpochLine(obsTypes, lines, i, e);
    BlockRecords(obsTypes, lines, i, e);
  }

  /** ReadBlockRecords for the block of a given epoch, its parse left aside. */
  lemma BlockRecords(obsTypes: map<char, seq<string>>, lines: seq<string>, i: nat, e: EpochRecord)
    requires i < |lines| && Block(ReaderOf(obsTypes, lines), |lines|, i, e).Ok?
    ensures var (b, next) := Block(ReaderOf(obsTypes, lines), |lines|, i, e).value;
      ReadsAsBlock(obsTypes, lines, i, e, b, next)
  {
    var row := ReaderOf(obsTypes, lines);
    ReaderEndsAt(obsTypes, lines);
    BlockShape(row, |lines|, i, e);
    var (b, next) := Block(row, |lines|, i, e).value;
    if CarriesObservations(e) {
      forall k | 0 <= k < |b.records|
        ensures ObsData.ParseObsRecord(obsTypes, lines[i + 1 + k]) == Ok(b.records[k])
      {
        ReaderInside(obsTypes, lines, i + 1 + k);
        assert row(i + 1 + k) == Ok(b.records[k]);
      }
    }
  }

  /**
    The block for epoch e read at line i fails at line j: e carries
    observations, j is one of its announced lines, every announced line before j
    reads and line j does not; a line past the end of the file fails as an
    empty line.
  */
  ghost predicate FailsAtRecord(obsTypes: map<char, seq<string>>, lines: seq<string>, i: nat, e: EpochRecord,
                                j: nat, err: RecordError) {
    CarriesObservations(e) && i < j <= i + Announced(e) &&
    (forall k :: i < k < j ==> ReaderOf(obsTypes, lines)(k).Ok?) &&
    ReaderOf(obsTypes, lines)(j) == Err(err) &&
    (|lines| <= j ==> err == EmptyLine)
  }

  /**
    A block that does not read fails at its own line when that is no epoch
    line or does not parse, and otherwise at the first announced line of an
    epoch with observations that does not read.
  */
  lemma ReadBlockFailure(obsTypes: map<char, seq<string>>, lines: seq<string>, i: nat)
    requires i < |lines|
    ensures var r := ReadBlock(obsTypes, lines, i);
      r.Err? ==> match r.error
        case NotAnEpochLine(j) => j == i && (lines[i] == [] || lines[i][0] != EpochMarker)
        case BadEpoch(j, err) => j == i && ParseEpochRecord(lines[i]) == Err(err)
        case BadRecord(j, err) =>
          ParseEpochRecord(lines[i]).Ok? && FailsAtRecord(obsTypes, lines, i, ParseEpochRecord(lines[i]).value, j, err)
  {
    var line := lines[i];
    if line != [] && line[0] == EpochMarker && ParseEpochRecord(line).Ok? {
      var e := ParseEpochRecord(line).value;
      BlockOfEpochLine(obsTypes, lines, i, e);
      BlockFailsAtRecord(obsTypes, lines, i, e);
    }
  }

  /** ReadBlockFailure for the block of a given epoch, its parse left aside. */
  lemma BlockFailsAtRecord(obsTypes: map<char, seq<string>>, lines: seq<string>, i: nat, e: EpochRecord)
    ensures var r := Block(ReaderOf(obsTypes, lines), |lines|, i, e);
      r.Err? ==> r.error.BadRecord? && FailsAtRecord(obsTypes, lines, i, e, r.error.line, r.error.recordError)
  {
    BlockFailure(ReaderOf(obsTypes, lines), |lines|, i, e);
    ReaderEndsAt(obsTypes, lines);
  }

  /** The priorities configured for a system; none configured means the default order on every band. */
  function PriorityOf(priority: map<char, map<nat, string>>, sys: char): map<nat, string> {
    if sys in priority then priority[sys] else map[]
  }

  /** Each entry of the memo holds the indices resolved for its system's codes under the priorities. */
  ghost predicate Memoised(memo: map<char, ObsIndices>, obsTypes: map<char, seq<string>>, priority: map<char, map<nat, string>>) {
    forall s :: s in memo ==> (s in obsTypes && s in CombinedBands &&
      memo[s] == Priority.IndicesAccordingPriority(obsTypes[s], CombinedBands[s], PriorityOf(priority, s)))
  }

  lemma NothingMemoised(obsTypes: map<char, seq<string>>, priority: map<char, map<nat, string>>)
    ensures Memoised(map[], obsTypes, priority)
  {
  }

  /**
    A decoder over the lines of one observation file. Opening it reads the
    header; `NextEpoch` then walks the data section one block at a time.
  */
  class ObsFileV3 {
    /** The lines of the file. */
    const lines: seq<string>
    /** The format version, in hundredths (302 for 3.02). */
    const version: nat
    /** Per system and band, the signal attributes in order of preference. */
    const priority: map<char, map<nat, string>>
    /** The observation codes of each system, in column order. */
    var obsTypes: map<char, seq<string>>
    var timeSystem: string
    /** Index of the next line to read. */
    var pos: nat
    /** The indices already resolved, by system. */
    var memo: map<char, ObsIndices>

    /** The cursor stays inside the file and the memo holds only resolved indices. */
    ghost predicate Valid()
      reads this
    {
      pos <= |lines| && MemoValid()
    }

    /** Every memoised entry is the resolution of its system's codes. */
    ghost predicate MemoValid()
      reads this`memo, this`obsTypes
    {
      Memoised(memo, obsTypes, priority)
    }

    constructor (lines: seq<string>, version: nat, priority: map<char, map<nat, string>>)
      ensures this.lines == lines && this.version == version && this.priority == priority
      ensures obsTypes == map[] && timeSystem == DefaultTimeSystem && pos == 0 && memo == map[]
      ensures Valid()
    {
      this.lines := lines;
      this.version := version;
      this.priority := priority;
      obsTypes := map[];
      timeSystem := DefaultTimeSystem;
      pos := 0;
      memo := map[];
    }

    /**
      Reads the header up to `END OF HEADER`. On success the code table, the
      time system and the cursor are those of the decoded header; on failure
      they are left as they were.
    */
    method ReadHeader() returns (err: Option<HeaderError>)
      requires pos == 0 && memo == map[]
      modifies this`obsTypes, this`timeSystem, this`pos
      ensures pos <= |lines|
      ensures err.None? <==> ParseHeader(lines, version).Ok?
      ensures err.Some? ==> ParseHeader(lines, version) == Err(err.value) && obsTypes == old(obsTypes) && timeSystem == old(timeSystem) && pos == 0
      ensures err.None? ==> HeaderRead(ParseHeader(lines, version).value)
      ensures Valid()
    {
      var decoded := DecodeHeader(ClassifyAll(lines), version);
      assert decoded == ParseHeader(lines, version);
      if decoded.Err? {
        NothingMemoised(obsTypes, priority);
        return Some(decoded.error);
      }
      obsTypes := decoded.value.obsTypes;
      timeSystem := decoded.value.timeSystem;
      pos := decoded.value.bodyStart;
      NothingMemoised(obsTypes, priority);
      err := None;
    }

    /** The decoder holds what the header told. */
    ghost predicate HeaderRead(info: HeaderInfo)
      reads this`obsTypes, this`timeSystem, this`pos
    {
      obsTypes == info.obsTypes && timeSystem == info.timeSystem && pos == info.bodyStart
    }

    /** Opens a decoder: reads the header, failing as the header does. */
    static method Open(lines: seq<string>, version: nat, priority: map<char, map<nat, string>>)
      returns (r: Result<ObsFileV3, HeaderError>)
      ensures ParseHeader(lines, version).Err? <==> r.Err?
      ensures r.Err? ==> ParseHeader(lines, version) == Err(r.error)
      ensures r.Ok? ==> (fresh(r.value) && r.value.Valid() &&
        r.value.lines == lines && r.value.version == version && r.value.priority == priority &&
        r.value.HeaderRead(ParseHeader(lines, version).value) && r.value.memo == map[])
    {
      var f := new ObsFileV3(lines, version, priority);
      var err := f.ReadHeader();
      if err.Some? {
        return Err(err.value);
      }
      return Ok(f);
    }

    /**
      The column ranges of the observation fields: as many as the largest
      number of codes any system declares.
    */
    method SliceIndices() returns (r: seq<Span>)
      ensures IsMaxCount(obsTypes, |r|) && r == ObsSlices.ObsSliceIndices(|r|)
    {
      var n := MaxCount(obsTypes);
      r := ObsSlices.ObsSliceIndices(n);
    }

    /**
      Reads one observation line with the codes the header declared for the
      line's system: the k-th observation is what columns [3 + 16k, 19 + 16k)
      read as under the k-th declared code.
    */
    method ParseObsRecord(row: string) returns (r: Result<ObservationRecord, RecordError>)
      ensures r == Err(EmptyLine) <==> row == []
      ensures r.Err? && r.error.UnknownSystem? <==> row != [] && row[0] !in obsTypes
      ensures r.Ok? <==> (row != [] && row[0] in obsTypes &&
        forall k :: 0 <= k < |obsTypes[row[0]]| ==> ParseField(obsTypes[row[0]][k], Text.Slice(row, 3 + 16 * k, 19 + 16 * k)).Ok?)
      ensures r.Ok? ==> (r.value.satellite == Text.Slice(row, 0, 3) && |r.value.records| == |obsTypes[row[0]]| &&
        forall k :: 0 <= k < |obsTypes[row[0]]| ==>
          r.value.records[k] == ParseField(obsTypes[row[0]][k], Text.Slice(row, 3 + 16 * k, 19 + 16 * k)).value)
    {
      r := ObsData.ParseObsRecord(obsTypes, row);
      if row != [] && row[0] in obsTypes {
        RecordPointwise(obsTypes, row);
      }
    }

    /**
      The column indices of the preferred phase and pseudorange codes on
      each band of the system's combination, worked out once per system.
    */
    method IndicesAccordingPriority(sys: char) returns (r: Option<ObsIndices>)
      requires Valid()
      modifies this`memo
      ensures Valid()
      ensures r.Some? <==> sys in obsTypes && sys in CombinedBands
      ensures r.Some? ==>
        r.value == Priority.IndicesAccordingPriority(obsTypes[sys], CombinedBands[sys], PriorityOf(priority, sys))
    {
      if sys in memo {
        return Some(memo[sys]);
      }
      if sys !in obsTypes || sys !in CombinedBands {
        return None;
      }
      var indices := Priority.IndicesAccordingPriority(obsTypes[sys], CombinedBands[sys], PriorityOf(priority, sys));
      memo := memo[sys := indices];
      r := Some(indices);
    }

    /**
      Reads the epoch block at the cursor. At the end of the file there is
      none; a block that reads moves the cursor past it; a failure ends the
      reading, leaving the cursor at the end.
    */
    method NextEpoch() returns (r: Option<Result<EpochBlock, DataError>>)
      requires Valid()
      modifies this`pos
      ensures Valid()
      ensures old(pos) == |lines| ==> r.None? && pos == old(pos)
      ensures old(pos) < |lines| ==> (r.Some? &&
        match ReadBlock(obsTypes, lines, old(pos))
        case Ok((b, next)) => r.value == Ok(b) && pos == next
        case Err(e) => r.value == Err(e) && pos == |lines|)
    {
      if pos == |lines| {
        return None;
      }
      var i := pos;
      var line := lines[i];
      if line == [] || line[0] != EpochMarker {
        pos := |lines|;
        return Some(Err(NotAnEpochLine(i)));
      }
      var epoch := ParseEpochRecord(line);
      if epoch.Err? {
        pos := |lines|;
        return Some(Err(BadEpoch(i, epoch.error)));
      }
      var e := epoch.value;
      BlockOfEpochLine(obsTypes, lines, i, e);
      ReaderEndsAt(obsTypes, lines);
      var block := ReadBlockWith(ReaderOf(obsTypes, lines), |lines|, i, e);
      match block {
        case Err(err) =>
          pos := |lines|;
          r := Some(Err(err));
        case Ok((b, next)) =>
          pos := next;
          r := Some(Ok(b));
      }
    }
  }

  /** Reads the block of the epoch line e read at index i. */
  method ReadBlockWith(row: RowReader, size: nat, i: nat, e: EpochRecord) returns (r: Result<(EpochBlock, nat), DataError>)
    requires i < size && EndsAt(row, size)
    ensures r == Block(row, size, i, e)
    ensures r.Ok? ==> i < r.value.1 <= size
  {
    BlockShape(row, size, i, e);
    var n := Announced(e);
    if !CarriesObservations(e) {
      return Ok((EpochBlock(e, []), Min(i + 1 + n, size)));
    }
    var rows := ReadRows(row, i + 1, n);
    if rows.Err? {
      return Err(rows.error);
    }
    r := Ok((EpochBlock(e, rows.value), i + 1 + n));
  }

  /**
    Decodes a header from its recognised lines: scans them, checks every
    declared count, and renumbers BeiDou for version 3.02.
  */
  method DecodeHeader(hs: seq<HeaderLine>, version: nat) returns (r: Result<HeaderInfo, HeaderError>)
    ensures r == Decode(hs, version)
    ensures r.Ok? ==> r.value.bodyStart <= |hs|
  {
    var scanned := ScanHeader(hs);
    if scanned.Err? {
      return Err(scanned.error);
    }
    var (t, next) := scanned.value;
    var mismatch := FindMismatch(t);
    if mismatch.Some? {
      return Err(ObsTypesCountMismatch(mismatch.value));
    }
    var table := if version == BeiDouBandOneVersion then FixBeiDou(t.obsTypes) else t.obsTypes;
    r := Ok(HeaderInfo(table, t.timeSystem, next));
  }

  /** Takes recognised header lines into account up to the end-of-header line. */
  method ScanHeader(hs: seq<HeaderLine>) returns (r: Result<(Tables, nat), HeaderError>)
    ensures r == ScanFrom(hs, 0, NoTables)
  {
    var t := NoTables;
    var i: nat := 0;
    while i < |hs| && hs[i] != EndOfHeader
      invariant i <= |hs| && Consistent(t)
      invariant ScanFrom(hs, i, t) == ScanFrom(hs, 0, NoTables)
      decreases |hs| - i
    {
      var step := Apply(t, hs[i], i);
      if step.Err? {
        return Err(step.error);
      }
      t := step.value;
      i := i + 1;
    }
    if i == |hs| {
      return Err(MissingEndOfHeader);
    }
    r := Ok((t, i + 1));
  }

  /** Reads the n observation lines from index from, stopping at the first that does not read. */
  method ReadRows(row: RowReader, from: nat, n: nat) returns (r: Result<seq<ObservationRecord>, DataError>)
    ensures r == Rows(row, from, from + n)
  {
    var recs: seq<ObservationRecord> := [];
    var k: nat := 0;
    while k < n
      invariant k <= n && Rows(row, from, from + k) == Ok(recs)
      decreases n - k
    {
      var rec := row(from + k);
      if rec.Err? {
        RowsFailureStays(row, from, from + k + 1, from + n);
        return Err(BadRecord(from + k, rec.error));
      }
      recs := recs + [rec.value];
      k := k + 1;
    }
    r := Ok(recs);
  }

  /** The first system, in declaration order, whose number of codes differs from its declared count. */
  method FindMismatch(t: Tables) returns (r: Option<char>)
    requires Consistent(t)
    ensures r == FirstMismatch(t, t.systems)
  {
    var rest := t.systems;
    while rest != []
      invariant forall k :: 0 <= k < |rest| ==> rest[k] in t.obsTypes
      invariant FirstMismatch(t, t.systems) == FirstMismatch(t, rest)
      decreases |rest|
    {
      var sys := rest[0];
      if |t.obsTypes[sys]| != t.declared[sys] {
        return Some(sys);
      }
      rest := rest[1..];
    }
    return None;
  }
}
