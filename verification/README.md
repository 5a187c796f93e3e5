# RINEX 3 observation-file decoder (gnss-tec `ObsFileV3`)

A Dafny model of the observation-file decoder of gnss-tec. The decoder
reads a RINEX 3.02/3.03 observation file in two stages.

- **Header.** When it is opened, the decoder reads the header:
  - the `SYS / # / OBS TYPES` records, with their continuation lines, give each satellite system's observation codes in column order;
  - `TIME OF FIRST OBS` gives the time system;
  - for a version 3.02 file, BeiDou band 1 is renamed band 2.
- **Data.** It then walks the data section one epoch block at a time. An
  epoch line (`>`) gives the timestamp, the epoch flag, the satellite count
  and the receiver clock offset.
  - A normal epoch (flag 0), and an epoch after a power failure (flag 1), is followed by one observation line per satellite: a three-character satellite id, then one 16-column field per declared code (value, loss-of-lock indicator, signal strength).
  - An event flag (2 to 6) announces special-record lines, which are skipped. RINEX 3 (Table A3 of RINEX 3.03) puts observations after a flag-1 epoch, so the model reads them there too.

Two further operations work on the decoded header:

- **Slice indices** give the field column ranges for the widest system.
- **Priority resolver** picks, for each band a system combines, the column
  of the preferred phase and pseudorange codes. Preference follows the
  caller's attribute orders or the default order. The result is memoised
  per system.

The implementation is known through its test module,
`tests/gnss_tec/test_obs_file_v3.py`. That module pins the behaviour with
exact expected values, and the model follows those values. Units:

- observation values are integer thousandths (F14.3);
- epoch seconds are units of 10^-7 s;
- clock offsets are units of 10^-12 s;
- format versions are in hundredths (302, 303);
- timestamps are integer tuples.

Modules:

- Wrappers: Option and Result.
- Text: Python-style slicing, stripping and splitting, and the Fortran I and F number fields, each with its writer.
- ObsSlices: field column ranges, and the widest system's count.
- Epoch: epoch lines.
- ObsData: observation lines.
- Priority: the priority resolver.
- Header: the header table builder.
- ObsFile: the stateful decoder, class `ObsFileV3`, with its cursor over the data section.
- Hkws: the mixed 3.02 HKWS header of the fixtures.

The header is read in two steps. Each line is first recognised as a
`HeaderLine`: it opens or continues an observation-types record, it is the
first-observation line, it ends the header, or it is anything else. The
recognised lines are then folded into the tables. A writer for each kind
of line is modelled too. Each parser is proved against its writer:

- written records read back as the declarations they were written from;
- written epoch lines and observation lines read back as the values written.

RINEX 2 data records wrap observations five fields per 80-column line.
A RINEX 3 observation record holds all its fields on one line, as the
expected slices (`[3, 19)` up to `[243, 259)` for sixteen codes) show.
Field k is the column range `[3 + 16k, 19 + 16k)`, and there are as many
fields as the widest system declares.

## Model

| member | source | states |
|---|---|---|
| ObsSlices.ObsSliceIndices | tests/gnss_tec/test_obs_file_v3.py:165-172 | n fields; the k-th spans columns [3 + 16k, 19 + 16k) |
| ObsSlices.SlicesContiguous | tests/gnss_tec/test_obs_file_v3.py:166-170 | the first field starts after the 3-character satellite id, each field starts where the previous ends, the last ends at 3 + 16n |
| ObsSlices.SliceCovering | tests/gnss_tec/test_obs_file_v3.py:166-170 | every column of [3, 3 + 16n) lies in exactly one field, the one of index (p - 3) / 16 |
| ObsSlices.SlicesPrefix | tests/gnss_tec/test_obs_file_v3.py:165-172 | the fields for fewer codes are a prefix of those for more, so a narrower system reads the same columns |
| ObsSlices.MaxCount | tests/gnss_tec/test_obs_file_v3.py:90-97 | the loop finds the largest declared code count over the systems (0 with no system) |
| ObsSlices.MaxCountUnique | tests/gnss_tec/test_obs_file_v3.py:165-172 | the largest count is unique, so the number of slices is determined by the table |
| ObsSlices.SixteenSlices | tests/gnss_tec/test_obs_file_v3.py:166-170 | sixteen fields are exactly [3, 19), [19, 35), ..., [243, 259) |
| Epoch.ParseTimestamp | tests/gnss_tec/test_obs_file_v3.py:190-198 | a timestamp exactly when year, month, day, hour, minute and seconds all read from their columns and form an existing date, and then it is the timestamp they read as; blank year columns give none |
| Epoch.ParseEpochRecord | tests/gnss_tec/test_obs_file_v3.py:189-198 | the flag is column 31 (0..9) and the count columns 32-34, as they read; the timestamp is what the date columns read as, absent exactly when the flag is non-zero and the date does not read; the offset is columns 41-55 as read, zero when blank; a bad flag, a bad count, a bad offset and flag 0 without a date are the errors, each exactly in its case |
| Epoch.BlankDateNoTimestamp | tests/gnss_tec/test_obs_file_v3.py:195-197 | an epoch line with blank date columns has no timestamp |
| Epoch.ParseFormatEpochRecord | tests/gnss_tec/test_obs_file_v3.py:189-198 | every well-formed epoch record written as an epoch line reads back as itself |
| Epoch.NormalEpochLine | tests/gnss_tec/test_obs_file_v3.py:190-193 | `> 2015 12 19 00 00  0.0000000  0 28` reads as 2015-12-19 00:00:00, flag 0, count 28, zero offset |
| Epoch.EventEpochLine | tests/gnss_tec/test_obs_file_v3.py:195-198 | the line of `>`, thirty blanks and `4  1` (date columns blank) reads as no timestamp, flag 4, count 1, zero offset |
| ObsData.ParseIndicator | tests/gnss_tec/test_obs_file_v3.py:215-230 | a blank indicator column reads as 0, a digit (an explicit 0 included) as its value, any other character as no indicator; a nonzero reading gives back the digit it came from |
| ObsData.ParseFieldOfDigits | tests/gnss_tec/test_obs_file_v3.py:205-225 | a field of blanks, whole digits, a point, three decimals and two indicator digits reads as that many thousandths with those indicators |
| ObsData.PhaseField | tests/gnss_tec/test_obs_file_v3.py:216-224 | a phase field with an explicit 0 in its LLI column reads as its digits' value, LLI 0 and its strength digit |
| ObsData.G05PhaseFields | tests/gnss_tec/test_obs_file_v3.py:205-224 | the L1C, L2S and L2W fields of the G05 line read as (119450143.064, 0, 8), (93078040.864, 0, 7) and (93078053.865, 0, 7) |
| ObsData.ParseField | tests/gnss_tec/test_obs_file_v3.py:215-230 | a field reads with its code and indicators in 0..9; a blank or missing field reads as (code, 0, 0, 0); errors name the code |
| ObsData.FieldResults | tests/gnss_tec/test_obs_file_v3.py:201-235 | the k-th declared code is read from columns [3 + 16k, 19 + 16k) |
| ObsData.ParseObsRecord | tests/gnss_tec/test_obs_file_v3.py:201-235 | empty line and undeclared system are errors, and only they; the satellite is the first three columns; one observation per declared code, in header order |
| ObsData.RecordPointwise | tests/gnss_tec/test_obs_file_v3.py:212-231 | a line reads exactly when every field reads, and the k-th observation is what the k-th field reads as |
| ObsData.FieldsPastEnd | tests/gnss_tec/test_obs_file_v3.py:227-230 | codes whose fields lie past the end of the line read as (code, 0, 0, 0) |
| ObsData.ParseFormatField | tests/gnss_tec/test_obs_file_v3.py:215-230 | every observation that fits a 16-column field reads back as itself |
| ObsData.ParseFormatObsRecord | tests/gnss_tec/test_obs_file_v3.py:201-235 | a written line reads back as its satellite and observations, with zeros for the codes it leaves off |
| ObsData.ParseFieldBlankSuffix | tests/gnss_tec/test_obs_file_v3.py:205-208 | blanks after a field's text do not change what it reads as |
| ObsData.TrailingBlanks | tests/gnss_tec/test_obs_file_v3.py:205-208 | blanks at the end of a line do not change its record, so a line may stop inside a field |
| Priority.PreferredUnique | tests/gnss_tec/test_obs_file_v3.py:132-137 | at most one code of a kind and band is preferred |
| Priority.ChooseIsPreferred | tests/gnss_tec/test_obs_file_v3.py:132-137 | the choice is the preferred code (earliest attribute in the order, first among equals, first code when no attribute is in the order), and there is none exactly when the band has no code of that kind |
| Priority.ChooseFallback | tests/gnss_tec/test_obs_file_v3.py:175-186 | when no candidate's attribute is in the order, the first code of the kind and band is taken |
| Priority.IndicesAccordingPriority | tests/gnss_tec/test_obs_file_v3.py:175-186 | the phase and pseudorange maps have the same bands |
| Priority.IndicesArePreferred | tests/gnss_tec/test_obs_file_v3.py:175-186 | a band is a key exactly when it is combined and has both a phase and a pseudorange code, and each index is that band's preferred code |
| Priority.QzssDefaultIndices | tests/gnss_tec/test_obs_file_v3.py:175-186 | QZSS with default orders gives phase {1: 1, 2: 5}, pseudorange {1: 0, 2: 4}, band 5 left out |
| Priority.GpsConfiguredIndices | tests/gnss_tec/test_obs_file_v3.py:248-253 | GPS of the 3.03 file with orders (P, C), (W, C), (I, Q, X) gives phase {1: 9, 2: 11}, pseudorange {1: 0, 2: 3}, band 5 left out |
| Header.Classify | tests/gnss_tec/test_obs_file_v3.py:90-101 | a line ends the header exactly when its label is `END OF HEADER`, and is an observation-types line exactly when its label is `SYS / # / OBS TYPES` |
| Header.Apply | tests/gnss_tec/test_obs_file_v3.py:90-97 | taking a line into account keeps the tables consistent; only a bad count or an orphan continuation line fails |
| Header.ReadLineFailure | tests/gnss_tec/test_obs_file_v3.py:90-97 | a line is refused exactly when it is an observation-types line whose count does not read, or a continuation line with no record open |
| Header.OtherLinesIgnored | tests/gnss_tec/test_obs_file_v3.py:98-100 | any other labelled line leaves the tables unchanged |
| Header.TimeSystemOfLine | tests/gnss_tec/test_obs_file_v3.py:99 | `TIME OF FIRST OBS` sets the time system to columns 48-50, or GPS when they are blank |
| Header.ScanFrom | tests/gnss_tec/test_obs_file_v3.py:88-101 | a successful scan keeps the tables consistent and ends inside the lines |
| Header.FirstEnd | tests/gnss_tec/test_obs_file_v3.py:101 | the index of the first end-of-header line, or the number of lines when there is none |
| Header.ScanStopsAtEnd | tests/gnss_tec/test_obs_file_v3.py:101 | a successful scan stops just past the first end-of-header line; without one the scan fails, and reports it missing only then |
| Header.FirstMismatch | tests/gnss_tec/test_obs_file_v3.py:90-97 | none exactly when every system holds as many codes as it declared; otherwise the first system, in declaration order, whose count differs: every system before it matches |
| Header.RenumberBeiDou | tests/gnss_tec/test_obs_file_v3.py:95 | renaming keeps the code's length |
| Header.FixBeiDou | tests/gnss_tec/test_obs_file_v3.py:158 | the same systems as before |
| Header.FixBeiDouEffect | tests/gnss_tec/test_obs_file_v3.py:95 | only BeiDou changes; each BeiDou code keeps its place, kind and attribute, and band 1 becomes band 2 while every other band stays |
| Header.HeaderCounts | tests/gnss_tec/test_obs_file_v3.py:147-161 | a header is accepted exactly when its scan succeeds and every system holds its declared number of codes; the table then has the scanned systems, and the data start just past the end line |
| Header.ClassifyOpeningLine | tests/gnss_tec/test_obs_file_v3.py:90 | a written opening line is recognised with its system, count and codes |
| Header.ClassifyContinuationLine | tests/gnss_tec/test_obs_file_v3.py:91 | a written continuation line is recognised with its codes |
| Header.ClassifyRecord | tests/gnss_tec/test_obs_file_v3.py:90-91 | a written record, 13 codes a line, is recognised line by line |
| Header.ReadContinuation | tests/gnss_tec/test_obs_file_v3.py:91 | continuation lines append their codes, in order, to the open system |
| Header.ReadRecord | tests/gnss_tec/test_obs_file_v3.py:90-94 | reading a record, over however many lines, declares exactly its codes in column order, with their number as the count |
| Header.WrittenHeaderRoundTrip | tests/gnss_tec/test_obs_file_v3.py:88-101 | a header of written records and the end line decodes to each system's declared codes, BeiDou renumbered for 3.02, the GPS time system, and the data start after it |
| Header.MismatchedHeader | tests/gnss_tec/test_obs_file_v3.py:90-97 | a count mismatch fails the header, naming the first mismatched system in declaration order |
| ObsFile.Rows | tests/gnss_tec/test_obs_file_v3.py:42-54 | reading the observation lines of a block gives one record per line |
| ObsFile.ReaderEndsAt | tests/gnss_tec/test_obs_file_v3.py:42-54 | a line past the end of the file reads as an empty line, so it is an error |
| ObsFile.RowsPointwise | tests/gnss_tec/test_obs_file_v3.py:42-46 | the lines read exactly when each of them reads, and the record for line j is what line j reads as |
| ObsFile.RowsWithin | tests/gnss_tec/test_obs_file_v3.py:42-54 | lines that all read lie inside the file |
| ObsFile.RowsFailure | tests/gnss_tec/test_obs_file_v3.py:42-54 | a failed reading names the first line that does not read, all lines before it reading |
| ObsFile.RowsFailureStays | tests/gnss_tec/test_obs_file_v3.py:42-54 | once a reading fails, reading more lines fails the same way |
| ObsFile.BlockShape | tests/gnss_tec/test_obs_file_v3.py:42-49 | a block that reads moves past its epoch line and stays in the file; an epoch with observations (flag 0 or 1) holds one record per announced line; an event holds none and skips what it announces, up to the end of the file |
| ObsFile.BlockFailure | tests/gnss_tec/test_obs_file_v3.py:42-46 | a block fails exactly when its epoch carries observations (flag 0 or 1) and one of its announced lines does not read, and names the first such line |
| ObsFile.BlockOfEpochLine | tests/gnss_tec/test_obs_file_v3.py:42 | past a well-formed epoch line, the block is the one that line announces |
| ObsFile.ReaderInside | tests/gnss_tec/test_obs_file_v3.py:43-46 | inside the file, the reader gives what the line reads as |
| ObsFile.ReadBlockRecords | tests/gnss_tec/test_obs_file_v3.py:42-54 | a block read at line i has the epoch line's record; an epoch with observations (flag 0 or 1) has the count announced and, for each line after the epoch line, the record that line reads as; an event has none and resumes after the lines it announces |
| ObsFile.ReadBlockFailure | tests/gnss_tec/test_obs_file_v3.py:42-54 | a failed block names its own line when that is no epoch line or does not parse, and otherwise the first announced line of an epoch with observations that does not read; a line announced past the end fails as an empty line |
| ObsFile.ObsFileV3.constructor | tests/gnss_tec/test_obs_file_v3.py:107-112 | a new decoder holds its lines, version and priorities, an empty table, the GPS time system and the cursor at line 0 |
| ObsFile.ObsFileV3.ReadHeader | tests/gnss_tec/test_obs_file_v3.py:88-101 | on success the table, time system and cursor are those of the decoded header; on failure the error is the header's and the table, time system and cursor are unchanged; either way the cursor stays in the file and the memo valid |
| ObsFile.ObsFileV3.Open | tests/gnss_tec/test_obs_file_v3.py:105-143 | opening fails exactly when the header does, with its error; otherwise a fresh decoder holds the decoded header and its cursor is at the first data line |
| ObsFile.ObsFileV3.SliceIndices | tests/gnss_tec/test_obs_file_v3.py:165-172 | the slices are the field ranges, one per code of the widest system |
| ObsFile.ObsFileV3.ParseObsRecord | tests/gnss_tec/test_obs_file_v3.py:201-235 | with the decoder's table: an empty line and an undeclared system are errors, and only they; the line reads exactly when each declared field reads; the satellite is the first three columns and the k-th observation is what columns [3 + 16k, 19 + 16k) read as under the k-th declared code |
| ObsFile.ObsFileV3.IndicesAccordingPriority | tests/gnss_tec/test_obs_file_v3.py:175-186 | the indices for a system exist exactly when it is declared and combined; they are the resolver's for its codes, bands and priorities, whether or not they were memoised, and the memo stays valid |
| ObsFile.ObsFileV3.NextEpoch | tests/gnss_tec/test_obs_file_v3.py:238-243 | at the end of the file there is no block; otherwise the block read at the cursor, the cursor moving past it; on a failure, the error, with the cursor at the end |
| ObsFile.ReadBlockWith | tests/gnss_tec/test_obs_file_v3.py:42-54 | reads the block of an epoch line, as the block function gives it, ending inside the file |
| ObsFile.DecodeHeader | tests/gnss_tec/test_obs_file_v3.py:88-101 | scanning, checking every count and renumbering BeiDou gives the decoded header, whose data start inside the lines |
| ObsFile.ScanHeader | tests/gnss_tec/test_obs_file_v3.py:88-101 | the loop over the recognised header lines gives the scan's result |
| ObsFile.ReadRows | tests/gnss_tec/test_obs_file_v3.py:42-46 | the loop over a block's observation lines gives the reading's result, stopping at the first failure |
| ObsFile.FindMismatch | tests/gnss_tec/test_obs_file_v3.py:90-97 | the loop finds the first system, in declaration order, whose count differs |
| Hkws.DeclarationsWritable | tests/gnss_tec/test_obs_file_v3.py:90-97 | the six records of the HKWS header are three-letter codes a writer can lay out |
| Hkws.DeclaredTable | tests/gnss_tec/test_obs_file_v3.py:90-97 | reading the six records files each system's codes under its letter |
| Hkws.ReportedTable | tests/gnss_tec/test_obs_file_v3.py:147-161 | renumbering gives BeiDou C2I L2I D2I S2I C7I L7I D7I S7I and leaves the other systems unchanged |
| Hkws.HeaderDecodes | tests/gnss_tec/test_obs_file_v3.py:146-162 | the HKWS records and the end line, as a 3.02 file, decode to the expected table, the GPS time system and the data start after the header |
| Hkws.SixteenFields | tests/gnss_tec/test_obs_file_v3.py:165-172 | the table's widest count is 16, so sixteen fields are cut |
| Hkws.QzssIndices | tests/gnss_tec/test_obs_file_v3.py:175-186 | the QZSS codes of the decoded table resolve to phase {1: 1, 2: 5}, pseudorange {1: 0, 2: 4} |

## Left out

- TEC computation (test lines 238-245): the expected values are floating-point results of carrier-frequency formulas whose constants are not part of this model. `ObsFile.ObsFileV3.NextEpoch` yields epoch blocks (epoch record and observation records), not TEC values.
- GLONASS frequency numbers (the `glo_freq_nums` override and the `GLONASS SLOT / FRQ #` header lines): they only feed the TEC frequencies.
- Header labels other than `SYS / # / OBS TYPES`, `TIME OF FIRST OBS` and `END OF HEADER` are recognised as other records and ignored. This includes interval, marker, antenna, position, phase shifts and leap seconds.
- Stream handling: the file is given as its sequence of lines. Reading an open stream, and the end-of-line handling, is not modelled.
- Python `datetime`/`timedelta` semantics: timestamps are integer tuples, seconds in 10^-7 s. A seconds field of 60 or more is kept as read, not normalised into the next minute.
- Floating point: values, seconds and offsets are exact integers of their fixed-point unit. Exponent notation and more fractional digits than the field's scale are refused rather than rounded.
- The bands each system combines (`Priority.CombinedBands`): only G and J are pinned by the source, to bands 1 and 2. The other systems' pairs (R 1/2, E 1/5, C 2/7, S 1/5, I 5/9) are a modelling choice. The resolver for other bands is the same function.
- `ObsFile.ObsFileV3.NextEpoch`: a failed block ends the reading (the cursor moves to the end of the file). Resuming at the next epoch marker is not modelled.
- `ObsFile.ObsFileV3.NextEpoch`: the first TEC record of the AJAC fixture (satellite G06 at the first epoch) is not modelled. A literal 80-to-200-column line is beyond what the model evaluates concretely. Its data line is not evaluated literally. Fields of its kind (blank or digit indicators, a value right-justified in 14 columns) are read as `ObsData.ParseFieldOfDigits` and `ObsData.RecordPointwise` state.
- Hkws.HeaderDecodes: states the decoding of the HKWS observation-types records as a writer lays them out, followed by the end line. It does not cover the literal header text with its version, interval and time-of-obs lines. Those other lines are covered by `Header.OtherLinesIgnored` and `Header.TimeSystemOfLine`.
- ObsData.ParseObsRecord: the 193-column G05 line of the source is not evaluated literally as a whole. Its phase fields, whose LLI column holds an explicit 0, are evaluated literally by `ObsData.G05PhaseFields`. The rest is stated generally by `ObsData.RecordPointwise`, `ObsData.FieldsPastEnd`, `ObsData.TrailingBlanks` and `ObsData.ParseFieldOfDigits`.
- Observation records wrapped over several physical lines (the RINEX 2 layout) are not modelled.
