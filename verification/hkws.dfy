/**
  The HKWS header of the decoder's test fixtures (a version 3.02 mixed file
  declaring GPS, GLONASS, Galileo, BeiDou, QZSS and SBAS codes), taken as
  the declarations its observation-types records make, and what decoding
  such a header yields.
*/
module Hkws {
  import opened Wrappers
  import opened Header
  import opened ObsSlices
  import opened Priority

  const GpsDeclared: seq<string> := ["C1C", "L1C", "D1C", "S1C", "C2S", "L2S", "D2S", "S2S",
                                     "C2W", "L2W", "D2W", "S2W", "C5Q", "L5Q", "D5Q", "S5Q"]
  const GlonassDeclared: seq<string> := ["C1C", "L1C", "D1C", "S1C", "C2P", "L2P", "D2P", "S2P",
                                         "C2C", "L2C", "D2C", "S2C"]
  const GalileoDeclared: seq<string> := ["C1C", "L1C", "D1C", "S1C", "C5Q", "L5Q", "D5Q", "S5Q",
                                         "C7Q", "L7Q", "D7Q", "S7Q", "C8Q", "L8Q", "D8Q", "S8Q"]
  const BeiDouDeclared: seq<string> := ["C1I", "L1I", "D1I", "S1I", "C7I", "L7I", "D7I", "S7I"]
  const SbasDeclared: seq<string> := ["C1C", "L1C", "D1C", "S1C"]

  /** The header's observation-types records, in file order. */
  const Declarations: seq<Declaration> := [
    Declaration('G', GpsDeclared), Declaration('R', GlonassDeclared),
    Declaration('E', GalileoDeclared), Declaration('C', BeiDouDeclared),
    Declaration('J', QzssCodes), Declaration('S', SbasDeclared)]

  /** The BeiDou codes a 3.02 header reports: band 1 renamed band 2, band 7 kept. */
  const BeiDouReported: seq<string> := ["C2I", "L2I", "D2I", "S2I", "C7I", "L7I", "D7I", "S7I"]

  /** The code table the decoder reports for the header. */
  const Reported: map<char, seq<string>> := map[
    'G' := GpsDeclared, 'R' := GlonassDeclared, 'E' := GalileoDeclared,
    'C' := BeiDouReported, 'J' := QzssCodes, 'S' := SbasDeclared]

  lemma DeclarationsWritable()
    ensures AllWritable(Declarations)
  {
    SixteenCodesValid(GpsDeclared);
    SixteenCodesValid(GalileoDeclared);
    TwelveCodesValid(GlonassDeclared);
    TwelveCodesValid(QzssCodes);
    FewCodesValid(BeiDouDeclared);
    FewCodesValid(SbasDeclared);
  }

  lemma SixteenCodesValid(codes: seq<string>)
    requires codes == GpsDeclared || codes == GalileoDeclared
    ensures ValidCodes(codes)
  {
  }

  lemma TwelveCodesValid(codes: seq<string>)
    requires codes == GlonassDeclared || codes == QzssCodes
    ensures ValidCodes(codes)
  {
  }

  lemma FewCodesValid(codes: seq<string>)
    requires codes == BeiDouDeclared || codes == SbasDeclared
    ensures ValidCodes(codes)
  {
  }

  /** Reading the six records in turn files each system's codes under its letter. */
  lemma DeclaredTable()
    ensures DeclareAll(NoTables, Declarations).obsTypes == map[
      'G' := GpsDeclared, 'R' := GlonassDeclared, 'E' := GalileoDeclared,
      'C' := BeiDouDeclared, 'J' := QzssCodes, 'S' := SbasDeclared]
  {
    var ds := Declarations;
    var t0 := NoTables;
    var t1 := Declare(t0, 'G', GpsDeclared);
    var t2 := Declare(t1, 'R', GlonassDeclared);
    var t3 := Declare(t2, 'E', GalileoDeclared);
    var t4 := Declare(t3, 'C', BeiDouDeclared);
    var t5 := Declare(t4, 'J', QzssCodes);
    var t6 := Declare(t5, 'S', SbasDeclared);
    assert DeclareAll(t0, ds) == DeclareAll(t1, ds[1..]);
    assert DeclareAll(t1, ds[1..]) == DeclareAll(t2, ds[2..]);
    assert DeclareAll(t2, ds[2..]) == DeclareAll(t3, ds[3..]);
    assert DeclareAll(t3, ds[3..]) == DeclareAll(t4, ds[4..]);
    assert DeclareAll(t4, ds[4..]) == DeclareAll(t5, ds[5..]);
    assert DeclareAll(t5, ds[5..]) == DeclareAll(t6, ds[6..]);
    assert ds[6..] == [];
  }

  /** Renumbering the declared BeiDou codes gives the reported ones; no other system changes. */
  lemma ReportedTable()
    ensures FixBeiDou(DeclareAll(NoTables, Declarations).obsTypes) == Reported
  {
    DeclaredTable();
    var fixed := FixBeiDou(DeclareAll(NoTables, Declarations).obsTypes);
    assert fixed['C'] == BeiDouReported by {
      assert |fixed['C']| == 8;
      forall k | 0 <= k < 8 ensures fixed['C'][k] == BeiDouReported[k] {
        assert fixed['C'][k] == RenumberBeiDou(BeiDouDeclared[k]);
      }
    }
    assert fixed.Keys == Reported.Keys;
  }

  /**
    Decoding the header that holds the HKWS records and the end line, as a
    version 3.02 file, gives the reported table with BeiDou renumbered and the
    GPS time system, every system holding the codes it declared.
  */
  lemma HeaderDecodes(ds: seq<Declaration>)
    requires ds == Declarations
    ensures AllWritable(ds)
    ensures var lines := RecordsLines(ds) + [EndLine];
      ParseHeader(lines, 302) == Ok(HeaderInfo(Reported, "GPS", |lines|))
  {
    DeclarationsWritable();
    WrittenHeaderRoundTrip(ds, 302);
    ReportedTable();
  }

  /** The largest declared count of the table is sixteen, so a decoder cuts sixteen fields. */
  lemma SixteenFields()
    ensures IsMaxCount(Reported, 16)
  {
    assert |Reported['G']| == 16;
    assert forall s :: s in Reported ==> |Reported[s]| <= 16;
  }

  /** QZSS keeps its codes, so the default resolution is the one of its declared codes. */
  lemma QzssIndices(table: map<char, seq<string>>)
    requires table == Reported
    ensures IndicesAccordingPriority(table['J'], CombinedBands['J'], map[]) ==
      ObsIndices(map[1 := 1, 2 := 5], map[1 := 0, 2 := 4])
  {
    assert table['J'] == QzssCodes;
    QzssDefaultIndices(table['J']);
  }
}
