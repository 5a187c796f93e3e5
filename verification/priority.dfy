/**
  Choice of the observation columns used for a dual-frequency combination:
  for each carrier band of a satellite system, the column of the preferred
  carrier-phase code ('L') and of the preferred pseudorange code ('C').

  An observation code is three characters: the kind, the band digit and the
  attribute (tracking mode or channel), as in section 5.1 of RINEX 3.03.
  Among the codes of one kind and band, the preferred one has the attribute
  that comes earliest in the band's preference order; when no attribute is
  in the order, the first code of that kind and band is taken.
*/
module Priority {
  import opened Wrappers
  import opened Text

  /** Kind letter of carrier-phase codes. */
  const Phase: char := 'L'

  /** Kind letter of pseudorange codes. */
  const PseudoRange: char := 'C'

  /** Attribute order used for a band that the caller gave no order for. */
  const DefaultOrder: string := "CPWXQI"

  /** Column indices of the chosen codes, keyed by band. */
  datatype ObsIndices = ObsIndices(phase: map<nat, nat>, pseudoRange: map<nat, nat>)

  /** Code i of the list has the given kind and band. */
  predicate IsCandidate(codes: seq<string>, kind: char, band: nat, i: int)
    requires band <= 9
  {
    0 <= i < |codes| && |codes[i]| == 3 && codes[i][0] == kind && codes[i][1] == DigitChar(band)
  }

  /** Position of an attribute in a preference order; |order| when it is absent. */
  function Rank(attribute: char, order: string): (r: nat)
    ensures r <= |order|
    ensures r < |order| ==> order[r] == attribute && forall p :: 0 <= p < r ==> order[p] != attribute
    ensures r == |order| ==> attribute !in order
  {
    if order == [] then 0
    else if order[0] == attribute then 0
    else 1 + Rank(attribute, order[1..])
  }

  /**
    Code i is the preferred code of its kind and band: no other candidate
    has an earlier attribute, and none with the same attribute comes before
    it. With no attribute in the order, this is the first candidate.
  */
  predicate Preferred(codes: seq<string>, kind: char, band: nat, order: string, i: int)
    requires band <= 9
  {
    IsCandidate(codes, kind, band, i) &&
    forall j :: 0 <= j < |codes| && IsCandidate(codes, kind, band, j) ==>
      Rank(codes[i][2], order) < Rank(codes[j][2], order) ||
      (Rank(codes[i][2], order) == Rank(codes[j][2], order) && i <= j)
  }

  /** At most one code is preferred. */
  lemma PreferredUnique(codes: seq<string>, kind: char, band: nat, order: string, i: int, j: int)
    requires band <= 9
    requires Preferred(codes, kind, band, order, i) && Preferred(codes, kind, band, order, j)
    ensures i == j
  {
  }

  /** The first code at or after position from with the given kind, band and attribute. */
  function FirstWith(codes: seq<string>, kind: char, band: nat, attribute: char, from: nat): (r: Option<nat>)
    requires band <= 9
    ensures r.Some? ==> from <= r.value && IsCandidate(codes, kind, band, r.value) && codes[r.value][2] == attribute
    ensures r.Some? ==> forall j :: from <= j < r.value && IsCandidate(codes, kind, band, j) ==> codes[j][2] != attribute
    ensures r.None? ==> forall j :: from <= j && IsCandidate(codes, kind, band, j) ==> codes[j][2] != attribute
    decreases |codes| - from
  {
    if from >= |codes| then None
    else if IsCandidate(codes, kind, band, from) && codes[from][2] == attribute then Some(from)
    else FirstWith(codes, kind, band, attribute, from + 1)
  }

  /** The first code at or after position from with the given kind and band. */
  function FirstCandidate(codes: seq<string>, kind: char, band: nat, from: nat): (r: Option<nat>)
    requires band <= 9
    ensures r.Some? ==> from <= r.value && IsCandidate(codes, kind, band, r.value)
    ensures r.Some? ==> forall j :: from <= j < r.value ==> !IsCandidate(codes, kind, band, j)
    ensures r.None? ==> forall j :: from <= j ==> !IsCandidate(codes, kind, band, j)
    decreases |codes| - from
  {
    if from >= |codes| then None
    else if IsCandidate(codes, kind, band, from) then Some(from)
    else FirstCandidate(codes, kind, band, from + 1)
  }

  /**
    Tries the attributes of the order one after another and takes the first
    code with the first attribute present; failing every attribute, the
    first code of the kind and band.
  */
  function Choose(codes: seq<string>, kind: char, band: nat, order: string): Option<nat>
    requires band <= 9
  {
    if order == [] then FirstCandidate(codes, kind, band, 0)
    else
      match FirstWith(codes, kind, band, order[0], 0)
      case Some(i) => Some(i)
      case None => Choose(codes, kind, band, order[1..])
  }

  /**
    Choose finds the preferred code of the kind and band, and finds nothing
    exactly when the list has no code of that kind and band.
  */
  lemma {:induction false} ChooseIsPreferred(codes: seq<string>, kind: char, band: nat, order: string)
    requires band <= 9
    ensures var r := Choose(codes, kind, band, order);
      (r.None? <==> forall j :: 0 <= j < |codes| ==> !IsCandidate(codes, kind, band, j)) &&
      (r.Some? ==> Preferred(codes, kind, band, order, r.value))
  {
    if order != [] {
      var first := FirstWith(codes, kind, band, order[0], 0);
      if first.None? {
        ChooseIsPreferred(codes, kind, band, order[1..]);
        var r := Choose(codes, kind, band, order[1..]);
        if r.Some? {
          var i := r.value;
          forall j | 0 <= j < |codes| && IsCandidate(codes, kind, band, j)
            ensures Rank(codes[j][2], order) == 1 + Rank(codes[j][2], order[1..])
          {
          }
          assert Rank(codes[i][2], order) == 1 + Rank(codes[i][2], order[1..]);
        }
      }
    }
  }

  /** The attribute order of a band: the caller's for that band, else the default. */
  function OrderFor(priority: map<nat, string>, band: nat): string {
    if band in priority then priority[band] else DefaultOrder
  }

  predicate ValidBands(bands: seq<nat>) {
    forall k :: 0 <= k < |bands| ==> bands[k] <= 9
  }

  /**
    For each band of the list that has both a phase and a pseudorange code,
    the columns of the preferred ones; a band lacking either is left out.
  */
  function IndicesAccordingPriority(codes: seq<string>, bands: seq<nat>, priority: map<nat, string>): (r: ObsIndices)
    requires ValidBands(bands)
    ensures r.phase.Keys == r.pseudoRange.Keys
  {
    if bands == [] then ObsIndices(map[], map[])
    else
      var rest := IndicesAccordingPriority(codes, bands[1..], priority);
      var band := bands[0];
      var order := OrderFor(priority, band);
      var phase := Choose(codes, Phase, band, order);
      var range := Choose(codes, PseudoRange, band, order);
      if phase.Some? && range.Some? then
        ObsIndices(rest.phase[band := phase.value], rest.pseudoRange[band := range.value])
      else rest
  }

  /** The list has a code of the kind and band. */
  predicate HasCode(codes: seq<string>, kind: char, band: nat)
    requires band <= 9
  {
    exists j :: 0 <= j < |codes| && IsCandidate(codes, kind, band, j)
  }

  /**
    The keys are exactly the listed bands with both a phase and a
    pseudorange code, and each index is that band's preferred code.
  */
  lemma {:induction false} IndicesArePreferred(codes: seq<string>, bands: seq<nat>, priority: map<nat, string>)
    requires ValidBands(bands)
    ensures var r := IndicesAccordingPriority(codes, bands, priority);
      forall b: nat :: b <= 9 ==>
        (b in r.phase <==> b in bands && HasCode(codes, Phase, b) && HasCode(codes, PseudoRange, b)) &&
        (b in r.phase ==> Preferred(codes, Phase, b, OrderFor(priority, b), r.phase[b]) &&
                          Preferred(codes, PseudoRange, b, OrderFor(priority, b), r.pseudoRange[b]))
  {
    if bands != [] {
      IndicesArePreferred(codes, bands[1..], priority);
      var band := bands[0];
      ChooseIsPreferred(codes, Phase, band, OrderFor(priority, band));
      ChooseIsPreferred(codes, PseudoRange, band, OrderFor(priority, band));
      assert forall b :: b in bands <==> b == band || b in bands[1..];
    }
  }

  /** Bands paired for each satellite system: the two carriers whose phase and range are combined. */
  const CombinedBands: map<char, seq<nat>> := map[
    'G' := [1, 2], 'R' := [1, 2], 'J' := [1, 2], 'E' := [1, 5], 'C' := [2, 7], 'S' := [1, 5], 'I' := [5, 9]]

  /** Every paired band is a single digit. */
  lemma CombinedBandsValid()
    ensures forall sys :: sys in CombinedBands ==> ValidBands(CombinedBands[sys])
  {
  }

  /** QZSS codes of a mixed 3.02 header. */
  const QzssCodes: seq<string> := ["C1C", "L1C", "D1C", "S1C", "C2S", "L2S", "D2S", "S2S", "C5Q", "L5Q", "D5Q", "S5Q"]

  /** GPS codes of a 3.03 header tracking L2C and L5. */
  const GpsCodes: seq<string> := ["C1C", "C1W", "C2L", "C2W", "C5Q", "D1C", "D2L", "D2W", "D5Q",
                                  "L1C", "L2L", "L2W", "L5Q", "S1C", "S1W", "S2L", "S2W", "S5Q"]

  /** With no candidate's attribute in the order, Choose takes the first candidate. */
  lemma {:induction false} ChooseFallback(codes: seq<string>, kind: char, band: nat, order: string)
    requires band <= 9
    requires forall j :: 0 <= j < |codes| && IsCandidate(codes, kind, band, j) ==> codes[j][2] !in order
    ensures Choose(codes, kind, band, order) == FirstCandidate(codes, kind, band, 0)
  {
    if order != [] {
      ChooseFallback(codes, kind, band, order[1..]);
    }
  }

  /** The first candidate is the one at i when none comes before it. */
  lemma FirstCandidateAt(codes: seq<string>, kind: char, band: nat, i: nat)
    requires band <= 9 && IsCandidate(codes, kind, band, i)
    requires forall j :: 0 <= j < i ==> !IsCandidate(codes, kind, band, j)
    ensures FirstCandidate(codes, kind, band, 0) == Some(i)
  {
  }

  /** The code at i is the first candidate with the attribute. */
  predicate FirstWithIs(codes: seq<string>, kind: char, band: nat, attribute: char, i: nat)
    requires band <= 9
  {
    IsCandidate(codes, kind, band, i) && codes[i][2] == attribute &&
    forall j :: 0 <= j < i && IsCandidate(codes, kind, band, j) ==> codes[j][2] != attribute
  }

  /** No candidate carries the attribute. */
  predicate Lacks(codes: seq<string>, kind: char, band: nat, attribute: char)
    requires band <= 9
  {
    forall j :: 0 <= j < |codes| && IsCandidate(codes, kind, band, j) ==> codes[j][2] != attribute
  }

  /** FirstWith finds the first candidate with the attribute. */
  lemma FirstWithAt(codes: seq<string>, kind: char, band: nat, attribute: char, i: nat)
    requires band <= 9 && FirstWithIs(codes, kind, band, attribute, i)
    ensures FirstWith(codes, kind, band, attribute, 0) == Some(i)
  {
  }

  /** FirstWith finds nothing when no candidate carries the attribute. */
  lemma FirstWithAbsent(codes: seq<string>, kind: char, band: nat, attribute: char)
    requires band <= 9 && Lacks(codes, kind, band, attribute)
    ensures FirstWith(codes, kind, band, attribute, 0) == None
  {
  }

  /** Choose falls back to the candidate at i when it is the first and no candidate's attribute is in the order. */
  lemma FallbackAt(codes: seq<string>, kind: char, band: nat, order: string, i: nat)
    requires band <= 9 && IsCandidate(codes, kind, band, i)
    requires forall j :: 0 <= j < i ==> !IsCandidate(codes, kind, band, j)
    requires forall j :: 0 <= j < |codes| && IsCandidate(codes, kind, band, j) ==> codes[j][2] !in order
    ensures Choose(codes, kind, band, order) == Some(i)
  {
    ChooseFallback(codes, kind, band, order);
    FirstCandidateAt(codes, kind, band, i);
  }

  /** QZSS band 2 has no attribute of the default order: phase falls back to L2S. */
  lemma QzssPhase2(codes: seq<string>)
    requires codes == QzssCodes
    ensures Choose(codes, Phase, 2, DefaultOrder) == Some(5)
  {
    QzssBand2Codes(codes, Phase, 5);
    FallbackAt(codes, Phase, 2, DefaultOrder, 5);
  }

  /** QZSS band 2 pseudorange falls back to C2S. */
  lemma QzssRange2(codes: seq<string>)
    requires codes == QzssCodes
    ensures Choose(codes, PseudoRange, 2, DefaultOrder) == Some(4)
  {
    QzssBand2Codes(codes, PseudoRange, 4);
    FallbackAt(codes, PseudoRange, 2, DefaultOrder, 4);
  }

  /**
    The first QZSS band-2 code of a kind is L2S for phase and C2S for
    pseudorange, and the band-2 codes carry the S attribute, which is in no
    default order.
  */
  lemma QzssBand2Codes(codes: seq<string>, kind: char, i: nat)
    requires codes == QzssCodes && ((kind == Phase && i == 5) || (kind == PseudoRange && i == 4))
    ensures IsCandidate(codes, kind, 2, i)
    ensures forall j :: 0 <= j < i ==> !IsCandidate(codes, kind, 2, j)
    ensures forall j :: 0 <= j < |codes| && IsCandidate(codes, kind, 2, j) ==> codes[j][2] !in DefaultOrder
  {
  }

  /** QZSS band 1 takes the C attribute, first in the default order. */
  lemma QzssBand1(codes: seq<string>)
    requires codes == QzssCodes
    ensures Choose(codes, Phase, 1, DefaultOrder) == Some(1)
    ensures Choose(codes, PseudoRange, 1, DefaultOrder) == Some(0)
  {
    QzssBand1Codes(codes);
    FirstWithAt(codes, Phase, 1, 'C', 1);
    FirstWithAt(codes, PseudoRange, 1, 'C', 0);
  }

  /** The first QZSS band-1 codes with the C attribute are L1C and C1C. */
  lemma QzssBand1Codes(codes: seq<string>)
    requires codes == QzssCodes
    ensures FirstWithIs(codes, Phase, 1, 'C', 1) && FirstWithIs(codes, PseudoRange, 1, 'C', 0)
  {
  }

  /** GPS band 1 under P,C: no P code, so L1C and C1C. */
  lemma GpsBand1(codes: seq<string>, order: string)
    requires codes == GpsCodes && order == "PC"
    ensures Choose(codes, Phase, 1, order) == Some(9)
    ensures Choose(codes, PseudoRange, 1, order) == Some(0)
  {
    GpsBand1Codes(codes);
    FirstWithAbsent(codes, Phase, 1, 'P');
    FirstWithAbsent(codes, PseudoRange, 1, 'P');
    FirstWithAt(codes, Phase, 1, 'C', 9);
    FirstWithAt(codes, PseudoRange, 1, 'C', 0);
    assert order[0] == 'P' && order[1..][0] == 'C';
  }

  /** GPS has no band-1 P code; its first band-1 C codes are L1C and C1C. */
  lemma GpsBand1Codes(codes: seq<string>)
    requires codes == GpsCodes
    ensures Lacks(codes, Phase, 1, 'P') && Lacks(codes, PseudoRange, 1, 'P')
    ensures FirstWithIs(codes, Phase, 1, 'C', 9) && FirstWithIs(codes, PseudoRange, 1, 'C', 0)
  {
  }

  /** GPS band 2 under W,C: L2W and C2W. */
  lemma GpsBand2(codes: seq<string>, order: string)
    requires codes == GpsCodes && order == "WC"
    ensures Choose(codes, Phase, 2, order) == Some(11)
    ensures Choose(codes, PseudoRange, 2, order) == Some(3)
  {
    GpsBand2Codes(codes);
    FirstWithAt(codes, Phase, 2, 'W', 11);
    FirstWithAt(codes, PseudoRange, 2, 'W', 3);
    assert order[0] == 'W';
  }

  /** The first GPS band-2 codes with the W attribute are L2W and C2W. */
  lemma GpsBand2Codes(codes: seq<string>)
    requires codes == GpsCodes
    ensures FirstWithIs(codes, Phase, 2, 'W', 11) && FirstWithIs(codes, PseudoRange, 2, 'W', 3)
  {
  }

  /** The indices for two bands that each have both kinds of code. */
  lemma IndicesOfPair(codes: seq<string>, b1: nat, b2: nat, priority: map<nat, string>, p1: nat, r1: nat, p2: nat, r2: nat)
    requires b1 <= 9 && b2 <= 9 && b1 != b2
    requires Choose(codes, Phase, b1, OrderFor(priority, b1)) == Some(p1)
    requires Choose(codes, PseudoRange, b1, OrderFor(priority, b1)) == Some(r1)
    requires Choose(codes, Phase, b2, OrderFor(priority, b2)) == Some(p2)
    requires Choose(codes, PseudoRange, b2, OrderFor(priority, b2)) == Some(r2)
    ensures IndicesAccordingPriority(codes, [b1, b2], priority) ==
      ObsIndices(map[b1 := p1, b2 := p2], map[b1 := r1, b2 := r2])
  {
    assert [b1, b2][1..] == [b2];
    assert [b2][1..] == [];
    var none := IndicesAccordingPriority(codes, [], priority);
    assert none.phase == map[] && none.pseudoRange == map[];
    assert [b2][0] == b2;
    var last := IndicesAccordingPriority(codes, [b2], priority);
    assert last == ObsIndices(none.phase[b2 := p2], none.pseudoRange[b2 := r2]);
    assert last.phase == map[b2 := p2] && last.pseudoRange == map[b2 := r2];
    assert map[b2 := p2][b1 := p1] == map[b1 := p1, b2 := p2];
    assert map[b2 := r2][b1 := r1] == map[b1 := r1, b2 := r2];
  }

  /**
    With the default order, QZSS band 1 takes the C-attribute codes and band
    2, whose S attribute is in no order, falls back to the first codes; band
    5 is not paired and is left out.
  */
  lemma QzssDefaultIndices(codes: seq<string>)
    requires codes == QzssCodes
    ensures IndicesAccordingPriority(codes, CombinedBands['J'], map[]) ==
      ObsIndices(map[1 := 1, 2 := 5], map[1 := 0, 2 := 4])
  {
    assert CombinedBands['J'] == [1, 2];
    QzssBand1(codes);
    QzssPhase2(codes);
    QzssRange2(codes);
    assert OrderFor(map[], 1) == DefaultOrder && OrderFor(map[], 2) == DefaultOrder;
    IndicesOfPair(codes, 1, 2, map[], 1, 0, 5, 4);
  }

  /**
    With the orders P,C for band 1, W,C for band 2 and I,Q,X for band 5, GPS
    band 1 skips the absent P and takes C1C/L1C, band 2 takes C2W/L2W over
    C2L/L2L, and band 5 is left out although it has an order.
  */
  lemma GpsConfiguredIndices(codes: seq<string>, priority: map<nat, string>)
    requires codes == GpsCodes && priority == map[1 := "PC", 2 := "WC", 5 := "IQX"]
    ensures IndicesAccordingPriority(codes, CombinedBands['G'], priority) ==
      ObsIndices(map[1 := 9, 2 := 11], map[1 := 0, 2 := 3])
  {
    assert OrderFor(priority, 1) == "PC" && OrderFor(priority, 2) == "WC";
    assert CombinedBands['G'] == [1, 2];
    GpsBand1(codes, OrderFor(priority, 1));
    GpsBand2(codes, OrderFor(priority, 2));
    IndicesOfPair(codes, 1, 2, priority, 9, 0, 11, 3);
  }
}
