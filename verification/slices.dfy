/**
  The fixed-width layout of a RINEX 3 observation data line: a 3-character
  satellite identifier followed by one 16-character field per observation
  type (a 14-character value, the loss-of-lock indicator and the signal
  strength), all on one line.
*/
module ObsSlices {

  /** The half-open column range [start, end) of one observation field. */
  datatype Span = Span(start: nat, end: nat)

  /** Width of the satellite identifier that opens every data line. */
  const SatelliteIdWidth: nat := 3

  /** Width of one observation field (F14.3, I1, I1). */
  const FieldWidth: nat := 16

  /**
    The column ranges of the first n observation fields: the k-th field
    spans [3 + 16k, 19 + 16k).
  */
  function ObsSliceIndices(n: nat): (r: seq<Span>)
    ensures |r| == n
    ensures forall k :: 0 <= k < n ==>
      r[k].start == SatelliteIdWidth + FieldWidth * k && r[k].end == r[k].start + FieldWidth
  {
    if n == 0 then [] else ObsSliceIndices(n - 1) + [Span(3 + 16 * (n - 1), 19 + 16 * (n - 1))]
  }

  /**
    The fields tile the line after the satellite identifier: the first starts
    at column 3, each starts where the previous one ends, and the last ends at
    column 3 + 16n.
  */
  lemma SlicesContiguous(n: nat)
    ensures n > 0 ==> ObsSliceIndices(n)[0].start == SatelliteIdWidth
    ensures n > 0 ==> ObsSliceIndices(n)[n - 1].end == SatelliteIdWidth + FieldWidth * n
    ensures forall k :: 0 <= k < n - 1 ==> ObsSliceIndices(n)[k].end == ObsSliceIndices(n)[k + 1].start
  {
  }

  /**
    Every column p of [3, 3 + 16n) lies in exactly one field, the one with
    index (p - 3) / 16.
  */
  lemma {:induction false} SliceCovering(n: nat, p: nat)
    requires SatelliteIdWidth <= p < SatelliteIdWidth + FieldWidth * n
    ensures var r := ObsSliceIndices(n); var k := (p - 3) / 16;
      k < n && r[k].start <= p < r[k].end &&
      forall j :: 0 <= j < n && j != k ==> !(r[j].start <= p < r[j].end)
  {
    var r := ObsSliceIndices(n);
    var k := (p - 3) / 16;
    assert 16 * k <= p - 3 < 16 * k + 16;
    forall j | 0 <= j < n && j != k
      ensures !(r[j].start <= p < r[j].end)
    {
      if j < k {
        assert r[j].end == 19 + 16 * j <= 3 + 16 * k;
      } else {
        assert r[j].start == 3 + 16 * j >= 19 + 16 * k;
      }
    }
  }

  /**
    The slices for fewer fields are a prefix of the slices for more: a system
    with fewer types than the widest one reads the same columns either way.
  */
  lemma SlicesPrefix(m: nat, n: nat)
    requires m <= n
    ensures ObsSliceIndices(n)[..m] == ObsSliceIndices(m)
  {
    var a := ObsSliceIndices(n)[..m];
    var b := ObsSliceIndices(m);
    forall k | 0 <= k < m ensures a[k] == b[k] {
    }
  }

  /** The slice count is the largest declared count over the systems. */
  predicate IsMaxCount(obsTypes: map<char, seq<string>>, n: nat) {
    (forall s :: s in obsTypes ==> |obsTypes[s]| <= n) &&
    (if obsTypes == map[] then n == 0 else exists s :: s in obsTypes && |obsTypes[s]| == n)
  }

  /** At most one count is the largest. */
  lemma MaxCountUnique(obsTypes: map<char, seq<string>>, m: nat, n: nat)
    requires IsMaxCount(obsTypes, m) && IsMaxCount(obsTypes, n)
    ensures m == n
  {
    if obsTypes != map[] {
      var s :| s in obsTypes && |obsTypes[s]| == m;
      var t :| t in obsTypes && |obsTypes[t]| == n;
      assert m <= n && n <= m;
    }
  }

  /** The number of observation fields a data line may hold: the widest system's count. */
  method MaxCount(obsTypes: map<char, seq<string>>) returns (n: nat)
    ensures IsMaxCount(obsTypes, n)
  {
    n := 0;
    var todo := obsTypes.Keys;
    ghost var done: set<char> := {};
    ghost var widest: char := 'G';
    while todo != {}
      invariant todo <= obsTypes.Keys && done <= obsTypes.Keys
      invariant forall s :: s in obsTypes ==> s in todo || s in done
      invariant forall s :: s in done ==> |obsTypes[s]| <= n
      invariant done == {} ==> n == 0
      invariant done != {} ==> widest in done && |obsTypes[widest]| == n
      decreases |todo|
    {
      var s :| s in todo;
      if |obsTypes[s]| >= n {
        n := |obsTypes[s]|;
        widest := s;
      }
      todo := todo - {s};
      done := done + {s};
    }
    if obsTypes != map[] {
      var s :| s in obsTypes;
      assert s in done;
    }
  }

  /**
    The slices a decoder computes for a header whose largest declared count
    is sixteen: the sixteen fields [3, 19), [19, 35), ..., [243, 259).
  */
  lemma SixteenSlices()
    ensures ObsSliceIndices(16) == [
      Span(3, 19), Span(19, 35), Span(35, 51), Span(51, 67), Span(67, 83), Span(83, 99),
      Span(99, 115), Span(115, 131), Span(131, 147), Span(147, 163), Span(163, 179),
      Span(179, 195), Span(195, 211), Span(211, 227), Span(227, 243), Span(243, 259)]
  {
  }
}
