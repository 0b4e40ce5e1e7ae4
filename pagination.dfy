/** The chart pagination of `Example.py`: a list of subjects is drawn as a
    series of charts of at most five subjects each, in order. */
module Pagination {
  import opened Table

  const SubjectsPerChart: nat := 5

  /** `(n + subjects_per_chart - 1) // subjects_per_chart`: the least number of
      charts that hold `n` subjects. */
  function ChartCount(n: nat): (charts: nat)
    ensures SubjectsPerChart * charts >= n
    ensures charts > 0 ==> SubjectsPerChart * (charts - 1) < n
  {
    (n + SubjectsPerChart - 1) / SubjectsPerChart
  }

  function Min(a: int, b: int): int {
    if a <= b then a else b
  }

  /** The chunks joined back together. */
  function Concat<T>(chunks: seq<seq<T>>): seq<T> {
    if chunks == [] then [] else Concat(Init(chunks)) + Last(chunks)
  }

  /** The chart loop: chunk `i` is `subjects[5 * i .. min(5 * (i + 1), n)]`.
      Every chunk is non-empty and holds at most five subjects, and the chunks
      joined in order give back the subject list. */
  method Paginate<T>(subjects: seq<T>) returns (chunks: seq<seq<T>>)
    ensures |chunks| == ChartCount(|subjects|)
    ensures forall i | 0 <= i < |chunks| ::
      chunks[i] == subjects[SubjectsPerChart * i .. Min(SubjectsPerChart * (i + 1), |subjects|)]
    ensures forall i | 0 <= i < |chunks| :: 0 < |chunks[i]| <= SubjectsPerChart
    ensures Concat(chunks) == subjects
  {
    var n := |subjects|;
    var numCharts := (n + SubjectsPerChart - 1) / SubjectsPerChart;
    chunks := [];
    for i := 0 to numCharts
      invariant |chunks| == i
      invariant forall k | 0 <= k < i ::
        chunks[k] == subjects[SubjectsPerChart * k .. Min(SubjectsPerChart * (k + 1), n)]
      invariant forall k | 0 <= k < i :: 0 < |chunks[k]| <= SubjectsPerChart
      invariant Concat(chunks) == subjects[..Min(SubjectsPerChart * i, n)]
    {
      var startIdx := i * SubjectsPerChart;
      var endIdx := Min((i + 1) * SubjectsPerChart, n);
      var chunk := subjects[startIdx..endIdx];
      assert subjects[..endIdx] == subjects[..startIdx] + chunk;
      chunks := chunks + [chunk];
      assert Init(chunks) == chunks[..i];
    }
    assert subjects[..n] == subjects;
  }
}
