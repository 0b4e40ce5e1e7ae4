/** A three-row table worked through the per-student status, the arrear
    histogram and the per-subject pass/fail table: student 1 has an O in AE101
    and a U in AE102, student 2 an A in AE101. */
module WorkedExample {
  import opened Table
  import StudentAggregates
  import SubjectAggregates

  const Results: seq<Row> := [
    Row("AEROSPACE ENGINEERING", "AERO", 5, "1", "AE101", "THEORY", "40", "50", "90", "O"),
    Row("AEROSPACE ENGINEERING", "AERO", 5, "1", "AE102", "THEORY", "10", "20", "30", "U"),
    Row("AEROSPACE ENGINEERING", "AERO", 5, "2", "AE101", "THEORY", "35", "45", "80", "A")
  ]

  /** Student 1 fails, student 2 passes, and no one else appears. */
  lemma ExampleStatus()
    ensures StudentAggregates.StudentPassFail(Results) ==
      map["1" := StudentAggregates.Fail, "2" := StudentAggregates.Pass]
  {
    ExampleStudents();
    var status := StudentAggregates.StudentPassFail(Results);
    assert status.Keys == {"1", "2"};
    assert status["1"] == StudentAggregates.Fail;
    assert status["2"] == StudentAggregates.Pass;
  }

  lemma ExampleStudents()
    ensures Students(Results) == {"1", "2"}
    ensures HasFailure(Results, "1") && !HasFailure(Results, "2")
  {
    assert Results[0].regNo == "1" && Results[2].regNo == "2";
    assert Results[1].grade == FailGrade;
  }

  /** One student (student 1) has a U row, and exactly one. */
  lemma ExampleFailures()
    ensures StudentAggregates.FailedStudents(Results) == {"1"}
    ensures StudentAggregates.FailCount(Results, "1") == 1
  {
    ExampleStudents();
    var rows := Results;
    assert rows[..2] == [rows[0], rows[1]] && rows[..1] == [rows[0]];
  }

  /** A histogram with one key and no repeated key has one bucket. */
  lemma SingleKey(buckets: seq<StudentAggregates.ArrearBucket>, n: nat)
    requires StudentAggregates.BucketKeys(buckets) == {n}
    requires StudentAggregates.DistinctKeys(buckets)
    ensures |buckets| == 1 && buckets[0].subjectsFailed == n
  {
    assert n in StudentAggregates.BucketKeys(buckets);
    assert buckets[0].subjectsFailed in StudentAggregates.BucketKeys(buckets);
    assert buckets[|buckets| - 1].subjectsFailed in StudentAggregates.BucketKeys(buckets);
  }

  /** When one student fails, with one U row, every failure count is 1. */
  lemma SingleFailureCount(rows: seq<Row>, reg: string)
    requires StudentAggregates.FailedStudents(rows) == {reg}
    requires StudentAggregates.FailCount(rows, reg) == 1
    ensures StudentAggregates.FailureCounts(rows) == {1}
    ensures StudentAggregates.StudentsFailing(rows, 1) == {reg}
  {
  }

  /** A table whose only failing student has a single U row has the arrear
      histogram "1 subject failed: 1 student". */
  lemma SingleArrear(rows: seq<Row>, reg: string)
    requires StudentAggregates.FailedStudents(rows) == {reg}
    requires StudentAggregates.FailCount(rows, reg) == 1
    ensures StudentAggregates.SubjectsFailed(rows) == [StudentAggregates.ArrearBucket(1, 1)]
  {
    SingleFailureCount(rows, reg);
    SingleKey(StudentAggregates.SubjectsFailed(rows), 1);
  }

  /** The arrear histogram has the single bucket "1 subject failed: 1
      student". */
  lemma ExampleArrears()
    ensures StudentAggregates.SubjectsFailed(Results) == [StudentAggregates.ArrearBucket(1, 1)]
  {
    ExampleFailures();
    SingleArrear(Results, "1");
  }

  /** A table with two subjects, in that order of first appearance, has one
      pass/fail row per subject, holding that subject's counts. */
  lemma TwoSubjects(rows: seq<Row>, first: string, second: string, failFirst: nat, passFirst: nat, failSecond: nat, passSecond: nat)
    requires Unique(SubCodes(rows)) == [first, second]
    requires SubjectAggregates.SubjectFailures(rows, first) == failFirst
    requires SubjectAggregates.SubjectRows(rows, first) == failFirst + passFirst
    requires SubjectAggregates.SubjectFailures(rows, second) == failSecond
    requires SubjectAggregates.SubjectRows(rows, second) == failSecond + passSecond
    ensures SubjectAggregates.SubjectPassFailCounts(rows) == [
      SubjectAggregates.SubjectOutcome(first, failFirst, passFirst),
      SubjectAggregates.SubjectOutcome(second, failSecond, passSecond)]
  {
    var table := SubjectAggregates.SubjectPassFailCounts(rows);
    RowsOfTwo(table, first, second, failFirst, passFirst, failSecond, passSecond);
  }

  lemma RowsOfTwo(table: seq<SubjectAggregates.SubjectOutcome>, first: string, second: string, failFirst: nat, passFirst: nat, failSecond: nat, passSecond: nat)
    requires |table| == 2
    requires table[0].subCode == first && table[0].fail == failFirst && table[0].pass + table[0].fail == failFirst + passFirst
    requires table[1].subCode == second && table[1].fail == failSecond && table[1].pass + table[1].fail == failSecond + passSecond
    ensures table == [
      SubjectAggregates.SubjectOutcome(first, failFirst, passFirst),
      SubjectAggregates.SubjectOutcome(second, failSecond, passSecond)]
  {
  }

  /** The example's subjects, in order of first appearance. */
  lemma ExampleSubjectCodes()
    ensures Unique(SubCodes(Results)) == ["AE101", "AE102"]
  {
    var codes := SubCodes(Results);
    assert codes == ["AE101", "AE102", "AE101"];
    assert codes[..2] == ["AE101", "AE102"] && codes[..1] == ["AE101"];
  }

  /** AE101 has two rows, neither failing; AE102 one row, failing. */
  lemma ExampleSubjectCounts()
    ensures SubjectAggregates.SubjectRows(Results, "AE101") == 2
    ensures SubjectAggregates.SubjectFailures(Results, "AE101") == 0
    ensures SubjectAggregates.SubjectRows(Results, "AE102") == 1
    ensures SubjectAggregates.SubjectFailures(Results, "AE102") == 1
  {
    var rows := Results;
    assert rows[..2] == [rows[0], rows[1]] && rows[..1] == [rows[0]];
  }

  /** AE101 has two passing rows and no failing one; AE102 one failing row
      and no passing one. */
  lemma ExampleSubjects()
    ensures SubjectAggregates.SubjectPassFailCounts(Results) ==
      [SubjectAggregates.SubjectOutcome("AE101", 0, 2), SubjectAggregates.SubjectOutcome("AE102", 1, 0)]
  {
    ExampleSubjectCodes();
    ExampleSubjectCounts();
    TwoSubjects(Results, "AE101", "AE102", 0, 2, 1, 0);
  }
}
