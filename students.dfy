/** Student-level aggregations of `Example.py`: the pass/fail status of each
    student, the distribution of arrear (failed-subject) counts, and the
    department-wise pass/fail counts of students. */
module StudentAggregates {
  import opened Table

  datatype Status = Pass | Fail

  lemma SnocRows(rows: seq<Row>)
    requires rows != []
    ensures rows == Init(rows) + [Last(rows)]
    ensures Students(rows) == Students(Init(rows)) + {Last(rows).regNo}
    ensures forall reg :: HasFailure(rows, reg) <==>
      HasFailure(Init(rows), reg) || (Last(rows).regNo == reg && Last(rows).grade == FailGrade)
  {
    var prefix, last := Init(rows), Last(rows);
    assert rows == prefix + [last];
    forall reg | HasFailure(rows, reg)
      ensures HasFailure(prefix, reg) || (last.regNo == reg && last.grade == FailGrade)
    {
      var i :| 0 <= i < |rows| && rows[i].regNo == reg && rows[i].grade == FailGrade;
      if i < |prefix| {
        assert prefix[i] == rows[i];
      }
    }
    forall reg | HasFailure(prefix, reg) ensures HasFailure(rows, reg) {
      var i :| 0 <= i < |prefix| && prefix[i].regNo == reg && prefix[i].grade == FailGrade;
      assert rows[i] == prefix[i];
    }
    assert last == rows[|rows| - 1];
    forall reg | reg in Students(rows) ensures reg in Students(prefix) + {last.regNo} {
      var i :| 0 <= i < |rows| && rows[i].regNo == reg;
      if i < |prefix| {
        assert prefix[i] == rows[i];
      }
    }
    forall reg | reg in Students(prefix) ensures reg in Students(rows) {
      var i :| 0 <= i < |prefix| && prefix[i].regNo == reg;
      assert rows[i] == prefix[i];
    }
  }

  // ---------------------------------------------------------------------------
  // determine_pass_fail

  /** `determine_pass_fail`: group the rows by REGNO and AND together the
      row-level pass flags; the student's status is Pass when the conjunction
      holds. One entry per student that has a row, and no other. */
  function StudentPassFail(rows: seq<Row>): (status: map<string, Status>)
    ensures status.Keys == Students(rows)
    ensures forall reg | reg in status :: status[reg] == Fail <==> HasFailure(rows, reg)
  {
    if rows == [] then map[]
    else
      var before := StudentPassFail(Init(rows));
      var last := Last(rows);
      var allPassed := (last.regNo !in before || before[last.regNo] == Pass) && Passed(last);
      SnocRows(rows);
      before[last.regNo := if allPassed then Pass else Fail]
  }

  // ---------------------------------------------------------------------------
  // subjects_failed

  /** One row of the arrear histogram: how many students failed exactly
      `subjectsFailed` subjects. */
  datatype ArrearBucket = ArrearBucket(subjectsFailed: nat, studentCount: nat)

  /** The number of U rows of student `reg`. */
  function FailCount(rows: seq<Row>, reg: string): nat {
    if rows == [] then 0
    else FailCount(Init(rows), reg) + (if Last(rows).regNo == reg && Last(rows).grade == FailGrade then 1 else 0)
  }

  /** `df[df["GRADE"] == "U"]["REGNO"]`: the REGNO of every failing row. */
  function FailedRegNos(rows: seq<Row>): (regs: seq<string>)
    ensures forall reg :: reg in regs <==> HasFailure(rows, reg)
    ensures forall reg :: multiset(regs)[reg] == FailCount(rows, reg)
  {
    if rows == [] then []
    else
      var last := Last(rows);
      SnocRows(rows);
      FailedRegNos(Init(rows)) + (if last.grade == FailGrade then [last.regNo] else [])
  }

  /** The students that failed at least one subject. */
  function FailedStudents(rows: seq<Row>): set<string> {
    set reg | reg in Students(rows) && HasFailure(rows, reg)
  }

  /** The sum of the "Student Count" column. */
  function TotalStudents(buckets: seq<ArrearBucket>): nat {
    if buckets == [] then 0 else TotalStudents(Init(buckets)) + Last(buckets).studentCount
  }

  lemma {:induction false} TotalStudentsUpdate(buckets: seq<ArrearBucket>, i: nat, b: ArrearBucket)
    requires i < |buckets|
    ensures TotalStudents(buckets[i := b]) + buckets[i].studentCount == TotalStudents(buckets) + b.studentCount
  {
    var updated := buckets[i := b];
    if i < |buckets| - 1 {
      assert Init(updated) == Init(buckets)[i := b];
      TotalStudentsUpdate(Init(buckets), i, b);
    } else {
      assert Init(updated) == Init(buckets);
    }
  }

  /** Position of the bucket for `n` failures, or -1 when there is none. */
  function BucketIndex(buckets: seq<ArrearBucket>, n: nat): (i: int)
    ensures -1 <= i < |buckets|
    ensures 0 <= i ==> buckets[i].subjectsFailed == n
    ensures i < 0 ==> forall j | 0 <= j < |buckets| :: buckets[j].subjectsFailed != n
  {
    if buckets == [] then -1
    else if Last(buckets).subjectsFailed == n then |buckets| - 1
    else BucketIndex(Init(buckets), n)
  }

  /** The students of `students` whose failure count is `n`. */
  function StudentsWithCount(students: seq<string>, perStudent: map<string, nat>, n: nat): set<string>
    requires forall x | x in students :: x in perStudent
  {
    set x | x in students && perStudent[x] == n
  }

  /** `value_counts()` over the per-student failure counts: one bucket per
      distinct count, holding the number of students with that count. */
  function ValueCounts(students: seq<string>, perStudent: map<string, nat>): seq<ArrearBucket>
    requires forall x | x in students :: x in perStudent
  {
    if students == [] then [] else CountOne(ValueCounts(Init(students), perStudent), perStudent[Last(students)])
  }

  /** Counting one more student with `n` failures: the bucket for `n` grows
      by one, or a new bucket for `n` is appended. */
  function CountOne(buckets: seq<ArrearBucket>, n: nat): seq<ArrearBucket> {
    var i := BucketIndex(buckets, n);
    if 0 <= i then buckets[i := ArrearBucket(n, buckets[i].studentCount + 1)]
    else buckets + [ArrearBucket(n, 1)]
  }

  lemma CountOneTotal(buckets: seq<ArrearBucket>, n: nat)
    ensures TotalStudents(CountOne(buckets, n)) == TotalStudents(buckets) + 1
  {
    var i := BucketIndex(buckets, n);
    if 0 <= i {
      TotalStudentsUpdate(buckets, i, ArrearBucket(n, buckets[i].studentCount + 1));
    } else {
      assert Init(buckets + [ArrearBucket(n, 1)]) == buckets;
    }
  }

  /** Adding one more (new) student changes only the set for its own count. */
  lemma StudentsWithCountSnoc(students: seq<string>, perStudent: map<string, nat>, n: nat)
    requires students != [] && Distinct(students)
    requires forall x | x in students :: x in perStudent
    ensures Last(students) !in StudentsWithCount(Init(students), perStudent, n)
    ensures StudentsWithCount(students, perStudent, n) ==
      StudentsWithCount(Init(students), perStudent, n) +
      (if perStudent[Last(students)] == n then {Last(students)} else {})
  {
    assert students == Init(students) + [Last(students)];
  }

  /** The "Subjects Failed" keys of a histogram. */
  function BucketKeys(buckets: seq<ArrearBucket>): set<nat> {
    set i | 0 <= i < |buckets| :: buckets[i].subjectsFailed
  }

  predicate DistinctKeys(buckets: seq<ArrearBucket>) {
    forall i, j | 0 <= i < j < |buckets| :: buckets[i].subjectsFailed != buckets[j].subjectsFailed
  }

  /** The failure counts that occur among `students`. */
  function CountsOf(students: seq<string>, perStudent: map<string, nat>): set<nat>
    requires forall x | x in students :: x in perStudent
  {
    set x | x in students :: perStudent[x]
  }

  /** Counting one more student adds its count to the keys and keeps them
      distinct. */
  lemma CountOneKeys(buckets: seq<ArrearBucket>, n: nat)
    requires DistinctKeys(buckets)
    ensures BucketKeys(CountOne(buckets, n)) == BucketKeys(buckets) + {n}
    ensures DistinctKeys(CountOne(buckets, n))
  {
    var i := BucketIndex(buckets, n);
    var after := CountOne(buckets, n);
    if 0 <= i {
      forall k | k in BucketKeys(buckets) ensures k in BucketKeys(after) {
        var j :| 0 <= j < |buckets| && buckets[j].subjectsFailed == k;
        assert after[j].subjectsFailed == k;
      }
    } else {
      assert after[|buckets|].subjectsFailed == n;
      forall k | k in BucketKeys(buckets) ensures k in BucketKeys(after) {
        var j :| 0 <= j < |buckets| && buckets[j].subjectsFailed == k;
        assert after[j].subjectsFailed == k;
      }
    }
  }

  /** `value_counts` has one bucket per distinct failure count, and no other. */
  lemma {:induction false} ValueCountsKeys(students: seq<string>, perStudent: map<string, nat>)
    requires forall x | x in students :: x in perStudent
    ensures BucketKeys(ValueCounts(students, perStudent)) == CountsOf(students, perStudent)
    ensures DistinctKeys(ValueCounts(students, perStudent))
  {
    if students != [] {
      var prefix, x := Init(students), Last(students);
      assert students == prefix + [x];
      ValueCountsKeys(prefix, perStudent);
      CountOneKeys(ValueCounts(prefix, perStudent), perStudent[x]);
      assert CountsOf(students, perStudent) == CountsOf(prefix, perStudent) + {perStudent[x]};
    }
  }

  /** Bucket `j` of `value_counts` holds the number of students whose failure
      count is its key. */
  lemma {:induction false} ValueCountsSizeAt(students: seq<string>, perStudent: map<string, nat>, j: nat)
    requires Distinct(students)
    requires forall x | x in students :: x in perStudent
    requires j < |ValueCounts(students, perStudent)|
    ensures ValueCounts(students, perStudent)[j].studentCount ==
      |StudentsWithCount(students, perStudent, ValueCounts(students, perStudent)[j].subjectsFailed)|
  {
    var prefix, x := Init(students), Last(students);
    assert students == prefix + [x];
    DistinctInit(students);
    var before := ValueCounts(prefix, perStudent);
    var after := ValueCounts(students, perStudent);
    var n := perStudent[x];
    var i := BucketIndex(before, n);
    var key := after[j].subjectsFailed;
    StudentsWithCountSnoc(students, perStudent, key);
    ValueCountsKeys(prefix, perStudent);
    if j < |before| {
      ValueCountsSizeAt(prefix, perStudent, j);
      assert key == before[j].subjectsFailed;
      if j != i {
        assert key != n;
      }
    } else {
      assert n !in BucketKeys(before);
      assert StudentsWithCount(prefix, perStudent, n) == {};
    }
  }

  /** The buckets of `value_counts` add up to the number of students. */
  lemma {:induction false} ValueCountsTotal(students: seq<string>, perStudent: map<string, nat>)
    requires forall x | x in students :: x in perStudent
    ensures TotalStudents(ValueCounts(students, perStudent)) == |students|
  {
    if students != [] {
      ValueCountsTotal(Init(students), perStudent);
      CountOneTotal(ValueCounts(Init(students), perStudent), perStudent[Last(students)]);
    }
  }

  /** The students grouped by `subjects_failed` are the failing students,
      each with the number of their U rows. */
  lemma FailedGroups(rows: seq<Row>)
    ensures var failed := FailedRegNos(rows);
      && Elements(Unique(failed)) == FailedStudents(rows)
      && forall x | x in Unique(failed) :: x in GroupSize(failed) && GroupSize(failed)[x] == FailCount(rows, x)
  {
    var failed := FailedRegNos(rows);
    forall reg | reg in Unique(failed) ensures reg in Students(rows) {
      var k :| 0 <= k < |rows| && rows[k].regNo == reg && rows[k].grade == FailGrade;
    }
  }

  /** The failure counts that occur among the failing students. */
  function FailureCounts(rows: seq<Row>): set<nat> {
    set reg | reg in FailedStudents(rows) :: FailCount(rows, reg)
  }

  /** The failing students with exactly `n` U rows. */
  function StudentsFailing(rows: seq<Row>, n: nat): set<string> {
    set reg | reg in FailedStudents(rows) && FailCount(rows, reg) == n
  }

  /** Any grouping of the failing students by their U-row counts has the
      failure counts of the table as its counts. */
  lemma GroupedFailureCounts(rows: seq<Row>, students: seq<string>, perStudent: map<string, nat>)
    requires Elements(students) == FailedStudents(rows)
    requires forall x | x in students :: x in perStudent && perStudent[x] == FailCount(rows, x) && perStudent[x] >= 1
    ensures CountsOf(students, perStudent) == FailureCounts(rows)
    ensures forall n | n in FailureCounts(rows) :: n >= 1
  {
    forall n | n in CountsOf(students, perStudent) ensures n in FailureCounts(rows) {
      var x :| x in students && perStudent[x] == n;
      assert x in Elements(students);
    }
    forall n | n in FailureCounts(rows) ensures n in CountsOf(students, perStudent) && n >= 1 {
      var x :| x in FailedStudents(rows) && FailCount(rows, x) == n;
      assert x in Elements(students);
    }
  }

  lemma GroupedStudentsWithCount(rows: seq<Row>, students: seq<string>, perStudent: map<string, nat>, n: nat)
    requires Elements(students) == FailedStudents(rows)
    requires forall x | x in students :: x in perStudent && perStudent[x] == FailCount(rows, x)
    ensures StudentsWithCount(students, perStudent, n) == StudentsFailing(rows, n)
  {
    forall x | x in StudentsFailing(rows, n) ensures x in StudentsWithCount(students, perStudent, n) {
      assert x in Elements(students);
    }
    forall x | x in StudentsWithCount(students, perStudent, n) ensures x in StudentsFailing(rows, n) {
      assert x in Elements(students);
    }
  }

  /** Over any grouping of the failing students by their U-row counts, each
      bucket of `value_counts` holds the failing students with that many U
      rows. */
  lemma GroupedBucketSizes(rows: seq<Row>, students: seq<string>, perStudent: map<string, nat>)
    requires Distinct(students) && Elements(students) == FailedStudents(rows)
    requires forall x | x in students :: x in perStudent && perStudent[x] == FailCount(rows, x)
    ensures var buckets := ValueCounts(students, perStudent);
      forall i | 0 <= i < |buckets| :: buckets[i].studentCount == |StudentsFailing(rows, buckets[i].subjectsFailed)|
  {
    var buckets := ValueCounts(students, perStudent);
    forall i | 0 <= i < |buckets| ensures buckets[i].studentCount == |StudentsFailing(rows, buckets[i].subjectsFailed)| {
      ValueCountsSizeAt(students, perStudent, i);
      GroupedStudentsWithCount(rows, students, perStudent, buckets[i].subjectsFailed);
    }
  }

  /** `subjects_failed`: count the U rows per student, then count the students
      per failure count. The "Subjects Failed" keys are the U-row counts of the
      failing students, each once and each at least 1; a bucket's "Student
      Count" is the number of failing students with that many U rows; and the
      counts add up to the number of students with a U row. */
  function SubjectsFailed(rows: seq<Row>): (buckets: seq<ArrearBucket>)
    ensures BucketKeys(buckets) == FailureCounts(rows)
    ensures DistinctKeys(buckets)
    ensures forall n | n in BucketKeys(buckets) :: n >= 1
    ensures forall i | 0 <= i < |buckets| ::
      buckets[i].studentCount == |StudentsFailing(rows, buckets[i].subjectsFailed)|
    ensures TotalStudents(buckets) == |FailedStudents(rows)|
  {
    var failed := FailedRegNos(rows);
    var students, perStudent := Unique(failed), GroupSize(failed);
    FailedGroups(rows);
    ValueCountsKeys(students, perStudent);
    GroupedFailureCounts(rows, students, perStudent);
    GroupedBucketSizes(rows, students, perStudent);
    ValueCountsTotal(students, perStudent);
    DistinctCardinality(students);
    ValueCounts(students, perStudent)
  }

  // ---------------------------------------------------------------------------
  // department_wise_pass_fail

  /** `DEPT_ABBREVIATIONS`: full department name to short code. */
  const DeptAbbreviations: map<string, string> := map[
    "AEROSPACE ENGINEERING" := "AERO",
    "AUTOMOBILE ENGINEERING" := "AUTO",
    "ELECTRONICS ENGINEERING" := "ECE",
    "INFORMATION TECHNOLOGY" := "IT",
    "INSTRUMENTATION ENGINEERING" := "E&I",
    "PRODUCTION TECHNOLOGY" := "PT",
    "RUBBER AND PLASTICS TECHNOLOGY" := "RPT"
  ]

  /** The Pass and Fail columns of one department. */
  datatype PassFail = PassFail(pass: nat, fail: nat)

  /** `df[["REGNO", "DEPNAME"]]`. */
  function DeptPairs(rows: seq<Row>): (pairs: seq<(string, string)>)
    ensures |pairs| == |rows|
    ensures forall i | 0 <= i < |rows| :: pairs[i] == (rows[i].regNo, rows[i].depName)
  {
    if rows == [] then [] else DeptPairs(Init(rows)) + [(Last(rows).regNo, Last(rows).depName)]
  }

  /** The distinct (student, department) pairs of a table. */
  function DeptPairSet(rows: seq<Row>): set<(string, string)> {
    set i | 0 <= i < |rows| :: (rows[i].regNo, rows[i].depName)
  }

  /** The department name has a short code and it is `code`. */
  predicate AbbreviatesTo(depName: string, code: string) {
    depName in DeptAbbreviations && DeptAbbreviations[depName] == code
  }

  /** The merged (student, department) pairs of `pairs` whose department has
      the short code `code` and whose student has status `st`. */
  function Members(pairs: seq<(string, string)>, status: map<string, Status>, code: string, st: Status): set<(string, string)>
    requires forall p | p in pairs :: p.0 in status
  {
    set p | p in pairs && AbbreviatesTo(p.1, code) && status[p.0] == st
  }

  /** `groupby(["DEPNAME_SHORT", "Status"]).size().unstack(fill_value=0)` over
      the merged pairs; pairs whose department has no short code form no
      group. */
  function Tally(pairs: seq<(string, string)>, status: map<string, Status>): map<string, PassFail>
    requires forall p | p in pairs :: p.0 in status
  {
    if pairs == [] then map[]
    else TallyOne(Tally(Init(pairs), status), Last(pairs).1, status[Last(pairs).0])
  }

  /** Counting one more pair: the Pass or Fail column of its department's
      short code grows by one; a department without a short code counts
      nowhere. */
  function TallyOne(counts: map<string, PassFail>, depName: string, st: Status): map<string, PassFail> {
    if depName in DeptAbbreviations then
      var code := DeptAbbreviations[depName];
      var before := if code in counts then counts[code] else PassFail(0, 0);
      counts[code := if st == Pass then PassFail(before.pass + 1, before.fail) else PassFail(before.pass, before.fail + 1)]
    else counts
  }

  /** What one more pair does to the row of `code`. */
  lemma TallyOneAt(counts: map<string, PassFail>, depName: string, st: Status, code: string)
    ensures code in TallyOne(counts, depName, st) <==> code in counts || AbbreviatesTo(depName, code)
    ensures var before := if code in counts then counts[code] else PassFail(0, 0);
      code in TallyOne(counts, depName, st) ==>
        && TallyOne(counts, depName, st)[code].pass == before.pass + (if AbbreviatesTo(depName, code) && st == Pass then 1 else 0)
        && TallyOne(counts, depName, st)[code].fail == before.fail + (if AbbreviatesTo(depName, code) && st == Fail then 1 else 0)
  {
  }

  lemma MembersSnoc(pairs: seq<(string, string)>, status: map<string, Status>, code: string, st: Status)
    requires pairs != [] && Distinct(pairs)
    requires forall p | p in pairs :: p.0 in status
    ensures Last(pairs) !in Members(Init(pairs), status, code, st)
    ensures Members(pairs, status, code, st) ==
      Members(Init(pairs), status, code, st) +
      (if AbbreviatesTo(Last(pairs).1, code) && status[Last(pairs).0] == st then {Last(pairs)} else {})
  {
    assert pairs == Init(pairs) + [Last(pairs)];
  }

  /** The short codes of the departments of `pairs` that have one. */
  function CodesOf(pairs: seq<(string, string)>): set<string> {
    set p | p in pairs && p.1 in DeptAbbreviations :: DeptAbbreviations[p.1]
  }

  /** Exactly the departments with a short code that occur get a row. */
  lemma {:induction false} TallyKeys(pairs: seq<(string, string)>, status: map<string, Status>)
    requires forall p | p in pairs :: p.0 in status
    ensures Tally(pairs, status).Keys == CodesOf(pairs)
  {
    if pairs != [] {
      var prefix, last := Init(pairs), Last(pairs);
      assert pairs == prefix + [last];
      TallyKeys(prefix, status);
      if last.1 in DeptAbbreviations {
        assert CodesOf(pairs) == CodesOf(prefix) + {DeptAbbreviations[last.1]};
      } else {
        assert CodesOf(pairs) == CodesOf(prefix);
      }
    }
  }

  /** Over distinct pairs, the Pass and Fail columns of department `code` are
      the numbers of its pairs whose student passed, respectively failed (and
      a department without a row has no such pair). */
  lemma {:induction false} TallySizes(pairs: seq<(string, string)>, status: map<string, Status>, code: string)
    requires Distinct(pairs)
    requires forall p | p in pairs :: p.0 in status
    ensures code in Tally(pairs, status) ==>
      && Tally(pairs, status)[code].pass == |Members(pairs, status, code, Pass)|
      && Tally(pairs, status)[code].fail == |Members(pairs, status, code, Fail)|
    ensures code !in Tally(pairs, status) ==>
      Members(pairs, status, code, Pass) == {} && Members(pairs, status, code, Fail) == {}
  {
    if pairs != [] {
      var prefix, last := Init(pairs), Last(pairs);
      DistinctInit(pairs);
      assert forall p | p in prefix :: p in pairs;
      TallySizes(prefix, status, code);
      MembersSnoc(pairs, status, code, Pass);
      MembersSnoc(pairs, status, code, Fail);
      TallyOneAt(Tally(prefix, status), last.1, status[last.0], code);
    }
  }

  /** The distinct (student, department) pairs of department `code` whose
      student has a U row (`failed`), respectively has none. */
  function DepartmentPairs(rows: seq<Row>, code: string, failed: bool): set<(string, string)> {
    set p | p in DeptPairSet(rows) && AbbreviatesTo(p.1, code) && HasFailure(rows, p.0) == failed
  }

  lemma MergedPairs(rows: seq<Row>)
    ensures forall p :: p in Unique(DeptPairs(rows)) <==> p in DeptPairSet(rows)
    ensures forall p | p in DeptPairSet(rows) :: p.0 in StudentPassFail(rows)
  {
    forall p | p in DeptPairSet(rows) ensures p in DeptPairs(rows) {
      var i :| 0 <= i < |rows| && p == (rows[i].regNo, rows[i].depName);
      assert DeptPairs(rows)[i] == p;
    }
  }

  lemma MembersArePairs(rows: seq<Row>, code: string)
    requires forall p | p in DeptPairSet(rows) :: p.0 in StudentPassFail(rows)
    requires forall p :: p in Unique(DeptPairs(rows)) <==> p in DeptPairSet(rows)
    ensures Members(Unique(DeptPairs(rows)), StudentPassFail(rows), code, Pass) == DepartmentPairs(rows, code, false)
    ensures Members(Unique(DeptPairs(rows)), StudentPassFail(rows), code, Fail) == DepartmentPairs(rows, code, true)
  {
  }

  /** Over the merged pairs of a table, exactly the departments with a short
      code that occur get a row. */
  lemma MergedTallyKeys(rows: seq<Row>)
    ensures forall p | p in Unique(DeptPairs(rows)) :: p.0 in StudentPassFail(rows)
    ensures Tally(Unique(DeptPairs(rows)), StudentPassFail(rows)).Keys ==
      set p | p in DeptPairSet(rows) && p.1 in DeptAbbreviations :: DeptAbbreviations[p.1]
  {
    MergedPairs(rows);
    var pairs := Unique(DeptPairs(rows));
    TallyKeys(pairs, StudentPassFail(rows));
    assert CodesOf(pairs) == set p | p in DeptPairSet(rows) && p.1 in DeptAbbreviations :: DeptAbbreviations[p.1];
  }

  /** Over the merged pairs of a table, each department row's Pass and Fail
      columns count the department's distinct pairs whose student has no U
      row, respectively has one. */
  lemma MergedTallySizes(rows: seq<Row>)
    ensures forall p | p in Unique(DeptPairs(rows)) :: p.0 in StudentPassFail(rows)
    ensures var table := Tally(Unique(DeptPairs(rows)), StudentPassFail(rows));
      forall code | code in table ::
        table[code].pass == |DepartmentPairs(rows, code, false)| && table[code].fail == |DepartmentPairs(rows, code, true)|
  {
    MergedPairs(rows);
    var table := Tally(Unique(DeptPairs(rows)), StudentPassFail(rows));
    forall code | code in table
      ensures table[code].pass == |DepartmentPairs(rows, code, false)| && table[code].fail == |DepartmentPairs(rows, code, true)|
    {
      TallySizes(Unique(DeptPairs(rows)), StudentPassFail(rows), code);
      MembersArePairs(rows, code);
    }
  }

  /** `department_wise_pass_fail`: the per-student status is joined to every
      distinct (REGNO, DEPNAME) pair, mapped to the short department code, and
      counted per code and status. Exactly the departments with a short code
      that occur get a row (departments without one are dropped), and each
      row holds both columns: Pass counts the department's distinct
      (student, department) pairs whose student has no U row, Fail those whose
      student has one. */
  function DepartmentWisePassFail(rows: seq<Row>): (table: map<string, PassFail>)
    ensures table.Keys == set p | p in DeptPairSet(rows) && p.1 in DeptAbbreviations :: DeptAbbreviations[p.1]
    ensures forall code | code in table ::
      table[code].pass == |DepartmentPairs(rows, code, false)| && table[code].fail == |DepartmentPairs(rows, code, true)|
  {
    MergedTallyKeys(rows);
    MergedTallySizes(rows);
    Tally(Unique(DeptPairs(rows)), StudentPassFail(rows))
  }

  /** Every row's key is one of the seven short codes. */
  lemma DepartmentWisePassFailCodes(rows: seq<Row>)
    ensures DepartmentWisePassFail(rows).Keys <= DeptAbbreviations.Values
  {
    forall code | code in DepartmentWisePassFail(rows) ensures code in DeptAbbreviations.Values {
      var p :| p in DeptPairSet(rows) && p.1 in DeptAbbreviations && DeptAbbreviations[p.1] == code;
    }
  }

  /** All rows of a student carry the same department. The department chart
      relies on this; the program does not check it. */
  predicate OneDepartmentPerStudent(rows: seq<Row>) {
    forall i, j | 0 <= i < |rows| && 0 <= j < |rows| && rows[i].regNo == rows[j].regNo ::
      rows[i].depName == rows[j].depName
  }

  /** Student `reg` has a row whose department has the short code `code`. */
  predicate InDepartment(rows: seq<Row>, reg: string, code: string) {
    exists i | 0 <= i < |rows| :: rows[i].regNo == reg && AbbreviatesTo(rows[i].depName, code)
  }

  /** The students of department `code` that have a U row (`failed`),
      respectively have none. */
  function DepartmentStudents(rows: seq<Row>, code: string, failed: bool): set<string> {
    set reg | reg in Students(rows) && InDepartment(rows, reg, code) && HasFailure(rows, reg) == failed
  }

  /** A set of pairs whose first components are all different has as many
      first components as pairs. */
  lemma {:induction false} FirstComponentsCardinality(pairs: set<(string, string)>)
    requires forall p, q | p in pairs && q in pairs && p.0 == q.0 :: p == q
    ensures |set p | p in pairs :: p.0| == |pairs|
  {
    if pairs != {} {
      var p :| p in pairs;
      var rest := pairs - {p};
      FirstComponentsCardinality(rest);
      assert (set q | q in pairs :: q.0) == (set q | q in rest :: q.0) + {p.0};
    }
  }

  lemma DepartmentPairsAreStudents(rows: seq<Row>, code: string, failed: bool)
    requires OneDepartmentPerStudent(rows)
    ensures forall p, q | p in DepartmentPairs(rows, code, failed) && q in DepartmentPairs(rows, code, failed) && p.0 == q.0 :: p == q
    ensures (set p | p in DepartmentPairs(rows, code, failed) :: p.0) == DepartmentStudents(rows, code, failed)
  {
    var pairs := DepartmentPairs(rows, code, failed);
    forall reg | reg in DepartmentStudents(rows, code, failed) ensures reg in (set p | p in pairs :: p.0) {
      var i :| 0 <= i < |rows| && rows[i].regNo == reg && AbbreviatesTo(rows[i].depName, code);
      assert (reg, rows[i].depName) in pairs;
    }
  }

  /** When every student belongs to one department, the department chart
      counts students: Pass is the number of the department's students with
      no U row, Fail the number with one. */
  lemma DepartmentCountsStudents(rows: seq<Row>, code: string)
    requires OneDepartmentPerStudent(rows)
    requires code in DepartmentWisePassFail(rows)
    ensures DepartmentWisePassFail(rows)[code].pass == |DepartmentStudents(rows, code, false)|
    ensures DepartmentWisePassFail(rows)[code].fail == |DepartmentStudents(rows, code, true)|
  {
    DepartmentPairsAreStudents(rows, code, false);
    DepartmentPairsAreStudents(rows, code, true);
    FirstComponentsCardinality(DepartmentPairs(rows, code, false));
    FirstComponentsCardinality(DepartmentPairs(rows, code, true));
  }
}
