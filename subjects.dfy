/** Subject-level aggregations of `Example.py`: the dense grade histogram of
    every subject and the pass/fail row counts of every subject. */
module SubjectAggregates {
  import opened Table

  // ---------------------------------------------------------------------------
  // Reference counts over the rows

  /** The number of rows of subject `code` with grade `grade`. */
  function RowsWithGrade(rows: seq<Row>, code: string, grade: string): nat {
    if rows == [] then 0
    else
      var last := Last(rows);
      RowsWithGrade(Init(rows), code, grade) + (if last.subCode == code && last.grade == grade then 1 else 0)
  }

  /** The number of rows of subject `code` whose grade is one of `grades`. */
  function RowsWithGradeIn(rows: seq<Row>, code: string, grades: seq<string>): nat {
    if rows == [] then 0
    else
      var last := Last(rows);
      RowsWithGradeIn(Init(rows), code, grades) + (if last.subCode == code && last.grade in grades then 1 else 0)
  }

  /** The number of rows of subject `code`. */
  function SubjectRows(rows: seq<Row>, code: string): nat {
    if rows == [] then 0
    else SubjectRows(Init(rows), code) + (if Last(rows).subCode == code then 1 else 0)
  }

  /** The number of rows of subject `code` with the failing grade. */
  function SubjectFailures(rows: seq<Row>, code: string): nat {
    if rows == [] then 0
    else SubjectFailures(Init(rows), code) + (if Last(rows).subCode == code && !Passed(Last(rows)) then 1 else 0)
  }

  // ---------------------------------------------------------------------------
  // grade_distribution_per_subject

  /** One row of the grade histogram. */
  datatype GradeCount = GradeCount(subCode: string, grade: string, count: nat)

  /** `df[["SUBCODE", "GRADE"]]`, the key of `groupby(["SUBCODE", "GRADE"])`. */
  function GradePairs(rows: seq<Row>): (pairs: seq<(string, string)>)
    ensures forall code, grade :: multiset(pairs)[(code, grade)] == RowsWithGrade(rows, code, grade)
  {
    if rows == [] then []
    else
      var before := GradePairs(Init(rows));
      assert rows == Init(rows) + [Last(rows)];
      before + [(Last(rows).subCode, Last(rows).grade)]
  }

  /** The entries of one subject, one per grade of `grades`, in that order,
      looked up in the sparse group sizes with zero fill. */
  function GradeBlock(code: string, grades: seq<string>, sizes: map<(string, string), nat>): (block: seq<GradeCount>)
    ensures |block| == |grades|
    ensures forall j | 0 <= j < |grades| ::
      block[j] == GradeCount(code, grades[j], SizeOrZero(sizes, (code, grades[j])))
  {
    if grades == [] then []
    else GradeBlock(code, Init(grades), sizes) + [GradeCount(code, Last(grades), SizeOrZero(sizes, (code, Last(grades))))]
  }

  /** `reindex(MultiIndex.from_product([subjects, grade_order]), fill_value=0)`:
      the subjects in order, each followed through the seven grades. */
  function Reindex(subjects: seq<string>, sizes: map<(string, string), nat>): (table: seq<GradeCount>)
    ensures |table| == 7 * |subjects|
    ensures forall k | 0 <= k < |table| ::
      table[k] == GradeCount(subjects[k / 7], GradeOrder[k % 7], SizeOrZero(sizes, (subjects[k / 7], GradeOrder[k % 7])))
  {
    if subjects == [] then []
    else
      var before := Reindex(Init(subjects), sizes);
      var block := GradeBlock(Last(subjects), GradeOrder, sizes);
      assert |GradeOrder| == 7;
      before + block
  }

  /** `grade_distribution_per_subject`: entry `7 * i + j` is subject `i` (in
      order of first appearance) with grade `j` of the fixed order, and its
      count is the number of rows with that subject and grade, zero when
      there is none. Rows with any other grade are counted nowhere. */
  function GradeDistribution(rows: seq<Row>): (table: seq<GradeCount>)
    ensures |table| == 7 * |Unique(SubCodes(rows))|
    ensures forall k | 0 <= k < |table| ::
      && table[k].subCode == Unique(SubCodes(rows))[k / 7]
      && table[k].grade == GradeOrder[k % 7]
      && table[k].count == RowsWithGrade(rows, table[k].subCode, table[k].grade)
  {
    var pairs := GradePairs(rows);
    Reindex(Unique(SubCodes(rows)), GroupSize(pairs))
  }

  /** The histogram is dense: every observed subject is paired with every one
      of the seven grades. */
  lemma GradeDistributionDense(rows: seq<Row>, code: string, grade: string)
    requires code in SubCodes(rows) && grade in GradeOrder
    ensures var table := GradeDistribution(rows);
      exists k | 0 <= k < |table| :: table[k].subCode == code && table[k].grade == grade
  {
    var table := GradeDistribution(rows);
    var subjects := Unique(SubCodes(rows));
    var i :| 0 <= i < |subjects| && subjects[i] == code;
    var j :| 0 <= j < 7 && GradeOrder[j] == grade;
    var k := 7 * i + j;
    Position(i, j);
    assert table[k].subCode == code && table[k].grade == grade;
  }

  /** Entry `7 * i + j` is block `i`, position `j`. */
  lemma Position(i: nat, j: nat)
    requires j < 7
    ensures (7 * i + j) / 7 == i && (7 * i + j) % 7 == j
  {
  }

  /** Two different positions of the reindexed histogram differ in their
      subject or in their grade. */
  lemma DifferentPositions(subjects: seq<string>, k: nat, l: nat)
    requires Distinct(subjects) && k < l < 7 * |subjects|
    ensures subjects[k / 7] != subjects[l / 7] || GradeOrder[k % 7] != GradeOrder[l % 7]
  {
    if k / 7 == l / 7 {
      assert k % 7 != l % 7;
      GradeOrderDistinct();
    }
  }

  lemma GradeOrderDistinct()
    ensures Distinct(GradeOrder)
  {
  }

  /** No (subject, grade) pair appears twice in the histogram. */
  lemma GradeDistributionNoRepeats(rows: seq<Row>)
    ensures var table := GradeDistribution(rows);
      forall k, l | 0 <= k < l < |table| :: table[k].subCode != table[l].subCode || table[k].grade != table[l].grade
  {
    var table := GradeDistribution(rows);
    var subjects := Unique(SubCodes(rows));
    forall k, l | 0 <= k < l < |table| ensures table[k].subCode != table[l].subCode || table[k].grade != table[l].grade {
      DifferentPositions(subjects, k, l);
    }
  }

  /** The counts of one subject's entries added up. */
  function SubjectTotal(table: seq<GradeCount>, code: string): nat {
    if table == [] then 0
    else SubjectTotal(Init(table), code) + (if Last(table).subCode == code then Last(table).count else 0)
  }

  lemma {:induction false} SubjectTotalAppend(a: seq<GradeCount>, b: seq<GradeCount>, code: string)
    ensures SubjectTotal(a + b, code) == SubjectTotal(a, code) + SubjectTotal(b, code)
  {
    if b != [] {
      assert Init(a + b) == a + Init(b);
      SubjectTotalAppend(a, Init(b), code);
    } else {
      assert a + b == a;
    }
  }

  /** The sum of the counts of subject `code` over `grades`. */
  function GradeSum(rows: seq<Row>, code: string, grades: seq<string>): nat {
    if grades == [] then 0 else GradeSum(rows, code, Init(grades)) + RowsWithGrade(rows, code, Last(grades))
  }

  /** A subject's block contributes nothing to another subject's total. */
  lemma {:induction false} GradeBlockOther(code: string, grades: seq<string>, sizes: map<(string, string), nat>, other: string)
    requires code != other
    ensures SubjectTotal(GradeBlock(code, grades, sizes), other) == 0
  {
    if grades != [] {
      GradeBlockOther(code, Init(grades), sizes, other);
      SubjectTotalAppend(GradeBlock(code, Init(grades), sizes), [GradeCount(code, Last(grades), SizeOrZero(sizes, (code, Last(grades))))], other);
    }
  }

  /** A subject's block adds up to its grade sum. */
  lemma {:induction false} GradeBlockTotal(rows: seq<Row>, code: string, grades: seq<string>)
    ensures SubjectTotal(GradeBlock(code, grades, GroupSize(GradePairs(rows))), code) == GradeSum(rows, code, grades)
  {
    if grades != [] {
      var sizes := GroupSize(GradePairs(rows));
      GradeBlockTotal(rows, code, Init(grades));
      GroupSizeOrZero(GradePairs(rows), (code, Last(grades)));
      SubjectTotalAppend(GradeBlock(code, Init(grades), sizes), [GradeCount(code, Last(grades), SizeOrZero(sizes, (code, Last(grades))))], code);
    }
  }

  /** In the reindexed table, a subject's total is that of its own block. */
  lemma {:induction false} ReindexTotal(subjects: seq<string>, sizes: map<(string, string), nat>, code: string)
    requires Distinct(subjects)
    ensures SubjectTotal(Reindex(subjects, sizes), code) ==
      if code in subjects then SubjectTotal(GradeBlock(code, GradeOrder, sizes), code) else 0
  {
    if subjects != [] {
      var prefix, last := Init(subjects), Last(subjects);
      assert subjects == prefix + [last];
      DistinctInit(subjects);
      assert Reindex(subjects, sizes) == Reindex(prefix, sizes) + GradeBlock(last, GradeOrder, sizes);
      ReindexTotal(prefix, sizes, code);
      SubjectTotalAppend(Reindex(prefix, sizes), GradeBlock(last, GradeOrder, sizes), code);
      if last != code {
        GradeBlockOther(last, GradeOrder, sizes, code);
      }
    }
  }

  /** Adding one row to the table adds one to the grade sum of its subject
      when its grade is one of `grades` (listed once each). */
  lemma {:induction false} GradeSumSnoc(rows: seq<Row>, code: string, grades: seq<string>)
    requires rows != [] && Distinct(grades)
    ensures GradeSum(rows, code, grades) == GradeSum(Init(rows), code, grades) +
      (if Last(rows).subCode == code && Last(rows).grade in grades then 1 else 0)
  {
    if grades != [] {
      assert grades == Init(grades) + [Last(grades)];
      DistinctInit(grades);
      GradeSumSnoc(rows, code, Init(grades));
    }
  }

  lemma {:induction false} GradeSumIsGradedRows(rows: seq<Row>, code: string)
    ensures GradeSum(rows, code, GradeOrder) == RowsWithGradeIn(rows, code, GradeOrder)
  {
    if rows == [] {
      GradeSumEmpty(rows, code, GradeOrder);
    } else {
      GradeSumIsGradedRows(Init(rows), code);
      GradeSumSnoc(rows, code, GradeOrder);
    }
  }

  lemma {:induction false} GradeSumEmpty(rows: seq<Row>, code: string, grades: seq<string>)
    requires rows == []
    ensures GradeSum(rows, code, grades) == 0
  {
    if grades != [] {
      GradeSumEmpty(rows, code, Init(grades));
    }
  }

  /** For every subject, the counts of its seven entries add up to the number
      of its rows whose grade is one of the seven; a subject that does not
      occur has no entry. */
  lemma GradeDistributionSubjectTotal(rows: seq<Row>, code: string)
    ensures SubjectTotal(GradeDistribution(rows), code) ==
      if code in SubCodes(rows) then RowsWithGradeIn(rows, code, GradeOrder) else 0
  {
    ReindexTotal(Unique(SubCodes(rows)), GroupSize(GradePairs(rows)), code);
    GradeBlockTotal(rows, code, GradeOrder);
    GradeSumIsGradedRows(rows, code);
  }

  // ---------------------------------------------------------------------------
  // subject_wise_pass_fail

  /** One row of the subject pass/fail table. */
  datatype SubjectOutcome = SubjectOutcome(subCode: string, fail: nat, pass: nat)

  /** `df[["SUBCODE", "Pass"]]`, the key of `groupby(["SUBCODE", "Pass"])`. */
  function OutcomePairs(rows: seq<Row>): (pairs: seq<(string, bool)>)
    ensures |pairs| == |rows|
    ensures forall i | 0 <= i < |rows| :: pairs[i] == (rows[i].subCode, Passed(rows[i]))
  {
    if rows == [] then [] else OutcomePairs(Init(rows)) + [(Last(rows).subCode, Passed(Last(rows)))]
  }

  /** Counting the pairs of one subject: its failing rows, and with the
      passing ones all its rows. */
  lemma {:induction false} OutcomePairCounts(rows: seq<Row>, code: string)
    ensures multiset(OutcomePairs(rows))[(code, false)] == SubjectFailures(rows, code)
    ensures multiset(OutcomePairs(rows))[(code, true)] + multiset(OutcomePairs(rows))[(code, false)] == SubjectRows(rows, code)
  {
    if rows != [] {
      var last := Last(rows);
      OutcomePairCounts(Init(rows), code);
      assert OutcomePairs(rows) == OutcomePairs(Init(rows)) + [(last.subCode, Passed(last))];
    }
  }

  /** The sparse group sizes of `groupby(["SUBCODE", "Pass"]).size()`, read
      with zero fill: the failing and the passing rows of each subject. */
  lemma OutcomeSizes(rows: seq<Row>)
    ensures forall code ::
      && SizeOrZero(GroupSize(OutcomePairs(rows)), (code, false)) == SubjectFailures(rows, code)
      && SizeOrZero(GroupSize(OutcomePairs(rows)), (code, true)) + SubjectFailures(rows, code) == SubjectRows(rows, code)
  {
    forall code ensures
      && SizeOrZero(GroupSize(OutcomePairs(rows)), (code, false)) == SubjectFailures(rows, code)
      && SizeOrZero(GroupSize(OutcomePairs(rows)), (code, true)) + SubjectFailures(rows, code) == SubjectRows(rows, code)
    {
      OutcomePairCounts(rows, code);
      GroupSizeOrZero(OutcomePairs(rows), (code, false));
      GroupSizeOrZero(OutcomePairs(rows), (code, true));
    }
  }

  /** `unstack(fill_value=0)` read with both outcome columns: one row per
      subject, each cell 0 when that (subject, outcome) group is absent.
      pandas creates an outcome column only when some row has that outcome;
      `SubjectWisePassFail` models the table where one is missing. */
  function Unstack(subjects: seq<string>, sizes: map<(string, bool), nat>): (table: seq<SubjectOutcome>)
    ensures |table| == |subjects|
    ensures forall i | 0 <= i < |subjects| ::
      table[i] == SubjectOutcome(subjects[i], SizeOrZero(sizes, (subjects[i], false)), SizeOrZero(sizes, (subjects[i], true)))
  {
    if subjects == [] then []
    else
      var code := Last(subjects);
      Unstack(Init(subjects), sizes) + [SubjectOutcome(code, SizeOrZero(sizes, (code, false)), SizeOrZero(sizes, (code, true)))]
  }

  /** The subject pass/fail table with both columns zero-filled: one row per
      distinct subject code, Fail is the number of its rows with grade U and
      Pass + Fail the number of all its rows. */
  function SubjectPassFailCounts(rows: seq<Row>): (table: seq<SubjectOutcome>)
    ensures |table| == |Unique(SubCodes(rows))|
    ensures forall i | 0 <= i < |table| ::
      && table[i].subCode == Unique(SubCodes(rows))[i]
      && table[i].fail == SubjectFailures(rows, table[i].subCode)
      && table[i].pass + table[i].fail == SubjectRows(rows, table[i].subCode)
  {
    OutcomeSizes(rows);
    Unstack(Unique(SubCodes(rows)), GroupSize(OutcomePairs(rows)))
  }

  /** The rename to ["SUBJECT CODE", "Fail", "Pass"] met a frame with a
      different number of columns. */
  datatype FrameError = LengthMismatch(columns: nat, names: nat)

  /** The outcomes (pass flags) that occur in the table. */
  function OutcomesPresent(rows: seq<Row>): set<bool> {
    set i | 0 <= i < |rows| :: Passed(rows[i])
  }

  /** `subject_wise_pass_fail` as written: after `unstack` and `reset_index`
      the frame has the subject column plus one column per outcome that
      occurs in the table, and renaming it to three names fails unless both
      outcomes occur. */
  function SubjectWisePassFail(rows: seq<Row>): (r: Result<seq<SubjectOutcome>, FrameError>)
    ensures r.Success? <==>
      (exists i | 0 <= i < |rows| :: Passed(rows[i])) && (exists i | 0 <= i < |rows| :: !Passed(rows[i]))
    ensures r.Success? ==> r.value == SubjectPassFailCounts(rows)
  {
    var outcomes := OutcomesPresent(rows);
    var columns := 1 + (if false in outcomes then 1 else 0) + (if true in outcomes then 1 else 0);
    if columns == 3 then Success(SubjectPassFailCounts(rows)) else Failure(LengthMismatch(columns, 3))
  }

  /** The one-row table of a student who passed their only subject. */
  const AllPassing: seq<Row> :=
    [Row("AEROSPACE ENGINEERING", "AERO", 5, "1001", "AE5501", "THEORY", "40", "50", "90", "O")]

  /** A table in which every row passes makes the subject pass/fail table
      fail: after `unstack` only the subject and one outcome column remain. */
  lemma AllPassingTableIsRejected()
    ensures SubjectWisePassFail(AllPassing) == Failure(LengthMismatch(2, 3))
  {
    assert Passed(AllPassing[0]);
    assert true in OutcomesPresent(AllPassing) && false !in OutcomesPresent(AllPassing);
  }

  /** The zero-filled table of the same rows shows the subject with Fail 0
      and Pass 1. */
  lemma AllPassingTableCounts()
    ensures SubjectPassFailCounts(AllPassing) == [SubjectOutcome("AE5501", 0, 1)]
  {
    assert SubCodes(AllPassing) == ["AE5501"];
    assert Unique(SubCodes(AllPassing)) == ["AE5501"];
    assert Init(AllPassing) == [];
  }
}
