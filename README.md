# Student performance analysis — the result-aggregation core

`Example.py` is a small web dashboard. It reads an examination-results workbook
(one row per student, subject and semester) and draws charts from it. This
project models the data logic behind those charts:

- the required-column check of `load_data`;
- the per-student pass/fail status (`determine_pass_fail`);
- the dense grade histogram per subject (`grade_distribution_per_subject`);
- the arrear histogram (`subjects_failed`);
- the per-subject pass/fail counts (`subject_wise_pass_fail`);
- the per-department pass/fail counts (`department_wise_pass_fail`);
- the row filters picked by the department, branch and semester selectors,
  including the "Others (Open Elective)" rule;
- the pagination of subject charts into groups of five.

A row (`Table.Row`) holds the ten required columns. Every cell is a string
except the semester, which is an integer. A grade is a string, so the model
also covers rows whose grade is none of the seven known grades. A row
"passes" when its grade is not `"U"`.

pandas operations are written as plain functions over sequences:
- `Table.Unique` is `unique()` / `drop_duplicates()`, in order of first
  appearance;
- `Table.GroupSize` is `groupby(...).size()`;
- `Table.Filter` is a boolean-mask selection.

The aggregations are functions. They are specified against independent
reference definitions: recursive row counts, sets of students, and multiset
counts. The two loops of the program are methods with loop invariants:
- the loop that builds the open-elective subject list (`Filters.ExtendCodes`, used by `Filters.OpenElectiveRows`);
- the chart loop (`Pagination.Paginate`).

Files: `table.dfy` (rows and shared helpers), `loader.dfy`, `students.dfy`
(status, arrears, departments), `subjects.dfy` (grade histogram, subject
pass/fail), `filters.dfy`, `pagination.dfy`, `worked.dfy` (a three-row
table worked through the student status, the arrear histogram and the subject
pass/fail table).

Points where the code's behaviour is easy to misread:
- A student listed under two departments is counted in both
  (Example.py:285-286): every distinct (REGNO, DEPNAME) pair is left-merged
  with the student's status. `StudentAggregates.DepartmentWisePassFail` states
  what is counted. `StudentAggregates.DepartmentCountsStudents` states that
  these are student counts when each student has one department.
- Only rows with one of the seven grades are counted in the grade histogram
  (Example.py:87-88). A subject's counts add up to its number of such rows
  (`SubjectAggregates.GradeDistributionSubjectTotal`).
- `load_data` returns the whole sheet; the caller keeps the ten columns
  (Example.py:301-302).
- An empty selection shows a warning and skips the aggregations
  (Example.py:344-346); the UI is not modelled.

## Model

| member | source | states |
|---|---|---|
| Loader.MissingColumns | Example.py:67-68 | A required column is in the list exactly when the sheet lacks it. The program names none of them: its message is generic (Example.py:69). |
| Loader.AllPresent | Example.py:67-68 | The column check succeeds exactly when every required column name is among the sheet's columns. |
| Loader.LoadData | Example.py:64-74 | Loading yields nothing exactly when the workbook could not be parsed or some required column is missing. Otherwise it yields the parsed sheet unchanged. |
| Loader.LoadRejectsExactlyMissing | Example.py:67-70 | A parsed sheet is rejected if and only if the list of missing required columns is non-empty. |
| StudentAggregates.StudentPassFail | Example.py:77-81 | There is one entry per distinct REGNO of the input and no other. A student's status is Fail exactly when one of their rows has grade U, and Pass otherwise. |
| StudentAggregates.FailedRegNos | Example.py:93 | The U rows' REGNO column holds exactly the students with a U row, each once per U row. |
| StudentAggregates.ValueCountsKeys | Example.py:93 | `value_counts` has one bucket per distinct per-student count and no other, with no key repeated. |
| StudentAggregates.ValueCountsSizeAt | Example.py:93 | Over distinct students, each bucket's size is the number of students whose count is its key. |
| StudentAggregates.ValueCountsTotal | Example.py:93 | The bucket sizes add up to the number of students counted. |
| StudentAggregates.SubjectsFailed | Example.py:92-95 | The "Subjects Failed" keys are exactly the U-row counts of the students with at least one U row. No key repeats, and every key is at least 1. Each "Student Count" is the number of failing students with exactly that many U rows, and the column sums to the number of distinct students with a U row. |
| StudentAggregates.DeptPairs | Example.py:285 | The (REGNO, DEPNAME) column pair has one entry per row, in row order. |
| StudentAggregates.TallyKeys | Example.py:287-288 | The grouped table has a row for each short code of the merged pairs' departments. Departments missing from the abbreviation table form no group. |
| StudentAggregates.TallySizes | Example.py:288-289 | Over distinct pairs, a department's Pass and Fail columns count its pairs whose student passed, respectively failed. A department without a row has no such pairs. |
| StudentAggregates.DepartmentWisePassFail | Example.py:281-289 | The result has a row exactly for the short codes of the departments occurring in the input that have an abbreviation; departments without one are dropped. Each row holds both columns: Pass counts the distinct (REGNO, DEPNAME) pairs of that department whose student has no U row, Fail those whose student has one. |
| StudentAggregates.DepartmentWisePassFailCodes | Example.py:7-15 | Every row key of the department table is one of the seven short codes. |
| StudentAggregates.DepartmentCountsStudents | Example.py:281-289 | When each student's rows name one department, Pass and Fail are the numbers of the department's students without, respectively with, a U row. |
| SubjectAggregates.GradePairs | Example.py:88 | The (SUBCODE, GRADE) key column holds each pair as often as rows have that subject and grade. |
| SubjectAggregates.Reindex | Example.py:87-88 | The reindexed table has seven entries per subject, in subject order and then grade order. Each entry looks up its group size, with 0 when the group is absent. |
| SubjectAggregates.GradeDistribution | Example.py:84-89 | The histogram has 7 × (number of distinct subjects) entries. Entry 7i + j pairs subject i (in order of first appearance) with grade j of O, A+, A, B+, B, C, U. Its count is the number of rows with that subject and grade, so 0 when there are none. |
| SubjectAggregates.GradeDistributionDense | Example.py:86-88 | Every observed subject appears with every one of the seven grades. |
| SubjectAggregates.GradeDistributionNoRepeats | Example.py:87-88 | No (subject, grade) pair appears twice. |
| SubjectAggregates.GradeDistributionSubjectTotal | Example.py:85-88 | A subject's counts add up to its number of rows whose grade is one of the seven. Rows with any other grade are counted nowhere. A subject not in the input has total 0. |
| SubjectAggregates.OutcomePairs | Example.py:110-111 | The (SUBCODE, Pass) key column has one entry per row, in row order, pairing the row's subject with whether its grade is not U. |
| SubjectAggregates.OutcomePairCounts | Example.py:110-111 | Among the (SUBCODE, Pass) keys, a subject's failing pairs number its U rows, and its passing and failing pairs together number all its rows. |
| SubjectAggregates.Unstack | Example.py:111 | The unstacked table read with both outcome columns: one row per subject, each cell 0 when that (subject, outcome) group is absent. pandas has both columns only when both outcomes occur; `SubjectWisePassFail` models the other case. |
| SubjectAggregates.SubjectPassFailCounts | Example.py:109-113 | One row per distinct subject. Fail is the number of its U rows, and Pass + Fail is the number of all its rows. This is the zero-filled table that the function evidently intends. |
| SubjectAggregates.SubjectWisePassFail | Example.py:109-113 | As written, the function succeeds if and only if the input has both a passing and a failing row. It then returns the zero-filled table; otherwise the three-name rename fails. |
| SubjectAggregates.AllPassingTableIsRejected | Example.py:111-112 | A one-row table whose only grade is O makes the function fail with a 2-column frame renamed to 3 names. |
| SubjectAggregates.AllPassingTableCounts | Example.py:111 | For the same table, the zero-filled counts show that subject with Fail 0 and Pass 1. |
| Filters.OtherRows | Example.py:316-317 | A row is kept, with all its copies, exactly when its code starts with none of the department prefixes. |
| Filters.RowsWithCodeIn | Example.py:334 | A row is kept, with all its copies, exactly when its code is in the list. |
| Filters.Union | Example.py:318-333 | A code is in the union exactly when it is in one of the supplementary lists. |
| Filters.ElectiveRows | Example.py:315-335 | A row is selected exactly when it is in the input and its code either starts with none of the department prefixes or is in a supplementary list. The result has no repeated row. |
| Filters.ExtendCodes | Example.py:331-332 | After the loop that extends the subject list with each supplementary list, the list holds exactly its starting codes and every supplementary code. |
| Filters.OpenElectiveRows | Example.py:330-335 | Building the code list with that loop and selecting the rows computes exactly `ElectiveRows`. The result is free of repeats and contains exactly the rows above. |
| Filters.SelectRows | Example.py:314-342 | A row survives the selectors exactly when it matches: the elective rule for "Others (Open Elective)", otherwise DEPNAME unless "Overall", and BRNAME unless "All". It must also match SEM unless "Overall". The elective selection holds each surviving row exactly once (`drop_duplicates`); every other selection keeps each surviving row with its multiplicity. |
| Pagination.ChartCount | Example.py:170-171 | The number of charts is the least number of groups of five that holds all subjects. |
| Pagination.Paginate | Example.py:169-176 | There are `ChartCount(n)` chunks, and chunk i is `subjects[5i .. min(5(i+1), n)]`. Every chunk holds one to five subjects, and the chunks joined in order give back the subject list. The same loop appears at Example.py:195-202 and 224-241. |
| Table.Unique | Example.py:86 | `unique()` holds each element of the input exactly once. |
| Table.UniqueFirstAppearance | Example.py:86 | `unique()` (and, at Example.py:335, `drop_duplicates()`) lists the elements in order of first appearance: of any two, the earlier one occurs in the input before the later one first does. |
| Table.GroupSize | Example.py:88 | `groupby(...).size()` maps each occurring key to its number of occurrences and has no other keys. |
| Table.Filter | Example.py:93 | A boolean-mask selection keeps each row that satisfies the mask with its multiplicity, and no other row. |
| WorkedExample.ExampleStatus | Example.py:77-81 | In the three-row example, student 1 (one U row) fails and student 2 passes. |
| WorkedExample.SingleArrear | Example.py:92-95 | A table whose only failing student has one U row has the arrear histogram {1 subject failed: 1 student}. |
| WorkedExample.ExampleArrears | Example.py:92-95 | The example's arrear histogram is {1 subject failed: 1 student}. |
| WorkedExample.ExampleSubjects | Example.py:109-113 | The example's zero-filled subject table is AE101 with Pass 2 and Fail 0, then AE102 with Pass 0 and Fail 1. |

## Left out

- The web UI is not modelled: page layout, selectors, file upload, messages, and the stop on a failed load (Example.py:4, 24-60, 292-312, 344-395). The selectors' values are parameters of `Filters.SelectRows`.
- The chart specifications are not modelled (Example.py:115-278), except the chunking arithmetic. They are declarative rendering in a charting library.
- Parsing the workbook (`read_excel` of sheet "UG") is a foreign library call. Its outcome is the parameter of `Loader.LoadData`, and a parse failure is a `Failure` value. The `cache_data` memoisation is left out because it does not affect results.
- `avg_marks_per_subject` (Example.py:98-106) and the percentage column of `pass_fail_chart` (Example.py:117-121) are floating-point means and ratios. They are not modelled, and the mark columns are carried as unparsed strings.
- The `Pass` column that the aggregations add to the caller's frame (Example.py:78, 110, 282) is not modelled. Pass-ness is the predicate `Table.Passed` on a row.
- The restriction of the loaded sheet to the ten columns (Example.py:301-302) is left out: a `Row` holds exactly those columns.
- Missing cells (NaN) are not modelled: every cell has a value.
- The order of grouped output is not modelled. pandas sorts groupby keys, while the model lists groups in order of first appearance, and the department table is a map.
- StudentAggregates.SubjectsFailed: lists buckets in order of first appearance, whereas `value_counts` orders them by decreasing frequency; the contents are the same.
- SubjectAggregates.Unstack: always yields both the Fail and the Pass column, whereas `unstack` at Example.py:111 creates only the outcome columns that occur in the table (`fill_value=0` fills absent cells, not absent columns); the missing-column case is modelled by `SubjectAggregates.SubjectWisePassFail`.
- SubjectAggregates.SubjectPassFailCounts: lists subjects in order of first appearance, whereas `groupby` sorts them by subject code; the rows are the same.
- Idempotence of the aggregations is not stated: every aggregation is a function of its input, so it holds by construction.

## Findings

| source | as written | input that shows it | evidently intended | confidence | as-written member | corrected member |
|---|---|---|---|---|---|---|
| Example.py:111-112 | After `unstack`, the frame has the subject column plus one column per pass flag that occurs. It is then renamed to exactly three names. | A filtered table in which every row passes, e.g. one row of subject AE5501 with grade O: only the `True` column exists, so two columns meet three names and pandas raises a length-mismatch error. The function runs for every selection (Example.py:350), "Overall" included. | A Fail column of zeros (Pass column of zeros when every row fails), as `fill_value=0` suggests. | high; not executed | SubjectAggregates.SubjectWisePassFail, SubjectAggregates.AllPassingTableIsRejected | SubjectAggregates.SubjectPassFailCounts |
