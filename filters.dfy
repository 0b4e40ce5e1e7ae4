/** The row filters applied before aggregation: the "Others (Open Elective)"
    selection and the department, branch and semester selections. */
module Filters {
  import opened Table

  /** `DEPT_PREFIX.values()`: the subject-code prefixes owned by a department. */
  const DeptPrefixes: seq<string> := ["AE", "AU", "EC", "AZ", "IT", "EI", "ME", "PR", "RO", "RP"]

  /** `extra_subjects.values()`: per department, the codes offered to other
      departments as open electives although their prefix is owned. */
  const ExtraSubjects: seq<seq<string>> := [
    ["HM5503", "EC5797", "PR5791", "EC5796", "RP5591", "EI5791", "AU5791", "ME5796", "IT5794"],
    ["GE5552", "IT5794", "GE5451", "ITM503", "ITM505", "EC5796", "EC5797", "PR5791", "RP5591", "AE5795", "ME5796"],
    ["HU5176", "IT5794", "MG5451", "PH5202", "EI5791", "HU5172", "HU5171", "ME5796", "HU5173", "PR5791", "HU5177", "AU5791", "AE5795", "HU5174", "RP5591"],
    ["HU5173", "HU5176", "HU5171", "HU5172", "HU5177"],
    ["HU5174", "HU5177", "HU5172", "HU5173", "HU5176", "HU5171", "EC5797", "EC5796", "AE5795", "AU5791", "EI5791", "ME5796", "PR5791", "RP5591"],
    ["HM5501", "ME5796", "RP5591", "EC5796", "EC5797", "IT5794", "PR5791", "AE5795"],
    ["ITM503", "ITM505", "AU5791", "AE5795", "GE5152", "MA5252"],
    ["GE5551", "HS5151", "ITM503", "ITM505", "EEM504", "EEM503", "EI5791", "EC5796", "IT5794", "AE5795"],
    ["EE5402", "ITM503", "ITM505", "MA5158"],
    ["HU5171", "HU5176", "HU5172", "ITM503", "ITM505", "HU5177", "HU5174", "GE5451", "ME5796", "EC5797", "AE5795", "AU5791", "EC5796"]
  ]

  /** `SUBCODE.str.startswith(prefixes)`. */
  predicate OwnedByDepartment(code: string, prefixes: seq<string>) {
    exists p | p in prefixes :: p <= code
  }

  /** The codes of all the lists together. */
  function Union(lists: seq<seq<string>>): (codes: set<string>)
    ensures forall c :: c in codes <==> exists i | 0 <= i < |lists| :: c in lists[i]
  {
    if lists == [] then {}
    else
      assert lists == Init(lists) + [Last(lists)];
      Union(Init(lists)) + Elements(Last(lists))
  }

  /** `df_others`: the rows whose subject code has none of the prefixes. */
  function OtherRows(rows: seq<Row>, prefixes: seq<string>): (others: seq<Row>)
    ensures forall row ::
      multiset(others)[row] == if OwnedByDepartment(row.subCode, prefixes) then 0 else multiset(rows)[row]
  {
    Filter(rows, (row: Row) => !OwnedByDepartment(row.subCode, prefixes))
  }

  /** `df[df["SUBCODE"].isin(subject_list)]`. */
  function RowsWithCodeIn(rows: seq<Row>, codes: set<string>): (kept: seq<Row>)
    ensures forall row :: multiset(kept)[row] == if row.subCode in codes then multiset(rows)[row] else 0
  {
    Filter(rows, (row: Row) => row.subCode in codes)
  }

  /** The codes of rows none of whose codes is owned are not owned. */
  lemma OtherCodesNotOwned(others: seq<Row>, prefixes: seq<string>)
    requires forall row | row in others :: !OwnedByDepartment(row.subCode, prefixes)
    ensures forall c | c in SubCodes(others) :: !OwnedByDepartment(c, prefixes)
  {
    forall c | c in SubCodes(others)
      ensures !OwnedByDepartment(c, prefixes)
    {
      var i :| 0 <= i < |others| && SubCodes(others)[i] == c;
      assert others[i] in others;
    }
  }

  /** The open-elective rows: `concat([df_others, df_extra]).drop_duplicates()`
      where `df_extra` holds the rows whose code is one of the other rows'
      codes or one of the supplementary codes. */
  function ElectiveRows(rows: seq<Row>, prefixes: seq<string>, extra: seq<seq<string>>): (selected: seq<Row>)
    ensures Distinct(selected)
    ensures forall row :: row in selected <==>
      row in rows && (!OwnedByDepartment(row.subCode, prefixes) || row.subCode in Union(extra))
  {
    var others := OtherRows(rows, prefixes);
    var codes := Elements(SubCodes(others)) + Union(extra);
    OtherCodesNotOwned(others, prefixes);
    Unique(others + RowsWithCodeIn(rows, codes))
  }

  /** The loop `for subjects in extra_subjects.values(): subject_list.extend(subjects)`:
      the list ends up holding its first codes and every supplementary code. */
  method ExtendCodes(start: seq<string>, extra: seq<seq<string>>) returns (subjectList: seq<string>)
    ensures Elements(subjectList) == Elements(start) + Union(extra)
  {
    subjectList := start;
    for i := 0 to |extra|
      invariant Elements(subjectList) == Elements(start) + Union(extra[..i])
    {
      assert Init(extra[..i + 1]) == extra[..i] && Last(extra[..i + 1]) == extra[i];
      assert Union(extra[..i + 1]) == Union(extra[..i]) + Elements(extra[i]);
      assert Elements(subjectList + extra[i]) == Elements(subjectList) + Elements(extra[i]);
      subjectList := subjectList + extra[i];
    }
    assert extra[..|extra|] == extra;
  }

  /** The "Others (Open Elective)" branch of the filter: the code list is
      built by extending the other rows' codes with each supplementary list in
      turn, and the selected rows are those that are "other" or carry a listed
      code, each distinct row once. */
  method OpenElectiveRows(rows: seq<Row>, prefixes: seq<string>, extra: seq<seq<string>>) returns (selected: seq<Row>)
    ensures selected == ElectiveRows(rows, prefixes, extra)
    ensures Distinct(selected)
    ensures forall row :: row in selected <==>
      row in rows && (!OwnedByDepartment(row.subCode, prefixes) || row.subCode in Union(extra))
  {
    var others := OtherRows(rows, prefixes);
    var subjectList := ExtendCodes(Unique(SubCodes(others)), extra);
    assert Elements(Unique(SubCodes(others))) == Elements(SubCodes(others));
    var codes := Elements(subjectList);
    selected := Unique(others + RowsWithCodeIn(rows, codes));
  }

  /** The department selector's two fixed entries and the branch selector's
      catch-all entry. */
  const OverallDepartment: string := "Overall"
  const OpenElective: string := "Others (Open Elective)"
  const AllBranches: string := "All"

  /** The semester selector: "Overall" or one semester number. */
  datatype SemesterChoice = AllSemesters | Semester(number: int)

  /** Whether a row belongs to the selection, stated per selector. */
  predicate Selected(row: Row, department: string, branch: string, semester: SemesterChoice) {
    && (department == OpenElective ==>
          !OwnedByDepartment(row.subCode, DeptPrefixes) || row.subCode in Union(ExtraSubjects))
    && (department != OpenElective && department != OverallDepartment ==>
          row.depName == department && (branch != AllBranches ==> row.brName == branch))
    && (semester.Semester? ==> row.sem == semester.number)
  }

  /** The filter block: the department (and branch) selection, then the
      semester selection. The open-elective selection holds each selected row
      once (`drop_duplicates`); the others keep every copy. */
  function SelectRows(rows: seq<Row>, department: string, branch: string, semester: SemesterChoice): (selected: seq<Row>)
    ensures forall row :: row in selected <==> row in rows && Selected(row, department, branch, semester)
    ensures department != OpenElective ==> forall row ::
      multiset(selected)[row] == if Selected(row, department, branch, semester) then multiset(rows)[row] else 0
    ensures department == OpenElective ==> forall row ::
      multiset(selected)[row] == if row in rows && Selected(row, department, branch, semester) then 1 else 0
  {
    var byDepartment :=
      if department == OpenElective then ElectiveRows(rows, DeptPrefixes, ExtraSubjects)
      else if department != OverallDepartment then
        var inDepartment := Filter(rows, (row: Row) => row.depName == department);
        if branch != AllBranches then Filter(inDepartment, (row: Row) => row.brName == branch) else inDepartment
      else rows;
    var selected :=
      match semester
      case AllSemesters => byDepartment
      case Semester(n) =>
        var inSemester := (row: Row) => row.sem == n;
        assert department == OpenElective ==> Distinct(Filter(byDepartment, inSemester)) by {
          if department == OpenElective {
            FilterDistinct(byDepartment, inSemester);
          }
        }
        Filter(byDepartment, inSemester);
    assert department == OpenElective ==> forall row :: multiset(selected)[row] == if row in selected then 1 else 0 by {
      if department == OpenElective {
        DistinctCounts(selected);
      }
    }
    selected
  }
}
