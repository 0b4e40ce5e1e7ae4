/** The result table of the dashboard: one row per (student, subject, semester)
    result, the fixed grade alphabet, and the small group-by toolkit that the
    aggregations are built from (distinct values in first-appearance order,
    per-key group sizes, boolean row masks). */
module Table {

  datatype Option<T> = None | Some(value: T)

  datatype Result<T, E> = Success(value: T) | Failure(error: E)

  /** One row of the "UG" sheet, restricted to the ten required columns.
      The three mark columns are kept as the raw cell text: no aggregation
      modelled here reads them. */
  datatype Row = Row(
    depName: string,
    brName: string,
    sem: int,
    regNo: string,
    subCode: string,
    subType: string,
    sesMark: string,
    esem: string,
    totMark: string,
    grade: string)

  /** The failing grade. */
  const FailGrade: string := "U"

  /** The seven grades in display order; any other GRADE text is possible in a
      sheet but belongs to none of them. */
  const GradeOrder: seq<string> := ["O", "A+", "A", "B+", "B", "C", "U"]

  /** The row-level pass flag, `df["GRADE"] != "U"`. */
  predicate Passed(row: Row) {
    row.grade != FailGrade
  }

  /** All but the last element, and the last element. */
  function Init<T>(s: seq<T>): seq<T>
    requires s != []
  {
    s[..|s| - 1]
  }

  function Last<T>(s: seq<T>): T
    requires s != []
  {
    s[|s| - 1]
  }

  predicate Distinct<T(==)>(s: seq<T>) {
    forall i, j | 0 <= i < j < |s| :: s[i] != s[j]
  }

  function Elements<T(!new)>(s: seq<T>): set<T> {
    set x | x in s
  }

  /** The distinct values of `s` in order of first appearance (pandas `unique`,
      and `drop_duplicates` when the values are whole rows). */
  function Unique<T(==,!new)>(s: seq<T>): (u: seq<T>)
    ensures Distinct(u)
    ensures forall x :: x in u <==> x in s
    ensures |u| <= |s|
  {
    if s == [] then []
    else
      var prefix := Unique(s[..|s| - 1]);
      var last := s[|s| - 1];
      if last in prefix then prefix else prefix + [last]
  }

  /** `u` lists values of `s` by first appearance: for each later element of
      `u` there is a position of `s` where it first occurs, and every earlier
      element of `u` occurs before that position. */
  predicate FirstAppearanceOrder<T(==)>(s: seq<T>, u: seq<T>) {
    forall i, j | 0 <= i < j < |u| ::
      exists q | 0 <= q < |s| :: s[q] == u[j] && u[i] in s[..q] && u[j] !in s[..q]
  }

  /** `Unique` keeps the order of first appearance. */
  lemma {:induction false} UniqueFirstAppearance<T(!new)>(s: seq<T>)
    ensures FirstAppearanceOrder(s, Unique(s))
  {
    if s != [] {
      var prefix, last := s[..|s| - 1], s[|s| - 1];
      UniqueFirstAppearance(prefix);
      var p, u := Unique(prefix), Unique(s);
      forall i, j | 0 <= i < j < |u|
        ensures exists q | 0 <= q < |s| :: s[q] == u[j] && u[i] in s[..q] && u[j] !in s[..q]
      {
        if j < |p| {
          assert u[i] == p[i] && u[j] == p[j];
          var q :| 0 <= q < |prefix| && prefix[q] == p[j] && p[i] in prefix[..q] && p[j] !in prefix[..q];
          assert prefix[..q] == s[..q];
          assert s[q] == u[j];
        } else {
          assert u[j] == last && u[i] == p[i] && last !in p;
          assert s[..|s| - 1] == prefix;
          assert s[|s| - 1] == u[j];
        }
      }
    }
  }

  /** A sequence without repetitions holds each of its elements once. */
  lemma {:induction false} DistinctCounts<T>(s: seq<T>)
    requires Distinct(s)
    ensures forall x :: multiset(s)[x] == if x in s then 1 else 0
  {
    if s != [] {
      DistinctInit(s);
      DistinctCounts(Init(s));
      assert s == Init(s) + [Last(s)];
    }
  }

  /** Dropping the last element keeps a sequence free of repetitions, and the
      last element does not occur before it. */
  lemma DistinctInit<T>(s: seq<T>)
    requires s != [] && Distinct(s)
    ensures Distinct(Init(s)) && Last(s) !in Init(s)
  {
    forall i, j | 0 <= i < j < |s| - 1 ensures Init(s)[i] != Init(s)[j] {
      assert Init(s)[i] == s[i] && Init(s)[j] == s[j];
    }
  }

  /** A sequence without repetitions has as many elements as its set. */
  lemma {:induction false} DistinctCardinality<T(!new)>(s: seq<T>)
    requires Distinct(s)
    ensures |Elements(s)| == |s|
  {
    if s != [] {
      var prefix, last := s[..|s| - 1], s[|s| - 1];
      assert s == prefix + [last];
      DistinctInit(s);
      DistinctCardinality(prefix);
      assert Elements(s) == Elements(prefix) + {last};
    }
  }

  /** `groupby(key).size()`: for every key that occurs, the number of its
      occurrences. */
  function GroupSize<K(!new)>(keys: seq<K>): (m: map<K, nat>)
    ensures m.Keys == Elements(keys)
    ensures forall k | k in m :: m[k] == multiset(keys)[k] && m[k] >= 1
  {
    if keys == [] then map[]
    else
      var prefix, last := keys[..|keys| - 1], keys[|keys| - 1];
      assert keys == prefix + [last];
      var m := GroupSize(prefix);
      m[last := if last in m then m[last] + 1 else 1]
  }

  /** A size looked up after reindexing with `fill_value=0`. */
  function SizeOrZero<K>(m: map<K, nat>, k: K): nat {
    if k in m then m[k] else 0
  }

  lemma GroupSizeOrZero<K(!new)>(keys: seq<K>, k: K)
    ensures SizeOrZero(GroupSize(keys), k) == multiset(keys)[k]
  {
  }

  /** A boolean row mask `df[mask]`: the rows satisfying `p`, in order, each
      kept as often as it occurs. */
  function Filter<T(==,!new)>(s: seq<T>, p: T -> bool): (r: seq<T>)
    ensures forall x :: multiset(r)[x] == if p(x) then multiset(s)[x] else 0
    ensures forall x :: x in r <==> x in s && p(x)
    ensures |r| <= |s|
  {
    if s == [] then []
    else
      var prefix, last := s[..|s| - 1], s[|s| - 1];
      assert s == prefix + [last];
      assert forall x :: x in s <==> x in prefix || x == last;
      if p(last) then Filter(prefix, p) + [last] else Filter(prefix, p)
  }

  /** A mask keeps a sequence free of repetitions. */
  lemma {:induction false} FilterDistinct<T(!new)>(s: seq<T>, p: T -> bool)
    requires Distinct(s)
    ensures Distinct(Filter(s, p))
  {
    if s != [] {
      var prefix, last := s[..|s| - 1], s[|s| - 1];
      DistinctInit(s);
      FilterDistinct(prefix, p);
      var kept := Filter(prefix, p);
      if p(last) {
        assert last !in kept;
        forall i, j | 0 <= i < j < |kept| + 1 ensures (kept + [last])[i] != (kept + [last])[j] {
          if j == |kept| {
            assert (kept + [last])[i] == kept[i];
          }
        }
      }
    }
  }

  /** The SUBCODE column. */
  function SubCodes(rows: seq<Row>): (codes: seq<string>)
    ensures |codes| == |rows|
    ensures forall i | 0 <= i < |rows| :: codes[i] == rows[i].subCode
  {
    if rows == [] then [] else SubCodes(rows[..|rows| - 1]) + [rows[|rows| - 1].subCode]
  }

  /** The students of a table: every REGNO that has at least one row. */
  function Students(rows: seq<Row>): set<string> {
    set i | 0 <= i < |rows| :: rows[i].regNo
  }

  /** Student `reg` has a row with the failing grade. */
  predicate HasFailure(rows: seq<Row>, reg: string) {
    exists i | 0 <= i < |rows| :: rows[i].regNo == reg && rows[i].grade == FailGrade
  }
}
