/** Loading the uploaded workbook: the "UG" sheet is accepted only when every
    required column is present. Parsing the workbook is done by a spreadsheet
    library outside the model; its outcome is the parameter `parsed`. */
module Loader {
  import opened Table

  /** The ten columns the dashboard needs. */
  const RequiredColumns: seq<string> :=
    ["DEPNAME", "BRNAME", "SEM", "REGNO", "SUBCODE", "SUBTYPE", "SESMARK", "ESEM", "TOTMARK", "GRADE"]

  /** A parsed sheet: its header and its rows (the required columns of each). */
  datatype Sheet = Sheet(columns: seq<string>, rows: seq<Row>)

  /** `all(col in columns for col in required)`, one column at a time. */
  function AllPresent(required: seq<string>, columns: seq<string>): (ok: bool)
    ensures ok <==> forall c | c in required :: c in columns
  {
    if required == [] then true
    else required[0] in columns && AllPresent(required[1..], columns)
  }

  /** The columns of `RequiredColumns` that the sheet lacks. */
  function MissingColumns(columns: seq<string>): (missing: seq<string>)
    ensures forall c :: c in missing <==> c in RequiredColumns && c !in columns
  {
    Filter(RequiredColumns, c => c !in columns)
  }

  /** `load_data`: nothing when the workbook could not be parsed (the
      exception branch) or when a required column is missing; otherwise the
      sheet unchanged. */
  function LoadData(parsed: Result<Sheet, string>): (loaded: Option<Sheet>)
    ensures loaded.None? <==>
      parsed.Failure? || exists c | c in RequiredColumns :: c !in parsed.value.columns
    ensures loaded.Some? ==> loaded.value == parsed.value
  {
    match parsed
    case Failure(_) => None
    case Success(sheet) =>
      if AllPresent(RequiredColumns, sheet.columns) then Some(sheet) else None
  }

  /** The check rejects a sheet exactly when some required column is missing. */
  lemma LoadRejectsExactlyMissing(sheet: Sheet)
    ensures LoadData(Success(sheet)).None? <==> MissingColumns(sheet.columns) != []
  {
    if MissingColumns(sheet.columns) != [] {
      assert MissingColumns(sheet.columns)[0] in MissingColumns(sheet.columns);
    }
  }
}
