/**
 * Roster loading with header detection (`load_excel_with_flexible_headers`,
 * manual_certificate_renamer.py, lines 18-33). Reading the spreadsheet is external: the
 * sheet as it reads with header row `i` is given as `candidates[i]`, and a header row past
 * the end of the sheet (`i >= |candidates|`) is a read that raises.
 */
module SchemaDetector {
  import opened Wrappers
  import opened PyStr
  import opened Normalizer

  /** How many header rows are tried (`range(10)`). */
  const MaxHeaderRows: nat := 10

  /** A sheet read with one choice of header row: its stringified column labels and the data
      rows below it, each cell in its string form. */
  datatype Sheet = Sheet(labels: seq<string>, rows: seq<seq<string>>)

  /** A data frame has one cell per column in every row. */
  predicate Rectangular(sheet: Sheet) {
    forall k :: 0 <= k < |sheet.rows| ==> |sheet.rows[k]| == |sheet.labels|
  }

  /** One roster row: the normalised 'Name' and the 'Roll Number' as a string. */
  datatype Record = Record(name: string, roll: string)

  /** The loaded roster: the header row found, the chosen column labels and the records. */
  datatype Roster = Roster(headerRow: nat, nameColumn: string, rollColumn: string, records: seq<Record>)

  datatype LoadError =
    | SchemaNotFound          // no candidate among the first ten has both columns
    | ReadFailed(headerRow: nat)  // reading with this header row raised (the sheet is too short)

  /** Some lower-cased label contains `key`. */
  predicate HasLabel(labels: seq<string>, key: string) {
    exists k :: 0 <= k < |labels| && Contains(Lower(labels[k]), key)
  }

  /** The test on line 23: a label mentions "name" and a label mentions "roll". */
  predicate IsHeader(labels: seq<string>) {
    HasLabel(labels, "name") && HasLabel(labels, "roll")
  }

  /** `next(c for c in columns if key in str(c).lower())`: the first label mentioning `key`. */
  function FirstLabel(labels: seq<string>, key: string): (k: nat)
    requires HasLabel(labels, key)
    ensures k < |labels| && Contains(Lower(labels[k]), key)
    ensures forall j :: 0 <= j < k ==> !Contains(Lower(labels[j]), key)
  {
    if Contains(Lower(labels[0]), key) then 0
    else
      assert HasLabel(labels[1..], key) by {
        var k :| 0 <= k < |labels| && Contains(Lower(labels[k]), key);
        assert labels[1..][k - 1] == labels[k];
      }
      1 + FirstLabel(labels[1..], key)
  }

  /** Lines 31-32: every data row becomes a record of its normalised name cell and its roll cell. */
  predicate RecordsOf(sheet: Sheet, nameIndex: nat, rollIndex: nat, records: seq<Record>)
    requires Rectangular(sheet) && nameIndex < |sheet.labels| && rollIndex < |sheet.labels|
  {
    |records| == |sheet.rows| &&
    forall k :: 0 <= k < |records| ==>
      records[k] == Record(Normalize(sheet.rows[k][nameIndex]), sheet.rows[k][rollIndex])
  }

  /** The header search and roster construction of lines 18-33. */
  method LoadWithFlexibleHeaders(candidates: seq<Sheet>) returns (r: Result<Roster, LoadError>)
    requires forall i :: 0 <= i < |candidates| ==> Rectangular(candidates[i])
    ensures r.Success? <==>
      exists i :: 0 <= i < MaxHeaderRows && i < |candidates| && IsHeader(candidates[i].labels)
    ensures r.Success? ==>
      var h := r.value.headerRow;
      && h < MaxHeaderRows && h < |candidates|
      && IsHeader(candidates[h].labels)
      && (forall j :: 0 <= j < h ==> !IsHeader(candidates[j].labels))
      && var sheet := candidates[h];
         var nameIndex := FirstLabel(sheet.labels, "name");
         var rollIndex := FirstLabel(sheet.labels, "roll");
         && r.value.nameColumn == sheet.labels[nameIndex]
         && r.value.rollColumn == sheet.labels[rollIndex]
         && RecordsOf(sheet, nameIndex, rollIndex, r.value.records)
    ensures r.Failure? ==>
      r.error == if |candidates| < MaxHeaderRows then ReadFailed(|candidates|) else SchemaNotFound
  {
    var headerRow: Option<nat> := None;
    for i := 0 to MaxHeaderRows
      invariant headerRow.None? && i <= |candidates|
      invariant forall j :: 0 <= j < i ==> !IsHeader(candidates[j].labels)
    {
      if i >= |candidates| {
        return Failure(ReadFailed(i));
      }
      if IsHeader(candidates[i].labels) {
        headerRow := Some(i);
        break;
      }
    }
    if headerRow.None? {
      return Failure(SchemaNotFound);
    }
    var sheet := candidates[headerRow.value];
    var nameIndex := FirstLabel(sheet.labels, "name");
    var rollIndex := FirstLabel(sheet.labels, "roll");
    var records := seq(|sheet.rows|, k requires 0 <= k < |sheet.rows| =>
      Record(Normalize(sheet.rows[k][nameIndex]), sheet.rows[k][rollIndex]));
    r := Success(Roster(headerRow.value, sheet.labels[nameIndex], sheet.labels[rollIndex], records));
  }
}
