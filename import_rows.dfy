/** The row filter of `handleImportExcel` (app/dashboard/page.tsx:378-399): the names
    in the first column of the sheet's rows after row 1, trimmed, without the
    blank ones, and whether anything is inserted. */
module ImportRows {
  import opened Wrappers
  import opened Seqs
  import opened JsText
  import opened Records

  /** A row that `sheet.eachRow` visits: its 1-based number and the text of its first
      cell (`None` when `text` is undefined). */
  datatype SheetRow = SheetRow(number: nat, firstCell: Option<string>)

  /** The student row inserted for one imported name. */
  datatype NewStudent = NewStudent(name: string, subjectId: Id, classId: Id)

  /** `nameValue`: the trimmed text of the first cell. */
  function NameValue(row: SheetRow): Option<string> {
    match row.firstCell
    case Some(t) => Some(Trim(t))
    case None => None
  }

  /** Whether the callback of lines 380-387 pushes a student for this row. */
  function Imports(row: SheetRow): bool {
    row.number > 1 && NameValue(row).Some? && NameValue(row).value != ""
  }

  /** `studentsToInsert` for `rows`: one student per imported row, in sheet order. */
  function StudentsToInsert(rows: seq<SheetRow>, subjectId: Id, classId: Id): (r: seq<NewStudent>)
    decreases |rows|
  {
    if rows == [] then []
    else
      var last := rows[|rows| - 1];
      StudentsToInsert(rows[..|rows| - 1], subjectId, classId)
        + if Imports(last) then [NewStudent(NameValue(last).value, subjectId, classId)] else []
  }

  /** The `eachRow` callback of lines 380-387 over all rows. */
  method CollectStudents(rows: seq<SheetRow>, subjectId: Id, classId: Id) returns (studentsToInsert: seq<NewStudent>)
    ensures studentsToInsert == StudentsToInsert(rows, subjectId, classId)
  {
    studentsToInsert := [];
    var i := 0;
    while i < |rows|
      invariant 0 <= i <= |rows|
      invariant studentsToInsert == StudentsToInsert(rows[..i], subjectId, classId)
    {
      var row := rows[i];
      assert rows[..i + 1][..i] == rows[..i];
      if row.number > 1 {
        var nameValue := NameValue(row);
        if nameValue.Some? && nameValue.value != "" {
          studentsToInsert := studentsToInsert + [NewStudent(nameValue.value, subjectId, classId)];
        }
      }
      i := i + 1;
    }
    assert rows[..i] == rows;
  }

  /** What the import does with the collected students (lines 389-399). */
  datatype ImportOutcome = NothingToImport | InsertAll(students: seq<NewStudent>)

  /** An insert when there is at least one student, otherwise the "No students found" alert. */
  function ImportOutcomeOf(rows: seq<SheetRow>, subjectId: Id, classId: Id): ImportOutcome {
    var students := StudentsToInsert(rows, subjectId, classId);
    if |students| > 0 then InsertAll(students) else NothingToImport
  }

  // ---- properties ----

  /** The imported students are the imported rows, one each and in order: the `k`-th
      student carries the trimmed name of the `k`-th row that passes the filter. */
  lemma {:induction false} StudentsAreImportedRows(rows: seq<SheetRow>, subjectId: Id, classId: Id)
    ensures var students := StudentsToInsert(rows, subjectId, classId);
      var kept := Filter(rows, Imports);
      && |students| == |kept|
      && forall k :: 0 <= k < |kept| ==>
           students[k] == NewStudent(NameValue(kept[k]).GetOr(""), subjectId, classId)
    decreases |rows|
  {
    if rows != [] {
      StudentsAreImportedRows(rows[..|rows| - 1], subjectId, classId);
    }
  }

  /** A row is imported exactly when it is not row 1 and its first cell has text that
      is not blank; the name imported is then non-empty and trimmed. */
  lemma ImportsExactly(row: SheetRow)
    ensures Imports(row) <==> row.number > 1 && row.firstCell.Some? && Trim(row.firstCell.value) != ""
    ensures Imports(row) ==> var n := NameValue(row).value;
      n != "" && !IsWhiteSpace(n[0]) && !IsWhiteSpace(n[|n| - 1]) && Trim(n) == n
  {
    if Imports(row) {
      TrimIdempotent(row.firstCell.value);
    }
  }

  /** Nothing is inserted exactly when no row passes the filter: when the sheet has
      only its header row and rows whose first cell is blank. */
  lemma NothingToImportIff(rows: seq<SheetRow>, subjectId: Id, classId: Id)
    ensures ImportOutcomeOf(rows, subjectId, classId) == NothingToImport
      <==> forall i :: 0 <= i < |rows| ==> !Imports(rows[i])
  {
    StudentsAreImportedRows(rows, subjectId, classId);
    FilterMembers(rows, Imports);
    if forall i :: 0 <= i < |rows| ==> !Imports(rows[i]) {
      FilterNone(rows, Imports);
    } else {
      var i :| 0 <= i < |rows| && Imports(rows[i]);
      assert rows[i] in Filter(rows, Imports);
    }
  }

  /** Every student comes from some row after the first whose trimmed first cell is its name. */
  lemma ImportedNamesComeFromRows(rows: seq<SheetRow>, subjectId: Id, classId: Id, k: nat)
    requires k < |StudentsToInsert(rows, subjectId, classId)|
    ensures exists i :: (0 <= i < |rows| && rows[i].number > 1 && rows[i].firstCell.Some?
      && StudentsToInsert(rows, subjectId, classId)[k] == NewStudent(Trim(rows[i].firstCell.value), subjectId, classId))
  {
    var kept := Filter(rows, Imports);
    StudentsAreImportedRows(rows, subjectId, classId);
    FilterMembers(rows, Imports);
    assert kept[k] in kept;
    var i :| 0 <= i < |rows| && rows[i] == kept[k];
    assert Imports(rows[i]);
  }
}
