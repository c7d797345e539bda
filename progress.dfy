/** Syllabus progress in the dashboard (app/dashboard/page.tsx): decoding the stored
    payloads into `progMap` (lines 133-149) and the per-paper merge of
    `handleProgressChange` (lines 262-270). */
module ProgressMaps {
  import opened Wrappers
  import opened Seqs
  import opened Records

  /** The `progress` column of a `subject_progress` row, by its JavaScript type. */
  datatype Payload =
    | Text(json: string)
    | Object(fields: Progress)
    | Number(n: real)
    | Other

  /** A row of `subject_progress` for the active subject. */
  datatype ProgressRow = ProgressRow(studentId: Id, progress: Payload)

  /** The value `parsed` ends with for one payload. `parse` stands for `JSON.parse`:
      `None` when it throws, which leaves `parsed` as `{}`. A number `n` becomes
      `{ 0: n }`; any other payload (`null`, a boolean, ...) stays `{}`. */
  function Decode(payload: Payload, parse: string -> Option<Progress>): (r: Progress)
    ensures payload.Number? ==> r == map[0 := payload.n]
    ensures payload.Object? ==> r == payload.fields
    ensures payload.Text? ==> r == parse(payload.json).GetOr(map[])
    ensures payload.Other? ==> r == map[]
  {
    match payload
    case Text(json) => parse(json).GetOr(map[])
    case Object(fields) => fields
    case Number(n) => map[0 := n]
    case Other => map[]
  }

  /** `parsed` for a row, as a function of the row. */
  function DecodeRow(parse: string -> Option<Progress>): ProgressRow -> Progress {
    (p: ProgressRow) => Decode(p.progress, parse)
  }

  /** The key a row writes in `progMap`. */
  function StudentOf(p: ProgressRow): Id {
    p.studentId
  }

  /** `progMap` after the rows `rows` in order: each row writes its student's decoded
      payload, so a later row for the same student replaces an earlier one. */
  function ProgressMapOf(rows: seq<ProgressRow>, parse: string -> Option<Progress>): map<Id, Progress> {
    ToMap(rows, StudentOf, DecodeRow(parse))
  }

  /** `progData?.forEach(...)` of lines 135-149; `None` is a `null` result. */
  method BuildProgressMap(progData: Option<seq<ProgressRow>>, parse: string -> Option<Progress>)
    returns (progMap: map<Id, Progress>)
    ensures progMap == ProgressMapOf(progData.GetOr([]), parse)
  {
    var rows := progData.GetOr([]);
    progMap := map[];
    var i := 0;
    while i < |rows|
      invariant 0 <= i <= |rows|
      invariant progMap == ProgressMapOf(rows[..i], parse)
    {
      var p := rows[i];
      var parsed := Decode(p.progress, parse);
      assert rows[..i + 1][..i] == rows[..i];
      progMap := progMap[p.studentId := parsed];
      i := i + 1;
    }
    assert rows[..i] == rows;
  }

  /** Only the students that have a row appear in `progMap`, and a student's entry is
      the decoded payload of that student's last row. */
  lemma ProgressMapLastRow(rows: seq<ProgressRow>, parse: string -> Option<Progress>, i: nat)
    requires i < |rows|
    requires forall j :: i < j < |rows| ==> rows[j].studentId != rows[i].studentId
    ensures rows[i].studentId in ProgressMapOf(rows, parse)
    ensures ProgressMapOf(rows, parse)[rows[i].studentId] == Decode(rows[i].progress, parse)
  {
    ToMapLast(rows, StudentOf, DecodeRow(parse), i);
  }

  /** A student without a row has no entry in `progMap`, so the standing's progress is `{}`. */
  lemma ProgressMapMissing(rows: seq<ProgressRow>, parse: string -> Option<Progress>, id: Id)
    requires forall i :: 0 <= i < |rows| ==> rows[i].studentId != id
    ensures id !in ProgressMapOf(rows, parse)
  {
    ToMapKeys(rows, StudentOf, DecodeRow(parse), id);
  }

  // ---- handleProgressChange ----

  /** `{ ...currentProg, [paperIndex]: newProgress }`. */
  function MergeProgress(current: Progress, paperIndex: nat, newProgress: real): (r: Progress)
    ensures r.Keys == current.Keys + {paperIndex}
    ensures r[paperIndex] == newProgress
    ensures forall k :: k in current && k != paperIndex ==> r[k] == current[k]
  {
    current[paperIndex := newProgress]
  }

  /** `students.find(s => s.id === studentId)`: the first standing of that student. */
  function Find(students: seq<Standing>, studentId: Id): (r: Option<Standing>)
    ensures r.Some? ==> r.value in students && r.value.student.id == studentId
    decreases |students|
  {
    if students == [] then None
    else if students[0].student.id == studentId then Some(students[0])
    else Find(students[1..], studentId)
  }

  /** `find` finds nothing exactly when no standing belongs to the student, and
      otherwise the standing at the first position that does. */
  lemma {:induction false} FindFirst(students: seq<Standing>, studentId: Id)
    ensures Find(students, studentId).None? <==> forall i :: 0 <= i < |students| ==> students[i].student.id != studentId
    ensures Find(students, studentId).Some? ==>
      exists f :: 0 <= f < |students| && students[f] == Find(students, studentId).value
        && forall j :: 0 <= j < f ==> students[j].student.id != studentId
    decreases |students|
  {
    if students != [] && students[0].student.id != studentId {
      var rest := students[1..];
      FindFirst(rest, studentId);
      forall i | 0 < i < |students| ensures students[i] == rest[i - 1] {
      }
      if Find(rest, studentId).Some? {
        var f :| 0 <= f < |rest| && rest[f] == Find(rest, studentId).value
          && forall j :: 0 <= j < f ==> rest[j].student.id != studentId;
        assert students[f + 1] == Find(students, studentId).value;
        assert forall j :: 0 <= j < f + 1 ==> students[j].student.id != studentId;
      }
    } else if students != [] {
      assert students[0] == Find(students, studentId).value;
    }
  }

  /** `prev.map(s => s.id === studentId ? { ...s, progress: updatedProg } : s)`. */
  function ApplyProgress(students: seq<Standing>, studentId: Id, updated: Progress): (r: seq<Standing>)
    ensures |r| == |students|
    ensures forall i :: 0 <= i < |students| && students[i].student.id == studentId ==>
      r[i] == students[i].(progress := updated)
    ensures forall i :: 0 <= i < |students| && students[i].student.id != studentId ==> r[i] == students[i]
  {
    Map(students, (s: Standing) => if s.student.id == studentId then s.(progress := updated) else s)
  }

  /** The dashboard's state after `handleProgressChange(studentId, paperIndex, newProgress)`:
      the new student list and the new selected student. */
  datatype ProgressChange = ProgressChange(students: seq<Standing>, selected: Option<Standing>)

  /** Lines 262-270: the progress of the first standing of `studentId` (or `{}`), with
      `paperIndex` set, written to every standing of that student and to the selected
      student when it is that student. */
  function ChangeProgress(students: seq<Standing>, selected: Option<Standing>, studentId: Id,
                          paperIndex: nat, newProgress: real): (r: ProgressChange)
    ensures |r.students| == |students|
    ensures selected.None? ==> r.selected.None?
    ensures selected.Some? ==> r.selected.Some? && r.selected.value == selected.value.(progress := r.selected.value.progress)
    ensures selected.Some? && selected.value.student.id != studentId ==> r.selected == selected
  {
    var current := match Find(students, studentId) case Some(st) => st.progress case None => map[];
    var updated := MergeProgress(current, paperIndex, newProgress);
    var selected' := if selected.Some? && selected.value.student.id == studentId
      then Some(selected.value.(progress := updated)) else selected;
    ProgressChange(ApplyProgress(students, studentId, updated), selected')
  }

  /** A progress change sets exactly `paperIndex` of that student's progress: the other
      papers keep what the student's first standing in the list had, other students and
      all other fields are unchanged, and a selected other student stays as it is. */
  lemma ChangeProgressEffect(students: seq<Standing>, selected: Option<Standing>, studentId: Id,
                             paperIndex: nat, newProgress: real, i: nat)
    requires i < |students|
    ensures var c := ChangeProgress(students, selected, studentId, paperIndex, newProgress);
      && |c.students| == |students|
      && (students[i].student.id != studentId ==> c.students[i] == students[i])
      && (students[i].student.id == studentId ==>
            && c.students[i] == students[i].(progress := c.students[i].progress)
            && (exists f :: 0 <= f <= i && students[f].student.id == studentId
                 && (forall j :: 0 <= j < f ==> students[j].student.id != studentId)
                 && c.students[i].progress == students[f].progress[paperIndex := newProgress]))
      && (selected.Some? && selected.value.student.id != studentId ==> c.selected == selected)
      && (selected.None? ==> c.selected.None?)
  {
    var found := Find(students, studentId);
    FindFirst(students, studentId);
    if students[i].student.id == studentId {
      var f :| 0 <= f < |students| && students[f] == found.value
        && forall j :: 0 <= j < f ==> students[j].student.id != studentId;
      assert f <= i;
    }
  }

  /** When the selected student is the one changed (lines 268-269), it gets the same new
      progress as that student's standings, and `{paperIndex: newProgress}` when the list
      holds no standing of the student. */
  lemma ChangeProgressSelected(students: seq<Standing>, selected: Option<Standing>, studentId: Id,
                               paperIndex: nat, newProgress: real)
    ensures var c := ChangeProgress(students, selected, studentId, paperIndex, newProgress);
      selected.Some? && selected.value.student.id == studentId ==>
        && c.selected.Some?
        && c.selected.value == selected.value.(progress := c.selected.value.progress)
        && (forall j :: 0 <= j < |students| && students[j].student.id == studentId ==>
              c.selected.value.progress == c.students[j].progress)
        && ((forall j :: 0 <= j < |students| ==> students[j].student.id != studentId) ==>
              c.selected.value.progress == map[paperIndex := newProgress])
  {
    FindFirst(students, studentId);
  }

  /** Changing one paper twice keeps only the second value for it. */
  lemma MergeProgressOverwrites(current: Progress, paperIndex: nat, first: real, second: real)
    ensures MergeProgress(MergeProgress(current, paperIndex, first), paperIndex, second)
      == MergeProgress(current, paperIndex, second)
  {
  }

  /** Merges of different papers commute. */
  lemma MergeProgressCommutes(current: Progress, i: nat, x: real, j: nat, y: real)
    requires i != j
    ensures MergeProgress(MergeProgress(current, i, x), j, y) == MergeProgress(MergeProgress(current, j, y), i, x)
  {
  }
}
