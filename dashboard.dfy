/** `fetchClassData` (app/dashboard/page.tsx:124-210) from the fetched rows to the
    ranked standings, and the views of lines 296-297 that show them. */
module Dashboard {
  import opened Wrappers
  import opened JsNumber
  import opened Seqs
  import opened Records
  import opened Aggregation
  import opened Ranking
  import opened ProgressMaps

  // ---- the class map ----

  /** The key a `classes` row writes in `classMap`. */
  function ClassId(c: ClassRow): Id {
    c.id
  }

  /** The value a `classes` row writes in `classMap`. */
  function ClassName(c: ClassRow): string {
    c.name
  }

  /** `classMap` after the rows `rows`: each id maps to the name of its last row. */
  function ClassMapOf(rows: seq<ClassRow>): map<Id, string> {
    ToMap(rows, ClassId, ClassName)
  }

  /** `classesData?.forEach(c => { classMap[c.id] = c.name; })` of lines 127-128. */
  method BuildClassMap(classesData: Option<seq<ClassRow>>) returns (classMap: map<Id, string>)
    ensures classMap == ClassMapOf(classesData.GetOr([]))
  {
    var rows := classesData.GetOr([]);
    classMap := map[];
    var i := 0;
    while i < |rows|
      invariant 0 <= i <= |rows|
      invariant classMap == ClassMapOf(rows[..i])
    {
      assert rows[..i + 1][..i] == rows[..i];
      classMap := classMap[rows[i].id := rows[i].name];
      i := i + 1;
    }
    assert rows[..i] == rows;
  }

  /** A class id is in `classMap` exactly when some row has it, and then it maps to the
      name of the last such row. */
  lemma ClassMapLookup(rows: seq<ClassRow>, i: nat)
    requires i < |rows|
    requires forall j :: i < j < |rows| ==> rows[j].id != rows[i].id
    ensures rows[i].id in ClassMapOf(rows) && ClassMapOf(rows)[rows[i].id] == rows[i].name
  {
    ToMapLast(rows, ClassId, ClassName, i);
  }

  /** An id no row has is not in `classMap`. */
  lemma ClassMapMissing(rows: seq<ClassRow>, id: Id)
    requires forall i :: 0 <= i < |rows| ==> rows[i].id != id
    ensures id !in ClassMapOf(rows)
  {
    ToMapKeys(rows, ClassId, ClassName, id);
  }

  // ---- the standings ----

  /** `activeSubject.classes.includes(classMap[s.class_id])` (line 155): an unknown
      class id gives `undefined`, which no class name equals. */
  function InSubject(subject: Subject, classMap: map<Id, string>): Student -> bool {
    (s: Student) => s.classId in classMap && classMap[s.classId] in subject.classes
  }

  /** `relevantStudents`. */
  function Relevant(subject: Subject, classMap: map<Id, string>, data: seq<Student>): seq<Student> {
    Filter(data, InSubject(subject, classMap))
  }

  /** The `map` callback of lines 157-188 as a function. */
  function SummariseWith(subject: Subject, classMap: map<Id, string>, progMap: map<Id, Progress>): Student -> Standing {
    (s: Student) => Summarise(subject, classMap, progMap, s)
  }

  /** `processed` before sorting: one standing per relevant student, in order. */
  function Processed(subject: Subject, classMap: map<Id, string>, progMap: map<Id, Progress>, data: seq<Student>)
    : (r: seq<Standing>)
  {
    Map(Relevant(subject, classMap, data), SummariseWith(subject, classMap, progMap))
  }

  /** What `setStudents` receives: `processed` sorted and ranked. */
  function Standings(subject: Subject, classMap: map<Id, string>, progMap: map<Id, Progress>, data: seq<Student>)
    : seq<Standing>
  {
    Ranked(SortDesc(Processed(subject, classMap, progMap, data)), subject.classes)
  }

  /** `fetchClassData` of lines 124-210, with the three queries' results as parameters
      (`None` for a `null` result) and `parse` for `JSON.parse`. Without an active
      subject nothing is set (`None`); otherwise the standings set are returned. */
  method FetchClassData(activeSubject: Option<Subject>, classesData: Option<seq<ClassRow>>,
                        progData: Option<seq<ProgressRow>>, parse: string -> Option<Progress>,
                        data: Option<seq<Student>>)
    returns (students: Option<seq<Standing>>)
    ensures activeSubject.None? ==> students.None?
    ensures activeSubject.Some? ==> students == Some(Standings(activeSubject.value,
      ClassMapOf(classesData.GetOr([])), ProgressMapOf(progData.GetOr([]), parse), data.GetOr([])))
  {
    if activeSubject.None? {
      return None;
    }
    var subject := activeSubject.value;
    var classMap := BuildClassMap(classesData);
    var progMap := BuildProgressMap(progData, parse);
    var relevant := Filter(data.GetOr([]), InSubject(subject, classMap));
    ghost var spec := Processed(subject, classMap, progMap, data.GetOr([]));
    var processed := new Standing[|relevant|];
    var i := 0;
    while i < |relevant|
      invariant 0 <= i <= |relevant|
      invariant processed[..i] == spec[..i]
      modifies processed
    {
      var st := ProcessStudent(subject, classMap, progMap, relevant[i]);
      processed[i] := st;
      assert processed[..i + 1] == processed[..i] + [st];
      i := i + 1;
    }
    assert processed[..] == spec;
    SortByExactPercentage(processed);
    RankStandings(processed, subject.classes);
    students := Some(processed[..]);
  }

  // ---- properties of the standings ----

  /** The relevant students are the students whose class id maps to one of the subject's
      class names, taken in their fetched order. */
  lemma RelevantStudents(subject: Subject, classMap: map<Id, string>, data: seq<Student>)
    ensures forall s :: s in Relevant(subject, classMap, data) <==>
      s in data && s.classId in classMap && classMap[s.classId] in subject.classes
    ensures var r, idx := Relevant(subject, classMap, data), Positions(data, InSubject(subject, classMap));
      && |idx| == |r|
      && (forall k :: 0 <= k < |r| ==> idx[k] < |data| && data[idx[k]] == r[k])
      && (forall k, l :: 0 <= k < l < |r| ==> idx[k] < idx[l])
  {
    FilterMembers(data, InSubject(subject, classMap));
  }

  /** A standing with both ranks cleared, to compare standings before and after ranking. */
  function Unranked(st: Standing): Standing {
    st.(globalRank := 0, classRank := 0)
  }

  /** The standings are the processed students, each once, in non-increasing order of
      exact percentage; only the ranks differ from the processed records. */
  lemma StandingsArePermutationSorted(subject: Subject, classMap: map<Id, string>,
                                      progMap: map<Id, Progress>, data: seq<Student>)
    ensures var p := Processed(subject, classMap, progMap, data);
      var r := Standings(subject, classMap, progMap, data);
      && |r| == |p|
      && Descending(r)
      && multiset(Map(r, Unranked)) == multiset(p)
  {
    RankedSortPermutes(Processed(subject, classMap, progMap, data), subject.classes);
  }

  /** Sorting and ranking unranked records gives them back in non-increasing order,
      each once, with only the ranks set. */
  lemma RankedSortPermutes(p: seq<Standing>, classes: seq<string>)
    requires forall k :: 0 <= k < |p| ==> p[k].globalRank == 0 && p[k].classRank == 0
    ensures var r := Ranked(SortDesc(p), classes);
      && |r| == |p|
      && Descending(r)
      && multiset(Map(r, Unranked)) == multiset(p)
  {
    var sorted := SortDesc(p);
    var r := Ranked(sorted, classes);
    SortPermutes(p);
    SortDescending(p);
    RankedKeys(sorted, classes);
    assert Percentages(r) == Percentages(sorted);
    forall i | 0 <= i < |r|
      ensures Map(r, Unranked)[i] == sorted[i]
    {
      RankedAt(sorted, classes, i);
      assert sorted[i] in multiset(p);
    }
    assert Map(r, Unranked) == sorted;
  }

  /** The global rank is the competition rank ("1, 1, 3"): one more than the number of
      standings with a strictly higher exact percentage. The first standing is ranked 1,
      a standing tied with its predecessor shares its rank, and one strictly below it is
      ranked by its position. */
  lemma GlobalRanks(subject: Subject, classMap: map<Id, string>, progMap: map<Id, Progress>,
                    data: seq<Student>, i: nat)
    requires i < |Standings(subject, classMap, progMap, data)|
    ensures var r := Standings(subject, classMap, progMap, data);
      && r[i].globalRank == 1 + CountAbove(Percentages(r), r[i].exactPercentage)
      && (i == 0 ==> r[i].globalRank == 1)
      && (i > 0 && r[i].exactPercentage == r[i - 1].exactPercentage ==> r[i].globalRank == r[i - 1].globalRank)
      && (i > 0 && r[i].exactPercentage < r[i - 1].exactPercentage ==> r[i].globalRank == i + 1)
      && r[i].globalRank <= i + 1
  {
    var p := Processed(subject, classMap, progMap, data);
    SortDescending(p);
    SortedGlobalRanks(SortDesc(p), subject.classes, i);
  }

  /** `GlobalRanks` for any sorted standings. */
  lemma SortedGlobalRanks(sorted: seq<Standing>, classes: seq<string>, i: nat)
    requires Descending(sorted) && i < |sorted|
    ensures var r := Ranked(sorted, classes);
      && r[i].globalRank == 1 + CountAbove(Percentages(r), r[i].exactPercentage)
      && (i == 0 ==> r[i].globalRank == 1)
      && (i > 0 && r[i].exactPercentage == r[i - 1].exactPercentage ==> r[i].globalRank == r[i - 1].globalRank)
      && (i > 0 && r[i].exactPercentage < r[i - 1].exactPercentage ==> r[i].globalRank == i + 1)
      && r[i].globalRank <= i + 1
  {
    var r, keys := Ranked(sorted, classes), Percentages(sorted);
    RankedAt(sorted, classes, i);
    assert r[i].globalRank == RankAt(keys, i) && r[i].exactPercentage == keys[i];
    if i > 0 {
      RankedAt(sorted, classes, i - 1);
      assert r[i - 1].globalRank == RankAt(keys, i - 1) && r[i - 1].exactPercentage == keys[i - 1];
      RankStep(keys, i);
    }
    GlobalRankCountsAbove(sorted, i);
    RankedKeys(sorted, classes);
  }

  /** The class rank of a standing whose class is one of the subject's is the
      competition rank within the class: one more than the number of standings of the
      same class with a strictly higher exact percentage. Other standings keep 0. */
  lemma ClassRanks(subject: Subject, classMap: map<Id, string>, progMap: map<Id, Progress>,
                   data: seq<Student>, i: nat)
    requires i < |Standings(subject, classMap, progMap, data)|
    ensures var r := Standings(subject, classMap, progMap, data);
      && (r[i].className in subject.classes ==>
            r[i].classRank == 1 + |Filter(RankKeys(r), SameClassAbove(KeyOf(r[i])))|)
      && (r[i].className !in subject.classes ==> r[i].classRank == 0)
  {
    var p := Processed(subject, classMap, progMap, data);
    var sorted := SortDesc(p);
    SortDescending(p);
    SortPermutes(p);
    RankedKeys(sorted, subject.classes);
    RankedAt(sorted, subject.classes, i);
    assert sorted[i] in multiset(p);
    ClassRankCountsAbove(sorted, i);
  }

  /** A higher exact percentage ranks strictly ahead even when the rounded percentages
      shown are equal: 89 and 88.75 both display as 89, yet rank 1 and 2. */
  lemma ExactPercentageBreaksTies()
    ensures Round(89.0) == 89 && Round(88.75) == 89
    ensures RankAt([89.0, 88.75], 0) == 1 && RankAt([89.0, 88.75], 1) == 2
  {
  }

  // ---- the views of lines 296-297 ----

  /** The section filter's value for showing every class. */
  const AllSections: string := "All Sections"

  /** Standings of the class named `cls`. */
  function OfClass(cls: string): Standing -> bool {
    (s: Standing) => s.className == cls
  }

  /** `displayedStudents`: every standing, or only those of the selected class. */
  function Displayed(students: seq<Standing>, selectedClass: string): seq<Standing> {
    if selectedClass == AllSections then students else Filter(students, OfClass(selectedClass))
  }

  /** `top10`: the first ten displayed standings. */
  function Top10(displayed: seq<Standing>): seq<Standing> {
    Take(displayed, 10)
  }

  /** The displayed standings are all of them under "All Sections"; otherwise those of
      the selected class, each as often as it occurs and in the order of the standings:
      the `k`-th shown is the standing at the `k`-th position of that class, and every
      position of that class is shown. From sorted standings they are again sorted. */
  lemma DisplayedStudents(students: seq<Standing>, selectedClass: string)
    ensures forall s :: s in Displayed(students, selectedClass) <==>
      s in students && (selectedClass == AllSections || s.className == selectedClass)
    ensures selectedClass == AllSections ==> Displayed(students, selectedClass) == students
    ensures selectedClass != AllSections ==>
      var r, idx := Displayed(students, selectedClass), Positions(students, OfClass(selectedClass));
      && |idx| == |r|
      && (forall k :: 0 <= k < |r| ==> idx[k] < |students| && r[k] == students[idx[k]] && r[k].className == selectedClass)
      && (forall k, l :: 0 <= k < l < |r| ==> idx[k] < idx[l])
      && (forall i :: 0 <= i < |students| && students[i].className == selectedClass ==> i in idx)
    ensures Descending(students) ==> Descending(Displayed(students, selectedClass))
  {
    FilterMembers(students, OfClass(selectedClass));
    FilterInOrder(students, OfClass(selectedClass));
    if Descending(students) && selectedClass != AllSections {
      FilterDescending(students, OfClass(selectedClass));
    }
  }

  /** A filter of sorted standings is sorted. */
  lemma {:induction false} FilterDescending(s: seq<Standing>, p: Standing -> bool)
    requires Descending(s)
    ensures Descending(Filter(s, p))
    decreases |s|
  {
    if s != [] {
      var n := |s| - 1;
      var front := s[..n];
      FilterDescending(front, p);
      FilterMembers(front, p);
      forall x | x in Filter(front, p) ensures x.exactPercentage >= s[n].exactPercentage {
        var a :| 0 <= a < n && front[a] == x;
      }
    }
  }

  /** From sorted standings, `top10` holds the first `min(10, n)` displayed standings,
      and none of the displayed standings left out has a higher exact percentage than
      any standing shown. */
  lemma Top10AreBest(displayed: seq<Standing>)
    requires Descending(displayed)
    ensures var t := Top10(displayed);
      && |t| == (if |displayed| < 10 then |displayed| else 10)
      && t == displayed[..|t|]
      && forall a, b :: 0 <= a < |t| <= b < |displayed| ==> t[a].exactPercentage >= displayed[b].exactPercentage
  {
  }
}
