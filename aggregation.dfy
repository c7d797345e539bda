/** The per-student part of `fetchClassData` (app/dashboard/page.tsx): the entries
    of the active subject, the session totals, the number of sessions sat, the
    maximum possible mark and the percentages. */
module Aggregation {
  import opened Wrappers
  import opened JsNumber
  import opened Seqs
  import opened Records

  /** ``Number(e[`p${k}`])``: the fields `p1`..`p4`, and `NaN` for any other `k`. */
  function Paper(e: ExamEntry, k: int): JsNumber {
    if k == 1 then e.p1
    else if k == 2 then e.p2
    else if k == 3 then e.p3
    else if k == 4 then e.p4
    else NaN
  }

  /** How many times `activeSubject.papers?.forEach` runs. */
  function PaperCount(subject: Subject): nat {
    if subject.papers.Some? then |subject.papers.value| else 0
  }

  /** Papers `1..n` of an entry, each read as `Number(x) || 0`, summed in order. */
  function PaperSum(e: ExamEntry, n: nat): real
    decreases n
  {
    if n == 0 then 0.0 else PaperSum(e, n - 1) + OrZero(Paper(e, n))
  }

  /** `sessionTotal`: an entry summed over the subject's defined papers. */
  function SessionTotal(subject: Subject, e: ExamEntry): real {
    PaperSum(e, PaperCount(subject))
  }

  /** The inner `forEach` of line 165. */
  method SumSession(subject: Subject, e: ExamEntry) returns (sessionTotal: real)
    ensures sessionTotal == SessionTotal(subject, e)
  {
    var n := PaperCount(subject);
    sessionTotal := 0.0;
    var i := 0;
    while i < n
      invariant 0 <= i <= n
      invariant sessionTotal == PaperSum(e, i)
    {
      sessionTotal := sessionTotal + OrZero(Paper(e, i + 1));
      i := i + 1;
    }
  }

  /** `grandTotal`: the session totals of `entries` added up. */
  function GrandTotal(subject: Subject, entries: seq<ExamEntry>): real
    decreases |entries|
  {
    if entries == [] then 0.0
    else GrandTotal(subject, entries[..|entries| - 1]) + SessionTotal(subject, entries[|entries| - 1])
  }

  /** A session counts as sat when its total is positive. */
  function IsActive(subject: Subject): ExamEntry -> bool {
    (e: ExamEntry) => SessionTotal(subject, e) > 0.0
  }

  /** `activeSessionsCount`: how many of `entries` have a positive total. */
  function ActiveCount(subject: Subject, entries: seq<ExamEntry>): nat {
    |Filter(entries, IsActive(subject))|
  }

  /** The `forEach` of lines 163-168, accumulating both counters. */
  method Accumulate(subject: Subject, entries: seq<ExamEntry>) returns (grandTotal: real, activeSessionsCount: nat)
    ensures grandTotal == GrandTotal(subject, entries)
    ensures activeSessionsCount == ActiveCount(subject, entries)
  {
    grandTotal, activeSessionsCount := 0.0, 0;
    var i := 0;
    while i < |entries|
      invariant 0 <= i <= |entries|
      invariant grandTotal == GrandTotal(subject, entries[..i])
      invariant activeSessionsCount == ActiveCount(subject, entries[..i])
    {
      var sessionTotal := SumSession(subject, entries[i]);
      assert entries[..i + 1][..i] == entries[..i];
      grandTotal := grandTotal + sessionTotal;
      if sessionTotal > 0.0 {
        activeSessionsCount := activeSessionsCount + 1;
      }
      i := i + 1;
    }
    assert entries[..i] == entries;
  }

  /** `sessionMaxSum`: the sum of the maximum marks or, when the subject has no
      `max_marks`, 75 per paper, with 4 papers assumed when `papers` is absent or empty. */
  function SessionMaxSum(subject: Subject): (r: int)
    ensures subject.maxMarks.Some? ==> r == Sum(subject.maxMarks.value)
    ensures subject.maxMarks.None? && PaperCount(subject) > 0 ==> r == 75 * PaperCount(subject)
    ensures subject.maxMarks.None? && PaperCount(subject) == 0 ==> r == 300
  {
    if subject.maxMarks.Some? then Sum(subject.maxMarks.value)
    else (if subject.papers.Some? && |subject.papers.value| > 0 then |subject.papers.value| else 4) * 75
  }

  /** `maxPossible`: one session's maximum for a student who sat none, else one per session sat. */
  function MaxPossible(activeSessions: nat, sessionMaxSum: int): (r: int)
    ensures activeSessions == 0 ==> r == sessionMaxSum
    ensures activeSessions > 0 ==> r == activeSessions * sessionMaxSum
  {
    if activeSessions == 0 then sessionMaxSum else activeSessions * sessionMaxSum
  }

  /** `exactPercentage`: `total` as a percentage of `maxPossible`, and 0 (never NaN)
      when there is no positive maximum. */
  function ExactPercentage(total: real, maxPossible: int): (r: real)
    ensures maxPossible > 0 ==> r * maxPossible as real == 100.0 * total
    ensures maxPossible <= 0 ==> r == 0.0
  {
    if maxPossible > 0 then (total / maxPossible as real) * 100.0 else 0.0
  }

  /** `classMap[s.class_id] || 'Unknown'`. */
  function ClassNameOf(classMap: map<Id, string>, classId: Id): (r: string)
    ensures r != ""
    ensures classId in classMap && classMap[classId] != "" ==> r == classMap[classId]
    ensures !(classId in classMap && classMap[classId] != "") ==> r == "Unknown"
  {
    if classId in classMap && classMap[classId] != "" then classMap[classId] else "Unknown"
  }

  /** `e.subject_id === activeSubject.id`. */
  function OfSubject(subjectId: Id): ExamEntry -> bool {
    (e: ExamEntry) => e.subjectId == subjectId
  }

  /** `currentSubjectEntries`: the student's entries for the active subject, in order. */
  function SubjectEntries(subject: Subject, s: Student): (r: seq<ExamEntry>)
    ensures forall e :: e in r <==> e in s.examEntries && e.subjectId == subject.id
  {
    FilterMembers(s.examEntries, OfSubject(subject.id));
    Filter(s.examEntries, OfSubject(subject.id))
  }

  /** The record built for student `s` by the `map` callback of lines 157-188, with both ranks still 0. */
  function Summarise(subject: Subject, classMap: map<Id, string>, progMap: map<Id, Progress>, s: Student)
    : (r: Standing)
    ensures r.student == s && r.className == ClassNameOf(classMap, s.classId)
    ensures r.percentage == Round(r.exactPercentage)
    ensures r.progress == (if s.id in progMap then progMap[s.id] else map[])
    ensures r.globalRank == 0 && r.classRank == 0
  {
    var entries := SubjectEntries(subject, s);
    var total := GrandTotal(subject, entries);
    var maxPossible := MaxPossible(ActiveCount(subject, entries), SessionMaxSum(subject));
    var exact := ExactPercentage(total, maxPossible);
    Standing(s, ClassNameOf(classMap, s.classId), maxPossible, total, Round(exact), exact,
             if s.id in progMap then progMap[s.id] else map[], entries, 0, 0)
  }

  /** The `map` callback of lines 157-188 for one student. */
  method ProcessStudent(subject: Subject, classMap: map<Id, string>, progMap: map<Id, Progress>, s: Student)
    returns (st: Standing)
    ensures st == Summarise(subject, classMap, progMap, s)
  {
    var entries := Filter(s.examEntries, OfSubject(subject.id));
    var grandTotal, activeSessionsCount := Accumulate(subject, entries);
    var className := ClassNameOf(classMap, s.classId);
    var sessionMaxSum := SessionMaxSum(subject);
    var maxPossible := if activeSessionsCount == 0 then sessionMaxSum else activeSessionsCount * sessionMaxSum;
    var exactPercentage := if maxPossible > 0 then (grandTotal / maxPossible as real) * 100.0 else 0.0;
    var progress := if s.id in progMap then progMap[s.id] else map[];
    st := Standing(s, className, maxPossible, grandTotal, Round(exactPercentage), exactPercentage,
                   progress, entries, 0, 0);
  }

  // ---- properties ----

  /** Only papers `1..n` enter `PaperSum(e, n)`, with a missing or non-numeric mark
      worth the same as 0. */
  lemma {:induction false} PaperSumReadsFirstPapers(e: ExamEntry, e': ExamEntry, n: nat)
    requires forall k :: 1 <= k <= n ==> OrZero(Paper(e, k)) == OrZero(Paper(e', k))
    ensures PaperSum(e, n) == PaperSum(e', n)
    decreases n
  {
    if n > 0 {
      PaperSumReadsFirstPapers(e, e', n - 1);
    }
  }

  /** A session total reads only the subject's defined papers: entries that agree on
      those (a missing mark agreeing with 0) have the same total, whatever the others hold. */
  lemma SessionTotalReadsDefinedPapers(subject: Subject, e: ExamEntry, e': ExamEntry)
    requires forall k :: 1 <= k <= PaperCount(subject) ==> OrZero(Paper(e, k)) == OrZero(Paper(e', k))
    ensures SessionTotal(subject, e) == SessionTotal(subject, e')
  {
    PaperSumReadsFirstPapers(e, e', PaperCount(subject));
  }

  /** The entries kept are the student's entries for the active subject, each as often
      as it occurs and in the order of `examEntries`: the `k`-th kept entry is the one at
      the `k`-th matching position, and every matching position is taken. */
  lemma SubjectEntriesInOrder(subject: Subject, s: Student)
    ensures var r, es, idx := SubjectEntries(subject, s), s.examEntries, Positions(s.examEntries, OfSubject(subject.id));
      && |idx| == |r|
      && (forall k :: 0 <= k < |r| ==> idx[k] < |es| && r[k] == es[idx[k]] && r[k].subjectId == subject.id)
      && (forall k, l :: 0 <= k < l < |r| ==> idx[k] < idx[l])
      && (forall i :: 0 <= i < |es| && es[i].subjectId == subject.id ==> i in idx)
  {
    PositionsComplete(s.examEntries, OfSubject(subject.id));
  }

  /** Well-formed marks: the subject lists one non-negative maximum per paper and
      every numeric mark of `e` on a defined paper lies between 0 and that paper's maximum. */
  ghost predicate MarksWithin(subject: Subject, e: ExamEntry) {
    && subject.maxMarks.Some?
    && |subject.maxMarks.value| == PaperCount(subject)
    && (forall i :: 0 <= i < PaperCount(subject) ==> 0 <= subject.maxMarks.value[i])
    && forall k :: 1 <= k <= PaperCount(subject) && Paper(e, k).Num? ==>
         0.0 <= Paper(e, k).value <= subject.maxMarks.value[k - 1] as real
  }

  /** With marks in range, the first `n` papers sum to between 0 and the first `n` maxima. */
  lemma {:induction false} PaperSumBounded(subject: Subject, e: ExamEntry, n: nat)
    requires MarksWithin(subject, e) && n <= PaperCount(subject)
    ensures 0.0 <= PaperSum(e, n) <= Sum(subject.maxMarks.value[..n]) as real
    decreases n
  {
    if n > 0 {
      PaperSumBounded(subject, e, n - 1);
      var mm := subject.maxMarks.value;
      assert mm[..n][..n - 1] == mm[..n - 1];
      assert Sum(mm[..n]) == Sum(mm[..n - 1]) + mm[n - 1];
      assert 1 <= n <= PaperCount(subject);
      assert 0.0 <= OrZero(Paper(e, n)) <= mm[n - 1] as real;
      assert Sum(mm[..n]) as real == Sum(mm[..n - 1]) as real + mm[n - 1] as real;
    }
  }

  /** With marks in range, a session total lies between 0 and `sessionMaxSum`. */
  lemma SessionTotalBounded(subject: Subject, e: ExamEntry)
    requires MarksWithin(subject, e)
    ensures 0.0 <= SessionTotal(subject, e) <= SessionMaxSum(subject) as real
  {
    var mm := subject.maxMarks.value;
    PaperSumBounded(subject, e, PaperCount(subject));
    assert mm[..PaperCount(subject)] == mm;
  }

  /** With marks in range, the grand total is at least 0 and at most one
      `sessionMaxSum` per session sat. */
  lemma {:induction false} GrandTotalBounded(subject: Subject, entries: seq<ExamEntry>)
    requires forall e :: e in entries ==> MarksWithin(subject, e)
    ensures 0.0 <= GrandTotal(subject, entries)
    ensures GrandTotal(subject, entries) <= (ActiveCount(subject, entries) * SessionMaxSum(subject)) as real
    decreases |entries|
  {
    if entries != [] {
      var n := |entries| - 1;
      GrandTotalBounded(subject, entries[..n]);
      SessionTotalBounded(subject, entries[n]);
      var before, m := ActiveCount(subject, entries[..n]), SessionMaxSum(subject);
      assert ActiveCount(subject, entries) == before + if IsActive(subject)(entries[n]) then 1 else 0;
      if IsActive(subject)(entries[n]) {
        assert ((before + 1) * m) as real == (before * m) as real + m as real by {
          assert (before + 1) * m == before * m + m;
        }
      }
    }
  }

  /** A total between 0 and a positive maximum is between 0 and 100 percent of it. */
  lemma ExactPercentageBounded(total: real, maxPossible: int)
    requires 0.0 <= total
    requires maxPossible > 0 ==> total <= maxPossible as real
    ensures 0.0 <= ExactPercentage(total, maxPossible) <= 100.0
  {
    if maxPossible > 0 {
      var m := maxPossible as real;
      var q := total / m;
      assert q * m == total;
      if q > 1.0 {
        assert (q - 1.0) * m > 0.0;
      }
    }
  }

  /** With marks in range, a student's exact percentage lies between 0 and 100. */
  lemma PercentageBounded(subject: Subject, classMap: map<Id, string>, progMap: map<Id, Progress>, s: Student)
    requires forall e :: e in s.examEntries && e.subjectId == subject.id ==> MarksWithin(subject, e)
    ensures 0.0 <= Summarise(subject, classMap, progMap, s).exactPercentage <= 100.0
  {
    var entries := SubjectEntries(subject, s);
    GrandTotalBounded(subject, entries);
    var active := ActiveCount(subject, entries);
    var maxPossible := MaxPossible(active, SessionMaxSum(subject));
    ExactPercentageBounded(GrandTotal(subject, entries), maxPossible);
  }
}
