/** The checks of `handleSaveSubject` (app/dashboard/page.tsx:237-244): the papers and
    maximum marks read from the two comma-separated fields of the new-subject form,
    the four rejections and the row inserted when none applies. */
module SubjectForm {
  import opened Wrappers
  import opened Seqs
  import opened JsText
  import opened Records

  /** Holds of non-empty strings (a string is truthy when it is not empty). */
  function NonEmpty(p: string): bool {
    p != ""
  }

  /** `papersArray`: the comma-separated pieces of `s`, trimmed, with the empty ones dropped. */
  function PapersOf(s: string): (r: seq<string>)
    ensures forall p :: p in r <==> p != "" && p in Map(Split(s, ','), Trim)
  {
    FilterMembers(Map(Split(s, ','), Trim), NonEmpty);
    Filter(Map(Split(s, ','), Trim), NonEmpty)
  }

  /** The values that are present, in order (`.filter(m => !isNaN(m))`). */
  function Present(xs: seq<Option<int>>): (r: seq<int>)
    ensures |r| <= |xs|
    ensures forall v :: v in r <==> Some(v) in xs
    decreases |xs|
  {
    if xs == [] then []
    else Present(xs[..|xs| - 1]) + (match xs[|xs| - 1] case Some(v) => [v] case None => [])
  }

  /** `parseInt(m.trim())`. */
  function ParseTrimmed(m: string): Option<int> {
    ParseInt(Trim(m))
  }

  /** `maxMarksArray`: each comma-separated piece of `s` read by `parseInt`, with the
      pieces that read as `NaN` dropped. */
  function MaxMarksOf(s: string): (r: seq<int>)
    ensures forall v :: v in r <==> Some(v) in Map(Split(s, ','), ParseTrimmed)
  {
    Present(Map(Split(s, ','), ParseTrimmed))
  }

  /** Why the form is refused; each matches one `alert` of lines 238-241. */
  datatype Rejection = MissingNameOrClass | TooManyPapers | CountMismatch

  /** The row sent to the `subjects` table. */
  datatype SubjectRow = SubjectRow(
    teacherId: Id, name: string, classes: seq<string>, startYear: int, endYear: int,
    papers: seq<string>, maxMarks: seq<int>)

  /** What pressing save does: refuse the form, or insert a row. */
  datatype SaveOutcome = Rejected(reason: Rejection) | Insert(row: SubjectRow)

  /** Lines 237-242 in order: name and classes first, then the paper limit, then the
      count check; otherwise the row of line 242. */
  function SaveSubject(teacherId: Id, name: string, classes: seq<string>, startYear: int, endYear: int,
                       papersStr: string, maxMarksStr: string): (r: SaveOutcome)
    ensures r.Insert? ==> && r.row.name != "" && r.row.classes != []
                          && |r.row.papers| <= 4 && |r.row.papers| == |r.row.maxMarks|
  {
    if name == "" || |classes| == 0 then Rejected(MissingNameOrClass)
    else
      var papers := PapersOf(papersStr);
      var maxMarks := MaxMarksOf(maxMarksStr);
      if |papers| > 4 then Rejected(TooManyPapers)
      else if |papers| != |maxMarks| then Rejected(CountMismatch)
      else Insert(SubjectRow(teacherId, name, classes, startYear, endYear, papers, maxMarks))
  }

  /** Line 243: when the insert returns a row, the subject list gains it and it becomes
      the active subject; otherwise nothing changes. */
  function AfterInsert(subjects: seq<Subject>, active: Option<Subject>, inserted: Option<Subject>)
    : (r: (seq<Subject>, Option<Subject>))
    ensures inserted.None? ==> r == (subjects, active)
    ensures inserted.Some? ==> r.0 == subjects + [inserted.value] && r.1 == inserted
  {
    match inserted
    case Some(data) => (subjects + [data], Some(data))
    case None => (subjects, active)
  }

  // ---- properties ----

  /** Nothing is inserted exactly when the name is empty, no class is chosen, there are
      more than four papers, or the papers and maximum marks differ in number; the reason
      given is the first of these that applies. Otherwise the row carries the form's
      fields with the papers and marks as read. */
  lemma SaveRejectedIff(teacherId: Id, name: string, classes: seq<string>, startYear: int, endYear: int,
                        papersStr: string, maxMarksStr: string)
    ensures var o := SaveSubject(teacherId, name, classes, startYear, endYear, papersStr, maxMarksStr);
      var papers, marks := PapersOf(papersStr), MaxMarksOf(maxMarksStr);
      && (o.Rejected? <==> name == "" || classes == [] || |papers| > 4 || |papers| != |marks|)
      && (o.Rejected? && o.reason == MissingNameOrClass <==> name == "" || classes == [])
      && (o.Rejected? && o.reason == TooManyPapers <==> name != "" && classes != [] && |papers| > 4)
      && (o.Rejected? && o.reason == CountMismatch <==>
            name != "" && classes != [] && |papers| <= 4 && |papers| != |marks|)
      && (o.Insert? ==> o.row == SubjectRow(teacherId, name, classes, startYear, endYear, papers, marks))
  {
  }

  /** The papers are the non-empty trimmed pieces of the field, each as often as it
      occurs and in the order of the field: paper `k` is the piece at the `k`-th
      non-empty position, and every non-empty piece is taken. */
  lemma PapersInOrder(s: string)
    ensures var r, pieces := PapersOf(s), Map(Split(s, ','), Trim);
      var idx := Positions(pieces, NonEmpty);
      && |idx| == |r|
      && (forall k :: 0 <= k < |r| ==> idx[k] < |pieces| && r[k] == pieces[idx[k]])
      && (forall k, l :: 0 <= k < l < |r| ==> idx[k] < idx[l])
      && (forall i :: 0 <= i < |pieces| && pieces[i] != "" ==> i in idx)
  {
    var pieces := Map(Split(s, ','), Trim);
    assert PapersOf(s) == Filter(pieces, NonEmpty);
    FilterInOrder(pieces, NonEmpty);
  }

  /** A field without a comma gives its trimmed text as the one paper, or none when that is empty. */
  lemma PapersOne(a: string)
    requires ',' !in a
    ensures PapersOf(a) == if Trim(a) == "" then [] else [Trim(a)]
  {
    var t := Trim(a);
    SplitPiece(a, ',');
    MapCons(a, [], Trim);
    assert [a] + [] == [a] && [t] + Map([], Trim) == [t];
    FilterSingleton(t, NonEmpty);
  }

  /** The papers before the first comma come first, then those after it. */
  lemma PapersAppend(a: string, b: string)
    requires ',' !in a
    ensures PapersOf(a + [','] + b) == PapersOf(a) + PapersOf(b)
  {
    var rest := Map(Split(b, ','), Trim);
    SplitConcat(a, b, ',');
    MapCons(a, Split(b, ','), Trim);
    FilterAppend([Trim(a)], rest, NonEmpty);
    PapersOne(a);
    FilterSingleton(Trim(a), NonEmpty);
  }

  /** The maximum marks before the first comma come first, then those after it. */
  lemma MaxMarksAppend(a: string, b: string)
    requires ',' !in a
    ensures MaxMarksOf(a + [','] + b) == MaxMarksOf(a) + MaxMarksOf(b)
  {
    var rest := Map(Split(b, ','), ParseTrimmed);
    SplitConcat(a, b, ',');
    SplitPiece(a, ',');
    MapCons(a, Split(b, ','), ParseTrimmed);
    MapCons(a, [], ParseTrimmed);
    assert [a] + [] == [a] && [ParseTrimmed(a)] + Map([], ParseTrimmed) == [ParseTrimmed(a)];
    PresentAppend([ParseTrimmed(a)], rest);
  }

  /** Dropping the `NaN`s distributes over concatenation. */
  lemma {:induction false} PresentAppend(xs: seq<Option<int>>, ys: seq<Option<int>>)
    ensures Present(xs + ys) == Present(xs) + Present(ys)
    decreases |ys|
  {
    if ys == [] {
      assert xs + ys == xs;
    } else {
      var n := |ys| - 1;
      assert (xs + ys)[..|xs + ys| - 1] == xs + ys[..n];
      PresentAppend(xs, ys[..n]);
    }
  }

  /** A piece that reads as a number contributes that number, one that reads as `NaN` nothing. */
  lemma PresentOne(x: Option<int>)
    ensures x.Some? ==> Present([x]) == [x.value]
    ensures x.None? ==> Present([x]) == []
  {
    assert [x][..0] == [];
  }

  /** An inserted subject has at most four papers, one maximum mark per paper, and paper
      names that are non-empty, hold no comma and neither begin nor end with white space. */
  lemma InsertedSubjectWellFormed(teacherId: Id, name: string, classes: seq<string>, startYear: int, endYear: int,
                                  papersStr: string, maxMarksStr: string)
    requires SaveSubject(teacherId, name, classes, startYear, endYear, papersStr, maxMarksStr).Insert?
    ensures var row := SaveSubject(teacherId, name, classes, startYear, endYear, papersStr, maxMarksStr).row;
      && row.name != "" && row.classes != []
      && |row.papers| <= 4 && |row.papers| == |row.maxMarks|
      && forall k :: 0 <= k < |row.papers| ==> CleanName(row.papers[k])
  {
    var papers := PapersOf(papersStr);
    assert SaveSubject(teacherId, name, classes, startYear, endYear, papersStr, maxMarksStr).row
      == SubjectRow(teacherId, name, classes, startYear, endYear, papers, MaxMarksOf(maxMarksStr));
    PapersClean(papersStr);
  }

  /** A paper name as the form can produce one. */
  ghost predicate CleanName(p: string) {
    p != "" && ',' !in p && !IsWhiteSpace(p[0]) && !IsWhiteSpace(p[|p| - 1])
  }

  /** Every paper read from the field is a clean name. */
  lemma PapersClean(s: string)
    ensures forall k :: 0 <= k < |PapersOf(s)| ==> CleanName(PapersOf(s)[k])
  {
    var trimmed := Map(Split(s, ','), Trim);
    PiecesTrimClean(Split(s, ','));
    FilterMembers(trimmed, NonEmpty);
    forall k | 0 <= k < |PapersOf(s)|
      ensures CleanName(PapersOf(s)[k])
    {
      assert PapersOf(s)[k] in trimmed;
    }
  }

  /** Comma-free pieces trim to clean names or to nothing. */
  lemma PiecesTrimClean(pieces: seq<string>)
    requires forall m :: 0 <= m < |pieces| ==> ',' !in pieces[m]
    ensures forall x :: x in Map(pieces, Trim) && x != "" ==> CleanName(x)
  {
    var trimmed := Map(pieces, Trim);
    forall x | x in trimmed && x != ""
      ensures CleanName(x)
    {
      var m :| 0 <= m < |trimmed| && trimmed[m] == x;
      TrimClean(pieces[m]);
    }
  }

  /** A piece without a comma trims to a clean name or to nothing. */
  lemma TrimClean(piece: string)
    requires ',' !in piece
    ensures Trim(piece) != "" ==> CleanName(Trim(piece))
  {
    var r := Trim(piece);
    var i := |piece| - |TrimStart(piece)|;
    TrimKeepsMiddle(piece);
    SliceMembers(piece, i, i + |r|);
  }

  /** Clean paper names joined with commas read back as the same papers. */
  lemma PapersRoundTrip(names: seq<string>)
    requires forall k :: 0 <= k < |names| ==> CleanName(names[k])
    ensures PapersOf(Join(names, ',')) == names
  {
    if names == [] {
      assert Split("", ',') == [""];
    } else {
      SplitJoin(names, ',');
      TrimAllClean(names);
      FilterAll(names, NonEmpty);
    }
  }

  /** Trimming leaves clean names as they are. */
  lemma TrimAllClean(names: seq<string>)
    requires forall k :: 0 <= k < |names| ==> CleanName(names[k])
    ensures Map(names, Trim) == names
  {
    forall k | 0 <= k < |names| ensures Trim(names[k]) == names[k] {
      TrimUnchanged(names[k]);
    }
  }

  /** The decimal text of an integer holds no comma and is its own trim. */
  lemma IntTextClean(m: int)
    ensures ',' !in IntText(m) && Trim(IntText(m)) == IntText(m)
  {
    var t := IntText(m);
    var d := NatText(if m < 0 then -m else m);
    DigitsClean(d);
    if m < 0 {
      assert t == "-" + d;
      forall k | 0 <= k < |t| ensures t[k] != ',' {
        if k > 0 {
          assert t[k] == d[k - 1];
        }
      }
      assert t[|t| - 1] == d[|d| - 1];
    } else {
      assert t == d;
    }
    TrimUnchanged(t);
  }

  /** A non-empty run of decimal digits holds no comma and has no white space at either end. */
  lemma DigitsClean(d: string)
    requires |d| >= 1 && forall k :: 0 <= k < |d| ==> '0' <= d[k] <= '9'
    ensures ',' !in d && !IsWhiteSpace(d[0]) && !IsWhiteSpace(d[|d| - 1])
  {
    var first, last := d[0], d[|d| - 1];
    assert '0' <= first <= '9' && '0' <= last <= '9';
    forall k | 0 <= k < |d| ensures d[k] != ',' {
    }
  }

  /** Present values kept from a list where every value is present. */
  lemma {:induction false} PresentAll(xs: seq<int>)
    ensures Present(Map(xs, (x: int) => Some(x))) == xs
    decreases |xs|
  {
    if xs != [] {
      var n := |xs| - 1;
      PresentAll(xs[..n]);
      assert Map(xs, (x: int) => Some(x))[..n] == Map(xs[..n], (x: int) => Some(x));
    }
  }

  /** Maximum marks written as decimal integers and joined with commas read back as
      the same marks. */
  lemma MaxMarksRoundTrip(marks: seq<int>)
    ensures MaxMarksOf(Join(Map(marks, IntText), ',')) == marks
  {
    var texts := Map(marks, IntText);
    if marks == [] {
      assert Split("", ',') == [""];
      assert Map([""], ParseTrimmed) == [ParseTrimmed("")];
      assert TrimStart("") == "";
      assert Present([ParseTrimmed("")]) == [];
    } else {
      forall k | 0 <= k < |texts| ensures ',' !in texts[k] {
        IntTextClean(marks[k]);
      }
      SplitJoin(texts, ',');
      forall k | 0 <= k < |texts| ensures ParseTrimmed(texts[k]) == Some(marks[k]) {
        IntTextClean(marks[k]);
        ParseIntText(marks[k]);
      }
      assert Map(texts, ParseTrimmed) == Map(marks, (x: int) => Some(x));
      PresentAll(marks);
    }
  }
}
