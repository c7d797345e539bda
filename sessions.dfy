/** The exam sessions of the active subject (`sessions`, app/dashboard/page.tsx:287-292):
    two sittings a year, from the last year back to the first. */
module Sessions {
  import opened Wrappers
  import opened JsText
  import opened Records

  /** `May/June ${y}`. */
  function MayJune(y: int): string {
    "May/June " + IntText(y)
  }

  /** `Oct/Nov ${y}`. */
  function OctNov(y: int): string {
    "Oct/Nov " + IntText(y)
  }

  /** How many sessions the years `startYear..endYear` have. */
  function SessionCount(startYear: int, endYear: int): nat {
    if endYear < startYear then 0 else 2 * (endYear - startYear + 1)
  }

  /** The sessions of the years `endYear` down to `startYear`, two per year. */
  function SessionList(startYear: int, endYear: int): (r: seq<string>)
    ensures |r| == SessionCount(startYear, endYear)
    decreases endYear - startYear
  {
    if endYear < startYear then []
    else SessionList(startYear + 1, endYear) + [MayJune(startYear), OctNov(startYear)]
  }

  /** Lines 287-292: no sessions without an active subject; otherwise, for each year
      `y` from `end_year` down to `start_year`, push `May/June y`, then `Oct/Nov y`. */
  method BuildSessions(activeSubject: Option<Subject>) returns (arr: seq<string>)
    ensures activeSubject.None? ==> arr == []
    ensures activeSubject.Some? ==> arr == SessionList(activeSubject.value.startYear, activeSubject.value.endYear)
  {
    if activeSubject.None? {
      return [];
    }
    var startYear, endYear := activeSubject.value.startYear, activeSubject.value.endYear;
    arr := [];
    var y := endYear;
    while y >= startYear
      invariant y <= endYear && (startYear - 1 <= y || y == endYear)
      invariant arr == SessionList(y + 1, endYear)
      decreases y - startYear
    {
      arr := arr + [MayJune(y)];
      arr := arr + [OctNov(y)];
      y := y - 1;
    }
  }

  /** Session `2k` is the May/June sitting and session `2k + 1` the Oct/Nov sitting
      of year `endYear - k`, which lies in `startYear..endYear`. */
  lemma {:induction false} SessionOrder(startYear: int, endYear: int, k: nat)
    requires 2 * k + 1 < SessionCount(startYear, endYear)
    ensures SessionList(startYear, endYear)[2 * k] == MayJune(endYear - k)
    ensures SessionList(startYear, endYear)[2 * k + 1] == OctNov(endYear - k)
    ensures startYear <= endYear - k <= endYear
    decreases endYear - startYear
  {
    var prev, r := SessionList(startYear + 1, endYear), SessionList(startYear, endYear);
    assert r == prev + [MayJune(startYear), OctNov(startYear)];
    if 2 * k < |prev| {
      SessionOrder(startYear + 1, endYear, k);
      assert r[2 * k] == prev[2 * k] && r[2 * k + 1] == prev[2 * k + 1];
    } else {
      assert k == endYear - startYear;
      assert r[2 * k] == MayJune(startYear) && r[2 * k + 1] == OctNov(startYear);
    }
  }

  /** Every session is one of the two sittings of a year in `startYear..endYear`. */
  lemma {:induction false} SessionYears(startYear: int, endYear: int, x: string)
    requires x in SessionList(startYear, endYear)
    ensures exists y :: startYear <= y <= endYear && (x == MayJune(y) || x == OctNov(y))
    decreases endYear - startYear
  {
    var prev := SessionList(startYear + 1, endYear);
    if x in prev {
      SessionYears(startYear + 1, endYear, x);
    }
  }

  /** Labels of different sittings differ, and labels of the same sitting differ
      when their years do. */
  lemma LabelsDiffer(a: int, b: int)
    ensures MayJune(a) != OctNov(b)
    ensures a != b ==> MayJune(a) != MayJune(b) && OctNov(a) != OctNov(b)
  {
    assert MayJune(a)[0] != OctNov(b)[0];
    ParseIntText(a);
    ParseIntText(b);
    var m, o := |"May/June "|, |"Oct/Nov "|;
    assert MayJune(a)[m..] == IntText(a) && MayJune(b)[m..] == IntText(b);
    assert OctNov(a)[o..] == IntText(a) && OctNov(b)[o..] == IntText(b);
  }

  /** No session appears twice. */
  ghost predicate Distinct(r: seq<string>) {
    forall i, j :: 0 <= i < j < |r| ==> r[i] != r[j]
  }

  /** The session list has no repeated label. */
  lemma {:induction false} SessionsDistinct(startYear: int, endYear: int)
    ensures Distinct(SessionList(startYear, endYear))
    decreases endYear - startYear
  {
    if startYear <= endYear {
      var prev := SessionList(startYear + 1, endYear);
      var r := SessionList(startYear, endYear);
      SessionsDistinct(startYear + 1, endYear);
      LabelsDiffer(startYear, startYear);
      forall x | x in prev
        ensures x != MayJune(startYear) && x != OctNov(startYear)
      {
        SessionYears(startYear + 1, endYear, x);
        var y :| startYear + 1 <= y <= endYear && (x == MayJune(y) || x == OctNov(y));
        LabelsDiffer(startYear, y);
        LabelsDiffer(y, startYear);
      }
      forall i, j | 0 <= i < j < |r|
        ensures r[i] != r[j]
      {
        if j < |prev| {
          assert r[i] == prev[i] && r[j] == prev[j];
        } else if i < |prev| {
          assert r[i] in prev;
        }
      }
    }
  }
}
