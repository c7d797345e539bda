/** The mark-entry field of components/MarkInput.tsx: its state `val`, synced from the
    `initialValue` prop, edited by the user, and checked by `saveMark` (lines 16-33)
    before a single upsert of one paper's mark. */
module MarkInput {
  import opened Wrappers
  import opened JsNumber

  /** The state `val`, a string or a number. */
  datatype MarkValue = Text(s: string) | Number(n: real)

  /** The `initialValue` prop: `undefined` (the entry has no such field), `null` (the
      stored mark is empty) or a value. React compares successive props with `Object.is`,
      so `undefined` and `null` are different props. */
  datatype Prop = Undefined | Null | Value(v: MarkValue)

  /** The upsert of lines 25-30: the row keyed by student, session and subject, with
      only the field named `paper` set, to `value`. */
  datatype MarkUpsert = MarkUpsert(studentId: string, sessionName: string, subjectId: string, paper: string, value: JsNumber)

  /** The mark a save reads when no maximum is passed (line 5). */
  const DefaultMaxMark: real := 75.0

  /** `initialValue !== undefined && initialValue !== null ? initialValue : ''`
      (lines 8, 13 and 21). */
  function Normalise(initialValue: Prop): (r: MarkValue)
    ensures !initialValue.Value? ==> r == Text("")
    ensures initialValue.Value? ==> r == initialValue.v
  {
    match initialValue
    case Value(v) => v
    case _ => Text("")
  }

  /** `numVal` of line 17: 0 for the empty string, else `Number(val)`; `toNumber` is
      `Number` on strings, which may give `NaN`. */
  function NumericValue(val: MarkValue, toNumber: string -> JsNumber): JsNumber {
    match val
    case Text(s) => if s == "" then Num(0.0) else toNumber(s)
    case Number(n) => Num(n)
  }

  /** `numVal < 0 || numVal > maxMark`; both comparisons are false for `NaN`. */
  function OutOfRange(numVal: JsNumber, maxMark: real): (r: bool)
    ensures numVal.NaN? ==> !r
    ensures numVal.Num? && numVal.value < 0.0 ==> r
    ensures numVal.Num? && numVal.value > maxMark ==> r
    ensures numVal.Num? && 0.0 <= numVal.value <= maxMark ==> !r
  {
    match numVal
    case NaN => false
    case Num(x) => x < 0.0 || x > maxMark
  }

  /** An empty field saves as 0. */
  lemma EmptyIsZero(toNumber: string -> JsNumber, maxMark: real)
    requires maxMark >= 0.0
    ensures NumericValue(Text(""), toNumber) == Num(0.0)
    ensures !OutOfRange(NumericValue(Text(""), toNumber), maxMark)
  {
  }

  /** A save goes ahead exactly when the mark is between 0 and `maxMark` inclusive,
      or does not read as a number at all. */
  lemma AcceptedMarks(numVal: JsNumber, maxMark: real)
    ensures !OutOfRange(numVal, maxMark) <==> numVal.NaN? || 0.0 <= numVal.value <= maxMark
  {
  }

  /** One mark field of the grid. */
  class MarkField {
    const studentId: string
    const session: string
    const subjectId: string
    const paper: string
    const maxMark: real
    const toNumber: string -> JsNumber
    var initialValue: Prop
    var val: MarkValue

    /** The first render (lines 5-9): `maxMark` is 75 unless given, and `val` starts as
        the normalised initial value. */
    constructor(studentId: string, session: string, subjectId: string, paper: string,
                maxMark: Option<real>, initialValue: Prop, toNumber: string -> JsNumber)
      ensures this.studentId == studentId && this.session == session
      ensures this.subjectId == subjectId && this.paper == paper
      ensures this.maxMark == maxMark.GetOr(DefaultMaxMark) && this.toNumber == toNumber
      ensures this.initialValue == initialValue && val == Normalise(initialValue)
    {
      this.studentId, this.session, this.subjectId, this.paper := studentId, session, subjectId, paper;
      this.maxMark := maxMark.GetOr(DefaultMaxMark);
      this.toNumber := toNumber;
      this.initialValue := initialValue;
      val := Normalise(initialValue);
    }

    /** `onChange` (line 41): the field holds what was typed. */
    method Input(text: string)
      modifies this
      ensures val == Text(text) && initialValue == old(initialValue)
    {
      val := Text(text);
    }

    /** A new `initialValue` prop (lines 12-14): the effect re-syncs `val` only when the
        prop has changed; an unchanged prop leaves the user's edit in place. A change from
        `undefined` to `null` is a change, which empties the field. */
    method ReceiveInitialValue(newInitial: Prop)
      modifies this
      ensures initialValue == newInitial
      ensures newInitial != old(initialValue) ==> val == Normalise(newInitial)
      ensures newInitial == old(initialValue) ==> val == old(val)
    {
      if newInitial != initialValue {
        val := Normalise(newInitial);
      }
      initialValue := newInitial;
    }

    /** `saveMark` (lines 16-33). An out-of-range mark sends nothing and resets `val` to
        the normalised initial value; any other mark sends exactly one upsert of `paper`
        under the key (student, session, subject), leaves `val` alone, and `onUpdate`
        runs exactly when `upsertFailed` (the upsert's `error`) is false. */
    method SaveMark(upsertFailed: bool) returns (upsert: Option<MarkUpsert>, updated: bool)
      modifies this
      ensures initialValue == old(initialValue)
      ensures var numVal := NumericValue(old(val), toNumber);
        if OutOfRange(numVal, maxMark) then
          upsert.None? && !updated && val == Normalise(initialValue)
        else
          && upsert == Some(MarkUpsert(studentId, session, subjectId, paper, numVal))
          && val == old(val)
          && updated == !upsertFailed
    {
      var numVal := NumericValue(val, toNumber);
      if OutOfRange(numVal, maxMark) {
        val := Normalise(initialValue);
        return None, false;
      }
      upsert := Some(MarkUpsert(studentId, session, subjectId, paper, numVal));
      updated := !upsertFailed;
    }
  }
}
