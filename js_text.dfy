/** The string functions of JavaScript that the dashboard's form and import code
    call: `trim`, `split`, template interpolation of an integer and `parseInt`. */
module JsText {
  import opened Wrappers
  import Seqs

  /** A natural number or `NaN`, the magnitude part of `parseInt`. */
  datatype NatOption = NoNat | SomeNat(n: nat) {
    function MapNat(): Option<int> {
      match this
      case NoNat => None
      case SomeNat(n) => Some(n)
    }
  }

  /** The characters ECMAScript counts as WhiteSpace or LineTerminator (sections
      12.2 and 12.3 of ECMA-262): what `trim` removes and `parseInt` skips. */
  predicate IsWhiteSpace(c: char) {
    c == '\t' || c == '\n' || c == '\U{000B}' || c == '\U{000C}' || c == '\r' || c == ' '
    || c == '\U{00A0}' || c == '\U{1680}' || ('\U{2000}' <= c <= '\U{200A}')
    || c == '\U{2028}' || c == '\U{2029}' || c == '\U{202F}' || c == '\U{205F}'
    || c == '\U{3000}' || c == '\U{FEFF}'
  }

  /** `s.trimStart()`: a suffix of `s`; what it drops is white space, and it does
      not itself begin with white space. */
  function TrimStart(s: string): (r: string)
    ensures |r| <= |s| && r == s[|s| - |r|..]
    ensures forall k :: 0 <= k < |s| - |r| ==> IsWhiteSpace(s[k])
    ensures r == [] || !IsWhiteSpace(r[0])
    decreases |s|
  {
    if s != [] && IsWhiteSpace(s[0]) then TrimStart(s[1..]) else s
  }

  /** `s.trimEnd()`: a prefix of `s`; what it drops is white space, and it does
      not itself end with white space. */
  function TrimEnd(s: string): (r: string)
    ensures |r| <= |s| && r == s[..|r|]
    ensures forall k :: |r| <= k < |s| ==> IsWhiteSpace(s[k])
    ensures r == [] || !IsWhiteSpace(r[|r| - 1])
    decreases |s|
  {
    if s != [] && IsWhiteSpace(s[|s| - 1]) then TrimEnd(s[..|s| - 1]) else s
  }

  /** `s.trim()`: neither begins nor ends with white space (`TrimSlice` says what it
      keeps of `s`). */
  function Trim(s: string): (r: string)
    ensures r == [] || (!IsWhiteSpace(r[0]) && !IsWhiteSpace(r[|r| - 1]))
  {
    var t := TrimStart(s);
    var r := TrimEnd(t);
    assert r != [] ==> r[0] == t[0];
    r
  }

  /** `trim` keeps the middle of `s` and removes exactly the white space around it:
      everything before the kept part and everything after it is white space. */
  lemma TrimSlice(s: string)
    ensures var i, r := |s| - |TrimStart(s)|, Trim(s);
      && i + |r| <= |s| && r == s[i..i + |r|]
      && (forall k :: 0 <= k < i ==> IsWhiteSpace(s[k]))
      && (forall k :: i + |r| <= k < |s| ==> IsWhiteSpace(s[k]))
  {
    TrimKeepsMiddle(s);
    TrimDropsTrailing(s);
  }

  /** What `trim` keeps is a slice of `s` starting where `trimStart` stopped. */
  lemma TrimKeepsMiddle(s: string)
    ensures var i, r := |s| - |TrimStart(s)|, Trim(s);
      i + |r| <= |s| && r == s[i..i + |r|]
  {
    var t := TrimStart(s);
    Seqs.PrefixOfSuffix(s, |s| - |t|, TrimEnd(t));
  }

  /** What `trim` drops after the kept slice is white space. */
  lemma TrimDropsTrailing(s: string)
    ensures var i, r := |s| - |TrimStart(s)|, Trim(s);
      forall k :: i + |r| <= k < |s| ==> IsWhiteSpace(s[k])
  {
    var t := TrimStart(s);
    var r, i := TrimEnd(t), |s| - |t|;
    assert t == s[i..];
    forall k | i + |r| <= k < |s| ensures IsWhiteSpace(s[k]) {
      assert |r| <= k - i < |t|;
      assert s[k] == t[k - i];
    }
  }

  /** `String.prototype.trim` is idempotent. */
  lemma TrimIdempotent(s: string)
    ensures Trim(Trim(s)) == Trim(s)
  {
    var r := Trim(s);
    if r != [] {
      assert TrimStart(r) == r;
      assert TrimEnd(r) == r;
    }
  }

  /** A string that neither begins nor ends with white space is its own trim. */
  lemma TrimUnchanged(s: string)
    requires s == [] || (!IsWhiteSpace(s[0]) && !IsWhiteSpace(s[|s| - 1]))
    ensures Trim(s) == s
  {
    assert TrimStart(s) == s;
    assert TrimEnd(s) == s;
  }

  /** `parts.join(sep)` for a one-character separator. */
  function Join(parts: seq<string>, sep: char): string
    decreases |parts|
  {
    if |parts| == 0 then ""
    else if |parts| == 1 then parts[0]
    else parts[0] + [sep] + Join(parts[1..], sep)
  }

  /** `s.split(sep)`: the pieces between separators, at least one of them; no piece
      holds the separator, and joining them back gives `s`. */
  function Split(s: string, sep: char): (r: seq<string>)
    ensures |r| >= 1
    ensures forall k :: 0 <= k < |r| ==> sep !in r[k]
    ensures Join(r, sep) == s
    decreases |s|
  {
    if s == [] then [""]
    else
      var rest := Split(s[1..], sep);
      if s[0] == sep then
        assert [""] + rest == [""] + rest;
        [""] + rest
      else
        var r := [[s[0]] + rest[0]] + rest[1..];
        assert r[1..] == rest[1..];
        assert s == [s[0]] + s[1..];
        r
  }

  /** Splitting undoes joining pieces that do not contain the separator. */
  lemma {:induction false} SplitJoin(parts: seq<string>, sep: char)
    requires |parts| >= 1
    requires forall k :: 0 <= k < |parts| ==> sep !in parts[k]
    ensures Split(Join(parts, sep), sep) == parts
    decreases |parts|, |parts[0]|
  {
    if |parts| == 1 {
      SplitPiece(parts[0], sep);
    } else if parts[0] == [] {
      SplitJoin(parts[1..], sep);
      SplitAfterSeparator(parts[1..], sep);
      assert [""] + parts[1..] == parts;
    } else {
      var head := parts[0];
      var shorter := [head[1..]] + parts[1..];
      assert forall k :: 0 <= k < |shorter| ==> sep !in shorter[k] by {
        assert forall c :: c in head[1..] ==> c in head;
      }
      SplitJoin(shorter, sep);
      SplitAfterChar(head[0], shorter, sep);
      assert shorter[0] == head[1..] && shorter[1..] == parts[1..];
      assert [head[0]] + head[1..] == head;
      assert [head] + parts[1..] == parts;
    }
  }

  /** An empty first piece: the joined text starts with the separator. */
  lemma SplitAfterSeparator(rest: seq<string>, sep: char)
    requires |rest| >= 1 && Split(Join(rest, sep), sep) == rest
    ensures Split(Join([""] + rest, sep), sep) == [""] + rest
  {
    var j := Join([""] + rest, sep);
    assert ([""] + rest)[1..] == rest;
    assert j == [sep] + Join(rest, sep);
    assert j[1..] == Join(rest, sep);
  }

  /** A first piece starting with `c`: the joined text starts with `c`. */
  lemma SplitAfterChar(c: char, shorter: seq<string>, sep: char)
    requires c != sep && |shorter| >= 1 && Split(Join(shorter, sep), sep) == shorter
    ensures Split(Join([[c] + shorter[0]] + shorter[1..], sep), sep) == [[c] + shorter[0]] + shorter[1..]
  {
    var parts := [[c] + shorter[0]] + shorter[1..];
    var j := Join(parts, sep);
    assert parts[1..] == shorter[1..];
    assert j == [c] + Join(shorter, sep);
    assert j[1..] == Join(shorter, sep);
  }

  /** A separator-free piece followed by the separator splits off as one piece. */
  lemma SplitConcat(a: string, b: string, sep: char)
    requires sep !in a
    ensures Split(a + [sep] + b, sep) == [a] + Split(b, sep)
  {
    var parts := [a] + Split(b, sep);
    assert parts[0] == a && parts[1..] == Split(b, sep);
    assert Join(parts, sep) == a + [sep] + b;
    SplitJoin(parts, sep);
  }

  /** A string without the separator splits into itself. */
  lemma {:induction false} SplitPiece(s: string, sep: char)
    requires sep !in s
    ensures Split(s, sep) == [s]
    decreases |s|
  {
    if s != [] {
      assert forall c :: c in s[1..] ==> c in s;
      SplitPiece(s[1..], sep);
      assert [s[0]] + s[1..] == s;
    }
  }

  // ---- integers as text ----

  /** The decimal digit character for `d`. */
  function DigitChar(d: nat): (c: char)
    requires d < 10
    ensures '0' <= c <= '9'
  {
    (d + '0' as int) as char
  }

  /** The decimal digits of `n`, without leading zeros. */
  function NatText(n: nat): (r: string)
    ensures |r| >= 1
    ensures forall k :: 0 <= k < |r| ==> '0' <= r[k] <= '9'
    decreases n
  {
    if n < 10 then [DigitChar(n)] else NatText(n / 10) + [DigitChar(n % 10)]
  }

  /** `${y}` for an integer `y`. */
  function IntText(y: int): string {
    if y < 0 then "-" + NatText(-y) else NatText(y)
  }

  /** The value of `c` as a digit in `radix`, if it is one ('0'-'9', then letters
      of either case from 10 upwards). */
  function DigitValue(c: char, radix: nat): Option<nat> {
    var v: int :=
      if '0' <= c <= '9' then c as int - '0' as int
      else if 'a' <= c <= 'z' then c as int - 'a' as int + 10
      else if 'A' <= c <= 'Z' then c as int - 'A' as int + 10
      else radix;
    if 0 <= v < radix then Some(v) else None
  }

  /** The longest prefix of `s` made of digits in `radix`. */
  function LeadingDigits(s: string, radix: nat): (r: string)
    ensures |r| <= |s| && r == s[..|r|]
    ensures forall k :: 0 <= k < |r| ==> DigitValue(r[k], radix).Some?
    decreases |s|
  {
    if s != [] && DigitValue(s[0], radix).Some? then [s[0]] + LeadingDigits(s[1..], radix) else []
  }

  /** The value of a run of digits in `radix`, most significant first. */
  function DigitsValue(d: string, radix: nat): nat
    requires forall k :: 0 <= k < |d| ==> DigitValue(d[k], radix).Some?
    decreases |d|
  {
    if d == [] then 0
    else
      var high := DigitsValue(d[..|d| - 1], radix);
      assert high * radix >= 0;
      high * radix + DigitValue(d[|d| - 1], radix).value
  }

  /** `parseInt(s)` without a radix: skip leading white space, read an optional sign,
      read a `0x`/`0X` prefix as base 16 and otherwise base 10, and take the longest
      run of digits that follows; `None` is `NaN`, returned when that run is empty. */
  function ParseInt(s: string): (r: Option<int>)
    ensures (forall i :: 0 <= i < |s| ==> IsWhiteSpace(s[i])) ==> r.None?
  {
    var t := TrimStart(s);
    assert t != [] ==> t[0] == s[|s| - |t|];
    ParseSigned(t)
  }

  /** Only a minus sign after the leading white space makes `parseInt` negative. */
  lemma ParseIntNegative(s: string)
    ensures ParseInt(s).Some? && ParseInt(s).value < 0 ==> TrimStart(s) != [] && TrimStart(s)[0] == '-'
  {
    var t := TrimStart(s);
    assert ParseInt(s) == ParseSigned(t);
    ParseSignedNegative(t);
  }

  /** After the white space, only a leading minus sign gives a negative number. */
  lemma ParseSignedNegative(t: string)
    ensures ParseSigned(t).Some? && ParseSigned(t).value < 0 ==> t != [] && t[0] == '-'
  {
    if |t| > 0 && t[0] == '-' {
    } else if |t| > 0 && t[0] == '+' {
      assert ParseSigned(t) == ParseMagnitude(t[1..]).MapNat();
    } else {
      assert ParseSigned(t) == ParseMagnitude(t).MapNat();
    }
  }

  /** `parseInt` after the white space: an optional sign, then the magnitude. */
  function ParseSigned(t: string): Option<int> {
    if |t| > 0 && t[0] == '-' then
      match ParseMagnitude(t[1..])
      case NoNat => None
      case SomeNat(m) => Some(-(m as int))
    else if |t| > 0 && t[0] == '+' then ParseMagnitude(t[1..]).MapNat()
    else ParseMagnitude(t).MapNat()
  }

  /** `parseInt` after the sign: base 16 behind a `0x`/`0X` prefix, else base 10. */
  function ParseMagnitude(u: string): NatOption {
    if |u| >= 2 && u[0] == '0' && (u[1] == 'x' || u[1] == 'X') then ParseDigits(u[2..], 16)
    else ParseDigits(u, 10)
  }

  /** The value of the longest run of `radix` digits at the start of `v`; `NaN` if there is none. */
  function ParseDigits(v: string, radix: nat): NatOption {
    var d := LeadingDigits(v, radix);
    if d == [] then NoNat else SomeNat(DigitsValue(d, radix))
  }

  /** Reading back the decimal digits of `n` gives `n`. */
  lemma {:induction false} NatTextValue(n: nat)
    ensures LeadingDigits(NatText(n), 10) == NatText(n)
    ensures DigitsValue(NatText(n), 10) == n
    decreases n
  {
    var r := NatText(n);
    AllDigitsLead(r, 10);
    if n >= 10 {
      NatTextValue(n / 10);
      assert r[..|r| - 1] == NatText(n / 10);
    }
  }

  /** A string made only of digits is its own longest digit prefix. */
  lemma {:induction false} AllDigitsLead(s: string, radix: nat)
    requires forall k :: 0 <= k < |s| ==> DigitValue(s[k], radix).Some?
    ensures LeadingDigits(s, radix) == s
    decreases |s|
  {
    if s != [] {
      AllDigitsLead(s[1..], radix);
    }
  }

  /** `parseInt` reads back the decimal text of any integer. */
  lemma ParseIntText(y: int)
    ensures ParseInt(IntText(y)) == Some(y)
  {
    var s := IntText(y);
    IntTextStart(y);
    assert TrimStart(s) == s;
    ParseSignedText(y);
    assert ParseInt(s) == ParseSigned(s);
  }

  /** The decimal text of an integer starts with a minus sign or a digit, never white space. */
  lemma IntTextStart(y: int)
    ensures IntText(y) != [] && !IsWhiteSpace(IntText(y)[0])
  {
    var d0 := NatText(if y < 0 then -y else y)[0];
    assert '0' <= d0 <= '9';
  }

  /** The sign and magnitude parts of `parseInt` read back the decimal text of `y`. */
  lemma ParseSignedText(y: int)
    ensures ParseSigned(IntText(y)) == Some(y)
  {
    if y < 0 {
      ParseMinusText(-y);
      assert IntText(y) == "-" + NatText(-y);
    } else {
      ParseDigitsText(y);
      assert IntText(y) == NatText(y);
    }
  }

  /** A minus sign followed by the digits of `m` reads as `-m`. */
  lemma ParseMinusText(m: nat)
    ensures ParseSigned("-" + NatText(m)) == Some(-(m as int))
  {
    var s := "-" + NatText(m);
    ParseMagnitudeText(m);
    assert s[0] == '-' && s[1..] == NatText(m);
  }

  /** The digits of `m` with no sign read as `m`. */
  lemma ParseDigitsText(m: nat)
    ensures ParseSigned(NatText(m)) == Some(m)
  {
    var s := NatText(m);
    ParseMagnitudeText(m);
    assert '0' <= s[0] <= '9';
    assert ParseSigned(s) == ParseMagnitude(s).MapNat();
  }

  /** The magnitude part of `parseInt` reads back the decimal text of `m`. */
  lemma ParseMagnitudeText(m: nat)
    ensures ParseMagnitude(NatText(m)) == SomeNat(m)
  {
    var digits := NatText(m);
    NatTextValue(m);
    assert ParseDigits(digits, 10) == SomeNat(m);
    if |digits| >= 2 {
      var d1 := digits[1];
      assert '0' <= d1 <= '9';
    }
  }

  /** Different integers have different decimal texts. */
  lemma IntTextInjective(a: int, b: int)
    requires IntText(a) == IntText(b)
    ensures a == b
  {
    ParseIntText(a);
    ParseIntText(b);
  }
}
