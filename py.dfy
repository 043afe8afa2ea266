/** The fragment of Python's value semantics the synchroniser relies on:
    `None`-or-`str` JSON fields and their truthiness, ASCII lower-casing,
    the substring test `sub in s`, `str()` and `int()` on integers, and the
    exceptions the code can raise, carried as a `Result`. */
module Py {

  /** The exceptions the modelled code can raise. */
  datatype Error = KeyError | IndexError | ValueError | UnboundLocalError | StopIteration

  /** A computation that either yields a value or raises one of `Error`. */
  datatype Result<+T> = Ok(value: T) | Err(error: Error) {
    predicate IsFailure() { Err? }

    function PropagateFailure<U>(): Result<U>
      requires Err?
    {
      Err(error)
    }

    function Extract(): T
      requires Ok?
    {
      value
    }
  }

  datatype Option<+T> = None | Some(value: T)

  /** A JSON string field that may be null: Python `None` or a `str`. */
  datatype NStr = Null | Text(s: string)

  /** Python truthiness of a `None`-or-`str` value. */
  predicate Truthy(v: NStr)
  {
    v.Text? && v.s != ""
  }

  /** `x if x else ''`: the accessor's way of turning a missing date into ''. */
  function OrEmpty(v: NStr): (r: string)
    ensures r == "" <==> !Truthy(v)
    ensures Truthy(v) ==> r == v.s
  {
    if Truthy(v) then v.s else ""
  }

  // ----- characters and strings -----

  predicate IsDigit(c: char)
  {
    '0' <= c <= '9'
  }

  predicate AllDigits(s: string)
  {
    forall i :: 0 <= i < |s| ==> IsDigit(s[i])
  }

  /** The characters `str.isspace()` accepts below code point 128. */
  predicate IsSpace(c: char)
  {
    c == ' ' || c == '\t' || c == '\n' || c == '\r' || c == '\U{B}' || c == '\U{C}'
    || ('\U{1C}' <= c <= '\U{1F}')
  }

  /** `str.lower()` on the ASCII letters. */
  function LowerChar(c: char): char
  {
    if 'A' <= c <= 'Z' then (c as int + 32) as char else c
  }

  function Lower(s: string): (r: string)
    ensures |r| == |s|
    ensures forall i :: 0 <= i < |s| ==> r[i] == LowerChar(s[i])
  {
    seq(|s|, i requires 0 <= i < |s| => LowerChar(s[i]))
  }

  /** The characters of `sub` occur in `s` from position `i + j` on, for
      `j` up to the end of `sub`; with `fold`, `s` is read lower-cased. */
  predicate MatchFrom(s: string, sub: string, i: nat, j: nat, fold: bool)
    requires i + |sub| <= |s| && j <= |sub|
    decreases |sub| - j
  {
    j == |sub|
    || ((if fold then LowerChar(s[i + j]) else s[i + j]) == sub[j] && MatchFrom(s, sub, i, j + 1, fold))
  }

  predicate OccursFrom(s: string, sub: string, i: nat, fold: bool)
    decreases |s| - i
  {
    i + |sub| <= |s| && (MatchFrom(s, sub, i, 0, fold) || OccursFrom(s, sub, i + 1, fold))
  }

  /** Python's `sub in s` on strings. */
  predicate Contains(s: string, sub: string)
  {
    OccursFrom(s, sub, 0, false)
  }

  /** Python's `sub in s.lower()`. */
  predicate LowerContains(s: string, sub: string)
  {
    OccursFrom(s, sub, 0, true)
  }

  /** Python's `s.lower() == t`. */
  predicate LowerEquals(s: string, t: string)
  {
    |s| == |t| && MatchFrom(s, t, 0, 0, true)
  }

  lemma {:induction false} MatchFromAt(s: string, sub: string, i: nat, j: nat, fold: bool)
    requires i + |sub| <= |s| && j <= |sub|
    ensures MatchFrom(s, sub, i, j, fold)
        <==> (if fold then Lower(s) else s)[i + j..i + |sub|] == sub[j..]
    decreases |sub| - j
  {
    var t := if fold then Lower(s) else s;
    if j < |sub| {
      MatchFromAt(s, sub, i, j + 1, fold);
      assert t[i + j..i + |sub|] == [t[i + j]] + t[i + j + 1..i + |sub|];
      assert sub[j..] == [sub[j]] + sub[j + 1..];
    }
  }

  lemma {:induction false} MatchFromFold(s: string, sub: string, i: nat, j: nat)
    requires i + |sub| <= |s| && j <= |sub|
    ensures MatchFrom(s, sub, i, j, true) == MatchFrom(Lower(s), sub, i, j, false)
    decreases |sub| - j
  {
    if j < |sub| {
      MatchFromFold(s, sub, i, j + 1);
    }
  }

  lemma {:induction false} OccursFromFold(s: string, sub: string, i: nat)
    ensures OccursFrom(s, sub, i, true) == OccursFrom(Lower(s), sub, i, false)
    decreases |s| - i
  {
    if i + |sub| <= |s| {
      MatchFromFold(s, sub, i, 0);
      OccursFromFold(s, sub, i + 1);
    }
  }

  /** `sub in s.lower()` is `sub in Lower(s)`. */
  lemma LowerContainsIsContainsLower(s: string, sub: string)
    ensures LowerContains(s, sub) <==> Contains(Lower(s), sub)
  {
    OccursFromFold(s, sub, 0);
  }

  /** `s.lower() == t` is `Lower(s) == t`. */
  lemma LowerEqualsIsEqualsLower(s: string, t: string)
    ensures LowerEquals(s, t) <==> Lower(s) == t
  {
    if |s| == |t| {
      MatchFromAt(s, t, 0, 0, true);
      assert Lower(s)[0..|t|] == Lower(s);
    }
  }

  // ----- str(int) and int(str) -----

  function DigitChar(d: int): (c: char)
    requires 0 <= d < 10
    ensures IsDigit(c)
  {
    ('0' as int + d) as char
  }

  function DigitValue(c: char): int
  {
    c as int - '0' as int
  }

  /** Decimal digits of a natural number, without leading zeros. */
  function NatStr(n: nat): (r: string)
    ensures |r| > 0 && AllDigits(r)
  {
    if n < 10 then [DigitChar(n)] else NatStr(n / 10) + [DigitChar(n % 10)]
  }

  /** Python `str(i)` for an `int`. */
  function IntStr(i: int): (r: string)
    ensures |r| > 0
  {
    if i < 0 then "-" + NatStr(-i) else NatStr(i)
  }

  /** The number a run of decimal digits denotes. */
  function DigitsValue(s: string): nat
    requires AllDigits(s)
  {
    if s == [] then 0 else 10 * DigitsValue(s[..|s| - 1]) + DigitValue(s[|s| - 1])
  }

  lemma {:induction false} DigitsValueOfNatStr(n: nat)
    ensures DigitsValue(NatStr(n)) == n
  {
    if n >= 10 {
      var r := NatStr(n);
      assert r[..|r| - 1] == NatStr(n / 10);
      DigitsValueOfNatStr(n / 10);
    }
  }

  function StripLeft(s: string): (r: string)
    ensures |r| <= |s| && r == s[|s| - |r|..]
    ensures r == [] || !IsSpace(r[0])
  {
    if s != [] && IsSpace(s[0]) then StripLeft(s[1..]) else s
  }

  function StripRight(s: string): (r: string)
    ensures |r| <= |s| && r == s[..|r|]
    ensures r == [] || !IsSpace(r[|r| - 1])
  {
    if s != [] && IsSpace(s[|s| - 1]) then StripRight(s[..|s| - 1]) else s
  }

  /** Python `int(s)` on a `str`, over ASCII: surrounding whitespace, an
      optional sign, then one or more decimal digits. Anything else is a
      ValueError here, including the underscores between digits and the
      non-ASCII digits and spaces that Python also accepts. */
  function ParseInt(s: string): Result<int>
  {
    ParseStripped(StripRight(StripLeft(s)))
  }

  /** `int(s)` once the surrounding whitespace is gone. */
  function ParseStripped(t: string): Result<int>
  {
    if t != [] && (t[0] == '-' || t[0] == '+') && |t| > 1 && AllDigits(t[1..]) then
      Ok(if t[0] == '-' then -(DigitsValue(t[1..]) as int) else DigitsValue(t[1..]))
    else if t != [] && AllDigits(t) then
      Ok(DigitsValue(t))
    else
      Err(ValueError)
  }

  lemma StripUnpadded(s: string)
    requires s != [] && !IsSpace(s[0]) && !IsSpace(s[|s| - 1])
    ensures StripRight(StripLeft(s)) == s
  {
  }

  lemma ParseIntOfDigits(t: string, v: nat)
    requires t != [] && AllDigits(t) && DigitsValue(t) == v
    ensures ParseInt(t) == Ok(v)
  {
    assert StripRight(StripLeft(t)) == t by {
      StripUnpadded(t);
    }
  }

  lemma ParseIntOfNegDigits(d: string, v: nat)
    requires d != [] && AllDigits(d) && DigitsValue(d) == v
    ensures ParseInt("-" + d) == Ok(-(v as int))
  {
    var t := "-" + d;
    assert t[1..] == d;
    assert StripRight(StripLeft(t)) == t by {
      assert t[|t| - 1] == d[|d| - 1];
      StripUnpadded(t);
    }
    assert ParseStripped(t) == Ok(-(DigitsValue(d) as int)) by {
      ParseStrippedNeg(t);
    }
  }

  lemma ParseStrippedNeg(t: string)
    requires |t| > 1 && t[0] == '-' && AllDigits(t[1..])
    ensures ParseStripped(t) == Ok(-(DigitsValue(t[1..]) as int))
  {
  }

  /** `int(str(i)) == i`: what the export writes in an integer column, the
      upload reads back. */
  lemma ParseIntOfIntStr(i: int)
    ensures ParseInt(IntStr(i)) == Ok(i)
  {
    if i < 0 {
      var n: nat := -i;
      assert IntStr(i) == "-" + NatStr(n);
      ParseIntOfNegNatStr(n);
    } else {
      assert IntStr(i) == NatStr(i);
      ParseIntOfNatStr(i);
    }
  }

  lemma ParseIntOfNatStr(n: nat)
    ensures ParseInt(NatStr(n)) == Ok(n)
  {
    DigitsValueOfNatStr(n);
    ParseIntOfDigits(NatStr(n), n);
  }

  lemma ParseIntOfNegNatStr(n: nat)
    ensures ParseInt("-" + NatStr(n)) == Ok(-(n as int))
  {
    DigitsValueOfNatStr(n);
    ParseIntOfNegDigits(NatStr(n), n);
  }

  /** `str` is injective on integers. */
  lemma IntStrInjective(i: int, j: int)
    requires IntStr(i) == IntStr(j)
    ensures i == j
  {
    ParseIntOfIntStr(i);
    ParseIntOfIntStr(j);
  }

  // ----- prefixes, for loops that walk a sequence -----

  lemma PrefixStep<T>(s: seq<T>, i: nat)
    requires i < |s|
    ensures s[..i + 1][..i] == s[..i] && s[..i + 1] == s[..i] + [s[i]]
  {
  }

  lemma PrefixWhole<T>(s: seq<T>)
    ensures s[..|s|] == s
  {
  }
}
