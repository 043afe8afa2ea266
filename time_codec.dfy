/** The spreadsheet's timestamp codec: `local_to_iso` turns a local
    "month/day/year hour:minute[:second]" cell into the server's UTC
    "YYYY-MM-DDTHH:MM:SSZ" form, and `iso_to_local` goes back. Both parse
    with `datetime.strptime` and print with `strftime`, which are modelled
    here on ASCII text; the timezone conversion is a parameter. */
module TimeCodec {
  import opened Py

  // ----- calendar -----

  /** A naive `datetime`, field by field. */
  datatype DateTime = DateTime(year: int, month: int, day: int, hour: int, minute: int, second: int)

  predicate IsLeap(y: int)
  {
    y % 4 == 0 && (y % 100 != 0 || y % 400 == 0)
  }

  function DaysInMonth(y: int, m: int): int
  {
    if m == 2 then (if IsLeap(y) then 29 else 28)
    else if m == 4 || m == 6 || m == 9 || m == 11 then 30
    else 31
  }

  /** What the `datetime` constructor accepts; anything else is ValueError. */
  predicate Valid(d: DateTime)
  {
    && 1 <= d.year <= 9999
    && 1 <= d.month <= 12
    && 1 <= d.day <= DaysInMonth(d.year, d.month)
    && 0 <= d.hour <= 23
    && 0 <= d.minute <= 59
    && 0 <= d.second <= 59
  }

  type Instant = d: DateTime | Valid(d) witness DateTime(1900, 1, 1, 0, 0, 0)

  // ----- format strings -----

  /** One element of a `strptime`/`strftime` format: a literal character, a
      run of whitespace, or a `%` directive. */
  datatype Directive = Lit(c: char) | Spaces | Month | Day | Year4 | Year2 | Hour | Minute | Second

  /** '%m/%d/%Y %H:%M:%S' and its three fallbacks, then '%Y-%m-%dT%H:%M:%SZ'. */
  const LocalSeconds: seq<Directive> :=
    [Month, Lit('/'), Day, Lit('/'), Year4, Spaces, Hour, Lit(':'), Minute, Lit(':'), Second]
  const LocalMinutes: seq<Directive> :=
    [Month, Lit('/'), Day, Lit('/'), Year4, Spaces, Hour, Lit(':'), Minute]
  const ShortSeconds: seq<Directive> :=
    [Month, Lit('/'), Day, Lit('/'), Year2, Spaces, Hour, Lit(':'), Minute, Lit(':'), Second]
  const ShortMinutes: seq<Directive> :=
    [Month, Lit('/'), Day, Lit('/'), Year2, Spaces, Hour, Lit(':'), Minute]
  const IsoFormat: seq<Directive> :=
    [Year4, Lit('-'), Month, Lit('-'), Day, Lit('T'), Hour, Lit(':'), Minute, Lit(':'), Second, Lit('Z')]

  // ----- strptime -----

  /** A regular-expression alternative of fixed length: one character range
      per position. */
  type Alt = seq<(char, char)>

  /** The alternatives of each directive's pattern in CPython's `_strptime`,
      in the order the regular expression tries them. */
  function Alts(d: Directive): seq<Alt>
  {
    match d
    case Month => [[('1', '1'), ('0', '2')], [('0', '0'), ('1', '9')], [('1', '9')]]
    case Day => [[('3', '3'), ('0', '1')], [('1', '2'), ('0', '9')], [('0', '0'), ('1', '9')], [('1', '9')],
                 [(' ', ' '), ('1', '9')]]
    case Year4 => [[('0', '9'), ('0', '9'), ('0', '9'), ('0', '9')]]
    case Year2 => [[('0', '9'), ('0', '9')]]
    case Hour => [[('2', '2'), ('0', '3')], [('0', '1'), ('0', '9')], [('0', '9')]]
    case Minute => [[('0', '5'), ('0', '9')], [('0', '9')]]
    case Second => [[('6', '6'), ('0', '1')], [('0', '5'), ('0', '9')], [('0', '9')]]
    case _ => []
  }

  predicate MatchesAt(s: string, pos: nat, alt: Alt)
  {
    pos + |alt| <= |s| && forall i :: 0 <= i < |alt| ==> alt[i].0 <= s[pos + i] <= alt[i].1
  }

  /** `int()` of a matched field: its digits, a leading blank ignored. */
  function Num(t: string): nat
  {
    if t == [] then 0
    else if IsDigit(t[|t| - 1]) then 10 * Num(t[..|t| - 1]) + DigitValue(t[|t| - 1])
    else Num(t[..|t| - 1])
  }

  /** Record a parsed field; a two-digit year below 69 is in the 2000s. */
  function Store(acc: DateTime, d: Directive, v: int): DateTime
  {
    match d
    case Month => acc.(month := v)
    case Day => acc.(day := v)
    case Year4 => acc.(year := v)
    case Year2 => acc.(year := if v <= 68 then 2000 + v else 1900 + v)
    case Hour => acc.(hour := v)
    case Minute => acc.(minute := v)
    case Second => acc.(second := v)
    case _ => acc
  }

  /** The length of the whitespace run starting at `pos`. */
  function SpaceRun(s: string, pos: nat): nat
    decreases |s| - pos
  {
    if pos < |s| && IsSpace(s[pos]) then 1 + SpaceRun(s, pos + 1) else 0
  }

  /** The first match of the format's regular expression at `pos`, in the
      order a backtracking matcher finds it: the fields it sets and where it
      ends. A literal matches ignoring case; whitespace in the format matches
      the whole run of whitespace (backing off could only leave a blank in
      front of a directive that does not start with one). */
  function Scan(fmt: seq<Directive>, s: string, pos: nat, acc: DateTime): Option<(DateTime, nat)>
    decreases |fmt|, 1, 0
  {
    if fmt == [] then Some((acc, pos))
    else
      match fmt[0]
      case Lit(c) =>
        if pos < |s| && LowerChar(s[pos]) == LowerChar(c) then Scan(fmt[1..], s, pos + 1, acc) else None
      case Spaces =>
        var n := SpaceRun(s, pos);
        if n == 0 then None else Scan(fmt[1..], s, pos + n, acc)
      case _ => TryAlts(fmt, s, pos, acc, Alts(fmt[0]))
  }

  /** Try the alternatives of the directive `fmt[0]` in order; the first
      one after which the rest of the format matches wins. */
  function TryAlts(fmt: seq<Directive>, s: string, pos: nat, acc: DateTime, alts: seq<Alt>): Option<(DateTime, nat)>
    requires fmt != []
    decreases |fmt|, 0, |alts|
  {
    if alts == [] then None
    else if MatchesAt(s, pos, alts[0]) then
      var r := Scan(fmt[1..], s, pos + |alts[0]|, Store(acc, fmt[0], Num(s[pos..pos + |alts[0]|])));
      if r.Some? then r else TryAlts(fmt, s, pos, acc, alts[1..])
    else TryAlts(fmt, s, pos, acc, alts[1..])
  }

  /** The fields `strptime` starts from. */
  const Default: DateTime := DateTime(1900, 1, 1, 0, 0, 0)

  /** `datetime.strptime(s, fmt)`; None stands for ValueError: no match,
      text left over after the match, or an impossible date. */
  function Strptime(s: string, fmt: seq<Directive>): (r: Option<Instant>)
    ensures r.Some? ==> Scan(fmt, s, 0, Default) == Some((r.value, |s|))
  {
    match Scan(fmt, s, 0, Default)
    case None => None
    case Some((d, end)) => if end == |s| && Valid(d) then Some(d) else None
  }

  // ----- strftime -----

  function Pad2(v: int): (r: string)
    requires 0 <= v < 100
    ensures |r| == 2 && AllDigits(r)
  {
    [DigitChar(v / 10), DigitChar(v % 10)]
  }

  function Pad4(v: int): (r: string)
    requires 0 <= v < 10000
    ensures |r| == 4 && AllDigits(r)
  {
    [DigitChar(v / 1000), DigitChar(v / 100 % 10), DigitChar(v / 10 % 10), DigitChar(v % 10)]
  }

  function RenderOne(d: Directive, t: Instant): string
  {
    match d
    case Lit(c) => [c]
    case Spaces => " "
    case Month => Pad2(t.month)
    case Day => Pad2(t.day)
    case Year4 => Pad4(t.year)
    case Year2 => Pad2(t.year % 100)
    case Hour => Pad2(t.hour)
    case Minute => Pad2(t.minute)
    case Second => Pad2(t.second)
  }

  /** `t.strftime(fmt)`, every numeric field zero-padded. */
  function Strftime(t: Instant, fmt: seq<Directive>): string
  {
    if fmt == [] then "" else RenderOne(fmt[0], t) + Strftime(t, fmt[1..])
  }

  // ----- the shapes the converters test with `re.match` -----

  /** `re.match('[0-9]{4}-[0-9]{2}-[0-9]{2}T[0-9]{2}:[0-9]{2}:[0-9]{2}Z', s)`,
      written as a template in which '#' stands for a digit. */
  const IsoShape: string := "####-##-##T##:##:##Z"

  predicate FitsShapeAt(s: string, pos: nat, shape: string)
  {
    pos + |shape| <= |s|
    && forall i :: 0 <= i < |shape| ==> if shape[i] == '#' then IsDigit(s[pos + i]) else s[pos + i] == shape[i]
  }

  predicate IsoPrefix(s: string)
  {
    FitsShapeAt(s, 0, IsoShape)
  }

  /** `[0-9][0-9]?` then `sep`: the position after `sep`. */
  function DigitsThen(s: string, pos: nat, sep: char): Option<nat>
  {
    if pos + 2 < |s| && IsDigit(s[pos]) && IsDigit(s[pos + 1]) && s[pos + 2] == sep then Some(pos + 3)
    else if pos + 1 < |s| && IsDigit(s[pos]) && s[pos + 1] == sep then Some(pos + 2)
    else None
  }

  function DigitRun(s: string, pos: nat): nat
    decreases |s| - pos
  {
    if pos < |s| && IsDigit(s[pos]) then 1 + DigitRun(s, pos + 1) else 0
  }

  /** `re.match` of '[0-9][0-9]?/[0-9][0-9]?/[0-9][0-9]+ [0-9][0-9]?:[0-9][0-9]'
      and, with `seconds`, the same followed by ':[0-9][0-9]'. Every
      repetition is followed by a character it cannot consume, so backing
      off never helps and each step is decided by what follows the run. */
  predicate LocalPrefix(s: string, seconds: bool)
  {
    match DigitsThen(s, 0, '/')
    case None => false
    case Some(p1) =>
      match DigitsThen(s, p1, '/')
      case None => false
      case Some(p2) =>
        var n := DigitRun(s, p2);
        n >= 2 && p2 + n < |s| && s[p2 + n] == ' ' &&
        match DigitsThen(s, p2 + n + 1, ':')
        case None => false
        case Some(p3) =>
          p3 + 1 < |s| && IsDigit(s[p3]) && IsDigit(s[p3 + 1])
          && (seconds ==> p3 + 4 < |s| && s[p3 + 2] == ':' && IsDigit(s[p3 + 3]) && IsDigit(s[p3 + 4]))
  }

  // ----- the converters -----

  /** The four local formats, tried in order. */
  function ParseLocal(s: string): Option<Instant>
  {
    var f1 := Strptime(s, LocalSeconds);
    if f1.Some? then f1
    else
      var f2 := Strptime(s, LocalMinutes);
      if f2.Some? then f2
      else
        var f3 := Strptime(s, ShortSeconds);
        if f3.Some? then f3 else Strptime(s, ShortMinutes)
  }

  /** A converted time whose minute is 59 gets second 59. */
  function Fix59(t: Instant): (r: Instant)
    ensures r.minute == 59 ==> r.second == 59
    ensures r.(second := t.second) == t
    ensures t.minute != 59 ==> r == t
  {
    if t.minute == 59 then t.(second := 59) else t
  }

  /** `local_to_iso(date_time)`: '' for '', None and 'None'; an input that
      already starts like an ISO time is returned as is; otherwise the first
      local format that parses is shifted to UTC by `toUtc`, given the :59
      rule and printed. When no format parses, the unassigned `date_in` is
      read and UnboundLocalError is raised. */
  function LocalToIso(v: NStr, toUtc: Instant -> Instant): (r: Result<string>)
    ensures r.Err? ==> r.error == UnboundLocalError
  {
    if v == Null || v == Text("") || v == Text("None") then Ok("")
    else if IsoPrefix(v.s) then Ok(v.s)
    else
      match ParseLocal(v.s)
      case None => Err(UnboundLocalError)
      case Some(t) => Ok(Strftime(Fix59(toUtc(t)), IsoFormat))
  }

  /** `iso_to_local(date_time)` as written: its test `date_time.lower() ==
      'None'` compares a lower-cased string with a capitalised one. */
  function IsoToLocalAsWritten(v: NStr, toLocal: Instant -> Instant): (r: Result<string>)
    ensures r.Err? ==> r.error == ValueError
  {
    if v == Null || v == Text("") || LowerEquals(v.s, "None") then Ok("")
    else if LocalPrefix(v.s, true) || LocalPrefix(v.s, false) then Ok(v.s)
    else
      match Strptime(v.s, IsoFormat)
      case None => Err(ValueError)
      case Some(t) => Ok(Strftime(toLocal(t), LocalSeconds))
  }

  /** `iso_to_local` with the test it evidently means, `.lower() == 'none'`,
      so that it treats 'None' like `local_to_iso` does. */
  function IsoToLocal(v: NStr, toLocal: Instant -> Instant): (r: Result<string>)
    ensures r.Err? ==> r.error == ValueError
  {
    if v == Null || v == Text("") || LowerEquals(v.s, "none") then Ok("")
    else if LocalPrefix(v.s, true) || LocalPrefix(v.s, false) then Ok(v.s)
    else
      match Strptime(v.s, IsoFormat)
      case None => Err(ValueError)
      case Some(t) => Ok(Strftime(toLocal(t), LocalSeconds))
  }

  // ----- parsing what strftime printed -----

  lemma NumPad2(v: int)
    requires 0 <= v < 100
    ensures Num(Pad2(v)) == v
  {
    var r := Pad2(v);
    assert r[..1][..0] == [];
    assert r[..1] == [DigitChar(v / 10)];
    assert Num(r[..1]) == v / 10;
    assert Num(r) == 10 * (v / 10) + v % 10;
  }

  lemma NumPad4(v: int)
    requires 0 <= v < 10000
    ensures Num(Pad4(v)) == v
  {
    var a, b, c, d := v / 1000, v / 100 % 10, v / 10 % 10, v % 10;
    var none: string := [];
    NumSnoc(none, a);
    assert none + [DigitChar(a)] == [DigitChar(a)];
    NumSnoc([DigitChar(a)], b);
    assert [DigitChar(a)] + [DigitChar(b)] == [DigitChar(a), DigitChar(b)];
    NumSnoc([DigitChar(a), DigitChar(b)], c);
    assert [DigitChar(a), DigitChar(b)] + [DigitChar(c)] == [DigitChar(a), DigitChar(b), DigitChar(c)];
    NumSnoc([DigitChar(a), DigitChar(b), DigitChar(c)], d);
    assert Pad4(v) == [DigitChar(a), DigitChar(b), DigitChar(c)] + [DigitChar(d)];
    FourDigits(v);
  }

  lemma NumSnoc(t: string, d: int)
    requires 0 <= d < 10
    ensures Num(t + [DigitChar(d)]) == 10 * Num(t) + d
  {
    assert (t + [DigitChar(d)])[..|t|] == t;
  }

  lemma FourDigits(v: int)
    requires 0 <= v < 10000
    ensures 10 * (10 * (10 * (v / 1000) + v / 100 % 10) + v / 10 % 10) + v % 10 == v
  {
  }

  /** The alternatives before the `j`-th do not match and the `j`-th does,
      with the rest of the format matching after it: that is the match. */
  lemma {:induction false} TryAltsPick(fmt: seq<Directive>, s: string, pos: nat, acc: DateTime, alts: seq<Alt>, j: nat)
    requires fmt != [] && j < |alts|
    requires forall i :: 0 <= i < j ==> !MatchesAt(s, pos, alts[i])
    requires MatchesAt(s, pos, alts[j])
    requires Scan(fmt[1..], s, pos + |alts[j]|, Store(acc, fmt[0], Num(s[pos..pos + |alts[j]|]))).Some?
    ensures TryAlts(fmt, s, pos, acc, alts)
         == Scan(fmt[1..], s, pos + |alts[j]|, Store(acc, fmt[0], Num(s[pos..pos + |alts[j]|])))
    decreases j
  {
    if j > 0 {
      TryAltsPick(fmt, s, pos, acc, alts[1..], j - 1);
    }
  }

  /** The value a directive prints. */
  function FieldOf(d: Directive, t: DateTime): int
  {
    match d
    case Month => t.month
    case Day => t.day
    case Year4 => t.year
    case Year2 => t.year % 100
    case Hour => t.hour
    case Minute => t.minute
    case Second => t.second
    case _ => 0
  }

  predicate IsField(d: Directive)
  {
    !d.Lit? && !d.Spaces?
  }

  /** Which alternative of a directive's pattern matches the zero-padded
      field: the two-digit one whose first character range holds the tens
      digit; every alternative tried before it fails on that digit. */
  function AltIndex(d: Directive, t: Instant): nat
  {
    match d
    case Month => if t.month >= 10 then 0 else 1
    case Day => if t.day >= 30 then 0 else if t.day >= 10 then 1 else 2
    case Hour => if t.hour >= 20 then 0 else 1
    case Second => 1
    case _ => 0
  }

  /** A zero-padded two-digit field read by the `j`-th alternative, the
      earlier ones failing on its tens digit. */
  lemma PadAlt(s: string, pos: nat, v: int, alts: seq<Alt>, j: nat)
    requires 0 <= v < 100 && pos + 2 <= |s| && s[pos..pos + 2] == Pad2(v)
    requires j < |alts| && |alts[j]| == 2
    requires alts[j][0].0 <= DigitChar(v / 10) <= alts[j][0].1
    requires alts[j][1].0 <= DigitChar(v % 10) <= alts[j][1].1
    requires forall i :: 0 <= i < j ==> |alts[i]| > 0 && !(alts[i][0].0 <= DigitChar(v / 10) <= alts[i][0].1)
    ensures MatchesAt(s, pos, alts[j])
    ensures forall i :: 0 <= i < j ==> !MatchesAt(s, pos, alts[i])
    ensures Num(s[pos..pos + 2]) == v
  {
    assert s[pos] == s[pos..pos + 2][0] && s[pos + 1] == s[pos..pos + 2][1];
    NumPad2(v);
  }

  lemma YearAlt(t: Instant, s: string, pos: nat)
    requires pos + 4 <= |s| && s[pos..pos + 4] == Pad4(t.year)
    ensures MatchesAt(s, pos, Alts(Year4)[0])
    ensures Num(s[pos..pos + 4]) == t.year
  {
    var r := Pad4(t.year);
    assert forall i :: 0 <= i < 4 ==> s[pos + i] == r[i];
    NumPad4(t.year);
  }

  lemma FieldAlt(d: Directive, t: Instant, s: string, pos: nat)
    requires IsField(d) && !d.Year2?
    requires pos + |RenderOne(d, t)| <= |s| && s[pos..pos + |RenderOne(d, t)|] == RenderOne(d, t)
    ensures AltIndex(d, t) < |Alts(d)|
    ensures |Alts(d)[AltIndex(d, t)]| == |RenderOne(d, t)|
    ensures MatchesAt(s, pos, Alts(d)[AltIndex(d, t)])
    ensures forall i :: 0 <= i < AltIndex(d, t) ==> !MatchesAt(s, pos, Alts(d)[i])
    ensures Num(s[pos..pos + |RenderOne(d, t)|]) == FieldOf(d, t)
  {
    match d
    case Year4 => YearAlt(t, s, pos);
    case Month => PadAlt(s, pos, t.month, Alts(d), AltIndex(d, t));
    case Day => PadAlt(s, pos, t.day, Alts(d), AltIndex(d, t));
    case Hour => PadAlt(s, pos, t.hour, Alts(d), AltIndex(d, t));
    case Minute => PadAlt(s, pos, t.minute, Alts(d), AltIndex(d, t));
    case Second => PadAlt(s, pos, t.second, Alts(d), AltIndex(d, t));
  }

  /** The fields a format sets when it parses what it printed. */
  function StoreAll(acc: DateTime, fmt: seq<Directive>, t: Instant): DateTime
    decreases |fmt|
  {
    if fmt == [] then acc else StoreAll(Store(acc, fmt[0], FieldOf(fmt[0], t)), fmt[1..], t)
  }

  /** Formats whose printed form reads back: no two-digit year, and every
      run of whitespace is followed by a field, which prints a digit. */
  predicate ReadsBack(fmt: seq<Directive>)
  {
    fmt == []
    || (&& !fmt[0].Year2?
        && (fmt[0].Spaces? ==> |fmt| > 1 && IsField(fmt[1]))
        && ReadsBack(fmt[1..]))
  }

  lemma StrftimeStartsWithDigit(t: Instant, fmt: seq<Directive>)
    requires fmt != [] && IsField(fmt[0])
    ensures |Strftime(t, fmt)| > 0 && IsDigit(Strftime(t, fmt)[0])
  {
  }

  /** One directive of a format reads back what it printed. */
  lemma ScanStep(fmt: seq<Directive>, t: Instant, s: string, pos: nat, acc: DateTime, res: Option<(DateTime, nat)>)
    requires fmt != [] && !fmt[0].Year2?
    requires pos + |RenderOne(fmt[0], t)| <= |s|
    requires s[pos..pos + |RenderOne(fmt[0], t)|] == RenderOne(fmt[0], t)
    requires fmt[0].Spaces? ==> pos + 1 < |s| && !IsSpace(s[pos + 1])
    requires Scan(fmt[1..], s, pos + |RenderOne(fmt[0], t)|, Store(acc, fmt[0], FieldOf(fmt[0], t))) == res
    requires res.Some?
    ensures Scan(fmt, s, pos, acc) == res
  {
    var d := fmt[0];
    var r0 := RenderOne(d, t);
    assert s[pos] == r0[0];
    match d
    case Lit(c) =>
    case Spaces =>
      assert SpaceRun(s, pos + 1) == 0;
    case _ =>
      FieldAlt(d, t, s, pos);
      TryAltsPick(fmt, s, pos, acc, Alts(d), AltIndex(d, t));
  }

  lemma SliceSplit(s: string, pos: nat, a: string, b: string)
    requires pos + |a + b| <= |s| && s[pos..pos + |a + b|] == a + b
    ensures s[pos..pos + |a|] == a
    ensures s[pos + |a|..pos + |a| + |b|] == b
  {
    assert s[pos..pos + |a|] == s[pos..pos + |a + b|][..|a|];
    assert s[pos + |a|..pos + |a| + |b|] == s[pos..pos + |a + b|][|a|..];
  }

  /** The step of `ScanStrftime`: given the rest of the format reads back,
      the whole format does. */
  lemma ScanCons(fmt: seq<Directive>, t: Instant, s: string, pos: nat, acc: DateTime)
    requires fmt != [] && ReadsBack(fmt)
    requires pos + |Strftime(t, fmt)| <= |s| && s[pos..pos + |Strftime(t, fmt)|] == Strftime(t, fmt)
    requires Scan(fmt[1..], s, pos + |RenderOne(fmt[0], t)|, Store(acc, fmt[0], FieldOf(fmt[0], t)))
          == Some((StoreAll(Store(acc, fmt[0], FieldOf(fmt[0], t)), fmt[1..], t),
                   pos + |RenderOne(fmt[0], t)| + |Strftime(t, fmt[1..])|))
    ensures Scan(fmt, s, pos, acc) == Some((StoreAll(acc, fmt, t), pos + |Strftime(t, fmt)|))
  {
    StrftimeFirst(fmt, t, s, pos);
    var res := Some((StoreAll(acc, fmt, t), pos + |Strftime(t, fmt)|));
    assert Scan(fmt[1..], s, pos + |RenderOne(fmt[0], t)|, Store(acc, fmt[0], FieldOf(fmt[0], t))) == res by {
      StoreAllCons(acc, fmt, t);
      assert pos + |Strftime(t, fmt)| == pos + |RenderOne(fmt[0], t)| + |Strftime(t, fmt[1..])|;
    }
    ScanStep(fmt, t, s, pos, acc, res);
  }

  lemma StoreAllCons(acc: DateTime, fmt: seq<Directive>, t: Instant)
    requires fmt != []
    ensures StoreAll(acc, fmt, t) == StoreAll(Store(acc, fmt[0], FieldOf(fmt[0], t)), fmt[1..], t)
  {
  }

  /** The printed form of the first directive comes first, and a run of
      whitespace is followed by a digit. */
  lemma StrftimeFirst(fmt: seq<Directive>, t: Instant, s: string, pos: nat)
    requires fmt != [] && ReadsBack(fmt)
    requires pos + |Strftime(t, fmt)| <= |s| && s[pos..pos + |Strftime(t, fmt)|] == Strftime(t, fmt)
    ensures !fmt[0].Year2?
    ensures |Strftime(t, fmt)| == |RenderOne(fmt[0], t)| + |Strftime(t, fmt[1..])|
    ensures pos + |RenderOne(fmt[0], t)| <= |s| && s[pos..pos + |RenderOne(fmt[0], t)|] == RenderOne(fmt[0], t)
    ensures fmt[0].Spaces? ==> pos + 1 < |s| && !IsSpace(s[pos + 1])
  {
    StrftimeCons(t, fmt);
    SliceSplit(s, pos, RenderOne(fmt[0], t), Strftime(t, fmt[1..]));
    if fmt[0].Spaces? {
      SpacesThenDigit(fmt, t, s, pos);
    }
  }

  /** Whitespace prints one space, and the field after it starts with a digit. */
  lemma SpacesThenDigit(fmt: seq<Directive>, t: Instant, s: string, pos: nat)
    requires fmt != [] && fmt[0].Spaces? && ReadsBack(fmt)
    requires pos + 1 + |Strftime(t, fmt[1..])| <= |s|
    requires s[pos + 1..pos + 1 + |Strftime(t, fmt[1..])|] == Strftime(t, fmt[1..])
    ensures pos + 1 < |s| && !IsSpace(s[pos + 1])
  {
    var out := Strftime(t, fmt[1..]);
    StrftimeStartsWithDigit(t, fmt[1..]);
    assert s[pos + 1] == s[pos + 1..pos + 1 + |out|][0];
  }

  /** Scanning the printed form of a format with that format stops right
      after it, having read every field back. */
  lemma {:induction false} ScanStrftime(fmt: seq<Directive>, t: Instant, s: string, pos: nat, acc: DateTime)
    requires ReadsBack(fmt)
    requires pos + |Strftime(t, fmt)| <= |s| && s[pos..pos + |Strftime(t, fmt)|] == Strftime(t, fmt)
    ensures Scan(fmt, s, pos, acc) == Some((StoreAll(acc, fmt, t), pos + |Strftime(t, fmt)|))
    decreases |fmt|, 1
  {
    if fmt != [] {
      ScanTail(fmt, t, s, pos, acc);
      ScanCons(fmt, t, s, pos, acc);
    }
  }

  /** The induction hypothesis of `ScanStrftime`: the rest of the format
      reads back from just after the first directive's text. */
  lemma {:induction false} ScanTail(fmt: seq<Directive>, t: Instant, s: string, pos: nat, acc: DateTime)
    requires fmt != [] && ReadsBack(fmt)
    requires pos + |Strftime(t, fmt)| <= |s| && s[pos..pos + |Strftime(t, fmt)|] == Strftime(t, fmt)
    ensures Scan(fmt[1..], s, pos + |RenderOne(fmt[0], t)|, Store(acc, fmt[0], FieldOf(fmt[0], t)))
         == Some((StoreAll(Store(acc, fmt[0], FieldOf(fmt[0], t)), fmt[1..], t),
                  pos + |RenderOne(fmt[0], t)| + |Strftime(t, fmt[1..])|))
    decreases |fmt|, 0
  {
    StrftimeRest(fmt, t, s, pos);
    ScanStrftime(fmt[1..], t, s, pos + |RenderOne(fmt[0], t)|, Store(acc, fmt[0], FieldOf(fmt[0], t)));
  }

  /** The printed form of all but the first directive follows the first's. */
  lemma StrftimeRest(fmt: seq<Directive>, t: Instant, s: string, pos: nat)
    requires fmt != [] && ReadsBack(fmt)
    requires pos + |Strftime(t, fmt)| <= |s| && s[pos..pos + |Strftime(t, fmt)|] == Strftime(t, fmt)
    ensures ReadsBack(fmt[1..])
    ensures pos + |RenderOne(fmt[0], t)| + |Strftime(t, fmt[1..])| <= |s|
    ensures s[pos + |RenderOne(fmt[0], t)|..pos + |RenderOne(fmt[0], t)| + |Strftime(t, fmt[1..])|]
         == Strftime(t, fmt[1..])
  {
    StrftimeCons(t, fmt);
    SliceSplit(s, pos, RenderOne(fmt[0], t), Strftime(t, fmt[1..]));
  }

  lemma StrftimeCons(t: Instant, fmt: seq<Directive>)
    requires fmt != []
    ensures Strftime(t, fmt) == RenderOne(fmt[0], t) + Strftime(t, fmt[1..])
  {
  }

  /** A format that sets every field of a time, with a four-digit year. */
  predicate SetsAll(fmt: seq<Directive>)
  {
    Year4 in fmt && Month in fmt && Day in fmt && Hour in fmt && Minute in fmt && Second in fmt
  }

  /** Each field ends up as the time's if the format sets it and as it
      started otherwise. */
  lemma {:induction false} StoreAllField(acc: DateTime, fmt: seq<Directive>, t: Instant, d: Directive)
    requires Year2 !in fmt && IsField(d) && !d.Year2?
    ensures FieldOf(d, StoreAll(acc, fmt, t)) == if d in fmt then FieldOf(d, t) else FieldOf(d, acc)
    decreases |fmt|
  {
    if fmt != [] {
      var rest := fmt[1..];
      assert fmt == [fmt[0]] + rest;
      assert d in fmt <==> d == fmt[0] || d in rest;
      StoreAllField(Store(acc, fmt[0], FieldOf(fmt[0], t)), rest, t, d);
    }
  }

  lemma StoreAllFields(acc: DateTime, fmt: seq<Directive>, t: Instant)
    requires Year2 !in fmt && SetsAll(fmt)
    ensures StoreAll(acc, fmt, t) == t
  {
    StoreAllField(acc, fmt, t, Year4);
    StoreAllField(acc, fmt, t, Month);
    StoreAllField(acc, fmt, t, Day);
    StoreAllField(acc, fmt, t, Hour);
    StoreAllField(acc, fmt, t, Minute);
    StoreAllField(acc, fmt, t, Second);
  }

  lemma {:induction false} ReadsBackNoYear2(fmt: seq<Directive>)
    requires ReadsBack(fmt)
    ensures Year2 !in fmt
    decreases |fmt|
  {
    if fmt != [] {
      assert fmt == [fmt[0]] + fmt[1..];
      ReadsBackNoYear2(fmt[1..]);
    }
  }

  /** `strptime` reads back what `strftime` printed with the same format. */
  lemma StrptimeStrftime(t: Instant, fmt: seq<Directive>)
    requires ReadsBack(fmt) && SetsAll(fmt)
    ensures Strptime(Strftime(t, fmt), fmt) == Some(t)
  {
    var s := Strftime(t, fmt);
    assert s[0..|s|] == s;
    ScanStrftime(fmt, t, s, 0, Default);
    ReadsBackNoYear2(fmt);
    StoreAllFields(Default, fmt, t);
  }

  lemma LocalSecondsReadsBack()
    ensures ReadsBack(LocalSeconds) && SetsAll(LocalSeconds)
  {
    var f := LocalSeconds;
    assert ReadsBack(f[9..]);
    assert ReadsBack(f[6..]);
    assert ReadsBack(f[3..]);
    assert ReadsBack(f[0..]);
    assert f[0..] == f;
    assert f[0] == Month && f[2] == Day && f[4] == Year4 && f[6] == Hour && f[8] == Minute && f[10] == Second;
  }

  lemma IsoFormatReadsBack()
    ensures ReadsBack(IsoFormat) && SetsAll(IsoFormat)
  {
    var f := IsoFormat;
    assert ReadsBack(f[11..]);
    assert ReadsBack(f[9..]);
    assert ReadsBack(f[6..]);
    assert ReadsBack(f[3..]);
    assert ReadsBack(f[0..]);
    assert f[0..] == f;
    assert f[0] == Year4 && f[2] == Month && f[4] == Day && f[6] == Hour && f[8] == Minute && f[10] == Second;
  }

  // ----- the shapes of printed times -----

  /** The template a format prints: '#' for each digit of a field. */
  function ShapeOne(d: Directive): string
  {
    match d
    case Lit(c) => [c]
    case Spaces => " "
    case Year4 => "####"
    case _ => "##"
  }

  function ShapeOf(fmt: seq<Directive>): string
  {
    if fmt == [] then "" else ShapeOne(fmt[0]) + ShapeOf(fmt[1..])
  }

  const LocalShape: string := "##/##/#### ##:##:##"

  lemma RenderFitsShape(d: Directive, t: Instant)
    requires d != Lit('#')
    ensures |RenderOne(d, t)| == |ShapeOne(d)| && FitsShapeAt(RenderOne(d, t), 0, ShapeOne(d))
  {
  }

  /** What `strftime` prints fits the format's template. */
  lemma {:induction false} StrftimeFitsShape(t: Instant, fmt: seq<Directive>)
    requires Lit('#') !in fmt
    ensures |Strftime(t, fmt)| == |ShapeOf(fmt)| && FitsShapeAt(Strftime(t, fmt), 0, ShapeOf(fmt))
    decreases |fmt|
  {
    if fmt != [] {
      var r0 := RenderOne(fmt[0], t);
      var rs := Strftime(t, fmt[1..]);
      var h0 := ShapeOne(fmt[0]);
      var hs := ShapeOf(fmt[1..]);
      assert fmt == [fmt[0]] + fmt[1..];
      RenderFitsShape(fmt[0], t);
      StrftimeFitsShape(t, fmt[1..]);
      var s := r0 + rs;
      var h := h0 + hs;
      forall i | 0 <= i < |h|
        ensures if h[i] == '#' then IsDigit(s[i]) else s[i] == h[i]
      {
        if i >= |h0| {
          assert h[i] == hs[i - |h0|] && s[i] == rs[i - |r0|];
        } else {
          assert h[i] == h0[i] && s[i] == r0[i];
        }
      }
    }
  }

  lemma ShapeStep(f: seq<Directive>, k: nat)
    requires k < |f|
    ensures ShapeOf(f[k..]) == ShapeOne(f[k]) + ShapeOf(f[k + 1..])
  {
    assert f[k..][1..] == f[k + 1..];
  }

  /** The template of '%Y-%m-%dT%H:%M:%SZ', one piece per directive. */
  lemma IsoShapePieces(f: seq<Directive>)
    requires |f| == 12 && f[0] == Year4 && f[1] == Lit('-') && f[2] == Month && f[3] == Lit('-')
    requires f[4] == Day && f[5] == Lit('T') && f[6] == Hour && f[7] == Lit(':')
    requires f[8] == Minute && f[9] == Lit(':') && f[10] == Second && f[11] == Lit('Z')
    ensures ShapeOf(f) == "####" + ("-" + ("##" + ("-" + ("##" + ("T" + ("##" + (":" + ("##" + (":" + ("##" + ("Z" + "")))))))))))
  {
    assert f[12..] == [];
    var p11 := "Z" + "";
    assert ShapeOf(f[11..]) == p11 by { ShapeStep(f, 11); }
    var p10 := "##" + p11;
    assert ShapeOf(f[10..]) == p10 by { ShapeStep(f, 10); }
    var p9 := ":" + p10;
    assert ShapeOf(f[9..]) == p9 by { ShapeStep(f, 9); }
    var p8 := "##" + p9;
    assert ShapeOf(f[8..]) == p8 by { ShapeStep(f, 8); }
    var p7 := ":" + p8;
    assert ShapeOf(f[7..]) == p7 by { ShapeStep(f, 7); }
    var p6 := "##" + p7;
    assert ShapeOf(f[6..]) == p6 by { ShapeStep(f, 6); }
    var p5 := "T" + p6;
    assert ShapeOf(f[5..]) == p5 by { ShapeStep(f, 5); }
    var p4 := "##" + p5;
    assert ShapeOf(f[4..]) == p4 by { ShapeStep(f, 4); }
    var p3 := "-" + p4;
    assert ShapeOf(f[3..]) == p3 by { ShapeStep(f, 3); }
    var p2 := "##" + p3;
    assert ShapeOf(f[2..]) == p2 by { ShapeStep(f, 2); }
    var p1 := "-" + p2;
    assert ShapeOf(f[1..]) == p1 by { ShapeStep(f, 1); }
    assert ShapeOf(f[0..]) == "####" + p1 by { ShapeStep(f, 0); }
    assert f[0..] == f;
  }

  lemma IsoFormatShape()
    ensures ShapeOf(IsoFormat) == IsoShape
  {
    IsoShapePieces(IsoFormat);
    IsoShapeJoined(ShapeOf(IsoFormat));
  }

  lemma IsoShapeJoined(x: string)
    requires x == "####" + ("-" + ("##" + ("-" + ("##" + ("T" + ("##" + (":" + ("##" + (":" + ("##" + ("Z" + "")))))))))))
    ensures x == IsoShape
  {
  }

  /** The template of '%m/%d/%Y %H:%M:%S', one piece per directive. */
  lemma LocalShapePieces(f: seq<Directive>)
    requires |f| == 11 && f[0] == Month && f[1] == Lit('/') && f[2] == Day && f[3] == Lit('/')
    requires f[4] == Year4 && f[5] == Spaces && f[6] == Hour && f[7] == Lit(':')
    requires f[8] == Minute && f[9] == Lit(':') && f[10] == Second
    ensures ShapeOf(f) == "##" + ("/" + ("##" + ("/" + ("####" + (" " + ("##" + (":" + ("##" + (":" + ("##" + ""))))))))))
  {
    assert f[11..] == [];
    var p10 := "##" + "";
    assert ShapeOf(f[10..]) == p10 by { ShapeStep(f, 10); }
    var p9 := ":" + p10;
    assert ShapeOf(f[9..]) == p9 by { ShapeStep(f, 9); }
    var p8 := "##" + p9;
    assert ShapeOf(f[8..]) == p8 by { ShapeStep(f, 8); }
    var p7 := ":" + p8;
    assert ShapeOf(f[7..]) == p7 by { ShapeStep(f, 7); }
    var p6 := "##" + p7;
    assert ShapeOf(f[6..]) == p6 by { ShapeStep(f, 6); }
    var p5 := " " + p6;
    assert ShapeOf(f[5..]) == p5 by { ShapeStep(f, 5); }
    var p4 := "####" + p5;
    assert ShapeOf(f[4..]) == p4 by { ShapeStep(f, 4); }
    var p3 := "/" + p4;
    assert ShapeOf(f[3..]) == p3 by { ShapeStep(f, 3); }
    var p2 := "##" + p3;
    assert ShapeOf(f[2..]) == p2 by { ShapeStep(f, 2); }
    var p1 := "/" + p2;
    assert ShapeOf(f[1..]) == p1 by { ShapeStep(f, 1); }
    assert ShapeOf(f[0..]) == "##" + p1 by { ShapeStep(f, 0); }
    assert f[0..] == f;
  }

  lemma LocalSecondsShape()
    ensures ShapeOf(LocalSeconds) == LocalShape
  {
    LocalShapePieces(LocalSeconds);
    LocalShapeJoined(ShapeOf(LocalSeconds));
  }

  lemma LocalShapeJoined(x: string)
    requires x == "##" + ("/" + ("##" + ("/" + ("####" + (" " + ("##" + (":" + ("##" + (":" + ("##" + ""))))))))))
    ensures x == LocalShape
  {
  }

  /** Text in the ISO template passes the ISO test and fails both local tests. */
  lemma IsoShapedText(s: string)
    requires FitsShapeAt(s, 0, IsoShape)
    ensures IsoPrefix(s) && !LocalPrefix(s, true) && !LocalPrefix(s, false)
  {
    assert IsoShape[1] == '#' && IsoShape[2] == '#';
    assert IsDigit(s[1]) && IsDigit(s[2]);
  }

  /** Text in the local template passes both local tests and fails the ISO test. */
  lemma LocalShapedText(s: string)
    requires FitsShapeAt(s, 0, LocalShape)
    ensures LocalPrefix(s, true) && LocalPrefix(s, false) && !IsoPrefix(s)
  {
    var h := LocalShape;
    assert h[0] == '#' && h[1] == '#' && h[2] == '/' && h[3] == '#' && h[4] == '#' && h[5] == '/';
    assert h[6] == '#' && h[7] == '#' && h[8] == '#' && h[9] == '#' && h[10] == ' ';
    assert h[11] == '#' && h[12] == '#' && h[13] == ':' && h[14] == '#' && h[15] == '#';
    assert h[16] == ':' && h[17] == '#' && h[18] == '#';
    assert DigitsThen(s, 0, '/') == Some(3);
    assert DigitsThen(s, 3, '/') == Some(6);
    assert DigitRun(s, 10) == 0;
    assert DigitRun(s, 9) == 1;
    assert DigitRun(s, 8) == 2;
    assert DigitRun(s, 7) == 3;
    assert DigitRun(s, 6) == 4;
    assert DigitsThen(s, 11, ':') == Some(14);
    assert IsoShape[4] == '-';
  }

  /** What `local_to_iso` prints is ISO text, and not local text. */
  lemma IsoTextShape(t: Instant)
    ensures |Strftime(t, IsoFormat)| == 20
    ensures IsoPrefix(Strftime(t, IsoFormat))
    ensures !LocalPrefix(Strftime(t, IsoFormat), true) && !LocalPrefix(Strftime(t, IsoFormat), false)
  {
    IsoFormatShape();
    IsoFormatNoHash();
    StrftimeFitsShape(t, IsoFormat);
    IsoShapedText(Strftime(t, IsoFormat));
  }

  lemma IsoFormatNoHash()
    ensures Lit('#') !in IsoFormat
  {
    forall i | 0 <= i < |IsoFormat|
      ensures IsoFormat[i] != Lit('#')
    {
    }
  }

  lemma LocalSecondsNoHash()
    ensures Lit('#') !in LocalSeconds
  {
    forall i | 0 <= i < |LocalSeconds|
      ensures LocalSeconds[i] != Lit('#')
    {
    }
  }

  /** What `iso_to_local` prints is local text, and not ISO text. */
  lemma LocalTextShape(t: Instant)
    ensures |Strftime(t, LocalSeconds)| == 19
    ensures LocalPrefix(Strftime(t, LocalSeconds), true) && LocalPrefix(Strftime(t, LocalSeconds), false)
    ensures !IsoPrefix(Strftime(t, LocalSeconds))
  {
    LocalSecondsShape();
    LocalSecondsNoHash();
    StrftimeFitsShape(t, LocalSeconds);
    LocalShapedText(Strftime(t, LocalSeconds));
  }

  // ----- the converters on each other's output -----

  /** `local_to_iso` leaves ISO text as it is. */
  lemma LocalToIsoKeepsIso(t: Instant, toUtc: Instant -> Instant)
    ensures LocalToIso(Text(Strftime(t, IsoFormat)), toUtc) == Ok(Strftime(t, IsoFormat))
  {
    IsoTextShape(t);
  }

  /** `iso_to_local` leaves local text as it is. */
  lemma IsoToLocalKeepsLocal(t: Instant, toLocal: Instant -> Instant)
    ensures IsoToLocal(Text(Strftime(t, LocalSeconds)), toLocal) == Ok(Strftime(t, LocalSeconds))
  {
    LocalTextShape(t);
  }

  /** `iso_to_local` reads an ISO time back and prints it shifted, in the
      first local format. */
  lemma IsoToLocalOfIso(t: Instant, toLocal: Instant -> Instant)
    ensures IsoToLocal(Text(Strftime(t, IsoFormat)), toLocal) == Ok(Strftime(toLocal(t), LocalSeconds))
  {
    IsoTextShape(t);
    IsoFormatReadsBack();
    StrptimeStrftime(t, IsoFormat);
  }

  /** `local_to_iso` reads a time in the first local format back and prints
      it shifted, with the :59 rule. */
  lemma LocalToIsoOfLocal(t: Instant, toUtc: Instant -> Instant)
    ensures LocalToIso(Text(Strftime(t, LocalSeconds)), toUtc) == Ok(Strftime(Fix59(toUtc(t)), IsoFormat))
  {
    LocalTextShape(t);
    LocalSecondsReadsBack();
    StrptimeStrftime(t, LocalSeconds);
  }

  /** Two times print the same ISO text only if they are equal. */
  lemma IsoInjective(a: Instant, b: Instant)
    requires Strftime(a, IsoFormat) == Strftime(b, IsoFormat)
    ensures a == b
  {
    IsoFormatReadsBack();
    StrptimeStrftime(a, IsoFormat);
    StrptimeStrftime(b, IsoFormat);
  }

  /** Export then import: an ISO time through `iso_to_local` and back through
      `local_to_iso`, with time-zone shifts that undo each other, comes back
      with the :59 rule applied. */
  lemma RoundTrip(t: Instant, toLocal: Instant -> Instant, toUtc: Instant -> Instant)
    requires toUtc(toLocal(t)) == t
    ensures IsoToLocal(Text(Strftime(t, IsoFormat)), toLocal).Ok?
    ensures LocalToIso(Text(IsoToLocal(Text(Strftime(t, IsoFormat)), toLocal).value), toUtc)
         == Ok(Strftime(Fix59(t), IsoFormat))
  {
    IsoToLocalOfIso(t, toLocal);
    LocalToIsoOfLocal(toLocal(t), toUtc);
  }

  /** ... and so comes back unchanged exactly when its minute is not 59 or
      its second already is. */
  lemma RoundTripExact(t: Instant, toLocal: Instant -> Instant, toUtc: Instant -> Instant)
    requires toUtc(toLocal(t)) == t
    ensures IsoToLocal(Text(Strftime(t, IsoFormat)), toLocal).Ok?
    ensures LocalToIso(Text(IsoToLocal(Text(Strftime(t, IsoFormat)), toLocal).value), toUtc)
         == Ok(Strftime(t, IsoFormat))
        <==> t.minute != 59 || t.second == 59
  {
    RoundTrip(t, toLocal, toUtc);
    Fix59Exact(t);
  }

  /** The other direction: a local text that parses comes back from UTC in
      the zero-padded first local format ("1/2/2020 3:04" becomes
      "01/02/2020 03:04:00"), provided the shifts are inverse and the UTC
      minute is not 59. */
  lemma LocalRoundTrip(s: string, t: Instant, toLocal: Instant -> Instant, toUtc: Instant -> Instant)
    requires s != "" && s != "None" && !IsoPrefix(s)
    requires ParseLocal(s) == Some(t)
    requires toLocal(toUtc(t)) == t && toUtc(t).minute != 59
    ensures LocalToIso(Text(s), toUtc) == Ok(Strftime(toUtc(t), IsoFormat))
    ensures IsoToLocal(Text(LocalToIso(Text(s), toUtc).value), toLocal) == Ok(Strftime(t, LocalSeconds))
  {
    IsoToLocalOfIso(toUtc(t), toLocal);
  }

  /** The :59 rule changes the printed time exactly when the minute is 59 and
      the second is not. */
  lemma Fix59Exact(t: Instant)
    ensures Strftime(Fix59(t), IsoFormat) == Strftime(t, IsoFormat) <==> t.minute != 59 || t.second == 59
  {
    if Strftime(Fix59(t), IsoFormat) == Strftime(t, IsoFormat) {
      IsoInjective(Fix59(t), t);
    }
  }

  /** Converting twice is converting once. */
  lemma LocalToIsoIdempotent(v: NStr, toUtc: Instant -> Instant)
    requires LocalToIso(v, toUtc).Ok?
    ensures LocalToIso(Text(LocalToIso(v, toUtc).value), toUtc) == LocalToIso(v, toUtc)
  {
    if !(v == Null || v == Text("") || v == Text("None")) && !IsoPrefix(v.s) {
      IsoTextShape(Fix59(toUtc(ParseLocal(v.s).value)));
    }
  }

  lemma IsoToLocalIdempotent(v: NStr, toLocal: Instant -> Instant)
    requires IsoToLocal(v, toLocal).Ok?
    ensures IsoToLocal(Text(IsoToLocal(v, toLocal).value), toLocal) == IsoToLocal(v, toLocal)
  {
    if !(v == Null || v == Text("") || LowerEquals(v.s, "none")) && !LocalPrefix(v.s, true) && !LocalPrefix(v.s, false) {
      var r := IsoToLocal(v, toLocal).value;
      LocalTextShape(toLocal(Strptime(v.s, IsoFormat).value));
      assert !LowerEquals(r, "none");
    }
  }

  /** A time `local_to_iso` converts reads back with second 59 whenever its
      minute is 59. */
  lemma ConvertedMinute59(v: NStr, toUtc: Instant -> Instant)
    requires v.Text? && !IsoPrefix(v.s)
    requires LocalToIso(v, toUtc).Ok? && LocalToIso(v, toUtc).value != ""
    ensures Strptime(LocalToIso(v, toUtc).value, IsoFormat).Some?
    ensures Strptime(LocalToIso(v, toUtc).value, IsoFormat).value.minute == 59
        ==> Strptime(LocalToIso(v, toUtc).value, IsoFormat).value.second == 59
  {
    var u := Fix59(toUtc(ParseLocal(v.s).value));
    IsoFormatReadsBack();
    StrptimeStrftime(u, IsoFormat);
  }

  // ----- the 'None' test of iso_to_local -----

  /** No string lower-cases to 'None', so the as-written test never fires. */
  lemma LowerNeverCapitalised(s: string)
    ensures !LowerEquals(s, "None")
  {
    if |s| == 4 {
      assert LowerChar(s[0]) != 'N';
    }
  }

  /** The text 'None' (what `str(None)` gives) is '' for `local_to_iso` and
      for the corrected `iso_to_local`, but the one as written tries to parse
      it as an ISO time and raises ValueError. */
  lemma NoneText(toUtc: Instant -> Instant, toLocal: Instant -> Instant)
    ensures LocalToIso(Text("None"), toUtc) == Ok("")
    ensures IsoToLocal(Text("None"), toLocal) == Ok("")
    ensures IsoToLocalAsWritten(Text("None"), toLocal) == Err(ValueError)
  {
    LowerNeverCapitalised("None");
    LowerEqualsIsEqualsLower("None", "none");
    assert Lower("None") == "none";
    assert "None"[0] == 'N' && Alts(Year4)[0][0] == ('0', '9');
    assert !MatchesAt("None", 0, Alts(Year4)[0]);
    assert Scan(IsoFormat, "None", 0, Default) == None;
  }

  /** Elsewhere the two agree. */
  lemma AsWrittenAgrees(v: NStr, toLocal: Instant -> Instant)
    requires !(v.Text? && LowerEquals(v.s, "none"))
    ensures IsoToLocalAsWritten(v, toLocal) == IsoToLocal(v, toLocal)
  {
    if v.Text? {
      LowerNeverCapitalised(v.s);
    }
  }
}
