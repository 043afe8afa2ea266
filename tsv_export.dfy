/** The download side: which override records an assignment keeps, and the
    tab-separated text `create_Canvas_TSV` writes, one column per lab
    section. */
module TsvExport {
  import opened Py
  import opened OrderedDict
  import opened AssignmentModel
  import opened TimeCodec

  // ----- the lab filter of getCourseAssignments -----

  /** `'lab' in override['title'].lower()`, for a record that has a title. */
  predicate LabTitled(o: Override)
  {
    o.title.Some? && IsLab(o.title.value)
  }

  function LabTitle(): Override -> bool
  {
    (o: Override) => LabTitled(o)
  }

  function OtherTitle(): Override -> bool
  {
    (o: Override) => !LabTitled(o)
  }

  /** `list.remove(v)`: drop the first element equal to `v`. */
  function RemoveFirst<T(==)>(s: seq<T>, v: T): (r: seq<T>)
    requires v in s
    ensures |r| == |s| - 1
  {
    if s[0] == v then s[1..] else [s[0]] + RemoveFirst(s[1..], v)
  }

  /** The records left after the first `k` non-lab records are removed. */
  function DropOthers(s: seq<Override>, k: nat): seq<Override>
  {
    if s == [] then []
    else if !LabTitled(s[0]) && k > 0 then DropOthers(s[1..], k - 1)
    else [s[0]] + DropOthers(s[1..], k)
  }

  lemma {:induction false} DropNoOthers(s: seq<Override>)
    ensures DropOthers(s, 0) == s
  {
    if s != [] {
      DropNoOthers(s[1..]);
      assert s == [s[0]] + s[1..];
    }
  }

  lemma {:induction false} DropAllOthers(s: seq<Override>)
    ensures DropOthers(s, |Filter(s, OtherTitle())|) == Filter(s, LabTitle())
  {
    if s != [] {
      assert s == [s[0]] + s[1..];
      FilterCons(s[0], s[1..], OtherTitle());
      FilterCons(s[0], s[1..], LabTitle());
      DropAllOthers(s[1..]);
    }
  }

  /** Removing the `k`-th non-lab record by value removes that very record:
      any equal record before it would be a non-lab record of lower rank. */
  lemma {:induction false} RemoveNextOther(s: seq<Override>, k: nat)
    requires k < |Filter(s, OtherTitle())|
    ensures Filter(s, OtherTitle())[k] in DropOthers(s, k)
    ensures RemoveFirst(DropOthers(s, k), Filter(s, OtherTitle())[k]) == DropOthers(s, k + 1)
  {
    OthersCons(s);
    if LabTitled(s[0]) {
      RemoveNextOther(s[1..], k);
      RemoveAfterLab(s, k);
    } else if k == 0 {
      RemoveFirstOther(s);
    } else {
      RemoveNextOther(s[1..], k - 1);
      RemoveAfterOther(s, k);
    }
  }

  /** The first non-lab record heads the list: removing it leaves the tail. */
  lemma RemoveFirstOther(s: seq<Override>)
    requires s != [] && !LabTitled(s[0]) && 0 < |Filter(s, OtherTitle())|
    ensures Filter(s, OtherTitle())[0] == s[0]
    ensures RemoveFirst(DropOthers(s, 0), s[0]) == DropOthers(s, 1)
  {
    OthersCons(s);
    DropNoOthers(s);
    DropNoOthers(s[1..]);
  }

  lemma RemoveAfterOther(s: seq<Override>, k: nat)
    requires s != [] && !LabTitled(s[0]) && 0 < k <= |Filter(s[1..], OtherTitle())|
    requires Filter(s[1..], OtherTitle())[k - 1] in DropOthers(s[1..], k - 1)
    requires RemoveFirst(DropOthers(s[1..], k - 1), Filter(s[1..], OtherTitle())[k - 1]) == DropOthers(s[1..], k)
    ensures k < |Filter(s, OtherTitle())|
    ensures Filter(s, OtherTitle())[k] in DropOthers(s, k)
    ensures RemoveFirst(DropOthers(s, k), Filter(s, OtherTitle())[k]) == DropOthers(s, k + 1)
  {
    OthersCons(s);
    assert DropOthers(s, k) == DropOthers(s[1..], k - 1);
  }

  lemma RemoveAfterLab(s: seq<Override>, k: nat)
    requires s != [] && LabTitled(s[0]) && k < |Filter(s[1..], OtherTitle())|
    requires Filter(s[1..], OtherTitle())[k] in DropOthers(s[1..], k)
    requires RemoveFirst(DropOthers(s[1..], k), Filter(s[1..], OtherTitle())[k]) == DropOthers(s[1..], k + 1)
    ensures k < |Filter(s, OtherTitle())|
    ensures Filter(s, OtherTitle())[k] in DropOthers(s, k)
    ensures RemoveFirst(DropOthers(s, k), Filter(s, OtherTitle())[k]) == DropOthers(s, k + 1)
  {
    OthersCons(s);
    OtherIsNotLab(s[1..], k);
    RemoveFirstCons(s[0], DropOthers(s[1..], k), Filter(s[1..], OtherTitle())[k]);
  }

  lemma RemoveFirstCons<T>(x: T, d: seq<T>, v: T)
    requires x != v && v in d
    ensures RemoveFirst([x] + d, v) == [x] + RemoveFirst(d, v)
  {
    assert ([x] + d)[1..] == d;
  }

  /** `Filter` read from the front. */
  lemma OthersCons(s: seq<Override>)
    requires s != []
    ensures Filter(s, OtherTitle()) == (if LabTitled(s[0]) then [] else [s[0]]) + Filter(s[1..], OtherTitle())
  {
    assert s == [s[0]] + s[1..];
    FilterCons(s[0], s[1..], OtherTitle());
  }

  lemma OtherIsNotLab(s: seq<Override>, k: nat)
    requires k < |Filter(s, OtherTitle())|
    ensures !LabTitled(Filter(s, OtherTitle())[k])
  {
    FilterMembers(s, OtherTitle());
    assert Filter(s, OtherTitle())[k] in Filter(s, OtherTitle());
  }

  /** Every record has a 'title'. */
  predicate AllTitled(overrides: seq<Override>)
  {
    forall j :: 0 <= j < |overrides| ==> overrides[j].title.Some?
  }

  /** The override loop of `getCourseAssignments`: collect the records whose
      title does not mention a lab, then remove each of them from the list.
      A record without a 'title' raises KeyError in the first loop. */
  method KeepLabOverrides(overrides: seq<Override>) returns (r: Result<seq<Override>>)
    ensures r == if AllTitled(overrides) then Ok(Filter(overrides, LabTitle())) else Err(KeyError)
  {
    var removeList: seq<Override> := [];
    var i := 0;
    while i < |overrides|
      invariant 0 <= i <= |overrides|
      invariant forall j :: 0 <= j < i ==> overrides[j].title.Some?
      invariant removeList == Filter(overrides[..i], OtherTitle())
    {
      PrefixStep(overrides, i);
      if overrides[i].title.None? {
        return Err(KeyError);
      }
      if !LabTitled(overrides[i]) {
        removeList := removeList + [overrides[i]];
      }
      i := i + 1;
    }
    PrefixWhole(overrides);
    var kept := overrides;
    DropNoOthers(overrides);
    var k := 0;
    while k < |removeList|
      invariant 0 <= k <= |removeList|
      invariant kept == DropOthers(overrides, k)
    {
      RemoveNextOther(overrides, k);
      kept := RemoveFirst(kept, removeList[k]);
      k := k + 1;
    }
    DropAllOthers(overrides);
    r := Ok(kept);
  }

  /** What is kept: exactly the records whose title mentions a lab, in order. */
  lemma LabOverridesKept(overrides: seq<Override>)
    ensures forall o :: o in Filter(overrides, LabTitle()) <==> o in overrides && LabTitled(o)
    ensures |Filter(overrides, LabTitle())| + |Filter(overrides, OtherTitle())| == |overrides|
  {
    FilterMembers(overrides, LabTitle());
    FilterSplit(overrides);
  }

  lemma {:induction false} FilterSplit(s: seq<Override>)
    ensures |Filter(s, LabTitle())| + |Filter(s, OtherTitle())| == |s|
  {
    if s != [] {
      FilterSplit(s[..|s| - 1]);
    }
  }

  // ----- the columns of the spreadsheet -----

  function Names(secs: seq<Section>): (r: seq<string>)
    ensures |r| == |secs| && forall i :: 0 <= i < |secs| ==> r[i] == secs[i].name
  {
    seq(|secs|, i requires 0 <= i < |secs| => secs[i].name)
  }

  function SectionKeys(secs: seq<Section>): (r: seq<Key>)
    ensures |r| == |secs| && forall i :: 0 <= i < |secs| ==> r[i] == IntKey(secs[i].id)
  {
    seq(|secs|, i requires 0 <= i < |secs| => IntKey(secs[i].id))
  }

  const FixedHeaders: seq<string> := ["Available from", "Available until", "Published", "Muted", "Canvas ID"]
  const FixedKeys: seq<Key> := [StrKey("unlock_at"), StrKey("lock_at"), StrKey("published"), StrKey("muted"), StrKey("id")]

  /** 'Title', one column per lab section, then the fixed columns. */
  function Headers(labs: seq<Section>): seq<string>
  {
    ["Title"] + Names(labs) + FixedHeaders
  }

  /** The `get` key behind each column, position by position. */
  function KeyList(labs: seq<Section>): seq<Key>
  {
    [StrKey("name")] + SectionKeys(labs) + FixedKeys
  }

  // ----- cells -----

  /** The keys the spreadsheet asks for. */
  predicate ExportKey(k: Key)
  {
    k.IntKey? || k in [StrKey("name")] + FixedKeys
  }

  lemma {:induction false} KeyListExportKeys(labs: seq<Section>)
    ensures |KeyList(labs)| == |Headers(labs)|
    ensures forall k | k in KeyList(labs) :: ExportKey(k)
  {
  }

  /** None of these keys reaches the overrides list. */
  lemma ExportKeyValue(a: Assignment, k: Key)
    requires ExportKey(k)
    ensures Get(a, k).Ok? ==> !Get(a, k).value.OverrideList?
  {
    if k.StrKey? {
      var s := k.s;
      assert s in ["name", "unlock_at", "lock_at", "published", "muted", "id"];
      if s == "name" || s == "id" {
        RouteOfFieldNames();
      } else if s == "published" || s == "muted" {
        RouteOfFlagKeys();
      } else {
        RouteOfApiDateKeys();
      }
      NotOverridesField(a, s);
    }
  }

  lemma NotOverridesField(a: Assignment, s: string)
    requires Route(s) != Some(OverridesField)
    ensures Get(a, StrKey(s)).Ok? ==> !Get(a, StrKey(s)).value.OverrideList?
  {
  }

  /** Python `str(v)`. */
  function PyStr(v: Value): string
    requires !v.OverrideList?
  {
    match v
    case Str(s) => s
    case NoneValue => "None"
    case Int(i) => IntStr(i)
    case Bool(b) => if b then "True" else "False"
  }

  /** `re.search(datetime_pattern, s)`: an ISO time somewhere from `i` on. */
  predicate IsoFrom(s: string, i: nat)
    decreases |s| - i
  {
    i + |IsoShape| <= |s| && (FitsShapeAt(s, i, IsoShape) || IsoFrom(s, i + 1))
  }

  predicate HasIso(s: string)
  {
    IsoFrom(s, 0)
  }

  /** One cell: `str()` of the value, '' for any spelling of 'none', and a
      text holding an ISO time handed to `iso_to_local`. */
  function Cell(v: Value, toLocal: Instant -> Instant): Result<string>
    requires !v.OverrideList?
  {
    var text := PyStr(v);
    var t := if LowerEquals(text, "none") then "" else text;
    if HasIso(t) then IsoToLocal(Text(t), toLocal) else Ok(t)
  }

  /** The export is the same with `iso_to_local` as written: the text it
      converts holds a whole ISO time, so it never reads as 'none', the one
      input on which the two converters differ. */
  lemma CellAsWritten(v: Value, toLocal: Instant -> Instant)
    requires !v.OverrideList?
    ensures var text := PyStr(v);
            var t := if LowerEquals(text, "none") then "" else text;
            Cell(v, toLocal) == if HasIso(t) then IsoToLocalAsWritten(Text(t), toLocal) else Ok(t)
  {
    var text := PyStr(v);
    var t := if LowerEquals(text, "none") then "" else text;
    if HasIso(t) {
      assert |t| >= |IsoShape|;
      AsWrittenAgrees(Text(t), toLocal);
    }
  }

  /** The cell of the column whose key is `k`; `get` may raise KeyError. */
  function CellAt(a: Assignment, k: Key, toLocal: Instant -> Instant): Result<string>
    requires ExportKey(k)
  {
    var v :- Get(a, k);
    ExportKeyValue(a, k);
    Cell(v, toLocal)
  }

  predicate ExportColumns(hs: seq<string>, hk: Dict<string, Key>)
  {
    forall h | h in hs :: h in hk.vals && ExportKey(hk.vals[h])
  }

  lemma ExportColumnsPrefix(hs: seq<string>, hk: Dict<string, Key>, n: nat)
    requires ExportColumns(hs, hk) && n <= |hs|
    ensures ExportColumns(hs[..n], hk)
  {
    assert forall h | h in hs[..n] :: h in hs;
  }

  /** The cells of one row, left to right; the first failing cell ends it. */
  function RowCells(a: Assignment, hs: seq<string>, hk: Dict<string, Key>, toLocal: Instant -> Instant)
    : (r: Result<seq<string>>)
    requires ExportColumns(hs, hk)
    ensures r.Ok? ==> |r.value| == |hs|
  {
    if hs == [] then Ok([])
    else
      var init :- RowCells(a, hs[..|hs| - 1], hk, toLocal);
      var c :- CellAt(a, hk.vals[hs[|hs| - 1]], toLocal);
      Ok(init + [c])
  }

  // ----- lines -----

  /** `for c in cells: string += c + '\t'` */
  function TabTerminated(cells: seq<string>): (r: string)
    ensures cells != [] ==> |r| > 0 && r[|r| - 1] == '\t'
  {
    if cells == [] then "" else TabTerminated(cells[..|cells| - 1]) + cells[|cells| - 1] + "\t"
  }

  /** `string[:-1] + '\n'` after the cells of one line. */
  function Line(cells: seq<string>): string
    requires cells != []
  {
    var t := TabTerminated(cells);
    t[..|t| - 1] + "\n"
  }

  /** The rows, one line per assignment. */
  function Rows(rows: seq<Assignment>, hs: seq<string>, hk: Dict<string, Key>, toLocal: Instant -> Instant)
    : Result<string>
    requires hs != [] && ExportColumns(hs, hk)
  {
    if rows == [] then Ok("")
    else
      var prev :- Rows(rows[..|rows| - 1], hs, hk, toLocal);
      var cells :- RowCells(rows[|rows| - 1], hs, hk, toLocal);
      Ok(prev + Line(cells))
  }

  /** Every column of the spreadsheet has an exporting key. */
  lemma ExportColumnsOf(labs: seq<Section>)
    ensures ExportColumns(Headers(labs), Zip(Headers(labs), KeyList(labs)))
  {
    var hs := Headers(labs);
    var ks := KeyList(labs);
    KeyListExportKeys(labs);
    ZipLastWins(hs, ks);
    forall h | h in hs
      ensures ExportKey(Zip(hs, ks).vals[h])
    {
      assert ks[LastIndex(hs, h)] in ks;
    }
  }

  /** The text `create_Canvas_TSV` writes: the header line, then a line per
      assignment; the first failing cell raises instead. */
  function TsvText(sections: seq<Section>, assignments: seq<Assignment>, toLocal: Instant -> Instant)
    : Result<string>
  {
    var labs := LabSections(sections);
    var hs := Headers(labs);
    var hk := Zip(hs, KeyList(labs));
    ExportColumnsOf(labs);
    var body :- Rows(assignments, hs, hk, toLocal);
    Ok(Line(hs) + body)
  }

  // ----- create_Canvas_TSV, step by step -----

  lemma {:induction false} RowCellsErrSticky(a: Assignment, hs: seq<string>, hk: Dict<string, Key>,
                                             toLocal: Instant -> Instant, n: nat)
    requires ExportColumns(hs, hk) && n <= |hs|
    requires ExportColumns(hs[..n], hk)
    requires RowCells(a, hs[..n], hk, toLocal).Err?
    ensures RowCells(a, hs, hk, toLocal) == RowCells(a, hs[..n], hk, toLocal)
    decreases |hs| - n
  {
    if n < |hs| {
      PrefixStep(hs, n);
      ExportColumnsPrefix(hs, hk, n + 1);
      RowCellsErrSticky(a, hs, hk, toLocal, n + 1);
    } else {
      PrefixWhole(hs);
    }
  }

  lemma {:induction false} RowsErrSticky(rows: seq<Assignment>, hs: seq<string>, hk: Dict<string, Key>,
                                         toLocal: Instant -> Instant, n: nat)
    requires hs != [] && ExportColumns(hs, hk) && n <= |rows|
    requires Rows(rows[..n], hs, hk, toLocal).Err?
    ensures Rows(rows, hs, hk, toLocal) == Rows(rows[..n], hs, hk, toLocal)
    decreases |rows| - n
  {
    if n < |rows| {
      PrefixStep(rows, n);
      RowsErrSticky(rows, hs, hk, toLocal, n + 1);
    } else {
      PrefixWhole(rows);
    }
  }

  lemma RowCellsStep(a: Assignment, hs: seq<string>, hk: Dict<string, Key>, toLocal: Instant -> Instant, j: nat)
    requires ExportColumns(hs, hk) && j < |hs|
    requires ExportColumns(hs[..j], hk) && ExportColumns(hs[..j + 1], hk)
    requires RowCells(a, hs[..j], hk, toLocal).Ok?
    requires CellAt(a, hk.vals[hs[j]], toLocal).Ok?
    ensures RowCells(a, hs[..j + 1], hk, toLocal)
         == Ok(RowCells(a, hs[..j], hk, toLocal).value + [CellAt(a, hk.vals[hs[j]], toLocal).value])
  {
    PrefixStep(hs, j);
  }

  lemma TabTerminatedSnoc(cells: seq<string>, c: string)
    ensures TabTerminated(cells + [c]) == TabTerminated(cells) + (c + "\t")
  {
    assert (cells + [c])[..|cells|] == cells;
  }

  lemma RowsStep(rows: seq<Assignment>, hs: seq<string>, hk: Dict<string, Key>, toLocal: Instant -> Instant, n: nat)
    requires hs != [] && ExportColumns(hs, hk) && n < |rows|
    requires Rows(rows[..n], hs, hk, toLocal).Ok? && RowCells(rows[n], hs, hk, toLocal).Ok?
    ensures Rows(rows[..n + 1], hs, hk, toLocal)
         == Ok(Rows(rows[..n], hs, hk, toLocal).value + Line(RowCells(rows[n], hs, hk, toLocal).value))
  {
    PrefixStep(rows, n);
  }

  lemma AppendAssoc(x: string, y: string, z: string)
    ensures (x + y) + z == x + (y + z)
  {
  }

  /** Closing a line: dropping the last tab of the text written so far. */
  lemma CloseLine(prefix: string, cells: seq<string>, s: string)
    requires cells != [] && s == prefix + TabTerminated(cells)
    ensures |s| > 0 && s[..|s| - 1] + "\n" == prefix + Line(cells)
  {
    var t := TabTerminated(cells);
    assert s[..|s| - 1] == prefix + t[..|t| - 1];
  }

  method LabColumns(sections: seq<Section>) returns (sectionNames: seq<string>, sectionKeys: seq<Key>)
    ensures sectionNames == Names(LabSections(sections))
    ensures sectionKeys == SectionKeys(LabSections(sections))
  {
    sectionNames := [];
    sectionKeys := [];
    var i := 0;
    while i < |sections|
      invariant 0 <= i <= |sections|
      invariant sectionNames == Names(LabSections(sections[..i]))
      invariant sectionKeys == SectionKeys(LabSections(sections[..i]))
    {
      PrefixStep(sections, i);
      if IsLab(sections[i].name) {
        sectionNames := sectionNames + [sections[i].name];
        sectionKeys := sectionKeys + [IntKey(sections[i].id)];
      }
      i := i + 1;
    }
    PrefixWhole(sections);
  }

  /** `for x in range(len(headers)): headerKeys[headers[x]] = keys[x]` */
  method BuildHeaderKeys(hs: seq<string>, ks: seq<Key>) returns (hk: Dict<string, Key>)
    requires |hs| == |ks|
    ensures hk == Zip(hs, ks)
  {
    hk := Empty();
    var x := 0;
    while x < |hs|
      invariant 0 <= x <= |hs|
      invariant hk == Zip(hs[..x], ks[..x])
    {
      assert hs[..x + 1][..x] == hs[..x] && ks[..x + 1][..x] == ks[..x];
      hk := Put(hk, hs[x], ks[x]);
      x := x + 1;
    }
    assert hs[..x] == hs && ks[..x] == ks;
  }

  /** The header loop: each header and a tab, then the last tab becomes a newline. */
  method HeaderLine(hs: seq<string>) returns (line: string)
    requires hs != []
    ensures line == Line(hs)
  {
    line := "";
    var j := 0;
    while j < |hs|
      invariant 0 <= j <= |hs|
      invariant line == TabTerminated(hs[..j])
    {
      PrefixStep(hs, j);
      line := line + hs[j] + "\t";
      j := j + 1;
    }
    PrefixWhole(hs);
    assert line == "" + TabTerminated(hs);
    CloseLine("", hs, line);
    line := line[..|line| - 1] + "\n";
  }

  /** The inner loop for one assignment, appending to the text so far. */
  method AppendRow(text: string, a: Assignment, hs: seq<string>, hk: Dict<string, Key>, toLocal: Instant -> Instant)
    returns (r: Result<string>)
    requires hs != [] && ExportColumns(hs, hk)
    ensures RowCells(a, hs, hk, toLocal).Err? ==> r == Err(RowCells(a, hs, hk, toLocal).error)
    ensures RowCells(a, hs, hk, toLocal).Ok? ==> r == Ok(text + Line(RowCells(a, hs, hk, toLocal).value))
  {
    var s := text;
    ghost var cells: seq<string> := [];
    var j := 0;
    while j < |hs|
      invariant 0 <= j <= |hs|
      invariant ExportColumns(hs[..j], hk)
      invariant RowCells(a, hs[..j], hk, toLocal) == Ok(cells)
      invariant s == text + TabTerminated(cells)
    {
      var c := CellAt(a, hk.vals[hs[j]], toLocal);
      ExportColumnsPrefix(hs, hk, j + 1);
      if c.Err? {
        CellErr(a, hs, hk, toLocal, j);
        r := Err(c.error);
        return;
      }
      AppendRowStep(text, a, hs, hk, toLocal, j, cells, s, c.value);
      s := s + (c.value + "\t");
      cells := cells + [c.value];
      j := j + 1;
    }
    PrefixWhole(hs);
    CloseLine(text, cells, s);
    r := Ok(s[..|s| - 1] + "\n");
    assert RowCells(a, hs, hk, toLocal) == Ok(cells);
  }

  /** One pass of the inner loop keeps the text and the cells in step. */
  lemma AppendRowStep(text: string, a: Assignment, hs: seq<string>, hk: Dict<string, Key>,
                      toLocal: Instant -> Instant, j: nat, cells: seq<string>, s: string, c: string)
    requires ExportColumns(hs, hk) && j < |hs|
    requires ExportColumns(hs[..j], hk) && ExportColumns(hs[..j + 1], hk)
    requires RowCells(a, hs[..j], hk, toLocal) == Ok(cells)
    requires CellAt(a, hk.vals[hs[j]], toLocal) == Ok(c)
    requires s == text + TabTerminated(cells)
    ensures RowCells(a, hs[..j + 1], hk, toLocal) == Ok(cells + [c])
    ensures s + (c + "\t") == text + TabTerminated(cells + [c])
  {
    RowCellsStep(a, hs, hk, toLocal, j);
    TabTerminatedSnoc(cells, c);
    AppendAssoc(text, TabTerminated(cells), c + "\t");
  }

  /** A failing cell makes the whole row fail with its exception. */
  lemma CellErr(a: Assignment, hs: seq<string>, hk: Dict<string, Key>, toLocal: Instant -> Instant, j: nat)
    requires ExportColumns(hs, hk) && j < |hs|
    requires ExportColumns(hs[..j], hk) && ExportColumns(hs[..j + 1], hk)
    requires RowCells(a, hs[..j], hk, toLocal).Ok?
    requires CellAt(a, hk.vals[hs[j]], toLocal).Err?
    ensures RowCells(a, hs, hk, toLocal) == Err(CellAt(a, hk.vals[hs[j]], toLocal).error)
  {
    PrefixStep(hs, j);
    RowCellsErrSticky(a, hs, hk, toLocal, j + 1);
  }

  /** `create_Canvas_TSV(canvas, assignmentList, filename)` up to writing the
      file: the text it writes, or the exception it raises. */
  method CreateTsv(sections: seq<Section>, assignmentList: seq<Assignment>, toLocal: Instant -> Instant)
    returns (r: Result<string>)
    ensures r == TsvText(sections, assignmentList, toLocal)
  {
    var sectionNames, sectionKeys := LabColumns(sections);
    var headers := ["Title"] + sectionNames + FixedHeaders;
    var keys := [StrKey("name")] + sectionKeys + FixedKeys;
    ghost var labs := LabSections(sections);
    assert headers == Headers(labs) && keys == KeyList(labs);
    var headerKeys := BuildHeaderKeys(headers, keys);
    ExportColumnsOf(labs);
    var head := HeaderLine(headers);
    r := AppendRows(head, assignmentList, headers, headerKeys, toLocal);
  }

  /** The outer loop: one line per assignment after the header line. */
  method AppendRows(head: string, rows: seq<Assignment>, hs: seq<string>, hk: Dict<string, Key>,
                    toLocal: Instant -> Instant) returns (r: Result<string>)
    requires hs != [] && ExportColumns(hs, hk)
    ensures r == (match Rows(rows, hs, hk, toLocal)
                  case Err(e) => Err(e)
                  case Ok(body) => Ok(head + body))
  {
    var text := head;
    ghost var body := "";
    var n := 0;
    while n < |rows|
      invariant 0 <= n <= |rows|
      invariant Rows(rows[..n], hs, hk, toLocal) == Ok(body)
      invariant text == head + body
    {
      var next := AppendRow(text, rows[n], hs, hk, toLocal);
      if next.Err? {
        RowErr(rows, hs, hk, toLocal, n);
        return Err(next.error);
      }
      ghost var line := Line(RowCells(rows[n], hs, hk, toLocal).value);
      RowsStep(rows, hs, hk, toLocal, n);
      AppendAssoc(head, body, line);
      text := next.value;
      body := body + line;
      n := n + 1;
    }
    PrefixWhole(rows);
    r := Ok(text);
  }

  /** A failing row makes the whole text fail with its exception. */
  lemma RowErr(rows: seq<Assignment>, hs: seq<string>, hk: Dict<string, Key>, toLocal: Instant -> Instant, n: nat)
    requires hs != [] && ExportColumns(hs, hk) && n < |rows|
    requires Rows(rows[..n], hs, hk, toLocal).Ok?
    requires RowCells(rows[n], hs, hk, toLocal).Err?
    ensures Rows(rows, hs, hk, toLocal) == Err(RowCells(rows[n], hs, hk, toLocal).error)
  {
    PrefixStep(rows, n);
    RowsErrSticky(rows, hs, hk, toLocal, n + 1);
  }

  // ----- reading a line back -----

  /** '\t'.join(cells) */
  function Join(cells: seq<string>): string
    requires cells != []
  {
    if |cells| == 1 then cells[0] else cells[0] + "\t" + Join(cells[1..])
  }

  lemma {:induction false} JoinSnoc(cells: seq<string>, c: string)
    requires cells != []
    ensures Join(cells + [c]) == Join(cells) + "\t" + c
  {
    var s := cells + [c];
    if |cells| > 1 {
      assert s[1..] == cells[1..] + [c];
      JoinSnoc(cells[1..], c);
    }
  }

  lemma {:induction false} TabTerminatedIsJoin(cells: seq<string>)
    requires cells != []
    ensures TabTerminated(cells) == Join(cells) + "\t"
  {
    if |cells| == 1 {
      assert cells[..0] == [];
    } else {
      var init := cells[..|cells| - 1];
      TabTerminatedIsJoin(init);
      JoinSnoc(init, cells[|cells| - 1]);
      assert init + [cells[|cells| - 1]] == cells;
    }
  }

  /** A written line is its cells joined by tabs, then a newline. */
  lemma LineIsJoin(cells: seq<string>)
    requires cells != []
    ensures Line(cells) == Join(cells) + "\n"
  {
    TabTerminatedIsJoin(cells);
    var j := Join(cells);
    assert (j + "\t")[..|j|] == j;
  }

  /** The position of the first tab in `s`, or |s| when there is none. */
  function TabIndex(s: string): (i: nat)
    ensures i <= |s|
    ensures forall j :: 0 <= j < i ==> s[j] != '\t'
    ensures i < |s| ==> s[i] == '\t'
  {
    if s == [] || s[0] == '\t' then 0 else 1 + TabIndex(s[1..])
  }

  /** `s.split('\t')`: the fields a tab-delimited reader finds in a line
      without its newline. */
  function Split(s: string): (r: seq<string>)
    ensures |r| >= 1
    decreases |s|
  {
    var i := TabIndex(s);
    if i == |s| then [s] else [s[..i]] + Split(s[i + 1..])
  }

  lemma FirstTab(c: string, rest: string)
    requires '\t' !in c
    ensures TabIndex(c + rest) >= |c|
  {
    assert forall j :: 0 <= j < |c| ==> (c + rest)[j] == c[j];
  }

  /** Reading a written line gives its cells back, as long as no cell holds
      a tab. */
  lemma {:induction false} SplitJoin(cells: seq<string>)
    requires cells != [] && forall c | c in cells :: '\t' !in c
    ensures Split(Join(cells)) == cells
  {
    var c := cells[0];
    assert c in cells;
    if |cells| == 1 {
      FirstTab(c, "");
      assert c + "" == c;
    } else {
      var rest := cells[1..];
      assert forall x | x in rest :: x in cells;
      SplitJoin(rest);
      SplitCons(c, Join(rest));
    }
  }

  /** A tab-free first field is split off at the first tab. */
  lemma SplitCons(c: string, t: string)
    requires '\t' !in c
    ensures Split(c + "\t" + t) == [c] + Split(t)
  {
    var s := c + "\t" + t;
    assert s == c + ("\t" + t);
    FirstTab(c, "\t" + t);
    assert s[|c|] == '\t';
    assert TabIndex(s) == |c|;
    assert s[..|c|] == c;
    assert s[|c| + 1..] == t;
  }

  lemma ReadLine(cells: seq<string>)
    requires cells != [] && forall c | c in cells :: '\t' !in c
    ensures var l := Line(cells); |l| > 0 && l[|l| - 1] == '\n' && Split(l[..|l| - 1]) == cells
  {
    LineIsJoin(cells);
    var j := Join(cells);
    assert (j + "\n")[..|j|] == j;
    SplitJoin(cells);
  }

  // ----- what the cells hold -----

  lemma {:induction false} NoIsoWithoutT(s: string, i: nat)
    requires forall j :: 0 <= j < |s| ==> s[j] != 'T'
    ensures !IsoFrom(s, i)
    decreases |s| - i
  {
    if i + |IsoShape| <= |s| {
      assert IsoShape[10] == 'T';
      NoIsoWithoutT(s, i + 1);
    }
  }

  lemma IntStrChars(i: int)
    ensures forall j :: 0 <= j < |IntStr(i)| ==> IntStr(i)[j] == '-' || IsDigit(IntStr(i)[j])
  {
    if i < 0 {
      var d := NatStr(-i);
      assert forall j :: 0 <= j < |d| ==> IsDigit(d[j]);
      assert forall j :: 1 <= j < |IntStr(i)| ==> IntStr(i)[j] == d[j - 1];
    }
  }

  /** A number is written as its decimal text, which `int()` reads back. */
  lemma CellOfInt(i: int, toLocal: Instant -> Instant)
    ensures Cell(Int(i), toLocal) == Ok(IntStr(i))
    ensures ParseInt(Cell(Int(i), toLocal).value) == Ok(i)
  {
    assert Cell(Int(i), toLocal) == Ok(IntStr(i)) by {
      IntStrChars(i);
      CellOfNumberText(Int(i), IntStr(i), toLocal);
    }
    ParseIntOfIntStr(i);
  }

  /** Text made of signs and digits is neither 'None' nor a date. */
  lemma CellOfNumberText(v: Value, s: string, toLocal: Instant -> Instant)
    requires !v.OverrideList? && PyStr(v) == s && s != []
    requires forall j :: 0 <= j < |s| ==> s[j] == '-' || IsDigit(s[j])
    ensures Cell(v, toLocal) == Ok(s)
  {
    NoIsoWithoutT(s, 0);
    assert LowerChar(s[0]) != 'n';
    assert !LowerEquals(s, "none");
  }

  /** A missing date, or a value whose text is 'None', is written as ''. */
  lemma CellOfBlank(toLocal: Instant -> Instant)
    ensures Cell(Str(""), toLocal) == Ok("")
    ensures Cell(NoneValue, toLocal) == Ok("")
    ensures Cell(Str("None"), toLocal) == Ok("")
  {
    LowerEqualsIsEqualsLower("None", "none");
    assert Lower("None") == "none";
  }

  /** An ISO date is written as the local time it stands for. */
  lemma CellOfIsoDate(t: Instant, toLocal: Instant -> Instant)
    ensures Cell(Str(Strftime(t, IsoFormat)), toLocal) == Ok(Strftime(toLocal(t), LocalSeconds))
  {
    IsoTextShape(t);
    IsoToLocalOfIso(t, toLocal);
    assert HasIso(Strftime(t, IsoFormat));
  }

  /** No written cell reads as 'none' in any spelling. */
  lemma CellNeverNone(v: Value, toLocal: Instant -> Instant)
    requires !v.OverrideList?
    ensures Cell(v, toLocal).Ok? ==> !LowerEquals(Cell(v, toLocal).value, "none")
  {
    var text := PyStr(v);
    var t := if LowerEquals(text, "none") then "" else text;
    if HasIso(t) && !(LocalPrefix(t, true) || LocalPrefix(t, false)) {
      var p := Strptime(t, IsoFormat);
      if p.Some? {
        LocalTextShape(toLocal(p.value));
      }
    }
  }
}
