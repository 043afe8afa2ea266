/** The upload half of the synchroniser: reading the spreadsheet's header
    row, finding each lab section's column, turning a data row into the
    record `compare` is given (equal section dates collapse into one due
    date), and the requests issued when that record differs from the
    assignment on the server. */
module UploadPlan {
  import opened Py
  import opened OrderedDict
  import opened CanvasClient
  import opened AssignmentModel
  import opened Compare
  import opened TimeCodec
  import TsvExport

  // ----- the header row -----

  /** `range(n)` */
  function Range(n: nat): (r: seq<nat>)
    ensures |r| == n && forall i :: 0 <= i < n ==> r[i] == i
  {
    seq(n, i requires 0 <= i < n => i)
  }

  /** `getHeaders(row)`: `headerCol[entry] = idx` for each column in turn. */
  method GetHeaders(row: seq<string>) returns (headerCol: Dict<string, nat>)
    ensures headerCol == Zip(row, Range(|row|))
  {
    ghost var cols := Range(|row|);
    headerCol := Empty();
    var idx := 0;
    while idx < |row|
      invariant 0 <= idx <= |row|
      invariant headerCol == Zip(row[..idx], cols[..idx])
    {
      ZipPrefixStep(row, cols, idx);
      headerCol := Put(headerCol, row[idx], idx);
      idx := idx + 1;
    }
    PrefixWhole(row);
    PrefixWhole(cols);
  }

  /** Every header of the row has a column, which holds that header, and no
      later column does: a repeated header keeps its last column. Without
      repeats the headers keep the row's order. */
  lemma HeaderColumns(row: seq<string>)
    ensures forall h :: h in Zip(row, Range(|row|)).vals <==> h in row
    ensures forall h | h in row :: var c := Zip(row, Range(|row|)).vals[h];
      c < |row| && row[c] == h && forall c' :: c < c' < |row| ==> row[c'] != h
    ensures Distinct(row) ==> Zip(row, Range(|row|)).keys == row
  {
    ZipLastWins(row, Range(|row|));
    if Distinct(row) {
      ZipDistinctKeys(row, Range(|row|));
    }
  }

  // ----- the lab sections -----

  /** `sectionDict`: each lab section's id mapped to its name. */
  function SectionDict(sections: seq<Section>): Dict<int, string>
  {
    var labs := LabSections(sections);
    Zip(Ids(labs), TsvExport.Names(labs))
  }

  lemma {:induction false} LabSectionsDistinctIds(sections: seq<Section>)
    requires DistinctIds(sections)
    ensures DistinctIds(LabSections(sections))
  {
    if sections != [] {
      var init := sections[..|sections| - 1];
      var last := sections[|sections| - 1];
      LabSectionsDistinctIds(init);
      LabSectionsSelect(init);
      var labs := LabSections(init);
      forall i | 0 <= i < |labs|
        ensures labs[i].id != last.id
      {
        assert labs[i] in init;
        var j :| 0 <= j < |init| && init[j] == labs[i];
        assert sections[j] == labs[i];
      }
    }
  }

  /** With distinct section ids, the rows are read for the lab sections in
      the course's order. */
  lemma SectionDictKeys(sections: seq<Section>)
    requires DistinctIds(sections)
    ensures SectionDict(sections).keys == Ids(LabSections(sections))
  {
    var labs := LabSections(sections);
    LabSectionsDistinctIds(sections);
    ZipDistinctKeys(Ids(labs), TsvExport.Names(labs));
  }

  // ----- matching sections to columns, as the source does -----

  /** The id of the first course section whose name occurs in `header`. */
  function FirstSectionIn(sections: seq<Section>, header: string): Option<int>
  {
    if sections == [] then None
    else if Contains(header, sections[0].name) then Some(sections[0].id)
    else FirstSectionIn(sections[1..], header)
  }

  /** No section matches exactly when no name occurs in the header; a match
      is the first section whose name does. */
  lemma {:induction false} FirstSectionInSpec(sections: seq<Section>, header: string)
    ensures FirstSectionIn(sections, header).None? <==> forall i :: 0 <= i < |sections| ==> !Contains(header, sections[i].name)
    ensures FirstSectionIn(sections, header).Some? ==> exists i :: (0 <= i < |sections|
      && sections[i].id == FirstSectionIn(sections, header).value
      && Contains(header, sections[i].name) && forall j :: 0 <= j < i ==> !Contains(header, sections[j].name))
  {
    if sections != [] && !Contains(header, sections[0].name) {
      FirstSectionInSpec(sections[1..], header);
      assert forall i :: 1 <= i < |sections| ==> sections[i] == sections[1..][i - 1];
      if FirstSectionIn(sections, header).Some? {
        var i :| 0 <= i < |sections| - 1 && sections[1..][i].id == FirstSectionIn(sections, header).value
          && Contains(header, sections[1..][i].name) && forall j :: 0 <= j < i ==> !Contains(header, sections[1..][j].name);
        assert sections[i + 1].id == FirstSectionIn(sections, header).value;
      }
    }
  }

  /** `sectionHeaders` as written: every header, numbered by its position
      among the distinct headers, goes to the first course section whose
      name is a substring of it, and a later header overwrites. */
  function MatchAsWritten(headers: seq<string>, sections: seq<Section>): Dict<int, nat>
  {
    if headers == [] then Empty()
    else
      var d := MatchAsWritten(headers[..|headers| - 1], sections);
      match FirstSectionIn(sections, headers[|headers| - 1])
      case None => d
      case Some(id) => Put(d, id, |headers| - 1)
  }

  method SectionHeadersAsWritten(headerCol: Dict<string, nat>, sections: seq<Section>)
    returns (sectionHeaders: Dict<int, nat>)
    ensures sectionHeaders == MatchAsWritten(headerCol.keys, sections)
  {
    var headers := headerCol.keys;
    sectionHeaders := Empty();
    var idx := 0;
    while idx < |headers|
      invariant 0 <= idx <= |headers|
      invariant sectionHeaders == MatchAsWritten(headers[..idx], sections)
    {
      PrefixStep(headers, idx);
      MatchAsWrittenSnoc(headers[..idx], sections, headers[idx]);
      var found := FindSection(headers[idx], sections);
      if found.Some? {
        sectionHeaders := Put(sectionHeaders, found.value, idx);
      }
      idx := idx + 1;
    }
    PrefixWhole(headers);
  }

  /** The inner loop over the course sections, left at the first whose name
      occurs in `header`. */
  method FindSection(header: string, sections: seq<Section>) returns (found: Option<int>)
    ensures found == FirstSectionIn(sections, header)
  {
    var j := 0;
    while j < |sections|
      invariant 0 <= j <= |sections|
      invariant FirstSectionIn(sections[j..], header) == FirstSectionIn(sections, header)
    {
      assert sections[j..][1..] == sections[j + 1..];
      if Contains(header, sections[j].name) {
        return Some(sections[j].id);
      }
      j := j + 1;
    }
    found := None;
  }

  // ----- matching sections to columns, corrected -----

  /** The position, among `headers`, of the first one that contains `name`. */
  function FirstHeaderWith(headers: seq<string>, name: string): Option<nat>
  {
    if headers == [] then None
    else if Contains(headers[0], name) then Some(0)
    else match FirstHeaderWith(headers[1..], name)
         case None => None
         case Some(p) => Some(p + 1)
  }

  lemma {:induction false} FirstHeaderWithSpec(headers: seq<string>, name: string)
    ensures FirstHeaderWith(headers, name).None? <==> forall q :: 0 <= q < |headers| ==> !Contains(headers[q], name)
    ensures FirstHeaderWith(headers, name).Some? ==>
      var p := FirstHeaderWith(headers, name).value;
      p < |headers| && Contains(headers[p], name) && forall q :: 0 <= q < p ==> !Contains(headers[q], name)
  {
    if headers != [] && !Contains(headers[0], name) {
      FirstHeaderWithSpec(headers[1..], name);
      assert forall q :: 1 <= q < |headers| ==> headers[q] == headers[1..][q - 1];
    }
  }

  /** The inner search of the corrected match: the first header holding the
      section's name. */
  method FindHeader(headers: seq<string>, name: string) returns (found: Option<nat>)
    ensures found == FirstHeaderWith(headers, name)
  {
    FirstHeaderWithSpec(headers, name);
    var q := 0;
    while q < |headers|
      invariant 0 <= q <= |headers|
      invariant forall q' :: 0 <= q' < q ==> !Contains(headers[q'], name)
    {
      if Contains(headers[q], name) {
        return Some(q);
      }
      q := q + 1;
    }
    found := None;
  }

  /** The column a section reads: the header equal to its name when there is
      one, else the first header that contains its name, numbered by its
      position as the source numbers it. */
  function Column(headerCol: Dict<string, nat>, s: Section): Option<nat>
  {
    if s.name in headerCol.vals then Some(headerCol.vals[s.name])
    else FirstHeaderWith(headerCol.keys, s.name)
  }

  lemma ContainsSelf(x: string)
    ensures Contains(x, x)
  {
    MatchFromAt(x, x, 0, 0, false);
  }

  /** A section has no column exactly when no header contains its name; a
      header equal to its name wins; otherwise the first header containing it. */
  lemma ColumnSpec(headerCol: Dict<string, nat>, s: Section)
    ensures Column(headerCol, s).None? <==> forall q :: 0 <= q < |headerCol.keys| ==> !Contains(headerCol.keys[q], s.name)
    ensures s.name in headerCol.vals ==> Column(headerCol, s) == Some(headerCol.vals[s.name])
    ensures s.name !in headerCol.vals && Column(headerCol, s).Some? ==>
      var p := Column(headerCol, s).value;
      p < |headerCol.keys| && Contains(headerCol.keys[p], s.name)
      && forall q :: 0 <= q < p ==> !Contains(headerCol.keys[q], s.name)
  {
    FirstHeaderWithSpec(headerCol.keys, s.name);
    KeysAreDomain(headerCol);
    if s.name in headerCol.vals {
      ContainsSelf(s.name);
      var q :| 0 <= q < |headerCol.keys| && headerCol.keys[q] == s.name;
    }
  }

  /** `sectionHeaders`, corrected: each course section gets its `Column`. */
  function MatchColumns(headerCol: Dict<string, nat>, sections: seq<Section>): Dict<int, nat>
  {
    if sections == [] then Empty()
    else
      var d := MatchColumns(headerCol, sections[..|sections| - 1]);
      var s := sections[|sections| - 1];
      match Column(headerCol, s)
      case None => d
      case Some(col) => Put(d, s.id, col)
  }

  method SectionHeaders(headerCol: Dict<string, nat>, sections: seq<Section>)
    returns (sectionHeaders: Dict<int, nat>)
    ensures sectionHeaders == MatchColumns(headerCol, sections)
  {
    sectionHeaders := Empty();
    var i := 0;
    while i < |sections|
      invariant 0 <= i <= |sections|
      invariant sectionHeaders == MatchColumns(headerCol, sections[..i])
    {
      PrefixStep(sections, i);
      var section := sections[i];
      if section.name in headerCol.vals {
        sectionHeaders := Put(sectionHeaders, section.id, headerCol.vals[section.name]);
      } else {
        var found := FindHeader(headerCol.keys, section.name);
        if found.Some? {
          sectionHeaders := Put(sectionHeaders, section.id, found.value);
        }
      }
      i := i + 1;
    }
    PrefixWhole(sections);
  }

  /** With distinct section ids, every section whose name some header
      contains gets its own `Column`, and no other id gets one. */
  lemma {:induction false} MatchColumnsSpec(headerCol: Dict<string, nat>, sections: seq<Section>)
    requires DistinctIds(sections)
    ensures forall k | k in MatchColumns(headerCol, sections).vals :: exists i :: 0 <= i < |sections| && sections[i].id == k
    ensures forall i | 0 <= i < |sections| ::
      (sections[i].id in MatchColumns(headerCol, sections).vals <==> Column(headerCol, sections[i]).Some?)
      && (Column(headerCol, sections[i]).Some? ==>
            MatchColumns(headerCol, sections).vals[sections[i].id] == Column(headerCol, sections[i]).value)
  {
    if sections != [] {
      var init := sections[..|sections| - 1];
      var last := sections[|sections| - 1];
      assert forall i :: 0 <= i < |init| ==> init[i] == sections[i];
      MatchColumnsSpec(headerCol, init);
      var d := MatchColumns(headerCol, init);
      assert last.id !in d.vals;
      match Column(headerCol, last) {
        case None =>
          assert MatchColumns(headerCol, sections) == d;
        case Some(col) =>
          assert MatchColumns(headerCol, sections) == Put(d, last.id, col);
      }
    }
  }

  /** Export and upload agree on the columns: when the lab names are
      distinct from each other and from the fixed headers, the column the
      upload reads for the i-th lab section is 1 + i, the column the export
      filled from that section's id. */
  lemma ExportedColumns(sections: seq<Section>, i: nat)
    requires DistinctIds(sections)
    requires Distinct(TsvExport.Headers(LabSections(sections)))
    requires i < |LabSections(sections)|
    ensures var labs := LabSections(sections);
            var hs := TsvExport.Headers(labs);
            var m := MatchColumns(Zip(hs, Range(|hs|)), sections);
            && labs[i].id in m.vals && m.vals[labs[i].id] == 1 + i
            && TsvExport.KeyList(labs)[1 + i] == IntKey(labs[i].id)
  {
    var labs := LabSections(sections);
    var hs := TsvExport.Headers(labs);
    var headerCol := Zip(hs, Range(|hs|));
    var k := LabPosition(sections, i);
    LabColumn(labs, i);
    ZipDistinct(hs, Range(|hs|), 1 + i);
    assert headerCol.vals[labs[i].name] == 1 + i;
    MatchColumnsSpec(headerCol, sections);
    ColumnSpec(headerCol, sections[k]);
    assert sections[k].id in MatchColumns(headerCol, sections).vals;
  }

  /** Where the i-th lab section sits among all sections. */
  lemma LabPosition(sections: seq<Section>, i: nat) returns (k: nat)
    requires i < |LabSections(sections)|
    ensures k < |sections| && sections[k] == LabSections(sections)[i]
  {
    LabSectionsSelect(sections);
    assert LabSections(sections)[i] in sections;
    k :| 0 <= k < |sections| && sections[k] == LabSections(sections)[i];
  }

  lemma LabColumn(labs: seq<Section>, i: nat)
    requires i < |labs|
    ensures TsvExport.Headers(labs)[1 + i] == labs[i].name
    ensures TsvExport.KeyList(labs)[1 + i] == IntKey(labs[i].id)
  {
    assert TsvExport.Headers(labs)[1 + i] == TsvExport.Names(labs)[i];
    assert TsvExport.KeyList(labs)[1 + i] == TsvExport.SectionKeys(labs)[i];
  }

  // ----- the substring match loses a section -----

  const LabOne: Section := Section(1, "Lab 1")
  const LabTen: Section := Section(2, "Lab 10")

  lemma NamesOccur()
    ensures Contains("Lab 1", "Lab 1") && Contains("Lab 10", "Lab 1") && Contains("Lab 10", "Lab 10")
    ensures !Contains("Title", "Lab 1") && !Contains("Title", "Lab 10") && !Contains("Lab 1", "Lab 10")
  {
    assert MatchFrom("Lab 1", "Lab 1", 0, 0, false);
    assert MatchFrom("Lab 10", "Lab 1", 0, 0, false);
    assert MatchFrom("Lab 10", "Lab 10", 0, 0, false);
    assert !MatchFrom("Title", "Lab 1", 0, 0, false);
    assert !OccursFrom("Title", "Lab 1", 1, false);
  }

  /** Two sections where the first one's name occurs in the second one's,
      and headers t, x, y: the substring test gives the first section the
      second one's column and the second section none. */
  lemma Steal(headerCol: Dict<string, nat>, t: string, x: string, y: string, id1: int, id2: int)
    requires headerCol.keys == [t, x, y] && x in headerCol.vals && y in headerCol.vals
    requires headerCol.vals[x] == 1 && headerCol.vals[y] == 2 && id1 != id2
    requires !Contains(t, x) && !Contains(t, y) && Contains(x, x) && Contains(y, x)
    ensures var secs := [Section(id1, x), Section(id2, y)];
            && MatchAsWritten(headerCol.keys, secs).vals == map[id1 := 2]
            && MatchColumns(headerCol, secs).vals == map[id1 := 1, id2 := 2]
  {
    StealAsWritten(t, x, y, id1, id2);
    StealCorrected(headerCol, x, y, id1, id2);
  }

  lemma StealAsWritten(t: string, x: string, y: string, id1: int, id2: int)
    requires !Contains(t, x) && !Contains(t, y) && Contains(x, x) && Contains(y, x)
    ensures MatchAsWritten([t, x, y], [Section(id1, x), Section(id2, y)]).vals == map[id1 := 2]
  {
    var secs := [Section(id1, x), Section(id2, y)];
    assert FirstSectionIn(secs, t) == None by {
      assert secs[1..][1..] == [];
      assert FirstSectionIn(secs[1..][1..], t) == None;
      assert FirstSectionIn(secs[1..], t) == None;
    }
    assert FirstSectionIn(secs, x) == Some(id1);
    assert FirstSectionIn(secs, y) == Some(id1);
    var none: seq<string> := [];
    MatchAsWrittenSnoc(none, secs, t);
    assert none + [t] == [t];
    MatchAsWrittenSnoc([t], secs, x);
    assert [t] + [x] == [t, x];
    MatchAsWrittenSnoc([t, x], secs, y);
    assert [t, x] + [y] == [t, x, y];
  }

  lemma MatchAsWrittenSnoc(headers: seq<string>, sections: seq<Section>, h: string)
    ensures MatchAsWritten(headers + [h], sections)
         == match FirstSectionIn(sections, h)
            case None => MatchAsWritten(headers, sections)
            case Some(id) => Put(MatchAsWritten(headers, sections), id, |headers|)
  {
    assert (headers + [h])[..|headers|] == headers;
  }

  lemma StealCorrected(headerCol: Dict<string, nat>, x: string, y: string, id1: int, id2: int)
    requires x in headerCol.vals && y in headerCol.vals
    requires headerCol.vals[x] == 1 && headerCol.vals[y] == 2 && id1 != id2
    ensures MatchColumns(headerCol, [Section(id1, x), Section(id2, y)]).vals == map[id1 := 1, id2 := 2]
  {
    var s1, s2 := Section(id1, x), Section(id2, y);
    var none: seq<Section> := [];
    var m1 := MatchColumns(headerCol, [s1]);
    assert m1.vals == map[id1 := 1] by {
      MatchColumnsSnoc(headerCol, none, s1);
      assert none + [s1] == [s1];
    }
    assert MatchColumns(headerCol, [s1, s2]) == Put(m1, id2, 2) by {
      MatchColumnsSnoc(headerCol, [s1], s2);
      assert [s1] + [s2] == [s1, s2];
    }
  }

  lemma MatchColumnsSnoc(headerCol: Dict<string, nat>, sections: seq<Section>, s: Section)
    ensures MatchColumns(headerCol, sections + [s])
         == match Column(headerCol, s)
            case None => MatchColumns(headerCol, sections)
            case Some(col) => Put(MatchColumns(headerCol, sections), s.id, col)
  {
    assert (sections + [s])[..|sections|] == sections;
  }

  /** With sections "Lab 1" and "Lab 10" and headers Title, Lab 1, Lab 10,
      the substring test sends both headers to "Lab 1": it ends up with the
      "Lab 10" column and "Lab 10" gets none, while the corrected match gives
      each its own column. */
  lemma SubstringMatchLosesSection()
    ensures var headerCol := Zip(["Title", "Lab 1", "Lab 10"], Range(3));
            && MatchAsWritten(headerCol.keys, [LabOne, LabTen]).vals == map[1 := 2]
            && MatchColumns(headerCol, [LabOne, LabTen]).vals == map[1 := 1, 2 := 2]
  {
    var row := ["Title", "Lab 1", "Lab 10"];
    assert Distinct(row);
    HeaderColumns(row);
    ZipDistinct(row, Range(3), 1);
    ZipDistinct(row, Range(3), 2);
    NamesOccur();
    Steal(Zip(row, Range(3)), "Title", "Lab 1", "Lab 10", 1, 2);
  }

  const LabA: Section := Section(7, "Lab A")

  lemma LabAOccurs()
    ensures Contains("Lab A (Tue)", "Lab A") && !Contains("Title", "Lab A")
  {
    assert MatchFrom("Lab A (Tue)", "Lab A", 0, 0, false);
    assert !MatchFrom("Title", "Lab A", 0, 0, false);
    assert !OccursFrom("Title", "Lab A", 1, false);
  }

  /** A header that adds to a section's name, such as "Lab A (Tue)", still
      gives that section its column, as the substring test written does. */
  lemma DecoratedHeader()
    ensures var headerCol := Zip(["Title", "Lab A (Tue)"], Range(2));
            && MatchAsWritten(headerCol.keys, [LabA]).vals == map[7 := 1]
            && MatchColumns(headerCol, [LabA]).vals == map[7 := 1]
  {
    var row := ["Title", "Lab A (Tue)"];
    assert Distinct(row);
    HeaderColumns(row);
    LabAOccurs();
    DecoratedAsWritten(row);
    DecoratedCorrected(Zip(row, Range(2)));
  }

  lemma DecoratedAsWritten(row: seq<string>)
    requires row == ["Title", "Lab A (Tue)"]
    requires Contains("Lab A (Tue)", "Lab A") && !Contains("Title", "Lab A")
    ensures MatchAsWritten(row, [LabA]).vals == map[7 := 1]
  {
    assert FirstSectionIn([LabA], "Title") == None by {
      assert [LabA][1..] == [];
    }
    var none: seq<string> := [];
    MatchAsWrittenSnoc(none, [LabA], "Title");
    assert none + ["Title"] == ["Title"];
    MatchAsWrittenSnoc(["Title"], [LabA], "Lab A (Tue)");
    assert ["Title"] + ["Lab A (Tue)"] == row;
  }

  lemma DecoratedCorrected(headerCol: Dict<string, nat>)
    requires headerCol.keys == ["Title", "Lab A (Tue)"]
    requires Contains("Lab A (Tue)", "Lab A") && !Contains("Title", "Lab A")
    ensures MatchColumns(headerCol, [LabA]).vals == map[7 := 1]
  {
    KeysAreDomain(headerCol);
    assert "Lab A" !in headerCol.vals;
    assert FirstHeaderWith(headerCol.keys, "Lab A") == Some(1) by {
      assert headerCol.keys[1..] == ["Lab A (Tue)"];
    }
    var none: seq<Section> := [];
    MatchColumnsSnoc(headerCol, none, LabA);
    assert none + [LabA] == [LabA];
  }

  // ----- one data row -----

  /** `headerCol` after `headerCol.update(sectionHeaders)`: the header names
      and the section ids. A string key and an int key never collide, so the
      one Python dictionary is the pair of these. */
  datatype Columns = Columns(byName: Dict<string, nat>, bySection: Dict<int, nat>)

  /** `row[i]`, with Python's IndexError past the end. */
  function At(row: seq<string>, i: nat): Result<string>
  {
    if i < |row| then Ok(row[i]) else Err(IndexError)
  }

  /** `row[headerCol[h]]` */
  function CellNamed(row: seq<string>, cols: Columns, h: string): Result<string>
  {
    if h in cols.byName.vals then At(row, cols.byName.vals[h]) else Err(KeyError)
  }

  /** `row[headerCol[section]]` */
  function CellOfSection(row: seq<string>, cols: Columns, id: int): Result<string>
  {
    if id in cols.bySection.vals then At(row, cols.bySection.vals[id]) else Err(KeyError)
  }

  /** `local_to_iso`, as the converter the row reader applies to cells. */
  function ToIso(toUtc: Instant -> Instant): string -> Result<string>
  {
    s => LocalToIso(Text(s), toUtc)
  }

  /** `local_to_iso(row[headerCol[section]])`, for `toIso` = `ToIso(toUtc)`. */
  function DateCell(row: seq<string>, cols: Columns, id: int, toIso: string -> Result<string>): Result<string>
  {
    var cell :- CellOfSection(row, cols, id);
    toIso(cell)
  }

  /** `section_due_dates`: every lab section's cell, converted to ISO, in the
      order of `ids`; the first failing section raises. */
  function DueDates(row: seq<string>, cols: Columns, ids: seq<int>, toIso: string -> Result<string>)
    : Result<Dict<int, string>>
  {
    if ids == [] then Ok(Empty())
    else
      var d :- DueDates(row, cols, ids[..|ids| - 1], toIso);
      var iso :- DateCell(row, cols, ids[|ids| - 1], toIso);
      Ok(Put(d, ids[|ids| - 1], iso))
  }

  lemma {:induction false} DueDatesErrSticky(row: seq<string>, cols: Columns, ids: seq<int>,
                                             toIso: string -> Result<string>, n: nat)
    requires n <= |ids| && DueDates(row, cols, ids[..n], toIso).Err?
    ensures DueDates(row, cols, ids, toIso) == DueDates(row, cols, ids[..n], toIso)
    decreases |ids|
  {
    if n < |ids| {
      assert ids[..|ids| - 1][..n] == ids[..n];
      DueDatesErrSticky(row, cols, ids[..|ids| - 1], toIso, n);
    } else {
      PrefixWhole(ids);
    }
  }

  lemma DueDatesStep(row: seq<string>, cols: Columns, ids: seq<int>, toIso: string -> Result<string>,
                     i: nat, d: Dict<int, string>)
    requires i < |ids| && DueDates(row, cols, ids[..i], toIso) == Ok(d)
    ensures DateCell(row, cols, ids[i], toIso).Err? ==>
      DueDates(row, cols, ids, toIso) == Err(DateCell(row, cols, ids[i], toIso).error)
    ensures DateCell(row, cols, ids[i], toIso).Ok? ==>
      DueDates(row, cols, ids[..i + 1], toIso) == Ok(Put(d, ids[i], DateCell(row, cols, ids[i], toIso).value))
  {
    assert ids[..i + 1][..i] == ids[..i] && ids[..i + 1][i] == ids[i];
    if DateCell(row, cols, ids[i], toIso).Err? {
      DueDatesErrSticky(row, cols, ids, toIso, i + 1);
    }
  }

  method SectionDueDates(row: seq<string>, cols: Columns, ids: seq<int>, toIso: string -> Result<string>)
    returns (r: Result<Dict<int, string>>)
    ensures r == DueDates(row, cols, ids, toIso)
  {
    var dates := Empty();
    var i := 0;
    while i < |ids|
      invariant 0 <= i <= |ids|
      invariant DueDates(row, cols, ids[..i], toIso) == Ok(dates)
    {
      var section := ids[i];
      var date := DateCell(row, cols, section, toIso);
      DueDatesStep(row, cols, ids, toIso, i, dates);
      if date.Err? {
        return Err(date.error);
      }
      dates := Put(dates, section, date.value);
      i := i + 1;
    }
    PrefixWhole(ids);
    return Ok(dates);
  }

  /** Every date `local_to_iso` yields is '' or begins with an ISO timestamp. */
  lemma LocalToIsoShape(v: NStr, toUtc: Instant -> Instant)
    requires LocalToIso(v, toUtc).Ok?
    ensures var s := LocalToIso(v, toUtc).value; s == "" || IsoPrefix(s)
  {
    if !(v == Null || v == Text("") || v == Text("None")) && !IsoPrefix(v.s) {
      var t := ParseLocal(v.s).value;
      IsoTextShape(Fix59(toUtc(t)));
    }
  }

  /** What the row reader relies on in `local_to_iso`: '' stays '', and
      every result is '' or ISO and converts to itself. */
  ghost predicate Converts(toIso: string -> Result<string>)
  {
    && toIso("") == Ok("")
    && (forall s | toIso(s).Ok? :: toIso(s).value == "" || IsoPrefix(toIso(s).value))
    && (forall s | toIso(s).Ok? :: toIso(toIso(s).value) == toIso(s))
  }

  lemma LocalToIsoConverts(toUtc: Instant -> Instant)
    ensures Converts(ToIso(toUtc))
  {
    forall s | ToIso(toUtc)(s).Ok?
      ensures ToIso(toUtc)(s).value == "" || IsoPrefix(ToIso(toUtc)(s).value)
      ensures ToIso(toUtc)(ToIso(toUtc)(s).value) == ToIso(toUtc)(s)
    {
      LocalToIsoShape(Text(s), toUtc);
      LocalToIsoIdempotent(Text(s), toUtc);
    }
  }

  lemma DateCellShape(row: seq<string>, cols: Columns, id: int, toIso: string -> Result<string>)
    requires Converts(toIso) && DateCell(row, cols, id, toIso).Ok?
    ensures CellOfSection(row, cols, id).Ok?
    ensures toIso(CellOfSection(row, cols, id).value) == DateCell(row, cols, id, toIso)
    ensures var s := DateCell(row, cols, id, toIso).value; s == "" || IsoPrefix(s)
  {
  }

  /** With distinct ids, the dates are keyed by the lab sections in order,
      each holding its own cell converted to ISO. */
  lemma {:induction false} DueDatesSpec(row: seq<string>, cols: Columns, ids: seq<int>, toIso: string -> Result<string>)
    requires Distinct(ids) && DueDates(row, cols, ids, toIso).Ok?
    ensures var d := DueDates(row, cols, ids, toIso).value;
      && d.keys == ids
      && forall i | 0 <= i < |ids| :: DateCell(row, cols, ids[i], toIso) == Ok(d.vals[ids[i]])
  {
    if ids != [] {
      var init := ids[..|ids| - 1];
      DistinctSnoc(ids);
      DueDatesSnoc(row, cols, ids, toIso);
      DueDatesSpec(row, cols, init, toIso);
      DueDatesPut(row, cols, ids, toIso, init, DueDates(row, cols, init, toIso).value);
    }
  }

  /** The induction step of `DueDatesSpec`. */
  lemma DueDatesPut(row: seq<string>, cols: Columns, ids: seq<int>, toIso: string -> Result<string>,
                    init: seq<int>, d0: Dict<int, string>)
    requires ids != [] && init == ids[..|ids| - 1] && ids[|ids| - 1] !in init
    requires DateCell(row, cols, ids[|ids| - 1], toIso).Ok?
    requires d0.keys == init
    requires forall i | 0 <= i < |init| :: DateCell(row, cols, init[i], toIso) == Ok(d0.vals[init[i]])
    ensures var d := Put(d0, ids[|ids| - 1], DateCell(row, cols, ids[|ids| - 1], toIso).value);
      && d.keys == ids
      && forall i | 0 <= i < |ids| :: DateCell(row, cols, ids[i], toIso) == Ok(d.vals[ids[i]])
  {
    var n := |ids| - 1;
    var last := ids[n];
    KeysAreDomain(d0);
    var d := Put(d0, last, DateCell(row, cols, last, toIso).value);
    SplitLast(ids);
    forall i | 0 <= i < |ids|
      ensures DateCell(row, cols, ids[i], toIso) == Ok(d.vals[ids[i]])
    {
      if i < n {
        assert ids[i] == init[i];
      }
    }
  }

  /** The last section's date is put after the others'. */
  lemma DueDatesSnoc(row: seq<string>, cols: Columns, ids: seq<int>, toIso: string -> Result<string>)
    requires ids != [] && DueDates(row, cols, ids, toIso).Ok?
    ensures DueDates(row, cols, ids[..|ids| - 1], toIso).Ok?
    ensures DateCell(row, cols, ids[|ids| - 1], toIso).Ok?
    ensures DueDates(row, cols, ids, toIso).value
         == Put(DueDates(row, cols, ids[..|ids| - 1], toIso).value, ids[|ids| - 1],
                DateCell(row, cols, ids[|ids| - 1], toIso).value)
  {
  }

  /** Every section date of a row is '' or an ISO timestamp. */
  lemma DueDatesAreIso(row: seq<string>, cols: Columns, ids: seq<int>, toIso: string -> Result<string>)
    requires Converts(toIso) && Distinct(ids) && DueDates(row, cols, ids, toIso).Ok?
    ensures var d := DueDates(row, cols, ids, toIso).value;
      forall k | k in d.vals :: d.vals[k] == "" || IsoPrefix(d.vals[k])
  {
    var d := DueDates(row, cols, ids, toIso).value;
    DueDatesSpec(row, cols, ids, toIso);
    KeysAreDomain(d);
    forall k | k in d.vals
      ensures d.vals[k] == "" || IsoPrefix(d.vals[k])
    {
      DateCellShape(row, cols, k, toIso);
    }
  }

  // ----- collapsing equal dates -----

  /** `len(set(values)) <= 1` */
  predicate AtMostOneValue(vs: seq<string>)
  {
    |set v | v in vs| <= 1
  }

  /** At most one distinct value means that all values are equal. */
  lemma AtMostOneValueIff(vs: seq<string>)
    ensures AtMostOneValue(vs) <==> forall i, j | 0 <= i < |vs| && 0 <= j < |vs| :: vs[i] == vs[j]
  {
    var st := set v | v in vs;
    if forall i, j | 0 <= i < |vs| && 0 <= j < |vs| :: vs[i] == vs[j] {
      if vs == [] {
        assert st == {};
      } else {
        assert st == {vs[0]};
      }
    } else {
      var i, j :| 0 <= i < |vs| && 0 <= j < |vs| && vs[i] != vs[j];
      assert {vs[i], vs[j]} <= st;
      assert |{vs[i], vs[j]}| == 2;
      SubsetSize({vs[i], vs[j]}, st);
    }
  }

  lemma {:induction false} SubsetSize<T>(a: set<T>, b: set<T>)
    requires a <= b
    ensures |a| <= |b|
    decreases |a|
  {
    if a != {} {
      var x :| x in a;
      SubsetSize(a - {x}, b - {x});
    }
  }

  /** What the collapse leaves: the shared due date, the section dates, and
      `single_due_date`. */
  datatype Collapsed = Collapsed(due: string, dates: Dict<int, string>, single: bool)

  /** Every section date replaced by ''. */
  function Blanked(d: Dict<int, string>): (r: Dict<int, string>)
    ensures r.keys == d.keys && forall k :: k in r.vals <==> k in d.vals
  {
    KeysAreDomain(d);
    RawDict(d.keys, map k | k in d.vals :: "")
  }

  function Collapse(d: Dict<int, string>): Result<Collapsed>
  {
    var vs := Values(d);
    if AtMostOneValue(vs) then
      if vs == [] then Err(IndexError) else Ok(Collapsed(vs[0], Blanked(d), true))
    else Ok(Collapsed("", d, false))
  }

  /** The collapse: with no lab section `list(...)[0]` raises; when all
      dates agree the due date is that date and every section date is
      blanked; otherwise the due date is '' and the dates stay. */
  method CollapseDates(sectionDueDates: Dict<int, string>) returns (r: Result<Collapsed>)
    ensures r == Collapse(sectionDueDates)
  {
    var vs := Values(sectionDueDates);
    if |set v | v in vs| <= 1 {
      if |vs| == 0 {
        return Err(IndexError);
      }
      var dueDate := vs[0];
      var dates := sectionDueDates;
      var i := 0;
      while i < |dates.keys|
        invariant 0 <= i <= |sectionDueDates.keys|
        invariant dates.keys == sectionDueDates.keys
        invariant forall k :: k in dates.vals <==> k in sectionDueDates.vals
        invariant forall j :: 0 <= j < i ==> dates.vals[dates.keys[j]] == ""
      {
        dates := Put(dates, dates.keys[i], "");
        i := i + 1;
      }
      KeysAreDomain(dates);
      SameEntries(dates, Blanked(sectionDueDates));
      return Ok(Collapsed(dueDate, dates, true));
    }
    return Ok(Collapsed("", sectionDueDates, false));
  }

  lemma CollapseMeaning(d: Dict<int, string>)
    ensures Collapse(d).Err? <==> d.keys == []
    ensures Collapse(d).Err? ==> Collapse(d).error == IndexError
    ensures Collapse(d).Ok? ==>
      (Collapse(d).value.single <==> forall k1, k2 | k1 in d.vals && k2 in d.vals :: d.vals[k1] == d.vals[k2])
    ensures Collapse(d).Ok? && Collapse(d).value.single ==>
      var c := Collapse(d).value;
      && c.dates.keys == d.keys
      && forall k | k in d.vals :: d.vals[k] == c.due && k in c.dates.vals && c.dates.vals[k] == ""
    ensures Collapse(d).Ok? && !Collapse(d).value.single ==>
      Collapse(d).value.due == "" && Collapse(d).value.dates == d
  {
    var vs := Values(d);
    AtMostOneValueIff(vs);
    KeysAreDomain(d);
    if Collapse(d).Ok? {
      var same := forall k1, k2 | k1 in d.vals && k2 in d.vals :: d.vals[k1] == d.vals[k2];
      if same {
        forall i, j | 0 <= i < |vs| && 0 <= j < |vs|
          ensures vs[i] == vs[j]
        {
          var k1, k2 := d.keys[i], d.keys[j];
          assert k1 in d.vals && k2 in d.vals;
          assert d.vals[k1] == d.vals[k2];
        }
      }
      if AtMostOneValue(vs) {
        forall k1, k2 | k1 in d.vals && k2 in d.vals
          ensures d.vals[k1] == d.vals[k2] && d.vals[k1] == vs[0]
        {
          var i :| 0 <= i < |d.keys| && d.keys[i] == k1;
          var j :| 0 <= j < |d.keys| && d.keys[j] == k2;
          assert vs[i] == vs[j] && vs[i] == vs[0];
        }
      }
    }
  }

  // ----- the record of a row -----

  /** The dictionary `newAssignment` a data row becomes. */
  datatype Record = Record(name: string, due: string, muted: bool, published: bool,
                           sections: Dict<int, string>, lock: string, unlock: string)

  /** A row's record, and whether its section dates collapsed. */
  datatype RowRecord = RowRecord(rec: Record, single: bool)

  /** `bool(int(text))` */
  function Flag(text: string): Result<bool>
  {
    var n :- ParseInt(text);
    Ok(n != 0)
  }

  /** `local_to_iso(row[headerCol[h]])` */
  function DateNamed(row: seq<string>, cols: Columns, h: string, toIso: string -> Result<string>): Result<string>
  {
    var cell :- CellNamed(row, cols, h);
    toIso(cell)
  }

  /** From `section_due_dates = {}` to the `newAssignment` literal, whose
      values are computed in the order written; the first failure raises. */
  function RecordOf(row: seq<string>, cols: Columns, ids: seq<int>, toIso: string -> Result<string>)
    : Result<RowRecord>
  {
    var dates :- DueDates(row, cols, ids, toIso);
    var c :- Collapse(dates);
    var name :- CellNamed(row, cols, "Title");
    var due :- toIso(c.due);
    var mutedText :- CellNamed(row, cols, "Muted");
    var muted :- Flag(mutedText);
    var publishedText :- CellNamed(row, cols, "Published");
    var published :- Flag(publishedText);
    var lock :- DateNamed(row, cols, "Available until", toIso);
    var unlock :- DateNamed(row, cols, "Available from", toIso);
    Ok(RowRecord(Record(name, due, muted, published, c.dates, lock, unlock), c.single))
  }

  method ReadRecord(row: seq<string>, cols: Columns, ids: seq<int>, toIso: string -> Result<string>)
    returns (r: Result<RowRecord>)
    ensures r == RecordOf(row, cols, ids, toIso)
  {
    var sectionDueDates :- SectionDueDates(row, cols, ids, toIso);
    var collapsed :- CollapseDates(sectionDueDates);
    var name :- CellNamed(row, cols, "Title");
    var due :- toIso(collapsed.due);
    var mutedText :- CellNamed(row, cols, "Muted");
    var muted :- Flag(mutedText);
    var publishedText :- CellNamed(row, cols, "Published");
    var published :- Flag(publishedText);
    var lock :- DateNamed(row, cols, "Available until", toIso);
    var unlock :- DateNamed(row, cols, "Available from", toIso);
    return Ok(RowRecord(Record(name, due, muted, published, collapsed.dates, lock, unlock), collapsed.single));
  }

  /** The pieces a record is made of. */
  lemma RecordParts(row: seq<string>, cols: Columns, ids: seq<int>, toIso: string -> Result<string>)
    requires RecordOf(row, cols, ids, toIso).Ok?
    ensures DueDates(row, cols, ids, toIso).Ok?
    ensures var c := Collapse(DueDates(row, cols, ids, toIso).value);
            var rr := RecordOf(row, cols, ids, toIso).value;
            && c.Ok? && rr.single == c.value.single && rr.rec.sections == c.value.dates
            && toIso(c.value.due) == Ok(rr.rec.due)
            && CellNamed(row, cols, "Title") == Ok(rr.rec.name)
            && CellNamed(row, cols, "Muted").Ok? && Flag(CellNamed(row, cols, "Muted").value) == Ok(rr.rec.muted)
            && CellNamed(row, cols, "Published").Ok?
            && Flag(CellNamed(row, cols, "Published").value) == Ok(rr.rec.published)
            && DateNamed(row, cols, "Available until", toIso) == Ok(rr.rec.lock)
            && DateNamed(row, cols, "Available from", toIso) == Ok(rr.rec.unlock)
  {
    var dates := DueDates(row, cols, ids, toIso).value;
    var c := Collapse(dates).value;
    var name := CellNamed(row, cols, "Title").value;
    var due := toIso(c.due).value;
    var muted := Flag(CellNamed(row, cols, "Muted").value).value;
    var published := Flag(CellNamed(row, cols, "Published").value).value;
    var lock := DateNamed(row, cols, "Available until", toIso).value;
    var unlock := DateNamed(row, cols, "Available from", toIso).value;
    assert RecordOf(row, cols, ids, toIso) == Ok(RowRecord(Record(name, due, muted, published, c.dates, lock, unlock), c.single));
  }

  /** The collapse of a row's section dates, in terms of the cells. */
  lemma CollapsedDates(row: seq<string>, cols: Columns, ids: seq<int>, toIso: string -> Result<string>)
    requires Converts(toIso) && Distinct(ids) && DueDates(row, cols, ids, toIso).Ok?
    requires Collapse(DueDates(row, cols, ids, toIso).value).Ok?
    ensures var c := Collapse(DueDates(row, cols, ids, toIso).value).value;
      && ids != []
      && c.dates.keys == ids
      && toIso(c.due) == Ok(c.due)
      && (c.single <==> forall i, j | 0 <= i < |ids| && 0 <= j < |ids| ::
            DateCell(row, cols, ids[i], toIso) == DateCell(row, cols, ids[j], toIso))
      && (c.single ==> forall i | 0 <= i < |ids| ::
            DateCell(row, cols, ids[i], toIso) == Ok(c.due) && c.dates.vals[ids[i]] == "")
      && (!c.single ==> c.due == "" && forall i | 0 <= i < |ids| ::
            DateCell(row, cols, ids[i], toIso) == Ok(c.dates.vals[ids[i]]))
  {
    var d := DueDates(row, cols, ids, toIso).value;
    DueDatesSpec(row, cols, ids, toIso);
    CollapseMeaning(d);
    KeysAreDomain(d);
    var c := Collapse(d).value;
    if c.single {
      assert d.vals[ids[0]] == c.due;
      DateCellShape(row, cols, ids[0], toIso);
    }
  }

  /** What a record holds, for distinct lab sections: a key per lab section;
      when the sections' converted dates all agree, that date is the due date
      and every section date is ''; otherwise the due date is '' and each
      section keeps its converted cell. */
  lemma RecordSpec(row: seq<string>, cols: Columns, ids: seq<int>, toIso: string -> Result<string>)
    requires Converts(toIso) && Distinct(ids) && RecordOf(row, cols, ids, toIso).Ok?
    ensures var rr := RecordOf(row, cols, ids, toIso).value;
      && ids != []
      && rr.rec.sections.keys == ids
      && (rr.single <==> forall i, j | 0 <= i < |ids| && 0 <= j < |ids| ::
            DateCell(row, cols, ids[i], toIso) == DateCell(row, cols, ids[j], toIso))
      && (rr.single ==> forall i | 0 <= i < |ids| ::
            DateCell(row, cols, ids[i], toIso) == Ok(rr.rec.due) && rr.rec.sections.vals[ids[i]] == "")
      && (!rr.single ==> rr.rec.due == "" && forall i | 0 <= i < |ids| ::
            DateCell(row, cols, ids[i], toIso) == Ok(rr.rec.sections.vals[ids[i]]))
  {
    RecordParts(row, cols, ids, toIso);
    CollapsedDates(row, cols, ids, toIso);
  }

  /** Every date of a record is '' or an ISO timestamp. */
  lemma RecordDatesAreIso(row: seq<string>, cols: Columns, ids: seq<int>, toIso: string -> Result<string>)
    requires Converts(toIso) && Distinct(ids) && RecordOf(row, cols, ids, toIso).Ok?
    ensures var rec := RecordOf(row, cols, ids, toIso).value.rec;
      && (rec.due == "" || IsoPrefix(rec.due))
      && (rec.lock == "" || IsoPrefix(rec.lock))
      && (rec.unlock == "" || IsoPrefix(rec.unlock))
      && forall k | k in rec.sections.vals :: rec.sections.vals[k] == "" || IsoPrefix(rec.sections.vals[k])
  {
    RecordParts(row, cols, ids, toIso);
    var d := DueDates(row, cols, ids, toIso).value;
    DueDatesAreIso(row, cols, ids, toIso);
    CollapseMeaning(d);
  }

  // ----- the write plan -----

  function TextDates(d: Dict<int, string>): (r: Dict<int, NStr>)
    ensures r.keys == d.keys && forall k :: k in r.vals <==> k in d.vals
    ensures forall k | k in d.vals :: r.vals[k] == Text(d.vals[k])
  {
    KeysAreDomain(d);
    RawDict(d.keys, map k | k in d.vals :: Text(d.vals[k]))
  }

  /** The record as `compare` sees it. */
  function CandidateOf(rec: Record): Candidate
  {
    Candidate(rec.name, Text(rec.due), rec.muted, rec.published, TextDates(rec.sections),
              Text(rec.lock), Text(rec.unlock))
  }

  /** Some entry of `compare`'s result is False. */
  predicate Changed(a: Assignment, rec: Record)
  {
    exists k | k in ChangeKeys :: !Unchanged(a, CandidateOf(rec), k)
  }

  /** The requests issued, and the exception that stopped them, if any. */
  datatype Outcome = Outcome(calls: seq<Call>, error: Option<Error>)

  /** The POST that creates the override of one section. */
  function PostCall(url: string, section: int, date: string, lock: string, unlock: string): Call
  {
    Call(POST, url, OverridePayload(section, date, lock, unlock))
  }

  /** The override loop over the sections of the assignment, as a left
      fold: a POST to `url` for each section with a non-empty date, until the
      first section the row has no date for raises KeyError. */
  function Posts(url: string, keys: seq<int>, dates: Dict<int, string>, lock: string, unlock: string): Outcome
  {
    if keys == [] then Outcome([], None)
    else
      var init := Posts(url, keys[..|keys| - 1], dates, lock, unlock);
      var k := keys[|keys| - 1];
      if init.error.Some? then init
      else if k !in dates.vals then Outcome(init.calls, Some(KeyError))
      else if dates.vals[k] != "" then Outcome(init.calls + [PostCall(url, k, dates.vals[k], lock, unlock)], None)
      else init
  }

  /** Nothing is posted when the row's dates collapsed into one due date. */
  function OverridePosts(c: Canvas, a: Assignment, rr: RowRecord): Outcome
  {
    if rr.single then Outcome([], None)
    else Posts(c.OverridesUrl(a.id), a.sections.keys, rr.rec.sections, rr.rec.lock, rr.rec.unlock)
  }

  function EditCall(c: Canvas, a: Assignment, rec: Record): Call
  {
    Call(PUT, c.AssignmentUrl(a.id),
         AssignmentPayload(rec.name, rec.due, rec.muted, rec.published, rec.lock, rec.unlock))
  }

  /** The requests for one row once `compare` has said whether anything
      changed: none when nothing did; otherwise every override is deleted,
      the section overrides are created, and the assignment is edited unless
      creating an override raised. */
  function Plan(c: Canvas, a: Assignment, rr: RowRecord, changed: bool): Outcome
  {
    if !changed then Outcome([], None)
    else
      var posts := OverridePosts(c, a, rr);
      Outcome(DeleteCalls(c, a.id, a.overrides) + posts.calls
                + (if posts.error.None? then [EditCall(c, a, rr.rec)] else []),
              posts.error)
  }

  function WritePlan(c: Canvas, a: Assignment, rr: RowRecord): Outcome
  {
    Plan(c, a, rr, Changed(a, rr.rec))
  }

  /** `False in comp.values()` is a change in the sense of `Changed`. */
  lemma AnyFalseIsChanged(a: Assignment, rec: Record, comp: Dict<string, bool>)
    requires comp.keys == ChangeKeys
    requires forall k | k in comp.vals :: k in ChangeKeys && comp.vals[k] == Unchanged(a, CandidateOf(rec), k)
    ensures (false in Values(comp)) <==> Changed(a, rec)
  {
    var vs := Values(comp);
    KeysAreDomain(comp);
    if false in vs {
      var i :| 0 <= i < |vs| && vs[i] == false;
      assert !Unchanged(a, CandidateOf(rec), comp.keys[i]);
    }
    if Changed(a, rec) {
      var k :| k in ChangeKeys && !Unchanged(a, CandidateOf(rec), k);
      var i :| 0 <= i < |ChangeKeys| && ChangeKeys[i] == k;
      assert vs[i] == false;
    }
  }

  lemma {:induction false} PostsErrSticky(url: string, keys: seq<int>, dates: Dict<int, string>,
                                          lock: string, unlock: string, n: nat)
    requires n <= |keys| && Posts(url, keys[..n], dates, lock, unlock).error.Some?
    ensures Posts(url, keys, dates, lock, unlock) == Posts(url, keys[..n], dates, lock, unlock)
    decreases |keys|
  {
    if n < |keys| {
      assert keys[..|keys| - 1][..n] == keys[..n];
      PostsErrSticky(url, keys[..|keys| - 1], dates, lock, unlock, n);
    } else {
      PrefixWhole(keys);
    }
  }

  /** One step of the override loop. */
  lemma PostsStep(url: string, keys: seq<int>, dates: Dict<int, string>, lock: string, unlock: string, i: nat)
    requires i < |keys| && Posts(url, keys[..i], dates, lock, unlock).error.None?
    ensures var prev := Posts(url, keys[..i], dates, lock, unlock);
      keys[i] !in dates.vals ==> Posts(url, keys, dates, lock, unlock) == Outcome(prev.calls, Some(KeyError))
    ensures var prev := Posts(url, keys[..i], dates, lock, unlock);
      keys[i] in dates.vals ==>
        Posts(url, keys[..i + 1], dates, lock, unlock) ==
          if dates.vals[keys[i]] != "" then Outcome(prev.calls + [PostCall(url, keys[i], dates.vals[keys[i]], lock, unlock)], None)
          else prev
  {
    assert keys[..i + 1][..i] == keys[..i] && keys[..i + 1][i] == keys[i];
    if keys[i] !in dates.vals {
      PostsErrSticky(url, keys, dates, lock, unlock, i + 1);
    }
  }

  /** The override loop of one row. */
  method PostLoop(c: Canvas, assignmentId: int, keys: seq<int>, dates: Dict<int, string>, lock: string, unlock: string)
    returns (err: Option<Error>)
    modifies c`log
    ensures c.log == old(c.log) + Posts(c.OverridesUrl(assignmentId), keys, dates, lock, unlock).calls
    ensures err == Posts(c.OverridesUrl(assignmentId), keys, dates, lock, unlock).error
  {
    ghost var url := c.OverridesUrl(assignmentId);
    var i := 0;
    while i < |keys|
      invariant 0 <= i <= |keys|
      invariant Posts(url, keys[..i], dates, lock, unlock).error.None?
      invariant c.log == old(c.log) + Posts(url, keys[..i], dates, lock, unlock).calls
    {
      var section := keys[i];
      PostsStep(url, keys, dates, lock, unlock, i);
      if section !in dates.vals {
        return Some(KeyError);
      }
      var date := dates.vals[section];
      if date != "" {
        c.MakeAssignmentOverride(assignmentId, OverridePayload(section, date, lock, unlock));
      }
      i := i + 1;
    }
    PrefixWhole(keys);
    return None;
  }

  /** Delete, create and edit, once `compare` found a change. */
  method Rewrite(c: Canvas, a: Assignment, rr: RowRecord) returns (err: Option<Error>)
    modifies c`log
    ensures c.log == old(c.log) + Plan(c, a, rr, true).calls
    ensures err == Plan(c, a, rr, true).error
  {
    ghost var before := c.log;
    ghost var dels := DeleteCalls(c, a.id, a.overrides);
    ghost var posts := OverridePosts(c, a, rr);
    ghost var tail := if posts.error.None? then [EditCall(c, a, rr.rec)] else [];
    DeleteOverrides(a, c);
    err := None;
    if !rr.single {
      err := PostLoop(c, a.id, a.sections.keys, rr.rec.sections, rr.rec.lock, rr.rec.unlock);
    } else {
      assert c.log == (before + dels) + posts.calls;
    }
    if err.None? {
      c.EditAssignment(a.id, AssignmentPayload(rr.rec.name, rr.rec.due, rr.rec.muted, rr.rec.published,
                                               rr.rec.lock, rr.rec.unlock));
    }
    Associative(before, dels, posts.calls);
    Associative(before, dels + posts.calls, tail);
  }

  /** The write step of one row: `compare`, then rewrite if anything changed. */
  method Write(c: Canvas, a: Assignment, rr: RowRecord) returns (err: Option<Error>)
    modifies c`log
    ensures c.log == old(c.log) + WritePlan(c, a, rr).calls
    ensures err == WritePlan(c, a, rr).error
  {
    var comp := CompareWith(a, CandidateOf(rr.rec));
    AnyFalseIsChanged(a, rr.rec, comp);
    if false in Values(comp) {
      err := Rewrite(c, a, rr);
    } else {
      err := None;
    }
  }

  // ----- what the plan promises -----

  /** A record that reproduces the assignment's own values (as `compare`
      reads them) leads to no request at all. */
  lemma NoChangeNoWrites(c: Canvas, a: Assignment, rr: RowRecord)
    requires 0 <= a.muted <= 1 && 0 <= a.published <= 1
    requires CandidateOf(rr.rec) == Snapshot(a)
    ensures WritePlan(c, a, rr) == Outcome([], None)
  {
    forall k | k in ChangeKeys
      ensures Unchanged(a, CandidateOf(rr.rec), k)
    {
      CompareSelf(a, k);
    }
  }

  /** A row issues no request and raises nothing exactly when `compare`
      finds nothing changed. */
  lemma NoWritesIffUnchanged(c: Canvas, a: Assignment, rr: RowRecord)
    ensures WritePlan(c, a, rr) == Outcome([], None) <==> !Changed(a, rr.rec)
  {
  }

  /** Only sections with a non-empty date get an override. */
  function NonBlank(dates: Dict<int, string>): int -> bool
  {
    k => k in dates.vals && dates.vals[k] != ""
  }

  /** The loop raises exactly when some section has no date, and then
      raises KeyError; otherwise it creates one override per section whose
      date is not empty, in order. */
  lemma {:induction false} PostsSpec(url: string, keys: seq<int>, dates: Dict<int, string>, lock: string, unlock: string)
    ensures Posts(url, keys, dates, lock, unlock).error.None? <==> forall k | k in keys :: k in dates.vals
    ensures Posts(url, keys, dates, lock, unlock).error.Some? ==> Posts(url, keys, dates, lock, unlock).error == Some(KeyError)
    ensures Posts(url, keys, dates, lock, unlock).error.None? ==>
      var ks := Filter(keys, NonBlank(dates));
      && |Posts(url, keys, dates, lock, unlock).calls| == |ks|
      && forall i | 0 <= i < |ks| :: ks[i] in dates.vals
           && Posts(url, keys, dates, lock, unlock).calls[i] == PostCall(url, ks[i], dates.vals[ks[i]], lock, unlock)
  {
    if keys != [] {
      var init := keys[..|keys| - 1];
      PostsSpec(url, init, dates, lock, unlock);
      FilterMembers(init, NonBlank(dates));
      assert keys == init + [keys[|keys| - 1]];
      assert forall k | k in init :: k in keys;
    }
  }

  /** When the record changes something and has a date for each section of
      the assignment: first one DELETE per override, then the override
      POSTs (none if the dates collapsed), then exactly one PUT of the whole
      assignment, and no error. */
  lemma WritePlanOnChange(c: Canvas, a: Assignment, rr: RowRecord)
    requires Changed(a, rr.rec)
    requires rr.single || forall k | k in a.sections.keys :: k in rr.rec.sections.vals
    ensures var posts := OverridePosts(c, a, rr);
      && WritePlan(c, a, rr).error.None?
      && WritePlan(c, a, rr).calls == DeleteCalls(c, a.id, a.overrides) + posts.calls + [EditCall(c, a, rr.rec)]
      && (rr.single ==> posts.calls == [])
      && forall call | call in posts.calls :: call.verb == POST && call.url == c.OverridesUrl(a.id)
  {
    var url := c.OverridesUrl(a.id);
    PostsSpec(url, a.sections.keys, rr.rec.sections, rr.rec.lock, rr.rec.unlock);
    PostsVerbs(url, a.sections.keys, rr.rec.sections, rr.rec.lock, rr.rec.unlock);
  }

  /** A section missing from the row stops the write after the deletions:
      no override for the later sections and no edit. */
  lemma WritePlanMissingSection(c: Canvas, a: Assignment, rr: RowRecord, k: int)
    requires Changed(a, rr.rec) && !rr.single
    requires k in a.sections.keys && k !in rr.rec.sections.vals
    ensures WritePlan(c, a, rr).error == Some(KeyError)
    ensures forall call | call in WritePlan(c, a, rr).calls :: call.verb != PUT
  {
    var url := c.OverridesUrl(a.id);
    var dates := rr.rec.sections;
    PostsSpec(url, a.sections.keys, dates, rr.rec.lock, rr.rec.unlock);
    DeleteCallsSpec(c, a.id, a.overrides);
    PostsVerbs(url, a.sections.keys, dates, rr.rec.lock, rr.rec.unlock);
    var dels := DeleteCalls(c, a.id, a.overrides);
    forall call | call in dels ensures call.verb == DELETE {
      var i :| 0 <= i < |dels| && dels[i] == call;
    }
  }

  lemma {:induction false} PostsVerbs(url: string, keys: seq<int>, dates: Dict<int, string>, lock: string, unlock: string)
    ensures forall call | call in Posts(url, keys, dates, lock, unlock).calls :: call.verb == POST && call.url == url
  {
    if keys != [] {
      PostsVerbs(url, keys[..|keys| - 1], dates, lock, unlock);
    }
  }

  /** Every request of the write step changes something on the server. */
  lemma WritePlanNeverReads(c: Canvas, a: Assignment, rr: RowRecord)
    ensures forall call | call in WritePlan(c, a, rr).calls :: call.verb != GET
  {
    if Changed(a, rr.rec) && !rr.single {
      PostsVerbs(c.OverridesUrl(a.id), a.sections.keys, rr.rec.sections, rr.rec.lock, rr.rec.unlock);
    }
    DeleteCallsSpec(c, a.id, a.overrides);
    var dels := DeleteCalls(c, a.id, a.overrides);
    forall call | call in dels ensures call.verb == DELETE {
      var i :| 0 <= i < |dels| && dels[i] == call;
    }
  }

  // ----- the upload -----

  lemma SectionDictStep(sections: seq<Section>, i: nat)
    requires i < |sections|
    ensures SectionDict(sections[..i + 1]) ==
      if IsLab(sections[i].name) then Put(SectionDict(sections[..i]), sections[i].id, sections[i].name)
      else SectionDict(sections[..i])
  {
    var section := sections[i];
    var labs := LabSections(sections[..i]);
    assert sections[..i + 1][..i] == sections[..i] && sections[..i + 1][i] == section;
    if IsLab(section.name) {
      assert LabSections(sections[..i + 1]) == labs + [section];
      assert Ids(labs + [section]) == Ids(labs) + [section.id];
      assert TsvExport.Names(labs + [section]) == TsvExport.Names(labs) + [section.name];
      ZipSnoc(Ids(labs), TsvExport.Names(labs), section.id, section.name);
    } else {
      assert LabSections(sections[..i + 1]) == labs;
    }
  }

  /** The loop that builds `sectionDict`. */
  method LabSectionDict(sections: seq<Section>) returns (sectionDict: Dict<int, string>)
    ensures sectionDict == SectionDict(sections)
  {
    sectionDict := Empty();
    var i := 0;
    while i < |sections|
      invariant 0 <= i <= |sections|
      invariant sectionDict == SectionDict(sections[..i])
    {
      SectionDictStep(sections, i);
      var section := sections[i];
      if IsLab(section.name) {
        sectionDict := Put(sectionDict, section.id, section.name);
      }
      i := i + 1;
    }
    PrefixWhole(sections);
  }

  function AssignmentIds(olds: seq<Assignment>): (r: seq<int>)
    ensures |r| == |olds| && forall i :: 0 <= i < |olds| ==> r[i] == olds[i].id
  {
    seq(|olds|, i requires 0 <= i < |olds| => olds[i].id)
  }

  /** `oldDict`: each id holds the last assignment listed with it. */
  method OldDict(olds: seq<Assignment>) returns (oldDict: Dict<int, Assignment>)
    ensures oldDict == Zip(AssignmentIds(olds), olds)
  {
    ghost var ids := AssignmentIds(olds);
    oldDict := Empty();
    var i := 0;
    while i < |olds|
      invariant 0 <= i <= |olds|
      invariant oldDict == Zip(ids[..i], olds[..i])
    {
      ZipPrefixStep(ids, olds, i);
      oldDict := Put(oldDict, olds[i].id, olds[i]);
      i := i + 1;
    }
    PrefixWhole(ids);
    PrefixWhole(olds);
  }

  /** `oldDict[int(row[headerCol['Canvas ID']])]` */
  function OldAssignment(row: seq<string>, cols: Columns, oldDict: Dict<int, Assignment>): Result<Assignment>
  {
    var text :- CellNamed(row, cols, "Canvas ID");
    var id :- ParseInt(text);
    if id in oldDict.vals then Ok(oldDict.vals[id]) else Err(KeyError)
  }

  /** What one row needs before anything is written: its record, then the
      assignment it names. */
  function RowInputs(row: seq<string>, cols: Columns, ids: seq<int>, oldDict: Dict<int, Assignment>,
                     toIso: string -> Result<string>): Result<(Assignment, RowRecord)>
  {
    var rr :- RecordOf(row, cols, ids, toIso);
    var a :- OldAssignment(row, cols, oldDict);
    Ok((a, rr))
  }

  method ReadRow(row: seq<string>, cols: Columns, ids: seq<int>, oldDict: Dict<int, Assignment>,
                 toIso: string -> Result<string>) returns (r: Result<(Assignment, RowRecord)>)
    ensures r == RowInputs(row, cols, ids, oldDict, toIso)
  {
    var rr :- ReadRecord(row, cols, ids, toIso);
    var text :- CellNamed(row, cols, "Canvas ID");
    var id :- ParseInt(text);
    if id !in oldDict.vals {
      return Err(KeyError);
    }
    return Ok((oldDict.vals[id], rr));
  }

  /** What one row does: the requests it issues, the entry it adds to
      `newAssignments` (before any request), and the exception it raises. */
  datatype RowEffect = RowEffect(calls: seq<Call>, update: Option<(int, Record)>, error: Option<Error>)

  function RowStep(c: Canvas, row: seq<string>, cols: Columns, ids: seq<int>, oldDict: Dict<int, Assignment>,
                   toIso: string -> Result<string>): RowEffect
  {
    match RowInputs(row, cols, ids, oldDict, toIso)
    case Err(e) => RowEffect([], None, Some(e))
    case Ok((a, rr)) =>
      var plan := WritePlan(c, a, rr);
      RowEffect(plan.calls, Some((a.id, rr.rec)), plan.error)
  }

  function Apply(records: Dict<int, Record>, update: Option<(int, Record)>): Dict<int, Record>
  {
    if update.Some? then Put(records, update.value.0, update.value.1) else records
  }

  /** The row step of one upload, as a value. */
  function StepOf(c: Canvas, cols: Columns, ids: seq<int>, oldDict: Dict<int, Assignment>,
                  toIso: string -> Result<string>): seq<string> -> RowEffect
  {
    row => RowStep(c, row, cols, ids, oldDict, toIso)
  }

  lemma StepOfIs(c: Canvas, cols: Columns, ids: seq<int>, oldDict: Dict<int, Assignment>,
                 toIso: string -> Result<string>)
    ensures forall row {:trigger RowStep(c, row, cols, ids, oldDict, toIso)} ::
      StepOf(c, cols, ids, oldDict, toIso)(row) == RowStep(c, row, cols, ids, oldDict, toIso)
  {
  }

  /** The requests so far, `newAssignments`, and the exception that ended
      the loop, if any. */
  datatype Progress = Progress(calls: seq<Call>, records: Dict<int, Record>, error: Option<Error>)

  /** The row loop of the upload, as a left fold of the row step that stops
      at the first exception. */
  function Rows(rows: seq<seq<string>>, step: seq<string> -> RowEffect): Progress
  {
    if rows == [] then Progress([], Empty(), None)
    else
      var p := Rows(rows[..|rows| - 1], step);
      if p.error.Some? then p
      else
        var e := step(rows[|rows| - 1]);
        Progress(p.calls + e.calls, Apply(p.records, e.update), e.error)
  }

  lemma {:induction false} RowsErrSticky(rows: seq<seq<string>>, step: seq<string> -> RowEffect, n: nat)
    requires n <= |rows| && Rows(rows[..n], step).error.Some?
    ensures Rows(rows, step) == Rows(rows[..n], step)
    decreases |rows|
  {
    if n < |rows| {
      assert rows[..|rows| - 1][..n] == rows[..n];
      RowsErrSticky(rows[..|rows| - 1], step, n);
    } else {
      PrefixWhole(rows);
    }
  }

  lemma RowsStep(rows: seq<seq<string>>, step: seq<string> -> RowEffect, i: nat)
    requires i < |rows| && Rows(rows[..i], step).error.None?
    ensures var p := Rows(rows[..i], step);
      var e := step(rows[i]);
      var q := Progress(p.calls + e.calls, Apply(p.records, e.update), e.error);
      && Rows(rows[..i + 1], step) == q
      && (e.error.Some? ==> Rows(rows, step) == q)
  {
    assert rows[..i + 1][..i] == rows[..i] && rows[..i + 1][i] == rows[i];
    if step(rows[i]).error.Some? {
      RowsErrSticky(rows, step, i + 1);
    }
  }

  /** The result of `upload`: the requests it issues and what it returns or
      raises. */
  datatype Upshot = Upshot(calls: seq<Call>, result: Result<(Dict<int, Record>, Dict<int, Assignment>)>)

  /** What `upload` returns, or raises, once the row loop has ended. */
  function Finish(c: Canvas, oldDict: Dict<int, Assignment>, p: Progress): Upshot
  {
    Upshot([Call(GET, c.SectionsUrl(), NoPayload)] + p.calls,
           if p.error.Some? then Err(p.error.value) else Ok((p.records, oldDict)))
  }

  /** The columns the rows are read by: the header row's own positions, and
      the column of each section that some header names. */
  function ColumnsOf(header: seq<string>, sections: seq<Section>): Columns
  {
    var headerCol := Zip(header, Range(|header|));
    Columns(headerCol, MatchColumns(headerCol, sections))
  }

  /** The upload once the header row has been read: the sections are
      fetched, then each further row is read and written. */
  function AfterHeader(c: Canvas, oldDict: Dict<int, Assignment>, header: seq<string>, body: seq<seq<string>>,
                       sections: seq<Section>, toIso: string -> Result<string>): Upshot
  {
    var step := StepOf(c, ColumnsOf(header, sections), SectionDict(sections).keys, oldDict, toIso);
    Finish(c, oldDict, Rows(body, step))
  }

  /** The upload of a file whose lines are `rows`, for a course whose
      assignments are `olds` and whose sections are `sections`. The header
      row is read first, so an empty file raises StopIteration. */
  function UploadRun(c: Canvas, olds: seq<Assignment>, rows: seq<seq<string>>, sections: seq<Section>,
                     toIso: string -> Result<string>): Upshot
  {
    if rows == [] then Upshot([], Err(StopIteration))
    else AfterHeader(c, Zip(AssignmentIds(olds), olds), rows[0], rows[1..], sections, toIso)
  }

  /** One row of the loop. */
  method UploadRow(c: Canvas, records: Dict<int, Record>, row: seq<string>, cols: Columns, ids: seq<int>,
                   oldDict: Dict<int, Assignment>, toIso: string -> Result<string>, ghost step: seq<string> -> RowEffect)
    returns (records': Dict<int, Record>, err: Option<Error>)
    requires forall row {:trigger RowStep(c, row, cols, ids, oldDict, toIso)} ::
      step(row) == RowStep(c, row, cols, ids, oldDict, toIso)
    modifies c`log
    ensures c.log == old(c.log) + step(row).calls
    ensures records' == Apply(records, step(row).update)
    ensures err == step(row).error
  {
    assert step(row) == RowStep(c, row, cols, ids, oldDict, toIso);
    var inputs := ReadRow(row, cols, ids, oldDict, toIso);
    if inputs.Err? {
      return records, Some(inputs.error);
    }
    var (a, rr) := inputs.value;
    records' := Put(records, a.id, rr.rec);
    err := Write(c, a, rr);
  }

  /** The row loop: each row is read and written until one raises. */
  method RowLoop(c: Canvas, body: seq<seq<string>>, cols: Columns, ids: seq<int>,
                 oldDict: Dict<int, Assignment>, toIso: string -> Result<string>, ghost step: seq<string> -> RowEffect)
    returns (records: Dict<int, Record>, err: Option<Error>)
    requires forall row {:trigger RowStep(c, row, cols, ids, oldDict, toIso)} ::
      step(row) == RowStep(c, row, cols, ids, oldDict, toIso)
    modifies c`log
    ensures c.log == old(c.log) + Rows(body, step).calls
    ensures records == Rows(body, step).records
    ensures err == Rows(body, step).error
  {
    ghost var start := c.log;
    records := Empty();
    var i := 0;
    while i < |body|
      invariant 0 <= i <= |body|
      invariant Rows(body[..i], step).error.None?
      invariant Rows(body[..i], step).records == records
      invariant c.log == start + Rows(body[..i], step).calls
    {
      RowsStep(body, step, i);
      ghost var calls := Rows(body[..i], step).calls;
      ghost var e := step(body[i]);
      records, err := UploadRow(c, records, body[i], cols, ids, oldDict, toIso, step);
      Associative(start, calls, e.calls);
      if err.Some? {
        return;
      }
      i := i + 1;
    }
    PrefixWhole(body);
    return records, None;
  }

  /** The part of `upload` after the header row. */
  method UploadBody(c: Canvas, oldDict: Dict<int, Assignment>, header: seq<string>, body: seq<seq<string>>,
                    sections: seq<Section>, toIso: string -> Result<string>)
    returns (r: Result<(Dict<int, Record>, Dict<int, Assignment>)>)
    modifies c`log
    ensures c.log == old(c.log) + AfterHeader(c, oldDict, header, body, sections, toIso).calls
    ensures r == AfterHeader(c, oldDict, header, body, sections, toIso).result
  {
    var headerCol := GetHeaders(header);
    ghost var start := c.log;
    c.GetSections();
    ghost var fetched := c.log;
    var sectionDict := LabSectionDict(sections);
    var sectionHeaders := SectionHeaders(headerCol, sections);
    var cols := Columns(headerCol, sectionHeaders);
    assert cols == ColumnsOf(header, sections);
    ghost var step := StepOf(c, cols, sectionDict.keys, oldDict, toIso);
    assert AfterHeader(c, oldDict, header, body, sections, toIso) == Finish(c, oldDict, Rows(body, step));
    StepOfIs(c, cols, sectionDict.keys, oldDict, toIso);
    var records, err := RowLoop(c, body, cols, sectionDict.keys, oldDict, toIso, step);
    Associative(start, [Call(GET, c.SectionsUrl(), NoPayload)], Rows(body, step).calls);
    r := if err.Some? then Err(err.value) else Ok((records, oldDict));
  }

  lemma Associative<T>(a: seq<T>, b: seq<T>, c: seq<T>)
    ensures (a + b) + c == a + (b + c)
  {
  }

  /** `upload`, once the course's assignments and sections have been
      fetched and the file has been split into rows of cells. */
  method Upload(c: Canvas, olds: seq<Assignment>, rows: seq<seq<string>>, sections: seq<Section>,
                toUtc: Instant -> Instant)
    returns (r: Result<(Dict<int, Record>, Dict<int, Assignment>)>)
    modifies c`log
    ensures c.log == old(c.log) + UploadRun(c, olds, rows, sections, ToIso(toUtc)).calls
    ensures r == UploadRun(c, olds, rows, sections, ToIso(toUtc)).result
  {
    var oldDict := OldDict(olds);
    if rows == [] {
      return Err(StopIteration);
    }
    r := UploadBody(c, oldDict, rows[0], rows[1..], sections, ToIso(toUtc));
  }
}
