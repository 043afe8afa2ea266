# Canvas assignment synchroniser, modelled in Dafny

This project models the core of a tool that round-trips the assignments of one Canvas course through a tab-separated spreadsheet.

**CanvasAPI.py**
- The REST client `Canvas`: the normalised API root, the endpoint URLs, and the requests it issues.
- The reconciler `Assignment`:
  - its construction from the course's lab sections and the assignment's override records;
  - the fuzzy accessor `get`;
  - `compare` and `compareSections`;
  - `deleteOverrides`.
- The record filter `filterData`.

**editor.py**
- The timestamp converters `local_to_iso` and `iso_to_local`.
- The lab-override filter of `getCourseAssignments`.
- The text `create_Canvas_TSV` writes.
- The `upload` function:
  - reading the header row and matching sections to columns;
  - turning a row into a record, with equal section dates collapsed into one due date;
  - the write plan: delete the overrides, create new ones, edit the assignment.

Modules, one per file:

| file | module | what it holds |
|---|---|---|
| `py.dfy` | `Py` | The Python semantics the code relies on: `None`-or-`str` fields, truthiness, ASCII `lower()`, `sub in s`, `str()`/`int()` on integers, and exceptions carried as a `Result`. |
| `ordered_dict.dfy` | `OrderedDict` | Python's insertion-ordered `dict`, with assignment, `del`, and building a dict from parallel lists. |
| `canvas_client.dfy` | `CanvasClient` | The class `Canvas`. Its requests go to a call log (`seq<Call>`) that its methods extend. |
| `assignment.dfy` | `AssignmentModel` | The `Assignment` value, its construction loops, `get`, and `deleteOverrides`. |
| `compare.dfy` | `Compare` | `compare` and `compareSections`, as loops proved against specification predicates. |
| `record_filter.dfy` | `RecordFilter` | `filterData`, in place on an array of records. |
| `time_codec.dfy` | `TimeCodec` | `strptime`/`strftime` on the formats used, plus both converters. |
| `tsv_export.dfy` | `TsvExport` | The lab-override filter and `create_Canvas_TSV`. |
| `upload_plan.dfy` | `UploadPlan` | `upload`: header columns, section matching, row records, and the write plan. |

An `Assignment` is a datatype, not a class. Its fields are assigned only while it is constructed. `get`, `compare` and `deleteOverrides` only read them.

Each loop of the source is a `method` proved equal to a specification function, and the lemmas state what that function means.

The time-zone shift is a function parameter. The requests' responses are not modelled: data the code fetches reaches the model as parameters.

Where the documented behaviour and the code differ, the model follows the code, apart from the two corrections listed under Findings:
- `compare` treats `None` and `''` as equal only for `due` and for section dates (CanvasAPI.py:239-242, 258-263). The documentation says it does so for every date field.
  - For `lock` and `unlock`, the stored date (`''` when missing) is compared with the candidate as is, so a `None` candidate always counts as a change. `Compare.UnchangedDateMeaning` states this.
- The round trip `local_to_iso(iso_to_local(t)) == t` holds only when the minute of `t` is not 59 or its second already is (editor.py:214-215). `TimeCodec.RoundTripExact` proves this.
- The other way, `iso_to_local(local_to_iso(s))` gives back the local text only up to normalisation: it is rewritten into the zero-padded `'%m/%d/%Y %H:%M:%S'` form ("1/2/2020 3:04" comes back as "01/02/2020 03:04:00"), given inverse shifts and a UTC minute other than 59 (editor.py:214-215). `TimeCodec.LocalRoundTrip` proves this.
- The text `'None'` becomes `''` in `local_to_iso` but raises ValueError in `iso_to_local` (see Findings).
- When no local format parses, `local_to_iso` reads the unbound `date_in` and raises UnboundLocalError (editor.py:196-210). The model returns that error.

## Model

| member | source | states |
|---|---|---|
| CanvasClient.BaseUrl | CanvasAPI.py:18-22 | Fails with IndexError exactly for an empty host. Otherwise it is the host with one '/' appended only when missing, then "api/v1/". |
| CanvasClient.BaseUrlIgnoresTrailingSlash | CanvasAPI.py:19-22 | "h" and "h/" give the same API root. |
| CanvasClient.Canvas.constructor | CanvasAPI.py:13-24 | Stores the normalised root (`BaseUrl` of the host), the course id and the `Authorization Bearer` header, and starts with an empty call log. |
| CanvasClient.Canvas.Send | CanvasAPI.py:40-53 | A request appends exactly its (verb, url, payload) to the log and changes nothing else. |
| CanvasClient.Canvas.GetSections | CanvasAPI.py:56-58 | One GET of `<root>courses/<id>/sections`. |
| CanvasClient.Canvas.GetAllAssignments | CanvasAPI.py:61-67 | The quiz list GET, then the assignment list GET with `all_dates=1&per_page=100`, in that order. |
| CanvasClient.Canvas.GetAssignment | CanvasAPI.py:70-73 | One GET of the assignment URL, with the id written by `str()`. |
| CanvasClient.Canvas.MakeAssignment | CanvasAPI.py:76-78 | As written, a GET (not a POST) of the assignments collection URL, carrying the payload. |
| CanvasClient.Canvas.EditAssignment | CanvasAPI.py:81-84 | One PUT of the assignment URL with the payload. |
| CanvasClient.Canvas.GetAssignmentOverrides | CanvasAPI.py:87-90 | One GET of `.../assignments/<id>/overrides`. |
| CanvasClient.Canvas.MakeAssignmentOverride | CanvasAPI.py:93-96 | One POST of the overrides URL with the payload. |
| CanvasClient.Canvas.DeleteAssignmentOverride | CanvasAPI.py:99-103 | One DELETE of `.../overrides/<override id>`. |
| CanvasClient.OverrideUrlInjective | CanvasAPI.py:99-103 | Different (assignment, override) id pairs give different delete URLs. |
| AssignmentModel.LabSectionsSelect | CanvasAPI.py:146-155 | A section is kept iff it is one of the course's and its lower-cased name contains "lab". No more sections come out than went in. |
| AssignmentModel.GetSectionInfo | CanvasAPI.py:146-155 | The loop returns the lab sections in the order the server listed them. |
| AssignmentModel.BlankSections | CanvasAPI.py:161-165 | The first loop of `parseOverrides` builds one `{'name': ...}` entry per lab section. |
| AssignmentModel.OverrideSections | CanvasAPI.py:167-170 | The override loop applies the records in order. The first record that lacks 'due_at', 'course_section_id' or 'id', or names a section that is not in the map, raises KeyError. |
| AssignmentModel.ParseOverrides | CanvasAPI.py:158-170 | `parseOverrides` is both loops in sequence. |
| AssignmentModel.NewAssignment | CanvasAPI.py:130-143 | `Assignment(...)` stores the fields, with `int()` of the two flags, and builds `sections`, or raises KeyError. |
| AssignmentModel.InitialSectionsShape | CanvasAPI.py:161-165 | With distinct ids, the keys are the lab section ids in discovery order. Each entry holds its name and no 'date' or 'id'. |
| AssignmentModel.InitialSectionsDomain | CanvasAPI.py:161-165 | A key is present iff some lab section has that id. No entry has a date or an override id yet. |
| AssignmentModel.ApplyOverridesKeepsKeys | CanvasAPI.py:167-170 | Overrides never add or reorder keys and never change a name. |
| AssignmentModel.ApplyOverridesErrorIff | CanvasAPI.py:167-170 | Construction raises iff some override lacks 'due_at', 'course_section_id' or 'id', or names a section that is not a lab section. The error is then KeyError. |
| AssignmentModel.LastOverrideForSpec | CanvasAPI.py:167-170 | `LastOverrideFor` is None iff no record names the section. Otherwise it is a record naming the section with no later record doing so. |
| AssignmentModel.ApplyOverridesLastWins | CanvasAPI.py:167-170 | An entry gains 'date' and 'id' only from an override naming its section, and the last such override, which carries a 'due_at', wins. |
| AssignmentModel.LabSectionIds | CanvasAPI.py:151-153 | An id belongs to a kept section iff it belongs to a course section whose name contains "lab". |
| AssignmentModel.SectionsOfAssignment | CanvasAPI.py:143-170 | In a built assignment, a key is present iff it names a lab section. Its date and override id are those of the last override naming it (which has a 'due_at'), or absent when there is none. |
| AssignmentModel.Get | CanvasAPI.py:174-217 | `get` raises, always KeyError, exactly for a string key that no test matches, an int key that is not a section, or a key of another type. |
| AssignmentModel.RouteIsOnLowered | CanvasAPI.py:175-203 | The string dispatch depends only on `key.lower()`. It runs the tests 'name', 'due', == 'id', 'override', 'mute', 'publish', 'unlock', 'lock' in that order. |
| AssignmentModel.RouteOfFieldNames | CanvasAPI.py:176-184 | "name", "due", "due_at" and "id" reach the name, due and id fields. |
| AssignmentModel.RouteOfFlagKeys | CanvasAPI.py:187-190 | "muted" and "published" reach the two flags. |
| AssignmentModel.RouteOfMuted | CanvasAPI.py:187-188 | "muted" reaches the muted flag. |
| AssignmentModel.RouteOfPublished | CanvasAPI.py:189-190 | "published" reaches the published flag. |
| AssignmentModel.RouteOfLockKeys | CanvasAPI.py:191-200 | "unlock" and "lock" reach the two dates. |
| AssignmentModel.RouteOfApiDateKeys | CanvasAPI.py:191-200 | "unlock_at" reaches the unlock date, because 'unlock' is tested before 'lock'. "lock_at" reaches the lock date. |
| AssignmentModel.RouteOfUnlockAt | CanvasAPI.py:191-195 | "unlock_at" reaches the unlock date. |
| AssignmentModel.RouteOfLockAt | CanvasAPI.py:196-200 | "lock_at" reaches the lock date. |
| AssignmentModel.RouteOfOtherKeys | CanvasAPI.py:183-203 | "ID" is the id (equality after lower-casing). "overrides" is the override list. "Title" matches no test. |
| AssignmentModel.GetDateIsNeverNone | CanvasAPI.py:178-200 | due, unlock and lock always come back as a string, which is '' exactly when the stored value is falsy. |
| AssignmentModel.GetSectionOfAssignment | CanvasAPI.py:204-214 | For an int key: KeyError unless the id is a lab section. The last override's date if it is truthy, None if it is falsy. With no override, the assignment's due date or ''. |
| AssignmentModel.DeleteOverrides | CanvasAPI.py:220-223 | The loop appends exactly `DeleteCalls` to the log. |
| AssignmentModel.DeleteCallsSpec | CanvasAPI.py:220-223 | One DELETE per override that has an id, in order, each on that override's URL. |
| AssignmentModel.DeleteCallsDistinct | CanvasAPI.py:220-223 | Overrides with different ids are deleted by different requests. |
| AssignmentModel.OverrideIdsComplete | CanvasAPI.py:220-223 | When every override has an id, as construction demands, one DELETE is issued per override record. |
| Compare.CompareSections | CanvasAPI.py:227-248 | The loop answers true iff every candidate section is known and unchanged under `SectionSame`. An unknown section answers false, as the caught KeyError does. |
| Compare.SectionsUnchangedRules | CanvasAPI.py:227-248 | An empty map is unchanged and an unknown section is a change. No prior date: only '' is unchanged. A prior None or '' matches ''. Otherwise the prior date must equal the candidate. |
| Compare.AllTrue | CanvasAPI.py:251 | The initial result has the seven keys in order, all True. |
| Compare.OwnIsGet | CanvasAPI.py:258-265 | For the scalar keys, `self.get(key)` never raises and selects the intended field. |
| Compare.CompareKey | CanvasAPI.py:254-265 | One pass of the loop stores `Unchanged(key)`: sections by `compareSections`, 'due' by the None/'' or equal test, any other key by Python `==`. |
| Compare.CompareWith | CanvasAPI.py:251-267 | The result has exactly the keys name, due, muted, published, sections, lock, unlock, in that order, each holding `Unchanged`. The assignment is a value, so it is not modified. |
| Compare.UnchangedScalarMeaning | CanvasAPI.py:264-265 | The name must be equal. Each flag compares its 0/1 with False/True. |
| Compare.UnchangedDateMeaning | CanvasAPI.py:258-265 | 'due' is unchanged iff the values are equal or one is None and the other ''. lock and unlock must equal the stored date ('' when missing), so a None candidate there is always a change. |
| Compare.CompareSelf | CanvasAPI.py:226-267 | Comparing an assignment with its own values reports every key unchanged, given flags of 0 or 1. |
| RecordFilter.Restrict | CanvasAPI.py:270-282 | A filtered record keeps exactly the keys in the keep-list, in their original order, with their original values. |
| RecordFilter.FilterAll | CanvasAPI.py:270-282 | The list keeps its length, and each record is filtered. |
| RecordFilter.Dropped | CanvasAPI.py:273-278 | The collected keys are distinct, and are exactly the record's keys outside the keep-list. |
| RecordFilter.CollectDropped | CanvasAPI.py:273-278 | The first inner loop collects `Dropped`, in the record's order. |
| RecordFilter.RemoveAll | CanvasAPI.py:280-281 | Deleting the keys one by one leaves exactly the other keys, with their values. |
| RecordFilter.RemoveAllKeys | CanvasAPI.py:280-281 | The remaining keys keep their order. |
| RecordFilter.DeleteKeys | CanvasAPI.py:280-281 | The second inner loop deletes the collected keys from that one record and leaves the other records alone. |
| RecordFilter.RemoveDroppedIsRestrict | CanvasAPI.py:273-281 | Deleting the collected keys gives exactly the filtered record. |
| RecordFilter.FilterData | CanvasAPI.py:270-282 | In place, every record of the array becomes its filtered form. |
| RecordFilter.RestrictKeeps | CanvasAPI.py:270-282 | A key survives iff it was present and is kept. Its value is unchanged, and the record does not grow. |
| RecordFilter.RestrictIdempotent | CanvasAPI.py:270-282 | Filtering a record twice with the same keep-list is filtering it once. |
| RecordFilter.FilterAllIdempotent | CanvasAPI.py:270-282 | Filtering the list twice is filtering it once. |
| OrderedDict.Put | CanvasAPI.py:165 | `d[k] = v` sets the value. An existing key keeps its place and a new key goes last. |
| OrderedDict.Remove | CanvasAPI.py:281 | `del d[k]` removes the key and its value and keeps the order of the others. |
| OrderedDict.ZipLastWins | editor.py:366-370 | Assigning pairs in turn: a key is present iff it occurs, and it holds the value of its last occurrence. |
| OrderedDict.ZipDistinctKeys | editor.py:312-313 | Without repeated keys, the dict's keys are the list in order. |
| OrderedDict.ZipDistinct | editor.py:312-313 | Without repeated keys, each key holds the value at its own position. |
| Py.OrEmpty | CanvasAPI.py:179-182 | `x if x else ''` is '' iff the value is falsy, and the value itself otherwise. |
| Py.LowerContainsIsContainsLower | CanvasAPI.py:152 | `sub in s.lower()` is a substring test on the lower-cased text. |
| Py.ParseIntOfIntStr | editor.py:421 | `int(str(i)) == i` for every integer. |
| Py.IntStrInjective | CanvasAPI.py:99-103 | `str()` maps different integers to different text. |
| TimeCodec.Strptime | editor.py:196-208 | A parse succeeds only when the format's pattern matches the whole text and the date is valid. |
| TimeCodec.Fix59 | editor.py:214-215 | Minute 59 forces second 59. Only the second changes, and a time whose minute is not 59 is unchanged. |
| TimeCodec.LocalToIso | editor.py:183-217 | The only exception is UnboundLocalError, when no local format parses. |
| TimeCodec.IsoToLocalAsWritten | editor.py:220-237 | `iso_to_local` as written. Its only exception is ValueError, from `strptime`. |
| TimeCodec.IsoToLocal | editor.py:220-237 | The corrected `iso_to_local`, whose only exception is ValueError. |
| TimeCodec.ScanStrftime | editor.py:233-237 | Scanning what a format printed, with that format, reads back every field it printed and stops right after it. |
| TimeCodec.StrptimeStrftime | editor.py:233 | `strptime(strftime(t, f), f) == t` for both printed formats. |
| TimeCodec.LocalSecondsReadsBack | editor.py:237 | '%m/%d/%Y %H:%M:%S' reads back its own output and sets every field. |
| TimeCodec.IsoFormatReadsBack | editor.py:233 | '%Y-%m-%dT%H:%M:%SZ' reads back its own output and sets every field. |
| TimeCodec.IsoShapedText | editor.py:188-190 | Text in the ISO template passes the ISO test and fails both local tests. |
| TimeCodec.LocalShapedText | editor.py:225-228 | Text in the local template passes both local tests and fails the ISO test. |
| TimeCodec.IsoTextShape | editor.py:217 | `local_to_iso` prints 20 characters that pass the ISO pass-through test and no local test. |
| TimeCodec.LocalTextShape | editor.py:237 | `iso_to_local` prints 19 characters that pass both local pass-through tests and not the ISO test. |
| TimeCodec.LocalToIsoKeepsIso | editor.py:188-190 | ISO text passes through `local_to_iso` unchanged. |
| TimeCodec.IsoToLocalKeepsLocal | editor.py:225-228 | Local text passes through `iso_to_local` unchanged. |
| TimeCodec.IsoToLocalOfIso | editor.py:233-237 | An ISO time is read back, shifted, and printed in the first local format. |
| TimeCodec.LocalToIsoOfLocal | editor.py:196-217 | A time in the first local format is read back, shifted, given the :59 rule, and printed as ISO. |
| TimeCodec.IsoInjective | editor.py:217 | Two times print the same ISO text only if they are equal. |
| TimeCodec.RoundTrip | editor.py:183-237 | With inverse time-zone shifts, `local_to_iso(iso_to_local(t))` is `t` with the :59 rule applied. |
| TimeCodec.RoundTripExact | editor.py:183-237 | The round trip returns `t` exactly iff its minute is not 59 or its second already is. |
| TimeCodec.LocalRoundTrip | editor.py:183-237 | A non-ISO local text that parses as `t` converts to the ISO text of its UTC shift, and converting that back gives `t` in the zero-padded first local format, when the shifts are inverse and the UTC minute is not 59. |
| TimeCodec.Fix59Exact | editor.py:214-217 | The :59 rule changes the printed time iff the minute is 59 and the second is not. |
| TimeCodec.LocalToIsoIdempotent | editor.py:183-217 | Converting a converted value again changes nothing. |
| TimeCodec.IsoToLocalIdempotent | editor.py:220-237 | Converting a converted value again changes nothing. |
| TimeCodec.ConvertedMinute59 | editor.py:213-217 | A converted time whose minute is 59 reads back with second 59. |
| TimeCodec.LowerNeverCapitalised | editor.py:221 | No string lower-cases to 'None'. |
| TimeCodec.NoneText | editor.py:221-222 | 'None' gives '' in `local_to_iso` and in the corrected `iso_to_local`, but ValueError in `iso_to_local` as written. |
| TimeCodec.AsWrittenAgrees | editor.py:221 | On every other input, the written and the corrected `iso_to_local` agree. |
| TsvExport.RemoveFirst | editor.py:269-270 | `list.remove` drops one element. |
| TsvExport.KeepLabOverrides | editor.py:265-271 | A record without a 'title' raises KeyError. Otherwise the loops leave exactly the records whose title contains "lab", in their original order. |
| TsvExport.RemoveNextOther | editor.py:269-270 | Each `remove` by value takes out the very record that was collected. |
| TsvExport.DropAllOthers | editor.py:265-270 | Removing every collected record leaves exactly the lab records, in order. |
| TsvExport.LabOverridesKept | editor.py:265-271 | A record is kept iff it has a title that contains "lab". Kept and removed records add up to the input. |
| TsvExport.LabColumns | editor.py:294-299 | The names and ids of the lab sections, in discovery order. |
| TsvExport.BuildHeaderKeys | editor.py:311-313 | `headerKeys[headers[x]] = keys[x]` for each column in turn. |
| TsvExport.KeyListExportKeys | editor.py:302-309 | The key list is as long as the header list: 'name', one section id per lab, then unlock_at, lock_at, published, muted, id. |
| TsvExport.ExportKeyValue | editor.py:327 | No exported key returns the override list. |
| TsvExport.ExportColumnsOf | editor.py:302-313 | Every header maps to an exported key. |
| TsvExport.RowCells | editor.py:326-332 | A row that does not raise has one cell per header. |
| TsvExport.TabTerminated | editor.py:319-322 | Cells written with a tab after each end in a tab. |
| TsvExport.CloseLine | editor.py:322 | Dropping the last tab and adding a newline completes the line. |
| TsvExport.HeaderLine | editor.py:319-322 | The header loop writes `Line(headers)`. |
| TsvExport.AppendRow | editor.py:326-333 | The inner loop appends one line of cells, or raises the first failing cell's error. |
| TsvExport.AppendRowStep | editor.py:326-332 | One pass of the inner loop keeps the text and the cells in step. |
| TsvExport.CellErr | editor.py:327-331 | A failing cell makes the whole row fail with its exception. |
| TsvExport.AppendRows | editor.py:325-333 | The outer loop appends one line per assignment, or raises. |
| TsvExport.RowErr | editor.py:325-333 | A failing row makes the whole text fail with its exception. |
| TsvExport.CreateTsv | editor.py:288-333 | The text is the header line ('Title', the lab names, then the five fixed headers) followed by one line per assignment. |
| TsvExport.LineIsJoin | editor.py:319-333 | Every line is its cells joined by tabs, then a newline. |
| TsvExport.SplitJoin | editor.py:333 | Splitting a line at tabs gives its cells back, when no cell holds a tab. |
| TsvExport.ReadLine | editor.py:333 | A written line ends in a newline, and what precedes it splits back into its cells. |
| TsvExport.CellOfInt | editor.py:327 | An integer cell holds `str(i)`, which `int()` reads back as `i`. |
| TsvExport.CellOfBlank | editor.py:327-329 | '', None and 'None' are written as ''. |
| TsvExport.CellOfIsoDate | editor.py:330-331 | An ISO date is written as the local time it stands for. |
| TsvExport.CellNeverNone | editor.py:327-331 | No written cell reads as 'none', in any case. |
| TsvExport.CellAsWritten | editor.py:327-331 | Every cell is the same with `iso_to_local` as written, since the text converted holds a whole ISO time and so never reads as 'none'. |
| UploadPlan.GetHeaders | editor.py:354-359 | `headerCol[entry] = idx` for each column in turn. |
| UploadPlan.HeaderColumns | editor.py:354-359 | Each header of the row has a column holding that header, its last occurrence. Without repeats, the headers keep the row's order. |
| UploadPlan.OldDict | editor.py:366-370 | Each id holds the last assignment listed with it. |
| UploadPlan.LabSectionDict | editor.py:380-384 | The loop builds `sectionDict`: each lab section's id mapped to its name. |
| UploadPlan.SectionDictKeys | editor.py:380-384 | With distinct ids, the keys are the lab section ids in the course's order. |
| UploadPlan.FirstSectionInSpec | editor.py:388-391 | No section matches iff no name occurs in the header. Otherwise the match is the first section whose name occurs. |
| UploadPlan.FindSection | editor.py:388-391 | The inner loop stops at the first section whose name occurs in the header. |
| UploadPlan.SectionHeadersAsWritten | editor.py:386-391 | As written: each header goes to the first section whose name is a substring of it, and a later header overwrites. |
| UploadPlan.StealAsWritten | editor.py:386-391 | When the first section's name occurs in the second's header, the first section takes the second's column. |
| UploadPlan.SubstringMatchLosesSection | editor.py:386-391 | With "Lab 1" and "Lab 10", the written match gives Lab 1 the Lab 10 column and Lab 10 no column. The corrected match gives each its own. |
| UploadPlan.DecoratedHeader | editor.py:386-391 | A header such as "Lab A (Tue)" still gives section "Lab A" its column, in the written match and in the corrected one alike. |
| UploadPlan.SectionHeaders | editor.py:386-394 | The corrected loop gives each section its `Column`. |
| UploadPlan.FirstHeaderWithSpec | editor.py:386-391 | None iff no header contains the name. Otherwise the position of the first header that does. |
| UploadPlan.FindHeader | editor.py:386-391 | The corrected inner search stops at the first header containing the section's name. |
| UploadPlan.ColumnSpec | editor.py:386-394 | A section has no column iff no header contains its name. A header equal to its name gives that header's column. Otherwise it is the first header containing the name, numbered as the source numbers headers. |
| UploadPlan.MatchColumnsSpec | editor.py:386-394 | With distinct ids, a section has a column iff some header contains its name, and the column is its own `Column`. No other id gets one. |
| UploadPlan.StealCorrected | editor.py:386-394 | In the two-section case, the corrected match gives each section its own column. |
| UploadPlan.Steal | editor.py:386-394 | In the two-section case, the written match and the corrected match side by side. |
| UploadPlan.ExportedColumns | editor.py:386-394 | With distinct lab section ids and distinct headers (lab names distinct from each other and from the fixed headers), a sheet as exported: the i-th lab section is matched to column 1+i, which the export filled from that section's id. |
| UploadPlan.SectionDueDates | editor.py:400-402 | The loop yields each lab section's converted cell, or the first failure. |
| UploadPlan.DueDatesSpec | editor.py:400-402 | With distinct ids, the dates are keyed by the lab sections in order, each holding `local_to_iso` of its own cell. |
| UploadPlan.LocalToIsoShape | editor.py:183-217 | Every date `local_to_iso` yields is '' or starts with an ISO timestamp. |
| UploadPlan.LocalToIsoConverts | editor.py:183-217 | `local_to_iso` keeps '' and is idempotent, and its results are '' or ISO. |
| UploadPlan.DateCellShape | editor.py:402 | A section's date is its cell converted, and is '' or ISO. |
| UploadPlan.DueDatesAreIso | editor.py:400-402 | Every section date of a row is '' or an ISO timestamp. |
| UploadPlan.AtMostOneValueIff | editor.py:405 | `len(set(values)) <= 1` holds iff all values are equal. |
| UploadPlan.Blanked | editor.py:409-410 | Blanking keeps the sections and their order. |
| UploadPlan.CollapseDates | editor.py:404-414 | The collapse step as a method. |
| UploadPlan.CollapseMeaning | editor.py:404-414 | With no lab section, IndexError. When all dates are equal: due is that date, every section date is '' and `single` is true. Otherwise: due is '', the dates are kept and `single` is false. |
| UploadPlan.CollapsedDates | editor.py:400-414 | The collapse in terms of the row's cells. `single` holds iff all converted section cells are equal. |
| UploadPlan.ReadRecord | editor.py:400-418 | The record literal is evaluated in the order written, and the first failure raises. |
| UploadPlan.RecordParts | editor.py:418 | name is the Title cell. The flags are `bool(int())` of their cells. lock, unlock and due are `local_to_iso` of their cells. |
| UploadPlan.RecordSpec | editor.py:400-418 | A record has one key per lab section, and the collapse rule holds of its due date and section dates. |
| UploadPlan.RecordDatesAreIso | editor.py:400-418 | Every date of a record is '' or an ISO timestamp. |
| UploadPlan.AnyFalseIsChanged | editor.py:427 | `False in comp.values()` holds iff some key of `compare` is changed. |
| UploadPlan.NoWritesIffUnchanged | editor.py:427-439 | A row issues no request and raises nothing iff `compare` finds nothing changed. |
| UploadPlan.NoChangeNoWrites | editor.py:422-439 | A row that reproduces the assignment's own values issues no request. |
| UploadPlan.PostsSpec | editor.py:432-436 | The override loop raises KeyError iff a section is missing from the row's dates. Otherwise it posts one override per non-empty date, in order, with the row's lock and unlock. |
| UploadPlan.PostsVerbs | editor.py:432-435 | Every request of the override loop is a POST to the overrides URL. |
| UploadPlan.PostLoop | editor.py:432-436 | The loop issues exactly the planned POSTs and ends with the planned error. |
| UploadPlan.Rewrite | editor.py:427-439 | The deletes, then the override POSTs, then the edit, unless a POST step raised. |
| UploadPlan.Write | editor.py:422-439 | The write step issues exactly the calls of `WritePlan`. |
| UploadPlan.WritePlanOnChange | editor.py:427-439 | On a change with dates for every section, the requests are the DELETEs, the POSTs (none if collapsed), then exactly one PUT, and nothing raises. |
| UploadPlan.WritePlanMissingSection | editor.py:432-433 | When the dates did not collapse, a section missing from the row raises KeyError after the deletions, and no edit is sent. |
| UploadPlan.WritePlanNeverReads | editor.py:427-439 | The write step issues no GET. |
| UploadPlan.ReadRow | editor.py:398-421 | A row's record, then the old assignment named by its Canvas ID, or the first exception. |
| UploadPlan.UploadRow | editor.py:398-439 | One row records its entry in `newAssignments`, then writes. |
| UploadPlan.RowLoop | editor.py:398-440 | The row loop is the left fold of the row step, stopping at the first exception. |
| UploadPlan.UploadBody | editor.py:377-442 | After the header row: the sections GET, then the rows. Returns `(newAssignments, oldDict)` or the exception. |
| UploadPlan.Upload | editor.py:349-442 | The whole `upload`. An empty file raises StopIteration. |

## Left out

- Network I/O. The `requests` calls and `toJson` (CanvasAPI.py:29-53) are not modelled, and neither are the server's responses.
  - A request is a log entry (verb, URL, payload).
  - Data the code fetches is a parameter: sections, assignments, override lists.
  - The message printed when an override creation returns nothing (editor.py:435-436) is therefore not modelled. The code carries on either way, and so does the model.
- The quiz endpoints (CanvasAPI.py:106-125) are not modelled. The quiz list that `getAllAssignments` fetches appears only as a request, since `getCourseAssignments` never uses it.
- `Canvas.__repr__` and `Assignment.__repr__` (CanvasAPI.py:26-27, 285-302) are debug text.
- The fetching and object-creation glue of `getCourseAssignments` (editor.py:249-264, 274-281) is left out. The model starts from typed section, override and assignment values; only its override filter (editor.py:265-271) is modelled.
- The sort of `download` by a randomly chosen section (editor.py:343-347) is left out because it is nondeterministic. `CreateTsv` takes the assignments in the order given.
- File reading and writing (editor.py:336-337, 373-374) are left out. `csv.reader`'s quoting is also left out: the upload takes the file as rows of cells, and `Split` splits on tabs only.
- The tkinter `App` class and the `defaults.json` loading (editor.py:29-177) are UI and configuration.
- The time-zone shift through `dateutil` (editor.py:192-193, 210-211, 230-235) is a function parameter: `toUtc` or `toLocal`. Daylight-saving rules are not modelled.
- `print` diagnostics are left out.
- TimeCodec.Strftime: pads years below 1000 to four digits. The platform's C `strftime` may print them unpadded, so times before year 1000 are modelled as padded.
- TimeCodec.Strptime: models ASCII text and only the directives the two converters use (`%m %d %Y %y %H %M %S`, literals and whitespace).
- CanvasClient.Canvas.constructor: requires a non-empty host. The IndexError an empty host raises is stated by `BaseUrl` instead.
- UploadPlan.Upload: the requests made while fetching the old assignments (editor.py:365) are not in its log; the old assignments are a parameter. Its log starts with the sections request at editor.py:380.
- UploadPlan.Upload, UploadPlan.UploadBody, UploadPlan.AfterHeader, UploadPlan.ColumnsOf: read section columns with the corrected match (see Findings), not with the substring match as written. A header equal to a section's name now goes to that section. Otherwise, as written, the first header containing the name is used.
- UploadPlan.MatchColumns: when no header equals a section's name, the first header containing it is taken. So decorated headers such as "Lab 10 (Wed)" placed before "Lab 1 (Tue)" still send "Lab 1" to the wrong column.
- Py.ParseInt / Py.Lower: ASCII only. Python's `int()` also accepts single underscores between digits ("1_0" is 10), non-ASCII decimal digits and non-ASCII whitespace; the model raises ValueError on them. Python's `lower()` also folds non-ASCII letters (the Kelvin sign becomes 'k'), which could reach the key tests of `get`; the model leaves them as they are.
- Compare.CompareWith: `other` is a typed record, so the KeyError of a candidate that lacks a key is not modelled.
- An override record that lacks a key raises KeyError (CanvasAPI.py:169-170, editor.py:267). The model keeps these cases: 'id', 'due_at', 'course_section_id' and 'title' are optional fields of `Override`. A record whose 'due_at' or 'title' is present but null is not modelled: Canvas sends them as strings.

## Findings

| source | as written | input that shows it | evidently intended | confidence | as-written member | corrected member |
|---|---|---|---|---|---|---|
| editor.py:221 | `iso_to_local` tests `date_time.lower() == 'None'`, which no string satisfies, so the text 'None' goes on to `strptime` and raises ValueError | the text 'None' | `.lower() == 'none'`, so 'None' becomes '', as `local_to_iso` does at editor.py:184 | not executed; high | TimeCodec.NoneText | TimeCodec.IsoToLocalIdempotent |
| editor.py:387-391 | a section is matched to the first header that contains its name as a substring, and a later header overwrites an earlier one | lab sections "Lab 1" (id 1) and "Lab 10" (id 2), headers Title, Lab 1, Lab 10: Lab 1 gets column 2 and Lab 10 none, so reading its date raises KeyError | each section reads its own column: the header equal to its name when there is one, and otherwise, as written, the first header containing its name | not executed; high | UploadPlan.SubstringMatchLosesSection | UploadPlan.MatchColumnsSpec |

For the first finding:
- `TimeCodec.IsoToLocalAsWritten` models the code as written.
- `TimeCodec.NoneText` exhibits the failing input.
- `TimeCodec.IsoToLocal` is the corrected converter. `TsvExport.Cell` uses it, but the export does not differ from the source: `TsvExport.CellAsWritten` shows every cell is the same with the converter as written.

For the second finding:
- `UploadPlan.SectionHeadersAsWritten` and `UploadPlan.MatchAsWritten` model the matching as written.
- `UploadPlan.SectionHeaders` and `UploadPlan.MatchColumns` are the corrected matching, which `UploadPlan.Upload` uses.
- The correction keeps the documented tolerance of headers that add to a section's name (`UploadPlan.DecoratedHeader`).
