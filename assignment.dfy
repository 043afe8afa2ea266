/** The reconciler's in-memory assignment: its scalar fields, the per-section
    map built from the course's lab sections and the assignment's override
    records, the fuzzy field accessor `get`, and the deletion of its overrides.
    Every field is assigned while the object is constructed and never changed
    afterwards, so the object is a value here and its construction a method. */
module AssignmentModel {
  import opened Py
  import opened OrderedDict
  import opened CanvasClient

  /** A course section, as kept by `filterData(sections, ['name', 'id'])`. */
  datatype Section = Section(id: int, name: string)

  /** An override record, as kept by
      `filterData(overrides, ['id', 'due_at', 'course_section_id', 'title'])`.
      A field is `None` when the record has no such key: Canvas leaves
      'due_at' out of an override that sets only availability dates, and
      'course_section_id' out of one made for individual students. */
  datatype Override = Override(id: Option<int>, dueAt: Option<NStr>, sectionId: Option<int>, title: Option<string>)

  /** One value of `self.sections`: `{'name': ...}`, plus 'date' and 'id' once
      an override has named the section. */
  datatype SectionEntry = SectionEntry(name: string, date: Option<NStr>, overrideId: Option<int>)

  datatype Assignment = Assignment(
    name: string,
    due: NStr,
    id: int,
    overrides: seq<Override>,
    muted: int,
    published: int,
    unlock: NStr,
    lock: NStr,
    sections: Dict<int, SectionEntry>)

  /** `'lab' in name.lower()` */
  predicate IsLab(name: string)
  {
    LowerContains(name, "lab")
  }

  // ----- getSectionInfo -----

  /** The lab sections of a course, in the order the server listed them. */
  function LabSections(secs: seq<Section>): seq<Section>
  {
    if secs == [] then []
    else LabSections(secs[..|secs| - 1]) + (if IsLab(secs[|secs| - 1].name) then [secs[|secs| - 1]] else [])
  }

  lemma {:induction false} LabSectionsSelect(secs: seq<Section>)
    ensures |LabSections(secs)| <= |secs|
    ensures forall s :: s in LabSections(secs) <==> s in secs && IsLab(s.name)
  {
    if secs != [] {
      LabSectionsSelect(secs[..|secs| - 1]);
      assert secs == secs[..|secs| - 1] + [secs[|secs| - 1]];
    }
  }

  method GetSectionInfo(courseSections: seq<Section>) returns (sectionList: seq<Section>)
    ensures sectionList == LabSections(courseSections)
  {
    sectionList := [];
    var i := 0;
    while i < |courseSections|
      invariant 0 <= i <= |courseSections|
      invariant sectionList == LabSections(courseSections[..i])
    {
      PrefixStep(courseSections, i);
      if IsLab(courseSections[i].name) {
        sectionList := sectionList + [courseSections[i]];
      }
      i := i + 1;
    }
    PrefixWhole(courseSections);
  }

  // ----- parseOverrides -----

  /** `self.sections` after the first loop: one `{'name': ...}` entry per lab section. */
  function InitialSections(labs: seq<Section>): Dict<int, SectionEntry>
  {
    if labs == [] then Empty()
    else
      var s := labs[|labs| - 1];
      Put(InitialSections(labs[..|labs| - 1]), s.id, SectionEntry(s.name, None, None))
  }

  /** A record one iteration of the override loop raises KeyError on: it
      lacks 'due_at' (read first, on the right of line 169), or
      'course_section_id', or names a section not in the map, or lacks 'id'
      (line 170). */
  predicate BadOverride(d: Dict<int, SectionEntry>, o: Override)
  {
    o.dueAt.None? || o.sectionId.None? || o.sectionId.value !in d.vals || o.id.None?
  }

  /** One iteration of the override loop: the section's entry gains the
      record's 'due_at' as 'date' and its 'id', or KeyError. */
  function ApplyOverride(d: Dict<int, SectionEntry>, o: Override): Result<Dict<int, SectionEntry>>
  {
    if BadOverride(d, o) then Err(KeyError)
    else Ok(Put(d, o.sectionId.value, d.vals[o.sectionId.value].(date := o.dueAt, overrideId := o.id)))
  }

  /** The override loop, one record after another; the first KeyError ends it. */
  function ApplyOverrides(d: Dict<int, SectionEntry>, ovs: seq<Override>): Result<Dict<int, SectionEntry>>
  {
    if ovs == [] then Ok(d)
    else
      var prev :- ApplyOverrides(d, ovs[..|ovs| - 1]);
      ApplyOverride(prev, ovs[|ovs| - 1])
  }

  /** The object `Assignment(...)` builds, or the KeyError it raises. */
  function AssignmentOf(name: string, dueAt: NStr, id: int, overrides: seq<Override>, muted: bool,
                        published: bool, unlockAt: NStr, lockAt: NStr, courseSections: seq<Section>)
    : Result<Assignment>
  {
    var sections :- ApplyOverrides(InitialSections(LabSections(courseSections)), overrides);
    Ok(Assignment(name, dueAt, id, overrides, if muted then 1 else 0, if published then 1 else 0,
                  unlockAt, lockAt, sections))
  }

  lemma {:induction false} ApplyOverridesErrSticky(d: Dict<int, SectionEntry>, ovs: seq<Override>, n: nat)
    requires n <= |ovs| && ApplyOverrides(d, ovs[..n]).Err?
    ensures ApplyOverrides(d, ovs) == ApplyOverrides(d, ovs[..n])
    decreases |ovs|
  {
    if n < |ovs| {
      assert ovs[..|ovs| - 1][..n] == ovs[..n];
      ApplyOverridesErrSticky(d, ovs[..|ovs| - 1], n);
    } else {
      PrefixWhole(ovs);
    }
  }

  method ParseOverrides(secList: seq<Section>, overrides: seq<Override>)
    returns (r: Result<Dict<int, SectionEntry>>)
    ensures r == ApplyOverrides(InitialSections(secList), overrides)
  {
    var sections := BlankSections(secList);
    r := OverrideSections(sections, overrides);
  }

  /** The first loop of `parseOverrides`: every lab section, with no date yet. */
  method BlankSections(secList: seq<Section>) returns (sections: Dict<int, SectionEntry>)
    ensures sections == InitialSections(secList)
  {
    sections := Empty();
    var i := 0;
    while i < |secList|
      invariant 0 <= i <= |secList|
      invariant sections == InitialSections(secList[..i])
    {
      InitialSectionsStep(secList, i);
      sections := Put(sections, secList[i].id, SectionEntry(secList[i].name, None, None));
      i := i + 1;
    }
    PrefixWhole(secList);
  }

  /** The second loop of `parseOverrides`: each override dates its section. */
  method OverrideSections(d: Dict<int, SectionEntry>, overrides: seq<Override>)
    returns (r: Result<Dict<int, SectionEntry>>)
    ensures r == ApplyOverrides(d, overrides)
  {
    var sections := d;
    var j := 0;
    while j < |overrides|
      invariant 0 <= j <= |overrides|
      invariant ApplyOverrides(d, overrides[..j]) == Ok(sections)
    {
      var o := overrides[j];
      ApplyOverridesStep(d, overrides, j, sections);
      if o.dueAt.None? || o.sectionId.None? || o.sectionId.value !in sections.vals || o.id.None? {
        ApplyOverridesErrSticky(d, overrides, j + 1);
        return Err(KeyError);
      }
      var k := o.sectionId.value;
      sections := Put(sections, k, sections.vals[k].(date := o.dueAt, overrideId := o.id));
      j := j + 1;
    }
    PrefixWhole(overrides);
    r := Ok(sections);
  }

  lemma InitialSectionsStep(secList: seq<Section>, i: nat)
    requires i < |secList|
    ensures InitialSections(secList[..i + 1])
         == Put(InitialSections(secList[..i]), secList[i].id, SectionEntry(secList[i].name, None, None))
  {
    PrefixStep(secList, i);
  }

  lemma ApplyOverridesStep(d: Dict<int, SectionEntry>, ovs: seq<Override>, j: nat, prev: Dict<int, SectionEntry>)
    requires j < |ovs| && ApplyOverrides(d, ovs[..j]) == Ok(prev)
    ensures ApplyOverrides(d, ovs[..j + 1]) == ApplyOverride(prev, ovs[j])
  {
    PrefixStep(ovs, j);
  }

  /** `Assignment.__init__`: store the fields (`int()` of the two flags), then
      build `self.sections`. */
  method NewAssignment(name: string, dueAt: NStr, id: int, overrides: seq<Override>, muted: bool,
                       published: bool, unlockAt: NStr, lockAt: NStr, courseSections: seq<Section>)
    returns (r: Result<Assignment>)
    ensures r == AssignmentOf(name, dueAt, id, overrides, muted, published, unlockAt, lockAt, courseSections)
  {
    var secList := GetSectionInfo(courseSections);
    var sections := ParseOverrides(secList, overrides);
    if sections.Err? {
      return Err(sections.error);
    }
    r := Ok(Assignment(name, dueAt, id, overrides, if muted then 1 else 0, if published then 1 else 0,
                       unlockAt, lockAt, sections.value));
  }

  // ----- what construction builds -----

  function Ids(secs: seq<Section>): (r: seq<int>)
    ensures |r| == |secs| && forall i :: 0 <= i < |secs| ==> r[i] == secs[i].id
  {
    seq(|secs|, i requires 0 <= i < |secs| => secs[i].id)
  }

  predicate DistinctIds(secs: seq<Section>)
  {
    forall i, j :: 0 <= i < j < |secs| ==> secs[i].id != secs[j].id
  }

  /** Before any override: one key per lab section, in discovery order, each
      storing its name and neither 'date' nor 'id'. */
  lemma {:induction false} InitialSectionsShape(labs: seq<Section>)
    requires DistinctIds(labs)
    ensures InitialSections(labs).keys == Ids(labs)
    ensures forall i :: 0 <= i < |labs| ==>
      InitialSections(labs).vals[labs[i].id] == SectionEntry(labs[i].name, None, None)
  {
    if labs != [] {
      var init := labs[..|labs| - 1];
      InitialSectionsShape(init);
      assert Ids(labs) == Ids(init) + [labs[|labs| - 1].id];
    }
  }

  /** The override loop keeps the keys, their order and the names. */
  lemma {:induction false} ApplyOverridesKeepsKeys(d: Dict<int, SectionEntry>, ovs: seq<Override>)
    requires ApplyOverrides(d, ovs).Ok?
    ensures ApplyOverrides(d, ovs).value.keys == d.keys
    ensures forall k :: k in d.vals ==> ApplyOverrides(d, ovs).value.vals[k].name == d.vals[k].name
  {
    if ovs != [] {
      ApplyOverridesKeepsKeys(d, ovs[..|ovs| - 1]);
    }
  }

  /** The override loop raises KeyError exactly when some record lacks
      'due_at', 'course_section_id' or 'id', or names a section that is not a
      lab section of the course. */
  lemma {:induction false} ApplyOverridesErrorIff(d: Dict<int, SectionEntry>, ovs: seq<Override>)
    ensures ApplyOverrides(d, ovs).Err?
        <==> exists j :: 0 <= j < |ovs| && BadOverride(d, ovs[j])
    ensures ApplyOverrides(d, ovs).Err? ==> ApplyOverrides(d, ovs).error == KeyError
  {
    if ovs != [] {
      var init, last := ovs[..|ovs| - 1], ovs[|ovs| - 1];
      ApplyOverridesErrorIff(d, init);
      BadSnoc(d, ovs, init);
      if ApplyOverrides(d, init).Ok? {
        ApplyOverridesKeepsKeys(d, init);
        var prev := ApplyOverrides(d, init).value;
        assert forall k :: k in d.vals <==> k in prev.vals;
        assert ApplyOverride(prev, last).Err? <==> BadOverride(d, last);
      }
    }
  }

  /** A bad record among `ovs` is one among all but the last, or the last. */
  lemma BadSnoc(d: Dict<int, SectionEntry>, ovs: seq<Override>, init: seq<Override>)
    requires ovs != [] && init == ovs[..|ovs| - 1]
    ensures (exists j :: 0 <= j < |ovs| && BadOverride(d, ovs[j]))
        <==> (exists j :: 0 <= j < |init| && BadOverride(d, init[j]))
             || BadOverride(d, ovs[|ovs| - 1])
  {
    assert forall j :: 0 <= j < |init| ==> init[j] == ovs[j];
  }

  /** The last override record naming section `k`, if any. */
  function LastOverrideFor(ovs: seq<Override>, k: int): Option<Override>
  {
    if ovs == [] then None
    else if ovs[|ovs| - 1].sectionId == Some(k) then Some(ovs[|ovs| - 1])
    else LastOverrideFor(ovs[..|ovs| - 1], k)
  }

  lemma {:induction false} LastOverrideForSpec(ovs: seq<Override>, k: int)
    ensures LastOverrideFor(ovs, k).None? <==> forall j :: 0 <= j < |ovs| ==> ovs[j].sectionId != Some(k)
    ensures LastOverrideFor(ovs, k).Some? ==>
      exists j :: 0 <= j < |ovs| && ovs[j] == LastOverrideFor(ovs, k).value && ovs[j].sectionId == Some(k)
                  && forall j' :: j < j' < |ovs| ==> ovs[j'].sectionId != Some(k)
  {
    if ovs != [] {
      var n := |ovs| - 1;
      if ovs[n].sectionId == Some(k) {
        assert LastOverrideFor(ovs, k) == Some(ovs[n]);
      } else {
        LastOverrideForSpec(ovs[..n], k);
        LastOverrideSkipNone(ovs, k);
        LastOverrideSkipSome(ovs, k);
      }
    }
  }

  /** A last record naming another section changes nothing: no record names `k`. */
  lemma LastOverrideSkipNone(ovs: seq<Override>, k: int)
    requires ovs != [] && ovs[|ovs| - 1].sectionId != Some(k)
    requires var init := ovs[..|ovs| - 1];
      LastOverrideFor(init, k).None? <==> forall j :: 0 <= j < |init| ==> init[j].sectionId != Some(k)
    ensures LastOverrideFor(ovs, k).None? <==> forall j :: 0 <= j < |ovs| ==> ovs[j].sectionId != Some(k)
  {
    var init := ovs[..|ovs| - 1];
    assert LastOverrideFor(ovs, k) == LastOverrideFor(init, k);
    assert forall j :: 0 <= j < |init| ==> init[j] == ovs[j];
  }

  /** A last record naming another section changes nothing: the same record is last. */
  lemma LastOverrideSkipSome(ovs: seq<Override>, k: int)
    requires ovs != [] && ovs[|ovs| - 1].sectionId != Some(k)
    requires var init := ovs[..|ovs| - 1];
      LastOverrideFor(init, k).Some? ==>
        exists j :: 0 <= j < |init| && init[j] == LastOverrideFor(init, k).value && init[j].sectionId == Some(k)
                    && forall j' :: j < j' < |init| ==> init[j'].sectionId != Some(k)
    ensures LastOverrideFor(ovs, k).Some? ==>
      exists j :: 0 <= j < |ovs| && ovs[j] == LastOverrideFor(ovs, k).value && ovs[j].sectionId == Some(k)
                  && forall j' :: j < j' < |ovs| ==> ovs[j'].sectionId != Some(k)
  {
    var init := ovs[..|ovs| - 1];
    assert LastOverrideFor(ovs, k) == LastOverrideFor(init, k);
    if LastOverrideFor(init, k).Some? {
      var j :| 0 <= j < |init| && init[j] == LastOverrideFor(init, k).value && init[j].sectionId == Some(k)
               && forall j' :: j < j' < |init| ==> init[j'].sectionId != Some(k);
      assert ovs[j] == init[j];
      assert forall j' :: j < j' < |ovs| ==> ovs[j'].sectionId != Some(k) by {
        assert forall j' :: j < j' < |init| ==> init[j'] == ovs[j'];
      }
    }
  }

  /** A section gains 'date' and 'id' only from an override naming it, and
      the last such override wins. */
  lemma {:induction false} ApplyOverridesLastWins(d: Dict<int, SectionEntry>, ovs: seq<Override>, k: int)
    requires ApplyOverrides(d, ovs).Ok? && k in d.vals
    ensures k in ApplyOverrides(d, ovs).value.vals
    ensures ApplyOverrides(d, ovs).value.vals[k] ==
      match LastOverrideFor(ovs, k)
      case None => d.vals[k]
      case Some(o) => d.vals[k].(date := o.dueAt, overrideId := o.id)
    ensures LastOverrideFor(ovs, k).Some? ==> LastOverrideFor(ovs, k).value.dueAt.Some?
  {
    if ovs != [] {
      var init := ovs[..|ovs| - 1];
      ApplyOverridesLastWins(d, init, k);
      ApplyOverridesKeepsKeys(d, init);
    }
  }

  /** The construction lemmas above, put together: a section id is a key of
      the built map iff it names a lab section of the course; its entry has a
      date exactly when some override names it, and then the last one's. */
  predicate IsLabSectionId(courseSections: seq<Section>, k: int)
  {
    exists i :: 0 <= i < |courseSections| && courseSections[i].id == k && IsLab(courseSections[i].name)
  }

  lemma {:induction false} InitialSectionsDomain(labs: seq<Section>)
    ensures forall k :: k in InitialSections(labs).vals <==> exists i :: 0 <= i < |labs| && labs[i].id == k
    ensures forall k :: k in InitialSections(labs).vals ==>
      InitialSections(labs).vals[k].date.None? && InitialSections(labs).vals[k].overrideId.None?
  {
    if labs != [] {
      var init := labs[..|labs| - 1];
      InitialSectionsDomain(init);
      assert forall i :: 0 <= i < |init| ==> init[i] == labs[i];
    }
  }

  lemma LabSectionIds(courseSections: seq<Section>, k: int)
    ensures (exists i :: 0 <= i < |LabSections(courseSections)| && LabSections(courseSections)[i].id == k)
        <==> IsLabSectionId(courseSections, k)
  {
    var labs := LabSections(courseSections);
    LabSectionsSelect(courseSections);
    if IsLabSectionId(courseSections, k) {
      var i :| 0 <= i < |courseSections| && courseSections[i].id == k && IsLab(courseSections[i].name);
      assert courseSections[i] in labs;
    }
    if exists i :: 0 <= i < |labs| && labs[i].id == k {
      var i :| 0 <= i < |labs| && labs[i].id == k;
      assert labs[i] in courseSections;
    }
  }

  lemma SectionsOfAssignment(name: string, dueAt: NStr, id: int, overrides: seq<Override>, muted: bool,
                             published: bool, unlockAt: NStr, lockAt: NStr, courseSections: seq<Section>, k: int)
    requires AssignmentOf(name, dueAt, id, overrides, muted, published, unlockAt, lockAt, courseSections).Ok?
    ensures var a := AssignmentOf(name, dueAt, id, overrides, muted, published, unlockAt, lockAt, courseSections).value;
      && (k in a.sections.vals <==> IsLabSectionId(courseSections, k))
      && (k in a.sections.vals ==>
            (match LastOverrideFor(overrides, k)
             case None => a.sections.vals[k].date.None? && a.sections.vals[k].overrideId.None?
             case Some(o) => o.dueAt.Some? && a.sections.vals[k].date == o.dueAt && a.sections.vals[k].overrideId == o.id))
  {
    var d := InitialSections(LabSections(courseSections));
    InitialSectionsDomain(LabSections(courseSections));
    LabSectionIds(courseSections, k);
    ApplyOverridesKeepsKeys(d, overrides);
    KeysAreDomain(d);
    KeysAreDomain(ApplyOverrides(d, overrides).value);
    if k in d.vals {
      ApplyOverridesLastWins(d, overrides, k);
    }
  }

  // ----- get -----

  /** The argument of `get`: a `str`, an `int`, or anything else. */
  datatype Key = StrKey(s: string) | IntKey(n: int) | OtherKey

  /** What `get` can return. */
  datatype Value = Str(s: string) | NoneValue | Int(i: int) | Bool(b: bool) | OverrideList(os: seq<Override>)

  /** The attribute a string key selects. */
  datatype Field = NameField | DueField | IdField | OverridesField | MutedField | PublishedField | UnlockField | LockField

  /** The string-key dispatch of `get`: the first test that holds of the
      lower-cased key decides. */
  function Route(key: string): Option<Field>
  {
    if LowerContains(key, "name") then Some(NameField)
    else if LowerContains(key, "due") then Some(DueField)
    else if LowerEquals(key, "id") then Some(IdField)
    else if LowerContains(key, "override") then Some(OverridesField)
    else if LowerContains(key, "mute") then Some(MutedField)
    else if LowerContains(key, "publish") then Some(PublishedField)
    else if LowerContains(key, "unlock") then Some(UnlockField)
    else if LowerContains(key, "lock") then Some(LockField)
    else None
  }

  /** The same dispatch, written on the lower-cased key itself. */
  function RouteLowered(l: string): Option<Field>
  {
    if Contains(l, "name") then Some(NameField)
    else if Contains(l, "due") then Some(DueField)
    else if l == "id" then Some(IdField)
    else if Contains(l, "override") then Some(OverridesField)
    else if Contains(l, "mute") then Some(MutedField)
    else if Contains(l, "publish") then Some(PublishedField)
    else if Contains(l, "unlock") then Some(UnlockField)
    else if Contains(l, "lock") then Some(LockField)
    else None
  }

  /** `get` looks at `key.lower()` only. */
  lemma RouteIsOnLowered(key: string)
    ensures Route(key) == RouteLowered(Lower(key))
  {
    LowerContainsIsContainsLower(key, "name");
    LowerContainsIsContainsLower(key, "due");
    LowerEqualsIsEqualsLower(key, "id");
    LowerContainsIsContainsLower(key, "override");
    LowerContainsIsContainsLower(key, "mute");
    LowerContainsIsContainsLower(key, "publish");
    LowerContainsIsContainsLower(key, "unlock");
    LowerContainsIsContainsLower(key, "lock");
  }

  /** The keys the rest of the program asks for reach the intended field. */
  lemma RouteOfFieldNames()
    ensures Route("name") == Some(NameField)
    ensures Route("due") == Some(DueField) && Route("due_at") == Some(DueField)
    ensures Route("id") == Some(IdField)
  {
  }

  lemma RouteOfFlagKeys()
    ensures Route("muted") == Some(MutedField)
    ensures Route("published") == Some(PublishedField)
  {
    RouteOfMuted();
    RouteOfPublished();
  }

  lemma RouteOfMuted()
    ensures Route("muted") == Some(MutedField)
  {
  }

  lemma RouteOfPublished()
    ensures Route("published") == Some(PublishedField)
  {
  }

  lemma RouteOfLockKeys()
    ensures Route("unlock") == Some(UnlockField)
    ensures Route("lock") == Some(LockField)
  {
  }

  /** "unlock_at" is not taken for a lock date because 'unlock' is tested first. */
  lemma RouteOfApiDateKeys()
    ensures Route("unlock_at") == Some(UnlockField)
    ensures Route("lock_at") == Some(LockField)
  {
    RouteOfUnlockAt();
    RouteOfLockAt();
  }

  lemma RouteOfUnlockAt()
    ensures Route("unlock_at") == Some(UnlockField)
  {
  }

  lemma RouteOfLockAt()
    ensures Route("lock_at") == Some(LockField)
  {
  }

  /** The id test is an equality after lower-casing; the TSV header 'Title'
      is no field. */
  lemma RouteOfOtherKeys()
    ensures Route("ID") == Some(IdField)
    ensures Route("overrides") == Some(OverridesField)
    ensures Route("Title") == None
  {
  }

  function FieldValue(a: Assignment, f: Field): Value
  {
    match f
    case NameField => Str(a.name)
    case DueField => Str(OrEmpty(a.due))
    case IdField => Int(a.id)
    case OverridesField => OverrideList(a.overrides)
    case MutedField => Int(a.muted)
    case PublishedField => Int(a.published)
    case UnlockField => Str(OrEmpty(a.unlock))
    case LockField => Str(OrEmpty(a.lock))
  }

  /** The int-key branch: a truthy 'date' as is; no 'date' at all falls back
      to the assignment's due date or ''; a 'date' of None or '' reaches the
      end of the function, which returns None. */
  function SectionDate(e: SectionEntry, due: NStr): Value
  {
    match e.date
    case None => Str(OrEmpty(due))
    case Some(d) => if Truthy(d) then Str(d.s) else NoneValue
  }

  /** `Assignment.get(key)` */
  function Get(a: Assignment, key: Key): (r: Result<Value>)
    ensures r.Err? ==> r.error == KeyError
    ensures r.Err? <==> match key
                        case StrKey(s) => Route(s).None?
                        case IntKey(n) => n !in a.sections.vals
                        case OtherKey => true
  {
    match key
    case StrKey(s) =>
      (match Route(s)
       case None => Err(KeyError)
       case Some(f) => Ok(FieldValue(a, f)))
    case IntKey(n) =>
      if n !in a.sections.vals then Err(KeyError)
      else Ok(SectionDate(a.sections.vals[n], a.due))
    case OtherKey => Err(KeyError)
  }

  /** Date fields never come back as None: a falsy date reads as ''. */
  lemma GetDateIsNeverNone(a: Assignment, key: string)
    requires Route(key) in {Some(DueField), Some(UnlockField), Some(LockField)}
    ensures Get(a, StrKey(key)).Ok? && Get(a, StrKey(key)).value.Str?
    ensures var v := (if Route(key) == Some(DueField) then a.due
                      else if Route(key) == Some(UnlockField) then a.unlock else a.lock);
      Get(a, StrKey(key)).value.s == "" <==> !Truthy(v)
  {
  }

  /** The effective date of a lab section, from the data the object was
      built from: the last override naming it decides; without one the
      assignment's own due date (or '') applies. */
  lemma GetSectionOfAssignment(name: string, dueAt: NStr, id: int, overrides: seq<Override>, muted: bool,
                               published: bool, unlockAt: NStr, lockAt: NStr, courseSections: seq<Section>, k: int)
    requires AssignmentOf(name, dueAt, id, overrides, muted, published, unlockAt, lockAt, courseSections).Ok?
    ensures IsLabSectionId(courseSections, k) && LastOverrideFor(overrides, k).Some? ==>
      LastOverrideFor(overrides, k).value.dueAt.Some?
    ensures var a := AssignmentOf(name, dueAt, id, overrides, muted, published, unlockAt, lockAt, courseSections).value;
      Get(a, IntKey(k)) ==
        if !IsLabSectionId(courseSections, k) then Err(KeyError)
        else match LastOverrideFor(overrides, k)
             case None => Ok(Str(OrEmpty(dueAt)))
             case Some(o) => Ok(if Truthy(o.dueAt.value) then Str(o.dueAt.value.s) else NoneValue)
  {
    SectionsOfAssignment(name, dueAt, id, overrides, muted, published, unlockAt, lockAt, courseSections, k);
  }

  /** Python `==` on the values compared here; `1 == True` and `0 == False`. */
  predicate PyEq(v: Value, w: Value)
  {
    match (v, w)
    case (Int(i), Bool(b)) => i == (if b then 1 else 0)
    case (Bool(b), Int(i)) => i == (if b then 1 else 0)
    case _ => v == w
  }

  // ----- deleteOverrides -----

  /** The ids of the override records that have one, in order. */
  function OverrideIds(ovs: seq<Override>): seq<int>
  {
    if ovs == [] then []
    else OverrideIds(ovs[..|ovs| - 1]) + (if ovs[|ovs| - 1].id.Some? then [ovs[|ovs| - 1].id.value] else [])
  }

  /** The requests `deleteOverrides` issues, one per override with an 'id'. */
  function DeleteCalls(canvas: Canvas, assignmentId: int, ovs: seq<Override>): seq<Call>
  {
    if ovs == [] then []
    else
      var o := ovs[|ovs| - 1];
      DeleteCalls(canvas, assignmentId, ovs[..|ovs| - 1])
      + (if o.id.Some? then [Call(DELETE, canvas.OverrideUrl(assignmentId, o.id.value), NoPayload)] else [])
  }

  method DeleteOverrides(a: Assignment, canvas: Canvas)
    modifies canvas`log
    ensures canvas.log == old(canvas.log) + DeleteCalls(canvas, a.id, a.overrides)
  {
    var i := 0;
    while i < |a.overrides|
      invariant 0 <= i <= |a.overrides|
      invariant canvas.log == old(canvas.log) + DeleteCalls(canvas, a.id, a.overrides[..i])
    {
      PrefixStep(a.overrides, i);
      var o := a.overrides[i];
      if o.id.Some? {
        canvas.DeleteAssignmentOverride(a.id, o.id.value);
      }
      i := i + 1;
    }
    PrefixWhole(a.overrides);
  }

  /** One DELETE per override id, in order, each on that override's URL;
      distinct override ids give distinct requests. */
  lemma {:induction false} DeleteCallsSpec(canvas: Canvas, assignmentId: int, ovs: seq<Override>)
    ensures |DeleteCalls(canvas, assignmentId, ovs)| == |OverrideIds(ovs)|
    ensures forall i :: 0 <= i < |OverrideIds(ovs)| ==>
      DeleteCalls(canvas, assignmentId, ovs)[i] == Call(DELETE, canvas.OverrideUrl(assignmentId, OverrideIds(ovs)[i]), NoPayload)
  {
    if ovs != [] {
      DeleteCallsSpec(canvas, assignmentId, ovs[..|ovs| - 1]);
    }
  }

  lemma DeleteCallsDistinct(canvas: Canvas, assignmentId: int, ovs: seq<Override>, i: int, j: int)
    requires 0 <= i < j < |OverrideIds(ovs)| && OverrideIds(ovs)[i] != OverrideIds(ovs)[j]
    ensures |DeleteCalls(canvas, assignmentId, ovs)| == |OverrideIds(ovs)|
    ensures DeleteCalls(canvas, assignmentId, ovs)[i] != DeleteCalls(canvas, assignmentId, ovs)[j]
  {
    DeleteCallsSpec(canvas, assignmentId, ovs);
    if canvas.OverrideUrl(assignmentId, OverrideIds(ovs)[i]) == canvas.OverrideUrl(assignmentId, OverrideIds(ovs)[j]) {
      OverrideUrlInjective(canvas, assignmentId, OverrideIds(ovs)[i], assignmentId, OverrideIds(ovs)[j]);
    }
  }

  /** Every override of a successfully built assignment has an id, so one
      DELETE is issued per override record. */
  lemma {:induction false} OverrideIdsComplete(ovs: seq<Override>)
    requires forall j :: 0 <= j < |ovs| ==> ovs[j].id.Some?
    ensures |OverrideIds(ovs)| == |ovs|
    ensures forall j :: 0 <= j < |ovs| ==> OverrideIds(ovs)[j] == ovs[j].id.value
  {
    if ovs != [] {
      OverrideIdsComplete(ovs[..|ovs| - 1]);
    }
  }
}
