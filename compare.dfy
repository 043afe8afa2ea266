/** `Assignment.compare` and its inner `compareSections`: which of seven
    properties of an assignment a plain record leaves unchanged. */
module Compare {
  import opened Py
  import opened OrderedDict
  import opened AssignmentModel

  /** The plain record `compare` is given: the dictionary `upload` builds
      from one spreadsheet row. */
  datatype Candidate = Candidate(
    name: string,
    due: NStr,
    muted: bool,
    published: bool,
    sections: Dict<int, NStr>,
    lock: NStr,
    unlock: NStr)

  /** The keys of the result, in the order of the literal that creates it. */
  const ChangeKeys: seq<string> := ["name", "due", "muted", "published", "sections", "lock", "unlock"]

  function AsValue(v: NStr): Value
  {
    match v
    case Null => NoneValue
    case Text(s) => Str(s)
  }

  // ----- compareSections -----

  /** One section of the record against the section's stored entry: with no
      stored 'date' only '' is unchanged; a stored None or '' matches ''; any
      other pair must be equal. */
  predicate SectionSame(date: Option<NStr>, c: NStr)
  {
    match date
    case None => c == Text("")
    case Some(d) => (d == Null && c == Text("")) || (d == Text("") && c == Text("")) || d == c
  }

  predicate SectionsUnchanged(a: Assignment, cand: Dict<int, NStr>)
  {
    forall k | k in cand.vals :: k in a.sections.vals && SectionSame(a.sections.vals[k].date, cand.vals[k])
  }

  /** `compareSections(sections)`: the first section that differs, or that
      the assignment does not know (KeyError, caught), answers false. */
  method CompareSections(a: Assignment, cand: Dict<int, NStr>) returns (r: bool)
    ensures r == SectionsUnchanged(a, cand)
  {
    var i := 0;
    while i < |cand.keys|
      invariant 0 <= i <= |cand.keys|
      invariant forall j :: 0 <= j < i ==>
        cand.keys[j] in a.sections.vals && SectionSame(a.sections.vals[cand.keys[j]].date, cand.vals[cand.keys[j]])
    {
      var section := cand.keys[i];
      var c := cand.vals[section];
      if section !in a.sections.vals {
        return false;
      }
      var e := a.sections.vals[section];
      if e.date.None? {
        if c == Text("") {
          i := i + 1;
          continue;
        } else {
          return false;
        }
      } else if e.date.value == Null && c == Text("") {
      } else if e.date.value == Text("") && c == Text("") {
      } else if e.date.value != c {
        return false;
      }
      i := i + 1;
    }
    KeysAreDomain(cand);
    return true;
  }

  /** The rules of `compareSections`, case by case. */
  lemma SectionsUnchangedRules(a: Assignment, cand: Dict<int, NStr>, k: int)
    ensures cand.keys == [] ==> SectionsUnchanged(a, cand)
    ensures k in cand.vals && k !in a.sections.vals ==> !SectionsUnchanged(a, cand)
    ensures k in cand.vals && k in a.sections.vals && a.sections.vals[k].date.None? && cand.vals[k] != Text("")
            ==> !SectionsUnchanged(a, cand)
    ensures k in cand.vals && k in a.sections.vals && a.sections.vals[k].date.Some?
            && !Truthy(a.sections.vals[k].date.value) && cand.vals[k] == Text("")
            ==> SectionSame(a.sections.vals[k].date, cand.vals[k])
    ensures k in cand.vals && k in a.sections.vals && a.sections.vals[k].date.Some? && Truthy(cand.vals[k])
            ==> (SectionSame(a.sections.vals[k].date, cand.vals[k]) <==> a.sections.vals[k].date.value == cand.vals[k])
  {
    KeysAreDomain(cand);
  }

  // ----- compare -----

  /** The 'due' test: `(None in combined and '' in combined) or len(set(combined)) == 1`. */
  predicate DueSame(g: Value, w: Value)
  {
    ((g == NoneValue || w == NoneValue) && (g == Str("") || w == Str(""))) || PyEq(g, w)
  }

  /** What `other[key]` holds for the scalar keys. */
  function CandidateValue(o: Candidate, key: string): Value
  {
    if key == "name" then Str(o.name)
    else if key == "due" then AsValue(o.due)
    else if key == "muted" then Bool(o.muted)
    else if key == "published" then Bool(o.published)
    else if key == "lock" then AsValue(o.lock)
    else AsValue(o.unlock)
  }

  /** The field each scalar key of the result selects. */
  function ChangeField(key: string): Field
  {
    if key == "name" then NameField
    else if key == "due" then DueField
    else if key == "muted" then MutedField
    else if key == "published" then PublishedField
    else if key == "lock" then LockField
    else UnlockField
  }

  /** `self.get(key)` for the scalar keys of the result. */
  function Own(a: Assignment, key: string): Value
  {
    FieldValue(a, ChangeField(key))
  }

  /** `Own` is `get` on those keys, and none of them raises. */
  lemma OwnIsGet(a: Assignment, key: string)
    requires key in ChangeKeys && key != "sections"
    ensures Get(a, StrKey(key)) == Ok(Own(a, key))
  {
    if key in ["name", "due"] {
      RouteOfFieldNames();
    } else if key in ["muted", "published"] {
      RouteOfFlagKeys();
    } else {
      RouteOfLockKeys();
    }
  }

  /** The value `compare` stores under one key of its result. */
  predicate Unchanged(a: Assignment, o: Candidate, key: string)
    requires key in ChangeKeys
  {
    if key == "sections" then SectionsUnchanged(a, o.sections)
    else if key == "due" then DueSame(Own(a, key), CandidateValue(o, key))
    else PyEq(Own(a, key), CandidateValue(o, key))
  }

  /** The initial `changes` dictionary: every key mapped to True. */
  function AllTrue(): (r: Dict<string, bool>)
    ensures r.keys == ChangeKeys
    ensures forall k | k in r.vals :: r.vals[k]
  {
    var r := RawDict(ChangeKeys, map k | k in ChangeKeys :: true);
    assert Distinct(ChangeKeys);
    r
  }

  /** One pass of the loop of `compare`: the new value of `changes[key]`,
      which starts out True. */
  method CompareKey(a: Assignment, other: Candidate, key: string) returns (same: bool)
    requires key in ChangeKeys
    ensures same == Unchanged(a, other, key)
  {
    same := true;
    if key == "sections" {
      same := CompareSections(a, other.sections);
    } else if key == "due" {
      var combined := [Own(a, key), CandidateValue(other, key)];
      if (NoneValue in combined && Str("") in combined) || PyEq(combined[0], combined[1]) {
        same := true;
      } else {
        same := false;
      }
    } else if !PyEq(Own(a, key), CandidateValue(other, key)) {
      same := false;
    }
  }

  lemma ChangeKeysDistinct()
    ensures Distinct(ChangeKeys)
  {
  }

  /** `Assignment.compare(other)` */
  method CompareWith(a: Assignment, other: Candidate) returns (changes: Dict<string, bool>)
    ensures changes.keys == ChangeKeys
    ensures forall k | k in changes.vals :: k in ChangeKeys && changes.vals[k] == Unchanged(a, other, k)
  {
    changes := AllTrue();
    var keys := changes.keys;
    ChangeKeysDistinct();
    var i := 0;
    while i < |keys|
      invariant 0 <= i <= |keys|
      invariant changes.keys == keys
      invariant forall j :: 0 <= j < i ==> changes.vals[keys[j]] == Unchanged(a, other, keys[j])
    {
      var key := keys[i];
      assert key in changes.vals;
      var same := CompareKey(a, other, key);
      ghost var before := changes;
      changes := Put(changes, key, same);
      forall j | 0 <= j < i
        ensures changes.vals[keys[j]] == Unchanged(a, other, keys[j])
      {
        assert keys[j] != key;
        assert changes.vals[keys[j]] == before.vals[keys[j]];
      }
      i := i + 1;
    }
    KeysAreDomain(changes);
  }

  // ----- what the result means -----

  /** The name and the flags, in terms of the assignment's fields: the flags
      compare 0/1 with False/True. */
  lemma UnchangedScalarMeaning(a: Assignment, o: Candidate)
    ensures Unchanged(a, o, "name") <==> o.name == a.name
    ensures Unchanged(a, o, "muted") <==> a.muted == (if o.muted then 1 else 0)
    ensures Unchanged(a, o, "published") <==> a.published == (if o.published then 1 else 0)
  {
  }

  /** The dates: 'due' treats None and '' alike, but 'lock' and 'unlock'
      compare the stored date ('' for a missing one) with the record's value
      as is, so a None there always counts as a change. */
  lemma UnchangedDateMeaning(a: Assignment, o: Candidate)
    ensures Unchanged(a, o, "due") <==> o.due == Text(OrEmpty(a.due)) || (o.due == Null && !Truthy(a.due))
    ensures Unchanged(a, o, "lock") <==> o.lock == Text(OrEmpty(a.lock))
    ensures Unchanged(a, o, "unlock") <==> o.unlock == Text(OrEmpty(a.unlock))
    ensures o.lock == Null ==> !Unchanged(a, o, "lock")
    ensures o.unlock == Null ==> !Unchanged(a, o, "unlock")
  {
  }

  /** The record `compare` accepts as the assignment itself. */
  function SnapshotDate(date: Option<NStr>): NStr
  {
    match date
    case None => Text("")
    case Some(d) => if Truthy(d) then d else Text("")
  }

  function SnapshotSections(a: Assignment): (r: Dict<int, NStr>)
    ensures r.keys == a.sections.keys
    ensures forall k | k in r.vals :: k in a.sections.vals && r.vals[k] == SnapshotDate(a.sections.vals[k].date)
  {
    var r := RawDict(a.sections.keys, map k | k in a.sections.vals :: SnapshotDate(a.sections.vals[k].date));
    KeysAreDomain(a.sections);
    r
  }

  function Snapshot(a: Assignment): Candidate
  {
    Candidate(a.name, Text(OrEmpty(a.due)), a.muted == 1, a.published == 1, SnapshotSections(a),
              Text(OrEmpty(a.lock)), Text(OrEmpty(a.unlock)))
  }

  /** Comparing an assignment with its own values reports no change, as
      long as its flags hold 0 or 1 (as `int(bool)` makes them). */
  lemma CompareSelf(a: Assignment, k: string)
    requires 0 <= a.muted <= 1 && 0 <= a.published <= 1
    requires k in ChangeKeys
    ensures Unchanged(a, Snapshot(a), k)
  {
    UnchangedScalarMeaning(a, Snapshot(a));
    UnchangedDateMeaning(a, Snapshot(a));
    var snap := SnapshotSections(a);
    forall s | s in snap.vals
      ensures s in a.sections.vals && SectionSame(a.sections.vals[s].date, snap.vals[s])
    {
    }
  }
}
