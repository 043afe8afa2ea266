/** The REST client for one course: the normalised API root, the endpoint
    URLs, and the requests it issues. A request is recorded in the client's
    call log as (verb, url, payload); what the server answers is not modelled
    here (the data the driver fetched is handed to it as parameters). */
module CanvasClient {
  import opened Py

  datatype Verb = GET | POST | PUT | DELETE

  /** The JSON bodies the synchroniser sends. */
  datatype Payload =
    | NoPayload
      /** `{'assignment_override': {...}}` */
    | OverridePayload(sectionId: int, dueAt: string, lockAt: string, unlockAt: string)
      /** `{'assignment': {...}}` */
    | AssignmentPayload(name: string, dueAt: string, muted: bool, published: bool, lockAt: string, unlockAt: string)

  datatype Call = Call(verb: Verb, url: string, payload: Payload)

  /** The API root `Canvas.__init__` derives from the host: one '/' is added
      only when the host does not already end in one, then "api/v1/".
      Indexing the last character of an empty host raises IndexError. */
  function BaseUrl(host: string): (r: Result<string>)
    ensures r.Err? <==> host == []
    ensures r.Ok? ==> r.value == (if host[|host| - 1] == '/' then host else host + "/") + "api/v1/"
  {
    if host == [] then Err(IndexError)
    else if host[|host| - 1] != '/' then Ok(host + "/" + "api/v1/")
    else Ok(host + "api/v1/")
  }

  /** "h" and "h/" name the same API root. */
  lemma BaseUrlIgnoresTrailingSlash(host: string)
    requires host != [] && host[|host| - 1] != '/'
    ensures BaseUrl(host) == BaseUrl(host + "/")
  {
    assert (host + "/")[|host + "/"| - 1] == '/';
  }

  class Canvas {
    const baseUrl: string
    const courseId: string
    const headers: map<string, string>
    /** Every request issued so far, oldest first. */
    var log: seq<Call>

    constructor (host: string, courseId: string, token: string)
      requires host != []
      ensures BaseUrl(host) == Ok(baseUrl)
      ensures this.courseId == courseId
      ensures headers == map["Authorization Bearer" := token]
      ensures log == []
    {
      var h := host;
      if h[|h| - 1] != '/' {
        h := h + "/";
      }
      baseUrl := h + "api/v1/";
      this.courseId := courseId;
      headers := map["Authorization Bearer" := token];
      log := [];
    }

    // ----- endpoint URLs -----

    function CourseUrl(): string
    {
      baseUrl + "courses/" + courseId
    }

    function SectionsUrl(): string
    {
      CourseUrl() + "/sections"
    }

    function QuizzesUrl(): string
    {
      CourseUrl() + "/quizzes?per_page=100"
    }

    function AssignmentsUrl(): string
    {
      CourseUrl() + "/assignments?all_dates=1&per_page=100"
    }

    function AssignmentsRootUrl(): string
    {
      CourseUrl() + "/assignments/"
    }

    function AssignmentUrl(assignmentId: int): string
    {
      AssignmentsRootUrl() + IntStr(assignmentId)
    }

    function OverridesUrl(assignmentId: int): string
    {
      AssignmentUrl(assignmentId) + "/overrides"
    }

    function OverrideUrl(assignmentId: int, overrideId: int): string
    {
      OverridesUrl(assignmentId) + "/" + IntStr(overrideId)
    }

    // ----- requests -----

    method Send(verb: Verb, url: string, payload: Payload)
      modifies this`log
      ensures log == old(log) + [Call(verb, url, payload)]
    {
      log := log + [Call(verb, url, payload)];
    }

    method GetSections()
      modifies this`log
      ensures log == old(log) + [Call(GET, SectionsUrl(), NoPayload)]
    {
      Send(GET, SectionsUrl(), NoPayload);
    }

    /** The quiz list is requested first, then the date-expanded assignment list. */
    method GetAllAssignments()
      modifies this`log
      ensures log == old(log) + [Call(GET, QuizzesUrl(), NoPayload), Call(GET, AssignmentsUrl(), NoPayload)]
    {
      Send(GET, QuizzesUrl(), NoPayload);
      Send(GET, AssignmentsUrl(), NoPayload);
    }

    method GetAssignment(assignmentId: int)
      modifies this`log
      ensures log == old(log) + [Call(GET, AssignmentUrl(assignmentId), NoPayload)]
    {
      Send(GET, AssignmentUrl(assignmentId), NoPayload);
    }

    /** Meant to create an assignment, but issues a GET on the collection URL. */
    method MakeAssignment(payload: Payload)
      modifies this`log
      ensures log == old(log) + [Call(GET, AssignmentsRootUrl(), payload)]
    {
      Send(GET, AssignmentsRootUrl(), payload);
    }

    method EditAssignment(assignmentId: int, payload: Payload)
      modifies this`log
      ensures log == old(log) + [Call(PUT, AssignmentUrl(assignmentId), payload)]
    {
      Send(PUT, AssignmentUrl(assignmentId), payload);
    }

    method GetAssignmentOverrides(assignmentId: int)
      modifies this`log
      ensures log == old(log) + [Call(GET, OverridesUrl(assignmentId), NoPayload)]
    {
      Send(GET, OverridesUrl(assignmentId), NoPayload);
    }

    method MakeAssignmentOverride(assignmentId: int, payload: Payload)
      modifies this`log
      ensures log == old(log) + [Call(POST, OverridesUrl(assignmentId), payload)]
    {
      Send(POST, OverridesUrl(assignmentId), payload);
    }

    method DeleteAssignmentOverride(assignmentId: int, overrideId: int)
      modifies this`log
      ensures log == old(log) + [Call(DELETE, OverrideUrl(assignmentId, overrideId), NoPayload)]
    {
      Send(DELETE, OverrideUrl(assignmentId, overrideId), NoPayload);
    }
  }

  predicate NoSlash(s: string)
  {
    forall k :: 0 <= k < |s| ==> s[k] != '/'
  }

  lemma {:induction false} IntStrHasNoSlash(i: int)
    ensures NoSlash(IntStr(i))
  {
    var n: nat := if i < 0 then -i else i;
    assert AllDigits(NatStr(n));
    if i < 0 {
      assert IntStr(i) == "-" + NatStr(n);
    }
  }

  /** Splitting at the first '/' is unambiguous. */
  lemma SplitAtSlash(x1: string, r1: string, x2: string, r2: string)
    requires NoSlash(x1) && NoSlash(x2)
    requires r1 != [] && r1[0] == '/' && r2 != [] && r2[0] == '/'
    requires x1 + r1 == x2 + r2
    ensures x1 == x2 && r1 == r2
  {
    assert x1 == (x1 + r1)[..|x1|];
    assert x2 == (x2 + r2)[..|x2|];
    assert r1 == (x1 + r1)[|x1|..];
    assert r2 == (x2 + r2)[|x2|..];
  }

  /** Distinct (assignment, override) pairs are deleted through distinct URLs. */
  lemma OverrideUrlInjective(c: Canvas, a1: int, o1: int, a2: int, o2: int)
    requires c.OverrideUrl(a1, o1) == c.OverrideUrl(a2, o2)
    ensures a1 == a2 && o1 == o2
  {
    var p := c.AssignmentsRootUrl();
    var s1, s2 := IntStr(a1), IntStr(a2);
    var t1 := "/overrides/" + IntStr(o1);
    var t2 := "/overrides/" + IntStr(o2);
    OverrideUrlShape(c, a1, o1);
    OverrideUrlShape(c, a2, o2);
    SuffixAfterCommonPrefix(p, s1 + t1, s2 + t2);
    IntStrHasNoSlash(a1);
    IntStrHasNoSlash(a2);
    SplitAtSlash(s1, t1, s2, t2);
    IntStrInjective(a1, a2);
    SuffixAfterCommonPrefix("/overrides/", IntStr(o1), IntStr(o2));
    IntStrInjective(o1, o2);
  }

  lemma OverrideUrlShape(c: Canvas, a: int, o: int)
    ensures c.OverrideUrl(a, o) == c.AssignmentsRootUrl() + (IntStr(a) + ("/overrides/" + IntStr(o)))
  {
    assert "/overrides" + "/" == "/overrides/";
  }

  lemma SuffixAfterCommonPrefix(p: string, u: string, v: string)
    requires p + u == p + v
    ensures u == v
  {
    assert u == (p + u)[|p|..];
    assert v == (p + v)[|p|..];
  }
}
