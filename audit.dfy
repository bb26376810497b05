/** The audit page: the semester choices per study year, the summary of the
    audit results, the normalisation of the audit response, and the page's
    state with its handlers. */
module Audit {
  import opened Wrappers
  import opened Types
  import Seqs
  import Criteria

  // ---------------------------------------------------------------------
  // Semesters of a study year

  /** The study years the page offers. */
  predicate IsStudyYear(year: int) {
    1 <= year <= 4
  }

  /** The study year a semester belongs to. */
  function YearOf(s: Criteria.Semester): (y: int)
    ensures IsStudyYear(y)
  {
    Criteria.Position(s) / 2 + 1
  }

  /** The two semesters of a study year, first then second. */
  function SemestersOfYear(year: int): (r: seq<Criteria.Semester>)
    requires IsStudyYear(year)
    ensures |r| == 2
    ensures Criteria.Position(r[0]) == 2 * (year - 1) && Criteria.Position(r[1]) == 2 * year - 1
  {
    [Criteria.Semesters[2 * (year - 1)], Criteria.Semesters[2 * year - 1]]
  }

  /** A year's list holds exactly the semesters of that year. */
  lemma {:induction false} SemestersOfYearExactly(year: int, s: Criteria.Semester)
    requires IsStudyYear(year)
    ensures s in SemestersOfYear(year) <==> YearOf(s) == year
  {
    var r := SemestersOfYear(year);
    if YearOf(s) == year {
      var p := Criteria.Position(s);
      assert p == 2 * (year - 1) || p == 2 * year - 1;
      if p == 2 * (year - 1) {
        assert Criteria.Semesters[p] == s && r[0] == Criteria.Semesters[p];
      } else {
        assert Criteria.Semesters[p] == s && r[1] == Criteria.Semesters[p];
      }
    }
  }

  /** The semester after a change of study year: kept if that year offers
      it, otherwise the year's first semester. */
  function ClampSemester(year: int, current: Criteria.Semester): (r: Criteria.Semester)
    requires IsStudyYear(year)
    ensures r in SemestersOfYear(year)
    ensures current in SemestersOfYear(year) ==> r == current
    ensures current !in SemestersOfYear(year) ==> r == SemestersOfYear(year)[0]
  {
    var allowed := SemestersOfYear(year);
    if current in allowed then current else allowed[0]
  }

  /** After the clamp the semester belongs to the chosen year, and clamping
      again changes nothing. */
  lemma ClampMeaning(year: int, current: Criteria.Semester)
    requires IsStudyYear(year)
    ensures YearOf(ClampSemester(year, current)) == year
    ensures ClampSemester(year, ClampSemester(year, current)) == ClampSemester(year, current)
  {
    SemestersOfYearExactly(year, ClampSemester(year, current));
  }

  // ---------------------------------------------------------------------
  // The summary of the results

  predicate Passed(r: AuditOutcome) {
    r.passed
  }

  predicate NotPassed(r: AuditOutcome) {
    !r.passed
  }

  datatype Summary = Summary(total: nat, passed: nat, failed: nat)

  /** The counts shown above the results: all results, those that passed,
      and the rest. The failed count is the number of results that did not
      pass, so the two counts add up to the total and neither exceeds it. */
  function Summarize(results: seq<AuditOutcome>): (s: Summary)
    ensures s.total == |results|
    ensures s.passed == |Seqs.KeepWhere(results, Passed)|
    ensures s.failed == |Seqs.KeepWhere(results, NotPassed)|
    ensures s.passed + s.failed == s.total
    ensures 0 <= s.passed <= s.total && 0 <= s.failed <= s.total
  {
    Seqs.KeepWherePartition(results, Passed, NotPassed);
    var total := |results|;
    var passed := |Seqs.KeepWhere(results, Passed)|;
    Summary(total, passed, total - passed)
  }

  /** All results passing means nothing failed, and the other way round. */
  lemma {:induction false} NoneFailed(results: seq<AuditOutcome>)
    ensures Summarize(results).failed == 0 <==> forall r :: r in results ==> r.passed
  {
    if forall r :: r in results ==> r.passed {
      assert Seqs.KeepWhere(results, Passed) == results;
    } else {
      var r :| r in results && !r.passed;
      assert r in Seqs.KeepWhere(results, NotPassed);
    }
  }

  // ---------------------------------------------------------------------
  // The audit response

  /** The body of the audit response: an array of outcomes; an object whose
      `results` field is an array of outcomes (`None` when the field is
      missing or not an array); or anything else. */
  datatype Payload = AsArray(items: seq<AuditOutcome>) | AsObject(results: Option<seq<AuditOutcome>>) | Other

  /** The outcomes a payload carries: the array itself, the object's
      `results` array, or none. */
  function Normalize(p: Payload): (r: seq<AuditOutcome>)
    ensures p.AsArray? ==> r == p.items
    ensures p.AsObject? && p.results.Some? ==> r == p.results.value
    ensures p.Other? || (p.AsObject? && p.results.None?) ==> r == []
  {
    match p
    case AsArray(items) => items
    case AsObject(Some(results)) => results
    case _ => []
  }

  /** The request client already normalises the response, so the page's
      own normalisation of what it gets back changes nothing. */
  lemma NormalizeIdempotent(p: Payload)
    ensures Normalize(AsArray(Normalize(p))) == Normalize(p)
  {
  }

  // ---------------------------------------------------------------------
  // The page

  /** The page's status line, by kind. */
  datatype AuditMessage =
    | NoMessage
    | LoadedStudents(count: nat)     // "Loaded N student(s) from Excel"
    | MustLogIn
    | UploadFirst
    | NoResults
    | Completed
    | AuditFailed                    // the server's message or "Audit failed."

  /** What one audit request sends. */
  datatype AuditRequest = AuditRequest(yearGroup: int, semester: Criteria.Semester, students: seq<StudentRecord>)

  /** What the audit endpoint answers: a body, or a failure. */
  datatype AuditResponse = Replied(body: Payload) | RequestFailed

  class AuditPage {
    var token: string
    var yearGroup: int
    var year: int
    var semester: Criteria.Semester
    var students: seq<StudentRecord>
    var results: seq<AuditOutcome>
    var message: AuditMessage
    var loading: bool
    ghost var requests: seq<AuditRequest>

    /** The selected semester always belongs to the selected study year,
        and nothing is loading between actions. */
    ghost predicate Valid()
      reads this
    {
      IsStudyYear(year) && semester in SemestersOfYear(year) && !loading
    }

    constructor(token: string)
      ensures Valid()
      ensures this.token == token && yearGroup == 2026 && year == 1 && semester == Criteria.Y1S1
      ensures students == [] && results == [] && message == NoMessage && requests == []
    {
      this.token := token;
      yearGroup := 2026;
      year := 1;
      semester := Criteria.Y1S1;
      students := [];
      results := [];
      message := NoMessage;
      loading := false;
      requests := [];
    }

    /** Choosing a study year; the semester is then clamped to that year. */
    method SetYear(y: int)
      requires Valid() && IsStudyYear(y)
      modifies this`year, this`semester
      ensures Valid() && year == y
      ensures semester == ClampSemester(y, old(semester))
      ensures YearOf(semester) == y
    {
      year := y;
      semester := ClampSemester(year, semester);
      ClampMeaning(y, old(semester));
    }

    /** Choosing a semester among the current year's two. */
    method SetSemester(s: Criteria.Semester)
      requires Valid() && s in SemestersOfYear(year)
      modifies this`semester
      ensures Valid() && semester == s
    {
      semester := s;
    }

    method SetYearGroup(g: int)
      requires Valid()
      modifies this`yearGroup
      ensures Valid() && yearGroup == g
    {
      yearGroup := g;
    }

    /** New students from the upload replace the old ones and clear the
        results; the message gives their number. */
    method HandleParsed(parsed: seq<StudentRecord>)
      requires Valid()
      modifies this`students, this`results, this`message
      ensures Valid()
      ensures students == parsed && results == [] && message == LoadedStudents(|parsed|)
    {
      students := parsed;
      results := [];
      message := LoadedStudents(|parsed|);
    }

    /** Clearing empties the students, the results and the message. */
    method HandleClearStudents()
      requires Valid()
      modifies this`students, this`results, this`message
      ensures Valid()
      ensures students == [] && results == [] && message == NoMessage
    {
      students := [];
      results := [];
      message := NoMessage;
    }

    /** Running the audit: without a token, or without students, only the
        message changes and nothing is sent. Otherwise one request goes out
        with the selection and the students; the results become the
        outcomes the response carries (none on failure), and the message
        says whether there were any. */
    method HandleRunAudit(response: AuditResponse)
      requires Valid()
      modifies this`results, this`message, this`loading, this`requests
      ensures Valid()
      ensures token == "" ==> message == MustLogIn && results == old(results) && requests == old(requests)
      ensures token != "" && students == [] ==>
        message == UploadFirst && results == old(results) && requests == old(requests)
      ensures token != "" && students != [] ==>
        && requests == old(requests) + [AuditRequest(yearGroup, semester, students)]
        && (response.RequestFailed? ==> results == [] && message == AuditFailed)
        && (response.Replied? ==>
              results == Normalize(response.body)
              && (message == NoResults <==> results == [])
              && (message == Completed <==> results != []))
    {
      if token == "" {
        message := MustLogIn;
        return;
      }
      if |students| == 0 {
        message := UploadFirst;
        return;
      }
      loading := true;
      message := NoMessage;
      results := [];
      requests := requests + [AuditRequest(yearGroup, semester, students)];
      match response {
        case RequestFailed =>
          message := AuditFailed;
        case Replied(body) =>
          var fromClient := Normalize(body);
          var normalized := Normalize(AsArray(fromClient));
          NormalizeIdempotent(body);
          results := normalized;
          message := if |normalized| == 0 then NoResults else Completed;
      }
      loading := false;
    }
  }
}
