/** What the criteria editor's loader does when a selection changes, as a
    function of the selection and of what the store holds: which keys it
    fetches, in which order, and what ends up in the buffer and in the
    advisory message. The loader itself (`Editor.ProgramCriteria.Load`) is
    proved to do exactly this. */
module Cascade {
  import opened Wrappers
  import opened Types
  import Text
  import Criteria

  /** A criteria key: (year group, program, semester). */
  datatype Key = Key(yearGroup: int, program: string, semester: Criteria.Semester)

  /** The editor's advisory message, by kind (the wording is not modelled). */
  datatype Message =
    | NoMessage
    | SelectProgram                                         // "Select a Program to load."
    | PrefilledFromProgram(program: string, semester: Criteria.Semester)
    | PrefilledFromSemester(semester: Criteria.Semester)
    | PrefilledFromYearGroup(yearGroup: int, semester: Criteria.Semester)
    | NoCriteria                                            // "No criteria yet for this selection. ..."
    | LoadError                                             // the server's message or "Failed to load semester data"
    | SelectProgramBeforeSave
    | Saved
    | SaveFailed

  /** The smallest year group the editor offers; the year-group fallback
      never goes below it. */
  const MinYearGroup: int := 2025

  /** What one fetch returns: the stored value, or a transport or
      authorisation failure. */
  datatype Fetch = Fetched(data: StoredData) | Failed

  /** The store's answer for `k`: an unset key reads as nothing, a key the
      store cannot serve fails. */
  function FetchAt(contents: map<Key, StoredData>, unreachable: set<Key>, k: Key): (f: Fetch)
    ensures f.Failed? <==> k in unreachable
    ensures k !in unreachable && k in contents ==> f == Fetched(contents[k])
    ensures f.Fetched? && k !in contents ==> f.data == Missing
  {
    if k in unreachable then Failed
    else if k in contents then Fetched(contents[k])
    else Fetched(Missing)
  }

  /** One step of the cascade: the key to fetch and the message to show if
      that key has content. */
  datatype Lookup = Lookup(key: Key, origin: Message)

  /** Whether the program-change hint is used: present, not blank, and not
      the program itself (the comparison is on the untrimmed strings). */
  predicate UsesHint(program: string, fromProgram: Option<string>) {
    fromProgram.Some? && Text.Trim(fromProgram.value) != "" && fromProgram.value != program
  }

  /** The lookups of one load, in order: the target key; the hinted program
      in the same semester; the previous semester of the same program; the
      previous year group, if it is not below the minimum. Programs are
      fetched trimmed. */
  function Plan(yearGroup: int, program: string, semester: Criteria.Semester, fromProgram: Option<string>): (p: seq<Lookup>)
    ensures 1 <= |p| <= 4
    ensures p[0] == Lookup(Key(yearGroup, Text.Trim(program), semester), NoMessage)
  {
    [Lookup(Key(yearGroup, Text.Trim(program), semester), NoMessage)] + Fallbacks(yearGroup, program, semester, fromProgram)
  }

  /** Steps 2 to 4, in order. */
  function Fallbacks(yearGroup: int, program: string, semester: Criteria.Semester, fromProgram: Option<string>): (p: seq<Lookup>)
    ensures |p| <= 3
    ensures forall l :: l in p ==> l.origin != NoMessage && l.origin != LoadError
    ensures forall l :: l in p ==> l.key.semester == semester || Some(l.key.semester) == Criteria.PrevSemester(semester)
    ensures forall l :: l in p ==> l.key.yearGroup == yearGroup || l.key.yearGroup == yearGroup - 1 >= MinYearGroup
  {
    var prog := Text.Trim(program);
    Lateral(yearGroup, program, semester, fromProgram) + (Temporal(yearGroup, prog, semester) + Cohort(yearGroup, prog, semester))
  }

  /** Step 2: the hinted program, same year group and semester. */
  function Lateral(yearGroup: int, program: string, semester: Criteria.Semester, fromProgram: Option<string>): (p: seq<Lookup>)
    ensures |p| <= 1
    ensures forall l :: l in p ==> l.key.yearGroup == yearGroup && l.key.semester == semester && l.origin.PrefilledFromProgram?
  {
    if UsesHint(program, fromProgram)
    then [Lookup(Key(yearGroup, Text.Trim(fromProgram.value), semester), PrefilledFromProgram(fromProgram.value, semester))]
    else []
  }

  /** Step 3: the previous semester, same year group and program; it is
      tried exactly when there is a previous semester. */
  function Temporal(yearGroup: int, prog: string, semester: Criteria.Semester): (p: seq<Lookup>)
    ensures |p| <= 1
    ensures |p| == 1 <==> Criteria.PrevSemester(semester).Some?
    ensures forall l :: l in p ==>
      l.key.yearGroup == yearGroup && Some(l.key.semester) == Criteria.PrevSemester(semester) && l.origin.PrefilledFromSemester?
  {
    var prevSem := Criteria.PrevSemester(semester);
    if prevSem.Some?
    then [Lookup(Key(yearGroup, prog, prevSem.value), PrefilledFromSemester(prevSem.value))]
    else []
  }

  /** Step 4: the previous year group, same program and semester; it is
      tried exactly when that year group is not below the minimum. */
  function Cohort(yearGroup: int, prog: string, semester: Criteria.Semester): (p: seq<Lookup>)
    ensures |p| <= 1
    ensures |p| == 1 <==> yearGroup - 1 >= MinYearGroup
    ensures forall l :: l in p ==>
      l.key.yearGroup == yearGroup - 1 >= MinYearGroup && l.key.semester == semester && l.origin.PrefilledFromYearGroup?
  {
    if yearGroup - 1 >= MinYearGroup
    then [Lookup(Key(yearGroup - 1, prog, semester), PrefilledFromYearGroup(yearGroup - 1, semester))]
    else []
  }

  /** The plan is the target followed by the three fallback steps. */
  lemma PlanParts(yearGroup: int, program: string, semester: Criteria.Semester, fromProgram: Option<string>)
    ensures var prog := Text.Trim(program);
      Plan(yearGroup, program, semester, fromProgram)
      == [Lookup(Key(yearGroup, prog, semester), NoMessage)]
         + (Lateral(yearGroup, program, semester, fromProgram) + (Temporal(yearGroup, prog, semester) + Cohort(yearGroup, prog, semester)))
  {
  }

  /** The hinted program is looked up second exactly when the hint is used. */
  lemma PlanHint(yearGroup: int, program: string, semester: Criteria.Semester, fromProgram: Option<string>)
    ensures var p := Plan(yearGroup, program, semester, fromProgram);
      UsesHint(program, fromProgram) <==>
        (fromProgram.Some? && |p| > 1
         && p[1] == Lookup(Key(yearGroup, Text.Trim(fromProgram.value), semester), PrefilledFromProgram(fromProgram.value, semester)))
  {
    var rest := Fallbacks(yearGroup, program, semester, fromProgram);
    var p := Plan(yearGroup, program, semester, fromProgram);
    if |p| > 1 {
      assert p[1] == rest[0] && rest[0] in rest;
    }
  }

  /** An unused hint changes nothing: the plan is the one without a hint. */
  lemma UnusedHint(yearGroup: int, program: string, semester: Criteria.Semester, fromProgram: Option<string>)
    requires !UsesHint(program, fromProgram)
    ensures Plan(yearGroup, program, semester, fromProgram) == Plan(yearGroup, program, semester, None)
  {
    assert Lateral(yearGroup, program, semester, fromProgram) == Lateral(yearGroup, program, semester, None);
  }

  /** Every lookup after the target carries a "prefilled" message; every key
      is in the target's semester or the one before it, and in the target's
      year group or, not below the minimum, the one before it. */
  lemma PlanKeys(yearGroup: int, program: string, semester: Criteria.Semester, fromProgram: Option<string>)
    ensures var p := Plan(yearGroup, program, semester, fromProgram);
      && (forall i :: 1 <= i < |p| ==> p[i].origin != NoMessage && p[i].origin != LoadError)
      && (forall l :: l in p ==> l.key.semester == semester || Some(l.key.semester) == Criteria.PrevSemester(semester))
      && (forall l :: l in p ==> l.key.yearGroup == yearGroup || l.key.yearGroup == yearGroup - 1 >= MinYearGroup)
  {
    var rest := Fallbacks(yearGroup, program, semester, fromProgram);
    var p := Plan(yearGroup, program, semester, fromProgram);
    var t := p[0];
    assert p == [t] + rest;
    forall i | 1 <= i < |p| ensures p[i].origin != NoMessage && p[i].origin != LoadError {
      assert p[i] == rest[i - 1] && rest[i - 1] in rest;
    }
    forall l | l in p
      ensures l.key.semester == semester || Some(l.key.semester) == Criteria.PrevSemester(semester)
      ensures l.key.yearGroup == yearGroup || l.key.yearGroup == yearGroup - 1 >= MinYearGroup
    {
      if l != t {
        assert l in rest;
      }
    }
  }

  /** The keys of a plan, in order. */
  function Keys(plan: seq<Lookup>): seq<Key>
  {
    seq(|plan|, i requires 0 <= i < |plan| => plan[i].key)
  }

  /** The outcome of a load: the buffer, the message, and the keys fetched, in order. */
  datatype Resolution = Resolution(data: SemesterData, msg: Message, fetched: seq<Key>)

  /** Tries the lookups in order. A failed fetch ends the load with an empty
      buffer and the error message; the first fetched value with content
      ends it with a copy of that value and the lookup's message; if none
      has content the buffer is empty and the message says so. */
  function Run(plan: seq<Lookup>, contents: map<Key, StoredData>, unreachable: set<Key>): (res: Resolution)
    ensures |res.fetched| <= |plan|
    ensures res.fetched == Keys(plan)[..|res.fetched|]
    ensures plan != [] ==> |res.fetched| >= 1
    decreases |plan|
  {
    if plan == [] then Resolution(EmptyData, NoCriteria, [])
    else
      var k := plan[0].key;
      match FetchAt(contents, unreachable, k)
      case Failed => Resolution(EmptyData, LoadError, [k])
      case Fetched(d) =>
        if Criteria.HasContent(d) then Resolution(Criteria.DeepClone(d), plan[0].origin, [k])
        else
          var rest := Run(plan[1..], contents, unreachable);
          assert Keys(plan) == [k] + Keys(plan[1..]);
          assert [k] + rest.fetched == ([k] + Keys(plan[1..]))[..1 + |rest.fetched|];
          Resolution(rest.data, rest.msg, [k] + rest.fetched)
  }

  /** `res` with `before` fetched ahead of it. */
  function After(before: seq<Key>, res: Resolution): Resolution
  {
    Resolution(res.data, res.msg, before + res.fetched)
  }

  /** Fetching `a` and then `b` ahead of `res` is fetching `a + b` ahead of it. */
  lemma AfterAfter(a: seq<Key>, b: seq<Key>, res: Resolution)
    ensures After(a, After(b, res)) == After(a + b, res)
    ensures After(a, Resolution(res.data, res.msg, b + res.fetched)) == Resolution(res.data, res.msg, a + b + res.fetched)
  {
    assert a + (b + res.fetched) == a + b + res.fetched;
  }

  /** One step of `Run`: the first lookup decides, or hands over to the rest. */
  lemma RunStep(l: Lookup, rest: seq<Lookup>, contents: map<Key, StoredData>, unreachable: set<Key>)
    ensures var f := FetchAt(contents, unreachable, l.key);
      Run([l] + rest, contents, unreachable) ==
        if f.Failed? then Resolution(EmptyData, LoadError, [l.key])
        else if Criteria.HasContent(f.data) then Resolution(Criteria.DeepClone(f.data), l.origin, [l.key])
        else After([l.key], Run(rest, contents, unreachable))
  {
    assert ([l] + rest)[0] == l && ([l] + rest)[1..] == rest;
  }

  /** The first `n + 1` keys of a plan: its first key, then the first `n`
      keys of the rest. */
  lemma KeysPrefix(plan: seq<Lookup>, n: nat)
    requires n < |plan|
    ensures Keys(plan)[..n + 1] == [plan[0].key] + Keys(plan[1..])[..n]
    ensures n + 1 == |plan| ==> Keys(plan) == [plan[0].key] + Keys(plan[1..])
  {
    assert Keys(plan) == [plan[0].key] + Keys(plan[1..]);
  }

  /** The lookups before position `n` were all served and empty. */
  ghost predicate EmptyBefore(plan: seq<Lookup>, contents: map<Key, StoredData>, unreachable: set<Key>, n: nat)
    requires n <= |plan|
  {
    forall j :: 0 <= j < n ==>
      var f := FetchAt(contents, unreachable, plan[j].key);
      f.Fetched? && !Criteria.HasContent(f.data)
  }

  /** Served and empty before `n`: the first lookup, and the rest before `n - 1`. */
  lemma EmptyBeforeTail(plan: seq<Lookup>, contents: map<Key, StoredData>, unreachable: set<Key>, n: nat)
    requires 0 < n <= |plan| && EmptyBefore(plan, contents, unreachable, n)
    ensures EmptyBefore(plan[1..], contents, unreachable, n - 1)
    ensures var f := FetchAt(contents, unreachable, plan[0].key); f.Fetched? && !Criteria.HasContent(f.data)
  {
    var rest := plan[1..];
    forall j | 0 <= j < n - 1
      ensures var f := FetchAt(contents, unreachable, rest[j].key); f.Fetched? && !Criteria.HasContent(f.data)
    {
      assert rest[j] == plan[j + 1];
    }
  }

  /** The first lookup with content wins: its copy and its message, and no
      lookup after it is fetched. */
  lemma {:induction false} RunFirstContent(plan: seq<Lookup>, contents: map<Key, StoredData>, unreachable: set<Key>, n: nat)
    requires n < |plan| && EmptyBefore(plan, contents, unreachable, n)
    requires plan[n].key !in unreachable && plan[n].key in contents && Criteria.HasContent(contents[plan[n].key])
    ensures Run(plan, contents, unreachable) ==
      Resolution(Criteria.DeepClone(contents[plan[n].key]), plan[n].origin, Keys(plan)[..n + 1])
    decreases n
  {
    var rest := plan[1..];
    assert plan == [plan[0]] + rest;
    RunStep(plan[0], rest, contents, unreachable);
    KeysPrefix(plan, n);
    if n == 0 {
      assert Keys(plan)[..1] == [plan[0].key];
    } else {
      EmptyBeforeTail(plan, contents, unreachable, n);
      assert rest[n - 1] == plan[n];
      RunFirstContent(rest, contents, unreachable, n - 1);
    }
  }

  /** A failed fetch ends the load there, with an empty buffer and the error
      message; no lookup after it is fetched. */
  lemma {:induction false} RunFirstFailure(plan: seq<Lookup>, contents: map<Key, StoredData>, unreachable: set<Key>, n: nat)
    requires n < |plan| && EmptyBefore(plan, contents, unreachable, n)
    requires plan[n].key in unreachable
    ensures Run(plan, contents, unreachable) == Resolution(EmptyData, LoadError, Keys(plan)[..n + 1])
    decreases n
  {
    var rest := plan[1..];
    assert plan == [plan[0]] + rest;
    RunStep(plan[0], rest, contents, unreachable);
    if n > 0 {
      EmptyBeforeTail(plan, contents, unreachable, n);
      RunFirstFailure(rest, contents, unreachable, n - 1);
      KeysPrefix(plan, n);
    }
  }

  /** When every lookup is served and empty, all of them are fetched and the
      buffer is empty with the "no criteria yet" message. */
  lemma {:induction false} RunAllEmpty(plan: seq<Lookup>, contents: map<Key, StoredData>, unreachable: set<Key>)
    requires EmptyBefore(plan, contents, unreachable, |plan|)
    ensures Run(plan, contents, unreachable) == Resolution(EmptyData, NoCriteria, Keys(plan))
    decreases |plan|
  {
    if plan != [] {
      var rest := plan[1..];
      assert plan == [plan[0]] + rest;
      RunStep(plan[0], rest, contents, unreachable);
      EmptyBeforeTail(plan, contents, unreachable, |plan|);
      RunAllEmpty(rest, contents, unreachable);
      KeysPrefix(plan, |rest|);
    }
  }

  /** The whole load for a selection: with no token or a blank program it fetches nothing and leaves an empty buffer (asking for a
      program when the program is blank); otherwise it runs the plan. At
      most four keys are fetched, and none exactly in the first case. */
  function Resolve(token: string, yearGroup: int, program: string, semester: Criteria.Semester, fromProgram: Option<string>,
                   contents: map<Key, StoredData>, unreachable: set<Key>): (res: Resolution)
    ensures |res.fetched| <= 4
    ensures (token == "" || Text.Trim(program) == "") <==> res.fetched == []
    ensures res.fetched == [] ==>
      res.data == EmptyData && res.msg == (if Text.Trim(program) == "" then SelectProgram else NoMessage)
  {
    if token == "" || Text.Trim(program) == "" then
      Resolution(EmptyData, if Text.Trim(program) == "" then SelectProgram else NoMessage, [])
    else
      Run(Plan(yearGroup, program, semester, fromProgram), contents, unreachable)
  }

  /** With a token and a program, the load is the run of the plan. */
  lemma ResolveRunsPlan(token: string, yearGroup: int, program: string, semester: Criteria.Semester, fromProgram: Option<string>,
                        contents: map<Key, StoredData>, unreachable: set<Key>)
    requires token != "" && Text.Trim(program) != ""
    ensures Resolve(token, yearGroup, program, semester, fromProgram, contents, unreachable)
      == Run(Plan(yearGroup, program, semester, fromProgram), contents, unreachable)
  {
  }

  /** The load never leaves a half-built buffer: on an error the buffer is
      empty and the last key fetched is one the store could not serve; in
      every case the buffer is editor-shaped. */
  lemma ResolveErrorAndShape(token: string, yearGroup: int, program: string, semester: Criteria.Semester, fromProgram: Option<string>,
                             contents: map<Key, StoredData>, unreachable: set<Key>)
    ensures var res := Resolve(token, yearGroup, program, semester, fromProgram, contents, unreachable);
      && (res.msg == LoadError ==> res.data == EmptyData && res.fetched != [] && res.fetched[|res.fetched| - 1] in unreachable)
      && Criteria.EditorShaped(res.data)
  {
    if !(token == "" || Text.Trim(program) == "") {
      var plan := Plan(yearGroup, program, semester, fromProgram);
      PlanKeys(yearGroup, program, semester, fromProgram);
      assert forall i :: 0 <= i < |plan| ==> plan[i].origin != LoadError;
      RunErrorAtLast(plan, contents, unreachable);
      ResolveRunsPlan(token, yearGroup, program, semester, fromProgram, contents, unreachable);
    }
  }

  /** An error message means the last key fetched failed, and the buffer is
      empty; any other outcome has an editor-shaped buffer. */
  lemma {:induction false} RunErrorAtLast(plan: seq<Lookup>, contents: map<Key, StoredData>, unreachable: set<Key>)
    requires forall i :: 0 <= i < |plan| ==> plan[i].origin != LoadError
    ensures var res := Run(plan, contents, unreachable);
      res.msg == LoadError ==> res.data == EmptyData && res.fetched != [] && res.fetched[|res.fetched| - 1] in unreachable
    ensures Criteria.EditorShaped(Run(plan, contents, unreachable).data)
    decreases |plan|
  {
    if plan != [] {
      var f := FetchAt(contents, unreachable, plan[0].key);
      if f.Fetched? && !Criteria.HasContent(f.data) {
        assert forall i :: 0 <= i < |plan| - 1 ==> plan[1..][i] == plan[i + 1];
        RunErrorAtLast(plan[1..], contents, unreachable);
      }
    }
  }

  // ---------------------------------------------------------------------
  // Consequences for the loader

  /** Already-authored criteria are shown as they are: one fetch, the copy
      of the target's data, and no message. */
  lemma TargetHasContent(token: string, yearGroup: int, program: string, semester: Criteria.Semester, fromProgram: Option<string>,
                         contents: map<Key, StoredData>, unreachable: set<Key>)
    requires token != "" && Text.Trim(program) != ""
    requires var k := Key(yearGroup, Text.Trim(program), semester);
      k !in unreachable && k in contents && Criteria.HasContent(contents[k])
    ensures var k := Key(yearGroup, Text.Trim(program), semester);
      Resolve(token, yearGroup, program, semester, fromProgram, contents, unreachable)
      == Resolution(Criteria.DeepClone(contents[k]), NoMessage, [k])
  {
    var plan := Plan(yearGroup, program, semester, fromProgram);
    RunFirstContent(plan, contents, unreachable, 0);
  }

  /** The program-change hint comes before the previous semester: with an
      empty target and content under the hinted program, the buffer is the
      hinted program's copy, the message names that program and semester,
      and exactly two keys are fetched. */
  lemma HintBeforePrevSemester(token: string, yearGroup: int, program: string, semester: Criteria.Semester, hint: string,
                               contents: map<Key, StoredData>, unreachable: set<Key>)
    requires token != "" && Text.Trim(program) != ""
    requires UsesHint(program, Some(hint))
    requires var t := Key(yearGroup, Text.Trim(program), semester);
      t !in unreachable && (t !in contents || !Criteria.HasContent(contents[t]))
    requires var h := Key(yearGroup, Text.Trim(hint), semester);
      h !in unreachable && h in contents && Criteria.HasContent(contents[h])
    ensures var t := Key(yearGroup, Text.Trim(program), semester);
      var h := Key(yearGroup, Text.Trim(hint), semester);
      Resolve(token, yearGroup, program, semester, Some(hint), contents, unreachable)
      == Resolution(Criteria.DeepClone(contents[h]), PrefilledFromProgram(hint, semester), [t, h])
  {
    var plan := Plan(yearGroup, program, semester, Some(hint));
    PlanHint(yearGroup, program, semester, Some(hint));
    RunFirstContent(plan, contents, unreachable, 1);
  }

  /** For the first semester no other semester is fetched, and at the
      minimum year group no earlier year group is fetched. */
  lemma FallbackBoundaries(token: string, yearGroup: int, program: string, semester: Criteria.Semester, fromProgram: Option<string>,
                           contents: map<Key, StoredData>, unreachable: set<Key>)
    ensures var res := Resolve(token, yearGroup, program, semester, fromProgram, contents, unreachable);
      && (semester == Criteria.Y1S1 ==> forall k :: k in res.fetched ==> k.semester == semester)
      && (yearGroup <= MinYearGroup ==> forall k :: k in res.fetched ==> k.yearGroup == yearGroup)
  {
    var res := Resolve(token, yearGroup, program, semester, fromProgram, contents, unreachable);
    if res.fetched != [] {
      var plan := Plan(yearGroup, program, semester, fromProgram);
      PlanKeys(yearGroup, program, semester, fromProgram);
      forall k | k in res.fetched
        ensures semester == Criteria.Y1S1 ==> k.semester == semester
        ensures yearGroup <= MinYearGroup ==> k.yearGroup == yearGroup
      {
        var i :| 0 <= i < |res.fetched| && res.fetched[i] == k;
        assert k == plan[i].key && plan[i] in plan;
      }
    }
  }

  /** Without a hint, the second lookup (when there is a previous semester)
      is the previous semester of the same program. */
  lemma PlanWithoutHint(yearGroup: int, program: string, semester: Criteria.Semester)
    requires Criteria.PrevSemester(semester).Some?
    ensures var p := Plan(yearGroup, program, semester, None);
      var prev := Criteria.PrevSemester(semester).value;
      |p| > 1 && p[1] == Lookup(Key(yearGroup, Text.Trim(program), prev), PrefilledFromSemester(prev))
  {
    assert Lateral(yearGroup, program, semester, None) == [];
  }

  /** A used hint does not displace the previous semester: it is looked up
      third, after the target and the hinted program. */
  lemma PlanWithHint(yearGroup: int, program: string, semester: Criteria.Semester, hint: string)
    requires UsesHint(program, Some(hint))
    requires Criteria.PrevSemester(semester).Some?
    ensures var p := Plan(yearGroup, program, semester, Some(hint));
      var prev := Criteria.PrevSemester(semester).value;
      |p| > 2 && p[2] == Lookup(Key(yearGroup, Text.Trim(program), prev), PrefilledFromSemester(prev))
  {
    var prog := Text.Trim(program);
    var lat := Lateral(yearGroup, program, semester, Some(hint));
    var tem := Temporal(yearGroup, prog, semester);
    var rest := tem + Cohort(yearGroup, prog, semester);
    PlanParts(yearGroup, program, semester, Some(hint));
    assert |lat| == 1 && |tem| == 1;
    assert Plan(yearGroup, program, semester, Some(hint))[2] == rest[0] == tem[0];
  }

  /** The previous year group is looked up last, after the target and
      whichever of the hint and the previous semester apply, exactly when
      it is not below the minimum. */
  lemma PlanYearGroupLast(yearGroup: int, program: string, semester: Criteria.Semester, fromProgram: Option<string>)
    ensures var p := Plan(yearGroup, program, semester, fromProgram);
      (yearGroup - 1 >= MinYearGroup <==>
        p[|p| - 1] == Lookup(Key(yearGroup - 1, Text.Trim(program), semester), PrefilledFromYearGroup(yearGroup - 1, semester)))
  {
    var prog := Text.Trim(program);
    var coh := Cohort(yearGroup, prog, semester);
    var p := Plan(yearGroup, program, semester, fromProgram);
    PlanParts(yearGroup, program, semester, fromProgram);
    if yearGroup - 1 >= MinYearGroup {
      assert p[|p| - 1] == coh[0];
    } else {
      assert p[|p| - 1].origin != PrefilledFromYearGroup(yearGroup - 1, semester) by {
        if |p| > 1 {
          var rest := Fallbacks(yearGroup, program, semester, fromProgram);
          assert p[|p| - 1] == rest[|rest| - 1] && rest[|rest| - 1] in rest;
        }
      }
    }
  }

  /** The first semester has no previous semester, so an empty target goes
      on to the previous year group: with no usable hint and content there,
      that copy is shown after exactly two fetches. */
  lemma YearGroupFallbackOfY1S1(token: string, yearGroup: int, program: string, fromProgram: Option<string>,
                                contents: map<Key, StoredData>, unreachable: set<Key>)
    requires token != "" && Text.Trim(program) != "" && !UsesHint(program, fromProgram)
    requires yearGroup - 1 >= MinYearGroup
    requires var t := Key(yearGroup, Text.Trim(program), Criteria.Y1S1);
      t !in unreachable && (t !in contents || !Criteria.HasContent(contents[t]))
    requires var k := Key(yearGroup - 1, Text.Trim(program), Criteria.Y1S1);
      k !in unreachable && k in contents && Criteria.HasContent(contents[k])
    ensures var t := Key(yearGroup, Text.Trim(program), Criteria.Y1S1);
      var k := Key(yearGroup - 1, Text.Trim(program), Criteria.Y1S1);
      Resolve(token, yearGroup, program, Criteria.Y1S1, fromProgram, contents, unreachable)
      == Resolution(Criteria.DeepClone(contents[k]), PrefilledFromYearGroup(yearGroup - 1, Criteria.Y1S1), [t, k])
  {
    var plan := Plan(yearGroup, program, Criteria.Y1S1, fromProgram);
    UnusedHint(yearGroup, program, Criteria.Y1S1, fromProgram);
    assert Lateral(yearGroup, program, Criteria.Y1S1, None) == [];
    PlanParts(yearGroup, program, Criteria.Y1S1, None);
    assert |plan| == 2;
    PlanYearGroupLast(yearGroup, program, Criteria.Y1S1, fromProgram);
    RunFirstContent(plan, contents, unreachable, 1);
  }

  /** The previous-semester lookup of `Y2S1` asks for `Y1S2`; with an empty
      target, no usable hint and content there, that copy is shown. */
  lemma PrevSemesterOfY2S1(token: string, yearGroup: int, program: string,
                           contents: map<Key, StoredData>, unreachable: set<Key>)
    requires token != "" && Text.Trim(program) != ""
    requires var t := Key(yearGroup, Text.Trim(program), Criteria.Y2S1);
      t !in unreachable && (t !in contents || !Criteria.HasContent(contents[t]))
    requires var p := Key(yearGroup, Text.Trim(program), Criteria.Y1S2);
      p !in unreachable && p in contents && Criteria.HasContent(contents[p])
    ensures var t := Key(yearGroup, Text.Trim(program), Criteria.Y2S1);
      var p := Key(yearGroup, Text.Trim(program), Criteria.Y1S2);
      Resolve(token, yearGroup, program, Criteria.Y2S1, None, contents, unreachable)
      == Resolution(Criteria.DeepClone(contents[p]), PrefilledFromSemester(Criteria.Y1S2), [t, p])
  {
    PlanWithoutHint(yearGroup, program, Criteria.Y2S1);
    RunFirstContent(Plan(yearGroup, program, Criteria.Y2S1, None), contents, unreachable, 1);
  }

  /** Every lookup empty: the buffer is empty, the message says there are no
      criteria yet, and every lookup of the plan was fetched. */
  lemma NothingAnywhere(token: string, yearGroup: int, program: string, semester: Criteria.Semester, fromProgram: Option<string>,
                        contents: map<Key, StoredData>, unreachable: set<Key>)
    requires token != "" && Text.Trim(program) != ""
    requires forall k :: k in Keys(Plan(yearGroup, program, semester, fromProgram)) ==>
      k !in unreachable && (k !in contents || !Criteria.HasContent(contents[k]))
    ensures Resolve(token, yearGroup, program, semester, fromProgram, contents, unreachable)
      == Resolution(EmptyData, NoCriteria, Keys(Plan(yearGroup, program, semester, fromProgram)))
  {
    var plan := Plan(yearGroup, program, semester, fromProgram);
    forall j | 0 <= j < |plan|
      ensures var f := FetchAt(contents, unreachable, plan[j].key); f.Fetched? && !Criteria.HasContent(f.data)
    {
      assert Keys(plan)[j] == plan[j].key;
      assert plan[j].key in Keys(plan);
    }
    RunAllEmpty(plan, contents, unreachable);
  }

  /** An unreachable store is never mistaken for an empty one: if the target
      cannot be fetched the load ends at once with the error. */
  lemma TargetFailure(token: string, yearGroup: int, program: string, semester: Criteria.Semester, fromProgram: Option<string>,
                      contents: map<Key, StoredData>, unreachable: set<Key>)
    requires token != "" && Text.Trim(program) != ""
    requires Key(yearGroup, Text.Trim(program), semester) in unreachable
    ensures Resolve(token, yearGroup, program, semester, fromProgram, contents, unreachable)
      == Resolution(EmptyData, LoadError, [Key(yearGroup, Text.Trim(program), semester)])
  {
    RunFirstFailure(Plan(yearGroup, program, semester, fromProgram), contents, unreachable, 0);
  }

  /** Saving an editor-shaped buffer with content and then loading the same
      selection shows exactly that buffer, from the target, with no message. */
  lemma SaveThenLoad(token: string, yearGroup: int, program: string, semester: Criteria.Semester, fromProgram: Option<string>,
                     contents: map<Key, StoredData>, unreachable: set<Key>, d: SemesterData)
    requires token != "" && Text.Trim(program) != ""
    requires Criteria.EditorShaped(d) && (d.slots != [] || d.rules != [])
    requires Key(yearGroup, Text.Trim(program), semester) !in unreachable
    ensures var k := Key(yearGroup, Text.Trim(program), semester);
      Resolve(token, yearGroup, program, semester, fromProgram, contents[k := ToStored(d)], unreachable)
      == Resolution(d, NoMessage, [k])
  {
    var k := Key(yearGroup, Text.Trim(program), semester);
    TargetHasContent(token, yearGroup, program, semester, fromProgram, contents[k := ToStored(d)], unreachable);
    Criteria.CloneOfSaved(d);
  }
}
