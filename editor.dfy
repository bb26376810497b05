/** The program-criteria editor page: the criteria store it talks to, and
    the page's own state (selection, buffer, message, loading flag and the
    previous-program hint) with the actions that change it. */
module Editor {
  import opened Wrappers
  import opened Types
  import Text
  import Criteria
  import opened Cascade

  /** The criteria endpoints as seen from the page: what is stored under each
      key, the keys the store cannot serve (transport or authorisation
      failures), and a log of the keys fetched, in order. */
  class CriteriaStore {
    var contents: map<Key, StoredData>
    var unreachable: set<Key>
    ghost var fetchLog: seq<Key>

    constructor(contents: map<Key, StoredData>, unreachable: set<Key>)
      ensures this.contents == contents && this.unreachable == unreachable && fetchLog == []
    {
      this.contents := contents;
      this.unreachable := unreachable;
      fetchLog := [];
    }

    /** Reads one key. */
    method Fetch(k: Key) returns (f: Fetch)
      modifies this`fetchLog
      ensures f == FetchAt(contents, unreachable, k)
      ensures fetchLog == old(fetchLog) + [k]
    {
      fetchLog := fetchLog + [k];
      if k in unreachable {
        f := Failed;
      } else if k in contents {
        f := Fetched(contents[k]);
      } else {
        f := Fetched(Missing);
      }
    }

    /** Writes one key; fails, storing nothing, when the key cannot be served. */
    method Put(k: Key, d: SemesterData) returns (ok: bool)
      modifies this`contents
      ensures ok <==> k !in unreachable
      ensures contents == if ok then old(contents)[k := ToStored(d)] else old(contents)
    {
      ok := k !in unreachable;
      if ok {
        contents := contents[k := ToStored(d)];
      }
    }
  }

  /** The year group used when the address does not give one. */
  const DefaultYearGroup: int := 2026

  /** The first program of the selector, used when the address gives none. */
  const DefaultProgram: string := "B.Sc - Computer Engineering"

  class ProgramCriteria {
    const store: CriteriaStore
    var token: string
    var yearGroup: int
    var program: string
    var semester: Criteria.Semester
    var data: SemesterData
    var msg: Message
    var loading: bool
    /** The program selected before the last program change. */
    var prevProgram: Option<string>

    /** Between actions the buffer is editor-shaped and nothing is loading. */
    ghost predicate Valid()
      reads this
    {
      Criteria.EditorShaped(data) && !loading
    }

    /** The page as first rendered, from the address's parameters: a year
        group that parses as a number, a non-empty program, and a semester
        that is one of the eight codes are taken; otherwise the defaults. */
    constructor(store: CriteriaStore, token: string,
                urlYearGroup: Option<int>, urlProgram: Option<string>, urlSemester: Option<string>)
      ensures Valid()
      ensures this.store == store && this.token == token
      ensures yearGroup == urlYearGroup.GetOr(DefaultYearGroup)
      ensures program == if urlProgram.Some? && urlProgram.value != "" then urlProgram.value else DefaultProgram
      ensures semester == Criteria.InitialSemester(urlSemester)
      ensures data == EmptyData && msg == NoMessage && prevProgram.None?
    {
      assert Criteria.EditorShaped(EmptyData);
      this.store := store;
      this.token := token;
      yearGroup := urlYearGroup.GetOr(DefaultYearGroup);
      program := if urlProgram.Some? && urlProgram.value != "" then urlProgram.value else DefaultProgram;
      semester := Criteria.InitialSemester(urlSemester);
      data := EmptyData;
      msg := NoMessage;
      loading := false;
      prevProgram := None;
    }

    /** Where a load stands on its way to the outcome `res`: once `done`,
        the buffer, the message and the fetches are those of `res`; until
        then `sofar` has been fetched after `base` and `res` is what running
        `rest` adds to it. */
    ghost predicate Progress(res: Resolution, rest: seq<Lookup>, base: seq<Key>, done: bool, sofar: seq<Key>)
      reads this, store
    {
      && (done ==> data == res.data && msg == res.msg && store.fetchLog == base + res.fetched)
      && (!done ==> store.fetchLog == base + sofar && res == After(sofar, Run(rest, store.contents, store.unreachable)))
    }

    /** One step of the cascade: fetches `l.key`; a failure ends the load
        with an empty buffer and the error, content ends it with a copy and
        `l.origin`, an empty answer lets the load go on with `rest`. The
        ghost parameters carry where this step sits in the whole plan. */
    method Attempt(l: Lookup, ghost res: Resolution, ghost rest: seq<Lookup>, ghost base: seq<Key>, ghost sofar: seq<Key>)
      returns (done: bool, ghost sofar': seq<Key>)
      requires loading
      requires Progress(res, [l] + rest, base, false, sofar)
      modifies this`data, this`msg, store`fetchLog
      ensures Progress(res, rest, base, done, sofar')
    {
      ghost var tail := Run(rest, store.contents, store.unreachable);
      RunStep(l, rest, store.contents, store.unreachable);
      var f := store.Fetch(l.key);
      sofar' := sofar + [l.key];
      assert store.fetchLog == base + sofar';
      match f {
        case Failed =>
          AfterAfter(sofar, [l.key], Resolution(EmptyData, LoadError, []));
          data := EmptyData;
          msg := LoadError;
          done := true;
        case Fetched(d) =>
          if Criteria.HasContent(d) {
            AfterAfter(sofar, [l.key], Resolution(Criteria.DeepClone(d), l.origin, []));
            data := Criteria.DeepClone(d);
            msg := l.origin;
            done := true;
          } else {
            AfterAfter(sofar, [l.key], tail);
            done := false;
          }
      }
    }

    /** Second step: the hinted program in the same semester, when the hint
        is present, not blank and not the current program. */
    method TryHint(fromProgram: Option<string>, ghost res: Resolution, ghost later: seq<Lookup>,
                   ghost base: seq<Key>, done: bool, ghost sofar: seq<Key>)
      returns (done': bool, ghost sofar': seq<Key>)
      requires loading
      requires Progress(res, Lateral(yearGroup, program, semester, fromProgram) + later, base, done, sofar)
      modifies this`data, this`msg, store`fetchLog
      ensures Progress(res, later, base, done', sofar')
    {
      done', sofar' := done, sofar;
      if !done && UsesHint(program, fromProgram) {
        var hinted := fromProgram.value;
        var l := Lookup(Key(yearGroup, Text.Trim(hinted), semester), PrefilledFromProgram(hinted, semester));
        done', sofar' := Attempt(l, res, later, base, sofar);
      } else if !done {
        assert Lateral(yearGroup, program, semester, fromProgram) + later == later;
      }
    }

    /** Third step: the same program in the previous semester, if there is one. */
    method TryPrevSemester(prog: string, ghost res: Resolution, ghost later: seq<Lookup>,
                           ghost base: seq<Key>, done: bool, ghost sofar: seq<Key>)
      returns (done': bool, ghost sofar': seq<Key>)
      requires loading
      requires Progress(res, Temporal(yearGroup, prog, semester) + later, base, done, sofar)
      modifies this`data, this`msg, store`fetchLog
      ensures Progress(res, later, base, done', sofar')
    {
      done', sofar' := done, sofar;
      if !done {
        var prevSem := Criteria.PrevSemester(semester);
        if prevSem.Some? {
          var l := Lookup(Key(yearGroup, prog, prevSem.value), PrefilledFromSemester(prevSem.value));
          done', sofar' := Attempt(l, res, later, base, sofar);
        } else {
          assert Temporal(yearGroup, prog, semester) + later == later;
        }
      }
    }

    /** Fourth step: the same program and semester in the previous year
        group, unless that is below the smallest year group offered. */
    method TryPrevYearGroup(prog: string, ghost res: Resolution, ghost base: seq<Key>, done: bool, ghost sofar: seq<Key>)
      returns (done': bool, ghost sofar': seq<Key>)
      requires loading
      requires Progress(res, Cohort(yearGroup, prog, semester), base, done, sofar)
      modifies this`data, this`msg, store`fetchLog
      ensures Progress(res, [], base, done', sofar')
    {
      done', sofar' := done, sofar;
      if !done {
        var prevYearGroup := yearGroup - 1;
        if prevYearGroup >= MinYearGroup {
          var l := Lookup(Key(prevYearGroup, prog, semester), PrefilledFromYearGroup(prevYearGroup, semester));
          assert Cohort(yearGroup, prog, semester) == [l] + [];
          done', sofar' := Attempt(l, res, [], base, sofar);
        }
      }
    }

    /** The four steps in turn, then the "no criteria yet" outcome when
        none of them ended the load: together, `Run` on the plan. */
    method FetchInTurn(fromProgram: Option<string>, ghost res: Resolution)
      requires loading
      requires res == Run(Plan(yearGroup, program, semester, fromProgram), store.contents, store.unreachable)
      modifies this`data, this`msg, store`fetchLog
      ensures data == res.data && msg == res.msg && store.fetchLog == old(store.fetchLog) + res.fetched
    {
      var prog := Text.Trim(program);
      ghost var base := store.fetchLog;
      ghost var coh := Cohort(yearGroup, prog, semester);
      ghost var later := Temporal(yearGroup, prog, semester) + coh;
      ghost var rest := Lateral(yearGroup, program, semester, fromProgram) + later;
      var target := Lookup(Key(yearGroup, prog, semester), NoMessage);
      PlanParts(yearGroup, program, semester, fromProgram);
      assert res == After([], Run([target] + rest, store.contents, store.unreachable));
      assert Progress(res, [target] + rest, base, false, []);
      var done;
      ghost var sofar;
      done, sofar := Attempt(target, res, rest, base, []);
      done, sofar := TryHint(fromProgram, res, later, base, done, sofar);
      done, sofar := TryPrevSemester(prog, res, coh, base, done, sofar);
      done, sofar := TryPrevYearGroup(prog, res, base, done, sofar);
      if !done {
        assert store.fetchLog == base + sofar && res == After(sofar, Run([], store.contents, store.unreachable));
        assert res == Resolution(EmptyData, NoCriteria, sofar + []);
        data := EmptyData;
        msg := NoCriteria;
        assert sofar + [] == sofar;
      }
    }

    /** The loader: with no token or a blank program it empties the buffer
        (asking for a program if that is what is missing); otherwise it
        raises the loading flag and tries the target, the hinted program,
        the previous semester and the previous year group in turn, exactly
        as `Cascade.Resolve` says, fetching nothing else. */
    method Load(fromProgram: Option<string>)
      requires Valid()
      modifies this`data, this`msg, this`loading, store`fetchLog
      ensures Valid()
      ensures var res := Resolve(token, yearGroup, program, semester, fromProgram, store.contents, store.unreachable);
        data == res.data && msg == res.msg && store.fetchLog == old(store.fetchLog) + res.fetched
    {
      var prog := Text.Trim(program);
      if token == "" || prog == "" {
        data := EmptyData;
        msg := if prog != "" then NoMessage else SelectProgram;
        assert store.fetchLog == old(store.fetchLog) + [];
        return;
      }
      loading := true;
      msg := NoMessage;
      FetchInTurn(fromProgram, Run(Plan(yearGroup, program, semester, fromProgram), store.contents, store.unreachable));
      loading := false;
      ResolveRunsPlan(token, yearGroup, program, semester, fromProgram, store.contents, store.unreachable);
      ResolveErrorAndShape(token, yearGroup, program, semester, fromProgram, store.contents, store.unreachable);
    }

    /** The page's first render runs its effects in order: the hint is set
        to the current program, the token effect and the selection effect
        each load without a hint, and the program effect loads with the
        hint (the program itself, so unused) and sets it again. The same
        plan is therefore fetched three times over. */
    method Mount()
      requires Valid()
      modifies this`data, this`msg, this`loading, this`prevProgram, store`fetchLog
      ensures Valid()
      ensures var res := Resolve(token, yearGroup, program, semester, None, store.contents, store.unreachable);
        && data == res.data && msg == res.msg
        && store.fetchLog == old(store.fetchLog) + res.fetched + res.fetched + res.fetched
      ensures prevProgram == Some(program)
    {
      prevProgram := Some(program);
      Load(None);
      Load(None);
      if Text.Trim(program) != "" {
        UnusedHint(yearGroup, program, semester, prevProgram);
      }
      Load(prevProgram);
      prevProgram := Some(program);
    }

    /** A new sign-in token: reload without a hint. */
    method SetToken(t: string)
      requires Valid()
      modifies this`token, this`data, this`msg, this`loading, store`fetchLog
      ensures Valid() && token == t
      ensures t != old(token) ==>
        var res := Resolve(t, yearGroup, program, semester, None, store.contents, store.unreachable);
        data == res.data && msg == res.msg && store.fetchLog == old(store.fetchLog) + res.fetched
      ensures t == old(token) ==> data == old(data) && msg == old(msg) && store.fetchLog == old(store.fetchLog)
    {
      if t != token {
        token := t;
        Load(None);
      }
    }

    /** Choosing a year group reloads without a hint. */
    method ChangeYearGroup(y: int)
      requires Valid()
      modifies this`yearGroup, this`data, this`msg, this`loading, store`fetchLog
      ensures Valid() && yearGroup == y
      ensures y != old(yearGroup) ==>
        var res := Resolve(token, y, program, semester, None, store.contents, store.unreachable);
        data == res.data && msg == res.msg && store.fetchLog == old(store.fetchLog) + res.fetched
      ensures y == old(yearGroup) ==> data == old(data) && msg == old(msg) && store.fetchLog == old(store.fetchLog)
    {
      if y != yearGroup {
        yearGroup := y;
        Load(None);
      }
    }

    /** Choosing a semester reloads without a hint. */
    method ChangeSemester(s: Criteria.Semester)
      requires Valid()
      modifies this`semester, this`data, this`msg, this`loading, store`fetchLog
      ensures Valid() && semester == s
      ensures s != old(semester) ==>
        var res := Resolve(token, yearGroup, program, s, None, store.contents, store.unreachable);
        data == res.data && msg == res.msg && store.fetchLog == old(store.fetchLog) + res.fetched
      ensures s == old(semester) ==> data == old(data) && msg == old(msg) && store.fetchLog == old(store.fetchLog)
    {
      if s != semester {
        semester := s;
        Load(None);
      }
    }

    /** Choosing a program reloads with the previously selected program as
        the hint, then remembers the new program as the hint for next time. */
    method ChangeProgram(p: string)
      requires Valid()
      modifies this`program, this`prevProgram, this`data, this`msg, this`loading, store`fetchLog
      ensures Valid() && program == p
      ensures p != old(program) ==>
        var res := Resolve(token, yearGroup, p, semester, old(prevProgram), store.contents, store.unreachable);
        && data == res.data && msg == res.msg && store.fetchLog == old(store.fetchLog) + res.fetched
        && prevProgram == Some(p)
      ensures p == old(program) ==>
        data == old(data) && msg == old(msg) && store.fetchLog == old(store.fetchLog) && prevProgram == old(prevProgram)
    {
      if p != program {
        program := p;
        var fromProgram := prevProgram;
        Load(fromProgram);
        prevProgram := Some(p);
      }
    }

    /** Saving: without a token nothing happens; with a blank program the
        page asks for one; otherwise the buffer is written under the
        selection's key (program trimmed) and the message reports whether
        the write went through. */
    method Save()
      requires Valid()
      modifies this`msg, store`contents
      ensures Valid()
      ensures token == "" ==> msg == old(msg) && store.contents == old(store.contents)
      ensures token != "" && Text.Trim(program) == "" ==>
        msg == SelectProgramBeforeSave && store.contents == old(store.contents)
      ensures token != "" && Text.Trim(program) != "" ==>
        var k := Key(yearGroup, Text.Trim(program), semester);
        && (k !in store.unreachable ==> msg == Saved && store.contents == old(store.contents)[k := ToStored(data)])
        && (k in store.unreachable ==> msg == SaveFailed && store.contents == old(store.contents))
    {
      if token == "" {
        return;
      }
      var prog := Text.Trim(program);
      if prog == "" {
        msg := SelectProgramBeforeSave;
        return;
      }
      var ok := store.Put(Key(yearGroup, prog, semester), data);
      msg := if ok then Saved else SaveFailed;
    }

    // -------------------------------------------------------------------
    // Buffer edits; the ids of new entries come from the id generator

    method AddRequired(id: string)
      requires Valid()
      modifies this`data
      ensures Valid() && data == Criteria.AddRequired(old(data), id)
    {
      data := Criteria.AddRequired(data, id);
      Criteria.EditPreservesShape(old(data), Criteria.AddRequiredSlot(id));
    }

    method AddElective(id: string, tag: string, priority: int)
      requires Valid()
      modifies this`data
      ensures Valid() && data == Criteria.AddElective(old(data), id, tag, priority)
    {
      data := Criteria.AddElective(data, id, tag, priority);
      Criteria.EditPreservesShape(old(data), Criteria.AddElectiveSlot(id, tag, priority));
    }

    method RemoveSlot(id: string)
      requires Valid()
      modifies this`data
      ensures Valid() && data == Criteria.RemoveSlot(old(data), id)
    {
      data := Criteria.RemoveSlot(data, id);
      Criteria.EditPreservesShape(old(data), Criteria.RemoveSlotById(id));
    }

    method UpdateSlot(id: string, p: Criteria.SlotPatch)
      requires Valid()
      modifies this`data
      ensures Valid() && data == Criteria.UpdateSlot(old(data), id, p)
    {
      data := Criteria.UpdateSlot(data, id, p);
      Criteria.EditPreservesShape(old(data), Criteria.UpdateSlotById(id, p));
    }

    method AddRule(id: string)
      requires Valid()
      modifies this`data
      ensures Valid() && data == Criteria.AddRule(old(data), id)
    {
      data := Criteria.AddRule(data, id);
      Criteria.EditPreservesShape(old(data), Criteria.AddRuleEntry(id));
    }

    method RemoveRule(id: string)
      requires Valid()
      modifies this`data
      ensures Valid() && data == Criteria.RemoveRule(old(data), id)
    {
      data := Criteria.RemoveRule(data, id);
      Criteria.EditPreservesShape(old(data), Criteria.RemoveRuleById(id));
    }

    method UpdateRule(id: string, p: Criteria.RulePatch)
      requires Valid()
      modifies this`data
      ensures Valid() && data == Criteria.UpdateRule(old(data), id, p)
    {
      data := Criteria.UpdateRule(data, id, p);
      Criteria.EditPreservesShape(old(data), Criteria.UpdateRuleById(id, p));
    }

    /** Typing into one of the comma-list inputs of the rule shown at
        position `i`: the rules with that rule's id get the list patch. */
    method TypeRuleList(i: nat, field: Criteria.ListField, text: string)
      requires Valid() && i < |data.rules|
      modifies this`data
      ensures Valid()
      ensures var r := old(data).rules[i];
        data == Criteria.UpdateRule(old(data), r.id, Criteria.RuleListPatch(r, field, text))
    {
      var r := data.rules[i];
      UpdateRule(r.id, Criteria.RuleListPatch(r, field, text));
    }

    /** Typing into the allowed-courses input of the slot shown at position `i`. */
    method TypeAllowedCourses(i: nat, text: string)
      requires Valid() && i < |data.slots|
      modifies this`data
      ensures Valid()
      ensures data == Criteria.UpdateSlot(old(data), old(data).slots[i].id, Criteria.AllowedCoursesPatch(text))
    {
      UpdateSlot(data.slots[i].id, Criteria.AllowedCoursesPatch(text));
    }
  }
}
