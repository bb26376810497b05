/** The older criteria-manager page: its normalisation of loaded criteria,
    its two slot constructors, and its filtering of the year-group list. */
module Manager {
  import opened Wrappers
  import opened Types
  import Seqs
  import Text
  import Criteria
  import Cascade
  import Editor

  /** `{ slots: [], rules: [], checkpointLabel: '' }`: the page's empty buffer. */
  const BlankData := SemesterData([], [], Some(""))

  /** The defaults of `addElective`. */
  const DefaultElectiveTag: string := "Elective"
  const DefaultElectivePriority: int := 50

  // ---------------------------------------------------------------------
  // Loading a semester

  /** The buffer made from fetched criteria: absent lists become empty and
      an absent label becomes ''. The rules are taken as they come (no
      `when`/`then` filling), and the buffer has content exactly when the
      fetched value has. */
  function Normalized(d: StoredData): (r: SemesterData)
    ensures r.slots == (if d.Object? && d.slots.Some? then d.slots.value else [])
    ensures r.rules == (if d.Object? && d.rules.Some? then d.rules.value else [])
    ensures r.checkpointLabel == Some(if d.Object? && d.checkpointLabel.Some? then d.checkpointLabel.value else "")
    ensures Criteria.HasContent(d) <==> (r.slots != [] || r.rules != [])
  {
    match d
    case Missing => BlankData
    case Object(slots, rules, checkpoint) => SemesterData(slots.GetOr([]), rules.GetOr([]), Some(checkpoint.GetOr("")))
  }

  /** A buffer with a label, once saved, loads back unchanged. */
  lemma NormalizedOfSaved(d: SemesterData)
    requires d.checkpointLabel.Some?
    ensures Normalized(ToStored(d)) == d
  {
  }

  /** The manager and the editor read the same fetched value into the same
      slots and the same number of rules, and agree on whether it has
      content; they differ in the label and in filling in rule parts. */
  lemma NormalizedAgreesWithEditor(d: StoredData)
    ensures Normalized(d).slots == Criteria.DeepClone(d).slots
    ensures |Normalized(d).rules| == |Criteria.DeepClone(d).rules|
    ensures (Normalized(d).slots != [] || Normalized(d).rules != [])
        <==> (Criteria.DeepClone(d).slots != [] || Criteria.DeepClone(d).rules != [])
  {
  }

  // ---------------------------------------------------------------------
  // Slot constructors

  /** `addElective` of this page: the slot is titled like the editor's
      (`${tag} #${count}`) but carries no course list and no grade. */
  function WithElective(d: SemesterData, id: string, tag: string, priority: int): (r: SemesterData)
    ensures |r.slots| == |d.slots| + 1 && r.slots[..|d.slots|] == d.slots
    ensures var s := r.slots[|d.slots|];
      s.id == id && s.kind == Elective && s.title == Criteria.ElectiveTitle(d.slots, tag)
      && s.priority == Some(priority) && s.tag == Some(tag)
      && s.allowedCourses.None? && s.minGrade.None? && s.courseName.None?
    ensures r.rules == d.rules && r.checkpointLabel == d.checkpointLabel
  {
    var s := Slot(id, Criteria.ElectiveTitle(d.slots, tag), Elective, None, None, None, Some(priority), Some(tag));
    d.(slots := d.slots + [s])
  }

  /** The two pages' electives differ only in the editor's defaults for the
      course list and the grade. */
  lemma ElectiveAgreesWithEditor(d: SemesterData, id: string, tag: string, priority: int)
    ensures var mine := WithElective(d, id, tag, priority);
      Criteria.AddElective(d, id, tag, priority)
        == mine.(slots := d.slots + [mine.slots[|d.slots|].(allowedCourses := Some([]), minGrade := Some("D"))])
  {
  }

  /** Electives of one tag are numbered one after the other; other tags'
      counts are not touched. */
  lemma {:induction false} ElectiveNumbering(d: SemesterData, id: string, tag: string, priority: int, other: string)
    requires other != tag
    ensures Criteria.TagCount(WithElective(d, id, tag, priority).slots, tag) == Criteria.TagCount(d.slots, tag) + 1
    ensures Criteria.TagCount(WithElective(d, id, tag, priority).slots, other) == Criteria.TagCount(d.slots, other)
  {
    var r := WithElective(d, id, tag, priority);
    var s := r.slots[|d.slots|];
    assert r.slots == d.slots + [s];
    Seqs.KeepWhereAppend(d.slots, [s], (x: Slot) => x.tag == Some(tag));
    Seqs.KeepWhereAppend(d.slots, [s], (x: Slot) => x.tag == Some(other));
    assert Seqs.KeepWhere([s], (x: Slot) => x.tag == Some(tag)) == [s];
    assert Seqs.KeepWhere([s], (x: Slot) => x.tag == Some(other)) == [];
  }

  // ---------------------------------------------------------------------
  // Year groups

  /** The `yearGroup` field of one listed year group: a number, or
      something else (`None`). */
  type YearGroupField = Option<int>

  /** The numeric year groups of a listing, in listing order. */
  function NumericYearGroups(fields: seq<YearGroupField>): (r: seq<int>)
    ensures |r| <= |fields|
    ensures forall y :: y in r <==> Some(y) in fields
    decreases |fields|
  {
    if fields == [] then []
    else
      var rest := NumericYearGroups(fields[1..]);
      assert forall y :: Some(y) in fields <==> fields[0] == Some(y) || Some(y) in fields[1..];
      match fields[0]
      case Some(y) => [y] + rest
      case None => rest
  }

  /** Filtering keeps the listing's order: filtering two listings one after
      the other is filtering their concatenation. */
  lemma {:induction false} NumericYearGroupsAppend(a: seq<YearGroupField>, b: seq<YearGroupField>)
    ensures NumericYearGroups(a + b) == NumericYearGroups(a) + NumericYearGroups(b)
    decreases |a|
  {
    if a == [] {
      assert a + b == b;
    } else {
      assert (a + b)[0] == a[0];
      assert (a + b)[1..] == a[1..] + b;
      NumericYearGroupsAppend(a[1..], b);
    }
  }

  /** A listing of numbers only is kept whole. */
  lemma {:induction false} AllNumeric(ys: seq<int>)
    ensures NumericYearGroups(seq(|ys|, i requires 0 <= i < |ys| => Some(ys[i]))) == ys
    decreases |ys|
  {
    if ys != [] {
      var fields := seq(|ys|, i requires 0 <= i < |ys| => Some(ys[i]));
      AllNumeric(ys[1..]);
      assert fields[1..] == seq(|ys[1..]|, i requires 0 <= i < |ys[1..]| => Some(ys[1..][i]));
    }
  }

  /** What the year-group endpoint answers: a listing (`None` for `null`),
      or a failure. */
  datatype YearGroupsResponse = Listed(listing: Option<seq<YearGroupField>>) | ListingFailed

  // ---------------------------------------------------------------------
  // The page

  /** The page's status line, by kind. */
  datatype ManagerMessage =
    | NoMessage
    | EmptySemester            // "Empty semester: add slots and/or rules."
    | SemesterLoadFailed       // the server's message or "Failed to load semester data"
    | YearGroupsLoadFailed     // the server's message or "Failed to load year groups"

  /** What one run of `loadSemester` leaves: the buffer, the message and
      the keys it fetched. */
  datatype Outcome = Outcome(data: SemesterData, msg: ManagerMessage, fetched: seq<Cascade.Key>)

  /** `loadSemester` against a store, from the page's selection and its
      current buffer and message: without a token, a year group or a
      program nothing happens. Otherwise the selected key (the program
      untrimmed) is fetched once; a failure leaves the blank buffer and a
      failure message; a fetched value becomes the normalised buffer, with
      "empty" exactly when the value has no slot and no rule. */
  function SemesterLoad(token: string, yearGroup: Option<int>, program: string, semester: Criteria.Semester,
                        data: SemesterData, msg: ManagerMessage,
                        contents: map<Cascade.Key, StoredData>, unreachable: set<Cascade.Key>): (o: Outcome)
    ensures token == "" || yearGroup.None? || program == "" ==> o == Outcome(data, msg, [])
    ensures token != "" && yearGroup.Some? && program != "" ==>
      var k := Cascade.Key(yearGroup.value, program, semester);
      && o.fetched == [k]
      && (k in unreachable ==> o.data == BlankData && o.msg == SemesterLoadFailed)
      && (k !in unreachable ==>
            var v := if k in contents then contents[k] else Missing;
            && o.data == Normalized(v)
            && (o.msg == EmptySemester <==> !Criteria.HasContent(v))
            && (o.msg == NoMessage <==> Criteria.HasContent(v)))
  {
    if token == "" || yearGroup.None? || program == "" then Outcome(data, msg, [])
    else
      var k := Cascade.Key(yearGroup.value, program, semester);
      match Cascade.FetchAt(contents, unreachable, k)
      case Failed => Outcome(BlankData, SemesterLoadFailed, [k])
      case Fetched(v) => Outcome(Normalized(v), if Criteria.HasContent(v) then NoMessage else EmptySemester, [k])
  }

  /** A semester saved with a label and some content loads back as it was
      saved, with no message. */
  lemma SavedSemesterLoads(token: string, y: int, program: string, semester: Criteria.Semester,
                           data: SemesterData, msg: ManagerMessage, d: SemesterData,
                           contents: map<Cascade.Key, StoredData>, unreachable: set<Cascade.Key>)
    requires token != "" && program != ""
    requires d.checkpointLabel.Some? && (d.slots != [] || d.rules != [])
    requires Cascade.Key(y, program, semester) !in unreachable
    requires contents == contents[Cascade.Key(y, program, semester) := ToStored(d)]
    ensures SemesterLoad(token, Some(y), program, semester, data, msg, contents, unreachable)
      == Outcome(d, NoMessage, [Cascade.Key(y, program, semester)])
  {
    var k := Cascade.Key(y, program, semester);
    assert k in contents && contents[k] == ToStored(d);
    NormalizedOfSaved(d);
  }

  /** Once the selection is complete, what a load leaves depends only on
      the store: loading again right after a load changes nothing but
      fetches the key again. */
  lemma {:induction false} ReloadIsStable(token: string, yearGroup: Option<int>, program: string, semester: Criteria.Semester,
                                          data: SemesterData, msg: ManagerMessage,
                                          contents: map<Cascade.Key, StoredData>, unreachable: set<Cascade.Key>)
    ensures var o := SemesterLoad(token, yearGroup, program, semester, data, msg, contents, unreachable);
      var o2 := SemesterLoad(token, yearGroup, program, semester, o.data, o.msg, contents, unreachable);
      o2.data == o.data && o2.msg == o.msg && o2.fetched == o.fetched
  {
  }

  class CriteriaManagerPage {
    const store: Editor.CriteriaStore
    var token: string
    var yearGroups: seq<int>
    var yearGroup: Option<int>
    var program: string
    var semester: Criteria.Semester
    var data: SemesterData
    var msg: ManagerMessage
    var loading: bool

    /** Between actions the buffer has a label and nothing is loading. */
    ghost predicate Valid()
      reads this
    {
      data.checkpointLabel.Some? && !loading
    }

    constructor(store: Editor.CriteriaStore, token: string)
      ensures Valid()
      ensures this.store == store && this.token == token
      ensures yearGroups == [] && yearGroup.None? && program == "" && semester == Criteria.Y1S1
      ensures data == BlankData && msg == NoMessage
    {
      this.store := store;
      this.token := token;
      yearGroups := [];
      yearGroup := None;
      program := "";
      semester := Criteria.Y1S1;
      data := BlankData;
      msg := NoMessage;
      loading := false;
    }

    /** The selectors. Choosing a different year group, program or
        semester reruns `loadSemester` (the effect on all three); choosing
        the same one again changes nothing. */
    method SelectYearGroup(y: int)
      requires Valid()
      modifies this`yearGroup, this`data, this`msg, this`loading, store`fetchLog
      ensures Valid() && yearGroup == Some(y)
      ensures old(yearGroup) == Some(y) ==>
        data == old(data) && msg == old(msg) && store.fetchLog == old(store.fetchLog)
      ensures old(yearGroup) != Some(y) ==> Reloaded(old(data), old(msg), old(store.fetchLog))
    {
      if yearGroup != Some(y) {
        yearGroup := Some(y);
        LoadSemester();
      }
    }

    method SelectProgram(p: string)
      requires Valid()
      modifies this`program, this`data, this`msg, this`loading, store`fetchLog
      ensures Valid() && program == p
      ensures old(program) == p ==>
        data == old(data) && msg == old(msg) && store.fetchLog == old(store.fetchLog)
      ensures old(program) != p ==> Reloaded(old(data), old(msg), old(store.fetchLog))
    {
      if program != p {
        program := p;
        LoadSemester();
      }
    }

    method SelectSemester(s: Criteria.Semester)
      requires Valid()
      modifies this`semester, this`data, this`msg, this`loading, store`fetchLog
      ensures Valid() && semester == s
      ensures old(semester) == s ==>
        data == old(data) && msg == old(msg) && store.fetchLog == old(store.fetchLog)
      ensures old(semester) != s ==> Reloaded(old(data), old(msg), old(store.fetchLog))
    {
      if semester != s {
        semester := s;
        LoadSemester();
      }
    }

    /** The buffer, message and fetch log are what `loadSemester` leaves for
        the current selection, starting from the given buffer, message and log. */
    ghost predicate Reloaded(data0: SemesterData, msg0: ManagerMessage, log0: seq<Cascade.Key>)
      reads this, store
    {
      var o := SemesterLoad(token, yearGroup, program, semester, data0, msg0, store.contents, store.unreachable);
      data == o.data && msg == o.msg && store.fetchLog == log0 + o.fetched
    }

    /** `loadYearGroups`: without a token nothing happens. A listing
        replaces the year groups with its numeric entries, in order, and
        selects the first of them only when none is selected; a failure
        only sets the message. */
    method LoadYearGroups(response: YearGroupsResponse)
      requires Valid()
      modifies this`yearGroups, this`yearGroup, this`msg, this`data, this`loading, store`fetchLog
      ensures Valid()
      ensures token == "" ==> yearGroups == old(yearGroups) && yearGroup == old(yearGroup) && msg == old(msg)
      ensures token != "" && response.ListingFailed? ==>
        yearGroups == old(yearGroups) && yearGroup == old(yearGroup) && msg == YearGroupsLoadFailed
      ensures token != "" && response.Listed? ==>
        && yearGroups == NumericYearGroups(response.listing.GetOr([]))
        && yearGroup == (if yearGroups != [] && old(yearGroup).None? then Some(yearGroups[0]) else old(yearGroup))
      ensures yearGroup == old(yearGroup) ==> data == old(data) && store.fetchLog == old(store.fetchLog)
      ensures yearGroup == old(yearGroup) && !(token != "" && response.ListingFailed?) ==> msg == old(msg)
      ensures yearGroup != old(yearGroup) ==> Reloaded(old(data), old(msg), old(store.fetchLog))
    {
      if token == "" {
        return;
      }
      match response {
        case ListingFailed =>
          msg := YearGroupsLoadFailed;
        case Listed(listing) =>
          var arr := NumericYearGroups(listing.GetOr([]));
          yearGroups := arr;
          if |arr| > 0 && yearGroup.None? {
            yearGroup := Some(arr[0]);
            LoadSemester();
          }
      }
    }

    /** `loadSemester`: without a token, a year group or a program nothing
        happens. Otherwise the selected key is fetched once; the buffer
        becomes the normalised value and the message says "empty" exactly
        when the value has no slot and no rule; a failure leaves the blank
        buffer and a failure message. */
    method LoadSemester()
      requires Valid()
      modifies this`data, this`msg, this`loading, store`fetchLog
      ensures Valid()
      ensures token == "" || yearGroup.None? || program == "" ==>
        data == old(data) && msg == old(msg) && store.fetchLog == old(store.fetchLog)
      ensures token != "" && yearGroup.Some? && program != "" ==>
        var k := Cascade.Key(yearGroup.value, program, semester);
        var f := Cascade.FetchAt(store.contents, store.unreachable, k);
        && store.fetchLog == old(store.fetchLog) + [k]
        && (f.Failed? ==> data == BlankData && msg == SemesterLoadFailed)
        && (f.Fetched? ==>
              data == Normalized(f.data)
              && (msg == EmptySemester <==> !Criteria.HasContent(f.data))
              && (msg == NoMessage <==> Criteria.HasContent(f.data)))
      ensures Reloaded(old(data), old(msg), old(store.fetchLog))
    {
      if token == "" || yearGroup.None? || program == "" {
        return;
      }
      loading := true;
      msg := NoMessage;
      var f := store.Fetch(Cascade.Key(yearGroup.value, program, semester));
      match f {
        case Failed =>
          msg := SemesterLoadFailed;
          data := BlankData;
        case Fetched(d) =>
          data := Normalized(d);
          if !Criteria.HasContent(d) {
            msg := EmptySemester;
          }
      }
      loading := false;
    }

    /** `addRequired`: the same blank required slot the editor appends. */
    method AddRequired(id: string)
      requires Valid()
      modifies this`data
      ensures Valid() && data == Criteria.AddRequired(old(data), id)
    {
      data := Criteria.AddRequired(data, id);
    }

    /** `addElective`, with the tag and priority given (the page's defaults
        are `DefaultElectiveTag` and `DefaultElectivePriority`). */
    method AddElective(id: string, tag: string, priority: int)
      requires Valid()
      modifies this`data
      ensures Valid() && data == WithElective(old(data), id, tag, priority)
    {
      data := WithElective(data, id, tag, priority);
    }
  }
}
