/** The pure half of the program-criteria editor: the semester order, the
    content test and the copy the cascade loader uses, and the edit
    operations on the buffer. Each edit maps the previous buffer to the
    next one (`setData(prev => ...)`); none of them can fail. */
module Criteria {
  import opened Wrappers
  import opened Types
  import Seqs
  import Text

  /** The eight semester codes, in study order. The editors hold one of
      these in their semester state: the initial value is checked against
      the list and the selector offers only these. */
  datatype Semester = Y1S1 | Y1S2 | Y2S1 | Y2S2 | Y3S1 | Y3S2 | Y4S1 | Y4S2

  const Semesters: seq<Semester> := [Y1S1, Y1S2, Y2S1, Y2S2, Y3S1, Y3S2, Y4S1, Y4S2]

  /** The position of a semester in study order. */
  function Position(s: Semester): (i: nat)
    ensures i < |Semesters| && Semesters[i] == s
  {
    match s
    case Y1S1 => 0 case Y1S2 => 1 case Y2S1 => 2 case Y2S2 => 3
    case Y3S1 => 4 case Y3S2 => 5 case Y4S1 => 6 case Y4S2 => 7
  }

  /** The text of a semester code. */
  function Code(s: Semester): string {
    match s
    case Y1S1 => "Y1S1" case Y1S2 => "Y1S2" case Y2S1 => "Y2S1" case Y2S2 => "Y2S2"
    case Y3S1 => "Y3S1" case Y3S2 => "Y3S2" case Y4S1 => "Y4S1" case Y4S2 => "Y4S2"
  }

  const SemesterCodes: seq<string> := ["Y1S1", "Y1S2", "Y2S1", "Y2S2", "Y3S1", "Y3S2", "Y4S1", "Y4S2"]

  /** The grade a new slot starts with. */
  const DefaultMinGrade: Grade := "D"

  // ---------------------------------------------------------------------
  // Semester order, content test, copy

  /** `s.indexOf(x)`: the first position of `x` in `s`, or -1. */
  function IndexOf(s: seq<string>, x: string): (i: int)
    ensures -1 <= i < |s|
    ensures i == -1 <==> x !in s
    ensures 0 <= i ==> s[i] == x && x !in s[..i]
    decreases |s|
  {
    if s == [] then -1
    else if s[0] == x then 0
    else
      var j := IndexOf(s[1..], x);
      assert j >= 0 ==> s[..j + 1] == [s[0]] + s[1..][..j];
      if j == -1 then -1 else j + 1
  }

  /** The semester immediately before `s` in study order; none for the first. */
  function PrevSemester(s: Semester): (r: Option<Semester>)
    ensures r.None? <==> s == Y1S1
    ensures r.Some? ==> Position(r.value) + 1 == Position(s)
  {
    var i := Position(s);
    if i > 0 then Some(Semesters[i - 1]) else None
  }

  /** `getPrevSemester` on a code as text: the code before `current` in the
      eight-code list, or none for the first code and for a code that is not
      in the list. */
  function PrevSemesterCode(current: string): (r: Option<string>)
    ensures r.Some? <==> current in SemesterCodes && current != SemesterCodes[0]
  {
    var idx := IndexOf(SemesterCodes, current);
    if idx > 0 then Some(SemesterCodes[idx - 1]) else None
  }

  /** Two semesters with the same code are the same semester. */
  lemma CodeInjective(a: Semester, b: Semester)
    requires Code(a) == Code(b)
    ensures a == b
  {
    assert Code(a)[1] == Code(b)[1] && Code(a)[3] == Code(b)[3];
  }

  /** The code list is the codes of the semesters, in the same order. */
  lemma CodesInOrder()
    ensures |SemesterCodes| == |Semesters|
    ensures forall i :: 0 <= i < |Semesters| ==> SemesterCodes[i] == Code(Semesters[i])
  {
  }

  /** The semester a code names, if it is one of the eight. */
  function ParseSemester(code: string): (r: Option<Semester>)
    ensures r.None? <==> code !in SemesterCodes
    ensures r.Some? ==> Code(r.value) == code
  {
    CodesInOrder();
    var idx := IndexOf(SemesterCodes, code);
    if idx >= 0 then Some(Semesters[idx]) else None
  }

  /** The semester a page opens on: the code from the address when it is
      one of the eight, otherwise the first semester. */
  function InitialSemester(code: Option<string>): (s: Semester)
    ensures code.Some? && code.value in SemesterCodes ==> Code(s) == code.value
    ensures !(code.Some? && code.value in SemesterCodes) ==> s == Y1S1
  {
    if code.Some? then ParseSemester(code.value).GetOr(Y1S1) else Y1S1
  }

  /** On a known code the text version agrees with the one on semesters. */
  lemma PrevSemesterCodeAgrees(s: Semester)
    ensures PrevSemesterCode(Code(s)) == (if s == Y1S1 then None else Some(Code(PrevSemester(s).value)))
  {
    CodesInOrder();
    var i := Position(s);
    var k := IndexOf(SemesterCodes, Code(s));
    assert SemesterCodes[i] == Code(s);
    assert 0 <= k;
    CodeInjective(Semesters[k], s);
    PositionAt(k);
  }

  /** Study order lists each semester once: the semester at `k` is at position `k`. */
  lemma PositionAt(k: nat)
    requires k < |Semesters|
    ensures Position(Semesters[k]) == k
  {
    if k < 4 {
      assert k == 0 || k == 1 || k == 2 || k == 3;
    } else {
      assert k == 4 || k == 5 || k == 6 || k == 7;
    }
  }

  /** The fetched value is an object with at least one slot or one rule. */
  predicate HasContent(d: StoredData) {
    d.Object? && ((d.slots.Some? && |d.slots.value| > 0) || (d.rules.Some? && |d.rules.value| > 0))
  }

  /** The shape of every buffer the editor builds: each rule has a `when`
      and a `then` object, and there is no checkpoint label. */
  ghost predicate EditorShaped(d: SemesterData) {
    d.checkpointLabel.None?
    && forall r :: r in d.rules ==> r.whenClause.Some? && r.thenClause.Some?
  }

  /** A rule as the copy makes it: an absent `when` or `then` becomes `{}`. */
  function CloneRule(r: Rule): (c: Rule)
    ensures c.id == r.id && c.name == r.name
    ensures c.whenClause == Some(r.whenClause.GetOr(EmptyCondition))
    ensures c.thenClause == Some(r.thenClause.GetOr(EmptyEffect))
  {
    r.(whenClause := Some(r.whenClause.GetOr(EmptyCondition)), thenClause := Some(r.thenClause.GetOr(EmptyEffect)))
  }

  /** The copy of fetched data put into the buffer: nothing gives empty
      lists; otherwise the same slots, and the same rules with their `when`
      and `then` filled in, in the same order; the checkpoint label is not
      carried over. The copy has content exactly when the fetched value has. */
  function DeepClone(d: StoredData): (r: SemesterData)
    ensures d.Missing? ==> r == EmptyData
    ensures r.slots == (if d.Object? && d.slots.Some? then d.slots.value else [])
    ensures d.Object? && d.rules.Some? ==>
      |r.rules| == |d.rules.value| && forall i :: 0 <= i < |r.rules| ==> r.rules[i] == CloneRule(d.rules.value[i])
    ensures (d.Missing? || d.rules.None?) ==> r.rules == []
    ensures r.checkpointLabel.None?
    ensures EditorShaped(r)
    ensures HasContent(d) <==> (r.slots != [] || r.rules != [])
  {
    match d
    case Missing => EmptyData
    case Object(slots, rules, _) =>
      var rs := rules.GetOr([]);
      SemesterData(slots.GetOr([]), seq(|rs|, i requires 0 <= i < |rs| => CloneRule(rs[i])), None)
  }

  /** What the editor saves it loads back unchanged: copying the saved body
      of an editor-shaped buffer gives that buffer. */
  lemma CloneOfSaved(d: SemesterData)
    requires EditorShaped(d)
    ensures DeepClone(ToStored(d)) == d
  {
    var c := DeepClone(ToStored(d));
    forall i | 0 <= i < |d.rules| ensures c.rules[i] == d.rules[i] {
      assert d.rules[i] in d.rules;
    }
  }

  // ---------------------------------------------------------------------
  // Edit operations

  /** Count of slots whose tag is `tag` (`slots.filter(x => x.tag === tag).length`). */
  function TagCount(slots: seq<Slot>, tag: string): nat {
    |Seqs.KeepWhere(slots, (x: Slot) => x.tag == Some(tag))|
  }

  function NewRequiredSlot(id: string): Slot {
    Slot(id, "", Required, Some(""), Some(DefaultMinGrade), None, Some(0), None)
  }

  /** Appends a blank required slot with the default grade "D" and priority 0. */
  function AddRequired(d: SemesterData, id: string): (r: SemesterData)
    ensures |r.slots| == |d.slots| + 1 && r.slots[..|d.slots|] == d.slots
    ensures var s := r.slots[|d.slots|];
      s.id == id && s.kind == Required && s.title == "" && s.courseName == Some("")
      && s.minGrade == Some("D") && s.priority == Some(0) && s.allowedCourses.None? && s.tag.None?
    ensures r.rules == d.rules && r.checkpointLabel == d.checkpointLabel
  {
    d.(slots := d.slots + [NewRequiredSlot(id)])
  }

  /** The title of the next elective with `tag`: the tag, " #", and one more
      than the number of slots already carrying that tag. */
  function ElectiveTitle(slots: seq<Slot>, tag: string): string {
    tag + " #" + Text.NatToString(TagCount(slots, tag) + 1)
  }

  /** Appends an elective slot for `tag` with the given priority, an empty
      course list and the default grade, numbered after the slots that
      already carry the tag. */
  function AddElective(d: SemesterData, id: string, tag: string, priority: int): (r: SemesterData)
    ensures |r.slots| == |d.slots| + 1 && r.slots[..|d.slots|] == d.slots
    ensures var s := r.slots[|d.slots|];
      s.id == id && s.kind == Elective && s.title == ElectiveTitle(d.slots, tag)
      && s.allowedCourses == Some([]) && s.minGrade == Some("D") && s.tag == Some(tag)
      && s.priority == Some(priority) && s.courseName.None?
    ensures r.rules == d.rules && r.checkpointLabel == d.checkpointLabel
  {
    var s := Slot(id, ElectiveTitle(d.slots, tag), Elective, None, Some(DefaultMinGrade), Some([]), Some(priority), Some(tag));
    d.(slots := d.slots + [s])
  }

  /** Each new elective raises the count of its own tag by one and leaves the
      other tags' counts alone, so electives of one tag are numbered
      #1, #2, #3, ... in the order they are added. */
  lemma {:induction false} ElectiveNumbering(d: SemesterData, id: string, tag: string, priority: int, other: string)
    requires other != tag
    ensures TagCount(AddElective(d, id, tag, priority).slots, tag) == TagCount(d.slots, tag) + 1
    ensures TagCount(AddElective(d, id, tag, priority).slots, other) == TagCount(d.slots, other)
  {
    var r := AddElective(d, id, tag, priority);
    var s := r.slots[|d.slots|];
    assert r.slots == d.slots + [s];
    Seqs.KeepWhereAppend(d.slots, [s], (x: Slot) => x.tag == Some(tag));
    Seqs.KeepWhereAppend(d.slots, [s], (x: Slot) => x.tag == Some(other));
    assert Seqs.KeepWhere([s], (x: Slot) => x.tag == Some(tag)) == [s];
    assert Seqs.KeepWhere([s], (x: Slot) => x.tag == Some(other)) == [];
  }

  /** Drops every slot whose id is `id`; the others stay, in order. */
  function RemoveSlot(d: SemesterData, id: string): (r: SemesterData)
    ensures forall s :: s in r.slots <==> s in d.slots && s.id != id
    ensures forall s :: multiset(r.slots)[s] == if s.id != id then multiset(d.slots)[s] else 0
    ensures Seqs.IsSubsequence(r.slots, d.slots)
    ensures |r.slots| + |Seqs.KeepWhere(d.slots, (s: Slot) => s.id == id)| == |d.slots|
    ensures (forall s :: s in d.slots ==> s.id != id) ==> r == d
    ensures r.rules == d.rules && r.checkpointLabel == d.checkpointLabel
  {
    Seqs.KeepWherePartition(d.slots, (s: Slot) => s.id == id, (s: Slot) => s.id != id);
    d.(slots := Seqs.KeepWhere(d.slots, (s: Slot) => s.id != id))
  }

  /** A partial slot (`Partial<Slot>`): `None` leaves the field as it is. */
  datatype SlotPatch = SlotPatch(
    id: Option<string>,
    title: Option<string>,
    kind: Option<SlotKind>,
    courseName: Option<string>,
    minGrade: Option<Grade>,
    allowedCourses: Option<seq<string>>,
    priority: Option<int>,
    tag: Option<string>)

  /** `{ ...s, ...p }`: every field the patch carries replaces the slot's. */
  function MergeSlot(s: Slot, p: SlotPatch): (r: Slot)
    ensures r.id == p.id.GetOr(s.id) && r.title == p.title.GetOr(s.title) && r.kind == p.kind.GetOr(s.kind)
    ensures r.courseName == (if p.courseName.Some? then p.courseName else s.courseName)
    ensures r.minGrade == (if p.minGrade.Some? then p.minGrade else s.minGrade)
    ensures r.allowedCourses == (if p.allowedCourses.Some? then p.allowedCourses else s.allowedCourses)
    ensures r.priority == (if p.priority.Some? then p.priority else s.priority)
    ensures r.tag == (if p.tag.Some? then p.tag else s.tag)
  {
    Slot(p.id.GetOr(s.id), p.title.GetOr(s.title), p.kind.GetOr(s.kind),
         if p.courseName.Some? then p.courseName else s.courseName,
         if p.minGrade.Some? then p.minGrade else s.minGrade,
         if p.allowedCourses.Some? then p.allowedCourses else s.allowedCourses,
         if p.priority.Some? then p.priority else s.priority,
         if p.tag.Some? then p.tag else s.tag)
  }

  /** Merges the patch into the slots whose id is `id` and into no other;
      the list keeps its length and order, and an unknown id changes nothing. */
  function UpdateSlot(d: SemesterData, id: string, p: SlotPatch): (r: SemesterData)
    ensures |r.slots| == |d.slots|
    ensures forall i :: 0 <= i < |d.slots| && d.slots[i].id != id ==> r.slots[i] == d.slots[i]
    ensures forall i :: 0 <= i < |d.slots| && d.slots[i].id == id ==> r.slots[i] == MergeSlot(d.slots[i], p)
    ensures (forall s :: s in d.slots ==> s.id != id) ==> r == d
    ensures r.rules == d.rules && r.checkpointLabel == d.checkpointLabel
  {
    var slots := seq(|d.slots|, i requires 0 <= i < |d.slots| => if d.slots[i].id == id then MergeSlot(d.slots[i], p) else d.slots[i]);
    assert (forall s :: s in d.slots ==> s.id != id) ==> slots == d.slots by {
      if forall s :: s in d.slots ==> s.id != id {
        forall i | 0 <= i < |d.slots| ensures slots[i] == d.slots[i] {
          assert d.slots[i] in d.slots;
        }
      }
    }
    d.(slots := slots)
  }

  /** Appends a rule with an empty name and empty `when` and `then`. */
  function AddRule(d: SemesterData, id: string): (r: SemesterData)
    ensures |r.rules| == |d.rules| + 1 && r.rules[..|d.rules|] == d.rules
    ensures var n := r.rules[|d.rules|];
      n.id == id && n.name == "" && n.whenClause == Some(EmptyCondition) && n.thenClause == Some(EmptyEffect)
    ensures r.slots == d.slots && r.checkpointLabel == d.checkpointLabel
  {
    d.(rules := d.rules + [Rule(id, "", Some(EmptyCondition), Some(EmptyEffect))])
  }

  /** Drops every rule whose id is `id`; the others stay, in order. */
  function RemoveRule(d: SemesterData, id: string): (r: SemesterData)
    ensures forall x :: x in r.rules <==> x in d.rules && x.id != id
    ensures forall x :: multiset(r.rules)[x] == if x.id != id then multiset(d.rules)[x] else 0
    ensures Seqs.IsSubsequence(r.rules, d.rules)
    ensures |r.rules| + |Seqs.KeepWhere(d.rules, (x: Rule) => x.id == id)| == |d.rules|
    ensures (forall x :: x in d.rules ==> x.id != id) ==> r == d
    ensures r.slots == d.slots && r.checkpointLabel == d.checkpointLabel
  {
    Seqs.KeepWherePartition(d.rules, (x: Rule) => x.id == id, (x: Rule) => x.id != id);
    d.(rules := Seqs.KeepWhere(d.rules, (x: Rule) => x.id != id))
  }

  /** A partial rule (`Partial<Rule>`). */
  datatype RulePatch = RulePatch(id: Option<string>, name: Option<string>, whenClause: Option<Condition>, thenClause: Option<Effect>)

  /** `{ ...r, ...p }` for rules. */
  function MergeRule(r: Rule, p: RulePatch): (m: Rule)
    ensures m.id == p.id.GetOr(r.id) && m.name == p.name.GetOr(r.name)
    ensures m.whenClause == (if p.whenClause.Some? then p.whenClause else r.whenClause)
    ensures m.thenClause == (if p.thenClause.Some? then p.thenClause else r.thenClause)
  {
    Rule(p.id.GetOr(r.id), p.name.GetOr(r.name),
         if p.whenClause.Some? then p.whenClause else r.whenClause,
         if p.thenClause.Some? then p.thenClause else r.thenClause)
  }

  /** Merges the patch into the rules whose id is `id` and into no other. */
  function UpdateRule(d: SemesterData, id: string, p: RulePatch): (r: SemesterData)
    ensures |r.rules| == |d.rules|
    ensures forall i :: 0 <= i < |d.rules| && d.rules[i].id != id ==> r.rules[i] == d.rules[i]
    ensures forall i :: 0 <= i < |d.rules| && d.rules[i].id == id ==> r.rules[i] == MergeRule(d.rules[i], p)
    ensures (forall x :: x in d.rules ==> x.id != id) ==> r == d
    ensures r.slots == d.slots && r.checkpointLabel == d.checkpointLabel
  {
    var rules := seq(|d.rules|, i requires 0 <= i < |d.rules| => if d.rules[i].id == id then MergeRule(d.rules[i], p) else d.rules[i]);
    assert (forall x :: x in d.rules ==> x.id != id) ==> rules == d.rules by {
      if forall x :: x in d.rules ==> x.id != id {
        forall i | 0 <= i < |d.rules| ensures rules[i] == d.rules[i] {
          assert d.rules[i] in d.rules;
        }
      }
    }
    d.(rules := rules)
  }

  // ---------------------------------------------------------------------
  // Comma-list inputs of a rule

  /** The four comma-list inputs of a rule row. */
  datatype ListField = AnyPassed | AllPassed | WaiveSlotsByTitle | WaiveCourses

  /** The patch a rule's comma-list input sends for typed `text`: the named
      list becomes the entries of `text`, the other lists of the same clause
      keep the rule's values (`{ ...(r.when || {}), anyPassed: ... }`), and
      the other clause is not part of the patch. */
  function RuleListPatch(r: Rule, field: ListField, text: string): (p: RulePatch)
    ensures p.id.None? && p.name.None?
    ensures var w := r.whenClause.GetOr(EmptyCondition);
      match field
      case AnyPassed => p.thenClause.None? && p.whenClause == Some(Condition(Some(Text.SplitCommaList(text)), w.allPassed))
      case AllPassed => p.thenClause.None? && p.whenClause == Some(Condition(w.anyPassed, Some(Text.SplitCommaList(text))))
      case _ => p.whenClause.None?
    ensures var t := r.thenClause.GetOr(EmptyEffect);
      match field
      case WaiveSlotsByTitle => p.thenClause == Some(Effect(t.addSlots, Some(Text.SplitCommaList(text)), t.waiveCourses))
      case WaiveCourses => p.thenClause == Some(Effect(t.addSlots, t.waiveSlotsByTitle, Some(Text.SplitCommaList(text))))
      case _ => p.thenClause.None?
  {
    var entries := Text.SplitCommaList(text);
    var w := r.whenClause.GetOr(EmptyCondition);
    var t := r.thenClause.GetOr(EmptyEffect);
    match field
    case AnyPassed => RulePatch(None, None, Some(w.(anyPassed := Some(entries))), None)
    case AllPassed => RulePatch(None, None, Some(w.(allPassed := Some(entries))), None)
    case WaiveSlotsByTitle => RulePatch(None, None, None, Some(t.(waiveSlotsByTitle := Some(entries))))
    case WaiveCourses => RulePatch(None, None, None, Some(t.(waiveCourses := Some(entries))))
  }

  /** The patch the allowed-courses input of a slot sends for typed `text`. */
  function AllowedCoursesPatch(text: string): (p: SlotPatch)
    ensures p.allowedCourses == Some(Text.SplitCommaList(text))
    ensures p.allowedCourses.value == [] || forall c :: c in p.allowedCourses.value ==> c != "" && Text.IsTrimmed(c)
    ensures p.id.None? && p.title.None? && p.kind.None? && p.courseName.None?
    ensures p.minGrade.None? && p.priority.None? && p.tag.None?
  {
    SlotPatch(None, None, None, None, None, Some(Text.SplitCommaList(text)), None, None)
  }

  // ---------------------------------------------------------------------
  // The buffer under a sequence of edits

  /** One user action on the buffer; the ids of added entries come from the
      id generator. */
  datatype Edit =
    | AddRequiredSlot(newId: string)
    | AddElectiveSlot(newId: string, tag: string, priority: int)
    | RemoveSlotById(id: string)
    | UpdateSlotById(id: string, slotPatch: SlotPatch)
    | AddRuleEntry(newId: string)
    | RemoveRuleById(id: string)
    | UpdateRuleById(id: string, rulePatch: RulePatch)

  function Apply(d: SemesterData, e: Edit): SemesterData {
    match e
    case AddRequiredSlot(i) => AddRequired(d, i)
    case AddElectiveSlot(i, tag, priority) => AddElective(d, i, tag, priority)
    case RemoveSlotById(i) => RemoveSlot(d, i)
    case UpdateSlotById(i, p) => UpdateSlot(d, i, p)
    case AddRuleEntry(i) => AddRule(d, i)
    case RemoveRuleById(i) => RemoveRule(d, i)
    case UpdateRuleById(i, p) => UpdateRule(d, i, p)
  }

  /** No two slots and no two rules share an id. */
  ghost predicate UniqueIds(d: SemesterData) {
    Seqs.DistinctBy(d.slots, (s: Slot) => s.id) && Seqs.DistinctBy(d.rules, (r: Rule) => r.id)
  }

  /** What the editor's own actions satisfy: a new entry gets an id no slot or
      rule of the buffer has (the generator's promise), and the inputs never
      patch an id or a rule's `when`/`then` to something absent. */
  ghost predicate Admissible(d: SemesterData, e: Edit) {
    match e
    case AddRequiredSlot(i) => forall s :: s in d.slots ==> s.id != i
    case AddElectiveSlot(i, _, _) => forall s :: s in d.slots ==> s.id != i
    case AddRuleEntry(i) => forall r :: r in d.rules ==> r.id != i
    case UpdateSlotById(_, p) => p.id.None?
    case UpdateRuleById(_, p) => p.id.None?
    case _ => true
  }

  /** Every edit keeps the buffer editor-shaped: no label, and every rule
      with a `when` and a `then`. */
  lemma {:induction false} EditPreservesShape(d: SemesterData, e: Edit)
    requires EditorShaped(d)
    ensures EditorShaped(Apply(d, e))
  {
    var r := Apply(d, e);
    match e
    case AddRuleEntry(i) =>
      forall x | x in r.rules ensures x.whenClause.Some? && x.thenClause.Some? {
        var k :| 0 <= k < |r.rules| && r.rules[k] == x;
        if k < |d.rules| {
          assert d.rules[k] in d.rules;
        }
      }
    case UpdateRuleById(i, p) =>
      forall x | x in r.rules ensures x.whenClause.Some? && x.thenClause.Some? {
        var k :| 0 <= k < |r.rules| && r.rules[k] == x;
        assert d.rules[k] in d.rules;
      }
    case _ =>
  }

  /** Every admissible edit keeps the ids unique and the buffer editor-shaped,
      so that what is saved is loaded back unchanged (`CloneOfSaved`). */
  lemma {:induction false} EditPreservesInvariants(d: SemesterData, e: Edit)
    requires UniqueIds(d) && EditorShaped(d) && Admissible(d, e)
    ensures UniqueIds(Apply(d, e)) && EditorShaped(Apply(d, e))
  {
    EditPreservesShape(d, e);
    var r := Apply(d, e);
    match e
    case AddRequiredSlot(i) =>
      AppendedSlotKeepsUnique(d.slots, r.slots);
    case AddElectiveSlot(i, _, _) =>
      AppendedSlotKeepsUnique(d.slots, r.slots);
    case RemoveSlotById(i) =>
      Seqs.KeepWhereDistinctBy(d.slots, (s: Slot) => s.id != i, (s: Slot) => s.id);
    case UpdateSlotById(i, p) =>
      forall a, b | 0 <= a < b < |r.slots| ensures r.slots[a].id != r.slots[b].id {
        assert r.slots[a].id == d.slots[a].id && r.slots[b].id == d.slots[b].id;
      }
    case AddRuleEntry(i) =>
      forall a, b | 0 <= a < b < |r.rules| ensures r.rules[a].id != r.rules[b].id {
        if b == |d.rules| {
          assert d.rules[a] in d.rules;
        } else {
          assert r.rules[a] == d.rules[a] && r.rules[b] == d.rules[b];
        }
      }
    case RemoveRuleById(i) =>
      Seqs.KeepWhereDistinctBy(d.rules, (x: Rule) => x.id != i, (x: Rule) => x.id);
    case UpdateRuleById(i, p) =>
      forall a, b | 0 <= a < b < |r.rules| ensures r.rules[a].id != r.rules[b].id {
        assert r.rules[a].id == d.rules[a].id && r.rules[b].id == d.rules[b].id;
      }
  }

  lemma AppendedSlotKeepsUnique(old_: seq<Slot>, new_: seq<Slot>)
    requires |new_| == |old_| + 1 && new_[..|old_|] == old_
    requires Seqs.DistinctBy(old_, (s: Slot) => s.id)
    requires forall s :: s in old_ ==> s.id != new_[|old_|].id
    ensures Seqs.DistinctBy(new_, (s: Slot) => s.id)
  {
    forall a, b | 0 <= a < b < |new_| ensures new_[a].id != new_[b].id {
      assert new_[a] == old_[a];
      if b < |old_| {
        assert new_[b] == old_[b];
      } else {
        assert old_[a] in old_;
      }
    }
  }

  /** A sequence of edits applied in turn. */
  function ApplyAll(d: SemesterData, es: seq<Edit>): SemesterData
    decreases |es|
  {
    if es == [] then d else ApplyAll(Apply(d, es[0]), es[1..])
  }

  /** Each edit is admissible for the buffer it is applied to. */
  ghost predicate AllAdmissible(d: SemesterData, es: seq<Edit>)
    decreases |es|
  {
    es == [] || (Admissible(d, es[0]) && AllAdmissible(Apply(d, es[0]), es[1..]))
  }

  /** Any session of admissible edits keeps the invariants of a buffer. */
  lemma {:induction false} EditsPreserveInvariants(d: SemesterData, es: seq<Edit>)
    requires UniqueIds(d) && EditorShaped(d) && AllAdmissible(d, es)
    ensures UniqueIds(ApplyAll(d, es)) && EditorShaped(ApplyAll(d, es))
    decreases |es|
  {
    if es != [] {
      EditPreservesInvariants(d, es[0]);
      EditsPreserveInvariants(Apply(d, es[0]), es[1..]);
    }
  }
}
