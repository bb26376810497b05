/** The spreadsheet upload: rows of a student-course sheet folded into one
    record per student. Reading the workbook is not modelled; the rows come
    in as values whose cells are already read. */
module ExcelUpload {
  import opened Wrappers
  import opened Types
  import Text

  /** A text cell: `None` for an empty cell and for any other falsy value. */
  type Cell = Option<string>

  /** A credit cell after numeric reading: a number, or something that is
      not one. */
  datatype Credit = Number(value: real) | NotANumber

  datatype Row = Row(
    applicationNo: Cell,
    name: Cell,
    program: Cell,
    course: Cell,
    category: Cell,
    subCategory: Cell,
    courseCredits: Credit,
    earnedCredits: Credit,
    grade: Cell)

  /** A cell's trimmed text; "" for an empty cell. */
  function CellText(c: Cell): (t: string)
    ensures Text.IsTrimmed(t)
    ensures c.None? ==> t == ""
  {
    if c.Some? then Text.Trim(c.value) else ""
  }

  /** A credit that is not a number counts as 0. */
  function CreditValue(c: Credit): (v: real)
    ensures c.Number? ==> v == c.value
    ensures c.NotANumber? ==> v == 0.0
  {
    match c
    case Number(x) => x
    case NotANumber => 0.0
  }

  /** A row as the loop reads it: every text cell trimmed, missing texts
      "", credits that are not numbers 0. */
  datatype Fields = Fields(appNo: string, name: string, program: string, entry: CourseEntry)

  function Read(r: Row): (f: Fields)
    ensures f.appNo == CellText(r.applicationNo) && f.name == CellText(r.name) && f.program == CellText(r.program)
    ensures f.entry.code == CellText(r.course) && f.entry.grade == CellText(r.grade)
    ensures f.entry.category == CellText(r.category) && f.entry.subCategory == CellText(r.subCategory)
    ensures f.entry.credits == CreditValue(r.courseCredits) && f.entry.earnedCredits == CreditValue(r.earnedCredits)
  {
    Fields(CellText(r.applicationNo), CellText(r.name), CellText(r.program),
           CourseEntry(CellText(r.course), CellText(r.category), CellText(r.subCategory),
                       CreditValue(r.courseCredits), CreditValue(r.earnedCredits), CellText(r.grade)))
  }

  function ReadAll(rows: seq<Row>): seq<Fields>
  {
    seq(|rows|, i requires 0 <= i < |rows| => Read(rows[i]))
  }

  /** A row counts only with an application number and a course code. */
  predicate Accepted(f: Fields) {
    f.appNo != "" && f.entry.code != ""
  }

  /** The members every plain object inherits from `Object.prototype`. The
      records are kept in a plain object, so looking one of these names up
      finds the inherited member, which is truthy: no record is created for
      it, and appending to its (missing) course list throws. */
  const InheritedNames: seq<string> := [
    "constructor", "__proto__", "toString", "toLocaleString", "valueOf", "hasOwnProperty",
    "isPrototypeOf", "propertyIsEnumerable", "__defineGetter__", "__defineSetter__",
    "__lookupGetter__", "__lookupSetter__"]

  /** Whether `k` is one of `names`. */
  predicate Listed(k: string, names: seq<string>)
    decreases |names|
  {
    names != [] && (names[0] == k || Listed(k, names[1..]))
  }

  /** An accepted row whose application number is an inherited name: the
      loop throws on it. */
  predicate Collides(f: Fields) {
    Accepted(f) && Listed(f.appNo, InheritedNames)
  }

  /** No row of `fs` makes the loop throw. */
  predicate NoneCollide(fs: seq<Fields>) {
    forall j :: 0 <= j < |fs| ==> !Collides(fs[j])
  }

  /** A prefix free of collisions stays so with one more harmless row. */
  lemma NoneCollideSnoc(fs: seq<Fields>, i: nat)
    requires i < |fs| && NoneCollide(fs[..i]) && !Collides(fs[i])
    ensures NoneCollide(fs[..i + 1])
  {
    assert forall j :: 0 <= j < i ==> fs[..i + 1][j] == fs[..i][j];
  }

  // ---------------------------------------------------------------------
  // The fold the loop computes

  /** One row folded into the records: skipped unless accepted; a new
      application number gets a record with the row's name and program; the
      row's entry goes at the end of its student's courses. */
  function Step(m: map<string, StudentRecord>, f: Fields): map<string, StudentRecord> {
    if !Accepted(f) then m
    else
      var s := if f.appNo in m then m[f.appNo] else StudentRecord(f.appNo, f.name, f.program, []);
      m[f.appNo := s.(courses := s.courses + [f.entry])]
  }

  /** The records after folding all of `fs`, in order. */
  function Grouped(fs: seq<Fields>): map<string, StudentRecord>
    decreases |fs|
  {
    if fs == [] then map[] else Step(Grouped(fs[..|fs| - 1]), fs[|fs| - 1])
  }

  /** The records built from the sheet's rows: one per accepted application
      number, carrying that number, the name and program of its first
      accepted row, and its rows' course entries in row order. The loop
      throws (`None`) exactly when some accepted row's application number is
      an inherited name. */
  method GroupRows(rows: seq<Row>) returns (students: Option<map<string, StudentRecord>>)
    ensures students.None? <==> exists i :: 0 <= i < |rows| && Collides(ReadAll(rows)[i])
    ensures students.Some? ==> students.value == Grouped(ReadAll(rows))
    ensures students.Some? ==> forall k :: k in students.value <==> Mentions(ReadAll(rows), k)
    ensures students.Some? ==> forall k :: k in students.value ==>
      students.value[k].applicationNo == k && students.value[k].courses == CoursesOf(ReadAll(rows), k)
    ensures students.Some? ==> forall i :: 0 <= i < |rows| && FirstOf(ReadAll(rows), i) ==>
      var f := Read(rows[i]);
      f.appNo in students.value && students.value[f.appNo].name == f.name && students.value[f.appNo].program == f.program
  {
    ghost var fs := ReadAll(rows);
    var m: map<string, StudentRecord> := map[];
    var i := 0;
    assert fs[..0] == [];
    while i < |rows|
      invariant 0 <= i <= |rows|
      invariant m == Grouped(fs[..i])
      invariant NoneCollide(fs[..i])
    {
      var f := Read(rows[i]);
      assert fs[i] == f;
      if Collides(f) {
        return None;
      }
      NoneCollideSnoc(fs, i);
      GroupedSnoc(fs, i);
      m := AddRow(m, f);
      i := i + 1;
    }
    assert fs[..i] == fs;
    assert NoneCollide(fs);
    GroupedMeaning(fs);
    students := Some(m);
  }

  /** One pass of the loop body for a row that does not throw: an accepted
      row opens its student's record if needed and appends its entry. */
  method AddRow(m: map<string, StudentRecord>, f: Fields) returns (m': map<string, StudentRecord>)
    ensures m' == Step(m, f)
    ensures Accepted(f) ==> f.appNo in m' && |m'[f.appNo].courses| == |(if f.appNo in m then m[f.appNo].courses else [])| + 1
    ensures !Accepted(f) ==> m' == m
  {
    m' := m;
    if f.appNo != "" && f.entry.code != "" {
      if f.appNo !in m' {
        m' := m'[f.appNo := StudentRecord(f.appNo, f.name, f.program, [])];
      }
      var s := m'[f.appNo];
      m' := m'[f.appNo := s.(courses := s.courses + [f.entry])];
      if f.appNo !in m {
        Overwrite(m, f.appNo, StudentRecord(f.appNo, f.name, f.program, []), s.(courses := s.courses + [f.entry]));
      }
    }
  }

  /** A second write to a key hides the first. */
  lemma Overwrite(m: map<string, StudentRecord>, k: string, a: StudentRecord, b: StudentRecord)
    ensures m[k := a][k := b] == m[k := b]
  {
  }

  /** The fold over one more row is one more step. */
  lemma GroupedSnoc(fs: seq<Fields>, i: nat)
    requires i < |fs|
    ensures Grouped(fs[..i + 1]) == Step(Grouped(fs[..i]), fs[i])
  {
    assert fs[..i + 1][..i] == fs[..i];
  }

  // ---------------------------------------------------------------------
  // What the fold means, stated without it

  /** Some accepted row carries application number `k`. */
  ghost predicate Mentions(fs: seq<Fields>, k: string) {
    exists i :: 0 <= i < |fs| && Accepted(fs[i]) && fs[i].appNo == k
  }

  /** Row `i` is the first accepted row of its application number. */
  ghost predicate FirstOf(fs: seq<Fields>, i: int)
    requires 0 <= i < |fs|
  {
    Accepted(fs[i]) && forall j :: 0 <= j < i ==> !(Accepted(fs[j]) && fs[j].appNo == fs[i].appNo)
  }

  /** The accepted rows of application number `k`, in row order. */
  function RowsOf(fs: seq<Fields>, k: string): (rs: seq<Fields>)
    ensures forall f :: f in rs <==> f in fs && Accepted(f) && f.appNo == k
    decreases |fs|
  {
    if fs == [] then []
    else
      var last := fs[|fs| - 1];
      assert fs == fs[..|fs| - 1] + [last];
      RowsOf(fs[..|fs| - 1], k) + (if Accepted(last) && last.appNo == k then [last] else [])
  }

  /** The course entries of the given rows, in the same order. */
  function Entries(rs: seq<Fields>): seq<CourseEntry>
  {
    seq(|rs|, i requires 0 <= i < |rs| => rs[i].entry)
  }

  /** Student `k`'s course entries: one per accepted row of `k`, in row order. */
  function CoursesOf(fs: seq<Fields>, k: string): seq<CourseEntry> {
    Entries(RowsOf(fs, k))
  }

  /** There is a record exactly for each accepted application number, and
      it carries that number. */
  lemma {:induction false} GroupedKeys(fs: seq<Fields>)
    ensures forall k :: k in Grouped(fs) <==> Mentions(fs, k)
    ensures forall k :: k in Grouped(fs) ==> Grouped(fs)[k].applicationNo == k
    decreases |fs|
  {
    if fs != [] {
      var init := fs[..|fs| - 1];
      var last := fs[|fs| - 1];
      GroupedKeys(init);
      forall k ensures Mentions(fs, k) <==> Mentions(init, k) || (Accepted(last) && last.appNo == k) {
        if Mentions(init, k) {
          var i :| 0 <= i < |init| && Accepted(init[i]) && init[i].appNo == k;
          assert fs[i] == init[i];
        }
        if Mentions(fs, k) && !(Accepted(last) && last.appNo == k) {
          var i :| 0 <= i < |fs| && Accepted(fs[i]) && fs[i].appNo == k;
          assert i != |fs| - 1;
          assert init[i] == fs[i];
        }
      }
    }
  }

  /** Each record's courses are the entries of its accepted rows, in order,
      and an application number without a record has no accepted rows:
      every accepted row adds exactly one entry, to its own student. */
  lemma {:induction false} GroupedCourses(fs: seq<Fields>, k: string)
    ensures CoursesOf(fs, k) == if k in Grouped(fs) then Grouped(fs)[k].courses else []
    decreases |fs|
  {
    if fs != [] {
      var init := fs[..|fs| - 1];
      var last := fs[|fs| - 1];
      GroupedCourses(init, k);
      var extra := if Accepted(last) && last.appNo == k then [last] else [];
      assert RowsOf(fs, k) == RowsOf(init, k) + extra;
      assert Entries(RowsOf(init, k) + extra) == Entries(RowsOf(init, k)) + Entries(extra);
    }
  }

  /** A record's name and program are those of its student's first
      accepted row; later rows do not change them. */
  lemma {:induction false} GroupedHeader(fs: seq<Fields>)
    ensures forall i :: 0 <= i < |fs| && FirstOf(fs, i) ==>
      fs[i].appNo in Grouped(fs)
      && Grouped(fs)[fs[i].appNo].name == fs[i].name
      && Grouped(fs)[fs[i].appNo].program == fs[i].program
    decreases |fs|
  {
    if fs != [] {
      var init := fs[..|fs| - 1];
      var last := fs[|fs| - 1];
      GroupedHeader(init);
      GroupedKeys(init);
      forall i | 0 <= i < |fs| && FirstOf(fs, i)
        ensures fs[i].appNo in Grouped(fs)
        ensures Grouped(fs)[fs[i].appNo].name == fs[i].name
        ensures Grouped(fs)[fs[i].appNo].program == fs[i].program
      {
        var k := fs[i].appNo;
        if i < |init| {
          assert init[i] == fs[i];
          assert FirstOf(init, i) by {
            forall j | 0 <= j < i ensures !(Accepted(init[j]) && init[j].appNo == k) {
              assert init[j] == fs[j];
            }
          }
        } else {
          assert !Mentions(init, k) by {
            forall j | 0 <= j < |init| ensures !(Accepted(init[j]) && init[j].appNo == k) {
              assert init[j] == fs[j];
            }
          }
        }
      }
    }
  }

  /** The three facts together, for the loop. */
  lemma GroupedMeaning(fs: seq<Fields>)
    ensures forall k :: k in Grouped(fs) <==> Mentions(fs, k)
    ensures forall k :: k in Grouped(fs) ==>
      Grouped(fs)[k].applicationNo == k && Grouped(fs)[k].courses == CoursesOf(fs, k)
    ensures forall i :: 0 <= i < |fs| && FirstOf(fs, i) ==>
      fs[i].appNo in Grouped(fs)
      && Grouped(fs)[fs[i].appNo].name == fs[i].name
      && Grouped(fs)[fs[i].appNo].program == fs[i].program
  {
    GroupedKeys(fs);
    forall k | k in Grouped(fs) ensures Grouped(fs)[k].courses == CoursesOf(fs, k) {
      GroupedCourses(fs, k);
    }
    GroupedHeader(fs);
  }

  // ---------------------------------------------------------------------
  // Counting entries

  /** The number of accepted rows. */
  function AcceptedCount(fs: seq<Fields>): nat
    decreases |fs|
  {
    if fs == [] then 0
    else AcceptedCount(fs[..|fs| - 1]) + (if Accepted(fs[|fs| - 1]) then 1 else 0)
  }

  /** The application numbers in order of first appearance. */
  function KeyOrder(fs: seq<Fields>): (ks: seq<string>)
    decreases |fs|
  {
    if fs == [] then []
    else
      var ks := KeyOrder(fs[..|fs| - 1]);
      var last := fs[|fs| - 1];
      if Accepted(last) && last.appNo !in ks then ks + [last.appNo] else ks
  }

  /** The total number of course entries of the records named in `ks`. */
  function TotalCourses(m: map<string, StudentRecord>, ks: seq<string>): nat
    decreases |ks|
  {
    if ks == [] then 0
    else
      var k := ks[|ks| - 1];
      TotalCourses(m, ks[..|ks| - 1]) + (if k in m then |m[k].courses| else 0)
  }

  ghost predicate Distinct(ks: seq<string>) {
    forall i, j :: 0 <= i < j < |ks| ==> ks[i] != ks[j]
  }

  /** Changing a record not named in `ks` leaves their total alone. */
  lemma {:induction false} TotalIgnoresOthers(m: map<string, StudentRecord>, ks: seq<string>, k: string, s: StudentRecord)
    requires k !in ks
    ensures TotalCourses(m[k := s], ks) == TotalCourses(m, ks)
    decreases |ks|
  {
    if ks != [] {
      assert ks[..|ks| - 1] + [ks[|ks| - 1]] == ks;
      TotalIgnoresOthers(m, ks[..|ks| - 1], k, s);
    }
  }

  /** One more course for a record named once in `ks` raises their total by one. */
  lemma {:induction false} TotalOneMore(m: map<string, StudentRecord>, ks: seq<string>, k: string, s: StudentRecord)
    requires Distinct(ks) && k in ks && k in m && |s.courses| == |m[k].courses| + 1
    ensures TotalCourses(m[k := s], ks) == TotalCourses(m, ks) + 1
    decreases |ks|
  {
    var init := ks[..|ks| - 1];
    var last := ks[|ks| - 1];
    assert init + [last] == ks;
    if last == k {
      assert k !in init;
      TotalIgnoresOthers(m, init, k, s);
    } else {
      assert k in init;
      TotalOneMore(m, init, k, s);
    }
  }

  /** The key order names each record exactly once. */
  lemma {:induction false} KeyOrderCovers(fs: seq<Fields>)
    ensures Distinct(KeyOrder(fs))
    ensures forall k :: k in KeyOrder(fs) <==> k in Grouped(fs)
    decreases |fs|
  {
    if fs != [] {
      KeyOrderCovers(fs[..|fs| - 1]);
    }
  }

  /** Every accepted row yields exactly one course entry, so the records
      hold as many entries as there are accepted rows. */
  lemma {:induction false} EntriesMatchRows(fs: seq<Fields>)
    ensures TotalCourses(Grouped(fs), KeyOrder(fs)) == AcceptedCount(fs)
    decreases |fs|
  {
    if fs != [] {
      var init := fs[..|fs| - 1];
      var last := fs[|fs| - 1];
      var m := Grouped(init);
      var ks := KeyOrder(init);
      EntriesMatchRows(init);
      KeyOrderCovers(init);
      if Accepted(last) {
        var k := last.appNo;
        var s := if k in m then m[k] else StudentRecord(k, last.name, last.program, []);
        var s' := s.(courses := s.courses + [last.entry]);
        if k in ks {
          TotalOneMore(m, ks, k, s');
        } else {
          TotalIgnoresOthers(m, ks, k, s');
          assert (ks + [k])[..|ks|] == ks;
        }
      }
    }
  }

  // ---------------------------------------------------------------------
  // The upload handler

  /** What the file input yields: no file chosen, a file that cannot be read
      as a workbook, or the first sheet's rows. */
  datatype Upload = NoFile | Unreadable | Sheet(rows: seq<Row>)

  /** The records handed to the page, if any: nothing without a file, when
      reading fails, or when the loop throws (each failure is swallowed);
      otherwise the grouped rows. */
  method HandleFileChange(u: Upload) returns (parsed: Option<map<string, StudentRecord>>)
    ensures parsed.Some? <==> u.Sheet? && !exists i :: 0 <= i < |u.rows| && Collides(ReadAll(u.rows)[i])
    ensures parsed.Some? ==> parsed.value == Grouped(ReadAll(u.rows))
  {
    match u
    case NoFile =>
      parsed := None;
    case Unreadable =>
      parsed := None;
    case Sheet(rows) =>
      parsed := GroupRows(rows);
  }
}
