# Degree-audit web client: criteria editor, spreadsheet upload and audit page

This project is a Dafny model of the client side of a degree-audit web application. Staff use it to do four things:

- **Author graduation criteria.** Criteria are stored per (year group, program, semester) key as slots and rules.
- **Upload a spreadsheet.** The sheet holds student course lines.
- **Send the students for audit.** The results come back per student.
- **Edit criteria on an older page.** This is a second, simpler criteria manager.

The model covers the following parts of the client.

- **Records** (`Types`). Grades, slots, rules, the criteria of one semester, student records and audit outcomes. The stored form of the criteria (`StoredData`) carries `None` for a field that is absent or is not an array.
- **Pure helpers of the program-criteria editor** (`Criteria`):
  - the semester order and the previous semester;
  - the deep copy of fetched criteria and the content test;
  - the two slot constructors with elective numbering;
  - removing, updating and adding slots and rules by id, with the patch semantics of object spread;
  - the comma-list inputs.

  Lemmas show that every edit keeps the buffer in the shape the editor builds and keeps ids unique. A saved buffer is copied back unchanged.
- **The editor's loader as a specification** (`Cascade`). The loader tries these keys in order:
  1. the target key;
  2. the program the user switched away from;
  3. the previous semester;
  4. the previous year group, never below 2025.

  `Resolve` says, for a given store, which keys are fetched, in which order, and what the buffer and message end up as. Lemmas characterise each outcome:
  - the first lookup with content wins;
  - a failed fetch stops the load with an empty buffer;
  - everything empty gives "no criteria yet";
  - boundary cases: no earlier semester for Y1S1, and no year group below the minimum;
  - saving and then loading shows what was saved.
- **The editor page as a class** (`Editor`):
  - `CriteriaStore` stands in for the criteria endpoints, with a ghost log of fetched keys.
  - `ProgramCriteria` holds the selection, buffer, message, loading flag and previous-program hint.

  Its `Load` performs the fetches step by step and is proved to do exactly what `Cascade.Resolve` says. The effects on mount, the selectors, `Save` and the buffer edits are methods that keep the buffer editor-shaped.

  On first render the page's effects load the same selection three times: the token effect, the selection effect and the program effect. `Mount` states this: the plan's keys appear three times in the fetch log.
- **The spreadsheet upload** (`ExcelUpload`). The row loop groups course lines per application number. The method `GroupRows` is proved equal to a fold (`Grouped`). Lemmas then show:
  - there is one record per accepted application number;
  - each record's courses are its accepted rows' entries, in row order;
  - the name and program come from the first row;
  - the total number of course entries equals the number of accepted rows.

  The records live in a plain object, so an accepted application number that names a member every object inherits (`constructor`, `toString`, `__proto__`, ...) makes the loop throw; the upload then hands nothing over, and the model says so.
- **The audit page** (`Audit`):
  - the two semesters of each study year, and the clamp applied when the year changes;
  - the pass/fail summary;
  - the normalisation of the audit response, which both the request client and the page apply;
  - the page class with its handlers.
- **The older criteria manager** (`Manager`): its normalisation of loaded criteria, its slot constructors, its filter of the year-group listing, and the page class, whose selectors rerun the semester load as the page's effect does.

The application's route table registers `/criteria` twice, for the program-criteria editor and then for the criteria manager (`src/App.tsx:36-44`). The manager page is therefore probably never shown; it is modelled all the same.

Module layout, one file per module:
- `wrappers.dfy` (`Option`)
- `seqs.dfy` (filter)
- `text.dfy` (trim, split, join, numerals)
- `types.dfy`
- `criteria.dfy`
- `cascade.dfy`
- `editor.dfy`
- `excel.dfy`
- `audit.dfy`
- `manager.dfy`

## Model

| member | source | states |
|---|---|---|
| Text.Trim | src/pages/programCirteria.tsx:81-83 | the trimmed text has no leading or trailing white space, and it is the piece of the input after its leading white space whose remainder is white space only: only white space is dropped, and only at the ends |
| Text.TrimBlank | src/pages/programCirteria.tsx:81-83 | trimming leaves nothing exactly when the text is white space only, so `!program.trim()` is the blank-program test |
| Text.TrimIsPiece | src/pages/programCirteria.tsx:81 | the input is its leading white space, then the trimmed text, then trailing white space only |
| Text.TrimOfTrimmed | src/pages/programCirteria.tsx:210 | trimming an already trimmed text changes nothing |
| Text.SplitOn | src/pages/programCirteria.tsx:339 | splitting yields one more piece than there are separators, and no piece contains the separator |
| Text.SplitOnFirst | src/pages/programCirteria.tsx:339 | the first separator ends the first piece |
| Text.Join | src/pages/programCirteria.tsx:336 | joining no entries gives the empty text, and joining one entry gives that entry |
| Text.SplitJoined | src/pages/programCirteria.tsx:336-339 | splitting a `", "`-joined list on commas gives the first entry and then the others, each with a leading space |
| Text.SplitCommaList | src/pages/programCirteria.tsx:339 | the entries of a typed comma list are non-empty, comma-free and trimmed |
| Text.TrimJoinedPieces | src/pages/programCirteria.tsx:336-339 | trimming those pieces restores the trimmed entries |
| Text.JoinSplitRoundTrip | src/pages/programCirteria.tsx:336-339 | a list shown as `join(', ')` and typed back unchanged is the same list, for non-empty, comma-free, trimmed entries |
| Text.NatToString | src/pages/programCirteria.tsx:166 | the rendered count is a non-empty decimal numeral with no leading zero |
| Text.NatToStringRoundTrip | src/pages/programCirteria.tsx:163-166 | reading the numeral back gives the count, so distinct counts give distinct elective titles |
| Seqs.KeepWhere | src/pages/programCirteria.tsx:177 | the filter keeps exactly the elements that pass, in order, and everything when all pass |
| Seqs.KeepWhereAppend | src/pages/programCirteria.tsx:163 | filtering a concatenation filters each part |
| Seqs.KeepWherePartition | src/pages/AuditPage.tsx:47-52 | an element passes one of two complementary filters, so their sizes add up to the length |
| Seqs.KeepWhereDistinctBy | src/pages/programCirteria.tsx:177 | removing elements never creates a duplicate id |
| Criteria.Position | src/pages/programCirteria.tsx:8 | every semester sits at one position of the eight-code study order |
| Criteria.IndexOf | src/pages/programCirteria.tsx:40 | `indexOf` gives -1 exactly for an absent code, otherwise the first position holding it |
| Criteria.PrevSemester | src/pages/programCirteria.tsx:39-43 | there is no previous semester exactly for Y1S1; otherwise it is the one just before in study order |
| Criteria.PrevSemesterCode | src/pages/programCirteria.tsx:39-43 | a previous code exists exactly for a known code other than the first |
| Criteria.PrevSemesterCodeAgrees | src/pages/programCirteria.tsx:39-43 | on a known code, the text version gives the code of the previous semester |
| Criteria.CodeInjective | src/pages/programCirteria.tsx:8 | two semesters with the same code are the same semester |
| Criteria.CodesInOrder | src/pages/programCirteria.tsx:8 | the code list holds the semesters' codes in study order |
| Criteria.PositionAt | src/pages/programCirteria.tsx:8 | each semester appears once in the order |
| Criteria.ParseSemester | src/pages/programCirteria.tsx:63-66 | a text names a semester exactly when it is one of the eight codes, and then that semester has this code |
| Criteria.InitialSemester | src/pages/programCirteria.tsx:63-66 | the address's semester is taken when it is one of the eight codes, otherwise Y1S1 |
| Criteria.CloneRule | src/pages/programCirteria.tsx:30 | the copied rule keeps its id and name, and its absent `when`/`then` become empty objects |
| Criteria.DeepClone | src/pages/programCirteria.tsx:25-33 | nothing gives the empty buffer; array fields are carried over and others become empty; the label is dropped; the copy is editor-shaped and has content exactly when the fetched value has |
| Criteria.CloneOfSaved | src/pages/programCirteria.tsx:25-33 | copying the saved body of an editor-shaped buffer gives that buffer back |
| Criteria.AddRequired | src/pages/programCirteria.tsx:150-160 | one blank required slot with grade D and priority 0 is appended; nothing else changes |
| Criteria.AddElective | src/pages/programCirteria.tsx:162-174 | one elective is appended, titled from its tag and the count of that tag, with an empty course list, grade D, and the given tag and priority |
| Criteria.ElectiveNumbering | src/pages/programCirteria.tsx:162-166 | a new elective raises its own tag's count by one and leaves other tags' counts alone |
| Criteria.RemoveSlot | src/pages/programCirteria.tsx:176-178 | exactly the slots with the id go; the others stay; an unknown id changes nothing |
| Criteria.MergeSlot | src/pages/programCirteria.tsx:183 | every field the patch carries replaces the slot's, and the rest are kept |
| Criteria.UpdateSlot | src/pages/programCirteria.tsx:180-185 | the patch is merged into exactly the slots with the id; length and order are kept; an unknown id changes nothing |
| Criteria.AddRule | src/pages/programCirteria.tsx:187-190 | one rule with an empty name and empty `when`/`then` is appended |
| Criteria.RemoveRule | src/pages/programCirteria.tsx:192-194 | exactly the rules with the id go; the others stay |
| Criteria.MergeRule | src/pages/programCirteria.tsx:199 | the patch's id, name, `when` and `then` replace the rule's when present |
| Criteria.UpdateRule | src/pages/programCirteria.tsx:196-201 | the patch is merged into exactly the rules with the id; an unknown id changes nothing |
| Criteria.RuleListPatch | src/pages/programCirteria.tsx:377-420 | a rule's comma-list input sends its clause with the one list replaced by the typed entries and its other list kept |
| Criteria.AllowedCoursesPatch | src/pages/programCirteria.tsx:335-341 | the allowed-courses input sends only the typed entries as the course list |
| Criteria.EditPreservesShape | src/pages/programCirteria.tsx:150-201 | every edit keeps the buffer editor-shaped |
| Criteria.AppendedSlotKeepsUnique | src/pages/programCirteria.tsx:159 | appending a slot with a fresh id keeps the slot ids unique |
| Criteria.EditPreservesInvariants | src/pages/programCirteria.tsx:150-201 | every admissible edit keeps ids unique and the buffer editor-shaped |
| Criteria.EditsPreserveInvariants | src/pages/programCirteria.tsx:150-201 | any sequence of admissible edits keeps ids unique and the buffer editor-shaped |
| Cascade.FetchAt | src/api.ts:53-66 | a fetch fails exactly for a key the store cannot serve, and an unset key reads as nothing |
| Cascade.Plan | src/pages/programCirteria.tsx:91-124 | a load tries one to four keys, the first being the target with the program trimmed |
| Cascade.Fallbacks | src/pages/programCirteria.tsx:97-124 | every fallback carries a "prefilled" message, stays in the target's semester or the one before, and in the target's year group or one before that is not below 2025 |
| Cascade.Lateral | src/pages/programCirteria.tsx:97-104 | the hinted program is tried in the same year group and semester |
| Cascade.Temporal | src/pages/programCirteria.tsx:106-114 | the previous semester is tried in the same year group, exactly when there is a previous semester |
| Cascade.Cohort | src/pages/programCirteria.tsx:116-124 | the previous year group is tried exactly when it is not below 2025 |
| Cascade.PlanHint | src/pages/programCirteria.tsx:97-104 | the hinted program is second exactly when the hint is present, not blank, and not the program itself |
| Cascade.UnusedHint | src/pages/programCirteria.tsx:97 | an unusable hint gives the same plan as no hint |
| Cascade.PlanKeys | src/pages/programCirteria.tsx:91-124 | after the target every lookup carries a "prefilled" message; every key is in the target's or the previous semester and the target's or the previous year group |
| Cascade.Run | src/pages/programCirteria.tsx:91-127 | the keys fetched are a non-empty prefix of the plan's keys |
| Cascade.AfterAfter | src/pages/programCirteria.tsx:91-127 | two prefixes of fetches compose |
| Cascade.RunStep | src/pages/programCirteria.tsx:91-95 | the first lookup fails, wins, or hands over to the rest |
| Cascade.KeysPrefix | src/pages/programCirteria.tsx:91-124 | the first keys of a plan are its first key followed by the first keys of the rest |
| Cascade.EmptyBeforeTail | src/pages/programCirteria.tsx:92-124 | served-and-empty lookups before a position split into the first lookup and the rest |
| Cascade.RunFirstContent | src/pages/programCirteria.tsx:92-124 | the first lookup with content wins: its copy and message, and nothing after it fetched |
| Cascade.RunFirstFailure | src/pages/programCirteria.tsx:128-130 | a failed fetch ends the load with an empty buffer and the error, and nothing after it is fetched |
| Cascade.RunAllEmpty | src/pages/programCirteria.tsx:126-127 | when every lookup is empty, all are fetched and the buffer is empty with "no criteria yet" |
| Cascade.Resolve | src/pages/programCirteria.tsx:80-134 | with no token or a blank program nothing is fetched, the buffer is empty and a blank program is asked for; otherwise one to four keys are fetched |
| Cascade.ResolveRunsPlan | src/pages/programCirteria.tsx:80-134 | with a token and a program, the load is the run of the plan |
| Cascade.ResolveErrorAndShape | src/pages/programCirteria.tsx:126-130 | an error leaves an empty buffer and ends at a key the store could not serve; the buffer is always editor-shaped |
| Cascade.RunErrorAtLast | src/pages/programCirteria.tsx:128-130 | the error message means the last fetch failed; any outcome is editor-shaped |
| Cascade.TargetHasContent | src/pages/programCirteria.tsx:91-95 | authored criteria are shown as they are: one fetch, their copy, no message |
| Cascade.HintBeforePrevSemester | src/pages/programCirteria.tsx:97-114 | with an empty target, content under the hinted program is preferred to the previous semester: two fetches, the hint's copy, a message naming it |
| Cascade.FallbackBoundaries | src/pages/programCirteria.tsx:106-124 | Y1S1 fetches no other semester, and year group 2025 fetches no earlier year group |
| Cascade.PlanWithoutHint | src/pages/programCirteria.tsx:106-114 | without a hint the second lookup is the previous semester of the same program |
| Cascade.PlanWithHint | src/pages/programCirteria.tsx:97-114 | with a used hint and a previous semester, the previous semester is the third lookup |
| Cascade.PlanYearGroupLast | src/pages/programCirteria.tsx:116-124 | the previous year group is the last lookup exactly when it is not below 2025 |
| Cascade.YearGroupFallbackOfY1S1 | src/pages/programCirteria.tsx:106-124 | an empty Y1S1 target with no usable hint goes straight to the previous year group and shows its copy after two fetches |
| Cascade.PrevSemesterOfY2S1 | src/pages/programCirteria.tsx:106-114 | an empty Y2S1 target with content in Y1S2 shows the Y1S2 copy after two fetches |
| Cascade.NothingAnywhere | src/pages/programCirteria.tsx:126-127 | every lookup empty: empty buffer, "no criteria yet", the whole plan fetched |
| Cascade.TargetFailure | src/pages/programCirteria.tsx:128-130 | an unreachable target ends the load at once with the error, never as "no criteria" |
| Cascade.SaveThenLoad | src/pages/programCirteria.tsx:203-215 | saving a buffer with content and then loading the same selection shows that buffer with no message |
| Editor.CriteriaStore.constructor | src/api.ts:53-83 | the store starts with the given contents and an empty fetch log |
| Editor.CriteriaStore.Fetch | src/api.ts:53-66 | the answer is the store's answer for the key, and the key is logged |
| Editor.CriteriaStore.Put | src/api.ts:68-83 | a write succeeds exactly when the key can be served, and then stores the body under the key |
| Editor.ProgramCriteria.constructor | src/pages/programCirteria.tsx:52-70 | the address's year group, non-empty program and known semester are taken, otherwise the defaults; the buffer starts empty |
| Editor.ProgramCriteria.Attempt | src/pages/programCirteria.tsx:91-95 | one fetch keeps the load on course for `Run` of the remaining lookups: failure or content ends it, an empty answer hands over to the rest |
| Editor.ProgramCriteria.TryHint | src/pages/programCirteria.tsx:97-104 | the hint step (tried only for a usable hint while the load is not over) keeps the load on course for `Run` of the later lookups |
| Editor.ProgramCriteria.TryPrevSemester | src/pages/programCirteria.tsx:106-114 | the previous-semester step keeps the load on course for `Run` of the later lookups |
| Editor.ProgramCriteria.TryPrevYearGroup | src/pages/programCirteria.tsx:116-127 | after the year-group step (tried only above the minimum) and the final "no criteria yet", the load has reached `Run`'s outcome |
| Editor.ProgramCriteria.FetchInTurn | src/pages/programCirteria.tsx:87-127 | the steps in turn give the buffer, message and fetches of running the plan |
| Editor.ProgramCriteria.Load | src/pages/programCirteria.tsx:80-134 | the buffer, the message and the keys fetched are exactly those of `Cascade.Resolve`, and the buffer stays editor-shaped |
| Editor.ProgramCriteria.Mount | src/pages/programCirteria.tsx:136-148 | first render leaves the outcome of a load without a hint, fetches the plan three times, and remembers the program as the hint |
| Editor.ProgramCriteria.SetToken | src/pages/programCirteria.tsx:140 | a new token reloads without a hint; the same token changes nothing |
| Editor.ProgramCriteria.ChangeYearGroup | src/pages/programCirteria.tsx:142 | a new year group reloads without a hint; the same one changes nothing |
| Editor.ProgramCriteria.ChangeSemester | src/pages/programCirteria.tsx:142 | a new semester reloads without a hint; the same one changes nothing |
| Editor.ProgramCriteria.ChangeProgram | src/pages/programCirteria.tsx:144-148 | a new program reloads with the previous program as the hint and then remembers the new one |
| Editor.ProgramCriteria.Save | src/pages/programCirteria.tsx:203-215 | no token does nothing; a blank program asks for one; otherwise the buffer is written under the trimmed key, and the message says whether it went through |
| Editor.ProgramCriteria.AddRequired | src/pages/programCirteria.tsx:150-160 | the buffer becomes `Criteria.AddRequired` of it and stays editor-shaped |
| Editor.ProgramCriteria.AddElective | src/pages/programCirteria.tsx:162-174 | the buffer becomes `Criteria.AddElective` of it and stays editor-shaped |
| Editor.ProgramCriteria.RemoveSlot | src/pages/programCirteria.tsx:176-178 | the buffer becomes `Criteria.RemoveSlot` of it and stays editor-shaped |
| Editor.ProgramCriteria.UpdateSlot | src/pages/programCirteria.tsx:180-185 | the buffer becomes `Criteria.UpdateSlot` of it and stays editor-shaped |
| Editor.ProgramCriteria.AddRule | src/pages/programCirteria.tsx:187-190 | the buffer becomes `Criteria.AddRule` of it and stays editor-shaped |
| Editor.ProgramCriteria.RemoveRule | src/pages/programCirteria.tsx:192-194 | the buffer becomes `Criteria.RemoveRule` of it and stays editor-shaped |
| Editor.ProgramCriteria.UpdateRule | src/pages/programCirteria.tsx:196-201 | the buffer becomes `Criteria.UpdateRule` of it and stays editor-shaped |
| Editor.ProgramCriteria.TypeRuleList | src/pages/programCirteria.tsx:377-420 | typing into a rule's list input patches the rules with that rule's id with the typed list |
| Editor.ProgramCriteria.TypeAllowedCourses | src/pages/programCirteria.tsx:335-341 | typing into a slot's course input patches the slots with that id with the typed courses |
| ExcelUpload.CellText | src/components/ExcelUpload.tsx:24-34 | a cell's text is trimmed, and an empty cell gives "" |
| ExcelUpload.CreditValue | src/components/ExcelUpload.tsx:30-33 | a numeric credit is kept, and one that is not a number counts as 0 |
| ExcelUpload.Read | src/components/ExcelUpload.tsx:24-34 | a row is read cell by cell into trimmed texts and credits |
| ExcelUpload.GroupRows | src/components/ExcelUpload.tsx:22-52 | the loop throws exactly when an accepted application number is a name every plain object inherits (`constructor`, `__proto__`, ...); otherwise it gives the fold of the rows: one record per accepted application number, its courses in row order, its name and program from the first row |
| ExcelUpload.AddRow | src/components/ExcelUpload.tsx:35-51 | one pass of the loop body: an accepted row opens its record if needed and adds exactly one entry; a skipped row changes nothing |
| ExcelUpload.GroupedSnoc | src/components/ExcelUpload.tsx:23-52 | folding one more row is one more step |
| ExcelUpload.RowsOf | src/components/ExcelUpload.tsx:35 | a student's rows are exactly the accepted rows with that application number |
| ExcelUpload.GroupedKeys | src/components/ExcelUpload.tsx:35-43 | there is a record exactly for each application number some accepted row carries, keyed by it |
| ExcelUpload.GroupedCourses | src/components/ExcelUpload.tsx:44-51 | a record's courses are its accepted rows' entries, in row order |
| ExcelUpload.GroupedHeader | src/components/ExcelUpload.tsx:36-43 | a record's name and program are those of its first accepted row |
| ExcelUpload.GroupedMeaning | src/components/ExcelUpload.tsx:22-52 | the three facts together |
| ExcelUpload.TotalIgnoresOthers | src/components/ExcelUpload.tsx:44-51 | changing a record not counted leaves the course total alone |
| ExcelUpload.TotalOneMore | src/components/ExcelUpload.tsx:44-51 | one more course for a counted record raises the total by one |
| ExcelUpload.KeyOrderCovers | src/components/ExcelUpload.tsx:36-43 | the order of first appearance names each record exactly once |
| ExcelUpload.EntriesMatchRows | src/components/ExcelUpload.tsx:35-51 | the records hold as many course entries as there are accepted rows: no line is lost or duplicated |
| ExcelUpload.HandleFileChange | src/components/ExcelUpload.tsx:13-57 | records are handed over exactly when a sheet was read and the loop did not throw, and they are the grouped rows |
| Audit.YearOf | src/pages/AuditPage.tsx:19-24 | every semester belongs to a study year from 1 to 4 |
| Audit.SemestersOfYear | src/pages/AuditPage.tsx:19-24 | a study year offers two semesters, its first and its second in study order |
| Audit.SemestersOfYearExactly | src/pages/AuditPage.tsx:19-24 | a year's list holds exactly the semesters of that year |
| Audit.ClampSemester | src/pages/AuditPage.tsx:39-44 | after a year change the semester is kept if the year offers it, otherwise it is the year's first |
| Audit.ClampMeaning | src/pages/AuditPage.tsx:39-44 | the clamped semester belongs to the chosen year, and clamping again changes nothing |
| Audit.Summarize | src/pages/AuditPage.tsx:47-52 | the total counts all results, passed counts those that passed, failed counts exactly those that did not; these add up and are bounded by the total |
| Audit.NoneFailed | src/pages/AuditPage.tsx:47-52 | nothing failed exactly when every result passed |
| Audit.Normalize | src/pages/AuditPage.tsx:85-89 | an array is taken as is, an object's `results` array is taken, and anything else gives no outcomes |
| Audit.NormalizeIdempotent | src/api.ts:97-99 | the client already normalises, so the page's second normalisation changes nothing |
| Audit.AuditPage.constructor | src/pages/AuditPage.tsx:29-37 | year group 2026, year 1, Y1S1, and no students, results or message |
| Audit.AuditPage.SetYear | src/pages/AuditPage.tsx:39-44 | choosing a year clamps the semester into it |
| Audit.AuditPage.SetSemester | src/pages/AuditPage.tsx:148 | the semester becomes one of the year's two |
| Audit.AuditPage.SetYearGroup | src/pages/AuditPage.tsx:117 | the year group becomes the chosen one |
| Audit.AuditPage.HandleParsed | src/pages/AuditPage.tsx:54-58 | the uploaded students replace the old ones, the results are cleared, and the message gives their number |
| Audit.AuditPage.HandleClearStudents | src/pages/AuditPage.tsx:60-64 | students, results and message are cleared |
| Audit.AuditPage.HandleRunAudit | src/pages/AuditPage.tsx:66-98 | no token or no students only sets a message and sends nothing; otherwise one request with the selection is sent; the results are the response's outcomes, none on failure; the message says whether there were any |
| Manager.Normalized | src/pages/CriteriaManager.tsx:87-92 | absent lists become empty, an absent label becomes '', and the buffer has content exactly when the fetched value has |
| Manager.NormalizedOfSaved | src/pages/CriteriaManager.tsx:87-91 | a labelled buffer that was saved loads back unchanged |
| Manager.NormalizedAgreesWithEditor | src/pages/CriteriaManager.tsx:87-92 | the manager and the editor read the same slots and the same number of rules, and agree on content |
| Manager.WithElective | src/pages/CriteriaManager.tsx:144-154 | one elective is appended, titled like the editor's, with no course list, grade or course name |
| Manager.ElectiveAgreesWithEditor | src/pages/CriteriaManager.tsx:144-154 | the two pages' electives differ only in the editor's empty course list and grade D |
| Manager.ElectiveNumbering | src/pages/CriteriaManager.tsx:144-148 | a new elective raises its own tag's count by one and leaves other tags alone |
| Manager.NumericYearGroups | src/pages/CriteriaManager.tsx:55 | the kept year groups are exactly the numeric ones of the listing |
| Manager.NumericYearGroupsAppend | src/pages/CriteriaManager.tsx:55 | the filter keeps the listing's order |
| Manager.AllNumeric | src/pages/CriteriaManager.tsx:55 | a listing of numbers only is kept whole |
| Manager.CriteriaManagerPage.constructor | src/pages/CriteriaManager.tsx:26-42 | no year groups, no year group or program, Y1S1, and the blank labelled buffer |
| Manager.CriteriaManagerPage.SelectYearGroup | src/pages/CriteriaManager.tsx:104 | the year group becomes the chosen one; a different one reruns the semester load for the new selection, the same one changes nothing |
| Manager.CriteriaManagerPage.SelectProgram | src/pages/CriteriaManager.tsx:104 | the program becomes the chosen one; a different one reruns the semester load for the new selection, the same one changes nothing |
| Manager.CriteriaManagerPage.SelectSemester | src/pages/CriteriaManager.tsx:104 | the semester becomes the chosen one; a different one reruns the semester load for the new selection, the same one changes nothing |
| Manager.CriteriaManagerPage.LoadYearGroups | src/pages/CriteriaManager.tsx:51-63 | without a token nothing changes; a listing gives its numeric year groups in order and selects the first only if none is selected, which reruns the semester load; a failure only sets the message |
| Manager.CriteriaManagerPage.LoadSemester | src/pages/CriteriaManager.tsx:81-101 | without a token, year group or program nothing is fetched; otherwise one fetch of the untrimmed key; a failure leaves the blank buffer and an error; otherwise the normalised value, with "empty" exactly when it has no content; the outcome is `Manager.SemesterLoad` of the selection |
| Manager.SemesterLoad | src/pages/CriteriaManager.tsx:81-101 | the semester load as a function of the selection and the store: the guard fetches nothing and keeps buffer and message; otherwise one fetch of the untrimmed key, the blank buffer and an error on failure, else the normalised value with "empty" exactly when it has no content |
| Manager.SavedSemesterLoads | src/pages/CriteriaManager.tsx:81-101 | a labelled semester with content that was saved loads back as it was, with no message |
| Manager.ReloadIsStable | src/pages/CriteriaManager.tsx:81-101 | loading the same selection twice from the same store leaves the same buffer and message |
| Manager.CriteriaManagerPage.AddRequired | src/pages/CriteriaManager.tsx:132-142 | the same blank required slot as the editor's is appended |
| Manager.CriteriaManagerPage.AddElective | src/pages/CriteriaManager.tsx:144-154 | the buffer becomes `WithElective` of it |

## Left out

- **Rendering.** The JSX, the page titles (`useMemo` headers) and the styles are not modelled.
- **The wording of messages.** Messages are modelled by kind. When a request fails, the server's own error text is not modelled.
- **The network, authentication and the audit service.** The criteria endpoints are a map from keys to stored values, plus a set of keys the store cannot serve. The audit endpoint's answer is a parameter of `HandleRunAudit`, and the year-group listing is a parameter of `LoadYearGroups`. The sign-in token is a string, and "" means absent.
- **Asynchrony.** Every handler runs to completion before the next action. Loads that overlap, and a late answer overwriting a newer one, are not modelled.
- Editor.ProgramCriteria.Mount: runs the three effect-triggered loads one after the other. The page starts them concurrently, so the model does not capture any interleaving of their answers.
- **The browser address.** Reading it, `parseInt` and `decodeURIComponent` are not modelled. The constructor receives the year group already parsed (`None` when it is not a number) and the program already decoded.
- **Id generation.** `nanoid` (editor) and the random `uid` (manager) are not modelled. Fresh ids are parameters, and uniqueness is proved for edits that receive an unused id (`Criteria.Admissible`).
- **Shared objects.** Shallow copies share nested objects with the fetched data in the source, and that aliasing is not modelled: the model's values are immutable.
- **Non-array fields.** A `slots` or `rules` field that is present but not an array is modelled as absent (`None`). The editor's `Array.isArray` tests treat it so; the manager's `d?.slots || []` does not (see the next three lines).
- Manager.Normalized: a present, truthy `slots` or `rules` value that is not an array is kept by the manager as it is; the model has no such value and gives `[]`.
- Manager.SemesterLoad: reads the fetched value through `Normalized`, so a present, truthy non-array `slots` or `rules` becomes `[]` and counts as empty, where the source keeps it and shows no "Empty semester" message.
- Manager.NormalizedAgreesWithEditor: holds for the modelled values only; for a present, truthy non-array field the manager keeps it while the editor drops it.
- Manager.CriteriaManagerPage.LoadSemester: for a present, truthy non-array `slots` or `rules`, the source shows no "Empty semester" message, while the model, which reads the field as absent, shows it.
- Criteria.UpdateSlot: a slot's priority is an integer. Clearing the priority input makes `parseInt` give NaN, which the source stores and later saves; the model has no such value.
- **Invalid semesters.** The semester is one of the eight codes (`Criteria.Semester`). The editor only ever holds such a code, so its `!semester` guard is never true, and the year-group `Number.isFinite` guard likewise. The string version of the previous-semester lookup is `Criteria.PrevSemesterCode`.
- **Shape of the rule's `addSlots` list.** It is kept as a plain list of slots. The editor's JSON text area for it, and that area's parse-error handling, are not modelled.
- Text.Trim: removes a fixed set of white-space characters (space, tab, line feed, carriage return, vertical tab, form feed, no-break space, line and paragraph separators, byte-order mark), not every Unicode space separator.
- ExcelUpload.CreditValue: models a credit cell as already read into a number or "not a number". Reading the workbook (`XLSX.read`, `sheet_to_json`) and `parseFloat` are not modelled, and credits are reals, not IEEE doubles.
- ExcelUpload.HandleFileChange: returns the records as a map keyed by application number, not in `Object.values` order. It models an unreadable file as handing nothing over, as the source does after logging the error.
- **Course lines.** A course line has the fields the upload builds: code, category, sub-category, credits, earned credits and grade. `StudentRecord` in `src/types.ts` declares `course` instead of `code` and has no category fields; the model follows what the code builds.
- Manager.NumericYearGroups: treats a numeric `yearGroup` field as an integer; a non-integral or NaN number, which `typeof n === 'number'` would also keep, is not modelled.
- **The criteria manager's token.** The token is fixed when the page is built. The effects that rerun `loadYearGroups` and `loadSemester` when the token changes are not modelled.
- **The criteria manager's other actions.** Loading programs, creating a year group, adding a program, and the effects that chain them are not part of this model. Year-group and program management belong to another page.
- **Pages outside the core.** The dashboard, login, signup and year-group manager pages and the `useAuth` hook are not part of this model.
