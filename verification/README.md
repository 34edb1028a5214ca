# atcoder-cli core, modelled in Dafny

This project models the sequential core of `atcoder-cli`, a command-line helper for
AtCoder contests, and proves properties of it:

- **the tree query engine** (`api/html.go`): breadth-first `findOneNode` and
  `findAllNodes` over the parsed page, and the attribute scans `attrIs` and `getAttr`;
- **the extractors** (`api/task.go`): `FetchTaskList` turns the rows of the contest's
  `table > tbody` into tasks, and `FetchSampleIOs` fills a task's sample list in place
  from the `section`s of its page;
- **the `test` command** (`command/test.go`): option closures, the pairing of
  `input-<id>` / `output-<id>` files into samples, the `"all"`/single-id selection and
  the AC/WA verdict;
- **the AtCoder Daily Training family** (`contests/adt/family.go`): parsing the
  YYYYMMDD date, the weekday, the two slot tables, the contest name and the base
  directory.

`cmd/cli/main.go` repeats the query engine (lines 390-436) and the extraction bodies
(lines 149-200 and 220-288) token for token, apart from extra logging. Both copies
are modelled by the same members; some rows below cite the copy.

Modelling choices:

- A Go `*html.Node` is an `Item`: the path of child indexes from the document root,
  together with the node found there. Go's pointer tests (`n.Parent == tr`) become
  relations between paths (`Dom.IsChildOf`).
- Breadth-first order is defined twice. `TreeOrder.Bfs` is what the FIFO queue emits.
  `TreeOrder.LevelOrder` lists the subtree level by level. The two are proved equal.
- A Go closure that writes captured variables becomes a query that threads a state
  (`TreeOrder.Scan`).
- Runtime panics of the extractor (a slice or index out of range) are a `Crashed`
  state that stops all later updates.
- `Task` is a class whose `sampleIOs` field `FetchSampleIOs` rewrites. A nil slot is
  `None`.
- Go strings are `seq<char>` (runes). `strings`, `strconv`, `filepath.Base` and the
  parts of `time` that are used are modelled in `Text` and `CivilDate`.
- Callers supply the following as inputs:
  - the fetched and parsed page, as a tree or an error;
  - href resolution, as a function that may fail;
  - the directory walk, as a sequence of visits;
  - the file system, as a map from path to content;
  - the Python run, as an oracle.

Files:

- `outcomes.dfy`: Option and Result.
- `dom.dfy`: the tree and node references.
- `tree_order.dfy`: BFS and level order, filter, first match and scan.
- `html_query.dfy`: the query engine.
- `task_listing.dfy`: `FetchTaskList`.
- `tasks.dfy`: `Task` and `FetchSampleIOs`.
- `test_command.dfy`: `RunTest`.
- `text.dfy`: strings, numbers and paths.
- `civil_date.dfy`: `time.Parse`, `Format` and `Weekday`.
- `adt_family.dfy`: the ADT family.

## Model

| member | source | states |
|---|---|---|
| HtmlQuery.FindOneNode | api/html.go:10-22 | the queue loop returns the first node of the subtree, in breadth-first order, that passes the query; None (the "node not found" error) when no node does |
| HtmlQuery.FindOneRootFirst | api/html.go:11-17 | the query sees the root first: a matching root is returned whatever its descendants are |
| HtmlQuery.FindOneSpec | cmd/cli/main.go:390-402 | the search fails exactly when no node of the subtree passes the query; a found node is in the subtree, passes, and no node before it in breadth-first order passes |
| TreeOrder.BfsIsLevelOrder | api/html.go:11-20 | popping the front and appending the children in sibling order emits the root, then its children, then its grandchildren, and so on |
| TreeOrder.BfsAppend | api/html.go:12-19 | once the queue has emitted its current contents, it holds their children in order |
| TreeOrder.RootFirst | api/html.go:11-15 | the root is the first node visited |
| TreeOrder.LevelOrderMembers | api/html.go:26-36 | a node is visited exactly when it is in the root's subtree |
| TreeOrder.LevelOrderNoDup | api/html.go:26-36 | no node is visited twice |
| HtmlQuery.FindAllNodes | api/html.go:25-38 | the query runs on every node of the subtree exactly once, in breadth-first order, with no early exit; the result is the accepted nodes in that order, and the query's own state ends as that pass leaves it |
| HtmlQuery.FindAllExactly | cmd/cli/main.go:405-418 | with a query without side effects, the result holds exactly the matching nodes of the subtree, each once, in breadth-first order; it is empty (not an error) when none match |
| HtmlQuery.FindOneIsFirstOfFindAll | api/html.go:10-37 | with a query without side effects, findOneNode succeeds with n exactly when findAllNodes is non-empty and starts with n, and fails exactly when it is empty |
| TreeOrder.ScanLift | api/html.go:28-36 | a query without side effects keeps the state and accepts what a filter keeps |
| TreeOrder.FilterSpec | api/html.go:28-37 | the collected nodes are exactly the nodes that pass, and none are collected exactly when none pass |
| TreeOrder.FirstMatchSpec | api/html.go:12-21 | the first match is the earliest passing node; there is none exactly when no node passes |
| TreeOrder.FirstMatchIsFirstOfFilter | api/html.go:10-37 | the first match is the head of the list of all matches |
| HtmlQuery.AttrIs | api/html.go:40-47 | true exactly when the first attribute with key k has value v; false when the key is absent, whatever later duplicates say |
| HtmlQuery.GetAttr | api/html.go:49-56 | returns the value of the first attribute with key k and true; ("", false) when no attribute has the key |
| HtmlQuery.FirstAttrSpec | cmd/cli/main.go:420-436 | the earliest attribute with the key decides; there is none exactly when no attribute carries the key |
| TreeOrder.FirstMatchAmongChildren | api/task.go:63-65 | a search of the row's subtree for its direct children finds the first such child in sibling order |
| TreeOrder.FirstMatchAmongChildrenOfChild | api/task.go:67-88 | a search of the row for children of its k-th child finds the first such grandchild in sibling order |
| TreeOrder.FirstMatchAmongGrandchildren | api/task.go:128-141 | a search of a section for nodes two levels down goes through the grandchildren in document order |
| TaskListing.NoTableNoTasks | api/task.go:50-59 | a page without a `tbody` whose parent is a `table` element gives the not-found error |
| TaskListing.TaskTableFound | cmd/cli/main.go:149-162 | when some `tbody` has a `table` parent, the search finds one: the first in breadth-first order, a `tbody` whose parent is a `table`; the task list is then, by its definition, the row loop over that element's children in order |
| TaskListing.RowEntry | api/task.go:63-91 | the entry one row yields; its contract is in TaskListing.RowEntryByChildren and TaskListing.ReadRow |
| TaskListing.ReadRow | api/task.go:63-91 | the searches of one row give the row's entry: the href and text of the first suitable anchor under the first `td` child, or none when the row is skipped |
| TaskListing.RowEntryByChildren | api/task.go:63-91 | the breadth-first searches with pointer-parent tests equal a definition on the row node alone: its first `td` child, that cell's first `a` child with an `href` attribute (empty allowed) and a text child, that href, and the data of the anchor's first text child |
| TaskListing.AppendTask | api/task.go:96 | the list grows by one task with the resolved URL, the index text and no samples; the earlier tasks are kept |
| TaskListing.CollectTasks | api/task.go:61-99 | the row loop succeeds exactly when the listing does; it then returns tasks with exactly the listed URLs and index texts, in order and without samples; otherwise it returns the error of the first href that does not resolve |
| TaskListing.FetchTaskList | api/task.go:45-99 | a failed fetch or parse is returned as is; otherwise the result is the row loop over the first `table > tbody`, or the not-found error when there is none |
| TaskListing.Listing | api/task.go:62-98 | the row loop's result; its contract is in TaskListing.ListingSpec, TaskListing.ListingSnoc and TaskListing.ListingAborted |
| TaskListing.TaskList | api/task.go:45-99 | the task list of a parsed page; its contract is in TaskListing.NoTableNoTasks, TaskListing.TaskTableFound and TaskListing.FetchTaskList |
| TaskListing.ListingSnoc | api/task.go:62-97 | the one-step unfolding of the listing's definition, used by the row loop's invariant: each row extends the listing of the rows before it: skip a row without an entry, stop at an href that does not resolve, otherwise append a task |
| TaskListing.ListingAborted | api/task.go:92-95 | once an href fails to resolve, the whole listing fails with that error |
| TaskListing.ListingResolvesEntries | api/task.go:62-96 | the listing resolves the entries of the rows that have one, in row order; rows without an entry play no part |
| TaskListing.ResolveAllSpec | api/task.go:92-96 | resolution succeeds exactly when every href resolves, and then gives one task per entry in order; otherwise it fails with the error of the first href that does not resolve |
| TaskListing.ListingSpec | api/task.go:62-98 | the listing succeeds exactly when every row entry's href resolves; it then holds one task per entry in row order, with the resolved URL and the entry's text; otherwise it fails with the first failing href's error |
| TaskListing.EntriesCount | api/task.go:62-91 | every row contributes exactly when every row has an entry |
| TaskListing.SkippedRowIgnored | api/task.go:89-91 | a malformed row can be inserted anywhere without changing the entries, so N well-formed rows give N tasks wherever the malformed ones are |
| TaskListing.EntriesAppend | api/task.go:62-91 | the entries of two runs of rows are the entries of the first followed by those of the second |
| Tasks.Task.constructor | api/task.go:96 | a new task has the given URL and index and no samples |
| Tasks.Task.FetchSampleIOs | api/task.go:116-188 | a failed fetch returns its error and leaves the `Task` unchanged; otherwise the sample list is what the callback leaves after visiting every node of the page in breadth-first order; the result is nil unless a panic ended the walk; no existing slot is lost |
| Tasks.IsCandidateSpec | api/task.go:122-124 | with `&&`, a node is a candidate exactly when it is an element, of any tag, or its data is "section" |
| Tasks.SectionStep | api/task.go:122-186 | one call of the sample callback; its contract is in Tasks.SectionStepSpec, Tasks.SectionStepNumbered, Tasks.SectionStepOfHeading, Tasks.RecordExtends and Tasks.CrashedStays |
| Tasks.ExtractAll | api/task.go:121-186 | the whole walk of the sample callback over the page, one Tasks.SectionStep per node; its contract is in Tasks.ExtractionExtends, Tasks.SectionStepNumbered and Tasks.Task.FetchSampleIOs |
| Tasks.SectionStepNumbered | api/task.go:145-186 | for a candidate with a marked heading: a number k >= 1 records slot k-1 from the heading's side and the section's body, and the callback returns whether a body was found; k < 1 panics on the index k-1; a number Atoi rejects leaves the list unchanged and returns false; a heading under four runes panics on `[4:]` |
| Tasks.SectionStepOfHeading | api/task.go:145-186 | a candidate whose marked heading's runes from the fifth on spell n (1 to the largest int64) records slot n-1 |
| Tasks.SectionStepSpec | api/task.go:122-144 | the `&&` filter turns a node away only when it is neither an element nor has data "section"; a node with no `h3` child whose text starts with a marker changes nothing; the callback reports true only for a candidate with a marked heading and a `pre` text child |
| Tasks.ChildTextSearch | cmd/cli/main.go:227-276 | the heading and body searches of a section look only at its grandchildren; they find nothing exactly when the section has no such text child, and otherwise return one |
| Tasks.GrandchildText | api/task.go:128-141 | the query "text node whose parent is a `tag` element whose parent is the section" holds exactly for text child j of the section's `tag` child i |
| Tasks.ExampleNumber | api/task.go:147-157 | the example number of a heading; its contract is in Tasks.HeadingNumber, Tasks.ExampleNumberOfHeading, Tasks.ExampleNumberDefaultsToOne, Tasks.FourRuneHeadingIsOne, Tasks.ExampleNumberDropsFourthRune, Tasks.ExampleNumberSlice and Tasks.BareMarkerPanics |
| Tasks.HeadingNumber | api/task.go:147-157 | a heading whose runes from the fifth on are the decimal n gives example number n |
| Tasks.ExampleNumberOfHeading | api/task.go:147-151 | "入力例 N" and "出力例 N" give example number N |
| Tasks.FourRuneHeadingIsOne | api/task.go:147-155 | any heading of exactly four runes gives example number 1, whatever its fourth rune: "入力例2" gives 1 |
| Tasks.ExampleNumberDefaultsToOne | api/task.go:147-157 | either marker followed by one or more white-space runes, and nothing else, gives example number 1 |
| Tasks.ExampleNumberDropsFourthRune | api/task.go:147-148 | the fourth rune is dropped unread, so "入力例12" gives example number 2 |
| Tasks.ExampleNumberSlice | api/task.go:147-148 | the `[4:]` slice panics exactly on a heading of fewer than four runes |
| Tasks.BareMarkerPanics | api/task.go:147-148 | a bare three-rune marker makes the `[4:]` slice go out of range |
| Tasks.Record | api/task.go:158-164 | after a section with number k, the list is as long as the longer of its old length and k; new gap slots are nil; slot k-1 is non-nil even without a body; every other slot is unchanged |
| Tasks.Fill | api/task.go:180-184 | a found body overwrites (does not append to) Input for 入力例 or Output for 出力例; the other side is kept |
| Tasks.Lines | api/task.go:181 | the stored lines are never empty, and joined with line breaks they give the trimmed body back |
| Tasks.RecordExtends | api/task.go:158-164 | recording a section keeps every slot the list had and resets none to nil |
| Tasks.ExtractionExtends | api/task.go:121-186 | over the whole walk no slot is lost and no created slot is reset to nil |
| Tasks.CrashedStays | api/task.go:147-162 | after a panic no later node changes anything |
| Tasks.RecordCommutes | cmd/cli/main.go:258-284 | sections update the list independently of their visiting order, unless two have the same number, the same side and both a body |
| Tasks.RecordLastWins | api/task.go:180-184 | of two sections with the same number and side that both have a body, the later one wins |
| Text.TrimSpaceSpec | api/task.go:147-148 | TrimSpace removes white space at both ends and nothing else |
| Text.TrimLeft | api/task.go:147-148 | TrimLeft removes the leading runes that are in the cutset and keeps the rest as a suffix |
| Text.Atoi | api/task.go:151 | a successful Atoi lies in the int64 range, the empty string is a syntax error, and a negative value was written with '-' |
| Text.AtoiRangeBeforeSyntax | api/task.go:151 | digits whose value passes the uint64 range give a range error whatever follows them, because the digits are read from the left and the first problem decides |
| Text.AtoiOverflowBeforeLetter | api/task.go:151 | "99999999999999999999x" is a range error, not a syntax error |
| Text.AtoiItoa | api/task.go:151 | Atoi reads back the decimal text of every value up to the largest int64 |
| Text.SplitLinesInjective | command/test.go:147-150 | two texts split on "\n" into the same lines exactly when they are the same text |
| Text.JoinSplitLines | api/task.go:181-183 | joining the pieces of a split with "\n" gives the text back |
| Text.SplitJoinLines | api/task.go:181-183 | splitting the join of line-free pieces gives the pieces back |
| TestCommand.Configure | command/test.go:76-81 | applying the option closures in order to the default configuration gives the configuration the options describe |
| TestCommand.LastTestcaseSpec | command/test.go:60-65 | the last `TestWithTestcase` decides the test case, and with none "all" stays |
| TestCommand.ConfigOfSnoc | command/test.go:60-71 | `TestWithTestcase` changes only the test case and `TestWithVerbose` only sets verbose |
| TestCommand.Classify | command/test.go:93-101 | the side and id a file name carries; its contract is in TestCommand.ClassifyNames, TestCommand.ClassifyIgnored and TestCommand.ClassifyKeepsOtherEndings |
| TestCommand.ClassifyNames | command/test.go:93-99 | the names `input-<id>.txt` and `output-<id>.txt` register `<id>` on their side |
| TestCommand.ClassifyIgnored | command/test.go:94-101 | a name is ignored exactly when it starts with neither `input-` nor `output-` |
| TestCommand.ClassifyKeepsOtherEndings | command/test.go:94-99 | only ".txt" is stripped: after either prefix, a rest that does not end in ".txt" is the id as it stands (`input-01.py` registers "01.py") |
| TestCommand.Visited | command/test.go:89-92 | the callback sees the visited paths up to the first walk error, which ends the walk |
| TestCommand.RegisteredSpec | command/test.go:96-99 | the path stored for an id and side is the last visited path carrying them, so a later file overwrites an earlier one |
| TestCommand.RegisteredSnoc | command/test.go:93-102 | one more visited path changes only its own id and side |
| TestCommand.IdsSpec | command/test.go:94-99 | an id is in the map exactly when one of its sides was registered |
| TestCommand.Register | command/test.go:93-103 | one callback call on a visited path; its contract is in TestCommand.RegisterStep and TestCommand.RegisteredSnoc |
| TestCommand.RegisterStep | command/test.go:93-103 | one callback call keeps the map equal to the definition over the paths seen so far, keeping the other side's path |
| TestCommand.Discover | command/test.go:87-104 | the walk leaves the map that pairs each id with its last input and its last output path, "" where none was |
| TestCommand.Selected | command/test.go:106-111 | the test-case filter; its contract is in TestCommand.SelectionSpec |
| TestCommand.SelectionSpec | command/test.go:106-111 | "all" selects every discovered id; any other value selects at most the id equal to it |
| TestCommand.Outcome | command/test.go:114-157 | the result of one selected sample; its contract is in TestCommand.OutcomeSpec and TestCommand.TrailingNewlineIsWA |
| TestCommand.OutcomeSpec | command/test.go:114-157 | AC exactly when the input opens, the run succeeds, the expected file reads and its text equals stdout; a missing side fails on the empty path rather than crashing |
| TestCommand.TrailingNewlineIsWA | command/test.go:147-157 | for any sample whose input opens, whose run succeeds and whose expected file reads, stdout that differs from the expected text only by a final line break, on either side, gives WA |
| TestCommand.RunSamples | command/test.go:105-178 | in any map order, each reported verdict belongs to a distinct selected sample and is its outcome; no error means every selected sample was reported; an error is the failure of some selected sample |
| TestCommand.CompletedNoError | command/test.go:132-178 | the result is nil exactly when every selected sample runs to a verdict, WA included |
| TestCommand.RunTest | command/test.go:73-179 | `RunTest` is the sample loop over the configuration the options describe and the map the walk leaves |
| CivilDate.ParseDate | contests/adt/family.go:28-31 | `time.Parse("20060102")`; its contract is in CivilDate.ParseDateSpec and CivilDate.FormatParsed |
| CivilDate.FormatDate | contests/adt/family.go:46 | `Format("20060102")`; its contract is in CivilDate.FormatParsed and CivilDate.ParseFormatted |
| CivilDate.WeekdayOf | contests/adt/family.go:32 | `date.Weekday()`; its contract is in CivilDate.WeekdayNext and CivilDate.WeekdayAnchor |
| CivilDate.ParseDateSpec | contests/adt/family.go:28-31 | `time.Parse("20060102")` succeeds exactly on eight digits naming a real date, and gives that date |
| CivilDate.FormatParsed | contests/adt/family.go:46 | formatting a parsed date gives back the text it was parsed from |
| CivilDate.ParseFormatted | contests/adt/family.go:46 | parsing the formatted date of a four-digit year gives the date back |
| CivilDate.YearLength | contests/adt/family.go:32 | a year has 366 days exactly when it is a Gregorian leap year |
| CivilDate.DayNumberNext | contests/adt/family.go:32 | consecutive days have consecutive day numbers |
| CivilDate.WeekdayNext | contests/adt/family.go:32 | the weekday moves on by one each day |
| CivilDate.WeekdayAnchor | contests/adt/family.go:32 | 7 January 2025 is a Tuesday |
| AdtFamily.ContestDays | contests/adt/family.go:10-19 | both tables cover exactly Tuesday, Wednesday and Thursday |
| AdtFamily.HoldsThenTimes | contests/adt/family.go:10-19 | a time in `dailyHolds` maps to a slot from 1 to 3 that `dailyTimes` maps back to that time |
| AdtFamily.TimesThenHolds | contests/adt/family.go:15-19 | each contest day has exactly slots 1 to 3, and `dailyHolds` maps each slot's time back to the slot |
| AdtFamily.New | contests/adt/family.go:27-43 | the family constructor; its contract is in AdtFamily.NewSpec, AdtFamily.NewRoundTrip and AdtFamily.NewBaseDir |
| AdtFamily.ContestName | contests/adt/family.go:45-47 | the contest name; its contract is in AdtFamily.ContestNameOfParsed |
| AdtFamily.BaseDir | contests/adt/family.go:49-58 | the base directory; its contract is in AdtFamily.BaseDirEndsInTime and AdtFamily.NewBaseDir |
| AdtFamily.NewSpec | contests/adt/family.go:27-43 | a parse error is returned as is; a family exists exactly for a real date on Tuesday, Wednesday or Thursday with one of that day's times, and then holds that date, a slot from 1 to 3 that maps back to the time, and the level unvalidated; otherwise (nil, nil); never both |
| AdtFamily.ContestNameOfParsed | contests/adt/family.go:45-47 | the name is "adt_", the level, "_", the date text it was parsed from, "_" and the decimal slot number |
| AdtFamily.BaseDirEndsInTime | contests/adt/family.go:49-58 | the base directory ends in the start time of the family's slot |
| AdtFamily.NewBaseDir | contests/adt/family.go:27-58 | for a family made by New, the base directory is workdir, "adt", the year, month and day digits of the given date text, and the given time, joined |
| AdtFamily.NewRoundTrip | contests/adt/family.go:27-58 | a family made by New names its contest with the given date text, and its base directory ends in the given time, after both tables have been crossed |

## Left out

- The HTTP client: `c.do`, the request throttling behind it, `http.Get` and
  `http.NewRequestWithContext`. It is concurrent code, and its definition is not part
  of this model. The fetch outcome is a parameter.
- `html.Parse`. The page is a given immutable tree, or the error the parse would
  return.
- URL handling. `taskListURL.Parse(href)` is a parameter that may fail, and building
  the listing URL from the contest name is not modelled.
- Logging (`slog`), printing and styling (`lipgloss`), and the rendering of the
  diff lines.
- What `verbose` does: it only changes what is printed. The model records the flag
  and nothing else.
- Launching `python3`: `exec.CommandContext` and the stdin tee. They are an oracle
  from input text to (clean exit, stdout, stderr). The error `RunTest` returns
  wraps stderr, and the model keeps only stderr.
- The advisory `main.py` existence check (command/test.go:120-124). It only prints.
- `defer inputFile.Close()`: descriptors are not modelled.
- The internals of `cmp.Diff`. An empty diff is taken to mean that the two line
  sequences are equal.
- The traversal order of `fs.WalkDir` and the files it finds. The walk is a given
  sequence of visits; the callback and the stop at the first error are modelled.
- Opening and reading files. `os.Open` and `os.ReadFile` succeed exactly on a
  non-empty path present in the file map. Other I/O errors, and the difference
  between opening and reading the input, are not modelled.
- AdtFamily.BaseDir: `filepath.Join` is modelled without its final `Clean`. The
  result is exact when workdir is empty, or a clean path other than "." that does
  not end in a slash. For a workdir of "." the model keeps the "./" prefix that
  Go's `Clean` removes ("./adt/…" where Go gives "adt/…").
- Text.Atoi: the error is only its kind, syntax or range, not Go's `*NumError`
  value with its function name and input text.
- CivilDate.ParseDate: `DateError` names the kind of failure (bad digits, month out
  of range, extra text, day out of range), not Go's error text. Years stay within
  0000-9999 because the layout reads exactly four digits.
- Tasks.Record: memory exhaustion is not modelled. A very large example number
  would make `make` allocate a huge slice; the model simply grows the list.
- TaskListing.CollectTasks and TaskListing.FetchTaskList: the contracts do not state
  that the returned tasks are freshly allocated objects distinct from each other.
  They state each task's fields.
- Writing the samples to disk (command/fetch_sample_io.go, cmd/cli/main.go:43-131)
  is not part of this model. Those writers dereference every slot, so the nil gap
  slots `Tasks.Record` exposes would make them crash.
- Behaviours of the code a reader may not expect, modelled as written:
  - The candidate test of the sample callback uses `&&`, so it admits every element,
    whatever its tag, and not only `section` elements.
  - An empty `href` is accepted; only its presence is checked.
  - Gap slots below a new example number are left nil.
  - A bare marker heading of three runes panics on the `[4:]` slice.
  - A heading gives the default number 1 whenever nothing is left after its fourth
    rune once the two `TrimLeft` calls and `TrimSpace` have run: nothing at all, white
    space, or marker runes as in "入力例 入力例". So "入力例2" numbers its example 1,
    and two such headings share slot 0.
  - A section without a body still creates its slot.
  - Only ".txt" is stripped from sample ids.
  - A sample missing one side makes `RunTest` return the error for the empty path.
