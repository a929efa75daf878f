# clang-dummy call-site statistics, modelled in Dafny

clang-dummy is a pair of Clang-based tools that walk C/C++ sources and record
how library functions are called. Both tools first classify a source path
into a *(domain, project)* pair. They use a catalog of domain names, each
with its own list of project names, read from a configuration file.

- **src** keeps per-function statistics in memory (`CallData::addCallExpression`).
  For each call name it keeps:
  - the total number of calls;
  - a call count per domain and a call count per project;
  - the number of distinct domains and projects it was called from;
  - the `#`-joined list of its definition locations;
  - whether it has several definitions;
  - whether it is defined outside the calling project.
- **clang-ehminer** writes what it finds into six SQLite tables. One table
  holds branch records. Vector fields in those records are joined with
  `#-_-#`, and an empty field is stored as the placeholder `-`. Quotes are
  doubled. Two tables hold counter rows that are inserted on first sight and
  updated afterwards. One table holds a `#a#b#` list of distinct callers. Two
  tables are append-only.

The model is functional. Each entity is an immutable datatype, each
operation is a pure function (plus two loop methods), and lemmas state the
properties. A run of calls is a fold of one operation over a sequence of call
sites (`Aggregator.Run`, `Recorder.RunFunctionCall` and its siblings). The run
lemmas tie what the tables hold at the end to an independent summary of the
calls: the `History` fold of a name's stored observations, or the number of
calls with a key.

| file | module | what it holds |
|---|---|---|
| `wrappers.dfy` | `Wrappers` | `Option` |
| `seqs.dfy` | `Seqs` | sums, non-zero counts, occurrence counts and first-seen de-duplication of sequences |
| `text.dfy` | `Text` | `std::string::find`, substring containment, `replace_all_distinct`, quote doubling |
| `fields.dfy` | `Fields` | the `#-_-#` vector encoding, its decoder, decimal rendering of counts |
| `catalog.dfy` | `Catalog` | `ConfigData`, both `getDomainProjectName` variants, `getDomainProjectID`, `isOutProjectDef` |
| `aggregator.dfy` | `Aggregator` | `CallInfo`, `CallData` and `addCallExpression` (src, in memory) |
| `store.dfy` | `Store` | an SQLite table as a sequence of keyed rows; `cb_get_info`, `update … where`, the counter upsert, the `#a#b#` list step |
| `recorder.dfy` | `Recorder` | the six ehminer tables and `addBranchCall`, `addPrebranchCall`, `addPostbranchCall`, `addCallGraph`, `addFunctionCall` |

Modelling decisions:

- **Tables.** A table is a sequence of `(key, value)` rows in insertion order.
  The key is the set of columns of the statement's `where` clause. Nothing
  makes the key unique, so duplicate rows can be expressed. `Select` models
  what `cb_get_info` leaves behind: the first matching row, plus a flag
  telling whether a second matching row made the callback return
  `SQLITE_ERROR`. The flag does not undo the first row's values.
- **`branch_call` rows** hold the text each value has inside the insert
  statement. For the quote-doubled columns, `ReadLiteral` is SQL's reading of
  a quoted literal, and the model proves that it gives back the encoding.
- **Capacity.** `MAX_PROJECT` is declared in a header that is not part of
  this model, so it is the parameter `maxProject`.
- **Naming of the two classifier variants.**
  - `TrailingSeparator` is the ehminer rule, which looks for `/name/`.
  - `PrefixOnly` is the src rule, which looks for `/name`.

Two facts about the vector encoding that a reader might not expect:

- The placeholder `-` stands for an empty vector, but the code also writes it
  for `[""]` and for `["-"]`. `Fields.EncodeCollisions` and
  `Fields.DecodeEncode` state this exactly.
- The separator round trip holds for elements with no `#`. It does not hold
  for every element that merely avoids `#-_-#`
  (`Fields.SeparatorFreeIsNotEnough`).

Two lines of the source are evidently wrong (see Findings). For each, the
model keeps a definition of the line as written and proves what it does. The
operations use the corrected definition, so that the properties proved about
them are the ones the tools are meant to have:

- the argument-type column of `branch_call`. `Recorder.TypeColumnAgrees`
  shows the two definitions store the same text whenever `logArgTypeVec` and
  `logArgVec` have the same length, as the AST visitor fills them;
- `getDomainProjectID`. `Catalog.AsWrittenAgreesOnDistinctDomains` shows the
  two agree whenever no domain name is repeated.

## Model

| member | source | states |
|---|---|---|
| Text.Find | clang-ehminer/src/DataUtility.cpp:110 | `find(w, from)` returns the least position at or after `from` where `w` occurs, or `npos` when there is none |
| Text.FindContains | src/DataUtility.cpp:518 | a `find(...) != npos` test is substring containment |
| Text.ReplaceAllDistinct | clang-ehminer/src/DataUtility.cpp:107-115 | the scan-and-skip loop terminates even when the replacement contains the pattern; its result is the left-to-right, non-overlapping replacement of every occurrence |
| Text.EscapeIsDoubling | clang-ehminer/src/DataUtility.cpp:107-115 | replacing `'` by `''` doubles each quote and keeps every other character |
| Text.EscapeDoublesQuotes | clang-ehminer/src/DataUtility.cpp:260-267 | the escaped text has exactly twice as many quotes as the input |
| Text.UnescapeEscape | clang-ehminer/src/DataUtility.cpp:260-267 | collapsing `''` back to `'` recovers the input exactly |
| Fields.EncodeVectorField | clang-ehminer/src/DataUtility.cpp:174-246 | the encoding loop with a separator test against `align - 1`. With `align` equal to the vector's size it gives the standard encoding. For a non-empty vector with `align` 0 or larger than its size it leaves a trailing separator |
| Fields.LoopJoinAligned | clang-ehminer/src/DataUtility.cpp:174-179 | when the separator test uses the vector's own last index, the loop builds the elements joined by `#-_-#` |
| Fields.LoopJoinTrailing | clang-ehminer/src/DataUtility.cpp:210-215 | when the test index lies beyond the loop (or wraps below 0), every element, the last included, is followed by the separator |
| Fields.MisalignedTypeColumn | clang-ehminer/src/DataUtility.cpp:210-217 | one argument type with two log arguments is stored as `int#-_-#` and reads back as `["int", ""]`; the correct encoding reads back as `["int"]` |
| Fields.SplitJoin | clang-ehminer/src/DataUtility.cpp:174-179 | splitting the join of a non-empty vector of `#`-free elements on `#-_-#` recovers the vector |
| Fields.DecodeEncode | clang-ehminer/src/DataUtility.cpp:174-246 | for `#`-free elements, decoding the stored field recovers the vector exactly when the vector is neither `[""]` nor `["-"]` |
| Fields.EncodeCollisions | clang-ehminer/src/DataUtility.cpp:180-181 | `[]`, `[""]` and `["-"]` are all stored as `-`, and `-` reads back as `[]` |
| Fields.SeparatorFreeIsNotEnough | clang-ehminer/src/DataUtility.cpp:174-181 | two elements that each lack `#-_-#` can form it across their boundary, and the split then returns different elements |
| Fields.EscapeJoin | clang-ehminer/src/DataUtility.cpp:174-179 | doubling the quotes of a joined field equals joining the quote-doubled elements |
| Fields.EscapeEncode | clang-ehminer/src/DataUtility.cpp:174-267 | escaping an encoded field equals encoding the escaped elements, because neither the separator nor the placeholder holds a quote |
| Fields.ParseNatToDecimal | clang-ehminer/src/DataUtility.cpp:248-257 | a count written with `%lu` parses back to the same number |
| Fields.ParseIntToDecimal | clang-ehminer/src/DataUtility.cpp:227-237 | a number written with `%d` is a signed decimal that parses back to the same number, negative numbers included |
| Fields.PathNumbersRoundTrip | clang-ehminer/src/DataUtility.cpp:227-237 | the `%d`-rendered path numbers, joined and read back, give the same texts, and each text parses back to its number |
| Catalog.EmptyConfig | src/DataUtility.cpp:28-30 | the catalog starts with no domains and equal-length name tables |
| Catalog.AddDomainName | src/DataUtility.cpp:33-37 | appends the domain with an empty project list, keeps both tables the same length, and leaves existing entries alone |
| Catalog.AddProjectName | src/DataUtility.cpp:40-42 | appends the project to the given domain's list only; the caller must pass an existing domain index |
| Catalog.FirstProject | clang-ehminer/src/DataUtility.cpp:594-603 | the inner loop finds the least project index at or after `j` whose pattern occurs in the path, or reports that none does |
| Catalog.LocateFromChoice | clang-ehminer/src/DataUtility.cpp:588-607 | the outer loop picks the least domain that is mentioned and has a mentioned project, skipping a mentioned domain with no mentioned project, and fails exactly when no domain qualifies |
| Catalog.ClassifierChoice | clang-ehminer/src/DataUtility.cpp:581-608 | `getDomainProjectName` returns the first qualifying (domain, project) pair in catalog order, or `("", "")` when no domain qualifies; a catalog that registers an empty name can also yield `("", "")` from a qualifying pair |
| Catalog.TrailingImpliesPrefix | src/DataUtility.cpp:455-461 | every path the ehminer rule (`/name/`) accepts is also accepted by the src rule (`/name`) |
| Catalog.PrefixMatchesLongerSegment | src/DataUtility.cpp:455 | the src rule takes the domain `lib` for the path `/libX/a.c`, where the ehminer rule does not |
| Catalog.SearchMovesPastDomain | clang-ehminer/src/DataUtility.cpp:588-604 | a mentioned domain with no mentioned project is passed over in favour of a later domain |
| Catalog.OffsetMonotone | src/DataUtility.cpp:505-507 | the global offset of a later domain is at least the offset of an earlier one plus that domain's project count |
| Catalog.GlobalIDInjective | src/DataUtility.cpp:495-507 | distinct catalog positions get distinct global project IDs |
| Catalog.AddProjectShiftsLaterIDs | src/DataUtility.cpp:40-42 | adding a project to domain k raises the offset of every later domain by one and leaves earlier ones unchanged |
| Catalog.AddDomainKeepsIDs | src/DataUtility.cpp:33-37 | adding a domain leaves every existing offset unchanged |
| Catalog.FindPair | src/DataUtility.cpp:489-503 | the first domain named `d` whose list holds `p`, with the first index of `p` in that list |
| Catalog.GetDomainProjectID | src/DataUtility.cpp:478-513 | `(-1, -1)` exactly when no domain named `d` lists `p`; otherwise `(i, offset(i) + j)`, where `i` is the first such domain and `j` the first index of `p` in its list |
| Catalog.GetDomainProjectIDAsWritten | src/DataUtility.cpp:478-513 | the code as written reports a domain ID exactly when some domain named `d` lists `p`, and that domain is named `d` and lists `p`; the domain and project IDs are `-1` together |
| Catalog.IDScanMisses | src/DataUtility.cpp:489-512 | when no domain is named `d`, the scan returns `(-1, -1)` |
| Catalog.IDScanAgrees | src/DataUtility.cpp:489-512 | with distinct domain names, the scan from any domain on reports the same pair as the intended search from there |
| Catalog.AsWrittenAgreesOnDistinctDomains | src/DataUtility.cpp:478-513 | with distinct domain names, the code as written agrees with `GetDomainProjectID` |
| Catalog.RepeatedDomainCollides | src/DataUtility.cpp:489-507 | for any `x ≠ y` and catalog `a → [x]`, `a → [y]`, the code as written gives `(a, y)` the pair `(1, 0)`, the same global project ID as `(a, x)`'s `(0, 0)`, while the intended ID is `(1, 1)` |
| Catalog.LocatedPairIDs | src/DataUtility.cpp:448-513 | the pair the classifier returns always has an ID, namely its catalog position with its global offset |
| Catalog.OutProjectDefByFind | src/DataUtility.cpp:516-522 | a definition counts as in-project exactly when both `find("/"+domain)` and `find("/"+project)` succeed |
| Catalog.InProjectDefinition | src/DataUtility.cpp:448-475 | a definition whose own path classifies to a pair is never outside that pair's project |
| Catalog.OutOfProjectScenario | src/DataUtility.cpp:516-522 | a call classified in `projA/libX` whose definition is under `/usr/include` counts as out-of-project |
| Seqs.BumpBucket | src/DataUtility.cpp:271-277 | one more call in a bucket adds one to the bucket sum, and adds one to the non-zero count exactly when the bucket was empty |
| Aggregator.EmptyCallInfo | src/DataUtility.cpp:82-92 | a fresh record has zero-filled buckets of capacity `maxProject` and counters that agree with them |
| Aggregator.FirstObservation | src/DataUtility.cpp:250-263 | the first record has total, distinct domains and distinct projects all 1, exactly one domain bucket and one project bucket at 1, `multiDef` false, and the out-of-project flag as computed |
| Aggregator.Bump | src/DataUtility.cpp:271-277 | one more call in the given buckets keeps the record's totals, sums and distinct counts consistent |
| Aggregator.RecordDefinition | src/DataUtility.cpp:278-282 | afterwards the definition list contains the new location; it is extended by `#` and the location only when the location was not already a substring |
| Aggregator.RecordDefinitionKeeps | src/DataUtility.cpp:278-282 | nothing already in the definition list is lost |
| Aggregator.Observe | src/DataUtility.cpp:266-285 | a repeat call adds one to the total and to its two buckets, and grows a distinct count only for an empty bucket. Every other bucket is unchanged. The definition list is the old list, with `#` and the location appended only when the location is new. It sets `multiDef` exactly when the definition was new, and only ever turns the two flags on |
| Aggregator.ClassifyCall | src/DataUtility.cpp:212-227 | the call site's classification is used when it resolves; otherwise the definition's when that resolves; the result is empty exactly when neither resolves |
| Aggregator.ObservationOf | src/DataUtility.cpp:213-239 | what a call contributes: the IDs of its classified pair, its definition location and the out-of-project flag for that pair; it contributes exactly when it classifies |
| Aggregator.Record | src/DataUtility.cpp:242-285 | storing an observation keeps the tables valid. A new name's record (the first-call record) is appended under the next index. A known name's record is observed again in place. Every other name keeps its index and record |
| Aggregator.AddCallExpression | src/DataUtility.cpp:206-285 | keeps the tables valid. It stores a call exactly when it classifies and both IDs are below `maxProject`, and otherwise leaves the tables as they were. A stored call gives the name the first-call record or its old record observed again, at the IDs of its classified pair. Every other name keeps its index and record |
| Aggregator.AddCallExpressionFirst | src/DataUtility.cpp:243-263 | a stored first call appends exactly the first-call record under the next 1-based index: one call, counted in the bucket of the classified domain ID and of the classified project ID, one domain, one project, the definition as given, no `multiDef`, and the computed out-of-project flag |
| Aggregator.AddCallExpressionAgain | src/DataUtility.cpp:266-285 | a stored repeat call replaces the name's record by that record observed at the classified IDs: one more call in each of the two buckets, a distinct count grown for an empty bucket, `multiDef` set when the definition is new, the flag OR'd. Other records and the index are unchanged |
| Aggregator.ClassifiedCallsHaveIDs | src/DataUtility.cpp:229-236 | a classified pair always has an ID, so the `-1` drop is never taken |
| Aggregator.DropConditions | src/DataUtility.cpp:213-240 | the drop outcomes are: the unknown-ID drop never; the over-capacity drop exactly when a classified pair's ID reaches `maxProject` |
| Aggregator.History | src/DataUtility.cpp:243-285 | after any run of observations of one name, the record is consistent and its total is the number of observations |
| Aggregator.HistoryBuckets | src/DataUtility.cpp:256-277 | each domain and project bucket holds the number of observations with that ID |
| Aggregator.HistoryDistinct | src/DataUtility.cpp:253-275 | the distinct-domain and distinct-project counts are the numbers of distinct IDs observed |
| Aggregator.HistoryDefinitions | src/DataUtility.cpp:258-282 | every observed definition location is a substring of the stored list |
| Aggregator.HistoryOutOfProject | src/DataUtility.cpp:260-284 | the out-of-project flag is set exactly when some observation was out of project |
| Aggregator.RunHistory | src/DataUtility.cpp:206-285 | after any run of `addCallExpression` from tables without the name, the name has a record exactly when one of its calls was stored, and that record is the `History` fold of its stored observations |
| Store.SelectFirst | clang-ehminer/src/DataUtility.cpp:118-146 | the callback keeps the first matching row in insertion order; it reports a duplicate exactly when another matching row follows; it finds nothing exactly when no row matches |
| Store.SelectAppend | clang-ehminer/src/DataUtility.cpp:118-146 | an inserted row is selected only when no earlier row has its key, and otherwise turns the selection into a duplicate |
| Store.UpdateWhere | clang-ehminer/src/DataUtility.cpp:346 | `update … where key` rewrites the value of every matching row and no other row |
| Store.SelectUpdate | clang-ehminer/src/DataUtility.cpp:346 | after an update the key selects the new value with the same duplicate flag; other keys select what they did before |
| Store.BumpCounter | clang-ehminer/src/DataUtility.cpp:321-355 | a new key gets one row holding 1; otherwise every matching row gets the first row's count plus one |
| Store.BumpCounterSelect | clang-ehminer/src/DataUtility.cpp:321-355 | an upsert raises the key's selected count by one (a new key selects 1) and changes no other key's selection |
| Store.CountersCount | clang-ehminer/src/DataUtility.cpp:546-576 | after any run of upserts, a key absent at the start selects the number of calls made with it, with no duplicate |
| Store.CountersSingleRow | clang-ehminer/src/DataUtility.cpp:321-355 | N upserts of one new key leave the table as it was plus a single row holding N |
| Store.DuplicateRowsResync | clang-ehminer/src/DataUtility.cpp:336-355 | with duplicate rows, an upsert writes the first row's count plus one into all of them, and the duplicate is still reported |
| Store.Wrapped | clang-ehminer/src/DataUtility.cpp:403-420 | the caller list the appends build always ends with `#` |
| Store.PostStepSelect | clang-ehminer/src/DataUtility.cpp:396-439 | a new key starts at `#name#` with both counts 1. A listed name adds one to the total only. An unlisted name is appended and adds one to both counts. Other keys are unaffected |
| Store.ListedIff | clang-ehminer/src/DataUtility.cpp:419 | for names without `#`, the `find("#"+name+"#")` test succeeds exactly when the name is in the list |
| Store.SummaryStep | clang-ehminer/src/DataUtility.cpp:413-439 | for `#`-free names, one more call moves the summary of a caller sequence (the `#`-wrapped distinct callers, their number, the number of calls) to the summary of the extended sequence |
| Store.PostCallsInvariant | clang-ehminer/src/DataUtility.cpp:396-439 | over any run of calls with `#`-free names, a key absent at the start holds the distinct callers in first-seen order between `#`s, their number, and the number of calls |
| Store.RepeatCallerCountsOnce | clang-ehminer/src/DataUtility.cpp:419-423 | repeating a listed caller adds 1 to the total and 0 to the distinct count |
| Store.WrappedIsJoin | clang-ehminer/src/DataUtility.cpp:403-420 | the list is `#`, the names joined by `#`, and `#` |
| Recorder.BranchRowReadsBack | clang-ehminer/src/DataUtility.cpp:174-269 | each count column parses back to its vector's length. Each quote-doubled column reads back as its field's encoding. The argument vector decodes back to itself unless it collides with the placeholder. The path numbers read back |
| Recorder.BranchRowEscapesElements | clang-ehminer/src/DataUtility.cpp:259-267 | each of the six quote-doubled vector columns (call arguments, log arguments, return, expression nodes, expression texts, case labels) equals the encoding of its quote-doubled elements |
| Recorder.AddBranchCall | clang-ehminer/src/DataUtility.cpp:149-280 | an unclassified call site writes nothing; a classified one appends exactly the row `BranchRowOf` builds for the classified names, and touches no other table |
| Recorder.TypeColumnAgrees | clang-ehminer/src/DataUtility.cpp:210-215 | the argument-type column as written equals the corrected one when the two log vectors have the same length, and ends in a stray separator when `logArgVec` is longer |
| Recorder.AddPrebranchCall | clang-ehminer/src/DataUtility.cpp:283-357 | an unclassified call site writes nothing; otherwise `NumLogTime` for the six-column key goes up by one (starting at 1), and no other key or table changes |
| Recorder.AddPostbranchCall | clang-ehminer/src/DataUtility.cpp:360-441 | an unclassified call site writes nothing. Otherwise the key's row is the list step applied to what it selected before: a new key starts at `#name#` with both counts 1, a listed caller adds one to the total only, an unlisted one is appended and adds one to both. A well-formed list stays well-formed and then lists the caller. No other key or table changes |
| Recorder.PostStepKeepsClosed | clang-ehminer/src/DataUtility.cpp:403-420 | every list the step writes ends with `#` |
| Recorder.PostStepListed | clang-ehminer/src/DataUtility.cpp:413-423 | after the step on a well-formed table, the caller is listed for its key |
| Recorder.AddCallGraph | clang-ehminer/src/DataUtility.cpp:444-478 | an unclassified call site writes nothing; a classified one appends exactly one edge, never merged with an equal edge |
| Recorder.AddFunctionCall | clang-ehminer/src/DataUtility.cpp:481-578 | an unclassified call site writes nothing. Otherwise it appends one `function_call` row whose escaped call text reads back exactly, raises `CallNumber` for the key by one, and changes nothing else |
| Recorder.FunctionCallsNotDeduplicated | clang-ehminer/src/DataUtility.cpp:504-576 | the same call reported twice gives two equal `function_call` rows and a count of 2 |
| Recorder.RunFunctionCallIsCounters | clang-ehminer/src/DataUtility.cpp:481-578 | a run of `addFunctionCall` appends one `function_call` row per classified call, never merged, and is one `call_statistic` upsert per classified call; no other table changes |
| Recorder.RunFunctionCallCounts | clang-ehminer/src/DataUtility.cpp:535-576 | after any run, `CallNumber` for a key absent at the start is the number of classified calls with that key, in a single row |
| Recorder.RunPrebranchIsCounters | clang-ehminer/src/DataUtility.cpp:283-357 | a run of `addPrebranchCall` is one counter upsert per classified call and changes no other table |
| Recorder.RunPrebranchCounts | clang-ehminer/src/DataUtility.cpp:313-355 | after any run, `NumLogTime` for a key absent at the start is the number of classified calls with that key, in a single row |
| Recorder.RunPostbranchIsPostCalls | clang-ehminer/src/DataUtility.cpp:360-441 | a run of `addPostbranchCall` is one list step per classified call and changes no other table |
| Recorder.RunPostbranchInvariant | clang-ehminer/src/DataUtility.cpp:390-439 | after any run with `#`-free callee names, a key absent at the start holds `#` + distinct callers joined by `#` + `#`, their number, and the number of calls |

## Left out

- SQLite plumbing is not modelled: opening and closing the database, `create table`, `create index`, and the SQL statement text. A failing statement other than the duplicate-row callback error is not modelled either. A table is a sequence of keyed rows.
- Several values go into SQL literals without quote doubling: the names, paths, the argument types and the path numbers. The model assumes these hold no `'`. With a quote, the real statement fails or is misparsed.
- `sprintf`/`atoi` through `char[10]` buffers and 32-bit `int` counters are not modelled. Counts are unbounded naturals, so overflow of the buffer or of the counter is out of scope.
- The `#ifdef SQLITE` mirror of `addCallExpression` into `function_info` (src/DataUtility.cpp:173-203 and 288-442) is not modelled. It performs database I/O and repeats the in-memory update rules.
- `call2index[callName]` is read with `operator[]`, which inserts a 0 entry for an unseen name. The model reads a missing name as 0 without inserting it. Only calls that reach the recording step can observe the map, and they set the entry immediately.
- Printing is not modelled (`ConfigData::printName`, `CallInfo::print`, `CallData::print`): it is output formatting only.
- src/DummyAction.h is not part of this model. It holds the Clang AST visitor that calls these operations, which is traversal glue.
- `getDomainName`/`getProjectName` are not modelled as separate members. They return copies of the catalog, and the model reads the catalog's fields directly.
- Recorder.AddBranchCall: stores the argument-type column with the corrected encoding rather than the loop as written (see Findings). The properties of the stored row should hold of the tool as intended. The line as written is `Recorder.TypeColumnAsWritten`, and the two agree whenever the log vectors have equal lengths (`Recorder.TypeColumnAgrees`).
- Aggregator.AddCallExpression: uses the corrected `getDomainProjectID` (see Findings), so the bucket properties hold with distinct IDs for distinct projects. The two agree when domain names are distinct (`Catalog.AsWrittenAgreesOnDistinctDomains`); `Catalog.RepeatedDomainCollides` shows the as-written IDs otherwise.
- Store.PostCallsInvariant: stated only for callee names without `#`. A name containing `#` can make the membership test match across list entries. C and C++ identifiers never contain `#`.

## Findings

| source | as written | input that shows it | evidently intended | confidence | as-written member | corrected member |
|---|---|---|---|---|---|---|
| clang-ehminer/src/DataUtility.cpp:213 | the separator test for `logArgTypeVecStr` compares the index with `logArgVec.size() - 1` | `logArgVec` with two entries and `logArgTypeVec = ["int"]`: the column is `int#-_-#` and reads back as `["int", ""]` | compare with `logArgTypeVec.size() - 1`, as every other vector field does | not executed; the two vectors are normally filled side by side, so the mismatch needs inputs where their lengths differ | Fields.MisalignedTypeColumn | Fields.DecodeEncode |
| src/DataUtility.cpp:489-507 | a domain whose name matches but whose list lacks the project adds nothing to `projID` | catalog `a → [x]`, `a → [y]`: `(a, y)` gets `(1, 0)` and `(a, x)` gets `(0, 0)`, the same global project ID | add the size of every domain passed over, so IDs stay distinct (`Catalog.GlobalIDInjective`) | not executed; needs a catalog with a repeated domain name | Catalog.RepeatedDomainCollides | Catalog.GetDomainProjectID |
