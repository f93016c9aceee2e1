# BugBot core, modelled in Dafny

BugBot is a small web service for Python source files. It:

1. runs pylint on an uploaded file;
2. drops the formatting and docstring diagnostics it does not care about;
3. groups the remaining diagnostics by message id;
4. explains each group, either from a built-in table or by asking a local language model;
5. appends every explained group, with a timestamp, to a JSON history file that can be cleared.

Its `uploads/` folder also holds an exhaustive travelling-salesman solver, `bfs_dfs.py`. It grows every simple path from a start vertex, breadth-first with a queue or depth-first with a stack. It closes each complete path into a round trip and keeps the first cheapest one.

The project models both parts.

| file | module | models |
|---|---|---|
| `sequences.dfy` | `Sequences` | Generic facts about sequences shared by the other modules: distinct elements, and a few identities of concatenation. |
| `diagnostics.dfy` | `Diagnostics` | The pylint diagnostic, group and result records, the ignored ids, and `sorted(set(lines))`. |
| `linter.dfy` | `Linter` | `run_pylint_analysis`: the subprocess outcome and the JSON decoder are parameters; `str.strip` is written out. |
| `grouping.dfy` | `Grouping` | The loop that fills `grouped_errors`, as a method over a key order and a map. It is proved equal to a declarative description: kept ids, first index, first message, lines of an id. Grouping the flattened groups again gives the same groups. |
| `explainer.dfy` | `Explainer` | `explain_error`: the table, the prompt text, and the model as a function from prompt to `Ok(content)` or `Fail`. |
| `history.dfy` | `History` | The history file as a `HistoryStore` object whose state is what `json.load` would see (missing, a list of records, not JSON, JSON but not a list). Covers `init_history`, `save_to_history` and the clear handler. How each file operation goes, and whether a rewrite leaves a tail of the old text behind, are parameters. |
| `pipeline.dfy` | `Pipeline` | The analysis request from the pylint output on: grouping, then explaining and saving each result in turn. The clock and the disk are parameters. |
| `tour_spec.dfy` | `TourSpec` | The search tree of simple paths from `start`, listed in the order both searches meet their complete paths. Also the strict-`<` "keep the cheapest" scan, and what the result of a search is. |
| `tour_search.dfy` | `TourSearch` | `calculate_cost`, `bfs_tsp` and `dfs_tsp` as imperative methods on a queue and a stack. Each is proved to return the result `TourSpec` describes, so both searches return the same path and cost. |

Notes on the model:

- **History writes follow the code.** The history file is opened with `'r+'` and rewritten in place: `seek(0)` and then `json.dump`, with no truncation. A rewrite that stops after changing the text leaves text that is not JSON, and every earlier record is lost. A stop before any character changed leaves the file as it was. The next save that goes through writes a one-record list over the start of the broken text. The file becomes readable again only if that list reaches past the end of the broken text. Otherwise the tail survives and the file stays unreadable (`History.InterruptedSaveLosesHistory`, `Pipeline.TailKeepsHistoryUnreadable`).
- **The diagonal edge counts.** Both searches append `start` to a complete path before calling `calculate_cost`. `calculate_cost` then adds the edge from the last vertex back to the first one, which is `graph[start][start]`. So a tour's reported cost is its cycle cost plus the diagonal entry of `start`. `TourSpec.TourCostIsCycle` states this.

## Model

| member | source | states |
|---|---|---|
| Diagnostics.SortedSet | BugBot/main.py:153 | The normalised lines are strictly ascending and hold exactly the values of the input lines. |
| Diagnostics.Insert | BugBot/main.py:153 | Inserting into a strictly ascending list keeps it strictly ascending and adds exactly that one value. |
| Diagnostics.AscendingUnique | BugBot/main.py:153 | Two strictly ascending lists with the same elements are equal, so `sorted(set(...))` depends only on the set of lines. |
| Diagnostics.SortedSetIdempotent | BugBot/main.py:153 | Normalising already normalised lines changes nothing. |
| Diagnostics.SortedSetOfSameElements | BugBot/main.py:153 | Line lists with the same values normalise to the same list, whatever their order or repetitions. |
| Linter.Strip | BugBot/main.py:54 | The stripped output is a slice of the output with only whitespace cut off either end, and it neither starts nor ends with whitespace. |
| Linter.StripEmptyIffBlank | BugBot/main.py:54 | Stripping leaves nothing exactly when the output is all whitespace. |
| Linter.StripIdempotent | BugBot/main.py:54 | Stripping twice is stripping once. |
| Linter.RunPylintAnalysis | BugBot/main.py:43-60 | A timed-out or failed run gives no diagnostics, and so does blank output. Otherwise the result is the decoded stripped output, or nothing when decoding fails. |
| Grouping.KeptIds | BugBot/main.py:127-139 | The group keys are distinct. An id is a key exactly when some diagnostic carries it (a missing id counts as "") and it is not ignored. |
| Grouping.FirstIndex | BugBot/main.py:132-137 | Gives the position of a diagnostic with the id, and no earlier diagnostic has that id. |
| Grouping.LinesOfMembers | BugBot/main.py:132-139 | A group's raw lines are exactly the lines of the diagnostics with its id. |
| Grouping.GroupDiagnostics | BugBot/main.py:125-139 | The dict built diagnostic by diagnostic equals the declarative grouping: one group per kept id in insertion order, with the first message and all the lines. |
| Grouping.GroupedIds | BugBot/main.py:127-130 | There is a group for an id exactly when the input has that id and it is not in the ignored set. |
| Grouping.GroupedInFirstSeenOrder | BugBot/main.py:132-137 | Groups are distinct and ordered by the first appearance of their ids. |
| Grouping.GroupContents | BugBot/main.py:132-139 | A group's message is that of the first diagnostic with its id. Its lines are exactly the lines of the diagnostics with that id. |
| Grouping.GroupingIdempotent | BugBot/main.py:127-139 | Writing the groups back out as diagnostics, one per line with the group's id and message, and grouping those again gives the same groups. |
| Grouping.RegroupFlatten | BugBot/main.py:127-139 | Any groups with distinct, non-ignored ids and at least one line each are exactly what grouping their flattening gives. |
| Explainer.Prompt | BugBot/main.py:67-72 | The prompt is the fixed text with the id and the message inserted verbatim at fixed places. |
| Explainer.PromptInjective | BugBot/main.py:67-72 | Given the id length, the prompt determines the id and the message it was built from. |
| Explainer.Explain | BugBot/main.py:62-82 | A table id gets its table text. Any other id gets the model's reply to the prompt, or "Explanation service unavailable." when the call fails. |
| Explainer.TableIgnoresEverythingElse | BugBot/main.py:62-64 | For a table id, the explanation depends on nothing else: not the message, the code, or the model. |
| Explainer.ExplanationDependsOnPromptReply | BugBot/main.py:62-82 | The explanation depends only on the model's reply to this one prompt; the code snippet never matters. |
| Explainer.UnavailableMeansFailure | BugBot/main.py:62-82 | The fallback text appears only for a non-table id whose model call failed, or whose model answered with that very text. |
| History.Initialized | BugBot/main.py:38-41 | Initialising acts only on a missing file: it then holds an empty list, nothing if creating it fails, or text that is not JSON if the dump stops part-way. What a save would load never changes. |
| History.InitIdempotent | BugBot/main.py:38-41 | Once initialising has succeeded, initialising again changes nothing, whatever its outcome. |
| History.HistoryStore.InitHistory | BugBot/main.py:38-41 | The file becomes the initialised file for the outcome of the creation and dump. |
| History.HistoryStore.SaveToHistory | BugBot/main.py:84-100 | The file becomes `AfterSave` of the old file, the stamped record and the save's outcome (initialisation, rewrite, overlap with the old text); no error reaches the caller. |
| History.AfterClear | BugBot/main.py:188-195 | A successful clear of an existing file leaves an empty list, a write that stops part-way leaves it unreadable, and a failure before writing leaves it as it was. A missing file stays missing. |
| History.HistoryStore.ClearHistory | BugBot/main.py:188-195 | An existing file becomes an empty list, or unreadable if the write stops part-way. A missing file stays missing. |
| History.SaveAppends | BugBot/main.py:86-98 | A save that goes through, on a list, a missing file, or a non-JSON file whose text the new list covers, leaves a list: every record it loaded, then the new one. |
| History.FailedSaveChangesNothing | BugBot/main.py:84-100 | A save that fails before writing, or whose initialisation of a missing file raises, leaves what the next save loads unchanged, and leaves an existing file as it was. |
| History.NotAListIsStuck | BugBot/main.py:88-95 | A file that is JSON but not a list is never repaired: every save to it is dropped. |
| History.InterruptedSaveLosesHistory | BugBot/main.py:87-98 | A rewrite that stops part-way leaves the file unreadable. The next save that goes through gives a one-record list if its text covers the broken text, and leaves the file unreadable otherwise. |
| History.UntruncatedSaveKeepsTail | BugBot/main.py:87-98 | A save that goes through on an unreadable file whose text outlasts the new list leaves the file unreadable, so the new record is lost. |
| History.TruncatingSaveAppends | BugBot/main.py:87-98 | With a truncate after the dump, a save that goes through always leaves a readable list: the records it loaded followed by the new one. |
| History.ClearThenSave | BugBot/main.py:190-192 | After a successful clear, a save whose rewrite succeeds and covers the old text leaves exactly the new record. |
| Pipeline.Analyze | BugBot/main.py:125-158 | The results are one per group, in group order, each with its sorted distinct lines and its explanation. The history file is the old file after saving each result in turn. |
| Pipeline.ResultsCoverInput | BugBot/main.py:127-155 | There is a result for an id exactly when the input has it and it is not ignored. |
| Pipeline.ResultContents | BugBot/main.py:143-155 | Each result has the message of the first diagnostic with its id. Its lines are strictly ascending and are exactly the lines with that id. Its explanation is `Explain` of its id and message. |
| Pipeline.ResultsInFirstSeenOrder | BugBot/main.py:143-155 | Results have distinct ids, ordered by the first appearance of each id in the pylint output. |
| Pipeline.HistoryGrowsByResults | BugBot/main.py:141-158 | When every rewrite succeeds and covers the old text, and a missing file is created successfully by the first save, on a list, a missing file or a non-JSON file, the history is its old records followed by the stamped results in order. |
| Pipeline.HistoryKeptWithoutTornWrites | BugBot/main.py:141-158 | Without a save that stops part-way or leaves a tail of the old text, no earlier record is lost. |
| Pipeline.TailKeepsHistoryUnreadable | BugBot/main.py:141-158 | On an unreadable file whose text outlasts every new one-record list, the file stays unreadable through the whole request. |
| TourSpec.TourCostIsCycle | BugBot/uploads/bfs_dfs.py:16-17 | The cost computed for a tour is its cycle cost plus `graph[start][start]`. |
| TourSpec.ExtendSound | BugBot/uploads/bfs_dfs.py:13-25 | Every path the search tree below a path lists is a tour extending that path. |
| TourSpec.ExtendComplete | BugBot/uploads/bfs_dfs.py:13-25 | Every tour extending a path is listed in the search tree below it. |
| TourSpec.ToursExactly | BugBot/uploads/bfs_dfs.py:13-25 | The enumeration lists exactly the tours from `start`: simple paths through all vertices. |
| TourSpec.EmptyGraphHasNoTours | BugBot/uploads/bfs_dfs.py:8-27 | The empty graph has no tours. |
| TourSpec.ToursExist | BugBot/uploads/bfs_dfs.py:8-27 | There are tours exactly when the graph is not empty. |
| TourSpec.TourIsPermutation | BugBot/uploads/bfs_dfs.py:15-16 | A complete simple path visits every vertex exactly once. |
| TourSpec.MinIndex | BugBot/uploads/bfs_dfs.py:18-20 | The strict-`<` scan settles on the least cost, with every earlier cost strictly greater. |
| TourSpec.MinIndexSnoc | BugBot/uploads/bfs_dfs.py:18-20 | A new last cost takes over only when strictly lower than the best so far. |
| TourSpec.BestIsFirstCheapest | BugBot/uploads/bfs_dfs.py:18-20 | Scanning a list of tours keeps the first cheapest one, at its computed cost. |
| TourSpec.SearchResultIsOptimal | BugBot/uploads/bfs_dfs.py:8-27 | The empty graph gives `[]` and infinity. Otherwise the result is a round trip through every vertex, at its computed cost, and no tour from `start` is cheaper. |
| TourSpec.SearchResultKeepsFirstCheapest | BugBot/uploads/bfs_dfs.py:18-20 | On ties the tour met first in the enumeration is kept. |
| TourSearch.CalculateCost | BugBot/uploads/bfs_dfs.py:1-6 | The cost is the sum of consecutive edges plus the edge from the last vertex back to the first. |
| TourSearch.BfsTsp | BugBot/uploads/bfs_dfs.py:8-27 | Returns the search result. For a non-empty graph that is a round trip through every vertex, at its computed cost, and no tour is cheaper. |
| TourSearch.BfsClose | BugBot/uploads/bfs_dfs.py:13-20 | Popping a complete path closes the next tour of the enumeration and updates the best result as the scan does. |
| TourSearch.BfsExpand | BugBot/uploads/bfs_dfs.py:13-25 | The new queue is the old tail followed by entries whose subtrees together are the subtree of the old head. The enumeration order of the remaining tours is kept and the work left shrinks. |
| TourSearch.Visit | BugBot/uploads/bfs_dfs.py:16-20 | Closing a tour and comparing with strict `<` advances the best-so-far scan by that tour. |
| TourSearch.EnqueueChildren | BugBot/uploads/bfs_dfs.py:22-25 | Appends the children `path + [i]`, for the vertices not on the path, by increasing `i`. Their subtrees together are the subtree of the path. |
| TourSearch.DfsTsp | BugBot/uploads/bfs_dfs.py:29-48 | Returns the same search result as `BfsTsp`, with the same guarantees. |
| TourSearch.PushChildren | BugBot/uploads/bfs_dfs.py:43-46 | Pushes the children from the highest vertex down, so the lowest is on top. Their subtrees, read from the top, are the subtree of the path. |

## Findings

| source | as written | input that shows it | evidently intended | confidence | as-written member | corrected member |
|---|---|---|---|---|---|---|
| BugBot/main.py:87-98 | The history file is opened with `'r+'`, and the new list is written from the start with `seek(0)` and `json.dump`. It is never truncated. | A file left unreadable by a rewrite that stopped part-way, longer than the one-record list the next save writes: that save goes through, yet the old tail stays after the new list and `json.load` keeps failing. | The file holds exactly the new list after a save that goes through (`f.truncate()` after the dump). | not executed | History.UntruncatedSaveKeepsTail | History.TruncatingSaveAppends |

The store and the request keep the code as written (`History.AfterSave`), so that their lemmas describe what the program does. `History.AfterTruncatingSave` is the corrected save.

## Left out

- The Flask application is not modelled: routes, templates, CORS, upload checks and deletion of the uploaded file.
- The `/history` page, which reads and reverses the file, is not modelled. Its JSON error is shown as an error page.
- The `datetimeformat` template filter is not modelled.
- The pylint subprocess is a `LintRun` parameter: its output, a timeout, or an error. Its stderr logging is not modelled.
- `json.loads` of pylint's output is a `Decoder` parameter. Output that decodes to something other than a list of diagnostic objects is not modelled.
- Linter.RunPylintAnalysis: a diagnostic whose `line` is missing (`None` in the source) cannot be represented, because lines are integers. In the source, sorting a group's lines raises when they mix `None` with integers, and the request then fails; a group whose lines are all `None` keeps `[None]`.
- Explainer.Explain: the language-model call is a function from prompt to reply. Its model name, timeout and message format are not modelled.
- JSON text, file bytes and the real clock are not modelled. The history file is its decoded content, and `datetime.now().isoformat()` is a clock parameter giving opaque strings.
- History.AfterSave: whether the old text outlasts the new list is an outcome of each save (`Overlap`), not computed from text lengths. So the model does not derive that a list the program wrote is always covered by the next, longer list, nor whether a later one-record list reaches past a tail left behind.
- History.IoOutcome: a rewrite that stops after changing the text is taken to leave text that is not JSON. A partial write that happens to be valid JSON is not modelled.
- Concurrent requests sharing the history file are not modelled, and neither are logging or the HTTP error responses.
- The example graph and the `print` calls at the end of `bfs_dfs.py` (lines 50-60) are not modelled.
- Edge weights are integers: `float('inf')` is the `Infinity` case of `Cost`, and weights that are floats or infinite are not modelled.
- TourSearch.BfsTsp: `start` is a natural number below the graph size. Python's negative indexing of `start`, and the `IndexError` for a start that is too large, are not modelled.
- TourSearch.DfsTsp: the same restriction on `start` as for `BfsTsp`.
- Linter.IsSpace: covers the characters for which `str.isspace()` holds in Python 3. Surrogate code points cannot occur in Dafny strings.
