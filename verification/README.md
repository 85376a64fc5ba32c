# EvalLite core, modelled in Dafny

EvalLite is a browser front end for comparing large language models. The user keeps:

- a library of prompt **tasks** (name, description, system prompt, user prompt, category, tags);
- a list of configured **models**, each with a provider, model id, API key and optional custom pricing;
- custom **categories** and saved **task chains**.

On the test page the user runs either one task, repeated, on every selected model, or a chain of tasks in which each step's prompt is derived from the previous step's output. Each finished run is kept in a ten-item history and can be exported as CSV. Tasks are imported from and exported to spreadsheets.

This project models the rule-bearing part of that front end:

- the local store's array operations, history buffer, categories, price lookup and score migration (`Storage`);
- the request each provider adapter builds and how replies are normalised (`ApiClient`);
- chain assembly, step prompts and the chain loop (`Chain`);
- the single-task grid, the dispatch between the two modes and the task picker's search (`Runner`);
- the CSV export of a run (`Csv`);
- spreadsheet import validation, duplicate renaming and task export (`ImportExport`);
- the model page (`ModelManager`) and the task page (`TaskManager`).

Shared pieces live in `Wrappers` (`Option`, `Result`), `Text` (trim, ASCII lower-case, split/join, replacement, CSV quoting, decimal rendering), `Seqs` (filter, subsequence, search) and `Entities` (the records).

Stores are in-memory sequences. The provider behind `fetch` is an oracle parameter:

- In `ApiClient` it is a `Request -> Reply` function.
- In the runners it is a `Caller` returning `Returned(result)` or `Threw(message)`. `callModel` itself never throws, so a thrown error is something outside it.

Clock readings, generated ids and `Date.now()` stamps are parameters. Prices are kept as opaque values: a literal, or the text the form held.

Two behaviours of the code are easy to misread:

- A chain step whose call returns `success: false` hands on `previousOutput = result.content`, which is `undefined`. The next step in `previous` mode then calls `includes` on `undefined`. That `TypeError` escapes the loop's `try` and abandons the whole evaluation (`Chain.StepPrompt` returns `None`, `Runner.ExecuteTaskChain` gives `Crashed`). In `concat` mode, and in `{{output}}` substitution, the text `undefined` is used.
- The task picker's search lower-cases and trims the term; the task page's list filter lower-cases it only.

## Model

| member | source | states |
|---|---|---|
| Storage.FindById | js/storage.js:273-276 | `get*` finds nothing exactly when no element has the id, else the first element with it |
| Storage.DeleteById | js/storage.js:264-268 | `delete*` keeps a subsequence with no element of that id, keeps every other element, and its length is the count of the others |
| Storage.DeleteByIdUnique | js/storage.js:67-71 | the three delete facts determine the result: any sequence with them is the delete |
| Storage.UpdateById | js/storage.js:246-259 | `update*` fails exactly when the id is absent; otherwise only the first element with the id is replaced |
| Storage.FindAfterUpdate | js/storage.js:325-338 | after an update, `get*` returns the updated element |
| Storage.AddTask | js/storage.js:230-241 | `addTask` appends one task with the given id, fields and time and leaves the rest unchanged |
| Storage.AddTaskThenGetDelete | js/storage.js:230-276 | a task added under a fresh id is what `getTask` returns, and deleting it restores the store |
| Storage.MergeTask | js/storage.js:250-254 | a task update overrides the named fields, keeps id and creation time, and sets `updatedAt` |
| Storage.UpdateTaskThenGet | js/storage.js:246-259 | updating an existing task and reading it back gives the merged task |
| Storage.AddModel | js/storage.js:51-61 | `addModel` appends the model under the generated id and creation time, the rest unchanged |
| Storage.MergeModel | js/storage.js:78-86 | a model update overrides the named fields and touches no timestamp |
| Storage.AddChain | js/storage.js:309-320 | `addChain` appends one chain with the given name and steps and both timestamps |
| Storage.MergeChain | js/storage.js:325-338 | a chain update overrides name and steps and sets `updatedAt` |
| Storage.SaveHistory | js/storage.js:92-113 | the new item goes first; the length grows by one below ten and stays put at ten; old items keep their order |
| Storage.SaveHistoryBounded | js/storage.js:13 | a history of at most ten items stays at most ten |
| Storage.SaveAllKeepsMostRecent | js/storage.js:92-113 | any run of saves leaves exactly the ten most recent items, newest first |
| Storage.AddCustomCategory | js/storage.js:866-885 | refused exactly when a name equal ignoring case exists; otherwise exactly one category is appended |
| Storage.CategoryNamesStayDistinct | js/storage.js:866-901 | adding and deleting categories keep custom names distinct ignoring case |
| Storage.GetAllCategories | js/storage.js:907-923 | six built-ins with distinct ids, `general` first, each named as the built-in name table names it and covering every id that table names; then every custom category in order, flagged custom |
| Entities.BuiltinCategoriesMatchNames | js/storage.js:907-923 | the built-in list and the table of Chinese names agree: distinct ids, each with its name, and no named id missing |
| Storage.GetModelPricing | js/storage.js:479-496 | custom pricing wins; otherwise the built-in entry for the model id (or legacy id), if any; else none |
| Storage.Lookup | js/storage.js:780-782 | a key is found exactly when the table has it, with an entry's value |
| Storage.Put | js/storage.js:786-788 | the written key then holds the value, every other key keeps its value, no key but the written one is added, and the first key stays in place |
| Storage.LastValue | js/storage.js:778-789 | a key has a value exactly when some entry writes it, and that value is the one its last such entry writes |
| Storage.PutAll | js/storage.js:776-805 | exactly the keys of the table and the entries; a key some entry writes holds the value of its last entry, any other key keeps its value |
| Storage.ExecutionEntriesSpec | js/storage.js:784-790 | one entry per execution with an id, carrying that model's scores |
| Storage.SingleEntriesSpec | js/storage.js:778-791 | single-mode entries are keyed by the ids of the executions of scored models, and by no other keys |
| Storage.ChainEntriesSpec | js/storage.js:792-805 | chain-mode entries are keyed by the last step of each scored model only |
| Storage.SingleCopies | js/storage.js:778-791 | when execution ids are distinct, each execution id holds exactly its model's legacy scores |
| Storage.ChainCopies | js/storage.js:792-805 | when last-step ids are distinct, each model's last step id holds exactly that model's legacy scores |
| Storage.MigrateScores | js/storage.js:762-815 | a table is left alone exactly unless it is legacy (`IsLegacy`: scores present, first key non-empty and neither `exec_` nor `step_`); a legacy table is always rewritten and flagged as migrated, the old table is kept, the new keys are exactly the run ids of scored models, and each holds the legacy scores of a model that ran it (exactly its own model's when run ids are distinct) |
| Storage.MigrateIdempotent | js/storage.js:767-773 | migrating a record with current run ids twice is the same as once |
| ApiClient.ParseProvider | js/apiClient.js:99-119 | a name dispatches to a provider only when it is that provider's name; any other name is unsupported |
| ApiClient.ProviderNamesParse | js/apiClient.js:99-119 | every provider's own name dispatches to it |
| ApiClient.EffectiveUserPrompt | js/apiClient.js:161 | the user prompt if given; else the reply instruction when there is a system prompt; else the greeting |
| ApiClient.EffectivePromptStable | js/apiClient.js:161 | the effective prompt is never empty, and substituting it again changes nothing |
| ApiClient.FirstContent | js/apiClient.js:513-517 | the content of the first message with the role, or empty when none has it |
| ApiClient.ChatMessages | js/apiClient.js:161-168 | a system message first iff there is a system prompt, then one user message; reading it back recovers both prompts |
| ApiClient.GoogleUrl | js/apiClient.js:286 | endpoint, model id, method and key appear in that order |
| ApiClient.GooglePrompt | js/apiClient.js:274-278 | the system prompt, a blank line and the user prompt, or the user prompt alone |
| ApiClient.BuildRequest | js/apiClient.js:153-494 | the chat providers post the model id, the chat messages, temperature 0.7 and 2000 max tokens (SiliconFlow adds `stream: false`) to their endpoint with a bearer key; Anthropic posts the model id, 2000 max tokens, the effective user message and an optional system field, with its key and version headers and no temperature; Google puts the model id and key in the URL and sends only the joined prompt, with no temperature or token limit; OpenRouter adds its referer and title headers |
| ApiClient.BuildRequestSeesEffectivePrompt | js/apiClient.js:161 | every adapter reads the user prompt only through its effective form |
| ApiClient.Normalise | js/apiClient.js:210-266 | token counts per provider, missing counts as 0; Anthropic's total is input plus output; Google reports 0 |
| ApiClient.NormaliseReadsReportedUsage | js/apiClient.js:210-266 | every adapter but Gemini's recovers the input and output counts its provider reports in its own `usage` format, with their sum as the total; Gemini's reads zero |
| ApiClient.NormaliseWithoutUsage | js/apiClient.js:213-215 | a reply with no `usage` counts zero tokens, whichever the provider |
| ApiClient.CallModel | js/apiClient.js:93-148 | never throws: an unknown provider or a failed transport gives a failure with the message; a delivered reply gives a success with normalised counts |
| ApiClient.CallModelCountsReportedUsage | js/apiClient.js:93-148 | a delivered reply reporting usage the provider's way comes back from `callModel` as a success with that content and those counts |
| ApiClient.CallModelApi | js/apiClient.js:505-529 | uses the first system and user messages and throws exactly when the call fails |
| ApiClient.CallModelApiOnChatMessages | js/apiClient.js:505-529 | called with the message list built from two prompts, it makes the same call as `callModel` with those prompts |
| ApiClient.DisplayName | js/apiClient.js:585 | the part of the id after its last `/`, the whole id when it has none |
| ApiClient.OpenRouterDisplayName | js/apiClient.js:661 | the model's own name when present; else the slash-free end of the id that follows its last `/`, or the whole id when it has no `/` |
| ApiClient.LastSegmentUnique | js/apiClient.js:661 | the part after the last `/` is determined: any two slash-free suffixes of an id that start it or follow a `/` are equal, so the display-name contracts fix one result |
| Chain.AddTaskToChain | js/app.js:271-285 | unknown task: unchanged; else exactly one step appended with order = old length, `original` mode first and `previous` after; numbering kept |
| Chain.UpdateChainInputMode | js/app.js:406-410 | only the mode at a valid index changes; an invalid index changes nothing |
| Chain.RemoveFromChain | js/app.js:415-422 | removes the step `splice` removes (negative index from the end), keeps the rest in order, and renumbers every step by position |
| Chain.RemoveUndoesAdd | js/app.js:271-422 | removing the step just added restores a well-numbered chain |
| Chain.BaseInput | js/app.js:547-560 | step 0 uses the task prompt; later steps use previous output, task prompt, or both joined by a blank line, by mode |
| Chain.StepPrompt | js/app.js:547-565 | the base input with every `{{output}}` replaced literally; the `TypeError` exactly in `previous` mode after an undefined output |
| Chain.AsWrittenAgreesWithoutDollar | js/app.js:562-565 | the code's `replace` agrees with literal replacement when the previous output has no `$` |
| Chain.AsWrittenCollapsesDollars | js/app.js:562-565 | at any later step with the template `{{output}}`, a previous output `$$` followed by dollar-free text loses one dollar in the code's `replace` and keeps both in the literal rule |
| Chain.ChainAttempt | js/app.js:584-596 | a returned result is recorded as is; a thrown error is recorded as a failure without timestamp |
| Chain.StepId | js/app.js:570 | chain step ids start with `step_` |
| Chain.RunStepsFaithful | js/app.js:540-599 | recorded steps are faithful to their positions, tasks, modes and calls, at strictly increasing positions, never more than the chain |
| Chain.RunStepsThreaded | js/app.js:540-599 | only the last step can be a thrown failure, and each step's input is derived from the output handed on by the step before |
| Chain.RunStepsComplete | js/app.js:540-544 | unless a throw cut the run short, every position whose task exists has a step: only missing tasks are skipped |
| Chain.NoCrashWhenCallsSucceed | js/app.js:547-560 | when every call succeeds, the loop never meets the `TypeError` |
| Chain.NeverThrowingCallerRecordsEveryTask | js/app.js:572-598 | with a caller that never throws, no step is a thrown failure and every existing task gets a step |
| Runner.ExecutionId | js/app.js:477 | grid execution ids start with `exec_`, so none is taken for a chain step id |
| Runner.GridAttempt | js/app.js:479-497 | a thrown grid call is recorded with the time of the `catch` |
| Runner.RunExecutions | js/app.js:463-500 | the repeat loop makes max(n - j, 0) calls, numbered from j, each recorded with its id and outcome; a throw does not stop it |
| Runner.RunGrid | js/app.js:463-504 | one entry per selected model, in selection order |
| Runner.RepeatCount | js/app.js:459 | with repetition switched on, the parsed count; otherwise 1 |
| Runner.ExecuteSingleTask | js/app.js:444-518 | nothing without an existing selected task; else one result per model, each with exactly `repeatCount` executions indexed 0.. |
| Runner.RunChainModels | js/app.js:534-604 | abandoned exactly when some model's chain meets the `TypeError`; else one entry per model holding its loop's steps |
| Runner.ExecuteTaskChain | js/app.js:523-618 | not started for an empty chain; crashed exactly when some model's loop crashes; else the chain and one entry per model |
| Runner.StartEvaluation | js/app.js:427-439 | nothing without selected models; the page's mode picks the runner and the record's kind; a completed chain run is the record written |
| Runner.SaveToHistory | js/app.js:772-774 | a finished run becomes the newest history item |
| Runner.RunsHaveCurrentIds | js/storage.js:762-815 | records the runners write carry current-format run ids, so score migration leaves them alone |
| Runner.SearchTerm | js/app.js:213 | the term is the lower-cased input with its leading and trailing white space removed, itself trimmed |
| Runner.FilterTasksInModal | js/app.js:212-231 | blank term: all tasks; else exactly the tasks whose name, description, prompts or a tag contains the term, in order, as many as match |
| Runner.ModalFilterIdempotent | js/app.js:212-231 | searching a search result again with the same text changes nothing |
| Csv.WrapQuotes | js/app.js:860-863 | a cell wrapped in quotes without escaping reads back as its text exactly when the text holds no `"` |
| Csv.OutcomeCells | js/app.js:865-870 | status; on success the escaped output, time and tokens with no error; on failure only the escaped error |
| Csv.SingleRowsWith | js/app.js:834-878 | the header, then one row per recorded execution of each model in turn, every row as wide as the header |
| Csv.ChainRowsWith | js/app.js:883-934 | the header, then one row per recorded step of each model in turn, every row as wide as the header |
| Csv.SingleRowCellsReadBack | js/app.js:858-873 | with names escaped, every quoted cell of a single-task row reads back as the text it shows |
| Csv.ChainRowCellsReadBack | js/app.js:914-927 | the same for a chain row, including task name and mode label |
| Csv.UnescapedNameDoesNotReadBack | js/app.js:860-863 | as written, a model name `a"b` does not read back from its cell |
| Csv.AsWrittenSingleNamesReadBack | js/app.js:860-863 | as written, each name cell of a single-task row reads back exactly when its text holds no `"` |
| Csv.AsWrittenChainNamesReadBack | js/app.js:915-920 | as written, each name cell of a chain row reads back exactly when its text holds no `"` |
| Csv.CsvFile | js/app.js:818 | the byte-order mark, then text that a CSV reader reads back as the cells' values whenever every cell is a well-formed quoted field or a clean bare one |
| Csv.CsvTextReadsBack | js/app.js:873-877 | the rows joined with commas and newlines read back as the cells' values, commas, newlines and quotes inside quoted cells included |
| Csv.SingleExportReadsBack | js/app.js:834-878 | the whole single-task file reads back as the values of its cells, given timestamps free of commas, newlines and quotes |
| Csv.ChainExportReadsBack | js/app.js:883-934 | the same for the chain file |
| Csv.SingleExportShows | js/app.js:858-873 | a spreadsheet shows in each execution's row its model's name, provider and id, the task name, the repeat number, and the output or the error |
| Csv.ChainExportShows | js/app.js:914-927 | a spreadsheet shows in each step's row the model name, step number, task name, mode label, and the output or the error |
| ImportExport.MapFields | js/importExport.js:216-239 | only aliased columns reach a field, and each field holds its rightmost column's text |
| ImportExport.LastWinsSpec | js/importExport.js:234-239 | the keys filled are exactly those some column feeds, each with the last such column's value |
| ImportExport.CategoryAlias | js/importExport.js:257-276 | every alias names a built-in category |
| ImportExport.ResolveCategory | js/importExport.js:257-292 | empty: general; a built-in alias: its id; a custom name or id: its id; otherwise general with a warning |
| ImportExport.ParseTags | js/importExport.js:295-305 | tags are non-empty, trimmed and free of separators; a blank cell gives none |
| ImportExport.ParseTagsSplitsCell | js/importExport.js:295-305 | the tags are the cell's pieces at every separator, each trimmed, empty ones dropped: trimming the cell first changes nothing |
| ImportExport.ValidateTaskRow | js/importExport.js:207-313 | rejected exactly when the trimmed name is empty; otherwise trimmed fields, resolved category, parsed tags, and the duplicate flag and warnings |
| ImportExport.PreviewImportData | js/importExport.js:170-202 | every row validated against the store's names, numbered from 2 |
| ImportExport.CandidatesDistinct | js/importExport.js:405-408 | different tries never clash, even ignoring case |
| ImportExport.FreeName | js/importExport.js:400-408 | the first of `name`, `name(2)`, ... that is not taken; a name not taken is kept |
| ImportExport.RenameAllFresh | js/importExport.js:395-421 | renamed tasks keep their other fields, avoid taken names and each other, and are flagged exactly when renamed |
| ImportExport.RenameAllFirstFree | js/importExport.js:395-421 | each name is the first try free of the store and the earlier imports |
| ImportExport.HandleDuplicates | js/importExport.js:395-421 | same length and order, other fields unchanged, names distinct from the store and each other, smallest free suffix, flagged iff renamed |
| ImportExport.AddAll | js/importExport.js:367-375 | the imported tasks are appended in order, each under its id, and the store is kept |
| ImportExport.ExecuteImport | js/importExport.js:348-390 | nothing pending, nothing valid exactly when no row is accepted, else the accepted rows renamed and appended, with counts and message |
| ImportExport.ImportKeepsNamesDistinct | js/importExport.js:348-421 | an import keeps the store's names distinct ignoring case |
| ImportExport.GetCategoryName | js/importExport.js:597-621 | a built-in id's Chinese name, else a custom category's name, else the id |
| ImportExport.ExportRow | js/importExport.js:469-476 | six columns, each feeding a distinct field |
| ImportExport.ExportRowFields | js/importExport.js:469-476 | every exported column reaches the field it came from |
| ImportExport.TagsRoundTrip | js/importExport.js:475 | tags joined with `;` parse back to the same list when non-empty, trimmed and separator-free |
| ImportExport.BuiltinNameResolves | js/importExport.js:257-276 | a built-in category's Chinese name resolves to its id without a warning |
| ImportExport.ExportImportRoundTrip | js/importExport.js:469-476 | an exported task re-validates to the same fields, with no warning, when its name is free |
| ModelManager.MaskApiKey | js/modelManager.js:277-280 | short or absent keys show `****`; others show the key's first four characters, `...`, and its last four |
| ModelManager.MaskRevealsOnlyEnds | js/modelManager.js:277-280 | two long keys mask alike exactly when their first and last four characters agree; short keys all mask alike |
| ModelManager.FormPrice | js/modelManager.js:153-162 | a filled price is kept as typed; an empty one is 0 |
| ModelManager.FormAlert | js/modelManager.js:115-139 | each alert fires exactly when its check is the first to fail, in the order provider, name, model id, key |
| ModelManager.AddModelFromForm | js/modelManager.js:114-177 | nothing is stored on an alert; else the model is appended with trimmed name and key, priced iff a price is filled |
| ModelManager.AddedModelPricing | js/modelManager.js:142-162 | a model priced from the form is priced by the typed prices; otherwise by the built-in table, if it lists the model |
| ModelManager.DeleteModelConfirmed | js/modelManager.js:182-194 | unconfirmed: unchanged; confirmed: the id is gone, every other model stays in order, and the length is the number of others |
| ModelManager.DeleteUndoesAdd | js/modelManager.js:165-188 | deleting a model just added restores the list |
| ModelManager.GetSelectedModels | js/modelManager.js:268-272 | exactly the checked models, in list order, as many as are checked |
| ModelManager.SelectionProperties | js/modelManager.js:268-272 | ticking all selects the whole list, and selecting again from a selection changes nothing |
| ModelManager.DeletedNotSelected | js/modelManager.js:187-188 | a deleted model can no longer be selected |
| TaskManager.FormTags | js/taskManager.js:108-109 | tags are non-empty, trimmed and free of `;`; blank input gives none |
| TaskManager.FormTagsSplitsInput | js/taskManager.js:108-109 | the tags are the input's pieces at `;`, each trimmed, empty ones dropped |
| TaskManager.TagsSurviveEdit | js/taskManager.js:68 | tags shown joined with `;` parse back to the same list |
| TaskManager.ImportedTagsSurviveEdit | js/taskManager.js:68 | tags an import produced survive an edit unchanged |
| TaskManager.FormFields | js/taskManager.js:94-109 | the alert exactly when the trimmed name or user prompt is empty; else the trimmed fields and parsed tags |
| TaskManager.ApplyEdit | js/taskManager.js:112-114 | the edited task gets the form's fields and the time; the others are untouched; a vanished task changes nothing |
| TaskManager.SaveTask | js/taskManager.js:93-122 | nothing stored on the alert; an edit updates that task; otherwise a new task is appended |
| TaskManager.ShowEditForm | js/taskManager.js:57-71 | the form holds the task's texts, its category (`general` when empty) and its tags joined with `;` |
| TaskManager.EditWithoutChangesKeepsFields | js/taskManager.js:57-122 | opening a task and saving it untouched keeps its fields |
| TaskManager.DuplicateTask | js/taskManager.js:132-148 | unknown id: unchanged; else a copy named with ` (副本)` and all other fields copied is appended |
| TaskManager.DuplicateThenDelete | js/taskManager.js:132-148 | the copy is found under its id with a longer name starting with the original's, and deleting it restores the store |
| TaskManager.FilterTaskList | js/taskManager.js:150-166 | filtering by term and then by category is one filter by their conjunction |
| TaskManager.TaskListShowsExactlyMatches | js/taskManager.js:150-166 | the list is exactly the matching tasks in order, cleared filters show all, and refiltering changes nothing |
| TaskManager.CategoryBadge | js/taskManager.js:181-200 | a built-in category wears its own gradient and name |
| TaskManager.BadgeFallsBackToGeneral | js/taskManager.js:199-200 | an unknown category wears the `general` badge; distinct built-ins wear distinct badges |

## Findings

| source | as written | input that shows it | evidently intended | confidence | as-written member | corrected member |
|---|---|---|---|---|---|---|
| js/app.js:562-565 | `userPrompt.replace(/\{\{output\}\}/g, previousOutput)` passes the previous output as a replacement string, so `$$`, `$&`, `` $` `` and `$'` in it are expanded | a step template `{{output}}` after a step that answered `$$` receives `$` | the previous output inserted literally | not executed | Chain.AsWrittenCollapsesDollars | Chain.StepPrompt |
| js/app.js:860-863 | the model name, provider, model id and task name cells are wrapped in quotes without doubling inner quotes; the chain file does the same at js/app.js:915-920 | a model named `a"b` gives the cell `"a"b"`, which does not read back as `a"b` | every quoted cell escaped like the output and error cells | not executed | Csv.AsWrittenSingleNamesReadBack | Csv.SingleRowCellsReadBack |

`Chain.StepPromptAsWritten`, `Csv.SingleTaskRowsAsWritten` and `Csv.ChainTaskRowsAsWritten` are the code as written. `Csv.AsWrittenChainNamesReadBack` states the chain half of the second row. The run loop and the export use the corrected `Chain.StepPrompt` and `Csv.SingleTaskRows`/`Csv.ChainTaskRows`.

## Left out

- Storage and JSON: `localStorage`, `JSON.stringify`/`parse` and the `try`/`catch` around storage failures. Each store key is an in-memory sequence.
- HTTP: `fetch`, `response.json()`, HTTP status handling and the proxy relay. The transport is an oracle that delivers a reply or the message of what was thrown.
- Listing the models a provider offers: only the display-name rule is modelled. The fetch and the locale-dependent sort are left out.
- UI: DOM rendering, modals, toasts, `confirm` and event listeners. A confirmation is a boolean parameter; an alert is an `Err` value.
- Non-determinism: `Date.now()`, ISO timestamps and the random `generateId`. These are parameters; fresh ids are assumed where a lemma needs them.
- Floating point: `parseFloat`, `parseInt` and `calculateCost`. Typed prices are kept as text; the repeat count is the already-parsed integer.
- Statistics: the aggregated statistics, averages, `toFixed` and evaluation templates.
- Third-party libraries: XLSX and CSV parsing are not part of this model. An import row is the parsed list of (header, cell) pairs.
- Case folding and trimming: `toLowerCase` is ASCII-only here. Other scripts compare unchanged. Trimming uses the JavaScript white-space set.
- Other store operations: the whole-store import/export and `clearAll`.
- Async scheduling: everything runs sequentially.
- Storage.GetAllCategories: custom entries keep id and name only; the other spread fields such as `createdAt` are dropped.
- Storage.MigrateScores: models a score table as a list of (key, scores) pairs with distinct keys. Object key order for integer-like keys is not modelled.
- Chain.StepId: stamps are given strings; the `model.id || model.modelName` choice is `Entities.ModelKey`.
- Runner.RepeatCount: `parseInt` of the input is a parameter; a `NaN` count is not modelled (a non-positive count runs nothing).
- ApiClient.BuildRequest: the DeepSeek and OpenAI bodies are the same chat body; only what differs between providers is stated.
- Chain.RunStepsThreaded: states how each step's input follows from the previous output under the corrected literal `{{output}}` substitution (`Chain.StepPrompt`). The code's `replace` expands `$` patterns; the two agree when no output holds a `$` (`Chain.AsWrittenAgreesWithoutDollar`).
- Chain.RunSteps, Runner.RunChainModels, Runner.ExecuteTaskChain and Runner.StartEvaluation: the chain runs are built on the corrected `Chain.StepPrompt`, for the same reason and with the same agreement.
- Csv.SingleTaskRows and Csv.ChainTaskRows: built with every name cell escaped (`Text.QuoteField`), the corrected form; the code as written is `Csv.SingleTaskRowsAsWritten` and `Csv.ChainTaskRowsAsWritten`.
- Csv.SingleExportReadsBack and Csv.ChainExportReadsBack: assume timestamps hold no comma, newline or quote, as ISO date strings do; the clock is a parameter.
- ImportExport.ValidateTaskRow: every cell is text. A spreadsheet parser can hand a numeric cell, and `.trim()` on it throws; the `catch` at js/importExport.js:96-98 then shows the error as a toast and nothing is previewed. That path is not modelled.
- ImportExport.ResolveCategory: the alias table is a plain object in the code, so a trimmed category such as `constructor` or `toString` finds an inherited property, which is truthy, and becomes the category value. The model treats such names like any other unknown name (custom lookup, then the general category with a warning).
- Storage.GetModelPricing: the built-in price table is a plain object (js/storage.js:489-491), so a model id such as `constructor` or `toString` finds an inherited function, which is truthy and is returned as the price. The model treats such ids as absent from the table.
- ImportExport.GetCategoryName: the name table is a plain object (js/importExport.js:607-608), so a category such as `constructor` returns an inherited function as its name. The model treats such categories as absent from the table.
- TaskManager.CategoryBadge: the colour and name tables are plain objects (js/taskManager.js:197-198), so a category such as `constructor` gets an inherited function as gradient and name instead of the `general` badge. The model treats such categories as absent.
- TaskManager.BadgeFallsBackToGeneral: states the fallback for categories with no own entry; inherited names such as `constructor` are outside it, as for `TaskManager.CategoryBadge`.
- ImportExport.AddAll: the `_renamed` flag that the renaming sets on the task object (js/importExport.js:413-415) is spread into the stored task by `addTask` (js/storage.js:232-237). The model's task record does not keep it. Each task's `new Date()` stamp is the one `now` parameter, and ids are given.
