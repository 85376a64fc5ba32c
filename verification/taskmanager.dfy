/** The task page: the create/edit form, duplication, the searchable task list and the
    category badge of each card. */
module TaskManager {

  import opened Wrappers
  import opened Text
  import opened Seqs
  import opened Entities
  import Storage
  import ImportExport

  // ---------------------------------------------------------------------------------------
  // The form
  // ---------------------------------------------------------------------------------------

  /** The task form as read on save; `tags` is the raw text of the tags input. */
  datatype TaskForm = TaskForm(
    name: string,
    description: string,
    systemPrompt: string,
    userPrompt: string,
    category: string,
    tags: string)

  const MissingFieldsAlert := "请填写任务名称和 User Prompt"
  const TagSeparator := ';'
  const DefaultCategory := "general"

  /** The tags input: split on `;` only, each piece trimmed, empty pieces dropped; a blank
      input gives no tags. */
  function FormTags(raw: string): (r: seq<string>)
    ensures forall k | 0 <= k < |r| :: r[k] != "" && IsTrimmed(r[k]) && FreeOf(r[k], {TagSeparator})
    ensures AllSpace(raw) ==> r == []
  {
    TrimBlank(raw);
    if Trim(raw) == "" then [] else ImportExport.CleanPieces(raw, {TagSeparator})
  }

  /** The tags are the input's pieces between semicolons, each trimmed, the empty ones
      dropped; a blank input needs no special case. */
  lemma FormTagsSplitsInput(raw: string)
    ensures FormTags(raw) == ImportExport.CleanPieces(raw, {TagSeparator})
  {
    TrimBlank(raw);
    if Trim(raw) == "" {
      SeparatorNotSpace();
      ImportExport.BlankPieces(raw, {TagSeparator});
    }
  }

  /** The form's tag separator is not white space. */
  lemma SeparatorNotSpace()
    ensures forall c | c in {TagSeparator} :: !IsSpace(c)
  {
    assert !IsSpace(';');
  }

  /** The edit form shows tags joined with `;`; saving parses them back to the same list when
      each is non-empty, trimmed and free of `;`. */
  lemma TagsSurviveEdit(tags: seq<string>)
    requires forall k | 0 <= k < |tags| :: tags[k] != "" && IsTrimmed(tags[k]) && FreeOf(tags[k], {TagSeparator})
    ensures FormTags(Join(tags, [TagSeparator])) == tags
  {
    var joined := Join(tags, [TagSeparator]);
    if |tags| > 0 {
      ImportExport.JoinTrimmed(tags, [TagSeparator]);
      assert !IsSpace(joined[0]);
      TrimBlank(joined);
      SplitJoin(tags, TagSeparator, {TagSeparator});
      ImportExport.TrimAllTrimmed(tags);
      Storage.FilterAllKept(tags, ImportExport.NonEmpty);
    } else {
      assert joined == "";
      TrimBlank(joined);
    }
  }

  /** Tags an import produced are separator-free for the form as well, so they survive an
      edit unchanged. */
  lemma ImportedTagsSurviveEdit(raw: string)
    ensures FormTags(Join(ImportExport.ParseTags(raw), [TagSeparator])) == ImportExport.ParseTags(raw)
  {
    var tags := ImportExport.ParseTags(raw);
    forall k | 0 <= k < |tags|
      ensures FreeOf(tags[k], {TagSeparator})
    {
      assert TagSeparator in ImportExport.TagSeparators;
    }
    TagsSurviveEdit(tags);
  }

  /** The fields `saveTask` builds: the alert when the trimmed name or user prompt is empty,
      otherwise the trimmed texts, the chosen category and the parsed tags. */
  function FormFields(form: TaskForm): (r: Result<TaskFields, string>)
    ensures r.Err? <==> Trim(form.name) == "" || Trim(form.userPrompt) == ""
    ensures r.Err? ==> r.error == MissingFieldsAlert
    ensures r.Ok? ==>
              r.value.name == Trim(form.name) && r.value.name != "" &&
              r.value.userPrompt == Trim(form.userPrompt) && r.value.userPrompt != "" &&
              r.value.description == Trim(form.description) &&
              r.value.systemPrompt == Trim(form.systemPrompt) &&
              r.value.category == form.category && r.value.tags == FormTags(form.tags)
  {
    var name := Trim(form.name);
    var userPrompt := Trim(form.userPrompt);
    if name == "" || userPrompt == "" then Err(MissingFieldsAlert)
    else Ok(TaskFields(name, Trim(form.description), Trim(form.systemPrompt), userPrompt,
                       form.category, FormTags(form.tags)))
  }

  /** The update `saveTask` sends when editing: every field. */
  function FullPatch(f: TaskFields): Storage.TaskPatch {
    Storage.TaskPatch(Some(f.name), Some(f.description), Some(f.systemPrompt), Some(f.userPrompt),
                      Some(f.category), Some(f.tags))
  }

  /** The edit id is set (a non-empty string, JavaScript truthiness). */
  predicate Editing(editing: Option<Id>) {
    editing.Some? && editing.value != ""
  }

  /** The store after `updateTask(id, fields)`: the first task with that id gets the fields
      and the time; a missing id leaves the store as it is. */
  function ApplyEdit(tasks: seq<Task>, id: Id, fields: TaskFields, now: Timestamp): (r: seq<Task>)
    ensures Storage.GetTask(tasks, id).None? ==> r == tasks
    ensures Storage.GetTask(tasks, id).Some? ==>
              var t := Storage.GetTask(tasks, id).value;
              |r| == |tasks| &&
              Storage.GetTask(r, id) == Some(t.(fields := fields, updatedAt := now)) &&
              forall k | 0 <= k < |tasks| && tasks[k].id != id :: r[k] == tasks[k]
  {
    var patch := FullPatch(fields);
    match Storage.UpdateTask(tasks, id, patch, now)
    case None => tasks
    case Some(updated) =>
      Storage.UpdateTaskThenGet(tasks, id, patch, now);
      var t := Storage.GetTask(tasks, id).value;
      assert Storage.MergeTask(t, patch, now) == t.(fields := fields, updatedAt := now);
      updated
  }

  /** `saveTask`: the alert when the form is incomplete (nothing is stored); otherwise, when a
      task is being edited, that task with the form's fields (no change if it has vanished
      from the store); otherwise the store with a new task under the generated id `id`. */
  function SaveTask(tasks: seq<Task>, editing: Option<Id>, form: TaskForm, id: Id, now: Timestamp): (r: Result<seq<Task>, string>)
    ensures r.Err? <==> FormFields(form).Err?
    ensures r.Err? ==> r.error == MissingFieldsAlert
    ensures r.Ok? && !Editing(editing) ==>
              |r.value| == |tasks| + 1 && r.value[..|tasks|] == tasks &&
              r.value[|tasks|] == Task(id, FormFields(form).value, now, now)
    ensures r.Ok? && Editing(editing) && Storage.GetTask(tasks, editing.value).None? ==> r.value == tasks
    ensures r.Ok? && Editing(editing) && Storage.GetTask(tasks, editing.value).Some? ==>
              var t := Storage.GetTask(tasks, editing.value).value;
              |r.value| == |tasks| &&
              Storage.GetTask(r.value, editing.value) == Some(t.(fields := FormFields(form).value, updatedAt := now)) &&
              forall k | 0 <= k < |tasks| && tasks[k].id != editing.value :: r.value[k] == tasks[k]
  {
    match FormFields(form)
    case Err(alert) => Err(alert)
    case Ok(fields) =>
      if Editing(editing) then Ok(ApplyEdit(tasks, editing.value, fields, now))
      else Ok(Storage.AddTask(tasks, id, fields, now))
  }

  /** `showEditModal(id)`: the form filled from the stored task, `None` when it is missing. An
      empty category shows as `general`; tags are joined with `;`. */
  function ShowEditForm(tasks: seq<Task>, id: Id): (r: Option<TaskForm>)
    ensures r.None? <==> Storage.GetTask(tasks, id).None?
    ensures r.Some? ==>
              var f := Storage.GetTask(tasks, id).value.fields;
              r.value.name == f.name && r.value.description == f.description &&
              r.value.systemPrompt == f.systemPrompt && r.value.userPrompt == f.userPrompt &&
              r.value.category == (if f.category == "" then DefaultCategory else f.category) &&
              r.value.tags == Join(f.tags, [TagSeparator])
  {
    match Storage.GetTask(tasks, id)
    case None => None
    case Some(t) =>
      var f := t.fields;
      Some(TaskForm(f.name, f.description, f.systemPrompt, f.userPrompt,
                    if f.category == "" then DefaultCategory else f.category,
                    Join(f.tags, [TagSeparator])))
  }

  /** Fields as the form leaves them: trimmed texts, a name and user prompt, a category, and
      tags as the tags input parses them. */
  predicate FormClean(f: TaskFields) {
    f.name != "" && IsTrimmed(f.name) && f.userPrompt != "" && IsTrimmed(f.userPrompt) &&
    IsTrimmed(f.description) && IsTrimmed(f.systemPrompt) && f.category != "" &&
    forall k | 0 <= k < |f.tags| :: f.tags[k] != "" && IsTrimmed(f.tags[k]) && FreeOf(f.tags[k], {TagSeparator})
  }

  /** Opening a stored task in the edit form and saving without touching anything keeps its
      fields (only `updatedAt` moves). */
  lemma EditWithoutChangesKeepsFields(tasks: seq<Task>, id: Id, newId: Id, now: Timestamp)
    requires id != "" && Storage.GetTask(tasks, id).Some?
    requires FormClean(Storage.GetTask(tasks, id).value.fields)
    ensures var t := Storage.GetTask(tasks, id).value;
            var r := SaveTask(tasks, Some(id), ShowEditForm(tasks, id).value, newId, now);
            r.Ok? && |r.value| == |tasks| && Storage.GetTask(r.value, id) == Some(t.(updatedAt := now))
  {
    var t := Storage.GetTask(tasks, id).value;
    var form := ShowEditForm(tasks, id).value;
    TrimIdentity(t.fields.name);
    TrimIdentity(t.fields.userPrompt);
    TrimIdentity(t.fields.description);
    TrimIdentity(t.fields.systemPrompt);
    TagsSurviveEdit(t.fields.tags);
    assert FormFields(form).value == t.fields;
  }

  // ---------------------------------------------------------------------------------------
  // Duplicating
  // ---------------------------------------------------------------------------------------

  const CopySuffix := " (副本)"

  /** `duplicateTask(id)`: an unknown id changes nothing; otherwise a copy named with the
      suffix, every other field (tags included) copied, is added under the new id. */
  function DuplicateTask(tasks: seq<Task>, id: Id, newId: Id, now: Timestamp): (r: seq<Task>)
    ensures Storage.GetTask(tasks, id).None? ==> r == tasks
    ensures Storage.GetTask(tasks, id).Some? ==>
              var f := Storage.GetTask(tasks, id).value.fields;
              |r| == |tasks| + 1 && r[..|tasks|] == tasks && r[|tasks|].id == newId &&
              r[|tasks|].fields == f.(name := f.name + CopySuffix) &&
              r[|tasks|].createdAt == now && r[|tasks|].updatedAt == now
  {
    match Storage.GetTask(tasks, id)
    case None => tasks
    case Some(t) => Storage.AddTask(tasks, newId, t.fields.(name := t.fields.name + CopySuffix), now)
  }

  /** The copy is found under its (fresh) id with a name that starts with, and differs from,
      the original's; deleting it restores the store. */
  lemma DuplicateThenDelete(tasks: seq<Task>, id: Id, newId: Id, now: Timestamp)
    requires Storage.GetTask(tasks, id).Some?
    requires forall k | 0 <= k < |tasks| :: tasks[k].id != newId
    ensures var f := Storage.GetTask(tasks, id).value.fields;
            var r := DuplicateTask(tasks, id, newId, now);
            Storage.GetTask(r, newId).Some? &&
            f.name <= Storage.GetTask(r, newId).value.fields.name &&
            Storage.GetTask(r, newId).value.fields.name != f.name &&
            Storage.DeleteTask(r, newId) == tasks
  {
    var f := Storage.GetTask(tasks, id).value.fields;
    Storage.AddTaskThenGetDelete(tasks, newId, f.(name := f.name + CopySuffix), now);
    assert (f.name + CopySuffix)[..|f.name|] == f.name;
  }

  // ---------------------------------------------------------------------------------------
  // The task list
  // ---------------------------------------------------------------------------------------

  /** The search filter of `renderTasks`: the term is lower-cased but not trimmed; the name
      or (when there is one) the description must contain it. */
  predicate TermMatches(term: string, t: Task) {
    Contains(LowerStr(t.fields.name), term) ||
    (t.fields.description != "" && Contains(LowerStr(t.fields.description), term))
  }

  /** A task is listed when the term (if any) matches and the category (if any) is its own. */
  predicate Listed(term: string, category: string, t: Task) {
    (term == "" || TermMatches(term, t)) && (category == "" || t.fields.category == category)
  }

  function TermKeep(term: string): Task -> bool {
    (t: Task) => TermMatches(term, t)
  }

  function CategoryKeep(category: string): Task -> bool {
    (t: Task) => t.fields.category == category
  }

  function ListedKeep(term: string, category: string): Task -> bool {
    (t: Task) => Listed(term, category, t)
  }

  /** `renderTasks`' filtering: first by the search term, then by the category. */
  function FilterTaskList(tasks: seq<Task>, search: string, category: string): (r: seq<Task>)
    ensures r == Filter(tasks, ListedKeep(LowerStr(search), category))
  {
    var term := LowerStr(search);
    var byTerm := if term != "" then Filter(tasks, TermKeep(term)) else tasks;
    if category != "" then
      if term != "" then
        FilterFilter(tasks, TermKeep(term), CategoryKeep(category), ListedKeep(term, category));
        Filter(byTerm, CategoryKeep(category))
      else
        FilterExt(tasks, CategoryKeep(category), ListedKeep(term, category));
        Filter(byTerm, CategoryKeep(category))
    else if term != "" then
      FilterExt(tasks, TermKeep(term), ListedKeep(term, category));
      byTerm
    else
      Storage.FilterAllKept(tasks, ListedKeep(term, category));
      byTerm
  }

  /** The list shows exactly the tasks that match, in store order; with both filters cleared
      it shows the whole store, and filtering the shown list again changes nothing. */
  lemma TaskListShowsExactlyMatches(tasks: seq<Task>, search: string, category: string)
    ensures var r := FilterTaskList(tasks, search, category);
            Subseq(r, tasks) &&
            (forall k | 0 <= k < |r| :: Listed(LowerStr(search), category, r[k])) &&
            (forall k | 0 <= k < |tasks| && Listed(LowerStr(search), category, tasks[k]) :: tasks[k] in r) &&
            FilterTaskList(r, search, category) == r
    ensures search == "" && category == "" ==> FilterTaskList(tasks, search, category) == tasks
  {
    var keep := ListedKeep(LowerStr(search), category);
    FilterIsSubseq(tasks, keep);
    FilterIdempotent(tasks, keep);
    if search == "" && category == "" {
      Storage.FilterAllKept(tasks, keep);
    }
  }

  // ---------------------------------------------------------------------------------------
  // Category badge
  // ---------------------------------------------------------------------------------------

  /** The gradient of each built-in category's badge. */
  const CategoryGradients: map<string, string> := map[
    "translation" := "from-blue-400 to-blue-600",
    "writing" := "from-green-400 to-green-600",
    "analysis" := "from-purple-400 to-purple-600",
    "coding" := "from-orange-400 to-orange-600",
    "general" := "from-gray-400 to-gray-600",
    "other" := "from-pink-400 to-pink-600"
  ]

  const FallbackCategoryName := "通用"

  /** The badge of a task card: gradient and name of its category, the `general` ones for a
      category without its own (custom categories included). */
  function CategoryBadge(category: string): (r: (string, string))
    ensures BuiltinCategoryName(category).Some? ==> r.1 == BuiltinCategoryName(category).value
    ensures category in CategoryGradients ==> r.0 == CategoryGradients[category]
  {
    (if category in CategoryGradients then CategoryGradients[category] else CategoryGradients["general"],
     BuiltinCategoryName(category).GetOr(FallbackCategoryName))
  }

  /** The badge tables cover exactly the built-in categories: an unknown category wears the
      `general` badge, and distinct built-in categories wear distinct badges. */
  lemma BadgeFallsBackToGeneral(category: string, other: string)
    ensures category in CategoryGradients <==> BuiltinCategoryName(category).Some?
    ensures BuiltinCategoryName(category).None? ==> CategoryBadge(category) == CategoryBadge("general")
    ensures BuiltinCategoryName(category).Some? && BuiltinCategoryName(other).Some? && category != other ==>
              CategoryBadge(category) != CategoryBadge(other)
  {
  }
}
