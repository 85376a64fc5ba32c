/** The local store: one array per storage key, held here as an immutable sequence.
    Every operation takes the array it reads and returns the array it would write back. */
module Storage {

  import opened Wrappers
  import opened Text
  import opened Seqs
  import opened Entities

  // ---------------------------------------------------------------------------------------
  // Array stores keyed by `id`
  // ---------------------------------------------------------------------------------------

  /** The test every delete filters by: the element's id differs from `id`. */
  function OtherThan<T>(idOf: T -> Id, id: Id): T -> bool {
    x => idOf(x) != id
  }

  /** `i` is the position of the first element whose id is `id`. */
  predicate FirstWithId<T>(xs: seq<T>, idOf: T -> Id, id: Id, i: int) {
    0 <= i < |xs| && idOf(xs[i]) == id && forall j | 0 <= j < i :: idOf(xs[j]) != id
  }

  /** The lookups by id (`getTask`, `getModel`, ...): the first element with that id, if any. */
  function FindById<T>(xs: seq<T>, idOf: T -> Id, id: Id): (r: Option<T>)
    ensures r.None? <==> forall k | 0 <= k < |xs| :: idOf(xs[k]) != id
    ensures r.Some? ==> exists i :: FirstWithId(xs, idOf, id, i) && r.value == xs[i]
  {
    match FindIndex(xs, x => idOf(x) == id)
    case Some(i) => assert FirstWithId(xs, idOf, id, i); Some(xs[i])
    case None => None
  }

  /** `delete*(id)`: removes every element with that id and keeps all others, in order. */
  function DeleteById<T>(xs: seq<T>, idOf: T -> Id, id: Id): (r: seq<T>)
    ensures Subseq(r, xs)
    ensures forall k | 0 <= k < |r| :: idOf(r[k]) != id
    ensures forall k | 0 <= k < |xs| && idOf(xs[k]) != id :: xs[k] in r
    ensures |r| == Count(xs, OtherThan(idOf, id))
  {
    FilterIsSubseq(xs, OtherThan(idOf, id));
    Filter(xs, OtherThan(idOf, id))
  }

  /** The three facts `DeleteById` ensures pin its result down: no other sequence has them. */
  lemma DeleteByIdUnique<T>(r: seq<T>, xs: seq<T>, idOf: T -> Id, id: Id)
    requires Subseq(r, xs)
    requires forall k | 0 <= k < |r| :: idOf(r[k]) != id
    requires |r| == Count(xs, OtherThan(idOf, id))
    ensures r == DeleteById(xs, idOf, id)
  {
    FilterUnique(r, xs, OtherThan(idOf, id));
  }

  /** `update*(id, f)`: replaces the first element with that id by `f` of it; `None` (the
      source's `false`/`null`, nothing written) when no element has the id. */
  function UpdateById<T>(xs: seq<T>, idOf: T -> Id, id: Id, f: T -> T): (r: Option<seq<T>>)
    ensures r.None? <==> forall k | 0 <= k < |xs| :: idOf(xs[k]) != id
    ensures r.Some? ==> exists i :: FirstWithId(xs, idOf, id, i) && r.value == xs[i := f(xs[i])]
  {
    match FindIndex(xs, x => idOf(x) == id)
    case Some(i) => assert FirstWithId(xs, idOf, id, i); Some(xs[i := f(xs[i])])
    case None => None
  }

  /** Appending an element with a fresh id makes it the one `get*` finds. */
  lemma {:induction false} FindAfterAppend<T>(xs: seq<T>, idOf: T -> Id, x: T)
    requires forall k | 0 <= k < |xs| :: idOf(xs[k]) != idOf(x)
    ensures FindById(xs + [x], idOf, idOf(x)) == Some(x)
  {
    assert FirstWithId(xs + [x], idOf, idOf(x), |xs|);
    var r := FindById(xs + [x], idOf, idOf(x));
    var i :| FirstWithId(xs + [x], idOf, idOf(x), i) && r.value == (xs + [x])[i];
  }

  /** After an update, `get*` finds the updated element (when `f` keeps ids). */
  lemma FindAfterUpdate<T>(xs: seq<T>, idOf: T -> Id, id: Id, f: T -> T)
    requires exists k :: 0 <= k < |xs| && idOf(xs[k]) == id
    requires forall x :: idOf(f(x)) == idOf(x)
    ensures UpdateById(xs, idOf, id, f).Some?
    ensures FindById(UpdateById(xs, idOf, id, f).value, idOf, id) == Some(f(FindById(xs, idOf, id).value))
  {
    var ys := UpdateById(xs, idOf, id, f).value;
    var i :| FirstWithId(xs, idOf, id, i) && ys == xs[i := f(xs[i])];
    var i' :| FirstWithId(xs, idOf, id, i') && FindById(xs, idOf, id).value == xs[i'];
    FirstWithIdUnique(xs, idOf, id, i, i');
    assert FirstWithId(ys, idOf, id, i);
    var j :| FirstWithId(ys, idOf, id, j) && FindById(ys, idOf, id).value == ys[j];
    FirstWithIdUnique(ys, idOf, id, i, j);
  }

  lemma FirstWithIdUnique<T>(xs: seq<T>, idOf: T -> Id, id: Id, i: int, j: int)
    requires FirstWithId(xs, idOf, id, i) && FirstWithId(xs, idOf, id, j)
    ensures i == j
  {
  }

  // ---------------------------------------------------------------------------------------
  // Tasks, models and chains
  // ---------------------------------------------------------------------------------------

  function TaskIdOf(t: Task): Id { t.id }
  function ModelIdOf(m: Model): Id { m.id }
  function ChainIdOf(c: SavedChain): Id { c.id }
  function HistoryIdOf(h: HistoryItem): Id { h.id }
  function CategoryIdOf(c: CustomCategory): Id { c.id }

  /** `addTask(fields)` with generated id `id` at time `now`. */
  function AddTask(tasks: seq<Task>, id: Id, fields: TaskFields, now: Timestamp): (r: seq<Task>)
    ensures |r| == |tasks| + 1 && r[..|tasks|] == tasks
    ensures r[|tasks|].id == id && r[|tasks|].fields == fields
    ensures r[|tasks|].createdAt == now && r[|tasks|].updatedAt == now
  {
    tasks + [Task(id, fields, now, now)]
  }

  function GetTask(tasks: seq<Task>, id: Id): Option<Task> {
    FindById(tasks, TaskIdOf, id)
  }

  function DeleteTask(tasks: seq<Task>, id: Id): seq<Task> {
    DeleteById(tasks, TaskIdOf, id)
  }

  /** The fields an update names; absent ones keep their stored value. */
  datatype TaskPatch = TaskPatch(
    name: Option<string>,
    description: Option<string>,
    systemPrompt: Option<string>,
    userPrompt: Option<string>,
    category: Option<string>,
    tags: Option<seq<string>>)

  /** A task update: the named fields override the task's, and `updatedAt` becomes `now`. */
  function MergeTask(t: Task, p: TaskPatch, now: Timestamp): (r: Task)
    ensures r.id == t.id && r.createdAt == t.createdAt && r.updatedAt == now
    ensures r.fields.name == p.name.GetOr(t.fields.name)
    ensures r.fields.description == p.description.GetOr(t.fields.description)
    ensures r.fields.systemPrompt == p.systemPrompt.GetOr(t.fields.systemPrompt)
    ensures r.fields.userPrompt == p.userPrompt.GetOr(t.fields.userPrompt)
    ensures r.fields.category == p.category.GetOr(t.fields.category)
    ensures r.fields.tags == p.tags.GetOr(t.fields.tags)
  {
    var f := t.fields;
    t.(fields := TaskFields(
         p.name.GetOr(f.name), p.description.GetOr(f.description),
         p.systemPrompt.GetOr(f.systemPrompt), p.userPrompt.GetOr(f.userPrompt),
         p.category.GetOr(f.category), p.tags.GetOr(f.tags)),
       updatedAt := now)
  }

  function UpdateTask(tasks: seq<Task>, id: Id, p: TaskPatch, now: Timestamp): Option<seq<Task>> {
    UpdateById(tasks, TaskIdOf, id, t => MergeTask(t, p, now))
  }

  /** Adding a task with a fresh id and then reading it back yields exactly the new task;
      deleting it again restores the store. */
  lemma {:induction false} AddTaskThenGetDelete(tasks: seq<Task>, id: Id, fields: TaskFields, now: Timestamp)
    requires forall k | 0 <= k < |tasks| :: tasks[k].id != id
    ensures GetTask(AddTask(tasks, id, fields, now), id) == Some(Task(id, fields, now, now))
    ensures DeleteTask(AddTask(tasks, id, fields, now), id) == tasks
  {
    FindAfterAppend(tasks, TaskIdOf, Task(id, fields, now, now));
    var xs := AddTask(tasks, id, fields, now);
    FilterAppendDropped(tasks, Task(id, fields, now, now), OtherThan(TaskIdOf, id));
    FilterAllKept(tasks, OtherThan(TaskIdOf, id));
  }

  lemma {:induction false} FilterAppendDropped<T>(xs: seq<T>, x: T, keep: T -> bool)
    requires !keep(x)
    ensures Filter(xs + [x], keep) == Filter(xs, keep)
    decreases |xs|
  {
    if |xs| > 0 {
      assert (xs + [x])[1..] == xs[1..] + [x];
      FilterAppendDropped(xs[1..], x, keep);
    } else {
      assert xs + [x] == [x];
    }
  }

  lemma {:induction false} FilterAllKept<T>(xs: seq<T>, keep: T -> bool)
    requires forall k | 0 <= k < |xs| :: keep(xs[k])
    ensures Filter(xs, keep) == xs
    decreases |xs|
  {
    if |xs| > 0 {
      FilterAllKept(xs[1..], keep);
    }
  }

  /** Updating a stored task and reading it back yields the merge of the old task. */
  lemma UpdateTaskThenGet(tasks: seq<Task>, id: Id, p: TaskPatch, now: Timestamp)
    requires exists k :: 0 <= k < |tasks| && tasks[k].id == id
    ensures UpdateTask(tasks, id, p, now).Some?
    ensures GetTask(UpdateTask(tasks, id, p, now).value, id) == Some(MergeTask(GetTask(tasks, id).value, p, now))
  {
    FindAfterUpdate(tasks, TaskIdOf, id, t => MergeTask(t, p, now));
  }

  /** `addModel(model)`: the stored model gets the generated id and the creation time. */
  function AddModel(models: seq<Model>, m: Model, id: Id, now: Timestamp): (r: seq<Model>)
    ensures |r| == |models| + 1 && r[..|models|] == models
    ensures r[|models|].id == id && r[|models|].createdAt == now
    ensures r[|models|] == m.(id := id, createdAt := now)
  {
    models + [m.(id := id, createdAt := now)]
  }

  function DeleteModel(models: seq<Model>, id: Id): seq<Model> {
    DeleteById(models, ModelIdOf, id)
  }

  datatype ModelPatch = ModelPatch(
    modelName: Option<string>,
    modelId: Option<string>,
    apiKey: Option<string>,
    pricing: Option<Option<Pricing>>)

  /** A model update: the named fields override the model's, and no timestamp is touched. */
  function MergeModel(m: Model, p: ModelPatch): (r: Model)
    ensures r.id == m.id && r.provider == m.provider && r.createdAt == m.createdAt
    ensures r.modelName == p.modelName.GetOr(m.modelName)
    ensures r.modelId == p.modelId.GetOr(m.modelId)
    ensures r.apiKey == p.apiKey.GetOr(m.apiKey)
    ensures r.pricing == p.pricing.GetOr(m.pricing)
  {
    m.(modelName := p.modelName.GetOr(m.modelName), modelId := p.modelId.GetOr(m.modelId),
       apiKey := p.apiKey.GetOr(m.apiKey), pricing := p.pricing.GetOr(m.pricing))
  }

  function UpdateModel(models: seq<Model>, id: Id, p: ModelPatch): Option<seq<Model>> {
    UpdateById(models, ModelIdOf, id, m => MergeModel(m, p))
  }

  /** `addChain`: a new chain with the given name and steps, stamped with its creation time. */
  function AddChain(chains: seq<SavedChain>, id: Id, name: string, steps: seq<ChainStep>, now: Timestamp): (r: seq<SavedChain>)
    ensures |r| == |chains| + 1 && r[..|chains|] == chains
    ensures r[|chains|].id == id && r[|chains|].name == name && r[|chains|].steps == steps
    ensures r[|chains|].createdAt == now && r[|chains|].updatedAt == now
  {
    chains + [SavedChain(id, name, steps, now, now)]
  }

  function GetChain(chains: seq<SavedChain>, id: Id): Option<SavedChain> {
    FindById(chains, ChainIdOf, id)
  }

  function DeleteChain(chains: seq<SavedChain>, id: Id): seq<SavedChain> {
    DeleteById(chains, ChainIdOf, id)
  }

  datatype ChainPatch = ChainPatch(name: Option<string>, steps: Option<seq<ChainStep>>)

  /** A chain update: name and steps overridden when given, and `updatedAt` becomes `now`. */
  function MergeChain(c: SavedChain, p: ChainPatch, now: Timestamp): (r: SavedChain)
    ensures r.id == c.id && r.createdAt == c.createdAt && r.updatedAt == now
    ensures r.name == p.name.GetOr(c.name) && r.steps == p.steps.GetOr(c.steps)
  {
    c.(name := p.name.GetOr(c.name), steps := p.steps.GetOr(c.steps), updatedAt := now)
  }

  function UpdateChain(chains: seq<SavedChain>, id: Id, p: ChainPatch, now: Timestamp): Option<seq<SavedChain>> {
    UpdateById(chains, ChainIdOf, id, c => MergeChain(c, p, now))
  }

  // ---------------------------------------------------------------------------------------
  // History: at most ten items, most recent first
  // ---------------------------------------------------------------------------------------

  const MaxHistoryItems: nat := 10

  /** `saveHistory`: the new item goes first; when the list then exceeds the maximum, the
      single oldest item is dropped. */
  function SaveHistory(history: seq<HistoryItem>, item: HistoryItem): (r: seq<HistoryItem>)
    ensures |r| >= 1 && r[0] == item
    ensures |r| == if |history| < MaxHistoryItems then |history| + 1 else |history|
    ensures r[1..] == history[..|r| - 1]
  {
    var h := [item] + history;
    if |h| > MaxHistoryItems then h[..|h| - 1] else h
  }

  /** A bounded history stays bounded. */
  lemma SaveHistoryBounded(history: seq<HistoryItem>, item: HistoryItem)
    requires |history| <= MaxHistoryItems
    ensures |SaveHistory(history, item)| <= MaxHistoryItems
  {
  }

  /** Saving `items` one after the other. */
  function SaveAll(history: seq<HistoryItem>, items: seq<HistoryItem>): seq<HistoryItem>
    decreases |items|
  {
    if |items| == 0 then history else SaveAll(SaveHistory(history, items[0]), items[1..])
  }

  function Reverse<T>(xs: seq<T>): (r: seq<T>)
    ensures |r| == |xs|
  {
    if |xs| == 0 then [] else Reverse(xs[1..]) + [xs[0]]
  }

  function Min(a: int, b: int): int { if a <= b then a else b }

  /** Starting from a history within the bound, any run of saves leaves the ten most recent
      items, newest first: the reference reading of a most-recent-first ring. */
  lemma {:induction false} SaveAllKeepsMostRecent(history: seq<HistoryItem>, items: seq<HistoryItem>)
    requires |history| <= MaxHistoryItems
    ensures var all := Reverse(items) + history;
            SaveAll(history, items) == all[..Min(|all|, MaxHistoryItems)]
    decreases |items|
  {
    if |items| > 0 {
      SaveAllKeepsMostRecent(SaveHistory(history, items[0]), items[1..]);
      SaveStepKeepsMostRecent(history, items);
    }
  }

  /** Saving the first of `items` and then the rest leaves the same most recent items as
      saving them all onto `history`. */
  lemma SaveStepKeepsMostRecent(history: seq<HistoryItem>, items: seq<HistoryItem>)
    requires |history| <= MaxHistoryItems && |items| > 0
    ensures var all := Reverse(items) + history;
            var all1 := Reverse(items[1..]) + SaveHistory(history, items[0]);
            Min(|all1|, MaxHistoryItems) == Min(|all|, MaxHistoryItems) &&
            all1[..Min(|all1|, MaxHistoryItems)] == all[..Min(|all|, MaxHistoryItems)]
  {
    var h1 := SaveHistory(history, items[0]);
    var h := [items[0]] + history;
    assert Reverse(items) + history == Reverse(items[1..]) + h;
    assert h1 == h[..|h1|];
    PrefixAfterCommonStart(Reverse(items[1..]), h, h1, Min(|Reverse(items) + history|, MaxHistoryItems));
  }

  /** Extending a common start by a prefix of `h` and by `h` itself agrees on any length the
      shorter one reaches. */
  lemma PrefixAfterCommonStart<T>(r: seq<T>, h: seq<T>, h1: seq<T>, n: nat)
    requires |h1| <= |h| && h1 == h[..|h1|] && n <= |r| + |h1|
    ensures (r + h1)[..n] == (r + h)[..n]
  {
    assert forall k | 0 <= k < n :: (r + h1)[k] == (r + h)[k];
  }

  function DeleteHistory(history: seq<HistoryItem>, id: Id): seq<HistoryItem> {
    DeleteById(history, HistoryIdOf, id)
  }

  // ---------------------------------------------------------------------------------------
  // Categories
  // ---------------------------------------------------------------------------------------

  /** No two custom categories have names equal ignoring case. */
  predicate NamesDistinctIgnoringCase(cats: seq<CustomCategory>) {
    forall i, j | 0 <= i < j < |cats| :: LowerStr(cats[i].name) != LowerStr(cats[j].name)
  }

  /** `addCustomCategory(name)`: `None` (the source's `null`, nothing written) when a category
      with the same name ignoring case exists; otherwise the new category is appended. */
  function AddCustomCategory(cats: seq<CustomCategory>, name: string, id: Id, now: Timestamp): (r: Option<seq<CustomCategory>>)
    ensures r.None? <==> exists k | 0 <= k < |cats| :: LowerStr(cats[k].name) == LowerStr(name)
    ensures r.Some? ==> |r.value| == |cats| + 1 && r.value[..|cats|] == cats
    ensures r.Some? ==> r.value[|cats|] == CustomCategory(id, name, now)
  {
    if exists k | 0 <= k < |cats| :: LowerStr(cats[k].name) == LowerStr(name) then None
    else Some(cats + [CustomCategory(id, name, now)])
  }

  /** Adding and deleting categories keep names distinct ignoring case. */
  lemma CategoryNamesStayDistinct(cats: seq<CustomCategory>, name: string, id: Id, now: Timestamp, gone: Id)
    requires NamesDistinctIgnoringCase(cats)
    ensures AddCustomCategory(cats, name, id, now).Some? ==>
              NamesDistinctIgnoringCase(AddCustomCategory(cats, name, id, now).value)
    ensures NamesDistinctIgnoringCase(DeleteById(cats, CategoryIdOf, gone))
  {
    var r := DeleteById(cats, CategoryIdOf, gone);
    SubseqDistinct(r, cats);
  }

  /** A subsequence of a list with distinct lowered names has distinct lowered names. */
  lemma {:induction false} SubseqDistinct(r: seq<CustomCategory>, cats: seq<CustomCategory>)
    requires Subseq(r, cats) && NamesDistinctIgnoringCase(cats)
    ensures NamesDistinctIgnoringCase(r)
    decreases |cats|
  {
    if |r| > 0 {
      if r[0] == cats[0] {
        SubseqDistinct(r[1..], cats[1..]);
        SubseqMembers(r[1..], cats[1..]);
        forall j | 0 < j < |r|
          ensures LowerStr(r[0].name) != LowerStr(r[j].name)
        {
          assert r[j] == r[1..][j - 1];
          var m :| 0 <= m < |cats[1..]| && cats[1..][m] == r[j];
          assert cats[m + 1] == r[j];
        }
      } else {
        SubseqDistinct(r, cats[1..]);
      }
    }
  }

  lemma {:induction false} SubseqMembers<T>(r: seq<T>, xs: seq<T>)
    requires Subseq(r, xs)
    ensures forall j | 0 <= j < |r| :: exists m :: 0 <= m < |xs| && xs[m] == r[j]
    decreases |xs|
  {
    if |r| > 0 {
      if r[0] == xs[0] {
        SubseqMembers(r[1..], xs[1..]);
        forall j | 0 < j < |r|
          ensures exists m :: 0 <= m < |xs| && xs[m] == r[j]
        {
          assert r[j] == r[1..][j - 1];
          var m :| 0 <= m < |xs[1..]| && xs[1..][m] == r[j];
          assert xs[m + 1] == r[j];
        }
        assert xs[0] == r[0];
      } else {
        SubseqMembers(r, xs[1..]);
        forall j | 0 <= j < |r|
          ensures exists m :: 0 <= m < |xs| && xs[m] == r[j]
        {
          var m :| 0 <= m < |xs[1..]| && xs[1..][m] == r[j];
          assert xs[m + 1] == r[j];
        }
      }
    }
  }

  function DeleteCustomCategory(cats: seq<CustomCategory>, id: Id): seq<CustomCategory> {
    DeleteById(cats, CategoryIdOf, id)
  }

  /** `getAllCategories()`: the six built-ins, then every custom category flagged as such. */
  function GetAllCategories(custom: seq<CustomCategory>): (r: (seq<CategoryEntry>, seq<CategoryEntry>))
    ensures |r.0| == 6 && forall k | 0 <= k < |r.0| :: r.0[k].isBuiltin
    ensures forall k | 0 <= k < |r.0| :: BuiltinCategoryName(r.0[k].id) == Some(r.0[k].name)
    ensures forall k, j | 0 <= k < j < |r.0| :: r.0[k].id != r.0[j].id
    ensures forall id :: BuiltinCategoryName(id).Some? <==> exists k :: 0 <= k < |r.0| && r.0[k].id == id
    ensures r.0[0].id == "general"
    ensures |r.1| == |custom|
    ensures forall k | 0 <= k < |custom| ::
              r.1[k].id == custom[k].id && r.1[k].name == custom[k].name && !r.1[k].isBuiltin
  {
    BuiltinCategoriesMatchNames();
    (BuiltinCategories, seq(|custom|, k requires 0 <= k < |custom| => CategoryEntry(custom[k].id, custom[k].name, false)))
  }

  // ---------------------------------------------------------------------------------------
  // Pricing
  // ---------------------------------------------------------------------------------------

  /** The built-in price table, dollars per million tokens. */
  const BuiltinModelPrices: map<string, PricePair> := map[
    "gpt-4o" := PricePair(Literal(5.00), Literal(15.00)),
    "gpt-4o-2024-11-20" := PricePair(Literal(5.00), Literal(15.00)),
    "gpt-4o-mini" := PricePair(Literal(0.15), Literal(0.60)),
    "gpt-4o-mini-2024-07-18" := PricePair(Literal(0.15), Literal(0.60)),
    "gpt-4-turbo" := PricePair(Literal(10.00), Literal(30.00)),
    "gpt-4" := PricePair(Literal(30.00), Literal(60.00)),
    "gpt-3.5-turbo" := PricePair(Literal(0.50), Literal(1.50)),
    "claude-3-5-sonnet-20241022" := PricePair(Literal(3.00), Literal(15.00)),
    "claude-3-5-sonnet-20240620" := PricePair(Literal(3.00), Literal(15.00)),
    "claude-3-opus-20240229" := PricePair(Literal(15.00), Literal(75.00)),
    "claude-3-sonnet-20240229" := PricePair(Literal(3.00), Literal(15.00)),
    "claude-3-haiku-20240307" := PricePair(Literal(0.25), Literal(1.25)),
    "gemini-1.5-pro" := PricePair(Literal(1.25), Literal(5.00)),
    "gemini-1.5-flash" := PricePair(Literal(0.01875), Literal(0.075)),
    "gemini-1.0-pro" := PricePair(Literal(0.50), Literal(1.50)),
    "deepseek-chat" := PricePair(Literal(0.27), Literal(1.10)),
    "deepseek-coder" := PricePair(Literal(0.27), Literal(1.10)),
    "qwen-max" := PricePair(Literal(2.00), Literal(6.00)),
    "qwen-plus" := PricePair(Literal(0.80), Literal(2.00)),
    "qwen-turbo" := PricePair(Literal(0.30), Literal(0.60))
  ]

  /** `model.modelId || model.model_id`: the key looked up in the built-in table. */
  function PriceKey(m: Model): string {
    if m.modelId != "" then m.modelId else m.legacyModelId
  }

  /** `getModelPricing(model)`: the model's own pricing when marked custom, else the built-in
      entry for its model id, else `None` (`null`). */
  function GetModelPricing(m: Model): (r: Option<PricePair>)
    ensures m.pricing.Some? && m.pricing.value.isCustom ==>
              r == Some(PricePair(m.pricing.value.inputPrice, m.pricing.value.outputPrice))
    ensures !(m.pricing.Some? && m.pricing.value.isCustom) ==>
              (r.Some? <==> PriceKey(m) in BuiltinModelPrices) &&
              (r.Some? ==> r.value == BuiltinModelPrices[PriceKey(m)])
  {
    if m.pricing.Some? && m.pricing.value.isCustom then
      Some(PricePair(m.pricing.value.inputPrice, m.pricing.value.outputPrice))
    else if PriceKey(m) in BuiltinModelPrices then Some(BuiltinModelPrices[PriceKey(m)])
    else None
  }

  // ---------------------------------------------------------------------------------------
  // Migration of score tables keyed by model to tables keyed by run
  // ---------------------------------------------------------------------------------------

  /** The keys of a score table, in order. */
  function Keys(t: ScoreTable): (r: seq<string>)
    ensures |r| == |t| && forall i | 0 <= i < |t| :: r[i] == t[i].0
  {
    seq(|t|, i requires 0 <= i < |t| => t[i].0)
  }

  predicate HasKey(t: ScoreTable, k: string) {
    k in Keys(t)
  }

  lemma KeysAppend(a: ScoreTable, b: ScoreTable)
    ensures Keys(a + b) == Keys(a) + Keys(b)
  {
  }

  /** `obj[k]` on a table with distinct keys: the value of the first entry with key `k`. */
  function Lookup(t: ScoreTable, k: string): (r: Option<DimScores>)
    ensures r.Some? <==> HasKey(t, k)
    ensures r.Some? ==> (k, r.value) in t
  {
    if |t| == 0 then None
    else if t[0].0 == k then Some(t[0].1)
    else
      KeysAppend([t[0]], t[1..]);
      assert t == [t[0]] + t[1..];
      Lookup(t[1..], k)
  }

  /** `obj[k] = v`: overwrite in place when the key exists (JavaScript keeps the key's
      position), append otherwise. */
  function Put(t: ScoreTable, k: string, v: DimScores): (r: ScoreTable)
    ensures forall k' :: HasKey(r, k') <==> HasKey(t, k') || k' == k
    ensures Lookup(r, k) == Some(v)
    ensures forall k' | k' != k :: Lookup(r, k') == Lookup(t, k')
    ensures |t| > 0 ==> |r| > 0 && r[0].0 == t[0].0
    ensures |t| == 0 ==> r == [(k, v)]
  {
    if |t| == 0 then assert Keys([(k, v)]) == [k]; [(k, v)]
    else
      KeysAppend([t[0]], t[1..]);
      assert t == [t[0]] + t[1..];
      if t[0].0 == k then
        KeysAppend([(k, v)], t[1..]);
        assert Keys([(k, v)]) == [k] && Keys([t[0]]) == [k];
        [(k, v)] + t[1..]
      else
        KeysAppend([t[0]], Put(t[1..], k, v));
        var rest := Put(t[1..], k, v);
        assert Keys([t[0]]) == [t[0].0];
        assert Keys([t[0]] + rest) == [t[0].0] + Keys(rest);
        assert forall k' :: HasKey([t[0]] + rest, k') <==> k' == t[0].0 || HasKey(rest, k');
        assert forall k' :: HasKey(t, k') <==> k' == t[0].0 || HasKey(t[1..], k');
        [t[0]] + rest
  }

  /** Entry `i` gives `k` the value `v`, and no later entry has key `k`. */
  predicate LastEntry(entries: ScoreTable, k: string, v: DimScores, i: int) {
    0 <= i < |entries| && entries[i] == (k, v) && forall j | i < j < |entries| :: entries[j].0 != k
  }

  /** The value of the last entry with key `k`, if any: what a run of assignments leaves. */
  function LastValue(entries: ScoreTable, k: string): (r: Option<DimScores>)
    ensures r.Some? <==> HasKey(entries, k)
    ensures r.Some? ==> exists i :: LastEntry(entries, k, r.value, i)
    decreases |entries|
  {
    if |entries| == 0 then None
    else
      KeysAppend([entries[0]], entries[1..]);
      assert entries == [entries[0]] + entries[1..];
      var later := LastValue(entries[1..], k);
      if later.Some? then
        var i :| LastEntry(entries[1..], k, later.value, i);
        LastEntryShift(entries, k, later.value, i);
        later
      else if entries[0].0 == k then
        LastEntryHead(entries, k);
        Some(entries[0].1)
      else None
  }

  /** The last entry of the tail is the last entry of the whole run, one place on. */
  lemma LastEntryShift(entries: ScoreTable, k: string, v: DimScores, i: int)
    requires |entries| > 0 && LastEntry(entries[1..], k, v, i)
    ensures LastEntry(entries, k, v, i + 1)
  {
    assert forall j | i + 1 < j < |entries| :: entries[j] == entries[1..][j - 1];
  }

  /** The head entry is the last one for its key when the tail does not have the key. */
  lemma LastEntryHead(entries: ScoreTable, k: string)
    requires |entries| > 0 && entries[0].0 == k && !HasKey(entries[1..], k)
    ensures LastEntry(entries, k, entries[0].1, 0)
  {
    forall j | 0 < j < |entries|
      ensures entries[j].0 != k
    {
      assert entries[j] == entries[1..][j - 1];
      assert Keys(entries[1..])[j - 1] == entries[j].0;
    }
  }

  /** Writes the entries in order: the last entry for a key wins, other keys keep their
      values. */
  function PutAll(t: ScoreTable, entries: ScoreTable): (r: ScoreTable)
    ensures forall k :: HasKey(r, k) <==> HasKey(t, k) || HasKey(entries, k)
    ensures forall k :: Lookup(r, k) == if HasKey(entries, k) then LastValue(entries, k) else Lookup(t, k)
    ensures |t| > 0 ==> |r| > 0 && r[0].0 == t[0].0
    ensures |t| == 0 && |entries| > 0 ==> |r| > 0 && r[0].0 == entries[0].0
    decreases |entries|
  {
    if |entries| == 0 then t
    else
      KeysAppend([entries[0]], entries[1..]);
      assert entries == [entries[0]] + entries[1..];
      PutAll(Put(t, entries[0].0, entries[0].1), entries[1..])
  }

  /** `(id, scores)` for every execution of one model that has an id (an empty id is falsy
      and skipped), in order. */
  function ExecutionEntries(execs: seq<Execution>, s: DimScores): ScoreTable
    decreases |execs|
  {
    if |execs| == 0 then []
    else (if execs[0].executionId != "" then [(execs[0].executionId, s)] else []) + ExecutionEntries(execs[1..], s)
  }

  lemma {:induction false} ExecutionEntriesSpec(execs: seq<Execution>, s: DimScores)
    ensures forall e | e in ExecutionEntries(execs, s) ::
              e.1 == s && e.0 != "" && exists j :: 0 <= j < |execs| && execs[j].executionId == e.0
    ensures forall j | 0 <= j < |execs| && execs[j].executionId != "" ::
              HasKey(ExecutionEntries(execs, s), execs[j].executionId)
    decreases |execs|
  {
    if |execs| > 0 {
      ExecutionEntriesSpec(execs[1..], s);
      var head := if execs[0].executionId != "" then [(execs[0].executionId, s)] else [];
      var tail := ExecutionEntries(execs[1..], s);
      KeysAppend(head, tail);
      forall e | e in ExecutionEntries(execs, s)
        ensures e.1 == s && e.0 != "" && exists j :: 0 <= j < |execs| && execs[j].executionId == e.0
      {
        if e in tail {
          var j :| 0 <= j < |execs[1..]| && execs[1..][j].executionId == e.0;
          assert execs[j + 1].executionId == e.0;
        } else {
          assert execs[0].executionId == e.0;
        }
      }
      forall j | 0 <= j < |execs| && execs[j].executionId != ""
        ensures HasKey(ExecutionEntries(execs, s), execs[j].executionId)
      {
        if j == 0 {
          assert Keys(head)[0] == execs[0].executionId;
        } else {
          assert execs[1..][j - 1] == execs[j];
        }
      }
    }
  }

  /** The single-mode entries: each model's executions, when the legacy table scores it. */
  function SingleEntries(legacy: ScoreTable, results: seq<ModelExecutions>): ScoreTable
    decreases |results|
  {
    if |results| == 0 then []
    else
      var head := match Lookup(legacy, ModelKey(results[0].model))
        case Some(s) => ExecutionEntries(results[0].executions, s)
        case None => [];
      head + SingleEntries(legacy, results[1..])
  }

  /** A single-mode entry belongs to an execution with that id whose model the legacy table
      scores with the entry's value. */
  predicate SingleSource(legacy: ScoreTable, results: seq<ModelExecutions>, e: (string, DimScores)) {
    exists i, j :: 0 <= i < |results| && 0 <= j < |results[i].executions| &&
      results[i].executions[j].executionId == e.0 &&
      Lookup(legacy, ModelKey(results[i].model)) == Some(e.1)
  }

  lemma {:induction false} SingleEntriesSpec(legacy: ScoreTable, results: seq<ModelExecutions>)
    ensures forall e | e in SingleEntries(legacy, results) :: e.0 != "" && SingleSource(legacy, results, e)
    ensures forall i, j | 0 <= i < |results| && 0 <= j < |results[i].executions| &&
                          results[i].executions[j].executionId != "" && HasKey(legacy, ModelKey(results[i].model)) ::
              HasKey(SingleEntries(legacy, results), results[i].executions[j].executionId)
    decreases |results|
  {
    if |results| > 0 {
      SingleEntriesSpec(legacy, results[1..]);
      var head := match Lookup(legacy, ModelKey(results[0].model))
        case Some(s) => ExecutionEntries(results[0].executions, s)
        case None => [];
      var tail := SingleEntries(legacy, results[1..]);
      KeysAppend(head, tail);
      forall e | e in SingleEntries(legacy, results)
        ensures e.0 != "" && SingleSource(legacy, results, e)
      {
        if e in tail {
          var i, j :| 0 <= i < |results[1..]| && 0 <= j < |results[1..][i].executions| &&
                      results[1..][i].executions[j].executionId == e.0 &&
                      Lookup(legacy, ModelKey(results[1..][i].model)) == Some(e.1);
          assert results[i + 1] == results[1..][i];
        } else {
          var s := Lookup(legacy, ModelKey(results[0].model)).value;
          ExecutionEntriesSpec(results[0].executions, s);
          var j :| 0 <= j < |results[0].executions| && results[0].executions[j].executionId == e.0;
        }
      }
      forall i, j | 0 <= i < |results| && 0 <= j < |results[i].executions| &&
                    results[i].executions[j].executionId != "" && HasKey(legacy, ModelKey(results[i].model))
        ensures HasKey(SingleEntries(legacy, results), results[i].executions[j].executionId)
      {
        if i == 0 {
          ExecutionEntriesSpec(results[0].executions, Lookup(legacy, ModelKey(results[0].model)).value);
        } else {
          assert results[1..][i - 1] == results[i];
        }
      }
    }
  }

  /** The id of a model's last step, when it has steps. */
  function LastStepId(steps: seq<StepRecord>): string {
    if |steps| == 0 then "" else steps[|steps| - 1].stepId
  }

  /** The chain-mode entries: each scored model's last step, when it has an id. */
  function ChainEntries(legacy: ScoreTable, results: seq<ModelSteps>): ScoreTable
    decreases |results|
  {
    if |results| == 0 then []
    else
      var head := match Lookup(legacy, ModelKey(results[0].model))
        case Some(s) => if LastStepId(results[0].steps) != "" then [(LastStepId(results[0].steps), s)] else []
        case None => [];
      head + ChainEntries(legacy, results[1..])
  }

  predicate ChainSource(legacy: ScoreTable, results: seq<ModelSteps>, e: (string, DimScores)) {
    exists i :: 0 <= i < |results| && LastStepId(results[i].steps) == e.0 &&
      Lookup(legacy, ModelKey(results[i].model)) == Some(e.1)
  }

  lemma {:induction false} ChainEntriesSpec(legacy: ScoreTable, results: seq<ModelSteps>)
    ensures forall e | e in ChainEntries(legacy, results) :: e.0 != "" && ChainSource(legacy, results, e)
    ensures forall i | 0 <= i < |results| && LastStepId(results[i].steps) != "" &&
                       HasKey(legacy, ModelKey(results[i].model)) ::
              HasKey(ChainEntries(legacy, results), LastStepId(results[i].steps))
    decreases |results|
  {
    if |results| > 0 {
      ChainEntriesSpec(legacy, results[1..]);
      var head := match Lookup(legacy, ModelKey(results[0].model))
        case Some(s) => if LastStepId(results[0].steps) != "" then [(LastStepId(results[0].steps), s)] else []
        case None => [];
      var tail := ChainEntries(legacy, results[1..]);
      KeysAppend(head, tail);
      forall e | e in ChainEntries(legacy, results)
        ensures e.0 != "" && ChainSource(legacy, results, e)
      {
        if e in tail {
          var i :| 0 <= i < |results[1..]| && LastStepId(results[1..][i].steps) == e.0 &&
                   Lookup(legacy, ModelKey(results[1..][i].model)) == Some(e.1);
          assert results[i + 1] == results[1..][i];
        } else {
          assert e == head[0];
        }
      }
      forall i | 0 <= i < |results| && LastStepId(results[i].steps) != "" && HasKey(legacy, ModelKey(results[i].model))
        ensures HasKey(ChainEntries(legacy, results), LastStepId(results[i].steps))
      {
        if i == 0 {
          assert Keys(head)[0] == LastStepId(results[0].steps);
        } else {
          assert results[1..][i - 1] == results[i];
        }
      }
    }
  }

  /** The first key already names a run: the table is in the current format. */
  predicate CurrentFormatKey(k: string) {
    "exec_" <= k || "step_" <= k
  }

  /** Scores keyed by model: a table whose first key is non-empty and does not name a run. */
  predicate IsLegacy(s: Option<Scoring>) {
    s.Some? && s.value.scores.Some? && |s.value.scores.value| > 0 &&
    s.value.scores.value[0].0 != "" && !CurrentFormatKey(s.value.scores.value[0].0)
  }

  /** `migrateEvaluationData(evaluation, record)`: a table keyed by model (legacy) becomes a
      table keyed by run id. Single mode gives each execution with an id its model's scores,
      chain mode gives them to the model's last step only. The legacy table is kept. */
  function MigrateScores(s: Option<Scoring>, record: Evaluation): (r: Option<Scoring>)
    ensures !IsLegacy(s) ==> r == s
    ensures IsLegacy(s) ==>
              r.Some? && r.value.migrated && r.value.originalScores == s.value.scores &&
              r.value.dimensions == s.value.dimensions && r.value.scores.Some?
    ensures IsLegacy(s) && record.SingleEvaluation? ==>
              forall k :: HasKey(r.value.scores.value, k) <==>
                (exists i, j :: 0 <= i < |record.singleResults| &&
                   0 <= j < |record.singleResults[i].executions| &&
                   record.singleResults[i].executions[j].executionId == k && k != "" &&
                   HasKey(s.value.scores.value, ModelKey(record.singleResults[i].model)))
    ensures IsLegacy(s) && record.ChainEvaluation? ==>
              forall k :: HasKey(r.value.scores.value, k) <==>
                (exists i :: 0 <= i < |record.chainResults| &&
                   LastStepId(record.chainResults[i].steps) == k && k != "" &&
                   HasKey(s.value.scores.value, ModelKey(record.chainResults[i].model)))
    ensures IsLegacy(s) && record.SingleEvaluation? ==>
              forall k | HasKey(r.value.scores.value, k) ::
                SingleSource(s.value.scores.value, record.singleResults, (k, Lookup(r.value.scores.value, k).value))
    ensures IsLegacy(s) && record.ChainEvaluation? ==>
              forall k | HasKey(r.value.scores.value, k) ::
                ChainSource(s.value.scores.value, record.chainResults, (k, Lookup(r.value.scores.value, k).value))
    ensures IsLegacy(s) && record.SingleEvaluation? && DistinctExecutionIds(record.singleResults) ==>
              forall i, j | 0 <= i < |record.singleResults| && 0 <= j < |record.singleResults[i].executions| &&
                            record.singleResults[i].executions[j].executionId != "" ::
                Lookup(r.value.scores.value, record.singleResults[i].executions[j].executionId) ==
                Lookup(s.value.scores.value, ModelKey(record.singleResults[i].model))
    ensures IsLegacy(s) && record.ChainEvaluation? && DistinctLastStepIds(record.chainResults) ==>
              forall i | 0 <= i < |record.chainResults| && LastStepId(record.chainResults[i].steps) != "" ::
                Lookup(r.value.scores.value, LastStepId(record.chainResults[i].steps)) ==
                Lookup(s.value.scores.value, ModelKey(record.chainResults[i].model))
  {
    if s.None? || s.value.scores.None? then s
    else
      var legacy := s.value.scores.value;
      if |legacy| == 0 || legacy[0].0 == "" || CurrentFormatKey(legacy[0].0) then s
      else
        var byRun := match record
          case SingleEvaluation(_, _, results, _) =>
            var t := SingleTable(legacy, results);
            if DistinctExecutionIds(results) then SingleCopies(legacy, results, t); t else t
          case ChainEvaluation(_, results, _) =>
            var t := ChainTable(legacy, results);
            if DistinctLastStepIds(results) then ChainCopies(legacy, results, t); t else t;
        Some(s.value.(scores := Some(byRun), migrated := true, originalScores := Some(legacy)))
  }

  /** The single-mode table by run id: every execution with an id whose model is scored. */
  function SingleTable(legacy: ScoreTable, results: seq<ModelExecutions>): (t: ScoreTable)
    ensures forall k :: HasKey(t, k) <==>
              (exists i, j :: 0 <= i < |results| && 0 <= j < |results[i].executions| &&
                 results[i].executions[j].executionId == k && k != "" &&
                 HasKey(legacy, ModelKey(results[i].model)))
    ensures forall k | HasKey(t, k) :: SingleSource(legacy, results, (k, Lookup(t, k).value))
  {
    SingleEntriesSpec(legacy, results);
    var t := PutAll([], SingleEntries(legacy, results));
    SingleValues(legacy, results, t);
    t
  }

  /** Every value of the single-mode table is the legacy score of a model with that run. */
  lemma SingleValues(legacy: ScoreTable, results: seq<ModelExecutions>, t: ScoreTable)
    requires t == PutAll([], SingleEntries(legacy, results))
    ensures forall k | HasKey(t, k) :: SingleSource(legacy, results, (k, Lookup(t, k).value))
  {
    SingleEntriesSpec(legacy, results);
    var entries := SingleEntries(legacy, results);
    forall k | HasKey(t, k)
      ensures SingleSource(legacy, results, (k, Lookup(t, k).value))
    {
      var v := LastValue(entries, k).value;
      var i :| LastEntry(entries, k, v, i);
      assert entries[i] in entries;
    }
  }

  /** The chain-mode table by run id: every scored model's last step that has an id. */
  function ChainTable(legacy: ScoreTable, results: seq<ModelSteps>): (t: ScoreTable)
    ensures forall k :: HasKey(t, k) <==>
              (exists i :: 0 <= i < |results| && LastStepId(results[i].steps) == k && k != "" &&
                 HasKey(legacy, ModelKey(results[i].model)))
    ensures forall k | HasKey(t, k) :: ChainSource(legacy, results, (k, Lookup(t, k).value))
  {
    ChainEntriesSpec(legacy, results);
    var t := PutAll([], ChainEntries(legacy, results));
    ChainValues(legacy, results, t);
    t
  }

  /** Every value of the chain-mode table is the legacy score of a model ending in that step. */
  lemma ChainValues(legacy: ScoreTable, results: seq<ModelSteps>, t: ScoreTable)
    requires t == PutAll([], ChainEntries(legacy, results))
    ensures forall k | HasKey(t, k) :: ChainSource(legacy, results, (k, Lookup(t, k).value))
  {
    ChainEntriesSpec(legacy, results);
    var entries := ChainEntries(legacy, results);
    forall k | HasKey(t, k)
      ensures ChainSource(legacy, results, (k, Lookup(t, k).value))
    {
      var v := LastValue(entries, k).value;
      var i :| LastEntry(entries, k, v, i);
      assert entries[i] in entries;
    }
  }

  /** No two executions of a single-task record share a non-empty id. */
  predicate DistinctExecutionIds(results: seq<ModelExecutions>) {
    forall i, j, i', j' | 0 <= i < |results| && 0 <= j < |results[i].executions| &&
                          0 <= i' < |results| && 0 <= j' < |results[i'].executions| &&
                          results[i].executions[j].executionId != "" &&
                          results[i].executions[j].executionId == results[i'].executions[j'].executionId ::
      i == i' && j == j'
  }

  /** No two models of a chain record end in steps with the same non-empty id. */
  predicate DistinctLastStepIds(results: seq<ModelSteps>) {
    forall i, i' | 0 <= i < |results| && 0 <= i' < |results| &&
                   LastStepId(results[i].steps) != "" && LastStepId(results[i].steps) == LastStepId(results[i'].steps) ::
      i == i'
  }

  /** With distinct run ids, each run's entry holds exactly its model's legacy scores, and a
      run of an unscored model has none. */
  lemma SingleCopies(legacy: ScoreTable, results: seq<ModelExecutions>, t: ScoreTable)
    requires t == SingleTable(legacy, results)
    requires DistinctExecutionIds(results)
    ensures forall i, j | 0 <= i < |results| && 0 <= j < |results[i].executions| &&
                          results[i].executions[j].executionId != "" ::
              Lookup(t, results[i].executions[j].executionId) == Lookup(legacy, ModelKey(results[i].model))
  {
    forall i, j | 0 <= i < |results| && 0 <= j < |results[i].executions| &&
                  results[i].executions[j].executionId != ""
      ensures Lookup(t, results[i].executions[j].executionId) == Lookup(legacy, ModelKey(results[i].model))
    {
      var k := results[i].executions[j].executionId;
      if HasKey(t, k) {
        assert SingleSource(legacy, results, (k, Lookup(t, k).value));
        var i', j' :| 0 <= i' < |results| && 0 <= j' < |results[i'].executions| &&
                      results[i'].executions[j'].executionId == k &&
                      Lookup(legacy, ModelKey(results[i'].model)) == Some(Lookup(t, k).value);
        assert i == i' && j == j';
      } else if HasKey(legacy, ModelKey(results[i].model)) {
        assert false;
      }
    }
  }

  /** With distinct last-step ids, each model's last step holds exactly its legacy scores. */
  lemma ChainCopies(legacy: ScoreTable, results: seq<ModelSteps>, t: ScoreTable)
    requires t == ChainTable(legacy, results)
    requires DistinctLastStepIds(results)
    ensures forall i | 0 <= i < |results| && LastStepId(results[i].steps) != "" ::
              Lookup(t, LastStepId(results[i].steps)) == Lookup(legacy, ModelKey(results[i].model))
  {
    forall i | 0 <= i < |results| && LastStepId(results[i].steps) != ""
      ensures Lookup(t, LastStepId(results[i].steps)) == Lookup(legacy, ModelKey(results[i].model))
    {
      var k := LastStepId(results[i].steps);
      if HasKey(t, k) {
        assert ChainSource(legacy, results, (k, Lookup(t, k).value));
        var i' :| 0 <= i' < |results| && LastStepId(results[i'].steps) == k &&
                  Lookup(legacy, ModelKey(results[i'].model)) == Some(Lookup(t, k).value);
        assert i == i';
      } else if HasKey(legacy, ModelKey(results[i].model)) {
        assert false;
      }
    }
  }

  /** Every run id of a record is empty or in the current format, as the runners build them. */
  predicate RunIdsCurrent(record: Evaluation) {
    match record
    case SingleEvaluation(_, _, results, _) =>
      forall i, j | 0 <= i < |results| && 0 <= j < |results[i].executions| ::
        results[i].executions[j].executionId == "" || CurrentFormatKey(results[i].executions[j].executionId)
    case ChainEvaluation(_, results, _) =>
      forall i, j | 0 <= i < |results| && 0 <= j < |results[i].steps| ::
        results[i].steps[j].stepId == "" || CurrentFormatKey(results[i].steps[j].stepId)
  }

  /** Migration is idempotent for records whose run ids are in the current format. */
  lemma MigrateIdempotent(s: Option<Scoring>, record: Evaluation)
    requires RunIdsCurrent(record)
    ensures MigrateScores(MigrateScores(s, record), record) == MigrateScores(s, record)
  {
    var r := MigrateScores(s, record);
    if IsLegacy(s) {
      var t := r.value.scores.value;
      if |t| > 0 {
        assert HasKey(t, t[0].0);
        if record.SingleEvaluation? {
          SingleKeyCurrent(s, record, t[0].0);
        } else {
          ChainKeyCurrent(s, record, t[0].0);
        }
      }
    }
  }

  /** A key of a migrated single-task table is a run id of the record. */
  lemma SingleKeyCurrent(s: Option<Scoring>, record: Evaluation, k: string)
    requires record.SingleEvaluation? && RunIdsCurrent(record)
    requires IsLegacy(s) && HasKey(MigrateScores(s, record).value.scores.value, k)
    ensures CurrentFormatKey(k)
  {
    var results := record.singleResults;
    var i, j :| 0 <= i < |results| && 0 <= j < |results[i].executions| &&
                results[i].executions[j].executionId == k && k != "" &&
                HasKey(s.value.scores.value, ModelKey(results[i].model));
  }

  /** A key of a migrated chain table is a step id of the record. */
  lemma ChainKeyCurrent(s: Option<Scoring>, record: Evaluation, k: string)
    requires record.ChainEvaluation? && RunIdsCurrent(record)
    requires IsLegacy(s) && HasKey(MigrateScores(s, record).value.scores.value, k)
    ensures CurrentFormatKey(k)
  {
    var results := record.chainResults;
    var i :| 0 <= i < |results| && LastStepId(results[i].steps) == k && k != "" &&
             HasKey(s.value.scores.value, ModelKey(results[i].model));
    assert results[i].steps[|results[i].steps| - 1].stepId == k;
  }
}
