/** The records the front end keeps in local storage and passes between pages. */
module Entities {

  import opened Wrappers

  /** Ids come from `Storage.generateId` (clock plus random suffix): opaque, assumed fresh. */
  type Id = string

  /** ISO-8601 timestamps, never inspected: opaque strings. */
  type Timestamp = string

  /** The user-editable part of a task. */
  datatype TaskFields = TaskFields(
    name: string,
    description: string,
    systemPrompt: string,
    userPrompt: string,
    category: string,
    tags: seq<string>)

  datatype Task = Task(id: Id, fields: TaskFields, createdAt: Timestamp, updatedAt: Timestamp)

  /** A price in dollars per million tokens: a literal of the built-in table, or whatever
      `parseFloat` reads from a form field (left uninterpreted). */
  datatype Price = Literal(amount: real) | Parsed(text: string)

  /** A model's price per million input tokens and per million output tokens. */
  datatype PricePair = PricePair(inputPrice: Price, outputPrice: Price)

  /** A model's own pricing, as the add-model form attaches it. */
  datatype Pricing = Pricing(
    inputPrice: Price,
    outputPrice: Price,
    currency: string,
    isCustom: bool,
    updatedAt: Timestamp)

  /** A configured model. `legacyModelId` is the older `model_id` field ("" when absent). */
  datatype Model = Model(
    id: Id,
    provider: string,
    modelName: string,
    modelId: string,
    apiKey: string,
    pricing: Option<Pricing>,
    legacyModelId: string,
    createdAt: Timestamp)

  /** `model.id || model.modelName`: the key scores and run ids use for a model. */
  function ModelKey(m: Model): string {
    if m.id != "" then m.id else m.modelName
  }

  /** How a chain step's prompt is derived from the step before it. */
  datatype InputMode = Previous | Original | Concat

  /** One entry of the task chain being assembled on the test page. */
  datatype ChainStep = ChainStep(taskId: Id, order: int, inputMode: InputMode)

  /** A chain kept in the chain store. */
  datatype SavedChain = SavedChain(
    id: Id,
    name: string,
    steps: seq<ChainStep>,
    createdAt: Timestamp,
    updatedAt: Timestamp)

  datatype CustomCategory = CustomCategory(id: Id, name: string, createdAt: Timestamp)

  /** A category as `getAllCategories` lists it. */
  datatype CategoryEntry = CategoryEntry(id: Id, name: string, isBuiltin: bool)

  /** The six built-in categories, in the order the store lists them. */
  const BuiltinCategories: seq<CategoryEntry> := [
    CategoryEntry("general", "通用", true),
    CategoryEntry("translation", "翻译", true),
    CategoryEntry("writing", "写作", true),
    CategoryEntry("analysis", "分析", true),
    CategoryEntry("coding", "编程", true),
    CategoryEntry("other", "其他", true)
  ]

  /** The Chinese display name of a built-in category id. */
  function BuiltinCategoryName(id: string): Option<string> {
    if id == "general" then Some("通用")
    else if id == "translation" then Some("翻译")
    else if id == "writing" then Some("写作")
    else if id == "analysis" then Some("分析")
    else if id == "coding" then Some("编程")
    else if id == "other" then Some("其他")
    else None
  }

  /** The built-in list and the name table agree: six distinct ids, each with its name, and
      every id the table names is in the list. */
  lemma BuiltinCategoriesMatchNames()
    ensures forall k | 0 <= k < |BuiltinCategories| ::
              BuiltinCategoryName(BuiltinCategories[k].id) == Some(BuiltinCategories[k].name)
    ensures forall k, j | 0 <= k < j < |BuiltinCategories| :: BuiltinCategories[k].id != BuiltinCategories[j].id
    ensures forall id :: BuiltinCategoryName(id).Some? <==>
              exists k :: 0 <= k < |BuiltinCategories| && BuiltinCategories[k].id == id
  {
    var b := BuiltinCategories;
    assert b[0].id == "general" && b[1].id == "translation" && b[2].id == "writing";
    assert b[3].id == "analysis" && b[4].id == "coding" && b[5].id == "other";
    assert "general"[0] != "translation"[0] && "general"[0] != "writing"[0] && "general"[0] != "analysis"[0];
    assert "general"[0] != "coding"[0] && "general"[0] != "other"[0];
    assert "translation"[0] != "writing"[0] && "translation"[0] != "analysis"[0];
    assert "translation"[0] != "coding"[0] && "translation"[0] != "other"[0];
    assert "writing"[0] != "analysis"[0] && "writing"[0] != "coding"[0] && "writing"[0] != "other"[0];
    assert "analysis"[0] != "coding"[0] && "analysis"[0] != "other"[0] && "coding"[0] != "other"[0];
    forall id | BuiltinCategoryName(id).Some?
      ensures exists k :: 0 <= k < |b| && b[k].id == id
    {
      if id == "general" { assert b[0].id == id; }
      else if id == "translation" { assert b[1].id == id; }
      else if id == "writing" { assert b[2].id == id; }
      else if id == "analysis" { assert b[3].id == id; }
      else if id == "coding" { assert b[4].id == id; }
      else { assert b[5].id == id; }
    }
  }

  /** What `APIClient.callModel` resolves to: it never rejects, failures become `Failed`. */
  datatype CallResult =
    | Succeeded(
        content: string,
        responseTime: nat,
        inputTokens: nat,
        outputTokens: nat,
        tokensUsed: nat,
        timestamp: Timestamp)
    | Failed(error: string, responseTime: nat, timestamp: Timestamp)

  /** What awaiting a provider call yields on the test page: a result, or a thrown error. */
  datatype Outcome = Returned(result: CallResult) | Threw(message: string)

  /** A recorded attempt: the call's result, or the record the `catch` block builds
      (its timestamp is "" where the block sets none). */
  datatype Attempt = Answered(result: CallResult) | Raised(error: string, timestamp: Timestamp) {
    predicate Success() {
      Answered? && result.Succeeded?
    }
  }

  /** One run of the single-task grid. */
  datatype Execution = Execution(executionId: string, executionIndex: nat, attempt: Attempt)

  datatype ModelExecutions = ModelExecutions(model: Model, executions: seq<Execution>)

  /** One executed chain step. `stepIndex` is the step's position in the chain. */
  datatype StepRecord = StepRecord(
    stepId: string,
    stepIndex: nat,
    task: Task,
    input: string,
    inputMode: InputMode,
    attempt: Attempt)

  datatype ModelSteps = ModelSteps(model: Model, steps: seq<StepRecord>)

  /** `currentEvaluation`, the object written to history. */
  datatype Evaluation =
    | SingleEvaluation(task: Task, repeatCount: int, singleResults: seq<ModelExecutions>, timestamp: Timestamp)
    | ChainEvaluation(chain: seq<ChainStep>, chainResults: seq<ModelSteps>, timestamp: Timestamp)

  datatype HistoryItem = HistoryItem(id: Id, evaluation: Evaluation)

  /** Scores per dimension id. */
  type DimScores = map<string, real>

  /** A JavaScript object of score entries, in key order. Keys are distinct. */
  type ScoreTable = seq<(string, DimScores)>

  /** The scoring object attached to a history record. */
  datatype Scoring = Scoring(
    scores: Option<ScoreTable>,
    dimensions: seq<string>,
    migrated: bool,
    originalScores: Option<ScoreTable>)
}
