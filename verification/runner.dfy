/** The test page's evaluation runs: the single-task grid (every selected model, each run
    `repeatCount` times), the task chain on every selected model, the dispatch between them,
    and the task picker's search filter. */
module Runner {

  import opened Wrappers
  import opened Text
  import opened Seqs
  import opened Entities
  import Storage
  import Chain

  // ---------------------------------------------------------------------------------------
  // The single-task grid
  // ---------------------------------------------------------------------------------------

  /** A grid run id: `exec_`, the clock reading, the model's key and the repeat number,
      joined by underscores; it is never read as a chain step id. */
  function ExecutionId(stamp: string, m: Model, j: nat): (id: string)
    ensures "exec_" <= id && !("step_" <= id)
  {
    var id := "exec_" + stamp + "_" + ModelKey(m) + "_" + NatToString(j);
    assert id[1] == 'x';
    id
  }

  /** The record of one grid call; a thrown error is stamped with the time of the `catch`. */
  function GridAttempt(o: Outcome, caught: Timestamp): (a: Attempt)
    ensures o.Returned? ==> a == Answered(o.result)
    ensures o.Threw? ==> a == Raised(o.message, caught)
  {
    match o
    case Returned(res) => Answered(res)
    case Threw(msg) => Raised(msg, caught)
  }

  /** Execution `x` is repeat number `j` of model `m`: it records that number, an id made
      from the clock reading at that repeat, and what the call for that repeat gave. */
  predicate IsRepeat(x: Execution, m: Model, task: Task, call: Chain.Caller, stamp: nat -> string,
                     clock: nat -> Timestamp, j: nat)
  {
    x.executionIndex == j &&
    x.executionId == ExecutionId(stamp(j), m, j) &&
    x.attempt == GridAttempt(call(m, task.fields.systemPrompt, task.fields.userPrompt, j), clock(j))
  }

  /** The repeat loop for one model, from iteration `j` up to (not including) `n`. A thrown
      call does not stop it. */
  function RunExecutions(m: Model, task: Task, call: Chain.Caller, stamp: nat -> string, clock: nat -> Timestamp,
                         j: nat, n: int): (r: seq<Execution>)
    ensures |r| == if j < n then n - j else 0
    ensures forall k | 0 <= k < |r| :: IsRepeat(r[k], m, task, call, stamp, clock, j + k)
    decreases n - j
  {
    if j >= n then []
    else
      var o := call(m, task.fields.systemPrompt, task.fields.userPrompt, j);
      [Execution(ExecutionId(stamp(j), m, j), j, GridAttempt(o, clock(j)))] +
      RunExecutions(m, task, call, stamp, clock, j + 1, n)
  }

  /** Entry `e` holds the `n` repeats of the model at position `i` of the selection. */
  predicate IsModelRun(e: ModelExecutions, models: seq<Model>, task: Task, call: Chain.Caller,
                       stamps: nat -> nat -> string, clocks: nat -> nat -> Timestamp, n: int, i: nat)
    requires i < |models|
  {
    e.model == models[i] && e.executions == RunExecutions(models[i], task, call, stamps(i), clocks(i), 0, n)
  }

  /** The outer loop: one entry per model, in order, from model position `i` on. */
  function RunGrid(models: seq<Model>, task: Task, call: Chain.Caller, stamps: nat -> nat -> string,
                   clocks: nat -> nat -> Timestamp, n: int, i: nat): (r: seq<ModelExecutions>)
    requires i <= |models|
    ensures |r| == |models| - i
    ensures forall k | 0 <= k < |r| :: IsModelRun(r[k], models, task, call, stamps, clocks, n, i + k)
    decreases |models| - i
  {
    if i == |models| then []
    else
      var rest := RunGrid(models, task, call, stamps, clocks, n, i + 1);
      var first := RunExecutions(models[i], task, call, stamps(i), clocks(i), 0, n);
      var r := [ModelExecutions(models[i], first)] + rest;
      assert forall k | 1 <= k < |r| :: r[k] == rest[k - 1];
      r
  }

  /** How many times each model runs the task: the parsed repeat input when repetition is
      switched on, once otherwise. */
  function RepeatCount(enabled: bool, parsed: int): (n: int)
    ensures !enabled ==> n == 1
    ensures enabled ==> n == parsed
  {
    if enabled then parsed else 1
  }

  /** `executeSingleTask`: nothing happens without a selected, existing task; otherwise every
      selected model runs the task `repeatCount` times (none when it is not positive), and
      every run is recorded under a fresh `exec_` id with its position. */
  function ExecuteSingleTask(selectedTaskId: Id, tasks: seq<Task>, models: seq<Model>, enabled: bool, parsed: int,
                             call: Chain.Caller, stamps: nat -> nat -> string, clocks: nat -> nat -> Timestamp,
                             now: Timestamp): (r: Option<Evaluation>)
    ensures r.None? <==> selectedTaskId == "" || Storage.GetTask(tasks, selectedTaskId).None?
    ensures r.Some? ==>
              var e := r.value;
              e.SingleEvaluation? &&
              Some(e.task) == Storage.GetTask(tasks, selectedTaskId) &&
              e.repeatCount == RepeatCount(enabled, parsed) &&
              e.timestamp == now &&
              |e.singleResults| == |models| &&
              forall i | 0 <= i < |models| ::
                e.singleResults[i].model == models[i] &&
                |e.singleResults[i].executions| == (if e.repeatCount > 0 then e.repeatCount else 0) &&
                forall j | 0 <= j < |e.singleResults[i].executions| ::
                  var x := e.singleResults[i].executions[j];
                  x.executionIndex == j &&
                  x.executionId == ExecutionId(stamps(i)(j), models[i], j) &&
                  x.attempt == GridAttempt(call(models[i], e.task.fields.systemPrompt, e.task.fields.userPrompt, j), clocks(i)(j))
  {
    if selectedTaskId == "" then None
    else match Storage.GetTask(tasks, selectedTaskId)
      case None => None
      case Some(task) =>
        var n := RepeatCount(enabled, parsed);
        Some(SingleEvaluation(task, n, RunGrid(models, task, call, stamps, clocks, n, 0), now))
  }

  // ---------------------------------------------------------------------------------------
  // The chain on every model
  // ---------------------------------------------------------------------------------------

  /** The per-model loop from model position `i`: `None` when some model's run met the
      uncaught `TypeError`, which abandons the whole evaluation. */
  function RunChainModels(models: seq<Model>, chain: seq<ChainStep>, tasks: seq<Task>, call: Chain.Caller,
                          stamps: nat -> nat -> string, i: nat): (r: Option<seq<ModelSteps>>)
    requires i <= |models|
    ensures r.None? <==>
              exists k | i <= k < |models| :: Chain.RunSteps(models[k], chain, tasks, call, stamps(k), 0, Chain.Text("")).Crashed?
    ensures r.Some? ==>
              |r.value| == |models| - i &&
              forall k | 0 <= k < |r.value| ::
                r.value[k].model == models[i + k] &&
                Chain.RunSteps(models[i + k], chain, tasks, call, stamps(i + k), 0, Chain.Text("")) == Chain.Ran(r.value[k].steps)
    decreases |models| - i
  {
    if i == |models| then Some([])
    else
      match Chain.RunSteps(models[i], chain, tasks, call, stamps(i), 0, Chain.Text(""))
      case Crashed => None
      case Ran(steps) =>
        match RunChainModels(models, chain, tasks, call, stamps, i + 1)
        case None => None
        case Some(rest) =>
          var r := [ModelSteps(models[i], steps)] + rest;
          assert forall k | 1 <= k < |r| :: r[k] == rest[k - 1];
          Some(r)
  }

  /** How `executeTaskChain` ends. */
  datatype ChainRun = NotStarted | Crashed | Completed(evaluation: Evaluation)

  /** `executeTaskChain`: nothing happens for an empty chain; otherwise each model runs the
      chain from an empty previous output, and the record keeps the chain and one entry per
      model, in order. */
  function ExecuteTaskChain(models: seq<Model>, chain: seq<ChainStep>, tasks: seq<Task>, call: Chain.Caller,
                            stamps: nat -> nat -> string, now: Timestamp): (r: ChainRun)
    ensures r.NotStarted? <==> |chain| == 0
    ensures r.Crashed? <==>
              |chain| > 0 &&
              exists k | 0 <= k < |models| :: Chain.RunSteps(models[k], chain, tasks, call, stamps(k), 0, Chain.Text("")).Crashed?
    ensures r.Completed? ==>
              var e := r.evaluation;
              e.ChainEvaluation? && e.chain == chain && e.timestamp == now &&
              |e.chainResults| == |models| &&
              forall k | 0 <= k < |models| ::
                e.chainResults[k].model == models[k] &&
                Chain.RunSteps(models[k], chain, tasks, call, stamps(k), 0, Chain.Text("")) == Chain.Ran(e.chainResults[k].steps)
  {
    if |chain| == 0 then NotStarted
    else match RunChainModels(models, chain, tasks, call, stamps, 0)
      case None => Crashed
      case Some(results) => Completed(ChainEvaluation(chain, results, now))
  }

  // ---------------------------------------------------------------------------------------
  // Starting an evaluation
  // ---------------------------------------------------------------------------------------

  datatype TaskMode = SingleTask | TaskChain

  /** `startEvaluation`: with no model selected nothing runs; otherwise the page's mode
      picks the runner. The result is the record written to history, if any. */
  function StartEvaluation(mode: TaskMode, models: seq<Model>, selectedTaskId: Id, tasks: seq<Task>,
                           enabled: bool, parsed: int, chain: seq<ChainStep>, call: Chain.Caller,
                           stamps: nat -> nat -> string, clocks: nat -> nat -> Timestamp, now: Timestamp): (r: Option<Evaluation>)
    ensures |models| == 0 ==> r.None?
    ensures r.Some? ==> (r.value.SingleEvaluation? <==> mode == SingleTask)
    ensures mode == TaskChain && |models| > 0 ==> (r.None? <==> ExecuteTaskChain(models, chain, tasks, call, stamps, now).Completed? == false)
    ensures mode == SingleTask && |models| > 0 ==> r == ExecuteSingleTask(selectedTaskId, tasks, models, enabled, parsed, call, stamps, clocks, now)
    ensures mode == TaskChain && |models| > 0 && ExecuteTaskChain(models, chain, tasks, call, stamps, now).Completed? ==>
              r == Some(ExecuteTaskChain(models, chain, tasks, call, stamps, now).evaluation)
  {
    if |models| == 0 then None
    else match mode
      case SingleTask => ExecuteSingleTask(selectedTaskId, tasks, models, enabled, parsed, call, stamps, clocks, now)
      case TaskChain =>
        match ExecuteTaskChain(models, chain, tasks, call, stamps, now)
        case Completed(e) => Some(e)
        case _ => None
  }

  /** `saveToHistory`: a finished run becomes the newest history item. */
  function SaveToHistory(history: seq<HistoryItem>, id: Id, run: Option<Evaluation>): (r: seq<HistoryItem>)
    ensures run.None? ==> r == history
    ensures run.Some? ==> r == Storage.SaveHistory(history, HistoryItem(id, run.value))
  {
    match run
    case None => history
    case Some(e) => Storage.SaveHistory(history, HistoryItem(id, e))
  }

  /** A grid run records `exec_` ids only. */
  lemma SingleRunIdsCurrent(selectedTaskId: Id, tasks: seq<Task>, models: seq<Model>, enabled: bool, parsed: int,
                            call: Chain.Caller, stamps: nat -> nat -> string, clocks: nat -> nat -> Timestamp, now: Timestamp)
    ensures var r := ExecuteSingleTask(selectedTaskId, tasks, models, enabled, parsed, call, stamps, clocks, now);
            r.Some? ==> Storage.RunIdsCurrent(r.value)
  {
    var r := ExecuteSingleTask(selectedTaskId, tasks, models, enabled, parsed, call, stamps, clocks, now);
    if r.Some? {
      var results := r.value.singleResults;
      forall i, j | 0 <= i < |results| && 0 <= j < |results[i].executions|
        ensures Storage.CurrentFormatKey(results[i].executions[j].executionId)
      {
        assert "exec_" <= results[i].executions[j].executionId;
      }
    }
  }

  /** A chain run records `step_` ids only. */
  lemma ChainRunIdsCurrent(models: seq<Model>, chain: seq<ChainStep>, tasks: seq<Task>, call: Chain.Caller,
                           stamps: nat -> nat -> string, now: Timestamp)
    ensures var r := ExecuteTaskChain(models, chain, tasks, call, stamps, now);
            r.Completed? ==> Storage.RunIdsCurrent(r.evaluation)
  {
    var r := ExecuteTaskChain(models, chain, tasks, call, stamps, now);
    if r.Completed? {
      var results := r.evaluation.chainResults;
      forall i, j | 0 <= i < |results| && 0 <= j < |results[i].steps|
        ensures Storage.CurrentFormatKey(results[i].steps[j].stepId)
      {
        Chain.RunStepsFaithful(models[i], chain, tasks, call, stamps(i), 0, Chain.Text(""));
        assert Chain.StepFaithful(models[i], chain, tasks, call, stamps(i), results[i].steps[j]);
      }
    }
  }

  /** Every record a run writes carries its run ids in the current `exec_`/`step_` format, so
      score migration leaves its scores alone on every later load. */
  lemma RunsHaveCurrentIds(mode: TaskMode, models: seq<Model>, selectedTaskId: Id, tasks: seq<Task>,
                           enabled: bool, parsed: int, chain: seq<ChainStep>, call: Chain.Caller,
                           stamps: nat -> nat -> string, clocks: nat -> nat -> Timestamp, now: Timestamp,
                           s: Option<Scoring>)
    ensures var r := StartEvaluation(mode, models, selectedTaskId, tasks, enabled, parsed, chain, call, stamps, clocks, now);
            r.Some? ==>
              Storage.RunIdsCurrent(r.value) &&
              Storage.MigrateScores(Storage.MigrateScores(s, r.value), r.value) == Storage.MigrateScores(s, r.value)
  {
    var r := StartEvaluation(mode, models, selectedTaskId, tasks, enabled, parsed, chain, call, stamps, clocks, now);
    if r.Some? {
      if mode == SingleTask {
        SingleRunIdsCurrent(selectedTaskId, tasks, models, enabled, parsed, call, stamps, clocks, now);
      } else {
        ChainRunIdsCurrent(models, chain, tasks, call, stamps, now);
        assert ExecuteTaskChain(models, chain, tasks, call, stamps, now) == Completed(r.value);
      }
      Storage.MigrateIdempotent(s, r.value);
    }
  }

  // ---------------------------------------------------------------------------------------
  // The task picker's search
  // ---------------------------------------------------------------------------------------

  /** The search box value, lower-cased and then trimmed. */
  function SearchTerm(raw: string): (term: string)
    ensures IsTrimmed(term)
    ensures exists i :: TrimmedAt(LowerStr(raw), term, i)
  {
    Trim(LowerStr(raw))
  }

  /** A task matches when its name, description, user prompt, system prompt or one of its
      tags contains the term, ignoring case. */
  predicate MatchesTerm(term: string, t: Task) {
    Contains(LowerStr(t.fields.name), term) ||
    Contains(LowerStr(t.fields.description), term) ||
    Contains(LowerStr(t.fields.userPrompt), term) ||
    Contains(LowerStr(t.fields.systemPrompt), term) ||
    exists k | 0 <= k < |t.fields.tags| :: Contains(LowerStr(t.fields.tags[k]), term)
  }

  /** `filterTasksInModal`: a blank search lists every task; otherwise exactly the matching
      tasks, in store order. */
  function FilterTasksInModal(tasks: seq<Task>, raw: string): (r: seq<Task>)
    ensures AllSpace(LowerStr(raw)) ==> r == tasks
    ensures Subseq(r, tasks)
    ensures !AllSpace(LowerStr(raw)) ==>
              (forall k | 0 <= k < |r| :: MatchesTerm(SearchTerm(raw), r[k])) &&
              (forall k | 0 <= k < |tasks| && MatchesTerm(SearchTerm(raw), tasks[k]) :: tasks[k] in r) &&
              |r| == Count(tasks, t => MatchesTerm(SearchTerm(raw), t))
  {
    var term := SearchTerm(raw);
    TrimBlank(LowerStr(raw));
    if term == "" then (SubseqRefl(tasks); tasks)
    else
      FilterIsSubseq(tasks, t => MatchesTerm(term, t));
      Filter(tasks, t => MatchesTerm(term, t))
  }

  /** Searching the search's own result with the same text changes nothing. */
  lemma ModalFilterIdempotent(tasks: seq<Task>, raw: string)
    ensures FilterTasksInModal(FilterTasksInModal(tasks, raw), raw) == FilterTasksInModal(tasks, raw)
  {
    var term := SearchTerm(raw);
    if term != "" {
      FilterIdempotent(tasks, t => MatchesTerm(term, t));
    }
  }
}
