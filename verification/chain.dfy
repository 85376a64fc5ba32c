/** The task chain of the test page: how it is assembled step by step, how each step's prompt
    is derived from the output before it, and the sequential loop that runs it on one model. */
module Chain {

  import opened Wrappers
  import opened Text
  import opened Entities
  import Storage

  // ---------------------------------------------------------------------------------------
  // Assembling the chain
  // ---------------------------------------------------------------------------------------

  /** Every step's `order` is its position. */
  predicate WellNumbered(chain: seq<ChainStep>) {
    forall k | 0 <= k < |chain| :: chain[k].order == k
  }

  /** `addTaskToChain(taskId)`: a known task is appended with the next order number, reading
      the original prompt when it is the first step and the previous output otherwise. */
  function AddTaskToChain(chain: seq<ChainStep>, tasks: seq<Task>, taskId: Id): (r: seq<ChainStep>)
    ensures Storage.GetTask(tasks, taskId).None? ==> r == chain
    ensures Storage.GetTask(tasks, taskId).Some? ==>
              |r| == |chain| + 1 && r[..|chain|] == chain &&
              r[|chain|] == ChainStep(taskId, |chain|, if |chain| == 0 then Original else Previous)
    ensures WellNumbered(chain) ==> WellNumbered(r)
  {
    match Storage.GetTask(tasks, taskId)
    case None => chain
    case Some(task) =>
      chain + [ChainStep(task.id, |chain|, if |chain| == 0 then Original else Previous)]
  }

  /** `chainTasks[index]` exists: a valid position (anything else reads `undefined`). */
  function UpdateChainInputMode(chain: seq<ChainStep>, index: int, mode: InputMode): (r: seq<ChainStep>)
    ensures |r| == |chain|
    ensures forall k | 0 <= k < |chain| && k != index :: r[k] == chain[k]
    ensures 0 <= index < |chain| ==>
              r[index].inputMode == mode && r[index].taskId == chain[index].taskId &&
              r[index].order == chain[index].order
    ensures WellNumbered(chain) ==> WellNumbered(r)
  {
    if 0 <= index < |chain| then chain[index := chain[index].(inputMode := mode)] else chain
  }

  /** Where `splice(index, 1)` starts: a negative index counts from the end, clamped at 0;
      a large one is clamped at the length (and removes nothing). */
  function SpliceStart(len: nat, index: int): (s: nat)
    ensures s <= len
  {
    if index < 0 then (if len + index < 0 then 0 else len + index)
    else if index > len then len
    else index
  }

  /** `removeFromChain(index)`: `splice(index, 1)`, then every step renumbered by position. */
  function RemoveFromChain(chain: seq<ChainStep>, index: int): (r: seq<ChainStep>)
    ensures var s := SpliceStart(|chain|, index);
            var kept := if s < |chain| then chain[..s] + chain[s + 1..] else chain;
            |r| == |kept| &&
            forall k | 0 <= k < |r| :: r[k] == kept[k].(order := k)
    ensures WellNumbered(r)
    ensures 0 <= index < |chain| ==> |r| == |chain| - 1
  {
    var s := SpliceStart(|chain|, index);
    var kept := if s < |chain| then chain[..s] + chain[s + 1..] else chain;
    Renumber(kept)
  }

  function Renumber(steps: seq<ChainStep>): (r: seq<ChainStep>) {
    seq(|steps|, k requires 0 <= k < |steps| => steps[k].(order := k))
  }

  /** Removing the step just added restores the chain. */
  lemma RemoveUndoesAdd(chain: seq<ChainStep>, tasks: seq<Task>, taskId: Id)
    requires WellNumbered(chain)
    ensures RemoveFromChain(AddTaskToChain(chain, tasks, taskId), |chain|) == chain ||
            Storage.GetTask(tasks, taskId).None?
  {
    var added := AddTaskToChain(chain, tasks, taskId);
    if Storage.GetTask(tasks, taskId).Some? {
      var r := RemoveFromChain(added, |chain|);
      assert added[..|chain|] + added[|chain| + 1..] == chain;
      assert forall k | 0 <= k < |chain| :: r[k] == chain[k];
    }
  }

  // ---------------------------------------------------------------------------------------
  // Deriving a step's prompt
  // ---------------------------------------------------------------------------------------

  /** `previousOutput`: text, or `undefined` after a call that returned `success: false`
      (such a result has no `content`). */
  datatype Carried = Text(text: string) | Undefined

  /** `undefined` interpolated into a string. */
  function Render(c: Carried): string {
    match c
    case Text(s) => s
    case Undefined => "undefined"
  }

  /** What a returned result hands on to the next step: `result.content`. */
  function Carry(res: CallResult): (c: Carried)
    ensures c.Text? <==> res.Succeeded?
  {
    match res
    case Succeeded(content, _, _, _, _, _) => Text(content)
    case Failed(_, _, _) => Undefined
  }

  const OutputVariable: string := "{{output}}"

  /** The prompt a step starts from before substitution: the task's own for the first chain
      position, otherwise chosen by the step's mode. */
  function BaseInput(i: nat, mode: InputMode, taskPrompt: string, prev: Carried): (r: Carried)
    ensures i == 0 || mode == Original ==> r == Text(taskPrompt)
    ensures i > 0 && mode == Previous ==> r == prev
    ensures i > 0 && mode == Concat ==> r == Text(taskPrompt + "\n\n" + Render(prev))
  {
    if i == 0 then Text(taskPrompt)
    else match mode
      case Previous => prev
      case Original => Text(taskPrompt)
      case Concat => Text(taskPrompt + "\n\n" + Render(prev))
  }

  /** The step's prompt, with every `{{output}}` replaced by the previous output taken
      literally. `None` is the `TypeError` of calling `includes` on `undefined`: a step past
      the first in `previous` mode after a failed call. */
  function StepPrompt(i: nat, mode: InputMode, taskPrompt: string, prev: Carried): (r: Option<string>)
    ensures r.None? <==> i > 0 && mode == Previous && prev == Undefined
    ensures i == 0 ==> r == Some(taskPrompt)
    ensures i > 0 && r.Some? ==> r.value == ReplaceAll(BaseInput(i, mode, taskPrompt, prev).text, OutputVariable, Render(prev))
    ensures i > 0 && mode == Original && !Contains(taskPrompt, OutputVariable) ==> r == Some(taskPrompt)
  {
    var base := BaseInput(i, mode, taskPrompt, prev);
    if i == 0 then Some(taskPrompt)
    else if base.Undefined? then None
    else if Contains(base.text, OutputVariable) then Some(ReplaceAll(base.text, OutputVariable, Render(prev)))
    else Some(base.text)
  }

  /** The same rule with the engine's `String.prototype.replace`, which expands `$$`, `$&`,
      `` $` `` and `$'` found in the previous output. */
  function StepPromptAsWritten(i: nat, mode: InputMode, taskPrompt: string, prev: Carried): Option<string> {
    var base := BaseInput(i, mode, taskPrompt, prev);
    if i == 0 then Some(taskPrompt)
    else if base.Undefined? then None
    else if Contains(base.text, OutputVariable) then Some(JsReplaceAll(base.text, OutputVariable, Render(prev)))
    else Some(base.text)
  }

  /** The two agree whenever the previous output has no `$`. */
  lemma AsWrittenAgreesWithoutDollar(i: nat, mode: InputMode, taskPrompt: string, prev: Carried)
    requires '$' !in Render(prev)
    ensures StepPromptAsWritten(i, mode, taskPrompt, prev) == StepPrompt(i, mode, taskPrompt, prev)
  {
    var base := BaseInput(i, mode, taskPrompt, prev);
    if i > 0 && base.Text? {
      JsReplaceAllLiteral(base.text, OutputVariable, Render(prev));
    }
  }

  /** They differ whenever the previous output starts with `$$`: on the template `{{output}}`
      at any later step, the code drops one of the two dollars, the literal rule keeps both. */
  lemma AsWrittenCollapsesDollars(i: nat, x: string)
    requires i > 0 && '$' !in x
    ensures StepPromptAsWritten(i, Original, OutputVariable, Text("$$" + x)) == Some("$" + x)
    ensures StepPrompt(i, Original, OutputVariable, Text("$$" + x)) == Some("$$" + x)
  {
    var rep := "$$" + x;
    ContainsSelf(OutputVariable, OutputVariable);
    assert OutputVariable <= OutputVariable[0..];
    assert OutputVariable[|OutputVariable|..] == [];
    SubstitutionLiteral(x, OutputVariable, 0, |OutputVariable|);
    assert rep[2..] == x;
    assert Substitution(rep, OutputVariable, 0, |OutputVariable|) == "$" + x;
    assert JsReplaceFrom(OutputVariable, OutputVariable, rep, |OutputVariable|) == [];
    assert JsReplaceFrom(OutputVariable, OutputVariable, rep, 0) == "$" + x + [];
    assert ReplaceAll([], OutputVariable, rep) == [];
    assert ReplaceAll(OutputVariable, OutputVariable, rep) == rep + [];
    assert rep[0] == '$' && rep[1] == '$';
    assert BaseInput(i, Original, OutputVariable, Text(rep)) == Text(OutputVariable);
    assert Contains(OutputVariable, OutputVariable);
    assert JsReplaceAll(OutputVariable, OutputVariable, rep) == "$" + x;
    assert ReplaceAll(OutputVariable, OutputVariable, rep) == rep;
  }

  // ---------------------------------------------------------------------------------------
  // Running the chain on one model
  // ---------------------------------------------------------------------------------------

  /** The provider call as the test page awaits it: `(model, system, user, chain position)`.
      The position lets repeated calls with the same text answer differently. */
  type Caller = (Model, string, string, nat) -> Outcome

  /** The record a step keeps of its call; a thrown error's record has no timestamp. */
  function ChainAttempt(o: Outcome): (a: Attempt)
    ensures o.Returned? ==> a == Answered(o.result)
    ensures o.Threw? ==> a == Raised(o.message, "")
  {
    match o
    case Returned(res) => Answered(res)
    case Threw(msg) => Raised(msg, "")
  }

  /** A chain step's run id: `step_`, the clock reading, the model's key and the step's
      position, joined by underscores. */
  function StepId(stamp: string, m: Model, i: nat): (id: string)
    ensures "step_" <= id
  {
    "step_" + stamp + "_" + ModelKey(m) + "_" + NatToString(i)
  }

  /** The loop stopped on an uncaught `TypeError`, or ran to its end or to a thrown call. */
  datatype StepsRun = Crashed | Ran(steps: seq<StepRecord>)

  /** A recorded step is about a chain position whose task exists, and records that
      position's task and mode and the outcome of the call made with its input. */
  predicate StepFaithful(m: Model, chain: seq<ChainStep>, tasks: seq<Task>, call: Caller, stamp: nat -> string, s: StepRecord) {
    s.stepIndex < |chain| &&
    Storage.GetTask(tasks, chain[s.stepIndex].taskId) == Some(s.task) &&
    s.inputMode == chain[s.stepIndex].inputMode &&
    s.stepId == StepId(stamp(s.stepIndex), m, s.stepIndex) &&
    s.attempt == ChainAttempt(call(m, s.task.fields.systemPrompt, s.input, s.stepIndex))
  }

  /** The previous output a recorded step hands on. */
  function Handed(s: StepRecord): Carried {
    if s.attempt.Answered? then Carry(s.attempt.result) else Undefined
  }

  /** The inner loop of `executeTaskChain` from chain position `i` with `prev` as
      `previousOutput`. */
  function RunSteps(m: Model, chain: seq<ChainStep>, tasks: seq<Task>, call: Caller, stamp: nat -> string,
                    i: nat, prev: Carried): (r: StepsRun)
    decreases |chain| - i
  {
    if i >= |chain| then Ran([])
    else
      match Storage.GetTask(tasks, chain[i].taskId)
      case None => RunSteps(m, chain, tasks, call, stamp, i + 1, prev)
      case Some(task) =>
        match StepPrompt(i, chain[i].inputMode, task.fields.userPrompt, prev)
        case None => Crashed
        case Some(input) =>
          var o := call(m, task.fields.systemPrompt, input, i);
          var rec := StepRecord(StepId(stamp(i), m, i), i, task, input, chain[i].inputMode, ChainAttempt(o));
          match o
          case Threw(_) => Ran([rec])
          case Returned(res) =>
            match RunSteps(m, chain, tasks, call, stamp, i + 1, Carry(res))
            case Crashed => Crashed
            case Ran(rest) => Ran([rec] + rest)
  }

  /** Every recorded step is faithful and about a position from `i` on. */
  predicate AllFaithful(m: Model, chain: seq<ChainStep>, tasks: seq<Task>, call: Caller, stamp: nat -> string,
                        i: nat, steps: seq<StepRecord>) {
    forall k | 0 <= k < |steps| :: i <= steps[k].stepIndex && StepFaithful(m, chain, tasks, call, stamp, steps[k])
  }

  /** Recorded positions strictly increase. */
  predicate Increasing(steps: seq<StepRecord>) {
    forall k | 0 <= k < |steps| - 1 :: steps[k].stepIndex < steps[k + 1].stepIndex
  }

  /** Recorded steps are faithful and about positions from `i` on, strictly increasing. */
  predicate Faithful(m: Model, chain: seq<ChainStep>, tasks: seq<Task>, call: Caller, stamp: nat -> string,
                     i: nat, steps: seq<StepRecord>) {
    AllFaithful(m, chain, tasks, call, stamp, i, steps) && Increasing(steps)
  }

  /** Only the last recorded step may be a thrown error. */
  predicate AnsweredButLast(steps: seq<StepRecord>) {
    forall k | 0 <= k < |steps| - 1 :: steps[k].attempt.Answered?
  }

  /** Each step's input is the prompt rule applied to the output handed on by the step
      recorded before it (to `prev` for the first one). */
  predicate Threaded(steps: seq<StepRecord>, prev: Carried) {
    (|steps| > 0 ==>
       StepPrompt(steps[0].stepIndex, steps[0].inputMode, steps[0].task.fields.userPrompt, prev) == Some(steps[0].input)) &&
    (forall k | 0 < k < |steps| ::
       StepPrompt(steps[k].stepIndex, steps[k].inputMode, steps[k].task.fields.userPrompt, Handed(steps[k - 1])) == Some(steps[k].input))
  }

  lemma ThreadedPrepend(rec: StepRecord, rest: seq<StepRecord>, prev: Carried)
    requires StepPrompt(rec.stepIndex, rec.inputMode, rec.task.fields.userPrompt, prev) == Some(rec.input)
    requires Threaded(rest, Handed(rec))
    ensures Threaded([rec] + rest, prev)
  {
    var all := [rec] + rest;
    forall k | 0 < k < |all|
      ensures StepPrompt(all[k].stepIndex, all[k].inputMode, all[k].task.fields.userPrompt, Handed(all[k - 1])) == Some(all[k].input)
    {
      assert all[k] == rest[k - 1];
      if k > 1 {
        assert all[k - 1] == rest[k - 2];
      }
    }
  }

  lemma AllFaithfulPrepend(m: Model, chain: seq<ChainStep>, tasks: seq<Task>, call: Caller, stamp: nat -> string,
                           i: nat, rec: StepRecord, rest: seq<StepRecord>)
    requires rec.stepIndex == i && StepFaithful(m, chain, tasks, call, stamp, rec)
    requires AllFaithful(m, chain, tasks, call, stamp, i + 1, rest)
    ensures AllFaithful(m, chain, tasks, call, stamp, i, [rec] + rest)
  {
    var all := [rec] + rest;
    forall k | 0 < k < |all|
      ensures i <= all[k].stepIndex && StepFaithful(m, chain, tasks, call, stamp, all[k])
    {
      assert all[k] == rest[k - 1];
    }
  }

  lemma IncreasingPrepend(rec: StepRecord, rest: seq<StepRecord>)
    requires Increasing(rest)
    requires forall k | 0 <= k < |rest| :: rec.stepIndex < rest[k].stepIndex
    ensures Increasing([rec] + rest)
  {
    var all := [rec] + rest;
    forall k | 0 < k < |all| - 1
      ensures all[k].stepIndex < all[k + 1].stepIndex
    {
      assert all[k] == rest[k - 1] && all[k + 1] == rest[k];
    }
  }

  lemma FaithfulPrepend(m: Model, chain: seq<ChainStep>, tasks: seq<Task>, call: Caller, stamp: nat -> string,
                        i: nat, rec: StepRecord, rest: seq<StepRecord>)
    requires rec.stepIndex == i && StepFaithful(m, chain, tasks, call, stamp, rec)
    requires Faithful(m, chain, tasks, call, stamp, i + 1, rest)
    ensures Faithful(m, chain, tasks, call, stamp, i, [rec] + rest)
  {
    AllFaithfulPrepend(m, chain, tasks, call, stamp, i, rec, rest);
    assert forall k | 0 <= k < |rest| :: i < rest[k].stepIndex;
    IncreasingPrepend(rec, rest);
  }

  /** The loop records faithful steps at strictly increasing positions from `i` on, no more
      than the positions left. */
  lemma {:induction false} RunStepsFaithful(m: Model, chain: seq<ChainStep>, tasks: seq<Task>, call: Caller,
                                            stamp: nat -> string, i: nat, prev: Carried)
    ensures var r := RunSteps(m, chain, tasks, call, stamp, i, prev);
            r.Ran? ==> (|r.steps| == 0 || i + |r.steps| <= |chain|) && Faithful(m, chain, tasks, call, stamp, i, r.steps)
    decreases |chain| - i
  {
    if i < |chain| {
      var r := RunSteps(m, chain, tasks, call, stamp, i, prev);
      match Storage.GetTask(tasks, chain[i].taskId)
      case None =>
        RunStepsFaithful(m, chain, tasks, call, stamp, i + 1, prev);
        assert r == RunSteps(m, chain, tasks, call, stamp, i + 1, prev);
      case Some(task) =>
        match StepPrompt(i, chain[i].inputMode, task.fields.userPrompt, prev)
        case None =>
          assert r == Crashed;
        case Some(input) =>
          var o := call(m, task.fields.systemPrompt, input, i);
          var rec := StepRecord(StepId(stamp(i), m, i), i, task, input, chain[i].inputMode, ChainAttempt(o));
          assert StepFaithful(m, chain, tasks, call, stamp, rec);
          match o
          case Threw(_) =>
            assert r == Ran([rec]);
          case Returned(res) =>
            RunStepsFaithful(m, chain, tasks, call, stamp, i + 1, Carry(res));
            var rest := RunSteps(m, chain, tasks, call, stamp, i + 1, Carry(res));
            if rest.Ran? {
              assert r == Ran([rec] + rest.steps);
              FaithfulPrepend(m, chain, tasks, call, stamp, i, rec, rest.steps);
            }
      }
  }

  /** A thrown call ends the loop, and each step's input is derived from the output of the
      step recorded before it. */
  lemma {:induction false} RunStepsThreaded(m: Model, chain: seq<ChainStep>, tasks: seq<Task>, call: Caller,
                                            stamp: nat -> string, i: nat, prev: Carried)
    ensures var r := RunSteps(m, chain, tasks, call, stamp, i, prev);
            r.Ran? ==> AnsweredButLast(r.steps) && Threaded(r.steps, prev)
    decreases |chain| - i
  {
    if i < |chain| {
      var r := RunSteps(m, chain, tasks, call, stamp, i, prev);
      match Storage.GetTask(tasks, chain[i].taskId)
      case None =>
        RunStepsThreaded(m, chain, tasks, call, stamp, i + 1, prev);
        assert r == RunSteps(m, chain, tasks, call, stamp, i + 1, prev);
      case Some(task) =>
        match StepPrompt(i, chain[i].inputMode, task.fields.userPrompt, prev)
        case None =>
          assert r == Crashed;
        case Some(input) =>
          var o := call(m, task.fields.systemPrompt, input, i);
          var rec := StepRecord(StepId(stamp(i), m, i), i, task, input, chain[i].inputMode, ChainAttempt(o));
          match o
          case Threw(_) =>
            assert r == Ran([rec]);
          case Returned(res) =>
            RunStepsThreaded(m, chain, tasks, call, stamp, i + 1, Carry(res));
            var rest := RunSteps(m, chain, tasks, call, stamp, i + 1, Carry(res));
            if rest.Ran? {
              assert r == Ran([rec] + rest.steps);
              assert Handed(rec) == Carry(res);
              ThreadedPrepend(rec, rest.steps, prev);
              assert forall k | 1 <= k < |r.steps| :: r.steps[k] == rest.steps[k - 1];
            }
      }
  }

  /** Some recorded step is about chain position `j`. */
  predicate Recorded(steps: seq<StepRecord>, j: nat) {
    exists k :: 0 <= k < |steps| && steps[k].stepIndex == j
  }

  /** Every position from `i` on whose task exists has a recorded step. */
  predicate Complete(steps: seq<StepRecord>, chain: seq<ChainStep>, tasks: seq<Task>, i: nat) {
    forall j | i <= j < |chain| && Storage.GetTask(tasks, chain[j].taskId).Some? :: Recorded(steps, j)
  }

  /** The last recorded step, if any, holds a returned result. */
  predicate EndsAnswered(steps: seq<StepRecord>) {
    |steps| == 0 || steps[|steps| - 1].attempt.Answered?
  }

  /** A position whose task is missing needs no step. */
  lemma CompleteSkip(steps: seq<StepRecord>, chain: seq<ChainStep>, tasks: seq<Task>, i: nat)
    requires i < |chain| && Storage.GetTask(tasks, chain[i].taskId).None?
    requires Complete(steps, chain, tasks, i + 1)
    ensures Complete(steps, chain, tasks, i)
  {
  }

  /** Prepending a step for position `i` to a run that is complete from `i + 1` whenever it
      ends answered gives a run complete from `i`, provided the whole run ends answered. */
  lemma CompletePrepend(rec: StepRecord, rest: seq<StepRecord>, chain: seq<ChainStep>, tasks: seq<Task>, i: nat)
    requires rec.stepIndex == i
    requires EndsAnswered(rest) ==> Complete(rest, chain, tasks, i + 1)
    requires EndsAnswered([rec] + rest)
    ensures Complete([rec] + rest, chain, tasks, i)
  {
    var all := [rec] + rest;
    if |rest| > 0 {
      assert all[|all| - 1] == rest[|rest| - 1];
    }
    assert Complete(rest, chain, tasks, i + 1);
    forall j | i <= j < |chain| && Storage.GetTask(tasks, chain[j].taskId).Some?
      ensures Recorded(all, j)
    {
      if j == i {
        assert all[0].stepIndex == j;
      } else {
        assert Recorded(rest, j);
        var k :| 0 <= k < |rest| && rest[k].stepIndex == j;
        assert all[k + 1] == rest[k];
      }
    }
  }

  /** Positions are skipped only for missing tasks: unless the run was cut short by a thrown
      call, every position from `i` on whose task exists has a recorded step. */
  lemma {:induction false} RunStepsComplete(m: Model, chain: seq<ChainStep>, tasks: seq<Task>, call: Caller,
                                            stamp: nat -> string, i: nat, prev: Carried)
    ensures var r := RunSteps(m, chain, tasks, call, stamp, i, prev);
            r.Ran? && EndsAnswered(r.steps) ==> Complete(r.steps, chain, tasks, i)
    decreases |chain| - i
  {
    var r := RunSteps(m, chain, tasks, call, stamp, i, prev);
    if i >= |chain| {
      assert Complete(r.steps, chain, tasks, i);
    } else {
      match Storage.GetTask(tasks, chain[i].taskId)
      case None =>
        RunStepsComplete(m, chain, tasks, call, stamp, i + 1, prev);
        assert r == RunSteps(m, chain, tasks, call, stamp, i + 1, prev);
        if r.Ran? && EndsAnswered(r.steps) {
          CompleteSkip(r.steps, chain, tasks, i);
        }
      case Some(task) =>
        match StepPrompt(i, chain[i].inputMode, task.fields.userPrompt, prev)
        case None =>
          assert r == Crashed;
        case Some(input) =>
          var o := call(m, task.fields.systemPrompt, input, i);
          match o
          case Threw(_) =>
            assert r.Ran? ==> !EndsAnswered(r.steps);
          case Returned(res) =>
            RunStepsComplete(m, chain, tasks, call, stamp, i + 1, Carry(res));
            var rest := RunSteps(m, chain, tasks, call, stamp, i + 1, Carry(res));
            if rest.Ran? {
              var rec := StepRecord(StepId(stamp(i), m, i), i, task, input, chain[i].inputMode, ChainAttempt(o));
              assert r == Ran([rec] + rest.steps);
              if EndsAnswered(r.steps) {
                CompletePrepend(rec, rest.steps, chain, tasks, i);
              }
            }
    }
  }

  /** A run that starts from text and whose every call returns a successful result never
      meets the `TypeError`. */
  lemma {:induction false} NoCrashWhenCallsSucceed(m: Model, chain: seq<ChainStep>, tasks: seq<Task>, call: Caller,
                                                   stamp: nat -> string, i: nat, prev: Carried)
    requires prev.Text?
    requires forall sys, usr, j :: call(m, sys, usr, j).Returned? && call(m, sys, usr, j).result.Succeeded?
    ensures RunSteps(m, chain, tasks, call, stamp, i, prev).Ran?
    decreases |chain| - i
  {
    if i < |chain| {
      match Storage.GetTask(tasks, chain[i].taskId)
      case None =>
        NoCrashWhenCallsSucceed(m, chain, tasks, call, stamp, i + 1, prev);
      case Some(task) =>
        var input := StepPrompt(i, chain[i].inputMode, task.fields.userPrompt, prev).value;
        var o := call(m, task.fields.systemPrompt, input, i);
        NoCrashWhenCallsSucceed(m, chain, tasks, call, stamp, i + 1, Carry(o.result));
    }
  }

  /** `APIClient.callModel` itself never throws; with such a caller no step records a thrown
      error, so (unless the `TypeError` ends everything) every existing task gets a step. */
  lemma NeverThrowingCallerRecordsEveryTask(m: Model, chain: seq<ChainStep>, tasks: seq<Task>, call: Caller,
                                            stamp: nat -> string, prev: Carried)
    requires forall sys, usr, j :: call(m, sys, usr, j).Returned?
    ensures var r := RunSteps(m, chain, tasks, call, stamp, 0, prev);
            r.Ran? ==>
              (forall k | 0 <= k < |r.steps| :: r.steps[k].attempt.Answered?) &&
              forall j | 0 <= j < |chain| && Storage.GetTask(tasks, chain[j].taskId).Some? :: Recorded(r.steps, j)
  {
    var r := RunSteps(m, chain, tasks, call, stamp, 0, prev);
    RunStepsFaithful(m, chain, tasks, call, stamp, 0, prev);
    RunStepsComplete(m, chain, tasks, call, stamp, 0, prev);
    if r.Ran? {
      forall k | 0 <= k < |r.steps|
        ensures r.steps[k].attempt.Answered?
      {
        var s := r.steps[k];
        assert StepFaithful(m, chain, tasks, call, stamp, s);
        assert call(m, s.task.fields.systemPrompt, s.input, s.stepIndex).Returned?;
      }
    }
  }
}
