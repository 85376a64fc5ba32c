/** The CSV export of the current evaluation: one header row, then one row per recorded
    execution (single-task mode) or per recorded step (chain mode). */
module Csv {

  import opened Wrappers
  import opened Text
  import opened Seqs
  import opened Entities
  import opened CsvReader

  const SingleHeaders: seq<string> :=
    ["模型名称", "提供商", "模型ID", "任务名称", "执行序号", "状态", "输出文本", "耗时(ms)", "Token数", "错误信息", "时间戳"]

  const ChainHeaders: seq<string> :=
    ["模型名称", "提供商", "模型ID", "步骤序号", "任务名称", "输入模式", "状态", "输出文本", "耗时(ms)", "Token数", "错误信息", "时间戳"]

  /** The byte-order mark put in front of the file so spreadsheet programs read it as UTF-8. */
  const ByteOrderMark: char := '\U{FEFF}'

  // ---------------------------------------------------------------------------------------
  // Cells
  // ---------------------------------------------------------------------------------------

  /** Quotes without escaping, as the name and provider cells are written: the cell reads
      back as the text exactly when the text holds no quote. */
  function WrapQuotes(s: string): (r: string)
    ensures ReadQuotedField(r) == Some(s) <==> '"' !in s
  {
    var r := "\"" + s + "\"";
    assert r[1..|r| - 1] == s;
    UnescapeSelf(s);
    r
  }

  /** Unescaping leaves a text unchanged exactly when it holds no quote. */
  lemma UnescapeSelf(s: string)
    ensures UnescapeQuotes(s) == Some(s) <==> '"' !in s
  {
    if '"' !in s {
      UnescapeQuoteFree(s);
    } else if UnescapeQuotes(s).Some? {
      UnescapeShrinks(s);
    }
  }

  lemma {:induction false} UnescapeQuoteFree(s: string)
    requires '"' !in s
    ensures UnescapeQuotes(s) == Some(s)
    decreases |s|
  {
    if |s| > 0 {
      assert s[0] in s;
      assert forall c | c in s[1..] :: c in s;
      UnescapeQuoteFree(s[1..]);
      assert [s[0]] + s[1..] == s;
    }
  }

  /** Every `""` read back loses a character, so a text with a quote never reads back as
      itself. */
  lemma {:induction false} UnescapeShrinks(s: string)
    requires UnescapeQuotes(s).Some?
    ensures |UnescapeQuotes(s).value| <= |s|
    ensures '"' in s ==> |UnescapeQuotes(s).value| < |s|
    decreases |s|
  {
    if |s| > 0 {
      if s[0] == '"' {
        UnescapeShrinks(s[2..]);
      } else {
        UnescapeShrinks(s[1..]);
        assert '"' in s ==> '"' in s[1..] by {
          if '"' in s {
            var x :| 0 <= x < |s| && s[x] == '"';
            assert s[1..][x - 1] == '"';
          }
        }
      }
    }
  }

  /** The error text a failed attempt shows: the result's `error`, or the thrown message. */
  function AttemptError(a: Attempt): string {
    match a
    case Answered(res) => if res.Failed? then res.error else ""
    case Raised(error, _) => error
  }

  /** `timestamp || ''`: the result's timestamp, or the one the `catch` set (possibly none). */
  function AttemptTimestamp(a: Attempt): Timestamp {
    match a
    case Answered(res) => res.timestamp
    case Raised(_, ts) => ts
  }

  /** Status, output, time, tokens, error and timestamp cells. A success shows its quoted,
      escaped output, its time and its token count; a failure shows only its quoted, escaped
      error. */
  function OutcomeCells(a: Attempt): (r: seq<string>)
    ensures |r| == 6
    ensures r[0] == (if a.Success() then "成功" else "失败")
    ensures r[5] == AttemptTimestamp(a)
    ensures a.Success() ==>
              ReadQuotedField(r[1]) == Some(a.result.content) &&
              r[2] == NatToString(a.result.responseTime) &&
              r[3] == NatToString(a.result.tokensUsed) &&
              r[4] == ""
    ensures !a.Success() ==>
              r[1] == "" && r[2] == "" && r[3] == "" &&
              ReadQuotedField(r[4]) == Some(AttemptError(a))
  {
    if a.Success() then
      QuoteFieldRoundTrip(a.result.content);
      ["成功", QuoteField(a.result.content), NatToString(a.result.responseTime), NatToString(a.result.tokensUsed),
       "", AttemptTimestamp(a)]
    else
      QuoteFieldRoundTrip(AttemptError(a));
      ["失败", "", "", "", QuoteField(AttemptError(a)), AttemptTimestamp(a)]
  }

  /** The label the chain export shows for an input mode. */
  function InputModeText(mode: InputMode): string {
    match mode
    case Previous => "使用上一输出"
    case Original => "使用原始prompt"
    case Concat => "拼接模式"
  }

  // ---------------------------------------------------------------------------------------
  // Rows
  // ---------------------------------------------------------------------------------------

  /** A single-task row; `quote` renders the model name, provider, model id and task name. */
  function SingleRow(quote: string -> string, m: Model, taskName: string, index: nat, a: Attempt): (r: seq<string>)
    ensures |r| == |SingleHeaders|
  {
    [quote(m.modelName), quote(m.provider), quote(m.modelId), quote(taskName), NatToString(index + 1)] + OutcomeCells(a)
  }

  /** The leading cells of a single-task row, named. */
  lemma SingleRowCells(quote: string -> string, m: Model, taskName: string, index: nat, a: Attempt)
    ensures var row := SingleRow(quote, m, taskName, index, a);
            row[0] == quote(m.modelName) && row[1] == quote(m.provider) && row[2] == quote(m.modelId) &&
            row[3] == quote(taskName) && row[4] == NatToString(index + 1)
  {
  }

  /** The leading cells of a chain row, named. */
  lemma ChainRowCells(quote: string -> string, m: Model, index: nat, s: StepRecord)
    ensures var row := ChainRow(quote, m, index, s);
            row[0] == quote(m.modelName) && row[1] == quote(m.provider) && row[2] == quote(m.modelId) &&
            row[3] == NatToString(index + 1) && row[4] == quote(s.task.fields.name) &&
            row[5] == quote(InputModeText(s.inputMode))
  {
  }

  /** A chain row; the step number counts recorded steps, not chain positions. */
  function ChainRow(quote: string -> string, m: Model, index: nat, s: StepRecord): (r: seq<string>)
    ensures |r| == |ChainHeaders|
  {
    [quote(m.modelName), quote(m.provider), quote(m.modelId), NatToString(index + 1), quote(s.task.fields.name),
     quote(InputModeText(s.inputMode))] + OutcomeCells(s.attempt)
  }

  function ExecutionRows(quote: string -> string, taskName: string, me: ModelExecutions): (r: seq<seq<string>>)
    ensures |r| == |me.executions|
    ensures forall k | 0 <= k < |r| :: r[k] == SingleRow(quote, me.model, taskName, k, me.executions[k].attempt)
  {
    seq(|me.executions|, k requires 0 <= k < |me.executions| => SingleRow(quote, me.model, taskName, k, me.executions[k].attempt))
  }

  function StepRows(quote: string -> string, ms: ModelSteps): (r: seq<seq<string>>)
    ensures |r| == |ms.steps|
    ensures forall k | 0 <= k < |r| :: r[k] == ChainRow(quote, ms.model, k, ms.steps[k])
  {
    seq(|ms.steps|, k requires 0 <= k < |ms.steps| => ChainRow(quote, ms.model, k, ms.steps[k]))
  }

  /** The rows of each model's executions, model by model. */
  function SingleBlocks(quote: string -> string, taskName: string, results: seq<ModelExecutions>): (r: seq<seq<seq<string>>>)
    ensures |r| == |results|
    ensures forall i | 0 <= i < |r| :: r[i] == ExecutionRows(quote, taskName, results[i])
  {
    seq(|results|, i requires 0 <= i < |results| => ExecutionRows(quote, taskName, results[i]))
  }

  function ChainBlocks(quote: string -> string, results: seq<ModelSteps>): (r: seq<seq<seq<string>>>)
    ensures |r| == |results|
    ensures forall i | 0 <= i < |r| :: r[i] == StepRows(quote, results[i])
  {
    seq(|results|, i requires 0 <= i < |results| => StepRows(quote, results[i]))
  }

  /** Where row `k` of block `i` lands below the header. */
  function RowIndex(blocks: seq<seq<seq<string>>>, i: nat, k: nat): nat
    requires i <= |blocks|
  {
    1 + Offset(blocks, i) + k
  }

  /** A header row followed by every block's rows, in order. */
  function WithHeader(header: seq<string>, blocks: seq<seq<seq<string>>>): (r: seq<seq<string>>)
    ensures |r| == 1 + Offset(blocks, |blocks|) && r[0] == header
  {
    [header] + Flatten(blocks)
  }

  /** Row `k` of block `i` sits at `RowIndex(blocks, i, k)`, and rows as wide as the header
      keep that width. */
  lemma WithHeaderRows(header: seq<string>, blocks: seq<seq<seq<string>>>)
    ensures forall i, k | 0 <= i < |blocks| && 0 <= k < |blocks[i]| ::
              RowIndex(blocks, i, k) < |WithHeader(header, blocks)| &&
              WithHeader(header, blocks)[RowIndex(blocks, i, k)] == blocks[i][k]
    ensures (forall i, k | 0 <= i < |blocks| && 0 <= k < |blocks[i]| :: |blocks[i][k]| == |header|) ==>
              forall k | 0 <= k < |WithHeader(header, blocks)| :: |WithHeader(header, blocks)[k]| == |header|
  {
    var r := WithHeader(header, blocks);
    forall i, k | 0 <= i < |blocks| && 0 <= k < |blocks[i]|
      ensures RowIndex(blocks, i, k) < |r| && r[RowIndex(blocks, i, k)] == blocks[i][k]
    {
      FlattenAt(blocks, i, k);
      assert r[RowIndex(blocks, i, k)] == Flatten(blocks)[Offset(blocks, i) + k];
    }
    if forall i, k | 0 <= i < |blocks| && 0 <= k < |blocks[i]| :: |blocks[i][k]| == |header| {
      FlattenRows(blocks, |header|);
      assert forall k | 1 <= k < |r| :: r[k] == Flatten(blocks)[k - 1];
    }
  }

  /** Header plus the rows of every model in turn (`generateSingleTaskCSV`): one row per
      recorded execution, each as wide as the header. */
  function SingleRowsWith(quote: string -> string, taskName: string, results: seq<ModelExecutions>): (r: seq<seq<string>>)
    ensures |r| == 1 + Offset(SingleBlocks(quote, taskName, results), |results|) && r[0] == SingleHeaders
    ensures forall k | 0 <= k < |r| :: |r[k]| == |SingleHeaders|
    ensures forall i, k | 0 <= i < |results| && 0 <= k < |results[i].executions| ::
              RowIndex(SingleBlocks(quote, taskName, results), i, k) < |r| &&
              r[RowIndex(SingleBlocks(quote, taskName, results), i, k)] ==
                SingleRow(quote, results[i].model, taskName, k, results[i].executions[k].attempt)
  {
    var blocks := SingleBlocks(quote, taskName, results);
    assert forall i, k | 0 <= i < |blocks| && 0 <= k < |blocks[i]| ::
             blocks[i][k] == SingleRow(quote, results[i].model, taskName, k, results[i].executions[k].attempt);
    WithHeaderRows(SingleHeaders, blocks);
    WithHeader(SingleHeaders, blocks)
  }

  /** Header plus the rows of every model in turn (`generateChainTaskCSV`): one row per
      recorded step, each as wide as the header. */
  function ChainRowsWith(quote: string -> string, results: seq<ModelSteps>): (r: seq<seq<string>>)
    ensures |r| == 1 + Offset(ChainBlocks(quote, results), |results|) && r[0] == ChainHeaders
    ensures forall k | 0 <= k < |r| :: |r[k]| == |ChainHeaders|
    ensures forall i, k | 0 <= i < |results| && 0 <= k < |results[i].steps| ::
              RowIndex(ChainBlocks(quote, results), i, k) < |r| &&
              r[RowIndex(ChainBlocks(quote, results), i, k)] == ChainRow(quote, results[i].model, k, results[i].steps[k])
  {
    var blocks := ChainBlocks(quote, results);
    assert forall i, k | 0 <= i < |blocks| && 0 <= k < |blocks[i]| ::
             blocks[i][k] == ChainRow(quote, results[i].model, k, results[i].steps[k]);
    WithHeaderRows(ChainHeaders, blocks);
    WithHeader(ChainHeaders, blocks)
  }

  /** Every row of a flattened block list has the width every block's rows have. */
  lemma {:induction false} FlattenRows(blocks: seq<seq<seq<string>>>, width: nat)
    requires forall i, k | 0 <= i < |blocks| && 0 <= k < |blocks[i]| :: |blocks[i][k]| == width
    ensures forall k | 0 <= k < |Flatten(blocks)| :: |Flatten(blocks)[k]| == width
    decreases |blocks|
  {
    if |blocks| > 0 {
      FlattenRows(blocks[..|blocks| - 1], width);
    }
  }

  /** The rows as the export writes them: task and model names escaped like every other
      quoted cell. */
  function SingleTaskRows(taskName: string, results: seq<ModelExecutions>): seq<seq<string>> {
    SingleRowsWith(QuoteField, taskName, results)
  }

  function ChainTaskRows(results: seq<ModelSteps>): seq<seq<string>> {
    ChainRowsWith(QuoteField, results)
  }

  /** The rows as the code writes them: names wrapped in quotes but not escaped. */
  function SingleTaskRowsAsWritten(taskName: string, results: seq<ModelExecutions>): seq<seq<string>> {
    SingleRowsWith(WrapQuotes, taskName, results)
  }

  function ChainTaskRowsAsWritten(results: seq<ModelSteps>): seq<seq<string>> {
    ChainRowsWith(WrapQuotes, results)
  }

  /** Every quoted cell of an exported row reads back as the text it shows: the model name,
      provider, model id and task name of the row's model and task, its output on success and
      its error on failure. */
  lemma SingleRowCellsReadBack(taskName: string, results: seq<ModelExecutions>, i: nat, k: nat)
    requires i < |results| && k < |results[i].executions|
    ensures RowIndex(SingleBlocks(QuoteField, taskName, results), i, k) < |SingleTaskRows(taskName, results)|
    ensures var row := SingleTaskRows(taskName, results)[RowIndex(SingleBlocks(QuoteField, taskName, results), i, k)];
            var a := results[i].executions[k].attempt;
            ReadQuotedField(row[0]) == Some(results[i].model.modelName) &&
            ReadQuotedField(row[1]) == Some(results[i].model.provider) &&
            ReadQuotedField(row[2]) == Some(results[i].model.modelId) &&
            ReadQuotedField(row[3]) == Some(taskName) &&
            row[4] == NatToString(k + 1) &&
            (a.Success() ==> ReadQuotedField(row[6]) == Some(a.result.content)) &&
            (!a.Success() ==> ReadQuotedField(row[9]) == Some(AttemptError(a)))
  {
    var blocks := SingleBlocks(QuoteField, taskName, results);
    var row := SingleTaskRows(taskName, results)[RowIndex(blocks, i, k)];
    assert row == SingleRow(QuoteField, results[i].model, taskName, k, results[i].executions[k].attempt);
    SingleRowReadBack(results[i].model, taskName, k, results[i].executions[k].attempt);
  }

  /** The quoted cells of one escaped single-task row read back as the texts they show. */
  lemma SingleRowReadBack(m: Model, taskName: string, k: nat, a: Attempt)
    ensures var row := SingleRow(QuoteField, m, taskName, k, a);
            ReadQuotedField(row[0]) == Some(m.modelName) &&
            ReadQuotedField(row[1]) == Some(m.provider) &&
            ReadQuotedField(row[2]) == Some(m.modelId) &&
            ReadQuotedField(row[3]) == Some(taskName) &&
            row[4] == NatToString(k + 1) &&
            (a.Success() ==> ReadQuotedField(row[6]) == Some(a.result.content)) &&
            (!a.Success() ==> ReadQuotedField(row[9]) == Some(AttemptError(a)))
  {
    SingleRowHeadReadBack(m, taskName, k, a);
    SingleRowOutcomeReadBack(m, taskName, k, a);
  }

  lemma SingleRowHeadReadBack(m: Model, taskName: string, k: nat, a: Attempt)
    ensures var row := SingleRow(QuoteField, m, taskName, k, a);
            ReadQuotedField(row[0]) == Some(m.modelName) &&
            ReadQuotedField(row[1]) == Some(m.provider) &&
            ReadQuotedField(row[2]) == Some(m.modelId) &&
            ReadQuotedField(row[3]) == Some(taskName) &&
            row[4] == NatToString(k + 1)
  {
    var row := SingleRow(QuoteField, m, taskName, k, a);
    assert row[..5] == [QuoteField(m.modelName), QuoteField(m.provider), QuoteField(m.modelId), QuoteField(taskName),
                        NatToString(k + 1)];
    QuoteFieldRoundTrip(m.modelName);
    QuoteFieldRoundTrip(m.provider);
    QuoteFieldRoundTrip(m.modelId);
    QuoteFieldRoundTrip(taskName);
  }

  lemma SingleRowOutcomeReadBack(m: Model, taskName: string, k: nat, a: Attempt)
    ensures var row := SingleRow(QuoteField, m, taskName, k, a);
            (a.Success() ==> ReadQuotedField(row[6]) == Some(a.result.content)) &&
            (!a.Success() ==> ReadQuotedField(row[9]) == Some(AttemptError(a)))
  {
    var row := SingleRow(QuoteField, m, taskName, k, a);
    var o := OutcomeCells(a);
    assert row[5..] == o;
    assert row[6] == o[1] && row[9] == o[4];
  }

  /** The same for a chain row, whose task name and mode label are quoted too. */
  lemma ChainRowCellsReadBack(results: seq<ModelSteps>, i: nat, k: nat)
    requires i < |results| && k < |results[i].steps|
    ensures RowIndex(ChainBlocks(QuoteField, results), i, k) < |ChainTaskRows(results)|
    ensures var row := ChainTaskRows(results)[RowIndex(ChainBlocks(QuoteField, results), i, k)];
            var s := results[i].steps[k];
            ReadQuotedField(row[0]) == Some(results[i].model.modelName) &&
            row[3] == NatToString(k + 1) &&
            ReadQuotedField(row[4]) == Some(s.task.fields.name) &&
            ReadQuotedField(row[5]) == Some(InputModeText(s.inputMode)) &&
            (s.attempt.Success() ==> ReadQuotedField(row[7]) == Some(s.attempt.result.content)) &&
            (!s.attempt.Success() ==> ReadQuotedField(row[10]) == Some(AttemptError(s.attempt)))
  {
    var blocks := ChainBlocks(QuoteField, results);
    var row := ChainTaskRows(results)[RowIndex(blocks, i, k)];
    assert row == ChainRow(QuoteField, results[i].model, k, results[i].steps[k]);
    ChainRowReadBack(results[i].model, k, results[i].steps[k]);
  }

  /** The quoted cells of one escaped chain row read back as the texts they show. */
  lemma ChainRowReadBack(m: Model, k: nat, s: StepRecord)
    ensures var row := ChainRow(QuoteField, m, k, s);
            ReadQuotedField(row[0]) == Some(m.modelName) &&
            row[3] == NatToString(k + 1) &&
            ReadQuotedField(row[4]) == Some(s.task.fields.name) &&
            ReadQuotedField(row[5]) == Some(InputModeText(s.inputMode)) &&
            (s.attempt.Success() ==> ReadQuotedField(row[7]) == Some(s.attempt.result.content)) &&
            (!s.attempt.Success() ==> ReadQuotedField(row[10]) == Some(AttemptError(s.attempt)))
  {
    var row := ChainRow(QuoteField, m, k, s);
    var o := OutcomeCells(s.attempt);
    assert row == [QuoteField(m.modelName), QuoteField(m.provider), QuoteField(m.modelId), NatToString(k + 1),
                   QuoteField(s.task.fields.name), QuoteField(InputModeText(s.inputMode))] + o;
    assert row[7] == o[1] && row[10] == o[4];
    QuoteFieldRoundTrip(m.modelName);
    QuoteFieldRoundTrip(s.task.fields.name);
    QuoteFieldRoundTrip(InputModeText(s.inputMode));
  }

  /** As written, each name cell of a single-task row reads back as its text exactly when the
      text holds no double quote. */
  lemma AsWrittenSingleNamesReadBack(taskName: string, results: seq<ModelExecutions>, i: nat, k: nat)
    requires i < |results| && k < |results[i].executions|
    ensures RowIndex(SingleBlocks(WrapQuotes, taskName, results), i, k) < |SingleTaskRowsAsWritten(taskName, results)|
    ensures var row := SingleTaskRowsAsWritten(taskName, results)[RowIndex(SingleBlocks(WrapQuotes, taskName, results), i, k)];
            var m := results[i].model;
            (ReadQuotedField(row[0]) == Some(m.modelName) <==> '"' !in m.modelName) &&
            (ReadQuotedField(row[1]) == Some(m.provider) <==> '"' !in m.provider) &&
            (ReadQuotedField(row[2]) == Some(m.modelId) <==> '"' !in m.modelId) &&
            (ReadQuotedField(row[3]) == Some(taskName) <==> '"' !in taskName)
  {
    var blocks := SingleBlocks(WrapQuotes, taskName, results);
    var row := SingleTaskRowsAsWritten(taskName, results)[RowIndex(blocks, i, k)];
    var m := results[i].model;
    assert row == SingleRow(WrapQuotes, m, taskName, k, results[i].executions[k].attempt);
    SingleRowCells(WrapQuotes, m, taskName, k, results[i].executions[k].attempt);
  }

  /** As written, each name cell of a chain row reads back as its text exactly when the text
      holds no double quote. */
  lemma AsWrittenChainNamesReadBack(results: seq<ModelSteps>, i: nat, k: nat)
    requires i < |results| && k < |results[i].steps|
    ensures RowIndex(ChainBlocks(WrapQuotes, results), i, k) < |ChainTaskRowsAsWritten(results)|
    ensures var row := ChainTaskRowsAsWritten(results)[RowIndex(ChainBlocks(WrapQuotes, results), i, k)];
            var m := results[i].model;
            var name := results[i].steps[k].task.fields.name;
            (ReadQuotedField(row[0]) == Some(m.modelName) <==> '"' !in m.modelName) &&
            (ReadQuotedField(row[1]) == Some(m.provider) <==> '"' !in m.provider) &&
            (ReadQuotedField(row[2]) == Some(m.modelId) <==> '"' !in m.modelId) &&
            (ReadQuotedField(row[4]) == Some(name) <==> '"' !in name)
  {
    var blocks := ChainBlocks(WrapQuotes, results);
    var row := ChainTaskRowsAsWritten(results)[RowIndex(blocks, i, k)];
    var m := results[i].model;
    var s := results[i].steps[k];
    assert row == ChainRow(WrapQuotes, m, k, s);
    ChainRowCells(WrapQuotes, m, k, s);
  }

  /** For instance, the model name `a"b` becomes the cell `"a"b"`, which does not read back. */
  lemma UnescapedNameDoesNotReadBack()
    ensures var m := Model("m1", "openai", "a\"b", "gpt-4o", "", None, "", "");
            var results := [ModelExecutions(m, [Execution("exec_1_m1_0", 0, Raised("x", ""))])];
            |SingleTaskRowsAsWritten("t", results)| == 2 &&
            ReadQuotedField(SingleTaskRowsAsWritten("t", results)[1][0]) != Some("a\"b")
  {
    var m := Model("m1", "openai", "a\"b", "gpt-4o", "", None, "", "");
    var results := [ModelExecutions(m, [Execution("exec_1_m1_0", 0, Raised("x", ""))])];
    var blocks := SingleBlocks(WrapQuotes, "t", results);
    assert Offset(blocks, 0) == 0;
    assert Offset(blocks, 1) == 1;
    assert RowIndex(blocks, 0, 0) == 1;
    AsWrittenSingleNamesReadBack("t", results, 0, 0);
    assert "a\"b"[1] == '"';
  }

  // ---------------------------------------------------------------------------------------
  // Text
  // ---------------------------------------------------------------------------------------

  /** Cells joined with `,`, rows with a newline. */
  function CsvText(rows: seq<seq<string>>): string {
    Join(Lines(rows), "\n")
  }

  /** The downloaded file: the byte-order mark, then the text, which reads back as the
      values of its cells when every cell is a quoted field or a clean bare one. */
  function CsvFile(rows: seq<seq<string>>): (r: string)
    ensures |r| >= 1 && r[0] == ByteOrderMark
    ensures |rows| >= 1 && (forall k | 0 <= k < |rows| :: |rows[k]| >= 1) && ReadableRows(rows) ==>
              ReadCsv(r[1..]) == Some(Values(rows))
  {
    TextReadsBackWhenReadable(rows);
    var r := [ByteOrderMark] + CsvText(rows);
    assert r[1..] == CsvText(rows);
    r
  }

  /** Reading the text back gives the value of every cell, commas, newlines and quotes
      inside quoted cells included. */
  lemma CsvTextReadsBack(rows: seq<seq<string>>)
    requires |rows| >= 1
    requires forall k | 0 <= k < |rows| :: |rows[k]| >= 1
    requires ReadableRows(rows)
    ensures ReadCsv(CsvText(rows)) == Some(Values(rows))
  {
    ReadJoinedRows(rows);
  }

  lemma TextReadsBackWhenReadable(rows: seq<seq<string>>)
    ensures |rows| >= 1 && (forall k | 0 <= k < |rows| :: |rows[k]| >= 1) && ReadableRows(rows) ==>
              ReadCsv(CsvText(rows)) == Some(Values(rows))
  {
    if |rows| >= 1 && (forall k | 0 <= k < |rows| :: |rows[k]| >= 1) && ReadableRows(rows) {
      CsvTextReadsBack(rows);
    }
  }

  // ---------------------------------------------------------------------------------------
  // The exported file read back
  // ---------------------------------------------------------------------------------------

  /** Timestamps are ISO date strings: no comma, newline or quote. */
  predicate SingleTimestampsBare(results: seq<ModelExecutions>) {
    forall i, j | 0 <= i < |results| && 0 <= j < |results[i].executions| ::
      BareCell(AttemptTimestamp(results[i].executions[j].attempt))
  }

  predicate ChainTimestampsBare(results: seq<ModelSteps>) {
    forall i, j | 0 <= i < |results| && 0 <= j < |results[i].steps| ::
      BareCell(AttemptTimestamp(results[i].steps[j].attempt))
  }

  lemma NumberBare(n: nat)
    ensures BareCell(NatToString(n))
  {
  }

  lemma HeadersReadable()
    ensures ReadableRow(SingleHeaders) && ReadableRow(ChainHeaders)
  {
    CommonHeadersBare();
    assert BareCell("执行序号");
    assert BareCell("步骤序号") && BareCell("输入模式");
  }

  /** The headers both files share hold no comma, newline or quote. */
  lemma CommonHeadersBare()
    ensures BareCell("模型名称") && BareCell("提供商") && BareCell("模型ID") && BareCell("任务名称")
    ensures BareCell("状态") && BareCell("输出文本") && BareCell("耗时(ms)")
    ensures BareCell("Token数") && BareCell("错误信息") && BareCell("时间戳")
  {
    assert BareCell("模型名称") && BareCell("提供商") && BareCell("模型ID") && BareCell("任务名称");
    assert BareCell("状态") && BareCell("输出文本") && BareCell("耗时(ms)");
    assert BareCell("Token数") && BareCell("错误信息") && BareCell("时间戳");
  }

  lemma OutcomeReadable(a: Attempt)
    requires BareCell(AttemptTimestamp(a))
    ensures ReadableRow(OutcomeCells(a))
  {
    var o := OutcomeCells(a);
    assert BareCell("成功") && BareCell("失败") && BareCell("");
    if a.Success() {
      NumberBare(a.result.responseTime);
      NumberBare(a.result.tokensUsed);
    }
  }

  /** An escaped cell is a well-formed quoted field. */
  lemma QuotedReadable(t: string)
    ensures Readable(QuoteField(t))
  {
    QuoteFieldRoundTrip(t);
  }

  lemma SingleRowReadable(m: Model, taskName: string, k: nat, a: Attempt)
    requires BareCell(AttemptTimestamp(a))
    ensures ReadableRow(SingleRow(QuoteField, m, taskName, k, a))
  {
    QuotedReadable(m.modelName);
    QuotedReadable(m.provider);
    QuotedReadable(m.modelId);
    QuotedReadable(taskName);
    NumberBare(k + 1);
    OutcomeReadable(a);
    ReadableFiveThen(QuoteField(m.modelName), QuoteField(m.provider), QuoteField(m.modelId), QuoteField(taskName),
                     NatToString(k + 1), OutcomeCells(a));
  }

  lemma ChainRowReadable(m: Model, k: nat, s: StepRecord)
    requires BareCell(AttemptTimestamp(s.attempt))
    ensures ReadableRow(ChainRow(QuoteField, m, k, s))
  {
    QuotedReadable(m.modelName);
    QuotedReadable(m.provider);
    QuotedReadable(m.modelId);
    QuotedReadable(s.task.fields.name);
    QuotedReadable(InputModeText(s.inputMode));
    NumberBare(k + 1);
    OutcomeReadable(s.attempt);
    ReadableSixThen(QuoteField(m.modelName), QuoteField(m.provider), QuoteField(m.modelId), NatToString(k + 1),
                    QuoteField(s.task.fields.name), QuoteField(InputModeText(s.inputMode)), OutcomeCells(s.attempt));
  }

  /** The exported single-task file, its byte-order mark dropped, reads back as the value of
      every cell of every row. */
  lemma SingleExportReadsBack(taskName: string, results: seq<ModelExecutions>)
    requires SingleTimestampsBare(results)
    ensures ReadCsv(CsvFile(SingleTaskRows(taskName, results))[1..]) == Some(Values(SingleTaskRows(taskName, results)))
  {
    var rows := SingleTaskRows(taskName, results);
    var blocks := SingleBlocks(QuoteField, taskName, results);
    forall i, k | 0 <= i < |blocks| && 0 <= k < |blocks[i]|
      ensures ReadableRow(blocks[i][k])
    {
      assert blocks[i][k] == SingleRow(QuoteField, results[i].model, taskName, k, results[i].executions[k].attempt);
      SingleRowReadable(results[i].model, taskName, k, results[i].executions[k].attempt);
    }
    FlattenAll(blocks, ReadableRow);
    HeadersReadable();
    assert rows == [SingleHeaders] + Flatten(blocks);
    assert forall k | 1 <= k < |rows| :: rows[k] == Flatten(blocks)[k - 1];
    assert ReadableRows(rows);
  }

  /** The same for the chain file. */
  lemma ChainExportReadsBack(results: seq<ModelSteps>)
    requires ChainTimestampsBare(results)
    ensures ReadCsv(CsvFile(ChainTaskRows(results))[1..]) == Some(Values(ChainTaskRows(results)))
  {
    var rows := ChainTaskRows(results);
    var blocks := ChainBlocks(QuoteField, results);
    forall i, k | 0 <= i < |blocks| && 0 <= k < |blocks[i]|
      ensures ReadableRow(blocks[i][k])
    {
      assert blocks[i][k] == ChainRow(QuoteField, results[i].model, k, results[i].steps[k]);
      ChainRowReadable(results[i].model, k, results[i].steps[k]);
    }
    FlattenAll(blocks, ReadableRow);
    HeadersReadable();
    assert rows == [ChainHeaders] + Flatten(blocks);
    assert forall k | 1 <= k < |rows| :: rows[k] == Flatten(blocks)[k - 1];
    assert ReadableRows(rows);
  }

  /** A spreadsheet opening the single-task file shows, in each execution's row, the model's
      name, provider and id, the task name, the repeat number, and the output on success or
      the error on failure. */
  lemma SingleExportShows(taskName: string, results: seq<ModelExecutions>, i: nat, k: nat)
    requires SingleTimestampsBare(results)
    requires i < |results| && k < |results[i].executions|
    ensures ReadCsv(CsvFile(SingleTaskRows(taskName, results))[1..]).Some?
    ensures var v := ReadCsv(CsvFile(SingleTaskRows(taskName, results))[1..]).value;
            var n := RowIndex(SingleBlocks(QuoteField, taskName, results), i, k);
            var m := results[i].model;
            var a := results[i].executions[k].attempt;
            n < |v| && |v[n]| == |SingleHeaders| &&
            v[n][0] == m.modelName && v[n][1] == m.provider && v[n][2] == m.modelId && v[n][3] == taskName &&
            v[n][4] == NatToString(k + 1) &&
            (a.Success() ==> v[n][6] == a.result.content) &&
            (!a.Success() ==> v[n][9] == AttemptError(a))
  {
    SingleExportReadsBack(taskName, results);
    SingleRowCellsReadBack(taskName, results, i, k);
    var rows := SingleTaskRows(taskName, results);
    var n := RowIndex(SingleBlocks(QuoteField, taskName, results), i, k);
    var v := Values(rows);
    NumberBare(k + 1);
    assert |rows[n]| == |SingleHeaders|;
    assert v[n][0] == CellValue(rows[n][0]) && v[n][1] == CellValue(rows[n][1]);
    assert v[n][2] == CellValue(rows[n][2]) && v[n][3] == CellValue(rows[n][3]);
    assert v[n][4] == rows[n][4];
    assert v[n][6] == CellValue(rows[n][6]) && v[n][9] == CellValue(rows[n][9]);
  }

  /** The same for a step's row of the chain file, with the step number, the step's task
      name and its input-mode label. */
  lemma ChainExportShows(results: seq<ModelSteps>, i: nat, k: nat)
    requires ChainTimestampsBare(results)
    requires i < |results| && k < |results[i].steps|
    ensures ReadCsv(CsvFile(ChainTaskRows(results))[1..]).Some?
    ensures var v := ReadCsv(CsvFile(ChainTaskRows(results))[1..]).value;
            var n := RowIndex(ChainBlocks(QuoteField, results), i, k);
            var s := results[i].steps[k];
            n < |v| && |v[n]| == |ChainHeaders| &&
            v[n][0] == results[i].model.modelName && v[n][3] == NatToString(k + 1) &&
            v[n][4] == s.task.fields.name && v[n][5] == InputModeText(s.inputMode) &&
            (s.attempt.Success() ==> v[n][7] == s.attempt.result.content) &&
            (!s.attempt.Success() ==> v[n][10] == AttemptError(s.attempt))
  {
    ChainExportReadsBack(results);
    ChainRowCellsReadBack(results, i, k);
    var rows := ChainTaskRows(results);
    var n := RowIndex(ChainBlocks(QuoteField, results), i, k);
    var v := Values(rows);
    NumberBare(k + 1);
    assert |rows[n]| == |ChainHeaders|;
    assert v[n][0] == CellValue(rows[n][0]) && v[n][3] == rows[n][3];
    assert v[n][4] == CellValue(rows[n][4]) && v[n][5] == CellValue(rows[n][5]);
    assert v[n][7] == CellValue(rows[n][7]) && v[n][10] == CellValue(rows[n][10]);
  }
}
