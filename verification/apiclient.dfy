/** The provider client: how a call is shaped into a request for each provider, and how the
    provider's reply is normalised into a `CallResult`. The network (proxy, `fetch`, status
    handling, JSON decoding) is the oracle `send`. */
module ApiClient {

  import opened Wrappers
  import opened Text
  import opened Seqs
  import opened Entities

  datatype Provider = OpenAI | Anthropic | Google | DeepSeek | SiliconFlow | OpenRouter

  /** The provider's key in a model record. */
  function ProviderName(p: Provider): string {
    match p
    case OpenAI => "openai"
    case Anthropic => "anthropic"
    case Google => "google"
    case DeepSeek => "deepseek"
    case SiliconFlow => "siliconflow"
    case OpenRouter => "openrouter"
  }

  /** The `switch (model.provider)` of `callModel`: exactly the six names are supported. */
  function ParseProvider(s: string): (r: Option<Provider>)
    ensures r.Some? ==> ProviderName(r.value) == s
  {
    if s == "openai" then Some(OpenAI)
    else if s == "anthropic" then Some(Anthropic)
    else if s == "google" then Some(Google)
    else if s == "deepseek" then Some(DeepSeek)
    else if s == "siliconflow" then Some(SiliconFlow)
    else if s == "openrouter" then Some(OpenRouter)
    else None
  }

  /** Each provider's own name dispatches to it. */
  lemma ProviderNamesParse(p: Provider)
    ensures ParseProvider(ProviderName(p)) == Some(p)
  {
  }

  /** Providers with the OpenAI chat-completions body. */
  predicate IsChatProvider(p: Provider) {
    p == OpenAI || p == DeepSeek || p == SiliconFlow || p == OpenRouter
  }

  function Endpoint(p: Provider): string {
    match p
    case OpenAI => "https://api.openai.com/v1/chat/completions"
    case Anthropic => "https://api.anthropic.com/v1/messages"
    case Google => "https://generativelanguage.googleapis.com/v1beta/models/"
    case DeepSeek => "https://api.deepseek.com/v1/chat/completions"
    case SiliconFlow => "https://api.siliconflow.cn/v1/chat/completions"
    case OpenRouter => "https://openrouter.ai/api/v1/chat/completions"
  }

  const PromptForSystemOnly: string := "请根据上述要求进行回复"
  const PromptForNothing: string := "你好"

  /** `userPrompt || (systemPrompt ? … : …)`: the user turn actually sent. */
  function EffectiveUserPrompt(system: string, user: string): (r: string)
    ensures r != ""
    ensures user != "" ==> r == user
    ensures user == "" ==> r == (if system != "" then PromptForSystemOnly else PromptForNothing)
  {
    if user != "" then user
    else if system != "" then PromptForSystemOnly
    else PromptForNothing
  }

  datatype Message = Message(role: string, content: string)

  /** The content of the first message with `role`, or "" when there is none. */
  function FirstContent(messages: seq<Message>, role: string): (r: string)
    ensures (exists k :: 0 <= k < |messages| && messages[k].role == role) ==>
              exists k :: 0 <= k < |messages| && messages[k].role == role && messages[k].content == r &&
                forall j | 0 <= j < k :: messages[j].role != role
    ensures (forall k | 0 <= k < |messages| :: messages[k].role != role) ==> r == ""
  {
    match FindIndex(messages, (m: Message) => m.role == role)
    case Some(i) => messages[i].content
    case None => ""
  }

  /** `callModelAPI`'s reading of a message list: the first system and the first user text. */
  function ExtractPrompts(messages: seq<Message>): (string, string) {
    (FirstContent(messages, "system"), FirstContent(messages, "user"))
  }

  /** The `messages` array of a chat-completions body: a system message first iff there is a
      system prompt, then the one user message. Reading it back as `callModelAPI` does gives
      the prompts that went in, with the default user text substituted. */
  function ChatMessages(system: string, user: string): (r: seq<Message>)
    ensures |r| == if system != "" then 2 else 1
    ensures r[|r| - 1] == Message("user", EffectiveUserPrompt(system, user))
    ensures system != "" ==> r[0] == Message("system", system)
    ensures forall k | 0 <= k < |r| - 1 :: r[k].role == "system"
    ensures ExtractPrompts(r) == (system, EffectiveUserPrompt(system, user))
  {
    var u := Message("user", EffectiveUserPrompt(system, user));
    var r := if system != "" then [Message("system", system), u] else [u];
    assert r[|r| - 1].role == "user";
    r
  }

  datatype Body =
    | ChatBody(model: string, messages: seq<Message>, temperature: real, maxTokens: nat, stream: Option<bool>)
    | AnthropicBody(model: string, maxTokens: nat, messages: seq<Message>, system: Option<string>)
    | GoogleBody(parts: seq<string>)

  /** What the proxy is asked to forward: target URL, headers and JSON body. */
  datatype Request = Request(url: string, headers: seq<(string, string)>, body: Body)

  /** The Gemini URL: endpoint, model id, method, then the API key as a query parameter. */
  function GoogleUrl(modelId: string, apiKey: string): (r: string)
    ensures |r| == |Endpoint(Google)| + |modelId| + |":generateContent?key="| + |apiKey|
    ensures Endpoint(Google) <= r
    ensures r[|Endpoint(Google)|..|Endpoint(Google)| + |modelId|] == modelId
    ensures r[|r| - |apiKey|..] == apiKey
  {
    Endpoint(Google) + modelId + ":generateContent?key=" + apiKey
  }

  /** The one text part Gemini receives. */
  function GooglePrompt(system: string, user: string): (r: string)
    ensures system == "" ==> r == EffectiveUserPrompt(system, user)
    ensures system != "" ==> r == system + "\n\n" + EffectiveUserPrompt(system, user)
  {
    var u := EffectiveUserPrompt(system, user);
    if system != "" then system + "\n\n" + u else u
  }

  /** The headers each adapter asks the proxy to send. */
  function Headers(p: Provider, apiKey: string): (r: seq<(string, string)>)
    ensures IsChatProvider(p) ==> ("Authorization", "Bearer " + apiKey) in r
    ensures p == Anthropic ==> ("x-api-key", apiKey) in r && ("anthropic-version", "2023-06-01") in r
    ensures p == Google ==> forall h | h in r :: h.0 == "Content-Type"
    ensures p == OpenRouter ==> ("HTTP-Referer", "https://evallite.app") in r && ("X-Title", "EvalLite") in r
  {
    var json := ("Content-Type", "application/json");
    var bearer := ("Authorization", "Bearer " + apiKey);
    match p
    case Anthropic => [("x-api-key", apiKey), ("anthropic-version", "2023-06-01"), json]
    case Google => [json]
    case OpenRouter => [bearer, json, ("HTTP-Referer", "https://evallite.app"), ("X-Title", "EvalLite")]
    case _ => [bearer, json]
  }

  /** The JSON body each adapter sends. */
  function RequestBody(p: Provider, modelId: string, system: string, user: string): (r: Body)
    ensures p == Google ==> r == GoogleBody([GooglePrompt(system, user)])
    ensures IsChatProvider(p) ==>
              r == ChatBody(modelId, ChatMessages(system, user), 0.7, 2000,
                            if p == SiliconFlow then Some(false) else None)
    ensures p == Anthropic ==>
              r == AnthropicBody(modelId, 2000, [Message("user", EffectiveUserPrompt(system, user))],
                                 if system != "" then Some(system) else None)
  {
    match p
    case Anthropic =>
      AnthropicBody(modelId, 2000, [Message("user", EffectiveUserPrompt(system, user))],
                    if system != "" then Some(system) else None)
    case Google => GoogleBody([GooglePrompt(system, user)])
    case SiliconFlow => ChatBody(modelId, ChatMessages(system, user), 0.7, 2000, Some(false))
    case _ => ChatBody(modelId, ChatMessages(system, user), 0.7, 2000, None)
  }

  /** The request each adapter builds. */
  function BuildRequest(p: Provider, m: Model, system: string, user: string): (r: Request)
    ensures p != Google ==> r.url == Endpoint(p)
    ensures p == Google ==> r.url == GoogleUrl(m.modelId, m.apiKey) && r.body == GoogleBody([GooglePrompt(system, user)])
    ensures IsChatProvider(p) ==>
              r.body == ChatBody(m.modelId, ChatMessages(system, user), 0.7, 2000,
                                 if p == SiliconFlow then Some(false) else None)
    ensures p == Anthropic ==>
              r.body == AnthropicBody(m.modelId, 2000, [Message("user", EffectiveUserPrompt(system, user))],
                                      if system != "" then Some(system) else None)
    ensures IsChatProvider(p) ==> ("Authorization", "Bearer " + m.apiKey) in r.headers
    ensures p == Anthropic ==> ("x-api-key", m.apiKey) in r.headers && ("anthropic-version", "2023-06-01") in r.headers
    ensures p == Google ==> forall h | h in r.headers :: h.0 == "Content-Type"
    ensures p == OpenRouter ==> ("HTTP-Referer", "https://evallite.app") in r.headers && ("X-Title", "EvalLite") in r.headers
  {
    var url := if p == Google then GoogleUrl(m.modelId, m.apiKey) else Endpoint(p);
    Request(url, Headers(p, m.apiKey), RequestBody(p, m.modelId, system, user))
  }

  /** What the transport yields: the decoded reply text and `usage` counts, or the message of
      whatever the adapter threw (network failure, non-2xx status, malformed reply). */
  datatype Reply = Delivered(content: string, usage: map<string, nat>) | Refused(message: string)

  /** A count the reply's `usage` reports under `key`; a missing count reads as zero. */
  function TokenCount(usage: map<string, nat>, key: string): (n: nat)
    ensures key !in usage ==> n == 0
  {
    if key in usage then usage[key] else 0
  }

  /** An adapter's return value. */
  datatype AdapterResult = AdapterResult(content: string, inputTokens: nat, outputTokens: nat, tokensUsed: nat)

  /** How each adapter reads token counts from a reply. */
  function Normalise(p: Provider, content: string, usage: map<string, nat>): (r: AdapterResult)
    ensures r.content == content
    ensures IsChatProvider(p) ==>
              r.inputTokens == TokenCount(usage, "prompt_tokens") &&
              r.outputTokens == TokenCount(usage, "completion_tokens") &&
              r.tokensUsed == TokenCount(usage, "total_tokens")
    ensures p == Anthropic ==>
              r.inputTokens == TokenCount(usage, "input_tokens") &&
              r.outputTokens == TokenCount(usage, "output_tokens") &&
              r.tokensUsed == r.inputTokens + r.outputTokens
    ensures p == Google ==> r.inputTokens == 0 && r.outputTokens == 0 && r.tokensUsed == 0
  {
    match p
    case Anthropic =>
      var i := TokenCount(usage, "input_tokens");
      var o := TokenCount(usage, "output_tokens");
      AdapterResult(content, i, o, i + o)
    case Google => AdapterResult(content, 0, 0, 0)
    case _ =>
      AdapterResult(content, TokenCount(usage, "prompt_tokens"), TokenCount(usage, "completion_tokens"),
                    TokenCount(usage, "total_tokens"))
  }

  /** The `usage` object each provider's API reports for a reply that read `input` prompt
      tokens and wrote `output` tokens; Gemini replies carry none the adapter reads. */
  function ReportedUsage(p: Provider, input: nat, output: nat): map<string, nat> {
    match p
    case Anthropic => map["input_tokens" := input, "output_tokens" := output]
    case Google => map[]
    case _ => map["prompt_tokens" := input, "completion_tokens" := output, "total_tokens" := input + output]
  }

  /** Every adapter but Gemini's recovers the counts its provider reports, the total being
      their sum; Gemini's reports zero. */
  lemma NormaliseReadsReportedUsage(p: Provider, content: string, input: nat, output: nat)
    ensures var a := Normalise(p, content, ReportedUsage(p, input, output));
            a.content == content &&
            (p != Google ==> a.inputTokens == input && a.outputTokens == output && a.tokensUsed == input + output) &&
            (p == Google ==> a.inputTokens == 0 && a.outputTokens == 0 && a.tokensUsed == 0)
  {
    var u := ReportedUsage(p, input, output);
    if p == Anthropic {
      assert "input_tokens" != "output_tokens";
      assert u["input_tokens"] == input && u["output_tokens"] == output;
    } else if p != Google {
      assert "prompt_tokens" != "completion_tokens" && "completion_tokens" != "total_tokens";
      assert "prompt_tokens" != "total_tokens";
      assert u["prompt_tokens"] == input && u["completion_tokens"] == output;
      assert u["total_tokens"] == input + output;
    }
  }

  /** A reply with no `usage` at all counts zero tokens, whichever the provider. */
  lemma NormaliseWithoutUsage(p: Provider, content: string)
    ensures Normalise(p, content, map[]) == AdapterResult(content, 0, 0, 0)
  {
  }

  /** A delivered reply reporting its usage the provider's way comes back from `callModel` as a
      success carrying those counts. */
  lemma CallModelCountsReportedUsage(m: Model, system: string, user: string, send: Request -> Reply,
                                     elapsed: nat, now: Timestamp, content: string, input: nat, output: nat)
    requires ParseProvider(m.provider).Some? && ParseProvider(m.provider).value != Google
    requires send(BuildRequest(ParseProvider(m.provider).value, m, system, user)) ==
             Delivered(content, ReportedUsage(ParseProvider(m.provider).value, input, output))
    ensures var r := CallModel(m, system, user, send, elapsed, now);
            r.Succeeded? && r.content == content &&
            r.inputTokens == input && r.outputTokens == output && r.tokensUsed == input + output
  {
    NormaliseReadsReportedUsage(ParseProvider(m.provider).value, content, input, output);
  }

  function UnsupportedProvider(provider: string): string {
    "不支持的提供商: " + provider
  }

  /** `APIClient.callModel`: never throws. An unknown provider and every adapter failure come
      back as `Failed` with the error's message. `elapsed` and `now` are the clock readings. */
  function CallModel(m: Model, system: string, user: string, send: Request -> Reply, elapsed: nat, now: Timestamp): (r: CallResult)
    ensures ParseProvider(m.provider).None? ==> r == Failed(UnsupportedProvider(m.provider), elapsed, now)
    ensures ParseProvider(m.provider).Some? ==>
              var p := ParseProvider(m.provider).value;
              var reply := send(BuildRequest(p, m, system, user));
              (r.Succeeded? <==> reply.Delivered?) &&
              (reply.Refused? ==> r == Failed(reply.message, elapsed, now)) &&
              (reply.Delivered? ==>
                 var a := Normalise(p, reply.content, reply.usage);
                 r == Succeeded(a.content, elapsed, a.inputTokens, a.outputTokens, a.tokensUsed, now))
    ensures r.responseTime == elapsed && r.timestamp == now
  {
    match ParseProvider(m.provider)
    case None => Failed(UnsupportedProvider(m.provider), elapsed, now)
    case Some(p) =>
      match send(BuildRequest(p, m, system, user))
      case Refused(msg) => Failed(msg, elapsed, now)
      case Delivered(content, usage) =>
        var a := Normalise(p, content, usage);
        Succeeded(a.content, elapsed, a.inputTokens, a.outputTokens, a.tokensUsed, now)
  }

  /** `callModelAPI(provider, modelId, apiKey, messages)`: calls the model with the first system
      and first user message and throws (`Err`) exactly when that call was unsuccessful. */
  function CallModelApi(provider: string, modelId: string, apiKey: string, messages: seq<Message>,
                        send: Request -> Reply, elapsed: nat, now: Timestamp): (r: Result<(string, nat), string>)
    ensures var (sys, usr) := ExtractPrompts(messages);
            var res := CallModel(Model("", provider, "", modelId, apiKey, None, "", ""), sys, usr, send, elapsed, now);
            (r.Err? <==> res.Failed?) &&
            (r.Err? ==> r.error == res.error) &&
            (r.Ok? ==> r.value == (res.content, res.tokensUsed))
  {
    var (sys, usr) := ExtractPrompts(messages);
    var res := CallModel(Model("", provider, "", modelId, apiKey, None, "", ""), sys, usr, send, elapsed, now);
    if res.Failed? then Err(res.error) else Ok((res.content, res.tokensUsed))
  }

  /** The default user text is already effective: substituting it again changes nothing. */
  lemma EffectivePromptStable(system: string, user: string)
    ensures EffectiveUserPrompt(system, user) != ""
    ensures EffectiveUserPrompt(system, EffectiveUserPrompt(system, user)) == EffectiveUserPrompt(system, user)
  {
  }

  /** Every adapter reads the user prompt only through its effective form. */
  lemma BuildRequestSeesEffectivePrompt(p: Provider, m: Model, system: string, user: string)
    ensures BuildRequest(p, m, system, EffectiveUserPrompt(system, user)) == BuildRequest(p, m, system, user)
  {
    var u := EffectiveUserPrompt(system, user);
    EffectivePromptStable(system, user);
    assert ChatMessages(system, u) == ChatMessages(system, user);
    assert GooglePrompt(system, u) == GooglePrompt(system, user);
    assert RequestBody(p, m.modelId, system, u) == RequestBody(p, m.modelId, system, user);
  }

  /** `callModelAPI` given the message list a chat adapter sends makes the same call as
      `callModel` with the prompts that built it: messages and prompts carry the same request. */
  lemma CallModelApiOnChatMessages(provider: string, modelId: string, apiKey: string, system: string, user: string,
                                   send: Request -> Reply, elapsed: nat, now: Timestamp)
    ensures var m := Model("", provider, "", modelId, apiKey, None, "", "");
            var res := CallModel(m, system, user, send, elapsed, now);
            var r := CallModelApi(provider, modelId, apiKey, ChatMessages(system, user), send, elapsed, now);
            (r.Err? <==> res.Failed?) &&
            (r.Err? ==> r.error == res.error) &&
            (r.Ok? ==> r.value == (res.content, res.tokensUsed))
  {
    var m := Model("", provider, "", modelId, apiKey, None, "", "");
    assert ExtractPrompts(ChatMessages(system, user)) == (system, EffectiveUserPrompt(system, user));
    CallModelSeesEffectivePrompt(m, system, user, send, elapsed, now);
  }

  /** A call made with the effective user prompt is the call made with the prompt as given. */
  lemma CallModelSeesEffectivePrompt(m: Model, system: string, user: string, send: Request -> Reply, elapsed: nat, now: Timestamp)
    ensures CallModel(m, system, EffectiveUserPrompt(system, user), send, elapsed, now) == CallModel(m, system, user, send, elapsed, now)
  {
    match ParseProvider(m.provider)
    case None =>
    case Some(p) =>
      BuildRequestSeesEffectivePrompt(p, m, system, user);
  }

  /** Display name of a listed model: the part of its id after the last `/`, the whole id
      when it has none. */
  function DisplayName(id: string): (r: string)
    ensures '/' !in r
    ensures |r| <= |id| && id[|id| - |r|..] == r
    ensures |r| < |id| ==> id[|id| - |r| - 1] == '/'
    ensures '/' !in id ==> r == id
  {
    var pieces := Split(id, {'/'});
    LastPieceIsSuffix(id, '/');
    var r := pieces[|pieces| - 1];
    assert forall j | 0 <= j < |r| :: r[j] != '/';
    if '/' in id then r else id
  }

  /** OpenRouter's listing prefers the model's own `name`. */
  function OpenRouterDisplayName(name: string, id: string): (r: string)
    ensures name != "" ==> r == name
    ensures name == "" ==> '/' !in r && |r| <= |id| && id[|id| - |r|..] == r
    ensures name == "" && |r| < |id| ==> id[|id| - |r| - 1] == '/'
    ensures name == "" && '/' !in id ==> r == id
  {
    if name != "" then name else DisplayName(id)
  }

  /** The part after the last `/` of an id, as `DisplayName` states it, is unique: two
      slash-free suffixes that each start the id or follow a `/` are the same text. */
  lemma LastSegmentUnique(id: string, a: string, b: string)
    requires '/' !in a && |a| <= |id| && id[|id| - |a|..] == a && (|a| < |id| ==> id[|id| - |a| - 1] == '/')
    requires '/' !in b && |b| <= |id| && id[|id| - |b|..] == b && (|b| < |id| ==> id[|id| - |b| - 1] == '/')
    ensures a == b
  {
  }
}
