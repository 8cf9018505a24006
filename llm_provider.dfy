/**
 * The provider object of `llm_provider.py`: the metadata extraction that
 * wraps one completion call in the response repair chain and validation,
 * and the factory that picks model, provider and API key.
 */
module LlmProvider {
  import opened Wrappers
  import opened ResponseParser

  /** `LitellmProvider`: the two constructor fields it keeps and never updates. */
  datatype Provider = Provider(model: string, apiKey: string)

  /**
   * The completion call with its response indexing, as an oracle over
   * (model, api key, system prompt, user text): the message content, or
   * None when the call or the indexing raises.
   */
  type Completion = (string, string, string, string) -> Option<string>

  /** `json.loads`, as an oracle: the parsed value, or None when it raises. */
  type JsonLoads = string -> Option<Parsed>

  /** A provider together with the two oracles its method calls. */
  datatype Llm = Llm(provider: Provider, complete: Completion, loads: JsonLoads)

  /** The completion content for one request, when the call succeeds. */
  function Reply(llm: Llm, prompt: string, text: string): Option<string> {
    llm.complete(llm.provider.model, llm.provider.apiKey, prompt, text)
  }

  /**
   * `extract_metadata` (lines 47-79): every exception is caught, so the
   * result is a validated dictionary or None, never an error. The
   * dictionary is exactly what the parser returned for the repaired reply.
   */
  function ExtractMetadata(llm: Llm, prompt: string, text: string): (r: Option<Record>)
    ensures r.Some? ==> Reply(llm, prompt, text).Some?
    ensures r.Some? ==> llm.loads(Normalize(Reply(llm, prompt, text).value)) == Some(Dict(r.value))
    ensures r.Some? ==> AuthorAcceptable(r.value) && TitleAcceptable(r.value)
  {
    ValidateAccepts(if Reply(llm, prompt, text).Some? then llm.loads(Normalize(Reply(llm, prompt, text).value)) else None);
    match Reply(llm, prompt, text)
    case None => None
    case Some(content) => Validate(llm.loads(Normalize(content)))
  }

  /** The converse: a reply whose repaired text parses to an acceptable dictionary yields that dictionary. */
  lemma ExtractMetadataAccepts(llm: Llm, prompt: string, text: string, d: Record)
    requires Reply(llm, prompt, text).Some?
    requires llm.loads(Normalize(Reply(llm, prompt, text).value)) == Some(Dict(d))
    requires AuthorAcceptable(d) && TitleAcceptable(d)
    ensures ExtractMetadata(llm, prompt, text) == Some(d)
  {
    ValidateAccepts(Some(Dict(d)));
  }

  /** A failed call, a failed parse or a parse to a non-dictionary all give None. */
  lemma ExtractMetadataFailures(llm: Llm, prompt: string, text: string)
    ensures Reply(llm, prompt, text).None? ==> ExtractMetadata(llm, prompt, text).None?
    ensures Reply(llm, prompt, text).Some? && llm.loads(Normalize(Reply(llm, prompt, text).value)) in {None, Some(NonDict)}
      ==> ExtractMetadata(llm, prompt, text).None?
  {
  }

  /**
   * The common reply shape: prose around a "```json" block holding a strict
   * JSON object. The parser sees exactly the object.
   */
  lemma FencedReplyParsed(llm: Llm, prompt: string, text: string, pre: string, obj: string, post: string)
    requires Reply(llm, prompt, text) == Some(pre + "```json\n" + obj + "\n```" + post)
    requires NoFence(pre) && NoEarlyClose(obj) && '"' in obj && !HasTrailingComma(obj)
    requires |obj| >= 2 && obj[0] == '{' && obj[|obj| - 1] == '}'
    ensures ExtractMetadata(llm, prompt, text) == Validate(llm.loads(obj))
  {
    FencedJsonNormalizes(pre, obj, post);
  }

  // ---- get_llm_provider, lines 99-135 ----

  const DefaultModel := "claude-3-haiku-20240307"
  const DefaultProvider := "anthropic"

  /** MODEL_PROVIDER_MAP, lines 101-116. */
  const ModelProviderMap: map<string, string> := map[
    "claude-3-haiku-20240307" := "anthropic",
    "claude-3-sonnet-20240229" := "anthropic",
    "claude-3-opus-20240229" := "anthropic",
    "gpt-4-turbo" := "openai",
    "gpt-4" := "openai",
    "gpt-3.5-turbo" := "openai",
    "gemini-pro" := "gemini",
    "pplx-70b-online" := "perplexity",
    "llama-2-70b" := "llama"
  ]

  /** PROVIDER_ENVVAR_MAP, lines 118-124. */
  const ProviderEnvvarMap: map<string, string> := map[
    "anthropic" := "ANTHROPIC_API_KEY",
    "openai" := "OPENAI_API_KEY",
    "gemini" := "GEMINI_API_KEY",
    "perplexity" := "PERPLEXITY_API_KEY",
    "llama" := "LLAMA_API_KEY"
  ]

  /** The RuntimeError of line 134, with the provider and variable it names. */
  datatype FactoryError = MissingApiKey(provider: string, envvar: string)

  /** Line 129, `model or DEFAULT_MODEL`: None and "" are both falsy. */
  function SelectedModel(model: Option<string>): (m: string)
    ensures m != ""
    ensures model.Some? && model.value != "" ==> m == model.value
  {
    if model.Some? && model.value != "" then model.value else DefaultModel
  }

  /** Line 130: the mapped provider, or "anthropic" for an unmapped model. */
  function ProviderOf(model: string): (p: string)
    ensures p in ProviderEnvvarMap
    ensures model in ModelProviderMap ==> p == ModelProviderMap[model]
    ensures model !in ModelProviderMap ==> p == DefaultProvider
  {
    if model in ModelProviderMap then ModelProviderMap[model] else DefaultProvider
  }

  /** Line 131: the variable holding the provider's key; every provider line 130 yields has one. */
  function EnvvarOf(model: string): string {
    ProviderEnvvarMap[ProviderOf(model)]
  }

  /** Lines 132-133: `os.getenv` gives None for an unset variable, and "" is falsy too. */
  predicate HasKey(env: map<string, string>, envvar: string) {
    envvar in env && env[envvar] != ""
  }

  /**
   * `get_llm_provider(model)` against the environment `env`: a provider for
   * the selected model holding the key of its provider's variable, or the
   * RuntimeError naming that provider and variable.
   */
  function GetLlmProvider(model: Option<string>, env: map<string, string>): (r: Result<Provider, FactoryError>)
    ensures r.Ok? <==> HasKey(env, EnvvarOf(SelectedModel(model)))
    ensures r.Ok? ==> r.value.model == SelectedModel(model) && r.value.apiKey == env[EnvvarOf(r.value.model)]
    ensures r.Ok? ==> r.value.apiKey != ""
    ensures r.Err? ==> r.error.provider == ProviderOf(SelectedModel(model)) && r.error.envvar == EnvvarOf(SelectedModel(model))
  {
    var selected := SelectedModel(model);
    var provider := ProviderOf(selected);
    var envvar := ProviderEnvvarMap[provider];
    if envvar in env && env[envvar] != "" then Ok(Provider(selected, env[envvar]))
    else Err(MissingApiKey(provider, envvar))
  }

  /** No model, or the empty name: Claude 3 Haiku, keyed by ANTHROPIC_API_KEY. */
  lemma FactoryDefault(model: Option<string>, env: map<string, string>)
    requires model == None || model == Some("")
    ensures SelectedModel(model) == "claude-3-haiku-20240307"
    ensures ProviderOf(SelectedModel(model)) == "anthropic"
    ensures EnvvarOf(SelectedModel(model)) == "ANTHROPIC_API_KEY"
    ensures GetLlmProvider(model, env) == GetLlmProvider(Some(DefaultModel), env)
  {
  }

  /** A model the table does not know is kept as given and keyed as an Anthropic model. */
  lemma FactoryUnmapped(m: string, env: map<string, string>)
    requires m != "" && m !in ModelProviderMap
    ensures EnvvarOf(m) == "ANTHROPIC_API_KEY"
    ensures GetLlmProvider(Some(m), env).Ok? ==> GetLlmProvider(Some(m), env).value.model == m
  {
  }

  /** Only the selected provider's variable matters: any other variable can change freely. */
  lemma FactoryReadsOneVariable(model: Option<string>, env: map<string, string>, name: string, value: string)
    requires name != EnvvarOf(SelectedModel(model))
    ensures GetLlmProvider(model, env[name := value]) == GetLlmProvider(model, env)
  {
  }

  /** An Anthropic key does not serve an OpenAI model. */
  lemma FactoryWrongKey(env: map<string, string>)
    requires env == map["ANTHROPIC_API_KEY" := "k"]
    ensures GetLlmProvider(Some("gpt-4"), env) == Err(MissingApiKey("openai", "OPENAI_API_KEY"))
    ensures GetLlmProvider(None, env) == Ok(Provider("claude-3-haiku-20240307", "k"))
  {
  }
}
