/**
 * The LangChain4j LLM service as it stands: its construction from the
 * configuration, a check of the API key, and a rule-based mock reply in place
 * of a real model call.
 */
module LlmService {
  import opened Wrappers
  import opened JavaLang
  import opened Config

  // Configuration keys.
  const ApiKeyConfig: string := "llm.api.key"
  const ModelNameConfig: string := "llm.model.name"
  const BaseUrlConfig: string := "llm.base.url"
  const TimeoutSecondsConfig: string := "llm.timeout.seconds"
  const MaxTokensConfig: string := "llm.max.tokens"

  // Defaults.
  const DefaultModelName: string := "gpt-3.5-turbo"
  const DefaultBaseUrl: string := "https://api.openai.com/v1"
  const DefaultTimeoutSeconds: Int32 := 30
  const DefaultMaxTokens: Int32 := 1000

  // The three canned replies.
  const Greeting: string := "Hello! How can I help you today?"
  const WeatherApology: string := "I'm sorry, I don't have access to real-time weather information."
  const GenericReply: string := "Thank you for your question. This is a mock response from the LLM service."

  /** The IllegalArgumentExceptions the service throws. */
  datatype Error =
    | NullConfigLoader  // the configuration loader is null
    | BlankApiKey       // the API key is empty after trimming
    | BlankPrompt       // the prompt is null or empty after trimming

  /** A constructed service; every field is set once, by Create. */
  datatype Service = Service(
    apiKey: string,
    modelName: string,
    baseUrl: string,
    timeoutSeconds: Int32,
    maxTokens: Int32)
  {
    /** isAvailable: the API key has a character above U+0020. */
    predicate IsAvailable()
      ensures IsAvailable() <==> exists i :: 0 <= i < |apiKey| && apiKey[i] > ' '
    {
      !IsBlank(apiKey)
    }

    /** generateText: rejects a null or blank prompt, otherwise the mock reply. */
    function GenerateText(prompt: Option<string>): (r: Result<string, Error>)
      ensures r.Failure? <==> prompt.None? || IsBlank(prompt.value)
      ensures r.Failure? ==> r.error == BlankPrompt
      ensures r.Success? ==> r.value != [] && r.value in {Greeting, WeatherApology, GenericReply}
      ensures r.Success? ==> r.value == MockResponse(prompt.value)
    {
      if prompt.None? || IsBlank(prompt.value) then Failure(BlankPrompt)
      else Success(MockResponse(prompt.value))
    }
  }

  /** The service constructor: validates the loader, reads the settings, checks the key. */
  function Create(loader: Option<ConfigLoader>): (r: Result<Service, Error>)
    ensures loader.None? ==> r == Failure(NullConfigLoader)
    ensures loader.Some? ==> (r.Failure? <==> IsBlank(loader.value.GetString(ApiKeyConfig, "")))
    ensures loader.Some? && r.Failure? ==> r.error == BlankApiKey
    ensures r.Success? ==> r.value.IsAvailable()
    ensures r.Success? ==> r.value == Configured(loader.value)
  {
    match loader
    case None => Failure(NullConfigLoader)
    case Some(config) =>
      var service := Configured(config);
      if IsBlank(service.apiKey) then Failure(BlankApiKey) else Success(service)
  }

  /** The settings the constructor reads, each with its default. */
  function Configured(config: ConfigLoader): (service: Service)
    ensures service.apiKey == config.GetString(ApiKeyConfig, "")
  {
    Service(
      config.GetString(ApiKeyConfig, ""),
      config.GetString(ModelNameConfig, DefaultModelName),
      config.GetString(BaseUrlConfig, DefaultBaseUrl),
      config.GetInt(TimeoutSecondsConfig, DefaultTimeoutSeconds),
      config.GetInt(MaxTokensConfig, DefaultMaxTokens))
  }

  /** With only an API key configured, every other setting takes its default. */
  lemma CreateWithDefaults(config: ConfigLoader)
    requires !IsBlank(config.GetString(ApiKeyConfig, ""))
    requires config.Absent(ModelNameConfig) && config.Absent(BaseUrlConfig)
    requires config.Absent(TimeoutSecondsConfig) && config.Absent(MaxTokensConfig)
    ensures Create(Some(config)) == Success(Service(
      config.GetString(ApiKeyConfig, ""), DefaultModelName, DefaultBaseUrl,
      DefaultTimeoutSeconds, DefaultMaxTokens))
  {
    config.GetIntAbsent(TimeoutSecondsConfig, DefaultTimeoutSeconds);
    config.GetIntAbsent(MaxTokensConfig, DefaultMaxTokens);
  }

  /** generateMockResponse: "hello" is tested first, then "weather", ignoring case. */
  function MockResponse(prompt: string): (r: string)
    ensures Contains(ToLowerCase(prompt), "hello") ==> r == Greeting
    ensures !Contains(ToLowerCase(prompt), "hello")
      ==> (r == WeatherApology <==> Contains(ToLowerCase(prompt), "weather"))
    ensures !Contains(ToLowerCase(prompt), "hello")
      ==> (r == GenericReply <==> !Contains(ToLowerCase(prompt), "weather"))
  {
    if Contains(ToLowerCase(prompt), "hello") then Greeting
    else if Contains(ToLowerCase(prompt), "weather") then WeatherApology
    else GenericReply
  }

  /** The reply depends only on the prompt, not on any setting of the service. */
  lemma ReplyIgnoresSettings(s1: Service, s2: Service, prompt: Option<string>)
    ensures s1.GenerateText(prompt) == s2.GenerateText(prompt)
  {
  }

  /** A non-blank prompt whose lower case contains "hello" gets the greeting. */
  lemma GreetedWhenHello(service: Service, prompt: string)
    requires !IsBlank(prompt) && Contains(ToLowerCase(prompt), "hello")
    ensures service.GenerateText(Some(prompt)) == Success(Greeting)
  {
  }

  /** A prompt mentioning both "hello" and "weather" gets the greeting. */
  lemma HelloBeforeWeather(service: Service, prompt: string)
    requires !IsBlank(prompt)
    requires Contains(prompt, "hello") && Contains(prompt, "weather")
    ensures service.GenerateText(Some(prompt)) == Success(Greeting)
  {
    assert Contains(ToLowerCase(prompt), "hello") by {
      ContainsLowered(prompt, "hello");
      LowerCaseFixed("hello");
    }
    GreetedWhenHello(service, prompt);
  }

  /** Prompts that are equal ignoring case get the same reply. */
  lemma ReplyIgnoresCase(service: Service, p: string, q: string)
    requires EqualsIgnoreCase(p, q)
    ensures service.GenerateText(Some(p)) == service.GenerateText(Some(q))
  {
    EqualsIgnoreCaseIff(p, q);
    assert |p| == |q|;
    assert Trim(p) == [] <==> Trim(q) == [] by {
      forall k | 0 <= k < |p| ensures IsTrimmed(p[k]) <==> IsTrimmed(q[k]) {
        assert ToLowerCase(p)[k] == ToLowerCase(q)[k];
        assert LowerChar(p[k]) == LowerChar(q[k]);
      }
    }
  }

  /** A string containing "hello" in any case contains "hello" once lower-cased. */
  lemma HelloLowered(prompt: string, hello: string)
    requires EqualsIgnoreCase(hello, "hello") && Contains(prompt, hello)
    ensures Contains(ToLowerCase(prompt), "hello")
  {
    EqualsIgnoreCaseIff(hello, "hello");
    LowerCaseFixed("hello");
    ContainsLowered(prompt, hello);
  }

  /** A prompt containing "hello" in any case is accepted and greeted. */
  lemma HelloInAnyCase(service: Service, prompt: string, hello: string)
    requires EqualsIgnoreCase(hello, "hello") && Contains(prompt, hello)
    ensures service.GenerateText(Some(prompt)) == Success(Greeting)
  {
    var i :| OccursAt(prompt, hello, i);
    assert LowerChar(hello[0]) == 'h';
    NotBlankAt(prompt, i);
    HelloLowered(prompt, hello);
    GreetedWhenHello(service, prompt);
  }

  /** "Hello, how are you?" is answered with the greeting, which says "Hello". */
  lemma HelloPrompt(service: Service, prompt: string)
    requires prompt == "Hello, how are you?"
    ensures service.GenerateText(Some(prompt)) == Success(Greeting)
    ensures Contains(Greeting, "Hello")
  {
    var hello := prompt[0..5];
    assert hello == "Hello";
    assert OccursAt(prompt, hello, 0);
    assert EqualsIgnoreCase(hello, "hello") by {
      LowerCaseFixed("hello");
      EqualsIgnoreCaseIff(hello, "hello");
      assert ToLowerCase(hello) == "hello";
    }
    HelloInAnyCase(service, prompt, hello);
    assert OccursAt(Greeting, "Hello", 0) by { assert Greeting[0..5] == "Hello"; }
  }
}
