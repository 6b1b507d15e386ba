/** The shipped model table and the concrete exchanges the package's test suite
    describes, each stated about the model of `HuggingFaceService`. */
module ServiceScenarios {
  import opened Wrappers
  import opened PhpValues
  import opened HuggingFaceService
  import Base64

  const ImageModel: string := "CompVis/stable-diffusion-v1-4"

  /** The image model is served at its own name. */
  const ImageEntry: ModelEntry := ModelEntry(Some(ImageModel), Some("image"))
  /** The Llama model is served at its chat-completions endpoint. */
  const LlamaEntry: ModelEntry := ModelEntry(Some(LlamaModel + "/v1/chat/completions"), Some("text"))

  /** The `models` table of the package configuration. */
  const ConfiguredModels: map<Key, ModelEntry> := map[StrKey(ImageModel) := ImageEntry, StrKey(LlamaModel) := LlamaEntry]

  const TestToken: string := "fake-api-token"

  /** The service the tests construct: the test token, the default base URL and the
      configured table. */
  const TestService: Service := Service(TestToken, DefaultBaseUrl, ConfiguredModels)

  /** How a JSON object `{"role": role, "content": content}` decodes. */
  function Message(role: string, content: string): Value
  {
    Arr([(StrKey("role"), Str(role)), (StrKey("content"), Str(content))])
  }

  /** The two headers every request carries. */
  function Headers(token: string): seq<(string, string)>
  {
    [("Authorization", "Bearer " + token), ("Content-Type", "application/json")]
  }

  /** The test token builds the test service. */
  lemma TestServiceBuilds()
    ensures NewService(TestToken, DefaultBaseUrl, Some(ConfiguredModels)) == Success(TestService)
  {
    assert TrimStart(TestToken) == TestToken;
    assert TrimEnd(TestToken) == TestToken;
  }

  /** The token "0" is refused like a blank one, since PHP's `empty("0")` holds. */
  lemma ZeroTokenRefused()
    ensures NewService("0", DefaultBaseUrl, Some(ConfiguredModels)) == Failure(EmptyApiToken)
  {
    assert Trim("0") == "0";
  }

  /** Only keys of the table are supported: the image model is, an unknown one is not. */
  lemma ModelSupportScenario()
    ensures IsModelSupported(TestService, ImageModel)
    ensures IsModelSupported(TestService, LlamaModel)
    ensures !IsModelSupported(TestService, "unsupported/model")
  {
  }

  /** The table entries under which the two configured models are found. */
  lemma ConfiguredEntries()
    ensures KeyOf(LlamaModel) == StrKey(LlamaModel)
    ensures TestService.models[KeyOf(LlamaModel)] == LlamaEntry
    ensures KeyOf(ImageModel) == StrKey(ImageModel)
    ensures TestService.models[KeyOf(ImageModel)] == ImageEntry
  {
    assert LlamaModel[0] == 'm' && ImageModel[0] == 'C';
  }

  /** Every Llama request of the test service goes to the chat-completions endpoint
      with the test token. */
  lemma LlamaRequest(prompt: string, options: Entries, payload: Value)
    requires PreparePayload(LlamaModel, prompt, options) == Success(payload)
    ensures PlanRequest(TestService, prompt, LlamaModel, options) ==
            Success((LlamaEntry,
                     Request(DefaultBaseUrl + LlamaEntry.url.value, Headers(TestToken), payload)))
  {
    ConfiguredEntries();
    PlannedRequest(TestService, prompt, LlamaModel, options, payload);
  }

  /** With no options, the Llama request goes to the chat-completions endpoint with
      the chat payload: the model, the one user message, 500 tokens, no streaming. */
  lemma ChatRequestScenario()
    ensures PlanRequest(TestService, "Hello!", LlamaModel, []) ==
            Success((LlamaEntry,
                     Request(DefaultBaseUrl + LlamaEntry.url.value, Headers(TestToken),
                             ChatPayload([(IntKey(0), Message("user", "Hello!"))]))))
  {
    assert PreparePayload(LlamaModel, "Hello!", []) == Success(ChatPayload([(IntKey(0), Message("user", "Hello!"))])) by {
      ChatPayloadWithoutOptions("Hello!");
      assert UserMessage("Hello!") == Message("user", "Hello!");
    }
    LlamaRequest("Hello!", [], ChatPayload([(IntKey(0), Message("user", "Hello!"))]));
  }

  /** A Llama request that is built and answered with a chat completion whose content
      is truthy gives `{text, raw_response}` with that content. */
  lemma LlamaChatAnswer(prompt: string, options: Entries, body: seq<Base64.Byte>, encode: Value -> string,
                        content: string)
    requires PlanRequest(TestService, prompt, LlamaModel, options).Success?
    requires StringTruthy(content)
    ensures var json := ChatCompletion(Str(content));
            GetResponse(TestService, prompt, LlamaModel, options, Responded(HttpResponse(200, body, json)), encode) ==
            Some(TextResult(content, json))
  {
    ConfiguredEntries();
    ChatCompletionText(content, encode);
    TextModelResult(TestService, prompt, LlamaModel, options, HttpResponse(200, body, ChatCompletion(Str(content))),
                    encode, content);
  }

  /** A chat-completion answer becomes `{text, raw_response}` with its content. */
  lemma ChatResponseScenario(body: seq<Base64.Byte>, encode: Value -> string)
    ensures var json := ChatCompletion(Str("Hello!"));
            GetResponse(TestService, "Hello!", LlamaModel, [],
                        Responded(HttpResponse(200, body, json)), encode) ==
            Some(TextResult("Hello!", json))
  {
    ChatRequestScenario();
    LlamaChatAnswer("Hello!", [], body, encode, "Hello!");
  }

  /** The previous turns of the tests, as they decode. */
  function TestHistory(): Entries
  {
    [(IntKey(0), Message("user", "What is your name?")),
     (IntKey(1), Message("assistant", "I am an AI."))]
  }

  /** Two well-formed turns numbered 0 and 1 are valid previous turns. */
  lemma TwoTurnsValid(first: Value, second: Value)
    requires HasRoleAndContent(first) && HasRoleAndContent(second)
    ensures IsList([(IntKey(0), first), (IntKey(1), second)])
    ensures PreviousMessagesValid([(IntKey(0), first), (IntKey(1), second)])
  {
    var turns := [(IntKey(0), first), (IntKey(1), second)];
    assert IsList(turns) by {
      assert turns[0].0 == IntKey(0) && turns[1].0 == IntKey(1);
    }
    assert PreviousMessagesValid(turns) by {
      assert AllWellFormed(turns);
    }
  }

  /** The previous turns of the tests form a list of well-formed messages. */
  lemma TestHistoryValid()
    ensures IsList(TestHistory()) && PreviousMessagesValid(TestHistory())
  {
    MessageWellFormed("user", "What is your name?");
    MessageWellFormed("assistant", "I am an AI.");
    TwoTurnsValid(Message("user", "What is your name?"), Message("assistant", "I am an AI."));
  }

  /** A decoded `{role, content}` object has both keys set. */
  lemma MessageWellFormed(role: string, content: string)
    ensures HasRoleAndContent(Message(role, content))
  {
    assert Lookup(Message(role, content).entries, StrKey("role")) == Some(Str(role));
    assert Lookup(Message(role, content).entries, StrKey("content")) == Some(Str(content));
  }

  /** The chat payload for "Hello!" after the previous turns of the tests. */
  lemma TestHistoryPayload()
    ensures PreparePayload(LlamaModel, "Hello!", [(StrKey("previous_message"), Arr(TestHistory()))]) ==
            Success(ChatPayload(TestHistory() + [(IntKey(2), Message("user", "Hello!"))]))
  {
    TestHistoryValid();
    ChatPayloadWithHistory("Hello!", TestHistory());
    assert UserMessage("Hello!") == Message("user", "Hello!");
  }

  /** Well-formed previous turns are sent before the new user turn, which is
      renumbered after them. */
  lemma PreviousMessagesScenario()
    ensures PlanRequest(TestService, "Hello!", LlamaModel, [(StrKey("previous_message"), Arr(TestHistory()))]) ==
            Success((LlamaEntry,
                     Request(DefaultBaseUrl + LlamaEntry.url.value, Headers(TestToken),
                             ChatPayload(TestHistory() + [(IntKey(2), Message("user", "Hello!"))]))))
  {
    TestHistoryPayload();
    LlamaRequest("Hello!", [(StrKey("previous_message"), Arr(TestHistory()))],
                 ChatPayload(TestHistory() + [(IntKey(2), Message("user", "Hello!"))]));
  }

  /** The answer to the request with previous turns is its content. */
  lemma PreviousMessagesResponseScenario(body: seq<Base64.Byte>, encode: Value -> string)
    ensures var options := [(StrKey("previous_message"), Arr(TestHistory()))];
            var json := ChatCompletion(Str("Hi there!"));
            GetResponse(TestService, "Hello!", LlamaModel, options,
                        Responded(HttpResponse(200, body, json)), encode) ==
            Some(TextResult("Hi there!", json))
  {
    PreviousMessagesScenario();
    LlamaChatAnswer("Hello!", [(StrKey("previous_message"), Arr(TestHistory()))], body, encode, "Hi there!");
  }

  /** An unknown model gives null, whatever the transport would have done. */
  lemma UnsupportedModelScenario(transport: Transport, encode: Value -> string)
    ensures GetResponse(TestService, "Hello!", "unsupported/model", [], transport, encode) == None
  {
    ModelSupportScenario();
  }

  /** A Llama request without options is built for any prompt; an answer with a failed
      status is that status's `handleError` classification, and gives null. */
  lemma LlamaFailedStatus(prompt: string, response: HttpResponse, encode: Value -> string)
    requires Failed(response.status)
    ensures PlanRequest(TestService, prompt, LlamaModel, []).Success?
    ensures Attempt(TestService, prompt, LlamaModel, [], Responded(response), encode) ==
            Failure(ApiError(HandleError(response.status)))
    ensures GetResponse(TestService, prompt, LlamaModel, [], Responded(response), encode) == None
  {
    assert PlanRequest(TestService, prompt, LlamaModel, []).Success? by {
      assert PreparePayload(LlamaModel, prompt, []) == Success(ChatPayload([(IntKey(0), UserMessage(prompt))])) by {
        ChatPayloadWithoutOptions(prompt);
      }
      LlamaRequest(prompt, [], ChatPayload([(IntKey(0), UserMessage(prompt))]));
    }
    FailedStatusGivesNull(TestService, prompt, LlamaModel, [], response, encode);
  }

  /** A 404 answer is a generic request failure carrying the status, and gives null. */
  lemma NotFoundScenario(body: seq<Base64.Byte>, json: Value, encode: Value -> string)
    ensures Attempt(TestService, "Hello!", LlamaModel, [], Responded(HttpResponse(404, body, json)), encode) ==
            Failure(ApiError(HttpError(RequestFailed, 404)))
    ensures GetResponse(TestService, "Hello!", LlamaModel, [], Responded(HttpResponse(404, body, json)), encode) == None
  {
    LlamaFailedStatus("Hello!", HttpResponse(404, body, json), encode);
  }

  /** An empty prompt is logged but still sent; the 400 answer gives null. */
  lemma EmptyPromptScenario(body: seq<Base64.Byte>, json: Value, encode: Value -> string)
    ensures ValidatePrompt("")
    ensures PlanRequest(TestService, "", LlamaModel, []).Success?
    ensures Attempt(TestService, "", LlamaModel, [], Responded(HttpResponse(400, body, json)), encode) ==
            Failure(ApiError(HttpError(RequestFailed, 400)))
    ensures GetResponse(TestService, "", LlamaModel, [], Responded(HttpResponse(400, body, json)), encode) == None
  {
    LlamaFailedStatus("", HttpResponse(400, body, json), encode);
  }

  /** The image model gets the default payload at its own URL, and a non-empty image
      body comes back as its PNG data URI. */
  lemma ImageModelExchange(prompt: string, options: Entries, body: seq<Base64.Byte>, json: Value,
                           encode: Value -> string)
    requires BodyTruthy(body)
    ensures PlanRequest(TestService, prompt, ImageModel, options) ==
            Success((ImageEntry,
                     Request(DefaultBaseUrl + ImageModel, Headers(TestToken),
                             Arr([(StrKey("inputs"), Str(prompt)), (StrKey("options"), Arr(options))]))))
    ensures GetResponse(TestService, prompt, ImageModel, options, Responded(HttpResponse(200, body, json)), encode) ==
            Some(ImageDataUri(ImageUriPrefix + Base64.Encode(body)))
  {
    ConfiguredEntries();
    PlannedRequest(TestService, prompt, ImageModel, options, BuildDefaultPayload(prompt, options));
    ImageModelResult(TestService, prompt, ImageModel, options, HttpResponse(200, body, json), encode);
  }
}
