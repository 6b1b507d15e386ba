/** The request/response logic of `HuggingFaceService`: admitting a model from the
    configured table, building the request payload, classifying failed HTTP
    statuses, and normalising a response into a data URI (image models) or a
    `{text, raw_response}` record (text models). Every per-call failure ends as
    `null`; only construction with a blank API token fails outright.

    The HTTP exchange itself is not modelled: its outcome is an input (`Transport`),
    and `json_encode` is the parameter `encode`. */
module HuggingFaceService {
  import opened Wrappers
  import opened PhpValues
  import Base64

  /** The one model that gets a chat-completion payload. */
  const LlamaModel: string := "meta-llama/Meta-Llama-3-8B-Instruct"
  const DefaultBaseUrl: string := "https://api-inference.huggingface.co/models/"
  const DefaultMaxTokens: int := 500
  const ImageUriPrefix: string := "data:image/png;base64,"
  /** Where a chat-completion response keeps its text: "choices.0.message.content". */
  const ChatContentSegments: seq<string> := ["choices", "0", "message", "content"]
  const ChatContentPath: string := Join(ChatContentSegments, '.')
  /** Where a text-generation response keeps its text: "0.generated_text". */
  const GeneratedTextSegments: seq<string> := ["0", "generated_text"]
  const GeneratedTextPath: string := Join(GeneratedTextSegments, '.')

  // ---------------------------------------------------------------------------
  // Configuration and construction

  /** One entry of the configured model table; either field may be missing. */
  datatype ModelEntry = ModelEntry(url: Option<string>, modelType: Option<string>)

  /** A constructed service: the token, the base URL and the model table, none of
      which changes after construction. */
  datatype Service = Service(apiToken: string, baseUrl: string, models: map<Key, ModelEntry>)

  datatype ConstructionError = EmptyApiToken | MissingModelsConfiguration

  /** The constructor: a token that is empty after trimming (PHP's `empty`, which also
      holds of "0") is refused first, then a missing model table. */
  function NewService(apiToken: string, baseUrl: string, models: Option<map<Key, ModelEntry>>)
    : (r: Result<Service, ConstructionError>)
    ensures r == Failure(EmptyApiToken) <==> EmptyString(Trim(apiToken))
    ensures r == Failure(MissingModelsConfiguration) <==> !EmptyString(Trim(apiToken)) && models.None?
    ensures r.Success? ==> r.value.apiToken == apiToken && r.value.baseUrl == baseUrl
                           && Some(r.value.models) == models
  {
    if EmptyString(Trim(apiToken)) then Failure(EmptyApiToken)
    else match models
      case None => Failure(MissingModelsConfiguration)
      case Some(m) => Success(Service(apiToken, baseUrl, m))
  }

  /** A service is built exactly when the token has a character that `trim` keeps and
      is not, once trimmed, the string "0". */
  lemma TokenCheck(apiToken: string, baseUrl: string, models: map<Key, ModelEntry>)
    ensures NewService(apiToken, baseUrl, Some(models)).Success? <==>
              (exists i :: 0 <= i < |apiToken| && !IsTrimmed(apiToken[i])) && Trim(apiToken) != "0"
  {
    TrimEmptyIffBlank(apiToken);
  }

  // ---------------------------------------------------------------------------
  // Model admission and prompt validation

  /** `isModelSupported`: the model is a key of the table (under PHP's key rule). */
  predicate IsModelSupported(svc: Service, model: string): (supported: bool)
    ensures supported <==> exists k :: k in svc.models && k == KeyOf(model)
    ensures model != [] && !IsDigit(model[0]) && model[0] != '-' ==>
              (supported <==> StrKey(model) in svc.models)
  {
    KeyOf(model) in svc.models
  }

  datatype HttpErrorKind = InvalidToken | RateLimited | ServiceUnavailable | RequestFailed

  /** The RuntimeException `handleError` throws: its kind and its code. */
  datatype HttpError = HttpError(kind: HttpErrorKind, code: int)

  /** Why a call produced no result. */
  datatype Failure =
    | UnsupportedModel(model: string)
    | InvalidModelConfiguration(model: string)
    | PreviousMessagesNotArray
    | TransportError
    | ApiError(error: HttpError)
    | NoResult

  /** `validateModel` together with the table lookup that follows it. */
  function ValidateModel(svc: Service, model: string): (r: Result<ModelEntry, Failure>)
    ensures r.Success? <==> IsModelSupported(svc, model)
    ensures r.Failure? ==> r.error == UnsupportedModel(model)
    ensures r.Success? ==> r.value == svc.models[KeyOf(model)]
  {
    if IsModelSupported(svc, model) then Success(svc.models[KeyOf(model)])
    else Failure(UnsupportedModel(model))
  }

  /** `validatePrompt`: whether the call logs an "empty prompt" error. It throws
      nothing, so the call goes on either way (see `PromptDoesNotGateRequest`). */
  function ValidatePrompt(prompt: string): (logsError: bool)
    ensures logsError <==> (forall i :: 0 <= i < |prompt| ==> IsTrimmed(prompt[i])) || Trim(prompt) == "0"
  {
    TrimEmptyIffBlank(prompt);
    EmptyString(Trim(prompt))
  }

  /** `handleError`: 401, 429 and 500 each get their own exception, any other status
      the generic one, and the exception code is the status. */
  function HandleError(status: int): (e: HttpError)
    ensures e.code == status
    ensures e.kind == InvalidToken <==> status == 401
    ensures e.kind == RateLimited <==> status == 429
    ensures e.kind == ServiceUnavailable <==> status == 500
    ensures e.kind == RequestFailed <==> status !in {401, 429, 500}
  {
    match status
    case 401 => HttpError(InvalidToken, 401)
    case 429 => HttpError(RateLimited, 429)
    case 500 => HttpError(ServiceUnavailable, 500)
    case _ => HttpError(RequestFailed, status)
  }

  // ---------------------------------------------------------------------------
  // Payload construction

  /** The value stored under a string key of an array, if any. */
  function Field(v: Value, name: string): Option<Value>
  {
    if v.Arr? then Lookup(v.entries, StrKey(name)) else None
  }

  function KeysOf(entries: Entries): (ks: seq<Key>)
    ensures |ks| == |entries|
    ensures forall i :: 0 <= i < |entries| ==> ks[i] == entries[i].0
  {
    if entries == [] then [] else [entries[0].0] + KeysOf(entries[1..])
  }

  /** `['role' => 'user', 'content' => $prompt]`. */
  function UserMessage(prompt: string): Value
  {
    Arr([(StrKey("role"), Str("user")), (StrKey("content"), Str(prompt))])
  }

  /** `isset($message['role'], $message['content'])`. */
  predicate HasRoleAndContent(message: Value) {
    Isset(message, StrKey("role")) && Isset(message, StrKey("content"))
  }

  /** Every message has a non-null `role` and a non-null `content`. */
  predicate AllWellFormed(messages: Entries) {
    forall i :: 0 <= i < |messages| ==> HasRoleAndContent(messages[i].1)
  }

  lemma AllWellFormedCons(messages: Entries)
    requires messages != []
    ensures AllWellFormed(messages) <==> HasRoleAndContent(messages[0].1) && AllWellFormed(messages[1..])
  {
    if HasRoleAndContent(messages[0].1) && AllWellFormed(messages[1..]) {
      forall i | 1 <= i < |messages| ensures HasRoleAndContent(messages[i].1) {
        assert messages[i] == messages[1..][i - 1];
      }
    }
  }

  /** The `array_reduce` in `areMetaLlamaPreviousMessagesValid`, from a given carry. */
  function ReduceMessagesValid(carry: bool, messages: Entries): (ok: bool)
    ensures ok <==> carry && AllWellFormed(messages)
  {
    if messages == [] then carry
    else
      AllWellFormedCons(messages);
      ReduceMessagesValid(carry && HasRoleAndContent(messages[0].1), messages[1..])
  }

  /** `areMetaLlamaPreviousMessagesValid`: every message (the empty list included) has
      a non-null `role` and a non-null `content`. */
  function PreviousMessagesValid(messages: Entries): (ok: bool)
    ensures ok <==> AllWellFormed(messages)
  {
    ReduceMessagesValid(true, messages)
  }

  /** `getMessages`: the new user turn always comes last; the previous turns come
      before it, in order, when every one of them is well formed, and are dropped
      otherwise. */
  function GetMessages(prompt: string, previous: Entries): (r: Entries)
    ensures r != [] && r[|r| - 1].1 == UserMessage(prompt)
    ensures !PreviousMessagesValid(previous) ==> r == [(IntKey(0), UserMessage(prompt))]
    ensures PreviousMessagesValid(previous) && DistinctKeys(previous) ==>
              Values(r) == Values(previous) + [UserMessage(prompt)]
  {
    var messages := [(IntKey(0), UserMessage(prompt))];
    if PreviousMessagesValid(previous) then
      ArrayMergeAppend(previous, UserMessage(prompt));
      ArrayMerge(previous, messages)
    else messages
  }

  /** `buildLlamaPayload`. A `previous_message` option that is neither missing, null
      nor an array makes `getMessages` raise a TypeError. */
  function BuildLlamaPayload(prompt: string, options: Entries): (r: Result<Value, Failure>)
    ensures r.Failure? <==> !Coalesce(Lookup(options, StrKey("previous_message")), Arr([])).Arr?
    ensures r.Failure? ==> r.error == PreviousMessagesNotArray
    ensures r.Success? ==>
              && r.value.Arr?
              && KeysOf(r.value.entries) == [StrKey("model"), StrKey("messages"), StrKey("max_tokens"), StrKey("stream")]
              && Field(r.value, "model") == Some(Str(LlamaModel))
              && Field(r.value, "max_tokens") == Some(Coalesce(Lookup(options, StrKey("max_tokens")), Int(DefaultMaxTokens)))
              && Field(r.value, "stream") == Some(Coalesce(Lookup(options, StrKey("stream")), Bool(false)))
              && Field(r.value, "messages") ==
                   Some(Arr(GetMessages(prompt, Coalesce(Lookup(options, StrKey("previous_message")), Arr([])).entries)))
  {
    var previous := Coalesce(Lookup(options, StrKey("previous_message")), Arr([]));
    if !previous.Arr? then Failure(PreviousMessagesNotArray)
    else
      var entries := [
        (StrKey("model"), Str(LlamaModel)),
        (StrKey("messages"), Arr(GetMessages(prompt, previous.entries))),
        (StrKey("max_tokens"), Coalesce(Lookup(options, StrKey("max_tokens")), Int(DefaultMaxTokens))),
        (StrKey("stream"), Coalesce(Lookup(options, StrKey("stream")), Bool(false)))
      ];
      assert DistinctKeys(entries);
      assert entries[2].0 == StrKey("max_tokens") && entries[3].0 == StrKey("stream");
      Success(Arr(entries))
  }

  /** `buildDefaultPayload`: the prompt as `inputs` and the caller's options verbatim. */
  function BuildDefaultPayload(prompt: string, options: Entries): (r: Value)
    ensures r.Arr? && KeysOf(r.entries) == [StrKey("inputs"), StrKey("options")]
    ensures Field(r, "inputs") == Some(Str(prompt)) && Field(r, "options") == Some(Arr(options))
  {
    Arr([(StrKey("inputs"), Str(prompt)), (StrKey("options"), Arr(options))])
  }

  /** `preparePayload`: the chat-completion payload for the Llama identifier (compared
      as a string, not through the table), the default payload for every other model. */
  function PreparePayload(model: string, prompt: string, options: Entries): (r: Result<Value, Failure>)
    ensures model == LlamaModel ==> r == BuildLlamaPayload(prompt, options)
    ensures model != LlamaModel ==> r == Success(BuildDefaultPayload(prompt, options))
  {
    if model == LlamaModel then BuildLlamaPayload(prompt, options)
    else Success(BuildDefaultPayload(prompt, options))
  }

  /** The chat payload when neither `max_tokens` nor `stream` is given. */
  function ChatPayload(messages: Entries): Value
  {
    Arr([(StrKey("model"), Str(LlamaModel)), (StrKey("messages"), Arr(messages)),
         (StrKey("max_tokens"), Int(DefaultMaxTokens)), (StrKey("stream"), Bool(false))])
  }

  /** Well-formed previous turns given as a list stay as they are, and the user turn
      follows them under the next index, as `array_merge` renumbers it. */
  lemma GetMessagesAfterList(prompt: string, history: Entries)
    requires IsList(history) && PreviousMessagesValid(history)
    ensures GetMessages(prompt, history) == history + [(IntKey(|history|), UserMessage(prompt))]
  {
    var user := [(IntKey(0), UserMessage(prompt))];
    ArrayMergeLists(history, user);
    var r := GetMessages(prompt, history);
    assert r == r[..|history|] + [r[|history| + 0]];
  }

  /** Without options the chat payload holds the user turn alone. */
  lemma ChatPayloadWithoutOptions(prompt: string)
    ensures BuildLlamaPayload(prompt, []) == Success(ChatPayload([(IntKey(0), UserMessage(prompt))]))
  {
    var none: Entries := [];
    assert Lookup(none, StrKey("previous_message")).None?;
    assert Lookup(none, StrKey("max_tokens")).None?;
    assert Lookup(none, StrKey("stream")).None?;
    GetMessagesAfterList(prompt, none);
    var previous := Coalesce(Lookup(none, StrKey("previous_message")), Arr([]));
    assert previous == Arr([]);
    assert Coalesce(Lookup(none, StrKey("max_tokens")), Int(DefaultMaxTokens)) == Int(DefaultMaxTokens);
    assert Coalesce(Lookup(none, StrKey("stream")), Bool(false)) == Bool(false);
    assert GetMessages(prompt, previous.entries) == [(IntKey(0), UserMessage(prompt))];
  }

  /** With well-formed previous turns as the only option, the chat payload holds them
      followed by the user turn. */
  lemma ChatPayloadWithHistory(prompt: string, history: Entries)
    requires IsList(history) && PreviousMessagesValid(history)
    ensures BuildLlamaPayload(prompt, [(StrKey("previous_message"), Arr(history))]) ==
            Success(ChatPayload(history + [(IntKey(|history|), UserMessage(prompt))]))
  {
    var options := [(StrKey("previous_message"), Arr(history))];
    assert Coalesce(Lookup(options, StrKey("previous_message")), Arr([])) == Arr(history) by {
      assert Lookup(options, StrKey("previous_message")) == Some(Arr(history));
    }
    assert Coalesce(Lookup(options, StrKey("max_tokens")), Int(DefaultMaxTokens)) == Int(DefaultMaxTokens) by {
      assert Lookup(options, StrKey("max_tokens")).None?;
    }
    assert Coalesce(Lookup(options, StrKey("stream")), Bool(false)) == Bool(false) by {
      assert Lookup(options, StrKey("stream")).None?;
    }
    assert GetMessages(prompt, history) == history + [(IntKey(|history|), UserMessage(prompt))] by {
      GetMessagesAfterList(prompt, history);
    }
  }

  // ---------------------------------------------------------------------------
  // Response normalisation

  /** The outcome of the HTTP call: the status, the raw body, and what
      `$response->json()` decodes the body to (Null when it does not decode). */
  datatype HttpResponse = HttpResponse(status: int, body: seq<Base64.Byte>, json: Value)

  /** The transport either throws (connection failure, timeout, exhausted retries) or
      returns a response. */
  datatype Transport = TransportThrew | Responded(response: HttpResponse)

  /** What `getResponse` returns when it does not return null. */
  datatype Output = ImageDataUri(uri: string) | TextResult(text: string, rawResponse: Value)

  /** Laravel's `$response->failed()`: a client or server error status. */
  predicate Failed(status: int): (failed: bool)
    ensures failed <==> (400 <= status < 500) || status >= 500
  {
    status >= 400
  }

  /** A byte string's PHP truthiness: only "" and "0" are falsy. */
  predicate BodyTruthy(body: seq<Base64.Byte>) {
    body != [] && body != ['0' as int]
  }

  /** `processImageResponse`: a truthy body becomes a PNG data URI whose payload
      decodes back to exactly the body; a falsy body gives null. */
  function ProcessImageResponse(body: seq<Base64.Byte>): (r: Option<string>)
    ensures r.Some? <==> BodyTruthy(body)
    ensures r.Some? ==> |r.value| >= |ImageUriPrefix| && r.value[..|ImageUriPrefix|] == ImageUriPrefix
                        && Base64.Decode(r.value[|ImageUriPrefix|..]) == Some(body)
  {
    if BodyTruthy(body) then
      var uri := ImageUriPrefix + Base64.Encode(body);
      Base64.DecodeEncode(body);
      assert uri[|ImageUriPrefix|..] == Base64.Encode(body);
      Some(uri)
    else None
  }

  /** `extractMetaLlamaResponse`: `Arr::get($data, 'choices.0.message.content')`
      through the `?string` return declaration. */
  function ExtractMetaLlamaResponse(data: Value): (r: Result<Option<string>, TypeError>)
    requires data.Arr?
    ensures r.Failure? <==> ArrGet(data, ChatContentPath).Arr?
    ensures r == Success(None) <==> ArrGet(data, ChatContentPath) == Null
    ensures var v := ArrGet(data, ChatContentPath);
            && (v.Str? ==> r == Success(Some(v.s)))
            && (v.Int? ==> r == Success(Some(IntToDecimal(v.i))))
            && (v.Bool? ==> r == Success(Some(if v.b then "1" else "")))
  {
    ToNullableString(ArrGet(data, ChatContentPath))
  }

  /** `extractStandardTextResponse`: `Arr::get($data, '0.generated_text')`; its
      `is_string($data)` fallback never applies, since `$data` is an array. */
  function ExtractStandardTextResponse(data: Value): (r: Result<Option<string>, TypeError>)
    requires data.Arr?
    ensures r.Failure? <==> ArrGet(data, GeneratedTextPath).Arr?
    ensures r == Success(None) <==> ArrGet(data, GeneratedTextPath) == Null
    ensures var v := ArrGet(data, GeneratedTextPath);
            && (v.Str? ==> r == Success(Some(v.s)))
            && (v.Int? ==> r == Success(Some(IntToDecimal(v.i))))
            && (v.Bool? ==> r == Success(Some(if v.b then "1" else "")))
  {
    ToNullableString(ArrGet(data, GeneratedTextPath))
  }

  /** The string a non-null scalar becomes under a `?string` return declaration. */
  function ScalarText(v: Value): string
    requires !v.Arr? && !v.Null?
  {
    ToNullableString(v).value.value
  }

  /** `extractTextFromResponse`: the chat-completion content if it is truthy, else the
      generated text if it is truthy, else `json_encode($data)`. A lookup that finds
      an array raises a TypeError, but only once the lookups before it came to nothing. */
  function ExtractTextFromResponse(data: Value, encode: Value -> string): (r: Result<string, TypeError>)
    requires data.Arr?
    ensures var c, g := ArrGet(data, ChatContentPath), ArrGet(data, GeneratedTextPath);
            && (r.Failure? <==> c.Arr? || (!Truthy(c) && g.Arr?))
            && (!c.Arr? && Truthy(c) ==> r == Success(ScalarText(c)))
            && (!c.Arr? && !Truthy(c) && !g.Arr? && Truthy(g) ==> r == Success(ScalarText(g)))
            && (!c.Arr? && !Truthy(c) && !g.Arr? && !Truthy(g) ==> r == Success(encode(data)))
  {
    var c, g := ArrGet(data, ChatContentPath), ArrGet(data, GeneratedTextPath);
    ToNullableStringKeepsTruthiness(c);
    ToNullableStringKeepsTruthiness(g);
    match ExtractMetaLlamaResponse(data)
    case Failure(e) => Failure(e)
    case Success(chat) =>
      if chat.Some? && StringTruthy(chat.value) then Success(chat.value)
      else match ExtractStandardTextResponse(data)
        case Failure(e) => Failure(e)
        case Success(generated) =>
          if generated.Some? && StringTruthy(generated.value) then Success(generated.value)
          else Success(encode(data))
  }

  // ---------------------------------------------------------------------------
  // The response shapes the extraction is written for

  /** A chat-completion response, `{"choices": [{"message": {"content": content}}]}`. */
  function ChatCompletion(content: Value): Value
  {
    Arr([(StrKey("choices"), Arr([(IntKey(0), Arr([(StrKey("message"), Arr([(StrKey("content"), content)]))]))]))])
  }

  /** A text-generation response, `[{"generated_text": text}]`. */
  function GeneratedTextList(text: Value): Value
  {
    Arr([(IntKey(0), Arr([(StrKey("generated_text"), text)]))])
  }

  /** The key "0" is the integer key 0, as in PHP. */
  lemma ZeroKey()
    ensures KeyOf("0") == IntKey(0)
  {
    KeyOfDecimal(0);
    assert IntToDecimal(0) == "0";
  }

  /** No segment of either path contains a dot. */
  lemma SegmentsUndotted()
    ensures |ChatContentSegments| == 4 && forall i :: 0 <= i < 4 ==> '.' !in ChatContentSegments[i]
    ensures |GeneratedTextSegments| == 2 && forall i :: 0 <= i < 2 ==> '.' !in GeneratedTextSegments[i]
  {
    assert forall i :: 0 <= i < 4 ==> '.' !in ChatContentSegments[i] by {
      assert '.' !in "choices" && '.' !in "0" && '.' !in "message" && '.' !in "content";
    }
    assert forall i :: 0 <= i < 2 ==> '.' !in GeneratedTextSegments[i] by {
      assert '.' !in "0" && '.' !in "generated_text";
    }
  }

  lemma ChatCompletionIsNest(content: Value)
    ensures Nest(ChatContentSegments, content) == ChatCompletion(content)
  {
    ZeroKey();
    NestFour("choices", "0", "message", "content", content);
    NestTwo("message", "content", content);
  }

  lemma GeneratedTextListIsNest(text: Value)
    ensures Nest(GeneratedTextSegments, text) == GeneratedTextList(text)
  {
    ZeroKey();
    NestTwo("0", "generated_text", text);
  }

  /** The chat-completion path finds the content of a chat-completion response, and
      the generated-text path finds nothing there. */
  lemma ChatCompletionLookups(content: Value)
    ensures ArrGet(ChatCompletion(content), ChatContentPath) == content
    ensures ArrGet(ChatCompletion(content), GeneratedTextPath) == Null
  {
    var v := ChatCompletion(content);
    assert ArrGet(v, ChatContentPath) == content by {
      SegmentsUndotted();
      ChatCompletionIsNest(content);
      ArrGetNest(ChatContentSegments, content);
    }
    assert ArrGet(v, GeneratedTextPath) == Null by {
      ZeroKey();
      assert KeyOf(GeneratedTextPath) != StrKey("choices") by {
        assert GeneratedTextPath[1] == '.';
      }
      SegmentsUndotted();
      ArrGetMissing(v, GeneratedTextSegments);
    }
  }

  /** The generated-text path finds the text of a text-generation response, and the
      chat-completion path finds nothing there. */
  lemma GeneratedTextListLookups(text: Value)
    ensures ArrGet(GeneratedTextList(text), GeneratedTextPath) == text
    ensures ArrGet(GeneratedTextList(text), ChatContentPath) == Null
  {
    var v := GeneratedTextList(text);
    assert ArrGet(v, GeneratedTextPath) == text by {
      SegmentsUndotted();
      GeneratedTextListIsNest(text);
      ArrGetNest(GeneratedTextSegments, text);
    }
    assert ArrGet(v, ChatContentPath) == Null by {
      assert KeyOf(ChatContentPath) != IntKey(0) by {
        assert ChatContentPath[0] == 'c';
      }
      SegmentsUndotted();
      ArrGetMissing(v, ChatContentSegments);
    }
  }

  /** The text of a chat-completion response is its content, when that is a non-empty
      string other than "0"; otherwise the whole response is encoded. */
  lemma ChatCompletionText(content: string, encode: Value -> string)
    ensures StringTruthy(content) ==>
              ExtractTextFromResponse(ChatCompletion(Str(content)), encode) == Success(content)
    ensures !StringTruthy(content) ==>
              ExtractTextFromResponse(ChatCompletion(Str(content)), encode) ==
              Success(encode(ChatCompletion(Str(content))))
  {
    ChatCompletionLookups(Str(content));
  }

  /** The text of a text-generation response is its generated text, when that is a
      non-empty string other than "0"; otherwise the whole response is encoded. */
  lemma GeneratedTextListText(text: string, encode: Value -> string)
    ensures StringTruthy(text) ==>
              ExtractTextFromResponse(GeneratedTextList(Str(text)), encode) == Success(text)
    ensures !StringTruthy(text) ==>
              ExtractTextFromResponse(GeneratedTextList(Str(text)), encode) ==
              Success(encode(GeneratedTextList(Str(text))))
  {
    GeneratedTextListLookups(Str(text));
  }

  /** A single object `{"generated_text": text}`, not wrapped in a list, is not
      recognised: its text is the encoded response. */
  lemma SingleGeneratedTextObjectIsEncoded(text: string, encode: Value -> string)
    ensures var data := Arr([(StrKey("generated_text"), Str(text))]);
            ExtractTextFromResponse(data, encode) == Success(encode(data))
  {
    var data := Arr([(StrKey("generated_text"), Str(text))]);
    assert ArrGet(data, ChatContentPath) == Null by {
      assert KeyOf(ChatContentPath) != StrKey("generated_text") by {
        assert ChatContentPath[7] == '.';
      }
      SegmentsUndotted();
      ArrGetMissing(data, ChatContentSegments);
    }
    assert ArrGet(data, GeneratedTextPath) == Null by {
      ZeroKey();
      assert KeyOf(GeneratedTextPath) != StrKey("generated_text") by {
        assert GeneratedTextPath[1] == '.';
      }
      SegmentsUndotted();
      ArrGetMissing(data, GeneratedTextSegments);
    }
  }

  /** `processTextResponse`: `{text, raw_response}` with the decoded body unchanged;
      null when the body did not decode to an array (the `array` parameter of
      `extractTextFromResponse` refuses it) or when extraction raised a TypeError. */
  function ProcessTextResponse(json: Value, encode: Value -> string): (r: Option<Output>)
    ensures r.Some? <==> json.Arr? && ExtractTextFromResponse(json, encode).Success?
    ensures r.Some? ==> r.value == TextResult(ExtractTextFromResponse(json, encode).value, json)
  {
    if !json.Arr? then None
    else match ExtractTextFromResponse(json, encode)
      case Failure(_) => None
      case Success(text) => Some(TextResult(text, json))
  }

  /** `processResponse`: the entry's type selects the branch; any type other than
      "image" or "text", or none, gives null. */
  function ProcessResponse(modelType: Option<string>, response: HttpResponse, encode: Value -> string)
    : (r: Option<Output>)
    ensures modelType != Some("image") && modelType != Some("text") ==> r == None
    ensures modelType == Some("image") ==>
              r == match ProcessImageResponse(response.body) case Some(u) => Some(ImageDataUri(u)) case None => None
    ensures modelType == Some("text") ==> r == ProcessTextResponse(response.json, encode)
  {
    match modelType
    case Some(t) =>
      if t == "image" then
        match ProcessImageResponse(response.body)
        case Some(uri) => Some(ImageDataUri(uri))
        case None => None
      else if t == "text" then ProcessTextResponse(response.json, encode)
      else None
    case None => None
  }

  // ---------------------------------------------------------------------------
  // The call

  /** The POST request the service would send. */
  datatype Request = Request(url: string, headers: seq<(string, string)>, payload: Value)

  /** The steps of `getResponse` before the HTTP call: model admission, the prompt
      check (which only logs), the entry's `url`, and the payload. */
  function PlanRequest(svc: Service, prompt: string, model: string, options: Entries)
    : (r: Result<(ModelEntry, Request), Failure>)
    ensures !IsModelSupported(svc, model) ==> r == Failure(UnsupportedModel(model))
    ensures IsModelSupported(svc, model) && svc.models[KeyOf(model)].url.None? ==>
              r == Failure(InvalidModelConfiguration(model))
    ensures r.Success? ==>
              && IsModelSupported(svc, model)
              && r.value.0 == svc.models[KeyOf(model)]
              && r.value.0.url.Some?
              && r.value.1.url == svc.baseUrl + r.value.0.url.value
              && r.value.1.headers == [("Authorization", "Bearer " + svc.apiToken), ("Content-Type", "application/json")]
              && PreparePayload(model, prompt, options) == Success(r.value.1.payload)
    ensures IsModelSupported(svc, model) && svc.models[KeyOf(model)].url.Some? ==>
              (r.Success? <==> PreparePayload(model, prompt, options).Success?)
  {
    match ValidateModel(svc, model)
    case Failure(e) => Failure(e)
    case Success(entry) =>
      // `validatePrompt` runs here; it only logs, so its verdict decides nothing.
      var _ := ValidatePrompt(prompt);
      match entry.url
      case None => Failure(InvalidModelConfiguration(model))
      case Some(url) =>
        match PreparePayload(model, prompt, options)
        case Failure(e) => Failure(e)
        case Success(payload) =>
          Success((entry, Request(svc.baseUrl + url,
                                  [("Authorization", "Bearer " + svc.apiToken), ("Content-Type", "application/json")],
                                  payload)))
  }

  /** The request for a supported model with a url: the entry's url under the base
      URL, the bearer token, and the payload. */
  lemma PlannedRequest(svc: Service, prompt: string, model: string, options: Entries, payload: Value)
    requires IsModelSupported(svc, model) && svc.models[KeyOf(model)].url.Some?
    requires PreparePayload(model, prompt, options) == Success(payload)
    ensures PlanRequest(svc, prompt, model, options) ==
            Success((svc.models[KeyOf(model)],
                     Request(svc.baseUrl + svc.models[KeyOf(model)].url.value,
                             [("Authorization", "Bearer " + svc.apiToken), ("Content-Type", "application/json")],
                             payload)))
  {
  }

  /** `getResponse` with the reason for a null result kept: a failed status is the
      exception `handleError` throws. */
  function Attempt(svc: Service, prompt: string, model: string, options: Entries,
                   transport: Transport, encode: Value -> string): (r: Result<Output, Failure>)
    ensures PlanRequest(svc, prompt, model, options).Failure? ==>
              r == Failure(PlanRequest(svc, prompt, model, options).error)
    ensures PlanRequest(svc, prompt, model, options).Success? && transport.TransportThrew? ==>
              r == Failure(TransportError)
    ensures PlanRequest(svc, prompt, model, options).Success? && transport.Responded? &&
            Failed(transport.response.status) ==>
              r.Failure? && r.error.ApiError? && r.error.error.code == transport.response.status
  {
    match PlanRequest(svc, prompt, model, options)
    case Failure(e) => Failure(e)
    case Success((entry, _)) =>
      match transport
      case TransportThrew => Failure(TransportError)
      case Responded(response) =>
        if Failed(response.status) then Failure(ApiError(HandleError(response.status)))
        else match ProcessResponse(entry.modelType, response, encode)
          case Some(out) => Success(out)
          case None => Failure(NoResult)
  }

  /** `getResponse`: every failure collapses to null. An unsupported model, a transport
      error or a failed status gives null; a result is a data URI of the body for an
      image model and `{text, raw_response}` with the decoded body for a text model. */
  function GetResponse(svc: Service, prompt: string, model: string, options: Entries,
                       transport: Transport, encode: Value -> string): (r: Option<Output>)
    ensures !IsModelSupported(svc, model) ==> r == None
    ensures transport.TransportThrew? ==> r == None
    ensures transport.Responded? && Failed(transport.response.status) ==> r == None
    ensures PlanRequest(svc, prompt, model, options).Failure? ==> r == None
    ensures PlanRequest(svc, prompt, model, options).Success? && transport.Responded? &&
            !Failed(transport.response.status) ==>
              r == ProcessResponse(svc.models[KeyOf(model)].modelType, transport.response, encode)
    ensures r.Some? ==>
              && IsModelSupported(svc, model)
              && transport.Responded?
              && !Failed(transport.response.status)
              && var entry := svc.models[KeyOf(model)];
              && (entry.modelType == Some("image") || entry.modelType == Some("text"))
              && (entry.modelType == Some("image") ==>
                    r.value.ImageDataUri?
                    && BodyTruthy(transport.response.body)
                    && r.value.uri == ImageUriPrefix + Base64.Encode(transport.response.body)
                    && |r.value.uri| >= |ImageUriPrefix|
                    && r.value.uri[..|ImageUriPrefix|] == ImageUriPrefix
                    && Base64.Decode(r.value.uri[|ImageUriPrefix|..]) == Some(transport.response.body))
              && (entry.modelType == Some("text") ==>
                    r.value.TextResult? && r.value.rawResponse == transport.response.json
                    && transport.response.json.Arr?
                    && ExtractTextFromResponse(transport.response.json, encode) == Success(r.value.text))
  {
    match Attempt(svc, prompt, model, options, transport, encode)
    case Success(out) => Some(out)
    case Failure(_) => None
  }

  // ---------------------------------------------------------------------------
  // Properties of the call

  /** An unsupported model builds no request: the result is null whatever the
      transport would have answered. */
  lemma UnsupportedModelSendsNothing(svc: Service, prompt: string, model: string, options: Entries,
                                     t1: Transport, t2: Transport, encode: Value -> string)
    requires !IsModelSupported(svc, model)
    ensures PlanRequest(svc, prompt, model, options).Failure?
    ensures GetResponse(svc, prompt, model, options, t1, encode) == None
    ensures GetResponse(svc, prompt, model, options, t1, encode) ==
            GetResponse(svc, prompt, model, options, t2, encode)
  {
  }

  /** The prompt check does not stop the request: whether a request is built does not
      depend on the prompt, blank or not. */
  lemma PromptDoesNotGateRequest(svc: Service, p1: string, p2: string, model: string, options: Entries)
    ensures PlanRequest(svc, p1, model, options).Success? <==> PlanRequest(svc, p2, model, options).Success?
  {
  }

  /** For every model other than the Llama identifier, the payload is exactly
      `{inputs: prompt, options: options}` and a request is built whenever the model
      is supported and its entry has a url. */
  lemma DefaultPayloadRequest(svc: Service, prompt: string, model: string, options: Entries)
    requires model != LlamaModel && IsModelSupported(svc, model)
    requires svc.models[KeyOf(model)].url.Some?
    ensures PlanRequest(svc, prompt, model, options).Success?
    ensures PlanRequest(svc, prompt, model, options).value.1.payload ==
            Arr([(StrKey("inputs"), Str(prompt)), (StrKey("options"), Arr(options))])
  {
  }

  /** A successful answer for a text model gives `{text, raw_response}` with the text
      the extraction finds and the decoded body. */
  lemma TextModelResult(svc: Service, prompt: string, model: string, options: Entries,
                        response: HttpResponse, encode: Value -> string, text: string)
    requires PlanRequest(svc, prompt, model, options).Success?
    requires svc.models[KeyOf(model)].modelType == Some("text")
    requires !Failed(response.status) && response.json.Arr?
    requires ExtractTextFromResponse(response.json, encode) == Success(text)
    ensures GetResponse(svc, prompt, model, options, Responded(response), encode) ==
            Some(TextResult(text, response.json))
  {
  }

  /** A successful, non-empty answer for an image model gives the PNG data URI of the
      body. */
  lemma ImageModelResult(svc: Service, prompt: string, model: string, options: Entries,
                         response: HttpResponse, encode: Value -> string)
    requires PlanRequest(svc, prompt, model, options).Success?
    requires svc.models[KeyOf(model)].modelType == Some("image")
    requires !Failed(response.status) && BodyTruthy(response.body)
    ensures GetResponse(svc, prompt, model, options, Responded(response), encode) ==
            Some(ImageDataUri(ImageUriPrefix + Base64.Encode(response.body)))
  {
  }

  /** An image model answered with an empty body, or the body "0", gives null, not an
      empty data URI. */
  lemma FalsyImageBodyGivesNull(svc: Service, prompt: string, model: string, options: Entries,
                                response: HttpResponse, encode: Value -> string)
    requires IsModelSupported(svc, model) && svc.models[KeyOf(model)].modelType == Some("image")
    requires !BodyTruthy(response.body)
    ensures GetResponse(svc, prompt, model, options, Responded(response), encode) == None
  {
  }

  /** A text model whose answer did not decode to an array gives null. */
  lemma NonArrayTextBodyGivesNull(svc: Service, prompt: string, model: string, options: Entries,
                                  response: HttpResponse, encode: Value -> string)
    requires IsModelSupported(svc, model) && svc.models[KeyOf(model)].modelType == Some("text")
    requires !response.json.Arr?
    ensures GetResponse(svc, prompt, model, options, Responded(response), encode) == None
  {
  }

  /** Every failed status is classified with its own code, and the call gives null. */
  lemma FailedStatusGivesNull(svc: Service, prompt: string, model: string, options: Entries,
                              response: HttpResponse, encode: Value -> string)
    requires Failed(response.status)
    ensures GetResponse(svc, prompt, model, options, Responded(response), encode) == None
    ensures PlanRequest(svc, prompt, model, options).Success? ==>
              Attempt(svc, prompt, model, options, Responded(response), encode) ==
              Failure(ApiError(HandleError(response.status)))
  {
  }
}
