# HuggingFaceService in Dafny

This project models the request/response logic of `HuggingFaceService`, the one service class of the Laravel package `rezaulhreza/hugging-face-for-laravel`.

- **The service.** It is built from an API token, a base URL and the configured model table. `getResponse(prompt, model, options)` does the following:
  - admits the model only if it is a key of the table;
  - logs (but does not stop on) a blank prompt;
  - takes the entry's `url`;
  - builds a chat-completion payload for the Llama identifier and `{inputs, options}` for every other model;
  - POSTs the payload with a bearer token;
  - classifies a failed status;
  - normalises the answer: a PNG data URI for `image` models, a `{text, raw_response}` record for `text` models.
- **Failure.** Every failure of a call ends as `null`. Only construction fails outright.

The model is pure: nothing in the service changes after construction. It has five modules:

- `Wrappers`: `Option` and `Result`.
- `PhpValues`: the slice of PHP and Laravel the service relies on.
  - Ordered arrays with normalised keys.
  - `isset`, `??`, truthiness, `empty` and `trim`.
  - The numeric-string key rule.
  - `explode`/`implode` and Laravel's `Arr::get` with dotted keys.
  - `array_merge` with its renumbering of integer keys.
  - The coercion a `?string` return declaration applies.
- `Base64`: `base64_encode` as specified in section 4 of RFC 4648, with a strict decoder. The two are proved inverse in both directions.
- `HuggingFaceService`: the service itself. The HTTP exchange is an input (`Transport`: the call threw, or it answered with a status, a raw body and the decoded JSON), and `json_encode` is the parameter `encode`.
  - `PlanRequest` covers the steps before the call.
  - `Attempt` covers the whole call, keeping the reason for a null.
  - `GetResponse` is `getResponse`.
- `ServiceScenarios`: the shipped model table and the exchanges the package's test suite describes, stated as lemmas about the model.

What the code does not do, and the model therefore does not either:

- **No resolution outside the table.** The comment at config/hugging-face.php:21-23 says any other model can be used by giving its configuration when calling the service. The code reads no model configuration from the call. A model missing from the table gives null, and `options` never sets a model's type or url.
- **No task-type mapping.** The `model_types` table (config/hugging-face.php:42-59) is described as determining how responses are processed. The service never reads it, and there is no remote metadata lookup. The type comes from the table entry alone.
- **Options are not interpreted for other models.** Only the Llama payload reads `previous_message`, `max_tokens` and `stream`. The default payload carries the options verbatim under `options`.
- **Text extraction.** Only `choices.0.message.content` and then `0.generated_text` are consulted; otherwise the whole body is encoded. A single object `{"generated_text": ...}` is not read: it is encoded whole (`SingleGeneratedTextObjectIsEncoded`).
- **Falsy image body.** An empty body, or the body "0", gives null, not an empty data URI (`FalsyImageBodyGivesNull`).
- **Empty prompt.** It is only logged. The request is still built and sent (`PromptDoesNotGateRequest`, `EmptyPromptScenario`).
- **Token "0".** The token check uses `empty(trim(...))`, so the token "0" is refused like a blank one (`ZeroTokenRefused`).

## Model

| member | source | states |
|---|---|---|
| HuggingFaceService.NewService | src/HuggingFaceService.php:14-25 | construction fails with the empty-token error exactly when the trimmed token is PHP-`empty`; it fails with the missing-configuration error exactly when the token passes and no table is given; otherwise the service keeps the token, base URL and table |
| HuggingFaceService.TokenCheck | src/HuggingFaceService.php:18-20 | a service is built exactly when the token has a character `trim` keeps and its trimmed form is not "0" |
| HuggingFaceService.IsModelSupported | src/HuggingFaceService.php:241-244 | a model is supported exactly when its PHP key is a key of the table; a name starting with neither a digit nor '-' is looked up as that very string |
| HuggingFaceService.ValidateModel | src/HuggingFaceService.php:66-71 | admission succeeds exactly when the model is a key of the table (under PHP's key rule), returning that entry; otherwise it fails with the unsupported-model error for that model |
| HuggingFaceService.ValidatePrompt | src/HuggingFaceService.php:73-82 | the empty-prompt error is logged exactly when every character of the prompt is one `trim` strips or the trimmed prompt is "0" |
| HuggingFaceService.HandleError | src/HuggingFaceService.php:98-117 | the exception code is always the status; 401, 429 and 500 each get their own kind, and the generic kind is given exactly to every other status |
| HuggingFaceService.ReduceMessagesValid | src/HuggingFaceService.php:169 | the `array_reduce` from a carry holds exactly when the carry holds and every message has non-null `role` and `content` |
| HuggingFaceService.PreviousMessagesValid | src/HuggingFaceService.php:167-170 | the previous turns are valid exactly when every one (none, for the empty list) has non-null `role` and `content` |
| HuggingFaceService.GetMessages | src/HuggingFaceService.php:151-162 | the user turn is always last; invalid previous turns are dropped, leaving the user turn alone; valid ones come first with their values in order |
| HuggingFaceService.GetMessagesAfterList | src/HuggingFaceService.php:151-162 | valid previous turns given as a list are kept as they are, and the user turn follows under the next integer index |
| HuggingFaceService.BuildLlamaPayload | src/HuggingFaceService.php:131-141 | fails exactly when `previous_message` is present, non-null and not an array (the TypeError of `getMessages`); otherwise the payload has exactly the keys model, messages, max_tokens, stream in that order: the Llama identifier, the message list, `max_tokens ?? 500` and `stream ?? false` |
| HuggingFaceService.ChatPayloadWithoutOptions | src/HuggingFaceService.php:131-141 | without options the chat payload holds the user turn alone, 500 tokens and no streaming |
| HuggingFaceService.ChatPayloadWithHistory | src/HuggingFaceService.php:131-162 | with a valid list of previous turns, the payload's messages are those turns followed by the user turn |
| HuggingFaceService.BuildDefaultPayload | src/HuggingFaceService.php:143-149 | the payload has exactly the keys inputs and options, holding the prompt and the caller's options unchanged |
| HuggingFaceService.PreparePayload | src/HuggingFaceService.php:122-129 | the Llama identifier, compared as a string, gets the chat payload; every other model gets the default payload |
| HuggingFaceService.DefaultPayloadRequest | src/HuggingFaceService.php:40-42 | for any supported model other than the Llama identifier whose entry has a url, a request is built and its payload is exactly `{inputs: prompt, options: options}` |
| HuggingFaceService.ProcessImageResponse | src/HuggingFaceService.php:187-190 | a result exists exactly when the body is truthy (not "" and not "0"); it starts with `data:image/png;base64,` and the rest decodes back to exactly the body |
| HuggingFaceService.ExtractMetaLlamaResponse | src/HuggingFaceService.php:225-228 | the TypeError arises exactly when `Arr::get` on `choices.0.message.content` finds an array, and null comes back exactly when it finds null; a string found there is returned unchanged, an integer in decimal, and a boolean as "1" or "" |
| HuggingFaceService.ExtractStandardTextResponse | src/HuggingFaceService.php:233-236 | the same for `0.generated_text`; the `is_string` fallback never applies to an array |
| HuggingFaceService.ExtractTextFromResponse | src/HuggingFaceService.php:209-220 | the text is the chat content if truthy, else the generated text if truthy, else `json_encode` of the data; a TypeError arises exactly when the chat lookup finds an array, or it is falsy and the generated-text lookup finds one |
| HuggingFaceService.ChatCompletionLookups | src/HuggingFaceService.php:225-236 | in a chat-completion response the chat path finds the content and the generated-text path finds null |
| HuggingFaceService.GeneratedTextListLookups | src/HuggingFaceService.php:225-236 | in a `[{generated_text}]` response the generated-text path finds the text and the chat path finds null |
| HuggingFaceService.ChatCompletionText | src/HuggingFaceService.php:209-228 | the text of a chat-completion response is its content when that is truthy, and the encoded response otherwise |
| HuggingFaceService.GeneratedTextListText | src/HuggingFaceService.php:209-236 | the text of a `[{generated_text}]` response is its generated text when that is truthy, and the encoded response otherwise |
| HuggingFaceService.SingleGeneratedTextObjectIsEncoded | src/HuggingFaceService.php:209-236 | a single `{generated_text}` object is not recognised: its text is the encoded response |
| HuggingFaceService.ProcessTextResponse | src/HuggingFaceService.php:192-204 | a result exists exactly when the body decoded to an array and extraction raised nothing; it is `{text, raw_response}` with the extracted text and the decoded body unchanged |
| HuggingFaceService.ProcessResponse | src/HuggingFaceService.php:175-182 | an `image` entry gives the data-URI branch, a `text` entry the text branch, and any other type or none gives null |
| HuggingFaceService.PlanRequest | src/HuggingFaceService.php:37-42 | an unsupported model and an entry without url each fail with their own error; a built request is sent to base URL + entry url with the bearer token and JSON content type, and carries the prepared payload; for a supported model with a url, a request is built exactly when the payload is |
| HuggingFaceService.PlannedRequest | src/HuggingFaceService.php:37-50 | a supported model with a url and a prepared payload gives exactly that entry and that request |
| HuggingFaceService.Attempt | src/HuggingFaceService.php:36-63 | a planning failure is the call's failure; a throwing transport is a transport error; a failed status is an API error whose code is the status |
| HuggingFaceService.GetResponse | src/HuggingFaceService.php:34-64 | null for an unsupported model, an entry without url, a non-array `previous_message`, a throwing transport and a failed status; once the request is built and its status did not fail, the result is exactly what `processResponse` makes of the entry's type and the answer; a result implies the model is supported, the status succeeded and the entry type is image or text; an image result needs a truthy body and is the prefix followed by the body's Base64 encoding, which decodes back to the body; a text result needs a body that decoded to an array, carries it unchanged, and holds the text the extraction finds |
| HuggingFaceService.FalsyImageBodyGivesNull | src/HuggingFaceService.php:189 | an image model answered with an empty body or "0" gives null |
| HuggingFaceService.NonArrayTextBodyGivesNull | src/HuggingFaceService.php:192-204 | a text model whose answer did not decode to an array gives null |
| HuggingFaceService.UnsupportedModelSendsNothing | src/HuggingFaceService.php:37 | for an unsupported model no request is built, and the result is null whatever the transport would have answered |
| HuggingFaceService.PromptDoesNotGateRequest | src/HuggingFaceService.php:38 | whether a request is built does not depend on the prompt |
| HuggingFaceService.TextModelResult | src/HuggingFaceService.php:58 | for a text model with a successful status, the result is `{text, raw_response}` with the extracted text and the decoded body |
| HuggingFaceService.ImageModelResult | src/HuggingFaceService.php:58 | for an image model with a successful status and a truthy body, the result is `data:image/png;base64,` followed by the body's Base64 encoding |
| HuggingFaceService.Failed | src/HuggingFaceService.php:52 | `$response->failed()` holds exactly for a client error (400-499) or a server error (500 and above) |
| HuggingFaceService.FailedStatusGivesNull | src/HuggingFaceService.php:52-56 | every failed status gives null, and a planned call fails with exactly `handleError`'s classification of that status |
| PhpValues.Lookup | src/HuggingFaceService.php:133 | a value is found exactly when the key is present; the found entry is in the array; with distinct keys it is the value under that key |
| PhpValues.Coalesce | src/HuggingFaceService.php:138-139 | `$a[$k] ?? $d`: the found value unless the key is missing or holds null, in which case the default |
| PhpValues.Trim | src/HuggingFaceService.php:18 | the trimmed string is an infix with only strippable characters around it, and neither starts nor ends with one |
| PhpValues.TrimEmptyIffBlank | src/HuggingFaceService.php:75 | `trim` gives "" exactly when every character is strippable |
| PhpValues.KeyOf | src/HuggingFaceService.php:40 | a string becomes an integer key only when it is that integer's canonical 64-bit decimal form; otherwise it stays a string key, as it does whenever it starts with neither a digit nor '-' |
| PhpValues.KeyOfDecimal | src/HuggingFaceService.php:243 | every 64-bit integer's decimal form is read back as that integer key |
| PhpValues.Split | src/HuggingFaceService.php:227 | `explode('.', $key)` gives at least one piece, no piece contains the separator, and gluing the pieces back with it gives the key |
| PhpValues.SplitJoin | src/HuggingFaceService.php:227 | `explode` undoes `implode` when no piece contains the separator |
| PhpValues.ArrGet | src/HuggingFaceService.php:227 | `Arr::get` gives null for a non-array, the stored value when the key is present verbatim, null for a missing undotted key, and otherwise follows the dotted path |
| PhpValues.ArrGetNest | src/HuggingFaceService.php:227 | a dotted key finds the leaf of the nested value its dot-free segments describe |
| PhpValues.ArrGetMissing | src/HuggingFaceService.php:235 | a dotted key gives null when neither the whole key nor its first segment is present |
| PhpValues.ArrayMerge | src/HuggingFaceService.php:158 | `array_merge` has no more entries than its two arguments together, and exactly as many when every key is an integer, since integer keys are renumbered and never overwrite |
| PhpValues.ArrayMergeAppend | src/HuggingFaceService.php:158 | `array_merge($a, [$x])` ends with `$x`, and with distinct keys its values are those of `$a` followed by `$x` |
| PhpValues.ArrayMergeLists | src/HuggingFaceService.php:158 | merging a list with integer-keyed entries keeps the list and appends the entries' values renumbered after it |
| PhpValues.ToNullableString | src/HuggingFaceService.php:225-236 | a `?string` return refuses exactly arrays, gives null exactly for null, keeps a string unchanged, writes an integer in decimal and a boolean as "1" or "" |
| PhpValues.ToNullableStringKeepsTruthiness | src/HuggingFaceService.php:211-215 | a non-null scalar is truthy exactly when the string it is coerced to is |
| Base64.Encode | src/HuggingFaceService.php:189 | `base64_encode` gives whole quanta of four characters, and nothing exactly for no bytes |
| Base64.EncodedLength | src/HuggingFaceService.php:189 | every started group of three bytes becomes four characters |
| Base64.DecodeEncode | src/HuggingFaceService.php:189 | decoding the encoding of any bytes gives them back |
| Base64.EncodeDecode | src/HuggingFaceService.php:189 | any text that decodes is the encoding of what it decodes to |
| Base64.DecodeIffEncode | src/HuggingFaceService.php:189 | text decodes to given bytes exactly when it is their encoding |
| ServiceScenarios.ConfiguredEntries | config/hugging-face.php:26-35 | both configured models are string keys, the image model served at its own name and the Llama model at its chat-completions url, with types image and text |
| ServiceScenarios.TestServiceBuilds | tests/HuggingFaceServiceTest.php:12-16 | the test token with the default base URL and the configured table builds the service |
| ServiceScenarios.ZeroTokenRefused | src/HuggingFaceService.php:18-20 | the token "0" is refused as empty |
| ServiceScenarios.ModelSupportScenario | tests/HuggingFaceServiceTest.php:95-99 | the image model is supported and `unsupported/model` is not |
| ServiceScenarios.ChatRequestScenario | tests/HuggingFaceServiceTest.php:27-37 | "Hello!" to the Llama model is sent to the chat-completions url with the model, the one user turn, 500 tokens and no streaming |
| ServiceScenarios.LlamaChatAnswer | src/HuggingFaceService.php:192-198 | any built Llama request answered with a chat completion whose content is truthy gives that content with the decoded body |
| ServiceScenarios.ChatResponseScenario | tests/HuggingFaceServiceTest.php:21-41 | the chat-completion answer "Hello!" gives the text "Hello!" |
| ServiceScenarios.TestHistoryValid | tests/HuggingFaceServiceTest.php:53-56 | the tests' two previous turns form a list of valid messages |
| ServiceScenarios.TestHistoryPayload | tests/HuggingFaceServiceTest.php:59-70 | with those turns, the chat payload's messages are the two turns followed by the user turn under index 2 |
| ServiceScenarios.PreviousMessagesScenario | tests/HuggingFaceServiceTest.php:59-71 | that payload is sent to the chat-completions url with the test token |
| ServiceScenarios.PreviousMessagesResponseScenario | tests/HuggingFaceServiceTest.php:47-75 | the answer "Hi there!" to that request gives the text "Hi there!" |
| ServiceScenarios.UnsupportedModelScenario | tests/HuggingFaceServiceTest.php:78-82 | `unsupported/model` gives null whatever the transport does |
| ServiceScenarios.LlamaFailedStatus | src/HuggingFaceService.php:37-56 | for any prompt, the Llama request without options is built, and a failed status is its `handleError` classification and gives null |
| ServiceScenarios.NotFoundScenario | tests/HuggingFaceServiceTest.php:84-93 | a 404 answer is the generic failure with code 404, and gives null |
| ServiceScenarios.EmptyPromptScenario | tests/HuggingFaceServiceTest.php:101-110 | the empty prompt is logged, the request is still built, and the 400 answer is the generic failure with code 400 and gives null |
| ServiceScenarios.ImageModelExchange | config/hugging-face.php:27-30 | the image model gets the default payload at its own url, and a truthy body comes back as its PNG data URI |

## Left out

- HTTP transport: the timeout, the two retries with their delay, and the POST itself are not modelled. Their outcome is the `Transport` input: the call threw, or it returned a status, the raw body and the decoded JSON.
- Retry exhaustion: `retry(2, 1000)` leaves Laravel's `throw` flag at its default of true. When both attempts get a failed status, the client throws a `RequestException` from `post`, so `handleError` is never reached for a status of 400 or above. The `catch` then returns null. `Attempt` models the `handleError` path as the code is written, which classifies the status. The result of `getResponse` is null on both paths, and `GetResponse` states that.
- Logging: `logException`, the `logger()->error` calls, and the error data `handleError` collects (error text, body, URI, method) are a side channel, not modelled. Only the exception kind and code are kept.
- Configuration loading: `config()->get('hugging-face.models')` is the `models` argument of `NewService`, and `env()` is not modelled. The `model_types` table in config/hugging-face.php is never read by the service and is not modelled.
- Laravel wiring: src/HuggingFaceServiceProvider.php and src/Facades/HuggingFace.php are registration only, not modelled. tests/TestCase.php is scaffolding.
- JSON: `$response->json()` is an input value, and `json_encode` is the parameter `encode`. Neither a JSON parser nor a serialiser is modelled, and nor is `json_encode` returning false.
- Floats and objects: decoded JSON is null, booleans, integers, strings and arrays. Floats and PHP objects are not modelled, so neither is their `?string` coercion.
- Model entries: `url` and `type` are strings or missing. A table entry that is not an array, or whose fields are non-string values, is not modelled.
- HuggingFaceService.Attempt: its contract names the failure cases only. The successful results are stated by `GetResponse`, `TextModelResult` and `ImageModelResult`.
