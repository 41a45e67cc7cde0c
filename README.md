# lm-explorer client controller, modelled in Dafny

The GPT-2 Explorer page (`static/app.js`) lets a user type a sentence,
asks the `/predict` service for the most likely next tokens, and lets
the user click a token to extend the sentence. The current sentence is
kept in the page URL (`?text=...`) so that it can be shared and so that
back/forward navigation restores it. This project models the client-side
logic of that page and proves properties of the model:

- `wrappers.dfy`: `Option` (for JavaScript's `null`/`undefined`) and `Result` (for a built-in that throws).
- `text.dfy` (module `Text`): `trimRight` (only spaces), `lastIndexOf`, the undo prefix of `goBack`, the `↵` display form of a token (`cleanWord`), and `String.prototype.split` with a one-character separator.
- `uri_codec.dfy` (module `UriCodec`): ECMAScript's `encodeURIComponent` and `decodeURIComponent`. The model works over Unicode scalar values and their UTF-8 bytes, and escapes as in section 2.1 of RFC 3986, with upper-case hex digits. Decoding accepts hex digits of either case. It throws a URIError on a bad escape, a bad lead or continuation byte, an overlong form, a surrogate, or a value beyond U+10FFFF.
- `deep_link.dfy` (module `DeepLink`): `DEFAULT`, the query string `addToUrl` pushes, `loadFromUrl`, and `loadFromUrl() || DEFAULT`.
- `controller.dfy` (module `Controller`): the `App` component as a class. It has the fields `output`, `words`, `logits`, `probabilities`, `loading`, `error` and `currentRequestId`.
  - React's `setState` is a synchronous merge into these fields.
  - `fetch` is split in two. `Choose` returns the request it sends. The caller later reports the outcome with `CompleteOk` (the response body) or `CompleteErr` (a rejected promise).
  - The debounced `choose` is a pending flag. `SetOutput` raises it and `FireDebounce` consumes it by running `choose()` on the state as it is then.
  - Pushed history entries and sent requests are ghost logs.
  - `Valid()` keeps the invariant that the counter has numbered the sent requests 1, 2, 3, … in order. It also keeps each sent request's shape: a non-empty prefix without trailing spaces, `next` equal to the chosen token, and 5 steps.
- `scenarios.dfy` (module `Scenarios`): sequences of events, such as the request race, a typing burst, and going back to a pushed URL. Each is proved for every state satisfying `Valid()` and every input meeting its precondition. Four of them (`LaterRequestWins`, `EditDoesNotSupersede`, `BlankTextKeepsRequestCurrent`, `StaleFailureShowsError`) require a sentence that is not all spaces, so that `choose` sends a request; `BlankTextKeepsRequestCurrent` also requires the edited text to be all spaces. The two back-navigation scenarios require `hasHistory`, and `BackToPushedUrl` requires the pushed sentence to be non-empty.

Behaviour of the code that the model makes explicit:

- A success response is applied only when its id equals the counter. Only `choose` advances the counter. So of two requests sent one after the other, only the later one's data is applied, in either completion order (`LaterRequestWins`).
- Editing the text does not advance the counter. A response still in flight for the text before the edit is therefore applied after the edit. With no chosen token, its suggestions then appear beside the edited text (`EditDoesNotSupersede`). The same happens when the text is cleared, because `choose` on blank text sends nothing and leaves the older request current (`BlankTextKeepsRequestCurrent`).
- A failure is handled without looking at the id. A superseded request that fails therefore still raises `error` and lowers `loading` (`StaleFailureShowsError`).
- `error` is cleared when `choose` starts, not when a response succeeds.

Details of the code that the model keeps:

- `trimRight` removes only trailing `' '`. A tab or a line break is kept, so text made only of tabs is sent.
- A malformed escape in the URL's `text` value makes `decodeURIComponent` throw. It does not fall back to `DEFAULT` (`MalformedTextThrows`, `LoneEscapeThrows`, `TruncatedEscapeThrows`). At page start the component cannot be built, so the constructor requires a URL that does not throw. In the `popstate` listener the exception stops the listener before it changes anything.
- `encodeURIComponent` leaves ECMAScript's unreserved marks `! * ' ( )` unescaped. That is more than the unreserved set of section 2.3 of RFC 3986. None of these marks is `&` or `=`, so the round trip is unaffected.
- The response's `words`, `logits` and `probabilities` are copied as they come. Nothing checks that their lengths agree.

## Model

| member | source | states |
|---|---|---|
| Text.TrimRight | static/app.js:221-223 | the result is a prefix of the input, everything removed is a space, and the result does not end in a space (only `' '` is removed, tabs and newlines stay) |
| Text.TrimRightUnique | static/app.js:221-223 | those three properties determine the result: it is exactly the input without its maximal trailing run of spaces |
| Text.TrimRightIdempotent | static/app.js:221-223 | trimming twice is trimming once |
| Text.TrimRightEmpty | static/app.js:289-290 | the trimmed text is empty exactly when the text is only spaces, which is the guard in `choose` |
| Text.LastIndexOf | static/app.js:423 | `lastIndexOf(" ")` is -1 or the index of a space with no space after it |
| Text.UndoPrefix | static/app.js:422-427 | the undo prefix is a prefix of the sentence that ends just before its last space; it is empty exactly when no space occurs after position 0 |
| Text.CleanWord | static/app.js:409 | the display form has the token's length and replaces each `\n`, and only `\n`, by `↵` |
| Text.CleanWordDisplayable | static/app.js:409 | the display form holds no `\n` (a `\r` or U+2028 is kept) and cleaning it again changes nothing |
| Text.Split | static/app.js:216 | `split` yields at least one piece, no piece holds the separator, and joining the pieces with it gives the input back |
| Text.SplitJoin | static/app.js:216 | split undoes join for separator-free pieces (so the pieces are unique) |
| UriCodec.HexDigit | static/app.js:210 | the hex digit written for a value is upper-case (`0`-`9`, `A`-`F`) and reads back as that value |
| UriCodec.Utf8RoundTrip | static/app.js:208-219 | the UTF-8 form of every character has a lead byte announcing its length and decodes back to the character |
| UriCodec.EncodeComponent | static/app.js:210 | `encodeURIComponent` output holds only unreserved characters and `%`, so no `&`, `=`, `?` or `#` |
| UriCodec.EncodeUnreserved | static/app.js:210 | a string of unreserved characters is its own encoding: `encodeURIComponent` leaves them as they are |
| UriCodec.EscapedBytes | static/app.js:218 | reading n escapes consumes exactly 3n characters and yields n bytes |
| UriCodec.DecodeEscape | static/app.js:218 | a successful escape sequence spans at least 3 characters and never runs past the input; input not starting with `%HH` throws |
| UriCodec.DecodeComponent | static/app.js:218 | `decodeURIComponent` of a string without `%` is that string |
| UriCodec.DecodeEscapeFails | static/app.js:218 | reading an escape throws exactly when no run of one to four `%HH` escapes at its start is the UTF-8 form of a character (lone or short `%`, non-hex digit, bad lead or continuation byte, overlong form, surrogate, value beyond U+10FFFF) |
| UriCodec.BadLeadFails | static/app.js:218 | an escaped byte that cannot lead a UTF-8 sequence throws |
| UriCodec.TruncatedFails | static/app.js:218 | a lead byte announcing more escapes than remain throws |
| UriCodec.Utf8Canonical | static/app.js:218 | every byte sequence the decoder accepts is the UTF-8 form of the character it yields, so overlong forms are refused |
| UriCodec.SurrogateFails | static/app.js:218 | the three escapes a surrogate would have in UTF-8 throw, whatever follows |
| UriCodec.DecodePlainPrefix | static/app.js:218 | text without `%` is copied through in front of the decoding of the rest, and a URIError in the rest is a URIError of the whole |
| UriCodec.FirstEscapeFails | static/app.js:218 | the whole decoding throws when its first `%` does not start a well-formed escape |
| UriCodec.EscapeAllRead | static/app.js:210 | the `%HH` escapes written for a byte sequence are read back as that sequence |
| UriCodec.DecodeEncodeChar | static/app.js:208-219 | decoding the encoding of one character followed by anything yields that character followed by the decoding of the rest |
| UriCodec.DecodeEncode | static/app.js:208-219 | `decodeURIComponent(encodeURIComponent(s)) === s` for every string |
| DeepLink.Default | static/app.js:206 | the sentence `"Joel is"`; `InitialOutput` falls back to it and `BackToStartPage` shows it |
| DeepLink.ChoiceText | static/app.js:210 | `choice \|\| ''`; `LoadSearchFor` states that it is appended to the sentence in the pushed URL |
| DeepLink.SearchFor | static/app.js:208-212 | the query `addToUrl` pushes; `LoadSearchFor` states that `loadFromUrl` reads it back as the sentence plus the chosen token |
| DeepLink.Query | static/app.js:216 | `location.search.substr(1)`; `ReadTextParam` states what `loadFromUrl` reads from `?text=` followed by a value |
| DeepLink.LoadFromUrl | static/app.js:214-219 | `loadFromUrl`; `FirstTextParamFinds`, `ReadTextParam`, `LoadSearchFor`, `MalformedTextThrows` and `LoneEscapeThrows` state what it returns and when it throws |
| DeepLink.FirstTextParam | static/app.js:216-218 | the search for the `text` parameter; `FirstTextParamFinds` states that it equals `map`, then `find`, then the two-pieces test |
| DeepLink.SplitEach | static/app.js:216 | `map(p => p.split('='))` keeps the order and splits each part |
| DeepLink.FindKey | static/app.js:217 | `find` gives the first parameter whose name is `text`, and none exactly when no parameter is so named |
| DeepLink.FirstTextParamFinds | static/app.js:214-219 | `loadFromUrl` is decided by the first parameter named `text`: its decoded value if it has exactly two `=`-pieces, otherwise null, even when a later `text` parameter is well formed |
| DeepLink.ReadTextParam | static/app.js:214-219 | `?text=` followed by a value with no `&` or `=` reads back as the decoded value |
| DeepLink.LoadSearchFor | static/app.js:208-219 | the URL `addToUrl(output, choice)` pushes reads back as `output + (choice or '')` |
| DeepLink.MalformedTextThrows | static/app.js:218 | a `text` value on which `decodeURIComponent` throws makes `loadFromUrl` throw: there is no fallback to `DEFAULT` |
| DeepLink.LoneEscapeThrows | static/app.js:218 | `loadFromUrl` throws on `?text=%` |
| DeepLink.TruncatedEscapeThrows | static/app.js:218 | `loadFromUrl` throws on `?text=%C3`, a lead byte without its continuation |
| DeepLink.DecodeValue | static/app.js:218 | `decodeURIComponent(text.pop())`; `FirstTextParamFinds` states it gives the result when the first `text` parameter has two pieces, `MalformedTextThrows` that its URIError is thrown by `loadFromUrl` |
| DeepLink.IsDeepLink | static/app.js:272 | `fullText ? true : false`; `PopState` states it is exactly the push suppression of the `choose` it runs |
| DeepLink.InitialOutput | static/app.js:233 | `loadFromUrl() or DEFAULT` is never empty; it is the URL's text when that is non-empty, otherwise `"Joel is"` |
| Controller.Payload | static/app.js:295-299 | the body `{previous, next, numsteps}`; `Valid()` and `Choose` state that `previous` is the trimmed, non-empty sentence, `next` the chosen token and `numsteps` 5 |
| Controller.IdsIncrease | static/app.js:261-265 | ids grow strictly in sending order, so no two requests share one |
| Controller.CurrentIsLast | static/app.js:320 | a sent request passes the counter check exactly when it is the last one sent |
| Controller.App.constructor | static/app.js:227-239 | the sentence comes from the URL or is `DEFAULT`; no suggestions, both flags down, counter 0, nothing sent or pushed |
| Controller.App.SetOutput | static/app.js:247-259 | typing sets the sentence, clears the suggestions, sets `loading` to "the trimmed text is non-empty", schedules the debounced `choose`, keeps `error` and the counter, and sends nothing |
| Controller.App.CreateRequestId | static/app.js:261-265 | returns the counter plus one and stores it |
| Controller.App.Choose | static/app.js:285-306 | blank text: both flags down, no id used, nothing sent or pushed; otherwise one request under the next id with payload `{trimRight(output), choice, 5}`, `loading` up, `error` down, a URL pushed exactly when history exists and pushing is not suppressed; sentence and suggestions untouched |
| Controller.App.FireDebounce | static/app.js:242 | the debounced call runs `choose()` on the current sentence and clears the pending flag |
| Controller.App.Mount | static/app.js:267-268 | `componentDidMount` runs `choose()` without suppressing the push: the starting sentence's URL is pushed when history exists and the sentence is not all spaces |
| Controller.App.CompleteOk | static/app.js:318-326 | a response is applied only if its id is the counter: the sentence is kept when no token was chosen and becomes the server's `output` otherwise, the suggestions are copied in and `loading` drops; a stale response changes nothing |
| Controller.App.CompleteErr | static/app.js:327-330 | any failure, whatever its id, raises `error` and lowers `loading`, leaving sentence, suggestions and counter alone |
| Controller.App.PopState | static/app.js:270-281 | back/forward takes the sentence from the URL (or `DEFAULT`), clears the suggestions and runs `choose`, suppressing the push exactly when the URL held a non-empty sentence; a throwing `loadFromUrl` changes nothing |
| Scenarios.LaterRequestWins | static/app.js:301-326 | of two requests sent in order, only the second one's data is in the final state, whichever completes first |
| Scenarios.TypingBurst | static/app.js:247-259 | four edits then the debounce send at most one request, for the last text: one when it is not all spaces, none otherwise |
| Scenarios.EditDoesNotSupersede | static/app.js:247-326 | a response in flight before an edit is applied after it, showing its suggestions beside the edited text |
| Scenarios.BlankTextKeepsRequestCurrent | static/app.js:285-326 | clearing the text sends nothing, so the earlier request stays current and its response is applied |
| Scenarios.StaleFailureShowsError | static/app.js:320-330 | a superseded request's failure raises `error` after the newer request succeeded |
| Scenarios.BackToPushedUrl | static/app.js:270-281 | going back to a URL the page pushed restores its sentence and pushes nothing |
| Scenarios.BackToStartPage | static/app.js:270-281 | going back to the empty query shows `DEFAULT`, sends a request and pushes `DEFAULT`'s URL |

## Left out

- Styling declarations and the JSX markup of `render` and `Choices` are presentation only. `formatProbability` is floating-point formatting.
- The `fetch` transport and JSON parsing are replaced by the outcome the caller reports. A response body is modelled as the four fields `/predict` returns. A JSON body with other fields is not modelled.
- The `gtag` analytics call and `console.error` are not modelled.
- `window.history.pushState` becomes a ghost log of query strings. `addEventListener` is not modelled: `PopState` may be called only when history exists.
- `location.search` after a push is taken to be exactly the pushed query string.
- The lodash debounce timing (1000 ms, reset on each call) is not modelled. Only "one trailing call later, on the then-current state" is.
- React's batching of `setState` is not modelled. Every merge is applied at once.
- `runOnEnter` is disabled in the source and is not modelled.
- The undo button's call to `predict(prefix)` is not modelled, because `predict` is not defined in the file. Only the prefix is modelled.
- JavaScript strings are modelled as Unicode scalar values, not as UTF-16 code units. Lone surrogates, on which `encodeURIComponent` throws, cannot be represented. `lastIndexOf` positions count characters, not code units. The prefix it cuts is the same.
- app.py, lm_explorer/lm/gpt2.py, lm_explorer/util/sampling.py and lm_explorer/lm/language_model.py are not part of this model. They are the server, the torch model and random sampling.
