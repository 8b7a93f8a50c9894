# Voxon assistant core, modelled in Dafny

Voxon is a browser voice assistant. Its script, `src/js/app.js`, turns a transcript into one of five actions:

- reload the page;
- play a search on YouTube;
- open a site;
- run a live web search;
- ask the chat model.

The script also keeps a chat history in browser storage, remembers a light or dark theme, picks a speech locale from the characters of a reply, and formats search results into a reply. A separate Node script, `load-env.js`, reads a `.env` file into a map and lists the required API keys that are missing.

This project models that logic in Dafny 4 and proves what it promises.

## Modules

| file | module | what it holds |
|---|---|---|
| `js_text.dfy` | `JsText` | The JavaScript string operations the code relies on: `toLowerCase`, `trim`, `\s`, `includes`, `startsWith`, `split` and `join`. Whitespace is the ECMAScript set, and line terminators are the ones `.` does not cross. |
| `uri_component.dfy` | `UriComponent` | `encodeURIComponent`: UTF-8 bytes as `%XX` with uppercase hex, unreserved characters kept. A percent-decoder gives the round trip, and the round trip proves the encoding injective. |
| `open_site.dfy` | `OpenSite` | `ResolveUrl`, the address chosen for an "open ..." target. The two regular expressions are written as predicates. |
| `intent.dfy` | `Intent` | `Classify`, the first-match-wins chain of `processInput`. It contains an exact model of the unanchored, case-insensitive regex search for `/play (.+) on youtube/i` and `/open (.+)/i`: leftmost start, then greedy capture. |
| `intent_examples.dfy` | `IntentExamples` | Concrete transcripts ("play daft punk on youtube", "reopen the door", "open youtube.com", "open github") and what they classify to. |
| `chat_history.dfy` | `ChatHistory` | The history list as a class. A ghost field stands for the "chatHistory" storage key. |
| `theme.dfy` | `Theme` | The theme attribute and its storage key as a class. |
| `locale.dfy` | `Locale` | The locale heuristic of `speak`, both as written and corrected. |
| `search_reply.dfy` | `SearchReply` | The numbered search reply: a loop method and the function that specifies it. |
| `assistant.dfy` | `Assistant` | What `processInput` and the two request handlers record in the history. The outcome of each request is a parameter. |
| `env_file.dfy` | `EnvFile` | The `.env` line loop, as a method over a `map`, and the required-key filter. |

## Where the model follows the code

- **Spanish test.** The line of the Spanish test (src/js/app.js:323) is commented `// Spanish`, and its alternatives are the look of ¿ ¡ á é í ó ú ñ once their UTF-8 bytes are read as Windows-1252. The test itself lists those two-character sequences, not the Spanish characters, so an accented letter such as "é" does not fire it. The model follows the code, and the gap is under Findings.
- **Search-reply separator.** The separator (src/js/app.js:294) is likewise the three characters U+00E2 U+20AC U+201D, not an em dash. It is taken literally as the constant `SearchReply.Separator`. The text is only displayed and stored, so nothing in the model depends on it.
- **`.env` keys.** The key is the text before the first '=', without a trim of its own: "A = b" stores the key "A " with the value "b".
- **The `__proto__` key.** Assigning to the key `__proto__` of a plain object runs the prototype setter. That setter ignores a string, so such a line stores nothing (`EnvFile.ProtoKey`).

## Model

| member | source | states |
|---|---|---|
| `Intent.Classify` | src/js/app.js:105-163 | Exactly one of the five actions results, in this precedence: Reload iff the lower-cased transcript contains "reload" or "refresh"; else Play iff the play pattern matches anywhere; else Open iff the open pattern matches; else LiveSearch iff "weather", "today" or "news" occurs case-insensitively; else Conversational. |
| `Intent.Search` | src/js/app.js:118 | Scanning start positions from `i` finds a match at the first start that has one, with the longest capture there; it finds none iff no start from `i` matches. |
| `Intent.CaptureEnd` | src/js/app.js:118 | Given a start, returns the end of the longest capture (`.+` greedy, no line terminator, for play followed by " on youtube"), or none when nothing matches there. |
| `Intent.LineEnd` | src/js/app.js:118 | The first line terminator at or after `k`: a slice from `k` is single-line iff it ends at or before it. |
| `Intent.LastMatchIn` | src/js/app.js:118 | The last position in a window where " on youtube" occurs case-insensitively, or none. |
| `Intent.SearchIsMatch` | src/js/app.js:118 | The search from the start succeeds iff some match exists, and what it finds is the leftmost, longest match. |
| `Intent.IsMatchUnique` | src/js/app.js:118 | There is at most one leftmost-longest match. |
| `Intent.PlayQuery` | src/js/app.js:118-121 | For the reported play match, the query is the trimmed capture with its case kept, and the URL is the YouTube search address followed by the query's `encodeURIComponent`. |
| `Intent.OpenTarget` | src/js/app.js:132-146 | For the reported open match, the site is the trimmed, lower-cased capture and the URL is its resolution. |
| `Intent.ReloadAnywhere` | src/js/app.js:107 | "reload" or "refresh", in any case and anywhere in the transcript, gives Reload whatever surrounds it. |
| `Intent.YouTubeSearchUrl` | src/js/app.js:121 | The search address followed by the `encodeURIComponent` of the query. `Intent.YouTubeSearchUrlIsFull` and `Intent.YouTubeSearchUrlInjective` state its properties. |
| `Intent.YouTubeSearchUrlIsFull` | src/js/app.js:121 | The YouTube search URL is a full https address for every query. |
| `Intent.YouTubeSearchUrlInjective` | src/js/app.js:121 | Different queries give different YouTube search URLs. |
| `IntentExamples.PlayWholeMatch` | src/js/app.js:118 | In lower-case, single-line text that starts with "play " and ends with " on youtube", with a non-empty capture between them, the reported match is the whole transcript. |
| `IntentExamples.PlayCommand` | src/js/app.js:118-121 | A single-line transcript "play Q on youtube" with no capitals that is not a reload command, for a non-empty, trimmed Q, gives Play(Q, YouTube search URL of Q). |
| `IntentExamples.OpenToEnd` | src/js/app.js:132-146 | A single-line transcript with no capitals that is neither a reload nor a play command, and whose first "open " is followed by a non-empty, trimmed target up to the end, gives Open(target, its resolution). |
| `IntentExamples.PlayDaftPunk` | src/js/app.js:118-121 | "play daft punk on youtube" plays "daft punk". |
| `IntentExamples.DaftPunkEncoded` | src/js/app.js:121 | The query "daft punk" is encoded as "daft%20punk". |
| `IntentExamples.PlayGreedy` | src/js/app.js:118 | The capture runs to the last " on youtube": "play a on youtube on youtube" plays "a on youtube". |
| `IntentExamples.ReopenTheDoor` | src/js/app.js:132-146 | The open pattern is unanchored: "reopen the door" opens "the door" at https://thedoor.com. |
| `IntentExamples.OpenYouTubeCom` | src/js/app.js:132-140 | "open youtube.com" opens https://youtube.com, not the YouTube home page. |
| `IntentExamples.OpenGitHub` | src/js/app.js:132-145 | "open github" opens https://www.github.com. |
| `OpenSite.ResolveUrl` | src/js/app.js:137-146 | The rule chain for an open target: a full address is kept, a bare domain gets "https://", a known site name gives that site's home page, anything else becomes "https://" + the whitespace-free target + ".com". `OpenSite.ResolveIsFull` and `OpenSite.ResolveIdempotent` state its properties. |
| `OpenSite.Https` | src/js/app.js:140 | Prefixing "https://" to a non-empty, whitespace-free text gives a full address whose rest is that text. |
| `OpenSite.ResolveIsFull` | src/js/app.js:137-146 | Every resolution is a full address: it starts with "http://" or "https://" and is followed by at least one non-whitespace character. |
| `OpenSite.ResolveIdempotent` | src/js/app.js:137-146 | Resolving an address that resolution produced gives it back. |
| `OpenSite.BareDomainRule` | src/js/app.js:139-140 | A bare domain that is not a full address is opened with "https://" in front. |
| `OpenSite.FallbackRule` | src/js/app.js:146 | A target that is no address and names no known site becomes "https://" + the target with all whitespace removed + ".com". |
| `OpenSite.GitHubRule` | src/js/app.js:141-145 | A target that is neither a full address nor a bare domain, names github and names none of the earlier sites opens https://www.github.com. |
| `OpenSite.BareDomainBeforeKnownName` | src/js/app.js:139-141 | "youtube.com" is a bare domain, so it resolves to https://youtube.com before the known-name rule applies. |
| `OpenSite.KnownName` | src/js/app.js:145 | "github" resolves to https://www.github.com. |
| `OpenSite.Fallback` | src/js/app.js:146 | "random text" resolves to https://randomtext.com. |
| `OpenSite.StripSpaced` | src/js/app.js:146 | Removing whitespace from "a b", for whitespace-free a and b, gives "ab". |
| `UriComponent.EncodeURIComponent` | src/js/app.js:121 | The encoding is at least as long as the text, and uses only unreserved characters, '%' and uppercase hexadecimal digits. |
| `UriComponent.DecodeEncode` | src/js/app.js:121 | Percent-decoding the encoding gives the text back. |
| `UriComponent.EncodeInjective` | src/js/app.js:121 | Different texts have different encodings. |
| `UriComponent.EncodeConcat` | src/js/app.js:121 | Encoding a concatenation is concatenating the encodings. |
| `UriComponent.EncodeUnreserved` | src/js/app.js:121 | Text of unreserved characters encodes to itself. |
| `UriComponent.EncodeSpace` | src/js/app.js:121 | A space encodes as "%20". |
| `JsText.Trim` | src/js/app.js:120 | `trim` never lengthens the text, its result neither starts nor ends with whitespace, and text that already does neither is left unchanged. |
| `JsText.TrimFactor` | src/js/app.js:120 | The trimmed text is a factor of the text, with only whitespace before it and only whitespace after it. |
| `JsText.Lower` | src/js/app.js:107 | `toLowerCase` keeps the length and lowers each character on its own: A–Z to a–z, everything else kept. |
| `JsText.StripWhiteSpace` | src/js/app.js:146 | `replace(/\s+/g, "")` leaves no whitespace, never lengthens the text, and leaves whitespace-free text unchanged. |
| `JsText.StripKeeps` | src/js/app.js:146 | The stripped text is a subsequence of the text and holds every non-whitespace character exactly as often as the text does. |
| `JsText.Split` | load-env.js:27 | `split` yields at least one part, none of which holds the separator. |
| `JsText.JoinSplit` | load-env.js:30-31 | Joining the parts of a split with the same separator gives the text back. |
| `ChatHistory.History.Load` | src/js/app.js:407-411 | Page load starts from the saved list, or from no entries when nothing is saved; the stored copy is the list or absent. |
| `ChatHistory.History.Add` | src/js/app.js:63-67 | Exactly one entry is appended, earlier entries are unchanged, and the stored copy equals the new list. |
| `ChatHistory.History.Delete` | src/js/app.js:69-73 | Exactly entry `i` is removed, the others keep their order, and the stored copy equals the new list. |
| `ChatHistory.History.Clear` | src/js/app.js:75-80 | The list is empty and the storage key is absent. |
| `ChatHistory.Without` | src/js/app.js:70 | `splice(i, 1)` shortens the list by one, keeps the entries before `i`, and shifts the entries after it down by one. |
| `ChatHistory.WithoutInsert` | src/js/app.js:70 | Putting the removed entry back at `i` gives the list again. |
| `ChatHistory.ReloadRestores` | src/js/app.js:407-411 | Whatever sequence of changes happened, a reload finds exactly the current entries. |
| `Theme.ToggleTwice` | src/js/app.js:33-39 | Two toggles restore "light" or "dark"; from any other theme they end on "dark". |
| `Theme.ThemeState.LoadTheme` | src/js/app.js:27-31 | The attribute becomes the loaded theme, and storage is untouched. |
| `Theme.ThemeState.Toggle` | src/js/app.js:33-39 | The attribute becomes the toggled theme ("dark" from "light", "light" from anything else), and storage holds the same value, so the theme is persisted. |
| `Theme.ToggleSurvivesReload` | src/js/app.js:27-39 | After a toggle, a reload shows the same theme. |
| `Locale.SelectLocaleIsFirstMatch` | src/js/app.js:318-326 | The chain is a first-match-wins table in the order Arabic, CJK, Cyrillic, Devanagari, Spanish, kana, Thai, Hangul, and falls back to the default. |
| `Locale.FirstFiring` | src/js/app.js:318-326 | The chosen rule fires and no earlier rule does; no rule fires when none is chosen. |
| `Locale.SelectLocale` | src/js/app.js:318-326 | The as-written if-chain: the first range or Spanish test that fires picks its locale, else the configured default. Its contracts are `Locale.SelectLocaleIsFirstMatch` and `Locale.ChosenLocale`. |
| `Locale.SelectLocaleIntended` | src/js/app.js:318-326 | The same chain with the Spanish test on ¿ ¡ á é í ó ú ñ themselves. Its contracts are `Locale.SelectLocaleIntendedIsFirstMatch`, `Locale.ChosenLocale` and `Locale.IntendedSpanish`. |
| `Locale.ChosenLocale` | src/js/app.js:318-326 | Both chains pick one of the eight listed locales or keep the default, and pick Spanish over a non-Spanish default only when a Spanish alternative occurs. |
| `Locale.ArabicBeforeCjk` | src/js/app.js:319-320 | Text holding both an Arabic letter and a CJK ideograph, in any order, is spoken as Arabic by both chains. |
| `Locale.AsciiKeepsDefault` | src/js/app.js:318-326 | Plain ASCII text keeps the configured default. |
| `Locale.SpanishAsWrittenLead` | src/js/app.js:323 | Every Spanish alternative as written is two characters starting with U+00C2 or U+00C3. |
| `Locale.Latin1PassesRanges` | src/js/app.js:319-326 | Latin-1 text passes all seven range tests. |
| `Locale.CafeAsWritten` | src/js/app.js:323 | With the test as written, "café" keeps the default. |
| `Locale.SelectLocaleIntendedIsFirstMatch` | src/js/app.js:318-326 | The corrected chain is the same table with the Spanish characters themselves. |
| `Locale.IntendedSpanish` | src/js/app.js:323 | Under the corrected test, Latin-1 text gives Spanish exactly when it contains one of ¿ ¡ á é í ó ú ñ. |
| `Locale.CafeIntended` | src/js/app.js:323 | With the corrected test, "café" is Spanish. |
| `SearchReply.BuildSearchReply` | src/js/app.js:291-304 | The `reply +=` loop yields the specified reply: "No results found." for no items, otherwise the numbered lines of the first three. |
| `SearchReply.DecimalText` | src/js/app.js:294 | The interpolated index is a non-empty text of decimal digits that denotes the number, with no leading zero, and one digit exactly below 10. |
| `SearchReply.Line` | src/js/app.js:294 | The line for result `n`: its decimal index, ". ", the title, the separator and the snippet. `SearchReply.LineTextAt` and `SearchReply.LineHasNoNewline` state what it holds. |
| `SearchReply.Lines` | src/js/app.js:293-295 | The lines of the results in order, each followed by a newline. `SearchReply.SplitLines` and `SearchReply.ReplyLines` state its shape. |
| `SearchReply.SearchReplyText` | src/js/app.js:291-304 | "No results found." for no results, otherwise the lines of the first three. `SearchReply.BuildSearchReply` computes it and `SearchReply.ReplyLines` splits it into lines. |
| `SearchReply.ReplyLines` | src/js/app.js:291-295 | For results without newlines, the reply splits into one line per shown result (at most three) and an empty remainder. |
| `SearchReply.LineTextAt` | src/js/app.js:293-294 | Line k is "k+1. title — snippet" of result k. |
| `SearchReply.SplitLines` | src/js/app.js:294 | Each result contributes exactly one newline-terminated line. |
| `SearchReply.NoItemsReply` | src/js/app.js:300-302 | An empty result list gives "No results found.". |
| `Assistant.LocalReply` | src/js/app.js:108-150 | Reload, play and open reply at once; live search and chat reply only when their request completes. |
| `Assistant.ProcessInput` | src/js/app.js:105-163 | The action is the classification; a local action records exactly one entry (transcript, its reply), and a remote one records nothing yet. |
| `Assistant.CompleteLiveSearch` | src/js/app.js:291-310 | The search records one entry: the formatted results, or "Error fetching live search." on failure. |
| `Assistant.CompleteChat` | src/js/app.js:256-270 | The chat request records one entry: the answer, or "Error fetching AI response." on failure. |
| `Assistant.FinalReply` | src/js/app.js:108-310 | The reply a transcript ends with: the local reply of a reload, play or open action, else the search or chat response. `Assistant.HandleTranscript` records exactly it. |
| `Assistant.HandleTranscript` | src/js/app.js:105-163 | Handled to completion, a transcript adds exactly one entry and leaves earlier entries unchanged. |
| `Assistant.ReloadRecordsItsReply` | src/js/app.js:107-110 | A reload command records "Reloading the page...". |
| `EnvFile.ParseLine` | load-env.js:28-34 | The entry one line contributes, if any. `EnvFile.ParseLineSpec` characterises it and `EnvFile.ParseLineShape` states its shape. |
| `EnvFile.ParseLineShape` | load-env.js:30-32 | Every entry has a non-empty key without '=' and a non-empty value that neither starts nor ends with whitespace. |
| `EnvFile.ParseLineSpec` | load-env.js:28-34 | A line yields an entry iff, once trimmed, it is non-empty, does not start with '#', has a non-empty key before its first '=', and has a non-blank value after it. The key is the text before the first '='; the value is the trimmed rest, '=' characters included. |
| `EnvFile.SkippedLines` | load-env.js:28-29 | Blank lines and comments contribute nothing. |
| `EnvFile.KeyValueLine` | load-env.js:30-33 | `KEY=VALUE` stores the key with the trimmed value, keeping any '=' inside the value. |
| `EnvFile.Store` | load-env.js:32-33 | `envVars[key] = value` for one entry; `__proto__` stores nothing. `EnvFile.StoreAt` states its effect on each key. |
| `EnvFile.StoreAt` | load-env.js:33 | After one entry, a key is present iff the entry stores it or it was present; a stored key has the entry's value and every other key keeps its old one. |
| `EnvFile.EnvOf` | load-env.js:27-36 | The variables after folding the lines in order. `EnvFile.EnvHas`, `EnvFile.EnvLookup` and `EnvFile.StoredEntriesWellFormed` state what it holds. |
| `EnvFile.StoredEntriesWellFormed` | load-env.js:27-36 | Every stored key is non-empty, has no '=' and is not `__proto__`, and every stored value is non-empty and trimmed. |
| `EnvFile.ParseEnv` | load-env.js:24-36 | The loop over lines builds the map that folding the lines in order gives. |
| `EnvFile.EnvHas` | load-env.js:27-36 | A key is present iff some line defines it. |
| `EnvFile.EnvLookup` | load-env.js:27-36 | A key's value is the one given by the last line that defines it. |
| `EnvFile.LaterLineOverrides` | load-env.js:33 | A later line for a key overwrites its value and no other key changes. |
| `EnvFile.InertLine` | load-env.js:28-34 | A line that yields no entry leaves the map unchanged. |
| `EnvFile.IsMissing` | load-env.js:40 | A key is missing when it is absent, holds the empty text, or holds text containing "your_". `EnvFile.ProceedsIffAllPresent` states the consequence. |
| `EnvFile.MissingKeys` | load-env.js:39-40 | A key is listed iff it is required and missing, and the list keeps the order of the required keys. |
| `EnvFile.MissingAmong` | load-env.js:39-40 | The missing keys are exactly the required keys that are absent, empty, or contain "your_", in required-list order. |
| `EnvFile.ProceedsIffAllPresent` | load-env.js:39-47 | The script goes on iff every required key holds a non-empty value without "your_". |
| `EnvFile.LoadEnv` | load-env.js:24-47 | The map is the fold of the lines, and the missing list is the filter of the required keys over it. |

## Findings

| source | as written | input that shows it | evidently intended | confidence | as-written member | corrected member |
|---|---|---|---|---|---|---|
| src/js/app.js:323 | The Spanish test looks for the two-character sequences U+00C2 U+00BF, U+00C3 U+00A1, … (UTF-8 bytes of ¿ ¡ á é í ó ú ñ mis-read as Windows-1252). | "café": its "é" is the single character U+00E9, so the test does not fire and the default locale is kept. | The test fires on ¿ ¡ á é í ó ú ñ themselves, so "café" is spoken as Spanish. | not executed | `Locale.CafeAsWritten` | `Locale.CafeIntended` |

`Locale.SelectLocale` is the as-written heuristic. `Locale.SelectLocaleIntended` is the corrected one, and `Locale.IntendedSpanish` characterises it.

## Left out

- DOM rendering (`updateChatHistory`, status text, buttons, typing indicator, `handleTextInput`) is outside the model because it is UI.
- Speech recognition and speech synthesis (`startListening`, `stopSpeech`, utterances) are outside the model because they are browser APIs driven by events. Only the locale choice in `speak` is modelled.
- The audio visualizer is outside the model because it is floating-point drawing on a microphone stream.
- `fetch`, `async`/`await`, and interleaved requests are outside the model. A request's outcome is a parameter (`SearchOutcome`, `ChatOutcome`), and `HandleTranscript` assumes a request completes before the next transcript.
- `setTimeout`, `window.open` and `location.reload` are outside the model. The built URL is part of the action, but opening it is not modelled.
- The "chatHistory" storage key is the ghost field `ChatHistory.History.stored`, and JSON serialisation and parsing are taken to be an exact round trip on the entries.
- The "voxonTheme" storage key is the ordinary field `Theme.ThemeState.saved`, because `LoadTheme` reads it. Browser storage failures and quotas are outside the model.
- server/index.js is not part of this model. It is routing and proxying around foreign HTTP calls.
- src/js/config.js is not part of this model. It is a static configuration object.
- In load-env.js, `existsSync`, `readFileSync`, `process.exit` and console output are outside the model. The file's text is the parameter of `ParseEnv` and `LoadEnv`.
- `ChatHistory.History.Delete`: requires an index inside the list. It does not model `splice` with a negative or out-of-range index, because the index always comes from a rendered position.
- `JsText.Lower`: the model maps only A–Z, while JavaScript's `toLowerCase` also lowers non-ASCII capitals. Keyword tests are unaffected, but an open target with non-ASCII capitals differs from the source.
- JavaScript strings are UTF-16, while Dafny characters are Unicode scalar values. A character outside the Basic Multilingual Plane is one character here and two code units there. Lone surrogates cannot occur, so the `URIError` that `encodeURIComponent` throws for them is not modelled.
- `SearchReply.Line`: a result whose title or snippet is undefined (interpolated as "undefined") is not modelled, because items are taken to always have both fields.
- The spoken summary of the first search result is left out because speech is left out.
