# Desktop notification plugin, modelled in Dafny

This project models `pi-extensions/notify.ts`. That file is a plugin for an
interactive coding agent. When the agent finishes a turn it does four things:

1. It walks the transcript backwards to the last message whose role is
   `"assistant"`.
2. It extracts that message's text. String content is trimmed. For array
   content, only the `type: "text"` parts are kept, joined with newlines and
   trimmed. Empty text becomes `null`.
3. It normalises the text into a `{title, body}` notification. Every
   whitespace run becomes one space and the result is trimmed. Blank text
   gives the placeholder title `Ready for input`. Any other text gives the
   title `π` and a body capped at 200 characters (199 characters plus `…`).
4. It writes the OSC 777 notify escape sequence
   `ESC ] 777 ; notify ; title ; body BEL` to the terminal. Nothing in title
   or body is escaped. OSC 777 notify is a convention from rxvt-unicode that
   Ghostty, iTerm2 and WezTerm also read.

Files:

- `wrappers.dfy` (module `Wrappers`): `Option`, the model of `T | null` and
  of optional fields.
- `js_strings.dfy` (module `JsStrings`): the JavaScript string operations the
  plugin relies on, over strings of Unicode code points:
  - `trim` (with `TrimStart` and `TrimEnd`)
  - `replace(/\s+/g, " ")` (`CollapseWhitespace`)
  - `Array.prototype.join` (`Join`)

  `IsWhitespace` is the set both `\s` and `trim` use: ECMAScript's WhiteSpace
  and LineTerminator code points.
- `notify.dfy` (module `Notify`): the plugin itself.
  - The transcript is a closed set of datatypes:
    - `Message(role, content)`
    - `Content = Str | Parts | Other`
    - `Part = PartObject(kind, text) | NonObject`
  - The backwards search is a `while` loop (`ExtractLastAssistantText`),
    proved equal to the recursive specification `LastAssistantText`.
  - Formatting is `FormatNotification`. The escape sequence is `Payload`.
    `ParsePayload` is the terminal's reading of it, used as the inverse.
  - The handler is `OnAgentEnd`, specified by `AgentEndPayload`.

Two behaviours of the code are easy to misread, and the model follows the
code in both:

- A user message after the last assistant message does not hide it. The loop
  skips every non-assistant message, so
  `[assistant "hi", user "x"]` yields `"hi"`. See `UserMessageLastScenario`.
- Text parts are joined with a newline, but formatting then collapses that
  newline to a space. Parts `"a"` and `"b"` give the body `"a b"`, not
  `"a\nb"`. See `MixedPartsScenario`.

## Model

| member | source | states |
|---|---|---|
| `JsStrings.IsWhitespace` | pi-extensions/notify.ts:48 | the set `\s` and `trim` share: space, tab, line feed and carriage return are in it; next line (U+0085), the Mongolian vowel separator (U+180E) and the zero-width space (U+200B) are not |
| `JsStrings.Trim` | pi-extensions/notify.ts:33 | `trim` leaves no whitespace at either end and never lengthens the text |
| `JsStrings.TrimIsMiddle` | pi-extensions/notify.ts:33 | `trim` keeps a contiguous middle of the input unchanged (interior whitespace included) and drops only whitespace before and after it |
| `JsStrings.TrimKeepsContent` | pi-extensions/notify.ts:33 | `trim` removes only whitespace: the other characters survive, in order |
| `JsStrings.TrimEmpty` | pi-extensions/notify.ts:33 | `trim` gives the empty string exactly when the input is all whitespace |
| `JsStrings.TrimSingleSpaced` | pi-extensions/notify.ts:48 | `trim` keeps single-spaced text single-spaced |
| `JsStrings.TrimmedUnchanged` | pi-extensions/notify.ts:48 | text with no whitespace at either end is unchanged by `trim` |
| `JsStrings.CollapseWhitespace` | pi-extensions/notify.ts:48 | after `replace(/\s+/g, " ")`, every whitespace character is a space and no two are adjacent; the result is empty only for empty input and starts with whitespace exactly when the input does |
| `JsStrings.CollapseKeepsContent` | pi-extensions/notify.ts:48 | the replacement changes whitespace only: the other characters survive, in order |
| `JsStrings.CollapseKeepsChar` | pi-extensions/notify.ts:48 | a character that is not whitespace passes through the replacement unchanged |
| `JsStrings.CollapseWord` | pi-extensions/notify.ts:48 | a word (text without whitespace) passes through the replacement unchanged |
| `JsStrings.TrimStartRun` | pi-extensions/notify.ts:48 | a maximal leading whitespace run is dropped as a whole and nothing after it |
| `JsStrings.CollapseRun` | pi-extensions/notify.ts:48 | a maximal whitespace run, of any length and any whitespace characters, becomes exactly one space |
| `JsStrings.CollapseBetweenWords` | pi-extensions/notify.ts:48 | two words around a whitespace run become the two words with one space between them |
| `JsStrings.CollapseFixpoint` | pi-extensions/notify.ts:48 | single-spaced text is unchanged by the replacement |
| `JsStrings.NormalizedFixpoint` | pi-extensions/notify.ts:48 | trimmed, single-spaced text is a fixed point of replace-then-trim |
| `JsStrings.Join` | pi-extensions/notify.ts:37 | joining an empty list gives the empty string; joining one element gives that element |
| `JsStrings.JoinAppend` | pi-extensions/notify.ts:37 | joining `xs + [y]` is joining `xs`, then the separator, then `y`: elements appear in order, separated |
| `JsStrings.JoinAllWhitespace` | pi-extensions/notify.ts:37 | with a whitespace separator, the joined text is blank exactly when every element is blank |
| `Notify.IsTextPart` | pi-extensions/notify.ts:21-22 | a non-object is never a text part; a text part has `type` "text" and a `text` field, as the type guard promises |
| `Notify.TextsOf` | pi-extensions/notify.ts:37 | the filter-and-map yields at most one text per part |
| `Notify.TextsOfAppend` | pi-extensions/notify.ts:37 | the filter-and-map distributes over concatenation, so the texts keep the parts' order |
| `Notify.TextsOfMembers` | pi-extensions/notify.ts:21-37 | a string is among the texts exactly when some part with `type` "text" and a `text` field carries it |
| `Notify.OrNull` | pi-extensions/notify.ts:33-38 | the `or null` fallback: null exactly for the empty string, the string itself otherwise |
| `Notify.ContentText` | pi-extensions/notify.ts:31-41 | one assistant message yields null or a non-empty text with no whitespace at either end |
| `Notify.StringContentText` | pi-extensions/notify.ts:32-34 | string content yields null exactly when it is all whitespace; otherwise all of its non-whitespace text is kept |
| `Notify.JoinedPartsBlank` | pi-extensions/notify.ts:36-38 | array content yields null exactly when the newline-joined texts are blank |
| `Notify.PartsContentText` | pi-extensions/notify.ts:36-38 | array content yields null exactly when every text part's text is blank |
| `Notify.IsAssistant` | pi-extensions/notify.ts:27 | a message without a role is never the assistant's; one that is has the role `assistant` exactly |
| `Notify.LastAssistantText` | pi-extensions/notify.ts:24-45 | the search yields null or a non-empty text with no whitespace at either end |
| `Notify.ExtractLastAssistantText` | pi-extensions/notify.ts:24-45 | the countdown loop returns exactly `LastAssistantText` |
| `Notify.NoAssistantGivesNull` | pi-extensions/notify.ts:25-44 | a transcript without an assistant message yields null |
| `Notify.LastAssistantDecides` | pi-extensions/notify.ts:25-41 | the last assistant message alone decides the result, even when it yields null |
| `Notify.EarlierMessagesIgnored` | pi-extensions/notify.ts:25-42 | prepending messages changes the result only when the original transcript had no assistant message |
| `Notify.UserMessageLastScenario` | pi-extensions/notify.ts:25-29 | a later user message does not hide the assistant message before it |
| `Notify.BlankLastReplyScenario` | pi-extensions/notify.ts:27-34 | a blank last assistant message yields null even though an earlier one has text |
| `Notify.Normalize` | pi-extensions/notify.ts:48 | normalised text has no whitespace at either end, no whitespace but single spaces, and no two whitespace characters in a row |
| `Notify.NormalizeWords` | pi-extensions/notify.ts:48 | two words separated by any non-empty whitespace run normalise to the words with exactly one space between them |
| `Notify.NormalizeContent` | pi-extensions/notify.ts:48-49 | normalising changes whitespace only, and gives the empty string exactly for null or blank text |
| `Notify.Truncate` | pi-extensions/notify.ts:53-54 | the body is at most 200 characters; it is the whole text exactly when the text has at most 200; otherwise it is the first 199 followed by `…` |
| `Notify.TruncateShape` | pi-extensions/notify.ts:53-54 | truncation keeps the body trimmed and single-spaced |
| `Notify.FormatNotification` | pi-extensions/notify.ts:47-56 | the title is the placeholder or `π`; it is the placeholder exactly when the body is empty; the body has at most 200 characters, no whitespace at either end and no whitespace run |
| `Notify.FormatPlaceholder` | pi-extensions/notify.ts:48-51 | the result is `{Ready for input, ""}` exactly for null or all-whitespace text |
| `Notify.FormatFixpoint` | pi-extensions/notify.ts:48-55 | trimmed, single-spaced text of 1 to 200 characters becomes the body unchanged under `π` |
| `Notify.FormatIdempotent` | pi-extensions/notify.ts:47-56 | formatting a produced body again gives back the same notification |
| `Notify.Payload` | pi-extensions/notify.ts:16-18 | the sequence is the prefix `ESC ]777;notify;`, the title, `;`, the body and a final BEL, at exactly those positions |
| `Notify.ParsePayload` | pi-extensions/notify.ts:17 | a terminal's reading of the sequence never yields a title containing `;` or a title or body containing BEL |
| `Notify.PayloadRoundTrip` | pi-extensions/notify.ts:16-18 | a title without `;` or BEL and a body without BEL are read back unchanged |
| `Notify.SeparatorInTitleIsAmbiguous` | pi-extensions/notify.ts:18 | no escaping: `("a;b", "c")` and `("a", "b;c")` produce the same sequence |
| `Notify.BellInBodyEndsSequence` | pi-extensions/notify.ts:18 | no escaping: a BEL inside the body ends the sequence early and the reading fails |
| `Notify.TitlesHaveNoDelimiters` | pi-extensions/notify.ts:50-55 | neither title the plugin produces contains `;` or BEL |
| `Wrappers.Option.GetOr` | pi-extensions/notify.ts:60 | `??`: the value when present, the default when absent |
| `Notify.AgentEndPayload` | pi-extensions/notify.ts:58-63 | whatever the transcript, the handler's output is a framed OSC 777 sequence |
| `Notify.OnAgentEnd` | pi-extensions/notify.ts:59-63 | the handler (extract, format, frame, with an absent message list read as empty) produces exactly `AgentEndPayload` |
| `Notify.AgentEndRoundTrip` | pi-extensions/notify.ts:60-62 | unless the assistant's text holds a BEL, the terminal reads back exactly the formatted notification |
| `Notify.PlaceholderPayload` | pi-extensions/notify.ts:18-51 | the placeholder notification is framed as `ESC ]777;notify;Ready for input;BEL` |
| `Notify.EmptyTranscriptScenario` | pi-extensions/notify.ts:60-62 | an absent or empty transcript gives `ESC ]777;notify;Ready for input;BEL` |
| `Notify.SingleReplyPayload` | pi-extensions/notify.ts:60-62 | a lone assistant reply that is already trimmed, single-spaced and short is written out verbatim under `π` |
| `Notify.SingleReplyScenario` | pi-extensions/notify.ts:60-62 | the reply `Done!` gives `ESC ]777;notify;π;Done!BEL` |
| `Notify.MixedPartsExtracted` | pi-extensions/notify.ts:36-38 | parts text `a`, a tool part and text `b` extract to `"a\nb"` |
| `Notify.MixedPartsFormatted` | pi-extensions/notify.ts:48-55 | `"a\nb"` formats to body `"a b"` under `π` |
| `Notify.MixedPartsScenario` | pi-extensions/notify.ts:36-55 | the mixed-parts transcript extracts `"a\nb"`, whose body is `"a b"` |

## Left out

- Writing to standard output (`process.stdout.write`, line 18) is I/O. The
  model stops at the string that would be written.
- Registering the handler with the host (`pi.on("agent_end", …)`) and the
  `ExtensionAPI` import are a foreign callback API. The `async` wrapper awaits
  nothing. Only the composition inside the handler is modelled.
- JavaScript's runtime type tests are replaced by closed datatypes:
  - Content that is neither a string nor an array, including absent content,
    is `Other`.
  - A role that is absent or not a string is `None`. A `null` or `undefined`
    entry in the message list behaves like such a message.
  - A non-string `type` is `None`.
  - The `text` field is a string or absent. A `text` field holding a number,
    `null` or `undefined` would be stringified by `join`; that is not
    modelled.
- Strings are sequences of Unicode code points. JavaScript counts UTF-16
  code units, so for text outside the Basic Multilingual Plane the 200-limit
  and `slice(0, 199)` are counted differently, and the source's slice can split
  a surrogate pair. The model's `MaxBody` bound is in code points.
- `IsWhitespace` fixes ECMAScript's whitespace set as of the Unicode
  version with space separators U+1680, U+2000–U+200A, U+202F, U+205F and
  U+3000. Later Unicode changes to that category are not tracked.
- `ParsePayload` treats only BEL as the end of the sequence. Terminals also
  accept the string terminator `ESC \`, so a body holding `ESC \` would also
  end the sequence early. That is not modelled.
