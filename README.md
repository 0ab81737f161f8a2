# persona-ai chat core in Dafny

persona-ai is a Next.js chat page. The user picks one of two personas ("Hitesh Sir" or "Piyush Sir") and sends messages. The API route forwards each message to a language model under that persona's system prompt. The page shows the replies with a small inline markdown renderer.

This project models three pieces of that code:

- **The markdown renderer** (`renderContent` in `src/app/page.js`), in modules `JsString`, `Markdown` and `MarkdownExamples`.
  - The text is split on fenced spans. The `split` with a capturing group is modelled as `Markdown.SplitFences`.
  - Each part becomes a code block or a span (`Markdown.RenderPart`).
  - A span's text goes through six global regular-expression replacements (`Markdown.RenderText`).
  - Every regular expression keeps its ECMAScript meaning:
    - the scan runs left to right and matches never overlap;
    - a lazy body is the shortest one that closes;
    - `.` refuses line terminators, while `[\s\S]` and `[^`]` accept them;
    - where no match starts, the scan moves on by one character.
- **The page's state machine** (`message`, `persona`, `loading`, `conversation` in `src/app/page.js`), in module `ChatView`.
  - The state is the class `ChatView.Chat`.
  - The page only ever stores `"hiteshSir"` or `"piyushSir"` as its persona, so the persona is the two-valued datatype `Personas.Persona`, and `Personas.Key` gives the string the page sends.
  - Each handler is a method of that class.
  - `handleChat` is split at its `await` into `BeginSend` and `FinishSend`, so "loading during the call" can be stated.
- **The `POST` handler of the chat route** (`src/app/api/chat/route.js`), in module `ChatRoute`.
  - It is one function from the limiter decision, the parsed body and the completion to three things: the response, whether the body was read, and the exact request sent to the model.
  - Module `ChatFlow` joins the page and the route into one round trip.

The repository also holds a second, richer chat page, `src/app/(main)/chat/page.js`. It expects things that the modelled page and route do not do. The model follows `src/app/page.js` and the route:

- A denied request gets status 429 with body `{ error }` only (`src/app/api/chat/route.js:16`). The other page reads a `resetInSeconds` field from that body (`src/app/(main)/chat/page.js:117`), but the route never sends one.
- The modelled page never looks at the HTTP status. A 429 or 500 reply is still parsed, and its `response` field is appended as the assistant's message. That field is `undefined` (`src/app/page.js:96-100`; `ChatFlow.RefusalShowsUndefined`). The other page checks `res.status === 429` and `!res.ok` instead (`src/app/(main)/chat/page.js:116`, `src/app/(main)/chat/page.js:126`).
- The modelled page keeps nothing in browser storage and has no rate-limit countdown. Its state is exactly the four `useState` hooks at `src/app/page.js:61-64`. The other page saves each persona's conversation in `localStorage` (`src/app/(main)/chat/page.js:64`, `src/app/(main)/chat/page.js:70`, `src/app/(main)/chat/page.js:156`).
- The appended `undefined` is then rendered: the message's content goes to `MarkdownRenderer` (`src/app/page.js:227-230`, `src/app/page.js:57`), and `text.split` at `src/app/page.js:8` throws a `TypeError` on `undefined`. So after a 429 or 500 reply the page's render fails. `Markdown.RenderContent` takes a string, so the model stops at the `undefined` message and does not model the failed render.
- Any persona value other than `"hiteshSir"` selects Piyush's prompt. This includes a missing persona and any unknown string (`src/app/api/chat/route.js:23-24`).

## Model

| member | source | states |
|---|---|---|
| JsString.TrimStart | src/app/page.js:76 | the result is a suffix of the input; everything dropped is white space; the result is empty or starts with a character that is not white space |
| JsString.TrimEnd | src/app/page.js:76 | the result is a prefix of the input; everything dropped is white space; the result is empty or ends with a character that is not white space |
| JsString.TrimIsInfix | src/app/page.js:12 | `trim` keeps one contiguous piece of the text, drops only white space on both sides, and neither end of what it keeps is white space |
| JsString.TrimEmptyIff | src/app/page.js:76 | `!s.trim()` holds exactly when the text is empty or only white space |
| JsString.SliceIndex | src/app/page.js:12 | a negative `slice` index counts from the end; an index past the end becomes the length, and a negative index reaching before the start becomes 0 |
| JsString.SliceInner3 | src/app/page.js:12 | `part.slice(3, -3)` is the inside of the part when the part has at least six characters, and empty otherwise |
| Markdown.LazyClose | src/app/page.js:43-48 | the lazy scan stops at the first closing delimiter and crosses only allowed characters; when it finds none, every later delimiter lies past a line terminator that `.` refuses |
| Markdown.MatchAt | src/app/page.js:34-48 | a match found at the start of the text closes inside the text, after the opening delimiter |
| Markdown.MatchAtIsMatch | src/app/page.js:34-48 | the scan finds exactly the match that the regular expression's meaning describes (opening delimiter, shortest allowed body, closing delimiter), and finds none when no such match exists |
| Markdown.ReplaceAll | src/app/page.js:34-48 | a global replace whose markup is at least as long as the two delimiters never shortens the text |
| Markdown.ReplaceKeepsPrefix | src/app/page.js:34-48 | where no match starts before an index, the text before it is kept as it is, including any delimiter that found no partner: the scan steps over it one character at a time |
| Markdown.ReplaceAtLeftmost | src/app/page.js:34-48 | the leftmost match, wherever it is, is replaced where it stands: the text before it is kept, the body is wrapped in the markup, and the scan resumes right after the closing delimiter |
| Markdown.ReplacePlainPrefix | src/app/page.js:34-48 | text with no delimiter character is kept in front of the replacement of what follows it |
| Markdown.ReplaceSplice | src/app/page.js:34-48 | the special case of `ReplaceAtLeftmost` used by the examples: text with no delimiter character, then a delimiter, a complete body and a delimiter, becomes that text, the wrapped body, and the replacement of the rest |
| Markdown.ReplaceAtMatch | src/app/page.js:34-48 | a match at the very start is replaced by its wrapped body, followed by the replacement of the rest |
| Markdown.ReplaceUnchangedIff | src/app/page.js:34-48 | a replacement leaves the text unchanged exactly when the pattern matches nowhere in it |
| Markdown.LoneDelimiterUnchanged | src/app/page.js:34-48 | a single-character delimiter that occurs at most once has no partner, so the text is kept |
| Markdown.DelimiterAbsentUnchanged | src/app/page.js:43-44 | a pattern whose delimiter never occurs leaves the text as it is |
| Markdown.DelimiterCharAbsentUnchanged | src/app/page.js:34-48 | a pattern whose first delimiter character never occurs leaves the text as it is |
| Markdown.BreakLines | src/app/page.js:51 | after the last pass a span holds no newline; text without newlines is unchanged |
| Markdown.BreakLinesRoundTrip | src/app/page.js:51 | on text without `<`, turning each `<br />` back into a newline restores the text, so each `<br />` stands for exactly one newline |
| Markdown.RenderPart | src/app/page.js:11-53 | a part is a code block exactly when it starts and ends with a fence; a code block carries the `isUser` classes and the trimmed inside of the part (empty for parts shorter than six characters); any other part is a span of the rewritten text, which holds no newline |
| Markdown.SplitFences | src/app/page.js:8 | the split always has an odd number of parts, and the first part is a prefix of the text |
| Markdown.SplitConcat | src/app/page.js:8 | joining the parts gives back the text |
| Markdown.SplitOddParts | src/app/page.js:8 | every odd part is one whole fenced span: a fence, the shortest body (which may cross newlines), a fence |
| Markdown.SplitEvenParts | src/app/page.js:8 | no even part holds a complete fenced span |
| Markdown.SplitWithoutMatch | src/app/page.js:8 | text in which no fenced span starts is one single part |
| Markdown.SplitAtLeftmost | src/app/page.js:8 | the split cuts at the leftmost match: the parts are the text before it, the match, and the split of the rest |
| Markdown.RenderContent | src/app/page.js:6-55 | one fragment per part of the split, in order, each the rendering of its own part |
| Markdown.RenderFencedSpans | src/app/page.js:10-27 | every fenced span renders as a code block holding the trimmed text between its fences, with no rewriting |
| Markdown.RenderBetweenSpans | src/app/page.js:10-12 | a part between fenced spans renders as a code block only when it is three to five characters long, and that code block is empty |
| MarkdownExamples.InlineCodeOpenUnmarked | src/app/page.js:34-40 | the inline-code tag and both class strings hold nothing a later pass rewrites |
| MarkdownExamples.PlainTextUnchanged | src/app/page.js:34-51 | text without a backtick, `*`, `_` or newline renders as itself |
| MarkdownExamples.TooShortUnchanged | src/app/page.js:34-48 | text shorter than two delimiters cannot hold a match |
| MarkdownExamples.InlineCodeRendered | src/app/page.js:34-40 | a backtick pair around non-empty plain text becomes one `<code>` element with the `isUser` classes |
| MarkdownExamples.StrayBacktickUnchanged | src/app/page.js:34-40 | a backtick with no partner is kept as it is |
| MarkdownExamples.BoldRendered | src/app/page.js:43 | a `**` pair around plain text becomes one `<strong>` element |
| MarkdownExamples.FourStarsAreEmptyBold | src/app/page.js:43-47 | bold runs before italic, so `****` becomes `<strong></strong>` |
| MarkdownExamples.ItalicRendered | src/app/page.js:47 | a `*` pair around non-empty plain text becomes one `<em>` element |
| MarkdownExamples.EmphasizeStarPair | src/app/page.js:43-51 | in otherwise plain text, a star pair around plain text becomes one `<em>` element and the rest is kept |
| MarkdownExamples.TwoStarsAreEmptyItalic | src/app/page.js:43-47 | `**` alone is too short for bold and becomes `<em></em>` |
| MarkdownExamples.StrayStarUnchanged | src/app/page.js:43-48 | an unmatched `*`, as in `*oops`, is kept as it is |
| MarkdownExamples.EmphasisInsideInlineCode | src/app/page.js:34-48 | each pass sees the markup of earlier passes: a star pair inside inline code becomes `<em>` inside the `<code>` element |
| MarkdownExamples.BareFenceIsEmptyCodeBlock | src/app/page.js:8-27 | a text of exactly one fence renders as a single empty code block |
| MarkdownExamples.FencedBlockBetweenText | src/app/page.js:8 | text, one fenced block and text split into exactly these three parts, the middle one keeping its fences |
| MarkdownExamples.FencedBlockBetweenTextRendered | src/app/page.js:8-53 | text, one fenced block and text render as a span, a code block holding the trimmed body, and a span |
| ChatRoute.Post | src/app/api/chat/route.js:10-51 | 429 exactly when denied, with the exact error body and before the body is read; the body is read exactly when the limiter allowed; the model is called exactly when the body was read, with the fixed model id and exactly a system message with the selected prompt and a user message with the raw message; 200 exactly when the first choice has a message, whose content is returned unchanged; every other outcome is the 500 failure reply |
| ChatRoute.PersonaPromptChoice | src/app/api/chat/route.js:23-24 | with distinct prompts: Hitesh's prompt exactly for `"hiteshSir"`, Piyush's for every other value, a missing one included |
| ChatRoute.PostStatuses | src/app/api/chat/route.js:10-51 | the status is always 200, 429 or 500 |
| Personas.Key | src/app/page.js:136-139 | the two personas have the two distinct keys `"hiteshSir"` and `"piyushSir"` |
| ChatView.AssistantMessage | src/app/page.js:96-106 | the assistant message holds the parsed `response` field as it is, or `"ERROR: "` followed by the exception's message |
| ChatView.ToggleAlternates | src/app/page.js:136-139 | the toggle always moves to the other persona, toggling twice restores the original, and on keys it maps `"hiteshSir"` to `"piyushSir"` and the other back |
| ChatView.Chat.constructor | src/app/page.js:61-64 | an empty draft, persona `"hiteshSir"`, not loading, an empty conversation |
| ChatView.Chat.EditDraft | src/app/page.js:308-309 | typing replaces the draft and nothing else |
| ChatView.Chat.BeginSend | src/app/page.js:76-94 | a blank draft changes nothing and sends nothing; otherwise loading is on, the draft is appended as a user message and cleared, and the request carries the draft and persona as they were |
| ChatView.Chat.FinishSend | src/app/page.js:96-109 | exactly one assistant message is appended, earlier messages are kept, and loading is off |
| ChatView.Chat.HandleChat | src/app/page.js:75-110 | a blank draft changes nothing; otherwise the conversation is the old one, then the user message, then exactly one assistant message; the draft is cleared and loading ends |
| ChatView.Chat.HandleKeyPress | src/app/page.js:112-117 | Enter without Shift is taken over and sends the draft; any other key changes nothing |
| ChatView.Chat.ClearConversation | src/app/page.js:119-121 | the conversation becomes empty and nothing else changes |
| ChatView.Chat.TogglePersona | src/app/page.js:136-139 | the persona becomes the other one; the draft, loading flag and conversation are untouched |
| ChatFlow.RouteBody | src/app/page.js:93 | the route reads back the draft as `message` and the persona as `persona` |
| ChatFlow.Receive | src/app/page.js:96-99 | the page takes a reply body's `response`; an error body has no such field, so it yields `undefined` |
| ChatFlow.Exchange | src/app/page.js:75-110 | one send: the route answers exactly the draft and persona the page had, and the conversation gains the user's message and the assistant message built from that answer |
| ChatFlow.AnswerShown | src/app/api/chat/route.js:40-42 | an answered request shows the model's first choice, unchanged, as the assistant's message |
| ChatFlow.RefusalShowsUndefined | src/app/page.js:96-100 | a status other than 200 shows an assistant message with content `undefined`; a 200 shows the model's answer |
| ChatFlow.PersonaReachesModel | src/app/api/chat/route.js:23-38 | the page's persona picks the system prompt the route sends, and the user turn is the draft as typed, untrimmed |

## Left out

- The rate limiter (`src/lib/arcjet.js` and `@arcjet/next`): its counting is not shown, so its decision is an input (`Allowed`, `Denied`, or a throw).
- `request.json()`, `fetch`, `res.json()` and the model provider's client are I/O. Their outcomes are inputs: a body or a throw, a completion or a throw, a parsed reply or an exception message. `ChatFlow` assumes that the network does not fail, so `fetch` reaches the route and `res.json()` parses the JSON the route always answers. A rejected `fetch` is the `Threw` reply of `ChatView`, which `ChatView.Chat.FinishSend` and `ChatView.AssistantMessage` cover.
- The personas' system prompts live in `src/lib/personas`, which is not part of this model. They are two strings passed as parameters.
- JSON values: a field is a string, `null`, `undefined` or some other value. The model never looks inside the other values.
- The page is rendered by React, and this model leaves that part out:
  - state updates are applied at once, not batched;
  - the disabled text area and send button (`src/app/page.js:314`, `src/app/page.js:324`) are not modelled;
  - scrolling, JSX layout and CSS are not modelled;
  - how the browser interprets the HTML a span carries is not modelled;
  - rendering `undefined` content is not modelled (it throws, as described above).
- ChatView.Chat.HandleChat: treats the call as atomic. A persona switch, clear or second send while a request is in flight is not modelled. `BeginSend` and `FinishSend` can still be composed with other methods between them.
- Characters are Unicode scalar values, not UTF-16 code units. Every character the renderer compares with lies in the Basic Multilingual Plane.
- `src/app/(main)/chat/page.js` is a separate, richer chat page and is not part of this model. It stores conversations per persona, counts down after a 429 (from `resetInSeconds || 60`, lines 116-121), throws on `!res.ok` (line 126), and clears the draft when the persona changes (lines 146-149). It is cited above only to show where it differs from the modelled page.
