# Offline chat shell: message rendering, composer and conversation

This project models and proves properties of three pieces of a React Native chat app.

- **The assistant-message renderer**, `renderMarkdownText` in `components/MessageBubble.tsx`.
  - It cuts the message with one `String.prototype.split` on a capturing, global, multiline
    regular expression with six alternatives: bold, inline code, fenced block, heading line,
    numbered line and bullet line.
  - Each part is then classified by a chain of tests (heading, bold, code block, inline code,
    bullet, numbered, plain, nothing). The first test that passes wins, and its delimiters
    are stripped.
  - User messages are shown verbatim.
- **The composer**, `ChatInput` in `components/ChatInput.tsx`.
  - The guard chain of `handleSend`: empty, then too long, then send trimmed.
  - The recording toggle.
  - The values derived on every render: the character counter, the near-limit warning,
    `canSend`, and the choice between the microphone and the send button.
- **The conversation screen**, `app/chat.tsx`.
  - The message list, the draft and the loading flag.
  - `sendMessage`, split at its `await` into sending, receiving and failing.
  - `clearChat`, the canned reply of `generateAIResponse`, and the send button's `disabled`.

Modules:

- `Wrappers`: `Option`.
- `JsString`: the ECMAScript character classes `\s`, `\d`, `\w` and `.`, and `trim()`.
- `MarkdownSplit`: the split.
- `MarkdownClassify`: the per-part classifier.
- `MessageBubble`: the whole renderer and what it yields for the parts of a split.
- `ChatInput`: a function for the send guard, and a class `ChatInputBox` for the composer's
  state.
- `ChatScreen`: a class `ChatScreen` for the screen's state, and the reply generator.

The split follows the `RegExp.prototype[@@split]` algorithm of ECMA-262:

- Positions are tried from left to right.
- At each position the alternatives are tried in written order, and a lazy `*?` takes the
  shortest run.
- On a match, the text before it and then the capture are emitted, and scanning resumes
  after the match.

`SplitFrom` is that loop over any sticky matcher. `Split` runs it with the pattern's matcher
`Ends`.

Main results:

- **The split is characterized** (`SplitCharacterized`). It is the unique sequence of pieces
  of two kinds, alternating:
  - plain text, inside which no match starts;
  - the match found where that text ends.

  The pieces concatenate back to the text, and captures are non-empty (`SplitReassembles`).
- **The fence alternative never wins** (`FenceNeverMatches`). Wherever ```` ``` ```` could
  start, the inline-code alternative, tried earlier, already matches the first two backticks
  (`ThreeBackticks`).
- **Plain-text pieces are never headings, bold or code** (`GapRendering`). They render as
  nothing or as plain text. They can become list items only when the piece directly follows
  a bold or inline-code capture. That is because the classifier's `^` is tested against the
  part, not the line.
- **Each classifier branch is pinned down**, as an "if and only if" where the code gives one:
  - the heading level and style;
  - bold text loses exactly the `**` pairs: every other character stays in order, and a
    run of n stars keeps n % 2;
  - inline code loses exactly its backticks, and everything else stays in order;
  - fences go as the `replace` scans left to right. A fence found first takes the word
    characters after it as its tag, and one newline after them. A newline directly before a
    fence goes with that fence, and nothing after the fence is taken as a tag: in `-`,
    newline, ```` ```code``` ````, the word `code` stays as text (`NewlineFenceInBullet`).
    Every other character is kept, and text with no three backticks in a row is left as it
    is;
  - list text;
  - nothing exactly for blank parts.
- **The composer never hands on a blank, untrimmed or over-long text.** Each call's outcome
  is the pure `SendDecision`. Because the field caps the draft at `maxLength`, the
  "Message Too Long" branch cannot be reached from the UI.
- **The conversation always starts with an assistant message, and every user message is
  trimmed and non-empty.** Each operation states its whole new state.

Every part of the app that is not listed here is outside the model.

## Model

| member | source | states |
|---|---|---|
| JsString.Trim | components/ChatInput.tsx:26 | `trim()` is empty exactly for blank strings (full ECMAScript white-space set); otherwise it begins and ends with a non-white-space character |
| JsString.TrimIsMiddle | components/ChatInput.tsx:26 | the trimmed string is the part of the original between a blank prefix and a blank suffix |
| JsString.TrimIdempotent | app/chat.tsx:54 | trimming an already trimmed text changes nothing |
| JsString.SkipBlankSkipsBlank | components/ChatInput.tsx:26 | the leading cut of `trim` passes only white space |
| JsString.BackBlankSkipsBlank | components/ChatInput.tsx:26 | the trailing cut of `trim` passes only white space |
| JsString.NextLineEnd | components/MessageBubble.tsx:26 | a lazy `.*?$` under the `m` flag ends at the end of the text or at a line terminator |
| JsString.NextLineEndIsFirst | components/MessageBubble.tsx:26 | no line terminator lies before that end, so it is the shortest run |
| JsString.DigitRunAllDigits | components/MessageBubble.tsx:26 | what a greedy `\d+` consumes is all digits, and it stops before a non-digit |
| JsString.WordRunOfWord | components/MessageBubble.tsx:59 | a greedy `\w*` consumes exactly a run of word characters that is followed by something else |
| JsString.RemoveChar | components/MessageBubble.tsx:69 | `replace(/`/g, '')` leaves no backtick, never lengthens, and changes nothing when there is no backtick |
| JsString.RemoveCharCounts | components/MessageBubble.tsx:69 | every character other than the deleted one occurs as often as before |
| JsString.RemoveCharAppend | components/MessageBubble.tsx:69 | deleting from a concatenation deletes from each half, so the kept characters keep their order |
| MarkdownSplit.CloseFrom | components/MessageBubble.tsx:26 | a lazy search for the closing delimiter ends after the delimiter and within the text |
| MarkdownSplit.CloseFromFound | components/MessageBubble.tsx:26 | the delimiter lies right before where the lazy search ends |
| MarkdownSplit.CloseFromIsFirst | components/MessageBubble.tsx:26 | the delimiter found is the first one after the opening |
| MarkdownSplit.CloseFromLineFree | components/MessageBubble.tsx:26 | with `.` (not `[\s\S]`), no line terminator lies between opening and closing delimiter |
| MarkdownSplit.CloseFromReaches | components/MessageBubble.tsx:26 | with `[\s\S]*?` the search succeeds whenever the delimiter occurs later |
| MarkdownSplit.CloseFromFailsOnlyIfAbsent | components/MessageBubble.tsx:26 | the search fails only when every later delimiter lies beyond a line terminator (never for `[\s\S]*?`) |
| MarkdownSplit.TryAt | components/MessageBubble.tsx:26 | a match of any one alternative is non-empty and within the text |
| MarkdownSplit.FirstMatchSound | components/MessageBubble.tsx:26 | the match found at a position belongs to one of the alternatives; none is found only when no alternative matches |
| MarkdownSplit.FirstMatchIsFirst | components/MessageBubble.tsx:26 | alternative i is chosen exactly when it matches and no earlier one does |
| MarkdownSplit.MatchAt | components/MessageBubble.tsx:26 | the whole pattern tried at a position: a match there is non-empty and ends within the text |
| MarkdownSplit.MatchAtWrittenOrder | components/MessageBubble.tsx:26 | at each position the pattern's alternatives are tried in the order written |
| MarkdownSplit.EndsMatcher | components/MessageBubble.tsx:26 | the pattern's match at every position ends after it and within the text |
| MarkdownSplit.SplitFrom | components/MessageBubble.tsx:25-27 | the split loop yields an odd number of pieces: plain text and captures alternate |
| MarkdownSplit.Split | components/MessageBubble.tsx:25-27 | `text.split(pattern)` has an odd number of parts (the empty text splits into `[""]`); SplitCharacterized and SplitReassembles say which |
| MarkdownSplit.SplitFromScans | components/MessageBubble.tsx:25-27 | the split loop's output fits the declarative description of a split |
| MarkdownSplit.ScansUnique | components/MessageBubble.tsx:25-27 | at most one sequence of pieces fits that description |
| MarkdownSplit.SplitCharacterized | components/MessageBubble.tsx:25-27 | a sequence of pieces fits the description exactly when it is the split |
| MarkdownSplit.ScansPiece | components/MessageBubble.tsx:25-27 | where each piece lies in the text: a plain piece holds no match start and begins where the previous capture ends; a capture is the match at its start |
| MarkdownSplit.ScansReassemble | components/MessageBubble.tsx:25-27 | the pieces of a split reassemble the text |
| MarkdownSplit.SplitReassembles | components/MessageBubble.tsx:25-27 | concatenating the parts gives back the message, and every captured part is non-empty |
| MarkdownSplit.FenceShadowed | components/MessageBubble.tsx:26 | wherever a fence could start, the inline-code alternative matches two backticks |
| MarkdownSplit.FenceNeverMatches | components/MessageBubble.tsx:26 | the fenced-block alternative is never the one that matches |
| MarkdownClassify.HeadingPrefix | components/MessageBubble.tsx:31 | `/^#{1,3}\s/` consumes 1..3 hashes and lies within the part |
| MarkdownClassify.LeadingHashesAreHashes | components/MessageBubble.tsx:32 | the leading run counted for the level is all `#` |
| MarkdownClassify.LevelOf | components/MessageBubble.tsx:32 | the level is 1, 2 or 3, and it is the number of leading hashes when there are one to three |
| MarkdownClassify.HeaderClass | components/MessageBubble.tsx:34-39 | `text-xl font-bold` exactly for level 1, `text-lg font-semibold` exactly for level 2, `text-base font-medium` for every other level |
| MarkdownClassify.HeadingPrefixIff | components/MessageBubble.tsx:31-33 | the heading test passes exactly when 1..3 leading hashes are followed by white space, and it consumes all of them |
| MarkdownClassify.HeadingIff | components/MessageBubble.tsx:31-45 | a part is a heading exactly when it starts with 1..3 `#` and white space; the level is that count, and the text is the rest after one white-space character |
| MarkdownClassify.ClassifyHeadingBranch | components/MessageBubble.tsx:31-45 | only the first test produces a heading, with the level from the second match |
| MarkdownClassify.NoHeadingBeyondThree | components/MessageBubble.tsx:31 | four or more leading hashes never make a heading |
| MarkdownClassify.HeadingStyle | components/MessageBubble.tsx:34-39 | level 1, 2 and 3 headings get the xl/bold, lg/semibold and base/medium styles, each exactly for its own prefix |
| MarkdownClassify.FindsIff | components/MessageBubble.tsx:48 | an unflagged `match` succeeds exactly when the alternative matches at some position |
| MarkdownClassify.MatchStartsMarked | components/MessageBubble.tsx:26 | every alternative's match begins with `*`, a backtick, `#`, `-` or a digit, never with white space |
| MarkdownClassify.NoFindsInBlank | components/MessageBubble.tsx:48 | no span search succeeds on a blank part |
| MarkdownClassify.NoFindsUnmarked | components/MessageBubble.tsx:48 | no span search succeeds on a part without marker characters |
| MarkdownClassify.RemoveDoubleStar | components/MessageBubble.tsx:49 | `replace(/\*\*/g, '')` never lengthens the part |
| MarkdownClassify.RemoveDoubleStarRun | components/MessageBubble.tsx:49 | a run of n stars becomes n % 2 stars (`***` becomes `*`) |
| MarkdownClassify.RemoveDoubleStarAround | components/MessageBubble.tsx:49 | a character other than a star is kept, and the text on each side of it is processed on its own |
| MarkdownClassify.RemoveDoubleStarKeepsOthers | components/MessageBubble.tsx:49 | with the stars left out, the result equals the part: nothing else is removed or moved |
| MarkdownClassify.RemoveDoubleStarLeavesNone | components/MessageBubble.tsx:49 | after `replace(/\*\*/g, '')` no two stars are adjacent |
| MarkdownClassify.RemoveDoubleStarIdentity | components/MessageBubble.tsx:49 | a part with no `**` is left unchanged |
| MarkdownClassify.RemoveDoubleStarIdempotent | components/MessageBubble.tsx:49 | removing `**` twice is removing it once |
| MarkdownClassify.StripFences | components/MessageBubble.tsx:59 | the fence-stripping `replace` never lengthens the part. What the scan does at the part's start is fixed for every part: a fence followed by a newline or by anything else (StripOpeningFence, StripBareOpeningFence), a newline then a fence (StripNewlineFence), any other character (StripFencesKeepsHead), the empty part (StripFencesIdentity) |
| MarkdownClassify.StripFencesKeepsHead | components/MessageBubble.tsx:59 | where neither a fence nor a newline then a fence starts, the first character is kept, a lone backtick or newline included, and the rest is processed on its own |
| MarkdownClassify.StripFencesKeepsChar | components/MessageBubble.tsx:59 | a character other than a backtick or a newline is kept, and the rest is processed on its own |
| MarkdownClassify.StripNewlineFence | components/MessageBubble.tsx:59 | a newline directly followed by a fence is removed with it, whatever follows, and what follows is not taken as a tag |
| MarkdownClassify.StripNextLineFence | components/MessageBubble.tsx:59 | a character, a newline and a fenced word give back the character and the word |
| MarkdownClassify.StripFencesIdentity | components/MessageBubble.tsx:59 | a part holding no three backticks in a row is left unchanged |
| MarkdownClassify.StripBareOpeningFence | components/MessageBubble.tsx:59 | an opening fence not followed by a newline loses itself and the word characters after it, nothing else |
| MarkdownClassify.StripBareClosingFence | components/MessageBubble.tsx:59 | a closing fence right after a fence-free body that ends in neither a newline nor a backtick is removed, and only it |
| MarkdownClassify.StripInlineFence | components/MessageBubble.tsx:59 | a one-line fenced word after text with no backtick or newline strips to that text |
| MarkdownClassify.StripFencedBlock | components/MessageBubble.tsx:59 | a fenced block with a word tag and a body holding no three backticks in a row loses fences, tag and the adjacent newlines, leaving exactly its body |
| MarkdownClassify.StripOpeningFence | components/MessageBubble.tsx:59 | an opening fence, its tag and one newline are removed together |
| MarkdownClassify.StripClosingFence | components/MessageBubble.tsx:59 | after a body holding no three backticks in a row, a closing fence and the newline before it are removed, nothing else |
| MarkdownClassify.BulletPrefix | components/MessageBubble.tsx:80 | `/^[-*]\s/` on a part passes exactly when the split's bullet-line alternative matches at the part's start |
| MarkdownClassify.NumberedPrefix | components/MessageBubble.tsx:91 | `/^\d+\.\s/` on a part passes exactly when the split's numbered-line alternative matches at the part's start |
| MarkdownClassify.Classify | components/MessageBubble.tsx:29-108 | a part becomes nothing only when it trims to empty |
| MarkdownClassify.ClassifyNoneIffBlank | components/MessageBubble.tsx:100-108 | a part renders as `null` exactly when it is empty or blank |
| MarkdownClassify.ClassifyUnclaimed | components/MessageBubble.tsx:79-108 | a part with no heading prefix and no span falls to bullet, numbered, plain or nothing, in that order |
| MarkdownClassify.BoldText | components/MessageBubble.tsx:47-55 | bold text is the part with every `**` removed; it holds no `**`, and apart from stars it equals the part |
| MarkdownClassify.InlineCodeText | components/MessageBubble.tsx:67-77 | inline-code text is the part without its backticks: shorter, free of backticks, every other character as often as before (and in order, by RemoveCharAppend) |
| MarkdownClassify.RemoveCharDrops | components/MessageBubble.tsx:69 | deleting a character that occurs shortens the string |
| MarkdownClassify.ListText | components/MessageBubble.tsx:79-97 | a bullet item drops exactly its marker and one white-space character; a numbered item starts with a digit and keeps the whole part |
| MarkdownClassify.PlainWhenUnmarked | components/MessageBubble.tsx:99-108 | a part without marker characters is plain text, untrimmed, or nothing when blank |
| MarkdownClassify.BoldBeforeBullet | components/MessageBubble.tsx:47-88 | bold takes precedence over the list marker: `- **b**` renders as bold `- b` |
| MessageBubble.ClassifyAll | components/MessageBubble.tsx:29 | `parts.map` classifies every part, in order, one to one |
| MessageBubble.RenderMarkdown | components/MessageBubble.tsx:23-110 | one entry per part of the split, and an entry is `null` only for a blank part |
| MessageBubble.BubbleBody | components/MessageBubble.tsx:144-148 | user messages are shown verbatim; the assistant's are rendered, entry i being the classification of part i of the split |
| MessageBubble.CloseFromInside | components/MessageBubble.tsx:26 | a lazy search that succeeds inside a piece succeeds at the same place in the whole text |
| MessageBubble.SpanInside | components/MessageBubble.tsx:48 | a bold, inline-code or fenced span found in a part is a match of the same alternative in the message |
| MessageBubble.HeadingInside | components/MessageBubble.tsx:31 | a part's heading prefix is a heading-line match in the message |
| MessageBubble.ListInside | components/MessageBubble.tsx:80 | a part's bullet or number prefix at the start of a line is a list-line match in the message |
| MessageBubble.NoSpanInGap | components/MessageBubble.tsx:48 | no span search succeeds inside a plain piece of the split |
| MessageBubble.GapUnclaimed | components/MessageBubble.tsx:29-77 | a plain piece is never a heading, bold, code block or inline code |
| MessageBubble.GapAtLineStart | components/MessageBubble.tsx:79-97 | a plain piece that begins a line is not a list item |
| MessageBubble.PreviousCaptureEnd | components/MessageBubble.tsx:26 | a capture directly followed mid-line by a list marker ends with `*` or a backtick |
| MessageBubble.SpanLastChar | components/MessageBubble.tsx:26 | bold spans end with `*`, inline-code and fenced spans with a backtick |
| MessageBubble.LineAlternativesEnd | components/MessageBubble.tsx:26 | the line alternatives end at the end of the text or before a line terminator |
| MessageBubble.GapFacts | components/MessageBubble.tsx:25-97 | what the split guarantees of a plain piece before it is classified |
| MessageBubble.GapRendering | components/MessageBubble.tsx:25-108 | a plain piece renders as nothing, as itself, or as a list item only directly after a capture ending in `*` or a backtick |
| MessageBubble.CapturesRender | components/MessageBubble.tsx:25-108 | every captured part renders as an element, never `null` |
| MessageBubble.UnmarkedIsPlain | components/MessageBubble.tsx:25-108 | a message with no marker character is one part, rendered as plain text or nothing |
| MessageBubble.FenceInListLine | components/MessageBubble.tsx:57-65 | a list line holding a one-line fenced word is a code block whose text is only the marker and its space |
| MessageBubble.FenceInBullet | components/MessageBubble.tsx:57-65 | `- ```code```` is classified as a code block holding `- ` |
| MessageBubble.NewlineFenceInListLine | components/MessageBubble.tsx:57-65 | a `-` marker followed by a newline and a fenced word is a code block holding the marker and the word |
| MessageBubble.NewlineFenceIsOneBullet | components/MessageBubble.tsx:26 | the bullet alternative's white space takes the newline, so `-`, newline, ```` ```code``` ```` is one capture to the end of the text |
| MessageBubble.NewlineFenceInBullet | components/MessageBubble.tsx:57-65 | `-`, newline, ```` ```code``` ```` is classified as a code block holding `-code` |
| MessageBubble.ThreeBackticks | components/MessageBubble.tsx:25-77 | ```` ``` ```` splits into `""`, an inline-code capture of two backticks and a lone backtick, rendered as nothing, empty inline code and plain text |
| ChatInput.SendDecision | components/ChatInput.tsx:25-41 | empty alert exactly for blank drafts; too-long alert exactly when the trimmed draft exceeds the limit; otherwise the trimmed, non-empty text within the limit is sent |
| ChatInput.IsNearLimit | components/ChatInput.tsx:72 | near the limit means 5·count > 4·maxLength |
| ChatInput.CounterIsDestructive | components/ChatInput.tsx:78-84 | a destructive counter is always a visible one |
| ChatInput.CanSend | components/ChatInput.tsx:73 | sending is enabled exactly for a non-blank draft, an enabled composer and a draft within the limit |
| ChatInput.ShowsMicButton | components/ChatInput.tsx:136 | the microphone replaces the send button exactly while the draft is blank |
| ChatInput.CanSendSends | components/ChatInput.tsx:73 | whenever the send button is enabled, pressing it sends the trimmed draft |
| ChatInput.ButtonStricterThanHandler | components/ChatInput.tsx:33-73 | the button measures the untrimmed draft, the handler the trimmed one: `"a "` with limit 1 is sendable by the handler but the button is off |
| ChatInput.MicMeansEmpty | components/ChatInput.tsx:28-136 | the microphone is shown exactly when sending would be refused as empty |
| ChatInput.ChatInputBox.constructor | components/ChatInput.tsx:15-22 | with the parent's props: an empty draft, not recording, nothing sent |
| ChatInput.ChatInputBox.Default | components/ChatInput.tsx:15-22 | without props: `disabled` is false and `maxLength` is 2000, with an empty draft, not recording, nothing sent |
| ChatInput.ChatInputBox.SetDisabled | components/ChatInput.tsx:17 | the parent passes a new `disabled`; draft, recording flag and what was sent stay, and the invariant holds |
| ChatInput.ChatInputBox.ChangeText | components/ChatInput.tsx:108-113 | the draft follows the field, which ignores input when disabled and cuts it at maxLength |
| ChatInput.ChatInputBox.HandleSend | components/ChatInput.tsx:25-41 | the outcome is SendDecision of the draft; on sending, exactly the trimmed text is appended to what was handed on and the draft is cleared; otherwise nothing changes; never "too long" |
| ChatInput.ChatInputBox.HandleVoiceInput | components/ChatInput.tsx:43-55 | the recording flag flips, the alert says which way it went, and nothing else changes |
| ChatInput.DraftWithinLimit | components/ChatInput.tsx:73-113 | with the field's cap the counter is never destructive, and the button is enabled exactly for a non-blank draft in an enabled composer |
| ChatInput.ToggleTwice | components/ChatInput.tsx:43-55 | two presses restore the flag and announce a start and a stop |
| ChatInput.PressEnabledSend | components/ChatInput.tsx:73-152 | pressing the enabled button hands on the trimmed draft and clears it |
| ChatScreen.Excerpt | app/chat.tsx:45 | `slice(0, 30)` is a prefix of the message, of length min(30, length) |
| ChatScreen.MockResponse | app/chat.tsx:30-47 | the reply starts with the chosen opening and ends with `...")` |
| ChatScreen.MockResponseShape | app/chat.tsx:35-46 | the reply is the chosen opening, then ` (Responding to: "`, then exactly the first 30 characters (the whole message when shorter), then `...")` |
| ChatScreen.MockResponseSeesOnlyExcerpt | app/chat.tsx:44-45 | two messages sharing their first 30 characters get the same reply for the same pick |
| ChatScreen.SendButtonDisabled | app/chat.tsx:164 | the send button is disabled exactly when the draft is blank or a reply is pending |
| ChatScreen.ChatScreen.constructor | app/chat.tsx:17-26 | the greeting alone (id 1, not the user's), an empty draft, nothing pending |
| ChatScreen.ChatScreen.ChangeText | app/chat.tsx:158-162 | the draft follows the field, which ignores input while loading and holds at most 10000 characters |
| ChatScreen.ChatScreen.Send | app/chat.tsx:49-61 | a blank draft changes nothing; otherwise the trimmed draft is appended as the user's message, the draft is cleared and a reply is pending |
| ChatScreen.ChatScreen.Receive | app/chat.tsx:69-82 | the reply is appended as an assistant message with id now+1, and loading ends |
| ChatScreen.ChatScreen.Fail | app/chat.tsx:79-82 | on failure no message is added, an alert is shown, loading ends, and the invariant holds |
| ChatScreen.ChatScreen.ClearChat | app/chat.tsx:89-106 | confirming replaces the list with the single "Chat cleared!" greeting (id 1); cancelling changes nothing |
| ChatScreen.SendMessage | app/chat.tsx:49-87 | a successful exchange appends the user's trimmed message and then the canned reply to it, clears the draft and ends loading |

## Left out

- I/O and side effects become parameters or outcome tags:
  - the clipboard copy and its 2-second `copied` timer;
  - `formatTime` and `toLocaleTimeString`;
  - the scroll timeouts and `inputRef.blur()`;
  - the one-second delay in `generateAIResponse`;
  - alert dialogs, which become tags; `clearChat`'s confirmation becomes a boolean.
- `Date.now()` and `new Date()` are `nat` clock readings passed in. Message ids are those
  numbers, not their decimal strings.
- `Math.random()` is an index `pick < 5` passed in.
- Only the heading's style strings are modelled. The remaining class names, layout, icons,
  the "Thinking..." and "Recording..." indicators and the loading dots are presentation.
- `handleAttachment` and `handleEmojiPicker` only show alerts and log to the console.
- Strings are sequences of Unicode characters. JavaScript's UTF-16 code units are not
  modelled, so `length`, `slice(0, 30)` and the 10000/2000 caps count characters. A
  surrogate pair counts as one, not two.
- JsString.IsWhiteSpace: the space separators are listed from the Unicode version current
  when this model was written. The code relies on ECMAScript's `\s` and `trim()`, which
  include the non-ASCII spaces; a plain ASCII reading of "white space" would exclude them.
  The model follows the code.
- ChatInput.IsNearLimit: `maxLength * 0.8` is taken as an exact real. Floating-point
  rounding could differ only when maxLength · 0.8 falls within rounding error of an integer,
  so the model has no entry for that case.
- ChatInput.ChatInputBox.constructor: `maxLength` is fixed when the composer is made. The
  parent could pass a new one; the model does not follow that, since a smaller limit would
  leave a draft longer than it.
- MarkdownSplit.Split: the split's limit argument (2^32 − 1 by default) is not modelled. No
  message reaches it.
- ChatInput.ChatInputBox.ChangeText and ChatScreen.ChatScreen.ChangeText: how the native
  field handles `maxLength` and `editable` is taken to be a cut at the limit and ignoring
  input. Pasting behaviour per platform is not modelled.
- ChatScreen.ChatScreen.Send: the function `sendMessage` does not check `isLoading`; only
  the button does. The model keeps that, so the method does not require the flag off.
- Concurrency: the React state updates of one `sendMessage` run are applied in program
  order. Interleavings with a second send or a clear during the `await` are not modelled.
- Fenced code blocks: the classifier's code-block branch is modelled. The split, however,
  never captures a fenced block (FenceNeverMatches). A code block appears only inside a
  numbered or bullet line, where the fence test runs on the captured line. When the fence
  sits on the marker's line, the word after the opening fence is taken as its tag:
  `- ```code```` renders as a code block holding only `- ` (FenceInBullet). When the
  marker's white space is a newline, the capture runs on into the next line. The newline
  then goes with the fence, and the word stays: `-`, newline, ```` ```code``` ```` is one
  bullet capture (NewlineFenceIsOneBullet), rendered as a code block holding `-code`
  (NewlineFenceInBullet).
