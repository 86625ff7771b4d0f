# hoadocs core, modelled in Dafny

hoadocs is a web app for HOA (homeowners' association) documents. A user uploads a PDF together with some facts about the association. A server action has a language model transcribe the PDF one page at a time. The user can then search the transcript and chat about the document with a second model.

This project models the parts of that app that hold logic of their own:

- **Transcript search** (`TranscriptSearch`, `Text`).
  - The query is escaped so that the regular expression built from it matches the query literally.
  - The transcript is searched case-insensitively and split into alternating non-match and match parts.
  - The render loop numbers the matches left to right and gives exactly one of them the active style.
  - The effect beside it publishes the match count.
- **Search navigation** (`SearchNavigation.SearchSession`).
  - State: the committed query, the typed text, the match count and the current match.
  - Operations: Find, Clear, and the wrapping previous/next buttons with their "k of n" display.
- **The HOA information form** (`HoaForm.HoaInfoDialog`).
  - The field setters, including the document-type change that clears the custom name.
  - The validator, which records one error per failing rule.
  - The payload handed to `onSubmit`. As written, the payload's `state` is the raw city input, not the selected state. The model keeps this behaviour, and `HoaForm.StateTakenFromCity` shows it on a concrete Texas form.
- **The document actions** (`PdfActions`, `Messages`).
  - The one-page chunk plan.
  - The transcript accumulation loop, which writes `"\n-\n"` before each chunk's text.
  - The early return on a missing storage URL.
  - The chat message list, with a system turn that carries the transcript.
- **The chat panel** (`ChatView.ChatSession`). Its send handler appends the user turn and then, for a truthy reply, the assistant turn. The loading flag is cleared however the call ends.

Strings are `seq<char>`. Lower-casing covers the ASCII letters only. `trim` strips the ECMAScript white-space and line-terminator characters. The PDF library, the language-model APIs and the storage URL lookup are parameters of the model.

The escaped query becomes a regular expression. Only one kind of pattern is modelled: one that denotes a literal. `TranscriptSearch.Literal` decodes such a pattern back to the text it matches. The round trip `Literal(Escape(q)) == Some(q)` justifies searching for `q` itself. That search:

- is case-insensitive;
- finds the leftmost match first;
- moves past each match, or by one character after an empty match.

This is what `String.prototype.match` with the `g` flag does. The split follows the ECMAScript `RegExp.prototype[@@split]` algorithm with one capture group. An empty match at the segment start is skipped.

## Model

| member | source | states |
|---|---|---|
| TranscriptSearch.Escape | app/components/Transcript.tsx:22-25 | The escaped pattern is at least as long as the query and at most twice as long. It is empty exactly when the query is. |
| TranscriptSearch.EscapeIsLiteral | app/components/Transcript.tsx:22-25 | The escaped query is a pure literal pattern that matches exactly the query. |
| TranscriptSearch.LiteralPatternIsEscape | app/components/Transcript.tsx:22-25 | Among patterns made of ordinary characters and backslash-escaped metacharacters (the ones `Literal` decodes), `Escape(q)` is the only one that decodes to `q`: every metacharacter gets a backslash and nothing else does. Other JavaScript spellings of a literal, such as `\-` or a bare `]` without the `u` flag, are outside that set. |
| TranscriptSearch.EscapeExample | app/components/Transcript.tsx:23 | `3.5` escapes to `3\.5`. |
| TranscriptSearch.Literal | app/components/Transcript.tsx:22-25 | Decodes a pattern of ordinary characters and backslash-escaped metacharacters to the text it matches; any other pattern is not decoded. |
| TranscriptSearch.MatchesAt | app/components/Transcript.tsx:38 | The query occurs at a position when each character equals the query's after ASCII upper-casing, as the `i` flag compares. |
| TranscriptSearch.MatchPositionsFrom | app/components/Transcript.tsx:38 | The start of each match the global search finds: leftmost first, moving past a match, or one character on after an empty one. |
| TranscriptSearch.CountMatches | app/components/Transcript.tsx:38-39 | The number of matches the global search finds, 0 when there are none. |
| TranscriptSearch.SplitFrom | app/components/Transcript.tsx:28 | The @@split loop: cuts out each match with its captured text, skipping an empty match at the segment start. |
| TranscriptSearch.Split | app/components/Transcript.tsx:28 | `split` of the transcript, with the empty-transcript case of @@split. |
| TranscriptSearch.IsMatchPart | app/components/Transcript.tsx:62 | The render loop's test: the part equals the query after lower-casing both. |
| TranscriptSearch.MatchPartsIn | app/components/Transcript.tsx:62-66 | How many parts the render loop counts as matches. |
| TranscriptSearch.MatchPositionsSound | app/components/Transcript.tsx:38 | Every position the global match reports is a case-insensitive occurrence of the query at or after the scan start. |
| TranscriptSearch.MatchPositionsDisjoint | app/components/Transcript.tsx:38 | Reported matches are in increasing order and at least one query length apart, so they do not overlap. |
| TranscriptSearch.MatchPositionsComplete | app/components/Transcript.tsx:38 | Every occurrence at or after the scan start overlaps a reported match, so none is skipped. |
| TranscriptSearch.CountIsLeftmostOccurrences | app/components/Transcript.tsx:38-39 | The count is the number of leftmost, non-overlapping, case-insensitive occurrences of the untrimmed query. |
| TranscriptSearch.CountBound | app/components/Transcript.tsx:38-39 | The matches cover at most the transcript: count × query length ≤ transcript length + 1. |
| TranscriptSearch.ConcatAppend | app/components/Transcript.tsx:27-30 | Joining parts distributes over concatenation of part lists. |
| TranscriptSearch.MatchPartsAppend | app/components/Transcript.tsx:62 | The number of match parts is additive over part lists. |
| TranscriptSearch.SplitFromLength | app/components/Transcript.tsx:27-30 | From any scan state, the split yields two parts per remaining match plus one. |
| TranscriptSearch.SplitFromConcat | app/components/Transcript.tsx:27-30 | From any scan state, the remaining parts join to the rest of the transcript. |
| TranscriptSearch.SegmentIsNotMatch | app/components/Transcript.tsx:27-30 | A non-match segment the scan passed over never equals the query up to case. |
| TranscriptSearch.SplitFromAlternates | app/components/Transcript.tsx:27-30 | The remaining parts alternate: a part is treated as a match exactly at the odd positions. |
| TranscriptSearch.AlternatingPrefixCount | app/components/Transcript.tsx:57-67 | In an alternating list, a prefix of n parts holds n/2 match parts. |
| TranscriptSearch.SplitShape | app/components/Transcript.tsx:27-30 | For a non-empty query: the parts number 2·count+1, they join back to the transcript exactly, they alternate, and the render loop treats exactly `count` of them as matches. |
| TranscriptSearch.SearchEffect | app/components/Transcript.tsx:32-42 | For a blank query the count becomes 0 and the current match is untouched. Otherwise the count is the number of matches and the current match resets to 0. |
| TranscriptSearch.NonBlankIsNonEmpty | app/components/Transcript.tsx:33 | A query that passes the blank test is not empty. |
| TranscriptSearch.SearchEffectAgreesWithRender | app/components/Transcript.tsx:32-67 | The published count equals the number of parts the render loop highlights, and those are the leftmost non-overlapping occurrences. |
| TranscriptSearch.RenderParts | app/components/Transcript.tsx:57-85 | Each part is rendered with its own text and is highlighted exactly when it equals the query up to case. Highlights are numbered by the matches before them and are active exactly when their number is the current match. `matchRefs` maps each match number to its part. |
| TranscriptSearch.RenderedStep | app/components/Transcript.tsx:61-84 | One iteration of the render loop keeps the rendering promise for the parts seen so far. |
| TranscriptSearch.RenderTranscript | app/components/Transcript.tsx:53-87 | For a blank query, or when the search tab is closed, the transcript is returned unchanged. Otherwise the split transcript is rendered as above. |
| TranscriptSearch.SpanTextsOfRendering | app/components/Transcript.tsx:61-85 | The rendered spans spell the parts in order. |
| TranscriptSearch.MatchPartsPrefixMonotone | app/components/Transcript.tsx:57-67 | The match counter never decreases along the parts and grows past each match part. |
| TranscriptSearch.MatchNumberExists | app/components/Transcript.tsx:57-67 | Every number below the match count is the number of some match part. |
| TranscriptSearch.MatchNumbering | app/components/Transcript.tsx:57-67 | Highlight numbers are below the match count and strictly increase left to right. Each of 0 … count−1 occurs. |
| TranscriptSearch.ExactlyOneActive | app/components/Transcript.tsx:73-77 | If the current match is in range, exactly one highlight is active; otherwise none is. |
| TranscriptSearch.HighlightedViewFacts | app/components/Transcript.tsx:32-87 | For a non-blank query, the highlighted view spells the transcript. Its match parts number the published count. Some highlight is active exactly when the current match is in range. |
| Text.Lower | app/components/Transcript.tsx:62 | `toLowerCase` keeps the length and lower-cases each ASCII letter in place. |
| Text.LowerEqualIff | app/components/Transcript.tsx:62 | The render loop's test (lower-cased copies equal) holds exactly when the `i` flag's comparison (each character equal after upper-casing) does, so the parts it highlights are the parts the regular expression matched. |
| Text.LowerUpperAgree | app/components/Transcript.tsx:62 | Two characters lower-case alike exactly when they upper-case alike. |
| Text.TrimStart | app/components/HoaInfoModal.tsx:119 | The result is a suffix of the input. Everything dropped is whitespace, and the result does not start with whitespace. |
| Text.TrimEnd | app/components/HoaInfoModal.tsx:119 | The result is a prefix of the input. Everything dropped is whitespace, and the result does not end with whitespace. |
| Text.LeadingWhitespace | app/components/HoaInfoModal.tsx:119 | Counts the leading run of whitespace: all of it is whitespace, and the next character is not. |
| Text.Trim | app/components/HoaInfoModal.tsx:104-107 | `trim()` yields the infix after the leading whitespace. Everything after it is whitespace, and it neither starts nor ends with whitespace. |
| Text.TrimStartDropsLeading | app/components/HoaInfoModal.tsx:119 | Trimming the start drops exactly the leading whitespace run. |
| Text.TrimEmptyIffBlank | app/components/Transcript.tsx:33 | A string trims to "" exactly when every character is whitespace. |
| SearchNavigation.NextIndex | app/components/SearchView.tsx:41-44 | The `next` updater: 0 at or past the last match, otherwise one on. |
| SearchNavigation.PrevIndex | app/components/SearchView.tsx:46-50 | The `prev` updater: the last match before the first, otherwise one back. |
| SearchNavigation.SearchSession.ShowsNavigation | app/components/SearchView.tsx:85 | The navigation row shows exactly for a query that does not trim to "". |
| SearchNavigation.NavigationInRange | app/components/SearchView.tsx:39-52 | With matches, next and prev keep an in-range index in range. They equal (i+1) mod n and (i−1+n) mod n. |
| SearchNavigation.NextPrevInverse | app/components/SearchView.tsx:39-52 | For an in-range index, next then prev, and prev then next, return the index. |
| SearchNavigation.UnguardedPrevGoesNegative | app/components/SearchView.tsx:46-50 | Without the disabled button, prev at index 0 with no matches would give −1. |
| SearchNavigation.NextTimesIsRotation | app/components/SearchView.tsx:41-44 | k presses of next move k places cyclically: (i+k) mod n. |
| SearchNavigation.SearchSession.constructor | app/components/SearchView.tsx:18 | The page starts with empty text, an empty query and no matches. |
| SearchNavigation.SearchSession.Type | app/components/SearchView.tsx:62-64 | Typing changes only the typed text. |
| SearchNavigation.SearchSession.Find | app/components/SearchView.tsx:20-25 | If the query equals the non-empty typed text, the current match moves to the next one. In every case the query becomes the typed text. |
| SearchNavigation.SearchSession.Clear | app/components/SearchView.tsx:33-37 | The typed text and the query become "" and the current match becomes 0. |
| SearchNavigation.SearchSession.Recount | app/components/Transcript.tsx:32-42 | The panel's effect sets the session's count and current match as `SearchEffect` says. |
| SearchNavigation.SearchSession.FindIn | app/components/SearchView.tsx:20-25 | Find followed by the panel effect. The typed text stays and becomes the query. A new non-blank query counts afresh from match 0. A new blank query sets the count to 0 and keeps the current match. Pressing Find again on the same query advances to the next match. |
| SearchNavigation.SearchSession.PressNext | app/components/SearchView.tsx:41-44 | The → button applies next only when navigation is shown and there are matches. The index stays in range. |
| SearchNavigation.SearchSession.PressPrev | app/components/SearchView.tsx:46-50 | The ← button applies prev only when navigation is shown and there are matches. The index stays in range. |
| SearchNavigation.SearchSession.Position | app/components/SearchView.tsx:102 | The display shows 0 without matches and a value in 1..n with them. |
| HoaForm.IsZip | app/components/HoaInfoModal.tsx:137 | `^\d{5}$`: exactly five ASCII digits. |
| HoaForm.Fails | app/components/HoaInfoModal.tsx:119-139 | Each rule's failing condition, one per error key. |
| HoaForm.Errors | app/components/HoaInfoModal.tsx:117-139 | The map from each failing rule's key to its message. |
| HoaForm.AllRulesHold | app/components/HoaInfoModal.tsx:119-142 | No rule fails. |
| HoaForm.DocName | app/components/HoaInfoModal.tsx:110 | The custom document name when it is non-empty, the document type otherwise. |
| HoaForm.SubmissionPayload | app/components/HoaInfoModal.tsx:103-111 | The arguments of `onSubmit`: trimmed name, trimmed city, the raw city as state, the raw ZIP, and the document name. |
| HoaForm.KeysDistinct | app/components/HoaInfoModal.tsx:119-139 | Different rules write under different keys. |
| HoaForm.CollectErrors | app/components/HoaInfoModal.tsx:117-139 | The six conditional inserts build exactly the map of failing rules to their messages. |
| HoaForm.RulesInOrder | app/components/HoaInfoModal.tsx:119-139 | Applying the rules in the validator's order gives the map with one entry per failing rule. |
| HoaForm.ErrorKeys | app/components/HoaInfoModal.tsx:119-139 | Each key is present exactly when its rule fails. |
| HoaForm.NoErrorsIffValid | app/components/HoaInfoModal.tsx:116-142 | No errors exactly when name and city are non-blank, type and state are non-empty, the ZIP is five digits, and an "other" type has a non-blank custom name. |
| HoaForm.RulesIndependent | app/components/HoaInfoModal.tsx:119-139 | A rule's verdict depends only on its own fields. |
| HoaForm.ZipIsWholeString | app/components/HoaInfoModal.tsx:137 | Padding with a space, four digits, or six digits fail the ZIP rule. |
| HoaForm.ValidPayload | app/components/HoaInfoModal.tsx:104-110 | For a valid form: name and city are non-empty, the ZIP is passed untrimmed, state is the raw city, and the document name is the type code, or the non-blank custom name for "other". |
| HoaForm.StateTakenFromCity | app/components/HoaInfoModal.tsx:104-109 | On a valid form with state TX and city Austin, the submitted state is "Austin". |
| HoaForm.NonBlankWord | app/components/HoaInfoModal.tsx:119 | A string starting with a non-whitespace character is not blank. |
| HoaForm.HoaInfoDialog.constructor | app/components/HoaInfoModal.tsx:89-97 | All fields start empty and there are no errors. |
| HoaForm.HoaInfoDialog.SetName | app/components/HoaInfoModal.tsx:157-163 | Only the name changes. |
| HoaForm.HoaInfoDialog.SetCity | app/components/HoaInfoModal.tsx:232-238 | Only the city changes. |
| HoaForm.HoaInfoDialog.SetZipcode | app/components/HoaInfoModal.tsx:282-288 | Only the ZIP changes. |
| HoaForm.HoaInfoDialog.SelectState | app/components/HoaInfoModal.tsx:251-268 | The select sets one of the listed state codes. |
| HoaForm.HoaInfoDialog.SelectDocumentType | app/components/HoaInfoModal.tsx:175-196 | Choosing a type sets it and clears the custom document name. |
| HoaForm.HoaInfoDialog.SetCustomDocumentName | app/components/HoaInfoModal.tsx:204-218 | The custom name is editable only while the type is "other". |
| HoaForm.HoaInfoDialog.ValidateForm | app/components/HoaInfoModal.tsx:116-143 | The published errors are the failing rules, and the result is true exactly when all rules hold. |
| HoaForm.HoaInfoDialog.HandleSubmit | app/components/HoaInfoModal.tsx:99-114 | A valid form calls `onSubmit` with the payload and then `onClose`. An invalid one calls neither. |
| Messages.ParseRole | convex/pdf.ts:252-259 | The role validator: "user", "assistant" or "system", anything else rejected. |
| Messages.ParseRoleName | convex/pdf.ts:252-259 | Every role passes the validator as its own literal. |
| Messages.ParseRoleOnlyNames | convex/pdf.ts:252-259 | The validator admits only "user", "assistant" and "system", each as its own role. |
| PdfActions.PlanChunks | convex/pdf.ts:194-213 | N pages give N chunks in page order. Chunk i holds exactly page i, and together they list pages 0..N−1 once each. |
| PdfActions.PageIndices | convex/pdf.ts:205 | The page indices from start up to end, in order. |
| PdfActions.Joined | convex/pdf.ts:62-67 | The accumulated transcript: each chunk text preceded by `"\n-\n"`, in order. |
| PdfActions.ChunkText | convex/pdf.ts:65-67 | The first block's text when it is a text block, the rendered content otherwise; none for a failed call or an empty answer. |
| PdfActions.HasUrl | convex/pdf.ts:22 | A URL passes `if (!url)` when present and non-empty. |
| PdfActions.JoinedLength | convex/pdf.ts:62-67 | The transcript is three characters per chunk longer than the chunk texts together, so it is empty exactly when there are no chunks. |
| PdfActions.JoinedAppend | convex/pdf.ts:62-67 | Accumulation distributes over consecutive runs of chunks. |
| PdfActions.TextFollowsSeparator | convex/pdf.ts:62-67 | Each chunk's text appears, in order, right after its own separator, which follows the transcript of the chunks before it. |
| PdfActions.ConvertPdfToText | convex/pdf.ts:18-73 | A missing or empty URL returns undefined with no model call. Otherwise the result is a transcript exactly when every chunk's answer yields a text, after one call per page, and it is the separated texts in order. If an answer cannot be read, the action stops right after that call. |
| PdfActions.ChatMessages | convex/pdf.ts:272-282 | A system turn with the transcript when it is non-empty, then the caller's turns. |
| PdfActions.DocTranscript | convex/docs.ts:96 | The stored transcript, or "" for a missing document. |
| PdfActions.ChatWithPdf | convex/pdf.ts:261-297 | The model's outcome on the message list built from the document's transcript. |
| PdfActions.EmbeddedTranscriptRoundTrip | convex/pdf.ts:277 | The transcript placed between the system prompt's prefix and suffix can be read back unchanged. |
| PdfActions.ChatMessagesShape | convex/pdf.ts:272-282 | A non-empty transcript gives one system turn carrying it, then the caller's turns unchanged. An empty one gives the caller's turns. The length grows by 1 or 0. |
| PdfActions.NoTranscriptNoSystemTurn | convex/pdf.ts:265-282 | A missing document, or an empty transcript, sends the caller's turns as they are. |
| ChatView.Outgoing | app/components/ChatView.tsx:35-37 | The list sent to the action: the earlier turns, or none, then the user turn. |
| ChatView.HasReply | app/components/ChatView.tsx:50 | The reply is truthy: present and non-empty. |
| ChatView.AfterSend | app/components/ChatView.tsx:39-60 | The displayed turns after a send: the outgoing list, then the assistant turn for a truthy reply. |
| ChatView.AfterSendAppends | app/components/ChatView.tsx:35-60 | Earlier turns stay in place. The user turn follows them, then one assistant turn with the reply exactly when the reply is truthy. |
| ChatView.FalsyReplyAddsNothing | app/components/ChatView.tsx:50-62 | An exception, an absent reply and an empty reply leave only the user turn. |
| ChatView.ChatSession.constructor | app/components/ChatView.tsx:16-21 | No list yet, an empty question, not loading. |
| ChatView.ChatSession.SendMessage | app/components/ChatView.tsx:28-66 | The action receives the earlier turns plus the user turn. While it runs, loading is set, the displayed list already ends with the user turn and the question is "". Afterwards the list is `AfterSend`, the question is "", and loading is false in every outcome. |

## Left out

- The regular-expression engine in general. Only patterns that denote a literal are decoded, which covers every escaped query.
- Unicode case folding. `toLowerCase` and the `i` flag are modelled on the ASCII letters; other characters compare as they are.
- TranscriptSearch.RenderParts: the spans carry the style choice as a flag rather than the class strings. `matchRefs` holds part positions instead of DOM elements. The scroll-into-view effect is not modelled.
- React scheduling. Handlers run as sequential steps, and effects run right after the step that changes their inputs (`SearchSession.FindIn`). The stale `messages` closure and the functional updaters coincide in that order.
- ChatView.ChatSession.SendMessage: the functional updater's branch for an absent list when the reply arrives cannot occur once the user turn has been added, so it is not modelled.
- The `currentMatch = 1` default prop of the search view. The page always passes the value.
- Browser constraint validation (`required`, `pattern="[0-9]{5}"`) that may stop the form before `handleSubmit` runs. Only the handler's own validator is modelled.
- HoaForm.HoaInfoDialog.SelectState and SelectDocumentType only accept the listed options. Values the select cannot emit are ignored rather than stored.
- PDF bytes. pdf-lib loading, page copying, saving and base64 encoding are reduced to the page-count arithmetic and the page-index plan.
- The language-model SDK calls, `fetch`, `console` logging and the 500 ms delay. The model is the `respond` and `complete` parameters.
- `generateSummary`, `convertPdfToTextGemini` and the commented-out pdfRest helpers, which are outside the modelled core.
- The database and storage wrappers in convex/docs.ts, convex/hoas.ts and convex/schema.ts. The only part modelled is that `getDocTranscript` yields "" for a missing document (`PdfActions.DocTranscript`).
- The upload route and the display-only components: summary, PDF viewer, recent uploads, sample questions and icons.
