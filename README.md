# flutter-ai-review-bot reviewer core, modelled in Dafny

The reviewer is a GitHub Actions bot. It fetches a pull request's diff and builds a prompt from the project's coding rules and a template. It asks a model (Gemini or OpenRouter) for a review and posts the review as one or more PR comments. This project models the pure logic around those network calls and proves properties of it:

- the configuration check and its constants (`Config`);
- parsing the PR number out of a Git ref, and the validation and fallback messages (`Utils`);
- the diff chunker: scanning for file boundaries, deciding whether to chunk, greedy packing into chunks, numbering, and chunk headers (`DiffChunker`);
- splitting a long review into comments, and the comment bodies that get posted (`GitHubClient`);
- Gemini model selection, the retry loop, the model-fallback loop and error classification (`GeminiClient`);
- prompt assembly from a rule directory and template files given as data (`PromptBuilder`);
- the OpenRouter client: the key check, the status dispatch, the response-shape check, the retry schedule and error classification (`OpenRouterClient`).

## How the outside world is modelled

Every call into code outside the model becomes an input. Those calls are HTTP, the Gemini SDK, `os.getenv`, `os.listdir`/`open` and `time.sleep`.

- The environment is an `Environment` record of optional strings.
- The rule directory is a `RulesDir`: a listing plus a map from readable file names to their contents.
- Template files are a map from name to contents.
- The model listing is a sequence of `ModelInfo`.
- Each Gemini call is an `Attempt`: the response text, or the message of the exception raised. The calls are given as a function from the attempt number (and the model) to the `Attempt`.
- Each OpenRouter request is an `Exchange`: a timeout, a network failure, or a response. A response is a status code, the response text, and the body decoded as a `Json` value or not decodable.
- Every `time.sleep` appears in a result: the retry loops return a `sleeps` sequence, and `post_review_chunked` returns its posts and one-second waits, in order, as a sequence of `Action`s.
- Every OpenRouter request payload appears in a returned `requests` sequence.
- `print` output is not modelled.

Where the source updates state step by step, the model does too:

- `Config.Validate`, `DiffChunker.ExtractFileBoundaries` and `GitHubClient.SplitReviewIntoChunks` are loops over sequences.
- `DiffChunker` keeps `DiffChunk` as a class. `chunk_diff` sets `total_chunks` in place after all chunks exist.

Each such method is proved equal to a specification function, and the properties are proved about that function.

Python string semantics live in module `Text`:

- `split` on a one-character separator, `join`, `startswith`, `endswith`, `in`;
- clamped slicing, `strip` with Python's whitespace set, ASCII `lower`, and `str` of a natural number.

## Model

| member | source | states |
|---|---|---|
| `Config.FromEnvironment` | scripts/reviewer/config.py:13-17 | The three secrets are passed through. `GITHUB_REF` is kept when set and defaults to "". `REVIEW_LANGUAGE` defaults to "vietnamese"; a set value is lower-cased character by character, so it keeps its length and has no upper-case letter. |
| `Config.Backoff` | scripts/reviewer/config.py:57-59 | The waits before retries 1..n: one per retry, each the initial delay times the multiplier raised to the retry's number. |
| `Config.Validate` | scripts/reviewer/config.py:68-82 | The loop of appends returns exactly the specified message list. That list is empty iff the key, token and repository are all non-empty and the language is "vietnamese" or "english". |
| `Config.MessagesDistinct` | scripts/reviewer/config.py:70-80 | The four messages differ from one another for every language value. |
| `Config.ValidationCount` | scripts/reviewer/config.py:70-80 | The number of messages equals the number of failing checks. |
| `Config.ValidationMessages` | scripts/reviewer/config.py:70-80 | Each message is present iff its own check fails (four iffs). |
| `Config.InvalidLanguageQuoted` | scripts/reviewer/config.py:79-80 | An unsupported language gives the last message, which contains the rejected value. |
| `Config.EmptyIsUnset` | scripts/reviewer/config.py:70-77 | An empty key, token or repository is reported exactly like a missing one. |
| `Config.LanguageCheckAcceptsDefaultsAndCase` | scripts/reviewer/config.py:79 | An unset language, or any value that lower-cases to a supported one, passes the language check. |
| `Config.CapitalisedEnglishAccepted` | scripts/reviewer/config.py:17 | "English" becomes "english". |
| `Utils.PrNumberFromRef` | scripts/reviewer/utils.py:29-32 | A number is returned iff the ref has at least three `/`-components and the second is "pull". It is then the third component and holds no `/`. |
| `Utils.PrNumberRoundTrip` | scripts/reviewer/utils.py:28-31 | For every `n` without `/` and every `rest`, `refs/pull/<n>/<rest>` gives back `n`. |
| `Utils.NoPrNumberUnlessPull` | scripts/reviewer/utils.py:30-32 | A ref whose second component is not "pull" gives `None`. |
| `Utils.PrNumberOfMergeRef` | scripts/reviewer/utils.py:20-21 | 'refs/pull/123/merge' gives '123'. |
| `Utils.PrNumberOfHeadRef` | scripts/reviewer/utils.py:22-23 | 'refs/pull/456/head' gives '456'. |
| `Utils.NoPrNumberInBranchRef` | scripts/reviewer/utils.py:24-25 | 'refs/heads/main' gives `None`. |
| `Utils.FormatValidationErrors` | scripts/reviewer/utils.py:44-48 | The message is empty iff there are no errors. |
| `Utils.FormatValidationErrorsLines` | scripts/reviewer/utils.py:47-48 | For errors without newlines, the message read line by line is the header, then one bullet per error, in order. |
| `Utils.CreateFallbackComment` | scripts/reviewer/utils.py:61-72 | The text opens with the English wording iff the language is exactly "english"; any other language gets the Vietnamese wording. It always ends with the error message verbatim inside a code fence. |
| `DiffChunker.PathOfFacts` | scripts/reviewer/diff_chunker.py:167-171 | The path holds no space. It is "unknown" for fewer than four words. Otherwise it is the fourth word with one leading `b/` removed. |
| `DiffChunker.PathOfGitLine` | scripts/reviewer/diff_chunker.py:165-171 | The path on git's own line `diff --git a/x b/p` is `p`. |
| `DiffChunker.ExtractFileBoundaries` | scripts/reviewer/diff_chunker.py:151-181 | The scan loop with its running offset returns exactly the specified boundaries. |
| `DiffChunker.ScanLinesSound` | scripts/reviewer/diff_chunker.py:164-177 | Each boundary names a line that starts with `diff --git `, records that line's number and offset, and carries its path. |
| `DiffChunker.ScanLinesComplete` | scripts/reviewer/diff_chunker.py:164-177 | No line starting with the marker is missed. |
| `DiffChunker.ScanLinesOrdered` | scripts/reviewer/diff_chunker.py:164-179 | Boundary line numbers strictly increase. |
| `DiffChunker.ScanLinesRange` | scripts/reviewer/diff_chunker.py:164-175 | Line numbers lie inside the diff's lines. |
| `DiffChunker.BoundaryLines` | scripts/reviewer/diff_chunker.py:160-179 | The combined statement over the diff's own lines: sound, complete and ascending. |
| `DiffChunker.BoundariesInText` | scripts/reviewer/diff_chunker.py:162-179 | Every recorded position is inside the diff, `diff_text[position:]` starts with the marker, and positions strictly increase. |
| `DiffChunker.BoundariesIncreasing` | scripts/reviewer/diff_chunker.py:174-179 | The same ordering, in the form the packing proofs use. |
| `DiffChunker.ShouldChunk` | scripts/reviewer/diff_chunker.py:59-80 | Chunking is chosen iff there are more than 5 boundaries and more than 30000 characters. |
| `DiffChunker.PiecesCover` | scripts/reviewer/diff_chunker.py:110-116 | The per-file sections, concatenated, are the diff from the first boundary on. |
| `DiffChunker.PiecesPaths` | scripts/reviewer/diff_chunker.py:108-116 | The sections carry the boundaries' paths, in order. |
| `DiffChunker.PiecesNonEmpty` | scripts/reviewer/diff_chunker.py:110-116 | No section is empty. |
| `DiffChunker.PieceAt` | scripts/reviewer/diff_chunker.py:110-116 | Section `i` is `diff_text[files[i].position:end]`, where `end` is the next boundary's position or the diff's length, and carries file `i`'s path. |
| `DiffChunker.PackPreservesText` | scripts/reviewer/diff_chunker.py:119-142 | Greedy packing loses and reorders no text. |
| `DiffChunker.PackPreservesPaths` | scripts/reviewer/diff_chunker.py:119-142 | Greedy packing loses and reorders no path. |
| `DiffChunker.PackShape` | scripts/reviewer/diff_chunker.py:119-142 | Every chunk is non-empty and holds one file or at most 40000 characters. Two neighbouring chunks together exceed 40000. Non-empty input gives at least one chunk. |
| `DiffChunker.ChunkDiffShape` | scripts/reviewer/diff_chunker.py:91-149 | There is at least one chunk, indices are 0..N-1 and every total is N. With no boundaries the result is one chunk of the whole text for "unknown". When chunking is not chosen, it is one chunk of the whole text with every path. |
| `DiffChunker.ChunkedSections` | scripts/reviewer/diff_chunker.py:108-116 | For a diff with a boundary, the sections are non-empty, carry the paths and cover the diff from the first boundary. |
| `DiffChunker.ChunkedDiffFacts` | scripts/reviewer/diff_chunker.py:103-149 | In chunked mode: the chunk texts concatenate to `diff_text[files[0].position:]`, so text before the first boundary is dropped. Their file lists concatenate to all paths in order. Chunks are well sized and greedy as in `PackShape`. |
| `DiffChunker.PackPartition` | scripts/reviewer/diff_chunker.py:119-142 | Greedy packing cuts the sections into consecutive runs, one per chunk: each chunk's text and files are exactly those of its own run of whole sections. |
| `DiffChunker.ChunksFollowFiles` | scripts/reviewer/diff_chunker.py:103-147 | In chunked mode, chunks are cut only at file boundaries. With `c[k]` (`FilesBefore`) the number of files in the chunks before chunk `k` of `N`: `c[0] = 0`, `c[k] < c[k+1]`, `c[N]` is the number of files, and chunk `k` is `diff_text[files[c[k]].position:end]`, where `end` is boundary `c[k+1]`'s position or the diff's end, with the paths of boundaries `c[k]` to `c[k+1] - 1`. |
| `DiffChunker.Header` | scripts/reviewer/diff_chunker.py:38-44 | The header is empty iff the total is 1. Otherwise it starts with the language's label, ends with two newlines, and starts with the English label iff the language is exactly "english". |
| `DiffChunker.HeaderAfterLabel` | scripts/reviewer/diff_chunker.py:42-44 | After the label comes the 1-based index, "/", the total, and the comma-joined files. |
| `DiffChunker.HeaderIdentifiesChunk` | scripts/reviewer/diff_chunker.py:42-44 | Equal headers mean the same index and total. |
| `DiffChunker.ChunkHeaders` | scripts/reviewer/diff_chunker.py:38-44 | A single chunk has an empty header. With several chunks, every header is non-empty and no two are equal. |
| `DiffChunker.DiffChunk.constructor` | scripts/reviewer/diff_chunker.py:15-27 | The object holds the four given fields. |
| `DiffChunker.DiffChunk.GetHeader` | scripts/reviewer/diff_chunker.py:29-44 | It is `Header` of the object's fields: empty iff the total is 1, otherwise starting with the label. |
| `DiffChunker.PackClose` | scripts/reviewer/diff_chunker.py:119-130 | A file that would overflow a non-empty chunk closes it and starts the next chunk. |
| `DiffChunker.PackAdd` | scripts/reviewer/diff_chunker.py:131-133 | Otherwise the file joins the current chunk. |
| `DiffChunker.Emit` | scripts/reviewer/diff_chunker.py:121-126 | A fresh chunk for the group is appended with index `len(chunks)` and total 0. The existing chunks are kept. |
| `DiffChunker.AddFile` | scripts/reviewer/diff_chunker.py:110-133 | One loop iteration advances the packing by exactly one file section. |
| `DiffChunker.PackFiles` | scripts/reviewer/diff_chunker.py:103-142 | The loop emits one fresh chunk per packed group, in order. |
| `DiffChunker.CloseLast` | scripts/reviewer/diff_chunker.py:135-142 | After the loop, the current chunk becomes one more fresh chunk iff it is non-empty; the earlier chunks stay as they were. |
| `DiffChunker.SetTotals` | scripts/reviewer/diff_chunker.py:145-147 | Every chunk's total is set and nothing else changes. |
| `DiffChunker.ChunkDiff` | scripts/reviewer/diff_chunker.py:82-149 | The returned fresh objects are, field by field, the specified chunks. |
| `GitHubClient.SplitReviewIntoChunks` | scripts/reviewer/github_client.py:183-223 | The loop over lines returns exactly the specified split. Every chunk is non-empty and stripped. |
| `GitHubClient.SplitStripped` | scripts/reviewer/github_client.py:208-221 | Every chunk of the split is non-empty and equal to its own strip. |
| `GitHubClient.MarkersOnlyMatterAfterBlank` | scripts/reviewer/github_client.py:204-214 | Once the current chunk has visible text, a marker line and an ordinary line close it alike when it is over the limit. |
| `GitHubClient.FoldWithin` | scripts/reviewer/github_client.py:215-217 | While the chunk stays within the limit, lines are only appended, each with a newline. |
| `GitHubClient.ShortTextOneChunk` | scripts/reviewer/github_client.py:201-221 | A text no longer than the limit gives one chunk, the stripped text, or none when it is blank. |
| `GitHubClient.StepOver` | scripts/reviewer/github_client.py:204-214 | Over the limit, a line is either skipped or closes the chunk and starts the next. |
| `GitHubClient.SplitSpans` | scripts/reviewer/github_client.py:201-221 | Each chunk comes from a run of consecutive lines. Runs are in input order without overlap. A run takes a line only while its text before that line is within the limit. Every chunk but the last was closed because it had gone over the limit. |
| `GitHubClient.BlankOverflowLosesLine` | scripts/reviewer/github_client.py:204-214 | "\nhello" with limit 0 gives no chunk: a line arriving while the chunk is over the limit but blank is dropped. |
| `GitHubClient.PostReviewChunked` | scripts/reviewer/github_client.py:151-181 | Both branches perform exactly `Postings` of the specified bodies: each body posted in order, with a one-second wait between two posts. A review that fits is one post, the header plus the review, with no wait. |
| `GitHubClient.PostingsShape` | scripts/reviewer/github_client.py:170-181 | `n` bodies give `2n - 1` actions: even places post the bodies in order, odd places wait one second, and nothing follows the last post. |
| `GitHubClient.PartBodyShape` | scripts/reviewer/github_client.py:170-176 | A body starts with the header and ends with its chunk. With several parts, "**Part i/N**" plus two newlines lies between them. |
| `GitHubClient.ShortReviewOneComment` | scripts/reviewer/github_client.py:154-159 | A review of at most `MAX_COMMENT_LENGTH - len(header)` characters is one body of at most `MAX_COMMENT_LENGTH` characters. |
| `GitHubClient.LongReviewBodies` | scripts/reviewer/github_client.py:161-176 | A longer review is split at `max_length - len(header) - 500`. It gives one body per (stripped, non-empty) chunk, each labelled when there are several. |
| `GitHubClient.PartLabelUnique` | scripts/reviewer/github_client.py:173 | Equal part labels mean the same part number and count. |
| `GeminiClient.NewClient` | scripts/reviewer/gemini_client.py:37-46 | It succeeds iff the key is non-empty and the SDK is present, and then keeps the key. An empty key is refused before a missing SDK. |
| `GeminiClient.CapableNamesSpec` | scripts/reviewer/gemini_client.py:103-105 | A name is listed iff some listed model of that name supports `generateContent`. |
| `GeminiClient.ListAvailableModels` | scripts/reviewer/gemini_client.py:99-113 | The listing loop returns exactly the capable names in listing order. |
| `GeminiClient.ContainsAnyIff` | scripts/reviewer/gemini_client.py:137-138 | `any(k in s for k in keys)` holds iff some key is a substring. |
| `GeminiClient.SelectModelsToTry` | scripts/reviewer/gemini_client.py:126-146 | The nested loops of appends return exactly the specified selection. |
| `GeminiClient.RankFacts` | scripts/reviewer/gemini_client.py:130-135 | A model's priority is the first preferred pattern its lower-cased name contains. |
| `GeminiClient.PassesSelect` | scripts/reviewer/gemini_client.py:128-139 | The models taken from the listing are exactly the qualifying ones: containing a pattern and no excluded keyword, case-insensitively. Each is taken once, ordered by priority and then by first position in the listing. |
| `GeminiClient.SelectModelsSpec` | scripts/reviewer/gemini_client.py:128-146 | The result is never empty. With no qualifying model (an empty listing included) it is the fallback list. Otherwise it is exactly the qualifying models, without duplicates, in priority then listing order. |
| `GeminiClient.InvalidKeyOnlyByIdentifier` | scripts/reviewer/gemini_client.py:220 | An error is an invalid-key error iff its lower-cased text contains "api_key": the "API key" test can never succeed. |
| `GeminiClient.DetailedErrorShape` | scripts/reviewer/gemini_client.py:218-247 | An invalid key gives the fixed message. Quota, permission and generic errors start with their own wording and end with the original error text. |
| `GeminiClient.TryModelWithRetry` | scripts/reviewer/gemini_client.py:164-207 | The retry loop ends at the first attempt that is not a retried failure, or at the last allowed one. It returns that attempt's outcome and sleeps `Backoff` of its number. |
| `GeminiClient.DecisiveFacts` | scripts/reviewer/gemini_client.py:191-205 | Every attempt before the decisive one failed with a retryable message. The decisive one is the last allowed or not a retried failure. |
| `GeminiClient.RetrySchedule` | scripts/reviewer/gemini_client.py:164-197 | At most three calls. The waits are 10 and 20 seconds, because the delay doubles before the sleep. |
| `GeminiClient.SettledByFirstNonRetried` | scripts/reviewer/gemini_client.py:166-205 | The first attempt that is not a retried failure, or the third, is the decisive one. |
| `GeminiClient.GenerateLooksRateLimited` | scripts/reviewer/gemini_client.py:191-193 | Any message mentioning "generate" counts as a rate-limit failure, since it contains "rate". It is also classified as invalid key or quota. |
| `GeminiClient.GenerateReview` | scripts/reviewer/gemini_client.py:64-91 | The loop over the models returns exactly the specified result. |
| `GeminiClient.FirstDecided` | scripts/reviewer/gemini_client.py:70-85 | Every model before the decisive position was passed over: no review, or a 404/not-found/429/quota failure. The model there was not. |
| `GeminiClient.DecidedByFirst` | scripts/reviewer/gemini_client.py:70-88 | The first model not passed over decides the result: its review, or its error made detailed. |
| `GeminiClient.AllPassedOver` | scripts/reviewer/gemini_client.py:75-91 | When every model is passed over, the result is "All Gemini models failed" with the last error raised. |
| `GeminiClient.LastRaised` | scripts/reviewer/gemini_client.py:75-76 | The last error is the initial value, or the message some model raised. |
| `GeminiClient.ReviewNotEmpty` | scripts/reviewer/gemini_client.py:179-185 | A returned review is never empty. |
| `GeminiClient.TryModelsSpec` | scripts/reviewer/gemini_client.py:69-91 | A review is returned iff the first model not passed over gave one; it is that model's non-empty text. That model's failure raises its detailed error. Exhaustion raises the all-failed error. |
| `GeminiClient.GenerateReviewSpec` | scripts/reviewer/gemini_client.py:64-91 | The same over the selected models, which are never empty. |
| `PromptBuilder.NameLessTransitive` | scripts/reviewer/prompt_builder.py:63-66 | Code-point order of file names is transitive. |
| `PromptBuilder.NameLessTotal` | scripts/reviewer/prompt_builder.py:63-66 | Code-point order of file names is total. |
| `PromptBuilder.InsertSpec` | scripts/reviewer/prompt_builder.py:63-66 | Insertion into a sorted list keeps it sorted and adds exactly the one name. |
| `PromptBuilder.SortSpec` | scripts/reviewer/prompt_builder.py:63-66 | `sorted` gives a sorted permutation of the names. |
| `PromptBuilder.MarkdownNamesSpec` | scripts/reviewer/prompt_builder.py:63-66 | A name is kept iff it is listed and ends in ".md". |
| `PromptBuilder.ReadableContentsAppend` | scripts/reviewer/prompt_builder.py:74-82 | Reading two runs of files gives the contents of each run, in order. |
| `PromptBuilder.ReadableContentsEmpty` | scripts/reviewer/prompt_builder.py:74-84 | Nothing is read iff no file can be read. |
| `PromptBuilder.LoadCodingRules` | scripts/reviewer/prompt_builder.py:53-95 | The loop returns exactly the specified rules text. |
| `PromptBuilder.CodingRulesSpec` | scripts/reviewer/prompt_builder.py:61-95 | An inaccessible directory, or one without a readable `.md` file, gives the fallback rules. Otherwise the rules are the readable `.md` files' contents in sorted name order, joined by the separator. |
| `PromptBuilder.UnreadableSkipped` | scripts/reviewer/prompt_builder.py:76-82 | An unreadable file contributes nothing; the files around it still do. |
| `PromptBuilder.TemplateChoice` | scripts/reviewer/prompt_builder.py:103-119 | The English file is chosen iff the language is exactly "english". A readable file is the template; an unreadable one gives the built-in template. |
| `PromptBuilder.FallbackTemplateFields` | scripts/reviewer/prompt_builder.py:142-156 | The built-in template holds each placeholder exactly once. |
| `PromptBuilder.TemplateFieldsOnce` | scripts/reviewer/prompt_builder.py:142-156 | Any brace-free text around one placeholder of each kind holds each exactly once. |
| `PromptBuilder.FieldReplaced` | scripts/reviewer/prompt_builder.py:46-49 | Wherever a placeholder stands, the prompt holds its value there, between the substituted text before and after it. |
| `PromptBuilder.SubstituteNoBrace` | scripts/reviewer/prompt_builder.py:46-49 | Brace-free text is left unchanged. |
| `PromptBuilder.SubstituteSplit` | scripts/reviewer/prompt_builder.py:46-49 | Substitution distributes over a split point followed by a brace. |
| `PromptBuilder.TemplateFilled` | scripts/reviewer/prompt_builder.py:46-49 | Brace-free text around the two placeholders comes out unchanged around the rules and the diff. |
| `PromptBuilder.FallbackPrompt` | scripts/reviewer/prompt_builder.py:142-156 | With the built-in template, the prompt is its fixed text with the rules and the diff in place. |
| `PromptBuilder.CutDiff` | scripts/reviewer/prompt_builder.py:37 | The cut is a prefix of the diff of length min(len, 12000); a diff of at most 12000 characters is kept whole. |
| `PromptBuilder.BuildPromptFallback` | scripts/reviewer/prompt_builder.py:27-51 | Without a readable template, the prompt is the built-in text around the loaded rules and the cut diff. |
| `PromptBuilder.BuildPromptFromTemplate` | scripts/reviewer/prompt_builder.py:27-51 | With a readable template of brace-free text around the two placeholders, the prompt is that text around the loaded rules and the cut diff. |
| `OpenRouterClient.NewClient` | scripts/reviewer/openrouter_client.py:36-44 | It fails iff the key is missing or empty, with "OPENROUTER_API_KEY not set". Otherwise it keeps the key, the base URL and the bearer authorization. |
| `OpenRouterClient.GetSpec` | scripts/reviewer/openrouter_client.py:181-185 | `get` finds the first entry for a key, and `None` iff there is none. |
| `OpenRouterClient.GetAppend` | scripts/reviewer/openrouter_client.py:181-185 | Entries in front are looked up first. |
| `OpenRouterClient.NonDictRejected` | scripts/reviewer/openrouter_client.py:175-179 | A response that is not a dictionary raises "Invalid API response format: expected dict, got" followed by its type name. |
| `OpenRouterClient.ApiErrorIff` | scripts/reviewer/openrouter_client.py:181-191 | The error raised starts with "API error: " iff the response is a dictionary with an "error" entry, whatever else it holds. |
| `OpenRouterClient.ErrorTextOfStringAndDict` | scripts/reviewer/openrouter_client.py:184-190 | A string error is itself. A dictionary's "message" is used. A dictionary without one is shown as a whole. |
| `OpenRouterClient.ErrorTextOfStrings` | scripts/reviewer/openrouter_client.py:186-188 | A list of strings gives them joined by "; ". |
| `OpenRouterClient.ChoicesMessagesUnexpected` | scripts/reviewer/openrouter_client.py:194-208 | Every failure in the `choices` checks raises a message whose first letter is the "U" of "Unexpected", `len`'s TypeError included, since it is wrapped as an unexpected error. |
| `OpenRouterClient.ChoiceMessagesUnexpected` | scripts/reviewer/openrouter_client.py:203-224 | The same for the first-choice and `message` checks. |
| `OpenRouterClient.MalformedChoiceRejected` | scripts/reviewer/openrouter_client.py:200-215 | For a dictionary without `"error"` whose `"choices"` is a non-empty list: a first item that is not a dictionary raises "Unexpected response format: choices[0] is " and its type name; a dictionary item whose `"message"` is not a dictionary raises "Unexpected message format: message is " and that value's type name. |
| `OpenRouterClient.ContentShape` | scripts/reviewer/openrouter_client.py:217-224 | Content returned is a true value with a length: never null, a bool or an integer. |
| `OpenRouterClient.CompletionContent` | scripts/reviewer/openrouter_client.py:193-235 | A chat completion gives `choices[0].message.content`, or `None` when that text is empty. |
| `OpenRouterClient.CompletionWithOtherEntries` | scripts/reviewer/openrouter_client.py:181-235 | Extra entries other than "error" and "choices" change nothing. |
| `OpenRouterClient.NoChoicesNoContent` | scripts/reviewer/openrouter_client.py:194-221 | Missing or empty `choices`, or a first choice without a message, gives `None`. |
| `OpenRouterClient.LastAttemptFacts` | scripts/reviewer/openrouter_client.py:89-256 | Every exchange before the last attempt was transient. The last attempt is the final allowed one or not transient. |
| `OpenRouterClient.CheckExchange` | scripts/reviewer/openrouter_client.py:132-264 | It retries iff attempts remain and the exchange is a timeout, a network error, a 429, or a 200 whose body cannot be decoded. Otherwise it gives the settled result. |
| `OpenRouterClient.TryModelWithRetry` | scripts/reviewer/openrouter_client.py:87-266 | It returns the last attempt's settled result and sleeps `Backoff` of its number. It sends one identical payload per attempt. |
| `OpenRouterClient.RetrySchedule` | scripts/reviewer/openrouter_client.py:87-94 | At most three requests, with waits of 10 and 20 seconds. |
| `OpenRouterClient.SettledByFirstNonTransient` | scripts/reviewer/openrouter_client.py:133-256 | The first non-transient exchange, or the third, ends the loop. |
| `OpenRouterClient.ErrorStatusNotRetried` | scripts/reviewer/openrouter_client.py:145-166 | A status other than 200 and 429 raises at once with no wait. 401, 402 and 403 raise their fixed messages. |
| `OpenRouterClient.RetriesPhraseValue` | scripts/reviewer/openrouter_client.py:141 | The retries phrase reads "after 2 retries". |
| `OpenRouterClient.ExhaustedRetriesRaise` | scripts/reviewer/openrouter_client.py:139-256 | A transient failure on the last attempt raises a message containing "after 2 retries". |
| `OpenRouterClient.SettledContentTruthy` | scripts/reviewer/openrouter_client.py:219-235 | Returned content is always a true value. |
| `OpenRouterClient.DetailedErrorShape` | scripts/reviewer/openrouter_client.py:277-302 | The client's own errors pass unchanged. An invalid key gives the fixed message. Rate, credit and generic errors contain the original text. |
| `OpenRouterClient.ErrorKindOrder` | scripts/reviewer/openrouter_client.py:282-300 | "401" means invalid key. "429" without a key sign means rate limit. Credits is chosen only when neither 401 nor 429 appears and "credits" or "402" does. |
| `OpenRouterClient.GenerateReview` | scripts/reviewer/openrouter_client.py:46-70 | It returns exactly the specified result. |
| `OpenRouterClient.GenerateReviewSpec` | scripts/reviewer/openrouter_client.py:63-70 | A review is returned iff the loop settled with content, which is then true. A loop error reaches the caller unchanged. No content gives "Model <name> returned empty response". |
| `Text.Split` | scripts/reviewer/utils.py:29 | `split` never gives an empty list, and no piece holds the separator. |
| `Text.JoinSplit` | scripts/reviewer/diff_chunker.py:161 | Joining the pieces of a split with the separator gives the text back. |
| `Text.SplitJoin` | scripts/reviewer/utils.py:47 | Splitting a join of separator-free pieces gives the pieces back. |
| `Text.Slice` | scripts/reviewer/prompt_builder.py:37 | Python slicing clamps its bounds to the string. |
| `Text.StripEmpty` | scripts/reviewer/github_client.py:208 | A string strips to nothing iff it is all whitespace. |
| `Text.StripIdempotent` | scripts/reviewer/github_client.py:209 | Stripping twice is stripping once. |
| `Text.LowerNeverContainsUpper` | scripts/reviewer/gemini_client.py:220 | A lower-cased string never contains a pattern that starts with an upper-case letter. |
| `Text.NatToStringRoundTrip` | scripts/reviewer/diff_chunker.py:42 | Support lemma for `DiffChunker.HeaderIdentifiesChunk` and `GitHubClient.PartLabelUnique`: the decimal text `str` writes for a natural number reads back as that number. |

## Left out

- All I/O is left out: HTTP, the Gemini SDK (`genai.configure`, `list_models`, `GenerativeModel`, `generate_content`), `os.getenv`, `os.listdir`, `open`, `time.sleep` and every `print`. Their results are inputs; the sleeps and request payloads are outputs.
- `GitHubClient.__init__`, `fetch_pr_diff` and `post_comment` are left out. They are HTTP calls with error wrapping; `post_review_chunked` is modelled as the sequence of posts and waits it performs.
- `print_usage_instructions` and `Config.print_debug_info` only print. `__init__.py` only re-exports. `scripts/ai_review.py` is the older entry point, whose pure parts repeat logic modelled here.
- The floating-point generation settings `temperature` and `top_p` are not modelled. JSON numbers are integers only.
- `PromptBuilder.Substitute` replaces only the two named placeholders `{coding_rules}` and `{code_diff}`. `str.format`'s brace escaping and its KeyError on other fields are not modelled. The proved statements are about templates whose other text has no brace, which holds for the built-in template.
- `PromptBuilder.FALLBACK_RULES` is the result of `textwrap.dedent`, written out by hand rather than computed.
- The `PromptBuilder` object is modelled as functions of its language. Its `script_dir` is not modelled: files are looked up by name in the maps passed in.
- `Text.Lower` lower-cases ASCII letters only. Python's full Unicode case mapping is not modelled. Every pattern compared in the source is ASCII.
- `GitHubClient.SplitSpans`: limits are natural numbers. The source's limit is never negative.
- Gemini: the printed retry delay and the delay actually slept differ, because the delay doubles before the sleep. Only the sleeps are modelled.
- Gemini: an exception part-way through `list_models` is not a separate case. The listing passed in is what the SDK yielded, so a failing listing is the prefix it yielded before failing.
- OpenRouter:
  - `OPENROUTER_MODEL` and `ENABLE_REASONING` are parameters, because `Config` does not define them.
  - `response.text` is given as a value.
  - Only the `Authorization` header is kept.
  - Reasoning details are only printed.
  - The payload keeps only the integer `max_tokens` setting, not the floating-point `temperature` and `top_p`. The check that `GENERATION_CONFIG` is a dictionary cannot fail, because it is a constant dictionary, so it is not modelled.
- `OpenRouterClient.Repr`: `repr` of strings inside containers is single-quoted with no escaping of quotes or control characters.
- `OpenRouterClient.Get`: a JSON object with a repeated key uses its first entry. Python's decoder keeps the last; responses do not repeat keys.
- `OpenRouterClient.Transient`: a 200 response whose body cannot be decoded is retried like a network error. This assumes the `requests` version raises its JSON decoding error as a `RequestException`; with older versions it would be wrapped as an unexpected error instead.
- OpenRouter: the final `return None` after the retry loop cannot be reached, and the model shows this with `assert false`.
- OpenRouter: every exception leaving the retry loop is the client's own error type, so `generate_review` passes every error on unchanged. `_create_detailed_error`'s classification is modelled and proved on its own (`ErrorKindOf`, `ErrorKindOrder`).
