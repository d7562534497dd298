# playwright-webscraper core, in Dafny

This project models the sequential logic of two Python scripts. `news_article_xpath.py` is a
scraper that asks a language model for XPath selectors. `solve_captcha.py` types the digits of
a transcribed audio captcha into a page. The browser, the language model, the tokenizer, lxml
and the speech model stay outside the model. Each becomes an input:

- The tokenizer's output is a sequence of abstract tokens.
- The language model's answer is a reply string.
- lxml's XPath evaluation is a function that either returns matches or fails.
- A click is a flag saying whether it succeeded.
- The speech model's output is the list of transcript segment texts.

Modules:

- `Wrappers` (`wrappers.dfy`): `Option` and `Result`.
- `PyStrings` (`py_strings.dfy`): the Python `str` built-ins the core uses.
  - `strip()`, with Python's whitespace set.
  - `str.isdigit`.
  - the `in` operator on strings.
  - `s.split(sep)[1]` and `s.split("\n")[0]`.
- `Chunker` (`chunker.dfy`): the generator `trim_to_encoder_size_generator`.
  - The generator is run to exhaustion, so it returns everything it yields.
  - Python's slice and `range` semantics are written out. `range` with step 0 raises `ValueError`. `range(0, n, step)` with a negative step is empty.
- `XPathReply` (`xpath_reply.dfy`): the reply-parsing tail of `generate_xpath`.
  - It takes the text between the first and the second "```xpath", or to the end when there is no second one.
  - `re.sub` deletes every "```", scanning left to right.
  - The result is stripped.
- `ChunkLoop` (`chunk_loop.dfy`): the chunk loop of `run`.
  - For each chunk the model gives a reply, which is parsed.
  - An empty or unparsable reply raises.
  - The first line of the parsed expression is the selector. A failed XPath query raises.
  - A failed click moves on to the next chunk. The first successful click leaves the loop.
  - If every chunk is tried without success, the loop ends normally.
- `Extraction` (`extraction.dfy`): `extract_data`, as a loop that fills a map.
- `AudioCaptcha` (`audio_captcha.dfy`): the answer part of `solve_audio_captcha`.
  - Join the segments and strip the result.
  - Keep only the digits.
  - Fill field `i` with digit `i` while there are fields. The fields are an array updated in place.

Behaviour of the code worth knowing:

- The reply parser returns `""` without error when the fenced block is empty. It is `run` that raises on it.
- Selectors are not retried on a parse failure. A missing "```xpath" block makes the assertion in `generate_xpath` fail, and `run` re-raises it.
- The windows do not cover the whole page. The last 160 tokens of every `chunk_size` block are in no window. Only the final chunk, the page itself, holds them.
- Exhausting the chunks raises no error.
- `extract_data` raises no error of its own. When lxml rejects an expression, the exception propagates.
- An empty captcha answer raises no error.

## Model

| member | source | states |
|---|---|---|
| Chunker.Trim | news_article_xpath.py:161-178 | The generator fails exactly when `chunk_size` is 0. Otherwise the last value is always the unmodified page and every earlier value is a token window. A page of at most `chunk_size - 160` tokens yields only the page. |
| Chunker.TrimToEncoderSize | news_article_xpath.py:161-178 | The generator's imperative run (branch, loop, final yield) produces exactly `Trim`. |
| Chunker.YieldWindows | news_article_xpath.py:173-176 | The `for i in range(0, n, chunk_size)` loop yields, in order, the slices `encoded[i : i + chunk_size - 160]` for every range value. |
| Chunker.PySlice | news_article_xpath.py:175 | Python slicing with `0 <= lo <= n` and `lo <= hi` is the slice from `lo` up to `min(hi, n)`. |
| Chunker.LongPageWindows | news_article_xpath.py:169-178 | For `chunk_size > 160` and a page longer than `chunk_size - 160` tokens, the generator yields `ceil(n / chunk_size)` windows and then the page. Window `k` is the non-empty slice from `k * chunk_size` to `min(n, k * chunk_size + chunk_size - 160)`, holding at most `chunk_size - 160` tokens. |
| Chunker.FullWindowsBeforeLast | news_article_xpath.py:173-175 | Every window but the last holds exactly `chunk_size - 160` tokens. |
| Chunker.WindowsOrdered | news_article_xpath.py:173-175 | Window starts are strictly increasing, and each window ends before the next one starts, so windows never overlap. |
| Chunker.CoveredIff | news_article_xpath.py:173-175 | A token position is in some window if and only if its offset within its `chunk_size` block is below `chunk_size - 160`. The positions in `[k*chunk_size + chunk_size - 160, (k+1)*chunk_size)` appear in no window. |
| PyStrings.Strip | news_article_xpath.py:155 | `strip()` returns a string with no whitespace at either end. The input is that string with only whitespace before it, all of it as the leading run, and only whitespace after it. |
| PyStrings.StripUnique | news_article_xpath.py:155 | Any trimmed string that sits in `s` with only whitespace around it is `strip(s)`, so the contract of `Strip` determines its result. |
| PyStrings.SecondField | news_article_xpath.py:154 | `s.split(sep)[1]` starts right after the first occurrence of `sep`. It contains no `sep`. It ends just before the next occurrence of `sep` the search finds, or at the end of `s` when there is none. |
| PyStrings.SecondFieldOfSingle | news_article_xpath.py:154 | When the separator occurs exactly once, `split(sep)[1]` is everything after that occurrence. |
| PyStrings.FindFrom | news_article_xpath.py:154 | The search returns the first occurrence of the separator at or after the start position, or nothing when there is none. |
| PyStrings.FirstLine | news_article_xpath.py:95-99 | `split("\n")[0]` is a prefix of the input with no line break. It is the whole input or is followed by a line break. |
| PyStrings.FirstLineOfTrimmed | news_article_xpath.py:89-99 | The first line of a non-empty stripped string is non-empty. |
| XPathReply.NoFenceAfterRemoval | news_article_xpath.py:153-155 | After `re.sub("```", "", s)` no "```" is left, including where removing a fence joins two pieces. |
| XPathReply.ParseXPathReply | news_article_xpath.py:149-159 | The parse fails if and only if the reply lacks "```xpath". On success, the result contains no "```" and has no surrounding whitespace. It is the fence-free segment after the first "```xpath" with only whitespace removed around it. |
| XPathReply.FencedReplyParses | news_article_xpath.py:149-155 | Take a reply in the layout the prompt asks for: backtick-free text, "```xpath", a line holding a non-empty expression with no surrounding whitespace, "```", then any backtick-free text, even text starting with "xpath", which turns the closing fence into a second "```xpath". It parses successfully, and the first line of the result is the expression. With only whitespace after the closing fence, the result is exactly the expression. |
| XPathReply.ReplySegmentClosedByMarker | news_article_xpath.py:149-154 | When the closing fence is itself the start of a second "```xpath", `split` still returns just the line holding the expression. |
| XPathReply.RemoveFences | news_article_xpath.py:153-154 | Removing fences never lengthens the text and introduces no character that was not there. `NoFenceAfterRemoval` shows no "```" survives. `RemoveFencesKeepsOthers` shows that only backticks are deleted. `RemoveFencesFenceFree` shows that text without a fence is unchanged. `RemoveFencesRun` and `RemoveFencesSplit` fix the result on every input: each maximal run of backticks keeps its length modulo 3, and everything else is kept. |
| XPathReply.RemoveFencesRun | news_article_xpath.py:153-154 | A run of `k` backticks followed by a non-backtick or by the end of the text loses one fence per three backticks: `k % 3` backticks survive, and removal continues after the run. |
| XPathReply.RemoveFencesSplit | news_article_xpath.py:153-154 | When `a` does not end in a backtick, removing fences from `a + b` is removing them from `a` and from `b` separately. |
| XPathReply.RemoveFencesKeepsOthers | news_article_xpath.py:153-154 | The characters other than backticks are exactly those of the input, in the same order. |
| XPathReply.RemoveFencesFenceFree | news_article_xpath.py:153-154 | Text containing no "```" is left unchanged, so a lone pair of backticks survives. |
| PyStrings.SecondFieldOfTwo | news_article_xpath.py:154 | When the separator occurs at `i` and next at `k`, `split(sep)[1]` is exactly the text between the two occurrences. |
| PyStrings.Contains | news_article_xpath.py:150 | The `in` operator holds if and only if the left-to-right search finds an occurrence. |
| PyStrings.IsSpace | news_article_xpath.py:155 | Space, tab, line feed and carriage return are whitespace, and no whitespace character is a digit. |
| PyStrings.IsDigit | solve_captcha.py:42 | Every ASCII digit is a digit, and no ASCII letter is. |
| Chunker.RangeFrom | news_article_xpath.py:173 | `range(i, stop, step)` starts at `i` when `i < stop`, is empty when `i >= stop`, and every value lies in `[i, stop)`. |
| Chunker.Windows | news_article_xpath.py:173-176 | No windows for `chunk_size <= 0` or an empty page, at least one otherwise, and every value is a window. |
| Chunker.FirstWindow | news_article_xpath.py:173-175 | For a positive `chunk_size` and a non-empty page, the first window is `encoded[0 : chunk_size - 160]`. |
| Chunker.FullWindowsOfTrim | news_article_xpath.py:173-175 | Stated on the generator's output: every window but the last holds exactly `chunk_size - 160` tokens. |
| Chunker.OversizedWindow | news_article_xpath.py:173-176 | With `chunk_size = 100` and 250 tokens, the first slice `[0:-60]` holds 190 tokens, more than `chunk_size`. The next two slices are empty, and the page comes last. |
| Chunker.SmallChunkSizeWindow | news_article_xpath.py:173-176 | With `chunk_size = 100` and 100 tokens, the slice `[0:-60]` counts its end from the back, so the generator yields the first 40 tokens, then the page. |
| ChunkLoop.StepOf | news_article_xpath.py:78-111 | What one loop iteration does. It aborts as unparsable if and only if the reply lacks "```xpath", and as empty if and only if the parse is `""`. It aborts as an XPath failure if and only if the parse is non-empty and the query raises. A step that does not abort uses the first line of the parsed reply as its selector. That selector is non-empty, single-line and fence-free. The step navigates if and only if the click succeeds. |
| ChunkLoop.ChunkStep | news_article_xpath.py:78-111 | The loop body (parse, empty check, first line, query, click) takes exactly the decision `StepOf` describes. |
| ChunkLoop.RunChunkLoop | news_article_xpath.py:77-111 | The loop discards the selectors of the chunks whose click failed, in order. It stops at the first chunk that aborts or navigates. It falls through only when every chunk was discarded. |
| ChunkLoop.LoopOutcomeUnique | news_article_xpath.py:77-111 | The loop's outcome is determined by the chunks and the per-chunk responses. |
| ChunkLoop.Run | news_article_xpath.py:73-114 | `run` chunks the page with `chunk_size = 8192` and runs the loop over exactly those chunks. The last chunk it may try is the whole page. |
| Extraction.ExtractData | news_article_xpath.py:182-187 | The result succeeds if and only if every expression evaluates. It then has exactly the keys of `xpaths`, each mapped to the evaluation of its own expression. On failure it names a key whose expression fails. |
| AudioCaptcha.Join | solve_captcha.py:39 | Joining no segments gives `""`. Joining one segment gives that segment. The joined text is at least as long as every segment. |
| AudioCaptcha.JoinAppend | solve_captcha.py:39 | Joining is concatenation in segment order: joining `a + b` is joining `a` followed by joining `b`. |
| AudioCaptcha.Transcription | solve_captcha.py:39 | The transcription has no surrounding whitespace and sits inside the joined text with only whitespace around it. |
| AudioCaptcha.Digits | solve_captcha.py:42 | The digit filter keeps only digit characters and is never longer than its input. |
| AudioCaptcha.DigitsAppend | solve_captcha.py:42 | The filter distributes over concatenation, so digits keep their original order. |
| AudioCaptcha.DigitsCount | solve_captcha.py:42 | Every digit of the input is kept, as often as it occurs, and no non-digit is kept. |
| AudioCaptcha.DigitsOfDigits | solve_captcha.py:42 | A string of digits is left unchanged by the filter. |
| AudioCaptcha.DigitsIgnoreStrip | solve_captcha.py:39-42 | Stripping before filtering never changes the answer. |
| AudioCaptcha.CaptchaSolution | solve_captcha.py:39-42 | The answer consists only of digits and equals the digits of the joined segments. |
| AudioCaptcha.FillInputFields | solve_captcha.py:46-48 | For every `i < min(len(solution), len(fields))`, field `i` holds `solution[i]`. Fields at or beyond `len(solution)` are unchanged, so an empty answer writes no field. Digits past the last field are never written. |
| AudioCaptcha.SolveAudioCaptcha | solve_captcha.py:39-48 | The typed answer is the digits of the joined transcript, and the fields are filled as `FillInputFields` states. |

## Left out

- Playwright: launching the browser, `goto`, `content`, `click`, `query_selector*`, the waits, `close` and the `async` structure. This is I/O and cooperative scheduling. A click is a success flag, and the input fields are an array.
- The OpenAI call and the prompt text in `generate_xpath`. This is a network call. The model takes the reply text as input.
- The checks that a completion has choices, a message and content. A reply string is always present in the model.
- tiktoken `encode` and `decode`. This is a foreign library. Tokens are abstract, windows are reported as token slices, and nothing assumes that decoding and encoding round-trip.
- lxml parsing, XPath evaluation, `remove_script_tags` and `remove_css_script`. This is a foreign library. An XPath query is a function that either returns matches or fails. In the chunk loop it is a flag saying whether the query raises.
- faster-whisper transcription, the `requests.get` download and the file write. These are a foreign model, the network and file I/O. The segment texts are an input.
- The `__main__` block of `news_article_xpath.py`. It refers to names that are never defined.
- The `pdb.set_trace()` breakpoints. They are debugging only.
- The printing of progress messages.
- PyStrings.IsDigit: covers ASCII digits, superscripts and subscripts, and the Arabic-Indic, Extended Arabic-Indic, Devanagari and full-width digit blocks. The rest of Unicode's digit table is not included.
- Extraction.ExtractData: on failure it reports some key whose expression fails, not necessarily the first in the dictionary's insertion order. The order in which `dict.items()` visits keys is not modelled.
- Chunker.LongPageWindows, Chunker.FullWindowsBeforeLast, Chunker.WindowsOrdered and Chunker.CoveredIff: stated for `chunk_size > 160`. For `0 < chunk_size <= 160` the end bound `i + chunk_size - 160` is at most `i`. When it is negative, Python counts it from the end of the token list. The window still starts at `i`, but it can run far past `i + chunk_size - 160` and be longer than `chunk_size` itself (`Chunker.OversizedWindow`: 250 tokens with `chunk_size = 100` give 190 tokens, then two empty windows). Otherwise the window is empty. `Trim` still describes the generator's output there through `PySlice`.
- XPathReply.FencedReplyParses: covers replies with no backtick before the "```xpath", inside the expression or after the closing fence, and whose expression line has no surrounding whitespace. Other replies are described only by `ParseXPathReply`.
