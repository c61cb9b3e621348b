# LegalEase `/analyze` handler — a Dafny model

LegalEase is a small web service. A user uploads a contract as a PDF. The
service sends it, with a fixed prompt, to a hosted Gemini model. It expects a
JSON analysis back and returns it to the browser. Almost all of `app.py` is
Flask and Gemini glue. The `analyze()` handler also makes three exact
decisions, and this project models them as pure functions:

- **the upload gate** (`Upload.Validate`): four checks in a fixed order on
  the `contract` form field. The first check that fails decides the 400
  message.
- **the fence clean-up** (`Fences.StripFences`): `strip()` followed by three
  `re.sub` calls that remove markdown code fences from the model's text.
  Each `re.sub` is a left-to-right scan (`Fences.Sub`). It deletes every
  non-overlapping match of one of three patterns (`Fences.Pattern`), with
  Python's rules for `^` under `re.MULTILINE`, `$` without it, and a greedy
  `\s*`.
- **the reply** (`Handler.Analyze`): the handler's HTTP status and JSON body.
  It is a function of the upload, the outcome of the model call
  (`Ok(text)` or `Fail(message)`) and an abstract `json.loads`
  (`string -> Option<J>`). It also returns `modelCalled`, which says whether
  the model call was reached. A parse failure has its own `except` clause and
  gets its own 500. Any other exception goes to a substring-based classifier
  (`Handler.ClassifyFailure`). That classifier checks for a key error first,
  then for a rate limit; everything else is reported with the raw message.

Modules: `Wrappers` (Option), `Text` (the Python `str` primitives: `isspace`,
`lower`, `strip`, `endswith`, `in`), `Fences`, `Upload`, `Handler`.

Whitespace (`Text.IsSpace`) is CPython's exact `str.isspace` set. The same
set is what `\s` matches in a `str` pattern and what `strip()` removes.

Three consequences of the code that are easy to miss:

- An error message containing `429` does not always give a 429: the key
  check runs first. `"429 RESOURCE_EXHAUSTED: API_KEY quota"` gets the 500 key
  message (`Handler.KeyBeatsRateExample`).
- The rate check matches `rate` anywhere in the lower-cased message, not only
  `429` or `quota`, so "generate" counts too (`Handler.GenerateCountsAsRate`).
- The fence clean-up is not limited to a leading and a trailing fence line.
  Under `re.MULTILINE` the second pattern removes three backticks at the start
  of every line, together with the whitespace and line breaks after them
  (`Fences.InteriorLineFenceSub`).

## Model

| member | source | states |
|---|---|---|
| `Upload.IsPdfName` | app.py:75 | The definition of `filename.lower().endswith('.pdf')`; `Upload.PdfNameChars` states it character by character. |
| `Upload.Validate` | app.py:67-82 | The upload is accepted exactly when the `contract` field is present, the file name is non-empty, the name has a case-insensitive `.pdf` suffix, and the content has at least one byte. Every rejection is a 400. |
| `Upload.ValidationOrder` | app.py:67-82 | Each of the four 400 messages is returned exactly when all earlier checks pass and its own check fails. A missing field always gives "No file uploaded. Please select a PDF." |
| `Upload.EmptyFilenameRejected` | app.py:72-73 | An empty file name gives 400 "No file selected.", whatever the content length. |
| `Upload.PdfNameChars` | app.py:75-76 | The extension test holds exactly when the name is at least 4 characters long and ends in `.`, `p`/`P`, `d`/`D`, `f`/`F`. |
| `Upload.PdfNameExamples` | app.py:75-76 | `X.PDF`, `.pdf` and `lease.Pdf` pass. `x.pdf.txt`, `pdf` and `scan.pd` fail. |
| `Text.LowerChar` | app.py:75 | `lower()` on one character: an ASCII capital becomes the letter at the same place in `a`-`z` (`A` to `a`, ..., `Z` to `z`), and every other character is kept. |
| `Text.Lower` | app.py:75 | `str.lower()` on ASCII: the result has the same length, and each character is the `LowerChar` of the character at the same place. |
| `Text.LowerIdempotent` | app.py:75 | No ASCII capital is left after lower-casing, and lower-casing an already lower-cased text changes nothing. |
| `Text.LowerUnchanged` | app.py:75 | A text without ASCII capitals is its own lower-case form. |
| `Text.IsSpace` | app.py:105-108 | The definition of whitespace: exactly CPython's `str.isspace()` set, which is also what `\s` matches in a `str` pattern and what `strip()` removes. |
| `Text.Contains` | app.py:120-122 | The definition of Python's `w in s`: `w` occurs in `s` at some index. |
| `Text.EndsWith` | app.py:75 | The definition of `s.endswith(w)`: `s` ends with the characters of `w`, in order: its last `len(w)` characters are `w`. |
| `Text.SkipSpace` | app.py:106-107 | How far a greedy `\s*` reaches: the first non-whitespace index at or after `i`, or the end, with only whitespace in between. |
| `Text.Strip` | app.py:105 | `strip()` gives a slice of the input. The removed borders are all whitespace, and the result neither starts nor ends with whitespace. |
| `Text.StripUnique` | app.py:105 | A reference definition of `strip()`: cutting whitespace-only borders so that the middle neither starts nor ends with whitespace gives exactly `Strip`. |
| `Text.StripIdempotent` | app.py:108 | Stripping an already stripped text changes nothing. |
| `Text.StripPadded` | app.py:105 | Whitespace added before and after a text does not change its `strip()`. |
| `Fences.LineStart` | app.py:106-107 | The definition of `^` under `re.MULTILINE`: index 0, or just after a `'\n'`. |
| `Fences.EndAnchor` | app.py:108 | The definition of `$` without `re.MULTILINE`: the end of the text, or just before a final `'\n'`. |
| `Fences.MatchAt` | app.py:106-108 | A match of one of the three patterns is non-empty, stays inside the text, and contains three backticks: at its start for the two `^` patterns, at its end for `\s*```$`. A match of a `^` pattern starts a line and has the pattern's tag right after the backticks. |
| `Fences.LineFenceNeedsLineStart` | app.py:106-107 | A text in which no "```" starts a line passes through both `^` substitutions unchanged. An inline fence, as in `{"a": "x```y"}`, is kept. |
| `Fences.Sub` | app.py:106-108 | The definition of `re.sub(pattern, '', s)` as a left-to-right scan: a match is deleted and the scan resumes at its end, otherwise one character is kept. The result is never longer than the text scanned. |
| `Fences.StripFences` | app.py:105-108 | The definition of the clean-up: `strip()`, then the three substitutions in source order, with a `strip()` before the third. `Fences.StripFencesWithoutFence`, `Fences.StripFencesStripped` and `Fences.StripFencesOfFencedJson` state what it does. |
| `Fences.SubUnmatched` | app.py:106-108 | `re.sub` copies every character where its pattern does not match. |
| `Fences.SubFenceFree` | app.py:106-108 | A text without three backticks in a row passes through each of the three substitutions unchanged. |
| `Fences.ClosingFenceSub` | app.py:108 | On a text that does not end in a newline, `re.sub(r'\s*```$', '', t)` equals the reference `DropClosingFence`. It removes the final three backticks and the whitespace run before them, and only when the text ends with them. |
| `Fences.StripFencesWithoutFence` | app.py:105-108 | If the text contains no "```", the clean-up returns exactly `text.strip()`. |
| `Fences.StripFencesStripped` | app.py:108 | The clean-up's output never starts or ends with whitespace, even though the third substitution's result is not stripped again. |
| `Fences.OpeningFenceSub` | app.py:106 | On a fenced fence-free JSON text J, `^```json\s*` deletes exactly the opening marker, its line break and the whitespace at the front of J: what remains is `J + "\n"` without its leading whitespace, followed by the closing marker. That remainder is fence-free, ends in a line break unless empty, and strips to `J.strip()`. |
| `Fences.ClosingLineFenceSub` | app.py:107 | `^```\s*` then deletes the closing marker, which now starts a line. |
| `Fences.StripFencesOfFencedJson` | app.py:104-108 | For a JSON text J with no "```": "```json\n" + J + "\n```", with any whitespace around it, cleans up to `J.strip()`. |
| `Fences.InteriorLineFenceSub` | app.py:107 | `^```\s*` also deletes three backticks at the start of an interior line, together with the whole whitespace run after them, line breaks included: `x + "```" + y` becomes `x` followed by `y` without its leading whitespace. |
| `Fences.SingleLineFenceSub` | app.py:107 | On a text whose only "```" starts a line, `^```\s*` deletes that fence and the whitespace run after it and copies every other character. |
| `Handler.IsKeyError` | app.py:120 | The definition of the key-error test, grouped as Python groups it: `API_KEY` in the message, or both `invalid` and `key` in the lower-cased message. |
| `Handler.IsRateError` | app.py:122 | The definition of the rate-limit test: `quota` or `rate` in the lower-cased message, or `429` in the message. |
| `Handler.ClassifyFailure` | app.py:117-124 | A failure gives 429 exactly when it is not a key error and is a rate error; otherwise it gives 500. "Invalid Gemini API key. Check your .env file." comes exactly for key errors. "API rate limit hit. Please wait 60 seconds and try again." comes exactly for the 429. "Analysis failed: " + message comes exactly when neither check matches. |
| `Handler.ParseReply` | app.py:110-116 | The definition of the reply after `json.loads`: 200 with `{"result": value}` when it parses, 500 with the format message when it does not. `Handler.Analyze` states it for the handler. |
| `Handler.Analyze` | app.py:67-124 | The model is called exactly when validation accepts. A rejected upload gets 400 with its validation message. A model failure gets exactly `ClassifyFailure(message)`. When the model returned text, a successful `json.loads` of the cleaned-up text gives 200 with `{"result": value}`, and a failed one gives 500 with the format message. The status is always 200, 400, 429 or 500, and it is 200 exactly when the model returned text that parsed. |
| `Handler.RejectionIgnoresModel` | app.py:67-89 | A rejected upload gets its 400 message whatever the model or the parser would do. |
| `Handler.EmptyContentNeverCallsModel` | app.py:79-82 | Zero-length content gives a 400, and the model is not called. |
| `Handler.ModelCallNeedsAllChecks` | app.py:67-89 | The model is reached only with the field present, a non-empty `.pdf` name and at least one byte of content. |
| `Handler.ParseFailureIsFormatError` | app.py:110-117 | A `json.loads` failure gives 500 "Gemini returned an unexpected format. Please try again." It never reaches the key or rate checks, whatever the text contains. |
| `Handler.KeyErrorWins` | app.py:119-123 | For an accepted upload, a model failure that is a key error (`API_KEY`, or both `invalid` and `key` ignoring case) gets the handler's reply 500 with the key message, even when the message also looks like a rate limit. |
| `Handler.RateLimitReply` | app.py:117-124 | For an accepted upload, the handler answers a model failure with 429 exactly when it is not a key error and is a rate error. That 429 carries the rate-limit message; a failure matching neither check gets 500 "Analysis failed: " + message. |
| `Handler.GenerateCountsAsRate` | app.py:122-123 | A message containing "generate" in any case, and not a key error, gets the 429 rate-limit reply. |
| `Handler.KeyBeatsRateExample` | app.py:120-123 | "429 RESOURCE_EXHAUSTED: API_KEY quota" gives the 500 key message, not a 429. |
| `Handler.InvalidKeyExample` | app.py:120-121 | "Invalid Key" is a key error: `invalid` and `key` are matched ignoring case. |
| `Handler.RateExample` | app.py:122-123 | "429 Too Many Requests" gives the 429 rate-limit reply. |
| `Handler.PlainFailureExample` | app.py:120-124 | "invalid input" has `invalid` but no `key` and no rate marker. It gives 500 "Analysis failed: invalid input". |
| `Handler.FencedReplyIsBareReply` | app.py:104-111 | A fenced JSON text, with whitespace around it, gets the same reply as the bare JSON text. Once the upload is accepted, that reply is built from parsing `J.strip()`. |

## Left out

- Flask routing, `render_template`, `request.files`, `jsonify` and the 10 MiB `MAX_CONTENT_LENGTH` cap (app.py:14). The framework enforces these, not `analyze()`.
- The Gemini client and the `generate_content` call (app.py:16, 89-100) are a network call. They are the `ModelOutcome` input. `Fail(message)` stands for any exception other than `json.JSONDecodeError` raised there or when reading `response.text`.
- `response.text` can be `None` when the reply has no text parts. `.strip()` on app.py:105 then raises an `AttributeError`, which reaches the generic classifier. The model has no `None` text: `Fail("'NoneType' object has no attribute 'strip'")` stands for this case.
- Base64 encoding of the PDF (app.py:87). Its output is only forwarded to the model call.
- `json.loads` (app.py:110) is the abstract `parse` parameter, and `None` stands for `JSONDecodeError`. Other exceptions it can raise (a `RecursionError` on very deeply nested input) would reach the generic classifier. They are not modelled.
- `file.read()` (app.py:79) is assumed to succeed. The model sees only the content's length. A failing read would be classified like a model failure.
- `print` logging, `load_dotenv`/`os.getenv`, the `ANALYSIS_PROMPT` text and `app.run`.
- `modelCalled` is an ordinary field of the result rather than a ghost one. It only records whether the model call was reached.
- Handler.Analyze: does not model a `json.JSONDecodeError` raised inside `generate_content` or `response.text` (app.py:89-105). Python routes it by type to the `except json.JSONDecodeError` clause (app.py:113). There, `raw_text` has not been assigned yet, so line 115 raises `UnboundLocalError`, and Flask answers with its generic 500 error page. The model has only `Fail(message)` for a model failure, which gives `ClassifyFailure(message)` instead.
- Text.Lower: lowers ASCII letters only. Python's `str.lower()` also lowers other letters, but only two non-ASCII characters lower to ASCII. U+0130 becomes `i` followed by U+0307, so it can never be part of `invalid`. The Kelvin sign U+212A becomes `k`. So only `IsKeyError` can differ from the source, for a message that spells `key` with the Kelvin sign. `IsRateError` is exact: `quota`, `rate` and `429` contain neither `i` nor `k`. `IsPdfName` is exact too, because no non-ASCII character lowers to `.`, `p`, `d` or `f`.
- The chat-bot front-end and its response chunker (bot.py) are not part of this model.
