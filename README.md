# ai-news-explainer, modelled in Dafny

ai-news-explainer is a daily pipeline. It finds the first article on a
newspaper's front-page listing and extracts its title and body. It asks a
generative model for a child-friendly explanation as JSON, renders that JSON
into an HTML fragment and posts it to a blog. This project models the
decision logic of `main.py` and proves properties of it:

- `crawler.dfy` (module `Crawler`): the article locator, a chain of
  optional lookups (brick block, article list, first item, link, `href`). It
  also holds the article extractor, which substitutes fixed placeholders for a
  missing title or body. An HTTP response is an input: its status code and
  the page the parser would produce, as nested `Option` values.
- `gemini.dfy` (module `Gemini`): the summarization client's retry/backoff
  loop. The model's answers are an input sequence: one `Replied(text)` or
  `Failed(message)` per attempt. Sleeps are recorded in a trace of seconds.
  The method `GetGeminiResponse` is the loop. It is proved equal to the
  recursive specification `Summarize`, and the lemmas state what
  `Summarize` does. Errors are classified by substring search for four markers.
- `render.dfy` (module `Render`): `convertToHtml` on an already parsed
  response (a `map<string, Value>`). It has the required-key loop, the
  key-term loop and the fixed template. A field is shown the way an f-string
  shows it, as Python's `str()`.
- `config.dfy` (module `Config`): the required environment-variable check
  that runs before any network access.
- `text.dfy` (module `Text`) and `results.dfy` (module `Results`): substring
  search with its reference meaning, `"".join`, `sep.join`, `Option` and `Result`.

In these places the model follows what `main.py` does:

- An environment variable set to the empty string counts as missing, like an
  absent one. The code tests `not os.getenv(var)`.
- The renderer's failures are the exceptions the code raises. A missing
  required key raises the code's own exception, which names the key. A
  malformed `key_terms` raises Python's `TypeError` or `KeyError` (`RenderError`).
- The locator and extractor raise plain exceptions with a message
  (main.py:22, 31, 40). The model gives them structured kinds (`CrawlError`)
  that carry the same information.

## Model

| member | source | states |
|---|---|---|
| Crawler.GetFirstArticleUrl | main.py:17-33 | a non-200 listing response fails with its status; with 200, the URL is returned exactly when brick, list, first item, link and `href` are all present, and is that `href`; any missing node fails with the one "link not found" error |
| Crawler.GetArticleContent | main.py:36-52 | fails exactly on a non-200 response; otherwise never fails, and the title and body are the page's texts, or the fixed placeholders "❌ 제목 없음" and "❌ 본문 없음" when their blocks are absent |
| Text.HasSubstringIsContains | main.py:104 | the executable substring search used for Python's `in` succeeds exactly when the substring occurs at some index |
| Gemini.IsTransientMeaning | main.py:101-104 | an error is retried if and only if its message contains "503", "429", "UNAVAILABLE" or "RESOURCE_EXHAUSTED" as a substring |
| Gemini.StatusPrefixesAreTransient | main.py:103-104 | messages starting with the 503 or 429 status codes are classified as transient, whatever follows |
| Gemini.GetGeminiResponse | main.py:89-117 | the loop's result, number of model calls and sleep trace are exactly those of the specification `Summarize` |
| Gemini.TransientStep | main.py:104-109 | a transient failure before the last attempt adds one call and its backoff wait in front of what happens from the next attempt on |
| Gemini.TransientPrefix | main.py:104-109 | transient failures before attempt k only add their backoff waits, in order, in front of what happens from attempt k on |
| Gemini.SucceedsAt | main.py:91-100 | a reply on attempt k after transient failures returns its `text` (None when the reply has no text) after exactly k+1 calls; the sleeps are the backoff waits of attempts 0..k-1 followed by one `success_delay` |
| Gemini.FailsFatallyAt | main.py:113-115 | a non-transient error on attempt k returns None at once: k+1 calls, no further attempt and no sleep for attempt k |
| Gemini.GivesUpAfterLastAttempt | main.py:104-112 | transient errors on every attempt return None after `max_retries` calls, with no sleep after the last attempt |
| Gemini.AttemptsWithinLimit | main.py:89-117 | the model is called at most `max_retries` times and at least once when `max_retries` is positive; `max_retries <= 0` returns None with no call and no sleep |
| Gemini.WaitsAt | main.py:105 | the wait after a transient failure on attempt j is `retry_delay * 2^j` |
| Gemini.BackoffWaitsIncrease | main.py:105-108 | with a positive `retry_delay` the backoff waits strictly increase from one attempt to the next |
| Gemini.DefaultSchedule | main.py:55-112 | with the defaults (3 tries, 5 s, 3 s), three transient errors wait 5 then 10 seconds and return None; a reply on the third try sleeps 5, 10, then 3 |
| Render.FirstMissing | main.py:125-128 | the key check finds nothing exactly when all required keys are present, and what it reports is a required key that is absent |
| Render.FirstMissingIsFirst | main.py:126-128 | the key reported is the first absent one in the fixed order |
| Render.CheckRequiredKeys | main.py:125-128 | the checking loop reports exactly what `FirstMissing` does |
| Render.Show | main.py:153 | a string field is inserted verbatim |
| Render.TermFragmentEmbeds | main.py:134-142 | a key term yields a fragment exactly when it is an object with `term` and `definition`, and the fragment holds both verbatim |
| Render.FragmentsOnePerElement | main.py:132-144 | fragments exist exactly when every key term has one; then there are as many fragments as key terms, in order |
| Render.FragmentsErrorPersists | main.py:133-143 | once a prefix of the key terms has failed, the whole list fails with that prefix's error |
| Render.FirstMalformedTermError | main.py:133-143 | when every key term before position i is well formed and the i-th is not, the whole list fails with the i-th term's error |
| Render.GenerateKeyTermsHtml | main.py:131-144 | the appending loop returns the in-order concatenation of the fragments, or the first key term's error |
| Render.KeyTermsEmbed | main.py:131-144 | every key term's `term` and `definition` appear verbatim in the key-term list |
| Render.ConvertToHtml | main.py:120-235 | the method (key check, key terms, template) returns exactly `Rendered` |
| Render.AbsentKeyRejected | main.py:125-128 | a response lacking any of the seven keys is rejected, naming the first absent key in the fixed order |
| Render.RejectionNamesFirstAbsent | main.py:125-128 | when key i is the first absent one, the rejection names key i |
| Render.MissingMeaningReported | main.py:125-128 | with `title` and `summary` present and `meaning` absent, `meaning` is reported |
| Render.RenderedEmbedsFields | main.py:147-235 | a rendered document holds the six texts, the whole key-term list and the article link, each verbatim |
| Render.RenderedEmbedsKeyTerms | main.py:214 | a rendered document holds every key term's `term` and `definition` |
| Render.WellFormedResponseRendered | main.py:126-235 | a response with all seven keys and well-formed key terms is rendered |
| Render.StringResponseRendered | main.py:120-235 | a response of seven strings and one key term renders into a document holding the title, summary, term, definition and link |
| Config.CheckRequiredEnv | main.py:246-264 | the loop collects exactly the unset required names in declaration order; the check fails if and only if that list is non-empty, with a message listing it |
| Config.MissingNamesExact | main.py:256-259 | a name is reported exactly when it is required and `os.getenv` gives it no non-empty value |
| Config.MissingNamesAppend | main.py:256-259 | the report keeps declaration order: the names missing from a + b are those missing from a, then those missing from b |
| Config.CheckFailsIffUnset | main.py:261-264 | the run stops exactly when some required variable is unset, and the message names every unset variable |
| Config.EmptyValueIsMissing | main.py:258 | a variable set to the empty string is reported as missing |

## Left out

- HTTP requests and the User-Agent header (main.py:19-20, 38, 274-275): network I/O. The status code is an input, and any status other than 200 fails.
- HTML parsing and `get_text` whitespace handling (main.py:24-28, 42-50): a foreign library. Its results are the `Option` values of the page datatypes.
- The Gemini client, its request and the prompt file (main.py:57-86): foreign calls and file I/O. Each call's outcome is an input.
- Gemini.GetGeminiResponse: needs one input outcome per possible attempt (`maxRetries <= |outcomes|`), because it stands in for a service that always answers.
- Gemini.GetGeminiResponse: delays are whole, non-negative seconds. Python also accepts fractions. A negative `success_delay` would make `time.sleep` raise inside the `try`, which the code would then handle as a non-transient error.
- Logging (main.py:57, 99, 106, 111, 114, 263, and the main block): logs record the outcome and do not affect it.
- `json.loads` (main.py:122): the parsed response is an input. Duplicate keys inside an object are not modelled (the parser keeps the last one).
- Render.ConvertToHtml: takes the response as a JSON object (a map). A reply that parses to another JSON value is not modelled. For an array, the key check at main.py:126-127 tests list membership. For a string, it tests for a substring. For a number or null, it raises a `TypeError`.
- Render.Show: `repr()` escapes non-printable characters beyond ASCII as `\x`, `\u` or `\U` sequences. The model escapes only ASCII control characters, the backslash and the quote.
- Byte-exact HTML whitespace and CSS classes of the template: its constant pieces are shortened constant strings.
- The top-level run after the configuration check (main.py:266-316): the post to the blog API, the Telegram notice on a posting error, `load_dotenv` and date formatting. These are I/O and external collaborators.
