# Instagram link extraction in the FUNR backend

This project models the Instagram route of the FUNR backend
(`app/routes/instagram_routes.py`). The route takes an inbound SMS-style
message and answers with the Instagram link found in its `Body` field.

- `extract_instagram_url(text)` runs a Python `re.search` for
  `https?://(?:www\.)?instagram\.com/[^\s]+`, with no flags. It returns the
  leftmost match, or `None` when nothing matches.
- `save_instagram_data` reads `Body` from the form fields and passes it to
  the extractor. Whenever the form carries `Body`, it answers with HTTP 200
  and the JSON
  `{status: "success", message: "Instagram data saved successfully!", instagram_url}`.
  When the form has no `Body`, the value read is `None` and the extractor
  raises, so the request ends in a server error (see "## Findings").

The file imports `re` from `sympy`, not from the standard library. The
sympy name has no `search`, so the extractor as written cannot run. The
model follows the evident intent, which is the standard-library
`re.search`.

## How the model is built

`instagram_routes.dfy` (module `InstagramRoutes`) describes the pattern in
two independent ways and proves that they agree.

- `InLanguage(s)` says which strings the pattern denotes. Such a string is
  one of the four prefixes `http://`, `https://`, `http://www.` or
  `https://www.` followed by `instagram.com/`, then one or more characters
  that are not whitespace.
- `MatchAt(text, i)` follows the backtracking engine at start index `i`.
  `SchemeEnd` handles the greedy `s?`, and `HostEnd` the optional `www.`
  group. `TailEnd` is the greedy `[^\s]+`.
- `FirstMatch` is the search loop: it tries a matcher at each start index
  from left to right and stops at the first match. `Search` runs it with
  `MatchAt` over every index up to and including the text's length, as
  `re.search` does. `ExtractInstagramUrl` returns the matched text.
- `IsSpace` is Python's `\s` on `str`: the characters for which
  `str.isspace()` holds. This includes the Unicode separators, not only
  ASCII blanks.

The handler is modelled as a pure function from the form fields (a
`map<string, string>`) to a `Response` record holding status, message, URL
(`Option`, with `None` as JSON null) and HTTP code.

`instagram_examples.dfy` (module `InstagramExamples`) proves what the
extractor returns for the messages of `test_instagram_endpoint.py` and for
a few edge cases.

The route does less than a link-saving feature might be expected to do.
It has no case-insensitive matching, no trimming of trailing punctuation,
no check of the path kind (post, reel, story), no error reply when no link
is found, and no scraping of metadata or inference of names. The model
follows the code: matching is case-sensitive, punctuation stays in the
URL, any path is accepted, and every reply that is sent is `success` with
a possibly null URL.

## Model

| member | source | states |
|---|---|---|
| `InstagramRoutes.IsSpace` | app/routes/instagram_routes.py:10 | No contract of its own: defines Python's `\s` on `str`, the characters for which `str.isspace()` holds. `TailEnd`, `ExtractLongest` and `InLanguageNoSpace` state what the pattern does with them |
| `InstagramRoutes.InLanguage` | app/routes/instagram_routes.py:10 | No contract of its own: the strings the pattern denotes, one of the four URL prefixes followed by one or more non-whitespace characters. `MatchAtIff` and `ExtractNoneIff` prove that the engine agrees with it |
| `InstagramRoutes.SchemeEnd` | app/routes/instagram_routes.py:10 | No contract of its own: `https?://` at one index, the greedy `s?` tried first. `PrefixOfEngine` and `EngineOfPrefix` prove what it consumes |
| `InstagramRoutes.HostEnd` | app/routes/instagram_routes.py:10 | No contract of its own: `(?:www\.)?instagram\.com/` at one index, the greedy group tried first. `PrefixOfEngine` and `EngineOfPrefix` prove what it consumes |
| `InstagramRoutes.MatchAt` | app/routes/instagram_routes.py:10 | A match the engine reports at an index is non-empty and lies within the text. `MatchAtIff`, `MatchAtSound` and `MatchAtComplete` tie it to the language |
| `InstagramRoutes.ExtractInstagramUrl` | app/routes/instagram_routes.py:9-12 | A returned URL occurs in the text and is denoted by the pattern. `ExtractNoneIff`, `ExtractLeftmost` and `ExtractLongest` state when it is `None` and which match is returned |
| `InstagramRoutes.TailEnd` | app/routes/instagram_routes.py:10 | The greedy `[^\s]+` stops at the first whitespace character or at the end of the text, and every character it consumes is non-whitespace |
| `InstagramRoutes.FirstMatch` | app/routes/instagram_routes.py:11 | The search loop returns the first start index at which the matcher succeeds, with the matcher's end. It returns nothing exactly when the matcher succeeds at no index in the range |
| `InstagramRoutes.Search` | app/routes/instagram_routes.py:11 | `re.search` reports the smallest start index, up to the text's length, at which the engine matches, with the engine's end. It reports nothing exactly when the engine matches at no index |
| `InstagramRoutes.SearchFinds` | app/routes/instagram_routes.py:11 | When the engine matches at an index and at no earlier one, the search reports exactly that match |
| `InstagramRoutes.TailEndCovers` | app/routes/instagram_routes.py:10 | The greedy tail reaches at least to the end of any run of non-whitespace characters starting where it starts |
| `InstagramRoutes.PrefixOfEngine` | app/routes/instagram_routes.py:10 | When the engine gets past `instagram.com/`, it has consumed exactly one of the four URL prefixes |
| `InstagramRoutes.EngineOfPrefix` | app/routes/instagram_routes.py:10 | Any of the four URL prefixes at an index is consumed in full by the engine, with backtracking in `s?` and `(?:www\.)?` |
| `InstagramRoutes.PrefixUnique` | app/routes/instagram_routes.py:10 | At any start index, at most one of the four URL prefixes occurs, so the prefix matches in at most one way |
| `InstagramRoutes.MatchAtParts` | app/routes/instagram_routes.py:10 | A match the engine reports is a URL prefix followed by the greedy tail, whose first character is not whitespace |
| `InstagramRoutes.PrefixedTailAt` | app/routes/instagram_routes.py:10 | A substring is a URL prefix plus a non-empty whitespace-free tail exactly when the prefix occurs at its start and every later character up to its end is non-whitespace |
| `InstagramRoutes.MatchAtSound` | app/routes/instagram_routes.py:10 | Every match the engine reports is non-empty, lies within the text, and is in the pattern's language |
| `InstagramRoutes.MatchAtComplete` | app/routes/instagram_routes.py:10 | Every substring in the language is found by the engine at its start index, and the engine's match is at least as long |
| `InstagramRoutes.MatchAtIff` | app/routes/instagram_routes.py:10 | The engine matches at an index exactly when some substring starting there is in the language |
| `InstagramRoutes.ExtractNoneIff` | app/routes/instagram_routes.py:10-12 | The extractor returns `None` exactly when no substring of the text is in the language |
| `InstagramRoutes.ExtractSound` | app/routes/instagram_routes.py:10-12 | A returned URL is the contiguous substring at the reported span, and it is in the language |
| `InstagramRoutes.ExtractShape` | app/routes/instagram_routes.py:10 | A returned URL contains no whitespace and is strictly longer than its URL prefix, so at least one path character follows `instagram.com/` |
| `InstagramRoutes.ExtractLeftmost` | app/routes/instagram_routes.py:11 | No substring starting before the returned match is in the language, so of two links the first is returned |
| `InstagramRoutes.ExtractLongest` | app/routes/instagram_routes.py:10 | The character after the returned match is whitespace, or the match ends the text. No longer substring from the same start is in the language, so trailing punctuation is kept |
| `InstagramRoutes.ExtractRefind` | app/routes/instagram_routes.py:9-12 | Extracting again from a returned URL gives the same URL |
| `InstagramRoutes.ExtractNeedsHttp` | app/routes/instagram_routes.py:10-11 | Matching is case-sensitive: a text in which no lower-case `h` is followed by `t` yields `None` |
| `InstagramRoutes.MatchStartsWithHt` | app/routes/instagram_routes.py:10 | Every match begins with a lower-case `h` followed by `t` |
| `InstagramRoutes.InLanguageNoSpace` | app/routes/instagram_routes.py:10 | Every string the pattern denotes is free of whitespace |
| `InstagramRoutes.NoMatchInPrefix` | app/routes/instagram_routes.py:10-11 | When a text begins with a part that holds no URL and ends in whitespace, the engine matches at no index of that part |
| `InstagramRoutes.MatchAtDelimited` | app/routes/instagram_routes.py:10 | A URL followed by whitespace or by the end of the text is matched whole at its first index |
| `InstagramRoutes.ExtractDelimited` | app/routes/instagram_routes.py:10-12 | A URL standing between whitespace, after a part with no URL, is the one returned, whole |
| `InstagramRoutes.SaveInstagramDataAsWritten` | app/routes/instagram_routes.py:15-28 | The handler as written fails exactly when the form has no `Body`. Otherwise it replies `success` with HTTP 200 and the extractor's result for `Body` |
| `InstagramRoutes.BodyOf` | app/routes/instagram_routes.py:17-18 | No contract of its own: the `Body` form field, read as the empty text when absent, which is the correction of the Findings row. `SaveInstagramData` and `JsonRequestFaults` state the reply built from it |
| `InstagramRoutes.SaveInstagramData` | app/routes/instagram_routes.py:24-28 | Every request gets status `success`, the fixed message and HTTP 200. `instagram_url` is the extractor's result for `Body`, read as the empty text when absent |
| `InstagramRoutes.SaveInstagramDataUrl` | app/routes/instagram_routes.py:17-18 | The reply carries a URL only when the form has a `Body`, and that URL is a substring of the body in the language |
| `InstagramRoutes.SaveInstagramDataAgrees` | app/routes/instagram_routes.py:15-28 | Wherever the handler as written replies, the corrected handler gives the same reply |
| `InstagramRoutes.JsonRequestFaults` | app/routes/instagram_routes.py:16-18 | A request whose form has no `Body` makes the handler as written fail. The corrected handler answers it with `success` and a null URL |
| `InstagramExamples.DelimitedMessage` | app/routes/instagram_routes.py:10-12 | A message made of text without `ht`, ending in whitespace, then a URL, then text starting with whitespace, yields that URL |
| `InstagramExamples.ReelMessage` | test_instagram_endpoint.py:17 | "Check out this reel: https://www.instagram.com/reel/ABC123xyz/" yields "https://www.instagram.com/reel/ABC123xyz/" |
| `InstagramExamples.PostMessage` | test_instagram_endpoint.py:18 | "Look at this https://instagram.com/p/DEF456/ amazing post!" yields "https://instagram.com/p/DEF456/" |
| `InstagramExamples.MessageWithoutLink` | test_instagram_endpoint.py:19 | "Just a message with no Instagram link" yields `None` |
| `InstagramExamples.TwoLinksMessage` | test_instagram_endpoint.py:20 | With two links, the first, "https://www.instagram.com/reel/GHI789/", is returned |
| `InstagramExamples.TrailingPunctuationKept` | app/routes/instagram_routes.py:10 | "Wow http://instagram.com/p/X1!" yields "http://instagram.com/p/X1!", keeping the `!` |
| `InstagramExamples.UpperCaseLink` | app/routes/instagram_routes.py:10-11 | "HTTPS://INSTAGRAM.COM/x" yields `None` |
| `InstagramExamples.ReelRequest` | test_instagram_endpoint.py:29-37 | The form-encoded reel request gets the success reply with the reel's URL |

## Findings

| source | as written | input that shows it | evidently intended | confidence | as-written member | corrected member |
|---|---|---|---|---|---|---|
| app/routes/instagram_routes.py:16-18 | `request.form.get('Body')` is `None` when the request is not form-encoded, and the extractor then raises on `None` | the JSON POST `{"Body": ...}` that test_instagram_endpoint.py:46-50 sends: its form is empty | no request crashes the handler. A missing `Body` reads as empty text, and the reply is `success` with a null URL | medium; not executed | `InstagramRoutes.SaveInstagramDataAsWritten` (shown by `InstagramRoutes.JsonRequestFaults`) | `InstagramRoutes.SaveInstagramData` |

## Left out

- Flask routing, the blueprint registration, the app factory and CORS (app/__init__.py): framework wiring with no logic.
- The `print` calls in the handler (app/routes/instagram_routes.py:21-22): logging, with no effect on the reply.
- The `sympy` import (app/routes/instagram_routes.py:5): the model uses the standard-library `re.search`, as noted above. It does not model the failure the sympy name would cause.
- The echo handlers `save_restaurants` and `save_users` (app/routes/date_routes.py, app/routes/user_routes.py): they log their JSON input and return a constant.
- The multi-valued form: Flask's `request.form` may hold several values for one key, and `.get('Body')` returns the first. The model's form is a `map<string, string>` with one value per key, so it does not capture repeated fields.
- JSON serialisation of the reply and the HTTP framing: `Response` holds the fields and the status code as values.
- How the web framework turns an uncaught exception into a 500 reply: the model shows it only as `Fault`.
- `InstagramRoutes.SaveInstagramDataUrl`: it states that the URL is a substring of `Body`. The exact position is stated by `ExtractSound` and `ExtractLeftmost`.
