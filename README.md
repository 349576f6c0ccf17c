# Trust-brief service, modelled in Dafny

A model of the request logic of a small MCP ("Model Context Protocol" tool
integration) service, `puch-trust-brief`. It has two endpoints with logic:

- `validate` compares a submitted bearer token with the configured
  `VALIDATION_TOKEN`. A mismatch is an HTTP 401 with the detail
  `invalid bearer_token`. A match returns the configured `OWNER_PHONE`.
- `analyze_claim` strips the input and classifies it as a URL exactly when
  it starts with `http://` or `https://`. For a URL whose page was fetched,
  it scrapes the page title naively and adds one citation. It always ends
  the bullets with the MVP line, caps bullets at 3 and citations at 1, and
  answers the constant verdict `unverified` with confidence 0.4.

Two modules:

- `PyStr` (`pystr.dfy`) models the Python `str` operations the handler uses:
  `strip()`, `lower()`, `find()`, `startswith()` and the slice `[:n]`.
  `Strip` is characterised independently of how it is computed:
  `StripSpan` says it cuts only whitespace from the two ends, and
  `StripUnique` says any such cut that leaves a trimmed string is `Strip`.
- `TrustBrief` (`trust_brief.dfy`) models the configuration, `Validate`, the
  title scrape (`ExtractTitle`, `CitationTitle`) and the handler
  `AnalyzeClaim`. `AnalyzeClaim` is a method that appends to local `bullets`
  and `citations` sequences in the handler's order.

The outbound HTTP GET is not performed. Its outcome is an input,
`FetchOutcome = Fetched(url, body) | FetchFailed`. `Fetched` carries the
final URL after redirects and the body text. `FetchFailed` stands for any
exception in the `try` block. The measured latency is an input `latencyMs: nat`
that is passed through unchanged.

The response records are datatypes with the source's fields:
`Citation(title, source, link)` is the Pydantic `Citation`
(`app/main.py:22-25`), with `link` an `Option<string>` for `Optional[str]`;
`AnalyzeOutput(verdict, bullets, citations, confidence, latencyMs)` is the
Pydantic `AnalyzeOutput` (`app/main.py:27-32`). `Config(ownerPhone,
validationToken)` holds the two settings read at `app/main.py:10-11`.

The scrape does not look for the first `</title>` after the opening tag.
`app/main.py:70-73` finds the first `</title>` anywhere in the lower-cased
body and requires it to start after the first `<title>`.
`StrayCloseTagDefeatsTitle` proves that a `</title>` placed before every
`<title>` makes the scrape fall back to `Source`.

Stripping happens before truncation (`strip()[:140]`). So a stripped title
longer than 140 characters can end in whitespace. `TitleText` promises no
trailing whitespace only when the stripped text fits the limit, and
`TruncatedTitleMayEndInSpace` shows the other case.

## Model

| member | source | states |
|---|---|---|
| `PyStr.TrimStart` | app/main.py:58 | left half of `strip()`: the result is no longer than the input, everything cut is whitespace, and the result does not start with whitespace |
| `PyStr.TrimEnd` | app/main.py:58 | right half of `strip()`: the result is no longer than the input, everything cut is whitespace, and the result does not end with whitespace |
| `PyStr.TrimStartIsSuffix` | app/main.py:58 | what the left cut keeps is a suffix of the input |
| `PyStr.TrimEndIsPrefix` | app/main.py:58 | what the right cut keeps is a prefix of the input |
| `PyStr.Strip` | app/main.py:58 | `strip()` yields a string no longer than its input that neither starts nor ends with whitespace |
| `PyStr.TrimStartAt` | app/main.py:58 | the left cut stops exactly at the first non-whitespace character |
| `PyStr.TrimEndAt` | app/main.py:58 | the right cut stops exactly after the last non-whitespace character |
| `PyStr.StripSpan` | app/main.py:58 | `strip()` returns a slice `s[i..j]` of its input with only whitespace before `i` and after `j` |
| `PyStr.StripUnique` | app/main.py:58 | any slice with only whitespace around it that is itself trimmed equals `strip()`'s result |
| `PyStr.StripPadded` | app/main.py:58 | adding whitespace on either side of the input does not change `strip()`'s result |
| `PyStr.IsSpace` | app/main.py:58 | the whitespace `strip()` removes includes space, tab, newline and carriage return and no visible ASCII character |
| `PyStr.StripIdempotent` | app/main.py:58 | stripping twice equals stripping once |
| `PyStr.LowerChar` | app/main.py:69 | `lower()` on one character: `A`..`Z` map to `a`..`z` and every other character is unchanged |
| `PyStr.Lower` | app/main.py:69 | `lower()` keeps the length and lowers each character in place, so indices into the lowered body are indices into the original body |
| `PyStr.FindFrom` | app/main.py:70-71 | returns -1 exactly when the pattern occurs at no index at or after `from`; otherwise it returns an index where the pattern occurs and there is no occurrence between `from` and that index |
| `PyStr.Find` | app/main.py:70-71 | `find()` returns -1 exactly when the pattern occurs nowhere; otherwise it returns the first index where the pattern occurs |
| `PyStr.StartsWith` | app/main.py:64 | `startswith(p)` holds exactly when `p` is no longer than the string and equals its first `len(p)` characters |
| `PyStr.Take` | app/main.py:74 | `[:n]` returns a prefix of length `min(n, len)`, and the input itself when it already fits |
| `TrustBrief.Validate` | app/main.py:49-53 | the call is rejected with 401 `invalid bearer_token` exactly when the token differs from the configured one; otherwise it returns the configured phone |
| `TrustBrief.DefaultConfigValidate` | app/main.py:10-11 | with the default settings, `changeme` is the only accepted token and it returns the phone `919999999999`; every other token gets the 401 |
| `TrustBrief.ValidateAcceptsOneToken` | app/main.py:51-53 | only the configured token is accepted, and every accepted call returns the same phone |
| `TrustBrief.TagsDoNotOverlap` | app/main.py:70-74 | when a `</title>` starts after a `<title>`, it starts at least 7 characters later, so the slice `html[s+7:e]` is well formed |
| `TrustBrief.TitleText` | app/main.py:74 | `strip()[:140]` has at most 140 characters and does not start with whitespace; it has no trailing whitespace when the stripped text fits in 140; it is a prefix of the stripped text whose length is `min(len(stripped), 140)` |
| `TrustBrief.TitleTextOfTrimmed` | app/main.py:74 | a title with no surrounding whitespace and at most 140 characters is kept unchanged |
| `TrustBrief.ExtractTitle` | app/main.py:69-74 | an extracted title has at most 140 characters and does not start with whitespace |
| `TrustBrief.CitationTitle` | app/main.py:75 | `title or "Source"` is never empty; it is the title when one was found and non-empty, otherwise `Source` |
| `TrustBrief.ExtractTitleAt` | app/main.py:69-74 | let the first `<title>` of the lowered body be at `i` and its first `</title>` at `j`. If `i < j`, the title is the original-case text between the tags, stripped and cut to 140, and the slice is in bounds. If `j <= i`, there is no title |
| `TrustBrief.NoTagNoTitle` | app/main.py:70-73 | a body whose lowered form lacks `<title>`, or lacks `</title>`, yields no title |
| `TrustBrief.StrayCloseTagDefeatsTitle` | app/main.py:71-73 | a `</title>` that starts before every `<title>` yields no title, whatever follows it |
| `TrustBrief.CitationTitleShape` | app/main.py:69-75 | the citation title is non-empty, at most 140 characters, does not start with whitespace, and is either `Source` or the stripped, truncated text between a `<title>` and a `</title>` of the body |
| `TrustBrief.TruncatedTitleMayEndInSpace` | app/main.py:74 | a trimmed text longer than 140 whose 140th character is whitespace gives a 140-character title that ends in whitespace |
| `TrustBrief.ExampleTitle` | app/main.py:66-75 | the body `<title>Example</title>` yields the title `Example` |
| `TrustBrief.ExampleTags` | app/main.py:69-71 | in `<title>Example</title>` the first `<title>` is at 0 and the first `</title>` is at 14 |
| `TrustBrief.IsUrl` | app/main.py:64 | the stripped input is a URL exactly when its first 7 characters are `http://` or its first 8 are `https://` (case-sensitive) |
| `TrustBrief.ClassificationIgnoresPadding` | app/main.py:58-64 | whitespace around the input never changes whether it is classified as a URL |
| `TrustBrief.UrlInputIsLong` | app/main.py:58-64 | an input classified as a URL is at least 7 characters long after stripping and starts with `http`, so the empty input and an input of only whitespace are text claims |
| `TrustBrief.AnalyzeClaim` | app/main.py:55-90 | the verdict is `unverified`, the confidence is 0.4 and the latency is passed through. There are 1 to 3 bullets, the last being the MVP line, and at most 1 citation. A text claim gets `[text line, MVP line]` and no citation. A URL whose fetch failed gets `[timed-out line, MVP line]` and no citation. A fetched URL gets `[scanned line, MVP line]` and one citation: the scraped title, source `Link`, link the resolved URL |

## Left out

- The outbound GET (`httpx.get`, redirects, the 6-second timeout): network I/O. It is an input `FetchOutcome`, and every failure is one case, as in the broad `except Exception`. The model does not tie the fetched URL to the stripped input.
- `time.time()` and the latency arithmetic: wall-clock and floating point. `latencyMs` is an input.
- `confidence` as a float: it is the exact real `0.4`.
- `health` and `mcp_metadata` (app/main.py:34-47): they return constant dictionaries and have no logic.
- FastAPI routing, the Pydantic models and the mapping of `HTTPException` to a response: framework plumbing. The 401 is the value `Rejected(HttpError(401, "invalid bearer_token"))`.
- Reading `OWNER_PHONE` and `VALIDATION_TOKEN` from the environment: the configuration is a `Config` value. `DefaultConfig` holds the defaults `919999999999` and `changeme`.
- `(payload.input or "")`: the request model requires a string, so the input is never `None`. The empty string is modelled.
- `PyStr.Lower`: does not model full Unicode `str.lower()`. It lowers `A`..`Z` only and keeps the length. Python's `lower()` can change the length for a few characters (for example U+0130), which would shift the indices used on the original-case body. No other character lowers to a letter of `title`, so the tag search is exact for any body without such characters.
- `PyStr.IsSpace`: this is the explicit set of code points for which Python's `str.isspace()` is true. It is a fixed table, not derived from the Unicode database.
