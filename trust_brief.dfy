/** The trust-brief service: the bearer-token check behind `/mcp/validate`
    and the analyzer behind `/mcp/analyze_claim`. The outbound GET, the
    clock and the process environment are not modelled: their outcomes
    come in as parameters. */
module TrustBrief {
  import opened PyStr

  datatype Option<T> = None | Some(value: T)

  // ---------------------------------------------------------------------
  // Configuration and the validate endpoint

  /** The two read-only settings, `OWNER_PHONE` and `VALIDATION_TOKEN`. */
  datatype Config = Config(ownerPhone: string, validationToken: string)

  /** The settings used when the environment does not provide them. */
  const DefaultConfig := Config("919999999999", "changeme")

  datatype HttpError = HttpError(status: nat, detail: string)

  const Unauthorized := HttpError(401, "invalid bearer_token")

  datatype ValidateResult = Validated(phone: string) | Rejected(error: HttpError)

  /** `validate`: the submitted token is compared for equality with the
      configured one; a mismatch is a 401, a match yields the owner phone. */
  function Validate(cfg: Config, bearerToken: string): (r: ValidateResult)
    ensures r.Rejected? <==> bearerToken != cfg.validationToken
    ensures r.Rejected? ==> r.error == Unauthorized
    ensures r.Validated? ==> r.phone == cfg.ownerPhone
  {
    if bearerToken != cfg.validationToken then Rejected(Unauthorized)
    else Validated(cfg.ownerPhone)
  }

  /** Exactly one token is accepted, and every accepted call answers the
      same phone. */
  lemma ValidateAcceptsOneToken(cfg: Config, t1: string, t2: string)
    requires Validate(cfg, t1).Validated? && Validate(cfg, t2).Validated?
    ensures t1 == t2 == cfg.validationToken
    ensures Validate(cfg, t1) == Validate(cfg, t2) == Validated(cfg.ownerPhone)
  {
  }

  /** With the default settings, `changeme` is the one accepted token and
      it yields the phone `919999999999`. */
  lemma DefaultConfigValidate(bearerToken: string)
    ensures Validate(DefaultConfig, bearerToken) ==
              if bearerToken == "changeme" then Validated("919999999999") else Rejected(Unauthorized)
  {
  }

  // ---------------------------------------------------------------------
  // Title extraction

  const OpenTag := "<title>"
  const CloseTag := "</title>"
  const TitleLimit := 140
  const FallbackTitle := "Source"

  /** `pat` occurs at `i` and nowhere before: what `find` returns. */
  predicate FirstAt(s: string, pat: string, i: int) {
    OccursAt(s, pat, i) && forall k :: 0 <= k < i ==> !OccursAt(s, pat, k)
  }

  /** A `</title>` that starts after a `<title>` starts cannot overlap it,
      since no character of `title>` is `<`: the slice between the two tags
      is well formed. */
  lemma TagsDoNotOverlap(lo: string, s: int, e: int)
    requires OccursAt(lo, OpenTag, s) && OccursAt(lo, CloseTag, e) && s < e
    ensures s + |OpenTag| <= e
  {
    assert lo[e] == lo[e..e + |CloseTag|][0] == '<';
    forall k | s < k < s + |OpenTag| && k < |lo| ensures lo[k] != '<' {
      assert lo[k] == lo[s..s + |OpenTag|][k - s] == OpenTag[k - s];
    }
  }

  /** `inner.strip()[:140]` */
  function TitleText(inner: string): (t: string)
    ensures |t| <= TitleLimit
    ensures t == [] || !IsSpace(t[0])
    ensures |Strip(inner)| <= TitleLimit ==> Trimmed(t)
    ensures |t| <= |Strip(inner)| && t == Strip(inner)[..|t|]
    ensures |t| == if |Strip(inner)| <= TitleLimit then |Strip(inner)| else TitleLimit
  {
    Take(Strip(inner), TitleLimit)
  }

  /** A title already free of surrounding whitespace and within the limit
      is kept as it is. */
  lemma TitleTextOfTrimmed(inner: string)
    requires Trimmed(inner) && |inner| <= TitleLimit
    ensures TitleText(inner) == inner
  {
    assert inner[0..|inner|] == inner && inner[..0] == [] && inner[|inner|..] == [];
    StripUnique(inner, 0, |inner|);
  }

  /** The title scrape: the first `<title>` and the first `</title>` of the
      lower-cased body are looked up independently of each other; when the
      closing one starts after the opening one, the original-case text
      between them, stripped and cut to 140 characters, is the title. */
  function ExtractTitle(html: string): (title: Option<string>)
    ensures title.Some? ==> |title.value| <= TitleLimit
    ensures title.Some? ==> title.value == [] || !IsSpace(title.value[0])
  {
    var lo := Lower(html);
    var s := Find(lo, OpenTag);
    var e := Find(lo, CloseTag);
    if s != -1 && e != -1 && e > s then
      TagsDoNotOverlap(lo, s, e);
      Some(TitleText(html[s + |OpenTag|..e]))
    else
      None
  }

  /** `title or "Source"` */
  function CitationTitle(title: Option<string>): (t: string)
    ensures t != []
    ensures title.Some? && title.value != [] ==> t == title.value
    ensures title.None? || title.value == [] ==> t == FallbackTitle
  {
    if title.Some? && title.value != [] then title.value else FallbackTitle
  }

  /** When the first `<title>` of the lower-cased body is at `i` and its
      first `</title>` at `j`, a title is extracted exactly when `i < j`,
      and it is then taken from the original-case text between the tags. */
  lemma ExtractTitleAt(html: string, i: int, j: int)
    requires FirstAt(Lower(html), OpenTag, i) && FirstAt(Lower(html), CloseTag, j)
    ensures i < j ==> i + |OpenTag| <= j <= |html| &&
                      ExtractTitle(html) == Some(TitleText(html[i + |OpenTag|..j]))
    ensures j <= i ==> ExtractTitle(html) == None
  {
    var lo := Lower(html);
    FirstIsFind(lo, OpenTag, i);
    FirstIsFind(lo, CloseTag, j);
    if i < j { TagsDoNotOverlap(lo, i, j); }
  }

  lemma FirstIsFind(s: string, pat: string, i: int)
    requires FirstAt(s, pat, i)
    ensures Find(s, pat) == i
  {
  }

  /** Without a `<title>` or without a `</title>` in the lower-cased body,
      nothing is extracted. */
  lemma NoTagNoTitle(html: string)
    requires (forall i :: !OccursAt(Lower(html), OpenTag, i)) ||
             (forall j :: !OccursAt(Lower(html), CloseTag, j))
    ensures ExtractTitle(html) == None
  {
    var lo := Lower(html);
    if forall i :: !OccursAt(lo, OpenTag, i) {
      assert Find(lo, OpenTag) == -1;
    } else {
      assert forall j :: !OccursAt(lo, CloseTag, j);
      assert Find(lo, CloseTag) == -1;
    }
  }

  /** The naive scrape's quirk: a `</title>` that starts no later than every
      `<title>` (a stray closing tag before the real title, or a closing tag
      with no opening one) defeats the extraction, whatever follows it. */
  lemma StrayCloseTagDefeatsTitle(html: string, k: int)
    requires OccursAt(Lower(html), CloseTag, k)
    requires forall i :: OccursAt(Lower(html), OpenTag, i) ==> k < i
    ensures ExtractTitle(html) == None
  {
    var lo := Lower(html);
    var s, e := Find(lo, OpenTag), Find(lo, CloseTag);
    assert e != -1 && e <= k;
    if s != -1 {
      assert OccursAt(lo, OpenTag, s);
    }
  }

  /** The title that ends up in the citation is never empty, at most 140
      characters long and does not begin with whitespace; it is either the
      fallback or the stripped, truncated text between the two tags. */
  lemma CitationTitleShape(html: string)
    ensures var t := CitationTitle(ExtractTitle(html));
      t != [] && |t| <= TitleLimit && !IsSpace(t[0]) &&
      (t == FallbackTitle ||
       exists i, j :: 0 <= i <= j <= |html| && t == TitleText(html[i..j]) &&
                      OccursAt(Lower(html), OpenTag, i - |OpenTag|) && OccursAt(Lower(html), CloseTag, j))
  {
    var lo := Lower(html);
    var s, e := Find(lo, OpenTag), Find(lo, CloseTag);
    var t := CitationTitle(ExtractTitle(html));
    if t != FallbackTitle {
      assert s != -1 && e != -1 && e > s;
      TagsDoNotOverlap(lo, s, e);
      var i := s + |OpenTag|;
      assert t == TitleText(html[i..e]);
      assert OccursAt(lo, OpenTag, i - |OpenTag|);
    }
  }

  /** Cutting to 140 characters happens after stripping, so a long title
      whose 140th character is whitespace keeps that whitespace at its end:
      the title is free of surrounding whitespace only when the stripped
      text fits the limit. */
  lemma TruncatedTitleMayEndInSpace(inner: string)
    requires |inner| > TitleLimit && Trimmed(inner) && IsSpace(inner[TitleLimit - 1])
    ensures |TitleText(inner)| == TitleLimit
    ensures IsSpace(TitleText(inner)[TitleLimit - 1])
  {
    assert inner[..|inner|] == inner && inner[..0] == [] && inner[|inner|..] == [];
    StripUnique(inner, 0, |inner|);
  }

  /** The page `<title>Example</title>` yields the title `Example`. */
  lemma ExampleTitle(html: string)
    requires html == "<title>Example</title>"
    ensures ExtractTitle(html) == Some("Example")
  {
    assert html[7..14] == "Example";
    TitleTextOfTrimmed(html[7..14]);
    ExampleTags(html);
    ExtractTitleAt(html, 0, 14);
  }

  lemma ExampleTags(html: string)
    requires html == "<title>Example</title>"
    ensures FirstAt(Lower(html), OpenTag, 0) && FirstAt(Lower(html), CloseTag, 14)
  {
    var lo := Lower(html);
    assert forall k :: 0 <= k < |html| && k != 7 ==> lo[k] == html[k];
    assert lo[..7] == html[..7] == OpenTag;
    assert lo[14..] == html[14..] == CloseTag;
    forall k | 0 <= k < 14 ensures !OccursAt(lo, CloseTag, k) {
      assert lo[k + 1] != '/';
      assert k + 8 <= |lo| ==> lo[k..k + 8][1] == lo[k + 1];
    }
  }

  // ---------------------------------------------------------------------
  // The analyze endpoint

  const HttpScheme := "http://"
  const HttpsScheme := "https://"

  /** Case-sensitive, exact-prefix classification of the stripped input. */
  predicate IsUrl(text: string)
    ensures IsUrl(text) <==> (|text| >= 7 && text[..7] == "http://") || (|text| >= 8 && text[..8] == "https://")
  {
    StartsWith(text, HttpScheme) || StartsWith(text, HttpsScheme)
  }

  /** Whitespace around the input never changes how it is classified. */
  lemma ClassificationIgnoresPadding(pre: string, input: string, post: string)
    requires AllSpace(pre) && AllSpace(post)
    ensures IsUrl(Strip(pre + input + post)) == IsUrl(Strip(input))
  {
    StripPadded(pre, input, post);
  }

  /** An input classified as a URL is a scheme followed by something, so the
      empty input and any input of whitespace only are text claims. */
  lemma UrlInputIsLong(input: string)
    requires IsUrl(Strip(input))
    ensures |Strip(input)| >= |HttpScheme| && Strip(input)[..4] == "http"
  {
    var t := Strip(input);
    if StartsWith(t, HttpScheme) {
      assert t[..4] == t[..|HttpScheme|][..4];
    } else {
      assert t[..4] == t[..|HttpsScheme|][..4];
    }
  }

  /** What the single outbound GET of the stripped input produced: the final
      URL after redirects and the body as text, or any failure at all. */
  datatype FetchOutcome = Fetched(url: string, body: string) | FetchFailed

  datatype Citation = Citation(title: string, source: string, link: Option<string>)

  /** `confidence` is the decimal literal 0.4, kept here as an exact real. */
  datatype AnalyzeOutput = AnalyzeOutput(
    verdict: string,
    bullets: seq<string>,
    citations: seq<Citation>,
    confidence: real,
    latencyMs: nat)

  const Verdict := "unverified"
  const Confidence: real := 0.4
  const LinkSource := "Link"
  const MaxBullets := 3
  const MaxCitations := 1

  const ScannedBullet := "Scanned the linked page and extracted the title."
  const TimedOutBullet := "Tried to fetch the link but timed out; treated as text."
  const TextBullet := "Processed as a text claim; no external link provided."
  const MvpBullet := "MVP result: preliminary only, not a full fact-check."

  /** `analyze_claim`: the bullets and citations are built by appending in
      the handler's order, then cut to their caps. `fetch` is consulted only
      for a URL input; `latencyMs` is the measured duration, passed through. */
  method AnalyzeClaim(input: string, fetch: FetchOutcome, latencyMs: nat) returns (out: AnalyzeOutput)
    ensures out.verdict == Verdict && out.confidence == Confidence && out.latencyMs == latencyMs
    ensures 1 <= |out.bullets| <= MaxBullets && out.bullets[|out.bullets| - 1] == MvpBullet
    ensures |out.citations| <= MaxCitations
    ensures !IsUrl(Strip(input)) ==> out.bullets == [TextBullet, MvpBullet] && out.citations == []
    ensures IsUrl(Strip(input)) && fetch.FetchFailed? ==>
              out.bullets == [TimedOutBullet, MvpBullet] && out.citations == []
    ensures IsUrl(Strip(input)) && fetch.Fetched? ==>
              out.bullets == [ScannedBullet, MvpBullet] &&
              out.citations == [Citation(CitationTitle(ExtractTitle(fetch.body)), LinkSource, Some(fetch.url))]
  {
    var text := Strip(input);
    var citations: seq<Citation> := [];
    var bullets: seq<string> := [];
    if IsUrl(text) {
      match fetch
      case Fetched(url, html) =>
        var title := ExtractTitle(html);
        citations := citations + [Citation(CitationTitle(title), LinkSource, Some(url))];
        bullets := bullets + [ScannedBullet];
      case FetchFailed =>
        bullets := bullets + [TimedOutBullet];
    } else {
      bullets := bullets + [TextBullet];
    }
    bullets := bullets + [MvpBullet];
    out := AnalyzeOutput(Verdict, Take(bullets, MaxBullets), Take(citations, MaxCitations), Confidence, latencyMs);
  }
}
