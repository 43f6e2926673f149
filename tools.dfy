/**
 * The tools of `main.py`: fetching a page through the Jina Reader proxy,
 * adding two numbers, and counting a word on a fetched page. The HTTP call
 * itself is a parameter `fetch` that maps the request to a response or to a
 * transport failure.
 */
module Tools {
  import opened Wrappers
  import opened Strings
  import WordCount

  const ReaderPrefix: string := "https://r.jina.ai/"
  const ScraperUserAgent: string := "mcp-scraper/1.0"
  const ScrapeTimeoutSeconds: nat := 30

  predicate HasHttpScheme(url: string) {
    StartsWith(url, "http://") || StartsWith(url, "https://")
  }

  /**
   * The URL `scrape_web_raw` forwards: the input without surrounding
   * whitespace, with `https://` put in front unless it already names the
   * `http` or `https` scheme.
   */
  function NormalizeUrl(url: string): (r: string)
    ensures HasHttpScheme(r)
    ensures !IsSpace(r[0]) && !IsSpace(r[|r| - 1])
    ensures HasHttpScheme(Strip(url)) ==> r == Strip(url)
    ensures !HasHttpScheme(Strip(url)) ==> r == "https://" + Strip(url)
  {
    var u := Strip(url);
    if !HasHttpScheme(u) then
      var r := "https://" + u;
      assert StartsWith(r, "https://");
      r
    else u
  }

  /** The URLs normalisation leaves alone are exactly the normalised ones. */
  lemma NormalizeUrlFixedPoints(url: string)
    ensures NormalizeUrl(url) == url <==> HasHttpScheme(url) && !IsSpace(url[0]) && !IsSpace(url[|url| - 1])
  {
    if HasHttpScheme(url) && !IsSpace(url[0]) && !IsSpace(url[|url| - 1]) {
      StripNoEdgeSpace(url);
    }
  }

  lemma NormalizeUrlIdempotent(url: string)
    ensures NormalizeUrl(NormalizeUrl(url)) == NormalizeUrl(url)
  {
    NormalizeUrlFixedPoints(NormalizeUrl(url));
  }

  /** The GET request `scrape_web_raw` sends. */
  datatype Request = Request(url: string, userAgent: string, timeoutSeconds: nat)

  function ReaderRequest(url: string): (r: Request)
    ensures StartsWith(r.url, ReaderPrefix)
    ensures r.url[|ReaderPrefix|..] == NormalizeUrl(url)
    ensures r.userAgent == ScraperUserAgent && r.timeoutSeconds == ScrapeTimeoutSeconds
  {
    Request(ReaderPrefix + NormalizeUrl(url), ScraperUserAgent, ScrapeTimeoutSeconds)
  }

  /** Two inputs give the same request exactly when they normalise to the same URL. */
  lemma ReaderRequestSameTarget(u: string, v: string)
    ensures ReaderRequest(u) == ReaderRequest(v) <==> NormalizeUrl(u) == NormalizeUrl(v)
  {
    if ReaderRequest(u) == ReaderRequest(v) {
      assert ReaderRequest(u).url[|ReaderPrefix|..] == ReaderRequest(v).url[|ReaderPrefix|..];
    }
  }

  /** The HTTP response: its status code and its body decoded as text. */
  datatype Response = Response(status: int, text: string)

  /** Why `requests.get` raised: the connection, the fixed deadline, or another request error. */
  datatype TransportError = ConnectionFailed | TimedOut | OtherRequestError

  /** Why scraping failed: the request itself, or an error status found by `raise_for_status`. */
  datatype FetchError = Transport(cause: TransportError) | HttpStatusError(status: int)

  /** `raise_for_status`: a 4xx or 5xx status is an error, anything else passes. */
  function RaiseForStatus(resp: Response): (r: Result<string, FetchError>)
    ensures r.Failure? <==> 400 <= resp.status < 600
    ensures r.Failure? ==> r.error == HttpStatusError(resp.status)
    ensures r.Success? ==> r.value == resp.text
  {
    if 400 <= resp.status < 600 then Failure(HttpStatusError(resp.status)) else Success(resp.text)
  }

  /**
   * `scrape_web_raw`: one request to the reader. The page text comes back
   * exactly when the request goes through with a status outside 4xx and 5xx;
   * a transport failure propagates unchanged, and an error status becomes an
   * error carrying that status.
   */
  function ScrapeWebRaw(url: string, fetch: Request -> Result<Response, TransportError>): (r: Result<string, FetchError>)
    ensures r.Success? <==> fetch(ReaderRequest(url)).Success? && !(400 <= fetch(ReaderRequest(url)).value.status < 600)
    ensures r.Success? ==> r.value == fetch(ReaderRequest(url)).value.text
    ensures fetch(ReaderRequest(url)).Failure? ==> r == Failure(Transport(fetch(ReaderRequest(url)).error))
    ensures fetch(ReaderRequest(url)).Success? && r.Failure? ==>
              r.error == HttpStatusError(fetch(ReaderRequest(url)).value.status)
  {
    match fetch(ReaderRequest(url))
    case Failure(e) => Failure(Transport(e))
    case Success(resp) => RaiseForStatus(resp)
  }

  /** Inputs that normalise to the same URL fetch the same page with the same outcome. */
  lemma ScrapeWebRawSameTarget(u: string, v: string, fetch: Request -> Result<Response, TransportError>)
    ensures NormalizeUrl(u) == NormalizeUrl(v) ==> ScrapeWebRaw(u, fetch) == ScrapeWebRaw(v, fetch)
  {
    ReaderRequestSameTarget(u, v);
  }

  /** Scraping the normalised form of a URL is scraping the URL itself. */
  lemma ScrapeWebRawNormalized(url: string, fetch: Request -> Result<Response, TransportError>)
    ensures ScrapeWebRaw(NormalizeUrl(url), fetch) == ScrapeWebRaw(url, fetch)
  {
    NormalizeUrlIdempotent(url);
    ScrapeWebRawSameTarget(NormalizeUrl(url), url, fetch);
  }

  /** `add`: Python integers do not overflow. */
  function Add(a: int, b: int): int {
    a + b
  }

  /** `count_word_on_page`: the whole-word count on the fetched text, or the fetch's error. */
  function CountWordOnPage(url: string, word: string, fetch: Request -> Result<Response, TransportError>)
    : (r: Result<nat, FetchError>)
    ensures ScrapeWebRaw(url, fetch).Failure? ==> r == Failure(ScrapeWebRaw(url, fetch).error)
    ensures ScrapeWebRaw(url, fetch).Success? ==>
              r == Success(WordCount.CountWord(ScrapeWebRaw(url, fetch).value, word))
    ensures r.Success? && |word| > 0 ==> r.value <= |ScrapeWebRaw(url, fetch).value| / |word|
  {
    var text :- ScrapeWebRaw(url, fetch);
    Success(WordCount.CountWord(text, word))
  }
}
