# MCP server demo: a verified model of its text and list logic

The repository has two parts:

- An MCP server with three tools. `scrape_web` fetches a web page as markdown through the Jina Reader proxy. `add` adds two numbers. `count_word_on_page` counts the whole-word, case-insensitive occurrences of a word on a fetched page.
- A small script that builds a search index over the markdown documents of zipped repositories.

This project models the logic of both parts that is not I/O or a third-party library, and proves its properties:

- **Search** (`search.dfy`, from `search.py`): the document loader `iter_markdown_docs_from_all_zips`.
  - The model walks a sequence of archives in their sorted order.
  - Within each archive it walks the entries in `namelist()` order.
  - It skips directory markers, non-markdown names and names without a `/`.
  - For each entry it keeps, it stores the name after its first `/` together with the decoded bytes.
  - This module also holds the truncation `results[:k]` of the `search` wrapper.
- **Tools** (`tools.dfy`, from `main.py`): the tools of `main.py`.
  - URL normalisation.
  - The request sent to the reader.
  - `raise_for_status`.
  - `scrape_web_raw`, `count_word_on_page` and `add`.
- **WordCount** (`wordcount.dfy`): `re.findall(r"\b<word>\b", text, re.IGNORECASE)` as a recursive scan over the text.
- **Strings** (`strings.dfy`): the Python string operations the core relies on: `str.strip`, `str.lower`, `str.split(sep, 1)`, `startswith` and `endswith`.
- **Wrappers** (`wrappers.dfy`): `Option` and `Result`.

The loader is imperative in the source and imperative here. `Search.LoadMarkdownDocs` is the loop over archives. Each archive's loop over entries is `Search.LoadArchiveDocs`, which is the body of the `with zipfile.ZipFile(...)` block. Both methods are proved equal to the functions `Search.AllDocs` and `Search.ArchiveDocs`, and the properties of the output are proved as lemmas about those functions.

Outside effects become parameters:

- The UTF-8 decoding of an entry's bytes is a function `decode`.
- The HTTP GET is a function `fetch` from a `Request` (URL, user agent and timeout) to either a `Response` or a transport error.
- The search engine is a function from the query and an optional result count to a list of results.

`z.read(name)` looks entries up by name. So when an archive holds two entries with the same name, both documents carry the decoded bytes of the later entry (`Search.LastIndexNamed`, `Search.DuplicateNameExample`).

`add` is `Tools.Add`, the unbounded integer sum `a + b`: Python integers do not overflow. It has no contract beyond its one-line body, since the promised property is that body.

## Model

| member | source | states |
|---|---|---|
| Search.SelectName | search.py:38-50 | An entry name yields a filename exactly when it does not end with `/`, its lowercase form ends with `.md` or `.mdx`, and it contains a `/` |
| Search.SelectNameStripsFirstComponent | search.py:45-50 | The filename is the entry name with its first path component and the first `/` removed: `name == head + "/" + filename` with no `/` in `head` |
| Search.SelectedNameIsMarkdown | search.py:41-50 | A stored filename still has a `.md`/`.mdx` extension and does not end with `/` |
| Search.SelectNameBelowRoot | search.py:45-50 | Conversely, every markdown name `root/path` whose root has no `/` is stored as `path` |
| Search.WelcomePageExample | search.py:30-31 | `fastmcp-main/docs/getting-started/welcome.mdx` is stored as `docs/getting-started/welcome.mdx` |
| Search.LastIndexNamed | search.py:51 | `z.read(name)` reads the entry with that name that comes last in the archive: the index holds the name, and no later entry does |
| Search.KeptIndices | search.py:37-48 | The kept entry positions are increasing and below the bound, and a position is listed iff its entry passes all three guards |
| Search.ArchiveDocsAreKeptEntries | search.py:37-53 | An archive gives one document per kept entry, in entry order: the k-th document is built from the k-th kept entry |
| Search.DocumentProvenance | search.py:38-53 | Every document of an archive comes from an entry that is not a directory, has a markdown extension and contains a `/`. The document's filename is that entry's name without its first component, and its content is the decoded bytes read under that name |
| Search.AllDocsBound | search.py:35-53 | There are at most as many documents as entries across all archives |
| Search.AllDocsAppend | search.py:35-37 | The output for archives `xs + ys` is the output for `xs` followed by the output for `ys`: archive order is kept |
| Search.DuplicateNameExample | search.py:37-53 | Two entries named `r/x.md` are both kept as `x.md`, and both documents carry the bytes of the later entry |
| Search.SmallArchiveExample | search.py:37-53 | An archive holding `pkg-root/docs/a.md`, `pkg-root/readme.txt` and the directory `pkg-root/docs/` gives the single document `docs/a.md` |
| Search.LoadArchiveDocs | search.py:36-53 | The entry loop with its three `continue` guards builds exactly the documents of the archive, in entry order |
| Search.LoadMarkdownDocs | search.py:27-55 | The nested loops return exactly the concatenation, in archive order, of every archive's documents |
| Search.SlicePrefix | search.py:87 | `results[:k]` is a prefix of `results`. For `k >= 0` its length is `min(k, len(results))`. For negative `k` its length is `max(0, len(results) + k)` |
| Search.SlicePrefixIdempotent | search.py:87 | For `k >= 0`, truncating twice to the same `k` changes nothing |
| Search.RunSearch | search.py:69-87 | With a result-count parameter, the engine's list is returned unchanged. Otherwise the result is a prefix of the engine's default list, of length `min(k, len)` for `k >= 0` and `max(0, len + k)` for negative `k` |
| Strings.Strip | main.py:9 | `strip()` removes every leading and trailing whitespace character and keeps a contiguous slice of the input, with no whitespace at either end |
| Strings.StripIdempotent | main.py:9 | Stripping twice is stripping once |
| Strings.SplitOnce | search.py:46-47 | `split("/", 1)` gives one part (the whole name) iff there is no `/`, and otherwise the text before the first `/` and the text after it |
| Strings.AsciiLower | search.py:41 | `lower()` keeps the length and lowercases each character |
| WordCount.FindAllFrom | main.py:42 | The reported match starts lie within the text, in increasing order, and each is at least one word length after the previous one: the matches do not overlap |
| WordCount.FindAllFromSound | main.py:41-42 | Every reported position is a case-insensitive occurrence of the word with a word boundary on each side |
| WordCount.FindAllFromComplete | main.py:41-42 | Every match position is reported or overlaps a match reported before it (leftmost, non-overlapping scanning) |
| WordCount.FindAllExact | main.py:36-42 | For a word made of word characters, a position is reported iff `\b<word>\b` matches there |
| WordCount.FindAllFromBound | main.py:42 | Non-overlapping matches of a non-empty word fit into the scanned text: `count * len(word) <= len(text) - i` |
| WordCount.CountWord | main.py:35-42 | For a non-empty word the count is at most `len(text) / len(word)` |
| WordCount.CatExample | main.py:36-42 | In `"The cat sat. CATCH the cat!"` the word `"cat"` is counted twice: case is ignored, and the `CAT` inside `CATCH` is not counted |
| Tools.NormalizeUrl | main.py:9-12 | The normalised URL starts with `http://` or `https://` and has no whitespace at either end. It is the stripped input when that already has the scheme, and `"https://"` plus the stripped input otherwise |
| Tools.NormalizeUrlFixedPoints | main.py:9-12 | Normalisation leaves a URL unchanged iff the URL has an `http(s)://` prefix and no edge whitespace |
| Tools.NormalizeUrlIdempotent | main.py:9-12 | Normalising twice is normalising once |
| Tools.ReaderRequest | main.py:14-17 | The GET goes to `https://r.jina.ai/` followed by the normalised URL, with user agent `mcp-scraper/1.0` and a 30-second timeout |
| Tools.ReaderRequestSameTarget | main.py:9-14 | Two inputs send the same request iff they normalise to the same URL |
| Tools.RaiseForStatus | main.py:18 | The response is an error iff its status is 4xx or 5xx, the error carries that status, and otherwise the page text is returned |
| Tools.ScrapeWebRaw | main.py:7-19 | The outcome depends only on `fetch(ReaderRequest(url))`. The page text is returned exactly when the request goes through with a status outside 400-599. A transport failure propagates wrapped in `Transport`, and an error status becomes `HttpStatusError` with that status |
| Tools.ScrapeWebRawSameTarget | main.py:9-19 | Two inputs that normalise to the same URL scrape with the same outcome |
| Tools.ScrapeWebRawNormalized | main.py:9-19 | Scraping the normalised form of a URL gives the same outcome as scraping the URL |
| Tools.CountWordOnPage | main.py:35-42 | A fetch failure propagates. Otherwise the result is the whole-word count on the fetched text, at most `len(text) / len(word)` for a non-empty word |

## Left out

- HTTP and file-system effects: downloading the archive once, `mkdir`, the size check and `write_bytes` (`download_zip_if_needed`). The real network call of `scrape_web_raw` is a `fetch` parameter. `fetch` can fail only with a `TransportError`: a connection failure, a timeout, or `OtherRequestError`, which stands for every other exception `requests.get` raises, such as `TooManyRedirects` or `InvalidURL`. These are not told apart. Only `raise_for_status` produces `HttpStatusError`.
- Finding the archives: `glob("*.zip")` and `sorted`. The archives come in as a sequence already in sorted order, each one the sequence of its entries in `namelist()` order.
- Failures to open or read an archive: `zipfile.ZipFile` raises `BadZipFile` on a corrupt archive, and `z.read` raises on a CRC mismatch or an encrypted entry. In the model, loading an archive cannot fail.
- UTF-8 decoding with `errors="ignore"`: a `decode` parameter.
- The minsearch `Index` (`build_index`, ranking, `idx.search`): a function parameter whose behaviour is not modelled.
- The default `k=5` of `search`: `Search.RunSearch` always takes `k`.
- The `TypeError` probing in `search`: reduced to the `SearchSignature` datatype that names which call form the engine accepts.
- Regular-expression details beyond the pattern used:
  - Word characters are ASCII letters, digits and `_`.
  - Case folding is ASCII. Python's Unicode `\w` and Unicode case-insensitive matching are not modelled.
  - A `word` containing non-word characters is searched for literally, as `re.escape` does.
- WordCount.FindAllExact: proved only for words made of word characters. For other words, soundness and the leftmost, non-overlapping completeness of `FindAllFromSound` and `FindAllFromComplete` still hold.
- Strings.AsciiLower: `str.lower()` is modelled on ASCII letters only, so non-ASCII names are compared without their Unicode lowercase mapping.
- The FastMCP registration and `mcp.run()`, the `scrape_web` wrapper (it only calls `scrape_web_raw`), the printing `main` of `search.py`, and `test.py`, a manual network smoke test.
