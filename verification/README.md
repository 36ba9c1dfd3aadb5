# Mandalorian art grabber: a Dafny model of the scraper's decisions

The program scrapes concept-art galleries in three stages joined by channels:

1. `generateGalleryURLs` emits two gallery URLs per chapter, for chapters 1 to 16.
2. `downloadGalleryHTML` fetches each page, runs `parseForPic` on it, and pushes the pictures it finds.
3. `downloadPic` cuts each caption, builds a file name, and downloads the picture into that file.

This project models the pure decisions inside those stages as functions over sequences and byte strings, and proves their properties. It leaves out the goroutines, channels, HTTP and parsing libraries around those decisions.

Modules:

- `Wrappers`: `Option` and `Result`.
- `ByteStrings`: Go strings as byte sequences (`seq<uint8>`). `len` and slicing act on bytes.
- `Decimal`: `%d` rendering of an integer. A parser that inverts it is not in the program; it exists only to prove that the rendering is injective.
- `Cancellation`: the cancellation context, reduced to the first loop check that sees it done (`CancelledAt(k)`). A Go context never becomes un-cancelled, so every later check sees it done too.
- `Gallery`: the chapter list from `main`, the two URL templates, and the URL enumeration with cancellation.
- `Parse`: the document as `parseForPic` sees it. The page is abstracted as:
  - whether the script node has text;
  - whether the error-page article is present;
  - what the regex, JSON and mapstructure layers return.
  The module has the parser as written and a corrected parser (see Findings).
- `Fetch`: the fetch loop as a fold over page outcomes, plus the number of error log lines.
- `Download`: the caption cut, the file-name layout, one picture's handling, and the worker calls.
- `Pipeline`: one chapter taken end to end.

A gallery URL is a template paired with a chapter (`GalleryUrl`). `Text` renders it as the exact string `fmt.Sprintf` builds. Two different pairs never render the same string. Every character in the URL strings is ASCII, so one character is one byte. Picture fields (URL, caption, ID) are `Bytes`, so the caption cut is a byte cut, as in Go.

Two behaviours of the code a reader might not expect:

- **The workers run one after another.** `main` calls `downloadPic` five times without `go`. The first call whose directory creation succeeds takes pictures until the stream closes or a received picture finds the context done; that picture is dropped. Later calls find the stream closed, or each takes one picture and drops it because the context is done. `Download.RunWorkers` models this.
- **The effective caption limit is 65 bytes, not 64.** The guard is `> 64` but the cut keeps `[:64+1]`. So every caption of up to 65 bytes is kept whole and every longer one becomes 65 bytes. The guard and the cut are consistent with a 65-byte limit, so this is not listed as a finding.

## Model

| member | source | states |
|---|---|---|
| Gallery.ChapterRange | main.go:35-38 | the loop yields every integer from start to end in increasing order: element i is start + i, and the length is end - start + 1 (0 when start > end) |
| Gallery.MainChapters | main.go:22-38 | the chapter list `main` builds is exactly 1..16: length 16, element i is i + 1, strictly increasing |
| Decimal.FormatInt | main.go:70-71 | `%d` gives a non-empty numeral, which starts with '-' exactly when the number is negative and has only digits after the first character |
| Decimal.FormatRoundTrip | main.go:70-71 | parsing the `%d` rendering of any integer gives back that integer |
| Decimal.FormatIntInjective | main.go:70-71 | two integers render the same exactly when they are equal |
| Gallery.RenderInjective | main.go:70-71 | one template gives the same URL for two chapters exactly when the chapters are equal |
| Gallery.TemplatesDisjoint | main.go:53-55 | no `urlConcept` URL string equals any `urlConcept2` URL string |
| Gallery.TextInjective | main.go:53-71 | two gallery URLs are the same string exactly when they have the same template and chapter |
| Gallery.AllUrls | main.go:63-72 | with no cancellation, n chapters give 2·n URLs |
| Gallery.AllUrlsAt | main.go:63-72 | position k of the full URL list is chapter k/2 filled into `urlConcept` when k is even and `urlConcept2` when k is odd |
| Gallery.ChapterPair | main.go:70-71 | position 2i is the `urlConcept` URL of chapter i and position 2i+1 is its `urlConcept2` URL |
| Gallery.AllUrlsPrefix | main.go:63-72 | the URLs of the first n chapters are exactly the first 2n URLs of the full list |
| Gallery.AllUrlsDistinct | main.go:52-72 | pairwise distinct chapters give pairwise distinct URL strings |
| Cancellation.Completed | main.go:63-68 | a loop checking the context at the top of each iteration completes exactly the iterations before the first check that sees it done |
| Gallery.GenerateGalleryUrls | main.go:52-75 | the URLs sent (as `Text` strings) are a prefix of the full URL list of exactly 2·k URLs, k being the number of chapters before the first check that sees the context done; so whole chapter pairs only, and the whole list when nothing cancels |
| Parse.GalleryImages | main.go:164 | the path `Stack[2].Data[0].Images` exists exactly when there are at least 3 stack entries and the third has a data entry, and then it yields that image list |
| Parse.ToPictures | main.go:164-170 | one Picture per image, same length and order; `image` becomes the URL, `caption` the caption and `id` the ID |
| Parse.ParseForPic | main.go:120-172 | the result is pictures, not an error, exactly for a not-found page, a navigable payload or a mismatched payload. A navigable payload gives its images, field-wise and in order. Every other non-error result is empty. A missing script node on a page without the error article is "cannot find html node". A regex miss is "unable to find regex match" |
| Parse.MismatchLooksLikeNotFound | main.go:120-172 | as written, a payload with an empty stack gives zero pictures and no error, the same result as an explicit not-found page; the corrected parser reports it as an error |
| Parse.ParseForPicChecked | main.go:158-163 | corrected parser: the result is not an error exactly for a not-found page or a navigable payload, and an empty picture list then means one of those two; a mismatched payload is an error |
| Parse.CheckedDiffersOnlyOnMismatch | main.go:158-171 | the two parsers give different results exactly on mismatched payloads, and there the as-written one returns zero pictures and no error |
| Fetch.HandlePage | main.go:81-108 | one URL yields pictures exactly when its page loaded and the parser did not fail, and then it yields the parser's pictures |
| Fetch.Failures | main.go:82-107 | no more error lines are logged than there were pages |
| Fetch.PushedProvenance | main.go:96-103 | a picture is pushed exactly when it belongs to some successful iteration's picture list |
| Fetch.EmittedProvenance | main.go:96-103 | every picture pushed comes from a page that loaded and parsed, and every picture such a page yields is pushed |
| Fetch.PushedAppend | main.go:100-102 | pushing two runs of outcomes pushes the first run's pictures, then the second's |
| Fetch.FailuresAppend | main.go:105-107 | the failures of two runs of outcomes add up |
| Fetch.EmittedAppend | main.go:81-109 | the pushed stream of a concatenation of page lists is the concatenation of their streams |
| Fetch.LoggedErrorsAppend | main.go:81-109 | the error count of a concatenation of page lists is the sum of their counts |
| Fetch.SingleOutcome | main.go:82-107 | one iteration pushes its pictures when it succeeds and logs exactly one line when it fails |
| Fetch.EmittedStep | main.go:81-109 | the last page adds its own pictures, or its one log line, to what the pages before it produced |
| Fetch.FailedPageContributesNothing | main.go:81-108 | removing a failed page from the list leaves the pushed stream unchanged |
| Fetch.FailedPageLogsOnce | main.go:82-107 | a failed page accounts for exactly one error log line: "error creating request" when the request cannot be built, "error downloading gallery html" otherwise |
| Fetch.CorrectionKeepsStream | main.go:96-107 | the corrected parser pushes the same pictures as the as-written one, and logs one extra error for each page with a mismatched payload |
| Fetch.DownloadGalleryHtml | main.go:77-112 | fetching each URL from the web in order, the loop pushes the concatenation, in URL order, of the pictures of successful pages, and logs one error line per failed page |
| Download.TruncateCaption | main.go:189-191 | the cut caption is a prefix of the caption of at most 65 bytes: unchanged when at most 64 bytes, exactly 65 bytes when longer |
| Download.TruncateIdempotent | main.go:189-191 | cutting a cut caption changes nothing |
| Download.EffectiveLimitIs65 | main.go:189-190 | a caption survives the cut unchanged exactly when it has at most 65 bytes |
| Download.FileNameParts | main.go:192 | a file name is "download", the separator, the cut caption, '_', the ID and ".jpeg", each at a fixed offset, and has length 15 + cut caption + ID |
| Download.FileNameInjectiveInId | main.go:189-192 | pictures whose cut captions agree (so also long captions sharing their first 65 bytes) get the same file exactly when their IDs are equal |
| Download.FileNameInjective | main.go:192 | when neither cut caption contains '_', equal file names mean equal cut captions and equal IDs |
| Download.UnderscoreCaptionsCollide | main.go:192 | without that condition two pictures with different IDs can share a file: ("a_b", "c") and ("a", "b_c") |
| Download.HandleItem | main.go:188-221 | one picture's file is named by `FileName`, is left on disk whenever `os.Create` succeeded, and is fully downloaded exactly when creation, the request and the copy all succeed |
| Download.StopAt | main.go:182-187 | a worker starting at a stream position handles the items up to the first received item that finds the context done, or up to the end of the stream |
| Download.LaterWorkersIdle | main.go:174-187 | once the stream is drained, or the context is done at the current position, the remaining worker calls handle nothing |
| Download.PoolHandlesPrefix | main.go:44-49 | the worker calls together handle exactly the pictures received before the context is seen done, each once and in stream order, if some worker gets its directory, and handle nothing otherwise |
| Download.DownloadedFilesLastWrite | main.go:193-221 | a file ends up holding a full download exactly when some picture was downloaded into it and no later picture with the same name managed to create (and so truncate) it |
| Download.OverwrittenDownloadIsLost | main.go:193-221 | a download followed by a same-named picture whose request fails leaves no full download; the other order does |
| Download.AllPicturesDownloaded | main.go:182-221 | with no cancellation, all transfers succeeding, some worker getting its directory and pairwise distinct file names, every picture is downloaded and there are as many files as pictures |
| Pipeline.ChapterOneFetch | main.go:81-108 | a page holding a gallery followed by a not-found page pushes exactly the gallery's pictures and logs no error |
| Pipeline.SingleChapterRun | main.go:34-50 | chapter 1 alone, stages composed: the source yields its two URLs; fetching those URLs from a web whose first page holds three pictures and whose second is not found pushes exactly those three pictures with no logged error; with distinct IDs and no '_' in the cut captions, the pool downloads three distinct files |

## Left out

- Goroutines, channel buffers and `sync.WaitGroup` are not modelled; the stages are composed as functions over whole sequences. The `select` race inside `httpDo` is also not modelled; it is concurrency, and cancellation is reduced to the first loop check that sees the context done.
- HTTP requests, `io.Copy`, `os.Mkdir` and `os.Create` are network and filesystem I/O. Their outcomes are inputs: the `web` function from gallery URL to `Page`, the flags on `Item`, and `MkdirResult`.
- `html.Parse`, the XPath queries, the regular expression, `json.Unmarshal` and `mapstructure.Decode` are library calls. Their results are the `Document`/`Extraction` input.
- Signal handling (`signal.NotifyContext`) and the text of log lines are not modelled. Only the number of fetch-stage error lines is counted.
- UTF-8 validity of a cut caption is not modelled: captions are byte strings, as Go's `len` and slicing treat them.
- Go's fixed-width `int` is not modelled. Chapters are unbounded integers, which is exact for the 1..16 the program uses. With an end chapter equal to the largest `int`, Go's counting loop would never end; that case is not modelled.
- `os.PathSeparator` is platform-dependent, so it is a parameter (`SlashSeparator` or `BackslashSeparator`). A caption containing the separator would name a file in a sub-directory; the model treats the name only as bytes.
- Fetch.HandlePage: counts a page on which the context is cancelled as a transport failure that pushes nothing. In the source, cancellation can fire after the response reached the callback. `httpDo` then returns the cancellation error while the callback may already have pushed that page's pictures.

## Findings

| source | as written | input that shows it | evidently intended | confidence | as-written member | corrected member |
|---|---|---|---|---|---|---|
| main.go:158-171 | The deferred `recover` assigns the panic to the local `err`. The results are unnamed, so the function returns `(nil, nil)` when `Stack[2]` or `Stack[2].Data[0]` is out of range. | a script whose payload decodes to `{"stack": []}` | return `panic: …` as a parse error, so the fetcher logs it instead of treating the page like a not-found page | high; not executed | Parse.MismatchLooksLikeNotFound | Parse.ParseForPicChecked |

The fetch stage takes the parser version as a parameter (`Fetch.ParserVersion`). `Fetch.CorrectionKeepsStream` proves that the corrected parser pushes exactly the same pictures. The only change is one more logged error per page whose payload misses the fixed path.
