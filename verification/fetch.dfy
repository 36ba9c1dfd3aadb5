/** `downloadGalleryHTML`: the page-fetch stage. Each URL in turn is fetched and
    parsed; a page that fails anywhere is logged and skipped, and the pictures
    of every successful page are pushed downstream in order. */
module Fetch {
  import opened Wrappers
  import opened Parse
  import Gallery

  /** What became of one URL, up to the parser's input. The network and the
      server together are a function `web` from gallery URL to `Page`. */
  datatype Page =
    | RequestInvalid      // http.NewRequest failed
    | TransportFailed     // the round trip failed or the context was cancelled
    | HtmlInvalid         // html.Parse failed
    | Loaded(doc: Document)

  /** Which `parseForPic` the stage runs: as written, or with the recovered
      panic reported as an error. */
  datatype ParserVersion = AsWritten | Corrected

  datatype FetchError = Request | Transport | Html | Parsing(cause: ParseError)

  function RunParser(v: ParserVersion, doc: Document): Result<seq<Picture>, ParseError> {
    match v
    case AsWritten => ParseForPic(doc)
    case Corrected => ParseForPicChecked(doc)
  }

  /** One iteration of the fetch loop: the pictures to push, or the error logged. */
  function HandlePage(page: Page, v: ParserVersion): (r: Result<seq<Picture>, FetchError>)
    ensures r.Ok? <==> page.Loaded? && RunParser(v, page.doc).Ok?
    ensures r.Ok? ==> r.value == RunParser(v, page.doc).value
  {
    match page
    case RequestInvalid => Err(Request)
    case TransportFailed => Err(Transport)
    case HtmlInvalid => Err(Html)
    case Loaded(doc) =>
      match RunParser(v, doc)
      case Ok(pics) => Ok(pics)
      case Err(e) => Err(Parsing(e))
  }

  /** What one iteration of the loop produced: the pictures pushed, or the error logged. */
  type Outcome = Result<seq<Picture>, FetchError>

  /** The page behind every URL, in URL order. */
  function FetchPages(web: Gallery.GalleryUrl -> Page, urls: seq<Gallery.GalleryUrl>): (pages: seq<Page>)
    ensures |pages| == |urls|
    ensures forall i :: 0 <= i < |urls| ==> pages[i] == web(urls[i])
  {
    seq(|urls|, i requires 0 <= i < |urls| => web(urls[i]))
  }

  /** The outcome of every page, in URL order. */
  function Outcomes(pages: seq<Page>, v: ParserVersion): (outs: seq<Outcome>)
    ensures |outs| == |pages|
    ensures forall i :: 0 <= i < |pages| ==> outs[i] == HandlePage(pages[i], v)
  {
    seq(|pages|, i requires 0 <= i < |pages| => HandlePage(pages[i], v))
  }

  /** The pictures a run of outcomes pushes: those of the successful ones, in order. */
  function Pushed(outs: seq<Outcome>): seq<Picture> {
    if |outs| == 0 then []
    else Pushed(outs[..|outs| - 1]) + (if outs[|outs| - 1].Ok? then outs[|outs| - 1].value else [])
  }

  /** The number of failed outcomes, one log line each. */
  function Failures(outs: seq<Outcome>): (n: nat)
    ensures n <= |outs|
  {
    if |outs| == 0 then 0
    else Failures(outs[..|outs| - 1]) + (if outs[|outs| - 1].Err? then 1 else 0)
  }

  /** Everything pushed into the picture channel for the given pages. */
  function Emitted(pages: seq<Page>, v: ParserVersion): seq<Picture> {
    Pushed(Outcomes(pages, v))
  }

  /** The number of error log lines: one per failed page, whether it is
      "error creating request" or "error downloading gallery html". */
  function LoggedErrors(pages: seq<Page>, v: ParserVersion): nat {
    Failures(Outcomes(pages, v))
  }

  /** Every pushed picture came from a successful outcome, and every picture of
      a successful outcome is pushed. */
  lemma {:induction false} PushedProvenance(outs: seq<Outcome>)
    ensures forall p :: p in Pushed(outs) ==> exists i :: 0 <= i < |outs| && outs[i].Ok? && p in outs[i].value
    ensures forall i, p :: 0 <= i < |outs| && outs[i].Ok? && p in outs[i].value ==> p in Pushed(outs)
  {
    if |outs| > 0 {
      var init := outs[..|outs| - 1];
      PushedProvenance(init);
      assert forall i :: 0 <= i < |init| ==> init[i] == outs[i];
    }
  }

  /** Every pushed picture came from a page that loaded and parsed, and every
      picture such a page yields is pushed. */
  lemma EmittedProvenance(pages: seq<Page>, v: ParserVersion)
    ensures forall p :: p in Emitted(pages, v) ==>
      exists i :: 0 <= i < |pages| && HandlePage(pages[i], v).Ok? && p in HandlePage(pages[i], v).value
    ensures forall i, p :: 0 <= i < |pages| && HandlePage(pages[i], v).Ok? && p in HandlePage(pages[i], v).value ==>
      p in Emitted(pages, v)
  {
    PushedProvenance(Outcomes(pages, v));
  }

  /** Pushing two runs of outcomes pushes the first run's pictures, then the second's. */
  lemma {:induction false} PushedAppend(a: seq<Outcome>, b: seq<Outcome>)
    ensures Pushed(a + b) == Pushed(a) + Pushed(b)
  {
    if |b| > 0 {
      var b' := b[..|b| - 1];
      assert (a + b)[..|a + b| - 1] == a + b';
      PushedAppend(a, b');
    } else {
      assert a + b == a;
    }
  }

  /** The failures of two runs of outcomes add up. */
  lemma {:induction false} FailuresAppend(a: seq<Outcome>, b: seq<Outcome>)
    ensures Failures(a + b) == Failures(a) + Failures(b)
  {
    if |b| > 0 {
      var b' := b[..|b| - 1];
      assert (a + b)[..|a + b| - 1] == a + b';
      FailuresAppend(a, b');
    } else {
      assert a + b == a;
    }
  }

  lemma OutcomesAppend(a: seq<Page>, b: seq<Page>, v: ParserVersion)
    ensures Outcomes(a + b, v) == Outcomes(a, v) + Outcomes(b, v)
  {
  }

  /** The stream of a concatenation of page lists is the concatenation of their streams. */
  lemma EmittedAppend(a: seq<Page>, b: seq<Page>, v: ParserVersion)
    ensures Emitted(a + b, v) == Emitted(a, v) + Emitted(b, v)
  {
    OutcomesAppend(a, b, v);
    PushedAppend(Outcomes(a, v), Outcomes(b, v));
  }

  /** The error count of a concatenation of page lists is the sum of their counts. */
  lemma LoggedErrorsAppend(a: seq<Page>, b: seq<Page>, v: ParserVersion)
    ensures LoggedErrors(a + b, v) == LoggedErrors(a, v) + LoggedErrors(b, v)
  {
    OutcomesAppend(a, b, v);
    FailuresAppend(Outcomes(a, v), Outcomes(b, v));
  }

  /** One outcome on its own pushes its pictures if it succeeded and logs one
      line if it failed. */
  lemma SingleOutcome(o: Outcome)
    ensures Pushed([o]) == (if o.Ok? then o.value else [])
    ensures Failures([o]) == (if o.Err? then 1 else 0)
  {
    assert [o][..0] == [];
  }

  /** The last page adds its own pictures, or its one log line, to what the
      pages before it produced. */
  lemma EmittedStep(pages: seq<Page>, v: ParserVersion)
    requires |pages| > 0
    ensures var init, o := pages[..|pages| - 1], HandlePage(pages[|pages| - 1], v);
      && Emitted(pages, v) == Emitted(init, v) + (if o.Ok? then o.value else [])
      && LoggedErrors(pages, v) == LoggedErrors(init, v) + (if o.Err? then 1 else 0)
  {
    var init, last := pages[..|pages| - 1], pages[|pages| - 1];
    assert pages == init + [last];
    var o := HandlePage(last, v);
    assert Outcomes([last], v) == [o];
    SingleOutcome(o);
    EmittedAppend(init, [last], v);
    LoggedErrorsAppend(init, [last], v);
  }

  /** A page that fails contributes nothing to the stream: removing it leaves
      the stream unchanged. */
  lemma FailedPageContributesNothing(pages: seq<Page>, i: nat, v: ParserVersion)
    requires i < |pages| && HandlePage(pages[i], v).Err?
    ensures Emitted(pages, v) == Emitted(pages[..i] + pages[i + 1..], v)
  {
    var pre, post, page := pages[..i], pages[i + 1..], pages[i];
    assert pages == (pre + [page]) + post;
    assert Outcomes([page], v) == [HandlePage(page, v)];
    SingleOutcome(HandlePage(page, v));
    EmittedAppend(pre + [page], post, v);
    EmittedAppend(pre, [page], v);
    EmittedAppend(pre, post, v);
  }

  /** A page that fails accounts for exactly one error log line
      ("error creating request" or "error downloading gallery html"). */
  lemma FailedPageLogsOnce(pages: seq<Page>, i: nat, v: ParserVersion)
    requires i < |pages| && HandlePage(pages[i], v).Err?
    ensures LoggedErrors(pages, v) == LoggedErrors(pages[..i] + pages[i + 1..], v) + 1
  {
    var pre, post, page := pages[..i], pages[i + 1..], pages[i];
    assert pages == (pre + [page]) + post;
    assert Outcomes([page], v) == [HandlePage(page, v)];
    SingleOutcome(HandlePage(page, v));
    LoggedErrorsAppend(pre + [page], post, v);
    LoggedErrorsAppend(pre, [page], v);
    LoggedErrorsAppend(pre, post, v);
  }

  /** The number of pages whose payload decoded but missed the fixed path. */
  function MismatchedPages(pages: seq<Page>): nat {
    if |pages| == 0 then 0
    else MismatchedPages(pages[..|pages| - 1]) + (if pages[|pages| - 1].Loaded? && Mismatched(pages[|pages| - 1].doc) then 1 else 0)
  }

  /** Reporting the recovered panic changes no picture that is pushed; it only
      adds one log line per page whose payload missed the fixed path. */
  lemma {:induction false} CorrectionKeepsStream(pages: seq<Page>)
    ensures Emitted(pages, Corrected) == Emitted(pages, AsWritten)
    ensures LoggedErrors(pages, Corrected) == LoggedErrors(pages, AsWritten) + MismatchedPages(pages)
  {
    if |pages| > 0 {
      CorrectionKeepsStream(pages[..|pages| - 1]);
      EmittedStep(pages, AsWritten);
      EmittedStep(pages, Corrected);
      var last := pages[|pages| - 1];
      if last.Loaded? {
        CheckedDiffersOnlyOnMismatch(last.doc);
      }
    }
  }

  /** The fetch loop: each URL from the source is fetched, in order, and its
      page handled. */
  method DownloadGalleryHtml(web: Gallery.GalleryUrl -> Page, urls: seq<Gallery.GalleryUrl>, v: ParserVersion)
    returns (pics: seq<Picture>, errors: nat)
    ensures pics == Emitted(FetchPages(web, urls), v)
    ensures errors == LoggedErrors(FetchPages(web, urls), v)
  {
    ghost var pages := FetchPages(web, urls);
    pics, errors := [], 0;
    var i := 0;
    while i < |urls|
      invariant 0 <= i <= |urls|
      invariant pics == Emitted(pages[..i], v)
      invariant errors == LoggedErrors(pages[..i], v)
    {
      assert pages[..i + 1][..i] == pages[..i];
      EmittedStep(pages[..i + 1], v);
      var r := HandlePage(web(urls[i]), v);
      if r.Ok? {
        pics := pics + r.value;
      } else {
        errors := errors + 1;
      }
      i := i + 1;
    }
    assert pages[..i] == pages;
  }
}
