/** The URL source: the chapter list `main` builds and the gallery URLs
    `generateGalleryURLs` emits for it, two per chapter, chapter-major. */
module Gallery {
  import opened Decimal
  import opened Cancellation

  const StartChapter: int := 1
  const EndChapter: int := 16

  /** The counting loop in `main`: every integer from `start` to `end` inclusive. */
  method ChapterRange(start: int, end: int) returns (chapters: seq<int>)
    ensures |chapters| == if start <= end then end - start + 1 else 0
    ensures forall i :: 0 <= i < |chapters| ==> chapters[i] == start + i
  {
    chapters := [];
    var i := start;
    while i <= end
      invariant start <= i
      invariant start <= end ==> i <= end + 1
      invariant start > end ==> i == start
      invariant |chapters| == i - start
      invariant forall j :: 0 <= j < |chapters| ==> chapters[j] == start + j
    {
      chapters := chapters + [i];
      i := i + 1;
    }
  }

  /** The chapter list the program actually scrapes. */
  method MainChapters() returns (chapters: seq<int>)
    ensures |chapters| == 16
    ensures forall i :: 0 <= i < |chapters| ==> chapters[i] == i + 1
    ensures forall i, j :: 0 <= i < j < |chapters| ==> chapters[i] < chapters[j]
  {
    chapters := ChapterRange(StartChapter, EndChapter);
  }

  /** A format string with a single `%d`: the text before and after the verb. */
  datatype Template = Template(before: string, after: string)

  /** The two templates in use, `urlConcept` and `urlConcept2`. */
  datatype TemplateId = UrlConcept | UrlConcept2

  function TemplateOf(id: TemplateId): Template {
    match id
    case UrlConcept => Template("https://www.starwars.com/series/the-mandalorian/chapter-", "-concept-art-gallery")
    case UrlConcept2 => Template("https://www.starwars.com/chapter-", "-concept-art-gallery")
  }

  function Render(t: Template, chapter: int): string {
    t.before + FormatInt(chapter) + t.after
  }

  /** A gallery URL: a template filled in with a chapter number. */
  datatype GalleryUrl = GalleryUrl(template: TemplateId, chapter: int)

  /** The string `fmt.Sprintf` builds for a gallery URL. */
  function Text(u: GalleryUrl): string {
    Render(TemplateOf(u.template), u.chapter)
  }

  /** A template renders distinct chapters as distinct URLs. */
  lemma RenderInjective(t: Template, a: int, b: int)
    ensures Render(t, a) == Render(t, b) <==> a == b
  {
    if Render(t, a) == Render(t, b) {
      var ra, rb := Render(t, a), Render(t, b);
      assert FormatInt(a) == ra[|t.before|..|ra| - |t.after|];
      assert FormatInt(b) == rb[|t.before|..|rb| - |t.after|];
      FormatIntInjective(a, b);
    }
  }

  /** No URL of the first template is a URL of the second: they part at byte 25
      ("https://www.starwars.com/" then 's' versus 'c'). */
  lemma TemplatesDisjoint(a: int, b: int)
    ensures Text(GalleryUrl(UrlConcept, a)) != Text(GalleryUrl(UrlConcept2, b))
  {
    assert Text(GalleryUrl(UrlConcept, a))[25] == TemplateOf(UrlConcept).before[25] == 's';
    assert Text(GalleryUrl(UrlConcept2, b))[25] == TemplateOf(UrlConcept2).before[25] == 'c';
  }

  /** Two gallery URLs are the same string exactly when they use the same
      template and the same chapter. */
  lemma TextInjective(u: GalleryUrl, w: GalleryUrl)
    ensures Text(u) == Text(w) <==> u == w
  {
    if u.template == w.template {
      RenderInjective(TemplateOf(u.template), u.chapter, w.chapter);
    } else if u.template == UrlConcept {
      TemplatesDisjoint(u.chapter, w.chapter);
    } else {
      TemplatesDisjoint(w.chapter, u.chapter);
    }
  }

  /** The URLs of one chapter, in the order the loop sends them. */
  function ChapterUrls(chapter: int): seq<GalleryUrl> {
    [GalleryUrl(UrlConcept, chapter), GalleryUrl(UrlConcept2, chapter)]
  }

  /** Every URL of the chapter list, with no cancellation. */
  function AllUrls(chapters: seq<int>): (urls: seq<GalleryUrl>)
    ensures |urls| == 2 * |chapters|
  {
    if |chapters| == 0 then []
    else AllUrls(chapters[..|chapters| - 1]) + ChapterUrls(chapters[|chapters| - 1])
  }

  /** The template a position of the URL list uses: even positions `urlConcept`,
      odd positions `urlConcept2`. */
  function TemplateAt(k: nat): TemplateId {
    if k % 2 == 0 then UrlConcept else UrlConcept2
  }

  /** Position k of the URL list is chapter k / 2 filled into `TemplateAt(k)`. */
  lemma {:induction false} AllUrlsAt(chapters: seq<int>, k: nat)
    requires k < 2 * |chapters|
    ensures k / 2 < |chapters|
    ensures AllUrls(chapters)[k] == GalleryUrl(TemplateAt(k), chapters[k / 2])
  {
    var n := |chapters|;
    var init := chapters[..n - 1];
    if k < 2 * (n - 1) {
      AllUrlsAt(init, k);
      assert init[k / 2] == chapters[k / 2];
    } else {
      assert k == 2 * (n - 1) || k == 2 * (n - 1) + 1;
    }
  }

  /** Position 2i holds the `urlConcept` URL of chapter i and position 2i + 1
      its `urlConcept2` URL. */
  lemma ChapterPair(chapters: seq<int>, i: nat)
    requires i < |chapters|
    ensures AllUrls(chapters)[2 * i] == GalleryUrl(UrlConcept, chapters[i])
    ensures AllUrls(chapters)[2 * i + 1] == GalleryUrl(UrlConcept2, chapters[i])
  {
    AllUrlsAt(chapters, 2 * i);
    AllUrlsAt(chapters, 2 * i + 1);
  }

  /** The URLs of the first n chapters are the first 2n URLs of the whole list. */
  lemma {:induction false} AllUrlsPrefix(chapters: seq<int>, n: nat)
    requires n <= |chapters|
    ensures AllUrls(chapters[..n]) == AllUrls(chapters)[..2 * n]
    decreases |chapters| - n
  {
    if n < |chapters| {
      var m := |chapters| - 1;
      assert chapters[..m][..n] == chapters[..n];
      AllUrlsPrefix(chapters[..m], n);
    } else {
      assert chapters[..n] == chapters;
    }
  }

  /** Distinct chapters give pairwise distinct URL strings. */
  lemma AllUrlsDistinct(chapters: seq<int>)
    requires forall i, j :: 0 <= i < j < |chapters| ==> chapters[i] != chapters[j]
    ensures var urls := AllUrls(chapters);
      forall x, y :: 0 <= x < y < |urls| ==> Text(urls[x]) != Text(urls[y])
  {
    var urls := AllUrls(chapters);
    forall x, y | 0 <= x < y < |urls|
      ensures Text(urls[x]) != Text(urls[y])
    {
      AllUrlsAt(chapters, x);
      AllUrlsAt(chapters, y);
      TextInjective(urls[x], urls[y]);
      if x % 2 == y % 2 {
        assert x / 2 < y / 2 by {
          assert x == 2 * (x / 2) + x % 2 && y == 2 * (y / 2) + y % 2;
        }
      }
    }
  }

  /** Taking one more chapter appends exactly that chapter's two URLs. */
  lemma AllUrlsExtend(chapters: seq<int>, i: nat)
    requires i < |chapters|
    ensures AllUrls(chapters[..i + 1]) == AllUrls(chapters[..i]) + ChapterUrls(chapters[i])
  {
    assert chapters[..i + 1][..i] == chapters[..i];
  }

  /** `generateGalleryURLs`: the loop checks the context once at the top of each
      chapter and, when it is not done, sends both of that chapter's URLs. So
      what is sent is the first 2k URLs of the full list, k being the number
      of chapters before the first check that sees the context done. The
      strings on the channel are `Text` of the URLs returned. */
  method GenerateGalleryUrls(chapters: seq<int>, cancel: Cancel) returns (urls: seq<GalleryUrl>)
    ensures |urls| == 2 * Completed(cancel, |chapters|)
    ensures urls == AllUrls(chapters)[..|urls|]
    ensures cancel.NotCancelled? ==> urls == AllUrls(chapters)
  {
    urls := [];
    var i := 0;
    while i < |chapters|
      invariant 0 <= i <= |chapters|
      invariant forall j :: 0 <= j < i ==> !SeenDone(cancel, j)
      invariant urls == AllUrls(chapters[..i])
    {
      if SeenDone(cancel, i) {
        break;
      }
      AllUrlsExtend(chapters, i);
      urls := urls + ChapterUrls(chapters[i]);
      i := i + 1;
    }
    assert i == Completed(cancel, |chapters|);
    AllUrlsPrefix(chapters, i);
    assert chapters[..|chapters|] == chapters;
  }
}
