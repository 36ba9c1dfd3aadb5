/** The three stages of `main` put together on one chapter: the URL source,
    the page fetcher and the download pool. */
module Pipeline {
  import opened Wrappers
  import opened ByteStrings
  import opened Cancellation
  import opened Gallery
  import opened Parse
  import opened Fetch
  import opened Download

  /** Every picture with an environment in which its file, its request and its
      copy all succeed. */
  function Succeeding(pics: seq<Picture>): (items: seq<Item>)
    ensures |items| == |pics|
    ensures forall i :: 0 <= i < |pics| ==> items[i] == Item(pics[i], true, true, true)
  {
    seq(|pics|, i requires 0 <= i < |pics| => Item(pics[i], true, true, true))
  }

  /** A decoded page whose third stack entry holds the given images. */
  function GalleryPage(images: seq<RawImage>): Document {
    DecodedPage([StackEntry([]), StackEntry([]), StackEntry([DataEntry(images)])])
  }

  /** The two pages of chapter 1: its `urlConcept` page holds the given images
      and its `urlConcept2` page is a not-found page. */
  function ChapterOnePages(images: seq<RawImage>): seq<Page> {
    [Loaded(GalleryPage(images)), Loaded(Document(None, true))]
  }

  /** The fetch stage on those pages pushes exactly the gallery's pictures and
      logs no error. */
  lemma ChapterOneFetch(images: seq<RawImage>)
    ensures Emitted(ChapterOnePages(images), AsWritten) == ToPictures(images)
    ensures LoggedErrors(ChapterOnePages(images), AsWritten) == 0
  {
    var pages := ChapterOnePages(images);
    assert GalleryImages(GalleryPage(images).script.value.payload) == Some(images);
    assert HandlePage(pages[0], AsWritten) == Ok(ToPictures(images));
    assert HandlePage(pages[1], AsWritten) == Ok([]);
    EmittedStep(pages, AsWritten);
    assert pages[..1] == [pages[0]] && [pages[0]][..0] == [];
    EmittedStep(pages[..1], AsWritten);
    assert Outcomes([], AsWritten) == [];
  }

  /** Chapter 1 alone, the stages composed: the URL source yields chapter 1's
      two URLs; fetching them from a web whose `urlConcept` page holds three
      images and whose `urlConcept2` page is not found pushes those three
      pictures with no logged error; and with distinct IDs and no '_' in the
      cut captions, the pool downloads three distinct files. */
  lemma SingleChapterRun(sep: uint8, web: GalleryUrl -> Page, images: seq<RawImage>, mkdirs: seq<MkdirResult>)
    requires |images| == 3
    requires forall i, j :: 0 <= i < j < 3 ==> images[i].id != images[j].id
    requires forall i :: 0 <= i < 3 ==> NoUnderscore(TruncateCaption(images[i].caption))
    requires web(GalleryUrl(UrlConcept, 1)) == Loaded(GalleryPage(images))
    requires web(GalleryUrl(UrlConcept2, 1)) == Loaded(Document(None, true))
    requires AnyWorkerStarts(mkdirs)
    ensures AllUrls([1]) == [GalleryUrl(UrlConcept, 1), GalleryUrl(UrlConcept2, 1)]
    ensures var pages := FetchPages(web, AllUrls([1]));
      var pics := Emitted(pages, AsWritten);
      && pics == ToPictures(images)
      && LoggedErrors(pages, AsWritten) == 0
      && |DownloadedFiles(RunWorkers(sep, mkdirs, Succeeding(pics), 0, NotCancelled))| == 3
  {
    assert [1][..0] == [];
    var urls := AllUrls([1]);
    assert FetchPages(web, urls) == ChapterOnePages(images);
    ChapterOneFetch(images);
    var pics := ToPictures(images);
    var stream := Succeeding(pics);
    forall i, j | 0 <= i < j < |stream|
      ensures FileName(sep, stream[i].pic) != FileName(sep, stream[j].pic)
    {
      if FileName(sep, stream[i].pic) == FileName(sep, stream[j].pic) {
        FileNameInjective(sep, stream[i].pic, stream[j].pic);
        assert false;
      }
    }
    AllPicturesDownloaded(sep, mkdirs, stream);
  }
}
