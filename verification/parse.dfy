/** `parseForPic`: from a gallery page to its picture records.

    The HTML parser, the XPath queries, the regular expression, `json.Unmarshal`
    and `mapstructure.Decode` are replaced by what they hand back: whether the
    data script node has text, whether the error-page article is present, and
    what the script text decodes to. */
module Parse {
  import opened Wrappers
  import opened ByteStrings

  /** A picture to download: where it lives, its label and its identifier. */
  datatype Picture = Picture(url: Bytes, caption: Bytes, id: Bytes)

  /** One element of `images` with the three fields the decoder keeps. */
  datatype RawImage = RawImage(image: Bytes, caption: Bytes, id: Bytes)
  /** One element of `data`. */
  datatype DataEntry = DataEntry(images: seq<RawImage>)
  /** One element of `stack`. */
  datatype StackEntry = StackEntry(data: seq<DataEntry>)
  /** The decoded payload: its `stack` list. */
  datatype Payload = Payload(stack: seq<StackEntry>)

  /** What the pattern match and the two decoders make of the script text. */
  datatype Extraction =
    | NoMatch            // the pattern has no match: fewer than two captures
    | JsonInvalid        // json.Unmarshal fails on the captured text
    | ShapeInvalid       // mapstructure.Decode fails on the decoded map
    | Decoded(payload: Payload)

  /** A page as `parseForPic` sees it. `script` is `None` when the data script
      node is missing or has no child text node. */
  datatype Document = Document(script: Option<Extraction>, errorPage: bool)

  datatype ParseError =
    | NoPictureNode      // "cannot find html node for pictures"
    | NoRegexMatch       // "unable to find regex match"
    | JsonError
    | DecodeError
    | ShapeMismatch      // only the corrected parser reports this

  /** The fixed path `Stack[2].Data[0].Images`, with every index bounds-checked. */
  function GalleryImages(p: Payload): (r: Option<seq<RawImage>>)
    ensures r.Some? <==> |p.stack| >= 3 && |p.stack[2].data| >= 1
    ensures r.Some? ==> r.value == p.stack[2].data[0].images
  {
    if |p.stack| < 3 then None
    else if |p.stack[2].data| == 0 then None
    else Some(p.stack[2].data[0].images)
  }

  function AsPicture(img: RawImage): Picture {
    Picture(img.image, img.caption, img.id)
  }

  /** The copy loop: one Picture per image, in order, `image` becoming the URL. */
  function ToPictures(images: seq<RawImage>): (pics: seq<Picture>)
    ensures |pics| == |images|
    ensures forall i :: 0 <= i < |images| ==>
      pics[i].url == images[i].image && pics[i].caption == images[i].caption && pics[i].id == images[i].id
  {
    if |images| == 0 then []
    else ToPictures(images[..|images| - 1]) + [AsPicture(images[|images| - 1])]
  }

  /** The page explicitly says the gallery is missing. */
  predicate NotFoundPage(doc: Document) {
    doc.script.None? && doc.errorPage
  }

  /** The payload decoded and the fixed path into it exists. */
  predicate Navigable(doc: Document) {
    doc.script.Some? && doc.script.value.Decoded? && GalleryImages(doc.script.value.payload).Some?
  }

  /** The payload decoded but `Stack[2]` or `Stack[2].Data[0]` is out of range. */
  predicate Mismatched(doc: Document) {
    doc.script.Some? && doc.script.value.Decoded? && GalleryImages(doc.script.value.payload).None?
  }

  /** The images behind a navigable page. */
  function GalleryOf(doc: Document): seq<RawImage>
    requires Navigable(doc)
  {
    GalleryImages(doc.script.value.payload).value
  }

  /** `parseForPic` as written. Go returns `(nil, nil)` both for a not-found
      page and when the index path panics: the deferred `recover` stores its
      error in a local variable, and the unnamed results stay zero. */
  function ParseForPic(doc: Document): (r: Result<seq<Picture>, ParseError>)
    ensures r.Ok? <==> NotFoundPage(doc) || Navigable(doc) || Mismatched(doc)
    ensures Navigable(doc) ==> r.Ok? && |r.value| == |GalleryOf(doc)|
    ensures Navigable(doc) ==> forall i :: 0 <= i < |r.value| ==> r.value[i] == AsPicture(GalleryOf(doc)[i])
    ensures r.Ok? && !Navigable(doc) ==> r.value == []
    ensures doc.script.None? && !doc.errorPage ==> r == Err(NoPictureNode)
    ensures doc.script == Some(NoMatch) ==> r == Err(NoRegexMatch)
  {
    match doc.script
    case None => if doc.errorPage then Ok([]) else Err(NoPictureNode)
    case Some(NoMatch) => Err(NoRegexMatch)
    case Some(JsonInvalid) => Err(JsonError)
    case Some(ShapeInvalid) => Err(DecodeError)
    case Some(Decoded(payload)) =>
      match GalleryImages(payload)
      case None => Ok([])
      case Some(images) => Ok(ToPictures(images))
  }

  /** `parseForPic` as its recovery handler evidently intends: an out-of-range
      index on the fixed path is reported as an error instead of vanishing. */
  function ParseForPicChecked(doc: Document): (r: Result<seq<Picture>, ParseError>)
    ensures r.Ok? <==> NotFoundPage(doc) || Navigable(doc)
    ensures r.Ok? && r.value == [] ==> NotFoundPage(doc) || GalleryOf(doc) == []
    ensures Mismatched(doc) ==> r == Err(ShapeMismatch)
  {
    if Mismatched(doc) then Err(ShapeMismatch) else ParseForPic(doc)
  }

  /** The payload of a page whose decode produced `stack`, for stating lemmas. */
  function DecodedPage(stack: seq<StackEntry>): Document {
    Document(Some(Decoded(Payload(stack))), false)
  }

  /** As written, a payload with an empty `stack` yields the same result as a
      page that explicitly says the gallery is missing, and no error. */
  lemma MismatchLooksLikeNotFound()
    ensures ParseForPic(DecodedPage([])) == ParseForPic(Document(None, true)) == Ok([])
    ensures ParseForPicChecked(DecodedPage([])) == Err(ShapeMismatch)
  {
  }

  /** The two parsers disagree exactly on mismatched payloads, and there the
      as-written one reports zero pictures and no error. */
  lemma CheckedDiffersOnlyOnMismatch(doc: Document)
    ensures ParseForPicChecked(doc) != ParseForPic(doc) <==> Mismatched(doc)
    ensures Mismatched(doc) ==> ParseForPic(doc) == Ok([])
  {
  }
}
