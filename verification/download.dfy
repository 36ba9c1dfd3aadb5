/** `downloadPic`: the download stage. The caption is cut to a bounded number
    of bytes, the file name is built from the cut caption and the ID, and each
    picture in turn is fetched into that file. */
module Download {
  import opened ByteStrings
  import opened Parse
  import opened Cancellation

  /** The guard on the caption length. */
  const CaptionGuard: nat := 64
  /** How many bytes a caption over the guard keeps (`[:64+1]`). */
  const CaptionKeep: nat := 64 + 1

  /** "download", the output directory. */
  const DownloadDir: Bytes := [0x64, 0x6f, 0x77, 0x6e, 0x6c, 0x6f, 0x61, 0x64]
  /** '_', between the caption and the ID. */
  const Underscore: uint8 := 0x5f
  /** ".jpeg", the file extension. */
  const JpegExt: Bytes := [0x2e, 0x6a, 0x70, 0x65, 0x67]
  /** `os.PathSeparator` on Unix-like systems and on Windows. */
  const SlashSeparator: uint8 := 0x2f
  const BackslashSeparator: uint8 := 0x5c

  /** The caption cut: a caption longer than the guard keeps its first 65 bytes. */
  function TruncateCaption(caption: Bytes): (t: Bytes)
    ensures t <= caption
    ensures |t| <= CaptionKeep
    ensures |caption| <= CaptionGuard ==> t == caption
    ensures |caption| > CaptionGuard ==> |t| == CaptionKeep
  {
    if |caption| > CaptionGuard then caption[..CaptionKeep] else caption
  }

  /** Cutting a cut caption changes nothing. */
  lemma TruncateIdempotent(caption: Bytes)
    ensures TruncateCaption(TruncateCaption(caption)) == TruncateCaption(caption)
  {
  }

  /** The guard and the cut agree on one limit: a caption of exactly 65 bytes
      passes the guard yet is kept whole, so no kept caption exceeds 65 bytes
      and every caption of up to 65 bytes survives unchanged. */
  lemma EffectiveLimitIs65(caption: Bytes)
    ensures TruncateCaption(caption) == caption <==> |caption| <= CaptionKeep
  {
  }

  /** `fmt.Sprintf("download%c%s_%s.jpeg", os.PathSeparator, caption, id)`. */
  function FileName(sep: uint8, pic: Picture): Bytes {
    DownloadDir + [sep] + TruncateCaption(pic.caption) + [Underscore] + pic.id + JpegExt
  }

  /** Reading a file name back: the directory, the separator, the cut caption,
      the underscore, the ID and the extension sit at fixed offsets. */
  lemma FileNameParts(sep: uint8, pic: Picture)
    ensures var name, t := FileName(sep, pic), TruncateCaption(pic.caption);
      && |name| == 15 + |t| + |pic.id|
      && name[..8] == DownloadDir
      && name[8] == sep
      && name[9..9 + |t|] == t
      && name[9 + |t|] == Underscore
      && name[10 + |t|..|name| - 5] == pic.id
      && name[|name| - 5..] == JpegExt
  {
    var name, t := FileName(sep, pic), TruncateCaption(pic.caption);
    assert name == DownloadDir + ([sep] + (t + ([Underscore] + (pic.id + JpegExt))));
  }

  /** Pictures whose cut captions agree (in particular, long captions sharing
      their first 65 bytes) get distinct files exactly when their IDs differ. */
  lemma FileNameInjectiveInId(sep: uint8, p: Picture, q: Picture)
    requires TruncateCaption(p.caption) == TruncateCaption(q.caption)
    ensures FileName(sep, p) == FileName(sep, q) <==> p.id == q.id
  {
    FileNameParts(sep, p);
    FileNameParts(sep, q);
  }

  predicate NoUnderscore(b: Bytes) {
    forall i :: 0 <= i < |b| ==> b[i] != Underscore
  }

  /** When no cut caption contains '_', a file name determines both the cut
      caption and the ID. */
  lemma FileNameInjective(sep: uint8, p: Picture, q: Picture)
    requires NoUnderscore(TruncateCaption(p.caption)) && NoUnderscore(TruncateCaption(q.caption))
    requires FileName(sep, p) == FileName(sep, q)
    ensures TruncateCaption(p.caption) == TruncateCaption(q.caption)
    ensures p.id == q.id
  {
    var n, tp, tq := FileName(sep, p), TruncateCaption(p.caption), TruncateCaption(q.caption);
    FileNameParts(sep, p);
    FileNameParts(sep, q);
    assert |tp| == |tq| by {
      if |tp| < |tq| {
        assert false;
      } else if |tq| < |tp| {
        assert false;
      }
    }
  }

  /** Without that condition the ID alone does not separate files: caption "a_b"
      with ID "c" and caption "a" with ID "b_c" share one file name. */
  lemma UnderscoreCaptionsCollide(sep: uint8)
    ensures FileName(sep, Picture([], [0x61, 0x5f, 0x62], [0x63]))
         == FileName(sep, Picture([], [0x61], [0x62, 0x5f, 0x63]))
  {
  }

  /** `os.Mkdir` on the output directory: created, already there, or failed otherwise. */
  datatype MkdirResult = Made | AlreadyExists | MkdirFailed

  /** A worker starts taking pictures unless creating the directory failed for a
      reason other than its existing already. */
  predicate WorkerStarts(m: MkdirResult) {
    m != MkdirFailed
  }

  /** A picture with the environment's answers for it: whether `os.Create`, the
      request constructor and the fetch-and-copy succeed. */
  datatype Item = Item(pic: Picture, createOk: bool, requestOk: bool, copyOk: bool)

  /** What one picture leaves behind. Once the file is created it stays, empty or
      partial, even when the request or the copy then fails. */
  datatype ItemOutcome =
    | CreateFailed(name: Bytes)
    | RequestFailed(name: Bytes)
    | CopyFailed(name: Bytes)
    | Downloaded(name: Bytes)

  /** The body run for one picture. */
  function HandleItem(sep: uint8, item: Item): (o: ItemOutcome)
    ensures o.name == FileName(sep, item.pic)
    ensures o.Downloaded? <==> item.createOk && item.requestOk && item.copyOk
    ensures !o.CreateFailed? <==> item.createOk
  {
    var name := FileName(sep, item.pic);
    if !item.createOk then CreateFailed(name)
    else if !item.requestOk then RequestFailed(name)
    else if !item.copyOk then CopyFailed(name)
    else Downloaded(name)
  }

  /** The outcomes of handling a run of pictures, one after another. */
  function HandleAll(sep: uint8, items: seq<Item>): (outs: seq<ItemOutcome>)
    ensures |outs| == |items|
    ensures forall i :: 0 <= i < |items| ==> outs[i] == HandleItem(sep, items[i])
  {
    if |items| == 0 then [] else HandleAll(sep, items[..|items| - 1]) + [HandleItem(sep, items[|items| - 1])]
  }

  /** Where a worker that starts at stream position `pos` stops: the first
      position whose receive sees the context done, or the end of the stream. */
  function StopAt(cancel: Cancel, pos: nat, n: nat): (stop: nat)
    requires pos <= n
    ensures pos <= stop <= n
    ensures forall j :: pos <= j < stop ==> !SeenDone(cancel, j)
    ensures stop < n ==> SeenDone(cancel, stop)
  {
    match cancel
    case NotCancelled => n
    case CancelledAt(k) => if k <= pos then pos else if k < n then k else n
  }

  /** `main` calls `downloadPic` once per worker, one call after another (there
      is no `go` on the call). Each call creates the directory; if that fails it
      returns at once, otherwise it takes pictures from position `pos` of the
      stream until the stream is closed or a received picture finds the context
      done, in which case that picture is dropped. */
  function RunWorkers(sep: uint8, mkdirs: seq<MkdirResult>, stream: seq<Item>, pos: nat, cancel: Cancel): seq<ItemOutcome>
    requires pos <= |stream|
    decreases |mkdirs|
  {
    if |mkdirs| == 0 then []
    else if !WorkerStarts(mkdirs[0]) then RunWorkers(sep, mkdirs[1..], stream, pos, cancel)
    else
      var stop := StopAt(cancel, pos, |stream|);
      var next := if stop < |stream| then stop + 1 else stop;
      HandleAll(sep, stream[pos..stop]) + RunWorkers(sep, mkdirs[1..], stream, next, cancel)
  }

  predicate AnyWorkerStarts(mkdirs: seq<MkdirResult>) {
    exists w :: 0 <= w < |mkdirs| && WorkerStarts(mkdirs[w])
  }

  /** Once the stream is drained, or the context is done at the current
      position, later workers handle nothing. */
  lemma {:induction false} LaterWorkersIdle(sep: uint8, mkdirs: seq<MkdirResult>, stream: seq<Item>, pos: nat, cancel: Cancel)
    requires pos <= |stream|
    requires pos == |stream| || SeenDone(cancel, pos)
    ensures RunWorkers(sep, mkdirs, stream, pos, cancel) == []
    decreases |mkdirs|
  {
    if |mkdirs| > 0 && !WorkerStarts(mkdirs[0]) {
      LaterWorkersIdle(sep, mkdirs[1..], stream, pos, cancel);
    } else if |mkdirs| > 0 {
      var stop := StopAt(cancel, pos, |stream|);
      assert stop == pos;
      var next := if stop < |stream| then stop + 1 else stop;
      LaterWorkersIdle(sep, mkdirs[1..], stream, next, cancel);
    }
  }

  /** The pool handles exactly the pictures received before the context is seen
      done, each once and in stream order, provided some worker gets its
      directory; otherwise it handles nothing. */
  lemma {:induction false} PoolHandlesPrefix(sep: uint8, mkdirs: seq<MkdirResult>, stream: seq<Item>, cancel: Cancel)
    ensures RunWorkers(sep, mkdirs, stream, 0, cancel)
         == if AnyWorkerStarts(mkdirs) then HandleAll(sep, stream[..Completed(cancel, |stream|)]) else []
    decreases |mkdirs|
  {
    if |mkdirs| > 0 {
      if !WorkerStarts(mkdirs[0]) {
        PoolHandlesPrefix(sep, mkdirs[1..], stream, cancel);
        assert AnyWorkerStarts(mkdirs) <==> AnyWorkerStarts(mkdirs[1..]) by {
          if AnyWorkerStarts(mkdirs) {
            var w :| 0 <= w < |mkdirs| && WorkerStarts(mkdirs[w]);
            assert mkdirs[1..][w - 1] == mkdirs[w];
          }
          if AnyWorkerStarts(mkdirs[1..]) {
            var w :| 0 <= w < |mkdirs[1..]| && WorkerStarts(mkdirs[1..][w]);
            assert mkdirs[w + 1] == mkdirs[1..][w];
          }
        }
      } else {
        assert WorkerStarts(mkdirs[0]);
        var stop := StopAt(cancel, 0, |stream|);
        assert stop == Completed(cancel, |stream|);
        var next := if stop < |stream| then stop + 1 else stop;
        LaterWorkersIdle(sep, mkdirs[1..], stream, next, cancel);
        assert stream[0..stop] == stream[..stop];
      }
    }
  }

  /** The names of the files that hold a full download once every outcome has
      happened. `os.Create` truncates an existing file, so a later item with the
      same name whose creation succeeds decides what the file holds; an item
      whose creation fails leaves the file as it was. */
  function DownloadedFiles(outs: seq<ItemOutcome>): set<Bytes> {
    if |outs| == 0 then {}
    else
      var init, last := outs[..|outs| - 1], outs[|outs| - 1];
      if last.Downloaded? then DownloadedFiles(init) + {last.name}
      else if last.CreateFailed? then DownloadedFiles(init)
      else DownloadedFiles(init) - {last.name}
  }

  /** Item `i` downloaded into `x` and no later item with that name managed to
      create (and so truncate) the file. */
  predicate LastWriteAt(outs: seq<ItemOutcome>, i: nat, x: Bytes)
    requires i < |outs|
  {
    && outs[i].Downloaded? && outs[i].name == x
    && forall j :: i < j < |outs| && outs[j].name == x ==> outs[j].CreateFailed?
  }

  /** A file holds a full download exactly when some item downloaded into it
      and no later item with that name managed to create it again. */
  lemma {:induction false} DownloadedFilesLastWrite(outs: seq<ItemOutcome>, x: Bytes)
    ensures x in DownloadedFiles(outs) <==> exists i :: 0 <= i < |outs| && LastWriteAt(outs, i, x)
  {
    if |outs| > 0 {
      var n := |outs| - 1;
      var init, last := outs[..n], outs[n];
      DownloadedFilesLastWrite(init, x);
      if last.name == x && last.Downloaded? {
        assert LastWriteAt(outs, n, x);
      } else if last.name == x && !last.CreateFailed? {
        forall i | 0 <= i < |outs|
          ensures !LastWriteAt(outs, i, x)
        {
          if i < n {
            assert outs[n].name == x && !outs[n].CreateFailed?;
          }
        }
      } else {
        forall i | 0 <= i < n
          ensures LastWriteAt(outs, i, x) <==> LastWriteAt(init, i, x)
        {
          assert forall j :: i < j < n ==> init[j] == outs[j];
        }
        assert !LastWriteAt(outs, n, x);
      }
    }
  }

  /** An item that creates the file but then fails empties what an earlier
      item downloaded under the same name. */
  lemma OverwrittenDownloadIsLost(x: Bytes)
    ensures x !in DownloadedFiles([Downloaded(x), RequestFailed(x)])
    ensures x in DownloadedFiles([RequestFailed(x), Downloaded(x)])
  {
    assert [Downloaded(x), RequestFailed(x)][..1] == [Downloaded(x)];
    assert [RequestFailed(x), Downloaded(x)][..1] == [RequestFailed(x)];
  }

  lemma {:induction false} DownloadedFilesFrom(outs: seq<ItemOutcome>, x: Bytes)
    requires x in DownloadedFiles(outs)
    ensures exists i :: 0 <= i < |outs| && outs[i].name == x
  {
    var init := outs[..|outs| - 1];
    if x in DownloadedFiles(init) {
      DownloadedFilesFrom(init, x);
      var i :| 0 <= i < |init| && init[i].name == x;
      assert outs[i] == init[i];
    } else {
      assert outs[|outs| - 1].name == x;
    }
  }

  /** When every outcome is a download and the names are pairwise distinct,
      there are as many files as outcomes. */
  lemma {:induction false} DownloadedFilesCount(outs: seq<ItemOutcome>)
    requires forall i :: 0 <= i < |outs| ==> outs[i].Downloaded?
    requires forall i, j :: 0 <= i < j < |outs| ==> outs[i].name != outs[j].name
    ensures |DownloadedFiles(outs)| == |outs|
  {
    if |outs| > 0 {
      var init, last := outs[..|outs| - 1], outs[|outs| - 1];
      DownloadedFilesCount(init);
      if last.name in DownloadedFiles(init) {
        DownloadedFilesFrom(init, last.name);
        assert false;
      }
    }
  }

  /** With no cancellation, a worker that gets its directory, every request
      succeeding and pairwise distinct file names, the pool downloads every
      picture into a file of its own. */
  lemma AllPicturesDownloaded(sep: uint8, mkdirs: seq<MkdirResult>, stream: seq<Item>)
    requires AnyWorkerStarts(mkdirs)
    requires forall i :: 0 <= i < |stream| ==> stream[i].createOk && stream[i].requestOk && stream[i].copyOk
    requires forall i, j :: 0 <= i < j < |stream| ==> FileName(sep, stream[i].pic) != FileName(sep, stream[j].pic)
    ensures var outs := RunWorkers(sep, mkdirs, stream, 0, NotCancelled);
      && |outs| == |stream|
      && (forall i :: 0 <= i < |outs| ==> outs[i] == Downloaded(FileName(sep, stream[i].pic)))
      && |DownloadedFiles(outs)| == |stream|
  {
    PoolHandlesPrefix(sep, mkdirs, stream, NotCancelled);
    assert stream[..|stream|] == stream;
    var outs := RunWorkers(sep, mkdirs, stream, 0, NotCancelled);
    DownloadedFilesCount(outs);
  }
}
