/** The `/thumbnail/...` route of server/routes-v2/user/repos/root.js: which file answers a
    thumbnail request. The cache directory `data_storage/thumbnails` is the set of file ids
    that have a thumbnail there; the renderers (sharp, gm, ffmpeg) are represented by
    their outcome. */
module Thumbnail {
  import opened Strings
  import opened JsValues

  type FileId = int

  /** The file the request path resolves to. */
  datatype FileEntry = FileEntry(id: FileId, mimetype: string)

  datatype Platform = Win32 | OtherPlatform

  datatype Renderer = ImageRenderer | PdfRenderer | VideoRenderer

  /** What the handler decides before any renderer runs. */
  datatype Plan = ServeCache | Render(renderer: Renderer) | ServePdfIcon | ServeOriginal

  /** What a renderer reported: success or its error callback. */
  datatype RenderOutcome = Rendered | RenderFailed

  /** The reply: a 404, the cached thumbnail of a file, the original file, the static pdf
      icon, or none (the callback threw before replying). */
  datatype Served = NotFound | ThumbnailOf(id: FileId) | OriginalOf(id: FileId) | PdfIcon | NoReply

  /** Lines 264-329: a cached thumbnail wins; otherwise `image/` prefix, then a mimetype
      containing `pdf`, then `video/` prefix, else the original. */
  function Dispatch(cached: bool, mimetype: string, platform: Platform): (r: Plan)
    ensures r == ServeCache <==> cached
    ensures r == ServePdfIcon ==> platform == Win32 && Contains(mimetype, "pdf")
    ensures r == Render(ImageRenderer) ==> IsPrefix("image/", mimetype)
    ensures r == Render(PdfRenderer) ==> platform != Win32 && Contains(mimetype, "pdf")
    ensures r == Render(VideoRenderer) ==> IsPrefix("video/", mimetype) && !Contains(mimetype, "pdf")
    ensures r == ServeOriginal ==> !IsPrefix("image/", mimetype) && !IsPrefix("video/", mimetype)
  {
    if cached then ServeCache
    else if IsPrefix("image/", mimetype) then Render(ImageRenderer)
    else if Contains(mimetype, "pdf") then
      if platform == Win32 then ServePdfIcon else Render(PdfRenderer)
    else if IsPrefix("video/", mimetype) then Render(VideoRenderer)
    else ServeOriginal
  }

  /** A cached thumbnail is served whatever the mimetype, and no renderer runs. */
  lemma CacheFirst(mimetype: string, platform: Platform)
    ensures Dispatch(true, mimetype, platform) == ServeCache
  {
  }

  /** The branches are tried in order: each one is taken exactly when it matches and no
      earlier one did. */
  lemma DispatchPriority(mimetype: string, platform: Platform)
    ensures var p := Dispatch(false, mimetype, platform);
            && (p == Render(ImageRenderer) <==> IsPrefix("image/", mimetype))
            && (p in {Render(PdfRenderer), ServePdfIcon} <==> !IsPrefix("image/", mimetype) && Contains(mimetype, "pdf"))
            && (p == ServePdfIcon <==> !IsPrefix("image/", mimetype) && Contains(mimetype, "pdf") && platform == Win32)
            && (p == Render(VideoRenderer) <==>
                  !IsPrefix("image/", mimetype) && !Contains(mimetype, "pdf") && IsPrefix("video/", mimetype))
            && (p == ServeOriginal <==>
                  !IsPrefix("image/", mimetype) && !Contains(mimetype, "pdf") && !IsPrefix("video/", mimetype))
  {
  }

  /** An image whose type also mentions pdf is still rendered as an image. */
  lemma DispatchImageBeforePdf()
    ensures Dispatch(false, "image/pdf", OtherPlatform) == Render(ImageRenderer)
  {
    assert "image/pdf"[..6] == "image/";
  }

  /** A video whose type mentions pdf goes to the pdf renderer. */
  lemma DispatchPdfBeforeVideo()
    ensures Dispatch(false, "video/x-pdf", OtherPlatform) == Render(PdfRenderer)
  {
    assert "video/x-pdf"[0] != "image/"[0];
    assert "video/x-pdf"[8..] == "pdf";
    assert IsPrefix("pdf", "video/x-pdf"[8..]);
    assert Contains("video/x-pdf"[8..], "pdf");
    assert "video/x-pdf"[1..][1..][1..][1..][1..][1..][1..][1..] == "video/x-pdf"[8..];
    assert Contains("video/x-pdf", "pdf");
  }

  /** On Windows a pdf gets the static icon instead of a rendering. */
  lemma DispatchPdfOnWindows()
    ensures Dispatch(false, "application/pdf", Win32) == ServePdfIcon
  {
    assert "application/pdf"[0] != "image/"[0];
    var s := "application/pdf";
    assert s[12..] == "pdf";
    assert IsPrefix("pdf", s[12..]);
    assert s[1..][1..][1..][1..][1..][1..][1..][1..][1..][1..][1..][1..] == s[12..];
    assert Contains(s, "pdf");
  }

  /** Any other type is served as it is. */
  lemma DispatchOther()
    ensures Dispatch(false, "text/plain", OtherPlatform) == ServeOriginal
  {
    assert "text/plain"[0] != "image/"[0] && "text/plain"[0] != "video/"[0];
    assert 'd' !in "text/plain";
    MissingCharNotContained("text/plain", "pdf", 1);
  }

  /** The whole route. `file` is the lookup result (line 254), `cache` the ids with a cached
      thumbnail, `outcome` what the renderer reported, and `requestFileId` the id of
      `req.file`, which the video branch reads (line 311), `None` when `req.file` is not
      set. Returns the reply and the cache afterwards. */
  function Serve(file: Option<FileEntry>, cache: set<FileId>, platform: Platform, outcome: RenderOutcome,
                 requestFileId: Option<FileId>): (r: (Served, set<FileId>))
    ensures r.0 == NotFound <==> file.None?
    ensures r.1 == cache || (file.Some? && r.0 == ThumbnailOf(file.value.id) && r.1 == cache + {file.value.id})
    ensures r.0 == PdfIcon ==> platform == Win32
  {
    if file.None? then (NotFound, cache)
    else
      var f := file.value;
      match Dispatch(f.id in cache, f.mimetype, platform)
      case ServeCache => (ThumbnailOf(f.id), cache)
      case ServePdfIcon => (PdfIcon, cache)
      case ServeOriginal => (OriginalOf(f.id), cache)
      case Render(renderer) =>
        if outcome == RenderFailed then (OriginalOf(f.id), cache)
        else if renderer != VideoRenderer then (ThumbnailOf(f.id), cache + {f.id})
        else if requestFileId.None? then (NoReply, cache)
        else if requestFileId.value != f.id then (OriginalOf(f.id), cache)
        else (ThumbnailOf(f.id), cache + {f.id})
  }

  /** A file that is not found gets a 404 and nothing is written. */
  lemma ServeNotFound(cache: set<FileId>, platform: Platform, outcome: RenderOutcome, requestFileId: Option<FileId>)
    ensures Serve(None, cache, platform, outcome, requestFileId) == (NotFound, cache)
  {
  }

  /** The cache only grows, and only by the requested file; a thumbnail is only ever served
      for the requested file, and only once it is in the cache. */
  lemma ServeCacheGrowth(file: Option<FileEntry>, cache: set<FileId>, platform: Platform, outcome: RenderOutcome,
                         requestFileId: Option<FileId>)
    ensures var (served, after) := Serve(file, cache, platform, outcome, requestFileId);
            && cache <= after
            && (file.None? ==> after == cache)
            && (file.Some? ==> after <= cache + {file.value.id})
            && (served.ThumbnailOf? ==> file.Some? && served.id == file.value.id && served.id in after)
            && (served.OriginalOf? ==> file.Some? && served.id == file.value.id)
  {
  }

  /** A renderer that fails falls back to the original file and caches nothing. */
  lemma RenderFailureServesOriginal(f: FileEntry, cache: set<FileId>, platform: Platform, requestFileId: Option<FileId>)
    requires Dispatch(f.id in cache, f.mimetype, platform).Render?
    ensures Serve(Some(f), cache, platform, RenderFailed, requestFileId) == (OriginalOf(f.id), cache)
  {
  }

  /** Once a request served a thumbnail, every later request for the same file is served
      from the cache, whatever the renderers would do. */
  lemma SecondRequestFromCache(f: FileEntry, cache: set<FileId>, platform: Platform, outcome: RenderOutcome,
                               requestFileId: Option<FileId>, platform2: Platform, outcome2: RenderOutcome,
                               requestFileId2: Option<FileId>)
    requires Serve(Some(f), cache, platform, outcome, requestFileId).0 == ThumbnailOf(f.id)
    ensures var after := Serve(Some(f), cache, platform, outcome, requestFileId).1;
            Serve(Some(f), after, platform2, outcome2, requestFileId2) == (ThumbnailOf(f.id), after)
  {
    ServeCacheGrowth(Some(f), cache, platform, outcome, requestFileId);
  }
}
