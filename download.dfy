/**
 * `download_chapter` of mangadex.py: fetch the chapter's metadata, then each
 * page in order from the primary image server, switching for good to the
 * fallback server after the first page the primary server cannot serve, and
 * stopping at the first page neither server serves.
 *
 * The network is an oracle keyed by URL: what `retry_request(url, times=10)`
 * returns for that URL (`Some(content)` for a response, `None` when it gave
 * up). File writes are returned as the sequence of (path, content) pairs
 * written, in order.
 */
module Download {
  import opened Common

  /** The fields of the chapter API's `data` object that `download_chapter` reads. */
  datatype ChapterData = ChapterData(chapter: string, server: string, serverFallback: string, hash: string, pages: seq<string>)

  datatype Server = Primary | Fallback

  /** One page request: which server, which page (index into `pages`) and the URL fetched. */
  datatype Request = Request(server: Server, page: nat, url: string)

  /** One file written: its path and its bytes. */
  datatype PageFile = PageFile(path: string, content: Bytes)

  datatype ChapterResult = NoChapterInfo | Saved | Abandoned

  /** `server + hash + "/" + page`, or the same with `serverFallback`. */
  function PageUrl(ch: ChapterData, server: Server, k: nat): string
    requires k < |ch.pages|
  {
    (if server == Primary then ch.server else ch.serverFallback) + ch.hash + "/" + ch.pages[k]
  }

  /**
   * The first page at or after `from` that `server` cannot serve, or the
   * number of pages if it serves them all.
   */
  function FirstFailure(ch: ChapterData, server: Server, fetch: string -> Option<Bytes>, from: nat): (k: nat)
    requires from <= |ch.pages|
    ensures from <= k <= |ch.pages|
    ensures forall j :: from <= j < k ==> fetch(PageUrl(ch, server, j)).Some?
    ensures k < |ch.pages| ==> fetch(PageUrl(ch, server, k)).None?
    decreases |ch.pages| - from
  {
    if from == |ch.pages| || fetch(PageUrl(ch, server, from)).None? then from
    else FirstFailure(ch, server, fetch, from + 1)
  }

  /** The page at which `fallback_server` is set (the number of pages if it never is). */
  function SwitchPage(ch: ChapterData, fetch: string -> Option<Bytes>): nat
  {
    FirstFailure(ch, Primary, fetch, 0)
  }

  /** The page at which the loop gives up (the number of pages if it saves them all). */
  function StopPage(ch: ChapterData, fetch: string -> Option<Bytes>): nat
  {
    FirstFailure(ch, Fallback, fetch, SwitchPage(ch, fetch))
  }

  /** Whether "Saved chapter" is reached. */
  predicate Completes(ch: ChapterData, fetch: string -> Option<Bytes>)
  {
    StopPage(ch, fetch) == |ch.pages|
  }

  function ServerFor(switch: nat, k: nat): Server
  {
    if k < switch then Primary else Fallback
  }

  /** Requests to `server` for pages `from` up to `to`, in order. */
  function RequestsBetween(ch: ChapterData, server: Server, from: nat, to: nat): (r: seq<Request>)
    requires from <= to <= |ch.pages|
    ensures |r| == to - from
  {
    if to == from then []
    else RequestsBetween(ch, server, from, to - 1) + [Request(server, to - 1, PageUrl(ch, server, to - 1))]
  }

  /**
   * The page requests in order: the primary server for every page up to and
   * including the switch page, then the fallback server from the switch page
   * up to and including the page where the loop gives up.
   */
  function PageRequests(ch: ChapterData, fetch: string -> Option<Bytes>): seq<Request>
  {
    var n, s, stop := |ch.pages|, SwitchPage(ch, fetch), StopPage(ch, fetch);
    RequestsBetween(ch, Primary, 0, if s < n then s + 1 else n)
      + RequestsBetween(ch, Fallback, s, if stop < n then stop + 1 else n)
  }

  /** The bytes saved for page `k`: what the server in use for that page returned. */
  function Content(ch: ChapterData, fetch: string -> Option<Bytes>, switch: nat, k: nat): Bytes
    requires k < |ch.pages|
  {
    match fetch(PageUrl(ch, ServerFor(switch, k), k))
    case Some(content) => content
    case None => []
  }

  /** The files written for pages 0 up to `to`, in order. */
  function FilesUpTo(ch: ChapterData, dir: string, fetch: string -> Option<Bytes>, switch: nat, to: nat): (r: seq<PageFile>)
    requires to <= |ch.pages|
    ensures |r| == to
  {
    if to == 0 then []
    else
      FilesUpTo(ch, dir, fetch, switch, to - 1)
        + [PageFile(JoinPath(dir, ch.pages[to - 1]), Content(ch, fetch, switch, to - 1))]
  }

  /** The files the page loop writes into `dir`. */
  function PageFiles(ch: ChapterData, dir: string, fetch: string -> Option<Bytes>): seq<PageFile>
  {
    FilesUpTo(ch, dir, fetch, SwitchPage(ch, fetch), StopPage(ch, fetch))
  }

  /** Up to the switch page the primary server is in use; it fails first at the switch page. */
  lemma PrimaryServes(ch: ChapterData, fetch: string -> Option<Bytes>, k: nat)
    requires k < |ch.pages| && k <= SwitchPage(ch, fetch)
    ensures fetch(PageUrl(ch, Primary, k)).Some? <==> k < SwitchPage(ch, fetch)
  {
  }

  /** From the switch page on the fallback server is in use; it fails first at the stop page. */
  lemma FallbackServes(ch: ChapterData, fetch: string -> Option<Bytes>, k: nat)
    requires k < |ch.pages| && SwitchPage(ch, fetch) <= k <= StopPage(ch, fetch)
    ensures fetch(PageUrl(ch, Fallback, k)).Some? <==> k < StopPage(ch, fetch)
  {
  }

  /**
   * The requests made for pages before `k`: to the primary server alone
   * while it serves, then, once it has failed at page `s`, to the primary
   * server up to and including `s` and to the fallback server from `s` on.
   */
  function RequestsSoFar(ch: ChapterData, s: nat, k: nat, switched: bool): seq<Request>
    requires k <= |ch.pages|
    requires switched ==> s < k
  {
    if switched then RequestsBetween(ch, Primary, 0, s + 1) + RequestsBetween(ch, Fallback, s, k)
    else RequestsBetween(ch, Primary, 0, k)
  }

  /** A request to the primary server for page `k` extends the primary requests by one page. */
  lemma PrimaryStep(ch: ChapterData, s: nat, k: nat)
    requires k < |ch.pages|
    ensures RequestsSoFar(ch, s, k, false) + [Request(Primary, k, PageUrl(ch, Primary, k))]
            == RequestsSoFar(ch, s, k + 1, false)
  {
  }

  /** The first request to the fallback server is for the page the primary server failed on. */
  lemma SwitchStep(ch: ChapterData, k: nat)
    requires k < |ch.pages|
    ensures RequestsSoFar(ch, k, k + 1, false) + [Request(Fallback, k, PageUrl(ch, Fallback, k))]
            == RequestsSoFar(ch, k, k + 1, true)
  {
    assert RequestsBetween(ch, Fallback, k, k) == [];
  }

  /** A further request to the fallback server extends the fallback requests by one page. */
  lemma FallbackStep(ch: ChapterData, s: nat, k: nat)
    requires s < k < |ch.pages|
    ensures RequestsSoFar(ch, s, k, true) + [Request(Fallback, k, PageUrl(ch, Fallback, k))]
            == RequestsSoFar(ch, s, k + 1, true)
  {
    var p, f := RequestsBetween(ch, Primary, 0, s + 1), RequestsBetween(ch, Fallback, s, k);
    var req := Request(Fallback, k, PageUrl(ch, Fallback, k));
    assert RequestsBetween(ch, Fallback, s, k + 1) == f + [req];
    assert p + f + [req] == p + (f + [req]);
  }

  /** Saving page `k` with the bytes its server returned extends the files by one page. */
  lemma FileStep(ch: ChapterData, dir: string, fetch: string -> Option<Bytes>, s: nat, k: nat, content: Bytes)
    requires k < |ch.pages|
    requires fetch(PageUrl(ch, ServerFor(s, k), k)) == Some(content)
    ensures FilesUpTo(ch, dir, fetch, s, k) + [PageFile(JoinPath(dir, ch.pages[k]), content)]
            == FilesUpTo(ch, dir, fetch, s, k + 1)
  {
    assert Content(ch, fetch, s, k) == content;
  }

  /**
   * When the fallback server fails for page `k`, the loop gives up there:
   * "Saved chapter" is not reached, page `k` was the last one requested, and
   * the pages before `k` were written.
   */
  lemma GivesUpAt(ch: ChapterData, dir: string, fetch: string -> Option<Bytes>, k: nat)
    requires k < |ch.pages| && SwitchPage(ch, fetch) <= k <= StopPage(ch, fetch)
    requires fetch(PageUrl(ch, Fallback, k)).None?
    ensures !Completes(ch, fetch)
    ensures PageRequests(ch, fetch) == RequestsSoFar(ch, SwitchPage(ch, fetch), k + 1, true)
    ensures PageFiles(ch, dir, fetch) == FilesUpTo(ch, dir, fetch, SwitchPage(ch, fetch), k)
  {
    FallbackServes(ch, fetch, k);
  }

  /**
   * When the loop runs past the last page, "Saved chapter" is reached, and
   * every page was requested and written.
   */
  lemma SavesAll(ch: ChapterData, dir: string, fetch: string -> Option<Bytes>, switched: bool)
    requires switched ==> SwitchPage(ch, fetch) < |ch.pages| <= StopPage(ch, fetch)
    requires !switched ==> |ch.pages| <= SwitchPage(ch, fetch)
    ensures Completes(ch, fetch)
    ensures PageRequests(ch, fetch) == RequestsSoFar(ch, SwitchPage(ch, fetch), |ch.pages|, switched)
    ensures PageFiles(ch, dir, fetch) == FilesUpTo(ch, dir, fetch, SwitchPage(ch, fetch), |ch.pages|)
  {
    var n, s := |ch.pages|, SwitchPage(ch, fetch);
    if !switched {
      assert RequestsBetween(ch, Fallback, s, n) == [];
    }
  }

  /**
   * The page loop of `download_chapter`, writing into `dir`.
   * `saved` says whether "Saved chapter" is reached.
   */
  method SavePages(ch: ChapterData, dir: string, fetch: string -> Option<Bytes>)
    returns (saved: bool, requests: seq<Request>, files: seq<PageFile>)
    ensures saved == Completes(ch, fetch)
    ensures requests == PageRequests(ch, fetch)
    ensures files == PageFiles(ch, dir, fetch)
  {
    var fallbackServer := false;
    requests, files := [], [];
    ghost var s := SwitchPage(ch, fetch);
    for k := 0 to |ch.pages|
      invariant !fallbackServer ==> k <= s
      invariant fallbackServer ==> s < k <= StopPage(ch, fetch)
      invariant requests == RequestsSoFar(ch, s, k, fallbackServer)
      invariant files == FilesUpTo(ch, dir, fetch, s, k)
    {
      var page := ch.pages[k];
      var resp: Option<Bytes> := None;
      if !fallbackServer {
        var link := PageUrl(ch, Primary, k);
        resp := fetch(link);
        PrimaryServes(ch, fetch, k);
        PrimaryStep(ch, s, k);
        requests := requests + [Request(Primary, k, link)];
        if resp.None? {
          fallbackServer := true;
          SwitchStep(ch, k);
        }
      } else {
        FallbackStep(ch, s, k);
      }
      if fallbackServer {
        var link := PageUrl(ch, Fallback, k);
        resp := fetch(link);
        requests := requests + [Request(Fallback, k, link)];
        if resp.None? {
          GivesUpAt(ch, dir, fetch, k);
          return false, requests, files;
        }
        FallbackServes(ch, fetch, k);
      }
      FileStep(ch, dir, fetch, s, k, resp.value);
      files := files + [PageFile(JoinPath(dir, page), resp.value)];
    }
    SavesAll(ch, dir, fetch, fallbackServer);
    saved := true;
  }

  /** The URL `download_chapter` asks for a chapter's metadata. */
  function ChapterApiUrl(chapterId: int): string
  {
    "https://api.mangadex.org/v2/chapter/" + IntToStr(chapterId)
  }

  /**
   * `download_chapter(chapter_id, title)`. `api` stands for `retry_request`
   * on the metadata URL followed by decoding its `data` object; when it gives
   * up, no page is requested. Pages go into `title/chapter`.
   */
  method DownloadChapter(chapterId: int, title: string, api: string -> Option<ChapterData>, fetch: string -> Option<Bytes>)
    returns (result: ChapterResult, requests: seq<Request>, files: seq<PageFile>)
    ensures api(ChapterApiUrl(chapterId)).None? ==> result == NoChapterInfo && requests == [] && files == []
    ensures api(ChapterApiUrl(chapterId)).Some? ==>
              var ch := api(ChapterApiUrl(chapterId)).value;
              && result == (if Completes(ch, fetch) then Saved else Abandoned)
              && requests == PageRequests(ch, fetch)
              && files == PageFiles(ch, JoinPath(title, ch.chapter), fetch)
  {
    var info := api("https://api.mangadex.org/v2/chapter/" + IntToStr(chapterId));
    if info.None? {
      return NoChapterInfo, [], [];
    }
    var ch := info.value;
    var chapterPath := JoinPath(title, ch.chapter);
    var saved;
    saved, requests, files := SavePages(ch, chapterPath, fetch);
    result := if saved then Saved else Abandoned;
  }

  /** Element `i` of `RequestsBetween` asks `server` for page `from + i`. */
  lemma {:induction false} RequestsBetweenAt(ch: ChapterData, server: Server, from: nat, to: nat, i: nat)
    requires from <= to <= |ch.pages| && i < to - from
    ensures RequestsBetween(ch, server, from, to)[i] == Request(server, from + i, PageUrl(ch, server, from + i))
  {
    if i < to - from - 1 {
      RequestsBetweenAt(ch, server, from, to - 1, i);
    }
  }

  /** Element `j` of `FilesUpTo` is page `j`, saved under its own name with the bytes its server returned. */
  lemma {:induction false} FilesUpToAt(ch: ChapterData, dir: string, fetch: string -> Option<Bytes>, switch: nat, to: nat, j: nat)
    requires to <= |ch.pages| && j < to
    ensures FilesUpTo(ch, dir, fetch, switch, to)[j] == PageFile(JoinPath(dir, ch.pages[j]), Content(ch, fetch, switch, j))
  {
    if j < to - 1 {
      FilesUpToAt(ch, dir, fetch, switch, to - 1, j);
    }
  }

  /**
   * The files written are an in-order prefix of the pages: file `j` is page
   * `j` under `dir`, holding the bytes its server returned; all pages are
   * written exactly when "Saved chapter" is reached.
   */
  lemma FilesArePagePrefix(ch: ChapterData, dir: string, fetch: string -> Option<Bytes>)
    ensures var files := PageFiles(ch, dir, fetch);
            && |files| <= |ch.pages|
            && (Completes(ch, fetch) <==> |files| == |ch.pages|)
            && forall j :: 0 <= j < |files| ==>
                 && files[j].path == JoinPath(dir, ch.pages[j])
                 && fetch(PageUrl(ch, ServerFor(SwitchPage(ch, fetch), j), j)) == Some(files[j].content)
  {
    var s, stop := SwitchPage(ch, fetch), StopPage(ch, fetch);
    forall j | 0 <= j < stop
      ensures PageFiles(ch, dir, fetch)[j].path == JoinPath(dir, ch.pages[j])
      ensures fetch(PageUrl(ch, ServerFor(s, j), j)) == Some(PageFiles(ch, dir, fetch)[j].content)
    {
      FilesUpToAt(ch, dir, fetch, s, stop, j);
    }
  }

  /** How many requests go to the primary server. */
  function PrimaryCount(ch: ChapterData, fetch: string -> Option<Bytes>): nat
  {
    if SwitchPage(ch, fetch) < |ch.pages| then SwitchPage(ch, fetch) + 1 else |ch.pages|
  }

  /**
   * Request `i` in order: the first `PrimaryCount` requests go to the
   * primary server for pages 0, 1, ...; each later one goes to the fallback
   * server for page `i - 1`, so the switch page is requested from both.
   */
  lemma PageRequestAt(ch: ChapterData, fetch: string -> Option<Bytes>, i: nat)
    requires i < |PageRequests(ch, fetch)|
    ensures var r := PageRequests(ch, fetch)[i];
            && r.server == (if i < PrimaryCount(ch, fetch) then Primary else Fallback)
            && r.page == (if i < PrimaryCount(ch, fetch) then i else i - 1)
            && r.page < |ch.pages|
            && r.url == PageUrl(ch, r.server, r.page)
    ensures PrimaryCount(ch, fetch) <= i ==> PrimaryCount(ch, fetch) == SwitchPage(ch, fetch) + 1
  {
    var n, s, stop := |ch.pages|, SwitchPage(ch, fetch), StopPage(ch, fetch);
    var primaries := PrimaryCount(ch, fetch);
    if i < primaries {
      RequestsBetweenAt(ch, Primary, 0, primaries, i);
    } else {
      RequestsBetweenAt(ch, Fallback, s, if stop < n then stop + 1 else n, i - primaries);
    }
  }

  /** Every request asks for a page of the chapter at the URL built from its server, the hash and the page. */
  lemma RequestUrls(ch: ChapterData, fetch: string -> Option<Bytes>)
    ensures var r := PageRequests(ch, fetch);
            forall i :: 0 <= i < |r| ==> r[i].page < |ch.pages| && r[i].url == PageUrl(ch, r[i].server, r[i].page)
  {
    forall i | 0 <= i < |PageRequests(ch, fetch)|
      ensures PageRequests(ch, fetch)[i].page < |ch.pages|
      ensures PageRequests(ch, fetch)[i].url == PageUrl(ch, PageRequests(ch, fetch)[i].server, PageRequests(ch, fetch)[i].page)
    {
      PageRequestAt(ch, fetch, i);
    }
  }

  /**
   * Pages before the switch page are fetched only from the primary server,
   * pages after it only from the fallback server.
   */
  lemma ServerBySwitchPage(ch: ChapterData, fetch: string -> Option<Bytes>)
    ensures var r, s := PageRequests(ch, fetch), SwitchPage(ch, fetch);
            && (forall i :: 0 <= i < |r| && r[i].page < s ==> r[i].server == Primary)
            && (forall i :: 0 <= i < |r| && r[i].page > s ==> r[i].server == Fallback)
  {
    var r, s := PageRequests(ch, fetch), SwitchPage(ch, fetch);
    forall i | 0 <= i < |r|
      ensures r[i].page < s ==> r[i].server == Primary
      ensures r[i].page > s ==> r[i].server == Fallback
    {
      PageRequestAt(ch, fetch, i);
    }
  }

  /** Once a request goes to the fallback server, every later one does too. */
  lemma FallbackIsSticky(ch: ChapterData, fetch: string -> Option<Bytes>)
    ensures var r := PageRequests(ch, fetch);
            forall i, j :: 0 <= i < j < |r| && r[i].server == Fallback ==> r[j].server == Fallback
  {
    var r := PageRequests(ch, fetch);
    forall i, j | 0 <= i < j < |r| && r[i].server == Fallback
      ensures r[j].server == Fallback
    {
      PageRequestAt(ch, fetch, i);
      PageRequestAt(ch, fetch, j);
    }
  }

  /**
   * When both servers fail for page `k`, the loop does not get past it: no
   * file for page `k` or later is written, no later page is requested, and
   * "Saved chapter" is not reached.
   */
  lemma DoubleFailureStops(ch: ChapterData, dir: string, fetch: string -> Option<Bytes>, k: nat)
    requires k < |ch.pages|
    requires fetch(PageUrl(ch, Primary, k)).None? && fetch(PageUrl(ch, Fallback, k)).None?
    ensures !Completes(ch, fetch)
    ensures |PageFiles(ch, dir, fetch)| <= k
    ensures forall i :: 0 <= i < |PageRequests(ch, fetch)| ==> PageRequests(ch, fetch)[i].page <= k
  {
    var s, stop := SwitchPage(ch, fetch), StopPage(ch, fetch);
    assert s <= k;
    assert stop <= k;
    forall i | 0 <= i < |PageRequests(ch, fetch)|
      ensures PageRequests(ch, fetch)[i].page <= k
    {
      PageRequestAt(ch, fetch, i);
    }
  }
}
