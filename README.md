# anime-scraper core in Dafny

This project models the decision logic of two download scripts.

- `mangadex.py` downloads manga chapters from the MangaDex v2 API. It retries GET requests with a counted loop (`retry_request`). It filters a manga's chapter list by language and drops duplicate chapter numbers, keeping the most viewed entry (`has_chapter`, `remove_duplicate_chapters`, `get_chapters_from_manga`). It saves a chapter's pages one by one, switching for good to a fallback image server after the primary one fails (`download_chapter`). Its command line takes `-c` (chapter ids) and `-l` / `--lang` (languages, default `gb`).
- `wcostream.py` downloads a playlist. It picks the anchors whose class list holds `sonra` from the rendered page, and builds a `VideoDetails(page_url, s_path)` for each one. It exits with code 3 when there are none, and otherwise starts one download per video. Before that it checks its arguments (exit 1) and its save directory (exit 2).

Loops are modelled as methods. Each method is proved equal to a reference function, and the properties the scripts promise are proved about those functions as lemmas.

Everything outside the scripts' own logic is a parameter:
- the network is an oracle: a finite sequence of attempt outcomes for `retry_request`, or a function from URL to an optional payload;
- `int()` parsing is an oracle `string -> Option<int>`;
- the rendered page is its sequence of anchors;
- the state of the save path, the platform and whether xvfb starts are plain values.

Modules:
- `Common` (`common.dfy`): `Option`, `os.path.join`, `str(int)`;
- `Retry` (`retry.dfy`): `retry_request`;
- `Chapters` (`chapters.dfy`): `has_chapter`, `remove_duplicate_chapters`, the language filter;
- `Download` (`download.dfy`): the page loop of `download_chapter`;
- `MangaCli` (`manga_cli.dfy`): the module-level argument handling of `mangadex.py`;
- `Wcostream` (`wcostream.dfy`): `VideoDetails`, `rip_playlist`, and the module-level checks of `wcostream.py`.

## Model

| member | source | states |
|---|---|---|
| Common.JoinPathPlacesName | mangadex.py:42 | `os.path.join` on POSIX. The result ends with the name. An absolute name replaces the directory. Otherwise the result starts with the directory. |
| Common.IntToStr | mangadex.py:35 | `str(i)` is non-empty and starts with `-` exactly when `i` is negative. |
| Retry.FirstOk | mangadex.py:23-24 | Returns the index of the first ok response, or the length of the sequence if there is none. No attempt before it is ok. |
| Retry.RetryOutcome | mangadex.py:11-28 | Reference outcome of `retry_request`. A returned response is ok and is the first ok one. `None` comes only after exactly `times` attempts, ending on a non-ok status, with nothing ok before. The call is still running only when the oracle ran out before an ok response. |
| Retry.RetryRequest | mangadex.py:17-28 | The `while True` loop, with the exception path skipping the zero check. It returns exactly `RetryOutcome`: the reply and the number of attempts consumed. |
| Retry.AllFailingStatusesExhaust | mangadex.py:25-28 | With `times = N > 0` and only non-ok statuses, exactly N attempts are made and `None` is returned. |
| Retry.SucceedsOnAttempt | mangadex.py:17-24 | An ok response on attempt k, with no earlier ok one and no exhaustion before it (k within the budget, or a budget of zero or below), is returned after exactly k attempts. |
| Retry.UnboundedNeverGivesUp | mangadex.py:14 | `times = 0` (or below) never returns `None`. |
| Retry.NeverReturnsFailure | mangadex.py:23-24 | A returned response is always ok, and no attempt is consumed after the first ok one. |
| Retry.ExceptionOutlastsBudget | mangadex.py:20-22 | As written, with `times = 1`, an exception followed by any number of non-ok statuses never returns `None`. |
| Retry.BoundedRetryRequest | mangadex.py:11-16 | The corrected loop, where every failure uses one unit of the budget. It never consumes more than `times` attempts when `times >= 1`. It returns `None` exactly when the first `times` attempts all fail. A response is the first ok one. |
| Chapters.IndexOfKey | mangadex.py:83-92 | Returns -1 or a valid index whose entry has the key. |
| Chapters.KeyFound | mangadex.py:88-91 | The search finds a key that occurs at index j, at or before j. |
| Chapters.IndexOfKeyIsFirst | mangadex.py:83-92 | Returns -1 exactly when no entry has the key; otherwise no earlier entry has the key. |
| Chapters.HasChapter | mangadex.py:83-92 | The early-return search loop returns `IndexOfKey`: the first index with an equal `chapter` key, or -1. |
| Chapters.AppendNewKey | mangadex.py:99-100 | Appending an entry whose key is not yet kept preserves the de-duplication invariant. |
| Chapters.ReplaceKept | mangadex.py:101-103 | Replacing a kept entry with a later one that has strictly more views preserves the invariant. |
| Chapters.KeepExisting | mangadex.py:101-102 | Skipping an entry with no more views than the kept one preserves the invariant. |
| Chapters.RemoveDuplicateChapters | mangadex.py:94-104 | The result has pairwise distinct keys and covers every key of the input, in order of first occurrence. Each kept entry is an input entry with maximal views for its key, and the earliest among those with equal views. |
| Chapters.FilterLanguages | mangadex.py:117-122 | The in-place deleting loop, whose index advances only past kept entries, leaves exactly `InLanguages`. |
| Chapters.InLanguagesMembership | mangadex.py:119-120 | An entry survives the filter exactly when it was in the list and its language is requested. |
| Chapters.InLanguagesAppend | mangadex.py:117-122 | The filter keeps relative order: filtering a concatenation gives the concatenation of the filtered parts. |
| Chapters.ChaptersFromManga | mangadex.py:106-125 | No chapter list is returned exactly when the API request gave up. Otherwise the result is the de-duplication of the language-filtered list. |
| Chapters.CatalogExample | mangadex.py:94-124 | Two `gb` entries of chapter "1" with 3 and 7 views plus an `fr` entry, filtered to `["gb"]`, leave only the entry with 7 views. |
| Download.FirstFailure | mangadex.py:50-64 | Returns the first page, from a given page on, that a server cannot serve. Every page before it is served. |
| Download.PrimaryServes | mangadex.py:51-56 | Up to the switch page, the primary server serves a page exactly when the page is before the switch page. |
| Download.FallbackServes | mangadex.py:58-64 | From the switch page on, the fallback server serves a page exactly when the page is before the stop page. |
| Download.PrimaryStep | mangadex.py:51-54 | A primary request for page k extends the primary requests by that page. |
| Download.SwitchStep | mangadex.py:55-61 | The first fallback request is for the page the primary server failed on. |
| Download.FallbackStep | mangadex.py:58-61 | A further fallback request extends the fallback requests by one page. |
| Download.FileStep | mangadex.py:66-67 | Writing page k with its server's bytes extends the written files by that page. |
| Download.GivesUpAt | mangadex.py:58-64 | When the fallback server fails for page k, "Saved chapter" is not reached. Page k is the last page requested, and exactly the pages before k are written. |
| Download.SavesAll | mangadex.py:50-69 | When the loop runs past the last page, "Saved chapter" is reached, and every page is requested and written. |
| Download.SavePages | mangadex.py:48-69 | The page loop returns whether "Saved chapter" is reached, and the exact sequences of requests and written files given by the reference functions. |
| Download.DownloadChapter | mangadex.py:30-69 | Without chapter metadata, nothing is requested or written. Otherwise the page loop runs on the metadata and writes under `title/chapter`. |
| Download.RequestsBetweenAt | mangadex.py:50-61 | Request i of a run of requests to one server is for page `from + i`, at that page's URL. |
| Download.FilesUpToAt | mangadex.py:66-67 | File j is page j under the chapter directory, holding the bytes its server returned. |
| Download.FilesArePagePrefix | mangadex.py:50-69 | The written files are an in-order prefix of the pages, each holding the payload its server returned. All pages are written exactly when "Saved chapter" is reached. |
| Download.PageRequestAt | mangadex.py:50-61 | The first requests go to the primary server for pages 0, 1, …. Every later request goes to the fallback server for the page before its position, so the switch page is asked of both servers. |
| Download.RequestUrls | mangadex.py:52-59 | Every request is for a page of the chapter, at `server + hash + "/" + page` or `serverFallback + hash + "/" + page`. |
| Download.ServerBySwitchPage | mangadex.py:51-61 | Pages before the switch page are fetched only from the primary server, and pages after it only from the fallback server. |
| Download.FallbackIsSticky | mangadex.py:48-61 | Once a request goes to the fallback server, every later request does too. |
| Download.DoubleFailureStops | mangadex.py:58-69 | If both servers fail for page k, no file for page k or later is written, no later page is requested, and "Saved chapter" is not reached. |
| MangaCli.FirstIndex | mangadex.py:165 | `list.index` gives the first position of the flag: the flag is at that position and not before it. |
| MangaCli.CollectChapterIds | mangadex.py:151-158 | The `-c` loop collects `ParsedIds(argv[1:])`: the arguments `int()` accepts, in order. |
| MangaCli.ParsedIdsMembership | mangadex.py:153-157 | An id is collected exactly when some argument parses to it. |
| MangaCli.ParsedIdsAppend | mangadex.py:153-156 | Collection preserves argument order. |
| MangaCli.TakeFlag | mangadex.py:164-168 | An absent flag changes nothing. A present one takes exactly one value and removes two arguments, or fails with the IndexError. |
| MangaCli.DeleteFlag | mangadex.py:164-168 | The append-and-two-deletes of one flag equals `TakeFlag`. |
| MangaCli.ExtractLanguages | mangadex.py:162-176 | `-l`, then `--lang` on what remains, then the `gb` default, equals `Languages`. |
| MangaCli.TakeFlagReinserts | mangadex.py:165-168 | Putting the flag and its value back at the flag's first position restores the argument list. No earlier argument was the flag. |
| MangaCli.TakeFlagFails | mangadex.py:165-166 | The IndexError happens exactly when the flag's only occurrence is the last argument. |
| MangaCli.DefaultLanguage | mangadex.py:175-176 | Without either flag, the languages are `["gb"]` and the arguments are untouched. |
| MangaCli.LanguagesInFlagOrder | mangadex.py:162-176 | There are one or two languages, `-l`'s value first. Whenever `-l` or `--lang` is present, the arguments shrink by exactly two per language taken, even for an explicit `gb`. |
| MangaCli.Dispatch | mangadex.py:141-176 | Usage (exit 1) is shown exactly for fewer than two arguments or a help flag. Otherwise `-c` wins and downloads the parsed ids. Otherwise the manga downloads use the extracted languages and the remaining arguments. A missing flag value crashes. |
| MangaCli.ManualChaptersIgnoreLanguages | mangadex.py:151-158 | In `-c` mode, an id is downloaded exactly when some argument after the script name parses to it. |
| Wcostream.Details | wcostream.py:73 | `page_url` is the anchor's `href`, and `s_path` ends with `text + ".mp4"`. |
| Wcostream.SelectVideos | wcostream.py:68-73 | The selection loop returns exactly `Videos`, or the KeyError of a marked anchor without `href`. |
| Wcostream.FailureIsFinal | wcostream.py:72-73 | Once `a["href"]` has raised, the selection fails whatever follows. |
| Wcostream.RipPlaylist | wcostream.py:60-88 | Returns exactly `PlaylistOutcome`: exit 3 on zero videos, otherwise one process per video, in order. |
| Wcostream.VideosFail | wcostream.py:72-73 | The selection raises exactly when some anchor with class token `sonra` has no `href`. |
| Wcostream.VideoHasLink | wcostream.py:69-73 | Every selected `VideoDetails` is built from an anchor with the `sonra` class token and an `href`. |
| Wcostream.LinkGivesVideo | wcostream.py:69-73 | Every anchor with the `sonra` class token and an `href` gives its `VideoDetails` in the selection. |
| Wcostream.VideosMembership | wcostream.py:69-73 | A `VideoDetails` is selected exactly when it is built from an anchor with the `sonra` class token and an `href`. |
| Wcostream.VideosAppend | wcostream.py:68-73 | The selection keeps document order. |
| Wcostream.NoLinksNoVideos | wcostream.py:68-73 | A page with no `sonra` anchor yields no videos. |
| Wcostream.NoLinksExit3 | wcostream.py:75-77 | With no `sonra` anchor, `rip_playlist` exits with code 3 and starts no process. |
| Wcostream.SpawnsIffLinks | wcostream.py:68-84 | Download processes start exactly when the page has a `sonra` anchor and every such anchor has an `href`. |
| Wcostream.RunScript | wcostream.py:92-114 | The module-level statements equal `ScriptOutcome`, including whether the save directory is created. |
| Wcostream.ExitCodes | wcostream.py:92-111 | Exit 1 happens exactly for too few arguments or a help flag, and the directory is then untouched. Exit 2 happens exactly for a save path that is not a directory. The directory is created exactly when it was missing. Exit 3 happens, when xvfb is fine, exactly when the page has no videos. No other exit code occurs. |

## Left out

- Concurrency: `download_chapters` (mangadex.py:71-81), the process fan-out and joins in `rip_playlist` (wcostream.py:79-89), and `rip_video` with its shared lock (wcostream.py:30-58). `RipPlaylist` returns the ordered list of jobs it would start.
- HTTP and JSON: `requests.get` and `json.loads` are replaced by oracles. `Download.DownloadChapter` takes the decoded `data` object of the chapter API as `api`, and the result of `retry_request(url, times=10)` for a page URL as `fetch`. Per URL, `fetch` is a value: a call to `retry_request` that never returns, which is possible as written, is not modelled there.
- `get_manga_title` and the manga download loop (mangadex.py:127-138, 178-191), including the exit 2 for a title path that is not a directory. They are API calls, `int()` on each argument, and filesystem work. `MangaCli.Dispatch` stops at the list of manga arguments.
- Download.DownloadChapter: does not model the creation of the chapter directory or the occupied-path message (mangadex.py:42-46), because both are filesystem effects. Files are returned as (path, bytes) pairs and never fail to be written.
- Retry.RetryRequest: the network sequence is finite, and when it runs out before the source would return, the outcome is `Pending`. The source would go on retrying.
- Python's `int()` (whitespace, signs, underscores) is the oracle `parse`. The model does not decide which strings are integers.
- Printed messages and help text are left out. Only the fact of an exit and its code are modelled.
- Wcostream.RunScript: `os.mkdir` is taken to succeed, and `start_xvfb` is the boolean `xvfbStarts`. dryscrape rendering and bs4 parsing are the function `render` from URL to anchors.
- Retry.RetryRequest: the docstring (mangadex.py:13-15) promises to give up after a given number of tries. The code skips the zero test after an exception, and the model follows the code (see Findings).

## Findings

| source | as written | input that shows it | evidently intended | confidence | as-written member | corrected member |
|---|---|---|---|---|---|---|
| mangadex.py:20-26 | An exception decrements `times` and continues without testing for zero, so the budget can pass zero and the call never returns `None`. | `times = 1`, attempts: an exception, then only non-ok statuses: `retry_request` never returns. | Every failed attempt uses one unit of the budget, and the call returns `None` after `times` failures (docstring at mangadex.py:13-15). | not executed | Retry.ExceptionOutlastsBudget | Retry.BoundedRetryRequest |
