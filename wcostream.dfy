/**
 * wcostream.py: pick the video links out of a rendered playlist page and
 * start one download per video, after the argument and save-directory
 * checks at module level.
 *
 * The rendered page is the sequence of its `<a>` elements in document
 * order, as `find_all("a")` yields them; rendering (dryscrape), parsing
 * (bs4), the filesystem and starting xvfb are parameters.
 */
module Wcostream {
  import opened Common

  /** `VideoDetails(page_url, s_path)`: where a video's page is and where its file goes. */
  datatype VideoDetails = VideoDetails(pageUrl: string, savePath: string)

  /**
   * One `<a>` element: its class tokens when it has a `class` attribute, its
   * `href` when it has one, and its text.
   */
  datatype Anchor = Anchor(classes: Option<seq<string>>, href: Option<string>, text: string)

  /** How the process ends or what it goes on to do. */
  datatype Run =
    | Exit(code: int)                 // exit(code) before any download process starts
    | KeyError                        // a selected anchor has no `href`
    | Spawned(jobs: seq<VideoDetails>) // one download process per video, in this order

  /** What `os.path.exists` / `os.path.isdir` say about the save directory. */
  datatype PathKind = Missing | Directory | NotDirectory

  /** The anchor is a video link: it has a class list holding the token "sonra". */
  predicate Marked(a: Anchor)
  {
    a.classes.Some? && "sonra" in a.classes.value
  }

  /** The details built for a selected anchor. */
  function Details(a: Anchor, sDir: string): (v: VideoDetails)
    requires a.href.Some?
    ensures v.pageUrl == a.href.value
    ensures var name := a.text + ".mp4";
            |name| <= |v.savePath| && v.savePath[|v.savePath| - |name|..] == name
  {
    JoinPathPlacesName(sDir, a.text + ".mp4");
    VideoDetails(a.href.value, JoinPath(sDir, a.text + ".mp4"))
  }

  /** The `vids` list built from `anchors`, or `None` when `a["href"]` raises. */
  function Videos(anchors: seq<Anchor>, sDir: string): Option<seq<VideoDetails>>
  {
    if anchors == [] then Some([])
    else
      var a := anchors[|anchors| - 1];
      match Videos(anchors[..|anchors| - 1], sDir)
      case None => None
      case Some(vids) =>
        if !Marked(a) then Some(vids)
        else if a.href.None? then None
        else Some(vids + [Details(a, sDir)])
  }

  /** The selection loop of `rip_playlist`. */
  method SelectVideos(anchors: seq<Anchor>, sDir: string) returns (vids: Option<seq<VideoDetails>>)
    ensures vids == Videos(anchors, sDir)
  {
    var found := [];
    for k := 0 to |anchors|
      invariant Videos(anchors[..k], sDir) == Some(found)
    {
      var a := anchors[k];
      assert anchors[..k + 1][..k] == anchors[..k];
      if a.classes.None? {
        continue;
      }
      if "sonra" in a.classes.value {
        if a.href.None? {
          FailureIsFinal(anchors, k + 1);
          return None;
        }
        found := found + [VideoDetails(a.href.value, JoinPath(sDir, a.text + ".mp4"))];
      }
    }
    assert anchors[..|anchors|] == anchors;
    return Some(found);
  }

  /** Once the selection has raised on a prefix of the page, the rest of the page cannot undo it. */
  lemma {:induction false} FailureIsFinal(anchors: seq<Anchor>, k: nat)
    requires k <= |anchors|
    requires forall sDir :: Videos(anchors[..k], sDir).None?
    ensures forall sDir :: Videos(anchors, sDir).None?
    decreases |anchors| - k
  {
    if k < |anchors| {
      var init := anchors[..|anchors| - 1];
      assert init[..k] == anchors[..k];
      FailureIsFinal(init, k);
    } else {
      assert anchors[..k] == anchors;
    }
  }

  /** What `rip_playlist(url, s_dir)` does with the anchors of the page at `url`. */
  function PlaylistOutcome(anchors: seq<Anchor>, sDir: string): Run
  {
    match Videos(anchors, sDir)
    case None => KeyError
    case Some(vids) => if vids == [] then Exit(3) else Spawned(vids)
  }

  /** `rip_playlist`: select the videos, stop with code 3 if there are none, else start one process each. */
  method RipPlaylist(anchors: seq<Anchor>, sDir: string) returns (run: Run)
    ensures run == PlaylistOutcome(anchors, sDir)
  {
    var vids := SelectVideos(anchors, sDir);
    if vids.None? {
      return KeyError;
    }
    if |vids.value| == 0 {
      return Exit(3);
    }
    var processes := [];
    for k := 0 to |vids.value|
      invariant processes == vids.value[..k]
    {
      processes := processes + [vids.value[k]];
    }
    assert vids.value[..|vids.value|] == vids.value;
    return Spawned(processes);
  }

  /** The selection raises exactly when some video link has no `href`. */
  lemma {:induction false} VideosFail(anchors: seq<Anchor>, sDir: string)
    ensures Videos(anchors, sDir).None? <==>
            exists i :: 0 <= i < |anchors| && Marked(anchors[i]) && anchors[i].href.None?
  {
    if anchors != [] {
      var init := anchors[..|anchors| - 1];
      VideosFail(init, sDir);
      if exists i :: 0 <= i < |init| && Marked(init[i]) && init[i].href.None? {
        var i :| 0 <= i < |init| && Marked(init[i]) && init[i].href.None?;
        assert anchors[i] == init[i];
      }
      if exists i :: 0 <= i < |anchors| && Marked(anchors[i]) && anchors[i].href.None? {
        var i :| 0 <= i < |anchors| && Marked(anchors[i]) && anchors[i].href.None?;
        if i < |init| {
          assert init[i] == anchors[i];
        }
      }
    }
  }

  /** The anchor is a video link with an `href`, and `v` is the details built from it. */
  predicate Yields(a: Anchor, sDir: string, v: VideoDetails)
  {
    Marked(a) && a.href.Some? && v == Details(a, sDir)
  }

  /** Every selected video is built from a video link of the page. */
  lemma {:induction false} VideoHasLink(anchors: seq<Anchor>, sDir: string, v: VideoDetails)
    requires Videos(anchors, sDir).Some? && v in Videos(anchors, sDir).value
    ensures exists i :: 0 <= i < |anchors| && Yields(anchors[i], sDir, v)
  {
    var n := |anchors| - 1;
    var init := anchors[..n];
    var vids := Videos(init, sDir).value;
    if v in vids {
      VideoHasLink(init, sDir, v);
      var i :| 0 <= i < n && Yields(init[i], sDir, v);
      assert anchors[i] == init[i];
    } else {
      assert Yields(anchors[n], sDir, v);
    }
  }

  /** Every video link of the page, with its `href`, gives a selected video. */
  lemma {:induction false} LinkGivesVideo(anchors: seq<Anchor>, sDir: string, v: VideoDetails, i: nat)
    requires Videos(anchors, sDir).Some?
    requires i < |anchors| && Yields(anchors[i], sDir, v)
    ensures v in Videos(anchors, sDir).value
  {
    var n := |anchors| - 1;
    var init := anchors[..n];
    if i < n {
      assert init[i] == anchors[i];
      LinkGivesVideo(init, sDir, v, i);
    }
  }

  /**
   * A video is selected exactly when it is built from a video link of the
   * page: only marked anchors yield details, and every marked one does.
   */
  lemma VideosMembership(anchors: seq<Anchor>, sDir: string, v: VideoDetails)
    requires Videos(anchors, sDir).Some?
    ensures v in Videos(anchors, sDir).value <==> exists i :: 0 <= i < |anchors| && Yields(anchors[i], sDir, v)
  {
    if v in Videos(anchors, sDir).value {
      VideoHasLink(anchors, sDir, v);
    }
    if exists i :: 0 <= i < |anchors| && Yields(anchors[i], sDir, v) {
      var i :| 0 <= i < |anchors| && Yields(anchors[i], sDir, v);
      LinkGivesVideo(anchors, sDir, v, i);
    }
  }

  /** Selection keeps document order: the videos of two parts of a page come part by part. */
  lemma {:induction false} VideosAppend(a: seq<Anchor>, b: seq<Anchor>, sDir: string)
    requires Videos(a, sDir).Some? && Videos(b, sDir).Some?
    ensures Videos(a + b, sDir) == Some(Videos(a, sDir).value + Videos(b, sDir).value)
  {
    if b == [] {
      assert a + b == a;
      assert Videos(a, sDir).value + [] == Videos(a, sDir).value;
    } else {
      var init, last := b[..|b| - 1], b[|b| - 1];
      assert (a + b)[..|a + b| - 1] == a + init;
      assert (a + b)[|a + b| - 1] == last;
      assert Videos(init, sDir).Some?;
      VideosAppend(a, init, sDir);
      var va, vi := Videos(a, sDir).value, Videos(init, sDir).value;
      if Marked(last) {
        assert va + vi + [Details(last, sDir)] == va + (vi + [Details(last, sDir)]);
      }
    }
  }

  /** With no video link on the page, `rip_playlist` exits with code 3 and starts no process. */
  lemma {:induction false} NoLinksExit3(anchors: seq<Anchor>, sDir: string)
    requires forall i :: 0 <= i < |anchors| ==> !Marked(anchors[i])
    ensures PlaylistOutcome(anchors, sDir) == Exit(3)
  {
    NoLinksNoVideos(anchors, sDir);
  }

  /** With no video link on the page, the selection is empty. */
  lemma {:induction false} NoLinksNoVideos(anchors: seq<Anchor>, sDir: string)
    requires forall i :: 0 <= i < |anchors| ==> !Marked(anchors[i])
    ensures Videos(anchors, sDir) == Some([])
  {
    if anchors != [] {
      NoLinksNoVideos(anchors[..|anchors| - 1], sDir);
    }
  }

  /** Processes are started exactly when the page has a video link and every video link has an `href`. */
  lemma SpawnsIffLinks(anchors: seq<Anchor>, sDir: string)
    ensures PlaylistOutcome(anchors, sDir).Spawned? <==>
            && (exists i :: 0 <= i < |anchors| && Marked(anchors[i]))
            && (forall i :: 0 <= i < |anchors| && Marked(anchors[i]) ==> anchors[i].href.Some?)
  {
    VideosFail(anchors, sDir);
    if Videos(anchors, sDir).Some? {
      if exists i :: 0 <= i < |anchors| && Marked(anchors[i]) {
        var i :| 0 <= i < |anchors| && Marked(anchors[i]);
        VideosMembership(anchors, sDir, Details(anchors[i], sDir));
      } else {
        NoLinksNoVideos(anchors, sDir);
      }
    }
  }

  /** Usage is printed for fewer than three arguments, or a help flag anywhere. */
  predicate WantsHelp(argv: seq<string>)
  {
    |argv| < 3 || "-h" in argv || "--help" in argv
  }

  /**
   * The module-level run of wcostream.py and whether it creates the save
   * directory. `kind` is the state of `argv[1]` on disk, `xvfbStarts`
   * whether `start_xvfb()` returns, and `render(url)` the anchors of the
   * rendered playlist page.
   */
  function ScriptOutcome(argv: seq<string>, kind: PathKind, onLinux: bool, xvfbStarts: bool,
                       render: string -> seq<Anchor>): (Run, bool)
  {
    if WantsHelp(argv) then (Exit(1), false)
    else if kind == NotDirectory then (Exit(2), false)
    else if onLinux && !xvfbStarts then (Exit(3), kind == Missing)
    else (PlaylistOutcome(render(argv[2]), argv[1]), kind == Missing)
  }

  /** The module-level statements of wcostream.py. */
  method RunScript(argv: seq<string>, kind: PathKind, onLinux: bool, xvfbStarts: bool,
                   render: string -> seq<Anchor>) returns (run: Run, madeDir: bool)
    ensures (run, madeDir) == ScriptOutcome(argv, kind, onLinux, xvfbStarts, render)
  {
    madeDir := false;
    if |argv| < 3 || "-h" in argv || "--help" in argv {
      return Exit(1), madeDir;
    }
    var sDir := argv[1];
    var isDir := kind == Directory;
    if kind == Missing {
      madeDir := true;
      isDir := true;
    }
    if !isDir {
      return Exit(2), madeDir;
    }
    if onLinux && !xvfbStarts {
      return Exit(3), madeDir;
    }
    var url := argv[2];
    run := RipPlaylist(render(url), sDir);
  }

  /**
   * The exit codes mean what the usage promises: 1 exactly for help or too
   * few arguments, with the directory untouched; 2 exactly for a save path
   * that exists and is not a directory; 3 exactly when xvfb cannot start on
   * Linux or the page has no video link (given every link has an `href`).
   */
  lemma ExitCodes(argv: seq<string>, kind: PathKind, onLinux: bool, xvfbStarts: bool,
                  render: string -> seq<Anchor>)
    ensures var (run, madeDir) := ScriptOutcome(argv, kind, onLinux, xvfbStarts, render);
            && (run == Exit(1) <==> WantsHelp(argv))
            && (run == Exit(1) ==> !madeDir)
            && (run == Exit(2) <==> !WantsHelp(argv) && kind == NotDirectory)
            && (run.Exit? ==> run.code in {1, 2, 3})
            && (madeDir <==> !WantsHelp(argv) && kind == Missing)
            && (!WantsHelp(argv) && kind != NotDirectory && !(onLinux && !xvfbStarts) ==>
                  (run == Exit(3) <==> Videos(render(argv[2]), argv[1]) == Some([])))
  {
  }
}
