/**
 * The command line of mangadex.py: the help check, the `-c` chapter-id
 * collection and the `-l` / `--lang` language extraction that run at module
 * level before any download.
 *
 * Python's `int(arg)` is the oracle `parse`: `Some(n)` when the argument
 * parses as an integer, `None` when `int` raises.
 */
module MangaCli {
  import opened Common

  /** What the module-level code goes on to do. */
  datatype Command =
    | ShowHelp                                              // usage text, exit(1)
    | ManualChapters(ids: seq<int>)                         // download_chapters(ids, "Manual Chapters")
    | ByManga(languages: seq<string>, mangaArgs: seq<string>) // one manga per remaining argument
    | MissingFlagValue                                      // `argv[i + 1]` raises IndexError

  /** The languages taken from the flags and the argument list left behind. */
  datatype Extracted = Extracted(found: seq<string>, rest: seq<string>)

  /** Usage is printed when there is no argument or a help flag is anywhere. */
  predicate WantsHelp(argv: seq<string>)
  {
    |argv| < 2 || "-h" in argv || "--help" in argv
  }

  /** `list.index(x)`: the first position of `x`, which must occur. */
  function FirstIndex(s: seq<string>, x: string): (i: nat)
    requires x in s
    ensures i < |s| && s[i] == x && x !in s[..i]
  {
    if s[0] == x then 0
    else
      assert s == [s[0]] + s[1..];
      var j := FirstIndex(s[1..], x);
      assert s[..j + 1] == [s[0]] + s[1..][..j];
      j + 1
  }

  /** The chapter ids among `args`, in order: those that `int()` accepts. */
  function ParsedIds(args: seq<string>, parse: string -> Option<int>): seq<int>
  {
    if args == [] then []
    else
      var init := ParsedIds(args[..|args| - 1], parse);
      match parse(args[|args| - 1])
      case Some(n) => init + [n]
      case None => init
  }

  /** The `-c` loop: every argument after the script name that parses as an integer. */
  method CollectChapterIds(argv: seq<string>, parse: string -> Option<int>) returns (ids: seq<int>)
    requires 1 <= |argv|
    ensures ids == ParsedIds(argv[1..], parse)
  {
    ids := [];
    for k := 1 to |argv|
      invariant ids == ParsedIds(argv[1..k], parse)
    {
      var arg := argv[k];
      assert argv[1..k + 1][..k - 1] == argv[1..k];
      var n := parse(arg);
      if n.None? {
        continue;
      }
      ids := ids + [n.value];
    }
    assert argv[1..|argv|] == argv[1..];
  }

  /** An id is collected exactly when some argument parses to it. */
  lemma {:induction false} ParsedIdsMembership(args: seq<string>, parse: string -> Option<int>, n: int)
    ensures n in ParsedIds(args, parse) <==> exists a :: a in args && parse(a) == Some(n)
  {
    if args != [] {
      var init := args[..|args| - 1];
      ParsedIdsMembership(init, parse, n);
      assert args == init + [args[|args| - 1]];
      if n in ParsedIds(args, parse) && n !in ParsedIds(init, parse) {
        assert parse(args[|args| - 1]) == Some(n);
      }
      if exists a :: a in args && parse(a) == Some(n) {
        var a :| a in args && parse(a) == Some(n);
        if a !in init {
          assert a == args[|args| - 1];
        }
      }
    }
  }

  /** Collection keeps the order of the arguments: ids of a concatenation are concatenated. */
  lemma {:induction false} ParsedIdsAppend(a: seq<string>, b: seq<string>, parse: string -> Option<int>)
    ensures ParsedIds(a + b, parse) == ParsedIds(a, parse) + ParsedIds(b, parse)
  {
    if b == [] {
      assert a + b == a;
    } else {
      var init := b[..|b| - 1];
      ParsedIdsAppend(a, init, parse);
      assert (a + b)[..|a + b| - 1] == a + init;
      assert (a + b)[|a + b| - 1] == b[|b| - 1];
    }
  }

  /**
   * One flag of the language extraction: if `flag` is present, the argument
   * after its first occurrence is taken and both are deleted; `None` when
   * that occurrence is the last argument (the IndexError).
   */
  function TakeFlag(args: seq<string>, flag: string): (r: Option<Extracted>)
    ensures flag !in args ==> r == Some(Extracted([], args))
    ensures r.Some? ==> |r.value.found| <= 1 && |r.value.rest| + 2 * |r.value.found| == |args|
    ensures r.Some? && flag in args ==> |r.value.found| == 1
  {
    if flag !in args then Some(Extracted([], args))
    else
      var i := FirstIndex(args, flag);
      if i + 1 >= |args| then None
      else Some(Extracted([args[i + 1]], args[..i] + args[i + 2..]))
  }

  /** The languages the manga downloads use and the arguments left over; `None` on a missing value. */
  function Languages(argv: seq<string>): Option<Extracted>
  {
    match TakeFlag(argv, "-l")
    case None => None
    case Some(l) =>
      match TakeFlag(l.rest, "--lang")
      case None => None
      case Some(lang) =>
        var found := l.found + lang.found;
        Some(Extracted(if found == [] then ["gb"] else found, lang.rest))
  }

  /** `languages.append(argv[i + 1])` then `del argv[i + 1]` and `del argv[i]` at the flag's first position. */
  method DeleteFlag(args: seq<string>, flag: string) returns (r: Option<Extracted>)
    ensures r == TakeFlag(args, flag)
  {
    if flag !in args {
      return Some(Extracted([], args));
    }
    var i := FirstIndex(args, flag);
    if i + 1 >= |args| {
      return None;
    }
    var value := args[i + 1];
    var rest := args[..i + 1] + args[i + 2..];
    rest := rest[..i] + rest[i + 1..];
    assert rest == args[..i] + args[i + 2..];
    return Some(Extracted([value], rest));
  }

  /** The `-l` / `--lang` handling: `-l` first, then `--lang` on what is left, then the default. */
  method ExtractLanguages(argv: seq<string>) returns (r: Option<Extracted>)
    ensures r == Languages(argv)
  {
    var l := DeleteFlag(argv, "-l");
    if l.None? {
      return None;
    }
    var lang := DeleteFlag(l.value.rest, "--lang");
    if lang.None? {
      return None;
    }
    var languages := l.value.found + lang.value.found;
    if |languages| == 0 {
      languages := ["gb"];
    }
    return Some(Extracted(languages, lang.value.rest));
  }

  /**
   * Deleting the flag and its value can be undone: putting them back at
   * the flag's first position gives the arguments again, and no earlier
   * argument was the flag.
   */
  lemma TakeFlagReinserts(args: seq<string>, flag: string)
    requires flag in args && TakeFlag(args, flag).Some?
    ensures var e, i := TakeFlag(args, flag).value, FirstIndex(args, flag);
            && i <= |e.rest|
            && args == e.rest[..i] + [flag] + e.found + e.rest[i..]
            && flag !in e.rest[..i]
  {
    var e, i := TakeFlag(args, flag).value, FirstIndex(args, flag);
    var front, back := args[..i], args[i + 2..];
    assert e == Extracted([args[i + 1]], front + back);
    assert e.rest[..i] == front && e.rest[i..] == back;
    assert args == front + [flag] + e.found + back;
  }

  /** The value is missing exactly when the flag's only occurrence is the last argument. */
  lemma TakeFlagFails(args: seq<string>, flag: string)
    ensures TakeFlag(args, flag).None? <==> |args| >= 1 && args[|args| - 1] == flag && flag !in args[..|args| - 1]
  {
    if flag in args {
      var i := FirstIndex(args, flag);
      if i + 1 < |args| {
        assert args[..|args| - 1][i] == flag;
      } else {
        assert args[..|args| - 1] == args[..i];
      }
    }
  }

  /** With neither flag, the language is "gb" and the arguments are untouched. */
  lemma DefaultLanguage(argv: seq<string>)
    requires "-l" !in argv && "--lang" !in argv
    ensures Languages(argv) == Some(Extracted(["gb"], argv))
  {
  }

  /**
   * The languages come in flag order, `-l` first, and never fall back to the
   * default when a flag is present; the list is never empty.
   */
  lemma LanguagesInFlagOrder(argv: seq<string>)
    ensures Languages(argv).Some? ==>
            var e := Languages(argv).value;
            && 1 <= |e.found| <= 2
            && ("-l" in argv ==> e.found[0] == argv[FirstIndex(argv, "-l") + 1])
            && (("-l" !in argv && "--lang" !in argv) || |e.rest| + 2 * |e.found| == |argv|)
  {
    var l := TakeFlag(argv, "-l");
    if l.Some? {
      var lang := TakeFlag(l.value.rest, "--lang");
      if lang.Some? && "-l" !in argv && "--lang" in argv {
        assert l.value.rest == argv;
        assert |lang.value.found| == 1;
      }
    }
  }

  /** The module-level decisions of mangadex.py before any download starts. */
  method Dispatch(argv: seq<string>, parse: string -> Option<int>) returns (cmd: Command)
    ensures WantsHelp(argv) <==> cmd == ShowHelp
    ensures !WantsHelp(argv) && "-c" in argv ==> cmd == ManualChapters(ParsedIds(argv[1..], parse))
    ensures !WantsHelp(argv) && "-c" !in argv ==>
              match Languages(argv)
              case None => cmd == MissingFlagValue
              case Some(e) => cmd == ByManga(e.found, if e.rest == [] then [] else e.rest[1..])
  {
    if |argv| < 2 || "-h" in argv || "--help" in argv {
      return ShowHelp;
    }
    if "-c" in argv {
      var ids := CollectChapterIds(argv, parse);
      return ManualChapters(ids);
    }
    var r := ExtractLanguages(argv);
    if r.None? {
      return MissingFlagValue;
    }
    var rest := r.value.rest;
    return ByManga(r.value.found, if rest == [] then [] else rest[1..]);
  }

  /** A `-c` anywhere wins over `-l` / `--lang`: the manual chapters are the integers among the arguments. */
  lemma ManualChaptersIgnoreLanguages(argv: seq<string>, parse: string -> Option<int>, n: int)
    requires !WantsHelp(argv) && "-c" in argv
    ensures n in ParsedIds(argv[1..], parse) <==> exists k :: 1 <= k < |argv| && parse(argv[k]) == Some(n)
  {
    ParsedIdsMembership(argv[1..], parse, n);
    if exists a :: a in argv[1..] && parse(a) == Some(n) {
      var a :| a in argv[1..] && parse(a) == Some(n);
      var j :| 0 <= j < |argv[1..]| && argv[1..][j] == a;
      assert parse(argv[j + 1]) == Some(n);
    }
    if exists k :: 1 <= k < |argv| && parse(argv[k]) == Some(n) {
      var k :| 1 <= k < |argv| && parse(argv[k]) == Some(n);
      assert argv[1..][k - 1] == argv[k];
    }
  }
}
