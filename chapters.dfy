/**
 * The chapter list handling of mangadex.py: `has_chapter`,
 * `remove_duplicate_chapters` and the language filter of
 * `get_chapters_from_manga`.
 */
module Chapters {
  import opened Common

  /** One entry of the API's chapter list (the fields the script reads). */
  datatype ChapterEntry = ChapterEntry(id: int, chapter: string, views: int, language: string)

  /**
   * The first index of `s` whose `chapter` key equals `key`, or -1 when no
   * entry carries that key (`KeyFound` and `IndexOfKeyIsFirst` state the
   * "first" and the "none").
   */
  function IndexOfKey(s: seq<ChapterEntry>, key: string): (r: int)
    ensures -1 <= r < |s|
    ensures 0 <= r ==> s[r].chapter == key
  {
    if s == [] then -1
    else if s[0].chapter == key then 0
    else
      var r := IndexOfKey(s[1..], key);
      if r == -1 then -1 else r + 1
  }

  /** A key that entry `j` of `s` carries is found, at `j` or before. */
  lemma {:induction false} KeyFound(s: seq<ChapterEntry>, j: nat)
    requires j < |s|
    ensures 0 <= IndexOfKey(s, s[j].chapter) <= j
  {
    if s[0].chapter != s[j].chapter {
      KeyFound(s[1..], j - 1);
    }
  }

  /** -1 exactly when no entry has the key; otherwise the smallest matching index. */
  lemma IndexOfKeyIsFirst(s: seq<ChapterEntry>, key: string)
    ensures IndexOfKey(s, key) == -1 <==> forall j :: 0 <= j < |s| ==> s[j].chapter != key
    ensures 0 <= IndexOfKey(s, key) ==> forall j :: 0 <= j < IndexOfKey(s, key) ==> s[j].chapter != key
  {
    forall j | 0 <= j < |s| && s[j].chapter == key
      ensures 0 <= IndexOfKey(s, key) <= j
    {
      KeyFound(s, j);
    }
  }

  /** `has_chapter`: linear search for the first entry with the same key. */
  method HasChapter(chapters: seq<ChapterEntry>, chapter: ChapterEntry) returns (idx: int)
    ensures idx == IndexOfKey(chapters, chapter.chapter)
  {
    for i := 0 to |chapters|
      invariant forall j :: 0 <= j < i ==> chapters[j].chapter != chapter.chapter
    {
      if chapters[i].chapter == chapter.chapter {
        KeyFound(chapters, i);
        return i;
      }
    }
    IndexOfKeyIsFirst(chapters, chapter.chapter);
    return -1;
  }

  /** Each `out[m]` is the entry `input[kept[m]]` of the first `n` entries. */
  ghost predicate TakenFrom(input: seq<ChapterEntry>, n: nat, out: seq<ChapterEntry>, kept: seq<nat>)
    requires n <= |input|
  {
    |kept| == |out| && forall m :: 0 <= m < |out| ==> kept[m] < n && out[m] == input[kept[m]]
  }

  /** No key occurs twice in `out`. */
  ghost predicate DistinctKeys(out: seq<ChapterEntry>)
  {
    forall m, m' :: 0 <= m < m' < |out| ==> out[m].chapter != out[m'].chapter
  }

  /** The keys of `out` are listed in the order of their first occurrence in `input`. */
  ghost predicate FirstOccurrenceOrder(input: seq<ChapterEntry>, out: seq<ChapterEntry>)
  {
    forall m, m' :: 0 <= m < m' < |out| ==>
      IndexOfKey(input, out[m].chapter) < IndexOfKey(input, out[m'].chapter)
  }

  /** Every key of the first `n` entries of `input` occurs in `out`. */
  ghost predicate CoversKeys(input: seq<ChapterEntry>, n: nat, out: seq<ChapterEntry>)
    requires n <= |input|
  {
    forall j {:trigger IndexOfKey(out, input[j].chapter)} :: 0 <= j < n ==> IndexOfKey(out, input[j].chapter) >= 0
  }

  /** Each `out[m]` has the most views among the first `n` entries with its key. */
  ghost predicate MostViewed(input: seq<ChapterEntry>, n: nat, out: seq<ChapterEntry>)
    requires n <= |input|
  {
    forall m, j :: 0 <= m < |out| && 0 <= j < n && input[j].chapter == out[m].chapter ==>
      input[j].views <= out[m].views
  }

  /** Every entry before `kept[m]` with the same key has strictly fewer views: ties keep the earliest. */
  ghost predicate EarliestOnTie(input: seq<ChapterEntry>, out: seq<ChapterEntry>, kept: seq<nat>)
    requires |kept| == |out|
    requires forall m :: 0 <= m < |out| ==> kept[m] <= |input|
  {
    forall m, j :: 0 <= m < |out| && 0 <= j < kept[m] && input[j].chapter == out[m].chapter ==>
      input[j].views < out[m].views
  }

  /**
   * `out` is a de-duplication of the first `n` entries of `input`, and
   * `kept[m]` is the index of the input entry that `out[m]` is.
   */
  ghost predicate DeduplicatesPrefix(input: seq<ChapterEntry>, n: nat, out: seq<ChapterEntry>, kept: seq<nat>)
    requires n <= |input|
  {
    && TakenFrom(input, n, out, kept)
    && DistinctKeys(out)
    && FirstOccurrenceOrder(input, out)
    && CoversKeys(input, n, out)
    && MostViewed(input, n, out)
    && EarliestOnTie(input, out, kept)
  }

  /**
   * `out` de-duplicates the whole of `input`: keys pairwise distinct, in
   * order of first occurrence, all present; each kept entry has the most
   * views for its key, and on a tie it is the earliest such entry.
   */
  ghost predicate IsDeduplication(input: seq<ChapterEntry>, out: seq<ChapterEntry>, kept: seq<nat>)
  {
    DeduplicatesPrefix(input, |input|, out, kept)
  }

  /** An entry whose key `out` lacks has a key new to the first `i` entries, so it is its own first occurrence. */
  lemma NewKeyAbsent(input: seq<ChapterEntry>, i: nat, out: seq<ChapterEntry>)
    requires i < |input| && CoversKeys(input, i, out)
    requires IndexOfKey(out, input[i].chapter) == -1
    ensures forall m :: 0 <= m < |out| ==> out[m].chapter != input[i].chapter
    ensures forall j :: 0 <= j < i ==> input[j].chapter != input[i].chapter
    ensures IndexOfKey(input, input[i].chapter) == i
  {
    IndexOfKeyIsFirst(out, input[i].chapter);
    forall j | 0 <= j < i
      ensures input[j].chapter != input[i].chapter
    {
      var r := IndexOfKey(out, input[j].chapter);
      assert out[r].chapter == input[j].chapter;
    }
    KeyFound(input, i);
  }

  /** Appending an entry keeps every key of the prefix covered, and covers its own. */
  lemma AppendCovers(input: seq<ChapterEntry>, i: nat, out: seq<ChapterEntry>)
    requires i < |input| && CoversKeys(input, i, out)
    ensures CoversKeys(input, i + 1, out + [input[i]])
  {
    var out' := out + [input[i]];
    forall j | 0 <= j <= i
      ensures IndexOfKey(out', input[j].chapter) >= 0
    {
      if j < i {
        var r := IndexOfKey(out, input[j].chapter);
        assert out'[r] == out[r];
        KeyFound(out', r);
      } else {
        KeyFound(out', |out|);
      }
    }
  }

  /** Appending an entry with a new key keeps the view guarantees: no other entry shares its key. */
  lemma AppendKeepsViews(input: seq<ChapterEntry>, i: nat, out: seq<ChapterEntry>, kept: seq<nat>)
    requires i < |input| && TakenFrom(input, i, out, kept)
    requires MostViewed(input, i, out) && EarliestOnTie(input, out, kept)
    requires forall m :: 0 <= m < |out| ==> out[m].chapter != input[i].chapter
    requires forall j :: 0 <= j < i ==> input[j].chapter != input[i].chapter
    ensures MostViewed(input, i + 1, out + [input[i]])
    ensures EarliestOnTie(input, out + [input[i]], kept + [i])
  {
  }

  /** Step of the de-duplication for an entry whose key is not yet kept: it is appended. */
  lemma AppendNewKey(input: seq<ChapterEntry>, i: nat, out: seq<ChapterEntry>, kept: seq<nat>)
    requires i < |input| && DeduplicatesPrefix(input, i, out, kept)
    requires IndexOfKey(out, input[i].chapter) == -1
    ensures DeduplicatesPrefix(input, i + 1, out + [input[i]], kept + [i])
  {
    var c := input[i];
    var out', kept' := out + [c], kept + [i];
    NewKeyAbsent(input, i, out);
    AppendCovers(input, i, out);
    AppendKeepsViews(input, i, out, kept);
    forall m | 0 <= m < |out|
      ensures IndexOfKey(input, out[m].chapter) < i
    {
      KeyFound(input, kept[m]);
    }
    assert TakenFrom(input, i + 1, out', kept');
    assert DistinctKeys(out');
    assert FirstOccurrenceOrder(input, out');
  }

  /** Replacing the kept entry of a key by a later one with strictly more views keeps the view guarantees. */
  lemma ReplaceKeepsViews(input: seq<ChapterEntry>, i: nat, out: seq<ChapterEntry>, kept: seq<nat>, idx: nat)
    requires i < |input| && TakenFrom(input, i, out, kept) && DistinctKeys(out)
    requires MostViewed(input, i, out) && EarliestOnTie(input, out, kept)
    requires idx < |out| && out[idx].chapter == input[i].chapter
    requires input[i].views > out[idx].views
    ensures MostViewed(input, i + 1, out[idx := input[i]])
    ensures EarliestOnTie(input, out[idx := input[i]], kept[idx := i])
  {
  }

  /** Replacing keeps every key of the prefix covered: the replaced entry has the same key. */
  lemma ReplaceCovers(input: seq<ChapterEntry>, i: nat, out: seq<ChapterEntry>, idx: nat)
    requires i < |input| && CoversKeys(input, i, out)
    requires idx < |out| && out[idx].chapter == input[i].chapter
    ensures CoversKeys(input, i + 1, out[idx := input[i]])
  {
    var out' := out[idx := input[i]];
    forall j | 0 <= j <= i
      ensures IndexOfKey(out', input[j].chapter) >= 0
    {
      if j < i {
        var r := IndexOfKey(out, input[j].chapter);
        KeyFound(out', r);
      } else {
        KeyFound(out', idx);
      }
    }
  }

  /** Step for an entry with strictly more views than the kept one: it takes that place. */
  lemma ReplaceKept(input: seq<ChapterEntry>, i: nat, out: seq<ChapterEntry>, kept: seq<nat>, idx: nat)
    requires i < |input| && DeduplicatesPrefix(input, i, out, kept)
    requires idx == IndexOfKey(out, input[i].chapter)
    requires input[i].views > out[idx].views
    ensures DeduplicatesPrefix(input, i + 1, out[idx := input[i]], kept[idx := i])
  {
    var out', kept' := out[idx := input[i]], kept[idx := i];
    ReplaceKeepsViews(input, i, out, kept, idx);
    ReplaceCovers(input, i, out, idx);
    forall m | 0 <= m < |out'|
      ensures out'[m].chapter == out[m].chapter
    {
    }
    assert TakenFrom(input, i + 1, out', kept');
    assert DistinctKeys(out');
    assert FirstOccurrenceOrder(input, out');
  }

  /** Step for an entry with no more views than the kept one: nothing changes. */
  lemma KeepExisting(input: seq<ChapterEntry>, i: nat, out: seq<ChapterEntry>, kept: seq<nat>, idx: nat)
    requires i < |input| && DeduplicatesPrefix(input, i, out, kept)
    requires idx == IndexOfKey(out, input[i].chapter)
    requires input[i].views <= out[idx].views
    ensures DeduplicatesPrefix(input, i + 1, out, kept)
  {
    assert out[idx].chapter == input[i].chapter;
  }

  /**
   * `remove_duplicate_chapters`: keep one entry per `chapter` key, replacing
   * the kept one only by a later entry with strictly more views.
   */
  method RemoveDuplicateChapters(chapters: seq<ChapterEntry>) returns (out: seq<ChapterEntry>, ghost kept: seq<nat>)
    ensures IsDeduplication(chapters, out, kept)
    ensures DistinctKeys(out) && CoversKeys(chapters, |chapters|, out) && MostViewed(chapters, |chapters|, out)
  {
    out, kept := [], [];
    for i := 0 to |chapters|
      invariant DeduplicatesPrefix(chapters, i, out, kept)
    {
      var chapter := chapters[i];
      var cIdx := HasChapter(out, chapter);
      if cIdx == -1 {
        AppendNewKey(chapters, i, out, kept);
        out, kept := out + [chapter], kept + [i];
      } else if chapter.views > out[cIdx].views {
        ReplaceKept(chapters, i, out, kept, cIdx);
        out, kept := out[cIdx := chapter], kept[cIdx := i];
      } else {
        KeepExisting(chapters, i, out, kept, cIdx);
      }
    }
  }

  /** The entries of `s` whose `language` is one of `langs`, in their order in `s`. */
  function InLanguages(s: seq<ChapterEntry>, langs: seq<string>): seq<ChapterEntry>
  {
    if s == [] then []
    else
      var last := s[|s| - 1];
      InLanguages(s[..|s| - 1], langs) + (if last.language in langs then [last] else [])
  }

  /**
   * The language filter of `get_chapters_from_manga`: delete, in place, every
   * entry whose language is not requested; the index only advances past an
   * entry that stays.
   */
  method FilterLanguages(chapters: seq<ChapterEntry>, langs: seq<string>) returns (kept: seq<ChapterEntry>)
    ensures kept == InLanguages(chapters, langs)
  {
    kept := chapters;
    var i := 0;
    ghost var seen := 0;
    while i < |kept|
      invariant 0 <= i <= |kept|
      invariant 0 <= seen <= |chapters|
      invariant kept[..i] == InLanguages(chapters[..seen], langs)
      invariant kept[i..] == chapters[seen..]
      decreases |kept| - i
    {
      assert chapters[..seen + 1][..seen] == chapters[..seen];
      assert kept[i] == chapters[seen] && kept[i + 1..] == chapters[seen + 1..];
      if kept[i].language !in langs {
        assert InLanguages(chapters[..seen + 1], langs) == InLanguages(chapters[..seen], langs);
        kept := kept[..i] + kept[i + 1..];
        seen := seen + 1;
        continue;
      }
      assert kept[..i + 1] == kept[..i] + [kept[i]];
      assert InLanguages(chapters[..seen + 1], langs) == InLanguages(chapters[..seen], langs) + [kept[i]];
      i := i + 1;
      seen := seen + 1;
    }
    assert chapters[..seen] == chapters;
  }

  /** The filter keeps exactly the entries in a requested language. */
  lemma {:induction false} InLanguagesMembership(s: seq<ChapterEntry>, langs: seq<string>, c: ChapterEntry)
    ensures c in InLanguages(s, langs) <==> c in s && c.language in langs
  {
    if s != [] {
      var init := s[..|s| - 1];
      InLanguagesMembership(init, langs, c);
      assert s == init + [s[|s| - 1]];
    }
  }

  /** The filter keeps relative order: filtering a concatenation concatenates the filtered parts. */
  lemma {:induction false} InLanguagesAppend(s: seq<ChapterEntry>, t: seq<ChapterEntry>, langs: seq<string>)
    ensures InLanguages(s + t, langs) == InLanguages(s, langs) + InLanguages(t, langs)
    decreases |t|
  {
    if t == [] {
      assert s + t == s;
    } else {
      var init := t[..|t| - 1];
      InLanguagesAppend(s, init, langs);
      assert (s + t)[..|s + t| - 1] == s + init;
    }
  }

  /**
   * `get_chapters_from_manga` after the API call: `listing` is the decoded
   * chapter list, or `None` when `retry_request` gave up (the script then
   * exits). The result is the language filter followed by the de-duplication.
   */
  method ChaptersFromManga(listing: Option<seq<ChapterEntry>>, langs: seq<string>)
    returns (chapters: Option<seq<ChapterEntry>>, ghost kept: seq<nat>)
    ensures chapters.None? <==> listing.None?
    ensures listing.Some? ==> IsDeduplication(InLanguages(listing.value, langs), chapters.value, kept)
  {
    kept := [];
    if listing.None? {
      return None, kept;
    }
    var filtered := FilterLanguages(listing.value, langs);
    var out;
    out, kept := RemoveDuplicateChapters(filtered);
    chapters := Some(out);
  }

  /**
   * The catalog example: two "gb" entries for chapter "1" with 3 and 7 views
   * and an "fr" entry for chapter "2"; with languages ["gb"] only the entry
   * with 7 views remains.
   */
  lemma CatalogExample(out: seq<ChapterEntry>, kept: seq<nat>)
    requires
      var catalog := [ChapterEntry(1, "1", 3, "gb"), ChapterEntry(2, "1", 7, "gb"), ChapterEntry(3, "2", 1, "fr")];
      IsDeduplication(InLanguages(catalog, ["gb"]), out, kept)
    ensures out == [ChapterEntry(2, "1", 7, "gb")]
  {
    var catalog := [ChapterEntry(1, "1", 3, "gb"), ChapterEntry(2, "1", 7, "gb"), ChapterEntry(3, "2", 1, "fr")];
    var gb := [ChapterEntry(1, "1", 3, "gb"), ChapterEntry(2, "1", 7, "gb")];
    assert catalog[..2] == gb;
    assert gb[..1] == [gb[0]];
    assert InLanguages(catalog, ["gb"]) == gb;
    assert IndexOfKey(out, gb[0].chapter) >= 0;
    forall m | 0 <= m < |out|
      ensures out[m].chapter == "1"
    {
      assert out[m] == gb[kept[m]];
    }
    assert out[0].chapter == out[|out| - 1].chapter;
    assert gb[1].views <= out[0].views;
  }
}
