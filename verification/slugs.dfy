/**
 * `get_slug` and the run-wide `SLUGS` registry of export.py: a post's
 * subject (or, when empty, its id) is turned into a hyphenated identifier,
 * suffixed with `-<id>` when that identifier was issued before, and the
 * result is recorded.
 */
module Slugs {
  import opened Util

  /** The length of the run of non-word characters at the start of s. */
  function NonWordRun(s: string, isWord: char -> bool): (r: nat)
    ensures r <= |s| && (r < |s| ==> isWord(s[r]))
    ensures forall i :: 0 <= i < r ==> !isWord(s[i])
  {
    if |s| > 0 && !isWord(s[0]) then 1 + NonWordRun(s[1..], isWord) else 0
  }

  /** Every character is a word character or a hyphen, and no two hyphens are adjacent. */
  predicate Hyphenated(r: string, isWord: char -> bool)
  {
    (forall i :: 0 <= i < |r| ==> r[i] == '-' || isWord(r[i]))
    && (forall i :: 0 <= i < |r| - 1 ==> r[i] != '-' || r[i + 1] != '-')
  }

  /** `re.compile(r'\W+').sub('-', s)`: every maximal run of non-word characters becomes one hyphen. */
  function Hyphenate(s: string, isWord: char -> bool): (r: string)
    requires !isWord('-')
    ensures Hyphenated(r, isWord)
    ensures |r| > 0 && |s| > 0 ==> (isWord(s[0]) <==> r[0] != '-')
    ensures |s| > 0 && isWord(s[0]) ==> |r| > 0 && r[0] == s[0]
    ensures |s| > 0 <==> |r| > 0
    decreases |s|
  {
    if |s| == 0 then ""
    else if isWord(s[0]) then [s[0]] + Hyphenate(s[1..], isWord)
    else "-" + Hyphenate(s[NonWordRun(s, isWord)..], isWord)
  }

  /** `re.compile(r'^-|-$').sub('', x)`: one leading hyphen and one trailing hyphen removed. */
  function TrimHyphens(x: string): string
  {
    var a := if |x| > 0 && x[0] == '-' then x[1..] else x;
    if |a| > 0 && a[|a| - 1] == '-' then a[..|a| - 1] else a
  }

  /** The text the slug is made from: the subject, or the id for an empty subject, as plain text. */
  function SlugSource(subject: string, id: string, ext: Foreign): string
  {
    var c := if |subject| == 0 then id else subject;
    if '<' in c || '&' in c then ext.htmlText("<p>" + c + "</p>") else c
  }

  /** Lines 53-61 of get_slug: the slug before the registry is consulted. */
  function CleanSlug(subject: string, id: string, ext: Foreign): string
    requires !ext.isWord('-')
  {
    TrimHyphens(Hyphenate(SlugSource(subject, id, ext), ext.isWord))
  }

  /** Lines 63-64 of get_slug: the slug issued given the slugs issued before. */
  function NextSlug(issued: set<string>, cleaned: string, id: string): (r: string)
    ensures cleaned !in issued ==> r == cleaned
    ensures cleaned in issued && |cleaned| > 0 ==> r == cleaned + "-" + id
    ensures cleaned in issued && |cleaned| == 0 ==> r == id
  {
    if cleaned in issued then cleaned + (if |cleaned| > 0 then "-" else "") + id else cleaned
  }

  /** The characters of s that isWord accepts, in order. */
  function WordChars(s: string, isWord: char -> bool): string
  {
    if |s| == 0 then "" else (if isWord(s[0]) then [s[0]] else "") + WordChars(s[1..], isWord)
  }

  /** A clean slug: only word characters and single hyphens, and no hyphen at either end. */
  predicate IsCleanSlug(r: string, isWord: char -> bool)
  {
    Hyphenated(r, isWord) && (|r| > 0 ==> r[0] != '-' && r[|r| - 1] != '-')
  }

  /** Trimming a hyphenated text leaves a clean slug. */
  lemma TrimHyphensClean(x: string, isWord: char -> bool)
    requires Hyphenated(x, isWord)
    ensures IsCleanSlug(TrimHyphens(x), isWord)
  {
    var a := if |x| > 0 && x[0] == '-' then x[1..] else x;
    assert Hyphenated(a, isWord) && (|a| > 0 ==> a[0] != '-') by {
      if |x| > 0 && x[0] == '-' {
        assert forall i :: 0 <= i < |a| ==> a[i] == x[i + 1];
        if |a| > 0 { assert x[0] == '-' && x[1] == a[0]; }
      }
    }
    if |a| > 0 && a[|a| - 1] == '-' {
      var b := a[..|a| - 1];
      assert forall i :: 0 <= i < |b| ==> b[i] == a[i];
      if |b| > 0 { assert a[|a| - 2] != '-'; }
    }
  }

  /** The slug before the registry is consulted is clean, whatever the subject. */
  lemma CleanSlugIsClean(subject: string, id: string, ext: Foreign)
    requires !ext.isWord('-')
    ensures IsCleanSlug(CleanSlug(subject, id, ext), ext.isWord)
  {
    TrimHyphensClean(Hyphenate(SlugSource(subject, id, ext), ext.isWord), ext.isWord);
  }

  /** An empty subject gives the slug the post id would give as its subject. */
  lemma EmptySubjectUsesId(id: string, ext: Foreign)
    requires !ext.isWord('-')
    ensures CleanSlug("", id, ext) == CleanSlug(id, id, ext)
  {
  }

  /** Hyphenating keeps the word characters, in order: only the runs between them change. */
  lemma {:induction false} HyphenateKeepsWords(s: string, isWord: char -> bool)
    requires !isWord('-')
    ensures WordChars(Hyphenate(s, isWord), isWord) == WordChars(s, isWord)
    decreases |s|
  {
    if |s| > 0 {
      if isWord(s[0]) {
        HyphenateKeepsWords(s[1..], isWord);
        assert ([s[0]] + Hyphenate(s[1..], isWord))[1..] == Hyphenate(s[1..], isWord);
      } else {
        var n := NonWordRun(s, isWord);
        HyphenateKeepsWords(s[n..], isWord);
        assert ("-" + Hyphenate(s[n..], isWord))[1..] == Hyphenate(s[n..], isWord);
        NonWordsDropped(s, n, isWord);
      }
    }
  }

  lemma {:induction false} NonWordsDropped(s: string, n: nat, isWord: char -> bool)
    requires n <= |s| && forall i :: 0 <= i < n ==> !isWord(s[i])
    ensures WordChars(s, isWord) == WordChars(s[n..], isWord)
    decreases n
  {
    if n > 0 {
      assert s[1..][n - 1..] == s[n..];
      NonWordsDropped(s[1..], n - 1, isWord);
    }
  }

  /** A hyphenated text is its own hyphenation. */
  lemma {:induction false} HyphenateHyphenated(x: string, isWord: char -> bool)
    requires !isWord('-') && Hyphenated(x, isWord)
    ensures Hyphenate(x, isWord) == x
    decreases |x|
  {
    if |x| > 0 {
      var t := x[1..];
      assert Hyphenated(t, isWord) by {
        assert forall i :: 0 <= i < |t| ==> t[i] == x[i + 1];
      }
      if !isWord(x[0]) {
        assert x[0] == '-';
        assert NonWordRun(x, isWord) == 1 by {
          if |t| > 0 { assert x[1] != '-'; assert isWord(t[0]); }
        }
      }
      HyphenateHyphenated(t, isWord);
      assert [x[0]] + t == x;
    }
  }

  /** A non-empty clean slug, used as a subject, yields itself: cleaning is idempotent. */
  lemma CleanSlugIdempotent(slug: string, id: string, ext: Foreign)
    requires !ext.isWord('-') && !ext.isWord('<') && !ext.isWord('&')
    requires IsCleanSlug(slug, ext.isWord) && |slug| > 0
    ensures CleanSlug(slug, id, ext) == slug
  {
    assert '<' !in slug && '&' !in slug by {
      forall i | 0 <= i < |slug| ensures slug[i] != '<' && slug[i] != '&' {
        assert slug[i] == '-' || ext.isWord(slug[i]);
      }
    }
    HyphenateHyphenated(slug, ext.isWord);
  }

  /**
   * The registry of issued slugs, `SLUGS` of export.py. Only its keys
   * matter (every value is True), so it is a set.
   */
  class SlugRegistry {
    var issued: set<string>

    constructor ()
      ensures issued == {}
    {
      issued := {};
    }

    /** `get_slug(json)` for a post with the given subject and id. */
    method GetSlug(subject: string, id: string, ext: Foreign) returns (slug: string)
      requires !ext.isWord('-')
      modifies this
      ensures slug == NextSlug(old(issued), CleanSlug(subject, id, ext), id)
      ensures issued == old(issued) + {slug}
    {
      slug := CleanSlug(subject, id, ext);
      if slug in issued {
        slug := slug + (if |slug| > 0 then "-" else "") + id;
      }
      issued := issued + {slug};
    }
  }

  /**
   * The suffixed slug is not looked up again, so two posts can get the same
   * slug: "a" (id 1), then "a-2" (id 3), then "a" (id 2), which becomes "a-2".
   */
  lemma SlugsCanRepeat(ext: Foreign)
    requires !ext.isWord('-') && ext.isWord('a') && ext.isWord('2')
    ensures var first := NextSlug({}, CleanSlug("a", "1", ext), "1");
            var second := NextSlug({first}, CleanSlug("a-2", "3", ext), "3");
            var third := NextSlug({first, second}, CleanSlug("a", "2", ext), "2");
            first == "a" && second == "a-2" && third == second
  {
    CleanSingle(ext);
    CleanSuffixed(ext);
  }

  lemma CleanSingle(ext: Foreign)
    requires !ext.isWord('-') && ext.isWord('a')
    ensures CleanSlug("a", "1", ext) == "a" && CleanSlug("a", "2", ext) == "a"
  {
    assert Hyphenate("a", ext.isWord) == "a" by {
      assert "a"[1..] == "";
    }
  }

  lemma CleanSuffixed(ext: Foreign)
    requires !ext.isWord('-') && ext.isWord('a') && ext.isWord('2')
    ensures CleanSlug("a-2", "3", ext) == "a-2"
  {
    assert Hyphenate("a-2", ext.isWord) == "a-2" by {
      assert "a-2"[1..] == "-2";
      assert "-2"[1..] == "2";
      assert NonWordRun("-2", ext.isWord) == 1;
      assert "2"[1..] == "";
    }
  }
}
