/**
 * The regular-expression rewrites of export.py, written as scanners that
 * follow Python's `re` semantics for these particular patterns: leftmost
 * match first, non-overlapping, lazy groups as short as the rest of the
 * pattern allows, `.` never matching a newline.
 */
module TextTransform {
  import opened Util

  // ---------------------------------------------------------------------
  // USER = <lj user="?(.*?)"?>   replaced by the captured user name
  // ---------------------------------------------------------------------

  const MentionOpen: string := "<lj user="

  /**
   * With the lazy group starting at t[j..], finds where it ends: the first
   * position on the line where `">` or `>` follows. Returns the end of the
   * group and the end of the whole closing part.
   */
  function MentionClose(t: string, j: nat): (r: Option<(nat, nat)>)
    requires j <= |t|
    decreases |t| - j
    ensures r.Some? ==> j <= r.value.0 < r.value.1 <= |t|
  {
    if j == |t| then None
    else if t[j] == '"' && j + 1 < |t| && t[j + 1] == '>' then Some((j, j + 2))
    else if t[j] == '>' then Some((j, j + 1))
    else if t[j] == '\n' then None
    else MentionClose(t, j + 1)
  }

  /** The USER match at the very start of s, if any: the user name and the length matched. */
  function MentionAt(s: string): (r: Option<(string, nat)>)
    ensures r.Some? ==> |MentionOpen| < r.value.1 <= |s| && |r.value.0| < r.value.1
  {
    if LitAt(s, 0, MentionOpen) then
      var t := s[|MentionOpen|..];
      var q := if |t| > 0 && t[0] == '"' then 1 else 0;
      match MentionClose(t, q)
      case Some((e, m)) => Some((t[q..e], |MentionOpen| + m))
      case None => None
    else None
  }

  /** `USER.sub(r'\1', s)`: every user-mention tag replaced by the bare user name. */
  function FixUserLinks(s: string): (r: string)
    decreases |s|
    ensures |r| <= |s|
  {
    if |s| == 0 then ""
    else match MentionAt(s)
      case Some((name, n)) => name + FixUserLinks(s[n..])
      case None => [s[0]] + FixUserLinks(s[1..])
  }

  /** A user name that the mention tag reproduces exactly. */
  predicate ValidUserName(u: string)
  {
    forall i :: 0 <= i < |u| ==> u[i] != '"' && u[i] != '>' && u[i] != '\n'
  }

  /** The two spellings of a mention the service writes. */
  function QuotedMention(u: string): string { MentionOpen + "\"" + u + "\">" }
  function BareMention(u: string): string { MentionOpen + u + ">" }

  /** Text before which no tag can start is copied unchanged. */
  lemma {:induction false} FixUserLinksPlain(a: string, b: string)
    requires forall i :: 0 <= i < |a| ==> a[i] != '<'
    ensures FixUserLinks(a + b) == a + FixUserLinks(b)
    decreases |a|
  {
    if |a| > 0 {
      var s := a + b;
      ConcatTail(a, b);
      assert !LitAt(s, 0, MentionOpen) by { assert MentionOpen[0] == '<'; }
      assert MentionAt(s).None?;
      assert FixUserLinks(s) == [s[0]] + FixUserLinks(s[1..]);
      FixUserLinksPlain(a[1..], b);
      HeadTail(a, FixUserLinks(b));
    } else {
      assert a + b == b;
    }
  }

  /** A text without '<' is left as it is. */
  lemma FixUserLinksNoTag(s: string)
    requires forall i :: 0 <= i < |s| ==> s[i] != '<'
    ensures FixUserLinks(s) == s
  {
    FixUserLinksPlain(s, "");
    assert s + "" == s;
  }

  lemma {:induction false} MentionCloseScan(t: string, j: nat, k: nat)
    requires j <= k < |t|
    requires forall i :: j <= i < k ==> t[i] != '"' && t[i] != '>' && t[i] != '\n'
    requires t[k] == '>' || (t[k] == '"' && k + 1 < |t| && t[k + 1] == '>')
    ensures MentionClose(t, j) == Some((k, (if t[k] == '>' then k + 1 else k + 2) as nat))
    decreases k - j
  {
    if j < k { MentionCloseScan(t, j + 1, k); }
  }

  /** A quoted mention of a valid name is replaced by the name. */
  lemma QuotedMentionFixed(u: string, rest: string)
    requires ValidUserName(u)
    ensures FixUserLinks(QuotedMention(u) + rest) == u + FixUserLinks(rest)
  {
    var s := QuotedMention(u) + rest;
    var t := s[|MentionOpen|..];
    assert t == "\"" + u + "\">" + rest;
    MentionCloseScan(t, 1, |u| + 1);
    assert t[1..|u| + 1] == u;
    assert s[|MentionOpen| + |u| + 3..] == rest;
  }

  /** An unquoted mention of a valid name is replaced by the name. */
  lemma BareMentionFixed(u: string, rest: string)
    requires ValidUserName(u)
    ensures FixUserLinks(BareMention(u) + rest) == u + FixUserLinks(rest)
  {
    var s := BareMention(u) + rest;
    var t := s[|MentionOpen|..];
    assert t == u + ">" + rest;
    MentionCloseScan(t, 0, |u|);
    assert t[0..|u|] == u;
    assert s[|MentionOpen| + |u| + 1..] == rest;
  }

  // ---------------------------------------------------------------------
  // TAGLESS_NEWLINES = (?<!>)\n   replaced by a fixed string
  // ---------------------------------------------------------------------

  /** s[i] is a newline that does not follow a '>'. */
  predicate TaglessAt(s: string, i: nat)
    requires i < |s|
  {
    s[i] == '\n' && (i == 0 || s[i - 1] != '>')
  }

  /**
   * `TAGLESS_NEWLINES.sub(rep, s)`. The lookbehind reads the original text,
   * so the fate of the last character depends only on its predecessor in s.
   */
  function SubTagless(s: string, rep: string): string
    decreases |s|
  {
    if |s| == 0 then ""
    else SubTagless(s[..|s| - 1], rep) + (if TaglessAt(s, |s| - 1) then rep else [s[|s| - 1]])
  }

  /** The number of newlines in s that do not follow a '>'. */
  function TaglessCount(s: string): nat
    decreases |s|
  {
    if |s| == 0 then 0 else TaglessCount(s[..|s| - 1]) + (if TaglessAt(s, |s| - 1) then 1 else 0)
  }

  /** s has no newline that does not follow a '>'. */
  predicate NoTagless(s: string)
  {
    forall i :: 0 <= i < |s| ==> !TaglessAt(s, i)
  }

  /** A replacement such as `<br>\n` or `<br>` whose own newlines all follow a '>'. */
  predicate BreakMarkup(rep: string)
  {
    forall j :: 0 <= j < |rep| && rep[j] == '\n' ==> j > 0 && rep[j - 1] == '>'
  }

  /** Each replaced newline grows the text by |rep| - 1 characters; nothing else changes length. */
  lemma {:induction false} SubTaglessLength(s: string, rep: string)
    ensures |SubTagless(s, rep)| == |s| + (|rep| - 1) * TaglessCount(s)
    decreases |s|
  {
    if |s| > 0 {
      var p := s[..|s| - 1];
      var c := TaglessCount(p);
      SubTaglessLength(p, rep);
      if TaglessAt(s, |s| - 1) {
        assert (|rep| - 1) * (c + 1) == (|rep| - 1) * c + (|rep| - 1);
      }
    }
  }

  /** A text in which every newline already follows a '>' is left as it is. */
  lemma {:induction false} SubTaglessIdentity(s: string, rep: string)
    requires NoTagless(s)
    ensures SubTagless(s, rep) == s
    decreases |s|
  {
    if |s| > 0 {
      var p := s[..|s| - 1];
      assert forall i :: 0 <= i < |p| ==> (TaglessAt(p, i) <==> TaglessAt(s, i));
      SubTaglessIdentity(p, rep);
      assert !TaglessAt(s, |s| - 1);
      assert p + [s[|s| - 1]] == s;
    }
  }

  /** The last character of the rewrite: a '>' at the end of s stays at the end. */
  lemma SubTaglessLast(s: string, rep: string)
    requires |s| > 0 && s[|s| - 1] == '>'
    ensures var r := SubTagless(s, rep); |r| > 0 && r[|r| - 1] == '>'
  {
  }

  /** After the rewrite with a break markup, no newline is left that does not follow a '>'. */
  lemma {:induction false} SubTaglessLeavesNone(s: string, rep: string)
    requires BreakMarkup(rep)
    ensures NoTagless(SubTagless(s, rep))
    decreases |s|
  {
    if |s| > 0 {
      var p := s[..|s| - 1];
      var head := SubTagless(p, rep);
      SubTaglessLeavesNone(p, rep);
      var r := SubTagless(s, rep);
      if TaglessAt(s, |s| - 1) {
        assert r == head + rep;
        forall i | 0 <= i < |r| ensures !TaglessAt(r, i) {
          if i >= |head| {
            var j := i - |head|;
            assert r[i] == rep[j];
            if rep[j] == '\n' {
              assert j > 0 && rep[j - 1] == '>';
              assert r[i - 1] == rep[j - 1];
            }
          } else {
            assert r[i] == head[i];
            assert !TaglessAt(head, i);
            if i > 0 { assert r[i - 1] == head[i - 1]; }
          }
        }
      } else {
        assert r == head + [s[|s| - 1]];
        forall i | 0 <= i < |r| ensures !TaglessAt(r, i) {
          if i == |head| {
            if r[i] == '\n' {
              SubTaglessLast(p, rep);
              assert r[i - 1] == head[|head| - 1];
            }
          } else {
            assert r[i] == head[i];
            assert !TaglessAt(head, i);
            if i > 0 { assert r[i - 1] == head[i - 1]; }
          }
        }
      }
    }
  }

  /** The rewrite of a prefix of s is a prefix of the rewrite of s. */
  lemma {:induction false} SubTaglessPrefix(s: string, rep: string, n: nat)
    requires n <= |s|
    ensures SubTagless(s[..n], rep) <= SubTagless(s, rep)
    decreases |s| - n
  {
    if n == |s| {
      assert s[..n] == s;
    } else {
      var p := s[..|s| - 1];
      assert p[..n] == s[..n];
      SubTaglessPrefix(p, rep, n);
    }
  }

  /**
   * Position by position: the i-th character of s, found in the rewrite
   * after the rewrite of the characters before it, is there as rep when it is
   * a newline that does not follow a '>', and as itself otherwise.
   */
  lemma SubTaglessAt(s: string, rep: string, i: nat)
    requires i < |s|
    ensures var r := SubTagless(s, rep);
            var o := |SubTagless(s[..i], rep)|;
            var piece := if TaglessAt(s, i) then rep else [s[i]];
            o == i + (|rep| - 1) * TaglessCount(s[..i]) && o + |piece| <= |r| && r[o..o + |piece|] == piece
  {
    var q := s[..i + 1];
    assert q[..i] == s[..i];
    assert TaglessAt(q, i) <==> TaglessAt(s, i);
    SubTaglessPrefix(s, rep, i + 1);
    SubTaglessLength(s[..i], rep);
  }

  /** Rewriting twice is rewriting once. */
  lemma SubTaglessIdempotent(s: string, rep: string)
    requires BreakMarkup(rep)
    ensures SubTagless(SubTagless(s, rep), rep) == SubTagless(s, rep)
  {
    SubTaglessLeavesNone(s, rep);
    SubTaglessIdentity(SubTagless(s, rep), rep);
  }

  // ---------------------------------------------------------------------
  // TAG = \[!\[(.*?)\]\(http:\/\/utx.ambience.ru\/img\/.*?\)\]\(.*?\)
  // ---------------------------------------------------------------------

  /** The three literal stretches of `\]\(http:\/\/utx.ambience.ru\/img\/`, between its two unescaped dots. */
  const HostHead: string := "](http://utx"
  const HostMid: string := "ambience"
  const HostTail: string := "ru/img/"

  /** What the markers in the service's posts spell for that part of TAG. */
  const ImageHostText: string := HostHead + "." + HostMid + "." + HostTail

  /**
   * The host part of TAG matches at the start of u. Its two dots are
   * unescaped, so they match any character but a newline.
   */
  predicate ImageHostAt(u: string)
  {
    |u| >= 29 && u[..12] == HostHead && u[12] != '\n' && u[13..21] == HostMid
    && u[21] != '\n' && u[22..29] == HostTail
  }

  /** A 29-character spelling of the image host that the pattern accepts. */
  predicate ValidHost(h: string)
  {
    |h| == 29 && ImageHostAt(h)
  }

  /** The literal lit occurs in s at position j. */
  predicate LitAt(s: string, j: nat, lit: string)
  {
    j + |lit| <= |s| && forall i :: 0 <= i < |lit| ==> s[j + i] == lit[i]
  }

  /** `.*?` followed by the literal lit, from s[j..]: the first place on the line where lit starts. */
  function FindOnLine(s: string, j: nat, lit: string): (r: Option<nat>)
    requires j <= |s|
    decreases |s| - j
    ensures r.Some? ==> j <= r.value && LitAt(s, r.value, lit)
  {
    if LitAt(s, j, lit) then Some(j)
    else if j < |s| && s[j] != '\n' then FindOnLine(s, j + 1, lit)
    else None
  }

  /** The rest of TAG after its caption, `\]\(http…img\/.*?\)\]\(.*?\)`, at the start of u: the length it takes. */
  function ImageLinkAt(u: string): (r: Option<nat>)
    ensures r.Some? ==> 0 < r.value <= |u|
  {
    if ImageHostAt(u) then
      match FindOnLine(u, 29, ")](")
      case None => None
      case Some(a) =>
        match FindOnLine(u, a + 3, ")")
        case None => None
        case Some(b) => Some(b + 1)
    else None
  }

  /** The lazy caption `(.*?)` of a match starting at t[0]: the shortest caption after which the rest matches. */
  function CaptionEnd(t: string, j: nat): (r: Option<(nat, nat)>)
    requires j <= |t|
    decreases |t| - j
    ensures r.Some? ==> j <= r.value.0 < r.value.1 <= |t|
  {
    match ImageLinkAt(t[j..])
    case Some(m) => Some((j, j + m))
    case None => if j < |t| && t[j] != '\n' then CaptionEnd(t, j + 1) else None
  }

  /** The TAG match at the very start of s, if any: its caption and the length matched. */
  function TagAt(s: string): (r: Option<(string, nat)>)
    ensures r.Some? ==> 0 < r.value.1 <= |s|
  {
    if LitAt(s, 0, "[![") then
      match CaptionEnd(s[3..], 0)
      case Some((e, m)) => Some((s[3..3 + e], 3 + m))
      case None => None
    else None
  }

  /** `TAG.findall(s)`: the captions of all markers, left to right. */
  function FindTags(s: string): (r: seq<string>)
    decreases |s|
    ensures |r| <= |s|
  {
    if |s| == 0 then []
    else match TagAt(s)
      case Some((caption, n)) => [caption] + FindTags(s[n..])
      case None => FindTags(s[1..])
  }

  /** `TAG.sub('', s)`: the text with every marker removed. */
  function RemoveTags(s: string): (r: string)
    decreases |s|
    ensures |r| <= |s|
  {
    if |s| == 0 then ""
    else match TagAt(s)
      case Some((caption, n)) => RemoveTags(s[n..])
      case None => [s[0]] + RemoveTags(s[1..])
  }

  /** An image-link tag marker, with the host spelled h. */
  function MarkerWith(caption: string, h: string, image: string, link: string): string
  {
    "[![" + caption + h + image + ")](" + link + ")"
  }

  /** An image-link tag marker as the tagging service writes it. */
  function Marker(caption: string, image: string, link: string): string
  {
    MarkerWith(caption, ImageHostText, image, link)
  }

  lemma ImageHostTextValid()
    ensures ValidHost(ImageHostText)
  {
    var t := ImageHostText;
    assert t[..12] == HostHead && t[13..21] == HostMid && t[22..29] == HostTail;
  }

  predicate NoneOf(s: string, a: char, b: char)
  {
    forall i :: 0 <= i < |s| ==> s[i] != a && s[i] != b
  }

  /** A marker whose caption, image path and link are read back exactly. */
  predicate ValidMarker(caption: string, image: string, link: string)
  {
    NoneOf(caption, ']', '\n') && NoneOf(image, ')', '\n') && NoneOf(link, ')', '\n')
  }

  lemma {:induction false} FindOnLineScan(s: string, j: nat, k: nat, lit: string)
    requires j <= k && LitAt(s, k, lit)
    requires forall i :: j <= i < k ==> !LitAt(s, i, lit) && s[i] != '\n'
    ensures FindOnLine(s, j, lit) == Some(k)
    decreases k - j
  {
    if j < k { FindOnLineScan(s, j + 1, k, lit); }
  }

  /** `.*?lit` over a stretch that holds neither lit's first character nor a newline stops right after it. */
  lemma FindAt(s: string, j: nat, k: nat, lit: string)
    requires |lit| > 0 && j <= k && LitAt(s, k, lit)
    requires forall i :: j <= i < k ==> s[i] != lit[0] && s[i] != '\n'
    ensures FindOnLine(s, j, lit) == Some(k)
  {
    forall i | j <= i < k ensures !LitAt(s, i, lit) && s[i] != '\n' {
      assert s[i + 0] != lit[0];
    }
    FindOnLineScan(s, j, k, lit);
  }

  lemma {:induction false} CaptionScan(t: string, j: nat, k: nat, m: nat)
    requires j <= k <= |t|
    requires forall i :: j <= i < k ==> ImageLinkAt(t[i..]).None? && t[i] != '\n'
    requires ImageLinkAt(t[k..]) == Some(m)
    ensures CaptionEnd(t, j) == Some((k, k + m))
    decreases k - j
  {
    if j < k { CaptionScan(t, j + 1, k, m); }
  }

  lemma ImageLinkAtSteps(u: string, a: nat, b: nat)
    requires ImageHostAt(u)
    requires FindOnLine(u, 29, ")](") == Some(a) && a + 3 <= |u|
    requires FindOnLine(u, a + 3, ")") == Some(b)
    ensures ImageLinkAt(u) == Some(b + 1)
  {
  }

  /** The rest of TAG matches u when its two lazy stretches run up to the first `)](` and the next `)`. */
  lemma ImageLinkOf(u: string, a: nat, b: nat)
    requires ImageHostAt(u) && 29 <= a && a + 3 <= b
    requires LitAt(u, a, ")](") && forall i :: 29 <= i < a ==> u[i] != ')' && u[i] != '\n'
    requires LitAt(u, b, ")") && forall i :: a + 3 <= i < b ==> u[i] != ')' && u[i] != '\n'
    ensures ImageLinkAt(u) == Some(b + 1)
  {
    FindAt(u, 29, a, ")](");
    FindAt(u, a + 3, b, ")");
    ImageLinkAtSteps(u, a, b);
  }

  /** The part of a valid marker after its caption is matched whole by the rest of TAG. */
  lemma ImageLinkAfterHost(h: string, image: string, link: string, rest: string)
    requires ValidHost(h) && NoneOf(image, ')', '\n') && NoneOf(link, ')', '\n')
    ensures ImageLinkAt(h + image + ")](" + link + ")" + rest) == Some(33 + |image| + |link|)
  {
    var u := h + image + ")](" + link + ")" + rest;
    var a := 29 + |image|;
    var b := a + 3 + |link|;
    assert ImageHostAt(u) by {
      assert u[..12] == h[..12] && u[13..21] == h[13..21] && u[22..29] == h[22..29];
    }
    assert forall i :: 29 <= i < a ==> u[i] == image[i - 29];
    assert forall i :: 0 <= i < 3 ==> u[a + i] == ")]("[i];
    assert forall i :: a + 3 <= i < b ==> u[i] == link[i - a - 3];
    assert u[b + 0] == ")"[0];
    ImageLinkOf(u, a, b);
  }

  /** The rest of TAG cannot match where the caption still goes on. */
  lemma ImageLinkNeedsBracket(u: string)
    requires |u| > 0 && u[0] != ']'
    ensures ImageLinkAt(u).None?
  {
    if |u| >= 29 { assert u[..12][0] != HostHead[0]; }
  }

  lemma TagAtSteps(s: string, c: nat, m: nat)
    requires LitAt(s, 0, "[![") && CaptionEnd(s[3..], 0) == Some((c, c + m))
    ensures TagAt(s) == Some((s[3..3 + c], 3 + c + m))
  {
  }

  /** The caption of a valid marker ends where its host part begins. */
  lemma CaptionOfMarker(caption: string, after: string, m: nat)
    requires NoneOf(caption, ']', '\n') && ImageLinkAt(after) == Some(m)
    ensures CaptionEnd(caption + after, 0) == Some((|caption|, |caption| + m))
  {
    var t := caption + after;
    assert t[|caption|..] == after;
    forall i | 0 <= i < |caption| ensures ImageLinkAt(t[i..]).None? && t[i] != '\n' {
      CaptionCharAt(caption, after, i);
    }
    CaptionScan(t, 0, |caption|, m);
  }

  lemma CaptionCharAt(caption: string, after: string, i: nat)
    requires NoneOf(caption, ']', '\n') && i < |caption|
    ensures ImageLinkAt((caption + after)[i..]).None? && (caption + after)[i] != '\n'
  {
    var u := (caption + after)[i..];
    assert u[0] == caption[i];
    ImageLinkNeedsBracket(u);
  }

  /** `[![` and a caption without `]`, followed by a match of the rest of TAG, is one whole match. */
  lemma TagAtOpen(caption: string, after: string, m: nat)
    requires NoneOf(caption, ']', '\n') && ImageLinkAt(after) == Some(m)
    ensures TagAt("[![" + (caption + after)) == Some((caption, 3 + |caption| + m))
  {
    OpenParts(caption, after);
    CaptionOfMarker(caption, after, m);
    TagAtSteps("[![" + (caption + after), |caption|, m);
  }

  lemma OpenParts(caption: string, after: string)
    ensures var s := "[![" + (caption + after);
            LitAt(s, 0, "[![") && s[3..] == caption + after && s[3..3 + |caption|] == caption
  {
    var s := "[![" + (caption + after);
    assert forall i :: 0 <= i < 3 ==> s[0 + i] == "[!["[i];
    assert s[3..] == caption + after;
    assert s[3..3 + |caption|] == (caption + after)[..|caption|];
  }

  lemma MarkerSplit(caption: string, h: string, image: string, link: string, rest: string)
    ensures MarkerWith(caption, h, image, link) + rest == "[![" + (caption + (h + image + ")](" + link + ")" + rest))
  {
  }

  /** A valid marker at the start of a text is matched whole, and its caption is read back. */
  lemma TagAtMarker(caption: string, h: string, image: string, link: string, rest: string)
    requires ValidMarker(caption, image, link) && ValidHost(h)
    ensures TagAt(MarkerWith(caption, h, image, link) + rest) == Some((caption, |MarkerWith(caption, h, image, link)|))
  {
    ImageLinkAfterHost(h, image, link, rest);
    TagAtOpen(caption, h + image + ")](" + link + ")" + rest, 33 + |image| + |link|);
    MarkerSplit(caption, h, image, link, rest);
  }

  /** Where no marker starts, findall moves on by one character and sub keeps it. */
  lemma TagsSkip(s: string)
    requires |s| > 0 && TagAt(s).None?
    ensures FindTags(s) == FindTags(s[1..])
    ensures RemoveTags(s) == [s[0]] + RemoveTags(s[1..])
  {
  }

  /** Where a marker starts, findall reports its caption and sub drops it. */
  lemma TagsTake(s: string, caption: string, n: nat)
    requires TagAt(s) == Some((caption, n))
    ensures FindTags(s) == [caption] + FindTags(s[n..])
    ensures RemoveTags(s) == RemoveTags(s[n..])
  {
  }

  /** No '[' in s is followed by '!', so no marker starts inside s. */
  predicate OpenFree(s: string)
  {
    forall i :: 0 <= i < |s| - 1 ==> s[i] != '[' || s[i + 1] != '!'
  }

  /** a does not end in a '[' that the '!' starting b turns into the opening of a marker. */
  predicate JoinFree(a: string, b: string)
  {
    |a| > 0 && |b| > 0 && a[|a| - 1] == '[' ==> b[0] != '!'
  }

  /** Text in which no marker starts is skipped by findall and kept by sub. */
  lemma {:induction false} TagsPlain(a: string, b: string)
    requires OpenFree(a) && JoinFree(a, b)
    ensures FindTags(a + b) == FindTags(b)
    ensures RemoveTags(a + b) == a + RemoveTags(b)
    decreases |a|
  {
    if |a| > 0 {
      OpenFreeTail(a, b);
      TagsPlain(a[1..], b);
      TagsPlainFirst(a, b);
    } else {
      assert a + b == b;
    }
  }

  lemma OpenFreeTail(a: string, b: string)
    requires OpenFree(a) && JoinFree(a, b) && |a| > 0
    ensures OpenFree(a[1..]) && JoinFree(a[1..], b)
  {
    var t := a[1..];
    forall i | 0 <= i < |t| - 1 ensures t[i] != '[' || t[i + 1] != '!' {
      assert t[i] == a[i + 1] && t[i + 1] == a[i + 2];
    }
    if |t| > 0 {
      assert t[|t| - 1] == a[|a| - 1];
    }
  }

  /** No marker starts at the front of a + b. */
  lemma NoOpenAtFront(a: string, b: string)
    requires OpenFree(a) && JoinFree(a, b) && |a| > 0
    ensures !LitAt(a + b, 0, "[![")
  {
    var s := a + b;
    assert "[!["[0] == '[' && "[!["[1] == '!';
    if |s| >= 3 && s[0] == '[' {
      if |a| >= 2 {
        assert s[1] == a[1];
      } else {
        assert s[1] == b[0];
      }
      assert s[1] != '!';
    }
  }

  lemma TagsPlainFirst(a: string, b: string)
    requires OpenFree(a) && JoinFree(a, b) && |a| > 0
    requires FindTags(a[1..] + b) == FindTags(b) && RemoveTags(a[1..] + b) == a[1..] + RemoveTags(b)
    ensures FindTags(a + b) == FindTags(b)
    ensures RemoveTags(a + b) == a + RemoveTags(b)
  {
    ConsParts(a, b);
    NoOpenAtFront(a, b);
    SkipFirst(a + b, a[0], a[1..] + b);
    ConsParts(a, RemoveTags(b));
  }

  lemma ConsParts(a: string, b: string)
    requires |a| > 0
    ensures (a + b)[0] == a[0] && (a + b)[1..] == a[1..] + b && [a[0]] + (a[1..] + b) == a + b
  {
  }

  /** A text at whose front no marker starts, with the rest t. */
  lemma SkipFirst(s: string, c: char, t: string)
    requires |s| > 0 && s[0] == c && !LitAt(s, 0, "[![") && s[1..] == t
    ensures FindTags(s) == FindTags(t) && RemoveTags(s) == [c] + RemoveTags(t)
  {
    TagsSkip(s);
  }

  /** A valid marker at the start is reported by findall and removed by sub. */
  lemma TagsMarker(caption: string, h: string, image: string, link: string, rest: string)
    requires ValidMarker(caption, image, link) && ValidHost(h)
    ensures FindTags(MarkerWith(caption, h, image, link) + rest) == [caption] + FindTags(rest)
    ensures RemoveTags(MarkerWith(caption, h, image, link) + rest) == RemoveTags(rest)
  {
    var m := MarkerWith(caption, h, image, link);
    TagAtMarker(caption, h, image, link, rest);
    TagsTake(m + rest, caption, |m|);
    assert (m + rest)[|m|..] == rest;
  }

  /** A marker as the tagging service writes it is reported by findall and removed by sub. */
  lemma ServiceMarker(caption: string, image: string, link: string, rest: string)
    requires ValidMarker(caption, image, link)
    ensures FindTags(Marker(caption, image, link) + rest) == [caption] + FindTags(rest)
    ensures RemoveTags(Marker(caption, image, link) + rest) == RemoveTags(rest)
  {
    ImageHostTextValid();
    TagsMarker(caption, ImageHostText, image, link, rest);
  }

  /** A text in which no '[' is followed by '!' holds no marker. */
  lemma OpenFreeNoTags(r: string)
    requires OpenFree(r)
    ensures FindTags(r) == [] && RemoveTags(r) == r
  {
    TagsPlain(r, "");
    assert r + "" == r;
  }

  /** A piece of post text followed by one tag marker, whose host is spelled host. */
  datatype Tagged = Tagged(text: string, caption: string, host: string, image: string, link: string)

  predicate ValidPiece(p: Tagged)
  {
    OpenFree(p.text) && ValidMarker(p.caption, p.image, p.link) && ValidHost(p.host)
  }

  predicate ValidPieces(ps: seq<Tagged>)
  {
    forall k :: 0 <= k < |ps| ==> ValidPiece(ps[k])
  }

  function PieceText(p: Tagged): string
  {
    p.text + MarkerWith(p.caption, p.host, p.image, p.link)
  }

  /** The body text made of the pieces, each text followed by its marker, then the tail. */
  function Compose(ps: seq<Tagged>, tail: string): string
  {
    if |ps| == 0 then tail else PieceText(ps[0]) + Compose(ps[1..], tail)
  }

  function Captions(ps: seq<Tagged>): seq<string>
  {
    if |ps| == 0 then [] else [ps[0].caption] + Captions(ps[1..])
  }

  function Texts(ps: seq<Tagged>): string
  {
    if |ps| == 0 then "" else ps[0].text + Texts(ps[1..])
  }

  lemma ValidPiecesTail(ps: seq<Tagged>)
    requires |ps| > 0 && ValidPieces(ps)
    ensures ValidPiece(ps[0]) && ValidPieces(ps[1..])
  {
    assert forall k :: 0 <= k < |ps[1..]| ==> ps[1..][k] == ps[k + 1];
  }

  /** One piece in front of a text contributes its caption to findall. */
  lemma FindTagsPiece(p: Tagged, rest: string)
    requires ValidPiece(p)
    ensures FindTags(PieceText(p) + rest) == [p.caption] + FindTags(rest)
  {
    var m := MarkerWith(p.caption, p.host, p.image, p.link);
    assert PieceText(p) + rest == p.text + (m + rest);
    assert (m + rest)[0] == '[';
    TagsPlain(p.text, m + rest);
    TagsMarker(p.caption, p.host, p.image, p.link, rest);
  }

  /** One piece in front of a text contributes its text to sub. */
  lemma RemoveTagsPiece(p: Tagged, rest: string)
    requires ValidPiece(p)
    ensures RemoveTags(PieceText(p) + rest) == p.text + RemoveTags(rest)
  {
    var m := MarkerWith(p.caption, p.host, p.image, p.link);
    assert PieceText(p) + rest == p.text + (m + rest);
    assert (m + rest)[0] == '[';
    TagsPlain(p.text, m + rest);
    TagsMarker(p.caption, p.host, p.image, p.link, rest);
  }

  /** A body holding N markers yields exactly their N captions, in order and with repeats. */
  lemma {:induction false} FindTagsRoundTrip(ps: seq<Tagged>, tail: string)
    requires ValidPieces(ps) && OpenFree(tail)
    ensures FindTags(Compose(ps, tail)) == Captions(ps)
  {
    if |ps| == 0 {
      OpenFreeNoTags(tail);
    } else {
      ValidPiecesTail(ps);
      FindTagsRoundTrip(ps[1..], tail);
      FindTagsPiece(ps[0], Compose(ps[1..], tail));
    }
  }

  /** Removing the markers of such a body leaves exactly the text around them. */
  lemma {:induction false} RemoveTagsRoundTrip(ps: seq<Tagged>, tail: string)
    requires ValidPieces(ps) && OpenFree(tail)
    ensures RemoveTags(Compose(ps, tail)) == Texts(ps) + tail
  {
    if |ps| == 0 {
      OpenFreeNoTags(tail);
      assert Texts(ps) + tail == tail;
    } else {
      ValidPiecesTail(ps);
      RemoveTagsRoundTrip(ps[1..], tail);
      RemoveTagsFirst(ps, tail);
    }
  }

  lemma RemoveTagsFirst(ps: seq<Tagged>, tail: string)
    requires |ps| > 0 && ValidPiece(ps[0])
    requires RemoveTags(Compose(ps[1..], tail)) == Texts(ps[1..]) + tail
    ensures RemoveTags(Compose(ps, tail)) == Texts(ps) + tail
  {
    RemoveTagsPiece(ps[0], Compose(ps[1..], tail));
    TextsFirst(ps, tail);
  }

  lemma TextsFirst(ps: seq<Tagged>, tail: string)
    requires |ps| > 0
    ensures Texts(ps) + tail == ps[0].text + (Texts(ps[1..]) + tail)
  {
  }

  /** An ordinary markdown link before a marker is kept, and only the marker's caption is reported. */
  lemma LinkThenMarker(caption: string, image: string, link: string)
    requires ValidMarker(caption, image, link)
    ensures FindTags("see [here](u) " + Marker(caption, image, link)) == [caption]
    ensures RemoveTags("see [here](u) " + Marker(caption, image, link)) == "see [here](u) "
  {
    var t := "see [here](u) ";
    var m := Marker(caption, image, link);
    assert OpenFree(t);
    TagsPlain(t, m);
    assert m + "" == m;
    ServiceMarker(caption, image, link, "");
    assert FindTags("") == [] && RemoveTags("") == "";
    assert t + "" == t;
  }

  /** s ends in a '['. */
  predicate EndsOpen(s: string)
  {
    |s| > 0 && s[|s| - 1] == '['
  }

  lemma OpenFreeJoin(a: string, b: string)
    requires OpenFree(a) && OpenFree(b) && !EndsOpen(a)
    ensures OpenFree(a + b)
  {
    var s := a + b;
    forall i | 0 <= i < |s| - 1 ensures s[i] != '[' || s[i + 1] != '!' {
      if i + 1 < |a| {
        assert s[i] == a[i] && s[i + 1] == a[i + 1];
      } else if i + 1 == |a| {
        assert s[i] == a[|a| - 1];
      } else {
        assert s[i] == b[i - |a|] && s[i + 1] == b[i - |a| + 1];
      }
    }
  }

  lemma {:induction false} TextsOpenFree(ps: seq<Tagged>, tail: string)
    requires ValidPieces(ps) && OpenFree(tail)
    requires forall k :: 0 <= k < |ps| ==> !EndsOpen(ps[k].text)
    ensures OpenFree(Texts(ps) + tail)
  {
    if |ps| > 0 {
      ValidPiecesTail(ps);
      assert forall k :: 0 <= k < |ps[1..]| ==> ps[1..][k] == ps[k + 1];
      TextsOpenFree(ps[1..], tail);
      TextsFirst(ps, tail);
      OpenFreeJoin(ps[0].text, Texts(ps[1..]) + tail);
    }
  }

  /**
   * After the markers are removed, none is left to find, provided no text
   * ends in the '[' that the text after the marker could complete.
   */
  lemma NoTagsAfterRemoval(ps: seq<Tagged>, tail: string)
    requires ValidPieces(ps) && OpenFree(tail)
    requires forall k :: 0 <= k < |ps| ==> !EndsOpen(ps[k].text)
    ensures FindTags(RemoveTags(Compose(ps, tail))) == []
  {
    RemoveTagsRoundTrip(ps, tail);
    TextsOpenFree(ps, tail);
    OpenFreeNoTags(Texts(ps) + tail);
  }

  /**
   * Without that proviso, removing a marker can join a '[' before it and the
   * text after it into a new marker: "x[", a marker, then "![b" and the rest
   * of a marker, leaves "x" and a marker whose caption is "b".
   */
  lemma RemovalCanMakeTag()
    ensures var ps := [Tagged("x[", "a", ImageHostText, "i", "l")];
            var tail := "![b" + ImageHostText + "i)](l)";
            ValidPieces(ps) && OpenFree(tail) && FindTags(RemoveTags(Compose(ps, tail))) == ["b"]
  {
    var ps := [Tagged("x[", "a", ImageHostText, "i", "l")];
    var tail := "![b" + ImageHostText + "i)](l)";
    ExampleValid(ps, tail);
    RemoveTagsRoundTrip(ps, tail);
    ExampleJoin(ps, tail);
    ExampleFind();
  }

  lemma ExampleValid(ps: seq<Tagged>, tail: string)
    requires ps == [Tagged("x[", "a", ImageHostText, "i", "l")] && tail == "![b" + ImageHostText + "i)](l)"
    ensures ValidPieces(ps) && OpenFree(tail)
  {
    ImageHostTextValid();
    assert ValidMarker("a", "i", "l");
    assert OpenFree("x[");
    HostOpenFree();
    assert OpenFree("![b");
    OpenFreeJoin("![b", ImageHostText);
    assert OpenFree("i)](l)");
    var h := "![b" + ImageHostText;
    assert h[|h| - 1] == ImageHostText[|ImageHostText| - 1];
    OpenFreeJoin(h, "i)](l)");
  }

  lemma ExampleJoin(ps: seq<Tagged>, tail: string)
    requires ps == [Tagged("x[", "a", ImageHostText, "i", "l")] && tail == "![b" + ImageHostText + "i)](l)"
    ensures Texts(ps) + tail == "x" + (Marker("b", "i", "l") + "")
  {
    assert Texts(ps) == "x[" + Texts([]);
    JoinAt(ImageHostText);
  }

  lemma JoinAt(h: string)
    ensures "x[" + ("![b" + h + "i)](l)") == "x" + (MarkerWith("b", h, "i", "l") + "")
  {
    var u := "x[" + ("![b" + h + "i)](l)");
    var v := "x" + (MarkerWith("b", h, "i", "l") + "");
    assert |u| == |v|;
    forall k | 0 <= k < |u| ensures u[k] == v[k] {
      if k < 5 {
      } else if k < 5 + |h| {
        assert u[k] == h[k - 5] == v[k];
      } else {
      }
    }
  }

  lemma ExampleFind()
    ensures FindTags("x" + (Marker("b", "i", "l") + "")) == ["b"]
  {
    assert OpenFree("x");
    assert (Marker("b", "i", "l") + "")[0] == '[';
    TagsPlain("x", Marker("b", "i", "l") + "");
    assert ValidMarker("b", "i", "l");
    ServiceMarker("b", "i", "l", "");
    assert FindTags("") == [];
  }

  lemma HostOpenFree()
    ensures OpenFree(ImageHostText) && !EndsOpen(ImageHostText)
  {
    var t := ImageHostText;
    assert forall i :: 0 <= i < |t| ==> t[i] != '[';
  }

  // ---------------------------------------------------------------------
  // NEWLINES = (\s*\n){3,}   replaced by two newlines
  // ---------------------------------------------------------------------

  predicate AllSpace(w: string)
  {
    forall i :: 0 <= i < |w| ==> IsSpace(w[i])
  }

  /** t is empty or starts with a character `\s` does not match. */
  predicate StartsSolid(t: string)
  {
    |t| == 0 || !IsSpace(t[0])
  }

  /** The length of the whitespace run at the start of s. */
  function SpaceRun(s: string): (r: nat)
    ensures r <= |s| && AllSpace(s[..r]) && StartsSolid(s[r..])
  {
    if |s| > 0 && IsSpace(s[0]) then
      var r := 1 + SpaceRun(s[1..]);
      assert s[..r] == [s[0]] + s[1..][..r - 1];
      assert s[r..] == s[1..][r - 1..];
      r
    else 0
  }

  function NewlineCount(s: string): nat
  {
    if |s| == 0 then 0 else (if s[0] == '\n' then 1 else 0) + NewlineCount(s[1..])
  }

  /** The position just after the last newline of w, or 0 when it has none. */
  function AfterLastNewline(w: string): (r: nat)
    ensures r <= |w| && (r > 0 ==> w[r - 1] == '\n')
    ensures forall i :: r <= i < |w| ==> w[i] != '\n'
  {
    if |w| == 0 then 0
    else if w[|w| - 1] == '\n' then |w|
    else AfterLastNewline(w[..|w| - 1])
  }

  /**
   * The length of the NEWLINES match at the start of s, if any. `\s*` takes
   * the whole whitespace run and gives back what the repetition needs, so the
   * greedy `{3,}` ends just after the last newline of the run; it needs at
   * least three newlines in the run.
   */
  function BlankLinesAt(s: string): (r: Option<nat>)
    ensures r.Some? ==> 0 < r.value <= |s|
  {
    var w := s[..SpaceRun(s)];
    if NewlineCount(w) >= 3 then
      NewlineCountPositive(w);
      Some(AfterLastNewline(w))
    else None
  }

  /** `NEWLINES.sub('\n\n', s)`. */
  function CollapseBlankLines(s: string): string
    decreases |s|
  {
    if |s| == 0 then ""
    else match BlankLinesAt(s)
      case Some(n) => "\n\n" + CollapseBlankLines(s[n..])
      case None => [s[0]] + CollapseBlankLines(s[1..])
  }

  /** NEWLINES matches nowhere in s. */
  predicate Calm(s: string)
  {
    forall i :: 0 <= i < |s| ==> BlankLinesAt(s[i..]).None?
  }

  lemma {:induction false} NewlineCountPositive(w: string)
    requires NewlineCount(w) > 0
    ensures AfterLastNewline(w) > 0
    decreases |w|
  {
    if w[|w| - 1] != '\n' {
      var p := w[..|w| - 1];
      NewlineCountSplit(p, [w[|w| - 1]]);
      assert p + [w[|w| - 1]] == w;
      NewlineCountPositive(p);
    }
  }

  lemma {:induction false} NewlineCountSplit(a: string, b: string)
    ensures NewlineCount(a + b) == NewlineCount(a) + NewlineCount(b)
    decreases |a|
  {
    if |a| > 0 {
      assert (a + b)[1..] == a[1..] + b;
      NewlineCountSplit(a[1..], b);
    } else {
      assert a + b == b;
    }
  }

  lemma {:induction false} NoNewlineCount(w: string)
    requires forall i :: 0 <= i < |w| ==> w[i] != '\n'
    ensures NewlineCount(w) == 0
    decreases |w|
  {
    if |w| > 0 { NoNewlineCount(w[1..]); }
  }

  lemma {:induction false} SpaceRunOf(w: string, t: string)
    requires AllSpace(w) && StartsSolid(t)
    ensures SpaceRun(w + t) == |w|
    decreases |w|
  {
    if |w| > 0 {
      assert (w + t)[1..] == w[1..] + t;
      SpaceRunOf(w[1..], t);
    } else {
      assert w + t == t;
    }
  }

  lemma CollapseSkip(s: string)
    requires |s| > 0 && BlankLinesAt(s).None?
    ensures CollapseBlankLines(s) == [s[0]] + CollapseBlankLines(s[1..])
  {
  }

  lemma CollapseTake(s: string, n: nat)
    requires BlankLinesAt(s) == Some(n)
    ensures CollapseBlankLines(s) == "\n\n" + CollapseBlankLines(s[n..])
  {
  }

  /** How NEWLINES fares at the start of a whitespace run w followed by a solid text. */
  lemma BlankLinesAtRun(w: string, t: string)
    requires AllSpace(w) && StartsSolid(t)
    ensures BlankLinesAt(w + t) == if NewlineCount(w) >= 3 then Some(AfterLastNewline(w)) else None
  {
    SpaceRunOf(w, t);
    assert (w + t)[..|w|] == w;
  }

  lemma ConcatTail(a: string, b: string)
    requires |a| > 0
    ensures (a + b)[0] == a[0] && (a + b)[1..] == a[1..] + b
  {
  }

  lemma HeadTail(w: string, x: string)
    requires |w| > 0
    ensures [w[0]] + (w[1..] + x) == w + x
  {
    assert [w[0]] + w[1..] == w;
  }

  /** A whitespace run with fewer than three newlines is copied as it is. */
  lemma {:induction false} CopyRun(w: string, t: string)
    requires AllSpace(w) && StartsSolid(t) && NewlineCount(w) < 3
    ensures CollapseBlankLines(w + t) == w + CollapseBlankLines(t)
    decreases |w|
  {
    if |w| > 0 {
      var s := w + t;
      BlankLinesAtRun(w, t);
      CollapseSkip(s);
      ConcatTail(w, t);
      assert AllSpace(w[1..]) && NewlineCount(w[1..]) <= NewlineCount(w);
      CopyRun(w[1..], t);
      HeadTail(w, CollapseBlankLines(t));
    } else {
      assert w + t == t;
    }
  }

  /** A whitespace run with three or more newlines becomes two newlines and the spaces after its last newline. */
  lemma CollapseRun(w: string, t: string)
    requires AllSpace(w) && StartsSolid(t) && NewlineCount(w) >= 3
    ensures CollapseBlankLines(w + t) == "\n\n" + w[AfterLastNewline(w)..] + CollapseBlankLines(t)
  {
    CollapseRunHead(w, t);
    CollapseRunTail(w, t);
  }

  lemma CollapseRunHead(w: string, t: string)
    requires AllSpace(w) && StartsSolid(t) && NewlineCount(w) >= 3
    ensures CollapseBlankLines(w + t) == "\n\n" + CollapseBlankLines(w[AfterLastNewline(w)..] + t)
  {
    var e := AfterLastNewline(w);
    BlankLinesAtRun(w, t);
    CollapseTake(w + t, e);
    DropAppend(w, t, e);
  }

  lemma DropAppend(w: string, t: string, e: nat)
    requires e <= |w|
    ensures (w + t)[e..] == w[e..] + t
  {
  }

  lemma CollapseRunTail(w: string, t: string)
    requires AllSpace(w) && StartsSolid(t)
    ensures CollapseBlankLines(w[AfterLastNewline(w)..] + t) == w[AfterLastNewline(w)..] + CollapseBlankLines(t)
  {
    var v := w[AfterLastNewline(w)..];
    NoNewlineCount(v);
    CopyRun(v, t);
  }

  /** The rewrite of a text in which NEWLINES matches nowhere is the text itself. */
  lemma {:induction false} CalmUnchanged(s: string)
    requires Calm(s)
    ensures CollapseBlankLines(s) == s
    decreases |s|
  {
    if |s| > 0 {
      assert BlankLinesAt(s[0..]).None?;
      assert s[0..] == s;
      forall i | 0 <= i < |s[1..]| ensures BlankLinesAt(s[1..][i..]).None? {
        assert s[1..][i..] == s[i + 1..];
      }
      CalmUnchanged(s[1..]);
    }
  }

  /** A non-space character followed by a calm text is calm. */
  lemma CalmCons(c: char, x: string)
    requires !IsSpace(c) && Calm(x)
    ensures Calm([c] + x)
  {
    var s := [c] + x;
    forall i | 0 <= i < |s| ensures BlankLinesAt(s[i..]).None? {
      if i == 0 {
        assert SpaceRun(s) == 0;
      } else {
        assert s[i..] == x[i - 1..];
      }
    }
  }

  /** A whitespace run with fewer than three newlines in front of a calm text that starts solid is calm. */
  lemma CalmBlock(b: string, x: string)
    requires AllSpace(b) && NewlineCount(b) < 3 && StartsSolid(x) && Calm(x)
    ensures Calm(b + x)
  {
    var s := b + x;
    forall i | 0 <= i < |s| ensures BlankLinesAt(s[i..]).None? {
      if i < |b| {
        CalmBlockRun(b, x, i);
      } else {
        assert s[i..] == x[i - |b|..];
      }
    }
  }

  lemma CalmBlockRun(b: string, x: string, i: nat)
    requires AllSpace(b) && NewlineCount(b) < 3 && StartsSolid(x) && i < |b|
    ensures BlankLinesAt((b + x)[i..]).None?
  {
    var w := b[i..];
    DropAppend(b, x, i);
    assert AllSpace(w);
    NewlineCountSplit(b[..i], w);
    assert b[..i] + w == b;
    BlankLinesAtRun(w, x);
  }

  lemma CollapseStartsSolid(t: string)
    requires StartsSolid(t)
    ensures StartsSolid(CollapseBlankLines(t))
  {
    if |t| > 0 {
      assert SpaceRun(t) == 0;
      assert BlankLinesAt(t).None?;
    }
  }

  /** After the rewrite, NEWLINES matches nowhere: no run of blank lines is left with three newlines. */
  lemma {:induction false} CollapseCalm(s: string)
    ensures Calm(CollapseBlankLines(s))
    decreases |s|
  {
    if |s| > 0 {
      var r := SpaceRun(s);
      if r == 0 {
        assert BlankLinesAt(s).None?;
        CollapseSkip(s);
        CollapseCalm(s[1..]);
        CalmCons(s[0], CollapseBlankLines(s[1..]));
      } else {
        var w, t := s[..r], s[r..];
        assert s == w + t;
        CollapseCalm(t);
        CollapseStartsSolid(t);
        if NewlineCount(w) < 3 {
          CopyRun(w, t);
          CalmBlock(w, CollapseBlankLines(t));
        } else {
          CollapseRun(w, t);
          var b := "\n\n" + w[AfterLastNewline(w)..];
          NoNewlineCount(w[AfterLastNewline(w)..]);
          NewlineCountSplit("\n\n", w[AfterLastNewline(w)..]);
          assert AllSpace(b) by {
            assert IsSpace('\n');
          }
          CalmBlock(b, CollapseBlankLines(t));
        }
      }
    }
  }

  /** Collapsing blank lines twice is collapsing them once. */
  lemma CollapseIdempotent(s: string)
    ensures CollapseBlankLines(CollapseBlankLines(s)) == CollapseBlankLines(s)
  {
    CollapseCalm(s);
    CalmUnchanged(CollapseBlankLines(s));
  }
}
