/**
 * `comment_to_li` and `comments_to_html` of export.py: a comment tree is
 * rendered as nested `<ul>`/`<li>` lists, siblings in ascending id order,
 * a deleted comment (state "D") and everything below it rendered as nothing.
 */
module Render {
  import opened Util
  import opened CommentTree
  import TextTransform

  // ---------------------------------------------------------------------
  // `sorted(comments, key=itemgetter('id'))`
  // ---------------------------------------------------------------------

  predicate SortedById(ts: seq<Thread>)
  {
    forall i, j :: 0 <= i < j < |ts| ==> ts[i].comment.id <= ts[j].comment.id
  }

  /** The threads of ts whose comment has id k, in their order in ts. */
  function WithId(ts: seq<Thread>, k: int): seq<Thread>
  {
    if |ts| == 0 then []
    else WithId(ts[..|ts| - 1], k) + (if ts[|ts| - 1].comment.id == k then [ts[|ts| - 1]] else [])
  }

  /** Threads with the same comments for every id, in the same order among equal ids. */
  ghost predicate SameTies(a: seq<Thread>, b: seq<Thread>)
  {
    forall k :: WithId(a, k) == WithId(b, k)
  }

  /** t placed after every thread of s whose id is not larger than t's. */
  function InsertById(s: seq<Thread>, t: Thread): seq<Thread>
  {
    if |s| == 0 || s[|s| - 1].comment.id <= t.comment.id then s + [t]
    else InsertById(s[..|s| - 1], t) + [s[|s| - 1]]
  }

  /** Python's stable sort of the threads by comment id. */
  function SortById(ts: seq<Thread>): (r: seq<Thread>)
    ensures SortedById(r) && multiset(r) == multiset(ts) && SameTies(r, ts)
  {
    if |ts| == 0 then []
    else
      var p := SortById(ts[..|ts| - 1]);
      var t := ts[|ts| - 1];
      InsertSorted(p, t);
      InsertTies(p, t, ts);
      assert ts == ts[..|ts| - 1] + [t];
      InsertById(p, t)
  }

  lemma {:induction false} InsertSorted(s: seq<Thread>, t: Thread)
    requires SortedById(s)
    ensures SortedById(InsertById(s, t)) && multiset(InsertById(s, t)) == multiset(s) + multiset{t}
    ensures forall u :: u in InsertById(s, t) ==> u == t || u in s
    ensures |InsertById(s, t)| == |s| + 1
    decreases |s|
  {
    InsertCounts(s, t);
    if |s| > 0 && s[|s| - 1].comment.id > t.comment.id {
      var p, x := s[..|s| - 1], s[|s| - 1];
      InsertSorted(p, t);
      InsertBelowLast(s, t);
      SortedSnoc(InsertById(p, t), x);
    }
  }

  /** Inserting adds t and nothing else. */
  lemma {:induction false} InsertCounts(s: seq<Thread>, t: Thread)
    ensures multiset(InsertById(s, t)) == multiset(s) + multiset{t}
    ensures forall u :: u in InsertById(s, t) ==> u == t || u in s
    ensures |InsertById(s, t)| == |s| + 1
    decreases |s|
  {
    if |s| > 0 && s[|s| - 1].comment.id > t.comment.id {
      var p, x := s[..|s| - 1], s[|s| - 1];
      assert s == p + [x];
      InsertCounts(p, t);
    }
  }

  /** When t goes before the last thread x of a sorted s, everything inserted before x has an id not above x's. */
  lemma InsertBelowLast(s: seq<Thread>, t: Thread)
    requires SortedById(s) && |s| > 0 && s[|s| - 1].comment.id > t.comment.id
    ensures var x := s[|s| - 1];
            forall u :: u in InsertById(s[..|s| - 1], t) ==> u.comment.id <= x.comment.id
  {
    var p, x := s[..|s| - 1], s[|s| - 1];
    InsertCounts(p, t);
    forall u | u in InsertById(p, t) ensures u.comment.id <= x.comment.id {
      if u != t {
        var i :| 0 <= i < |p| && p[i] == u;
        assert s[i] == u;
      }
    }
  }

  lemma SortedSnoc(q: seq<Thread>, x: Thread)
    requires SortedById(q) && forall u :: u in q ==> u.comment.id <= x.comment.id
    ensures SortedById(q + [x])
  {
    var r := q + [x];
    forall i, j | 0 <= i < j < |r| ensures r[i].comment.id <= r[j].comment.id {
      if j == |r| - 1 {
        assert r[i] in q;
      } else {
        assert r[i] == q[i] && r[j] == q[j];
      }
    }
  }

  /** A thread t inserted into p after whose threads it came: ties keep their order. */
  lemma InsertTies(p: seq<Thread>, t: Thread, ts: seq<Thread>)
    requires |ts| > 0 && t == ts[|ts| - 1] && SameTies(p, ts[..|ts| - 1])
    ensures SameTies(InsertById(p, t), ts)
  {
    forall k ensures WithId(InsertById(p, t), k) == WithId(ts, k) {
      InsertKeepsTies(p, t, k);
    }
  }

  lemma {:induction false} InsertKeepsTies(s: seq<Thread>, t: Thread, k: int)
    ensures WithId(InsertById(s, t), k) == WithId(s, k) + (if t.comment.id == k then [t] else [])
    decreases |s|
  {
    if |s| == 0 || s[|s| - 1].comment.id <= t.comment.id {
      assert (s + [t])[..|s|] == s;
    } else {
      var p, x := s[..|s| - 1], s[|s| - 1];
      InsertKeepsTies(p, t, k);
      var q := InsertById(p, t);
      assert (q + [x])[..|q + [x]| - 1] == q;
    }
  }

  /** The threads of s with id k are exactly the members of s with that id. */
  lemma {:induction false} WithIdMembers(s: seq<Thread>, k: int, u: Thread)
    ensures u in WithId(s, k) <==> u in s && u.comment.id == k
    decreases |s|
  {
    if |s| > 0 {
      var p := s[..|s| - 1];
      WithIdMembers(p, k, u);
      assert s == p + [s[|s| - 1]];
    }
  }

  lemma TiesOfSnoc(s: seq<Thread>, x: Thread, k: int)
    ensures WithId(s + [x], k) == WithId(s, k) + (if x.comment.id == k then [x] else [])
  {
    assert (s + [x])[..|s|] == s;
  }

  /** Arrangements with the same ties are empty together. */
  lemma TiesEmpty(a: seq<Thread>, b: seq<Thread>)
    requires SameTies(a, b) && |a| == 0
    ensures |b| == 0
  {
    if |b| > 0 {
      var y := b[|b| - 1];
      assert b == b[..|b| - 1] + [y];
      TiesOfSnoc(b[..|b| - 1], y, y.comment.id);
      assert false;
    }
  }

  /** No member of a sorted arrangement has a larger id than its last thread. */
  lemma SortedLast(a: seq<Thread>, u: Thread)
    requires SortedById(a) && u in a
    ensures u.comment.id <= a[|a| - 1].comment.id
  {
    var i :| 0 <= i < |a| && a[i] == u;
  }

  /** Sorted arrangements with the same ties end with the same thread, and agree on the ties before it. */
  lemma LastTie(a: seq<Thread>, b: seq<Thread>)
    requires SortedById(a) && SortedById(b) && SameTies(a, b) && |a| > 0 && |b| > 0
    ensures a[|a| - 1] == b[|b| - 1] && SameTies(a[..|a| - 1], b[..|b| - 1])
  {
    var a', x := a[..|a| - 1], a[|a| - 1];
    var b', y := b[..|b| - 1], b[|b| - 1];
    assert a == a' + [x] && b == b' + [y];
    var m := x.comment.id;
    TiesOfSnoc(a', x, y.comment.id);
    TiesOfSnoc(b', y, m);
    WithIdMembers(a, y.comment.id, y);
    WithIdMembers(b, m, x);
    SortedLast(a, y);
    SortedLast(b, x);
    TiesOfSnoc(a', x, m);
    TiesOfSnoc(b', y, m);
    var fa, fb := WithId(a', m), WithId(b', m);
    assert fa + [x] == fb + [y];
    assert x == (fa + [x])[|fa|] == (fb + [y])[|fb|] == y;
    forall k ensures WithId(a', k) == WithId(b', k) {
      DropTie(a', b', x, k);
    }
  }

  /** Removing the same last thread from arrangements with equal ties at k keeps them equal at k. */
  lemma DropTie(a: seq<Thread>, b: seq<Thread>, x: Thread, k: int)
    requires WithId(a + [x], k) == WithId(b + [x], k)
    ensures WithId(a, k) == WithId(b, k)
  {
    var fa, fb := WithId(a, k), WithId(b, k);
    TiesOfSnoc(a, x, k);
    TiesOfSnoc(b, x, k);
    var tail := if x.comment.id == k then [x] else [];
    assert fa + tail == fb + tail;
    PrefixOfSum(fa, fb, tail);
  }

  lemma PrefixOfSum(a: seq<Thread>, b: seq<Thread>, c: seq<Thread>)
    requires a + c == b + c
    ensures a == b
  {
    assert |a| == |b|;
    assert forall i :: 0 <= i < |a| ==> a[i] == (a + c)[i];
    assert forall i :: 0 <= i < |b| ==> b[i] == (b + c)[i];
  }

  /** Sorting by id is determined by the ties: two sorted arrangements with the same ties are equal. */
  lemma {:induction false} SortedUnique(a: seq<Thread>, b: seq<Thread>)
    requires SortedById(a) && SortedById(b) && SameTies(a, b)
    ensures a == b
    decreases |a|
  {
    if |a| == 0 {
      TiesEmpty(a, b);
    } else {
      if |b| == 0 {
        TiesEmpty(b, a);
      }
      LastTie(a, b);
      var a', b' := a[..|a| - 1], b[..|b| - 1];
      SortedUnique(a', b');
      assert a == a' + [a[|a| - 1]] && b == b' + [b[|b| - 1]];
    }
  }

  // ---------------------------------------------------------------------
  // The renderers
  // ---------------------------------------------------------------------

  /** `comment.get('author', 'anonym')`. */
  function AuthorName(c: Comment): string
  {
    if c.author.Some? then c.author.value else "anonym"
  }

  /** The heading line of a comment. */
  function Heading(c: Comment): string
  {
    "<h3>" + AuthorName(c) + ": " + (if c.subject.Some? then c.subject.value else "") + "</h3>"
  }

  /** The anchor a comment's id is linked by. */
  function Anchor(id: int): string
  {
    "\n<a id=\"comment-" + IntToString(id) + "\"></a>"
  }

  /** The opening tag, classed when the comment has a subject. */
  function LiOpen(c: Comment): string
  {
    "<li" + (if c.subject.Some? then " class=subject" else "") + ">"
  }

  /** A deleted comment, by its `state`. */
  predicate Deleted(c: Comment)
  {
    c.state == Some("D")
  }

  /** `comment_to_li(comment)`. */
  function CommentToLi(t: Thread, ext: Foreign): (r: string)
    ensures r == "" <==> Deleted(t.comment)
    decreases t, 2
  {
    var c := t.comment;
    if Deleted(c) then ""
    else
      var body := if c.body.Some? then "\n" + ext.markdown(TextTransform.SubTagless(c.body.value, "<br>\n")) else "";
      var replies := if |t.replies| > 0 then "\n" + CommentsToHtml(t.replies, ext) else "";
      LiOpen(c) + Heading(c) + Anchor(c.id) + body + replies + "\n</li>"
  }

  /** `comments_to_html(comments)`. */
  function CommentsToHtml(ts: seq<Thread>, ext: Foreign): string
    decreases ts, 1
  {
    var sorted := SortById(ts);
    assert forall i :: 0 <= i < |sorted| ==> sorted[i] in ts by {
      forall i | 0 <= i < |sorted| ensures sorted[i] in ts {
        assert sorted[i] in multiset(sorted);
      }
    }
    "<ul>\n" + Join("\n", Items(sorted, ts, ext)) + "\n</ul>"
  }

  /** `map(comment_to_li, us)`, where us are threads of ts. */
  function Items(us: seq<Thread>, ghost ts: seq<Thread>, ext: Foreign): (r: seq<string>)
    requires forall i :: 0 <= i < |us| ==> us[i] in ts
    ensures |r| == |us|
    decreases ts, 0, |us|
  {
    if |us| == 0 then []
    else
      assert us[0] in ts;
      [CommentToLi(us[0], ext)] + Items(us[1..], ts, ext)
  }

  /** The i-th item is the rendering of the i-th thread. */
  lemma {:induction false} ItemsAt(us: seq<Thread>, ts: seq<Thread>, ext: Foreign, i: nat)
    requires (forall j :: 0 <= j < |us| ==> us[j] in ts) && i < |us|
    ensures Items(us, ts, ext)[i] == CommentToLi(us[i], ext)
    decreases i
  {
    if i > 0 {
      assert us[1..][i - 1] == us[i];
      ItemsAt(us[1..], ts, ext, i - 1);
    }
  }

  /** The items do not depend on the siblings the threads are drawn from. */
  lemma {:induction false} ItemsAnyOwner(us: seq<Thread>, ts: seq<Thread>, ts': seq<Thread>, ext: Foreign)
    requires forall j :: 0 <= j < |us| ==> us[j] in ts && us[j] in ts'
    ensures Items(us, ts, ext) == Items(us, ts', ext)
    decreases |us|
  {
    if |us| > 0 {
      ItemsAnyOwner(us[1..], ts, ts', ext);
    }
  }

  // ---------------------------------------------------------------------
  // What the rendering shows
  // ---------------------------------------------------------------------

  /** part appears in whole at position i. */
  predicate OccursAt(part: string, whole: string, i: int)
  {
    0 <= i <= |whole| - |part| && whole[i..i + |part|] == part
  }

  /** part appears somewhere in whole. */
  ghost predicate Occurs(part: string, whole: string)
  {
    exists i :: OccursAt(part, whole, i)
  }

  lemma OccursMiddle(a: string, b: string, c: string)
    ensures Occurs(b, a + b + c)
  {
    assert OccursAt(b, a + b + c, |a|) by {
      assert (a + b + c)[|a|..|a| + |b|] == b;
    }
  }

  lemma OccursTrans(x: string, y: string, z: string)
    requires Occurs(x, y) && Occurs(y, z)
    ensures Occurs(x, z)
  {
    var i :| OccursAt(x, y, i);
    var j :| OccursAt(y, z, j);
    assert OccursAt(x, z, j + i) by {
      forall k | 0 <= k < |x| ensures z[j + i + k] == x[k] {
        assert z[j..j + |y|][i + k] == y[i + k];
        assert y[i..i + |x|][k] == x[k];
      }
    }
  }

  /** Each item of a join appears in it. */
  lemma {:induction false} JoinShows(sep: string, xs: seq<string>, k: nat)
    requires k < |xs|
    ensures Occurs(xs[k], Join(sep, xs))
    decreases |xs|
  {
    if |xs| == 1 {
      assert OccursAt(xs[0], Join(sep, xs), 0);
    } else if k == 0 {
      assert OccursAt(xs[0], Join(sep, xs), 0) by {
        assert Join(sep, xs) == xs[0] + (sep + Join(sep, xs[1..]));
      }
    } else {
      JoinShows(sep, xs[1..], k - 1);
      OccursMiddle(xs[0] + sep, Join(sep, xs[1..]), "");
      assert xs[0] + sep + Join(sep, xs[1..]) + "" == Join(sep, xs);
      OccursTrans(xs[k], Join(sep, xs[1..]), Join(sep, xs));
    }
  }

  /** The sorted siblings are the siblings. */
  lemma SortedMembers(ts: seq<Thread>)
    ensures forall i :: 0 <= i < |SortById(ts)| ==> SortById(ts)[i] in ts
  {
    var sorted := SortById(ts);
    forall i | 0 <= i < |sorted| ensures sorted[i] in ts {
      assert sorted[i] in multiset(sorted);
    }
  }

  /** The rendering of each of the threads ts appears in theirs. */
  lemma ItemShown(ts: seq<Thread>, u: Thread, ext: Foreign)
    requires u in ts
    ensures Occurs(CommentToLi(u, ext), CommentsToHtml(ts, ext))
  {
    var sorted := SortById(ts);
    assert u in multiset(sorted);
    var j :| 0 <= j < |sorted| && sorted[j] == u;
    SortedMembers(ts);
    var items := Items(sorted, ts, ext);
    ItemsAt(sorted, ts, ext, j);
    assert CommentsToHtml(ts, ext) == "<ul>\n" + Join("\n", items) + "\n</ul>";
    JoinShows("\n", items, j);
    OccursMiddle("<ul>\n", Join("\n", items), "\n</ul>");
    OccursTrans(items[j], Join("\n", items), CommentsToHtml(ts, ext));
  }

  /** The body part of a comment's rendering. */
  function BodyPart(c: Comment, ext: Foreign): string
  {
    if c.body.Some? then "\n" + ext.markdown(TextTransform.SubTagless(c.body.value, "<br>\n")) else ""
  }

  /**
   * A step for LiShows and ReplyShown, not a property of its own: the
   * rendering of a comment that is not deleted, unfolded into its parts.
   */
  lemma LiParts(t: Thread, ext: Foreign)
    requires !Deleted(t.comment)
    ensures CommentToLi(t, ext) ==
      LiOpen(t.comment) + Heading(t.comment) + Anchor(t.comment.id) + BodyPart(t.comment, ext)
      + (if |t.replies| > 0 then "\n" + CommentsToHtml(t.replies, ext) else "") + "\n</li>"
  {
  }

  lemma OccursAfterNewline(p: string, inner: string, q: string)
    ensures Occurs(inner, p + ("\n" + inner) + q)
  {
    assert OccursAt(inner, p + ("\n" + inner) + q, |p| + 1) by {
      var w := p + ("\n" + inner) + q;
      forall k | 0 <= k < |inner| ensures w[|p| + 1 + k] == inner[k] {
      }
    }
  }

  /** A reply of a comment that is not deleted is rendered inside the comment's rendering. */
  lemma ReplyShown(t: Thread, i: nat, ext: Foreign)
    requires !Deleted(t.comment) && i < |t.replies|
    ensures Occurs(CommentToLi(t.replies[i], ext), CommentToLi(t, ext))
  {
    var c := t.comment;
    var p := LiOpen(c) + Heading(c) + Anchor(c.id) + BodyPart(c, ext);
    var inner := CommentsToHtml(t.replies, ext);
    LiParts(t, ext);
    assert CommentToLi(t, ext) == p + ("\n" + inner) + "\n</li>";
    ItemShown(t.replies, t.replies[i], ext);
    OccursAfterNewline(p, inner, "\n</li>");
    OccursTrans(CommentToLi(t.replies[i], ext), inner, CommentToLi(t, ext));
  }

  lemma Leading(a: string, b: string, c: string, d: string, e: string, f: string)
    ensures forall k :: 0 <= k < |a| ==> (a + b + c + d + e + f)[k] == a[k]
    ensures OccursAt(b, a + b + c + d + e + f, |a|) && OccursAt(c, a + b + c + d + e + f, |a| + |b|)
  {
    var w := a + b + c + d + e + f;
    assert w == a + b + c + (d + e + f);
    assert w[|a|..|a| + |b|] == b;
    assert w[|a| + |b|..|a| + |b| + |c|] == c;
  }

  /** The rendering of a comment that is not deleted opens with its heading and its anchor, classed exactly when it has a subject. */
  lemma LiShows(t: Thread, ext: Foreign)
    requires !Deleted(t.comment)
    ensures var r := CommentToLi(t, ext);
            |r| >= 4 && r[..3] == "<li" && (r[3] == ' ' <==> t.comment.subject.Some?)
    ensures var r := CommentToLi(t, ext);
            (t.comment.subject.Some? ==> |r| >= 18 && r[..18] == "<li class=subject>") &&
            (t.comment.subject.None? ==> |r| >= 4 && r[..4] == "<li>")
    ensures Occurs(Heading(t.comment), CommentToLi(t, ext)) && Occurs(Anchor(t.comment.id), CommentToLi(t, ext))
  {
    OpenPrefix(t, ext);
    OpenTag(CommentToLi(t, ext), t.comment);
    HeadingShown(t, ext);
  }

  /** A text that starts with the opening tag of c: `<li class=subject>` exactly when c has a subject, `<li>` otherwise. */
  lemma OpenTag(r: string, c: Comment)
    requires |LiOpen(c)| <= |r| && r[..|LiOpen(c)|] == LiOpen(c)
    ensures |r| >= 4 && r[..3] == "<li" && (r[3] == ' ' <==> c.subject.Some?)
    ensures (c.subject.Some? ==> |r| >= 18 && r[..18] == "<li class=subject>") &&
            (c.subject.None? ==> |r| >= 4 && r[..4] == "<li>")
  {
    var open := LiOpen(c);
    if c.subject.Some? {
      assert open == "<li class=subject>";
    } else {
      assert open == "<li>";
    }
    assert r[..3] == open[..3] && r[3] == open[3];
  }

  /** The heading and the anchor of a comment that is not deleted occur in its rendering. */
  lemma HeadingShown(t: Thread, ext: Foreign)
    requires !Deleted(t.comment)
    ensures Occurs(Heading(t.comment), CommentToLi(t, ext)) && Occurs(Anchor(t.comment.id), CommentToLi(t, ext))
  {
    var c := t.comment;
    var replies := if |t.replies| > 0 then "\n" + CommentsToHtml(t.replies, ext) else "";
    LiParts(t, ext);
    Leading(LiOpen(c), Heading(c), Anchor(c.id), BodyPart(c, ext), replies, "\n</li>");
  }

  /** The rendering of a comment that is not deleted starts with its opening tag. */
  lemma OpenPrefix(t: Thread, ext: Foreign)
    requires !Deleted(t.comment)
    ensures var r := CommentToLi(t, ext); var open := LiOpen(t.comment); |open| <= |r| && r[..|open|] == open
  {
    LiParts(t, ext);
    FirstOfSix(LiOpen(t.comment), Heading(t.comment), Anchor(t.comment.id), BodyPart(t.comment, ext),
               if |t.replies| > 0 then "\n" + CommentsToHtml(t.replies, ext) else "", "\n</li>");
  }

  lemma FirstOfSix(a: string, b: string, c: string, d: string, e: string, f: string)
    ensures |a| <= |a + b + c + d + e + f| && (a + b + c + d + e + f)[..|a|] == a
  {
    assert a + b + c + d + e + f == a + (b + c + d + e + f);
  }

  /** The ids of the comments a thread renders: those reached without passing a deleted comment. */
  ghost function Shown(t: Thread): set<int>
    decreases t, 1
  {
    if Deleted(t.comment) then {} else {t.comment.id} + ShownAll(t.replies)
  }

  ghost function ShownAll(ts: seq<Thread>): set<int>
    decreases ts, 0
  {
    if |ts| == 0 then {} else Shown(ts[0]) + ShownAll(ts[1..])
  }

  lemma {:induction false} ShownAllFrom(ts: seq<Thread>, k: int) returns (i: nat)
    requires k in ShownAll(ts)
    ensures i < |ts| && k in Shown(ts[i])
    decreases |ts|
  {
    if k in Shown(ts[0]) {
      i := 0;
    } else {
      var j := ShownAllFrom(ts[1..], k);
      i := j + 1;
    }
  }

  /** Every comment reached without passing a deleted one has its anchor in the rendering. */
  lemma {:induction false} AnchorShown(t: Thread, k: int, ext: Foreign)
    requires k in Shown(t)
    ensures Occurs(Anchor(k), CommentToLi(t, ext))
    decreases t
  {
    LiShows(t, ext);
    if k != t.comment.id {
      var i := ShownAllFrom(t.replies, k);
      AnchorShown(t.replies[i], k, ext);
      ReplyShown(t, i, ext);
      OccursTrans(Anchor(k), CommentToLi(t.replies[i], ext), CommentToLi(t, ext));
    }
  }

  /** The same for a list of threads rendered as one `<ul>`. */
  lemma AnchorsShown(ts: seq<Thread>, k: int, ext: Foreign)
    requires k in ShownAll(ts)
    ensures Occurs(Anchor(k), CommentsToHtml(ts, ext))
  {
    var i := ShownAllFrom(ts, k);
    AnchorShown(ts[i], k, ext);
    ItemShown(ts, ts[i], ext);
    OccursTrans(Anchor(k), CommentToLi(ts[i], ext), CommentsToHtml(ts, ext));
  }

  /** Sibling order in the input does not matter beyond the order among equal ids. */
  lemma HtmlTiesOnly(ts: seq<Thread>, us: seq<Thread>, ext: Foreign)
    requires SameTies(ts, us)
    ensures CommentsToHtml(ts, ext) == CommentsToHtml(us, ext)
  {
    var a, b := SortById(ts), SortById(us);
    assert SameTies(a, b);
    SortedUnique(a, b);
    forall i | 0 <= i < |a| ensures a[i] in ts && a[i] in us {
      assert a[i] in multiset(a);
    }
    ItemsAnyOwner(a, ts, us, ext);
  }
}
