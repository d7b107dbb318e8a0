/**
 * `group_comments_by_post` and `nest_comments` of export.py, and the
 * comment trees that the nested records describe.
 *
 * A comment record is a Python dict; the `children` list of a record holds
 * references to other records of the same group. Here a group maps comment
 * ids to records and `children` holds ids, so the record a child id refers to
 * is always the group's current record for that id, as in the program.
 */
module CommentTree {
  import opened Util
  import TextTransform

  // ---------------------------------------------------------------------
  // Python dicts, which keep their keys in insertion order
  // ---------------------------------------------------------------------

  /** A dict keyed by integers: its keys in insertion order and the value stored under each. */
  datatype Dict<V> = Dict(keys: seq<int>, vals: map<int, V>)

  function EmptyDict<V>(): Dict<V>
  {
    Dict([], map[])
  }

  predicate Distinct(xs: seq<int>)
  {
    forall i, j :: 0 <= i < j < |xs| ==> xs[i] != xs[j]
  }

  predicate WellFormed<V>(d: Dict<V>)
  {
    Distinct(d.keys) && (forall k :: k in d.vals ==> k in d.keys) && (forall k :: k in d.keys ==> k in d.vals)
  }

  /** `d[k] = v`: an existing key keeps its place, a new one goes last. */
  function Put<V>(d: Dict<V>, k: int, v: V): (r: Dict<V>)
    requires WellFormed(d)
    ensures WellFormed(r) && r.vals == d.vals[k := v]
    ensures r.keys == if k in d.vals then d.keys else d.keys + [k]
  {
    if k in d.vals then Dict(d.keys, d.vals[k := v]) else Dict(d.keys + [k], d.vals[k := v])
  }

  /** Storing twice under a new key is storing the second value. */
  lemma PutTwice<V>(d: Dict<V>, k: int, u: V, v: V)
    requires WellFormed(d) && k !in d.vals
    ensures Put(Put(d, k, u), k, v) == Put(d, k, v)
  {
    assert d.vals[k := u][k := v] == d.vals[k := v];
  }

  // ---------------------------------------------------------------------
  // Comment records
  // ---------------------------------------------------------------------

  /**
   * A comment record as the downloader builds it: `parentid`, `author`,
   * `subject`, `body` and `state` are keys that may be absent.
   */
  datatype Comment = Comment(
    id: int,
    jitemid: int,
    parentid: Option<int>,
    author: Option<string>,
    subject: Option<string>,
    body: Option<string>,
    state: Option<string>,
    children: seq<int>)

  /** `fix_user_links(comment)`: the user mentions of the subject, and of a non-empty body, rewritten. */
  function FixCommentLinks(c: Comment): (r: Comment)
    ensures r.(subject := c.subject, body := c.body) == c
    ensures c.subject.None? <==> r.subject.None?
    ensures c.body.None? <==> r.body.None?
    ensures c.body == Some("") ==> r.body == c.body
  {
    c.(subject := if c.subject.Some? then Some(TextTransform.FixUserLinks(c.subject.value)) else None,
       body := if c.body.Some? && c.body.value != "" then Some(TextTransform.FixUserLinks(c.body.value)) else c.body)
  }

  // ---------------------------------------------------------------------
  // group_comments_by_post
  // ---------------------------------------------------------------------

  type Group = Dict<Comment>
  type Groups = Dict<Group>

  /** One turn of the grouping loop: the comment stored under its post and its own id. */
  function AddComment(posts: Groups, c: Comment): (r: Groups)
    requires WellFormed(posts) && forall k :: k in posts.vals ==> WellFormed(posts.vals[k])
    ensures WellFormed(r) && forall k :: k in r.vals ==> WellFormed(r.vals[k])
  {
    var post := if c.jitemid in posts.vals then posts.vals[c.jitemid] else EmptyDict();
    Put(posts, c.jitemid, Put(post, c.id, c))
  }

  /** The grouping of the comments, one after the other. */
  function Grouped(cs: seq<Comment>): (r: Groups)
    ensures WellFormed(r) && forall k :: k in r.vals ==> WellFormed(r.vals[k])
  {
    if |cs| == 0 then EmptyDict()
    else
      var p := Grouped(cs[..|cs| - 1]);
      AddComment(p, cs[|cs| - 1])
  }

  /** `group_comments_by_post(comments)`. */
  method GroupCommentsByPost(comments: seq<Comment>) returns (posts: Groups)
    ensures posts == Grouped(comments)
  {
    posts := EmptyDict();
    var i := 0;
    while i < |comments|
      invariant i <= |comments| && posts == Grouped(comments[..i])
    {
      var comment := comments[i];
      var postId := comment.jitemid;
      ghost var before := posts;
      if postId !in posts.vals {
        posts := Put(posts, postId, EmptyDict());
      }
      var post := posts.vals[postId];
      post := Put(post, comment.id, comment);
      posts := Put(posts, postId, post);
      AddCommentSteps(before, comment);
      GroupedSnoc(comments, i);
      i := i + 1;
    }
    assert comments[..i] == comments;
  }

  /** The steps of one turn of the grouping loop make up AddComment. */
  lemma AddCommentSteps(before: Groups, c: Comment)
    requires WellFormed(before) && forall k :: k in before.vals ==> WellFormed(before.vals[k])
    ensures var mid := if c.jitemid in before.vals then before else Put(before, c.jitemid, EmptyDict());
            Put(mid, c.jitemid, Put(mid.vals[c.jitemid], c.id, c)) == AddComment(before, c)
  {
    if c.jitemid !in before.vals {
      PutTwice(before, c.jitemid, EmptyDict(), Put(EmptyDict(), c.id, c));
    }
  }

  lemma GroupedSnoc(cs: seq<Comment>, i: nat)
    requires i < |cs|
    ensures Grouped(cs[..i + 1]) == AddComment(Grouped(cs[..i]), cs[i])
  {
    assert cs[..i + 1][..i] == cs[..i];
  }

  /** The post ids of the comments, in input order. */
  function PostIds(cs: seq<Comment>): (r: seq<int>)
    ensures |r| == |cs| && forall i :: 0 <= i < |cs| ==> r[i] == cs[i].jitemid
  {
    if |cs| == 0 then [] else PostIds(cs[..|cs| - 1]) + [cs[|cs| - 1].jitemid]
  }

  /** The record found at `posts[k][id]`, if there is one. */
  function Lookup(posts: Groups, k: int, id: int): Option<Comment>
  {
    if k in posts.vals && id in posts.vals[k].vals then Some(posts.vals[k].vals[id]) else None
  }

  /** The last of the comments for post k with the given id. */
  function LastWith(cs: seq<Comment>, k: int, id: int): (r: Option<Comment>)
    ensures r.Some? ==> r.value in cs && r.value.jitemid == k && r.value.id == id
    ensures r.None? ==> forall i :: 0 <= i < |cs| ==> cs[i].jitemid != k || cs[i].id != id
  {
    if |cs| == 0 then None
    else if cs[|cs| - 1].jitemid == k && cs[|cs| - 1].id == id then Some(cs[|cs| - 1])
    else LastWith(cs[..|cs| - 1], k, id)
  }

  /** Under every post and id the grouping holds the last comment with that post and id, and nothing else. */
  lemma {:induction false} GroupedLastWins(cs: seq<Comment>, k: int, id: int)
    ensures Lookup(Grouped(cs), k, id) == LastWith(cs, k, id)
  {
    if |cs| > 0 {
      GroupedLastWins(cs[..|cs| - 1], k, id);
    }
  }

  /** Every comment can be found under its post and its id. */
  lemma GroupedComplete(cs: seq<Comment>, i: nat)
    requires i < |cs|
    ensures var posts := Grouped(cs);
            cs[i].jitemid in posts.vals && cs[i].id in posts.vals[cs[i].jitemid].vals
  {
    GroupedLastWins(cs, cs[i].jitemid, cs[i].id);
  }

  /** Every record under post k belongs to post k, is filed under its own id, and is one of the input comments. */
  lemma GroupedEntries(cs: seq<Comment>, k: int, id: int)
    requires k in Grouped(cs).vals && id in Grouped(cs).vals[k].vals
    ensures var c := Grouped(cs).vals[k].vals[id]; c.jitemid == k && c.id == id && c in cs
  {
    GroupedLastWins(cs, k, id);
  }

  /** The posts of the grouping are exactly the posts the comments belong to. */
  lemma {:induction false} GroupedPosts(cs: seq<Comment>)
    ensures forall k :: k in Grouped(cs).vals <==> k in PostIds(cs)
  {
    if |cs| > 0 {
      var p := cs[..|cs| - 1];
      GroupedPosts(p);
      assert PostIds(cs) == PostIds(p) + [cs[|cs| - 1].jitemid];
    }
  }

  /** The values in first-occurrence order, each once. */
  function Dedup(xs: seq<int>): (r: seq<int>)
    ensures Distinct(r) && forall x :: x in r <==> x in xs
  {
    if |xs| == 0 then []
    else
      var p := Dedup(xs[..|xs| - 1]);
      assert forall x :: x in xs <==> x in xs[..|xs| - 1] || x == xs[|xs| - 1] by {
        assert xs == xs[..|xs| - 1] + [xs[|xs| - 1]];
      }
      if xs[|xs| - 1] in p then p else p + [xs[|xs| - 1]]
  }

  /** The ids of the comments for post k, in input order. */
  function IdsFor(cs: seq<Comment>, k: int): seq<int>
  {
    if |cs| == 0 then []
    else IdsFor(cs[..|cs| - 1], k) + (if cs[|cs| - 1].jitemid == k then [cs[|cs| - 1].id] else [])
  }

  /** The ids filed under post k are exactly the ids of its comments; a post without comments has none. */
  lemma {:induction false} GroupedIds(cs: seq<Comment>, k: int)
    ensures k in Grouped(cs).vals ==> forall id :: id in Grouped(cs).vals[k].vals <==> id in IdsFor(cs, k)
    ensures k !in Grouped(cs).vals ==> IdsFor(cs, k) == []
  {
    if |cs| > 0 {
      GroupedIds(cs[..|cs| - 1], k);
    }
  }

  /** The posts come in the order of their first comment; a later comment does not move its post. */
  lemma {:induction false} GroupedPostOrder(cs: seq<Comment>)
    ensures Grouped(cs).keys == Dedup(PostIds(cs))
  {
    if |cs| > 0 {
      var p := cs[..|cs| - 1];
      GroupedPostOrder(p);
      GroupedPosts(p);
      assert PostIds(cs)[..|cs| - 1] == PostIds(p);
    }
  }

  /** Within a post the ids come in the order of their first comment: a later duplicate replaces the record but keeps its place. */
  lemma {:induction false} GroupedIdOrder(cs: seq<Comment>, k: int)
    requires k in Grouped(cs).vals
    ensures Grouped(cs).vals[k].keys == Dedup(IdsFor(cs, k))
  {
    assert |cs| > 0;
    var p := cs[..|cs| - 1];
    var c := cs[|cs| - 1];
    var g := Grouped(p);
    if c.jitemid == k {
      var post := if k in g.vals then g.vals[k] else EmptyDict();
      assert Grouped(cs).vals[k] == Put(post, c.id, c);
      assert IdsFor(cs, k) == IdsFor(p, k) + [c.id];
      GroupedIds(p, k);
      if k in g.vals {
        GroupedIdOrder(p, k);
      }
      assert IdsFor(cs, k)[..|IdsFor(cs, k)| - 1] == IdsFor(p, k);
    } else {
      assert Grouped(cs).vals[k] == g.vals[k];
      assert IdsFor(cs, k) == IdsFor(p, k);
      GroupedIdOrder(p, k);
    }
  }

  // ---------------------------------------------------------------------
  // nest_comments
  // ---------------------------------------------------------------------

  /** Every `parentid` names a comment of the group: the lookup at line 126 cannot fail. */
  predicate ParentsPresent(g: Group)
  {
    forall k :: k in g.vals && g.vals[k].parentid.Some? ==> g.vals[k].parentid.value in g.vals
  }

  /** The ids among ks whose record has no `parentid`, in order. */
  function TopLevel(ks: seq<int>, g: Group): (r: seq<int>)
    requires forall k :: k in ks ==> k in g.vals
    ensures forall k :: k in r <==> k in ks && g.vals[k].parentid.None?
  {
    if |ks| == 0 then []
    else
      var k := ks[|ks| - 1];
      assert ks == ks[..|ks| - 1] + [k];
      TopLevel(ks[..|ks| - 1], g) + (if g.vals[k].parentid.None? then [k] else [])
  }

  /** The ids among ks whose record names p as its parent, in order. */
  function RepliesTo(ks: seq<int>, g: Group, p: int): (r: seq<int>)
    requires forall k :: k in ks ==> k in g.vals
    ensures forall k :: k in r <==> k in ks && g.vals[k].parentid == Some(p)
  {
    if |ks| == 0 then []
    else
      var k := ks[|ks| - 1];
      assert ks == ks[..|ks| - 1] + [k];
      RepliesTo(ks[..|ks| - 1], g, p) + (if g.vals[k].parentid == Some(p) then [k] else [])
  }

  /**
   * The record under k once the ids ks have been visited: its links fixed if
   * k is among them, and the visited replies to k appended to its children.
   */
  function NestedRecord(g: Group, ks: seq<int>, k: int): (r: Comment)
    requires k in g.vals && forall j :: j in ks ==> j in g.vals
    ensures r.id == g.vals[k].id && r.parentid == g.vals[k].parentid
  {
    var c := g.vals[k];
    (if k in ks then FixCommentLinks(c) else c).(children := c.children + RepliesTo(ks, g, k))
  }

  /** The group after `nest_comments`: every record fixed and given its replies, in group order. */
  function NestedGroup(g: Group): (r: Group)
    requires WellFormed(g)
    ensures r.keys == g.keys && r.vals.Keys == g.vals.Keys
  {
    Dict(g.keys, map k | k in g.vals :: NestedRecord(g, g.keys, k))
  }

  /** Fixing the links of a record does not touch its children. */
  lemma FixKeepsChildren(c: Comment, ch: seq<int>)
    ensures FixCommentLinks(c.(children := ch)) == FixCommentLinks(c).(children := ch)
  {
  }

  /** The record under p once k's reply has been appended to p's children, when k names p as its parent. */
  function WithReply(m: map<int, Comment>, p: Option<int>, k: int): map<int, Comment>
  {
    if p.Some? && p.value in m then m[p.value := m[p.value].(children := m[p.value].children + [k])] else m
  }

  lemma PrefixSnoc(s: seq<int>, i: nat)
    requires i < |s| && Distinct(s)
    ensures s[..i + 1] == s[..i] + [s[i]] && s[i] !in s[..i]
  {
  }

  /** One turn of the nesting loop, for the record under j. */
  lemma NestStepAt(g: Group, ks: seq<int>, k: int, cur: map<int, Comment>, j: int)
    requires k in g.vals && k !in ks && forall i :: i in ks ==> i in g.vals
    requires cur.Keys == g.vals.Keys && forall i :: i in g.vals ==> cur[i] == NestedRecord(g, ks, i)
    requires j in g.vals
    ensures var c := FixCommentLinks(cur[k]);
            WithReply(cur[k := c], c.parentid, k)[j] == NestedRecord(g, ks + [k], j)
  {
    var ks' := ks + [k];
    assert ks'[..|ks|] == ks;
    var c := FixCommentLinks(cur[k]);
    var m := cur[k := c];
    var base := g.vals[j];
    var before := base.children + RepliesTo(ks, g, j);
    var reply := g.vals[k].parentid == Some(j);
    assert c.parentid == g.vals[k].parentid;
    assert RepliesTo(ks', g, j) == RepliesTo(ks, g, j) + (if reply then [k] else []);
    assert base.children + RepliesTo(ks', g, j) == before + (if reply then [k] else []);
    var fixed := if j in ks' then FixCommentLinks(base) else base;
    assert NestedRecord(g, ks', j) == fixed.(children := before + (if reply then [k] else []));
    if j == k {
      FixKeepsChildren(base, before);
      assert m[j] == fixed.(children := before);
    } else {
      assert j in ks' <==> j in ks;
      assert m[j] == fixed.(children := before);
    }
    if reply {
      assert WithReply(m, c.parentid, k)[j] == m[j].(children := m[j].children + [k]);
    } else {
      assert WithReply(m, c.parentid, k)[j] == m[j];
      assert before + [] == before;
    }
  }

  /** One turn of the nesting loop takes the records and the top level for the visited ids ks to those for ks + [k]. */
  lemma NestStep(g: Group, ks: seq<int>, k: int, cur: map<int, Comment>)
    requires k in g.vals && k !in ks && forall i :: i in ks ==> i in g.vals
    requires cur.Keys == g.vals.Keys && forall i :: i in g.vals ==> cur[i] == NestedRecord(g, ks, i)
    ensures var c := FixCommentLinks(cur[k]);
            var after := WithReply(cur[k := c], c.parentid, k);
            after.Keys == g.vals.Keys && (forall j :: j in g.vals ==> after[j] == NestedRecord(g, ks + [k], j))
            && c.parentid == g.vals[k].parentid
            && TopLevel(ks + [k], g) == TopLevel(ks, g) + (if c.parentid.None? then [k] else [])
  {
    forall j | j in g.vals
      ensures WithReply(cur[k := FixCommentLinks(cur[k])], FixCommentLinks(cur[k]).parentid, k)[j] == NestedRecord(g, ks + [k], j)
    {
      NestStepAt(g, ks, k, cur, j);
    }
    assert (ks + [k])[..|ks|] == ks;
  }

  /** One turn of the nesting loop at position i of the keys, stated on the values the loop computes. */
  lemma NestTurn(g: Group, i: nat, top: seq<int>, cur: map<int, Comment>)
    requires WellFormed(g) && i < |g.keys|
    requires cur.Keys == g.vals.Keys && forall j :: j in g.vals ==> cur[j] == NestedRecord(g, g.keys[..i], j)
    requires top == TopLevel(g.keys[..i], g)
    ensures var k := g.keys[i];
            var c := FixCommentLinks(cur[k]);
            var after := WithReply(cur[k := c], c.parentid, k);
            after.Keys == g.vals.Keys && (forall j :: j in g.vals ==> after[j] == NestedRecord(g, g.keys[..i + 1], j))
            && (c.parentid.None? ==> TopLevel(g.keys[..i + 1], g) == top + [k])
            && (c.parentid.Some? ==> TopLevel(g.keys[..i + 1], g) == top)
  {
    var k := g.keys[i];
    PrefixSnoc(g.keys, i);
    NestStep(g, g.keys[..i], k, cur);
    assert top + [] == top;
  }

  lemma NestedGroupOf(g: Group, nested: Group)
    requires WellFormed(g) && nested.keys == g.keys && nested.vals.Keys == g.vals.Keys
    requires forall j :: j in g.vals ==> nested.vals[j] == NestedRecord(g, g.keys, j)
    ensures nested == NestedGroup(g)
  {
    assert nested.vals == NestedGroup(g).vals;
  }

  /**
   * `nest_comments(comments)`: returns the ids of the top-level comments and
   * the group as the loop leaves it, with every reply appended to its
   * parent's children.
   */
  method NestComments(g: Group) returns (top: seq<int>, nested: Group)
    requires WellFormed(g) && ParentsPresent(g)
    ensures top == TopLevel(g.keys, g)
    ensures nested == NestedGroup(g)
  {
    top := [];
    nested := g;
    var i := 0;
    while i < |g.keys|
      invariant i <= |g.keys| && nested.keys == g.keys && nested.vals.Keys == g.vals.Keys
      invariant top == TopLevel(g.keys[..i], g)
      invariant forall j :: j in g.vals ==> nested.vals[j] == NestedRecord(g, g.keys[..i], j)
    {
      var k := g.keys[i];
      NestTurn(g, i, top, nested.vals);
      ghost var after := WithReply(nested.vals[k := FixCommentLinks(nested.vals[k])], nested.vals[k].parentid, k);
      var comment := FixCommentLinks(nested.vals[k]);
      nested := Dict(nested.keys, nested.vals[k := comment]);
      if comment.parentid.None? {
        top := top + [k];
      } else {
        var p := comment.parentid.value;
        var parent := nested.vals[p];
        nested := Dict(nested.keys, nested.vals[p := parent.(children := parent.children + [k])]);
      }
      assert nested.vals == after;
      i := i + 1;
    }
    assert g.keys[..i] == g.keys;
    NestedGroupOf(g, nested);
  }

  lemma {:induction false} FiltersDistinct(ks: seq<int>, g: Group, p: int)
    requires Distinct(ks) && forall k :: k in ks ==> k in g.vals
    ensures Distinct(TopLevel(ks, g)) && Distinct(RepliesTo(ks, g, p))
  {
    if |ks| > 0 {
      var q := ks[..|ks| - 1];
      assert forall k :: k in q ==> k in ks;
      FiltersDistinct(q, g, p);
      assert ks[|ks| - 1] !in q;
    }
  }

  /**
   * Nesting puts every comment of the group in exactly one place: once on
   * the top level if it has no `parentid`, else once among the children of
   * its parent and nowhere else.
   */
  lemma NestPlacesOnce(g: Group, k: int, p: int)
    requires WellFormed(g) && k in g.vals
    ensures Distinct(TopLevel(g.keys, g)) && Distinct(RepliesTo(g.keys, g, p))
    ensures k in TopLevel(g.keys, g) <==> g.vals[k].parentid.None?
    ensures k in RepliesTo(g.keys, g, p) <==> g.vals[k].parentid == Some(p)
  {
    FiltersDistinct(g.keys, g, p);
  }

  /** The number of replies among ks to the comments ps. */
  function ReplyCount(ks: seq<int>, g: Group, ps: seq<int>): nat
    requires forall k :: k in ks ==> k in g.vals
  {
    if |ps| == 0 then 0 else |RepliesTo(ks, g, ps[0])| + ReplyCount(ks, g, ps[1..])
  }

  lemma {:induction false} ReplyCountSnoc(ks: seq<int>, k: int, g: Group, ps: seq<int>)
    requires k in g.vals && forall j :: j in ks ==> j in g.vals
    requires Distinct(ps)
    ensures ReplyCount(ks + [k], g, ps)
         == ReplyCount(ks, g, ps) + (if g.vals[k].parentid.Some? && g.vals[k].parentid.value in ps then 1 else 0)
  {
    if |ps| > 0 {
      assert (ks + [k])[..|ks|] == ks;
      assert Distinct(ps[1..]) by {
        assert forall i :: 0 <= i < |ps[1..]| ==> ps[1..][i] == ps[i + 1];
      }
      ReplyCountSnoc(ks, k, g, ps[1..]);
      assert ps == [ps[0]] + ps[1..];
      assert g.vals[k].parentid == Some(ps[0]) ==> ps[0] !in ps[1..];
    }
  }

  lemma {:induction false} NestCountPrefix(ks: seq<int>, g: Group)
    requires WellFormed(g) && ParentsPresent(g) && forall k :: k in ks ==> k in g.vals
    ensures |TopLevel(ks, g)| + ReplyCount(ks, g, g.keys) == |ks|
  {
    if |ks| > 0 {
      var q := ks[..|ks| - 1];
      var k := ks[|ks| - 1];
      assert ks == q + [k];
      assert forall j :: j in q ==> j in ks;
      NestCountPrefix(q, g);
      ReplyCountSnoc(q, k, g, g.keys);
      assert |TopLevel(ks, g)| == |TopLevel(q, g)| + (if g.vals[k].parentid.None? then 1 else 0);
      assert k in g.vals by { assert k == ks[|ks| - 1]; }
      if g.vals[k].parentid.Some? {
        var par := g.vals[k].parentid.value;
        assert par in g.vals;
        assert par in g.keys;
      }
    } else {
      ReplyCountEmpty(ks, g, g.keys);
    }
  }

  lemma {:induction false} ReplyCountEmpty(ks: seq<int>, g: Group, ps: seq<int>)
    requires ks == []
    ensures ReplyCount(ks, g, ps) == 0
  {
    if |ps| > 0 { ReplyCountEmpty(ks, g, ps[1..]); }
  }

  /** The top-level comments and the replies appended to the children lists add up to the size of the group. */
  lemma NestCount(g: Group)
    requires WellFormed(g) && ParentsPresent(g)
    ensures |TopLevel(g.keys, g)| + ReplyCount(g.keys, g, g.keys) == |g.keys|
  {
    NestCountPrefix(g.keys, g);
  }

  // ---------------------------------------------------------------------
  // The comment trees a nested group describes
  // ---------------------------------------------------------------------

  /** A comment record together with the records its `children` list refers to, as comment_to_li walks them. */
  datatype Thread = Thread(comment: Comment, replies: seq<Thread>)

  /** Every record is filed under its own id. */
  predicate KeysMatch(g: Group)
  {
    forall k :: k in g.vals ==> g.vals[k].id == k
  }

  /** The children lists hold only comments of the group, each naming the holder as its parent. */
  predicate ChildLinks(g: Group)
  {
    forall p :: p in g.vals ==> forall c :: c in g.vals[p].children ==> c in g.vals && g.vals[c].parentid == Some(p)
  }

  /** The links of a group nested once: besides ChildLinks, each reply in the group is listed once by its parent. */
  predicate TreeLinks(g: Group)
  {
    && ChildLinks(g)
    && (forall p :: p in g.vals ==> Distinct(g.vals[p].children))
    && (forall p, c :: p in g.vals && c in g.vals && g.vals[c].parentid == Some(p) ==> c in g.vals[p].children)
  }

  /** Following `parentid` d times from x, through comments of g, ends at a top-level comment. */
  ghost predicate RootIn(g: Group, x: int, d: nat)
    decreases d
  {
    x in g.vals &&
    match g.vals[x].parentid
    case None => d == 0
    case Some(p) => d > 0 && RootIn(g, p, d - 1)
  }

  /** x hangs below a top-level comment: its chain of parents is finite. */
  ghost predicate Rooted(g: Group, x: int)
  {
    exists d :: RootIn(g, x, d)
  }

  /** x and the comments above it. */
  ghost function Ancestors(g: Group, x: int, d: nat): (r: set<int>)
    requires RootIn(g, x, d)
    ensures x in r && r <= g.vals.Keys
    decreases d
  {
    if d == 0 then {x} else {x} + Ancestors(g, g.vals[x].parentid.value, d - 1)
  }

  /** The termination measure of the unfolding: the comments not above x. */
  ghost function Unvisited(g: Group, x: int, d: nat): nat
    requires RootIn(g, x, d)
  {
    |g.vals.Keys - Ancestors(g, x, d)|
  }

  lemma {:induction false} DepthUnique(g: Group, x: int, d1: nat, d2: nat)
    requires RootIn(g, x, d1) && RootIn(g, x, d2)
    ensures d1 == d2
    decreases d1
  {
    if d1 > 0 && d2 > 0 {
      DepthUnique(g, g.vals[x].parentid.value, d1 - 1, d2 - 1);
    }
  }

  lemma {:induction false} AncestorDepth(g: Group, x: int, d: nat, y: int) returns (e: nat)
    requires RootIn(g, x, d) && y in Ancestors(g, x, d)
    ensures e <= d && RootIn(g, y, e)
    decreases d
  {
    if y == x {
      e := d;
    } else {
      e := AncestorDepth(g, g.vals[x].parentid.value, d - 1, y);
    }
  }

  /** A reply to x is one level deeper, and is not among the comments above x: no comment is its own ancestor. */
  lemma ChildDeeper(g: Group, x: int, d: nat, c: int)
    requires RootIn(g, x, d) && c in g.vals && g.vals[c].parentid == Some(x)
    ensures RootIn(g, c, d + 1) && Unvisited(g, c, d + 1) < Unvisited(g, x, d)
  {
    var a := Ancestors(g, x, d);
    if c in a {
      var e := AncestorDepth(g, x, d, c);
      DepthUnique(g, c, e, d + 1);
    }
    assert Ancestors(g, c, d + 1) == {c} + a;
    assert g.vals.Keys - ({c} + a) == (g.vals.Keys - a) - {c};
  }

  /** The thread of comment x, d levels below the top. */
  function Unfold(g: Group, x: int, ghost d: nat): Thread
    requires ChildLinks(g) && RootIn(g, x, d)
    decreases Unvisited(g, x, d), 1, 0
  {
    Thread(g.vals[x], UnfoldAll(g, g.vals[x].children, x, d))
  }

  /** The threads of the replies cs to comment x. */
  function UnfoldAll(g: Group, cs: seq<int>, x: int, ghost d: nat): seq<Thread>
    requires ChildLinks(g) && RootIn(g, x, d)
    requires forall c :: c in cs ==> c in g.vals && g.vals[c].parentid == Some(x)
    decreases Unvisited(g, x, d), 0, |cs|
  {
    if |cs| == 0 then []
    else
      ChildDeeper(g, x, d, cs[0]);
      [Unfold(g, cs[0], d + 1)] + UnfoldAll(g, cs[1..], x, d)
  }

  /** The threads of the top-level comments rs. */
  function Forest(g: Group, rs: seq<int>): seq<Thread>
    requires ChildLinks(g) && forall r :: r in rs ==> r in g.vals && g.vals[r].parentid.None?
  {
    if |rs| == 0 then [] else [Unfold(g, rs[0], 0)] + Forest(g, rs[1..])
  }

  /** The ids of a thread's comments, in walking order. */
  function Ids(t: Thread): seq<int>
  {
    [t.comment.id] + IdsAll(t.replies)
  }

  function IdsAll(ts: seq<Thread>): seq<int>
  {
    if |ts| == 0 then [] else Ids(ts[0]) + IdsAll(ts[1..])
  }

  /** The comment k levels above q, which is dq levels below the top. */
  ghost function AncestorAt(g: Group, q: int, dq: nat, k: nat): (r: int)
    requires RootIn(g, q, dq) && k <= dq
    ensures RootIn(g, r, dq - k)
    decreases k
  {
    if k == 0 then q else AncestorAt(g, g.vals[q].parentid.value, dq - 1, k - 1)
  }

  lemma {:induction false} AncestorAtParent(g: Group, q: int, dq: nat, k: nat)
    requires RootIn(g, q, dq) && k < dq
    ensures g.vals[AncestorAt(g, q, dq, k)].parentid == Some(AncestorAt(g, q, dq, k + 1))
    decreases k
  {
    if k > 0 {
      AncestorAtParent(g, g.vals[q].parentid.value, dq - 1, k - 1);
    }
  }

  /** A rooted comment q occurs once in the thread of x if x is its ancestor at x's depth, and not at all otherwise. */
  lemma {:induction false} CountInThread(g: Group, x: int, d: nat, q: int, dq: nat)
    requires TreeLinks(g) && KeysMatch(g) && RootIn(g, x, d) && RootIn(g, q, dq)
    ensures multiset(Ids(Unfold(g, x, d)))[q] == if d <= dq && AncestorAt(g, q, dq, dq - d) == x then 1 else 0
    decreases Unvisited(g, x, d), 1, 0
  {
    var ch := g.vals[x].children;
    CountInThreads(g, ch, x, d, q, dq);
    if q == x {
      DepthUnique(g, x, d, dq);
    }
    if d + 1 <= dq {
      var y := AncestorAt(g, q, dq, dq - (d + 1));
      AncestorAtParent(g, q, dq, dq - d - 1);
      DistinctCount(ch, y);
    }
  }

  /** The same for the threads of the replies cs to x: q's count is the count in cs of its ancestor one level below x. */
  lemma {:induction false} CountInThreads(g: Group, cs: seq<int>, x: int, d: nat, q: int, dq: nat)
    requires TreeLinks(g) && KeysMatch(g) && RootIn(g, x, d) && RootIn(g, q, dq)
    requires forall c :: c in cs ==> c in g.vals && g.vals[c].parentid == Some(x)
    ensures multiset(IdsAll(UnfoldAll(g, cs, x, d)))[q] == if d + 1 <= dq then multiset(cs)[AncestorAt(g, q, dq, dq - (d + 1))] else 0
    decreases Unvisited(g, x, d), 0, |cs|
  {
    if |cs| > 0 {
      ChildDeeper(g, x, d, cs[0]);
      var head := Ids(Unfold(g, cs[0], d + 1));
      var rest := IdsAll(UnfoldAll(g, cs[1..], x, d));
      assert IdsAll(UnfoldAll(g, cs, x, d)) == head + rest;
      CountInThread(g, cs[0], d + 1, q, dq);
      CountInThreads(g, cs[1..], x, d, q, dq);
      assert multiset(head + rest)[q] == multiset(head)[q] + multiset(rest)[q];
      if d + 1 <= dq {
        var y := AncestorAt(g, q, dq, dq - (d + 1));
        assert multiset(head)[q] == if y == cs[0] then 1 else 0;
        MultisetHead(cs);
        assert multiset(cs)[y] == multiset{cs[0]}[y] + multiset(cs[1..])[y];
      }
    }
  }

  lemma MultisetHead(cs: seq<int>)
    requires |cs| > 0
    ensures multiset(cs) == multiset{cs[0]} + multiset(cs[1..])
  {
    assert cs == [cs[0]] + cs[1..];
  }

  lemma {:induction false} DistinctCount(s: seq<int>, y: int)
    requires Distinct(s)
    ensures multiset(s)[y] == if y in s then 1 else 0
    decreases |s|
  {
    if |s| > 0 {
      var t := s[1..];
      assert Distinct(t) by {
        forall i, j | 0 <= i < j < |t| ensures t[i] != t[j] {
          assert t[i] == s[i + 1] && t[j] == s[j + 1];
        }
      }
      assert s[0] !in t by {
        forall j | 0 <= j < |t| ensures t[j] != s[0] {
          assert t[j] == s[j + 1];
        }
      }
      DistinctCount(t, y);
      MultisetHead(s);
    }
  }

  /** A comment without a finite chain of parents occurs in no thread. */
  lemma {:induction false} UnrootedInNoThread(g: Group, x: int, d: nat, q: int)
    requires ChildLinks(g) && KeysMatch(g) && RootIn(g, x, d) && !Rooted(g, q)
    ensures multiset(Ids(Unfold(g, x, d)))[q] == 0
    decreases Unvisited(g, x, d), 1, 0
  {
    UnrootedInNoThreads(g, g.vals[x].children, x, d, q);
  }

  lemma {:induction false} UnrootedInNoThreads(g: Group, cs: seq<int>, x: int, d: nat, q: int)
    requires ChildLinks(g) && KeysMatch(g) && RootIn(g, x, d) && !Rooted(g, q)
    requires forall c :: c in cs ==> c in g.vals && g.vals[c].parentid == Some(x)
    ensures multiset(IdsAll(UnfoldAll(g, cs, x, d)))[q] == 0
    decreases Unvisited(g, x, d), 0, |cs|
  {
    if |cs| > 0 {
      ChildDeeper(g, x, d, cs[0]);
      UnrootedInNoThread(g, cs[0], d + 1, q);
      UnrootedInNoThreads(g, cs[1..], x, d, q);
    }
  }

  /** In the forest of the top-level comments rs, a rooted comment occurs as often as its top-level ancestor occurs in rs. */
  lemma {:induction false} CountInForest(g: Group, rs: seq<int>, q: int, dq: nat)
    requires TreeLinks(g) && KeysMatch(g) && forall r :: r in rs ==> r in g.vals && g.vals[r].parentid.None?
    requires RootIn(g, q, dq)
    ensures multiset(IdsAll(Forest(g, rs)))[q] == multiset(rs)[AncestorAt(g, q, dq, dq)]
  {
    if |rs| > 0 {
      assert RootIn(g, rs[0], 0);
      var head := Ids(Unfold(g, rs[0], 0));
      var rest := IdsAll(Forest(g, rs[1..]));
      assert IdsAll(Forest(g, rs)) == head + rest;
      assert multiset(head + rest)[q] == multiset(head)[q] + multiset(rest)[q];
      CountInThread(g, rs[0], 0, q, dq);
      CountInForest(g, rs[1..], q, dq);
      MultisetHead(rs);
    }
  }

  /** A comment without a finite chain of parents occurs in no tree of the forest. */
  lemma {:induction false} UnrootedInNoForest(g: Group, rs: seq<int>, q: int)
    requires ChildLinks(g) && KeysMatch(g) && forall r :: r in rs ==> r in g.vals && g.vals[r].parentid.None?
    requires !Rooted(g, q)
    ensures multiset(IdsAll(Forest(g, rs)))[q] == 0
  {
    if |rs| > 0 {
      assert RootIn(g, rs[0], 0);
      UnrootedInNoThread(g, rs[0], 0, q);
      UnrootedInNoForest(g, rs[1..], q);
    }
  }

  /** Records as the downloader writes them: no replies attached yet. */
  predicate Unnested(g: Group)
  {
    forall k :: k in g.vals ==> g.vals[k].children == []
  }

  /** Nesting an unnested group yields records filed under their ids, linked to each of their replies once. */
  lemma NestedLinks(g: Group)
    requires WellFormed(g) && KeysMatch(g) && Unnested(g)
    ensures KeysMatch(NestedGroup(g)) && TreeLinks(NestedGroup(g))
  {
    var n := NestedGroup(g);
    forall p | p in n.vals
      ensures n.vals[p].children == RepliesTo(g.keys, g, p) && Distinct(n.vals[p].children)
    {
      NestPlacesOnce(g, p, p);
    }
    forall p, c | p in n.vals && c in n.vals && n.vals[c].parentid == Some(p)
      ensures c in n.vals[p].children
    {
      NestPlacesOnce(g, c, p);
    }
  }

  /** Two groups holding the same ids with the same parents. */
  predicate SameParents(g: Group, h: Group)
  {
    g.vals.Keys == h.vals.Keys && forall k :: k in g.vals ==> g.vals[k].parentid == h.vals[k].parentid
  }

  /** Nesting changes no parent. */
  lemma NestedParents(g: Group)
    requires WellFormed(g)
    ensures SameParents(NestedGroup(g), g)
  {
  }

  /** Groups with the same parents have the same parent chains. */
  lemma {:induction false} SameRootIn(g: Group, h: Group, x: int, d: nat)
    requires SameParents(g, h)
    ensures RootIn(g, x, d) <==> RootIn(h, x, d)
    decreases d
  {
    if d > 0 && x in g.vals && g.vals[x].parentid.Some? {
      SameRootIn(g, h, g.vals[x].parentid.value, d - 1);
    }
  }

  /**
   * Rendering follows `children` from the top-level comments. For a group
   * nested once, every comment with a finite chain of parents is reached
   * exactly once, and every other comment (one on a cycle of parents, or
   * below one) is never reached.
   */
  lemma NestedForestComplete(g: Group, q: int)
    requires WellFormed(g) && KeysMatch(g) && Unnested(g)
    ensures ChildLinks(NestedGroup(g))
    ensures var top := TopLevel(g.keys, g);
            (forall r :: r in top ==> r in NestedGroup(g).vals && NestedGroup(g).vals[r].parentid.None?) &&
            multiset(IdsAll(Forest(NestedGroup(g), top)))[q] == if Rooted(g, q) then 1 else 0
  {
    var n := NestedGroup(g);
    var top := TopLevel(g.keys, g);
    NestedLinks(g);
    if Rooted(g, q) {
      var dq :| RootIn(g, q, dq);
      NestedParents(g);
      SameRootIn(n, g, q, dq);
      CountInForest(n, top, q, dq);
      var r := AncestorAt(n, q, dq, dq);
      SameRootIn(n, g, r, 0);
      NestPlacesOnce(g, r, r);
      DistinctCount(top, r);
    } else {
      NestedParents(g);
      forall d: nat ensures !RootIn(n, q, d) {
        SameRootIn(n, g, q, d);
      }
      UnrootedInNoForest(n, top, q);
    }
  }

  /** When every comment of the group hangs below a top-level one, the rendered trees hold each comment exactly once. */
  lemma NestedForestExact(g: Group)
    requires WellFormed(g) && KeysMatch(g) && Unnested(g)
    requires forall k :: k in g.vals ==> Rooted(g, k)
    ensures ChildLinks(NestedGroup(g))
    ensures var top := TopLevel(g.keys, g);
            (forall r :: r in top ==> r in NestedGroup(g).vals && NestedGroup(g).vals[r].parentid.None?) &&
            multiset(IdsAll(Forest(NestedGroup(g), top))) == multiset(g.keys)
  {
    NestedLinks(g);
    var top := TopLevel(g.keys, g);
    var ids := IdsAll(Forest(NestedGroup(g), top));
    forall q ensures multiset(ids)[q] == multiset(g.keys)[q] {
      NestedForestComplete(g, q);
      DistinctCount(g.keys, q);
    }
    SameCounts(ids, g.keys);
  }

  lemma SameCounts(a: seq<int>, b: seq<int>)
    requires forall q :: multiset(a)[q] == multiset(b)[q]
    ensures multiset(a) == multiset(b)
  {
    var ma, mb := multiset(a), multiset(b);
    assert forall q :: ma[q] == mb[q];
  }
}
