/**
 * `combine` of export.py: the comments are grouped by post once, then each
 * post in turn has its comment group nested and rendered, its user links
 * fixed, and its JSON, HTML and markdown files written as the configuration
 * asks. The files are collected as a list of (path, content) pairs in the
 * order they are written.
 */
module Export {
  import opened Util
  import opened CommentTree
  import Render
  import Posts
  import Slugs

  /** The three export switches of config.json that `combine` reads. */
  datatype Config = Config(exportJson: bool, exportHtml: bool, exportMarkdown: bool)

  /** A file the export writes. */
  datatype OutputFile = OutputFile(path: string, content: string)

  /** `int(id) >> 8`: the post number a comment's `jitemid` refers to. */
  function GroupKey(id: string): nat
    requires IsDecimal(id)
  {
    DecimalValue(id) / 256
  }

  /** The service issues item ids as `jitemid * 256 + anum`; the key recovers the jitemid. */
  lemma GroupKeyOfItem(jitemid: nat, anum: nat)
    requires anum < 256
    ensures IsDecimal(NatToString(jitemid * 256 + anum)) && GroupKey(NatToString(jitemid * 256 + anum)) == jitemid
  {
    DecimalRoundTrip(jitemid * 256 + anum);
  }

  /** `'{0.year}-{0.month:02d}'.format(date)`. */
  function Subfolder(yearMonth: (int, int)): string
  {
    IntToString(yearMonth.0) + "-" + Pad2(yearMonth.1)
  }

  function JsonPath(id: string): string { "posts-json/" + id + ".json" }
  function HtmlPath(sub: string, id: string): string { "posts-html/" + sub + "/" + id + ".html" }
  function MarkdownPath(sub: string, id: string): string { "posts-markdown/" + sub + "/" + id + ".md" }
  function CommentsPath(slug: string): string { "comments-markdown/" + slug + ".md" }

  /** The groups `combine` can work on: every group an ordered dict whose children lists point at replies in it. */
  predicate GroupsOk(groups: Groups)
  {
    WellFormed(groups) && forall k :: k in groups.vals ==> WellFormed(groups.vals[k]) && ChildLinks(groups.vals[k])
  }

  /** Nesting keeps the children lists pointing at replies: the new entries are replies, the old ones stay. */
  lemma NestedChildLinks(g: Group)
    requires WellFormed(g) && ChildLinks(g)
    ensures ChildLinks(NestedGroup(g))
  {
    var n := NestedGroup(g);
    forall p | p in n.vals
      ensures forall c :: c in n.vals[p].children ==> c in n.vals && n.vals[c].parentid == Some(p)
    {
      assert n.vals[p].children == g.vals[p].children + RepliesTo(g.keys, g, p);
    }
  }

  /** Groups with the same parents agree on which parents are present. */
  lemma SameParentsPresent(g: Group, h: Group)
    requires SameParents(g, h) && ParentsPresent(h)
    ensures ParentsPresent(g)
  {
  }

  /** The groups after a post's comments were selected, and the top-level threads, if any. */
  datatype Selection = Selection(groups: Groups, threads: Option<seq<Thread>>)

  /**
   * `jitemid in posts_comments and nest_comments(posts_comments[jitemid]) or
   * None`: a present group is nested where it is stored, and its top-level
   * threads are taken unless there are none.
   */
  function SelectComments(groups: Groups, key: int): (r: Selection)
    requires GroupsOk(groups)
    ensures GroupsOk(r.groups) && r.groups.vals.Keys == groups.vals.Keys
    ensures key !in groups.vals ==> r.groups == groups && r.threads.None?
    ensures key in groups.vals ==>
              r.groups.vals[key] == NestedGroup(groups.vals[key]) &&
              (r.threads.None? <==> TopLevel(groups.vals[key].keys, groups.vals[key]) == [])
  {
    if key !in groups.vals then Selection(groups, None)
    else
      var g := groups.vals[key];
      var n := NestedGroup(g);
      NestedChildLinks(g);
      NestedParents(g);
      var top := TopLevel(g.keys, g);
      var gs := Put(groups, key, n);
      Selection(gs, if top == [] then None else Some(Forest(n, top)))
  }

  /** Selecting leaves the posts of the grouping and every parent link as they were, and the other groups untouched. */
  lemma SelectKeeps(groups: Groups, key: int)
    requires GroupsOk(groups)
    ensures var r := SelectComments(groups, key);
            r.groups.keys == groups.keys && r.groups.vals.Keys == groups.vals.Keys &&
            (forall k :: k in groups.vals ==> SameParents(r.groups.vals[k], groups.vals[k])) &&
            (forall k :: k in groups.vals && k != key ==> r.groups.vals[k] == groups.vals[k])
  {
    if key in groups.vals {
      NestedParents(groups.vals[key]);
    }
  }

  /** `post_comments and comments_to_html(post_comments) or ''`. */
  function CommentsHtml(threads: Option<seq<Thread>>, ext: Foreign): string
  {
    if threads.Some? then Render.CommentsToHtml(threads.value, ext) else ""
  }

  /** A rendered list is never empty, so there is a comments page exactly when there are top-level comments. */
  lemma CommentsHtmlEmpty(threads: Option<seq<Thread>>, ext: Foreign)
    ensures CommentsHtml(threads, ext) == "" <==> threads.None?
  {
    if threads.Some? {
      assert CommentsHtml(threads, ext)[..4] == "<ul>";
    }
  }

  /** What `save_as_html` writes: the post's page, then the comments under a heading when there are any. */
  function HtmlWithComments(p: Posts.Post, html: string): string
  {
    Posts.PostHtml(p) + (if html != "" then "\n<h2>Comments</h2>\n" + html else "")
  }

  /** The JSON dump the standard library's `json.dumps` makes of a post's id, record and top-level comment threads. */
  type JsonDump = (string, Posts.Post, Option<seq<Thread>>) -> string

  /**
   * The files one post adds, in the order `combine` writes them: the JSON
   * dump, the HTML page, the markdown document and the comments page, each
   * when it is exported; the comments page only when there are comments.
   */
  function PostFiles(id: string, sub: string, jsonText: Option<string>, page: Option<string>,
                     md: Option<Posts.MarkdownResult>, html: string): (fs: seq<OutputFile>)
    requires md.Some? ==> md.value.post.slug.Some?
    ensures |fs| == (if jsonText.Some? then 1 else 0) + (if page.Some? then 1 else 0)
                    + (if md.Some? then (if html != "" then 2 else 1) else 0)
  {
    (if jsonText.Some? then [OutputFile(JsonPath(id), jsonText.value)] else [])
    + (if page.Some? then [OutputFile(HtmlPath(sub, id), page.value)] else [])
    + (if md.None? then []
       else [OutputFile(MarkdownPath(sub, id), md.value.doc)]
            + (if html != "" then [OutputFile(CommentsPath(md.value.post.slug.value), html)] else []))
  }

  /** Where each file of PostFiles sits. */
  lemma PostFilesLayout(id: string, sub: string, jsonText: Option<string>, page: Option<string>,
                        md: Option<Posts.MarkdownResult>, html: string)
    requires md.Some? ==> md.value.post.slug.Some?
    ensures var fs := PostFiles(id, sub, jsonText, page, md, html);
            var n := (if jsonText.Some? then 1 else 0) + (if page.Some? then 1 else 0);
            (jsonText.Some? ==> fs[0] == OutputFile(JsonPath(id), jsonText.value)) &&
            (page.Some? ==> fs[n - 1] == OutputFile(HtmlPath(sub, id), page.value)) &&
            (md.Some? ==> fs[n] == OutputFile(MarkdownPath(sub, id), md.value.doc)) &&
            (md.Some? && html != "" ==> fs[n + 1] == OutputFile(CommentsPath(md.value.post.slug.value), html))
  {
  }

  /** What saving one post leaves behind: the record, the registry's slugs and the files written. */
  datatype Saved = Saved(post: Posts.Post, issued: set<string>, files: seq<OutputFile>)

  /** Lines 195-213 of `combine` for the post p, apart from the comment selection at line 198: given its top-level threads and the slugs issued so far. */
  function SavePostOf(p: Posts.Post, issued: set<string>, threads: Option<seq<Thread>>, cfg: Config, ext: Foreign,
                      json: JsonDump): (w: Saved)
    requires !ext.isWord('-')
    ensures cfg.exportMarkdown ==> w.post.slug.Some? && w.issued == issued + {w.post.slug.value}
    ensures !cfg.exportMarkdown ==> w.issued == issued && w.post == Posts.FixPostLinks(p)
  {
    var html := CommentsHtml(threads, ext);
    var q := Posts.FixPostLinks(p);
    var md := if cfg.exportMarkdown then Some(Posts.MarkdownOf(q, issued, ext)) else None;
    var fs := PostFiles(p.id, Subfolder(ext.yearMonth(p.date)),
                        if cfg.exportJson then Some(json(p.id, q, threads)) else None,
                        if cfg.exportHtml then Some(HtmlWithComments(q, html)) else None,
                        md, html);
    if md.Some? then Saved(md.value.post, md.value.issued, fs) else Saved(q, issued, fs)
  }

  /** The group keys of the posts, in order. */
  function Keys(ps: seq<Posts.Post>): (ks: seq<int>)
    requires forall i :: 0 <= i < |ps| ==> IsDecimal(ps[i].id)
    ensures |ks| == |ps|
  {
    if |ps| == 0 then [] else Keys(ps[..|ps| - 1]) + [GroupKey(ps[|ps| - 1].id)]
  }

  lemma {:induction false} KeysAt(ps: seq<Posts.Post>, i: nat)
    requires (forall j :: 0 <= j < |ps| ==> IsDecimal(ps[j].id)) && i < |ps|
    ensures Keys(ps)[i] == GroupKey(ps[i].id)
  {
    var n := |ps| - 1;
    if i < n {
      assert ps[..n][i] == ps[i];
      KeysAt(ps[..n], i);
    }
  }

  /** The groups after a run of selections, and the threads each selection took. */
  datatype Nesting = Nesting(groups: Groups, threads: seq<Option<seq<Thread>>>)

  /** Line 198 of `combine` for posts with the given keys, one after the other. */
  function NestAll(groups: Groups, keys: seq<int>): (r: Nesting)
    requires GroupsOk(groups)
    ensures GroupsOk(r.groups) && r.groups.vals.Keys == groups.vals.Keys && |r.threads| == |keys|
  {
    if |keys| == 0 then Nesting(groups, [])
    else
      var prev := NestAll(groups, keys[..|keys| - 1]);
      var sel := SelectComments(prev.groups, keys[|keys| - 1]);
      Nesting(sel.groups, prev.threads + [sel.threads])
  }

  /** The threads taken for the i-th post are selected from the groups the posts before it left. */
  lemma {:induction false} NestAllAt(groups: Groups, keys: seq<int>, i: nat)
    requires GroupsOk(groups) && i < |keys|
    ensures NestAll(groups, keys).threads[i] == SelectComments(NestAll(groups, keys[..i]).groups, keys[i]).threads
  {
    var n := |keys| - 1;
    var prev := NestAll(groups, keys[..n]);
    var sel := SelectComments(prev.groups, keys[n]);
    assert NestAll(groups, keys).threads == prev.threads + [sel.threads];
    if i < n {
      NestAllAt(groups, keys[..n], i);
      assert keys[..n][..i] == keys[..i] && keys[..n][i] == keys[i];
      assert (prev.threads + [sel.threads])[i] == prev.threads[i];
    } else {
      assert keys[..i] == keys[..n];
      assert (prev.threads + [sel.threads])[i] == sel.threads;
    }
  }

  /** The nesting leaves the posts of the grouping and every parent link as they were. */
  lemma {:induction false} NestAllParents(groups: Groups, keys: seq<int>)
    requires GroupsOk(groups)
    ensures var r := NestAll(groups, keys);
            r.groups.vals.Keys == groups.vals.Keys && forall k :: k in groups.vals ==> SameParents(r.groups.vals[k], groups.vals[k])
  {
    if |keys| > 0 {
      var prev := NestAll(groups, keys[..|keys| - 1]);
      NestAllParents(groups, keys[..|keys| - 1]);
      SelectKeeps(prev.groups, keys[|keys| - 1]);
    }
  }

  /** A group is nested only by a post whose key names it. */
  lemma {:induction false} UntouchedGroup(groups: Groups, keys: seq<int>, k: int)
    requires GroupsOk(groups) && k in groups.vals && k !in keys
    ensures NestAll(groups, keys).groups.vals[k] == groups.vals[k]
  {
    if |keys| > 0 {
      var prev := NestAll(groups, keys[..|keys| - 1]);
      UntouchedGroup(groups, keys[..|keys| - 1], k);
      NestAllParents(groups, keys[..|keys| - 1]);
      SelectKeeps(prev.groups, keys[|keys| - 1]);
    }
  }

  /** What `combine` leaves behind after saving a run of posts. */
  datatype SavedAll = SavedAll(posts: seq<Posts.Post>, issued: set<string>, files: seq<OutputFile>)

  /** Lines 195-213 of `combine` for the posts ps, the i-th with the threads ths[i]. */
  function SaveAll(ps: seq<Posts.Post>, ths: seq<Option<seq<Thread>>>, issued: set<string>, cfg: Config,
                   ext: Foreign, json: JsonDump): (s: SavedAll)
    requires |ths| == |ps| && !ext.isWord('-')
    ensures |s.posts| == |ps|
  {
    if |ps| == 0 then SavedAll([], issued, [])
    else
      var prev := SaveAll(ps[..|ps| - 1], ths[..|ps| - 1], issued, cfg, ext, json);
      var w := SavePostOf(ps[|ps| - 1], prev.issued, ths[|ps| - 1], cfg, ext, json);
      SavedAll(prev.posts + [w.post], w.issued, prev.files + w.files)
  }

  lemma SliceEnds<T>(s: seq<T>)
    ensures s[..0] == [] && [] + s[0..] == s && s[..|s|] == s && s[|s|..] == []
  {
  }

  lemma TakeSnoc<T>(s: seq<T>, i: nat)
    requires i < |s|
    ensures s[..i + 1] == s[..i] + [s[i]]
  {
  }

  /** One more key: the groups the earlier keys left are selected from once more. */
  lemma NestAllSnoc(groups: Groups, keys: seq<int>, k: int)
    requires GroupsOk(groups)
    ensures var prev := NestAll(groups, keys);
            var sel := SelectComments(prev.groups, k);
            NestAll(groups, keys + [k]) == Nesting(sel.groups, prev.threads + [sel.threads])
  {
    assert (keys + [k])[..|keys|] == keys;
  }

  /** Comments as the downloader writes them (no replies attached yet) group into fresh groups. */
  lemma GroupedFresh(cs: seq<Comment>)
    requires forall i :: 0 <= i < |cs| ==> cs[i].children == []
    ensures GroupsOk(Grouped(cs))
    ensures forall k :: k in Grouped(cs).vals ==> Unnested(Grouped(cs).vals[k]) && KeysMatch(Grouped(cs).vals[k])
  {
    var gs := Grouped(cs);
    forall k, id | k in gs.vals && id in gs.vals[k].vals
      ensures gs.vals[k].vals[id].children == [] && gs.vals[k].vals[id].id == id
    {
      GroupedEntries(cs, k, id);
    }
  }

  /** The post's group is present and holds a comment without a parent. */
  predicate HasComments(groups: Groups, key: int)
  {
    key in groups.vals && exists k :: k in groups.vals[key].vals && groups.vals[key].vals[k].parentid.None?
  }

  lemma HasCommentsTop(groups: Groups, key: int)
    requires key in groups.vals && WellFormed(groups.vals[key])
    ensures HasComments(groups, key) <==> TopLevel(groups.vals[key].keys, groups.vals[key]) != []
  {
    var g := groups.vals[key];
    var t := TopLevel(g.keys, g);
    if HasComments(groups, key) {
      var k :| k in g.vals && g.vals[k].parentid.None?;
      assert k in g.keys;
      assert k in t;
    }
    if t != [] {
      var k := t[0];
      assert k in g.vals && g.vals[k].parentid.None?;
    }
  }

  /** Threads are selected for a post exactly when its group has a top-level comment. */
  lemma SelectedIff(groups: Groups, key: int)
    requires GroupsOk(groups)
    ensures SelectComments(groups, key).threads.Some? <==> HasComments(groups, key)
  {
    if key in groups.vals {
      HasCommentsTop(groups, key);
    }
  }

  /**
   * With markdown on, a post gets a comments page exactly when it has
   * top-level threads: the rendered threads, named after the slug the post
   * was given, written last.
   */
  lemma CommentsPage(p: Posts.Post, issued: set<string>, threads: Option<seq<Thread>>, cfg: Config, ext: Foreign,
                     json: JsonDump)
    requires !ext.isWord('-') && cfg.exportMarkdown
    ensures var w := SavePostOf(p, issued, threads, cfg, ext, json);
            var n := (if cfg.exportJson then 1 else 0) + (if cfg.exportHtml then 1 else 0);
            (threads.Some? <==> |w.files| == n + 2) &&
            (threads.Some? ==> w.files[n + 1] == OutputFile(CommentsPath(w.post.slug.value), CommentsHtml(threads, ext)))
  {
    var html := CommentsHtml(threads, ext);
    var q := Posts.FixPostLinks(p);
    var md := Some(Posts.MarkdownOf(q, issued, ext));
    var jsonText := if cfg.exportJson then Some(json(p.id, q, threads)) else None;
    var page := if cfg.exportHtml then Some(HtmlWithComments(q, html)) else None;
    var sub := Subfolder(ext.yearMonth(p.date));
    assert SavePostOf(p, issued, threads, cfg, ext, json).files == PostFiles(p.id, sub, jsonText, page, md, html);
    PostFilesLayout(p.id, sub, jsonText, page, md, html);
    CommentsHtmlEmpty(threads, ext);
  }

  /**
   * With HTML on, the post's page is its `json_to_html` document followed by
   * the rendered threads under a Comments heading, or the bare document when
   * it has no top-level threads.
   */
  lemma HtmlPage(p: Posts.Post, issued: set<string>, threads: Option<seq<Thread>>, cfg: Config, ext: Foreign,
                 json: JsonDump)
    requires !ext.isWord('-') && cfg.exportHtml
    ensures var w := SavePostOf(p, issued, threads, cfg, ext, json);
            var n := if cfg.exportJson then 1 else 0;
            var q := Posts.FixPostLinks(p);
            |w.files| > n && w.files[n].path == HtmlPath(Subfolder(ext.yearMonth(p.date)), p.id) &&
            (threads.Some? ==> w.files[n].content == Posts.PostHtml(q) + "\n<h2>Comments</h2>\n" + CommentsHtml(threads, ext)) &&
            (threads.None? ==> w.files[n].content == Posts.PostHtml(q))
  {
    var html := CommentsHtml(threads, ext);
    var q := Posts.FixPostLinks(p);
    var md := if cfg.exportMarkdown then Some(Posts.MarkdownOf(q, issued, ext)) else None;
    var jsonText := if cfg.exportJson then Some(json(p.id, q, threads)) else None;
    var page := Some(HtmlWithComments(q, html));
    var sub := Subfolder(ext.yearMonth(p.date));
    assert SavePostOf(p, issued, threads, cfg, ext, json).files == PostFiles(p.id, sub, jsonText, page, md, html);
    PostFilesLayout(p.id, sub, jsonText, page, md, html);
    CommentsHtmlEmpty(threads, ext);
  }

  /**
   * The first post whose key names a group of freshly grouped comments shows
   * each comment of that group once when its chain of parents ends at a
   * top-level comment, and never when it does not; it shows threads at all
   * exactly when the group has a top-level comment.
   */
  lemma FirstNesting(cs: seq<Comment>, keys: seq<int>, i: nat, q: int)
    requires forall j :: 0 <= j < |cs| ==> cs[j].children == []
    requires i < |keys| && keys[i] !in keys[..i] && keys[i] in Grouped(cs).vals
    ensures GroupsOk(Grouped(cs)) &&
            var t := NestAll(Grouped(cs), keys).threads[i];
            var g := Grouped(cs).vals[keys[i]];
            (t.Some? <==> HasComments(Grouped(cs), keys[i])) &&
            (t.Some? ==> multiset(IdsAll(t.value))[q] == if Rooted(g, q) then 1 else 0)
  {
    var groups := Grouped(cs);
    GroupedFresh(cs);
    var key := keys[i];
    var g := groups.vals[key];
    NestAllAt(groups, keys, i);
    UntouchedGroup(groups, keys[..i], key);
    NestedForestComplete(g, q);
    HasCommentsTop(groups, key);
  }

  /** Every post of ps has a slug. */
  predicate Slugged(ps: seq<Posts.Post>)
  {
    forall i :: 0 <= i < |ps| ==> ps[i].slug.Some?
  }

  /** The set of slugs the posts carry. */
  function SlugsOf(ps: seq<Posts.Post>): set<string>
  {
    if |ps| == 0 then {}
    else SlugsOf(ps[..|ps| - 1]) + (if ps[|ps| - 1].slug.Some? then {ps[|ps| - 1].slug.value} else {})
  }

  /** With markdown on, every saved post gets a slug and the registry grows by exactly those slugs. */
  lemma {:induction false} MarkdownSlugs(ps: seq<Posts.Post>, ths: seq<Option<seq<Thread>>>, issued: set<string>,
                                        cfg: Config, ext: Foreign, json: JsonDump)
    requires |ths| == |ps| && !ext.isWord('-') && cfg.exportMarkdown
    ensures var s := SaveAll(ps, ths, issued, cfg, ext, json);
            Slugged(s.posts) && s.issued == issued + SlugsOf(s.posts)
  {
    if |ps| > 0 {
      var n := |ps| - 1;
      MarkdownSlugs(ps[..n], ths[..n], issued, cfg, ext, json);
      MarkdownSlugsLast(ps, ths, issued, cfg, ext, json);
    }
  }

  lemma MarkdownSlugsLast(ps: seq<Posts.Post>, ths: seq<Option<seq<Thread>>>, issued: set<string>,
                          cfg: Config, ext: Foreign, json: JsonDump)
    requires |ths| == |ps| > 0 && !ext.isWord('-') && cfg.exportMarkdown
    requires var prev := SaveAll(ps[..|ps| - 1], ths[..|ps| - 1], issued, cfg, ext, json);
             Slugged(prev.posts) && prev.issued == issued + SlugsOf(prev.posts)
    ensures var s := SaveAll(ps, ths, issued, cfg, ext, json);
            Slugged(s.posts) && s.issued == issued + SlugsOf(s.posts)
  {
    var n := |ps| - 1;
    var prev := SaveAll(ps[..n], ths[..n], issued, cfg, ext, json);
    var w := SavePostOf(ps[n], prev.issued, ths[n], cfg, ext, json);
    SaveAllLast(ps, ths, issued, cfg, ext, json);
    SlugsStep(prev.posts, prev.issued, issued, w);
  }

  /** A post saved with a fresh slug keeps the registry equal to the slugs of the posts saved. */
  lemma SlugsStep(done: seq<Posts.Post>, before: set<string>, issued: set<string>, w: Saved)
    requires Slugged(done) && before == issued + SlugsOf(done)
    requires w.post.slug.Some? && w.issued == before + {w.post.slug.value}
    ensures Slugged(done + [w.post]) && w.issued == issued + SlugsOf(done + [w.post])
  {
    SlugsSnoc(done, w.post);
  }

  /** The last post of a run is saved with the slugs the posts before it left. */
  lemma SaveAllLast(ps: seq<Posts.Post>, ths: seq<Option<seq<Thread>>>, issued: set<string>, cfg: Config,
                    ext: Foreign, json: JsonDump)
    requires |ths| == |ps| > 0 && !ext.isWord('-')
    ensures var n := |ps| - 1;
            var prev := SaveAll(ps[..n], ths[..n], issued, cfg, ext, json);
            var w := SavePostOf(ps[n], prev.issued, ths[n], cfg, ext, json);
            SaveAll(ps, ths, issued, cfg, ext, json) == SavedAll(prev.posts + [w.post], w.issued, prev.files + w.files)
  {
  }

  lemma SlugsSnoc(ps: seq<Posts.Post>, p: Posts.Post)
    ensures SlugsOf(ps + [p]) == SlugsOf(ps) + (if p.slug.Some? then {p.slug.value} else {})
  {
    assert (ps + [p])[..|ps|] == ps;
  }

  /** With markdown off, the registry is untouched and each post only has its user links fixed. */
  lemma {:induction false} PlainPosts(ps: seq<Posts.Post>, ths: seq<Option<seq<Thread>>>, issued: set<string>,
                                     cfg: Config, ext: Foreign, json: JsonDump)
    requires |ths| == |ps| && !ext.isWord('-') && !cfg.exportMarkdown
    ensures var s := SaveAll(ps, ths, issued, cfg, ext, json);
            s.issued == issued && forall i :: 0 <= i < |ps| ==> s.posts[i] == Posts.FixPostLinks(ps[i])
  {
    if |ps| > 0 {
      var n := |ps| - 1;
      PlainPosts(ps[..n], ths[..n], issued, cfg, ext, json);
      PlainPostsLast(ps, ths, issued, cfg, ext, json);
    }
  }

  lemma PlainPostsLast(ps: seq<Posts.Post>, ths: seq<Option<seq<Thread>>>, issued: set<string>,
                       cfg: Config, ext: Foreign, json: JsonDump)
    requires |ths| == |ps| > 0 && !ext.isWord('-') && !cfg.exportMarkdown
    requires var n := |ps| - 1;
             var prev := SaveAll(ps[..n], ths[..n], issued, cfg, ext, json);
             prev.issued == issued && forall i :: 0 <= i < n ==> prev.posts[i] == Posts.FixPostLinks(ps[..n][i])
    ensures var s := SaveAll(ps, ths, issued, cfg, ext, json);
            s.issued == issued && forall i :: 0 <= i < |ps| ==> s.posts[i] == Posts.FixPostLinks(ps[i])
  {
    var n := |ps| - 1;
    var prev := SaveAll(ps[..n], ths[..n], issued, cfg, ext, json);
    var w := SavePostOf(ps[n], prev.issued, ths[n], cfg, ext, json);
    SaveAllLast(ps, ths, issued, cfg, ext, json);
    FixedSnoc(prev.posts, ps, w.post);
  }

  lemma FixedSnoc(done: seq<Posts.Post>, ps: seq<Posts.Post>, q: Posts.Post)
    requires |ps| == |done| + 1 && q == Posts.FixPostLinks(ps[|done|])
    requires forall i :: 0 <= i < |done| ==> done[i] == Posts.FixPostLinks(ps[..|done|][i])
    ensures forall i :: 0 <= i < |ps| ==> (done + [q])[i] == Posts.FixPostLinks(ps[i])
  {
    forall i | 0 <= i < |ps|
      ensures (done + [q])[i] == Posts.FixPostLinks(ps[i])
    {
      if i < |done| {
        assert ps[..|done|][i] == ps[i];
      }
    }
  }

  /** No record occurs twice in the list: each is distinct from the ones before it. */
  predicate DistinctRecords(posts: seq<Posts.PostRecord>)
  {
    |posts| == 0 || (posts[|posts| - 1] !in posts[..|posts| - 1] && DistinctRecords(posts[..|posts| - 1]))
  }

  lemma {:induction false} DistinctRecordsAt(posts: seq<Posts.PostRecord>, i: nat)
    requires DistinctRecords(posts) && i < |posts|
    ensures forall j :: 0 <= j < |posts| && j != i ==> posts[j] != posts[i]
  {
    var n := |posts| - 1;
    assert forall j :: 0 <= j < n ==> posts[j] == posts[..n][j];
    if i < n {
      DistinctRecordsAt(posts[..n], i);
    }
  }

  lemma {:induction false} DistinctPairs(posts: seq<Posts.PostRecord>)
    requires forall i, j :: 0 <= i < j < |posts| ==> posts[i] != posts[j]
    ensures DistinctRecords(posts)
  {
    if |posts| > 0 {
      var n := |posts| - 1;
      assert forall j :: 0 <= j < n ==> posts[j] == posts[..n][j];
      DistinctPairs(posts[..n]);
    }
  }

  /** The post records' current values, in order. */
  function Values(posts: seq<Posts.PostRecord>): (vs: seq<Posts.Post>)
    reads posts
    ensures |vs| == |posts| && forall i :: 0 <= i < |posts| ==> vs[i].id == posts[i].id
  {
    if |posts| == 0 then [] else Values(posts[..|posts| - 1]) + [posts[|posts| - 1].Value()]
  }

  lemma {:induction false} ValuesAt(posts: seq<Posts.PostRecord>, j: nat)
    requires j < |posts|
    ensures Values(posts)[j] == posts[j].Value()
  {
    var n := |posts| - 1;
    if j < n {
      ValuesAt(posts[..n], j);
      assert posts[..n][j] == posts[j];
    }
  }

  /** Line 198 of `combine`: the post's group, if any, is nested where it is stored. */
  method NestPostComments(groups: Groups, key: int) returns (groups': Groups, threads: Option<seq<Thread>>)
    requires GroupsOk(groups) && (key in groups.vals ==> ParentsPresent(groups.vals[key]))
    ensures Selection(groups', threads) == SelectComments(groups, key)
  {
    groups' := groups;
    threads := None;
    if key in groups.vals {
      var top, nested := NestComments(groups.vals[key]);
      NestedChildLinks(groups.vals[key]);
      NestedParents(groups.vals[key]);
      groups' := Put(groups, key, nested);
      if top != [] {
        threads := Some(Forest(nested, top));
      }
    }
  }

  /**
   * Lines 195-213 of `combine`: the record p and the registry are updated in
   * place, and the files written are returned in the order they are written.
   */
  method SavePost(p: Posts.PostRecord, registry: Slugs.SlugRegistry, threads: Option<seq<Thread>>, cfg: Config,
                  ext: Foreign, json: JsonDump) returns (files: seq<OutputFile>)
    requires !ext.isWord('-')
    modifies p, registry
    ensures var w := SavePostOf(old(p.Value()), old(registry.issued), threads, cfg, ext, json);
            p.Value() == w.post && registry.issued == w.issued && files == w.files
  {
    var html := if threads.Some? then Render.CommentsToHtml(threads.value, ext) else "";
    p.FixUserLinks();
    var sub := Subfolder(ext.yearMonth(p.date));
    var jsonText: Option<string> := None;
    if cfg.exportJson {
      jsonText := Some(json(p.id, p.Value(), threads));
    }
    var page: Option<string> := None;
    if cfg.exportHtml {
      page := Some(HtmlWithComments(p.Value(), html));
    }
    var md: Option<Posts.MarkdownResult> := None;
    if cfg.exportMarkdown {
      var doc := p.ToMarkdown(registry, ext);
      md := Some(Posts.MarkdownResult(p.Value(), doc, registry.issued));
    }
    files := PostFiles(p.id, sub, jsonText, page, md, html);
  }

  /**
   * One pass of the loop of `combine` (lines 192-213) for the i-th of distinct
   * records, when the records before it hold their saved values `done` and the
   * records from it on still hold their values `olds`: its comment group is
   * nested, then it is saved, and no other record changes.
   */
  method ExportPost(posts: seq<Posts.PostRecord>, i: nat, groups: Groups, registry: Slugs.SlugRegistry, cfg: Config,
                    ext: Foreign, json: JsonDump, ghost olds: seq<Posts.Post>, ghost done: seq<Posts.Post>)
    returns (groups': Groups, files: seq<OutputFile>, ghost w: Saved)
    requires DistinctRecords(posts)
    requires i < |posts| && IsDecimal(posts[i].id) && !ext.isWord('-') && GroupsOk(groups)
    requires GroupKey(posts[i].id) in groups.vals ==> ParentsPresent(groups.vals[GroupKey(posts[i].id)])
    requires |olds| == |posts| && |done| == i
    requires ValuesAre(posts, done + olds[i..])
    modifies posts[i], registry
    ensures var sel := SelectComments(groups, GroupKey(posts[i].id));
            w == SavePostOf(olds[i], old(registry.issued), sel.threads, cfg, ext, json) && groups' == sel.groups
    ensures files == w.files && registry.issued == w.issued
    ensures ValuesAre(posts, done + [w.post] + olds[i + 1..])
  {
    DistinctRecordsAt(posts, i);
    SaveNextValue(done, olds, posts[i].Value());
    Posts.HoldsValue(posts[i], olds[i]);
    var threads;
    groups', threads := NestPostComments(groups, GroupKey(posts[i].id));
    w := SavePostOf(olds[i], registry.issued, threads, cfg, ext, json);
    files := SavePost(posts[i], registry, threads, cfg, ext, json);
    Posts.HoldsValue(posts[i], w.post);
    SaveNextValue(done, olds, w.post);
    forall j | 0 <= j < |posts|
      ensures posts[j].Holds((done + [w.post] + olds[i + 1..])[j])
    {
      if j != i {
        assert posts[j] != posts[i];
      }
    }
  }

  /** The records hold the values vs, one by one. */
  ghost predicate ValuesAre(posts: seq<Posts.PostRecord>, vs: seq<Posts.Post>)
    reads posts
  {
    |vs| == |posts| && forall j :: 0 <= j < |posts| ==> posts[j].Holds(vs[j])
  }

  lemma ValuesAreValues(posts: seq<Posts.PostRecord>, vs: seq<Posts.Post>)
    ensures ValuesAre(posts, vs) <==> Values(posts) == vs
  {
    forall j | 0 <= j < |posts| && j < |vs| ensures posts[j].Holds(vs[j]) <==> Values(posts)[j] == vs[j] {
      Posts.HoldsValue(posts[j], vs[j]);
      ValuesAt(posts, j);
    }
  }

  /** Replacing the first value not yet saved by its saved value. */
  lemma SaveNextValue(done: seq<Posts.Post>, olds: seq<Posts.Post>, q: Posts.Post)
    requires |done| < |olds|
    ensures (done + olds[|done|..])[|done|] == olds[|done|]
    ensures (done + olds[|done|..])[|done| := q] == (done + [q]) + olds[|done| + 1..]
  {
  }

  /**
   * The loop of `combine` (lines 190-213) over distinct records with decimal
   * ids, from the grouped comments: a post whose comment group names a parent
   * missing from it would stop the run.
   */
  method ExportPosts(posts: seq<Posts.PostRecord>, start: Groups, registry: Slugs.SlugRegistry, cfg: Config,
                     ext: Foreign, json: JsonDump) returns (files: seq<OutputFile>)
    requires DistinctRecords(posts)
    requires forall i :: 0 <= i < |posts| ==> IsDecimal(posts[i].id)
    requires !ext.isWord('-') && GroupsOk(start)
    requires forall i :: 0 <= i < |posts| && GroupKey(posts[i].id) in start.vals ==>
               ParentsPresent(start.vals[GroupKey(posts[i].id)])
    modifies posts, registry
    ensures var ths := NestAll(start, Keys(old(Values(posts)))).threads;
            var s := SaveAll(old(Values(posts)), ths, old(registry.issued), cfg, ext, json);
            Values(posts) == s.posts && files == s.files && registry.issued == s.issued
  {
    var groups := start;
    ghost var olds := Values(posts);
    ghost var keys := Keys(olds);
    ghost var issued := registry.issued;
    ExportStart(posts, olds, keys, start, issued, cfg, ext, json);
    ghost var nest := Nesting(start, []);
    ghost var saved := SavedAll([], issued, []);
    files := [];
    var i := 0;
    while i < |posts|
      invariant Progress(posts, i, start, olds, keys, issued, cfg, ext, json, nest, saved)
      invariant groups == nest.groups && files == saved.files && registry.issued == saved.issued
    {
      var added;
      groups, added, nest, saved := ExportStep(posts, i, groups, registry, cfg, ext, json, start, olds, keys, issued,
                                               nest, saved);
      files := files + added;
      i := i + 1;
    }
    ExportEnd(posts, olds, keys, start, issued, cfg, ext, json, nest, saved);
  }

  /** Before the first pass of the loop of ExportPosts: nothing is nested or saved yet, and the records hold their values. */
  lemma ExportStart(posts: seq<Posts.PostRecord>, olds: seq<Posts.Post>, keys: seq<int>, start: Groups,
                    issued: set<string>, cfg: Config, ext: Foreign, json: JsonDump)
    requires (forall i :: 0 <= i < |posts| ==> IsDecimal(posts[i].id)) && olds == Values(posts) && keys == Keys(olds)
    requires !ext.isWord('-') && GroupsOk(start)
    ensures Progress(posts, 0, start, olds, keys, issued, cfg, ext, json, Nesting(start, []), SavedAll([], issued, []))
  {
    KeysOfRecords(posts, olds);
    ValuesAreValues(posts, olds);
    SliceEnds(olds);
    SliceEnds(keys);
  }

  /**
   * The state the loop of ExportPosts keeps after i passes: the records before
   * the i-th hold their saved values and the rest their old ones, as `NestAll`
   * and `SaveAll` give them over the first i posts.
   */
  ghost predicate Progress(posts: seq<Posts.PostRecord>, i: nat, start: Groups, olds: seq<Posts.Post>, keys: seq<int>,
                           issued: set<string>, cfg: Config, ext: Foreign, json: JsonDump, nest: Nesting, saved: SavedAll)
    reads posts
  {
    && !ext.isWord('-') && GroupsOk(start)
    && i <= |posts| == |olds| == |keys|
    && (forall j :: 0 <= j < |posts| ==> IsDecimal(posts[j].id) && keys[j] == GroupKey(posts[j].id))
    && nest == NestAll(start, keys[..i])
    && saved == SaveAll(olds[..i], nest.threads, issued, cfg, ext, json)
    && ValuesAre(posts, saved.posts + olds[i..])
  }

  /** After the last pass of the loop of ExportPosts: every post is nested and saved, and the records hold the saved values. */
  lemma ExportEnd(posts: seq<Posts.PostRecord>, olds: seq<Posts.Post>, keys: seq<int>, start: Groups,
                  issued: set<string>, cfg: Config, ext: Foreign, json: JsonDump, nest: Nesting, saved: SavedAll)
    requires Progress(posts, |posts|, start, olds, keys, issued, cfg, ext, json, nest, saved)
    ensures nest == NestAll(start, keys) && saved == SaveAll(olds, nest.threads, issued, cfg, ext, json)
    ensures Values(posts) == saved.posts
  {
    SliceEnds(olds);
    SliceEnds(keys);
    AllSaved(posts, saved.posts, olds);
  }

  /** Once every record is saved, their values are the saved ones. */
  lemma AllSaved(posts: seq<Posts.PostRecord>, done: seq<Posts.Post>, olds: seq<Posts.Post>)
    requires |done| == |olds| && ValuesAre(posts, done + olds[|olds|..])
    ensures Values(posts) == done
  {
    assert done + olds[|olds|..] == done;
    ValuesAreValues(posts, done);
  }

  /** The records' keys, read from their values. */
  lemma KeysOfRecords(posts: seq<Posts.PostRecord>, olds: seq<Posts.Post>)
    requires (forall i :: 0 <= i < |posts| ==> IsDecimal(posts[i].id)) && olds == Values(posts)
    ensures (forall j :: 0 <= j < |olds| ==> IsDecimal(olds[j].id)) && |Keys(olds)| == |posts|
    ensures forall j :: 0 <= j < |posts| ==> Keys(olds)[j] == GroupKey(posts[j].id)
  {
    forall j | 0 <= j < |posts| ensures Keys(olds)[j] == GroupKey(posts[j].id) {
      KeysAt(olds, j);
    }
  }

  /** The i-th pass of the loop of ExportPosts, from the state the passes before it left. */
  method ExportStep(posts: seq<Posts.PostRecord>, i: nat, groups: Groups, registry: Slugs.SlugRegistry, cfg: Config,
                    ext: Foreign, json: JsonDump, ghost start: Groups, ghost olds: seq<Posts.Post>,
                    ghost keys: seq<int>, ghost issued: set<string>, ghost nest: Nesting, ghost saved: SavedAll)
    returns (groups': Groups, added: seq<OutputFile>, ghost nest': Nesting, ghost saved': SavedAll)
    requires DistinctRecords(posts)
    requires forall i :: 0 <= i < |posts| ==> IsDecimal(posts[i].id)
    requires !ext.isWord('-') && GroupsOk(start)
    requires forall i :: 0 <= i < |posts| && GroupKey(posts[i].id) in start.vals ==>
               ParentsPresent(start.vals[GroupKey(posts[i].id)])
    requires i < |posts| && Progress(posts, i, start, olds, keys, issued, cfg, ext, json, nest, saved)
    requires groups == nest.groups && registry.issued == saved.issued
    modifies posts[i], registry
    ensures Progress(posts, i + 1, start, olds, keys, issued, cfg, ext, json, nest', saved')
    ensures groups' == nest'.groups && saved'.files == saved.files + added && registry.issued == saved'.issued
    ensures ValuesAre(posts, saved'.posts + olds[i + 1..])
  {
    var key := GroupKey(posts[i].id);
    assert keys[i] == key;
    ghost var sel := SelectComments(groups, key);
    StepNext(start, olds, keys, issued, cfg, ext, json, i, nest, saved, sel,
             SavePostOf(olds[i], saved.issued, sel.threads, cfg, ext, json));
    ghost var w;
    groups', added, w := ExportPost(posts, i, groups, registry, cfg, ext, json, olds, saved.posts);
    nest' := Nesting(sel.groups, nest.threads + [sel.threads]);
    saved' := SavedAll(saved.posts + [w.post], w.issued, saved.files + w.files);
  }

  /** What one pass of the loop adds to the nesting and to what the passes before it saved. */
  lemma StepNext(start: Groups, olds: seq<Posts.Post>, keys: seq<int>, issued: set<string>, cfg: Config, ext: Foreign,
                 json: JsonDump, i: nat, nest: Nesting, saved: SavedAll, sel: Selection, w: Saved)
    requires !ext.isWord('-') && GroupsOk(start)
    requires i < |olds| == |keys|
    requires keys[i] in start.vals ==> ParentsPresent(start.vals[keys[i]])
    requires nest == NestAll(start, keys[..i])
    requires saved == SaveAll(olds[..i], nest.threads, issued, cfg, ext, json)
    requires sel == SelectComments(nest.groups, keys[i])
    requires w == SavePostOf(olds[i], saved.issued, sel.threads, cfg, ext, json)
    ensures keys[i] in nest.groups.vals ==> ParentsPresent(nest.groups.vals[keys[i]])
    ensures Nesting(sel.groups, nest.threads + [sel.threads]) == NestAll(start, keys[..i + 1])
    ensures SaveAll(olds[..i + 1], nest.threads + [sel.threads], issued, cfg, ext, json)
            == SavedAll(saved.posts + [w.post], w.issued, saved.files + w.files)
  {
    NestAllParents(start, keys[..i]);
    if keys[i] in nest.groups.vals {
      SameParentsPresent(nest.groups.vals[keys[i]], start.vals[keys[i]]);
    }
    TakeSnoc(keys, i);
    TakeSnoc(olds, i);
    NestAllSnoc(start, keys[..i], keys[i]);
    SaveAllSnoc(olds[..i], nest.threads, issued, cfg, ext, json, olds[i], sel.threads);
  }

  /** One more post is saved with the slugs the posts before it left. */
  lemma SaveAllSnoc(ps: seq<Posts.Post>, ths: seq<Option<seq<Thread>>>, issued: set<string>, cfg: Config,
                    ext: Foreign, json: JsonDump, p: Posts.Post, t: Option<seq<Thread>>)
    requires |ths| == |ps| && !ext.isWord('-')
    ensures var prev := SaveAll(ps, ths, issued, cfg, ext, json);
            var w := SavePostOf(p, prev.issued, t, cfg, ext, json);
            SaveAll(ps + [p], ths + [t], issued, cfg, ext, json) == SavedAll(prev.posts + [w.post], w.issued, prev.files + w.files)
  {
    assert (ps + [p])[..|ps|] == ps;
    assert (ths + [t])[..|ps|] == ths;
  }

  /**
   * `combine(all_posts, all_comments)`: the posts are distinct records, their
   * ids decimal, and the comments carry no replies yet; a post whose comment
   * group names a parent missing from it would stop the run.
   */
  method Combine(posts: seq<Posts.PostRecord>, comments: seq<Comment>, registry: Slugs.SlugRegistry, cfg: Config,
                 ext: Foreign, json: JsonDump)
    returns (files: seq<OutputFile>)
    requires forall i, j :: 0 <= i < j < |posts| ==> posts[i] != posts[j]
    requires forall i :: 0 <= i < |posts| ==> IsDecimal(posts[i].id)
    requires forall i :: 0 <= i < |comments| ==> comments[i].children == []
    requires !ext.isWord('-')
    requires forall i :: 0 <= i < |posts| && GroupKey(posts[i].id) in Grouped(comments).vals ==>
               ParentsPresent(Grouped(comments).vals[GroupKey(posts[i].id)])
    modifies posts, registry
    ensures GroupsOk(Grouped(comments))
    ensures var ths := NestAll(Grouped(comments), Keys(old(Values(posts)))).threads;
            var s := SaveAll(old(Values(posts)), ths, old(registry.issued), cfg, ext, json);
            Values(posts) == s.posts && files == s.files && registry.issued == s.issued
  {
    var groups := GroupCommentsByPost(comments);
    GroupedFresh(comments);
    DistinctPairs(posts);
    files := ExportPosts(posts, groups, registry, cfg, ext, json);
  }
}
