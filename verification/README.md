# A verified model of the LiveJournal exporter

This project models `export.py` of a LiveJournal backup tool in Dafny. The tool
takes the flat post and comment records a downloader fetched and writes each
post out as JSON, HTML and markdown, with its comment thread rendered as
nested HTML lists. The model covers:

- **Text transforms** (module `TextTransform`): the `USER`, `TAGLESS_NEWLINES`,
  `TAG` and `NEWLINES` regular expressions, written out as scanners. They model
  `fix_user_links`, the `<br>` insertion, the tag markers of the tagging
  service, and the collapsing of blank lines.
- **Slugs** (module `Slugs`): `get_slug` and the run-wide `SLUGS` registry, as
  the class `SlugRegistry` whose method `GetSlug` updates the set of issued slugs.
- **Comment grouping and nesting** (module `CommentTree`):
  - `group_comments_by_post` and `nest_comments` are methods with loops.
  - Python's insertion-ordered dicts are a `Dict` value (keys in order, plus a map).
  - A `children` list holds the ids of the replies, so a child always denotes
    the group's current record, as the shared dict references do in Python.
  - The threads a renderer walks are unfolded from the top-level comments.
- **Rendering** (module `Render`): `comment_to_li` and `comments_to_html`,
  including Python's stable `sorted` by id.
- **Post documents** (module `Posts`):
  - `json_to_html` and `json_to_markdown` as functions.
  - The post dict as the class `PostRecord`, whose methods `FixUserLinks` and
    `ToMarkdown` overwrite its fields in place.
- **The export loop** (module `Export`): `combine` as a method over the
  post records, proved to agree with the function `SaveAll` over the
  post values. The files it writes are returned as a list of (path, content)
  pairs in the order they are written.

Behaviour of the program that the model follows:

- **Slug uniqueness.** Slugs are not unique. The suffixed slug is never looked
  up again, so two posts can get the same slug (`Slugs.SlugsCanRepeat`).
- **Missing parents.** A `parentid` that names no comment of the group is not
  dropped: the lookup at export.py:126 raises. The model makes this a
  precondition.
- **Cycles.** A cycle of `parentid` links does not make the renderers loop.
  Rendering starts from the top-level comments, and no comment on a cycle, or
  below one, can be reached from them, so such comments are simply not shown
  (`CommentTree.NestedForestComplete`).
- **Blank lines.** A run of blank lines with three or more newlines becomes
  two newlines (one empty line) followed by the spaces after the run's last
  newline, as `NEWLINES.sub('\n\n', …)` does.

## Model

| member | source | states |
|---|---|---|
| Util.StripLeft | export.py:88 | `lstrip` drops exactly the leading whitespace: the result is a suffix, every dropped character is whitespace, and the result does not start with whitespace |
| Util.StripRight | export.py:88 | `rstrip` drops exactly the trailing whitespace: the result is a prefix, every dropped character is whitespace, and the result does not end with whitespace |
| Util.Strip | export.py:88 | `strip()` gives a text no longer than its input that neither starts nor ends with whitespace |
| Util.StripEmpty | export.py:88 | `strip()` gives the empty string exactly when the text is all whitespace |
| Util.DecimalRoundTrip | export.py:193 | `int(str(n)) == n`: a printed natural number is a decimal string that parses back to itself |
| TextTransform.MentionAt | export.py:17 | a `USER` match at the start of a text is longer than the `<lj user=` opening, and is longer than the user name it captures |
| TextTransform.FixUserLinks | export.py:27-30 | models `USER.sub(r'\1', …)` as a left-to-right scan; its contract: the rewrite never lengthens the text, since each tag is replaced by a part of itself (what it does to mentions and to plain text is stated by the lemmas below) |
| TextTransform.FixUserLinksPlain | export.py:27 | text containing no `<` is copied unchanged in front of the rewrite of the rest |
| TextTransform.FixUserLinksNoTag | export.py:27 | a text without `<` is left exactly as it is |
| TextTransform.QuotedMentionFixed | export.py:17 | `<lj user="u">` is replaced by the bare name `u`, for a name without quote, `>` or newline |
| TextTransform.BareMentionFixed | export.py:17 | `<lj user=u>` is replaced by the bare name `u` |
| TextTransform.SubTagless | export.py:18 | models `TAGLESS_NEWLINES.sub(rep, …)` as used at export.py:35, 73 and 139; it has no contract of its own, and the four `SubTagless…` lemmas below state its effect |
| TextTransform.SubTaglessLength | export.py:18 | replacing each newline not preceded by `>` grows the text by `len(rep) - 1` per such newline, and by nothing else |
| TextTransform.SubTaglessIdentity | export.py:18 | a text whose every newline follows a `>` is unchanged |
| TextTransform.SubTaglessLeavesNone | export.py:18 | after the rewrite with `<br>\n` or `<br>`, no newline is left that does not follow a `>` |
| TextTransform.SubTaglessIdempotent | export.py:18 | applying the `<br>` rewrite twice gives the same text as applying it once |
| TextTransform.SubTaglessPrefix | export.py:18 | the rewrite of a prefix of the text is a prefix of the rewrite of the whole text |
| TextTransform.SubTaglessAt | export.py:18 | character by character: the i-th character appears at offset i + (len(rep) - 1) × (the number of tagless newlines before it), as `rep` when it is a newline not preceded by `>` in the original text, and as itself otherwise |
| TextTransform.FindTags | export.py:84 | models `TAG.findall`; its contract: at most one caption per character of the text (the captions it reports are stated by the lemmas below) |
| TextTransform.RemoveTags | export.py:88 | models `TAG.sub('', …)`; its contract: the result is never longer than the text |
| TextTransform.FindOnLine | export.py:16 | a lazy `.*?` followed by a literal stops at a position where the literal occurs |
| TextTransform.ImageLinkAt | export.py:16 | a match of the part of `TAG` after the caption takes at least one character and stays within the text |
| TextTransform.CaptionEnd | export.py:16 | the lazy caption `(.*?)` ends inside the text, before the end of the whole match |
| TextTransform.TagAt | export.py:16 | a `TAG` match at the start of a text has positive length within the text |
| TextTransform.TagAtMarker | export.py:16 | a well-formed marker `[![caption](http://utx.ambience.ru/img/…)](…)` is matched whole, and its caption is read back exactly |
| TextTransform.TagsMarker | export.py:84-88 | `findall` reports a leading marker's caption and continues after it; `sub` drops the marker |
| TextTransform.ServiceMarker | export.py:84-88 | the same holds for a marker spelled with the service's own host name |
| TextTransform.TagsPlain | export.py:84-88 | a text a in which no `[` is followed by `!`, put before a text b so that no `[![` spans the join, is skipped by `findall` and kept by `sub`: the tags of a + b are those of b, and `sub` leaves a in front of b's result |
| TextTransform.OpenFreeNoTags | export.py:84-88 | a text in which no `[` is followed by `!` has no tags, and `sub` leaves it unchanged |
| TextTransform.FindTagsRoundTrip | export.py:84 | a body made of N texts, each followed by a marker, then a tail, where no `[` in a text or the tail is followed by `!`, yields exactly the N captions, in order and with repeats |
| TextTransform.RemoveTagsRoundTrip | export.py:88 | removing the markers from such a body leaves exactly the texts and the tail, concatenated |
| TextTransform.NoTagsAfterRemoval | export.py:84-88 | when moreover no text ends in `[`, no marker is left to find after the markers are removed |
| TextTransform.RemovalCanMakeTag | export.py:84-88 | without that proviso, removal can create a marker: the text `x[`, a marker, then `![b` and the rest of a marker leave a marker with caption `b` |
| TextTransform.LinkThenMarker | export.py:84-88 | an ordinary markdown link `[here](u)` before a marker is kept by `sub`, and `findall` reports only the marker's caption |
| TextTransform.CollapseBlankLines | export.py:81 | models `NEWLINES.sub('\n\n', …)` as a left-to-right scan; it has no contract of its own, and `CopyRun`, `CollapseRun`, `CollapseCalm` and `CollapseIdempotent` below state its effect |
| TextTransform.SpaceRun | export.py:19 | the `\s*` run at the start is all whitespace and is followed by a non-space character or the end |
| TextTransform.AfterLastNewline | export.py:19 | the position found is just after the last newline of the run, with no newline beyond it |
| TextTransform.BlankLinesAt | export.py:19 | a `NEWLINES` match at the start of a text has positive length within the text |
| TextTransform.BlankLinesAtRun | export.py:19 | at a whitespace run followed by solid text, `(\s*\n){3,}` matches exactly when the run holds at least three newlines, and ends just after the last one |
| TextTransform.CopyRun | export.py:81 | a whitespace run with fewer than three newlines is copied as it is |
| TextTransform.CollapseRun | export.py:81 | a whitespace run with three or more newlines becomes `\n\n` followed by the spaces after its last newline |
| TextTransform.CalmUnchanged | export.py:81 | a text in which `NEWLINES` matches nowhere is unchanged |
| TextTransform.CollapseCalm | export.py:81 | after the rewrite, `NEWLINES` matches nowhere |
| TextTransform.CollapseIdempotent | export.py:81 | collapsing blank lines twice gives the same text as collapsing them once |
| Slugs.SlugSource | export.py:53-57 | models the subject, or the id for an empty subject, passed through the HTML-to-text step when it holds `<` or `&`; it has no contract of its own, and `Slugs.EmptySubjectUsesId` states the fallback |
| Slugs.NonWordRun | export.py:60 | the run found is made of non-word characters only, and is followed by a word character or the end |
| Slugs.Hyphenate | export.py:60 | `\W+` → `-` leaves only word characters and single hyphens; the result is empty exactly when the input is; it starts with a hyphen exactly when the input starts with a non-word character |
| Slugs.HyphenateKeepsWords | export.py:60 | hyphenation keeps the word characters, in order |
| Slugs.HyphenateHyphenated | export.py:60 | a text that is already hyphenated is unchanged by hyphenation |
| Slugs.TrimHyphens | export.py:61 | models `^-\|-$` → ``; it has no contract of its own, and `Slugs.TrimHyphensClean` states its effect on a hyphenated text |
| Slugs.TrimHyphensClean | export.py:61 | removing `^-` and `-$` from a hyphenated text leaves no hyphen at either end |
| Slugs.CleanSlug | export.py:53-61 | models the slug before the registry is consulted; it has no contract of its own, and the two lemmas below state its properties |
| Slugs.CleanSlugIsClean | export.py:53-61 | whatever the subject, the cleaned slug has only word characters and single hyphens, and does not start or end with a hyphen |
| Slugs.EmptySubjectUsesId | export.py:53-55 | an empty subject gives the same slug as the post id used as the subject |
| Slugs.CleanSlugIdempotent | export.py:53-61 | a non-empty clean slug, used as a subject, gives itself back |
| Slugs.NextSlug | export.py:63-64 | an unregistered slug is returned unchanged; a registered one becomes `slug-id`, or just the id when the slug is empty |
| Slugs.SlugRegistry.constructor | export.py:21 | the registry starts empty |
| Slugs.SlugRegistry.GetSlug | export.py:52-68 | returns the next slug for the cleaned subject, and the registry becomes the old registry plus the returned slug |
| Slugs.SlugsCanRepeat | export.py:63-66 | the slugs "a" (id 1), "a-2" (id 3), "a" (id 2) are issued as "a", "a-2" and "a-2": the suffixed slug is never checked again |
| CommentTree.Put | export.py:112 | `d[k] = v` stores v under k; an existing key keeps its place, a new key goes last |
| CommentTree.PutTwice | export.py:112 | storing twice under a new key is the same as storing the second value |
| CommentTree.FixCommentLinks | export.py:24-30 | `fix_user_links` on a comment changes only the subject and the body; a missing field stays missing, and an empty body stays as it is |
| CommentTree.AddComment | export.py:106-112 | one turn of the grouping loop keeps every dict well formed |
| CommentTree.Grouped | export.py:102-114 | the value `group_comments_by_post` returns, one comment after the other; its contract: every dict in it is well formed (its key list has no repeats and holds exactly the keys of its map); its contents are stated by the `Grouped…` lemmas below |
| CommentTree.GroupCommentsByPost | export.py:102-114 | the loop computes the grouping of the comments, one after the other |
| CommentTree.AddCommentSteps | export.py:108-112 | the three statements of one loop turn (create the post's dict if it is missing, look it up, store the comment) make up one grouping step |
| CommentTree.GroupedLastWins | export.py:112 | under every post and id the grouping holds the last input comment with that post and id, and nothing when there is none |
| CommentTree.GroupedComplete | export.py:105-112 | every input comment is found at `result[c.jitemid][c.id]` |
| CommentTree.GroupedEntries | export.py:105-112 | every entry under post k has `jitemid == k`, is filed under its own id, and is an input comment |
| CommentTree.GroupedPosts | export.py:108-109 | the keys of the result are exactly the jitemids of the input |
| CommentTree.GroupedIds | export.py:105-112 | the ids under post k are exactly the ids of the comments for k |
| CommentTree.GroupedPostOrder | export.py:108-109 | the posts are ordered by their first comment; a later comment does not move its post |
| CommentTree.GroupedIdOrder | export.py:112 | within a post, the ids are ordered by their first comment; a later duplicate replaces the record but keeps its place |
| CommentTree.TopLevel | export.py:123-124 | the ids collected on the top level are exactly those whose record has no `parentid` |
| CommentTree.RepliesTo | export.py:125-126 | the ids appended to p's children are exactly those whose `parentid` is p |
| CommentTree.NestedGroup | export.py:117-128 | nesting keeps the group's keys, and their order |
| CommentTree.NestStep | export.py:120-126 | one loop turn fixes the record's links, then appends it to the top level or to its parent's children, and takes the state for the ids visited so far to the state for one more id |
| CommentTree.NestComments | export.py:117-128 | the loop returns the top-level ids in group order, and leaves every record fixed and holding its replies in group order |
| CommentTree.NestPlacesOnce | export.py:123-126 | every comment lands in exactly one place: once on the top level if it has no `parentid`, else once among its parent's children |
| CommentTree.NestCount | export.py:120-126 | the number of top-level comments plus the number of replies appended equals the size of the group |
| CommentTree.NestedLinks | export.py:126 | after nesting, each child list holds only replies to its holder, and each reply is listed once by its parent |
| CommentTree.NestedParents | export.py:121 | nesting changes no `parentid` |
| CommentTree.CountInThread | export.py:141-142 | walking `children` from a comment reaches a comment below it once, through its ancestor at that depth, and reaches no other comment |
| CommentTree.UnrootedInNoThread | export.py:141-142 | a comment whose chain of parents never ends is reached from no thread |
| CommentTree.CountInForest | export.py:141-142 | in the forest of the top-level comments, a comment occurs as often as its top-level ancestor does |
| CommentTree.NestedForestComplete | export.py:117-128 | for a freshly grouped post, the rendered trees reach every comment with a finite chain of parents exactly once, and never reach the other comments |
| CommentTree.NestedForestExact | export.py:117-128 | when every comment hangs below a top-level one, the trees hold each comment of the group exactly once |
| Render.SortById | export.py:149 | `sorted(…, key=itemgetter('id'))` is ordered by id, is a permutation of its input, and keeps tied ids in input order |
| Render.InsertSorted | export.py:149 | inserting a thread into a sorted list keeps it sorted and adds exactly that thread |
| Render.SortedUnique | export.py:149 | two id-sorted lists with the same order among ties are equal, so the stable sort has a single result |
| Render.HtmlTiesOnly | export.py:148-149 | the rendering depends on the sibling order only among comments with equal ids |
| Render.CommentsToHtml | export.py:148-149 | models `comments_to_html`: the renderings of the threads sorted by id, joined inside `<ul>`; it has no contract of its own, and `ItemsAt`, `ItemShown`, `AnchorsShown` and `HtmlTiesOnly` state what it shows |
| Render.Heading | export.py:135 | models the `<h3>` heading: the author, `anonym` when there is none, and the subject, empty when there is none; `Render.LiShows` states that the rendering contains it |
| Render.Anchor | export.py:136 | models the `comment-{id}` anchor; `Render.AnchorShown` states which comments have it shown |
| Render.CommentToLi | export.py:131-145 | a comment renders as the empty string exactly when its state is `D`, whatever its replies |
| Render.LiParts | export.py:135-145 | a step for the two lemmas below, unfolding the template: a comment that is not deleted renders as the opening tag, the heading, the anchor, the body, the replies when it has any, and `\n</li>` |
| Render.LiShows | export.py:135-145 | that rendering starts with `<li class=subject>` when the comment has a subject and with `<li>` when it has none, and contains its heading and its `comment-{id}` anchor |
| Render.OpenTag | export.py:135 | a text that starts with a comment's opening tag starts with `<li class=subject>` exactly when the comment has a subject, and with `<li>` otherwise |
| Render.ReplyShown | export.py:141-142 | each reply of a comment that is not deleted is rendered inside the comment's rendering |
| Render.ItemsAt | export.py:149 | the i-th item of the `map` is the rendering of the i-th sorted thread |
| Render.ItemShown | export.py:149 | the rendering of each sibling appears in the `<ul>` of its siblings |
| Render.AnchorShown | export.py:136-142 | every comment reached without passing a deleted comment has its anchor in the rendering |
| Render.AnchorsShown | export.py:148-149 | the same holds for a list of threads rendered as one `<ul>` |
| Posts.FixPostLinks | export.py:24-30 | `fix_user_links` on a post changes only the subject and the body, and leaves a null or empty body as it is |
| Posts.PostHtml | export.py:33-49 | models `json_to_html`; it has no contract of its own, and `Posts.PostHtmlLayout` states the document's layout |
| Posts.HtmlDocument | export.py:39-49 | the template of `json_to_html`; `Posts.HtmlParts` cuts it at the section |
| Posts.HtmlParts | export.py:39-49 | a step for `PostHtmlLayout`: the HTML document is the head with the title twice, then the section, then the closing lines |
| Posts.PostHtmlLayout | export.py:33-49 | the title and `<h1>` use the subject, or the date when the subject is empty; a null or empty body gives an empty section; otherwise the section is the `<br>\n` rewrite of the body (`SubTaglessAt` places each character: `<br>` goes before exactly the newlines not preceded by `>`), four characters longer per such newline, with no such newline left |
| Posts.TagLine | export.py:85 | the tag line is empty exactly when there are no tags |
| Posts.MarkdownDocument | export.py:93-99 | the template of `json_to_markdown`; `Posts.MarkdownOf` states that it is filled from the updated record |
| Posts.MarkdownOf | export.py:71-99 | `json_to_markdown` keeps the id and date, sets the tags, body and slug, writes the document from the updated record, and registers the slug |
| Posts.EmptySubjectMarkdown | export.py:90-91 | a post without a subject gets its slug from its id, because the slug is taken before the subject falls back to the date, and the post is titled with its date |
| Posts.MarkdownTags | export.py:84-88 | for a converted body of texts and markers, where no `[` in a text or the tail is followed by `!`, the tag line lists the captions in order (`\ntags: ` and `, `), and the body keeps exactly the texts, stripped |
| Posts.PostRecord.FixUserLinks | export.py:24-30 | the record's fields become those of `FixPostLinks` of its old value |
| Posts.PostRecord.ToMarkdown | export.py:71-99 | the record, the returned document and the registry become what `MarkdownOf` gives for the old record and registry |
| Export.GroupKey | export.py:193 | models `int(id) >> 8` on a decimal id; `Export.GroupKeyOfItem` states that it recovers the jitemid |
| Export.GroupKeyOfItem | export.py:193 | for an item id `jitemid * 256 + anum`, `int(id) >> 8` recovers the jitemid |
| Export.SelectComments | export.py:198 | a missing group gives `None`; a present group is nested where it is stored, and gives `None` exactly when it has no top-level comment |
| Export.SelectedIff | export.py:198 | a post gets threads exactly when its group is present and holds a comment without a parent |
| Export.CommentsHtmlEmpty | export.py:199 | the comments HTML is empty exactly when there are no threads |
| Export.PostFiles | export.py:203-213 | one file per enabled format, plus the comments page when markdown is on and the comments HTML is not empty |
| Export.PostFilesLayout | export.py:203-213 | the JSON file, the HTML page, the markdown document and the comments page are written in this order, at their paths |
| Export.SavePostOf | export.py:195-213 | with markdown on, the post gets a slug and the registry grows by it; with markdown off, the registry is untouched and the post only has its links fixed |
| Export.CommentsPage | export.py:210-213 | with markdown on, a comments page named after the post's slug is written last exactly when the post has threads |
| Export.HtmlPage | export.py:206-208 | with HTML on, the page is the post's `json_to_html` document followed by `\n<h2>Comments</h2>\n` and the threads, or the bare document when there are no threads |
| Export.NestAll | export.py:191-198 | selecting the comments post after post keeps every group well formed and the set of group keys, and yields one selection per post |
| Export.NestAllAt | export.py:198 | the threads of the i-th post are selected from the groups the posts before it left |
| Export.UntouchedGroup | export.py:198 | a group is nested only by a post whose key names it |
| Export.FirstNesting | export.py:189-198 | the first post whose key names a fresh group shows each rooted comment of the group once and no other comment, and shows threads exactly when the group has a top-level comment |
| Export.SaveAll | export.py:191-213 | the posts, the registry and the files after saving post after post; its contract: one saved post per input post (`MarkdownSlugs`, `PlainPosts` and `ExportPosts` state the rest) |
| Export.MarkdownSlugs | export.py:210-213 | with markdown on, every saved post has a slug, and the registry grows by exactly the slugs of the posts |
| Export.PlainPosts | export.py:201-208 | with markdown off, the registry is untouched and each post only has its user links fixed |
| Export.NestPostComments | export.py:198 | the method nests the post's group in place and returns the threads `SelectComments` describes |
| Export.SavePost | export.py:195-213 | the record, the registry and the files written are those `SavePostOf` gives for the old record and registry |
| Export.ExportPost | export.py:192-213 | one pass nests the post's group, saves the post as `SavePostOf` says, and changes no other record |
| Export.ExportStep | export.py:191-213 | after i + 1 passes, the groups, records, registry and files are those of `NestAll` and `SaveAll` over the first i + 1 posts |
| Export.ExportPosts | export.py:191-213 | the loop leaves the records, the registry and the files as `SaveAll` gives them for the posts' old values, with the threads `NestAll` selects |
| Export.Combine | export.py:187-213 | `combine` groups the comments, then leaves the records, the registry and the files as `SaveAll` and `NestAll` give them |

## Left out

- File I/O: `save_as_json`, `save_as_markdown` and `save_as_html` are modelled as the list of (path, content) pairs written. The `os.makedirs` calls, `load_from_json` and the `__main__` block (config, login) are not modelled.
- `json.dumps` is a function parameter (`JsonDump`): the JSON text is not modelled.
- BeautifulSoup's `.text`, `markdown.markdown`, `html2text`, `re`'s `\w` class and `datetime.strptime` are parameters (`Util.Foreign`). Their behaviour is not modelled; the model only assumes that `-` is not a word character. The ValueError `strptime` raises at export.py:195 on a date not in `%Y-%m-%d %H:%M:%S` form is not modelled either.
- `\s` is the character set of Python's `str.isspace`. Strings are sequences of characters; encodings are not modelled.
- `auth.py` and `livejournaldl.py` (network, XML parsing, pacing) are not part of this model. Only the shape of the comment record they build is used.
- `Export.Combine`: post ids are restricted to strings of ASCII digits, as the service issues them. The other strings `int()` accepts (surrounding whitespace, a sign, underscores between digits, other Unicode decimal digits) are not modelled, and neither is the ValueError it raises on the rest.
- `Export.Combine`: a comment whose `parentid` names no comment of its post's group makes line 126 raise. This is a precondition.
- `Export.Combine`: the same post dict listed twice in `all_posts` (aliasing between list entries) is excluded by a precondition.
- `Export.Combine`: the comments must come as the downloader builds them, with empty `children`. Comments handed in already nested are not modelled.
- `SLUGS` is a global dict in the program. Here it is a `SlugRegistry` object passed to the operations that use it, and only its key set is kept (every value is `True`).
- Posts always have a `subject` and a `date`, as the downloader writes them. The program's `'subject' in json` test for a post is therefore always true here.
- CommentTree.Comment: a subject or body that is present but null (`elements[0].text` of an empty element, livejournaldl.py:202) cannot be represented. On such a comment `fix_user_links`, reached from nesting, raises at export.py:28 (`USER.sub` on `None`), and `comment_to_li` raises at export.py:139 for a comment that is not deleted and has a null body. Neither raise is modelled.
- TextTransform.FindTagsRoundTrip: proved for texts around the markers in which no `[` is followed by `!`. Ordinary links and images are covered; a linked image `[![alt](src)](link)` inside such a text is not, because `TAG`'s lazy caption can run from its `[![` to a later marker.
- TextTransform.RemoveTagsRoundTrip: the same restriction as `FindTagsRoundTrip`.
- TextTransform.NoTagsAfterRemoval: the same restriction, and no text may end in `[` (`TextTransform.RemovalCanMakeTag` shows why).
- Posts.MarkdownTags: the same restriction as `FindTagsRoundTrip`.
