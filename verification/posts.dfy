/**
 * A post record as export.py handles it: `fix_user_links` and
 * `json_to_markdown` overwrite fields of the record, `json_to_html` fills the
 * HTML template from it.
 */
module Posts {
  import opened Util
  import TextTransform
  import Slugs

  /** The fields of a post record the exporter reads or writes; `tags` and `slug` are absent until the markdown export. */
  datatype Post = Post(
    id: string,
    date: string,
    subject: string,
    body: Option<string>,
    tags: Option<string>,
    slug: Option<string>)

  /** Python's truth value of the `body` field: present and not empty. */
  predicate HasText(body: Option<string>)
  {
    body.Some? && body.value != ""
  }

  /** `fix_user_links(json)` on a post: the subject always, the body when it is non-empty. */
  function FixPostLinks(p: Post): (r: Post)
    ensures r.(subject := p.subject, body := p.body) == p
    ensures !HasText(p.body) ==> r.body == p.body
  {
    p.(subject := TextTransform.FixUserLinks(p.subject),
       body := if HasText(p.body) then Some(TextTransform.FixUserLinks(p.body.value)) else p.body)
  }

  /** `json['subject'] or json['date']`. */
  function TitleOf(subject: string, date: string): string
  {
    if subject != "" then subject else date
  }

  const HtmlHead: string := "<!doctype html>\n<meta charset=\"utf-8\">\n<title>"
  const HtmlFoot: string := "\n</article>\n"

  /** The template of `json_to_html`. */
  function HtmlDocument(title: string, section: string): string
  {
    HtmlHead + title + "</title>\n<article>\n<h1>" + title + "</h1>\n" + section + HtmlFoot
  }

  /** The body section of `json_to_html`: breaks inserted before the newlines that do not follow a tag, or nothing for a null or empty body. */
  function HtmlSection(body: Option<string>): string
  {
    if HasText(body) then TextTransform.SubTagless(body.value, "<br>\n") else ""
  }

  /** `json_to_html(json)`. */
  function PostHtml(p: Post): string
  {
    HtmlDocument(TitleOf(p.subject, p.date), HtmlSection(p.body))
  }

  /** A step for PostHtmlLayout, not a property of its own: the template cut at the section's ends. */
  lemma HtmlParts(title: string, section: string)
    ensures var d := HtmlDocument(title, section);
            var head := HtmlHead + title + "</title>\n<article>\n<h1>" + title + "</h1>\n";
            |d| == |head| + |section| + |HtmlFoot| &&
            d[..|head|] == head && d[|head|..|head| + |section|] == section && d[|head| + |section|..] == HtmlFoot
  {
    var head := HtmlHead + title + "</title>\n<article>\n<h1>" + title + "</h1>\n";
    assert HtmlDocument(title, section) == head + section + HtmlFoot;
  }

  /**
   * The document of a post: title and heading carry the subject, or the date
   * when the subject is empty; the section is empty for a null or empty body,
   * and otherwise is the body with `<br>` before exactly the newlines that do
   * not follow a '>' (`TextTransform.SubTaglessAt` places each character;
   * four characters more per such newline, and none left).
   */
  lemma PostHtmlLayout(p: Post)
    ensures var t := if p.subject == "" then p.date else p.subject;
            var head := HtmlHead + t + "</title>\n<article>\n<h1>" + t + "</h1>\n";
            var d := PostHtml(p);
            |d| >= |head| + |HtmlFoot| && d[..|head|] == head && d[|d| - |HtmlFoot|..] == HtmlFoot &&
            var section := d[|head|..|d| - |HtmlFoot|];
            TextTransform.NoTagless(section) &&
            (!HasText(p.body) ==> section == "") &&
            (HasText(p.body) ==> section == TextTransform.SubTagless(p.body.value, "<br>\n")) &&
            (HasText(p.body) ==> |section| == |p.body.value| + 4 * TextTransform.TaglessCount(p.body.value)) &&
            (HasText(p.body) && TextTransform.NoTagless(p.body.value) ==> section == p.body.value)
  {
    var t := TitleOf(p.subject, p.date);
    var section := HtmlSection(p.body);
    HtmlParts(t, section);
    if HasText(p.body) {
      var b := p.body.value;
      assert TextTransform.BreakMarkup("<br>\n") by {
        var rep := "<br>\n";
        forall j | 0 <= j < |rep| && rep[j] == '\n' ensures j > 0 && rep[j - 1] == '>' {
          assert j == 4;
        }
      }
      TextTransform.SubTaglessLeavesNone(b, "<br>\n");
      TextTransform.SubTaglessLength(b, "<br>\n");
      if TextTransform.NoTagless(b) {
        TextTransform.SubTaglessIdentity(b, "<br>\n");
      }
    }
  }

  /** `len(tags) and '\ntags: {0}'.format(', '.join(tags)) or ''`. */
  function TagLine(tags: seq<string>): (r: string)
    ensures |tags| == 0 <==> r == ""
  {
    if |tags| == 0 then "" else "\ntags: " + Join(", ", tags)
  }

  /** Lines 72-81 of `json_to_markdown`: the body as markdown, runs of blank lines collapsed, tag markers still in. */
  function MarkdownBody(body: Option<string>, ext: Foreign): string
  {
    var b := if HasText(body) then TextTransform.SubTagless(body.value, "<br>") else "";
    TextTransform.CollapseBlankLines(ext.html2text(b))
  }

  /** The template of `json_to_markdown`, filled from the record as it stands at the end. */
  function MarkdownDocument(p: Post): string
    requires p.tags.Some? && p.slug.Some? && p.body.Some?
  {
    "id: " + p.id + "\ntitle: " + p.subject + "\nslug: " + p.slug.value + "\ndate: " + p.date + p.tags.value
    + "\n\n" + p.body.value + "\n"
  }

  /** What `json_to_markdown` leaves behind: the updated record, the document, and the registry's slugs. */
  datatype MarkdownResult = MarkdownResult(post: Post, doc: string, issued: set<string>)

  /**
   * `json_to_markdown(json)` given the slugs issued so far. The slug is taken
   * from the subject before the subject falls back to the date.
   */
  function MarkdownOf(p: Post, issued: set<string>, ext: Foreign): (r: MarkdownResult)
    requires !ext.isWord('-')
    ensures r.post.id == p.id && r.post.date == p.date
    ensures r.post.tags.Some? && r.post.slug.Some? && r.post.body.Some?
    ensures r.doc == MarkdownDocument(r.post)
    ensures r.issued == issued + {r.post.slug.value}
  {
    var mb := MarkdownBody(p.body, ext);
    var slug := Slugs.NextSlug(issued, Slugs.CleanSlug(p.subject, p.id, ext), p.id);
    var q := p.(tags := Some(TagLine(TextTransform.FindTags(mb))),
                body := Some(Strip(TextTransform.RemoveTags(mb))),
                slug := Some(slug),
                subject := TitleOf(p.subject, p.date));
    MarkdownResult(q, MarkdownDocument(q), issued + {slug})
  }

  /**
   * A post without a subject gets a slug made from its id (then suffixed if
   * taken), not from its date, and is titled with its date.
   */
  lemma EmptySubjectMarkdown(p: Post, issued: set<string>, ext: Foreign)
    requires !ext.isWord('-') && p.subject == ""
    ensures var r := MarkdownOf(p, issued, ext);
            r.post.subject == p.date &&
            r.post.slug == Some(Slugs.NextSlug(issued, Slugs.CleanSlug(p.id, p.id, ext), p.id))
  {
    Slugs.EmptySubjectUsesId(p.id, ext);
  }

  /**
   * When the converted body is a run of texts each followed by a tag marker,
   * then a tail: the tag line lists the markers' captions in order, and the
   * body keeps exactly the texts and the tail, stripped.
   */
  lemma MarkdownTags(p: Post, issued: set<string>, ext: Foreign, ps: seq<TextTransform.Tagged>, tail: string)
    requires !ext.isWord('-')
    requires TextTransform.ValidPieces(ps) && TextTransform.OpenFree(tail)
    requires MarkdownBody(p.body, ext) == TextTransform.Compose(ps, tail)
    ensures var r := MarkdownOf(p, issued, ext);
            r.post.tags == Some(if |ps| == 0 then "" else "\ntags: " + Join(", ", TextTransform.Captions(ps))) &&
            r.post.body == Some(Strip(TextTransform.Texts(ps) + tail))
  {
    TextTransform.FindTagsRoundTrip(ps, tail);
    TextTransform.RemoveTagsRoundTrip(ps, tail);
    CaptionsLength(ps);
  }

  lemma {:induction false} CaptionsLength(ps: seq<TextTransform.Tagged>)
    ensures |TextTransform.Captions(ps)| == |ps|
  {
    if |ps| > 0 {
      CaptionsLength(ps[1..]);
    }
  }

  lemma HoldsValue(r: PostRecord, p: Post)
    ensures r.Holds(p) <==> r.Value() == p
  {
  }

  /** A post dict of the export run. `id` and `date` are never written. */
  class PostRecord {
    const id: string
    const date: string
    var subject: string
    var body: Option<string>
    var tags: Option<string>
    var slug: Option<string>

    function Value(): Post
      reads this
    {
      Post(id, date, subject, body, tags, slug)
    }

    /** The record holds exactly the fields of p. */
    predicate Holds(p: Post)
      reads this
    {
      id == p.id && date == p.date && subject == p.subject && body == p.body && tags == p.tags && slug == p.slug
    }

    /** A record as loaded: no tags and no slug yet. */
    constructor (id: string, date: string, subject: string, body: Option<string>)
      ensures Value() == Post(id, date, subject, body, None, None)
    {
      this.id := id;
      this.date := date;
      this.subject := subject;
      this.body := body;
      tags := None;
      slug := None;
    }

    /** `fix_user_links(json_post)`. */
    method FixUserLinks()
      modifies this
      ensures Value() == FixPostLinks(old(Value()))
    {
      subject := TextTransform.FixUserLinks(subject);
      if body.Some? && body.value != "" {
        body := Some(TextTransform.FixUserLinks(body.value));
      }
    }

    /** `json_to_markdown(json_post)`, with the run's slug registry. */
    method ToMarkdown(registry: Slugs.SlugRegistry, ext: Foreign) returns (doc: string)
      requires !ext.isWord('-')
      modifies this, registry
      ensures var r := MarkdownOf(old(Value()), old(registry.issued), ext);
              Value() == r.post && doc == r.doc && registry.issued == r.issued
    {
      var b := if body.Some? && body.value != "" then TextTransform.SubTagless(body.value, "<br>") else "";
      b := ext.html2text(b);
      b := TextTransform.CollapseBlankLines(b);
      var t := TagLine(TextTransform.FindTags(b));
      var stripped := Strip(TextTransform.RemoveTags(b));
      // get_slug reads only the subject and the id, so taking the slug before
      // the tags and body fields are written changes nothing.
      var s := registry.GetSlug(subject, id, ext);
      tags, body, slug := Some(t), Some(stripped), Some(s);
      subject := TitleOf(subject, date);
      doc := MarkdownDocument(Value());
    }
  }
}
