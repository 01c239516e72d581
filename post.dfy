// The page and the index record that `write_post` produces for one feed item.
// The date is a parameter (the generator reads the UTC clock), and writing the
// page to disk is left to the caller: the model returns the file name and text.

module PostRenderer {
  import opened Text
  import opened Slug

  const PostsDir := "posts/"
  const HtmlExtension := ".html"
  /** The index keeps at most this many characters of a summary. */
  const RecordSummaryLength := 180

  /** The record appended to `posts/index.json`. */
  datatype PostRecord = PostRecord(path: string, title: string, summary: string, date: string, lang: string)

  /** What one call produces: the page's file name inside `posts/`, the page, and the record. */
  datatype Rendered = Rendered(fileName: string, html: string, record: PostRecord)

  /** The strings of the page that depend on the feed's language. */
  datatype Copy = Copy(htmlLang: string, dir: string, home: string, source: string, note: string)

  const ArabicCopy := Copy("ar", "rtl", "الرئيسية", "المصدر", "هذه المادة تلخيص تحويلي مع رابط للمصدر")
  const EnglishCopy := Copy("en", "ltr", "Home", "Source", "Transformative summary with a source link.")

  /** Only the exact code `ar` selects the Arabic, right-to-left page. */
  function CopyFor(lang: string): (c: Copy)
    ensures c == ArabicCopy <==> lang == "ar"
    ensures c == EnglishCopy <==> lang != "ar"
  {
    if lang == "ar" then ArabicCopy else EnglishCopy
  }

  /** The language tag stored in the record. */
  function LangTag(lang: string): (t: string)
    ensures t == "AR" <==> lang == "ar"
    ensures t == "EN" <==> lang != "ar"
  {
    if lang == "ar" then "AR" else "EN"
  }

  const Doctype := "<!DOCTYPE html>\n"
  const LangAttribute := "<html lang=\""

  /** The opening `<html>` element, which carries the language and direction. */
  function HtmlOpen(c: Copy): (r: string)
    ensures StartsWith(r, LangAttribute + c.htmlLang + "\"") && EndsWith(r, "\"" + c.dir + "\">")
  {
    AffixSlices(LangAttribute + c.htmlLang + "\"", " dir=", "\"" + c.dir + "\">");
    "<html lang=\"" + c.htmlLang + "\" dir=\"" + c.dir + "\">"
  }

  /** A value the page template shows. */
  datatype Field = Title | Summary | SourceUrl | Date | HomeLabel | SourceLabel | Note

  /** A piece of the template: fixed text, or a hole for a value. */
  datatype Segment = Text(s: string) | Hole(f: Field)

  /** The values that fill the holes. */
  datatype PageValues = PageValues(title: string, summary: string, sourceUrl: string, date: string, copy: Copy)

  /** The page after the opening `<html>` element, hole by hole. */
  const BodyTemplate: seq<Segment> := [
    Text("\n<head>\n  <meta charset=\"utf-8\" />\n"
      + "  <meta name=\"viewport\" content=\"width=device-width,initial-scale=1\" />\n  <title>"),
    Hole(Title),
    Text("</title>\n  <link rel=\"stylesheet\" href=\"../assets/style.css\" />\n"
      + "  <meta name=\"robots\" content=\"index,follow\" />\n</head>\n<body>\n"
      + "  <main class=\"container\">\n    <a href=\"../index.html\">↩ "),
    Hole(HomeLabel),
    Text("</a>\n    <article class=\"card\" style=\"margin-top:12px\">\n      <div class=\"meta\">"),
    Hole(Date),
    Text("</div>\n      <h1>"),
    Hole(Title),
    Text("</h1>\n      <p>"),
    Hole(Summary),
    Text("</p>\n      <p>"),
    Hole(SourceLabel),
    Text(": <a href=\""),
    Hole(SourceUrl),
    Text("\" rel=\"nofollow noopener\" target=\"_blank\">"),
    Hole(SourceUrl),
    Text("</a></p>\n      <p class=\"muted\">"),
    Hole(Note),
    Text("</p>\n    </article>\n  </main>\n</body>\n</html>")
  ]

  /** The value a hole takes, inserted as it is (no escaping). */
  function Fill(f: Field, v: PageValues): string {
    match f
    case Title => v.title
    case Summary => v.summary
    case SourceUrl => v.sourceUrl
    case Date => v.date
    case HomeLabel => v.copy.home
    case SourceLabel => v.copy.source
    case Note => v.copy.note
  }

  /** Fills every hole of a template in order. */
  function Render(t: seq<Segment>, v: PageValues): (r: string)
    ensures |t| == 1 && t[0].Text? ==> r == t[0].s
    ensures |t| == 1 && t[0].Hole? ==> r == Fill(t[0].f, v)
  {
    if t == [] then []
    else
      (match t[0] case Text(s) => s case Hole(f) => Fill(f, v)) + Render(t[1..], v)
  }

  /** The page of a post. */
  function Page(title: string, summary: string, sourceUrl: string, c: Copy, date: string): (page: string)
    ensures StartsWith(page, Doctype + HtmlOpen(c))
  {
    AffixSlices(Doctype + HtmlOpen(c), Render(BodyTemplate, PageValues(title, summary, sourceUrl, date, c)), []);
    Doctype + HtmlOpen(c) + Render(BodyTemplate, PageValues(title, summary, sourceUrl, date, c))
  }

  /** The page's file name inside `posts/`. */
  function FileName(title: string): (name: string)
    ensures EndsWith(name, HtmlExtension) && name[..|name| - |HtmlExtension|] == Slugify(title)
    ensures |name| > |HtmlExtension|
  {
    AffixSlices([], Slugify(title), HtmlExtension);
    Slugify(title) + HtmlExtension
  }

  /** A slug names a file inside `posts/`: it holds no `/`. */
  lemma SlugHasNoSlash(title: string)
    ensures '/' !in Slugify(title)
  {
  }

  /** The record kept in the index for a post. */
  function Record(title: string, summary: string, lang: string, date: string): (r: PostRecord)
    ensures r.title == title && r.date == date
    ensures |r.summary| <= |summary| && |r.summary| <= RecordSummaryLength
    ensures r.summary == summary[..|r.summary|]
    ensures |summary| <= RecordSummaryLength ==> r.summary == summary
    ensures r.lang == "AR" <==> lang == "ar"
    ensures r.lang == "EN" <==> lang != "ar"
  {
    PostRecord(PostsDir + FileName(title), title, Prefix(summary, RecordSummaryLength), date, LangTag(lang))
  }

  /** `write_post(title, summary, source_url, lang)` on the given date, with
      `lang` defaulting to `"en"`: the record points at the page file, which is
      named after the title's slug. */
  function WritePost(title: string, summary: string, sourceUrl: string, date: string, lang: string := "en"): (r: Rendered)
    ensures r.record.path == PostsDir + r.fileName
    ensures r.record == Record(title, summary, lang, date)
    ensures r.html == Page(title, summary, sourceUrl, CopyFor(lang), date)
  {
    var fileName := FileName(title);
    Rendered(fileName, Page(title, summary, sourceUrl, CopyFor(lang), date), Record(title, summary, lang, date))
  }

  /** `p + x + q` determines `x`. */
  lemma AffixInjective(p: string, x: string, y: string, q: string)
    ensures p + (x + q) == p + (y + q) <==> x == y
  {
    if p + (x + q) == p + (y + q) {
      assert |x| == |y|;
      forall i | 0 <= i < |x| ensures x[i] == y[i] {
        assert (p + (x + q))[|p| + i] == x[i];
        assert (p + (y + q))[|p| + i] == y[i];
      }
    }
  }

  /** The record's path is `posts/<slug>.html`. */
  lemma {:induction false} PostPath(title: string, summary: string, lang: string, date: string)
    ensures var p := Record(title, summary, lang, date).path;
      StartsWith(p, PostsDir) && EndsWith(p, HtmlExtension)
      && p[|PostsDir|..|p| - |HtmlExtension|] == Slugify(title)
  {
    AffixSlices(PostsDir, Slugify(title), HtmlExtension);
  }

  lemma AffixSlices(p: string, x: string, q: string)
    ensures var s := p + (x + q); StartsWith(s, p) && EndsWith(s, q) && s[|p|..|s| - |q|] == x
  {
    var s := p + (x + q);
    assert s[..|p|] == p;
    assert s[|s| - |q|..] == q;
    assert s[|p|..|s| - |q|] == x;
  }

  /** Two posts land on the same file exactly when their titles share a slug,
      whatever their other arguments. */
  lemma SamePathIffSameSlug(a: string, b: string, sa: string, sb: string, la: string, lb: string, da: string, db: string)
    ensures Record(a, sa, la, da).path == Record(b, sb, lb, db).path <==> Slugify(a) == Slugify(b)
  {
    AffixInjective(PostsDir, Slugify(a), Slugify(b), HtmlExtension);
  }

  /** All titles without a word character or `-` overwrite one and the same page. */
  lemma FallbackTitlesShareAPage(title: string, summary: string, lang: string, date: string)
    requires forall i :: 0 <= i < |title| ==> !IsSafeChar(title[i])
    ensures Record(title, summary, lang, date).path == PostsDir + (FallbackSlug + HtmlExtension)
  {
    FallbackIsConstant(title);
  }

  const RtlOpening := Doctype + "<html lang=\"ar\" dir=\"rtl\">"
  const LtrOpening := Doctype + "<html lang=\"en\" dir=\"ltr\">"

  /** The page opens as right-to-left Arabic exactly when the language is `ar`,
      and as left-to-right English otherwise. */
  lemma PageDirection(title: string, summary: string, sourceUrl: string, lang: string, date: string)
    ensures StartsWith(Page(title, summary, sourceUrl, CopyFor(lang), date), RtlOpening) <==> lang == "ar"
    ensures StartsWith(Page(title, summary, sourceUrl, CopyFor(lang), date), LtrOpening) <==> lang != "ar"
  {
    OpeningDirection(CopyFor(lang), Render(BodyTemplate, PageValues(title, summary, sourceUrl, date, CopyFor(lang))));
  }

  /** Whatever follows it, the opening decides which of the two a page starts with. */
  lemma OpeningDirection(c: Copy, body: string)
    requires c == ArabicCopy || c == EnglishCopy
    ensures StartsWith(Doctype + HtmlOpen(c) + body, RtlOpening) <==> c == ArabicCopy
    ensures StartsWith(Doctype + HtmlOpen(c) + body, LtrOpening) <==> c == EnglishCopy
  {
    var head := Doctype + HtmlOpen(c);
    var s := head + body;
    assert |head| == |RtlOpening| == |LtrOpening| == 42;
    assert s[..42] == head;
    assert RtlOpening[28] == 'a' && LtrOpening[28] == 'e';
    if c == ArabicCopy {
      assert head == RtlOpening;
      assert head[28] == 'a';
    } else {
      assert head == LtrOpening;
      assert head[28] == 'e';
    }
  }

  /** Rendering works segment by segment. */
  lemma {:induction false} RenderAppend(a: seq<Segment>, b: seq<Segment>, v: PageValues)
    ensures Render(a + b, v) == Render(a, v) + Render(b, v)
  {
    if a == [] {
      assert a + b == b;
    } else {
      assert (a + b)[0] == a[0];
      assert (a + b)[1..] == a[1..] + b;
      RenderAppend(a[1..], b, v);
    }
  }

  /** Every field the page shows has a hole in the template. */
  lemma TemplateHasEveryField(f: Field) returns (k: nat)
    ensures k < |BodyTemplate| && BodyTemplate[k] == Hole(f)
  {
    match f
    case Title => k := 1;
    case HomeLabel => k := 3;
    case Date => k := 5;
    case Summary => k := 9;
    case SourceLabel => k := 11;
    case SourceUrl => k := 13;
    case Note => k := 17;
  }

  /** A hole's value appears in whatever precedes the rendering followed by the rendering. */
  lemma RenderShows(head: string, t: seq<Segment>, k: nat, v: PageValues) returns (at: nat)
    requires k < |t| && t[k].Hole?
    ensures var r := head + Render(t, v); var x := Fill(t[k].f, v);
      at + |x| <= |r| && r[at..at + |x|] == x
  {
    assert t == t[..k] + ([t[k]] + t[k + 1..]);
    RenderAppend(t[..k], [t[k]] + t[k + 1..], v);
    RenderAppend([t[k]], t[k + 1..], v);
    var before := head + Render(t[..k], v);
    AffixSlices(before, Fill(t[k].f, v), Render(t[k + 1..], v));
    at := |before|;
  }

  /** Each value, inserted as it is, appears in the page: the title, summary,
      source link, date and the language's labels. */
  lemma PageShows(title: string, summary: string, sourceUrl: string, c: Copy, date: string, f: Field) returns (at: nat)
    ensures var page := Page(title, summary, sourceUrl, c, date);
      var x := Fill(f, PageValues(title, summary, sourceUrl, date, c));
      at + |x| <= |page| && page[at..at + |x|] == x
  {
    var k := TemplateHasEveryField(f);
    at := RenderShows(Doctype + HtmlOpen(c), BodyTemplate, k, PageValues(title, summary, sourceUrl, date, c));
  }
}
