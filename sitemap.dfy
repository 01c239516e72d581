// The sitemap document that `update_sitemap` writes: one entry for the site
// root and one per indexed post, all stamped with the same time. The stored
// index and the clock reading are parameters; writing the file is left out.

module Sitemap {
  import opened Optional
  import opened Text
  import opened PostRenderer

  /** At most this many posts are listed. */
  const MaxSitemapPosts := 500

  const Daily := "daily"
  const Weekly := "weekly"

  const XmlHeader := "<?xml version=\"1.0\" encoding=\"UTF-8\"?>\n<urlset xmlns=\"http://www.sitemaps.org/schemas/sitemap/0.9\">\n"
  const XmlFooter := "\n</urlset>\n"

  /** The four fixed pieces of a `<url>` line. */
  const LocOpen := "  <url><loc>"
  const LastmodOpen := "</loc><lastmod>"
  const FreqOpen := "</lastmod><changefreq>"
  const LineClose := "</changefreq></url>"

  /** One `<url>` element. */
  datatype UrlEntry = UrlEntry(loc: string, lastmod: string, changefreq: string)

  /** The line for an entry, values inserted without escaping. */
  function UrlLine(u: UrlEntry): (line: string)
    ensures StartsWith(line, LocOpen + u.loc + LastmodOpen)
    ensures EndsWith(line, FreqOpen + u.changefreq + LineClose)
  {
    var head := LocOpen + u.loc + LastmodOpen;
    var tail := FreqOpen + u.changefreq + LineClose;
    assert LocOpen + (u.loc + (LastmodOpen + (u.lastmod + (FreqOpen + (u.changefreq + LineClose)))))
      == head + (u.lastmod + tail);
    Unwrap(head, u.lastmod, tail);
    LocOpen + (u.loc + (LastmodOpen + (u.lastmod + (FreqOpen + (u.changefreq + LineClose)))))
  }

  /** The entries for the first `|posts|` posts, in index order. */
  function PostEntries(siteUrl: string, posts: seq<PostRecord>, lastmod: string): (r: seq<UrlEntry>)
  {
    seq(|posts|, i requires 0 <= i < |posts| => UrlEntry(siteUrl + posts[i].path, lastmod, Weekly))
  }

  /** Every entry of the sitemap: the root, then the first 500 posts. */
  function Entries(siteUrl: string, posts: seq<PostRecord>, lastmod: string): (r: seq<UrlEntry>)
    ensures |r| == 1 + (if |posts| < MaxSitemapPosts then |posts| else MaxSitemapPosts)
    ensures r[0] == UrlEntry(siteUrl, lastmod, Daily)
  {
    [UrlEntry(siteUrl, lastmod, Daily)] + PostEntries(siteUrl, Prefix(posts, MaxSitemapPosts), lastmod)
  }

  function Lines(es: seq<UrlEntry>): (r: seq<string>)
  {
    seq(|es|, i requires 0 <= i < |es| => UrlLine(es[i]))
  }

  /** The file: XML declaration and `<urlset>`, the lines joined by newlines, the closing tag. */
  function Document(lines: seq<string>): (doc: string)
    ensures StartsWith(doc, XmlHeader) && EndsWith(doc, XmlFooter)
    ensures |doc| >= |XmlHeader| + |XmlFooter| && doc[|XmlHeader|..|doc| - |XmlFooter|] == Join(lines, "\n")
  {
    Unwrap(XmlHeader, Join(lines, "\n"), XmlFooter);
    XmlHeader + (Join(lines, "\n") + XmlFooter)
  }

  /** Lines 117-119: the root line, then a line per listed post. */
  method SitemapUrls(siteUrl: string, posts: seq<PostRecord>, lastmod: string) returns (urls: seq<string>)
    ensures urls == Lines(Entries(siteUrl, posts, lastmod))
  {
    var root := UrlEntry(siteUrl, lastmod, Daily);
    urls := [UrlLine(root)];
    var shown := Prefix(posts, MaxSitemapPosts);
    for i := 0 to |shown|
      invariant urls == Lines([root] + PostEntries(siteUrl, shown[..i], lastmod))
    {
      var e := UrlEntry(siteUrl + shown[i].path, lastmod, Weekly);
      assert [root] + PostEntries(siteUrl, shown[..i + 1], lastmod)
          == ([root] + PostEntries(siteUrl, shown[..i], lastmod)) + [e];
      urls := urls + [UrlLine(e)];
    }
    assert shown[..|shown|] == shown;
  }

  /** `update_sitemap(site_url)` with the stored index and the time passed in. */
  method UpdateSitemap(siteUrl: string, posts: seq<PostRecord>, lastmod: string) returns (xml: string)
    ensures xml == Document(Lines(Entries(siteUrl, posts, lastmod)))
  {
    var urls := SitemapUrls(siteUrl, posts, lastmod);
    xml := XmlHeader + (Join(urls, "\n") + XmlFooter);
  }

  /** The sitemap lists the root daily, then each of the first 500 posts
      weekly, in index order, all with the same modification time. */
  lemma EntriesShape(siteUrl: string, posts: seq<PostRecord>, lastmod: string)
    ensures var es := Entries(siteUrl, posts, lastmod);
      |es| == 1 + (if |posts| < MaxSitemapPosts then |posts| else MaxSitemapPosts)
      && es[0] == UrlEntry(siteUrl, lastmod, Daily)
      && (forall i :: 1 <= i < |es| ==> es[i] == UrlEntry(siteUrl + posts[i - 1].path, lastmod, Weekly))
      && (forall i :: 0 <= i < |es| ==> es[i].lastmod == lastmod)
  {
  }

  // Reading a sitemap back.

  /** `s` split at every `c`. */
  function SplitOn(s: string, c: char): (r: seq<string>)
    ensures |r| >= 1
    decreases |s|
  {
    var i := IndexOf(s, c);
    if i == |s| then [s] else [s[..i]] + SplitOn(s[i + 1..], c)
  }

  /** Splitting at `c` undoes joining with `c`, when no part holds `c`. */
  lemma {:induction false} SplitOnJoin(parts: seq<string>, c: char)
    requires |parts| >= 1
    requires forall k :: 0 <= k < |parts| ==> c !in parts[k]
    ensures SplitOn(Join(parts, [c]), c) == parts
  {
    if |parts| == 1 {
      IndexOfAbsent(parts[0], c);
    } else {
      var h, t := parts[0], Join(parts[1..], [c]);
      var s := h + [c] + t;
      assert Join(parts, [c]) == s;
      forall i | 0 <= i < |h| ensures s[i] != c {
        assert s[i] == h[i];
      }
      IndexOfAt(s, c, |h|);
      assert s[..|h|] == h;
      assert s[|h| + 1..] == t;
      SplitOnJoin(parts[1..], c);
    }
  }

  /** `p + rest` starts with `p`, and what follows it is `rest`. */
  lemma PrefixStep(p: string, rest: string)
    ensures StartsWith(p + rest, p) && (p + rest)[|p|..] == rest
  {
    assert (p + rest)[..|p|] == p;
  }

  /** A value without `<` followed by a tag is cut off exactly at the tag. */
  lemma FieldStep(x: string, rest: string)
    requires '<' !in x && rest != [] && rest[0] == '<'
    ensures IndexOf(x + rest, '<') == |x|
    ensures (x + rest)[..|x|] == x && (x + rest)[|x|..] == rest
  {
    var s := x + rest;
    forall i | 0 <= i < |x| ensures s[i] != '<' {
      assert s[i] == x[i];
    }
    IndexOfAt(s, '<', |x|);
  }

  /** The entry a `<url>` line describes, if it is one. */
  function ParseUrlLine(line: string): (r: Option<UrlEntry>)
  {
    if !StartsWith(line, LocOpen) then None
    else
      var r0 := line[|LocOpen|..];
      var i := IndexOf(r0, '<');
      var r1 := r0[i..];
      if !StartsWith(r1, LastmodOpen) then None
      else
        var r2 := r1[|LastmodOpen|..];
        var j := IndexOf(r2, '<');
        var r3 := r2[j..];
        if !StartsWith(r3, FreqOpen) then None
        else
          var r4 := r3[|FreqOpen|..];
          var k := IndexOf(r4, '<');
          if r4[k..] != LineClose then None
          else Some(UrlEntry(r0[..i], r2[..j], r4[..k]))
  }

  /** Values an entry can carry so that its line reads back: no `<` and no newline. */
  predicate Plain(s: string) {
    '<' !in s && '\n' !in s
  }

  predicate PlainEntry(u: UrlEntry) {
    Plain(u.loc) && Plain(u.lastmod) && Plain(u.changefreq)
  }

  /** A line reads back as the entry it was made from. */
  lemma ParseUrlLineRoundTrip(u: UrlEntry)
    requires PlainEntry(u)
    ensures ParseUrlLine(UrlLine(u)) == Some(u)
  {
    var t3 := u.changefreq + LineClose;
    var t2 := FreqOpen + t3;
    var t1 := u.lastmod + t2;
    var t0 := LastmodOpen + t1;
    var r0 := u.loc + t0;
    PrefixStep(LocOpen, r0);
    FieldStep(u.loc, t0);
    PrefixStep(LastmodOpen, t1);
    FieldStep(u.lastmod, t2);
    PrefixStep(FreqOpen, t3);
    FieldStep(u.changefreq, LineClose);
  }

  /** A line never holds a newline when its values do not. */
  lemma UrlLineOneLine(u: UrlEntry)
    requires PlainEntry(u)
    ensures '\n' !in UrlLine(u)
  {
    assert '\n' !in LocOpen && '\n' !in LastmodOpen && '\n' !in FreqOpen && '\n' !in LineClose;
    var t := u.changefreq + LineClose;
    assert '\n' !in t;
    t := FreqOpen + t;
    assert '\n' !in t;
    t := u.lastmod + t;
    assert '\n' !in t;
    t := LastmodOpen + t;
    assert '\n' !in t;
    t := u.loc + t;
    assert '\n' !in t;
  }

  /** Every value, or `None` when one is missing. */
  function AllSome<T>(os: seq<Option<T>>): (r: Option<seq<T>>)
  {
    if os == [] then Some([])
    else match (os[0], AllSome(os[1..]))
      case (Some(u), Some(us)) => Some([u] + us)
      case _ => None
  }

  lemma {:induction false} AllSomeEach<T>(os: seq<Option<T>>, vs: seq<T>)
    requires |os| == |vs|
    requires forall k :: 0 <= k < |vs| ==> os[k] == Some(vs[k])
    ensures AllSome(os) == Some(vs)
  {
    if vs != [] {
      AllSomeEach(os[1..], vs[1..]);
      assert vs == [vs[0]] + vs[1..];
    }
  }

  /** Every line parsed, or `None` when one is not a `<url>` line. */
  function ParseLines(lines: seq<string>): (r: Option<seq<UrlEntry>>)
  {
    AllSome(seq(|lines|, k requires 0 <= k < |lines| => ParseUrlLine(lines[k])))
  }

  lemma ParseLinesRoundTrip(es: seq<UrlEntry>)
    requires forall k :: 0 <= k < |es| ==> PlainEntry(es[k])
    ensures ParseLines(Lines(es)) == Some(es)
  {
    var lines := Lines(es);
    var os := seq(|lines|, k requires 0 <= k < |lines| => ParseUrlLine(lines[k]));
    forall k | 0 <= k < |es| ensures os[k] == Some(es[k]) {
      ParseUrlLineRoundTrip(es[k]);
    }
    AllSomeEach(os, es);
  }

  /** The entries of a sitemap document, or `None` when it is not one. */
  function ReadSitemap(doc: string): (r: Option<seq<UrlEntry>>)
  {
    if |doc| < |XmlHeader| + |XmlFooter| then None
    else if doc[..|XmlHeader|] != XmlHeader || doc[|doc| - |XmlFooter|..] != XmlFooter then None
    else ParseLines(SplitOn(doc[|XmlHeader|..|doc| - |XmlFooter|], '\n'))
  }

  /** What sits between a known head and tail can be cut back out. */
  lemma Unwrap(h: string, b: string, f: string)
    ensures var d := h + (b + f);
      |d| >= |h| + |f| && d[..|h|] == h && d[|d| - |f|..] == f && d[|h|..|d| - |f|] == b
  {
    var d := h + (b + f);
    assert d[..|h|] == h;
    assert d[|d| - |f|..] == f;
    assert d[|h|..|d| - |f|] == b;
  }

  /** Reading a document back gives the entries it was written from. */
  lemma DocumentRoundTrip(es: seq<UrlEntry>)
    requires es != []
    requires forall k :: 0 <= k < |es| ==> PlainEntry(es[k])
    ensures ReadSitemap(Document(Lines(es))) == Some(es)
  {
    var lines := Lines(es);
    Unwrap(XmlHeader, Join(lines, "\n"), XmlFooter);
    forall k | 0 <= k < |lines| ensures '\n' !in lines[k] {
      UrlLineOneLine(es[k]);
    }
    SplitOnJoin(lines, '\n');
    ParseLinesRoundTrip(es);
  }

  /** When the site address, the post paths and the time hold no `<` and no
      newline, the written sitemap reads back as the root entry followed by
      one entry per listed post: exactly `min(|posts|, 500) + 1` entries. */
  lemma SitemapReadsBack(siteUrl: string, posts: seq<PostRecord>, lastmod: string)
    requires Plain(siteUrl) && Plain(lastmod)
    requires forall k :: 0 <= k < |posts| ==> Plain(posts[k].path)
    ensures ReadSitemap(Document(Lines(Entries(siteUrl, posts, lastmod)))) == Some(Entries(siteUrl, posts, lastmod))
  {
    var es := Entries(siteUrl, posts, lastmod);
    forall k | 0 <= k < |es| ensures PlainEntry(es[k]) {
      if k > 0 {
        assert es[k].loc == siteUrl + posts[k - 1].path;
      }
    }
    DocumentRoundTrip(es);
  }
}
