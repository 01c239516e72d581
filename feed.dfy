// Item selection and channel lookup of the RSS reader (`parse_rss`).
// The XML text is not tokenised here: the reader is handed the element tree
// the XML library would build, or `None` when that library rejects the bytes.

module FeedParser {
  import opened Optional
  import opened Text

  /** A parsed XML element: its tag (`{namespace}local` for namespaced tags),
      its text (`""` when it has none) and its child elements in document order. */
  datatype Element = Element(tag: string, text: string, children: seq<Element>)

  /** One feed entry as the reader returns it. */
  datatype FeedItem = FeedItem(title: string, link: string, description: string, pubDate: string)

  /** `e.find(tag)`: the first direct child whose tag is exactly `tag`. */
  function FirstChildTagged(children: seq<Element>, tag: string): (r: Option<Element>)
    ensures r.Some? ==> r.value in children && r.value.tag == tag
  {
    if children == [] then None
    else if children[0].tag == tag then Some(children[0])
    else FirstChildTagged(children[1..], tag)
  }

  /** `find` misses only when no direct child carries the tag, and otherwise
      returns the earliest one. */
  lemma {:induction false} FirstChildTaggedFirst(children: seq<Element>, tag: string)
    ensures FirstChildTagged(children, tag).None? <==> forall i :: 0 <= i < |children| ==> children[i].tag != tag
    ensures FirstChildTagged(children, tag).Some? ==>
      exists i :: 0 <= i < |children| && children[i] == FirstChildTagged(children, tag).value
        && forall j :: 0 <= j < i ==> children[j].tag != tag
  {
    if children != [] && children[0].tag != tag {
      var rest := children[1..];
      FirstChildTaggedFirst(rest, tag);
      if FirstChildTagged(rest, tag).Some? {
        var i :| 0 <= i < |rest| && rest[i] == FirstChildTagged(rest, tag).value
          && forall j :: 0 <= j < i ==> rest[j].tag != tag;
        assert children[i + 1] == rest[i];
        forall j | 0 <= j < i + 1 ensures children[j].tag != tag {
          if j > 0 {
            assert children[j] == rest[j - 1];
          }
        }
      } else {
        forall i | 0 <= i < |children| ensures children[i].tag != tag {
          if i > 0 {
            assert children[i] == rest[i - 1];
          }
        }
      }
    } else if children != [] {
      assert children[0] == FirstChildTagged(children, tag).value;
    }
  }

  /** `(e.findtext(tag) or "")`: the text of the first direct child with that
      tag, and `""` when there is no such child or it has no text. */
  function FindText(e: Element, tag: string): (r: string)
    ensures FirstChildTagged(e.children, tag).None? ==> r == []
    ensures FirstChildTagged(e.children, tag).Some? ==> r == FirstChildTagged(e.children, tag).value.text
  {
    match FirstChildTagged(e.children, tag)
    case None => []
    case Some(c) => c.text
  }

  /** `e.iter()`: the element itself, then its descendants in document order. */
  function Preorder(e: Element): (r: seq<Element>)
    decreases e, 1
    ensures |r| >= 1 && r[0] == e
  {
    [e] + PreorderAll(e.children)
  }

  function PreorderAll(es: seq<Element>): (r: seq<Element>)
    decreases es, 0
    ensures |r| >= |es|
  {
    if es == [] then [] else Preorder(es[0]) + PreorderAll(es[1..])
  }

  /** Every direct child appears in the pre-order walk of its parent. */
  lemma {:induction false} ChildrenInPreorderAll(es: seq<Element>, i: nat)
    requires i < |es|
    ensures es[i] in PreorderAll(es)
  {
    assert Preorder(es[0])[0] == es[0];
    if i > 0 {
      ChildrenInPreorderAll(es[1..], i - 1);
    }
  }

  lemma ChildrenInPreorder(e: Element, i: nat)
    requires i < |e.children|
    ensures e.children[i] in Preorder(e)
  {
    ChildrenInPreorderAll(e.children, i);
  }

  /** Walking a list of elements walks each in turn, in document order. */
  lemma {:induction false} PreorderAllAppend(a: seq<Element>, b: seq<Element>)
    ensures PreorderAll(a + b) == PreorderAll(a) + PreorderAll(b)
    decreases |a|
  {
    if a == [] {
      assert a + b == b;
    } else {
      assert (a + b)[0] == a[0];
      assert (a + b)[1..] == a[1..] + b;
      PreorderAllAppend(a[1..], b);
    }
  }

  /** The walk is closed under taking children: every node it visits has its
      children visited too, so it reaches every descendant at any depth. */
  lemma {:induction false} PreorderClosed(e: Element, x: Element, i: nat)
    requires x in Preorder(e) && i < |x.children|
    ensures x.children[i] in Preorder(e)
    decreases e, 1
  {
    if x == e {
      ChildrenInPreorder(e, i);
    } else {
      assert x in PreorderAll(e.children);
      PreorderAllClosed(e.children, x, i);
    }
  }

  lemma {:induction false} PreorderAllClosed(es: seq<Element>, x: Element, i: nat)
    requires x in PreorderAll(es) && i < |x.children|
    ensures x.children[i] in PreorderAll(es)
    decreases es, 0
  {
    assert es != [];
    if x in Preorder(es[0]) {
      PreorderClosed(es[0], x, i);
    } else {
      PreorderAllClosed(es[1..], x, i);
    }
  }

  /** The first node of `nodes` whose tag ends with `suffix`. */
  function FirstTagEndingWith(nodes: seq<Element>, suffix: string): (r: Option<Element>)
    ensures r.Some? ==> r.value in nodes && EndsWith(r.value.tag, suffix)
    ensures r.None? ==> forall n :: n in nodes ==> !EndsWith(n.tag, suffix)
  {
    if nodes == [] then None
    else if EndsWith(nodes[0].tag, suffix) then Some(nodes[0])
    else FirstTagEndingWith(nodes[1..], suffix)
  }

  /** The node found is the earliest match: it sits at some position `k` and no
      node before `k` has a tag ending with `suffix`. */
  lemma {:induction false} FirstTagEndingWithFirst(nodes: seq<Element>, suffix: string)
    ensures FirstTagEndingWith(nodes, suffix).Some? ==>
      exists k :: 0 <= k < |nodes| && nodes[k] == FirstTagEndingWith(nodes, suffix).value
        && forall j :: 0 <= j < k ==> !EndsWith(nodes[j].tag, suffix)
  {
    if nodes != [] && !EndsWith(nodes[0].tag, suffix) {
      var rest := nodes[1..];
      FirstTagEndingWithFirst(rest, suffix);
      if FirstTagEndingWith(rest, suffix).Some? {
        var k :| 0 <= k < |rest| && rest[k] == FirstTagEndingWith(rest, suffix).value
          && forall j :: 0 <= j < k ==> !EndsWith(rest[j].tag, suffix);
        assert nodes[k + 1] == rest[k];
        forall j | 0 <= j < k + 1 ensures !EndsWith(nodes[j].tag, suffix) {
          if j > 0 {
            assert nodes[j] == rest[j - 1];
          }
        }
      }
    } else if nodes != [] {
      assert nodes[0] == FirstTagEndingWith(nodes, suffix).value;
    }
  }

  /** The scan that stops at the first match agrees with `FirstTagEndingWith`. */
  lemma {:induction false} FirstTagEndingWithSkip(nodes: seq<Element>, suffix: string, i: nat)
    requires i < |nodes| && !EndsWith(nodes[i].tag, suffix)
    ensures FirstTagEndingWith(nodes[i..], suffix) == FirstTagEndingWith(nodes[i + 1..], suffix)
  {
    assert nodes[i..][1..] == nodes[i + 1..];
  }

  const ChannelTag := "channel"
  const ItemTag := "item"
  /** The default `limit` of `parse_rss`. */
  const DefaultItemLimit := 10

  /** The channel the reader uses: a direct child tagged `channel`, failing that
      the first node of the pre-order walk, the root included, whose tag ends
      with `channel`. */
  function LocateChannel(root: Element): (r: Option<Element>)
    ensures r.Some? ==> EndsWith(r.value.tag, ChannelTag)
  {
    match FirstChildTagged(root.children, ChannelTag)
    case Some(c) => Some(c)
    case None => FirstTagEndingWith(Preorder(root), ChannelTag)
  }

  /** A direct `channel` child wins over everything else, the root included. */
  lemma LocateChannelPrefersChild(root: Element, i: nat)
    requires i < |root.children| && root.children[i].tag == ChannelTag
    requires forall j :: 0 <= j < i ==> root.children[j].tag != ChannelTag
    ensures LocateChannel(root) == Some(root.children[i])
  {
    FirstChildTaggedFirst(root.children, ChannelTag);
    var c := FirstChildTagged(root.children, ChannelTag).value;
    var k :| 0 <= k < |root.children| && root.children[k] == c
      && forall j :: 0 <= j < k ==> root.children[j].tag != ChannelTag;
    assert root.children[k].tag == ChannelTag;
  }

  /** There is no channel exactly when no node of the tree has a tag ending
      with `channel`. */
  lemma LocateChannelNone(root: Element)
    ensures LocateChannel(root).None? <==> forall n :: n in Preorder(root) ==> !EndsWith(n.tag, ChannelTag)
  {
    var c := FirstChildTagged(root.children, ChannelTag);
    if c.Some? {
      var i :| 0 <= i < |root.children| && root.children[i] == c.value;
      ChildrenInPreorder(root, i);
      assert EndsWith(c.value.tag, ChannelTag);
    }
  }

  /** `channel.findall("item")`: the direct children tagged exactly `item`. */
  function ItemChildren(children: seq<Element>): (r: seq<Element>)
    ensures |r| <= |children|
    ensures |children| == 1 ==> (children[0].tag == ItemTag <==> r == children) && (children[0].tag != ItemTag <==> r == [])
  {
    if children == [] then []
    else if children[0].tag == ItemTag then [children[0]] + ItemChildren(children[1..])
    else ItemChildren(children[1..])
  }

  /** Namespaced or otherwise renamed items are not candidates. */
  lemma {:induction false} ItemChildrenTagged(children: seq<Element>)
    ensures forall k :: 0 <= k < |ItemChildren(children)| ==> ItemChildren(children)[k].tag == ItemTag
    ensures (forall k :: 0 <= k < |children| ==> children[k].tag != ItemTag) ==> ItemChildren(children) == []
  {
    if children != [] {
      ItemChildrenTagged(children[1..]);
      if (forall k :: 0 <= k < |children| ==> children[k].tag != ItemTag) {
        assert forall k :: 0 <= k < |children[1..]| ==> children[1..][k].tag != ItemTag by {
          forall k | 0 <= k < |children[1..]| ensures children[1..][k].tag != ItemTag {
            assert children[1..][k] == children[k + 1];
          }
        }
      }
    }
  }

  /** `findall` keeps document order: the items of a concatenation are the
      items of its parts, one after the other. */
  lemma {:induction false} ItemChildrenAppend(a: seq<Element>, b: seq<Element>)
    ensures ItemChildren(a + b) == ItemChildren(a) + ItemChildren(b)
  {
    if a == [] {
      assert a + b == b;
    } else {
      assert (a + b)[1..] == a[1..] + b;
      ItemChildrenAppend(a[1..], b);
    }
  }

  /** Every direct child tagged exactly `item` is among the candidates. */
  lemma {:induction false} ItemChildrenComplete(children: seq<Element>, k: nat)
    requires k < |children| && children[k].tag == ItemTag
    ensures children[k] in ItemChildren(children)
  {
    if k > 0 {
      ItemChildrenComplete(children[1..], k - 1);
    }
  }

  /** An item is kept when its stripped title and stripped link are both non-empty. */
  predicate Qualifies(item: Element)
    ensures Qualifies(item) ==> FirstChildTagged(item.children, "title").Some? && FirstChildTagged(item.children, "link").Some?
  {
    Strip(FindText(item, "title")) != [] && Strip(FindText(item, "link")) != []
  }

  /** What the reader returns for a kept item: non-empty title and link, with
      no whitespace at their ends. */
  predicate WellFormedItem(it: FeedItem) {
    Edged(it.title) && Edged(it.link)
  }

  /** Non-empty, with no whitespace at either end. */
  predicate Edged(s: string) {
    s != [] && !IsSpace(s[0]) && !IsSpace(s[|s| - 1])
  }

  lemma StripEdged(s: string)
    ensures Strip(s) != [] ==> Edged(Strip(s))
  {
  }

  /** The record built from an item: title, link and description stripped, the
      publication date as it stands. */
  function ToItem(item: Element): (r: FeedItem)
    ensures r.pubDate == FindText(item, "pubDate")
    ensures Qualifies(item) ==> WellFormedItem(r)
  {
    StripEdged(FindText(item, "title"));
    StripEdged(FindText(item, "link"));
    FeedItem(Strip(FindText(item, "title")), Strip(FindText(item, "link")),
             Strip(FindText(item, "description")), FindText(item, "pubDate"))
  }

  /** What one candidate contributes: its record when it qualifies, else nothing. */
  function Outcome(item: Element): (r: Option<FeedItem>)
    ensures r.Some? <==> Qualifies(item)
    ensures r.Some? ==> WellFormedItem(r.value) && r.value.pubDate == FindText(item, "pubDate")
  {
    if Qualifies(item) then Some(ToItem(item)) else None
  }

  function Outcomes(cands: seq<Element>): (r: seq<Option<FeedItem>>)
  {
    seq(|cands|, k requires 0 <= k < |cands| => Outcome(cands[k]))
  }

  /** Every record among the outcomes, in order. */
  function Kept(outs: seq<Option<FeedItem>>): (r: seq<FeedItem>)
    ensures |r| <= |outs|
  {
    if outs == [] then []
    else if outs[0].Some? then [outs[0].value] + Kept(outs[1..])
    else Kept(outs[1..])
  }

  /** What the candidate loop collects: each outcome is looked at, its record
      kept, and the loop stops as soon as `limit` records are held, the check
      coming after the candidate is handled. */
  function Select(outs: seq<Option<FeedItem>>, limit: int): (r: seq<FeedItem>)
    ensures |r| <= |Kept(outs)| && r == Kept(outs)[..|r|]
  {
    if outs == [] then []
    else
      var here := if outs[0].Some? then [outs[0].value] else [];
      if |here| >= limit then here else here + Select(outs[1..], limit - |here|)
  }

  /** The reader's result for a document: `[]` when the bytes do not parse or
      there is no channel, else the selection among the channel's items. */
  function ParsedItems(doc: Option<Element>, limit: int): (r: seq<FeedItem>)
    ensures doc.None? || LocateChannel(doc.value).None? ==> r == []
    ensures doc.Some? && LocateChannel(doc.value).Some? ==>
      var kept := Kept(Outcomes(ItemChildren(LocateChannel(doc.value).value.children)));
      |r| <= |kept| && r == kept[..|r|]
    ensures limit >= 1 ==> |r| <= limit
  {
    if doc.None? then []
    else match LocateChannel(doc.value)
      case None => []
      case Some(ch) =>
        var outs := Outcomes(ItemChildren(ch.children));
        if limit >= 1 then SelectLength(outs, limit); Select(outs, limit)
        else Select(outs, limit)
  }

  /** One step of the candidate loop, on the outcomes alone. */
  lemma SelectStep(outs: seq<Option<FeedItem>>, k: nat, items: seq<FeedItem>, limit: int)
    requires k < |outs|
    ensures var items' := if outs[k].Some? then items + [outs[k].value] else items;
      items + Select(outs[k..], limit - |items|)
        == if |items'| >= limit then items' else items' + Select(outs[k + 1..], limit - |items'|)
  {
    assert outs[k..][1..] == outs[k + 1..];
  }

  /** `parse_rss(xml_bytes, limit)`, with the XML library's parse taken as the
      argument `doc`. */
  method ParseRss(doc: Option<Element>, limit: int := DefaultItemLimit) returns (items: seq<FeedItem>)
    ensures items == ParsedItems(doc, limit)
  {
    items := [];
    if doc.None? {
      return;
    }
    var channel := FindChannel(doc.value);
    if channel.None? {
      return;
    }
    items := SelectItems(ItemChildren(channel.value.children), limit);
  }

  /** Lines 20-26: `root.find("channel")`, then the walk over `root.iter()`
      that stops at the first tag ending with `channel`. */
  method FindChannel(root: Element) returns (channel: Option<Element>)
    ensures channel == LocateChannel(root)
  {
    channel := FirstChildTagged(root.children, ChannelTag);
    if channel.Some? {
      return;
    }
    var nodes := Preorder(root);
    var i := 0;
    while i < |nodes|
      invariant 0 <= i <= |nodes|
      invariant channel.None?
      invariant FirstTagEndingWith(nodes[i..], ChannelTag) == FirstTagEndingWith(nodes, ChannelTag)
    {
      if EndsWith(nodes[i].tag, ChannelTag) {
        channel := Some(nodes[i]);
        return;
      }
      FirstTagEndingWithSkip(nodes, ChannelTag, i);
      i := i + 1;
    }
  }

  /** Lines 29-37: the loop over the channel's items, which appends each
      qualifying record and breaks once `limit` records are held. */
  method SelectItems(cands: seq<Element>, limit: int) returns (items: seq<FeedItem>)
    ensures items == Select(Outcomes(cands), limit)
  {
    items := [];
    ghost var outs := Outcomes(cands);
    var k := 0;
    while k < |cands|
      invariant 0 <= k <= |cands|
      invariant items + Select(outs[k..], limit - |items|) == Select(outs, limit)
    {
      SelectStep(outs, k, items, limit);
      var o := Outcome(cands[k]);
      if o.Some? {
        items := items + [o.value];
      }
      k := k + 1;
      if |items| >= limit {
        break;
      }
    }
  }

  /** With a positive limit the selection holds `min(limit, kept)` records. */
  lemma {:induction false} SelectLength(outs: seq<Option<FeedItem>>, limit: int)
    requires limit >= 1
    ensures |Select(outs, limit)| == if |Kept(outs)| < limit then |Kept(outs)| else limit
  {
    if outs != [] && !(outs[0].Some? && limit == 1) {
      SelectLength(outs[1..], limit - (if outs[0].Some? then 1 else 0));
    }
  }

  /** With a limit of zero or less the loop still looks at the first candidate:
      the result is that candidate's record when it qualifies, else nothing. */
  lemma SelectNonPositive(outs: seq<Option<FeedItem>>, limit: int)
    requires limit <= 0
    ensures Select(outs, limit) == Kept(Prefix(outs, 1))
    ensures |Select(outs, limit)| <= 1
  {
    if outs != [] {
      assert Prefix(outs, 1) == [outs[0]];
      assert Prefix(outs, 1)[1..] == [];
    }
  }

  /** Only records of qualifying items are kept. */
  lemma {:induction false} KeptWellFormed(outs: seq<Option<FeedItem>>, k: nat)
    requires forall j :: 0 <= j < |outs| && outs[j].Some? ==> WellFormedItem(outs[j].value)
    requires k < |Kept(outs)|
    ensures WellFormedItem(Kept(outs)[k])
  {
    if outs[0].Some? && k == 0 {
    } else {
      KeptWellFormed(outs[1..], if outs[0].Some? then k - 1 else k);
    }
  }

  /** Every record the reader returns has a non-empty title and link, both
      without surrounding whitespace. */
  lemma ParsedItemsWellFormed(doc: Option<Element>, limit: int, k: nat)
    requires k < |ParsedItems(doc, limit)|
    ensures WellFormedItem(ParsedItems(doc, limit)[k])
  {
    var ch := LocateChannel(doc.value).value;
    var outs := Outcomes(ItemChildren(ch.children));
    KeptWellFormed(outs, k);
  }

  /** An item missing a title or a link is skipped wherever it stands, and
      does not use up the limit. */
  lemma SelectSkips(rest: seq<Option<FeedItem>>, limit: int)
    requires limit >= 1
    ensures Select([None] + rest, limit) == Select(rest, limit)
  {
    assert ([None] + rest)[1..] == rest;
  }

  /** A channel whose items are all namespaced yields nothing. */
  lemma NamespacedItemsIgnored(children: seq<Element>, limit: int)
    requires forall k :: 0 <= k < |children| ==> children[k].tag != ItemTag
    ensures Select(Outcomes(ItemChildren(children)), limit) == []
  {
    ItemChildrenTagged(children);
  }
}
