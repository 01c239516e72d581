/** `summarize` (generator.py:42-53): an extractive summary of a feed item's
    description, made of its first sentences once markup and extra whitespace
    are gone. */
module Summarizer {
  import opened Optional
  import opened Text

  /** The summary is cut to this many characters. */
  const MaxSummaryLength: nat := 600

  /** How many sentences are kept when the caller does not say. */
  const DefaultMaxSentences: int := 3

  /** U+061F ARABIC QUESTION MARK. */
  const ArabicQuestionMark: char := '\U{061F}'

  /** The question mark that ends a sentence in `lang`. */
  function QuestionMark(lang: string): char {
    if lang == "ar" then ArabicQuestionMark else '?'
  }

  /** The question mark of the other locale, which does not end a sentence in `lang`. */
  function OtherQuestionMark(lang: string): char {
    if lang == "ar" then '?' else ArabicQuestionMark
  }

  /** The look-behind class of the sentence splitter: `[.!?]`, or `[.!؟]` for Arabic. */
  predicate EndsSentence(c: char, lang: string) {
    c == '.' || c == '!' || c == QuestionMark(lang)
  }

  lemma EndsSentenceNotSpace(c: char, lang: string)
    ensures EndsSentence(c, lang) ==> !IsSpace(c)
  {
  }

  // ---------------------------------------------------------------------------
  // Markup removal (line 44)
  // ---------------------------------------------------------------------------

  /** `re.sub(r"<[^>]+>", " ", s)`: scanning from the left, a `<` followed by one
      or more characters other than `>` and then a `>` becomes a single space,
      and the scan resumes after that `>`; every other character is kept. */
  function StripTags(s: string): (r: string)
    ensures |r| <= |s|
    decreases |s|
  {
    if s == [] then []
    else
      var j := IndexOf(s, '>');
      if s[0] == '<' && 2 <= j < |s| then " " + StripTags(s[j + 1..])
      else [s[0]] + StripTags(s[1..])
  }

  /** `s` holds nothing the tag pattern matches: each `<` is followed directly
      by `>` or by no `>` at all. */
  ghost predicate NoTag(s: string)
    decreases |s|
  {
    s == [] ||
    ((s[0] == '<' ==> (|s| > 1 && s[1] == '>') || IndexOf(s, '>') == |s|) && NoTag(s[1..]))
  }

  /** Text without a tag is left as it is. */
  lemma {:induction false} StripTagsNoTag(s: string)
    requires NoTag(s)
    ensures StripTags(s) == s
    decreases |s|
  {
    if s != [] {
      StripTagsNoTag(s[1..]);
    }
  }

  lemma {:induction false} StripTagsNoClose(s: string)
    requires IndexOf(s, '>') == |s|
    ensures IndexOf(StripTags(s), '>') == |StripTags(s)|
    decreases |s|
  {
    if s != [] {
      var t := s[1..];
      assert IndexOf(t, '>') == |t|;
      StripTagsNoClose(t);
      var r := StripTags(s);
      assert r == [s[0]] + StripTags(t);
      assert r[1..] == StripTags(t);
    }
  }

  lemma NoTagCons(c: char, x: string)
    ensures NoTag([c] + x) <==>
      (c == '<' ==> (x != [] && x[0] == '>') || IndexOf(x, '>') == |x|) && NoTag(x)
  {
    var s := [c] + x;
    assert s[1..] == x;
    if c == '<' {
      assert IndexOf(s, '>') == 1 + IndexOf(x, '>');
    }
  }

  /** No tag survives the pass. */
  lemma {:induction false} StripTagsLeavesNoTag(s: string)
    ensures NoTag(StripTags(s))
    decreases |s|
  {
    if s != [] {
      var j := IndexOf(s, '>');
      if s[0] == '<' && 2 <= j < |s| {
        var rest := StripTags(s[j + 1..]);
        StripTagsLeavesNoTag(s[j + 1..]);
        assert StripTags(s) == [' '] + rest;
        NoTagCons(' ', rest);
      } else {
        var t := s[1..];
        var rest := StripTags(t);
        StripTagsLeavesNoTag(t);
        assert StripTags(s) == [s[0]] + rest;
        NoTagCons(s[0], rest);
        if s[0] == '<' {
          if j < |s| {
            assert j == 1 && t[0] == '>';
            assert rest == [t[0]] + StripTags(t[1..]);
          } else {
            assert IndexOf(t, '>') == |t|;
            StripTagsNoClose(t);
          }
        }
      }
    }
  }

  /** Removing tags twice is removing them once. */
  lemma StripTagsIdempotent(s: string)
    ensures StripTags(StripTags(s)) == StripTags(s)
  {
    StripTagsLeavesNoTag(s);
    StripTagsNoTag(StripTags(s));
  }

  /** Text without `<` is left as it is. */
  lemma {:induction false} StripTagsNoOpen(s: string)
    requires '<' !in s
    ensures StripTags(s) == s
    decreases |s|
  {
    if s != [] {
      assert s[0] != '<';
      assert '<' !in s[1..];
      StripTagsNoOpen(s[1..]);
    }
  }

  /** A document made only of markup and whitespace. */
  datatype Piece = Tag(body: string) | Blank(c: char)

  ghost predicate WellFormedPiece(p: Piece) {
    match p
    case Tag(body) => body != [] && '>' !in body
    case Blank(c) => IsSpace(c)
  }

  function Render(ps: seq<Piece>): string {
    if ps == [] then []
    else
      (match ps[0]
       case Tag(body) => "<" + body + ">"
       case Blank(c) => [c]) + Render(ps[1..])
  }

  /** A tag is replaced by one space and the scan goes on after it. */
  lemma StripTagsTag(body: string, rest: string)
    requires body != [] && '>' !in body
    ensures StripTags("<" + body + ">" + rest) == " " + StripTags(rest)
  {
    var s := "<" + body + ">" + rest;
    var j := |body| + 1;
    assert s[j] == '>';
    forall i | 0 <= i < j ensures s[i] != '>' {
      if i > 0 {
        assert s[i] == body[i - 1];
      }
    }
    IndexOfAt(s, '>', j);
    assert s[j + 1..] == rest;
  }

  /** Markup and whitespace alone leave only whitespace. */
  lemma {:induction false} StripTagsMarkupOnly(ps: seq<Piece>)
    requires forall k :: 0 <= k < |ps| ==> WellFormedPiece(ps[k])
    ensures AllSpace(StripTags(Render(ps)))
  {
    if ps != [] {
      var rest := Render(ps[1..]);
      StripTagsMarkupOnly(ps[1..]);
      var tail := StripTags(rest);
      match ps[0]
      case Tag(body) =>
        assert Render(ps) == "<" + body + ">" + rest;
        StripTagsTag(body, rest);
        assert StripTags(Render(ps)) == " " + tail;
        forall i | 0 <= i < |" " + tail| ensures IsSpace((" " + tail)[i]) {
          if i > 0 {
            assert (" " + tail)[i] == tail[i - 1];
          }
        }
      case Blank(c) =>
        var r := [c] + rest;
        assert Render(ps) == r;
        assert r[0] == c && c != '<';
        assert r[1..] == rest;
        assert StripTags(r) == [c] + tail;
        forall i | 0 <= i < |[c] + tail| ensures IsSpace(([c] + tail)[i]) {
          if i > 0 {
            assert ([c] + tail)[i] == tail[i - 1];
          }
        }
    }
  }

  // ---------------------------------------------------------------------------
  // Cleaning (lines 44-45)
  // ---------------------------------------------------------------------------

  /** Lines 44-45: tags become spaces, whitespace runs become one space, and the
      result is stripped. */
  function CleanText(text: string): (t: string)
    ensures t == [] || (!IsSpace(t[0]) && !IsSpace(t[|t| - 1]))
  {
    Strip(ReplaceSpaceRuns(StripTags(text), ' '))
  }

  /** Cleaned text is normalized: its only whitespace is single spaces. */
  lemma CleanTextNormalized(text: string)
    ensures Normalized(CleanText(text))
  {
    var u := ReplaceSpaceRuns(StripTags(text), ' ');
    ReplaceSpaceRunsSpaces(StripTags(text), ' ');
    StripNormalized(u);
  }

  /** Nonempty and neither starting nor ending with whitespace. */
  ghost predicate Trimmed(p: string) {
    p != [] && !IsSpace(p[0]) && !IsSpace(p[|p| - 1])
  }

  /** Markup and whitespace alone clean to nothing. */
  lemma CleanMarkupOnly(ps: seq<Piece>)
    requires forall k :: 0 <= k < |ps| ==> WellFormedPiece(ps[k])
    ensures CleanText(Render(ps)) == []
  {
    var s := StripTags(Render(ps));
    StripTagsMarkupOnly(ps);
    ReplaceSpaceRunsAllSpace(s, ' ');
    StripEmpty(ReplaceSpaceRuns(s, ' '));
  }

  // ---------------------------------------------------------------------------
  // Sentence split (lines 47-51)
  // ---------------------------------------------------------------------------

  /** `re.split(r"(?<=[.!?])\s+", ...)` resumed in the middle of the text: `cur`
      is the part read so far, `s` the text still to read. A whitespace run whose
      previous character ends a sentence ends the current part and is dropped. */
  function SplitFrom(cur: string, s: string, lang: string): (parts: seq<string>)
    ensures parts != []
    decreases |s|
  {
    if s == [] then [cur]
    else if IsSpace(s[0]) && cur != [] && EndsSentence(cur[|cur| - 1], lang) then
      [cur] + SplitFrom([], TrimLeft(s), lang)
    else SplitFrom(cur + [s[0]], s[1..], lang)
  }

  /** Lines 47-50: the splitter for `lang`. */
  function SplitSentences(s: string, lang: string): (parts: seq<string>)
    ensures parts != []
    ensures Trimmed(s) && Normalized(s) ==> SplitsInto(parts, s)
  {
    SplitClean(s, lang);
    SplitFrom([], s, lang)
  }

  /** Line 51: `[p.strip() for p in parts if p.strip()]`. */
  function StrippedNonEmpty(parts: seq<string>): (r: seq<string>)
    ensures |r| <= |parts|
    ensures parts != [] && Strip(parts[0]) != [] ==> r != [] && r[0] == Strip(parts[0])
  {
    if parts == [] then []
    else
      var p := Strip(parts[0]);
      var rest := StrippedNonEmpty(parts[1..]);
      if p != [] then [p] + rest else rest
  }

  /** The sentences of a description. */
  function Sentences(text: string, lang: string): seq<string> {
    StrippedNonEmpty(SplitSentences(CleanText(text), lang))
  }

  /** `summarize(text, lang, max_sent)`: the first `max_sent` sentences (with
      Python's reading of a negative bound) joined by spaces, cut to 600
      characters; a missing description reads as the empty one. */
  function Summarize(text: Option<string>, lang: string := "en", maxSent: int := DefaultMaxSentences): (summary: string)
    ensures |summary| <= MaxSummaryLength
  {
    SummaryOf(Sentences(text.GetOr(""), lang), maxSent)
  }

  /** Line 52: the first `max_sent` parts joined by spaces and cut to 600 characters. */
  function SummaryOf(parts: seq<string>, maxSent: int): (summary: string)
    ensures |summary| <= MaxSummaryLength
    ensures |summary| <= |Join(parts, " ")| && summary == Join(parts, " ")[..|summary|]
  {
    KeptSlice(parts, maxSent);
    Prefix(Join(PySlicePrefix(parts, maxSent), " "), MaxSummaryLength)
  }

  // ---------------------------------------------------------------------------
  // The split gives back the cleaned text
  // ---------------------------------------------------------------------------

  /** `parts` are trimmed and, joined by single spaces, give `t`. */
  ghost predicate SplitsInto(parts: seq<string>, t: string) {
    Join(parts, " ") == t && forall k :: 0 <= k < |parts| ==> Trimmed(parts[k])
  }

  /** On cleaned text, the splitter only ever drops single spaces: joining the
      parts with spaces gives the text back, and every part is trimmed. */
  lemma {:induction false} SplitJoin(cur: string, s: string, lang: string)
    requires Trimmed(cur + s) && Normalized(cur + s)
    ensures SplitsInto(SplitFrom(cur, s, lang), cur + s)
    decreases |s|, 1
  {
    if s == [] {
      assert cur + s == cur;
    } else if IsSpace(s[0]) && cur != [] && EndsSentence(cur[|cur| - 1], lang) {
      SplitJoinBreak(cur, s, lang);
    } else {
      SplitJoinStep(cur, s, lang);
    }
  }

  lemma {:induction false} SplitJoinStep(cur: string, s: string, lang: string)
    requires Trimmed(cur + s) && Normalized(cur + s)
    requires s != [] && !(IsSpace(s[0]) && cur != [] && EndsSentence(cur[|cur| - 1], lang))
    ensures SplitsInto(SplitFrom(cur, s, lang), cur + s)
    decreases |s|, 0
  {
    var c := cur + [s[0]];
    assert c + s[1..] == cur + s;
    SplitJoin(c, s[1..], lang);
  }

  lemma {:induction false} SplitJoinBreak(cur: string, s: string, lang: string)
    requires Trimmed(cur + s) && Normalized(cur + s)
    requires s != [] && IsSpace(s[0]) && cur != [] && EndsSentence(cur[|cur| - 1], lang)
    ensures SplitsInto(SplitFrom(cur, s, lang), cur + s)
    decreases |s|, 0
  {
    var u := s[1..];
    BreakFacts(cur, s, lang);
    SplitJoin([], u, lang);
    SplitsIntoCons(cur, SplitFrom([], u, lang), u);
    assert cur + s == cur + (" " + u);
  }

  /** At a break, the split goes on with the trimmed, normalized text after one space. */
  lemma BreakFacts(cur: string, s: string, lang: string)
    requires Trimmed(cur + s) && Normalized(cur + s)
    requires s != [] && IsSpace(s[0]) && cur != [] && EndsSentence(cur[|cur| - 1], lang)
    ensures |s| > 1 && s == " " + s[1..]
    ensures Trimmed([] + s[1..]) && Normalized([] + s[1..])
    ensures Trimmed(cur)
    ensures SplitFrom(cur, s, lang) == [cur] + SplitFrom([], s[1..], lang)
  {
    var u := s[1..];
    SingleSpace(cur, s);
    AfterSingleSpace(cur, s);
    assert [] + u == u;
    assert s == [s[0]] + u;
    BreakHead(cur, s, lang);
  }

  /** The part that a break ends is trimmed, and the split goes on after the space. */
  lemma BreakHead(cur: string, s: string, lang: string)
    requires Trimmed(cur + s)
    requires |s| > 1 && IsSpace(s[0]) && cur != [] && EndsSentence(cur[|cur| - 1], lang)
    requires TrimLeft(s) == s[1..]
    ensures Trimmed(cur)
    ensures SplitFrom(cur, s, lang) == [cur] + SplitFrom([], s[1..], lang)
  {
    EndsSentenceNotSpace(cur[|cur| - 1], lang);
    assert cur[0] == (cur + s)[0];
  }

  lemma SplitsIntoCons(h: string, rest: seq<string>, u: string)
    requires Trimmed(h) && rest != [] && SplitsInto(rest, u)
    ensures SplitsInto([h] + rest, h + (" " + u))
  {
    var parts := [h] + rest;
    assert parts[1..] == rest;
    assert h + " " + u == h + (" " + u);
    forall k | 0 <= k < |parts| ensures Trimmed(parts[k]) {
      if k > 0 {
        assert parts[k] == rest[k - 1];
      }
    }
  }

  /** In cleaned text a whitespace run is one space followed by more text. */
  lemma SingleSpace(cur: string, s: string)
    requires Trimmed(cur + s) && Normalized(cur + s)
    requires s != [] && IsSpace(s[0])
    ensures |s| > 1 && s[0] == ' ' && !IsSpace(s[1])
  {
    var t := cur + s;
    assert t[|cur|] == s[0];
    assert t[|t| - 1] == s[|s| - 1];
    assert t[|cur| + 1] == s[1];
  }

  /** What follows that space is trimmed, normalized text. */
  lemma AfterSingleSpace(cur: string, s: string)
    requires Trimmed(cur + s) && Normalized(cur + s)
    requires |s| > 1 && IsSpace(s[0]) && !IsSpace(s[1])
    ensures TrimLeft(s) == s[1..]
    ensures Trimmed(s[1..]) && Normalized(s[1..])
  {
    var u := s[1..];
    assert TrimLeft(s) == TrimLeft(u);
    NormalizedPiece(cur + s, u, |cur| + 1);
    assert u[|u| - 1] == s[|s| - 1] == (cur + s)[|cur + s| - 1];
  }

  /** Every part the strip-and-filter step keeps is non-empty, with no
      whitespace at either end. */
  lemma {:induction false} StrippedNonEmptyParts(parts: seq<string>, k: nat)
    requires k < |StrippedNonEmpty(parts)|
    ensures Trimmed(StrippedNonEmpty(parts)[k])
  {
    var p := Strip(parts[0]);
    if p == [] {
      StrippedNonEmptyParts(parts[1..], k);
    } else if k > 0 {
      StrippedNonEmptyParts(parts[1..], k - 1);
    }
  }

  /** Trimmed parts pass the strip-and-filter step unchanged. */
  lemma {:induction false} StrippedNonEmptyTrimmed(parts: seq<string>)
    requires forall k :: 0 <= k < |parts| ==> Trimmed(parts[k])
    ensures StrippedNonEmpty(parts) == parts
  {
    if parts != [] {
      StripEdges(parts[0]);
      StrippedNonEmptyTrimmed(parts[1..]);
    }
  }

  /** The sentences of a description are trimmed, and joined with spaces they
      give back its cleaned text. */
  lemma SentencesSplit(text: string, lang: string)
    ensures SplitsInto(Sentences(text, lang), CleanText(text))
  {
    if CleanText(text) == [] {
      SentencesOfBlank(text, lang);
    } else {
      SentencesOfText(text, lang);
    }
  }

  lemma SentencesOfBlank(text: string, lang: string)
    requires CleanText(text) == []
    ensures Sentences(text, lang) == []
  {
    var parts := SplitSentences(CleanText(text), lang);
    assert parts == [[]];
    StrippedNonEmptyBlank(lang);
  }

  lemma StrippedNonEmptyBlank(lang: string)
    ensures StrippedNonEmpty([[]]) == []
  {
    var parts: seq<string> := [[]];
    StripEdges([]);
    assert parts[1..] == [];
  }

  lemma SentencesOfText(text: string, lang: string)
    requires CleanText(text) != []
    ensures Sentences(text, lang) == SplitSentences(CleanText(text), lang)
    ensures SplitsInto(Sentences(text, lang), CleanText(text))
  {
    var t := CleanText(text);
    CleanTextNormalized(text);
    StrippedNonEmptyTrimmed(SplitSentences(t, lang));
  }

  lemma SplitClean(t: string, lang: string)
    ensures Trimmed(t) && Normalized(t) ==> SplitsInto(SplitFrom([], t, lang), t)
  {
    if Trimmed(t) && Normalized(t) {
      assert [] + t == t;
      SplitJoin([], t, lang);
    }
  }

  predicate StartsWithSpace(s: string) {
    s != [] && IsSpace(s[0])
  }

  /** `a` is a prefix of `b`. */
  ghost predicate IsPrefix(a: string, b: string) {
    |a| <= |b| && forall i :: 0 <= i < |a| ==> a[i] == b[i]
  }

  /** Joining the first `k` parts gives a prefix of joining them all. */
  lemma {:induction false} JoinPrefix(parts: seq<string>, k: nat)
    requires k <= |parts|
    ensures IsPrefix(Join(parts[..k], " "), Join(parts, " "))
  {
    if k == |parts| {
      assert parts[..k] == parts;
    } else if k == 1 {
      assert parts[..k] == [parts[0]];
      assert Join(parts, " ") == parts[0] + " " + Join(parts[1..], " ");
    } else if k > 1 {
      var tail := parts[1..];
      JoinPrefix(tail, k - 1);
      assert parts[..k][1..] == tail[..k - 1];
      var a, b := Join(tail[..k - 1], " "), Join(tail, " ");
      assert Join(parts[..k], " ") == parts[0] + " " + a;
      assert Join(parts, " ") == parts[0] + " " + b;
      var h := parts[0] + " ";
      forall i | 0 <= i < |h + a| ensures (h + a)[i] == (h + b)[i] {
        if i >= |h| {
          assert (h + a)[i] == a[i - |h|];
        }
      }
    }
  }

  /** The first parts, joined and cut, are the start of all of them joined. */
  lemma KeptSlice(parts: seq<string>, maxSent: int)
    ensures var r := Prefix(Join(PySlicePrefix(parts, maxSent), " "), MaxSummaryLength);
      |r| <= |Join(parts, " ")| && r == Join(parts, " ")[..|r|]
  {
    var j := Join(PySlicePrefix(parts, maxSent), " ");
    JoinPrefix(parts, |PySlicePrefix(parts, maxSent)|);
    var r := Prefix(j, MaxSummaryLength);
    assert forall i :: 0 <= i < |r| ==> r[i] == j[i];
  }

  // ---------------------------------------------------------------------------
  // What a summary is
  // ---------------------------------------------------------------------------

  /** Keeping at least as many parts as there are keeps the whole text. */
  lemma KeptAll(parts: seq<string>, t: string, maxSent: int)
    requires SplitsInto(parts, t) && maxSent >= |parts|
    ensures SummaryOf(parts, maxSent) == Prefix(t, MaxSummaryLength)
  {
    assert PySlicePrefix(parts, maxSent) == parts;
  }

  lemma JoinEmptyIff(parts: seq<string>)
    requires forall k :: 0 <= k < |parts| ==> parts[k] != []
    ensures Join(parts, " ") == [] <==> parts == []
  {
    if |parts| > 1 {
      assert Join(parts, " ") == parts[0] + " " + Join(parts[1..], " ");
    }
  }

  /** The cut is empty exactly when the text is or when no part is kept. */
  lemma KeptEmptyIff(parts: seq<string>, t: string, maxSent: int)
    requires SplitsInto(parts, t)
    ensures SummaryOf(parts, maxSent) == [] <==> t == [] || maxSent == 0 || maxSent <= -|parts|
  {
    var kept := PySlicePrefix(parts, maxSent);
    JoinEmptyIff(parts);
    assert forall k :: 0 <= k < |kept| ==> kept[k] == parts[k];
    JoinEmptyIff(kept);
  }

  /** A prefix of normalized text that does not start with whitespace is normalized
      and does not start with whitespace either. */
  lemma NormalizedPrefix(r: string, t: string)
    requires IsPrefix(r, t) && Normalized(t) && !StartsWithSpace(t)
    ensures Normalized(r) && !StartsWithSpace(r)
  {
    NormalizedPiece(t, r, 0);
  }

  /** The summary is a prefix of the cleaned description: it is extractive. */
  lemma SummaryIsPrefix(text: Option<string>, lang: string, maxSent: int)
    ensures IsPrefix(Summarize(text, lang, maxSent), CleanText(text.GetOr("")))
  {
    SentencesSplit(text.GetOr(""), lang);
  }

  /** Its whitespace is single spaces, never at its start. */
  lemma SummaryNormalized(text: Option<string>, lang: string, maxSent: int)
    ensures Normalized(Summarize(text, lang, maxSent))
    ensures !StartsWithSpace(Summarize(text, lang, maxSent))
  {
    SummaryIsPrefix(text, lang, maxSent);
    CleanTextNormalized(text.GetOr(""));
    NormalizedPrefix(Summarize(text, lang, maxSent), CleanText(text.GetOr("")));
  }

  /** Asking for at least as many sentences as there are gives the whole cleaned
      description, cut to 600 characters. */
  lemma SummaryOfAllSentences(text: Option<string>, lang: string, maxSent: int)
    requires maxSent >= |Sentences(text.GetOr(""), lang)|
    ensures Summarize(text, lang, maxSent) == Prefix(CleanText(text.GetOr("")), MaxSummaryLength)
  {
    SentencesSplit(text.GetOr(""), lang);
    KeptAll(Sentences(text.GetOr(""), lang), CleanText(text.GetOr("")), maxSent);
  }

  /** The summary is empty exactly when the cleaned description is, or when
      `max_sent` keeps no sentence. */
  lemma SummaryEmptyIff(text: Option<string>, lang: string, maxSent: int)
    ensures Summarize(text, lang, maxSent) == [] <==>
      CleanText(text.GetOr("")) == [] || maxSent == 0 || maxSent <= -|Sentences(text.GetOr(""), lang)|
  {
    SentencesSplit(text.GetOr(""), lang);
    KeptEmptyIff(Sentences(text.GetOr(""), lang), CleanText(text.GetOr("")), maxSent);
  }

  /** A missing description summarizes to nothing. */
  lemma SummaryOfNone(lang: string, maxSent: int)
    ensures Summarize(None, lang, maxSent) == []
  {
    SummaryEmptyIff(None, lang, maxSent);
    assert CleanText("") == [];
  }

  /** A description made only of markup and whitespace summarizes to nothing. */
  lemma SummaryOfMarkupOnly(ps: seq<Piece>, lang: string, maxSent: int)
    requires forall k :: 0 <= k < |ps| ==> WellFormedPiece(ps[k])
    ensures Summarize(Some(Render(ps)), lang, maxSent) == []
  {
    CleanMarkupOnly(ps);
    SummaryEmptyIff(Some(Render(ps)), lang, maxSent);
  }

  // ---------------------------------------------------------------------------
  // The splitter inverts the join
  // ---------------------------------------------------------------------------

  /** No sentence break inside `s`: no whitespace right after a sentence end. */
  ghost predicate NoBreak(s: string, lang: string) {
    forall i :: 0 < i < |s| ==> !(EndsSentence(s[i - 1], lang) && IsSpace(s[i]))
  }

  /** One sentence as the splitter sees it: trimmed, single-spaced, without
      markup and without an inner sentence break. */
  ghost predicate IsSentence(p: string, lang: string) {
    Trimmed(p) && Normalized(p) && '<' !in p && NoBreak(p, lang)
  }

  /** Sentences that the splitter can tell apart: all but the last end a sentence. */
  ghost predicate Separable(ss: seq<string>, lang: string) {
    (forall k :: 0 <= k < |ss| ==> IsSentence(ss[k], lang)) &&
    forall k :: 0 <= k < |ss| - 1 ==> EndsSentence(ss[k][|ss[k]| - 1], lang)
  }

  /** A run without a break is read into the current part. */
  lemma {:induction false} SplitChunk(cur: string, s: string, rest: string, lang: string)
    requires NoBreak(cur + s, lang)
    ensures SplitFrom(cur, s + rest, lang) == SplitFrom(cur + s, rest, lang)
    decreases |s|
  {
    if s == [] {
      assert s + rest == rest;
      assert cur + s == cur;
    } else {
      var t := cur + s;
      if cur != [] {
        assert t[|cur| - 1] == cur[|cur| - 1] && t[|cur|] == s[0];
      }
      assert (s + rest)[0] == s[0];
      assert (s + rest)[1..] == s[1..] + rest;
      var c := cur + [s[0]];
      assert c + s[1..] == t;
      SplitChunk(c, s[1..], rest, lang);
    }
  }

  /** Splitting separable sentences joined by spaces gives them back. */
  lemma {:induction false} SplitJoined(ss: seq<string>, lang: string)
    requires ss != [] && Separable(ss, lang)
    ensures SplitSentences(Join(ss, " "), lang) == ss
  {
    var h := ss[0];
    if |ss| == 1 {
      assert [] + h == h && h + [] == h;
      SplitChunk([], h, [], lang);
    } else {
      var tail := ss[1..];
      SeparableTail(ss, lang);
      SplitJoined(tail, lang);
      var j := Join(tail, " ");
      JoinNormalized(tail);
      assert Join(ss, " ") == h + (" " + j);
      assert [] + h == h;
      SplitChunk([], h, " " + j, lang);
      SplitAfterSentence(h, j, lang);
      assert [h] + tail == ss;
    }
  }

  lemma SeparableTail(ss: seq<string>, lang: string)
    requires ss != [] && Separable(ss, lang)
    ensures Separable(ss[1..], lang)
  {
    var tail := ss[1..];
    forall k | 0 <= k < |tail| - 1 ensures EndsSentence(tail[k][|tail[k]| - 1], lang) {
      assert tail[k] == ss[k + 1];
    }
  }

  /** A space after a sentence end is a break. */
  lemma SplitAfterSentence(h: string, j: string, lang: string)
    requires h != [] && EndsSentence(h[|h| - 1], lang)
    requires j != [] && !IsSpace(j[0])
    ensures SplitFrom(h, " " + j, lang) == [h] + SplitFrom([], j, lang)
  {
    assert (" " + j)[1..] == j;
    assert TrimLeft(" " + j) == TrimLeft(j) == j;
  }

  /** Text made of separable sentences cleans to itself. */
  lemma CleanSentences(ss: seq<string>, lang: string)
    requires Separable(ss, lang)
    ensures CleanText(Join(ss, " ")) == Join(ss, " ")
  {
    var j := Join(ss, " ");
    JoinNormalized(ss);
    JoinChars(ss, " ", '<');
    StripTagsNoOpen(j);
    ReplaceSpaceRunsNormalized(j);
    StripEdges(j);
  }

  /** Separable sentences joined by spaces are read back as the same sentences. */
  lemma SentencesRoundTrip(ss: seq<string>, lang: string)
    requires Separable(ss, lang)
    ensures Sentences(Join(ss, " "), lang) == ss
  {
    var j := Join(ss, " ");
    CleanSentences(ss, lang);
    if ss == [] {
      SentencesOfBlank(j, lang);
    } else {
      SplitJoined(ss, lang);
      StrippedNonEmptyTrimmed(ss);
    }
  }

  /** So the summary of such a text is its first `max_sent` sentences, cut to 600
      characters. */
  lemma SummaryOfSentences(ss: seq<string>, lang: string, maxSent: int)
    requires Separable(ss, lang)
    ensures Summarize(Some(Join(ss, " ")), lang, maxSent) == SummaryOf(ss, maxSent)
  {
    SentencesRoundTrip(ss, lang);
  }

  /** Text without `<` passes tag removal unchanged, whatever follows it. */
  lemma {:induction false} StripTagsPlain(x: string, rest: string)
    requires '<' !in x
    ensures StripTags(x + rest) == x + StripTags(rest)
    decreases |x|
  {
    if x != [] {
      var s := x + rest;
      assert s[0] == x[0] && s[0] != '<';
      assert s[1..] == x[1..] + rest;
      assert '<' !in x[1..];
      StripTagsPlain(x[1..], rest);
      assert StripTags(s) == [x[0]] + (x[1..] + StripTags(rest));
      assert [x[0]] + (x[1..] + StripTags(rest)) == x + StripTags(rest);
    } else {
      assert x + rest == rest;
    }
  }

  /** A closing tag becomes one space. */
  lemma StripTagsClose(tag: string)
    requires tag != [] && '>' !in tag
    ensures StripTags("</" + tag + ">") == " "
  {
    var b := "/" + tag;
    assert '>' !in b;
    assert "</" + tag + ">" == "<" + b + ">" + [];
    StripTagsTag(b, []);
  }

  /** `body` between an opening and a closing `tag`. */
  function Paragraph(tag: string, body: string): string {
    "<" + tag + ">" + (body + ("</" + tag + ">"))
  }

  /** The tags around a paragraph without `<` become one space each. */
  lemma StripParagraph(tag: string, j: string)
    requires tag != [] && '>' !in tag && '<' !in j
    ensures StripTags(Paragraph(tag, j)) == " " + (j + " ")
  {
    var close := "</" + tag + ">";
    StripTagsTag(tag, j + close);
    StripTagsPlain(j, close);
    StripTagsClose(tag);
  }

  /** One space on each side keeps a trimmed, single-spaced text single-spaced. */
  lemma PaddedNormalized(j: string)
    requires Trimmed(j) && Normalized(j)
    ensures Normalized(" " + (j + " "))
  {
    var s := " " + (j + " ");
    forall i | 0 <= i < |s| && IsSpace(s[i]) ensures s[i] == ' ' {
      if 0 < i < |s| - 1 {
        assert s[i] == j[i - 1];
      }
    }
    forall i | 0 < i < |s| ensures !(IsSpace(s[i - 1]) && IsSpace(s[i])) {
      if i == 1 {
        assert s[1] == j[0];
      } else if i == |s| - 1 {
        assert s[i - 1] == j[|j| - 1];
      } else {
        assert s[i - 1] == j[i - 2] && s[i] == j[i - 1];
      }
    }
  }

  /** Stripping removes exactly the two padding spaces. */
  lemma PaddedStrip(j: string)
    requires Trimmed(j)
    ensures Strip(" " + (j + " ")) == j
  {
    var s := " " + (j + " ");
    assert s[1..] == j + " ";
    assert (j + " ")[0] == j[0];
    assert TrimLeft(s) == j + " ";
    assert (j + " ")[..|j|] == j;
    StripEdges(j);
    assert TrimRight(j + " ") == TrimRight(j) == j;
  }

  /** A trimmed, single-spaced text padded with one space on each side cleans
      back to itself. */
  lemma PaddedClean(j: string)
    requires Trimmed(j) && Normalized(j)
    ensures Strip(ReplaceSpaceRuns(" " + (j + " "), ' ')) == j
  {
    PaddedNormalized(j);
    ReplaceSpaceRunsNormalized(" " + (j + " "));
    PaddedStrip(j);
  }

  /** A paragraph `<tag>…</tag>` around separable sentences summarises like the
      sentences alone: the two tags only add whitespace, which cleaning removes. */
  lemma SummaryOfParagraph(tag: string, ss: seq<string>, lang: string, maxSent: int)
    requires tag != [] && '>' !in tag
    requires ss != [] && Separable(ss, lang)
    ensures Summarize(Some(Paragraph(tag, Join(ss, " "))), lang, maxSent) == SummaryOf(ss, maxSent)
  {
    var j := Join(ss, " ");
    JoinNormalized(ss);
    JoinChars(ss, " ", '<');
    StripParagraph(tag, j);
    PaddedClean(j);
    CleanSentences(ss, lang);
    SentencesRoundTrip(ss, lang);
  }

  /** One word, with no whitespace and no `<`, is a sentence. */
  lemma WordIsSentence(w: string, lang: string)
    requires w != [] && forall c :: c in w ==> !IsSpace(c) && c != '<'
    ensures IsSentence(w, lang)
  {
    assert w[0] in w && w[|w| - 1] in w;
    forall i | 0 <= i < |w| ensures !IsSpace(w[i]) {
      assert w[i] in w;
    }
  }

  /** Two words, the first without a sentence terminator, form one sentence. */
  lemma TwoWordSentence(a: string, b: string, lang: string)
    requires a != [] && forall c :: c in a ==> !IsSpace(c) && c != '<' && !EndsSentence(c, lang)
    requires b != [] && forall c :: c in b ==> !IsSpace(c) && c != '<'
    ensures IsSentence(a + " " + b, lang)
  {
    WordIsSentence(a, lang);
    WordIsSentence(b, lang);
    JoinSpaces(a, b);
    var s := a + " " + b;
    assert s[0] == a[0] && s[|s| - 1] == b[|b| - 1];
    assert '<' !in s by {
      forall i | 0 <= i < |s| ensures s[i] != '<' {
        if i < |a| {
          assert s[i] == a[i] && a[i] in a;
        } else if i > |a| {
          assert s[i] == b[i - |a| - 1] && b[i - |a| - 1] in b;
        }
      }
    }
    forall i | 0 < i < |s| ensures !(EndsSentence(s[i - 1], lang) && IsSpace(s[i])) {
      if i < |a| {
        assert s[i] == a[i] && a[i] in a;
      } else if i == |a| {
        assert s[i - 1] == a[|a| - 1] && a[|a| - 1] in a;
      } else {
        assert s[i] == b[i - |a| - 1] && b[i - |a| - 1] in b;
      }
    }
  }

  const ExampleSentences: seq<string> := ["First sentence.", "Second sentence.", "Third.", "Fourth."]

  lemma ExampleFirst()
    ensures IsSentence(ExampleSentences[0], "en")
  {
    assert ExampleSentences[0] == "First" + " " + "sentence.";
    TwoWordSentence("First", "sentence.", "en");
  }

  lemma ExampleSecond()
    ensures IsSentence(ExampleSentences[1], "en")
  {
    assert ExampleSentences[1] == "Second" + " " + "sentence.";
    TwoWordSentence("Second", "sentence.", "en");
  }

  lemma ExampleSeparable()
    ensures Separable(ExampleSentences, "en")
  {
    var ss := ExampleSentences;
    ExampleFirst();
    ExampleSecond();
    WordIsSentence(ss[2], "en");
    WordIsSentence(ss[3], "en");
  }

  lemma ExampleJoin()
    ensures Join(ExampleSentences, " ") == "First sentence." + " " + "Second sentence." + " " + "Third." + " " + "Fourth."
  {
  }

  lemma ExampleText()
    ensures Paragraph("p", Join(ExampleSentences, " "))
      == "<p>" + "First sentence." + " " + "Second sentence." + " " + "Third." + " " + "Fourth." + "</p>"
  {
    ExampleJoin();
  }

  lemma ExampleKept()
    ensures SummaryOf(ExampleSentences, 3) == "First sentence." + " " + "Second sentence." + " " + "Third."
  {
    assert ExampleSentences[..3] == ["First sentence.", "Second sentence.", "Third."];
  }

  /** The first three sentences of a paragraph of four, two of them two words long. */
  lemma SummaryExample()
    ensures Summarize(Some("<p>" + "First sentence." + " " + "Second sentence." + " " + "Third." + " " + "Fourth." + "</p>"), "en", 3)
      == "First sentence." + " " + "Second sentence." + " " + "Third."
  {
    ExampleSeparable();
    ExampleText();
    ExampleKept();
    SummaryOfParagraph("p", ExampleSentences, "en", 3);
  }

  // ---------------------------------------------------------------------------
  // Locale (lines 47-50)
  // ---------------------------------------------------------------------------

  lemma TwoSentences(a: string, b: string, lang: string)
    requires IsSentence(a, lang) && IsSentence(b, lang)
    requires EndsSentence(a[|a| - 1], lang)
    ensures Sentences(a + " " + b, lang) == [a, b]
  {
    var ss := [a, b];
    assert ss[1..] == [b];
    assert Join(ss, " ") == a + " " + b;
    SentencesRoundTrip(ss, lang);
  }

  /** After the locale's own question mark, a space starts a new sentence. */
  lemma QuestionMarkSplits(a: string, b: string, lang: string)
    requires IsSentence(a, lang) && IsSentence(b, lang)
    requires a[|a| - 1] == QuestionMark(lang)
    ensures Sentences(a + " " + b, lang) == [a, b]
  {
    TwoSentences(a, b, lang);
  }

  /** After the other locale's question mark, it does not. */
  lemma OtherQuestionMarkJoins(a: string, b: string, lang: string)
    requires IsSentence(a, lang) && IsSentence(b, lang)
    requires a[|a| - 1] == OtherQuestionMark(lang)
    ensures Sentences(a + " " + b, lang) == [a + " " + b]
  {
    var s := a + " " + b;
    JoinSpaces(a, b);
    assert NoBreak(s, lang) by {
      forall i | 0 < i < |s| ensures !(EndsSentence(s[i - 1], lang) && IsSpace(s[i])) {
        if i < |a| {
          assert s[i - 1] == a[i - 1] && s[i] == a[i];
        } else if i > |a| + 1 {
          assert s[i - 1] == b[i - |a| - 2] && s[i] == b[i - |a| - 1];
        } else if i == |a| + 1 {
          assert s[i] == b[0];
        }
      }
    }
    assert '<' !in s;
    assert s[|s| - 1] == b[|b| - 1];
    TwoSentencesOne(s, lang);
  }

  lemma TwoSentencesOne(s: string, lang: string)
    requires IsSentence(s, lang)
    ensures Sentences(s, lang) == [s]
  {
    assert Join([s], " ") == s;
    SentencesRoundTrip([s], lang);
  }
}
