/** `slugify` (generator.py:55-58): a file-name-safe identifier derived from a post title. */
module Slug {
  import opened Text

  /** The longest slug the truncation keeps. */
  const MaxSlugLength: nat := 60

  /** The hexadecimal MD5 digest of the empty byte string. */
  const EmptyMd5Hex: string := "d41d8cd98f00b204e9800998ecf8427e"

  /** The fallback slug: the first ten hex digits of that digest. */
  const FallbackSlug: string := "d41d8cd98f"

  /** What `[^\w\s-]` does not match: word characters, whitespace and `-`. */
  predicate IsSlugChar(c: char) {
    IsWordChar(c) || IsSpace(c) || c == '-'
  }

  /** A character that survives into a slug: a word character or `-`. */
  predicate IsSafeChar(c: char) {
    IsWordChar(c) || c == '-'
  }

  predicate AllSlugChars(s: string) {
    forall i :: 0 <= i < |s| ==> IsSlugChar(s[i])
  }

  predicate AllSafe(s: string) {
    forall i :: 0 <= i < |s| ==> IsSafeChar(s[i])
  }

  /** Some character of `s` would survive into a slug. */
  ghost predicate HasSafeChar(s: string) {
    exists i :: 0 <= i < |s| && IsSafeChar(s[i])
  }

  /** `re.sub(r"[^\w\s-]", "", s)`: keeps the slug characters, in order. */
  function KeepSlugChars(s: string): (r: string)
    ensures |r| <= |s|
    ensures AllSlugChars(r)
    ensures AllSlugChars(s) ==> r == s
  {
    if s == [] then []
    else if IsSlugChar(s[0]) then [s[0]] + KeepSlugChars(s[1..])
    else KeepSlugChars(s[1..])
  }

  /** On one character the filter keeps it exactly when it is a slug character. */
  lemma KeepSlugCharsOne(c: char)
    ensures KeepSlugChars([c]) == if IsSlugChar(c) then [c] else []
  {
    assert [c][1..] == [];
  }

  /** The filter works character by character: filtering a concatenation is
      concatenating the filtered parts. */
  lemma {:induction false} KeepSlugCharsAppend(a: string, b: string)
    ensures KeepSlugChars(a + b) == KeepSlugChars(a) + KeepSlugChars(b)
  {
    if a != [] {
      assert (a + b)[0] == a[0];
      assert (a + b)[1..] == a[1..] + b;
      KeepSlugCharsAppend(a[1..], b);
    } else {
      assert a + b == b;
    }
  }

  lemma HasSafeCons(c: char, s: string)
    ensures HasSafeChar([c] + s) <==> IsSafeChar(c) || HasSafeChar(s)
  {
    var r := [c] + s;
    if IsSafeChar(c) {
      assert IsSafeChar(r[0]);
    }
    if HasSafeChar(r) && !IsSafeChar(c) {
      var i :| 0 <= i < |r| && IsSafeChar(r[i]);
      assert IsSafeChar(s[i - 1]);
    }
    if HasSafeChar(s) {
      var i :| 0 <= i < |s| && IsSafeChar(s[i]);
      assert IsSafeChar(r[i + 1]);
    }
  }

  /** The filter removes no word character and no `-`. */
  lemma {:induction false} KeepSlugCharsSafe(s: string)
    ensures HasSafeChar(KeepSlugChars(s)) <==> HasSafeChar(s)
  {
    if s != [] {
      KeepSlugCharsSafe(s[1..]);
      assert s == [s[0]] + s[1..];
      HasSafeCons(s[0], s[1..]);
      HasSafeCons(s[0], KeepSlugChars(s[1..]));
    }
  }

  /** `hashlib.md5(s.encode("utf-8")).hexdigest()`. The slug pass only ever
      hashes the empty string, so the digest is given for that input alone. */
  function Md5Hex(s: string): (h: string)
    requires s == []
    ensures |h| == 32
  {
    EmptyMd5Hex
  }

  /** The first two passes: filter, strip, then every whitespace run becomes `-`. */
  function Hyphenated(title: string): (s: string)
    ensures AllSafe(s)
  {
    var t := Strip(KeepSlugChars(title));
    StripSlugChars(KeepSlugChars(title));
    SpacesBecomeHyphens(t);
    ReplaceSpaceRuns(t, '-')
  }

  lemma StripSlugChars(k: string)
    requires AllSlugChars(k)
    ensures AllSlugChars(Strip(k))
  {
    var t := Strip(k);
    var a := StripSlice(k);
    forall i | 0 <= i < |t| ensures IsSlugChar(t[i]) {
      assert t[i] == k[a + i];
    }
  }

  /** Replacing whitespace by `-` in slug characters leaves only safe characters. */
  lemma {:induction false} SpacesBecomeHyphens(s: string)
    requires AllSlugChars(s)
    ensures AllSafe(ReplaceSpaceRuns(s, '-'))
    decreases |s|
  {
    var r := ReplaceSpaceRuns(s, '-');
    if s != [] {
      if IsSpace(s[0]) {
        var t := TrimLeft(s);
        assert AllSlugChars(t) by {
          forall i | 0 <= i < |t| ensures IsSlugChar(t[i]) {
            assert t[i] == s[|s| - |t| + i];
          }
        }
        SpacesBecomeHyphens(t);
      } else {
        SpacesBecomeHyphens(s[1..]);
      }
    }
  }

  /** `s[:60].lower()`. */
  function LowerCut(s: string): (r: string)
    requires AllSafe(s)
    ensures |r| <= MaxSlugLength && (r == [] <==> s == [])
    ensures AllSafe(r)
    ensures forall i :: 0 <= i < |r| ==> ToLower(r[i]) == r[i]
  {
    var p := Prefix(s, MaxSlugLength);
    var r := Lower(p);
    forall i | 0 <= i < |r| ensures ToLower(r[i]) == r[i] {
      ToLowerIdempotent(p[i]);
    }
    r
  }

  /** `s[:60].lower() or md5(s)[:10]`, where `s` is the hyphenated title. */
  function Slugify(title: string): (slug: string)
    ensures 1 <= |slug| <= MaxSlugLength
    ensures AllSafe(slug)
    ensures forall i :: 0 <= i < |slug| ==> ToLower(slug[i]) == slug[i]
  {
    var s := Hyphenated(title);
    var cut := LowerCut(s);
    if cut != [] then cut
    else
      FallbackChars();
      Md5Hex(s)[..10]
  }

  lemma FallbackChars()
    ensures EmptyMd5Hex[..10] == FallbackSlug
    ensures AllSafe(FallbackSlug)
    ensures forall i :: 0 <= i < |FallbackSlug| ==> ToLower(FallbackSlug[i]) == FallbackSlug[i]
  {
  }

  /** A slug holds no whitespace. */
  lemma SlugHasNoSpace(title: string)
    ensures NoSpace(Slugify(title))
  {
    var slug := Slugify(title);
    forall i | 0 <= i < |slug| ensures !IsSpace(slug[i]) {
      WordCharIsNotSpace(slug[i]);
    }
  }

  /** The hyphenated title is empty exactly when the title holds no word character and no `-`. */
  lemma HyphenatedEmptyIff(title: string)
    ensures Hyphenated(title) == [] <==> !HasSafeChar(title)
  {
    var k := KeepSlugChars(title);
    KeepSlugCharsSafe(title);
    StripEmpty(k);
    SafeIffNotAllSpace(k);
  }

  /** Among slug characters, the safe ones are exactly the non-whitespace ones. */
  lemma SafeIffNotAllSpace(k: string)
    requires AllSlugChars(k)
    ensures HasSafeChar(k) <==> !AllSpace(k)
  {
    if HasSafeChar(k) {
      var i :| 0 <= i < |k| && IsSafeChar(k[i]);
      WordCharIsNotSpace(k[i]);
    }
    if !AllSpace(k) {
      var i :| 0 <= i < |k| && !IsSpace(k[i]);
      assert IsSafeChar(k[i]);
    }
  }

  /** Every title with no word character and no `-` gets the same slug: the
      digest of the emptied string, not of the title. */
  lemma FallbackIsConstant(title: string)
    requires forall i :: 0 <= i < |title| ==> !IsSafeChar(title[i])
    ensures Slugify(title) == FallbackSlug
  {
    HyphenatedEmptyIff(title);
  }

  /** Otherwise the slug is the lower-cased first sixty characters of the hyphenated title. */
  lemma SlugOfWordyTitle(title: string, i: nat)
    requires i < |title| && IsSafeChar(title[i])
    ensures Slugify(title) == LowerCut(Hyphenated(title))
  {
    HyphenatedEmptyIff(title);
  }

  /** Text without whitespace is left as it is by the whitespace pass. */
  lemma {:induction false} ReplaceSpaceRunsNoSpace(s: string, rep: char)
    requires NoSpace(s)
    ensures ReplaceSpaceRuns(s, rep) == s
  {
    if s != [] {
      ReplaceSpaceRunsNoSpace(s[1..], rep);
    }
  }

  /** A whitespace-free head passes through the whitespace pass untouched. */
  lemma {:induction false} ReplaceSpaceRunsAfterWord(a: string, b: string, rep: char)
    requires NoSpace(a)
    ensures ReplaceSpaceRuns(a + b, rep) == a + ReplaceSpaceRuns(b, rep)
  {
    if a == [] {
      assert a + b == b;
    } else {
      assert (a + b)[1..] == a[1..] + b;
      ReplaceSpaceRunsAfterWord(a[1..], b, rep);
    }
  }

  lemma HyphenatedSafe(x: string)
    requires AllSafe(x)
    ensures Hyphenated(x) == x
  {
    assert KeepSlugChars(x) == x by {
      assert AllSlugChars(x) by {
        forall i | 0 <= i < |x| ensures IsSlugChar(x[i]) {
          assert IsSafeChar(x[i]);
        }
      }
    }
    assert NoSpace(x) by {
      forall i | 0 <= i < |x| ensures !IsSpace(x[i]) {
        WordCharIsNotSpace(x[i]);
      }
    }
    StripEdges(x);
    ReplaceSpaceRunsNoSpace(x, '-');
  }

  /** A slug is its own slug. */
  lemma SlugifyIdempotent(title: string)
    ensures Slugify(Slugify(title)) == Slugify(title)
  {
    var x := Slugify(title);
    assert Hyphenated(x) == x by {
      HyphenatedSafe(x);
    }
    assert LowerCut(x) == x by {
      assert Prefix(x, MaxSlugLength) == x;
      assert Lower(x) == x;
    }
  }

  /** A worked title: punctuation goes, the space becomes `-`, capitals are lowered. */
  lemma SlugExample()
    ensures Slugify("Hello, World!") == "hello-world"
  {
    SlugExampleKept();
    StripEdges("Hello World");
    SlugExampleHyphenated();
    SlugExampleLowered();
  }

  lemma SlugExampleKept()
    ensures KeepSlugChars("Hello, World!") == "Hello World"
  {
    SlugExampleHead();
    SlugExampleTail();
    SlugExampleHalves();
    KeepSlugCharsAppend("Hello,", " World!");
  }

  lemma SlugExampleHead()
    ensures KeepSlugChars("Hello,") == "Hello"
  {
    assert AllSlugChars("Hello");
    assert KeepSlugChars(",") == [];
    assert "Hello," == "Hello" + ",";
    KeepSlugCharsAppend("Hello", ",");
  }

  lemma SlugExampleTail()
    ensures KeepSlugChars(" World!") == " World"
  {
    assert AllSlugChars(" World");
    assert KeepSlugChars("!") == [];
    assert " World!" == " World" + "!";
    KeepSlugCharsAppend(" World", "!");
  }

  /** The literal splittings the worked example goes through. */
  lemma SlugExampleHalves()
    ensures "Hello, World!" == "Hello," + " World!" && "Hello" + " World" == "Hello World"
  {
  }

  lemma SlugExampleWords()
    ensures "Hello World" == "Hello" + " World" && "Hello" + "-World" == "Hello-World"
  {
  }

  lemma SlugExampleHyphenated()
    ensures ReplaceSpaceRuns("Hello World", '-') == "Hello-World"
  {
    SlugExampleWords();
    assert NoSpace("Hello");
    ReplaceSpaceRunsAfterWord("Hello", " World", '-');
    SlugExampleSpace();
  }

  lemma SlugExampleSpace()
    ensures ReplaceSpaceRuns(" World", '-') == "-World"
  {
    var w := " World";
    assert TrimLeft(w[1..]) == w[1..];
    assert TrimLeft(w) == w[1..];
    ReplaceSpaceRunsNoSpace(w[1..], '-');
    assert "-World" == ['-'] + w[1..];
  }

  lemma SlugExampleLowered()
    ensures LowerCut("Hello-World") == "hello-world"
  {
  }
}
