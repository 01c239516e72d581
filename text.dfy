/** Character classes and the string passes that the generator's regular
    expressions and `str` methods perform, written out character by character. */
module Text {

  /** Python's `str.isspace()`, which is also what `\s` matches in a Unicode pattern. */
  predicate IsSpace(c: char) {
    if c <= ' ' then
      c == ' ' || ('\t' <= c <= '\r') || ('\U{1C}' <= c <= '\U{1F}')
    else if c < '\U{85}' then
      false
    else
      c == '\U{85}' || c == '\U{A0}' || c == '\U{1680}' || ('\U{2000}' <= c <= '\U{200A}')
        || c == '\U{2028}' || c == '\U{2029}' || c == '\U{202F}' || c == '\U{205F}' || c == '\U{3000}'
  }

  /** The word characters `\w` keeps here: ASCII letters and digits, `_`,
      U+00C0-U+00FF without U+00D7 and U+00F7, U+0620-U+064A and U+0660-U+0669. */
  predicate IsWordChar(c: char) {
    ('a' <= c <= 'z') || ('A' <= c <= 'Z') || ('0' <= c <= '9') || c == '_'
    || ('\U{C0}' <= c <= '\U{FF}' && c != '\U{D7}' && c != '\U{F7}')
    || ('\U{620}' <= c <= '\U{64A}') || ('\U{660}' <= c <= '\U{669}')
  }

  lemma WordCharIsNotSpace(c: char)
    ensures IsWordChar(c) || c == '-' ==> !IsSpace(c)
  {
  }

  /** The capitals `lower()` is modelled for: `A`-`Z` and `À`-`Þ` without `×`. */
  predicate IsCapital(c: char) {
    'A' <= c <= 'Z' || ('\U{C0}' <= c <= '\U{DE}' && c != '\U{D7}')
  }

  /** `str.lower()` on one character, for the capitals of ASCII and Latin-1. */
  function ToLower(c: char): (r: char)
    ensures IsCapital(c) ==> r as int == c as int + 32 && !IsCapital(r)
    ensures !IsCapital(c) ==> r == c
    ensures IsWordChar(c) <==> IsWordChar(r)
    ensures IsSpace(r) <==> IsSpace(c)
  {
    if IsCapital(c) then (c as int + 32) as char
    else c
  }

  lemma ToLowerIdempotent(c: char)
    ensures ToLower(ToLower(c)) == ToLower(c)
  {
  }

  function Lower(s: string): (r: string)
    ensures |r| == |s|
    ensures forall i :: 0 <= i < |s| ==> r[i] == ToLower(s[i])
  {
    seq(|s|, i requires 0 <= i < |s| => ToLower(s[i]))
  }

  predicate AllSpace(s: string) {
    forall i :: 0 <= i < |s| ==> IsSpace(s[i])
  }

  predicate NoSpace(s: string) {
    forall i :: 0 <= i < |s| ==> !IsSpace(s[i])
  }

  /** Every whitespace character of `s` is `rep`. */
  ghost predicate SpacesAre(s: string, rep: char) {
    forall i :: 0 <= i < |s| && IsSpace(s[i]) ==> s[i] == rep
  }

  /** No two whitespace characters of `s` are adjacent. */
  ghost predicate NoAdjacentSpaces(s: string) {
    forall i :: 0 < i < |s| ==> !(IsSpace(s[i - 1]) && IsSpace(s[i]))
  }

  /** The only whitespace is `' '` and no two whitespace characters are adjacent. */
  ghost predicate Normalized(s: string) {
    SpacesAre(s, ' ') && NoAdjacentSpaces(s)
  }

  lemma ConsSpaces(c: char, s: string, rep: char)
    requires SpacesAre(s, rep) && NoAdjacentSpaces(s)
    requires IsSpace(c) ==> c == rep && (s == [] || !IsSpace(s[0]))
    ensures SpacesAre([c] + s, rep) && NoAdjacentSpaces([c] + s)
  {
    var r := [c] + s;
    forall i | 0 < i < |r| ensures !(IsSpace(r[i - 1]) && IsSpace(r[i])) {
      if i > 1 {
        assert r[i - 1] == s[i - 2] && r[i] == s[i - 1];
      }
    }
  }

  lemma JoinSpaces(a: string, b: string)
    requires Normalized(a) && Normalized(b)
    requires a != [] && b != [] && !IsSpace(a[|a| - 1]) && !IsSpace(b[0])
    ensures Normalized(a + " " + b)
  {
    var r := a + " " + b;
    forall i | 0 < i < |r| ensures !(IsSpace(r[i - 1]) && IsSpace(r[i])) {
      if i < |a| {
        assert r[i - 1] == a[i - 1] && r[i] == a[i];
      } else if i > |a| + 1 {
        assert r[i - 1] == b[i - |a| - 2] && r[i] == b[i - |a| - 1];
      }
    }
    forall i | 0 <= i < |r| && IsSpace(r[i]) ensures r[i] == ' ' {
      if i < |a| {
        assert r[i] == a[i];
      } else if i > |a| {
        assert r[i] == b[i - |a| - 1];
      }
    }
  }

  /** A piece of a normalized string is normalized. */
  lemma NormalizedPiece(s: string, t: string, a: nat)
    requires a + |t| <= |s|
    requires forall i :: 0 <= i < |t| ==> t[i] == s[a + i]
    ensures Normalized(s) ==> Normalized(t)
  {
    if Normalized(s) {
      forall i | 0 < i < |t| ensures !(IsSpace(t[i - 1]) && IsSpace(t[i])) {
        assert t[i - 1] == s[a + i - 1] && t[i] == s[a + i];
      }
    }
  }

  /** `str.lstrip()`: drops the leading whitespace. */
  function TrimLeft(s: string): (r: string)
    ensures |r| <= |s| && r == s[|s| - |r|..]
    ensures r == [] || !IsSpace(r[0])
    ensures s != [] && IsSpace(s[0]) ==> |r| < |s|
  {
    if s != [] && IsSpace(s[0]) then TrimLeft(s[1..]) else s
  }

  /** `str.rstrip()`: drops the trailing whitespace. */
  function TrimRight(s: string): (r: string)
    ensures |r| <= |s| && r == s[..|r|]
    ensures r == [] || !IsSpace(r[|r| - 1])
  {
    if s != [] && IsSpace(s[|s| - 1]) then TrimRight(s[..|s| - 1]) else s
  }

  lemma {:induction false} TrimLeftEmpty(s: string)
    ensures TrimLeft(s) == [] <==> AllSpace(s)
  {
    if s == [] {
    } else if !IsSpace(s[0]) {
      assert TrimLeft(s) == s;
    } else {
      var t := s[1..];
      assert TrimLeft(s) == TrimLeft(t);
      TrimLeftEmpty(t);
      if AllSpace(t) {
        forall i | 0 <= i < |s| ensures IsSpace(s[i]) {
          if i > 0 {
            assert s[i] == t[i - 1];
          }
        }
      }
      if AllSpace(s) {
        forall i | 0 <= i < |t| ensures IsSpace(t[i]) {
          assert t[i] == s[i + 1];
        }
      }
    }
  }

  lemma {:induction false} TrimRightEmpty(s: string)
    ensures TrimRight(s) == [] <==> AllSpace(s)
  {
    if s == [] {
    } else if !IsSpace(s[|s| - 1]) {
      assert TrimRight(s) == s;
    } else {
      var p := s[..|s| - 1];
      assert TrimRight(s) == TrimRight(p);
      TrimRightEmpty(p);
      if AllSpace(p) {
        forall i | 0 <= i < |s| ensures IsSpace(s[i]) {
          if i < |s| - 1 {
            assert s[i] == p[i];
          }
        }
      }
      if AllSpace(s) {
        forall i | 0 <= i < |p| ensures IsSpace(p[i]) {
          assert p[i] == s[i];
        }
      }
    }
  }

  /** `str.strip()`: the text between the leading and the trailing whitespace. */
  function Strip(s: string): (r: string)
    ensures |r| <= |s|
    ensures r == [] || (!IsSpace(r[0]) && !IsSpace(r[|r| - 1]))
  {
    TrimRight(TrimLeft(s))
  }

  /** `lstrip` removes only whitespace. */
  lemma {:induction false} TrimLeftDrops(s: string)
    ensures AllSpace(s[..|s| - |TrimLeft(s)|])
  {
    if s != [] && IsSpace(s[0]) {
      var t := s[1..];
      TrimLeftDrops(t);
      var d := s[..|s| - |TrimLeft(s)|];
      forall i | 0 <= i < |d| ensures IsSpace(d[i]) {
        if i > 0 {
          assert d[i] == t[..|t| - |TrimLeft(t)|][i - 1];
        }
      }
    }
  }

  /** `rstrip` removes only whitespace. */
  lemma {:induction false} TrimRightDrops(s: string)
    ensures AllSpace(s[|TrimRight(s)|..])
  {
    if s != [] && IsSpace(s[|s| - 1]) {
      var p := s[..|s| - 1];
      TrimRightDrops(p);
      var d := s[|TrimRight(s)|..];
      forall i | 0 <= i < |d| ensures IsSpace(d[i]) {
        if i < |d| - 1 {
          assert d[i] == p[|TrimRight(p)|..][i];
        }
      }
    }
  }

  /** The stripped text is the piece of `s` that starts at `a`, and everything
      before and after that piece is whitespace. */
  lemma StripSlice(s: string) returns (a: nat)
    ensures a + |Strip(s)| <= |s|
    ensures forall i :: 0 <= i < |Strip(s)| ==> Strip(s)[i] == s[a + i]
    ensures AllSpace(s[..a]) && AllSpace(s[a + |Strip(s)|..])
  {
    var l := TrimLeft(s);
    var r := TrimRight(l);
    a := |s| - |l|;
    forall i | 0 <= i < |r| ensures r[i] == s[a + i] {
      assert r[i] == l[i];
    }
    TrimLeftDrops(s);
    TrimRightDrops(l);
    assert s[a + |r|..] == l[|r|..];
  }

  /** Stripping keeps normalized text normalized. */
  lemma StripNormalized(s: string)
    requires Normalized(s)
    ensures Normalized(Strip(s))
  {
    var a := StripSlice(s);
    NormalizedPiece(s, Strip(s), a);
  }

  /** Stripping leaves nothing exactly when the text is all whitespace. */
  lemma StripEmpty(s: string)
    ensures Strip(s) == [] <==> AllSpace(s)
  {
    var l := TrimLeft(s);
    TrimLeftEmpty(s);
    TrimRightEmpty(l);
    if l != [] {
      assert !AllSpace(l);
      assert !IsSpace(s[|s| - |l|]);
    }
  }

  /** Text that neither starts nor ends with whitespace is left as it is. */
  lemma StripEdges(s: string)
    requires s == [] || (!IsSpace(s[0]) && !IsSpace(s[|s| - 1]))
    ensures Strip(s) == s
  {
    assert TrimLeft(s) == s;
    assert TrimRight(s) == s;
  }

  /** `re.sub(r"\s+", rep, s)`: every maximal run of whitespace becomes one `rep`. */
  function ReplaceSpaceRuns(s: string, rep: char): (r: string)
    ensures r == [] <==> s == []
    ensures s != [] && !IsSpace(s[0]) ==> r[0] == s[0]
    ensures s != [] && IsSpace(s[0]) ==> r[0] == rep
    decreases |s|
  {
    if s == [] then []
    else if IsSpace(s[0]) then [rep] + ReplaceSpaceRuns(TrimLeft(s), rep)
    else [s[0]] + ReplaceSpaceRuns(s[1..], rep)
  }

  /** After the pass, every whitespace character is `rep` and none is next to another. */
  lemma {:induction false} ReplaceSpaceRunsSpaces(s: string, rep: char)
    ensures SpacesAre(ReplaceSpaceRuns(s, rep), rep) && NoAdjacentSpaces(ReplaceSpaceRuns(s, rep))
    decreases |s|
  {
    if s != [] {
      if IsSpace(s[0]) {
        var t := TrimLeft(s);
        ReplaceSpaceRunsSpaces(t, rep);
        ConsSpaces(rep, ReplaceSpaceRuns(t, rep), rep);
      } else {
        ReplaceSpaceRunsSpaces(s[1..], rep);
        ConsSpaces(s[0], ReplaceSpaceRuns(s[1..], rep), rep);
      }
    }
  }

  /** Text that is already normalized is left as it is by the whitespace pass. */
  lemma {:induction false} ReplaceSpaceRunsNormalized(s: string)
    requires Normalized(s)
    ensures ReplaceSpaceRuns(s, ' ') == s
    decreases |s|
  {
    if s != [] {
      NormalizedPiece(s, s[1..], 1);
      if IsSpace(s[0]) {
        assert |s| > 1 ==> !IsSpace(s[1]);
        assert TrimLeft(s) == TrimLeft(s[1..]) == s[1..];
      }
      ReplaceSpaceRunsNormalized(s[1..]);
    }
  }

  /** `lstrip()` of a whitespace run followed by text that does not start with
      whitespace is that text. */
  lemma {:induction false} TrimLeftRun(w: string, t: string)
    requires AllSpace(w) && (t == [] || !IsSpace(t[0]))
    ensures TrimLeft(w + t) == t
  {
    if w == [] {
      assert w + t == t;
    } else {
      assert (w + t)[0] == w[0];
      assert (w + t)[1..] == w[1..] + t;
      TrimLeftRun(w[1..], t);
    }
  }

  /** A whole run of whitespace, however long, becomes one `rep`, and the pass
      goes on after it; with `Slug.ReplaceSpaceRunsAfterWord` this fixes the
      result on every input. */
  lemma ReplaceSpaceRunsRun(w: string, t: string, rep: char)
    requires w != [] && AllSpace(w) && (t == [] || !IsSpace(t[0]))
    ensures ReplaceSpaceRuns(w + t, rep) == [rep] + ReplaceSpaceRuns(t, rep)
  {
    assert (w + t)[0] == w[0];
    TrimLeftRun(w, t);
  }

  /** Whitespace-only text becomes at most one `rep`. */
  lemma {:induction false} ReplaceSpaceRunsAllSpace(s: string, rep: char)
    requires AllSpace(s)
    ensures ReplaceSpaceRuns(s, rep) == if s == [] then [] else [rep]
  {
    if s != [] {
      assert TrimLeft(s) == [];
    }
  }

  /** The index of the first `c` in `s`, or `|s|` when `s` holds none. */
  function IndexOf(s: string, c: char): (k: nat)
    ensures k <= |s|
    ensures k < |s| ==> s[k] == c
  {
    if s == [] then 0
    else if s[0] == c then 0
    else 1 + IndexOf(s[1..], c)
  }

  /** No `c` comes before the index `IndexOf` finds. */
  lemma {:induction false} IndexOfFirst(s: string, c: char, i: nat)
    requires i < IndexOf(s, c)
    ensures s[i] != c
  {
    if i > 0 {
      IndexOfFirst(s[1..], c, i - 1);
    }
  }

  /** Any index where `c` sits, with no `c` before it, is the one `IndexOf` finds. */
  lemma {:induction false} IndexOfAt(s: string, c: char, j: nat)
    requires j < |s| && s[j] == c
    requires forall i :: 0 <= i < j ==> s[i] != c
    ensures IndexOf(s, c) == j
  {
    if j > 0 {
      IndexOfAt(s[1..], c, j - 1);
    }
  }

  /** Without any `c`, `IndexOf` runs to the end. */
  lemma {:induction false} IndexOfAbsent(s: string, c: char)
    requires c !in s
    ensures IndexOf(s, c) == |s|
  {
    if s != [] {
      IndexOfAbsent(s[1..], c);
    }
  }

  /** `sep.join(parts)`. */
  function Join(parts: seq<string>, sep: string): (r: string)
    ensures |parts| == 1 ==> r == parts[0]
  {
    if |parts| == 0 then []
    else if |parts| == 1 then parts[0]
    else parts[0] + sep + Join(parts[1..], sep)
  }

  /** A character of a joined string comes from one of the parts or from the separator. */
  lemma {:induction false} JoinChars(parts: seq<string>, sep: string, c: char)
    requires c !in sep
    requires forall k :: 0 <= k < |parts| ==> c !in parts[k]
    ensures c !in Join(parts, sep)
  {
    if |parts| > 1 {
      JoinChars(parts[1..], sep, c);
    }
  }

  /** Joining normalized pieces that do not start or end with whitespace with
      single spaces gives normalized text that does not start or end with whitespace. */
  lemma {:induction false} JoinNormalized(parts: seq<string>)
    requires forall k :: 0 <= k < |parts| ==> parts[k] != [] && Normalized(parts[k])
    requires forall k :: 0 <= k < |parts| ==> !IsSpace(parts[k][0]) && !IsSpace(parts[k][|parts[k]| - 1])
    ensures Normalized(Join(parts, " "))
    ensures parts != [] ==> Join(parts, " ") != []
    ensures parts != [] ==> Join(parts, " ")[0] == parts[0][0]
    ensures parts != [] ==> !IsSpace(Join(parts, " ")[|Join(parts, " ")| - 1])
  {
    if |parts| > 1 {
      JoinNormalized(parts[1..]);
      var h, t := parts[0], Join(parts[1..], " ");
      assert Join(parts, " ") == h + " " + t;
      JoinSpaces(h, t);
      assert (h + " " + t)[|h + " " + t| - 1] == t[|t| - 1];
    }
  }

  /** `s[:n]` for a non-negative `n`. */
  function Prefix<T>(s: seq<T>, n: nat): (r: seq<T>)
    ensures |r| <= n && |r| <= |s|
    ensures |s| <= n ==> r == s
    ensures r == s[..|r|]
  {
    if |s| <= n then s else s[..n]
  }

  /** `s[:n]` for any integer `n`, with Python's reading of a negative bound. */
  function PySlicePrefix<T>(s: seq<T>, n: int): (r: seq<T>)
    ensures n >= 0 ==> |r| == if n < |s| then n else |s|
    ensures n < 0 ==> |r| == if |s| + n < 0 then 0 else |s| + n
    ensures r == s[..|r|]
  {
    if n >= 0 then Prefix(s, n)
    else if |s| + n < 0 then []
    else s[..|s| + n]
  }

  function StartsWith(s: string, prefix: string): bool {
    |prefix| <= |s| && s[..|prefix|] == prefix
  }

  /** `str.endswith`. */
  function EndsWith(s: string, suffix: string): (b: bool)
    ensures b <==> |suffix| <= |s| && s == s[..|s| - |suffix|] + suffix
  {
    |suffix| <= |s| && s[|s| - |suffix|..] == suffix
  }

  /** Whatever precedes it, a string ends with its own last part. */
  lemma EndsWithAppend(p: string, suffix: string)
    ensures EndsWith(p + suffix, suffix)
  {
    assert (p + suffix)[|p|..] == suffix;
  }
}
