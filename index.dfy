// The merge step of `rebuild_index`: new records go in front of the stored
// index, the first record for each path is kept, and the index is capped.
// Reading and writing `posts/index.json` is left to the caller, who passes
// the stored records in (`[]` when the file is missing or unreadable).

module IndexManager {
  import opened Text
  import opened PostRenderer

  /** The index keeps at most this many records. */
  const MaxIndexEntries := 200

  /** The paths of a list of records. */
  function PathSet(es: seq<PostRecord>): (ps: set<string>)
  {
    if es == [] then {} else {es[0].path} + PathSet(es[1..])
  }

  /** No two records share a path. */
  predicate UniquePaths(es: seq<PostRecord>) {
    es == [] || (es[0].path !in PathSet(es[1..]) && UniquePaths(es[1..]))
  }

  /** The records of `es` whose path is neither in `seen` nor on an earlier record. */
  function DedupFrom(es: seq<PostRecord>, seen: set<string>): (r: seq<PostRecord>)
    ensures |r| <= |es|
  {
    if es == [] then []
    else if es[0].path in seen then DedupFrom(es[1..], seen)
    else [es[0]] + DedupFrom(es[1..], seen + {es[0].path})
  }

  /** The first record for each path, in order. */
  function Dedup(es: seq<PostRecord>): (r: seq<PostRecord>)
    ensures |r| <= |es|
    ensures r == [] <==> es == []
    ensures es != [] ==> r[0] == es[0]
  {
    DedupFrom(es, {})
  }

  /** The index after a run: `(entries + current)` deduplicated, then cut to 200. */
  function Merge(entries: seq<PostRecord>, current: seq<PostRecord>): (r: seq<PostRecord>)
    ensures |r| <= MaxIndexEntries
  {
    Prefix(Dedup(entries + current), MaxIndexEntries)
  }

  lemma {:induction false} PathSetAppend(a: seq<PostRecord>, b: seq<PostRecord>)
    ensures PathSet(a + b) == PathSet(a) + PathSet(b)
  {
    if a != [] {
      assert (a + b)[0] == a[0];
      assert (a + b)[1..] == a[1..] + b;
      PathSetAppend(a[1..], b);
      calc {
        PathSet(a + b);
        ({a[0].path} + PathSet(a[1..] + b));
        ({a[0].path} + (PathSet(a[1..]) + PathSet(b)));
        PathSet(a) + PathSet(b);
      }
    } else {
      assert a + b == b;
    }
  }

  /** `rebuild_index(entries)` with the stored index passed as `current`:
      the loop over `entries + current` with its `seen` set, then the cut. */
  method RebuildIndex(entries: seq<PostRecord>, current: seq<PostRecord>) returns (index: seq<PostRecord>)
    ensures index == Merge(entries, current)
  {
    var all := entries + current;
    var seen: set<string> := {};
    var unique: seq<PostRecord> := [];
    for i := 0 to |all|
      invariant seen == PathSet(unique)
      invariant unique + DedupFrom(all[i..], seen) == Dedup(all)
    {
      var e := all[i];
      DedupStep(all, i, unique, seen);
      if e.path !in seen {
        unique := unique + [e];
        seen := seen + {e.path};
      }
    }
    index := Prefix(unique, MaxIndexEntries);
  }

  /** One turn of the loop in `RebuildIndex`. */
  lemma DedupStep(all: seq<PostRecord>, i: nat, unique: seq<PostRecord>, seen: set<string>)
    requires i < |all| && seen == PathSet(unique)
    ensures all[i].path in seen ==> DedupFrom(all[i..], seen) == DedupFrom(all[i + 1..], seen)
    ensures all[i].path !in seen ==>
      unique + DedupFrom(all[i..], seen) == (unique + [all[i]]) + DedupFrom(all[i + 1..], seen + {all[i].path})
      && PathSet(unique + [all[i]]) == seen + {all[i].path}
  {
    var e := all[i];
    assert all[i..][1..] == all[i + 1..];
    if e.path !in seen {
      PathSetAppend(unique, [e]);
      assert PathSet([e]) == {e.path};
      var rest := DedupFrom(all[i + 1..], seen + {e.path});
      assert unique + ([e] + rest) == (unique + [e]) + rest;
    }
  }

  /** What the dedup keeps: no path twice, and exactly the paths not seen before. */
  lemma {:induction false} DedupFromPaths(es: seq<PostRecord>, seen: set<string>)
    ensures UniquePaths(DedupFrom(es, seen))
    ensures PathSet(DedupFrom(es, seen)) == PathSet(es) - seen
  {
    if es != [] {
      var p := es[0].path;
      if p in seen {
        DedupFromPaths(es[1..], seen);
      } else {
        DedupFromPaths(es[1..], seen + {p});
        var rest := DedupFrom(es[1..], seen + {p});
        assert ([es[0]] + rest)[1..] == rest;
      }
    }
  }

  /** The first record of `es` with path `p`. */
  function FirstWithPath(es: seq<PostRecord>, p: string): (r: PostRecord)
    requires p in PathSet(es)
    ensures r.path == p
  {
    if es[0].path == p then es[0] else FirstWithPath(es[1..], p)
  }

  /** Each kept record is the first one in the input with its path. */
  lemma {:induction false} DedupFromFirst(es: seq<PostRecord>, seen: set<string>, k: nat)
    requires k < |DedupFrom(es, seen)|
    ensures DedupFrom(es, seen)[k].path in PathSet(es)
    ensures DedupFrom(es, seen)[k].path !in seen
    ensures FirstWithPath(es, DedupFrom(es, seen)[k].path) == DedupFrom(es, seen)[k]
  {
    var p := es[0].path;
    if p in seen {
      DedupFromFirst(es[1..], seen, k);
    } else if k > 0 {
      var rest := DedupFrom(es[1..], seen + {p});
      assert DedupFrom(es, seen)[k] == rest[k - 1];
      DedupFromFirst(es[1..], seen + {p}, k - 1);
    }
  }

  /** `a` is `b` with some records left out, in the same order. */
  predicate Subsequence(a: seq<PostRecord>, b: seq<PostRecord>)
    decreases |b|
  {
    if a == [] then true
    else if b == [] then false
    else if a[0] == b[0] then Subsequence(a[1..], b[1..])
    else Subsequence(a, b[1..])
  }

  lemma {:induction false} DedupFromSubsequence(es: seq<PostRecord>, seen: set<string>)
    ensures Subsequence(DedupFrom(es, seen), es)
  {
    if es != [] {
      var p := es[0].path;
      if p in seen {
        DedupFromSubsequence(es[1..], seen);
        SubsequenceSkip(DedupFrom(es[1..], seen), es);
      } else {
        var rest := DedupFrom(es[1..], seen + {p});
        DedupFromSubsequence(es[1..], seen + {p});
        assert ([es[0]] + rest)[1..] == rest;
      }
    }
  }

  /** Dropping the head of `b` keeps what was already a subsequence of its tail. */
  lemma {:induction false} SubsequenceSkip(a: seq<PostRecord>, b: seq<PostRecord>)
    requires b != [] && Subsequence(a, b[1..])
    ensures Subsequence(a, b)
    decreases |b|, |a|
  {
    if a != [] && a[0] == b[0] {
      SubsequenceTail(a, b[1..]);
    }
  }

  /** A subsequence stays one when its first record is dropped. */
  lemma {:induction false} SubsequenceTail(a: seq<PostRecord>, b: seq<PostRecord>)
    requires a != [] && Subsequence(a, b)
    ensures Subsequence(a[1..], b)
    decreases |b|, |a|
  {
    if a[0] == b[0] {
      if a[1..] != [] {
        SubsequenceSkip(a[1..], b);
      }
    } else {
      SubsequenceTail(a, b[1..]);
      if a[1..] != [] {
        SubsequenceSkip(a[1..], b);
      }
    }
  }

  /** The merged index has at most 200 records, no path twice, and only
      records from the new entries or the stored index, in their order. */
  lemma MergeShape(entries: seq<PostRecord>, current: seq<PostRecord>)
    ensures |Merge(entries, current)| <= MaxIndexEntries
    ensures UniquePaths(Merge(entries, current))
    ensures Subsequence(Merge(entries, current), entries + current)
  {
    var d := Dedup(entries + current);
    DedupFromPaths(entries + current, {});
    DedupFromSubsequence(entries + current, {});
    PrefixUnique(d, MaxIndexEntries);
    PrefixSubsequence(d, entries + current, MaxIndexEntries);
  }

  lemma {:induction false} PrefixUnique(es: seq<PostRecord>, n: nat)
    requires UniquePaths(es)
    ensures UniquePaths(Prefix(es, n))
    ensures PathSet(Prefix(es, n)) <= PathSet(es)
  {
    if |es| > n {
      var k := Prefix(es, n);
      var rest := es[n..];
      assert es == k + rest;
      PathSetAppend(k, rest);
      UniqueAppend(k, rest);
    }
  }

  /** The first part of a list without repeated paths has none either. */
  lemma {:induction false} UniqueAppend(a: seq<PostRecord>, b: seq<PostRecord>)
    requires UniquePaths(a + b)
    ensures UniquePaths(a)
  {
    if a != [] {
      assert (a + b)[1..] == a[1..] + b;
      PathSetAppend(a[1..], b);
      UniqueAppend(a[1..], b);
    }
  }

  lemma {:induction false} PrefixSubsequence(a: seq<PostRecord>, b: seq<PostRecord>, n: nat)
    requires Subsequence(a, b)
    ensures Subsequence(Prefix(a, n), b)
    decreases |a|
  {
    if |a| > n {
      var a' := a[..|a| - 1];
      assert Prefix(a, n) == Prefix(a', n);
      DropLast(a, b);
      PrefixSubsequence(a', b, n);
    }
  }

  /** Leaving out the last record of a subsequence keeps it a subsequence. */
  lemma {:induction false} DropLast(a: seq<PostRecord>, b: seq<PostRecord>)
    requires a != [] && Subsequence(a, b)
    ensures Subsequence(a[..|a| - 1], b)
    decreases |b|
  {
    if a[0] == b[0] {
      if |a| > 1 {
        DropLast(a[1..], b[1..]);
        assert a[..|a| - 1][1..] == a[1..][..|a[1..]| - 1];
      }
    } else {
      DropLast(a, b[1..]);
      if |a| > 1 {
        assert a[..|a| - 1][0] == a[0];
      }
    }
  }

  /** Deduplication works left to right: the right part loses every path the
      left part holds. */
  lemma {:induction false} DedupFromAppend(a: seq<PostRecord>, b: seq<PostRecord>, seen: set<string>)
    ensures DedupFrom(a + b, seen) == DedupFrom(a, seen) + DedupFrom(b, seen + PathSet(a))
  {
    if a != [] {
      assert (a + b)[0] == a[0];
      assert (a + b)[1..] == a[1..] + b;
      var p := a[0].path;
      if p in seen {
        DedupFromAppend(a[1..], b, seen);
        assert seen + PathSet(a) == seen + PathSet(a[1..]);
      } else {
        DedupFromAppend(a[1..], b, seen + {p});
        assert seen + {p} + PathSet(a[1..]) == seen + PathSet(a);
        var x, y := DedupFrom(a[1..], seen + {p}), DedupFrom(b, seen + PathSet(a));
        assert [a[0]] + (x + y) == ([a[0]] + x) + y;
      }
    } else {
      assert a + b == b;
      assert seen + PathSet(a) == seen;
    }
  }

  /** Records whose paths have all been seen are all dropped. */
  lemma {:induction false} DedupFromCovered(es: seq<PostRecord>, seen: set<string>)
    requires PathSet(es) <= seen
    ensures DedupFrom(es, seen) == []
  {
    if es != [] {
      DedupFromCovered(es[1..], seen);
    }
  }

  /** Records with distinct, unseen paths are all kept. */
  lemma {:induction false} DedupFromFresh(es: seq<PostRecord>, seen: set<string>)
    requires UniquePaths(es) && PathSet(es) !! seen
    ensures DedupFrom(es, seen) == es
  {
    if es != [] {
      DedupFromFresh(es[1..], seen + {es[0].path});
      assert es == [es[0]] + es[1..];
    }
  }

  /** Every new entry's path survives the merge ahead of the stored index:
      the index starts with the deduplicated new entries. */
  lemma MergeStartsWithNew(entries: seq<PostRecord>, current: seq<PostRecord>)
    ensures var m := Merge(entries, current); var d := Prefix(Dedup(entries), MaxIndexEntries);
      |d| <= |m| && m[..|d|] == d
  {
    DedupFromAppend(entries, current, {});
  }

  /** When a new entry and a stored one share a path, the index holds the
      first new one. */
  lemma NewRecordsWin(entries: seq<PostRecord>, current: seq<PostRecord>, k: nat)
    requires k < |Merge(entries, current)|
    requires Merge(entries, current)[k].path in PathSet(entries)
    ensures Merge(entries, current)[k] == FirstWithPath(entries, Merge(entries, current)[k].path)
  {
    var d := Dedup(entries);
    var x := DedupFrom(current, {} + PathSet(entries));
    DedupFromAppend(entries, current, {});
    DedupFromPaths(current, {} + PathSet(entries));
    var r := Merge(entries, current)[k];
    if k < |d| {
      assert r == d[k];
      DedupFromFirst(entries, {}, k);
    } else {
      assert r == x[k - |d|];
      InPathSet(x, k - |d|);
      assert false;
    }
  }

  lemma {:induction false} InPathSet(es: seq<PostRecord>, k: nat)
    requires k < |es|
    ensures es[k].path in PathSet(es)
  {
    if k > 0 {
      InPathSet(es[1..], k - 1);
    }
  }

  /** Merging the same new entries into the index a second time changes nothing. */
  lemma MergeIdempotent(entries: seq<PostRecord>, current: seq<PostRecord>)
    ensures Merge(entries, Merge(entries, current)) == Merge(entries, current)
  {
    var ps := PathSet(entries);
    var d := Dedup(entries);
    var x := DedupFrom(current, {} + ps);
    DedupFromAppend(entries, current, {});
    DedupFromPaths(entries, {});
    DedupFromPaths(current, {} + ps);
    if |d| >= MaxIndexEntries {
      RemergeFull(entries, d, x);
    } else {
      RemergeRoom(entries, d, x);
    }
  }

  /** The new entries alone fill the index: a second merge adds nothing to them. */
  lemma RemergeFull(entries: seq<PostRecord>, d: seq<PostRecord>, x: seq<PostRecord>)
    requires d == Dedup(entries) && UniquePaths(d) && PathSet(d) == PathSet(entries)
    requires |d| >= MaxIndexEntries
    ensures var r := Prefix(d + x, MaxIndexEntries); Prefix(Dedup(entries + r), MaxIndexEntries) == r
  {
    var r := Prefix(d + x, MaxIndexEntries);
    assert r == Prefix(d, MaxIndexEntries);
    PrefixUnique(d, MaxIndexEntries);
    DedupFromAppend(entries, r, {});
    DedupFromCovered(r, {} + PathSet(entries));
    assert d + [] == d;
  }

  /** Room is left after the new entries: a second merge drops them from the
      old result and keeps the rest, which has fresh, distinct paths. */
  lemma RemergeRoom(entries: seq<PostRecord>, d: seq<PostRecord>, x: seq<PostRecord>)
    requires d == Dedup(entries) && PathSet(d) == PathSet(entries)
    requires UniquePaths(x) && PathSet(x) !! PathSet(entries)
    requires |d| < MaxIndexEntries
    ensures var r := Prefix(d + x, MaxIndexEntries); Prefix(Dedup(entries + r), MaxIndexEntries) == r
  {
    var ps := {} + PathSet(entries);
    var x' := Prefix(x, MaxIndexEntries - |d|);
    var r := Prefix(d + x, MaxIndexEntries);
    assert r == d + x';
    PrefixUnique(x, MaxIndexEntries - |d|);
    DedupFromAppend(entries, r, {});
    DedupAfterOwn(d, x', ps);
  }

  /** Records whose paths were all seen, then fresh distinct ones: only the
      fresh ones are kept. */
  lemma DedupAfterOwn(d: seq<PostRecord>, x: seq<PostRecord>, ps: set<string>)
    requires PathSet(d) <= ps
    requires UniquePaths(x) && PathSet(x) !! ps
    ensures DedupFrom(d + x, ps) == x
  {
    DedupFromAppend(d, x, ps);
    DedupFromCovered(d, ps);
    assert ps + PathSet(d) == ps;
    DedupFromFresh(x, ps);
    assert [] + x == x;
  }

  /** `UniquePaths` in terms of positions: two different places hold different paths. */
  lemma {:induction false} UniquePathsDistinct(es: seq<PostRecord>, i: nat, j: nat)
    requires UniquePaths(es) && i < j < |es|
    ensures es[i].path != es[j].path
  {
    if i == 0 {
      InPathSet(es[1..], j - 1);
    } else {
      UniquePathsDistinct(es[1..], i - 1, j - 1);
    }
  }

  /** A stored index `[A, B]` and new entries `[B', C]`, where `B'` is a newer
      record for `B`'s page, merge into `[B', C, A]`. */
  lemma MergeExample()
    ensures var a := PostRecord("posts/a.html", "A", "", "2024-01-01", "EN");
      var b := PostRecord("posts/b.html", "B", "", "2024-01-01", "EN");
      var b' := PostRecord("posts/b.html", "B again", "", "2024-01-02", "EN");
      var c := PostRecord("posts/c.html", "C", "", "2024-01-02", "EN");
      Merge([b', c], [a, b]) == [b', c, a]
  {
    var a := PostRecord("posts/a.html", "A", "", "2024-01-01", "EN");
    var b := PostRecord("posts/b.html", "B", "", "2024-01-01", "EN");
    var b' := PostRecord("posts/b.html", "B again", "", "2024-01-02", "EN");
    var c := PostRecord("posts/c.html", "C", "", "2024-01-02", "EN");
    var all := [b', c] + [a, b];
    assert all == [b', c, a, b];
    assert all[1..] == [c, a, b] && [c, a, b][1..] == [a, b] && [a, b][1..] == [b] && [b][1..] == [];
    var s1 := {} + {b'.path};
    var s2 := s1 + {c.path};
    var s3 := s2 + {a.path};
    assert DedupFrom([b], s3) == [];
    assert DedupFrom([a, b], s2) == [a] + DedupFrom([b], s3);
    assert DedupFrom([c, a, b], s1) == [c] + DedupFrom([a, b], s2);
    assert DedupFrom(all, {}) == [b'] + DedupFrom([c, a, b], s1);
  }
}
