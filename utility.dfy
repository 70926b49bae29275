/**
 * The `utility` class of the plugin: the static caches of the attachment
 * catalog and the checksum index, the queries built on them, the orphan
 * scan, deduplication and the rebuild of the `_duplicity_id` postmeta.
 */
module Utility {
  import opened Options
  import opened Strings
  import opened Sorting
  import opened PhpArray
  import opened Paths
  import opened Patterns
  import opened Site
  import opened Catalog
  import opened Grouping
  import opened Sisters
  import Orphans
  import opened Repoint
  import opened Consolidate
  import opened Postmeta

  /** array_flip() of the catalog: its paths as a lookup set. */
  function OfficialPaths(a: Attachments): (r: set<string>)
    ensures forall p :: p in r <==> p in Values(a)
  {
    set i | 0 <= i < |a| :: a[i].1
  }

  /** The keys of the linted view: isset($linted[$path]). */
  function LintedPaths(linted: Groups): (r: set<string>)
    ensures forall p :: p in r <==> p in Keys(linted)
  {
    set i | 0 <= i < |linted| :: linted[i].0
  }

  /** A value of an array is held by some key. */
  lemma ValueHeld(m: Attachments, x: string)
    ensures x in Values(m) <==> exists id :: (id, x) in m
  {
    if x in Values(m) {
      var i :| 0 <= i < |m| && Values(m)[i] == x;
      assert (m[i].0, x) == m[i];
    }
    if exists id :: (id, x) in m {
      var id :| (id, x) in m;
      var i :| 0 <= i < |m| && m[i] == (id, x);
      assert Values(m)[i] == x;
    }
  }

  lemma DistinctAppend(s: seq<int>, t: seq<int>)
    requires Distinct(s) && Distinct(t)
    requires forall x :: x in t ==> x !in s
    ensures Distinct(s + t)
  {
    var r := s + t;
    forall i, j | 0 <= i < j < |r| ensures r[i] != r[j] {
      if j >= |s| && i < |s| {
        assert r[j] == t[j - |s|] && r[i] == s[i];
        assert t[j - |s|] in t;
      } else if i >= |s| {
        assert r[i] == t[i - |s|] && r[j] == t[j - |s|];
      } else {
        assert r[i] == s[i] && r[j] == s[j];
      }
    }
  }

  /**
   * The drain of deduplicate_files after the paths in seen: the ids taken,
   * each once, are exactly those holding a path in seen, and the copy left
   * holds none of them.
   */
  ghost predicate Drained(a: Attachments, seen: set<string>, ids: seq<int>, rest: Attachments)
  {
    && rest == WithoutValues(a, seen)
    && DistinctKeys(rest)
    && Distinct(ids)
    && (forall id :: id in ids <==> exists p :: p in seen && (id, p) in a)
    && (forall id, p :: id in ids ==> (id, p) !in rest)
  }

  lemma DrainMore(a: Attachments, seen: set<string>, ids: seq<int>, rest: Attachments, d: string)
    requires Drained(a, seen, ids, rest)
    ensures Drained(a, seen + {d}, ids + KeysWithValue(rest, d), WithoutValues(rest, {d}))
  {
    var more := KeysWithValue(rest, d);
    var rest' := WithoutValues(rest, {d});
    WithoutValuesTwice(a, seen, {d});
    WithoutValuesDistinct(rest, {d});
    KeysWithValueDistinct(rest, d);
    DistinctAppend(ids, more);
    DrainMoreIds(a, seen, ids, rest, d);
    DrainMoreRest(a, seen, ids, rest, d);
  }

  lemma DrainMoreIds(a: Attachments, seen: set<string>, ids: seq<int>, rest: Attachments, d: string)
    requires Drained(a, seen, ids, rest)
    ensures forall id :: id in ids + KeysWithValue(rest, d) <==> exists p :: p in seen + {d} && (id, p) in a
  {
    var more := KeysWithValue(rest, d);
    forall id ensures id in ids + more <==> exists p :: p in seen + {d} && (id, p) in a {
      if (id, d) in a && d !in seen {
        assert (id, d) in rest;
      }
    }
  }

  lemma DrainMoreRest(a: Attachments, seen: set<string>, ids: seq<int>, rest: Attachments, d: string)
    requires Drained(a, seen, ids, rest)
    ensures forall id, p :: id in ids + KeysWithValue(rest, d) ==> (id, p) !in WithoutValues(rest, {d})
  {
    var more := KeysWithValue(rest, d);
    forall id, p | id in ids + more ensures (id, p) !in WithoutValues(rest, {d}) {
      if id in more {
        assert (id, d) in rest;
      }
    }
  }

  /**
   * The ids the drains of deduplicate_files take from a copy of catalog a,
   * path after path: each drain in catalog order, and a later path's drain
   * from what the earlier ones left.
   */
  function DrainAll(a: Attachments, ps: seq<string>): seq<int>
    decreases |ps|
  {
    if ps == [] then []
    else KeysWithValue(a, ps[0]) + DrainAll(WithoutValues(a, {ps[0]}), ps[1..])
  }

  /** $update_posts of a group: the holders of the dupes in dupe order, then those of the primary. */
  function AffectedIds(a: Attachments, dupes: seq<string>, primary: string): seq<int>
  {
    DrainAll(a, dupes + [primary])
  }

  /**
   * With the catalog in ascending id order and the first dupe held,
   * $primary_id is the smallest id holding the first dupe.
   */
  lemma FirstAffected(a: Attachments, dupes: seq<string>, primary: string)
    requires Ascending(a) && dupes != [] && dupes[0] in Values(a)
    ensures var ids := AffectedIds(a, dupes, primary);
      ids != [] && (ids[0], dupes[0]) in a && forall id :: (id, dupes[0]) in a ==> ids[0] <= id
  {
    var ps := dupes + [primary];
    assert ps[0] == dupes[0];
    var first := KeysWithValue(a, dupes[0]);
    assert AffectedIds(a, dupes, primary) == first + DrainAll(WithoutValues(a, {ps[0]}), ps[1..]);
    ValueHeld(a, dupes[0]);
    DrainAscending(a, dupes[0]);
    forall id | (id, dupes[0]) in a ensures first[0] <= id {
      var l :| 0 <= l < |first| && first[l] == id;
    }
  }

  /**
   * The drains of deduplicate_files after the first i dupes: Drained, and
   * the ids taken so far followed by the drains still to come are the
   * group's AffectedIds.
   */
  ghost predicate DrainedUpTo(a: Attachments, dupes: seq<string>, primary: string, i: int,
                              seen: set<string>, ids: seq<int>, rest: Attachments)
    requires 0 <= i <= |dupes|
  {
    && (forall p :: p in seen <==> p in dupes[..i])
    && Drained(a, seen, ids, rest)
    && ids + DrainAll(rest, dupes[i..] + [primary]) == AffectedIds(a, dupes, primary)
  }

  lemma DrainedStart(a: Attachments, dupes: seq<string>, primary: string)
    requires DistinctKeys(a)
    ensures DrainedUpTo(a, dupes, primary, 0, {}, [], a)
  {
    WithoutNothing(a);
    assert dupes[0..] == dupes;
  }

  /** Draining dupe i keeps DrainedUpTo. */
  lemma DrainedNext(a: Attachments, dupes: seq<string>, primary: string, i: int,
                    seen: set<string>, ids: seq<int>, rest: Attachments)
    requires 0 <= i < |dupes| && DrainedUpTo(a, dupes, primary, i, seen, ids, rest)
    ensures DrainedUpTo(a, dupes, primary, i + 1, seen + {dupes[i]}, ids + KeysWithValue(rest, dupes[i]),
                        WithoutValues(rest, {dupes[i]}))
  {
    DrainMore(a, seen, ids, rest, dupes[i]);
    var q := dupes[i..] + [primary];
    assert q[0] == dupes[i] && q[1..] == dupes[i + 1..] + [primary];
    assert dupes[..i + 1] == dupes[..i] + [dupes[i]];
  }

  /** After every dupe, the drain of the primary completes the group's AffectedIds. */
  lemma DrainedLast(a: Attachments, dupes: seq<string>, primary: string,
                    seen: set<string>, ids: seq<int>, rest: Attachments)
    requires DrainedUpTo(a, dupes, primary, |dupes|, seen, ids, rest)
    ensures var r := ids + KeysWithValue(rest, primary);
      && r == AffectedIds(a, dupes, primary) && Distinct(r)
      && forall id :: id in r <==> exists p :: (p == primary || p in dupes) && (id, p) in a
  {
    DrainMore(a, seen, ids, rest, primary);
    var q := dupes[|dupes|..] + [primary];
    assert q == [primary] && q[1..] == [];
    assert DrainAll(rest, q) == KeysWithValue(rest, primary) + [];
    assert dupes[..|dupes|] == dupes;
  }

  // ---- what deduplicate_files keeps true from one group to the next -------

  /** With one path per id, an id holds one path. */
  lemma OneValue(m: Attachments, id: int, p: string, q: string)
    requires DistinctKeys(m) && (id, p) in m && (id, q) in m
    ensures p == q
  {
    var i :| 0 <= i < |m| && m[i] == (id, p);
    var j :| 0 <= j < |m| && m[j] == (id, q);
    assert i == j;
  }

  /**
   * The groups deduplicate_files works through: two distinct non-empty
   * paths or more each, every path a catalog path, no path in two groups.
   */
  ghost predicate DupGroups(g: Index, a0: Attachments)
  {
    && DistinctKeys(a0) && Disjoint(g)
    && (forall k :: 0 <= k < |g| ==> |g[k].1| >= 2 && Distinct(g[k].1) && "" !in g[k].1)
    && (forall k, x :: 0 <= k < |g| && x in g[k].1 ==> x in Values(a0))
  }

  /** The duplicate buckets of a catalog's checksum index are such groups. */
  lemma DupGroupsOf(a: Attachments, fs: FileSystem)
    requires DistinctKeys(a) && "" !in fs.files
    ensures DupGroups(Duplicates(ChecksumIndex(a, fs)), a)
  {
    DuplicateGroups(a, fs);
    FileGroupsDup(Duplicates(ChecksumIndex(a, fs)), a, fs);
  }

  /** Groups of distinct regular files of the catalog, none in two groups, are such groups. */
  lemma FileGroupsDup(g: Index, a: Attachments, fs: FileSystem)
    requires DistinctKeys(a) && "" !in fs.files
    requires SharedGroups(g) && FileGroups(g, a, fs) && Disjoint(g)
    ensures DupGroups(g, a)
  {
    forall k, x | 0 <= k < |g| && x in g[k].1 ensures x != "" {
      assert IsFile(fs, x);
    }
  }

  /** In catalog c the paths of the groups from k on are held by the ids that held them in a0. */
  ghost predicate Held(g: Index, k: int, a0: Attachments, c: Attachments)
  {
    forall j, x, id :: 0 <= k <= j < |g| && x in g[j].1 ==> ((id, x) in c <==> (id, x) in a0)
  }

  /**
   * The posts reported after k groups: each once, each held a path of one of
   * those groups, and every holder of a (truthy) path of them is there.
   */
  ghost predicate Posted(g: Index, k: int, a0: Attachments, posts: seq<int>)
    requires 0 <= k <= |g|
  {
    && Distinct(posts)
    && (forall id :: id in posts ==> exists j, x :: 0 <= j < k && x in g[j].1 && (id, x) in a0)
    && (forall j, x, id :: 0 <= j < k && x in g[j].1 && !Falsy(x) && (id, x) in a0 ==> id in posts)
  }

  /**
   * The attachment rows after k groups: a post not reported keeps its row, a
   * reported one now names a path of a group it held a path of, that is, a
   * file with the same content.
   */
  ghost predicate Repointed(g: Index, k: int, a0: Attachments, rows0: seq<(int, string)>, rows: seq<(int, string)>, posts: seq<int>)
    requires 0 <= k <= |g|
  {
    && |rows| == |rows0|
    && (forall i :: 0 <= i < |rows0| && rows0[i].0 !in posts ==> rows[i] == rows0[i])
    && (forall i :: 0 <= i < |rows0| && rows0[i].0 in posts ==>
          rows[i].0 == rows0[i].0 &&
          exists j, x :: 0 <= j < k && rows[i].1 in g[j].1 && x in g[j].1 && (rows0[i].0, x) in a0)
  }

  /** A group's paths are still held in a catalog that keeps the later groups' holders. */
  lemma StillHeld(g: Index, k: int, a0: Attachments, c: Attachments, x: string)
    requires 0 <= k < |g| && Held(g, k, a0, c) && x in g[k].1 && x in Values(a0)
    ensures x in Values(c)
  {
    ValueHeld(a0, x);
    var id :| (id, x) in a0;
    assert (id, x) in c;
    ValueHeld(c, x);
  }

  /** Repointing the ids of group k leaves the holders of every later group's paths alone. */
  lemma HeldAfterRepoint(g: Index, k: int, a0: Attachments, rows: seq<(int, string)>, ids: seq<int>, primary: string)
    requires 0 <= k < |g| && Disjoint(g) && DistinctKeys(a0)
    requires primary in g[k].1
    requires Held(g, k, a0, Catalog.Catalog(rows))
    requires forall id :: id in ids ==> exists p :: p in g[k].1 && (id, p) in a0
    ensures Held(g, k + 1, a0, Catalog.Catalog(RepointRows(rows, ids, primary)))
  {
    CatalogAfterRepoint(rows, ids, primary);
    var c := Catalog.Catalog(rows);
    forall j, x, id | k + 1 <= j < |g| && x in g[j].1
      ensures (id, x) in Catalog.Catalog(RepointRows(rows, ids, primary)) <==> (id, x) in a0
    {
      assert x != primary;
      if id in ids && (id, x) in a0 {
        var p :| p in g[k].1 && (id, p) in a0;
        OneValue(a0, id, p, x);
      }
    }
  }

  /** The posts of group k extend the report. */
  lemma PostedStep(g: Index, k: int, a0: Attachments, c: Attachments, posts: seq<int>, ids: seq<int>)
    requires 0 <= k < |g| && Disjoint(g) && DistinctKeys(a0)
    requires Held(g, k, a0, c) && Posted(g, k, a0, posts)
    requires Distinct(ids)
    requires forall id :: id in ids ==> exists p :: p in g[k].1 && (id, p) in c
    requires forall id, p :: p in g[k].1 && !Falsy(p) && (id, p) in c ==> id in ids
    ensures Posted(g, k + 1, a0, posts + ids)
  {
    forall id | id in ids ensures id !in posts {
      var p :| p in g[k].1 && (id, p) in c;
      if id in posts {
        var j, x :| 0 <= j < k && x in g[j].1 && (id, x) in a0;
        OneValue(a0, id, p, x);
      }
    }
    DistinctAppend(posts, ids);
    forall id | id in posts + ids ensures exists j, x :: 0 <= j < k + 1 && x in g[j].1 && (id, x) in a0 {
      if id in ids {
        var p :| p in g[k].1 && (id, p) in c;
        assert (id, p) in a0;
      }
    }
  }

  /** The rows of group k's posts now name its primary. */
  lemma RepointedStep(g: Index, k: int, a0: Attachments, c: Attachments, rows0: seq<(int, string)>, rows: seq<(int, string)>,
                      posts: seq<int>, ids: seq<int>, primary: string)
    requires 0 <= k < |g| && Held(g, k, a0, c)
    requires Repointed(g, k, a0, rows0, rows, posts)
    requires primary in g[k].1
    requires forall id :: id in ids ==> exists p :: p in g[k].1 && (id, p) in c
    requires forall id :: id in ids ==> id !in posts
    ensures Repointed(g, k + 1, a0, rows0, RepointRows(rows, ids, primary), posts + ids)
  {
    var r := RepointRows(rows, ids, primary);
    forall i | 0 <= i < |rows0| && rows0[i].0 in posts + ids
      ensures r[i].0 == rows0[i].0 && exists j, x :: 0 <= j < k + 1 && r[i].1 in g[j].1 && x in g[j].1 && (rows0[i].0, x) in a0
    {
      var id := rows0[i].0;
      if id in ids {
        assert rows[i].0 == id;
        var p :| p in g[k].1 && (id, p) in c;
        assert r[i].1 == primary && (id, p) in a0;
      } else {
        assert rows[i].0 == id;
      }
    }
  }

  /** Group k consolidated: everything the loop keeps true holds for k + 1. */
  lemma GroupStep(g: Index, k: int, a0: Attachments, c: Attachments, rows0: seq<(int, string)>, rows: seq<(int, string)>,
                  posts: seq<int>, ids: seq<int>, primary: string)
    requires 0 <= k < |g| && DupGroups(g, a0)
    requires Held(g, k, a0, c) && Held(g, k, a0, Catalog.Catalog(rows))
    requires Posted(g, k, a0, posts) && Repointed(g, k, a0, rows0, rows, posts)
    requires primary in g[k].1 && Distinct(ids)
    requires forall id :: id in ids ==> exists p :: p in g[k].1 && (id, p) in c
    requires forall id, p :: p in g[k].1 && !Falsy(p) && (id, p) in c ==> id in ids
    ensures Held(g, k + 1, a0, c) && Held(g, k + 1, a0, Catalog.Catalog(RepointRows(rows, ids, primary)))
    ensures Posted(g, k + 1, a0, posts + ids)
    ensures Repointed(g, k + 1, a0, rows0, RepointRows(rows, ids, primary), posts + ids)
  {
    PostedStep(g, k, a0, c, posts, ids);
    forall id | id in ids ensures id !in posts {
      assert id in posts + ids;
    }
    RepointedStep(g, k, a0, c, rows0, rows, posts, ids, primary);
    forall id | id in ids ensures exists p :: p in g[k].1 && (id, p) in a0 {
      var p :| p in g[k].1 && (id, p) in c;
      assert (id, p) in a0;
    }
    HeldAfterRepoint(g, k, a0, rows, ids, primary);
  }

  /**
   * The catalog c after k groups: every path it holds was a catalog path at
   * the start, and of the truthy paths of each group done at most one is
   * still held, the group's primary.
   */
  ghost predicate Merged(g: Index, k: int, a0: Attachments, c: Attachments)
    requires 0 <= k <= |g|
  {
    && (forall id, p :: (id, p) in c ==> p in Values(a0))
    && (forall j, p, q, id, id' ::
          (0 <= j < k && p in g[j].1 && q in g[j].1 && !Falsy(p) && !Falsy(q) && (id, p) in c && (id', q) in c)
          ==> p == q)
  }

  lemma MergedStart(g: Index, a0: Attachments)
    ensures Merged(g, 0, a0, a0)
  {
    forall id, p | (id, p) in a0 ensures p in Values(a0) {
      ValueHeld(a0, p);
    }
  }

  /** After group k is repointed, a truthy path of it still held is its primary. */
  lemma OnlyPrimaryHeld(g: Index, k: int, a0: Attachments, c: Attachments, rows: seq<(int, string)>,
                        ids: seq<int>, primary: string, id: int, p: string)
    requires 0 <= k < |g|
    requires Held(g, k, a0, c) && Held(g, k, a0, Catalog.Catalog(rows))
    requires forall id, p :: p in g[k].1 && !Falsy(p) && (id, p) in c ==> id in ids
    requires p in g[k].1 && !Falsy(p) && (id, p) in Catalog.Catalog(RepointRows(rows, ids, primary))
    ensures p == primary
  {
    CatalogAfterRepoint(rows, ids, primary);
    assert ((id, p) in Catalog.Catalog(rows)) == ((id, p) in c);
  }

  /** Repointing group k to its primary extends Merged to k + 1. */
  lemma MergedStep(g: Index, k: int, a0: Attachments, c: Attachments, rows: seq<(int, string)>, ids: seq<int>, primary: string)
    requires 0 <= k < |g| && DupGroups(g, a0)
    requires Merged(g, k, a0, Catalog.Catalog(rows))
    requires Held(g, k, a0, c) && Held(g, k, a0, Catalog.Catalog(rows))
    requires primary in g[k].1
    requires forall id, p :: p in g[k].1 && !Falsy(p) && (id, p) in c ==> id in ids
    ensures Merged(g, k + 1, a0, Catalog.Catalog(RepointRows(rows, ids, primary)))
  {
    var c0 := Catalog.Catalog(rows);
    var c1 := Catalog.Catalog(RepointRows(rows, ids, primary));
    CatalogAfterRepoint(rows, ids, primary);
    forall j, p, q, id, id' | 0 <= j < k + 1 && p in g[j].1 && q in g[j].1 && !Falsy(p) && !Falsy(q)
        && (id, p) in c1 && (id', q) in c1
      ensures p == q
    {
      if j == k {
        OnlyPrimaryHeld(g, k, a0, c, rows, ids, primary, id, p);
        OnlyPrimaryHeld(g, k, a0, c, rows, ids, primary, id', q);
      } else {
        assert p != primary && q != primary;
        assert (id, p) in c0 && (id', q) in c0;
      }
    }
  }

  /**
   * What deduplicate_files keeps true after k groups, about the cached
   * catalog c, the attachment rows, the uploads directory and the posts
   * reported, against the catalog a0, rows rows0 and directory fs0 it started from.
   */
  ghost predicate Between(g: Index, k: int, a0: Attachments, rows0: seq<(int, string)>, fs0: FileSystem,
                          c: Attachments, rows: seq<(int, string)>, fs: FileSystem, posts: seq<int>)
  {
    && 0 <= k <= |g|
    && Held(g, k, a0, c) && Held(g, k, a0, Catalog.Catalog(rows))
    && Posted(g, k, a0, posts)
    && Repointed(g, k, a0, rows0, rows, posts)
    && Merged(g, k, a0, Catalog.Catalog(rows))
    && Shrinks(fs0, fs)
  }

  lemma BetweenStart(g: Index, a0: Attachments, rows0: seq<(int, string)>, fs0: FileSystem)
    requires a0 == Catalog.Catalog(rows0)
    ensures Between(g, 0, a0, rows0, fs0, a0, rows0, fs0, [])
  {
    MergedStart(g, a0);
  }

  /** Group k consolidated, its files retired: Between holds for k + 1. */
  lemma BetweenStep(g: Index, k: int, a0: Attachments, rows0: seq<(int, string)>, fs0: FileSystem,
                    c: Attachments, rows: seq<(int, string)>, fs: FileSystem, fs1: FileSystem,
                    posts: seq<int>, ids: seq<int>, primary: string)
    requires 0 <= k < |g| && DupGroups(g, a0)
    requires Between(g, k, a0, rows0, fs0, c, rows, fs, posts)
    requires primary in g[k].1 && Distinct(ids)
    requires forall id :: id in ids ==> exists p :: p in g[k].1 && (id, p) in c
    requires forall id, p :: p in g[k].1 && !Falsy(p) && (id, p) in c ==> id in ids
    requires Shrinks(fs, fs1)
    ensures Between(g, k + 1, a0, rows0, fs0, c, RepointRows(rows, ids, primary), fs1, posts + ids)
  {
    GroupStep(g, k, a0, c, rows0, rows, posts, ids, primary);
    MergedStep(g, k, a0, c, rows, ids, primary);
  }

  /** In a linted view, at most one group per deduplicated group is named by a truthy path. */
  ghost predicate OneLintedEach(g: Index, k: int, linted: Groups)
    requires 0 <= k <= |g|
  {
    forall j, l, l' ::
      (0 <= j < k && 0 <= l < |linted| && 0 <= l' < |linted| && linted[l].0 in g[j].1 && linted[l'].0 in g[j].1
       && !Falsy(linted[l].0) && !Falsy(linted[l'].0))
      ==> l == l'
  }

  /** The linted view of a merged catalog has one linted group for each merged group. */
  lemma LintedMerged(g: Index, k: int, a0: Attachments, c: Attachments, linted: Groups)
    requires 0 <= k <= |g| && Merged(g, k, a0, c) && IsLinted(c, linted)
    ensures OneLintedEach(g, k, linted)
  {
    forall j, l, l' | 0 <= j < k && 0 <= l < |linted| && 0 <= l' < |linted|
        && linted[l].0 in g[j].1 && linted[l'].0 in g[j].1 && !Falsy(linted[l].0) && !Falsy(linted[l'].0)
      ensures l == l'
    {
      var p, q := linted[l].0, linted[l'].0;
      assert p in Keys(linted) && q in Keys(linted);
      HeldPath(c, p);
      HeldPath(c, q);
      ValueHeld(c, p);
      ValueHeld(c, q);
      var id :| (id, p) in c;
      var id' :| (id', q) in c;
      assert p == q;
    }
  }

  /** A truthy path the final catalog holds with digest d was in bucket d at the start. */
  lemma Survivor(a0: Attachments, fs0: FileSystem, c: Attachments, fs: FileSystem, d: string, p: string)
    requires "" !in fs0.files && "0" !in Values(a0)
    requires forall id, p :: (id, p) in c ==> p in Values(a0)
    requires Shrinks(fs0, fs)
    requires p in Values(c) && Digest(fs, p) == Some(d)
    ensures InBucket(ChecksumIndex(a0, fs0), d, p) && !Falsy(p)
  {
    ValueHeld(c, p);
    var id :| (id, p) in c;
    assert IsFile(fs, p);
    assert StripDot("") == "";
    ChecksumIndexSpec(a0, fs0);
  }

  /**
   * After every group is merged, and with no catalog path "0", no two paths
   * the catalog holds share a digest: a second deduplication finds no group.
   */
  lemma NoDuplicatesLeft(a0: Attachments, fs0: FileSystem, c: Attachments, fs: FileSystem)
    requires "" !in fs0.files && "0" !in Values(a0)
    requires Merged(Duplicates(ChecksumIndex(a0, fs0)), |Duplicates(ChecksumIndex(a0, fs0))|, a0, c)
    requires Shrinks(fs0, fs)
    ensures Duplicates(ChecksumIndex(c, fs)) == []
  {
    var idx := ChecksumIndex(c, fs);
    if Duplicates(idx) != [] {
      ChecksumIndexSpec(c, fs);
      DuplicatesSpec(idx);
      var e := Duplicates(idx)[0];
      assert e in idx && |e.1| >= 2;
      var i :| 0 <= i < |idx| && idx[i] == e;
      var p, q := e.1[0], e.1[1];
      assert p != q;
      assert InBucket(idx, e.0, p) && InBucket(idx, e.0, q);
      Survivor(a0, fs0, c, fs, e.0, p);
      Survivor(a0, fs0, c, fs, e.0, q);
      ChecksumIndexSpec(a0, fs0);
      DuplicatesSpec(ChecksumIndex(a0, fs0));
      SameBucket(ChecksumIndex(a0, fs0), Duplicates(ChecksumIndex(a0, fs0)), a0, c, e.0, p, q);
    }
  }

  /** Two truthy paths of one bucket, both still held after every shared bucket was merged, are one path. */
  lemma SameBucket(idx: Index, g: Index, a0: Attachments, c: Attachments, d: string, p: string, q: string)
    requires DistinctKeys(idx) && forall e :: e in idx && |e.1| >= 2 ==> e in g
    requires Merged(g, |g|, a0, c)
    requires InBucket(idx, d, p) && InBucket(idx, d, q)
    requires !Falsy(p) && !Falsy(q) && p in Values(c) && q in Values(c)
    ensures p == q
  {
    var i :| 0 <= i < |idx| && idx[i].0 == d && p in idx[i].1;
    var i' :| 0 <= i' < |idx| && idx[i'].0 == d && q in idx[i'].1;
    assert i == i';
    ValueHeld(c, p);
    ValueHeld(c, q);
    var id :| (id, p) in c;
    var id' :| (id', q) in c;
    var b := idx[i].1;
    if |b| >= 2 {
      assert idx[i] in g;
      var j :| 0 <= j < |g| && g[j] == idx[i];
    } else {
      assert b == [b[0]];
    }
  }

  class Utility {
    /** The database and uploads directory the static methods reach. */
    const site: Site
    /** static::$attachments, None until first loaded */
    var attachments: Option<Attachments>
    /** static::$checksums, None until first loaded */
    var checksums: Option<Index>

    /** What every load leaves in the caches. */
    ghost predicate Valid()
      reads this
    {
      && (attachments.Some? ==> DistinctKeys(attachments.value) && Ascending(attachments.value))
      && (checksums.Some? ==> DistinctKeys(checksums.value))
    }

    /** Both caches hold what a load from the current site would give. */
    ghost predicate Fresh()
      reads this, site
    {
      && (attachments.Some? ==> attachments.value == Catalog.Catalog(site.rows))
      && (checksums.Some? ==> checksums.value == ChecksumIndex(Catalog.Catalog(site.rows), site.fs))
    }

    constructor (site: Site)
      ensures this.site == site && attachments.None? && checksums.None?
      ensures Valid() && Fresh()
    {
      this.site := site;
      attachments := None;
      checksums := None;
    }

    // ---- the caches ------------------------------------------------------

    /** load_attachments($refresh): (re)load the catalog when asked or not loaded yet. */
    method LoadAttachments(refresh: bool)
      requires Valid()
      modifies this
      ensures Valid()
      ensures attachments == if refresh || old(attachments).None? then Some(Catalog.Catalog(site.rows)) else old(attachments)
      ensures checksums == old(checksums)
      ensures old(Fresh()) ==> Fresh()
    {
      if refresh || attachments.None? {
        var m := FetchCatalog(site.rows);
        CatalogSpec(site.rows);
        attachments := Some(m);
      }
    }

    /** get_attachments($refresh) */
    method GetAttachments(refresh: bool) returns (a: Attachments)
      requires Valid()
      modifies this
      ensures Valid()
      ensures attachments == if refresh || old(attachments).None? then Some(Catalog.Catalog(site.rows)) else old(attachments)
      ensures checksums == old(checksums)
      ensures old(Fresh()) ==> Fresh()
      ensures a == attachments.value && DistinctKeys(a) && Ascending(a)
    {
      LoadAttachments(refresh);
      a := attachments.value;
    }

    /**
     * load_checksums($refresh): when asked or not loaded yet, load the
     * catalog with the same flag and index its paths by digest.
     */
    method LoadChecksums(refresh: bool)
      requires Valid()
      modifies this
      ensures Valid()
      ensures var rebuild := refresh || old(checksums).None?;
        && attachments == (if rebuild && (refresh || old(attachments).None?) then Some(Catalog.Catalog(site.rows)) else old(attachments))
        && checksums == (if rebuild then Some(ChecksumIndex(attachments.value, site.fs)) else old(checksums))
      ensures old(Fresh()) ==> Fresh()
    {
      if refresh || checksums.None? {
        LoadAttachments(refresh);
        var idx := BuildChecksums(attachments.value, site.fs);
        ChecksumIndexSpec(attachments.value, site.fs);
        checksums := Some(idx);
      }
    }

    /** get_checksums($refresh) */
    method GetChecksums(refresh: bool) returns (c: Index)
      requires Valid()
      modifies this
      ensures Valid()
      ensures var rebuild := refresh || old(checksums).None?;
        && attachments == (if rebuild && (refresh || old(attachments).None?) then Some(Catalog.Catalog(site.rows)) else old(attachments))
        && checksums == (if rebuild then Some(ChecksumIndex(attachments.value, site.fs)) else old(checksums))
      ensures old(Fresh()) ==> Fresh()
      ensures c == checksums.value
    {
      LoadChecksums(refresh);
      c := checksums.value;
    }

    // ---- queries -----------------------------------------------------------

    /** get_linted_attachments($refresh) */
    method GetLintedAttachments(refresh: bool) returns (out: Groups)
      requires Valid()
      modifies this
      ensures Valid()
      ensures attachments == if refresh || old(attachments).None? then Some(Catalog.Catalog(site.rows)) else old(attachments)
      ensures checksums == old(checksums)
      ensures old(Fresh()) ==> Fresh()
      ensures IsLinted(attachments.value, out)
    {
      var a := GetAttachments(refresh);
      out := LintedGroups(a);
    }

    /**
     * get_duplicate_files($refresh): the buckets of the (re)loaded index with
     * two paths or more, by ascending digest.
     */
    method GetDuplicateFiles(refresh: bool) returns (out: Index)
      requires Valid()
      modifies this
      ensures Valid()
      ensures var rebuild := refresh || old(checksums).None?;
        && attachments == (if rebuild && (refresh || old(attachments).None?) then Some(Catalog.Catalog(site.rows)) else old(attachments))
        && checksums == (if rebuild then Some(ChecksumIndex(attachments.value, site.fs)) else old(checksums))
      ensures old(Fresh()) ==> Fresh()
      ensures out == Duplicates(checksums.value)
    {
      var c := GetChecksums(refresh);
      if |c| == 0 {
        return [];
      }
      out := FilterDuplicates(c);
    }

    /** get_sister_files($source): the guards, then the readdir() loop. */
    method GetSisterFiles(source: string) returns (out: seq<string>)
      ensures out == SisterFiles(site.fs, source)
    {
      out := [];
      if Falsy(source) {
        return;
      }
      var subdir := Subdir(source);
      if !IsDir(site.fs, subdir) {
        return;
      }
      var base := Basename(source);
      var filename := PathFilename(base);
      var ext := PathExtension(base);
      if Falsy(filename) || Falsy(ext) {
        return;
      }
      var entries := Listing(site.fs, subdir);
      for i := 0 to |entries|
        invariant out == Matching(site.fs, subdir, entries[..i], filename, ext)
      {
        MatchingNext(site.fs, subdir, entries, i, filename, ext);
        var file := entries[i];
        if file == "." || file == ".." {
          continue;
        }
        if IsSister(file, filename, ext) && IsFile(site.fs, subdir + file) {
          out := out + [subdir + file];
        }
      }
      assert entries[..|entries|] == entries;
    }

    // ---- orphans -----------------------------------------------------------

    /** webp_sister($webp): the guards, then the loop over the raster extensions. */
    method WebpSister(webp: string) returns (r: Option<string>)
      ensures r == Orphans.WebpSister(site.fs, webp)
    {
      if Falsy(webp) || !EndsWith(Lower(webp), ".webp") || !FileExists(site.fs, webp) {
        return None;
      }
      var stem := webp[..|webp| - 4];
      var exts := Orphans.RasterExts;
      for i := 0 to |exts|
        invariant Orphans.FirstExisting(site.fs, stem, exts) == Orphans.FirstExisting(site.fs, stem, exts[i..])
      {
        if FileExists(site.fs, stem + exts[i]) {
          return Some(stem + exts[i]);
        }
        assert exts[i..][1..] == exts[i + 1..];
      }
      return None;
    }

    /**
     * The body of get_orphans' loop for one file: each `continue` is a false
     * here, and reaching the end or a WebP file without a sister a true.
     */
    method ClassifyFile(official: set<string>, all: bool, relative: string) returns (orphan: bool)
      ensures orphan == Orphans.IsOrphan(site.fs, official, all, relative)
    {
      if IsWebAsset(relative) || relative in official {
        return false;
      }
      var filepath := Subdir(relative);
      var filename := PathFilename(relative);
      var fileext := PathExtension(relative);
      if !all && filepath != "/" && !IsDateDir(filepath) {
        return false;
      }
      if Lower(fileext) == "webp" {
        var sister := WebpSister(relative);
        return sister.None?;
      }
      var kept := DerivedFromOfficial(official, filepath, filename, fileext);
      return !kept;
    }

    /** The thumbnail, PDF preview and image-editor tests of get_orphans' loop, in order. */
    static method DerivedFromOfficial(official: set<string>, filepath: string, filename: string, fileext: string) returns (kept: bool)
      ensures kept == (Orphans.SizeVariant(official, filepath, filename, fileext) ||
        Orphans.PdfVariant(official, filepath, filename) ||
        Orphans.EditorVariant(official, filepath, filename, fileext))
    {
      var n := SizeSuffixLen(filename);
      if n > 0 && filepath + filename[..|filename| - n] + ("." + fileext) in official {
        return true;
      }
      n := PdfSuffixLen(filename);
      if n > 0 && filepath + filename[..|filename| - n] + ("." + "pdf") in official {
        return true;
      }
      n := EditorSuffixLen(filename);
      var original := filename[..|filename| - n];
      return n > 0 && (filepath + original in official || filepath + original + ("." + fileext) in official);
    }

    /**
     * get_orphans($all): reload the catalog, walk the uploads directory
     * applying the cascade to each file, and sort what is left.
     */
    method GetOrphans(all: bool) returns (orphans: seq<string>)
      requires Valid()
      modifies this
      ensures Valid()
      ensures attachments == Some(Catalog.Catalog(site.rows)) && checksums == old(checksums)
      ensures orphans == SortStrings(Orphans.OrphansOf(site.fs, OfficialPaths(attachments.value), all, site.fs.walk))
      ensures forall x :: x in orphans <==>
        x in site.fs.walk && Orphans.IsOrphan(site.fs, OfficialPaths(attachments.value), all, x)
      ensures forall i, j :: 0 <= i < j < |orphans| ==> StrLe(orphans[i], orphans[j])
    {
      var official := GetAttachments(true);
      var officialSet := OfficialPaths(official);
      orphans := [];
      var walk := site.fs.walk;
      for i := 0 to |walk|
        modifies {}
        invariant orphans == Orphans.OrphansOf(site.fs, officialSet, all, walk[..i])
      {
        Orphans.OrphansOfNext(site.fs, officialSet, all, walk, i);
        var orphan := ClassifyFile(officialSet, all, walk[i]);
        if orphan {
          orphans := orphans + [walk[i]];
        }
      }
      assert walk[..|walk|] == walk;
      ghost var found := orphans;
      forall x ensures x in found <==> x in walk && Orphans.IsOrphan(site.fs, officialSet, all, x) {
        Orphans.OrphansOfSpec(site.fs, officialSet, all, walk, x);
      }
      orphans := SortStrings(orphans);
      assert forall x :: x in orphans <==> x in multiset(found);
    }

    // ---- deduplication -----------------------------------------------------

    /**
     * The scan of deduplicate_files over one group: the sister files of each
     * dupe other than the primary, key-unioned as written, and every id
     * holding a dupe or the primary, drained from a copy of the cached catalog.
     */
    method CollectAffected(dupes: seq<string>, primary: string) returns (files: seq<string>, ids: seq<int>)
      requires Valid() && attachments.Some?
      modifies this
      ensures attachments == old(attachments) && checksums == old(checksums)
      ensures files == UpdateFilesAsWritten(site.fs, dupes, primary)
      ensures Distinct(ids)
      ensures forall id :: id in ids <==> exists p :: (p == primary || p in dupes) && (id, p) in attachments.value
      ensures ids == AffectedIds(attachments.value, dupes, primary)
    {
      var a := GetAttachments(false);
      files, ids := [], [];
      var rest := a;
      ghost var seen: set<string> := {};
      DrainedStart(a, dupes, primary);
      for i := 0 to |dupes|
        modifies {}
        invariant files == UpdateFilesAsWritten(site.fs, dupes[..i], primary)
        invariant DrainedUpTo(a, dupes, primary, i, seen, ids, rest)
      {
        UpdateFilesNext(site.fs, dupes, i, primary);
        var v2 := dupes[i];
        if v2 != primary {
          var sisters := GetSisterFiles(v2);
          files := KeyUnion(files, sisters);
        }
        DrainedNext(a, dupes, primary, i, seen, ids, rest);
        var more;
        more, rest := Drain(rest, v2);
        ids := ids + more;
        seen := seen + {v2};
      }
      assert dupes[..|dupes|] == dupes;
      DrainedLast(a, dupes, primary, seen, ids, rest);
      var more;
      more, rest := Drain(rest, primary);
      ids := ids + more;
    }

    /**
     * The loop of deduplicate_files over the files to retire: the
     * search-replace pair of each, then its removal and accounting.
     */
    method RetireFiles(files: seq<string>, primary: string, referenced: string -> bool, unlinkOk: string -> bool, report: Report)
      returns (out: Report)
      modifies site
      ensures Retiring(site.fs, site.log, out) ==
        RetireAll(Retiring(old(site.fs), old(site.log), report), files, primary, referenced, unlinkOk)
      ensures unchanged(site`rows, site`meta)
    {
      out := report;
      ghost var st0 := Retiring(site.fs, site.log, report);
      for i := 0 to |files|
        invariant Retiring(site.fs, site.log, out) == RetireAll(st0, files[..i], primary, referenced, unlinkOk)
        invariant site.rows == old(site.rows) && site.meta == old(site.meta)
      {
        RetireNext(st0, files, i, primary, referenced, unlinkOk);
        out := RetireFile(files[i], primary, referenced, unlinkOk, out);
      }
      assert files[..|files|] == files;
    }

    /**
     * One file of that loop: log the search-replace when the file is
     * referenced, then count, delete and report it when it is a file.
     */
    method RetireFile(v2: string, primary: string,
                      referenced: string -> bool, unlinkOk: string -> bool, report: Report)
      returns (out: Report)
      modifies site
      ensures unchanged(site`rows, site`meta)
      ensures Retiring(site.fs, site.log, out) == RetireOne(Retiring(old(site.fs), old(site.log), report), v2, primary, referenced, unlinkOk)
    {
      ghost var st := Retiring(site.fs, site.log, report);
      if referenced(v2) {
        LogRewrite(v2, primary);
      }
      assert Retiring(site.fs, site.log, report) == LogRetired(st, v2, primary, referenced);
      out := RemoveFile(v2, unlinkOk, report);
    }

    /** The search-replace pair for a retired file, logged as a `wp search-replace` call. */
    method LogRewrite(v2: string, primary: string)
      modifies site
      ensures unchanged(site`fs, site`rows, site`meta)
      ensures site.log == old(site.log) + [Replaced(RewriteFor(site.fs, v2, primary))]
    {
      var e := RewriteEvent(site.fs, v2, primary);
      site.log := site.log + [e];
    }

    /**
     * from is v2 without quotes; to is the primary's subdir, filename, v2's
     * size tag and the primary's extension, quotes removed, or the primary
     * itself when no such file exists.
     */
    static method RewriteEvent(fs: FileSystem, v2: string, primary: string) returns (e: Event)
      ensures e == Replaced(RewriteFor(fs, v2, primary))
    {
      var size := SizeTag(PathFilename(v2));
      var from := RemoveChar(v2, '\'');
      var to := RemoveChar(Subdir(primary) + PathFilename(primary) + size + "." + PathExtension(primary), '\'');
      if !FileExists(fs, to) {
        to := primary;
      }
      e := SearchReplace(from, to);
    }

    /** is_file(), then filesize() counted, unlink() and the name reported. */
    method RemoveFile(v2: string, unlinkOk: string -> bool, report: Report) returns (out: Report)
      modifies site
      ensures unchanged(site`log, site`rows, site`meta)
      ensures Retiring(site.fs, site.log, out) == RemoveRetired(Retiring(old(site.fs), old(site.log), report), v2, unlinkOk)
    {
      out := report;
      if IsFile(site.fs, v2) {
        out := out.(bytesSaved := out.bytesSaved + Size(site.fs, v2));
        if unlinkOk(v2) {
          site.fs := Unlink(site.fs, v2);
        }
        out := out.(filesDeleted := out.filesDeleted + [v2]);
      }
    }

    /**
     * One turn of deduplicate_files' loop, for the group v of paths sharing
     * a digest: choose the primary, repoint every affected post to it,
     * record the metadata calls, retire the other files, and note the
     * primary's sister files as saved.
     */
    method ConsolidateGroup(v: seq<string>, linted: set<string>, referenced: string -> bool, unlinkOk: string -> bool, out0: Report)
      returns (out: Report, sel: Selection, ids: seq<int>)
      requires Valid() && attachments.Some?
      requires |v| >= 2 && Distinct(v) && "" !in v
      requires forall x :: x in v ==> x in Values(attachments.value)
      modifies this, site
      ensures attachments == old(attachments) && checksums == old(checksums)
      ensures sel == Select(v, linted) && sel.primary in v
      ensures ids != [] && Distinct(ids)
      ensures forall id :: id in ids <==> exists p :: (p == sel.primary || p in sel.dupes) && (id, p) in attachments.value
      ensures forall id :: id in ids ==> exists p :: p in v && (id, p) in attachments.value
      ensures forall id, p :: p in v && !Falsy(p) && (id, p) in attachments.value ==> id in ids
      ensures ids == AffectedIds(attachments.value, sel.dupes, sel.primary)
      ensures site.rows == RepointRows(old(site.rows), ids, sel.primary) && site.meta == old(site.meta)
      ensures out.posts == out0.posts + ids
      ensures var st := RetireAll(
          Retiring(old(site.fs), old(site.log) + [Repoint(ids, sel.primary), Metadata(ids[0], ids, sel.primary)],
            out0.(posts := out0.posts + ids)),
          UpdateFiles(old(site.fs), sel.dupes, sel.primary), sel.primary, referenced, unlinkOk);
        && site.fs == st.fs && site.log == st.log
        && out == st.report.(filesSaved := st.report.filesSaved + SisterFiles(st.fs, sel.primary))
      ensures Shrinks(old(site.fs), site.fs)
      ensures IsFile(site.fs, sel.primary) <==> IsFile(old(site.fs), sel.primary)
    {
      var files;
      sel, files, ids := GatherGroup(v, linted);
      out := RepointGroup(ids, sel.primary, out0);
      out := RetireGroup(files, sel.primary, referenced, unlinkOk, out);
    }

    /**
     * The database half of one turn: point the affected posts at the
     * primary, log the metadata regeneration from $primary_id, report the posts.
     */
    method RepointGroup(ids: seq<int>, primary: string, out0: Report) returns (out: Report)
      requires ids != []
      modifies site
      ensures site.rows == RepointRows(old(site.rows), ids, primary)
      ensures site.log == old(site.log) + [Repoint(ids, primary), Metadata(ids[0], ids, primary)]
      ensures site.fs == old(site.fs) && site.meta == old(site.meta)
      ensures out == out0.(posts := out0.posts + ids)
    {
      // $primary_id = $update_posts[0]: the first id found, not necessarily the oldest.
      var primaryId := ids[0];
      site.rows := RepointRows(site.rows, ids, primary);
      site.log := site.log + [Repoint(ids, primary), Metadata(primaryId, ids, primary)];
      out := NotePosts(out0, ids);
    }

    /** The start of one turn: choose the primary, then collect the files to retire and the posts to repoint. */
    method GatherGroup(v: seq<string>, linted: set<string>) returns (sel: Selection, files: seq<string>, ids: seq<int>)
      requires Valid() && attachments.Some?
      requires |v| >= 2 && Distinct(v) && "" !in v
      requires forall x :: x in v ==> x in Values(attachments.value)
      modifies this
      ensures attachments == old(attachments) && checksums == old(checksums)
      ensures sel == Select(v, linted) && sel.primary in v
      ensures files == UpdateFiles(site.fs, sel.dupes, sel.primary)
      ensures ids != [] && Distinct(ids)
      ensures forall id :: id in ids <==> exists p :: (p == sel.primary || p in sel.dupes) && (id, p) in attachments.value
      ensures forall id :: id in ids ==> exists p :: p in v && (id, p) in attachments.value
      ensures forall id, p :: p in v && !Falsy(p) && (id, p) in attachments.value ==> id in ids
      ensures ids == AffectedIds(attachments.value, sel.dupes, sel.primary)
    {
      sel := SelectPrimary(v, linted);
      SelectCovers(v, linted);
      var primary := sel.primary;
      var affected;
      files, affected := CollectAffected(sel.dupes, primary);
      files := Spare(Unique(files), primary);
      ids := Unique(affected);
      ValueHeld(attachments.value, primary);
      ghost var id0 :| (id0, primary) in attachments.value;
      assert id0 in ids;
    }

    /** The end of one turn: retire the other files, then note the primary's sister files as saved. */
    method RetireGroup(files: seq<string>, primary: string, referenced: string -> bool, unlinkOk: string -> bool, posted: Report)
      returns (out: Report)
      modifies site
      ensures unchanged(site`rows, site`meta)
      ensures var st := RetireAll(Retiring(old(site.fs), old(site.log), posted), files, primary, referenced, unlinkOk);
        && site.fs == st.fs && site.log == st.log
        && out == st.report.(filesSaved := st.report.filesSaved + SisterFiles(st.fs, primary))
      ensures out.posts == posted.posts
      ensures Shrinks(old(site.fs), site.fs)
      ensures (forall x :: x in files ==> StripDot(x) != StripDot(primary)) ==>
        (IsFile(site.fs, primary) <==> IsFile(old(site.fs), primary))
    {
      ghost var fs0, log0 := site.fs, site.log;
      out := RetireFiles(files, primary, referenced, unlinkOk, posted);
      RetireReports(Retiring(fs0, log0, posted), files, primary, referenced, unlinkOk);
      RetireShrinks(Retiring(fs0, log0, posted), files, primary, referenced, unlinkOk);
      if forall x :: x in files ==> StripDot(x) != StripDot(primary) {
        RetireSpares(Retiring(fs0, log0, posted), files, primary, referenced, unlinkOk, primary);
      }
      var saved := GetSisterFiles(primary);
      out := NoteSaved(out, saved);
    }

    /**
     * deduplicate_files(): consolidate every group of paths sharing a digest,
     * in ascending digest order. `referenced` stands for mysql_search() and
     * `unlinkOk` for the outcome of unlink(). Each post holding a path of a
     * group is reported once and now names a file with the same content;
     * every other post keeps its row.
     */
    method DeduplicateFiles(referenced: string -> bool, unlinkOk: string -> bool) returns (out: Report)
      requires Valid() && Fresh() && "" !in site.fs.files
      modifies this, site
      ensures Valid() && site.meta == old(site.meta)
      ensures var a0 := Catalog.Catalog(old(site.rows));
        var g := Duplicates(ChecksumIndex(a0, old(site.fs)));
        && Posted(g, |g|, a0, out.posts)
        && Repointed(g, |g|, a0, old(site.rows), site.rows, out.posts)
        && (g == [] ==> out == Report(0, [], [], []) && site.rows == old(site.rows) && site.fs == old(site.fs) && site.log == old(site.log))
      ensures "0" !in Values(Catalog.Catalog(old(site.rows))) ==>
        Duplicates(ChecksumIndex(Catalog.Catalog(site.rows), site.fs)) == []
    {
      out := Report(0, [], [], []);
      var files := GetDuplicateFiles(false);
      if |files| == 0 {
        return;
      }
      var linted := GetLintedAttachments(true);
      ghost var a0, fs0 := attachments.value, site.fs;
      DupGroupsOf(a0, site.fs);
      out := ConsolidateAll(files, a0, linted, referenced, unlinkOk);
      if "0" !in Values(a0) {
        NoDuplicatesLeft(a0, fs0, Catalog.Catalog(site.rows), site.fs);
      }
    }

    /** The loop of deduplicate_files over the groups, from an empty report. */
    method ConsolidateAll(g: Index, ghost a0: Attachments, linted: Groups, referenced: string -> bool, unlinkOk: string -> bool)
      returns (out: Report)
      requires Valid() && DupGroups(g, a0)
      requires attachments == Some(a0) && a0 == Catalog.Catalog(site.rows) && IsLinted(a0, linted)
      modifies this, site
      ensures Progress(g, |g|, a0, old(site.rows), old(site.fs), out) && site.meta == old(site.meta)
    {
      out := Report(0, [], [], []);
      var linted := linted;
      ghost var rows0, fs0 := site.rows, site.fs;
      BetweenStart(g, a0, rows0, fs0);
      for k := 0 to |g|
        invariant Progress(g, k, a0, rows0, fs0, out) && site.meta == old(site.meta)
        invariant IsLinted(attachments.value, linted)
      {
        out, linted := Turn(g, k, a0, rows0, fs0, linted, referenced, unlinkOk, out);
      }
    }

    /** One turn of deduplicate_files' loop: consolidate group k, then reload the linted view if need be. */
    method Turn(g: Index, k: int, ghost a0: Attachments, ghost rows0: seq<(int, string)>, ghost fs0: FileSystem,
                linted: Groups, referenced: string -> bool, unlinkOk: string -> bool, out0: Report)
      returns (out: Report, relinted: Groups)
      requires 0 <= k < |g| && DupGroups(g, a0)
      requires Progress(g, k, a0, rows0, fs0, out0) && IsLinted(attachments.value, linted)
      modifies this, site
      ensures Progress(g, k + 1, a0, rows0, fs0, out) && IsLinted(attachments.value, relinted)
      ensures site.meta == old(site.meta)
    {
      var sel;
      out, sel := ConsolidateNext(g, k, a0, rows0, fs0, LintedPaths(linted), referenced, unlinkOk, out0);
      relinted := Relint(sel.inLint, linted, g, k + 1, a0, rows0, fs0, out);
    }

    /**
     * The end of one turn: when two linted groups or more were merged
     * ($in_lint > 1), reload the catalog and the linted view, which then has
     * one linted group for each group done; otherwise keep both.
     */
    method Relint(inLint: int, linted: Groups, ghost g: Index, ghost k: int, ghost a0: Attachments,
                  ghost rows0: seq<(int, string)>, ghost fs0: FileSystem, ghost out: Report)
      returns (relinted: Groups)
      requires Progress(g, k, a0, rows0, fs0, out) && IsLinted(attachments.value, linted)
      modifies this
      ensures Progress(g, k, a0, rows0, fs0, out) && IsLinted(attachments.value, relinted)
      ensures checksums == old(checksums)
      ensures inLint > 1 ==> attachments == Some(Catalog.Catalog(site.rows)) && OneLintedEach(g, k, relinted)
      ensures inLint <= 1 ==> attachments == old(attachments) && relinted == linted
    {
      if inLint > 1 {
        relinted := GetLintedAttachments(true);
        LintedMerged(g, k, a0, attachments.value, relinted);
      } else {
        relinted := linted;
      }
    }

    /** The loop of deduplicate_files between two groups. */
    ghost predicate Progress(g: Index, k: int, a0: Attachments, rows0: seq<(int, string)>, fs0: FileSystem, out: Report)
      reads this, site
    {
      && Valid() && attachments.Some?
      && Between(g, k, a0, rows0, fs0, attachments.value, site.rows, site.fs, out.posts)
    }

    /** Group k of deduplicate_files' loop, up to the reload of the linted view. */
    method ConsolidateNext(g: Index, k: int, ghost a0: Attachments, ghost rows0: seq<(int, string)>, ghost fs0: FileSystem,
                           linted: set<string>, referenced: string -> bool, unlinkOk: string -> bool, out0: Report)
      returns (out: Report, sel: Selection)
      requires 0 <= k < |g| && DupGroups(g, a0)
      requires Progress(g, k, a0, rows0, fs0, out0)
      modifies this, site
      ensures Progress(g, k + 1, a0, rows0, fs0, out) && site.meta == old(site.meta)
      ensures attachments == old(attachments) && sel == Select(g[k].1, linted)
    {
      var v := g[k].1;
      forall x | x in v ensures x in Values(attachments.value) {
        StillHeld(g, k, a0, attachments.value, x);
      }
      ghost var c, rows, posts := attachments.value, site.rows, out0.posts;
      var ids;
      out, sel, ids := ConsolidateGroup(v, linted, referenced, unlinkOk, out0);
      ghost var fs := old(site.fs);
      BetweenStep(g, k, a0, rows0, fs0, c, rows, fs, site.fs, posts, ids, sel.primary);
    }

    /**
     * regenerate_postmeta(): delete every `_duplicity_id` row, then insert,
     * 250 rows per INSERT, a row (member, `_duplicity_id`, first member) for
     * each member of each linted group of the reloaded catalog.
     */
    method RegeneratePostmeta()
      requires Valid()
      modifies this, site
      ensures Valid() && attachments == Some(Catalog.Catalog(site.rows)) && checksums == old(checksums)
      ensures site.rows == old(site.rows) && site.fs == old(site.fs) && site.log == old(site.log)
      ensures exists g ::
        && IsLinted(attachments.value, g)
        && site.meta == WithoutKey(old(site.meta), MetaKey) + MetaRows(g)
    {
      site.meta := WithoutKey(site.meta, MetaKey);
      var linted := GetLintedAttachments(true);
      var inserts := BuildInserts(linted);
      if |inserts| > 0 {
        InsertChunks(inserts);
      }
      assert inserts == [] ==> WithoutKey(old(site.meta), MetaKey) + inserts == WithoutKey(old(site.meta), MetaKey);
    }

    /** array_chunk($inserts, 250), one INSERT per chunk. */
    method InsertChunks(inserts: seq<MetaRow>)
      modifies site
      ensures site.meta == old(site.meta) + inserts
      ensures site.rows == old(site.rows) && site.fs == old(site.fs) && site.log == old(site.log)
    {
      var chunks := Chunks(inserts, ChunkSize);
      for i := 0 to |chunks|
        invariant site.meta == old(site.meta) + Flatten(chunks[..i])
        invariant site.rows == old(site.rows) && site.fs == old(site.fs) && site.log == old(site.log)
      {
        assert chunks[..i + 1] == chunks[..i] + [chunks[i]];
        FlattenAppend(chunks[..i], chunks[i]);
        site.meta := site.meta + chunks[i];
      }
      assert chunks[..|chunks|] == chunks;
    }

    /** `$out['posts'][] = $post_id` for each affected post, in order. */
    static method NotePosts(report: Report, ids: seq<int>) returns (out: Report)
      ensures out == report.(posts := report.posts + ids)
    {
      out := report;
      for i := 0 to |ids|
        invariant out == report.(posts := report.posts + ids[..i])
      {
        assert ids[..i + 1] == ids[..i] + [ids[i]];
        out := out.(posts := out.posts + [ids[i]]);
      }
      assert ids[..|ids|] == ids;
    }

    /** `$out['files_saved'][] = $v2` for each sister file of the primary, in order. */
    static method NoteSaved(report: Report, saved: seq<string>) returns (out: Report)
      ensures out == report.(filesSaved := report.filesSaved + saved)
    {
      out := report;
      for i := 0 to |saved|
        invariant out == report.(filesSaved := report.filesSaved + saved[..i])
      {
        assert saved[..i + 1] == saved[..i] + [saved[i]];
        out := out.(filesSaved := out.filesSaved + [saved[i]]);
      }
      assert saved[..|saved|] == saved;
    }
  }
}
