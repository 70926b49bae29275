/**
 * get_linted_attachments and get_duplicate_posts: count the paths of the
 * catalog, sort the counts from largest down, and drain the ids of every path
 * shared by two posts or more, stopping at the first count below 2.
 */
module Grouping {
  import opened Strings
  import opened Sorting
  import opened PhpArray
  import opened Catalog

  /** path -> the ids of the posts attached to it */
  type Groups = seq<(string, seq<int>)>

  /** The paths drained by the first i steps of the scan. */
  function Scanned(counted: seq<(string, nat)>, i: int): set<string>
    requires 0 <= i <= |counted|
  {
    set j | 0 <= j < i :: counted[j].0
  }

  /**
   * The paths the first i steps of the scan drain: array_count_values keys
   * an IntKey path by an integer, which the strict array_search never finds
   * among the string paths, so only the other paths are drained.
   */
  function DrainedPaths(counted: seq<(string, nat)>, i: int): set<string>
    requires 0 <= i <= |counted|
  {
    set j | 0 <= j < i && !IntKey(counted[j].0) :: counted[j].0
  }

  lemma DrainedPathsNext(counted: seq<(string, nat)>, i: int)
    requires 0 <= i < |counted|
    ensures DrainedPaths(counted, i + 1) ==
      if IntKey(counted[i].0) then DrainedPaths(counted, i) else DrainedPaths(counted, i) + {counted[i].0}
  {
  }

  /**
   * The group of path p: the ids the drain finds for it, which
   * get_linted_attachments sorts and get_duplicate_posts does not; none for
   * a path PHP keys by an integer.
   */
  function GroupIds(a: Attachments, p: string, sortIds: bool): seq<int>
  {
    if IntKey(p) then []
    else if sortIds then SortInts(KeysWithValue(a, p))
    else KeysWithValue(a, p)
  }

  /** The groups the first i steps of the scan emit. */
  function ScanPrefix(a: Attachments, counted: seq<(string, nat)>, i: int, sortIds: bool): (r: Groups)
    requires 0 <= i <= |counted|
    ensures |r| == i
    ensures forall j :: 0 <= j < i ==> r[j] == (counted[j].0, GroupIds(a, counted[j].0, sortIds))
  {
    if i == 0 then []
    else ScanPrefix(a, counted, i - 1, sortIds) + [(counted[i - 1].0, GroupIds(a, counted[i - 1].0, sortIds))]
  }

  /** The count of an entry of the sorted counts is the number of ids holding its path. */
  lemma CountedEntry(a: Attachments, counted: seq<(string, nat)>, j: int)
    requires counted == ArSort(CountValues(a)) && 0 <= j < |counted|
    ensures counted[j].1 == Count(a, counted[j].0)
  {
    var c := CountValues(a);
    assert counted[j] in multiset(c);
    var k :| 0 <= k < |c| && c[k] == counted[j];
  }

  /**
   * The `break` at the first count below 2 loses no group: after it, the
   * paths scanned are exactly those held by two ids or more.
   */
  lemma ScanComplete(a: Attachments, counted: seq<(string, nat)>, i: int)
    requires counted == ArSort(CountValues(a))
    requires 0 <= i <= |counted|
    requires forall j :: 0 <= j < i ==> counted[j].1 >= 2
    requires i < |counted| ==> counted[i].1 < 2
    ensures forall p :: p in Scanned(counted, i) <==> Count(a, p) >= 2
  {
    forall p | p in Scanned(counted, i) ensures Count(a, p) >= 2 {
      var j :| 0 <= j < i && counted[j].0 == p;
      CountedEntry(a, counted, j);
    }
    forall p | Count(a, p) >= 2 ensures p in Scanned(counted, i) {
      var j := CountedIndex(a, counted, p);
      CountedEntry(a, counted, j);
      BelowTwoAfter(counted, i);
    }
  }

  /** Counts sorted from largest down stay below 2 once one is. */
  lemma BelowTwoAfter(counted: seq<(string, nat)>, i: int)
    requires forall k, l :: 0 <= k < l < |counted| ==> counted[k].1 >= counted[l].1
    requires 0 <= i <= |counted| && (i < |counted| ==> counted[i].1 < 2)
    ensures forall j :: i <= j < |counted| ==> counted[j].1 < 2
  {
    forall j | i <= j < |counted| ensures counted[j].1 < 2 {
      if i < j {
        assert counted[i].1 >= counted[j].1;
      }
    }
  }

  lemma HeldPath(a: Attachments, p: string)
    requires Count(a, p) >= 1
    ensures p in Values(a)
  {
    var x := KeysWithValue(a, p)[0];
    assert (x, p) in a;
    var e :| 0 <= e < |a| && a[e] == (x, p);
    assert Values(a)[e] == p;
  }

  /** A path held by some id has an entry in the sorted counts. */
  lemma CountedIndex(a: Attachments, counted: seq<(string, nat)>, p: string) returns (j: int)
    requires counted == ArSort(CountValues(a)) && Count(a, p) >= 1
    ensures 0 <= j < |counted| && counted[j].0 == p
  {
    var c := CountValues(a);
    HeldPath(a, p);
    assert p in Keys(c);
    var k :| 0 <= k < |c| && c[k].0 == p;
    assert c[k] in multiset(counted);
    j :| 0 <= j < |counted| && counted[j] == c[k];
  }

  /** One step of the scan: the drain of the next string path sees the catalog's ids for it. */
  lemma ScanStep(a: Attachments, counted: seq<(string, nat)>, i: int)
    requires DistinctKeys(counted) && 0 <= i < |counted| && !IntKey(counted[i].0)
    ensures KeysWithValue(WithoutValues(a, DrainedPaths(counted, i)), counted[i].0) == KeysWithValue(a, counted[i].0)
    ensures WithoutValues(WithoutValues(a, DrainedPaths(counted, i)), {counted[i].0}) == WithoutValues(a, DrainedPaths(counted, i + 1))
  {
    var k := counted[i].0;
    assert k !in DrainedPaths(counted, i);
    WithoutValuesKeys(a, DrainedPaths(counted, i), k);
    WithoutValuesTwice(a, DrainedPaths(counted, i), {k});
    DrainedPathsNext(counted, i);
  }

  /** Groups with strictly ascending, hence distinct, paths share no id. */
  lemma NoSharedIds(a: Attachments, out: Groups)
    requires DistinctKeys(a)
    requires forall k, x :: 0 <= k < |out| && x in out[k].1 ==> x in KeysWithValue(a, out[k].0)
    requires forall k, l :: 0 <= k < l < |out| ==> StrLt(out[k].0, out[l].0)
    ensures forall k, l, x :: 0 <= k < |out| && 0 <= l < |out| && k != l && x in out[k].1 ==> x !in out[l].1
  {
    forall k, l, x | 0 <= k < |out| && 0 <= l < |out| && k != l && x in out[k].1
      ensures x !in out[l].1
    {
      assert out[k].0 != out[l].0 by {
        if k < l { assert StrLt(out[k].0, out[l].0); } else { assert StrLt(out[l].0, out[k].0); }
      }
      if x in out[l].1 {
        GroupsDisjoint(a, out[k].0, out[l].0, x);
      }
    }
  }

  /** Every id of a group holds the group's path. */
  lemma GroupIdsHold(a: Attachments, out: Groups, sortIds: bool)
    requires forall k :: 0 <= k < |out| ==> out[k].1 == GroupIds(a, out[k].0, sortIds)
    ensures forall k, x :: 0 <= k < |out| && x in out[k].1 ==> x in KeysWithValue(a, out[k].0)
  {
    forall k, x | 0 <= k < |out| && x in out[k].1 ensures x in KeysWithValue(a, out[k].0) {
      if sortIds && !IntKey(out[k].0) {
        assert x in multiset(SortInts(KeysWithValue(a, out[k].0)));
      }
    }
  }

  /** No two entries of the sorted counts name the same path. */
  lemma CountedDistinct(a: Attachments, counted: seq<(string, nat)>)
    requires counted == ArSort(CountValues(a))
    ensures DistinctKeys(counted)
  {
    PermDistinctKeys(CountValues(a), counted);
  }

  /** With one path per id, groups of different paths share no id. */
  lemma GroupsDisjoint(a: Attachments, p: string, q: string, x: int)
    requires DistinctKeys(a)
    requires x in KeysWithValue(a, p) && x in KeysWithValue(a, q)
    ensures p == q
  {
    var i :| 0 <= i < |a| && a[i] == (x, p);
    var j :| 0 <= j < |a| && a[j] == (x, q);
    assert i == j;
  }

  /** ksort() reorders the entries only; with distinct keys the order is strict. */
  lemma KSortEntries(out: Groups)
    requires DistinctKeys(out)
    ensures forall e :: e in KSort(out) <==> e in out
    ensures forall p :: p in Keys(KSort(out)) <==> p in Keys(out)
    ensures forall k, l :: 0 <= k < l < |KSort(out)| ==> StrLt(KSort(out)[k].0, KSort(out)[l].0)
  {
    var r := KSort(out);
    PermDistinctKeys(out, r);
    forall e ensures e in r <==> e in out {
      assert e in r <==> e in multiset(r);
    }
    forall p | p in Keys(r) ensures p in Keys(out) {
      var k :| 0 <= k < |r| && r[k].0 == p;
      assert r[k] in out;
      var j :| 0 <= j < |out| && out[j] == r[k];
      assert Keys(out)[j] == p;
    }
    forall p | p in Keys(out) ensures p in Keys(r) {
      var j :| 0 <= j < |out| && out[j].0 == p;
      assert out[j] in r;
      var k :| 0 <= k < |r| && r[k] == out[j];
      assert Keys(r)[k] == p;
    }
  }

  /** The scan emits one group per scanned path, each path once. */
  lemma PrefixKeys(a: Attachments, counted: seq<(string, nat)>, i: int, sortIds: bool)
    requires DistinctKeys(counted) && 0 <= i <= |counted|
    ensures DistinctKeys(ScanPrefix(a, counted, i, sortIds))
    ensures forall p :: p in Keys(ScanPrefix(a, counted, i, sortIds)) <==> p in Scanned(counted, i)
  {
    var out := ScanPrefix(a, counted, i, sortIds);
    forall j, l | 0 <= j < l < |out| ensures out[j].0 != out[l].0 {
      assert out[j].0 == counted[j].0 && out[l].0 == counted[l].0;
    }
    forall p | p in Keys(out) ensures p in Scanned(counted, i) {
      var j :| 0 <= j < |out| && out[j].0 == p;
      assert counted[j].0 == p;
    }
    forall p | p in Scanned(counted, i) ensures p in Keys(out) {
      var j :| 0 <= j < i && counted[j].0 == p;
      assert Keys(out)[j] == p;
    }
  }

  /**
   * The ksort() that ends both scans: the groups keep their contents, their
   * paths come out strictly ascending, and they are exactly the shared paths.
   */
  lemma FinishGroups(a: Attachments, counted: seq<(string, nat)>, i: int, out: Groups, sortIds: bool)
    requires counted == ArSort(CountValues(a))
    requires 0 <= i <= |counted| && out == ScanPrefix(a, counted, i, sortIds)
    requires forall p :: p in Scanned(counted, i) <==> Count(a, p) >= 2
    ensures forall p :: p in Keys(KSort(out)) <==> Count(a, p) >= 2
    ensures forall k :: 0 <= k < |KSort(out)| ==> KSort(out)[k].1 == GroupIds(a, KSort(out)[k].0, sortIds)
    ensures forall k, l :: 0 <= k < l < |KSort(out)| ==> StrLt(KSort(out)[k].0, KSort(out)[l].0)
  {
    CountedDistinct(a, counted);
    PrefixKeys(a, counted, i, sortIds);
    KSortEntries(out);
    var r := KSort(out);
    forall k | 0 <= k < |r| ensures r[k].1 == GroupIds(a, r[k].0, sortIds) {
      assert r[k] in out;
    }
  }

  /**
   * What get_linted_attachments returns for catalog a: a group for exactly
   * the paths held by two ids or more, each listing exactly those ids in
   * ascending order (none for a path PHP keys by an integer), paths strictly
   * ascending, and no id in two groups.
   */
  ghost predicate IsLinted(a: Attachments, out: Groups)
  {
    && (forall p :: p in Keys(out) <==> Count(a, p) >= 2)
    && (forall k :: 0 <= k < |out| ==> out[k].1 == if IntKey(out[k].0) then [] else SortInts(KeysWithValue(a, out[k].0)))
    && (forall k, l :: 0 <= k < l < |out| ==> StrLt(out[k].0, out[l].0))
    && (forall k, l, x :: 0 <= k < |out| && 0 <= l < |out| && k != l && x in out[k].1 ==> x !in out[l].1)
  }

  /**
   * What get_duplicate_posts returns for catalog a: as IsLinted, but each
   * group lists its ids in the order the drain finds them.
   */
  ghost predicate IsDuplicatePosts(a: Attachments, out: Groups)
  {
    && (forall p :: p in Keys(out) <==> Count(a, p) >= 2)
    && (forall k :: 0 <= k < |out| ==> out[k].1 == if IntKey(out[k].0) then [] else KeysWithValue(a, out[k].0))
    && (forall k, l :: 0 <= k < l < |out| ==> StrLt(out[k].0, out[l].0))
    && (forall k, l, x :: 0 <= k < |out| && 0 <= l < |out| && k != l && x in out[k].1 ==> x !in out[l].1)
  }

  lemma FinishLinted(a: Attachments, counted: seq<(string, nat)>, i: int, out: Groups)
    requires DistinctKeys(a) && counted == ArSort(CountValues(a))
    requires 0 <= i <= |counted| && out == ScanPrefix(a, counted, i, true)
    requires forall j :: 0 <= j < i ==> counted[j].1 >= 2
    requires i < |counted| ==> counted[i].1 < 2
    ensures IsLinted(a, KSort(out))
  {
    ScanComplete(a, counted, i);
    FinishGroups(a, counted, i, out, true);
    GroupIdsHold(a, KSort(out), true);
    NoSharedIds(a, KSort(out));
  }

  lemma FinishDuplicatePosts(a: Attachments, counted: seq<(string, nat)>, i: int, out: Groups)
    requires DistinctKeys(a) && counted == ArSort(CountValues(a))
    requires 0 <= i <= |counted| && out == ScanPrefix(a, counted, i, false)
    requires forall j :: 0 <= j < i ==> counted[j].1 >= 2
    requires i < |counted| ==> counted[i].1 < 2
    ensures IsDuplicatePosts(a, KSort(out))
  {
    ScanComplete(a, counted, i);
    FinishGroups(a, counted, i, out, false);
    GroupIdsHold(a, KSort(out), false);
    NoSharedIds(a, KSort(out));
  }

  /**
   * The scan both versions share: take the sorted counts in turn, stop at the
   * first count below 2, and drain the ids of each path from a copy of the
   * catalog; get_linted_attachments also sorts each group (sortIds). A path
   * PHP keys by an integer gets an empty group: the strict search finds nothing.
   */
  method ScanSharedPaths(a: Attachments, counted: seq<(string, nat)>, sortIds: bool) returns (out: Groups, i: int)
    requires DistinctKeys(a) && DistinctKeys(counted)
    ensures 0 <= i <= |counted| && out == ScanPrefix(a, counted, i, sortIds)
    ensures forall j :: 0 <= j < i ==> counted[j].1 >= 2
    ensures i < |counted| ==> counted[i].1 < 2
  {
    out := [];
    var rest := a;
    i := 0;
    assert DrainedPaths(counted, 0) == {};
    WithoutNothing(a);
    while i < |counted| && counted[i].1 >= 2
      invariant 0 <= i <= |counted|
      invariant DistinctKeys(rest) && rest == WithoutValues(a, DrainedPaths(counted, i))
      invariant out == ScanPrefix(a, counted, i, sortIds)
      invariant forall j :: 0 <= j < i ==> counted[j].1 >= 2
    {
      var k := counted[i].0;
      var ids;
      if IntKey(k) {
        // `array_search($k, ...)` with an integer $k: no string path is identical to it.
        ids := [];
        DrainedPathsNext(counted, i);
      } else {
        ScanStep(a, counted, i);
        ids, rest := Drain(rest, k);
      }
      if sortIds {
        ids := SortInts(ids);
      }
      // $k is new to $out, so `$out[$k] = array()` appends the group.
      out := out + [(k, ids)];
      i := i + 1;
    }
  }

  /** get_linted_attachments on a loaded catalog. */
  method LintedGroups(a: Attachments) returns (out: Groups)
    requires DistinctKeys(a)
    ensures IsLinted(a, out)
    ensures a == [] ==> out == []
  {
    out := [];
    if |a| == 0 {
      return;
    }
    var counted := ArSort(CountValues(a));
    CountedDistinct(a, counted);
    var i;
    out, i := ScanSharedPaths(a, counted, true);
    FinishLinted(a, counted, i, out);
    out := KSort(out);
  }

  /** get_duplicate_posts on a loaded catalog. */
  method DuplicatePostGroups(a: Attachments) returns (out: Groups)
    requires DistinctKeys(a)
    ensures IsDuplicatePosts(a, out)
    ensures a == [] ==> out == []
  {
    out := [];
    if |a| == 0 {
      return;
    }
    var counted := ArSort(CountValues(a));
    CountedDistinct(a, counted);
    var i;
    out, i := ScanSharedPaths(a, counted, false);
    FinishDuplicatePosts(a, counted, i, out);
    out := KSort(out);
  }

  /** Posts 1 and 2 both at path "0": PHP keys "0" by the integer 0, and its linted group is empty. */
  lemma IntKeyGroupEmpty(g: Groups)
    requires IsLinted([(1, "0"), (2, "0")], g)
    ensures g == [("0", [])]
  {
    var a: Attachments := [(1, "0"), (2, "0")];
    assert KeysWithValue(a, "0") == [1, 2];
    forall p | p != "0" ensures Count(a, p) == 0 {
      assert KeysWithValue(a, p) == [];
    }
    assert "0" in Keys(g);
    forall k | 0 <= k < |g| ensures g[k].0 == "0" {
      assert g[k].0 in Keys(g);
    }
    assert |g| < 2 || StrLt(g[0].0, g[1].0);
    IntKeyShapes("");
  }

  /** On a catalog in ascending id order the drain already finds the ids in ascending order. */
  lemma {:induction false} DrainAscending(a: Attachments, p: string)
    requires Ascending(a)
    ensures forall k, l :: 0 <= k < l < |KeysWithValue(a, p)| ==> KeysWithValue(a, p)[k] < KeysWithValue(a, p)[l]
  {
    if a != [] {
      assert Ascending(a[1..]);
      DrainAscending(a[1..], p);
      var t := KeysWithValue(a[1..], p);
      if a[0].1 == p {
        forall x | x in t ensures a[0].0 < x {
          var i :| 0 <= i < |a[1..]| && a[1..][i] == (x, p);
          assert a[i + 1].0 == x;
        }
        var r := [a[0].0] + t;
        forall k, l | 0 <= k < l < |r| ensures r[k] < r[l] {
          if k == 0 { assert r[l] == t[l - 1] && t[l - 1] in t; }
        }
      }
    }
  }

  /**
   * The two versions agree: on a catalog in ascending id order, the sort()
   * that get_linted_attachments applies to each group changes nothing.
   */
  lemma LintedAgreesWithDuplicatePosts(a: Attachments, p: string)
    requires Ascending(a)
    ensures SortInts(KeysWithValue(a, p)) == KeysWithValue(a, p)
  {
    DrainAscending(a, p);
    SortByOfSorted(KeysWithValue(a, p), IntLe);
  }
}
