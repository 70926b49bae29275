/**
 * regenerate_postmeta: one `_duplicity_id` row per member of each linted
 * group, pointing at the group's first (smallest) id, inserted in chunks.
 */
module Postmeta {
  import opened PhpArray
  import opened Sorting
  import opened Site
  import opened Catalog
  import opened Grouping

  const MetaKey: string := "_duplicity_id"

  /** array_chunk size of the INSERTs. */
  const ChunkSize: nat := 250

  /** The rows of one group, each member pointing at primary. */
  function GroupRows(ids: seq<int>, primary: int): (r: seq<MetaRow>)
    ensures |r| == |ids|
    ensures forall i :: 0 <= i < |ids| ==> r[i] == MetaRow(ids[i], MetaKey, primary)
  {
    seq(|ids|, i requires 0 <= i < |ids| => MetaRow(ids[i], MetaKey, primary))
  }

  /**
   * The rows regenerate_postmeta inserts for the groups, in order. An empty
   * group (a path PHP keyed by an integer) has no `$v[0]` and adds no row.
   */
  function MetaRows(groups: Groups): seq<MetaRow>
  {
    if groups == [] then []
    else
      var ids := groups[|groups| - 1].1;
      MetaRows(groups[..|groups| - 1]) + (if ids == [] then [] else GroupRows(ids, ids[0]))
  }

  /** x is a member of a group of groups, pointing at the group's first id. */
  ghost predicate RowFor(groups: Groups, x: MetaRow)
  {
    x.key == MetaKey && exists k :: 0 <= k < |groups| && x.postId in groups[k].1 && x.value == groups[k].1[0]
  }

  /** A row is inserted exactly for a member of a group, with the group's first id as value. */
  lemma {:induction false} MetaRowsMembers(groups: Groups)
    ensures forall x :: x in MetaRows(groups) <==>
      x.key == MetaKey && exists k :: 0 <= k < |groups| && x.postId in groups[k].1 && x.value == groups[k].1[0]
  {
    if groups != [] {
      MetaRowsMembers(groups[..|groups| - 1]);
      forall x ensures x in MetaRows(groups) <==> RowFor(groups, x) {
        MetaRowsStep(groups, x);
      }
    }
  }

  /** One more group adds exactly the rows of its members. */
  lemma MetaRowsStep(groups: Groups, x: MetaRow)
    requires groups != []
    requires x in MetaRows(groups[..|groups| - 1]) <==> RowFor(groups[..|groups| - 1], x)
    ensures x in MetaRows(groups) <==> RowFor(groups, x)
  {
    var init := groups[..|groups| - 1];
    var ids := groups[|groups| - 1].1;
    var last := if ids == [] then [] else GroupRows(ids, ids[0]);
    assert MetaRows(groups) == MetaRows(init) + last;
    assert x in MetaRows(groups) <==> x in MetaRows(init) || x in last;
    if x in MetaRows(groups) {
      RowsAreMembers(groups, init, ids, x);
    }
    if RowFor(groups, x) {
      MembersAreRows(groups, init, ids, x);
    }
  }

  /** A row of the groups so far or of the last group belongs to a member. */
  lemma RowsAreMembers(groups: Groups, init: Groups, ids: seq<int>, x: MetaRow)
    requires groups != [] && init == groups[..|groups| - 1] && ids == groups[|groups| - 1].1
    requires x in MetaRows(init) ==> RowFor(init, x)
    requires x in MetaRows(init) || (ids != [] && x in GroupRows(ids, ids[0]))
    ensures RowFor(groups, x)
  {
    if x in MetaRows(init) {
      var k :| 0 <= k < |init| && x.postId in init[k].1 && x.value == init[k].1[0];
      assert groups[k] == init[k];
    } else {
      var i :| 0 <= i < |ids| && GroupRows(ids, ids[0])[i] == x;
      assert x.postId in groups[|groups| - 1].1;
    }
  }

  /** A member of an earlier group or of the last group has its row. */
  lemma MembersAreRows(groups: Groups, init: Groups, ids: seq<int>, x: MetaRow)
    requires groups != [] && init == groups[..|groups| - 1] && ids == groups[|groups| - 1].1
    requires RowFor(init, x) ==> x in MetaRows(init)
    requires RowFor(groups, x)
    ensures x in MetaRows(init) || (ids != [] && x in GroupRows(ids, ids[0]))
  {
    var k :| 0 <= k < |groups| && x.postId in groups[k].1 && x.value == groups[k].1[0];
    if k == |groups| - 1 {
      var i :| 0 <= i < |ids| && ids[i] == x.postId;
      assert GroupRows(ids, ids[0])[i] == x;
    } else {
      assert groups[k] == init[k];
    }
  }

  /**
   * One linted group: for a path kept as a string key, the ids holding it,
   * two or more, smallest first; for a path PHP keys by an integer, none.
   */
  lemma LintedGroup(a: Attachments, g: Groups, k: int)
    requires IsLinted(a, g) && 0 <= k < |g|
    ensures IntKey(g[k].0) ==> g[k].1 == []
    ensures !IntKey(g[k].0) ==> |g[k].1| >= 2
    ensures !IntKey(g[k].0) ==> forall id :: id in g[k].1 <==> (id, g[k].0) in a
    ensures forall id :: id in g[k].1 ==> g[k].1[0] <= id
  {
    assert g[k].0 in Keys(g);
    if !IntKey(g[k].0) {
      SortedHolders(a, g[k].0, g[k].1);
    }
  }

  /** The holders of a path held twice or more, sorted: two or more, smallest first. */
  lemma SortedHolders(a: Attachments, p: string, s: seq<int>)
    requires Count(a, p) >= 2 && s == SortInts(KeysWithValue(a, p))
    ensures |s| >= 2
    ensures forall id :: id in s <==> (id, p) in a
    ensures forall id :: id in s ==> s[0] <= id
  {
    var ids := KeysWithValue(a, p);
    forall id ensures id in s <==> (id, p) in a {
      assert id in s <==> id in multiset(ids);
    }
    forall id | id in s ensures s[0] <= id {
      var j :| 0 <= j < |s| && s[j] == id;
    }
  }

  /**
   * regenerate_postmeta on the linted groups of catalog a writes only rows
   * pointing an attachment at the smallest id holding the same path.
   */
  lemma PostmetaRowsSound(a: Attachments, g: Groups, x: MetaRow)
    requires IsLinted(a, g)
    ensures x in MetaRows(g) ==>
      x.key == MetaKey && exists p :: (x.postId, p) in a && (x.value, p) in a && forall id :: (id, p) in a ==> x.value <= id
  {
    if x in MetaRows(g) {
      MetaRowsMembers(g);
      var k :| 0 <= k < |g| && x.postId in g[k].1 && x.value == g[k].1[0];
      LintedGroup(a, g, k);
      var p := g[k].0;
      assert (x.postId, p) in a && (x.value, p) in a;
    }
  }

  /**
   * ... and an attachment whose path is shared gets a row exactly when PHP
   * keeps that path as a string key.
   */
  lemma PostmetaRowsComplete(a: Attachments, g: Groups, id: int, p: string)
    requires DistinctKeys(a) && IsLinted(a, g)
    requires (id, p) in a && Count(a, p) >= 2
    ensures (exists x :: x in MetaRows(g) && x.postId == id) <==> !IntKey(p)
  {
    assert p in Keys(g);
    var k :| 0 <= k < |g| && Keys(g)[k] == p;
    LintedGroup(a, g, k);
    MetaRowsMembers(g);
    if !IntKey(p) {
      var x := MetaRow(id, MetaKey, g[k].1[0]);
      assert x in MetaRows(g);
    } else {
      OnePathEach(a);
      forall x | x in MetaRows(g) ensures x.postId != id {
        var l :| 0 <= l < |g| && x.postId in g[l].1 && x.value == g[l].1[0];
        LintedGroup(a, g, l);
        assert (x.postId, g[l].0) in a && g[l].0 != p;
      }
    }
  }

  /** With one path per id, an id holds one path. */
  lemma OnePathEach(a: Attachments)
    requires DistinctKeys(a)
    ensures forall id, p, q :: (id, p) in a && (id, q) in a ==> p == q
  {
    forall id, p, q | (id, p) in a && (id, q) in a ensures p == q {
      var i :| 0 <= i < |a| && a[i] == (id, p);
      var j :| 0 <= j < |a| && a[j] == (id, q);
      assert i == j;
    }
  }

  /** The nested foreach that builds `$inserts`. */
  method BuildInserts(groups: Groups) returns (inserts: seq<MetaRow>)
    ensures inserts == MetaRows(groups)
  {
    inserts := [];
    for k := 0 to |groups|
      invariant inserts == MetaRows(groups[..k])
    {
      assert groups[..k + 1][..k] == groups[..k];
      var v := groups[k].1;
      // `$v[0]` of an empty group is null, and the inner loop never reads it.
      var primary := if |v| > 0 then v[0] else 0;
      ghost var before := inserts;
      for i := 0 to |v|
        invariant inserts == before + GroupRows(v[..i], primary)
      {
        assert GroupRows(v[..i + 1], primary) == GroupRows(v[..i], primary) + [MetaRow(v[i], MetaKey, primary)];
        inserts := inserts + [MetaRow(v[i], MetaKey, primary)];
      }
      assert v[..|v|] == v;
    }
    assert groups[..|groups|] == groups;
  }

  /** All chunks joined in order. */
  function Flatten<T>(chunks: seq<seq<T>>): seq<T>
  {
    if chunks == [] then [] else chunks[0] + Flatten(chunks[1..])
  }

  /** array_chunk($s, $n): pieces of n entries, the last one possibly shorter. */
  function Chunks<T>(s: seq<T>, n: nat): (r: seq<seq<T>>)
    requires n > 0
    ensures Flatten(r) == s
    ensures forall i :: 0 <= i < |r| ==> 0 < |r[i]| <= n
    decreases |s|
  {
    if s == [] then []
    else if |s| <= n then [s]
    else
      var r := [s[..n]] + Chunks(s[n..], n);
      assert r[1..] == Chunks(s[n..], n);
      assert s[..n] + s[n..] == s;
      r
  }

  lemma FlattenAppend<T>(chunks: seq<seq<T>>, c: seq<T>)
    ensures Flatten(chunks + [c]) == Flatten(chunks) + c
  {
    if chunks != [] {
      assert (chunks + [c])[1..] == chunks[1..] + [c];
      FlattenAppend(chunks[1..], c);
    }
  }

  /** The postmeta rows left by the DELETE of every row with the key. */
  function WithoutKey(meta: seq<MetaRow>, key: string): (r: seq<MetaRow>)
    ensures forall x :: x in r <==> x in meta && x.key != key
  {
    if meta == [] then []
    else (if meta[0].key == key then [] else [meta[0]]) + WithoutKey(meta[1..], key)
  }
}
