/**
 * The UPDATE that deduplicate_files runs on `_wp_attached_file`: every row of
 * the given posts gets the primary's path. Reloading the catalog after it
 * gives the old catalog with those posts repointed.
 */
module Repoint {
  import opened Sorting
  import opened PhpArray
  import opened Catalog

  /** One row (or catalog entry) after the UPDATE. */
  function Relabel(e: (int, string), ids: seq<int>, path: string): (r: (int, string))
  {
    (e.0, if e.0 in ids then path else e.1)
  }

  /** `UPDATE ... SET meta_value = path WHERE post_id IN (ids)` on the rows, in place. */
  function RepointRows(rows: seq<(int, string)>, ids: seq<int>, path: string): (r: seq<(int, string)>)
    ensures |r| == |rows|
    ensures forall i :: 0 <= i < |rows| ==> r[i] == Relabel(rows[i], ids, path)
  {
    seq(|rows|, i requires 0 <= i < |rows| => Relabel(rows[i], ids, path))
  }

  lemma {:induction false} InsertRepoint(x: (int, string), s: seq<(int, string)>, ids: seq<int>, path: string)
    ensures Insert(Relabel(x, ids, path), RepointRows(s, ids, path), IdLe) == RepointRows(Insert(x, s, IdLe), ids, path)
  {
    var x' := Relabel(x, ids, path);
    var s' := RepointRows(s, ids, path);
    if s == [] {
      assert Insert(x', s', IdLe) == [x'];
    } else if IdLe(x, s[0]) {
      assert IdLe(x', s'[0]);
      ConsRepoint(x, s, ids, path);
    } else {
      assert !IdLe(x', s'[0]);
      InsertRepoint(x, s[1..], ids, path);
      assert s'[1..] == RepointRows(s[1..], ids, path);
      ConsRepoint(s[0], Insert(x, s[1..], IdLe), ids, path);
    }
  }

  lemma ConsRepoint(x: (int, string), s: seq<(int, string)>, ids: seq<int>, path: string)
    ensures RepointRows([x] + s, ids, path) == [Relabel(x, ids, path)] + RepointRows(s, ids, path)
  {
    var l := RepointRows([x] + s, ids, path);
    var r := [Relabel(x, ids, path)] + RepointRows(s, ids, path);
    forall i | 0 <= i < |l| ensures l[i] == r[i] {
      if i > 0 { assert ([x] + s)[i] == s[i - 1]; }
    }
  }

  lemma {:induction false} SortRepoint(s: seq<(int, string)>, ids: seq<int>, path: string)
    ensures SortBy(RepointRows(s, ids, path), IdLe) == RepointRows(SortBy(s, IdLe), ids, path)
  {
    if s != [] {
      SortRepoint(s[1..], ids, path);
      assert RepointRows(s, ids, path)[1..] == RepointRows(s[1..], ids, path);
      InsertRepoint(s[0], SortBy(s[1..], IdLe), ids, path);
    }
  }

  lemma {:induction false} PutRepoint(m: Attachments, x: (int, string), ids: seq<int>, path: string)
    ensures Put(RepointRows(m, ids, path), x.0, Relabel(x, ids, path).1) == RepointRows(Put(m, x.0, x.1), ids, path)
  {
    if m != [] {
      TailRepoint(m, ids, path);
      if m[0].0 == x.0 {
        ConsRepoint((x.0, x.1), m[1..], ids, path);
      } else {
        PutRepoint(m[1..], x, ids, path);
        ConsRepoint(m[0], Put(m[1..], x.0, x.1), ids, path);
      }
    }
  }

  /** A repointed table's head and tail are the repointed head and tail. */
  lemma TailRepoint(m: Attachments, ids: seq<int>, path: string)
    requires m != []
    ensures RepointRows(m, ids, path)[0] == Relabel(m[0], ids, path)
    ensures RepointRows(m, ids, path)[1..] == RepointRows(m[1..], ids, path)
  {
  }

  lemma {:induction false} AssignRepoint(q: seq<(int, string)>, ids: seq<int>, path: string)
    ensures Assign(RepointRows(q, ids, path)) == RepointRows(Assign(q), ids, path)
  {
    if q != [] {
      var p := q[..|q| - 1];
      var x := q[|q| - 1];
      var rq := RepointRows(q, ids, path);
      assert rq[..|rq| - 1] == RepointRows(p, ids, path);
      assert rq[|rq| - 1] == Relabel(x, ids, path);
      AssignRepoint(p, ids, path);
      PutRepoint(Assign(p), x, ids, path);
    }
  }

  /** Reloading after the UPDATE is repointing the loaded catalog. */
  lemma CatalogRepoint(rows: seq<(int, string)>, ids: seq<int>, path: string)
    ensures Catalog.Catalog(RepointRows(rows, ids, path)) == RepointRows(Catalog.Catalog(rows), ids, path)
  {
    SortRepoint(rows, ids, path);
    AssignRepoint(QueryOrder(rows), ids, path);
  }

  /** What the reloaded catalog holds: the repointed posts at path, every other entry as before. */
  lemma CatalogAfterRepoint(rows: seq<(int, string)>, ids: seq<int>, path: string)
    ensures forall id, p :: (id, p) in Catalog.Catalog(RepointRows(rows, ids, path)) <==>
      (id in ids && p == path && id in Keys(Catalog.Catalog(rows))) || (id !in ids && (id, p) in Catalog.Catalog(rows))
  {
    CatalogRepoint(rows, ids, path);
    RepointEntries(Catalog.Catalog(rows), ids, path);
  }

  /** The entries of a repointed table: the listed ids at path, every other entry as before. */
  lemma RepointEntries(c: seq<(int, string)>, ids: seq<int>, path: string)
    ensures forall id, p :: (id, p) in RepointRows(c, ids, path) <==>
      (id in ids && p == path && id in Keys(c)) || (id !in ids && (id, p) in c)
  {
    var r := RepointRows(c, ids, path);
    forall id, p ensures (id, p) in r <==> (id in ids && p == path && id in Keys(c)) || (id !in ids && (id, p) in c) {
      if (id, p) in r {
        var i :| 0 <= i < |r| && r[i] == (id, p);
        assert c[i].0 == id;
      }
      if id in ids && p == path && id in Keys(c) {
        var i :| 0 <= i < |c| && c[i].0 == id;
        assert r[i] == (id, p);
      }
      if id !in ids && (id, p) in c {
        var i :| 0 <= i < |c| && c[i] == (id, p);
        assert r[i] == (id, p);
      }
    }
  }
}
