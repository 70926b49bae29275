/**
 * The two tables the deduplication engine works on, and the algorithms both
 * of its classes share: the attachment catalog (post id -> relative path,
 * loaded in ascending id order), the digest index (md5 -> paths), the
 * duplicate filter, and the drain that collects the ids holding a path.
 */
module Catalog {
  import opened Options
  import opened Strings
  import opened Sorting
  import opened PhpArray
  import opened Site

  /** post id -> path of its _wp_attached_file, in load order */
  type Attachments = seq<(int, string)>

  /** md5 -> the paths with that content */
  type Index = seq<(string, seq<string>)>

  predicate Ascending(m: Attachments)
  {
    forall i, j :: 0 <= i < j < |m| ==> m[i].0 < m[j].0
  }

  // ---- load_attachments --------------------------------------------------

  predicate IdLe(a: (int, string), b: (int, string))
  {
    a.0 <= b.0
  }

  lemma IdLePreorder()
    ensures TotalPreorder(IdLe)
  {
  }

  /**
   * The rows in the order `ORDER BY p.ID ASC` returns them. SQL leaves the
   * order of rows with the same id open; the model keeps table order there.
   */
  function QueryOrder(rows: seq<(int, string)>): (r: seq<(int, string)>)
    ensures multiset(r) == multiset(rows) && |r| == |rows|
    ensures forall i, j :: 0 <= i < j < |r| ==> r[i].0 <= r[j].0
  {
    IdLePreorder();
    SortBySorted(rows, IdLe);
    SortBy(rows, IdLe)
  }

  /** The row is the last one with its id. */
  predicate LastOfId(q: seq<(int, string)>, i: int)
    requires 0 <= i < |q|
  {
    forall j :: i < j < |q| ==> q[j].0 != q[i].0
  }

  /**
   * `$attachments[$id] = $path` for each row in turn: a later row with the
   * same id overwrites the path but keeps the place of the first.
   */
  function Assign(q: seq<(int, string)>): (m: Attachments)
    ensures DistinctKeys(m)
    ensures forall e :: e in m ==> e in q
  {
    if q == [] then []
    else
      var m0 := Assign(q[..|q| - 1]);
      var x := q[|q| - 1];
      PutKeeps(m0, x.0, x.1);
      PutDistinct(m0, x.0, x.1);
      assert forall e :: e in m0 ==> e in q by {
        assert q == q[..|q| - 1] + [x];
      }
      Put(m0, x.0, x.1)
  }

  /** The last row with an id is the one whose path the catalog keeps. */
  lemma {:induction false} AssignLast(q: seq<(int, string)>, i: int)
    requires 0 <= i < |q| && LastOfId(q, i)
    ensures q[i] in Assign(q)
  {
    var p := q[..|q| - 1];
    var x := q[|q| - 1];
    PutKeeps(Assign(p), x.0, x.1);
    if i < |q| - 1 {
      assert LastOfId(p, i) by {
        forall j | i < j < |p| ensures p[j].0 != p[i].0 {
          assert p[j] == q[j];
        }
      }
      AssignLast(p, i);
      assert q[i] == p[i];
      assert q[i].0 != x.0;
    }
  }

  lemma PutKeeps(m: Attachments, k: int, v: string)
    requires DistinctKeys(m)
    ensures (k, v) in Put(m, k, v)
    ensures forall e :: e in m && e.0 != k ==> e in Put(m, k, v)
    ensures forall e :: e in Put(m, k, v) ==> e in m || e == (k, v)
  {
    if k in Keys(m) {
      var i :| 0 <= i < |m| && m[i].0 == k;
      PutAt(m, i, v);
      ReplaceKeeps(m, i, v);
    }
  }

  lemma ReplaceKeeps(m: Attachments, i: nat, v: string)
    requires i < |m|
    ensures (m[i].0, v) in m[i := (m[i].0, v)]
    ensures forall e :: e in m && e.0 != m[i].0 ==> e in m[i := (m[i].0, v)]
    ensures forall e :: e in m[i := (m[i].0, v)] ==> e in m || e == (m[i].0, v)
  {
    var r := m[i := (m[i].0, v)];
    assert r[i] == (m[i].0, v);
    forall e | e in m && e.0 != m[i].0 ensures e in r {
      var j :| 0 <= j < |m| && m[j] == e;
      assert r[j] == e;
    }
    forall e | e in r ensures e in m || e == (m[i].0, v) {
      var j :| 0 <= j < |r| && r[j] == e;
      if j != i { assert m[j] == e; }
    }
  }

  lemma PutDistinct(m: Attachments, k: int, v: string)
    requires DistinctKeys(m)
    ensures DistinctKeys(Put(m, k, v))
  {
    var r := Put(m, k, v);
    if k !in Keys(m) {
      forall i, j | 0 <= i < j < |r| ensures r[i].0 != r[j].0 {
        if j == |m| { assert m[i].0 in Keys(m); }
      }
    }
  }

  /** The catalog load_attachments builds from the database rows. */
  function Catalog(rows: seq<(int, string)>): Attachments
  {
    Assign(QueryOrder(rows))
  }

  /** Loading in ascending id order gives a catalog in ascending id order. */
  lemma {:induction false} AssignAscending(q: seq<(int, string)>)
    requires forall i, j :: 0 <= i < j < |q| ==> q[i].0 <= q[j].0
    ensures Ascending(Assign(q))
  {
    if q != [] {
      var p := q[..|q| - 1];
      var x := q[|q| - 1];
      var m0 := Assign(p);
      LastIsMax(q, p);
      AssignAscending(p);
      if x.0 in Keys(m0) {
        var i :| 0 <= i < |m0| && m0[i].0 == x.0;
        PutAt(m0, i, x.1);
        AscendingReplace(m0, i, x.1);
      } else {
        AscendingAppend(m0, x);
      }
    }
  }

  /** In id order, the rows before the last are in id order, and none has a larger id. */
  lemma LastIsMax(q: seq<(int, string)>, p: seq<(int, string)>)
    requires q != [] && p == q[..|q| - 1] && forall i, j :: 0 <= i < j < |q| ==> q[i].0 <= q[j].0
    ensures forall i, j :: 0 <= i < j < |p| ==> p[i].0 <= p[j].0
    ensures forall e :: e in Assign(p) ==> e.0 <= q[|q| - 1].0
  {
    forall i, j | 0 <= i < j < |p| ensures p[i].0 <= p[j].0 { assert p[i] == q[i] && p[j] == q[j]; }
    forall e | e in p ensures e.0 <= q[|q| - 1].0 {
      var j :| 0 <= j < |p| && p[j] == e;
      assert q[j] == e;
    }
  }

  lemma AscendingReplace(m: Attachments, i: nat, v: string)
    requires Ascending(m) && i < |m|
    ensures Ascending(m[i := (m[i].0, v)])
  {
    var r := m[i := (m[i].0, v)];
    assert forall j :: 0 <= j < |m| ==> r[j].0 == m[j].0;
  }

  lemma AscendingAppend(m: Attachments, x: (int, string))
    requires Ascending(m) && x.0 !in Keys(m) && forall e :: e in m ==> e.0 <= x.0
    ensures Ascending(m + [x])
  {
    var r := m + [x];
    forall i, j | 0 <= i < j < |r| ensures r[i].0 < r[j].0 {
      if j == |m| {
        assert r[i] == m[i] && m[i] in m;
        assert m[i].0 in Keys(m);
      } else {
        assert r[i] == m[i] && r[j] == m[j];
      }
    }
  }

  /**
   * The catalog: ascending ids, every entry a database row, and exactly the
   * ids of the rows, each with the path of the last row the query returns.
   */
  lemma CatalogSpec(rows: seq<(int, string)>)
    ensures Ascending(Catalog(rows)) && DistinctKeys(Catalog(rows))
    ensures forall e :: e in Catalog(rows) ==> e in rows
    ensures forall id :: id in Keys(Catalog(rows)) <==> id in Keys(rows)
  {
    AssignAscending(QueryOrder(rows));
    CatalogRows(rows);
    forall id | id in Keys(rows) ensures id in Keys(Catalog(rows)) {
      CatalogHasId(rows, id);
    }
  }

  lemma CatalogRows(rows: seq<(int, string)>)
    ensures forall e :: e in Catalog(rows) ==> e in rows
    ensures forall id :: id in Keys(Catalog(rows)) ==> id in Keys(rows)
  {
    var q := QueryOrder(rows);
    var m := Catalog(rows);
    forall e | e in m ensures e in rows {
      assert e in q;
      assert e in multiset(q);
    }
    forall id | id in Keys(m) ensures id in Keys(rows) {
      var k :| 0 <= k < |m| && m[k].0 == id;
      assert m[k] in m;
      var r :| 0 <= r < |rows| && rows[r] == m[k];
      assert Keys(rows)[r] == id;
    }
  }

  lemma CatalogHasId(rows: seq<(int, string)>, id: int)
    requires id in Keys(rows)
    ensures id in Keys(Catalog(rows))
  {
    var q := QueryOrder(rows);
    var m := Catalog(rows);
    var r :| 0 <= r < |rows| && rows[r].0 == id;
    assert rows[r] in multiset(q);
    var i :| 0 <= i < |q| && q[i] == rows[r];
    var last := LastIndexOfId(q, i);
    AssignLast(q, last);
    var k :| 0 <= k < |m| && m[k] == q[last];
    assert Keys(m)[k] == id;
  }

  lemma {:induction false} LastIndexOfId(q: seq<(int, string)>, i: int) returns (last: int)
    requires 0 <= i < |q|
    ensures i <= last < |q| && q[last].0 == q[i].0 && LastOfId(q, last)
    decreases |q| - i
  {
    if LastOfId(q, i) {
      last := i;
    } else {
      var j :| i < j < |q| && q[j].0 == q[i].0;
      last := LastIndexOfId(q, j);
    }
  }

  /** The foreach of load_attachments over the query result. */
  method FetchCatalog(rows: seq<(int, string)>) returns (m: Attachments)
    ensures m == Catalog(rows)
    ensures Ascending(m)
  {
    var q := QueryOrder(rows);
    m := [];
    for i := 0 to |q|
      invariant m == Assign(q[..i])
    {
      assert q[..i + 1][..i] == q[..i];
      m := Put(m, q[i].0, q[i].1);
    }
    assert q[..|q|] == q;
    CatalogSpec(rows);
  }

  // ---- load_checksums ----------------------------------------------------

  /** md5_file() of a catalog path, kept only when it is truthy and longer than 31 characters. */
  function Digest(fs: FileSystem, p: string): Option<string>
  {
    match Md5(fs, p)
    case Some(h) => if !Falsy(h) && |h| > 31 then Some(h) else None
    case None => None
  }

  /** `$checksums[$md5][] = $path`, creating the bucket when the digest is new. */
  function AddPath(idx: Index, d: string, p: string): Index
  {
    var bucket := match Get(idx, d) case Some(b) => b case None => [];
    Put(idx, d, bucket + [p])
  }

  /** The first loop of load_checksums: every catalog path with a digest, in catalog order. */
  function RawIndex(a: Attachments, fs: FileSystem): Index
  {
    if a == [] then []
    else
      var idx := RawIndex(a[..|a| - 1], fs);
      var p := a[|a| - 1].1;
      match Digest(fs, p)
      case Some(d) => AddPath(idx, d, p)
      case None => idx
  }

  /** The second loop: `$checksums[$k] = array_values(array_unique($v))` for every bucket. */
  function UniqueBuckets(idx: Index): (r: Index)
    ensures |r| == |idx|
    ensures forall i :: 0 <= i < |idx| ==> r[i] == (idx[i].0, Unique(idx[i].1))
  {
    seq(|idx|, i requires 0 <= i < |idx| => (idx[i].0, Unique(idx[i].1)))
  }

  /** The digest index load_checksums builds from a catalog. */
  function ChecksumIndex(a: Attachments, fs: FileSystem): Index
  {
    UniqueBuckets(RawIndex(a, fs))
  }

  /** p is listed under digest d. */
  predicate InBucket(idx: Index, d: string, p: string)
  {
    exists i :: 0 <= i < |idx| && idx[i].0 == d && p in idx[i].1
  }

  predicate NonEmptyBuckets(idx: Index)
  {
    forall i :: 0 <= i < |idx| ==> |idx[i].1| >= 1
  }

  lemma AddPathSpec(idx: Index, d: string, p: string)
    requires DistinctKeys(idx) && NonEmptyBuckets(idx)
    ensures DistinctKeys(AddPath(idx, d, p)) && NonEmptyBuckets(AddPath(idx, d, p))
    ensures forall d', p' :: InBucket(AddPath(idx, d, p), d', p') <==> InBucket(idx, d', p') || (d' == d && p' == p)
  {
    if d in Keys(idx) {
      var i := AddPathAt(idx, d, p);
      BucketGrown(idx, i, d, p);
    } else {
      AddPathNew(idx, d, p);
      BucketAdded(idx, d, p);
    }
  }

  /** An existing digest's bucket gets the path appended in place. */
  lemma AddPathAt(idx: Index, d: string, p: string) returns (i: nat)
    requires DistinctKeys(idx) && d in Keys(idx)
    ensures i < |idx| && idx[i].0 == d
    ensures AddPath(idx, d, p) == idx[i := (d, idx[i].1 + [p])]
  {
    i :| 0 <= i < |idx| && idx[i].0 == d;
    GetAt(idx, i);
    PutAt(idx, i, idx[i].1 + [p]);
  }

  /** A new digest gets a bucket of its own at the end. */
  lemma AddPathNew(idx: Index, d: string, p: string)
    requires d !in Keys(idx)
    ensures AddPath(idx, d, p) == idx + [(d, [p])]
  {
    assert Get(idx, d).None?;
    var none: seq<string> := [];
    assert none + [p] == [p];
  }

  lemma BucketGrown(idx: Index, i: nat, d: string, p: string)
    requires DistinctKeys(idx) && NonEmptyBuckets(idx) && i < |idx| && idx[i].0 == d
    ensures var r := idx[i := (d, idx[i].1 + [p])];
      && DistinctKeys(r) && NonEmptyBuckets(r)
      && forall d', p' :: InBucket(r, d', p') <==> InBucket(idx, d', p') || (d' == d && p' == p)
  {
    var r := idx[i := (d, idx[i].1 + [p])];
    assert p in r[i].1;
    forall d', p' | InBucket(idx, d', p') ensures InBucket(r, d', p') {
      var j :| 0 <= j < |idx| && idx[j].0 == d' && p' in idx[j].1;
      if j == i { assert p' in r[i].1; } else { assert r[j] == idx[j]; }
    }
    forall d', p' | InBucket(r, d', p') ensures InBucket(idx, d', p') || (d' == d && p' == p) {
      var j :| 0 <= j < |r| && r[j].0 == d' && p' in r[j].1;
      if j != i { assert r[j] == idx[j]; }
    }
  }

  lemma BucketAdded(idx: Index, d: string, p: string)
    requires DistinctKeys(idx) && NonEmptyBuckets(idx) && d !in Keys(idx)
    ensures var r := idx + [(d, [p])];
      && DistinctKeys(r) && NonEmptyBuckets(r)
      && forall d', p' :: InBucket(r, d', p') <==> InBucket(idx, d', p') || (d' == d && p' == p)
  {
    var r := idx + [(d, [p])];
    forall i, j | 0 <= i < j < |r| ensures r[i].0 != r[j].0 {
      if j == |idx| { assert idx[i].0 in Keys(idx); }
    }
    assert r[|idx|] == (d, [p]);
    forall d', p' | InBucket(r, d', p') ensures InBucket(idx, d', p') || (d' == d && p' == p) {
      var j :| 0 <= j < |r| && r[j].0 == d' && p' in r[j].1;
      if j < |idx| { assert r[j] == idx[j]; }
    }
    forall d', p' | InBucket(idx, d', p') ensures InBucket(r, d', p') {
      var j :| 0 <= j < |idx| && idx[j].0 == d' && p' in idx[j].1;
      assert r[j] == idx[j];
    }
  }

  lemma {:induction false} RawIndexSpec(a: Attachments, fs: FileSystem)
    ensures DistinctKeys(RawIndex(a, fs)) && NonEmptyBuckets(RawIndex(a, fs))
    ensures forall d, p :: InBucket(RawIndex(a, fs), d, p) <==> p in Values(a) && Digest(fs, p) == Some(d)
  {
    if a != [] {
      var a0 := a[..|a| - 1];
      var p := a[|a| - 1].1;
      RawIndexSpec(a0, fs);
      assert Values(a) == Values(a0) + [p];
      match Digest(fs, p)
      case Some(d) => AddPathSpec(RawIndex(a0, fs), d, p);
      case None =>
    }
  }

  /**
   * load_checksums: digests are distinct, no bucket is empty or lists a path
   * twice, and a path is listed under d exactly when it is a catalog path
   * whose digest is d; a path whose md5 fails or is too short is in no bucket.
   */
  lemma ChecksumIndexSpec(a: Attachments, fs: FileSystem)
    ensures DistinctKeys(ChecksumIndex(a, fs)) && NonEmptyBuckets(ChecksumIndex(a, fs))
    ensures forall i :: 0 <= i < |ChecksumIndex(a, fs)| ==> Distinct(ChecksumIndex(a, fs)[i].1)
    ensures forall d, p :: InBucket(ChecksumIndex(a, fs), d, p) <==> p in Values(a) && Digest(fs, p) == Some(d)
  {
    var raw := RawIndex(a, fs);
    var r := ChecksumIndex(a, fs);
    RawIndexSpec(a, fs);
    forall i | 0 <= i < |r| ensures |r[i].1| >= 1 {
      assert raw[i].1[0] in Unique(raw[i].1);
    }
    forall d, p ensures InBucket(r, d, p) <==> InBucket(raw, d, p) {
      if InBucket(r, d, p) {
        var i :| 0 <= i < |r| && r[i].0 == d && p in r[i].1;
        assert p in raw[i].1;
      }
      if InBucket(raw, d, p) {
        var i :| 0 <= i < |raw| && raw[i].0 == d && p in raw[i].1;
        assert p in r[i].1;
      }
    }
  }

  /** A path has one digest, so it is listed under one digest at most. */
  lemma BucketOfPath(a: Attachments, fs: FileSystem, d: string, d': string, p: string)
    requires InBucket(ChecksumIndex(a, fs), d, p) && InBucket(ChecksumIndex(a, fs), d', p)
    ensures d == d'
  {
    ChecksumIndexSpec(a, fs);
  }

  /** Both loops of load_checksums. */
  method BuildChecksums(a: Attachments, fs: FileSystem) returns (idx: Index)
    ensures idx == ChecksumIndex(a, fs)
  {
    idx := [];
    for i := 0 to |a|
      invariant idx == RawIndex(a[..i], fs)
    {
      assert a[..i + 1][..i] == a[..i];
      var md5 := Md5(fs, a[i].1);
      if md5.Some? && !Falsy(md5.value) && |md5.value| > 31 {
        idx := AddPath(idx, md5.value, a[i].1);
      }
    }
    assert a[..|a|] == a;
    ghost var raw := idx;
    for i := 0 to |idx|
      invariant |idx| == |raw|
      invariant forall j :: 0 <= j < i ==> idx[j] == (raw[j].0, Unique(raw[j].1))
      invariant forall j :: i <= j < |idx| ==> idx[j] == raw[j]
    {
      idx := idx[i := (idx[i].0, Unique(idx[i].1))];
    }
  }

  // ---- get_duplicate_files -----------------------------------------------

  /** The foreach of get_duplicate_files: `$out[$k] = $v` for every bucket with two paths or more. */
  function KeepShared(idx: Index): Index
  {
    if idx == [] then []
    else
      var r := KeepShared(idx[..|idx| - 1]);
      var e := idx[|idx| - 1];
      if |e.1| >= 2 then Put(r, e.0, e.1) else r
  }

  /** The result of get_duplicate_files: the shared buckets, ksort()ed by digest. */
  function Duplicates(idx: Index): Index
  {
    KSort(KeepShared(idx))
  }

  lemma {:induction false} KeepSharedSpec(idx: Index)
    requires DistinctKeys(idx)
    ensures DistinctKeys(KeepShared(idx))
    ensures forall e :: e in KeepShared(idx) <==> e in idx && |e.1| >= 2
  {
    if idx != [] {
      var idx0 := idx[..|idx| - 1];
      var e := idx[|idx| - 1];
      assert DistinctKeys(idx0);
      KeepSharedSpec(idx0);
      var r := KeepShared(idx0);
      assert idx == idx0 + [e];
      if |e.1| >= 2 {
        forall i | 0 <= i < |r| ensures r[i].0 != e.0 {
          assert r[i] in idx0;
          var j :| 0 <= j < |idx0| && idx0[j] == r[i];
          assert idx[j] == idx0[j];
        }
        assert e.0 !in Keys(r);
        assert Put(r, e.0, e.1) == r + [e];
        forall i, j | 0 <= i < j < |r| + 1 ensures (r + [e])[i].0 != (r + [e])[j].0 {
          if j == |r| { assert r[i].0 in Keys(r); }
        }
      }
    }
  }

  /**
   * get_duplicate_files: exactly the buckets with two paths or more, in
   * strictly ascending digest order.
   */
  lemma DuplicatesSpec(idx: Index)
    requires DistinctKeys(idx)
    ensures DistinctKeys(Duplicates(idx))
    ensures forall e :: e in Duplicates(idx) <==> e in idx && |e.1| >= 2
    ensures forall i, j :: 0 <= i < j < |Duplicates(idx)| ==> StrLt(Duplicates(idx)[i].0, Duplicates(idx)[j].0)
  {
    KeepSharedSpec(idx);
    var r := Duplicates(idx);
    PermDistinctKeys(KeepShared(idx), r);
    forall e ensures e in r <==> e in KeepShared(idx) {
      assert e in r <==> e in multiset(r);
    }
  }

  /** A group of get_duplicate_files is a bucket of the index. */
  lemma DuplicateBucket(a: Attachments, fs: FileSystem, k: int) returns (i: int)
    requires 0 <= k < |Duplicates(ChecksumIndex(a, fs))|
    ensures 0 <= i < |ChecksumIndex(a, fs)| && ChecksumIndex(a, fs)[i] == Duplicates(ChecksumIndex(a, fs))[k]
    ensures |Duplicates(ChecksumIndex(a, fs))[k].1| >= 2
  {
    var idx := ChecksumIndex(a, fs);
    ChecksumIndexSpec(a, fs);
    DuplicatesSpec(idx);
    assert Duplicates(idx)[k] in Duplicates(idx);
    i :| 0 <= i < |idx| && idx[i] == Duplicates(idx)[k];
  }

  lemma DuplicateGroupShape(a: Attachments, fs: FileSystem, k: int)
    requires 0 <= k < |Duplicates(ChecksumIndex(a, fs))|
    ensures |Duplicates(ChecksumIndex(a, fs))[k].1| >= 2 && Distinct(Duplicates(ChecksumIndex(a, fs))[k].1)
  {
    var i := DuplicateBucket(a, fs, k);
    ChecksumIndexSpec(a, fs);
  }

  lemma DuplicateGroupPath(a: Attachments, fs: FileSystem, k: int, x: string)
    requires 0 <= k < |Duplicates(ChecksumIndex(a, fs))| && x in Duplicates(ChecksumIndex(a, fs))[k].1
    ensures x in Values(a) && IsFile(fs, x)
  {
    var idx := ChecksumIndex(a, fs);
    var i := DuplicateBucket(a, fs, k);
    assert InBucket(idx, idx[i].0, x);
    ChecksumIndexSpec(a, fs);
    var d := idx[i].0;
    assert Digest(fs, x) == Some(d);
  }

  lemma DuplicateGroupsDisjoint(a: Attachments, fs: FileSystem, k: int, l: int, x: string)
    requires 0 <= k < |Duplicates(ChecksumIndex(a, fs))| && 0 <= l < |Duplicates(ChecksumIndex(a, fs))|
    requires x in Duplicates(ChecksumIndex(a, fs))[k].1 && x in Duplicates(ChecksumIndex(a, fs))[l].1
    ensures k == l
  {
    var idx := ChecksumIndex(a, fs);
    var g := Duplicates(idx);
    var i := DuplicateBucket(a, fs, k);
    var j := DuplicateBucket(a, fs, l);
    assert InBucket(idx, idx[i].0, x) && InBucket(idx, idx[j].0, x);
    BucketOfPath(a, fs, g[k].0, g[l].0, x);
    ChecksumIndexSpec(a, fs);
    DuplicatesSpec(idx);
    assert Keys(g)[k] == Keys(g)[l];
  }

  /** Every group has two distinct paths or more. */
  ghost predicate SharedGroups(g: Index)
  {
    forall k :: 0 <= k < |g| ==> |g[k].1| >= 2 && Distinct(g[k].1)
  }

  /** Every path of a group is a catalog path that is a regular file. */
  ghost predicate FileGroups(g: Index, a: Attachments, fs: FileSystem)
  {
    forall k, x :: 0 <= k < |g| && x in g[k].1 ==> x in Values(a) && IsFile(fs, x)
  }

  /** No path is in two groups. */
  ghost predicate Disjoint(g: Index)
  {
    forall k, l, x :: 0 <= k < |g| && 0 <= l < |g| && x in g[k].1 && x in g[l].1 ==> k == l
  }

  /**
   * The groups get_duplicate_files hands to deduplication: two distinct
   * paths or more each, every path a catalog path that is a regular file,
   * and no path in two groups.
   */
  lemma DuplicateGroups(a: Attachments, fs: FileSystem)
    ensures SharedGroups(Duplicates(ChecksumIndex(a, fs)))
    ensures FileGroups(Duplicates(ChecksumIndex(a, fs)), a, fs)
    ensures Disjoint(Duplicates(ChecksumIndex(a, fs)))
  {
    DuplicateShared(a, fs);
    DuplicateFiles(a, fs);
    DuplicateDisjoint(a, fs);
  }

  lemma DuplicateShared(a: Attachments, fs: FileSystem)
    ensures SharedGroups(Duplicates(ChecksumIndex(a, fs)))
  {
    var g := Duplicates(ChecksumIndex(a, fs));
    forall k | 0 <= k < |g| ensures |g[k].1| >= 2 && Distinct(g[k].1) {
      DuplicateGroupShape(a, fs, k);
    }
  }

  lemma DuplicateFiles(a: Attachments, fs: FileSystem)
    ensures FileGroups(Duplicates(ChecksumIndex(a, fs)), a, fs)
  {
    var g := Duplicates(ChecksumIndex(a, fs));
    forall k, x | 0 <= k < |g| && x in g[k].1 ensures x in Values(a) && IsFile(fs, x) {
      DuplicateGroupPath(a, fs, k, x);
    }
  }

  lemma DuplicateDisjoint(a: Attachments, fs: FileSystem)
    ensures Disjoint(Duplicates(ChecksumIndex(a, fs)))
  {
    var g := Duplicates(ChecksumIndex(a, fs));
    forall k, l, x | 0 <= k < |g| && 0 <= l < |g| && x in g[k].1 && x in g[l].1 ensures k == l {
      DuplicateGroupsDisjoint(a, fs, k, l, x);
    }
  }

  /** The foreach and ksort of get_duplicate_files. */
  method FilterDuplicates(idx: Index) returns (out: Index)
    ensures out == Duplicates(idx)
  {
    out := [];
    if |idx| == 0 {
      return;
    }
    for i := 0 to |idx|
      invariant out == KeepShared(idx[..i])
    {
      assert idx[..i + 1][..i] == idx[..i];
      if |idx[i].1| >= 2 {
        out := Put(out, idx[i].0, idx[i].1);
      }
    }
    assert idx[..|idx|] == idx;
    out := KSort(out);
  }

  // ---- the drain -----------------------------------------------------------

  /**
   * `while (false !== ($id = array_search($path, $m, true))) { $ids[] = $id; unset($m[$id]); }`:
   * the ids holding path, in array order, and the array without them.
   */
  method Drain(m: Attachments, path: string) returns (ids: seq<int>, rest: Attachments)
    requires DistinctKeys(m)
    ensures ids == KeysWithValue(m, path)
    ensures rest == WithoutValues(m, {path})
    ensures DistinctKeys(rest)
  {
    ids := [];
    rest := m;
    while true
      invariant DistinctKeys(rest)
      invariant ids + KeysWithValue(rest, path) == KeysWithValue(m, path)
      invariant WithoutValues(rest, {path}) == WithoutValues(m, {path})
      decreases |rest|
    {
      var found := Search(rest, path);
      if found.None? {
        DrainDone(rest, path);
        return;
      }
      DrainStep(rest, path, found.value);
      assert (ids + [found.value]) + KeysWithValue(Unset(rest, found.value), path)
          == ids + KeysWithValue(rest, path);
      ids := ids + [found.value];
      rest := Unset(rest, found.value);
    }
  }

  lemma DrainStep(m: Attachments, path: string, k: int)
    requires DistinctKeys(m) && Search(m, path) == Some(k)
    ensures KeysWithValue(m, path) == [k] + KeysWithValue(Unset(m, k), path)
    ensures WithoutValues(Unset(m, k), {path}) == WithoutValues(m, {path})
    ensures DistinctKeys(Unset(m, k)) && |Unset(m, k)| < |m|
  {
    var nothing: set<string> := {};
    assert nothing + {path} == {path};
    SearchUnsetStep(m, path, nothing, k);
    SearchFindsKey(m, path);
    assert k in Keys(m) by {
      var i :| 0 <= i < |m| && m[i] == (k, path);
      assert Keys(m)[i] == k;
    }
  }

  lemma DrainDone(m: Attachments, path: string)
    requires Search(m, path).None?
    ensures KeysWithValue(m, path) == []
    ensures WithoutValues(m, {path}) == m
  {
    var nothing: set<string> := {};
    assert nothing + {path} == {path};
    SearchNoneStep(m, path, nothing);
    WithoutNothing(m);
  }

  // ---- array_count_values and arsort -----------------------------------------

  /**
   * array_count_values(): each path with the number of ids holding it, in order of first appearance.
   * The keys stay the path strings; PHP stores a path such as "0" or "42" under an integer key
   * (PhpArray.IntKey), and that is modelled where the key is searched for again (Grouping.GroupIds).
   */
  function CountValues(m: Attachments): (r: seq<(string, nat)>)
    ensures DistinctKeys(r)
    ensures forall p :: p in Keys(r) <==> p in Values(m)
    ensures forall i :: 0 <= i < |r| ==> r[i].1 == Count(m, r[i].0)
  {
    if m == [] then []
    else
      var m0 := m[..|m| - 1];
      var x := m[|m| - 1];
      var r0 := CountValues(m0);
      var n := match Get(r0, x.1) case Some(c) => c + 1 case None => 1;
      CountStepKeys(m, m0, x, r0, n);
      CountStepCounts(m, m0, x, r0, n);
      Put(r0, x.1, n)
  }

  lemma CountStepKeys(m: Attachments, m0: Attachments, x: (int, string), r0: seq<(string, nat)>, n: nat)
    requires m != [] && m0 == m[..|m| - 1] && x == m[|m| - 1]
    requires DistinctKeys(r0)
    requires forall p :: p in Keys(r0) <==> p in Values(m0)
    ensures DistinctKeys(Put(r0, x.1, n))
    ensures forall p :: p in Keys(Put(r0, x.1, n)) <==> p in Values(m)
  {
    var r := Put(r0, x.1, n);
    assert m == m0 + [x];
    assert Values(m0 + [x]) == Values(m0) + [x.1];
    if x.1 in Keys(r0) {
      var i :| 0 <= i < |r0| && r0[i].0 == x.1;
      PutAt(r0, i, n);
      assert forall j :: 0 <= j < |r| ==> r[j].0 == r0[j].0;
      assert Keys(r) == Keys(r0);
    } else {
      assert r == r0 + [(x.1, n)];
      assert Keys(r) == Keys(r0) + [x.1];
      forall i, j | 0 <= i < j < |r| ensures r[i].0 != r[j].0 {
        if j == |r0| { assert r0[i].0 in Keys(r0); }
      }
    }
  }

  lemma CountStepCounts(m: Attachments, m0: Attachments, x: (int, string), r0: seq<(string, nat)>, n: nat)
    requires m != [] && m0 == m[..|m| - 1] && x == m[|m| - 1]
    requires DistinctKeys(r0)
    requires forall p :: p in Keys(r0) <==> p in Values(m0)
    requires forall i :: 0 <= i < |r0| ==> r0[i].1 == Count(m0, r0[i].0)
    requires n == match Get(r0, x.1) case Some(c) => c + 1 case None => 1
    ensures forall i :: 0 <= i < |Put(r0, x.1, n)| ==> Put(r0, x.1, n)[i].1 == Count(m, Put(r0, x.1, n)[i].0)
  {
    var r := Put(r0, x.1, n);
    assert m == m0 + [x];
    if x.1 in Keys(r0) {
      var i :| 0 <= i < |r0| && r0[i].0 == x.1;
      GetAt(r0, i);
      PutAt(r0, i, n);
      CountReplaced(m0, x, r0, i, n);
    } else {
      CountNew(m0, x.1);
      assert r == r0 + [(x.1, 1)];
      forall j | 0 <= j < |r| ensures r[j].1 == Count(m0 + [x], r[j].0) {
        CountAppend(m0, x, r[j].0);
      }
    }
  }

  lemma CountReplaced(m0: Attachments, x: (int, string), r0: seq<(string, nat)>, i: nat, n: nat)
    requires i < |r0| && r0[i].0 == x.1 && n == r0[i].1 + 1
    requires forall j :: 0 <= j < |r0| ==> r0[j].1 == Count(m0, r0[j].0)
    requires DistinctKeys(r0)
    ensures var r := r0[i := (x.1, n)];
      forall j :: 0 <= j < |r| ==> r[j].1 == Count(m0 + [x], r[j].0)
  {
    var r := r0[i := (x.1, n)];
    forall j | 0 <= j < |r| ensures r[j].1 == Count(m0 + [x], r[j].0) {
      CountAppend(m0, x, r[j].0);
      if j != i { assert r[j] == r0[j] && r0[j].0 != r0[i].0; }
    }
  }

  lemma CountAppend(m0: Attachments, x: (int, string), p: string)
    ensures Count(m0 + [x], p) == Count(m0, p) + (if p == x.1 then 1 else 0)
  {
    KeysWithValueAppend(m0, x, p);
  }

  lemma {:induction false} CountNew(m0: Attachments, p: string)
    requires p !in Values(m0)
    ensures Count(m0, p) == 0
  {
    if m0 != [] {
      assert Values(m0) == [m0[0].1] + Values(m0[1..]);
      CountNew(m0[1..], p);
    }
  }

  predicate CountGe(a: (string, nat), b: (string, nat))
  {
    a.1 >= b.1
  }

  lemma CountGePreorder()
    ensures TotalPreorder(CountGe)
  {
  }

  /** arsort(): by count, largest first; equal counts keep their order. */
  function ArSort(c: seq<(string, nat)>): (r: seq<(string, nat)>)
    ensures multiset(r) == multiset(c) && |r| == |c|
    ensures forall i, j :: 0 <= i < j < |r| ==> r[i].1 >= r[j].1
  {
    CountGePreorder();
    SortBySorted(c, CountGe);
    SortBy(c, CountGe)
  }
}
