/**
 * PHP's ordered arrays, as the plugin uses them: a sequence of (key, value)
 * entries with distinct keys, in insertion order.
 */
module PhpArray {
  import opened Options

  function Keys<K, V>(m: seq<(K, V)>): (r: seq<K>)
    ensures |r| == |m| && forall i :: 0 <= i < |m| ==> r[i] == m[i].0
  {
    seq(|m|, i requires 0 <= i < |m| => m[i].0)
  }

  function Values<K, V>(m: seq<(K, V)>): (r: seq<V>)
    ensures |r| == |m| && forall i :: 0 <= i < |m| ==> r[i] == m[i].1
  {
    seq(|m|, i requires 0 <= i < |m| => m[i].1)
  }

  predicate Distinct<T(==)>(s: seq<T>)
  {
    forall i, j :: 0 <= i < j < |s| ==> s[i] != s[j]
  }

  predicate DistinctKeys<K(==), V>(m: seq<(K, V)>)
  {
    forall i, j :: 0 <= i < j < |m| ==> m[i].0 != m[j].0
  }

  predicate IsDigit(c: char)
  {
    '0' <= c <= '9'
  }

  /** The value of a string of decimal digits. */
  function DecimalValue(s: string): nat
    requires forall i :: 0 <= i < |s| ==> IsDigit(s[i])
  {
    if s == [] then 0
    else
      assert IsDigit(s[|s| - 1]);
      DecimalValue(s[..|s| - 1]) * 10 + (s[|s| - 1] as int - '0' as int)
  }

  /** Decimal digits without a leading zero, or "0" itself. */
  predicate CanonicalDigits(s: string)
  {
    && |s| > 0
    && (forall i :: 0 <= i < |s| ==> IsDigit(s[i]))
    && (s[0] == '0' ==> |s| == 1)
  }

  /**
   * A string key PHP stores as an integer key: the canonical decimal form of
   * an integer that fits in 64 bits. "042", "-0", "+1" and " 1" stay strings.
   */
  predicate IntKey(s: string)
  {
    if |s| > 0 && s[0] == '-' then
      CanonicalDigits(s[1..]) && s[1..] != "0" && DecimalValue(s[1..]) <= 0x8000_0000_0000_0000
    else
      CanonicalDigits(s) && DecimalValue(s) <= 0x7FFF_FFFF_FFFF_FFFF
  }

  /** Which strings become integer keys: plain decimal integers, not paths. */
  lemma IntKeyShapes(s: string)
    ensures IntKey("0") && IntKey("42") && IntKey("-7")
    ensures !IntKey("042") && !IntKey("-0") && !IntKey("") && !IntKey("-")
    ensures ('/' in s || '.' in s) ==> !IntKey(s)
  {
    assert "42"[..1] == "4";
    if '/' in s || '.' in s {
      var i :| 0 <= i < |s| && (s[i] == '/' || s[i] == '.');
      if |s| > 0 && s[0] == '-' {
        if i > 0 {
          assert s[1..][i - 1] == s[i];
        }
      }
    }
  }

  /** $m[$k] ?? null */
  function Get<K(==), V>(m: seq<(K, V)>, k: K): (r: Option<V>)
    ensures r.Some? <==> k in Keys(m)
    ensures r.Some? ==> exists i :: 0 <= i < |m| && m[i] == (k, r.value)
  {
    if m == [] then None
    else if m[0].0 == k then Some(m[0].1)
    else
      var r := Get(m[1..], k);
      assert r.Some? ==> exists i :: 0 <= i < |m[1..]| && m[1..][i] == (k, r.value);
      r
  }

  /** $m[$k] = $v: an existing key keeps its place, a new key goes last. */
  function Put<K(==), V>(m: seq<(K, V)>, k: K, v: V): (r: seq<(K, V)>)
    ensures k !in Keys(m) ==> r == m + [(k, v)]
    ensures k in Keys(m) && DistinctKeys(m) ==>
      |r| == |m| && forall i :: 0 <= i < |m| ==> r[i] == (if m[i].0 == k then (k, v) else m[i])
  {
    if m == [] then [(k, v)]
    else if m[0].0 == k then [(k, v)] + m[1..]
    else
      assert Keys(m) == [m[0].0] + Keys(m[1..]);
      [m[0]] + Put(m[1..], k, v)
  }

  /** array_search($v, $m, true): the first key whose value is $v. */
  function Search<K, V(==)>(m: seq<(K, V)>, v: V): (r: Option<K>)
    ensures r.None? <==> v !in Values(m)
  {
    if m == [] then None
    else if m[0].1 == v then Some(m[0].0)
    else
      assert Values(m) == [m[0].1] + Values(m[1..]);
      Search(m[1..], v)
  }

  /** unset($m[$k]) */
  function Unset<K(==,!new), V(!new)>(m: seq<(K, V)>, k: K): (r: seq<(K, V)>)
    ensures |r| <= |m|
    ensures k in Keys(m) ==> |r| < |m|
    ensures forall e :: e in r <==> e in m && e.0 != k
  {
    if m == [] then []
    else if m[0].0 == k then Unset(m[1..], k)
    else
      assert Keys(m) == [m[0].0] + Keys(m[1..]);
      [m[0]] + Unset(m[1..], k)
  }

  /** The keys whose value is v, in array order. */
  function KeysWithValue<K(!new), V(==)>(m: seq<(K, V)>, v: V): (r: seq<K>)
    ensures forall k :: k in r <==> (k, v) in m
  {
    if m == [] then []
    else (if m[0].1 == v then [m[0].0] else []) + KeysWithValue(m[1..], v)
  }

  /** The entries whose value is not in vs, in array order. */
  function WithoutValues<K(!new), V(==,!new)>(m: seq<(K, V)>, vs: set<V>): (r: seq<(K, V)>)
    ensures forall e :: e in r <==> e in m && e.1 !in vs
  {
    if m == [] then []
    else (if m[0].1 in vs then [] else [m[0]]) + WithoutValues(m[1..], vs)
  }

  /**
   * One step of `while (false !== ($k = array_search($v, $m, true))) unset($m[$k]);`:
   * the key found is the first of KeysWithValue, and the rest are still to come.
   */
  lemma SearchUnsetStep<K(!new), V(!new)>(m: seq<(K, V)>, v: V, vs: set<V>, k: K)
    requires DistinctKeys(m) && Search(m, v) == Some(k)
    ensures KeysWithValue(m, v) == [k] + KeysWithValue(Unset(m, k), v)
    ensures WithoutValues(Unset(m, k), vs + {v}) == WithoutValues(m, vs + {v})
    ensures DistinctKeys(Unset(m, k))
  {
    SearchUnsetKeys(m, v, k);
    SearchUnsetRest(m, v, vs, k);
    UnsetKeeps(m, k);
  }

  lemma SearchUnsetKeys<K(!new), V(!new)>(m: seq<(K, V)>, v: V, k: K)
    requires DistinctKeys(m) && Search(m, v) == Some(k)
    ensures KeysWithValue(m, v) == [k] + KeysWithValue(Unset(m, k), v)
  {
    SearchOwnsKey(m, v, k);
    UnsetKeysWith(m, v, k);
  }

  lemma SearchUnsetRest<K(!new), V(!new)>(m: seq<(K, V)>, v: V, vs: set<V>, k: K)
    requires DistinctKeys(m) && Search(m, v) == Some(k)
    ensures WithoutValues(Unset(m, k), vs + {v}) == WithoutValues(m, vs + {v})
  {
    SearchOwnsKey(m, v, k);
    UnsetFiltered(m, k, vs + {v});
  }

  /** Every entry with key k has value v. */
  predicate OnlyWith<K(==,!new), V(==,!new)>(m: seq<(K, V)>, k: K, v: V)
  {
    forall e :: e in m && e.0 == k ==> e.1 == v
  }

  /** With distinct keys, the key array_search() finds belongs to no other value. */
  lemma SearchOwnsKey<K(!new), V(!new)>(m: seq<(K, V)>, v: V, k: K)
    requires DistinctKeys(m) && Search(m, v) == Some(k)
    ensures OnlyWith(m, k, v)
  {
    SearchFindsKey(m, v);
    var i :| 0 <= i < |m| && m[i] == (k, v);
    forall e | e in m && e.0 == k ensures e.1 == v {
      var j :| 0 <= j < |m| && m[j] == e;
      assert m[i].0 == m[j].0;
    }
  }

  lemma {:induction false} UnsetKeysWith<K(!new), V(!new)>(m: seq<(K, V)>, v: V, k: K)
    requires DistinctKeys(m) && Search(m, v) == Some(k) && OnlyWith(m, k, v)
    ensures KeysWithValue(m, v) == [k] + KeysWithValue(Unset(m, k), v)
  {
    if m[0].1 == v {
      UnsetHead(m, k);
    } else {
      assert m[0] in m;
      TailKeeps(m, k, v);
      UnsetKeysWith(m[1..], v, k);
      UnsetCons(m, k);
    }
  }

  lemma TailKeeps<K(!new), V(!new)>(m: seq<(K, V)>, k: K, v: V)
    requires m != [] && DistinctKeys(m) && OnlyWith(m, k, v)
    ensures DistinctKeys(m[1..]) && OnlyWith(m[1..], k, v)
  {
    forall e | e in m[1..] ensures e in m {
      var i :| 0 <= i < |m[1..]| && m[1..][i] == e;
      assert m[i + 1] == e;
    }
  }

  /** Unsetting the first key of an array with distinct keys drops the first entry. */
  lemma UnsetHead<K(!new), V(!new)>(m: seq<(K, V)>, k: K)
    requires DistinctKeys(m) && m != [] && m[0].0 == k
    ensures Unset(m, k) == m[1..]
  {
    assert k !in Keys(m[1..]);
    UnsetAbsent(m[1..], k);
  }

  /** Unsetting another key than the first keeps the first entry in front. */
  lemma UnsetCons<K(!new), V(!new)>(m: seq<(K, V)>, k: K)
    requires m != [] && m[0].0 != k
    ensures Unset(m, k) == [m[0]] + Unset(m[1..], k)
    ensures Unset(m, k)[0] == m[0] && Unset(m, k)[1..] == Unset(m[1..], k)
  {
    var u := Unset(m[1..], k);
    assert ([m[0]] + u)[1..] == u;
  }

  /** Unsetting a key whose entries are all filtered out anyway does not change the filtered array. */
  lemma {:induction false} UnsetFiltered<K(!new), V(!new)>(m: seq<(K, V)>, k: K, vs: set<V>)
    requires forall e :: e in m && e.0 == k ==> e.1 in vs
    ensures WithoutValues(Unset(m, k), vs) == WithoutValues(m, vs)
  {
    if m != [] {
      UnsetFiltered(m[1..], k, vs);
      if m[0].0 != k {
        var u := Unset(m[1..], k);
        assert Unset(m, k) == [m[0]] + u;
        assert ([m[0]] + u)[1..] == u;
      }
    }
  }

  /** With distinct keys, the value stored at an entry is what its key reads back. */
  lemma {:induction false} GetAt<K(!new), V(!new)>(m: seq<(K, V)>, i: nat)
    requires DistinctKeys(m) && i < |m|
    ensures Get(m, m[i].0) == Some(m[i].1)
  {
    if i > 0 {
      assert m[0].0 != m[i].0;
      assert DistinctKeys(m[1..]) && m[1..][i - 1] == m[i];
      GetAt(m[1..], i - 1);
    }
  }

  /** With distinct keys, writing an existing key replaces that entry in place. */
  lemma PutAt<K(!new), V(!new)>(m: seq<(K, V)>, i: nat, v: V)
    requires DistinctKeys(m) && i < |m|
    ensures Put(m, m[i].0, v) == m[i := (m[i].0, v)]
  {
    var k := m[i].0;
    assert k in Keys(m);
    var r := Put(m, k, v);
    forall j | 0 <= j < |m| ensures r[j] == m[i := (k, v)][j] {
      if j != i { assert m[j].0 != k; }
    }
  }

  lemma {:induction false} SearchFindsKey<K, V>(m: seq<(K, V)>, v: V)
    requires Search(m, v).Some?
    ensures (Search(m, v).value, v) in m
  {
    if m[0].1 != v {
      SearchFindsKey(m[1..], v);
    }
  }

  lemma {:induction false} UnsetAbsent<K(!new), V(!new)>(m: seq<(K, V)>, k: K)
    requires k !in Keys(m)
    ensures Unset(m, k) == m
  {
    if m != [] {
      assert Keys(m) == [m[0].0] + Keys(m[1..]);
      UnsetAbsent(m[1..], k);
    }
  }

  lemma DistinctKeysCons<K, V>(x: (K, V), t: seq<(K, V)>)
    requires DistinctKeys(t) && forall e :: e in t ==> e.0 != x.0
    ensures DistinctKeys([x] + t)
  {
    var r := [x] + t;
    forall i, j | 0 <= i < j < |r| ensures r[i].0 != r[j].0 {
      if i == 0 { assert r[j] == t[j - 1]; }
    }
  }

  lemma {:induction false} UnsetKeeps<K(!new), V(!new)>(m: seq<(K, V)>, k: K)
    requires DistinctKeys(m)
    ensures DistinctKeys(Unset(m, k))
  {
    if m != [] {
      UnsetKeeps(m[1..], k);
      if m[0].0 != k {
        forall e | e in Unset(m[1..], k) ensures e.0 != m[0].0 {
          var i :| 0 <= i < |m[1..]| && m[1..][i] == e;
          assert m[i + 1] == e;
        }
        DistinctKeysCons(m[0], Unset(m[1..], k));
      }
    }
  }

  /** When no key has value v, the search loop ends at once. */
  lemma {:induction false} SearchNoneStep<K(!new), V(!new)>(m: seq<(K, V)>, v: V, vs: set<V>)
    requires Search(m, v).None?
    ensures KeysWithValue(m, v) == []
    ensures WithoutValues(m, vs + {v}) == WithoutValues(m, vs)
  {
    if m != [] {
      SearchNoneStep(m[1..], v, vs);
    }
  }

  /** array_values(array_unique($s)): the first occurrence of each value, in order. */
  function Unique<T(==,!new)>(s: seq<T>): (r: seq<T>)
    ensures Distinct(r)
    ensures forall x :: x in r <==> x in s
    ensures Distinct(s) ==> r == s
  {
    if s == [] then []
    else
      var u := Unique(s[..|s| - 1]);
      var x := s[|s| - 1];
      assert s == s[..|s| - 1] + [x];
      if x in u then u else u + [x]
  }

  /**
   * $a + $b on two lists: the union keeps every entry of $a and adds only the
   * entries of $b whose index $a does not have.
   */
  function KeyUnion<T>(a: seq<T>, b: seq<T>): (r: seq<T>)
    ensures |r| == if |a| < |b| then |b| else |a|
    ensures r[..|a|] == a
    ensures forall i :: |a| <= i < |r| ==> r[i] == b[i]
  {
    if |b| <= |a| then a else a + b[|a|..]
  }

  /** The number of entries whose value is v. */
  function Count<K(!new), V(==)>(m: seq<(K, V)>, v: V): nat
  {
    |KeysWithValue(m, v)|
  }

  lemma {:induction false} WithoutNothing<K(!new), V(!new)>(m: seq<(K, V)>)
    ensures WithoutValues(m, {}) == m
  {
    if m != [] {
      WithoutNothing(m[1..]);
    }
  }

  /** Removing the values in S first does not change which keys hold a value outside S. */
  lemma {:induction false} WithoutValuesKeys<K(!new), V(!new)>(m: seq<(K, V)>, vs: set<V>, v: V)
    requires v !in vs
    ensures KeysWithValue(WithoutValues(m, vs), v) == KeysWithValue(m, v)
  {
    if m != [] {
      WithoutValuesKeys(m[1..], vs, v);
      var t := WithoutValues(m[1..], vs);
      if m[0].1 in vs {
        assert WithoutValues(m, vs) == t;
      } else {
        assert WithoutValues(m, vs) == [m[0]] + t;
        assert ([m[0]] + t)[1..] == t;
      }
    }
  }

  lemma {:induction false} WithoutValuesTwice<K(!new), V(!new)>(m: seq<(K, V)>, vs: set<V>, ws: set<V>)
    ensures WithoutValues(WithoutValues(m, vs), ws) == WithoutValues(m, vs + ws)
  {
    if m != [] {
      WithoutValuesTwice(m[1..], vs, ws);
      var t := WithoutValues(m[1..], vs);
      if m[0].1 in vs {
        assert WithoutValues(m, vs) == t;
      } else {
        assert WithoutValues(m, vs) == [m[0]] + t;
        assert ([m[0]] + t)[1..] == t;
      }
    }
  }

  lemma {:induction false} WithoutValuesDistinct<K(!new), V(!new)>(m: seq<(K, V)>, vs: set<V>)
    requires DistinctKeys(m)
    ensures DistinctKeys(WithoutValues(m, vs))
  {
    if m != [] {
      assert DistinctKeys(m[1..]);
      WithoutValuesDistinct(m[1..], vs);
      var t := WithoutValues(m[1..], vs);
      if m[0].1 !in vs {
        forall e | e in t ensures e.0 != m[0].0 {
          var i :| 0 <= i < |m[1..]| && m[1..][i] == e;
          assert m[i + 1] == e;
        }
        DistinctKeysCons(m[0], t);
      }
    }
  }

  /** With distinct keys no key is listed twice. */
  lemma {:induction false} KeysWithValueDistinct<K(!new), V(!new)>(m: seq<(K, V)>, v: V)
    requires DistinctKeys(m)
    ensures Distinct(KeysWithValue(m, v))
  {
    if m != [] {
      assert DistinctKeys(m[1..]);
      KeysWithValueDistinct(m[1..], v);
      var t := KeysWithValue(m[1..], v);
      if m[0].1 == v {
        forall k | k in t ensures k != m[0].0 {
          var i :| 0 <= i < |m[1..]| && m[1..][i] == (k, v);
          assert m[i + 1].0 == k;
        }
        var r := [m[0].0] + t;
        forall i, j | 0 <= i < j < |r| ensures r[i] != r[j] {
          if i == 0 { assert r[j] == t[j - 1]; }
        }
      }
    }
  }

  /** Entries added at the end are searched last. */
  lemma {:induction false} KeysWithValueAppend<K(!new), V(!new)>(m: seq<(K, V)>, e: (K, V), v: V)
    ensures KeysWithValue(m + [e], v) == KeysWithValue(m, v) + (if e.1 == v then [e.0] else [])
  {
    if m == [] {
      assert [] + [e] == [e];
    } else {
      assert (m + [e])[1..] == m[1..] + [e];
      KeysWithValueAppend(m[1..], e, v);
    }
  }

  /** A key occurs with one value only, so an entry occurs at most once. */
  lemma {:induction false} DistinctKeysOnce<K, V>(m: seq<(K, V)>, e: (K, V))
    requires DistinctKeys(m)
    ensures multiset(m)[e] <= 1
  {
    if m != [] {
      assert m == [m[0]] + m[1..];
      assert DistinctKeys(m[1..]);
      DistinctKeysOnce(m[1..], e);
      if m[0] == e {
        forall x | x in m[1..] ensures x.0 != e.0 {
          var i :| 0 <= i < |m[1..]| && m[1..][i] == x;
          assert m[i + 1] == x;
        }
      }
    }
  }

  lemma TwiceCounted<T>(s: seq<T>, i: nat, j: nat)
    requires i < j < |s| && s[i] == s[j]
    ensures multiset(s)[s[i]] >= 2
  {
    assert s == s[..j] + s[j..];
    assert s[i] in s[..j];
    assert s[j..][0] == s[j];
  }

  /** Reordering entries keeps the keys distinct. */
  lemma PermDistinctKeys<K, V>(s: seq<(K, V)>, t: seq<(K, V)>)
    requires DistinctKeys(s) && multiset(s) == multiset(t)
    ensures DistinctKeys(t)
  {
    forall i, j | 0 <= i < j < |t| ensures t[i].0 != t[j].0 {
      if t[i].0 == t[j].0 {
        assert t[i] in multiset(s) && t[j] in multiset(s);
        var a :| 0 <= a < |s| && s[a] == t[i];
        var b :| 0 <= b < |s| && s[b] == t[j];
        assert a == b;
        TwiceCounted(t, i, j);
        DistinctKeysOnce(s, t[i]);
        assert false;
      }
    }
  }
}
