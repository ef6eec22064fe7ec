/**
 * `java.util.TreeMap<String, String>` as the list of its entries in ascending
 * key order (`String.compareTo`), which is the order its iterators and its
 * `tailMap`/`headMap` views walk.
 */
module TreeMaps {
  import opened Wrappers
  import opened JavaStrings

  datatype Entry = Entry(key: string, value: string)

  /** Keys strictly ascending: the shape of every `TreeMap`. */
  predicate Sorted(m: seq<Entry>)
  {
    forall i, j :: 0 <= i < j < |m| ==> Less(m[i].key, m[j].key)
  }

  /** `get(k)`: the value of the first entry with key `k`, if any. */
  function Get(m: seq<Entry>, k: string): (r: Option<string>)
    ensures r.Some? ==> Entry(k, r.value) in m
    ensures r.None? ==> forall i :: 0 <= i < |m| ==> m[i].key != k
  {
    if m == [] then None
    else if m[0].key == k then Some(m[0].value)
    else
      var r := Get(m[1..], k);
      assert forall i :: 1 <= i < |m| ==> m[i] == m[1..][i - 1];
      r
  }

  /** In a sorted list every entry is what `get` finds for its key. */
  lemma {:induction false} GetEntry(m: seq<Entry>, i: int)
    requires Sorted(m) && 0 <= i < |m|
    ensures Get(m, m[i].key) == Some(m[i].value)
  {
    if i > 0 {
      assert m[0].key != m[i].key by {
        LessIrreflexive(m[0].key);
      }
      assert m[1..][i - 1] == m[i];
      GetEntry(m[1..], i - 1);
    }
  }

  /** The values, in iteration order. */
  function Values(m: seq<Entry>): (vs: seq<string>)
    ensures |vs| == |m|
    ensures forall i :: 0 <= i < |m| ==> vs[i] == m[i].value
  {
    if m == [] then [] else [m[0].value] + Values(m[1..])
  }

  lemma {:induction false} ValuesAppend(a: seq<Entry>, b: seq<Entry>)
    ensures Values(a + b) == Values(a) + Values(b)
  {
    assert |Values(a + b)| == |Values(a) + Values(b)|;
  }

  /** Every key of `m` is greater than `k`. */
  predicate AllAbove(m: seq<Entry>, k: string)
  {
    forall i :: 0 <= i < |m| ==> Less(k, m[i].key)
  }

  /**
   * `put(k, v)`: overwrites the value of an existing key, otherwise inserts
   * the entry at its place in key order.
   */
  function Put(m: seq<Entry>, k: string, v: string): (r: seq<Entry>)
    requires Sorted(m)
    ensures Sorted(r)
    ensures forall e :: e in r ==> e == Entry(k, v) || e in m
    ensures forall k' :: Get(r, k') == if k' == k then Some(v) else Get(m, k')
  {
    if m == [] then [Entry(k, v)]
    else if m[0].key == k then
      var r := [Entry(k, v)] + m[1..];
      assert r[1..] == m[1..];
      r
    else if Less(k, m[0].key) then
      assert AllAbove(m, k) by {
        forall j | 0 <= j < |m|
          ensures Less(k, m[j].key)
        {
          if j > 0 {
            LessTransitive(k, m[0].key, m[j].key);
          }
        }
      }
      var r := [Entry(k, v)] + m;
      assert r[1..] == m;
      r
    else
      var rest := Put(m[1..], k, v);
      assert Less(m[0].key, k) by {
        LessTotal(m[0].key, k);
      }
      assert AllAbove(rest, m[0].key) by {
        forall j | 0 <= j < |rest|
          ensures Less(m[0].key, rest[j].key)
        {
          assert rest[j] in rest;
        }
      }
      var r := [m[0]] + rest;
      assert r[1..] == rest;
      r
  }

  /** The entries that `keep` accepts, in order. */
  function Filter(m: seq<Entry>, keep: Entry -> bool): (r: seq<Entry>)
    ensures |r| <= |m|
  {
    if m == [] then [] else (if keep(m[0]) then [m[0]] else []) + Filter(m[1..], keep)
  }

  lemma {:induction false} FilterMembers(m: seq<Entry>, keep: Entry -> bool)
    ensures forall e :: e in Filter(m, keep) <==> e in m && keep(e)
  {
    if m != [] {
      FilterMembers(m[1..], keep);
      assert m == [m[0]] + m[1..];
    }
  }

  lemma {:induction false} FilterAppend(a: seq<Entry>, b: seq<Entry>, keep: Entry -> bool)
    ensures Filter(a + b, keep) == Filter(a, keep) + Filter(b, keep)
  {
    if a == [] {
      assert a + b == b;
    } else {
      var f0 := if keep(a[0]) then [a[0]] else [];
      assert (a + b)[0] == a[0] && (a + b)[1..] == a[1..] + b;
      assert Filter(a + b, keep) == f0 + Filter(a[1..] + b, keep);
      FilterAppend(a[1..], b, keep);
      assert f0 + (Filter(a[1..], keep) + Filter(b, keep)) == (f0 + Filter(a[1..], keep)) + Filter(b, keep);
    }
  }

  /** Two filters give the same entries in either order. */
  lemma {:induction false} FilterCommute(m: seq<Entry>, p: Entry -> bool, q: Entry -> bool)
    ensures Filter(Filter(m, p), q) == Filter(Filter(m, q), p)
  {
    if m != [] {
      FilterCommute(m[1..], p, q);
      var fp, fq := if p(m[0]) then [m[0]] else [], if q(m[0]) then [m[0]] else [];
      FilterAppend(fp, Filter(m[1..], p), q);
      FilterAppend(fq, Filter(m[1..], q), p);
      assert Filter(fp, q) == Filter(fq, p) by {
        FilterOne(m[0], p, q);
      }
    }
  }

  lemma FilterOne(e: Entry, p: Entry -> bool, q: Entry -> bool)
    ensures Filter(if p(e) then [e] else [], q) == Filter(if q(e) then [e] else [], p)
  {
    assert [e][1..] == [];
  }

  /** `tailMap(needle, false)`: the entries whose key is strictly greater than `needle`. */
  function Above(m: seq<Entry>, needle: string): (r: seq<Entry>)
    ensures |r| <= |m|
  {
    Filter(m, (e: Entry) => Less(needle, e.key))
  }

  /** `headMap(needle, false)`: the entries whose key is strictly smaller than `needle`. */
  function Below(m: seq<Entry>, needle: string): (r: seq<Entry>)
    ensures |r| <= |m|
  {
    Filter(m, (e: Entry) => Less(e.key, needle))
  }

  /** `headMap(needle, true)`: the entries whose key is smaller than or equal to `needle`. */
  function AtMost(m: seq<Entry>, needle: string): (r: seq<Entry>)
    ensures |r| <= |m|
  {
    Filter(m, (e: Entry) => e.key == needle || Less(e.key, needle))
  }

  /** The entries not mapped to `node`, in order. */
  function Without(m: seq<Entry>, node: string): (r: seq<Entry>)
    ensures |r| <= |m|
  {
    Filter(m, (e: Entry) => e.value != node)
  }

  /** Dropping the entries of one node keeps the order and the other lookups. */
  lemma {:induction false} WithoutSorted(m: seq<Entry>, node: string)
    requires Sorted(m)
    ensures Sorted(Without(m, node))
    ensures forall k :: Get(Without(m, node), k) == if Get(m, k) == Some(node) then None else Get(m, k)
  {
    if m != [] {
      WithoutSorted(m[1..], node);
      var rest := Without(m[1..], node);
      assert AllAbove(rest, m[0].key) by {
        FilterMembers(m[1..], (e: Entry) => e.value != node);
        forall j | 0 <= j < |rest|
          ensures Less(m[0].key, rest[j].key)
        {
          assert rest[j] in rest;
          assert rest[j] in m[1..];
        }
      }
      FirstKeyOnce(m);
      var keep := (e: Entry) => e.value != node;
      assert Without(m, node) == Filter(m, keep);
      assert rest == Filter(m[1..], keep);
      if m[0].value != node {
        var r := [m[0]] + rest;
        assert Without(m, node) == r;
        assert r[1..] == rest;
      } else {
        assert Without(m, node) == rest;
      }
    }
  }

  /** In a sorted list the first key occurs nowhere else. */
  lemma FirstKeyOnce(m: seq<Entry>)
    requires Sorted(m) && m != []
    ensures Get(m[1..], m[0].key) == None
  {
    LessIrreflexive(m[0].key);
  }

  /** Two key-ordered entry lists with the same lookups are the same list. */
  lemma {:induction false} SortedUnique(a: seq<Entry>, b: seq<Entry>)
    requires Sorted(a) && Sorted(b)
    requires forall k :: Get(a, k) == Get(b, k)
    ensures a == b
  {
    if a != [] && b != [] {
      GetEntry(a, 0);
      GetEntry(b, 0);
      if a[0].key != b[0].key {
        var i :| 0 <= i < |b| && b[i] == Entry(a[0].key, a[0].value);
        var j :| 0 <= j < |a| && a[j] == Entry(b[0].key, b[0].value);
        assert i > 0 && j > 0;
        LessAsymmetric(b[0].key, a[0].key);
      } else {
        FirstKeyOnce(a);
        FirstKeyOnce(b);
        forall k
          ensures Get(a[1..], k) == Get(b[1..], k)
        {
          assert Get(a, k) == Get(b, k);
        }
        SortedUnique(a[1..], b[1..]);
        assert a == [a[0]] + a[1..] && b == [b[0]] + b[1..];
      }
    } else if a != [] {
      GetEntry(a, 0);
    } else if b != [] {
      GetEntry(b, 0);
    }
  }
}
