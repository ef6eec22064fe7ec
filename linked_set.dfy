/**
 * `java.util.LinkedHashSet<String>` as the list of its elements in insertion
 * order: `add` appends an element that is not yet present and leaves the set
 * alone otherwise.
 */
module LinkedSets {

  predicate Distinct(xs: seq<string>)
  {
    forall i, j :: 0 <= i < j < |xs| ==> xs[i] != xs[j]
  }

  /** `set.add(x)`. */
  function Add(xs: seq<string>, x: string): (r: seq<string>)
    ensures Distinct(xs) ==> Distinct(r)
    ensures forall y :: y in r <==> y in xs || y == x
    ensures xs <= r && |r| <= |xs| + 1
  {
    if x in xs then xs else xs + [x]
  }

  /** The set built by adding the elements of `xs` one after the other. */
  function Dedup(xs: seq<string>): (r: seq<string>)
    ensures Distinct(r)
    ensures forall y :: y in r <==> y in xs
    ensures |r| <= |xs|
  {
    if xs == [] then [] else Add(Dedup(xs[..|xs| - 1]), xs[|xs| - 1])
  }

  /** Adding one more element extends the set built so far. */
  lemma DedupStep(xs: seq<string>, i: int)
    requires 0 <= i < |xs|
    ensures Dedup(xs[..i + 1]) == Add(Dedup(xs[..i]), xs[i])
  {
    assert xs[..i + 1][..i] == xs[..i];
  }

  /** Adding one element to the list adds it to the set. */
  lemma DedupSnoc(xs: seq<string>, y: string)
    ensures Dedup(xs + [y]) == Add(Dedup(xs), y)
  {
    assert (xs + [y])[..|xs|] == xs;
  }

  /** The set built from a prefix is a prefix of the set built from the whole. */
  lemma {:induction false} DedupPrefix(xs: seq<string>, ys: seq<string>)
    requires xs <= ys
    ensures Dedup(xs) <= Dedup(ys)
    decreases |ys|
  {
    if |xs| < |ys| {
      var init := ys[..|ys| - 1];
      assert xs <= init;
      DedupPrefix(xs, init);
    } else {
      assert xs == ys;
    }
  }

  /** Appending elements that are already present changes nothing. */
  lemma {:induction false} DedupPresent(xs: seq<string>, more: seq<string>)
    requires forall y :: y in more ==> y in xs
    ensures Dedup(xs + more) == Dedup(xs)
    decreases |more|
  {
    if more != [] {
      var init := more[..|more| - 1];
      assert (xs + more)[..|xs + more| - 1] == xs + init;
      DedupPresent(xs, init);
    } else {
      assert xs + more == xs;
    }
  }

  /** The elements of `s` other than `x`, in order. */
  function Drop(s: seq<string>, x: string): (r: seq<string>)
    ensures forall y :: y in r <==> y in s && y != x
    ensures |r| <= |s|
  {
    if s == [] then [] else Drop(s[..|s| - 1], x) + (if s[|s| - 1] == x then [] else [s[|s| - 1]])
  }

  lemma {:induction false} DropDistinct(s: seq<string>, x: string)
    requires Distinct(s)
    ensures Distinct(Drop(s, x))
    decreases |s|
  {
    if s != [] {
      var init := s[..|s| - 1];
      assert Distinct(init);
      DropDistinct(init, x);
      var d := Drop(init, x);
      if s[|s| - 1] != x {
        assert s[|s| - 1] !in init;
        assert Drop(s, x) == d + [s[|s| - 1]];
      } else {
        assert Drop(s, x) == d + [];
        assert d + [] == d;
      }
    }
  }

  /** Taking out an element of a duplicate-free list makes it one shorter. */
  lemma {:induction false} DropSize(s: seq<string>, x: string)
    requires Distinct(s)
    ensures |Drop(s, x)| == |s| - (if x in s then 1 else 0)
    decreases |s|
  {
    if s != [] {
      var init := s[..|s| - 1];
      assert Distinct(init);
      DropSize(init, x);
      assert s == init + [s[|s| - 1]];
      if s[|s| - 1] == x {
        assert x !in init;
      }
    }
  }

  lemma {:induction false} DropAppend(a: seq<string>, b: seq<string>, x: string)
    ensures Drop(a + b, x) == Drop(a, x) + Drop(b, x)
    decreases |b|
  {
    if b == [] {
      assert a + b == a;
    } else {
      var init := b[..|b| - 1];
      assert (a + b)[..|a + b| - 1] == a + init;
      DropAppend(a, init, x);
    }
  }

  /** Taking `x` out commutes with adding another element, and undoes adding `x`. */
  lemma DropAdd(d: seq<string>, y: string, x: string)
    ensures Drop(Add(d, y), x) == if y == x then Drop(d, x) else Add(Drop(d, x), y)
  {
    if y !in d {
      var e := d + [y];
      assert e[..|e| - 1] == d;
    }
  }

  lemma DropLast(xs: seq<string>, x: string)
    requires xs != [] && xs[|xs| - 1] == x
    ensures Drop(xs, x) == Drop(xs[..|xs| - 1], x)
  {
    var di := Drop(xs[..|xs| - 1], x);
    assert Drop(xs, x) == di + [];
    assert di + [] == di;
  }

  /** Building the set without `x` is the same as building it and then taking `x` out. */
  lemma {:induction false} DedupDrop(xs: seq<string>, x: string)
    ensures Dedup(Drop(xs, x)) == Drop(Dedup(xs), x)
    decreases |xs|
  {
    if xs != [] {
      var init, last := xs[..|xs| - 1], xs[|xs| - 1];
      var d := Dedup(init);
      assert Dedup(xs) == Add(d, last);
      if last != x {
        var dropped := Drop(init, x) + [last];
        calc {
          Dedup(Drop(xs, x));
          { assert Drop(xs, x) == dropped; }
          Dedup(dropped);
          { assert dropped[..|dropped| - 1] == Drop(init, x); }
          Add(Dedup(Drop(init, x)), last);
          { DedupDrop(init, x); }
          Add(Drop(d, x), last);
          { DropAdd(d, last, x); }
          Drop(Add(d, last), x);
        }
      } else {
        calc {
          Dedup(Drop(xs, x));
          { DropLast(xs, x); }
          Dedup(Drop(init, x));
          { DedupDrop(init, x); }
          Drop(d, x);
          { DropAdd(d, last, x); }
          Drop(Add(d, last), x);
        }
      }
    }
  }

  /** The first `n` elements, or all of them when `n` is negative or too large. */
  function Take(xs: seq<string>, n: int): (r: seq<string>)
    ensures r <= xs
    ensures 0 <= n ==> |r| <= n
    ensures 0 <= n <= |xs| ==> |r| == n
    ensures (n < 0 || |xs| <= n) ==> r == xs
  {
    if 0 <= n < |xs| then xs[..n] else xs
  }

  /** Taking `x` out of a list whose first `n` elements avoid it does not change those elements. */
  lemma {:induction false} TakeDrop(xs: seq<string>, x: string, n: int)
    requires x !in Take(xs, n)
    ensures Take(Drop(xs, x), n) == Take(xs, n)
    decreases |xs|
  {
    if 0 <= n < |xs| {
      var init := xs[..|xs| - 1];
      assert Take(init, n) == Take(xs, n) by {
        assert init[..n] == xs[..n];
      }
      TakeDrop(init, x, n);
      var di := Drop(init, x);
      assert |Take(di, n)| == n by {
        assert |Take(init, n)| == n;
      }
      assert Drop(xs, x) == di + (if xs[|xs| - 1] == x then [] else [xs[|xs| - 1]]);
      assert (di + (if xs[|xs| - 1] == x then [] else [xs[|xs| - 1]]))[..n] == di[..n];
    } else {
      DropAbsent(xs, x);
    }
  }

  lemma {:induction false} DropAbsent(xs: seq<string>, x: string)
    requires x !in xs
    ensures Drop(xs, x) == xs
    decreases |xs|
  {
    if xs != [] {
      DropAbsent(xs[..|xs| - 1], x);
      assert xs == xs[..|xs| - 1] + [xs[|xs| - 1]];
    }
  }

  /** A prefix of length `n` is what `Take` keeps. */
  lemma TakePrefix(d: seq<string>, xs: seq<string>, n: int)
    requires d <= xs && |d| == n
    ensures Take(xs, n) == d
  {
  }

  /** The first element added is the first element of the set. */
  lemma {:induction false} DedupFirst(xs: seq<string>)
    requires xs != []
    ensures Dedup(xs) != [] && Dedup(xs)[0] == xs[0]
  {
    DedupPrefix(xs[..1], xs);
    DedupStep(xs, 0);
    assert xs[..0] == [];
  }

  /** A list holding nothing but `x` is empty or holds `x`. */
  lemma OnlyOne(s: seq<string>, x: string)
    requires forall i :: 0 <= i < |s| ==> s[i] == x
    ensures s == [] || x in s
  {
    if s != [] {
      assert s[0] == x;
    }
  }

  /** A duplicate-free list has as many distinct elements as entries. */
  lemma {:induction false} DistinctCard(xs: seq<string>)
    requires Distinct(xs)
    ensures |set x | x in xs| == |xs|
    decreases |xs|
  {
    if xs != [] {
      var init := xs[..|xs| - 1];
      assert Distinct(init);
      DistinctCard(init);
      assert (set x | x in xs) == (set x | x in init) + {xs[|xs| - 1]} by {
        assert xs == init + [xs[|xs| - 1]];
      }
    }
  }

  /** A duplicate-free list inside another duplicate-free list is no longer than it. */
  lemma SubsetShorter(a: seq<string>, b: seq<string>)
    requires Distinct(a) && Distinct(b)
    requires forall x :: x in a ==> x in b
    ensures |a| <= |b|
  {
    DistinctCard(a);
    DistinctCard(b);
    var sa, sb := set x | x in a, set x | x in b;
    assert sb == sa + (sb - sa);
    assert |sb| == |sa| + |sb - sa|;
  }
}
