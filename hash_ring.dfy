/**
 * The construction half of `HashRing`, written the same way in both
 * generations: the weight map (`LinkedHashMap<String, Integer>`), `make()`,
 * `size()` and the copy-on-write `withNode`, `withWeightedNode` and
 * `withoutNode`. The hasher is a parameter; the MD5 hasher is not modelled.
 */
module HashRings {
  import opened Wrappers
  import opened JavaStrings
  import opened TreeMaps
  import opened LinkedSets

  /** One entry of the weight map: a node and its number of replicas. */
  datatype Weight = Weight(node: string, weight: int)

  /**
   * A ring value: its hasher, the weight map in insertion order, and the
   * `TreeMap` from replica hash to node that `make()` filled.
   */
  datatype HashRing = HashRing(hasher: string -> string, weights: seq<Weight>, ring: seq<Entry>)

  /** The keys of the weight map, in insertion order. */
  function Nodes(ws: seq<Weight>): (ns: seq<string>)
    ensures |ns| == |ws|
    ensures forall i :: 0 <= i < |ws| ==> ns[i] == ws[i].node
  {
    if ws == [] then [] else Nodes(ws[..|ws| - 1]) + [ws[|ws| - 1].node]
  }

  /** What every reachable weight map satisfies: distinct nodes, positive weights. */
  predicate WellWeighted(ws: seq<Weight>)
  {
    Distinct(Nodes(ws)) && forall i :: 0 <= i < |ws| ==> ws[i].weight >= 1
  }

  /** `weights.put(node, w)`: a present node keeps its place and takes the new weight, a new one goes last. */
  function PutWeight(ws: seq<Weight>, node: string, w: int): (r: seq<Weight>)
    ensures node in Nodes(ws) ==> |r| == |ws| && forall i :: 0 <= i < |ws| ==> r[i] == if ws[i].node == node then Weight(node, w) else ws[i]
    ensures node !in Nodes(ws) ==> r == ws + [Weight(node, w)]
  {
    if node in Nodes(ws) then seq(|ws|, i requires 0 <= i < |ws| => if ws[i].node == node then Weight(node, w) else ws[i])
    else ws + [Weight(node, w)]
  }

  /** Putting keeps the nodes in place, adds a new one at the end, and keeps the map well formed. */
  lemma PutWeightNodes(ws: seq<Weight>, node: string, w: int)
    ensures node in Nodes(ws) ==> Nodes(PutWeight(ws, node, w)) == Nodes(ws)
    ensures node !in Nodes(ws) ==> Nodes(PutWeight(ws, node, w)) == Nodes(ws) + [node]
    ensures |PutWeight(ws, node, w)| == |ws| + (if node in Nodes(ws) then 0 else 1)
    ensures WellWeighted(ws) && w >= 1 ==> WellWeighted(PutWeight(ws, node, w))
  {
    if node in Nodes(ws) {
      PutPresent(ws, node, w);
    } else {
      PutAbsent(ws, node, w);
    }
  }

  lemma PutPresent(ws: seq<Weight>, node: string, w: int)
    requires node in Nodes(ws)
    ensures Nodes(PutWeight(ws, node, w)) == Nodes(ws)
    ensures WellWeighted(ws) && w >= 1 ==> WellWeighted(PutWeight(ws, node, w))
  {
    var r := PutWeight(ws, node, w);
    assert Nodes(r) == Nodes(ws);
  }

  lemma PutAbsent(ws: seq<Weight>, node: string, w: int)
    requires node !in Nodes(ws)
    ensures Nodes(PutWeight(ws, node, w)) == Nodes(ws) + [node]
    ensures WellWeighted(ws) && w >= 1 ==> WellWeighted(PutWeight(ws, node, w))
  {
    var r := PutWeight(ws, node, w);
    assert r[..|r| - 1] == ws;
    assert Nodes(r) == Nodes(ws) + [node];
  }

  /** `weights.remove(node)`. */
  function RemoveWeight(ws: seq<Weight>, node: string): (r: seq<Weight>)
    ensures forall e :: e in r <==> e in ws && e.node != node
  {
    if ws == [] then []
    else RemoveWeight(ws[..|ws| - 1], node) + (if ws[|ws| - 1].node == node then [] else [ws[|ws| - 1]])
  }

  /** Removing keeps the other nodes in order. */
  lemma {:induction false} RemoveWeightNodes(ws: seq<Weight>, node: string)
    ensures Nodes(RemoveWeight(ws, node)) == Drop(Nodes(ws), node)
    decreases |ws|
  {
    if ws != [] {
      var init, last := ws[..|ws| - 1], ws[|ws| - 1];
      var rest := RemoveWeight(init, node);
      RemoveWeightNodes(init, node);
      assert Nodes(ws) == Nodes(init) + [last.node];
      if last.node == node {
        assert RemoveWeight(ws, node) == rest + [];
        assert rest + [] == rest;
        assert Drop(Nodes(ws), node) == Drop(Nodes(init), node) + [];
      } else {
        var r := rest + [last];
        assert RemoveWeight(ws, node) == r;
        assert Nodes(r) == Nodes(rest) + [last.node] by {
          assert r[..|r| - 1] == rest;
        }
        assert Drop(Nodes(ws), node) == Drop(Nodes(init), node) + [last.node];
      }
    }
  }

  /**
   * Removing keeps the map well formed; a node that is there makes the map one
   * smaller, any other node changes nothing.
   */
  lemma RemoveWeightWell(ws: seq<Weight>, node: string)
    requires WellWeighted(ws)
    ensures WellWeighted(RemoveWeight(ws, node))
    ensures |RemoveWeight(ws, node)| == |ws| - (if node in Nodes(ws) then 1 else 0)
  {
    var r := RemoveWeight(ws, node);
    RemoveWeightNodes(ws, node);
    DropDistinct(Nodes(ws), node);
    DropSize(Nodes(ws), node);
    forall i | 0 <= i < |r|
      ensures r[i].weight >= 1
    {
      assert r[i] in ws;
    }
  }

  /** `node + "-" + i`: the label of a node's `i`-th replica. */
  function Label(node: string, i: nat): string
  {
    node + "-" + NatToString(i)
  }

  /** Some replica `i < w` of `node` hashes to `k`. */
  predicate HasReplica(h: string -> string, node: string, w: int, k: string)
  {
    exists i: nat :: i < w && h(Label(node, i)) == k
  }

  /**
   * The node `make()` leaves at hash `k`: the puts run in weight-map order,
   * so the last node with a replica hashing to `k` overwrites the others.
   */
  function Owner(h: string -> string, ws: seq<Weight>, k: string): Option<string>
  {
    if ws == [] then None
    else if HasReplica(h, ws[|ws| - 1].node, ws[|ws| - 1].weight, k) then Some(ws[|ws| - 1].node)
    else Owner(h, ws[..|ws| - 1], k)
  }

  /** A ring value as `make()` leaves it, over a well-formed weight map. */
  ghost predicate Valid(r: HashRing)
  {
    WellWeighted(r.weights) && Sorted(r.ring) &&
    forall k :: Get(r.ring, k) == Owner(r.hasher, r.weights, k)
  }

  /** `size()`: the number of nodes in the weight map, whatever the ring holds. */
  function Size(r: HashRing): nat
  {
    |r.weights|
  }

  /** `new HashRing(hasher)`: no nodes and an empty ring. */
  function Empty(h: string -> string): (r: HashRing)
    ensures Valid(r) && Size(r) == 0 && r.ring == []
  {
    HashRing(h, [], [])
  }

  /** `make()`: puts `hash(node + "-" + i) -> node` for every node in order and every `i < weight`. */
  method Make(h: string -> string, ws: seq<Weight>) returns (ring: seq<Entry>)
    ensures Sorted(ring)
    ensures forall k :: Get(ring, k) == Owner(h, ws, k)
  {
    ring := [];
    for p := 0 to |ws|
      invariant Sorted(ring)
      invariant forall k :: Get(ring, k) == Owner(h, ws[..p], k)
    {
      var node, weight := ws[p].node, ws[p].weight;
      ghost var before := ring;
      var i := 0;
      while i < weight
        invariant 0 <= i <= (if weight < 0 then 0 else weight)
        invariant Sorted(ring)
        invariant forall k :: Get(ring, k) == if HasReplica(h, node, i, k) then Some(node) else Get(before, k)
      {
        ring := Put(ring, h(Label(node, i)), node);
        ReplicaStep(h, node, i);
        i := i + 1;
      }
      forall k
        ensures HasReplica(h, node, i, k) == HasReplica(h, node, weight, k)
      {
        if weight < 0 {
          assert i == 0;
          assert !HasReplica(h, node, weight, k);
          assert !HasReplica(h, node, i, k);
        } else {
          assert i == weight;
        }
      }
      assert ws[..p + 1][..p] == ws[..p];
    }
    assert ws[..|ws|] == ws;
  }

  /** One more replica adds exactly its own hash. */
  lemma ReplicaStep(h: string -> string, node: string, i: nat)
    ensures forall k :: HasReplica(h, node, i + 1, k) <==> HasReplica(h, node, i, k) || h(Label(node, i)) == k
  {
    forall k
      ensures HasReplica(h, node, i + 1, k) <==> HasReplica(h, node, i, k) || h(Label(node, i)) == k
    {
      if HasReplica(h, node, i + 1, k) && h(Label(node, i)) != k {
        var j: nat :| j < i + 1 && h(Label(node, j)) == k;
        assert j < i && h(Label(node, j)) == k;
        assert HasReplica(h, node, i, k);
      }
      if HasReplica(h, node, i, k) {
        var j: nat :| j < i && h(Label(node, j)) == k;
        assert j < i + 1 && h(Label(node, j)) == k;
        assert HasReplica(h, node, i + 1, k);
      }
      if h(Label(node, i)) == k {
        assert i < i + 1 && h(Label(node, i)) == k;
        assert HasReplica(h, node, i + 1, k);
      }
    }
  }

  /** `withWeightedNode(node, weight)`: the receiver itself for `weight <= 0`, otherwise a fresh ring with the node's weight set. */
  method WithWeightedNode(r: HashRing, node: string, weight: int) returns (r': HashRing)
    requires Valid(r)
    ensures Valid(r')
    ensures weight <= 0 ==> r' == r
    ensures weight > 0 ==> r'.hasher == r.hasher && r'.weights == PutWeight(r.weights, node, weight)
  {
    if weight <= 0 {
      return r;
    }
    var weights := PutWeight(r.weights, node, weight);
    PutWeightNodes(r.weights, node, weight);
    var ring := Make(r.hasher, weights);
    r' := HashRing(r.hasher, weights, ring);
  }

  /** `withNode(node)`: the node with weight 1. */
  method WithNode(r: HashRing, node: string) returns (r': HashRing)
    requires Valid(r)
    ensures Valid(r') && r'.hasher == r.hasher
    ensures r'.weights == PutWeight(r.weights, node, 1)
    ensures Size(r') == Size(r) + (if node in Nodes(r.weights) then 0 else 1)
  {
    r' := WithWeightedNode(r, node, 1);
  }

  /** `withoutNode(node)`: a fresh ring over the weight map without the node. */
  method WithoutNode(r: HashRing, node: string) returns (r': HashRing)
    requires Valid(r)
    ensures Valid(r') && r'.hasher == r.hasher
    ensures r'.weights == RemoveWeight(r.weights, node)
    ensures Size(r') == Size(r) - (if node in Nodes(r.weights) then 1 else 0)
  {
    var weights := RemoveWeight(r.weights, node);
    RemoveWeightWell(r.weights, node);
    var ring := Make(r.hasher, weights);
    r' := HashRing(r.hasher, weights, ring);
  }

  /** Every node of the map has weight 1, as `withNode` and `fromElements` give it. */
  predicate UnitWeights(ws: seq<Weight>)
  {
    forall i :: 0 <= i < |ws| ==> ws[i].weight == 1
  }

  lemma PutUnit(ws: seq<Weight>, node: string)
    requires UnitWeights(ws)
    ensures UnitWeights(PutWeight(ws, node, 1))
  {
  }

  /** `fromElements(hasher, elements)`: every distinct element with weight 1, in first-seen order. */
  method FromElements(h: string -> string, elements: seq<string>) returns (r: HashRing)
    ensures Valid(r) && r.hasher == h
    ensures Nodes(r.weights) == Dedup(elements)
    ensures UnitWeights(r.weights)
  {
    var weights: seq<Weight> := [];
    for i := 0 to |elements|
      invariant WellWeighted(weights) && UnitWeights(weights)
      invariant Nodes(weights) == Dedup(elements[..i])
    {
      var next := PutWeight(weights, elements[i], 1);
      assert WellWeighted(next) && UnitWeights(next) && Nodes(next) == Dedup(elements[..i + 1]) by {
        DedupStep(elements, i);
        PutWeightNodes(weights, elements[i], 1);
        PutUnit(weights, elements[i]);
      }
      weights := next;
    }
    assert elements[..|elements|] == elements;
    var ring := Make(h, weights);
    r := HashRing(h, weights, ring);
  }

  /** The ring is a function of the hasher and the weight map. */
  lemma RingDetermined(a: HashRing, b: HashRing)
    requires Valid(a) && Valid(b) && a.hasher == b.hasher && a.weights == b.weights
    ensures a == b
  {
    SortedUnique(a.ring, b.ring);
  }

  /**
   * The hasher keeps the replicas of different nodes apart: no replica label
   * of one node hashes to the same value as a replica label of another.
   */
  ghost predicate Separated(h: string -> string, ws: seq<Weight>)
  {
    forall p, q, i: nat, j: nat ::
      0 <= p < |ws| && 0 <= q < |ws| && p != q && i < ws[p].weight && j < ws[q].weight ==>
        h(Label(ws[p].node, i)) != h(Label(ws[q].node, j))
  }

  /** The owner of a hash is a node of the map with a replica there; with no owner, no node has one. */
  lemma {:induction false} OwnerHasReplica(h: string -> string, ws: seq<Weight>, k: string)
    ensures Owner(h, ws, k).Some? ==>
      exists p :: 0 <= p < |ws| && ws[p].node == Owner(h, ws, k).value && HasReplica(h, ws[p].node, ws[p].weight, k)
    ensures Owner(h, ws, k).None? ==> forall p :: 0 <= p < |ws| ==> !HasReplica(h, ws[p].node, ws[p].weight, k)
    decreases |ws|
  {
    if ws != [] {
      var init := ws[..|ws| - 1];
      OwnerHasReplica(h, init, k);
      if !HasReplica(h, ws[|ws| - 1].node, ws[|ws| - 1].weight, k) {
        if Owner(h, init, k).Some? {
          var p :| 0 <= p < |init| && init[p].node == Owner(h, init, k).value && HasReplica(h, init[p].node, init[p].weight, k);
          assert ws[p] == init[p];
        } else {
          forall p | 0 <= p < |ws|
            ensures !HasReplica(h, ws[p].node, ws[p].weight, k)
          {
            if p < |init| {
              assert ws[p] == init[p];
            }
          }
        }
      }
    }
  }

  /** The hashes that `remove` frees up of their owner. */
  function Unowned(o: Option<string>, node: string): Option<string>
  {
    if o == Some(node) then None else o
  }

  /**
   * Over a separated hasher, rebuilding the ring without a node leaves every
   * other node's hashes where they were and frees exactly the removed node's.
   */
  lemma OwnerWithout(h: string -> string, ws: seq<Weight>, node: string, k: string)
    requires Separated(h, ws)
    ensures Owner(h, RemoveWeight(ws, node), k) == Unowned(Owner(h, ws, k), node)
  {
    OwnerWithoutPrefix(h, ws, node, k, |ws|);
    assert ws[..|ws|] == ws;
  }

  lemma {:induction false} OwnerWithoutPrefix(h: string -> string, ws: seq<Weight>, node: string, k: string, n: nat)
    requires Separated(h, ws) && n <= |ws|
    ensures Owner(h, RemoveWeight(ws[..n], node), k) == Unowned(Owner(h, ws[..n], k), node)
  {
    if n > 0 {
      var pre := ws[..n];
      var init, last := ws[..n - 1], ws[n - 1];
      assert pre[..n - 1] == init && pre[n - 1] == last;
      var rest := RemoveWeight(init, node);
      assert Owner(h, rest, k) == Unowned(Owner(h, init, k), node) by {
        OwnerWithoutPrefix(h, ws, node, k, n - 1);
      }
      if last.node != node {
        var r := rest + [last];
        assert RemoveWeight(pre, node) == r;
        assert r[..|r| - 1] == rest;
      } else {
        assert RemoveWeight(pre, node) == rest by {
          assert rest + [] == rest;
        }
        if HasReplica(h, last.node, last.weight, k) {
          assert Owner(h, init, k) == None by {
            NoEarlierOwner(h, ws, n - 1, k);
          }
        }
      }
    }
  }

  /** Over a separated hasher, a hash with a replica of node `n` has no owner among the nodes before it. */
  lemma NoEarlierOwner(h: string -> string, ws: seq<Weight>, n: nat, k: string)
    requires Separated(h, ws) && n < |ws|
    requires HasReplica(h, ws[n].node, ws[n].weight, k)
    ensures Owner(h, ws[..n], k) == None
  {
    OwnerHasReplica(h, ws[..n], k);
  }

  /**
   * Over a separated hasher, the ring rebuilt without a node is the old ring
   * with that node's entries taken out.
   */
  lemma RingWithout(r: HashRing, r': HashRing, node: string)
    requires Valid(r) && Valid(r') && r'.hasher == r.hasher
    requires r'.weights == RemoveWeight(r.weights, node)
    requires Separated(r.hasher, r.weights)
    ensures r'.ring == Without(r.ring, node)
  {
    WithoutSorted(r.ring, node);
    forall k
      ensures Get(Without(r.ring, node), k) == Get(r'.ring, k)
    {
      OwnerWithout(r.hasher, r.weights, node, k);
    }
    SortedUnique(Without(r.ring, node), r'.ring);
  }

  /** Over a separated hasher, every node of the map owns at least its first replica's entry. */
  lemma EveryNodeOwnsEntry(r: HashRing, p: int)
    requires Valid(r) && Separated(r.hasher, r.weights) && 0 <= p < |r.weights|
    ensures Entry(r.hasher(Label(r.weights[p].node, 0)), r.weights[p].node) in r.ring
  {
    var k := r.hasher(Label(r.weights[p].node, 0));
    assert HasReplica(r.hasher, r.weights[p].node, r.weights[p].weight, k);
    var o := Owner(r.hasher, r.weights, k);
    OwnerHasReplica(r.hasher, r.weights, k);
    var q :| 0 <= q < |r.weights| && r.weights[q].node == o.value && HasReplica(r.hasher, r.weights[q].node, r.weights[q].weight, k);
    if q != p {
      assert false;
    }
    assert Get(r.ring, k) == Some(r.weights[p].node);
  }

  /** Every node met on the ring is a node of the weight map. */
  lemma RingValuesAreNodes(r: HashRing)
    requires Valid(r)
    ensures forall v :: v in Values(r.ring) ==> v in Nodes(r.weights)
  {
    forall v | v in Values(r.ring)
      ensures v in Nodes(r.weights)
    {
      var i :| 0 <= i < |r.ring| && r.ring[i].value == v;
      GetEntry(r.ring, i);
      OwnerHasReplica(r.hasher, r.weights, r.ring[i].key);
    }
  }

  /** Taking a node's entries out commutes with reading the values. */
  lemma {:induction false} ValuesWithout(m: seq<Entry>, x: string)
    ensures Values(Without(m, x)) == Drop(Values(m), x)
  {
    if m != [] {
      var first := if m[0].value != x then [m[0]] else [];
      ValuesWithout(m[1..], x);
      ValuesAppend(first, Without(m[1..], x));
      assert Values(m) == [m[0].value] + Values(m[1..]);
      DropAppend([m[0].value], Values(m[1..]), x);
      assert Drop([m[0].value], x) == Drop([], x) + (if m[0].value == x then [] else [m[0].value]);
      assert Values(first) == if m[0].value != x then [m[0].value] else [];
    }
  }

  /** Taking a node's entries out commutes with the three views the scans walk. */
  lemma ViewsWithout(m: seq<Entry>, needle: string, x: string)
    ensures Above(Without(m, x), needle) == Without(Above(m, needle), x)
    ensures Below(Without(m, x), needle) == Without(Below(m, needle), x)
    ensures AtMost(Without(m, x), needle) == Without(AtMost(m, needle), x)
  {
    var w := (e: Entry) => e.value != x;
    FilterCommute(m, w, (e: Entry) => Less(needle, e.key));
    FilterCommute(m, w, (e: Entry) => Less(e.key, needle));
    FilterCommute(m, w, (e: Entry) => e.key == needle || Less(e.key, needle));
  }

  /** A hasher that gives different strings different hashes. */
  ghost predicate Collisionless(h: string -> string)
  {
    forall a, b :: h(a) == h(b) ==> a == b
  }

  /** A replica label names its node and its index: the digits after the last `-` hold no `-`. */
  lemma LabelInjective(p: string, i: nat, q: string, j: nat)
    requires Label(p, i) == Label(q, j)
    ensures p == q && i == j
  {
    var s, a, b := Label(p, i), NatToString(i), NatToString(j);
    NodeBeforeDigits(p, a, q, b);
    NodeBeforeDigits(q, b, p, a);
    assert p == s[..|p|] == q;
    assert a == s[|p| + 1..] == b;
    DigitsRoundTrip(i);
    DigitsRoundTrip(j);
  }

  lemma NodeBeforeDigits(p: string, a: string, q: string, b: string)
    requires p + "-" + a == q + "-" + b && AllDigits(b)
    ensures |p| <= |q|
  {
    var s := q + "-" + b;
    assert forall k :: |q| < k < |s| ==> IsDigit(s[k]) by {
      forall k | |q| < k < |s|
        ensures IsDigit(s[k])
      {
        assert s[k] == b[k - |q| - 1];
      }
    }
    assert s[|p|] == '-';
  }

  /** A hasher without collisions keeps the replicas of the distinct nodes of a weight map apart. */
  lemma CollisionlessSeparated(h: string -> string, ws: seq<Weight>)
    requires Collisionless(h) && WellWeighted(ws)
    ensures Separated(h, ws)
  {
    forall p, q, i: nat, j: nat |
      0 <= p < |ws| && 0 <= q < |ws| && p != q && i < ws[p].weight && j < ws[q].weight
      ensures h(Label(ws[p].node, i)) != h(Label(ws[q].node, j))
    {
      assert Nodes(ws)[p] != Nodes(ws)[q];
      if h(Label(ws[p].node, i)) == h(Label(ws[q].node, j)) {
        LabelInjective(ws[p].node, i, ws[q].node, j);
      }
    }
  }

  /**
   * With every node at weight 1 and a separated hasher, the node `make()`
   * leaves at a hash is the one node whose first replica hashes there,
   * wherever that node sits in the weight map.
   */
  lemma UnitOwner(h: string -> string, ws: seq<Weight>, k: string)
    requires WellWeighted(ws) && UnitWeights(ws) && Separated(h, ws)
    ensures Owner(h, ws, k).Some? ==> Owner(h, ws, k).value in Nodes(ws) && h(Label(Owner(h, ws, k).value, 0)) == k
    ensures forall p :: 0 <= p < |ws| && h(Label(ws[p].node, 0)) == k ==> Owner(h, ws, k) == Some(ws[p].node)
  {
    OwnerHasReplica(h, ws, k);
    var o := Owner(h, ws, k);
    if o.Some? {
      var q :| 0 <= q < |ws| && ws[q].node == o.value && HasReplica(h, ws[q].node, ws[q].weight, k);
      assert Nodes(ws)[q] == o.value;
      var i: nat :| i < ws[q].weight && h(Label(ws[q].node, i)) == k;
      assert ws[q].weight == 1 && i == 0;
    }
    forall p | 0 <= p < |ws| && h(Label(ws[p].node, 0)) == k
      ensures o == Some(ws[p].node)
    {
      UnitOwnerAt(h, ws, k, p);
    }
  }

  /** Over a separated hasher with unit weights, the node whose only replica hashes to `k` owns `k`. */
  lemma UnitOwnerAt(h: string -> string, ws: seq<Weight>, k: string, p: nat)
    requires UnitWeights(ws) && Separated(h, ws)
    requires p < |ws| && h(Label(ws[p].node, 0)) == k
    ensures Owner(h, ws, k) == Some(ws[p].node)
  {
    assert HasReplica(h, ws[p].node, ws[p].weight, k) by {
      assert ws[p].weight == 1;
    }
    OwnerHasReplica(h, ws, k);
    var q :| 0 <= q < |ws| && ws[q].node == Owner(h, ws, k).value && HasReplica(h, ws[q].node, ws[q].weight, k);
    var i: nat :| i < ws[q].weight && h(Label(ws[q].node, i)) == k;
    assert q == p by {
      assert ws[q].weight == 1 && i == 0;
    }
  }

  /**
   * Over a separated hasher, two rings whose weight maps hold the same
   * nodes, all at weight 1, are the same ring of the same size, whatever
   * order the nodes were added in.
   */
  lemma SameNodesSameRing(a: HashRing, b: HashRing)
    requires Valid(a) && Valid(b) && a.hasher == b.hasher
    requires UnitWeights(a.weights) && UnitWeights(b.weights)
    requires Separated(a.hasher, a.weights) && Separated(b.hasher, b.weights)
    requires forall n :: n in Nodes(a.weights) <==> n in Nodes(b.weights)
    ensures a.ring == b.ring && Size(a) == Size(b)
  {
    var h := a.hasher;
    forall k
      ensures Get(a.ring, k) == Get(b.ring, k)
    {
      UnitOwner(h, a.weights, k);
      UnitOwner(h, b.weights, k);
      var oa, ob := Owner(h, a.weights, k), Owner(h, b.weights, k);
      if oa.Some? {
        var p :| 0 <= p < |b.weights| && Nodes(b.weights)[p] == oa.value;
        assert ob == oa;
      }
      if ob.Some? {
        var p :| 0 <= p < |a.weights| && Nodes(a.weights)[p] == ob.value;
        assert oa == ob;
      }
    }
    SortedUnique(a.ring, b.ring);
    SubsetShorter(Nodes(a.weights), Nodes(b.weights));
    SubsetShorter(Nodes(b.weights), Nodes(a.weights));
  }
}
