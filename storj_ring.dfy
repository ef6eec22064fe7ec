/**
 * The lookup half of the io.storj `HashRing`: `getNodes` walks the entries
 * strictly after the needle, then the entries strictly before it, collecting
 * distinct nodes until it has `size` of them; `getNode` takes the first.
 */
module StorjRing {
  import opened Wrappers
  import opened JavaStrings
  import opened TreeMaps
  import opened LinkedSets
  import opened HashRings

  /** The nodes in the order the two scans meet them: past the needle, then before it. */
  function Scan(r: HashRing, needle: string): seq<string>
  {
    Values(Above(r.ring, needle)) + Values(Below(r.ring, needle))
  }

  /** What `getNodes(key, size)` returns, in `LinkedHashSet` order. */
  function Selection(r: HashRing, key: string, size: int): seq<string>
  {
    if Size(r) == 0 || size == 0 then [] else Take(Dedup(Scan(r, r.hasher(key))), size)
  }

  /**
   * One of the two scans of `getNodes`: adds the nodes of `items` in order to
   * the set built from `seen`, returning as soon as it holds `size` of them.
   */
  method Collect(nodes: seq<string>, ghost seen: seq<string>, items: seq<string>, size: int) returns (r: seq<string>)
    requires nodes == Dedup(seen)
    requires size < 0 || |nodes| < size
    ensures r == Take(Dedup(seen + items), size)
  {
    r := nodes;
    assert seen + items[..0] == seen;
    for i := 0 to |items|
      invariant r == Dedup(seen + items[..i])
      invariant size < 0 || |r| < size
    {
      DedupExtend(seen, items, i);
      r := Add(r, items[i]);
      if |r| == size {
        DedupPrefix(seen + items[..i + 1], seen + items);
        TakePrefix(r, Dedup(seen + items), size);
        return r;
      }
    }
    assert items[..|items|] == items;
  }

  lemma DedupExtend(seen: seq<string>, items: seq<string>, i: int)
    requires 0 <= i < |items|
    ensures Dedup(seen + items[..i + 1]) == Add(Dedup(seen + items[..i]), items[i])
  {
    assert items[..i + 1] == items[..i] + [items[i]];
    assert seen + items[..i + 1] == (seen + items[..i]) + [items[i]];
    DedupSnoc(seen + items[..i], items[i]);
  }

  /** `getNodes(key, size)`. */
  method GetNodes(r: HashRing, key: string, size: int) returns (nodes: seq<string>)
    ensures nodes == Selection(r, key, size)
  {
    var l := Size(r);
    if l == 0 || size == 0 {
      return [];
    }
    var needle := r.hasher(key);
    var tail := Values(Above(r.ring, needle));
    var head := Values(Below(r.ring, needle));
    assert tail + head == Scan(r, needle);
    assert [] + tail == tail;
    nodes := Collect([], [], tail, size);
    if |nodes| == size {
      DedupPrefix(tail, tail + head);
      TakePrefix(nodes, Dedup(tail + head), size);
      return nodes;
    }
    nodes := Collect(nodes, tail, head, size);
  }

  /** `getNode(key)`: the first node of `getNodes(key, 1)`, or `""` when there is none. */
  method GetNode(r: HashRing, key: string) returns (node: string)
    ensures Size(r) > 0 && Scan(r, r.hasher(key)) != [] ==> node == Scan(r, r.hasher(key))[0]
    ensures Size(r) == 0 || Scan(r, r.hasher(key)) == [] ==> node == ""
  {
    var nodes := GetNodes(r, key, 1);
    if Size(r) > 0 && Scan(r, r.hasher(key)) != [] {
      DedupFirst(Scan(r, r.hasher(key)));
    }
    if |nodes| > 0 {
      return nodes[0];
    }
    return "";
  }

  /**
   * The result holds distinct nodes of the ring, never more than asked for;
   * when fewer are reachable it holds all of them, and a negative size asks
   * for all of them.
   */
  lemma SelectionShape(r: HashRing, key: string, size: int)
    requires Valid(r)
    ensures Distinct(Selection(r, key, size))
    ensures forall v :: v in Selection(r, key, size) ==> v in Nodes(r.weights)
    ensures size >= 0 ==> |Selection(r, key, size)| <= size
    ensures Size(r) > 0 && size != 0 ==>
      |Selection(r, key, size)| == (if 0 <= size < |Dedup(Scan(r, r.hasher(key)))| then size else |Dedup(Scan(r, r.hasher(key)))|)
    ensures Size(r) > 0 && size < 0 ==> Selection(r, key, size) == Dedup(Scan(r, r.hasher(key)))
  {
    var s := Selection(r, key, size);
    if Size(r) > 0 && size != 0 {
      var d := Dedup(Scan(r, r.hasher(key)));
      assert Distinct(s) by {
        assert s <= d;
      }
      RingValuesAreNodes(r);
      ScanMembers(r, r.hasher(key));
      forall v | v in s
        ensures v in Nodes(r.weights)
      {
        assert v in d;
      }
    }
  }

  /** Everything the scans meet is a value of the ring. */
  lemma ScanMembers(r: HashRing, needle: string)
    ensures forall v :: v in Scan(r, needle) ==> v in Values(r.ring)
  {
    var above, below := Above(r.ring, needle), Below(r.ring, needle);
    FilterMembers(r.ring, (e: Entry) => Less(needle, e.key));
    FilterMembers(r.ring, (e: Entry) => Less(e.key, needle));
    forall v | v in Scan(r, needle)
      ensures v in Values(r.ring)
    {
      if v in Values(above) {
        var i :| 0 <= i < |above| && above[i].value == v;
        assert above[i] in r.ring;
      } else {
        var i :| 0 <= i < |below| && below[i].value == v;
        assert below[i] in r.ring;
      }
    }
  }

  /** Asking for more nodes only adds nodes at the end: the first choices stay the same. */
  lemma SelectionGrows(r: HashRing, key: string, n: int, m: int)
    requires 0 <= n <= m
    ensures Selection(r, key, n) <= Selection(r, key, m)
  {
  }

  /** An entry whose hash equals the needle lies on neither side of it, so neither scan visits it. */
  lemma NeedleEntrySkipped(r: HashRing, key: string, e: Entry)
    requires e in r.ring && e.key == r.hasher(key)
    ensures e !in Above(r.ring, r.hasher(key)) && e !in Below(r.ring, r.hasher(key))
  {
    LessIrreflexive(e.key);
    FilterMembers(r.ring, (x: Entry) => Less(r.hasher(key), x.key));
    FilterMembers(r.ring, (x: Entry) => Less(x.key, r.hasher(key)));
  }

  /**
   * A ring whose only entry sits exactly at the needle has a node, yet
   * `getNodes` finds nothing and `getNode` answers `""`.
   */
  lemma LoneEntryAtNeedle(r: HashRing, key: string, v: string, size: int)
    requires Valid(r) && r.ring == [Entry(r.hasher(key), v)]
    ensures Size(r) >= 1
    ensures Selection(r, key, size) == []
  {
    GetEntry(r.ring, 0);
    NeedleEntrySkipped(r, key, r.ring[0]);
    assert Above(r.ring, r.hasher(key)) == [] && Below(r.ring, r.hasher(key)) == [] by {
      FilterMembers(r.ring, (x: Entry) => Less(r.hasher(key), x.key));
      FilterMembers(r.ring, (x: Entry) => Less(x.key, r.hasher(key)));
    }
    assert Scan(r, r.hasher(key)) == [];
  }

  /**
   * Over a separated hasher, rebuilding the ring without a node that a lookup
   * did not choose leaves that lookup's answer unchanged.
   */
  lemma RemoveUnchosen(r: HashRing, r': HashRing, x: string, key: string, size: int)
    requires Valid(r) && Valid(r') && r'.hasher == r.hasher
    requires r'.weights == RemoveWeight(r.weights, x)
    requires Separated(r.hasher, r.weights)
    requires x !in Selection(r, key, size)
    ensures Selection(r', key, size) == Selection(r, key, size)
  {
    var needle := r.hasher(key);
    RemoveWeightWell(r.weights, x);
    if Size(r) > 0 && size != 0 {
      var scan := Scan(r, needle);
      if Size(r') == 0 {
        RingValuesAreNodes(r);
        ScanMembers(r, needle);
        assert forall v :: v in Nodes(r.weights) ==> v == x by {
          assert |Nodes(r.weights)| == 1 && x in Nodes(r.weights);
        }
        var s := Selection(r, key, size);
        forall i | 0 <= i < |s|
          ensures s[i] == x
        {
          assert s[i] in Dedup(scan);
        }
        OnlyOne(s, x);
      } else {
        RingWithout(r, r', x);
        ViewsWithout(r.ring, needle, x);
        ValuesWithout(Above(r.ring, needle), x);
        ValuesWithout(Below(r.ring, needle), x);
        DropAppend(Values(Above(r.ring, needle)), Values(Below(r.ring, needle)), x);
        assert Scan(r', needle) == Drop(scan, x);
        DedupDrop(scan, x);
        TakeDrop(Dedup(scan), x, size);
      }
    }
  }

  /**
   * `withNode("aaa")`, `withNode("bbb")`, `withNode("ccc")` under the identity
   * hasher: every node has one replica, hashing to its label `node-0`.
   */
  function ThreeNodes(): HashRing
  {
    HashRing((s: string) => s, [Weight("aaa", 1), Weight("bbb", 1), Weight("ccc", 1)],
             [Entry("aaa-0", "aaa"), Entry("bbb-0", "bbb"), Entry("ccc-0", "ccc")])
  }

  lemma ThreeNodesValid()
    ensures Valid(ThreeNodes())
  {
    var r := ThreeNodes();
    assert Less("aaa-0", "bbb-0") && Less("bbb-0", "ccc-0") && Less("aaa-0", "ccc-0");
    forall k
      ensures Get(r.ring, k) == Owner(r.hasher, r.weights, k)
    {
      ThreeOwners(k);
      assert r.ring[1..] == [Entry("bbb-0", "bbb"), Entry("ccc-0", "ccc")];
      assert r.ring[1..][1..] == [Entry("ccc-0", "ccc")];
      assert r.ring[1..][1..][1..] == [];
    }
  }

  /** Who owns each hash of the three-node ring. */
  lemma ThreeOwners(k: string)
    ensures Owner(ThreeNodes().hasher, ThreeNodes().weights, k) ==
      if k == "ccc-0" then Some("ccc") else if k == "bbb-0" then Some("bbb") else if k == "aaa-0" then Some("aaa") else None
  {
    var h, ws := ThreeNodes().hasher, ThreeNodes().weights;
    IdentityReplica("aaa", k);
    IdentityReplica("bbb", k);
    IdentityReplica("ccc", k);
    assert ws[..2] == [Weight("aaa", 1), Weight("bbb", 1)];
    assert ws[..2][..1] == [Weight("aaa", 1)];
    assert ws[..2][..1][..0] == [];
    assert Owner(h, ws[..2][..1], k) == if k == "aaa-0" then Some("aaa") else None;
    assert Owner(h, ws[..2], k) == if k == "bbb-0" then Some("bbb") else Owner(h, ws[..2][..1], k);
  }

  /** Under the identity hasher a node of weight 1 has its replica at `node-0` and nowhere else. */
  lemma IdentityReplica(node: string, k: string)
    ensures HasReplica((s: string) => s, node, 1, k) <==> k == node + "-0"
  {
    assert NatToString(0) == "0";
    if k == node + "-0" {
      assert ((s: string) => s)(Label(node, 0)) == k;
    }
  }

  lemma FilterThree(a: Entry, b: Entry, c: Entry, keep: Entry -> bool)
    ensures Filter([a, b, c], keep) ==
      (if keep(a) then [a] else []) + (if keep(b) then [b] else []) + (if keep(c) then [c] else [])
  {
    assert [a, b, c][1..] == [b, c] && [b, c][1..] == [c] && [c][1..] == [];
    assert Filter([c], keep) == (if keep(c) then [c] else []) + [];
    assert Filter([b, c], keep) == (if keep(b) then [b] else []) + Filter([c], keep);
    assert Filter([a, b, c], keep) == (if keep(a) then [a] else []) + Filter([b, c], keep);
  }

  lemma DedupThree(a: string, b: string, c: string)
    requires a != b && b != c && a != c
    ensures Dedup([a, b, c]) == [a, b, c]
  {
    assert [a, b, c][..2] == [a, b] && [a, b][..1] == [a] && [a][..0] == [];
    assert Dedup([a]) == Add([], a) == [a];
    assert Dedup([a, b]) == Add([a], b) == [a, b];
    assert Dedup([a, b, c]) == Add([a, b], c);
  }

  /** Under the identity hasher a needle between two labels starts at the next one. */
  lemma FromEndBetween(r: HashRing, key: string)
    requires r == ThreeNodes() && key == "bb1"
    ensures Selection(r, key, 2) == ["bbb", "ccc"]
  {
    assert Size(r) == 3 && r.hasher(key) == key;
    ScanBetween();
    DedupThree("bbb", "ccc", "aaa");
    TakePrefix(["bbb", "ccc"], ["bbb", "ccc", "aaa"], 2);
  }

  /** A needle past the last label starts over from the lowest. */
  lemma FromEndPastEnd(r: HashRing, key: string)
    requires r == ThreeNodes() && key == "ddd"
    ensures Selection(r, key, 2) == ["aaa", "bbb"]
  {
    assert Size(r) == 3 && r.hasher(key) == key;
    ScanPastEnd();
    DedupThree("aaa", "bbb", "ccc");
    TakePrefix(["aaa", "bbb"], ["aaa", "bbb", "ccc"], 2);
  }

  lemma ScanBetween()
    ensures Scan(ThreeNodes(), "bb1") == ["bbb", "ccc", "aaa"]
  {
    var r := ThreeNodes();
    assert Less("bb1", "bbb-0") && Less("bb1", "ccc-0") && Less("aaa-0", "bb1");
    assert !Less("bb1", "aaa-0") && !Less("bbb-0", "bb1") && !Less("ccc-0", "bb1");
    FilterThree(r.ring[0], r.ring[1], r.ring[2], (e: Entry) => Less("bb1", e.key));
    FilterThree(r.ring[0], r.ring[1], r.ring[2], (e: Entry) => Less(e.key, "bb1"));
    assert r.ring == [r.ring[0], r.ring[1], r.ring[2]];
  }

  lemma ScanPastEnd()
    ensures Scan(ThreeNodes(), "ddd") == ["aaa", "bbb", "ccc"]
  {
    var r := ThreeNodes();
    assert Less("aaa-0", "ddd") && Less("bbb-0", "ddd") && Less("ccc-0", "ddd");
    assert !Less("ddd", "aaa-0") && !Less("ddd", "bbb-0") && !Less("ddd", "ccc-0");
    FilterThree(r.ring[0], r.ring[1], r.ring[2], (e: Entry) => Less("ddd", e.key));
    FilterThree(r.ring[0], r.ring[1], r.ring[2], (e: Entry) => Less(e.key, "ddd"));
    assert r.ring == [r.ring[0], r.ring[1], r.ring[2]];
  }

  /**
   * A ring holding only `ccc` under the identity hasher answers `ccc` whether
   * the needle lies before or after its label, and however many nodes are
   * asked for.
   */
  lemma NotEnoughAssignee(r: HashRing, key: string, size: int)
    requires r == HashRing((s: string) => s, [Weight("ccc", 1)], [Entry("ccc-0", "ccc")])
    requires key == "ddd" || key == "bb1"
    requires size >= 1
    ensures Selection(r, key, size) == ["ccc"]
  {
    assert Size(r) == 1 && r.hasher(key) == key;
    assert r.ring[1..] == [];
    if key == "ddd" {
      assert Less("ccc-0", "ddd") && !Less("ddd", "ccc-0");
    } else {
      assert Less("bb1", "ccc-0") && !Less("ccc-0", "bb1");
    }
    assert Scan(r, key) == ["ccc"];
    assert Dedup(["ccc"]) == ["ccc"] by {
      assert ["ccc"][..0] == [];
    }
  }

  /**
   * When no entry sits exactly at the needle, over a separated hasher the two
   * scans between them meet every node of the ring.
   */
  lemma ScanReachesAll(r: HashRing, key: string)
    requires Valid(r) && Separated(r.hasher, r.weights)
    requires Get(r.ring, r.hasher(key)) == None
    ensures |Dedup(Scan(r, r.hasher(key)))| == Size(r)
  {
    var needle := r.hasher(key);
    var above, below := Above(r.ring, needle), Below(r.ring, needle);
    var d := Dedup(Scan(r, needle));
    FilterMembers(r.ring, (e: Entry) => Less(needle, e.key));
    FilterMembers(r.ring, (e: Entry) => Less(e.key, needle));
    forall n | n in Nodes(r.weights)
      ensures n in d
    {
      var p :| 0 <= p < |r.weights| && Nodes(r.weights)[p] == n;
      EveryNodeOwnsEntry(r, p);
      var e := Entry(r.hasher(Label(n, 0)), n);
      var i :| 0 <= i < |r.ring| && r.ring[i] == e;
      GetEntry(r.ring, i);
      LessTotal(needle, e.key);
      if Less(needle, e.key) {
        var j :| 0 <= j < |above| && above[j] == e;
        assert Values(above)[j] == n;
      } else {
        var j :| 0 <= j < |below| && below[j] == e;
        assert Values(below)[j] == n;
      }
    }
    RingValuesAreNodes(r);
    ScanMembers(r, needle);
    SubsetShorter(Nodes(r.weights), d);
    SubsetShorter(d, Nodes(r.weights));
  }

  /**
   * Over a separated hasher, rings holding the same nodes at weight 1 choose
   * the same nodes for every key, whatever order the nodes were added in.
   */
  lemma SameNodesSameChoice(a: HashRing, b: HashRing, key: string, size: int)
    requires Valid(a) && Valid(b) && a.hasher == b.hasher
    requires UnitWeights(a.weights) && UnitWeights(b.weights)
    requires Separated(a.hasher, a.weights) && Separated(b.hasher, b.weights)
    requires forall n :: n in Nodes(a.weights) <==> n in Nodes(b.weights)
    ensures Selection(a, key, size) == Selection(b, key, size)
  {
    SameNodesSameRing(a, b);
  }
}
