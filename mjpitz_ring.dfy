/**
 * The lookup half of the com.mjpitz `HashRing`: `getNodes` refuses a size
 * larger than the ring, then walks the entries strictly after the needle and,
 * each time its iterator runs dry, starts again over the entries up to and
 * including the needle, until it has `size` distinct nodes.
 */
module MjpitzRing {
  import opened JavaStrings
  import opened TreeMaps
  import opened LinkedSets
  import opened HashRings

  /** The values of `tailMap(needle, false)`: what the first iterator yields. */
  function Tail(r: HashRing, needle: string): seq<string>
  {
    Values(Above(r.ring, needle))
  }

  /** The values of `headMap(needle, true)`: what every later iterator yields. */
  function Head(r: HashRing, needle: string): seq<string>
  {
    Values(AtMost(r.ring, needle))
  }

  /** One trip around the ring, starting just past the needle. */
  function Scan(r: HashRing, needle: string): seq<string>
  {
    Tail(r, needle) + Head(r, needle)
  }

  /**
   * What `getNodes(key, size)` returns as written: nothing when the ring is
   * empty, when `size` exceeds it, when `size` is not positive, or when no
   * entry lies past the needle; otherwise the first `size` distinct nodes of
   * the trip around the ring (all of them when there are fewer).
   */
  function Selection(r: HashRing, key: string, size: int): seq<string>
  {
    var needle := r.hasher(key);
    if Size(r) == 0 || size > Size(r) || size <= 0 || Tail(r, needle) == [] then []
    else Take(Dedup(Scan(r, needle)), size)
  }

  /**
   * The inputs on which the `while` loop of `getNodes` stops: when both
   * iterators yield something, the trip around the ring must meet `size`
   * distinct nodes, or the loop keeps restarting the head iterator forever.
   */
  predicate Terminates(r: HashRing, key: string, size: int)
  {
    var needle := r.hasher(key);
    Size(r) == 0 || size > Size(r) || Tail(r, needle) == [] || Head(r, needle) == [] ||
    size <= |Dedup(Scan(r, needle))|
  }

  /**
   * The loop of `getNodes`: adds the nodes of `first`, then of `again` over
   * and over, stopping once it holds `size` nodes or an iterator it has just
   * started is already empty.
   */
  method Wrap(first: seq<string>, again: seq<string>, size: int) returns (nodes: seq<string>)
    requires first == [] || again == [] || size <= |Dedup(first + again)|
    ensures nodes == if first == [] || size <= 0 then [] else Take(Dedup(first + again), size)
  {
    nodes := [];
    var cur, pos := first, 0;
    ghost var t := 0;
    assert (first + again)[..0] == [];
    while |nodes| < size && pos < |cur|
      invariant Scanning(first, again, size, nodes, cur, pos, t)
      decreases |first + again| - t
    {
      ScanStep(first, again, size, nodes, cur, pos, t);
      nodes := Add(nodes, cur[pos]);
      pos, t := pos + 1, t + 1;
      if pos == |cur| {
        cur, pos := again, 0;
      }
    }
    ScanDone(first, again, size, nodes, cur, pos, t);
  }

  /**
   * Where the loop of `Wrap` stands after `t` steps: at `t` in the first
   * pass, at `t - |first|` in the second, or restarted after both; and its
   * set holds the distinct nodes of the first `t` steps.
   */
  ghost predicate Scanning(first: seq<string>, again: seq<string>, size: int,
                           nodes: seq<string>, cur: seq<string>, pos: int, t: int)
  {
    At(first, again, size, |nodes|, cur, pos, t) &&
    nodes == Dedup((first + again)[..t]) &&
    |nodes| <= (if size < 0 then 0 else size)
  }

  /** The iterator part of `Scanning`, for a set of `count` nodes. */
  ghost predicate At(first: seq<string>, again: seq<string>, size: int, count: int, cur: seq<string>, pos: int, t: int)
  {
    var n := |first + again|;
    0 <= t <= n && (size <= 0 ==> t == 0) &&
    (first == [] ==> t == 0 && cur == []) &&
    (first != [] && t < |first| ==> cur == first && pos == t) &&
    (first != [] && |first| <= t < n ==> cur == again && pos == t - |first|) &&
    (first != [] && t == n ==> cur == again && pos == 0 && (again == [] || size <= count))
  }

  /** While the loop runs, the iterator's next node is the trip's node at `t`. */
  lemma AtNext(first: seq<string>, again: seq<string>, size: int, count: int, cur: seq<string>, pos: int, t: int)
    requires At(first, again, size, count, cur, pos, t) && count < size && 0 <= pos < |cur|
    ensures t < |first + again| && cur[pos] == (first + again)[t]
  {
    if t < |first| {
      assert (first + again)[t] == first[t];
    } else {
      assert (first + again)[t] == again[t - |first|];
    }
  }

  /** One turn of the loop of `Wrap`: add the current node, move on, and restart `again` when the iterator runs dry. */
  lemma ScanStep(first: seq<string>, again: seq<string>, size: int,
                 nodes: seq<string>, cur: seq<string>, pos: int, t: int)
    requires first == [] || again == [] || size <= |Dedup(first + again)|
    requires Scanning(first, again, size, nodes, cur, pos, t) && |nodes| < size && 0 <= pos < |cur|
    ensures t < |first + again| && cur[pos] == (first + again)[t]
    ensures Scanning(first, again, size, Add(nodes, cur[pos]),
                     if pos + 1 == |cur| then again else cur, if pos + 1 == |cur| then 0 else pos + 1, t + 1)
  {
    var s := first + again;
    AtNext(first, again, size, |nodes|, cur, pos, t);
    DedupStep(s, t);
    var next := Add(nodes, cur[pos]);
    if pos + 1 == |cur| {
      if t + 1 == |s| {
        assert s[..t + 1] == s;
      }
      assert At(first, again, size, |next|, again, 0, t + 1);
    } else {
      assert At(first, again, size, |next|, cur, pos + 1, t + 1);
    }
  }

  /** When the loop of `Wrap` stops, its set is the first `size` distinct nodes of the trip, or all of them. */
  lemma ScanDone(first: seq<string>, again: seq<string>, size: int,
                 nodes: seq<string>, cur: seq<string>, pos: int, t: int)
    requires Scanning(first, again, size, nodes, cur, pos, t) && !(|nodes| < size && pos < |cur|)
    ensures nodes == if first == [] || size <= 0 then [] else Take(Dedup(first + again), size)
  {
    var s := first + again;
    if first == [] || size <= 0 {
      assert s[..t] == [];
    } else if |nodes| == size {
      DedupPrefix(s[..t], s);
      TakePrefix(nodes, Dedup(s), size);
    } else {
      assert t == |s|;
      assert s[..t] == s;
    }
  }

  /** `getNodes(key, size)`, as written. */
  method GetNodes(r: HashRing, key: string, size: int) returns (nodes: seq<string>)
    requires Terminates(r, key, size)
    ensures nodes == Selection(r, key, size)
  {
    var l := Size(r);
    if l == 0 {
      return [];
    } else if size > l {
      return [];
    }
    var needle := r.hasher(key);
    nodes := Wrap(Tail(r, needle), Head(r, needle), size);
  }

  /**
   * `getNode(key)`: the first node past the needle, or `""` when the ring is
   * empty or nothing lies past the needle. A lookup of one node always stops.
   */
  method GetNode(r: HashRing, key: string) returns (node: string)
    ensures Size(r) > 0 && Tail(r, r.hasher(key)) != [] ==> node == Tail(r, r.hasher(key))[0]
    ensures Size(r) == 0 || Tail(r, r.hasher(key)) == [] ==> node == ""
  {
    var needle := r.hasher(key);
    if Size(r) > 0 && Tail(r, needle) != [] {
      DedupFirst(Scan(r, needle));
    }
    var nodes := GetNodes(r, key, 1);
    if |nodes| > 0 {
      return nodes[0];
    }
    return "";
  }

  /** Every entry of the ring lies past the needle or at or before it. */
  lemma EntryOnScan(r: HashRing, needle: string, e: Entry)
    requires e in r.ring
    ensures e.value in Scan(r, needle)
  {
    var above := (x: Entry) => Less(needle, x.key);
    var atMost := (x: Entry) => x.key == needle || Less(x.key, needle);
    FilterMembers(r.ring, above);
    FilterMembers(r.ring, atMost);
    if Less(needle, e.key) {
      ValueOf(Above(r.ring, needle), e);
    } else {
      if e.key != needle {
        LessTotal(e.key, needle);
      }
      ValueOf(AtMost(r.ring, needle), e);
    }
  }

  lemma ValueOf(m: seq<Entry>, e: Entry)
    requires e in m
    ensures e.value in Values(m)
  {
    var i :| 0 <= i < |m| && m[i] == e;
    assert Values(m)[i] == e.value;
  }

  /** Over a separated hasher, one trip around the ring meets every node of the map. */
  lemma ScanCoversNodes(r: HashRing, needle: string)
    requires Valid(r) && Separated(r.hasher, r.weights)
    ensures Size(r) <= |Dedup(Scan(r, needle))|
  {
    var ns := Nodes(r.weights);
    var d := Dedup(Scan(r, needle));
    forall v | v in ns
      ensures v in d
    {
      var p :| 0 <= p < |r.weights| && ns[p] == v;
      EveryNodeOwnsEntry(r, p);
      EntryOnScan(r, needle, Entry(r.hasher(Label(v, 0)), v));
    }
    SubsetShorter(ns, d);
  }

  /** Over a separated hasher `getNodes` always stops. */
  lemma SeparatedTerminates(r: HashRing, key: string, size: int)
    requires Valid(r) && Separated(r.hasher, r.weights)
    ensures Terminates(r, key, size)
  {
    ScanCoversNodes(r, r.hasher(key));
  }

  /**
   * The result holds distinct nodes of the map, never more than asked for,
   * and only the first nodes of the trip around the ring.
   */
  lemma SelectionShape(r: HashRing, key: string, size: int)
    requires Valid(r)
    ensures Distinct(Selection(r, key, size))
    ensures forall v :: v in Selection(r, key, size) ==> v in Nodes(r.weights)
    ensures |Selection(r, key, size)| <= (if size < 0 then 0 else size)
    ensures Selection(r, key, size) <= Dedup(Scan(r, r.hasher(key)))
  {
    var s := Selection(r, key, size);
    var d := Dedup(Scan(r, r.hasher(key)));
    if s != [] {
      assert Distinct(s) by {
        assert s <= d;
      }
      ScanNodes(r, r.hasher(key));
      forall v | v in s
        ensures v in Nodes(r.weights)
      {
        assert v in d;
      }
    }
  }

  /** Everything a trip around the ring meets is a node of the map. */
  lemma ScanNodes(r: HashRing, needle: string)
    requires Valid(r)
    ensures forall v :: v in Scan(r, needle) ==> v in Nodes(r.weights)
  {
    RingValuesAreNodes(r);
    var above := (x: Entry) => Less(needle, x.key);
    var atMost := (x: Entry) => x.key == needle || Less(x.key, needle);
    FilterMembers(r.ring, above);
    FilterMembers(r.ring, atMost);
    forall v | v in Scan(r, needle)
      ensures v in Values(r.ring)
    {
      if v in Tail(r, needle) {
        var i :| 0 <= i < |Above(r.ring, needle)| && Above(r.ring, needle)[i].value == v;
        ValueOf(r.ring, Above(r.ring, needle)[i]);
      } else {
        var i :| 0 <= i < |AtMost(r.ring, needle)| && AtMost(r.ring, needle)[i].value == v;
        ValueOf(r.ring, AtMost(r.ring, needle)[i]);
      }
    }
  }

  /**
   * When nothing lies past the needle the loop never starts, even though the
   * entries up to the needle hold nodes: with the identity hasher, node
   * `ccc` (its one replica hashes to `ccc-0`) and key `ddd`, the ring has a
   * node and `getNodes("ddd", 1)` is empty.
   */
  lemma TailEmptyCounterexample(r: HashRing)
    requires r == HashRing((s: string) => s, [Weight("ccc", 1)], [Entry("ccc-0", "ccc")])
    ensures Valid(r) && Separated(r.hasher, r.weights) && Size(r) == 1
    ensures Selection(r, "ddd", 1) == []
    ensures SelectionWrapped(r, "ddd", 1) == ["ccc"]
  {
    OneNodeValid(r);
    OneNodeViews(r);
    assert Dedup(["ccc"]) == ["ccc"] by {
      assert ["ccc"][..0] == [];
    }
    assert Scan(r, "ddd") == ["ccc"];
  }

  lemma OneNodeValid(r: HashRing)
    requires r == HashRing((s: string) => s, [Weight("ccc", 1)], [Entry("ccc-0", "ccc")])
    ensures Valid(r) && Separated(r.hasher, r.weights)
  {
    assert Label("ccc", 0) == "ccc-0" by {
      assert NatToString(0) == "0";
    }
    forall k
      ensures Get(r.ring, k) == Owner(r.hasher, r.weights, k)
    {
      if k == "ccc-0" {
        assert r.hasher(Label("ccc", 0)) == k;
      }
    }
  }

  lemma OneNodeViews(r: HashRing)
    requires r.ring == [Entry("ccc-0", "ccc")] && r.hasher("ddd") == "ddd"
    ensures Tail(r, "ddd") == [] && Head(r, "ddd") == ["ccc"]
  {
    assert !Less("ddd", "ccc-0") && Less("ccc-0", "ddd");
    assert r.ring[1..] == [];
  }

  /**
   * The evident intent: when nothing lies past the needle, start at the
   * lowest hash instead, so that the trip around the ring is the same
   * whichever side the needle falls on.
   */
  function SelectionWrapped(r: HashRing, key: string, size: int): seq<string>
  {
    if Size(r) == 0 || size > Size(r) || size <= 0 then []
    else Take(Dedup(Scan(r, r.hasher(key))), size)
  }

  /** The inputs on which the corrected lookup stops. */
  predicate TerminatesWrapped(r: HashRing, key: string, size: int)
  {
    var needle := r.hasher(key);
    Size(r) == 0 || size > Size(r) || Head(r, needle) == [] || size <= |Dedup(Scan(r, needle))|
  }

  /** `getNodes(key, size)` starting over the head when the tail is empty. */
  method GetNodesWrapped(r: HashRing, key: string, size: int) returns (nodes: seq<string>)
    requires TerminatesWrapped(r, key, size)
    ensures nodes == SelectionWrapped(r, key, size)
  {
    var l := Size(r);
    if l == 0 {
      return [];
    } else if size > l {
      return [];
    }
    var needle := r.hasher(key);
    var tail, head := Tail(r, needle), Head(r, needle);
    if tail == [] {
      assert Scan(r, needle) == head;
      DedupPresent(head, head);
      nodes := Wrap(head, head, size);
    } else {
      nodes := Wrap(tail, head, size);
    }
  }

  /** Over a separated hasher the corrected lookup stops and returns exactly as many nodes as asked for. */
  lemma WrappedSelectionFull(r: HashRing, key: string, size: int)
    requires Valid(r) && Separated(r.hasher, r.weights)
    ensures TerminatesWrapped(r, key, size)
    ensures 0 <= size <= Size(r) ==> |SelectionWrapped(r, key, size)| == size
    ensures Distinct(SelectionWrapped(r, key, size))
    ensures forall v :: v in SelectionWrapped(r, key, size) ==> v in Nodes(r.weights)
  {
    ScanCoversNodes(r, r.hasher(key));
    ScanNodes(r, r.hasher(key));
    var s := SelectionWrapped(r, key, size);
    var d := Dedup(Scan(r, r.hasher(key)));
    if s != [] {
      assert s <= d;
      forall v | v in s
        ensures v in Nodes(r.weights)
      {
        assert v in d;
      }
    }
  }

  /** Where the tail is not empty the corrected lookup agrees with the code as written. */
  lemma WrappedAgrees(r: HashRing, key: string, size: int)
    requires Tail(r, r.hasher(key)) != []
    ensures SelectionWrapped(r, key, size) == Selection(r, key, size)
    ensures Terminates(r, key, size) == TerminatesWrapped(r, key, size)
  {
  }
  /**
   * Over a separated hasher, rebuilding the ring without a node that the
   * corrected lookup did not choose leaves that lookup's answer unchanged.
   */
  lemma RemoveUnchosen(r: HashRing, r': HashRing, x: string, key: string, size: int)
    requires Valid(r) && Valid(r') && r'.hasher == r.hasher
    requires r'.weights == RemoveWeight(r.weights, x)
    requires Separated(r.hasher, r.weights)
    requires x !in SelectionWrapped(r, key, size)
    ensures SelectionWrapped(r', key, size) == SelectionWrapped(r, key, size)
  {
    var needle := r.hasher(key);
    RemoveWeightWell(r.weights, x);
    if Size(r) > 0 && 0 < size <= Size(r) {
      UnchosenLeavesRoom(r, x, key, size);
      ScanWithout(r, r', x, needle);
      var scan := Scan(r, needle);
      DedupDrop(scan, x);
      TakeDrop(Dedup(scan), x, size);
    }
  }

  /** A full answer that leaves out a node of the map asks for fewer nodes than the map holds. */
  lemma UnchosenLeavesRoom(r: HashRing, x: string, key: string, size: int)
    requires Valid(r) && Separated(r.hasher, r.weights)
    requires 0 < size <= Size(r) && x !in SelectionWrapped(r, key, size)
    ensures size <= |RemoveWeight(r.weights, x)|
  {
    RemoveWeightWell(r.weights, x);
    if x in Nodes(r.weights) {
      WrappedSelectionFull(r, key, size);
      var others := Drop(Nodes(r.weights), x);
      DropDistinct(Nodes(r.weights), x);
      DropSize(Nodes(r.weights), x);
      SubsetShorter(SelectionWrapped(r, key, size), others);
    }
  }

  /** Over a separated hasher, the trip around the ring rebuilt without a node skips just that node. */
  lemma ScanWithout(r: HashRing, r': HashRing, x: string, needle: string)
    requires Valid(r) && Valid(r') && r'.hasher == r.hasher
    requires r'.weights == RemoveWeight(r.weights, x)
    requires Separated(r.hasher, r.weights)
    ensures Scan(r', needle) == Drop(Scan(r, needle), x)
  {
    RingWithout(r, r', x);
    ViewsWithout(r.ring, needle, x);
    ValuesWithout(Above(r.ring, needle), x);
    ValuesWithout(AtMost(r.ring, needle), x);
    DropAppend(Tail(r, needle), Head(r, needle), x);
  }

  /**
   * Over a separated hasher, rings holding the same nodes at weight 1 answer
   * every lookup alike, as written and corrected, whatever order the nodes
   * were added in.
   */
  lemma SameNodesSameChoice(a: HashRing, b: HashRing, key: string, size: int)
    requires Valid(a) && Valid(b) && a.hasher == b.hasher
    requires UnitWeights(a.weights) && UnitWeights(b.weights)
    requires Separated(a.hasher, a.weights) && Separated(b.hasher, b.weights)
    requires forall n :: n in Nodes(a.weights) <==> n in Nodes(b.weights)
    ensures Selection(a, key, size) == Selection(b, key, size)
    ensures SelectionWrapped(a, key, size) == SelectionWrapped(b, key, size)
  {
    SameNodesSameRing(a, b);
  }
}
