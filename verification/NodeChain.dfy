/** Nodes of one level, linked by sibling pointers: where a search that starts at a node and
    follows its siblings ends. */
module NodeChain {
  import opened NodeTree

  /** The search of the first of some nodes: it goes on to the sibling when the split key of
      that is less than the key. */
  ghost function ChainRoute(ts: seq<Tree>, splits: seq<int>, q: int): Ptr
    requires |ts| == |splits| > 0
  {
    if |ts| > 1 && splits[1] < q then ChainRoute(ts[1..], splits[1..], q) else Route(ts[0], q)
  }

  /** The nodes as one tree, with the split keys as separators. */
  ghost function Whole(ts: seq<Tree>, splits: seq<int>): Tree
    requires |ts| == |splits| > 0
  {
    if |ts| == 1 then ts[0] else Node(0, splits[1], ts[0], Whole(ts[1..], splits[1..]))
  }

  ghost predicate Ascending(splits: seq<int>) {
    forall i: nat, j: nat :: 0 < i < j < |splits| ==> splits[i] < splits[j]
  }

  /** A key that is no split key is found as in the whole. */
  lemma {:induction false} ChainRoutes(ts: seq<Tree>, splits: seq<int>, q: int)
    requires |ts| == |splits| > 0 && Ascending(splits) && q !in splits[1..]
    ensures ChainRoute(ts, splits, q) == Route(Whole(ts, splits), q)
  {
    if |ts| > 1 {
      assert splits[1] in splits[1..];
      if splits[1] < q {
        forall s | s in splits[1..][1..] ensures s in splits[1..] { assert s in splits[1..]; }
        ChainRoutes(ts[1..], splits[1..], q);
      }
    }
  }

  /** A split key is looked for in the node before the one it starts, so it is found as in the
      whole if and only if the two nodes agree on it. */
  lemma {:induction false} SplitKeyRoutes(ts: seq<Tree>, splits: seq<int>, i: nat)
    requires |ts| == |splits| && 0 < i < |ts| && Ascending(splits)
    ensures ChainRoute(ts, splits, splits[i]) == Route(ts[i - 1], splits[i])
    ensures Route(Whole(ts, splits), splits[i]) == Route(ts[i], splits[i])
    decreases i
  {
    var q := splits[i];
    if i > 1 {
      assert splits[1] < q;
      SplitKeyRoutes(ts[1..], splits[1..], i - 1);
    } else if |ts| > 2 {
      assert q < splits[2];
    }
  }

  /** And they need not agree. */
  lemma SplitKeyMisses(a: Ptr, b: Ptr, c: Ptr, d: Ptr)
    requires b != c
    ensures var ts, splits := [Node(0, 1, Leaf(a), Leaf(b)), Node(0, 5, Leaf(c), Leaf(d))], [-1, 3];
      ChainRoute(ts, splits, 3) == b && Route(Whole(ts, splits), 3) == c
  {
    var ts, splits := [Node(0, 1, Leaf(a), Leaf(b)), Node(0, 5, Leaf(c), Leaf(d))], [-1, 3];
    SplitKeyRoutes(ts, splits, 1);
  }
}
