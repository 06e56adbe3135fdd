/** An internal node of the tree index: an array of entries that form a search tree, which
    is flattened and rebuilt balanced when the node is rebalanced or split. */
module INode {
  import opened Bits
  import opened NodeTree
  import opened NodeChain
  import NodeWalk

  const CARDINALITY: nat := 14
  const BLANK: Entry := Entry(0, -1, -1, NULL, NULL)

  ghost predicate Sound(entry: seq<Entry>, cnt: nat, root: int, tree: Tree) {
    && |entry| == CARDINALITY && cnt <= CARDINALITY
    && root == (if tree.Leaf? then -1 else tree.loc)
    && Holds(entry, tree) && Separate(tree) && forall loc :: loc in Locs(tree) ==> loc < cnt
  }

  ghost predicate Stores(entry: seq<Entry>, cnt: nat, root: int, tree: Tree) {
    forall u {:trigger UnfoldAt(tree, u)} :: UnfoldAt(tree, u) ==> Sound(entry, cnt, root, tree)
  }

  /** The entries after one child of the entry at the end of a path is set. */
  ghost predicate SideSet(x: Entry, x': Entry, d: bool, u: Tree) {
    && x'.key == x.key
    && (if d then x'.left == x.left && x'.lPtr == x.lPtr && LinkOk(x'.right, x'.rPtr, u)
        else x'.right == x.right && x'.rPtr == x.rPtr && LinkOk(x'.left, x'.lPtr, u))
  }

  /** A new subtree in place of a leaf, where entries from cnt on are new. */
  lemma GraftStores(entry: seq<Entry>, cnt: nat, root: int, tree: Tree, entry': seq<Entry>, cnt': nat,
                    p: Path, d: bool, u: Tree)
    requires Stores(entry, cnt, root, tree) && HasPath(tree, p) && Sub(tree, p).Node? && Child(Sub(tree, p), d).Leaf?
    requires |entry'| == CARDINALITY && cnt <= cnt' <= CARDINALITY && Sub(tree, p).loc < CARDINALITY == |entry|
    requires SideSet(entry[Sub(tree, p).loc], entry'[Sub(tree, p).loc], d, u)
    requires forall loc: nat :: loc < cnt && loc != Sub(tree, p).loc ==> entry'[loc] == entry[loc]
    requires Holds(entry', u) && Separate(u) && forall loc :: loc in Locs(u) ==> cnt <= loc < cnt'
    ensures HasPath(tree, p + [d]) && Stores(entry', cnt', root, Graft(tree, p + [d], u))
  {
    assert UnfoldAt(tree, 0);
    SubStep(tree, p, d);
    GraftReplaces(entry, cnt, tree, entry', p, d, u);
    GraftHolds(entry, entry', tree, p, d, u);
    GraftApart(tree, cnt, p + [d], u, cnt');
    GraftRoot(tree, p, d, u);
  }

  lemma GraftReplaces(entry: seq<Entry>, cnt: nat, tree: Tree, entry': seq<Entry>, p: Path, d: bool, u: Tree)
    requires Holds(entry, tree) && HasPath(tree, p) && Sub(tree, p).Node? && Child(Sub(tree, p), d).Leaf?
    requires cnt <= |entry| == |entry'| && Sub(tree, p).loc < |entry| && forall loc :: loc in Locs(tree) ==> loc < cnt
    requires SideSet(entry[Sub(tree, p).loc], entry'[Sub(tree, p).loc], d, u)
    requires forall loc: nat :: loc < cnt && loc != Sub(tree, p).loc ==> entry'[loc] == entry[loc]
    requires Holds(entry', u)
    ensures Replaced(entry, entry', tree, p, d, u)
  {
    SubHolds(entry, tree, p);
    GraftChild(Sub(tree, p), d, u);
  }

  lemma GraftApart(tree: Tree, cnt: nat, p: Path, u: Tree, cnt': nat)
    requires Separate(tree) && HasPath(tree, p) && Sub(tree, p).Leaf? && Separate(u) && cnt <= cnt'
    requires forall loc :: loc in Locs(tree) ==> loc < cnt
    requires forall loc :: loc in Locs(u) ==> cnt <= loc < cnt'
    ensures Separate(Graft(tree, p, u)) && forall loc :: loc in Locs(Graft(tree, p, u)) ==> loc < cnt'
  {
    GraftLocs(tree, p, u);
    GraftSeparate(tree, p, u);
  }

  lemma GraftRoot(tree: Tree, p: Path, d: bool, u: Tree)
    requires HasPath(tree, p + [d])
    ensures Graft(tree, p + [d], u).Node? && tree.Node? && Graft(tree, p + [d], u).loc == tree.loc
  {
  }

  lemma SingleStores(entry: seq<Entry>, cnt: nat, key: int, l: Ptr, r: Ptr)
    requires |entry| == CARDINALITY && cnt < CARDINALITY
    ensures Stores(entry[cnt := Entry(key, -1, -1, l, r)], cnt + 1, cnt, Node(cnt, key, Leaf(l), Leaf(r)))
    ensures Holds(entry[cnt := Entry(key, -1, -1, l, r)], Node(cnt, key, Leaf(l), Leaf(r)))
    ensures Separate(Node(cnt, key, Leaf(l), Leaf(r))) && Locs(Node(cnt, key, Leaf(l), Leaf(r))) == {cnt}
  {
    var u, e := Node(cnt, key, Leaf(l), Leaf(r)), entry[cnt := Entry(key, -1, -1, l, r)];
    assert Locs(u.left) == {} && Locs(u.right) == {} && Separate(u.left) && Separate(u.right);
    assert Holds(e, u.left) && Holds(e, u.right) && EntryOk(e[cnt], u);
    assert Holds(e, u);
  }

  /** The slot on the way of a key: an entry, a side without a further entry, and the path
      to that entry. */
  ghost predicate Slot(tree: Tree, key: int, parent: nat, d: bool, p: Path) {
    && HasPath(tree, p) && Sub(tree, p).Node? && Sub(tree, p).loc == parent
    && Child(Sub(tree, p), d).Leaf? && PathOf(tree, key) == p + [d]
  }

  /** The steps down from an entry on the way of a key. */
  lemma StepDown(entry: seq<Entry>, cnt: nat, root: int, tree: Tree, p: Path, key: int)
    requires Stores(entry, cnt, root, tree) && HasPath(tree, p) && Sub(tree, p).Node?
    requires PathOf(tree, key) == p + PathOf(Sub(tree, p), key)
    ensures var x := Sub(tree, p);
      && x.loc < |entry| == CARDINALITY && EntryOk(entry[x.loc], x)
      && var d := key >= x.key;
      && HasPath(tree, p + [d]) && Sub(tree, p + [d]) == Child(x, d)
      && PathOf(tree, key) == p + [d] + PathOf(Child(x, d), key)
  {
    EntryAt(entry, cnt, root, tree, p);
    WayOn(tree, p, key);
  }

  lemma EntryAt(entry: seq<Entry>, cnt: nat, root: int, tree: Tree, p: Path)
    requires Stores(entry, cnt, root, tree) && HasPath(tree, p) && Sub(tree, p).Node?
    ensures Sub(tree, p).loc < |entry| == CARDINALITY && EntryOk(entry[Sub(tree, p).loc], Sub(tree, p))
  {
    assert UnfoldAt(tree, 0);
    SubHolds(entry, tree, p);
  }

  lemma WayOn(tree: Tree, p: Path, key: int)
    requires HasPath(tree, p) && Sub(tree, p).Node? && PathOf(tree, key) == p + PathOf(Sub(tree, p), key)
    ensures var x := Sub(tree, p);
      var d := key >= x.key;
      && HasPath(tree, p + [d]) && Sub(tree, p + [d]) == Child(x, d)
      && PathOf(tree, key) == p + [d] + PathOf(Child(x, d), key)
  {
    var x := Sub(tree, p);
    var d := key >= x.key;
    SubStep(tree, p, d);
    assert p + ([d] + PathOf(Child(x, d), key)) == p + [d] + PathOf(Child(x, d), key);
  }

  /** A tree with a subtree in place of the one at a path. */
  ghost predicate Grafted(t: Tree, p: Path, u: Tree, t': Tree) {
    forall v {:trigger UnfoldAt(p, v)} :: UnfoldAt(p, v) ==> HasPath(t, p) && t' == Graft(t, p, u)
  }

  /** An entry at the end of a path, with nothing on one side. */
  ghost predicate OpenAt(t: Tree, p: Path, loc: nat, d: bool) {
    forall v {:trigger UnfoldAt(p, v)} :: UnfoldAt(p, v) ==>
      HasPath(t, p) && Sub(t, p).Node? && Sub(t, p).loc == loc && Child(Sub(t, p), d).Leaf?
  }

  /** Keys in order and the children after each, out of all the children. */
  ghost predicate Laid(keys: seq<int>, ptr: seq<Ptr>, ptrs: seq<Ptr>) {
    Increasing(keys) && |ptr| == |keys| && |ptrs| == |keys| + 1 && ptrs[1..] == ptr
  }

  /** A tree over keys lo up to hi. */
  ghost predicate Part(t: Tree, keys: seq<int>, ptrs: seq<Ptr>, lo: nat, hi: nat) {
    forall v {:trigger UnfoldAt(t, v)} :: UnfoldAt(t, v) ==>
      && lo <= hi <= |keys| && |ptrs| == |keys| + 1
      && Keys(t) == keys[lo..hi] && Ptrs(t) == ptrs[lo..hi + 1]
  }

  /** Node i of a chain is followed by the next one, or by none at the end. */
  ghost predicate LinkAt(chain: seq<InternalNode>, i: nat)
    requires i < |chain|
    reads chain
  {
    && chain[i].Valid() && chain[i].tree.Node?
    && chain[i].sibling == if i + 1 < |chain| then chain[i + 1] else null
  }

  /** The nodes that follow one by their sibling pointers. */
  ghost predicate Linked(chain: seq<InternalNode>)
    reads chain
  {
    |chain| > 0 && forall i: nat :: i < |chain| ==> LinkAt(chain, i)
  }

  ghost function Trees(chain: seq<InternalNode>): (ts: seq<Tree>)
    reads chain
    ensures |ts| == |chain|
  {
    if chain == [] then [] else [chain[0].tree] + Trees(chain[1..])
  }

  ghost function Splits(chain: seq<InternalNode>): (splits: seq<int>)
    reads chain
    ensures |splits| == |chain|
  {
    if chain == [] then [] else [chain[0].splitKey] + Splits(chain[1..])
  }

  lemma LinkedTail(chain: seq<InternalNode>)
    requires Linked(chain)
    ensures LinkAt(chain, 0) && Trees(chain)[0] == chain[0].tree
    ensures |chain| > 1 ==> Linked(chain[1..]) && Splits(chain)[1] == chain[1].splitKey
    ensures Trees(chain)[1..] == Trees(chain[1..]) && Splits(chain)[1..] == Splits(chain[1..])
  {
    assert LinkAt(chain, 0);
    if |chain| > 1 {
      forall i: nat | i < |chain[1..]| ensures LinkAt(chain[1..], i) { assert LinkAt(chain, i + 1); }
    }
  }

  class InternalNode {
    var entry: seq<Entry>
    var cnt: nat
    var root: int
    var sibling: InternalNode?
    var splitKey: int
    ghost var tree: Tree

    ghost predicate Valid()
      reads this
    {
      Stores(entry, cnt, root, tree)
    }

    constructor ()
      ensures Valid() && tree == Leaf(NULL) && cnt == 0 && sibling == null
    {
      entry, cnt, root, tree := seq(CARDINALITY, _ => BLANK), 0, -1, Leaf(NULL);
      sibling, splitKey := null, -1;
    }

    /** The child for a key, in this node or in one that follows it. */
    method Search(key: int, ghost chain: seq<InternalNode>) returns (r: Ptr)
      requires Linked(chain) && chain[0] == this
      ensures r == ChainRoute(Trees(chain), Splits(chain), key)
      decreases |chain|
    {
      LinkedTail(chain);
      if sibling != null && sibling.splitKey < key {
        r := sibling.Search(key, chain[1..]);
      } else {
        r := SearchHere(key);
      }
    }

    method SearchHere(key: int) returns (r: Ptr)
      requires Valid() && tree.Node?
      ensures r == Route(tree, key)
    {
      var cur := root;
      ghost var p: Path := [];
      assert UnfoldAt(tree, 0);
      assert PathOf(tree, key) == p + PathOf(tree, key);
      while true
        invariant HasPath(tree, p) && Sub(tree, p).Node? && Sub(tree, p).loc == cur
        invariant PathOf(tree, key) == p + PathOf(Sub(tree, p), key) && Route(tree, key) == Route(Sub(tree, p), key)
        decreases Sub(tree, p)
      {
        StepDown(entry, cnt, root, tree, p, key);
        var x := entry[cur];
        if key < x.key {
          if x.left < 0 { return x.lPtr; }
          p, cur := p + [false], x.left;
        } else {
          if x.right < 0 { return x.rPtr; }
          p, cur := p + [true], x.right;
        }
      }
    }

    /** The entry and side where a key that is not there yet goes. */
    method FindSlot(key: int) returns (parent: nat, d: bool, ghost p: Path)
      requires Valid() && tree.Node?
      ensures Slot(tree, key, parent, d, p)
    {
      assert UnfoldAt(tree, 0);
      parent, p := root, [];
      assert PathOf(tree, key) == p + PathOf(tree, key);
      while true
        invariant HasPath(tree, p) && Sub(tree, p).Node? && Sub(tree, p).loc == parent
        invariant PathOf(tree, key) == p + PathOf(Sub(tree, p), key)
        decreases Sub(tree, p)
      {
        StepDown(entry, cnt, root, tree, p, key);
        var x := entry[parent];
        d := !(key < x.key);
        var next := if d then x.right else x.left;
        if next == -1 {
          assert p + [d] + [] == p + [d];
          return;
        }
        p, parent := p + [d], next;
      }
    }

    /** Put a key with its two children in place of the leaf it is routed to. */
    method SInsert(key: int, l: Ptr, r: Ptr) returns (loc: nat)
      requires Valid() && cnt < CARDINALITY
      modifies this
      ensures Valid() && loc == old(cnt) && cnt == old(cnt) + 1
      ensures var t := old(tree);
        && HasPath(t, PathOf(t, key)) && tree == Graft(t, PathOf(t, key), Node(loc, key, Leaf(l), Leaf(r)))
    {
      loc := cnt;
      ghost var u := Node(loc, key, Leaf(l), Leaf(r));
      var x := Entry(key, -1, -1, l, r);
      assert root == -1 <==> tree.Leaf? by { assert UnfoldAt(tree, 0); }
      assert |entry| == CARDINALITY by { assert UnfoldAt(tree, 0); }
      PathLeads(tree, key);
      if root == -1 {
        SingleStores(entry, cnt, key, l, r);
        entry, cnt, root, tree := entry[loc := x], cnt + 1, loc, u;
        return;
      }
      var parent, d;
      ghost var p;
      parent, d, p := FindSlot(key);
      assert parent < loc by {
        assert UnfoldAt(tree, 0);
        SubLocs(tree, p);
        assert parent in Locs(Sub(tree, p));
      }
      var y := entry[parent];
      var y' := if d then y.(right := loc, rPtr := NULL) else y.(left := loc, lPtr := NULL);
      ghost var entry' := entry[loc := x][parent := y'];
      GraftStores(entry, cnt, root, tree, entry', cnt + 1, p, d, u);
      entry := entry[loc := x];
      entry := entry[parent := y'];
      cnt, tree := cnt + 1, Graft(tree, p + [d], u);
    }

    /** Give one side of an entry a child pointer. */
    method SetChild(loc: nat, d: bool, ptr: Ptr, ghost p: Path)
      requires Valid() && OpenAt(tree, p, loc, d)
      modifies this`entry, this`tree
      ensures Valid() && Grafted(old(tree), p + [d], Leaf(ptr), tree)
    {
      assert UnfoldAt(p, 0);
      assert loc < |entry| == CARDINALITY && cnt <= CARDINALITY by {
        assert UnfoldAt(tree, 0);
        SubHolds(entry, tree, p);
      }
      var x := entry[loc];
      var x' := if d then x.(right := -1, rPtr := ptr) else x.(left := -1, lPtr := ptr);
      GraftStores(entry, cnt, root, tree, entry[loc := x'], cnt, p, d, Leaf(ptr));
      entry := entry[loc := x'];
      tree := Graft(tree, p + [d], Leaf(ptr));
    }

    /** Insert keys lo up to hi, which are all routed to the same leaf, the middle one first,
        and give the leaves the pointers in order. True when there is nothing to insert. */
    method BalancedInsert(keys: seq<int>, ptr: seq<Ptr>, lo: nat, hi: nat, ptrIdx0: int, leftmost: Ptr,
                          ghost ptrs: seq<Ptr>, ghost p: Path)
      returns (empty: bool, ptrIdx: int, ghost u: Tree)
      requires Valid() && Inserting(tree, keys, ptr, lo, hi, ptrIdx0, leftmost, ptrs, p) && cnt + hi - lo <= CARDINALITY
      modifies this
      ensures Valid() && cnt == old(cnt) + hi - lo && empty == (lo == hi)
      ensures ptrIdx == if empty then ptrIdx0 else hi
      ensures empty ==> tree == old(tree) && u == Leaf(NULL)
      ensures !empty ==>
        && Balanced(u, keys, ptrs, lo, hi, old(cnt)) && Grafted(old(tree), p, u, tree)
      decreases hi - lo, 0
    {
      ptrIdx, u := ptrIdx0, Leaf(NULL);
      if lo >= hi { return true, ptrIdx, u; }
      empty := false;
      var mid := Middle(lo, hi);
      ghost var t := tree;
      var loc := InsertMiddle(keys, lo, hi, p);
      ghost var l, r;
      ghost var t1 := tree;
      InsertLeft(t, t1, keys, ptr, lo, mid, hi, ptrIdx, leftmost, ptrs, p, loc);
      ptrIdx, l := FillSide(keys, ptr, lo, mid, ptrIdx, leftmost, ptrs, p, loc, false);
      ghost var t2 := tree;
      InsertRight(t, t1, t2, keys, ptr, lo, mid, hi, ptrIdx, leftmost, ptrs, p, loc, l);
      ptrIdx, r := FillSide(keys, ptr, mid + 1, hi, ptrIdx, leftmost, ptrs, p, loc, true);
      InsertedBoth(t, t2, tree, p, loc, keys[mid], l, r);
      u := Node(loc, keys[mid], l, r);
      BalancedNode(keys, ptrs, lo, hi, loc, l, r);
    }

    /** Insert the middle one of keys that are all routed to the same leaf. */
    method InsertMiddle(keys: seq<int>, lo: nat, hi: nat, ghost p: Path) returns (loc: nat)
      requires Valid() && SameWay(tree, keys, lo, hi, p) && lo < hi <= |keys| && cnt < CARDINALITY
      modifies this
      ensures Valid() && loc == old(cnt) && cnt == old(cnt) + 1
      ensures Grafted(old(tree), p, Node(loc, keys[Middle(lo, hi)], Leaf(NULL), Leaf(NULL)), tree)
    {
      assert UnfoldAt(p, 0);
      loc := SInsert(keys[Middle(lo, hi)], NULL, NULL);
    }

    /** Insert keys on one side of an entry; if there are none, that side gets the next
        pointer. */
    method FillSide(keys: seq<int>, ptr: seq<Ptr>, lo: nat, hi: nat, ptrIdx0: int, leftmost: Ptr,
                    ghost ptrs: seq<Ptr>, ghost p: Path, loc: nat, d: bool)
      returns (ptrIdx: int, ghost u: Tree)
      requires Valid() && Inserting(tree, keys, ptr, lo, hi, ptrIdx0, leftmost, ptrs, p + [d]) && cnt + hi - lo <= CARDINALITY
      requires lo <= |ptr| && OpenAt(tree, p, loc, d)
      modifies this
      ensures Valid() && cnt == old(cnt) + hi - lo && ptrIdx == hi
      ensures Balanced(u, keys, ptrs, lo, hi, old(cnt)) && Grafted(old(tree), p + [d], u, tree)
      decreases hi - lo, 1
    {
      var none;
      none, ptrIdx, u := BalancedInsert(keys, ptr, lo, hi, ptrIdx0, leftmost, ptrs, p + [d]);
      if none {
        var child := if ptrIdx == -1 then leftmost else ptr[ptrIdx];
        SetChild(loc, d, child, p);
        ptrIdx, u := ptrIdx + 1, Leaf(child);
      }
    }

    /** Flatten the tree. */
    method Flatten() returns (keys: seq<int>, ptr: seq<Ptr>, leftmost: Ptr)
      requires Valid() && tree.Node?
      ensures keys == Keys(tree) && [leftmost] + ptr == Ptrs(tree) && |keys| <= CARDINALITY
    {
      assert UnfoldAt(tree, 0);
      keys, ptr, leftmost := NodeWalk.Transform(entry, root, tree);
      LocsCount(tree);
      SmallSet(Locs(tree), cnt);
    }

    /** Build a balanced tree over keys lo up to hi in this node, which is empty. */
    method BuildFrom(keys: seq<int>, ptr: seq<Ptr>, lo: nat, hi: nat, ptrIdx0: int, leftmost: Ptr, ghost ptrs: seq<Ptr>)
      returns (ptrIdx: int)
      requires Valid() && tree == Leaf(NULL) && cnt == 0 && lo < hi <= |keys| && hi - lo <= CARDINALITY
      requires Laid(keys, ptr, ptrs) && ptrIdx0 == lo - 1 && (lo == 0 ==> leftmost == ptrs[0])
      modifies this
      ensures Valid() && ptrIdx == hi && cnt == hi - lo
      ensures Balanced(tree, keys, ptrs, lo, hi, 0) && Part(tree, keys, ptrs, lo, hi)
    {
      assert SameWay(tree, keys, lo, hi, []);
      var empty;
      ghost var u;
      ghost var top: Path := [];
      empty, ptrIdx, u := BalancedInsert(keys, ptr, lo, hi, ptrIdx0, leftmost, ptrs, top);
      assert UnfoldAt(top, 0);
      BalancedIs(tree, keys, ptrs, lo, hi, 0);
    }

    /** Rebuild the tree balanced; every key is routed as before. */
    method Rebalance()
      requires Valid() && tree.Node? && Bst(tree)
      modifies this
      ensures Valid() && Keys(tree) == Keys(old(tree)) && Ptrs(tree) == Ptrs(old(tree))
      ensures forall q :: Route(tree, q) == Route(old(tree), q)
      ensures forall k: nat :: |Keys(old(tree))| < Pow2(k) ==> Depth(tree) <= k
    {
      ghost var t := tree;
      var keys, ptr, leftmost := Flatten();
      assert Stores(entry, 0, -1, Leaf(NULL)) by { assert UnfoldAt(tree, 0); }
      root, cnt, tree := -1, 0, Leaf(NULL);
      FlatIs(t, keys, ptr, leftmost);
      var ptrIdx := BuildFrom(keys, ptr, 0, |keys|, -1, leftmost, Ptrs(t));
      RebuiltRoutes(t, tree);
      forall k: nat | |Keys(t)| < Pow2(k) ensures Depth(tree) <= k {
        BalancedDepth(tree, keys, Ptrs(t), 0, |keys|, 0, k);
      }
    }

    static method BuildNew(keys: seq<int>, ptr: seq<Ptr>, lo: nat, hi: nat, ptrIdx0: int, leftmost: Ptr,
                           ghost ptrs: seq<Ptr>)
      returns (node: InternalNode, ptrIdx: int)
      requires lo < hi <= |keys| && hi - lo <= CARDINALITY
      requires Laid(keys, ptr, ptrs) && ptrIdx0 == lo - 1 && (lo == 0 ==> leftmost == ptrs[0])
      ensures fresh(node) && node.Valid() && ptrIdx == hi && node.cnt == hi - lo
      ensures Part(node.tree, keys, ptrs, lo, hi)
    {
      node := new InternalNode();
      ptrIdx := node.BuildFrom(keys, ptr, lo, hi, ptrIdx0, leftmost, ptrs);
    }

    /** Two new nodes with the keys on either side of the middle one. */
    static method Halve(keys: seq<int>, ptr: seq<Ptr>, leftmost: Ptr, ghost t: Tree)
      returns (left: InternalNode, right: InternalNode)
      requires Bst(t) && keys == Keys(t) && [leftmost] + ptr == Ptrs(t) && 3 <= |keys| <= 2 * CARDINALITY
      ensures fresh(left) && fresh(right) && left != right && left.Valid() && right.Valid()
      ensures Halves(t, |keys| / 2, left.tree, right.tree)
      ensures left.cnt == |keys| / 2 && right.cnt == |keys| - 1 - |keys| / 2
    {
      ghost var ptrs := Ptrs(t);
      FlatIs(t, keys, ptr, leftmost);
      var mIdx := |keys| / 2;
      var ptrIdx;
      left, ptrIdx := BuildNew(keys, ptr, 0, mIdx, -1, leftmost, ptrs);
      right, ptrIdx := BuildNew(keys, ptr, mIdx + 1, |keys|, ptrIdx, ptr[mIdx], ptrs);
      HalvesAre(t, mIdx, left.tree, right.tree);
    }

    /** Split a full node around its middle key and add a separator with its two children:
        every key is routed to the child this node would lead to with that separator. A node
        that is not full is not split. */
    method Split(key: int, l: Ptr, r: Ptr) returns (left: InternalNode?, right: InternalNode?, median: int)
      requires Valid() && tree.Node? && Bst(tree)
      ensures left == null <==> |Keys(tree)| < CARDINALITY
      ensures left != null ==>
        && right != null && fresh(left) && fresh(right) && left.Valid() && right.Valid()
        && left.sibling == right && right.sibling == sibling && left.splitKey == splitKey && right.splitKey == median
        && median == Keys(tree)[CARDINALITY / 2]
        && forall q :: (if q < median then Route(left.tree, q) else Route(right.tree, q)) == RouteWith(tree, key, l, r, q)
    {
      left, right, median := null, null, 0;
      var keys, ptr, leftmost := Flatten();
      if |keys| == CARDINALITY {
        left, right := Halve(keys, ptr, leftmost, tree);
        median := keys[CARDINALITY / 2];
        ghost var a, b := left.tree, right.tree;
        var loc: nat;
        if key < median {
          loc := left.SInsert(key, l, r);
        } else {
          loc := right.SInsert(key, l, r);
        }
        SplitIs(tree, CARDINALITY / 2, a, b, left.tree, right.tree, loc, key, l, r);
        left.sibling, left.splitKey := right, splitKey;
        right.sibling, right.splitKey := sibling, median;
      }
    }

    /** Merge this node with its right neighbour, or spread the keys of the two evenly over
        two nodes; every key is routed as the two nodes did around their separator. */
    method Merge() returns (left: InternalNode, right: InternalNode?, median: int)
      requires sibling != null && Valid() && sibling.Valid() && tree.Node? && sibling.tree.Node?
      requires Bst(Together(tree, sibling.splitKey, sibling.tree))
      requires |Keys(tree)| + |Keys(sibling.tree)| < 2 * CARDINALITY
      ensures fresh(left) && left.Valid() && (right == null <==> |Keys(tree)| + 1 + |Keys(sibling.tree)| <= CARDINALITY)
      ensures left.splitKey == splitKey && left.sibling == if right == null then sibling.sibling else right
      ensures right == null ==> forall q :: Route(left.tree, q) == Route(Together(tree, sibling.splitKey, sibling.tree), q)
      ensures right != null ==>
        && fresh(right) && right.Valid() && (left.cnt == right.cnt || left.cnt == right.cnt + 1)
        && right.sibling == sibling.sibling && right.splitKey == median
        && forall q :: (if q < median then Route(left.tree, q) else Route(right.tree, q))
                       == Route(Together(tree, sibling.splitKey, sibling.tree), q)
    {
      var other, key := sibling, sibling.splitKey;
      ghost var t := Together(tree, key, other.tree);
      var kl, pl, l := Flatten();
      var kr, pr, r := other.Flatten();
      TogetherIs(tree, key, other.tree, kl, kr, pl, l, pr, r);
      var keys, ptr := kl + [key] + kr, pl + ([r] + pr);
      right, median := null, 0;
      if |keys| <= CARDINALITY {
        ghost var ptrs := Ptrs(t);
        FlatIs(t, keys, ptr, l);
        var ptrIdx;
        left, ptrIdx := BuildNew(keys, ptr, 0, |keys|, -1, l, ptrs);
        RebuiltRoutes(t, left.tree);
        left.sibling := other.sibling;
      } else {
        left, right := MergeHalves(keys, ptr, l, t);
        median := keys[|keys| / 2];
        left.sibling := right;
        right.sibling, right.splitKey := other.sibling, median;
      }
      left.splitKey := splitKey;
    }

    static method MergeHalves(keys: seq<int>, ptr: seq<Ptr>, leftmost: Ptr, ghost t: Tree)
      returns (left: InternalNode, right: InternalNode)
      requires Bst(t) && keys == Keys(t) && [leftmost] + ptr == Ptrs(t) && 3 <= |keys| <= 2 * CARDINALITY
      ensures fresh(left) && fresh(right) && left != right && left.Valid() && right.Valid()
      ensures left.cnt == |keys| / 2 && right.cnt == |keys| - 1 - |keys| / 2
      ensures forall q :: Route(t, q) == if q < keys[|keys| / 2] then Route(left.tree, q) else Route(right.tree, q)
    {
      left, right := Halve(keys, ptr, leftmost, t);
      TogetherHalves(t, |keys| / 2, left.tree, right.tree);
    }
  }

  /** The tree of two neighbours with the key that separates them on top. */
  ghost function Together(left: Tree, key: int, right: Tree): Tree {
    Node(0, key, left, right)
  }

  lemma TogetherIs(left: Tree, key: int, right: Tree, kl: seq<int>, kr: seq<int>, pl: seq<Ptr>, l: Ptr, pr: seq<Ptr>, r: Ptr)
    requires kl == Keys(left) && kr == Keys(right) && [l] + pl == Ptrs(left) && [r] + pr == Ptrs(right)
    ensures Keys(Together(left, key, right)) == kl + [key] + kr
    ensures [l] + (pl + ([r] + pr)) == Ptrs(Together(left, key, right))
  {
    assert [l] + (pl + ([r] + pr)) == ([l] + pl) + ([r] + pr);
  }

  /** What flattening a tree leaves. */
  lemma FlatIs(t: Tree, keys: seq<int>, ptr: seq<Ptr>, leftmost: Ptr)
    requires Bst(t) && keys == Keys(t) && [leftmost] + ptr == Ptrs(t)
    ensures Laid(keys, ptr, Ptrs(t)) && leftmost == Ptrs(t)[0]
  {
    assert ([leftmost] + ptr)[1..] == ptr;
  }

  lemma TogetherHalves(t: Tree, m: nat, left: Tree, right: Tree)
    requires Bst(t) && Halves(t, m, left, right)
    ensures forall q :: Route(t, q) == if q < Keys(t)[m] then Route(left, q) else Route(right, q)
  {
    forall q ensures Route(t, q) == if q < Keys(t)[m] then Route(left, q) else Route(right, q) {
      HalfRoutes(t, m, left, right, q);
    }
  }

  lemma Slices<T>(s: seq<T>, m: nat)
    requires m <= |s|
    ensures s[0..m] == s[..m] && s[m..|s|] == s[m..]
  {
  }

  lemma FirstPart(t: Tree, keys: seq<int>, ptrs: seq<Ptr>, m: nat)
    requires m <= |keys| < |ptrs| && Part(t, keys, ptrs, 0, m)
    ensures Keys(t) == keys[..m] && Ptrs(t) == ptrs[..m + 1]
  {
    assert UnfoldAt(t, 0);
    Slices(keys, m);
    Slices(ptrs, m + 1);
  }

  lemma LastPart(t: Tree, keys: seq<int>, ptrs: seq<Ptr>, m: nat)
    requires m <= |keys| < |ptrs| && Part(t, keys, ptrs, m, |keys|)
    ensures Keys(t) == keys[m..] && Ptrs(t) == ptrs[m..]
  {
    assert UnfoldAt(t, 0);
    Slices(keys, m);
    Slices(ptrs, m);
  }

  lemma HalvesAre(t: Tree, m: nat, left: Tree, right: Tree)
    requires m < |Keys(t)|
    requires Part(left, Keys(t), Ptrs(t), 0, m) && Part(right, Keys(t), Ptrs(t), m + 1, |Keys(t)|)
    ensures Halves(t, m, left, right)
  {
    FirstPart(left, Keys(t), Ptrs(t), m);
    LastPart(right, Keys(t), Ptrs(t), m + 1);
  }

  /** What a full node splits into: each side takes the keys on its side of the median,
      and the new separator goes where it belongs. */
  lemma SplitIs(t: Tree, m: nat, left: Tree, right: Tree, left': Tree, right': Tree, loc: nat, key: int, l: Ptr, r: Ptr)
    requires Bst(t) && Halves(t, m, left, right)
    requires var u := Node(loc, key, Leaf(l), Leaf(r));
      if key < Keys(t)[m] then
        HasPath(left, PathOf(left, key)) && left' == Graft(left, PathOf(left, key), u) && right' == right
      else
        HasPath(right, PathOf(right, key)) && right' == Graft(right, PathOf(right, key), u) && left' == left
    ensures forall q ::
      (if q < Keys(t)[m] then Route(left', q) else Route(right', q)) == RouteWith(t, key, l, r, q)
  {
    forall q ensures (if q < Keys(t)[m] then Route(left', q) else Route(right', q)) == RouteWith(t, key, l, r, q) {
      SplitRoutes(t, m, left, right, key, l, r, q);
      if key < Keys(t)[m] { AddedRoutes(left, loc, key, l, r, q); } else { AddedRoutes(right, loc, key, l, r, q); }
    }
  }

  lemma RebuiltRoutes(t: Tree, u: Tree)
    requires Bst(t) && Part(u, Keys(t), Ptrs(t), 0, |Keys(t)|)
    ensures Keys(u) == Keys(t) && Ptrs(u) == Ptrs(t) && forall q :: Route(u, q) == Route(t, q)
  {
    assert UnfoldAt(u, 0);
    assert Keys(t)[0..|Keys(t)|] == Keys(t) && Ptrs(t)[0..|Ptrs(t)|] == Ptrs(t);
    forall q ensures Route(u, q) == Route(t, q) { SameRoutes(t, u, q); }
  }

  /** What holds before keys lo up to hi are inserted at a path. */
  ghost predicate Inserting(t: Tree, keys: seq<int>, ptr: seq<Ptr>, lo: nat, hi: nat, ptrIdx: int, leftmost: Ptr,
                            ptrs: seq<Ptr>, p: Path)
  {
    && lo <= hi <= |keys| && |ptr| == |keys| && |ptrs| == |keys| + 1 && ptrs[1..] == ptr
    && ptrIdx == lo - 1 && (lo == 0 ==> leftmost == ptrs[0])
    && SameWay(t, keys, lo, hi, p)
  }

  ghost predicate SameWay(t: Tree, keys: seq<int>, lo: nat, hi: nat, p: Path) {
    forall u {:trigger UnfoldAt(p, u)} :: UnfoldAt(p, u) ==>
      && Increasing(keys) && lo <= hi <= |keys| && HasPath(t, p) && Sub(t, p).Leaf?
      && forall i: nat :: lo <= i < hi ==> PathOf(t, keys[i]) == p
  }

  /** After the middle key is in, the smaller ones go to its left. */
  lemma InsertLeft(t: Tree, t': Tree, keys: seq<int>, ptr: seq<Ptr>, lo: nat, mid: nat, hi: nat, ptrIdx: int, leftmost: Ptr,
                   ptrs: seq<Ptr>, p: Path, loc: nat)
    requires Inserting(t, keys, ptr, lo, hi, ptrIdx, leftmost, ptrs, p) && lo <= mid < hi
    requires Grafted(t, p, Node(loc, keys[mid], Leaf(NULL), Leaf(NULL)), t')
    ensures Inserting(t', keys, ptr, lo, mid, ptrIdx, leftmost, ptrs, p + [false]) && OpenAt(t', p, loc, false)
  {
    assert UnfoldAt(p, 0);
    var x := Node(loc, keys[mid], Leaf(NULL), Leaf(NULL));
    GraftSub(t, p, x);
    SubStep(t', p, false);
    forall i: nat | lo <= i < mid ensures PathOf(t', keys[i]) == p + [false] {
      assert keys[i] < keys[mid];
      PathThrough(t, p, keys[i], x);
      assert PathOf(x, keys[i]) == [false] + [];
    }
  }

  /** And the larger ones to its right, when the left is done. */
  lemma InsertRight(t: Tree, t1: Tree, t': Tree, keys: seq<int>, ptr: seq<Ptr>, lo: nat, mid: nat, hi: nat, ptrIdx: int, leftmost: Ptr,
                    ptrs: seq<Ptr>, p: Path, loc: nat, l: Tree)
    requires Inserting(t, keys, ptr, lo, hi, lo - 1, leftmost, ptrs, p) && lo <= mid < hi && ptrIdx == mid
    requires Grafted(t, p, Node(loc, keys[mid], Leaf(NULL), Leaf(NULL)), t1) && Grafted(t1, p + [false], l, t')
    ensures Grafted(t, p, Node(loc, keys[mid], l, Leaf(NULL)), t')
    ensures Inserting(t', keys, ptr, mid + 1, hi, ptrIdx, leftmost, ptrs, p + [true]) && OpenAt(t', p, loc, true)
  {
    GraftedTwice(t, p, Node(loc, keys[mid], Leaf(NULL), Leaf(NULL)), t1, false, l, t');
    assert UnfoldAt(p, 0);
    var x' := Node(loc, keys[mid], l, Leaf(NULL));
    GraftSub(t, p, x');
    SubStep(t', p, true);
    forall i: nat | mid + 1 <= i < hi ensures PathOf(t', keys[i]) == p + [true] {
      assert keys[mid] < keys[i];
      PathThrough(t, p, keys[i], x');
      assert PathOf(x', keys[i]) == [true] + [];
    }
  }

  lemma BalancedNode(keys: seq<int>, ptrs: seq<Ptr>, lo: nat, hi: nat, base: nat, l: Tree, r: Tree)
    requires lo < hi <= |keys| && |ptrs| == |keys| + 1
    requires Balanced(l, keys, ptrs, lo, Middle(lo, hi), base + 1)
    requires Balanced(r, keys, ptrs, Middle(lo, hi) + 1, hi, base + 1 + Middle(lo, hi) - lo)
    ensures Balanced(Node(base, keys[Middle(lo, hi)], l, r), keys, ptrs, lo, hi, base)
  {
  }

  /** A subtree put in, then one child of it. */
  lemma GraftedTwice(t: Tree, p: Path, x: Tree, t1: Tree, d: bool, u: Tree, t2: Tree)
    requires x.Node? && Grafted(t, p, x, t1) && Grafted(t1, p + [d], u, t2)
    ensures Grafted(t, p, if d then x.(right := u) else x.(left := u), t2)
  {
    assert UnfoldAt(p, 0) && UnfoldAt(p + [d], 0);
    GraftChild(x, d, u);
    GraftGraft(t, p, x, [d], u);
  }

  lemma InsertedBoth(t: Tree, t2: Tree, t': Tree, p: Path, loc: nat, key: int, l: Tree, r: Tree)
    requires Grafted(t, p, Node(loc, key, l, Leaf(NULL)), t2) && Grafted(t2, p + [true], r, t')
    ensures Grafted(t, p, Node(loc, key, l, r), t')
  {
    GraftedTwice(t, p, Node(loc, key, l, Leaf(NULL)), t2, true, r, t');
  }
}
