/** The binary search tree that orders the keys inside one internal node of the tree index:
    n keys with n + 1 child pointers between and around them. */
module NodeTree {
  import opened Bits

  type Ptr = int

  const NULL: Ptr := 0

  /** A tree over the entries of a node: inner nodes are entries, leaves are child
      pointers. */
  datatype Tree = Leaf(ptr: Ptr) | Node(loc: nat, key: int, left: Tree, right: Tree)

  function Keys(t: Tree): seq<int> {
    match t
    case Leaf(_) => []
    case Node(_, k, l, r) => Keys(l) + [k] + Keys(r)
  }

  function Ptrs(t: Tree): (s: seq<Ptr>)
    ensures |s| == |Keys(t)| + 1
  {
    match t
    case Leaf(p) => [p]
    case Node(_, k, l, r) => Ptrs(l) + Ptrs(r)
  }

  /** The child a key is routed to. */
  function Route(t: Tree, q: int): Ptr {
    match t
    case Leaf(p) => p
    case Node(_, k, l, r) => if q < k then Route(l, q) else Route(r, q)
  }

  ghost predicate Increasing(s: seq<int>) {
    forall i: nat, j: nat :: i < j < |s| ==> s[i] < s[j]
  }

  ghost predicate Bst(t: Tree) {
    Increasing(Keys(t))
  }

  lemma IncreasingParts(a: seq<int>, k: int, b: seq<int>)
    requires Increasing(a + [k] + b)
    ensures Increasing(a) && Increasing(b)
    ensures (forall x :: x in a ==> x < k) && (forall x :: x in b ==> k < x)
  {
    var s := a + [k] + b;
    assert s[|a|] == k;
    forall i: nat, j: nat | i < j < |a| ensures a[i] < a[j] { assert s[i] < s[j]; }
    forall i: nat, j: nat | i < j < |b| ensures b[i] < b[j] { assert s[|a| + 1 + i] < s[|a| + 1 + j]; }
    forall x | x in a ensures x < k {
      var i: nat :| i < |a| && a[i] == x;
      assert s[i] < s[|a|];
    }
    forall x | x in b ensures k < x {
      var i: nat :| i < |b| && b[i] == x;
      assert s[|a|] < s[|a| + 1 + i];
    }
  }

  /** How many keys are at most q. */
  function CountLe(s: seq<int>, q: int): (n: nat)
    ensures n <= |s|
  {
    if s == [] then 0 else (if s[0] <= q then 1 else 0) + CountLe(s[1..], q)
  }

  lemma {:induction false} CountLeConcat(a: seq<int>, b: seq<int>, q: int)
    ensures CountLe(a + b, q) == CountLe(a, q) + CountLe(b, q)
  {
    if a == [] {
      assert a + b == b;
    } else {
      assert (a + b)[1..] == a[1..] + b;
      CountLeConcat(a[1..], b, q);
    }
  }

  lemma {:induction false} CountLeAll(s: seq<int>, q: int)
    ensures (forall x :: x in s ==> x <= q) ==> CountLe(s, q) == |s|
    ensures (forall x :: x in s ==> q < x) ==> CountLe(s, q) == 0
  {
    if s != [] {
      assert s[0] in s && forall x :: x in s[1..] ==> x in s;
      CountLeAll(s[1..], q);
    }
  }

  lemma RankSplits(a: seq<int>, k: int, b: seq<int>, q: int)
    requires Increasing(a + [k] + b)
    ensures Increasing(a) && Increasing(b)
    ensures CountLe(a + [k] + b, q) == if q < k then CountLe(a, q) else |a| + 1 + CountLe(b, q)
  {
    IncreasingParts(a, k, b);
    CountLeConcat(a + [k], b, q);
    CountLeConcat(a, [k], q);
    assert CountLe([k], q) == if k <= q then 1 else 0;
    CountLeAll(a, q);
    CountLeAll(b, q);
  }

  /** In a search tree a key is routed to the pointer that the number of keys up to it
      selects; the shape of the tree does not matter. */
  lemma {:induction false} RouteByRank(t: Tree, q: int)
    requires Bst(t)
    ensures Route(t, q) == Ptrs(t)[CountLe(Keys(t), q)]
  {
    if t.Node? {
      RankSplits(Keys(t.left), t.key, Keys(t.right), q);
      if q < t.key { RouteByRank(t.left, q); } else { RouteByRank(t.right, q); }
    }
  }

  /** So trees with the same keys and pointers route every key alike. */
  lemma SameRoutes(t: Tree, u: Tree, q: int)
    requires Bst(t) && Keys(u) == Keys(t) && Ptrs(u) == Ptrs(t)
    ensures Route(u, q) == Route(t, q)
  {
    RouteByRank(t, q);
    RouteByRank(u, q);
  }

  // ----- paths

  type Path = seq<bool>

  /** The way a key takes down the tree; true is right. */
  function PathOf(t: Tree, q: int): Path {
    match t
    case Leaf(_) => []
    case Node(_, k, l, r) => if q < k then [false] + PathOf(l, q) else [true] + PathOf(r, q)
  }

  ghost predicate HasPath(t: Tree, p: Path) {
    p == [] || (t.Node? && HasPath(if p[0] then t.right else t.left, p[1..]))
  }

  ghost function Sub(t: Tree, p: Path): Tree
    requires HasPath(t, p)
  {
    if p == [] then t else Sub(if p[0] then t.right else t.left, p[1..])
  }

  /** The tree with the subtree at a path replaced. */
  ghost function Graft(t: Tree, p: Path, u: Tree): Tree
    requires HasPath(t, p)
  {
    if p == [] then u
    else if p[0] then t.(right := Graft(t.right, p[1..], u))
    else t.(left := Graft(t.left, p[1..], u))
  }

  lemma {:induction false} PathLeads(t: Tree, q: int)
    ensures HasPath(t, PathOf(t, q)) && Sub(t, PathOf(t, q)) == Leaf(Route(t, q))
  {
    if t.Node? {
      var u := if q < t.key then t.left else t.right;
      PathLeads(u, q);
      assert PathOf(t, q)[1..] == PathOf(u, q);
    }
  }

  lemma {:induction false} GraftSub(t: Tree, p: Path, u: Tree)
    requires HasPath(t, p)
    ensures HasPath(Graft(t, p, u), p) && Sub(Graft(t, p, u), p) == u
  {
    if p != [] { GraftSub(if p[0] then t.right else t.left, p[1..], u); }
  }

  /** Replacing below a replacement. */
  lemma {:induction false} GraftGraft(t: Tree, p: Path, u: Tree, d: Path, v: Tree)
    requires HasPath(t, p) && HasPath(u, d)
    ensures HasPath(Graft(t, p, u), p + d) && Graft(Graft(t, p, u), p + d, v) == Graft(t, p, Graft(u, d, v))
    ensures Sub(Graft(t, p, u), p + d) == Sub(u, d)
    decreases |p|
  {
    if p == [] {
      assert p + d == d;
    } else {
      assert (p + d)[0] == p[0] && (p + d)[1..] == p[1..] + d;
      GraftGraft(if p[0] then t.right else t.left, p[1..], u, d, v);
    }
  }

  /** A key that is routed to a path goes on from there in what is put in its place. */
  lemma {:induction false} PathThrough(t: Tree, p: Path, q: int, u: Tree)
    requires p == PathOf(t, q) && HasPath(t, p)
    ensures PathOf(Graft(t, p, u), q) == p + PathOf(u, q)
    ensures Route(Graft(t, p, u), q) == Route(u, q)
  {
    if t.Node? {
      var c := if q < t.key then t.left else t.right;
      assert p[1..] == PathOf(c, q) && p == [p[0]] + p[1..];
      PathThrough(c, p[1..], q, u);
      assert p + PathOf(u, q) == [p[0]] + (p[1..] + PathOf(u, q));
    }
  }

  /** Every other key is routed as before. */
  lemma {:induction false} PathElsewhere(t: Tree, p: Path, u: Tree, q: int)
    requires HasPath(t, p) && Sub(t, p).Leaf? && PathOf(t, q) != p
    ensures Route(Graft(t, p, u), q) == Route(t, q)
  {
    if p != [] && t.Node? {
      var c := if q < t.key then t.left else t.right;
      assert PathOf(t, q)[1..] == PathOf(c, q);
      if p[0] == (q >= t.key) {
        assert p == [p[0]] + p[1..];
        PathElsewhere(c, p[1..], u, q);
      }
    }
  }

  // ----- the balanced tree over a sorted list

  function Middle(lo: nat, hi: nat): (mid: nat)
    requires lo < hi
    ensures lo <= mid < hi && mid - lo <= hi - mid - 1 <= mid - lo + 1
  {
    (lo + hi - 1) / 2
  }

  /** A tree over keys lo up to hi: the middle key on top, entries numbered from base in
      the order in which they are inserted. */
  ghost predicate Balanced(t: Tree, keys: seq<int>, ptrs: seq<Ptr>, lo: nat, hi: nat, base: nat)
    requires lo <= hi <= |keys| && |ptrs| == |keys| + 1
  {
    match t
    case Leaf(p) => lo == hi && p == ptrs[lo]
    case Node(loc, k, l, r) =>
      && lo < hi && loc == base
      && var mid := Middle(lo, hi);
      && k == keys[mid] && Balanced(l, keys, ptrs, lo, mid, base + 1)
      && Balanced(r, keys, ptrs, mid + 1, hi, base + 1 + mid - lo)
  }

  /** It has just those keys and the pointers around them. */
  lemma {:induction false} BalancedIs(t: Tree, keys: seq<int>, ptrs: seq<Ptr>, lo: nat, hi: nat, base: nat)
    requires lo <= hi <= |keys| && |ptrs| == |keys| + 1 && Balanced(t, keys, ptrs, lo, hi, base)
    ensures Keys(t) == keys[lo..hi] && Ptrs(t) == ptrs[lo..hi + 1]
  {
    if t.Node? {
      var mid := Middle(lo, hi);
      BalancedIs(t.left, keys, ptrs, lo, mid, base + 1);
      BalancedIs(t.right, keys, ptrs, mid + 1, hi, base + 1 + mid - lo);
      NodeIs(t, keys, ptrs, lo, mid, hi);
    }
  }

  lemma NodeIs(t: Tree, keys: seq<int>, ptrs: seq<Ptr>, lo: nat, mid: nat, hi: nat)
    requires lo <= mid < hi <= |keys| && |ptrs| == |keys| + 1 && t.Node? && t.key == keys[mid]
    requires Keys(t.left) == keys[lo..mid] && Ptrs(t.left) == ptrs[lo..mid + 1]
    requires Keys(t.right) == keys[mid + 1..hi] && Ptrs(t.right) == ptrs[mid + 1..hi + 1]
    ensures Keys(t) == keys[lo..hi] && Ptrs(t) == ptrs[lo..hi + 1]
  {
    SliceAround(keys, lo, mid, hi);
    SliceAt(ptrs, lo, mid + 1, hi + 1);
  }

  lemma SliceAround(s: seq<int>, lo: nat, mid: nat, hi: nat)
    requires lo <= mid < hi <= |s|
    ensures s[lo..mid] + [s[mid]] + s[mid + 1..hi] == s[lo..hi]
  {
  }

  lemma SliceAt(s: seq<int>, lo: nat, mid: nat, hi: nat)
    requires lo <= mid <= hi <= |s|
    ensures s[lo..mid] + s[mid..hi] == s[lo..hi]
  {
  }

  function Depth(t: Tree): nat {
    match t
    case Leaf(_) => 0
    case Node(_, _, l, r) => 1 + if Depth(l) > Depth(r) then Depth(l) else Depth(r)
  }

  /** Fewer than 2^k keys give a tree of depth at most k. */
  lemma {:induction false} BalancedDepth(t: Tree, keys: seq<int>, ptrs: seq<Ptr>, lo: nat, hi: nat, base: nat, k: nat)
    requires lo <= hi <= |keys| && |ptrs| == |keys| + 1 && Balanced(t, keys, ptrs, lo, hi, base) && hi - lo < Pow2(k)
    ensures Depth(t) <= k
  {
    if t.Node? {
      var mid := Middle(lo, hi);
      BalancedDepth(t.left, keys, ptrs, lo, mid, base + 1, k - 1);
      BalancedDepth(t.right, keys, ptrs, mid + 1, hi, base + 1 + mid - lo, k - 1);
    }
  }

  // ----- entries

  /** An entry of a node. A side has either the number of another entry or, with the
      number -1, a child pointer. */
  datatype Entry = Entry(key: int, left: int, right: int, lPtr: Ptr, rPtr: Ptr)

  ghost predicate LinkOk(link: int, ptr: Ptr, child: Tree) {
    if child.Leaf? then link == -1 && ptr == child.ptr else link == child.loc
  }

  ghost predicate EntryOk(x: Entry, t: Tree)
    requires t.Node?
  {
    x.key == t.key && LinkOk(x.left, x.lPtr, t.left) && LinkOk(x.right, x.rPtr, t.right)
  }

  /** The entries store the tree. */
  ghost predicate Holds(e: seq<Entry>, t: Tree) {
    t.Node? ==> t.loc < |e| && EntryOk(e[t.loc], t) && Holds(e, t.left) && Holds(e, t.right)
  }

  ghost function Locs(t: Tree): set<nat> {
    if t.Leaf? then {} else Locs(t.left) + {t.loc} + Locs(t.right)
  }

  /** No entry is used twice. */
  ghost predicate Separate(t: Tree) {
    t.Node? ==>
      && Separate(t.left) && Separate(t.right)
      && t.loc !in Locs(t.left) && t.loc !in Locs(t.right) && Locs(t.left) !! Locs(t.right)
  }

  lemma {:induction false} HoldsFrame(e: seq<Entry>, e': seq<Entry>, t: Tree)
    requires Holds(e, t) && forall loc :: loc in Locs(t) ==> loc < |e| && loc < |e'| && e'[loc] == e[loc]
    ensures Holds(e', t)
  {
    if t.Node? {
      HoldsFrame(e, e', t.left);
      HoldsFrame(e, e', t.right);
    }
  }

  lemma {:induction false} SubLocs(t: Tree, p: Path)
    requires HasPath(t, p)
    ensures Locs(Sub(t, p)) <= Locs(t)
  {
    if p != [] { SubLocs(if p[0] then t.right else t.left, p[1..]); }
  }

  /** The child on a side. */
  ghost function Child(t: Tree, d: bool): Tree
    requires t.Node?
  {
    if d then t.right else t.left
  }

  /** Entries that store a tree in which one child of one node is replaced. */
  ghost predicate Replaced(e: seq<Entry>, e': seq<Entry>, t: Tree, p: Path, d: bool, u: Tree) {
    && HasPath(t, p) && Sub(t, p).Node?
    && var x := Sub(t, p);
    && x.loc < |e'| && EntryOk(e'[x.loc], Graft(x, [d], u)) && Holds(e', u)
    && forall loc :: loc in Locs(t) && loc != x.loc ==> loc < |e| && loc < |e'| && e'[loc] == e[loc]
  }

  lemma GraftChild(x: Tree, d: bool, u: Tree)
    requires x.Node?
    ensures HasPath(x, [d]) && Graft(x, [d], u) == if d then x.(right := u) else x.(left := u)
  {
    assert [d][1..] == [];
  }

  lemma {:induction false} GraftHolds(e: seq<Entry>, e': seq<Entry>, t: Tree, p: Path, d: bool, u: Tree)
    requires Holds(e, t) && Separate(t) && Replaced(e, e', t, p, d, u)
    ensures HasPath(t, p + [d]) && Holds(e', Graft(t, p + [d], u))
    decreases |p|
  {
    var x := Sub(t, p);
    if p == [] {
      assert p + [d] == [d];
      HoldsFrame(e, e', if d then t.left else t.right);
    } else {
      var c, other := Child(t, p[0]), Child(t, !p[0]);
      SubLocs(c, p[1..]);
      assert x.loc in Locs(x) && x.loc in Locs(c) && x.loc !in Locs(other);
      GraftHolds(e, e', c, p[1..], d, u);
      assert (p + [d])[1..] == p[1..] + [d] && (p + [d])[0] == p[0];
      HoldsFrame(e, e', other);
    }
  }

  lemma {:induction false} GraftLocs(t: Tree, p: Path, u: Tree)
    requires HasPath(t, p) && Sub(t, p).Leaf?
    ensures Locs(Graft(t, p, u)) == Locs(t) + Locs(u)
  {
    if p != [] { GraftLocs(if p[0] then t.right else t.left, p[1..], u); }
  }

  lemma {:induction false} GraftSeparate(t: Tree, p: Path, u: Tree)
    requires HasPath(t, p) && Sub(t, p).Leaf? && Separate(t) && Separate(u) && Locs(u) !! Locs(t)
    ensures Separate(Graft(t, p, u))
  {
    if p != [] {
      GraftSeparate(if p[0] then t.right else t.left, p[1..], u);
      GraftLocs(if p[0] then t.right else t.left, p[1..], u);
    }
  }

  lemma {:induction false} SubStep(t: Tree, p: Path, d: bool)
    requires HasPath(t, p) && Sub(t, p).Node?
    ensures HasPath(t, p + [d]) && Sub(t, p + [d]) == Child(Sub(t, p), d)
    decreases |p|
  {
    if p == [] {
      assert p + [d] == [d];
    } else {
      assert (p + [d])[0] == p[0] && (p + [d])[1..] == p[1..] + [d];
      SubStep(Child(t, p[0]), p[1..], d);
    }
  }

  lemma {:induction false} SubHolds(e: seq<Entry>, t: Tree, p: Path)
    requires Holds(e, t) && HasPath(t, p)
    ensures Holds(e, Sub(t, p))
  {
    if p != [] { SubHolds(e, Child(t, p[0]), p[1..]); }
  }

  // ----- adding a separator, and splitting

  /** Where a key is routed after a separator with its two children is added to the tree. */
  ghost function RouteWith(t: Tree, key: int, l: Ptr, r: Ptr, q: int): Ptr {
    if PathOf(t, q) != PathOf(t, key) then Route(t, q) else if q < key then l else r
  }

  /** That is what putting it in place of the leaf it is routed to does. */
  lemma AddedRoutes(t: Tree, loc: nat, key: int, l: Ptr, r: Ptr, q: int)
    ensures HasPath(t, PathOf(t, key))
    ensures Route(Graft(t, PathOf(t, key), Node(loc, key, Leaf(l), Leaf(r))), q) == RouteWith(t, key, l, r, q)
  {
    PathLeads(t, key);
    var u := Node(loc, key, Leaf(l), Leaf(r));
    if PathOf(t, q) == PathOf(t, key) {
      PathThrough(t, PathOf(t, key), q, u);
    } else {
      PathElsewhere(t, PathOf(t, key), u, q);
    }
  }

  /** Keys take the same way just when the same number of keys is up to them. */
  lemma {:induction false} SamePath(t: Tree, q: int, key: int)
    requires Bst(t)
    ensures PathOf(t, q) == PathOf(t, key) <==> CountLe(Keys(t), q) == CountLe(Keys(t), key)
  {
    if t.Node? {
      RankSplits(Keys(t.left), t.key, Keys(t.right), q);
      RankSplits(Keys(t.left), t.key, Keys(t.right), key);
      if (q < t.key) == (key < t.key) {
        var c := if q < t.key then t.left else t.right;
        SamePath(c, q, key);
        assert PathOf(t, q)[1..] == PathOf(c, q) && PathOf(t, key)[1..] == PathOf(c, key);
      } else {
        assert PathOf(t, q)[0] != PathOf(t, key)[0];
      }
    }
  }

  /** The two halves of a tree around its key number m. */
  ghost predicate Halves(t: Tree, m: nat, left: Tree, right: Tree) {
    && m < |Keys(t)|
    && Keys(left) == Keys(t)[..m] && Ptrs(left) == Ptrs(t)[..m + 1]
    && Keys(right) == Keys(t)[m + 1..] && Ptrs(right) == Ptrs(t)[m + 1..]
  }

  lemma HalfRank(t: Tree, m: nat, left: Tree, right: Tree, q: int)
    requires Bst(t) && Halves(t, m, left, right)
    ensures Bst(left) && Bst(right)
    ensures CountLe(Keys(t), q) == if q < Keys(t)[m] then CountLe(Keys(left), q) else m + 1 + CountLe(Keys(right), q)
  {
    RankAround(Keys(t), m, q);
  }

  lemma RankAround(s: seq<int>, m: nat, q: int)
    requires Increasing(s) && m < |s|
    ensures Increasing(s[..m]) && Increasing(s[m + 1..])
    ensures CountLe(s, q) == if q < s[m] then CountLe(s[..m], q) else m + 1 + CountLe(s[m + 1..], q)
  {
    assert s == s[..m] + [s[m]] + s[m + 1..];
    RankSplits(s[..m], s[m], s[m + 1..], q);
  }

  lemma PickAround(keys: seq<int>, ptrs: seq<Ptr>, m: nat, q: int)
    requires Increasing(keys) && m < |keys| && |ptrs| == |keys| + 1
    ensures ptrs[CountLe(keys, q)]
      == if q < keys[m] then ptrs[..m + 1][CountLe(keys[..m], q)] else ptrs[m + 1..][CountLe(keys[m + 1..], q)]
  {
    RankAround(keys, m, q);
  }

  /** Choosing a half by the middle key and searching there is searching the tree. */
  lemma HalfRoutes(t: Tree, m: nat, left: Tree, right: Tree, q: int)
    requires Bst(t) && Halves(t, m, left, right)
    ensures Route(t, q) == if q < Keys(t)[m] then Route(left, q) else Route(right, q)
  {
    var keys, ptrs := Keys(t), Ptrs(t);
    RankAround(keys, m, q);
    RouteByRank(t, q);
    RouteByRank(left, q);
    RouteByRank(right, q);
    PickAround(keys, ptrs, m, q);
  }

  /** A separator added to the half where it belongs routes every key as when it is added
      to the whole tree. */
  lemma SplitRoutes(t: Tree, m: nat, left: Tree, right: Tree, key: int, l: Ptr, r: Ptr, q: int)
    requires Bst(t) && Halves(t, m, left, right)
    ensures var median := Keys(t)[m];
      RouteWith(t, key, l, r, q)
      == if q < median then (if key < median then RouteWith(left, key, l, r, q) else Route(left, q))
         else if key < median then Route(right, q) else RouteWith(right, key, l, r, q)
  {
    HalfRank(t, m, left, right, q);
    HalfRank(t, m, left, right, key);
    HalfRoutes(t, m, left, right, q);
    SamePath(t, q, key);
    SamePath(left, q, key);
    SamePath(right, q, key);
  }

  lemma {:induction false} LocsCount(t: Tree)
    requires Separate(t)
    ensures |Locs(t)| == |Keys(t)|
  {
    if t.Node? {
      LocsCount(t.left);
      LocsCount(t.right);
    }
  }

  lemma {:induction false} SmallSet(s: set<nat>, n: nat)
    requires forall x :: x in s ==> x < n
    ensures |s| <= n
    decreases n
  {
    if n == 0 {
      assert s == {};
    } else {
      SmallSet(s - {n - 1}, n - 1);
    }
  }
}
