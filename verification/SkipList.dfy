/** The skip list with one writer and a reader that takes no lock: every store of Insert
    and every load of a search is a step of its own.  Keys are of any type, with a
    comparator that is a strict order. */
module SkipList {
  import opened Bits

  const HEAD: nat := 0
  const NIL: int := -1
  const MAX_HEIGHT: nat := 12

  datatype Node<K> = Node(key: K, next: seq<int>)

  /** Shared memory: the nodes, node 0 being the head, the current height, and the
      comparator, which never changes. */
  datatype Mem<!K> = Mem(nodes: seq<Node<K>>, maxHeight: nat, less: (K, K) -> bool) {
    predicate Lt(x: nat, y: nat)
      requires x < |nodes| && y < |nodes|
    {
      less(nodes[x].key, nodes[y].key)
    }

    function Key(x: nat): K
      requires x < |nodes|
    {
      nodes[x].key
    }

    function Next(x: nat, l: nat): int
      requires x < |nodes| && l < |nodes[x].next|
    {
      nodes[x].next[l]
    }

    function SetNext(x: nat, l: nat, v: int): Mem<K>
      requires x < |nodes| && l < |nodes[x].next|
    {
      this.(nodes := nodes[x := nodes[x].(next := nodes[x].next[l := v])])
    }
  }

  /** What is asked of a comparator. */
  ghost predicate Ordered<K(!new)>(less: (K, K) -> bool) {
    forall u {:trigger UnfoldAt(less, u)} :: UnfoldAt(less, u) ==>
      && (forall a: K :: !less(a, a))
      && (forall a: K, b: K, c: K {:trigger less(a, b), less(b, c)} :: less(a, b) && less(b, c) ==> less(a, c))
  }

  lemma Irreflexive<K(!new)>(less: (K, K) -> bool, a: K)
    requires Ordered(less)
    ensures !less(a, a)
  {
    assert UnfoldAt(less, 0);
  }

  lemma Transitive<K(!new)>(less: (K, K) -> bool, a: K, b: K, c: K)
    requires Ordered(less) && less(a, b) && less(b, c)
    ensures less(a, c)
  {
    assert UnfoldAt(less, 0);
  }

  // ----- the levels as sequences

  function Follower(s: seq<nat>, i: nat): int {
    if i + 1 < |s| then s[i + 1] else NIL
  }

  /** Node i of s has the next one as its link of level l. */
  ghost predicate LinkedAt<K(!new)>(m: Mem<K>, s: seq<nat>, l: nat, i: nat) {
    i < |s| && s[i] < |m.nodes| && l < |m.nodes[s[i]].next| && m.nodes[s[i]].next[l] == Follower(s, i)
  }

  /** Following the links of level l from the head visits exactly the nodes s, in
      increasing key order. */
  ghost predicate Chain<K(!new)>(m: Mem<K>, s: seq<nat>, l: nat) {
    && |s| > 0 && s[0] == HEAD
    && (forall i: nat :: i < |s| ==> s[i] < |m.nodes|)
    && (forall i: nat :: i < |s| ==> LinkedAt(m, s, l, i))
    && (forall i: nat, j: nat {:trigger m.Lt(s[i], s[j])} :: 0 < i < j < |s| ==> m.Lt(s[i], s[j]))
    && (forall i: nat :: 0 < i < |s| ==> s[i] != HEAD)
  }

  /** Position a is where key belongs in s: just after s[a]. */
  ghost predicate Splits<K(!new)>(m: Mem<K>, s: seq<nat>, a: nat, key: K) {
    && a < |s|
    && (forall i: nat :: i < |s| ==> s[i] < |m.nodes|)
    && (forall i: nat :: 0 < i <= a ==> m.less(m.Key(s[i]), key))
    && (forall i: nat :: a < i < |s| ==> m.less(key, m.Key(s[i])))
  }

  ghost predicate SubList(upper: seq<nat>, lower: seq<nat>) {
    forall x :: x in upper ==> x in lower
  }

  ghost predicate Lists<K(!new)>(m: Mem<K>, lists: seq<seq<nat>>) {
    |lists| == MAX_HEIGHT && 0 < m.maxHeight <= MAX_HEIGHT && Ordered(m.less) && Levels(m, lists)
  }

  ghost predicate Levels<K(!new)>(m: Mem<K>, lists: seq<seq<nat>>)
    requires |lists| == MAX_HEIGHT
  {
    forall u {:trigger UnfoldAt(lists, u)} :: UnfoldAt(lists, u) ==>
      && (forall l: nat :: l < MAX_HEIGHT ==> Chain(m, lists[l], l))
      && (forall l: nat :: l + 1 < MAX_HEIGHT ==> SubList(lists[l + 1], lists[l]))
      && (forall l: nat :: m.maxHeight <= l < MAX_HEIGHT ==> lists[l] == [HEAD])
  }

  lemma ChainOf<K(!new)>(m: Mem<K>, lists: seq<seq<nat>>, l: nat)
    requires Lists(m, lists) && l < MAX_HEIGHT
    ensures Chain(m, lists[l], l)
  {
    assert UnfoldAt(lists, 0);
  }

  /** Between insertions the bottom list is a sorted chain. */
  lemma BottomOf<K(!new)>(m: Mem<K>, lists: seq<seq<nat>>)
    requires InPhase(m, lists, Idle)
    ensures Lists(m, lists) && Chain(m, lists[0], 0)
  {
    var w: Writer<K> := Idle;
    assert UnfoldAt(w, 0);
    ChainOf(m, lists, 0);
  }

  lemma SubOf<K(!new)>(m: Mem<K>, lists: seq<seq<nat>>, l: nat)
    requires Lists(m, lists) && 0 < l < MAX_HEIGHT
    ensures SubList(lists[l], lists[l - 1])
  {
    assert UnfoldAt(lists, 0);
    assert SubList(lists[l - 1 + 1], lists[l - 1]);
  }

  lemma TopOf<K(!new)>(m: Mem<K>, lists: seq<seq<nat>>, l: nat)
    requires Lists(m, lists) && m.maxHeight <= l < MAX_HEIGHT
    ensures lists[l] == [HEAD]
  {
    assert UnfoldAt(lists, 0);
  }

  // ----- the writer

  /** Where Insert stands: waiting, about to raise the height, about to store the new
      node's link of level i, or about to publish the new node at level i. */
  datatype Writer<K> =
    | Idle
    | Raising(key: K, height: nat, prev: seq<nat>)
    | Setting(key: K, height: nat, prev: seq<nat>, x: nat, i: nat)
    | Linking(key: K, height: nat, prev: seq<nat>, x: nat, i: nat)

  /** prev names, for every level from `from` up, the node after which key belongs. */
  ghost predicate PrevOk<K(!new)>(m: Mem<K>, lists: seq<seq<nat>>, prev: seq<nat>, key: K, from: nat)
    requires |lists| == MAX_HEIGHT
  {
    && |prev| == MAX_HEIGHT
    && forall l: nat :: from <= l < MAX_HEIGHT ==> PrevAt(m, lists[l], prev[l], key)
  }

  ghost predicate PrevAt<K(!new)>(m: Mem<K>, s: seq<nat>, p: nat, key: K) {
    exists a: nat :: Splits(m, s, a, key) && s[a] == p
  }

  ghost predicate WriterOk<K(!new)>(m: Mem<K>, lists: seq<seq<nat>>, w: Writer<K>)
    requires |lists| == MAX_HEIGHT
  {
    match w
    case Idle => true
    case Raising(key, height, prev) =>
      0 < height <= MAX_HEIGHT && PrevOk(m, lists, prev, key, 0)
    case Setting(key, height, prev, x, i) =>
      && i < height <= m.maxHeight <= MAX_HEIGHT && PrevOk(m, lists, prev, key, i)
      && HEAD < x < |m.nodes| && m.nodes[x].key == key && |m.nodes[x].next| == height
      && (forall l: nat :: l < MAX_HEIGHT ==> (x in lists[l] <==> l < i))
    case Linking(key, height, prev, x, i) =>
      && i < height <= m.maxHeight <= MAX_HEIGHT && PrevOk(m, lists, prev, key, i)
      && HEAD < x < |m.nodes| && m.nodes[x].key == key && |m.nodes[x].next| == height
      && (forall l: nat :: l < MAX_HEIGHT ==> (x in lists[l] <==> l < i))
      && prev[i] < |m.nodes| && i < |m.nodes[prev[i]].next| && m.Next(x, i) == m.Next(prev[i], i)
  }

  // ----- the reader

  /** Where a search stands: before reading the height, at node x of some level, or
      finished with the last node below the target and the node after it.  No target
      means a search for the end of the list. */
  datatype Target<K> = Before(key: K) | End

  datatype Reader<K> =
    | Starting(target: Target<K>)
    | At(target: Target<K>, x: nat, level: nat)
    | Done(target: Target<K>, x: nat, n: int)

  predicate Below<K>(m: Mem<K>, t: Target<K>, key: K) {
    t.End? || m.less(key, t.key)
  }

  ghost predicate ReaderOk<K(!new)>(m: Mem<K>, lists: seq<seq<nat>>, r: Reader<K>)
    requires |lists| == MAX_HEIGHT
  {
    r.At? ==>
      && r.level < MAX_HEIGHT && r.x in lists[r.level]
      && r.x < |m.nodes| && (r.x != HEAD ==> Below(m, r.target, m.Key(r.x)))
  }

  /** x is the last node of s below the target (the head if there is none) and n the node
      after it (none if there is none). */
  ghost predicate Bound<K(!new)>(m: Mem<K>, s: seq<nat>, t: Target<K>, x: nat, n: int) {
    && (forall i: nat :: i < |s| ==> s[i] < |m.nodes|)
    && (exists a: nat :: BoundAt(m, s, t, a) && s[a] == x && n == Follower(s, a))
  }

  ghost predicate BoundAt<K(!new)>(m: Mem<K>, s: seq<nat>, t: Target<K>, a: nat)
    requires forall i: nat :: i < |s| ==> s[i] < |m.nodes|
  {
    && a < |s|
    && (forall i: nat :: 0 < i <= a ==> Below(m, t, m.Key(s[i])))
    && (forall i: nat :: a < i < |s| ==> !Below(m, t, m.Key(s[i])))
  }

  // ----- the whole system

  datatype Sys<!K> = Sys(m: Mem<K>, lists: seq<seq<nat>>, w: Writer<K>, r: Reader<K>)

  ghost predicate Inv<K(!new)>(s: Sys<K>) {
    Lists(s.m, s.lists) && WriterOk(s.m, s.lists, s.w) && ReaderOk(s.m, s.lists, s.r)
  }

  function Insertion(s: seq<nat>, a: nat, x: nat): seq<nat>
    requires a < |s|
  {
    s[..a + 1] + [x] + s[a + 1..]
  }

  /** The search of Insert is over; no shared location has been written yet. */
  ghost predicate Begin<K(!new)>(s: Sys<K>, s': Sys<K>) {
    && s.w == Idle && s'.w.Raising?
    && s'.m == s.m && s'.lists == s.lists && s'.r == s.r
    && |s.lists| == MAX_HEIGHT && 0 < s'.w.height <= MAX_HEIGHT && PrevOk(s.m, s.lists, s'.w.prev, s'.w.key, 0)
  }

  /** Store the new height if it is larger, and allocate the node; its links hold
      whatever the allocator left there. */
  ghost predicate Raise<K(!new)>(s: Sys<K>, s': Sys<K>) {
    && s.w.Raising? && s'.lists == s.lists && s'.r == s.r
    && |s'.m.nodes| == |s.m.nodes| + 1 && s'.m.less == s.m.less
    && s'.m.nodes[..|s.m.nodes|] == s.m.nodes
    && var x := |s.m.nodes|;
       && s'.m.nodes[x].key == s.w.key && |s'.m.nodes[x].next| == s.w.height
       && s'.m.maxHeight == (if s.w.height > s.m.maxHeight then s.w.height else s.m.maxHeight)
       && s'.w == Setting(s.w.key, s.w.height, s.w.prev, x, 0)
  }

  /** The node under construction and its predecessor have a link of level i. */
  ghost predicate InReach<K(!new)>(s: Sys<K>)
    requires s.w.Setting? || s.w.Linking?
  {
    && s.w.x < |s.m.nodes| && s.w.i < |s.m.nodes[s.w.x].next|
    && s.w.i < |s.w.prev| && s.w.prev[s.w.i] < |s.m.nodes| && s.w.i < |s.m.nodes[s.w.prev[s.w.i]].next|
  }

  ghost predicate Set<K(!new)>(s: Sys<K>, s': Sys<K>) {
    && s.w.Setting? && InReach(s)
    && s' == s.(
         m := s.m.SetNext(s.w.x, s.w.i, s.m.Next(s.w.prev[s.w.i], s.w.i)),
         w := Linking(s.w.key, s.w.height, s.w.prev, s.w.x, s.w.i))
  }

  ghost predicate Link<K(!new)>(s: Sys<K>, s': Sys<K>) {
    && s.w.Linking? && InReach(s) && s.w.i < |s.lists|
    && s'.m == s.m.SetNext(s.w.prev[s.w.i], s.w.i, s.w.x) && s'.r == s.r
    && s'.w == (if s.w.i + 1 < s.w.height then Setting(s.w.key, s.w.height, s.w.prev, s.w.x, s.w.i + 1) else Idle)
    && (exists a: nat :: Splits(s.m, s.lists[s.w.i], a, s.w.key) && s.lists[s.w.i][a] == s.w.prev[s.w.i]
         && s'.lists == s.lists[s.w.i := Insertion(s.lists[s.w.i], a, s.w.x)])
  }

  /** A search reads the height, possibly a stale one. */
  ghost predicate Start<K(!new)>(s: Sys<K>, s': Sys<K>) {
    && s.r.Starting? && s'.r.At? && s' == s.(r := At(s.r.target, HEAD, s'.r.level))
    && s'.r.level < s.m.maxHeight
  }

  /** A search loads one link and moves right, or down, or ends. */
  ghost predicate Load<K(!new)>(s: Sys<K>, s': Sys<K>) {
    && s.r.At? && s.r.x < |s.m.nodes| && s.r.level < |s.m.nodes[s.r.x].next|
    && var n := s.m.Next(s.r.x, s.r.level);
       && n < |s.m.nodes|
       && s' == s.(r :=
            if n >= 0 && Below(s.m, s.r.target, s.m.Key(n)) then At(s.r.target, n, s.r.level)
            else if s.r.level == 0 then Done(s.r.target, s.r.x, n)
            else At(s.r.target, s.r.x, s.r.level - 1))
  }

  ghost predicate Again<K(!new)>(s: Sys<K>, s': Sys<K>) {
    s.r.Done? && s'.r.Starting? && s' == s.(r := s'.r)
  }

  ghost predicate Next<K(!new)>(s: Sys<K>, s': Sys<K>) {
    Begin(s, s') || Raise(s, s') || Set(s, s') || Link(s, s') || Start(s, s') || Load(s, s') || Again(s, s')
  }

  ghost predicate Init<K(!new)>(s: Sys<K>) {
    && s.m.maxHeight == 1 && Ordered(s.m.less) && s.w == Idle && s.r.Starting?
    && |s.m.nodes| == 1 && s.m.nodes[0].next == seq(MAX_HEIGHT, _ => NIL)
    && s.lists == seq(MAX_HEIGHT, _ => [HEAD])
  }

  // ----- single-step facts

  lemma LinkChain<K(!new)>(m: Mem<K>, s: seq<nat>, l: nat, a: nat, x: nat)
    requires Chain(m, s, l) && Ordered(m.less) && x < |m.nodes| && l < |m.nodes[x].next| && x != HEAD && x !in s
    requires Splits(m, s, a, m.Key(x)) && m.Next(x, l) == Follower(s, a) && l < |m.nodes[s[a]].next|
    ensures Chain(m.SetNext(s[a], l, x), Insertion(s, a, x), l)
  {
    var m', t := m.SetNext(s[a], l, x), Insertion(s, a, x);
    Distinct(m, s, l);
    InsertionOrder(m, s, l, a, x);
    forall i: nat | i < |t| ensures LinkedAt(m', t, l, i) {
      LinkOne(m, s, l, a, x, i);
    }
    SameKeys(m, m', t);
  }

  lemma SameKeys<K(!new)>(m: Mem<K>, m': Mem<K>, t: seq<nat>)
    requires |m'.nodes| == |m.nodes| && forall y: nat :: y < |m.nodes| ==> m'.nodes[y].key == m.nodes[y].key
    requires m'.less == m.less && forall i: nat :: i < |t| ==> t[i] < |m.nodes|
    requires forall i: nat, j: nat :: 0 < i < j < |t| ==> m.Lt(t[i], t[j])
    ensures forall i: nat, j: nat :: 0 < i < j < |t| ==> m'.Lt(t[i], t[j])
  {
  }

  lemma InsertionAt(s: seq<nat>, a: nat, x: nat)
    requires a < |s|
    ensures var t := Insertion(s, a, x);
      && |t| == |s| + 1 && t[a + 1] == x
      && (forall i: nat :: i <= a ==> t[i] == s[i])
      && (forall i: nat :: a + 1 < i < |t| ==> t[i] == s[i - 1])
  {
  }

  lemma InsertionOrder<K(!new)>(m: Mem<K>, s: seq<nat>, l: nat, a: nat, x: nat)
    requires Chain(m, s, l) && x < |m.nodes| && x != HEAD && Splits(m, s, a, m.Key(x))
    ensures var t := Insertion(s, a, x);
      && t[0] == HEAD && (forall i: nat :: i < |t| ==> t[i] < |m.nodes|)
      && (forall i: nat :: 0 < i < |t| ==> t[i] != HEAD)
      && (forall i: nat, j: nat :: 0 < i < j < |t| ==> m.Lt(t[i], t[j]))
  {
    var t := Insertion(s, a, x);
    InsertionAt(s, a, x);
    forall i: nat, j: nat | 0 < i < j < |t| ensures m.Lt(t[i], t[j]) {
      if j <= a {
        assert m.Lt(s[i], s[j]);
      } else if i > a + 1 {
        assert m.Lt(s[i - 1], s[j - 1]);
      } else if i <= a && j > a + 1 {
        assert m.Lt(s[i], s[j - 1]);
      }
    }
  }

  lemma LinkOne<K(!new)>(m: Mem<K>, s: seq<nat>, l: nat, a: nat, x: nat, i: nat)
    requires Chain(m, s, l) && x < |m.nodes| && l < |m.nodes[x].next| && x !in s && a < |s|
    requires m.Next(x, l) == Follower(s, a) && l < |m.nodes[s[a]].next| && i < |s| + 1
    requires forall p: nat, q: nat :: p < q < |s| ==> s[p] != s[q]
    ensures var m', t := m.SetNext(s[a], l, x), Insertion(s, a, x);
      t[i] < |m'.nodes| && l < |m'.nodes[t[i]].next| && m'.nodes[t[i]].next[l] == Follower(t, i)
  {
    InsertionAt(s, a, x);
    if i <= a {
      assert LinkedAt(m, s, l, i);
    } else if i > a + 1 {
      assert LinkedAt(m, s, l, i - 1);
    }
  }

  lemma Distinct<K(!new)>(m: Mem<K>, s: seq<nat>, l: nat)
    requires Chain(m, s, l) && Ordered(m.less)
    ensures forall p: nat, q: nat :: p < q < |s| ==> s[p] != s[q]
  {
    forall p: nat, q: nat | p < q < |s| ensures s[p] != s[q] {
      if p > 0 {
        assert m.Lt(s[p], s[q]);
        Irreflexive(m.less, m.Key(s[p]));
      }
    }
  }

  /** Node y has the same key and the same link of level l in both memories. */
  ghost predicate SameAt<K(!new)>(m: Mem<K>, m': Mem<K>, y: nat, l: nat) {
    && y < |m.nodes| && y < |m'.nodes| && m'.nodes[y].key == m.nodes[y].key && m'.less == m.less
    && (l < |m.nodes[y].next| ==> l < |m'.nodes[y].next| && m'.nodes[y].next[l] == m.nodes[y].next[l])
  }

  /** Links of other nodes or levels do not matter to a chain. */
  lemma ChainFrame<K(!new)>(m: Mem<K>, m': Mem<K>, s: seq<nat>, l: nat)
    requires Chain(m, s, l)
    requires forall i: nat :: i < |s| ==> SameAt(m, m', s[i], l)
    ensures Chain(m', s, l)
  {
    forall i: nat | i < |s| ensures LinkedAt(m', s, l, i) {
      assert LinkedAt(m, s, l, i);
    }
    forall i: nat, j: nat | 0 < i < j < |s| ensures m'.Lt(s[i], s[j]) {
      assert m.Lt(s[i], s[j]);
    }
  }

  // ----- the invariant is kept

  lemma InitInv<K(!new)>(s: Sys<K>)
    requires Init(s)
    ensures Inv(s)
  {
  }

  lemma RaiseInv<K(!new)>(s: Sys<K>, s': Sys<K>)
    requires Inv(s) && Raise(s, s')
    ensures Inv(s')
  {
    var n := |s.m.nodes|;
    assert forall y: nat :: y < n ==> s'.m.nodes[y] == s'.m.nodes[..n][y];
    forall l: nat | l < MAX_HEIGHT ensures Chain(s'.m, s.lists[l], l) && n !in s.lists[l] {
      ChainOf(s.m, s.lists, l);
      ChainFrame(s.m, s'.m, s.lists[l], l);
    }
    PrevFrame(s.m, s'.m, s.lists, s.w.prev, s.w.key, 0, 0);
  }

  /** Predecessors stay right while the levels from `from` up and the keys do not change. */
  lemma PrevFrame<K(!new)>(m: Mem<K>, m': Mem<K>, lists: seq<seq<nat>>, prev: seq<nat>, key: K, from: nat, from': nat)
    requires |lists| == MAX_HEIGHT && PrevOk(m, lists, prev, key, from) && from <= from'
    requires |m.nodes| <= |m'.nodes| && forall y: nat :: y < |m.nodes| ==> m'.nodes[y].key == m.nodes[y].key
    requires m'.less == m.less
    ensures PrevOk(m', lists, prev, key, from')
  {
    forall l: nat | from' <= l < MAX_HEIGHT ensures PrevAt(m', lists[l], prev[l], key) {
      assert PrevAt(m, lists[l], prev[l], key);
      var a: nat :| Splits(m, lists[l], a, key) && lists[l][a] == prev[l];
      assert Splits(m', lists[l], a, key);
    }
  }

  lemma SetInv<K(!new)>(s: Sys<K>, s': Sys<K>)
    requires Inv(s) && Set(s, s')
    ensures Inv(s')
  {
    forall l: nat | l < MAX_HEIGHT ensures Chain(s'.m, s.lists[l], l) {
      ChainOf(s.m, s.lists, l);
      ChainFrame(s.m, s'.m, s.lists[l], l);
    }
    PrevFrame(s.m, s'.m, s.lists, s.w.prev, s.w.key, s.w.i, s.w.i);
    PrevOther(s.m, s.lists, s.w.prev, s.w.key, s.w.i, s.w.x);
  }

  /** A predecessor is not the new node. */
  lemma PrevOther<K(!new)>(m: Mem<K>, lists: seq<seq<nat>>, prev: seq<nat>, key: K, i: nat, x: nat)
    requires |lists| == MAX_HEIGHT && PrevOk(m, lists, prev, key, i) && i < MAX_HEIGHT && x !in lists[i]
    ensures prev[i] != x
  {
    assert PrevAt(m, lists[i], prev[i], key);
  }

  lemma LinkLists<K(!new)>(m: Mem<K>, m': Mem<K>, lists: seq<seq<nat>>, i: nat, a: nat, x: nat)
    requires Lists(m, lists) && i < m.maxHeight && x < |m.nodes| && x != HEAD && i < |m.nodes[x].next|
    requires forall l: nat :: l < MAX_HEIGHT ==> (x in lists[l] <==> l < i)
    requires Splits(m, lists[i], a, m.Key(x)) && m.Next(x, i) == Follower(lists[i], a) && i < |m.nodes[lists[i][a]].next|
    requires m' == m.SetNext(lists[i][a], i, x)
    ensures Lists(m', lists[i := Insertion(lists[i], a, x)])
  {
    var t := Insertion(lists[i], a, x);
    var lists' := lists[i := t];
    forall l: nat | m.maxHeight <= l < MAX_HEIGHT ensures lists'[l] == [HEAD] { TopOf(m, lists, l); }
    forall l: nat | l < MAX_HEIGHT ensures Chain(m', lists'[l], l) {
      LinkedChain(m, m', lists, i, a, x, l);
    }
    forall l: nat | l + 1 < MAX_HEIGHT ensures SubList(lists'[l + 1], lists'[l]) {
      LinkedSub(m, lists, i, a, x, l + 1);
    }
  }

  lemma LinkedChain<K(!new)>(m: Mem<K>, m': Mem<K>, lists: seq<seq<nat>>, i: nat, a: nat, x: nat, l: nat)
    requires Lists(m, lists) && i < m.maxHeight && x < |m.nodes| && x != HEAD && i < |m.nodes[x].next| && x !in lists[i]
    requires Splits(m, lists[i], a, m.Key(x)) && m.Next(x, i) == Follower(lists[i], a) && i < |m.nodes[lists[i][a]].next|
    requires m' == m.SetNext(lists[i][a], i, x) && l < MAX_HEIGHT
    ensures Chain(m', lists[i := Insertion(lists[i], a, x)][l], l)
  {
    ChainOf(m, lists, l);
    if l == i {
      LinkChain(m, lists[i], i, a, x);
    } else {
      ChainFrame(m, m', lists[l], l);
    }
  }

  lemma LinkedSub<K(!new)>(m: Mem<K>, lists: seq<seq<nat>>, i: nat, a: nat, x: nat, l: nat)
    requires Lists(m, lists) && i < MAX_HEIGHT && a < |lists[i]| && 0 < l < MAX_HEIGHT
    requires forall l: nat :: l < MAX_HEIGHT ==> (x in lists[l] <==> l < i)
    ensures var lists' := lists[i := Insertion(lists[i], a, x)]; SubList(lists'[l], lists'[l - 1])
  {
    SubOf(m, lists, l);
    InsertionMembers(lists[i], a, x);
  }

  lemma InsertionMembers(s: seq<nat>, a: nat, x: nat)
    requires a < |s|
    ensures forall y :: y in Insertion(s, a, x) <==> y in s || y == x
  {
    assert s == s[..a + 1] + s[a + 1..];
  }

  lemma LinkInv<K(!new)>(s: Sys<K>, s': Sys<K>)
    requires Inv(s) && Link(s, s')
    ensures Inv(s')
  {
    var i, x := s.w.i, s.w.x;
    var a: nat :| Splits(s.m, s.lists[i], a, s.w.key) && s.lists[i][a] == s.w.prev[i]
                  && s'.lists == s.lists[i := Insertion(s.lists[i], a, x)];
    LinkAt(s, s', a);
  }

  lemma LinkAt<K(!new)>(s: Sys<K>, s': Sys<K>, a: nat)
    requires Inv(s) && s.w.Linking? && InReach(s)
    requires s'.m == s.m.SetNext(s.w.prev[s.w.i], s.w.i, s.w.x) && s'.r == s.r
    requires s'.w == (if s.w.i + 1 < s.w.height then Setting(s.w.key, s.w.height, s.w.prev, s.w.x, s.w.i + 1) else Idle)
    requires Splits(s.m, s.lists[s.w.i], a, s.w.key) && s.lists[s.w.i][a] == s.w.prev[s.w.i]
    requires s'.lists == s.lists[s.w.i := Insertion(s.lists[s.w.i], a, s.w.x)]
    ensures Inv(s')
  {
    var i, x := s.w.i, s.w.x;
    LinkNext(s, a);
    LinkLists(s.m, s'.m, s.lists, i, a, x);
    InsertionMembers(s.lists[i], a, x);
    LinkWriter(s, s');
    LinkReader(s.m, s'.m, s.lists, s'.lists, s.r);
  }

  /** A search in progress is not disturbed: its node stays on its level. */
  lemma LinkReader<K(!new)>(m: Mem<K>, m': Mem<K>, lists: seq<seq<nat>>, lists': seq<seq<nat>>, r: Reader<K>)
    requires |lists| == |lists'| == MAX_HEIGHT && ReaderOk(m, lists, r)
    requires |m.nodes| == |m'.nodes| && forall y: nat :: y < |m.nodes| ==> m'.nodes[y].key == m.nodes[y].key
    requires m'.less == m.less && forall l: nat :: l < MAX_HEIGHT ==> SubList(lists[l], lists'[l])
    ensures ReaderOk(m', lists', r)
  {
    if r.At? { assert SubList(lists[r.level], lists'[r.level]); }
  }

  lemma LinkWriter<K(!new)>(s: Sys<K>, s': Sys<K>)
    requires |s.lists| == MAX_HEIGHT && WriterOk(s.m, s.lists, s.w)
    requires s.w.Linking? && InReach(s) && |s'.lists| == MAX_HEIGHT
    requires s'.m == s.m.SetNext(s.w.prev[s.w.i], s.w.i, s.w.x)
    requires s'.w == (if s.w.i + 1 < s.w.height then Setting(s.w.key, s.w.height, s.w.prev, s.w.x, s.w.i + 1) else Idle)
    requires forall l: nat :: l < MAX_HEIGHT && l != s.w.i ==> s'.lists[l] == s.lists[l]
    requires s.w.x in s'.lists[s.w.i]
    ensures WriterOk(s'.m, s'.lists, s'.w)
  {
    var i := s.w.i;
    if i + 1 < s.w.height {
      PrevFrame(s.m, s'.m, s.lists, s.w.prev, s.w.key, i, i + 1);
      PrevHigher(s'.m, s.lists, s'.lists, s.w.prev, s.w.key, i);
    }
  }

  lemma LinkNext<K(!new)>(s: Sys<K>, a: nat)
    requires Inv(s) && s.w.Linking? && InReach(s)
    requires a < |s.lists[s.w.i]| && s.lists[s.w.i][a] == s.w.prev[s.w.i]
    ensures s.m.Next(s.w.x, s.w.i) == Follower(s.lists[s.w.i], a)
  {
    var i := s.w.i;
    ChainOf(s.m, s.lists, i);
    assert LinkedAt(s.m, s.lists[i], i, a);
  }

  lemma PrevHigher<K(!new)>(m: Mem<K>, lists: seq<seq<nat>>, lists': seq<seq<nat>>, prev: seq<nat>, key: K, i: nat)
    requires |lists| == MAX_HEIGHT == |lists'| && PrevOk(m, lists, prev, key, i + 1)
    requires forall l: nat :: i < l < MAX_HEIGHT ==> lists'[l] == lists[l]
    ensures PrevOk(m, lists', prev, key, i + 1)
  {
  }

  /** One load keeps the search inside the level it is on; the last one finds the bound. */
  lemma LoadInv<K(!new)>(s: Sys<K>, s': Sys<K>)
    requires Inv(s) && Load(s, s')
    ensures Inv(s')
    ensures s'.r.Done? ==> Bound(s'.m, s'.lists[0], s'.r.target, s'.r.x, s'.r.n)
  {
    var l, x := s.r.level, s.r.x;
    var c := s.lists[l];
    ChainOf(s.m, s.lists, l);
    var a: nat :| a < |c| && c[a] == x;
    assert LinkedAt(s.m, c, l, a);
    if s'.r.Done? {
      Stopped(s.m, c, l, a, s.r.target);
    } else if l > 0 && s'.r.level == l - 1 {
      SubOf(s.m, s.lists, l);
    }
  }

  lemma NextInv<K(!new)>(s: Sys<K>, s': Sys<K>)
    requires Inv(s) && Next(s, s')
    ensures Inv(s')
    ensures !s.r.Done? && s'.r.Done? ==> Bound(s'.m, s'.lists[0], s'.r.target, s'.r.x, s'.r.n)
  {
    if Raise(s, s') { RaiseInv(s, s'); }
    else if Set(s, s') { SetInv(s, s'); }
    else if Link(s, s') { LinkInv(s, s'); }
    else if Load(s, s') { LoadInv(s, s'); }
    else if Start(s, s') { ChainOf(s.m, s.lists, s'.r.level); }
  }

  ghost predicate Run<K(!new)>(run: seq<Sys<K>>) {
    |run| > 0 && Init(run[0]) && forall k: nat :: k + 1 < |run| ==> Next(run[k], run[k + 1])
  }

  lemma {:induction false} RunInv<K(!new)>(run: seq<Sys<K>>, k: nat)
    requires Run(run) && k < |run|
    ensures Inv(run[k])
  {
    if k == 0 { InitInv(run[0]); }
    else {
      RunInv(run, k - 1);
      assert Next(run[k - 1], run[k - 1 + 1]);
      NextInv(run[k - 1], run[k]);
    }
  }

  /** In every interleaving of the stores of any number of insertions with the loads of a
      search, the search ends with the exact bound of its target in the bottom list as it
      is at the moment of its last load; and after every single store all levels are
      sorted, null-terminated sub-lists of the level below. */
  lemma SearchExact<K(!new)>(run: seq<Sys<K>>, k: nat)
    requires Run(run) && k + 1 < |run| && !run[k].r.Done? && run[k + 1].r.Done?
    ensures Lists(run[k].m, run[k].lists) && Lists(run[k + 1].m, run[k + 1].lists)
    ensures var s := run[k + 1]; Bound(s.m, s.lists[0], s.r.target, s.r.x, s.r.n)
  {
    RunInv(run, k);
    RunInv(run, k + 1);
    assert Next(run[k], run[k + 1]);
    NextInv(run[k], run[k + 1]);
  }

  /** No search ever reads a link that has not been written: the link it loads next is
      null or leads to a node of its level. */
  lemma LoadSafe<K(!new)>(s: Sys<K>)
    requires Inv(s) && s.r.At?
    ensures s.r.x < |s.m.nodes| && s.r.level < |s.m.nodes[s.r.x].next|
    ensures var n := s.m.Next(s.r.x, s.r.level); n == NIL || (0 <= n < |s.m.nodes| && n as nat in s.lists[s.r.level])
    ensures exists s' :: Load(s, s')
  {
    var l, x := s.r.level, s.r.x;
    var c := s.lists[l];
    ChainOf(s.m, s.lists, l);
    var a: nat :| a < |c| && c[a] == x;
    assert LinkedAt(s.m, c, l, a);
    var n := s.m.Next(x, l);
    var s' := s.(r :=
      if n >= 0 && Below(s.m, s.r.target, s.m.Key(n)) then At(s.r.target, n, l)
      else if l == 0 then Done(s.r.target, x, n) else At(s.r.target, x, l - 1));
    assert Load(s, s');
  }

  /** These are loads of one search, one after the other. */
  ghost predicate Loads<K(!new)>(path: seq<Sys<K>>) {
    |path| > 0 && forall k: nat :: k + 1 < |path| ==> Load(path[k], path[k + 1])
  }

  lemma LoadsBy<K(!new)>(s: Sys<K>, path: seq<Sys<K>>)
    requires Loads(path) && Load(s, path[0])
    ensures Loads([s] + path)
  {
    var path' := [s] + path;
    forall k: nat | k + 1 < |path'| ensures Load(path'[k], path'[k + 1]) {
      if k > 0 { assert path'[k] == path[k - 1] && path'[k + 1] == path[k]; }
    }
  }

  /** A load moves to the next node of the level, or down to the same node, or ends. */
  lemma LoadMoves<K(!new)>(s: Sys<K>, a: nat) returns (s': Sys<K>, a': nat)
    requires Inv(s) && s.r.At? && a < |s.lists[s.r.level]| && s.lists[s.r.level][a] == s.r.x
    ensures Load(s, s') && Inv(s') && s'.lists == s.lists
    ensures s'.r.Done? ||
      (&& s'.r.At? && a' < |s.lists[s'.r.level]| && s.lists[s'.r.level][a'] == s'.r.x
       && (s'.r.level < s.r.level || (s'.r.level == s.r.level && a' == a + 1)))
  {
    var l, c := s.r.level, s.lists[s.r.level];
    LoadSafe(s);
    s' :| Load(s, s');
    LoadInv(s, s');
    ChainOf(s.m, s.lists, l);
    assert LinkedAt(s.m, c, l, a);
    a' := a + 1;
    if s'.r.At? && s'.r.level < l {
      a' :| a' < |s.lists[s'.r.level]| && s.lists[s'.r.level][a'] == s'.r.x;
    }
  }

  /** A search that is not held up ends: its loads alone lead to a result. */
  lemma {:induction false} SearchEnds<K(!new)>(s: Sys<K>, a: nat) returns (path: seq<Sys<K>>)
    requires Inv(s) && s.r.At? && a < |s.lists[s.r.level]| && s.lists[s.r.level][a] == s.r.x
    ensures Loads(path) && path[0] == s && path[|path| - 1].r.Done?
    decreases s.r.level, |s.lists[s.r.level]| - a
  {
    var s', a' := LoadMoves(s, a);
    if s'.r.Done? {
      path := [s, s'];
      assert path[0] == s && path[1] == s';
    } else {
      path := SearchEnds(s', a');
      LoadsBy(s, path);
      var path' := [s] + path;
      assert path'[|path'| - 1] == path[|path| - 1];
      path := path';
    }
  }

  /** The keys of the nodes c, the head aside. */
  ghost function Keys<K(!new)>(m: Mem<K>, c: seq<nat>): set<K> {
    set i: nat | 0 < i < |c| && c[i] < |m.nodes| :: m.nodes[c[i]].key
  }

  /** A key becomes visible by the single store that links its node at the bottom level;
      no other step changes the set of keys. */
  lemma KeysStep<K(!new)>(s: Sys<K>, s': Sys<K>)
    requires Inv(s) && Next(s, s')
    ensures |s'.lists| > 0
    ensures Keys(s'.m, s'.lists[0]) == Keys(s.m, s.lists[0]) + (if Link(s, s') && s.w.i == 0 then {s.w.key} else {})
  {
    var c := s.lists[0];
    ChainOf(s.m, s.lists, 0);
    if Link(s, s') {
      KeysLink(s, s');
    } else if Raise(s, s') {
      KeysRaise(s, s');
    } else if Set(s, s') {
      KeysSame(s.m, s'.m, c);
    }
  }

  lemma KeysRaise<K(!new)>(s: Sys<K>, s': Sys<K>)
    requires Inv(s) && Raise(s, s')
    ensures Keys(s'.m, s'.lists[0]) == Keys(s.m, s.lists[0])
  {
    ChainOf(s.m, s.lists, 0);
    assert forall y: nat :: y < |s.m.nodes| ==> s'.m.nodes[y] == s'.m.nodes[..|s.m.nodes|][y];
    KeysSame(s.m, s'.m, s.lists[0]);
  }

  lemma KeysLink<K(!new)>(s: Sys<K>, s': Sys<K>)
    requires Inv(s) && Link(s, s')
    ensures |s'.lists| > 0
    ensures Keys(s'.m, s'.lists[0]) == Keys(s.m, s.lists[0]) + (if s.w.i == 0 then {s.w.key} else {})
  {
    if s.w.i == 0 {
      KeysLinked(s, s');
    } else {
      ChainOf(s.m, s.lists, 0);
      KeysSame(s.m, s'.m, s.lists[0]);
    }
  }

  lemma KeysSame<K(!new)>(m: Mem<K>, m': Mem<K>, c: seq<nat>)
    requires forall i: nat :: i < |c| ==> c[i] < |m.nodes| <= |m'.nodes|
    requires forall i: nat :: i < |c| ==> m'.nodes[c[i]].key == m.nodes[c[i]].key
    ensures Keys(m', c) == Keys(m, c)
  {
  }

  lemma KeysLinked<K(!new)>(s: Sys<K>, s': Sys<K>)
    requires Inv(s) && Link(s, s') && s.w.i == 0
    ensures |s'.lists| > 0 && Keys(s'.m, s'.lists[0]) == Keys(s.m, s.lists[0]) + {s.w.key}
  {
    var c := s.lists[0];
    ChainOf(s.m, s.lists, 0);
    var a: nat :| Splits(s.m, c, a, s.w.key) && c[a] == s.w.prev[0] && s'.lists == s.lists[0 := Insertion(c, a, s.w.x)];
    InsertionKeys(s.m, s'.m, c, a, s.w.x);
  }

  lemma InsertionKeys<K(!new)>(m: Mem<K>, m': Mem<K>, c: seq<nat>, a: nat, x: nat)
    requires a < |c| && |m'.nodes| == |m.nodes| && x < |m.nodes|
    requires forall i: nat :: i < |c| ==> c[i] < |m.nodes|
    requires forall y: nat :: y < |m.nodes| ==> m'.nodes[y].key == m.nodes[y].key
    ensures Keys(m', Insertion(c, a, x)) == Keys(m, c) + {m.Key(x)}
  {
    var t := Insertion(c, a, x);
    assert forall i: nat :: i <= a ==> t[i] == c[i];
    assert t[a + 1] == x;
    assert forall i: nat :: a + 1 < i < |t| ==> t[i] == c[i - 1];
    forall i: nat | 0 < i < |c| ensures exists j: nat :: 0 < j < |t| && t[j] == c[i] {
      var j := if i <= a then i else i + 1;
      assert t[j] == c[i];
    }
  }

  // ----- the sequential code

  /** What a load at position a of a level returns. */
  lemma Loaded<K(!new)>(m: Mem<K>, lists: seq<seq<nat>>, l: nat, a: nat)
    requires Lists(m, lists) && l < MAX_HEIGHT && a < |lists[l]|
    ensures var x := lists[l][a];
      && x < |m.nodes| && l < |m.nodes[x].next| && m.Next(x, l) == Follower(lists[l], a)
      && (a + 1 < |lists[l]| ==> lists[l][a + 1] < |m.nodes| && lists[l][a + 1] != HEAD)
  {
    ChainOf(m, lists, l);
    assert LinkedAt(m, lists[l], l, a);
  }

  /** Stopping at position a: everything up to it is below the key, nothing after it is. */
  lemma Stopped<K(!new)>(m: Mem<K>, s: seq<nat>, l: nat, a: nat, t: Target<K>)
    requires Chain(m, s, l) && Ordered(m.less) && a < |s|
    requires a > 0 ==> Below(m, t, m.Key(s[a]))
    requires a + 1 < |s| ==> !Below(m, t, m.Key(s[a + 1]))
    ensures Bounds(m, s, t, s[a]) && Bound(m, s, t, s[a], Follower(s, a))
  {
    forall i: nat | 0 < i <= a ensures Below(m, t, m.Key(s[i])) {
      if i < a && t.Before? {
        assert m.Lt(s[i], s[a]);
        Transitive(m.less, m.Key(s[i]), m.Key(s[a]), t.key);
      }
    }
    forall i: nat | a < i < |s| ensures !Below(m, t, m.Key(s[i])) {
      if a + 1 < i && Below(m, t, m.Key(s[i])) {
        assert m.Lt(s[a + 1], s[i]);
        if t.Before? { Transitive(m.less, m.Key(s[a + 1]), m.Key(s[i]), t.key); }
      }
    }
    assert BoundAt(m, s, t, a);
  }

  lemma StoppedAt<K(!new)>(m: Mem<K>, lists: seq<seq<nat>>, l: nat, a: nat, t: Target<K>)
    requires Lists(m, lists) && l < MAX_HEIGHT && a < |lists[l]| && lists[l][a] < |m.nodes|
    requires a > 0 ==> Below(m, t, m.Key(lists[l][a]))
    requires a + 1 < |lists[l]| ==> lists[l][a + 1] < |m.nodes| && !Below(m, t, m.Key(lists[l][a + 1]))
    ensures Bounds(m, lists[l], t, lists[l][a])
    ensures Bound(m, lists[l], t, lists[l][a], Follower(lists[l], a))
  {
    ChainOf(m, lists, l);
    Stopped(m, lists[l], l, a, t);
  }

  lemma Down<K(!new)>(m: Mem<K>, lists: seq<seq<nat>>, l: nat, a: nat) returns (b: nat)
    requires Lists(m, lists) && 0 < l < MAX_HEIGHT && a < |lists[l]|
    ensures b < |lists[l - 1]| && lists[l - 1][b] == lists[l][a]
    ensures b == 0 <==> lists[l][a] == HEAD
  {
    SubOf(m, lists, l);
    ChainOf(m, lists, l - 1);
    var lower, x := lists[l - 1], lists[l][a];
    assert x in lower;
    b :| b < |lower| && lower[b] == x;
  }

  lemma NodesInRange<K(!new)>(m: Mem<K>, lists: seq<seq<nat>>, l: nat)
    requires Lists(m, lists) && l < MAX_HEIGHT
    ensures |lists[l]| > 0 && lists[l][0] == HEAD && forall i: nat :: i < |lists[l]| ==> lists[l][i] < |m.nodes|
    ensures l >= m.maxHeight ==> Bounds(m, lists[l], End, HEAD) && lists[l] == [HEAD]
  {
    ChainOf(m, lists, l);
    if l >= m.maxHeight {
      TopOf(m, lists, l);
      assert BoundAt(m, lists[l], End, 0);
    }
  }

  /** No node of the list compares equal to the key. */
  ghost predicate Fresh<K(!new)>(m: Mem<K>, c: seq<nat>, key: K) {
    forall i: nat :: 0 < i < |c| && c[i] < |m.nodes| ==> m.less(m.Key(c[i]), key) || m.less(key, m.Key(c[i]))
  }

  /** The earliest node at or after the key, with the last node before it on each level. */
  method FindGreaterOrEqual<K(!new)>(m: Mem<K>, key: K, ghost lists: seq<seq<nat>>) returns (n: int, prev: seq<nat>)
    requires Lists(m, lists)
    ensures |prev| == MAX_HEIGHT && Bound(m, lists[0], Before(key), prev[0], n)
    ensures Fresh(m, lists[0], key) ==> PrevOk(m, lists, prev, key, 0)
  {
    var x: nat := HEAD;
    var level: nat := m.maxHeight - 1;
    prev := seq(MAX_HEIGHT, _ => HEAD);
    ghost var a: nat := 0;
    NodesInRange(m, lists, level);
    HeadBounds(m, lists, key);
    while true
      invariant level < m.maxHeight && |prev| == MAX_HEIGHT
      invariant a < |lists[level]| && lists[level][a] == x && x < |m.nodes| && (a == 0 <==> x == HEAD)
      invariant a > 0 ==> m.less(m.Key(x), key)
      invariant forall l: nat :: level < l < MAX_HEIGHT ==> Bounds(m, lists[l], Before(key), prev[l])
      decreases level, |lists[level]| - a
    {
      Loaded(m, lists, level, a);
      var next := m.Next(x, level);
      if next >= 0 && m.less(m.Key(next), key) {
        x := next;
        a := a + 1;
      } else {
        StoppedAt(m, lists, level, a, Before(key));
        prev := prev[level := x];
        if level == 0 {
          n := next;
          break;
        }
        a := Down(m, lists, level, a);
        level := level - 1;
      }
    }
    if Fresh(m, lists[0], key) {
      PrevFromBounds(m, lists, prev, key);
    }
  }

  lemma HeadBounds<K(!new)>(m: Mem<K>, lists: seq<seq<nat>>, key: K)
    requires Lists(m, lists)
    ensures forall l: nat :: m.maxHeight <= l < MAX_HEIGHT ==> Bounds(m, lists[l], Before(key), HEAD)
  {
    forall l: nat | m.maxHeight <= l < MAX_HEIGHT ensures Bounds(m, lists[l], Before(key), HEAD) {
      NodesInRange(m, lists, l);
      assert BoundAt(m, lists[l], Before(key), 0);
    }
  }

  /** p is the last node of the level below the target. */
  ghost predicate Bounds<K(!new)>(m: Mem<K>, s: seq<nat>, t: Target<K>, p: nat) {
    && (forall i: nat :: i < |s| ==> s[i] < |m.nodes|)
    && exists a: nat :: BoundAt(m, s, t, a) && s[a] == p
  }

  lemma PrevFromBounds<K(!new)>(m: Mem<K>, lists: seq<seq<nat>>, prev: seq<nat>, key: K)
    requires Lists(m, lists) && |prev| == MAX_HEIGHT && Fresh(m, lists[0], key)
    requires forall l: nat :: l < MAX_HEIGHT ==> Bounds(m, lists[l], Before(key), prev[l])
    ensures PrevOk(m, lists, prev, key, 0)
  {
    forall l: nat | l < MAX_HEIGHT ensures PrevAt(m, lists[l], prev[l], key) {
      assert Bounds(m, lists[l], Before(key), prev[l]);
      PrevFromBound(m, lists, l, prev[l], key);
    }
  }

  lemma PrevFromBound<K(!new)>(m: Mem<K>, lists: seq<seq<nat>>, l: nat, p: nat, key: K)
    requires Lists(m, lists) && l < MAX_HEIGHT && Fresh(m, lists[0], key) && Bounds(m, lists[l], Before(key), p)
    ensures PrevAt(m, lists[l], p, key)
  {
    var s := lists[l];
    var a: nat :| BoundAt(m, s, Before(key), a) && s[a] == p;
    forall i: nat | a < i < |s| ensures m.less(key, m.Key(s[i])) {
      var j := AtBottom(m, lists, l, i);
    }
    assert Splits(m, s, a, key);
  }

  lemma {:induction false} InBottom<K(!new)>(m: Mem<K>, lists: seq<seq<nat>>, l: nat, x: nat)
    requires Lists(m, lists) && l < MAX_HEIGHT && x in lists[l]
    ensures x in lists[0]
  {
    if l > 0 {
      SubOf(m, lists, l);
      InBottom(m, lists, l - 1, x);
    }
  }

  lemma AtBottom<K(!new)>(m: Mem<K>, lists: seq<seq<nat>>, l: nat, i: nat) returns (j: nat)
    requires Lists(m, lists) && l < MAX_HEIGHT && 0 < i < |lists[l]|
    ensures lists[l][i] < |m.nodes| && 0 < j < |lists[0]| && lists[0][j] == lists[l][i]
  {
    ChainOf(m, lists, l);
    ChainOf(m, lists, 0);
    InBottom(m, lists, l, lists[l][i]);
    j :| j < |lists[0]| && lists[0][j] == lists[l][i];
  }

  /** Node x is on the levels below h and on no other. */
  ghost predicate OnLevels(lists: seq<seq<nat>>, x: nat, h: nat) {
    |lists| == MAX_HEIGHT && forall l: nat :: l < MAX_HEIGHT ==> (x in lists[l] <==> l < h)
  }

  /** The system between insertions, with no search under way. */
  ghost function Quiet<K(!new)>(m: Mem<K>, lists: seq<seq<nat>>, w: Writer<K>): Sys<K> {
    Sys(m, lists, w, Starting(End))
  }

  /** The invariant of the system in one of the phases of an insertion. */
  ghost predicate InPhase<K(!new)>(m: Mem<K>, lists: seq<seq<nat>>, w: Writer<K>) {
    forall u {:trigger UnfoldAt(w, u)} :: UnfoldAt(w, u) ==> Inv(Quiet(m, lists, w))
  }

  lemma AllocateStep<K(!new)>(m: Mem<K>, m': Mem<K>, lists: seq<seq<nat>>, key: K, height: nat, prev: seq<nat>)
    requires InPhase(m, lists, Raising(key, height, prev))
    requires |m'.nodes| == |m.nodes| + 1 && m'.nodes[..|m.nodes|] == m.nodes && m'.less == m.less
    requires m'.nodes[|m.nodes|].key == key && |m'.nodes[|m.nodes|].next| == height
    requires m'.maxHeight == if height > m.maxHeight then height else m.maxHeight
    ensures InPhase(m', lists, Setting(key, height, prev, |m.nodes|, 0)) && OnLevels(lists, |m.nodes|, 0)
    ensures |lists| == MAX_HEIGHT && Keys(m', lists[0]) == Keys(m, lists[0])
  {
    assert UnfoldAt(Raising(key, height, prev), 0);
    var s, s' := Quiet(m, lists, Raising(key, height, prev)), Quiet(m', lists, Setting(key, height, prev, |m.nodes|, 0));
    assert Raise(s, s');
    RaiseInv(s, s');
    KeysStep(s, s');
  }

  lemma StoreStep<K(!new)>(m: Mem<K>, lists: seq<seq<nat>>, key: K, height: nat, prev: seq<nat>, x: nat, i: nat)
    requires InPhase(m, lists, Setting(key, height, prev, x, i))
    ensures InReach(Quiet(m, lists, Setting(key, height, prev, x, i)))
    ensures var m' := m.SetNext(x, i, m.Next(prev[i], i));
      InPhase(m', lists, Linking(key, height, prev, x, i)) && |lists| == MAX_HEIGHT && Keys(m', lists[0]) == Keys(m, lists[0])
  {
    assert UnfoldAt(Setting(key, height, prev, x, i), 0);
    var s := Quiet(m, lists, Setting(key, height, prev, x, i));
    var a := PrevPosition(s);
    var s' := Quiet(m.SetNext(x, i, m.Next(prev[i], i)), lists, Linking(key, height, prev, x, i));
    assert Set(s, s');
    SetInv(s, s');
    KeysStep(s, s');
  }

  /** The phase after the node is published at level i. */
  ghost function AfterLink<K(!new)>(key: K, height: nat, prev: seq<nat>, x: nat, i: nat): Writer<K> {
    if i + 1 < height then Setting(key, height, prev, x, i + 1) else Idle
  }

  lemma PublishStep<K(!new)>(m: Mem<K>, lists: seq<seq<nat>>, key: K, height: nat, prev: seq<nat>, x: nat, i: nat)
    returns (lists': seq<seq<nat>>)
    requires InPhase(m, lists, Linking(key, height, prev, x, i))
    ensures InReach(Quiet(m, lists, Linking(key, height, prev, x, i))) && |lists| == |lists'| == MAX_HEIGHT
    ensures var m' := m.SetNext(prev[i], i, x);
      && InPhase(m', lists', AfterLink(key, height, prev, x, i)) && x < |m'.nodes| && m'.Key(x) == key
      && Keys(m', lists'[0]) == Keys(m, lists[0]) + (if i == 0 then {key} else {})
    ensures OnLevels(lists', x, i + 1)
  {
    assert UnfoldAt(Linking(key, height, prev, x, i), 0);
    var s := Quiet(m, lists, Linking(key, height, prev, x, i));
    var a := PrevPosition(s);
    lists' := lists[i := Insertion(lists[i], a, x)];
    var s' := Quiet(m.SetNext(prev[i], i, x), lists', AfterLink(key, height, prev, x, i));
    assert Link(s, s');
    LinkInv(s, s');
    KeysStep(s, s');
    InsertionMembers(lists[i], a, x);
  }

  /** Before the first store of an insertion nothing has changed but where the writer is. */
  method FindPlace<K(!new)>(m: Mem<K>, key: K, height: nat, ghost lists: seq<seq<nat>>) returns (prev: seq<nat>)
    requires InPhase(m, lists, Idle) && 0 < height <= MAX_HEIGHT && |lists| > 0 && Fresh(m, lists[0], key)
    ensures InPhase(m, lists, Raising(key, height, prev))
  {
    ghost var w: Writer<K> := Idle;
    assert UnfoldAt(w, 0);
    var n, p := FindGreaterOrEqual(m, key, lists);
    prev := p;
  }

  /** The list as its single writer uses it: insertion runs the steps of the state
      machine one after the other. */
  class List<K(!new)> {
    var m: Mem<K>
    ghost var lists: seq<seq<nat>>

    ghost predicate Valid()
      reads this
    {
      |lists| == MAX_HEIGHT && InPhase(m, lists, Idle)
    }

    /** The key of the head node may be anything. */
    constructor (less: (K, K) -> bool, any: K)
      requires Ordered(less)
      ensures Valid() && m.less == less && Keys(m, lists[0]) == {}
    {
      m := Mem([Node(any, seq(MAX_HEIGHT, _ => NIL))], 1, less);
      lists := seq(MAX_HEIGHT, _ => [HEAD]);
      new;
      InitInv(Quiet(m, lists, Idle));
    }

    method Insert(key: K, height: nat)
      requires Valid() && 0 < height <= MAX_HEIGHT && Fresh(m, lists[0], key)
      modifies this
      ensures Valid() && m.less == old(m.less) && Keys(m, lists[0]) == old(Keys(m, lists[0])) + {key}
      ensures |m.nodes| > |old(m.nodes)| && OnLevels(lists, |old(m.nodes)|, height) && m.Key(|old(m.nodes)|) == key
    {
      var prev := FindPlace(m, key, height, lists);
      var x := |m.nodes|;
      var m1 := Mem(m.nodes + [Node(key, seq(height, _ => NIL))], if height > m.maxHeight then height else m.maxHeight, m.less);
      AllocateStep(m, m1, lists, key, height, prev);
      m := m1;
      for i := 0 to height
        invariant |lists| == MAX_HEIGHT
        invariant InPhase(m, lists, if i < height then Setting(key, height, prev, x, i) else Idle)
        invariant Keys(m, lists[0]) == old(Keys(m, lists[0])) + (if i == 0 then {} else {key})
        invariant OnLevels(lists, x, i) && |m.nodes| > x && m.Key(x) == key && m.less == old(m.less)
      {
        StoreLink(key, height, prev, x, i);
        Publish(key, height, prev, x, i);
      }
    }

    /** Store the new node's link of level i. */
    method StoreLink(key: K, height: nat, prev: seq<nat>, x: nat, i: nat)
      requires |lists| == MAX_HEIGHT && InPhase(m, lists, Setting(key, height, prev, x, i))
      modifies this`m
      ensures InPhase(m, lists, Linking(key, height, prev, x, i))
      ensures m.less == old(m.less) && Keys(m, lists[0]) == old(Keys(m, lists[0]))
    {
      StoreStep(m, lists, key, height, prev, x, i);
      m := m.SetNext(x, i, m.Next(prev[i], i));
    }

    /** Publish the new node at level i. */
    method Publish(key: K, height: nat, prev: seq<nat>, x: nat, i: nat)
      requires |lists| == MAX_HEIGHT && InPhase(m, lists, Linking(key, height, prev, x, i))
      modifies this
      ensures |lists| == MAX_HEIGHT && InPhase(m, lists, AfterLink(key, height, prev, x, i))
      ensures m.less == old(m.less) && Keys(m, lists[0]) == old(Keys(m, lists[0])) + (if i == 0 then {key} else {})
      ensures OnLevels(lists, x, i + 1) && |m.nodes| > x && m.Key(x) == key
    {
      ghost var lists' := PublishStep(m, lists, key, height, prev, x, i);
      m := m.SetNext(prev[i], i, x);
      lists := lists';
    }
  }

  lemma PrevPosition<K(!new)>(s: Sys<K>) returns (a: nat)
    requires Inv(s) && (s.w.Setting? || s.w.Linking?)
    ensures InReach(s) && Splits(s.m, s.lists[s.w.i], a, s.w.key) && s.lists[s.w.i][a] == s.w.prev[s.w.i]
    ensures s.w.prev[s.w.i] != s.w.x
  {
    var i := s.w.i;
    ChainOf(s.m, s.lists, i);
    assert PrevAt(s.m, s.lists[i], s.w.prev[i], s.w.key);
    a :| Splits(s.m, s.lists[i], a, s.w.key) && s.lists[i][a] == s.w.prev[i];
    assert LinkedAt(s.m, s.lists[i], i, a);
  }
}
