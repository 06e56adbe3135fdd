/** The FAST and FAIR B+tree that holds the colliding keys of the index. */
module FFBtree {
  import opened FFPage
  import opened FFLevels
  import opened FFTree
  import opened Bits

  ghost function ToMap(s: seq<Entry>): map<int, Ptr>
    requires Sorted(s)
  {
    map e: Entry | e in s :: e.key := e.ptr
  }

  lemma ToMapAt(s: seq<Entry>, key: int)
    requires Sorted(s)
    ensures forall a: nat :: a < |s| && s[a].key == key ==> key in ToMap(s) && ToMap(s)[key] == s[a].ptr
    ensures (forall a: nat :: a < |s| ==> s[a].key != key) ==> key !in ToMap(s)
  {
    forall a: nat | a < |s| && s[a].key == key ensures key in ToMap(s) && ToMap(s)[key] == s[a].ptr {
      assert s[a] in s;
    }
  }

  /** Where the entries of the two sequences of a put are in each other. */
  lemma PutElements(s: seq<Entry>, t: seq<Entry>, i: nat, d: nat, key: int, ptr: Ptr)
    requires PutAt(s, t, i, d, key, ptr)
    ensures |t| == |s| + 1 - d && i < |t| && t[i] == Entry(key, ptr)
    ensures forall a: nat :: a < i ==> t[a] == s[a]
    ensures forall a: nat :: i < a < |t| ==> t[a] == s[a - 1 + d]
  {
  }

  lemma PutOthers(s: seq<Entry>, t: seq<Entry>, i: nat, d: nat, key: int, ptr: Ptr, e: Entry)
    requires PutAt(s, t, i, d, key, ptr) && e.key != key
    ensures e in s <==> e in t
  {
    PutElements(s, t, i, d, key, ptr);
    if e in s {
      var a: nat :| a < |s| && s[a] == e;
      assert a < i ==> t[a] == e;
      assert a >= i ==> t[a + 1 - d] == e;
    }
  }

  /** Putting a pair into a sorted sequence is updating the map it stands for. */
  lemma PutMap(s: seq<Entry>, t: seq<Entry>, key: int, ptr: Ptr)
    requires Sorted(s) && Sorted(t) && Put(s, t, key, ptr)
    ensures ToMap(t) == ToMap(s)[key := ptr]
  {
    var i: nat, d: nat :| PutAt(s, t, i, d, key, ptr);
    forall e: Entry | e.key != key ensures e in s <==> e in t {
      PutOthers(s, t, i, d, key, ptr, e);
    }
    PutElements(s, t, i, d, key, ptr);
    MapsAgree(s, t, key, ptr);
  }

  lemma MapsAgree(s: seq<Entry>, t: seq<Entry>, key: int, ptr: Ptr)
    requires Sorted(s) && Sorted(t) && Entry(key, ptr) in t
    requires forall e: Entry :: e.key != key ==> (e in s <==> e in t)
    ensures ToMap(t) == ToMap(s)[key := ptr]
  {
    ToMapIs(s);
    ToMapIs(t);
  }

  lemma ToMapIs(s: seq<Entry>)
    requires Sorted(s)
    ensures forall k: int :: k in ToMap(s) ==> Entry(k, ToMap(s)[k]) in s
    ensures forall e: Entry :: e in s ==> e.key in ToMap(s) && ToMap(s)[e.key] == e.ptr
  {
  }

  ghost predicate NotHeld(s: seq<Entry>, ptr: Ptr) {
    forall a: nat :: a < |s| ==> s[a].ptr != ptr
  }

  lemma PutDistinct(s: seq<Entry>, t: seq<Entry>, key: int, ptr: Ptr)
    requires Distinct(s) && Put(s, t, key, ptr) && ptr.ValuePtr? && NotHeld(s, ptr)
    ensures Distinct(t)
  {
    var i: nat, d: nat :| PutAt(s, t, i, d, key, ptr);
    PutElements(s, t, i, d, key, ptr);
    forall a: nat, b: nat | a < b < |t| ensures t[a].ptr != t[b].ptr {
      if a < i < b {
        assert t[a] == s[a] && t[b] == s[b - 1 + d];
      }
    }
  }

  function RootPage(left: nat, key: int, right: nat, level: nat): Page {
    Page(PagePtr(left), Null, level, 0, 0,
         NewPage(level).records[0 := Entry(key, PagePtr(right))][1 := Entry(0, Null)])
  }

  lemma LevelsFrame(pages: seq<Page>, levels: seq<seq<Span>>, q: Page)
    requires LevelsOk(pages, levels) && q.level == |levels|
    ensures forall m: nat :: m < |levels| ==>
      LevelOk(pages + [q], levels[m], m) && Flat(pages + [q], levels[m]) == Flat(pages, levels[m])
  {
    forall m: nat | m < |levels|
      ensures LevelOk(pages + [q], levels[m], m) && Flat(pages + [q], levels[m]) == Flat(pages, levels[m])
    {
      LevelFrame(pages, pages + [q], levels[m], m);
    }
  }

  lemma RootLevel(pages: seq<Page>, left: nat, key: int, right: nat, level: nat)
    requires key > -1 && level > 0
    ensures var pages', top := pages + [RootPage(left, key, right, level)], [Span(|pages|, -1)];
      && LevelOk(pages', top, level)
      && Flat(pages', top) == [Entry(-1, PagePtr(left)), Entry(key, PagePtr(right))]
  {
    var q := RootPage(left, key, right, level);
    var pages', top := pages + [q], [Span(|pages|, -1)];
    RootPageOk(left, key, right, level);
    assert q.records[0].key == key;
    assert PageAt(q, top, 0, level);
    FlatOne(pages', top[0]);
  }

  lemma RootLinks(pages: seq<Page>, levels: seq<seq<Span>>, pages': seq<Page>, top: seq<Span>)
    requires LinksOk(pages, levels, |levels|) && |levels| > 0
    requires forall m: nat :: m < |levels| ==> Flat(pages', levels[m]) == Flat(pages, levels[m])
    requires Flat(pages', top) == IndexOf(levels[|levels| - 1])
    ensures LinksOk(pages', levels + [top], 0)
  {
    forall m: nat | 0 < m < |levels| + 1 ensures Link(pages', levels + [top], m) {
      if m < |levels| { assert Link(pages, levels, m); }
    }
  }

  /** A root that has been split gets a new root above its two halves. */
  lemma GrowRoot(pages: seq<Page>, levels: seq<seq<Span>>, left: nat, key: int, right: nat, pages': seq<Page>, top: seq<Span>)
    requires LevelsOk(pages, levels) && LinksOk(pages, levels, |levels|)
    requires levels[|levels| - 1] == [Span(left, -1), Span(right, key)]
    requires pages' == pages + [RootPage(left, key, right, |levels|)] && top == [Span(|pages|, -1)]
    ensures LevelsOk(pages', levels + [top]) && LinksOk(pages', levels + [top], 0)
    ensures Flat(pages', levels[0]) == Flat(pages, levels[0])
  {
    var n := |levels|;
    LevelsFrame(pages, levels, RootPage(left, key, right, n));
    IndexOfTwo(pages, levels[n - 1], n - 1, left, key, right);
    RootLevel(pages, left, key, right, n);
    AppendLevel(pages', levels, top);
    RootLinks(pages, levels, pages', top);
  }

  lemma AppendLevel(pages: seq<Page>, levels: seq<seq<Span>>, top: seq<Span>)
    requires forall m: nat :: m < |levels| ==> LevelOk(pages, levels[m], m)
    requires LevelOk(pages, top, |levels|)
    ensures LevelsOk(pages, levels + [top])
  {
  }

  lemma IndexOfTwo(pages: seq<Page>, gs: seq<Span>, l: nat, left: nat, key: int, right: nat)
    requires LevelOk(pages, gs, l) && gs == [Span(left, -1), Span(right, key)]
    ensures key > -1 && IndexOf(gs) == [Entry(-1, PagePtr(left)), Entry(key, PagePtr(right))]
  {
    assert gs[0].lo < gs[1].lo;
  }

  lemma RootPageOk(left: nat, key: int, right: nat, level: nat)
    ensures var q := RootPage(left, key, right, level);
      PageOk(q) && Count(q) == 1 && Items(q, -1) == [Entry(-1, PagePtr(left)), Entry(key, PagePtr(right))]
  {
    var q := RootPage(left, key, right, level);
    assert Live(q) == [Entry(key, PagePtr(right))];
  }

  /** A store for the key hands back ret: the pointer that s has for the key, except that
      a store without room for one more record hands back nothing. */
  ghost predicate HandedBack(s: seq<Entry>, key: int, ret: Ptr, room: bool) {
    if room && ret != Null then exists a: nat :: a < |s| && s[a] == Entry(key, ret)
    else ret == Null && (room ==> forall a: nat :: a < |s| ==> s[a].key != key)
  }

  ghost predicate RoomAt(pages: seq<Page>, gs: seq<Span>, j: nat, key: int) {
    InRange(gs, j, key) && gs[j].id < |pages| && Count(pages[gs[j].id]) < CARDINALITY - 1
  }

  ghost predicate Roomy(pages: seq<Page>, gs: seq<Span>, key: int) {
    exists j: nat :: RoomAt(pages, gs, j, key)
  }

  /** Exactly one leaf covers a key. */
  lemma RoomIs(pages: seq<Page>, gs: seq<Span>, j: nat, key: int)
    requires LevelOk(pages, gs, 0) && InRange(gs, j, key)
    ensures Roomy(pages, gs, key) <==> Count(pages[gs[j].id]) < CARDINALITY - 1
  {
    if i: nat :| RoomAt(pages, gs, i, key) {
      assert i == j;
    }
    assert Count(pages[gs[j].id]) < CARDINALITY - 1 ==> RoomAt(pages, gs, j, key);
  }

  class FFBtree {
    var pages: seq<Page>
    var root: nat
    var height: nat
    ghost var levels: seq<seq<Span>>

    /** The tree is in order, except that level `skip` may lack one entry. */
    ghost predicate Shape(skip: nat)
      reads this
    {
      && LevelsOk(pages, levels) && LinksOk(pages, levels, skip)
      && height == |levels| && levels[height - 1] == [Span(root, -1)]
      && Distinct(Flat(pages, levels[0]))
    }

    ghost var contents: map<int, Ptr>

    /** The tree is in order and its leaves store the map `contents`. */
    ghost predicate Valid()
      reads this
    {
      forall u {:trigger Unfold(u)} :: Unfold(u) ==>
        Shape(0) && Sorted(Leaves()) && contents == ToMap(Leaves())
    }

    /** The leaf that covers the key is not full. */
    ghost predicate HasRoom(key: int)
      reads this
    {
      |levels| > 0 && Roomy(pages, levels[0], key)
    }

    lemma Opened()
      requires Valid()
      ensures Shape(0) && Sorted(Leaves()) && contents == ToMap(Leaves())
    {
      assert Unfold(0);
    }

    lemma Closed()
      requires Shape(0) && Sorted(Leaves()) && contents == ToMap(Leaves())
      ensures Valid()
    {
    }

    ghost function Leaves(): seq<Entry>
      requires |levels| > 0
      reads this
    {
      Flat(pages, levels[0])
    }

    constructor ()
      ensures Valid() && contents == map[] && levels == [[Span(0, -1)]]
    {
      var p := NewPage(0);
      pages := [p];
      root := 0;
      height := 1;
      levels := [[Span(0, -1)]];
      contents := map[];
      new;
      EmptyTree(pages, levels);
    }

    /** One step of a descent through the internal levels. */
    method DescendOne(p: nat, key: int, ghost l: nat, ghost j: nat, ghost skip: nat) returns (c: nat, ghost j': nat)
      requires Shape(skip) && 0 < l < |levels| && l != skip
      requires InRange(levels[l], j, key) && levels[l][j].id == p
      ensures InRange(levels[l - 1], j', key) && levels[l - 1][j'].id == c
    {
      var page := pages[p];
      PageSound(pages, levels[l], l, j);
      ChildrenDiffer(pages, levels, l, j);
      var ret, x := SearchInternal(page, key, levels[l][j].lo);
      j' := Child(pages, levels, l, j, x, key);
      if page.sibling != Null {
        SiblingAbove(pages, levels[l], l, j, key);
        // the sibling is returned only for keys at or above its first record
        assert key < pages[page.sibling.id].records[0].key;
      }
      c := ret.id;
    }

    /** Walk down to the page of the given level that covers the key. */
    method FindPage(key: int, level: nat) returns (p: nat, ghost j: nat)
      requires Shape(level) && level < |levels| && key >= 0
      ensures InRange(levels[level], j, key) && levels[level][j].id == p
    {
      p, j := root, 0;
      ghost var l: nat := height - 1;
      PageLevel(pages, levels, l, j);
      while pages[p].level > level
        invariant level <= l < |levels| && InRange(levels[l], j, key) && levels[l][j].id == p
        invariant p < |pages| && pages[p].level == l
        decreases l
      {
        p, j := DescendOne(p, key, l, j, level);
        l := l - 1;
        PageLevel(pages, levels, l, j);
      }
    }

    /** Walk down to the leaf that covers the key. */
    method FindLeaf(key: int) returns (p: nat, ghost j: nat)
      requires Shape(0) && key >= 0
      ensures InRange(levels[0], j, key) && levels[0][j].id == p
    {
      p := root;
      j := 0;
      ghost var l: nat := height - 1;
      PageSound(pages, levels[l], l, j);
      while pages[p].leftmost != Null
        invariant l < |levels| && InRange(levels[l], j, key) && levels[l][j].id == p
        invariant pages[p].leftmost == Null <==> l == 0
        decreases l
      {
        p, j := DescendOne(p, key, l, j, 0);
        l := l - 1;
        PageSound(pages, levels[l], l, j);
      }
    }

    /** Search returns the pointer stored for the key, or null. */
    method Search(key: int) returns (t: Ptr)
      requires Valid() && key >= 0
      ensures t == if key in contents then contents[key] else Null
    {
      assert Unfold(0);
      var p, j := FindLeaf(key);
      ghost var gs := levels[0];
      AdjacentInFlat(pages, gs, j);
      PageSound(pages, gs, 0, j);
      t := SearchLeaf(pages[p], key);
      if pages[p].sibling != Null {
        SiblingAbove(pages, gs, 0, j, key);
        // no second leaf is visited
        assert key < pages[pages[p].sibling.id].records[0].key;
      }
      LeafAnswers(pages, levels, j, key, t);
    }

    /** Put (key, right) into page j of level l.  The sibling redirect at the head of
        the original routine is never taken, since a descent ends at the covering page. */
    method Store(id: nat, key: int, right: Ptr, ghost l: nat, ghost j: nat) returns (ret: Ptr)
      requires Shape(l) && l < |levels| && InRange(levels[l], j, key) && levels[l][j].id == id
      requires l == 0 ==> right.ValuePtr? && NotHeld(Leaves(), right)
      requires l > 0 ==> right.PagePtr? && Pending(pages, levels, l, key, right)
      modifies this
      ensures Shape(0)
      ensures l == 0 ==> Put(old(Leaves()), Leaves(), key, right)
      ensures l > 0 ==> Leaves() == old(Leaves())
      ensures l == 0 ==> HandedBack(old(Leaves()), key, ret, old(Count(pages[id])) < CARDINALITY - 1)
      ensures old(Count(pages[id])) < CARDINALITY - 1 ==> levels == old(levels)
      decreases height - l, 1
    {
      var p := pages[id];
      PageSound(pages, levels[l], l, j);
      if p.sibling != Null {
        SiblingAbove(pages, levels[l], l, j, key);
        assert !(key > pages[p.sibling.id].records[0].key);
      }
      var num := CountRecords(p);
      if num < CARDINALITY - 1 {
        ret := FitStore(id, key, right, num, l, j);
      } else {
        ret := Null;
        SplitStore(id, key, right, l, j);
      }
    }

    /** The path of Store for a page with room. */
    method FitStore(id: nat, key: int, right: Ptr, num: nat, ghost l: nat, ghost j: nat) returns (ret: Ptr)
      requires Shape(l) && l < |levels| && InRange(levels[l], j, key) && levels[l][j].id == id
      requires l == 0 ==> right.ValuePtr? && NotHeld(Leaves(), right)
      requires l > 0 ==> right.PagePtr? && Pending(pages, levels, l, key, right)
      requires num == Count(pages[id]) < CARDINALITY - 1
      modifies this`pages
      ensures Shape(0)
      ensures l == 0 ==> Put(old(Leaves()), Leaves(), key, right)
      ensures l > 0 ==> Leaves() == old(Leaves())
      ensures l == 0 ==> HandedBack(old(Leaves()), key, ret, true)
    {
      var q;
      q, ret := FitPage(pages, id, key, right, num, levels, l, j);
      pages := pages[id := q];
    }

    /** The overflow path of Store. */
    method SplitStore(id: nat, key: int, right: Ptr, ghost l: nat, ghost j: nat)
      requires Shape(l) && l < |levels| && InRange(levels[l], j, key) && levels[l][j].id == id
      requires l == 0 ==> right.ValuePtr? && NotHeld(Leaves(), right)
      requires l > 0 ==> right.PagePtr? && Pending(pages, levels, l, key, right)
      requires Count(pages[id]) == CARDINALITY - 1
      modifies this
      ensures Shape(0)
      ensures l == 0 ==> Put(old(Leaves()), Leaves(), key, right)
      ensures l > 0 ==> Leaves() == old(Leaves())
      decreases height - l, 0
    {
      var sibId := |pages|;
      var pages', splitKey, level, levels' := CutPage(pages, id, key, right, levels, l, j, root);
      Announce(pages', levels', id, splitKey, sibId, level);
    }

    /** Write the cut pages and make the new one known to the level above, which is a new
        level if it was the root that was cut. */
    method Announce(pages': seq<Page>, ghost levels': seq<seq<Span>>, id: nat, splitKey: int, sibId: nat, level: nat)
      requires IsCut(pages', levels', id, splitKey, sibId, level, root, height)
      modifies this
      ensures Shape(0) && Leaves() == Flat(pages', levels'[0])
      decreases height - level, 3
    {
      pages := pages';
      levels := levels';
      if root == id {
        SetNewRoot(id, splitKey, sibId, level);
      } else {
        InsertInternal(splitKey, PagePtr(sibId), level);
      }
    }

    method SetNewRoot(left: nat, splitKey: int, right: nat, level: nat)
      requires LevelsOk(pages, levels) && LinksOk(pages, levels, level) && height == |levels| == level
      requires levels[level - 1] == [Span(left, -1), Span(right, splitKey)] && Distinct(Flat(pages, levels[0]))
      modifies this
      ensures Shape(0) && Leaves() == old(Leaves())
    {
      var newRoot := |pages|;
      var page := RootPage(left, splitKey, right, level);
      GrowRoot(pages, levels, left, splitKey, right, pages + [page], [Span(newRoot, -1)]);
      pages := pages + [page];
      levels := levels + [[Span(newRoot, -1)]];
      root := newRoot;
      height := height + 1;
    }

    /** Give the page at `right` its entry in the given level, found from the root. */
    method InsertInternal(key: int, right: Ptr, level: nat)
      requires Shape(level) && right.PagePtr? && Pending(pages, levels, level, key, right) && key >= 0
      modifies this
      ensures Shape(0) && Leaves() == old(Leaves())
      decreases height - level, 2
    {
      PageLevel(pages, levels, height - 1, 0);
      assert level <= pages[root].level;
      var p, j := FindPage(key, level);
      var _ := Store(p, key, right, level, j);
    }

    method InsertLeaf(key: int, right: Ptr, ghost m: map<int, Ptr>, ghost room: bool) returns (ret: Ptr)
      requires Shape(0) && key >= 0 && right.ValuePtr? && NotHeld(Leaves(), right) && Sorted(Leaves())
      requires m == ToMap(Leaves()) && room == HasRoom(key)
      modifies this
      ensures Shape(0) && Sorted(Leaves()) && ToMap(Leaves()) == m[key := right]
      ensures ret == if key in m && room then m[key] else Null
      ensures room ==> levels == old(levels)
    {
      ghost var s := Leaves();
      ToMapAt(s, key);
      var p, j := FindLeaf(key);
      RoomIs(pages, levels[0], j, key);
      ret := Store(p, key, right, 0, j);
      LeavesSorted(pages, levels);
      PutMap(s, Leaves(), key, right);
    }

    /** Map the key to `right`, a non-null pointer that the tree does not hold yet.
        The pointer it replaces is handed back if and only if the leaf was not full. */
    method Insert(key: int, right: Ptr) returns (ret: Ptr)
      requires Valid() && key >= 0 && right.ValuePtr? && right !in contents.Values
      modifies this
      ensures Valid() && contents == old(contents)[key := right]
      ensures ret == if key in old(contents) && old(HasRoom(key)) then old(contents)[key] else Null
      ensures old(HasRoom(key)) ==> levels == old(levels)
    {
      Opened();
      ValuesAbsent(Leaves(), right);
      ghost var m, room := contents, HasRoom(key);
      ret := InsertLeaf(key, right, m, room);
      contents := m[key := right];
      Closed();
    }
  }

  lemma ValuesAbsent(s: seq<Entry>, p: Ptr)
    requires Sorted(s) && p !in ToMap(s).Values
    ensures NotHeld(s, p)
  {
    forall a: nat | a < |s| ensures s[a].ptr != p {
      ToMapAt(s, s[a].key);
      assert ToMap(s)[s[a].key] in ToMap(s).Values;
    }
  }

  /** What a store at level l means for the leaves. */
  lemma LeavesAfter(pages: seq<Page>, levels: seq<seq<Span>>, pages': seq<Page>, levels': seq<seq<Span>>, l: nat, key: int, ptr: Ptr)
    requires LevelsOk(pages, levels) && Stored(pages, levels, pages', levels', l, key, ptr) && Distinct(Flat(pages, levels[0]))
    requires l == 0 ==> ptr.ValuePtr? && NotHeld(Flat(pages, levels[0]), ptr)
    ensures Distinct(Flat(pages', levels'[0]))
    ensures l == 0 ==> Put(Flat(pages, levels[0]), Flat(pages', levels'[0]), key, ptr)
    ensures l > 0 ==> Flat(pages', levels'[0]) == Flat(pages, levels[0])
  {
    if l == 0 {
      PutDistinct(Flat(pages, levels[0]), Flat(pages', levels'[0]), key, ptr);
    }
  }

  /** The page with the new record, and what that does to the tree. */
  method FitPage(pages: seq<Page>, id: nat, key: int, right: Ptr, num: nat, ghost levels: seq<seq<Span>>, ghost l: nat, ghost j: nat)
    returns (q: Page, oldPtr: Ptr)
    requires LevelsOk(pages, levels) && LinksOk(pages, levels, l) && Distinct(Flat(pages, levels[0]))
    requires l < |levels| && InRange(levels[l], j, key) && levels[l][j].id == id
    requires l == 0 ==> right.ValuePtr? && NotHeld(Flat(pages, levels[0]), right)
    requires l > 0 ==> right.PagePtr? && Pending(pages, levels, l, key, right)
    requires num == Count(pages[id]) < CARDINALITY - 1
    ensures var pages' := pages[id := q];
      && LevelsOk(pages', levels) && LinksOk(pages', levels, 0) && Distinct(Flat(pages', levels[0]))
      && (l == 0 ==> Put(Flat(pages, levels[0]), Flat(pages', levels[0]), key, right))
      && (l > 0 ==> Flat(pages', levels[0]) == Flat(pages, levels[0]))
    ensures l == 0 ==> HandedBack(Flat(pages, levels[0]), key, oldPtr, true)
  {
    if l > 0 {
      PendingAbsent(pages, levels, l, j, key, right);
    }
    PageSound(pages, levels[l], l, j);
    var n;
    ghost var i, d;
    q, n, oldPtr, i, d := InsertKey(pages[id], key, right, num);
    FitEffect(pages, levels, l, j, q, key, right, oldPtr, i, d);
  }

  lemma FitEffect(pages: seq<Page>, levels: seq<seq<Span>>, l: nat, j: nat, q: Page, key: int, right: Ptr, oldPtr: Ptr, i: nat, d: nat)
    requires LevelsOk(pages, levels) && LinksOk(pages, levels, l) && Distinct(Flat(pages, levels[0]))
    requires l < |levels| && InRange(levels[l], j, key)
    requires l == 0 ==> right.ValuePtr? && NotHeld(Flat(pages, levels[0]), right)
    requires l > 0 ==> Pending(pages, levels, l, key, right) && levels[l][j].lo < key
    requires var p := pages[levels[l][j].id];
      && PageOk(q) && PutAt(Live(p), Live(q), i, d, key, right)
      && q.leftmost == p.leftmost && q.sibling == p.sibling && q.level == p.level
      && oldPtr == (if d == 1 then p.records[i].ptr else Null)
      && (l > 0 ==> forall a: nat :: a < Count(p) ==> p.records[a].key != key)
    ensures var pages' := pages[levels[l][j].id := q];
      && LevelsOk(pages', levels) && LinksOk(pages', levels, 0) && Distinct(Flat(pages', levels[0]))
      && (l == 0 ==> Put(Flat(pages, levels[0]), Flat(pages', levels[0]), key, right))
      && (l > 0 ==> Flat(pages', levels[0]) == Flat(pages, levels[0]))
    ensures l == 0 ==> HandedBack(Flat(pages, levels[0]), key, oldPtr, true)
  {
    var gs, id := levels[l], levels[l][j].id;
    var p := pages[id];
    PageSound(pages, gs, l, j);
    ItemsPut(p, q, gs[j].lo, i, d, key, right);
    StoreFits(pages, levels, l, j, q, key, right);
    LinksAfter(pages, levels, pages[id := q], levels, l, key, right);
    LeavesAfter(pages, levels, pages[id := q], levels, l, key, right);
    assert d == 1 ==> Live(p)[i] == p.records[i];
    if l == 0 {
      OldPointer(pages, gs, j, key, oldPtr, i, d);
    }
  }

  lemma OldPointer(pages: seq<Page>, gs: seq<Span>, j: nat, key: int, oldPtr: Ptr, i: nat, d: nat)
    requires LevelOk(pages, gs, 0) && InRange(gs, j, key)
    requires var s := Live(pages[gs[j].id]);
      && d <= 1 && i + d <= |s| && (d == 1 ==> s[i].key == key) && oldPtr == (if d == 1 then s[i].ptr else Null)
      && (forall a: nat :: a < i ==> s[a].key < key) && (forall a: nat :: i + d <= a < |s| ==> s[a].key > key)
    ensures HandedBack(Flat(pages, gs), key, oldPtr, true)
  {
    var p := pages[gs[j].id];
    LeafDecides(pages, gs, j, key);
    PageSound(pages, gs, 0, j);
    if d == 1 {
      assert Live(p)[i] == p.records[i];
    } else {
      forall x: nat | x < Count(p) ensures p.records[x].key != key { assert Live(p)[x] == p.records[x]; }
    }
  }

  lemma FirstRecordInRange(p: Page, gs: seq<Span>, j: nat, l: nat)
    requires j < |gs| && PageAt(p, gs, j, l) && Count(p) > 0
    ensures gs[j].lo <= p.records[0].key
  {
    assert l == 0 ==> Items(p, gs[j].lo)[0] == p.records[0];
  }

  /** Only the top level holds the root, alone. */
  lemma RootIsTop(levels: seq<seq<Span>>, l: nat, j: nat, root: nat, pages: seq<Page>)
    requires LevelsOk(pages, levels) && l < |levels| && j < |levels[l]|
    requires levels[|levels| - 1] == [Span(root, -1)]
    ensures levels[l][j].id == root <==> l == |levels| - 1
    ensures levels[l][j].id == root ==> j == 0 && |levels[l]| == 1
  {
    PageLevel(pages, levels, l, j);
    PageLevel(pages, levels, |levels| - 1, 0);
  }

  /** The top level after page j of level l has been cut in two. */
  lemma TopAfter(levels: seq<seq<Span>>, l: nat, j: nat, root: nat, pages: seq<Page>, g: Span)
    requires LevelsOk(pages, levels) && l < |levels| && j < |levels[l]|
    requires levels[|levels| - 1] == [Span(root, -1)]
    ensures var top := levels[l := WithSpan(levels[l], j, g)][|levels| - 1];
      if levels[l][j].id == root then l + 1 == |levels| && top == [Span(root, -1), g]
      else l + 1 < |levels| && top == [Span(root, -1)]
  {
    RootIsTop(levels, l, j, root, pages);
  }

  lemma PageLevel(pages: seq<Page>, levels: seq<seq<Span>>, l: nat, j: nat)
    requires LevelsOk(pages, levels) && l < |levels| && j < |levels[l]|
    ensures levels[l][j].id < |pages| && pages[levels[l][j].id].level == l
  {
    PageSound(pages, levels[l], l, j);
  }

  /** Page id was cut at splitKey and its upper part is page sibId, which the level above
      does not know yet; there is no level above if page id is the root. */
  ghost predicate IsCut(pages: seq<Page>, levels: seq<seq<Span>>, id: nat, splitKey: int, sibId: nat, level: nat, root: nat, height: nat) {
    && LevelsOk(pages, levels) && LinksOk(pages, levels, level) && Distinct(Flat(pages, levels[0]))
    && height == |levels| && splitKey > -1
    && (id == root ==> level == height && levels[height - 1] == [Span(root, -1), Span(sibId, splitKey)])
    && (id != root ==> level < height && levels[height - 1] == [Span(root, -1)])
    && (level < height ==> Pending(pages, levels, level, splitKey, PagePtr(sibId)))
  }

  /** Cut a full page in two, with the new record in its half.  The level above, if
      there is one, now lacks the entry for the new page. */
  method CutPage(pages: seq<Page>, id: nat, key: int, right: Ptr, ghost levels: seq<seq<Span>>, ghost l: nat, ghost j: nat, ghost root: nat)
    returns (pages': seq<Page>, splitKey: int, level: nat, ghost levels': seq<seq<Span>>)
    requires LevelsOk(pages, levels) && LinksOk(pages, levels, l) && Distinct(Flat(pages, levels[0]))
    requires l < |levels| && InRange(levels[l], j, key) && levels[l][j].id == id
    requires l == 0 ==> right.ValuePtr? && NotHeld(Flat(pages, levels[0]), right)
    requires l > 0 ==> right.PagePtr? && Pending(pages, levels, l, key, right)
    requires Count(pages[id]) == CARDINALITY - 1 && levels[|levels| - 1] == [Span(root, -1)]
    ensures level == l + 1 && IsCut(pages', levels', id, splitKey, |pages|, l + 1, root, |levels|)
    ensures l == 0 ==> Put(Flat(pages, levels[0]), Flat(pages', levels'[0]), key, right)
    ensures l > 0 ==> Flat(pages', levels'[0]) == Flat(pages, levels[0])
  {
    var p := pages[id];
    ghost var gs, lo := levels[l], levels[l][j].lo;
    if l > 0 {
      PendingAbsent(pages, levels, l, j, key, right);
    }
    PageIs(pages, gs, l, j);
    FirstRecordInRange(p, gs, j, l);
    var left', sib', k, left, sib := SplitAndInsert(p, |pages|, key, right, lo);
    splitKey, level := k, p.level + 1;
    pages' := pages[id := left'] + [sib'];
    ghost var gs' := WithSpan(gs, j, Span(|pages|, splitKey));
    levels' := levels[l := gs'];
    TopAfter(levels, l, j, root, pages, Span(|pages|, splitKey));
    SplitEffect(pages, levels, l, j, left, sib, splitKey, left', sib', key, right, pages', gs');
  }

  lemma SplitEffect(pages: seq<Page>, levels: seq<seq<Span>>, l: nat, j: nat, left: Page, sib: Page, splitKey: int,
                    left': Page, sib': Page, key: int, right: Ptr, pages': seq<Page>, gs': seq<Span>)
    requires LevelsOk(pages, levels) && LinksOk(pages, levels, l) && Distinct(Flat(pages, levels[0]))
    requires l < |levels| && InRange(levels[l], j, key)
    requires l == 0 ==> right.ValuePtr? && NotHeld(Flat(pages, levels[0]), right)
    requires l > 0 ==> Pending(pages, levels, l, key, right) && levels[l][j].lo < key && key != splitKey
    requires SplitPut(pages[levels[l][j].id], left, sib, levels[l][j].lo, splitKey, |pages|, left', sib', key, right)
    requires gs' == WithSpan(levels[l], j, Span(|pages|, splitKey))
    requires pages' == pages[levels[l][j].id := left'] + [sib']
    ensures var levels' := levels[l := gs'];
      && LevelsOk(pages', levels') && LinksOk(pages', levels', l + 1) && Distinct(Flat(pages', levels'[0]))
      && (l == 0 ==> Put(Flat(pages, levels[0]), Flat(pages', levels'[0]), key, right))
      && (l > 0 ==> Flat(pages', levels'[0]) == Flat(pages, levels[0]))
      && (l + 1 < |levels| ==> Pending(pages', levels', l + 1, splitKey, PagePtr(|pages|)))
    ensures splitKey > -1 && pages[levels[l][j].id].level == l
  {
    var levels' := levels[l := gs'];
    StoreSplits(pages, levels, l, j, left, sib, splitKey, left', sib', key, right, pages', gs');
    LinksAfter(pages, levels, pages', levels', l, key, right);
    LeavesAfter(pages, levels, pages', levels', l, key, right);
    if l + 1 < |levels| {
      PendingAfter(pages, levels, pages', levels', l, key, right, splitKey, PagePtr(|pages|));
    }
    PageLevel(pages, levels, l, j);
    assert levels[l][0].lo <= levels[l][j].lo;
  }

  lemma EmptyTree(pages: seq<Page>, levels: seq<seq<Span>>)
    requires pages == [NewPage(0)] && levels == [[Span(0, -1)]]
    ensures LevelsOk(pages, levels) && Flat(pages, levels[0]) == []
  {
    NewPageOk(0);
    FlatOne(pages, levels[0][0]);
    assert PageAt(pages[0], levels[0], 0, 0);
  }

  lemma LeavesSorted(pages: seq<Page>, levels: seq<seq<Span>>)
    requires LevelsOk(pages, levels)
    ensures Sorted(Flat(pages, levels[0]))
  {
    FlatSorted(pages, levels[0], 0, 0);
    assert levels[0][0..] == levels[0];
  }

  /** The leaf that covers a key has its entry if any leaf has. */
  lemma LeafDecides(pages: seq<Page>, gs: seq<Span>, j: nat, key: int)
    requires LevelOk(pages, gs, 0) && InRange(gs, j, key)
    ensures var p := pages[gs[j].id];
      && (forall x: nat :: x < Count(p) && p.records[x].key == key ==>
            exists a: nat :: a < |Flat(pages, gs)| && Flat(pages, gs)[a] == p.records[x])
      && ((forall x: nat :: x < Count(p) ==> p.records[x].key != key) ==>
            forall a: nat :: a < |Flat(pages, gs)| ==> Flat(pages, gs)[a].key != key)
  {
    var p := pages[gs[j].id];
    PageSound(pages, gs, 0, j);
    FlatAround(pages, gs, j);
    FlatBelow(pages, gs, 0, j);
    if j + 1 < |gs| {
      FlatAbove(pages, gs, 0, j + 1);
    } else {
      assert gs[j + 1..] == [];
    }
    assert Items(p, gs[j].lo) == Live(p);
    forall x: nat | x < Count(p) && p.records[x].key == key
      ensures exists a: nat :: a < |Flat(pages, gs)| && Flat(pages, gs)[a] == p.records[x]
    {
      ItemInFlat(pages, gs, j, x);
    }
  }

  /** What a search of the covering leaf finds is what the whole tree has for the key. */
  lemma LeafAnswers(pages: seq<Page>, levels: seq<seq<Span>>, j: nat, key: int, t: Ptr)
    requires LevelsOk(pages, levels) && InRange(levels[0], j, key) && Sorted(Flat(pages, levels[0]))
    requires var p := pages[levels[0][j].id];
      && (forall a: nat :: a < Count(p) && p.records[a].key == key ==> t == p.records[a].ptr)
      && ((forall a: nat :: a < Count(p) ==> p.records[a].key != key) ==> t == Null)
    ensures var m := ToMap(Flat(pages, levels[0])); t == if key in m then m[key] else Null
  {
    var p := pages[levels[0][j].id];
    LeafDecides(pages, levels[0], j, key);
    ToMapAt(Flat(pages, levels[0]), key);
    if x: nat :| x < Count(p) && p.records[x].key == key {
      assert t == p.records[x].ptr;
    }
  }

  lemma {:induction false} ToMapSize(s: seq<Entry>)
    requires Sorted(s)
    ensures |ToMap(s)| == |s|
  {
    if s != [] {
      var r, e := s[..|s| - 1], s[|s| - 1];
      ToMapSize(r);
      ToMapAt(r, e.key);
      MapsAgree(r, s, e.key, e.ptr);
    }
  }

  /** A tree of one leaf has room until it maps CARDINALITY - 1 keys. */
  lemma OneLeafRoom(t: FFBtree, key: int)
    requires t.Valid() && |t.levels| > 0 && |t.levels[0]| == 1 && key >= 0
    ensures t.HasRoom(key) <==> |t.contents| < CARDINALITY - 1
  {
    t.Opened();
    var g := t.levels[0][0];
    assert t.levels[0] == [g] && LevelOk(t.pages, t.levels[0], 0);
    PageSound(t.pages, t.levels[0], 0, 0);
    FlatOne(t.pages, g);
    ToMapSize(t.Leaves());
    RoomIs(t.pages, t.levels[0], 0, key);
  }

  method FillLeaf() returns (t: FFBtree)
    ensures fresh(t) && t.Valid() && !t.HasRoom(0) && 0 in t.contents && t.contents[0] == ValuePtr(0)
    ensures ValuePtr(CARDINALITY) !in t.contents.Values
  {
    t := new FFBtree();
    for i := 0 to CARDINALITY - 1
      invariant fresh(t) && t.Valid() && |t.levels| == 1 && |t.levels[0]| == 1 && |t.contents| == i
      invariant forall k :: k in t.contents <==> 0 <= k < i
      invariant i > 0 ==> t.contents[0] == ValuePtr(0)
      invariant forall v :: v in t.contents.Values ==> v.ValuePtr? && v.addr < i
    {
      OneLeafRoom(t, i);
      var _ := t.Insert(i, ValuePtr(i));
    }
    OneLeafRoom(t, 0);
  }

  /** Insertion does not always hand back the pointer it replaces: a key that is in a full
      leaf is found, and replaced, but its old pointer is not returned. */
  method FullLeafKeepsSilent() returns (found: Ptr, replaced: Ptr, ret: Ptr)
    ensures found == ValuePtr(0) && replaced == ValuePtr(CARDINALITY) && ret == Null
  {
    var t := FillLeaf();
    found := t.Search(0);
    ret := t.Insert(0, ValuePtr(CARDINALITY));
    replaced := t.Search(0);
  }
}
