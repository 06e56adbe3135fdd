/** All levels of the tree together, and what one insertion does to them. */
module FFTree {
  import opened FFPage
  import opened FFLevels

  ghost predicate LevelsOk(pages: seq<Page>, levels: seq<seq<Span>>) {
    |levels| > 0 && forall l: nat :: l < |levels| ==> LevelOk(pages, levels[l], l)
  }

  ghost predicate Link(pages: seq<Page>, levels: seq<seq<Span>>, l: nat)
    requires 0 < l < |levels|
  {
    Flat(pages, levels[l]) == IndexOf(levels[l - 1])
  }

  /** Every level but possibly one routes exactly to the pages of the level below. */
  ghost predicate LinksOk(pages: seq<Page>, levels: seq<seq<Span>>, skip: nat) {
    forall l: nat :: 0 < l < |levels| && l != skip ==> Link(pages, levels, l)
  }

  /** Level l still lacks the entry (key, ptr) for a page just added below it. */
  ghost predicate Pending(pages: seq<Page>, levels: seq<seq<Span>>, l: nat, key: int, ptr: Ptr) {
    && 0 < l < |levels|
    && Inserted(Flat(pages, levels[l]), IndexOf(levels[l - 1]), key, ptr)
  }

  ghost predicate PutNew(s: seq<Entry>, t: seq<Entry>, i: nat, key: int, ptr: Ptr) {
    PutAt(s, t, i, 0, key, ptr)
  }

  ghost predicate Inserted(s: seq<Entry>, t: seq<Entry>, key: int, ptr: Ptr) {
    exists i: nat :: PutNew(s, t, i, key, ptr)
  }

  ghost predicate Distinct(s: seq<Entry>) {
    && (forall a: nat, b: nat :: a < b < |s| ==> s[a].ptr != s[b].ptr)
    && (forall a: nat :: a < |s| ==> s[a].ptr.ValuePtr?)
  }

  ghost predicate Put(s: seq<Entry>, t: seq<Entry>, key: int, ptr: Ptr) {
    exists i: nat, d: nat :: PutAt(s, t, i, d, key, ptr)
  }

  // ----- descending

  /** Item x of page j of a level, and where it is in the whole level. */
  lemma ItemInFlat(pages: seq<Page>, gs: seq<Span>, j: nat, x: nat)
    requires j < |gs| && gs[j].id < |pages| && x < |Items(pages[gs[j].id], gs[j].lo)|
    ensures |Flat(pages, gs[..j])| + x < |Flat(pages, gs)|
    ensures Flat(pages, gs)[|Flat(pages, gs[..j])| + x] == Items(pages[gs[j].id], gs[j].lo)[x]
  {
    FlatAround(pages, gs, j);
  }

  lemma RouteInside(a: seq<Entry>, b: seq<Entry>, c: seq<Entry>, x: nat, key: int)
    requires Routes(b, x, key) && (c != [] ==> key < c[0].key)
    ensures Routes(a + b + c, |a| + x, key)
  {
    var s, y := a + b + c, |a| + x;
    assert s[y] == b[x];
    if x + 1 < |b| {
      assert s[y + 1] == b[x + 1];
    } else if c != [] {
      assert s[y + 1] == c[0];
    }
  }

  /** The routing entry of page j is the routing entry of the whole level. */
  lemma RouteInFlat(pages: seq<Page>, gs: seq<Span>, l: nat, j: nat, x: nat, key: int)
    requires LevelOk(pages, gs, l) && InRange(gs, j, key)
    requires Routes(Items(pages[gs[j].id], gs[j].lo), x, key)
    ensures Routes(Flat(pages, gs), |Flat(pages, gs[..j])| + x, key)
  {
    FlatAround(pages, gs, j);
    if j + 1 < |gs| {
      FlatAbove(pages, gs, l, j + 1);
    } else {
      assert gs[j + 1..] == [];
    }
    RouteInside(Flat(pages, gs[..j]), Items(pages[gs[j].id], gs[j].lo), Flat(pages, gs[j + 1..]), x, key);
  }

  /** A routing entry of the list of pages names the page that covers the key. */
  lemma RouteInIndex(gs: seq<Span>, x: nat, key: int)
    requires Routes(IndexOf(gs), x, key)
    ensures InRange(gs, x, key) && IndexOf(gs)[x].ptr == PagePtr(gs[x].id)
  {
  }

  /** Where in its level the routing entry of page j is. */
  lemma RouteAt(pages: seq<Page>, gs: seq<Span>, l: nat, j: nat, x: nat, key: int) returns (y: nat)
    requires LevelOk(pages, gs, l) && InRange(gs, j, key)
    requires Routes(Items(pages[gs[j].id], gs[j].lo), x, key)
    ensures Routes(Flat(pages, gs), y, key) && Flat(pages, gs)[y] == Items(pages[gs[j].id], gs[j].lo)[x]
  {
    y := |Flat(pages, gs[..j])| + x;
    RouteInFlat(pages, gs, l, j, x, key);
    ItemInFlat(pages, gs, j, x);
  }

  /** Following the routing entry leads to the page of the level below that covers the key. */
  lemma Child(pages: seq<Page>, levels: seq<seq<Span>>, l: nat, j: nat, x: nat, key: int) returns (j': nat)
    requires LevelsOk(pages, levels) && 0 < l < |levels| && Link(pages, levels, l)
    requires InRange(levels[l], j, key) && Routes(Items(pages[levels[l][j].id], levels[l][j].lo), x, key)
    ensures InRange(levels[l - 1], j', key)
    ensures Items(pages[levels[l][j].id], levels[l][j].lo)[x].ptr == PagePtr(levels[l - 1][j'].id)
  {
    j' := RouteAt(pages, levels[l], l, j, x, key);
    RouteInIndex(levels[l - 1], j', key);
  }

  lemma AdjacentInFlat(pages: seq<Page>, gs: seq<Span>, j: nat)
    requires j < |gs| && gs[j].id < |pages|
    requires forall a: nat, b: nat :: a < b < |Flat(pages, gs)| ==> Flat(pages, gs)[a].ptr != Flat(pages, gs)[b].ptr
    ensures AdjacentDiffer(Items(pages[gs[j].id], gs[j].lo))
  {
    var items := Items(pages[gs[j].id], gs[j].lo);
    forall a: nat | a + 1 < |items| ensures items[a].ptr != items[a + 1].ptr {
      ItemInFlat(pages, gs, j, a);
      ItemInFlat(pages, gs, j, a + 1);
    }
  }

  lemma ChildrenDiffer(pages: seq<Page>, levels: seq<seq<Span>>, l: nat, j: nat)
    requires LevelsOk(pages, levels) && 0 < l < |levels| && Link(pages, levels, l) && j < |levels[l]|
    ensures AdjacentDiffer(Items(pages[levels[l][j].id], levels[l][j].lo))
  {
    assert Chain(levels[l - 1]);
    AdjacentInFlat(pages, levels[l], j);
  }

  /** A key in the range of page j is below the first record of the next page. */
  lemma SiblingAbove(pages: seq<Page>, gs: seq<Span>, l: nat, j: nat, key: int)
    requires LevelOk(pages, gs, l) && InRange(gs, j, key) && pages[gs[j].id].sibling != Null
    ensures j + 1 < |gs| && pages[gs[j].id].sibling == PagePtr(gs[j + 1].id)
    ensures var q := pages[gs[j + 1].id]; |q.records| > 0 && key < q.records[0].key
  {
    PageIs(pages, gs, l, j);
    var q := pages[gs[j + 1].id];
    PageIs(pages, gs, l, j + 1);
    var x := if l == 0 then 0 else 1;
    assert Items(q, gs[j + 1].lo)[x] == q.records[0];
  }

  // ----- one level changes

  /** Levels other than l are untouched when only pages of level l change. */
  ghost predicate OnlyLevel(pages: seq<Page>, pages': seq<Page>, l: nat) {
    && |pages| <= |pages'|
    && forall i: nat :: i < |pages| && pages[i].level != l ==> pages'[i] == pages[i]
  }

  lemma LevelsAfter(pages: seq<Page>, pages': seq<Page>, levels: seq<seq<Span>>, l: nat, gs: seq<Span>)
    requires LevelsOk(pages, levels) && l < |levels| && OnlyLevel(pages, pages', l) && LevelOk(pages', gs, l)
    ensures LevelsOk(pages', levels[l := gs])
    ensures forall m: nat :: m < |levels| && m != l ==> Flat(pages', levels[m]) == Flat(pages, levels[m])
  {
    forall m: nat | m < |levels| && m != l
      ensures LevelOk(pages', levels[m], m) && Flat(pages', levels[m]) == Flat(pages, levels[m])
    {
      LevelFrame(pages, pages', levels[m], m);
    }
  }

  lemma ItemsPut(p: Page, q: Page, lo: int, i: nat, d: nat, key: int, ptr: Ptr)
    requires PageOk(p) && PageOk(q) && q.leftmost == p.leftmost && PutAt(Live(p), Live(q), i, d, key, ptr)
    requires p.leftmost != Null ==> lo < key
    ensures Put(Items(p, lo), Items(q, lo), key, ptr)
  {
    if p.leftmost == Null {
      assert PutAt(Items(p, lo), Items(q, lo), i, d, key, ptr);
    } else {
      PutInside([Entry(lo, p.leftmost)], Live(p), Live(q), [], i, d, key, ptr);
      assert [Entry(lo, p.leftmost)] + Live(p) + [] == Items(p, lo);
      assert [Entry(lo, p.leftmost)] + Live(q) + [] == Items(q, lo);
      assert PutAt(Items(p, lo), Items(q, lo), 1 + i, d, key, ptr);
    }
  }

  lemma PutMember(s: seq<Entry>, t: seq<Entry>, key: int, ptr: Ptr, x: nat)
    requires Put(s, t, key, ptr) && x < |t|
    ensures t[x] == Entry(key, ptr) || t[x] in s
  {
  }

  /** The page with the new record may stand where the old one stood. */
  lemma PageAtPut(p: Page, q: Page, gs: seq<Span>, j: nat, l: nat, key: int, ptr: Ptr)
    requires j < |gs| && PageAt(p, gs, j, l) && InRange(gs, j, key)
    requires PageOk(q) && q.leftmost == p.leftmost && q.sibling == p.sibling && q.level == p.level
    requires Put(Items(p, gs[j].lo), Items(q, gs[j].lo), key, ptr) && Put(Live(p), Live(q), key, ptr)
    requires l > 0 ==> gs[j].lo < key
    ensures PageAt(q, gs, j, l) && Count(q) > 0
  {
    var s, t := Items(p, gs[j].lo), Items(q, gs[j].lo);
    forall x: nat | x < |t| ensures InRange(gs, j, t[x].key) {
      PutMember(s, t, key, ptr, x);
    }
    forall x: nat | x < Count(q) && l > 0 ensures gs[j].lo < q.records[x].key {
      PutMember(Live(p), Live(q), key, ptr, x);
      assert Live(q)[x] == q.records[x];
    }
  }

  /** In a level that lacks an entry for key, no entry has that key. */
  lemma PendingAbsent(pages: seq<Page>, levels: seq<seq<Span>>, l: nat, j: nat, key: int, ptr: Ptr)
    requires LevelsOk(pages, levels) && Pending(pages, levels, l, key, ptr) && InRange(levels[l], j, key)
    ensures levels[l][j].lo < key
    ensures forall a: nat :: a < Count(pages[levels[l][j].id]) ==> pages[levels[l][j].id].records[a].key != key
  {
    var gs := levels[l];
    var p := pages[gs[j].id];
    var items := Items(p, gs[j].lo);
    PageSound(pages, gs, l, j);
    forall x: nat | x < |items| ensures items[x].key != key {
      ItemInFlat(pages, gs, j, x);
    }
    assert items[0].key == gs[j].lo;
    forall a: nat | a < Count(p) ensures p.records[a].key != key {
      RecordItem(p, gs[j].lo, a);
    }
  }

  // ----- storing into a page with room

  /** What a finished store at level l has achieved, links above l aside. */
  ghost predicate Stored(pages: seq<Page>, levels: seq<seq<Span>>, pages': seq<Page>, levels': seq<seq<Span>>,
                         l: nat, key: int, ptr: Ptr) {
    && LevelsOk(pages', levels') && |levels'| == |levels| && l < |levels|
    && (forall m: nat :: m < |levels| && m != l ==> levels'[m] == levels[m] && Flat(pages', levels[m]) == Flat(pages, levels[m]))
    && Put(Flat(pages, levels[l]), Flat(pages', levels'[l]), key, ptr)
  }

  /** The same for the one level. */
  lemma LevelPut(pages: seq<Page>, gs: seq<Span>, l: nat, j: nat, q: Page, key: int, ptr: Ptr)
    requires LevelOk(pages, gs, l) && InRange(gs, j, key)
    requires PagePut(pages[gs[j].id], q, gs[j].lo, key, ptr) && (l > 0 ==> gs[j].lo < key)
    ensures var pages' := pages[gs[j].id := q];
      OnlyLevel(pages, pages', l) && LevelOk(pages', gs, l) && Put(Flat(pages, gs), Flat(pages', gs), key, ptr)
  {
    var id := gs[j].id;
    PageIs(pages, gs, l, j);
    PageAtPut(pages[id], q, gs, j, l, key, ptr);
    LevelReplace(pages, gs, l, j, q);
    FlatReplace(pages, gs, j, q);
    PutFlat(pages, gs, l, j, Items(q, gs[j].lo), Flat(pages[id := q], gs), key, ptr);
  }

  lemma StoreFits(pages: seq<Page>, levels: seq<seq<Span>>, l: nat, j: nat, q: Page, key: int, ptr: Ptr)
    requires LevelsOk(pages, levels) && l < |levels| && InRange(levels[l], j, key)
    requires PagePut(pages[levels[l][j].id], q, levels[l][j].lo, key, ptr) && (l > 0 ==> levels[l][j].lo < key)
    ensures Stored(pages, levels, pages[levels[l][j].id := q], levels, l, key, ptr)
  {
    var gs := levels[l];
    LevelPut(pages, gs, l, j, q, key, ptr);
    StoredFrom(pages, levels, pages[gs[j].id := q], gs, l, key, ptr);
    assert levels[l := gs] == levels;
  }

  // ----- storing into a full page

  /** Cutting a sorted sequence before the entry with the split key. */
  lemma SplitSorted(s: seq<Entry>, a: seq<Entry>, b: seq<Entry>, splitKey: int)
    requires Sorted(s) && a + b == s && b != [] && b[0].key == splitKey
    ensures forall x: nat :: x < |a| ==> a[x].key < splitKey && a[x] in s && (x > 0 ==> s[0].key < a[x].key)
    ensures forall x: nat :: x < |b| ==> b[x] in s && (x > 0 ==> splitKey < b[x].key)
  {
    forall x: nat | x < |a| ensures a[x].key < splitKey && a[x] in s && (x > 0 ==> s[0].key < a[x].key) {
      assert s[x] == a[x] && s[|a|] == b[0];
    }
    forall x: nat | x < |b| ensures b[x] in s && (x > 0 ==> splitKey < b[x].key) {
      assert s[|a| + x] == b[x] && s[|a|] == b[0];
    }
  }

  lemma ItemsInRange(p: Page, gs: seq<Span>, j: nat, l: nat, e: Entry)
    requires j < |gs| && PageAt(p, gs, j, l) && e in Items(p, gs[j].lo)
    ensures InRange(gs, j, e.key)
  {
  }

  lemma SplitRanges(p: Page, gs: seq<Span>, j: nat, l: nat, left: Page, sib: Page, splitKey: int)
    requires j < |gs| && PageAt(p, gs, j, l)
    requires Items(left, gs[j].lo) + Items(sib, splitKey) == Items(p, gs[j].lo)
    requires Items(sib, splitKey) != [] && Items(sib, splitKey)[0].key == splitKey
    ensures forall x: nat :: x < |Items(left, gs[j].lo)| ==> gs[j].lo <= Items(left, gs[j].lo)[x].key < splitKey
    ensures l > 0 ==> forall x: nat :: 0 < x < |Items(left, gs[j].lo)| ==> gs[j].lo < Items(left, gs[j].lo)[x].key
    ensures forall x: nat :: x < |Items(sib, splitKey)| ==> InRange(gs, j, Items(sib, splitKey)[x].key)
    ensures forall x: nat :: 0 < x < |Items(sib, splitKey)| ==> splitKey < Items(sib, splitKey)[x].key
    ensures InRange(gs, j, splitKey)
  {
    ItemsSorted(p, gs, j, l);
    var s, a, b := Items(p, gs[j].lo), Items(left, gs[j].lo), Items(sib, splitKey);
    SplitSorted(s, a, b, splitKey);
    forall x: nat | x < |a| ensures gs[j].lo <= a[x].key { ItemsInRange(p, gs, j, l, a[x]); }
    forall x: nat | x < |b| ensures InRange(gs, j, b[x].key) { ItemsInRange(p, gs, j, l, b[x]); }
    assert InRange(gs, j, b[0].key);
  }

  lemma RecordItem(p: Page, lo: int, x: nat)
    requires PageOk(p) && p.leftmost != Null && x < Count(p)
    ensures |Items(p, lo)| == Count(p) + 1 && Items(p, lo)[x + 1] == p.records[x]
  {
  }

  lemma RecordsAbove(p: Page, lo: int)
    requires PageOk(p) && p.leftmost != Null && forall x: nat :: 0 < x < |Items(p, lo)| ==> lo < Items(p, lo)[x].key
    ensures forall x: nat :: x < Count(p) ==> lo < p.records[x].key
  {
    forall x: nat | x < Count(p) ensures lo < p.records[x].key { RecordItem(p, lo, x); }
  }

  /** The two halves of a page may stand side by side in its place. */
  lemma SplitPages(p: Page, gs: seq<Span>, j: nat, l: nat, left: Page, sib: Page, splitKey: int, id: nat)
    requires Chain(gs) && j < |gs| && PageAt(p, gs, j, l)
    requires PageOk(left) && PageOk(sib) && Count(left) > 0 && Count(sib) > 0
    requires left.leftmost == p.leftmost && left.level == p.level && left.sibling == PagePtr(id)
    requires (sib.leftmost == Null <==> p.leftmost == Null) && sib.level == p.level && sib.sibling == p.sibling
    requires Items(left, gs[j].lo) + Items(sib, splitKey) == Items(p, gs[j].lo)
    requires Items(sib, splitKey)[0].key == splitKey
    ensures InRange(gs, j, splitKey)
    ensures var hs := WithSpan(gs, j, Span(id, splitKey)); PageAt(left, hs, j, l) && PageAt(sib, hs, j + 1, l)
  {
    SplitRanges(p, gs, j, l, left, sib, splitKey);
    WithSpanNear(gs, j, Span(id, splitKey));
    LeftHalf(gs, j, l, left, WithSpan(gs, j, Span(id, splitKey)));
    RightHalf(gs, j, l, sib, WithSpan(gs, j, Span(id, splitKey)));
  }

  lemma LeftHalf(gs: seq<Span>, j: nat, l: nat, left: Page, hs: seq<Span>)
    requires j < |gs| && j + 1 < |hs| && hs[j] == gs[j]
    requires PageOk(left) && Count(left) > 0 && left.level == l && (left.leftmost == Null <==> l == 0)
    requires left.sibling == PagePtr(hs[j + 1].id)
    requires var s := Items(left, gs[j].lo);
      && (forall x: nat :: x < |s| ==> gs[j].lo <= s[x].key < hs[j + 1].lo)
      && (l > 0 ==> forall x: nat :: 0 < x < |s| ==> gs[j].lo < s[x].key)
    ensures PageAt(left, hs, j, l)
  {
    if l > 0 { RecordsAbove(left, gs[j].lo); }
  }

  lemma RightHalf(gs: seq<Span>, j: nat, l: nat, sib: Page, hs: seq<Span>)
    requires j < |gs| && |hs| == |gs| + 1 && (j + 1 < |gs| ==> hs[j + 2] == gs[j + 1])
    requires PageOk(sib) && Count(sib) > 0 && sib.level == l && (sib.leftmost == Null <==> l == 0)
    requires sib.sibling == if j + 1 < |gs| then PagePtr(gs[j + 1].id) else Null
    requires var s := Items(sib, hs[j + 1].lo);
      && (forall x: nat :: x < |s| ==> InRange(gs, j, s[x].key)) && s != [] && s[0].key == hs[j + 1].lo
      && (forall x: nat :: 0 < x < |s| ==> hs[j + 1].lo < s[x].key)
    ensures PageAt(sib, hs, j + 1, l)
  {
    if l > 0 { RecordsAbove(sib, hs[j + 1].lo); }
  }

  /** q is p with one record put into it. */
  ghost predicate PagePut(p: Page, q: Page, lo: int, key: int, ptr: Ptr) {
    && PageOk(p) && PageOk(q) && q.leftmost == p.leftmost && q.sibling == p.sibling && q.level == p.level
    && Put(Items(p, lo), Items(q, lo), key, ptr) && Put(Live(p), Live(q), key, ptr)
  }

  /** left and sib are the halves of p with the new record put into the right one. */
  ghost predicate SplitPut(p: Page, left: Page, sib: Page, lo: int, splitKey: int, id: nat, left': Page, sib': Page, key: int, ptr: Ptr) {
    && PageOk(left) && PageOk(sib) && Count(left) > 0 && Count(sib) > 0
    && left.leftmost == p.leftmost && left.level == p.level && left.sibling == PagePtr(id)
    && (sib.leftmost == Null <==> p.leftmost == Null) && sib.level == p.level && sib.sibling == p.sibling
    && Items(left, lo) + Items(sib, splitKey) == Items(p, lo)
    && Items(sib, splitKey)[0].key == splitKey && lo < splitKey
    && (if key < splitKey then PagePut(left, left', lo, key, ptr) && sib' == sib
        else PagePut(sib, sib', splitKey, key, ptr) && left' == left)
  }

  lemma SplitPutItems(p: Page, gs: seq<Span>, j: nat, l: nat, left: Page, sib: Page, splitKey: int, id: nat,
                      left': Page, sib': Page, key: int, ptr: Ptr)
    requires j < |gs| && PageAt(p, gs, j, l)
    requires SplitPut(p, left, sib, gs[j].lo, splitKey, id, left', sib', key, ptr)
    ensures Put(Items(p, gs[j].lo), Items(left', gs[j].lo) + Items(sib', splitKey), key, ptr)
  {
    SplitRanges(p, gs, j, l, left, sib, splitKey);
    if key < splitKey {
      PutLeft(Items(left, gs[j].lo), Items(left', gs[j].lo), Items(sib, splitKey), key, ptr);
    } else {
      PutRight(Items(left, gs[j].lo), Items(sib, splitKey), Items(sib', splitKey), key, ptr);
    }
  }

  lemma PutLeft(a: seq<Entry>, a': seq<Entry>, b: seq<Entry>, key: int, ptr: Ptr)
    requires Put(a, a', key, ptr) && forall x: nat :: x < |b| ==> b[x].key > key
    ensures Put(a + b, a' + b, key, ptr)
  {
    var i, d :| PutAt(a, a', i, d, key, ptr);
    PutInside([], a, a', b, i, d, key, ptr);
    assert [] + a + b == a + b && [] + a' + b == a' + b;
  }

  lemma PutRight(a: seq<Entry>, b: seq<Entry>, b': seq<Entry>, key: int, ptr: Ptr)
    requires Put(b, b', key, ptr) && forall x: nat :: x < |a| ==> a[x].key < key
    ensures Put(a + b, a + b', key, ptr)
  {
    var i, d :| PutAt(b, b', i, d, key, ptr);
    PutInside(a, b, b', [], i, d, key, ptr);
    assert a + b + [] == a + b && a + b' + [] == a + b';
  }

  lemma SplitPutPages(p: Page, gs: seq<Span>, j: nat, l: nat, left: Page, sib: Page, splitKey: int, id: nat,
                      left': Page, sib': Page, key: int, ptr: Ptr)
    requires Chain(gs) && InRange(gs, j, key) && PageAt(p, gs, j, l)
    requires SplitPut(p, left, sib, gs[j].lo, splitKey, id, left', sib', key, ptr)
    requires l > 0 ==> gs[j].lo < key && key != splitKey
    ensures InRange(gs, j, splitKey)
    ensures var hs := WithSpan(gs, j, Span(id, splitKey)); PageAt(left', hs, j, l) && PageAt(sib', hs, j + 1, l)
  {
    SplitPages(p, gs, j, l, left, sib, splitKey, id);
    var hs := WithSpan(gs, j, Span(id, splitKey));
    WithSpanNear(gs, j, Span(id, splitKey));
    if key < splitKey {
      PageAtPut(left, left', hs, j, l, key, ptr);
    } else {
      PageAtPut(sib, sib', hs, j + 1, l, key, ptr);
    }
  }

  lemma PutFlat(pages: seq<Page>, gs: seq<Span>, l: nat, j: nat, items': seq<Entry>, flat': seq<Entry>, key: int, ptr: Ptr)
    requires LevelOk(pages, gs, l) && InRange(gs, j, key)
    requires Put(Items(pages[gs[j].id], gs[j].lo), items', key, ptr)
    requires flat' == Flat(pages, gs[..j]) + items' + Flat(pages, gs[j + 1..])
    ensures Put(Flat(pages, gs), flat', key, ptr)
  {
    var i, d :| PutAt(Items(pages[gs[j].id], gs[j].lo), items', i, d, key, ptr);
    PutInLevel(pages, gs, l, j, items', i, d, key, ptr);
  }

  lemma LevelSplits(pages: seq<Page>, gs: seq<Span>, l: nat, j: nat, left: Page, sib: Page, splitKey: int,
                    left': Page, sib': Page, key: int, ptr: Ptr)
    requires LevelOk(pages, gs, l) && InRange(gs, j, key)
    requires SplitPut(pages[gs[j].id], left, sib, gs[j].lo, splitKey, |pages|, left', sib', key, ptr)
    requires l > 0 ==> gs[j].lo < key && key != splitKey
    ensures var gs', pages' := WithSpan(gs, j, Span(|pages|, splitKey)), pages[gs[j].id := left'] + [sib'];
      && LevelOk(pages', gs', l) && Put(Flat(pages, gs), Flat(pages', gs'), key, ptr)
      && Inserted(IndexOf(gs), IndexOf(gs'), splitKey, PagePtr(|pages|))
  {
    var p := pages[gs[j].id];
    PageIs(pages, gs, l, j);
    SplitPutPages(p, gs, j, l, left, sib, splitKey, |pages|, left', sib', key, ptr);
    LevelSplit(pages, gs, l, j, left', sib', splitKey);
    SplitPutItems(p, gs, j, l, left, sib, splitKey, |pages|, left', sib', key, ptr);
    FlatSplit(pages, gs, j, left', sib', splitKey);
    var gs', pages' := WithSpan(gs, j, Span(|pages|, splitKey)), pages[gs[j].id := left'] + [sib'];
    PutFlat(pages, gs, l, j, Items(left', gs[j].lo) + Items(sib', splitKey), Flat(pages', gs'), key, ptr);
    IndexWith(gs, j, Span(|pages|, splitKey));
    assert PutNew(IndexOf(gs), IndexOf(gs'), j + 1, splitKey, PagePtr(|pages|));
  }

  lemma StoredFrom(pages: seq<Page>, levels: seq<seq<Span>>, pages': seq<Page>, gs': seq<Span>, l: nat, key: int, ptr: Ptr)
    requires LevelsOk(pages, levels) && l < |levels| && OnlyLevel(pages, pages', l) && LevelOk(pages', gs', l)
    requires Put(Flat(pages, levels[l]), Flat(pages', gs'), key, ptr)
    ensures Stored(pages, levels, pages', levels[l := gs'], l, key, ptr)
  {
    LevelsAfter(pages, pages', levels, l, gs');
  }

  lemma OnlyThisLevel(pages: seq<Page>, gs: seq<Span>, l: nat, j: nat, left: Page, sib: Page)
    requires LevelOk(pages, gs, l) && j < |gs|
    ensures OnlyLevel(pages, pages[gs[j].id := left] + [sib], l)
  {
    PageSound(pages, gs, l, j);
  }

  lemma StoreSplits(pages: seq<Page>, levels: seq<seq<Span>>, l: nat, j: nat, left: Page, sib: Page, splitKey: int,
                    left': Page, sib': Page, key: int, ptr: Ptr, pages': seq<Page>, gs': seq<Span>)
    requires LevelsOk(pages, levels) && l < |levels| && InRange(levels[l], j, key)
    requires SplitPut(pages[levels[l][j].id], left, sib, levels[l][j].lo, splitKey, |pages|, left', sib', key, ptr)
    requires l > 0 ==> levels[l][j].lo < key && key != splitKey
    requires gs' == WithSpan(levels[l], j, Span(|pages|, splitKey))
    requires pages' == pages[levels[l][j].id := left'] + [sib']
    ensures Stored(pages, levels, pages', levels[l := gs'], l, key, ptr)
    ensures Inserted(IndexOf(levels[l]), IndexOf(gs'), splitKey, PagePtr(|pages|))
  {
    LevelSplits(pages, levels[l], l, j, left, sib, splitKey, left', sib', key, ptr);
    OnlyThisLevel(pages, levels[l], l, j, left', sib');
    StoredFrom(pages, levels, pages', gs', l, key, ptr);
  }

  // ----- links

  lemma PutMatchesPending(s: seq<Entry>, t: seq<Entry>, t': seq<Entry>, key: int, ptr: Ptr)
    requires Put(s, t, key, ptr) && Inserted(s, t', key, ptr)
    ensures t == t'
  {
    var i, d :| PutAt(s, t, i, d, key, ptr);
    var i' :| PutNew(s, t', i', key, ptr);
    PutUnique(s, t, t', i, d, i', 0, key, ptr);
  }

  lemma LinkAfter(pages: seq<Page>, levels: seq<seq<Span>>, pages': seq<Page>, levels': seq<seq<Span>>, l: nat, key: int, ptr: Ptr, m: nat)
    requires LinksOk(pages, levels, l) && Stored(pages, levels, pages', levels', l, key, ptr)
    requires l > 0 ==> Pending(pages, levels, l, key, ptr)
    requires 0 < m < |levels| && (m == l + 1 ==> levels'[l] == levels[l])
    ensures Link(pages', levels', m)
  {
    if m == l {
      PutMatchesPending(Flat(pages, levels[l]), Flat(pages', levels'[l]), IndexOf(levels[l - 1]), key, ptr);
    } else {
      assert Link(pages, levels, m);
    }
  }

  /** A store completes its own level; the level above now lacks what the store added. */
  lemma LinksAfter(pages: seq<Page>, levels: seq<seq<Span>>, pages': seq<Page>, levels': seq<seq<Span>>, l: nat, key: int, ptr: Ptr)
    requires LinksOk(pages, levels, l) && Stored(pages, levels, pages', levels', l, key, ptr)
    requires l > 0 ==> Pending(pages, levels, l, key, ptr)
    ensures LinksOk(pages', levels', l + 1)
    ensures levels'[l] == levels[l] ==> LinksOk(pages', levels', 0)
  {
    forall m: nat | 0 < m < |levels| && m != l + 1 ensures Link(pages', levels', m) {
      LinkAfter(pages, levels, pages', levels', l, key, ptr, m);
    }
    if levels'[l] == levels[l] {
      forall m: nat | 0 < m < |levels| ensures Link(pages', levels', m) {
        LinkAfter(pages, levels, pages', levels', l, key, ptr, m);
      }
    }
  }

  lemma PendingAfter(pages: seq<Page>, levels: seq<seq<Span>>, pages': seq<Page>, levels': seq<seq<Span>>, l: nat, key: int, ptr: Ptr,
                     splitKey: int, sib: Ptr)
    requires LinksOk(pages, levels, l) && Stored(pages, levels, pages', levels', l, key, ptr) && l + 1 < |levels|
    requires Inserted(IndexOf(levels[l]), IndexOf(levels'[l]), splitKey, sib)
    ensures Pending(pages', levels', l + 1, splitKey, sib)
  {
    assert Link(pages, levels, l + 1);
  }

  /** Split a full page and put the new record into the half it belongs to. */
  method SplitAndInsert(p: Page, id: nat, key: int, ptr: Ptr, ghost lo: int)
    returns (left': Page, sib': Page, splitKey: int, ghost left: Page, ghost sib: Page)
    requires PageOk(p) && Count(p) == CARDINALITY - 1 && ptr != Null && lo <= p.records[0].key
    requires p.leftmost != Null ==> lo < key && forall a: nat :: a < Count(p) ==> p.records[a].key != key
    ensures SplitPut(p, left, sib, lo, splitKey, id, left', sib', key, ptr)
    ensures p.leftmost != Null ==> key != splitKey
  {
    var a, b, k := SplitPage(p, id);
    left, sib, splitKey := a, b, k;
    left', sib' := a, b;
    if p.leftmost != Null {
      SplitKeysFrom(p, a, b, lo, k, key);
    }
    if key < splitKey {
      var q, n, _, i, d := InsertKey(a, key, ptr, Count(a));
      ItemsPut(a, q, lo, i, d, key, ptr);
      left' := q;
    } else {
      var q, n, _, i, d := InsertKey(b, key, ptr, Count(b));
      ItemsPut(b, q, splitKey, i, d, key, ptr);
      sib' := q;
    }
  }

  lemma ItemsDiffer(p: Page, lo: int, key: int)
    requires PageOk(p) && p.leftmost != Null && forall a: nat :: a < Count(p) ==> p.records[a].key != key
    ensures forall a: nat :: 0 < a < |Items(p, lo)| ==> Items(p, lo)[a].key != key
  {
    forall a: nat | 0 < a < |Items(p, lo)| ensures Items(p, lo)[a].key != key { RecordItem(p, lo, a - 1); }
  }

  lemma SplitKeysFrom(p: Page, left: Page, sib: Page, lo: int, splitKey: int, key: int)
    requires PageOk(p) && PageOk(left) && PageOk(sib) && Count(sib) > 0
    requires p.leftmost != Null && left.leftmost == p.leftmost && sib.leftmost != Null
    requires Items(left, lo) + Items(sib, splitKey) == Items(p, lo)
    requires forall a: nat :: a < Count(p) ==> p.records[a].key != key
    ensures key != splitKey
    ensures forall a: nat :: a < Count(left) ==> left.records[a].key != key
    ensures forall a: nat :: a < Count(sib) ==> sib.records[a].key != key
  {
    var s, n := Items(p, lo), |Items(left, lo)|;
    ItemsDiffer(p, lo, key);
    assert s[n] == Items(sib, splitKey)[0];
    forall a: nat | a < Count(left) ensures left.records[a].key != key {
      RecordItem(left, lo, a);
      assert s[a + 1] == Items(left, lo)[a + 1];
    }
    forall a: nat | a < Count(sib) ensures sib.records[a].key != key {
      RecordItem(sib, splitKey, a);
      assert s[n + (a + 1)] == Items(sib, splitKey)[a + 1];
    }
  }
}
