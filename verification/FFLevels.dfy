/** The shape of a FAST and FAIR B+tree, level by level.  Each level is a chain of
    pages in key order; the routing entries of one level, read from left to right,
    list exactly the pages of the level below. */
module FFLevels {
  import opened FFPage
  import opened Bits

  /** A page of a level and the smallest key it may hold; -1 is below all keys. */
  datatype Span = Span(id: nat, lo: int)

  ghost function Flat(pages: seq<Page>, gs: seq<Span>): seq<Entry> {
    if gs == [] then []
    else (if gs[0].id < |pages| then Items(pages[gs[0].id], gs[0].lo) else []) + Flat(pages, gs[1..])
  }

  /** The entries that should route to the pages gs. */
  ghost function IndexOf(gs: seq<Span>): seq<Entry> {
    seq(|gs|, i requires 0 <= i < |gs| => Entry(gs[i].lo, PagePtr(gs[i].id)))
  }

  ghost predicate InRange(gs: seq<Span>, j: nat, key: int) {
    j < |gs| && gs[j].lo <= key && (j + 1 < |gs| ==> key < gs[j + 1].lo)
  }

  /** Page p may stand at place j of the chain gs of level l. */
  ghost predicate PageAt(p: Page, gs: seq<Span>, j: nat, l: nat)
    requires j < |gs|
  {
    && PageOk(p) && p.level == l
    && (p.leftmost == Null <==> l == 0)
    && (Count(p) == 0 ==> l == 0 && |gs| == 1)
    && p.sibling == (if j + 1 < |gs| then PagePtr(gs[j + 1].id) else Null)
    && (forall x: nat :: x < |Items(p, gs[j].lo)| ==> InRange(gs, j, Items(p, gs[j].lo)[x].key))
    && (l > 0 ==> forall x: nat :: x < Count(p) ==> gs[j].lo < p.records[x].key)
  }

  ghost predicate Chain(gs: seq<Span>) {
    && |gs| > 0 && gs[0].lo == -1
    && (forall a: nat, b: nat :: a < b < |gs| ==> gs[a].lo < gs[b].lo && gs[a].id != gs[b].id)
  }

  ghost predicate LevelOk(pages: seq<Page>, gs: seq<Span>, l: nat) {
    && Chain(gs) && IdsIn(gs, |pages|) && PagesAt(pages, gs, l)
    && (forall j: nat {:trigger pages[gs[j].id]} :: j < |gs| ==> Sized(pages[gs[j].id]))
  }

  ghost predicate IdsIn(gs: seq<Span>, n: nat) {
    forall j: nat :: j < |gs| ==> gs[j].id < n
  }

  ghost predicate Sized(p: Page) {
    |p.records| == CARDINALITY && 0 <= Count(p) < CARDINALITY
  }

  ghost predicate PagesAt(pages: seq<Page>, gs: seq<Span>, l: nat)
    requires IdsIn(gs, |pages|)
  {
    forall u {:trigger UnfoldAt(gs, u)} :: UnfoldAt(gs, u) ==>
      forall j: nat {:trigger pages[gs[j].id]} :: j < |gs| ==> PageAt(pages[gs[j].id], gs, j, l)
  }

  lemma PageIs(pages: seq<Page>, gs: seq<Span>, l: nat, j: nat)
    requires LevelOk(pages, gs, l) && j < |gs|
    ensures PageAt(pages[gs[j].id], gs, j, l)
  {
    assert UnfoldAt(gs, 0);
  }

  lemma PageSound(pages: seq<Page>, gs: seq<Span>, l: nat, j: nat)
    requires LevelOk(pages, gs, l) && j < |gs|
    ensures var p := pages[gs[j].id];
      PageOk(p) && p.level == l && (p.leftmost == Null <==> l == 0) && (Count(p) == 0 ==> l == 0)
  {
    PageIs(pages, gs, l, j);
  }

  // ----- flattening

  lemma {:induction false} FlatConcat(pages: seq<Page>, a: seq<Span>, b: seq<Span>)
    ensures Flat(pages, a + b) == Flat(pages, a) + Flat(pages, b)
  {
    if a == [] {
      assert a + b == b;
    } else {
      assert (a + b)[1..] == a[1..] + b;
      FlatConcat(pages, a[1..], b);
    }
  }

  lemma FlatOne(pages: seq<Page>, g: Span)
    requires g.id < |pages|
    ensures Flat(pages, [g]) == Items(pages[g.id], g.lo)
  {
    assert [g][1..] == [];
  }

  lemma SplitAround(gs: seq<Span>, j: nat)
    requires j < |gs|
    ensures gs == gs[..j] + gs[j..] && gs[j..] != [] && gs[j..][0] == gs[j] && gs[j..][1..] == gs[j + 1..]
  {
  }

  lemma Assoc3(a: seq<Entry>, b: seq<Entry>, c: seq<Entry>)
    ensures a + (b + c) == a + b + c
  {
  }

  /** The entries left of page j, those of page j, and those right of it. */
  lemma FlatAround(pages: seq<Page>, gs: seq<Span>, j: nat)
    requires j < |gs| && gs[j].id < |pages|
    ensures Flat(pages, gs) ==
      Flat(pages, gs[..j]) + Items(pages[gs[j].id], gs[j].lo) + Flat(pages, gs[j + 1..])
  {
    SplitAround(gs, j);
    FlatConcat(pages, gs[..j], gs[j..]);
    FlatHead(pages, gs[j..], gs[j], gs[j + 1..]);
    Assoc3(Flat(pages, gs[..j]), Items(pages[gs[j].id], gs[j].lo), Flat(pages, gs[j + 1..]));
  }

  lemma FlatHead(pages: seq<Page>, gs: seq<Span>, g: Span, rest: seq<Span>)
    requires gs != [] && gs[0] == g && gs[1..] == rest && g.id < |pages|
    ensures Flat(pages, gs) == Items(pages[g.id], g.lo) + Flat(pages, rest)
  {
  }

  lemma {:induction false} FlatFrame(pages: seq<Page>, pages': seq<Page>, gs: seq<Span>)
    requires forall j: nat :: j < |gs| ==> gs[j].id < |pages| && gs[j].id < |pages'|
    requires forall j: nat :: j < |gs| ==> pages[gs[j].id] == pages'[gs[j].id]
    ensures Flat(pages, gs) == Flat(pages', gs)
  {
    if gs != [] {
      FlatFrame(pages, pages', gs[1..]);
    }
  }

  /** Everything left of page j is below its range, everything right of it above. */
  lemma {:induction false} FlatBelow(pages: seq<Page>, gs: seq<Span>, l: nat, j: nat)
    requires LevelOk(pages, gs, l) && j < |gs|
    ensures forall x: nat :: x < |Flat(pages, gs[..j])| ==> Flat(pages, gs[..j])[x].key < gs[j].lo
  {
    if j > 0 {
      FlatBelow(pages, gs, l, j - 1);
      assert gs[..j] == gs[..j - 1] + [gs[j - 1]];
      FlatConcat(pages, gs[..j - 1], [gs[j - 1]]);
      FlatOne(pages, gs[j - 1]);
      PageIs(pages, gs, l, j - 1);
    }
  }

  lemma {:induction false} FlatAbove(pages: seq<Page>, gs: seq<Span>, l: nat, j: nat)
    requires LevelOk(pages, gs, l) && j < |gs|
    ensures forall x: nat :: x < |Flat(pages, gs[j..])| ==> Flat(pages, gs[j..])[x].key >= gs[j].lo
    decreases |gs| - j
  {
    assert gs[j..] == [gs[j]] + gs[j + 1..];
    FlatConcat(pages, [gs[j]], gs[j + 1..]);
    FlatOne(pages, gs[j]);
    PageIs(pages, gs, l, j);
    if j + 1 < |gs| {
      FlatAbove(pages, gs, l, j + 1);
    }
  }

  lemma ItemsSorted(p: Page, gs: seq<Span>, j: nat, l: nat)
    requires j < |gs| && PageAt(p, gs, j, l)
    ensures Sorted(Items(p, gs[j].lo))
  {
  }

  lemma {:induction false} FlatSorted(pages: seq<Page>, gs: seq<Span>, l: nat, j: nat)
    requires LevelOk(pages, gs, l) && j <= |gs|
    ensures Sorted(Flat(pages, gs[j..]))
    decreases |gs| - j
  {
    if j < |gs| {
      assert gs[j..] == [gs[j]] + gs[j + 1..];
      FlatConcat(pages, [gs[j]], gs[j + 1..]);
      FlatOne(pages, gs[j]);
      PageIs(pages, gs, l, j);
      ItemsSorted(pages[gs[j].id], gs, j, l);
      FlatSorted(pages, gs, l, j + 1);
      if j + 1 < |gs| {
        FlatAbove(pages, gs, l, j + 1);
      }
    }
  }

  /** Putting an in-range key into the items of page j is putting it into the level. */
  lemma PutInLevel(pages: seq<Page>, gs: seq<Span>, l: nat, j: nat, items': seq<Entry>, i: nat, d: nat, key: int, ptr: Ptr)
    requires LevelOk(pages, gs, l) && InRange(gs, j, key)
    requires PutAt(Items(pages[gs[j].id], gs[j].lo), items', i, d, key, ptr)
    ensures PutAt(Flat(pages, gs), Flat(pages, gs[..j]) + items' + Flat(pages, gs[j + 1..]),
                  |Flat(pages, gs[..j])| + i, d, key, ptr)
  {
    FlatAround(pages, gs, j);
    FlatBelow(pages, gs, l, j);
    if j + 1 < |gs| {
      FlatAbove(pages, gs, l, j + 1);
    } else {
      assert gs[j + 1..] == [];
    }
    PutInside(Flat(pages, gs[..j]), Items(pages[gs[j].id], gs[j].lo), items', Flat(pages, gs[j + 1..]), i, d, key, ptr);
  }

  // ----- changing a level

  lemma FlatReplace(pages: seq<Page>, gs: seq<Span>, j: nat, q: Page)
    requires Chain(gs) && j < |gs|
    requires forall a: nat :: a < |gs| ==> gs[a].id < |pages|
    ensures Flat(pages[gs[j].id := q], gs) ==
      Flat(pages, gs[..j]) + Items(q, gs[j].lo) + Flat(pages, gs[j + 1..])
  {
    var pages' := pages[gs[j].id := q];
    FlatAround(pages', gs, j);
    FlatAgree(pages, pages', gs, j);
  }

  /** Replacing page j by one that may stand there. */
  lemma LevelReplace(pages: seq<Page>, gs: seq<Span>, l: nat, j: nat, q: Page)
    requires LevelOk(pages, gs, l) && j < |gs| && PageAt(q, gs, j, l)
    ensures LevelOk(pages[gs[j].id := q], gs, l)
  {
    assert UnfoldAt(gs, 0);
  }

  lemma LevelFrame(pages: seq<Page>, pages': seq<Page>, gs: seq<Span>, l: nat)
    requires LevelOk(pages, gs, l) && |pages| <= |pages'|
    requires forall i: nat :: i < |pages| && pages[i].level == l ==> pages'[i] == pages[i]
    ensures LevelOk(pages', gs, l) && Flat(pages', gs) == Flat(pages, gs)
  {
    assert UnfoldAt(gs, 0);
    FlatFrame(pages, pages', gs);
  }

  ghost function WithSpan(gs: seq<Span>, j: nat, g: Span): seq<Span>
    requires j < |gs|
  {
    gs[..j + 1] + [g] + gs[j + 1..]
  }

  lemma WithSpanAt(gs: seq<Span>, j: nat, g: Span)
    requires j < |gs|
    ensures var hs := WithSpan(gs, j, g);
      && |hs| == |gs| + 1 && hs[j + 1] == g
      && (forall a: nat :: a <= j ==> hs[a] == gs[a])
      && (forall a: nat :: j + 1 < a < |hs| ==> hs[a] == gs[a - 1])
  {
  }

  lemma WithSpanNear(gs: seq<Span>, j: nat, g: Span)
    requires j < |gs|
    ensures var hs := WithSpan(gs, j, g);
      |hs| == |gs| + 1 && hs[j] == gs[j] && hs[j + 1] == g && (j + 1 < |gs| ==> hs[j + 2] == gs[j + 1])
  {
  }

  lemma WithSpanIs(gs: seq<Span>, j: nat, g: Span)
    requires j < |gs|
    ensures WithSpan(gs, j, g) == gs[..j] + [gs[j]] + [g] + gs[j + 1..]
  {
    assert gs[..j + 1] == gs[..j] + [gs[j]];
  }

  lemma ChainWith(gs: seq<Span>, j: nat, g: Span)
    requires Chain(gs) && InRange(gs, j, g.lo) && gs[j].lo < g.lo
    requires forall a: nat :: a < |gs| ==> gs[a].id != g.id
    ensures Chain(WithSpan(gs, j, g))
  {
    WithSpanAt(gs, j, g);
  }

  lemma IndexWith(gs: seq<Span>, j: nat, g: Span)
    requires Chain(gs) && InRange(gs, j, g.lo) && gs[j].lo < g.lo
    ensures PutAt(IndexOf(gs), IndexOf(WithSpan(gs, j, g)), j + 1, 0, g.lo, PagePtr(g.id))
  {
    WithSpanAt(gs, j, g);
    var s, t := IndexOf(gs), IndexOf(WithSpan(gs, j, g));
    assert t == s[..j + 1] + [Entry(g.lo, PagePtr(g.id))] + s[j + 1..];
  }

  lemma PageAtMoved(p: Page, gs: seq<Span>, j: nat, hs: seq<Span>, j': nat, l: nat)
    requires j < |gs| && j' < |hs| && PageAt(p, gs, j, l) && |gs| > 1
    requires hs[j'].lo == gs[j].lo
    requires j + 1 < |gs| ==> j' + 1 < |hs| && hs[j' + 1] == gs[j + 1]
    requires j + 1 == |gs| ==> j' + 1 == |hs|
    ensures PageAt(p, hs, j', l)
  {
  }

  lemma SplitPageAt(pages: seq<Page>, gs: seq<Span>, l: nat, j: nat, left: Page, sib: Page, splitKey: int, a: nat)
    requires LevelOk(pages, gs, l) && j < |gs| && a <= |gs|
    requires var hs := WithSpan(gs, j, Span(|pages|, splitKey));
      PageAt(left, hs, j, l) && PageAt(sib, hs, j + 1, l)
    ensures var hs, pages' := WithSpan(gs, j, Span(|pages|, splitKey)), pages[gs[j].id := left] + [sib];
      hs[a].id < |pages'| && PageAt(pages'[hs[a].id], hs, a, l)
  {
    var hs, pages' := WithSpan(gs, j, Span(|pages|, splitKey)), pages[gs[j].id := left] + [sib];
    WithSpanAt(gs, j, Span(|pages|, splitKey));
    if a < j {
      PageIs(pages, gs, l, a);
      PageAtMoved(pages[gs[a].id], gs, a, hs, a, l);
    } else if a > j + 1 {
      PageIs(pages, gs, l, a - 1);
      PageAtMoved(pages[gs[a - 1].id], gs, a - 1, hs, a, l);
    }
  }

  /** Page j is cut in two: its left part stays, the right part becomes a new page. */
  lemma LevelSplit(pages: seq<Page>, gs: seq<Span>, l: nat, j: nat, left: Page, sib: Page, splitKey: int)
    requires LevelOk(pages, gs, l) && InRange(gs, j, splitKey) && gs[j].lo < splitKey
    requires var hs := WithSpan(gs, j, Span(|pages|, splitKey));
      PageAt(left, hs, j, l) && PageAt(sib, hs, j + 1, l)
    ensures LevelOk(pages[gs[j].id := left] + [sib], WithSpan(gs, j, Span(|pages|, splitKey)), l)
  {
    var g := Span(|pages|, splitKey);
    var hs, pages' := WithSpan(gs, j, g), pages[gs[j].id := left] + [sib];
    WithSpanAt(gs, j, g);
    ChainWith(gs, j, g);
    forall a: nat | a < |hs| ensures hs[a].id < |pages'| && PageAt(pages'[hs[a].id], hs, a, l) && Sized(pages'[hs[a].id]) {
      SplitPageAt(pages, gs, l, j, left, sib, splitKey, a);
    }
  }

  lemma Assoc(a: seq<Entry>, b: seq<Entry>, c: seq<Entry>, d: seq<Entry>)
    ensures a + b + c + d == a + (b + c) + d
  {
  }

  lemma FlatAppend(pages: seq<Page>, a: seq<Span>, g: Span, f: seq<Entry>, p: Page)
    requires g.id < |pages| && pages[g.id] == p && f == Flat(pages, a)
    ensures Flat(pages, a + [g]) == f + Items(p, g.lo)
  {
    FlatConcat(pages, a, [g]);
    FlatOne(pages, g);
  }

  lemma FlatTwo(pages: seq<Page>, a: seq<Span>, g: Span, h: Span, c: seq<Span>, left: Page, sib: Page)
    requires g.id < |pages| && h.id < |pages| && pages[g.id] == left && pages[h.id] == sib
    ensures Flat(pages, a + [g] + [h] + c) ==
      Flat(pages, a) + (Items(left, g.lo) + Items(sib, h.lo)) + Flat(pages, c)
  {
    FlatAppend(pages, a, g, Flat(pages, a), left);
    FlatAppend(pages, a + [g], h, Flat(pages, a) + Items(left, g.lo), sib);
    FlatConcat(pages, a + [g] + [h], c);
    Assoc(Flat(pages, a), Items(left, g.lo), Items(sib, h.lo), Flat(pages, c));
  }

  lemma FlatSplit(pages: seq<Page>, gs: seq<Span>, j: nat, left: Page, sib: Page, splitKey: int)
    requires Chain(gs) && j < |gs|
    requires forall a: nat :: a < |gs| ==> gs[a].id < |pages|
    ensures Flat(pages[gs[j].id := left] + [sib], WithSpan(gs, j, Span(|pages|, splitKey))) ==
      Flat(pages, gs[..j]) + (Items(left, gs[j].lo) + Items(sib, splitKey)) + Flat(pages, gs[j + 1..])
  {
    var g := Span(|pages|, splitKey);
    var pages' := pages[gs[j].id := left] + [sib];
    var a, h, c := gs[..j], gs[j], gs[j + 1..];
    WithSpanIs(gs, j, g);
    FlatAgree(pages, pages', gs, j);
    assert pages'[h.id] == left && pages'[g.id] == sib;
    FlatTwo(pages', a, h, g, c, left, sib);
  }

  /** Changing page j alone changes nothing to its left or right. */
  lemma FlatAgree(pages: seq<Page>, pages': seq<Page>, gs: seq<Span>, j: nat)
    requires Chain(gs) && j < |gs| && |pages| <= |pages'|
    requires forall a: nat :: a < |gs| ==> gs[a].id < |pages|
    requires forall a: nat :: a < |pages| && a != gs[j].id ==> pages'[a] == pages[a]
    ensures Flat(pages', gs[..j]) == Flat(pages, gs[..j])
    ensures Flat(pages', gs[j + 1..]) == Flat(pages, gs[j + 1..])
  {
    var b, c := gs[..j], gs[j + 1..];
    assert forall a: nat :: a < |b| ==> b[a] == gs[a] && b[a].id != gs[j].id;
    assert forall a: nat :: a < |c| ==> c[a] == gs[j + 1 + a] && c[a].id != gs[j].id;
    FlatFrame(pages, pages', b);
    FlatFrame(pages, pages', c);
  }
}
