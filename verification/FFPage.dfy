/** One page of the FAST and FAIR B+tree: a sorted array of records ended by a
    null pointer, into which a record is inserted by shifting. */
module FFPage {

  /** Records of 16 bytes in a page of 512 bytes with a header of 24. */
  const CARDINALITY: nat := 30

  /** Pages and stored values live at different addresses. */
  datatype Ptr = Null | PagePtr(id: nat) | ValuePtr(addr: nat)

  datatype Entry = Entry(key: int, ptr: Ptr)

  datatype Page = Page(
    leftmost: Ptr,
    sibling: Ptr,
    level: nat,
    switchCounter: nat,
    lastIndex: int,
    records: seq<Entry>)

  function NewPage(level: nat): Page {
    Page(Null, Null, level, 0, -1, seq(CARDINALITY, _ => Entry(0, Null)))
  }

  // ----- sorted sequences of entries

  ghost predicate Sorted(s: seq<Entry>) {
    forall a: nat, b: nat :: a < b < |s| ==> s[a].key < s[b].key
  }

  ghost predicate NonNull(s: seq<Entry>) {
    forall a: nat :: a < |s| ==> s[a].ptr != Null
  }

  /** t is s with the pair (k, p) put at its sorted place i, replacing the entry
      for the same key when there is one (d == 1). */
  ghost predicate PutAt(s: seq<Entry>, t: seq<Entry>, i: nat, d: nat, k: int, p: Ptr) {
    && d <= 1 && i + d <= |s|
    && t == s[..i] + [Entry(k, p)] + s[i + d..]
    && (forall a: nat :: a < i ==> s[a].key < k)
    && (forall a: nat :: i + d <= a < |s| ==> s[a].key > k)
    && (d == 1 ==> s[i].key == k)
  }

  ghost predicate Before(s: seq<Entry>, a: nat, k: int) {
    a < |s| && s[a].key < k
  }

  lemma PutSorted(s: seq<Entry>, t: seq<Entry>, i: nat, d: nat, k: int, p: Ptr)
    requires Sorted(s) && NonNull(s) && p != Null && PutAt(s, t, i, d, k, p)
    ensures Sorted(t) && NonNull(t)
  {
  }

  lemma PutUnique(s: seq<Entry>, t: seq<Entry>, t': seq<Entry>, i: nat, d: nat, i': nat, d': nat, k: int, p: Ptr)
    requires PutAt(s, t, i, d, k, p) && PutAt(s, t', i', d', k, p)
    ensures t == t' && i == i' && d == d'
  {
    assert Before(s, i, k) <==> i < i';
    assert Before(s, i', k) <==> i' < i;
  }

  /** Putting into the middle part of a sorted concatenation. */
  lemma PutInside(a: seq<Entry>, b: seq<Entry>, b': seq<Entry>, c: seq<Entry>, i: nat, d: nat, k: int, p: Ptr)
    requires PutAt(b, b', i, d, k, p)
    requires forall x: nat :: x < |a| ==> a[x].key < k
    requires forall x: nat :: x < |c| ==> c[x].key > k
    ensures PutAt(a + b + c, a + b' + c, |a| + i, d, k, p)
  {
    var s := a + b + c;
    assert s[..|a| + i] == a + b[..i];
    assert s[|a| + i + d..] == b[i + d..] + c;
    forall x: nat | |a| + i + d <= x < |s| ensures s[x].key > k {
      if x < |a| + |b| { assert s[x] == b[x - |a|]; } else { assert s[x] == c[x - |a| - |b|]; }
    }
  }

  // ----- pages

  function Count(p: Page): int {
    p.lastIndex + 1
  }

  /** The live records of a page. */
  function Live(p: Page): seq<Entry>
    requires 0 <= Count(p) <= |p.records|
  {
    p.records[..Count(p)]
  }

  /** Records sorted and non-null up to a null terminator; the scan direction is forward. */
  ghost predicate PageOk(p: Page) {
    && |p.records| == CARDINALITY
    && 0 <= Count(p) < CARDINALITY
    && p.switchCounter % 2 == 0
    && NonNull(Live(p))
    && p.records[Count(p)].ptr == Null
    && (Count(p) == 0 ==> p.records[1].ptr == Null)
    && Sorted(Live(p))
  }

  lemma NewPageOk(level: nat)
    ensures PageOk(NewPage(level)) && Live(NewPage(level)) == []
  {
  }

  /** Number of live records, found by scanning forward from the cached last index. */
  method CountRecords(p: Page) returns (count: nat)
    requires |p.records| == CARDINALITY && -1 <= p.lastIndex && p.switchCounter % 2 == 0
    requires exists j: nat :: p.lastIndex < j < CARDINALITY && p.records[j].ptr == Null
    ensures p.lastIndex < count < CARDINALITY && p.records[count].ptr == Null
    ensures forall j: nat :: p.lastIndex < j < count ==> p.records[j].ptr != Null
  {
    ghost var e: nat :| p.lastIndex < e < CARDINALITY && p.records[e].ptr == Null;
    count := p.lastIndex + 1;
    while p.records[count].ptr != Null
      invariant p.lastIndex < count <= e
      invariant forall j: nat :: p.lastIndex < j < count ==> p.records[j].ptr != Null
      decreases e - count
    {
      count := count + 1;
    }
  }

  /** The record with the key, found from the right, or -1. */
  method FindKey(r: seq<Entry>, key: int, num: nat) returns (x: int)
    requires num <= |r|
    ensures -1 <= x < num && (x >= 0 ==> r[x].key == key)
    ensures x < 0 ==> forall a: nat :: a < num ==> r[a].key != key
  {
    x := num - 1;
    while x >= 0 && r[x].key != key
      invariant -1 <= x < num
      invariant forall a: nat :: x < a < num ==> r[a].key != key
    {
      x := x - 1;
    }
  }

  /** Put a record into a page that has room and does not have its key. */
  method InsertNew(p: Page, r0: seq<Entry>, key: int, ptr: Ptr, num: nat) returns (q: Page, ghost i: nat)
    requires PageOk(p) && num == Count(p) < CARDINALITY - 1 && ptr != Null && |r0| == CARDINALITY
    requires r0[..num] == Live(p) && (num > 0 ==> r0[num + 1].ptr == Null)
    requires forall a: nat :: a < num ==> r0[a].key != key
    ensures PageOk(q) && Count(q) == num + 1 && PutAt(Live(p), Live(q), i, 0, key, ptr)
    ensures q.leftmost == p.leftmost && q.sibling == p.sibling && q.level == p.level
  {
    ghost var live := Live(p);
    var r := r0;
    if num == 0 {
      r := r[0 := Entry(key, ptr)];
      r := r[1 := Entry(r[1].key, Null)];
      i := 0;
    } else {
      forall a: nat | a < num ensures live[a].key != key { assert live[a] == r0[a]; }
      r, i := ShiftIn(r, key, ptr, num, live);
    }
    q := p.(records := r, lastIndex := num);
    assert Live(q) == live[..i] + [Entry(key, ptr)] + live[i..];
    PutSorted(live, Live(q), i, 0, key, ptr);
  }

  /** Moving the terminator leaves the live records alone. */
  lemma Unshifted(p: Page, r: seq<Entry>, num: nat)
    requires PageOk(p) && num == Count(p) < CARDINALITY - 1
    requires r == if num > 0 then p.records[num + 1 := Entry(p.records[num + 1].key, p.records[num].ptr)] else p.records
    ensures |r| == CARDINALITY && r[..num] == Live(p) && (num > 0 ==> r[num + 1].ptr == Null) && r[num].ptr == Null
    ensures forall a: nat :: a < num ==> r[a] == p.records[a]
  {
  }

  lemma PageReplaced(p: Page, r: seq<Entry>, x: nat, key: int, ptr: Ptr)
    requires PageOk(p) && x < Count(p) < CARDINALITY - 1 && ptr != Null && |r| == CARDINALITY && r[x].key == key
    requires r[..Count(p)] == Live(p) && r[Count(p)].ptr == Null
    ensures var q := p.(records := r[x := Entry(r[x].key, ptr)]);
      PageOk(q) && Count(q) == Count(p) && PutAt(Live(p), Live(q), x, 1, key, ptr)
  {
    var q := p.(records := r[x := Entry(r[x].key, ptr)]);
    assert Live(p)[x] == r[x] && Live(q) == Live(p)[x := Entry(key, ptr)];
    Replaced(Live(p), Live(q), x, key, ptr);
    PutSorted(Live(p), Live(q), x, 1, key, ptr);
  }

  /** Shift-insert a record into a page that has room.  A leaf replaces the pointer of
      an existing key and hands the old one back. */
  method InsertKey(p: Page, key: int, ptr: Ptr, num: nat)
    returns (q: Page, n: nat, oldPtr: Ptr, ghost i: nat, ghost d: nat)
    requires PageOk(p) && num == Count(p) < CARDINALITY - 1 && ptr != Null
    requires p.leftmost != Null ==> forall a: nat :: a < num ==> p.records[a].key != key
    ensures PageOk(q) && n == Count(q) && PutAt(Live(p), Live(q), i, d, key, ptr)
    ensures oldPtr == if d == 1 then p.records[i].ptr else Null
    ensures q.leftmost == p.leftmost && q.sibling == p.sibling && q.level == p.level
  {
    var r, x := p.records, -1;
    if num > 0 {
      r := r[num + 1 := Entry(r[num + 1].key, r[num].ptr)];
    }
    Unshifted(p, r, num);
    if p.leftmost == Null {
      x := FindKey(r, key, num);
    }
    if x >= 0 {
      oldPtr := r[x].ptr;
      q := p.(records := r[x := Entry(r[x].key, ptr)]);
      i, d, n := x, 1, num;
      PageReplaced(p, r, x, key, ptr);
    } else {
      q, i := InsertNew(p, r, key, ptr, num);
      d, n, oldPtr := 0, num + 1, Null;
    }
  }

  lemma Replaced(s: seq<Entry>, t: seq<Entry>, x: nat, key: int, ptr: Ptr)
    requires Sorted(s) && x < |s| && s[x].key == key && t == s[x := Entry(key, ptr)]
    ensures PutAt(s, t, x, 1, key, ptr)
  {
    assert t == s[..x] + [Entry(key, ptr)] + s[x + 1..];
  }

  /** The right-to-left shift that opens a gap for the new record and fills it. */
  method ShiftIn(r0: seq<Entry>, key: int, ptr: Ptr, num: nat, ghost live: seq<Entry>)
    returns (r: seq<Entry>, ghost i: nat)
    requires num + 1 < |r0| && r0[..num] == live && r0[num + 1].ptr == Null
    requires Sorted(live) && forall a: nat :: a < num ==> live[a].key != key
    ensures |r| == |r0| && r[num + 1].ptr == Null && i <= num
    ensures r[..num + 1] == live[..i] + [Entry(key, ptr)] + live[i..]
    ensures forall a: nat :: a < i ==> live[a].key < key
    ensures forall a: nat :: i <= a < num ==> live[a].key > key
  {
    forall a: nat | a < num ensures r0[a] == live[a] { assert r0[a] == r0[..num][a]; }
    r := r0;
    var x: int := num - 1;
    while x >= 0 && key < r[x].key
      invariant -1 <= x < num && |r| == |r0| && r[num + 1].ptr == Null
      invariant forall a: nat :: a <= x ==> r[a] == live[a]
      invariant forall a: nat :: x + 1 < a <= num ==> r[a] == live[a - 1]
      invariant forall a: nat :: x < a < num ==> live[a].key > key
    {
      r := r[x + 1 := r[x]];
      x := x - 1;
    }
    r := r[x + 1 := Entry(key, ptr)];
    i := x + 1;
    ShiftDone(live, r, i, num, Entry(key, ptr));
    if x >= 0 {
      assert live[x].key < key;
    }
  }

  lemma ShiftDone(live: seq<Entry>, r: seq<Entry>, i: nat, num: nat, e: Entry)
    requires num == |live| && i <= num && num + 1 < |r|
    requires forall a: nat :: a < i ==> r[a] == live[a]
    requires r[i] == e
    requires forall a: nat :: i < a <= num ==> r[a] == live[a - 1]
    ensures r[..num + 1] == live[..i] + [e] + live[i..]
  {
  }

  // ----- searching a page

  /** The routing entries of a page whose keys start at lo: an internal page
      routes keys below its first record to the leftmost child. */
  ghost function Items(p: Page, lo: int): seq<Entry> {
    if !(0 <= Count(p) <= |p.records|) then []
    else if p.leftmost == Null then Live(p)
    else [Entry(lo, p.leftmost)] + Live(p)
  }

  ghost predicate AdjacentDiffer(s: seq<Entry>) {
    forall a: nat :: a + 1 < |s| ==> s[a].ptr != s[a + 1].ptr
  }

  /** Scan a leaf from left to right.  A record is trusted only when its pointer differs
      from its left neighbour's, which is why stored pointers must be distinct. */
  method SearchLeaf(p: Page, key: int) returns (ret: Ptr)
    requires PageOk(p) && AdjacentDiffer(Live(p))
    ensures forall a: nat :: a < Count(p) && p.records[a].key == key ==> ret == p.records[a].ptr
    ensures (forall a: nat :: a < Count(p) ==> p.records[a].key != key) ==> ret == Null
  {
    ghost var live := Live(p);
    ret := Null;
    if p.records[0].key == key && p.records[0].ptr != Null {
      assert live[0].key == key;
      return p.records[0].ptr;
    }
    var i := 1;
    while p.records[i].ptr != Null
      invariant 1 <= i && (Count(p) > 0 ==> i <= Count(p)) && (Count(p) == 0 ==> i == 1)
      invariant forall a: nat :: a < i && a < Count(p) ==> live[a].key != key
      decreases CARDINALITY - i
    {
      assert i < Count(p) && p.records[i] == live[i] && p.records[i - 1] == live[i - 1];
      if p.records[i].key == key && p.records[i - 1].ptr != p.records[i].ptr {
        return p.records[i].ptr;
      }
      i := i + 1;
    }
  }

  /** Index of the routing entry for a key: the last one not above it. */
  ghost predicate Routes(s: seq<Entry>, x: nat, key: int) {
    x < |s| && s[x].key <= key && (x + 1 < |s| ==> key < s[x + 1].key)
  }

  method SearchInternal(p: Page, key: int, ghost lo: int) returns (ret: Ptr, ghost x: nat)
    requires PageOk(p) && Count(p) > 0 && p.leftmost != Null && lo <= key
    requires AdjacentDiffer(Items(p, lo))
    ensures Routes(Items(p, lo), x, key) && ret == Items(p, lo)[x].ptr
  {
    ghost var items := Items(p, lo);
    assert forall a: nat :: a < Count(p) ==> items[a + 1] == p.records[a];
    assert items[0].ptr != items[1].ptr;
    if key < p.records[0].key && p.leftmost != p.records[0].ptr {
      return p.leftmost, 0;
    }
    var i := 1;
    while p.records[i].ptr != Null
      invariant 1 <= i <= Count(p)
      invariant items[i].key <= key
      decreases CARDINALITY - i
    {
      assert i < Count(p) && p.records[i] == items[i + 1] && p.records[i - 1] == items[i];
      if key < p.records[i].key && p.records[i - 1].ptr != p.records[i].ptr {
        return p.records[i - 1].ptr, i;
      }
      i := i + 1;
    }
    ret, x := p.records[i - 1].ptr, i;
  }

  // ----- splitting a full page

  lemma CopyStep(live: seq<Entry>, from: nat, i: nat, s: seq<Entry>, t: seq<Entry>, x: nat, d: nat)
    requires Sorted(live) && from <= i < |live| && s == live[from..i] && PutAt(s, t, x, d, live[i].key, live[i].ptr)
    ensures t == live[from..i + 1]
  {
    PutLast(s, t, x, d, live[i].key, live[i].ptr);
  }

  /** A new page holding the records of p from index `from` on. */
  method CopyRecords(p: Page, from: nat) returns (sib: Page)
    requires PageOk(p) && from <= Count(p) && Count(p) - from < CARDINALITY - 1
    ensures PageOk(sib) && Live(sib) == Live(p)[from..]
    ensures sib.leftmost == Null && sib.level == p.level
  {
    sib := NewPage(p.level);
    NewPageOk(p.level);
    var cnt := 0;
    for i := from to Count(p)
      invariant PageOk(sib) && cnt == Count(sib) == i - from && Live(sib) == Live(p)[from..i]
      invariant sib.leftmost == Null && sib.level == p.level
    {
      var e := p.records[i];
      assert e == Live(p)[i];
      var next, n, _, x, d := InsertKey(sib, e.key, e.ptr, cnt);
      CopyStep(Live(p), from, i, Live(sib), Live(next), x, d);
      sib, cnt := next, n;
    }
  }

  /** What remains of a page cut at record m: the record becomes the terminator. */
  function LeftHalf(p: Page, m: nat, siblingId: nat): Page
    requires m < |p.records|
  {
    p.(
      sibling := PagePtr(siblingId),
      switchCounter := (p.switchCounter + 2) % 256,
      records := p.records[m := Entry(p.records[m].key, Null)],
      lastIndex := m - 1)
  }

  lemma LeftHalfOk(p: Page, m: nat, siblingId: nat)
    requires PageOk(p) && 0 < m < Count(p)
    ensures PageOk(LeftHalf(p, m, siblingId)) && Live(LeftHalf(p, m, siblingId)) == Live(p)[..m]
  {
    var q := LeftHalf(p, m, siblingId);
    StaysEven(p.switchCounter);
    assert Live(q) == Live(p)[..m];
    PrefixSorted(Live(p), m);
  }

  lemma StaysEven(x: nat)
    requires x % 2 == 0
    ensures (x + 2) % 256 % 2 == 0
  {
  }

  lemma PrefixSorted(s: seq<Entry>, m: nat)
    requires Sorted(s) && NonNull(s) && m <= |s|
    ensures Sorted(s[..m]) && NonNull(s[..m])
  {
  }

  /** Move the upper half of a full page into a new right sibling.  Together the two
      pages have the items of the old one, cut at the split key. */
  method SplitPage(p: Page, siblingId: nat) returns (left: Page, sib: Page, splitKey: int)
    requires PageOk(p) && Count(p) == CARDINALITY - 1
    ensures PageOk(left) && PageOk(sib) && 0 < Count(left) < CARDINALITY - 1 && 0 < Count(sib) < CARDINALITY - 1
    ensures left.leftmost == p.leftmost && left.level == p.level && left.sibling == PagePtr(siblingId)
    ensures (sib.leftmost == Null <==> p.leftmost == Null) && sib.level == p.level && sib.sibling == p.sibling
    ensures forall lo: int :: Items(left, lo) + Items(sib, splitKey) == Items(p, lo)
    ensures splitKey == Items(sib, splitKey)[0].key && splitKey > p.records[0].key
  {
    var m := Count(p) / 2;
    splitKey := p.records[m].key;
    assert Live(p)[0].key < Live(p)[m].key;
    sib := CopyRecords(p, if p.leftmost == Null then m else m + 1);
    if p.leftmost != Null {
      assert p.records[m] == Live(p)[m];
      sib := sib.(leftmost := p.records[m].ptr);
    }
    sib := sib.(sibling := p.sibling);
    left := LeftHalf(p, m, siblingId);
    LeftHalfOk(p, m, siblingId);
    SplitItems(p, left, sib, m);
  }

  lemma PutLast(s: seq<Entry>, t: seq<Entry>, i: nat, d: nat, k: int, p: Ptr)
    requires PutAt(s, t, i, d, k, p)
    requires forall a: nat :: a < |s| ==> s[a].key < k
    ensures t == s + [Entry(k, p)]
  {
    PutUnique(s, t, s + [Entry(k, p)], i, d, |s|, 0, k, p);
  }

  lemma SplitItems(p: Page, left: Page, sib: Page, m: nat)
    requires PageOk(p) && PageOk(left) && PageOk(sib) && 0 < m < Count(p)
    requires left.leftmost == p.leftmost && Live(left) == Live(p)[..m]
    requires p.leftmost == Null ==> sib.leftmost == Null && Live(sib) == Live(p)[m..]
    requires p.leftmost != Null ==> sib.leftmost == Live(p)[m].ptr && Live(sib) == Live(p)[m + 1..]
    ensures forall lo: int :: Items(left, lo) + Items(sib, p.records[m].key) == Items(p, lo)
  {
    assert Live(p) == Live(p)[..m] + Live(p)[m..];
    assert Live(p)[m..] == [Live(p)[m]] + Live(p)[m + 1..];
    assert Live(p)[m] == p.records[m];
    forall lo: int ensures Items(left, lo) + Items(sib, p.records[m].key) == Items(p, lo) {
    }
  }
}
