/** Merging sorted iterators into one that moves both ways. Keys are integers in the order
    of the comparator; no key is in two children. */
module Merger {
  import opened Wrappers

  /** A child iterator over a sorted list: at a position, or nowhere when that is -1. */
  datatype Child = Child(keys: seq<int>, pos: int) {
    predicate Valid() {
      0 <= pos < |keys|
    }

    function Key(): int
      requires Valid()
    {
      keys[pos]
    }

    function SeekToFirst(): Child {
      this.(pos := if keys == [] then -1 else 0)
    }

    function SeekToLast(): Child {
      this.(pos := |keys| - 1)
    }

    /** To the first key that is at least the target. */
    function Seek(target: int): Child {
      var i := FirstAtLeast(keys, target);
      this.(pos := if i == |keys| then -1 else i)
    }

    function Next(): Child
      requires Valid()
    {
      this.(pos := if pos + 1 < |keys| then pos + 1 else -1)
    }

    function Prev(): Child
      requires Valid()
    {
      this.(pos := pos - 1)
    }
  }

  function FirstAtLeast(s: seq<int>, x: int): (i: nat)
    ensures i <= |s| && (i < |s| ==> s[i] >= x) && forall j: nat :: j < i ==> s[j] < x
  {
    if s == [] || s[0] >= x then 0
    else
      var i := FirstAtLeast(s[1..], x);
      assert forall j: nat :: 0 < j <= i ==> s[j] == s[1..][j - 1];
      i + 1
  }

  ghost predicate Sorted(s: seq<int>) {
    forall i: nat, j: nat :: i < j < |s| ==> s[i] < s[j]
  }

  // ----- where a child stands, seen from a key

  /** At its first key above k, or nowhere when it has none. */
  ghost predicate After(c: Child, k: int) {
    if c.Valid() then c.Key() > k && forall j: nat :: j < c.pos ==> c.keys[j] <= k
    else forall j: nat :: j < |c.keys| ==> c.keys[j] <= k
  }

  /** At its last key below k, or nowhere when it has none. */
  ghost predicate Before(c: Child, k: int) {
    if c.Valid() then c.Key() < k && forall j: nat :: c.pos < j < |c.keys| ==> c.keys[j] >= k
    else forall j: nat :: j < |c.keys| ==> c.keys[j] >= k
  }

  lemma SeekAfter(c: Child, k: int)
    requires Sorted(c.keys)
    ensures var d := c.Seek(k); After(if d.Valid() && d.Key() == k then d.Next() else d, k)
  {
    var d := c.Seek(k);
    assert forall j: nat :: d.Valid() && d.pos < j < |c.keys| ==> c.keys[j] > d.Key();
  }

  lemma SeekBefore(c: Child, k: int)
    requires Sorted(c.keys)
    ensures var d := c.Seek(k); Before(if d.Valid() then d.Prev() else d.SeekToLast(), k)
  {
    var d := c.Seek(k);
    assert forall j: nat :: d.Valid() && d.pos < j < |c.keys| ==> c.keys[j] > d.Key();
  }

  lemma NextAfter(c: Child)
    requires Sorted(c.keys) && c.Valid()
    ensures After(c.Next(), c.Key()) && Before(c.Prev(), c.Key())
  {
    assert forall j: nat :: j < c.pos ==> c.keys[j] < c.Key();
    assert forall j: nat :: c.pos < j < |c.keys| ==> c.Key() < c.keys[j];
  }

  // ----- the union

  ghost predicate HasKey(lists: seq<seq<int>>, k: int) {
    exists i: nat :: i < |lists| && k in lists[i]
  }

  /** Each list is sorted, and no key is in two lists. */
  ghost predicate Mergeable(lists: seq<seq<int>>) {
    && (forall i: nat :: i < |lists| ==> Sorted(lists[i]))
    && (forall i: nat, j: nat, k :: i < |lists| && j < |lists| && k in lists[i] && k in lists[j] ==> i == j)
  }

  ghost predicate Over(children: seq<Child>, lists: seq<seq<int>>) {
    |children| == |lists| && forall i: nat :: i < |children| ==> children[i].keys == lists[i]
  }

  /** The least key of all lists that is above k; nothing if there is none. */
  ghost predicate LeastAbove(lists: seq<seq<int>>, k: int, r: Option<int>) {
    match r
    case None => forall x :: HasKey(lists, x) ==> x <= k
    case Some(m) => HasKey(lists, m) && m > k && forall x :: HasKey(lists, x) && x > k ==> m <= x
  }

  ghost predicate GreatestBelow(lists: seq<seq<int>>, k: int, r: Option<int>) {
    match r
    case None => forall x :: HasKey(lists, x) ==> x >= k
    case Some(m) => HasKey(lists, m) && m < k && forall x :: HasKey(lists, x) && x < k ==> m >= x
  }

  ghost predicate AllAfter(children: seq<Child>, k: int) {
    forall i: nat :: i < |children| ==> After(children[i], k)
  }

  ghost predicate AllBefore(children: seq<Child>, k: int) {
    forall i: nat :: i < |children| ==> Before(children[i], k)
  }

  // ----- choosing a child

  ghost predicate IsSmallest(children: seq<Child>, c: int) {
    && -1 <= c < |children|
    && (c == -1 ==> forall i: nat :: i < |children| ==> !children[i].Valid())
    && (c >= 0 ==> children[c].Valid())
    && (c >= 0 ==> forall i: nat :: i < |children| && children[i].Valid() ==> children[c].Key() <= children[i].Key())
  }

  ghost predicate IsLargest(children: seq<Child>, c: int) {
    && -1 <= c < |children|
    && (c == -1 ==> forall i: nat :: i < |children| ==> !children[i].Valid())
    && (c >= 0 ==> children[c].Valid())
    && (c >= 0 ==> forall i: nat :: i < |children| && children[i].Valid() ==> children[c].Key() >= children[i].Key())
  }

  method FindSmallest(children: seq<Child>) returns (c: int)
    ensures IsSmallest(children, c)
  {
    c := -1;
    for n := 0 to |children|
      invariant IsSmallest(children[..n], c)
    {
      if children[n].Valid() {
        if c == -1 || children[n].Key() < children[c].Key() { c := n; }
      }
    }
    assert children[..|children|] == children;
  }

  method FindLargest(children: seq<Child>) returns (c: int)
    ensures IsLargest(children, c)
  {
    c := -1;
    for n := |children| downto 0
      invariant c == -1 || n <= c < |children|
      invariant c == -1 ==> forall i: nat :: n <= i < |children| ==> !children[i].Valid()
      invariant c >= 0 ==> children[c].Valid()
      invariant c >= 0 ==>
        forall i: nat :: n <= i < |children| && children[i].Valid() ==> children[c].Key() >= children[i].Key()
    {
      if children[n].Valid() {
        if c == -1 || children[n].Key() > children[c].Key() { c := n; }
      }
    }
  }

  ghost function KeyOf(children: seq<Child>, c: int): Option<int>
    requires c < |children| && (c >= 0 ==> children[c].Valid())
  {
    if c < 0 then None else Some(children[c].Key())
  }

  /** When all children stand after k, the smallest of their keys is the next one. */
  lemma SmallestIsLeast(children: seq<Child>, lists: seq<seq<int>>, k: int, c: int)
    requires Over(children, lists) && Mergeable(lists) && AllAfter(children, k) && IsSmallest(children, c)
    ensures LeastAbove(lists, k, KeyOf(children, c))
    ensures c >= 0 ==> forall i: nat :: i < |children| && i != c ==> After(children[i], children[c].Key())
  {
    forall x | HasKey(lists, x) && x > k ensures c >= 0 && children[c].Key() <= x {
      var i: nat :| i < |lists| && x in lists[i];
      assert After(children[i], k);
      var j: nat :| j < |lists[i]| && lists[i][j] == x;
      assert children[i].Valid() && children[i].pos <= j;
    }
    if c >= 0 {
      var m := children[c].Key();
      assert After(children[c], k);
      assert m in lists[c];
      forall i: nat | i < |children| && i != c ensures After(children[i], m) {
        assert After(children[i], k);
        if children[i].Valid() { assert children[i].Key() in lists[i]; }
      }
    }
  }

  lemma LargestIsGreatest(children: seq<Child>, lists: seq<seq<int>>, k: int, c: int)
    requires Over(children, lists) && Mergeable(lists) && AllBefore(children, k) && IsLargest(children, c)
    ensures GreatestBelow(lists, k, KeyOf(children, c))
    ensures c >= 0 ==> forall i: nat :: i < |children| && i != c ==> Before(children[i], children[c].Key())
  {
    forall x | HasKey(lists, x) && x < k ensures c >= 0 && children[c].Key() >= x {
      var i: nat :| i < |lists| && x in lists[i];
      assert Before(children[i], k);
      var j: nat :| j < |lists[i]| && lists[i][j] == x;
      assert children[i].Valid() && children[i].pos >= j;
    }
    if c >= 0 {
      var m := children[c].Key();
      assert Before(children[c], k);
      assert m in lists[c];
      forall i: nat | i < |children| && i != c ensures Before(children[i], m) {
        assert Before(children[i], k);
        if children[i].Valid() { assert children[i].Key() in lists[i]; }
      }
    }
  }

  // ----- moving children

  /** All children but the current one to their first key above k. */
  method TurnForward(children0: seq<Child>, current: nat, k: int, ghost lists: seq<seq<int>>) returns (children: seq<Child>)
    requires Over(children0, lists) && Mergeable(lists) && current < |children0|
    ensures Over(children, lists) && children[current] == children0[current]
    ensures forall i: nat :: i < |children| && i != current ==> After(children[i], k)
  {
    children := children0;
    for n := 0 to |children0|
      invariant Over(children, lists) && children[current] == children0[current]
      invariant forall i: nat :: i < n && i != current ==> After(children[i], k)
    {
      if n != current {
        SeekAfter(children[n], k);
        var child := children[n].Seek(k);
        if child.Valid() && child.Key() == k { child := child.Next(); }
        children := children[n := child];
      }
    }
  }

  /** All children but the current one to their last key below k. */
  method TurnBack(children0: seq<Child>, current: nat, k: int, ghost lists: seq<seq<int>>) returns (children: seq<Child>)
    requires Over(children0, lists) && Mergeable(lists) && current < |children0|
    ensures Over(children, lists) && children[current] == children0[current]
    ensures forall i: nat :: i < |children| && i != current ==> Before(children[i], k)
  {
    children := children0;
    for n := 0 to |children0|
      invariant Over(children, lists) && children[current] == children0[current]
      invariant forall i: nat :: i < n && i != current ==> Before(children[i], k)
    {
      if n != current {
        SeekBefore(children[n], k);
        var child := children[n].Seek(k);
        if child.Valid() { child := child.Prev(); } else { child := child.SeekToLast(); }
        children := children[n := child];
      }
    }
  }

  method SeekAll(children0: seq<Child>, target: int, ghost lists: seq<seq<int>>) returns (children: seq<Child>)
    requires Over(children0, lists)
    ensures Over(children, lists) && AllAfter(children, target - 1)
  {
    children := children0;
    for n := 0 to |children0|
      invariant Over(children, lists) && forall i: nat :: i < n ==> After(children[i], target - 1)
    {
      children := children[n := children[n].Seek(target)];
    }
  }

  ghost predicate AtEnds(children: seq<Child>, last: bool) {
    forall i: nat :: i < |children| ==>
      children[i].pos == if last then |children[i].keys| - 1 else if children[i].keys == [] then -1 else 0
  }

  method SeekAllToEnd(children0: seq<Child>, last: bool, ghost lists: seq<seq<int>>) returns (children: seq<Child>)
    requires Over(children0, lists)
    ensures Over(children, lists) && AtEnds(children, last)
  {
    children := children0;
    for n := 0 to |children0|
      invariant Over(children, lists) && AtEnds(children[..n], last)
    {
      children := children[n := if last then children[n].SeekToLast() else children[n].SeekToFirst()];
    }
    assert children[..|children|] == children;
  }

  /** The first or last key of all lists; nothing if they are all empty. */
  ghost predicate EndKey(lists: seq<seq<int>>, last: bool, r: Option<int>) {
    match r
    case None => forall x :: !HasKey(lists, x)
    case Some(m) => HasKey(lists, m) && forall x :: HasKey(lists, x) ==> if last then x <= m else m <= x
  }

  lemma FirstIs(children: seq<Child>, lists: seq<seq<int>>, c: int)
    requires Over(children, lists) && Mergeable(lists) && AtEnds(children, false) && IsSmallest(children, c)
    ensures EndKey(lists, false, KeyOf(children, c))
    ensures c >= 0 ==> forall i: nat :: i < |children| && i != c ==> After(children[i], children[c].Key())
  {
    if c >= 0 {
      SmallestIsLeast(children, lists, children[c].Key() - 1, c);
    }
    forall x | HasKey(lists, x) ensures c >= 0 && children[c].Key() <= x {
      var i: nat :| i < |lists| && x in lists[i];
      assert children[i].Valid() && children[i].pos == 0;
    }
  }

  lemma LastIs(children: seq<Child>, lists: seq<seq<int>>, c: int)
    requires Over(children, lists) && Mergeable(lists) && AtEnds(children, true) && IsLargest(children, c)
    ensures EndKey(lists, true, KeyOf(children, c))
    ensures c >= 0 ==> forall i: nat :: i < |children| && i != c ==> Before(children[i], children[c].Key())
  {
    if c >= 0 {
      LargestIsGreatest(children, lists, children[c].Key() + 1, c);
    }
    forall x | HasKey(lists, x) ensures c >= 0 && children[c].Key() >= x {
      var i: nat :| i < |lists| && x in lists[i];
      assert children[i].Valid() && children[i].pos == |lists[i]| - 1;
    }
  }

  class MergingIterator {
    ghost const lists: seq<seq<int>>
    var children: seq<Child>
    var current: int
    var forward: bool

    ghost predicate Standing()
      reads this
    {
      && Over(children, lists) && Mergeable(lists) && -1 <= current < |children|
      && (current >= 0 ==> children[current].Valid())
    }

    ghost predicate Valid()
      reads this
    {
      && Standing()
      && (current >= 0 && forward ==>
            forall i: nat :: i < |children| && i != current ==> After(children[i], children[current].Key()))
      && (current >= 0 && !forward ==>
            forall i: nat :: i < |children| && i != current ==> Before(children[i], children[current].Key()))
    }

    ghost function Position(): Option<int>
      requires Standing()
      reads this
    {
      KeyOf(children, current)
    }

    constructor (children: seq<Child>)
      requires Mergeable(seq(|children|, i requires 0 <= i < |children| => children[i].keys))
      ensures Valid() && Position() == None && this.children == children
    {
      this.children, current, forward := children, -1, true;
      lists := seq(|children|, i requires 0 <= i < |children| => children[i].keys);
    }

    method SeekToFirst()
      requires Valid()
      modifies this
      ensures Valid() && EndKey(lists, false, Position())
    {
      children := SeekAllToEnd(children, false, lists);
      current := FindSmallest(children);
      FirstIs(children, lists, current);
      forward := true;
    }

    method SeekToLast()
      requires Valid()
      modifies this
      ensures Valid() && EndKey(lists, true, Position())
    {
      children := SeekAllToEnd(children, true, lists);
      current := FindLargest(children);
      LastIs(children, lists, current);
      forward := false;
    }

    /** To the least key that is at least the target. */
    method Seek(target: int)
      requires Valid()
      modifies this
      ensures Valid() && LeastAbove(lists, target - 1, Position())
    {
      children := SeekAll(children, target, lists);
      current := FindSmallest(children);
      SmallestIsLeast(children, lists, target - 1, current);
      forward := true;
    }

    /** To the least key above the current one, whatever the direction so far. */
    method Next()
      requires Valid() && current >= 0
      modifies this
      ensures Valid() && LeastAbove(lists, old(children[current].Key()), Position())
    {
      var k := children[current].Key();
      if !forward {
        children := TurnForward(children, current, k, lists);
        forward := true;
      }
      NextAfter(children[current]);
      children := children[current := children[current].Next()];
      current := FindSmallest(children);
      SmallestIsLeast(children, lists, k, current);
    }

    /** To the greatest key below the current one, whatever the direction so far. */
    method Prev()
      requires Valid() && current >= 0
      modifies this
      ensures Valid() && GreatestBelow(lists, old(children[current].Key()), Position())
    {
      var k := children[current].Key();
      if forward {
        children := TurnBack(children, current, k, lists);
        forward := false;
      }
      NextAfter(children[current]);
      children := children[current := children[current].Prev()];
      current := FindLargest(children);
      LargestIsGreatest(children, lists, k, current);
    }
  }
}
