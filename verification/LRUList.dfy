/** The two circular lists of the cache. Handles and list heads are nodes; each node has
    a next and a prev pointer. */
module LRUList {
  import opened Bits
  import opened HandleTable

  const LRU: int := -2
  const IN_USE: int := -3

  /** The nodes of a circular list in order, from the head round to the head again. */
  ghost function Node(head: int, s: seq<nat>, i: nat): int {
    if 0 < i <= |s| then s[i - 1] else head
  }

  /** The step from node i to the next one, in both directions. */
  ghost predicate StepAt(next: map<int, int>, prev: map<int, int>, head: int, s: seq<nat>, i: nat) {
    && Node(head, s, i) in next && next[Node(head, s, i)] == Node(head, s, i + 1)
    && Node(head, s, i + 1) in prev && prev[Node(head, s, i + 1)] == Node(head, s, i)
  }

  ghost predicate Ring(next: map<int, int>, prev: map<int, int>, head: int, s: seq<nat>) {
    head < 0 && Distinct(s) && forall i: nat :: i <= |s| ==> StepAt(next, prev, head, s, i)
  }

  /** Both neighbours of a listed node are known. */
  lemma Neighbours(next: map<int, int>, prev: map<int, int>, head: int, s: seq<nat>, p: nat)
    requires Ring(next, prev, head, s) && p < |s|
    ensures s[p] in next && next[s[p]] == Node(head, s, p + 2)
    ensures s[p] in prev && prev[s[p]] == Node(head, s, p)
  {
    assert StepAt(next, prev, head, s, p) && StepAt(next, prev, head, s, p + 1);
  }

  /** Nodes of a ring are found at one index only. */
  lemma NodesDiffer(head: int, s: seq<nat>, i: nat, j: nat)
    requires Distinct(s) && head < 0 && i < j <= |s|
    ensures Node(head, s, i) != Node(head, s, j)
  {
  }

  /** The pointers after the neighbours of e are joined. */
  function JoinNext(next: map<int, int>, prev: map<int, int>, e: nat): map<int, int>
    requires e in next && e in prev
  {
    next[prev[e] := next[e]]
  }

  function JoinPrev(next: map<int, int>, prev: map<int, int>, e: nat): map<int, int>
    requires e in next && e in prev
  {
    prev[next[e] := prev[e]]
  }

  lemma NodeOfCut(head: int, s: seq<nat>, p: nat, i: nat)
    requires p < |s| && i <= |s|
    ensures Node(head, Cut(s, p), i) == Node(head, s, if i <= p then i else i + 1)
  {
  }

  /** Taking a node out leaves the rest of its ring in order. */
  lemma RingCut(next: map<int, int>, prev: map<int, int>, head: int, s: seq<nat>, p: nat)
    requires Ring(next, prev, head, s) && p < |s|
    ensures s[p] in next && s[p] in prev
    ensures Ring(JoinNext(next, prev, s[p]), JoinPrev(next, prev, s[p]), head, Cut(s, p))
  {
    Neighbours(next, prev, head, s, p);
    var t, next', prev' := Cut(s, p), JoinNext(next, prev, s[p]), JoinPrev(next, prev, s[p]);
    forall i: nat | i <= |t| ensures StepAt(next', prev', head, t, i) {
      NodeOfCut(head, s, p, i);
      NodeOfCut(head, s, p, i + 1);
      var m := if i <= p then i else i + 1;
      assert StepAt(next, prev, head, s, m);
      if m < p { NodesDiffer(head, s, m, p); }
      if p < m { NodesDiffer(head, s, p, m); }
      if m != p { CutStep(head, s, p, m); }
    }
  }

  /** The node after m is the one after the cut only when m is the one before it. */
  lemma CutStep(head: int, s: seq<nat>, p: nat, m: nat)
    requires Distinct(s) && head < 0 && p < |s| && m <= |s| && m != p && m != p + 1
    ensures Node(head, s, m + 1) != Node(head, s, p + 2)
  {
    var a, b := if m == |s| then 0 else m + 1, if p + 1 == |s| then 0 else p + 2;
    assert Node(head, s, m + 1) == Node(head, s, a) && Node(head, s, p + 2) == Node(head, s, b);
    if a < b { NodesDiffer(head, s, a, b); } else { NodesDiffer(head, s, b, a); }
  }

  /** The pointers after e is put in just before the head. */
  function AppendNext(next: map<int, int>, prev: map<int, int>, head: int, e: nat): map<int, int>
    requires head in prev
  {
    next[e := head][prev[head] := e]
  }

  function AppendPrev(next: map<int, int>, prev: map<int, int>, head: int, e: nat): map<int, int>
    requires head in prev
  {
    prev[e := prev[head]][head := e]
  }

  /** A node put in just before the head becomes the last, that is the newest. */
  lemma RingAppend(next: map<int, int>, prev: map<int, int>, head: int, s: seq<nat>, e: nat)
    requires Ring(next, prev, head, s) && e !in s
    ensures head in prev
    ensures Ring(AppendNext(next, prev, head, e), AppendPrev(next, prev, head, e), head, s + [e])
  {
    var n, t := |s|, s + [e];
    assert StepAt(next, prev, head, s, n);
    var next', prev' := AppendNext(next, prev, head, e), AppendPrev(next, prev, head, e);
    forall i: nat | i <= |t| ensures StepAt(next', prev', head, t, i) {
      if i < n {
        assert StepAt(next, prev, head, s, i);
        NodesDiffer(head, s, i, n);
        assert Node(head, t, i) == Node(head, s, i) && Node(head, t, i + 1) == Node(head, s, i + 1);
      } else if i == n {
        assert Node(head, t, n) == Node(head, s, n) == prev[head] && Node(head, t, n + 1) == e;
      } else {
        assert Node(head, t, i) == e && Node(head, t, i + 1) == head;
      }
    }
  }

  ghost predicate OnRing(head: int, s: seq<nat>, x: int) {
    x == head || (x >= 0 && x in s)
  }

  /** A ring whose own pointers are untouched is still a ring. */
  lemma RingFrame(next: map<int, int>, prev: map<int, int>, next': map<int, int>, prev': map<int, int>,
                  head: int, s: seq<nat>)
    requires Ring(next, prev, head, s)
    requires forall x :: OnRing(head, s, x) && x in next ==> x in next' && next'[x] == next[x]
    requires forall x :: OnRing(head, s, x) && x in prev ==> x in prev' && prev'[x] == prev[x]
    ensures Ring(next', prev', head, s)
  {
    forall i: nat | i <= |s| ensures StepAt(next', prev', head, s, i) {
      assert StepAt(next, prev, head, s, i);
      assert OnRing(head, s, Node(head, s, i)) && OnRing(head, s, Node(head, s, i + 1));
    }
  }

  // ----- both rings

  ghost predicate Rings(next: map<int, int>, prev: map<int, int>, lru: seq<nat>, inUse: seq<nat>) {
    Ring(next, prev, LRU, lru) && Ring(next, prev, IN_USE, inUse) && forall e :: e in lru ==> e !in inUse
  }

  ghost predicate Ringed(next: map<int, int>, prev: map<int, int>, lru: seq<nat>, inUse: seq<nat>) {
    forall u {:trigger UnfoldAt(next, u)} :: UnfoldAt(next, u) ==> Rings(next, prev, lru, inUse)
  }

  function EmptyLinks(): map<int, int> {
    map[LRU := LRU, IN_USE := IN_USE]
  }

  lemma EmptyRings()
    ensures Ringed(EmptyLinks(), EmptyLinks(), [], [])
  {
    assert Distinct([]);
  }

  function Head(idle: bool): int {
    if idle then LRU else IN_USE
  }

  /** Take position p out of one ring; the other is untouched. */
  lemma RingsCut(next: map<int, int>, prev: map<int, int>, lru: seq<nat>, inUse: seq<nat>, idle: bool, p: nat)
    requires Rings(next, prev, lru, inUse) && p < |if idle then lru else inUse|
    ensures var e := (if idle then lru else inUse)[p];
      && e in next && e in prev
      && Rings(JoinNext(next, prev, e), JoinPrev(next, prev, e),
               if idle then Cut(lru, p) else lru, if idle then inUse else Cut(inUse, p))
  {
    var s, other := if idle then lru else inUse, if idle then inUse else lru;
    var head, otherHead := Head(idle), Head(!idle);
    var e := s[p];
    RingCut(next, prev, head, s, p);
    Neighbours(next, prev, head, s, p);
    RingFrame(next, prev, JoinNext(next, prev, e), JoinPrev(next, prev, e), otherHead, other);
    forall h ensures h in Cut(s, p) ==> h in s { CutHas(s, p, h); }
  }

  /** Put e at the end of one ring; the other is untouched. */
  lemma RingsAppend(next: map<int, int>, prev: map<int, int>, lru: seq<nat>, inUse: seq<nat>, idle: bool, e: nat)
    requires Rings(next, prev, lru, inUse) && e !in lru && e !in inUse
    ensures var head := Head(idle);
      && head in prev
      && Rings(AppendNext(next, prev, head, e), AppendPrev(next, prev, head, e),
               if idle then lru + [e] else lru, if idle then inUse else inUse + [e])
  {
    var s, other := if idle then lru else inUse, if idle then inUse else lru;
    var head, otherHead := Head(idle), Head(!idle);
    RingAppend(next, prev, head, s, e);
    assert StepAt(next, prev, head, s, |s|);
    assert OnRing(head, s, prev[head]);
    RingFrame(next, prev, AppendNext(next, prev, head, e), AppendPrev(next, prev, head, e), otherHead, other);
  }
}
