/** Flattening the search tree of a node by a walk with an explicit stack. */
module NodeWalk {
  import opened Bits
  import opened NodeTree

  /** The keys and pointers that come before the subtree at a path. */
  ghost function KeysBefore(t: Tree, p: Path): seq<int>
    requires HasPath(t, p)
  {
    if p == [] then []
    else if p[0] then Keys(t.left) + [t.key] + KeysBefore(t.right, p[1..])
    else KeysBefore(t.left, p[1..])
  }

  ghost function PtrsBefore(t: Tree, p: Path): seq<Ptr>
    requires HasPath(t, p)
  {
    if p == [] then []
    else if p[0] then Ptrs(t.left) + PtrsBefore(t.right, p[1..])
    else PtrsBefore(t.left, p[1..])
  }

  lemma {:induction false} BeforeLeft(t: Tree, p: Path)
    requires HasPath(t, p) && Sub(t, p).Node?
    ensures HasPath(t, p + [false])
    ensures KeysBefore(t, p + [false]) == KeysBefore(t, p) && PtrsBefore(t, p + [false]) == PtrsBefore(t, p)
    decreases |p|
  {
    if p == [] {
      assert p + [false] == [false];
    } else {
      assert (p + [false])[0] == p[0] && (p + [false])[1..] == p[1..] + [false];
      BeforeLeft(Child(t, p[0]), p[1..]);
    }
  }

  lemma {:induction false} BeforeRight(t: Tree, p: Path)
    requires HasPath(t, p) && Sub(t, p).Node?
    ensures HasPath(t, p + [true])
    ensures KeysBefore(t, p + [true]) == KeysBefore(t, p) + (Keys(Sub(t, p).left) + [Sub(t, p).key])
    ensures PtrsBefore(t, p + [true]) == PtrsBefore(t, p) + Ptrs(Sub(t, p).left)
    decreases |p|
  {
    if p == [] {
      assert p + [true] == [true];
      assert [true][1..] == [];
    } else {
      assert (p + [true])[0] == p[0] && (p + [true])[1..] == p[1..] + [true];
      BeforeRight(Child(t, p[0]), p[1..]);
    }
  }

  /** The way down is never longer than the number of keys. */
  lemma {:induction false} PathShort(t: Tree, p: Path)
    requires HasPath(t, p)
    ensures |p| + |Keys(Sub(t, p))| <= |Keys(t)|
  {
    if p != [] { PathShort(Child(t, p[0]), p[1..]); }
  }

  /** The stack holds the entries above the one at the path, below a bottom of -1. */
  ghost predicate Above(t: Tree, p: Path, stack: seq<int>) {
    && HasPath(t, p) && |stack| == |p| + 1 && stack[0] == -1
    && forall i: nat :: i < |p| ==> LocAt(t, p[..i], stack[i + 1])
  }

  ghost predicate LocAt(t: Tree, p: Path, loc: int) {
    HasPath(t, p) && Sub(t, p).Node? && Sub(t, p).loc == loc
  }

  lemma {:induction false} PrefixPath(t: Tree, p: Path, n: nat)
    requires HasPath(t, p) && n < |p|
    ensures HasPath(t, p[..n]) && HasPath(t, p[..n + 1])
    ensures Sub(t, p[..n]).Node? && Child(Sub(t, p[..n]), p[n]) == Sub(t, p[..n + 1])
    decreases n
  {
    if n == 0 {
      assert p[..0] == [] && p[..1] == [p[0]];
    } else {
      PrefixPath(Child(t, p[0]), p[1..], n - 1);
      assert p[..n][1..] == p[1..][..n - 1] && p[..n + 1][1..] == p[1..][..n];
    }
  }

  lemma AbovePush(t: Tree, p: Path, stack: seq<int>, d: bool)
    requires Above(t, p, stack) && Sub(t, p).Node?
    ensures Above(t, p + [d], stack + [Sub(t, p).loc])
  {
    SubStep(t, p, d);
    var p', stack' := p + [d], stack + [Sub(t, p).loc];
    forall i: nat | i < |p'| ensures LocAt(t, p'[..i], stack'[i + 1]) {
      if i < |p| {
        assert LocAt(t, p[..i], stack[i + 1]) && p'[..i] == p[..i];
      } else {
        assert p'[..i] == p;
      }
    }
  }

  lemma AbovePop(t: Tree, p: Path, stack: seq<int>)
    requires Above(t, p, stack) && p != []
    ensures var n := |p| - 1;
      && Above(t, p[..n], stack[..|stack| - 1]) && LocAt(t, p[..n], stack[|stack| - 1])
      && Child(Sub(t, p[..n]), p[n]) == Sub(t, p)
  {
    var n := |p| - 1;
    PrefixPath(t, p, n);
    assert p[..n + 1] == p;
    forall i: nat | i < n ensures LocAt(t, p[..n][..i], stack[..n + 1][i + 1]) {
      assert LocAt(t, p[..i], stack[i + 1]) && p[..n][..i] == p[..i];
    }
    assert LocAt(t, p[..n], stack[n + 1]);
  }

  /** The entry above is none of those in the subtree. */
  lemma {:induction false} ParentOutside(t: Tree, p: Path)
    requires HasPath(t, p) && p != [] && Separate(t)
    ensures HasPath(t, p[..|p| - 1]) && Sub(t, p[..|p| - 1]).Node?
    ensures Sub(t, p[..|p| - 1]).loc !in Locs(Sub(t, p))
  {
    var n := |p| - 1;
    PrefixPath(t, p, n);
    if n == 0 {
      assert p[..0] == [];
      assert p == [p[0]] && p[1..] == [];
    } else {
      ParentOutside(Child(t, p[0]), p[1..]);
      assert p[..n][1..] == p[1..][..n - 1];
    }
  }

  lemma {:induction false} SubSeparate(t: Tree, p: Path)
    requires HasPath(t, p) && Separate(t)
    ensures Separate(Sub(t, p))
  {
    if p != [] { SubSeparate(Child(t, p[0]), p[1..]); }
  }

  // ----- the walk

  /** How the walk got to the current entry. */
  datatype From = Top | LeftChild | RightChild

  /** The entry the walk was at before. */
  ghost predicate CameFrom(t: Tree, p: Path, stack: seq<int>, last: int, from: From)
    requires HasPath(t, p) && Sub(t, p).Node? && |stack| > 0
  {
    var x := Sub(t, p);
    match from
    case Top => last == stack[|stack| - 1]
    case LeftChild => x.left.Node? && last == x.left.loc
    case RightChild => x.right.Node? && last == x.right.loc
  }

  /** What has been written when the walk comes to the entry at a path. */
  ghost function KeysSoFar(t: Tree, p: Path, from: From): seq<int>
    requires HasPath(t, p) && Sub(t, p).Node?
  {
    var x := Sub(t, p);
    KeysBefore(t, p) + match from case Top => [] case LeftChild => Keys(x.left) case RightChild => Keys(x)
  }

  ghost function PtrsSoFar(t: Tree, p: Path, from: From): seq<Ptr>
    requires HasPath(t, p) && Sub(t, p).Node?
  {
    var x := Sub(t, p);
    PtrsBefore(t, p) + match from case Top => [] case LeftChild => Ptrs(x.left) case RightChild => Ptrs(x)
  }

  /** The walk stands at an entry, or is over when that is -1. */
  ghost predicate Standing(t: Tree, p: Path, stack: seq<int>, cur: int, last: int, from: From, keys: seq<int>, ptrs: seq<Ptr>) {
    && Above(t, p, stack) && LocAt(t, p, cur) && CameFrom(t, p, stack, last, from)
    && keys == KeysSoFar(t, p, from) && ptrs == PtrsSoFar(t, p, from)
  }

  ghost predicate At(t: Tree, p: Path, stack: seq<int>, cur: int, last: int, from: From, keys: seq<int>, ptrs: seq<Ptr>) {
    forall u {:trigger UnfoldAt(stack, u)} :: UnfoldAt(stack, u) ==> Standing(t, p, stack, cur, last, from, keys, ptrs)
  }

  /** The subtree at a path is written; the walk goes back up. */
  ghost predicate Leaving(t: Tree, p: Path, stack: seq<int>, last: int, keys: seq<int>, ptrs: seq<Ptr>) {
    && Above(t, p, stack) && LocAt(t, p, last)
    && keys == KeysBefore(t, p) + Keys(Sub(t, p)) && ptrs == PtrsBefore(t, p) + Ptrs(Sub(t, p))
  }

  /** Up to the entry above. */
  lemma GoUp(t: Tree, p: Path, stack: seq<int>, last: int, keys: seq<int>, ptrs: seq<Ptr>)
    requires Leaving(t, p, stack, last, keys, ptrs) && p != []
    ensures var n := |p| - 1;
      At(t, p[..n], stack[..n + 1], stack[n + 1], last, if p[n] then RightChild else LeftChild, keys, ptrs)
  {
    var n := |p| - 1;
    AbovePop(t, p, stack);
    assert p[..n] + [p[n]] == p;
    var x := Sub(t, p[..n]);
    if p[n] {
      BeforeRight(t, p[..n]);
      Rejoin(KeysBefore(t, p[..n]), Keys(x.left) + [x.key], Keys(x.right));
      Rejoin(PtrsBefore(t, p[..n]), Ptrs(x.left), Ptrs(x.right));
    } else {
      BeforeLeft(t, p[..n]);
    }
  }

  lemma Rejoin(a: seq<int>, b: seq<int>, c: seq<int>)
    ensures a + b + c == a + (b + c)
  {
  }

  lemma WalkOver(t: Tree, p: Path, stack: seq<int>, last: int, keys: seq<int>, ptrs: seq<Ptr>)
    requires Leaving(t, p, stack, last, keys, ptrs) && p == []
    ensures keys == Keys(t) && ptrs == Ptrs(t) && stack == [-1]
  {
  }

  /** What the code can tell from the entry it is at and the one it was at before. */
  lemma Recognized(entry: seq<Entry>, t: Tree, p: Path, stack: seq<int>, cur: int, last: int, from: From,
                   keys: seq<int>, ptrs: seq<Ptr>)
    requires Holds(entry, t) && Separate(t) && At(t, p, stack, cur, last, from, keys, ptrs)
    ensures |stack| > 0 && HasPath(t, p) && Sub(t, p).Node? && 0 <= cur < |entry| && EntryOk(entry[cur], Sub(t, p))
    ensures from == Top <==> last == stack[|stack| - 1]
    ensures from == LeftChild ==> last == entry[cur].left
    ensures from == RightChild ==> last != entry[cur].left && last == entry[cur].right
    ensures |stack| <= |Keys(t)| && |keys| <= |Keys(t)|
  {
    assert UnfoldAt(stack, 0);
    SubHolds(entry, t, p);
    SubSeparate(t, p);
    PathShort(t, p);
    var x := Sub(t, p);
    assert x.left.Node? ==> x.left.loc in Locs(x.left) && x.left.loc in Locs(x);
    assert x.right.Node? ==> x.right.loc in Locs(x.right) && x.right.loc in Locs(x);
    if p != [] {
      ParentOutside(t, p);
      assert LocAt(t, p[..|p| - 1], stack[|p|]);
    }
    BeforeShort(t, p);
  }

  lemma {:induction false} BeforeShort(t: Tree, p: Path)
    requires HasPath(t, p)
    ensures |KeysBefore(t, p)| + |Keys(Sub(t, p))| <= |Keys(t)|
  {
    if p != [] { BeforeShort(Child(t, p[0]), p[1..]); }
  }

  lemma GoLeft(t: Tree, p: Path, stack: seq<int>, cur: int, last: int, keys: seq<int>, ptrs: seq<Ptr>)
    requires At(t, p, stack, cur, last, Top, keys, ptrs) && HasPath(t, p) && Sub(t, p).Node? && Sub(t, p).left.Node?
    ensures At(t, p + [false], stack + [cur], Sub(t, p).left.loc, cur, Top, keys, ptrs)
    ensures HasPath(t, p + [false]) && Sub(t, p + [false]) == Sub(t, p).left
  {
    assert UnfoldAt(stack, 0);
    AbovePush(t, p, stack, false);
    SubStep(t, p, false);
    BeforeLeft(t, p);
  }

  /** The key of the current entry and all before it are written. */
  ghost predicate Halfway(t: Tree, p: Path, stack: seq<int>, cur: int, keys: seq<int>, ptrs: seq<Ptr>) {
    && Above(t, p, stack) && LocAt(t, p, cur)
    && var x := Sub(t, p);
    && keys == KeysBefore(t, p) + (Keys(x.left) + [x.key]) && ptrs == PtrsBefore(t, p) + Ptrs(x.left)
  }

  lemma KeyWritten(t: Tree, p: Path, stack: seq<int>, cur: int, last: int, from: From, keys: seq<int>, ptrs: seq<Ptr>)
    requires At(t, p, stack, cur, last, from, keys, ptrs) && HasPath(t, p) && Sub(t, p).Node?
    requires from == LeftChild || (from == Top && Sub(t, p).left.Leaf?)
    ensures Halfway(t, p, stack, cur, keys + [Sub(t, p).key],
                    if from == Top then ptrs + [Sub(t, p).left.ptr] else ptrs)
    ensures from == LeftChild ==> ptrs != []
  {
    assert UnfoldAt(stack, 0);
    var x := Sub(t, p);
    if from == Top {
      assert Keys(x.left) + [x.key] == [x.key];
    } else {
      Rejoin(KeysBefore(t, p), Keys(x.left), [x.key]);
    }
  }

  lemma GoRight(t: Tree, p: Path, stack: seq<int>, cur: int, keys: seq<int>, ptrs: seq<Ptr>)
    requires Halfway(t, p, stack, cur, keys, ptrs) && Sub(t, p).right.Node?
    ensures At(t, p + [true], stack + [cur], Sub(t, p).right.loc, cur, Top, keys, ptrs)
    ensures HasPath(t, p + [true]) && Sub(t, p + [true]) == Sub(t, p).right
  {
    AbovePush(t, p, stack, true);
    SubStep(t, p, true);
    BeforeRight(t, p);
  }

  lemma RightWritten(t: Tree, p: Path, stack: seq<int>, cur: int, keys: seq<int>, ptrs: seq<Ptr>)
    requires Halfway(t, p, stack, cur, keys, ptrs) && Sub(t, p).right.Leaf?
    ensures Leaving(t, p, stack, cur, keys, ptrs + [Sub(t, p).right.ptr])
  {
    var x := Sub(t, p);
    assert Keys(x.left) + [x.key] + [] == Keys(x.left) + [x.key];
    Rejoin(PtrsBefore(t, p), Ptrs(x.left), [x.right.ptr]);
  }

  lemma AllWritten(t: Tree, p: Path, stack: seq<int>, cur: int, last: int, keys: seq<int>, ptrs: seq<Ptr>)
    requires At(t, p, stack, cur, last, RightChild, keys, ptrs)
    ensures Leaving(t, p, stack, cur, keys, ptrs)
  {
    assert UnfoldAt(stack, 0);
  }

  lemma StartWalk(t: Tree)
    requires t.Node?
    ensures At(t, [], [-1], t.loc, -1, Top, [], [])
  {
  }

  // ----- the method

  /** The pointers written so far; the first one is kept apart. */
  ghost function Out(first: bool, leftmost: Ptr, ptr: seq<Ptr>): seq<Ptr> {
    if first then [] else [leftmost] + ptr
  }

  method WritePtr(first: bool, leftmost: Ptr, ptr: seq<Ptr>, x: Ptr) returns (first': bool, leftmost': Ptr, ptr': seq<Ptr>)
    requires first ==> ptr == []
    ensures !first' && Out(first', leftmost', ptr') == Out(first, leftmost, ptr) + [x]
  {
    if !first {
      return false, leftmost, ptr + [x];
    }
    return false, x, ptr;
  }

  ghost predicate Walking(t: Tree, p: Path, stack: seq<int>, cur: int, last: int, from: From, keys: seq<int>, ptrs: seq<Ptr>,
                          size: nat)
  {
    if cur == -1 then keys == Keys(t) && ptrs == Ptrs(t)
    else
      && At(t, p, stack, cur, last, from, keys, ptrs)
      && size == (if from == Top && HasPath(t, p) then |Keys(Sub(t, p))| else |p|)
  }

  /** Leave the subtree at p: up to the entry above, or done. */
  method Leave(stack: seq<int>, cur: int, ghost t: Tree, ghost p: Path, ghost keys: seq<int>, ghost ptrs: seq<Ptr>)
    returns (stack': seq<int>, next: int, ghost p': Path, ghost from: From)
    requires Leaving(t, p, stack, cur, keys, ptrs) && |stack| > 0
    ensures Walking(t, p', stack', next, cur, from, keys, ptrs, |p'|) && from != Top
    ensures if next == -1 then from == LeftChild else |p'| < |p|
  {
    next := stack[|stack| - 1];
    stack' := stack[..|stack| - 1];
    p', from := [], LeftChild;
    if p == [] {
      WalkOver(t, p, stack, cur, keys, ptrs);
    } else {
      GoUp(t, p, stack, cur, keys, ptrs);
      assert LocAt(t, p[..|p| - 1], stack[|p|]);
      p', from := p[..|p| - 1], if p[|p| - 1] then RightChild else LeftChild;
    }
  }

  /** After the key of an entry: down to the right, or write the pointer there and leave. */
  method RightPart(x: Entry, stack: seq<int>, cur: int, first: bool, leftmost: Ptr, ptr: seq<Ptr>,
                   ghost t: Tree, ghost p: Path, ghost keys: seq<int>)
    returns (stack': seq<int>, next: int, ptr': seq<Ptr>, ghost p': Path, ghost from: From, ghost size: nat)
    requires !first && Halfway(t, p, stack, cur, keys, Out(first, leftmost, ptr)) && EntryOk(x, Sub(t, p))
    ensures Walking(t, p', stack', next, cur, from, keys, Out(first, leftmost, ptr'), size)
  {
    ghost var out := Out(first, leftmost, ptr);
    if x.right != -1 {
      GoRight(t, p, stack, cur, keys, out);
      stack', next, ptr', p', from := stack + [cur], x.right, ptr, p + [true], Top;
      size := |Keys(Sub(t, p'))|;
    } else {
      RightWritten(t, p, stack, cur, keys, out);
      ptr' := ptr + [x.rPtr];
      assert Out(first, leftmost, ptr') == out + [x.rPtr];
      stack', next, p', from := Leave(stack, cur, t, p, keys, out + [x.rPtr]);
      size := |p'|;
    }
  }

  ghost function Rank(from: From): nat {
    match from case Top => 2 case RightChild => 1 case LeftChild => 0
  }

  /** The keys in order, and the child pointers around them. */
  method Transform(entry: seq<Entry>, root: int, ghost t: Tree) returns (keys: seq<int>, ptr: seq<Ptr>, leftmost: Ptr)
    requires Holds(entry, t) && Separate(t) && t.Node? && root == t.loc
    ensures keys == Keys(t) && [leftmost] + ptr == Ptrs(t)
  {
    var stack, cur, last, first := [-1], root, -1, true;
    keys, ptr, leftmost := [], [], NULL;
    ghost var p: Path, from: From, size: nat := [], Top, |Keys(t)|;
    ghost var total := |Keys(t)|;
    StartWalk(t);
    while cur != -1
      invariant (first ==> ptr == []) && Walking(t, p, stack, cur, last, from, keys, Out(first, leftmost, ptr), size)
      decreases total - |keys|, Rank(from), size
    {
      ghost var out := Out(first, leftmost, ptr);
      Recognized(entry, t, p, stack, cur, last, from, keys, out);
      var x, above, here := entry[cur], stack[|stack| - 1], cur;
      if last == above && x.left != -1 {
        GoLeft(t, p, stack, cur, above, keys, out);
        assert |Keys(Sub(t, p).left)| < size;
        stack, cur, p := stack + [cur], x.left, p + [false];
        size := |Keys(Sub(t, p))|;
      } else if last == above || last == x.left {
        KeyWritten(t, p, stack, cur, last, from, keys, out);
        keys := keys + [x.key];
        if last == above {
          first, leftmost, ptr := WritePtr(first, leftmost, ptr, x.lPtr);
        }
        stack, cur, ptr, p, from, size := RightPart(x, stack, cur, first, leftmost, ptr, t, p, keys);
      } else {
        assert from == RightChild;
        AllWritten(t, p, stack, cur, last, keys, out);
        stack, cur, p, from := Leave(stack, cur, t, p, keys, out);
        size := |p|;
      }
      last := here;
    }
  }
}
