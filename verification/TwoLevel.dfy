/** An iterator over blocks found through an index: it moves through the entries of all
    blocks in order, skipping empty ones. */
module TwoLevel {
  import opened Wrappers
  import opened Merger

  /** The entries of all blocks, one after the other. */
  function Flat(blocks: seq<seq<int>>): seq<int> {
    if blocks == [] then [] else Flat(blocks[..|blocks| - 1]) + blocks[|blocks| - 1]
  }

  /** How many entries come before block b. */
  ghost function Start(blocks: seq<seq<int>>, b: nat): nat
    requires b <= |blocks|
  {
    |Flat(blocks[..b])|
  }

  lemma StartNext(blocks: seq<seq<int>>, b: nat)
    requires b < |blocks|
    ensures Start(blocks, b + 1) == Start(blocks, b) + |blocks[b]|
  {
    assert blocks[..b + 1][..b] == blocks[..b];
  }

  lemma StartEnds(blocks: seq<seq<int>>)
    ensures Start(blocks, 0) == 0 && Start(blocks, |blocks|) == |Flat(blocks)|
  {
    assert blocks[..0] == [] && blocks[..|blocks|] == blocks;
  }

  /** Entry j of block b in the list of all entries. */
  lemma {:induction false} FlatAt(blocks: seq<seq<int>>, b: nat, j: nat)
    requires b < |blocks| && j < |blocks[b]|
    ensures Start(blocks, b) + j < |Flat(blocks)| && Flat(blocks)[Start(blocks, b) + j] == blocks[b][j]
  {
    var n := |blocks| - 1;
    if b == n {
      assert blocks[..n] == blocks[..b];
    } else {
      FlatAt(blocks[..n], b, j);
      assert blocks[..n][..b] == blocks[..b];
    }
  }

  lemma {:induction false} StartMonotonic(blocks: seq<seq<int>>, a: nat, b: nat)
    requires a <= b <= |blocks|
    ensures Start(blocks, a) <= Start(blocks, b)
    decreases b
  {
    if a < b {
      StartNext(blocks, b - 1);
      StartMonotonic(blocks, a, b - 1);
    }
  }

  /** The index key of a block is at least its keys and less than all later ones. */
  ghost predicate Indexed(seps: seq<int>, blocks: seq<seq<int>>) {
    && |seps| == |blocks| && Sorted(seps) && Sorted(Flat(blocks))
    && forall b: nat, k :: b < |blocks| && k in blocks[b] ==> k <= seps[b] && (b > 0 ==> seps[b - 1] < k)
  }

  class TwoLevelIterator {
    const seps: seq<int>
    const blocks: seq<seq<int>>
    var index: int
    var data: Option<Child>
    var handle: int

    ghost predicate Valid()
      reads this
    {
      && |seps| == |blocks| && -1 <= index < |blocks|
      && (data.Some? ==> 0 <= handle < |blocks| && data.value.keys == blocks[handle])
    }

    predicate DataValid()
      reads this
    {
      data.Some? && data.value.Valid()
    }

    /** Standing on entry f of the list of all entries, or past it when f is its length. */
    ghost predicate On(f: nat)
      reads this
    {
      && Valid() && f <= |Flat(blocks)|
      && (if f == |Flat(blocks)| then data == None
          else DataValid() && index == handle && Start(blocks, handle) + data.value.pos == f)
    }

    /** What the next entry in a direction is: the one the data iterator is on, or one in a
        later (or earlier) block than the index is at. */
    ghost predicate Coming(f: nat)
      reads this
    {
      && Valid() && f <= |Flat(blocks)| && (data.Some? ==> index == handle)
      && (if DataValid() then Start(blocks, handle) + data.value.pos == f
          else f == if index < 0 then |Flat(blocks)| else Start(blocks, index + 1))
    }

    ghost predicate Behind(f: nat)
      reads this
    {
      && Valid() && f <= |Flat(blocks)| && (data.Some? ==> index == handle)
      && (if DataValid() then Start(blocks, handle) + data.value.pos + 1 == f
          else f == if index < 0 then 0 else Start(blocks, index))
    }

    constructor (seps: seq<int>, blocks: seq<seq<int>>)
      requires |seps| == |blocks|
      ensures this.seps == seps && this.blocks == blocks && Valid() && !DataValid()
    {
      this.seps, this.blocks, index, data, handle := seps, blocks, -1, None, -1;
    }

    /** Open the block the index is at, unless it is open already. */
    method InitDataBlock()
      requires Valid()
      modifies this`data, this`handle
      ensures Valid() && (data.None? <==> index < 0) && (data.Some? ==> handle == index)
    {
      if index < 0 {
        data := None;
      } else if data.Some? && handle == index {
      } else {
        data, handle := Some(Child(blocks[index], -1)), index;
      }
    }

    method SkipForward(ghost f: nat)
      requires Coming(f)
      modifies this
      ensures On(f)
    {
      while !DataValid()
        invariant Coming(f)
        decreases if index < 0 then 0 else |blocks| - index
      {
        if index < 0 {
          data := None;
          return;
        }
        index := if index + 1 < |blocks| then index + 1 else -1;
        InitDataBlock();
        if data.Some? { data := Some(data.value.SeekToFirst()); }
        if index >= 0 { StartNext(blocks, index); } else { StartEnds(blocks); }
      }
      FlatAt(blocks, handle, data.value.pos);
    }

    method SkipBackward(ghost f: nat)
      requires Behind(f)
      modifies this
      ensures if f == 0 then On(|Flat(blocks)|) else On(f - 1)
    {
      while !DataValid()
        invariant Behind(f)
        decreases index + 1
      {
        if index < 0 {
          data := None;
          return;
        }
        index := index - 1;
        InitDataBlock();
        if data.Some? { data := Some(data.value.SeekToLast()); }
        if index >= 0 { StartNext(blocks, index); } else { StartEnds(blocks); }
      }
      FlatAt(blocks, handle, data.value.pos);
    }

    method SeekToFirst()
      requires Valid()
      modifies this
      ensures On(0)
    {
      index := if blocks == [] then -1 else 0;
      InitDataBlock();
      if data.Some? { data := Some(data.value.SeekToFirst()); }
      StartEnds(blocks);
      if blocks != [] {
        StartNext(blocks, 0);
        StartMonotonic(blocks, 1, |blocks|);
      }
      SkipForward(0);
    }

    method SeekToLast()
      requires Valid()
      modifies this
      ensures var n := |Flat(blocks)|; On(if n == 0 then 0 else n - 1)
    {
      index := |blocks| - 1;
      InitDataBlock();
      if data.Some? { data := Some(data.value.SeekToLast()); }
      StartEnds(blocks);
      if blocks != [] { StartNext(blocks, |blocks| - 1); }
      SkipBackward(|Flat(blocks)|);
    }

    method Next(ghost f: nat)
      requires On(f) && f < |Flat(blocks)|
      modifies this
      ensures On(f + 1)
    {
      StartNext(blocks, handle);
      data := Some(data.value.Next());
      SkipForward(f + 1);
    }

    method Prev(ghost f: nat)
      requires On(f) && f < |Flat(blocks)|
      modifies this
      ensures if f == 0 then On(|Flat(blocks)|) else On(f - 1)
    {
      data := Some(data.value.Prev());
      SkipBackward(f);
    }

    /** To the first entry that is at least the target. */
    method Seek(target: int)
      requires Valid() && Indexed(seps, blocks)
      modifies this
      ensures On(FirstAtLeast(Flat(blocks), target))
    {
      var b := FirstAtLeast(seps, target);
      index := if b == |seps| then -1 else b;
      InitDataBlock();
      if data.Some? { data := Some(data.value.Seek(target)); }
      SeekFinds(seps, blocks, target, b);
      SkipForward(FirstAtLeast(Flat(blocks), target));
    }
  }

  lemma FirstAtLeastIs(s: seq<int>, x: int, i: nat)
    requires i <= |s| && (i < |s| ==> s[i] >= x) && forall j: nat :: j < i ==> s[j] < x
    ensures FirstAtLeast(s, x) == i
  {
    var k := FirstAtLeast(s, x);
    assert k < i ==> k < |s|;
  }

  /** The entries before block b are less than a target above the index key before it. */
  lemma {:induction false} LessBefore(seps: seq<int>, blocks: seq<seq<int>>, target: int, b: nat)
    requires Indexed(seps, blocks) && b <= |blocks| && forall i: nat :: i < b ==> seps[i] < target
    ensures Start(blocks, b) <= |Flat(blocks)|
    ensures forall f: nat :: f < Start(blocks, b) ==> Flat(blocks)[f] < target
    decreases b
  {
    StartEnds(blocks);
    StartMonotonic(blocks, b, |blocks|);
    if b > 0 {
      LessBefore(seps, blocks, target, b - 1);
      StartNext(blocks, b - 1);
      forall f: nat | Start(blocks, b - 1) <= f < Start(blocks, b) ensures Flat(blocks)[f] < target {
        FlatAt(blocks, b - 1, f - Start(blocks, b - 1));
        assert blocks[b - 1][f - Start(blocks, b - 1)] in blocks[b - 1];
      }
    }
  }

  /** Which entry a seek in the index and then in the block leads to. */
  lemma SeekFinds(seps: seq<int>, blocks: seq<seq<int>>, target: int, b: nat)
    requires Indexed(seps, blocks) && b == FirstAtLeast(seps, target)
    ensures var f := FirstAtLeast(Flat(blocks), target);
      if b == |seps| then f == |Flat(blocks)|
      else
        var j := FirstAtLeast(blocks[b], target);
        f == if j < |blocks[b]| then Start(blocks, b) + j else Start(blocks, b + 1)
  {
    StartEnds(blocks);
    LessBefore(seps, blocks, target, b);
    if b == |seps| {
      FirstAtLeastIs(Flat(blocks), target, |Flat(blocks)|);
    } else {
      SeekInBlock(seps, blocks, target, b, FirstAtLeast(blocks[b], target));
    }
  }

  lemma SeekInBlock(seps: seq<int>, blocks: seq<seq<int>>, target: int, b: nat, j: nat)
    requires Indexed(seps, blocks) && b < |blocks| && seps[b] >= target && Start(blocks, b) <= |Flat(blocks)|
    requires forall f: nat :: f < Start(blocks, b) ==> Flat(blocks)[f] < target
    requires j <= |blocks[b]| && (j < |blocks[b]| ==> blocks[b][j] >= target)
    requires forall i: nat :: i < j ==> blocks[b][i] < target
    ensures FirstAtLeast(Flat(blocks), target) == Start(blocks, b) + j
    ensures j == |blocks[b]| ==> Start(blocks, b) + j == Start(blocks, b + 1)
  {
    var flat, start := Flat(blocks), Start(blocks, b);
    StartNext(blocks, b);
    StartEnds(blocks);
    StartMonotonic(blocks, b + 1, |blocks|);
    forall f: nat | start <= f < start + j ensures flat[f] < target {
      FlatAt(blocks, b, f - start);
    }
    if j < |blocks[b]| {
      FlatAt(blocks, b, j);
    } else if start + j < |flat| {
      NotLessAfter(seps, blocks, target, b);
    }
    FirstAtLeastIs(flat, target, start + j);
  }

  lemma {:induction false} BlockOf(blocks: seq<seq<int>>, f: nat) returns (b: nat)
    requires f < |Flat(blocks)|
    ensures b < |blocks| && Start(blocks, b) <= f < Start(blocks, b + 1)
  {
    b := |blocks| - 1;
    StartEnds(blocks);
    StartNext(blocks, b);
    while Start(blocks, b) > f
      invariant b < |blocks| && f < Start(blocks, b + 1)
      decreases b
    {
      b := b - 1;
    }
  }

  lemma NotLessAfter(seps: seq<int>, blocks: seq<seq<int>>, target: int, b: nat)
    requires Indexed(seps, blocks) && b < |blocks| && seps[b] >= target && Start(blocks, b + 1) < |Flat(blocks)|
    ensures Flat(blocks)[Start(blocks, b + 1)] >= target
  {
    var f := Start(blocks, b + 1);
    var c := BlockOf(blocks, f);
    if c <= b { StartMonotonic(blocks, c + 1, b + 1); }
    StartNext(blocks, c);
    FlatAt(blocks, c, f - Start(blocks, c));
    assert blocks[c][f - Start(blocks, c)] in blocks[c];
    assert seps[c - 1] >= seps[b];
  }
}
