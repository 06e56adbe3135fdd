/** A block of key-value pairs: each key is stored without the prefix it shares with the
    one before, except at restart points, whose offsets are listed at the end. */
module BlockBuilder {
  import opened Bits
  import opened Bytes
  import opened Coding

  datatype Pair = Pair(key: seq<Byte>, value: seq<Byte>)

  function EncodeEntry(shared: nat, e: Pair): seq<Byte>
    requires shared <= |e.key|
  {
    Varint(shared) + (Varint(|e.key| - shared) + (Varint(|e.value|) + (e.key[shared..] + e.value)))
  }

  /** How pairs lie in a block: where each one starts (and where the last one ends), how
      much of the key before it each one shares, and which ones are restart points. */
  datatype Layout = Layout(entries: seq<Pair>, offsets: seq<nat>, shared: seq<nat>, restarts: seq<nat>)

  ghost predicate Shaped(l: Layout) {
    && |l.offsets| == |l.entries| + 1 && |l.shared| == |l.entries| && l.offsets[0] == 0
    && |l.restarts| > 0 && l.restarts[0] == 0
  }

  ghost predicate EntryAt(l: Layout, data: seq<Byte>, i: nat)
    requires Shaped(l) && i < |l.entries|
  {
    && l.shared[i] <= |l.entries[i].key|
    && l.offsets[i + 1] == l.offsets[i] + |EncodeEntry(l.shared[i], l.entries[i])|
    && At(data, l.offsets[i], EncodeEntry(l.shared[i], l.entries[i]))
    && (i == 0 ==> l.shared[i] == 0)
    && (i > 0 ==> SharesPrefix(l.entries[i - 1].key, l.entries[i].key, l.shared[i]))
    && l.shared[i] < WORD && |l.entries[i].key| < WORD && |l.entries[i].value| < WORD
  }

  ghost predicate SharesPrefix(a: seq<Byte>, b: seq<Byte>, n: nat) {
    n <= |a| && n <= |b| && a[..n] == b[..n]
  }

  /** Restart point j is at the start of an entry whose key is stored whole. */
  ghost predicate RestartAt(l: Layout, j: nat)
    requires Shaped(l) && j < |l.restarts|
  {
    && l.restarts[j] <= |l.entries| && (j > 0 ==> l.restarts[j] < |l.entries|)
    && (l.restarts[j] < |l.entries| ==> l.shared[l.restarts[j]] == 0)
  }

  ghost predicate Increasing(s: seq<nat>) {
    forall i: nat, j: nat :: i < j < |s| ==> s[i] < s[j]
  }

  ghost predicate Lies(l: Layout, data: seq<Byte>) {
    && Shaped(l) && Increasing(l.restarts)
    && (forall i: nat :: i < |l.entries| ==> EntryAt(l, data, i))
    && (forall j: nat :: j < |l.restarts| ==> RestartAt(l, j))
  }

  /** A layout with one more pair at the end of the data. */
  ghost function Grown(l: Layout, e: Pair, shared: nat, restart: bool): Layout
    requires Shaped(l) && shared <= |e.key|
  {
    Layout(l.entries + [e], l.offsets + [l.offsets[|l.entries|] + |EncodeEntry(shared, e)|], l.shared + [shared],
           if restart then l.restarts + [|l.entries|] else l.restarts)
  }

  lemma AtExtends(data: seq<Byte>, more: seq<Byte>, p: nat, b: seq<Byte>)
    requires At(data, p, b)
    ensures At(data + more, p, b)
  {
  }

  lemma GrownEntries(l: Layout, data: seq<Byte>, e: Pair, shared: nat, restart: bool, i: nat)
    requires Lies(l, data) && |data| == l.offsets[|l.entries|] && shared <= |e.key| && i <= |l.entries|
    requires if |l.entries| == 0 then shared == 0 else SharesPrefix(l.entries[|l.entries| - 1].key, e.key, shared)
    requires shared < WORD && |e.key| < WORD && |e.value| < WORD
    ensures EntryAt(Grown(l, e, shared, restart), data + EncodeEntry(shared, e), i)
  {
    if i < |l.entries| {
      assert EntryAt(l, data, i);
      AtExtends(data, EncodeEntry(shared, e), l.offsets[i], EncodeEntry(l.shared[i], l.entries[i]));
    }
  }

  lemma GrownLies(l: Layout, data: seq<Byte>, e: Pair, shared: nat, restart: bool)
    requires Lies(l, data) && |data| == l.offsets[|l.entries|] && shared <= |e.key|
    requires if |l.entries| == 0 then shared == 0 else SharesPrefix(l.entries[|l.entries| - 1].key, e.key, shared)
    requires shared < WORD && |e.key| < WORD && |e.value| < WORD
    requires restart ==> shared == 0 && |l.entries| > 0 && l.restarts[|l.restarts| - 1] < |l.entries|
    ensures Lies(Grown(l, e, shared, restart), data + EncodeEntry(shared, e))
    ensures |data + EncodeEntry(shared, e)| == Grown(l, e, shared, restart).offsets[|l.entries| + 1]
  {
    var g, data' := Grown(l, e, shared, restart), data + EncodeEntry(shared, e);
    forall i: nat | i < |g.entries| ensures EntryAt(g, data', i) {
      GrownEntries(l, data, e, shared, restart, i);
    }
    forall j: nat | j < |g.restarts| ensures RestartAt(g, j) {
      if j < |l.restarts| { assert RestartAt(l, j); }
    }
  }

  /** The longest common prefix of two keys. */
  method SharedLength(a: seq<Byte>, b: seq<Byte>) returns (n: nat)
    ensures LongestShared(a, b, n)
  {
    var least := if |a| < |b| then |a| else |b|;
    n := 0;
    while n < least && a[n] == b[n]
      invariant SharesPrefix(a, b, n)
    {
      assert a[..n + 1] == a[..n] + [a[n]] && b[..n + 1] == b[..n] + [b[n]];
      n := n + 1;
    }
  }

  // ----- the restart array

  predicate AreWords(ws: seq<nat>) {
    forall i: nat :: i < |ws| ==> ws[i] < WORD
  }

  function Words(ws: seq<nat>): (r: seq<Byte>)
    requires AreWords(ws)
    ensures |r| == 4 * |ws|
  {
    if ws == [] then [] else Words(ws[..|ws| - 1]) + Fixed32(ws[|ws| - 1])
  }

  lemma {:induction false} WordAt(ws: seq<nat>, j: nat)
    requires AreWords(ws) && j < |ws|
    ensures At(Words(ws), 4 * j, Fixed32(ws[j]))
  {
    var n := |ws| - 1;
    if j < n {
      WordAt(ws[..n], j);
      AtExtends(Words(ws[..n]), Fixed32(ws[n]), 4 * j, Fixed32(ws[j]));
    }
  }

  /** The word at a position. */
  function WordOf(data: seq<Byte>, p: nat): nat
    requires p + 4 <= |data|
  {
    DecodeFixed32(data[p..p + 4])
  }

  lemma WordOfIs(data: seq<Byte>, p: nat, w: nat)
    requires w < WORD && At(data, p, Fixed32(w))
    ensures WordOf(data, p) == w
  {
    Fixed32RoundTrip(w, []);
    assert Fixed32(w) + [] == Fixed32(w);
  }

  /** A finished block: the pairs, the restart offsets and their number. */
  ghost predicate IsBlock(l: Layout, data: seq<Byte>) {
    && Lies(l, data)
    && |data| == End(l) + 4 * |l.restarts| + 4 && |l.restarts| < WORD
    && WordOf(data, |data| - 4) == |l.restarts|
    && forall j: nat :: j < |l.restarts| ==> RestartWord(l, data, j)
  }

  ghost function End(l: Layout): nat
    requires Shaped(l)
  {
    l.offsets[|l.entries|]
  }

  ghost predicate RestartIs(l: Layout, j: nat, w: nat)
    requires Shaped(l) && j < |l.restarts|
  {
    l.restarts[j] <= |l.entries| && w == l.offsets[l.restarts[j]]
  }

  ghost predicate RestartWord(l: Layout, data: seq<Byte>, j: nat)
    requires Shaped(l) && j < |l.restarts|
  {
    End(l) + 4 * j + 4 <= |data| && RestartIs(l, j, WordOf(data, End(l) + 4 * j))
  }

  lemma LiesExtends(l: Layout, data: seq<Byte>, more: seq<Byte>)
    requires Lies(l, data)
    ensures Lies(l, data + more)
  {
    forall i: nat | i < |l.entries| ensures EntryAt(l, data + more, i) {
      assert EntryAt(l, data, i);
      AtExtends(data, more, l.offsets[i], EncodeEntry(l.shared[i], l.entries[i]));
    }
  }

  lemma FinishedIs(l: Layout, data: seq<Byte>, ws: seq<nat>)
    requires Lies(l, data) && |data| == End(l) && |ws| == |l.restarts| < WORD
    requires AreWords(ws) && forall j: nat :: j < |ws| ==> RestartIs(l, j, ws[j])
    ensures IsBlock(l, data + Words(ws) + Fixed32(|ws|))
  {
    var block := data + Words(ws) + Fixed32(|ws|);
    LiesExtends(l, data, Words(ws));
    LiesExtends(l, data + Words(ws), Fixed32(|ws|));
    WordLast(data + Words(ws), |ws|);
    forall j: nat | j < |l.restarts| ensures RestartWord(l, block, j) {
      RestartWordIs(l, data, ws, j);
    }
  }

  lemma RestartWordIs(l: Layout, data: seq<Byte>, ws: seq<nat>, j: nat)
    requires Shaped(l) && |data| == End(l) && j < |ws| == |l.restarts| < WORD && AreWords(ws)
    requires RestartIs(l, j, ws[j])
    ensures RestartWord(l, data + Words(ws) + Fixed32(|ws|), j)
  {
    WordAt(ws, j);
    RestartBytes(data, Words(ws), Fixed32(|ws|), 4 * j, Fixed32(ws[j]));
    WordOfIs(data + Words(ws) + Fixed32(|ws|), |data| + 4 * j, ws[j]);
  }

  lemma WordLast(data: seq<Byte>, w: nat)
    requires w < WORD
    ensures |data + Fixed32(w)| == |data| + 4 && WordOf(data + Fixed32(w), |data|) == w
  {
    WordOfIs(data + Fixed32(w), |data|, w);
  }

  lemma RestartBytes(data: seq<Byte>, words: seq<Byte>, more: seq<Byte>, p: nat, b: seq<Byte>)
    requires At(words, p, b)
    ensures At(data + words + more, |data| + p, b)
  {
    assert (data + words + more)[|data| + p..|data| + p + |b|] == words[p..p + |b|];
  }

  // ----- building

  ghost function LastKey(l: Layout): seq<Byte> {
    if l.entries == [] then [] else l.entries[|l.entries| - 1].key
  }

  /** The bytes and restart offsets of a builder lie as the layout says. */
  ghost predicate Built(l: Layout, buffer: seq<Byte>, restarts: seq<nat>) {
    forall u {:trigger UnfoldAt(buffer, u)} :: UnfoldAt(buffer, u) ==>
      && Lies(l, buffer) && |buffer| == End(l) && |restarts| == |l.restarts|
      && (forall j: nat :: j < |restarts| ==> RestartIs(l, j, restarts[j]))
  }

  /** The last key and the entries since the last restart point. */
  ghost predicate Tracks(l: Layout, counter: nat, lastKey: seq<Byte>) {
    && Shaped(l) && lastKey == LastKey(l) && l.restarts[|l.restarts| - 1] <= |l.entries|
    && counter == |l.entries| - l.restarts[|l.restarts| - 1]
  }

  /** The state of a builder agrees with the layout of what it was given, as long as its
      bytes are fewer than 4 GB. */
  ghost predicate Building(l: Layout, buffer: seq<Byte>, restarts: seq<nat>, counter: nat, lastKey: seq<Byte>) {
    forall u {:trigger UnfoldAt(l, u)} :: UnfoldAt(l, u) ==>
      && Tracks(l, counter, lastKey) && |lastKey| <= |buffer| && (buffer == [] <==> l.entries == [])
      && AreWords(restarts) && |restarts| == |l.restarts| && (|buffer| < WORD ==> Built(l, buffer, restarts))
  }

  lemma BuiltStep(l: Layout, buffer: seq<Byte>, restarts: seq<nat>, e: Pair, shared: nat, restart: bool)
    requires Built(l, buffer, restarts) && SharesPrefix(LastKey(l), e.key, shared)
    requires |buffer| < WORD && |e.key| < WORD && |e.value| < WORD
    requires Shaped(l) && (restart ==> shared == 0 && l.restarts[|l.restarts| - 1] < |l.entries|)
    ensures Built(Grown(l, e, shared, restart), buffer + EncodeEntry(shared, e),
                  if restart then restarts + [|buffer|] else restarts)
  {
    assert UnfoldAt(buffer, 0);
    var restarts' := if restart then restarts + [|buffer|] else restarts;
    GrownRestarts(l, e, shared, restart, restarts);
    GrownLies(l, buffer, e, shared, restart);
    IsBuilt(Grown(l, e, shared, restart), buffer + EncodeEntry(shared, e), restarts');
  }

  lemma IsBuilt(l: Layout, buffer: seq<Byte>, restarts: seq<nat>)
    requires Lies(l, buffer) && |buffer| == End(l) && |restarts| == |l.restarts|
    requires forall j: nat :: j < |restarts| ==> RestartIs(l, j, restarts[j])
    ensures Built(l, buffer, restarts)
  {
  }

  /** The bytes after one more pair: its encoding if they are fewer than 4 GB. */
  ghost predicate Appended(buffer: seq<Byte>, shared: nat, e: Pair, r: seq<Byte>) {
    && shared <= |e.key| && |buffer| + (|e.key| - shared) + |e.value| < |r|
    && (|r| < WORD ==> r == buffer + EncodeEntry(shared, e))
  }

  lemma BuildStep(l: Layout, buffer: seq<Byte>, restarts: seq<nat>, counter: nat, lastKey: seq<Byte>, e: Pair,
                  shared: nat, restart: bool, r: seq<Byte>)
    requires Building(l, buffer, restarts, counter, lastKey) && SharesPrefix(lastKey, e.key, shared)
    requires (restart ==> shared == 0 && counter > 0) && Appended(buffer, shared, e, r)
    ensures Shaped(l)
    ensures Building(Grown(l, e, shared, restart), r, if restart then restarts + [LowWord(|buffer|)] else restarts,
                     if restart then 1 else counter + 1, e.key)
  {
    assert UnfoldAt(l, 0);
    TracksStep(l, counter, lastKey, e, shared, restart);
    var restarts' := if restart then restarts + [LowWord(|buffer|)] else restarts;
    if |r| < WORD { BuiltStep(l, buffer, restarts, e, shared, restart); }
    assert AreWords(restarts');
    IsBuilding(Grown(l, e, shared, restart), r, restarts', if restart then 1 else counter + 1, e.key);
  }

  lemma TracksStep(l: Layout, counter: nat, lastKey: seq<Byte>, e: Pair, shared: nat, restart: bool)
    requires Tracks(l, counter, lastKey) && shared <= |e.key|
    ensures Tracks(Grown(l, e, shared, restart), if restart then 1 else counter + 1, e.key)
    ensures |Grown(l, e, shared, restart).restarts| == |l.restarts| + if restart then 1 else 0
    ensures Grown(l, e, shared, restart).entries != []
  {
  }

  lemma IsBuilding(l: Layout, buffer: seq<Byte>, restarts: seq<nat>, counter: nat, lastKey: seq<Byte>)
    requires Tracks(l, counter, lastKey) && |lastKey| <= |buffer| && (buffer == [] <==> l.entries == [])
    requires AreWords(restarts) && |restarts| == |l.restarts| && (|buffer| < WORD ==> Built(l, buffer, restarts))
    ensures Building(l, buffer, restarts, counter, lastKey)
  {
  }

  lemma GrownRestarts(l: Layout, e: Pair, shared: nat, restart: bool, restarts: seq<nat>)
    requires Shaped(l) && shared <= |e.key| && |restarts| == |l.restarts|
    requires forall j: nat :: j < |restarts| ==> RestartIs(l, j, restarts[j])
    ensures var restarts' := if restart then restarts + [End(l)] else restarts;
      && |restarts'| == |Grown(l, e, shared, restart).restarts|
      && forall j: nat :: j < |restarts'| ==> RestartIs(Grown(l, e, shared, restart), j, restarts'[j])
  {
    var g, restarts' := Grown(l, e, shared, restart), if restart then restarts + [End(l)] else restarts;
    forall j: nat | j < |restarts'| ensures RestartIs(g, j, restarts'[j]) {
      if j < |restarts| { assert RestartIs(l, j, restarts[j]); }
    }
  }

  lemma Concat(a: seq<Byte>, b: seq<Byte>, c: seq<Byte>, d: seq<Byte>, e: seq<Byte>, f: seq<Byte>)
    ensures a + b + c + d + e + f == a + (b + (c + (d + (e + f))))
  {
  }

  /** Append the three lengths, which take 32 bits, the rest of the key and the value. */
  method AppendEntry(buffer: seq<Byte>, shared: nat, e: Pair) returns (r: seq<Byte>)
    requires shared <= |e.key| && shared <= |buffer|
    ensures Appended(buffer, shared, e, r)
  {
    var a, b, c := LowWord(shared), LowWord(|e.key| - shared), LowWord(|e.value|);
    EncodeVarint32Is(a);
    EncodeVarint32Is(b);
    EncodeVarint32Is(c);
    Concat(buffer, Varint(a), Varint(b), Varint(c), e.key[shared..], e.value);
    r := buffer + EncodeVarint32(a) + EncodeVarint32(b) + EncodeVarint32(c) + e.key[shared..] + e.value;
  }

  lemma FinishBuilding(l: Layout, buffer: seq<Byte>, restarts: seq<nat>, counter: nat, lastKey: seq<Byte>)
    requires Building(l, buffer, restarts, counter, lastKey) && |buffer| < WORD && |restarts| < WORD
    ensures AreWords(restarts) && IsBlock(l, buffer + Words(restarts) + Fixed32(|restarts|))
  {
    assert UnfoldAt(l, 0) && UnfoldAt(buffer, 0);
    FinishedIs(l, buffer, restarts);
  }

  /** Restart points are an interval apart. */
  ghost predicate SpacedAt(l: Layout, interval: nat, j: nat)
    requires j < |l.restarts|
  {
    j > 0 ==> l.restarts[j] == l.restarts[j - 1] + interval
  }

  /** A key between restart points is stored without the longest prefix it shares. */
  ghost predicate CompressedAt(l: Layout, i: nat)
    requires i < |l.entries| && |l.shared| == |l.entries|
  {
    i > 0 && i !in l.restarts ==> LongestShared(l.entries[i - 1].key, l.entries[i].key, l.shared[i])
  }

  ghost predicate LongestShared(a: seq<Byte>, b: seq<Byte>, n: nat) {
    SharesPrefix(a, b, n) && (n == |a| || n == |b| || a[n] != b[n])
  }

  ghost predicate Compressed(l: Layout, interval: nat) {
    && |l.shared| == |l.entries|
    && (forall j: nat :: j < |l.restarts| ==> SpacedAt(l, interval, j))
    && (forall i: nat :: i < |l.entries| ==> CompressedAt(l, i))
  }

  lemma CompressedStep(l: Layout, counter: nat, lastKey: seq<Byte>, e: Pair, shared: nat, restart: bool, interval: nat)
    requires Tracks(l, counter, lastKey) && Compressed(l, interval) && shared <= |e.key|
    requires if restart then counter == interval else LongestShared(lastKey, e.key, shared)
    ensures Compressed(Grown(l, e, shared, restart), interval)
  {
    var g := Grown(l, e, shared, restart);
    forall j: nat | j < |g.restarts| ensures SpacedAt(g, interval, j) {
      if j < |l.restarts| { assert SpacedAt(l, interval, j); }
    }
    forall i: nat | i < |g.entries| ensures CompressedAt(g, i) {
      if i < |l.entries| { assert CompressedAt(l, i); }
    }
  }

  class BlockBuilder {
    const interval: nat
    var buffer: seq<Byte>
    var restarts: seq<nat>
    var counter: nat
    var lastKey: seq<Byte>
    ghost var layout: Layout

    ghost predicate Valid()
      reads this
    {
      && 1 <= interval && counter <= interval && Building(layout, buffer, restarts, counter, lastKey)
      && Compressed(layout, interval)
    }

    constructor (interval: nat)
      requires 1 <= interval
      ensures Valid() && layout.entries == []
    {
      this.interval, buffer, restarts, counter, lastKey := interval, [], [0], 0, [];
      layout := Layout([], [0], [], [0]);
      new;
      assert Increasing(layout.restarts);
    }

    /** Start over with no pairs. */
    method Reset()
      requires 1 <= interval
      modifies this
      ensures Valid() && layout.entries == []
    {
      buffer, restarts, counter, lastKey := [], [0], 0, [];
      layout := Layout([], [0], [], [0]);
      assert Increasing(layout.restarts);
    }

    /** Whether there are no pairs. */
    predicate Empty(): (r: bool)
      requires Valid()
      reads this
      ensures r <==> layout.entries == []
    {
      assert UnfoldAt(layout, 0);
      buffer == []
    }

    /** The size of the block if it were finished now. */
    function CurrentSizeEstimate(): nat
      reads this
    {
      |buffer| + 4 * |restarts| + 4
    }

    lemma AddStep(e: Pair, shared: nat, restart: bool)
      requires Valid() && restart == (counter >= interval)
      requires if restart then shared == 0 else LongestShared(lastKey, e.key, shared)
      ensures Shaped(layout) && shared <= |e.key| && shared <= |buffer|
      ensures Compressed(Grown(layout, e, shared, restart), interval)
    {
      assert UnfoldAt(layout, 0);
      CompressedStep(layout, counter, lastKey, e, shared, restart, interval);
    }

    method Add(e: Pair)
      requires Valid()
      modifies this
      ensures Valid() && layout.entries == old(layout.entries) + [e]
    {
      var shared: nat := 0;
      var restart := counter >= interval;
      if !restart {
        shared := SharedLength(lastKey, e.key);
      }
      AddStep(e, shared, restart);
      var longer := AppendEntry(buffer, shared, e);
      BuildStep(layout, buffer, restarts, counter, lastKey, e, shared, restart, longer);
      if restart {
        restarts := restarts + [LowWord(|buffer|)];
        counter := 0;
      }
      buffer := longer;
      lastKey := lastKey[..shared] + e.key[shared..];
      assert lastKey == e.key;
      counter := counter + 1;
      layout := Grown(layout, e, shared, restart);
    }

    /** Append the restart array; the result is a block of the pairs added, if it has fewer
        than 4 GB. */
    method Finish() returns (block: seq<Byte>)
      requires Valid()
      ensures |block| == CurrentSizeEstimate() && Compressed(layout, interval)
      ensures |block| < WORD ==> IsBlock(layout, block)
    {
      assert AreWords(restarts) by { assert UnfoldAt(layout, 0); }
      block := buffer;
      for i := 0 to |restarts|
        invariant AreWords(restarts[..i]) && block == buffer + Words(restarts[..i])
      {
        assert restarts[..i + 1][..i] == restarts[..i];
        block := block + Fixed32(restarts[i]);
      }
      assert restarts[..|restarts|] == restarts;
      block := block + Fixed32(LowWord(|restarts|));
      if |block| < WORD { FinishBuilding(layout, buffer, restarts, counter, lastKey); }
    }
  }
}
