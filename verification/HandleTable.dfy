/** The hash table of the cache: buckets of handles chained through their next_hash
    links, doubled when it gets too full. */
module HandleTable {
  import opened Bits

  const NIL: int := -1

  /** A cache key together with its hash. */
  datatype Key = Key(text: string, hash: nat)

  function BucketOf(k: Key, n: nat): nat
    requires n > 0
  {
    And(k.hash, n - 1)
  }

  lemma BucketInRange(k: Key, n: nat)
    requires n > 0 && IsPow2(n)
    ensures BucketOf(k, n) < n
  {
    var w: nat :| Pow2(w) == n;
    AndMask(k.hash, w);
    LowBitsBound(k.hash, w);
  }

  // ----- chains

  function Nth(c: seq<nat>, i: nat): int {
    if i < |c| then c[i] else NIL
  }

  ghost predicate Distinct(c: seq<nat>) {
    forall i: nat, j: nat :: i < j < |c| ==> c[i] != c[j]
  }

  /** From position i on, the links lead from each handle of c to the next one. */
  ghost predicate LinkAt(links: map<nat, int>, c: seq<nat>, i: nat)
    requires i < |c|
  {
    c[i] in links && links[c[i]] == Nth(c, i + 1)
  }

  /** From `first`, the links visit exactly the handles c and then end. */
  ghost predicate Chain(links: map<nat, int>, first: int, c: seq<nat>) {
    && first == Nth(c, 0)
    && (forall i: nat :: i < |c| ==> LinkAt(links, c, i))
    && Distinct(c)
  }

  lemma ChainFrame(links: map<nat, int>, links': map<nat, int>, first: int, c: seq<nat>)
    requires Chain(links, first, c)
    requires forall h :: h in c ==> h in links' && (h in links ==> links'[h] == links[h])
    ensures Chain(links', first, c)
  {
    forall i: nat | i < |c| ensures LinkAt(links', c, i) {
      assert LinkAt(links, c, i) && c[i] in c;
    }
  }

  /** The links after the pointer that leads to position j of a chain is set to v:
      for position 0 that pointer is the bucket itself. */
  ghost function Written(links: map<nat, int>, c: seq<nat>, j: nat, v: int): map<nat, int>
    requires j <= |c|
  {
    if j == 0 then links else links[c[j - 1] := v]
  }

  ghost function Spliced(c: seq<nat>, j: nat, x: nat, d: nat): (t: seq<nat>)
    requires j <= d <= |c|
    ensures |t| == j + 1 + |c| - d && t[j] == x
    ensures forall i: nat :: i < j ==> t[i] == c[i]
    ensures forall i: nat :: j < i < |t| ==> t[i] == c[i - j - 1 + d]
  {
    c[..j] + [x] + c[d..]
  }

  lemma SplicedDistinct(c: seq<nat>, j: nat, x: nat, d: nat)
    requires Distinct(c) && j <= d <= |c| && x !in c
    ensures Distinct(Spliced(c, j, x, d))
  {
    var t := Spliced(c, j, x, d);
    forall i: nat, k: nat | i < k < |t| ensures t[i] != t[k] {
      if k > j && i > j {
        assert c[i - j - 1 + d] != c[k - j - 1 + d];
      }
    }
  }

  /** Let the pointer at position j lead to x, which continues with the rest from d on. */
  lemma ChainSplice(links: map<nat, int>, first: int, c: seq<nat>, j: nat, x: nat, d: nat)
    requires Chain(links, first, c) && j <= d <= |c| && x !in c && x in links && links[x] == Nth(c, d)
    ensures Chain(Written(links, c, j, x), if j == 0 then x else first, Spliced(c, j, x, d))
  {
    var t, links' := Spliced(c, j, x, d), Written(links, c, j, x);
    SplicedDistinct(c, j, x, d);
    forall i: nat | i < |t| ensures LinkAt(links', t, i) {
      if i < j {
        assert LinkAt(links, c, i);
      } else if i > j {
        assert LinkAt(links, c, i - j - 1 + d);
      }
    }
  }

  ghost function Cut(c: seq<nat>, j: nat): (t: seq<nat>)
    requires j < |c|
    ensures |t| == |c| - 1
    ensures forall i: nat :: i < j ==> t[i] == c[i]
    ensures forall i: nat :: j <= i < |t| ==> t[i] == c[i + 1]
  {
    c[..j] + c[j + 1..]
  }

  /** Let the pointer at position j skip the handle there. */
  lemma ChainCut(links: map<nat, int>, first: int, c: seq<nat>, j: nat)
    requires Chain(links, first, c) && j < |c|
    ensures Chain(Written(links, c, j, Nth(c, j + 1)), if j == 0 then Nth(c, 1) else first, Cut(c, j))
  {
    var t, links' := Cut(c, j), Written(links, c, j, Nth(c, j + 1));
    forall i: nat | i < |t| ensures LinkAt(links', t, i) {
      if i < j {
        assert LinkAt(links, c, i);
      } else {
        assert LinkAt(links, c, i + 1);
      }
    }
  }

  // ----- the table as a map

  /** A handle of bucket b is the one the map gives for its key. */
  ghost predicate InPlace(n: nat, keys: map<nat, Key>, entries: map<Key, nat>, b: nat, id: nat)
    requires n > 0
  {
    id in keys && BucketOf(keys[id], n) == b && keys[id] in entries && entries[keys[id]] == id
  }

  /** The chains hold exactly the handles of the map, each in the bucket of its key. */
  ghost predicate Holds(chains: seq<seq<nat>>, keys: map<nat, Key>, entries: map<Key, nat>) {
    && |chains| > 0 && IsPow2(|chains|)
    && (forall b: nat, id: nat :: b < |chains| && id in chains[b] ==> InPlace(|chains|, keys, entries, b, id))
    && (forall k :: k in entries ==> Reached(chains, keys, entries, k))
  }

  ghost predicate Reached(chains: seq<seq<nat>>, keys: map<nat, Key>, entries: map<Key, nat>, k: Key)
    requires |chains| > 0 && k in entries
  {
    && BucketOf(k, |chains|) < |chains| && entries[k] in chains[BucketOf(k, |chains|)]
    && entries[k] in keys && keys[entries[k]] == k
  }

  ghost predicate Linked(links: map<nat, int>, buckets: seq<int>, chains: seq<seq<nat>>) {
    |buckets| == |chains| && forall b: nat :: b < |chains| ==> Chain(links, buckets[b], chains[b])
  }

  ghost predicate Free(entries: map<Key, nat>, id: nat) {
    forall k :: k in entries ==> entries[k] != id
  }

  /** Put id under k at position j of its bucket: in place of the handle there when
      that has the key, else in front of it. */
  lemma HoldsPut(chains: seq<seq<nat>>, keys: map<nat, Key>, entries: map<Key, nat>,
                 k: Key, id: nat, j: nat, d: nat)
    requires Holds(chains, keys, entries) && Free(entries, id)
    requires BucketOf(k, |chains|) < |chains|
    requires j <= d <= |chains[BucketOf(k, |chains|)]| && Distinct(chains[BucketOf(k, |chains|)])
    requires if k in entries then d == j + 1 && chains[BucketOf(k, |chains|)][j] == entries[k] else d == j
    ensures Holds(chains[BucketOf(k, |chains|) := Spliced(chains[BucketOf(k, |chains|)], j, id, d)],
                  keys[id := k], entries[k := id])
  {
    var b := BucketOf(k, |chains|);
    var c := chains[b];
    var chains', keys', entries' := chains[b := Spliced(c, j, id, d)], keys[id := k], entries[k := id];
    forall b': nat, h: nat | b' < |chains'| && h in chains'[b']
      ensures InPlace(|chains'|, keys', entries', b', h)
    {
      if h != id {
        assert h in chains[b'] by {
          if b' == b { SplicedHas(c, j, id, d, h); }
        }
        assert InPlace(|chains|, keys, entries, b', h);
        if b' == b { SplicedHas(c, j, id, d, h); }
      }
    }
    forall k' | k' in entries' ensures Reached(chains', keys', entries', k') {
      if k' == k {
        assert Spliced(c, j, id, d)[j] == id;
      } else {
        assert Reached(chains, keys, entries, k');
        if BucketOf(k', |chains|) == b { SplicedHas(c, j, id, d, entries[k']); }
      }
    }
  }

  lemma SplicedHas(c: seq<nat>, j: nat, x: nat, d: nat, h: nat)
    requires Distinct(c) && j <= d <= |c| && h != x && d <= j + 1
    ensures h in Spliced(c, j, x, d) <==> h in c && !(d == j + 1 && h == c[j])
  {
    var t := Spliced(c, j, x, d);
    if h in t {
      var i: nat :| i < |t| && t[i] == h;
      assert i != j && h == (if i < j then c[i] else c[i - j - 1 + d]);
    }
    if h in c && !(d == j + 1 && h == c[j]) {
      var i: nat :| i < |c| && c[i] == h;
      assert h == (if i < j then t[i] else t[i + j + 1 - d]);
    }
  }

  lemma HoldsDrop(chains: seq<seq<nat>>, keys: map<nat, Key>, entries: map<Key, nat>, k: Key, j: nat)
    requires Holds(chains, keys, entries) && k in entries && BucketOf(k, |chains|) < |chains|
    requires j < |chains[BucketOf(k, |chains|)]| && Distinct(chains[BucketOf(k, |chains|)])
    requires chains[BucketOf(k, |chains|)][j] == entries[k]
    ensures Holds(chains[BucketOf(k, |chains|) := Cut(chains[BucketOf(k, |chains|)], j)], keys, entries - {k})
  {
    var b := BucketOf(k, |chains|);
    var c := chains[b];
    var chains' := chains[b := Cut(c, j)];
    forall b': nat, h: nat | b' < |chains'| && h in chains'[b']
      ensures InPlace(|chains'|, keys, entries - {k}, b', h)
    {
      if b' == b { CutHas(c, j, h); }
      assert InPlace(|chains|, keys, entries, b', h);
      assert b' != b ==> keys[h] != k;
    }
    forall k' | k' in entries - {k} ensures Reached(chains', keys, entries - {k}, k') {
      assert Reached(chains, keys, entries, k') && Reached(chains, keys, entries, k);
      if BucketOf(k', |chains|) == b { CutHas(c, j, entries[k']); }
    }
  }

  lemma CutHas(c: seq<nat>, j: nat, h: nat)
    requires Distinct(c) && j < |c|
    ensures h in Cut(c, j) <==> h in c && h != c[j]
  {
    var t := Cut(c, j);
    if h in t {
      var i: nat :| i < |t| && t[i] == h;
      assert h == (if i < j then c[i] else c[i + 1]);
    }
    if h in c && h != c[j] {
      var i: nat :| i < |c| && c[i] == h;
      assert h == (if i < j then t[i] else t[i - 1]);
    }
  }

  /** Only the chain of the bucket that is written changes. */
  lemma LinkedElsewhere(chains: seq<seq<nat>>, keys: map<nat, Key>, entries: map<Key, nat>,
                        links: map<nat, int>, links': map<nat, int>, buckets: seq<int>, b: nat, first: int, c: seq<nat>)
    requires Holds(chains, keys, entries) && Linked(links, buckets, chains) && b < |chains|
    requires Chain(links', first, c)
    requires forall h :: h in links ==> h in links'
    requires forall h :: h in links && links'[h] != links[h] ==> h in chains[b] || Free(entries, h)
    ensures Linked(links', buckets[b := first], chains[b := c])
  {
    var buckets', chains' := buckets[b := first], chains[b := c];
    forall b': nat | b' < |chains'| ensures Chain(links', buckets'[b'], chains'[b']) {
      if b' != b {
        forall h | h in chains[b'] ensures h in links' && (h in links ==> links'[h] == links[h]) {
          assert InPlace(|chains|, keys, entries, b', h);
          assert h !in chains[b];
          var i: nat :| i < |chains[b']| && chains[b'][i] == h;
          assert LinkAt(links, chains[b'], i);
        }
        ChainFrame(links, links', buckets[b'], chains[b']);
      }
    }
  }

  // ----- walking and rebuilding

  function Before(c: seq<nat>, j: nat): int
    requires j <= |c|
  {
    if j == 0 then NIL else c[j - 1]
  }

  /** Walk a chain to the first handle with the key, or to the end. */
  method FindIn(links: map<nat, int>, keys: map<nat, Key>, first: int, k: Key, ghost c: seq<nat>)
    returns (before: int, at: int, ghost j: nat)
    requires Chain(links, first, c) && forall h :: h in c ==> h in keys
    ensures j <= |c| && at == Nth(c, j) && before == Before(c, j)
    ensures forall h :: h in c[..j] ==> keys[h] != k
    ensures j < |c| ==> keys[c[j]] == k
  {
    before, at, j := NIL, first, 0;
    while at != NIL && keys[at] != k
      invariant j <= |c| && at == Nth(c, j) && before == Before(c, j)
      invariant j < |c| ==> c[j] in c
      invariant forall h :: h in c[..j] ==> keys[h] != k
      decreases |c| - j
    {
      assert LinkAt(links, c, j);
      assert c[..j + 1] == c[..j] + [c[j]];
      before, at, j := at, links[at], j + 1;
    }
  }

  /** The bucket count for a number of entries: at least 4, doubled until it suffices. */
  method NewLength(elems: nat) returns (n: nat)
    ensures 4 <= n && elems <= n && IsPow2(n)
    ensures n > 4 ==> n < 2 * elems
  {
    ghost var w := 2;
    n := 4;
    assert Pow2(1) == 2 && Pow2(2) == 4;
    while n < elems
      invariant 4 <= n == Pow2(w) && (n > 4 ==> n < 2 * elems)
      decreases elems - n
    {
      n, w := 2 * n, w + 1;
    }
  }

  /** The entries of the buckets below i, and of bucket i those in front. */
  ghost function Part(entries: map<Key, nat>, n: nat, i: nat, front: seq<nat>): map<Key, nat>
    requires n > 0
  {
    map k | k in entries && (BucketOf(k, n) < i || (BucketOf(k, n) == i && entries[k] in front)) :: entries[k]
  }

  /** Each handle of the map is the one of its own key. */
  lemma OneKey(chains: seq<seq<nat>>, keys: map<nat, Key>, entries: map<Key, nat>, i: nat, h: nat)
    requires Holds(chains, keys, entries) && i < |chains| && h in chains[i]
    ensures InPlace(|chains|, keys, entries, i, h)
    ensures forall k :: k in entries && entries[k] == h ==> k == keys[h]
  {
    forall k | k in entries && entries[k] == h ensures k == keys[h] {
      assert Reached(chains, keys, entries, k);
    }
  }

  lemma PartStep(chains: seq<seq<nat>>, keys: map<nat, Key>, entries: map<Key, nat>, i: nat, j: nat)
    requires Holds(chains, keys, entries) && i < |chains| && j < |chains[i]| && Distinct(chains[i])
    ensures chains[i][j] in keys
    ensures var sub := Part(entries, |chains|, i, chains[i][..j]);
      && Free(sub, chains[i][j]) && keys[chains[i][j]] !in sub
      && Part(entries, |chains|, i, chains[i][..j + 1]) == sub[keys[chains[i][j]] := chains[i][j]]
  {
    var c, h := chains[i], chains[i][j];
    OneKey(chains, keys, entries, i, h);
    PartAdds(entries, |chains|, i, c[..j], h, keys[h]);
    assert c[..j + 1] == c[..j] + [h];
  }

  lemma PartAdds(entries: map<Key, nat>, n: nat, i: nat, front: seq<nat>, h: nat, k: Key)
    requires n > 0 && k in entries && entries[k] == h && BucketOf(k, n) == i && h !in front
    requires forall k' :: k' in entries && entries[k'] == h ==> k' == k
    ensures var sub := Part(entries, n, i, front);
      Free(sub, h) && k !in sub && Part(entries, n, i, front + [h]) == sub[k := h]
  {
  }

  lemma PartNext(chains: seq<seq<nat>>, keys: map<nat, Key>, entries: map<Key, nat>, i: nat)
    requires Holds(chains, keys, entries) && i < |chains|
    ensures Part(entries, |chains|, i, chains[i]) == Part(entries, |chains|, i + 1, [])
  {
    forall k | k in entries ensures Reached(chains, keys, entries, k) {}
  }

  lemma PartAll(chains: seq<seq<nat>>, keys: map<nat, Key>, entries: map<Key, nat>)
    requires Holds(chains, keys, entries)
    ensures Part(entries, |chains|, 0, []) == map[] && Part(entries, |chains|, |chains|, []) == entries
  {
    forall k | k in entries ensures Reached(chains, keys, entries, k) {}
  }

  /** The chains from bucket i on, in the old table. */
  ghost predicate Waiting(links: map<nat, int>, buckets: seq<int>, chains: seq<seq<nat>>, i: nat) {
    |buckets| == |chains| && forall b: nat :: i <= b < |chains| ==> Chain(links, buckets[b], chains[b])
  }

  /** In the middle of a rebuild: the handle h at position j of bucket i is next. */
  ghost predicate Moving(chains: seq<seq<nat>>, keys: map<nat, Key>, entries: map<Key, nat>,
                         links: map<nat, int>, buckets: seq<int>, i: nat, j: nat, h: int,
                         newBuckets: seq<int>, newChains: seq<seq<nat>>)
  {
    && Holds(chains, keys, entries) && i < |chains| && j <= |chains[i]| && Distinct(chains[i])
    && Chain(links, h, chains[i][j..]) && Waiting(links, buckets, chains, i + 1)
    && Linked(links, newBuckets, newChains)
    && Holds(newChains, keys, Part(entries, |chains|, i, chains[i][..j]))
  }

  lemma MoveOld(chains: seq<seq<nat>>, keys: map<nat, Key>, entries: map<Key, nat>,
                links: map<nat, int>, buckets: seq<int>, i: nat, j: nat, h: nat, v: int)
    requires Holds(chains, keys, entries) && i < |chains| && j < |chains[i]| && Distinct(chains[i])
    requires Chain(links, h, chains[i][j..]) && Waiting(links, buckets, chains, i + 1)
    ensures h == chains[i][j] && h in links
    ensures Chain(links[h := v], links[h], chains[i][j + 1..]) && Waiting(links[h := v], buckets, chains, i + 1)
  {
    var c, r, links' := chains[i][j..], chains[i][j + 1..], links[h := v];
    assert LinkAt(links, c, 0) && r == c[1..];
    forall m: nat | m < |r| ensures LinkAt(links', r, m) {
      assert LinkAt(links, c, m + 1);
    }
    assert h in chains[i];
    assert InPlace(|chains|, keys, entries, i, h);
    forall b: nat | i + 1 <= b < |chains| ensures Chain(links', buckets[b], chains[b]) {
      assert h !in chains[b];
      ChainIn(links, buckets[b], chains[b]);
      ChainFrame(links, links', buckets[b], chains[b]);
    }
  }

  lemma ChainIn(links: map<nat, int>, first: int, c: seq<nat>)
    requires Chain(links, first, c)
    ensures forall h :: h in c ==> h in links
  {
    forall h | h in c ensures h in links {
      var i: nat :| i < |c| && c[i] == h;
      assert LinkAt(links, c, i);
    }
  }

  /** Push a free handle on the front of its bucket. */
  lemma PushFront(chains: seq<seq<nat>>, keys: map<nat, Key>, entries: map<Key, nat>,
                  links: map<nat, int>, buckets: seq<int>, h: nat)
    requires Holds(chains, keys, entries) && Linked(links, buckets, chains)
    requires Free(entries, h) && h in keys && keys[h] !in entries
    ensures BucketOf(keys[h], |chains|) < |chains|
    ensures var b := BucketOf(keys[h], |chains|);
      && Holds(chains[b := Spliced(chains[b], 0, h, 0)], keys, entries[keys[h] := h])
      && Linked(links[h := buckets[b]], buckets[b := h], chains[b := Spliced(chains[b], 0, h, 0)])
  {
    BucketInRange(keys[h], |chains|);
    var b := BucketOf(keys[h], |chains|);
    var c, links' := chains[b], links[h := buckets[b]];
    assert Chain(links, buckets[b], c);
    assert h !in c;
    HoldsPut(chains, keys, entries, keys[h], h, 0, 0);
    assert keys[h := keys[h]] == keys;
    ChainIn(links, buckets[b], c);
    ChainFrame(links, links', buckets[b], c);
    ChainSplice(links', buckets[b], c, 0, h, 0);
    LinkedElsewhere(chains, keys, entries, links, links', buckets, b, h, Spliced(c, 0, h, 0));
  }

  lemma MoveOne(chains: seq<seq<nat>>, keys: map<nat, Key>, entries: map<Key, nat>,
                links: map<nat, int>, buckets: seq<int>, i: nat, j: nat, h: nat,
                newBuckets: seq<int>, newChains: seq<seq<nat>>)
    requires Moving(chains, keys, entries, links, buckets, i, j, h, newBuckets, newChains) && j < |chains[i]|
    ensures h in links && h in keys && BucketOf(keys[h], |newChains|) < |newChains|
    ensures var b := BucketOf(keys[h], |newChains|);
      Moving(chains, keys, entries, links[h := newBuckets[b]], buckets, i, j + 1, links[h],
             newBuckets[b := h], newChains[b := Spliced(newChains[b], 0, h, 0)])
  {
    PartStep(chains, keys, entries, i, j);
    MoveOld(chains, keys, entries, links, buckets, i, j, h, 0);
    PushFront(newChains, keys, Part(entries, |chains|, i, chains[i][..j]), links, newBuckets, h);
    MoveOld(chains, keys, entries, links, buckets, i, j, h, newBuckets[BucketOf(keys[h], |newChains|)]);
  }

  /** Move every handle of bucket i over to the new buckets. */
  method MoveChain(links0: map<nat, int>, keys: map<nat, Key>, buckets: seq<int>, i: nat, newBuckets0: seq<int>,
                   ghost chains: seq<seq<nat>>, ghost entries: map<Key, nat>, ghost newChains0: seq<seq<nat>>)
    returns (links: map<nat, int>, newBuckets: seq<int>, ghost newChains: seq<seq<nat>>, count: nat)
    requires Holds(chains, keys, entries) && i < |chains| && Waiting(links0, buckets, chains, i)
    requires Linked(links0, newBuckets0, newChains0) && Holds(newChains0, keys, Part(entries, |chains|, i, []))
    ensures |newBuckets| == |newBuckets0|
    ensures |Part(entries, |chains|, i + 1, [])| == |Part(entries, |chains|, i, [])| + count
    ensures Waiting(links, buckets, chains, i + 1)
    ensures Linked(links, newBuckets, newChains) && Holds(newChains, keys, Part(entries, |chains|, i + 1, []))
  {
    links, newBuckets, newChains := links0, newBuckets0, newChains0;
    var h := buckets[i];
    count := 0;
    ghost var c := chains[i];
    assert c[0..] == c && c[..0] == [];
    while h != NIL
      invariant count <= |c| && |newBuckets| == |newBuckets0|
      invariant |Part(entries, |chains|, i, c[..count])| == |Part(entries, |chains|, i, [])| + count
      invariant Moving(chains, keys, entries, links, buckets, i, count, h, newBuckets, newChains)
      decreases |c| - count
    {
      assert h == Nth(c[count..], 0);
      PartStep(chains, keys, entries, i, count);
      MoveOne(chains, keys, entries, links, buckets, i, count, h, newBuckets, newChains);
      var next, b := links[h], BucketOf(keys[h], |newBuckets|);
      links, newBuckets, newChains := links[h := newBuckets[b]], newBuckets[b := h],
        newChains[b := Spliced(newChains[b], 0, h, 0)];
      h, count := next, count + 1;
    }
    assert count == |c| by { assert h == Nth(c[count..], 0); }
    assert c[..count] == c;
    PartNext(chains, keys, entries, i);
  }

  lemma EmptyTable(keys: map<nat, Key>, n: nat, buckets: seq<int>, chains: seq<seq<nat>>, links: map<nat, int>)
    requires n > 0 && IsPow2(n) && |buckets| == |chains| == n
    requires forall b: nat :: b < n ==> buckets[b] == NIL && chains[b] == []
    ensures Holds(chains, keys, map[]) && Linked(links, buckets, chains)
  {
  }

  /** Rebuild the table over n buckets. */
  method Rebuild(links0: map<nat, int>, keys: map<nat, Key>, buckets: seq<int>, elems: nat,
                 ghost chains: seq<seq<nat>>, ghost entries: map<Key, nat>)
    returns (links: map<nat, int>, newBuckets: seq<int>, ghost newChains: seq<seq<nat>>, count: nat)
    requires Holds(chains, keys, entries) && Linked(links0, buckets, chains)
    ensures Holds(newChains, keys, entries) && Linked(links, newBuckets, newChains)
    ensures count == |entries| && |newBuckets| >= elems
  {
    var n := NewLength(elems);
    links, newBuckets, newChains, count := links0, seq(n, _ => NIL), seq(n, _ => []), 0;
    EmptyTable(keys, n, newBuckets, newChains, links);
    PartAll(chains, keys, entries);
    for i := 0 to |buckets|
      invariant |newBuckets| == n && Waiting(links, buckets, chains, i)
      invariant Linked(links, newBuckets, newChains) && Holds(newChains, keys, Part(entries, |chains|, i, []))
      invariant count == |Part(entries, |chains|, i, [])|
    {
      var moved;
      links, newBuckets, newChains, moved := MoveChain(links, keys, buckets, i, newBuckets, chains, entries, newChains);
      count := count + moved;
    }
    PartAll(chains, keys, entries);
  }

  /** Make the pointer after `before` (the bucket itself when there is none) lead to v. */
  function WriteLinks(links: map<nat, int>, before: int, v: int): map<nat, int> {
    if before < 0 then links else links[before := v]
  }

  function WriteBuckets(buckets: seq<int>, b: nat, before: int, v: int): seq<int>
    requires b < |buckets|
  {
    if before < 0 then buckets[b := v] else buckets
  }

  /** The pointers in memory and the map agree. */
  ghost predicate Agree(chains: seq<seq<nat>>, keys: map<nat, Key>, entries: map<Key, nat>,
                        links: map<nat, int>, buckets: seq<int>)
  {
    forall u {:trigger UnfoldAt(chains, u)} :: UnfoldAt(chains, u) ==> Holds(chains, keys, entries) && Linked(links, buckets, chains)
  }

  /** Let the pointer for k lead to id, in place of the handle that was there. */
  lemma TablePut(chains: seq<seq<nat>>, keys: map<nat, Key>, entries: map<Key, nat>,
                 links: map<nat, int>, buckets: seq<int>, k: Key, id: nat, j: nat, d: nat)
    requires Agree(chains, keys, entries, links, buckets) && Free(entries, id) && |buckets| == |chains| > 0
    requires BucketOf(k, |chains|) < |chains| && j <= d <= |chains[BucketOf(k, |chains|)]|
    requires if k in entries then d == j + 1 && chains[BucketOf(k, |chains|)][j] == entries[k] else d == j
    ensures var b := BucketOf(k, |chains|);
      var c := chains[b];
      && Agree(chains[b := Spliced(c, j, id, d)], keys[id := k], entries[k := id],
               WriteLinks(links[id := Nth(c, d)], Before(c, j), id), WriteBuckets(buckets, b, Before(c, j), id))
      && (j < d ==> c[j] in links && links[c[j]] == Nth(c, d))
  {
    assert UnfoldAt(chains, 0);
    var b := BucketOf(k, |chains|);
    var c := chains[b];
    var links1 := links[id := Nth(c, d)];
    var links2 := Written(links1, c, j, id);
    assert Chain(links, buckets[b], c);
    HoldsPut(chains, keys, entries, k, id, j, d);
    assert id !in c;
    assert j < d ==> LinkAt(links, c, j);
    ChainIn(links, buckets[b], c);
    ChainFrame(links, links1, buckets[b], c);
    ChainSplice(links1, buckets[b], c, j, id, d);
    assert j > 0 ==> c[j - 1] in c;
    LinkedElsewhere(chains, keys, entries, links, links2, buckets, b, if j == 0 then id else buckets[b], Spliced(c, j, id, d));
    assert buckets[b := buckets[b]] == buckets;
  }

  lemma NewKey(chains: seq<seq<nat>>, keys: map<nat, Key>, entries: map<Key, nat>,
               links: map<nat, int>, buckets: seq<int>, id: nat, k: Key)
    requires Agree(chains, keys, entries, links, buckets) && Free(entries, id)
    ensures Agree(chains, keys[id := k], entries, links, buckets)
  {
    assert UnfoldAt(chains, 0);
    var keys' := keys[id := k];
    forall b: nat, h: nat | b < |chains| && h in chains[b] ensures InPlace(|chains|, keys', entries, b, h) {
      assert InPlace(|chains|, keys, entries, b, h);
    }
    forall k' | k' in entries ensures Reached(chains, keys', entries, k') {
      assert Reached(chains, keys, entries, k');
    }
  }

  lemma DropSize(entries: map<Key, nat>, k: Key)
    ensures |entries - {k}| == |entries| - if k in entries then 1 else 0
    ensures k !in entries ==> entries - {k} == entries
  {
    var rest := entries - {k};
    if k in entries {
      assert rest[k := entries[k]] == entries;
    } else {
      assert rest == entries;
    }
  }

  /** Let the pointer for k skip its handle. */
  lemma TableCut(chains: seq<seq<nat>>, keys: map<nat, Key>, entries: map<Key, nat>,
                 links: map<nat, int>, buckets: seq<int>, k: Key, j: nat)
    requires Agree(chains, keys, entries, links, buckets) && k in entries && |buckets| == |chains| > 0
    requires BucketOf(k, |chains|) < |chains| && j < |chains[BucketOf(k, |chains|)]|
    requires chains[BucketOf(k, |chains|)][j] == entries[k]
    ensures chains[BucketOf(k, |chains|)][j] in links
    ensures var b := BucketOf(k, |chains|);
      var c := chains[b];
      && Agree(chains[b := Cut(c, j)], keys, entries - {k},
               WriteLinks(links, Before(c, j), links[c[j]]), WriteBuckets(buckets, b, Before(c, j), links[c[j]]))
  {
    assert UnfoldAt(chains, 0);
    var b := BucketOf(k, |chains|);
    var c := chains[b];
    assert Chain(links, buckets[b], c);
    HoldsDrop(chains, keys, entries, k, j);
    ChainCut(links, buckets[b], c, j);
    assert LinkAt(links, c, j);
    assert j > 0 ==> c[j - 1] in c;
    LinkedElsewhere(chains, keys, entries, links, Written(links, c, j, Nth(c, j + 1)), buckets, b,
                    if j == 0 then Nth(c, 1) else buckets[b], Cut(c, j));
    assert buckets[b := buckets[b]] == buckets;
  }

  class HandleTable {
    var buckets: seq<int>
    var links: map<nat, int>
    var keys: map<nat, Key>
    var elems: nat
    ghost var chains: seq<seq<nat>>
    ghost var entries: map<Key, nat>

    ghost predicate Counted()
      reads this
    {
      Agree(chains, keys, entries, links, buckets) && elems == |entries|
    }

    /** On average a chain has at most one handle. */
    ghost predicate Valid()
      reads this
    {
      Counted() && elems <= |buckets|
    }

    constructor ()
      ensures Valid() && entries == map[] && keys == map[]
    {
      buckets, links, keys, elems, chains, entries := seq(4, _ => NIL), map[], map[], 0, seq(4, _ => []), map[];
      new;
      assert Pow2(1) == 2 && Pow2(2) == 4;
      EmptyTable(keys, 4, buckets, chains, links);
    }

    /** The pointer for a key: the handle it leads to, or the end of its chain. */
    method FindPointer(k: Key) returns (before: int, at: int, ghost j: nat)
      requires Valid()
      ensures |buckets| == |chains| > 0 && BucketOf(k, |buckets|) < |buckets|
      ensures var c := chains[BucketOf(k, |buckets|)];
        j <= |c| && at == Nth(c, j) && before == Before(c, j) && (at == NIL ==> j == |c|)
      ensures at == if k in entries then entries[k] else NIL
    {
      assert UnfoldAt(chains, 0);
      BucketInRange(k, |buckets|);
      ghost var b := BucketOf(k, |chains|);
      ghost var c := chains[b];
      assert forall h :: h in c ==> InPlace(|chains|, keys, entries, b, h);
      before, at, j := FindIn(links, keys, buckets[BucketOf(k, |buckets|)], k, c);
      if at != NIL {
        assert c[j] in c;
      } else {
        assert c[..j] == c;
      }
    }

    method Lookup(k: Key) returns (id: int)
      requires Valid()
      ensures id == if k in entries then entries[k] else NIL
    {
      var before;
      ghost var j;
      before, id, j := FindPointer(k);
    }

    method Resize()
      requires Counted()
      modifies this`buckets, this`links, this`chains
      ensures Valid()
    {
      var count;
      ghost var all := chains;
      assert UnfoldAt(chains, 0);
      links, buckets, all, count := Rebuild(links, keys, buckets, elems, chains, entries);
      chains := all;
      assert elems == count;
    }

    /** Give a handle that is not in the table its key. */
    method SetKey(id: nat, k: Key)
      requires Valid() && Free(entries, id)
      modifies this`keys
      ensures Valid() && keys == old(keys)[id := k]
    {
      NewKey(chains, keys, entries, links, buckets, id, k);
      keys := keys[id := k];
    }

    method Insert(id: nat) returns (was: int)
      requires Valid() && Free(entries, id) && id in keys
      modifies this`buckets, this`links, this`elems, this`chains, this`entries
      ensures Valid() && entries == old(entries)[keys[id] := id]
      ensures was == if keys[id] in old(entries) then old(entries)[keys[id]] else NIL
    {
      var k := keys[id];
      var before;
      ghost var j;
      before, was, j := FindPointer(k);
      var b := BucketOf(k, |buckets|);
      ghost var c := chains[b];
      ghost var d := if was == NIL then j else j + 1;
      TablePut(chains, keys, entries, links, buckets, k, id, j, d);
      assert keys[id := k] == keys;
      links := links[id := if was == NIL then NIL else links[was]];
      links, buckets := WriteLinks(links, before, id), WriteBuckets(buckets, b, before, id);
      chains, entries := chains[b := Spliced(c, j, id, d)], entries[k := id];
      if was == NIL {
        elems := elems + 1;
        if elems > |buckets| {
          Resize();
        }
      }
    }

    /** Cut the handle at position j out of the bucket of its key. */
    method Unlink(k: Key, before: int, id: nat, ghost j: nat)
      requires Valid() && k in entries && entries[k] == id
      requires |buckets| == |chains| > 0 && BucketOf(k, |buckets|) < |buckets|
      requires var c := chains[BucketOf(k, |buckets|)]; j < |c| && id == c[j] && before == Before(c, j)
      modifies this`buckets, this`links, this`chains, this`entries
      ensures Agree(chains, keys, entries, links, buckets) && entries == old(entries) - {k} && |buckets| == |old(buckets)|
    {
      var b := BucketOf(k, |buckets|);
      ghost var c := chains[b];
      TableCut(chains, keys, entries, links, buckets, k, j);
      links, buckets := WriteLinks(links, before, links[id]), WriteBuckets(buckets, b, before, links[id]);
      chains, entries := chains[b := Cut(c, j)], entries - {k};
    }

    method Remove(k: Key) returns (id: int)
      requires Valid()
      modifies this`buckets, this`links, this`elems, this`chains, this`entries
      ensures Valid() && entries == old(entries) - {k}
      ensures id == if k in old(entries) then old(entries)[k] else NIL
    {
      var before;
      ghost var j;
      before, id, j := FindPointer(k);
      if id != NIL {
        Unlink(k, before, id, j);
        DropSize(old(entries), k);
        elems := elems - 1;
      } else {
        DropSize(entries, k);
      }
    }
  }
}
