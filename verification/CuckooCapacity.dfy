/** How many fingerprints fit into a set of buckets. */
module CuckooCapacity {
  import opened Bits
  import opened CuckooTable

  /** Both buckets of a fingerprint are among the given ones. */
  ghost predicate Confined(fp: nat, n: nat, buckets: set<nat>)
    requires n > 0
  {
    IndexHash(fp, n) in buckets && AltIndex(IndexHash(fp, n), fp, n) in buckets
  }

  /** The stored fingerprints that can only be in the given buckets. */
  ghost function ConfinedTo(m: map<nat, nat>, n: nat, buckets: set<nat>): set<nat>
    requires n > 0
  {
    set f | f in m && Confined(f, n, buckets)
  }

  ghost function BucketOf(p: nat): nat {
    p / 4
  }

  /** The positions of the given buckets in a table of some size. */
  ghost function Positions(size: nat, buckets: set<nat>): set<nat> {
    set p: nat | p < size && BucketOf(p) in buckets
  }

  lemma {:induction false} PositionsCount(size: nat, buckets: set<nat>)
    ensures |Positions(size, buckets)| <= 4 * |buckets|
    decreases |buckets|
  {
    if buckets == {} {
      assert Positions(size, buckets) == {};
    } else {
      var b :| b in buckets;
      var rest, four := Positions(size, buckets - {b}), {4 * b, 4 * b + 1, 4 * b + 2, 4 * b + 3};
      PositionsCount(size, buckets - {b});
      forall p | p in Positions(size, buckets) ensures p in rest + four {
        BucketIs(p, b);
      }
      SubsetSize(Positions(size, buckets), rest + four);
      UnionSize(rest, four);
    }
  }

  lemma UnionSize(a: set<nat>, b: set<nat>)
    ensures |a + b| <= |a| + |b|
  {
  }

  lemma BucketIs(p: nat, b: nat)
    ensures BucketOf(p) == b <==> p in {4 * b, 4 * b + 1, 4 * b + 2, 4 * b + 3}
  {
  }

  /** The fingerprints at some positions are no more than the positions. */
  lemma {:induction false} FewerFingerprints(c: seq<Slot>, positions: set<nat>, fps: set<nat>)
    requires forall f :: f in fps ==> exists p: nat :: p in positions && p < |c| && c[p].fp == f
    ensures |fps| <= |positions|
    decreases |positions|
  {
    if positions == {} {
      assert fps == {};
    } else {
      var p :| p in positions;
      var rest := if p < |c| then fps - {c[p].fp} else fps;
      FewerFingerprints(c, positions - {p}, rest);
    }
  }

  /** A correctly placed table has at most four fingerprints per bucket of a set that can
      be in no other bucket. */
  lemma Capacity(c: seq<Slot>, n: nat, buckets: set<nat>)
    requires n > 0 && Placed(c, n) && Unique(c)
    ensures |ConfinedTo(View(c), n, buckets)| <= 4 * |buckets|
  {
    var fps := ConfinedTo(View(c), n, buckets);
    forall f | f in fps ensures exists p: nat :: p in Positions(|c|, buckets) && p < |c| && c[p].fp == f {
      ViewHas(c, f);
      var p: nat :| p < |c| && c[p] != EMPTY && c[p].fp == f;
      assert BucketOf(p) == p / 4;
    }
    FewerFingerprints(c, Positions(|c|, buckets), fps);
    PositionsCount(|c|, buckets);
  }

  /** The buckets have as many confined fingerprints as they can. */
  ghost predicate Crowded(m: map<nat, nat>, n: nat, buckets: set<nat>)
    requires n > 0
  {
    |ConfinedTo(m, n, buckets)| >= 4 * |buckets|
  }

  /** So no table stores one more fingerprint that is confined to crowded buckets. */
  lemma NoRoom(m: map<nat, nat>, n: nat, buckets: set<nat>, fp: nat, file: nat, d: seq<Slot>)
    requires n > 0 && Crowded(m, n, buckets) && fp !in m && Confined(fp, n, buckets)
    requires Placed(d, n) && Unique(d)
    ensures View(d) != m[fp := file]
  {
    if View(d) == m[fp := file] {
      assert ConfinedTo(View(d), n, buckets) == ConfinedTo(m, n, buckets) + {fp};
      Capacity(d, n, buckets);
    }
  }

  /** With fewer than four slots in the table every bucket has a free one. */
  lemma FourFill(c: seq<Slot>, i: nat)
    requires Unique(c) && 4 * i + 4 <= |c| && |View(c)| < 4
    ensures exists q: nat :: 4 * i <= q < 4 * i + 4 && c[q] == EMPTY
  {
    if forall q: nat :: 4 * i <= q < 4 * i + 4 ==> c[q] != EMPTY {
      var p := 4 * i;
      var four := {c[p].fp, c[p + 1].fp, c[p + 2].fp, c[p + 3].fp};
      assert |four| == 4;
      ViewAt(c, p);
      ViewAt(c, p + 1);
      ViewAt(c, p + 2);
      ViewAt(c, p + 3);
      SubsetSize(four, View(c).Keys);
    }
  }

  lemma SubsetSize(a: set<nat>, b: set<nat>)
    requires a <= b
    ensures |a| <= |b|
  {
    assert |b| == |a| + |b - a|;
  }

  /** A fingerprint below 2^16 has one bucket only. */
  lemma LowFingerprint(fp: nat, n: nat)
    requires Buckets(n) && fp < 0x1_0000
    ensures IndexHash(fp, n) < n && AltIndex(IndexHash(fp, n), fp, n) == IndexHash(fp, n)
  {
    IndexInRange(fp, n);
    var i := IndexHash(fp, n);
    XorZero(i);
    SpreadLow(fp);
    IndexInRange(i, n);
  }

  lemma SpreadLow(fp: nat)
    requires fp < 0x1_0000
    ensures Spread(fp) == 0
  {
    assert fp / 0x1_0000 == 0;
  }

  lemma {:induction false} XorZero(a: nat)
    ensures Xor(a, 0) == a
  {
    XorStep(a, 0);
    if a > 0 { XorZero(a / 2); }
  }
}
