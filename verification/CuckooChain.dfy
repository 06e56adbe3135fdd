/** Where a kick-out chain ends: which tables let it find a free slot. */
module CuckooChain {
  import opened Bits
  import opened CuckooTable

  const MAX_CUCKOO: nat := 500

  /** Bucket i has a free slot that is met before any slot with the fingerprint. */
  ghost predicate FreeIn(c: seq<Slot>, i: nat, fp: nat) {
    exists q: nat :: 4 * i <= q < 4 * i + 4 && q < |c| && c[q] == EMPTY &&
      forall r: nat :: 4 * i <= r < q ==> c[r] != EMPTY && c[r].fp != fp
  }

  /** Bucket i is full, and the fingerprint is not in it. */
  ghost predicate FullWithout(c: seq<Slot>, i: nat, fp: nat) {
    4 * i + 4 <= |c| && forall q: nat :: 4 * i <= q < 4 * i + 4 ==> c[q] != EMPTY && c[q].fp != fp
  }

  /** The slot was put into a free place of bucket i, and nothing else changed. */
  ghost predicate PutIn(c: seq<Slot>, d: seq<Slot>, i: nat, s: Slot) {
    exists q: nat :: 4 * i <= q < 4 * i + 4 && q < |c| && c[q] == EMPTY && d == c[q := s]
  }

  /** Some slot of bucket i1 or i2 has the fingerprint. */
  ghost predicate Reachable(c: seq<Slot>, i1: nat, i2: nat, fp: nat) {
    exists p: nat :: p < |c| && (p / 4 == i1 || p / 4 == i2) && c[p].fp == fp
  }

  /** Bucket j is full, but whichever of its slots is kicked out finds room in its other
      bucket. */
  ghost predicate Movable(c: seq<Slot>, n: nat, j: nat, fp: nat)
    requires n > 0
  {
    && FullWithout(c, j, fp)
    && forall r: nat :: 4 * j <= r < 4 * j + 4 ==> FreeIn(c, AltIndex(j, c[r].fp, n), c[r].fp)
  }

  /** Within k attempts from bucket i on the slot, and whatever it kicks out, is placed,
      whichever slots are chosen. */
  ghost predicate Wins(c: seq<Slot>, n: nat, i: nat, s: Slot, k: nat)
    requires n > 0
    decreases k
  {
    && k > 0
    && (FreeIn(c, i, s.fp) ||
        (&& FullWithout(c, i, s.fp)
         && forall r: nat :: 4 * i <= r < 4 * i + 4 ==> Wins(c[r := s], n, AltIndex(i, c[r].fp, n), c[r], k - 1)))
  }

  /** A chain from bucket i on places everything. */
  ghost predicate ChainFits(c: seq<Slot>, n: nat, i: nat, s: Slot)
    requires n > 0
  {
    FreeIn(c, i, s.fp) || (FullWithout(c, i, s.fp) && Wins(c, n, AltIndex(i, s.fp, n), s, MAX_CUCKOO - 1))
  }

  /** When a chain for a slot from bucket i on succeeds: a free place in bucket i is taken; if
      that is full, one in the other bucket; if that is full too, a slot of the other bucket
      moves to its own other bucket; and so on, as long as every choice leads to a free place
      within the steps allowed. */
  ghost predicate Outcome(c: seq<Slot>, n: nat, i: nat, s: Slot, status: Status, d: seq<Slot>)
    requires n > 0
  {
    var j := AltIndex(i, s.fp, n);
    && (FreeIn(c, i, s.fp) ==> status == OK && PutIn(c, d, i, s))
    && (FullWithout(c, i, s.fp) && FreeIn(c, j, s.fp) ==> status == OK && PutIn(c, d, j, s))
    && (FullWithout(c, i, s.fp) && Movable(c, n, j, s.fp) ==> status == OK && Reachable(d, j, j, s.fp))
    && (ChainFits(c, n, i, s) ==> status == OK)
  }

  /** A first bucket with room is all a chain needs. */
  lemma RoomAtOnce(c: seq<Slot>, n: nat, i: nat, s: Slot, status: Status, d: seq<Slot>)
    requires n > 0 && Outcome(c, n, i, s, status, d) && FreeIn(c, i, s.fp)
    ensures status == OK && PutIn(c, d, i, s) && Reachable(d, i, i, s.fp)
  {
    var q: nat :| 4 * i <= q < 4 * i + 4 && q < |c| && c[q] == EMPTY && d == c[q := s];
    assert d[q] == s;
  }

  lemma NotBoth(c: seq<Slot>, i: nat, fp: nat)
    ensures !(FreeIn(c, i, fp) && FullWithout(c, i, fp))
  {
  }

  /** The table with one kick out of bucket j behind it. */
  ghost predicate OneKick(c0: seq<Slot>, n: nat, j: nat, s: Slot, c: seq<Slot>, ci: nat, cs: Slot)
    requires n > 0
  {
    exists r: nat :: 4 * j <= r < 4 * j + 4 && r < |c0| && c == c0[r := s] && cs == c0[r] && ci == AltIndex(j, c0[r].fp, n)
  }

  /** What is known of a chain after some attempts. */
  ghost predicate Trail(c0: seq<Slot>, n: nat, i: nat, s: Slot, c: seq<Slot>, ci: nat, cs: Slot, count: nat)
    requires n > 0
  {
    var j := AltIndex(i, s.fp, n);
    && (count == 0 ==> c == c0 && ci == i && cs == s)
    && (count > 0 ==> FullWithout(c0, i, s.fp))
    && (count == 1 ==> c == c0 && ci == j && cs == s)
    && (count > 1 ==> FullWithout(c0, j, s.fp))
    && (count == 2 ==> OneKick(c0, n, j, s, c, ci, cs))
    && (count > 2 ==> !Movable(c0, n, j, s.fp))
    && (0 < count <= MAX_CUCKOO && ChainFits(c0, n, i, s) ==> Wins(c, n, ci, cs, MAX_CUCKOO - count))
  }

  ghost predicate OnTrail(c0: seq<Slot>, n: nat, i: nat, s: Slot, c: seq<Slot>, ci: nat, cs: Slot, count: nat)
    requires n > 0
  {
    forall u {:trigger UnfoldAt(c0, u)} :: UnfoldAt(c0, u) ==> Trail(c0, n, i, s, c, ci, cs, count)
  }

  lemma TrailStarts(c0: seq<Slot>, n: nat, i: nat, s: Slot)
    requires n > 0
    ensures OnTrail(c0, n, i, s, c0, i, s, 0)
  {
  }

  /** The first bucket is full: the other one is next. */
  lemma TrailWaits(c0: seq<Slot>, n: nat, i: nat, s: Slot, c: seq<Slot>, ci: nat, cs: Slot)
    requires n > 0 && OnTrail(c0, n, i, s, c, ci, cs, 0) && FullWithout(c, ci, cs.fp)
    ensures OnTrail(c0, n, i, s, c, AltIndex(ci, cs.fp, n), cs, 1)
  {
    assert UnfoldAt(c0, 0);
    NotBoth(c0, i, s.fp);
  }

  /** A slot of a full bucket is kicked out. */
  lemma TrailKicks(c0: seq<Slot>, n: nat, i: nat, s: Slot, c: seq<Slot>, ci: nat, cs: Slot, count: nat, r: nat)
    requires n > 0 && 0 < count < MAX_CUCKOO && OnTrail(c0, n, i, s, c, ci, cs, count)
    requires FullWithout(c, ci, cs.fp) && 4 * ci <= r < 4 * ci + 4
    ensures OnTrail(c0, n, i, s, c[r := cs], AltIndex(ci, c[r].fp, n), c[r], count + 1)
  {
    assert UnfoldAt(c0, 0);
    NotBoth(c, ci, cs.fp);
    if count == 2 { SecondKick(c0, n, AltIndex(i, s.fp, n), s, c, ci, cs); }
    if ChainFits(c0, n, i, s) { WinsOn(c, n, ci, cs, MAX_CUCKOO - count, r); }
  }

  lemma WinsOn(c: seq<Slot>, n: nat, i: nat, s: Slot, k: nat, r: nat)
    requires n > 0 && Wins(c, n, i, s, k) && FullWithout(c, i, s.fp) && 4 * i <= r < 4 * i + 4
    ensures Wins(c[r := s], n, AltIndex(i, c[r].fp, n), c[r], k - 1)
  {
    NotBoth(c, i, s.fp);
  }

  /** If the slot kicked out of bucket j has a full bucket before it, not every slot of j
      was movable. */
  lemma SecondKick(c0: seq<Slot>, n: nat, j: nat, s: Slot, c: seq<Slot>, ci: nat, cs: Slot)
    requires n > 0 && OneKick(c0, n, j, s, c, ci, cs) && FullWithout(c, ci, cs.fp) && FullWithout(c0, j, s.fp)
    ensures !Movable(c0, n, j, s.fp)
  {
    if Movable(c0, n, j, s.fp) { KickedFree(c0, n, j, s, c, ci, cs); NotBoth(c, ci, cs.fp); }
  }

  /** The other bucket of a movable slot is not bucket j, and the kick left it as it was. */
  lemma KickedFree(c0: seq<Slot>, n: nat, j: nat, s: Slot, c: seq<Slot>, ci: nat, cs: Slot)
    requires n > 0 && OneKick(c0, n, j, s, c, ci, cs) && Movable(c0, n, j, s.fp)
    ensures ci != j && FreeIn(c, ci, cs.fp) && FreeIn(c0, ci, cs.fp)
    ensures exists r: nat :: 4 * j <= r < 4 * j + 4 && r < |c| && c[r] == s
  {
    var r: nat :| 4 * j <= r < 4 * j + 4 && r < |c0| && c == c0[r := s] && cs == c0[r] && ci == AltIndex(j, c0[r].fp, n);
    assert FreeIn(c0, AltIndex(j, c0[r].fp, n), c0[r].fp);
    FreeElsewhere(c0, j, s.fp, ci, cs.fp, r, s);
    assert c[r] == s;
  }

  lemma FreeElsewhere(c: seq<Slot>, j: nat, fp: nat, i: nat, fp': nat, r: nat, s: Slot)
    requires FullWithout(c, j, fp) && FreeIn(c, i, fp') && 4 * j <= r < 4 * j + 4
    ensures i != j && FreeIn(c[r := s], i, fp')
  {
    var q: nat :| 4 * i <= q < 4 * i + 4 && q < |c| && c[q] == EMPTY &&
      forall x: nat :: 4 * i <= x < q ==> c[x] != EMPTY && c[x].fp != fp';
    assert i != j;
    var d := c[r := s];
    assert d[q] == EMPTY && forall x: nat :: 4 * i <= x < q ==> d[x] == c[x];
  }

  /** A free place is found. */
  lemma TrailEnds(c0: seq<Slot>, n: nat, i: nat, s: Slot, c: seq<Slot>, ci: nat, cs: Slot, count: nat, p: nat)
    requires n > 0 && OnTrail(c0, n, i, s, c, ci, cs, count) && 4 * ci <= p < 4 * ci + 4 && p < |c| && c[p] == EMPTY
    ensures Outcome(c0, n, i, s, OK, c[p := cs])
  {
    assert UnfoldAt(c0, 0);
    var j := AltIndex(i, s.fp, n);
    NotBoth(c0, i, s.fp);
    NotBoth(c0, j, s.fp);
    if count == 2 && Movable(c0, n, j, s.fp) {
      KickedFree(c0, n, j, s, c, ci, cs);
      var r: nat :| 4 * j <= r < 4 * j + 4 && r < |c| && c[r] == s;
      assert c[p := cs][r] == s;
    }
  }

  /** The fingerprint is met, or all attempts are used up. */
  lemma TrailFails(c0: seq<Slot>, n: nat, i: nat, s: Slot, c: seq<Slot>, ci: nat, cs: Slot, count: nat, status: Status)
    requires n > 0 && count <= MAX_CUCKOO && OnTrail(c0, n, i, s, c, ci, cs, count)
    requires count == MAX_CUCKOO || (!FreeIn(c, ci, cs.fp) && !FullWithout(c, ci, cs.fp))
    ensures Outcome(c0, n, i, s, status, c)
  {
    assert UnfoldAt(c0, 0);
    var j := AltIndex(i, s.fp, n);
    NotBoth(c0, i, s.fp);
    NotBoth(c0, j, s.fp);
    if count == 2 && Movable(c0, n, j, s.fp) { KickedFree(c0, n, j, s, c, ci, cs); }
  }

  /** A bucket in which the fingerprint is met before any free place. */
  lemma Met(c: seq<Slot>, i: nat, fp: nat, p: nat)
    requires 4 * i <= p < 4 * i + 4 && p < |c| && c[p] != EMPTY && c[p].fp == fp
    requires forall q: nat :: 4 * i <= q < p ==> c[q] != EMPTY && c[q].fp != fp
    ensures !FreeIn(c, i, fp) && !FullWithout(c, i, fp)
  {
  }

  lemma FirstFree(c: seq<Slot>, i: nat, fp: nat)
    requires 4 * i + 4 <= |c| && Absent(c, fp) && exists q: nat :: 4 * i <= q < 4 * i + 4 && c[q] == EMPTY
    ensures FreeIn(c, i, fp)
  {
    var p := 4 * i;
    var q := if c[p] == EMPTY then p else if c[p + 1] == EMPTY then p + 1 else if c[p + 2] == EMPTY then p + 2 else p + 3;
    assert c[q] == EMPTY && forall r: nat :: p <= r < q ==> c[r] != EMPTY;
  }

  // ----- tables that need no kicks

  /** The stored fingerprints whose first bucket is b. */
  ghost function HomesOf(m: map<nat, nat>, n: nat, b: nat): set<nat>
    requires n > 0
  {
    set fp | fp in m && IndexHash(fp, n) == b
  }

  /** No bucket is the first one of more than four. */
  ghost predicate SpreadOut(m: map<nat, nat>, n: nat)
    requires n > 0
  {
    forall b: nat :: |HomesOf(m, n, b)| <= 4
  }

  /** Every slot is in its first bucket. */
  ghost predicate AtHome(c: seq<Slot>, n: nat)
    requires n > 0
  {
    forall p: nat :: p < |c| && c[p] != EMPTY ==> p / 4 == IndexHash(c[p].fp, n)
  }

  /** Then there is room for one more slot of the same map in its first bucket. */
  lemma RoomAtHome(m: map<nat, nat>, d: seq<Slot>, n: nat, fp: nat)
    requires Buckets(n) && |d| == 4 * n && Unique(d) && AtHome(d, n) && SpreadOut(m, n) && fp in m && Absent(d, fp)
    requires forall p: nat :: p < |d| && d[p] != EMPTY ==> d[p].fp in m
    ensures FreeIn(d, IndexHash(fp, n), fp)
  {
    var b := IndexHash(fp, n);
    IndexInRange(fp, n);
    if forall q: nat :: 4 * b <= q < 4 * b + 4 ==> d[q] != EMPTY {
      var q := 4 * b;
      var five := {fp, d[q].fp, d[q + 1].fp, d[q + 2].fp, d[q + 3].fp};
      assert five <= HomesOf(m, n, b);
      Five(fp, d[q].fp, d[q + 1].fp, d[q + 2].fp, d[q + 3].fp);
      SmallerSet(five, HomesOf(m, n, b));
    } else {
      FirstFree(d, b, fp);
    }
  }

  lemma Five(a: nat, b: nat, c: nat, d: nat, e: nat)
    requires a != b && a != c && a != d && a != e && b != c && b != d && b != e && c != d && c != e && d != e
    ensures |{a, b, c, d, e}| == 5
  {
  }

  lemma SmallerSet(a: set<nat>, b: set<nat>)
    requires a <= b
    ensures |a| <= |b|
  {
    assert b == a + (b - a);
  }

  lemma StaysHome(c: seq<Slot>, d: seq<Slot>, n: nat, s: Slot)
    requires n > 0 && AtHome(c, n) && PutIn(c, d, IndexHash(s.fp, n), s)
    ensures AtHome(d, n)
  {
  }
}
