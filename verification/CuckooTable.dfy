/** The bucket table of one cuckoo filter: four 64-bit slots a bucket, each slot
    holding a 32-bit fingerprint and a 32-bit file number. */
module CuckooTable {
  import opened Bits

  /** A 64-bit word as its high and low halves.  The all-zero word marks a free slot. */
  datatype Slot = Slot(fp: nat, file: nat)

  type Positive = n: nat | n > 0 witness 1

  const EMPTY: Slot := Slot(0, 0)

  datatype Status = OK | NotSupported | AlreadyExist | IOError | NotFound

  function IndexHash(h: nat, n: nat): nat
    requires n > 0
  {
    And(h, n - 1)
  }

  /** The high half of a fingerprint, multiplied out in 32-bit arithmetic. */
  function Spread(fp: nat): (c: nat)
    ensures c < TWO32
  {
    (fp / 0x1_0000 * 0x5bd1e995) % TWO32
  }

  /** The other bucket of a fingerprint. */
  function AltIndex(i: nat, fp: nat, n: nat): nat
    requires n > 0
  {
    IndexHash(Xor(i, Spread(fp)) % TWO32, n)
  }

  ghost predicate Buckets(n: nat) {
    0 < n <= TWO32 && IsPow2(n)
  }

  lemma IndexInRange(h: nat, n: nat)
    requires Buckets(n)
    ensures IndexHash(h, n) < n
    ensures h < n ==> IndexHash(h, n) == h
  {
    var k: nat :| Pow2(k) == n;
    AndMask(h, k);
    LowBitsBound(h, k);
  }

  /** What the mask leaves of the exclusive-or. */
  lemma AltIndexIs(i: nat, fp: nat, k: nat)
    requires i < Pow2(k) <= TWO32
    ensures AltIndex(i, fp, Pow2(k)) == LowBits(Xor(i, Spread(fp)), k) < Pow2(k)
  {
    var x := Xor(i, Spread(fp));
    XorOfWords(i, Spread(fp));
    assert x % TWO32 == x;
    AndMask(x, k);
    LowBitsBound(x, k);
  }

  /** Because bucket counts are powers of two, moving a slot to its other bucket
      and back again returns it to where it was. */
  lemma AltIndexInvolution(i: nat, fp: nat, n: nat)
    requires Buckets(n) && i < n
    ensures AltIndex(i, fp, n) < n
    ensures AltIndex(AltIndex(i, fp, n), fp, n) == i
  {
    var k: nat :| Pow2(k) == n;
    AltIndexIs(i, fp, k);
    AltIndexIs(AltIndex(i, fp, n), fp, k);
    XorTwice(i, Spread(fp), k);
    LowBitsBound(i, k);
  }

  /** b is one of the two buckets in which fingerprint fp may live. */
  ghost predicate Named(b: nat, fp: nat, n: nat)
    requires n > 0
  {
    b == IndexHash(fp, n) || b == AltIndex(IndexHash(fp, n), fp, n)
  }

  lemma NamedAlt(b: nat, fp: nat, n: nat)
    requires Buckets(n) && Named(b, fp, n)
    ensures b < n && AltIndex(b, fp, n) < n
    ensures Named(AltIndex(b, fp, n), fp, n)
    ensures forall d: nat :: Named(d, fp, n) ==> d == b || d == AltIndex(b, fp, n)
  {
    IndexInRange(fp, n);
    AltIndexInvolution(IndexHash(fp, n), fp, n);
    AltIndexInvolution(b, fp, n);
  }

  // ----- what a table means

  /** Every slot lies in one of the two buckets its fingerprint names. */
  ghost predicate Placed(c: seq<Slot>, n: nat) {
    && n > 0 && |c| == 4 * n
    && forall p: nat :: p < |c| && c[p] != EMPTY ==> c[p].fp != 0 && Named(p / 4, c[p].fp, n)
  }

  ghost predicate Unique(c: seq<Slot>) {
    forall p: nat, q: nat :: p < q < |c| && c[p] != EMPTY && c[q] != EMPTY ==> c[p].fp != c[q].fp
  }

  ghost predicate Absent(c: seq<Slot>, fp: nat) {
    forall p: nat :: p < |c| && c[p] != EMPTY ==> c[p].fp != fp
  }

  ghost function Occupied(c: seq<Slot>): int {
    |c| - multiset(c)[EMPTY]
  }

  /** The finite map from fingerprints to file numbers that the table stores. */
  ghost function View(c: seq<Slot>): (m: map<nat, nat>)
    requires Unique(c)
  {
    map s: Slot | s in c && s != EMPTY :: s.fp := s.file
  }

  lemma ViewAt(c: seq<Slot>, p: nat)
    requires Unique(c) && p < |c| && c[p] != EMPTY
    ensures c[p].fp in View(c) && View(c)[c[p].fp] == c[p].file
  {
    assert c[p] in c;
  }

  lemma ViewHas(c: seq<Slot>, fp: nat)
    requires Unique(c)
    ensures fp in View(c) <==> exists p: nat :: p < |c| && c[p] != EMPTY && c[p].fp == fp
  {
    if p: nat :| p < |c| && c[p] != EMPTY && c[p].fp == fp {
      ViewAt(c, p);
    }
  }

  /** The stored map depends only on which slots are present, not on where they are. */
  lemma ViewOfContents(c: seq<Slot>, d: seq<Slot>)
    requires Unique(c) && Unique(d)
    requires forall s: Slot :: s != EMPTY ==> (s in c <==> s in d)
    ensures View(c) == View(d)
  {
  }

  /** Replacing one slot swaps exactly one slot in the contents. */
  lemma OverwriteContents(c: seq<Slot>, p: nat, s: Slot)
    requires p < |c|
    ensures multiset(c[p := s]) + multiset{c[p]} == multiset(c) + multiset{s}
  {
  }

  lemma OverwritePlaced(c: seq<Slot>, p: nat, s: Slot, n: nat)
    requires n > 0 && Placed(c, n) && p < |c| && s.fp != 0 && Named(p / 4, s.fp, n)
    ensures Placed(c[p := s], n)
  {
  }

  /** Overwriting one slot with an absent fingerprint keeps fingerprints apart. */
  lemma OverwriteUnique(c: seq<Slot>, p: nat, s: Slot)
    requires Unique(c) && Absent(c, s.fp) && p < |c|
    ensures Unique(c[p := s])
    ensures c[p] != EMPTY ==> Absent(c[p := s], c[p].fp)
  {
    var d := c[p := s];
    forall a: nat, b: nat | a < b < |d| && d[a] != EMPTY && d[b] != EMPTY
      ensures d[a].fp != d[b].fp
    {
      assert a != p ==> d[a] == c[a];
      assert b != p ==> d[b] == c[b];
    }
  }

  ghost function SlotsOf(c: seq<Slot>): set<Slot> {
    set s | s in c && s != EMPTY
  }

  /** With fingerprints apart, the occupied count is the number of distinct slots. */
  lemma {:induction false} OccupiedIsSize(c: seq<Slot>)
    requires Unique(c)
    ensures |SlotsOf(c)| == Occupied(c)
  {
    if c != [] {
      var d, last := c[..|c| - 1], c[|c| - 1];
      assert c == d + [last];
      assert forall p: nat :: p < |d| ==> d[p] == c[p];
      OccupiedIsSize(d);
      if last == EMPTY {
        assert SlotsOf(c) == SlotsOf(d);
      } else {
        assert SlotsOf(c) == SlotsOf(d) + {last};
        assert last !in d;
      }
    }
  }

  class NvmSingleTable {
    const numBuckets: Positive
    const cells: array<Slot>

    ghost predicate Valid() {
      Buckets(numBuckets) && cells.Length == 4 * numBuckets
    }

    constructor (n: nat)
      requires Buckets(n)
      ensures Valid() && fresh(cells) && numBuckets == n
      ensures forall p :: 0 <= p < cells.Length ==> cells[p] == EMPTY
    {
      numBuckets := n;
      cells := new Slot[4 * n](_ => EMPTY);
    }

    /** One attempt to put a slot into bucket i: take the first free slot, refuse a
        fingerprint that is met before it, and otherwise, when asked to, swap the new
        slot with a randomly chosen one. */
    method InsertTagToBucketAndCheckDup64(i: nat, slot: Slot, kickout: bool)
      returns (s: Status, oldSlot: Slot, ghost p: nat)
      requires Valid() && i < numBuckets
      modifies cells
      ensures 4 * i <= p < 4 * i + 4
      ensures forall q :: 4 * i <= q < p ==> old(cells[q]) != EMPTY && old(cells[q]).fp != slot.fp
      ensures s == OK || s == AlreadyExist || s == NotSupported
      ensures s == OK ==> old(cells[p]) == EMPTY && cells[..] == old(cells[..])[p := slot]
      ensures s == AlreadyExist ==>
        old(cells[p]) != EMPTY && old(cells[p]).fp == slot.fp && cells[..] == old(cells[..])
      ensures s == NotSupported ==>
        forall q :: 4 * i <= q < 4 * i + 4 ==> old(cells[q]) != EMPTY && old(cells[q]).fp != slot.fp
      ensures s == NotSupported && kickout ==>
        oldSlot == old(cells[p]) && cells[..] == old(cells[..])[p := slot]
      ensures s == NotSupported && !kickout ==> oldSlot == EMPTY && cells[..] == old(cells[..])
    {
      oldSlot := EMPTY;
      for j := 0 to 4
        invariant forall q :: 4 * i <= q < 4 * i + j ==> cells[q] != EMPTY && cells[q].fp != slot.fp
        invariant cells[..] == old(cells[..])
      {
        var slotInBucket := cells[4 * i + j];
        if slotInBucket == EMPTY {
          cells[4 * i + j] := slot;
          return OK, oldSlot, 4 * i + j;
        } else if slotInBucket.fp == slot.fp {
          return AlreadyExist, oldSlot, 4 * i + j;
        }
      }
      s, p := NotSupported, 4 * i;
      if kickout {
        var r :| 0 <= r < 4;
        oldSlot := cells[4 * i + r];
        cells[4 * i + r] := slot;
        p := 4 * i + r;
      }
    }

    /** Position of the first slot with fingerprint fp in bucket i1, then in bucket i2. */
    method Find(i1: nat, i2: nat, fp: nat) returns (found: bool, p: nat)
      requires Valid() && i1 < numBuckets && i2 < numBuckets
      ensures found ==> p < cells.Length && cells[p].fp == fp && (p / 4 == i1 || p / 4 == i2)
      ensures !found ==> forall q :: 0 <= q < cells.Length && (q / 4 == i1 || q / 4 == i2) ==> cells[q].fp != fp
    {
      for j := 0 to 4
        invariant forall q :: 4 * i1 <= q < 4 * i1 + j ==> cells[q].fp != fp
      {
        if cells[4 * i1 + j].fp == fp {
          return true, 4 * i1 + j;
        }
      }
      for j := 0 to 4
        invariant forall q :: 4 * i2 <= q < 4 * i2 + j ==> cells[q].fp != fp
      {
        if cells[4 * i2 + j].fp == fp {
          return true, 4 * i2 + j;
        }
      }
      return false, 0;
    }

    method FindSlotInBuckets64(i1: nat, i2: nat, fp: nat) returns (found: bool, file: nat)
      requires Valid() && i1 < numBuckets && i2 < numBuckets
      ensures found ==> exists p :: 0 <= p < cells.Length && (p / 4 == i1 || p / 4 == i2) && cells[p] == Slot(fp, file)
      ensures !found ==> forall q :: 0 <= q < cells.Length && (q / 4 == i1 || q / 4 == i2) ==> cells[q].fp != fp
    {
      var p;
      found, p := Find(i1, i2, fp);
      file := if found then cells[p].file else 0;
      if found {
        assert cells[p] == Slot(fp, file);
      }
    }

    method FindSlotInBucketAndUpdate(i1: nat, i2: nat, fp: nat, file: nat) returns (found: bool, ghost p: nat)
      requires Valid() && i1 < numBuckets && i2 < numBuckets
      modifies cells
      ensures found ==>
        && p < cells.Length && (p / 4 == i1 || p / 4 == i2) && old(cells[p]).fp == fp
        && cells[..] == old(cells[..])[p := Slot(fp, file)]
      ensures !found ==>
        && cells[..] == old(cells[..])
        && forall q :: 0 <= q < cells.Length && (q / 4 == i1 || q / 4 == i2) ==> cells[q].fp != fp
    {
      var q;
      found, q := Find(i1, i2, fp);
      if found {
        cells[q] := Slot(fp, file);
      }
      p := q;
    }
  }

  /** Scanning the two buckets named by a fingerprint answers for the whole table. */
  lemma TwoBucketsDecide(c: seq<Slot>, n: nat, fp: nat, i1: nat)
    requires Buckets(n) && Placed(c, n) && Unique(c) && fp != 0 && Named(i1, fp, n)
    ensures fp in View(c) <==>
      exists p: nat :: p < |c| && (p / 4 == i1 || p / 4 == AltIndex(i1, fp, n)) && c[p].fp == fp
    ensures forall p: nat :: p < |c| && c[p].fp == fp ==> fp in View(c) && View(c)[fp] == c[p].file
  {
    NamedAlt(i1, fp, n);
    ViewHas(c, fp);
    forall p: nat | p < |c| && c[p].fp == fp
      ensures fp in View(c) && View(c)[fp] == c[p].file
    {
      ViewAt(c, p);
    }
  }
}
