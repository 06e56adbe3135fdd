/** One cuckoo filter: insertion with kick-out chains, lookup, update in place and
    growth by transferring every slot into a larger table. */
module CuckooFilter {
  import opened Bits
  import opened CuckooTable
  import opened CuckooCapacity
  import opened CuckooChain

  /** The key hash is any fixed function to 64-bit words. */
  datatype Hasher = Hasher(hash: nat -> nat) {
    /** The high 32 bits of the hash, from which bucket and fingerprint are taken. */
    function High(key: nat): nat {
      hash(key) / TWO32
    }

    /** A zero word is stored as fingerprint 1. */
    function Fingerprint(key: nat): (fp: nat)
      ensures fp != 0
    {
      if High(key) == 0 then 1 else High(key)
    }
  }

  lemma SizeBounds(maxKeys: nat, want: nat, n: nat)
    requires maxKeys <= TWO32 && LeastPow2(n, want) && want == if maxKeys / 4 < 1 then 1 else maxKeys / 4
    ensures Buckets(n) && Buckets(2 * n) && 4 * n + 4 > maxKeys
    ensures n == 1 || (n % 2 == 0 && 4 * (n / 2) < maxKeys)
  {
    LeastPow2Small(n, want);
    Pow2Double(n);
    if n > 1 { LeastPow2Half(n, want); }
  }

  /** The keys give a load of at most 0.96, and would not in half the buckets. */
  ghost predicate FitsTightly(maxKeys: nat, n: nat) {
    && 100 * maxKeys <= 96 * (4 * n)
    && (n == 1 || (n % 2 == 0 && 100 * maxKeys > 96 * (4 * (n / 2))))
  }

  lemma SizeFits(maxKeys: nat, n: nat)
    requires n > 0 && maxKeys < 4 * n + 4 && (n == 1 || (n % 2 == 0 && 4 * (n / 2) < maxKeys))
    ensures if 100 * maxKeys > 96 * (4 * n) then FitsTightly(maxKeys, 2 * n) else FitsTightly(maxKeys, n)
  {
  }

  /** A table size for maxKeys keys: the least power of two with load at most 0.96. */
  method TableSize(maxKeys: nat) returns (n: nat)
    requires maxKeys <= TWO32
    ensures Buckets(n) && FitsTightly(maxKeys, n)
  {
    var want := if maxKeys / 4 < 1 then 1 else maxKeys / 4;
    n := UpperPower2(want);
    SizeBounds(maxKeys, want, n);
    SizeFits(maxKeys, n);
    if maxKeys * 100 > 96 * (4 * n) {
      n := 2 * n;
    }
  }

  /** Everything insertion of a slot from bucket i relies on. */
  ghost predicate CanPlace(c: seq<Slot>, n: nat, i: nat, s: Slot)
    requires n > 0
  {
    Placed(c, n) && s.fp != 0 && Named(i, s.fp, n)
  }

  /** Half-way through a chain: the table c and the slot in hand cs together hold the old
      table c0 and the new slot, and what held at the start still holds. */
  ghost predicate Chained(c0: seq<Slot>, n: nat, i: nat, slot: Slot, c: seq<Slot>, ci: nat, cs: Slot)
    requires n > 0
  {
    && |c| == |c0| && multiset(c) + multiset{cs} == multiset(c0) + multiset{slot}
    && (CanPlace(c0, n, i, slot) ==> CanPlace(c, n, ci, cs))
    && (Unique(c0) && Absent(c0, slot.fp) ==> Unique(c) && Absent(c, cs.fp))
  }

  /** The outcome of a chain that left d behind and `dropped` in hand. */
  ghost predicate ChainEnd(c0: seq<Slot>, n: nat, i: nat, slot: Slot, d: seq<Slot>, dropped: Slot)
    requires n > 0
  {
    && |d| == |c0| && multiset(d) + multiset{dropped} == multiset(c0) + multiset{slot}
    && (CanPlace(c0, n, i, slot) ==> Placed(d, n))
    && (Unique(c0) && Absent(c0, slot.fp) ==> Unique(d) && (dropped != EMPTY ==> Absent(d, dropped.fp)))
  }

  lemma ChainPut(c0: seq<Slot>, n: nat, i: nat, slot: Slot, c: seq<Slot>, ci: nat, cs: Slot, p: nat)
    requires Buckets(n) && Chained(c0, n, i, slot, c, ci, cs) && |c| == 4 * n && ci < n && 4 * ci <= p < 4 * ci + 4
    ensures ChainEnd(c0, n, i, slot, c[p := cs], c[p])
    ensures c[p] != EMPTY ==> Chained(c0, n, i, slot, c[p := cs], AltIndex(ci, c[p].fp, n), c[p])
  {
    OverwriteContents(c, p, cs);
    if CanPlace(c0, n, i, slot) {
      OverwritePlaced(c, p, cs, n);
      if c[p] != EMPTY { NamedAlt(ci, c[p].fp, n); }
    }
    if Unique(c0) && Absent(c0, slot.fp) {
      OverwriteUnique(c, p, cs);
    }
  }

  lemma ChainWait(c0: seq<Slot>, n: nat, i: nat, slot: Slot, c: seq<Slot>, ci: nat, cs: Slot)
    requires Buckets(n) && Chained(c0, n, i, slot, c, ci, cs)
    ensures Chained(c0, n, i, slot, c, AltIndex(ci, cs.fp, n), cs)
  {
    if CanPlace(c0, n, i, slot) {
      NamedAlt(ci, cs.fp, n);
    }
  }

  /** A chain gives up only after as many kicks as are allowed. */
  ghost predicate Kicked(s: Status, before: nat, after: nat) {
    before <= after < before + MAX_CUCKOO && (s == IOError ==> after == before + MAX_CUCKOO - 1)
  }

  ghost predicate NonZero(c: seq<Slot>) {
    forall p: nat :: p < |c| && c[p] != EMPTY ==> c[p].fp != 0
  }

  lemma OccupiedAfter(c: seq<Slot>, d: seq<Slot>, s: Slot, dropped: Slot)
    requires |c| == |d| && s != EMPTY
    requires multiset(d) + multiset{dropped} == multiset(c) + multiset{s}
    ensures Occupied(d) == Occupied(c) + (if dropped == EMPTY then 1 else 0)
  {
    assert (multiset(d) + multiset{dropped})[EMPTY] == (multiset(c) + multiset{s})[EMPTY];
  }

  lemma Members(c: seq<Slot>, d: seq<Slot>, s: Slot, dropped: Slot)
    requires multiset(d) + multiset{dropped} == multiset(c) + multiset{s}
    ensures forall x: Slot :: (x in d || x == dropped) <==> (x in c || x == s)
  {
    forall x: Slot ensures (x in d || x == dropped) <==> (x in c || x == s) {
      assert x in d || x == dropped <==> x in multiset(d) + multiset{dropped};
      assert x in c || x == s <==> x in multiset(c) + multiset{s};
    }
  }

  lemma ViewLookup(c: seq<Slot>, f: nat)
    requires Unique(c)
    ensures f in View(c) <==> exists x: Slot :: x in c && x != EMPTY && x.fp == f
    ensures forall x: Slot :: x in c && x != EMPTY && x.fp == f ==> f in View(c) && View(c)[f] == x.file
  {
  }

  /** The stored map after a chain: the new pair is in, the dropped one is out. */
  lemma ViewAfter(c: seq<Slot>, d: seq<Slot>, s: Slot, dropped: Slot)
    requires Unique(c) && Absent(c, s.fp) && s != EMPTY && Unique(d)
    requires dropped != EMPTY ==> Absent(d, dropped.fp)
    requires multiset(d) + multiset{dropped} == multiset(c) + multiset{s}
    ensures dropped == EMPTY ==> View(d) == View(c)[s.fp := s.file]
    ensures dropped != EMPTY ==> View(d) == View(c)[s.fp := s.file] - {dropped.fp}
  {
    Members(c, d, s, dropped);
    var m := View(c)[s.fp := s.file];
    var m' := if dropped == EMPTY then m else m - {dropped.fp};
    forall f: nat ensures f in View(d) <==> f in m'
                  ensures f in View(d) ==> m'[f] == View(d)[f]
    {
      ViewLookup(c, f);
      ViewLookup(d, f);
      DroppedOrKept(c, d, s, dropped, f);
    }
    assert View(d) == m';
  }

  lemma DroppedOrKept(c: seq<Slot>, d: seq<Slot>, s: Slot, dropped: Slot, f: nat)
    requires Absent(c, s.fp) && s != EMPTY
    requires dropped != EMPTY ==> Absent(d, dropped.fp)
    requires forall x: Slot :: (x in d || x == dropped) <==> (x in c || x == s)
    ensures f == s.fp && !(dropped != EMPTY && f == dropped.fp) ==> s in d
    ensures dropped != EMPTY && f == dropped.fp ==> forall x: Slot :: x in d && x != EMPTY ==> x.fp != f
    ensures f != s.fp && !(dropped != EMPTY && f == dropped.fp) ==>
      forall x: Slot :: x != EMPTY && x.fp == f ==> (x in d <==> x in c)
  {
  }

  /** No fingerprint is added that is confined to crowded buckets. */
  ghost predicate RefusedIfCrowded(m: map<nat, nat>, n: nat, fp: nat, s: Status)
    requires n > 0
  {
    forall buckets: set<nat> :: Crowded(m, n, buckets) && Confined(fp, n, buckets) ==> s == IOError
  }

  lemma CrowdedRefuses(m: map<nat, nat>, n: nat, fp: nat, file: nat, d: seq<Slot>)
    requires n > 0 && fp !in m && Placed(d, n) && Unique(d) && View(d) == m[fp := file]
    ensures RefusedIfCrowded(m, n, fp, OK)
  {
    forall buckets: set<nat> | Crowded(m, n, buckets) && Confined(fp, n, buckets) ensures false {
      NoRoom(m, n, buckets, fp, file, d);
    }
  }

  class CuckooFilter {
    const hasher: Hasher
    var table: NvmSingleTable
    var numItems: nat
    var maxKeys: nat
    var numKicks: nat
    var isRehashing: bool

    ghost var model: map<nat, nat>

    ghost predicate Counted()
      reads this, table.cells
    {
      && table.Valid()
      && numItems == Occupied(table.cells[..])
      && NonZero(table.cells[..])
    }

    ghost predicate Valid()
      reads this, table.cells
    {
      forall u {:trigger Unfold(u)} :: Unfold(u) ==> Counted()
    }

    /** The table stores the map `model` from fingerprints to file numbers: every slot is
        where it belongs and no fingerprint occurs twice. */
    ghost predicate Exact()
      reads this, table.cells
    {
      forall u {:trigger Unfold(u)} :: Unfold(u) ==>
        && Counted() && Placed(table.cells[..], table.numBuckets) && Unique(table.cells[..])
        && model == View(table.cells[..])
    }

    /** A chain for the key finds a place, and the load stays at or below 0.85 then. */
    ghost predicate HasRoom(key: nat, file: nat)
      reads this, table.cells
    {
      && ChainFits(table.cells[..], table.numBuckets, IndexHash(hasher.High(key), table.numBuckets),
                   Slot(hasher.Fingerprint(key), file))
      && 100 * (numItems + 1) <= 85 * (4 * table.numBuckets)
    }

    /** In the table that a rehash makes, no bucket is the first one of more than four of the
        stored fingerprints. */
    ghost predicate Spreads()
      reads this
    {
      forall n: nat :: Buckets(n) && FitsTightly(2 * maxKeys, n) ==> SpreadOut(model, n)
    }

    constructor (maxNumKeys: nat, hasher: Hasher)
      requires maxNumKeys <= TWO32
      ensures Exact() && model == map[] && !isRehashing && fresh(table) && fresh(table.cells)
      ensures maxKeys == maxNumKeys && this.hasher == hasher && FitsTightly(maxKeys, table.numBuckets)
    {
      this.hasher := hasher;
      var n := TableSize(maxNumKeys);
      table := new NvmSingleTable(n);
      numItems, maxKeys, numKicks, isRehashing := 0, maxNumKeys, 0, false;
      model := map[];
      new;
      AllEmpty(table.cells[..]);
    }

    /** Insert a slot by a kick-out chain of at most MAX_CUCKOO steps.  Whatever the
        outcome, the table together with the slot left in hand holds the old contents
        and the new slot; a successful chain leaves nothing in hand. */
    method AddImpl(i: nat, slot: Slot, t: NvmSingleTable) returns (s: Status, ghost dropped: Slot)
      requires t.Valid() && i < t.numBuckets && slot != EMPTY
      modifies this`numItems, this`numKicks, t.cells
      ensures s == OK || s == AlreadyExist || s == IOError
      ensures s == OK <==> dropped == EMPTY
      ensures numItems == old(numItems) + (if s == OK then 1 else 0)
      ensures ChainEnd(old(t.cells[..]), t.numBuckets, i, slot, t.cells[..], dropped)
      ensures Unique(old(t.cells[..])) && Absent(old(t.cells[..]), slot.fp) ==> s != AlreadyExist
      ensures Outcome(old(t.cells[..]), t.numBuckets, i, slot, s, t.cells[..])
      ensures Kicked(s, old(numKicks), numKicks)
    {
      var curIndex: nat, curSlot := i, slot;
      ghost var c0, n := t.cells[..], t.numBuckets;
      TrailStarts(c0, n, i, slot);
      for count := 0 to MAX_CUCKOO
        invariant curIndex < n && curSlot != EMPTY && numItems == old(numItems)
        invariant Chained(c0, n, i, slot, t.cells[..], curIndex, curSlot)
        invariant OnTrail(c0, n, i, slot, t.cells[..], curIndex, curSlot, count)
        invariant numKicks == old(numKicks) + (if count == 0 then 0 else count - 1)
      {
        var kickout := count > 0;
        ghost var c := t.cells[..];
        var st, oldSlot, p := t.InsertTagToBucketAndCheckDup64(curIndex, curSlot, kickout);
        ChainPut(c0, n, i, slot, c, curIndex, curSlot, p);
        if st == OK {
          numItems := numItems + 1;
          TrailEnds(c0, n, i, slot, c, curIndex, curSlot, count, p);
          return OK, EMPTY;
        } else if st == NotSupported {
          assert kickout ==> oldSlot != EMPTY;
          if kickout {
            TrailKicks(c0, n, i, slot, c, curIndex, curSlot, count, p);
            numKicks := numKicks + 1;
            curSlot := oldSlot;
          } else {
            TrailWaits(c0, n, i, slot, c, curIndex, curSlot);
            ChainWait(c0, n, i, slot, c, curIndex, curSlot);
          }
          AltIndexInvolution(curIndex, curSlot.fp, n);
          var tmp := AltIndex(curIndex, curSlot.fp, t.numBuckets);
          assert curIndex == AltIndex(tmp, curSlot.fp, t.numBuckets);
          curIndex := tmp;
        } else {
          Met(c, curIndex, curSlot.fp, p);
          TrailFails(c0, n, i, slot, c, curIndex, curSlot, count, st);
          return st, curSlot;
        }
      }
      TrailFails(c0, n, i, slot, t.cells[..], curIndex, curSlot, MAX_CUCKOO, IOError);
      return IOError, curSlot;
    }

    method Add(key: nat, file: nat) returns (s: Status, ghost dropped: Slot)
      requires Valid()
      modifies this, table.cells
      ensures Valid() && table == old(table) && isRehashing == old(isRehashing) && maxKeys == old(maxKeys)
      ensures s == OK || s == AlreadyExist || s == IOError
      ensures s == OK <==> dropped == EMPTY
      ensures multiset(table.cells[..]) + multiset{dropped} ==
        multiset(old(table.cells[..])) + multiset{Slot(hasher.Fingerprint(key), file)}
      ensures old(Exact()) && hasher.High(key) != 0 && hasher.Fingerprint(key) !in old(model) ==>
        && Exact() && s != AlreadyExist
        && model == Added(old(model), Slot(hasher.Fingerprint(key), file), dropped)
        && (dropped != EMPTY ==> dropped.fp in old(model).Keys + {hasher.Fingerprint(key)})
      ensures Outcome(old(table.cells[..]), table.numBuckets, IndexHash(hasher.High(key), table.numBuckets),
                      Slot(hasher.Fingerprint(key), file), s, table.cells[..])
      ensures Kicked(s, old(numKicks), numKicks)
      ensures numItems == old(numItems) + (if s == OK then 1 else 0)
      ensures old(Exact()) && hasher.High(key) != 0 && hasher.Fingerprint(key) !in old(model) ==>
        RefusedIfCrowded(old(model), table.numBuckets, hasher.Fingerprint(key), s)
    {
      assert Unfold(0);
      var n := table.numBuckets;
      var i, fp := IndexHash(hasher.High(key), n), hasher.Fingerprint(key);
      IndexInRange(hasher.High(key), n);
      ghost var c := table.cells[..];
      s, dropped := AddImpl(i, Slot(fp, file), table);
      AddEffect(c, table.cells[..], Slot(fp, file), dropped);
      if s == OK && Placed(table.cells[..], n) && Unique(table.cells[..]) && fp !in model
        && View(table.cells[..]) == Added(model, Slot(fp, file), dropped) {
        CrowdedRefuses(model, n, fp, file, table.cells[..]);
      }
      model := Added(model, Slot(fp, file), dropped);
    }

    /** Look a key up by its fingerprint.  On an exact filter the answer is that of the
        stored map, except for keys whose high hash word is zero: such a key is looked up
        in bucket 0, where a correctly placed table never keeps its fingerprint. */
    method Contain(key: nat) returns (found: bool, file: nat)
      requires Valid()
      ensures Exact() && hasher.High(key) != 0 ==>
        && (found <==> hasher.Fingerprint(key) in model)
        && (found ==> file == model[hasher.Fingerprint(key)])
      ensures var i, fp := IndexHash(hasher.High(key), table.numBuckets), hasher.Fingerprint(key);
        found <==> Reachable(table.cells[..], i, AltIndex(i, fp, table.numBuckets), fp)
      ensures Placed(table.cells[..], table.numBuckets) && hasher.High(key) == 0 && table.numBuckets > 1 ==> !found
    {
      assert Unfold(0);
      var n := table.numBuckets;
      var i1, fp := IndexHash(hasher.High(key), n), hasher.Fingerprint(key);
      IndexInRange(hasher.High(key), n);
      AltIndexInvolution(i1, fp, n);
      var i2 := AltIndex(i1, fp, n);
      found, file := table.FindSlotInBuckets64(i1, i2, fp);
      ghost var c := table.cells[..];
      if Exact() && hasher.High(key) != 0 {
        TwoBucketsDecide(c, n, fp, i1);
      }
      if Placed(c, n) && hasher.High(key) == 0 && n > 1 {
        ZeroWordBuckets(n);
      }
    }

    method Update(key: nat, file: nat) returns (s: Status)
      requires Valid()
      modifies this`model, table.cells
      ensures Valid()
      ensures old(Exact()) && hasher.High(key) != 0 ==>
        && Exact()
        && (s == OK <==> hasher.Fingerprint(key) in old(model))
        && model == if s == OK then old(model)[hasher.Fingerprint(key) := file] else old(model)
    {
      assert Unfold(0);
      var n := table.numBuckets;
      var i1, fp := IndexHash(hasher.High(key), n), hasher.Fingerprint(key);
      IndexInRange(hasher.High(key), n);
      AltIndexInvolution(i1, fp, n);
      var i2 := AltIndex(i1, fp, n);
      ghost var c := table.cells[..];
      var found, p := table.FindSlotInBucketAndUpdate(i1, i2, fp, file);
      UpdateEffect(c, table.cells[..], n, fp, i1, file, found, p);
      if found {
        model := model[fp := file];
      }
      s := if found then OK else NotFound;
    }

    method SetRehash()
      requires Valid() && !isRehashing
      modifies this`isRehashing
      ensures Valid() && isRehashing && (old(Exact()) ==> Exact())
    {
      assert Unfold(0);
      isRehashing := true;
    }

    /** Move the slot at position 4 * j + i of the old table, if there is one. */
    method TransferSlot(alt: NvmSingleTable, i: nat, j: nat, ghost c: seq<Slot>) returns (s: Status)
      requires table.Valid() && alt.Valid() && alt.cells != table.cells && c == table.cells[..] && NonZero(c)
      requires i < 4 && j < table.numBuckets && numItems == Occupied(alt.cells[..])
      requires Transferring(c, alt.cells[..], alt.numBuckets, i, j)
      modifies this`numItems, this`numKicks, alt.cells
      ensures numItems == Occupied(alt.cells[..])
      ensures Placed(alt.cells[..], alt.numBuckets) && NonZero(alt.cells[..])
      ensures s == OK ==> Transferring(c, alt.cells[..], alt.numBuckets, i, j + 1)
      ensures s != OK && Unique(c) ==> numKicks >= MAX_CUCKOO - 1
      ensures old(numItems) == 0 ==> s == OK
      ensures old(AtHome(alt.cells[..], alt.numBuckets)) && Unique(c) && SpreadOut(View(c), alt.numBuckets) ==>
        s == OK && AtHome(alt.cells[..], alt.numBuckets)
      ensures s == OK ==> numItems == old(numItems) + (if c[4 * j + i] == EMPTY then 0 else 1)
    {
      var slot := table.cells[4 * j + i];
      s := OK;
      if slot != EMPTY {
        ghost var d := alt.cells[..];
        ghost var spread := Unique(c) && SpreadOut(View(c), alt.numBuckets) && AtHome(d, alt.numBuckets);
        IndexInRange(slot.fp, alt.numBuckets);
        BeforeMove(c, d, alt.numBuckets, i, j, spread);
        ghost var dropped;
        s, dropped := AddImpl(IndexHash(slot.fp, alt.numBuckets), slot, alt);
        AfterMove(c, d, alt.cells[..], alt.numBuckets, i, j, s, dropped, spread);
      }
    }

    /** Move every slot into the empty larger table.  The old table, which lookups go on
        reading, is not written.  False stands for the failed assertion of a chain that
        ran out; the early return is taken only when no slot is left to move. */
    method TransferData(alt: NvmSingleTable) returns (ok: bool)
      requires Valid() && alt.Valid() && alt.cells != table.cells
      requires forall p :: 0 <= p < alt.cells.Length ==> alt.cells[p] == EMPTY
      modifies this`numItems, this`numKicks, alt.cells
      ensures numItems == Occupied(alt.cells[..]) && NonZero(alt.cells[..])
      ensures Placed(alt.cells[..], alt.numBuckets)
      ensures ok && Unique(table.cells[..]) ==>
        Unique(alt.cells[..]) && View(alt.cells[..]) == View(table.cells[..])
      ensures !ok && Unique(table.cells[..]) ==> numKicks >= MAX_CUCKOO - 1
      ensures old(numItems) <= 1 ==> ok
      ensures Unique(table.cells[..]) && SpreadOut(View(table.cells[..]), alt.numBuckets) ==> ok
    {
      assert Unfold(0);
      var total := numItems;
      numItems, numKicks := 0, 0;
      ghost var c := table.cells[..];
      AllEmpty(alt.cells[..]);
      for i := 0 to 4
        invariant Transferring(c, alt.cells[..], alt.numBuckets, i, 0) && table.cells[..] == c
        invariant numItems == Occupied(alt.cells[..]) && (total <= 1 ==> numItems == 0)
        invariant Unique(c) && SpreadOut(View(c), alt.numBuckets) ==> AtHome(alt.cells[..], alt.numBuckets)
      {
        var s, done := TransferRow(alt, i, total, c);
        if s != OK {
          return false;
        }
        if done {
          return true;
        }
      }
      ok := true;
      if Unique(c) {
        TransferAll(c, alt.cells[..]);
      }
    }

    /** Move slot i of every bucket; done when that was the last slot there is. */
    method TransferRow(alt: NvmSingleTable, i: nat, total: nat, ghost c: seq<Slot>) returns (s: Status, done: bool)
      requires table.Valid() && alt.Valid() && alt.cells != table.cells && c == table.cells[..] && NonZero(c)
      requires i < 4 && numItems == Occupied(alt.cells[..]) && total == Occupied(c)
      requires Transferring(c, alt.cells[..], alt.numBuckets, i, 0)
      requires total <= 1 ==> numItems == 0
      requires Unique(c) && SpreadOut(View(c), alt.numBuckets) ==> AtHome(alt.cells[..], alt.numBuckets)
      modifies this`numItems, this`numKicks, alt.cells
      ensures Unique(c) && SpreadOut(View(c), alt.numBuckets) ==> s == OK && AtHome(alt.cells[..], alt.numBuckets)
      ensures numItems == Occupied(alt.cells[..]) && Placed(alt.cells[..], alt.numBuckets) && NonZero(alt.cells[..])
      ensures s == OK && !done ==> Transferring(c, alt.cells[..], alt.numBuckets, i + 1, 0) && (total <= 1 ==> numItems == 0)
      ensures s == OK && done && Unique(c) ==> Unique(alt.cells[..]) && View(alt.cells[..]) == View(c)
      ensures s != OK && Unique(c) ==> numKicks >= MAX_CUCKOO - 1
      ensures total <= 1 ==> s == OK
    {
      if total == 0 { NoneOccupied(c); }
      ghost var spread := Unique(c) && SpreadOut(View(c), alt.numBuckets);
      s := OK;
      for j := 0 to table.numBuckets
        invariant s == OK && Transferring(c, alt.cells[..], alt.numBuckets, i, j) && table.cells[..] == c
        invariant numItems == Occupied(alt.cells[..]) && (total <= 1 ==> numItems == 0)
        invariant spread ==> AtHome(alt.cells[..], alt.numBuckets)
      {
        s := TransferSlot(alt, i, j, c);
        if s != OK {
          return s, false;
        }
        if table.cells[4 * j + i] != EMPTY && numItems == total {
          if Unique(c) {
            TransferCounted(c, alt.cells[..], i, j + 1);
          }
          return s, true;
        }
      }
      NextRow(c, alt.cells[..], i, table.numBuckets);
      done := false;
    }

    /** Double the capacity.  The stored map is the same before and after.  It fails only
        if some chain has used up its kicks, and never if no bucket of the larger table is
        the first one of more than four fingerprints. */
    method Rehash() returns (ok: bool)
      requires Valid() && isRehashing && 2 * maxKeys <= TWO32
      modifies this
      ensures ok ==> Valid() && !isRehashing && maxKeys == 2 * old(maxKeys)
      ensures ok ==> fresh(table) && fresh(table.cells)
      ensures ok ==> FitsTightly(maxKeys, table.numBuckets)
      ensures ok ==> Placed(table.cells[..], table.numBuckets)
      ensures ok && old(Exact()) ==> Exact() && model == old(model)
      ensures !ok && old(Exact()) ==> numKicks >= MAX_CUCKOO - 1
      ensures old(numItems) <= 1 ==> ok
      ensures old(Exact()) && old(Spreads()) ==> ok
    {
      assert Unfold(0);
      maxKeys := 2 * maxKeys;
      var n := TableSize(maxKeys);
      var alt := new NvmSingleTable(n);
      ok := TransferData(alt);
      if ok {
        table := alt;
        isRehashing := false;
      }
    }
  }

  /** Position p comes before slot i of bucket j in the order of the transfer. */
  predicate Visited(p: nat, i: nat, j: nat) {
    p % 4 < i || (p % 4 == i && p / 4 < j)
  }

  /** The new table holds exactly the slots at the visited positions of the old one. */
  ghost predicate Moved(c: seq<Slot>, d: seq<Slot>, i: nat, j: nat) {
    && (forall p: nat :: p < |c| && c[p] != EMPTY && Visited(p, i, j) ==> c[p] in d)
    && (forall s: Slot :: s in d && s != EMPTY ==> exists p: nat :: p < |c| && Visited(p, i, j) && c[p] == s)
  }

  /** What holds of the new table between two moves. */
  ghost predicate Transferring(c: seq<Slot>, d: seq<Slot>, n: nat, i: nat, j: nat)
    requires n > 0
  {
    Moved(c, d, i, j) && Placed(d, n) && NonZero(d) && (Unique(c) ==> Unique(d))
  }

  /** What is known of the new table before a slot is moved. */
  lemma BeforeMove(c: seq<Slot>, d: seq<Slot>, n: nat, i: nat, j: nat, spread: bool)
    requires Buckets(n) && Transferring(c, d, n, i, j) && i < 4 && 4 * j + i < |c| && c[4 * j + i] != EMPTY
    requires spread ==> Unique(c) && SpreadOut(View(c), n) && AtHome(d, n)
    requires IndexHash(c[4 * j + i].fp, n) < n
    ensures Unique(c) ==> Unique(d) && Absent(d, c[4 * j + i].fp)
    ensures Occupied(d) == 0 || spread ==> FreeIn(d, IndexHash(c[4 * j + i].fp, n), c[4 * j + i].fp)
  {
    if Unique(c) { TransferAbsent(c, d, i, j); }
    if Occupied(d) == 0 {
      NoneOccupied(d);
      FreeWhenEmpty(d, IndexHash(c[4 * j + i].fp, n), c[4 * j + i].fp);
    }
    if spread { TransferHasRoom(c, d, n, i, j); }
  }

  /** And after it was. */
  lemma AfterMove(c: seq<Slot>, d: seq<Slot>, d': seq<Slot>, n: nat, i: nat, j: nat, s: Status, dropped: Slot, spread: bool)
    requires Buckets(n) && Transferring(c, d, n, i, j) && i < 4 && 4 * j + i < |c| && c[4 * j + i].fp != 0
    requires spread ==> AtHome(d, n)
    requires var slot := c[4 * j + i];
      var home := IndexHash(slot.fp, n);
      && home < n && ChainEnd(d, n, home, slot, d', dropped) && Outcome(d, n, home, slot, s, d') && (s == OK <==> dropped == EMPTY)
      && (Unique(c) ==> Unique(d) && Absent(d, slot.fp)) && (Occupied(d) == 0 || spread ==> FreeIn(d, home, slot.fp))
    ensures Occupied(d') == Occupied(d) + (if s == OK then 1 else 0) && NonZero(d') && Placed(d', n)
    ensures s == OK ==> Transferring(c, d', n, i, j + 1)
    ensures Occupied(d) == 0 ==> s == OK
    ensures spread ==> s == OK && AtHome(d', n)
  {
    var slot := c[4 * j + i];
    var home := IndexHash(slot.fp, n);
    AddEffect(d, d', slot, dropped);
    assert Named(home, slot.fp, n);
    if FreeIn(d, home, slot.fp) {
      RoomAtOnce(d, n, home, slot, s, d');
      if spread { StaysHome(d, d', n, slot); }
    }
    if s == OK { TransferStep(c, d, d', i, j); }
  }

  lemma TransferHasRoom(c: seq<Slot>, d: seq<Slot>, n: nat, i: nat, j: nat)
    requires Buckets(n) && Transferring(c, d, n, i, j) && Unique(c) && AtHome(d, n) && SpreadOut(View(c), n)
    requires i < 4 && 4 * j + i < |c| && c[4 * j + i] != EMPTY && Absent(d, c[4 * j + i].fp)
    ensures FreeIn(d, IndexHash(c[4 * j + i].fp, n), c[4 * j + i].fp)
  {
    ViewAt(c, 4 * j + i);
    forall p: nat | p < |d| && d[p] != EMPTY ensures d[p].fp in View(c) {
      assert d[p] in d;
      var q: nat :| q < |c| && Visited(q, i, j) && c[q] == d[p];
      ViewAt(c, q);
    }
    RoomAtHome(View(c), d, n, c[4 * j + i].fp);
  }

  lemma NextRow(c: seq<Slot>, d: seq<Slot>, i: nat, m: nat)
    requires |c| == 4 * m && Moved(c, d, i, m)
    ensures Moved(c, d, i + 1, 0)
  {
    forall s: Slot | s in d && s != EMPTY ensures exists p: nat :: p < |c| && Visited(p, i + 1, 0) && c[p] == s {
      var p: nat :| p < |c| && Visited(p, i, m) && c[p] == s;
      assert Visited(p, i + 1, 0);
    }
  }

  lemma TransferAbsent(c: seq<Slot>, d: seq<Slot>, i: nat, j: nat)
    requires Unique(c) && Moved(c, d, i, j) && i < 4 && 4 * j + i < |c| && c[4 * j + i] != EMPTY
    ensures Absent(d, c[4 * j + i].fp)
  {
    forall q: nat | q < |d| && d[q] != EMPTY ensures d[q].fp != c[4 * j + i].fp {
      assert d[q] in d;
      var p: nat :| p < |c| && Visited(p, i, j) && c[p] == d[q];
      assert p != 4 * j + i;
    }
  }

  lemma TransferStep(c: seq<Slot>, d: seq<Slot>, d': seq<Slot>, i: nat, j: nat)
    requires Moved(c, d, i, j) && i < 4 && 4 * j + i < |c| && c[4 * j + i] != EMPTY
    requires multiset(d') + multiset{EMPTY} == multiset(d) + multiset{c[4 * j + i]}
    ensures Moved(c, d', i, j + 1)
  {
    var p0 := 4 * j + i;
    Members(d, d', c[p0], EMPTY);
    forall p: nat | p < |c| && c[p] != EMPTY && Visited(p, i, j + 1) ensures c[p] in d' {
      assert Visited(p, i, j) || p == p0;
    }
    forall s: Slot | s in d' && s != EMPTY ensures exists p: nat :: p < |c| && Visited(p, i, j + 1) && c[p] == s {
      if s in d {
        var p: nat :| p < |c| && Visited(p, i, j) && c[p] == s;
        assert Visited(p, i, j + 1);
      } else {
        assert Visited(p0, i, j + 1);
      }
    }
  }

  /** Having moved as many slots as there were, all have been moved. */
  lemma TransferCounted(c: seq<Slot>, d: seq<Slot>, i: nat, j: nat)
    requires Unique(c) && Unique(d) && Moved(c, d, i, j) && Occupied(d) == Occupied(c)
    ensures View(d) == View(c)
  {
    OccupiedIsSize(c);
    OccupiedIsSize(d);
    assert SlotsOf(d) <= SlotsOf(c);
    SubsetOfSameSize(SlotsOf(d), SlotsOf(c));
    forall s: Slot | s != EMPTY ensures s in c <==> s in d {
      assert s in SlotsOf(c) <==> s in SlotsOf(d);
    }
    ViewOfContents(d, c);
  }

  lemma SubsetOfSameSize(a: set<Slot>, b: set<Slot>)
    requires a <= b && |a| == |b|
    ensures a == b
  {
    assert |b - a| == 0;
  }

  lemma TransferAll(c: seq<Slot>, d: seq<Slot>)
    requires Unique(c) && Unique(d) && Moved(c, d, 4, 0)
    ensures View(d) == View(c)
  {
    forall s: Slot | s != EMPTY ensures s in c <==> s in d {
      if s in c {
        var p: nat :| p < |c| && c[p] == s;
        assert Visited(p, 4, 0);
      }
    }
    ViewOfContents(d, c);
  }

  ghost function Added(m: map<nat, nat>, s: Slot, dropped: Slot): map<nat, nat> {
    if dropped == EMPTY then m[s.fp := s.file] else m[s.fp := s.file] - {dropped.fp}
  }

  lemma AddEffect(c: seq<Slot>, d: seq<Slot>, s: Slot, dropped: Slot)
    requires |c| == |d| && s.fp != 0
    requires multiset(d) + multiset{dropped} == multiset(c) + multiset{s}
    ensures Occupied(d) == Occupied(c) + (if dropped == EMPTY then 1 else 0)
    ensures NonZero(c) ==> NonZero(d)
    ensures Unique(c) ==> (s.fp !in View(c) <==> Absent(c, s.fp))
    ensures Unique(c) && dropped != EMPTY ==> dropped.fp in View(c).Keys + {s.fp}
    ensures Unique(c) && Absent(c, s.fp) && Unique(d) && (dropped != EMPTY ==> Absent(d, dropped.fp)) ==>
      View(d) == Added(View(c), s, dropped)
  {
    OccupiedAfter(c, d, s, dropped);
    Members(c, d, s, dropped);
    FreshFingerprint(c, s.fp);
    if Unique(c) && dropped != EMPTY && dropped != s {
      assert dropped in c;
      ViewLookup(c, dropped.fp);
    }
    if NonZero(c) {
      forall p: nat | p < |d| && d[p] != EMPTY ensures d[p].fp != 0 {
        assert d[p] in d;
      }
    }
    if Unique(c) && Absent(c, s.fp) && Unique(d) && (dropped != EMPTY ==> Absent(d, dropped.fp)) {
      ViewAfter(c, d, s, dropped);
    }
  }

  lemma FreshFingerprint(c: seq<Slot>, fp: nat)
    ensures Unique(c) ==> (fp !in View(c) <==> Absent(c, fp))
  {
    if Unique(c) {
      ViewHas(c, fp);
    }
  }

  lemma OccupiedSame(c: seq<Slot>, p: nat, s: Slot)
    requires p < |c| && c[p] != EMPTY && s != EMPTY
    ensures Occupied(c[p := s]) == Occupied(c)
  {
    OverwriteContents(c, p, s);
    assert (multiset(c[p := s]) + multiset{c[p]})[EMPTY] == (multiset(c) + multiset{s})[EMPTY];
  }

  lemma ViewUpdate(c: seq<Slot>, p: nat, file: nat)
    requires Unique(c) && p < |c| && c[p].fp != 0
    ensures Unique(c[p := Slot(c[p].fp, file)])
    ensures View(c[p := Slot(c[p].fp, file)]) == View(c)[c[p].fp := file]
  {
    var d := c[p := Slot(c[p].fp, file)];
    forall a: nat, b: nat | a < b < |d| && d[a] != EMPTY && d[b] != EMPTY ensures d[a].fp != d[b].fp {
      assert c[a] != EMPTY && c[b] != EMPTY;
    }
    forall f: nat ensures f in View(d) <==> f in View(c)[c[p].fp := file]
                  ensures f in View(d) ==> View(d)[f] == View(c)[c[p].fp := file][f]
    {
      ViewUpdateAt(c, d, p, file, f);
    }
  }

  lemma ViewUpdateAt(c: seq<Slot>, d: seq<Slot>, p: nat, file: nat, f: nat)
    requires Unique(c) && Unique(d) && p < |c| && c[p].fp != 0 && d == c[p := Slot(c[p].fp, file)]
    ensures f in View(d) <==> f in View(c)[c[p].fp := file]
    ensures f in View(d) ==> View(d)[f] == View(c)[c[p].fp := file][f]
  {
    if f == c[p].fp {
      ViewAt(d, p);
    } else {
      ViewLookup(c, f);
      ViewLookup(d, f);
      forall x: Slot | x.fp == f ensures x in c <==> x in d { OthersKept(c, d, p, x); }
    }
  }

  lemma OthersKept(c: seq<Slot>, d: seq<Slot>, p: nat, x: Slot)
    requires p < |c| == |d| && d == c[p := d[p]] && x != c[p] && x != d[p]
    ensures x in c <==> x in d
  {
    if x in c {
      var q: nat :| q < |c| && c[q] == x;
      assert d[q] == x;
    }
    if x in d {
      var q: nat :| q < |d| && d[q] == x;
      assert c[q] == x;
    }
  }

  lemma UpdateEffect(c: seq<Slot>, d: seq<Slot>, n: nat, fp: nat, i1: nat, file: nat, found: bool, p: nat)
    requires Buckets(n) && |c| == 4 * n && fp != 0 && i1 < n
    requires found ==> p < |c| && c[p].fp == fp && d == c[p := Slot(fp, file)]
    requires !found ==> d == c
    requires !found ==>
      forall q: nat :: q < |c| && (q / 4 == i1 || q / 4 == AltIndex(i1, fp, n)) ==> c[q].fp != fp
    ensures Occupied(d) == Occupied(c)
    ensures NonZero(c) ==> NonZero(d)
    ensures Placed(c, n) && Unique(c) && Named(i1, fp, n) ==>
      && Placed(d, n) && Unique(d) && (found <==> fp in View(c))
      && View(d) == if found then View(c)[fp := file] else View(c)
  {
    if found {
      OccupiedSame(c, p, Slot(fp, file));
    }
    if Placed(c, n) && Unique(c) && Named(i1, fp, n) {
      TwoBucketsDecide(c, n, fp, i1);
      if found {
        ViewUpdate(c, p, file);
      }
    }
  }

  /** A zero hash word looks in bucket 0 only, but fingerprint 1 belongs to bucket 1. */
  lemma ZeroWordBuckets(n: nat)
    requires Buckets(n) && n > 1
    ensures IndexHash(0, n) == 0 && AltIndex(0, 1, n) == 0
    ensures forall b: nat :: Named(b, 1, n) ==> b == 1
  {
    IndexInRange(0, n);
    IndexInRange(1, n);
    LowFingerprint(0, n);
    LowFingerprint(1, n);
    SpreadLow(0);
    SpreadLow(1);
  }

  /** In an empty filter a zero-word key is put into bucket 0. */
  method AddZeroWord(f: CuckooFilter, key: nat, file: nat)
    requires f.Exact() && f.model == map[] && f.hasher.High(key) == 0
    modifies f, f.table.cells
    ensures f.Valid() && f.table == old(f.table) && f.isRehashing == old(f.isRehashing) && f.maxKeys == old(f.maxKeys)
    ensures f.numItems == 1 && Reachable(f.table.cells[..], IndexHash(0, f.table.numBuckets), IndexHash(0, f.table.numBuckets), 1)
  {
    assert Unfold(0);
    ghost var c, n := f.table.cells[..], f.table.numBuckets;
    EmptyIsFree(c, 0, n);
    var s, _ := f.Add(key, file);
    RoomAtOnce(c, n, IndexHash(0, n), Slot(1, file), s, f.table.cells[..]);
  }

  /** The condition on the hash word is needed: a zero-word key put into an empty filter
      is found, and no longer found after the next rehash. */
  method ZeroWordKeyIsLost(f: CuckooFilter, key: nat, file: nat) returns (before: bool, ok: bool, after: bool)
    requires f.Exact() && f.model == map[] && !f.isRehashing
    requires f.hasher.High(key) == 0 && 2 <= f.maxKeys && 2 * f.maxKeys <= TWO32
    modifies f, f.table.cells
    ensures before && ok && !after
  {
    AddZeroWord(f, key, file);
    var found, _ := f.Contain(key);
    before := found;
    f.SetRehash();
    ok := f.Rehash();
    var again, _ := f.Contain(key);
    after := again;
  }

  /** Distinct keys of one bucket, with fingerprints that have no other bucket. */
  ghost predicate OneBucket(h: Hasher, n: nat, keys: seq<nat>, b: nat)
    requires n > 0
  {
    && (forall i: nat :: i < |keys| ==> 0 < h.High(keys[i]) < 0x1_0000)
    && (forall i: nat, j: nat :: i < j < |keys| ==> h.High(keys[i]) != h.High(keys[j]))
    && (forall i: nat :: i < |keys| ==> IndexHash(h.High(keys[i]), n) == b)
  }

  ghost function HighsOf(h: Hasher, keys: seq<nat>): set<nat> {
    set k | k in keys :: h.High(k)
  }

  /** With fewer than four slots stored, the next key is added without a kick. */
  method AddWithRoom(f: CuckooFilter, key: nat, file: nat)
    requires f.Exact() && |f.model| < 4 && 0 < f.hasher.High(key) && f.hasher.High(key) !in f.model
    modifies f, f.table.cells
    ensures f.Exact() && f.table == old(f.table) && f.model == old(f.model)[f.hasher.High(key) := file]
  {
    assert Unfold(0);
    ghost var i, c := IndexHash(f.hasher.High(key), f.table.numBuckets), f.table.cells[..];
    IndexInRange(f.hasher.High(key), f.table.numBuckets);
    FourFill(c, i);
    FreshFingerprint(c, f.hasher.High(key));
    FirstFree(c, i, f.hasher.High(key));
    var _, _ := f.Add(key, file);
  }

  /** Add the first four of five keys. */
  method AddFour(f: CuckooFilter, keys: seq<nat>, file: nat, ghost b: nat)
    requires f.Exact() && f.model == map[] && |keys| == 5 && OneBucket(f.hasher, f.table.numBuckets, keys, b)
    modifies f, f.table.cells
    ensures f.Exact() && f.table == old(f.table) && |f.model| == 4 && f.hasher.High(keys[4]) !in f.model
    ensures f.model.Keys <= HighsOf(f.hasher, keys)
  {
    for i := 0 to 4
      invariant f.Exact() && f.table == old(f.table) && |f.model| == i
      invariant forall k: nat :: i <= k < 5 ==> f.hasher.High(keys[k]) !in f.model
      invariant forall h :: h in f.model ==> h in HighsOf(f.hasher, keys)
    {
      assert keys[i] in keys;
      AddWithRoom(f, keys[i], file);
    }
  }

  /** A key confined to crowded buckets is refused, and some slot is dropped. */
  method AddToCrowded(f: CuckooFilter, key: nat, file: nat, ghost buckets: set<nat>) returns (s: Status)
    requires f.Exact() && 0 < f.hasher.High(key) && f.hasher.High(key) !in f.model
    requires Crowded(f.model, f.table.numBuckets, buckets) && Confined(f.hasher.High(key), f.table.numBuckets, buckets)
    modifies f, f.table.cells
    ensures s == IOError && f.Exact() && |f.model| == |old(f.model)|
    ensures f.model.Keys < old(f.model).Keys + {f.hasher.High(key)}
  {
    ghost var dropped, m := EMPTY, f.model;
    s, dropped := f.Add(key, file);
    DroppedOne(m, f.hasher.High(key), file, dropped);
  }

  lemma DroppedOne(m: map<nat, nat>, fp: nat, file: nat, dropped: Slot)
    requires dropped != EMPTY && fp !in m && dropped.fp in m.Keys + {fp}
    ensures var m' := Added(m, Slot(fp, file), dropped); |m'| == |m| && m'.Keys < m.Keys + {fp}
  {
    var m' := Added(m, Slot(fp, file), dropped);
    assert m'.Keys == m.Keys + {fp} - {dropped.fp};
    assert |m'| == |m'.Keys| && |m| == |m.Keys|;
  }

  /** The condition on chains is needed too: of five keys with one and the same bucket the
      last one is refused, and one of the five is lost. */
  method FifthKeyOverflows(f: CuckooFilter, keys: seq<nat>, file: nat, ghost b: nat) returns (s: Status)
    requires f.Exact() && f.model == map[] && |keys| == 5 && OneBucket(f.hasher, f.table.numBuckets, keys, b)
    modifies f, f.table.cells
    ensures s == IOError && f.Exact() && |f.model| == 4 && f.model.Keys < HighsOf(f.hasher, keys)
  {
    assert Unfold(0);
    AddFour(f, keys, file, b);
    OneBucketCrowded(f.hasher, f.table.numBuckets, keys, b, f.model);
    s := AddToCrowded(f, keys[4], file, {b});
  }

  lemma OneBucketCrowded(h: Hasher, n: nat, keys: seq<nat>, b: nat, m: map<nat, nat>)
    requires Buckets(n) && OneBucket(h, n, keys, b) && |keys| == 5 && |m| == 4 && m.Keys <= HighsOf(h, keys)
    ensures Crowded(m, n, {b}) && Confined(h.High(keys[4]), n, {b}) && h.High(keys[4]) in HighsOf(h, keys)
  {
    AllConfined(h, n, keys, b);
    assert ConfinedTo(m, n, {b}) == m.Keys;
    assert |m| == |m.Keys| && |{b}| == 1;
    assert keys[4] in keys;
  }

  lemma AllConfined(h: Hasher, n: nat, keys: seq<nat>, b: nat)
    requires Buckets(n) && OneBucket(h, n, keys, b)
    ensures forall i: nat :: i < |keys| ==> Confined(h.High(keys[i]), n, {b})
    ensures forall fp :: fp in HighsOf(h, keys) ==> Confined(fp, n, {b})
  {
    forall i: nat | i < |keys| ensures Confined(h.High(keys[i]), n, {b}) {
      LowFingerprint(h.High(keys[i]), n);
    }
    forall fp | fp in HighsOf(h, keys) ensures Confined(fp, n, {b}) {
      var k :| k in keys && fp == h.High(k);
      var i: nat :| i < |keys| && keys[i] == k;
    }
  }

  /** Such keys exist: a filter for four keys has two buckets, and odd words share one. */
  method ExhaustedChain() returns (s: Status)
    ensures s == IOError
  {
    var f := new CuckooFilter(4, Hasher(k => k * TWO32));
    assert f.table.numBuckets == 2;
    var keys := [1, 3, 5, 7, 9];
    forall k | k in keys ensures IndexHash(k, 2) == 1 {
      AndMask(k, 1);
    }
    assert forall k: nat :: f.hasher.High(k) == k;
    s := FifthKeyOverflows(f, keys, 0, 1);
  }

  lemma EmptyIsFree(c: seq<Slot>, h: nat, n: nat)
    requires Buckets(n) && |c| == 4 * n && Unique(c) && View(c) == map[]
    ensures Occupied(c) == 0 && forall fp :: FreeIn(c, IndexHash(h, n), fp)
  {
    OccupiedIsSize(c);
    forall s | s in c && s != EMPTY ensures false {
      var p: nat :| p < |c| && c[p] == s;
      ViewAt(c, p);
    }
    assert SlotsOf(c) == {};
    IndexInRange(h, n);
    var q := 4 * IndexHash(h, n);
    if c[q] != EMPTY {
      ViewAt(c, q);
    }
  }

  lemma {:induction false} NoneOccupied(c: seq<Slot>)
    ensures multiset(c)[EMPTY] <= |c|
    ensures Occupied(c) == 0 ==> forall p: nat :: p < |c| ==> c[p] == EMPTY
  {
    if c != [] {
      var b, e := c[..|c| - 1], c[|c| - 1];
      assert c == b + [e];
      NoneOccupied(b);
    }
  }

  lemma FreeWhenEmpty(c: seq<Slot>, i: nat, fp: nat)
    requires 4 * i < |c| && c[4 * i] == EMPTY
    ensures FreeIn(c, i, fp)
  {
  }

  lemma AllEmpty(c: seq<Slot>)
    requires forall p: nat :: p < |c| ==> c[p] == EMPTY
    ensures Occupied(c) == 0 && Unique(c) && View(c) == map[]
  {
    OccupiedIsSize(c);
    assert SlotsOf(c) == {};
  }
}
