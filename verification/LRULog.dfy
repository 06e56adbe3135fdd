/** What the clients of a cache shard can tell from their own calls: which handle and value
    belong to a key, and who holds a handle. */
module LRULog {
  import opened Wrappers
  import opened Bits
  import opened HandleTable
  import opened LRUBooks

  /** Handles are numbered in the order in which they were made. */
  ghost function Inserts(log: seq<Call>): nat {
    if log == [] then 0 else Inserts(log[..|log| - 1]) + if log[|log| - 1].Inserted? then 1 else 0
  }

  /** The call that made a handle. */
  ghost function Maker(log: seq<Call>, h: nat): (c: Call)
    requires h < Inserts(log)
    ensures c.Inserted?
  {
    var n := |log| - 1;
    if h < Inserts(log[..n]) then Maker(log[..n], h) else log[n]
  }

  /** References to a handle that were handed out and not given back. */
  ghost function Held(log: seq<Call>, h: nat): int {
    if log == [] then 0
    else
      var n := |log| - 1;
      Held(log[..n], h) + (
        match log[n]
        case Inserted(_, _, _, _) => if h == Inserts(log[..n]) then 1 else 0
        case LookedUp(_, found) => if h == found then 1 else 0
        case Released(handle) => if h == handle then -1 else 0
        case _ => 0)
  }

  /** At some time since it was made nobody held the handle. */
  ghost predicate Idled(log: seq<Call>, h: nat) {
    log != [] && (Idled(log[..|log| - 1], h) || (h < Inserts(log) && Held(log, h) == 0))
  }

  /** The handle of the last insertion of a key that was cached, if the key was not erased
      since. */
  ghost function Current(log: seq<Call>, k: Key): Option<nat> {
    if log == [] then None
    else
      var n := |log| - 1;
      match log[n]
      case Inserted(key, _, _, cached) => if key == k && cached then Some(Inserts(log[..n])) else Current(log[..n], k)
      case Erased(key) => if key == k then None else Current(log[..n], k)
      case _ => Current(log[..n], k)
  }

  /** The value a key was last given. */
  ghost function LastValue(log: seq<Call>, k: Key): Option<int> {
    if log == [] then None
    else
      var n := |log| - 1;
      match log[n]
      case Inserted(key, value, _, cached) => if key == k && cached then Some(value) else LastValue(log[..n], k)
      case Erased(key) => if key == k then None else LastValue(log[..n], k)
      case _ => LastValue(log[..n], k)
  }

  lemma {:induction false} CurrentMade(log: seq<Call>, k: Key)
    ensures Current(log, k).Some? <==> LastValue(log, k).Some?
    ensures var c := Current(log, k);
      c.Some? ==> c.value < Inserts(log) && Maker(log, c.value).key == k && LastValue(log, k) == Some(Maker(log, c.value).value)
  {
    if log != [] { CurrentMade(log[..|log| - 1], k); }
  }

  // ----- the books agree with the calls

  ghost predicate MadeOk(b: Books, log: seq<Call>, h: nat)
    requires h < Inserts(log)
  {
    var made := Maker(log, h);
    && h in b.keys && b.keys[h] == made.key && h in b.charges && b.charges[h] == made.charge
    && h in b.clients && b.clients[h] == Held(log, h) && (h in b.handles ==> b.handles[h].value == made.value)
  }

  /** The table has the current handle of a key, unless it was evicted, for which it must
      have been idle. */
  ghost predicate EntryOk(b: Books, log: seq<Call>, k: Key) {
    if k in b.entries then Current(log, k) == Some(b.entries[k])
    else Current(log, k).Some? ==> Idled(log, Current(log, k).value)
  }

  ghost predicate Agrees(b: Books, log: seq<Call>) {
    && b.nextId == Inserts(log) && (forall h: nat :: h < Inserts(log) ==> MadeOk(b, log, h))
    && (forall h: nat :: h >= Inserts(log) ==> Held(log, h) == 0) && forall k :: EntryOk(b, log, k)
  }

  lemma EmptyAgrees()
    ensures Agrees(EMPTY, [])
  {
  }

  /** One more call. */
  lemma Logged(log: seq<Call>, call: Call, h: nat, k: Key)
    ensures var l := log + [call];
      && Inserts(l) == Inserts(log) + (if call.Inserted? then 1 else 0)
      && (h < Inserts(log) ==> Maker(l, h) == Maker(log, h))
      && (call.Inserted? ==> Maker(l, Inserts(log)) == call)
      && (Idled(log, h) ==> Idled(l, h))
      && (h < Inserts(l) && Held(l, h) == 0 ==> Idled(l, h))
      && Held(l, h) == Held(log, h) + (
           match call
           case Inserted(_, _, _, _) => if h == Inserts(log) then 1 else 0
           case LookedUp(_, found) => if h == found then 1 else 0
           case Released(handle) => if h == handle then -1 else 0
           case _ => 0)
      && Current(l, k) == (
           match call
           case Inserted(key, _, _, cached) => if key == k && cached then Some(Inserts(log)) else Current(log, k)
           case Erased(key) => if key == k then None else Current(log, k)
           case _ => Current(log, k))
  {
    assert (log + [call])[..|log|] == log;
  }

  /** Handles, tags and table of the two states, as far as clients can tell. */
  ghost predicate SameFace(b: Books, c: Books) {
    && c.nextId == b.nextId && c.keys == b.keys && c.charges == b.charges && c.entries == b.entries
    && forall h :: h in c.handles ==> h in b.handles && c.handles[h].value == b.handles[h].value
  }

  /** A call that touches at most the count of one handle. */
  lemma CountAgrees(b: Books, c: Books, log: seq<Call>, call: Call, e: nat, count: nat)
    requires Agrees(b, log) && SameFace(b, c) && e < Inserts(log) && e in b.clients && c.clients == b.clients[e := count]
    requires (call.LookedUp? && call.found == e && count == b.clients[e] + 1)
      || (call.Released? && call.handle == e && count + 1 == b.clients[e])
    ensures Agrees(c, log + [call])
  {
    var l := log + [call];
    forall h: nat ensures h < Inserts(l) ==> MadeOk(c, l, h)
                  ensures h >= Inserts(l) ==> Held(l, h) == 0
    {
      Logged(log, call, h, Key([], 0));
      if h < Inserts(log) { assert MadeOk(b, log, h); }
    }
    forall k ensures EntryOk(c, l, k) {
      assert EntryOk(b, log, k);
      Logged(log, call, if Current(log, k).Some? then Current(log, k).value else 0, k);
    }
    Logged(log, call, 0, Key([], 0));
  }

  /** A call that gives and takes nothing. */
  lemma QuietAgrees(b: Books, log: seq<Call>, call: Call)
    requires Agrees(b, log) && (call.Pruned? || (call.LookedUp? && call.found == NIL))
    ensures Agrees(b, log + [call])
  {
    var l := log + [call];
    forall h: nat ensures h < Inserts(l) ==> MadeOk(b, l, h)
                  ensures h >= Inserts(l) ==> Held(l, h) == 0
    {
      Logged(log, call, h, Key([], 0));
      if h < Inserts(log) { assert MadeOk(b, log, h); }
    }
    forall k ensures EntryOk(b, l, k) {
      assert EntryOk(b, log, k);
      Logged(log, call, if Current(log, k).Some? then Current(log, k).value else 0, k);
    }
    Logged(log, call, 0, Key([], 0));
  }

  lemma ErasedAgrees(b: Books, c: Books, log: seq<Call>, k0: Key)
    requires Agrees(b, log) && SameFace(b.(entries := b.entries - {k0}), c) && c.clients == b.clients
    ensures Agrees(c, log + [Erased(k0)])
  {
    var call := Erased(k0);
    var l := log + [call];
    forall h: nat ensures h < Inserts(l) ==> MadeOk(c, l, h)
                  ensures h >= Inserts(l) ==> Held(l, h) == 0
    {
      Logged(log, call, h, k0);
      if h < Inserts(log) { assert MadeOk(b, log, h); }
    }
    forall k ensures EntryOk(c, l, k) {
      assert EntryOk(b, log, k);
      Logged(log, call, if Current(log, k).Some? then Current(log, k).value else 0, k);
    }
    Logged(log, call, 0, k0);
  }

  lemma InsertedAgrees(b: Books, c: Books, log: seq<Call>, call: Call)
    requires Agrees(b, log) && call.Inserted?
    requires var e := b.nextId;
      && c.nextId == e + 1 && c.keys == b.keys[e := call.key] && c.charges == b.charges[e := call.charge]
      && c.clients == b.clients[e := 1] && c.entries == (if call.cached then b.entries[call.key := e] else b.entries)
      && (e in c.handles ==> c.handles[e].value == call.value)
      && forall h :: h != e && h in c.handles ==> h in b.handles && c.handles[h].value == b.handles[h].value
    ensures Agrees(c, log + [call])
  {
    var l := log + [call];
    forall h: nat ensures h < Inserts(l) ==> MadeOk(c, l, h)
                  ensures h >= Inserts(l) ==> Held(l, h) == 0
    {
      Logged(log, call, h, call.key);
      if h < Inserts(log) { assert MadeOk(b, log, h); }
    }
    forall k ensures EntryOk(c, l, k) {
      assert EntryOk(b, log, k);
      Logged(log, call, if Current(log, k).Some? then Current(log, k).value else 0, k);
    }
    Logged(log, call, 0, call.key);
  }

  /** Eviction takes idle handles only. */
  lemma EvictAgrees(b: Books, log: seq<Call>, n: nat)
    requires Good(b) && Agrees(b, log) && n <= |b.lru|
    ensures Agrees(Evict(b, n), log)
  {
    var c := Evict(b, n);
    forall h: nat | h < Inserts(log) ensures MadeOk(c, log, h) { assert MadeOk(b, log, h); }
    forall k ensures EntryOk(c, log, k) {
      assert EntryOk(b, log, k);
      if k in b.entries && k !in c.entries { IdleNow(b, log, b.entries[k]); }
    }
  }

  lemma IdleNow(b: Books, log: seq<Call>, h: nat)
    requires Good(b) && Agrees(b, log) && h in b.lru
    ensures Idled(log, h)
  {
    assert HandleOk(b, h);
    assert h < Inserts(log) && MadeOk(b, log, h);
  }

  // ----- every call

  lemma UnrefFace(b: Books, e: nat)
    requires e in b.handles && b.handles[e].refs > 0
    ensures SameFace(b, Unref(b, e)) && Unref(b, e).clients == b.clients
    ensures forall h :: h != e && h in b.handles ==> h in Unref(b, e).handles
  {
  }

  lemma FinishEraseFace(b: Books, e: nat)
    requires Erasable(b, e)
    ensures SameFace(b, FinishErase(b, e)) && FinishErase(b, e).clients == b.clients
    ensures forall h :: h != e && h in b.handles ==> h in FinishErase(b, e).handles
  {
    var c := b.(lru := Without(b.lru, e), inUse := Without(b.inUse, e),
                handles := b.handles[e := b.handles[e].(inCache := false)], usage := b.usage - b.charges[e]);
    UnrefFace(c, e);
  }

  lemma EraseFace(b: Books, k: Key)
    requires k in b.entries ==> Erasable(b, b.entries[k])
    ensures SameFace(b.(entries := b.entries - {k}), Erase(b, k)) && Erase(b, k).clients == b.clients
  {
    if k in b.entries {
      FinishEraseFace(b.(entries := b.entries - {k}), b.entries[k]);
    } else {
      assert b.entries - {k} == b.entries;
    }
  }

  lemma EnterFace(b: Books, e: nat)
    requires e in b.handles && e in b.charges && e in b.keys
    requires b.keys[e] in b.entries ==> Erasable(b, b.entries[b.keys[e]]) && b.entries[b.keys[e]] != e
    ensures SameFace(b.(entries := b.entries[b.keys[e] := e]), Enter(b, e)) && Enter(b, e).clients == b.clients
    ensures e in Enter(b, e).handles
  {
    var c := b.(handles := b.handles[e := b.handles[e].(refs := b.handles[e].refs + 1, inCache := true)],
                inUse := b.inUse + [e], usage := b.usage + b.charges[e], entries := b.entries[b.keys[e] := e]);
    var d := b.(entries := b.entries[b.keys[e] := e]);
    assert SameFace(d, c);
    if b.keys[e] in b.entries { FinishEraseFace(c, b.entries[b.keys[e]]); }
    FaceOn(d, c, Enter(b, e));
  }

  lemma FaceOn(b: Books, c: Books, d: Books)
    requires SameFace(b, c) && SameFace(c, d)
    ensures SameFace(b, d)
  {
  }

  lemma EnteredFace(b: Books, capacity: nat, k: Key, value: int, charge: nat)
    requires Good(b) && (k in b.entries ==> Erasable(Allocate(b, k, value, charge), b.entries[k]))
    ensures var c, e := Entered(b, capacity, k, value, charge), b.nextId;
      && c.nextId == e + 1 && c.keys == b.keys[e := k] && c.charges == b.charges[e := charge]
      && c.clients == b.clients[e := 1] && c.entries == (if capacity > 0 then b.entries[k := e] else b.entries)
      && e in c.handles && c.handles[e].value == value
      && forall h :: h != e && h in c.handles ==> h in b.handles && c.handles[h].value == b.handles[h].value
  {
    assert b.nextId !in b.handles && (k in b.entries ==> b.entries[k] in b.handles) by {
      assert forall h :: h in b.handles ==> HandleOk(b, h);
    }
    if capacity > 0 { EnterFace(Allocate(b, k, value, charge), b.nextId); }
  }

  lemma InsertAgrees(b: Books, c: Books, log: seq<Call>, capacity: nat, k: Key, value: int, charge: nat, n: nat)
    requires Good(b) && Agrees(b, log) && InsertStep(b, c, capacity, k, value, charge, n)
    ensures Agrees(c, log + [Inserted(k, value, charge, capacity > 0)])
  {
    var entered := Entered(b, capacity, k, value, charge);
    EnteredFace(b, capacity, k, value, charge);
    InsertedAgrees(b, entered, log, Inserted(k, value, charge, capacity > 0));
    EnteredGood(b, capacity, k, value, charge);
    EvictAgrees(entered, log + [Inserted(k, value, charge, capacity > 0)], n);
  }

  lemma EnteredGood(b: Books, capacity: nat, k: Key, value: int, charge: nat)
    requires Good(b) && (k in b.entries ==> Erasable(Allocate(b, k, value, charge), b.entries[k]))
    ensures Good(Entered(b, capacity, k, value, charge))
  {
    AllocateGood(b, k, value, charge);
    if capacity > 0 { EnterGood(Allocate(b, k, value, charge), b.nextId); }
  }

  lemma LookupAgrees(b: Books, log: seq<Call>, k: Key)
    requires Good(b) && Agrees(b, log) && k in b.entries && b.entries[k] in b.handles && b.entries[k] in b.clients
    ensures Agrees(Ref(b, b.entries[k]), log + [LookedUp(k, b.entries[k])])
  {
    var e := b.entries[k];
    assert HandleOk(b, e);
    CountAgrees(b, Ref(b, e), log, LookedUp(k, e), e, b.clients[e] + 1);
  }

  lemma ReleaseAgrees(b: Books, log: seq<Call>, h: nat)
    requires Good(b) && Agrees(b, log) && Releasable(b, h)
    ensures Agrees(Release(b, h), log + [Released(h)])
  {
    assert HandleOk(b, h);
    CountAgrees(b, Release(b, h), log, Released(h), h, b.clients[h] - 1);
  }

  lemma EraseAgrees(b: Books, log: seq<Call>, k: Key)
    requires Good(b) && Agrees(b, log) && (k in b.entries ==> Erasable(b, b.entries[k]))
    ensures Agrees(Erase(b, k), log + [Erased(k)])
  {
    EraseFace(b, k);
    ErasedAgrees(b, Erase(b, k), log, k);
  }

  /** Every call keeps the agreement. */
  lemma NextAgrees(b: Books, c: Books, capacity: nat, call: Call, log: seq<Call>)
    requires Good(b) && Agrees(b, log) && Next(b, c, capacity, call)
    ensures Agrees(c, log + [call])
  {
    match call
    case LookedUp(k, found) => if k in b.entries { LookupAgrees(b, log, k); } else { QuietAgrees(b, log, call); }
    case Released(h) => ReleaseAgrees(b, log, h);
    case Erased(k) => EraseAgrees(b, log, k);
    case Inserted(k, value, charge, cached) =>
      var n: nat :| InsertStep(b, c, capacity, k, value, charge, n);
      InsertAgrees(b, c, log, capacity, k, value, charge, n);
    case Pruned =>
      QuietAgrees(b, log, call);
      EvictAgrees(b, log + [call], |b.lru|);
  }

  /** In every state of every run the books agree with the calls so far. */
  lemma {:induction false} RunAgrees(run: seq<Books>, capacities: seq<nat>, calls: seq<Call>, i: nat)
    requires Run(run, capacities, calls) && i < |run|
    ensures Agrees(run[i], calls[..i])
  {
    if i == 0 {
      EmptyAgrees();
    } else {
      RunAgrees(run, capacities, calls, i - 1);
      RunGood(run, capacities, calls, i - 1);
      NextAgrees(run[i - 1], run[i], capacities[i - 1], calls[i - 1], calls[..i - 1]);
      assert calls[..i] == calls[..i - 1] + [calls[i - 1]];
    }
  }

  // ----- what clients get

  /** What the table has for a key is the handle with the value the key was last given; it
      has nothing only if the key was never given one, was erased since, or its handle was
      idle for a time. */
  lemma TableTells(b: Books, log: seq<Call>, k: Key)
    requires Good(b) && Agrees(b, log)
    ensures k in b.entries ==> b.entries[k] in b.handles && LastValue(log, k) == Some(b.handles[b.entries[k]].value)
    ensures k !in b.entries && Current(log, k).Some? ==> Idled(log, Current(log, k).value)
  {
    assert EntryOk(b, log, k);
    CurrentMade(log, k);
    if k in b.entries { assert MadeOk(b, log, b.entries[k]); }
  }

  lemma RunLookup(run: seq<Books>, capacities: seq<nat>, calls: seq<Call>, i: nat)
    requires Run(run, capacities, calls) && i < |calls| && calls[i].LookedUp?
    ensures var h, k := calls[i].found, calls[i].key;
      && (h >= 0 ==> h in run[i].handles && LastValue(calls[..i], k) == Some(run[i].handles[h].value))
      && (h < 0 && Current(calls[..i], k).Some? ==> Idled(calls[..i], Current(calls[..i], k).value))
  {
    RunAgrees(run, capacities, calls, i);
    RunGood(run, capacities, calls, i);
    TableTells(run[i], calls[..i], calls[i].key);
    assert Next(run[i], run[i + 1], capacities[i], calls[i]);
  }

  /** A handle is there, with its value, exactly as long as a client holds it or the table
      has it; when neither is so any more, its deleter has been called, once. */
  lemma HandleLives(b: Books, log: seq<Call>, h: nat)
    requires Good(b) && Agrees(b, log) && h < Inserts(log)
    ensures h in b.handles <==> Held(log, h) > 0 || Tabled(b, h)
    ensures h in b.handles ==> b.handles[h].value == Maker(log, h).value
    ensures h in b.deleted <==> Held(log, h) == 0 && !Tabled(b, h)
    ensures Held(log, h) >= 0
  {
    assert MadeOk(b, log, h);
    if h in b.handles { assert HandleOk(b, h); }
  }

  lemma RunHandles(run: seq<Books>, capacities: seq<nat>, calls: seq<Call>, i: nat, h: nat)
    requires Run(run, capacities, calls) && i < |run| && h < Inserts(calls[..i])
    ensures h in run[i].handles <==> Held(calls[..i], h) > 0 || Tabled(run[i], h)
    ensures h in run[i].handles ==> run[i].handles[h].value == Maker(calls[..i], h).value
    ensures h in run[i].deleted <==> Held(calls[..i], h) == 0 && !Tabled(run[i], h)
  {
    RunAgrees(run, capacities, calls, i);
    RunGood(run, capacities, calls, i);
    HandleLives(run[i], calls[..i], h);
  }

  // ----- the agreement as one fact

  ghost predicate Known(b: Books, log: seq<Call>) {
    forall u {:trigger UnfoldAt(log, u)} :: UnfoldAt(log, u) ==> Agrees(b, log)
  }

  lemma EmptyKnown()
    ensures Known(EMPTY, [])
  {
    EmptyAgrees();
  }

  lemma NextKnown(b: Books, c: Books, capacity: nat, call: Call, log: seq<Call>)
    requires Ok(b) && Known(b, log) && Next(b, c, capacity, call)
    ensures Known(c, log + [call])
  {
    assert UnfoldAt(b, 0) && UnfoldAt(log, 0);
    NextAgrees(b, c, capacity, call, log);
  }

  lemma TableKnown(b: Books, log: seq<Call>, k: Key)
    requires Ok(b) && Known(b, log)
    ensures k in b.entries ==> b.entries[k] in b.handles && LastValue(log, k) == Some(b.handles[b.entries[k]].value)
    ensures k !in b.entries && Current(log, k).Some? ==> Idled(log, Current(log, k).value)
  {
    assert UnfoldAt(b, 0) && UnfoldAt(log, 0);
    TableTells(b, log, k);
  }

  lemma HeldKnown(b: Books, log: seq<Call>, h: nat)
    requires Ok(b) && Known(b, log) && h < Inserts(log) && Held(log, h) > 0
    ensures h in b.handles && b.handles[h].value == Maker(log, h).value && h in b.clients && b.clients[h] > 0
  {
    assert UnfoldAt(b, 0) && UnfoldAt(log, 0);
    HandleLives(b, log, h);
    assert MadeOk(b, log, h);
  }

  /** The new handle has what the caller gave, and the table has it for the key. */
  ghost predicate Stored(b: Books, e: nat, k: Key, value: int, charge: nat, cached: bool) {
    && e in b.handles && b.handles[e].value == value && e in b.charges && b.charges[e] == charge
    && e in b.keys && b.keys[e] == k && (cached ==> k in b.entries && b.entries[k] == e)
  }

  /** It is the caller's, so that no eviction takes it. */
  lemma InsertStores(b: Books, c: Books, capacity: nat, k: Key, value: int, charge: nat, n: nat)
    requires Ok(b) && InsertStep(b, c, capacity, k, value, charge, n)
    ensures Stored(c, b.nextId, k, value, charge, capacity > 0)
  {
    assert UnfoldAt(b, 0);
    EnteredFace(b, capacity, k, value, charge);
    EnteredGood(b, capacity, k, value, charge);
    var entered := Entered(b, capacity, k, value, charge);
    assert HandleOk(entered, b.nextId);
  }
}
