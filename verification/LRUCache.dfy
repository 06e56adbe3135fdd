/** One shard of the cache: the hash table, the two circular lists and the handles. */
module LRUCache {
  import opened Wrappers
  import opened Bits
  import opened HandleTable
  import opened LRUList
  import B = LRUBooks
  import L = LRULog

  class LRUCache {
    const table: HandleTable
    var capacity: nat
    var usage: int
    var next: map<int, int>
    var prev: map<int, int>
    var handles: map<nat, B.Handle>
    var charges: map<nat, nat>
    var nextId: nat
    var deleted: seq<nat>
    ghost var lru: seq<nat>
    ghost var inUse: seq<nat>
    ghost var clients: map<nat, nat>
    ghost var log: seq<B.Call>

    ghost function State(): B.Books
      reads this, table
    {
      B.Books(handles, charges, table.keys, table.entries, lru, inUse, clients, usage, nextId, deleted)
    }

    ghost predicate Wired()
      reads this
    {
      Ringed(next, prev, lru, inUse)
    }

    ghost predicate Valid()
      reads this, table
    {
      table.Valid() && Wired() && B.Ok(State())
    }

    /** The state is what the calls so far have made of it. */
    ghost predicate Logged()
      reads this, table
    {
      L.Known(State(), log)
    }

    constructor (capacity: nat)
      ensures Valid() && Logged() && this.capacity == capacity && fresh(table)
      ensures State() == B.EMPTY && log == []
    {
      this.capacity, usage, nextId, deleted, lru, inUse := capacity, 0, 0, [], [], [];
      handles, charges, clients, log := map[], map[], map[], [];
      next, prev := EmptyLinks(), EmptyLinks();
      table := new HandleTable();
      new;
      EmptyRings();
      B.EmptyOk();
      L.EmptyKnown();
    }

    /** Take a handle off the list it is on. */
    method LruRemove(e: nat)
      requires Wired() && (e in lru || e in inUse)
      modifies this`next, this`prev, this`lru, this`inUse
      ensures Wired() && lru == B.Without(old(lru), e) && inUse == B.Without(old(inUse), e)
    {
      assert UnfoldAt(next, 0);
      ghost var idle := e in lru;
      RingsCut(next, prev, lru, inUse, idle, B.IndexOf(if idle then lru else inUse, e));
      next, prev := JoinNext(next, prev, e), JoinPrev(next, prev, e);
      lru, inUse := B.Without(lru, e), B.Without(inUse, e);
    }

    /** Make a handle that is on no list the newest of one of them. */
    method LruAppend(idle: bool, e: nat)
      requires Wired() && e !in lru && e !in inUse
      modifies this`next, this`prev, this`lru, this`inUse
      ensures Wired()
      ensures lru == if idle then old(lru) + [e] else old(lru)
      ensures inUse == if idle then old(inUse) else old(inUse) + [e]
    {
      assert UnfoldAt(next, 0);
      RingsAppend(next, prev, lru, inUse, idle, e);
      var head := Head(idle);
      next, prev := AppendNext(next, prev, head, e), AppendPrev(next, prev, head, e);
      if idle { lru := lru + [e]; } else { inUse := inUse + [e]; }
    }

    method Move(e: nat, idle: bool)
      requires Wired() && e in (if idle then inUse else lru) && e !in (if idle then lru else inUse)
      modifies this`next, this`prev, this`lru, this`inUse
      ensures Wired()
      ensures lru == if idle then old(lru) + [e] else B.Without(old(lru), e)
      ensures inUse == if idle then B.Without(old(inUse), e) else old(inUse) + [e]
    {
      assert UnfoldAt(next, 0);
      B.WithoutIs(lru, e);
      B.WithoutIs(inUse, e);
      LruRemove(e);
      LruAppend(idle, e);
    }

    method Ref(e: nat)
      requires Valid() && e in handles
      modifies this`next, this`prev, this`lru, this`inUse, this`handles, this`clients
      ensures e in old(clients) && Valid() && State() == B.Ref(old(State()), e)
    {
      B.Open(State(), e);
      B.RefOk(State(), e);
      if handles[e].refs == 1 && handles[e].inCache {
        Move(e, false);
      }
      handles := handles[e := handles[e].(refs := handles[e].refs + 1)];
      clients := clients[e := clients[e] + 1];
    }

    /** Drop one reference to a handle. */
    method Unref(e: nat)
      requires Wired() && e in handles && handles[e].refs > 0
      requires handles[e].inCache && handles[e].refs == 2 ==> e in inUse && e !in lru
      modifies this`next, this`prev, this`lru, this`inUse, this`handles, this`deleted
      ensures Wired() && State() == B.Unref(old(State()), e)
    {
      var x := handles[e];
      if x.refs == 1 {
        deleted, handles := deleted + [e], handles - {e};
      } else {
        handles := handles[e := x.(refs := x.refs - 1)];
        if x.inCache && x.refs == 2 {
          Move(e, true);
        }
      }
    }

    /** Give back a handle that the caller holds. */
    method Release(e: nat)
      requires Valid() && Logged() && e < L.Inserts(log) && L.Held(log, e) > 0
      modifies this`next, this`prev, this`lru, this`inUse, this`handles, this`deleted, this`clients, this`log
      ensures Valid() && Logged() && log == old(log) + [B.Released(e)]
      ensures B.Releasable(old(State()), e) && State() == B.Release(old(State()), e)
    {
      L.HeldKnown(State(), log, e);
      ghost var b := State();
      B.Open(b, e);
      B.ReleaseOk(b, e);
      clients := clients[e := clients[e] - 1];
      Unref(e);
      L.NextKnown(b, State(), capacity, B.Released(e), log);
      log := log + [B.Released(e)];
    }

    /** The value in a handle that the caller holds: the one it was made with. */
    method Value(e: nat) returns (value: int)
      requires Valid() && Logged() && e < L.Inserts(log) && L.Held(log, e) > 0
      ensures value == L.Maker(log, e).value
    {
      L.HeldKnown(State(), log, e);
      value := handles[e].value;
    }

    /** Finish taking a handle out of the cache; the table no longer has it. */
    method FinishErase(id: int) returns (found: bool)
      requires Wired()
      requires id >= 0 ==> B.Erasable(State(), id) && handles[id].inCache && (id in lru || id in inUse)
      modifies this`next, this`prev, this`lru, this`inUse, this`handles, this`deleted, this`usage
      ensures Wired() && found == (id >= 0)
      ensures State() == if id >= 0 then B.FinishErase(old(State()), id) else old(State())
    {
      found := id >= 0;
      if found {
        var e: nat := id;
        LruRemove(e);
        handles := handles[e := handles[e].(inCache := false)];
        usage := usage - charges[e];
        Unref(e);
      }
    }

    /** Forget a key. */
    method Erase(k: Key)
      requires Valid() && Logged()
      modifies this`next, this`prev, this`lru, this`inUse, this`handles, this`deleted, this`usage, this`log
      modifies table
      ensures k in old(table.entries) ==> B.Erasable(old(State()), old(table.entries)[k])
      ensures Valid() && Logged() && State() == B.Erase(old(State()), k) && log == old(log) + [B.Erased(k)]
      ensures k !in table.entries
    {
      ghost var b := State();
      Remove(k);
      L.NextKnown(b, State(), capacity, B.Erased(k), log);
      log := log + [B.Erased(k)];
    }

    /** Take a key out of table and lists. */
    method Remove(k: Key)
      requires Valid()
      modifies this`next, this`prev, this`lru, this`inUse, this`handles, this`deleted, this`usage
      modifies table
      ensures k in old(table.entries) ==> B.Erasable(old(State()), old(table.entries)[k])
      ensures Valid() && State() == B.Erase(old(State()), k)
    {
      B.EraseOk(State(), k);
      if k in table.entries {
        B.TabledOk(State(), k);
        B.Open(State(), table.entries[k]);
      }
      DropSize(table.entries, k);
      var id := table.Remove(k);
      var found := FinishErase(id);
    }

    /** The handle for a key, with a reference taken for the caller. Its value is the one the
        key was last given; there is none only if the key has no value, or nobody held its
        handle for a time. */
    method Lookup(k: Key) returns (id: int)
      requires Valid() && Logged()
      modifies this`next, this`prev, this`lru, this`inUse, this`handles, this`clients, this`log
      ensures Valid() && Logged() && log == old(log) + [B.LookedUp(k, id)]
      ensures id == if k in table.entries then table.entries[k] else NIL
      ensures id >= 0 ==> id in handles && L.LastValue(old(log), k) == Some(handles[id].value)
      ensures id < 0 ==> L.Current(old(log), k).Some? ==> L.Idled(old(log), L.Current(old(log), k).value)
      ensures id >= 0 ==> id in old(handles) && id in old(clients) && State() == B.Ref(old(State()), id)
      ensures id < 0 ==> State() == old(State())
    {
      ghost var b := State();
      L.TableKnown(b, log, k);
      id := table.Lookup(k);
      if id != NIL {
        B.TabledOk(State(), k);
        Ref(id);
      }
      L.NextKnown(b, State(), capacity, B.LookedUp(k, id), log);
      log := log + [B.LookedUp(k, id)];
    }

    /** The oldest idle handle, or the list head when there is none. */
    method Oldest() returns (id: int)
      requires Wired()
      ensures id == if lru == [] then LRU else lru[0]
    {
      assert UnfoldAt(next, 0);
      assert StepAt(next, prev, LRU, lru, 0);
      id := next[LRU];
    }

    /** Evict the oldest idle handle, after n others. */
    method EvictOldest(e: nat, ghost start: B.Books, ghost n: nat)
      requires Valid() && B.Ok(start) && n < |start.lru| && State() == B.Evict(start, n) && e == lru[0]
      modifies this`next, this`prev, this`lru, this`inUse, this`handles, this`deleted, this`usage
      modifies table
      ensures Valid() && State() == B.Evict(start, n + 1)
    {
      B.OldestOk(start, n);
      assert handles[e].refs == 1;
      Remove(table.keys[e]);
    }

    /** Evict idle handles, oldest first, until the charge fits the capacity. */
    method Shrink() returns (ghost n: nat)
      requires Valid()
      modifies this`next, this`prev, this`lru, this`inUse, this`handles, this`deleted, this`usage
      modifies table
      ensures Valid() && n <= |old(lru)|
      ensures State() == B.Evict(old(State()), n) && B.Needed(old(State()), n, capacity)
      ensures usage <= capacity || lru == []
    {
      ghost var start := State();
      n := 0;
      B.EvictNone(start);
      var e := Oldest();
      while usage > capacity && e != LRU
        invariant Valid() && n <= |start.lru| && State() == B.Evict(start, n) && B.Needed(start, n, capacity)
        invariant e == if lru == [] then LRU else lru[0]
        decreases |start.lru| - n
      {
        B.NeededNext(start, n, capacity);
        EvictOldest(e, start, n);
        n := n + 1;
        e := Oldest();
      }
    }

    /** Evict every idle handle. */
    method Prune()
      requires Valid() && Logged()
      modifies this`next, this`prev, this`lru, this`inUse, this`handles, this`deleted, this`usage, this`log
      modifies table
      ensures Valid() && Logged() && log == old(log) + [B.Pruned]
      ensures lru == [] && State() == B.Evict(old(State()), |old(lru)|)
    {
      ghost var b := State();
      EvictAll();
      L.NextKnown(b, State(), capacity, B.Pruned, log);
      log := log + [B.Pruned];
    }

    method EvictAll()
      requires Valid()
      modifies this`next, this`prev, this`lru, this`inUse, this`handles, this`deleted, this`usage
      modifies table
      ensures Valid() && lru == [] && State() == B.Evict(old(State()), |old(lru)|)
    {
      ghost var start := State();
      ghost var n := 0;
      B.EvictNone(start);
      var e := Oldest();
      while e != LRU
        invariant Valid() && n <= |start.lru| && State() == B.Evict(start, n)
        invariant e == if lru == [] then LRU else lru[0]
        decreases |start.lru| - n
      {
        EvictOldest(e, start, n);
        n := n + 1;
        e := Oldest();
      }
    }

    /** A new handle that only its creator holds. */
    method Allocate(k: Key, value: int, charge: nat) returns (e: nat)
      requires Valid()
      modifies this`handles, this`charges, this`nextId, this`clients, table`keys
      ensures e == old(nextId) && Valid() && State() == B.Allocate(old(State()), k, value, charge)
    {
      B.AllocateOk(State(), k, value, charge);
      e := nextId;
      table.SetKey(e, k);
      nextId, handles := nextId + 1, handles[e := B.Handle(1, false, value)];
      charges, clients := charges[e := charge], clients[e := 1];
    }

    /** Count a handle in, as the newest one in use. */
    method Enlist(e: nat)
      requires Wired() && e in handles && e in charges && e !in lru && e !in inUse
      modifies this`next, this`prev, this`lru, this`inUse, this`handles, this`usage
      ensures Wired() && lru == old(lru) && inUse == old(inUse) + [e] && usage == old(usage) + charges[e]
      ensures handles == old(handles)[e := old(handles)[e].(refs := old(handles)[e].refs + 1, inCache := true)]
    {
      handles := handles[e := handles[e].(refs := handles[e].refs + 1, inCache := true)];
      LruAppend(false, e);
      usage := usage + charges[e];
    }

    /** Put a handle into the cache, in place of the one the table had for its key. */
    method Enter(e: nat)
      requires Valid() && e in handles && !handles[e].inCache
      modifies this`next, this`prev, this`lru, this`inUse, this`handles, this`deleted, this`usage
      modifies table
      ensures var b := old(State());
        e in b.keys && e in b.charges && (b.keys[e] in b.entries ==> B.Erasable(b, b.entries[b.keys[e]]))
      ensures Valid() && State() == B.Enter(old(State()), e)
    {
      B.EnterOk(State(), e);
      Enlist(e);
      var was := table.Insert(e);
      var found := FinishErase(was);
    }

    /** Create a handle for the caller and, unless the capacity is zero, cache it. */
    method AddNew(k: Key, value: int, charge: nat) returns (e: nat)
      requires Valid()
      modifies this, table
      ensures Valid() && capacity == old(capacity) && log == old(log) && e == old(nextId)
      ensures var b := old(State());
        && (k in b.entries ==> B.Erasable(B.Allocate(b, k, value, charge), b.entries[k]))
        && State() == B.Entered(b, capacity, k, value, charge)
    {
      B.AllocateOk(State(), k, value, charge);
      e := Allocate(k, value, charge);
      if capacity > 0 {
        Enter(e);
      }
    }

    /** Create and cache a handle, then evict idle handles while the charge does not fit. The
        handle has what the caller gave; it is the one the table has for the key, and stays
        there at least as long as the caller holds it. */
    method Insert(k: Key, value: int, charge: nat) returns (e: nat, ghost n: nat)
      requires Valid() && Logged()
      modifies this, table
      ensures Valid() && Logged() && capacity == old(capacity) && e == old(nextId)
      ensures log == old(log) + [B.Inserted(k, value, charge, capacity > 0)]
      ensures e in handles && handles[e].value == value && e in charges && charges[e] == charge
      ensures e in table.keys && table.keys[e] == k
      ensures capacity > 0 ==> k in table.entries && table.entries[k] == e
      ensures B.InsertStep(old(State()), State(), capacity, k, value, charge, n)
    {
      ghost var b := State();
      e, n := InsertNew(k, value, charge);
      L.InsertStores(b, State(), capacity, k, value, charge, n);
      L.NextKnown(b, State(), capacity, B.Inserted(k, value, charge, capacity > 0), log);
      log := log + [B.Inserted(k, value, charge, capacity > 0)];
    }

    method InsertNew(k: Key, value: int, charge: nat) returns (e: nat, ghost n: nat)
      requires Valid()
      modifies this, table
      ensures Valid() && capacity == old(capacity) && log == old(log) && e == old(nextId)
      ensures B.InsertStep(old(State()), State(), capacity, k, value, charge, n)
    {
      e := AddNew(k, value, charge);
      n := Shrink();
    }
  }
}
