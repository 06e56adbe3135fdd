/** The bookkeeping of one cache shard as a state machine: which handles are live, who
    holds them, which list they are on and what they are charged. */
module LRUBooks {
  import opened Bits
  import opened HandleTable

  datatype Handle = Handle(refs: nat, inCache: bool, value: int)

  /** lru and inUse run from the oldest handle to the newest. clients counts, for each
      live handle, the references handed out and not yet released. deleted lists the
      handles whose deleter was called, in that order. */
  datatype Books = Books(
    handles: map<nat, Handle>, charges: map<nat, nat>, keys: map<nat, Key>, entries: map<Key, nat>,
    lru: seq<nat>, inUse: seq<nat>, clients: map<nat, nat>, usage: int, nextId: nat, deleted: seq<nat>)

  function Sum(charges: map<nat, nat>, s: seq<nat>): nat {
    if s == [] then 0
    else Sum(charges, s[..|s| - 1]) + if s[|s| - 1] in charges then charges[s[|s| - 1]] else 0
  }

  lemma SumAppend(charges: map<nat, nat>, s: seq<nat>, e: nat)
    requires e in charges
    ensures Sum(charges, s + [e]) == Sum(charges, s) + charges[e]
  {
    assert (s + [e])[..|s|] == s;
  }

  lemma {:induction false} SumCut(charges: map<nat, nat>, s: seq<nat>, p: nat)
    requires p < |s| && s[p] in charges
    ensures Sum(charges, Cut(s, p)) == Sum(charges, s) - charges[s[p]]
  {
    var n := |s| - 1;
    if p == n {
      assert Cut(s, p) == s[..n];
    } else {
      SumCut(charges, s[..n], p);
      assert Cut(s, p)[..n - 1] == Cut(s[..n], p);
      assert Cut(s, p)[n - 1] == s[n];
    }
  }

  lemma {:induction false} SumFrame(charges: map<nat, nat>, s: seq<nat>, e: nat, charge: nat)
    requires e !in s
    ensures Sum(charges[e := charge], s) == Sum(charges, s)
  {
    if s != [] {
      assert s[|s| - 1] in s;
      SumFrame(charges, s[..|s| - 1], e, charge);
    }
  }

  /** A list without e. */
  ghost function Without(s: seq<nat>, e: nat): seq<nat> {
    if e in s then Cut(s, IndexOf(s, e)) else s
  }

  ghost function IndexOf(s: seq<nat>, e: nat): (i: nat)
    requires e in s
    ensures i < |s| && s[i] == e
  {
    var i: nat :| i < |s| && s[i] == e;
    i
  }

  lemma WithoutIs(s: seq<nat>, e: nat)
    requires Distinct(s)
    ensures Distinct(Without(s, e))
    ensures forall h :: h in Without(s, e) <==> h in s && h != e
  {
    if e in s {
      forall h ensures h in Without(s, e) <==> h in s && h != e { CutHas(s, IndexOf(s, e), h); }
    }
  }

  lemma SumWithout(charges: map<nat, nat>, s: seq<nat>, e: nat)
    requires e in s ==> e in charges
    ensures Sum(charges, Without(s, e)) == Sum(charges, s) - if e in s then charges[e] else 0
  {
    if e in s { SumCut(charges, s, IndexOf(s, e)); }
  }

  // ----- the invariant

  /** The table gives this handle for its own key. */
  ghost predicate Tabled(b: Books, h: nat) {
    h in b.keys && b.keys[h] in b.entries && b.entries[b.keys[h]] == h
  }

  /** What holds of every live handle. */
  ghost predicate HandleOk(b: Books, h: nat)
    requires h in b.handles
  {
    var x := b.handles[h];
    && h < b.nextId && h in b.keys && h in b.charges && h in b.clients
    && x.refs > 0 && x.refs == b.clients[h] + (if x.inCache then 1 else 0)
    && (x.inCache <==> Tabled(b, h))
    && (h in b.lru <==> x.inCache && x.refs == 1)
    && (h in b.inUse <==> x.inCache && x.refs >= 2)
  }

  ghost predicate Good(b: Books) {
    && (forall h :: h in b.handles ==> HandleOk(b, h))
    && (forall k :: k in b.entries ==> b.entries[k] in b.handles && b.entries[k] in b.keys && b.keys[b.entries[k]] == k)
    && Listed(b)
    && b.usage == Sum(b.charges, b.lru) + Sum(b.charges, b.inUse)
    && DeletedOnce(b)
    && (forall h :: h in b.clients && b.clients[h] > 0 ==> h in b.handles)
  }

  /** The deleter ran once for each handle that is gone and for no other. */
  ghost predicate DeletedOnce(b: Books) {
    Distinct(b.deleted) && forall h: nat :: h in b.deleted <==> h < b.nextId && h !in b.handles
  }

  ghost predicate Listed(b: Books) {
    Distinct(b.lru) && Distinct(b.inUse) && forall h :: h in b.lru || h in b.inUse ==> h in b.handles
  }

  const EMPTY: Books := Books(map[], map[], map[], map[], [], [], map[], 0, 0, [])

  lemma EmptyGood()
    ensures Good(EMPTY)
  {
  }

  // ----- the operations

  /** Take a reference: a handle nobody used moves to the in-use list. */
  ghost function Ref(b: Books, e: nat): Books
    requires e in b.handles && e in b.clients
  {
    var x := b.handles[e];
    var b' := b.(handles := b.handles[e := x.(refs := x.refs + 1)], clients := b.clients[e := b.clients[e] + 1]);
    if x.refs == 1 && x.inCache then b'.(lru := Without(b.lru, e), inUse := b.inUse + [e]) else b'
  }

  /** Drop a reference: the last one frees the handle, and a cached handle that nobody
      uses any more becomes the newest of the lru list. */
  ghost function Unref(b: Books, e: nat): Books
    requires e in b.handles && b.handles[e].refs > 0
  {
    var x := b.handles[e];
    if x.refs == 1 then b.(handles := b.handles - {e}, deleted := b.deleted + [e])
    else
      var b' := b.(handles := b.handles[e := x.(refs := x.refs - 1)]);
      if x.inCache && x.refs == 2 then b'.(inUse := Without(b.inUse, e), lru := b.lru + [e]) else b'
  }

  ghost function Release(b: Books, e: nat): Books
    requires e in b.handles && b.handles[e].refs > 0 && e in b.clients && b.clients[e] > 0
  {
    Unref(b.(clients := b.clients[e := b.clients[e] - 1]), e)
  }

  /** Drop the cache's own reference to a handle that the table no longer has. */
  ghost function FinishErase(b: Books, e: nat): Books
    requires e in b.handles && b.handles[e].refs > 0 && e in b.charges
  {
    Unref(b.(lru := Without(b.lru, e), inUse := Without(b.inUse, e),
             handles := b.handles[e := b.handles[e].(inCache := false)], usage := b.usage - b.charges[e]), e)
  }

  /** The handle can be taken off: it is live and charged. */
  ghost predicate Erasable(b: Books, e: nat) {
    e in b.handles && b.handles[e].refs > 0 && e in b.charges
  }

  ghost function Erase(b: Books, k: Key): Books
    requires k in b.entries ==> Erasable(b, b.entries[k])
  {
    if k in b.entries then FinishErase(b.(entries := b.entries - {k}), b.entries[k]) else b
  }

  /** A new handle, held by its creator only. */
  ghost function Allocate(b: Books, k: Key, value: int, charge: nat): Books {
    var e := b.nextId;
    b.(nextId := e + 1, handles := b.handles[e := Handle(1, false, value)],
       charges := b.charges[e := charge], keys := b.keys[e := k], clients := b.clients[e := 1])
  }

  /** Enter a handle its creator holds, in place of the one the table had for the key. */
  ghost function Enter(b: Books, e: nat): Books
    requires e in b.handles && e in b.charges && e in b.keys
    requires b.keys[e] in b.entries ==> Erasable(b, b.entries[b.keys[e]])
  {
    var b' := b.(handles := b.handles[e := b.handles[e].(refs := b.handles[e].refs + 1, inCache := true)],
                 inUse := b.inUse + [e], usage := b.usage + b.charges[e], entries := b.entries[b.keys[e] := e]);
    if b.keys[e] in b.entries then FinishErase(b', b.entries[b.keys[e]]) else b'
  }

  // ----- every operation keeps the invariant

  /** The two states differ in nothing that concerns a handle other than e. */
  ghost predicate Elsewhere(b: Books, c: Books, e: nat) {
    forall h {:trigger h in c.handles} :: h != e ==> SameFor(b, c, h)
  }

  ghost predicate SameFor(b: Books, c: Books, h: nat) {
    && (h in c.handles <==> h in b.handles)
    && (h in b.lru <==> h in c.lru) && (h in b.inUse <==> h in c.inUse)
    && (h in b.handles ==>
          && c.handles[h] == b.handles[h] && (Tabled(c, h) <==> Tabled(b, h))
          && (h in b.keys ==> h in c.keys && c.keys[h] == b.keys[h])
          && (h in b.charges ==> h in c.charges) && (h in b.clients ==> h in c.clients && c.clients[h] == b.clients[h]))
  }

  lemma HandlesKept(b: Books, c: Books, e: nat)
    requires forall h :: h in b.handles ==> HandleOk(b, h)
    requires Elsewhere(b, c, e) && b.nextId <= c.nextId
    requires e in c.handles ==> HandleOk(c, e)
    ensures forall h :: h in c.handles ==> HandleOk(c, h)
  {
    forall h | h in c.handles ensures HandleOk(c, h) {
      if h != e { assert SameFor(b, c, h) && HandleOk(b, h); }
    }
  }

  lemma RefElsewhere(b: Books, e: nat)
    requires e in b.handles && e in b.clients && Distinct(b.lru)
    ensures Elsewhere(b, Ref(b, e), e)
  {
    var c := Ref(b, e);
    WithoutIs(b.lru, e);
    forall h | h != e ensures SameFor(b, c, h) {
    }
  }

  lemma RefSelf(b: Books, e: nat)
    requires e in b.handles && HandleOk(b, e) && Distinct(b.lru)
    ensures HandleOk(Ref(b, e), e)
  {
    WithoutIs(b.lru, e);
    assert e in b.inUse + [e];
  }

  lemma RefGood(b: Books, e: nat)
    requires Good(b) && e in b.handles
    ensures e in b.clients && Good(Ref(b, e))
  {
    assert HandleOk(b, e);
    var c := Ref(b, e);
    RefElsewhere(b, e);
    RefSelf(b, e);
    HandlesKept(b, c, e);
    WithoutIs(b.lru, e);
    SumWithout(b.charges, b.lru, e);
    SumAppend(b.charges, b.inUse, e);
  }

  lemma UnrefDeletes(b: Books, e: nat)
    requires DeletedOnce(b) && e in b.handles && b.handles[e].refs > 0 && e < b.nextId
    ensures DeletedOnce(Unref(b, e))
  {
    if b.handles[e].refs == 1 {
      var s := b.deleted + [e];
      forall h: nat ensures h in s <==> h < b.nextId && h !in b.handles - {e} {
      }
    }
  }

  lemma ReleaseElsewhere(b: Books, e: nat)
    requires e in b.handles && e in b.clients && b.clients[e] > 0 && b.handles[e].refs > 0 && Distinct(b.inUse)
    ensures Elsewhere(b, Release(b, e), e)
  {
    var c := Release(b, e);
    WithoutIs(b.inUse, e);
    forall h | h != e ensures SameFor(b, c, h) {
    }
  }

  lemma ReleaseSelf(b: Books, e: nat)
    requires e in b.handles && HandleOk(b, e) && b.clients[e] > 0 && Distinct(b.inUse)
    ensures e in Release(b, e).handles ==> HandleOk(Release(b, e), e)
  {
    WithoutIs(b.inUse, e);
    assert e in b.lru + [e];
  }

  lemma ReleaseLists(b: Books, e: nat)
    requires Listed(b) && e in b.handles && HandleOk(b, e) && b.clients[e] > 0
    ensures var c := Release(b, e);
      && Listed(c) && Sum(c.charges, c.lru) + Sum(c.charges, c.inUse) == Sum(b.charges, b.lru) + Sum(b.charges, b.inUse)
  {
    WithoutIs(b.inUse, e);
    SumWithout(b.charges, b.inUse, e);
    SumAppend(b.charges, b.lru, e);
  }

  lemma ReleaseGood(b: Books, e: nat)
    requires Good(b) && e in b.handles && e in b.clients && b.clients[e] > 0
    ensures b.handles[e].refs > 0 && Good(Release(b, e))
  {
    assert HandleOk(b, e);
    var c := Release(b, e);
    ReleaseElsewhere(b, e);
    ReleaseSelf(b, e);
    ReleaseLists(b, e);
    UnrefDeletes(b.(clients := b.clients[e := b.clients[e] - 1]), e);
    HandlesKept(b, c, e);
  }

  lemma EraseElsewhere(b: Books, k: Key)
    requires k in b.entries && Erasable(b, b.entries[k]) && Distinct(b.lru) && Distinct(b.inUse)
    requires b.entries[k] in b.keys && b.keys[b.entries[k]] == k
    ensures Elsewhere(b, Erase(b, k), b.entries[k])
  {
    var e, c := b.entries[k], Erase(b, k);
    WithoutIs(b.lru, e);
    WithoutIs(b.inUse, e);
    forall h | h != e ensures SameFor(b, c, h) {
    }
  }

  lemma EraseSelf(b: Books, k: Key)
    requires k in b.entries && Erasable(b, b.entries[k]) && HandleOk(b, b.entries[k])
    requires Distinct(b.lru) && Distinct(b.inUse) && b.keys[b.entries[k]] == k
    ensures var e := b.entries[k];
      e in Erase(b, k).handles ==> HandleOk(Erase(b, k), e)
  {
    WithoutIs(b.lru, b.entries[k]);
    WithoutIs(b.inUse, b.entries[k]);
  }

  lemma EraseGood(b: Books, k: Key)
    requires Good(b)
    ensures k in b.entries ==> Erasable(b, b.entries[k])
    ensures Good(Erase(b, k))
  {
    if k in b.entries {
      var e := b.entries[k];
      assert HandleOk(b, e);
      var c := Erase(b, k);
      EraseElsewhere(b, k);
      EraseSelf(b, k);
      HandlesKept(b, c, e);
      WithoutIs(b.lru, e);
      WithoutIs(b.inUse, e);
      SumWithout(b.charges, b.lru, e);
      SumWithout(b.charges, b.inUse, e);
    }
  }

  lemma AllocateElsewhere(b: Books, k: Key, value: int, charge: nat)
    requires forall k' :: k' in b.entries ==> b.entries[k'] != b.nextId
    ensures Elsewhere(b, Allocate(b, k, value, charge), b.nextId)
  {
    var c := Allocate(b, k, value, charge);
    forall h | h != b.nextId ensures SameFor(b, c, h) {
    }
  }

  lemma AllocateGood(b: Books, k: Key, value: int, charge: nat)
    requires Good(b)
    ensures Good(Allocate(b, k, value, charge))
  {
    var e, c := b.nextId, Allocate(b, k, value, charge);
    assert forall h :: h in b.handles ==> HandleOk(b, h);
    assert e !in b.handles && e !in b.lru && e !in b.inUse;
    AllocateElsewhere(b, k, value, charge);
    HandlesKept(b, c, e);
    SumFrame(b.charges, b.lru, e, charge);
    SumFrame(b.charges, b.inUse, e, charge);
  }

  /** Enter a handle under a key the table does not have. */
  ghost function Add(b: Books, e: nat): Books
    requires e in b.handles && e in b.charges && e in b.keys
  {
    b.(handles := b.handles[e := b.handles[e].(refs := b.handles[e].refs + 1, inCache := true)],
       inUse := b.inUse + [e], usage := b.usage + b.charges[e], entries := b.entries[b.keys[e] := e])
  }

  lemma AddElsewhere(b: Books, e: nat)
    requires e in b.handles && e in b.charges && e in b.keys && b.keys[e] !in b.entries
    ensures Elsewhere(b, Add(b, e), e)
  {
    var c := Add(b, e);
    forall h | h != e ensures SameFor(b, c, h) {
    }
  }

  lemma AddSelf(b: Books, e: nat)
    requires e in b.handles && HandleOk(b, e) && !b.handles[e].inCache
    ensures HandleOk(Add(b, e), e)
  {
    assert e in b.inUse + [e];
  }

  lemma AddGood(b: Books, e: nat)
    requires Good(b) && e in b.handles && !b.handles[e].inCache && b.keys[e] !in b.entries
    ensures Good(Add(b, e))
  {
    assert HandleOk(b, e);
    var c := Add(b, e);
    AddElsewhere(b, e);
    AddSelf(b, e);
    HandlesKept(b, c, e);
    SumAppend(b.charges, b.inUse, e);
  }

  lemma WithoutAppend(s: seq<nat>, e: nat, x: nat)
    requires Distinct(s) && e !in s && x != e
    ensures Without(s + [e], x) == Without(s, x) + [e]
  {
    var t := s + [e];
    assert x in t <==> x in s;
    if x in s {
      var i, j := IndexOf(s, x), IndexOf(t, x);
      assert t[i] == x && j < |s|;
      assert i == j;
    }
  }

  /** Entering a handle is erasing the one the table had for the key and then adding it. */
  lemma EnterCommutes(b: Books, e: nat, k: Key)
    requires e in b.handles && e in b.charges && e in b.keys && b.keys[e] == k && k in b.entries
    requires Erasable(b, b.entries[k]) && b.entries[k] != e && Distinct(b.inUse) && e !in b.inUse
    ensures Enter(b, e) == Add(Erase(b, k), e)
  {
    var was := b.entries[k];
    WithoutAppend(b.inUse, e, was);
    var c, d := Enter(b, e), Add(Erase(b, k), e);
    assert c.entries == d.entries;
    assert c.handles == d.handles;
  }

  lemma EnterIs(b: Books, e: nat)
    requires Good(b) && e in b.handles && !b.handles[e].inCache
    requires b.keys[e] in b.entries ==> Erasable(b, b.entries[b.keys[e]])
    ensures e in b.charges && e in b.keys
    ensures var b' := Erase(b, b.keys[e]);
      && e in b'.handles && !b'.handles[e].inCache && b'.keys == b.keys && b'.charges == b.charges
      && b.keys[e] !in b'.entries && Enter(b, e) == Add(b', e)
  {
    assert HandleOk(b, e);
    if b.keys[e] in b.entries {
      EnterCommutes(b, e, b.keys[e]);
    }
  }

  lemma EnterGood(b: Books, e: nat)
    requires Good(b) && e in b.handles && !b.handles[e].inCache
    ensures e in b.keys && e in b.charges && (b.keys[e] in b.entries ==> Erasable(b, b.entries[b.keys[e]]))
    ensures Good(Enter(b, e))
  {
    assert HandleOk(b, e);
    EraseGood(b, b.keys[e]);
    EnterIs(b, e);
    AddGood(Erase(b, b.keys[e]), e);
  }

  // ----- eviction

  /** The oldest idle handle is cached under its own key, and erasing that key deletes it. */
  lemma OldestGoes(b: Books)
    requires Good(b) && b.lru != []
    ensures var e := b.lru[0];
      && e in b.handles && e in b.keys && b.handles[e].refs == 1 && Tabled(b, e) && Erasable(b, e)
      && var c := Erase(b, b.keys[e]);
      && c.lru == b.lru[1..] && c.inUse == b.inUse && c.deleted == b.deleted + [e]
      && c.handles == b.handles - {e} && c.usage == b.usage - b.charges[e]
      && c.entries == b.entries - {b.keys[e]} && SameTags(b, c)
  {
    var e := b.lru[0];
    assert e in b.lru && HandleOk(b, e);
    assert IndexOf(b.lru, e) == 0;
    assert b.handles[e := b.handles[e].(inCache := false)] - {e} == b.handles - {e};
    assert Cut(b.lru, 0) == b.lru[1..];
  }

  ghost predicate SameTags(b: Books, c: Books) {
    c.charges == b.charges && c.keys == b.keys && c.clients == b.clients && c.nextId == b.nextId
  }

  ghost function Kept(entries: map<Key, nat>, gone: seq<nat>): map<Key, nat> {
    map k | k in entries && entries[k] !in gone :: entries[k]
  }

  /** The state after the n oldest idle handles are evicted. */
  ghost function Evict(b: Books, n: nat): Books
    requires n <= |b.lru|
  {
    b.(lru := b.lru[n..], deleted := b.deleted + b.lru[..n], usage := b.usage - Sum(b.charges, b.lru[..n]),
       handles := b.handles - (set h | h in b.lru[..n]), entries := Kept(b.entries, b.lru[..n]))
  }

  /** Each of the first n evictions happened because the charge was above the capacity. */
  ghost predicate Needed(b: Books, n: nat, capacity: int)
    requires n <= |b.lru|
  {
    forall m: nat :: m < n ==> b.usage - Sum(b.charges, b.lru[..m]) > capacity
  }

  lemma NeededNext(b: Books, n: nat, capacity: int)
    requires n < |b.lru| && Needed(b, n, capacity) && Evict(b, n).usage > capacity
    ensures Needed(b, n + 1, capacity)
  {
  }

  lemma EvictNone(b: Books)
    ensures Evict(b, 0) == b
  {
    assert b.lru[..0] == [] && b.lru[0..] == b.lru;
    assert Kept(b.entries, []) == b.entries;
  }

  lemma KeptDrop(entries: map<Key, nat>, gone: seq<nat>, k: Key)
    requires k in entries && entries[k] !in gone
    requires forall k' :: k' in entries && entries[k'] == entries[k] ==> k' == k
    ensures Kept(entries, gone) - {k} == Kept(entries, gone + [entries[k]])
  {
  }

  lemma OnlyKey(b: Books, e: nat)
    requires Good(b) && e in b.lru
    ensures e in b.keys && Tabled(b, e) && e in b.charges
    ensures forall k :: k in b.entries && b.entries[k] == e ==> k == b.keys[e]
  {
    assert HandleOk(b, e);
  }

  /** One eviction after n others makes n + 1. */
  lemma EvictNext(b: Books, n: nat, d: Books)
    requires n < |b.lru| && b.lru[n] in b.keys && Tabled(b, b.lru[n]) && b.lru[n] in b.charges
    requires Distinct(b.lru)
    requires forall k :: k in b.entries && b.entries[k] == b.lru[n] ==> k == b.keys[b.lru[n]]
    requires var c, e := Evict(b, n), b.lru[n];
      && d.lru == c.lru[1..] && d.inUse == c.inUse && d.deleted == c.deleted + [e]
      && d.handles == c.handles - {e} && d.usage == c.usage - c.charges[e]
      && d.entries == c.entries - {c.keys[e]} && SameTags(c, d)
    ensures d == Evict(b, n + 1)
  {
    var e := b.lru[n];
    assert b.lru[..n + 1] == b.lru[..n] + [e];
    SumAppend(b.charges, b.lru[..n], e);
    assert (b.deleted + b.lru[..n]) + [e] == b.deleted + b.lru[..n + 1];
    HandlesDrop(b.handles, b.lru[..n], e);
    KeptDrop(b.entries, b.lru[..n], b.keys[e]);
    assert b.lru[n..][1..] == b.lru[n + 1..];
  }

  lemma EvictOne(b: Books, n: nat)
    requires Good(b) && n < |b.lru| && Good(Evict(b, n))
    ensures var c := Evict(b, n);
      && c.lru[0] in c.keys && Tabled(c, c.lru[0]) && Erasable(c, c.lru[0])
      && Erase(c, c.keys[c.lru[0]]) == Evict(b, n + 1)
  {
    var c := Evict(b, n);
    assert c.lru[0] == b.lru[n];
    OldestGoes(c);
    OnlyKey(b, b.lru[n]);
    EvictNext(b, n, Erase(c, c.keys[c.lru[0]]));
  }

  lemma HandlesDrop(handles: map<nat, Handle>, gone: seq<nat>, e: nat)
    ensures handles - (set h | h in gone) - {e} == handles - (set h | h in gone + [e])
  {
  }

  // ----- every run

  /** The calls as a client sees them: what it passes, what it gets back, and whether the
      cache had a capacity when it inserted. */
  datatype Call =
    | Inserted(key: Key, value: int, charge: nat, cached: bool)
    | LookedUp(key: Key, found: int)
    | Released(handle: nat)
    | Erased(key: Key)
    | Pruned

  /** One call on a shard with the given capacity. */
  ghost predicate Next(b: Books, c: Books, capacity: nat, call: Call) {
    match call
    case LookedUp(k, found) =>
      if k in b.entries then
        b.entries[k] in b.handles && b.entries[k] in b.clients && found == b.entries[k] && c == Ref(b, b.entries[k])
      else found == NIL && c == b
    case Released(h) => Releasable(b, h) && c == Release(b, h)
    case Erased(k) => (k in b.entries ==> Erasable(b, b.entries[k])) && c == Erase(b, k)
    case Inserted(k, value, charge, cached) =>
      cached == (capacity > 0) && exists n: nat :: InsertStep(b, c, capacity, k, value, charge, n)
    case Pruned => c == Evict(b, |b.lru|)
  }

  ghost predicate Releasable(b: Books, h: nat) {
    h in b.handles && b.handles[h].refs > 0 && h in b.clients && b.clients[h] > 0
  }

  ghost function Entered(b: Books, capacity: nat, k: Key, value: int, charge: nat): Books
    requires k in b.entries ==> Erasable(Allocate(b, k, value, charge), b.entries[k])
  {
    var a := Allocate(b, k, value, charge);
    if capacity == 0 then a else Enter(a, b.nextId)
  }

  ghost predicate InsertStep(b: Books, c: Books, capacity: nat, k: Key, value: int, charge: nat, n: nat) {
    && (k in b.entries ==> Erasable(Allocate(b, k, value, charge), b.entries[k]))
    && var entered := Entered(b, capacity, k, value, charge);
    && n <= |entered.lru| && c == Evict(entered, n)
    && Needed(entered, n, capacity)
    && (c.usage <= capacity || c.lru == [])
  }

  lemma {:induction false} EvictGood(b: Books, n: nat)
    requires Good(b) && n <= |b.lru|
    ensures Good(Evict(b, n))
    decreases n
  {
    if n == 0 {
      EvictNone(b);
    } else {
      EvictGood(b, n - 1);
      EvictOne(b, n - 1);
      var c := Evict(b, n - 1);
      EraseGood(c, c.keys[c.lru[0]]);
    }
  }

  lemma NextGood(b: Books, c: Books, capacity: nat, call: Call)
    requires Good(b) && Next(b, c, capacity, call)
    ensures Good(c)
  {
    match call
    case LookedUp(k, found) => if k in b.entries { RefGood(b, b.entries[k]); }
    case Released(h) => ReleaseGood(b, h);
    case Erased(k) => EraseGood(b, k);
    case Inserted(k, value, charge, cached) =>
      var n: nat :| InsertStep(b, c, capacity, k, value, charge, n);
      InsertGood(b, c, capacity, k, value, charge, n);
    case Pruned => EvictGood(b, |b.lru|);
  }

  lemma InsertGood(b: Books, c: Books, capacity: nat, k: Key, value: int, charge: nat, n: nat)
    requires Good(b) && InsertStep(b, c, capacity, k, value, charge, n)
    ensures Good(c)
  {
    AllocateGood(b, k, value, charge);
    if capacity > 0 {
      EnterGood(Allocate(b, k, value, charge), b.nextId);
    }
    EvictGood(Entered(b, capacity, k, value, charge), n);
  }

  /** A run of a shard, whose capacity may be set between calls. */
  ghost predicate Run(run: seq<Books>, capacities: seq<nat>, calls: seq<Call>) {
    && |run| > 0 && |capacities| + 1 == |calls| + 1 == |run| && run[0] == EMPTY
    && forall i: nat :: i < |calls| ==> Next(run[i], run[i + 1], capacities[i], calls[i])
  }

  /** In every state of every run, table, lists, reference counts, charges and deleter
      calls agree. */
  lemma {:induction false} RunGood(run: seq<Books>, capacities: seq<nat>, calls: seq<Call>, i: nat)
    requires Run(run, capacities, calls) && i < |run|
    ensures Good(run[i])
  {
    if i == 0 {
      EmptyGood();
    } else {
      RunGood(run, capacities, calls, i - 1);
      NextGood(run[i - 1], run[i], capacities[i - 1], calls[i - 1]);
    }
  }

  // ----- the order of eviction

  /** In a list, x comes before y. */
  ghost predicate Precedes(s: seq<nat>, x: nat, y: nat) {
    exists i: nat, j: nat :: i < j < |s| && s[i] == x && s[j] == y
  }

  /** Handles that stay on a list keep their order, and one that is put on it comes last. */
  ghost predicate InTurn(s: seq<nat>, t: seq<nat>) {
    forall x, y :: Precedes(t, x, y) ==> Precedes(s, x, y) || (x in s && y !in s)
  }

  lemma WithoutInTurn(s: seq<nat>, e: nat)
    ensures InTurn(s, Without(s, e))
  {
    if e in s {
      var p := IndexOf(s, e);
      var t := Cut(s, p);
      forall x, y | Precedes(t, x, y) ensures Precedes(s, x, y) {
        var i: nat, j: nat :| i < j < |t| && t[i] == x && t[j] == y;
        var i', j' := if i < p then i else i + 1, if j < p then j else j + 1;
        assert s[i'] == x && s[j'] == y;
      }
    }
  }

  lemma AppendInTurn(s: seq<nat>, e: nat)
    requires e !in s
    ensures InTurn(s, s + [e])
  {
    var t := s + [e];
    forall x, y | Precedes(t, x, y) ensures Precedes(s, x, y) || (x in s && y !in s) {
      var i: nat, j: nat :| i < j < |t| && t[i] == x && t[j] == y;
      assert s[i] == x && (j < |s| ==> s[j] == y);
    }
  }

  lemma DropInTurn(s: seq<nat>, n: nat)
    requires n <= |s|
    ensures InTurn(s, s[n..]) && forall x, y :: Precedes(s[n..], x, y) ==> Precedes(s, x, y)
  {
    forall x, y | Precedes(s[n..], x, y) ensures Precedes(s, x, y) {
      var i: nat, j: nat :| i < j < |s| - n && s[n..][i] == x && s[n..][j] == y;
      assert s[n + i] == x && s[n + j] == y;
    }
  }

  lemma BothInTurn(s: seq<nat>, t: seq<nat>, u: seq<nat>)
    requires InTurn(s, t) && forall x, y :: Precedes(u, x, y) ==> Precedes(t, x, y)
    ensures InTurn(s, u)
  {
  }

  /** Entering a handle only takes others off the lru list. */
  lemma EnteredInTurn(b: Books, capacity: nat, k: Key, value: int, charge: nat)
    requires Good(b) && (k in b.entries ==> Erasable(Allocate(b, k, value, charge), b.entries[k]))
    ensures InTurn(b.lru, Entered(b, capacity, k, value, charge).lru)
  {
    var a := Allocate(b, k, value, charge);
    AllocateGood(b, k, value, charge);
    if k in b.entries {
      WithoutInTurn(b.lru, b.entries[k]);
    }
  }

  lemma RefInTurn(b: Books, e: nat)
    requires e in b.handles && e in b.clients
    ensures InTurn(b.lru, Ref(b, e).lru)
  {
    WithoutInTurn(b.lru, e);
  }

  lemma ReleaseInTurn(b: Books, e: nat)
    requires Releasable(b, e) && HandleOk(b, e)
    ensures InTurn(b.lru, Release(b, e).lru)
  {
    if e !in b.lru { AppendInTurn(b.lru, e); }
  }

  lemma EraseInTurn(b: Books, k: Key)
    requires k in b.entries ==> Erasable(b, b.entries[k])
    ensures InTurn(b.lru, Erase(b, k).lru)
  {
    if k in b.entries { WithoutInTurn(b.lru, b.entries[k]); }
  }

  lemma InsertInTurn(b: Books, c: Books, capacity: nat, k: Key, value: int, charge: nat, n: nat)
    requires Good(b) && InsertStep(b, c, capacity, k, value, charge, n)
    ensures InTurn(b.lru, c.lru)
  {
    EnteredInTurn(b, capacity, k, value, charge);
    var entered := Entered(b, capacity, k, value, charge);
    DropInTurn(entered.lru, n);
    BothInTurn(b.lru, entered.lru, c.lru);
  }

  lemma NextInTurn(b: Books, c: Books, capacity: nat, call: Call)
    requires Good(b) && Next(b, c, capacity, call)
    ensures InTurn(b.lru, c.lru)
  {
    match call
    case LookedUp(k, found) => if k in b.entries { RefInTurn(b, b.entries[k]); }
    case Released(h) => ReleaseInTurn(b, h);
    case Erased(k) => EraseInTurn(b, k);
    case Inserted(k, value, charge, cached) =>
      var n: nat :| InsertStep(b, c, capacity, k, value, charge, n);
      InsertInTurn(b, c, capacity, k, value, charge, n);
    case Pruned => DropInTurn(b.lru, |b.lru|);
  }

  /** When a handle on the lru list was put there. */
  ghost function IdleSince(run: seq<Books>, i: nat, h: nat): (since: nat)
    requires i < |run| && h in run[i].lru
    ensures since <= i
  {
    if i > 0 && h in run[i - 1].lru then IdleSince(run, i - 1, h) else i
  }

  /** In every state of every run the lru list is in the order in which its handles became
      idle, so that the one evicted first is the one that was unused the longest. */
  lemma {:induction false} RunInTurn(run: seq<Books>, capacities: seq<nat>, calls: seq<Call>, i: nat, x: nat, y: nat)
    requires Run(run, capacities, calls) && i < |run| && Precedes(run[i].lru, x, y)
    ensures x in run[i].lru && y in run[i].lru && IdleSince(run, i, x) < IdleSince(run, i, y)
  {
    if i > 0 {
      StepInTurn(run, capacities, calls, i);
      if Precedes(run[i - 1].lru, x, y) { RunInTurn(run, capacities, calls, i - 1, x, y); }
    }
  }

  lemma StepInTurn(run: seq<Books>, capacities: seq<nat>, calls: seq<Call>, i: nat)
    requires Run(run, capacities, calls) && 0 < i < |run|
    ensures InTurn(run[i - 1].lru, run[i].lru)
  {
    RunGood(run, capacities, calls, i - 1);
    NextInTurn(run[i - 1], run[i], capacities[i - 1], calls[i - 1]);
  }

  // ----- the invariant as one fact

  ghost predicate Ok(b: Books) {
    forall u {:trigger UnfoldAt(b, u)} :: UnfoldAt(b, u) ==> Good(b)
  }

  lemma EmptyOk()
    ensures Ok(EMPTY)
  {
    EmptyGood();
  }

  lemma Open(b: Books, e: nat)
    requires Ok(b) && e in b.handles
    ensures HandleOk(b, e) && Distinct(b.lru) && Distinct(b.inUse)
    ensures b.handles[e].inCache ==> e in b.lru || e in b.inUse
  {
    assert UnfoldAt(b, 0);
  }

  lemma RefOk(b: Books, e: nat)
    requires Ok(b) && e in b.handles
    ensures e in b.clients && Ok(Ref(b, e))
  {
    assert UnfoldAt(b, 0);
    RefGood(b, e);
  }

  lemma ReleaseOk(b: Books, e: nat)
    requires Ok(b) && e in b.handles && e in b.clients && b.clients[e] > 0
    ensures b.handles[e].refs > 0 && Ok(Release(b, e))
  {
    assert UnfoldAt(b, 0);
    ReleaseGood(b, e);
  }

  lemma TabledOk(b: Books, k: Key)
    requires Ok(b) && k in b.entries
    ensures b.entries[k] in b.handles && b.handles[b.entries[k]].inCache
  {
    assert UnfoldAt(b, 0);
    assert HandleOk(b, b.entries[k]);
  }

  lemma EraseOk(b: Books, k: Key)
    requires Ok(b)
    ensures k in b.entries ==> Erasable(b, b.entries[k])
    ensures Ok(Erase(b, k))
  {
    assert UnfoldAt(b, 0);
    EraseGood(b, k);
  }

  lemma AllocateOk(b: Books, k: Key, value: int, charge: nat)
    requires Ok(b)
    ensures Ok(Allocate(b, k, value, charge)) && Free(b.entries, b.nextId)
    ensures k in b.entries ==> Erasable(Allocate(b, k, value, charge), b.entries[k])
  {
    assert UnfoldAt(b, 0);
    AllocateGood(b, k, value, charge);
    assert forall h :: h in b.handles ==> HandleOk(b, h);
  }

  lemma EnterOk(b: Books, e: nat)
    requires Ok(b) && e in b.handles && !b.handles[e].inCache
    ensures e in b.keys && e in b.charges && (b.keys[e] in b.entries ==> Erasable(b, b.entries[b.keys[e]]))
    ensures Ok(Enter(b, e)) && Free(b.entries, e) && e !in b.lru && e !in b.inUse
    ensures b.keys[e] in b.entries ==> CachedIn(b, b.entries[b.keys[e]])
  {
    assert UnfoldAt(b, 0);
    EnterGood(b, e);
    assert HandleOk(b, e);
    forall k | k in b.entries ensures b.entries[k] != e { TabledOk(b, k); }
    if b.keys[e] in b.entries {
      TabledOk(b, b.keys[e]);
      Open(b, b.entries[b.keys[e]]);
    }
  }

  ghost predicate CachedIn(b: Books, h: nat) {
    h in b.handles && b.handles[h].inCache && (h in b.lru || h in b.inUse)
  }

  lemma OldestOk(b: Books, n: nat)
    requires Ok(b) && n < |b.lru| && Ok(Evict(b, n))
    ensures var c := Evict(b, n);
      && c.lru[0] in c.keys && Tabled(c, c.lru[0]) && Erasable(c, c.lru[0]) && c.handles[c.lru[0]].refs == 1
      && Erase(c, c.keys[c.lru[0]]) == Evict(b, n + 1)
  {
    assert UnfoldAt(b, 0);
    assert UnfoldAt(Evict(b, n), 0);
    EvictOne(b, n);
    OldestGoes(Evict(b, n));
  }
}
