/** The multi-cuckoo index over real filters and a real tree.  Its methods take the steps
    of IndexModel. */
module MultiCuckooIndex {
  import opened Bits
  import opened CuckooTable
  import opened CuckooChain
  import opened CuckooFilter
  import FFPage
  import FFBtree
  import IndexModel

  /** The files of the keys in the tree, through the blocks their pointers name. */
  ghost function TreeFiles(contents: map<int, FFPage.Ptr>, metas: map<nat, nat>): map<nat, nat>
    requires TreeOk(contents, metas)
  {
    map k: nat | k in contents :: metas[contents[k].addr]
  }

  ghost predicate TreeOk(contents: map<int, FFPage.Ptr>, metas: map<nat, nat>) {
    forall k :: k in contents ==> k >= 0 && contents[k].ValuePtr? && contents[k].addr in metas
  }

  method MakeFilters(maxNumKeys: nat, hashers: seq<Hasher>) returns (fs: seq<CuckooFilter>)
    requires maxNumKeys <= TWO32
    ensures |fs| == |hashers|
    ensures forall c, d :: 0 <= c < d < |fs| ==> fs[c] != fs[d] && fs[c].table.cells != fs[d].table.cells
    ensures forall c :: 0 <= c < |fs| ==> fresh(fs[c]) && fresh(fs[c].table.cells)
    ensures forall c :: 0 <= c < |fs| ==> fs[c].Exact() && fs[c].model == map[] && !fs[c].isRehashing
  {
    fs := [];
    for i := 0 to |hashers|
      invariant |fs| == i
      invariant forall c :: 0 <= c < i ==> fresh(fs[c]) && fresh(fs[c].table.cells)
      invariant forall c, d :: 0 <= c < d < i ==> fs[c] != fs[d] && fs[c].table.cells != fs[d].table.cells
      invariant forall c :: 0 <= c < i ==> fs[c].Exact() && fs[c].model == map[] && !fs[c].isRehashing
    {
      var f := new CuckooFilter(maxNumKeys, hashers[i]);
      fs := fs + [f];
    }
  }

  /** Add a slot to a filter.  A failed chain and a load above the threshold both start a
      rehash and report failure. */
  method AddAndCheckLoad(f: CuckooFilter, key: nat, file: nat) returns (s: Status, ghost dropped: Slot)
    requires f.Valid() && !f.isRehashing
    modifies f, f.table.cells
    ensures f.Valid() && f.table == old(f.table)
    ensures f.isRehashing == (s != OK)
    ensures s == OK <==> dropped == EMPTY && 100 * f.numItems <= 85 * (4 * f.table.numBuckets)
    ensures old(f.HasRoom(key, file)) ==> s == OK
    ensures old(f.Exact()) && f.hasher.High(key) != 0 && f.hasher.Fingerprint(key) !in old(f.model) ==>
      && f.Exact() && f.model == Added(old(f.model), Slot(f.hasher.Fingerprint(key), file), dropped)
      && (dropped != EMPTY ==>
            dropped.fp in old(f.model).Keys + {f.hasher.Fingerprint(key)} && f.numKicks == old(f.numKicks) + MAX_CUCKOO - 1)
  {
    s, dropped := f.Add(key, file);
    if s != OK || 100 * f.numItems > 85 * (4 * f.table.numBuckets) {
      f.SetRehash();
      s := NotSupported;
    }
  }

  class Index {
    const filters: seq<CuckooFilter>
    const tree: FFBtree.FFBtree
    var metas: map<nat, nat>
    var nextMeta: nat
    ghost var state: IndexModel.State

    function CfNo(key: nat): (c: nat)
      requires |filters| > 0
      ensures c < |filters| && (|filters| > 1 ==> c < |filters| - 1)
    {
      if |filters| == 1 then 0 else key % (|filters| - 1)
    }

    ghost function Hashes(): IndexModel.Hashing
      requires |filters| > 0
    {
      IndexModel.Hashing(|filters|, k => CfNo(k),
        (c: nat, k: nat) => if c < |filters| then filters[c].hasher.Fingerprint(k) else 0)
    }

    lemma HashesAt(key: nat)
      requires |filters| > 0
      ensures Hashes().cf(key) == CfNo(key) && Hashes().Fp(key) == filters[CfNo(key)].hasher.Fingerprint(key)
      ensures Hashes().n == |filters| && forall k :: Hashes().cf(k) < |filters|
    {
    }

    /** The hash word of the key is not zero. */
    ghost predicate Hashable(key: nat)
      requires |filters| > 0
    {
      filters[CfNo(key)].hasher.High(key) != 0
    }

    ghost function Cells(): set<object>
      reads filters
    {
      set f | f in filters :: f.table.cells
    }

    /** The objects are in order; nothing is said yet about what they store. */
    ghost predicate Ready()
      reads this, tree, filters, Cells()
    {
      && |filters| > 0 && tree.Valid()
      && (forall c, d :: 0 <= c < d < |filters| ==> filters[c] != filters[d] && filters[c].table.cells != filters[d].table.cells)
      && (forall c :: 0 <= c < |filters| ==> filters[c].Valid())
      && TreeOk(tree.contents, metas)
      && (forall a :: a in metas ==> a < nextMeta)
    }

    /** Filter c stores the map m and is, or is not, being rehashed. */
    ghost predicate FilterIs(c: nat, m: map<nat, nat>, rehashing: bool)
      requires c < |filters|
      reads filters[c], filters[c].table.cells
    {
      filters[c].Exact() && filters[c].model == m && filters[c].isRehashing == rehashing
    }

    /** What the filters and the tree store is what the state machine says. */
    ghost predicate Exact()
      reads this, tree, filters, Cells()
    {
      && Ready() && |state.filters| == |filters|
      && (forall c: nat :: c < |filters| ==> FilterIs(c, state.filters[c].model, state.filters[c].rehashing))
      && state.tree == TreeFiles(tree.contents, metas)
    }

    /** Besides, every key written can be read back, but for those that lost a slot. */
    ghost predicate Sound()
      reads this, tree, filters, Cells()
    {
      Exact() && forall u {:trigger UnfoldAt(state, u)} :: UnfoldAt(state, u) ==> IndexModel.Good(Hashes(), state)
    }

    constructor (maxNumKeys: nat, hashers: seq<Hasher>)
      requires maxNumKeys <= TWO32 && |hashers| > 0
      ensures Exact() && IndexModel.Init(Hashes(), state) && Sound()
    {
      var fs := MakeFilters(maxNumKeys, hashers);
      filters := fs;
      tree := new FFBtree.FFBtree();
      metas, nextMeta := map[], 0;
      state := IndexModel.State(seq(|fs|, _ => IndexModel.Filter(map[], false, map[], {})), map[], map[]);
      new;
      IndexModel.InitGood(Hashes(), state);
    }

    /** The tree is asked first; a key that is not there is looked up by fingerprint. */
    method Get(key: nat) returns (file: nat)
      requires Ready()
      ensures Exact() && Hashable(key) ==> file == IndexModel.Get(Hashes(), state, key)
      ensures Sound() && Hashable(key) && key in state.latest && !Lost(key) ==> file == state.latest[key]
    {
      file := Read(key);
      if Sound() && Hashable(key) && key in state.latest && !Lost(key) {
        assert UnfoldAt(state, 0);
        HashesAt(key);
        IndexModel.GetExact(Hashes(), state, key);
      }
    }

    method Read(key: nat) returns (file: nat)
      requires Ready()
      ensures Exact() && Hashable(key) ==> file == IndexModel.Get(Hashes(), state, key)
    {
      var t := tree.Search(key);
      if t != FFPage.Null {
        return metas[t.addr];
      }
      var found, no := filters[CfNo(key)].Contain(key);
      file := if found then no else IndexModel.NOT_FOUND;
      ghost var c := CfNo(key);
      assert Exact() ==> FilterIs(c, state.filters[c].model, state.filters[c].rehashing);
    }

    /** A chain that ran out has dropped the fingerprint of the key. */
    ghost predicate Lost(key: nat)
      requires |state.filters| == |filters| > 0
      reads this
    {
      filters[CfNo(key)].hasher.Fingerprint(key) in state.filters[CfNo(key)].tainted
    }

    /** A step of the state machine keeps the index sound. */
    lemma Stepped(s: IndexModel.State)
      requires Exact() && IndexModel.Good(Hashes(), s) && IndexModel.Next(Hashes(), s, state)
      ensures Sound()
    {
      IndexModel.NextGood(Hashes(), s, state);
    }

    /** Insert a key.  The steps are those of the state machine; a filter that is being
        rehashed is left alone, and one with room takes the key. */
    method Insert(key: nat, file: nat) returns (s: Status)
      requires Ready()
      modifies this, tree, filters[CfNo(key)], filters[CfNo(key)].table.cells
      ensures Ready()
      ensures old(filters[CfNo(key)].isRehashing) ==>
        s == NotSupported && filters[CfNo(key)].table.cells[..] == old(filters[CfNo(key)].table.cells[..])
      ensures old(Exact()) && Hashable(key) ==>
        Exact() && IndexModel.InsertStep(Hashes(), old(state), state, key, file, s == OK)
      ensures !old(filters[CfNo(key)].isRehashing) && old(filters[CfNo(key)].HasRoom(key, file)) ==> s == OK
      ensures old(Sound()) && Hashable(key) ==> Sound()
    {
      ghost var sound, s0 := Sound() && Hashable(key), state;
      s := InsertKey(key, file);
      if sound {
        assert UnfoldAt(s0, 0);
        Stepped(s0);
      }
    }

    /** Whether the filter of a key is being rehashed, and has its fingerprint. */
    method Probe(key: nat) returns (rehashing: bool, found: bool)
      requires Ready()
      ensures rehashing == filters[CfNo(key)].isRehashing
      ensures Exact() && Hashable(key) ==>
        && rehashing == state.filters[CfNo(key)].rehashing
        && (found <==> filters[CfNo(key)].hasher.Fingerprint(key) in state.filters[CfNo(key)].model)
    {
      ghost var c := CfNo(key);
      assert Exact() ==> FilterIs(c, state.filters[c].model, state.filters[c].rehashing);
      rehashing := filters[CfNo(key)].isRehashing;
      var has, _ := filters[CfNo(key)].Contain(key);
      found := has;
    }

    method InsertKey(key: nat, file: nat) returns (s: Status)
      requires Ready()
      modifies this, tree, filters[CfNo(key)], filters[CfNo(key)].table.cells
      ensures Ready()
      ensures old(filters[CfNo(key)].isRehashing) ==>
        s == NotSupported && filters[CfNo(key)].table.cells[..] == old(filters[CfNo(key)].table.cells[..])
      ensures !old(filters[CfNo(key)].isRehashing) && old(filters[CfNo(key)].HasRoom(key, file)) ==> s == OK
      ensures old(Exact()) && Hashable(key) ==>
        Exact() && IndexModel.InsertStep(Hashes(), old(state), state, key, file, s == OK)
    {
      var rehashing, found := Probe(key);
      if rehashing {
        return NotSupported;
      }
      if found {
        WriteToTree(key, file);
        s := OK;
      } else {
        s := AddToFilter(key, file);
      }
    }

    ghost method SetState(next: IndexModel.State)
      requires Ready() && |next.filters| == |filters| && next.tree == TreeFiles(tree.contents, metas)
      requires forall d: nat :: d < |filters| ==> FilterIs(d, next.filters[d].model, next.filters[d].rehashing)
      modifies this`state
      ensures Exact() && state == next
    {
      state := next;
    }

    /** The tree takes the key; no filter changes. */
    method WriteToTree(key: nat, file: nat)
      requires Ready()
      modifies this, tree
      ensures Ready()
      ensures state == old(state).(tree := old(state).tree[key := file], latest := old(state).latest[key := file])
      ensures old(Exact()) ==> Exact()
    {
      var _ := InsertIntoTree(key, file);
      state := state.(tree := state.tree[key := file], latest := state.latest[key := file]);
    }

    method AddOrRehash(key: nat, file: nat) returns (s: Status, ghost dropped: Slot)
      requires Ready() && !filters[CfNo(key)].isRehashing
      modifies filters[CfNo(key)], filters[CfNo(key)].table.cells
      ensures Ready()
      ensures filters[CfNo(key)].isRehashing == (s != OK) && (dropped != EMPTY ==> s != OK)
      ensures old(filters[CfNo(key)].HasRoom(key, file)) ==> s == OK
      ensures var f := filters[CfNo(key)];
        old(f.Exact()) && Hashable(key) && f.hasher.Fingerprint(key) !in old(f.model) ==>
          && f.Exact() && f.model == Added(old(f.model), Slot(f.hasher.Fingerprint(key), file), dropped)
          && (dropped != EMPTY ==> dropped.fp in old(f.model).Keys + {f.hasher.Fingerprint(key)})
      ensures forall d: nat, m, r :: d < |filters| && d != CfNo(key) && old(FilterIs(d, m, r)) ==> FilterIs(d, m, r)
    {
      s, dropped := AddAndCheckLoad(filters[CfNo(key)], key, file);
    }

    /** Put a key with a fresh fingerprint into its filter. */
    method AddToFilter(key: nat, file: nat) returns (s: Status)
      requires Ready() && !filters[CfNo(key)].isRehashing
      modifies this`state, filters[CfNo(key)], filters[CfNo(key)].table.cells
      ensures Ready() && (old(filters[CfNo(key)].HasRoom(key, file)) ==> s == OK)
      ensures old(Exact()) && Hashable(key) && filters[CfNo(key)].hasher.Fingerprint(key) !in old(state.filters[CfNo(key)].model) ==>
        Exact() && IndexModel.InsertStep(Hashes(), old(state), state, key, file, s == OK)
    {
      ghost var c := CfNo(key);
      ghost var fp := filters[c].hasher.Fingerprint(key);
      ghost var exact := Exact() && Hashable(key) && fp !in state.filters[c].model;
      assert exact ==> FilterIs(c, state.filters[c].model, state.filters[c].rehashing);
      ghost var dropped;
      s, dropped := AddOrRehash(key, file);
      if exact {
        HashesAt(key);
        EnteredStep(Hashes(), state, key, file, dropped, s == OK);
        SetState(Entered(state, c, fp, key, file, dropped, s == OK));
      }
    }

    /** Update a key, which should have been written before.  A key known to the tree is updated there
        even while its filter is being rehashed; the filter itself is then left alone.
        NotFound stands for the failed assertion that the filter has the fingerprint. */
    method Update(key: nat, file: nat) returns (s: Status)
      requires Ready()
      modifies this, tree, filters[CfNo(key)], filters[CfNo(key)].table.cells
      ensures Ready()
      ensures old(filters[CfNo(key)].isRehashing) ==>
        filters[CfNo(key)].table.cells[..] == old(filters[CfNo(key)].table.cells[..])
      ensures old(Exact()) && Hashable(key) && s != NotFound ==>
        Exact() && IndexModel.Updates(Hashes(), old(state), state, key, file, s == OK)
      ensures old(Exact()) && Hashable(key) && s == NotFound ==>
        state == old(state) && IndexModel.Get(Hashes(), state, key) == IndexModel.NOT_FOUND
      ensures old(Sound()) && Hashable(key) && key in old(state.latest) && s != NotFound ==> Sound()
    {
      ghost var sound, s0 := Sound() && Hashable(key) && key in state.latest, state;
      s := UpdateKey(key, file);
      if sound && s != NotFound {
        assert UnfoldAt(s0, 0);
        assert IndexModel.UpdateStep(Hashes(), s0, state, key, file, s == OK);
        Stepped(s0);
      }
    }

    method UpdateKey(key: nat, file: nat) returns (s: Status)
      requires Ready()
      modifies this, tree, filters[CfNo(key)], filters[CfNo(key)].table.cells
      ensures Ready()
      ensures old(filters[CfNo(key)].isRehashing) ==>
        filters[CfNo(key)].table.cells[..] == old(filters[CfNo(key)].table.cells[..])
      ensures old(Exact()) && Hashable(key) && s != NotFound ==>
        Exact() && IndexModel.Updates(Hashes(), old(state), state, key, file, s == OK)
      ensures old(Exact()) && Hashable(key) && s == NotFound ==>
        state == old(state) && IndexModel.Get(Hashes(), state, key) == IndexModel.NOT_FOUND
    {
      var res := tree.Search(key);
      if res != FFPage.Null {
        WriteToTree(key, file);
        s := OK;
      } else {
        s := UpdateOutsideTree(key, file);
      }
    }

    /** The part of Update for a key that the tree does not have. */
    method UpdateOutsideTree(key: nat, file: nat) returns (s: Status)
      requires Ready() && key !in tree.contents
      modifies this`state, filters[CfNo(key)], filters[CfNo(key)].table.cells
      ensures Ready()
      ensures old(filters[CfNo(key)].isRehashing) ==>
        filters[CfNo(key)].table.cells[..] == old(filters[CfNo(key)].table.cells[..])
      ensures old(Exact()) && Hashable(key) && s != NotFound ==>
        Exact() && IndexModel.Updates(Hashes(), old(state), state, key, file, s == OK)
      ensures old(Exact()) && Hashable(key) && s == NotFound ==>
        state == old(state) && IndexModel.Get(Hashes(), state, key) == IndexModel.NOT_FOUND
    {
      HashesAt(key);
      var rehashing, found := Probe(key);
      if !found {
        return NotFound;
      }
      if rehashing {
        return NotSupported;
      }
      s := UpdateFilter(key, file);
    }

    method UpdateFilter(key: nat, file: nat) returns (s: Status)
      requires Ready()
      modifies this`state, filters[CfNo(key)], filters[CfNo(key)].table.cells
      ensures Ready() && filters[CfNo(key)].isRehashing == old(filters[CfNo(key)].isRehashing)
      ensures var c, fp := CfNo(key), filters[CfNo(key)].hasher.Fingerprint(key);
        old(Exact()) && Hashable(key) && fp in old(state.filters[c].model) ==>
          && Exact() && s == OK
          && state == old(state).(
               filters := old(state.filters)[c := old(state.filters[c]).(model := old(state.filters[c].model)[fp := file])],
               latest := old(state.latest)[key := file])
    {
      ghost var c, fp := CfNo(key), filters[CfNo(key)].hasher.Fingerprint(key);
      ghost var exact := Exact() && Hashable(key) && fp in state.filters[c].model;
      assert exact ==> FilterIs(c, state.filters[c].model, state.filters[c].rehashing);
      s := filters[CfNo(key)].Update(key, file);
      if exact {
        ghost var next := state.(
          filters := state.filters[c := state.filters[c].(model := state.filters[c].model[fp := file])],
          latest := state.latest[key := file]);
        assert forall d: nat :: d < |filters| && d != c ==> next.filters[d] == state.filters[d];
        SetState(next);
      }
    }

    /** The background thread of a filter replaces its table by a larger one. */
    method FinishRehash(c: nat) returns (ok: bool)
      requires Ready() && c < |filters| && filters[c].isRehashing && 2 * filters[c].maxKeys <= TWO32
      modifies this`state, filters[c]
      ensures ok ==> Ready() && !filters[c].isRehashing
      ensures ok && old(Exact()) ==> Exact() && IndexModel.RehashStep(Hashes(), old(state), state, c)
      ensures !ok && old(Exact()) ==> filters[c].numKicks >= MAX_CUCKOO - 1
      ensures old(Exact()) && old(filters[c].Spreads()) ==> ok
      ensures ok && old(Sound()) ==> Sound()
    {
      ghost var sound, s0 := Sound(), state;
      ok := SwapTable(c);
      if sound && ok {
        assert UnfoldAt(s0, 0);
        Stepped(s0);
      }
    }

    method SwapTable(c: nat) returns (ok: bool)
      requires Ready() && c < |filters| && filters[c].isRehashing && 2 * filters[c].maxKeys <= TWO32
      modifies this`state, filters[c]
      ensures ok ==> Ready() && !filters[c].isRehashing
      ensures ok && old(Exact()) ==> Exact() && IndexModel.RehashStep(Hashes(), old(state), state, c)
      ensures !ok && old(Exact()) ==> filters[c].numKicks >= MAX_CUCKOO - 1
      ensures old(Exact()) && old(filters[c].Spreads()) ==> ok
    {
      ghost var exact := Exact();
      assert exact ==> FilterIs(c, state.filters[c].model, state.filters[c].rehashing);
      ok := filters[c].Rehash();
      if ok && exact {
        HashesAt(0);
        ghost var next := state.(filters := state.filters[c := state.filters[c].(rehashing := false)]);
        assert forall d: nat :: d < |filters| && d != c ==> next.filters[d] == state.filters[d];
        SetState(next);
      }
    }

    /** One turn of the worker: handle the front item and send it to the back of the queue
        when its write was refused, so that no queued item is lost. */
    method RunnerStep(queue: seq<(nat, nat)>, forUpdate: bool) returns (queue': seq<(nat, nat)>, s: Status)
      requires Ready() && queue != []
      modifies this, tree, filters[CfNo(queue[0].0)], filters[CfNo(queue[0].0)].table.cells
      ensures Ready()
      ensures queue' == if s == OK then queue[1..] else queue[1..] + [queue[0]]
      ensures var f := filters[CfNo(queue[0].0)];
        !forUpdate && !old(f.isRehashing) && old(f.HasRoom(queue[0].0, queue[0].1)) ==> s == OK
      ensures old(Exact()) && Hashable(queue[0].0) && !forUpdate ==>
        Exact() && IndexModel.InsertStep(Hashes(), old(state), state, queue[0].0, queue[0].1, s == OK)
      ensures old(Exact()) && Hashable(queue[0].0) && forUpdate && s != NotFound ==>
        Exact() && IndexModel.Updates(Hashes(), old(state), state, queue[0].0, queue[0].1, s == OK)
      ensures old(Sound()) && Hashable(queue[0].0) && (forUpdate ==> queue[0].0 in old(state.latest) && s != NotFound) ==> Sound()
    {
      var (key, file) := queue[0];
      if forUpdate {
        s := Update(key, file);
      } else {
        s := Insert(key, file);
      }
      queue' := if s == OK then queue[1..] else queue[1..] + [queue[0]];
    }

    /** Store the file number in a fresh block and let the tree point to it.  The block that
        is no longer in use is known, and can be freed, unless the leaf was full. */
    method InsertIntoTree(key: nat, file: nat) returns (oldPtr: FFPage.Ptr)
      requires tree.Valid() && TreeOk(tree.contents, metas) && forall a :: a in metas ==> a < nextMeta
      modifies this`metas, this`nextMeta, tree
      ensures tree.Valid() && TreeOk(tree.contents, metas) && forall a :: a in metas ==> a < nextMeta
      ensures TreeFiles(tree.contents, metas) == old(TreeFiles(tree.contents, metas))[key := file]
      ensures oldPtr == if key in old(tree.contents) && old(tree.HasRoom(key)) then old(tree.contents)[key] else FFPage.Null
    {
      var ptr := nextMeta;
      TreeInsert(tree.contents, metas, key, ptr, file);
      nextMeta := nextMeta + 1;
      metas := metas[ptr := file];
      oldPtr := tree.Insert(key, FFPage.ValuePtr(ptr));
    }
  }

  lemma TreeInsert(contents: map<int, FFPage.Ptr>, metas: map<nat, nat>, key: nat, ptr: nat, file: nat)
    requires TreeOk(contents, metas) && ptr !in metas
    ensures FFPage.ValuePtr(ptr) !in contents.Values
    ensures var contents', metas' := contents[key := FFPage.ValuePtr(ptr)], metas[ptr := file];
      TreeOk(contents', metas') && TreeFiles(contents', metas') == TreeFiles(contents, metas)[key := file]
  {
    forall k | k in contents ensures contents[k] != FFPage.ValuePtr(ptr) {
    }
  }

  /** The book-keeping of a slot that has entered filter c. */
  ghost function Entered(s: IndexModel.State, c: nat, fp: nat, key: nat, file: nat, dropped: Slot, ok: bool): IndexModel.State
    requires c < |s.filters|
  {
    var out := if dropped == EMPTY then {} else {dropped.fp};
    var f := s.filters[c];
    s.(
      filters := s.filters[c := IndexModel.Filter(
        Added(f.model, Slot(fp, file), dropped), !ok, f.owners[fp := key] - out, f.tainted + (out - {fp}))],
      latest := if ok then s.latest[key := file] else s.latest)
  }

  lemma EnteredStep(h: IndexModel.Hashing, s: IndexModel.State, key: nat, file: nat, dropped: Slot, ok: bool)
    requires IndexModel.Fits(h, s) && !s.filters[h.cf(key)].rehashing && h.Fp(key) !in s.filters[h.cf(key)].model
    requires dropped != EMPTY ==> !ok && dropped.fp in s.filters[h.cf(key)].model.Keys + {h.Fp(key)}
    ensures IndexModel.InsertStep(h, s, Entered(s, h.cf(key), h.Fp(key), key, file, dropped, ok), key, file, ok)
  {
    var c, fp := h.cf(key), h.Fp(key);
    var out := if dropped == EMPTY then {} else {dropped.fp};
    var s' := Entered(s, c, fp, key, file, dropped, ok);
    assert Added(s.filters[c].model, Slot(fp, file), dropped) == s.filters[c].model[fp := file] - out;
    assert s'.filters[c] == IndexModel.Filter(
      s.filters[c].model[fp := file] - out, !ok, s.filters[c].owners[fp := key] - out, s.filters[c].tainted + (out - {fp}));
    assert IndexModel.Enters(s.filters[c], s'.filters[c], fp, key, file, out);
  }
}
