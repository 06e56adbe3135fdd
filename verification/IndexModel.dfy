/** The multi-cuckoo index as a state machine over what its filters and its tree store.
    A filter keeps one file number per fingerprint, so it confuses keys; the tree is
    exact.  A ghost book records which key owns each stored fingerprint. */
module IndexModel {

  const NOT_FOUND: nat := 0xffff_ffff

  datatype Filter = Filter(
    model: map<nat, nat>,
    rehashing: bool,
    owners: map<nat, nat>,
    tainted: set<nat>)

  /** `latest` maps each key to the file number of its latest completed write. */
  datatype State = State(filters: seq<Filter>, tree: map<nat, nat>, latest: map<nat, nat>)

  /** How keys are spread over n filters and turned into fingerprints. */
  datatype Hashing = Hashing(n: nat, cf: nat -> nat, fp: (nat, nat) -> nat) {
    function Fp(key: nat): nat {
      fp(cf(key), key)
    }
  }

  ghost predicate Fits(h: Hashing, s: State) {
    |s.filters| == h.n && forall k :: h.cf(k) < h.n
  }

  /** The tree is asked first, then the filter of the key. */
  function Get(h: Hashing, s: State, key: nat): nat
    requires h.cf(key) < |s.filters|
  {
    if key in s.tree then s.tree[key]
    else
      var m := s.filters[h.cf(key)].model;
      if h.Fp(key) in m then m[h.Fp(key)] else NOT_FOUND
  }

  // ----- steps

  /** A slot enters a filter.  A chain that runs out pushes out some slot instead of
      finding a free one: possibly the new slot itself, otherwise another key's. */
  ghost predicate Enters(f: Filter, f': Filter, fp: nat, key: nat, file: nat, out: set<nat>) {
    && |out| <= 1 && out <= f.model.Keys + {fp}
    && f'.model == f.model[fp := file] - out
    && f'.owners == f.owners[fp := key] - out
    && f'.tainted == f.tainted + (out - {fp})
    && (out != {} ==> f'.rehashing)
  }

  /** An insertion is refused while the filter is rehashing, goes to the tree when the
      fingerprint is taken, and otherwise enters the filter; when that starts a rehash
      it reports failure although the slot may be in. */
  ghost predicate InsertStep(h: Hashing, s: State, s': State, key: nat, file: nat, ok: bool)
    requires Fits(h, s)
  {
    var c, fp := h.cf(key), h.Fp(key);
    if s.filters[c].rehashing then s' == s && !ok
    else if fp in s.filters[c].model then
      ok && s' == s.(tree := s.tree[key := file], latest := s.latest[key := file])
    else
      && |s'.filters| == |s.filters| && s'.filters == s.filters[c := s'.filters[c]]
      && (exists out :: Enters(s.filters[c], s'.filters[c], fp, key, file, out))
      && ok == !s'.filters[c].rehashing
      && s'.tree == s.tree
      && s'.latest == if ok then s.latest[key := file] else s.latest
  }

  /** What an update does.  The tree takes it even during a rehash; the filter refuses it
      then.  Nothing checks that the slot of the fingerprint is the key's own. */
  ghost predicate Updates(h: Hashing, s: State, s': State, key: nat, file: nat, ok: bool)
    requires Fits(h, s)
  {
    var c, fp := h.cf(key), h.Fp(key);
    if key in s.tree then
      ok && s' == s.(tree := s.tree[key := file], latest := s.latest[key := file])
    else if s.filters[c].rehashing then s' == s && !ok
    else
      && fp in s.filters[c].model && ok
      && s' == s.(
           filters := s.filters[c := s.filters[c].(model := s.filters[c].model[fp := file])],
           latest := s.latest[key := file])
  }

  /** An update of a key that has been written before. */
  ghost predicate UpdateStep(h: Hashing, s: State, s': State, key: nat, file: nat, ok: bool)
    requires Fits(h, s)
  {
    key in s.latest && Updates(h, s, s', key, file, ok)
  }

  ghost predicate RehashStep(h: Hashing, s: State, s': State, c: nat)
    requires Fits(h, s)
  {
    && c < h.n && s.filters[c].rehashing
    && s' == s.(filters := s.filters[c := s.filters[c].(rehashing := false)])
  }

  ghost predicate Next(h: Hashing, s: State, s': State)
    requires Fits(h, s)
  {
    || (exists key, file, ok :: InsertStep(h, s, s', key, file, ok))
    || (exists key, file, ok :: UpdateStep(h, s, s', key, file, ok))
    || (exists c :: RehashStep(h, s, s', c))
  }

  ghost predicate Init(h: Hashing, s: State) {
    && Fits(h, s) && s.tree == map[] && s.latest == map[]
    && forall c: nat :: c < h.n ==> s.filters[c] == Filter(map[], false, map[], {})
  }

  // ----- the invariant

  /** Every stored fingerprint has exactly one owner, a key of that filter with it. */
  ghost predicate Owned(h: Hashing, s: State)
    requires Fits(h, s)
  {
    forall c: nat :: c < h.n ==>
      && s.filters[c].owners.Keys == s.filters[c].model.Keys
      && forall f :: f in s.filters[c].owners ==> h.cf(s.filters[c].owners[f]) == c && h.fp(c, s.filters[c].owners[f]) == f
  }

  ghost predicate Tainted(h: Hashing, s: State, key: nat)
    requires Fits(h, s)
  {
    h.Fp(key) in s.filters[h.cf(key)].tainted
  }

  /** The key is in the tree with its latest value, or owns its slot with it. */
  ghost predicate Stored(h: Hashing, s: State, key: nat)
    requires Fits(h, s) && key in s.latest
  {
    var f, fp := s.filters[h.cf(key)], h.Fp(key);
    if key in s.tree then s.tree[key] == s.latest[key]
    else fp in f.model && fp in f.owners && f.owners[fp] == key && f.model[fp] == s.latest[key]
  }

  ghost predicate Good(h: Hashing, s: State) {
    && Fits(h, s) && Owned(h, s)
    && (forall k :: k in s.tree ==> h.Fp(k) in s.filters[h.cf(k)].model || Tainted(h, s, k))
    && (forall k :: k in s.latest && !Tainted(h, s, k) ==> Stored(h, s, k))
  }

  lemma InitGood(h: Hashing, s: State)
    requires Init(h, s)
    ensures Good(h, s)
  {
  }

  /** Reads are exact for every key whose fingerprint no exhausted chain has dropped. */
  lemma GetExact(h: Hashing, s: State, key: nat)
    requires Good(h, s) && key in s.latest && !Tainted(h, s, key)
    ensures Get(h, s, key) == s.latest[key]
  {
    assert Stored(h, s, key);
  }

  /** The key of a slot that enters the filter is new to the index, or was tainted. */
  lemma EnterNew(h: Hashing, s: State, key: nat)
    requires Good(h, s) && h.Fp(key) !in s.filters[h.cf(key)].model && !Tainted(h, s, key)
    ensures key !in s.tree && key !in s.latest
  {
    assert key in s.latest ==> Stored(h, s, key);
  }

  lemma EnterOwned(h: Hashing, s: State, s': State, key: nat, file: nat, out: set<nat>)
    requires Good(h, s) && |s'.filters| == |s.filters|
    requires s'.filters == s.filters[h.cf(key) := s'.filters[h.cf(key)]]
    requires Enters(s.filters[h.cf(key)], s'.filters[h.cf(key)], h.Fp(key), key, file, out)
    ensures Owned(h, s')
  {
    var c := h.cf(key);
    assert forall d: nat :: d < h.n && d != c ==> s'.filters[d] == s.filters[d];
  }

  lemma EnterKeeps(h: Hashing, s: State, s': State, key: nat, file: nat, out: set<nat>, k: nat)
    requires Good(h, s) && |s'.filters| == |s.filters| && s'.tree == s.tree && k != key
    requires s'.filters == s.filters[h.cf(key) := s'.filters[h.cf(key)]]
    requires Enters(s.filters[h.cf(key)], s'.filters[h.cf(key)], h.Fp(key), key, file, out)
    requires h.Fp(key) !in s.filters[h.cf(key)].model
    requires k in s.latest && k in s'.latest && s'.latest[k] == s.latest[k] && !Tainted(h, s', k)
    ensures Stored(h, s', k)
  {
    var d := h.cf(k);
    assert d != h.cf(key) ==> s'.filters[d] == s.filters[d];
    assert Stored(h, s, k);
  }

  lemma EnterGood(h: Hashing, s: State, s': State, key: nat, file: nat, ok: bool)
    requires Good(h, s) && InsertStep(h, s, s', key, file, ok)
    requires !s.filters[h.cf(key)].rehashing && h.Fp(key) !in s.filters[h.cf(key)].model
    ensures Good(h, s')
  {
    var c, fp := h.cf(key), h.Fp(key);
    var out :| Enters(s.filters[c], s'.filters[c], fp, key, file, out);
    EnterOwned(h, s, s', key, file, out);
    forall k | k in s'.tree ensures h.Fp(k) in s'.filters[h.cf(k)].model || Tainted(h, s', k) {
      assert h.cf(k) != c ==> s'.filters[h.cf(k)] == s.filters[h.cf(k)];
      assert h.Fp(k) in s.filters[h.cf(k)].model || Tainted(h, s, k);
    }
    forall k | k in s'.latest && !Tainted(h, s', k) ensures Stored(h, s', k) {
      if k != key {
        EnterKeeps(h, s, s', key, file, out, k);
      } else {
        EnterNew(h, s, key);
      }
    }
  }

  /** The exception is real: a key pushed out by another key's chain is not found. */
  lemma DroppedIsLost(h: Hashing, s: State, s': State, key: nat, file: nat, out: nat)
    requires Good(h, s) && h.Fp(key) !in s.filters[h.cf(key)].model
    requires |s'.filters| == |s.filters| && s'.tree == s.tree
    requires Enters(s.filters[h.cf(key)], s'.filters[h.cf(key)], h.Fp(key), key, file, {out})
    requires out != h.Fp(key)
    ensures out in s.filters[h.cf(key)].owners
    ensures var k := s.filters[h.cf(key)].owners[out]; k !in s.tree ==> Get(h, s', k) == NOT_FOUND
  {
    var c := h.cf(key);
    assert out in {out};
    assert out in s.filters[c].model.Keys;
    var k := s.filters[c].owners[out];
    assert h.cf(k) == c && h.Fp(k) == out;
  }

  lemma TreeGood(h: Hashing, s: State, s': State, key: nat, file: nat)
    requires Good(h, s) && (h.Fp(key) in s.filters[h.cf(key)].model || key in s.tree)
    requires s' == s.(tree := s.tree[key := file], latest := s.latest[key := file])
    ensures Good(h, s')
  {
    forall k | k in s'.latest && !Tainted(h, s', k) ensures Stored(h, s', k) {
      if k != key { assert Stored(h, s, k); }
    }
  }

  lemma UpdateGood(h: Hashing, s: State, s': State, key: nat, file: nat, ok: bool)
    requires Good(h, s) && UpdateStep(h, s, s', key, file, ok)
    ensures Good(h, s')
  {
    if key in s.tree {
      TreeGood(h, s, s', key, file);
    } else if ok {
      var c := h.cf(key);
      assert forall d: nat :: d < h.n && d != c ==> s'.filters[d] == s.filters[d];
      forall k | k in s'.latest && !Tainted(h, s', k) ensures Stored(h, s', k) {
        assert Stored(h, s, k);
        assert k != key && k !in s.tree && h.cf(k) == c ==> h.Fp(k) != h.Fp(key) by {
          assert !Tainted(h, s, key) ==> Stored(h, s, key);
        }
      }
      forall k | k in s'.tree ensures h.Fp(k) in s'.filters[h.cf(k)].model || Tainted(h, s', k) {
        assert h.Fp(k) in s.filters[h.cf(k)].model || Tainted(h, s, k);
      }
    }
  }

  /** Neither key is in the tree and they have one slot between them. */
  ghost predicate Shares(h: Hashing, s: State, key: nat, k: nat) {
    key !in s.tree && k !in s.tree && h.cf(k) == h.cf(key) && h.Fp(k) == h.Fp(key)
  }

  /** An update of any key leaves the read of another one right if and only if the two do not
      share a slot, or the file number happens to be the same. */
  lemma UpdateElsewhere(h: Hashing, s: State, s': State, key: nat, file: nat, k: nat)
    requires Good(h, s) && Updates(h, s, s', key, file, true) && k != key && k in s.latest && !Tainted(h, s, k)
    ensures Get(h, s', k) == s.latest[k] <==> !Shares(h, s, key, k) || file == s.latest[k]
  {
    GetExact(h, s, k);
    assert h.cf(k) != h.cf(key) ==> s'.filters[h.cf(k)] == s.filters[h.cf(k)];
  }

  /** Two keys share a slot only if at most one of them has been written. */
  lemma WrittenKeysApart(h: Hashing, s: State, key: nat, k: nat)
    requires Good(h, s) && Shares(h, s, key, k) && k != key && !Tainted(h, s, k)
    ensures key !in s.latest || k !in s.latest
  {
    assert k in s.latest ==> Stored(h, s, k);
    assert key in s.latest ==> Stored(h, s, key);
  }

  /** So an update of a key that was never written can change what another key reads. */
  lemma StrayUpdateOverwrites(h: Hashing, s: State, s': State)
    requires h == Hashing(1, _ => 0, (_, _) => 5)
    requires s == State([Filter(map[5 := 10], false, map[5 := 1], {})], map[], map[1 := 10])
    requires s' == State([Filter(map[5 := 20], false, map[5 := 1], {})], map[], map[1 := 10, 2 := 20])
    ensures Good(h, s) && Updates(h, s, s', 2, 20, true) && Get(h, s', 1) == 20 != s'.latest[1]
  {
    assert Stored(h, s, 1);
    assert map[5 := 10][5 := 20] == map[5 := 20];
    assert s.filters[0 := s.filters[0].(model := map[5 := 20])] == s'.filters;
  }

  lemma RehashGood(h: Hashing, s: State, s': State, c: nat)
    requires Good(h, s) && RehashStep(h, s, s', c)
    ensures Good(h, s')
  {
    assert forall d: nat :: d < h.n ==> s'.filters[d] == s.filters[d].(rehashing := s'.filters[d].rehashing);
    forall k | k in s'.latest && !Tainted(h, s', k) ensures Stored(h, s', k) {
      assert Stored(h, s, k);
    }
  }

  lemma NextGood(h: Hashing, s: State, s': State)
    requires Good(h, s) && Next(h, s, s')
    ensures Good(h, s')
  {
    if key: nat, file: nat, ok: bool :| InsertStep(h, s, s', key, file, ok) {
      if !s.filters[h.cf(key)].rehashing {
        if h.Fp(key) in s.filters[h.cf(key)].model {
          TreeGood(h, s, s', key, file);
        } else {
          EnterGood(h, s, s', key, file, ok);
        }
      }
    } else if key: nat, file: nat, ok: bool :| UpdateStep(h, s, s', key, file, ok) {
      UpdateGood(h, s, s', key, file, ok);
    } else {
      var c: nat :| RehashStep(h, s, s', c);
      RehashGood(h, s, s', c);
    }
  }

  ghost predicate Run(h: Hashing, run: seq<State>) {
    && |run| > 0 && Init(h, run[0])
    && forall i: nat :: i + 1 < |run| ==> Fits(h, run[i]) && Next(h, run[i], run[i + 1])
  }

  lemma {:induction false} RunGood(h: Hashing, run: seq<State>, i: nat)
    requires Run(h, run) && i < |run|
    ensures Good(h, run[i])
  {
    if i == 0 {
      InitGood(h, run[0]);
    } else {
      RunGood(h, run, i - 1);
      assert Next(h, run[i - 1], run[i - 1 + 1]);
      NextGood(h, run[i - 1], run[i]);
    }
  }

  /** In every run, however inserts, updates, collisions and rehashes alternate, a read of
      a written key returns its latest completed write, unless a chain ran out on its
      fingerprint. */
  lemma RunExact(h: Hashing, run: seq<State>, i: nat, key: nat)
    requires Run(h, run) && i < |run| && key in run[i].latest
    ensures var s := run[i]; Fits(h, s) && (!Tainted(h, s, key) ==> Get(h, s, key) == s.latest[key])
  {
    RunGood(h, run, i);
    var s := run[i];
    if !Tainted(h, s, key) {
      GetExact(h, s, key);
    }
  }
}
