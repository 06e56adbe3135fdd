/** Sorted tables: data blocks, an index with shortened separators and a filter block; and
    the lookup that reads one block. */
module Table {
  import opened Wrappers
  import opened Bytes
  import opened Coding
  import opened Keys
  import Bloom
  import FilterBlock

  datatype Entry<V> = Entry(key: IKey, value: V)

  type Value = seq<Byte>

  /** The first entry whose key is not less than k, as the block iterator finds it. */
  function First<V>(es: seq<Entry<V>>, k: IKey): (i: nat)
    ensures i <= |es| && (i < |es| ==> !ILess(es[i].key, k))
    ensures forall m: nat :: m < i ==> ILess(es[m].key, k)
  {
    if es == [] || !ILess(es[0].key, k) then 0
    else
      var i := First(es[1..], k);
      assert forall m: nat :: 0 < m < i + 1 ==> es[m] == es[1..][m - 1];
      i + 1
  }

  lemma FirstIs<V>(es: seq<Entry<V>>, k: IKey, i: nat)
    requires i <= |es| && (i < |es| ==> !ILess(es[i].key, k))
    requires forall m: nat :: m < i ==> ILess(es[m].key, k)
    ensures First(es, k) == i
  {
    var j := First(es, k);
    assert j < i ==> j < |es|;
  }

  ghost predicate SortedBy<V>(es: seq<Entry<V>>) {
    forall i: nat, j: nat :: i < j < |es| ==> ILess(es[i].key, es[j].key)
  }

  /** A finished table. The file gives the data block at an offset; the index gives, for a
      separator, the offset of its block. */
  datatype Table = Table(file: map<nat, seq<Entry<Value>>>, index: seq<Entry<nat>>, filter: Option<seq<Byte>>)

  /** Block i holds entries starts[i] up to starts[i + 1]. */
  ghost predicate BlockAt(t: Table, all: seq<Entry<Value>>, starts: seq<nat>, i: nat)
    requires |starts| == |t.index| + 1 && i < |t.index|
  {
    && starts[i] < starts[i + 1] <= |all| && t.index[i].value in t.file
    && t.file[t.index[i].value] == all[starts[i]..starts[i + 1]]
  }

  /** Separator i lies between block i and the next one. */
  ghost predicate SeparatorAt(t: Table, all: seq<Entry<Value>>, starts: seq<nat>, i: nat)
    requires |starts| == |t.index| + 1 && i < |t.index|
  {
    && 0 < starts[i + 1] <= |all|
    && var last, sep := all[starts[i + 1] - 1].key, t.index[i].key;
    if starts[i + 1] < |all| then Separates(last, sep, all[starts[i + 1]].key)
    else sep == last || Less(last.user, sep.user)
  }

  /** The filter, if there is one, admits every key of block i. */
  ghost predicate FilteredAt(policy: Bloom.Policy, t: Table, all: seq<Entry<Value>>, starts: seq<nat>, i: nat)
    requires |starts| == |t.index| + 1 && i < |t.index|
  {
    t.filter.Some? ==>
      forall m: nat :: starts[i] <= m < starts[i + 1] && m < |all| ==>
        FilterBlock.MayMatchAt(policy, t.filter.value, t.index[i].value, all[m].key.user)
  }

  ghost predicate IsTable(policy: Bloom.Policy, t: Table, all: seq<Entry<Value>>, starts: seq<nat>) {
    && SortedBy(all) && |starts| == |t.index| + 1 && starts[0] == 0 && starts[|t.index|] == |all|
    && forall i: nat :: i < |t.index| ==>
      BlockAt(t, all, starts, i) && SeparatorAt(t, all, starts, i) && FilteredAt(policy, t, all, starts, i)
  }

  // ----- lookup

  /** Every block the index names is in the file. */
  ghost predicate Readable(t: Table) {
    forall i: nat :: i < |t.index| ==> t.index[i].value in t.file
  }

  /** Seek in the index, ask the filter, seek in the one block. */
  ghost function Lookup(policy: Bloom.Policy, t: Table, k: IKey): Option<Entry<Value>>
    requires Readable(t)
  {
    var i := First(t.index, k);
    if i == |t.index| then None
    else if t.filter.Some? && !FilterBlock.MayMatchAt(policy, t.filter.value, t.index[i].value, k.user) then None
    else
      var block := t.file[t.index[i].value];
      var j := First(block, k);
      if j == |block| then None else Some(block[j])
  }

  /** The saver takes an entry only when it has the user key it looks for. */
  ghost function Saved(r: Option<Entry<Value>>, user: seq<Byte>): Option<Entry<Value>> {
    if r.Some? && r.value.key.user == user then r else None
  }

  /** Every entry before block i is less than a key above separator i - 1. */
  lemma BeforeBlock(policy: Bloom.Policy, t: Table, all: seq<Entry<Value>>, starts: seq<nat>, k: IKey, i: nat)
    requires IsTable(policy, t, all, starts) && i <= |t.index|
    requires forall m: nat :: m < i ==> ILess(t.index[m].key, k)
    ensures starts[i] <= |all| && forall m: nat :: m < starts[i] ==> ILess(all[m].key, k)
  {
    if i > 0 {
      assert BlockAt(t, all, starts, i - 1) && SeparatorAt(t, all, starts, i - 1);
      var last, sep := all[starts[i] - 1].key, t.index[i - 1].key;
      assert ILessEq(last, sep) && ILess(sep, k);
      if last != sep { ILessTransitive(last, sep, k); }
      forall m: nat | m < starts[i] ensures ILess(all[m].key, k) {
        if m < starts[i] - 1 { ILessTransitive(all[m].key, last, k); }
      }
    }
  }

  /** A key above all of block i and not above its separator is not the user key of the
      next entry. */
  lemma PastBlock(policy: Bloom.Policy, t: Table, all: seq<Entry<Value>>, starts: seq<nat>, k: IKey, i: nat)
    requires IsTable(policy, t, all, starts) && i < |t.index| && starts[i + 1] < |all|
    requires !ILess(t.index[i].key, k) && starts[i + 1] > 0 && ILess(all[starts[i + 1] - 1].key, k)
    ensures Less(k.user, all[starts[i + 1]].key.user)
  {
    assert BlockAt(t, all, starts, i) && SeparatorAt(t, all, starts, i);
    var last, sep, next := all[starts[i + 1] - 1].key, t.index[i].key, all[starts[i + 1]].key;
    ILessTotal(sep, k);
    ILessTotal(last, k);
    assert sep != last;
    if k.user != sep.user { LessTransitive(k.user, sep.user, next.user); }
  }

  /** Where the first entry of a part stands, when all entries before the part are less. */
  lemma FirstInPart(all: seq<Entry<Value>>, lo: nat, hi: nat, k: IKey)
    requires lo <= hi <= |all| && forall x: nat :: x < lo ==> ILess(all[x].key, k)
    ensures var m := First(all[lo..hi], k);
      if m < hi - lo then First(all, k) == lo + m && all[lo..hi][m] == all[lo + m]
      else m == hi - lo && forall x: nat :: x < hi ==> ILess(all[x].key, k)
  {
    var part := all[lo..hi];
    var m := First(part, k);
    forall x: nat | lo <= x < lo + m ensures ILess(all[x].key, k) {
      assert all[x] == part[x - lo];
    }
    if m < hi - lo { FirstIs(all, k, lo + m); }
  }

  /** A key above all of the entries up to block i + 1 has its user key in none after. */
  lemma NotInBlock(policy: Bloom.Policy, t: Table, all: seq<Entry<Value>>, starts: seq<nat>, k: IKey, i: nat)
    requires IsTable(policy, t, all, starts) && i < |t.index| && !ILess(t.index[i].key, k)
    requires starts[i + 1] <= |all| && forall x: nat :: x < starts[i + 1] ==> ILess(all[x].key, k)
    ensures var j := First(all, k); starts[i + 1] <= j && (j < |all| ==> all[j].key.user != k.user)
  {
    assert BlockAt(t, all, starts, i);
    if starts[i + 1] < |all| {
      PastBlock(policy, t, all, starts, k, i);
      LessAsymmetric(k.user, all[starts[i + 1]].key.user);
      FirstIs(all, k, starts[i + 1]);
    } else {
      FirstIs(all, k, |all|);
    }
  }

  /** The lookup in block i, when the index leads there. */
  lemma LookupInBlock(policy: Bloom.Policy, t: Table, all: seq<Entry<Value>>, starts: seq<nat>, k: IKey, i: nat)
    requires IsTable(policy, t, all, starts) && i == First(t.index, k) && i < |t.index|
    ensures t.index[i].value in t.file
    ensures var block, j := t.file[t.index[i].value], First(all, k);
      && First(block, k) <= |block| && starts[i] <= j <= |all|
      && (First(block, k) < |block| ==> j < |all| && j < starts[i + 1] && block[First(block, k)] == all[j])
      && (First(block, k) == |block| && j < |all| ==> all[j].key.user != k.user)
  {
    assert BlockAt(t, all, starts, i);
    BeforeBlock(policy, t, all, starts, k, i);
    FirstInPart(all, starts[i], starts[i + 1], k);
    var block := t.file[t.index[i].value];
    if First(block, k) == |block| { NotInBlock(policy, t, all, starts, k, i); }
  }

  /** Looking up in a table finds, for a user key, what a search through all its entries
      finds, although separators are shortened, only one block is read, and the filter may
      stop the lookup before that. */
  lemma LookupComplete(policy: Bloom.Policy, t: Table, all: seq<Entry<Value>>, starts: seq<nat>, k: IKey)
    requires IsTable(policy, t, all, starts)
    ensures Readable(t)
    ensures var j := First(all, k);
      Saved(Lookup(policy, t, k), k.user) == if j < |all| && all[j].key.user == k.user then Some(all[j]) else None
  {
    forall i: nat | i < |t.index| ensures t.index[i].value in t.file {
      assert BlockAt(t, all, starts, i);
    }
    var i, j := First(t.index, k), First(all, k);
    BeforeBlock(policy, t, all, starts, k, i);
    if i < |t.index| {
      LookupInBlock(policy, t, all, starts, k, i);
      assert FilteredAt(policy, t, all, starts, i);
      var block := t.file[t.index[i].value];
      if First(block, k) < |block| && all[j].key.user == k.user && t.filter.Some? {
        assert FilterBlock.MayMatchAt(policy, t.filter.value, t.index[i].value, k.user);
      }
    } else {
      FirstIs(all, k, |all|);
    }
  }

  /** A reader at a sequence number sees this key of its user. */
  ghost predicate Seen(a: IKey, user: seq<Byte>, sequence: nat) {
    a.user == user && a.Sequence() <= sequence
  }

  /** The newest entry of a user key that a reader at a sequence number sees. */
  ghost predicate Newest(all: seq<Entry<Value>>, user: seq<Byte>, sequence: nat, j: nat) {
    && j < |all| && Seen(all[j].key, user, sequence)
    && forall m: nat :: m < |all| && Seen(all[m].key, user, sequence) ==> all[m].key.tag <= all[j].key.tag
  }

  ghost predicate Typed(all: seq<Entry<Value>>) {
    forall m: nat :: m < |all| ==> HasType(all[m].key)
  }

  ghost predicate HasType(a: IKey) {
    a.tag % 256 == DELETION || a.tag % 256 == VALUE
  }

  /** A reader sees just the keys of its user that are not less than its lookup key. */
  lemma SeenIs(a: IKey, user: seq<Byte>, sequence: nat)
    requires HasType(a) && a.user == user
    ensures Seen(a, user, sequence) <==> !ILess(a, IKey(user, Pack(sequence, VALUE)))
  {
    ILessTotal(a, a);
  }

  /** Between a lookup key and a key of the same user there are only keys of that user. */
  lemma SameUser(a: IKey, k: IKey, b: IKey)
    requires !ILess(a, k) && ILess(a, b) && b.user == k.user
    ensures a.user == k.user && a.tag > b.tag
  {
    LessTotal(a.user, k.user);
    ILessTotal(a, b);
    if Less(k.user, a.user) { LessAsymmetric(k.user, a.user); }
    ILessTotal(a, a);
  }

  lemma FirstSeen(all: seq<Entry<Value>>, user: seq<Byte>, sequence: nat, k: IKey, m: nat)
    requires SortedBy(all) && Typed(all) && k == IKey(user, Pack(sequence, VALUE))
    requires m < |all| && Seen(all[m].key, user, sequence)
    ensures var j := First(all, k); j <= m && all[j].key.user == user && all[m].key.tag <= all[j].key.tag
  {
    var j := First(all, k);
    assert HasType(all[m].key);
    SeenIs(all[m].key, user, sequence);
    if j < m { SameUser(all[j].key, k, all[m].key); }
  }

  /** The first entry not less than a lookup key is the newest one the reader sees, if it
      sees any. */
  lemma FirstIsNewest(all: seq<Entry<Value>>, user: seq<Byte>, sequence: nat)
    requires SortedBy(all) && Typed(all)
    ensures var j := First(all, IKey(user, Pack(sequence, VALUE)));
      if j < |all| && all[j].key.user == user then Newest(all, user, sequence, j)
      else forall m: nat :: !Newest(all, user, sequence, m)
  {
    var k := IKey(user, Pack(sequence, VALUE));
    var j := First(all, k);
    forall m: nat | m < |all| && Seen(all[m].key, user, sequence)
      ensures j <= m && all[j].key.user == user && all[m].key.tag <= all[j].key.tag
    {
      FirstSeen(all, user, sequence, k, m);
    }
    if j < |all| && all[j].key.user == user {
      assert HasType(all[j].key);
      SeenIs(all[j].key, user, sequence);
    }
  }

  /** So a lookup hands the saver the newest entry of the user key at or below the
      sequence number whenever the table holds one, and otherwise nothing it takes. */
  lemma GetNewest(policy: Bloom.Policy, t: Table, all: seq<Entry<Value>>, starts: seq<nat>, user: seq<Byte>, sequence: nat)
    requires IsTable(policy, t, all, starts) && Typed(all)
    ensures Readable(t)
    ensures var r := Saved(Lookup(policy, t, IKey(user, Pack(sequence, VALUE))), user);
      if r.Some? then exists j: nat :: Newest(all, user, sequence, j) && all[j] == r.value
      else forall j: nat :: !Newest(all, user, sequence, j)
  {
    LookupComplete(policy, t, all, starts, IKey(user, Pack(sequence, VALUE)));
    FirstIsNewest(all, user, sequence);
  }
}
