/** Building a table: entries go to data blocks, and when a block is full its index entry
    waits for the first key of the next block. */
module TableBuilder {
  import opened Wrappers
  import opened Bits
  import opened Bytes
  import opened Coding
  import opened Keys
  import opened Table
  import opened Format
  import opened TableFile
  import B = BlockBuilder
  import Bloom
  import F = FilterBlock

  /** What a builder was given and made of it: the blocks written so far at their offsets,
      the index, the current block, all entries, and where blocks start among them. */
  datatype Draft = Draft(
    file: map<nat, seq<Entry<Value>>>, index: seq<Entry<nat>>, offset: nat, dataBlock: seq<Entry<Value>>,
    pending: bool, handle: nat, lastKey: IKey, all: seq<Entry<Value>>, starts: seq<nat>, offs: seq<nat>)

  ghost predicate Shaped(d: Draft) {
    && |d.starts| == |d.offs| + 1 && d.starts[0] == 0 && d.starts[|d.offs|] <= |d.all|
    && |d.index| == |d.offs| - (if d.pending then 1 else 0)
  }

  ghost predicate BlockOk(d: Draft, i: nat)
    requires Shaped(d) && i < |d.offs|
  {
    && d.starts[i] < d.starts[i + 1] <= |d.all| && d.offs[i] < d.offset
    && d.offs[i] in d.file && d.file[d.offs[i]] == d.all[d.starts[i]..d.starts[i + 1]]
  }

  ghost predicate IndexOk(d: Draft, i: nat)
    requires Shaped(d) && i < |d.index|
  {
    && d.index[i].value == d.offs[i] && 0 < d.starts[i + 1] < |d.all|
    && Separates(d.all[d.starts[i + 1] - 1].key, d.index[i].key, d.all[d.starts[i + 1]].key)
  }

  ghost predicate Good(d: Draft) {
    && Shaped(d) && SortedBy(d.all) && d.dataBlock == d.all[d.starts[|d.offs|]..]
    && (forall i: nat :: i < |d.offs| ==> BlockOk(d, i))
    && (forall i: nat :: i < |d.index| ==> IndexOk(d, i))
    && (d.pending ==> |d.offs| > 0 && d.handle == d.offs[|d.offs| - 1] && d.dataBlock == [])
    && (!d.pending && d.dataBlock == [] ==> |d.offs| == 0)
    && (d.all != [] ==> d.lastKey == d.all[|d.all| - 1].key)
  }

  /** One more entry; sep separates it from the block before if that still has no index
      entry. */
  ghost function Added(d: Draft, e: Entry<Value>, sep: IKey): Draft {
    d.(index := if d.pending then d.index + [Entry(sep, d.handle)] else d.index, pending := false,
       lastKey := e.key, dataBlock := d.dataBlock + [e], all := d.all + [e])
  }

  /** The current block is written, at the cost of some bytes. */
  ghost function Flushed(d: Draft, size: nat): Draft {
    d.(file := d.file[d.offset := d.dataBlock], handle := d.offset, offset := d.offset + size + TRAILER,
       pending := true, dataBlock := [], starts := d.starts + [|d.all|], offs := d.offs + [d.offset])
  }

  lemma SortedMore(all: seq<Entry<Value>>, e: Entry<Value>)
    requires SortedBy(all) && (all != [] ==> ILess(all[|all| - 1].key, e.key))
    ensures SortedBy(all + [e])
  {
    var all' := all + [e];
    forall i: nat, j: nat | i < j < |all'| ensures ILess(all'[i].key, all'[j].key) {
      if j == |all| && i < |all| - 1 { ILessTransitive(all[i].key, all[|all| - 1].key, e.key); }
    }
  }

  lemma AddedBlock(d: Draft, e: Entry<Value>, sep: IKey, i: nat)
    requires Good(d) && i < |d.offs|
    ensures Shaped(Added(d, e, sep)) && BlockOk(Added(d, e, sep), i)
  {
    var c := Added(d, e, sep);
    assert BlockOk(d, i);
    assert c.all[c.starts[i]..c.starts[i + 1]] == d.all[d.starts[i]..d.starts[i + 1]];
  }

  lemma AddedIndex(d: Draft, e: Entry<Value>, sep: IKey, i: nat)
    requires Good(d) && (d.pending ==> Separates(d.lastKey, sep, e.key)) && i < |Added(d, e, sep).index|
    ensures Shaped(Added(d, e, sep)) && IndexOk(Added(d, e, sep), i)
  {
    if i < |d.index| {
      assert IndexOk(d, i);
    } else {
      assert BlockOk(d, i);
    }
  }

  lemma AddedGood(d: Draft, e: Entry<Value>, sep: IKey)
    requires Good(d) && (d.all != [] ==> ILess(d.lastKey, e.key))
    requires d.pending ==> Separates(d.lastKey, sep, e.key)
    ensures Good(Added(d, e, sep))
  {
    var c := Added(d, e, sep);
    SortedMore(d.all, e);
    forall i: nat | i < |c.offs| ensures Shaped(c) && BlockOk(c, i) { AddedBlock(d, e, sep, i); }
    forall i: nat | i < |c.index| ensures Shaped(c) && IndexOk(c, i) { AddedIndex(d, e, sep, i); }
  }

  lemma FlushedGood(d: Draft, size: nat)
    requires Good(d) && d.dataBlock != []
    ensures Good(Flushed(d, size))
  {
    var c := Flushed(d, size);
    forall i: nat | i < |c.offs| ensures BlockOk(c, i) {
      if i < |d.offs| { assert BlockOk(d, i); } else { assert d.all[d.starts[i]..|d.all|] == d.dataBlock; }
    }
    forall i: nat | i < |c.index| ensures IndexOk(c, i) {
      assert IndexOk(d, i);
    }
  }

  // ----- the filter

  /** The filters cover the entries of written blocks and of the current one. */
  ghost predicate CoveredAt(d: Draft, filters: seq<seq<seq<Byte>>>, pending: seq<seq<Byte>>, i: nat)
    requires Shaped(d) && i <= |d.offs|
  {
    forall m: nat :: d.starts[i] <= m < (if i < |d.offs| then d.starts[i + 1] else |d.all|) && m < |d.all| ==>
      F.Covers(filters, pending, (if i < |d.offs| then d.offs[i] else d.offset) / F.BASE, d.all[m].key.user)
  }

  ghost predicate Covered(d: Draft, filters: seq<seq<seq<Byte>>>, pending: seq<seq<Byte>>) {
    && Shaped(d) && |filters| == d.offset / F.BASE && OnlyFrom(d, filters, pending)
    && forall i: nat :: i <= |d.offs| ==> CoveredAt(d, filters, pending, i)
  }

  /** Entry m is in block i, and has the user key. */
  ghost predicate EntryIn(d: Draft, x: nat, key: seq<Byte>, i: nat, m: nat)
    requires Shaped(d)
  {
    && i <= |d.offs| && (if i < |d.offs| then d.offs[i] else d.offset) / F.BASE == x
    && d.starts[i] <= m < (if i < |d.offs| then d.starts[i + 1] else |d.all|) && m < |d.all| && d.all[m].key.user == key
  }

  /** What a filter covers comes from blocks that start in its range. */
  ghost predicate OnlyFrom(d: Draft, filters: seq<seq<seq<Byte>>>, pending: seq<seq<Byte>>)
    requires Shaped(d)
  {
    forall x: nat, key :: F.Covers(filters, pending, x, key) ==> exists i: nat, m: nat :: EntryIn(d, x, key, i, m)
  }

  lemma AddedOnly(d: Draft, e: Entry<Value>, sep: IKey, filters: seq<seq<seq<Byte>>>, pending: seq<seq<Byte>>)
    requires Good(d) && OnlyFrom(d, filters, pending) && |filters| == d.offset / F.BASE
    ensures Shaped(Added(d, e, sep)) && OnlyFrom(Added(d, e, sep), filters, pending + [e.key.user])
  {
    var c, pending' := Added(d, e, sep), pending + [e.key.user];
    forall x: nat, key | F.Covers(filters, pending', x, key) ensures exists i: nat, m: nat :: EntryIn(c, x, key, i, m) {
      if F.Covers(filters, pending, x, key) {
        var i: nat, m: nat :| EntryIn(d, x, key, i, m);
        assert EntryIn(c, x, key, i, m);
      } else {
        assert EntryIn(c, x, key, |d.offs|, |d.all|);
      }
    }
  }

  lemma FlushedOnly(d: Draft, size: nat, filters: seq<seq<seq<Byte>>>, pending: seq<seq<Byte>>,
                    filters': seq<seq<seq<Byte>>>, pending': seq<seq<Byte>>)
    requires Good(d) && OnlyFrom(d, filters, pending) && d.dataBlock != []
    requires forall i: nat, key :: F.Covers(filters, pending, i, key) <==> F.Covers(filters', pending', i, key)
    ensures Shaped(Flushed(d, size)) && OnlyFrom(Flushed(d, size), filters', pending')
  {
    var c := Flushed(d, size);
    forall x: nat, key | F.Covers(filters', pending', x, key) ensures exists i: nat, m: nat :: EntryIn(c, x, key, i, m) {
      assert F.Covers(filters, pending, x, key);
      var i: nat, m: nat :| EntryIn(d, x, key, i, m);
      assert EntryIn(c, x, key, i, m);
    }
  }

  lemma AddedCovered(d: Draft, e: Entry<Value>, sep: IKey, filters: seq<seq<seq<Byte>>>, pending: seq<seq<Byte>>)
    requires Good(d) && Covered(d, filters, pending)
    ensures Covered(Added(d, e, sep), filters, pending + [e.key.user])
  {
    var c := Added(d, e, sep);
    AddedOnly(d, e, sep, filters, pending);
    forall i: nat | i <= |c.offs| ensures CoveredAt(c, filters, pending + [e.key.user], i) {
      assert CoveredAt(d, filters, pending, i);
      if i < |d.offs| { assert BlockOk(d, i); }
    }
  }

  lemma FlushedCovered(d: Draft, size: nat, filters: seq<seq<seq<Byte>>>, pending: seq<seq<Byte>>,
                       filters': seq<seq<seq<Byte>>>, pending': seq<seq<Byte>>)
    requires Good(d) && Covered(d, filters, pending) && d.dataBlock != []
    requires |filters'| == Flushed(d, size).offset / F.BASE
    requires forall i: nat, key :: F.Covers(filters, pending, i, key) <==> F.Covers(filters', pending', i, key)
    ensures Covered(Flushed(d, size), filters', pending')
  {
    var c := Flushed(d, size);
    FlushedOnly(d, size, filters, pending, filters', pending');
    forall i: nat | i <= |c.offs| ensures CoveredAt(c, filters', pending', i) {
      if i <= |d.offs| {
        assert CoveredAt(d, filters, pending, i);
        if i < |d.offs| { assert BlockOk(d, i); }
      }
    }
  }

  // ----- finishing

  /** The finished table, with the last index entry that was still to come. */
  ghost function Closed(d: Draft, sep: IKey, filter: Option<seq<Byte>>): Table {
    Table(d.file, if d.pending then d.index + [Entry(sep, d.handle)] else d.index, filter)
  }

  ghost predicate Admitted(policy: Bloom.Policy, d: Draft, filter: Option<seq<Byte>>, i: nat)
    requires Shaped(d) && i < |d.offs|
  {
    filter.Some? ==>
      forall m: nat :: d.starts[i] <= m < d.starts[i + 1] && m < |d.all| ==>
        F.MayMatchAt(policy, filter.value, d.offs[i], d.all[m].key.user)
  }

  lemma ClosedAt(policy: Bloom.Policy, d: Draft, sep: IKey, filter: Option<seq<Byte>>, i: nat)
    requires Good(d) && d.dataBlock == [] && i < |d.offs| && Admitted(policy, d, filter, i)
    requires d.pending ==> sep == d.lastKey || Less(d.lastKey.user, sep.user)
    ensures var t := Closed(d, sep, filter);
      && |t.index| == |d.offs| && BlockAt(t, d.all, d.starts, i) && SeparatorAt(t, d.all, d.starts, i)
      && FilteredAt(policy, t, d.all, d.starts, i)
  {
    assert BlockOk(d, i);
    if i < |d.index| { assert IndexOk(d, i); }
  }

  lemma ClosedIsTable(policy: Bloom.Policy, d: Draft, sep: IKey, filter: Option<seq<Byte>>)
    requires Good(d) && d.dataBlock == []
    requires d.pending ==> sep == d.lastKey || Less(d.lastKey.user, sep.user)
    requires forall i: nat :: i < |d.offs| ==> Admitted(policy, d, filter, i)
    ensures IsTable(policy, Closed(d, sep, filter), d.all, d.starts)
  {
    var t := Closed(d, sep, filter);
    assert |t.index| == |d.offs|;
    forall i: nat | i < |t.index|
      ensures BlockAt(t, d.all, d.starts, i) && SeparatorAt(t, d.all, d.starts, i) && FilteredAt(policy, t, d.all, d.starts, i)
    {
      ClosedAt(policy, d, sep, filter, i);
    }
  }

  lemma CoveredAdmits(policy: Bloom.Policy, d: Draft, filters: seq<seq<seq<Byte>>>, pending: seq<seq<Byte>>,
                      contents: seq<Byte>, i: nat)
    requires Covered(d, filters, pending) && i < |d.offs|
    requires forall off: nat, key :: F.Covers(filters, pending, off / F.BASE, key) ==> F.MayMatchAt(policy, contents, off, key)
    ensures Admitted(policy, d, Some(contents), i)
  {
    assert CoveredAt(d, filters, pending, i);
  }

  /** The filter answers for block i with just the keys of blocks that start in its range. */
  ghost predicate ExactAt(policy: Bloom.Policy, d: Draft, contents: seq<Byte>, filters: seq<seq<seq<Byte>>>, i: nat)
    requires Shaped(d) && i < |d.offs|
  {
    var x := d.offs[i] / F.BASE;
    && x < |filters| && (forall key :: key in filters[x] <==> exists j: nat, m: nat :: j < |d.offs| && EntryIn(d, x, key, j, m))
    && forall key :: F.MayMatchAt(policy, contents, d.offs[i], key) <==> policy.Shares(filters[x], key)
  }

  lemma CoveredExact(policy: Bloom.Policy, d: Draft, filters: seq<seq<seq<Byte>>>, pending: seq<seq<Byte>>,
                     contents: seq<Byte>, filters': seq<seq<seq<Byte>>>, i: nat)
    requires Good(d) && d.dataBlock == [] && Covered(d, filters, pending) && i < |d.offs|
    requires filters' == if pending == [] then filters else filters + [pending]
    requires forall off: nat, key :: F.MayMatchAt(policy, contents, off, key) <==> F.Answer(policy, filters', off, key)
    ensures ExactAt(policy, d, contents, filters', i)
  {
    var x := d.offs[i] / F.BASE;
    assert BlockOk(d, i) && CoveredAt(d, filters, pending, i);
    assert F.Covers(filters, pending, x, d.all[d.starts[i]].key.user);
    forall key ensures key in filters'[x] <==> exists j: nat, m: nat :: j < |d.offs| && EntryIn(d, x, key, j, m) {
      assert key in filters'[x] <==> F.Covers(filters, pending, x, key);
      if F.Covers(filters, pending, x, key) {
        var j: nat, m: nat :| EntryIn(d, x, key, j, m);
        assert j < |d.offs|;
      }
      if j: nat, m: nat :| j < |d.offs| && EntryIn(d, x, key, j, m) {
        assert CoveredAt(d, filters, pending, j);
      }
    }
    forall key ensures F.MayMatchAt(policy, contents, d.offs[i], key) <==> policy.Shares(filters'[x], key) {
      assert F.Answer(policy, filters', d.offs[i], key) <==> policy.Shares(filters'[x], key);
    }
  }

  lemma ClosedSharp(policy: Bloom.Policy, d: Draft, sep: IKey, contents: seq<Byte>, filters: seq<seq<seq<Byte>>>)
    requires Good(d) && d.dataBlock == [] && forall i: nat :: i < |d.offs| ==> ExactAt(policy, d, contents, filters, i)
    ensures var t := Closed(d, sep, Some(contents)); |d.starts| == |t.index| + 1 && Sharp(policy, t, d.all, d.starts)
  {
    var t := Closed(d, sep, Some(contents));
    forall i: nat | i < |t.index| ensures t.index[i].value == d.offs[i] {
      if i < |d.index| { assert IndexOk(d, i); }
    }
    forall i: nat | i < |t.index| ensures SharpAt(policy, t, d.all, d.starts, filters, i) {
      assert ExactAt(policy, d, contents, filters, i);
      SameRange(d, t, d.offs[i] / F.BASE);
    }
    assert SharpBy(policy, t, d.all, d.starts, filters);
  }

  lemma SameRange(d: Draft, t: Table, x: nat)
    requires Shaped(d) && |t.index| == |d.offs| && forall i: nat :: i < |t.index| ==> t.index[i].value == d.offs[i]
    ensures forall key ::
      InRange(t, d.all, d.starts, x, key) <==> exists j: nat, m: nat :: j < |d.offs| && EntryIn(d, x, key, j, m)
  {
    forall key ensures InRange(t, d.all, d.starts, x, key) <==> exists j: nat, m: nat :: j < |d.offs| && EntryIn(d, x, key, j, m) {
      if InRange(t, d.all, d.starts, x, key) {
        var j: nat, m: nat :| j < |t.index| && t.index[j].value / F.BASE == x &&
          d.starts[j] <= m < d.starts[j + 1] && m < |d.all| && d.all[m].key.user == key;
        assert EntryIn(d, x, key, j, m);
      }
      if j: nat, m: nat :| j < |d.offs| && EntryIn(d, x, key, j, m) {
        assert t.index[j].value / F.BASE == x;
      }
    }
  }

  ghost predicate Ok(d: Draft) {
    forall u {:trigger UnfoldAt(d, u)} :: UnfoldAt(d, u) ==> Good(d)
  }

  lemma AddedOk(d: Draft, e: Entry<Value>, sep: IKey)
    requires Ok(d) && (d.all != [] ==> ILess(d.lastKey, e.key)) && (d.pending ==> Separates(d.lastKey, sep, e.key))
    ensures Ok(Added(d, e, sep))
    ensures forall filters, pending {:trigger Covered(d, filters, pending)} ::
      Covered(d, filters, pending) ==> Covered(Added(d, e, sep), filters, pending + [e.key.user])
  {
    assert UnfoldAt(d, 0);
    AddedGood(d, e, sep);
    forall filters, pending | Covered(d, filters, pending)
      ensures Covered(Added(d, e, sep), filters, pending + [e.key.user])
    {
      AddedCovered(d, e, sep, filters, pending);
    }
  }

  lemma FlushedOk(d: Draft, size: nat)
    requires Ok(d) && d.dataBlock != []
    ensures Good(d) && Ok(Flushed(d, size))
  {
    assert UnfoldAt(d, 0);
    FlushedGood(d, size);
  }

  // ----- the bytes

  /** A block of these entries is in the file, if it has fewer than 4 GB. */
  ghost predicate WrittenAt(crc: Checksum, file: seq<Byte>, h: Handle, es: seq<Entry<Value>>) {
    exists bytes :: StoredAt(crc, file, h, bytes) && (|bytes| < WORD ==> DataBlock(bytes, es))
  }

  ghost predicate WrittenBlock(crc: Checksum, file: seq<Byte>, d: Draft, hs: seq<Handle>, i: nat)
    requires i < |hs| == |d.offs|
  {
    hs[i].offset == d.offs[i] && d.offs[i] in d.file && WrittenAt(crc, file, hs[i], d.file[d.offs[i]])
  }

  /** The blocks written so far are in the file. */
  ghost predicate Written(crc: Checksum, file: seq<Byte>, d: Draft, hs: seq<Handle>) {
    |hs| == |d.offs| && forall i: nat :: i < |hs| ==> WrittenBlock(crc, file, d, hs, i)
  }

  lemma WrittenExtends(crc: Checksum, file: seq<Byte>, file': seq<Byte>, h: Handle, es: seq<Entry<Value>>)
    requires WrittenAt(crc, file, h, es) && file <= file'
    ensures WrittenAt(crc, file', h, es)
  {
    var bytes :| StoredAt(crc, file, h, bytes) && (|bytes| < WORD ==> DataBlock(bytes, es));
    StoredExtends(crc, file, file', h, bytes);
  }

  lemma WrittenFlushed(crc: Checksum, file: seq<Byte>, d: Draft, hs: seq<Handle>, file': seq<Byte>, h: Handle, bytes: seq<Byte>)
    requires Good(d) && Written(crc, file, d, hs) && file <= file' && d.offset == |file|
    requires h == Handle(|file|, |bytes|) && StoredAt(crc, file', h, bytes) && (|bytes| < WORD ==> DataBlock(bytes, d.dataBlock))
    ensures Written(crc, file', Flushed(d, |bytes|), hs + [h])
  {
    var c := Flushed(d, |bytes|);
    forall i: nat | i < |hs + [h]| ensures WrittenBlock(crc, file', c, hs + [h], i) {
      if i < |hs| {
        assert WrittenBlock(crc, file, d, hs, i) && BlockOk(d, i);
        WrittenExtends(crc, file, file', hs[i], d.file[d.offs[i]]);
      }
    }
  }

  lemma WrittenAdded(crc: Checksum, file: seq<Byte>, d: Draft, hs: seq<Handle>, e: Entry<Value>, sep: IKey)
    requires Written(crc, file, d, hs)
    ensures Written(crc, file, Added(d, e, sep), hs)
  {
    forall i: nat | i < |hs| ensures WrittenBlock(crc, file, Added(d, e, sep), hs, i) {
      assert WrittenBlock(crc, file, d, hs, i);
    }
  }

  /** The pairs of the index block are the index so far. */
  ghost predicate Indexed(ps: seq<B.Pair>, index: seq<Entry<nat>>, hs: seq<Handle>) {
    KeysAre(ps, index) && |index| <= |hs| && HandlesAre(ps, hs[..|index|])
  }

  lemma IndexedMore(ps: seq<B.Pair>, index: seq<Entry<nat>>, hs: seq<Handle>, sep: IKey, offset: nat)
    requires Indexed(ps, index, hs) && |index| < |hs| && sep.tag < MAX_PACKED
    ensures Indexed(ps + [B.Pair(EncodeKey(sep), EncodeHandle(hs[|index|]))], index + [Entry(sep, offset)], hs)
  {
    var p := B.Pair(EncodeKey(sep), EncodeHandle(hs[|index|]));
    assert KeyIs(p.key, sep);
  }

  lemma DataMore(ps: seq<B.Pair>, es: seq<Entry<Value>>, e: Entry<Value>)
    requires KeysAre(ps, es) && ValuesAre(ps, es) && e.key.tag < MAX_PACKED
    ensures KeysAre(ps + [B.Pair(EncodeKey(e.key), e.value)], es + [e])
    ensures ValuesAre(ps + [B.Pair(EncodeKey(e.key), e.value)], es + [e])
  {
    assert KeyIs(EncodeKey(e.key), e.key);
  }

  class TableBuilder {
    const policy: Bloom.Policy
    const name: seq<Byte>
    const crc: Checksum
    const blockSize: nat
    const filter: F.FilterBlockBuilder?
    const dataBlock: B.BlockBuilder
    const indexBlock: B.BlockBuilder
    var file: seq<Byte>
    var offset: nat
    var pendingIndexEntry: bool
    var pendingHandle: Handle
    var lastKey: IKey
    ghost var draft: Draft
    ghost var handles: seq<Handle>

    ghost predicate Filtering()
      reads this, filter
    {
      filter != null ==>
        filter.Valid() && filter.policy == policy && Covered(draft, filter.filters, filter.pending)
    }

    /** The fields and the bytes agree with the draft. */
    ghost predicate Agrees()
      reads this
    {
      && offset == |file| == draft.offset && pendingIndexEntry == draft.pending
      && lastKey == draft.lastKey && lastKey.tag < MAX_PACKED
      && Written(crc, file, draft, handles)
      && (pendingIndexEntry ==> |handles| > 0 && pendingHandle == handles[|handles| - 1])
    }

    ghost predicate DataAgrees()
      reads this, dataBlock
    {
      && dataBlock.Valid() && KeysAre(dataBlock.layout.entries, draft.dataBlock)
      && ValuesAre(dataBlock.layout.entries, draft.dataBlock)
    }

    ghost predicate IndexAgrees()
      reads this, indexBlock
    {
      indexBlock.Valid() && Indexed(indexBlock.layout.entries, draft.index, handles)
    }

    ghost predicate Valid()
      reads this, filter, dataBlock, indexBlock
    {
      dataBlock != indexBlock && Ok(draft) && Filtering() && Agrees() && DataAgrees() && IndexAgrees()
    }

    /** With a filter policy there is a filter block, started at offset 0. */
    constructor (policy: Bloom.Policy, name: seq<Byte>, filtered: bool, crc: Checksum, blockSize: nat, interval: nat)
      requires 1 <= interval
      ensures Valid() && draft.all == [] && (filter != null <==> filtered)
      ensures this.policy == policy && this.name == name && this.crc == crc && this.blockSize == blockSize
      ensures fresh(dataBlock) && fresh(indexBlock) && (filter != null ==> fresh(filter))
    {
      this.policy, this.name, this.crc, this.blockSize := policy, name, crc, blockSize;
      if filtered {
        filter := new F.FilterBlockBuilder(policy);
      } else {
        filter := null;
      }
      dataBlock := new B.BlockBuilder(interval);
      indexBlock := new B.BlockBuilder(1);
      file, offset, pendingIndexEntry, pendingHandle, lastKey := [], 0, false, Handle(0, 0), IKey([], 0);
      draft := Draft(map[], [], 0, [], false, 0, IKey([], 0), [], [0], []);
      handles := [];
      new;
      assert Good(draft);
    }

    /** Write the current block, if it has entries. */
    method Flush()
      requires Valid()
      modifies this, filter, dataBlock
      ensures Valid() && old(file) <= file && (old(draft).dataBlock == [] ==> draft == old(draft) && file == old(file))
      ensures old(draft).dataBlock != [] ==>
        && |file| == |old(file)| + old(dataBlock.CurrentSizeEstimate()) + TRAILER
        && draft == Flushed(old(draft), |file| - |old(file)| - TRAILER)
    {
      if dataBlock.Empty() { return; }
      ghost var d := draft;
      WriteOut();
      if filter != null {
        ghost var filters0, pending0 := filter.filters, filter.pending;
        filter.StartBlock(offset);
        FlushedCovered(d, |file| - |old(file)| - TRAILER, filters0, pending0, filter.filters, filter.pending);
      }
    }

    /** Write the current block to the file. */
    method WriteOut()
      requires dataBlock != indexBlock && Ok(draft) && Agrees() && DataAgrees() && IndexAgrees() && draft.dataBlock != []
      modifies this, dataBlock
      ensures Good(old(draft)) && Ok(draft) && Agrees() && DataAgrees() && IndexAgrees()
      ensures old(file) <= file && |file| == |old(file)| + old(dataBlock.CurrentSizeEstimate()) + TRAILER
      ensures draft == Flushed(old(draft), |file| - |old(file)| - TRAILER)
    {
      var bytes := dataBlock.Finish();
      FlushedOk(draft, |bytes|);
      assert |bytes| < WORD ==> DataBlock(bytes, draft.dataBlock);
      var file', h := WriteRawBlock(crc, file, bytes);
      WrittenFlushed(crc, file, draft, handles, file', h, bytes);
      IndexedOn(indexBlock.layout.entries, draft.index, handles, h);
      dataBlock.Reset();
      file, offset, pendingHandle, pendingIndexEntry := file', offset + |bytes| + TRAILER, h, true;
      draft, handles := Flushed(draft, |bytes|), handles + [h];
    }

    /** The index entry for the block before, now that the next key is known. */
    method AddIndexEntry(next: IKey) returns (sep: IKey)
      requires Ok(draft) && Agrees() && IndexAgrees()
      modifies this`pendingIndexEntry, indexBlock
      ensures !pendingIndexEntry && (draft.pending ==> Separates(lastKey, sep, next))
      ensures indexBlock.Valid()
      ensures Indexed(indexBlock.layout.entries, if draft.pending then draft.index + [Entry(sep, draft.handle)] else draft.index, handles)
    {
      sep := lastKey;
      if pendingIndexEntry {
        sep := SeparateInternal(lastKey, next);
        PendingIs(draft, handles, crc, file);
        IndexedMore(indexBlock.layout.entries, draft.index, handles, sep, draft.handle);
        indexBlock.Add(B.Pair(EncodeKey(sep), EncodeHandle(pendingHandle)));
        pendingIndexEntry := false;
      }
    }

    method AddEntry(e: Entry<Value>)
      requires Valid() && e.key.tag < MAX_PACKED && (draft.all != [] ==> ILess(lastKey, e.key))
      modifies this, filter, dataBlock, indexBlock
      ensures Valid() && file == old(file) && exists sep :: draft == Added(old(draft), e, sep)
    {
      ghost var d := draft;
      var sep := AddIndexEntry(e.key);
      AddedOk(d, e, sep);
      WrittenAdded(crc, file, d, handles, e, sep);
      if filter != null {
        filter.AddKey(e.key.user);
      }
      lastKey := e.key;
      DataMore(dataBlock.layout.entries, d.dataBlock, e);
      dataBlock.Add(B.Pair(EncodeKey(e.key), e.value));
      draft := Added(d, e, sep);
    }

    /** Add an entry with a key above all before, and write the block when it is full. */
    method Add(e: Entry<Value>)
      requires Valid() && e.key.tag < MAX_PACKED && (draft.all != [] ==> ILess(lastKey, e.key))
      modifies this, filter, dataBlock, indexBlock
      ensures Valid() && draft.all == old(draft).all + [e]
      ensures draft.dataBlock == [] || dataBlock.CurrentSizeEstimate() < blockSize
      ensures if draft.dataBlock != [] then draft.dataBlock == old(draft).dataBlock + [e] && file == old(file)
        else
          && |file| >= |old(file)| + blockSize + TRAILER && |draft.offs| == |old(draft).offs| + 1
          && var at := draft.offs[|old(draft).offs|]; at in draft.file && draft.file[at] == old(draft).dataBlock + [e]
    {
      AddEntry(e);
      if dataBlock.CurrentSizeEstimate() >= blockSize {
        Flush();
      }
    }

    /** The contents of the filter block, if there is one. */
    method FinishFilter() returns (contents: Option<seq<Byte>>)
      requires Filtering() && Ok(draft) && draft.dataBlock == []
      modifies filter
      ensures contents.Some? <==> filter != null
      ensures (contents.Some? ==> |contents.value| < WORD) ==> Admits(policy, draft, contents)
    {
      contents := None;
      assert Shaped(draft) by { assert UnfoldAt(draft, 0); }
      if filter != null {
        ghost var filters0, pending0 := filter.filters, filter.pending;
        var c := filter.Finish();
        contents := Some(c);
        if |c| < WORD {
          AdmitsAll(policy, draft, filters0, pending0, c, filter.filters);
        }
      }
    }

    /** Write the filter block, if there is one, and the metaindex block. */
    method FinishMeta(f0: seq<Byte>, contents: Option<seq<Byte>>) returns (f: seq<Byte>, meta: Handle)
      requires 1 <= dataBlock.interval
      ensures f0 <= f && meta.offset + meta.size <= |f| && (contents.Some? ==> |contents.value| <= |f|)
      ensures |f| < WORD ==> MetaAt(crc, f, meta, name, contents)
    {
      f := f0;
      var metaBlock := new B.BlockBuilder(dataBlock.interval);
      ghost var h := Handle(0, 0);
      if contents.Some? {
        var filterHandle;
        f, filterHandle := WriteRawBlock(crc, f, contents.value);
        metaBlock.Add(B.Pair(FilterKey(name), EncodeHandle(filterHandle)));
        h := filterHandle;
      }
      ghost var f1 := f;
      var bytes := metaBlock.Finish();
      f, meta := WriteRawBlock(crc, f, bytes);
      if |f| < WORD {
        if contents.Some? { StoredExtends(crc, f1, f, h, contents.value); }
        assert MetaEntries(crc, f, metaBlock.layout.entries, name, contents);
      }
    }

    /** The last index entry, if it is still to come. */
    method CloseIndex() returns (sep: IKey)
      requires Ok(draft) && Agrees() && IndexAgrees()
      modifies this`pendingIndexEntry, indexBlock
      ensures draft.pending ==> sep == lastKey || Less(lastKey.user, sep.user)
      ensures indexBlock.Valid()
      ensures Indexed(indexBlock.layout.entries, if draft.pending then draft.index + [Entry(sep, draft.handle)] else draft.index, handles)
    {
      sep := lastKey;
      if pendingIndexEntry {
        sep := SuccessorInternal(lastKey);
        PendingIs(draft, handles, crc, file);
        IndexedMore(indexBlock.layout.entries, draft.index, handles, sep, draft.handle);
        indexBlock.Add(B.Pair(EncodeKey(sep), EncodeHandle(pendingHandle)));
        pendingIndexEntry := false;
      }
    }

    /** The index block and the footer, after the metaindex block. */
    method FinishIndex(f0: seq<Byte>, meta: Handle, contents: Option<seq<Byte>>) returns (f: seq<Byte>)
      requires Ok(draft) && Agrees() && IndexAgrees() && draft.dataBlock == []
      requires file <= f0 && meta.offset + meta.size <= |f0|
      requires |f0| < WORD ==> MetaAt(crc, f0, meta, name, contents) && Admits(policy, draft, contents)
      modifies this`pendingIndexEntry, indexBlock
      ensures |f| < WORD ==> TableOf(policy, name, contents.Some?, crc, f, draft.all)
    {
      var sep := CloseIndex();
      var bytes := indexBlock.Finish();
      var at;
      f, at := WriteRawBlock(crc, f0, bytes);
      ghost var f1 := f;
      f := f + EncodeFooter(meta, at);
      if |f| < WORD {
        ClosedRepresents(crc, file, f, draft, handles, sep, contents, indexBlock.layout, bytes);
        ClosedOk(policy, draft, sep, contents);
        MetaExtends(crc, f0, f, meta, name, contents);
        StoredExtends(crc, f1, f, at, bytes);
        ImageIs(policy, name, crc, f1, f, draft.all, Image(Closed(draft, sep, contents), draft.starts, handles, bytes, meta, at));
      }
    }

    /** The finished file is a table of all the entries that were added, if it has fewer
        than 4 GB. */
    method Finish()
      requires Valid()
      modifies this, filter, dataBlock, indexBlock
      ensures draft.all == old(draft).all
      ensures |file| < WORD ==> TableOf(policy, name, filter != null, crc, file, draft.all)
    {
      Flush();
      assert Shaped(draft) && draft.dataBlock == [] by { assert UnfoldAt(draft, 0); }
      var contents := FinishFilter();
      var f, meta := FinishMeta(file, contents);
      f := FinishIndex(f, meta, contents);
      file, offset := f, |f|;
    }
  }

  ghost predicate Admits(policy: Bloom.Policy, d: Draft, filter: Option<seq<Byte>>) {
    forall u {:trigger UnfoldAt(filter, u)} :: UnfoldAt(filter, u) ==>
      && Shaped(d) && (forall i: nat :: i < |d.offs| ==> Admitted(policy, d, filter, i))
      && (filter.Some? ==> exists filters :: ExactAll(policy, d, filter.value, filters))
  }

  ghost predicate ExactAll(policy: Bloom.Policy, d: Draft, contents: seq<Byte>, filters: seq<seq<seq<Byte>>>)
    requires Shaped(d)
  {
    forall i: nat :: i < |d.offs| ==> ExactAt(policy, d, contents, filters, i)
  }

  lemma AdmitsAll(policy: Bloom.Policy, d: Draft, filters: seq<seq<seq<Byte>>>, pending: seq<seq<Byte>>,
                  contents: seq<Byte>, filters': seq<seq<seq<Byte>>>)
    requires Ok(d) && d.dataBlock == [] && Covered(d, filters, pending)
    requires filters' == if pending == [] then filters else filters + [pending]
    requires forall off: nat, key :: F.MayMatchAt(policy, contents, off, key) <==> F.Answer(policy, filters', off, key)
    requires forall off: nat, key :: F.Covers(filters, pending, off / F.BASE, key) ==> F.MayMatchAt(policy, contents, off, key)
    ensures Admits(policy, d, Some(contents))
  {
    assert UnfoldAt(d, 0);
    forall i: nat | i < |d.offs| ensures Admitted(policy, d, Some(contents), i) {
      CoveredAdmits(policy, d, filters, pending, contents, i);
    }
    forall i: nat | i < |d.offs| ensures ExactAt(policy, d, contents, filters', i) {
      CoveredExact(policy, d, filters, pending, contents, filters', i);
    }
    assert ExactAll(policy, d, contents, filters');
  }

  lemma ImageIs(policy: Bloom.Policy, name: seq<Byte>, crc: Checksum, f: seq<Byte>, f': seq<Byte>, all: seq<Entry<Value>>,
                im: Image)
    requires IsTable(policy, im.t, all, im.starts) && Represents(crc, f', im.index, im.t, im.hs)
    requires StoredAt(crc, f', im.at, im.index) && MetaAt(crc, f', im.meta, name, im.t.filter)
    requires f' == f + EncodeFooter(im.meta, im.at) && |f'| < WORD
    requires im.meta.offset + im.meta.size <= |f| && im.at.offset + im.at.size <= |f|
    requires |im.starts| == |im.t.index| + 1 && Sharp(policy, im.t, all, im.starts)
    ensures TableOf(policy, name, im.t.filter.Some?, crc, f', all)
  {
    assert FooterAt(f', im.meta, im.at);
    assert IsImage(policy, name, im.t.filter.Some?, crc, f', all, im);
  }

  lemma MetaExtends(crc: Checksum, f: seq<Byte>, f': seq<Byte>, meta: Handle, name: seq<Byte>, filter: Option<seq<Byte>>)
    requires MetaAt(crc, f, meta, name, filter) && f <= f'
    ensures MetaAt(crc, f', meta, name, filter)
  {
    var bytes, l :| StoredAt(crc, f, meta, bytes) && B.IsBlock(l, bytes) && MetaEntries(crc, f, l.entries, name, filter);
    StoredExtends(crc, f, f', meta, bytes);
    if filter.Some? {
      var h :| Addresses(h) && StoredAt(crc, f, h, filter.value) && l.entries == [B.Pair(FilterKey(name), EncodeHandle(h))];
      StoredExtends(crc, f, f', h, filter.value);
    }
    assert MetaEntries(crc, f', l.entries, name, filter);
  }

  lemma ClosedOk(policy: Bloom.Policy, d: Draft, sep: IKey, filter: Option<seq<Byte>>)
    requires Ok(d) && d.dataBlock == [] && Admits(policy, d, filter)
    requires d.pending ==> sep == d.lastKey || Less(d.lastKey.user, sep.user)
    ensures IsTable(policy, Closed(d, sep, filter), d.all, d.starts)
    ensures |d.starts| == |Closed(d, sep, filter).index| + 1 && Sharp(policy, Closed(d, sep, filter), d.all, d.starts)
  {
    assert UnfoldAt(d, 0) && UnfoldAt(filter, 0);
    if filter.Some? {
      var filters :| ExactAll(policy, d, filter.value, filters);
      ClosedSharp(policy, d, sep, filter.value, filters);
    }
    ClosedIsTable(policy, d, sep, filter);
  }

  /** When all blocks are written, the closed index has a handle for each. */
  lemma IndexWhole(d: Draft, sep: IKey, filter: Option<seq<Byte>>)
    requires Ok(d) && d.dataBlock == []
    ensures var t := Closed(d, sep, filter);
      |t.index| == |d.offs| && forall i: nat :: i < |d.offs| ==> t.index[i].value == d.offs[i]
  {
    assert UnfoldAt(d, 0);
    var t := Closed(d, sep, filter);
    forall i: nat | i < |d.offs| ensures t.index[i].value == d.offs[i] {
      if i < |d.index| { assert IndexOk(d, i); }
    }
  }

  lemma ClosedRepresents(crc: Checksum, file: seq<Byte>, file': seq<Byte>, d: Draft, hs: seq<Handle>, sep: IKey,
                         filter: Option<seq<Byte>>, l: B.Layout, index: seq<Byte>)
    requires Ok(d) && d.dataBlock == [] && Written(crc, file, d, hs) && file <= file' && |file'| < WORD
    requires B.IsBlock(l, index) && Indexed(l.entries, Closed(d, sep, filter).index, hs)
    ensures Represents(crc, file', index, Closed(d, sep, filter), hs)
  {
    IndexWhole(d, sep, filter);
    assert hs[..|hs|] == hs;
    assert IndexBlock(index, Closed(d, sep, filter).index, hs);
    WrittenRepresents(crc, file, file', d, hs, Closed(d, sep, filter), index);
  }

  /** A block in a file of less than 4 GB. */
  lemma WrittenSmall(crc: Checksum, file: seq<Byte>, h: Handle, es: seq<Entry<Value>>)
    requires WrittenAt(crc, file, h, es) && |file| < WORD
    ensures Addresses(h) && DataAt(crc, file, h, es)
  {
    var bytes :| StoredAt(crc, file, h, bytes) && (|bytes| < WORD ==> DataBlock(bytes, es));
    StoredEnds(crc, file, h, bytes);
  }

  lemma WrittenRepresents(crc: Checksum, file: seq<Byte>, file': seq<Byte>, d: Draft, hs: seq<Handle>, t: Table,
                          index: seq<Byte>)
    requires Ok(d) && Written(crc, file, d, hs) && file <= file' && |file'| < WORD && t.file == d.file
    requires |t.index| == |hs| && IndexBlock(index, t.index, hs) && forall i: nat :: i < |hs| ==> t.index[i].value == d.offs[i]
    ensures Represents(crc, file', index, t, hs)
  {
    forall i: nat | i < |hs| ensures BlockIn(crc, file', t, hs, i) {
      assert WrittenBlock(crc, file, d, hs, i);
      WrittenExtends(crc, file, file', hs[i], d.file[d.offs[i]]);
      WrittenSmall(crc, file', hs[i], d.file[d.offs[i]]);
    }
  }

  lemma IndexedOn(ps: seq<B.Pair>, index: seq<Entry<nat>>, hs: seq<Handle>, h: Handle)
    requires Indexed(ps, index, hs)
    ensures Indexed(ps, index, hs + [h])
  {
    assert (hs + [h])[..|index|] == hs[..|index|];
  }

  /** The block whose index entry is to come is the last one. */
  lemma PendingIs(d: Draft, hs: seq<Handle>, crc: Checksum, file: seq<Byte>)
    requires Ok(d) && d.pending && Written(crc, file, d, hs)
    ensures |hs| == |d.offs| == |d.index| + 1
  {
    assert UnfoldAt(d, 0);
  }
}
