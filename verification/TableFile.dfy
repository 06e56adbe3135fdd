/** A table as the bytes of a file: data blocks, a filter block, a metaindex, an index of
    encoded separators and handles, and a footer; and the lookup that reads them. */
module TableFile {
  import opened Wrappers
  import opened Bits
  import opened Bytes
  import opened Coding
  import opened Keys
  import opened Table
  import opened Format
  import B = BlockBuilder
  import Block
  import Bloom
  import FilterBlock

  // ----- encoded keys in order

  /** These bytes are that internal key. */
  ghost predicate KeyIs(b: seq<Byte>, k: IKey) {
    forall u {:trigger UnfoldAt(b, u)} :: UnfoldAt(b, u) ==> k.tag < MAX_PACKED && b == EncodeKey(k)
  }

  /** The comparator of tables reads the keys out of the bytes. */
  const LESS: (seq<Byte>, seq<Byte>) -> bool := (a, b) => ILess(KeyIn(a), KeyIn(b))

  ghost predicate OrdersEncoded(less: (seq<Byte>, seq<Byte>) -> bool) {
    forall u {:trigger UnfoldAt(less, u)} :: UnfoldAt(less, u) ==>
      && Block.Transitive(less) && forall a, b :: less(a, b) <==> ILess(KeyIn(a), KeyIn(b))
  }

  lemma ComparatorOrders()
    ensures OrdersEncoded(LESS)
  {
    forall a, b, c | LESS(a, b) && LESS(b, c) ensures LESS(a, c) { ILessTransitive(KeyIn(a), KeyIn(b), KeyIn(c)); }
  }

  lemma EncodedLess(less: (seq<Byte>, seq<Byte>) -> bool, a: seq<Byte>, b: seq<Byte>, j: IKey, k: IKey)
    requires OrdersEncoded(less) && KeyIs(a, j) && KeyIs(b, k)
    ensures less(a, b) <==> ILess(j, k)
  {
    assert UnfoldAt(less, 0) && UnfoldAt(a, 0) && UnfoldAt(b, 0);
    KeyDecodes(j);
    KeyDecodes(k);
  }

  ghost predicate KeysAre<V>(ps: seq<B.Pair>, es: seq<Entry<V>>) {
    |ps| == |es| && forall i: nat :: i < |es| ==> KeyIs(ps[i].key, es[i].key)
  }

  lemma PairsSorted<V>(less: (seq<Byte>, seq<Byte>) -> bool, ps: seq<B.Pair>, es: seq<Entry<V>>)
    requires OrdersEncoded(less) && KeysAre(ps, es) && SortedBy(es)
    ensures Block.Sorted(ps, less)
  {
    forall i: nat, j: nat | i < j < |ps| ensures less(ps[i].key, ps[j].key) {
      EncodedLess(less, ps[i].key, ps[j].key, es[i].key, es[j].key);
    }
  }

  /** The place the block iterator finds for the bytes of a key is the first entry that is
      not less than it. */
  lemma BoundIsFirst<V>(less: (seq<Byte>, seq<Byte>) -> bool, ps: seq<B.Pair>, es: seq<Entry<V>>, b: seq<Byte>, k: IKey, i: nat)
    requires OrdersEncoded(less) && KeysAre(ps, es) && KeyIs(b, k) && Block.LowerBound(ps, less, b, i)
    ensures First(es, k) == i
  {
    forall m: nat | m < |es| ensures ILess(es[m].key, k) <==> m < i {
      EncodedLess(less, ps[m].key, b, es[m].key, k);
    }
    FirstIs(es, k, i);
  }

  /** Seek in the bytes of a block. */
  method SeekBlock<V>(bytes: seq<Byte>, target: seq<Byte>, ghost l: B.Layout, ghost es: seq<Entry<V>>, ghost k: IKey)
    returns (r: Option<B.Pair>)
    requires B.IsBlock(l, bytes) && KeysAre(l.entries, es) && SortedBy(es) && KeyIs(target, k)
    ensures var i := First(es, k); i <= |l.entries| && r == if i < |l.entries| then Some(l.entries[i]) else None
  {
    ComparatorOrders();
    var less := LESS;
    var iter := new Block.Iter(less, bytes, l);
    PairsSorted(less, l.entries, es);
    assert UnfoldAt(less, 0);
    ghost var i := iter.Seek(target);
    BoundIsFirst(less, l.entries, es, target, k, i);
    iter.ValidIs(i);
    if !iter.Valid() { return None; }
    return Some(B.Pair(iter.key, iter.data[iter.valueStart..iter.valueEnd]));
  }

  // ----- blocks of entries

  ghost predicate ValuesAre(ps: seq<B.Pair>, es: seq<Entry<Value>>) {
    |ps| == |es| && forall i: nat :: i < |es| ==> ps[i].value == es[i].value
  }

  ghost predicate HandlesAre(ps: seq<B.Pair>, hs: seq<Handle>) {
    |ps| == |hs| && forall i: nat :: i < |hs| ==> ps[i].value == EncodeHandle(hs[i])
  }

  /** The bytes of a data block hold these entries. */
  ghost predicate DataBlock(bytes: seq<Byte>, es: seq<Entry<Value>>) {
    exists l :: B.IsBlock(l, bytes) && KeysAre(l.entries, es) && ValuesAre(l.entries, es)
  }

  /** The bytes of an index block hold these separators and handles. */
  ghost predicate IndexBlock(bytes: seq<Byte>, index: seq<Entry<nat>>, hs: seq<Handle>) {
    exists l :: B.IsBlock(l, bytes) && KeysAre(l.entries, index) && HandlesAre(l.entries, hs)
  }

  ghost predicate DataAt(crc: Checksum, file: seq<Byte>, h: Handle, es: seq<Entry<Value>>) {
    exists bytes :: StoredAt(crc, file, h, bytes) && DataBlock(bytes, es)
  }

  /** The file has block i of the table, where its handle says. */
  ghost predicate BlockIn(crc: Checksum, file: seq<Byte>, t: Table, hs: seq<Handle>, i: nat)
    requires i < |hs| == |t.index|
  {
    && hs[i].offset == t.index[i].value && Addresses(hs[i])
    && t.index[i].value in t.file && DataAt(crc, file, hs[i], t.file[t.index[i].value])
  }

  /** A file and the bytes of an index block represent a table. */
  ghost predicate Represents(crc: Checksum, file: seq<Byte>, index: seq<Byte>, t: Table, hs: seq<Handle>) {
    && |hs| == |t.index| && IndexBlock(index, t.index, hs)
    && forall i: nat :: i < |hs| ==> BlockIn(crc, file, t, hs, i)
  }

  // ----- the index is in order

  lemma {:induction false} StartsIncrease(policy: Bloom.Policy, t: Table, all: seq<Entry<Value>>, starts: seq<nat>, i: nat, j: nat)
    requires IsTable(policy, t, all, starts) && i <= j <= |t.index|
    ensures starts[i] <= starts[j] <= |all| && (i < j ==> starts[i] < starts[j])
    decreases j
  {
    if j < |t.index| { assert BlockAt(t, all, starts, j); }
    if i < j {
      assert BlockAt(t, all, starts, j - 1);
      StartsIncrease(policy, t, all, starts, i, j - 1);
    }
  }

  /** A separator is less than the entries after its block, and not less than those in it. */
  lemma SeparatorBounds(policy: Bloom.Policy, t: Table, all: seq<Entry<Value>>, starts: seq<nat>, i: nat)
    requires IsTable(policy, t, all, starts) && i < |t.index|
    ensures 0 < starts[i + 1] <= |all| && ILessEq(all[starts[i + 1] - 1].key, t.index[i].key)
    ensures starts[i + 1] < |all| ==> ILess(t.index[i].key, all[starts[i + 1]].key)
  {
    assert BlockAt(t, all, starts, i) && SeparatorAt(t, all, starts, i);
    if starts[i + 1] < |all| {
      SeparatorBetween(all[starts[i + 1] - 1].key, t.index[i].key, all[starts[i + 1]].key);
    }
  }

  lemma IndexSorted(policy: Bloom.Policy, t: Table, all: seq<Entry<Value>>, starts: seq<nat>)
    requires IsTable(policy, t, all, starts)
    ensures SortedBy(t.index)
  {
    forall i: nat, j: nat | i < j < |t.index| ensures ILess(t.index[i].key, t.index[j].key) {
      SeparatorBounds(policy, t, all, starts, i);
      SeparatorBounds(policy, t, all, starts, j);
      StartsIncrease(policy, t, all, starts, i + 1, j + 1);
      Chained(t.index[i].key, all[starts[i + 1]].key, all[starts[j + 1] - 1].key, t.index[j].key);
    }
  }

  lemma Chained(a: IKey, b: IKey, c: IKey, d: IKey)
    requires ILess(a, b) && ILessEq(b, c) && ILessEq(c, d)
    ensures ILess(a, d)
  {
    if b != c { ILessTransitive(a, b, c); }
    if c != d { ILessTransitive(a, c, d); }
  }

  lemma BlockSorted(policy: Bloom.Policy, t: Table, all: seq<Entry<Value>>, starts: seq<nat>, i: nat)
    requires IsTable(policy, t, all, starts) && i < |t.index|
    ensures t.index[i].value in t.file && SortedBy(t.file[t.index[i].value])
  {
    assert BlockAt(t, all, starts, i);
  }

  // ----- the lookup

  /** What opening a table reads: the index block and the filter block, if it has one. */
  datatype Opened = Opened(index: seq<Byte>, filter: Option<seq<Byte>>)

  /** The pair is what the lookup in the table finds. */
  ghost predicate Encodes(r: Option<B.Pair>, x: Option<Entry<Value>>) {
    if x.None? then r.None? else r.Some? && KeyIs(r.value.key, x.value.key) && r.value.value == x.value.value
  }

  /** Read the block at a handle and seek in it. */
  method SeekAt(crc: Checksum, verify: bool, file: seq<Byte>, h: Handle, target: seq<Byte>, ghost es: seq<Entry<Value>>,
                ghost k: IKey)
    returns (r: Option<B.Pair>)
    requires DataAt(crc, file, h, es) && SortedBy(es) && KeyIs(target, k)
    ensures var j := First(es, k); Encodes(r, if j < |es| then Some(es[j]) else None)
  {
    ghost var contents :| StoredAt(crc, file, h, contents) && DataBlock(contents, es);
    var block := ReadBlock(crc, verify, file, h);
    ghost var l :| B.IsBlock(l, contents) && KeysAre(l.entries, es) && ValuesAre(l.entries, es);
    r := SeekBlock(block.value, target, l, es, k);
  }

  /** The handle the index has for a key, if the index does not end before. */
  method SeekIndex(index: seq<Byte>, target: seq<Byte>, ghost t: Table, ghost hs: seq<Handle>, ghost k: IKey)
    returns (r: Option<Handle>)
    requires IndexBlock(index, t.index, hs) && |hs| == |t.index| && SortedBy(t.index) && KeyIs(target, k)
    requires forall i: nat :: i < |hs| ==> Addresses(hs[i])
    ensures var i := First(t.index, k); r == if i < |hs| then Some(hs[i]) else None
  {
    ghost var l :| B.IsBlock(l, index) && KeysAre(l.entries, t.index) && HandlesAre(l.entries, hs);
    var found := SeekBlock(index, target, l, t.index, k);
    if found.None? { return None; }
    var value := found.value.value;
    WholeHandleDecodes(hs[First(t.index, k)]);
    return Some(DecodeHandle(value, 0, |value|).value.0);
  }

  /** Seek in the index, ask the filter, and seek in the one block. */
  method InternalGet(policy: Bloom.Policy, crc: Checksum, verify: bool, file: seq<Byte>, o: Opened, k: IKey,
                     ghost t: Table, ghost hs: seq<Handle>, ghost all: seq<Entry<Value>>, ghost starts: seq<nat>)
    returns (r: Option<B.Pair>)
    requires IsTable(policy, t, all, starts) && Represents(crc, file, o.index, t, hs) && o.filter == t.filter
    requires k.tag < MAX_PACKED
    ensures Readable(t) && Encodes(r, Lookup(policy, t, k))
  {
    IndexSorted(policy, t, all, starts);
    var target := EncodeKey(k);
    forall i: nat | i < |hs| ensures Addresses(hs[i]) && t.index[i].value in t.file { assert BlockIn(crc, file, t, hs, i); }
    var handle := SeekIndex(o.index, target, t, hs, k);
    if handle.None? { return None; }
    ghost var i := First(t.index, k);
    assert BlockIn(crc, file, t, hs, i);
    var offset := handle.value.offset;
    if o.filter.Some? {
      var filter := new FilterBlock.FilterBlockReader(policy, o.filter.value);
      var may := filter.KeyMayMatch(offset, k.user);
      if !may { return None; }
    }
    BlockSorted(policy, t, all, starts, i);
    r := SeekAt(crc, verify, file, handle.value, target, t.file[offset], k);
  }

  // ----- opening

  const FILTER_PREFIX: seq<Byte> := [102, 105, 108, 116, 101, 114, 46]

  /** The name under which the metaindex has a filter. */
  function FilterKey(name: seq<Byte>): seq<Byte> {
    FILTER_PREFIX + name
  }

  /** The metaindex has the handle of the filter block, if there is one, and nothing else. */
  ghost predicate MetaEntries(crc: Checksum, file: seq<Byte>, ps: seq<B.Pair>, name: seq<Byte>, filter: Option<seq<Byte>>) {
    match filter
    case None => ps == []
    case Some(contents) =>
      exists h :: Addresses(h) && StoredAt(crc, file, h, contents) && ps == [B.Pair(FilterKey(name), EncodeHandle(h))]
  }

  ghost predicate MetaAt(crc: Checksum, file: seq<Byte>, meta: Handle, name: seq<Byte>, filter: Option<seq<Byte>>) {
    exists bytes, l :: StoredAt(crc, file, meta, bytes) && B.IsBlock(l, bytes) && MetaEntries(crc, file, l.entries, name, filter)
  }

  ghost predicate FooterAt(file: seq<Byte>, meta: Handle, index: Handle) {
    && Addresses(meta) && Addresses(index) && |file| >= FOOTER
    && file[|file| - FOOTER..] == EncodeFooter(meta, index)
  }

  /** The metaindex handle and the index block of any file, if it has them. */
  method Open(crc: Checksum, verify: bool, file: seq<Byte>) returns (r: Option<(Handle, seq<Byte>)>)
    ensures forall meta, at, index :: FooterAt(file, meta, at) && StoredAt(crc, file, at, index) ==> r == Some((meta, index))
    ensures r.Some? ==>
      && |file| >= FOOTER
      && var footer := DecodeFooter(file[|file| - FOOTER..]);
      && footer.Some? && footer.value.0 == r.value.0
      && var at := footer.value.1;
      && at.offset + at.size + TRAILER <= |file| && r.value.1 == file[at.offset..at.offset + at.size]
      && (verify ==> StoredAt(crc, file, at, r.value.1))
  {
    if |file| < FOOTER { return None; }
    var footer := DecodeFooter(file[|file| - FOOTER..]);
    forall meta, at | FooterAt(file, meta, at) ensures footer == Some((meta, at)) { FooterRoundTrip(meta, at); }
    if footer.None? { return None; }
    var index := ReadBlock(crc, verify, file, footer.value.1);
    if index.None? { return None; }
    return Some((footer.value.0, index.value));
  }

  const BYTEWISE: (seq<Byte>, seq<Byte>) -> bool := (a, b) => Less(a, b)

  lemma BytewiseOrders()
    ensures Block.Transitive(BYTEWISE)
  {
    forall a, b, c | BYTEWISE(a, b) && BYTEWISE(b, c) ensures BYTEWISE(a, c) { LessTransitive(a, b, c); }
  }

  /** The filter block under the name of the reader's policy. */
  method ReadMeta(crc: Checksum, verify: bool, file: seq<Byte>, meta: Handle, mine: seq<Byte>, ghost name: seq<Byte>,
                  ghost filter: Option<seq<Byte>>)
    returns (r: Option<seq<Byte>>)
    requires MetaAt(crc, file, meta, name, filter)
    ensures r == if mine == name then filter else None
  {
    ghost var bytes, l :| StoredAt(crc, file, meta, bytes) && B.IsBlock(l, bytes) && MetaEntries(crc, file, l.entries, name, filter);
    var block := ReadBlock(crc, verify, file, meta);
    BytewiseOrders();
    var less := BYTEWISE;
    var iter := new Block.Iter(less, block.value, l);
    var key := FilterKey(mine);
    ghost var i := iter.Seek(key);
    iter.ValidIs(i);
    NamedBy(mine, name);
    if mine == name && filter.Some? { FoundFirst(l.entries, less, key, i); }
    if iter.Valid() && iter.key == key {
      r := ReadFilter(crc, verify, file, iter.data[iter.valueStart..iter.valueEnd], l.entries, name, filter);
    } else {
      r := None;
    }
  }

  method ReadFilter(crc: Checksum, verify: bool, file: seq<Byte>, value: seq<Byte>, ghost ps: seq<B.Pair>,
                    ghost name: seq<Byte>, ghost filter: Option<seq<Byte>>)
    returns (r: Option<seq<Byte>>)
    requires MetaEntries(crc, file, ps, name, filter) && |ps| > 0 && value == ps[0].value
    ensures r == filter
  {
    ghost var h :| Addresses(h) && StoredAt(crc, file, h, filter.value) && ps == [B.Pair(FilterKey(name), EncodeHandle(h))];
    WholeHandleDecodes(h);
    r := ReadBlock(crc, verify, file, DecodeHandle(value, 0, |value|).value.0);
  }

  lemma FoundFirst(ps: seq<B.Pair>, less: (seq<Byte>, seq<Byte>) -> bool, key: seq<Byte>, i: nat)
    requires less == BYTEWISE && |ps| > 0 && ps[0].key == key && Block.LowerBound(ps, less, key, i)
    ensures i == 0
  {
    if Less(key, key) { LessAsymmetric(key, key); }
    assert less(ps[0].key, key) <==> 0 < i;
  }

  lemma NamedBy(a: seq<Byte>, b: seq<Byte>)
    ensures FilterKey(a) == FilterKey(b) <==> a == b
  {
    assert FilterKey(a)[|FILTER_PREFIX|..] == a && FilterKey(b)[|FILTER_PREFIX|..] == b;
  }

  // ----- what the filter is good for

  /** The user key is in a block that starts in range x of the file. */
  ghost predicate InRange(t: Table, all: seq<Entry<Value>>, starts: seq<nat>, x: nat, key: seq<Byte>)
    requires |starts| == |t.index| + 1
  {
    exists j: nat, m: nat :: j < |t.index| && t.index[j].value / FilterBlock.BASE == x &&
      starts[j] <= m < starts[j + 1] && m < |all| && all[m].key.user == key
  }

  /** For block i the filter admits just the keys that share all their probes with the keys
      of the blocks that start in the same range of the file. */
  ghost predicate SharpAt(policy: Bloom.Policy, t: Table, all: seq<Entry<Value>>, starts: seq<nat>,
                          filters: seq<seq<seq<Byte>>>, i: nat)
    requires |starts| == |t.index| + 1 && i < |t.index| && t.filter.Some?
  {
    var off := t.index[i].value;
    var x := off / FilterBlock.BASE;
    && x < |filters| && (forall key :: key in filters[x] <==> InRange(t, all, starts, x, key))
    && forall key :: FilterBlock.MayMatchAt(policy, t.filter.value, off, key) <==> policy.Shares(filters[x], key)
  }

  ghost predicate Sharp(policy: Bloom.Policy, t: Table, all: seq<Entry<Value>>, starts: seq<nat>)
    requires |starts| == |t.index| + 1
  {
    t.filter.Some? ==> exists filters :: SharpBy(policy, t, all, starts, filters)
  }

  ghost predicate SharpBy(policy: Bloom.Policy, t: Table, all: seq<Entry<Value>>, starts: seq<nat>,
                          filters: seq<seq<seq<Byte>>>)
    requires |starts| == |t.index| + 1 && t.filter.Some?
  {
    forall i: nat :: i < |t.index| ==> SharpAt(policy, t, all, starts, filters, i)
  }

  // ----- reading a key

  /** The table a file represents, and where its parts are. */
  datatype Image = Image(t: Table, starts: seq<nat>, hs: seq<Handle>, index: seq<Byte>, meta: Handle, at: Handle)

  ghost predicate IsImage(policy: Bloom.Policy, name: seq<Byte>, filtered: bool, crc: Checksum, file: seq<Byte>,
                          all: seq<Entry<Value>>, im: Image)
  {
    && (im.t.filter.Some? <==> filtered) && |im.starts| == |im.t.index| + 1 && Sharp(policy, im.t, all, im.starts)
    && IsTable(policy, im.t, all, im.starts) && Represents(crc, file, im.index, im.t, im.hs)
    && FooterAt(file, im.meta, im.at) && StoredAt(crc, file, im.at, im.index)
    && MetaAt(crc, file, im.meta, name, im.t.filter)
  }

  /** The file is a table of these entries, with a filter or without one. */
  ghost predicate TableOf(policy: Bloom.Policy, name: seq<Byte>, filtered: bool, crc: Checksum, file: seq<Byte>,
                          all: seq<Entry<Value>>)
  {
    exists im :: IsImage(policy, name, filtered, crc, file, all, im)
  }

  datatype Answer = NotFound | Found(value: Value) | Deleted | Corrupt

  /** What the saver makes of a pair. */
  function SaveValue(r: Option<B.Pair>, user: seq<Byte>): Answer {
    if r.None? then NotFound
    else if |r.value.key| < 8 || KeyIn(r.value.key).tag % 256 > VALUE then Corrupt
    else if KeyIn(r.value.key).user != user then NotFound
    else if KeyIn(r.value.key).tag % 256 == VALUE then Found(r.value.value)
    else Deleted
  }

  /** The answer is the newest entry of the user key that a reader at a sequence number
      sees. */
  ghost predicate Answers(all: seq<Entry<Value>>, user: seq<Byte>, sequence: nat, a: Answer) {
    match a
    case NotFound => forall j: nat :: !Newest(all, user, sequence, j)
    case Found(v) => exists j: nat :: Newest(all, user, sequence, j) && all[j].key.tag % 256 == VALUE && all[j].value == v
    case Deleted => exists j: nat :: Newest(all, user, sequence, j) && all[j].key.tag % 256 == DELETION
    case Corrupt => false
  }

  lemma WithoutFilter(policy: Bloom.Policy, t: Table, all: seq<Entry<Value>>, starts: seq<nat>)
    requires IsTable(policy, t, all, starts)
    ensures IsTable(policy, t.(filter := None), all, starts)
  {
    var t' := t.(filter := None);
    forall i: nat | i < |t'.index|
      ensures BlockAt(t', all, starts, i) && SeparatorAt(t', all, starts, i) && FilteredAt(policy, t', all, starts, i)
    {
      assert BlockAt(t, all, starts, i) && SeparatorAt(t, all, starts, i);
    }
  }

  lemma RepresentsWithout(crc: Checksum, file: seq<Byte>, index: seq<Byte>, t: Table, hs: seq<Handle>)
    requires Represents(crc, file, index, t, hs)
    ensures Represents(crc, file, index, t.(filter := None), hs)
  {
    forall i: nat | i < |hs| ensures BlockIn(crc, file, t.(filter := None), hs, i) { assert BlockIn(crc, file, t, hs, i); }
  }

  lemma SavedAnswers(policy: Bloom.Policy, t: Table, all: seq<Entry<Value>>, starts: seq<nat>, user: seq<Byte>, sequence: nat,
                     r: Option<B.Pair>)
    requires IsTable(policy, t, all, starts) && Typed(all) && Readable(t)
    requires Encodes(r, Lookup(policy, t, IKey(user, Pack(sequence, VALUE))))
    ensures Answers(all, user, sequence, SaveValue(r, user))
  {
    GetNewest(policy, t, all, starts, user, sequence);
    if r.Some? {
      var k := IKey(user, Pack(sequence, VALUE));
      LookupTyped(policy, t, all, starts, k);
      assert UnfoldAt(r.value.key, 0);
      KeyDecodes(Lookup(policy, t, k).value.key);
    }
  }

  lemma LookupTyped(policy: Bloom.Policy, t: Table, all: seq<Entry<Value>>, starts: seq<nat>, k: IKey)
    requires IsTable(policy, t, all, starts) && Typed(all) && Readable(t) && Lookup(policy, t, k).Some?
    ensures HasType(Lookup(policy, t, k).value.key)
  {
    var i := First(t.index, k);
    assert BlockAt(t, all, starts, i);
    var j := First(t.file[t.index[i].value], k);
    assert HasType(all[starts[i] + j].key);
  }

  /** Opening a table file and looking up a key: the answer is the newest entry the reader
      sees, also when the reader has no filter policy, or one of another name. */
  method Get(policy: Bloom.Policy, mine: Option<seq<Byte>>, crc: Checksum, verify: bool, file: seq<Byte>,
             user: seq<Byte>, sequence: nat, ghost name: seq<Byte>, ghost filtered: bool, ghost all: seq<Entry<Value>>)
    returns (a: Answer)
    requires TableOf(policy, name, filtered, crc, file, all) && Typed(all) && Pack(sequence, VALUE) < MAX_PACKED
    ensures Answers(all, user, sequence, a)
  {
    ghost var im: Image :| IsImage(policy, name, filtered, crc, file, all, im);
    var parts := Open(crc, verify, file);
    assert parts == Some((im.meta, im.index));
    var filter := None;
    if mine.Some? {
      filter := ReadMeta(crc, verify, file, parts.value.0, mine.value, name, im.t.filter);
    }
    ghost var t := im.t;
    if filter.None? {
      WithoutFilter(policy, t, all, im.starts);
      RepresentsWithout(crc, file, im.index, t, im.hs);
      t := t.(filter := None);
    }
    var k := IKey(user, Pack(sequence, VALUE));
    var r := InternalGet(policy, crc, verify, file, Opened(parts.value.1, filter), k, t, im.hs, all, im.starts);
    SavedAnswers(policy, t, all, im.starts, user, sequence, r);
    a := SaveValue(r, user);
  }
}
