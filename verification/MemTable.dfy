/** The memtable: a skip list of encoded entries that answers for every sequence number
    what the last operation on a user key was. */
module MemTable {
  import opened Wrappers
  import opened Bits
  import opened Bytes
  import opened Coding
  import opened Keys
  import opened Table
  import opened WriteBatch
  import SL = SkipList

  // ----- entries in memory

  /** Length-prefixed internal key, then length-prefixed value. */
  function EncodeEntry(e: Entry<Value>): seq<Byte>
    requires e.key.tag < MAX_PACKED
  {
    Prefixed(EncodeKey(e.key)) + Prefixed(e.value)
  }

  predicate Storable(e: Entry<Value>) {
    e.key.tag < MAX_PACKED && |e.key.user| + 8 < WORD && |e.value| < WORD
  }

  function DecodeKey(buffer: seq<Byte>): Option<(IKey, nat)> {
    var r := GetPrefixed(buffer, 0);
    if r.None? || |r.value.0| < 8 then None
    else Some((KeyIn(r.value.0), r.value.1))
  }

  function DecodeEntry(buffer: seq<Byte>): Option<Entry<Value>> {
    var k := DecodeKey(buffer);
    if k.None? then None
    else
      var v := GetPrefixed(buffer, k.value.1);
      if v.None? then None else Some(Entry(k.value.0, v.value.0))
  }

  lemma PartsDecode(kb: seq<Byte>, vb: seq<Byte>, b: seq<Byte>, v: seq<Byte>)
    requires IsPrefixed(kb, b) && IsPrefixed(vb, v)
    ensures GetPrefixed(kb + vb, 0) == Some((b, |kb|)) && GetPrefixed(kb + vb, |kb|) == Some((v, |kb| + |vb|))
  {
    assert (kb + vb)[0..|kb|] == kb && (kb + vb)[|kb|..|kb| + |vb|] == vb;
    PrefixedReads(kb + vb, 0, kb, b);
    PrefixedReads(kb + vb, |kb|, vb, v);
  }

  /** An entry decodes to itself. */
  lemma EntryDecodes(e: Entry<Value>)
    requires Storable(e)
    ensures DecodeEntry(EncodeEntry(e)) == Some(e)
  {
    KeyDecodes(e.key);
    var b := EncodeKey(e.key);
    assert IsPrefixed(Prefixed(b), b) && IsPrefixed(Prefixed(e.value), e.value);
    PartsDecode(Prefixed(b), Prefixed(e.value), b, e.value);
  }

  // ----- the order of the list

  /** The internal key at the start of an entry or of a lookup key in memory. */
  function KeyOf(buffer: seq<Byte>): IKey {
    var d := DecodeKey(buffer);
    if d.Some? then d.value.0 else IKey([], 0)
  }

  function EntryIn(buffer: seq<Byte>): Entry<Value> {
    var d := DecodeEntry(buffer);
    if d.Some? then d.value else Entry(IKey([], 0), [])
  }

  /** The comparator of the list reads the keys out of the bytes. */
  const LESS: (seq<Byte>, seq<Byte>) -> bool := (a, b) => ILess(KeyOf(a), KeyOf(b))

  lemma LessOrdered()
    ensures SL.Ordered(LESS) && OrdersKeys(LESS)
  {
    forall a ensures !LESS(a, a) { ILessTotal(KeyOf(a), KeyOf(a)); }
    forall a, b, c | LESS(a, b) && LESS(b, c) ensures LESS(a, c) { ILessTransitive(KeyOf(a), KeyOf(b), KeyOf(c)); }
  }

  /** These bytes start with that key. */
  ghost predicate HasKey(buffer: seq<Byte>, k: IKey) {
    forall u {:trigger UnfoldAt(buffer, u)} :: UnfoldAt(buffer, u) ==> KeyOf(buffer) == k
  }

  ghost predicate OrdersKeys(less: (seq<Byte>, seq<Byte>) -> bool) {
    forall u {:trigger UnfoldAt(less, u)} :: UnfoldAt(less, u) ==>
      forall a, b :: less(a, b) <==> ILess(KeyOf(a), KeyOf(b))
  }

  lemma LessIs(less: (seq<Byte>, seq<Byte>) -> bool, a: seq<Byte>, b: seq<Byte>, j: IKey, k: IKey)
    requires OrdersKeys(less) && HasKey(a, j) && HasKey(b, k)
    ensures less(a, b) <==> ILess(j, k)
  {
    assert UnfoldAt(a, 0) && UnfoldAt(b, 0) && UnfoldAt(less, 0);
  }

  /** These bytes are that entry. */
  ghost predicate Decodes(buffer: seq<Byte>, e: Entry<Value>) {
    forall u {:trigger UnfoldAt(buffer, u)} :: UnfoldAt(buffer, u) ==> KeyOf(buffer) == e.key && EntryIn(buffer) == e
  }

  lemma EncodedIs(e: Entry<Value>)
    requires Storable(e)
    ensures Decodes(EncodeEntry(e), e) && HasKey(EncodeEntry(e), e.key)
  {
    EntryDecodes(e);
  }

  /** The bytes of a lookup key have the key at the same place. */
  lemma LookupIs(k: IKey)
    requires k.tag < MAX_PACKED && |k.user| + 8 < WORD
    ensures HasKey(Prefixed(EncodeKey(k)), k)
  {
    KeyDecodes(k);
    var b := EncodeKey(k);
    assert IsPrefixed(Prefixed(b), b) && Prefixed(b)[0..|Prefixed(b)|] == Prefixed(b);
    PrefixedReads(Prefixed(b), 0, Prefixed(b), b);
  }

  // ----- the versioned map

  /** One operation with its sequence number. */
  datatype Write = Write(sequence: nat, op: Op)

  function EntryOf(w: Write): Entry<Value> {
    match w.op
    case Put(k, v) => Entry(IKey(k, Pack(w.sequence, VALUE)), v)
    case Delete(k) => Entry(IKey(k, Pack(w.sequence, DELETION)), [])
  }

  ghost predicate Numbered(history: seq<Write>) {
    forall i: nat, j: nat :: i < j < |history| ==> history[i].sequence < history[j].sequence
  }

  /** The last operation on a user key up to a sequence number. */
  ghost function Latest(history: seq<Write>, user: seq<Byte>, s: nat): Option<Op> {
    if history == [] then None
    else
      var w := history[|history| - 1];
      if w.op.key == user && w.sequence <= s then Some(w.op) else Latest(history[..|history| - 1], user, s)
  }

  lemma {:induction false} LatestIs(history: seq<Write>, user: seq<Byte>, s: nat) returns (i: nat)
    ensures Latest(history, user, s).Some? ==>
      && i < |history| && Latest(history, user, s) == Some(history[i].op)
      && history[i].op.key == user && history[i].sequence <= s
      && forall j: nat :: i < j < |history| && history[j].op.key == user ==> history[j].sequence > s
    ensures Latest(history, user, s).None? ==>
      forall j: nat :: j < |history| && history[j].op.key == user ==> history[j].sequence > s
  {
    i := 0;
    if history != [] {
      var n := |history| - 1;
      if history[n].op.key == user && history[n].sequence <= s {
        i := n;
      } else {
        i := LatestIs(history[..n], user, s);
      }
    }
  }

  /** The list holds just the operations of the history. */
  ghost predicate ListsAll(list: seq<Entry<Value>>, history: seq<Write>) {
    && (forall i: nat :: i < |history| ==> EntryOf(history[i]) in list)
    && (forall e :: e in list ==> exists i: nat :: i < |history| && e == EntryOf(history[i]))
  }

  lemma EntrySeen(w: Write, user: seq<Byte>, s: nat)
    ensures HasType(EntryOf(w).key)
    ensures Seen(EntryOf(w).key, user, s) <==> w.op.key == user && w.sequence <= s
  {
  }

  lemma ListTyped(list: seq<Entry<Value>>, history: seq<Write>)
    requires ListsAll(list, history)
    ensures Typed(list)
  {
    forall m: nat | m < |list| ensures HasType(list[m].key) {
      assert list[m] in list;
      var i: nat :| i < |history| && list[m] == EntryOf(history[i]);
      EntrySeen(history[i], [], 0);
    }
  }

  /** The newest entry in the list is the last operation. */
  lemma NewestIsLatest(list: seq<Entry<Value>>, history: seq<Write>, user: seq<Byte>, s: nat, j: nat)
    requires ListsAll(list, history) && Numbered(history) && Newest(list, user, s, j)
    ensures IsLatest(history, user, s, list[j])
  {
    var i := LatestIs(history, user, s);
    assert list[j] in list;
    var n: nat :| n < |history| && list[j] == EntryOf(history[n]);
    NewestAt(list, history, user, s, j, i, n);
  }

  /** An entry of the last operation on a user key. */
  ghost predicate IsLatest(history: seq<Write>, user: seq<Byte>, s: nat, e: Entry<Value>) {
    exists i: nat :: i < |history| && e == EntryOf(history[i]) && Latest(history, user, s) == Some(history[i].op)
  }

  lemma NoneIsLatest(list: seq<Entry<Value>>, history: seq<Write>, user: seq<Byte>, s: nat)
    requires ListsAll(list, history) && Typed(list) && SortedBy(list) && forall j: nat :: !Newest(list, user, s, j)
    ensures Latest(history, user, s) == None
  {
    var i := LatestIs(history, user, s);
    if Latest(history, user, s).Some? {
      var m := LatestListed(list, history, user, s, i);
      FirstIsNewest(list, user, s);
      FirstSeen(list, user, s, IKey(user, Pack(s, VALUE)), m);
      assert false;
    }
  }

  lemma LatestListed(list: seq<Entry<Value>>, history: seq<Write>, user: seq<Byte>, s: nat, i: nat) returns (m: nat)
    requires ListsAll(list, history) && i < |history| && history[i].op.key == user && history[i].sequence <= s
    ensures m < |list| && list[m] == EntryOf(history[i]) && Seen(list[m].key, user, s)
  {
    EntrySeen(history[i], user, s);
    m :| m < |list| && list[m] == EntryOf(history[i]);
  }

  lemma NewestAt(list: seq<Entry<Value>>, history: seq<Write>, user: seq<Byte>, s: nat, j: nat, i: nat, n: nat)
    requires ListsAll(list, history) && Numbered(history) && Newest(list, user, s, j)
    requires n < |history| && list[j] == EntryOf(history[n])
    requires Latest(history, user, s).Some? ==>
      && i < |history| && Latest(history, user, s) == Some(history[i].op)
      && history[i].op.key == user && history[i].sequence <= s
      && forall j: nat :: i < j < |history| && history[j].op.key == user ==> history[j].sequence > s
    requires Latest(history, user, s).None? ==>
      forall j: nat :: j < |history| && history[j].op.key == user ==> history[j].sequence > s
    ensures Latest(history, user, s) == Some(history[n].op)
  {
    EntrySeen(history[n], user, s);
    var m := LatestListed(list, history, user, s, i);
    assert history[i].sequence <= history[n].sequence;
    assert i == n;
  }

  // ----- the object

  datatype Answer = Found(value: seq<Byte>) | Deleted | Absent

  /** What the last operation on a user key answers. */
  function AnswerOf(op: Option<Op>): Answer {
    match op
    case None => Absent
    case Some(Put(_, v)) => Found(v)
    case Some(Delete(_)) => Deleted
  }

  // ----- the list as a sequence of entries

  /** The bytes of one operation. */
  function BufferOf(w: Write): seq<Byte> {
    if EntryOf(w).key.tag < MAX_PACKED then EncodeEntry(EntryOf(w)) else []
  }

  ghost function Buffers(history: seq<Write>): set<seq<Byte>> {
    set w | w in history :: BufferOf(w)
  }

  ghost predicate AllStorable(history: seq<Write>) {
    forall w :: w in history ==> Storable(EntryOf(w))
  }

  /** The entries of the nodes c, the head aside. */
  ghost predicate IsEntries(m: SL.Mem<seq<Byte>>, c: seq<nat>, es: seq<Entry<Value>>) {
    && |c| == |es| + 1 && (forall i: nat :: i < |c| ==> c[i] < |m.nodes|)
    && (forall i: nat :: i < |es| ==> Decodes(m.Key(c[i + 1]), es[i]))
  }

  /** A buffer of the list is the entry of some operation. */
  lemma NodeEntry(m: SL.Mem<seq<Byte>>, c: seq<nat>, history: seq<Write>, i: nat) returns (w: Write)
    requires SL.Keys(m, c) == Buffers(history) && AllStorable(history) && 0 < i < |c| && c[i] < |m.nodes|
    ensures w in history && m.Key(c[i]) == BufferOf(w) && Decodes(m.Key(c[i]), EntryOf(w))
  {
    assert m.Key(c[i]) in SL.Keys(m, c);
    w :| w in history && m.Key(c[i]) == BufferOf(w);
    EncodedIs(EntryOf(w));
  }

  ghost predicate FromHistory(e: Entry<Value>, history: seq<Write>) {
    exists w :: w in history && e == EntryOf(w)
  }

  lemma MakeEntries(m: SL.Mem<seq<Byte>>, c: seq<nat>, history: seq<Write>) returns (es: seq<Entry<Value>>)
    requires SL.Chain(m, c, 0) && SL.Keys(m, c) == Buffers(history) && AllStorable(history)
    ensures IsEntries(m, c, es) && forall i: nat :: i < |es| ==> FromHistory(es[i], history)
  {
    es := [];
    while |es| + 1 < |c|
      invariant |es| + 1 <= |c| && IsEntries(m, c[..|es| + 1], es)
      invariant forall i: nat :: i < |es| ==> FromHistory(es[i], history)
    {
      var w := NodeEntry(m, c, history, |es| + 1);
      es := es + [EntryOf(w)];
    }
    assert c[..|c|] == c;
  }

  /** What the list means: sorted entries, just those of the history. */
  lemma EntriesAre(m: SL.Mem<seq<Byte>>, c: seq<nat>, history: seq<Write>) returns (es: seq<Entry<Value>>)
    requires SL.Chain(m, c, 0) && OrdersKeys(m.less) && SL.Keys(m, c) == Buffers(history) && AllStorable(history)
    ensures IsEntries(m, c, es) && SortedBy(es) && ListsAll(es, history)
  {
    es := MakeEntries(m, c, history);
    EntriesSorted(m, c, es);
    EntriesListed(m, c, history, es);
  }

  lemma EntriesSorted(m: SL.Mem<seq<Byte>>, c: seq<nat>, es: seq<Entry<Value>>)
    requires SL.Chain(m, c, 0) && OrdersKeys(m.less) && IsEntries(m, c, es)
    ensures SortedBy(es)
  {
    forall i: nat, j: nat | i < j < |es| ensures ILess(es[i].key, es[j].key) {
      assert m.Lt(c[i + 1], c[j + 1]);
      assert Decodes(m.Key(c[i + 1]), es[i]) && Decodes(m.Key(c[j + 1]), es[j]);
      DecodedLess(m.less, m.Key(c[i + 1]), m.Key(c[j + 1]), es[i], es[j]);
    }
  }

  lemma DecodedLess(less: (seq<Byte>, seq<Byte>) -> bool, a: seq<Byte>, b: seq<Byte>, d: Entry<Value>, e: Entry<Value>)
    requires OrdersKeys(less) && Decodes(a, d) && Decodes(b, e)
    ensures less(a, b) <==> ILess(d.key, e.key)
  {
    DecodedKey(a, d);
    DecodedKey(b, e);
    LessIs(less, a, b, d.key, e.key);
  }

  lemma DecodedKey(buffer: seq<Byte>, e: Entry<Value>)
    requires Decodes(buffer, e)
    ensures HasKey(buffer, e.key)
  {
    assert UnfoldAt(buffer, 0);
  }

  lemma DecodedOnce(buffer: seq<Byte>, d: Entry<Value>, e: Entry<Value>)
    requires Decodes(buffer, d) && Decodes(buffer, e)
    ensures d == e
  {
    assert UnfoldAt(buffer, 0);
  }

  lemma EntriesListed(m: SL.Mem<seq<Byte>>, c: seq<nat>, history: seq<Write>, es: seq<Entry<Value>>)
    requires SL.Keys(m, c) == Buffers(history) && AllStorable(history) && IsEntries(m, c, es)
    requires forall i: nat :: i < |es| ==> FromHistory(es[i], history)
    ensures ListsAll(es, history)
  {
    forall e | e in es ensures exists i: nat :: i < |history| && e == EntryOf(history[i]) {
      var j: nat :| j < |es| && es[j] == e;
      assert FromHistory(es[j], history);
      var w :| w in history && es[j] == EntryOf(w);
      var i: nat :| i < |history| && history[i] == w;
    }
    forall i: nat | i < |history| ensures EntryOf(history[i]) in es {
      WriteListed(m, c, history, es, i);
    }
  }

  lemma WriteListed(m: SL.Mem<seq<Byte>>, c: seq<nat>, history: seq<Write>, es: seq<Entry<Value>>, i: nat)
    requires SL.Keys(m, c) == Buffers(history) && AllStorable(history) && IsEntries(m, c, es) && i < |history|
    ensures EntryOf(history[i]) in es
  {
    assert BufferOf(history[i]) in SL.Keys(m, c);
    var j: nat :| 0 < j < |c| && c[j] < |m.nodes| && m.nodes[c[j]].key == BufferOf(history[i]);
    EncodedIs(EntryOf(history[i]));
    assert Decodes(m.Key(c[j - 1 + 1]), es[j - 1]);
    DecodedOnce(m.Key(c[j]), es[j - 1], EntryOf(history[i]));
  }

  /** No entry of the list compares equal to that of a new operation. */
  lemma FreshBuffer(m: SL.Mem<seq<Byte>>, c: seq<nat>, history: seq<Write>, w: Write)
    requires SL.Chain(m, c, 0) && OrdersKeys(m.less) && SL.Keys(m, c) == Buffers(history) && AllStorable(history)
    requires Numbered(history + [w]) && Storable(EntryOf(w))
    ensures SL.Fresh(m, c, BufferOf(w))
  {
    EncodedIs(EntryOf(w));
    forall i: nat | 0 < i < |c| ensures m.less(m.Key(c[i]), BufferOf(w)) || m.less(BufferOf(w), m.Key(c[i])) {
      var v := NodeEntry(m, c, history, i);
      NewerKey(history, v, w);
      ILessTotal(EntryOf(v).key, EntryOf(w).key);
      DecodedLess(m.less, m.Key(c[i]), BufferOf(w), EntryOf(v), EntryOf(w));
      DecodedLess(m.less, BufferOf(w), m.Key(c[i]), EntryOf(w), EntryOf(v));
    }
  }

  lemma NewerKey(history: seq<Write>, v: Write, w: Write)
    requires v in history && Numbered(history + [w])
    ensures EntryOf(v).key != EntryOf(w).key
  {
    var all := history + [w];
    var i: nat :| i < |history| && history[i] == v;
    assert all[i].sequence < all[|history|].sequence;
  }

  /** Where the search of the list stops is the first entry not less than the key. */
  lemma BoundIsFirst(m: SL.Mem<seq<Byte>>, c: seq<nat>, es: seq<Entry<Value>>, k: IKey, target: seq<Byte>, x: nat, n: int)
    requires OrdersKeys(m.less) && IsEntries(m, c, es) && HasKey(target, k) && SL.Bound(m, c, SL.Before(target), x, n)
    ensures var j := First(es, k);
      if n < 0 then j == |es| else n < |m.nodes| && j < |es| && Decodes(m.Key(n), es[j])
  {
    var a: nat :| SL.BoundAt(m, c, SL.Before(target), a) && c[a] == x && n == SL.Follower(c, a);
    forall i: nat | i < |es| ensures ILess(es[i].key, k) <==> i < a {
      EntryBelow(m, c, es, k, target, i);
      assert SL.Below(m, SL.Before(target), m.Key(c[i + 1])) <==> i + 1 <= a;
    }
    FirstIs(es, k, a);
    assert a < |es| ==> Decodes(m.Key(c[a + 1]), es[a]);
  }

  lemma EntryBelow(m: SL.Mem<seq<Byte>>, c: seq<nat>, es: seq<Entry<Value>>, k: IKey, target: seq<Byte>, i: nat)
    requires OrdersKeys(m.less) && IsEntries(m, c, es) && HasKey(target, k) && i < |es|
    ensures ILess(es[i].key, k) <==> m.less(m.Key(c[i + 1]), target)
  {
    assert Decodes(m.Key(c[i + 1]), es[i]);
    DecodedKey(m.Key(c[i + 1]), es[i]);
    LessIs(m.less, m.Key(c[i + 1]), target, es[i].key, k);
  }

  lemma BuffersMore(history: seq<Write>, w: Write)
    ensures Buffers(history + [w]) == Buffers(history) + {BufferOf(w)}
  {
    forall v ensures v in history + [w] <==> v in history || v == w {
    }
  }

  class MemTable {
    const list: SL.List<seq<Byte>>
    ghost var history: seq<Write>

    ghost predicate Valid()
      reads this, list
    {
      && list.Valid() && OrdersKeys(list.m.less)
      && SL.Keys(list.m, list.lists[0]) == Buffers(history) && AllStorable(history) && Numbered(history)
    }

    constructor ()
      ensures Valid() && history == [] && fresh(list)
    {
      LessOrdered();
      list := new SL.List(LESS, []);
      history := [];
    }

    /** Add an operation; the list orders it by user key and then newest first.  The height
        of its node is random. */
    method Add(sequence: nat, op: Op, height: nat)
      requires Valid() && Numbered(history + [Write(sequence, op)]) && Storable(EntryOf(Write(sequence, op)))
      requires 0 < height <= SL.MAX_HEIGHT
      modifies this, list
      ensures Valid() && history == old(history) + [Write(sequence, op)]
    {
      ghost var w := Write(sequence, op);
      var buffer := EncodeEntry(EntryOf(Write(sequence, op)));
      SL.BottomOf(list.m, list.lists);
      FreshBuffer(list.m, list.lists[0], history, w);
      list.Insert(buffer, height);
      BuffersMore(history, w);
      history := history + [w];
    }

    /** What the last operation on a user key up to a sequence number left. */
    method Get(user: seq<Byte>, s: nat) returns (r: Answer)
      requires Valid() && Pack(s, VALUE) < MAX_PACKED && |user| + 8 < WORD
      ensures r == AnswerOf(Latest(history, user, s))
    {
      var k := IKey(user, Pack(s, VALUE));
      SL.BottomOf(list.m, list.lists);
      ghost var c := list.lists[0];
      ghost var es := EntriesAre(list.m, c, history);
      AnswerIs(es, history, user, s);
      var target := Prefixed(EncodeKey(k));
      LookupIs(k);
      var n, prev := SL.FindGreaterOrEqual(list.m, target, list.lists);
      BoundIsFirst(list.m, c, es, k, target, prev[0], n);
      if n >= 0 {
        var e := ReadEntry(list.m.Key(n), es[First(es, k)]);
        if e.key.user == user {
          return if e.key.tag % 256 == VALUE then Found(e.value) else Deleted;
        }
      }
      return Absent;
    }
  }

  method ReadEntry(buffer: seq<Byte>, ghost e: Entry<Value>) returns (r: Entry<Value>)
    requires Decodes(buffer, e)
    ensures r == e
  {
    assert UnfoldAt(buffer, 0);
    r := EntryIn(buffer);
  }

  /** What the first entry not less than the lookup key says. */
  lemma AnswerIs(list: seq<Entry<Value>>, history: seq<Write>, user: seq<Byte>, s: nat)
    requires SortedBy(list) && ListsAll(list, history) && Numbered(history)
    ensures var j := First(list, IKey(user, Pack(s, VALUE)));
      AnswerOf(Latest(history, user, s))
      == if j == |list| || list[j].key.user != user then Absent
         else if list[j].key.tag % 256 == VALUE then Found(list[j].value) else Deleted
  {
    var j := First(list, IKey(user, Pack(s, VALUE)));
    ListTyped(list, history);
    FirstIsNewest(list, user, s);
    if j < |list| && list[j].key.user == user {
      NewestIsLatest(list, history, user, s, j);
      LatestSays(history, user, s, list[j]);
    } else {
      NoneIsLatest(list, history, user, s);
    }
  }

  lemma LatestSays(history: seq<Write>, user: seq<Byte>, s: nat, e: Entry<Value>)
    requires IsLatest(history, user, s, e)
    ensures AnswerOf(Latest(history, user, s)) == if e.key.tag % 256 == VALUE then Found(e.value) else Deleted
  {
    var i: nat :| i < |history| && e == EntryOf(history[i]) && Latest(history, user, s) == Some(history[i].op);
    TypeIs(history[i]);
  }

  lemma TypeIs(w: Write)
    ensures EntryOf(w).key.tag % 256 == if w.op.Put? then VALUE else DELETION
  {
    PackedType(w.sequence, VALUE);
    PackedType(w.sequence, DELETION);
  }

  lemma PackedType(sequence: nat, t: nat)
    requires t < 256
    ensures Pack(sequence, t) % 256 == t
  {
  }

  // ----- replaying a batch

  /** The operations of a batch with consecutive numbers. */
  function Numbers(sequence: nat, ops: seq<Op>): seq<Write> {
    seq(|ops|, i requires 0 <= i < |ops| => Write(sequence + i, ops[i]))
  }

  /** A batch can be added: its numbers are above all before and its entries can be stored. */
  ghost predicate Addable(history: seq<Write>, sequence: nat, ops: seq<Op>) {
    && (forall i: nat :: i < |history| ==> history[i].sequence < sequence)
    && forall i: nat :: i < |ops| ==> Storable(EntryOf(Write(sequence + i, ops[i])))
  }

  lemma NumberedMore(history: seq<Write>, sequence: nat, ops: seq<Op>, i: nat)
    requires Numbered(history) && Addable(history, sequence, ops) && i < |ops|
    requires Numbered(history + Numbers(sequence, ops)[..i])
    ensures Numbered(history + Numbers(sequence, ops)[..i] + [Write(sequence + i, ops[i])])
    ensures history + Numbers(sequence, ops)[..i] + [Write(sequence + i, ops[i])] == history + Numbers(sequence, ops)[..i + 1]
    ensures Storable(EntryOf(Write(sequence + i, ops[i])))
  {
  }

  method Replay(ops: seq<Op>, sequence: nat, mem: MemTable, height: nat -> nat)
    requires mem.Valid() && Addable(mem.history, sequence, ops) && forall i :: 0 < height(i) <= SL.MAX_HEIGHT
    modifies mem, mem.list
    ensures mem.Valid() && mem.history == old(mem.history) + Numbers(sequence, ops)
  {
    ghost var history := mem.history;
    for i := 0 to |ops|
      invariant mem.Valid() && mem.history == history + Numbers(sequence, ops)[..i]
    {
      NumberedMore(history, sequence, ops, i);
      mem.Add(sequence + i, ops[i], height(i));
    }
    assert Numbers(sequence, ops)[..|ops|] == Numbers(sequence, ops);
  }

  /** Insert the operations of any bytes, up to the first malformed one, with the sequence
      numbers from the header on. */
  method InsertInto(rep: seq<Byte>, mem: MemTable, height: nat -> nat) returns (status: Status)
    requires mem.Valid() && forall i :: 0 < height(i) <= SL.MAX_HEIGHT
    requires |rep| >= HEADER ==> Addable(mem.history, DecodeFixed64(rep), GetOps(rep, HEADER).0)
    modifies mem, mem.list
    ensures mem.Valid()
    ensures |rep| < HEADER ==> status == Corruption && mem.history == old(mem.history)
    ensures |rep| >= HEADER ==> mem.history == old(mem.history) + Numbers(DecodeFixed64(rep), GetOps(rep, HEADER).0)
    ensures |rep| >= HEADER ==>
      (status == Ok <==> GetOps(rep, HEADER).1 && |GetOps(rep, HEADER).0| == DecodeFixed32(rep[8..]))
  {
    var calls;
    status, calls := Iterate(rep);
    if |rep| >= HEADER {
      Replay(calls, DecodeFixed64(rep), mem, height);
    }
  }

  /** So a batch inserts just the calls that built it, with consecutive numbers. */
  method InsertBatch(batch: WriteBatch, mem: MemTable, height: nat -> nat) returns (status: Status)
    requires batch.Valid() && mem.Valid() && forall i :: 0 < height(i) <= SL.MAX_HEIGHT
    requires Addable(mem.history, batch.sequence, batch.ops)
    modifies mem, mem.list
    ensures status == Ok && mem.Valid() && mem.history == old(mem.history) + Numbers(batch.sequence, batch.ops)
  {
    BatchReplays(batch.rep, batch.sequence, batch.ops, batch.body);
    HeaderReads(batch.rep, batch.sequence, batch.ops, batch.body);
    status := InsertInto(batch.rep, mem, height);
  }
}
