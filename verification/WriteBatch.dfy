/** Write batches: a header of sequence number and count, and the operations one after the
    other. */
module WriteBatch {
  import opened Wrappers
  import opened Bits
  import opened Bytes
  import opened Coding

  const HEADER: nat := 12

  datatype Op = Put(key: seq<Byte>, value: seq<Byte>) | Delete(key: seq<Byte>)

  predicate Fits(op: Op) {
    |op.key| < WORD && (op.Put? ==> |op.value| < WORD)
  }

  function Prefixed(s: seq<Byte>): seq<Byte> {
    Varint(|s|) + s
  }

  function EncodeOp(op: Op): seq<Byte> {
    match op
    case Put(k, v) => [1] + (Prefixed(k) + Prefixed(v))
    case Delete(k) => [0] + Prefixed(k)
  }

  /** The encodings of several operations, one after the other. */
  function Joined(encode: Op -> seq<Byte>, ops: seq<Op>): seq<Byte> {
    if ops == [] then [] else Joined(encode, ops[..|ops| - 1]) + encode(ops[|ops| - 1])
  }

  lemma {:induction false} JoinedConcat(encode: Op -> seq<Byte>, a: seq<Op>, b: seq<Op>)
    ensures Joined(encode, a + b) == Joined(encode, a) + Joined(encode, b)
    decreases |b|
  {
    if b == [] {
      assert a + b == a;
    } else {
      var n := |b| - 1;
      assert (a + b)[..|a| + n] == a + b[..n];
      JoinedConcat(encode, a, b[..n]);
      var x, y, z := Joined(encode, a), Joined(encode, b[..n]), encode(b[n]);
      assert x + (y + z) == (x + y) + z;
    }
  }

  lemma JoinedFirst(encode: Op -> seq<Byte>, ops: seq<Op>)
    requires ops != []
    ensures Joined(encode, ops) == encode(ops[0]) + Joined(encode, ops[1..])
  {
    JoinedConcat(encode, [ops[0]], ops[1..]);
    assert [ops[0]] + ops[1..] == ops;
    assert Joined(encode, [ops[0]]) == [] + encode(ops[0]);
  }

  // ----- reading

  /** A string with its length in front: the string and the position after it. */
  function GetPrefixed(data: seq<Byte>, p: nat): (r: Option<(seq<Byte>, nat)>)
    ensures r.Some? ==> p < r.value.1 <= |data|
  {
    var d := Decode32(data, p, |data|);
    if d.None? || d.value.1 + d.value.0 > |data| then None
    else Some((data[d.value.1..d.value.1 + d.value.0], d.value.1 + d.value.0))
  }

  /** These bytes are a string with its length in front. */
  ghost predicate IsPrefixed(b: seq<Byte>, s: seq<Byte>) {
    forall u {:trigger UnfoldAt(b, u)} :: UnfoldAt(b, u) ==> |s| < WORD && b == Prefixed(s)
  }

  lemma PrefixedReads(data: seq<Byte>, p: nat, b: seq<Byte>, s: seq<Byte>)
    requires IsPrefixed(b, s) && At(data, p, b)
    ensures GetPrefixed(data, p) == Some((s, p + |b|))
  {
    assert UnfoldAt(b, 0);
    AtParts(data, p, Varint(|s|), s);
    Decode32Is(data, p, |data|, |s|);
  }

  /** One operation at a position, or nothing when there is no well-formed one. */
  function GetOp(data: seq<Byte>, p: nat): (r: Option<(Op, nat)>)
    requires p < |data|
    ensures r.Some? ==> p < r.value.1 <= |data|
  {
    if data[p] == 1 then
      var k := GetPrefixed(data, p + 1);
      if k.None? then None
      else
        var v := GetPrefixed(data, k.value.1);
        if v.None? then None else Some((Put(k.value.0, v.value.0), v.value.1))
    else if data[p] == 0 then
      var k := GetPrefixed(data, p + 1);
      if k.None? then None else Some((Delete(k.value.0), k.value.1))
    else None
  }

  lemma PutReads(data: seq<Byte>, p: nat, kb: seq<Byte>, vb: seq<Byte>, k: seq<Byte>, v: seq<Byte>)
    requires IsPrefixed(kb, k) && IsPrefixed(vb, v) && At(data, p, [1] + (kb + vb))
    ensures p < |data| && GetOp(data, p) == Some((Put(k, v), p + 1 + |kb| + |vb|))
  {
    AtParts(data, p, [1], kb + vb);
    assert data[p] == data[p..p + 1][0] == 1;
    AtParts(data, p + 1, kb, vb);
    PrefixedReads(data, p + 1, kb, k);
    PrefixedReads(data, p + 1 + |kb|, vb, v);
  }

  lemma DeleteReads(data: seq<Byte>, p: nat, kb: seq<Byte>, k: seq<Byte>)
    requires IsPrefixed(kb, k) && At(data, p, [0] + kb)
    ensures p < |data| && GetOp(data, p) == Some((Delete(k), p + 1 + |kb|))
  {
    AtParts(data, p, [0], kb);
    assert data[p] == data[p..p + 1][0] == 0;
    PrefixedReads(data, p + 1, kb, k);
  }

  lemma OpReads(data: seq<Byte>, p: nat, op: Op)
    requires Fits(op) && At(data, p, EncodeOp(op))
    ensures p < |data| && GetOp(data, p) == Some((op, p + |EncodeOp(op)|))
  {
    match op
    case Put(k, v) => PutReads(data, p, Prefixed(k), Prefixed(v), k, v);
    case Delete(k) => DeleteReads(data, p, Prefixed(k), k);
  }

  /** The operations from a position on, and whether the data ends after the last of them. */
  function GetOps(data: seq<Byte>, p: nat): (seq<Op>, bool)
    requires p <= |data|
    decreases |data| - p
  {
    if p == |data| then ([], true)
    else
      var r := GetOp(data, p);
      if r.None? then ([], false)
      else
        var (ops, ok) := GetOps(data, r.value.1);
        ([r.value.0] + ops, ok)
  }

  /** From a position on the data are just these operations. */
  ghost predicate ReadsAs(data: seq<Byte>, p: nat, ops: seq<Op>) {
    forall u {:trigger UnfoldAt(ops, u)} :: UnfoldAt(ops, u) ==> p <= |data| && GetOps(data, p) == (ops, true)
  }

  lemma ReadsFirst(data: seq<Byte>, p: nat, op: Op, length: nat, ops: seq<Op>)
    requires OpAt(data, p, op, length) && ReadsAs(data, p + length, ops)
    ensures ReadsAs(data, p, [op] + ops)
  {
    assert UnfoldAt(op, 0);
    assert UnfoldAt(ops, 0);
  }

  ghost predicate IsJoined(bytes: seq<Byte>, encode: Op -> seq<Byte>, ops: seq<Op>) {
    forall u {:trigger UnfoldAt(bytes, u)} :: UnfoldAt(bytes, u) ==> bytes == Joined(encode, ops)
  }

  lemma TakeFirst(bytes: seq<Byte>, encode: Op -> seq<Byte>, ops: seq<Op>) returns (rest: seq<Byte>)
    requires IsJoined(bytes, encode, ops) && ops != []
    ensures bytes == encode(ops[0]) + rest && IsJoined(rest, encode, ops[1..])
  {
    assert UnfoldAt(bytes, 0);
    JoinedFirst(encode, ops);
    rest := Joined(encode, ops[1..]);
  }

  lemma TakeNone(bytes: seq<Byte>, encode: Op -> seq<Byte>)
    requires IsJoined(bytes, encode, [])
    ensures bytes == []
  {
    assert UnfoldAt(bytes, 0);
  }

  /** Reading back what was encoded. */
  lemma {:induction false} OpsRead(data: seq<Byte>, p: nat, encode: Op -> seq<Byte>, ops: seq<Op>, bytes: seq<Byte>)
    requires Encodes(encode) && (forall i: nat :: i < |ops| ==> Fits(ops[i]))
    requires IsJoined(bytes, encode, ops) && At(data, p, bytes) && p + |bytes| == |data|
    ensures ReadsAs(data, p, ops)
    decreases |ops|
  {
    if ops == [] {
      TakeNone(bytes, encode);
    } else {
      var rest := TakeFirst(bytes, encode, ops);
      AtParts(data, p, encode(ops[0]), rest);
      EncodesAt(encode, ops[0], data, p);
      OpsRead(data, p + |encode(ops[0])|, encode, ops[1..], rest);
      ReadsFirst(data, p, ops[0], |encode(ops[0])|, ops[1..]);
      assert [ops[0]] + ops[1..] == ops;
    }
  }

  /** Whatever is encoded can be read back. */
  ghost predicate Encodes(encode: Op -> seq<Byte>) {
    forall u {:trigger UnfoldAt(encode, u)} :: UnfoldAt(encode, u) ==>
      forall op, data, p: nat {:trigger At(data, p, encode(op))} ::
        Fits(op) && At(data, p, encode(op)) ==> OpAt(data, p, op, |encode(op)|)
  }

  lemma EncodesAt(encode: Op -> seq<Byte>, op: Op, data: seq<Byte>, p: nat)
    requires Encodes(encode) && Fits(op) && At(data, p, encode(op))
    ensures OpAt(data, p, op, |encode(op)|)
  {
    assert UnfoldAt(encode, 0);
  }

  ghost predicate OpAt(data: seq<Byte>, p: nat, op: Op, length: nat) {
    forall u {:trigger UnfoldAt(op, u)} :: UnfoldAt(op, u) ==> p < |data| && GetOp(data, p) == Some((op, p + length))
  }

  lemma EncodeOpEncodes()
    ensures Encodes(EncodeOp)
  {
    forall op, data, p: nat | Fits(op) && At(data, p, EncodeOp(op))
      ensures OpAt(data, p, op, |EncodeOp(op)|)
    {
      OpReads(data, p, op);
    }
  }

  // ----- batches

  /** The bytes of a batch: sequence number, count and operations. */
  ghost predicate IsBatch(rep: seq<Byte>, sequence: nat, ops: seq<Op>, body: seq<Byte>) {
    && sequence < WORD * WORD && |ops| < WORD && (forall i: nat :: i < |ops| ==> Fits(ops[i]))
    && rep == Fixed64(sequence) + Fixed32(|ops|) + body
    && Encoded(body, ops)
  }

  ghost predicate Encoded(body: seq<Byte>, ops: seq<Op>) {
    forall u {:trigger UnfoldAt(body, u)} :: UnfoldAt(body, u) ==> body == Joined(EncodeOp, ops)
  }

  lemma EncodedMore(body: seq<Byte>, ops: seq<Op>, bytes: seq<Byte>, more: seq<Op>)
    requires Encoded(body, ops) && Encoded(bytes, more)
    ensures Encoded(body + bytes, ops + more)
  {
    assert UnfoldAt(body, 0);
    assert UnfoldAt(bytes, 0);
    JoinedConcat(EncodeOp, ops, more);
  }

  lemma EncodedOne(op: Op)
    ensures Encoded(EncodeOp(op), [op])
  {
    assert Joined(EncodeOp, [op]) == [] + EncodeOp(op);
  }

  /** The header fields of a batch, and the batch with another count and more operations. */
  lemma HeaderReads(rep: seq<Byte>, sequence: nat, ops: seq<Op>, body: seq<Byte>)
    requires IsBatch(rep, sequence, ops, body)
    ensures |rep| == HEADER + |body| && rep[HEADER..] == body
    ensures DecodeFixed64(rep) == sequence && DecodeFixed32(rep[8..]) == |ops|
  {
    var a, b := Fixed64(sequence), Fixed32(|ops|);
    assert rep == a + (b + body);
    assert rep[8..] == b + body;
    Fixed64RoundTrip(sequence, b + body);
    Fixed32RoundTrip(|ops|, body);
  }

  lemma BatchGrows(rep: seq<Byte>, sequence: nat, ops: seq<Op>, body: seq<Byte>, bytes: seq<Byte>, more: seq<Op>)
    requires IsBatch(rep, sequence, ops, body) && Encoded(bytes, more) && |ops| + |more| < WORD
    requires forall i: nat :: i < |more| ==> Fits(more[i])
    ensures |rep| >= HEADER
    ensures IsBatch(rep[..8] + Fixed32(|ops| + |more|) + rep[HEADER..] + bytes, sequence, ops + more, body + bytes)
  {
    HeaderReads(rep, sequence, ops, body);
    EncodedMore(body, ops, bytes, more);
    assert rep[..8] == Fixed64(sequence);
    var head := Fixed64(sequence) + Fixed32(|ops| + |more|);
    assert head + body + bytes == head + (body + bytes);
  }

  datatype Status = Ok | Corruption

  class WriteBatch {
    var rep: seq<Byte>
    ghost var sequence: nat
    ghost var ops: seq<Op>
    ghost var body: seq<Byte>

    ghost predicate Valid()
      reads this
    {
      IsBatch(rep, sequence, ops, body)
    }

    constructor ()
      ensures Valid() && ops == [] && sequence == 0
    {
      rep, sequence, ops, body := seq(HEADER, _ => 0), 0, [], [];
      new;
      assert rep == Fixed64(0) + Fixed32(0) + [];
    }

    method Count() returns (n: nat)
      requires Valid()
      ensures n == |ops|
    {
      HeaderReads(rep, sequence, ops, body);
      n := DecodeFixed32(rep[8..]);
    }

    /** Set the count and append the operations of some bytes. */
    method Extend(n: nat, bytes: seq<Byte>, ghost more: seq<Op>)
      requires Valid() && Encoded(bytes, more) && n == |ops| + |more| < WORD
      requires forall i: nat :: i < |more| ==> Fits(more[i])
      modifies this
      ensures Valid() && ops == old(ops) + more && sequence == old(sequence)
    {
      BatchGrows(rep, sequence, ops, body, bytes, more);
      rep := rep[..8] + Fixed32(n) + rep[HEADER..];
      rep := rep + bytes;
      ops, body := ops + more, body + bytes;
    }

    method Put(key: seq<Byte>, value: seq<Byte>)
      requires Valid() && |ops| + 1 < WORD && |key| < WORD && |value| < WORD
      modifies this
      ensures Valid() && ops == old(ops) + [Op.Put(key, value)] && sequence == old(sequence)
    {
      var n := Count();
      EncodeVarint32Is(|key|);
      EncodeVarint32Is(|value|);
      EncodedOne(Op.Put(key, value));
      Extend(n + 1, [1] + ((EncodeVarint32(|key|) + key) + (EncodeVarint32(|value|) + value)), [Op.Put(key, value)]);
    }

    method Delete(key: seq<Byte>)
      requires Valid() && |ops| + 1 < WORD && |key| < WORD
      modifies this
      ensures Valid() && ops == old(ops) + [Op.Delete(key)] && sequence == old(sequence)
    {
      var n := Count();
      EncodeVarint32Is(|key|);
      EncodedOne(Op.Delete(key));
      Extend(n + 1, [0] + (EncodeVarint32(|key|) + key), [Op.Delete(key)]);
    }

    /** Append the operations of another batch. */
    method Append(src: WriteBatch)
      requires Valid() && src.Valid() && src != this && |ops| + |src.ops| < WORD
      modifies this
      ensures Valid() && ops == old(ops) + src.ops && sequence == old(sequence)
    {
      var n := Count();
      var m := src.Count();
      HeaderReads(src.rep, src.sequence, src.ops, src.body);
      Extend(n + m, src.rep[HEADER..], src.ops);
    }

    method SetSequence(s: nat)
      requires Valid() && s < WORD * WORD
      modifies this
      ensures Valid() && ops == old(ops) && sequence == s
    {
      HeaderReads(rep, sequence, ops, body);
      assert rep[8..] == Fixed32(|ops|) + body;
      assert Fixed64(s) + (Fixed32(|ops|) + body) == Fixed64(s) + Fixed32(|ops|) + body;
      rep, sequence := Fixed64(s) + rep[8..], s;
    }
  }

  /** Replay the operations of any bytes to a handler: those before the first malformed
      one, and whether the batch is well formed and has as many as it says. */
  method Iterate(rep: seq<Byte>) returns (status: Status, ops: seq<Op>)
    ensures |rep| < HEADER ==> status == Corruption && ops == []
    ensures |rep| >= HEADER ==> ops == GetOps(rep, HEADER).0
    ensures |rep| >= HEADER ==> (status == Ok <==> GetOps(rep, HEADER).1 && |ops| == DecodeFixed32(rep[8..]))
  {
    ops := [];
    if |rep| < HEADER { return Corruption, ops; }
    var p := HEADER;
    ghost var all := GetOps(rep, HEADER);
    assert [] + all.0 == all.0;
    while p < |rep|
      invariant HEADER <= p <= |rep| && all == (ops + GetOps(rep, p).0, GetOps(rep, p).1)
      decreases |rep| - p
    {
      var r := GetOp(rep, p);
      if r.None? {
        assert ops + [] == ops;
        return Corruption, ops;
      }
      ghost var rest := GetOps(rep, r.value.1).0;
      assert ops + ([r.value.0] + rest) == (ops + [r.value.0]) + rest;
      ops, p := ops + [r.value.0], r.value.1;
    }
    assert ops + [] == ops;
    status := if |ops| == DecodeFixed32(rep[8..]) then Ok else Corruption;
  }

  /** A batch replays just the calls that built it. */
  lemma BatchReplays(rep: seq<Byte>, sequence: nat, ops: seq<Op>, body: seq<Byte>)
    requires IsBatch(rep, sequence, ops, body)
    ensures |rep| >= HEADER && GetOps(rep, HEADER) == (ops, true) && DecodeFixed32(rep[8..]) == |ops|
  {
    HeaderReads(rep, sequence, ops, body);
    EncodeOpEncodes();
    assert UnfoldAt(body, 0);
    OpsRead(rep, HEADER, EncodeOp, ops, body);
    assert UnfoldAt(ops, 0);
  }

  // ----- damaged batches

  /** From p on the data are these operations and then whatever they are from q on. */
  ghost predicate ReadsThen(data: seq<Byte>, p: nat, ops: seq<Op>, q: nat) {
    forall u {:trigger UnfoldAt(ops, u)} :: UnfoldAt(ops, u) ==>
      p <= q <= |data| && GetOps(data, p) == (ops + GetOps(data, q).0, GetOps(data, q).1)
  }

  lemma ThenNothing(data: seq<Byte>, p: nat)
    requires p <= |data|
    ensures ReadsThen(data, p, [], p)
  {
    assert [] + GetOps(data, p).0 == GetOps(data, p).0;
  }

  lemma ThenFirst(data: seq<Byte>, p: nat, length: nat, ops: seq<Op>, q: nat)
    requires ops != [] && OpAt(data, p, ops[0], length) && ReadsThen(data, p + length, ops[1..], q)
    ensures ReadsThen(data, p, ops, q)
  {
    assert UnfoldAt(ops[0], 0) && UnfoldAt(ops[1..], 0);
    InFront(ops, GetOps(data, q).0);
  }

  lemma InFront(ops: seq<Op>, tail: seq<Op>)
    requires ops != []
    ensures [ops[0]] + (ops[1..] + tail) == ops + tail
  {
  }

  /** The first of the operations stands at the position, the others behind it. */
  lemma FirstThen(data: seq<Byte>, p: nat, encode: Op -> seq<Byte>, ops: seq<Op>, bytes: seq<Byte>) returns (n: nat, rest: seq<Byte>)
    requires Encodes(encode) && ops != [] && Fits(ops[0]) && IsJoined(bytes, encode, ops) && At(data, p, bytes)
    ensures OpAt(data, p, ops[0], n) && IsJoined(rest, encode, ops[1..]) && At(data, p + n, rest) && n + |rest| == |bytes|
  {
    rest := TakeFirst(bytes, encode, ops);
    n := |encode(ops[0])|;
    AtParts(data, p, encode(ops[0]), rest);
    EncodesAt(encode, ops[0], data, p);
  }

  lemma {:induction false} OpsThen(data: seq<Byte>, p: nat, encode: Op -> seq<Byte>, ops: seq<Op>, bytes: seq<Byte>, q: nat)
    requires Encodes(encode) && (forall i: nat :: i < |ops| ==> Fits(ops[i]))
    requires IsJoined(bytes, encode, ops) && At(data, p, bytes) && q == p + |bytes|
    ensures ReadsThen(data, p, ops, q)
    decreases |ops|
  {
    if ops == [] {
      TakeNone(bytes, encode);
      ThenNothing(data, p);
    } else {
      var n, rest := FirstThen(data, p, encode, ops, bytes);
      OpsThen(data, p + n, encode, ops[1..], rest, q);
      ThenFirst(data, p, n, ops, q);
    }
  }

  /** Any other tag than the two stops the replay. */
  lemma BadTagStops(data: seq<Byte>, p: nat)
    requires p < |data| && data[p] > 1
    ensures GetOps(data, p) == ([], false)
  {
  }

  /** A string cut off before its end is not read. */
  lemma PrefixedCut(data: seq<Byte>, p: nat, b: seq<Byte>, s: seq<Byte>)
    requires IsPrefixed(b, s) && p <= |data| && |data| - p < |b| && data[p..] == b[..|data| - p]
    ensures GetPrefixed(data, p) == None
  {
    assert UnfoldAt(b, 0);
    var number := Varint(|s|);
    if |data| - p < |number| {
      assert b[..|data| - p] == number[..|data| - p];
      VarintCut(data, p, |s|, 5);
    } else {
      assert data[p..p + |number|] == data[p..][..|number|] == b[..|number|] == number;
      Decode32Is(data, p, |data|, |s|);
    }
  }

  lemma PutCut(data: seq<Byte>, p: nat, kb: seq<Byte>, vb: seq<Byte>, k: seq<Byte>, v: seq<Byte>)
    requires IsPrefixed(kb, k) && IsPrefixed(vb, v) && p < |data| && |data| - p < 1 + |kb| + |vb|
    requires data[p..] == ([1] + (kb + vb))[..|data| - p]
    ensures GetOp(data, p) == None
  {
    var all := [1] + (kb + vb);
    assert data[p] == data[p..][0] == 1;
    assert data[p + 1..] == data[p..][1..] == (kb + vb)[..|data| - p - 1];
    if |data| - p - 1 < |kb| {
      assert (kb + vb)[..|data| - p - 1] == kb[..|data| - p - 1];
      PrefixedCut(data, p + 1, kb, k);
    } else {
      var q := p + 1 + |kb|;
      assert data[p + 1..q] == data[p + 1..][..|kb|] == kb;
      PrefixedReads(data, p + 1, kb, k);
      assert data[q..] == data[p + 1..][|kb|..] == vb[..|data| - q];
      PrefixedCut(data, q, vb, v);
    }
  }

  lemma DeleteCut(data: seq<Byte>, p: nat, kb: seq<Byte>, k: seq<Byte>)
    requires IsPrefixed(kb, k) && p < |data| && |data| - p < 1 + |kb| && data[p..] == ([0] + kb)[..|data| - p]
    ensures GetOp(data, p) == None
  {
    assert data[p] == data[p..][0] == 0;
    assert data[p + 1..] == data[p..][1..] == kb[..|data| - p - 1];
    PrefixedCut(data, p + 1, kb, k);
  }

  lemma OpCut(data: seq<Byte>, p: nat, op: Op)
    requires Fits(op) && p < |data| && |data| - p < |EncodeOp(op)| && data[p..] == EncodeOp(op)[..|data| - p]
    ensures GetOp(data, p) == None
  {
    match op
    case Put(k, v) => PutCut(data, p, Prefixed(k), Prefixed(v), k, v);
    case Delete(k) => DeleteCut(data, p, Prefixed(k), k);
  }

  /** A batch cut off after some whole operations and part of the next one replays just the
      whole ones, and is not taken for well formed unless the cut is between two. */
  lemma CutReplays(rep: seq<Byte>, whole: seq<Op>, next: Op, body: seq<Byte>, cut: nat)
    requires (forall i: nat :: i < |whole| ==> Fits(whole[i])) && Fits(next) && Encoded(body, whole)
    requires |rep| == HEADER + |body| + cut && cut < |EncodeOp(next)| && rep[HEADER..] == body + EncodeOp(next)[..cut]
    ensures GetOps(rep, HEADER) == (whole, cut == 0)
  {
    var q := HEADER + |body|;
    assert rep[HEADER..q] == rep[HEADER..][..|body|] == body;
    WholeThen(rep, whole, body);
    assert rep[q..] == rep[HEADER..][|body|..] == EncodeOp(next)[..cut];
    if cut > 0 { OpCut(rep, q, next); }
    assert UnfoldAt(whole, 0);
    assert whole + [] == whole;
  }

  lemma WholeThen(rep: seq<Byte>, whole: seq<Op>, body: seq<Byte>)
    requires (forall i: nat :: i < |whole| ==> Fits(whole[i])) && Encoded(body, whole) && At(rep, HEADER, body)
    ensures ReadsThen(rep, HEADER, whole, HEADER + |body|)
  {
    EncodeOpEncodes();
    assert UnfoldAt(body, 0);
    OpsThen(rep, HEADER, EncodeOp, whole, body, HEADER + |body|);
  }
}
