/** The log format: records cut into fragments that never cross a block boundary, each
    with a header of checksum, length and type. */
module LogWriter {
  import opened Bits
  import opened Bytes

  const BLOCK: nat := 32768
  const HEADER: nat := 7

  const ZERO: Byte := 0
  const FULL: Byte := 1
  const FIRST: Byte := 2
  const MIDDLE: Byte := 3
  const LAST: Byte := 4

  function TypeOf(begin: bool, end: bool): Byte {
    if begin && end then FULL else if begin then FIRST else if end then LAST else MIDDLE
  }

  /** Header and payload of one fragment. */
  function Physical(crc: Checksum, t: Byte, data: seq<Byte>): (r: seq<Byte>)
    requires |data| < 65536
    ensures |r| == HEADER + |data|
  {
    Fixed32(Mask(crc.Value([t] + data))) + [|data| % 256, |data| / 256, t] + data
  }

  /** The zeros that fill the rest of a block too small for a header. */
  function Trailer(off: nat): (r: seq<Byte>)
    requires off <= BLOCK
  {
    if BLOCK - off < HEADER then seq(BLOCK - off, _ => 0) else []
  }

  /** Where in its block the next fragment starts. */
  function Start(off: nat): (o: nat)
    requires off <= BLOCK
    ensures o + HEADER <= BLOCK
  {
    if BLOCK - off < HEADER then 0 else off
  }

  /** How much of the data fits behind the header. */
  function FragmentLength(off: nat, left: nat): (n: nat)
    requires off <= BLOCK
    ensures n <= left && Start(off) + HEADER + n <= BLOCK
    ensures n < left ==> Start(off) + HEADER + n == BLOCK
  {
    var avail := BLOCK - Start(off) - HEADER;
    if left < avail then left else avail
  }

  /** The bytes of a record, or of the rest of one, from an offset in a block on. */
  function Emitted(crc: Checksum, off: nat, data: seq<Byte>, begin: bool): seq<Byte>
    requires off < BLOCK
    decreases |data|, Start(off)
  {
    var n := FragmentLength(off, |data|);
    var fragment := Trailer(off) + Physical(crc, TypeOf(begin, n == |data|), data[..n]);
    if n == |data| then fragment else fragment + Emitted(crc, 0, data[n..], false)
  }

  /** A full block and an empty one are the same place to write. */
  lemma BlockEnd(off: nat, left: nat)
    requires off <= BLOCK
    ensures Trailer(off) == Trailer(off % BLOCK) && Start(off) == Start(off % BLOCK)
    ensures FragmentLength(off, left) == FragmentLength(off % BLOCK, left)
  {
  }

  /** The log of a list of records, written from file position p on, when emit gives the
      bytes of a record for the position it starts at. */
  function Log(emit: (nat, seq<Byte>) -> seq<Byte>, p: nat, records: seq<seq<Byte>>): seq<Byte>
    decreases |records|
  {
    if records == [] then [] else emit(p, records[0]) + Log(emit, p + |emit(p, records[0])|, records[1..])
  }

  function Emitter(crc: Checksum): (nat, seq<Byte>) -> seq<Byte> {
    (p, data) => Emitted(crc, p % BLOCK, data, true)
  }

  /** A log continued by a reopened writer has the bytes of one written without a break. */
  lemma {:induction false} LogReopened(emit: (nat, seq<Byte>) -> seq<Byte>, p: nat, a: seq<seq<Byte>>, b: seq<seq<Byte>>)
    ensures Log(emit, p, a + b) == Log(emit, p, a) + Log(emit, p + |Log(emit, p, a)|, b)
    decreases |a|
  {
    if a == [] {
      assert a + b == b;
    } else {
      var first := emit(p, a[0]);
      assert (a + b)[1..] == a[1..] + b;
      LogReopened(emit, p + |first|, a[1..], b);
      var rest, more := Log(emit, p + |first|, a[1..]), Log(emit, p + |Log(emit, p, a)|, b);
      assert first + (rest + more) == (first + rest) + more;
    }
  }

  /** Adding one record at the end of the file adds it to the log. */
  lemma LogAdds(emit: (nat, seq<Byte>) -> seq<Byte>, p: nat, a: seq<seq<Byte>>, r: seq<Byte>)
    ensures Log(emit, p, a + [r]) == Log(emit, p, a) + emit(p + |Log(emit, p, a)|, r)
  {
    LogReopened(emit, p, a, [r]);
    var q := p + |Log(emit, p, a)|;
    assert Log(emit, q, [r]) == emit(q, r) + [];
  }

  /** A file that has the log of some records after what was in it before. */
  ghost predicate Kept(emit: (nat, seq<Byte>) -> seq<Byte>, base: seq<Byte>, records: seq<seq<Byte>>, dest: seq<Byte>) {
    forall u {:trigger UnfoldAt(dest, u)} :: UnfoldAt(dest, u) ==> dest == base + Log(emit, |base|, records)
  }

  lemma KeptMore(emit: (nat, seq<Byte>) -> seq<Byte>, base: seq<Byte>, records: seq<seq<Byte>>, dest: seq<Byte>, slice: seq<Byte>)
    requires Kept(emit, base, records, dest)
    ensures Kept(emit, base, records + [slice], dest + emit(|dest|, slice))
  {
    assert UnfoldAt(dest, 0);
    LogAdds(emit, |base|, records, slice);
    Regroup(base, Log(emit, |base|, records), emit(|dest|, slice));
  }

  /** Closing a log and writing it on later gives the same bytes as one writer. */
  lemma KeptReopened(emit: (nat, seq<Byte>) -> seq<Byte>, base: seq<Byte>, a: seq<seq<Byte>>, middle: seq<Byte>,
                     b: seq<seq<Byte>>, dest: seq<Byte>)
    requires Kept(emit, base, a, middle) && Kept(emit, middle, b, dest)
    ensures Kept(emit, base, a + b, dest)
  {
    assert UnfoldAt(middle, 0) && UnfoldAt(dest, 0);
    LogReopened(emit, |base|, a, b);
    Regroup(base, Log(emit, |base|, a), Log(emit, |middle|, b));
  }

  lemma Regroup(a: seq<Byte>, b: seq<Byte>, c: seq<Byte>)
    ensures a + b + c == a + (b + c)
  {
  }

  class Writer {
    const crc: Checksum
    var dest: seq<Byte>
    var blockOffset: nat
    ghost const base: seq<Byte>
    ghost var records: seq<seq<Byte>>

    /** The writer knows where in its block it is. */
    ghost predicate Placed()
      reads this
    {
      blockOffset <= BLOCK && (blockOffset - |dest|) % BLOCK == 0
    }

    /** After what was in the file before, it has the log of the records added. */
    ghost predicate Valid()
      reads this
    {
      Placed() && Kept(Emitter(crc), base, records, dest)
    }

    constructor (crc: Checksum)
      ensures this.crc == crc && Valid() && dest == [] && base == [] && records == []
    {
      this.crc, dest, blockOffset, base, records := crc, [], 0, [], [];
    }

    /** Go on writing a file of which the contents are kept. */
    constructor Reopen(crc: Checksum, dest: seq<Byte>)
      ensures this.crc == crc && Valid() && this.dest == dest && base == dest && records == []
    {
      this.crc, this.dest, blockOffset, base, records := crc, dest, |dest| % BLOCK, dest, [];
      new;
      assert dest + [] == dest;
    }

    method EmitPhysicalRecord(t: Byte, data: seq<Byte>)
      requires blockOffset + HEADER + |data| <= BLOCK
      modifies this`dest, this`blockOffset
      ensures dest == old(dest) + Physical(crc, t, data)
      ensures blockOffset == old(blockOffset) + HEADER + |data|
    {
      var sum := crc.Extend(crc.Value([t]), data);
      crc.ExtendValue([t], data);
      var header := Fixed32(Mask(sum)) + [|data| % 256, |data| / 256, t];
      dest := dest + header;
      dest := dest + data;
      assert dest == old(dest) + (header + data);
      blockOffset := blockOffset + HEADER + |data|;
    }

    /** Write the first fragment of what is left of a record. */
    method EmitFragment(left: seq<Byte>, begin: bool) returns (n: nat)
      requires blockOffset <= BLOCK
      modifies this`dest, this`blockOffset
      ensures n == FragmentLength(old(blockOffset), |left|)
      ensures dest == old(dest) + (Trailer(old(blockOffset)) + Physical(crc, TypeOf(begin, n == |left|), left[..n]))
      ensures blockOffset == Start(old(blockOffset)) + HEADER + n
    {
      ghost var before, trailer := dest, Trailer(blockOffset);
      var leftover := BLOCK - blockOffset;
      if leftover < HEADER {
        dest := dest + seq(leftover, _ => 0);
        blockOffset := 0;
      }
      assert dest == before + trailer;
      var avail := BLOCK - blockOffset - HEADER;
      n := if |left| < avail then |left| else avail;
      EmitPhysicalRecord(TypeOf(begin, |left| == n), left[..n]);
      assert before + trailer + Physical(crc, TypeOf(begin, n == |left|), left[..n])
          == before + (trailer + Physical(crc, TypeOf(begin, n == |left|), left[..n]));
    }

    method AddRecord(slice: seq<Byte>)
      requires Valid()
      modifies this
      ensures Valid() && records == old(records) + [slice]
      ensures dest == old(dest) + Emitter(crc)(|old(dest)|, slice)
    {
      KeptMore(Emitter(crc), base, records, dest, slice);
      EmitRecord(slice);
      records := records + [slice];
    }

    method EmitRecord(slice: seq<Byte>)
      requires Placed()
      modifies this`dest, this`blockOffset
      ensures Placed() && dest == old(dest) + Emitter(crc)(|old(dest)|, slice)
    {
      var left, begin, more := slice, true, true;
      ghost var rest := Emitter(crc)(|dest|, slice);
      ghost var goal := dest + rest;
      SameOffset(crc, blockOffset, |dest|, slice);
      while more
        invariant Placed() && dest + rest == goal && Pending(rest, crc, blockOffset, left, begin, more)
        decreases more, |left|, Start(blockOffset)
      {
        label Before:
        ghost var rest' := FragmentOf(crc, blockOffset, left, begin, dest, rest);
        var n := EmitFragment(left, begin);
        assert n == 0 && n < |left| ==> Start(blockOffset) < Start(old@Before(blockOffset));
        rest, begin, more, left := rest', false, n < |left|, left[n..];
      }
      assert rest == [] by { assert UnfoldAt(rest, 0); }
    }
  }

  /** These bytes are still to be written of a record. */
  ghost predicate Pending(rest: seq<Byte>, crc: Checksum, off: nat, left: seq<Byte>, begin: bool, more: bool)
  {
    forall u {:trigger UnfoldAt(rest, u)} ::
      UnfoldAt(rest, u) ==> rest == if more then Emitted(crc, off % BLOCK, left, begin) else []
  }

  lemma SameOffset(crc: Checksum, off: nat, length: nat, data: seq<Byte>)
    requires (off - length) % BLOCK == 0
    ensures Pending(Emitter(crc)(length, data), crc, off, data, true, true)
  {
    assert off % BLOCK == length % BLOCK;
  }

  /** Writing a fragment leaves the rest of the record to be written. */
  lemma FragmentOf(crc: Checksum, off: nat, left: seq<Byte>, begin: bool, before: seq<Byte>, rest: seq<Byte>)
    returns (rest': seq<Byte>)
    requires off <= BLOCK && (off - |before|) % BLOCK == 0 && Pending(rest, crc, off, left, begin, true)
    ensures var n := FragmentLength(off, |left|);
      var fragment := Trailer(off) + Physical(crc, TypeOf(begin, n == |left|), left[..n]);
      && Pending(rest', crc, Start(off) + HEADER + n, left[n..], false, n < |left|)
      && before + fragment + rest' == before + rest
      && (Start(off) + HEADER + n - |before + fragment|) % BLOCK == 0
  {
    var n := FragmentLength(off, |left|);
    var fragment := Trailer(off) + Physical(crc, TypeOf(begin, n == |left|), left[..n]);
    rest' := RestOf(crc, off, left, begin, rest);
    JoinRest(before, fragment, rest', rest);
    OffsetAfter(off, |before|, n);
    assert |before + fragment| == |before| + |Trailer(off)| + HEADER + n;
  }

  lemma RestOf(crc: Checksum, off: nat, left: seq<Byte>, begin: bool, rest: seq<Byte>) returns (rest': seq<Byte>)
    requires off <= BLOCK && Pending(rest, crc, off, left, begin, true)
    ensures var n := FragmentLength(off, |left|);
      var fragment := Trailer(off) + Physical(crc, TypeOf(begin, n == |left|), left[..n]);
      && Pending(rest', crc, Start(off) + HEADER + n, left[n..], false, n < |left|)
      && (if rest' == [] then rest == fragment else rest == fragment + rest')
  {
    assert UnfoldAt(rest, 0);
    var n := FragmentLength(off, |left|);
    EmittedParts(crc, off, left, begin);
    rest' := if n < |left| then Emitted(crc, 0, left[n..], false) else [];
    if n < |left| { FullBlock(off, |left|); }
  }

  /** The bytes of a record are those of its first fragment and of the rest. */
  lemma EmittedParts(crc: Checksum, off: nat, left: seq<Byte>, begin: bool)
    requires off <= BLOCK
    ensures var n := FragmentLength(off, |left|);
      var fragment := Trailer(off) + Physical(crc, TypeOf(begin, n == |left|), left[..n]);
      Emitted(crc, off % BLOCK, left, begin) == if n < |left| then fragment + Emitted(crc, 0, left[n..], false) else fragment
  {
    BlockEnd(off, |left|);
  }

  /** A fragment that is not the last one ends with its block. */
  lemma FullBlock(off: nat, left: nat)
    requires off <= BLOCK && FragmentLength(off, left) < left
    ensures (Start(off) + HEADER + FragmentLength(off, left)) % BLOCK == 0
  {
    assert Start(off) + HEADER + FragmentLength(off, left) == BLOCK;
  }

  lemma JoinRest(before: seq<Byte>, fragment: seq<Byte>, rest': seq<Byte>, rest: seq<Byte>)
    requires if rest' == [] then rest == fragment else rest == fragment + rest'
    ensures before + fragment + rest' == before + rest
  {
  }

  lemma OffsetAfter(off: nat, length: nat, n: nat)
    requires off <= BLOCK && (off - length) % BLOCK == 0
    ensures (Start(off) + HEADER + n - (length + |Trailer(off)| + HEADER + n)) % BLOCK == 0
  {
  }
}
