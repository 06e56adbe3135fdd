/** What the log reader makes of damage: unfinished records, bad blocks, and the intact log
    behind them. */
module LogDamage {
  import opened Wrappers
  import opened Bits
  import opened Bytes
  import opened LogWriter
  import opened LogReader

  /** What is reported of the record that a new one cuts short. */
  ghost function Partial(inRecord: bool, scratch: seq<Byte>): seq<nat> {
    if inRecord && scratch != [] then [|scratch|] else []
  }

  // ----- a record after an unfinished one

  lemma AssembleAnew(end: bool, data: seq<Byte>, inRecord: bool, scratch: seq<Byte>)
    ensures Assemble(Fragment(TypeOf(true, end), data), inRecord, scratch)
      == (if end then Done(Some(data)) else More(true, data), Partial(inRecord, scratch))
  {
  }

  /** Reading a record gives this result, whatever had been put together before. */
  ghost predicate GivesAnew(file: seq<Byte>, s: Place, r: (Option<seq<Byte>>, Place), record: seq<Byte>, length: nat,
                            partial: seq<nat>)
  {
    if s.at + length <= |file| then r.0 == Some(record) && r.1.at == s.at + length && r.1.reports == s.reports + partial
    else r.0 == None
  }

  /** A record that starts right after an unfinished one is read as if nothing had been before
      it, if the file has all of it; what was unfinished is the one thing reported. */
  lemma ReadAnew(crc: Checksum, file: seq<Byte>, s: Place, inRecord: bool, scratch: seq<Byte>, data: seq<Byte>,
                 bytes: seq<Byte>)
    returns (r: (Option<seq<Byte>>, Place))
    requires PlaceOk(file, s) && Pending(bytes, crc, s.at, data, true, true) && Agrees(file, s.at, bytes)
    ensures Result(r, crc, file, s, inRecord, scratch)
    ensures GivesAnew(file, s, r, data, |bytes|, Partial(inRecord, scratch))
  {
    var n, length, rest := FirstFragment(crc, file, s.at, data, true, bytes);
    var s' := ReadFragment(crc, file, s, TypeOf(true, n == |data|), data[..n], length);
    if s.at + length > |file| {
      r := (None, s');
      ReadEnd(crc, file, s, inRecord, scratch, s');
    } else if n == |data| {
      assert data[..n] == data;
      r := AnewLast(crc, file, s, inRecord, scratch, data, s');
    } else {
      r := AnewPart(crc, file, s, inRecord, scratch, data, n, s', rest);
    }
  }

  lemma ReportIs(s: Place, reported: seq<nat>)
    ensures Report(s, reported).reports == s.reports + reported && Report(s, reported).at == s.at
  {
    assert s.reports + [] == s.reports;
  }

  lemma AnewLast(crc: Checksum, file: seq<Byte>, s: Place, inRecord: bool, scratch: seq<Byte>, data: seq<Byte>, s': Place)
    returns (r: (Option<seq<Byte>>, Place))
    requires Steps(crc, file, s, Fragment(TypeOf(true, true), data), s') && s'.reports == s.reports
    ensures Result(r, crc, file, s, inRecord, scratch)
    ensures r.0 == Some(data) && r.1.at == s'.at && r.1.reports == s.reports + Partial(inRecord, scratch)
  {
    AssembleAnew(true, data, inRecord, scratch);
    Unrolled(crc, file, s, Fragment(TypeOf(true, true), data), s', inRecord, scratch);
    ReportIs(s', Partial(inRecord, scratch));
    r := (Some(data), Report(s', Partial(inRecord, scratch)));
  }

  lemma AnewPart(crc: Checksum, file: seq<Byte>, s: Place, inRecord: bool, scratch: seq<Byte>, data: seq<Byte>, n: nat,
                 s': Place, rest: seq<Byte>)
    returns (r: (Option<seq<Byte>>, Place))
    requires n < |data| && Steps(crc, file, s, Fragment(TypeOf(true, false), data[..n]), s') && s'.reports == s.reports
    requires PlaceOk(file, s') && Pending(rest, crc, s'.at, data[n..], false, true) && Agrees(file, s'.at, rest)
    ensures Result(r, crc, file, s, inRecord, scratch)
    ensures GivesAnew(file, s.(at := s'.at), r, data, |rest|, Partial(inRecord, scratch))
  {
    AssembleAnew(false, data[..n], inRecord, scratch);
    Unrolled(crc, file, s, Fragment(TypeOf(true, false), data[..n]), s', inRecord, scratch);
    ReportIs(s', Partial(inRecord, scratch));
    r := ReadPending(crc, file, Report(s', Partial(inRecord, scratch)), data[n..], false, data[..n], rest);
    assert data[..n] + data[n..] == data;
    assert UnfoldAt(r, 0);
  }

  // ----- all records from any state on

  /** All the records read on, when a record may be under way. */
  ghost function ReadRest(crc: Checksum, file: seq<Byte>, s: Place, inRecord: bool, scratch: seq<Byte>): (seq<seq<Byte>>, Place)
    requires PlaceOk(file, s)
  {
    var (r, s') := ReadFrom(crc, file, s, inRecord, scratch);
    if r.None? then ([], s')
    else
      var (rs, end) := ReadAll(crc, file, s');
      ([r.value] + rs, end)
  }

  ghost predicate Rest(rs: seq<seq<Byte>>, end: Place, crc: Checksum, file: seq<Byte>, s: Place, inRecord: bool,
                       scratch: seq<Byte>)
  {
    forall u {:trigger UnfoldAt(end, u)} :: UnfoldAt(end, u) ==>
      PlaceOk(file, s) && ReadRest(crc, file, s, inRecord, scratch) == (rs, end)
  }

  lemma RestIsAll(rs: seq<seq<Byte>>, end: Place, crc: Checksum, file: seq<Byte>, s: Place)
    requires Rest(rs, end, crc, file, s, false, [])
    ensures AllFrom(rs, end, crc, file, s)
  {
    assert UnfoldAt(end, 0);
  }

  /** One physical read and the rest. */
  lemma RestMore(crc: Checksum, file: seq<Byte>, s: Place, p: Outcome, s': Place, inRecord: bool, scratch: seq<Byte>,
                 rs: seq<seq<Byte>>, end: Place)
    requires Steps(crc, file, s, p, s') && Assemble(p, inRecord, scratch).0.More?
    requires var (g, reported) := Assemble(p, inRecord, scratch);
      Rest(rs, end, crc, file, Report(s', reported), g.inRecord, g.scratch)
    ensures Rest(rs, end, crc, file, s, inRecord, scratch)
  {
    assert UnfoldAt(end, 0);
    Unrolled(crc, file, s, p, s', inRecord, scratch);
  }

  lemma RestDone(crc: Checksum, file: seq<Byte>, s: Place, p: Outcome, s': Place, inRecord: bool, scratch: seq<Byte>,
                 rs: seq<seq<Byte>>, end: Place)
    requires Steps(crc, file, s, p, s') && Assemble(p, inRecord, scratch).0.Done?
    requires Assemble(p, inRecord, scratch).0.record.Some?
    requires Rest(rs, end, crc, file, Report(s', Assemble(p, inRecord, scratch).1), false, [])
    ensures Rest([Assemble(p, inRecord, scratch).0.record.value] + rs, end, crc, file, s, inRecord, scratch)
  {
    assert UnfoldAt(end, 0);
    Unrolled(crc, file, s, p, s', inRecord, scratch);
  }

  lemma RestFrom(crc: Checksum, file: seq<Byte>, s: Place, inRecord: bool, scratch: seq<Byte>,
                 r: (Option<seq<Byte>>, Place), rs: seq<seq<Byte>>, end: Place)
    requires Result(r, crc, file, s, inRecord, scratch) && r.0.Some? && AllFrom(rs, end, crc, file, r.1)
    ensures Rest([r.0.value] + rs, end, crc, file, s, inRecord, scratch)
  {
    assert UnfoldAt(r, 0) && UnfoldAt(end, 0);
  }

  lemma RestStops(crc: Checksum, file: seq<Byte>, s: Place, inRecord: bool, scratch: seq<Byte>, r: (Option<seq<Byte>>, Place))
    requires Result(r, crc, file, s, inRecord, scratch) && r.0 == None
    ensures Rest([], r.1, crc, file, s, inRecord, scratch)
  {
    assert UnfoldAt(r, 0);
  }

  // ----- the log behind the damage

  /** The intact log of some records is in the file from position b on, up to where it ends. */
  ghost predicate LogFrom(crc: Checksum, file: seq<Byte>, emit: (nat, seq<Byte>) -> seq<Byte>, b: nat, records: seq<seq<Byte>>) {
    Emits(crc, emit) && Agrees(file, b, Log(emit, b, records)) && b <= |file| <= b + |Log(emit, b, records)|
  }

  /** At the start of the log everything is as without the damage. */
  lemma Landed(crc: Checksum, file: seq<Byte>, s: Place, inRecord: bool, scratch: seq<Byte>,
               emit: (nat, seq<Byte>) -> seq<Byte>, records: seq<seq<Byte>>)
    returns (end: Place)
    requires PlaceOk(file, s) && LogFrom(crc, file, emit, s.at, records) && |file| > s.at
    ensures Rest(records[..Contained(emit, s.at, records, |file|)], end, crc, file, s, inRecord, scratch)
  {
    var b := s.at;
    var bytes := emit(b, records[0]);
    var q := b + |bytes|;
    var more := Log(emit, q, records[1..]);
    LogHead(emit, b, records, |file|);
    AgreesParts(file, b, bytes, more);
    var r := ReadAnew(crc, file, s, inRecord, scratch, records[0], bytes);
    if q > |file| {
      end := r.1;
      RestStops(crc, file, s, inRecord, scratch, r);
    } else {
      ResultPlace(crc, file, s, r, inRecord, scratch);
      end := ReadLog(crc, file, r.1, emit, records[1..]);
      var k := Contained(emit, q, records[1..], |file|);
      RestFrom(crc, file, s, inRecord, scratch, r, records[1..][..k], end);
      FirstAndRest(records, k);
    }
  }

  /** No intact fragment up to position b has the reserved type that ends the reading. */
  ghost predicate NoEnd(crc: Checksum, file: seq<Byte>, b: nat) {
    forall x: Piece :: Intact(crc, file, x) && x.End() <= b ==> x.t != EOF_TYPE
  }

  /** In the blocks before b every physical read goes on, and stays before b. */
  lemma ReadBefore(crc: Checksum, file: seq<Byte>, s: Place, b: nat) returns (p: Outcome, s': Place)
    requires PlaceOk(file, s) && b % BLOCK == 0 && s.at + HEADER <= b < |file|
    ensures Steps(crc, file, s, p, s') && p != Eof && s.at < s'.at <= b
  {
    p, s' := ReadPhysical(crc, file, s).0, ReadPhysical(crc, file, s).1;
    BufferBefore(file, s, b);
    ReadPhysicalIs(crc, file, s);
  }

  lemma BufferBefore(file: seq<Byte>, s: Place, b: nat)
    requires PlaceOk(file, s) && b % BLOCK == 0 && s.at + HEADER <= b < |file|
    ensures var t := Refill(file, s); !t.eof && t.end <= b && t.end - t.at >= HEADER && t.at >= s.at
  {
    assert UnfoldAt(s, 0);
    BlocksEnd(s.at, s.end, b);
  }

  lemma BlocksEnd(at: nat, end: nat, b: nat)
    requires b % BLOCK == 0 && at < b && at <= end <= at - at % BLOCK + BLOCK
    ensures end <= b && (end % BLOCK == 0 && end < b ==> end + BLOCK <= b)
  {
  }

  /** Near the end of a block the reader goes on at the next one, whatever is in between. */
  lemma SkipToBlock(crc: Checksum, file: seq<Byte>, s: Place, b: nat, inRecord: bool, scratch: seq<Byte>) returns (s': Place)
    requires PlaceOk(file, s) && b % BLOCK == 0 && s.at < b < s.at + HEADER && b < |file|
    ensures PlaceOk(file, s') && s'.at == b && s'.reports == s.reports
    ensures forall rs, end :: Rest(rs, end, crc, file, s', inRecord, scratch) ==> Rest(rs, end, crc, file, s, inRecord, scratch)
  {
    assert UnfoldAt(s, 0);
    BlocksEnd(s.at, s.end, b);
    s' := Fill(file, s);
    FillKeeps(file, s);
    SameRest(crc, file, s, s', inRecord, scratch);
  }

  lemma SameRest(crc: Checksum, file: seq<Byte>, s: Place, s': Place, inRecord: bool, scratch: seq<Byte>)
    requires PlaceOk(file, s) && PlaceOk(file, s') && ReadPhysical(crc, file, s) == ReadPhysical(crc, file, s')
    ensures forall rs, end :: Rest(rs, end, crc, file, s', inRecord, scratch) ==> Rest(rs, end, crc, file, s, inRecord, scratch)
  {
    assert ReadFrom(crc, file, s, inRecord, scratch) == ReadFrom(crc, file, s', inRecord, scratch);
    forall rs, end | Rest(rs, end, crc, file, s', inRecord, scratch) ensures Rest(rs, end, crc, file, s, inRecord, scratch) {
      assert UnfoldAt(end, 0);
    }
  }

  ghost predicate EndsWith(rs: seq<seq<Byte>>, records: seq<seq<Byte>>) {
    |rs| >= |records| && rs[|rs| - |records|..] == records
  }

  lemma EndsOn(x: seq<Byte>, rs: seq<seq<Byte>>, records: seq<seq<Byte>>)
    requires EndsWith(rs, records)
    ensures EndsWith([x] + rs, records)
  {
    assert ([x] + rs)[|rs| + 1 - |records|..] == rs[|rs| - |records|..];
  }

  /** What is read of a fragment before b is not taken for the end of the file. */
  lemma GoesOn(crc: Checksum, file: seq<Byte>, s: Place, p: Outcome, s': Place, b: nat, inRecord: bool, scratch: seq<Byte>)
    requires Steps(crc, file, s, p, s') && p != Eof && s'.at <= b && NoEnd(crc, file, b)
    ensures var g := Assemble(p, inRecord, scratch).0; g.Done? ==> g.record.Some?
  {
    if p.Fragment? {
      ReadIntact(crc, file, s, p.t, p.data, s');
      var x := Piece(s'.at - HEADER - |p.data|, p.t, p.data);
      assert Intact(crc, file, x) && x.End() <= b;
    }
  }

  /** From any place before the log, in any state, the reader comes to the log. */
  lemma {:induction false} ComesTo(crc: Checksum, file: seq<Byte>, s: Place, inRecord: bool, scratch: seq<Byte>,
                                   emit: (nat, seq<Byte>) -> seq<Byte>, b: nat, records: seq<seq<Byte>>)
    returns (rs: seq<seq<Byte>>, end: Place)
    requires PlaceOk(file, s) && s.at <= b < |file| && b % BLOCK == 0 && NoEnd(crc, file, b)
    requires LogFrom(crc, file, emit, b, records)
    ensures Rest(rs, end, crc, file, s, inRecord, scratch)
    ensures EndsWith(rs, records[..Contained(emit, b, records, |file|)])
    decreases b - s.at
  {
    if s.at == b {
      end := Landed(crc, file, s, inRecord, scratch, emit, records);
      rs := records[..Contained(emit, b, records, |file|)];
    } else if b < s.at + HEADER {
      var s' := SkipToBlock(crc, file, s, b, inRecord, scratch);
      end := Landed(crc, file, s', inRecord, scratch, emit, records);
      rs := records[..Contained(emit, b, records, |file|)];
    } else {
      var p, s' := ReadBefore(crc, file, s, b);
      GoesOn(crc, file, s, p, s', b, inRecord, scratch);
      StepsOn(crc, file, s, p, s');
      var (g, reported) := Assemble(p, inRecord, scratch);
      ReportKeeps(file, s', reported);
      var t := Report(s', reported);
      if g.More? {
        rs, end := ComesTo(crc, file, t, g.inRecord, g.scratch, emit, b, records);
        RestMore(crc, file, s, p, s', inRecord, scratch, rs, end);
      } else {
        rs, end := ComesTo(crc, file, t, false, [], emit, b, records);
        RestDone(crc, file, s, p, s', inRecord, scratch, rs, end);
        EndsOn(g.record.value, rs, records[..Contained(emit, b, records, |file|)]);
        rs := [g.record.value] + rs;
      }
    }
  }

  lemma ReadsBehind(crc: Checksum, file: seq<Byte>, emit: (nat, seq<Byte>) -> seq<Byte>, b: nat, records: seq<seq<Byte>>)
    requires b % BLOCK == 0 && NoEnd(crc, file, b) && LogFrom(crc, file, emit, b, records)
    ensures PlaceOk(file, BEGINNING)
    ensures EndsWith(ReadAll(crc, file, BEGINNING).0, records[..Contained(emit, b, records, |file|)])
  {
    if b < |file| {
      var rs, end := ComesTo(crc, file, BEGINNING, false, [], emit, b, records);
      RestIsAll(rs, end, crc, file, BEGINNING);
      assert UnfoldAt(end, 0);
    } else {
      NothingYet(crc, emit, b, records);
    }
  }

  /** A fragment of the first bytes of a file. */
  lemma IntactBefore(crc: Checksum, base: seq<Byte>, file: seq<Byte>, x: Piece)
    requires base <= file && x.End() <= |base| && Intact(crc, file, x)
    ensures Intact(crc, base, x)
  {
    assert UnfoldAt(x, 0);
    var n := LengthAt(file, x.at);
    assert base[x.at + 6..x.at + HEADER + n] == file[x.at + 6..x.at + HEADER + n];
    assert base[x.at..x.at + 4] == file[x.at..x.at + 4];
    assert base[x.at + HEADER..x.End()] == file[x.at + HEADER..x.End()];
  }

  lemma NoEndBefore(crc: Checksum, base: seq<Byte>, file: seq<Byte>)
    requires base <= file && NoEnd(crc, base, |base|)
    ensures NoEnd(crc, file, |base|)
  {
    forall x: Piece | Intact(crc, file, x) && x.End() <= |base| ensures x.t != EOF_TYPE { IntactBefore(crc, base, file, x); }
  }

  lemma LogBehind(crc: Checksum, base: seq<Byte>, emit: (nat, seq<Byte>) -> seq<Byte>, records: seq<seq<Byte>>, log: seq<Byte>, m: nat)
    requires Emits(crc, emit) && log == Log(emit, |base|, records) && m <= |log|
    ensures LogFrom(crc, base + log[..m], emit, |base|, records)
  {
    var file := base + log[..m];
    forall i: nat | i < |log| && |base| + i < |file| ensures file[|base| + i] == log[i] {
    }
  }

  /** Whatever is in the first blocks of a file, unless an intact fragment there has the
      reserved type, the records of an intact log after them are all read, up to the byte at
      which the file ends. */
  lemma Resynchronises(crc: Checksum, base: seq<Byte>, records: seq<seq<Byte>>, m: nat)
    requires |base| % BLOCK == 0 && NoEnd(crc, base, |base|) && m <= |Log(Emitter(crc), |base|, records)|
    ensures var file := base + Log(Emitter(crc), |base|, records)[..m];
      && PlaceOk(file, BEGINNING)
      && EndsWith(ReadAll(crc, file, BEGINNING).0, records[..Contained(Emitter(crc), |base|, records, |file|)])
    ensures m == |Log(Emitter(crc), |base|, records)| ==>
      Contained(Emitter(crc), |base|, records, |base| + m) == |records|
  {
    var emit := Emitter(crc);
    var log := Log(emit, |base|, records);
    EmitterEmits(crc);
    LogBehind(crc, base, emit, records, log, m);
    NoEndBefore(crc, base, base + log[..m]);
    ReadsBehind(crc, base + log[..m], emit, |base|, records);
    AllContained(emit, |base|, records, m);
  }

  lemma AllContained(emit: (nat, seq<Byte>) -> seq<Byte>, b: nat, records: seq<seq<Byte>>, m: nat)
    ensures m == |Log(emit, b, records)| ==> Contained(emit, b, records, b + m) == |records|
  {
    ContainedIs(emit, b, records, b + m, |records|);
    assert records[..|records|] == records;
  }

  /** With a writer: what it adds to a damaged file of whole blocks is read. */
  lemma WriterResynchronises(w: Writer)
    requires w.Valid() && |w.base| % BLOCK == 0 && NoEnd(w.crc, w.base, |w.base|)
    ensures PlaceOk(w.dest, BEGINNING) && EndsWith(ReadAll(w.crc, w.dest, BEGINNING).0, w.records)
  {
    assert UnfoldAt(w.dest, 0);
    EmitterEmits(w.crc);
    WholeLog(w.crc, Emitter(w.crc), w.base, w.records, w.dest);
  }

  lemma WholeLog(crc: Checksum, emit: (nat, seq<Byte>) -> seq<Byte>, base: seq<Byte>, records: seq<seq<Byte>>, dest: seq<Byte>)
    requires |base| % BLOCK == 0 && NoEnd(crc, base, |base|) && Emits(crc, emit) && dest == base + Log(emit, |base|, records)
    ensures PlaceOk(dest, BEGINNING) && EndsWith(ReadAll(crc, dest, BEGINNING).0, records)
  {
    var log := Log(emit, |base|, records);
    LogBehind(crc, base, emit, records, log, |log|);
    assert log[..|log|] == log;
    NoEndBefore(crc, base, dest);
    ReadsBehind(crc, dest, emit, |base|, records);
    AllContained(emit, |base|, records, |log|);
    assert records[..|records|] == records;
  }

  /** Every record has at least a header. */
  lemma NothingYet(crc: Checksum, emit: (nat, seq<Byte>) -> seq<Byte>, b: nat, records: seq<seq<Byte>>)
    requires Emits(crc, emit)
    ensures Contained(emit, b, records, b) == 0
  {
    if records != [] {
      var n, fragment, rest := PendingParts(crc, b, records[0], true, emit(b, records[0]));
    }
  }

  /** The condition is needed: an intact fragment of the reserved type at the start of a file
      hides everything after it. */
  lemma ReservedTypeHides(crc: Checksum, file: seq<Byte>, data: seq<Byte>)
    requires Intact(crc, file, Piece(0, EOF_TYPE, data)) && HEADER + |data| <= BLOCK
    ensures PlaceOk(file, BEGINNING) && ReadAll(crc, file, BEGINNING).0 == []
  {
    var x := Piece(0, EOF_TYPE, data);
    assert UnfoldAt(x, 0);
    var s, t := BEGINNING, Refill(file, BEGINNING);
    ReadPhysicalIs(crc, file, s);
    assert t.at == 0 && HEADER + |data| <= t.end;
    var s' := ReadPhysical(crc, file, s).1;
    assert Steps(crc, file, s, Fragment(EOF_TYPE, data), s');
    Unrolled(crc, file, s, Fragment(EOF_TYPE, data), s', false, []);
  }
}
