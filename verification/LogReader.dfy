/** Reading a log back: block by block, fragment by fragment. */
module LogReader {
  import opened Wrappers
  import opened Bits
  import opened Bytes
  import opened LogWriter

  /** What one physical read gives. */
  datatype Outcome = Fragment(t: Byte, data: seq<Byte>) | Eof | BadRecord

  /** The reader of a file: the bytes from at to end are in its buffer, and reports has, for
      each corruption it reported, how many bytes were dropped. */
  datatype Place = Place(at: nat, end: nat, eof: bool, reports: seq<nat>)

  const BEGINNING: Place := Place(0, 0, false, [])

  /** Types that a fragment must not have: they would stand for the other two outcomes. */
  const EOF_TYPE: Byte := 5
  const BAD_TYPE: Byte := 6

  ghost predicate PlaceOk(file: seq<Byte>, s: Place) {
    s.at <= s.end <= |file| && (s.eof ==> s.end == |file|) && Aligned(s)
  }

  /** The buffer does not go beyond a block. */
  ghost predicate Aligned(s: Place) {
    forall u {:trigger UnfoldAt(s, u)} :: UnfoldAt(s, u) ==>
      s.end <= s.at - s.at % BLOCK + BLOCK && (s.eof || s.end % BLOCK == 0)
  }

  lemma FillKeeps(file: seq<Byte>, s: Place)
    requires PlaceOk(file, s) && !s.eof
    ensures PlaceOk(file, Fill(file, s))
  {
    assert UnfoldAt(s, 0);
  }

  lemma ReportKeeps(file: seq<Byte>, s: Place, reported: seq<nat>)
    requires PlaceOk(file, s)
    ensures PlaceOk(file, Report(s, reported))
  {
    assert UnfoldAt(s, 0);
  }

  lemma ClearKeeps(file: seq<Byte>, s: Place)
    requires PlaceOk(file, s)
    ensures PlaceOk(file, s.(at := s.end))
  {
    assert UnfoldAt(s, 0);
    SameBlock(s.at, s.end, s.end);
  }

  /** Read the next block into the buffer. */
  function Fill(file: seq<Byte>, s: Place): Place
    requires s.end <= |file|
  {
    var end := if s.end + BLOCK <= |file| then s.end + BLOCK else |file|;
    s.(at := s.end, end := end, eof := end - s.end < BLOCK)
  }

  function LengthAt(file: seq<Byte>, at: nat): nat
    requires at + HEADER <= |file|
  {
    (file[at + 4] as int) + 256 * (file[at + 5] as int)
  }

  function SumOk(crc: Checksum, file: seq<Byte>, at: nat): bool
    requires at + HEADER <= |file| && at + HEADER + LengthAt(file, at) <= |file|
  {
    crc.Value(file[at + 6..at + HEADER + LengthAt(file, at)]) == Unmask(DecodeFixed32(file[at..at + 4]))
  }

  /** Parse the header in the buffer, check the fragment and step over it. */
  function Parse(crc: Checksum, file: seq<Byte>, s: Place): (Outcome, Place)
    requires s.at + HEADER <= s.end <= |file|
  {
    var n, t := LengthAt(file, s.at), file[s.at + 6];
    var cleared := s.(at := s.end);
    if s.at + HEADER + n > s.end then
      if s.eof then (Eof, cleared) else (BadRecord, cleared.(reports := s.reports + [s.end - s.at]))
    else if t == ZERO && n == 0 then (BadRecord, cleared)
    else if !SumOk(crc, file, s.at) then (BadRecord, cleared.(reports := s.reports + [s.end - s.at]))
    else (Fragment(t, file[s.at + HEADER..s.at + HEADER + n]), s.(at := s.at + HEADER + n))
  }

  /** One physical read: refill while less than a header is left. */
  function ReadPhysical(crc: Checksum, file: seq<Byte>, s: Place): (r: (Outcome, Place))
    requires PlaceOk(file, s)
    ensures PlaceOk(file, r.1) && (r.0.Eof? || r.1.at > s.at)
    decreases |file| - s.end, !s.eof
  {
    if s.end - s.at >= HEADER then ParseKeeps(crc, file, s); Parse(crc, file, s)
    else if s.eof then ClearKeeps(file, s); (Eof, s.(at := s.end))
    else FillKeeps(file, s); ReadPhysical(crc, file, Fill(file, s))
  }

  lemma ParseKeeps(crc: Checksum, file: seq<Byte>, s: Place)
    requires PlaceOk(file, s) && s.at + HEADER <= s.end
    ensures PlaceOk(file, Parse(crc, file, s).1) && Parse(crc, file, s).1.at > s.at
  {
    assert UnfoldAt(s, 0);
    SameBlock(s.at, Parse(crc, file, s).1.at, s.end);
  }

  lemma SameBlock(p: nat, q: nat, end: nat)
    requires p <= q <= end <= p - p % BLOCK + BLOCK
    ensures end <= q - q % BLOCK + BLOCK
  {
  }

  // ----- one fragment

  ghost predicate Agrees(file: seq<Byte>, p: nat, bytes: seq<Byte>) {
    p <= |file| && forall i: nat :: i < |bytes| && p + i < |file| ==> file[p + i] == bytes[i]
  }

  lemma AgreesParts(file: seq<Byte>, p: nat, a: seq<Byte>, b: seq<Byte>)
    requires Agrees(file, p, a + b)
    ensures Agrees(file, p, a) && (p + |a| <= |file| ==> Agrees(file, p + |a|, b))
  {
    var ab := a + b;
    forall i: nat | i < |a| && p + i < |file| ensures file[p + i] == a[i] {
      assert file[p + i] == ab[i];
    }
    forall i: nat | i < |b| && p + |a| + i < |file| ensures file[p + |a| + i] == b[i] {
      assert file[p + (|a| + i)] == ab[|a| + i];
    }
  }

  /** The place from which the next header is parsed. */
  ghost function Refill(file: seq<Byte>, s: Place): Place
    requires PlaceOk(file, s)
  {
    if s.end - s.at >= HEADER || s.eof then s else Fill(file, s)
  }

  lemma ReadPhysicalIs(crc: Checksum, file: seq<Byte>, s: Place)
    requires PlaceOk(file, s)
    ensures var s' := Refill(file, s);
      && s'.at <= s'.end <= |file|
      && ReadPhysical(crc, file, s)
         == if s'.end - s'.at >= HEADER then Parse(crc, file, s') else (Eof, s'.(at := s'.end))
  {
  }

  /** The reader skips the trailer, and its buffer holds what the file has of the block. */
  lemma RefillSkips(file: seq<Byte>, s: Place)
    requires PlaceOk(file, s)
    ensures var s', skip := Refill(file, s), |Trailer(s.at % BLOCK)|;
      && s'.reports == s.reports && PlaceOk(file, s')
      && (|file| >= s.at + skip + HEADER ==>
            && s'.at == s.at + skip && s'.at % BLOCK == Start(s.at % BLOCK)
            && (if s'.eof then s'.end == |file| else s'.end == s'.at - s'.at % BLOCK + BLOCK))
      && (|file| < s.at + skip + HEADER ==> s'.end - s'.at < HEADER)
  {
    assert UnfoldAt(s, 0);
    if !s.eof { FillKeeps(file, s); }
  }

  lemma LengthIs(file: seq<Byte>, at: nat, crc: Checksum, t: Byte, data: seq<Byte>)
    requires |data| < 65536 && at + HEADER <= |file| && Agrees(file, at, Physical(crc, t, data))
    ensures LengthAt(file, at) == |data| && file[at + 6] == t
  {
    var bytes := Physical(crc, t, data);
    assert file[at + 4] == bytes[4] && file[at + 5] == bytes[5] && file[at + 6] == bytes[6];
  }

  lemma SliceIs(file: seq<Byte>, at: nat, bytes: seq<Byte>, i: nat, j: nat)
    requires Agrees(file, at, bytes) && i <= j <= |bytes| && at + j <= |file|
    ensures file[at + i..at + j] == bytes[i..j]
  {
  }

  lemma PhysicalParts(crc: Checksum, t: Byte, data: seq<Byte>)
    requires |data| < 65536
    ensures var bytes := Physical(crc, t, data);
      && bytes[0..4] == Fixed32(Mask(crc.Value([t] + data)))
      && bytes[6..HEADER + |data|] == [t] + data && bytes[HEADER..HEADER + |data|] == data
  {
  }

  lemma SumDecodes(sum: nat)
    requires sum < WORD
    ensures Unmask(DecodeFixed32(Fixed32(Mask(sum)))) == sum
  {
    var w := Fixed32(Mask(sum));
    assert w == w + [];
    Fixed32RoundTrip(Mask(sum), []);
    MaskInverse(sum);
  }

  lemma SumIs(file: seq<Byte>, at: nat, crc: Checksum, t: Byte, data: seq<Byte>)
    requires |data| < 65536 && at + HEADER + |data| <= |file| && Agrees(file, at, Physical(crc, t, data))
    requires LengthAt(file, at) == |data|
    ensures SumOk(crc, file, at) && file[at + HEADER..at + HEADER + |data|] == data
  {
    var bytes := Physical(crc, t, data);
    PhysicalParts(crc, t, data);
    SliceIs(file, at, bytes, 0, 4);
    SliceIs(file, at, bytes, 6, HEADER + |data|);
    SliceIs(file, at, bytes, HEADER, HEADER + |data|);
    SumDecodes(crc.Value([t] + data));
  }

  lemma ParseFragment(crc: Checksum, file: seq<Byte>, s: Place, t: Byte, data: seq<Byte>)
    requires s.at + HEADER <= s.end <= |file| && t != ZERO && |data| < 65536
    requires Agrees(file, s.at, Physical(crc, t, data))
    requires s.at + HEADER + |data| <= s.end || (s.eof && s.end == |file|)
    ensures Parse(crc, file, s)
      == if s.at + HEADER + |data| <= s.end then (Fragment(t, data), s.(at := s.at + HEADER + |data|))
         else (Eof, s.(at := s.end))
  {
    LengthIs(file, s.at, crc, t, data);
    if s.at + HEADER + |data| <= s.end {
      SumIs(file, s.at, crc, t, data);
    }
  }

  /** As far as the file goes, it has a fragment at position p, after a trailer if that is
      too near the end of its block; the two take up `length` bytes. */
  ghost predicate FragmentAt(file: seq<Byte>, p: nat, crc: Checksum, t: Byte, data: seq<Byte>, length: nat) {
    forall u {:trigger UnfoldAt(data, u)} :: UnfoldAt(data, u) ==>
      && Start(p % BLOCK) + HEADER + |data| <= BLOCK && length == |Trailer(p % BLOCK)| + HEADER + |data|
      && Agrees(file, p, Trailer(p % BLOCK) + Physical(crc, t, data))
  }

  /** A physical read at s gives r and goes on at s'. */
  ghost predicate Steps(crc: Checksum, file: seq<Byte>, s: Place, r: Outcome, s': Place) {
    forall u {:trigger UnfoldAt(s', u)} :: UnfoldAt(s', u) ==>
      PlaceOk(file, s) && PlaceOk(file, s') && ReadPhysical(crc, file, s) == (r, s')
  }

  /** Reading where a fragment was written gives that fragment, if the file has all of
      it, and else the end of the file. */
  lemma ReadFragment(crc: Checksum, file: seq<Byte>, s: Place, t: Byte, data: seq<Byte>, length: nat)
    returns (s': Place)
    requires PlaceOk(file, s) && t != ZERO && FragmentAt(file, s.at, crc, t, data, length)
    ensures Steps(crc, file, s, if s.at + length <= |file| then Fragment(t, data) else Eof, s')
    ensures PlaceOk(file, s') && s'.reports == s.reports && (s.at + length <= |file| ==> s'.at == s.at + length)
  {
    assert UnfoldAt(data, 0);
    ReadPhysicalIs(crc, file, s);
    RefillSkips(file, s);
    if |file| >= s.at + |Trailer(s.at % BLOCK)| + HEADER {
      AgreesParts(file, s.at, Trailer(s.at % BLOCK), Physical(crc, t, data));
      ParseFragment(crc, file, Refill(file, s), t, data);
    }
    s' := ReadPhysical(crc, file, s).1;
  }

  // ----- whole records

  datatype Progress = Done(record: Option<seq<Byte>>) | More(inRecord: bool, scratch: seq<Byte>)

  /** What becomes of the record being put together, and what corruption is reported.  A
      fragment whose type is one of the two reserved numbers is taken for the end of the file
      or for a bad record. */
  function Assemble(p: Outcome, inRecord: bool, scratch: seq<Byte>): (Progress, seq<nat>) {
    if p.Eof? || (p.Fragment? && p.t == EOF_TYPE) then (Done(None), [])
    else if p.BadRecord? || (p.Fragment? && p.t == BAD_TYPE) then
      if inRecord then (More(false, []), [|scratch|]) else (More(false, scratch), [])
    else
      var t, data := p.t, p.data;
      var partial := if inRecord && scratch != [] then [|scratch|] else [];
      if t == FULL then (Done(Some(data)), partial)
      else if t == FIRST then (More(true, data), partial)
      else if t == MIDDLE then if inRecord then (More(true, scratch + data), []) else (More(false, scratch), [|data|])
      else if t == LAST then if inRecord then (Done(Some(scratch + data)), []) else (More(false, scratch), [|data|])
      else (More(false, []), [|data| + if inRecord then |scratch| else 0])
  }

  function Report(s: Place, reported: seq<nat>): Place {
    if reported == [] then s else s.(reports := s.reports + reported)
  }

  /** Put fragments together until a record is complete or the file ends. */
  function ReadFrom(crc: Checksum, file: seq<Byte>, s: Place, inRecord: bool, scratch: seq<Byte>)
    : (r: (Option<seq<Byte>>, Place))
    requires PlaceOk(file, s)
    ensures PlaceOk(file, r.1) && (r.0.Some? ==> r.1.at > s.at)
    decreases |file| - s.at
  {
    var (p, s') := ReadPhysical(crc, file, s);
    var (g, reported) := Assemble(p, inRecord, scratch);
    ReportKeeps(file, s', reported);
    if g.Done? then (g.record, Report(s', reported))
    else ReadFrom(crc, file, Report(s', reported), g.inRecord, g.scratch)
  }

  /** Reading on from s gives r. */
  ghost predicate Result(r: (Option<seq<Byte>>, Place), crc: Checksum, file: seq<Byte>, s: Place, inRecord: bool,
                         scratch: seq<Byte>)
  {
    forall u {:trigger UnfoldAt(r, u)} :: UnfoldAt(r, u) ==>
      PlaceOk(file, s) && r == ReadFrom(crc, file, s, inRecord, scratch)
  }

  /** One fragment read and the rest. */
  lemma Unrolled(crc: Checksum, file: seq<Byte>, s: Place, p: Outcome, s': Place, inRecord: bool, scratch: seq<Byte>)
    requires Steps(crc, file, s, p, s')
    ensures PlaceOk(file, s) && PlaceOk(file, Report(s', Assemble(p, inRecord, scratch).1))
    ensures var (g, reported) := Assemble(p, inRecord, scratch);
      ReadFrom(crc, file, s, inRecord, scratch)
      == if g.Done? then (g.record, Report(s', reported)) else ReadFrom(crc, file, Report(s', reported), g.inRecord, g.scratch)
  {
    assert UnfoldAt(s', 0);
    ReportKeeps(file, s', Assemble(p, inRecord, scratch).1);
  }

  lemma AssembleLast(begin: bool, scratch: seq<Byte>, data: seq<Byte>)
    requires begin ==> scratch == []
    ensures Assemble(Fragment(TypeOf(begin, true), data), !begin, scratch) == (Done(Some(scratch + data)), [])
  {
    assert begin ==> scratch + data == data;
  }

  lemma AssemblePart(begin: bool, scratch: seq<Byte>, data: seq<Byte>)
    requires begin ==> scratch == []
    ensures Assemble(Fragment(TypeOf(begin, false), data), !begin, scratch) == (More(true, scratch + data), [])
  {
    assert begin ==> scratch + data == data;
  }

  lemma ReadEnd(crc: Checksum, file: seq<Byte>, s: Place, inRecord: bool, scratch: seq<Byte>, s': Place)
    requires Steps(crc, file, s, Eof, s')
    ensures Result((None, s'), crc, file, s, inRecord, scratch)
  {
    Unrolled(crc, file, s, Eof, s', inRecord, scratch);
  }

  lemma ReadLast(crc: Checksum, file: seq<Byte>, s: Place, begin: bool, scratch: seq<Byte>, data: seq<Byte>, s': Place)
    requires Steps(crc, file, s, Fragment(TypeOf(begin, true), data), s') && (begin ==> scratch == [])
    ensures Result((Some(scratch + data), s'), crc, file, s, !begin, scratch)
  {
    AssembleLast(begin, scratch, data);
    Unrolled(crc, file, s, Fragment(TypeOf(begin, true), data), s', !begin, scratch);
  }

  lemma ReadPart(crc: Checksum, file: seq<Byte>, s: Place, begin: bool, scratch: seq<Byte>, data: seq<Byte>, s': Place,
                 r: (Option<seq<Byte>>, Place))
    requires Steps(crc, file, s, Fragment(TypeOf(begin, false), data), s') && (begin ==> scratch == [])
    requires Result(r, crc, file, s', true, scratch + data)
    ensures Result(r, crc, file, s, !begin, scratch)
  {
    assert UnfoldAt(r, 0);
    AssemblePart(begin, scratch, data);
    Unrolled(crc, file, s, Fragment(TypeOf(begin, false), data), s', !begin, scratch);
  }

  /** The result of reading a record that takes up `length` bytes from s on. */
  ghost predicate Gives(file: seq<Byte>, s: Place, r: (Option<seq<Byte>>, Place), record: seq<Byte>, length: nat) {
    && r.1.reports == s.reports
    && if s.at + length <= |file| then r.0 == Some(record) && r.1.at == s.at + length else r.0 == None
  }

  /** Reading where a record, or the rest of one, was written gives that record, if the
      file has all of it, and else the end of the file; nothing is reported. */
  lemma {:induction false} ReadPending(crc: Checksum, file: seq<Byte>, s: Place, data: seq<Byte>, begin: bool,
                                       scratch: seq<Byte>, bytes: seq<Byte>)
    returns (r: (Option<seq<Byte>>, Place))
    requires PlaceOk(file, s) && Pending(bytes, crc, s.at, data, begin, true) && Agrees(file, s.at, bytes)
    requires begin ==> scratch == []
    ensures Result(r, crc, file, s, !begin, scratch) && Gives(file, s, r, scratch + data, |bytes|)
    decreases |bytes|
  {
    var n, length, rest := FirstFragment(crc, file, s.at, data, begin, bytes);
    var s' := ReadFragment(crc, file, s, TypeOf(begin, n == |data|), data[..n], length);
    if s.at + length > |file| {
      r := (None, s');
      ReadEnd(crc, file, s, !begin, scratch, s');
    } else if n == |data| {
      assert data[..n] == data;
      r := (Some(scratch + data), s');
      ReadLast(crc, file, s, begin, scratch, data, s');
    } else {
      r := ReadPending(crc, file, s', data[n..], false, scratch + data[..n], rest);
      assert scratch + data[..n] + data[n..] == scratch + data;
      ReadPart(crc, file, s, begin, scratch, data[..n], s', r);
    }
  }

  /** The first fragment of what was written, and the rest. */
  lemma FirstFragment(crc: Checksum, file: seq<Byte>, p: nat, data: seq<Byte>, begin: bool, bytes: seq<Byte>)
    returns (n: nat, length: nat, rest: seq<Byte>)
    requires Pending(bytes, crc, p, data, begin, true) && Agrees(file, p, bytes)
    ensures n <= |data| && length > 0 && |bytes| == length + |rest|
    ensures FragmentAt(file, p, crc, TypeOf(begin, n == |data|), data[..n], length)
    ensures n == |data| ==> rest == []
    ensures n < |data| ==> Pending(rest, crc, p + length, data[n..], false, true)
    ensures n < |data| && p + length <= |file| ==> Agrees(file, p + length, rest)
  {
    var fragment;
    n, fragment, rest := PendingParts(crc, p, data, begin, bytes);
    length := |fragment|;
    AgreesParts(file, p, fragment, rest);
    FragmentThere(file, p, crc, TypeOf(begin, n == |data|), data[..n], fragment);
  }

  /** These bytes are a fragment written at position p. */
  ghost predicate Written(fragment: seq<Byte>, p: nat, crc: Checksum, t: Byte, data: seq<Byte>) {
    forall u {:trigger UnfoldAt(fragment, u)} :: UnfoldAt(fragment, u) ==>
      && Start(p % BLOCK) + HEADER + |data| <= BLOCK
      && fragment == Trailer(p % BLOCK) + Physical(crc, t, data)
  }

  lemma PendingParts(crc: Checksum, p: nat, data: seq<Byte>, begin: bool, bytes: seq<Byte>)
    returns (n: nat, fragment: seq<Byte>, rest: seq<Byte>)
    requires Pending(bytes, crc, p, data, begin, true)
    ensures n <= |data| && |fragment| > 0 && bytes == fragment + rest
    ensures Written(fragment, p, crc, TypeOf(begin, n == |data|), data[..n])
    ensures n == |data| ==> rest == []
    ensures n < |data| ==> Pending(rest, crc, p + |fragment|, data[n..], false, true)
  {
    assert UnfoldAt(bytes, 0);
    n := FragmentLength(p % BLOCK, |data|);
    fragment := Trailer(p % BLOCK) + Physical(crc, TypeOf(begin, n == |data|), data[..n]);
    if n == |data| {
      rest := [];
      assert fragment + [] == fragment;
    } else {
      rest := Emitted(crc, 0, data[n..], false);
      NextBlock(p, n);
      StartsRest(crc, p + |fragment|, data[n..], rest);
    }
  }

  lemma StartsRest(crc: Checksum, q: nat, left: seq<Byte>, rest: seq<Byte>)
    requires q % BLOCK == 0 && rest == Emitted(crc, 0, left, false)
    ensures Pending(rest, crc, q, left, false, true)
  {
  }

  lemma FragmentThere(file: seq<Byte>, p: nat, crc: Checksum, t: Byte, data: seq<Byte>, fragment: seq<Byte>)
    requires Written(fragment, p, crc, t, data) && Agrees(file, p, fragment)
    ensures FragmentAt(file, p, crc, t, data, |fragment|)
  {
    assert UnfoldAt(fragment, 0);
  }

  lemma NextBlock(p: nat, n: nat)
    requires Start(p % BLOCK) + HEADER + n == BLOCK
    ensures (p + |Trailer(p % BLOCK)| + HEADER + n) % BLOCK == 0
  {
  }

  // ----- the whole log

  /** All the records read from s on until the end of the file is reported. */
  function ReadAll(crc: Checksum, file: seq<Byte>, s: Place): (seq<seq<Byte>>, Place)
    requires PlaceOk(file, s)
    decreases |file| - s.at
  {
    var (r, s') := ReadFrom(crc, file, s, false, []);
    if r.None? then ([], s')
    else
      var (rs, end) := ReadAll(crc, file, s');
      ([r.value] + rs, end)
  }

  /** How many of the records written from position p on end at or before position m. */
  function Contained(emit: (nat, seq<Byte>) -> seq<Byte>, p: nat, records: seq<seq<Byte>>, m: nat): (k: nat)
    ensures k <= |records|
    decreases |records|
  {
    if records == [] || p + |emit(p, records[0])| > m then 0
    else 1 + Contained(emit, p + |emit(p, records[0])|, records[1..], m)
  }

  /** They are the longest run of records whose log fits. */
  lemma {:induction false} ContainedIs(emit: (nat, seq<Byte>) -> seq<Byte>, p: nat, records: seq<seq<Byte>>, m: nat, k: nat)
    requires p <= m && k <= |records|
    ensures p + |Log(emit, p, records[..k])| <= m <==> k <= Contained(emit, p, records, m)
    decreases |records|
  {
    if k > 0 {
      var first := emit(p, records[0]);
      assert records[..k][0] == records[0] && records[..k][1..] == records[1..][..k - 1];
      if p + |first| <= m {
        ContainedIs(emit, p + |first|, records[1..], m, k - 1);
      }
    }
  }

  /** Reading everything from s on gives rs and stops at end. */
  ghost predicate AllFrom(rs: seq<seq<Byte>>, end: Place, crc: Checksum, file: seq<Byte>, s: Place) {
    forall u {:trigger UnfoldAt(end, u)} :: UnfoldAt(end, u) ==>
      PlaceOk(file, s) && ReadAll(crc, file, s) == (rs, end)
  }

  lemma ReadAtEnd(crc: Checksum, file: seq<Byte>, s: Place) returns (end: Place)
    requires PlaceOk(file, s) && s.at == |file|
    ensures AllFrom([], end, crc, file, s) && end.reports == s.reports
  {
    ReadPhysicalIs(crc, file, s);
    end := ReadPhysical(crc, file, s).1;
    assert Steps(crc, file, s, Eof, end);
    ReadEnd(crc, file, s, false, [], end);
    ReadStops(crc, file, s, (None, end));
  }

  lemma ReadStops(crc: Checksum, file: seq<Byte>, s: Place, r: (Option<seq<Byte>>, Place))
    requires Result(r, crc, file, s, false, []) && r.0 == None
    ensures AllFrom([], r.1, crc, file, s)
  {
    assert UnfoldAt(r, 0);
  }

  lemma ReadGoesOn(crc: Checksum, file: seq<Byte>, s: Place, r: (Option<seq<Byte>>, Place),
                   rs: seq<seq<Byte>>, end: Place)
    requires Result(r, crc, file, s, false, []) && r.0.Some? && AllFrom(rs, end, crc, file, r.1)
    ensures AllFrom([r.0.value] + rs, end, crc, file, s)
  {
    assert UnfoldAt(r, 0);
    assert UnfoldAt(end, 0);
  }

  lemma ResultPlace(crc: Checksum, file: seq<Byte>, s: Place, r: (Option<seq<Byte>>, Place), inRecord: bool,
                    scratch: seq<Byte>)
    requires Result(r, crc, file, s, inRecord, scratch)
    ensures PlaceOk(file, r.1)
  {
    assert UnfoldAt(r, 0);
  }

  ghost predicate Emits(crc: Checksum, emit: (nat, seq<Byte>) -> seq<Byte>) {
    forall p: nat, data :: Pending(emit(p, data), crc, p, data, true, true)
  }

  lemma EmitterEmits(crc: Checksum)
    ensures Emits(crc, Emitter(crc))
  {
    forall p: nat, data ensures Pending(Emitter(crc)(p, data), crc, p, data, true, true) {
      SameOffset(crc, p, p, data);
    }
  }

  lemma LogHead(emit: (nat, seq<Byte>) -> seq<Byte>, p: nat, records: seq<seq<Byte>>, m: nat)
    requires records != []
    ensures var q := p + |emit(p, records[0])|;
      && Log(emit, p, records) == emit(p, records[0]) + Log(emit, q, records[1..])
      && Contained(emit, p, records, m) == if q > m then 0 else 1 + Contained(emit, q, records[1..], m)
  {
  }

  lemma FirstAndRest<T>(records: seq<T>, k: nat)
    requires k < |records|
    ensures [records[0]] + records[1..][..k] == records[..k + 1]
  {
  }

  /** Reading where the log goes on gives the next record. */
  lemma ReadFirst(crc: Checksum, file: seq<Byte>, s: Place, emit: (nat, seq<Byte>) -> seq<Byte>, record: seq<Byte>,
                  more: seq<Byte>)
    returns (r: (Option<seq<Byte>>, Place))
    requires PlaceOk(file, s) && Emits(crc, emit) && Agrees(file, s.at, emit(s.at, record) + more)
    ensures Result(r, crc, file, s, false, []) && Gives(file, s, r, record, |emit(s.at, record)|) && PlaceOk(file, r.1)
    ensures s.at + |emit(s.at, record)| <= |file| ==> Agrees(file, s.at + |emit(s.at, record)|, more)
  {
    var bytes := emit(s.at, record);
    AgreesParts(file, s.at, bytes, more);
    r := ReadPending(crc, file, s, record, true, [], bytes);
    assert [] + record == record;
    ResultPlace(crc, file, s, r, false, []);
  }

  /** Reading a file that has the log of some records, up to any byte, gives exactly the
      records that are complete and reports nothing. */
  lemma {:induction false} ReadLog(crc: Checksum, file: seq<Byte>, s: Place, emit: (nat, seq<Byte>) -> seq<Byte>,
                                   records: seq<seq<Byte>>)
    returns (end: Place)
    requires PlaceOk(file, s) && Emits(crc, emit)
    requires Agrees(file, s.at, Log(emit, s.at, records)) && |file| <= s.at + |Log(emit, s.at, records)|
    ensures AllFrom(records[..Contained(emit, s.at, records, |file|)], end, crc, file, s) && end.reports == s.reports
    decreases |records|
  {
    if records == [] {
      end := ReadAtEnd(crc, file, s);
    } else {
      var p := s.at + |emit(s.at, records[0])|;
      var more, k := Log(emit, p, records[1..]), Contained(emit, p, records[1..], |file|);
      LogHead(emit, s.at, records, |file|);
      var r := ReadFirst(crc, file, s, emit, records[0], more);
      if p > |file| {
        end := r.1;
        ReadStops(crc, file, s, r);
      } else {
        end := ReadLog(crc, file, r.1, emit, records[1..]);
        ReadGoesOn(crc, file, s, r, records[1..][..k], end);
        FirstAndRest(records, k);
      }
    }
  }

  /** The round trip, and what a crash at any byte leaves of it. */
  lemma LogRoundTrip(crc: Checksum, records: seq<seq<Byte>>, m: nat)
    requires m <= |Log(Emitter(crc), 0, records)|
    ensures var file := Log(Emitter(crc), 0, records)[..m];
      PlaceOk(file, BEGINNING)
      && var (rs, end) := ReadAll(crc, file, BEGINNING);
      rs == records[..Contained(Emitter(crc), 0, records, m)] && end.reports == []
    ensures m == |Log(Emitter(crc), 0, records)| ==> Contained(Emitter(crc), 0, records, m) == |records|
  {
    var emit := Emitter(crc);
    var file := Log(emit, 0, records)[..m];
    EmitterEmits(crc);
    var end := ReadLog(crc, file, BEGINNING, emit, records);
    assert UnfoldAt(end, 0);
    ContainedIs(emit, 0, records, m, |records|);
    assert records[..|records|] == records;
  }

  /** So whatever part of a writer's file survives a crash, its complete records are read. */
  lemma WriterRoundTrip(w: Writer, m: nat)
    requires w.Valid() && w.base == [] && m <= |w.dest|
    ensures PlaceOk(w.dest[..m], BEGINNING)
      && var (rs, end) := ReadAll(w.crc, w.dest[..m], BEGINNING);
      rs == w.records[..Contained(Emitter(w.crc), 0, w.records, m)] && end.reports == []
    ensures m == |w.dest| ==> Contained(Emitter(w.crc), 0, w.records, m) == |w.records|
  {
    assert UnfoldAt(w.dest, 0);
    assert w.dest == Log(Emitter(w.crc), 0, w.records);
    LogRoundTrip(w.crc, w.records, m);
  }

  // ----- any file

  /** A fragment of a file: where its header is, its type and its payload. */
  datatype Piece = Piece(at: nat, t: Byte, data: seq<Byte>) {
    function End(): nat {
      at + HEADER + |data|
    }
  }

  /** The file has this fragment, and its checksum is right. */
  ghost predicate Intact(crc: Checksum, file: seq<Byte>, x: Piece) {
    forall u {:trigger UnfoldAt(x, u)} :: UnfoldAt(x, u) ==>
      && x.End() <= |file| && LengthAt(file, x.at) == |x.data| && file[x.at + 6] == x.t
      && file[x.at + HEADER..x.End()] == x.data && SumOk(crc, file, x.at)
  }

  ghost function Join(pieces: seq<Piece>): seq<Byte> {
    if pieces == [] then [] else Join(pieces[..|pieces| - 1]) + pieces[|pieces| - 1].data
  }

  /** Intact fragments from position lo to position hi, one right after the other: between two
      there is less than a header. */
  ghost predicate InRow(crc: Checksum, file: seq<Byte>, pieces: seq<Piece>, lo: nat, hi: nat) {
    && pieces != [] && (forall i: nat :: i < |pieces| ==> Intact(crc, file, pieces[i]))
    && lo <= pieces[0].at && pieces[|pieces| - 1].End() == hi
    && (forall i: nat :: i < |pieces| ==> TouchesBefore(pieces, i))
  }

  ghost predicate TouchesBefore(pieces: seq<Piece>, i: nat)
    requires i < |pieces|
  {
    i > 0 ==> pieces[i - 1].End() <= pieces[i].at < pieces[i - 1].End() + HEADER
  }

  /** They start a record, which is not complete yet. */
  ghost predicate Opens(pieces: seq<Piece>) {
    pieces != [] && pieces[0].t == FIRST && forall i: nat :: 0 < i < |pieces| ==> pieces[i].t == MIDDLE
  }

  /** They make up a record. */
  ghost predicate Complete(pieces: seq<Piece>) {
    || (|pieces| == 1 && pieces[0].t == FULL)
    || (|pieces| > 1 && Opens(pieces[..|pieces| - 1]) && pieces[|pieces| - 1].t == LAST)
  }

  /** A physical read that gives a fragment has found it intact, at most a trailer on. */
  lemma ReadIntact(crc: Checksum, file: seq<Byte>, s: Place, t: Byte, data: seq<Byte>, s': Place)
    requires Steps(crc, file, s, Fragment(t, data), s')
    ensures s.at + HEADER + |data| <= s'.at
    ensures var x := Piece(s'.at - HEADER - |data|, t, data);
      Intact(crc, file, x) && x.End() == s'.at && s.at <= x.at < s.at + HEADER
  {
    assert UnfoldAt(s', 0);
    ReadPhysicalIs(crc, file, s);
  }

  lemma InRowMore(crc: Checksum, file: seq<Byte>, pieces: seq<Piece>, lo: nat, hi: nat, x: Piece)
    requires InRow(crc, file, pieces, lo, hi) && Intact(crc, file, x) && hi <= x.at < hi + HEADER
    ensures InRow(crc, file, pieces + [x], lo, x.End())
  {
    var all := pieces + [x];
    forall i: nat | i < |all| ensures TouchesBefore(all, i) && Intact(crc, file, all[i]) {
      if i < |pieces| { assert TouchesBefore(pieces, i) && Intact(crc, file, pieces[i]); }
    }
  }

  lemma JoinMore(pieces: seq<Piece>, x: Piece)
    ensures Join(pieces + [x]) == Join(pieces) + x.data
  {
    assert (pieces + [x])[..|pieces|] == pieces;
  }

  lemma InRowOne(crc: Checksum, file: seq<Byte>, lo: nat, x: Piece)
    requires Intact(crc, file, x) && lo <= x.at
    ensures InRow(crc, file, [x], lo, x.End()) && Join([x]) == x.data
  {
    assert TouchesBefore([x], 0) && [x][0] == x;
    assert [x][..0] == [] && Join([]) == [] && [] + x.data == x.data;
  }

  /** What has been put together so far are the fragments just read. */
  ghost predicate SoFar(crc: Checksum, file: seq<Byte>, lo: nat, s: Place, inRecord: bool, scratch: seq<Byte>, pieces: seq<Piece>) {
    lo <= s.at && (inRecord ==> InRow(crc, file, pieces, lo, s.at) && Opens(pieces) && Join(pieces) == scratch)
  }

  /** A record read from any file, damaged or not, is the join of intact fragments of the right
      types, which lie in the file one right after the other; reading goes on after them. */
  lemma {:induction false} RecordIsJoin(crc: Checksum, file: seq<Byte>, s: Place, inRecord: bool, scratch: seq<Byte>,
                                        lo: nat, before: seq<Piece>)
    returns (pieces: seq<Piece>)
    requires PlaceOk(file, s) && SoFar(crc, file, lo, s, inRecord, scratch, before)
    ensures var r := ReadFrom(crc, file, s, inRecord, scratch);
      r.0.Some? ==> InRow(crc, file, pieces, lo, r.1.at) && Complete(pieces) && r.0.value == Join(pieces)
    decreases |file| - s.at
  {
    var (p, s') := ReadPhysical(crc, file, s);
    Unrolled(crc, file, s, p, s', inRecord, scratch);
    StepsOn(crc, file, s, p, s');
    pieces := PieceAdded(crc, file, s, inRecord, scratch, lo, before, p, s');
    var (g, reported) := Assemble(p, inRecord, scratch);
    if g.More? {
      pieces := RecordIsJoin(crc, file, Report(s', reported), g.inRecord, g.scratch, lo, pieces);
    }
  }

  /** One more fragment. */
  lemma PieceAdded(crc: Checksum, file: seq<Byte>, s: Place, inRecord: bool, scratch: seq<Byte>, lo: nat, before: seq<Piece>,
                   p: Outcome, s': Place)
    returns (pieces: seq<Piece>)
    requires SoFar(crc, file, lo, s, inRecord, scratch, before) && Steps(crc, file, s, p, s')
    ensures var (g, reported) := Assemble(p, inRecord, scratch);
      && (g.More? ==> SoFar(crc, file, lo, s', g.inRecord, g.scratch, pieces))
      && (g.Done? && g.record.Some? ==>
            InRow(crc, file, pieces, lo, s'.at) && Complete(pieces) && g.record.value == Join(pieces))
  {
    StepsOn(crc, file, s, p, s');
    pieces := before;
    if p.Fragment? {
      ReadIntact(crc, file, s, p.t, p.data, s');
      var x := Piece(s'.at - HEADER - |p.data|, p.t, p.data);
      if p.t == FULL || p.t == FIRST {
        pieces := [x];
        InRowOne(crc, file, lo, x);
      } else if inRecord && (p.t == MIDDLE || p.t == LAST) {
        pieces := before + [x];
        PieceJoins(crc, file, lo, s.at, before, x);
      }
    }
  }

  lemma PieceJoins(crc: Checksum, file: seq<Byte>, lo: nat, hi: nat, before: seq<Piece>, x: Piece)
    requires InRow(crc, file, before, lo, hi) && Opens(before) && Intact(crc, file, x) && hi <= x.at < hi + HEADER
    ensures InRow(crc, file, before + [x], lo, x.End()) && Join(before + [x]) == Join(before) + x.data
    ensures x.t == MIDDLE ==> Opens(before + [x])
    ensures x.t == LAST ==> Complete(before + [x])
  {
    InRowMore(crc, file, before, lo, hi, x);
    JoinMore(before, x);
    OpensMore(before, x);
  }

  lemma OpensMore(pieces: seq<Piece>, x: Piece)
    requires Opens(pieces)
    ensures x.t == MIDDLE ==> Opens(pieces + [x])
    ensures x.t == LAST ==> Complete(pieces + [x])
  {
    assert (pieces + [x])[..|pieces|] == pieces;
  }

  // ----- the reader object

  lemma BufferIs(file: seq<Byte>, s: Place, i: nat, j: nat)
    requires s.at <= s.end <= |file| && i <= j <= s.end - s.at
    ensures file[s.at..s.end][i..j] == file[s.at + i..s.at + j]
  {
    var buffer := file[s.at..s.end];
    var x, y := buffer[i..j], file[s.at + i..s.at + j];
    assert |x| == j - i == |y|;
    forall k: nat | k < j - i ensures x[k] == y[k] {
      assert x[k] == buffer[i + k] && buffer[i + k] == file[s.at + (i + k)] && y[k] == file[s.at + i + k];
    }
  }

  lemma HeaderIn(crc: Checksum, file: seq<Byte>, s: Place, buffer: seq<Byte>)
    requires s.at + HEADER <= s.end <= |file| && buffer == file[s.at..s.end]
    ensures var n := (buffer[4] as int) + 256 * (buffer[5] as int);
      && LengthAt(file, s.at) == n && file[s.at + 6] == buffer[6]
      && (HEADER + n <= |buffer| ==>
            (SumOk(crc, file, s.at) <==> crc.Value(buffer[6..HEADER + n]) == Unmask(DecodeFixed32(buffer[0..4]))))
  {
    var n := (buffer[4] as int) + 256 * (buffer[5] as int);
    assert buffer[4] == file[s.at + 4] && buffer[5] == file[s.at + 5];
    BufferIs(file, s, 0, 4);
    if HEADER + n <= |buffer| {
      BufferIs(file, s, 6, HEADER + n);
    }
  }

  /** Parse a fragment from the buffer: what it is, what stays in the buffer and whether a
      corruption is reported. */
  method ParseBytes(crc: Checksum, buffer: seq<Byte>, eof: bool, ghost file: seq<Byte>, ghost s: Place)
    returns (r: Outcome, rest: seq<Byte>, reported: seq<nat>)
    requires s.at + HEADER <= s.end <= |file| && s.eof == eof && buffer == file[s.at..s.end]
    ensures |rest| <= s.end - s.at && rest == file[s.end - |rest|..s.end]
    ensures Parse(crc, file, s) == (r, Report(s.(at := s.end - |rest|), reported))
  {
    var n, t := (buffer[4] as int) + 256 * (buffer[5] as int), buffer[6];
    HeaderIn(crc, file, s, buffer);
    if HEADER + n > |buffer| {
      return if eof then Eof else BadRecord, [], if eof then [] else [|buffer|];
    }
    if t == ZERO && n == 0 {
      return BadRecord, [], [];
    }
    if crc.Value(buffer[6..HEADER + n]) != Unmask(DecodeFixed32(buffer[0..4])) {
      return BadRecord, [], [|buffer|];
    }
    BufferIs(file, s, HEADER, HEADER + n);
    BufferIs(file, s, HEADER + n, |buffer|);
    return Fragment(t, buffer[HEADER..HEADER + n]), buffer[HEADER + n..], [];
  }

  lemma ReadStep(goal: (Option<seq<Byte>>, Place), crc: Checksum, file: seq<Byte>, s: Place, inRecord: bool,
                 scratch: seq<Byte>, p: Outcome, s': Place)
    requires Result(goal, crc, file, s, inRecord, scratch) && Steps(crc, file, s, p, s')
    ensures PlaceOk(file, s') && (p == Eof || s'.at > s.at)
    ensures var (g, reported) := Assemble(p, inRecord, scratch);
      if g.Done? then goal == (g.record, Report(s', reported))
      else p != Eof && Result(goal, crc, file, Report(s', reported), g.inRecord, g.scratch)
  {
    assert UnfoldAt(goal, 0);
    StepsOn(crc, file, s, p, s');
    Unrolled(crc, file, s, p, s', inRecord, scratch);
  }

  lemma StepsOn(crc: Checksum, file: seq<Byte>, s: Place, p: Outcome, s': Place)
    requires Steps(crc, file, s, p, s')
    ensures PlaceOk(file, s') && (p == Eof || s'.at > s.at)
  {
    assert UnfoldAt(s', 0);
  }

  /** The record being put together will be, or is, the result. */
  ghost predicate Awaited(goal: (Option<seq<Byte>>, Place), crc: Checksum, file: seq<Byte>, s: Place, g: Progress) {
    match g
    case Done(record) => goal == (record, s)
    case More(inRecord, scratch) => Result(goal, crc, file, s, inRecord, scratch)
  }

  class Reader {
    const crc: Checksum
    const file: seq<Byte>
    var buffer: seq<Byte>
    var filePos: nat
    var eof: bool
    var reports: seq<nat>

    ghost function At(): Place
      reads this
    {
      Place(if |buffer| <= filePos then filePos - |buffer| else 0, filePos, eof, reports)
    }

    ghost predicate Valid()
      reads this
    {
      && |buffer| <= filePos <= |file| && PlaceOk(file, At())
      && buffer == file[filePos - |buffer|..filePos]
    }

    constructor (crc: Checksum, file: seq<Byte>)
      ensures Valid() && this.crc == crc && this.file == file && At() == BEGINNING
    {
      this.crc, this.file, buffer, filePos, eof, reports := crc, file, [], 0, false, [];
    }

    /** Read the next block of the file into the buffer. */
    method FillBuffer()
      requires Valid() && !eof && |buffer| < HEADER
      modifies this`buffer, this`filePos, this`eof
      ensures Valid() && At() == Fill(file, old(At()))
    {
      FillKeeps(file, At());
      var end := if filePos + BLOCK <= |file| then filePos + BLOCK else |file|;
      buffer := file[filePos..end];
      filePos := end;
      eof := |buffer| < BLOCK;
    }

    /** Take the fragment at the start of the buffer. */
    method ParseBuffer() returns (r: Outcome)
      requires Valid() && |buffer| >= HEADER
      modifies this`buffer, this`reports
      ensures Valid() && (r, At()) == Parse(crc, file, old(At()))
    {
      ParseKeeps(crc, file, At());
      var reported;
      r, buffer, reported := ParseBytes(crc, buffer, eof, file, At());
      assert reports + [] == reports;
      reports := reports + reported;
    }

    method ReadPhysicalRecord() returns (r: Outcome)
      requires Valid()
      modifies this`buffer, this`filePos, this`eof, this`reports
      ensures Valid() && Steps(crc, file, old(At()), r, At())
    {
      ghost var start := At();
      while |buffer| < HEADER
        invariant Valid() && ReadPhysical(crc, file, At()) == ReadPhysical(crc, file, start)
        decreases |file| - filePos, !eof
      {
        if eof {
          buffer := [];
          return Eof;
        }
        FillBuffer();
      }
      r := ParseBuffer();
    }

    /** The next record, or nothing at the end of the file. */
    method ReadRecord() returns (record: Option<seq<Byte>>)
      requires Valid()
      modifies this`buffer, this`filePos, this`eof, this`reports
      ensures Valid() && (record, At()) == ReadFrom(crc, file, old(At()), false, [])
      ensures record.Some? ==> exists pieces ::
        InRow(crc, file, pieces, old(At()).at, At().at) && Complete(pieces) && record.value == Join(pieces)
    {
      ghost var pieces := RecordIsJoin(crc, file, At(), false, [], At().at, []);
      ghost var goal := ReadFrom(crc, file, At(), false, []);
      var g := More(false, []);
      while g.More?
        invariant Valid() && Awaited(goal, crc, file, At(), g)
        decreases g.More?, |file| - At().at
      {
        g := ReadOn(g.inRecord, g.scratch, goal);
      }
      record := g.record;
    }

    /** Read one more fragment and add it to the record. */
    method ReadOn(inRecord: bool, scratch: seq<Byte>, ghost goal: (Option<seq<Byte>>, Place)) returns (g: Progress)
      requires Valid() && Awaited(goal, crc, file, At(), More(inRecord, scratch))
      modifies this`buffer, this`filePos, this`eof, this`reports
      ensures Valid() && Awaited(goal, crc, file, At(), g) && (g.More? ==> At().at > old(At().at))
    {
      ghost var s := At();
      var r := ReadPhysicalRecord();
      ReadStep(goal, crc, file, s, inRecord, scratch, r, At());
      var step := Assemble(r, inRecord, scratch);
      AddReport(step.1);
      g := step.0;
    }

    method AddReport(reported: seq<nat>)
      requires Valid()
      modifies this`reports
      ensures Valid() && At() == Report(old(At()), reported)
    {
      ReportKeeps(file, At(), reported);
      assert reports + [] == reports;
      reports := reports + reported;
    }
  }

  /** Read a log file from its beginning to its end, as recovery does. */
  method ReadLogFile(crc: Checksum, file: seq<Byte>) returns (records: seq<seq<Byte>>, reports: seq<nat>)
    ensures PlaceOk(file, BEGINNING)
      && var (rs, end) := ReadAll(crc, file, BEGINNING); records == rs && reports == end.reports
  {
    var reader := new Reader(crc, file);
    records := [];
    ghost var goal := ReadAll(crc, file, BEGINNING);
    assert [] + goal.0 == goal.0;
    while true
      invariant fresh(reader) && reader.Valid() && reader.crc == crc && reader.file == file
      invariant Remains(goal, crc, file, reader.At(), records)
      decreases |file| - reader.At().at
    {
      ghost var s := reader.At();
      var record := reader.ReadRecord();
      RemainsStep(goal, crc, file, s, records, (record, reader.At()));
      if record.None? {
        reports := reader.reports;
        return;
      }
      records := records + [record.value];
    }
  }

  /** The records that were read and those to come are the goal. */
  ghost predicate Remains(goal: (seq<seq<Byte>>, Place), crc: Checksum, file: seq<Byte>, s: Place, records: seq<seq<Byte>>) {
    forall u {:trigger UnfoldAt(goal, u)} :: UnfoldAt(goal, u) ==>
      PlaceOk(file, s) && goal == (records + ReadAll(crc, file, s).0, ReadAll(crc, file, s).1)
  }

  lemma RemainsStep(goal: (seq<seq<Byte>>, Place), crc: Checksum, file: seq<Byte>, s: Place, records: seq<seq<Byte>>,
                    r: (Option<seq<Byte>>, Place))
    requires PlaceOk(file, s) && Remains(goal, crc, file, s, records) && r == ReadFrom(crc, file, s, false, [])
    ensures r.0.None? ==> goal == (records, r.1)
    ensures r.0.Some? ==> r.1.at > s.at && Remains(goal, crc, file, r.1, records + [r.0.value])
  {
    assert UnfoldAt(goal, 0);
    if r.0.Some? {
      var rs := ReadAll(crc, file, r.1).0;
      assert records + ([r.0.value] + rs) == records + [r.0.value] + rs;
    } else {
      assert records + [] == records;
    }
  }
}
