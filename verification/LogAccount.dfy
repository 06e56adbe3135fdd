/** The log reader accounts for what it reads: every payload byte of an intact fragment and
    every byte of a rejected buffer is in a record or in a report, but for an unfinished
    record at the end. */
module LogAccount {
  import opened Wrappers
  import opened Bits
  import opened Bytes
  import opened LogWriter
  import opened LogReader
  import opened LogDamage

  ghost function Total(ns: seq<nat>): nat {
    if ns == [] then 0 else Total(ns[..|ns| - 1]) + ns[|ns| - 1]
  }

  lemma {:induction false} TotalAdds(a: seq<nat>, b: seq<nat>)
    ensures Total(a + b) == Total(a) + Total(b)
    decreases |b|
  {
    if b == [] {
      assert a + b == a;
    } else {
      var n := |b| - 1;
      assert (a + b)[..|a + b| - 1] == a + b[..n];
      TotalAdds(a, b[..n]);
    }
  }

  ghost function Lengths(rs: seq<seq<Byte>>): nat {
    if rs == [] then 0 else |rs[0]| + Lengths(rs[1..])
  }

  // ----- one fragment

  /** The reader stops here. */
  ghost predicate Ends(p: Outcome) {
    p.Eof? || (p.Fragment? && p.t == EOF_TYPE)
  }

  /** The payload of a fragment; one of the other reserved type counts as a bad record. */
  ghost function Payload(p: Outcome): nat {
    if p.Fragment? && p.t != EOF_TYPE && p.t != BAD_TYPE then |p.data| else 0
  }

  ghost function Underway(inRecord: bool, scratch: seq<Byte>): nat {
    if inRecord then |scratch| else 0
  }

  ghost function Held(g: Progress): nat {
    match g
    case Done(record) => if record.Some? then |record.value| else 0
    case More(inRecord, scratch) => Underway(inRecord, scratch)
  }

  /** What was under way and what is new is in the record or in a report, unless this is the
      end. */
  lemma AssembleAccounts(p: Outcome, inRecord: bool, scratch: seq<Byte>)
    ensures var (g, reported) := Assemble(p, inRecord, scratch);
      if Ends(p) then g == Done(None) && reported == []
      else (g.Done? ==> g.record.Some?) && Held(g) + Total(reported) == Underway(inRecord, scratch) + Payload(p)
  {
    var (g, reported) := Assemble(p, inRecord, scratch);
    assert reported == [] || reported[..0] == [];
  }

  /** The header at which the next physical read looks. */
  ghost function HeaderOf(file: seq<Byte>, s: Place): nat
    requires PlaceOk(file, s)
  {
    Refill(file, s).at
  }

  /** A header of zeros, which preallocated space has. */
  ghost predicate ZeroHeader(file: seq<Byte>, h: nat) {
    h + HEADER <= |file| && file[h + 6] == ZERO && LengthAt(file, h) == 0
  }

  /** A rejected buffer is dropped from the header on, and all of it is reported, unless the
      header is one of zeros; other reads report nothing. */
  lemma RejectedReported(crc: Checksum, file: seq<Byte>, s: Place, p: Outcome, s': Place)
    requires Steps(crc, file, s, p, s')
    ensures PlaceOk(file, s) && s.at <= HeaderOf(file, s) <= s'.at
    ensures s'.reports == s.reports +
      if p.BadRecord? && !ZeroHeader(file, HeaderOf(file, s)) then [s'.at - HeaderOf(file, s)] else []
  {
    assert UnfoldAt(s', 0);
    ReadPhysicalIs(crc, file, s);
    assert s.reports + [] == s.reports;
  }

  // ----- all of a file

  ghost function RejectedBytes(file: seq<Byte>, s: Place, p: Outcome, s': Place): nat
    requires PlaceOk(file, s)
  {
    if p.BadRecord? && !ZeroHeader(file, HeaderOf(file, s)) && HeaderOf(file, s) <= s'.at then s'.at - HeaderOf(file, s) else 0
  }

  /** All the payload and the rejected bytes of the physical reads from s on. */
  ghost function Volume(crc: Checksum, file: seq<Byte>, s: Place): nat
    requires PlaceOk(file, s)
    decreases |file| - s.at
  {
    var (p, s') := ReadPhysical(crc, file, s);
    Payload(p) + RejectedBytes(file, s, p, s') + if Ends(p) then 0 else Volume(crc, file, s')
  }

  /** Earlier reports do not matter. */
  lemma PhysicalSilent(crc: Checksum, file: seq<Byte>, s: Place, t: Place)
    requires PlaceOk(file, s) && PlaceOk(file, t) && t == s.(reports := t.reports)
    ensures var (p, s') := ReadPhysical(crc, file, s);
      ReadPhysical(crc, file, t) == (p, s'.(reports := ReadPhysical(crc, file, t).1.reports))
    ensures HeaderOf(file, t) == HeaderOf(file, s)
  {
    ReadPhysicalIs(crc, file, s);
    ReadPhysicalIs(crc, file, t);
    RefillSilent(file, s, t);
    var s', t' := Refill(file, s), Refill(file, t);
    if s'.end - s'.at >= HEADER { ParseSilent(crc, file, s', t'); }
  }

  lemma RefillSilent(file: seq<Byte>, s: Place, t: Place)
    requires PlaceOk(file, s) && PlaceOk(file, t) && t == s.(reports := t.reports)
    ensures Refill(file, t) == Refill(file, s).(reports := Refill(file, t).reports)
  {
  }

  lemma ParseSilent(crc: Checksum, file: seq<Byte>, s: Place, t: Place)
    requires s.at + HEADER <= s.end <= |file| && t == s.(reports := t.reports)
    ensures var (p, s') := Parse(crc, file, s); Parse(crc, file, t) == (p, s'.(reports := Parse(crc, file, t).1.reports))
  {
  }

  lemma {:induction false} VolumeSilent(crc: Checksum, file: seq<Byte>, s: Place, t: Place)
    requires PlaceOk(file, s) && PlaceOk(file, t) && t == s.(reports := t.reports)
    ensures Volume(crc, file, t) == Volume(crc, file, s)
    decreases |file| - s.at
  {
    PhysicalSilent(crc, file, s, t);
    var (p, s') := ReadPhysical(crc, file, s);
    var (p', t') := ReadPhysical(crc, file, t);
    if !Ends(p) { VolumeSilent(crc, file, s', t'); }
  }

  /** What is left over at the end is nothing, or an unfinished record of intact fragments. */
  ghost predicate Unfinished(crc: Checksum, file: seq<Byte>, lo: nat, lost: nat) {
    lost > 0 ==> exists pieces, hi: nat :: InRow(crc, file, pieces, lo, hi) && Opens(pieces) && lost == |Join(pieces)|
  }

  /** The account of reading from s on. */
  ghost predicate Balanced(crc: Checksum, file: seq<Byte>, s: Place, underway: nat, rs: seq<seq<Byte>>, end: Place, lost: nat)
    requires PlaceOk(file, s)
  {
    Lengths(rs) + Total(end.reports) + lost == Total(s.reports) + underway + Volume(crc, file, s)
  }

  lemma BalanceStep(crc: Checksum, file: seq<Byte>, s: Place, p: Outcome, s': Place, inRecord: bool, scratch: seq<Byte>)
    requires Steps(crc, file, s, p, s')
    ensures var (g, reported) := Assemble(p, inRecord, scratch);
      var t := Report(s', reported);
      && PlaceOk(file, s) && PlaceOk(file, t)
      && (!Ends(p) ==>
            Total(t.reports) + Held(g) + Volume(crc, file, t) == Total(s.reports) + Underway(inRecord, scratch) + Volume(crc, file, s))
      && (Ends(p) ==> t.reports == s.reports && Volume(crc, file, s) == 0)
  {
    var (g, reported) := Assemble(p, inRecord, scratch);
    var t := Report(s', reported);
    Unrolled(crc, file, s, p, s', inRecord, scratch);
    StepsOn(crc, file, s, p, s');
    AssembleAccounts(p, inRecord, scratch);
    RejectedReported(crc, file, s, p, s');
    ReportIs(s', reported);
    TotalAdds(s'.reports, reported);
    RejectedTotal(s.reports, RejectedBytes(file, s, p, s'), s'.reports);
    VolumeSilent(crc, file, s', t);
    VolumeStep(crc, file, s, p, s');
  }

  lemma RejectedTotal(before: seq<nat>, bytes: nat, after: seq<nat>)
    requires after == before + [bytes] || (after == before && bytes == 0)
    ensures Total(after) == Total(before) + bytes
  {
    assert (before + [bytes])[..|before|] == before;
  }

  lemma VolumeStep(crc: Checksum, file: seq<Byte>, s: Place, p: Outcome, s': Place)
    requires Steps(crc, file, s, p, s')
    ensures PlaceOk(file, s) && PlaceOk(file, s')
    ensures Volume(crc, file, s) == Payload(p) + RejectedBytes(file, s, p, s') + if Ends(p) then 0 else Volume(crc, file, s')
  {
    assert UnfoldAt(s', 0);
  }

  /** Reading on from any state accounts for everything. */
  lemma {:induction false} RestAccounts(crc: Checksum, file: seq<Byte>, s: Place, inRecord: bool, scratch: seq<Byte>,
                                        lo: nat, before: seq<Piece>)
    returns (rs: seq<seq<Byte>>, end: Place, lost: nat)
    requires PlaceOk(file, s) && SoFar(crc, file, lo, s, inRecord, scratch, before)
    ensures Rest(rs, end, crc, file, s, inRecord, scratch)
    ensures Balanced(crc, file, s, Underway(inRecord, scratch), rs, end, lost) && Unfinished(crc, file, lo, lost)
    decreases |file| - s.at
  {
    var (p, s') := ReadPhysical(crc, file, s);
    assert Steps(crc, file, s, p, s');
    BalanceStep(crc, file, s, p, s', inRecord, scratch);
    StepsOn(crc, file, s, p, s');
    var (g, reported) := Assemble(p, inRecord, scratch);
    var t := Report(s', reported);
    AssembleAccounts(p, inRecord, scratch);
    if Ends(p) {
      rs, end, lost := [], t, Underway(inRecord, scratch);
      Unrolled(crc, file, s, p, s', inRecord, scratch);
      RestStops(crc, file, s, inRecord, scratch, (None, t));
    } else if g.More? {
      var pieces := PieceAdded(crc, file, s, inRecord, scratch, lo, before, p, s');
      rs, end, lost := RestAccounts(crc, file, t, g.inRecord, g.scratch, lo, pieces);
      RestMore(crc, file, s, p, s', inRecord, scratch, rs, end);
    } else {
      rs, end, lost := RestAccounts(crc, file, t, false, [], lo, []);
      RestDone(crc, file, s, p, s', inRecord, scratch, rs, end);
      LengthsAdds(g.record.value, rs);
      rs := [g.record.value] + rs;
    }
  }

  lemma LengthsAdds(x: seq<Byte>, rs: seq<seq<Byte>>)
    ensures Lengths([x] + rs) == |x| + Lengths(rs)
  {
    assert ([x] + rs)[1..] == rs;
  }

  /** For any file: the records and the reports add up to the payload of the intact fragments
      and the rejected bytes, but for an unfinished record at the end, which is given up
      silently. */
  lemma FileAccounts(crc: Checksum, file: seq<Byte>) returns (lost: nat)
    ensures PlaceOk(file, BEGINNING)
    ensures var (rs, end) := ReadAll(crc, file, BEGINNING);
      Lengths(rs) + Total(end.reports) + lost == Volume(crc, file, BEGINNING)
    ensures Unfinished(crc, file, 0, lost)
  {
    var rs, end;
    rs, end, lost := RestAccounts(crc, file, BEGINNING, false, [], 0, []);
    RestIsAll(rs, end, crc, file, BEGINNING);
    assert UnfoldAt(end, 0);
  }
}
