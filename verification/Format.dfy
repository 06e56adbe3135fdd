/** The parts of a table file: block handles, blocks with their trailer, and the footer. */
module Format {
  import opened Wrappers
  import opened Bits
  import opened Bytes
  import opened Coding

  const TRAILER: nat := 5
  const HANDLE_MAX: nat := 20
  const FOOTER: nat := 48
  const MAGIC_LOW: nat := 0x8b80fb57
  const MAGIC_HIGH: nat := 0xdb477524
  const RAW: Byte := 0
  const LONG: nat := WORD * WORD

  // ----- handles

  datatype Handle = Handle(offset: nat, size: nat)

  function EncodeHandle(h: Handle): seq<Byte> {
    Varint(h.offset) + Varint(h.size)
  }

  /** The 64-bit decoder keeps the low 64 bits of at most ten groups. */
  function Decode64(bytes: seq<Byte>, p: nat, limit: nat): (r: Option<(nat, nat)>)
    requires limit <= |bytes|
    ensures r.Some? ==> p < r.value.1 <= limit
  {
    match Decode(bytes, p, limit, 10)
    case None => None
    case Some((v, q)) => Some((v % LONG, q))
  }

  function DecodeHandle(bytes: seq<Byte>, p: nat, limit: nat): (r: Option<(Handle, nat)>)
    requires limit <= |bytes|
    ensures r.Some? ==> p < r.value.1 <= limit
  {
    match Decode64(bytes, p, limit)
    case None => None
    case Some((offset, q)) =>
      match Decode64(bytes, q, limit)
      case None => None
      case Some((size, end)) => Some((Handle(offset, size), end))
  }

  lemma TenGroups() returns (groups: nat)
    ensures groups == 10 && Pow128(groups) >= LONG
  {
    groups := 10;
    assert Pow128(2) == 0x4000;
    assert Pow128(4) == 0x1000_0000;
    assert Pow128(6) == 0x400_0000_0000;
    assert Pow128(8) == 0x100_0000_0000_0000;
  }

  lemma Decode64Is(bytes: seq<Byte>, p: nat, limit: nat, v: nat)
    requires v < LONG && limit <= |bytes| && At(bytes, p, Varint(v)) && p + |Varint(v)| <= limit
    ensures Decode64(bytes, p, limit) == Some((v, p + |Varint(v)|))
  {
    var groups := TenGroups();
    VarintRoundTrip(bytes, p, limit, v, groups);
  }

  ghost predicate Addresses(h: Handle) {
    h.offset < LONG && h.size < LONG
  }

  /** A handle decodes to itself, whatever follows. */
  lemma HandleDecodes(bytes: seq<Byte>, p: nat, limit: nat, h: Handle)
    requires Addresses(h) && limit <= |bytes| && At(bytes, p, EncodeHandle(h)) && p + |EncodeHandle(h)| <= limit
    ensures DecodeHandle(bytes, p, limit) == Some((h, p + |EncodeHandle(h)|))
  {
    AtParts(bytes, p, Varint(h.offset), Varint(h.size));
    Decode64Is(bytes, p, limit, h.offset);
    Decode64Is(bytes, p + |Varint(h.offset)|, limit, h.size);
  }

  lemma WholeHandleDecodes(h: Handle)
    requires Addresses(h)
    ensures DecodeHandle(EncodeHandle(h), 0, |EncodeHandle(h)|) == Some((h, |EncodeHandle(h)|))
  {
    var b := EncodeHandle(h);
    assert b[0..0 + |b|] == b;
    HandleDecodes(b, 0, |b|, h);
  }

  lemma {:induction false} VarintLength(v: nat, groups: nat)
    requires 0 < groups && v < Pow128(groups)
    ensures |Varint(v)| <= groups
  {
    if v >= 128 { VarintLength(v / 128, groups - 1); }
  }

  lemma HandleLength(h: Handle)
    requires Addresses(h)
    ensures |EncodeHandle(h)| <= HANDLE_MAX
  {
    var groups := TenGroups();
    VarintLength(h.offset, groups);
    VarintLength(h.size, groups);
  }

  // ----- blocks

  /** What is written for a block: its contents, its type and a checksum of both. */
  function Sealed(crc: Checksum, contents: seq<Byte>): (r: seq<Byte>)
    ensures |r| == |contents| + TRAILER
  {
    contents + [RAW] + Fixed32(Mask(crc.Value(contents + [RAW])))
  }

  /** The file has the block at a handle. */
  ghost predicate StoredAt(crc: Checksum, file: seq<Byte>, h: Handle, contents: seq<Byte>) {
    forall u {:trigger UnfoldAt(h, u)} :: UnfoldAt(h, u) ==>
      h.size == |contents| && At(file, h.offset, Sealed(crc, contents))
  }

  lemma StoredExtends(crc: Checksum, file: seq<Byte>, file': seq<Byte>, h: Handle, contents: seq<Byte>)
    requires StoredAt(crc, file, h, contents) && file <= file'
    ensures StoredAt(crc, file', h, contents)
  {
    assert UnfoldAt(h, 0);
    var b := Sealed(crc, contents);
    assert file'[h.offset..h.offset + |b|] == file[h.offset..h.offset + |b|];
  }

  lemma StoredEnds(crc: Checksum, file: seq<Byte>, h: Handle, contents: seq<Byte>)
    requires StoredAt(crc, file, h, contents)
    ensures h.size == |contents| && h.offset + h.size + TRAILER <= |file|
  {
    assert UnfoldAt(h, 0);
  }

  /** The block and its trailer go to the end of the file. */
  method WriteRawBlock(crc: Checksum, file: seq<Byte>, contents: seq<Byte>)
    returns (file': seq<Byte>, h: Handle)
    ensures h == Handle(|file|, |contents|) && |file'| == |file| + |contents| + TRAILER && file <= file'
    ensures StoredAt(crc, file', h, contents)
  {
    h := Handle(|file|, |contents|);
    file' := file + contents;
    var sum := crc.Value(contents);
    sum := crc.Extend(sum, [RAW]);
    crc.ExtendValue(contents, [RAW]);
    file' := file' + ([RAW] + Fixed32(Mask(sum)));
    assert file' == file + Sealed(crc, contents);
  }

  /** What the trailer of a block must be when checksums are verified. */
  lemma TrailerIs(crc: Checksum, contents: seq<Byte>, trailer: seq<Byte>)
    requires |trailer| == TRAILER && trailer[0] == RAW
    ensures contents + trailer == Sealed(crc, contents)
      <==> Unmask(DecodeFixed32(trailer[1..])) == crc.Value(contents + [RAW])
  {
    var sum := crc.Value(contents + [RAW]);
    var w := DecodeFixed32(trailer[1..]);
    MaskInverse(w);
    MaskInverse(sum);
    FixedInverse(trailer[1..]);
    Fixed32RoundTrip(Mask(sum), []);
    assert Fixed32(Mask(sum)) + [] == Fixed32(Mask(sum));
    if contents + trailer == Sealed(crc, contents) {
      assert trailer[1..] == (contents + trailer)[|contents| + 1..] == Fixed32(Mask(sum));
    }
  }

  lemma FixedInverse(s: seq<Byte>)
    requires |s| == 4
    ensures Fixed32(DecodeFixed32(s)) == s
  {
    var w := DecodeFixed32(s);
    assert w / 256 == (s[1] as int) + 256 * (s[2] as int) + 65536 * (s[3] as int);
    assert w / 65536 == (s[2] as int) + 256 * (s[3] as int);
    assert w / 16777216 == s[3] as int;
  }

  /** Check the trailer of a block that was read. */
  method Unseal(crc: Checksum, verify: bool, data: seq<Byte>, n: nat) returns (ok: bool)
    requires |data| == n + TRAILER
    ensures data == Sealed(crc, data[..n]) ==> ok
    ensures ok && verify ==> data == Sealed(crc, data[..n])
    ensures !verify ==> (ok <==> data[n] == RAW)
  {
    var contents, trailer := data[..n], data[n..];
    assert data == contents + trailer;
    if trailer[0] == RAW { TrailerIs(crc, contents, trailer); }
    if verify {
      assert trailer[1..] == data[n + 1..] && data[..n + 1] == contents + [trailer[0]];
      var sum := Unmask(DecodeFixed32(data[n + 1..]));
      if crc.Value(data[..n + 1]) != sum { return false; }
    }
    return data[n] == RAW;
  }

  /** What is at a handle is a block just when the bytes there are one. */
  lemma StoredIs(crc: Checksum, file: seq<Byte>, h: Handle, contents: seq<Byte>)
    ensures StoredAt(crc, file, h, contents) <==>
      && h.size == |contents| && h.offset + h.size + TRAILER <= |file|
      && file[h.offset..h.offset + h.size + TRAILER] == Sealed(crc, contents)
  {
    assert UnfoldAt(h, 0);
  }

  lemma SealedStarts(crc: Checksum, contents: seq<Byte>)
    ensures Sealed(crc, contents)[..|contents|] == contents
  {
  }

  /** Read a block. One that was written is read back; with verification on, nothing else
      is. */
  method ReadBlock(crc: Checksum, verify: bool, file: seq<Byte>, h: Handle) returns (r: Option<seq<Byte>>)
    ensures forall contents :: StoredAt(crc, file, h, contents) ==> r == Some(contents)
    ensures r.Some? ==> h.offset + h.size + TRAILER <= |file| && r.value == file[h.offset..h.offset + h.size]
    ensures r.Some? && verify ==> StoredAt(crc, file, h, r.value)
    ensures !verify ==> (r.Some? <==> h.offset + h.size + TRAILER <= |file| && file[h.offset + h.size] == RAW)
  {
    r := None;
    if h.offset + h.size + TRAILER <= |file| {
      var data := file[h.offset..h.offset + h.size + TRAILER];
      var ok := Unseal(crc, verify, data, h.size);
      StoredIs(crc, file, h, data[..h.size]);
      if ok { r := Some(data[..h.size]); }
    }
    forall contents | StoredAt(crc, file, h, contents) ensures r == Some(contents) {
      StoredIs(crc, file, h, contents);
      SealedStarts(crc, contents);
    }
  }

  // ----- the footer

  function Zeros(n: nat): (r: seq<Byte>)
    ensures |r| == n
  {
    seq(n, _ => 0)
  }

  function Resized(b: seq<Byte>, n: nat): (r: seq<Byte>)
    ensures |r| == n
  {
    if |b| >= n then b[..n] else b + Zeros(n - |b|)
  }

  /** Two handles, padding, and the magic number. */
  function EncodeFooter(meta: Handle, index: Handle): (r: seq<Byte>)
    ensures |r| == FOOTER
  {
    Resized(EncodeHandle(meta) + EncodeHandle(index), 2 * HANDLE_MAX) + (Fixed32(MAGIC_LOW) + Fixed32(MAGIC_HIGH))
  }

  function DecodeFooter(footer: seq<Byte>): Option<(Handle, Handle)>
    requires |footer| == FOOTER
  {
    if DecodeFixed32(footer[40..]) != MAGIC_LOW || DecodeFixed32(footer[44..]) != MAGIC_HIGH then None
    else
      match DecodeHandle(footer, 0, FOOTER)
      case None => None
      case Some((meta, p)) =>
        match DecodeHandle(footer, p, FOOTER)
        case None => None
        case Some((index, _)) => Some((meta, index))
  }

  lemma FooterParts(a: seq<Byte>, b: seq<Byte>, magic: seq<Byte>)
    requires |a| + |b| <= 2 * HANDLE_MAX
    ensures var footer := Resized(a + b, 2 * HANDLE_MAX) + magic;
      At(footer, 0, a) && At(footer, |a|, b) && footer[2 * HANDLE_MAX..] == magic
  {
    var footer := Resized(a + b, 2 * HANDLE_MAX) + magic;
    assert footer[0..0 + |a|] == a && footer[|a|..|a| + |b|] == b;
  }

  ghost predicate HasMagic(footer: seq<Byte>) {
    |footer| == FOOTER && DecodeFixed32(footer[40..]) == MAGIC_LOW && DecodeFixed32(footer[44..]) == MAGIC_HIGH
  }

  lemma MagicIs(footer: seq<Byte>)
    requires |footer| == FOOTER && footer[2 * HANDLE_MAX..] == Fixed32(MAGIC_LOW) + Fixed32(MAGIC_HIGH)
    ensures HasMagic(footer)
  {
    Fixed32RoundTrip(MAGIC_LOW, Fixed32(MAGIC_HIGH));
    Fixed32RoundTrip(MAGIC_HIGH, []);
    assert footer[44..] == footer[40..][4..] == Fixed32(MAGIC_HIGH) + [];
  }

  lemma HandlesDecode(footer: seq<Byte>, meta: Handle, index: Handle)
    requires HasMagic(footer) && Addresses(meta) && Addresses(index)
    requires At(footer, 0, EncodeHandle(meta)) && At(footer, |EncodeHandle(meta)|, EncodeHandle(index))
    ensures DecodeFooter(footer) == Some((meta, index))
  {
    HandleDecodes(footer, 0, FOOTER, meta);
    HandleDecodes(footer, |EncodeHandle(meta)|, FOOTER, index);
  }

  /** A footer decodes to the two handles in it. */
  lemma FooterRoundTrip(meta: Handle, index: Handle)
    requires Addresses(meta) && Addresses(index)
    ensures DecodeFooter(EncodeFooter(meta, index)) == Some((meta, index))
  {
    HandleLength(meta);
    HandleLength(index);
    FooterParts(EncodeHandle(meta), EncodeHandle(index), Fixed32(MAGIC_LOW) + Fixed32(MAGIC_HIGH));
    MagicIs(EncodeFooter(meta, index));
    HandlesDecode(EncodeFooter(meta, index), meta, index);
  }
}
