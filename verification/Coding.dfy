/** Variable-length integers: seven bits a byte, least significant first, the top bit set
    on every byte but the last. */
module Coding {
  import opened Wrappers
  import opened Bits
  import opened Bytes

  function Varint(v: nat): (r: seq<Byte>)
    ensures |r| > 0
  {
    if v < 128 then [v] else [v % 128 + 128] + Varint(v / 128)
  }

  /** The five cases of the 32-bit encoder. */
  function EncodeVarint32(v: nat): (r: seq<Byte>)
    requires v < WORD
  {
    if v < 0x80 then [v]
    else if v < 0x4000 then [Tag(v), v / 0x80]
    else if v < 0x200000 then [Tag(v), Tag(v / 0x80), v / 0x4000]
    else if v < 0x10000000 then [Tag(v), Tag(v / 0x80), Tag(v / 0x4000), v / 0x200000]
    else [Tag(v), Tag(v / 0x80), Tag(v / 0x4000), Tag(v / 0x200000), v / 0x10000000]
  }

  /** The low byte with the top bit set. */
  function Tag(v: nat): Byte {
    v % 128 + 128
  }

  lemma EncodeStep(v: nat)
    requires 128 <= v < WORD
    ensures EncodeVarint32(v) == [Tag(v)] + EncodeVarint32(v / 128)
  {
    var a := v / 128;
    assert v / 0x4000 == a / 0x80 && v / 0x200000 == a / 0x4000 && v / 0x10000000 == a / 0x200000;
  }

  lemma {:induction false} EncodeVarint32Is(v: nat)
    requires v < WORD
    ensures EncodeVarint32(v) == Varint(v)
  {
    if v >= 128 {
      EncodeStep(v);
      EncodeVarint32Is(v / 128);
    }
  }

  method EncodeVarint64(v0: nat) returns (r: seq<Byte>)
    ensures r == Varint(v0)
  {
    var v := v0;
    r := [];
    while v >= 128
      invariant r + Varint(v) == Varint(v0)
    {
      assert Varint(v) == [Tag(v)] + Varint(v / 128);
      r, v := r + [Tag(v)], v / 128;
    }
    r := r + [v];
  }

  /** Decode at most `groups` bytes from p on; gives the value and the position after it. */
  function Decode(bytes: seq<Byte>, p: nat, limit: nat, groups: nat): (r: Option<(nat, nat)>)
    requires limit <= |bytes|
    ensures r.Some? ==> p < r.value.1 <= limit
    decreases limit - p
  {
    if groups == 0 || p >= limit then None
    else if bytes[p] < 128 then Some((bytes[p] as int, p + 1))
    else
      match Decode(bytes, p + 1, limit, groups - 1)
      case None => None
      case Some((v, q)) => Some(((bytes[p] as int) - 128 + 128 * v, q))
  }

  /** The bytes at p are b, as far as b goes. */
  ghost predicate At(bytes: seq<Byte>, p: nat, b: seq<Byte>) {
    p + |b| <= |bytes| && bytes[p..p + |b|] == b
  }

  lemma AtParts(bytes: seq<Byte>, p: nat, a: seq<Byte>, b: seq<Byte>)
    requires At(bytes, p, a + b)
    ensures At(bytes, p, a) && At(bytes, p + |a|, b)
  {
    assert bytes[p..p + |a|] == bytes[p..p + |a + b|][..|a|];
    assert bytes[p + |a|..p + |a| + |b|] == bytes[p..p + |a + b|][|a|..];
  }

  function Pow128(k: nat): nat {
    if k == 0 then 1 else 128 * Pow128(k - 1)
  }

  /** Every number that fits in the groups allowed decodes to itself, whatever follows. */
  lemma {:induction false} VarintRoundTrip(bytes: seq<Byte>, p: nat, limit: nat, v: nat, groups: nat)
    requires limit <= |bytes| && At(bytes, p, Varint(v)) && p + |Varint(v)| <= limit && 0 < groups && v < Pow128(groups)
    ensures Decode(bytes, p, limit, groups) == Some((v, p + |Varint(v)|))
    decreases groups
  {
    assert bytes[p] == bytes[p..p + |Varint(v)|][0];
    if v >= 128 {
      AtParts(bytes, p, [v % 128 + 128], Varint(v / 128));
      assert groups > 1;
      VarintRoundTrip(bytes, p + 1, limit, v / 128, groups - 1);
    }
  }

  /** What decoding means for bytes of any value: n bytes in all, of which only the last is
      below 128, and the value they have with seven bits each. */
  ghost predicate IsNumber(bytes: seq<Byte>, p: nat, n: nat, v: nat)
    decreases n
  {
    && n > 0 && p + n <= |bytes|
    && if n == 1 then bytes[p] as int == v < 128
       else bytes[p] >= 128 && v % 128 == bytes[p] as int - 128 && IsNumber(bytes, p + 1, n - 1, v / 128)
  }

  lemma {:induction false} DecodeIs(bytes: seq<Byte>, p: nat, limit: nat, groups: nat, n: nat, v: nat)
    requires limit <= |bytes| && n > 0
    ensures Decode(bytes, p, limit, groups) == Some((v, p + n)) <==> n <= groups && p + n <= limit && IsNumber(bytes, p, n, v)
    decreases n
  {
    if groups > 0 && p < limit && bytes[p] >= 128 && n > 1 {
      DecodeIs(bytes, p + 1, limit, groups - 1, n - 1, v / 128);
    }
  }

  /** A number cut off before its end does not decode. */
  lemma {:induction false} VarintCut(bytes: seq<Byte>, p: nat, v: nat, groups: nat)
    requires p <= |bytes| && |bytes| - p < |Varint(v)| && bytes[p..] == Varint(v)[..|bytes| - p]
    ensures Decode(bytes, p, |bytes|, groups) == None
    decreases v
  {
    if p < |bytes| && groups > 0 {
      assert bytes[p] == bytes[p..][0] == Varint(v)[0];
      assert v >= 128;
      assert bytes[p + 1..] == bytes[p..][1..] && Varint(v)[1..] == Varint(v / 128);
      VarintCut(bytes, p + 1, v / 128, groups - 1);
    }
  }

  /** The value of a 32-bit decoder, which keeps the low 32 bits. */
  function Decode32(bytes: seq<Byte>, p: nat, limit: nat): Option<(nat, nat)>
    requires limit <= |bytes|
  {
    Low32(Decode(bytes, p, limit, 5))
  }

  function Low32(r: Option<(nat, nat)>): Option<(nat, nat)> {
    match r
    case None => None
    case Some((v, q)) => Some((v % WORD, q))
  }

  /** The low groups already read, put in front of the rest. */
  ghost function Joined(low: nat, weight: nat, rest: Option<(nat, nat)>): Option<(nat, nat)> {
    match rest
    case None => None
    case Some((v, q)) => Some((low + weight * v, q))
  }

  lemma JoinedStep(low: nat, weight: nat, digit: nat, rest: Option<(nat, nat)>)
    ensures Joined(low, weight, Joined(digit, 128, rest)) == Joined(low + weight * digit, 128 * weight, rest)
  {
    if rest.Some? {
      var v := rest.value.0;
      assert weight * (digit + 128 * v) == weight * digit + 128 * weight * v;
    }
  }

  /** The weight of the lowest bit of a group. */
  function Weight(i: nat): nat
    requires i <= 5
  {
    if i == 0 then 0x1 else if i == 1 then 0x80 else if i == 2 then 0x4000
    else if i == 3 then 0x20_0000 else if i == 4 then 0x1000_0000 else 0x8_0000_0000
  }

  /** With the groups below the weight read into result, the rest of the decoding, which
      starts at p, gives the whole. */
  ghost predicate Reading(whole: Option<(nat, nat)>, bytes: seq<Byte>, limit: nat, p: nat, groups: nat, result: nat,
                          weight: nat)
    requires limit <= |bytes|
  {
    whole == Joined(result, weight, Decode(bytes, p, limit, groups))
  }

  lemma ReadMore(whole: Option<(nat, nat)>, bytes: seq<Byte>, limit: nat, p: nat, groups: nat, result: nat, weight: nat,
                 digit: nat)
    requires limit <= |bytes| && p < limit && 0 < groups && bytes[p] as int == 128 + digit
    requires Reading(whole, bytes, limit, p, groups, result, weight)
    ensures Reading(whole, bytes, limit, p + 1, groups - 1, result + weight * digit, 128 * weight)
    ensures groups == 1 ==> whole == None
  {
    var rest := Decode(bytes, p + 1, limit, groups - 1);
    JoinedStep(result, weight, digit, rest);
    assert Decode(bytes, p, limit, groups) == Joined(digit, 128, rest);
  }

  lemma ReadLast(whole: Option<(nat, nat)>, bytes: seq<Byte>, limit: nat, p: nat, groups: nat, result: nat, weight: nat,
                 digit: nat)
    requires limit <= |bytes| && p < limit && 0 < groups && bytes[p] as int == digit < 128
    requires Reading(whole, bytes, limit, p, groups, result, weight)
    ensures whole == Some((result + weight * digit, p + 1))
  {
  }

  /** A digit shifted to the place of group i. */
  function Shifted(i: nat, digit: nat): nat
    requires i < 5
  {
    if i == 0 then digit else if i == 1 then 0x80 * digit else if i == 2 then 0x4000 * digit
    else if i == 3 then 0x20_0000 * digit else 0x1000_0000 * digit
  }

  lemma ShiftedIs(i: nat, digit: nat)
    requires i < 5
    ensures Shifted(i, digit) == Weight(i) * digit
  {
  }

  /** The result with the next group, whose bits are above those already there, set. */
  function WithGroup(i: nat, result: nat, digit: nat): nat
    requires i < 5
  {
    (result + Shifted(i, digit)) % WORD
  }

  lemma GroupFits(i: nat, result: nat, digit: nat)
    requires i < 4 && result < Weight(i) && digit < 128
    ensures WithGroup(i, result, digit) == result + Shifted(i, digit) < Weight(i + 1) == 128 * Weight(i)
  {
  }

  /** Where the decoder stands after i groups. */
  ghost predicate Progress(whole: Option<(nat, nat)>, bytes: seq<Byte>, limit: nat, p: nat, i: nat, result: nat)
    requires limit <= |bytes| && i <= 5
  {
    if i == 5 then whole == None
    else result < Weight(i) && Reading(whole, bytes, limit, p, 5 - i, result, Weight(i))
  }

  lemma NextGroup(whole: Option<(nat, nat)>, bytes: seq<Byte>, limit: nat, p: nat, i: nat, result: nat, digit: nat)
    requires limit <= |bytes| && p < limit && i < 5 && Progress(whole, bytes, limit, p, i, result)
    requires bytes[p] as int == 128 + digit
    ensures Progress(whole, bytes, limit, p + 1, i + 1, WithGroup(i, result, digit))
  {
    ShiftedIs(i, digit);
    ReadMore(whole, bytes, limit, p, 5 - i, result, Weight(i), digit);
    if i < 4 { GroupFits(i, result, digit); }
  }

  lemma LastGroup(whole: Option<(nat, nat)>, bytes: seq<Byte>, limit: nat, p: nat, i: nat, result: nat, digit: nat)
    requires limit <= |bytes| && p < limit && i < 5 && Progress(whole, bytes, limit, p, i, result)
    requires bytes[p] as int == digit < 128
    ensures Low32(whole) == Some((WithGroup(i, result, digit), p + 1))
  {
    ShiftedIs(i, digit);
    ReadLast(whole, bytes, limit, p, 5 - i, result, Weight(i), digit);
  }

  /** The decoder loop, for bytes of any value. */
  method GetVarint32Fallback(bytes: seq<Byte>, p0: nat, limit: nat) returns (r: Option<(nat, nat)>)
    requires limit <= |bytes|
    ensures r == Decode32(bytes, p0, limit)
  {
    ghost var whole := Decode(bytes, p0, limit, 5);
    r := ReadGroups(bytes, p0, limit, whole);
  }

  method ReadGroups(bytes: seq<Byte>, p0: nat, limit: nat, ghost whole: Option<(nat, nat)>) returns (r: Option<(nat, nat)>)
    requires limit <= |bytes| && Progress(whole, bytes, limit, p0, 0, 0)
    ensures r == Low32(whole)
  {
    var result: nat, i: nat, p: nat := 0, 0, p0;
    while i < 5 && p < limit
      invariant i <= 5 && Progress(whole, bytes, limit, p, i, result)
    {
      var byte := bytes[p] as int;
      var digit := byte % 128;
      if byte < 128 {
        LastGroup(whole, bytes, limit, p, i, result, digit);
        return Some((WithGroup(i, result, digit), p + 1));
      }
      NextGroup(whole, bytes, limit, p, i, result, digit);
      result, p, i := WithGroup(i, result, digit), p + 1, i + 1;
    }
    return None;
  }

  /** The one-byte fast path changes nothing. */
  method GetVarint32(bytes: seq<Byte>, p: nat, limit: nat) returns (r: Option<(nat, nat)>)
    requires limit <= |bytes|
    ensures r == Decode32(bytes, p, limit)
  {
    if p < limit && bytes[p] < 128 {
      return Some((bytes[p] as int, p + 1));
    }
    r := GetVarint32Fallback(bytes, p, limit);
  }

  /** Every 32-bit number decodes to itself. */
  lemma Decode32Is(bytes: seq<Byte>, p: nat, limit: nat, v: nat)
    requires v < WORD && limit <= |bytes| && At(bytes, p, Varint(v)) && p + |Varint(v)| <= limit
    ensures Decode32(bytes, p, limit) == Some((v, p + |Varint(v)|))
  {
    var groups := FiveGroups();
    VarintRoundTrip(bytes, p, limit, v, groups);
  }

  lemma FiveGroups() returns (groups: nat)
    ensures groups == 5 && Pow128(groups) > WORD
  {
    groups := 5;
    assert Pow128(2) == 0x4000;
    assert Pow128(4) == 0x1000_0000;
  }

  /** An inclusive or is at least as large as both its arguments. */
  lemma {:induction false} OrAtLeast(a: nat, b: nat)
    ensures a <= Or(a, b) && b <= Or(a, b)
    decreases a + b
  {
    OrStep(a, b);
    if a + b > 0 { OrAtLeast(a / 2, b / 2); }
  }

  /** These bytes encode v. */
  ghost predicate IsVarint(b: seq<Byte>, v: nat) {
    forall u {:trigger UnfoldAt(b, u)} :: UnfoldAt(b, u) ==> v < WORD && b == Varint(v)
  }

  lemma VarintDecodes(bytes: seq<Byte>, p: nat, limit: nat, b: seq<Byte>, v: nat)
    requires IsVarint(b, v) && limit <= |bytes| && At(bytes, p, b) && p + |b| <= limit
    ensures |b| > 0 && Decode32(bytes, p, limit) == Some((v, p + |b|))
  {
    assert UnfoldAt(b, 0);
    Decode32Is(bytes, p, limit, v);
  }
}
