/** User keys in bytewise order, internal keys with a tag of sequence number and type, and
    the shortened separators that table indexes use. */
module Keys {
  import opened Bytes

  /** Bytewise order; a proper prefix comes first. */
  predicate Less(a: seq<Byte>, b: seq<Byte>)
    decreases |b|
  {
    if b == [] then false
    else if a == [] then true
    else a[0] < b[0] || (a[0] == b[0] && Less(a[1..], b[1..]))
  }

  lemma {:induction false} LessTransitive(a: seq<Byte>, b: seq<Byte>, c: seq<Byte>)
    requires Less(a, b) && Less(b, c)
    ensures Less(a, c)
    decreases |c|
  {
    if a != [] && a[0] == b[0] == c[0] {
      LessTransitive(a[1..], b[1..], c[1..]);
    }
  }

  lemma {:induction false} LessAsymmetric(a: seq<Byte>, b: seq<Byte>)
    requires Less(a, b)
    ensures !Less(b, a) && a != b
    decreases |b|
  {
    if a != [] && a[0] == b[0] {
      LessAsymmetric(a[1..], b[1..]);
    }
  }

  lemma {:induction false} LessTotal(a: seq<Byte>, b: seq<Byte>)
    ensures Less(a, b) || a == b || Less(b, a)
    decreases |b|
  {
    if a != [] && b != [] && a[0] == b[0] {
      LessTotal(a[1..], b[1..]);
      assert a == [a[0]] + a[1..] && b == [b[0]] + b[1..];
    }
  }

  /** A common prefix does not matter. */
  lemma {:induction false} LessAfter(a: seq<Byte>, b: seq<Byte>, n: nat)
    requires n <= |a| && n <= |b| && a[..n] == b[..n]
    ensures Less(a, b) <==> Less(a[n..], b[n..])
  {
    if n > 0 {
      assert a[0] == a[..n][0] && b[0] == b[..n][0];
      assert a[1..][..n - 1] == a[..n][1..] && b[1..][..n - 1] == b[..n][1..];
      LessAfter(a[1..], b[1..], n - 1);
      assert a[1..][n - 1..] == a[n..] && b[1..][n - 1..] == b[n..];
    }
  }

  /** The first byte in which two keys differ decides. */
  lemma LessAt(a: seq<Byte>, b: seq<Byte>, n: nat)
    requires n < |a| && n < |b| && a[..n] == b[..n] && a[n] < b[n]
    ensures Less(a, b)
  {
    LessAfter(a, b, n);
  }

  /** Byte n is the first in which the two differ, and there is room between them. */
  ghost predicate Shortens(start: seq<Byte>, limit: seq<Byte>, n: nat) {
    n < |start| && n < |limit| && start[..n] == limit[..n] && start[n] as int + 1 < limit[n] as int
  }

  /** A key that is at least start and less than limit, and no longer than start. It is
      start itself unless one that ends with the first differing byte is strictly between. */
  method FindShortestSeparator(start: seq<Byte>, limit: seq<Byte>) returns (r: seq<Byte>)
    ensures |r| <= |start|
    ensures r == start || (Less(start, r) && Less(r, limit))
    ensures r != start ==> exists n: nat :: Shortens(start, limit, n)
    ensures forall n: nat :: Shortens(start, limit, n) ==> r != start && |r| == n + 1
  {
    var least := if |start| < |limit| then |start| else |limit|;
    var n := 0;
    while n < least && start[n] == limit[n]
      invariant n <= least && start[..n] == limit[..n]
    {
      n := n + 1;
    }
    r := start;
    if n < least {
      var byte := start[n] as int;
      if byte < 0xff && byte + 1 < limit[n] as int {
        r := start[..n] + [byte + 1];
        assert r[..n] == start[..n] && r[..n] == limit[..n] && Shortens(start, limit, n);
        LessAt(start, r, n);
        LessAt(r, limit, n);
      }
    }
  }

  /** Byte n is the first that can be incremented. */
  ghost predicate FirstLow(key: seq<Byte>, n: nat) {
    n < |key| && key[n] != 0xff && forall m: nat :: m < n ==> key[m] == 0xff
  }

  /** A key that is at least the given one, cut after the first byte that can be
      incremented. */
  method FindShortSuccessor(key: seq<Byte>) returns (r: seq<Byte>)
    ensures |r| <= |key|
    ensures if forall i: nat :: i < |key| ==> key[i] == 0xff then r == key else Less(key, r)
    ensures forall n: nat :: FirstLow(key, n) ==> |r| == n + 1
  {
    for i := 0 to |key|
      invariant forall j: nat :: j < i ==> key[j] == 0xff
    {
      var byte := key[i] as int;
      if byte != 0xff {
        r := key[..i] + [byte + 1];
        assert r[..i] == key[..i];
        LessAt(key, r, i);
        return;
      }
    }
    return key;
  }

  // ----- internal keys

  const DELETION: nat := 0
  const VALUE: nat := 1
  const MAX_TAG: nat := 0xffff_ffff_ffff_ff01

  /** The tag packs a 56-bit sequence number with a type byte below it. */
  datatype IKey = IKey(user: seq<Byte>, tag: nat) {
    function Sequence(): nat {
      tag / 256
    }
  }

  function Pack(sequence: nat, t: nat): nat {
    sequence * 256 + t
  }

  const MAX_PACKED: nat := WORD * WORD

  /** The bytes of an internal key: the user key, then the tag. */
  function EncodeKey(k: IKey): seq<Byte>
    requires k.tag < MAX_PACKED
  {
    k.user + Fixed64(k.tag)
  }

  function KeyIn(b: seq<Byte>): IKey {
    if |b| < 8 then IKey([], 0) else IKey(b[..|b| - 8], DecodeFixed64(b[|b| - 8..]))
  }

  lemma KeyDecodes(k: IKey)
    requires k.tag < MAX_PACKED
    ensures |EncodeKey(k)| == |k.user| + 8 && KeyIn(EncodeKey(k)) == k
  {
    var b := EncodeKey(k);
    assert b[|k.user|..] == Fixed64(k.tag) + [];
    Fixed64RoundTrip(k.tag, []);
  }

  /** By user key, and newest first. */
  predicate ILess(a: IKey, b: IKey) {
    Less(a.user, b.user) || (a.user == b.user && a.tag > b.tag)
  }

  predicate ILessEq(a: IKey, b: IKey) {
    a == b || ILess(a, b)
  }

  lemma ILessTransitive(a: IKey, b: IKey, c: IKey)
    requires ILess(a, b) && ILess(b, c)
    ensures ILess(a, c)
  {
    if Less(a.user, b.user) && Less(b.user, c.user) { LessTransitive(a.user, b.user, c.user); }
  }

  lemma ILessTotal(a: IKey, b: IKey)
    ensures ILess(a, b) || a == b || ILess(b, a)
    ensures !(ILess(a, b) && ILess(b, a)) && !ILess(a, a)
  {
    LessTotal(a.user, b.user);
    if Less(a.user, b.user) { LessAsymmetric(a.user, b.user); }
    if Less(b.user, a.user) { LessAsymmetric(b.user, a.user); }
    if Less(a.user, a.user) { LessAsymmetric(a.user, a.user); }
  }

  /** The separator between two blocks: the last key of the first block, or a shorter user
      key strictly between with the largest tag. */
  ghost predicate Separates(last: IKey, sep: IKey, first: IKey) {
    sep == last || (Less(last.user, sep.user) && Less(sep.user, first.user))
  }

  method SeparateInternal(start: IKey, limit: IKey) returns (r: IKey)
    ensures Separates(start, r, limit)
    ensures r != start ==> |r.user| < |start.user| && r.tag == MAX_TAG
    ensures forall n: nat :: Shortens(start.user, limit.user, n) && n + 1 < |start.user| ==> |r.user| == n + 1
  {
    var tmp := FindShortestSeparator(start.user, limit.user);
    r := start;
    if |tmp| < |start.user| && Less(start.user, tmp) {
      r := IKey(tmp, MAX_TAG);
    }
  }

  method SuccessorInternal(key: IKey) returns (r: IKey)
    ensures r == key || (Less(key.user, r.user) && |r.user| < |key.user| && r.tag == MAX_TAG)
    ensures forall n: nat :: FirstLow(key.user, n) && n + 1 < |key.user| ==> |r.user| == n + 1
  {
    var tmp := FindShortSuccessor(key.user);
    r := key;
    if |tmp| < |key.user| && Less(key.user, tmp) {
      r := IKey(tmp, MAX_TAG);
    }
  }

  /** A separator is at least the last key before it and less than the first one after. */
  lemma SeparatorBetween(last: IKey, sep: IKey, first: IKey)
    requires Separates(last, sep, first) && ILess(last, first)
    ensures ILessEq(last, sep) && ILess(sep, first)
  {
  }
}
