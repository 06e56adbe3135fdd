/** The bloom filter of a set of keys: it never denies a key that was put in, and admits
    another one only if every probe of it is a probe of theirs. */
module Bloom {
  import opened Bits
  import opened Bytes

  lemma {:induction false} OrBound(a: nat, b: nat, k: nat)
    requires a < Pow2(k) && b < Pow2(k)
    ensures Or(a, b) < Pow2(k)
    decreases k
  {
    if k > 0 && a + b > 0 {
      OrBound(a / 2, b / 2, k - 1);
      OrStep(a, b);
    }
  }

  lemma {:induction false} BitPow2(i: nat, j: nat)
    ensures Bit(Pow2(i), j) <==> i == j
    decreases i
  {
    if i == 0 {
      if j > 0 { ZeroBits(j - 1); }
    } else if j > 0 {
      BitPow2(i - 1, j - 1);
    }
  }

  lemma {:induction false} ZeroBits(j: nat)
    ensures !Bit(0, j)
  {
    if j > 0 { ZeroBits(j - 1); }
  }

  lemma EightBits(i: nat) returns (k: nat)
    requires i < 8
    ensures Pow2(k) == 256 && Pow2(i) < 256
  {
    k := 8;
    assert Pow2(4) == 16;
    assert Pow2(7) == 128;
    Pow2Monotonic(i, 7);
  }

  lemma ByteFits(b: Byte, i: nat)
    requires i < 8
    ensures Or(b as int, Pow2(i)) < 256
  {
    var k := EightBits(i);
    OrBound(b as int, Pow2(i), k);
  }

  // ----- bit arrays

  predicate BitSet(bits: seq<Byte>, p: nat)
    requires p < 8 * |bits|
  {
    Bit(bits[p / 8] as int, p % 8)
  }

  function WithBit(b: Byte, i: nat): Byte
    requires i < 8
  {
    ByteFits(b, i);
    Or(b as int, Pow2(i))
  }

  function SetBit(bits: seq<Byte>, p: nat): (r: seq<Byte>)
    requires p < 8 * |bits|
    ensures |r| == |bits|
  {
    bits[p / 8 := WithBit(bits[p / 8], p % 8)]
  }

  lemma SetBitIs(bits: seq<Byte>, p: nat, q: nat)
    requires p < 8 * |bits| && q < 8 * |bits|
    ensures BitSet(SetBit(bits, p), q) <==> BitSet(bits, q) || q == p
  {
    if p / 8 == q / 8 {
      BitOr(bits[p / 8] as int, Pow2(p % 8), q % 8);
      BitPow2(p % 8, q % 8);
    }
  }

  ghost predicate Keeps(bits: seq<Byte>, bits': seq<Byte>) {
    |bits'| == |bits| && forall p: nat :: p < 8 * |bits| && BitSet(bits, p) ==> BitSet(bits', p)
  }

  lemma SetKeeps(bits: seq<Byte>, p: nat)
    requires p < 8 * |bits|
    ensures Keeps(bits, SetBit(bits, p)) && BitSet(SetBit(bits, p), p)
  {
    forall q: nat | q < 8 * |bits| && BitSet(bits, q) ensures BitSet(SetBit(bits, p), q) { SetBitIs(bits, p, q); }
    SetBitIs(bits, p, p);
  }

  // ----- probes

  /** Where that is in an array of so many bytes. */
  function Place(h: nat, d: nat, j: nat, bytes: nat): (q: nat)
    requires bytes > 0
    ensures q < 8 * bytes
  {
    Spot(h, d, j) % (8 * bytes)
  }

  lemma PlaceFirst(h: nat, d: nat, bytes: nat)
    requires h < WORD && bytes > 0 && h < 8 * bytes
    ensures Place(h, d, 0, bytes) == h
  {
    SpotFirst(h, d);
    SmallMod(h, 8 * bytes);
  }

  lemma SmallMod(x: nat, m: nat)
    requires x < m
    ensures x % m == x
  {
    Quotient(0, m, x);
  }

  lemma SpotFirst(h: nat, d: nat)
    requires h < WORD
    ensures Spot(h, d, 0) == h
  {
    assert 0 * d == 0;
  }

  lemma SpotZero(i: nat)
    ensures RotateLeft(0) == 0 && Spot(0, 0, i) == 0
  {
    OrZero(0);
    assert i * 0 == 0;
  }

  lemma PlaceZero(h: nat, d: nat, i: nat, bytes: nat)
    requires h == 0 && d == RotateLeft(h) && bytes > 0
    ensures Place(h, d, i, bytes) == 0
  {
    SpotZero(i);
    SmallMod(0, 8 * bytes);
  }

  /** A value that a step is added to again and again, in 32 bits. */
  function Nth(h: nat, d: nat, j: nat): nat {
    if j == 0 then h else (Nth(h, d, j - 1) + d) % WORD
  }

  function Spot(h: nat, d: nat, j: nat): nat {
    (h + j * d) % WORD
  }

  lemma {:induction false} NthIs(h: nat, d: nat, j: nat)
    requires h < WORD
    ensures Nth(h, d, j) == Spot(h, d, j)
  {
    if j > 0 {
      NthIs(h, d, j - 1);
      StepMod(h, d, j);
    }
  }

  lemma StepMod(h: nat, d: nat, j: nat)
    requires j > 0
    ensures ((h + (j - 1) * d) % WORD + d) % WORD == (h + j * d) % WORD
  {
    var x := h + (j - 1) * d;
    assert j * d == (j - 1) * d + d;
    AddMod(x, d);
  }

  lemma AddMod(x: nat, d: nat)
    ensures (x % WORD + d) % WORD == (x + d) % WORD
  {
    var q := x / WORD;
    assert x + d == q * WORD + (x % WORD + d);
  }

  /** The hash of a key and the step between its probes. */
  datatype Policy = Policy(hash: seq<Byte> -> nat, bitsPerKey: nat) {
    function HashOf(key: seq<Byte>): (h: nat)
      ensures h < WORD
    {
      hash(key) % WORD
    }

    function Delta(key: seq<Byte>): nat {
      RotateLeft(HashOf(key))
    }

    /** The j-th value of the double hashing sequence. */
    function ProbeAt(key: seq<Byte>, j: nat): nat {
      Nth(HashOf(key), Delta(key), j)
    }

    /** Which is the hash plus j times the step, in 32 bits. */
    lemma ProbeIs(key: seq<Byte>, j: nat)
      ensures ProbeAt(key, j) == Spot(HashOf(key), Delta(key), j)
    {
      NthIs(HashOf(key), Delta(key), j);
    }

    /** The bit of probe j in an array of so many bytes. */
    function Position(key: seq<Byte>, j: nat, bytes: nat): (q: nat)
      requires bytes > 0
      ensures q < 8 * bytes
    {
      Place(HashOf(key), Delta(key), j, bytes)
    }

    /** 0.69 of the bits per key, within bounds. */
    function Probes(): (k: nat)
      ensures 1 <= k <= 30
    {
      var k := bitsPerKey * 69 / 100;
      if k < 1 then 1 else if k > 30 then 30 else k
    }

    /** The first n probes of a key are set. */
    predicate Probed(bits: seq<Byte>, key: seq<Byte>, n: nat)
      requires |bits| > 0
    {
      forall j: nat :: j < n ==> ProbeSet(bits, key, j)
    }

    predicate ProbeSet(bits: seq<Byte>, key: seq<Byte>, j: nat)
      requires |bits| > 0
    {
      BitSet(bits, ProbeAt(key, j) % (8 * |bits|))
    }

    /** A filter is a bit array followed by the number of probes. */
    ghost predicate MayMatch(key: seq<Byte>, filter: seq<Byte>) {
      && |filter| >= 2
      && var bits, k := filter[..|filter| - 1], filter[|filter| - 1] as int;
      k > 30 || Probed(bits, key, k)
    }

    /** Any filter of less than two bytes rejects, one with more than 30 probes admits, and
        otherwise the bits of all probes of the key must be set. */
    method KeyMayMatch(key: seq<Byte>, filter: seq<Byte>) returns (r: bool)
      ensures r == MayMatch(key, filter)
      ensures |filter| < 2 ==> !r
      ensures |filter| >= 2 ==>
        var bytes, k := |filter| - 1, filter[|filter| - 1] as int;
        r <==> k > 30 || forall j: nat :: j < k ==> BitSet(filter[..bytes], Position(key, j, bytes))
    {
      r := Scan(key, filter);
      if |filter| >= 2 { ProbesAre(key, filter[..|filter| - 1], filter[|filter| - 1] as int); }
    }

    method Scan(key: seq<Byte>, filter: seq<Byte>) returns (r: bool)
      ensures r == MayMatch(key, filter)
    {
      if |filter| < 2 { return false; }
      var bits, k := filter[..|filter| - 1], filter[|filter| - 1] as int;
      if k > 30 { return true; }
      var h, delta := HashOf(key), Delta(key);
      for j := 0 to k
        invariant h == ProbeAt(key, j) && Probed(bits, key, j)
      {
        if !BitSet(bits, h % (8 * |bits|)) {
          assert !ProbeSet(bits, key, j);
          return false;
        }
        h := (h + delta) % WORD;
      }
      return true;
    }

    lemma ProbesAre(key: seq<Byte>, bits: seq<Byte>, k: nat)
      requires |bits| > 0
      ensures Probed(bits, key, k) <==> forall j: nat :: j < k ==> BitSet(bits, Position(key, j, |bits|))
    {
      forall j: nat ensures ProbeSet(bits, key, j) <==> BitSet(bits, Position(key, j, |bits|)) { ProbeIs(key, j); }
    }

    lemma ProbedKept(bits: seq<Byte>, bits': seq<Byte>, key: seq<Byte>, n: nat)
      requires |bits| > 0 && Keeps(bits, bits') && Probed(bits, key, n)
      ensures Probed(bits', key, n)
    {
      forall j: nat | j < n ensures ProbeSet(bits', key, j) {
        assert ProbeSet(bits, key, j);
      }
    }

    /** Bit q is one of the first n probes of a key. */
    ghost predicate Hit(key: seq<Byte>, n: nat, q: nat, bytes: nat)
      requires bytes > 0
    {
      exists j: nat :: j < n && q == ProbeAt(key, j) % (8 * bytes)
    }

    /** No bit was set but the first n probes of a key. */
    ghost predicate HitsOnly(bits: seq<Byte>, bits': seq<Byte>, key: seq<Byte>, n: nat)
      requires |bits'| == |bits| > 0
    {
      forall q: nat :: q < 8 * |bits| && BitSet(bits', q) ==> BitSet(bits, q) || Hit(key, n, q, |bits|)
    }

    lemma HitNext(bits0: seq<Byte>, bits: seq<Byte>, key: seq<Byte>, j: nat)
      requires |bits| == |bits0| > 0 && HitsOnly(bits0, bits, key, j)
      ensures HitsOnly(bits0, SetBit(bits, ProbeAt(key, j) % (8 * |bits|)), key, j + 1)
    {
      var p := ProbeAt(key, j) % (8 * |bits|);
      forall q: nat | q < 8 * |bits| && BitSet(SetBit(bits, p), q) ensures BitSet(bits0, q) || Hit(key, j + 1, q, |bits|) {
        SetBitIs(bits, p, q);
      }
    }

    /** Set the probes of one key and no other bit. */
    method AddKey(bits0: seq<Byte>, key: seq<Byte>) returns (bits: seq<Byte>)
      requires |bits0| > 0
      ensures Keeps(bits0, bits) && Probed(bits, key, Probes()) && HitsOnly(bits0, bits, key, Probes())
    {
      bits := bits0;
      var h, delta := HashOf(key), Delta(key);
      for j := 0 to Probes()
        invariant Keeps(bits0, bits) && h == ProbeAt(key, j) && Probed(bits, key, j) && HitsOnly(bits0, bits, key, j)
      {
        var p := h % (8 * |bits|);
        SetKeeps(bits, p);
        HitNext(bits0, bits, key, j);
        ProbedKept(bits, SetBit(bits, p), key, j);
        bits := SetBit(bits, p);
        h := (h + delta) % WORD;
      }
    }

    /** The size of the bit array for n keys, in bytes. */
    function Size(n: nat): (r: nat)
      ensures r >= 8
    {
      var bits := n * bitsPerKey;
      ((if bits < 64 then 64 else bits) + 7) / 8
    }

    /** Every bit that is set is a probe of some key. */
    ghost predicate OnlyOf(bits: seq<Byte>, keys: seq<seq<Byte>>)
      requires |bits| > 0
    {
      forall q: nat :: q < 8 * |bits| && BitSet(bits, q) ==> exists key :: key in keys && Hit(key, Probes(), q, |bits|)
    }

    lemma OnlyOfNext(before: seq<Byte>, bits: seq<Byte>, keys: seq<seq<Byte>>, key: seq<Byte>)
      requires |bits| == |before| > 0 && OnlyOf(before, keys) && HitsOnly(before, bits, key, Probes())
      ensures OnlyOf(bits, keys + [key])
    {
      forall q: nat | q < 8 * |bits| && BitSet(bits, q) ensures exists k :: k in keys + [key] && Hit(k, Probes(), q, |bits|) {
        assert key in keys + [key];
        if BitSet(before, q) {
          var k :| k in keys && Hit(k, Probes(), q, |bits|);
          assert k in keys + [key];
        }
      }
    }

    lemma NoBits(bits: seq<Byte>)
      requires |bits| > 0 && forall i: nat :: i < |bits| ==> bits[i] == 0
      ensures OnlyOf(bits, [])
    {
      forall q: nat | q < 8 * |bits| ensures !BitSet(bits, q) { ZeroBits(q % 8); }
    }

    /** A filter of the prescribed size in which the bits of the probes of the keys are set
        and no others. */
    ghost predicate FilterOf(filter: seq<Byte>, keys: seq<seq<Byte>>) {
      && |filter| == Size(|keys|) + 1 && filter[Size(|keys|)] == Probes() && OnlyOf(filter[..Size(|keys|)], keys)
      && forall key :: key in keys ==> Probed(filter[..Size(|keys|)], key, Probes())
    }

    /** Every probe of the key falls on a probe of one of the keys. */
    ghost predicate Shares(keys: seq<seq<Byte>>, key: seq<Byte>) {
      forall j: nat :: j < Probes() ==> SharesAt(keys, key, j)
    }

    ghost predicate SharesAt(keys: seq<seq<Byte>>, key: seq<Byte>, j: nat) {
      exists k, i: nat :: SharesBy(keys, key, j, k, i)
    }

    ghost predicate SharesBy(keys: seq<seq<Byte>>, key: seq<Byte>, j: nat, k: seq<Byte>, i: nat) {
      k in keys && i < Probes() && Position(k, i, Size(|keys|)) == Position(key, j, Size(|keys|))
    }

    /** So the filter admits a key if and only if its probes are among theirs. */
    lemma MatchesIff(filter: seq<Byte>, keys: seq<seq<Byte>>, key: seq<Byte>)
      requires FilterOf(filter, keys)
      ensures MayMatch(key, filter) <==> Shares(keys, key)
    {
      var bits := filter[..Size(|keys|)];
      assert filter[..|filter| - 1] == bits;
      forall j: nat ensures ProbeSet(bits, key, j) <==> SharesAt(keys, key, j) { ProbeShared(filter, keys, key, j); }
    }

    lemma ProbeShared(filter: seq<Byte>, keys: seq<seq<Byte>>, key: seq<Byte>, j: nat)
      requires FilterOf(filter, keys)
      ensures ProbeSet(filter[..Size(|keys|)], key, j) <==> SharesAt(keys, key, j)
    {
      var bits, bytes := filter[..Size(|keys|)], Size(|keys|);
      var q := Position(key, j, bytes);
      ProbeIs(key, j);
      if BitSet(bits, q) {
        var k :| k in keys && Hit(k, Probes(), q, bytes);
        var i: nat :| i < Probes() && q == ProbeAt(k, i) % (8 * bytes);
        ProbeIs(k, i);
        assert SharesBy(keys, key, j, k, i);
      }
      if SharesAt(keys, key, j) {
        var k, i: nat :| SharesBy(keys, key, j, k, i);
        assert Probed(bits, k, Probes()) && ProbeSet(bits, k, i);
        ProbeIs(k, i);
      }
    }

    /** In particular it admits the keys themselves. */
    lemma AdmitsOwn(keys: seq<seq<Byte>>, key: seq<Byte>)
      requires key in keys
      ensures Shares(keys, key)
    {
      forall j: nat | j < Probes() ensures SharesAt(keys, key, j) {
        assert SharesBy(keys, key, j, key, j);
      }
    }

    /** It does reject: with one key of hash 0 only bit 0 is set, and a key of hash 1 asks for
        bit 1. */
    lemma RejectsOther(a: seq<Byte>, b: seq<Byte>)
      requires HashOf(a) == 0 && HashOf(b) == 1
      ensures !Shares([a], b)
    {
      FirstProbe(b, Size(1));
      forall k, i: nat ensures !SharesBy([a], b, 0, k, i) {
        if k == a { ZeroProbes(a, i, Size(1)); }
      }
      assert !SharesAt([a], b, 0);
    }

    lemma FirstProbe(b: seq<Byte>, bytes: nat)
      requires HashOf(b) == 1 && bytes > 0
      ensures Position(b, 0, bytes) == 1
    {
      PlaceFirst(HashOf(b), Delta(b), bytes);
    }

    lemma ZeroProbes(a: seq<Byte>, i: nat, bytes: nat)
      requires HashOf(a) == 0 && bytes > 0
      ensures Position(a, i, bytes) == 0
    {
      PlaceZero(HashOf(a), Delta(a), i, bytes);
    }

    /** And without keys nothing. */
    lemma AdmitsNone(key: seq<Byte>)
      ensures !Shares([], key)
    {
      assert !SharesAt([], key, 0);
    }

    method CreateFilter(keys: seq<seq<Byte>>) returns (filter: seq<Byte>)
      ensures FilterOf(filter, keys) && forall key :: MayMatch(key, filter) <==> Shares(keys, key)
    {
      var bits: seq<Byte> := seq(Size(|keys|), _ => 0);
      NoBits(bits);
      for i := 0 to |keys|
        invariant |bits| == Size(|keys|) && forall m: nat :: m < i ==> Probed(bits, keys[m], Probes())
        invariant OnlyOf(bits, keys[..i])
      {
        ghost var before := bits;
        bits := AddKey(bits, keys[i]);
        OnlyOfNext(before, bits, keys[..i], keys[i]);
        assert keys[..i + 1] == keys[..i] + [keys[i]];
        forall m: nat | m < i ensures Probed(bits, keys[m], Probes()) {
          ProbedKept(before, bits, keys[m], Probes());
        }
      }
      filter := bits + [Probes()];
      assert filter[..|filter| - 1] == bits && keys[..|keys|] == keys;
      forall key | key in keys ensures Probed(bits, key, Probes()) {
        var m: nat :| m < |keys| && keys[m] == key;
      }
      forall key ensures MayMatch(key, filter) <==> Shares(keys, key) { MatchesIff(filter, keys, key); }
    }
  }
}
