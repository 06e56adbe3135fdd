/** Bytes, fixed-width little-endian words and the masked checksum. */
module Bytes {
  import opened Bits

  type Byte = b: int | 0 <= b < 256

  const WORD: nat := 0x1_0000_0000

  function Fixed32(w: nat): (r: seq<Byte>)
    requires w < WORD
    ensures |r| == 4
  {
    [w % 256, w / 256 % 256, w / 65536 % 256, w / 16777216]
  }

  function DecodeFixed32(s: seq<Byte>): (w: nat)
    requires |s| >= 4
    ensures w < WORD
  {
    (s[0] as int) + 256 * (s[1] as int) + 65536 * (s[2] as int) + 16777216 * (s[3] as int)
  }

  /** A fixed word decodes to itself, whatever follows it. */
  lemma Fixed32RoundTrip(w: nat, rest: seq<Byte>)
    requires w < WORD
    ensures DecodeFixed32(Fixed32(w) + rest) == w
  {
    var s := Fixed32(w) + rest;
    assert s[0] == w % 256 && s[1] == w / 256 % 256 && s[2] == w / 65536 % 256 && s[3] == w / 16777216;
    assert w / 65536 == w / 256 / 256 && w / 16777216 == w / 65536 / 256;
  }

  /** A size stored in 32 bits. */
  function LowWord(x: nat): (r: nat)
    ensures r < WORD && (x < WORD ==> r == x)
  {
    x % WORD
  }

  function Fixed64(w: nat): (r: seq<Byte>)
    requires w < WORD * WORD
    ensures |r| == 8
  {
    Fixed32(w % WORD) + Fixed32(w / WORD)
  }

  function DecodeFixed64(s: seq<Byte>): nat
    requires |s| >= 8
  {
    DecodeFixed32(s) + WORD * DecodeFixed32(s[4..])
  }

  lemma Fixed64RoundTrip(w: nat, rest: seq<Byte>)
    requires w < WORD * WORD
    ensures DecodeFixed64(Fixed64(w) + rest) == w
  {
    var low, high := Fixed32(w % WORD), Fixed32(w / WORD);
    var s := Fixed64(w) + rest;
    assert s == low + (high + rest);
    assert s[4..] == high + rest;
    Fixed32RoundTrip(w % WORD, high + rest);
    Fixed32RoundTrip(w / WORD, rest);
  }

  // ----- checksums

  /** A checksum that consumes its input byte by byte, from any starting value. */
  datatype Checksum = Checksum(step: (nat, Byte) -> nat) {
    function Extend(crc: nat, data: seq<Byte>): (r: nat)
      ensures data != [] ==> r < WORD
    {
      if data == [] then crc else step(Extend(crc, data[..|data| - 1]), data[|data| - 1]) % WORD
    }

    function Value(data: seq<Byte>): (r: nat)
      ensures data != [] ==> r < WORD
    {
      Extend(0, data)
    }

    /** Extending the checksum of a by b gives the checksum of the two together. */
    lemma {:induction false} ExtendValue(a: seq<Byte>, b: seq<Byte>)
      ensures Extend(Value(a), b) == Value(a + b)
      decreases |b|
    {
      if b == [] {
        assert a + b == a;
      } else {
        ExtendValue(a, b[..|b| - 1]);
        assert (a + b)[..|a + b| - 1] == a + b[..|b| - 1];
      }
    }
  }

  const MASK_DELTA: nat := 0xa282ead8

  function RotateRight(x: nat): nat {
    Or(x / 0x8000, x * 0x20000 % WORD)
  }

  function RotateLeft(x: nat): nat {
    Or(x / 0x20000, x * 0x8000 % WORD)
  }

  /** Rotate right by 15 bits and add a constant. */
  function Mask(crc: nat): (r: nat)
    ensures r < WORD
  {
    Plus(RotateRight(crc), MASK_DELTA)
  }

  function Unmask(masked: nat): nat {
    RotateLeft(Minus(masked, MASK_DELTA))
  }

  /** Addition and subtraction of 32-bit words. */
  function Plus(x: nat, d: nat): (r: nat)
    ensures r < WORD
  {
    (x + d) % WORD
  }

  function Minus(x: nat, d: nat): (r: nat)
    ensures r < WORD
  {
    (x - d) % WORD
  }

  function ShiftLeft(b: nat, k: nat): nat {
    if k == 0 then b else 2 * ShiftLeft(b, k - 1)
  }

  lemma {:induction false} ShiftLeftIs(b: nat, k: nat)
    ensures ShiftLeft(b, k) == b * Pow2(k)
  {
    if k > 0 {
      ShiftLeftIs(b, k - 1);
      assert b * (2 * Pow2(k - 1)) == 2 * (b * Pow2(k - 1));
    }
  }

  /** Bits that do not overlap are added by an inclusive or. */
  lemma {:induction false} OrAdds(a: nat, b: nat, k: nat)
    requires a < Pow2(k)
    ensures Or(a, ShiftLeft(b, k)) == a + ShiftLeft(b, k)
    decreases k
  {
    if k == 0 {
      OrZero(b);
    } else {
      OrAdds(a / 2, b, k - 1);
      OrStep(a, ShiftLeft(b, k));
    }
  }

  lemma {:induction false} OrZero(b: nat)
    ensures Or(0, b) == b
    decreases b
  {
    OrStep(0, b);
    if b > 0 { OrZero(b / 2); }
  }

  lemma OrAddsTimes(a: nat, b: nat, k: nat, p: nat)
    requires Pow2(k) == p && a < p
    ensures Or(a, b * p) == a + b * p
  {
    OrAdds(a, b, k);
    ShiftLeftIs(b, k);
  }

  lemma Pow2Small() returns (k: nat)
    ensures Pow2(k) == 0x8000 && Pow2(k + 2) == 0x20000
  {
    assert Pow2(4) == 16;
    assert Pow2(8) == 256;
    assert Pow2(12) == 4096;
    k := 15;
    assert Pow2(k) == 0x8000;
  }

  lemma ShiftedWord(high: nat, low: nat, p: nat, q: nat)
    requires p * q == WORD && low < p && p > 0
    ensures low * q < WORD && (high * p + low) * q % WORD == low * q && (high * p + low) / p == high
  {
    assert (high * p + low) * q == high * (p * q) + low * q;
    assert low * q <= (p - 1) * q == p * q - q;
    assert q > 0;
    Quotient(high, WORD, low * q);
    Quotient(high, p, low);
  }

  lemma Quotient(h: nat, d: nat, r: nat)
    requires r < d
    ensures (h * d + r) / d == h && (h * d + r) % d == r
  {
    var q := (h * d + r) / d;
    TimesMonotonic(q + 1, h, d);
    TimesMonotonic(h + 1, q, d);
  }

  lemma TimesMonotonic(a: int, b: int, d: nat)
    ensures a <= b ==> a * d <= b * d
  {
  }

  /** Rotating right by 15 puts the low 15 bits above the high 17. */
  lemma RotateRightIs(high: nat, low: nat)
    requires high < 0x20000 && low < 0x8000
    ensures RotateRight(high * 0x8000 + low) == low * 0x20000 + high
  {
    var k := Pow2Small();
    ShiftedWord(high, low, 0x8000, 0x20000);
    OrAddsTimes(high, low, k + 2, 0x20000);
  }

  /** Rotating left by 15 puts them back. */
  lemma RotateLeftIs(high: nat, low: nat)
    requires high < 0x8000 && low < 0x20000
    ensures RotateLeft(high * 0x20000 + low) == low * 0x8000 + high
  {
    var k := Pow2Small();
    ShiftedWord(high, low, 0x20000, 0x8000);
    OrAddsTimes(high, low, k, 0x8000);
  }

  lemma RotateInverse(x: nat)
    requires x < WORD
    ensures RotateRight(x) < WORD && RotateLeft(RotateRight(x)) == x
    ensures RotateLeft(x) < WORD && RotateRight(RotateLeft(x)) == x
  {
    RotateRightIs(x / 0x8000, x % 0x8000);
    RotateLeftIs(x % 0x8000, x / 0x8000);
    RotateLeftIs(x / 0x20000, x % 0x20000);
    RotateRightIs(x % 0x20000, x / 0x20000);
  }

  lemma PlusThenMinus(x: nat, d: nat)
    requires x < WORD && d < WORD
    ensures Minus(Plus(x, d), d) == x
  {
    assert Plus(x, d) == if x + d < WORD then x + d else x + d - WORD;
  }

  lemma MinusThenPlus(x: nat, d: nat)
    requires x < WORD && d < WORD
    ensures Plus(Minus(x, d), d) == x
  {
    assert Minus(x, d) == if x >= d then x - d else x - d + WORD;
  }

  /** Masking and unmasking undo each other on all 32-bit words, whatever the constant. */
  lemma MaskInverseFor(x: nat, d: nat)
    requires x < WORD && d < WORD
    ensures RotateLeft(Minus(Plus(RotateRight(x), d), d)) == x
    ensures Plus(RotateRight(RotateLeft(Minus(x, d))), d) == x
  {
    RotateInverse(x);
    PlusThenMinus(RotateRight(x), d);
    RotateInverse(Minus(x, d));
    MinusThenPlus(x, d);
  }

  lemma MaskInverse(x: nat)
    requires x < WORD
    ensures Unmask(Mask(x)) == x && Mask(Unmask(x)) == x
  {
    MaskInverseFor(x, MASK_DELTA);
  }
}
