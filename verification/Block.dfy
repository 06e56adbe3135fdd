/** Reading a finished block: decoding its entries, and an iterator over them. */
module Block {
  import opened Wrappers
  import opened Bits
  import opened Bytes
  import opened Coding
  import opened BlockBuilder

  /** The lengths in front of an entry and the position after them. */
  datatype Lengths = Lengths(shared: nat, nonShared: nat, length: nat, at: nat)

  /** They are read by general varint decoding. */
  function Header(data: seq<Byte>, p: nat, limit: nat): (r: Option<Lengths>)
    requires limit <= |data|
    ensures r.Some? ==> p + 3 <= r.value.at && r.value.at + (r.value.nonShared + r.value.length) % WORD <= limit
  {
    if limit < p + 3 then None
    else
      match Decode32(data, p, limit)
      case None => None
      case Some((shared, p1)) =>
        match Decode32(data, p1, limit)
        case None => None
        case Some((nonShared, p2)) =>
          match Decode32(data, p2, limit)
          case None => None
          case Some((length, p3)) =>
            if limit - p3 < (nonShared + length) % WORD then None else Some(Lengths(shared, nonShared, length, p3))
  }

  lemma ShortDecodes(data: seq<Byte>, p: nat, limit: nat)
    requires p < limit <= |data| && data[p] < 128
    ensures Decode32(data, p, limit) == Some((data[p] as int, p + 1))
  {
  }

  /** The three lengths at once when each is a single byte; the same result. */
  method DecodeEntry(data: seq<Byte>, p: nat, limit: nat) returns (r: Option<Lengths>)
    requires limit <= |data|
    ensures r == Header(data, p, limit)
  {
    if limit < p + 3 { return None; }
    var shared, nonShared, length := data[p] as int, data[p + 1] as int, data[p + 2] as int;
    var q := p;
    if Or(Or(shared, nonShared), length) < 128 {
      OrAtLeast(shared, nonShared);
      OrAtLeast(Or(shared, nonShared), length);
      ShortDecodes(data, p, limit);
      ShortDecodes(data, p + 1, limit);
      ShortDecodes(data, p + 2, limit);
      q := q + 3;
    } else {
      var a := GetVarint32(data, q, limit);
      if a.None? { return None; }
      var b := GetVarint32(data, a.value.1, limit);
      if b.None? { return None; }
      var c := GetVarint32(data, b.value.1, limit);
      if c.None? { return None; }
      shared, nonShared, length, q := a.value.0, b.value.0, c.value.0, c.value.1;
    }
    if limit - q < (nonShared + length) % WORD { return None; }
    return Some(Lengths(shared, nonShared, length, q));
  }

  lemma EntryParts(data: seq<Byte>, p: nat, a: seq<Byte>, b: seq<Byte>, c: seq<Byte>, d: seq<Byte>, e: seq<Byte>)
    requires At(data, p, a + (b + (c + (d + e))))
    ensures At(data, p, a) && At(data, p + |a|, b) && At(data, p + |a| + |b|, c)
    ensures At(data, p + |a| + |b| + |c|, d) && At(data, p + |a| + |b| + |c| + |d|, e)
  {
    AtParts(data, p, a, b + (c + (d + e)));
    AtParts(data, p + |a|, b, c + (d + e));
    AtParts(data, p + |a| + |b|, c, d + e);
    AtParts(data, p + |a| + |b| + |c|, d, e);
  }

  lemma HeaderIs(data: seq<Byte>, p: nat, limit: nat, a: Option<(nat, nat)>, b: Option<(nat, nat)>, c: Option<(nat, nat)>)
    requires p + 3 <= limit <= |data| && a.Some? && b.Some? && c.Some?
    requires a == Decode32(data, p, limit) && b == Decode32(data, a.value.1, limit)
    requires c == Decode32(data, b.value.1, limit) && c.value.1 + b.value.0 + c.value.0 <= limit
    ensures Header(data, p, limit) == Some(Lengths(a.value.0, b.value.0, c.value.0, c.value.1))
  {
  }

  lemma PartsDecode(data: seq<Byte>, p: nat, limit: nat, a: seq<Byte>, b: seq<Byte>, c: seq<Byte>,
                    d: seq<Byte>, e: seq<Byte>, shared: nat)
    requires IsVarint(a, shared) && IsVarint(b, |d|) && IsVarint(c, |e|)
    requires At(data, p, a + (b + (c + (d + e)))) && p + |a| + |b| + |c| + |d| + |e| <= limit <= |data|
    ensures var q := p + |a| + |b| + |c|;
      && Header(data, p, limit) == Some(Lengths(shared, |d|, |e|, q)) && p < q
      && data[q..q + |d|] == d && data[q + |d|..q + |d| + |e|] == e
  {
    EntryParts(data, p, a, b, c, d, e);
    VarintDecodes(data, p, limit, a, shared);
    VarintDecodes(data, p + |a|, limit, b, |d|);
    VarintDecodes(data, p + |a| + |b|, limit, c, |e|);
    HeaderIs(data, p, limit, Some((shared, p + |a|)), Some((|d|, p + |a| + |b|)), Some((|e|, p + |a| + |b| + |c|)));
  }

  /** Decoding an entry gives back what was encoded. */
  lemma EncodedDecodes(data: seq<Byte>, p: nat, limit: nat, shared: nat, e: Pair)
    requires shared <= |e.key| < WORD && |e.value| < WORD && At(data, p, EncodeEntry(shared, e))
    requires p + |EncodeEntry(shared, e)| <= limit <= |data|
    ensures var h, next := Header(data, p, limit), p + |EncodeEntry(shared, e)|;
      && h.Some? && h.value.shared == shared && h.value.nonShared == |e.key| - shared && h.value.length == |e.value|
      && p < h.value.at && h.value.at + (|e.key| - shared) + |e.value| == next
      && data[h.value.at..h.value.at + |e.key| - shared] == e.key[shared..]
      && data[h.value.at + |e.key| - shared..next] == e.value
  {
    PartsDecode(data, p, limit, Varint(shared), Varint(|e.key| - shared), Varint(|e.value|), e.key[shared..], e.value, shared);
  }

  lemma {:induction false} OffsetsIncrease(l: Layout, data: seq<Byte>, i: nat, j: nat)
    requires Lies(l, data) && i < j <= |l.entries|
    ensures l.offsets[i] < l.offsets[j]
    decreases j
  {
    assert EntryAt(l, data, j - 1);
    if i < j - 1 { OffsetsIncrease(l, data, i, j - 1); }
  }

  // ----- the iterator

  /** The key before entry i, as far as it shares with it, and what is stored give its key. */
  lemma KeyRestored(before: seq<Byte>, key: seq<Byte>, shared: nat)
    requires SharesPrefix(before, key, shared)
    ensures before[..shared] + key[shared..] == key
  {
  }

  ghost predicate Transitive(less: (seq<Byte>, seq<Byte>) -> bool) {
    forall a, b, c :: less(a, b) && less(b, c) ==> less(a, c)
  }

  ghost predicate Sorted(entries: seq<Pair>, less: (seq<Byte>, seq<Byte>) -> bool) {
    forall i: nat, j: nat :: i < j < |entries| ==> less(entries[i].key, entries[j].key)
  }

  /** Where entry i ends is still in the data. */
  lemma EntryInside(l: Layout, data: seq<Byte>, i: nat)
    requires Lies(l, data) && i < |l.entries|
    ensures EntryAt(l, data, i) && l.offsets[i] < l.offsets[i + 1] <= End(l)
  {
    assert EntryAt(l, data, i);
    OffsetsIncrease(l, data, i, i + 1);
    if i + 1 < |l.entries| { OffsetsIncrease(l, data, i + 1, |l.entries|); }
  }

  /** Parse entry i after a key that has its shared prefix. A finished block has no bad
      entry, so the corruption exits of the source are not taken. */
  method ParseEntry(data: seq<Byte>, limit: nat, current: nat, before: seq<Byte>, ghost l: Layout, ghost i: nat)
    returns (key: seq<Byte>, start: nat, end: nat)
    requires Lies(l, data) && i < |l.entries| && limit == End(l) <= |data| && current == l.offsets[i]
    requires SharesPrefix(before, l.entries[i].key, l.shared[i])
    ensures key == l.entries[i].key && start <= end == l.offsets[i + 1] <= |data|
    ensures data[start..end] == l.entries[i].value
  {
    EntryInside(l, data, i);
    EncodedDecodes(data, current, limit, l.shared[i], l.entries[i]);
    var header := DecodeEntry(data, current, limit);
    assert header.Some? && header.value.shared <= |before|;
    KeyRestored(before, l.entries[i].key, l.shared[i]);
    var h := header.value;
    key := before[..h.shared] + data[h.at..h.at + h.nonShared];
    start, end := h.at + h.nonShared, h.at + h.nonShared + h.length;
  }

  class Iter {
    const less: (seq<Byte>, seq<Byte>) -> bool
    const data: seq<Byte>
    const restarts: nat
    const numRestarts: nat
    ghost const layout: Layout
    var current: nat
    var restartIndex: nat
    var key: seq<Byte>
    var valueStart: nat
    var valueEnd: nat

    ghost predicate Block() {
      && IsBlock(layout, data) && restarts == End(layout) && numRestarts == |layout.restarts|
    }

    ghost function Count(): nat {
      |layout.entries|
    }

    /** Standing on entry i, or past the last one when i is their number. */
    ghost predicate On(i: nat)
      reads this
    {
      && Block() && i <= Count()
      && (if i == Count() then current == restarts && restartIndex == numRestarts
          else
            && restartIndex < numRestarts && current == layout.offsets[i] && key == layout.entries[i].key
            && valueStart <= valueEnd == layout.offsets[i + 1] <= |data|
            && data[valueStart..valueEnd] == layout.entries[i].value)
    }

    /** Whether there is an entry here. */
    predicate Valid()
      reads this
    {
      current < restarts
    }

    lemma ValidIs(i: nat)
      requires On(i)
      ensures Valid() <==> i < Count()
    {
      if i < Count() { OffsetsIncrease(layout, data, i, Count()); }
    }

    /** About to parse entry i. */
    ghost predicate Before(i: nat)
      reads this
    {
      && Block() && i <= Count() && restartIndex < numRestarts && valueEnd == layout.offsets[i]
      && (i < Count() ==> SharesPrefix(key, layout.entries[i].key, layout.shared[i]))
    }

    constructor (less: (seq<Byte>, seq<Byte>) -> bool, data: seq<Byte>, ghost layout: Layout)
      requires IsBlock(layout, data)
      ensures this.less == less && this.layout == layout && On(|layout.entries|)
    {
      this.less, this.data, this.layout := less, data, layout;
      var n := WordOf(data, |data| - 4);
      numRestarts, restarts := n, |data| - (1 + n) * 4;
      current, restartIndex, key, valueStart, valueEnd := |data| - (1 + n) * 4, n, [], 0, 0;
    }

    function GetRestartPoint(index: nat): (r: nat)
      requires Block() && index < numRestarts
      ensures layout.restarts[index] <= |layout.entries| && r == layout.offsets[layout.restarts[index]]
    {
      assert RestartWord(layout, data, index);
      WordOf(data, restarts + 4 * index)
    }

    method SeekToRestartPoint(index: nat)
      requires Block() && index < numRestarts
      modifies this
      ensures Before(layout.restarts[index])
    {
      key, restartIndex := [], index;
      var offset := GetRestartPoint(index);
      assert RestartAt(layout, index);
      valueStart, valueEnd := offset, offset;
    }

    /** Move on to the entry after the value; there is none at the end of the data. */
    method ParseNextKey(ghost i: nat) returns (found: bool)
      requires Before(i)
      modifies this
      ensures On(i) && found == (i < Count())
    {
      current := valueEnd;
      if current >= restarts {
        if i < Count() { OffsetsIncrease(layout, data, i, Count()); }
        current, restartIndex := restarts, numRestarts;
        return false;
      }
      key, valueStart, valueEnd := ParseEntry(data, restarts, current, key, layout, i);
      RaiseRestart(i);
      return true;
    }

    /** Let the restart index follow the current entry. */
    method RaiseRestart(ghost i: nat)
      requires On(i) && i < Count()
      modifies this`restartIndex
      ensures On(i)
    {
      while restartIndex + 1 < numRestarts && GetRestartPoint(restartIndex + 1) < current
        invariant On(i)
        decreases numRestarts - restartIndex
      {
        restartIndex := restartIndex + 1;
      }
    }

    lemma ThenBefore(i: nat)
      requires On(i) && i < Count()
      ensures Before(i + 1)
    {
      if i + 1 < Count() { assert EntryAt(layout, data, i + 1); }
    }

    method Next(ghost i: nat)
      requires On(i) && i < Count()
      modifies this
      ensures On(i + 1)
    {
      ThenBefore(i);
      var found := ParseNextKey(i + 1);
    }

    /** Parse on until the entry that ends where entry i starts, if there is one. */
    method ScanTo(original: nat, ghost m0: nat, ghost i: nat)
      requires Before(m0) && (m0 < i <= Count() || m0 == i == Count()) && original == layout.offsets[i]
      modifies this
      ensures On(if m0 < i then i - 1 else i)
    {
      ghost var m := m0;
      var more := ParseNextKey(m);
      while more && valueEnd < original
        invariant On(m) && more == (m < Count()) && (m < i || m == m0 == i == Count())
        decreases i - m
      {
        ThenBefore(m);
        m := m + 1;
        assert m != i;
        more := ParseNextKey(m);
      }
      if m + 1 < i { OffsetsIncrease(layout, data, m + 1, i); }
    }

    lemma OffsetsIncreaseOr(i: nat, m: nat)
      requires Block() && i <= m <= Count()
      ensures layout.offsets[i] <= layout.offsets[m]
    {
      if i < m { OffsetsIncrease(layout, data, i, m); }
    }

    /** Step back to the entry before; past the last one if there is none. */
    method Prev(ghost i: nat)
      requires On(i) && i < Count()
      modifies this
      ensures On(if i == 0 then Count() else i - 1)
    {
      var original := current;
      while GetRestartPoint(restartIndex) >= original
        invariant On(i) && current == original
        decreases restartIndex
      {
        if restartIndex == 0 {
          if i > 0 { OffsetsIncrease(layout, data, 0, i); }
          current, restartIndex := restarts, numRestarts;
          return;
        }
        restartIndex := restartIndex - 1;
      }
      ghost var m := layout.restarts[restartIndex];
      if m >= i { OffsetsIncreaseOr(i, m); }
      SeekToRestartPoint(restartIndex);
      ScanTo(original, m, i);
    }

    method SeekToFirst()
      requires Block()
      modifies this
      ensures On(0)
    {
      SeekToRestartPoint(0);
      var found := ParseNextKey(0);
    }

    method SeekToLast()
      requires Block()
      modifies this
      ensures On(if Count() == 0 then 0 else Count() - 1)
    {
      assert RestartAt(layout, numRestarts - 1);
      SeekToRestartPoint(numRestarts - 1);
      ScanTo(restarts, layout.restarts[numRestarts - 1], Count());
    }

    /** The last restart point the binary search finds with a smaller key, or the first. */
    method FindRestart(target: seq<Byte>) returns (left: nat)
      requires Block()
      ensures left < numRestarts && layout.restarts[left] <= Count()
      ensures left == 0 || (layout.restarts[left] < Count() && less(layout.entries[layout.restarts[left]].key, target))
    {
      left := 0;
      var right := numRestarts - 1;
      assert RestartAt(layout, 0);
      while left < right
        invariant left <= right < numRestarts && RestartAt(layout, left)
        invariant left == 0 || less(layout.entries[layout.restarts[left]].key, target)
      {
        var mid := (left + right + 1) / 2;
        var midKey := RestartKey(mid);
        if less(midKey, target) { left := mid; } else { right := mid - 1; }
      }
    }

    /** The key stored whole at a restart point. */
    method RestartKey(index: nat) returns (k: seq<Byte>)
      requires Block() && 0 < index < numRestarts
      ensures RestartAt(layout, index) && k == layout.entries[layout.restarts[index]].key
    {
      assert RestartAt(layout, index);
      var start, end;
      k, start, end := ParseEntry(data, restarts, GetRestartPoint(index), [], layout, layout.restarts[index]);
    }

    /** Move to the first entry whose key is not less than the target. */
    method Seek(target: seq<Byte>) returns (ghost i: nat)
      requires Block() && Transitive(less) && Sorted(layout.entries, less)
      modifies this
      ensures On(i) && LowerBound(layout.entries, less, target, i)
    {
      var left := FindRestart(target);
      i := layout.restarts[left];
      SmallerBefore(layout.entries, less, target, i);
      SeekToRestartPoint(left);
      while true
        invariant Before(i) && forall j: nat :: j < i ==> less(layout.entries[j].key, target)
        decreases Count() - i
      {
        var found := ParseNextKey(i);
        if !found { return; }
        if !less(key, target) {
          NotSmallerAfter(layout.entries, less, target, i);
          return;
        }
        ThenBefore(i);
        i := i + 1;
      }
    }
  }

  /** Entries before i are smaller than the target, the others are not. */
  ghost predicate LowerBound(entries: seq<Pair>, less: (seq<Byte>, seq<Byte>) -> bool, target: seq<Byte>, i: nat) {
    && i <= |entries|
    && forall j: nat :: j < |entries| ==> (less(entries[j].key, target) <==> j < i)
  }

  lemma SmallerBefore(entries: seq<Pair>, less: (seq<Byte>, seq<Byte>) -> bool, target: seq<Byte>, i: nat)
    requires Transitive(less) && Sorted(entries, less) && i <= |entries|
    requires i == 0 || (i < |entries| && less(entries[i].key, target))
    ensures forall j: nat :: j < i ==> less(entries[j].key, target)
  {
    forall j: nat | j < i ensures less(entries[j].key, target) {
      assert less(entries[j].key, entries[i].key);
    }
  }

  lemma NotSmallerAfter(entries: seq<Pair>, less: (seq<Byte>, seq<Byte>) -> bool, target: seq<Byte>, i: nat)
    requires Transitive(less) && Sorted(entries, less) && i < |entries| && !less(entries[i].key, target)
    ensures forall j: nat :: i <= j < |entries| ==> !less(entries[j].key, target)
  {
    forall j: nat | i <= j < |entries| ensures !less(entries[j].key, target) {
      if i < j { assert less(entries[i].key, entries[j].key); }
    }
  }
}
