/** The filter block of a table: one bloom filter for every 2 KB of file offsets. */
module FilterBlock {
  import opened Bits
  import opened Bytes
  import opened Coding
  import opened BlockBuilder
  import opened Bloom

  const BASE_LG: nat := 11
  const BASE: nat := 2048

  /** Shifting by four and more. */
  lemma ShiftFour(x: nat, k: nat)
    requires k >= 4
    ensures ShiftRight(x, k) == ShiftRight(x / 16, k - 4)
  {
    assert ShiftRight(x, k) == ShiftRight(x / 2, k - 1);
    assert ShiftRight(x / 2, k - 1) == ShiftRight(x / 2 / 2, k - 2);
    assert ShiftRight(x / 4, k - 2) == ShiftRight(x / 4 / 2, k - 3);
    assert ShiftRight(x / 8, k - 3) == ShiftRight(x / 8 / 2, k - 4);
  }

  lemma ShiftBase(x: nat)
    ensures ShiftRight(x, BASE_LG) == x / BASE
  {
    ShiftFour(x, 11);
    ShiftFour(x / 16, 7);
    ShiftThree(x / 256);
  }

  lemma ShiftThree(y: nat)
    ensures ShiftRight(y, 3) == y / 8
  {
    assert ShiftRight(y, 3) == ShiftRight(y / 2, 2);
    assert ShiftRight(y / 2, 2) == ShiftRight(y / 4, 1);
    assert ShiftRight(y / 4, 1) == ShiftRight(y / 8, 0) == y / 8;
  }

  // ----- reading

  /** What the reader of a filter block answers, for any contents. */
  ghost predicate MayMatchAt(policy: Policy, contents: seq<Byte>, blockOffset: nat, key: seq<Byte>) {
    var n := |contents|;
    if n < 5 || WordOf(contents, n - 5) > n - 5 then true
    else
      var offsets, index := WordOf(contents, n - 5), ShiftRight(blockOffset, contents[n - 1] as int);
      if index >= (n - 5 - offsets) / 4 then true
      else
        var start, limit := WordOf(contents, offsets + 4 * index), WordOf(contents, offsets + 4 * index + 4);
        if start <= limit <= offsets then policy.MayMatch(key, contents[start..limit]) else start != limit
  }

  class FilterBlockReader {
    const policy: Policy
    const contents: seq<Byte>
    const offsets: nat
    const num: nat
    const baseLg: nat

    ghost predicate Valid() {
      var n := |contents|;
      if n < 5 || WordOf(contents, n - 5) > n - 5 then num == 0
      else
        && offsets == WordOf(contents, n - 5) && num == (n - 5 - offsets) / 4 && baseLg == contents[n - 1] as int
    }

    constructor (policy: Policy, contents: seq<Byte>)
      ensures Valid() && this.policy == policy && this.contents == contents
    {
      this.policy, this.contents := policy, contents;
      var n := |contents|;
      if n < 5 || WordOf(contents, n - 5) > n - 5 {
        offsets, num, baseLg := 0, 0, 0;
      } else {
        var last := WordOf(contents, n - 5);
        offsets, num, baseLg := last, (n - 5 - last) / 4, contents[n - 1] as int;
      }
    }

    method KeyMayMatch(blockOffset: nat, key: seq<Byte>) returns (r: bool)
      requires Valid()
      ensures r == MayMatchAt(policy, contents, blockOffset, key)
    {
      var index := ShiftRight(blockOffset, baseLg);
      if index < num {
        var start, limit := WordOf(contents, offsets + 4 * index), WordOf(contents, offsets + 4 * index + 4);
        if start <= limit <= offsets {
          r := policy.KeyMayMatch(key, contents[start..limit]);
          return;
        } else if start == limit {
          return false;
        }
      }
      return true;
    }
  }

  // ----- building

  /** Where filter i ends: at the next one, or at the end of the filters. */
  ghost function LimitOf(offsets: seq<nat>, end: nat, i: nat): nat {
    if i + 1 < |offsets| then offsets[i + 1] else end
  }

  /** Filter i lies in the result and is the filter of its keys, or nothing if it has none. */
  ghost predicate FilterAt(policy: Policy, result: seq<Byte>, offsets: seq<nat>, filters: seq<seq<seq<Byte>>>, i: nat)
    requires i < |offsets| == |filters|
  {
    && offsets[i] <= LimitOf(offsets, |result|, i) <= |result|
    && Admitting(policy, result[offsets[i]..LimitOf(offsets, |result|, i)], filters[i])
  }

  /** The bytes admit just the keys that share all their probes with these. */
  ghost predicate Admitting(policy: Policy, filter: seq<Byte>, keys: seq<seq<Byte>>) {
    forall key :: policy.MayMatch(key, filter) <==> policy.Shares(keys, key)
  }

  ghost predicate Filtered(policy: Policy, result: seq<Byte>, offsets: seq<nat>, filters: seq<seq<seq<Byte>>>) {
    |offsets| == |filters| && forall i: nat :: i < |offsets| ==> FilterAt(policy, result, offsets, filters, i)
  }

  lemma FilteredMore(policy: Policy, result: seq<Byte>, offsets: seq<nat>, filters: seq<seq<seq<Byte>>>,
                     filter: seq<Byte>, keys: seq<seq<Byte>>)
    requires Filtered(policy, result, offsets, filters) && Admitting(policy, filter, keys)
    ensures Filtered(policy, result + filter, offsets + [|result|], filters + [keys])
  {
    var result', offsets', filters' := result + filter, offsets + [|result|], filters + [keys];
    forall i: nat | i < |offsets'| ensures FilterAt(policy, result', offsets', filters', i) {
      if i < |offsets| {
        assert FilterAt(policy, result, offsets, filters, i);
        var start, limit := offsets[i], LimitOf(offsets, |result|, i);
        assert LimitOf(offsets', |result'|, i) == limit;
        assert result'[start..limit] == result[start..limit];
      } else {
        assert result'[|result|..|result'|] == filter;
      }
    }
  }

  /** The contents of a finished filter block. */
  function Contents(result: seq<Byte>, offsets: seq<nat>): seq<Byte>
    requires AreWords(offsets) && |result| < WORD
  {
    result + Words(offsets) + Fixed32(|result|) + [BASE_LG]
  }

  lemma ContentsWord(result: seq<Byte>, offsets: seq<nat>, j: nat)
    requires AreWords(offsets) && |result| < WORD && j <= |offsets|
    ensures |Contents(result, offsets)| == |result| + 4 * |offsets| + 5
    ensures WordOf(Contents(result, offsets), |result| + 4 * j) == if j < |offsets| then offsets[j] else |result|
  {
    var all := offsets + [|result|];
    assert all[..|offsets|] == offsets;
    assert Words(all) == Words(offsets) + Fixed32(|result|);
    assert Contents(result, offsets) == result + Words(all) + [BASE_LG];
    WordAt(all, j);
    RestartBytes(result, Words(all), [BASE_LG], 4 * j, Fixed32(all[j]));
    WordOfIs(Contents(result, offsets), |result| + 4 * j, all[j]);
  }

  lemma ReaderLooks(policy: Policy, contents: seq<Byte>, blockOffset: nat, key: seq<Byte>, offsets: nat, index: nat)
    requires |contents| >= 5 && WordOf(contents, |contents| - 5) == offsets <= |contents| - 5
    requires ShiftRight(blockOffset, contents[|contents| - 1] as int) == index < (|contents| - 5 - offsets) / 4
    requires var start, limit := WordOf(contents, offsets + 4 * index), WordOf(contents, offsets + 4 * index + 4);
      start <= limit <= offsets
    ensures var start, limit := WordOf(contents, offsets + 4 * index), WordOf(contents, offsets + 4 * index + 4);
      MayMatchAt(policy, contents, blockOffset, key) <==> policy.MayMatch(key, contents[start..limit])
  {
  }

  /** What the reader of a block with these filters is to answer: for an offset that a filter
      covers, whether all probes of the key are probes of its keys. */
  ghost predicate Answer(policy: Policy, filters: seq<seq<seq<Byte>>>, blockOffset: nat, key: seq<Byte>) {
    blockOffset / BASE < |filters| ==> policy.Shares(filters[blockOffset / BASE], key)
  }

  /** For all block offsets that filter i covers, the reader admits just the keys filter i
      admits, so every key that was added and none at all if there was none; beyond the last
      filter it admits every key. */
  lemma Admits(policy: Policy, result: seq<Byte>, offsets: seq<nat>, filters: seq<seq<seq<Byte>>>,
               blockOffset: nat, key: seq<Byte>)
    requires Filtered(policy, result, offsets, filters) && AreWords(offsets) && |result| < WORD
    ensures MayMatchAt(policy, Contents(result, offsets), blockOffset, key) <==> Answer(policy, filters, blockOffset, key)
  {
    ShiftBase(blockOffset);
    if blockOffset / BASE < |filters| {
      AdmitsIn(policy, result, offsets, filters, blockOffset, key);
    } else {
      ContentsWord(result, offsets, |offsets|);
    }
  }

  lemma AdmitsIn(policy: Policy, result: seq<Byte>, offsets: seq<nat>, filters: seq<seq<seq<Byte>>>,
                 blockOffset: nat, key: seq<Byte>)
    requires Filtered(policy, result, offsets, filters) && AreWords(offsets) && |result| < WORD
    requires blockOffset / BASE < |filters| && ShiftRight(blockOffset, BASE_LG) == blockOffset / BASE
    ensures MayMatchAt(policy, Contents(result, offsets), blockOffset, key)
      <==> policy.Shares(filters[blockOffset / BASE], key)
  {
    var contents, i := Contents(result, offsets), blockOffset / BASE;
    assert FilterAt(policy, result, offsets, filters, i);
    LaidOut(result, offsets, i);
    var start, limit := offsets[i], LimitOf(offsets, |result|, i);
    assert contents[start..limit] == result[start..limit];
    ReaderLooks(policy, contents, blockOffset, key, |result|, i);
  }

  lemma CoveredAnswer(policy: Policy, filters: seq<seq<seq<Byte>>>, blockOffset: nat, key: seq<Byte>)
    requires Covers(filters, [], blockOffset / BASE, key)
    ensures Answer(policy, filters, blockOffset, key)
  {
    policy.AdmitsOwn(filters[blockOffset / BASE], key);
  }

  /** Where the offsets of filter i and of the end of it are found. */
  lemma LaidOut(result: seq<Byte>, offsets: seq<nat>, i: nat)
    requires AreWords(offsets) && |result| < WORD && i < |offsets|
    ensures var contents := Contents(result, offsets);
      && |contents| == |result| + 4 * |offsets| + 5 && contents[|contents| - 1] as int == BASE_LG
      && WordOf(contents, |contents| - 5) == |result|
      && WordOf(contents, |result| + 4 * i) == offsets[i]
      && WordOf(contents, |result| + 4 * i + 4) == LimitOf(offsets, |result|, i)
  {
    ContentsWord(result, offsets, |offsets|);
    ContentsWord(result, offsets, i);
    ContentsWord(result, offsets, i + 1);
  }

  /** The key is in filter i, or will be when that is made. */
  ghost predicate Covers(filters: seq<seq<seq<Byte>>>, pending: seq<seq<Byte>>, i: nat, key: seq<Byte>) {
    if i < |filters| then key in filters[i] else i == |filters| && key in pending
  }

  class FilterBlockBuilder {
    const policy: Policy
    var keys: seq<Byte>
    var start: seq<nat>
    var result: seq<Byte>
    var filterOffsets: seq<nat>
    ghost var pending: seq<seq<Byte>>
    ghost var filters: seq<seq<seq<Byte>>>

    ghost predicate Valid()
      reads this
    {
      && Filtered(policy, result, filterOffsets, filters) && |start| == |pending|
      && (forall i: nat :: i < |start| ==> KeyAt(keys, start, i, pending[i]))
    }

    constructor (policy: Policy)
      ensures Valid() && this.policy == policy && pending == [] && filters == []
    {
      this.policy, keys, start, result, filterOffsets, pending, filters := policy, [], [], [], [], [], [];
    }

    method AddKey(key: seq<Byte>)
      requires Valid()
      modifies this`keys, this`start, this`pending
      ensures Valid() && pending == old(pending) + [key]
    {
      ghost var before := keys;
      start := start + [|keys|];
      keys := keys + key;
      pending := pending + [key];
      forall i: nat | i < |start| ensures KeyAt(keys, start, i, pending[i]) {
        if i < |old(start)| {
          assert KeyAt(before, old(start), i, old(pending)[i]);
          KeyExtends(before, old(start), i, old(pending)[i], key);
        }
      }
    }

    /** Make the filter of the pending keys. */
    method GenerateFilter()
      requires Valid()
      modifies this
      ensures Valid() && pending == [] && filters == old(filters) + [old(pending)]
    {
      if |start| == 0 {
        forall key ensures policy.MayMatch(key, []) <==> policy.Shares([], key) { policy.AdmitsNone(key); }
        FilteredMore(policy, result, filterOffsets, filters, [], []);
        assert result + [] == result;
        filterOffsets, filters := filterOffsets + [|result|], filters + [[]];
        return;
      }
      var tmp := Flattened(keys, start, pending);
      var filter := policy.CreateFilter(tmp);
      FilteredMore(policy, result, filterOffsets, filters, filter, pending);
      filterOffsets := filterOffsets + [|result|];
      result := result + filter;
      filters := filters + [pending];
      keys, start, pending := [], [], [];
    }

    /** A block starts at the given offset: make filters until its own is next. */
    method StartBlock(blockOffset: nat)
      requires Valid() && blockOffset / BASE >= |filterOffsets|
      modifies this
      ensures Valid() && |filters| == blockOffset / BASE
      ensures forall i: nat, key :: Covers(old(filters), old(pending), i, key) <==> Covers(filters, pending, i, key)
    {
      var index := blockOffset / BASE;
      while index > |filterOffsets|
        invariant Valid() && index >= |filterOffsets|
        invariant forall i: nat, key :: Covers(old(filters), old(pending), i, key) <==> Covers(filters, pending, i, key)
      {
        ghost var filters0, pending0 := filters, pending;
        GenerateFilter();
        CoversOn(filters0, pending0);
      }
    }

    /** Make the last filter and append the offsets as 32-bit words; a block of less than
        4 GB admits all that was added, and just what the filters admit. */
    method Finish() returns (contents: seq<Byte>)
      requires Valid()
      modifies this
      ensures |result| <= |contents|
      ensures filters == if old(pending) == [] then old(filters) else old(filters) + [old(pending)]
      ensures |result| < WORD ==> forall off: nat, key :: MayMatchAt(policy, contents, off, key) <==> Answer(policy, filters, off, key)
      ensures |result| < WORD ==>
        forall off: nat, key :: Covers(old(filters), old(pending), off / BASE, key) ==> MayMatchAt(policy, contents, off, key)
    {
      ghost var filters0, pending0 := filters, pending;
      if start != [] {
        GenerateFilter();
        CoversOn(filters0, pending0);
      }
      contents := AppendOffsets(result, filterOffsets);
      if |result| < WORD {
        OffsetsFit(policy, result, filterOffsets, filters);
        forall off: nat, key ensures MayMatchAt(policy, contents, off, key) <==> Answer(policy, filters, off, key) {
          Admits(policy, result, filterOffsets, filters, off, key);
        }
        forall off: nat, key | Covers(filters0, pending0, off / BASE, key) ensures MayMatchAt(policy, contents, off, key) {
          CoveredAnswer(policy, filters, off, key);
        }
      }
    }
  }

  lemma WordsStep(offsets: seq<nat>, i: nat)
    requires AreWords(offsets) && i < |offsets|
    ensures Words(offsets[..i + 1]) == Words(offsets[..i]) + Fixed32(offsets[i])
  {
    assert offsets[..i + 1][..i] == offsets[..i];
  }

  method AppendOffsets(result: seq<Byte>, offsets: seq<nat>) returns (contents: seq<Byte>)
    ensures |result| <= |contents| && (|result| < WORD && AreWords(offsets) ==> contents == Contents(result, offsets))
  {
    contents := result;
    ghost var fits := AreWords(offsets);
    for i := 0 to |offsets|
      invariant |result| <= |contents|
      invariant fits ==> contents == result + Words(offsets[..i])
    {
      if fits { WordsStep(offsets, i); }
      contents := contents + Fixed32(LowWord(offsets[i]));
    }
    assert offsets[..|offsets|] == offsets;
    contents := contents + Fixed32(LowWord(|result|)) + [BASE_LG];
  }

  lemma OffsetsFit(policy: Policy, result: seq<Byte>, offsets: seq<nat>, filters: seq<seq<seq<Byte>>>)
    requires Filtered(policy, result, offsets, filters) && |result| < WORD
    ensures AreWords(offsets)
  {
    forall i: nat | i < |offsets| ensures offsets[i] < WORD {
      assert FilterAt(policy, result, offsets, filters, i);
    }
  }

  lemma CoversOn(filters: seq<seq<seq<Byte>>>, pending: seq<seq<Byte>>)
    ensures forall i: nat, key :: Covers(filters, pending, i, key) <==> Covers(filters + [pending], [], i, key)
  {
  }

  /** Key i of a list of keys stored one after the other. */
  ghost predicate KeyAt(keys: seq<Byte>, start: seq<nat>, i: nat, key: seq<Byte>)
    requires i < |start|
  {
    start[i] <= LimitOf(start, |keys|, i) <= |keys| && keys[start[i]..LimitOf(start, |keys|, i)] == key
  }

  lemma KeyExtends(keys: seq<Byte>, start: seq<nat>, i: nat, key: seq<Byte>, more: seq<Byte>)
    requires i < |start| && KeyAt(keys, start, i, key)
    ensures KeyAt(keys + more, start + [|keys|], i, key)
  {
    assert LimitOf(start + [|keys|], |keys + more|, i) == LimitOf(start, |keys|, i);
    assert (keys + more)[start[i]..LimitOf(start, |keys|, i)] == keys[start[i]..LimitOf(start, |keys|, i)];
  }

  method Flattened(keys: seq<Byte>, start0: seq<nat>, ghost pending: seq<seq<Byte>>) returns (tmp: seq<seq<Byte>>)
    requires |start0| == |pending| && forall i: nat :: i < |start0| ==> KeyAt(keys, start0, i, pending[i])
    ensures tmp == pending
  {
    var start := start0 + [|keys|];
    tmp := [];
    for i := 0 to |start0|
      invariant tmp == pending[..i]
    {
      assert KeyAt(keys, start0, i, pending[i]);
      tmp := tmp + [keys[start[i]..start[i + 1]]];
    }
  }
}
