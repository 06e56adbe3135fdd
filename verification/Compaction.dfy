/** The drop rule of a compaction: which entries of the merged inputs are written out. */
module Compaction {
  import opened Wrappers
  import opened Bits
  import opened Bytes
  import opened Keys

  const MAX_SEQUENCE: nat := 0xff_ffff_ffff_ffff

  /** An entry of the input; a key that does not parse has a user part all the same. */
  datatype Item = Item(key: IKey, value: seq<Byte>, parses: bool)

  /** A reader at sequence number s sees this entry of user key u. */
  predicate Seen(e: Item, u: seq<Byte>, s: nat) {
    e.parses && e.key.user == u && e.key.Sequence() <= s
  }

  /** The first entry of a list that the reader sees; in a sorted list that is the newest. */
  function FirstSeen(items: seq<Item>, u: seq<Byte>, s: nat): (r: Option<Item>)
    ensures r.Some? ==> r.value in items && Seen(r.value, u, s)
  {
    if items == [] then None
    else
      var n := |items| - 1;
      var r := FirstSeen(items[..n], u, s);
      if r.Some? then r else if Seen(items[n], u, s) then Some(items[n]) else None
  }

  ghost predicate SortedItems(items: seq<Item>) {
    forall i: nat, j: nat :: i < j < |items| ==> ILess(items[i].key, items[j].key)
  }

  /** In a sorted list the first entry seen is the newest one, and there is one whenever any
      entry is seen. */
  lemma {:induction false} FirstSeenIsNewest(items: seq<Item>, u: seq<Byte>, s: nat, j: nat)
    requires SortedItems(items) && j < |items| && Seen(items[j], u, s)
    ensures FirstSeen(items, u, s).Some? && items[j].key.tag <= FirstSeen(items, u, s).value.key.tag
  {
    var n := |items| - 1;
    var r := FirstSeen(items[..n], u, s);
    if j < n {
      FirstSeenIsNewest(items[..n], u, s, j);
    } else if r.Some? {
      var i: nat :| i < n && items[..n][i] == r.value;
      assert ILess(items[i].key, items[j].key);
      LessIrreflexive(u);
    }
  }

  lemma LessIrreflexive(a: seq<Byte>)
    ensures !Less(a, a)
  {
    if Less(a, a) { LessAsymmetric(a, a); }
  }

  lemma FirstSeenMore(items: seq<Item>, e: Item, u: seq<Byte>, s: nat)
    ensures FirstSeen(items + [e], u, s)
      == var r := FirstSeen(items, u, s); if r.Some? then r else if Seen(e, u, s) then Some(e) else None
  {
    assert (items + [e])[..|items|] == items;
  }

  /** The state of the loop: the user key it is in and the sequence number last seen there. */
  datatype State = State(user: Option<seq<Byte>>, last: nat)

  /** Up to a point of the input, the output serves every reader that may come as well. */
  ghost predicate Serves(input: seq<Item>, output: seq<Item>, smallest: nat, isInput: seq<Byte> -> bool) {
    forall u, s: nat :: isInput(u) && smallest <= s ==> FirstSeen(output, u, s) == FirstSeen(input, u, s)
  }

  /** When the last entry of the current user key is old enough, every reader sees one. */
  ghost predicate Shadowed(input: seq<Item>, st: State, smallest: nat) {
    st.user.Some? && st.last <= smallest ==>
      forall s: nat :: smallest <= s ==> FirstSeen(input, st.user.value, s).Some?
  }

  /** The output is part of the input, in order. */
  ghost predicate Part(output: seq<Item>, at: seq<nat>, input: seq<Item>) {
    && |at| == |output| && (forall i: nat :: i < |output| ==> at[i] < |input| && output[i] == input[at[i]])
    && forall i: nat, j: nat :: i < j < |output| ==> at[i] < at[j]
  }

  function NextState(st: State, e: Item): State {
    if e.parses then State(Some(e.key.user), e.key.Sequence()) else State(None, MAX_SEQUENCE)
  }

  /** The sequence number of the entry before, if that has the same user key. */
  function LastFor(st: State, e: Item): nat {
    if st.user == Some(e.key.user) then st.last else MAX_SEQUENCE
  }

  lemma DropServes(input: seq<Item>, output: seq<Item>, smallest: nat, isInput: seq<Byte> -> bool, e: Item, st: State)
    requires Serves(input, output, smallest, isInput) && Shadowed(input, st, smallest) && smallest < MAX_SEQUENCE
    requires !isInput(e.key.user) || (e.parses && LastFor(st, e) <= smallest)
    ensures Serves(input + [e], output, smallest, isInput)
  {
    forall u, s: nat | isInput(u) && smallest <= s ensures FirstSeen(output, u, s) == FirstSeen(input + [e], u, s) {
      FirstSeenMore(input, e, u, s);
    }
  }

  lemma KeepServes(input: seq<Item>, output: seq<Item>, smallest: nat, isInput: seq<Byte> -> bool, e: Item)
    requires Serves(input, output, smallest, isInput)
    ensures Serves(input + [e], output + [e], smallest, isInput)
  {
    forall u, s: nat | isInput(u) && smallest <= s ensures FirstSeen(output + [e], u, s) == FirstSeen(input + [e], u, s) {
      FirstSeenMore(input, e, u, s);
      FirstSeenMore(output, e, u, s);
    }
  }

  lemma NextShadowed(input: seq<Item>, st: State, smallest: nat, e: Item)
    requires smallest < MAX_SEQUENCE
    ensures Shadowed(input + [e], NextState(st, e), smallest)
  {
    var st' := NextState(st, e);
    if st'.user.Some? && st'.last <= smallest {
      forall s: nat | smallest <= s ensures FirstSeen(input + [e], st'.user.value, s).Some? {
        FirstSeenMore(input, e, st'.user.value, s);
      }
    }
  }

  /** One turn of the loop. */
  lemma StepServes(input: seq<Item>, output: seq<Item>, smallest: nat, isInput: seq<Byte> -> bool, e: Item, st: State, drop: bool)
    requires smallest < MAX_SEQUENCE && Serves(input, output, smallest, isInput) && Shadowed(input, st, smallest)
    requires drop == (!isInput(e.key.user) || (e.parses && LastFor(st, e) <= smallest))
    ensures Serves(input + [e], if drop then output else output + [e], smallest, isInput)
    ensures Shadowed(input + [e], NextState(st, e), smallest)
  {
    NextShadowed(input, st, smallest, e);
    if drop {
      DropServes(input, output, smallest, isInput, e, st);
    } else {
      KeepServes(input, output, smallest, isInput, e);
    }
  }

  /** The drop rule: the index names another file for the user key, or the entry before has
      the same user key and is visible to every reader. */
  ghost predicate Drops(input: seq<Item>, n: nat, smallest: nat, isInput: seq<Byte> -> bool)
    requires n < |input|
  {
    !isInput(input[n].key.user) || (input[n].parses && LastFor(StateAt(input, n), input[n]) <= smallest)
  }

  /** The loop remembers only the entry before. */
  ghost function StateAt(input: seq<Item>, n: nat): State
    requires n <= |input|
  {
    if n == 0 then State(None, MAX_SEQUENCE) else NextState(State(None, MAX_SEQUENCE), input[n - 1])
  }

  /** The largest sequence number is no snapshot: everything would be dropped. */
  lemma MaxSnapshotDropsAll(input: seq<Item>, n: nat, smallest: nat, isInput: seq<Byte> -> bool)
    requires n < |input| && input[n].parses && smallest >= MAX_SEQUENCE
    requires n > 0 ==> input[n - 1].key.Sequence() <= MAX_SEQUENCE
    ensures Drops(input, n, smallest, isInput)
  {
  }

  /** Of each user key the output has at most one entry that every reader sees. */
  lemma OneOld(input: seq<Item>, output: seq<Item>, at: seq<nat>, smallest: nat, isInput: seq<Byte> -> bool, i: nat, j: nat)
    requires SortedItems(input) && (forall n: nat :: n < |input| ==> input[n].parses) && Part(output, at, input)
    requires forall n: nat :: n < |input| && n in at ==> !Drops(input, n, smallest, isInput)
    requires i < j < |output| && output[i].key.user == output[j].key.user
    ensures output[i].key.Sequence() > smallest
  {
    var a, b := at[i], at[j];
    assert output[i] == input[a] && output[j] == input[b] && a < b;
    assert b in at && !Drops(input, b, smallest, isInput);
    Between(input, a, b - 1, b);
  }

  /** Entries between two of the same user key have that user key and are in between in age. */
  lemma Between(input: seq<Item>, a: nat, n: nat, b: nat)
    requires SortedItems(input) && a <= n < b < |input| && input[a].key.user == input[b].key.user
    ensures input[n].key.user == input[a].key.user && input[n].key.Sequence() <= input[a].key.Sequence()
  {
    assert ILess(input[n].key, input[b].key) && (a < n ==> ILess(input[a].key, input[n].key));
    if a < n && Less(input[a].key.user, input[n].key.user) {
      LessAsymmetric(input[a].key.user, input[n].key.user);
    }
    if Less(input[n].key.user, input[b].key.user) {
      LessAsymmetric(input[n].key.user, input[b].key.user);
    }
  }

  /** What the loop has kept of the first n entries: a part of them, in order, and just those
      that the rule does not drop. */
  ghost predicate Kept(input: seq<Item>, n: nat, output: seq<Item>, at: seq<nat>, smallest: nat, isInput: seq<Byte> -> bool) {
    forall u {:trigger UnfoldAt(at, u)} :: UnfoldAt(at, u) ==>
      && n <= |input| && Part(output, at, input) && (forall m: nat :: n <= m ==> m !in at)
      && forall m: nat :: m < n ==> (m in at <==> !Drops(input, m, smallest, isInput))
  }

  lemma KeptStep(input: seq<Item>, n: nat, output: seq<Item>, at: seq<nat>, smallest: nat, isInput: seq<Byte> -> bool)
    requires Kept(input, n, output, at, smallest, isInput) && n < |input|
    ensures Drops(input, n, smallest, isInput) ==> Kept(input, n + 1, output, at, smallest, isInput)
    ensures !Drops(input, n, smallest, isInput) ==> Kept(input, n + 1, output + [input[n]], at + [n], smallest, isInput)
  {
    assert UnfoldAt(at, 0);
    if !Drops(input, n, smallest, isInput) { PartMore(input, n, output, at); }
  }

  lemma PartMore(input: seq<Item>, n: nat, output: seq<Item>, at: seq<nat>)
    requires Part(output, at, input) && n < |input| && forall m: nat :: n <= m ==> m !in at
    ensures Part(output + [input[n]], at + [n], input)
  {
    forall i: nat, j: nat | i < j < |at + [n]| ensures (at + [n])[i] < (at + [n])[j] {
      assert at[i] in at;
    }
  }

  /** Whether the loop drops an entry, and what it remembers of it. */
  method Decide(e: Item, current0: Option<seq<Byte>>, last0: nat, smallest: nat, isInput: seq<Byte> -> bool)
    returns (drop: bool, current: Option<seq<Byte>>, last: nat)
    ensures State(current, last) == NextState(State(current0, last0), e)
    ensures drop == (!isInput(e.key.user) || (e.parses && LastFor(State(current0, last0), e) <= smallest))
  {
    drop, current, last := false, current0, last0;
    if !e.parses {
      current, last := None, MAX_SEQUENCE;
    } else {
      if current != Some(e.key.user) {
        current, last := Some(e.key.user), MAX_SEQUENCE;
      }
      if last <= smallest {
        drop := true;
      }
      last := e.key.Sequence();
    }
    if !isInput(e.key.user) {
      drop := true;
    }
  }

  /** The output serves every reader so far, if the snapshot is one. */
  ghost predicate ServesSo(input: seq<Item>, n: nat, output: seq<Item>, st: State, smallest: nat, isInput: seq<Byte> -> bool) {
    forall u {:trigger UnfoldAt(st, u)} :: UnfoldAt(st, u) ==>
      (n <= |input| && smallest < MAX_SEQUENCE ==>
        Serves(input[..n], output, smallest, isInput) && Shadowed(input[..n], st, smallest))
  }

  lemma ServesOn(input: seq<Item>, n: nat, output: seq<Item>, st: State, smallest: nat, isInput: seq<Byte> -> bool)
    requires n < |input| && ServesSo(input, n, output, st, smallest, isInput) && st == StateAt(input, n)
    ensures ServesSo(input, n + 1, if Drops(input, n, smallest, isInput) then output else output + [input[n]],
                     NextState(st, input[n]), smallest, isInput)
  {
    assert UnfoldAt(st, 0);
    assert input[..n + 1] == input[..n] + [input[n]];
    if smallest < MAX_SEQUENCE {
      StepServes(input[..n], output, smallest, isInput, input[n], st, Drops(input, n, smallest, isInput));
    }
  }

  lemma NothingYet(input: seq<Item>, st: State, smallest: nat, isInput: seq<Byte> -> bool)
    requires st.user.None?
    ensures ServesSo(input, 0, [], st, smallest, isInput) && Kept(input, 0, [], [], smallest, isInput)
  {
  }

  /** The loop over the merged inputs. */
  method WorkLoop(input: seq<Item>, smallest: nat, isInput: seq<Byte> -> bool)
    returns (output: seq<Item>, ghost at: seq<nat>, ghost st: State)
    ensures ServesSo(input, |input|, output, st, smallest, isInput) && Kept(input, |input|, output, at, smallest, isInput)
  {
    output, at := [], [];
    var current: Option<seq<Byte>>, last: nat := None, MAX_SEQUENCE;
    NothingYet(input, State(current, last), smallest, isInput);
    for n := 0 to |input|
      invariant n <= |input| && ServesSo(input, n, output, State(current, last), smallest, isInput)
      invariant Kept(input, n, output, at, smallest, isInput) && State(current, last) == StateAt(input, n)
    {
      st := State(current, last);
      KeptStep(input, n, output, at, smallest, isInput);
      ServesOn(input, n, output, st, smallest, isInput);
      var drop;
      drop, current, last := Decide(input[n], current, last, smallest, isInput);
      if !drop {
        output, at := output + [input[n]], at + [n];
      }
    }
    st := State(current, last);
  }

  /** Every reader at or above the smallest snapshot finds, for a user key whose index entry
      names an input file, the same newest entry in the output as in the input; other user
      keys leave nothing. */
  method DoCompactionWork(input: seq<Item>, smallest: nat, isInput: seq<Byte> -> bool)
    returns (output: seq<Item>, ghost at: seq<nat>)
    ensures smallest < MAX_SEQUENCE ==> Serves(input, output, smallest, isInput)
    ensures forall i: nat :: i < |output| ==> isInput(output[i].key.user)
    ensures Part(output, at, input)
    ensures forall n: nat :: n < |input| ==> (n in at <==> !Drops(input, n, smallest, isInput))
  {
    ghost var st;
    output, at, st := WorkLoop(input, smallest, isInput);
    KeptIs(input, output, at, smallest, isInput);
    assert UnfoldAt(st, 0);
    assert input[..|input|] == input;
  }

  lemma KeptIs(input: seq<Item>, output: seq<Item>, at: seq<nat>, smallest: nat, isInput: seq<Byte> -> bool)
    requires Kept(input, |input|, output, at, smallest, isInput)
    ensures Part(output, at, input) && forall i: nat :: i < |output| ==> isInput(output[i].key.user)
    ensures forall n: nat :: n < |input| ==> (n in at <==> !Drops(input, n, smallest, isInput))
  {
    assert UnfoldAt(at, 0);
    forall i: nat | i < |output| ensures isInput(output[i].key.user) {
      assert at[i] in at && !Drops(input, at[i], smallest, isInput);
    }
  }
}
