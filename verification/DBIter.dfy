/** The user-level iterator: it walks a sorted sequence of versioned entries and shows
    one value per user key.  User keys are integers in the order of the comparator. */
module DBIter {

  datatype Type = Deletion | Value

  /** An internal key with its value. */
  datatype Entry = Entry(user: int, seqno: nat, kind: Type, value: string)

  /** Increasing user keys, and decreasing sequence numbers within a user key. */
  ghost predicate Ordered(es: seq<Entry>) {
    forall i: nat, j: nat :: i < j < |es| ==>
      es[i].user < es[j].user || (es[i].user == es[j].user && es[i].seqno > es[j].seqno)
  }

  ghost predicate Visible(es: seq<Entry>, s: nat, i: nat)
    requires i < |es|
  {
    es[i].seqno <= s
  }

  /** Entry i is the newest visible one of its user key, and it is a value. */
  ghost predicate Yields(es: seq<Entry>, s: nat, i: nat) {
    && i < |es| && Visible(es, s, i) && es[i].kind == Value
    && (forall j: nat :: j < i && es[j].user == es[i].user ==> !Visible(es, s, j))
  }

  // ----- what is shown, in terms of reads

  /** The newest version of a user key at a sequence number. */
  ghost predicate Newest(es: seq<Entry>, s: nat, user: int, i: nat) {
    && i < |es| && es[i].user == user && es[i].seqno <= s
    && (forall j: nat :: j < |es| && es[j].user == user && es[j].seqno <= s ==> es[j].seqno <= es[i].seqno)
  }

  /** The entries shown are exactly the newest versions that are values. */
  lemma YieldsIsNewestValue(es: seq<Entry>, s: nat, i: nat)
    requires Ordered(es) && i < |es|
    ensures Yields(es, s, i) <==> Newest(es, s, es[i].user, i) && es[i].kind == Value
  {
    if Yields(es, s, i) {
      forall j: nat | j < |es| && es[j].user == es[i].user && es[j].seqno <= s ensures es[j].seqno <= es[i].seqno {
        assert j < i ==> !Visible(es, s, j) || j >= i;
      }
    }
    if Newest(es, s, es[i].user, i) && es[i].kind == Value {
      forall j: nat | j < i && es[j].user == es[i].user ensures !Visible(es, s, j) {
        assert es[j].seqno > es[i].seqno;
      }
    }
  }

  /** They come in strictly increasing user key order, so each user key once. */
  lemma YieldsIncreasing(es: seq<Entry>, s: nat, i: nat, j: nat)
    requires Ordered(es) && Yields(es, s, i) && Yields(es, s, j) && i < j
    ensures es[i].user < es[j].user
  {
    if es[i].user == es[j].user {
      assert false;
    }
  }

  ghost predicate NoneIn(es: seq<Entry>, s: nat, from: int, to: int) {
    forall j: nat :: from < j < to ==> !Yields(es, s, j)
  }

  class DBIter {
    const es: seq<Entry>
    const sequence: nat
    var pos: int          // the inner iterator; negative when it is not valid
    var forward: bool
    var valid: bool
    var savedKey: int
    var savedValue: string
    ghost var cur: int    // the entry shown, when valid

    ghost predicate Valid()
      reads this
    {
      && Ordered(es) && -1 <= pos < |es|
      && (valid ==> 0 <= cur && Yields(es, sequence, cur))
      && (valid && forward ==> pos == cur)
      && (valid && !forward ==>
            && pos < cur && savedKey == es[cur].user && savedValue == es[cur].value
            && (pos >= 0 ==> es[pos].user < savedKey)
            && (forall j: nat :: pos < j < cur ==> !Visible(es, sequence, j)))
    }

    constructor (es: seq<Entry>, sequence: nat)
      requires Ordered(es)
      ensures Valid() && !valid && this.es == es && this.sequence == sequence
    {
      this.es, this.sequence := es, sequence;
      pos, forward, valid, savedKey, savedValue := -1, true, false, 0, "";
      cur := -1;
    }

    function Key(): (k: int)
      requires Valid() && valid
      reads this
      ensures k == es[cur].user
    {
      if forward then es[pos].user else savedKey
    }

    function Val(): (v: string)
      requires Valid() && valid
      reads this
      ensures v == es[cur].value
    {
      if forward then es[pos].value else savedValue
    }

    method InnerNext()
      requires 0 <= pos < |es|
      modifies this`pos
      ensures pos == if old(pos) + 1 < |es| then old(pos) + 1 else -1
    {
      pos := if pos + 1 < |es| then pos + 1 else -1;
    }

    /** Move forward to the first entry to show beyond user key `bound`.  The ghost bound is
        the key to skip, or any key below everything ahead when nothing is to be skipped. */
    method FindNextUserEntry(skipping0: bool, ghost bound: int)
      requires Ordered(es) && 0 <= pos < |es| && forward
      requires forall j: nat :: j < pos && Visible(es, sequence, j) ==> es[j].user <= bound
      requires forall j: nat :: pos <= j < |es| && Visible(es, sequence, j) ==> es[j].user >= bound
      requires if skipping0 then savedKey == bound else forall j: nat :: pos <= j < |es| ==> es[j].user > bound
      modifies this`pos, this`valid, this`savedKey, this`cur
      ensures Valid()
      ensures valid ==> es[cur].user > bound && forall j: nat :: j < cur && Yields(es, sequence, j) ==> es[j].user <= bound
      ensures !valid ==> forall j: nat :: j < |es| && Yields(es, sequence, j) ==> es[j].user <= bound
    {
      var skipping := skipping0;
      ghost var g := bound;
      ghost var i := pos;
      while true
        invariant 0 <= pos < |es| && i == pos && forward
        invariant bound <= g && (skipping ==> savedKey == g)
        invariant !skipping ==> g == bound && forall j: nat :: pos <= j < |es| ==> es[j].user > bound
        invariant forall j: nat :: j < pos && Visible(es, sequence, j) ==> es[j].user <= g
        invariant forall j: nat :: pos <= j < |es| && Visible(es, sequence, j) ==> es[j].user >= g
        invariant g != bound ==> exists d: nat :: d < pos && es[d].user == g && Visible(es, sequence, d) && es[d].kind == Deletion
        invariant forall j: nat :: j < pos && Yields(es, sequence, j) ==> es[j].user <= bound
        decreases |es| - i
      {
        var e := es[pos];
        if e.seqno <= sequence {
          if e.kind == Deletion {
            g := e.user;
            savedKey := e.user;
            skipping := true;
          } else if skipping && e.user <= savedKey {
            // hidden
          } else {
            valid := true;
            cur := pos;
            return;
          }
        }
        InnerNext();
        i := i + 1;
        if pos < 0 {
          break;
        }
      }
      valid := false;
    }

    /** Move backward to the last entry to show at or before the inner position. */
    method FindPrevUserEntry()
      requires Ordered(es) && -1 <= pos < |es| && !forward
      modifies this
      ensures Valid()
      ensures valid ==> !forward && cur <= old(pos) && NoneIn(es, sequence, cur, old(pos) + 1)
      ensures !valid ==> NoneIn(es, sequence, -1, old(pos) + 1)
    {
      var kind := Deletion;
      ghost var p0, d := pos, pos + 1;
      while pos >= 0
        invariant -1 <= pos <= p0 < |es| && pos < d <= p0 + 1 && !forward
        invariant d <= p0 ==> Visible(es, sequence, d) && es[d].kind == kind
        invariant d > p0 ==> kind == Deletion
        invariant kind == Value ==> savedKey == es[d].user && savedValue == es[d].value
        invariant forall j: nat :: pos < j < d ==> !Visible(es, sequence, j)
        invariant NoneIn(es, sequence, d, p0 + 1)
        decreases pos
      {
        var e := es[pos];
        if e.seqno <= sequence {
          if kind == Value && e.user < savedKey {
            break;
          }
          assert kind == Value ==> e.user == es[d].user;
          assert d <= p0 && kind == Value ==> !Yields(es, sequence, d);
          d := pos;
          kind := e.kind;
          if kind == Deletion {
            savedKey, savedValue := 0, "";
          } else {
            savedKey, savedValue := e.user, e.value;
          }
        }
        pos := pos - 1;
      }
      if kind == Deletion {
        valid, savedKey, savedValue, forward := false, 0, "", true;
      } else {
        valid := true;
        cur := d;
      }
    }

    /** The entry shown next is the first one to show after the current one. */
    method Next()
      requires Valid() && valid
      modifies this
      ensures Valid()
      ensures valid ==> cur > old(cur) && NoneIn(es, sequence, old(cur), cur)
      ensures !valid ==> NoneIn(es, sequence, old(cur), |es|)
    {
      ghost var c := cur;
      ghost var key := es[cur].user;
      if !forward {
        forward := true;
        if pos < 0 {
          pos := if |es| > 0 then 0 else -1;
        } else {
          InnerNext();
        }
        // moving ahead from before the current key never runs off the end
        assert pos >= 0;
      } else {
        savedKey := es[pos].user;
      }
      FindNextUserEntry(true, key);
      AfterKey(es, sequence, c);
    }

    /** The entry shown next is the last one to show before the current one. */
    method Prev()
      requires Valid() && valid
      modifies this
      ensures Valid()
      ensures valid ==> cur < old(cur) && NoneIn(es, sequence, cur, old(cur))
      ensures !valid ==> NoneIn(es, sequence, -1, old(cur))
    {
      ghost var c := cur;
      if forward {
        savedKey := es[pos].user;
        while true
          invariant 0 <= pos <= c && forward && valid && savedKey == es[c].user
          invariant forall j: nat :: pos <= j <= c ==> es[j].user == savedKey
          decreases pos
        {
          pos := pos - 1;
          if pos < 0 {
            valid := false;
            savedValue := "";
            return;
          }
          if es[pos].user < savedKey {
            break;
          }
        }
        forward := false;
      }
      FindPrevUserEntry();
    }

    /** The first entry to show with a user key at or after the target. */
    method Seek(target: int)
      requires Valid()
      modifies this
      ensures Valid()
      ensures valid ==> es[cur].user >= target && forall j: nat :: j < cur && Yields(es, sequence, j) ==> es[j].user < target
      ensures !valid ==> forall j: nat :: j < |es| && Yields(es, sequence, j) ==> es[j].user < target
    {
      forward := true;
      savedValue := "";
      pos := InnerSeek(es, target, sequence);
      if pos >= 0 {
        FindNextUserEntry(false, target - 1);
      } else {
        valid := false;
      }
    }

    method SeekToFirst()
      requires Valid()
      modifies this
      ensures Valid()
      ensures valid ==> NoneIn(es, sequence, -1, cur)
      ensures !valid ==> NoneIn(es, sequence, -1, |es|)
    {
      forward := true;
      savedValue := "";
      pos := if |es| > 0 then 0 else -1;
      if pos >= 0 {
        FindNextUserEntry(false, es[0].user - 1);
      } else {
        valid := false;
      }
    }

    method SeekToLast()
      requires Valid()
      modifies this
      ensures Valid()
      ensures valid ==> NoneIn(es, sequence, cur, |es|)
      ensures !valid ==> NoneIn(es, sequence, -1, |es|)
    {
      forward := false;
      savedValue := "";
      pos := |es| - 1;
      FindPrevUserEntry();
    }
  }

  /** The inner seek: to the first entry not before (target, s) in the internal order. */
  method InnerSeek(es: seq<Entry>, target: int, s: nat) returns (p: int)
    requires Ordered(es)
    ensures -1 <= p < |es|
    ensures forall j: nat :: j < |es| && (p < 0 || j < p) ==> es[j].user < target || (es[j].user == target && es[j].seqno > s)
    ensures p >= 0 ==> es[p].user > target || (es[p].user == target && es[p].seqno <= s)
  {
    p := 0;
    while p < |es| && (es[p].user < target || (es[p].user == target && es[p].seqno > s))
      invariant 0 <= p <= |es|
      invariant forall j: nat :: j < p ==> es[j].user < target || (es[j].user == target && es[j].seqno > s)
    {
      p := p + 1;
    }
    if p == |es| {
      p := -1;
    }
  }

  /** What is shown beyond the key of entry c is what is shown after entry c. */
  lemma AfterKey(es: seq<Entry>, s: nat, c: nat)
    requires Ordered(es) && Yields(es, s, c)
    ensures forall j: nat :: j < |es| && Yields(es, s, j) ==> (es[j].user <= es[c].user <==> j <= c)
  {
    forall j: nat | j < |es| && Yields(es, s, j) ensures es[j].user <= es[c].user <==> j <= c {
      if j < c { YieldsIncreasing(es, s, j, c); }
      if c < j { YieldsIncreasing(es, s, c, j); }
    }
  }
}
