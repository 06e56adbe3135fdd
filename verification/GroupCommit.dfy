/** Group commit: writers queue up, the one at the front leads and writes the batches of a
    prefix of the queue as one, with consecutive sequence numbers. */
module GroupCommit {
  import opened Wrappers

  type Op = int

  /** A queued write. No batch means a request for a compaction. */
  datatype Writer = Writer(batch: Option<seq<Op>>, size: nat, sync: bool)

  function OpsOf(w: Writer): seq<Op> {
    if w.batch.Some? then w.batch.value else []
  }

  /** The operations of several writers, in order. */
  function AllOps(ws: seq<Writer>): seq<Op> {
    if ws == [] then [] else AllOps(ws[..|ws| - 1]) + OpsOf(ws[|ws| - 1])
  }

  function SizeOf(w: Writer): nat {
    if w.batch.Some? then w.size else 0
  }

  function AllSizes(ws: seq<Writer>): nat {
    if ws == [] then 0 else AllSizes(ws[..|ws| - 1]) + SizeOf(ws[|ws| - 1])
  }

  const MAX_GROUP: nat := 1048576
  const SMALL: nat := 131072

  function MaxSize(size: nat): nat {
    if size <= SMALL then size + SMALL else MAX_GROUP
  }

  /** Whether writer i may join the group of those before it. */
  ghost predicate Joins(ws: seq<Writer>, i: nat)
    requires 0 < i < |ws|
  {
    && !(ws[i].sync && !ws[0].sync)
    && (ws[i].batch.Some? ==> AllSizes(ws[..i + 1]) <= MaxSize(ws[0].size))
  }

  /** The group of a queue is the longest prefix in which everyone may join. */
  ghost predicate IsGroup(ws: seq<Writer>, k: nat) {
    && 1 <= k <= |ws| && (forall i: nat :: 0 < i < k ==> Joins(ws, i)) && (k < |ws| ==> !Joins(ws, k))
  }

  method BuildBatchGroup(ws: seq<Writer>) returns (k: nat, ops: seq<Op>)
    requires ws != [] && ws[0].batch.Some?
    ensures IsGroup(ws, k) && ops == AllOps(ws[..k])
  {
    var size := ws[0].size;
    var max := MaxSize(size);
    k, ops := 1, ws[0].batch.value;
    assert ws[..1] == [ws[0]];
    assert AllOps([ws[0]]) == [] + OpsOf(ws[0]);
    while k < |ws|
      invariant 1 <= k <= |ws| && ops == AllOps(ws[..k]) && size == AllSizes(ws[..k])
      invariant forall i: nat :: 0 < i < k ==> Joins(ws, i)
    {
      var w := ws[k];
      assert ws[..k + 1][..k] == ws[..k];
      if w.sync && !ws[0].sync {
        return;
      }
      if w.batch.Some? {
        size := size + w.size;
        if size > max {
          return;
        }
        ops := ops + w.batch.value;
      }
      k := k + 1;
    }
  }

  // ----- the protocol

  /** A group of writers completed together: lo up to and including hi. A group that was
      logged has its operations and their first sequence number; a leader whose write did
      not get that far is completed alone. */
  datatype Group = Logged(lo: nat, hi: nat, first: nat, ops: seq<Op>, ok: bool) | Alone(lo: nat, hi: nat)

  datatype Phase = MakingRoom | Logging(count: nat, ops: seq<Op>)

  /** Writers are numbered by arrival. A writer is awake when it is about to check whether
      it is done or at the front; done ones have not returned yet. */
  datatype State = State(
    writers: seq<Writer>, queue: seq<nat>, awake: set<nat>, done: set<nat>, returned: set<nat>,
    leader: Option<nat>, phase: Phase, lastSequence: nat, groups: seq<Group>)

  ghost predicate Init(s: State) {
    s == State([], [], {}, {}, {}, None, MakingRoom, s.lastSequence, [])
  }

  ghost function InfoOf(s: State): seq<Writer>
    requires forall i: nat :: i < |s.queue| ==> s.queue[i] < |s.writers|
  {
    seq(|s.queue|, i requires 0 <= i < |s.queue| => s.writers[s.queue[i]])
  }

  /** A thread enters Write and joins the queue. */
  ghost predicate Arrive(s: State, t: State, w: Writer) {
    var id := |s.writers|;
    t == s.(writers := s.writers + [w], queue := s.queue + [id], awake := s.awake + {id})
  }

  /** A waiting thread may wake up at any time. */
  ghost predicate Wake(s: State, t: State, id: nat) {
    id in s.queue && Some(id) != s.leader && t == s.(awake := s.awake + {id})
  }

  /** An awake thread checks: it returns, leads or waits. */
  ghost predicate Check(s: State, t: State, id: nat) {
    && id in s.awake
    && if id in s.done then t == s.(awake := s.awake - {id}, done := s.done - {id}, returned := s.returned + {id})
       else if s.queue != [] && s.queue[0] == id then
         t == s.(awake := s.awake - {id}, leader := Some(id), phase := MakingRoom)
       else t == s.(awake := s.awake - {id})
  }

  /** The leader completes the first k writers of the queue, wakes them and the next one. */
  ghost function Completed(s: State, k: nat, group: Group): State
    requires 0 < k <= |s.queue| && s.leader.Some?
  {
    var me, ready, rest := s.leader.value, s.queue[..k], s.queue[k..];
    var others := (set id | id in ready) - {me};
    s.(queue := rest, leader := None, returned := s.returned + {me}, done := s.done + others,
       awake := s.awake + others + (if rest == [] then {} else {rest[0]}), groups := s.groups + [group])
  }

  /** There is no room, or there is no batch: the leader completes itself alone. */
  ghost predicate GiveUp(s: State, t: State) {
    && s.leader.Some? && s.phase.MakingRoom? && s.queue != []
    && t == Completed(s, 1, Alone(s.queue[0], s.queue[0]))
  }

  /** There is room: the leader takes a group of k writers and releases the lock to log it. */
  ghost predicate TakeGroup(s: State, t: State, k: nat) {
    && s.leader.Some? && s.phase.MakingRoom? && s.queue != []
    && (forall i: nat :: i < |s.queue| ==> s.queue[i] < |s.writers|)
    && InfoOf(s)[0].batch.Some? && IsGroup(InfoOf(s), k)
    && t == s.(phase := Logging(k, AllOps(InfoOf(s)[..k])))
  }

  /** The group is logged and applied, or not; its numbers are used up either way. */
  ghost predicate FinishLogging(s: State, t: State, ok: bool) {
    && s.leader.Some? && s.phase.Logging? && 0 < s.phase.count <= |s.queue|
    && var group := Logged(s.queue[0], s.queue[s.phase.count - 1], s.lastSequence + 1, s.phase.ops, ok);
    t == Completed(s.(lastSequence := s.lastSequence + |s.phase.ops|), s.phase.count, group)
  }

  ghost predicate Next(s: State, t: State) {
    || (exists w :: Arrive(s, t, w))
    || (exists id :: Wake(s, t, id))
    || (exists id :: Check(s, t, id))
    || GiveUp(s, t)
    || (exists k :: TakeGroup(s, t, k))
    || (exists ok :: FinishLogging(s, t, ok))
  }

  // ----- the invariant

  /** The number of writers completed so far. */
  ghost function Front(s: State): int {
    |s.writers| - |s.queue|
  }

  /** The queue is what has arrived and is not completed, in order of arrival. */
  ghost predicate InOrder(s: State) {
    Front(s) >= 0 && forall i: nat :: i < |s.queue| ==> s.queue[i] == Front(s) + i
  }

  /** Only the front writer leads; when nobody does, the front writer is awake. */
  ghost predicate Led(s: State) {
    && (s.leader.Some? ==> s.queue != [] && s.leader.value == s.queue[0] && s.leader.value !in s.awake)
    && (s.queue != [] && s.leader.None? ==> s.queue[0] in s.awake)
    && (s.leader.Some? && s.phase.Logging? ==>
          && Front(s) >= 0 && 0 < s.phase.count <= |s.queue|
          && s.phase.ops == AllOps(s.writers[Front(s)..Front(s) + s.phase.count]))
  }

  /** Every completed writer has returned or is awake to do so, and no other one. */
  ghost predicate Returning(s: State) {
    && s.done !! s.returned
    && (forall id: nat :: id in s.done || id in s.returned <==> id < Front(s))
    && (forall id: nat :: id in s.done ==> id in s.awake)
    && (forall id: nat :: id in s.awake ==> id < |s.writers| && id !in s.returned)
  }

  ghost function LogLength(g: Group): nat {
    if g.Logged? then |g.ops| else 0
  }

  ghost function Total(groups: seq<Group>): nat {
    if groups == [] then 0 else Total(groups[..|groups| - 1]) + LogLength(groups[|groups| - 1])
  }

  /** Group i follows the one before; its operations are those of its writers, in order,
      and take the next sequence numbers. */
  ghost predicate GroupOk(writers: seq<Writer>, groups: seq<Group>, start: nat, i: nat)
    requires i < |groups|
  {
    var g := groups[i];
    && g.lo == (if i == 0 then 0 else groups[i - 1].hi + 1) && g.lo <= g.hi < |writers|
    && (g.Alone? ==> g.lo == g.hi)
    && (g.Logged? ==> g.ops == AllOps(writers[g.lo..g.hi + 1]) && g.first == start + Total(groups[..i]) + 1)
  }

  ghost predicate Serial(s: State, start: nat) {
    && (forall i: nat :: i < |s.groups| ==> GroupOk(s.writers, s.groups, start, i))
    && Front(s) == (if s.groups == [] then 0 else s.groups[|s.groups| - 1].hi + 1)
    && s.lastSequence == start + Total(s.groups)
  }

  ghost predicate Inv(s: State, start: nat) {
    InOrder(s) && Led(s) && Returning(s) && Serial(s, start)
  }

  lemma GroupsArrive(writers: seq<Writer>, groups: seq<Group>, start: nat, w: Writer)
    requires forall i: nat :: i < |groups| ==> GroupOk(writers, groups, start, i)
    ensures forall i: nat :: i < |groups| ==> GroupOk(writers + [w], groups, start, i)
  {
    forall i: nat | i < |groups| ensures GroupOk(writers + [w], groups, start, i) {
      assert GroupOk(writers, groups, start, i);
      var g := groups[i];
      assert (writers + [w])[g.lo..g.hi + 1] == writers[g.lo..g.hi + 1];
    }
  }

  lemma ArriveInv(s: State, t: State, w: Writer, start: nat)
    requires Inv(s, start) && Arrive(s, t, w)
    ensures Inv(t, start)
  {
    GroupsArrive(s.writers, s.groups, start, w);
    if s.leader.Some? && s.phase.Logging? {
      var lo, hi := Front(s), Front(s) + s.phase.count;
      assert t.writers[lo..hi] == s.writers[lo..hi];
    }
  }

  lemma CheckInv(s: State, t: State, id: nat, start: nat)
    requires Inv(s, start) && Check(s, t, id)
    ensures Inv(t, start)
    ensures t.leader != s.leader ==> s.leader == None
  {
  }

  lemma CompletedReturns(s: State, k: nat, group: Group)
    requires InOrder(s) && Led(s) && Returning(s) && s.leader.Some? && 0 < k <= |s.queue|
    ensures InOrder(Completed(s, k, group)) && Led(Completed(s, k, group)) && Returning(Completed(s, k, group))
  {
    var t := Completed(s, k, group);
    var ready := s.queue[..k];
    forall id: nat ensures id in ready <==> Front(s) <= id < Front(s) + k {
      if Front(s) <= id < Front(s) + k { assert ready[id - Front(s)] == id; }
    }
  }

  lemma GroupsGrow(writers: seq<Writer>, groups: seq<Group>, group: Group, start: nat)
    requires forall i: nat :: i < |groups| ==> GroupOk(writers, groups, start, i)
    requires group.lo == (if groups == [] then 0 else groups[|groups| - 1].hi + 1) && group.lo <= group.hi < |writers|
    requires group.Alone? ==> group.lo == group.hi
    requires group.Logged? ==>
      group.ops == AllOps(writers[group.lo..group.hi + 1]) && group.first == start + Total(groups) + 1
    ensures forall i: nat :: i <= |groups| ==> GroupOk(writers, groups + [group], start, i)
  {
    forall i: nat | i <= |groups| ensures GroupOk(writers, groups + [group], start, i) {
      if i < |groups| {
        OldGroup(writers, groups, group, start, i);
      } else {
        NewGroup(writers, groups, group, start);
      }
    }
  }

  lemma NewGroup(writers: seq<Writer>, groups: seq<Group>, group: Group, start: nat)
    requires group.lo == (if groups == [] then 0 else groups[|groups| - 1].hi + 1) && group.lo <= group.hi < |writers|
    requires group.Alone? ==> group.lo == group.hi
    requires group.Logged? ==>
      group.ops == AllOps(writers[group.lo..group.hi + 1]) && group.first == start + Total(groups) + 1
    ensures GroupOk(writers, groups + [group], start, |groups|)
  {
    assert (groups + [group])[..|groups|] == groups;
  }

  lemma OldGroup(writers: seq<Writer>, groups: seq<Group>, group: Group, start: nat, i: nat)
    requires i < |groups| && GroupOk(writers, groups, start, i)
    ensures GroupOk(writers, groups + [group], start, i)
  {
    assert (groups + [group])[..i] == groups[..i];
  }

  lemma TotalGrows(groups: seq<Group>, group: Group)
    ensures Total(groups + [group]) == Total(groups) + LogLength(group)
  {
    assert (groups + [group])[..|groups|] == groups;
  }

  lemma CompletedSerial(s: State, k: nat, group: Group, start: nat)
    requires InOrder(s) && s.leader.Some? && 0 < k <= |s.queue|
    requires Serial(s.(lastSequence := start + Total(s.groups)), start)
    requires s.lastSequence == start + Total(s.groups) + LogLength(group)
    requires group.lo == Front(s) && group.hi == Front(s) + k - 1 && (group.Alone? ==> k == 1)
    requires group.Logged? ==>
      group.ops == AllOps(s.writers[group.lo..group.hi + 1]) && group.first == start + Total(s.groups) + 1
    ensures Serial(Completed(s, k, group), start)
  {
    GroupsGrow(s.writers, s.groups, group, start);
    TotalGrows(s.groups, group);
  }

  lemma GiveUpInv(s: State, t: State, start: nat)
    requires Inv(s, start) && GiveUp(s, t)
    ensures Inv(t, start)
  {
    var group := Alone(s.queue[0], s.queue[0]);
    CompletedReturns(s, 1, group);
    CompletedSerial(s, 1, group, start);
  }

  lemma TakeGroupInv(s: State, t: State, k: nat, start: nat)
    requires Inv(s, start) && TakeGroup(s, t, k)
    ensures Inv(t, start)
  {
    assert InfoOf(s)[..k] == s.writers[Front(s)..Front(s) + k];
  }

  lemma FinishInv(s: State, t: State, ok: bool, start: nat)
    requires Inv(s, start) && FinishLogging(s, t, ok)
    ensures Inv(t, start)
  {
    var k := s.phase.count;
    var group := Logged(s.queue[0], s.queue[k - 1], s.lastSequence + 1, s.phase.ops, ok);
    var s' := s.(lastSequence := s.lastSequence + |s.phase.ops|);
    assert InOrder(s') && Led(s') && Returning(s') by { SameBut(s, s'); }
    CompletedReturns(s', k, group);
    CompletedSerial(s', k, group, start);
  }

  lemma SameBut(s: State, s': State)
    requires InOrder(s) && Led(s) && Returning(s) && s' == s.(lastSequence := s'.lastSequence)
    ensures InOrder(s') && Led(s') && Returning(s')
  {
  }

  lemma NextInv(s: State, t: State, start: nat)
    requires Inv(s, start) && Next(s, t)
    ensures Inv(t, start)
  {
    if w :| Arrive(s, t, w) {
      ArriveInv(s, t, w, start);
    } else if id :| Wake(s, t, id) {
    } else if id :| Check(s, t, id) {
      CheckInv(s, t, id, start);
    } else if GiveUp(s, t) {
      GiveUpInv(s, t, start);
    } else if k :| TakeGroup(s, t, k) {
      TakeGroupInv(s, t, k, start);
    } else {
      var ok :| FinishLogging(s, t, ok);
      FinishInv(s, t, ok, start);
    }
  }

  // ----- every run

  ghost predicate Run(run: seq<State>) {
    |run| > 0 && Init(run[0]) && forall i: nat :: i + 1 < |run| ==> Next(run[i], run[i + 1])
  }

  lemma {:induction false} RunInv(run: seq<State>, i: nat)
    requires Run(run) && i < |run|
    ensures Inv(run[i], run[0].lastSequence)
  {
    if i > 0 {
      RunInv(run, i - 1);
      NextInv(run[i - 1], run[i], run[0].lastSequence);
    }
  }

  lemma {:induction false} TotalPrefix(groups: seq<Group>, i: nat, j: nat)
    requires i < j <= |groups|
    ensures Total(groups[..i]) + LogLength(groups[i]) <= Total(groups[..j])
    decreases j
  {
    assert groups[..j][..j - 1] == groups[..j - 1];
    if i < j - 1 { TotalPrefix(groups, i, j - 1); }
  }

  lemma {:induction false} GroupsInOrder(s: State, start: nat, i: nat, j: nat)
    requires Inv(s, start) && i < j < |s.groups|
    ensures s.groups[i].hi < s.groups[j].lo
    decreases j
  {
    assert GroupOk(s.writers, s.groups, start, j) && GroupOk(s.writers, s.groups, start, j - 1);
    if i < j - 1 { GroupsInOrder(s, start, i, j - 1); }
  }

  /** Groups are completed in queue order, and a later group has later sequence numbers. */
  lemma GroupsSerial(s: State, start: nat, i: nat, j: nat)
    requires Inv(s, start) && i < j < |s.groups|
    ensures s.groups[i].hi < s.groups[j].lo
    ensures s.groups[i].Logged? && s.groups[j].Logged? ==>
      s.groups[i].first + |s.groups[i].ops| <= s.groups[j].first
  {
    GroupsInOrder(s, start, i, j);
    assert GroupOk(s.writers, s.groups, start, i) && GroupOk(s.writers, s.groups, start, j);
    TotalPrefix(s.groups, i, j);
  }

  /** Every completed writer is in a group; by the order of groups, in one only. */
  lemma CompletedOnce(s: State, start: nat, id: nat) returns (i: nat)
    requires Inv(s, start) && id < Front(s)
    ensures i < |s.groups| && s.groups[i].lo <= id <= s.groups[i].hi
    ensures forall j: nat :: j < |s.groups| && s.groups[j].lo <= id <= s.groups[j].hi ==> j == i
  {
    i := |s.groups| - 1;
    while s.groups[i].lo > id
      invariant i < |s.groups| && id <= s.groups[i].hi
      decreases i
    {
      assert GroupOk(s.writers, s.groups, start, i);
      i := i - 1;
    }
    forall j: nat | j < |s.groups| && s.groups[j].lo <= id <= s.groups[j].hi ensures j == i {
      if j < i { GroupsInOrder(s, start, j, i); }
      if i < j { GroupsInOrder(s, start, i, j); }
    }
  }

  // ----- the sizes of groups

  lemma {:induction false} SizesGrow(ws: seq<Writer>, i: nat, k: nat)
    requires 0 < i < k <= |ws| && (forall j: nat :: i < j < k ==> Joins(ws, j))
    requires AllSizes(ws[..i + 1]) <= MaxSize(ws[0].size)
    ensures AllSizes(ws[..k]) <= MaxSize(ws[0].size)
    decreases k
  {
    if i < k - 1 {
      SizesGrow(ws, i, k - 1);
      assert Joins(ws, k - 1);
      assert ws[..k][..k - 1] == ws[..k - 1];
    }
  }

  /** A write is held up by others only within limits: as soon as another batch has joined,
      the group has at most 1 MB, and at most 128 KB more than its first batch if that is
      small; and it is not written without sync if its first is not. */
  lemma GroupBounded(ws: seq<Writer>, k: nat, i: nat)
    requires IsGroup(ws, k) && 0 < i < k && ws[i].batch.Some?
    ensures AllSizes(ws[..k]) <= MAX_GROUP && (ws[0].size <= SMALL ==> AllSizes(ws[..k]) <= ws[0].size + SMALL)
    ensures ws[i].sync ==> ws[0].sync
  {
    assert Joins(ws, i);
    SizesGrow(ws, i, k);
  }

  // ----- progress

  /** A thread that checks returns if it was completed, leads if it is at the front, and
      waits otherwise. */
  lemma CheckEffect(s: State, t: State, id: nat, start: nat)
    requires Inv(s, start) && Check(s, t, id)
    ensures id in t.returned <==> id < Front(s)
    ensures t.leader == Some(id) <==> s.queue != [] && s.queue[0] == id
    ensures t.queue == s.queue && t.groups == s.groups && t.lastSequence == s.lastSequence
  {
  }

  /** Logging a group completes its writers and no others; each of them has returned or is
      awake to do so. */
  lemma FinishEffect(s: State, t: State, ok: bool, start: nat, id: nat)
    requires Inv(s, start) && FinishLogging(s, t, ok)
    ensures Front(t) == Front(s) + s.phase.count && |t.groups| == |s.groups| + 1
    ensures t.groups[|s.groups|] == Logged(Front(s), Front(t) - 1, s.lastSequence + 1, s.phase.ops, ok)
    ensures Front(s) <= id < Front(t) ==> id in t.returned || (id in t.done && id in t.awake)
  {
    FinishInv(s, t, ok, start);
  }

  /** The next step of the leader, and what it may come to: a leader with a batch and room
      takes a group, one that logs can finish, and any one can give up before. */
  lemma LeaderMoves(s: State, start: nat) returns (t: State)
    requires Inv(s, start) && s.leader.Some?
    ensures Next(s, t) && Inv(t, start) && t.writers == s.writers
    ensures s.phase.Logging? ==> Front(t) > Front(s)
    ensures s.phase.MakingRoom? ==>
      if s.writers[s.leader.value].batch.Some? then t.leader == s.leader && t.phase.Logging? else Front(t) > Front(s)
  {
    if s.phase.Logging? {
      var group := Logged(s.queue[0], s.queue[s.phase.count - 1], s.lastSequence + 1, s.phase.ops, true);
      t := Completed(s.(lastSequence := s.lastSequence + |s.phase.ops|), s.phase.count, group);
      assert FinishLogging(s, t, true);
    } else if s.writers[s.leader.value].batch.Some? {
      assert InfoOf(s)[0] == s.writers[s.leader.value];
      var k, ops := SomeGroup(InfoOf(s));
      t := s.(phase := Logging(k, ops));
      assert TakeGroup(s, t, k);
    } else {
      t := Completed(s, 1, Alone(s.queue[0], s.queue[0]));
      assert GiveUp(s, t);
    }
    NextInv(s, t, start);
  }

  lemma {:induction false} SomeGroup(ws: seq<Writer>) returns (k: nat, ops: seq<Op>)
    requires ws != []
    ensures IsGroup(ws, k) && ops == AllOps(ws[..k])
  {
    k := 1;
    while k < |ws| && Joins(ws, k)
      invariant 1 <= k <= |ws| && forall i: nat :: 0 < i < k ==> Joins(ws, i)
    {
      k := k + 1;
    }
    ops := AllOps(ws[..k]);
  }

  ghost predicate Path(path: seq<State>) {
    |path| > 0 && forall i: nat :: i + 1 < |path| ==> Next(path[i], path[i + 1])
  }

  /** Some steps lead from one state to the other. */
  ghost predicate Reaches(s: State, t: State) {
    exists path :: Path(path) && path[0] == s && path[|path| - 1] == t
  }

  lemma ReachesSelf(s: State)
    ensures Reaches(s, s)
  {
    assert Path([s]);
  }

  lemma ReachesBy(s: State, u: State, t: State)
    requires Next(s, u) && Reaches(u, t)
    ensures Reaches(s, t)
  {
    var path :| Path(path) && path[0] == u && path[|path| - 1] == t;
    var path' := [s] + path;
    assert path'[0] == s && path'[|path'| - 1] == path[|path| - 1];
    forall i: nat | i + 1 < |path'| ensures Next(path'[i], path'[i + 1]) {
      if i > 0 { assert path'[i] == path[i - 1] && path'[i + 1] == path[i]; }
    }
    assert Path(path');
  }

  /** The front writer, when nobody leads, takes the lead with its next check. */
  lemma FrontLeads(s: State, start: nat) returns (t: State)
    requires Inv(s, start) && s.queue != [] && s.leader.None?
    ensures Next(s, t) && Inv(t, start) && t.leader == Some(s.queue[0]) && t.phase.MakingRoom? && Front(t) == Front(s)
    ensures t.writers == s.writers
  {
    var id := s.queue[0];
    t := s.(awake := s.awake - {id}, leader := Some(id), phase := MakingRoom);
    assert Check(s, t, id);
    NextInv(s, t, start);
  }

  /** How far a state is from completing its front writer. */
  ghost function StepsLeft(s: State): nat {
    if s.leader.None? then 2 else if s.phase.MakingRoom? then 1 else 0
  }

  lemma Onward(s: State, start: nat) returns (t: State)
    requires Inv(s, start) && s.queue != []
    ensures Next(s, t) && Inv(t, start) && t.writers == s.writers
    ensures Front(t) > Front(s) || (Front(t) == Front(s) && StepsLeft(t) < StepsLeft(s))
  {
    if s.leader.None? {
      t := FrontLeads(s, start);
    } else {
      t := LeaderMoves(s, start);
      if t.leader == s.leader && t.phase.Logging? && s.phase.MakingRoom? { LedFront(s, t, start); }
    }
  }

  lemma LedFront(s: State, t: State, start: nat)
    requires Inv(s, start) && Inv(t, start) && s.leader.Some? && t.leader == s.leader && t.writers == s.writers
    ensures Front(t) == Front(s)
  {
    assert s.queue[0] == Front(s) && t.queue[0] == Front(t);
  }

  /** Every writer that has arrived can be completed. */
  lemma {:induction false} QueueMoves(s: State, start: nat, id: nat) returns (t: State)
    requires Inv(s, start) && id < |s.writers|
    ensures Reaches(s, t) && Inv(t, start) && t.writers == s.writers && id < Front(t)
    decreases |s.writers| - Front(s), StepsLeft(s)
  {
    if id < Front(s) {
      t := s;
      ReachesSelf(s);
    } else {
      var u := Onward(s, start);
      t := QueueMoves(u, start, id);
      ReachesBy(s, u, t);
    }
  }

  lemma {:induction false} ReachesOn(s: State, u: State, t: State)
    requires Reaches(s, u) && Next(u, t)
    ensures Reaches(s, t)
  {
    var path :| Path(path) && path[0] == s && path[|path| - 1] == u;
    var path' := path + [t];
    forall i: nat | i + 1 < |path'| ensures Next(path'[i], path'[i + 1]) {
      if i + 1 < |path| { assert path'[i] == path[i] && path'[i + 1] == path[i + 1]; }
    }
    assert Path(path') && path'[0] == s;
  }

  /** From every state of every run some steps let any writer that has arrived return. */
  lemma WriterReturns(run: seq<State>, i: nat, id: nat) returns (t: State)
    requires Run(run) && i < |run| && id < |run[i].writers|
    ensures Reaches(run[i], t) && id in t.returned
  {
    var start := run[0].lastSequence;
    RunInv(run, i);
    var u := QueueMoves(run[i], start, id);
    t := u;
    if id !in u.returned {
      assert id in u.done && id in u.awake;
      t := u.(awake := u.awake - {id}, done := u.done - {id}, returned := u.returned + {id});
      assert Check(u, t, id);
      ReachesOn(run[i], u, t);
    }
  }
}
