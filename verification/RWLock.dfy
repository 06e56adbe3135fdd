/** The reader/writer lock: every critical section of its mutex is one step, and a thread
    that waits on a condition variable may wake up at any time to check again. */
module RWLock {

  type Thread = nat

  /** The three fields of the lock, who holds it, and who waits: asleep until notified, or
      awake and about to check its condition. */
  datatype State = State(
    readCnt: nat, writeCnt: nat, inflight: bool, reading: set<Thread>, writing: set<Thread>,
    sleepingReaders: set<Thread>, awakeReaders: set<Thread>, sleepingWriters: set<Thread>, awakeWriters: set<Thread>)

  ghost function Busy(s: State): set<Thread> {
    s.reading + s.writing + s.sleepingReaders + s.awakeReaders + s.sleepingWriters + s.awakeWriters
  }

  ghost predicate Init(s: State) {
    s == State(0, 0, false, {}, {}, {}, {}, {}, {})
  }

  /** The condition of a reader holds: it enters. Otherwise it sleeps. */
  ghost function ReaderChecks(s: State, t: Thread): State {
    if s.writeCnt == 0 then s.(readCnt := s.readCnt + 1, reading := s.reading + {t})
    else s.(sleepingReaders := s.sleepingReaders + {t})
  }

  ghost function WriterChecks(s: State, t: Thread): State {
    if s.readCnt == 0 && !s.inflight then s.(inflight := true, writing := s.writing + {t})
    else s.(sleepingWriters := s.sleepingWriters + {t})
  }

  ghost predicate ReadLock(s: State, s': State, t: Thread) {
    t !in Busy(s) && s' == ReaderChecks(s, t)
  }

  ghost predicate WriteLock(s: State, s': State, t: Thread) {
    t !in Busy(s) && s' == WriterChecks(s.(writeCnt := s.writeCnt + 1), t)
  }

  /** A waiting thread that is awake checks again. */
  ghost predicate ReaderResumes(s: State, s': State, t: Thread) {
    t in s.awakeReaders && s' == ReaderChecks(s.(awakeReaders := s.awakeReaders - {t}), t)
  }

  ghost predicate WriterResumes(s: State, s': State, t: Thread) {
    t in s.awakeWriters && s' == WriterChecks(s.(awakeWriters := s.awakeWriters - {t}), t)
  }

  ghost predicate WakesUp(s: State, s': State, t: Thread) {
    (t in s.sleepingReaders && s' == WokenReader(s, t)) || (t in s.sleepingWriters && s' == WokenWriter(s, t))
  }

  /** Notify one sleeping writer, if there is one. */
  ghost predicate NotifyWriter(s: State, s': State) {
    if s.sleepingWriters == {} then s' == s else exists t :: t in s.sleepingWriters && s' == WokenWriter(s, t)
  }

  ghost function WokenWriter(s: State, t: Thread): State {
    s.(sleepingWriters := s.sleepingWriters - {t}, awakeWriters := s.awakeWriters + {t})
  }

  ghost function WokenReader(s: State, t: Thread): State {
    s.(sleepingReaders := s.sleepingReaders - {t}, awakeReaders := s.awakeReaders + {t})
  }

  ghost function NotifyReaders(s: State): State {
    s.(sleepingReaders := {}, awakeReaders := s.awakeReaders + s.sleepingReaders)
  }

  ghost predicate ReadUnlock(s: State, s': State, t: Thread) {
    && t in s.reading && s.readCnt > 0
    && var u := s.(readCnt := s.readCnt - 1, reading := s.reading - {t});
    if u.readCnt == 0 && u.writeCnt > 0 then NotifyWriter(u, s') else s' == u
  }

  ghost predicate WriteUnlock(s: State, s': State, t: Thread) {
    && t in s.writing && s.writeCnt > 0
    && var u := s.(writeCnt := s.writeCnt - 1, inflight := false, writing := s.writing - {t});
    if u.writeCnt == 0 then s' == NotifyReaders(u) else NotifyWriter(u, s')
  }

  ghost predicate Step(s: State, s': State, t: Thread) {
    || ReadLock(s, s', t) || WriteLock(s, s', t) || ReaderResumes(s, s', t) || WriterResumes(s, s', t)
    || WakesUp(s, s', t) || ReadUnlock(s, s', t) || WriteUnlock(s, s', t)
  }

  // ----- the invariant

  ghost predicate Apart(s: State) {
    && s.sleepingWriters !! s.awakeWriters && s.writing !! (s.sleepingWriters + s.awakeWriters)
    && s.sleepingReaders !! s.awakeReaders && s.reading !! (s.sleepingReaders + s.awakeReaders)
  }

  /** The fields count what they are meant to count. */
  ghost predicate Counted(s: State) {
    && s.readCnt == |s.reading| && (s.inflight <==> s.writing != {}) && |s.writing| <= 1
    && s.writeCnt == |s.writing| + |s.sleepingWriters| + |s.awakeWriters|
  }

  /** Never a reader together with a writer. */
  ghost predicate Excluded(s: State) {
    s.reading == {} || s.writing == {}
  }

  /** When nobody holds the lock and writers wait, one of them is awake; when no writer waits
      or writes, no reader sleeps. */
  ghost predicate Awake(s: State) {
    && (s.reading == {} && s.writing == {} && s.sleepingWriters != {} ==> s.awakeWriters != {})
    && (s.writeCnt == 0 ==> s.sleepingReaders == {})
  }

  ghost predicate Inv(s: State) {
    Apart(s) && Counted(s) && Excluded(s) && Awake(s)
  }

  lemma ReaderChecksInv(s: State, t: Thread)
    requires Inv(s) && t !in s.reading + s.sleepingReaders + s.awakeReaders
    ensures Inv(ReaderChecks(s, t))
  {
  }

  /** A writer counted in but on no list yet. */
  ghost predicate Entering(s: State, t: Thread) {
    && Apart(s) && t !in s.writing + s.sleepingWriters + s.awakeWriters && Excluded(s)
    && s.readCnt == |s.reading| && (s.inflight <==> s.writing != {}) && |s.writing| <= 1
    && s.writeCnt == |s.writing| + |s.sleepingWriters| + |s.awakeWriters| + 1
  }

  lemma WriterChecksInv(s: State, t: Thread)
    requires Entering(s, t)
    ensures Inv(WriterChecks(s, t))
  {
  }

  lemma OneLess<T>(a: set<T>, x: T)
    requires x in a
    ensures |a - {x}| == |a| - 1
  {
  }

  lemma WokenInv(s: State, t: Thread)
    requires Apart(s) && Counted(s) && Excluded(s) && t in s.sleepingWriters
    ensures var u := WokenWriter(s, t); Apart(u) && Counted(u) && Excluded(u) && u.awakeWriters != {}
    ensures (s.writeCnt == 0 ==> s.sleepingReaders == {}) ==> Inv(WokenWriter(s, t))
  {
    OneLess(s.sleepingWriters, t);
  }

  lemma NotifyInv(s: State, s': State)
    requires Apart(s) && Counted(s) && Excluded(s) && s.writeCnt > 0 && NotifyWriter(s, s')
    ensures Inv(s')
  {
    if s.sleepingWriters != {} {
      var t :| t in s.sleepingWriters && s' == WokenWriter(s, t);
      WokenInv(s, t);
    }
  }

  lemma ReadUnlockInv(s: State, s': State, t: Thread)
    requires Inv(s) && ReadUnlock(s, s', t)
    ensures Inv(s') && s'.reading < s.reading
  {
    var u := s.(readCnt := s.readCnt - 1, reading := s.reading - {t});
    OneLess(s.reading, t);
    if u.readCnt == 0 && u.writeCnt > 0 { NotifyInv(u, s'); }
  }

  lemma WriteUnlockInv(s: State, s': State, t: Thread)
    requires Inv(s) && WriteUnlock(s, s', t)
    ensures Inv(s') && s'.reading == s.reading
  {
    var u := s.(writeCnt := s.writeCnt - 1, inflight := false, writing := s.writing - {t});
    OneLess(s.writing, t);
    assert u.writing == {};
    if u.writeCnt > 0 { NotifyInv(u, s'); }
  }

  lemma WakesUpInv(s: State, s': State, t: Thread)
    requires Inv(s) && WakesUp(s, s', t)
    ensures Inv(s') && s'.reading == s.reading
  {
    if t in s.sleepingWriters && s' == WokenWriter(s, t) { WokenInv(s, t); }
  }

  lemma WriterResumesInv(s: State, s': State, t: Thread)
    requires Inv(s) && WriterResumes(s, s', t)
    ensures Inv(s') && s'.reading == s.reading
  {
    OneLess(s.awakeWriters, t);
    WriterChecksInv(s.(awakeWriters := s.awakeWriters - {t}), t);
  }

  /** Every step keeps the invariant; and a reader enters only when no writer waits or
      writes. */
  lemma StepInv(s: State, s': State, t: Thread)
    requires Inv(s) && Step(s, s', t)
    ensures Inv(s')
    ensures s'.reading > s.reading ==> s.writing == s.sleepingWriters == s.awakeWriters == {}
  {
    if ReadLock(s, s', t) {
      ReaderChecksInv(s, t);
    } else if WriteLock(s, s', t) {
      WriterChecksInv(s.(writeCnt := s.writeCnt + 1), t);
    } else if ReaderResumes(s, s', t) {
      ReaderChecksInv(s.(awakeReaders := s.awakeReaders - {t}), t);
    } else if WriterResumes(s, s', t) {
      WriterResumesInv(s, s', t);
    } else if ReadUnlock(s, s', t) {
      ReadUnlockInv(s, s', t);
    } else if WriteUnlock(s, s', t) {
      WriteUnlockInv(s, s', t);
    } else {
      WakesUpInv(s, s', t);
    }
  }

  /** A run of any number of threads. */
  ghost predicate Run(run: seq<State>, who: seq<Thread>) {
    && |run| == |who| + 1 && Init(run[0])
    && forall i: nat :: i < |who| ==> Step(run[i], run[i + 1], who[i])
  }

  lemma {:induction false} RunInv(run: seq<State>, who: seq<Thread>, i: nat)
    requires Run(run, who) && i < |run|
    ensures Inv(run[i])
  {
    if i > 0 {
      RunInv(run, who, i - 1);
      StepInv(run[i - 1], run[i], who[i - 1]);
    }
  }

  // ----- who enters

  ghost function WaitingReaders(s: State): set<Thread> {
    s.sleepingReaders + s.awakeReaders
  }

  ghost function WaitingWriters(s: State): set<Thread> {
    s.sleepingWriters + s.awakeWriters
  }

  /** A thread does in both states the same with the lock, asleep or awake. */
  ghost predicate SameFor(s: State, s': State, u: Thread) {
    && (u in s'.reading <==> u in s.reading) && (u in s'.writing <==> u in s.writing)
    && (u in WaitingReaders(s') <==> u in WaitingReaders(s)) && (u in WaitingWriters(s') <==> u in WaitingWriters(s))
  }

  lemma NotifySame(s: State, s': State, u: Thread)
    requires NotifyWriter(s, s')
    ensures SameFor(s, s', u)
  {
  }

  /** A step changes what its own thread does with the lock; others may only wake up. */
  lemma StepOthers(s: State, s': State, t: Thread, u: Thread)
    requires Step(s, s', t) && u != t
    ensures SameFor(s, s', u)
  {
    if ReadUnlock(s, s', t) {
      var v := s.(readCnt := s.readCnt - 1, reading := s.reading - {t});
      if v.readCnt == 0 && v.writeCnt > 0 { NotifySame(v, s', u); }
    } else if WriteUnlock(s, s', t) {
      var v := s.(writeCnt := s.writeCnt - 1, inflight := false, writing := s.writing - {t});
      if v.writeCnt > 0 { NotifySame(v, s', u); }
    }
  }

  /** A thread that asks for the write lock, or asks again, has it afterwards if and only if
      nobody held the lock; otherwise it waits. */
  lemma WriterEnters(s: State, s': State, t: Thread)
    requires Inv(s) && (WriteLock(s, s', t) || WriterResumes(s, s', t))
    ensures s'.writing == {t} <==> s.reading == s.writing == {}
    ensures t in s'.writing || t in WaitingWriters(s')
  {
  }

  /** One that asks for the read lock has it if and only if no writer writes or waits. */
  lemma ReaderEnters(s: State, s': State, t: Thread)
    requires Inv(s) && (ReadLock(s, s', t) || ReaderResumes(s, s', t))
    ensures t in s'.reading <==> s.writing == WaitingWriters(s) == {}
    ensures t in s'.reading || t in WaitingReaders(s')
  {
  }

  /** A thread that has nothing to do with the lock can ask for either kind at any time. */
  lemma CanAsk(s: State, t: Thread, write: bool) returns (s': State)
    requires Inv(s) && t !in Busy(s)
    ensures Step(s, s', t)
    ensures write ==> t in s'.writing + WaitingWriters(s')
    ensures !write ==> t in s'.reading + WaitingReaders(s')
  {
    if write {
      s' := WriterChecks(s.(writeCnt := s.writeCnt + 1), t);
      assert WriteLock(s, s', t);
    } else {
      s' := ReaderChecks(s, t);
      assert ReadLock(s, s', t);
    }
  }

  /** One that gives the lock back does nothing with it any more. */
  lemma HolderLeaves(s: State, s': State, t: Thread)
    requires ReadUnlock(s, s', t) || WriteUnlock(s, s', t)
    ensures if ReadUnlock(s, s', t) then SameFor(s.(reading := s.reading - {t}), s', t)
      else SameFor(s.(writing := s.writing - {t}), s', t)
  {
    if ReadUnlock(s, s', t) {
      var v := s.(readCnt := s.readCnt - 1, reading := s.reading - {t});
      if v.readCnt == 0 && v.writeCnt > 0 { NotifySame(v, s', t); }
    } else {
      var v := s.(writeCnt := s.writeCnt - 1, inflight := false, writing := s.writing - {t});
      if v.writeCnt > 0 { NotifySame(v, s', t); }
    }
  }

  /** On a free lock a waiting writer is awake, and its next check gives it the lock. */
  lemma FreeLockIsTaken(s: State) returns (t: Thread, s': State)
    requires Inv(s) && s.reading == s.writing == {} && WaitingWriters(s) != {}
    ensures t in WaitingWriters(s) && Step(s, s', t) && s'.writing == {t}
  {
    t :| t in s.awakeWriters;
    s' := WriterChecks(s.(awakeWriters := s.awakeWriters - {t}), t);
    assert WriterResumes(s, s', t);
    WriterEnters(s, s', t);
  }

  // ----- nobody is stuck

  ghost predicate Path(path: seq<State>, who: seq<Thread>) {
    |path| == |who| + 1 && forall i: nat :: i < |who| ==> Step(path[i], path[i + 1], who[i])
  }

  /** Some steps lead from one state to the other. */
  ghost predicate Reaches(s: State, s': State) {
    exists path, who :: Path(path, who) && path[0] == s && path[|who|] == s'
  }

  lemma ReachesSelf(s: State)
    ensures Reaches(s, s)
  {
    assert Path([s], []);
  }

  lemma ReachesBy(s: State, u: State, s': State, t: Thread)
    requires Step(s, u, t) && Reaches(u, s')
    ensures Reaches(s, s')
  {
    var path, who :| Path(path, who) && path[0] == u && path[|who|] == s';
    var path', who' := [s] + path, [t] + who;
    assert path'[0] == s && path'[|who'|] == path[|who|];
    forall i: nat | i < |who'| ensures Step(path'[i], path'[i + 1], who'[i]) {
      if i > 0 { assert Step(path[i - 1], path[i], who[i - 1]); }
    }
    assert Path(path', who');
  }

  lemma {:induction false} ReachesOn(s: State, u: State, s': State)
    requires Reaches(s, u) && Reaches(u, s')
    ensures Reaches(s, s')
  {
    var path, who :| Path(path, who) && path[0] == s && path[|who|] == u;
    ReachesAlong(path, who, s');
  }

  lemma {:induction false} ReachesAlong(path: seq<State>, who: seq<Thread>, s': State)
    requires Path(path, who) && Reaches(path[|who|], s')
    ensures Reaches(path[0], s')
    decreases |who|
  {
    if who != [] {
      forall i: nat | i < |who[1..]| ensures Step(path[1..][i], path[1..][i + 1], who[1..][i]) {
        assert Step(path[i + 1], path[i + 2], who[i + 1]);
      }
      ReachesAlong(path[1..], who[1..], s');
      ReachesBy(path[0], path[1], s', who[0]);
    }
  }

  /** A reachable state with the same threads waiting. */
  ghost predicate Onwards(s: State, s': State) {
    && Reaches(s, s') && Inv(s') && WaitingReaders(s') == WaitingReaders(s)
    && WaitingWriters(s') == WaitingWriters(s)
  }

  /** What a thread does with the lock: it reads, writes, waits to read or waits to write,
      and not two of them. */
  ghost predicate RoleOf(s: State, u: Thread) {
    && (u in s.reading ==> u !in s.writing && u !in WaitingReaders(s) && u !in WaitingWriters(s))
    && (u in s.writing ==> u !in WaitingReaders(s) && u !in WaitingWriters(s))
    && (u in WaitingReaders(s) ==> u !in WaitingWriters(s))
  }

  ghost predicate OneRole(s: State) {
    forall u: Thread :: RoleOf(s, u)
  }

  lemma StepOneRole(s: State, s': State, t: Thread)
    requires Inv(s) && OneRole(s) && Step(s, s', t)
    ensures OneRole(s')
  {
    forall u: Thread ensures RoleOf(s', u) {
      assert RoleOf(s, u);
      if u != t {
        StepOthers(s, s', t, u);
      } else {
        OwnRole(s, s', t);
      }
    }
  }

  lemma OwnRole(s: State, s': State, t: Thread)
    requires Inv(s) && RoleOf(s, t) && Step(s, s', t)
    ensures RoleOf(s', t)
  {
    if ReadUnlock(s, s', t) || WriteUnlock(s, s', t) {
      HolderLeaves(s, s', t);
    } else if ReadLock(s, s', t) || ReaderResumes(s, s', t) {
      assert t !in s.reading + s.writing;
    } else if WriteLock(s, s', t) || WriterResumes(s, s', t) {
      assert t !in s.reading + s.writing;
    } else {
      assert WakesUp(s, s', t);
    }
  }

  lemma {:induction false} RunOneRole(run: seq<State>, who: seq<Thread>, i: nat)
    requires Run(run, who) && i < |run|
    ensures OneRole(run[i])
  {
    if i > 0 {
      RunOneRole(run, who, i - 1);
      RunInv(run, who, i - 1);
      StepOneRole(run[i - 1], run[i], who[i - 1]);
    }
  }

  lemma SomeNotified(u: State) returns (s': State)
    ensures NotifyWriter(u, s')
  {
    s' := u;
    if u.sleepingWriters != {} {
      var t :| t in u.sleepingWriters;
      s' := WokenWriter(u, t);
    }
  }

  /** Only the thread t has left. */
  ghost predicate Left(s: State, s': State, t: Thread) {
    && s'.reading == s.reading - {t} && s'.writing == s.writing - {t}
    && WaitingReaders(s') == WaitingReaders(s) && WaitingWriters(s') == WaitingWriters(s)
  }

  lemma LeftBy(s: State, s': State, t: Thread)
    requires Inv(s) && OneRole(s) && (ReadUnlock(s, s', t) || WriteUnlock(s, s', t))
    ensures Inv(s') && OneRole(s') && Left(s, s', t)
  {
    StepInv(s, s', t);
    StepOneRole(s, s', t);
    assert RoleOf(s, t);
    OnlyLeft(s, s', t);
  }

  lemma OnlyLeft(s: State, s': State, t: Thread)
    requires RoleOf(s, t) && (ReadUnlock(s, s', t) || WriteUnlock(s, s', t))
    ensures Left(s, s', t)
  {
    forall u: Thread ensures LeftFor(s, s', t, u) {
      if u == t { HolderLeaves(s, s', t); } else { StepOthers(s, s', t, u); }
    }
    LeftSets(s, s', t);
  }

  ghost predicate LeftFor(s: State, s': State, t: Thread, u: Thread) {
    && (u in s'.reading <==> u in s.reading && u != t) && (u in s'.writing <==> u in s.writing && u != t)
    && (u in WaitingReaders(s') <==> u in WaitingReaders(s)) && (u in WaitingWriters(s') <==> u in WaitingWriters(s))
  }

  lemma LeftSets(s: State, s': State, t: Thread)
    requires forall u: Thread :: LeftFor(s, s', t, u)
    ensures Left(s, s', t)
  {
    assert forall u: Thread :: u in s'.reading <==> u in s.reading - {t} by {
      forall u: Thread ensures u in s'.reading <==> u in s.reading - {t} { assert LeftFor(s, s', t, u); }
    }
    assert forall u: Thread :: u in s'.writing <==> u in s.writing - {t} by {
      forall u: Thread ensures u in s'.writing <==> u in s.writing - {t} { assert LeftFor(s, s', t, u); }
    }
    assert forall u: Thread :: u in WaitingReaders(s') <==> u in WaitingReaders(s) by {
      forall u: Thread ensures u in WaitingReaders(s') <==> u in WaitingReaders(s) { assert LeftFor(s, s', t, u); }
    }
    assert forall u: Thread :: u in WaitingWriters(s') <==> u in WaitingWriters(s) by {
      forall u: Thread ensures u in WaitingWriters(s') <==> u in WaitingWriters(s) { assert LeftFor(s, s', t, u); }
    }
  }

  lemma ReaderLeaves(s: State, t: Thread) returns (s': State)
    requires Inv(s) && OneRole(s) && t in s.reading
    ensures Step(s, s', t) && Inv(s') && OneRole(s') && Left(s, s', t)
  {
    var u := s.(readCnt := s.readCnt - 1, reading := s.reading - {t});
    s' := u;
    if u.readCnt == 0 && u.writeCnt > 0 { s' := SomeNotified(u); }
    assert ReadUnlock(s, s', t);
    LeftBy(s, s', t);
  }

  lemma WriterLeaves(s: State, t: Thread) returns (s': State)
    requires Inv(s) && OneRole(s) && t in s.writing
    ensures Step(s, s', t) && Inv(s') && OneRole(s') && Left(s, s', t)
  {
    var u := s.(writeCnt := s.writeCnt - 1, inflight := false, writing := s.writing - {t});
    s' := NotifyReaders(u);
    if u.writeCnt > 0 { s' := SomeNotified(u); }
    assert WriteUnlock(s, s', t);
    LeftBy(s, s', t);
  }

  /** When all holders leave, the lock is free and the same threads wait. */
  lemma {:induction false} LockFreed(s: State) returns (s': State)
    requires Inv(s) && OneRole(s)
    ensures Onwards(s, s') && OneRole(s') && s'.reading == s'.writing == {}
    decreases |s.reading| + |s.writing|
  {
    if s.writing != {} {
      var t :| t in s.writing;
      OneLess(s.writing, t);
      assert s.writing == {t};
      s' := WriterLeaves(s, t);
      ReachesSelf(s');
      ReachesBy(s, s', s', t);
    } else if s.reading != {} {
      var t :| t in s.reading;
      OneLess(s.reading, t);
      var u := ReaderLeaves(s, t);
      s' := LockFreed(u);
      ReachesBy(s, u, s', t);
    } else {
      s' := s;
      ReachesSelf(s);
    }
  }

  /** A waiting writer takes a free lock, if it is the one to check. */
  lemma WriterTakes(s: State, t: Thread) returns (s': State)
    requires Inv(s) && OneRole(s) && s.reading == s.writing == {} && t in WaitingWriters(s)
    ensures Reaches(s, s') && Inv(s') && OneRole(s') && s'.writing == {t}
    ensures WaitingReaders(s') == WaitingReaders(s) && WaitingWriters(s') == WaitingWriters(s) - {t}
  {
    if t in s.sleepingWriters {
      var u := WriterWoken(s, t);
      s' := AwakeTakes(u, t);
      ReachesSelf(s');
      ReachesBy(u, s', s', t);
      ReachesBy(s, u, s', t);
    } else {
      s' := AwakeTakes(s, t);
      ReachesSelf(s');
      ReachesBy(s, s', s', t);
    }
  }

  lemma WriterWoken(s: State, t: Thread) returns (u: State)
    requires Inv(s) && OneRole(s) && s.reading == s.writing == {} && t in s.sleepingWriters
    ensures Step(s, u, t) && Inv(u) && OneRole(u) && u.reading == u.writing == {} && t in u.awakeWriters
    ensures WaitingReaders(u) == WaitingReaders(s) && WaitingWriters(u) == WaitingWriters(s)
  {
    u := WokenWriter(s, t);
    assert WakesUp(s, u, t);
    StepInv(s, u, t);
    StepOneRole(s, u, t);
  }

  lemma AwakeTakes(s: State, t: Thread) returns (s': State)
    requires Inv(s) && OneRole(s) && s.reading == s.writing == {} && t in s.awakeWriters
    ensures Step(s, s', t) && Inv(s') && OneRole(s') && s'.writing == {t}
    ensures WaitingReaders(s') == WaitingReaders(s) && WaitingWriters(s') == WaitingWriters(s) - {t}
  {
    s' := WriterChecks(s.(awakeWriters := s.awakeWriters - {t}), t);
    assert WriterResumes(s, s', t);
    StepInv(s, s', t);
    StepOneRole(s, s', t);
  }

  /** From every state that a run reaches, some steps give any waiting writer the lock. */
  lemma WriterNotStuck(run: seq<State>, who: seq<Thread>, i: nat, t: Thread) returns (s': State)
    requires Run(run, who) && i < |run| && t in WaitingWriters(run[i])
    ensures Reaches(run[i], s') && s'.writing == {t}
  {
    RunInv(run, who, i);
    RunOneRole(run, who, i);
    var u := LockFreed(run[i]);
    s' := WriterTakes(u, t);
    ReachesOn(run[i], u, s');
  }

  /** All writers, one after the other, come and go. */
  lemma {:induction false} WritersPass(s: State) returns (s': State)
    requires Inv(s) && OneRole(s)
    ensures Reaches(s, s') && Inv(s') && OneRole(s') && s'.writing == WaitingWriters(s') == {}
    ensures WaitingReaders(s') == WaitingReaders(s)
    decreases |WaitingWriters(s)|
  {
    var u := LockFreed(s);
    if WaitingWriters(u) == {} {
      s' := u;
    } else {
      var t :| t in WaitingWriters(u);
      OneLess(WaitingWriters(u), t);
      var v := WriterTakes(u, t);
      var w := WriterLeaves(v, t);
      s' := WritersPass(w);
      ReachesBy(v, w, s', t);
      ReachesOn(u, v, s');
      ReachesOn(s, u, s');
    }
  }

  /** And some steps let any waiting reader in. */
  lemma ReaderNotStuck(run: seq<State>, who: seq<Thread>, i: nat, t: Thread) returns (s': State)
    requires Run(run, who) && i < |run| && t in WaitingReaders(run[i])
    ensures Reaches(run[i], s') && t in s'.reading
  {
    RunInv(run, who, i);
    RunOneRole(run, who, i);
    var u := WritersPass(run[i]);
    s' := ReaderChecks(u.(awakeReaders := u.awakeReaders - {t}), t);
    assert t in u.awakeReaders;
    assert ReaderResumes(u, s', t);
    ReaderEnters(u, s', t);
    ReachesSelf(s');
    ReachesBy(u, s', s', t);
    ReachesOn(run[i], u, s');
  }
}
