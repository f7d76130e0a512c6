/** What the flash lock lets through: an unlock undoes one lock, and from every state in which callers keep the
  * masking rule all locks can be given back and anyone can get in. */
module FlashProgress {
  import opened FlashLock

  // ---- one unlock ----

  /** The state s with task t at `pc` and depth d, and the locks as given. */
  ghost function With(s: Sys, t: nat, pc: TaskPc, d: nat, holder: int, count: int, spin: int): Sys
    requires t < |s.tasks|
  {
    s.(tasks := s.tasks[t := s.tasks[t].(pc := pc, depth := d)], holder := holder, count := count, spin := spin)
  }

  lemma SameQuiet(s: Sys, u: Sys, core: nat)
    requires u.readers == s.readers
    ensures Quiet(u, core) <==> Quiet(s, core)
  {
  }

  /** A call of `unlock` by a task in the lock, and its steps, undo one call of `lock`: the depth goes down by one,
    * and with the last level mutex and spinlock are free. */
  lemma UnlockUndoesLock(tasks: seq<nat>, readers: seq<nat>, es: seq<Event>, m: set<nat>, t: nat)
      returns (fs: seq<Event>)
    requires AllMask(tasks, readers, m) && Runs(Start(tasks, readers), es, m)
    requires var s := Exec(Start(tasks, readers), es, m);
             Runnable(s, t) && s.tasks[t].pc.Ready? && s.tasks[t].depth > 0
    ensures fs == [Unlock(t), TaskStep(t), TaskStep(t), TaskStep(t)]
    ensures var s := Exec(Start(tasks, readers), es, m);
            && Runs(s, fs, m)
            && var d := s.tasks[t].depth - 1;
               Exec(s, fs, m) == With(s, t, Ready, d, if d == 0 then -1 else t, d, d)
  {
    var s := Exec(Start(tasks, readers), es, m);
    var h, o := RunKeeps(Start(tasks, readers), NoAgent, Nobody, es, tasks, readers, m);
    var d := s.tasks[t].depth - 1;
    assert s.holder == t && s.spin == s.count == d + 1 by { hide HwOk, OneMasked; }
    hide InvAt;
    UnlockRun(s, t, m);
    fs := [Unlock(t), TaskStep(t), TaskStep(t), TaskStep(t)];
  }

  lemma UnlockRun(s: Sys, t: nat, m: set<nat>)
    requires Runnable(s, t) && s.tasks[t].pc.Ready? && s.holder == t && s.spin == s.count == s.tasks[t].depth > 0
    ensures var fs := [Unlock(t), TaskStep(t), TaskStep(t), TaskStep(t)];
            && Runs(s, fs, m)
            && var d := s.tasks[t].depth - 1; Exec(s, fs, m) == With(s, t, Ready, d, if d == 0 then -1 else t, d, d)
  {
    var d := s.tasks[t].depth - 1;
    var s1, s2 := With(s, t, DecLoad, d, t, d + 1, d + 1), With(s, t, DecStore(d + 1), d, t, d + 1, d + 1);
    var s3, s4 := With(s, t, PutMutex, d, t, d + 1, d), With(s, t, Ready, d, if d == 0 then -1 else t, d, d);
    var c := s.tasks[t].core;
    SameQuiet(s, s1, c);
    SameQuiet(s, s2, c);
    SameQuiet(s, s3, c);
    hide Quiet;
    assert Do(s, Unlock(t)) == s1 && Do(s1, TaskStep(t)) == s2;
    assert Do(s2, TaskStep(t)) == s3 && Do(s3, TaskStep(t)) == s4;
    assert Enabled(s, Unlock(t)) && Enabled(s1, TaskStep(t)) && Enabled(s2, TaskStep(t)) && Enabled(s3, TaskStep(t));
    hide Do, Enabled, With;
    var e := TaskStep(t);
    OneMore(s3, e, [], m);
    OneMore(s2, e, [e], m);
    OneMore(s1, e, [e, e], m);
    OneMore(s, Unlock(t), [e, e, e], m);
  }

  lemma OneMore(s: Sys, e: Event, es: seq<Event>, m: set<nat>)
    requires Enabled(s, e) && Masked(s, e, m) && Runs(Do(s, e), es, m)
    ensures Runs(s, [e] + es, m) && Exec(s, [e] + es, m) == Exec(Do(s, e), es, m)
  {
    hide Enabled, Do, Masked;
    assert ([e] + es)[1..] == es;
  }

  // ---- all can be given back ----

  /** Nobody is inside or on the way in. */
  ghost predicate AtRest(s: Sys) {
    && (forall t :: 0 <= t < |s.tasks| ==> s.tasks[t].pc.Ready? && s.tasks[t].depth == 0)
    && (forall r :: 0 <= r < |s.readers| ==> s.readers[r].pc.Off?)
    && s.holder == -1 && s.count == 0 && s.spin == 0 && s.hw == -1
  }

  /** The events by which calls in progress end and locks are undone: no new lock, request or read. */
  predicate Ends(e: Event) { e.Unlock? || e.TaskStep? || e.ReaderStep? }

  function TaskRank(k: Task): nat {
    10 * k.depth +
    match k.pc
    case Ready => 0
    case LockGet(_) => 15
    case SpinTake => 14
    case SpinTest => 13
    case SpinSet => 12
    case SpinFree(got) => if got then 11 else 16
    case IncLoad => 12
    case IncStore(_) => 11
    case DecLoad => 3
    case DecStore(_) => 2
    case PutMutex => 1
    case ReqGet => 2
    case ReqPut => 1
  }

  function ReaderRank(r: Reader): nat {
    match r.pc
    case Off => 0
    case Take => 5
    case Test => 4
    case Set => 3
    case Free(got) => if got then 2 else 1
    case Read => 1
  }

  function TaskRanks(ks: seq<Task>): nat {
    if ks == [] then 0 else TaskRanks(ks[..|ks| - 1]) + TaskRank(ks[|ks| - 1])
  }

  function ReaderRanks(rs: seq<Reader>): nat {
    if rs == [] then 0 else ReaderRanks(rs[..|rs| - 1]) + ReaderRank(rs[|rs| - 1])
  }

  lemma {:induction false} TaskRanksUpdate(ks: seq<Task>, t: nat, k: Task)
    requires t < |ks|
    ensures TaskRanks(ks[t := k]) == TaskRanks(ks) - TaskRank(ks[t]) + TaskRank(k)
  {
    hide TaskRank;
    var n := |ks| - 1;
    if t == n {
      assert ks[t := k][..n] == ks[..n];
    } else {
      TaskRanksUpdate(ks[..n], t, k);
      assert ks[t := k][..n] == ks[..n][t := k];
    }
  }

  lemma {:induction false} ReaderRanksUpdate(rs: seq<Reader>, r: nat, k: Reader)
    requires r < |rs|
    ensures ReaderRanks(rs[r := k]) == ReaderRanks(rs) - ReaderRank(rs[r]) + ReaderRank(k)
  {
    hide ReaderRank;
    var n := |rs| - 1;
    if r == n {
      assert rs[r := k][..n] == rs[..n];
    } else {
      ReaderRanksUpdate(rs[..n], r, k);
      assert rs[r := k][..n] == rs[..n][r := k];
    }
  }

  /** A task that is about to find the spinlock taken has to go round once more. */
  function Detour(s: Sys, h: HwAgent): nat {
    if h.TaskAgent? && h.t < |s.tasks| && s.tasks[h.t].pc.SpinTest? && s.spin != 0 then 4 else 0
  }

  function Rank(s: Sys, h: HwAgent): nat { TaskRanks(s.tasks) + ReaderRanks(s.readers) + Detour(s, h) }

  /** The step e ends something. */
  ghost predicate Falls(s: Sys, h: HwAgent, e: Event) {
    Ends(e) && Enabled(s, e) && Rank(Do(s, e), HwAfter(s, h, e)) < Rank(s, h)
  }

  /** Until all is at rest some step or unlock is possible that brings it nearer: of whoever has the hardware
    * lock; else of a low-level reader that has its interrupts masked; else of one that reads; else of the task
    * that has the mutex, and last of one that waits for it. */
  lemma Proceeds(s: Sys, h: HwAgent, o: SpinOwner) returns (e: Event)
    requires InvAt(s, h, o) && !AtRest(s)
    ensures Falls(s, h, e)
  {
    if h.TaskAgent? {
      e := TaskStep(h.t);
      HwTaskFalls(s, h, o);
    } else if h.ReaderAgent? {
      e := ReaderStep(h.r);
      HwReaderFalls(s, h, o);
    } else if exists r :: MaskedAt(s, r) {
      var r: int :| MaskedAt(s, r);
      e := ReaderStep(r);
      MaskedFalls(s, h, o, r);
    } else if exists r :: Reads(s, r) {
      var r: int :| Reads(s, r);
      e := ReaderStep(r);
      ReadFalls(s, h, o, r);
    } else {
      NoReaders(s);
      if s.holder != -1 {
        e := if s.tasks[s.holder].pc.Ready? then Unlock(s.holder) else TaskStep(s.holder);
        HolderFalls(s, h, o);
      } else {
        var t := Waits(s, h, o);
        e := TaskStep(t);
        WaiterFalls(s, h, o, t);
      }
    }
  }

  lemma HwTaskFalls(s: Sys, h: HwAgent, o: SpinOwner)
    requires InvAt(s, h, o) && h.TaskAgent?
    ensures Falls(s, h, TaskStep(h.t))
  {
    var t := h.t;
    assert HwOk(s, h) && InHw(s.tasks[t].pc) && Runnable(s, t);
    assert TaskOk(s.tasks[t], s.spin);
    hide InvAt, Quiet;
    TaskRanksUpdate(s.tasks, t, Do(s, TaskStep(t)).tasks[t]);
  }

  lemma HwReaderFalls(s: Sys, h: HwAgent, o: SpinOwner)
    requires InvAt(s, h, o) && h.ReaderAgent?
    ensures Falls(s, h, ReaderStep(h.r))
  {
    var r := h.r;
    assert HwOk(s, h) && ReaderInHw(s.readers[r].pc);
    hide InvAt, Quiet;
    ReaderRanksUpdate(s.readers, r, Do(s, ReaderStep(r)).readers[r]);
  }

  lemma MaskedFalls(s: Sys, h: HwAgent, o: SpinOwner, r: nat)
    requires InvAt(s, h, o) && h.NoAgent? && MaskedAt(s, r)
    ensures Falls(s, h, ReaderStep(r))
  {
    assert HwOk(s, h) && !ReaderInHw(s.readers[r].pc);
    hide InvAt, Quiet;
    ReaderRanksUpdate(s.readers, r, Do(s, ReaderStep(r)).readers[r]);
  }

  lemma ReadFalls(s: Sys, h: HwAgent, o: SpinOwner, r: nat)
    requires InvAt(s, h, o) && h.NoAgent? && Reads(s, r) && !exists q :: MaskedAt(s, q)
    ensures Falls(s, h, ReaderStep(r))
  {
    assert Quiet(s, s.readers[r].core) by {
      assert forall q :: 0 <= q < |s.readers| && InMasked(s.readers[q].pc) ==> MaskedAt(s, q);
    }
    hide InvAt, Quiet, MaskedAt;
    ReaderRanksUpdate(s.readers, r, Do(s, ReaderStep(r)).readers[r]);
  }

  /** With no low-level reader masked or reading all cores are quiet. */
  lemma NoReaders(s: Sys)
    requires (!exists r :: MaskedAt(s, r)) && !exists r :: Reads(s, r)
    ensures forall r :: 0 <= r < |s.readers| ==> s.readers[r].pc.Off?
    ensures forall core :: Quiet(s, core)
  {
    forall r | 0 <= r < |s.readers|
      ensures s.readers[r].pc.Off?
    {
      assert !MaskedAt(s, r) && !Reads(s, r);
    }
  }

  lemma HolderFalls(s: Sys, h: HwAgent, o: SpinOwner)
    requires InvAt(s, h, o) && h.NoAgent? && s.holder != -1
    requires (forall r :: 0 <= r < |s.readers| ==> s.readers[r].pc.Off?) && forall core :: Quiet(s, core)
    ensures var e := if s.tasks[s.holder].pc.Ready? then Unlock(s.holder) else TaskStep(s.holder);
            Falls(s, h, e)
  {
    var t: nat := s.holder;
    assert MutexOk(s) && HwOk(s, h) && TaskOk(s.tasks[t], s.spin) && !InHw(s.tasks[t].pc);
    assert s.tasks[t].pc.SpinTake? ==> s.spin == 0 by { assert SpinOk(s, o); }
    assert Quiet(s, s.tasks[t].core);
    hide InvAt, HwOk, SpinOk, Falls;
    if s.tasks[t].pc.Ready? { UnlockFalls(s, h, t); } else { HolderStepFalls(s, h, t); }
  }

  lemma UnlockFalls(s: Sys, h: HwAgent, t: nat)
    requires Runnable(s, t) && h.NoAgent? && s.holder == t && s.tasks[t].pc.Ready? && s.tasks[t].depth > 0
    ensures Falls(s, h, Unlock(t))
  {
    hide Quiet;
    TaskRanksUpdate(s.tasks, t, Do(s, Unlock(t)).tasks[t]);
  }

  lemma HolderStepFalls(s: Sys, h: HwAgent, t: nat)
    requires Runnable(s, t) && h.NoAgent? && s.holder == t && s.hw == -1
    requires !s.tasks[t].pc.Ready? && !InHw(s.tasks[t].pc) && TaskOk(s.tasks[t], s.spin)
    requires s.tasks[t].pc.SpinTake? ==> s.spin == 0
    ensures Falls(s, h, TaskStep(t))
  {
    hide Quiet;
    TaskRanksUpdate(s.tasks, t, Do(s, TaskStep(t)).tasks[t]);
  }

  /** If nobody has the mutex, the tasks that are not ready wait for it. */
  lemma Waits(s: Sys, h: HwAgent, o: SpinOwner) returns (t: nat)
    requires InvAt(s, h, o) && h.NoAgent? && s.holder == -1 && !AtRest(s)
    requires forall r :: 0 <= r < |s.readers| ==> s.readers[r].pc.Off?
    ensures t < |s.tasks| && (s.tasks[t].pc.LockGet? || s.tasks[t].pc.ReqGet?) && s.tasks[t].depth == 0
  {
    assert s.hw == -1 && s.count == 0 && s.spin == 0;
    hide HwOk, OneMasked, SpinOk;
    var u: int :| 0 <= u < |s.tasks| && !(s.tasks[u].pc.Ready? && s.tasks[u].depth == 0);
    assert Levels(s.tasks[u]) == 0;
    t := u;
  }

  lemma WaiterFalls(s: Sys, h: HwAgent, o: SpinOwner, t: nat)
    requires h.NoAgent? && s.holder == -1 && t < |s.tasks| && s.tasks[t].depth == 0
    requires s.tasks[t].pc.LockGet? || s.tasks[t].pc.ReqGet?
    requires InvAt(s, h, o) && forall core :: Quiet(s, core)
    ensures Falls(s, h, TaskStep(t))
  {
    assert Quiet(s, s.tasks[t].core) && TaskOk(s.tasks[t], s.spin);
    hide InvAt, Quiet;
    TaskRanksUpdate(s.tasks, t, Do(s, TaskStep(t)).tasks[t]);
  }

  lemma {:induction false} Settles(s: Sys, h: HwAgent, o: SpinOwner, m: set<nat>) returns (es: seq<Event>)
    requires InvAt(s, h, o)
    ensures Runs(s, es, m) && (forall e :: e in es ==> Ends(e)) && AtRest(Exec(s, es, m))
    decreases Rank(s, h)
  {
    hide InvAt, AtRest, Rank, Enabled, Do, HwAfter, SpinAfter;
    if AtRest(s) {
      es := [];
    } else {
      var e := Proceeds(s, h, o);
      StepKeeps(s, h, o, e);
      var fs := Settles(Do(s, e), HwAfter(s, h, e), SpinAfter(s, o, e), m);
      OneMore(s, e, fs, m);
      es := [e] + fs;
    }
  }

  /** From every state, however many tasks and low-level readers are where, all calls in progress can end and all
    * locks be undone: there is no deadlock, and balanced calls leave both locks free. */
  lemma AllCanBeReleased(tasks: seq<nat>, readers: seq<nat>, es: seq<Event>, m: set<nat>) returns (fs: seq<Event>)
    requires AllMask(tasks, readers, m) && Runs(Start(tasks, readers), es, m)
    ensures var s := Exec(Start(tasks, readers), es, m);
            Runs(s, fs, m) && (forall e :: e in fs ==> Ends(e)) && AtRest(Exec(s, fs, m))
  {
    var h, o := RunKeeps(Start(tasks, readers), NoAgent, Nobody, es, tasks, readers, m);
    fs := Settles(Exec(Start(tasks, readers), es, m), h, o, m);
  }

  // ---- anyone can get in ----

  /** From there a task that calls `lock` gets in. */
  lemma TaskEnters(s: Sys, t: nat, m: set<nat>) returns (fs: seq<Event>)
    requires AtRest(s) && t < |s.tasks|
    ensures Runs(s, fs, m) && Exec(s, fs, m) == With(s, t, Ready, 1, t, 1, 1)
  {
    var c, e := s.tasks[t].core, TaskStep(t);
    assert s.tasks[t] == Task(c, Ready, 0) && Quiet(s, c);
    var s1, s2 := With(s, t, LockGet(false), 0, -1, 0, 0), With(s, t, SpinTake, 0, t, 1, 0);
    SameQuiet(s, s1, c);
    SameQuiet(s, s2, c);
    TakesSpin(s, t, m);
    hide Quiet;
    assert Enabled(s, Lock(t)) && Do(s, Lock(t)) == s1;
    assert Enabled(s1, e) && Do(s1, e) == s2;
    hide Do, Enabled, With, AtRest;
    OneMore(s1, e, [e, e, e, e], m);
    OneMore(s, Lock(t), [e, e, e, e, e], m);
    fs := [Lock(t), e, e, e, e, e];
    assert [e] + [e, e, e, e] == [e, e, e, e, e] && fs == [Lock(t)] + [e, e, e, e, e];
  }

  lemma TakesSpin(s: Sys, t: nat, m: set<nat>)
    requires AtRest(s) && t < |s.tasks| && Quiet(s, s.tasks[t].core)
    ensures var s2, e := With(s, t, SpinTake, 0, t, 1, 0), TaskStep(t);
            Runs(s2, [e, e, e, e], m) && Exec(s2, [e, e, e, e], m) == With(s, t, Ready, 1, t, 1, 1)
  {
    var c, e := s.tasks[t].core, TaskStep(t);
    var s2, s3 := With(s, t, SpinTake, 0, t, 1, 0), With(s, t, SpinTest, 0, t, 1, 0).(hw := c);
    var s4, s5 := With(s, t, SpinSet, 0, t, 1, 0).(hw := c), With(s, t, SpinFree(true), 0, t, 1, 1).(hw := c);
    SameQuiet(s, s2, c);
    SameQuiet(s, s3, c);
    SameQuiet(s, s4, c);
    SameQuiet(s, s5, c);
    hide Quiet;
    assert Enabled(s2, e) && Do(s2, e) == s3 && Enabled(s3, e) && Do(s3, e) == s4;
    assert Enabled(s4, e) && Do(s4, e) == s5 && Enabled(s5, e) && Do(s5, e) == With(s, t, Ready, 1, t, 1, 1);
    hide Do, Enabled, With, AtRest;
    OneMore(s5, e, [], m);
    OneMore(s4, e, [e], m);
    OneMore(s3, e, [e, e], m);
    OneMore(s2, e, [e, e, e], m);
    assert [e] + [] == [e] && [e] + [e] == [e, e] && [e] + [e, e] == [e, e, e] && [e] + [e, e, e] == [e, e, e, e];
  }

  /** The state s with low-level reader r at `pc`. */
  ghost function WithReader(s: Sys, r: nat, pc: ReaderPc, spin: int, hw: int): Sys
    requires r < |s.readers|
  {
    s.(readers := s.readers[r := s.readers[r].(pc := pc)], spin := spin, hw := hw)
  }

  /** And a low-level read gets to reading. */
  lemma ReaderEnters(s: Sys, r: nat, m: set<nat>) returns (fs: seq<Event>)
    requires AtRest(s) && r < |s.readers|
    ensures Runs(s, fs, m) && Exec(s, fs, m) == WithReader(s, r, Read, 1, -1)
  {
    var c, e := s.readers[r].core, ReaderStep(r);
    var s1, s2 := WithReader(s, r, Take, 0, -1), WithReader(s, r, Test, 0, c);
    var s3, s4 := WithReader(s, r, Set, 0, c), WithReader(s, r, Free(true), 1, c);
    assert Quiet(s, c) && NoneInHw(s, c);
    assert Enabled(s, ReadLl(r)) && Masked(s, ReadLl(r), m) && Do(s, ReadLl(r)) == s1;
    hide Quiet, NoneInHw;
    assert Enabled(s1, e) && Do(s1, e) == s2 && Enabled(s2, e) && Do(s2, e) == s3;
    assert Enabled(s3, e) && Do(s3, e) == s4 && Enabled(s4, e) && Do(s4, e) == WithReader(s, r, Read, 1, -1);
    hide Do, Enabled, WithReader, AtRest;
    OneMore(s4, e, [], m);
    OneMore(s3, e, [e], m);
    OneMore(s2, e, [e, e], m);
    OneMore(s1, e, [e, e, e], m);
    OneMore(s, ReadLl(r), [e, e, e, e], m);
    fs := [ReadLl(r), e, e, e, e];
    assert [e] + [] == [e] && [e] + [e] == [e, e] && [e] + [e, e] == [e, e, e] && [e] + [e, e, e] == [e, e, e, e];
    assert fs == [ReadLl(r)] + [e, e, e, e];
  }

  /** A request takes a mutex that is free, or that its task has already, and gives it back. */
  lemma RequestRun(s: Sys, t: nat, m: set<nat>)
    requires Runnable(s, t) && s.tasks[t].pc.Ready?
    requires if s.holder == -1 then s.count == 0 else s.holder == t && s.count > 0
    ensures var d, e := s.tasks[t].depth, TaskStep(t);
            && Runs(s, [Request(t), e], m)
            && Exec(s, [Request(t), e], m) == With(s, t, ReqPut, d, t, s.count + 1, s.spin)
            && Runs(s, [Request(t), e, e], m) && Exec(s, [Request(t), e, e], m) == s
  {
    var d, e, c := s.tasks[t].depth, TaskStep(t), s.tasks[t].core;
    var s1, s2 := With(s, t, ReqGet, d, s.holder, s.count, s.spin), With(s, t, ReqPut, d, t, s.count + 1, s.spin);
    SameQuiet(s, s1, c);
    SameQuiet(s, s2, c);
    assert s.tasks[t := Task(c, Ready, d)] == s.tasks;
    hide Quiet;
    assert Enabled(s, Request(t)) && Do(s, Request(t)) == s1;
    assert Enabled(s1, e) && Do(s1, e) == s2 && Enabled(s2, e) && Do(s2, e) == s;
    hide Do, Enabled, With;
    OneMore(s2, e, [], m);
    OneMore(s1, e, [], m);
    OneMore(s1, e, [e], m);
    OneMore(s, Request(t), [e], m);
    OneMore(s, Request(t), [e, e], m);
    assert [e] + [] == [e] && [e] + [e] == [e, e];
    assert [Request(t)] + [e] == [Request(t), e] && [Request(t)] + [e, e] == [Request(t), e, e];
  }

  lemma {:induction false} SameSizes(s: Sys, es: seq<Event>, m: set<nat>)
    requires Runs(s, es, m)
    ensures |Exec(s, es, m).tasks| == |s.tasks| && |Exec(s, es, m).readers| == |s.readers|
    decreases |es|
  {
    if es != [] {
      assert |Do(s, es[0]).tasks| == |s.tasks| && |Do(s, es[0]).readers| == |s.readers| by { hide Quiet; }
      hide Do, Enabled, Masked;
      SameSizes(Do(s, es[0]), es[1..], m);
    }
  }

  /** From every state any task has a run into the lock, and any low-level reader one into its read: what the
    * others hold can be given back first. */
  lemma AnyoneCanGetIn(tasks: seq<nat>, readers: seq<nat>, es: seq<Event>, m: set<nat>)
    requires AllMask(tasks, readers, m) && Runs(Start(tasks, readers), es, m)
    ensures var s := Exec(Start(tasks, readers), es, m);
            && (forall t: nat :: t < |tasks| ==> CanLock(s, t, m))
            && (forall r: nat :: r < |readers| ==> CanRead(s, r, m))
  {
    var s := Exec(Start(tasks, readers), es, m);
    var fs := AllCanBeReleased(tasks, readers, es, m);
    SameSizes(Start(tasks, readers), es, m);
    SameSizes(s, fs, m);
    var u := Exec(s, fs, m);
    hide Runs, Exec, AtRest;
    forall t: nat | t < |tasks|
      ensures CanLock(s, t, m)
    {
      var gs := TaskEnters(u, t, m);
      RunsConcat(s, fs, gs, m);
      assert Locked(Exec(s, fs + gs, m), t);
    }
    forall r: nat | r < |readers|
      ensures CanRead(s, r, m)
    {
      var gs := ReaderEnters(u, r, m);
      RunsConcat(s, fs, gs, m);
      assert Reads(Exec(s, fs + gs, m), r);
    }
  }

  ghost predicate CanLock(s: Sys, t: nat, m: set<nat>) {
    exists es :: Runs(s, es, m) && Locked(Exec(s, es, m), t) && Exec(s, es, m).tasks[t].pc.Ready?
  }

  ghost predicate CanRead(s: Sys, r: nat, m: set<nat>) {
    exists es :: Runs(s, es, m) && Reads(Exec(s, es, m), r)
  }
}
