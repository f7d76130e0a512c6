/** The lock of the flash driver: a recursive mutex between tasks, and a spinlock word that low-level
  * readers, which may not block, share with whichever task has the mutex.
  *
  * The spinlock is tested and set under the hardware lock, which lets its core in again; a task that
  * already has it counts its nesting in the word without the hardware lock.  A low-level reader masks the
  * interrupts of its core until it has the spinlock; while it reads, they are enabled again between
  * chunks, so that tasks of its core, and further low-level reads on it, can run in between. */
module FlashLock {

  /** A task in `lock` (the mutex, then the spinlock or an increment), in `unlock`, or in `request`. */
  datatype TaskPc =
    | Ready
    | LockGet(owned: bool) | SpinTake | SpinTest | SpinSet | SpinFree(got: bool) | IncLoad | IncStore(v: int)
    | DecLoad | DecStore(v: int) | PutMutex
    | ReqGet | ReqPut

  /** `depth` is how many `lock` calls of the task have returned and not been undone. */
  datatype Task = Task(core: nat, pc: TaskPc, depth: nat)

  datatype ReaderPc = Off | Take | Test | Set | Free(got: bool) | Read

  /** A low-level read, which may happen again and again. */
  datatype Reader = Reader(core: nat, pc: ReaderPc)

  /** Tasks, low-level readers, the mutex, the spinlock word, and the core that has the hardware lock. */
  datatype Sys = Sys(tasks: seq<Task>, readers: seq<Reader>, holder: int, count: int, spin: int, hw: int)

  datatype Event =
    | Lock(t: nat) | Unlock(t: nat) | Request(t: nat)   // a task makes a call
    | TaskStep(t: nat)
    | ReadLl(r: nat)                                    // a low-level read starts
    | ReaderStep(r: nat)

  /** The steps of a low-level reader in which the interrupts of its core are masked. */
  predicate InMasked(pc: ReaderPc) { pc.Take? || pc.Test? || pc.Set? || pc.Free? }

  /** Nothing else runs on a core while a low-level reader has its interrupts masked. */
  predicate Quiet(s: Sys, core: nat) {
    forall r :: 0 <= r < |s.readers| && s.readers[r].core == core ==> !InMasked(s.readers[r].pc)
  }

  predicate Runnable(s: Sys, t: nat) {
    t < |s.tasks| && Quiet(s, s.tasks[t].core)
  }

  predicate TaskEnabled(s: Sys, t: nat)
    requires t < |s.tasks|
  {
    match s.tasks[t].pc
    case Ready => false
    case LockGet(_) => s.holder == -1 || s.holder == t
    case SpinTake => s.hw == -1 || s.hw == s.tasks[t].core
    case ReqGet => s.holder == -1 || s.holder == t
    case _ => true
  }

  predicate ReaderEnabled(s: Sys, r: nat)
    requires r < |s.readers|
  {
    match s.readers[r].pc
    case Off => false
    case Take => s.hw == -1 || s.hw == s.readers[r].core
    case Read => Quiet(s, s.readers[r].core)
    case _ => true
  }

  predicate Enabled(s: Sys, e: Event) {
    match e
    case Lock(t) => Runnable(s, t) && s.tasks[t].pc.Ready?
    case Unlock(t) => Runnable(s, t) && s.tasks[t].pc.Ready?
    case Request(t) => Runnable(s, t) && s.tasks[t].pc.Ready?
    case TaskStep(t) => Runnable(s, t) && TaskEnabled(s, t)
    case ReadLl(r) => r < |s.readers| && s.readers[r].pc.Off? && Quiet(s, s.readers[r].core)
    case ReaderStep(r) => r < |s.readers| && ReaderEnabled(s, r)
  }

  function SetPc(s: Sys, t: nat, pc: TaskPc): Sys
    requires t < |s.tasks|
  {
    s.(tasks := s.tasks[t := s.tasks[t].(pc := pc)])
  }

  /** The task's call of `lock` returns. */
  function Entered(s: Sys, t: nat): Sys
    requires t < |s.tasks|
  {
    s.(tasks := s.tasks[t := s.tasks[t].(pc := Ready, depth := s.tasks[t].depth + 1)])
  }

  function GetMutex(s: Sys, t: nat): Sys { s.(holder := t, count := s.count + 1) }

  function PutMutexOf(s: Sys): Sys { s.(holder := if s.count - 1 == 0 then -1 else s.holder, count := s.count - 1) }

  function DoTask(s: Sys, t: nat): Sys
    requires t < |s.tasks|
  {
    match s.tasks[t].pc
    case Ready => s
    case LockGet(owned) => SetPc(GetMutex(s, t), t, if owned then IncLoad else SpinTake)
    case SpinTake => SetPc(s, t, SpinTest).(hw := s.tasks[t].core)
    case SpinTest => SetPc(s, t, if s.spin == 0 then SpinSet else SpinFree(false))
    case SpinSet => SetPc(s, t, SpinFree(true)).(spin := 1)
    case SpinFree(got) => (if got then Entered(s, t) else SetPc(s, t, SpinTake)).(hw := -1)
    case IncLoad => SetPc(s, t, IncStore(s.spin))
    case IncStore(v) => Entered(s, t).(spin := v + 1)
    case DecLoad => SetPc(s, t, DecStore(s.spin))
    case DecStore(v) => SetPc(s, t, PutMutex).(spin := v - 1)
    case PutMutex => SetPc(PutMutexOf(s), t, Ready)
    case ReqGet => SetPc(GetMutex(s, t), t, ReqPut)
    case ReqPut => SetPc(PutMutexOf(s), t, Ready)
  }

  function SetReader(s: Sys, r: nat, pc: ReaderPc): Sys
    requires r < |s.readers|
  {
    s.(readers := s.readers[r := s.readers[r].(pc := pc)])
  }

  function DoReader(s: Sys, r: nat): Sys
    requires r < |s.readers|
  {
    match s.readers[r].pc
    case Off => s
    case Take => SetReader(s, r, Test).(hw := s.readers[r].core)
    case Test => SetReader(s, r, if s.spin == 0 then Set else Free(false))
    case Set => SetReader(s, r, Free(true)).(spin := 1)
    case Free(got) => SetReader(s, r, if got then Read else Off).(hw := -1)
    case Read => SetReader(s, r, Off).(spin := 0)
  }

  function Do(s: Sys, e: Event): Sys
    requires Enabled(s, e)
  {
    match e
    case Lock(t) => SetPc(s, t, LockGet(s.holder == t))
    case Unlock(t) =>
      if s.holder == t && s.tasks[t].depth > 0
      then s.(tasks := s.tasks[t := s.tasks[t].(pc := DecLoad, depth := s.tasks[t].depth - 1)]) else s
    case Request(t) => SetPc(s, t, ReqGet)
    case TaskStep(t) => DoTask(s, t)
    case ReadLl(r) => SetReader(s, r, Take)
    case ReaderStep(r) => DoReader(s, r)
  }

  predicate InHw(pc: TaskPc) { pc.SpinTest? || pc.SpinSet? || pc.SpinFree? }

  predicate ReaderInHw(pc: ReaderPc) { pc.Test? || pc.Set? || pc.Free? }

  /** No task of the core is in the few steps in which it holds the hardware lock. */
  predicate NoneInHw(s: Sys, core: nat) {
    forall t :: 0 <= t < |s.tasks| && s.tasks[t].core == core ==> !InHw(s.tasks[t].pc)
  }

  /** The rule that the cores of m keep: they mask interrupts while a task takes the spinlock, so that no
    * low-level read starts there in between. */
  predicate Masked(s: Sys, e: Event, m: set<nat>) {
    e.ReadLl? && e.r < |s.readers| && s.readers[e.r].core in m ==> NoneInHw(s, s.readers[e.r].core)
  }

  function Start(tasks: seq<nat>, readers: seq<nat>): Sys {
    Sys(seq(|tasks|, t requires 0 <= t < |tasks| => Task(tasks[t], Ready, 0)),
        seq(|readers|, r requires 0 <= r < |readers| => Reader(readers[r], Off)), -1, 0, 0, -1)
  }

  // ---- the invariant ----

  /** Who holds the hardware lock, and who the spinlock. */
  datatype HwAgent = NoAgent | TaskAgent(t: nat) | ReaderAgent(r: nat)

  datatype SpinOwner = Nobody | TaskHas | ReaderHas(r: nat)

  /** The mutex levels of a task: its nesting, and the call it is in. */
  ghost function Levels(k: Task): nat {
    k.depth + if k.pc.Ready? || k.pc.LockGet? || k.pc.ReqGet? then 0 else 1
  }

  /** The task's part of the spinlock word. */
  ghost function Share(k: Task): nat {
    k.depth + if k.pc == SpinFree(true) || k.pc.DecLoad? || k.pc.DecStore? then 1 else 0
  }

  ghost predicate HasSpin(pc: ReaderPc) { pc == Free(true) || pc.Read? }

  ghost predicate TaskOk(k: Task, spin: int) {
    match k.pc
    case LockGet(owned) => owned == (k.depth > 0)
    case SpinTake => k.depth == 0
    case SpinTest => k.depth == 0
    case SpinSet => k.depth == 0 && spin == 0
    case SpinFree(_) => k.depth == 0
    case IncLoad => k.depth > 0
    case IncStore(v) => k.depth > 0 && v == spin
    case DecStore(v) => v == spin
    case _ => true
  }

  ghost predicate MutexOk(s: Sys) {
    && -1 <= s.holder < |s.tasks|
    && (if s.holder == -1 then s.count == 0 else s.count == Levels(s.tasks[s.holder]) > 0)
    && forall t :: 0 <= t < |s.tasks| && t != s.holder ==> Levels(s.tasks[t]) == 0
  }

  ghost predicate HwOk(s: Sys, h: HwAgent) {
    && (match h
        case NoAgent => s.hw == -1
        case TaskAgent(t) => t < |s.tasks| && s.hw == s.tasks[t].core && Quiet(s, s.tasks[t].core)
        case ReaderAgent(r) => r < |s.readers| && s.hw == s.readers[r].core)
    && (forall t :: 0 <= t < |s.tasks| ==> (InHw(s.tasks[t].pc) <==> h == TaskAgent(t)))
    && (forall r :: 0 <= r < |s.readers| ==> (ReaderInHw(s.readers[r].pc) <==> h == ReaderAgent(r)))
  }

  predicate MaskedAt(s: Sys, r: int) { 0 <= r < |s.readers| && InMasked(s.readers[r].pc) }

  /** At most one low-level reader of a core has its interrupts masked. */
  ghost predicate OneMasked(s: Sys) {
    forall r, q ::
      MaskedAt(s, r) && MaskedAt(s, q) && s.readers[r].core == s.readers[q].core ==> r == q
  }

  ghost predicate SpinOk(s: Sys, o: SpinOwner) {
    && (match o
        case Nobody => s.spin == 0
        case TaskHas => 0 <= s.holder < |s.tasks| && s.spin == Share(s.tasks[s.holder]) > 0
        case ReaderHas(r) => r < |s.readers| && s.spin == 1)
    && (forall t :: 0 <= t < |s.tasks| && Share(s.tasks[t]) > 0 ==> o == TaskHas && t == s.holder)
    && (forall r :: 0 <= r < |s.readers| ==> (HasSpin(s.readers[r].pc) <==> o == ReaderHas(r)))
    && (forall r :: 0 <= r < |s.readers| && s.readers[r].pc.Set? ==> s.spin == 0)
  }

  ghost predicate TasksOk(s: Sys) {
    forall t :: 0 <= t < |s.tasks| ==> TaskOk(s.tasks[t], s.spin)
  }

  ghost predicate InvAt(s: Sys, h: HwAgent, o: SpinOwner) {
    TasksOk(s) && MutexOk(s) && HwOk(s, h) && OneMasked(s) && SpinOk(s, o)
  }

  function HwAfter(s: Sys, h: HwAgent, e: Event): HwAgent
    requires Enabled(s, e)
  {
    if e.TaskStep? && s.tasks[e.t].pc.SpinTake? then TaskAgent(e.t)
    else if e.TaskStep? && s.tasks[e.t].pc.SpinFree? then NoAgent
    else if e.ReaderStep? && s.readers[e.r].pc.Take? then ReaderAgent(e.r)
    else if e.ReaderStep? && s.readers[e.r].pc.Free? then NoAgent
    else h
  }

  function SpinAfter(s: Sys, o: SpinOwner, e: Event): SpinOwner
    requires Enabled(s, e)
  {
    if e.TaskStep? && s.tasks[e.t].pc.SpinSet? then TaskHas
    else if e.TaskStep? && s.tasks[e.t].pc.DecStore? && s.tasks[e.t].depth == 0 then Nobody
    else if e.ReaderStep? && s.readers[e.r].pc.Set? then ReaderHas(e.r)
    else if e.ReaderStep? && s.readers[e.r].pc.Read? then Nobody
    else o
  }

  // ---- every step keeps it ----

  /** A step of a task leaves the low-level readers as they are. */
  lemma SameReaders(s: Sys, t: Sys)
    requires OneMasked(s) && t.readers == s.readers
    ensures OneMasked(t) && forall core :: Quiet(t, core) == Quiet(s, core)
  {
  }

  lemma CallKeeps(s: Sys, h: HwAgent, o: SpinOwner, e: Event)
    requires InvAt(s, h, o) && Enabled(s, e) && (e.Lock? || e.Request?)
    ensures InvAt(Do(s, e), HwAfter(s, h, e), SpinAfter(s, o, e))
  {
    hide OneMasked, Quiet;
    SameReaders(s, Do(s, e));
  }

  lemma UnlockKeeps(s: Sys, h: HwAgent, o: SpinOwner, e: Event)
    requires InvAt(s, h, o) && Enabled(s, e) && e.Unlock?
    ensures InvAt(Do(s, e), HwAfter(s, h, e), SpinAfter(s, o, e))
  {
    hide OneMasked, Quiet;
    SameReaders(s, Do(s, e));
  }

  lemma ReadLlKeeps(s: Sys, h: HwAgent, o: SpinOwner, e: Event)
    requires InvAt(s, h, o) && Enabled(s, e) && e.ReadLl? && NoneInHw(s, s.readers[e.r].core)
    ensures InvAt(Do(s, e), HwAfter(s, h, e), SpinAfter(s, o, e))
  {
  }

  lemma GetKeeps(s: Sys, h: HwAgent, o: SpinOwner, e: Event)
    requires InvAt(s, h, o) && Enabled(s, e) && e.TaskStep?
    requires var pc := s.tasks[e.t].pc; pc.LockGet? || pc.ReqGet?
    ensures InvAt(Do(s, e), HwAfter(s, h, e), SpinAfter(s, o, e))
  {
    hide OneMasked, Quiet;
    SameReaders(s, Do(s, e));
  }

  lemma PutKeeps(s: Sys, h: HwAgent, o: SpinOwner, e: Event)
    requires InvAt(s, h, o) && Enabled(s, e) && e.TaskStep?
    requires var pc := s.tasks[e.t].pc; pc.PutMutex? || pc.ReqPut?
    ensures InvAt(Do(s, e), HwAfter(s, h, e), SpinAfter(s, o, e))
  {
    hide OneMasked, Quiet;
    SameReaders(s, Do(s, e));
  }

  lemma SpinKeeps(s: Sys, h: HwAgent, o: SpinOwner, e: Event)
    requires InvAt(s, h, o) && Enabled(s, e) && e.TaskStep?
    requires var pc := s.tasks[e.t].pc; pc.SpinTake? || pc.SpinTest? || pc.SpinSet? || pc.SpinFree?
    ensures InvAt(Do(s, e), HwAfter(s, h, e), SpinAfter(s, o, e))
  {
    hide OneMasked;
    SameReaders(s, Do(s, e));
  }

  lemma CountKeeps(s: Sys, h: HwAgent, o: SpinOwner, e: Event)
    requires InvAt(s, h, o) && Enabled(s, e) && e.TaskStep?
    requires var pc := s.tasks[e.t].pc; pc.IncLoad? || pc.IncStore? || pc.DecLoad? || pc.DecStore?
    ensures InvAt(Do(s, e), HwAfter(s, h, e), SpinAfter(s, o, e))
  {
    hide OneMasked, Quiet;
    SameReaders(s, Do(s, e));
  }

  lemma ReaderTakeKeeps(s: Sys, h: HwAgent, o: SpinOwner, e: Event)
    requires InvAt(s, h, o) && Enabled(s, e) && e.ReaderStep?
    requires var pc := s.readers[e.r].pc; pc.Take? || pc.Test?
    ensures InvAt(Do(s, e), HwAfter(s, h, e), SpinAfter(s, o, e))
  {
  }

  lemma ReaderSetKeeps(s: Sys, h: HwAgent, o: SpinOwner, e: Event)
    requires InvAt(s, h, o) && Enabled(s, e) && e.ReaderStep?
    requires var pc := s.readers[e.r].pc; pc.Set? || pc.Free? || pc.Read?
    ensures InvAt(Do(s, e), HwAfter(s, h, e), SpinAfter(s, o, e))
  {
  }

  lemma StepKeeps(s: Sys, h: HwAgent, o: SpinOwner, e: Event)
    requires InvAt(s, h, o) && Enabled(s, e) && (e.ReadLl? ==> NoneInHw(s, s.readers[e.r].core))
    ensures InvAt(Do(s, e), HwAfter(s, h, e), SpinAfter(s, o, e))
  {
    hide InvAt;
    match e
    case Lock(_) => CallKeeps(s, h, o, e);
    case Request(_) => CallKeeps(s, h, o, e);
    case Unlock(_) => UnlockKeeps(s, h, o, e);
    case ReadLl(_) => ReadLlKeeps(s, h, o, e);
    case TaskStep(t) =>
      match s.tasks[t].pc {
        case LockGet(_) => GetKeeps(s, h, o, e);
        case ReqGet => GetKeeps(s, h, o, e);
        case PutMutex => PutKeeps(s, h, o, e);
        case ReqPut => PutKeeps(s, h, o, e);
        case SpinTake => SpinKeeps(s, h, o, e);
        case SpinTest => SpinKeeps(s, h, o, e);
        case SpinSet => SpinKeeps(s, h, o, e);
        case SpinFree(_) => SpinKeeps(s, h, o, e);
        case _ => CountKeeps(s, h, o, e);
      }
    case ReaderStep(r) =>
      if s.readers[r].pc.Take? || s.readers[r].pc.Test? {
        ReaderTakeKeeps(s, h, o, e);
      } else {
        ReaderSetKeeps(s, h, o, e);
      }
  }

  // ---- runs ----

  ghost predicate Runs(s: Sys, es: seq<Event>, m: set<nat>)
    decreases |es|
  {
    es == [] || (Enabled(s, es[0]) && Masked(s, es[0], m) && Runs(Do(s, es[0]), es[1..], m))
  }

  ghost function Exec(s: Sys, es: seq<Event>, m: set<nat>): Sys
    requires Runs(s, es, m)
    decreases |es|
  {
    if es == [] then s else Exec(Do(s, es[0]), es[1..], m)
  }

  /** Every core that has both a task and a low-level reader keeps the rule. */
  predicate AllMask(tasks: seq<nat>, readers: seq<nat>, m: set<nat>) {
    forall t, r :: 0 <= t < |tasks| && 0 <= r < |readers| && tasks[t] == readers[r] ==> tasks[t] in m
  }

  /** The cores of the tasks and the readers. */
  ghost predicate CoresAre(s: Sys, tasks: seq<nat>, readers: seq<nat>) {
    && |s.tasks| == |tasks| && |s.readers| == |readers|
    && (forall t :: 0 <= t < |tasks| ==> s.tasks[t].core == tasks[t])
    && (forall r :: 0 <= r < |readers| ==> s.readers[r].core == readers[r])
  }

  lemma CoresStay(s: Sys, e: Event, tasks: seq<nat>, readers: seq<nat>)
    requires CoresAre(s, tasks, readers) && Enabled(s, e)
    ensures CoresAre(Do(s, e), tasks, readers)
  {
    hide Quiet;
  }

  lemma MaskedThere(s: Sys, e: Event, tasks: seq<nat>, readers: seq<nat>, m: set<nat>)
    requires CoresAre(s, tasks, readers) && AllMask(tasks, readers, m) && Enabled(s, e) && Masked(s, e, m) && e.ReadLl?
    ensures NoneInHw(s, s.readers[e.r].core)
  {
    hide Quiet;
    forall t | 0 <= t < |s.tasks| && s.tasks[t].core == s.readers[e.r].core
      ensures !InHw(s.tasks[t].pc)
    {
      assert tasks[t] == readers[e.r];
    }
  }

  lemma {:induction false} RunKeeps(s: Sys, h: HwAgent, o: SpinOwner, es: seq<Event>, tasks: seq<nat>,
                                    readers: seq<nat>, m: set<nat>) returns (h': HwAgent, o': SpinOwner)
    requires CoresAre(s, tasks, readers) && AllMask(tasks, readers, m)
    requires InvAt(s, h, o) && Runs(s, es, m)
    ensures InvAt(Exec(s, es, m), h', o')
    decreases |es|
  {
    hide InvAt, Enabled, Do, Masked, HwAfter, SpinAfter, CoresAre, AllMask, NoneInHw;
    if es == [] {
      h', o' := h, o;
    } else {
      var e := es[0];
      if e.ReadLl? { MaskedThere(s, e, tasks, readers, m); }
      StepKeeps(s, h, o, e);
      CoresStay(s, e, tasks, readers);
      h', o' := RunKeeps(Do(s, e), HwAfter(s, h, e), SpinAfter(s, o, e), es[1..], tasks, readers, m);
    }
  }

  /** Task t is inside the flash lock. */
  predicate Locked(s: Sys, t: int) { 0 <= t < |s.tasks| && s.tasks[t].depth > 0 }

  /** Low-level reader r is reading the flash. */
  predicate Reads(s: Sys, r: int) { 0 <= r < |s.readers| && s.readers[r].pc.Read? }

  /** Tasks in the lock and low-level readers exclude one another. */
  ghost predicate Exclusive(s: Sys) {
    && (forall t, u :: Locked(s, t) && Locked(s, u) ==> t == u)
    && (forall t, r :: Locked(s, t) ==> !Reads(s, r))
    && (forall r, q :: Reads(s, r) && Reads(s, q) ==> r == q)
  }

  /** Over every run in which the cores with tasks and low-level readers keep the rule, for any nesting depth: at
    * most one task or low-level reader is inside; the spinlock word is the depth of the task that has the lock
    * when it is between calls, and one while a low-level reader reads. */
  lemma FlashExclusion(tasks: seq<nat>, readers: seq<nat>, es: seq<Event>, m: set<nat>)
    requires AllMask(tasks, readers, m) && Runs(Start(tasks, readers), es, m)
    ensures var s := Exec(Start(tasks, readers), es, m);
            && Exclusive(s)
            && (forall t :: Locked(s, t) && s.tasks[t].pc.Ready? ==>
                  s.spin == s.count == s.tasks[t].depth && s.holder == t)
            && (forall r :: Reads(s, r) ==> s.spin == 1)
  {
    var h, o := RunKeeps(Start(tasks, readers), NoAgent, Nobody, es, tasks, readers, m);
    hide HwOk, OneMasked;
  }

  // ---- why the rule is needed, on every such core ----

  lemma {:induction false} RunsConcat(s: Sys, es: seq<Event>, fs: seq<Event>, m: set<nat>)
    requires Runs(s, es, m) && Runs(Exec(s, es, m), fs, m)
    ensures Runs(s, es + fs, m) && Exec(s, es + fs, m) == Exec(Exec(s, es, m), fs, m)
    decreases |es|
  {
    hide Enabled, Do, Masked;
    if es == [] {
      assert es + fs == fs;
    } else {
      assert (es + fs)[0] == es[0] && (es + fs)[1..] == es[1..] + fs;
      RunsConcat(Do(s, es[0]), es[1..], fs, m);
    }
  }

  lemma Then(s: Sys, es: seq<Event>, e: Event, t: Sys, m: set<nat>) returns (fs: seq<Event>)
    requires Runs(s, es, m) && Enabled(Exec(s, es, m), e) && Masked(Exec(s, es, m), e, m) && Do(Exec(s, es, m), e) == t
    ensures Runs(s, fs, m) && Exec(s, fs, m) == t
  {
    hide Enabled, Do, Masked;
    var u := Exec(s, es, m);
    assert [e][1..] == [];
    assert Runs(u, [e], m) && Exec(u, [e], m) == t;
    RunsConcat(s, es, [e], m);
    fs := es + [e];
  }

  /** All at rest but task t and reader r, which are on the same core. */
  ghost predicate Pair(s: Sys, t: nat, r: nat) {
    && t < |s.tasks| && r < |s.readers| && s.tasks[t].core == s.readers[r].core
    && (forall q :: 0 <= q < |s.readers| && q != r ==> s.readers[q].pc.Off?)
  }

  ghost function At(s: Sys, t: nat, r: nat, pc: TaskPc, depth: nat, rpc: ReaderPc, spin: int, hw: int): Sys
    requires t < |s.tasks| && r < |s.readers|
  {
    s.(tasks := s.tasks[t := s.tasks[t].(pc := pc, depth := depth)],
       readers := s.readers[r := s.readers[r].(pc := rpc)],
       holder := t, count := 1, spin := spin, hw := hw)
  }

  /** The task has found the spinlock free and not yet taken it. */
  lemma FoundFree(s: Sys, t: nat, r: nat, m: set<nat>) returns (es: seq<Event>)
    requires Pair(s, t, r) && s.tasks[t] == Task(s.tasks[t].core, Ready, 0) && s.readers[r].pc.Off?
    requires s.holder == -1 && s.count == 0 && s.spin == 0 && s.hw == -1
    ensures Runs(s, es, m) && Exec(s, es, m) == At(s, t, r, SpinSet, 0, Off, 0, s.tasks[t].core)
  {
    var c := s.tasks[t].core;
    es := [];
    assert Runs(s, es, m) && Exec(s, es, m) == s;
    hide Runs, Exec;
    es := Then(s, es, Lock(t), s.(tasks := s.tasks[t := Task(c, LockGet(false), 0)]), m);
    es := Then(s, es, TaskStep(t), At(s, t, r, SpinTake, 0, Off, 0, -1), m);
    es := Then(s, es, TaskStep(t), At(s, t, r, SpinTest, 0, Off, 0, c), m);
    es := Then(s, es, TaskStep(t), At(s, t, r, SpinSet, 0, Off, 0, c), m);
  }

  /** The reader interrupts the task there, is let in by the hardware lock, and gives it back. */
  lemma ReaderGetsIn(s: Sys, es: seq<Event>, t: nat, r: nat, m: set<nat>) returns (fs: seq<Event>)
    requires Pair(s, t, r) && s.readers[r].pc.Off? && s.tasks[t].core !in m
    requires Runs(s, es, m) && Exec(s, es, m) == At(s, t, r, SpinSet, 0, Off, 0, s.tasks[t].core)
    ensures Runs(s, fs, m) && Exec(s, fs, m) == At(s, t, r, SpinSet, 0, Read, 1, -1)
  {
    var c := s.tasks[t].core;
    hide Runs, Exec;
    fs := Then(s, es, ReadLl(r), At(s, t, r, SpinSet, 0, Take, 0, c), m);
    fs := Then(s, fs, ReaderStep(r), At(s, t, r, SpinSet, 0, Test, 0, c), m);
    fs := Then(s, fs, ReaderStep(r), At(s, t, r, SpinSet, 0, Set, 0, c), m);
    fs := Then(s, fs, ReaderStep(r), At(s, t, r, SpinSet, 0, Free(true), 1, c), m);
    fs := Then(s, fs, ReaderStep(r), At(s, t, r, SpinSet, 0, Read, 1, -1), m);
  }

  /** The task goes on and enters while the reader reads. */
  lemma TaskGetsIn(s: Sys, es: seq<Event>, t: nat, r: nat, m: set<nat>) returns (fs: seq<Event>)
    requires Pair(s, t, r) && Runs(s, es, m) && Exec(s, es, m) == At(s, t, r, SpinSet, 0, Read, 1, -1)
    ensures Runs(s, fs, m) && Exec(s, fs, m) == At(s, t, r, Ready, 1, Read, 1, -1)
  {
    hide Runs, Exec;
    fs := Then(s, es, TaskStep(t), At(s, t, r, SpinFree(true), 0, Read, 1, -1), m);
    fs := Then(s, fs, TaskStep(t), At(s, t, r, Ready, 1, Read, 1, -1), m);
  }

  /** On any core with a task and a low-level reader that does not keep the rule, whatever the other cores do, the
    * reader can interrupt the task between finding the spinlock free and taking it, and then both are inside. */
  lemma UnmaskedReadBreaksTheLock(tasks: seq<nat>, readers: seq<nat>, m: set<nat>, t: nat, r: nat)
      returns (es: seq<Event>)
    requires t < |tasks| && r < |readers| && tasks[t] == readers[r] && tasks[t] !in m
    ensures Runs(Start(tasks, readers), es, m)
    ensures Locked(Exec(Start(tasks, readers), es, m), t) && Reads(Exec(Start(tasks, readers), es, m), r)
  {
    var s := Start(tasks, readers);
    es := FoundFree(s, t, r, m);
    es := ReaderGetsIn(s, es, t, r, m);
    es := TaskGetsIn(s, es, t, r, m);
    hide Runs, Exec, Start;
  }

  /** The exclusion holds on every run if and only if every core that has both a task and a low-level reader keeps
    * the rule. */
  lemma ExclusionExact(tasks: seq<nat>, readers: seq<nat>, m: set<nat>)
    ensures (forall es :: Runs(Start(tasks, readers), es, m) ==> Exclusive(Exec(Start(tasks, readers), es, m)))
            <==> AllMask(tasks, readers, m)
  {
    hide Runs, Exec, Start, Exclusive;
    if AllMask(tasks, readers, m) {
      forall es | Runs(Start(tasks, readers), es, m)
        ensures Exclusive(Exec(Start(tasks, readers), es, m))
      {
        FlashExclusion(tasks, readers, es, m);
      }
    } else {
      var t, r :| 0 <= t < |tasks| && 0 <= r < |readers| && tasks[t] == readers[r] && tasks[t] !in m;
      var es := UnmaskedReadBreaksTheLock(tasks, readers, m, t, r);
      NotBoth(Exec(Start(tasks, readers), es, m), t, r);
    }
  }

  lemma NotBoth(s: Sys, t: nat, r: nat)
    ensures Exclusive(s) && Locked(s, t) ==> !Reads(s, r)
  {
  }
}
