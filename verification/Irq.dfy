/** Inter-core interrupts: pending source bits per core under a shared recursive lock, and at most one
  * wake-up token per core.
  *
  * The lock is a hardware lock that lets its owner in again, plus a counter that is updated after the
  * hardware lock is taken and before it is given back.  Each core runs a main context and, on top of it,
  * an interrupt handler with its own context; non-RTOS cores only post.  All steps interleave freely. */
module Irq {

  /** What a context takes the lock for: its own critical section, or leaving it, posting a source to a
    * core, or the handler's snapshot. */
  datatype Job = Enter | Leave | Post(target: nat, src: nat) | Snap

  /** Where a context is; `empty` is what it read of the target's pending bits before it set its own. */
  datatype Pc =
    | Idle
    | Taking(job: Job) | Counting(job: Job)
    | Reading(target: nat, src: nat)
    | Loading(target: nat, src: nat, empty: bool)
    | Storing(target: nat, src: nat, empty: bool, bits: set<nat>)
    | Sending(target: nat, src: nat, empty: bool)
    | Snapping | Clearing(bits: set<nat>)
    | Uncounting(job: Job) | Freeing(job: Job)

  /** `outer` counts the critical sections the context is in. */
  datatype Ctx = Ctx(pc: Pc, outer: nat)

  datatype Handler = Off | Asserting | AtToken | Active(snap: set<nat>)

  datatype Core = Core(main: Ctx, handler: Handler, inner: Ctx)

  /** What has happened to a core's pending bits; not in the code. */
  datatype Mark = Posted(src: nat) | Snapped(bits: set<nat>)

  /** `owner` is the core that has the hardware lock, or -1. */
  datatype Sys = Sys(cores: seq<Core>, pending: seq<set<nat>>, tokens: seq<nat>, owner: int, count: int,
                     history: seq<seq<Mark>>)

  datatype Event =
    | Call(i: nat, job: Job)    // enter a critical section, or rtos_irq
    | Exit(i: nat)
    | Step(i: nat)              // the next step of the active context
    | Interrupt(i: nat) | HandlerAssert(i: nat) | HandlerToken(i: nat) | HandlerReturn(i: nat)

  const QUIET := Ctx(Idle, 0)

  function Act(c: Core): Ctx { if c.handler.Active? then c.inner else c.main }

  function SetAct(c: Core, x: Ctx): Core { if c.handler.Active? then c.(inner := x) else c.(main := x) }

  /** A context runs unless an interrupt has just come in on top of it. */
  predicate CanRun(c: Core) { c.handler.Off? || c.handler.Active? }

  predicate PcEnabled(s: Sys, i: nat, pc: Pc)
    requires i < |s.cores|
  {
    match pc
    case Idle => false
    case Taking(_) => s.owner == -1 || s.owner == i
    case Counting(_) => true
    case Reading(t, _) => t < |s.pending|
    case Loading(t, _, _) => t < |s.pending|
    case Storing(t, _, _, _) => t < |s.pending| == |s.history|
    case Sending(t, _, _) => t < |s.tokens|
    case Snapping => i < |s.pending| && s.cores[i].handler.Active?
    case Clearing(_) => i < |s.pending| == |s.history| && s.cores[i].handler.Active?
    case Uncounting(_) => true
    case Freeing(_) => true
  }

  predicate Enabled(s: Sys, e: Event) {
    e.i < |s.cores| &&
    var c := s.cores[e.i];
    match e
    case Call(i, job) =>
      CanRun(c) && Act(c).pc.Idle? && (job.Enter? || (job.Post? && job.target < |s.pending|))
    case Exit(i) => CanRun(c) && Act(c).pc.Idle? && Act(c).outer > 0
    case Step(i) => CanRun(c) && PcEnabled(s, i, Act(c).pc)
    case Interrupt(i) => c.handler.Off? && i < |s.tokens| && s.tokens[i] > 0
    case HandlerAssert(i) => c.handler.Asserting?
    case HandlerToken(i) => c.handler.AtToken? && i < |s.tokens| && s.tokens[i] > 0
    case HandlerReturn(i) => c.handler.Active? && c.inner == QUIET
  }

  function SetPc(s: Sys, i: nat, pc: Pc): Sys
    requires i < |s.cores|
  {
    s.(cores := s.cores[i := SetAct(s.cores[i], Act(s.cores[i]).(pc := pc))])
  }

  function SetCtx(s: Sys, i: nat, x: Ctx): Sys
    requires i < |s.cores|
  {
    s.(cores := s.cores[i := SetAct(s.cores[i], x)])
  }

  function Record(s: Sys, t: nat, m: Mark): Sys
    requires t < |s.history|
  {
    s.(history := s.history[t := s.history[t] + [m]])
  }

  function AfterCount(job: Job, x: Ctx): Ctx {
    match job
    case Enter => Ctx(Idle, x.outer + 1)
    case Leave => x.(pc := Idle)
    case Post(t, src) => x.(pc := Reading(t, src))
    case Snap => x.(pc := Snapping)
  }

  function Pred(n: nat): nat { if n == 0 then 0 else n - 1 }

  function DoStep(s: Sys, i: nat): Sys
    requires i < |s.cores| && PcEnabled(s, i, Act(s.cores[i]).pc)
  {
    var x := Act(s.cores[i]);
    match x.pc
    case Taking(job) => SetPc(s, i, Counting(job)).(owner := i)
    case Counting(job) => SetCtx(s, i, AfterCount(job, x)).(count := s.count + 1)
    case Reading(t, src) => SetPc(s, i, Loading(t, src, s.pending[t] == {}))
    case Loading(t, src, empty) => SetPc(s, i, Storing(t, src, empty, s.pending[t]))
    case Storing(t, src, empty, bits) =>
      Record(SetPc(s, i, Sending(t, src, empty)).(pending := s.pending[t := bits + {src}]), t, Posted(src))
    case Sending(t, src, empty) =>
      SetPc(s, i, Uncounting(Post(t, src))).(tokens := if empty then s.tokens[t := s.tokens[t] + 1] else s.tokens)
    case Snapping => SetPc(s, i, Clearing(s.pending[i]))
    case Clearing(bits) =>
      var c := s.cores[i].(handler := Active(bits), inner := x.(pc := Uncounting(Snap)));
      Record(s.(cores := s.cores[i := c], pending := s.pending[i := {}]), i, Snapped(bits))
    case Uncounting(job) =>
      var y := if job.Leave? then x.(outer := Pred(x.outer)) else x;
      SetCtx(s, i, y.(pc := if s.count - 1 == 0 then Freeing(job) else Idle)).(count := s.count - 1)
    case Freeing(_) => SetPc(s, i, Idle).(owner := -1)
  }

  function Do(s: Sys, e: Event): Sys
    requires Enabled(s, e)
  {
    var i := e.i;
    var c := s.cores[i];
    match e
    case Call(_, job) => SetPc(s, i, Taking(job))
    case Exit(_) => SetPc(s, i, Uncounting(Leave))
    case Step(_) => DoStep(s, i)
    case Interrupt(_) => s.(cores := s.cores[i := c.(handler := Asserting)])
    case HandlerAssert(_) => s.(cores := s.cores[i := c.(handler := AtToken)])
    case HandlerToken(_) =>
      s.(cores := s.cores[i := c.(handler := Active({}), inner := Ctx(Taking(Snap), 0))],
         tokens := s.tokens[i := s.tokens[i] - 1])
    case HandlerReturn(_) => s.(cores := s.cores[i := c.(handler := Off, inner := QUIET)])
  }

  /** The rule that the cores of m keep: they mask their interrupts while they are in `rtos_irq` or a critical
    * section, so that the handler starts only when the core has nothing to do with the lock. */
  predicate Masked(s: Sys, e: Event, m: set<nat>) {
    e.Interrupt? && e.i < |s.cores| && e.i in m ==> s.cores[e.i].main == QUIET
  }

  /** Every core that takes interrupts keeps the rule. */
  predicate AllMask(rtos: nat, m: set<nat>) {
    forall i: nat :: i < rtos ==> i in m
  }

  /** All cores idle, `rtos` of them with pending bits and a channel end. */
  function Start(cores: nat, rtos: nat): Sys {
    Sys(seq(cores, i => Core(QUIET, Off, QUIET)), seq(rtos, i => {}), seq(rtos, i => 0), -1, 0, seq(rtos, i => []))
  }

  // ---- the invariant ----

  function One(b: bool): nat { if b then 1 else 0 }

  /** The critical sections of a context: the ones it is in, and its post or snapshot. */
  function Depth(x: Ctx): nat {
    x.outer + One(x.pc.Reading? || x.pc.Loading? || x.pc.Storing? || x.pc.Sending? || x.pc.Snapping? || x.pc.Clearing?
                  || (x.pc.Uncounting? && !x.pc.job.Leave?))
  }

  ghost predicate Holds(x: Ctx) {
    Depth(x) > 0 || x.pc.Counting? || x.pc.Freeing?
  }

  /** A context's program counter makes sense. */
  ghost predicate CtxOk(x: Ctx, rtos: nat) {
    match x.pc
    case Taking(j) => !j.Leave? && (j.Post? ==> j.target < rtos) && (j.Snap? ==> x.outer == 0)
    case Counting(j) => !j.Leave? && (j.Post? ==> j.target < rtos) && (j.Snap? ==> x.outer == 0)
    case Reading(t, _) => t < rtos
    case Loading(t, _, _) => t < rtos
    case Storing(t, _, _, _) => t < rtos
    case Sending(t, _, _) => t < rtos
    case Uncounting(j) => !j.Enter? && (j.Leave? ==> x.outer > 0)
    case Freeing(j) => x.outer == 0
    case _ => true
  }

  ghost predicate Snaps(x: Ctx) {
    x.pc.Snapping? || x.pc.Clearing? || ((x.pc.Taking? || x.pc.Counting?) && x.pc.job.Snap?)
  }

  ghost predicate CoreOk(c: Core, rtos: nat, isRtos: bool) {
    && (!c.handler.Off? ==> isRtos && c.main == QUIET)
    && (!c.handler.Active? ==> c.inner == QUIET)
    && CtxOk(Act(c), rtos)
    && (Snaps(Act(c)) ==> c.handler.Active? && Act(c).outer == 0)
  }

  ghost predicate CoresOk(s: Sys) {
    && |s.pending| == |s.tokens| == |s.history| <= |s.cores|
    && forall i :: 0 <= i < |s.cores| ==> CoreOk(s.cores[i], |s.pending|, i < |s.pending|)
  }

  /** Only the owner is in or at the edge of a critical section, and the counter is its nesting depth. */
  ghost predicate LockOk(s: Sys) {
    && -1 <= s.owner < |s.cores|
    && (forall i :: 0 <= i < |s.cores| && i != s.owner ==> !Holds(Act(s.cores[i])))
    && (if s.owner == -1 then s.count == 0
        else Holds(Act(s.cores[s.owner])) && s.count == Depth(Act(s.cores[s.owner])))
  }

  /** What a posting context has read is still so. */
  ghost predicate ReadOk(pc: Pc, pending: seq<set<nat>>) {
    match pc
    case Loading(t, _, empty) => t < |pending| && empty == (pending[t] == {})
    case Storing(t, _, empty, bits) => t < |pending| && bits == pending[t] && empty == (bits == {})
    case Sending(t, _, _) => t < |pending| && pending[t] != {}
    case _ => true
  }

  ghost predicate ReadsOk(s: Sys) {
    && (forall i :: 0 <= i < |s.cores| ==> ReadOk(Act(s.cores[i]).pc, s.pending))
    && (forall i :: 0 <= i < |s.cores| && i < |s.pending| && Act(s.cores[i]).pc.Clearing? ==>
          Act(s.cores[i]).pc.bits == s.pending[i])
  }

  /** The lock owner has set the first bit of core c and not yet sent its token. */
  ghost function Between(s: Sys, c: nat): nat {
    One(0 <= s.owner < |s.cores| && var pc := Act(s.cores[s.owner]).pc; pc.Sending? && pc.target == c && pc.empty)
  }

  /** The handler of core c has read the token and not yet cleared the bits. */
  ghost function Handling(s: Sys, c: nat): nat
    requires c < |s.cores|
  {
    One(Snaps(Act(s.cores[c])))
  }

  /** One wake-up is on its way to a core exactly when it has pending bits. */
  ghost predicate TokenOk(s: Sys, c: nat)
    requires c < |s.pending| && c < |s.tokens| && c < |s.cores|
  {
    && s.tokens[c] + Handling(s, c) + Between(s, c) == One(s.pending[c] != {})
    && (s.cores[c].handler.Asserting? || s.cores[c].handler.AtToken? ==> s.tokens[c] > 0)
  }

  ghost predicate TokensOk(s: Sys)
    requires |s.pending| == |s.tokens| <= |s.cores|
  {
    forall c :: 0 <= c < |s.pending| ==> TokenOk(s, c)
  }

  ghost predicate Inv(s: Sys) {
    CoresOk(s) && LockOk(s) && ReadsOk(s) && TokensOk(s) && HistoryOk(s)
  }

  // ---- the history of a core's pending bits ----

  /** The sources posted since the last snapshot. */
  ghost function Since(h: seq<Mark>): set<nat> {
    if h == [] then {}
    else match h[|h| - 1]
      case Posted(src) => Since(h[..|h| - 1]) + {src}
      case Snapped(_) => {}
  }

  ghost predicate Exact(h: seq<Mark>) {
    forall j :: 0 <= j < |h| && h[j].Snapped? ==> h[j].bits == Since(h[..j])
  }

  ghost predicate HistoryOk(s: Sys) {
    && |s.history| == |s.pending|
    && forall c :: 0 <= c < |s.history| ==> Exact(s.history[c]) && Since(s.history[c]) == s.pending[c]
  }

  // ---- every step keeps it ----

  lemma TakeKeeps(s: Sys, i: nat)
    requires Inv(s) && Enabled(s, Step(i)) && Act(s.cores[i]).pc.Taking?
    ensures Inv(Do(s, Step(i)))
  {
    hide HistoryOk;
    var t := Do(s, Step(i));
    HistorySame(s, t);
    forall c | 0 <= c < |t.pending|
      ensures TokenOk(t, c)
    {
      assert TokenOk(s, c);
    }
  }

  lemma HistorySame(s: Sys, t: Sys)
    requires HistoryOk(s) && t.history == s.history && t.pending == s.pending
    ensures HistoryOk(t)
  {
  }

  lemma HistoryGrows(s: Sys, t: Sys, c: nat, m: Mark)
    requires HistoryOk(s) && c < |s.history| && t.history == s.history[c := s.history[c] + [m]]
    requires m.Snapped? ==> m.bits == s.pending[c]
    requires t.pending == s.pending[c := if m.Posted? then s.pending[c] + {m.src} else {}]
    ensures HistoryOk(t)
  {
    var h := s.history[c];
    var g := h + [m];
    assert g[..|h|] == h;
    assert Exact(g) by {
      forall j | 0 <= j < |g| && g[j].Snapped?
        ensures g[j].bits == Since(g[..j])
      {
        if j < |h| { assert g[..j] == h[..j]; }
      }
    }
  }

  lemma CountKeeps(s: Sys, i: nat)
    requires Inv(s) && Enabled(s, Step(i)) && Act(s.cores[i]).pc.Counting?
    ensures Inv(Do(s, Step(i)))
  {
    hide HistoryOk;
    var t := Do(s, Step(i));
    HistorySame(s, t);
    forall c | 0 <= c < |t.pending|
      ensures TokenOk(t, c)
    {
      assert TokenOk(s, c);
    }
  }

  lemma ReadKeeps(s: Sys, i: nat)
    requires Inv(s) && Enabled(s, Step(i)) && (Act(s.cores[i]).pc.Reading? || Act(s.cores[i]).pc.Loading?)
    ensures Inv(Do(s, Step(i)))
  {
    hide HistoryOk;
    var t := Do(s, Step(i));
    HistorySame(s, t);
    forall c | 0 <= c < |t.pending|
      ensures TokenOk(t, c)
    {
      assert TokenOk(s, c);
    }
  }

  lemma StoreKeeps(s: Sys, i: nat)
    requires Inv(s) && Enabled(s, Step(i)) && Act(s.cores[i]).pc.Storing?
    ensures Inv(Do(s, Step(i)))
  {
    hide HistoryOk;
    var t := Do(s, Step(i));
    HistoryGrows(s, t, Act(s.cores[i]).pc.target, Posted(Act(s.cores[i]).pc.src));
    forall c | 0 <= c < |t.pending|
      ensures TokenOk(t, c)
    {
      assert TokenOk(s, c);
    }
  }

  lemma SendKeeps(s: Sys, i: nat)
    requires Inv(s) && Enabled(s, Step(i)) && Act(s.cores[i]).pc.Sending?
    ensures Inv(Do(s, Step(i)))
  {
    hide HistoryOk;
    var t := Do(s, Step(i));
    HistorySame(s, t);
    forall c | 0 <= c < |t.pending|
      ensures TokenOk(t, c)
    {
      assert TokenOk(s, c);
    }
  }

  lemma SnapKeeps(s: Sys, i: nat)
    requires Inv(s) && Enabled(s, Step(i)) && Act(s.cores[i]).pc.Snapping?
    ensures Inv(Do(s, Step(i)))
  {
    hide HistoryOk;
    var t := Do(s, Step(i));
    HistorySame(s, t);
    forall c | 0 <= c < |t.pending|
      ensures TokenOk(t, c)
    {
      assert TokenOk(s, c);
    }
  }

  lemma ClearKeeps(s: Sys, i: nat)
    requires Inv(s) && Enabled(s, Step(i)) && Act(s.cores[i]).pc.Clearing?
    ensures Inv(Do(s, Step(i)))
  {
    hide HistoryOk;
    var t := Do(s, Step(i));
    HistoryGrows(s, t, i, Snapped(Act(s.cores[i]).pc.bits));
    forall c | 0 <= c < |t.pending|
      ensures TokenOk(t, c)
    {
      assert TokenOk(s, c);
    }
  }

  lemma UncountKeeps(s: Sys, i: nat)
    requires Inv(s) && Enabled(s, Step(i)) && (Act(s.cores[i]).pc.Uncounting? || Act(s.cores[i]).pc.Freeing?)
    ensures Inv(Do(s, Step(i)))
  {
    hide HistoryOk;
    var t := Do(s, Step(i));
    HistorySame(s, t);
    forall c | 0 <= c < |t.pending|
      ensures TokenOk(t, c)
    {
      assert TokenOk(s, c);
    }
  }

  lemma CallKeeps(s: Sys, e: Event)
    requires Inv(s) && Enabled(s, e) && e.Call?
    ensures Inv(Do(s, e))
  {
    hide HistoryOk;
    var t := Do(s, e);
    HistorySame(s, t);
    forall c | 0 <= c < |t.pending|
      ensures TokenOk(t, c)
    {
      assert TokenOk(s, c);
    }
  }

  lemma ExitKeeps(s: Sys, e: Event)
    requires Inv(s) && Enabled(s, e) && e.Exit?
    ensures Inv(Do(s, e))
  {
    hide HistoryOk;
    var t := Do(s, e);
    HistorySame(s, t);
    forall c | 0 <= c < |t.pending|
      ensures TokenOk(t, c)
    {
      assert TokenOk(s, c);
    }
  }

  lemma InterruptKeeps(s: Sys, e: Event)
    requires Inv(s) && Enabled(s, e) && (e.HandlerAssert? || (e.Interrupt? && s.cores[e.i].main == QUIET))
    ensures Inv(Do(s, e))
  {
    hide HistoryOk;
    var t := Do(s, e);
    HistorySame(s, t);
    forall c | 0 <= c < |t.pending|
      ensures TokenOk(t, c)
    {
      assert TokenOk(s, c);
    }
  }

  lemma HandlerKeeps(s: Sys, e: Event)
    requires Inv(s) && Enabled(s, e) && (e.HandlerToken? || e.HandlerReturn?)
    ensures Inv(Do(s, e))
  {
    hide HistoryOk;
    var t := Do(s, e);
    HistorySame(s, t);
    forall c | 0 <= c < |t.pending|
      ensures TokenOk(t, c)
    {
      assert TokenOk(s, c);
    }
  }

  lemma StepKeeps(s: Sys, e: Event)
    requires Inv(s) && Enabled(s, e) && (e.Interrupt? ==> s.cores[e.i].main == QUIET)
    ensures Inv(Do(s, e))
  {
    match e
    case Call(_, _) => hide Inv; CallKeeps(s, e);
    case Exit(_) => hide Inv; ExitKeeps(s, e);
    case Interrupt(_) => hide Inv; InterruptKeeps(s, e);
    case HandlerAssert(_) => hide Inv; InterruptKeeps(s, e);
    case HandlerToken(_) => hide Inv; HandlerKeeps(s, e);
    case HandlerReturn(_) => hide Inv; HandlerKeeps(s, e);
    case Step(i) =>
      hide Inv;
      match Act(s.cores[i]).pc
      case Taking(_) => TakeKeeps(s, i);
      case Counting(_) => CountKeeps(s, i);
      case Reading(_, _) => ReadKeeps(s, i);
      case Loading(_, _, _) => ReadKeeps(s, i);
      case Storing(_, _, _, _) => StoreKeeps(s, i);
      case Sending(_, _, _) => SendKeeps(s, i);
      case Snapping => SnapKeeps(s, i);
      case Clearing(_) => ClearKeeps(s, i);
      case Uncounting(_) => UncountKeeps(s, i);
      case Freeing(_) => UncountKeeps(s, i);
  }

  // ---- runs ----

  ghost predicate Runs(s: Sys, es: seq<Event>, m: set<nat>)
    decreases |es|
  {
    es == [] || (Enabled(s, es[0]) && Masked(s, es[0], m) && Runs(Do(s, es[0]), es[1..], m))
  }

  ghost function Exec(s: Sys, es: seq<Event>, m: set<nat>): Sys
    requires Runs(s, es, m)
    decreases |es|
  {
    if es == [] then s else Exec(Do(s, es[0]), es[1..], m)
  }

  lemma StartInv(cores: nat, rtos: nat)
    requires rtos <= cores
    ensures Inv(Start(cores, rtos))
  {
    var s := Start(cores, rtos);
    forall c | 0 <= c < |s.pending|
      ensures TokenOk(s, c)
    {
    }
  }

  lemma {:induction false} RunKeeps(s: Sys, es: seq<Event>, m: set<nat>)
    requires Inv(s) && Runs(s, es, m) && AllMask(|s.tokens|, m)
    ensures Inv(Exec(s, es, m))
    decreases |es|
  {
    if es != [] {
      assert Enabled(s, es[0]) && (es[0].Interrupt? ==> es[0].i < |s.tokens| && es[0].i < |s.cores|);
      StepSizes(s, es[0]);
      assert Masked(s, es[0], m);
      hide Inv, Enabled, Do;
      StepKeeps(s, es[0]);
      RunKeeps(Do(s, es[0]), es[1..], m);
    }
  }

  lemma StepSizes(s: Sys, e: Event)
    requires Enabled(s, e)
    ensures |Do(s, e).pending| == |s.pending| && |Do(s, e).cores| == |s.cores| && |Do(s, e).tokens| == |s.tokens|
  {
  }

  lemma {:induction false} SizesKept(s: Sys, es: seq<Event>, m: set<nat>)
    requires Runs(s, es, m)
    ensures var t := Exec(s, es, m);
            |t.pending| == |s.pending| && |t.cores| == |s.cores| && |t.tokens| == |s.tokens|
    decreases |es|
  {
    hide Enabled, Do, Masked;
    if es != [] {
      StepSizes(s, es[0]);
      SizesKept(Do(s, es[0]), es[1..], m);
    }
  }

  /** Each core has one wake-up on its way, as a token, in its handler or about to be sent, exactly when it has
    * pending bits; and its handler has not started without any, nor without a token to read. */
  ghost predicate WakeupsSound(s: Sys) {
    && |s.pending| == |s.tokens| <= |s.cores|
    && forall c :: 0 <= c < |s.pending| ==>
         && s.tokens[c] + Handling(s, c) + Between(s, c) == One(s.pending[c] != {})
         && (s.cores[c].handler.Asserting? ==> s.pending[c] != {})
         && (s.cores[c].handler.AtToken? ==> s.tokens[c] > 0)
  }

  /** Over every run in which the cores that take interrupts mask them while they use the lock, the wake-ups are
    * sound: none is lost and the handler's assertion holds. */
  lemma OneWakeup(cores: nat, rtos: nat, es: seq<Event>, m: set<nat>)
    requires rtos <= cores && AllMask(rtos, m) && Runs(Start(cores, rtos), es, m)
    ensures WakeupsSound(Exec(Start(cores, rtos), es, m))
  {
    StartInv(cores, rtos);
    RunKeeps(Start(cores, rtos), es, m);
    InvSound(Exec(Start(cores, rtos), es, m));
    hide Inv, WakeupsSound, Enabled;
  }

  lemma InvSound(s: Sys)
    requires Inv(s)
    ensures WakeupsSound(s)
  {
    hide HistoryOk, LockOk, ReadsOk, Handling, Between;
    forall c | 0 <= c < |s.pending|
      ensures s.tokens[c] + Handling(s, c) + Between(s, c) == One(s.pending[c] != {})
      ensures s.cores[c].handler.Asserting? ==> s.pending[c] != {}
      ensures s.cores[c].handler.AtToken? ==> s.tokens[c] > 0
    {
      assert TokenOk(s, c);
    }
  }

  /** Over every such run: a posted source is in the first snapshot after the post, or no snapshot has been
    * taken since and it is still pending. */
  lemma EveryPostIsSeen(cores: nat, rtos: nat, es: seq<Event>, m: set<nat>, c: nat, k: nat)
    requires c < rtos <= cores && AllMask(rtos, m) && Runs(Start(cores, rtos), es, m)
    requires c < |Exec(Start(cores, rtos), es, m).history|
    requires k < |Exec(Start(cores, rtos), es, m).history[c]| && Exec(Start(cores, rtos), es, m).history[c][k].Posted?
    ensures var s := Exec(Start(cores, rtos), es, m);
            var h := s.history[c];
            || (exists j :: k < j < |h| && h[j].Snapped? && h[k].src in h[j].bits && NoSnapshot(h, k, j))
            || (c < |s.pending| && h[k].src in s.pending[c] && NoSnapshot(h, k, |h|))
  {
    StartInv(cores, rtos);
    RunKeeps(Start(cores, rtos), es, m);
    var s := Exec(Start(cores, rtos), es, m);
    var h := s.history[c];
    assert HistoryOk(s) && Exact(h) && Since(h) == s.pending[c];
    hide Inv, Enabled, Do, Runs, Exec, Start, HistoryOk;
    var j := NextSnapshot(h, k);
    SinceHas(h[..j], k);
    if j == |h| {
      assert h[..j] == h;
    } else {
      assert h[j].bits == Since(h[..j]);
    }
  }

  ghost predicate NoSnapshot(h: seq<Mark>, k: nat, j: nat) {
    forall m :: k < m < j && m < |h| ==> !h[m].Snapped?
  }

  lemma {:induction false} NextSnapshot(h: seq<Mark>, k: nat) returns (j: nat)
    requires k < |h|
    ensures k < j <= |h| && NoSnapshot(h, k, j) && (j < |h| ==> h[j].Snapped?)
  {
    j := k + 1;
    while j < |h| && !h[j].Snapped?
      invariant k < j <= |h| && NoSnapshot(h, k, j)
    {
      j := j + 1;
    }
  }

  lemma {:induction false} SinceHas(h: seq<Mark>, k: nat)
    requires k < |h| && h[k].Posted? && NoSnapshot(h, k, |h|)
    ensures h[k].src in Since(h)
    decreases |h|
  {
    var n := |h| - 1;
    if k < n {
      assert h[..n][k] == h[k];
      SinceHas(h[..n], k);
    }
  }

  /** At most one core is in a critical section; the counter is its nesting depth, and the hardware lock is given
    * back only when the outermost section ends. */
  ghost predicate LockSound(s: Sys) {
    && (forall i :: Inside(s, i) ==> s.owner == i && s.count == Depth(Act(s.cores[i])))
    && (forall i, j :: Inside(s, i) && Inside(s, j) ==> i == j)
    && (forall i :: 0 <= i < |s.cores| && Act(s.cores[i]).pc.Freeing? ==> s.owner == i && s.count == 0)
  }

  predicate Inside(s: Sys, i: int) { 0 <= i < |s.cores| && Depth(Act(s.cores[i])) > 0 }

  lemma LockIsExclusive(cores: nat, rtos: nat, es: seq<Event>, m: set<nat>)
    requires rtos <= cores && AllMask(rtos, m) && Runs(Start(cores, rtos), es, m)
    ensures LockSound(Exec(Start(cores, rtos), es, m))
  {
    StartInv(cores, rtos);
    RunKeeps(Start(cores, rtos), es, m);
    hide HistoryOk, TokensOk, ReadsOk;
  }
}
