/** What the interrupts and their lock let through: from every state in which the cores keep the masking rule, all
  * critical sections can be left, the lock given back, and every pending bit handled. */
module IrqProgress {
  import opened Irq

  /** Every core idle, the lock free, and no source pending. */
  ghost predicate AtRest(s: Sys) {
    && (forall i :: 0 <= i < |s.cores| ==> s.cores[i] == Core(QUIET, Off, QUIET))
    && s.owner == -1 && s.count == 0
    && |s.tokens| == |s.pending|
    && (forall c :: 0 <= c < |s.pending| ==> s.pending[c] == {} && s.tokens[c] == 0)
  }

  function JobRank(job: Job): nat {
    match job
    case Enter => 0
    case Leave => 0
    case Post(_, _) => 23
    case Snap => 0
  }

  function PcRank(pc: Pc): nat {
    match pc
    case Idle => 5
    case Taking(job) => 17 + JobRank(job)
    case Counting(job) => 16 + JobRank(job)
    case Reading(_, _) => 38
    case Loading(_, _, _) => 37
    case Storing(_, _, _, _) => 36
    case Sending(_, _, _) => 35
    case Snapping => 10
    case Clearing(_) => 9
    case Uncounting(job) => if job.Leave? then 4 else 7
    case Freeing(_) => 6
  }

  function CtxRank(x: Ctx): nat { 10 * x.outer + PcRank(x.pc) }

  function HandlerRank(h: Handler): nat {
    match h
    case Off => 3
    case Asserting => 2
    case AtToken => 1
    case Active(_) => 4
  }

  function CoreRank(c: Core): nat { CtxRank(c.main) + CtxRank(c.inner) + HandlerRank(c.handler) }

  function CoreRanks(cs: seq<Core>): nat {
    if cs == [] then 0 else CoreRanks(cs[..|cs| - 1]) + CoreRank(cs[|cs| - 1])
  }

  function Total(ns: seq<nat>): nat {
    if ns == [] then 0 else Total(ns[..|ns| - 1]) + ns[|ns| - 1]
  }

  /** A token stands for all that its handler will do. */
  function Rank(s: Sys): nat { CoreRanks(s.cores) + 20 * Total(s.tokens) }

  lemma {:induction false} CoreRanksUpdate(cs: seq<Core>, i: nat, c: Core)
    requires i < |cs|
    ensures CoreRanks(cs[i := c]) == CoreRanks(cs) - CoreRank(cs[i]) + CoreRank(c)
  {
    hide CoreRank;
    var n := |cs| - 1;
    if i == n {
      assert cs[i := c][..n] == cs[..n];
    } else {
      CoreRanksUpdate(cs[..n], i, c);
      assert cs[i := c][..n] == cs[..n][i := c];
    }
  }

  lemma {:induction false} TotalUpdate(ns: seq<nat>, i: nat, x: nat)
    requires i < |ns|
    ensures Total(ns[i := x]) == Total(ns) - ns[i] + x
  {
    var n := |ns| - 1;
    if i == n {
      assert ns[i := x][..n] == ns[..n];
    } else {
      TotalUpdate(ns[..n], i, x);
      assert ns[i := x][..n] == ns[..n][i := x];
    }
  }

  /** No new call of any core, and interrupts only on idle cores. */
  predicate Ends(s: Sys, e: Event) {
    !e.Call? && (e.Interrupt? ==> e.i < |s.cores| && s.cores[e.i].main == QUIET)
  }

  ghost predicate Falls(s: Sys, e: Event) {
    Enabled(s, e) && Ends(s, e) && Rank(Do(s, e)) < Rank(s)
  }

  /** Until all is at rest some step is possible that brings it nearer: of whoever has the lock; else of a core that
    * waits for it; else of a handler; else a wake-up arrives. */
  lemma Proceeds(s: Sys) returns (e: Event)
    requires Inv(s) && !AtRest(s)
    ensures Falls(s, e)
  {
    if s.owner != -1 {
      e := if Act(s.cores[s.owner]).pc.Idle? then Exit(s.owner) else Step(s.owner);
      OwnerFalls(s);
    } else if exists i :: Wants(s, i) {
      var i: int :| Wants(s, i);
      e := Step(i);
      TakerFalls(s, i);
    } else {
      AllIdle(s);
      if exists i :: Handles(s, i) {
        var i: int :| Handles(s, i);
        e := HandlerStep(s, i);
        HandlerFalls(s, i);
      } else {
        var c := Woken(s);
        e := Interrupt(c);
        InterruptFalls(s, c);
      }
    }
  }

  predicate Wants(s: Sys, i: int) { 0 <= i < |s.cores| && !Act(s.cores[i]).pc.Idle? }

  predicate Handles(s: Sys, i: int) { 0 <= i < |s.cores| && !s.cores[i].handler.Off? }

  function HandlerStep(s: Sys, i: nat): Event
    requires i < |s.cores|
  {
    match s.cores[i].handler
    case Asserting => HandlerAssert(i)
    case AtToken => HandlerToken(i)
    case _ => HandlerReturn(i)
  }

  lemma OwnerFalls(s: Sys)
    requires Inv(s) && s.owner != -1
    ensures var e := if Act(s.cores[s.owner]).pc.Idle? then Exit(s.owner) else Step(s.owner);
            Falls(s, e)
  {
    var i: nat := s.owner;
    assert CoreOk(s.cores[i], |s.pending|, i < |s.pending|) && Holds(Act(s.cores[i]));
    assert |s.pending| == |s.tokens| == |s.history|;
    hide Inv, Falls;
    if Act(s.cores[i]).pc.Idle? { ExitFalls(s, i); } else { StepFalls(s, i); }
  }

  lemma ExitFalls(s: Sys, i: nat)
    requires i < |s.cores| && CoreOk(s.cores[i], |s.pending|, i < |s.pending|) && Holds(Act(s.cores[i]))
    requires Act(s.cores[i]).pc.Idle?
    ensures Falls(s, Exit(i))
  {
    CoreRanksUpdate(s.cores, i, Do(s, Exit(i)).cores[i]);
  }

  lemma StepFalls(s: Sys, i: nat)
    requires i < |s.cores| && CoreOk(s.cores[i], |s.pending|, i < |s.pending|)
    requires |s.pending| == |s.tokens| == |s.history|
    requires !Act(s.cores[i]).pc.Idle? && (Act(s.cores[i]).pc.Taking? ==> s.owner == -1 || s.owner == i)
    ensures Falls(s, Step(i))
  {
    var x := Act(s.cores[i]);
    assert Enabled(s, Step(i)) by { hide Rank; }
    StepRank(s, i);
    hide CoreOk, CoreRank, CanRun;
    if x.pc.Sending? { SendTokens(s, i); } else { assert DoStep(s, i).tokens == s.tokens; }
    var u := DoStep(s, i);
    hide DoStep, Act;
    CoreRanksUpdate(s.cores, i, u.cores[i]);
    hide CoreRanks, Total;
  }

  lemma SendTokens(s: Sys, i: nat)
    requires i < |s.cores| && Act(s.cores[i]).pc.Sending? && PcEnabled(s, i, Act(s.cores[i]).pc)
    ensures Total(DoStep(s, i).tokens) <= Total(s.tokens) + 1
  {
    var t := Act(s.cores[i]).pc.target;
    TotalUpdate(s.tokens, t, s.tokens[t] + 1);
  }

  lemma StepRank(s: Sys, i: nat)
    requires i < |s.cores| && CoreOk(s.cores[i], |s.pending|, i < |s.pending|)
    requires PcEnabled(s, i, Act(s.cores[i]).pc)
    ensures var u, c := DoStep(s, i), s.cores[i];
            && u.cores == s.cores[i := u.cores[i]]
            && CoreRank(u.cores[i]) + (if Act(c).pc.Sending? then 25 else 0) < CoreRank(c)
  {
  }

  lemma TakerFalls(s: Sys, i: nat)
    requires Inv(s) && s.owner == -1 && Wants(s, i)
    ensures Falls(s, Step(i))
  {
    assert CoreOk(s.cores[i], |s.pending|, i < |s.pending|) && |s.pending| == |s.tokens| == |s.history|;
    hide Inv, Falls;
    StepFalls(s, i);
  }

  /** With the lock free and nobody waiting for it, all contexts are idle. */
  lemma AllIdle(s: Sys)
    requires Inv(s) && s.owner == -1 && !exists i :: Wants(s, i)
    ensures forall i :: 0 <= i < |s.cores| ==> Act(s.cores[i]) == QUIET
  {
    forall i | 0 <= i < |s.cores|
      ensures Act(s.cores[i]) == QUIET
    {
      assert !Wants(s, i) && !Holds(Act(s.cores[i]));
    }
  }

  lemma HandlerFalls(s: Sys, i: nat)
    requires Inv(s) && Handles(s, i) && Act(s.cores[i]) == QUIET
    ensures Falls(s, HandlerStep(s, i))
  {
    assert CoreOk(s.cores[i], |s.pending|, i < |s.pending|) && TokenOk(s, i);
    var e := HandlerStep(s, i);
    hide Inv;
    assert Enabled(s, e);
    CoreRanksUpdate(s.cores, i, Do(s, e).cores[i]);
    if e.HandlerToken? { TotalUpdate(s.tokens, i, s.tokens[i] - 1); }
    hide CoreRanks, Total;
  }

  /** If all cores are idle and all is not at rest, a wake-up is on its way. */
  lemma Woken(s: Sys) returns (c: nat)
    requires Inv(s) && s.owner == -1 && !AtRest(s)
    requires (forall i :: 0 <= i < |s.cores| ==> Act(s.cores[i]) == QUIET) && !exists i :: Handles(s, i)
    ensures c < |s.tokens| <= |s.cores| && s.tokens[c] > 0 && s.cores[c] == Core(QUIET, Off, QUIET)
  {
    forall i | 0 <= i < |s.cores|
      ensures s.cores[i] == Core(QUIET, Off, QUIET)
    {
      assert !Handles(s, i) && CoreOk(s.cores[i], |s.pending|, i < |s.pending|);
    }
    forall i | 0 <= i < |s.pending|
      ensures s.tokens[i] == One(s.pending[i] != {})
    {
      assert TokenOk(s, i);
    }
    hide LockOk, ReadsOk, HistoryOk, TokensOk;
    assert s.count == 0 by { assert LockOk(s); }
    c :| 0 <= c < |s.pending| && !(s.pending[c] == {} && s.tokens[c] == 0);
  }

  lemma InterruptFalls(s: Sys, c: nat)
    requires c < |s.tokens| <= |s.cores| && s.tokens[c] > 0 && s.cores[c] == Core(QUIET, Off, QUIET)
    ensures Falls(s, Interrupt(c))
  {
    CoreRanksUpdate(s.cores, c, Do(s, Interrupt(c)).cores[c]);
  }

  lemma {:induction false} Settles(s: Sys, m: set<nat>) returns (es: seq<Event>)
    requires Inv(s)
    ensures Runs(s, es, m) && (forall e :: e in es ==> !e.Call?) && AtRest(Exec(s, es, m))
    decreases Rank(s)
  {
    hide Inv, AtRest, Rank, Enabled, Do;
    if AtRest(s) {
      es := [];
    } else {
      var e := Proceeds(s);
      StepKeeps(s, e);
      var fs := Settles(Do(s, e), m);
      es := [e] + fs;
      assert es[1..] == fs;
    }
  }

  /** From every state, whoever is in how many critical sections and whatever is pending, the cores can leave them,
    * give the lock back, and handle all that has been posted: nothing is held or pending for good. */
  lemma AllCanSettle(cores: nat, rtos: nat, es: seq<Event>, m: set<nat>) returns (fs: seq<Event>)
    requires rtos <= cores && AllMask(rtos, m) && Runs(Start(cores, rtos), es, m)
    ensures var s := Exec(Start(cores, rtos), es, m);
            Runs(s, fs, m) && (forall e :: e in fs ==> !e.Call?) && AtRest(Exec(s, fs, m))
  {
    StartInv(cores, rtos);
    RunKeeps(Start(cores, rtos), es, m);
    fs := Settles(Exec(Start(cores, rtos), es, m), m);
  }
}
