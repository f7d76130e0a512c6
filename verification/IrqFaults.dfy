/** Why every core that takes interrupts has to mask them while it uses the lock: on any one that does not, a
  * wake-up can be lost, and, with another core, the lock broken; so the rule is exactly what is needed. */
module IrqFaults {
  import opened Irq

  // ---- building runs ----

  lemma {:induction false} RunsConcat(s: Sys, es: seq<Event>, fs: seq<Event>, m: set<nat>)
    requires Runs(s, es, m) && Runs(Exec(s, es, m), fs, m)
    ensures Runs(s, es + fs, m) && Exec(s, es + fs, m) == Exec(Exec(s, es, m), fs, m)
    decreases |es|
  {
    hide Enabled, Do, Masked;
    if es == [] {
      assert es + fs == fs;
    } else {
      assert (es + fs)[0] == es[0] && (es + fs)[1..] == es[1..] + fs;
      RunsConcat(Do(s, es[0]), es[1..], fs, m);
    }
  }

  lemma Then(s: Sys, es: seq<Event>, e: Event, t: Sys, m: set<nat>) returns (fs: seq<Event>)
    requires Runs(s, es, m) && Enabled(Exec(s, es, m), e) && Masked(Exec(s, es, m), e, m) && Do(Exec(s, es, m), e) == t
    ensures Runs(s, fs, m) && Exec(s, fs, m) == t
  {
    hide Enabled, Do, Masked;
    var u := Exec(s, es, m);
    assert [e][1..] == [];
    assert Runs(u, [e], m) && Exec(u, [e], m) == t;
    RunsConcat(s, es, [e], m);
    fs := es + [e];
  }

  /** The empty run. */
  lemma Begin(s: Sys, m: set<nat>) returns (es: seq<Event>)
    ensures Runs(s, es, m) && Exec(s, es, m) == s
  {
    es := [];
  }

  const RESTING := Core(QUIET, Off, QUIET)

  ghost function At(pc: Pc): Core { Core(Ctx(pc, 0), Off, QUIET) }

  /** A core interrupted at `pc`, its handler with the given context. */
  ghost function On(pc: Pc, snap: set<nat>, inner: Pc): Core { Core(Ctx(pc, 0), Active(snap), Ctx(inner, 0)) }

  ghost predicate HasCore(s: Sys, i: nat) {
    i < |s.cores| && i < |s.pending| == |s.history| && i < |s.tokens|
  }

  /** The system s with one of its RTOS cores somewhere else. */
  ghost function With(s: Sys, i: nat, c: Core, p: set<nat>, token: nat, owner: int, count: int, h: seq<Mark>): Sys
    requires HasCore(s, i)
  {
    Sys(s.cores[i := c], s.pending[i := p], s.tokens[i := token], owner, count, s.history[i := h])
  }

  ghost predicate AtRest(s: Sys, i: nat) {
    HasCore(s, i) && s == With(s, i, RESTING, {}, 0, -1, 0, [])
  }

  lemma StartAtRest(cores: nat, rtos: nat, i: nat)
    requires i < rtos <= cores
    ensures AtRest(Start(cores, rtos), i)
  {
  }

  ghost function First(i: nat): seq<Mark> { [Posted(i)] }

  ghost function Both(i: nat): seq<Mark> { [Posted(i), Snapped({i})] }

  ghost function All(i: nat): seq<Mark> { [Posted(i), Snapped({i}), Posted(i)] }

  /** The step in which core i, posting to itself, stores its bit. */
  lemma Stores(s: Sys, es: seq<Event>, i: nat, empty: bool, token: nat, h: seq<Mark>, m: set<nat>)
      returns (fs: seq<Event>)
    requires HasCore(s, i) && Runs(s, es, m)
    requires Exec(s, es, m) == With(s, i, At(Storing(i, i, empty, {})), {}, token, i, 1, h)
    ensures Runs(s, fs, m) && Exec(s, fs, m) == With(s, i, At(Sending(i, i, empty)), {i}, token, i, 1, h + [Posted(i)])
  {
    var bits: set<nat> := {};
    assert bits + {i} == {i};
    hide Runs, Exec;
    fs := Then(s, es, Step(i), With(s, i, At(Sending(i, i, empty)), bits + {i}, token, i, 1, h + [Posted(i)]), m);
  }

  /** The step in which the handler of core i clears the bits. */
  lemma Clears(s: Sys, es: seq<Event>, i: nat, pc: Pc, count: int, m: set<nat>) returns (fs: seq<Event>)
    requires HasCore(s, i) && Runs(s, es, m)
    requires Exec(s, es, m) == With(s, i, On(pc, {}, Clearing({i})), {i}, 0, i, count, First(i))
    ensures Runs(s, fs, m) && Exec(s, fs, m) == With(s, i, On(pc, {i}, Uncounting(Snap)), {}, 0, i, count, Both(i))
  {
    assert First(i) + [Snapped({i})] == Both(i);
    hide Runs, Exec;
    fs := Then(s, es, Step(i), With(s, i, On(pc, {i}, Uncounting(Snap)), {}, 0, i, count, Both(i)), m);
  }

  // ---- core i posts to itself, undisturbed ----

  lemma FirstPost(s: Sys, i: nat, m: set<nat>) returns (es: seq<Event>)
    requires AtRest(s, i)
    ensures Runs(s, es, m) && Exec(s, es, m) == With(s, i, RESTING, {i}, 1, -1, 0, First(i))
  {
    es := FirstLoad(s, i, m);
    es := FirstSend(s, es, i, m);
    hide Runs, Exec;
    es := Then(s, es, Step(i), With(s, i, At(Freeing(Post(i, i))), {i}, 1, i, 0, First(i)), m);
    es := Then(s, es, Step(i), With(s, i, RESTING, {i}, 1, -1, 0, First(i)), m);
  }

  lemma FirstLoad(s: Sys, i: nat, m: set<nat>) returns (es: seq<Event>)
    requires AtRest(s, i)
    ensures Runs(s, es, m) && Exec(s, es, m) == With(s, i, At(Loading(i, i, true)), {}, 0, i, 1, [])
  {
    hide Runs, Exec;
    es := Begin(s, m);
    es := Then(s, es, Call(i, Post(i, i)), With(s, i, At(Taking(Post(i, i))), {}, 0, -1, 0, []), m);
    es := Then(s, es, Step(i), With(s, i, At(Counting(Post(i, i))), {}, 0, i, 0, []), m);
    es := Then(s, es, Step(i), With(s, i, At(Reading(i, i)), {}, 0, i, 1, []), m);
    es := Then(s, es, Step(i), With(s, i, At(Loading(i, i, true)), {}, 0, i, 1, []), m);
  }

  lemma FirstSend(s: Sys, es: seq<Event>, i: nat, m: set<nat>) returns (fs: seq<Event>)
    requires HasCore(s, i) && Runs(s, es, m) && Exec(s, es, m) == With(s, i, At(Loading(i, i, true)), {}, 0, i, 1, [])
    ensures Runs(s, fs, m) && Exec(s, fs, m) == With(s, i, At(Uncounting(Post(i, i))), {i}, 1, i, 1, First(i))
  {
    hide Runs, Exec;
    fs := Then(s, es, Step(i), With(s, i, At(Storing(i, i, true, {})), {}, 0, i, 1, []), m);
    fs := Stores(s, fs, i, true, 0, [], m);
    assert [] + [Posted(i)] == First(i);
    fs := Then(s, fs, Step(i), With(s, i, At(Uncounting(Post(i, i))), {i}, 1, i, 1, First(i)), m);
  }

  // ---- the handler of core i on top of whatever it was doing ----

  /** The handler, on top of a context at `pc` with the lock counted `count` times, comes to its snapshot. */
  lemma HandlerStarts(s: Sys, es: seq<Event>, i: nat, pc: Pc, count: nat, m: set<nat>) returns (fs: seq<Event>)
    requires HasCore(s, i) && i !in m
    requires Runs(s, es, m) && Exec(s, es, m) == With(s, i, At(pc), {i}, 1, i, count, First(i))
    ensures Runs(s, fs, m) && Exec(s, fs, m) == With(s, i, On(pc, {}, Counting(Snap)), {i}, 0, i, count, First(i))
  {
    hide Runs, Exec;
    fs := Then(s, es, Interrupt(i), With(s, i, At(pc).(handler := Asserting), {i}, 1, i, count, First(i)), m);
    fs := Then(s, fs, HandlerAssert(i), With(s, i, At(pc).(handler := AtToken), {i}, 1, i, count, First(i)), m);
    fs := Then(s, fs, HandlerToken(i), With(s, i, On(pc, {}, Taking(Snap)), {i}, 0, i, count, First(i)), m);
    fs := Then(s, fs, Step(i), With(s, i, On(pc, {}, Counting(Snap)), {i}, 0, i, count, First(i)), m);
  }

  /** The handler clears the bits. */
  lemma HandlerClears(s: Sys, es: seq<Event>, i: nat, pc: Pc, count: nat, m: set<nat>) returns (fs: seq<Event>)
    requires HasCore(s, i) && i !in m
    requires Runs(s, es, m) && Exec(s, es, m) == With(s, i, At(pc), {i}, 1, i, count, First(i))
    ensures Runs(s, fs, m) && Exec(s, fs, m) == With(s, i, On(pc, {i}, Uncounting(Snap)), {}, 0, i, count + 1, Both(i))
  {
    fs := HandlerStarts(s, es, i, pc, count, m);
    hide Runs, Exec;
    fs := Then(s, fs, Step(i), With(s, i, On(pc, {}, Snapping), {i}, 0, i, count + 1, First(i)), m);
    fs := Then(s, fs, Step(i), With(s, i, On(pc, {}, Clearing({i})), {i}, 0, i, count + 1, First(i)), m);
    fs := Clears(s, fs, i, pc, count + 1, m);
  }

  // ---- the lost wake-up ----

  lemma SecondPost(s: Sys, es: seq<Event>, i: nat, m: set<nat>) returns (fs: seq<Event>)
    requires HasCore(s, i) && Runs(s, es, m) && Exec(s, es, m) == With(s, i, RESTING, {i}, 1, -1, 0, First(i))
    ensures Runs(s, fs, m) && Exec(s, fs, m) == With(s, i, At(Loading(i, i, false)), {i}, 1, i, 1, First(i))
  {
    hide Runs, Exec;
    fs := Then(s, es, Call(i, Post(i, i)), With(s, i, At(Taking(Post(i, i))), {i}, 1, -1, 0, First(i)), m);
    fs := Then(s, fs, Step(i), With(s, i, At(Counting(Post(i, i))), {i}, 1, i, 0, First(i)), m);
    fs := Then(s, fs, Step(i), With(s, i, At(Reading(i, i)), {i}, 1, i, 1, First(i)), m);
    fs := Then(s, fs, Step(i), With(s, i, At(Loading(i, i, false)), {i}, 1, i, 1, First(i)), m);
  }

  /** Back in the post: it sets its bit, and, having seen bits before, sends no token. */
  lemma PostGoesOn(s: Sys, es: seq<Event>, i: nat, m: set<nat>) returns (fs: seq<Event>)
    requires HasCore(s, i) && Runs(s, es, m)
    requires Exec(s, es, m) == With(s, i, On(Loading(i, i, false), {i}, Uncounting(Snap)), {}, 0, i, 2, Both(i))
    ensures Runs(s, fs, m) && Exec(s, fs, m) == With(s, i, At(Sending(i, i, false)), {i}, 0, i, 1, All(i))
  {
    hide Runs, Exec;
    fs := Then(s, es, Step(i), With(s, i, On(Loading(i, i, false), {i}, Idle), {}, 0, i, 1, Both(i)), m);
    fs := Then(s, fs, HandlerReturn(i), With(s, i, At(Loading(i, i, false)), {}, 0, i, 1, Both(i)), m);
    fs := Then(s, fs, Step(i), With(s, i, At(Storing(i, i, false, {})), {}, 0, i, 1, Both(i)), m);
    fs := Stores(s, fs, i, false, 0, Both(i), m);
    assert Both(i) + [Posted(i)] == All(i);
  }

  lemma PostEnds(s: Sys, es: seq<Event>, i: nat, m: set<nat>) returns (fs: seq<Event>)
    requires HasCore(s, i) && Runs(s, es, m)
    requires Exec(s, es, m) == With(s, i, At(Sending(i, i, false)), {i}, 0, i, 1, All(i))
    ensures Runs(s, fs, m) && Exec(s, fs, m) == With(s, i, RESTING, {i}, 0, -1, 0, All(i))
  {
    hide Runs, Exec;
    fs := Then(s, es, Step(i), With(s, i, At(Uncounting(Post(i, i))), {i}, 0, i, 1, All(i)), m);
    fs := Then(s, fs, Step(i), With(s, i, At(Freeing(Post(i, i))), {i}, 0, i, 0, All(i)), m);
    fs := Then(s, fs, Step(i), With(s, i, RESTING, {i}, 0, -1, 0, All(i)), m);
  }

  /** A context that posts to core i has seen that bits are pending there, i's among them. */
  ghost predicate SawPending(pc: Pc, i: nat) {
    match pc
    case Loading(t, _, empty) => t == i ==> !empty
    case Storing(t, _, empty, bits) => t == i ==> !empty && i in bits
    case Sending(t, _, empty) => t == i ==> !empty
    case _ => true
  }

  /** Core i has its bit pending, no token and no handler, nobody will send it a token, and it has taken no
    * snapshot since its history was h. */
  ghost predicate Lost(s: Sys, i: nat, h: seq<Mark>) {
    && HasCore(s, i) && i in s.pending[i] && s.tokens[i] == 0 && s.cores[i].handler.Off?
    && (forall c :: 0 <= c < |s.cores| ==> SawPending(s.cores[c].main.pc, i) && SawPending(s.cores[c].inner.pc, i))
    && NoSnapshotSince(h, s.history[i])
  }

  ghost predicate NoSnapshotSince(h: seq<Mark>, later: seq<Mark>) {
    h <= later && forall j :: |h| <= j < |later| ==> !later[j].Snapped?
  }

  /** No step of any core, masked or not, brings the wake-up back. */
  lemma LostStep(s: Sys, e: Event, i: nat, h: seq<Mark>)
    requires Lost(s, i, h) && Enabled(s, e)
    ensures Lost(Do(s, e), i, h)
  {
    match e
    case Step(k) => LostDoStep(s, k, i, h);
    case _ => hide DoStep, PcEnabled;
  }

  lemma LostDoStep(s: Sys, k: nat, i: nat, h: seq<Mark>)
    requires Lost(s, i, h) && Enabled(s, Step(k))
    ensures Lost(DoStep(s, k), i, h)
  {
    var pc := Act(s.cores[k]).pc;
    if pc.Storing? || pc.Sending? || pc.Clearing? { LostWrite(s, k, i, h); } else { LostMove(s, k, i, h); }
  }

  /** A step that changes no pending bits and no tokens. */
  lemma LostMove(s: Sys, k: nat, i: nat, h: seq<Mark>)
    requires Lost(s, i, h) && Enabled(s, Step(k))
    requires var pc := Act(s.cores[k]).pc; !pc.Storing? && !pc.Sending? && !pc.Clearing?
    ensures Lost(DoStep(s, k), i, h)
  {
    hide NoSnapshotSince;
  }

  /** A step that does. */
  lemma LostWrite(s: Sys, k: nat, i: nat, h: seq<Mark>)
    requires Lost(s, i, h) && Enabled(s, Step(k))
    requires var pc := Act(s.cores[k]).pc; pc.Storing? || pc.Sending? || pc.Clearing?
    ensures Lost(DoStep(s, k), i, h)
  {
  }

  lemma {:induction false} LostForever(s: Sys, es: seq<Event>, m: set<nat>, i: nat, h: seq<Mark>)
    requires Lost(s, i, h) && Runs(s, es, m)
    ensures Lost(Exec(s, es, m), i, h)
    decreases |es|
  {
    hide Lost, Enabled, Do, Masked;
    if es != [] {
      LostStep(s, es[0], i, h);
      LostForever(Do(s, es[0]), es[1..], m, i, h);
    }
  }

  /** Any core that takes interrupts and does not mask them, however many others there are and whatever they do: it
    * posts to itself while a wake-up is on its way, reads that bits are pending, and is interrupted.  The handler
    * clears them; then the core sets its bit and sends no token.  In the end the bit is pending with no wake-up on
    * its way and every core idle; and so it stays: on every run from there, whoever posts to the core and
    * whoever masks, the bit stays pending, no token comes, and the core takes no snapshot. */
  lemma UnmaskedSelfPostIsLost(cores: nat, rtos: nat, m: set<nat>, i: nat) returns (es: seq<Event>)
    requires i < rtos <= cores && i !in m
    ensures Runs(Start(cores, rtos), es, m)
    ensures var s := Exec(Start(cores, rtos), es, m);
            && s.cores == Start(cores, rtos).cores && s.owner == -1 && HasCore(s, i)
            && s.pending[i] == {i} && s.tokens[i] == 0 && !Enabled(s, Interrupt(i))
            && forall fs, m2 :: Runs(s, fs, m2) ==> Lost(Exec(s, fs, m2), i, s.history[i])
  {
    var s := Start(cores, rtos);
    StartAtRest(cores, rtos, i);
    es := FirstPost(s, i, m);
    es := SecondPost(s, es, i, m);
    es := HandlerClears(s, es, i, Loading(i, i, false), 1, m);
    es := PostGoesOn(s, es, i, m);
    es := PostEnds(s, es, i, m);
    var t := Exec(s, es, m);
    assert Lost(t, i, t.history[i]);
    forall fs, m2 | Runs(t, fs, m2)
      ensures Lost(Exec(t, fs, m2), i, t.history[i])
    {
      LostForever(t, fs, m2, i, t.history[i]);
    }
    hide Runs, Exec;
  }

  // ---- the broken lock ----

  lemma TakeOnly(s: Sys, es: seq<Event>, i: nat, m: set<nat>) returns (fs: seq<Event>)
    requires HasCore(s, i) && Runs(s, es, m) && Exec(s, es, m) == With(s, i, RESTING, {i}, 1, -1, 0, First(i))
    ensures Runs(s, fs, m) && Exec(s, fs, m) == With(s, i, At(Counting(Enter)), {i}, 1, i, 0, First(i))
  {
    hide Runs, Exec;
    fs := Then(s, es, Call(i, Enter), With(s, i, At(Taking(Enter)), {i}, 1, -1, 0, First(i)), m);
    fs := Then(s, fs, Step(i), With(s, i, At(Counting(Enter)), {i}, 1, i, 0, First(i)), m);
  }

  /** The handler gives the hardware lock back, since it has counted from one to zero. */
  lemma HandlerFrees(s: Sys, es: seq<Event>, i: nat, m: set<nat>) returns (fs: seq<Event>)
    requires HasCore(s, i) && Runs(s, es, m)
    requires Exec(s, es, m) == With(s, i, On(Counting(Enter), {i}, Uncounting(Snap)), {}, 0, i, 1, Both(i))
    ensures Runs(s, fs, m) && Exec(s, fs, m) == With(s, i, At(Counting(Enter)), {}, 0, -1, 0, Both(i))
  {
    hide Runs, Exec;
    fs := Then(s, es, Step(i), With(s, i, On(Counting(Enter), {i}, Freeing(Snap)), {}, 0, i, 0, Both(i)), m);
    fs := Then(s, fs, Step(i), With(s, i, On(Counting(Enter), {i}, Idle), {}, 0, -1, 0, Both(i)), m);
    fs := Then(s, fs, HandlerReturn(i), With(s, i, At(Counting(Enter)), {}, 0, -1, 0, Both(i)), m);
  }

  ghost function Other(s: Sys, j: nat, c: Core, owner: int, count: int): Sys
    requires j < |s.cores|
  {
    s.(cores := s.cores[j := c], owner := owner, count := count)
  }

  lemma BothGetIn(s: Sys, es: seq<Event>, i: nat, j: nat, m: set<nat>) returns (fs: seq<Event>)
    requires HasCore(s, i) && j < |s.cores| && i != j && s.cores[j] == RESTING && Runs(s, es, m)
    requires Exec(s, es, m) == With(s, i, At(Counting(Enter)), {}, 0, -1, 0, Both(i))
    ensures Runs(s, fs, m) && |Exec(s, fs, m).cores| == |s.cores|
    ensures Exec(s, fs, m).cores[i] == Exec(s, fs, m).cores[j] == Core(Ctx(Idle, 1), Off, QUIET)
  {
    var t, inside := With(s, i, At(Counting(Enter)), {}, 0, -1, 0, Both(i)), Core(Ctx(Idle, 1), Off, QUIET);
    assert t.cores[j] == RESTING;
    hide Runs, Exec, With;
    fs := Then(s, es, Call(j, Enter), Other(t, j, At(Taking(Enter)), -1, 0), m);
    fs := Then(s, fs, Step(j), Other(t, j, At(Counting(Enter)), j, 0), m);
    fs := Then(s, fs, Step(j), Other(t, j, inside, j, 1), m);
    var u := Other(t, j, inside, j, 1);
    fs := Then(s, fs, Step(i), Other(u, i, inside, j, 2), m);
  }

  /** The same core is interrupted after it has taken the hardware lock and before it has counted.  The handler
    * counts to one, back to zero, and gives the hardware lock back; the core goes on without it, and any other
    * core gets in as well: both are in the critical section. */
  lemma UnmaskedAcquireBreaksTheLock(cores: nat, rtos: nat, m: set<nat>, i: nat, j: nat) returns (es: seq<Event>)
    requires i < rtos <= cores && i !in m && j < cores && j != i
    ensures Runs(Start(cores, rtos), es, m)
    ensures Inside(Exec(Start(cores, rtos), es, m), i) && Inside(Exec(Start(cores, rtos), es, m), j)
  {
    var s := Start(cores, rtos);
    StartAtRest(cores, rtos, i);
    es := FirstPost(s, i, m);
    es := TakeOnly(s, es, i, m);
    es := HandlerClears(s, es, i, Counting(Enter), 0, m);
    es := HandlerFrees(s, es, i, m);
    es := BothGetIn(s, es, i, j, m);
    hide Runs, Exec;
  }

  // ---- the rule is exactly what is needed ----

  /** The wake-ups are sound on every run if and only if every core that takes interrupts keeps the rule. */
  lemma WakeupsExact(cores: nat, rtos: nat, m: set<nat>)
    requires rtos <= cores
    ensures (forall es :: Runs(Start(cores, rtos), es, m) ==> WakeupsSound(Exec(Start(cores, rtos), es, m)))
            <==> AllMask(rtos, m)
  {
    hide Runs, Exec, WakeupsSound;
    if AllMask(rtos, m) {
      forall es | Runs(Start(cores, rtos), es, m)
        ensures WakeupsSound(Exec(Start(cores, rtos), es, m))
      {
        OneWakeup(cores, rtos, es, m);
      }
    } else {
      var i: nat :| i < rtos && i !in m;
      var es := UnmaskedSelfPostIsLost(cores, rtos, m, i);
      LostIsUnsound(Exec(Start(cores, rtos), es, m), i);
    }
  }

  lemma LostIsUnsound(s: Sys, i: nat)
    requires HasCore(s, i) && s.owner == -1 && s.pending[i] != {} && s.tokens[i] == 0 && s.cores[i] == RESTING
    ensures !WakeupsSound(s)
  {
  }

  /** With a second core, so is the lock. */
  lemma LockExact(cores: nat, rtos: nat, m: set<nat>)
    requires rtos <= cores && cores >= 2
    ensures (forall es :: Runs(Start(cores, rtos), es, m) ==> LockSound(Exec(Start(cores, rtos), es, m)))
            <==> AllMask(rtos, m)
  {
    hide Runs, Exec, LockSound, Start;
    if AllMask(rtos, m) {
      forall es | Runs(Start(cores, rtos), es, m)
        ensures LockSound(Exec(Start(cores, rtos), es, m))
      {
        LockIsExclusive(cores, rtos, es, m);
      }
    } else {
      var i: nat :| i < rtos && i !in m;
      var j := if i == 0 then 1 else 0;
      var es := UnmaskedAcquireBreaksTheLock(cores, rtos, m, i, j);
      TwoIsUnsound(Exec(Start(cores, rtos), es, m), i, j);
    }
  }

  lemma TwoIsUnsound(s: Sys, i: nat, j: nat)
    requires i != j
    ensures Inside(s, i) && Inside(s, j) ==> !LockSound(s)
  {
  }
}
