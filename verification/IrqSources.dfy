/** Registering peripheral interrupt sources, and the handler's loop over a snapshot of pending bits. */
module IrqSources {

  const CORES: nat := 8
  const ADDITIONAL: nat := 8

  /** A peripheral's service routine, if one has been registered. */
  datatype Isr = NoIsr | Isr(fn: nat)

  /** The scheduler is entered, or the routine of a source runs. */
  datatype Action = Yield | Run(source: nat, fn: nat)

  /** The routine that a source's bit calls for, if any. */
  predicate Calls(bits: set<nat>, isrs: seq<Isr>, source: nat) {
    CORES <= source < CORES + |isrs| && source in bits && isrs[source - CORES].Isr?
  }

  /** The routines of the sources below n, highest first. */
  function RunsBelow(bits: set<nat>, isrs: seq<Isr>, n: nat): (runs: seq<Action>)
    decreases n
  {
    if n == 0 then []
    else (if Calls(bits, isrs, n - 1) then [Run(n - 1, isrs[n - 1 - CORES].fn)] else []) + RunsBelow(bits, isrs, n - 1)
  }

  /** The runs are those that the sources below n call for, each once and with the routine that is registered
    * for it, higher sources first. */
  ghost predicate ExactlyTheCalled(runs: seq<Action>, bits: set<nat>, isrs: seq<Isr>, n: nat) {
    OnlyCalled(runs, bits, isrs, n) && Descending(runs) && AllCalled(runs, bits, isrs, n)
  }

  ghost predicate OnlyCalled(runs: seq<Action>, bits: set<nat>, isrs: seq<Isr>, n: nat) {
    forall k :: 0 <= k < |runs| ==> Right(runs[k], bits, isrs, n)
  }

  predicate Right(a: Action, bits: set<nat>, isrs: seq<Isr>, n: nat) {
    a.Run? && a.source < n && Calls(bits, isrs, a.source) && isrs[a.source - CORES] == Isr(a.fn)
  }

  ghost predicate Descending(runs: seq<Action>) {
    forall j, k :: 0 <= j < k < |runs| ==> runs[j].Run? && runs[k].Run? && runs[k].source < runs[j].source
  }

  ghost predicate AllCalled(runs: seq<Action>, bits: set<nat>, isrs: seq<Isr>, n: nat) {
    forall s: nat :: s < n && Calls(bits, isrs, s) ==> Has(runs, s)
  }

  ghost predicate Has(runs: seq<Action>, source: nat) {
    exists k :: 0 <= k < |runs| && RunsSource(runs[k], source)
  }

  predicate RunsSource(a: Action, source: nat) { a.Run? && a.source == source }

  lemma {:induction false} RunsOnce(bits: set<nat>, isrs: seq<Isr>, n: nat)
    ensures ExactlyTheCalled(RunsBelow(bits, isrs, n), bits, isrs, n)
    decreases n
  {
    if n > 0 {
      RunsOnce(bits, isrs, n - 1);
      var rest := RunsBelow(bits, isrs, n - 1);
      if Calls(bits, isrs, n - 1) {
        OneMore(Run(n - 1, isrs[n - 1 - CORES].fn), rest, bits, isrs, n);
      } else {
        assert [] + rest == rest;
        NoneMore(rest, bits, isrs, n);
      }
    }
  }

  lemma OneMore(first: Action, rest: seq<Action>, bits: set<nat>, isrs: seq<Isr>, n: nat)
    requires n > 0 && Right(first, bits, isrs, n) && first.source == n - 1 && ExactlyTheCalled(rest, bits, isrs, n - 1)
    ensures ExactlyTheCalled([first] + rest, bits, isrs, n)
  {
    NoneOfThese(rest, bits, isrs, n);
    var runs := [first] + rest;
    hide Calls;
    assert OnlyCalled(runs, bits, isrs, n) by { hide AllCalled, Descending; }
    assert Descending(runs) by { hide AllCalled; }
    assert AllCalled(runs, bits, isrs, n) by {
      hide OnlyCalled, Descending, Right;
      forall s: nat | s < n && Calls(bits, isrs, s)
        ensures Has(runs, s)
      {
        if s < n - 1 {
          var k :| 0 <= k < |rest| && RunsSource(rest[k], s);
          assert RunsSource(runs[k + 1], s);
        } else {
          assert RunsSource(runs[0], s);
        }
      }
    }
    hide OnlyCalled, Descending, AllCalled;
  }

  lemma NoneMore(rest: seq<Action>, bits: set<nat>, isrs: seq<Isr>, n: nat)
    requires n > 0 && !Calls(bits, isrs, n - 1) && ExactlyTheCalled(rest, bits, isrs, n - 1)
    ensures ExactlyTheCalled(rest, bits, isrs, n)
  {
    NoneOfThese(rest, bits, isrs, n);
    hide Calls, Has;
  }

  lemma NoneOfThese(rest: seq<Action>, bits: set<nat>, isrs: seq<Isr>, n: nat)
    requires n > 0 && OnlyCalled(rest, bits, isrs, n - 1)
    ensures OnlyCalled(rest, bits, isrs, n) && forall k :: 0 <= k < |rest| ==> rest[k].Run? && rest[k].source < n - 1
  {
    hide Calls;
    forall k | 0 <= k < |rest|
      ensures Right(rest[k], bits, isrs, n) && rest[k].Run? && rest[k].source < n - 1
    {
      assert Right(rest[k], bits, isrs, n - 1);
    }
  }

  /** What the handler does for a snapshot: one yield for all cores together, if any of them has a bit, and
    * then exactly the routines registered for the peripherals that have one. */
  ghost predicate Handles(trace: seq<Action>, snapshot: set<nat>, isrs: seq<Isr>) {
    if exists b :: b in snapshot && b < CORES
    then trace != [] && trace[0].Yield? && ExactlyTheCalled(trace[1..], snapshot, isrs, CORES + ADDITIONAL)
    else ExactlyTheCalled(trace, snapshot, isrs, CORES + ADDITIONAL)
  }

  /** The table keeps everything that the registrations up to slot k have put there. */
  predicate KeepsUpTo(was: seq<Isr>, now: seq<Isr>, k: nat) {
    k < |was| && k < |now| && now[..k + 1] == was[..k + 1]
  }

  /** A source registered with fn, whatever is registered after it, runs fn when it is in the snapshot, once,
    * and nothing else when its turn comes. */
  lemma RegisteredRuns(before: seq<Isr>, k: nat, fn: nat, isrs: seq<Isr>, snapshot: set<nat>, trace: seq<Action>)
    requires k < |before| <= ADDITIONAL && KeepsUpTo(before[k := Isr(fn)], isrs, k) && Handles(trace, snapshot, isrs)
    ensures CORES + k in snapshot <==> Run(CORES + k, fn) in trace
    ensures forall a :: a in trace && RunsSource(a, CORES + k) ==> a.fn == fn
    ensures forall i, j ::
              0 <= i < j < |trace| ==> !(RunsSource(trace[i], CORES + k) && RunsSource(trace[j], CORES + k))
  {
    assert isrs[k] == isrs[..k + 1][k] == Isr(fn);
    var woken := exists b :: b in snapshot && b < CORES;
    var runs := if woken then trace[1..] else trace;
    RunsRegistered(runs, k, fn, isrs, snapshot);
    hide ExactlyTheCalled, KeepsUpTo;
    if woken {
      assert trace == [trace[0]] + runs;
      assert forall i :: 0 < i < |trace| ==> trace[i] == runs[i - 1];
    }
  }

  lemma RunsRegistered(runs: seq<Action>, k: nat, fn: nat, isrs: seq<Isr>, snapshot: set<nat>)
    requires k < |isrs| && k < ADDITIONAL && isrs[k] == Isr(fn)
    requires ExactlyTheCalled(runs, snapshot, isrs, CORES + ADDITIONAL)
    ensures CORES + k in snapshot <==> Run(CORES + k, fn) in runs
    ensures forall a :: a in runs && RunsSource(a, CORES + k) ==> a.fn == fn
    ensures forall i, j :: 0 <= i < j < |runs| ==> !(RunsSource(runs[i], CORES + k) && RunsSource(runs[j], CORES + k))
  {
    forall i | 0 <= i < |runs| && RunsSource(runs[i], CORES + k)
      ensures runs[i] == Run(CORES + k, fn) && CORES + k in snapshot
    {
      assert Right(runs[i], snapshot, isrs, CORES + ADDITIONAL);
    }
    if CORES + k in snapshot {
      assert Calls(snapshot, isrs, CORES + k) && Has(runs, CORES + k);
    }
    hide OnlyCalled, AllCalled, Calls, Right;
  }

  /** The highest set bit, as `31 - __builtin_clz(bits)` computes it. */
  method Highest(bits: set<nat>) returns (s: nat)
    requires bits != {} && forall b :: b in bits ==> b < 32
    ensures s in bits && forall b :: b in bits ==> b <= s
  {
    ghost var some :| some in bits;
    s := 31;
    while s !in bits
      invariant forall b :: b in bits ==> b <= s
      decreases s
    {
      assert some < s;
      s := s - 1;
    }
  }

  class Sources {
    const isrs: array<Isr>
    var count: nat

    ghost predicate Valid()
      reads this, isrs
    {
      && isrs.Length == ADDITIONAL && count <= ADDITIONAL
      && (forall k :: count <= k < ADDITIONAL ==> isrs[k].NoIsr?)
    }

    constructor ()
      ensures Valid() && fresh(isrs) && count == 0
    {
      isrs := new Isr[ADDITIONAL](_ => NoIsr);
      count := 0;
    }

    /** Each registration gets the next source number, which no other source has; the others keep theirs. */
    method Register(fn: nat) returns (source: nat)
      requires Valid() && count < ADDITIONAL
      modifies this, isrs
      ensures Valid() && count == old(count) + 1 && source == CORES + old(count)
      ensures isrs[..] == old(isrs[..])[old(count) := Isr(fn)]
      ensures forall k :: 0 <= k < old(count) ==> KeepsUpTo(old(isrs[..]), isrs[..], k)
    {
      source := count;
      count := count + 1;
      isrs[source] := Isr(fn);
      source := CORES + source;
    }

    /** The handler after its snapshot: one yield for all cores together, then the routines registered for the
      * peripherals, highest first.  Its assertion on the source number holds. */
    method Dispatch(snapshot: set<nat>) returns (trace: seq<Action>)
      requires Valid() && forall b :: b in snapshot ==> b < CORES + ADDITIONAL
      ensures trace == (if exists b :: b in snapshot && b < CORES then [Yield] else [])
                       + RunsBelow(snapshot, isrs[..], CORES + ADDITIONAL)
      ensures Handles(trace, snapshot, isrs[..])
    {
      RunsOnce(snapshot, isrs[..], CORES + ADDITIONAL);
      hide RunsBelow, ExactlyTheCalled;
      var pending, before := snapshot, [];
      var cores := set b | b in snapshot && b < CORES;
      if cores != {} {
        pending := pending - cores;
        before := [Yield];
        assert exists b :: b in cores;
      }
      assert forall b :: b in snapshot && b < CORES ==> b in cores;
      var runs := RunAll(pending, snapshot);
      trace := before + runs;
      assert before == [] ==> trace == runs;
      assert before != [] ==> trace[1..] == runs;
    }

    method RunAll(bits: set<nat>, ghost snapshot: set<nat>) returns (trace: seq<Action>)
      requires Valid() && (forall b :: b in bits <==> b in snapshot && CORES <= b)
      requires forall b :: b in snapshot ==> b < CORES + ADDITIONAL
      ensures trace == RunsBelow(snapshot, isrs[..], CORES + ADDITIONAL)
    {
      hide RunsBelow, Calls;
      var pending := bits;
      ghost var table, n: nat := isrs[..], CORES + ADDITIONAL;
      trace := [];
      while pending != {}
        invariant n <= CORES + ADDITIONAL && (forall b :: b in pending <==> b in snapshot && CORES <= b < n)
        invariant trace + RunsBelow(snapshot, table, n) == RunsBelow(snapshot, table, CORES + ADDITIONAL)
        decreases pending
      {
        var source := Highest(pending);
        assert CORES <= source < CORES + ADDITIONAL;
        NextRun(snapshot, table, source, n);
        pending := pending - {source};
        n := source;
        if isrs[source - CORES].Isr? {
          trace := trace + [Run(source, isrs[source - CORES].fn)];
        }
      }
      NoRuns(snapshot, table, n);
    }
  }

  lemma NextRun(bits: set<nat>, isrs: seq<Isr>, source: nat, n: nat)
    requires CORES <= source < n <= CORES + |isrs| && source in bits
    requires forall b :: b in bits && CORES <= b < n ==> b <= source
    ensures RunsBelow(bits, isrs, n) ==
            (if isrs[source - CORES].Isr? then [Run(source, isrs[source - CORES].fn)] else [])
            + RunsBelow(bits, isrs, source)
  {
    SkipTo(bits, isrs, source + 1, n);
  }

  lemma {:induction false} SkipTo(bits: set<nat>, isrs: seq<Isr>, m: nat, n: nat)
    requires m <= n && forall b :: b in bits && CORES <= b < n ==> b < m
    ensures RunsBelow(bits, isrs, n) == RunsBelow(bits, isrs, m)
    decreases n
  {
    if m < n { SkipTo(bits, isrs, m, n - 1); }
  }

  lemma {:induction false} NoRuns(bits: set<nat>, isrs: seq<Isr>, n: nat)
    requires forall b :: b in bits ==> !(CORES <= b < n)
    ensures RunsBelow(bits, isrs, n) == []
    decreases n
  {
    if n > 0 { NoRuns(bits, isrs, n - 1); }
  }
}
