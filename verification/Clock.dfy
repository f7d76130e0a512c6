/** The RTOS clock: whole seconds, and microseconds with twelve fractional bits in a 32-bit word. */
module Clock {
  import opened Arith

  const U32: nat := 0x1_0000_0000
  const U64: nat := 0x1_0000_0000_0000_0000
  const Q12: nat := 4096
  const ONE_SECOND_US: nat := 1_000_000 * Q12

  /** The longest tick for which the 32-bit sum cannot wrap. */
  const MAX_TICK: nat := U32 - ONE_SECOND_US

  type Word32 = x: nat | x < U32
  type Word64 = x: nat | x < U64

  datatype Time = Time(seconds: Word64, microseconds: Word32)

  function Increment(t: Time, tick: Word32): Time {
    var us := (t.microseconds + tick) % U32;
    if us >= ONE_SECOND_US then Time((t.seconds + 1) % U64, us - ONE_SECOND_US) else Time(t.seconds, us)
  }

  function Set(t: Time): Time { t.(microseconds := t.microseconds * Q12 % U32) }

  function Get(t: Time): Time { t.(microseconds := t.microseconds / Q12) }

  // ---- the clock, with the own core's interrupt ----

  /** The words a copy of the time is made of: the halves of the 64-bit seconds, and the microseconds. */
  datatype Part = Low | High | Us

  function PartOf(t: Time, p: Part): Word32 {
    match p
    case Low => t.seconds % U32
    case High => t.seconds / U32
    case Us => t.microseconds
  }

  /** How many ticks have landed when each word of a copy is loaded, which also gives their order. */
  datatype Loads = Loads(low: nat, high: nat, us: nat)

  function At(at: Loads, p: Part): nat {
    match p
    case Low => at.low
    case High => at.high
    case Us => at.us
  }

  function Max(a: nat, b: nat): nat { if a < b then b else a }

  function Last(at: Loads): nat { Max(at.low, Max(at.high, at.us)) }

  /** The copy, each word as it is when it is loaded. */
  function Copy(t: Time, tick: Word32, at: Loads): Time {
    Join(PartOf(Ticks(t, tick, at.low), Low), PartOf(Ticks(t, tick, at.high), High), PartOf(Ticks(t, tick, at.us), Us))
  }

  function Join(low: Word32, high: Word32, us: Word32): Time { Time(high * U32 + low, us) }

  /** The clock after n ticks between the two stores of a new time. */
  function SetBetween(t: Time, newTime: Time, tick: Word32, n: nat, secondsFirst: bool): Time {
    if secondsFirst then Time(Ticks(Time(newTime.seconds, t.microseconds), tick, n).seconds, Set(newTime).microseconds)
    else Time(newTime.seconds, Ticks(Time(t.seconds, Set(newTime).microseconds), tick, n).microseconds)
  }

  /** A copy whose words are all loaded together is the clock, and then gives its whole microseconds. */
  lemma GetMeans(t: Time, tick: Word32, at: Loads)
    requires at.low == at.high == at.us
    ensures Copy(t, tick, at) == Ticks(t, tick, Last(at))
    ensures var now, got := Ticks(t, tick, Last(at)), Get(Copy(t, tick, at));
            InRange(now) ==>
              got.seconds * 1_000_000 + got.microseconds == Value(now) / Q12 && got.microseconds < 1_000_000
  {
  }

  /** `current_time`.  Each access holds a lock that keeps the other cores out, but neither masks the
    * interrupts of its own core nor keeps a handler there from taking the lock again: between the loads
    * or stores of a task, the tick interrupt of its core may increment the clock any number of times. */
  class RtosClock {
    var seconds: Word64
    var microseconds: Word32

    function Now(): Time
      reads this
    {
      Time(seconds, microseconds)
    }

    constructor ()
      ensures Now() == Time(0, 0)
    {
      seconds, microseconds := 0, 0;
    }

    /** A clock in range advances by the tick, and stays in range, if the tick is not too long. */
    method TimeIncrement(tickPeriod: Word32)
      modifies this
      ensures Now() == Increment(old(Now()), tickPeriod)
      ensures InRange(old(Now())) && tickPeriod <= MAX_TICK ==>
                InRange(Now()) && Value(Now()) == Wrapped(Value(old(Now())) + tickPeriod)
    {
      microseconds := (microseconds + tickPeriod) % U32;
      if microseconds >= ONE_SECOND_US {
        microseconds := microseconds - ONE_SECOND_US;
        seconds := (seconds + 1) % U64;
      }
    }

    /** The interrupt lets n ticks land. */
    method Interrupts(n: nat, tick: Word32)
      modifies this
      ensures Now() == Ticks(old(Now()), tick, n)
    {
      for i := 0 to n
        invariant Now() == Ticks(old(Now()), tick, i)
      {
        TimeIncrement(tick);
      }
    }

    /** With no tick between the stores, and less than a second of microseconds, the clock holds the new time. */
    method TimeSet(newTime: Time, tick: Word32, n: nat, secondsFirst: bool)
      modifies this
      ensures Now() == SetBetween(old(Now()), newTime, tick, n, secondsFirst)
      ensures n == 0 && newTime.microseconds < 1_000_000 ==>
                InRange(Now()) && Value(Now()) == (newTime.seconds * 1_000_000 + newTime.microseconds) * Q12
    {
      var us := newTime.microseconds * Q12 % U32;
      if secondsFirst {
        seconds := newTime.seconds;
        Interrupts(n, tick);
        microseconds := us;
      } else {
        microseconds := us;
        Interrupts(n, tick);
        seconds := newTime.seconds;
      }
    }

    /** With no tick between the loads, the whole microseconds of the clock. */
    method TimeGet(tick: Word32, at: Loads) returns (t: Time)
      modifies this
      ensures Now() == Ticks(old(Now()), tick, Last(at))
      ensures t == Get(Copy(old(Now()), tick, at))
      ensures InRange(Now()) && at.low == at.high == at.us ==>
                t.seconds * 1_000_000 + t.microseconds == Value(Now()) / Q12 && t.microseconds < 1_000_000
    {
      ghost var was := Now();
      if at.low == at.high == at.us { GetMeans(was, tick, at); }
      hide Value, InRange, PartOf, Join, Get;
      var low, high, us: Word32 := 0, 0, 0;
      for k := 0 to Last(at) + 1
        invariant Now() == Ticks(was, tick, if k == 0 then 0 else k - 1)
        invariant at.low < k ==> low == PartOf(Ticks(was, tick, at.low), Low)
        invariant at.high < k ==> high == PartOf(Ticks(was, tick, at.high), High)
        invariant at.us < k ==> us == PartOf(Ticks(was, tick, at.us), Us)
      {
        if k > 0 { TimeIncrement(tick); }
        if k == at.low { low := PartOf(Now(), Low); }
        if k == at.high { high := PartOf(Now(), High); }
        if k == at.us { us := PartOf(Now(), Us); }
      }
      t := Get(Join(low, high, us));
    }
  }

  // ---- exactness ----

  predicate InRange(t: Time) { t.microseconds < ONE_SECOND_US }

  /** The time in units of 2^-12 microseconds. */
  function Value(t: Time): nat { t.seconds * ONE_SECOND_US + t.microseconds }

  const WRAP: nat := U64 * ONE_SECOND_US

  /** A value after any wraps of the 64-bit seconds. */
  function Wrapped(v: int): nat { v % WRAP }

  /** One increment advances the clock by the tick, up to the wrap of the 64-bit seconds. */
  predicate Exact(t: Time, tick: Word32) {
    InRange(Increment(t, tick)) && Value(Increment(t, tick)) == Wrapped(Value(t) + tick)
  }

  /** Every increment of a clock in range is exact, and leaves it in range, if and only if the tick is not
    * too long. */
  lemma ExactTicks(tick: Word32)
    ensures (forall t :: InRange(t) ==> Exact(t, tick)) <==> tick <= MAX_TICK
  {
    if tick <= MAX_TICK {
      forall t | InRange(t)
        ensures Exact(t, tick)
      {
        ExactTick(t, tick);
      }
    } else {
      var t := Time(0, ONE_SECOND_US - 1);
      assert InRange(t) && !Exact(t, tick);
    }
  }

  lemma ExactTick(t: Time, tick: Word32)
    requires InRange(t) && tick <= MAX_TICK
    ensures Exact(t, tick)
  {
  }

  function Ticks(t: Time, tick: Word32, n: nat): Time {
    if n == 0 then t else Increment(Ticks(t, tick, n - 1), tick)
  }

  /** n increments advance the clock by exactly n ticks. */
  lemma {:induction false} TicksAdvance(t: Time, tick: Word32, n: nat)
    requires InRange(t) && tick <= MAX_TICK
    ensures InRange(Ticks(t, tick, n)) && Value(Ticks(t, tick, n)) == Wrapped(Value(t) + n * tick)
  {
    hide Increment, Value, InRange, Wrapped;
    if n == 0 {
      BelowWrap(t);
    } else {
      TicksAdvance(t, tick, n - 1);
      ExactTick(Ticks(t, tick, n - 1), tick);
      NextTick(Value(t), tick, n);
      hide Ticks;
    }
  }

  lemma BelowWrap(t: Time)
    requires InRange(t)
    ensures Wrapped(Value(t)) == Value(t)
  {
    ModUnique(Value(t), 0, Value(t), WRAP);
  }

  lemma NextTick(v: int, tick: nat, n: nat)
    requires n > 0
    ensures Wrapped(Wrapped(v + (n - 1) * tick) + tick) == Wrapped(v + n * tick)
  {
    MulDistrib(n, 1, tick);
    AddMod(v + (n - 1) * tick, tick);
    assert v + n * tick == v + (n - 1) * tick + tick;
  }

  lemma AddMod(x: int, y: int)
    ensures Wrapped(Wrapped(x) + y) == Wrapped(x + y)
  {
    DivMod(x, WRAP);
    ModMultiple(x % WRAP + y, x / WRAP, WRAP);
  }

  // ---- what an interrupt does to a copy ----

  /** Each word is a digit of the clock's value. */
  function Digit(v: int, unit: nat, base: nat): int
    requires unit > 0 && base > 0
  {
    (v / unit) % base
  }

  function Unit(p: Part): (u: nat)
    ensures u > 0
  {
    match p
    case Low => ONE_SECOND_US
    case High => ONE_SECOND_US * U32
    case Us => 1
  }

  function Base(p: Part): (b: nat)
    ensures b > 1
  {
    if p.Us? then ONE_SECOND_US else U32
  }

  lemma PartIsDigit(t: Time, p: Part)
    requires InRange(t)
    ensures PartOf(t, p) == Digit(Value(t), Unit(p), Base(p))
  {
    match p
    case Low => ModUnique(Value(t), t.seconds, t.microseconds, ONE_SECOND_US);
    case High => HighIsDigit(t);
    case Us => ModUnique(Value(t), t.seconds, t.microseconds, ONE_SECOND_US);
  }

  lemma HighIsDigit(t: Time)
    requires InRange(t)
    ensures t.seconds / U32 == Digit(Value(t), ONE_SECOND_US * U32, U32)
  {
    var q, r := t.seconds / U32, t.seconds % U32;
    DivMod(t.seconds, U32);
    ModUnique(Value(t), q, r * ONE_SECOND_US + t.microseconds, ONE_SECOND_US * U32);
    ModUnique(q, 0, q, U32);
  }

  /** Adding a multiple of all that a digit and those below it can hold does not change it. */
  lemma DigitPeriod(v: int, k: int, unit: nat, base: nat)
    requires unit > 0 && base > 0
    ensures Digit(v + k * (unit * base), unit, base) == Digit(v, unit, base)
  {
    DivMod(v, unit);
    calc {
      v + k * (unit * base);
      { MulAssoc(k, base, unit); SwapFactors(k, unit, base); MulAssoc(k, unit, base); }
      (v / unit) * unit + v % unit + (k * base) * unit;
      { MulDistrib(v / unit, k * base, unit); }
      (v / unit + k * base) * unit + v % unit;
    }
    ModUnique(v + k * (unit * base), v / unit + k * base, v % unit, unit);
    ModMultiple(v / unit, k, base);
  }

  /** Anything else changes it, for one of two values. */
  lemma DigitMoves(d: nat, unit: nat, base: nat) returns (v: nat)
    requires unit > 0 && base > 1 && d % (unit * base) != 0
    ensures v < unit && Digit(v + d, unit, base) != Digit(v, unit, base)
  {
    var m := unit * base;
    var r := d % m;
    DivMod(d, m);
    v := if r < unit then unit - 1 else 0;
    DigitPeriod(v + r, d / m, unit, base);
    ModUnique(v, 0, v, unit);
    ModUnique(0, 0, 0, base);
    if r < unit {
      ModUnique(v + r, 1, r - 1, unit);
      ModUnique(1, 0, 1, base);
    } else {
      var q := r / unit;
      DivMod(r, unit);
      if q < 1 { MulMonotone(q, 0, unit); }
      if q >= base { MulMonotone(base, q, unit); }
      ModUnique(q, 0, q, base);
    }
  }

  /** A clock that shows any given value, below the wrap, after n ticks. */
  lemma ClockWith(v: nat, tick: Word32, n: nat) returns (t: Time)
    requires v < WRAP && tick <= MAX_TICK
    ensures InRange(t) && Value(Ticks(t, tick, n)) == v
  {
    var w := Wrapped(v - n * tick);
    t := Time(w / ONE_SECOND_US, w % ONE_SECOND_US);
    TicksAdvance(t, tick, n);
    hide Ticks;
    assert Value(t) == w;
    AddMod(v - n * tick, n * tick);
    ModUnique(v, 0, v, WRAP);
  }

  /** The time from the load of a word to the last load. */
  function Elapsed(tick: Word32, at: Loads, p: Part): nat {
    MulNonneg(Last(at) - At(at, p), tick);
    (Last(at) - At(at, p)) * tick
  }

  lemma WrapIsMultiple(p: Part) returns (k: nat)
    ensures WRAP == k * (Unit(p) * Base(p))
  {
    k := match p case Low => U32 case High => 1 case Us => U64;
  }

  /** What a word would be at the last load. */
  lemma PartAtLast(t: Time, tick: Word32, at: Loads, p: Part)
    requires InRange(t) && tick <= MAX_TICK
    ensures PartOf(Ticks(t, tick, Last(at)), p) ==
            Digit(Value(Ticks(t, tick, At(at, p))) + Elapsed(tick, at, p), Unit(p), Base(p))
  {
    var v, e := Value(Ticks(t, tick, At(at, p))), Elapsed(tick, at, p);
    TicksAdvance(t, tick, Last(at));
    PartIsDigit(Ticks(t, tick, Last(at)), p);
    LastValue(t, tick, at, p);
    hide Ticks, PartOf, Digit, Value, InRange, Elapsed;
    DigitWrapped(v + e, p);
  }

  lemma LastValue(t: Time, tick: Word32, at: Loads, p: Part)
    requires InRange(t) && tick <= MAX_TICK
    ensures Value(Ticks(t, tick, Last(at))) == Wrapped(Value(Ticks(t, tick, At(at, p))) + Elapsed(tick, at, p))
  {
    TicksAdvance(t, tick, At(at, p));
    TicksAdvance(t, tick, Last(at));
    hide Ticks, Value, InRange, Wrapped;
    MulDistrib(Last(at), At(at, p), tick);
    AddMod(Value(t) + At(at, p) * tick, Elapsed(tick, at, p));
  }

  /** A wrap of the seconds changes no digit. */
  lemma DigitWrapped(x: nat, p: Part)
    ensures Digit(Wrapped(x), Unit(p), Base(p)) == Digit(x, Unit(p), Base(p))
  {
    var q := x / WRAP;
    var k := WrapIsMultiple(p);
    DivMod(x, WRAP);
    hide Unit, Base, Digit;
    MulAssoc(q, k, Unit(p) * Base(p));
    DigitPeriod(Wrapped(x), q * k, Unit(p), Base(p));
  }

  predicate Stays(t: Time, tick: Word32, at: Loads, p: Part) {
    PartOf(Ticks(t, tick, At(at, p)), p) == PartOf(Ticks(t, tick, Last(at)), p)
  }

  /** A word is, for every clock, what it would be at the last load, exactly if the ticks from one load to
    * the other are a multiple of all the word and those below it can hold. */
  lemma PartStays(tick: Word32, at: Loads, p: Part)
    requires tick <= MAX_TICK
    ensures (forall t :: InRange(t) ==> Stays(t, tick, at, p)) <==> Elapsed(tick, at, p) % (Unit(p) * Base(p)) == 0
  {
    var n, e, m := At(at, p), Elapsed(tick, at, p), Unit(p) * Base(p);
    hide Ticks, PartOf, Digit, Value, Elapsed;
    if e % m == 0 {
      forall t | InRange(t)
        ensures Stays(t, tick, at, p)
      {
        TicksAdvance(t, tick, n);
        PartAtLast(t, tick, at, p);
        PartIsDigit(Ticks(t, tick, n), p);
        DivMod(e, m);
        DigitPeriod(Value(Ticks(t, tick, n)), e / m, Unit(p), Base(p));
      }
    } else {
      var v := DigitMoves(e, Unit(p), Base(p));
      var t := ClockWith(v, tick, n);
      TicksAdvance(t, tick, n);
      PartAtLast(t, tick, at, p);
      PartIsDigit(Ticks(t, tick, n), p);
    }
  }

  lemma CopyParts(t: Time, tick: Word32, at: Loads)
    ensures Copy(t, tick, at) == Ticks(t, tick, Last(at)) <==> forall p :: Stays(t, tick, at, p)
  {
    var low, high, us := Ticks(t, tick, at.low), Ticks(t, tick, at.high), Ticks(t, tick, at.us);
    var last := Ticks(t, tick, Last(at));
    hide Ticks;
    assert Stays(t, tick, at, Low) <==> low.seconds % U32 == last.seconds % U32;
    assert Stays(t, tick, at, High) <==> high.seconds / U32 == last.seconds / U32;
    assert Stays(t, tick, at, Us) <==> us.microseconds == last.microseconds;
    DivMod(last.seconds, U32);
    if low.seconds % U32 + (high.seconds / U32) * U32 == last.seconds {
      ModUnique(last.seconds, high.seconds / U32, low.seconds % U32, U32);
    }
  }

  /** A copy is the clock as it is at the last load, for every clock in range and whatever the order of the
    * loads, if and only if the time between the loads cannot change the words loaded before. */
  lemma CopyIsWhole(tick: Word32, at: Loads)
    requires tick <= MAX_TICK
    ensures (forall t :: InRange(t) ==> Copy(t, tick, at) == Ticks(t, tick, Last(at))) <==>
            forall p :: Elapsed(tick, at, p) % (Unit(p) * Base(p)) == 0
  {
    hide Copy, Ticks, InRange, Last, Elapsed, Unit, Base, Stays;
    if forall p :: Elapsed(tick, at, p) % (Unit(p) * Base(p)) == 0 {
      forall t | InRange(t)
        ensures Copy(t, tick, at) == Ticks(t, tick, Last(at))
      {
        forall p ensures Stays(t, tick, at, p) { PartStays(tick, at, p); }
        CopyParts(t, tick, at);
      }
    } else {
      var p :| Elapsed(tick, at, p) % (Unit(p) * Base(p)) != 0;
      PartStays(tick, at, p);
      var t :| InRange(t) && !Stays(t, tick, at, p);
      CopyParts(t, tick, at);
    }
  }

  /** For a copy that takes less than a second: a whole copy is certain if and only if no tick lands between
    * the loads. */
  lemma ShortCopyIsWhole(tick: Word32, at: Loads)
    requires 0 < tick <= MAX_TICK && forall p :: Elapsed(tick, at, p) < ONE_SECOND_US
    ensures (forall t :: InRange(t) ==> Copy(t, tick, at) == Ticks(t, tick, Last(at))) <==> at.low == at.high == at.us
  {
    CopyIsWhole(tick, at);
    hide Copy, Ticks, InRange, Last;
    forall p
      ensures Elapsed(tick, at, p) % (Unit(p) * Base(p)) == 0 <==> At(at, p) == Last(at)
    {
      ShortElapsed(tick, at, p);
    }
    LastOfAll(at);
    hide *;
  }

  lemma ShortElapsed(tick: Word32, at: Loads, p: Part)
    requires 0 < tick && Elapsed(tick, at, p) < ONE_SECOND_US
    ensures Elapsed(tick, at, p) % (Unit(p) * Base(p)) == 0 <==> At(at, p) == Last(at)
  {
    var e := Elapsed(tick, at, p);
    assert ONE_SECOND_US <= Unit(p) * Base(p);
    ModUnique(e, 0, e, Unit(p) * Base(p));
    if At(at, p) < Last(at) { MulAtLeast(Last(at) - At(at, p), tick); }
  }

  lemma LastOfAll(at: Loads)
    ensures (forall p :: At(at, p) == Last(at)) <==> at.low == at.high == at.us
  {
    assert At(at, Low) == at.low && At(at, High) == at.high && At(at, Us) == at.us;
  }

  function Min(a: nat, b: nat): nat { if a < b then a else b }

  function First(at: Loads): nat { Min(at.low, Min(at.high, at.us)) }

  /** The copy is the clock at some moment from the first load to the last. */
  ghost predicate WasSo(t: Time, tick: Word32, at: Loads) {
    exists k :: First(at) <= k <= Last(at) && Copy(t, tick, at) == Ticks(t, tick, k)
  }

  /** The microseconds run over between the loads at a and at b, whichever is first. */
  predicate Carries(t: Time, tick: Word32, a: nat, b: nat) {
    Ticks(t, tick, Min(a, b)).microseconds + (Max(a, b) - Min(a, b)) * tick >= ONE_SECOND_US
  }

  /** The lower half of the seconds is about to run over at the first of the two. */
  predicate LowFull(t: Time, tick: Word32, a: nat, b: nat) {
    Ticks(t, tick, Min(a, b)).seconds % U32 == U32 - 1
  }

  /** No word of the seconds changes between its load and that of the microseconds. */
  predicate Untorn(t: Time, tick: Word32, at: Loads) {
    !Carries(t, tick, at.low, at.us) && !(Carries(t, tick, at.high, at.us) && LowFull(t, tick, at.high, at.us))
  }

  lemma {:induction false} TicksAdd(t: Time, tick: Word32, a: nat, d: nat)
    ensures Ticks(t, tick, a + d) == Ticks(Ticks(t, tick, a), tick, d)
  {
    if d > 0 { TicksAdd(t, tick, a, d - 1); }
  }

  /** Within a second the clock carries at most once. */
  lemma CarryOnce(u: Time, tick: Word32, d: nat)
    requires InRange(u) && tick <= MAX_TICK && d * tick < ONE_SECOND_US
    ensures Ticks(u, tick, d).seconds ==
            if u.microseconds + d * tick < ONE_SECOND_US then u.seconds else (u.seconds + 1) % U64
  {
    MulNonneg(d, tick);
    FieldsAfter(u, tick, d);
    hide Ticks;
    var e := u.microseconds + d * tick;
    if e < ONE_SECOND_US {
      ModUnique(u.seconds * ONE_SECOND_US + e, u.seconds, e, ONE_SECOND_US);
    } else {
      ModUnique(u.seconds * ONE_SECOND_US + e, u.seconds + 1, e - ONE_SECOND_US, ONE_SECOND_US);
    }
  }

  lemma WordsAfter(s: Word64)
    ensures ((s + 1) % U64) % U32 != s % U32
    ensures ((s + 1) % U64) / U32 == s / U32 <==> s % U32 != U32 - 1
  {
    var q, r := s / U32, s % U32;
    DivMod(s, U32);
    if r < U32 - 1 {
      ModUnique(s + 1, q, r + 1, U32);
    } else if s + 1 < U64 {
      ModUnique(s + 1, q + 1, 0, U32);
    }
  }

  /** Which words of the seconds differ between two moments less than a second apart. */
  lemma WordsKept(t: Time, tick: Word32, a: nat, b: nat)
    requires InRange(t) && tick <= MAX_TICK && (Max(a, b) - Min(a, b)) * tick < ONE_SECOND_US
    ensures PartOf(Ticks(t, tick, a), Low) == PartOf(Ticks(t, tick, b), Low) <==> !Carries(t, tick, a, b)
    ensures PartOf(Ticks(t, tick, a), High) == PartOf(Ticks(t, tick, b), High) <==>
            !(Carries(t, tick, a, b) && LowFull(t, tick, a, b))
  {
    var lo, d := Min(a, b), Max(a, b) - Min(a, b);
    TicksAdvance(t, tick, lo);
    TicksAdd(t, tick, lo, d);
    WordsKeptFrom(Ticks(t, tick, lo), tick, d);
    hide Ticks, PartOf, Value, InRange;
  }

  lemma WordsKeptFrom(u: Time, tick: Word32, d: nat)
    requires InRange(u) && tick <= MAX_TICK && d * tick < ONE_SECOND_US
    ensures var v, carries := Ticks(u, tick, d), u.microseconds + d * tick >= ONE_SECOND_US;
            && (PartOf(u, Low) == PartOf(v, Low) <==> !carries)
            && (PartOf(u, High) == PartOf(v, High) <==> !(carries && u.seconds % U32 == U32 - 1))
  {
    CarryOnce(u, tick, d);
    WordsAfter(u.seconds);
    hide Ticks;
  }

  /** Within a second no two moments have the same microseconds. */
  lemma SameUs(t: Time, tick: Word32, a: nat, b: nat)
    requires InRange(t) && 0 < tick <= MAX_TICK && a <= b && (b - a) * tick < ONE_SECOND_US
    requires Ticks(t, tick, a).microseconds == Ticks(t, tick, b).microseconds
    ensures a == b
  {
    TicksAdvance(t, tick, a);
    TicksAdd(t, tick, a, b - a);
    var u, e := Ticks(t, tick, a), (b - a) * tick;
    FieldsAfter(u, tick, b - a);
    hide Ticks;
    if a < b { MulAtLeast(b - a, tick); }
    var x := u.microseconds + e;
    if x < ONE_SECOND_US {
      ModUnique(x, 0, x, ONE_SECOND_US);
    } else {
      ModUnique(x, 1, x - ONE_SECOND_US, ONE_SECOND_US);
    }
  }

  lemma Closer(a: nat, b: nat, lo: nat, hi: nat, tick: nat)
    requires lo <= a <= hi && lo <= b <= hi && (hi - lo) * tick < ONE_SECOND_US
    ensures (Max(a, b) - Min(a, b)) * tick < ONE_SECOND_US
  {
    MulMonotone(Max(a, b) - Min(a, b), hi - lo, tick);
  }

  /** A copy that takes less than a second is the clock at some moment in between if and only if no carry
    * comes between the load of a word of the seconds that it changes and that of the microseconds. */
  lemma ShortCopyWasSo(t: Time, tick: Word32, at: Loads)
    requires InRange(t) && 0 < tick <= MAX_TICK && (Last(at) - First(at)) * tick < ONE_SECOND_US
    ensures WasSo(t, tick, at) <==> Untorn(t, tick, at)
  {
    var lo, hi := First(at), Last(at);
    Closer(at.low, at.us, lo, hi, tick);
    Closer(at.high, at.us, lo, hi, tick);
    WordsKept(t, tick, at.low, at.us);
    WordsKept(t, tick, at.high, at.us);
    AtUs(t, tick, at);
    if WasSo(t, tick, at) {
      var k :| lo <= k <= hi && Copy(t, tick, at) == Ticks(t, tick, k);
      Closer(k, at.us, lo, hi, tick);
      hide Carries, LowFull, Ticks;
      SameUs(t, tick, Min(k, at.us), Max(k, at.us));
    }
    hide Carries, LowFull, Ticks;
  }

  /** A copy is the clock at the load of the microseconds if the words of the seconds are as they are then. */
  lemma AtUs(t: Time, tick: Word32, at: Loads)
    ensures Copy(t, tick, at) == Ticks(t, tick, at.us) <==>
            && PartOf(Ticks(t, tick, at.low), Low) == PartOf(Ticks(t, tick, at.us), Low)
            && PartOf(Ticks(t, tick, at.high), High) == PartOf(Ticks(t, tick, at.us), High)
    ensures Copy(t, tick, at).microseconds == Ticks(t, tick, at.us).microseconds
  {
    var low, high, us := Ticks(t, tick, at.low), Ticks(t, tick, at.high), Ticks(t, tick, at.us);
    hide Ticks;
    DivMod(us.seconds, U32);
    if low.seconds % U32 + (high.seconds / U32) * U32 == us.seconds {
      ModUnique(us.seconds, high.seconds / U32, low.seconds % U32, U32);
    }
  }

  /** For every clock in range, that is certain if and only if no tick lands between the loads. */
  lemma ShortCopyAlwaysWasSo(tick: Word32, at: Loads)
    requires 0 < tick <= MAX_TICK && (Last(at) - First(at)) * tick < ONE_SECOND_US
    ensures (forall t :: InRange(t) ==> WasSo(t, tick, at)) <==> at.low == at.high == at.us
  {
    hide WasSo, InRange, Untorn, Value;
    if at.low == at.high == at.us {
      forall t | InRange(t)
        ensures WasSo(t, tick, at)
      {
        ShortCopyWasSo(t, tick, at);
        OneMoment(t, tick, at);
      }
    } else {
      var t := TornClock(tick, at);
      ShortCopyWasSo(t, tick, at);
    }
  }

  lemma OneMoment(t: Time, tick: Word32, at: Loads)
    requires InRange(t) && tick <= MAX_TICK && at.low == at.high == at.us
    ensures Untorn(t, tick, at)
  {
    NoCarryAt(t, tick, at.us);
    hide Carries, LowFull;
  }

  lemma NoCarryAt(t: Time, tick: Word32, n: nat)
    requires InRange(t) && tick <= MAX_TICK
    ensures !Carries(t, tick, n, n)
  {
    TicksAdvance(t, tick, n);
    hide Ticks, Value, Wrapped;
    assert (Max(n, n) - Min(n, n)) * tick == 0;
  }

  /** A clock whose lower half of the seconds runs over with the first tick between two of the loads. */
  lemma TornClock(tick: Word32, at: Loads) returns (t: Time)
    requires 0 < tick <= MAX_TICK && !(at.low == at.high == at.us)
    ensures InRange(t) && !Untorn(t, tick, at)
  {
    var other := if at.low != at.us then at.low else at.high;
    var n := Min(other, at.us);
    t := ClockWith(U32 * ONE_SECOND_US - 1, tick, n);
    TicksAdvance(t, tick, n);
    var u := Ticks(t, tick, n);
    hide Ticks;
    ModUnique(Value(u), u.seconds, u.microseconds, ONE_SECOND_US);
    ModUnique(Value(u), U32 - 1, ONE_SECOND_US - 1, ONE_SECOND_US);
    MulAtLeast(Max(other, at.us) - n, tick);
    assert Carries(t, tick, other, at.us) && LowFull(t, tick, other, at.us);
  }

  /** A copy torn by one tick that carries into the seconds is a whole second out: behind the clock if the
    * seconds were loaded before it, ahead if the microseconds were. */
  lemma TornCopy(t: Time, tick: Word32)
    requires InRange(t) && tick <= MAX_TICK && t.microseconds + tick >= ONE_SECOND_US && t.seconds + 1 < U64
    ensures Value(Copy(t, tick, Loads(0, 0, 1))) == Value(Increment(t, tick)) - ONE_SECOND_US
    ensures Value(Copy(t, tick, Loads(1, 1, 0))) == Value(t) + ONE_SECOND_US
  {
    assert Ticks(t, tick, 1) == Increment(Ticks(t, tick, 0), tick) && Ticks(t, tick, 0) == t;
    hide Ticks;
    assert Increment(t, tick) == Time(t.seconds + 1, t.microseconds + tick - ONE_SECOND_US);
    hide Increment;
    DivMod(t.seconds, U32);
    DivMod(t.seconds + 1, U32);
  }

  // ---- what an interrupt does to a new time ----

  /** The fields of a clock that shows the value v. */
  lemma FieldsOf(v: nat, u: Time)
    requires InRange(u) && Value(u) == Wrapped(v)
    ensures u.seconds == Digit(v, ONE_SECOND_US, U64) && u.microseconds == v % ONE_SECOND_US
  {
    var k := v / WRAP;
    DivMod(v, WRAP);
    MulAssoc(k, U64, ONE_SECOND_US);
    MulDistrib(k * U64, u.seconds, ONE_SECOND_US);
    ModUnique(v, k * U64 + u.seconds, u.microseconds, ONE_SECOND_US);
    ModUnique(k * U64 + u.seconds, k, u.seconds, U64);
  }

  /** The fields after n ticks. */
  lemma FieldsAfter(t: Time, tick: Word32, n: nat)
    requires InRange(t) && tick <= MAX_TICK
    ensures Ticks(t, tick, n).seconds == Digit(Value(t) + n * tick, ONE_SECOND_US, U64)
    ensures Ticks(t, tick, n).microseconds == (t.microseconds + n * tick) % ONE_SECOND_US
  {
    TicksAdvance(t, tick, n);
    MulNonneg(n, tick);
    hide Ticks, Digit, Wrapped;
    FieldsOf(Value(t) + n * tick, Ticks(t, tick, n));
    ModMultiple(t.microseconds + n * tick, t.seconds, ONE_SECOND_US);
  }

  /** What a new time stored in two parts should give: with the microseconds last, the new time; with them
    * first, the new time advanced by the ticks. */
  predicate SetRight(t: Time, newTime: Time, tick: Word32, n: nat, secondsFirst: bool) {
    SetBetween(t, newTime, tick, n, secondsFirst) == if secondsFirst then Set(newTime) else Ticks(Set(newTime), tick, n)
  }

  predicate Settable(t: Time, newTime: Time) { InRange(t) && newTime.microseconds < 1_000_000 }

  /** The seconds of every settable time survive n ticks of its microseconds exactly if the ticks, less any
    * whole turns of the 64-bit seconds, are too short to carry out of a microsecond's fraction. */
  lemma NewSecondsStay(tick: Word32, n: nat)
    requires tick <= MAX_TICK
    ensures (forall t: Time, later :: Settable(t, later) ==> SetRight(t, later, tick, n, false)) <==>
            Wrapped(n * tick) < Q12
  {
    hide Value, Ticks, SetRight, Settable, Wrapped;
    if Wrapped(n * tick) < Q12 {
      forall t: Time, later | Settable(t, later)
        ensures SetRight(t, later, tick, n, false)
      {
        NewSecondsKept(t, later, tick, n);
      }
    } else {
      var t, later := NewSecondsLost(tick, n);
    }
  }

  lemma NewSecondsKept(t: Time, newTime: Time, tick: Word32, n: nat)
    requires Settable(t, newTime) && tick <= MAX_TICK && Wrapped(n * tick) < Q12
    ensures SetRight(t, newTime, tick, n, false)
  {
    hide Ticks, SetRight, Digit;
    UsFirstRest(t, newTime, tick, n);
    var r := Wrapped(n * tick);
    CarryOut(newTime.seconds, Set(newTime).microseconds + r);
  }

  lemma NewSecondsLost(tick: Word32, n: nat) returns (t: Time, newTime: Time)
    requires tick <= MAX_TICK && Wrapped(n * tick) >= Q12
    ensures Settable(t, newTime) && !SetRight(t, newTime, tick, n, false)
  {
    hide Ticks, SetRight, Digit;
    var r := Wrapped(n * tick);
    var us := if r < ONE_SECOND_US then 999_999 else 0;
    t, newTime := Time(0, 0), Time(0, us);
    UsFirstRest(t, newTime, tick, n);
    DivMod(n * tick, WRAP);
    CarryOut(0, us * Q12 + r);
  }

  /** The seconds stay if what is added to them is less than one, and only then unless it wraps around. */
  lemma CarryOut(seconds: Word64, us: nat)
    ensures us < ONE_SECOND_US ==> Digit(seconds * ONE_SECOND_US + us, ONE_SECOND_US, U64) == seconds
    ensures ONE_SECOND_US <= us < WRAP ==> Digit(us, ONE_SECOND_US, U64) != 0
  {
    if us < ONE_SECOND_US { ModUnique(seconds * ONE_SECOND_US + us, seconds, us, ONE_SECOND_US); }
  }

  lemma UsFirstRest(t: Time, newTime: Time, tick: Word32, n: nat)
    requires Settable(t, newTime) && tick <= MAX_TICK
    ensures SetRight(t, newTime, tick, n, false) <==>
            newTime.seconds == Digit(Value(Set(newTime)) + Wrapped(n * tick), ONE_SECOND_US, U64)
  {
    UsFirst(t, newTime, tick, n);
    hide Ticks, SetRight, Digit, Value;
    MulNonneg(n, tick);
    DivMod(n * tick, WRAP);
    DigitPeriod(Value(Set(newTime)) + Wrapped(n * tick), n * tick / WRAP, ONE_SECOND_US, U64);
  }

  lemma UsFirst(t: Time, newTime: Time, tick: Word32, n: nat)
    requires Settable(t, newTime) && tick <= MAX_TICK
    ensures SetRight(t, newTime, tick, n, false) <==>
            newTime.seconds == Digit(Value(Set(newTime)) + n * tick, ONE_SECOND_US, U64)
  {
    FieldsAfter(Set(newTime), tick, n);
    FieldsAfter(Time(t.seconds, Set(newTime).microseconds), tick, n);
    hide Ticks, Digit, Value;
  }

  lemma SecondsFirst(t: Time, newTime: Time, tick: Word32, n: nat)
    requires Settable(t, newTime) && tick <= MAX_TICK
    ensures SetRight(t, newTime, tick, n, true) <==>
            newTime.seconds == Digit(Value(Time(newTime.seconds, t.microseconds)) + n * tick, ONE_SECOND_US, U64)
  {
    FieldsAfter(Time(newTime.seconds, t.microseconds), tick, n);
    hide Ticks, Digit, Value;
  }

  lemma OldSecondsStay(tick: Word32, n: nat)
    requires tick <= MAX_TICK
    ensures (forall t: Time, later :: Settable(t, later) ==> SetRight(t, later, tick, n, true)) <==>
            Wrapped(n * tick) == 0
  {
    hide Value, Ticks, SetRight, Settable, Wrapped;
    if Wrapped(n * tick) == 0 {
      forall t: Time, later | Settable(t, later)
        ensures SetRight(t, later, tick, n, true)
      {
        OldSecondsKept(t, later, tick, n);
      }
    } else {
      var t, later := OldSecondsLost(tick, n);
    }
  }

  lemma OldSecondsKept(t: Time, newTime: Time, tick: Word32, n: nat)
    requires Settable(t, newTime) && tick <= MAX_TICK && Wrapped(n * tick) == 0
    ensures SetRight(t, newTime, tick, n, true)
  {
    SecondsFirst(t, newTime, tick, n);
    var v, k := Value(Time(newTime.seconds, t.microseconds)), n * tick / WRAP;
    DivMod(n * tick, WRAP);
    DigitPeriod(v, k, ONE_SECOND_US, U64);
    CarryOut(newTime.seconds, t.microseconds);
    hide Ticks, SetRight, Digit;
  }

  lemma OldSecondsLost(tick: Word32, n: nat) returns (t: Time, newTime: Time)
    requires tick <= MAX_TICK && Wrapped(n * tick) != 0
    ensures Settable(t, newTime) && !SetRight(t, newTime, tick, n, true)
  {
    hide Ticks, SetRight;
    MulNonneg(n, tick);
    var v := DigitMoves(n * tick, ONE_SECOND_US, U64);
    t, newTime := Time(0, v), Time(0, 0);
    SecondsFirst(t, newTime, tick, n);
  }

  /** A new time is set right, whatever the clock was, if and only if the ticks that land between the stores
    * add up to nothing, or stay below a microsecond where the microseconds are stored first. */
  lemma SetIsWhole(tick: Word32, n: nat, secondsFirst: bool)
    requires tick <= MAX_TICK
    ensures (forall t: Time, later :: Settable(t, later) ==> SetRight(t, later, tick, n, secondsFirst)) <==>
            Wrapped(n * tick) < if secondsFirst then 1 else Q12
  {
    hide Settable, SetRight;
    if secondsFirst { OldSecondsStay(tick, n); } else { NewSecondsStay(tick, n); }
  }

  // ---- drift ----

  /** RTOS_TICK_PERIOD. */
  function TickPeriod(hz: nat): nat
    requires hz > 0
  {
    ONE_SECOND_US / hz
  }

  lemma TickPeriodFits(hz: nat)
    requires hz > 0
    ensures TickPeriod(hz) <= MAX_TICK <==> hz >= 21
  {
    DivMod(ONE_SECOND_US, hz);
    if hz >= 21 {
      MulMonotone(21, hz, TickPeriod(hz));
    } else {
      if TickPeriod(hz) <= MAX_TICK { MulMonotone(TickPeriod(hz), MAX_TICK, hz); }
    }
  }

  /** After n ticks at a rate of hz, n / hz seconds have passed.  The clock, started at zero, is never ahead
    * of that, and behind by less than n / 4096 microseconds; both sides are times hz. */
  lemma Drift(hz: nat, n: nat)
    requires hz >= 21 && n * TickPeriod(hz) < WRAP
    ensures TickPeriod(hz) < U32
    ensures var clock := Value(Ticks(Time(0, 0), TickPeriod(hz), n));
            && clock * hz <= n * ONE_SECOND_US
            && (n > 0 ==> n * ONE_SECOND_US - clock * hz < n * hz)
  {
    var p := TickPeriod(hz);
    TickPeriodFits(hz);
    TicksAdvance(Time(0, 0), p, n);
    MulNonneg(n, p);
    ModUnique(n * p, 0, n * p, WRAP);
    DriftArith(hz, n);
  }

  lemma DriftArith(hz: nat, n: nat)
    requires hz > 0
    ensures var p := TickPeriod(hz);
            n * p * hz <= n * ONE_SECOND_US && (n > 0 ==> n * ONE_SECOND_US - n * p * hz < n * hz)
  {
    var p, r := TickPeriod(hz), ONE_SECOND_US % hz;
    DivMod(ONE_SECOND_US, hz);
    MulAssoc(n, p, hz);
    Distribute(n, p * hz, r);
    MulNonneg(n, r);
    if n > 0 { Smaller(n, r, hz); }
  }

  lemma Distribute(n: nat, a: int, r: int)
    ensures n * (a + r) == n * a + n * r
  {
  }

  lemma Smaller(n: nat, r: int, hz: int)
    requires n > 0 && r < hz
    ensures n * r < n * hz
  {
    Distribute(n, hz - r, r);
    MulAtLeast(hz - r, n);
  }

  // ---- setting and reading ----

  /** What is set is read back if and only if the microseconds fit in 20 bits; then all of a second does. */
  lemma SetThenGet(t: Time)
    ensures Get(Set(t)) == t <==> t.microseconds < 0x10_0000
    ensures InRange(Set(t)) && t.microseconds < 0x10_0000 <==> t.microseconds < 1_000_000
  {
  }
}
