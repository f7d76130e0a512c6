/** One direction of an audio driver as a transition system over its atomic steps.
  *
  * In the receive direction the hardware side (the mic-array interrupt, the I2S receive callback) puts
  * whole blocks into the ring and the application takes words; in the send direction the application
  * puts and the hardware side takes.  The application blocks when there is too little room for it:
  * it sets a required count, sets the blocked flag, and waits on a binary semaphore; the hardware side
  * clears the count once there is enough and posts a wake-up, which reaches the semaphore later. */
module AudioSide {
  import opened Arith
  import opened AudioRing

  datatype Direction = Recv | Send

  /** Where the hardware side is: between calls, part way through a block, or at the required count. */
  datatype HwPc = HwIdle | HwCopying(block: seq<int>, k: nat) | HwCheck | HwDecide(level: nat)

  /** Where the application's read or write call for n words is. */
  datatype AppPc = Ready | Checking(n: nat) | Asking(n: nat) | Blocking(n: nat) | Waiting(n: nat) | Woken(n: nat)
                 | Copying(n: nat, k: nat)

  /** `args` are the words of the current send call.  `posted` counts wake-ups on their way to the
    * semaphore.  Not in the drivers: `asked`, the count of the call that blocked, and `moved`, the
    * history in the blocks in which the producer delivered it. */
  datatype Side = Side(dir: Direction, width: nat, ring: Ring, hw: HwPc, app: AppPc, args: seq<int>, required: nat,
                       posted: nat, sem: nat, blocked: bool, asked: nat, moved: seq<seq<int>>)

  datatype Event =
    | HwStart(block: seq<int>)       // a block arrives, or is due to be sent
    | HwCopy | HwPublish | HwReadRequired | HwWake
    | PutSem
    | AppCall(n: nat, data: seq<int>)
    | AppCheck | AppAsk | AppBlock | AppGet | AppTimeout | AppClear | AppCopy | AppFinish

  function HwRoom(s: Side): int { if s.dir.Recv? then Free(s.ring) else Available(s.ring) }

  function AppRoom(s: Side): int { if s.dir.Recv? then Available(s.ring) else Free(s.ring) }

  predicate IndexesInRange(r: Ring) {
    r.writeIndex < |r.buf| && r.readIndex < |r.buf|
  }

  /** What a step needs to be possible: the program counter, and what the callers respect (a call asks
    * for no more than the buffer holds; a send call passes that many words). */
  predicate Enabled(s: Side, e: Event) {
    match e
    case HwStart(block) => s.hw.HwIdle? && |block| == s.width
    case HwCopy => s.hw.HwCopying? && s.hw.k < |s.hw.block| && IndexesInRange(s.ring)
    case HwPublish => s.hw.HwCopying? && s.hw.k == |s.hw.block|
    case HwReadRequired => s.hw.HwCheck?
    case HwWake => s.hw.HwDecide?
    case PutSem => s.posted > 0
    case AppCall(n, data) => s.app.Ready? && n <= s.ring.size && (s.dir.Send? ==> |data| == n)
    case AppCheck => s.app.Checking?
    case AppAsk => s.app.Asking?
    case AppBlock => s.app.Blocking?
    case AppGet => s.app.Waiting? && s.sem > 0
    case AppTimeout => s.app.Waiting?
    case AppClear => s.app.Woken?
    case AppCopy =>
      s.app.Copying? && s.app.k < s.app.n && IndexesInRange(s.ring) && (s.dir.Send? ==> s.app.n == |s.args|)
    case AppFinish => s.app.Copying? && s.app.k == s.app.n
  }

  function Do(s: Side, e: Event): Side
    requires Enabled(s, e)
  {
    match e
    case HwStart(block) => s.(hw := if s.width <= HwRoom(s) then HwCopying(block, 0) else HwCheck)
    case HwCopy =>
      s.(hw := HwCopying(s.hw.block, s.hw.k + 1),
         ring := if s.dir.Recv? then Put(s.ring, s.hw.block[s.hw.k]) else Take(s.ring))
    case HwPublish =>
      s.(hw := HwCheck, ring := if s.dir.Recv? then Publish(s.ring) else Release(s.ring),
         moved := if s.dir.Recv? then s.moved + [s.hw.block] else s.moved)
    case HwReadRequired => s.(hw := if s.required > 0 then HwDecide(NatOf(AppRoom(s))) else HwIdle)
    case HwWake =>
      if s.hw.level >= s.required then s.(hw := HwIdle, required := 0, posted := s.posted + 1) else s.(hw := HwIdle)
    case PutSem => s.(posted := s.posted - 1, sem := 1)
    case AppCall(n, data) => s.(app := if s.blocked then Waiting(n) else Checking(n), args := data)
    case AppCheck => s.(app := if s.app.n > AppRoom(s) then Asking(s.app.n) else Copying(s.app.n, 0))
    case AppAsk => s.(app := Blocking(s.app.n), required := s.app.n, asked := s.app.n)
    case AppBlock => s.(app := Waiting(s.app.n), blocked := true)
    case AppGet => s.(app := Woken(s.app.n), sem := 0)
    case AppTimeout => s.(app := Ready)
    case AppClear => s.(app := Copying(s.app.n, 0), blocked := false)
    case AppCopy =>
      s.(app := Copying(s.app.n, s.app.k + 1),
         ring := if s.dir.Recv? then Take(s.ring) else Put(s.ring, s.args[s.app.k]))
    case AppFinish =>
      s.(app := Ready, ring := if s.dir.Recv? then Release(s.ring) else Publish(s.ring),
         moved := if s.dir.Recv? then s.moved else s.moved + [s.args])
  }

  /** A negative amount of room, which the ring invariant excludes, compares like zero. */
  function NatOf(x: int): nat { if x < 0 then 0 else x }

  function Max(a: nat, b: nat): nat { if a < b then b else a }

  /** The rule a caller must keep: a call that retries after a time-out asks for no more words than the
    * call that timed out, or than one block, whichever is more. */
  predicate Disciplined(s: Side, e: Event) {
    e.AppCall? && s.blocked ==> SafeRetry(s.width, s.asked, e.n)
  }

  /** Without blocks no call is ever woken, and every retry is safe. */
  predicate SafeRetry(width: nat, asked: nat, n: nat) {
    width > 0 ==> n <= Max(asked, width)
  }

  function Start(dir: Direction, width: nat, buf: seq<int>): Side {
    Side(dir, width, Empty(buf), HwIdle, Ready, [], 0, 0, 0, false, 0, [])
  }

  // ---- the invariant ----

  ghost function Concat(blocks: seq<seq<int>>): seq<int> {
    if blocks == [] then [] else Concat(blocks[..|blocks| - 1]) + blocks[|blocks| - 1]
  }

  ghost function TrueHwRoom(s: Side): int {
    if s.dir.Recv? then s.ring.size - (s.ring.written - s.ring.read) else s.ring.written - s.ring.read
  }

  ghost function TrueAppRoom(s: Side): int {
    if s.dir.Recv? then s.ring.written - s.ring.read else s.ring.size - (s.ring.written - s.ring.read)
  }

  ghost function HwProgress(s: Side): int { if s.dir.Recv? then Putting(s.ring) else Taking(s.ring) }

  ghost function AppProgress(s: Side): int { if s.dir.Recv? then Taking(s.ring) else Putting(s.ring) }

  /** While the hardware side copies, the whole block fits. */
  ghost predicate HwInv(s: Side) {
    match s.hw
    case HwCopying(block, k) =>
      && k <= |block| == s.width <= TrueHwRoom(s) && HwProgress(s) == k
      && (s.dir.Recv? ==> s.ring.hist[s.ring.written..] == block[..k])
    case HwDecide(level) => HwProgress(s) == 0 && s.required > 0 && level <= TrueAppRoom(s)
    case _ => HwProgress(s) == 0
  }

  /** While the application copies, all its words fit or are there. */
  ghost predicate AppInv(s: Side) {
    match s.app
    case Copying(n, k) =>
      && k <= n <= TrueAppRoom(s) && AppProgress(s) == k && !s.blocked
      && (s.dir.Send? ==> |s.args| == n && s.ring.hist[s.ring.written..] == s.args[..k])
    case Ready => AppProgress(s) == 0
    case Waiting(n) => AppProgress(s) == 0 && s.blocked && SafeRetry(s.width, s.asked, n) && ArgsFit(s, n)
    case Woken(n) => AppProgress(s) == 0 && s.blocked && n <= TrueAppRoom(s) && ArgsFit(s, n)
    case Blocking(n) => AppProgress(s) == 0 && !s.blocked && n == s.asked && ArgsFit(s, n)
    case Asking(n) => AppProgress(s) == 0 && !s.blocked && n > 0 && ArgsFit(s, n) && BlockSince(s, n)
    case Checking(n) => AppProgress(s) == 0 && !s.blocked && ArgsFit(s, n)
  }

  ghost predicate ArgsFit(s: Side, n: nat) { n <= s.ring.size && (s.dir.Send? ==> |s.args| == n) }

  /** If there is enough by now for the call that found too little, a block has moved since. */
  ghost predicate BlockSince(s: Side, n: nat) {
    n <= TrueAppRoom(s) ==> 0 < s.width <= TrueAppRoom(s)
  }

  ghost function One(b: bool): nat { if b then 1 else 0 }

  /** An application that has announced its block and has not been woken. */
  ghost predicate AwaitsWakeup(s: Side) { s.app.Blocking? || (s.blocked && !s.app.Woken?) }

  /** There is exactly one wake-up due, on its way or in the semaphore for a blocked application, and
    * none otherwise; and once it is on its way there is enough for the call that blocked and for a block. */
  ghost predicate WakeInv(s: Side) {
    && One(s.required > 0) + s.posted + s.sem == One(AwaitsWakeup(s))
    && (AwaitsWakeup(s) ==> 0 < s.asked <= s.ring.size)
    && (s.required > 0 ==> s.required == s.asked && BlockSince(s, s.asked))
    && (s.posted + s.sem > 0 ==> s.width > 0 && Max(s.asked, s.width) <= TrueAppRoom(s))
  }

  ghost predicate SideInv(s: Side) {
    && Inv(s.ring) && HwInv(s) && AppInv(s) && WakeInv(s)
    && Concat(s.moved) == s.ring.hist[..s.ring.written]
  }

  lemma StartInv(dir: Direction, width: nat, buf: seq<int>)
    requires 0 < |buf| < U32
    ensures SideInv(Start(dir, width, buf))
  {
    EmptyInv(buf);
  }

  lemma ConcatAppend(blocks: seq<seq<int>>, b: seq<int>)
    ensures Concat(blocks + [b]) == Concat(blocks) + b
  {
    assert (blocks + [b])[..|blocks|] == blocks;
  }

  /** Publishing turns the words put so far into one more delivered block. */
  lemma PublishMoves(s: Side, b: seq<int>)
    requires s.ring.written <= |s.ring.hist| && s.ring.hist[s.ring.written..] == b
    requires Concat(s.moved) == s.ring.hist[..s.ring.written]
    ensures Concat(s.moved + [b]) == s.ring.hist
  {
    hide Inv;
    ConcatAppend(s.moved, b);
    assert s.ring.hist == s.ring.hist[..s.ring.written] + s.ring.hist[s.ring.written..];
  }

  lemma PutGrows(r: Ring, x: int, block: seq<int>, k: nat)
    requires r.written <= |r.hist| && k < |block| && r.hist[r.written..] == block[..k] && x == block[k]
    ensures (r.hist + [x])[r.written..] == block[..k + 1] && (r.hist + [x])[..r.written] == r.hist[..r.written]
  {
  }

  lemma HwCopyKeeps(s: Side)
    requires SideInv(s) && Enabled(s, HwCopy)
    ensures SideInv(Do(s, HwCopy))
  {
    hide SideInv, Do;
    if s.dir.Recv? { HwPuts(s); } else { HwTakes(s); }
  }

  lemma HwPuts(s: Side)
    requires SideInv(s) && Enabled(s, HwCopy) && s.dir.Recv?
    ensures SideInv(Do(s, HwCopy))
  {
    hide Inv, Concat;
    Bounds(s.ring);
    PutKeeps(s.ring, s.hw.block[s.hw.k]);
    PutGrows(s.ring, s.hw.block[s.hw.k], s.hw.block, s.hw.k);
  }

  lemma HwTakes(s: Side)
    requires SideInv(s) && Enabled(s, HwCopy) && s.dir.Send?
    ensures SideInv(Do(s, HwCopy))
  {
    hide Inv, Concat;
    Bounds(s.ring);
    TakeKeeps(s.ring);
  }

  lemma AppCopyKeeps(s: Side)
    requires SideInv(s) && Enabled(s, AppCopy)
    ensures SideInv(Do(s, AppCopy))
  {
    hide Inv, Concat;
    Bounds(s.ring);
    if s.dir.Recv? {
      TakeKeeps(s.ring);
    } else {
      PutKeeps(s.ring, s.args[s.app.k]);
      PutGrows(s.ring, s.args[s.app.k], s.args, s.app.k);
    }
  }

  lemma HwPublishKeeps(s: Side)
    requires SideInv(s) && Enabled(s, HwPublish)
    ensures SideInv(Do(s, HwPublish))
  {
    hide SideInv, Do;
    if s.dir.Recv? { HwPublishes(s); } else { HwReleases(s); }
  }

  lemma HwPublishes(s: Side)
    requires SideInv(s) && Enabled(s, HwPublish) && s.dir.Recv?
    ensures SideInv(Do(s, HwPublish))
  {
    hide Inv, Concat;
    Bounds(s.ring);
    PublishKeeps(s.ring);
    PublishMoves(s, s.hw.block);
    var t := Publish(s.ring);
    assert t.hist[t.written..] == [] && t.hist[..t.written] == t.hist;
  }

  lemma HwReleases(s: Side)
    requires SideInv(s) && Enabled(s, HwPublish) && s.dir.Send?
    ensures SideInv(Do(s, HwPublish))
  {
    hide Inv, Concat;
    Bounds(s.ring);
    ReleaseKeeps(s.ring);
  }

  lemma AppFinishKeeps(s: Side)
    requires SideInv(s) && Enabled(s, AppFinish)
    ensures SideInv(Do(s, AppFinish))
  {
    hide Inv, Concat;
    Bounds(s.ring);
    if s.dir.Recv? {
      ReleaseKeeps(s.ring);
    } else {
      PublishKeeps(s.ring);
      PublishMoves(s, s.args);
      var t := Publish(s.ring);
      assert t.hist[t.written..] == [] && t.hist[..t.written] == t.hist;
    }
  }

  /** Every step of a disciplined run keeps the invariant. */
  lemma DoKeeps(s: Side, e: Event)
    requires SideInv(s) && Enabled(s, e) && Disciplined(s, e)
    ensures SideInv(Do(s, e))
  {
    match e
    case HwCopy => HwCopyKeeps(s);
    case HwPublish => HwPublishKeeps(s);
    case AppCopy => AppCopyKeeps(s);
    case AppFinish => AppFinishKeeps(s);
    case HwStart(_) => HwKeeps(s, e);
    case HwReadRequired => HwKeeps(s, e);
    case HwWake => HwKeeps(s, e);
    case PutSem => HwKeeps(s, e);
    case _ => AppKeeps(s, e);
  }

  lemma HwKeeps(s: Side, e: Event)
    requires SideInv(s) && Enabled(s, e) && (e.HwStart? || e.HwReadRequired? || e.HwWake? || e.PutSem?)
    ensures SideInv(Do(s, e))
  {
    hide SideInv, Do;
    if e.HwStart? || e.HwReadRequired? { HwStartsOrReads(s, e); } else { HwWakesUp(s, e); }
  }

  lemma HwStartsOrReads(s: Side, e: Event)
    requires SideInv(s) && Enabled(s, e) && (e.HwStart? || e.HwReadRequired?)
    ensures SideInv(Do(s, e))
  {
    RoomTrue(s);
    hide Inv, Concat, HwRoom, AppRoom;
  }

  lemma HwWakesUp(s: Side, e: Event)
    requires SideInv(s) && Enabled(s, e) && (e.HwWake? || e.PutSem?)
    ensures SideInv(Do(s, e))
  {
    hide Inv, Concat, HwRoom, AppRoom;
  }

  lemma AppKeeps(s: Side, e: Event)
    requires SideInv(s) && Enabled(s, e) && Disciplined(s, e)
    requires e.AppCall? || e.AppCheck? || e.AppAsk? || e.AppBlock? || e.AppGet? || e.AppTimeout? || e.AppClear?
    ensures SideInv(Do(s, e))
  {
    hide SideInv, Do;
    if e.AppCall? || e.AppCheck? {
      AppCalls(s, e);
    } else if e.AppAsk? || e.AppBlock? {
      AppAsks(s, e);
    } else {
      AppWaits(s, e);
    }
  }

  lemma AppCalls(s: Side, e: Event)
    requires SideInv(s) && Enabled(s, e) && Disciplined(s, e) && (e.AppCall? || e.AppCheck?)
    ensures SideInv(Do(s, e))
  {
    RoomTrue(s);
    hide Inv, Concat, HwRoom, AppRoom;
  }

  lemma AppAsks(s: Side, e: Event)
    requires SideInv(s) && Enabled(s, e) && (e.AppAsk? || e.AppBlock?)
    ensures SideInv(Do(s, e))
  {
    hide Inv, Concat, HwRoom, AppRoom;
  }

  lemma AppWaits(s: Side, e: Event)
    requires SideInv(s) && Enabled(s, e) && (e.AppGet? || e.AppTimeout? || e.AppClear?)
    ensures SideInv(Do(s, e))
  {
    RoomTrue(s);
    hide Inv, Concat, HwRoom, AppRoom;
  }

  /** What both sides compute from the 32-bit totals is the room there is. */
  lemma RoomTrue(s: Side)
    requires SideInv(s)
    ensures HwRoom(s) == TrueHwRoom(s) >= 0 && AppRoom(s) == TrueAppRoom(s) >= 0
    ensures s.ring.hist[s.ring.written..] == [] || Putting(s.ring) > 0
  {
    FillLevel(s.ring);
    Bounds(s.ring);
  }

  lemma Bounds(r: Ring)
    requires Inv(r)
    ensures r.read <= |r.out| <= r.written <= |r.hist| <= r.read + r.size
    ensures |r.hist| == r.written ==> r.hist[r.written..] == []
  {
  }

  // ---- whole runs ----

  /** The retries a caller allows itself, as a relation between the count of the call that timed out and
    * that of the retry. */
  type Retries = (nat, nat) -> bool

  predicate Allowed(s: Side, e: Event, allow: Retries) {
    e.AppCall? && s.blocked ==> allow(s.asked, e.n)
  }

  /** The events can happen one after the other from s, with no other retries. */
  ghost predicate Runs(s: Side, es: seq<Event>, allow: Retries)
    decreases |es|
  {
    es == [] || (Enabled(s, es[0]) && Allowed(s, es[0], allow) && Runs(Do(s, es[0]), es[1..], allow))
  }

  ghost function Exec(s: Side, es: seq<Event>, allow: Retries): Side
    requires Runs(s, es, allow)
    decreases |es|
  {
    if es == [] then s else Exec(Do(s, es[0]), es[1..], allow)
  }

  /** All retries allowed keep the rule, for the counts a call may have. */
  ghost predicate AllSafe(width: nat, size: nat, allow: Retries) {
    forall asked: nat, n: nat | 0 < asked <= size && n <= size && allow(asked, n) :: SafeRetry(width, asked, n)
  }

  lemma {:induction false} RunKeeps(s: Side, es: seq<Event>, allow: Retries)
    requires SideInv(s) && Runs(s, es, allow) && AllSafe(s.width, s.ring.size, allow)
    ensures SideInv(Exec(s, es, allow))
    decreases |es|
  {
    if es != [] {
      assert Disciplined(s, es[0]) by { hide Inv, Concat; }
      DoKeeps(s, es[0]);
      SameSize(s, es[0]);
      hide Enabled, Do, SideInv;
      RunKeeps(Do(s, es[0]), es[1..], allow);
    }
  }

  /** The words taken are a prefix, in order, of the whole blocks the producer delivered; the 32-bit totals
    * give the true fill level; whoever copies has room for all it copies; and a blocked application has
    * exactly one wake-up coming, so that none is lost and the binary semaphore never overflows. */
  ghost predicate Sound(s: Side) {
    && s.ring.out <= Concat(s.moved)
    && Available(s.ring) == |Concat(s.moved)| - s.ring.read
    && (s.app.Copying? ==> s.app.n <= AppRoom(s))
    && (s.hw.HwCopying? ==> s.width <= HwRoom(s))
    && One(s.required > 0) + s.posted + s.sem == One(AwaitsWakeup(s))
    && (s.posted > 0 ==> s.sem == 0)
  }

  /** Every run of either direction whose retries keep the rule is sound. */
  lemma AudioRun(dir: Direction, width: nat, buf: seq<int>, es: seq<Event>, allow: Retries)
    requires 0 < |buf| < U32 && Runs(Start(dir, width, buf), es, allow) && AllSafe(width, |buf|, allow)
    ensures Sound(Exec(Start(dir, width, buf), es, allow))
  {
    StartInv(dir, width, buf);
    RunKeeps(Start(dir, width, buf), es, allow);
    FillLevel(Exec(Start(dir, width, buf), es, allow).ring);
  }

  /** A block that does not fit, or is not there, is dropped whole: no word of it touches the ring. */
  lemma OverrunDropsBlock(s: Side, block: seq<int>)
    requires SideInv(s) && Enabled(s, HwStart(block)) && s.width > TrueHwRoom(s)
    ensures Do(s, HwStart(block)) == s.(hw := HwCheck)
  {
    FillLevel(s.ring);
  }

  // ---- the retry rule is exactly what is needed ----

  lemma {:induction false} RunsConcat(s: Side, es: seq<Event>, fs: seq<Event>, allow: Retries)
    requires Runs(s, es, allow) && Runs(Exec(s, es, allow), fs, allow)
    ensures Runs(s, es + fs, allow) && Exec(s, es + fs, allow) == Exec(Exec(s, es, allow), fs, allow)
    decreases |es|
  {
    if es == [] {
      assert es + fs == fs;
    } else {
      assert (es + fs)[0] == es[0] && (es + fs)[1..] == es[1..] + fs;
      RunsConcat(Do(s, es[0]), es[1..], fs, allow);
    }
  }

  lemma OneStep(s: Side, e: Event, allow: Retries)
    requires Enabled(s, e) && Allowed(s, e, allow)
    ensures Runs(s, [e], allow) && Exec(s, [e], allow) == Do(s, e)
  {
    assert [e][1..] == [];
  }

  /** Executes one more event at the end of a run. */
  lemma Then(s: Side, es: seq<Event>, e: Event, allow: Retries) returns (fs: seq<Event>)
    requires Runs(s, es, allow) && Enabled(Exec(s, es, allow), e) && Allowed(Exec(s, es, allow), e, allow)
    ensures Runs(s, fs, allow) && Exec(s, fs, allow) == Do(Exec(s, es, allow), e)
  {
    hide Enabled, Do, Allowed;
    OneStep(Exec(s, es, allow), e, allow);
    RunsConcat(s, es, [e], allow);
    fs := es + [e];
  }

  /** The hardware side copies the rest of its block. */
  lemma {:induction false} CopyRest(s: Side, allow: Retries) returns (es: seq<Event>)
    requires SideInv(s) && s.hw.HwCopying? && s.app.Ready?
    ensures Runs(s, es, allow)
    ensures var t := Exec(s, es, allow);
            && SideInv(t) && t == s.(hw := HwCopying(s.hw.block, |s.hw.block|), ring := t.ring)
            && SameFill(s.ring, t.ring)
    decreases |s.hw.block| - s.hw.k
  {
    hide Inv, Concat;
    if s.hw.k == |s.hw.block| {
      es := [];
    } else {
      IndexesOk(s.ring);
      HwCopyKeeps(s);
      OneStep(s, HwCopy, allow);
      var fs := CopyRest(Do(s, HwCopy), allow);
      RunsConcat(s, [HwCopy], fs, allow);
      es := [HwCopy] + fs;
    }
  }

  /** The application copies the rest of its call. */
  lemma {:induction false} AppCopyRest(s: Side, allow: Retries) returns (es: seq<Event>)
    requires SideInv(s) && s.app.Copying? && s.hw.HwIdle?
    ensures Runs(s, es, allow)
    ensures var t := Exec(s, es, allow);
            SideInv(t) && t == s.(app := Copying(s.app.n, s.app.n), ring := t.ring) && SameFill(s.ring, t.ring)
    decreases s.app.n - s.app.k
  {
    hide Inv, Concat;
    if s.app.k == s.app.n {
      es := [];
    } else {
      IndexesOk(s.ring);
      AppCopyKeeps(s);
      OneStep(s, AppCopy, allow);
      var fs := AppCopyRest(Do(s, AppCopy), allow);
      RunsConcat(s, [AppCopy], fs, allow);
      es := [AppCopy] + fs;
    }
  }

  predicate SameFill(a: Ring, b: Ring) {
    b.read == a.read && b.written == a.written && b.size == a.size
  }

  lemma IndexesOk(r: Ring)
    requires Inv(r)
    ensures IndexesInRange(r)
  {
  }

  lemma SameSize(s: Side, e: Event)
    requires Enabled(s, e)
    ensures Do(s, e).width == s.width && Do(s, e).ring.size == s.ring.size
  {
  }

  /** Nothing is in progress, and the application has `room`. */
  ghost predicate AtRest(s: Side, dir: Direction, width: nat, size: nat, room: nat) {
    && SideInv(s) && s.hw.HwIdle? && s.app.Ready? && !s.blocked
    && s.dir == dir && s.width == width && s.ring.size == size && TrueAppRoom(s) == room
  }

  function Zeros(n: nat): (z: seq<int>)
    ensures |z| == n
  {
    seq(n, i => 0)
  }

  /** A block moves while nobody waits. */
  lemma MovesBlock(s0: Side, es: seq<Event>, s: Side, dir: Direction, width: nat, size: nat, room: nat, allow: Retries)
      returns (fs: seq<Event>, t: Side)
    requires Runs(s0, es, allow) && Exec(s0, es, allow) == s && AtRest(s, dir, width, size, room)
    requires room + width <= size
    ensures Runs(s0, fs, allow) && Exec(s0, fs, allow) == t && AtRest(t, dir, width, size, room + width)
  {
    var block := Zeros(width);
    var s1, s2;
    fs, s1 := StartsBlock(s0, es, s, block, allow);
    PublishedRoom(s1);
    s2 := Do(s1, HwPublish);
    fs := Then(s0, fs, HwPublish, allow);
    fs := Then(s0, fs, HwReadRequired, allow);
    HwKeeps(s2, HwReadRequired);
    t := Do(s2, HwReadRequired);
    hide Runs, Exec, SideInv;
  }

  /** A block that fits is copied. */
  lemma StartsBlock(s0: Side, es: seq<Event>, s: Side, block: seq<int>, allow: Retries)
      returns (fs: seq<Event>, t: Side)
    requires Runs(s0, es, allow) && Exec(s0, es, allow) == s && SideInv(s) && s.hw.HwIdle? && s.app.Ready?
    requires |block| == s.width <= TrueHwRoom(s)
    ensures Runs(s0, fs, allow) && Exec(s0, fs, allow) == t && SideInv(t)
    ensures t == s.(hw := HwCopying(block, s.width), ring := t.ring) && SameFill(s.ring, t.ring)
  {
    FillLevel(s.ring);
    fs := Then(s0, es, HwStart(block), allow);
    var s1 := Do(s, HwStart(block));
    HwKeeps(s, HwStart(block));
    var copies := CopyRest(s1, allow);
    RunsConcat(s0, fs, copies, allow);
    fs, t := fs + copies, Exec(s1, copies, allow);
    hide *;
  }

  /** A call for which there is room moves its words. */
  lemma MovesCall(s0: Side, es: seq<Event>, s: Side, dir: Direction, width: nat, size: nat, room: nat, n: nat,
                  allow: Retries) returns (fs: seq<Event>, t: Side)
    requires Runs(s0, es, allow) && Exec(s0, es, allow) == s && AtRest(s, dir, width, size, room) && n <= room <= size
    ensures Runs(s0, fs, allow) && Exec(s0, fs, allow) == t && AtRest(t, dir, width, size, room - n)
  {
    var s2;
    fs, s2 := StartsCall(s0, es, s, n, allow);
    var copies := AppCopyRest(s2, allow);
    RunsConcat(s0, fs, copies, allow);
    fs := fs + copies;
    var s3 := Exec(s2, copies, allow);
    hide Runs, Exec, SideInv, TrueAppRoom;
    fs := Then(s0, fs, AppFinish, allow);
    t := CallEnds(s3, n);
  }

  lemma StartsCall(s0: Side, es: seq<Event>, s: Side, n: nat, allow: Retries) returns (fs: seq<Event>, t: Side)
    requires Runs(s0, es, allow) && Exec(s0, es, allow) == s && SideInv(s) && s.app.Ready? && !s.blocked
    requires n <= TrueAppRoom(s) <= s.ring.size
    ensures Runs(s0, fs, allow) && Exec(s0, fs, allow) == t && SideInv(t)
    ensures t == s.(app := Copying(n, 0), args := Zeros(n))
  {
    var call := AppCall(n, Zeros(n));
    RoomTrue(s);
    AppKeeps(s, call);
    var s1 := Do(s, call);
    AppKeeps(s1, AppCheck);
    t := Do(s1, AppCheck);
    hide Runs, Exec, SideInv;
    fs := Then(s0, es, call, allow);
    fs := Then(s0, fs, AppCheck, allow);
  }

  lemma CallEnds(s: Side, n: nat) returns (t: Side)
    requires SideInv(s) && s.app == Copying(n, n)
    ensures t == Do(s, AppFinish) && SideInv(t) && t == s.(app := Ready, ring := t.ring, moved := t.moved)
    ensures t.ring.size == s.ring.size && TrueAppRoom(t) == TrueAppRoom(s) - n
  {
    hide Inv, Concat;
    AppFinishKeeps(s);
    t := Do(s, AppFinish);
  }

  /** The application can find itself with any room m, in the receive direction any that is left when a
    * further block still fits. */
  lemma {:induction false} AnyRoom(dir: Direction, width: nat, buf: seq<int>, m: nat, allow: Retries)
      returns (es: seq<Event>, s: Side)
    requires 0 < width && m + width <= |buf| < U32
    ensures Runs(Start(dir, width, buf), es, allow) && Exec(Start(dir, width, buf), es, allow) == s
    ensures AtRest(s, dir, width, |buf|, m)
    decreases m
  {
    var s0 := Start(dir, width, buf);
    StartInv(dir, width, buf);
    hide SideInv, Enabled, Do;
    assert Exec(s0, [], allow) == s0;
    if dir.Send? {
      es, s := MovesCall(s0, [], s0, dir, width, |buf|, |buf|, |buf| - m, allow);
    } else if m == 0 {
      es, s := [], s0;
    } else if m < width {
      es, s := MovesBlock(s0, [], s0, dir, width, |buf|, 0, allow);
      es, s := MovesCall(s0, es, s, dir, width, |buf|, width, width - m, allow);
    } else {
      es, s := AnyRoom(dir, width, buf, m - width, allow);
      es, s := MovesBlock(s0, es, s, dir, width, |buf|, m - width, allow);
    }
  }

  ghost function TimesOut(s: Side, n: nat, data: seq<int>): Side {
    s.(app := Ready, args := data, required := n, asked := n, blocked := true)
  }

  /** A call for which there is too little blocks and times out. */
  lemma TimesOutRun(s0: Side, es: seq<Event>, s: Side, n: nat, data: seq<int>, allow: Retries) returns (fs: seq<Event>)
    requires Runs(s0, es, allow) && Exec(s0, es, allow) == s
    requires SideInv(s) && s.app.Ready? && !s.blocked && TrueAppRoom(s) < n <= s.ring.size
    requires s.dir.Send? ==> |data| == n
    ensures Runs(s0, fs, allow) && Exec(s0, fs, allow) == TimesOut(s, n, data) && SideInv(TimesOut(s, n, data))
  {
    TimesOutInv(s, n, data);
    fs := AsksRun(s0, es, s, n, data, allow);
    hide Runs, Exec, SideInv;
    fs := Then(s0, fs, AppBlock, allow);
    fs := Then(s0, fs, AppTimeout, allow);
  }

  ghost function Asks(s: Side, n: nat, data: seq<int>): Side {
    s.(app := Blocking(n), args := data, required := n, asked := n)
  }

  lemma AsksRun(s0: Side, es: seq<Event>, s: Side, n: nat, data: seq<int>, allow: Retries) returns (fs: seq<Event>)
    requires Runs(s0, es, allow) && Exec(s0, es, allow) == s
    requires SideInv(s) && s.app.Ready? && !s.blocked && TrueAppRoom(s) < n <= s.ring.size
    requires s.dir.Send? ==> |data| == n
    ensures Runs(s0, fs, allow) && Exec(s0, fs, allow) == Asks(s, n, data)
  {
    FillLevel(s.ring);
    hide Runs, Exec, SideInv;
    fs := Then(s0, es, AppCall(n, data), allow);
    fs := Then(s0, fs, AppCheck, allow);
    fs := Then(s0, fs, AppAsk, allow);
  }

  lemma TimesOutInv(s: Side, n: nat, data: seq<int>)
    requires SideInv(s) && s.app.Ready? && !s.blocked && TrueAppRoom(s) < n <= s.ring.size
    ensures SideInv(TimesOut(s, n, data))
  {
    hide Inv, Concat;
    Bounds(s.ring);
  }

  /** The hardware side publishes a block that is enough for the blocked caller, and wakes it. */
  lemma Wakes(s0: Side, es: seq<Event>, s: Side, allow: Retries) returns (fs: seq<Event>)
    requires Runs(s0, es, allow) && Exec(s0, es, allow) == s && SideInv(s) && s.app.Ready? && s.blocked
    requires s.hw.HwCopying? && s.hw.k == |s.hw.block| && 0 < s.required <= TrueAppRoom(s) + |s.hw.block|
    ensures Runs(s0, fs, allow)
    ensures var t := Exec(s0, fs, allow);
            && t.app.Ready? && t.blocked && t.sem == 1 && t.dir == s.dir && t.ring.size == s.ring.size
            && t.asked == s.asked && TrueAppRoom(t) == AppRoom(t) == TrueAppRoom(s) + |s.hw.block|
  {
    PublishedRoom(s);
    hide Runs, Exec, SideInv;
    fs := Then(s0, es, HwPublish, allow);
    fs := Then(s0, fs, HwReadRequired, allow);
    fs := Then(s0, fs, HwWake, allow);
    fs := Then(s0, fs, PutSem, allow);
  }

  /** A block moved by the hardware side is that much more room for the application. */
  lemma PublishedRoom(s: Side)
    requires SideInv(s) && Enabled(s, HwPublish)
    ensures var t := Do(s, HwPublish);
            SideInv(t) && TrueAppRoom(t) == AppRoom(t) == TrueAppRoom(s) + |s.hw.block|
  {
    HwPublishKeeps(s);
    FillLevel(Do(s, HwPublish).ring);
  }

  /** The woken caller retries for n words. */
  lemma RetryRun(s0: Side, es: seq<Event>, s: Side, n: nat, allow: Retries) returns (fs: seq<Event>)
    requires Runs(s0, es, allow) && Exec(s0, es, allow) == s && s.app.Ready? && s.blocked && s.sem == 1
    requires n <= s.ring.size && allow(s.asked, n)
    ensures Runs(s0, fs, allow)
    ensures var t := Exec(s0, fs, allow);
            t == s.(app := Copying(n, 0), args := Zeros(n), sem := 0, blocked := false)
  {
    hide Runs, Exec;
    fs := Then(s0, es, AppCall(n, Zeros(n)), allow);
    fs := Then(s0, fs, AppGet, allow);
    fs := Then(s0, fs, AppClear, allow);
  }

  /** For either direction, every block that fits into the buffer and every retry that does not keep the rule:
    * a run in which a call for n1 words times out, one block moves, which wakes the caller, and the retry for
    * n2 words starts to copy with room for only n1 words or one block, whichever is more. */
  lemma LargerRetryFails(dir: Direction, width: nat, buf: seq<int>, n1: nat, n2: nat, allow: Retries)
      returns (es: seq<Event>)
    requires 0 < width <= |buf| < U32 && 0 < n1 && Max(n1, width) < n2 <= |buf| && allow(n1, n2)
    ensures Runs(Start(dir, width, buf), es, allow)
    ensures var t := Exec(Start(dir, width, buf), es, allow);
            t.app == Copying(n2, 0) && t.dir == dir && t.ring.size == |buf|
            && TrueAppRoom(t) == AppRoom(t) == Max(n1, width)
  {
    var s0, m := Start(dir, width, buf), Max(n1, width) - width;
    var s, t;
    es, s := AnyRoom(dir, width, buf, m, allow);
    var s1 := TimesOut(s, n1, Zeros(n1));
    es := TimesOutRun(s0, es, s, n1, Zeros(n1), allow);
    es, t := StartsBlock(s0, es, s1, Zeros(width), allow);
    es := Wakes(s0, es, t, allow);
    hide Runs, Exec, SideInv;
    es := RetryRun(s0, es, Exec(s0, es, allow), n2, allow);
  }

  /** In the receive direction such a retry reads words that are not there. */
  lemma RetryForMoreUnderflows(width: nat, buf: seq<int>, n1: nat, n2: nat, allow: Retries) returns (es: seq<Event>)
    requires 0 < width <= |buf| < U32 && 0 < n1 && Max(n1, width) < n2 <= |buf| && allow(n1, n2)
    ensures Runs(Start(Recv, width, buf), es, allow)
    ensures var t := Exec(Start(Recv, width, buf), es, allow);
            t.app == Copying(n2, 0) && t.ring.written - t.ring.read == Max(n1, width) < n2
  {
    es := LargerRetryFails(Recv, width, buf, n1, n2, allow);
    hide Runs, Exec;
  }

  /** In the send direction it overwrites words that have not been sent. */
  lemma RetryForMoreOverwrites(width: nat, buf: seq<int>, n1: nat, n2: nat, allow: Retries) returns (es: seq<Event>)
    requires 0 < width <= |buf| < U32 && 0 < n1 && Max(n1, width) < n2 <= |buf| && allow(n1, n2)
    ensures Runs(Start(Send, width, buf), es, allow)
    ensures var t := Exec(Start(Send, width, buf), es, allow);
            t.app == Copying(n2, 0) && |buf| - (t.ring.written - t.ring.read) == Max(n1, width) < n2
  {
    es := LargerRetryFails(Send, width, buf, n1, n2, allow);
    hide Runs, Exec;
  }

  /** Every run is sound if and only if all retries the caller allows itself keep the rule. */
  lemma RetriesExact(dir: Direction, width: nat, buf: seq<int>, allow: Retries)
    requires 0 < |buf| < U32
    ensures (forall es :: Runs(Start(dir, width, buf), es, allow) ==> Sound(Exec(Start(dir, width, buf), es, allow)))
            <==> AllSafe(width, |buf|, allow)
  {
    hide Runs, Exec, Start, Sound;
    if AllSafe(width, |buf|, allow) {
      forall es | Runs(Start(dir, width, buf), es, allow)
        ensures Sound(Exec(Start(dir, width, buf), es, allow))
      {
        AudioRun(dir, width, buf, es, allow);
      }
    } else {
      var n1: nat, n2: nat :| 0 < n1 <= |buf| && n2 <= |buf| && allow(n1, n2) && !SafeRetry(width, n1, n2);
      var es := LargerRetryFails(dir, width, buf, n1, n2, allow);
      TooLittle(Exec(Start(dir, width, buf), es, allow));
    }
  }

  lemma TooLittle(s: Side)
    requires s.app.Copying? && AppRoom(s) < s.app.n
    ensures !Sound(s)
  {
  }
}
