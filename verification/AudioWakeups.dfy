/** How a wake-up travels from the hardware side to the semaphore in the two audio drivers.
  *
  * The mic-array interrupt puts the semaphore itself.  The I2S callbacks share one command byte for both
  * directions, send it over a channel at the end of a callback, and another core's interrupt decodes it. */
module AudioWakeups {
  import opened AudioRing
  import opened AudioSide

  // ---- I2S ----

  /** The bits ISR_RESUME_SEND_BM and ISR_RESUME_RECV_BM of a command byte. */
  datatype Cmd = Cmd(send: bool, recv: bool)

  const NO_CMD := Cmd(false, false)

  /** Both directions, the pending command, the bytes in the channel, and the bits the interrupt has
    * read and not yet acted upon. */
  datatype I2s = I2s(recv: Side, send: Side, cmd: Cmd, chan: seq<Cmd>, isr: Cmd)

  datatype Event =
    | RecvStep(e: AudioSide.Event) | SendStep(e: AudioSide.Event)
    | Flush | IsrRead | IsrPutSend | IsrPutRecv

  /** The semaphores are put by the interrupt only, in the order send, receive. */
  predicate Enabled(s: I2s, e: Event) {
    match e
    case RecvStep(a) => AudioSide.Enabled(s.recv, a) && !a.PutSem?
    case SendStep(a) => AudioSide.Enabled(s.send, a) && !a.PutSem?
    case Flush => s.cmd != NO_CMD
    case IsrRead => s.isr == NO_CMD && s.chan != []
    case IsrPutSend => s.isr.send
    case IsrPutRecv => s.isr.recv && !s.isr.send
  }

  /** The side asks for a wake-up in this step. */
  predicate Wakes(s: Side, e: AudioSide.Event) {
    e.HwWake? && s.hw.HwDecide? && s.hw.level >= s.required
  }

  /** One `rtos_osal_semaphore_put`: the binary semaphore ends up available. */
  function SemPut(s: Side): Side {
    if s.posted > 0 then AudioSide.Do(s, PutSem) else s.(sem := 1)
  }

  function Do(s: I2s, e: Event): I2s
    requires Enabled(s, e)
  {
    match e
    case RecvStep(a) => s.(recv := AudioSide.Do(s.recv, a), cmd := Cmd(s.cmd.send, s.cmd.recv || Wakes(s.recv, a)))
    case SendStep(a) => s.(send := AudioSide.Do(s.send, a), cmd := Cmd(s.cmd.send || Wakes(s.send, a), s.cmd.recv))
    case Flush => s.(chan := s.chan + [s.cmd], cmd := NO_CMD)
    case IsrRead => s.(isr := s.chan[0], chan := s.chan[1..])
    case IsrPutSend => s.(isr := s.isr.(send := false), send := SemPut(s.send))
    case IsrPutRecv => s.(isr := s.isr.(recv := false), recv := SemPut(s.recv))
  }

  predicate Disciplined(s: I2s, e: Event) {
    && (e.RecvStep? ==> AudioSide.Disciplined(s.recv, e.e))
    && (e.SendStep? ==> AudioSide.Disciplined(s.send, e.e))
  }

  function RecvBytes(chan: seq<Cmd>): nat {
    if chan == [] then 0 else (if chan[0].recv then 1 else 0) + RecvBytes(chan[1..])
  }

  function SendBytes(chan: seq<Cmd>): nat {
    if chan == [] then 0 else (if chan[0].send then 1 else 0) + SendBytes(chan[1..])
  }

  /** A direction's posted wake-ups are exactly its bits in the command, the channel and the interrupt. */
  ghost predicate Inv(s: I2s) {
    && s.recv.dir == Recv && s.send.dir == Send
    && SideInv(s.recv) && SideInv(s.send)
    && s.recv.posted == One(s.cmd.recv) + RecvBytes(s.chan) + One(s.isr.recv)
    && s.send.posted == One(s.cmd.send) + SendBytes(s.chan) + One(s.isr.send)
  }

  lemma {:induction false} BytesAppend(chan: seq<Cmd>, c: Cmd)
    ensures RecvBytes(chan + [c]) == RecvBytes(chan) + One(c.recv)
    ensures SendBytes(chan + [c]) == SendBytes(chan) + One(c.send)
  {
    if chan == [] {
      assert ([] + [c])[1..] == [];
    } else {
      BytesAppend(chan[1..], c);
      assert (chan + [c])[1..] == chan[1..] + [c];
    }
  }

  /** A step other than a semaphore put adds a posted wake-up exactly when the side asks for one, and
    * then there was none before. */
  lemma PostedBy(s: Side, e: AudioSide.Event)
    requires SideInv(s) && AudioSide.Enabled(s, e) && !e.PutSem?
    ensures AudioSide.Do(s, e).posted == s.posted + One(Wakes(s, e))
    ensures Wakes(s, e) ==> s.posted == 0
  {
    hide AudioRing.Inv, Concat;
  }

  lemma StepKeeps(s: I2s, e: Event)
    requires Inv(s) && Enabled(s, e) && Disciplined(s, e)
    ensures Inv(Do(s, e))
  {
    hide SideInv;
    match e
    case RecvStep(a) =>
      DoKeeps(s.recv, a);
      PostedBy(s.recv, a);
      SameDir(s.recv, a);
    case SendStep(a) =>
      DoKeeps(s.send, a);
      PostedBy(s.send, a);
      SameDir(s.send, a);
    case Flush => BytesAppend(s.chan, s.cmd);
    case IsrRead =>
    case IsrPutSend => DoKeeps(s.send, PutSem);
    case IsrPutRecv => DoKeeps(s.recv, PutSem);
  }

  lemma SameDir(s: Side, e: AudioSide.Event)
    requires AudioSide.Enabled(s, e)
    ensures AudioSide.Do(s, e).dir == s.dir
  {
  }

  ghost predicate Runs(s: I2s, es: seq<Event>)
    decreases |es|
  {
    es == [] || (Enabled(s, es[0]) && Disciplined(s, es[0]) && Runs(Do(s, es[0]), es[1..]))
  }

  ghost function Exec(s: I2s, es: seq<Event>): I2s
    requires Runs(s, es)
    decreases |es|
  {
    if es == [] then s else Exec(Do(s, es[0]), es[1..])
  }

  function I2sStart(recvWidth: nat, recvBuf: seq<int>, sendWidth: nat, sendBuf: seq<int>): I2s {
    I2s(Start(Recv, recvWidth, recvBuf), Start(Send, sendWidth, sendBuf), NO_CMD, [], NO_CMD)
  }

  lemma {:induction false} RunKeepsInv(s: I2s, es: seq<Event>)
    requires Inv(s) && Runs(s, es)
    ensures Inv(Exec(s, es))
    decreases |es|
  {
    if es != [] {
      StepKeeps(s, es[0]);
      RunKeepsInv(Do(s, es[0]), es[1..]);
    }
  }

  /** What the handshake of one direction guarantees a blocked caller, `onTheWay` being the number of
    * its resume bits between the hardware side and the semaphore. */
  ghost predicate OneWakeup(s: Side, onTheWay: nat) {
    && One(s.required > 0) + onTheWay + s.sem == One(AwaitsWakeup(s))
    && (s.app.Copying? ==> s.app.n <= AppRoom(s))
    && s.ring.out <= Concat(s.moved)
  }

  /** Over every interleaving of the I/O thread, the interrupt and the two calling tasks: in each
    * direction a blocked caller has exactly one of a required count, a resume bit and a semaphore
    * count, a caller that is not blocked has none, and no word is lost, repeated or out of order. */
  lemma I2sRun(recvWidth: nat, recvBuf: seq<int>, sendWidth: nat, sendBuf: seq<int>, es: seq<Event>)
    requires 0 < |recvBuf| < U32 && 0 < |sendBuf| < U32
    requires Runs(I2sStart(recvWidth, recvBuf, sendWidth, sendBuf), es)
    ensures var s := Exec(I2sStart(recvWidth, recvBuf, sendWidth, sendBuf), es);
            && OneWakeup(s.recv, One(s.cmd.recv) + RecvBytes(s.chan) + One(s.isr.recv))
            && OneWakeup(s.send, One(s.cmd.send) + SendBytes(s.chan) + One(s.isr.send))
  {
    StartInv(Recv, recvWidth, recvBuf);
    StartInv(Send, sendWidth, sendBuf);
    var s0 := I2sStart(recvWidth, recvBuf, sendWidth, sendBuf);
    RunKeepsInv(s0, es);
    var s := Exec(s0, es);
    FillLevel(s.recv.ring);
    FillLevel(s.send.ring);
  }

  // ---- delivery ----

  /** The steps that only carry wake-ups: none of a caller or of the bus. */
  predicate Carries(e: Event) { e.Flush? || e.IsrRead? || e.IsrPutSend? || e.IsrPutRecv? }

  /** The side with its posted wake-ups at the semaphore. */
  function Woken(s: Side): Side { s.(posted := 0, sem := s.posted + s.sem) }

  function Arrived(s: I2s): I2s { I2s(Woken(s.recv), Woken(s.send), NO_CMD, [], NO_CMD) }

  /** How far the command, the bytes in the channel and the bits in the interrupt are from the semaphores. */
  function Distance(s: I2s): nat {
    (if s.cmd == NO_CMD then 0 else 4) + 3 * |s.chan| + (if s.isr.send then 1 else 0) + (if s.isr.recv then 1 else 0)
  }

  lemma Nearer(s: I2s) returns (e: Event)
    requires Inv(s) && Distance(s) > 0
    ensures Carries(e) && Enabled(s, e) && Distance(Do(s, e)) < Distance(s) && Arrived(Do(s, e)) == Arrived(s)
  {
    hide AudioRing.Inv, Concat, HwInv, AppInv;
    e := if s.isr.send then IsrPutSend else if s.isr.recv then IsrPutRecv else if s.chan != [] then IsrRead else Flush;
  }

  /** From every state all wake-ups on their way can arrive: by steps that only carry them, each resume bit of
    * the command, the channel and the interrupt ends up in the semaphore of its direction, and nothing else
    * changes. */
  lemma {:induction false} Delivers(s: I2s) returns (es: seq<Event>)
    requires Inv(s)
    ensures Runs(s, es) && (forall e :: e in es ==> Carries(e)) && Exec(s, es) == Arrived(s)
    decreases Distance(s)
  {
    if Distance(s) == 0 {
      NothingOnTheWay(s);
      es := [];
    } else {
      hide Inv, Distance, Arrived;
      var e := Nearer(s);
      StepKeeps(s, e);
      var fs := Delivers(Do(s, e));
      es := [e] + fs;
      assert es[1..] == fs;
    }
  }

  lemma NothingOnTheWay(s: I2s)
    requires Inv(s) && Distance(s) == 0
    ensures s == Arrived(s)
  {
    hide SideInv;
  }

  /** Over every interleaving: a direction with a resume bit anywhere between its callback and its semaphore is
    * posted by steps that only carry wake-ups, and a caller that waits there can then go on. */
  lemma WakeupsArrive(recvWidth: nat, recvBuf: seq<int>, sendWidth: nat, sendBuf: seq<int>, es: seq<Event>)
      returns (fs: seq<Event>)
    requires 0 < |recvBuf| < U32 && 0 < |sendBuf| < U32
    requires Runs(I2sStart(recvWidth, recvBuf, sendWidth, sendBuf), es)
    ensures var s := Exec(I2sStart(recvWidth, recvBuf, sendWidth, sendBuf), es);
            && Runs(s, fs) && (forall e :: e in fs ==> Carries(e))
            && var t := Exec(s, fs);
               && t.cmd == t.isr == NO_CMD && t.chan == []
               && Reached(s.recv, t.recv, s.cmd.recv || RecvBytes(s.chan) > 0 || s.isr.recv)
               && Reached(s.send, t.send, s.cmd.send || SendBytes(s.chan) > 0 || s.isr.send)
  {
    StartInv(Recv, recvWidth, recvBuf);
    StartInv(Send, sendWidth, sendBuf);
    var s0 := I2sStart(recvWidth, recvBuf, sendWidth, sendBuf);
    RunKeepsInv(s0, es);
    var s := Exec(s0, es);
    fs := Delivers(s);
    hide Runs, Exec, AudioRing.Inv, Concat, HwInv, AppInv;
  }

  /** The caller of a side is as before, and has the wake-up if one was on its way. */
  ghost predicate Reached(was: Side, now: Side, onTheWay: bool) {
    && now.app == was.app && now.ring == was.ring && now.posted == 0 && (was.sem == 1 || onTheWay ==> now.sem == 1)
    && (onTheWay && was.app.Waiting? ==> AudioSide.Enabled(now, AppGet))
  }

  // ---- the mic array ----

  /** The receive side and whether its interrupt is between clearing the required count and the put. */
  datatype Mic = Mic(recv: Side, putting: bool)

  /** The interrupt runs to its end, including the put, before it can start on another frame. */
  predicate MicEnabled(m: Mic, e: AudioSide.Event) {
    && AudioSide.Enabled(m.recv, e)
    && (e.PutSem? ==> m.putting)
    && (e.HwStart? ==> !m.putting)
  }

  function MicDo(m: Mic, e: AudioSide.Event): Mic
    requires MicEnabled(m, e)
  {
    Mic(AudioSide.Do(m.recv, e), if e.PutSem? then false else m.putting || Wakes(m.recv, e))
  }

  ghost predicate MicInv(m: Mic) {
    m.recv.dir == Recv && SideInv(m.recv) && m.recv.posted == One(m.putting)
  }

  ghost predicate MicRuns(m: Mic, es: seq<AudioSide.Event>)
    decreases |es|
  {
    es == [] || (MicEnabled(m, es[0]) && AudioSide.Disciplined(m.recv, es[0]) && MicRuns(MicDo(m, es[0]), es[1..]))
  }

  ghost function MicExec(m: Mic, es: seq<AudioSide.Event>): Mic
    requires MicRuns(m, es)
    decreases |es|
  {
    if es == [] then m else MicExec(MicDo(m, es[0]), es[1..])
  }

  /** A wake-up that the interrupt has decided on reaches the semaphore with its next step. */
  lemma MicDelivers(m: Mic)
    requires MicInv(m) && m.putting
    ensures MicEnabled(m, PutSem) && MicDo(m, PutSem) == Mic(Woken(m.recv), false) && Woken(m.recv).sem == 1
    ensures m.recv.app.Waiting? ==> MicEnabled(MicDo(m, PutSem), AppGet)
  {
    hide AudioRing.Inv, Concat, HwInv, AppInv;
  }

  lemma {:induction false} MicRunKeeps(m: Mic, es: seq<AudioSide.Event>)
    requires MicInv(m) && MicRuns(m, es)
    ensures MicInv(MicExec(m, es))
    decreases |es|
  {
    if es != [] {
      DoKeeps(m.recv, es[0]);
      if !es[0].PutSem? { PostedBy(m.recv, es[0]); }
      SameDir(m.recv, es[0]);
      MicRunKeeps(MicDo(m, es[0]), es[1..]);
    }
  }

  /** The same guarantee for the mic array, whose interrupt puts the semaphore itself. */
  lemma MicRun(width: nat, buf: seq<int>, es: seq<AudioSide.Event>)
    requires 0 < |buf| < U32 && MicRuns(Mic(Start(Recv, width, buf), false), es)
    ensures var m := MicExec(Mic(Start(Recv, width, buf), false), es); OneWakeup(m.recv, One(m.putting))
  {
    StartInv(Recv, width, buf);
    MicRunKeeps(Mic(Start(Recv, width, buf), false), es);
    FillLevel(MicExec(Mic(Start(Recv, width, buf), false), es).recv.ring);
  }
}
