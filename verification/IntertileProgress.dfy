/** What the intertile link gets through: from every state the frame being sent can be finished and every frame be
  * delivered, so no byte and no task gets stuck. */
module IntertileProgress {
  import opened Intertile

  /** Nothing is in progress on either side. */
  ghost predicate AtRest(s: Link, ph: Phase) { s.tx.Unlocked? && ph.Armed? && s.chan == [] }

  /** No new frame is started. */
  predicate Ends(e: Event) { !e.Send? && !e.SendLen? }

  function TxRank(tx: Tx, txLen: int): int {
    match tx
    case Unlocked => 0
    case Single(rest) => 200 * |rest| + 1
    case Header(rest) => 200 * |rest| + 300 * txLen + 5
    case Between => 300 * txLen + 4
    case Data(rest, n) => 200 * |rest| + 300 * (txLen - n) + if txLen == n then 3 else 5
  }

  function TaskRank(t: Task, rxLen: int): nat {
    match t
    case Idle => 0
    case InLen(_, _) => 80
    case InBody(single, _, want, call) => if want > 0 then 59 else if single || rxLen == call then 50 else 70
    case Paused(_) => 60
  }

  function PhaseRank(s: Link, ph: Phase): nat {
    match ph
    case Armed => 9
    case IsrStarted => 8
    case PortRead(_) => 82
    case Signalled(_) => 81
    case Reading(q) => if q < |s.tasks| then TaskRank(s.tasks[q], s.rxLen) else 0
  }

  function Rank(s: Link, ph: Phase): int { TxRank(s.tx, s.txLen) + 100 * |s.chan| + PhaseRank(s, ph) }

  function Zeros(n: int): seq<Byte> { seq(Clip(n), i => 0) }

  /** The next step of the sender. */
  function SendStep(s: Link): Event {
    if Rest(s.tx) != [] then OutByte else if s.tx.Between? then SendData(Zeros(s.txLen)) else SendDone
  }

  /** The next step of the receive side, its calls being for all that a frame still has. */
  function RecvStep(s: Link, ph: Phase): Event {
    match ph
    case Armed => Fire
    case IsrStarted => IsrIn
    case PortRead(_) => IsrSet
    case Signalled(q) => Wake(q, true)
    case Reading(q) =>
      if q >= |s.tasks| then Fire
      else match s.tasks[q]
        case Idle => Fire
        case InLen(_, bytes) => if |bytes| < 4 then InByte(q) else GotLen(q)
        case InBody(_, _, want, _) => if want > 0 then InByte(q) else RecvDone(q)
        case Paused(_) => RecvData(q, Clip(s.rxLen))
  }

  ghost predicate Falls(s: Link, ph: Phase, e: Event) {
    Ends(e) && Enabled(s, e) && 0 <= Rank(Do(s, e), PhaseAfter(s, ph, e)) < Rank(s, ph)
  }

  /** Until all is at rest some step is possible that brings it nearer. */
  lemma Proceeds(s: Link, ph: Phase) returns (e: Event)
    requires InvAt(s, ph) && !AtRest(s, ph)
    ensures Falls(s, ph, e)
  {
    if s.tx.Unlocked? {
      e := RecvStep(s, ph);
      BytesThere(s, ph);
      assert StreamOk(s, ph);
      hide InvAt;
      RecvFalls(s, ph);
    } else {
      e := SendStep(s);
      SendFalls(s, ph);
    }
  }

  lemma SendFalls(s: Link, ph: Phase)
    requires InvAt(s, ph) && !s.tx.Unlocked?
    ensures Falls(s, ph, SendStep(s))
  {
    assert SenderOk(s);
    hide InvAt, SenderOk, Falls;
    if Rest(s.tx) != [] {
      OutFalls(s, ph);
    } else if s.tx.Between? {
      DataFalls(s, ph);
    } else {
      DoneFalls(s, ph);
    }
  }

  lemma OutFalls(s: Link, ph: Phase)
    requires SenderOk(s) && Rest(s.tx) != []
    ensures Falls(s, ph, OutByte)
  {
    hide CompleteTo, Wire;
  }

  lemma DataFalls(s: Link, ph: Phase)
    requires SenderOk(s) && s.tx.Between?
    ensures Falls(s, ph, SendData(Zeros(s.txLen)))
  {
    hide CompleteTo, Wire;
  }

  lemma DoneFalls(s: Link, ph: Phase)
    requires SenderOk(s) && !s.tx.Unlocked? && Rest(s.tx) == [] && !s.tx.Between?
    ensures Falls(s, ph, SendDone)
  {
    hide CompleteTo, Wire;
  }

  /** With the sender done, the bytes that the receive side waits for are in the channel. */
  lemma BytesThere(s: Link, ph: Phase)
    requires InvAt(s, ph) && s.tx.Unlocked?
    ensures ph.Reading? && Wants(s.tasks[ph.q]) ==> s.chan != []
  {
    if ph.Reading? && Wants(s.tasks[ph.q]) {
      var q, fs := ph.q, s.log[s.received..];
      var t := s.tasks[q];
      assert TakenBy(q, t, s.rxLen) + s.chan == Flatten(fs) by {
        assert TakenBy(q, t, s.rxLen) + s.chan + [] == TakenBy(q, t, s.rxLen) + s.chan;
      }
      assert fs != [] ==> Complete(fs[0]) by { assert SenderOk(s) && (fs != [] ==> fs[0] == s.log[s.received]); }
      hide InvAt;
      if t.InLen? { LengthThere(q, t.bytes, s.chan, fs); } else { BodyThere(q, t.msg, LenOf(t, s.rxLen), s.chan, fs); }
    }
  }

  lemma LengthThere(q: Port, bytes: seq<Byte>, chan: seq<Byte>, fs: seq<Frame>)
    requires |bytes| < 4 && [q as Byte] + bytes + chan == Flatten(fs)
    ensures chan != []
  {
    assert fs != [];
    WireFits(fs);
  }

  lemma BodyThere(q: Port, msg: seq<Byte>, len: Len, chan: seq<Byte>, fs: seq<Frame>)
    requires |msg| < len && Wire(Frame(q, len, msg)) + chan == Flatten(fs) && (fs != [] ==> Complete(fs[0]))
    ensures chan != []
  {
    assert fs != [];
    WireFits(fs);
    assert Wire(Frame(q, len, msg)) + chan == [q as Byte] + Word(len) + (msg + chan);
    HeadLen(q, Word(len), msg + chan, fs);
    DecodeWord(len);
  }

  lemma WireFits(fs: seq<Frame>)
    requires fs != []
    ensures |Flatten(fs)| >= 5 + |fs[0].data|
  {
  }

  lemma RecvFalls(s: Link, ph: Phase)
    requires StreamOk(s, ph) && !AtRest(s, ph) && s.tx.Unlocked? && |s.inbox| == PORTS
    requires ph.Reading? && Wants(s.tasks[ph.q]) ==> s.chan != []
    ensures Falls(s, ph, RecvStep(s, ph))
  {
    assert ShapeOk(s, ph);
    hide StreamOk;
  }

  lemma {:induction false} Settles(s: Link, ph: Phase) returns (es: seq<Event>, last: Phase)
    requires InvAt(s, ph)
    ensures Runs(s, es) && (forall e :: e in es ==> Ends(e))
    ensures InvAt(Exec(s, es), last) && AtRest(Exec(s, es), last)
    decreases Rank(s, ph)
  {
    hide InvAt, AtRest, Rank, Enabled, Do, PhaseAfter;
    if AtRest(s, ph) {
      es, last := [], ph;
    } else {
      var e := Proceeds(s, ph);
      StepKeeps(s, ph, e);
      var fs;
      fs, last := Settles(Do(s, e), PhaseAfter(s, ph, e));
      es := [e] + fs;
      assert es[1..] == fs;
    }
  }

  /** The same frames, with more of their data. */
  predicate Extends(was: seq<Frame>, now: seq<Frame>) {
    && |was| == |now|
    && forall i :: 0 <= i < |was| ==>
         was[i].port == now[i].port && was[i].len == now[i].len && was[i].data <= now[i].data
  }

  lemma {:induction false} SameFrames(s: Link, es: seq<Event>)
    requires Runs(s, es) && forall e :: e in es ==> Ends(e)
    ensures Extends(s.log, Exec(s, es).log)
    decreases |es|
  {
    if es != [] {
      assert Ends(es[0]) && Extends(s.log, Do(s, es[0]).log);
      hide Do, Enabled;
      SameFrames(Do(s, es[0]), es[1..]);
    }
  }

  /** From every state, whatever senders, the interrupt and receivers are doing, the frame in progress can be
    * finished and every frame delivered: there is a run, with no new frame, after which each port has got all the
    * messages sent to it, the mutex is free, the trigger on and every task idle. */
  lemma AllCanBeDelivered(es: seq<Event>) returns (fs: seq<Event>)
    requires Runs(Start(), es)
    ensures var s := Exec(Start(), es);
            && Runs(s, fs) && (forall e :: e in fs ==> Ends(e))
            && var t := Exec(s, fs);
               && Extends(s.log, t.log) && (forall i :: 0 <= i < |t.log| ==> Complete(t.log[i]))
               && |t.inbox| == PORTS && (forall p :: 0 <= p < PORTS ==> t.inbox[p] == Payloads(t.log, p))
               && t.tx.Unlocked? && t.trigger && t.isr.NotRunning? && t.chan == [] && AllIdle(t)
  {
    StartInv();
    var s := Exec(Start(), es);
    var ph := RunKeeps(Start(), Armed, es);
    var last;
    fs, last := Settles(s, ph);
    SameFrames(s, fs);
    AllReceived(Exec(s, fs), last);
  }

  lemma AllReceived(t: Link, ph: Phase)
    requires InvAt(t, ph) && AtRest(t, ph)
    ensures (forall i :: 0 <= i < |t.log| ==> Complete(t.log[i])) && |t.inbox| == PORTS
    ensures forall p :: 0 <= p < PORTS ==> t.inbox[p] == Payloads(t.log, p)
    ensures t.tx.Unlocked? && t.trigger && t.isr.NotRunning? && t.chan == [] && AllIdle(t)
  {
    var fs := t.log[t.received..];
    if fs != [] { WireFits(fs); }
    assert t.log[..t.received] == t.log;
    hide Wire;
  }
}
