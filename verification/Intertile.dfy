/** The intertile link: many tasks on one tile send framed messages over one streaming channel, and on
  * the other tile an interrupt hands each frame to the task waiting on its port.
  *
  * One direction of a link is a transition system.  A frame is a port byte, a length word and the
  * message.  A sender holds the mutex for a whole frame, whether it sends it with one call or with a
  * length call and any number of data calls.  The interrupt turns off its own trigger, reads the port
  * byte and sets the port's event bit; the task that clears the bit reads the rest of the frame, with
  * one call or in pieces, and turns the trigger back on. */
module Intertile {

  const PORTS: nat := 24
  const U32: nat := 0x1_0000_0000

  type Byte = x: int | 0 <= x < 256
  type Port = p: nat | p < PORTS
  type Len = n: nat | n < U32

  /** A length as the channel carries it. */
  function Word(n: Len): (w: seq<Byte>)
    ensures |w| == 4
  {
    [n / 256 / 256 / 256, n / 256 / 256 % 256, n / 256 % 256, n % 256]
  }

  function Decode(w: seq<Byte>): (n: Len)
    requires |w| == 4
  {
    var a: int, b: int, c: int, d: int := w[0], w[1], w[2], w[3];
    ((a * 256 + b) * 256 + c) * 256 + d
  }

  lemma DecodeWord(n: Len)
    ensures Decode(Word(n)) == n
  {
  }

  /** What a sender has committed to one frame so far. */
  datatype Frame = Frame(port: Port, len: Len, data: seq<Byte>)

  predicate Complete(f: Frame) { |f.data| == f.len }

  function Wire(f: Frame): seq<Byte> { [f.port as Byte] + Word(f.len) + f.data }

  /** The mutex holder: in `tx`, in `tx_len`, between calls of a split message, or in `tx_data`; `rest`
    * is what the call has yet to put into the channel. */
  datatype Tx = Unlocked | Single(rest: seq<Byte>) | Header(rest: seq<Byte>) | Between | Data(rest: seq<Byte>, n: nat)

  datatype Isr = NotRunning | Entered | HasPort(port: Byte)

  /** A receiving task: not in a frame, reading the length word, reading `want` more bytes of a call for
    * `call` bytes, or between calls of a split message. */
  datatype Task =
    | Idle
    | InLen(single: bool, bytes: seq<Byte>)
    | InBody(single: bool, msg: seq<Byte>, want: nat, call: nat)
    | Paused(msg: seq<Byte>)

  /** `inbox[p]` lists the messages that receive calls on port p have returned.  Not in the driver: `log`,
    * the frames in the order their senders took the mutex; `received`, how many were received; and how
    * often the mutex was given back and the trigger turned back on. */
  datatype Link = Link(tx: Tx, txLen: int, chan: seq<Byte>,
                       trigger: bool, isr: Isr, events: set<Byte>, tasks: seq<Task>, rxLen: int,
                       inbox: seq<seq<seq<Byte>>>, log: seq<Frame>, received: nat, unlocks: nat, rearms: nat)

  datatype Event =
    | Send(port: Port, msg: seq<Byte>)   // rtos_intertile_tx takes the mutex
    | SendLen(port: Port, len: Len)      // rtos_intertile_tx_len takes the mutex
    | SendData(chunk: seq<Byte>)         // rtos_intertile_tx_data
    | OutByte
    | SendDone                           // the call in progress returns
    | Fire | IsrIn | IsrSet              // the interrupt handler
    | Wake(p: Port, single: bool)        // rtos_intertile_rx or _rx_len gets its event bit
    | InByte(p: Port)
    | GotLen(p: Port)
    | RecvData(p: Port, want: nat)       // rtos_intertile_rx_data
    | RecvDone(p: Port)                  // rtos_intertile_rx or _rx_data has all its bytes
    | RecvTimeout(p: Port)               // no event bit in time: nothing happens

  function Rest(t: Tx): seq<Byte> {
    match t
    case Single(rest) => rest
    case Header(rest) => rest
    case Data(rest, _) => rest
    case _ => []
  }

  function SetRest(t: Tx, r: seq<Byte>): Tx {
    match t
    case Single(_) => Single(r)
    case Header(_) => Header(r)
    case Data(_, n) => Data(r, n)
    case _ => t
  }

  predicate Wants(t: Task) {
    (t.InLen? && |t.bytes| < 4) || (t.InBody? && t.want > 0)
  }

  predicate Enabled(s: Link, e: Event) {
    match e
    case Send(_, msg) => s.tx.Unlocked? && |msg| < U32
    case SendLen(_, _) => s.tx.Unlocked?
    case SendData(_) => s.tx.Between?
    case OutByte => Rest(s.tx) != []
    case SendDone => !s.tx.Unlocked? && !s.tx.Between? && Rest(s.tx) == []
    case Fire => s.trigger && s.isr.NotRunning? && s.chan != []
    case IsrIn => s.isr.Entered? && s.chan != []
    case IsrSet => s.isr.HasPort?
    case Wake(p, _) => p < |s.tasks| && s.tasks[p].Idle? && p in s.events
    case InByte(p) => p < |s.tasks| && s.chan != [] && Wants(s.tasks[p])
    case GotLen(p) => p < |s.tasks| && s.tasks[p].InLen? && |s.tasks[p].bytes| == 4
    case RecvData(p, _) => p < |s.tasks| && s.tasks[p].Paused?
    case RecvDone(p) => p < |s.tasks| == |s.inbox| && s.tasks[p].InBody? && s.tasks[p].want == 0
    case RecvTimeout(p) => p < |s.tasks| && s.tasks[p].Idle?
  }

  /** What the driver asserts when a step happens. */
  predicate Asserts(s: Link, e: Event) {
    match e
    case SendLen(_, _) => s.txLen == 0
    case GotLen(p) => p < |s.tasks| && s.tasks[p].InLen? && !s.tasks[p].single ==> s.rxLen == 0
    case _ => true
  }

  function Min(a: int, b: int): int { if a <= b then a else b }

  function Clip(n: int): nat { if n < 0 then 0 else n }

  function ExtendLast(log: seq<Frame>, c: seq<Byte>): (l: seq<Frame>)
    ensures |l| == |log|
  {
    if log == [] then [] else log[|log| - 1 := log[|log| - 1].(data := log[|log| - 1].data + c)]
  }

  function SetTask(s: Link, p: nat, t: Task): Link
    requires p < |s.tasks|
  {
    s.(tasks := s.tasks[p := t])
  }

  /** The frame has been read: the call returns its message and turns the trigger back on. */
  function Deliver(s: Link, p: nat, msg: seq<Byte>): Link
    requires p < |s.tasks| == |s.inbox|
  {
    SetTask(s, p, Idle).(trigger := true, inbox := s.inbox[p := s.inbox[p] + [msg]], received := s.received + 1,
                         rearms := s.rearms + 1)
  }

  function Release(s: Link): Link { s.(tx := Unlocked, unlocks := s.unlocks + 1) }

  function Do(s: Link, e: Event): Link
    requires Enabled(s, e)
  {
    match e
    case Send(port, msg) =>
      var f := Frame(port, |msg|, msg);
      s.(tx := Single(Wire(f)), log := s.log + [f])
    case SendLen(port, len) =>
      s.(tx := Header([port as Byte] + Word(len)), txLen := len, log := s.log + [Frame(port, len, [])])
    case SendData(chunk) =>
      var n := Clip(Min(|chunk|, s.txLen));
      s.(tx := Data(chunk[..n], n), log := ExtendLast(s.log, chunk[..n]))
    case OutByte => s.(chan := s.chan + [Rest(s.tx)[0]], tx := SetRest(s.tx, Rest(s.tx)[1..]))
    case SendDone => DoSendDone(s)
    case Fire => s.(trigger := false, isr := Entered)
    case IsrIn => s.(isr := HasPort(s.chan[0]), chan := s.chan[1..])
    case IsrSet => s.(isr := NotRunning, events := s.events + {s.isr.port})
    case Wake(p, single) => SetTask(s, p, InLen(single, [])).(events := s.events - {p as Byte})
    case InByte(p) =>
      var t := s.tasks[p];
      SetTask(s, p, if t.InLen? then t.(bytes := t.bytes + [s.chan[0]])
                    else t.(msg := t.msg + [s.chan[0]], want := t.want - 1)).(chan := s.chan[1..])
    case GotLen(p) =>
      var t, len := s.tasks[p], Decode(s.tasks[p].bytes);
      if t.single then SetTask(s, p, InBody(true, [], len, len)) else SetTask(s, p, Paused([])).(rxLen := len)
    case RecvData(p, want) =>
      var n := Clip(Min(want, s.rxLen));
      SetTask(s, p, InBody(false, s.tasks[p].msg, n, n))
    case RecvDone(p) => DoRecvDone(s, p)
    case RecvTimeout(_) => s
  }

  function DoSendDone(s: Link): Link {
    match s.tx
    case Single(_) => Release(s)
    case Header(_) => s.(tx := Between)
    case Data(_, n) =>
      var t := s.(txLen := s.txLen - n);
      if t.txLen == 0 then Release(t) else t.(tx := Between)
    case _ => s
  }

  function DoRecvDone(s: Link, p: nat): Link
    requires p < |s.tasks| == |s.inbox| && s.tasks[p].InBody?
  {
    var t := s.tasks[p];
    if t.single then Deliver(s, p, t.msg)
    else
      var u := s.(rxLen := s.rxLen - t.call);
      if u.rxLen == 0 then Deliver(u, p, t.msg) else SetTask(u, p, Paused(t.msg))
  }

  function Start(): Link {
    Link(Unlocked, 0, [], true, NotRunning, {}, seq(PORTS, i => Idle), 0, seq(PORTS, i => []), [], 0, 0, 0)
  }

  // ---- the invariant ----

  /** The bytes of a sequence of frames, one after the other. */
  ghost function Flatten(fs: seq<Frame>): seq<Byte> {
    if fs == [] then [] else Wire(fs[0]) + Flatten(fs[1..])
  }

  /** The messages among the frames that are for port p, in order. */
  ghost function Payloads(fs: seq<Frame>, p: nat): seq<seq<Byte>> {
    if fs == [] then []
    else Payloads(fs[..|fs| - 1], p) + if fs[|fs| - 1].port == p then [fs[|fs| - 1].data] else []
  }

  ghost predicate CompleteTo(fs: seq<Frame>, n: int) {
    forall i :: 0 <= i < n && i < |fs| ==> Complete(fs[i])
  }

  function Last(fs: seq<Frame>): Frame
    requires fs != []
  {
    fs[|fs| - 1]
  }

  /** The mutex is held for a whole frame: every frame but the last is complete, and what the last one
    * lacks is `tx_len`. */
  ghost predicate SenderOk(s: Link) {
    && CompleteTo(s.log, |s.log| - 1)
    && s.unlocks + (if s.tx.Unlocked? then 0 else 1) == |s.log|
    && match s.tx
       case Unlocked => s.txLen == 0 && (s.log != [] ==> Complete(Last(s.log)))
       case Single(_) => s.txLen == 0 && Complete(Last(s.log))
       case Data(_, n) => 0 <= n <= s.txLen && |Last(s.log).data| - n + s.txLen == Last(s.log).len
       case _ => 0 <= s.txLen && |Last(s.log).data| + s.txLen == Last(s.log).len
  }

  /** Where the receive side is. */
  datatype Phase = Armed | IsrStarted | PortRead(q: Port) | Signalled(q: Port) | Reading(q: Port)

  ghost predicate AllIdle(s: Link) {
    |s.tasks| == PORTS && forall q :: 0 <= q < PORTS ==> s.tasks[q].Idle?
  }

  ghost predicate OthersIdle(s: Link, p: nat) {
    |s.tasks| == PORTS && forall q :: 0 <= q < PORTS && q != p ==> s.tasks[q].Idle?
  }

  /** The length of the frame a task is reading, once it knows it. */
  ghost function LenOf(t: Task, rxLen: int): int {
    match t
    case InBody(single, msg, want, call) => if single then |msg| + want else |msg| + want - call + rxLen
    case Paused(msg) => |msg| + rxLen
    case _ => 0
  }

  ghost predicate TaskOk(t: Task, rxLen: int) {
    match t
    case Idle => false
    case InLen(_, bytes) => |bytes| <= 4 && rxLen == 0
    case InBody(single, msg, want, call) =>
      && 0 <= LenOf(t, rxLen) < U32
      && (if single then rxLen == 0 else want <= call <= rxLen && call <= |msg| + want)
    case Paused(_) => 0 <= rxLen && LenOf(t, rxLen) < U32
  }

  /** Exactly one thing is going on. */
  ghost predicate ShapeOk(s: Link, ph: Phase) {
    match ph
    case Armed => s.trigger && s.isr.NotRunning? && s.events == {} && AllIdle(s) && s.rxLen == 0
    case IsrStarted => !s.trigger && s.isr.Entered? && s.chan != [] && s.events == {} && AllIdle(s) && s.rxLen == 0
    case PortRead(q) => !s.trigger && s.isr == HasPort(q) && s.events == {} && AllIdle(s) && s.rxLen == 0
    case Signalled(q) => !s.trigger && s.isr.NotRunning? && s.events == {q as Byte} && AllIdle(s) && s.rxLen == 0
    case Reading(q) =>
      !s.trigger && s.isr.NotRunning? && s.events == {} && OthersIdle(s, q) && TaskOk(s.tasks[q], s.rxLen)
  }

  ghost function TakenBy(q: Port, t: Task, rxLen: int): seq<Byte>
    requires TaskOk(t, rxLen)
  {
    match t
    case InLen(_, bytes) => [q as Byte] + bytes
    case InBody(_, msg, _, _) => Wire(Frame(q, LenOf(t, rxLen), msg))
    case Paused(msg) => Wire(Frame(q, LenOf(t, rxLen), msg))
  }

  /** The bytes of the current frame that have left the channel. */
  ghost function Taken(s: Link, ph: Phase): seq<Byte>
    requires ShapeOk(s, ph)
  {
    match ph
    case PortRead(q) => [q as Byte]
    case Signalled(q) => [q as Byte]
    case Reading(q) => TakenBy(q, s.tasks[q], s.rxLen)
    case _ => []
  }

  /** The bytes taken, in the channel and still to be sent are the frames not yet received. */
  ghost predicate StreamOk(s: Link, ph: Phase) {
    && ShapeOk(s, ph)
    && s.received <= |s.log|
    && Taken(s, ph) + s.chan + Rest(s.tx) == Flatten(s.log[s.received..])
  }

  ghost predicate DeliveredOk(s: Link) {
    && s.received <= |s.log| && CompleteTo(s.log, s.received) && s.rearms == s.received
    && |s.inbox| == PORTS
    && forall p :: 0 <= p < PORTS ==> s.inbox[p] == Payloads(s.log[..s.received], p)
  }

  ghost predicate InvAt(s: Link, ph: Phase) {
    SenderOk(s) && StreamOk(s, ph) && DeliveredOk(s)
  }

  // ---- the byte stream ----

  lemma {:induction false} FlattenAppend(fs: seq<Frame>, f: Frame)
    ensures Flatten(fs + [f]) == Flatten(fs) + Wire(f)
  {
    hide Wire;
    if fs == [] {
      assert [] + [f] == [f] && [f][1..] == [];
    } else {
      FlattenAppend(fs[1..], f);
      assert (fs + [f])[1..] == fs[1..] + [f];
    }
  }

  lemma {:induction false} FlattenExtend(fs: seq<Frame>, c: seq<Byte>)
    requires fs != []
    ensures Flatten(ExtendLast(fs, c)) == Flatten(fs) + c
  {
    var g := Last(fs).(data := Last(fs).data + c);
    var front := fs[..|fs| - 1];
    assert fs == front + [Last(fs)] && ExtendLast(fs, c) == front + [g];
    FlattenAppend(front, Last(fs));
    FlattenAppend(front, g);
  }

  /** The first byte of a frame boundary is the port byte of the next frame. */
  lemma HeadPort(rest: seq<Byte>, fs: seq<Frame>)
    requires rest != [] && rest == Flatten(fs)
    ensures fs != [] && rest[0] == fs[0].port
  {
  }

  lemma HeadLen(q: Port, bytes: seq<Byte>, rest: seq<Byte>, fs: seq<Frame>)
    requires |bytes| == 4 && [q as Byte] + bytes + rest == Flatten(fs)
    ensures fs != [] && fs[0].port == q && bytes == Word(fs[0].len) && Decode(bytes) == fs[0].len
  {
    var all := Flatten(fs);
    assert all[0] == q && all[1..5] == bytes;
    assert all == Wire(fs[0]) + Flatten(fs[1..]);
    assert all[1..5] == Word(fs[0].len);
    DecodeWord(fs[0].len);
  }

  /** A whole frame at the head of the stream is the next frame of the log. */
  lemma HeadFrame(f: Frame, rest: seq<Byte>, fs: seq<Frame>)
    requires Complete(f) && Wire(f) + rest == Flatten(fs)
    requires fs != [] ==> Complete(fs[0]) || (|fs| == 1 && |fs[0].data| <= fs[0].len)
    ensures fs != [] && fs[0] == f && Flatten(fs[1..]) == rest
  {
    var all := Flatten(fs);
    assert all == [f.port as Byte] + Word(f.len) + (f.data + rest);
    HeadLen(f.port, Word(f.len), f.data + rest, fs);
    DecodeWord(f.len);
    var g, more := fs[0], Flatten(fs[1..]);
    assert all == Wire(g) + more;
    if |fs| == 1 { assert more == []; }
    assert |g.data| == g.len;
    assert all[..5 + f.len] == Wire(f) && all[..5 + f.len] == Wire(g);
    assert Wire(f)[5..] == f.data && Wire(g)[5..] == g.data;
    assert all[5 + f.len..] == rest && all[5 + f.len..] == more;
  }

  // ---- the sender's steps ----

  lemma SendKeeps(s: Link, ph: Phase, f: Frame, tx: Tx, txLen: int)
    requires InvAt(s, ph) && s.tx.Unlocked?
    requires Rest(tx) == Wire(f)
    requires (tx.Single? && txLen == 0 && Complete(f)) || (tx.Header? && txLen == f.len && f.data == [])
    ensures InvAt(s.(tx := tx, txLen := txLen, log := s.log + [f]), ph)
  {
    hide Flatten, Wire, Payloads;
    var t := s.(tx := tx, txLen := txLen, log := s.log + [f]);
    FlattenAppend(s.log[s.received..], f);
    assert t.log[t.received..] == s.log[s.received..] + [f];
    assert t.log[..t.received] == s.log[..s.received];
    assert SenderOk(t);
    assert DeliveredOk(t);
    assert Taken(t, ph) == Taken(s, ph);
  }

  lemma SendDataKeeps(s: Link, ph: Phase, chunk: seq<Byte>)
    requires InvAt(s, ph) && s.tx.Between?
    ensures InvAt(Do(s, SendData(chunk)), ph)
  {
    hide Flatten, Wire, Payloads;
    var t := Do(s, SendData(chunk));
    var c := Rest(t.tx);
    if s.received < |s.log| {
      FlattenExtend(s.log[s.received..], c);
      assert t.log[s.received..] == ExtendLast(s.log[s.received..], c);
    } else {
      assert Last(s.log).data + c == Last(s.log).data;
      assert t.log == s.log;
    }
    assert t.log[..t.received] == s.log[..s.received];
    assert SenderOk(t);
    assert DeliveredOk(t);
    assert Taken(t, ph) == Taken(s, ph);
  }

  lemma OutByteKeeps(s: Link, ph: Phase)
    requires InvAt(s, ph) && Rest(s.tx) != []
    ensures InvAt(Do(s, OutByte), ph)
  {
    hide Flatten, Wire, Payloads;
    var t := Do(s, OutByte);
    var taken, r := Taken(s, ph), Rest(s.tx);
    assert SenderOk(t);
    assert DeliveredOk(t);
    assert taken + (s.chan + [r[0]]) + r[1..] == taken + s.chan + r;
  }

  lemma SendDoneKeeps(s: Link, ph: Phase)
    requires InvAt(s, ph) && Enabled(s, SendDone)
    ensures InvAt(Do(s, SendDone), ph)
  {
    hide Flatten, Wire, Payloads;
    var t := Do(s, SendDone);
    assert SenderOk(t);
    assert DeliveredOk(t);
  }

  // ---- the receiver's steps ----

  /** Taking the head of the channel moves it to what has been taken. */
  lemma TakeHead(taken: seq<Byte>, chan: seq<Byte>, rest: seq<Byte>)
    requires chan != []
    ensures taken + [chan[0]] + chan[1..] + rest == taken + chan + rest
  {
    assert chan == [chan[0]] + chan[1..];
  }

  lemma FireKeeps(s: Link, ph: Phase)
    requires InvAt(s, ph) && Enabled(s, Fire)
    ensures ph == Armed && InvAt(Do(s, Fire), IsrStarted)
  {
    hide Flatten, Wire, Payloads;
  }

  /** The interrupt reads a port byte and nothing else. */
  lemma IsrInKeeps(s: Link, ph: Phase)
    requires InvAt(s, ph) && Enabled(s, IsrIn)
    ensures ph == IsrStarted && s.received < |s.log| && s.chan[0] == s.log[s.received].port
    ensures InvAt(Do(s, IsrIn), PortRead(s.log[s.received].port))
  {
    hide Wire, Payloads;
    var rest := s.chan + Rest(s.tx);
    assert Taken(s, ph) + s.chan + Rest(s.tx) == rest;
    HeadPort(rest, s.log[s.received..]);
    hide Flatten;
    TakeHead([], s.chan, Rest(s.tx));
    var t := Do(s, IsrIn);
    assert [s.chan[0]] + t.chan + Rest(t.tx) == rest;
  }

  lemma IsrSetKeeps(s: Link, ph: Phase)
    requires InvAt(s, ph) && Enabled(s, IsrSet)
    ensures ph.PortRead? && InvAt(Do(s, IsrSet), Signalled(ph.q))
  {
    hide Flatten, Wire, Payloads;
  }

  lemma WakeKeeps(s: Link, ph: Phase, p: Port, single: bool)
    requires InvAt(s, ph) && Enabled(s, Wake(p, single))
    ensures ph == Signalled(p) && InvAt(Do(s, Wake(p, single)), Reading(p))
  {
    hide Flatten, Wire, Payloads;
    var t := Do(s, Wake(p, single));
    assert t.events == {};
    assert TakenBy(p, t.tasks[p], t.rxLen) == [p as Byte];
  }

  lemma InByteKeeps(s: Link, ph: Phase, p: Port)
    requires InvAt(s, ph) && Enabled(s, InByte(p))
    ensures ph == Reading(p) && InvAt(Do(s, InByte(p)), ph)
  {
    hide Flatten, Payloads;
    var t := Do(s, InByte(p));
    TakeHead(Taken(s, ph), s.chan, Rest(s.tx));
    assert Taken(t, ph) == Taken(s, ph) + [s.chan[0]];
  }

  lemma GotLenKeeps(s: Link, ph: Phase, p: Port)
    requires InvAt(s, ph) && Enabled(s, GotLen(p))
    ensures ph == Reading(p) && s.rxLen == 0 && InvAt(Do(s, GotLen(p)), ph)
  {
    var t := Do(s, GotLen(p));
    assert StreamOk(s, ph) && SenderOk(s) && DeliveredOk(s);
    hide SenderOk, DeliveredOk, Flatten;
    GotLenStream(s, ph, p);
    SenderSame(s, t);
    DeliveredSame(s, t);
  }

  lemma GotLenStream(s: Link, ph: Phase, p: Port)
    requires StreamOk(s, ph) && Enabled(s, GotLen(p)) && ph == Reading(p)
    ensures StreamOk(Do(s, GotLen(p)), ph)
  {
    var t, bytes, rest := Do(s, GotLen(p)), s.tasks[p].bytes, s.chan + Rest(s.tx);
    assert Taken(s, ph) + s.chan + Rest(s.tx) == [p as Byte] + bytes + rest;
    HeadLen(p, bytes, rest, s.log[s.received..]);
    hide Flatten;
    assert Taken(t, ph) == Taken(s, ph);
  }

  lemma DeliveredSame(s: Link, t: Link)
    requires DeliveredOk(s) && t.log == s.log && t.received == s.received && t.rearms == s.rearms && t.inbox == s.inbox
    ensures DeliveredOk(t)
  {
    hide Payloads;
  }

  lemma RecvDataKeeps(s: Link, ph: Phase, p: Port, want: nat)
    requires InvAt(s, ph) && Enabled(s, RecvData(p, want))
    ensures ph == Reading(p) && InvAt(Do(s, RecvData(p, want)), ph)
  {
    hide Flatten, Wire, Payloads;
    var t := Do(s, RecvData(p, want));
    assert Taken(t, ph) == Taken(s, ph);
  }

  lemma DeliverKeeps(s: Link, p: Port, msg: seq<Byte>)
    requires SenderOk(s) && DeliveredOk(s) && !s.trigger && s.isr.NotRunning? && s.events == {} && OthersIdle(s, p)
    requires s.rxLen == 0 && |msg| < U32
    requires Wire(Frame(p, |msg|, msg)) + s.chan + Rest(s.tx) == Flatten(s.log[s.received..])
    ensures InvAt(Deliver(s, p, msg), Armed) && Payload(s, p, msg)
  {
    hide Wire, Flatten, DeliveredOk, SenderOk, Payloads;
    DeliveredBounds(s);
    var t := Deliver(s, p, msg);
    DeliverHead(s, p, msg);
    DeliverPayload(s, p, msg);
    SenderSame(s, t);
    assert [] + t.chan + Rest(t.tx) == s.chan + Rest(s.tx);
  }

  lemma DeliveredBounds(s: Link)
    requires DeliveredOk(s)
    ensures s.received <= |s.log| && |s.inbox| == PORTS
  {
  }

  lemma SenderSame(s: Link, t: Link)
    requires SenderOk(s) && t.log == s.log && t.tx == s.tx && t.txLen == s.txLen && t.unlocks == s.unlocks
    ensures SenderOk(t)
  {
  }

  lemma DeliverHead(s: Link, p: Port, msg: seq<Byte>)
    requires SenderOk(s) && s.received <= |s.log| && |msg| < U32
    requires Wire(Frame(p, |msg|, msg)) + s.chan + Rest(s.tx) == Flatten(s.log[s.received..])
    ensures s.received < |s.log| && s.log[s.received] == Frame(p, |msg|, msg)
    ensures Flatten(s.log[s.received + 1..]) == s.chan + Rest(s.tx)
  {
    hide Wire, Flatten;
    var fs, f := s.log[s.received..], Frame(p, |msg|, msg);
    assert Wire(f) + (s.chan + Rest(s.tx)) == Wire(f) + s.chan + Rest(s.tx);
    if fs != [] { assert fs[|fs| - 1] == Last(s.log); }
    HeadFrame(f, s.chan + Rest(s.tx), fs);
    assert s.log[s.received + 1..] == fs[1..];
  }

  lemma DeliverPayload(s: Link, p: Port, msg: seq<Byte>)
    requires DeliveredOk(s) && s.received < |s.log| && |msg| < U32 && s.log[s.received] == Frame(p, |msg|, msg)
    requires |s.tasks| == PORTS
    ensures DeliveredOk(Deliver(s, p, msg))
  {
    var n := s.received;
    var fs := s.log[..n + 1];
    assert fs[..|fs| - 1] == s.log[..n] && fs[|fs| - 1] == s.log[n];
  }

  /** The message delivered on port p is the next frame of the log, whole, and that frame is for p. */
  ghost predicate Payload(s: Link, p: Port, msg: seq<Byte>) {
    s.received < |s.log| && Complete(s.log[s.received]) && s.log[s.received] == Frame(p, s.log[s.received].len, msg)
  }

  lemma RecvDoneKeeps(s: Link, ph: Phase, p: Port)
    requires InvAt(s, ph) && Enabled(s, RecvDone(p))
    ensures ph == Reading(p)
    ensures InvAt(Do(s, RecvDone(p)), if Do(s, RecvDone(p)).trigger then Armed else ph)
  {
    hide Flatten, Wire, Payloads;
    var t := s.tasks[p];
    var u := if t.single then s else s.(rxLen := s.rxLen - t.call);
    if t.single || u.rxLen == 0 {
      DeliverKeeps(u, p, t.msg);
    } else {
      assert Taken(Do(s, RecvDone(p)), ph) == Taken(s, ph);
    }
  }

  // ---- runs ----

  function PhaseAfter(s: Link, ph: Phase, e: Event): Phase
    requires Enabled(s, e)
  {
    match e
    case Fire => IsrStarted
    case IsrIn => if s.chan[0] < PORTS then PortRead(s.chan[0]) else ph
    case IsrSet => if ph.PortRead? then Signalled(ph.q) else ph
    case Wake(p, _) => Reading(p)
    case RecvDone(_) => if Do(s, e).trigger then Armed else ph
    case _ => ph
  }

  lemma StepKeeps(s: Link, ph: Phase, e: Event)
    requires InvAt(s, ph) && Enabled(s, e)
    ensures InvAt(Do(s, e), PhaseAfter(s, ph, e)) && Asserts(s, e)
  {
    match e
    case Send(port, msg) =>
      var f := Frame(port, |msg|, msg);
      AssertsHold(s, ph, e);
      hide InvAt, Wire;
      SendKeeps(s, ph, f, Single(Wire(f)), 0);
      UnlockedLen(s, ph);
    case SendLen(port, len) =>
      var f := Frame(port, len, []);
      AssertsHold(s, ph, e);
      assert Wire(f) == [port as Byte] + Word(len);
      hide InvAt, Wire;
      SendKeeps(s, ph, f, Header(Wire(f)), len);
    case SendData(chunk) => hide InvAt; SendDataKeeps(s, ph, chunk);
    case OutByte => hide InvAt; OutByteKeeps(s, ph);
    case SendDone => hide InvAt; SendDoneKeeps(s, ph);
    case Fire => hide InvAt; FireKeeps(s, ph);
    case IsrIn => hide InvAt; IsrInKeeps(s, ph);
    case IsrSet => hide InvAt; IsrSetKeeps(s, ph);
    case Wake(p, single) => hide InvAt; WakeKeeps(s, ph, p, single);
    case InByte(p) => hide InvAt; InByteKeeps(s, ph, p);
    case GotLen(p) => hide InvAt; GotLenKeeps(s, ph, p);
    case RecvData(p, want) => hide InvAt; RecvDataKeeps(s, ph, p, want);
    case RecvDone(p) => hide InvAt; RecvDoneKeeps(s, ph, p);
    case RecvTimeout(_) =>
  }

  lemma UnlockedLen(s: Link, ph: Phase)
    requires InvAt(s, ph) && s.tx.Unlocked?
    ensures s.txLen == 0
  {
  }

  /** The two length assertions of the driver never fire. */
  lemma AssertsHold(s: Link, ph: Phase, e: Event)
    requires InvAt(s, ph) && Enabled(s, e)
    ensures Asserts(s, e)
  {
    hide Flatten, Payloads, Wire;
  }

  ghost predicate Runs(s: Link, es: seq<Event>)
    decreases |es|
  {
    es == [] || (Enabled(s, es[0]) && Runs(Do(s, es[0]), es[1..]))
  }

  ghost function Exec(s: Link, es: seq<Event>): Link
    requires Runs(s, es)
    decreases |es|
  {
    if es == [] then s else Exec(Do(s, es[0]), es[1..])
  }

  lemma StartInv()
    ensures InvAt(Start(), Armed)
  {
  }

  lemma {:induction false} RunKeeps(s: Link, ph: Phase, es: seq<Event>) returns (last: Phase)
    requires InvAt(s, ph) && Runs(s, es)
    ensures InvAt(Exec(s, es), last)
    decreases |es|
  {
    hide InvAt;
    if es == [] {
      last := ph;
    } else {
      StepKeeps(s, ph, es[0]);
      last := RunKeeps(Do(s, es[0]), PhaseAfter(s, ph, es[0]), es[1..]);
    }
  }

  lemma {:induction false} PayloadsPrefix(fs: seq<Frame>, n: nat, p: nat)
    requires n <= |fs|
    ensures Payloads(fs[..n], p) <= Payloads(fs, p)
    decreases |fs|
  {
    if n == |fs| {
      assert fs[..n] == fs;
    } else {
      PayloadsPrefix(fs[..|fs| - 1], n, p);
      assert fs[..|fs| - 1][..n] == fs[..n];
    }
  }

  /** Over every interleaving of senders, the interrupt and receivers: what receive calls on a port have
    * returned is a prefix of the messages sent to that port, in the order in which their senders took
    * the mutex; each is whole; and the mutex is given back and the trigger turned on once per frame. */
  lemma DeliveredInOrder(es: seq<Event>, p: Port)
    requires Runs(Start(), es)
    ensures var s := Exec(Start(), es);
            && s.received <= |s.log| && |s.inbox| == PORTS
            && s.inbox[p] == Payloads(s.log[..s.received], p) <= Payloads(s.log, p)
            && (forall i :: 0 <= i < s.received ==> Complete(s.log[i]))
            && s.rearms == s.received && s.unlocks == |s.log| - (if s.tx.Unlocked? then 0 else 1)
  {
    StartInv();
    var s := Exec(Start(), es);
    var ph := RunKeeps(Start(), Armed, es);
    PayloadsPrefix(s.log, s.received, p);
  }

  /** Over every run, the receive side is in exactly one place: armed at a frame boundary, in the
    * interrupt handler, with one event bit set and the length word next, or with one task inside a
    * frame; and no assertion of the driver can fire. */
  lemma OnePlace(es: seq<Event>) returns (ph: Phase)
    requires Runs(Start(), es)
    ensures var s := Exec(Start(), es);
            && StreamOk(s, ph) && (forall other :: ShapeOk(s, other) ==> other == ph)
            && |s.events| <= 1
            && (forall e :: Enabled(s, e) ==> Asserts(s, e))
            && (s.isr.Entered? && s.chan != [] ==> s.received < |s.log| && s.chan[0] == s.log[s.received].port)
  {
    StartInv();
    var s := Exec(Start(), es);
    ph := RunKeeps(Start(), Armed, es);
    OnlyPlace(s, ph);
    if s.isr.Entered? && s.chan != [] { IsrInKeeps(s, ph); }
    forall e | Enabled(s, e)
      ensures Asserts(s, e)
    {
      AssertsHold(s, ph, e);
    }
    hide *;
  }

  lemma OnlyPlace(s: Link, ph: Phase)
    requires InvAt(s, ph)
    ensures StreamOk(s, ph) && (forall other :: ShapeOk(s, other) ==> other == ph) && |s.events| <= 1
  {
    forall other | ShapeOk(s, other)
      ensures other == ph
    {
      SamePlace(s, ph, other);
    }
  }

  lemma SamePlace(s: Link, a: Phase, b: Phase)
    requires ShapeOk(s, a) && ShapeOk(s, b)
    ensures a == b
  {
    if a.Signalled? && b.Signalled? {
      assert (a.q as Byte) in s.events;
    }
  }
}
