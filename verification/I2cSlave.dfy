/** The I2C slave driver: the I/O thread runs the bus callbacks, an interrupt turns the codes it sends into
  * event bits, and the application thread runs the user's callbacks and acknowledges each over the same
  * channel.  All three share one data buffer and its counters without a lock.
  *
  * The bus is any sequence of read and write addresses, data bytes and stops; an address without a stop
  * before it is a repeated start. */
module I2cSlave {
  import opened Arith

  const BUF_LEN: nat := 256

  type Byte = x: int | 0 <= x < 256

  datatype Code = RX | TX_START | TX_DONE

  /** What the transfer in progress is. */
  datatype Bus = NoTransfer | Reading | Writing

  /** The bus callback that runs the completion check. */
  datatype Next = ToRead | ToWrite | ToStop

  /** The I/O thread: ready for the bus; at the two parts of the completion check; waiting for the
    * completed callback; past the check; waiting for the transmit callback. */
  datatype IoPc = Ready(bus: Bus) | Drain(next: Next) | Check(next: Next) | AwaitDone(next: Next) | After(next: Next)
                | AwaitStart

  /** The application thread: blocked, with event flags to handle, inside a user callback with the flags
    * still to handle, or past the state update that follows it. */
  datatype AppPc = Blocked | Handling(flags: set<Code>) | InRx(flags: set<Code>) | InStart(flags: set<Code>)
                 | InDone(flags: set<Code>) | Cleared(flags: set<Code>)

  datatype Isr = NoCode | HasCode(code: Code)

  /** Where transmit data comes from: nowhere, the driver's buffer, or a buffer of the application. */
  datatype Ptr = Null | Shared | Own(bytes: seq<Byte>)

  datatype Callback = RxCall(bytes: seq<Byte>) | StartCall | DoneCall(count: nat)

  /** Not in the driver: `sent`, all bytes of the write in progress; `served`, the bytes given out in the
    * read in progress; `offered`, what the transmit callback provided; `calls`, the user callbacks made;
    * `owed`, the ones the bus has called for. */
  datatype Slave = Slave(hasDone: bool, io: IoPc, waiting: bool, toIsr: seq<Code>, isr: Isr, events: set<Code>,
                         app: AppPc, acks: nat, buf: seq<Byte>, rxI: nat, txPtr: Ptr, txLen: nat, txI: nat, txSent: nat,
                         sent: seq<Byte>, served: seq<Byte>, offered: seq<Byte>,
                          calls: seq<Callback>, owed: seq<Callback>)

  datatype Event =
    | BusRead | BusWrite | BusStop | BusIn(b: Byte) | BusOut
    | IoDrain | IoCheck | IoDone | IoAfter | IoStarted
    | IsrIn | IsrSet
    | AppGet | AppRx | AppRxEnd | AppStart | AppStartEnd(ptr: Ptr, len: nat) | AppDone | AppDoneEnd | AppAck | AppLoop
    | AppWrites(buf: seq<Byte>)   // a user callback writes to the driver's buffer

  function Content(p: Ptr, buf: seq<Byte>): seq<Byte> {
    match p
    case Null => []
    case Shared => buf
    case Own(b) => b
  }

  predicate InCallback(a: AppPc) { a.InRx? || a.InStart? || a.InDone? }

  predicate Enabled(s: Slave, e: Event) {
    match e
    case BusRead => s.io.Ready?
    case BusWrite => s.io.Ready?
    case BusStop => s.io.Ready?
    case BusIn(_) => s.io == Ready(Writing)
    case BusOut => s.io == Ready(Reading)
    case IoDrain => s.io.Drain? && (s.waiting ==> s.acks > 0)
    case IoCheck => s.io.Check?
    case IoDone => s.io.AwaitDone? && s.acks > 0
    case IoAfter => s.io.After?
    case IoStarted => s.io.AwaitStart? && s.acks > 0
    case IsrIn => s.isr.NoCode? && s.toIsr != []
    case IsrSet => s.isr.HasCode?
    case AppGet => s.app.Blocked? && s.events != {}
    case AppRx => s.app.Handling? && RX in s.app.flags
    case AppRxEnd => s.app.InRx?
    case AppStart => s.app.Handling? && RX !in s.app.flags && TX_START in s.app.flags
    case AppStartEnd(ptr, len) => s.app.InStart? && (!ptr.Null? ==> len <= |Content(ptr, s.buf)|)
    case AppDone => s.app.Handling? && RX !in s.app.flags && TX_START !in s.app.flags && TX_DONE in s.app.flags
    case AppDoneEnd => s.app.InDone?
    case AppAck => s.app.Cleared?
    case AppLoop => s.app == Handling({})
    case AppWrites(b) => InCallback(s.app) && |b| == |s.buf|
  }

  function Min(a: nat, b: nat): nat { if a <= b then a else b }

  /** The callbacks that the end of the transfer in progress calls for: the bytes of a write that fit in
    * the buffer, and the number of bytes of a read that were served. */
  function Ended(s: Slave): seq<Callback> {
    (if s.sent == [] then [] else [RxCall(s.sent[..Min(|s.sent|, BUF_LEN)])])
    + (if s.served == [] || !s.hasDone then [] else [DoneCall(|s.served|)])
  }

  function EndTransfer(s: Slave, next: Next): Slave {
    s.(io := Drain(next), owed := s.owed + Ended(s) + (if next.ToRead? then [StartCall] else []),
       sent := [], served := [])
  }

  function TxClear(s: Slave): Slave { s.(txPtr := Null, txLen := 0, txI := 0, txSent := 0) }

  function DoCheck(s: Slave): Slave
    requires s.io.Check?
  {
    var next := s.io.next;
    if s.txSent > 0 then
      if s.hasDone then Post(s, TX_DONE) else TxClear(s).(io := After(next))
    else if s.rxI > 0 then Post(s, RX)
    else s.(io := After(next))
  }

  /** A completed transfer: its code goes out, and only a stop does not wait for the callback. */
  function Post(s: Slave, c: Code): Slave
    requires s.io.Check?
  {
    var next := s.io.next;
    s.(toIsr := s.toIsr + [c], io := if next.ToStop? then After(next) else AwaitDone(next), waiting := next.ToStop?)
  }

  function DoBusOut(s: Slave): Slave {
    var c := Content(s.txPtr, s.buf);
    if s.txLen > 0 && !s.txPtr.Null? && s.txI < |c| then
      s.(served := s.served + [c[s.txI]], txI := if s.txI + 1 == s.txLen then 0 else s.txI + 1, txSent := s.txSent + 1)
    else s
  }

  function Do(s: Slave, e: Event): Slave
    requires Enabled(s, e)
  {
    match e
    case BusRead => EndTransfer(s, ToRead)
    case BusWrite => EndTransfer(s, ToWrite)
    case BusStop => EndTransfer(s, ToStop)
    case BusIn(b) =>
      s.(sent := s.sent + [b],
         buf := if s.rxI < BUF_LEN && s.rxI < |s.buf| then s.buf[s.rxI := b] else s.buf,
         rxI := if s.rxI < BUF_LEN then s.rxI + 1 else s.rxI)
    case BusOut => DoBusOut(s)
    case IoDrain =>
      if s.waiting then s.(acks := s.acks - 1, waiting := false, io := Check(s.io.next)) else s.(io := Check(s.io.next))
    case IoCheck => DoCheck(s)
    case IoDone => s.(acks := s.acks - 1, io := After(s.io.next))
    case IoAfter =>
      (match s.io.next
       case ToRead => s.(txPtr := Shared, toIsr := s.toIsr + [TX_START], io := AwaitStart)
       case ToWrite => s.(rxI := 0, io := Ready(Writing))
       case ToStop => s.(io := Ready(NoTransfer)))
    case IoStarted => s.(acks := s.acks - 1, txI := 0, txSent := 0, io := Ready(Reading))
    case IsrIn => s.(isr := HasCode(s.toIsr[0]), toIsr := s.toIsr[1..])
    case IsrSet => s.(isr := NoCode, events := s.events + {s.isr.code})
    case AppGet => s.(app := Handling(s.events), events := {})
    case AppRx =>
      s.(app := InRx(s.app.flags - {RX}), calls := s.calls + [RxCall(if s.rxI <= |s.buf| then s.buf[..s.rxI] else [])])
    case AppRxEnd => s.(app := Cleared(s.app.flags), rxI := 0)
    case AppStart => s.(app := InStart(s.app.flags - {TX_START}), calls := s.calls + [StartCall])
    case AppStartEnd(ptr, len) =>
      s.(app := Cleared(s.app.flags), txPtr := ptr, txLen := len,
         offered := if ptr.Null? then [] else Content(ptr, s.buf)[..len])
    case AppDone => s.(app := InDone(s.app.flags - {TX_DONE}), calls := s.calls + [DoneCall(s.txSent)])
    case AppDoneEnd => TxClear(s).(app := Cleared(s.app.flags))
    case AppAck => s.(app := Handling(s.app.flags), acks := s.acks + 1)
    case AppLoop => s.(app := Blocked)
    case AppWrites(b) => s.(buf := b)
  }

  function Start(hasDone: bool, buf: seq<Byte>): Slave {
    Slave(hasDone, Ready(NoTransfer), false, [], NoCode, {}, Blocked, 0, buf, 0, Null, 0, 0, 0, [], [], [], [], [])
  }

  // ---- the invariant ----

  /** Where the one outstanding callback code is. */
  datatype Token = Free | ToIsr(c: Code) | AtIsr(c: Code) | Event(c: Code) | AtApp(c: Code) | Running(c: Code)
                 | Done(c: Code) | Acked(c: Code)

  ghost predicate AppAt(a: AppPc, t: Token) {
    match t
    case AtApp(c) => a == Handling({c})
    case Running(c) => a == (match c case RX => InRx({}) case TX_START => InStart({}) case TX_DONE => InDone({}))
    case Done(_) => a == Cleared({})
    case _ => a == Handling({}) || a == Blocked
  }

  /** The code is in one place and nowhere else. */
  ghost predicate TokenAt(s: Slave, t: Token) {
    && s.toIsr == (if t.ToIsr? then [t.c] else [])
    && s.isr == (if t.AtIsr? then HasCode(t.c) else NoCode)
    && s.events == (if t.Event? then {t.c} else {})
    && s.acks == (if t.Acked? then 1 else 0)
    && AppAt(s.app, t)
  }

  /** A code is outstanding exactly when the I/O thread has yet to see its acknowledgement. */
  ghost predicate IoAt(s: Slave, t: Token) {
    && (s.waiting ==> s.io.Drain? || s.io == Ready(NoTransfer) || s.io == After(ToStop))
    && (s.io.AwaitDone? ==> !s.io.next.ToStop?)
    && (t.Free? <==> !s.waiting && !s.io.AwaitDone? && !s.io.AwaitStart?)
    && (!t.Free? ==> (t.c.TX_START? <==> s.io.AwaitStart?))
  }

  /** The callback for the code has not finished. */
  ghost predicate Open(t: Token, c: Code) {
    !t.Free? && !t.Done? && !t.Acked? && t.c == c
  }

  ghost predicate Counters(s: Slave, t: Token) {
    && |s.buf| == BUF_LEN && s.rxI <= BUF_LEN
    && ((t.Done? || t.Acked?) && t.c.TX_START? ==> OfferedOk(s))
    && (s.sent != [] ==> s.io == Ready(Writing)) && (s.served != [] ==> s.io == Ready(Reading))
    && if Open(t, RX) then s.rxI > 0 && s.txSent == 0
       else if Open(t, TX_DONE) then s.txSent > 0 && s.rxI == 0 && s.hasDone
       else match s.io
         case Ready(bus) =>
           && (if bus.Writing? then s.rxI == Min(|s.sent|, BUF_LEN) && s.buf[..s.rxI] == s.sent[..s.rxI]
               else s.rxI == 0)
           && (if bus.Reading? then ServedOk(s) else s.txSent == 0)
         case Drain(_) => (s.rxI == 0 && s.txSent == 0) || (!s.waiting && (s.rxI == 0 || s.txSent == 0))
         case Check(_) => s.rxI == 0 || s.txSent == 0
         case _ => s.rxI == 0 && s.txSent == 0
  }

  /** What the transmit callback provided is still where it said. */
  ghost predicate OfferedOk(s: Slave) {
    if s.txPtr.Null? then s.offered == []
    else s.txLen <= |Content(s.txPtr, s.buf)| && s.offered == Content(s.txPtr, s.buf)[..s.txLen]
  }

  /** Every byte of the read was the next of what was offered, over and over. */
  ghost predicate ServedOk(s: Slave) {
    && s.txSent == |s.served| && OfferedOk(s)
    && (s.txPtr.Null? || s.txLen == 0 ==> s.served == [])
    && (!s.txPtr.Null? && s.txLen > 0 ==>
          && s.txI == s.txSent % s.txLen
          && forall k {:trigger s.served[k]} :: 0 <= k < |s.served| ==> s.served[k] == s.offered[k % s.txLen])
  }

  ghost function CallFor(s: Slave, c: Code): Callback {
    match c
    case RX => RxCall(if s.rxI <= |s.buf| then s.buf[..s.rxI] else [])
    case TX_START => StartCall
    case TX_DONE => DoneCall(s.txSent)
  }

  /** Callbacks called for and not yet made: the outstanding code's, then the ones the I/O thread has yet
    * to send a code for. */
  ghost function Coming(s: Slave, t: Token): seq<Callback> {
    (if t.ToIsr? || t.AtIsr? || t.Event? || t.AtApp? then [CallFor(s, t.c)] else [])
    + (if (s.io.Drain? && !s.waiting) || s.io.Check? then Completed(s) else [])
    + (if (s.io.Drain? || s.io.Check? || s.io.AwaitDone? || s.io.After?) && s.io.next.ToRead? then [StartCall] else [])
  }

  ghost function Completed(s: Slave): seq<Callback> {
    if s.txSent > 0 then if s.hasDone then [DoneCall(s.txSent)] else []
    else if s.rxI > 0 then [CallFor(s, RX)] else []
  }

  ghost predicate InvAt(s: Slave, t: Token) {
    TokenAt(s, t) && IoAt(s, t) && Counters(s, t) && s.owed == s.calls + Coming(s, t)
  }

  function TokenAfter(s: Slave, t: Token, e: Event): Token
    requires Enabled(s, e)
  {
    match e
    case IoDrain => if s.waiting then Free else t
    case IoCheck => if Do(s, e).toIsr != s.toIsr then ToIsr(if s.txSent > 0 then TX_DONE else RX) else t
    case IoDone => Free
    case IoAfter => if s.io.next.ToRead? then ToIsr(TX_START) else t
    case IoStarted => Free
    case IsrIn => AtIsr(s.toIsr[0])
    case IsrSet => Event(s.isr.code)
    case AppGet => if t.Event? then AtApp(t.c) else t
    case AppRx => Running(RX)
    case AppRxEnd => Done(RX)
    case AppStart => Running(TX_START)
    case AppStartEnd(_, _) => Done(TX_START)
    case AppDone => Running(TX_DONE)
    case AppDoneEnd => Done(TX_DONE)
    case AppAck => if t.Done? then Acked(t.c) else t
    case _ => t
  }

  // ---- every step keeps it ----

  lemma EndTransferKeeps(s: Slave, t: Token, next: Next)
    requires InvAt(s, t) && s.io.Ready?
    ensures InvAt(EndTransfer(s, next), t)
  {
    hide Counters, Coming, TokenAt, Ended;
    SameToken(s, EndTransfer(s, next), t);
    EndCounters(s, t, next);
    EndOwes(s, t, next);
  }

  lemma SameToken(s: Slave, u: Slave, t: Token)
    requires TokenAt(s, t)
    requires u.toIsr == s.toIsr && u.isr == s.isr && u.events == s.events && u.acks == s.acks && u.app == s.app
    ensures TokenAt(u, t)
  {
  }

  lemma EndCounters(s: Slave, t: Token, next: Next)
    requires IoAt(s, t) && Counters(s, t) && s.io.Ready?
    ensures Counters(EndTransfer(s, next), t)
  {
    hide OfferedOk;
  }

  /** What the end of the transfer calls for is what the counters say is completed. */
  lemma EndOwes(s: Slave, t: Token, next: Next)
    requires IoAt(s, t) && Counters(s, t) && s.io.Ready? && s.owed == s.calls + Coming(s, t)
    ensures EndTransfer(s, next).owed == s.calls + Coming(EndTransfer(s, next), t)
  {
    hide OfferedOk;
    var u := EndTransfer(s, next);
    var start: seq<Callback> := if next.ToRead? then [StartCall] else [];
    if s.waiting {
      assert Ended(s) == [];
    } else {
      assert Coming(s, t) == [] && Completed(u) == Ended(s);
    }
    assert Coming(u, t) == Coming(s, t) + Ended(s) + start;
  }

  lemma BusInKeeps(s: Slave, t: Token, b: Byte)
    requires InvAt(s, t) && Enabled(s, BusIn(b))
    ensures t.Free? && InvAt(Do(s, BusIn(b)), t)
  {
  }

  lemma BusOutKeeps(s: Slave, t: Token)
    requires InvAt(s, t) && Enabled(s, BusOut)
    ensures t.Free? && InvAt(Do(s, BusOut), t)
  {
    if s.txLen > 0 && !s.txPtr.Null? {
      NextMod(s.txSent, s.txLen);
      DivMod(s.txSent, s.txLen);
    }
  }

  lemma IoCheckKeeps(s: Slave, t: Token, e: Event)
    requires InvAt(s, t) && Enabled(s, e) && (e.IoDrain? || e.IoCheck?)
    ensures InvAt(Do(s, e), TokenAfter(s, t, e))
  {
  }

  lemma IoKeeps(s: Slave, t: Token, e: Event)
    requires InvAt(s, t) && Enabled(s, e) && (e.IoDone? || e.IoAfter? || e.IoStarted?)
    ensures InvAt(Do(s, e), TokenAfter(s, t, e))
  {
  }

  lemma IsrKeeps(s: Slave, t: Token, e: Event)
    requires InvAt(s, t) && Enabled(s, e) && (e.IsrIn? || e.IsrSet?)
    ensures InvAt(Do(s, e), TokenAfter(s, t, e))
  {
  }

  lemma AppCallKeeps(s: Slave, t: Token, e: Event)
    requires InvAt(s, t) && Enabled(s, e) && (e.AppRx? || e.AppStart? || e.AppDone?)
    ensures InvAt(Do(s, e), TokenAfter(s, t, e))
  {
  }

  lemma AppKeeps(s: Slave, t: Token, e: Event)
    requires InvAt(s, t) && Enabled(s, e) && (e.AppGet? || e.AppAck? || e.AppLoop?)
    ensures InvAt(Do(s, e), TokenAfter(s, t, e))
  {
  }

  lemma CallbackKeeps(s: Slave, t: Token, e: Event)
    requires InvAt(s, t) && Enabled(s, e) && (e.AppRxEnd? || e.AppStartEnd? || e.AppDoneEnd? || e.AppWrites?)
    ensures InvAt(Do(s, e), TokenAfter(s, t, e))
  {
  }

  lemma StepKeeps(s: Slave, t: Token, e: Event)
    requires InvAt(s, t) && Enabled(s, e)
    ensures InvAt(Do(s, e), TokenAfter(s, t, e))
  {
    hide InvAt;
    match e
    case BusRead => EndTransferKeeps(s, t, ToRead);
    case BusWrite => EndTransferKeeps(s, t, ToWrite);
    case BusStop => EndTransferKeeps(s, t, ToStop);
    case BusIn(b) => BusInKeeps(s, t, b);
    case BusOut => BusOutKeeps(s, t);
    case IoDrain => IoCheckKeeps(s, t, e);
    case IoCheck => IoCheckKeeps(s, t, e);
    case IoDone => IoKeeps(s, t, e);
    case IoAfter => IoKeeps(s, t, e);
    case IoStarted => IoKeeps(s, t, e);
    case IsrIn => IsrKeeps(s, t, e);
    case IsrSet => IsrKeeps(s, t, e);
    case AppRx => AppCallKeeps(s, t, e);
    case AppStart => AppCallKeeps(s, t, e);
    case AppDone => AppCallKeeps(s, t, e);
    case AppRxEnd => CallbackKeeps(s, t, e);
    case AppStartEnd(_, _) => CallbackKeeps(s, t, e);
    case AppDoneEnd => CallbackKeeps(s, t, e);
    case AppWrites(_) => CallbackKeeps(s, t, e);
    case _ => AppKeeps(s, t, e);
  }

  // ---- runs ----

  ghost predicate Runs(s: Slave, es: seq<Event>)
    decreases |es|
  {
    es == [] || (Enabled(s, es[0]) && Runs(Do(s, es[0]), es[1..]))
  }

  ghost function Exec(s: Slave, es: seq<Event>): Slave
    requires Runs(s, es)
    decreases |es|
  {
    if es == [] then s else Exec(Do(s, es[0]), es[1..])
  }

  lemma {:induction false} RunKeeps(s: Slave, t: Token, es: seq<Event>) returns (last: Token)
    requires InvAt(s, t) && Runs(s, es)
    ensures InvAt(Exec(s, es), last)
    decreases |es|
  {
    hide InvAt;
    if es == [] {
      last := t;
    } else {
      StepKeeps(s, t, es[0]);
      last := RunKeeps(Do(s, es[0]), TokenAfter(s, t, es[0]), es[1..]);
    }
  }

  lemma StartInv(hasDone: bool, buf: seq<Byte>)
    requires |buf| == BUF_LEN
    ensures InvAt(Start(hasDone, buf), Free)
  {
  }

  /** Over every interleaving of the bus, the interrupt and the application: at most one callback code is
    * outstanding; the receive and transmit counters are never both positive; and while the application
    * is in a user callback no data byte of the bus is handled, so the buffer is never shared. */
  lemma NoConflict(hasDone: bool, buf: seq<Byte>, es: seq<Event>)
    requires |buf| == BUF_LEN && Runs(Start(hasDone, buf), es)
    ensures var s := Exec(Start(hasDone, buf), es);
            && |s.toIsr| + (if s.isr.HasCode? then 1 else 0) + |s.events| + Flags(s.app) + s.acks <= 1
            && (s.rxI == 0 || s.txSent == 0)
            && (InCallback(s.app) ==> !Enabled(s, BusOut) && !exists b :: Enabled(s, BusIn(b)))
  {
    StartInv(hasDone, buf);
    var s := Exec(Start(hasDone, buf), es);
    var t := RunKeeps(Start(hasDone, buf), Free, es);
  }

  /** The codes the application thread holds: flags to handle, and one it is handling. */
  ghost function Flags(a: AppPc): nat {
    match a
    case Blocked => 0
    case Handling(flags) => |flags|
    case InRx(flags) => 1 + |flags|
    case InStart(flags) => 1 + |flags|
    case InDone(flags) => 1 + |flags|
    case Cleared(flags) => 1 + |flags|
  }

  /** Over every run: the user callbacks made are, in order, the ones the bus called for, one receive
    * callback per non-empty write with its first bytes, one start per read address, and one done callback
    * per served read with its true count.  At most two are still to come, and none once the I/O thread
    * is ready and has seen every acknowledgement. */
  lemma CallbacksInOrder(hasDone: bool, buf: seq<Byte>, es: seq<Event>)
    requires |buf| == BUF_LEN && Runs(Start(hasDone, buf), es)
    ensures var s := Exec(Start(hasDone, buf), es);
            && s.calls <= s.owed && |s.owed| <= |s.calls| + 2
            && (s.io.Ready? && !s.waiting ==> s.calls == s.owed)
            && (s.io == Ready(Writing) ==> s.rxI <= |s.buf| && s.buf[..s.rxI] == s.sent[..Min(|s.sent|, BUF_LEN)])
  {
    StartInv(hasDone, buf);
    var s := Exec(Start(hasDone, buf), es);
    var t := RunKeeps(Start(hasDone, buf), Free, es);
  }

  /** Over every run: in a read, byte k that the master gets is byte k of what the transmit callback
    * offered, repeated from the start as often as needed. */
  lemma ReadServesOffered(hasDone: bool, buf: seq<Byte>, es: seq<Event>)
    requires |buf| == BUF_LEN && Runs(Start(hasDone, buf), es)
    ensures var s := Exec(Start(hasDone, buf), es);
            s.io == Ready(Reading) ==>
              && s.txSent == |s.served| && (s.served != [] ==> s.offered != [])
              && forall k {:trigger s.served[k]} :: 0 <= k < |s.served| ==> s.served[k] == s.offered[k % |s.offered|]
  {
    StartInv(hasDone, buf);
    var s := Exec(Start(hasDone, buf), es);
    var t := RunKeeps(Start(hasDone, buf), Free, es);
  }

  /** A read is acknowledged, and its bytes served, exactly when something was offered. */
  lemma ServedWhenOffered(s: Slave, t: Token)
    requires InvAt(s, t) && Enabled(s, BusOut)
    ensures Do(s, BusOut).served ==
            if s.offered != [] then s.served + [s.offered[|s.served| % |s.offered|]] else s.served
  {
    if s.txLen > 0 { DivMod(s.txSent, s.txLen); }
  }

  // ---- progress ----

  /** Events of the I/O thread, the interrupt and the application, with no bus event among them. */
  predicate Own(e: Event) {
    !e.BusRead? && !e.BusWrite? && !e.BusStop? && !e.BusIn? && !e.BusOut? && !e.AppWrites?
  }

  /** The I/O thread is ready for the bus, the application waits for events, no code is on its way, every
    * callback called for has been made, and the next address need not wait for an acknowledgement. */
  ghost predicate Settled(s: Slave) {
    && s.io.Ready? && s.app.Blocked? && s.toIsr == [] && s.isr.NoCode? && s.events == {} && s.calls == s.owed
    && (s.waiting ==> s.acks > 0)
  }

  function IoRank(io: IoPc): nat {
    match io
    case Drain(_) => 5
    case Check(_) => 4
    case AwaitDone(_) => 3
    case After(_) => 2
    case AwaitStart => 1
    case Ready(_) => 0
  }

  function TokenRank(t: Token): nat {
    match t
    case ToIsr(_) => 8
    case AtIsr(_) => 7
    case Event(_) => 6
    case AtApp(_) => 5
    case Running(_) => 4
    case Done(_) => 3
    case Acked(_) => 1
    case Free => 0
  }

  function Rank(s: Slave, t: Token): nat {
    10 * IoRank(s.io) + TokenRank(t) + if s.app == Handling({}) then 1 else 0
  }

  /** The next step of the callback code that is outstanding. */
  function TokenStep(s: Slave, t: Token): Event
    requires !t.Free? && !t.Acked?
  {
    match t
    case ToIsr(_) => IsrIn
    case AtIsr(_) => IsrSet
    case Event(_) => if s.app.Blocked? then AppGet else AppLoop
    case AtApp(c) => (match c case RX => AppRx case TX_START => AppStart case TX_DONE => AppDone)
    case Running(c) => (match c case RX => AppRxEnd case TX_START => AppStartEnd(Null, 0) case TX_DONE => AppDoneEnd)
    case Done(_) => AppAck
  }

  /** The next step of the I/O thread, or of the application once the I/O thread is ready. */
  function IoStep(s: Slave): Event {
    match s.io
    case Drain(_) => IoDrain
    case Check(_) => IoCheck
    case AwaitDone(_) => IoDone
    case After(_) => IoAfter
    case AwaitStart => IoStarted
    case Ready(_) => AppLoop
  }

  /** Until all is settled some step of the driver itself is possible, and brings it nearer. */
  lemma Proceeds(s: Slave, t: Token) returns (e: Event)
    requires InvAt(s, t) && !Settled(s)
    ensures Own(e) && Enabled(s, e) && Rank(Do(s, e), TokenAfter(s, t, e)) < Rank(s, t)
  {
    if t.Free? || t.Acked? {
      e := IoStep(s);
      IoProceeds(s, t);
    } else {
      e := TokenStep(s, t);
      TokenProceeds(s, t);
    }
  }

  lemma TokenProceeds(s: Slave, t: Token)
    requires InvAt(s, t) && !t.Free? && !t.Acked?
    ensures var e := TokenStep(s, t);
            Own(e) && Enabled(s, e) && Rank(Do(s, e), TokenAfter(s, t, e)) < Rank(s, t)
  {
    hide Counters, Coming;
  }

  lemma IoProceeds(s: Slave, t: Token)
    requires InvAt(s, t) && !Settled(s) && (t.Free? || t.Acked?)
    ensures var e := IoStep(s);
            Own(e) && Enabled(s, e) && Rank(Do(s, e), TokenAfter(s, t, e)) < Rank(s, t)
  {
    hide Counters;
  }

  /** From every state the driver can settle by its own steps. */
  lemma {:induction false} Settles(s: Slave, t: Token) returns (es: seq<Event>)
    requires InvAt(s, t)
    ensures Runs(s, es) && (forall e :: e in es ==> Own(e)) && Settled(Exec(s, es))
    decreases Rank(s, t)
  {
    hide InvAt, Settled, Rank, Enabled, Do;
    if Settled(s) {
      es := [];
    } else {
      var e := Proceeds(s, t);
      StepKeeps(s, t, e);
      var fs := Settles(Do(s, e), TokenAfter(s, t, e));
      es := [e] + fs;
      assert es[1..] == fs;
    }
  }

  /** Over every run: whatever the bus has done, the driver can go on by its own steps until it is ready for the
    * bus again and every callback the bus called for has been made; no callback code gets stuck. */
  lemma CallbacksAreMade(hasDone: bool, buf: seq<Byte>, es: seq<Event>) returns (fs: seq<Event>)
    requires |buf| == BUF_LEN && Runs(Start(hasDone, buf), es)
    ensures var s := Exec(Start(hasDone, buf), es);
            && Runs(s, fs) && (forall e :: e in fs ==> Own(e))
            && var t := Exec(s, fs); Settled(t) && t.owed == s.owed && t.calls == s.owed
  {
    StartInv(hasDone, buf);
    var s := Exec(Start(hasDone, buf), es);
    var t := RunKeeps(Start(hasDone, buf), Free, es);
    fs := Settles(s, t);
    OwesTheSame(s, fs);
  }

  /** Only the bus calls for callbacks. */
  lemma {:induction false} OwesTheSame(s: Slave, es: seq<Event>)
    requires Runs(s, es) && forall e :: e in es ==> Own(e)
    ensures Exec(s, es).owed == s.owed
    decreases |es|
  {
    if es != [] {
      assert Own(es[0]) && Do(s, es[0]).owed == s.owed;
      hide Do, Enabled;
      OwesTheSame(Do(s, es[0]), es[1..]);
    }
  }
}
