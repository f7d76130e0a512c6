/** A message sent or received in pieces: the same frame, the same message, one release of the mutex and
  * one re-arming of the trigger, as with a single call; and what a timed-out length call returns. */
module IntertileSplit {
  import opened Intertile

  // ---- building runs ----

  lemma {:induction false} RunsConcat(s: Link, es: seq<Event>, fs: seq<Event>)
    requires Runs(s, es) && Runs(Exec(s, es), fs)
    ensures Runs(s, es + fs) && Exec(s, es + fs) == Exec(Exec(s, es), fs)
    decreases |es|
  {
    hide Enabled, Do;
    if es == [] {
      assert es + fs == fs;
    } else {
      assert (es + fs)[0] == es[0] && (es + fs)[1..] == es[1..] + fs;
      RunsConcat(Do(s, es[0]), es[1..], fs);
    }
  }

  /** Executes one more event at the end of a run. */
  lemma Then(s: Link, es: seq<Event>, e: Event) returns (fs: seq<Event>)
    requires Runs(s, es) && Enabled(Exec(s, es), e)
    ensures Runs(s, fs) && Exec(s, fs) == Do(Exec(s, es), e)
  {
    var t := Exec(s, es);
    assert [e][1..] == [];
    assert Runs(t, [e]) && Exec(t, [e]) == Do(t, e);
    RunsConcat(s, es, [e]);
    fs := es + [e];
  }

  // ---- sending in pieces ----

  /** Any way of cutting a message into consecutive pieces of which no earlier one completes it. */
  ghost predicate Pieces(cs: seq<seq<Byte>>, msg: seq<Byte>)
    decreases |cs|
  {
    cs != [] && (if |cs| == 1 then cs[0] == msg
                 else cs[0] < msg && Pieces(cs[1..], msg[|cs[0]|..]))
  }

  /** The call in progress puts its remaining bytes into the channel. */
  ghost function Drained(s: Link): Link {
    s.(chan := s.chan + Rest(s.tx), tx := SetRest(s.tx, []))
  }

  /** One whole call of a sender: it starts, drains and returns. */
  ghost function Call(s: Link, e: Event): Link
    requires Enabled(s, e)
  {
    DoSendDone(Drained(Do(s, e)))
  }

  /** The state after a sender's calls, one after the other. */
  ghost function Calls(s: Link, calls: seq<Event>): Link
    requires Callable(s, calls)
    decreases |calls|
  {
    if calls == [] then s else Calls(Call(s, calls[0]), calls[1..])
  }

  ghost predicate Callable(s: Link, calls: seq<Event>)
    decreases |calls|
  {
    calls == [] || ((calls[0].Send? || calls[0].SendLen? || calls[0].SendData?) && Enabled(s, calls[0])
                    && Callable(Call(s, calls[0]), calls[1..]))
  }

  lemma {:induction false} Drain(s: Link, es: seq<Event>, t: Link) returns (fs: seq<Event>)
    requires Runs(s, es) && Exec(s, es) == t
    ensures Runs(s, fs) && Exec(s, fs) == Drained(t)
    decreases |Rest(t.tx)|
  {
    var r := Rest(t.tx);
    if r == [] {
      assert t.chan + r == t.chan;
      fs := es;
    } else {
      var u := Do(t, OutByte);
      fs := Then(s, es, OutByte);
      fs := Drain(s, fs, u);
      assert t.chan + [r[0]] + r[1..] == t.chan + r;
    }
  }

  /** A sequence of calls is a run of the link, byte by byte. */
  lemma {:induction false} CallsRun(s: Link, es: seq<Event>, t: Link, calls: seq<Event>) returns (fs: seq<Event>)
    requires Runs(s, es) && Exec(s, es) == t && Callable(t, calls)
    ensures Runs(s, fs) && Exec(s, fs) == Calls(t, calls)
    decreases |calls|
  {
    hide Runs, Exec;
    if calls == [] {
      fs := es;
    } else {
      fs := CallRun(s, es, t, calls[0]);
      fs := CallsRun(s, fs, Call(t, calls[0]), calls[1..]);
    }
  }

  lemma CallRun(s: Link, es: seq<Event>, t: Link, e: Event) returns (fs: seq<Event>)
    requires Runs(s, es) && Exec(s, es) == t && (e.Send? || e.SendLen? || e.SendData?) && Enabled(t, e)
    ensures Runs(s, fs) && Exec(s, fs) == Call(t, e)
  {
    hide Runs, Exec;
    fs := Then(s, es, e);
    fs := Drain(s, fs, Do(t, e));
    fs := Then(s, fs, SendDone);
  }

  ghost function DataCalls(cs: seq<seq<Byte>>): seq<Event> {
    if cs == [] then [] else [SendData(cs[0])] + DataCalls(cs[1..])
  }

  /** The link after a sender has sent one whole frame. */
  ghost function Sent(s: Link, f: Frame): Link {
    s.(chan := s.chan + Wire(f), log := s.log + [f], unlocks := s.unlocks + 1)
  }

  /** The state after the data calls that carry the rest of a message. */
  ghost function Finished(s: Link, msg: seq<Byte>): Link {
    s.(chan := s.chan + msg, tx := Unlocked, txLen := 0, log := ExtendLast(s.log, msg), unlocks := s.unlocks + 1)
  }

  lemma DataCall(s: Link, c: seq<Byte>)
    requires s.tx.Between? && s.txLen >= |c|
    ensures Enabled(s, SendData(c))
    ensures Call(s, SendData(c)) ==
            if s.txLen == |c| then Finished(s, c)
            else s.(chan := s.chan + c, txLen := s.txLen - |c|, log := ExtendLast(s.log, c))
  {
    assert c[..|c|] == c;
  }

  lemma FirstCall(s: Link, e: Event, calls: seq<Event>)
    requires (e.Send? || e.SendLen? || e.SendData?) && Enabled(s, e) && Callable(Call(s, e), calls)
    ensures Callable(s, [e] + calls) && Calls(s, [e] + calls) == Calls(Call(s, e), calls)
  {
    hide Call, Enabled, Do;
    assert ([e] + calls)[1..] == calls;
  }

  lemma {:induction false} DataCallsFinish(s: Link, cs: seq<seq<Byte>>, msg: seq<Byte>)
    requires s.tx.Between? && s.txLen == |msg| && Pieces(cs, msg)
    ensures Callable(s, DataCalls(cs)) && Calls(s, DataCalls(cs)) == Finished(s, msg)
    decreases |cs|
  {
    var c := cs[0];
    DataCall(s, c);
    hide Call, Enabled, Do;
    if |cs| == 1 {
      FirstCall(s, SendData(c), []);
      assert DataCalls(cs[1..]) == [];
    } else {
      var t, rest := Call(s, SendData(c)), msg[|c|..];
      DataCallsFinish(t, cs[1..], rest);
      FirstCall(s, SendData(c), DataCalls(cs[1..]));
      FinishTwice(s, c, rest);
      assert c + rest == msg;
    }
  }

  lemma FinishTwice(s: Link, c: seq<Byte>, rest: seq<Byte>)
    ensures Finished(s.(chan := s.chan + c, txLen := |rest|, log := ExtendLast(s.log, c)), rest) ==
            Finished(s, c + rest)
  {
    assert s.chan + c + rest == s.chan + (c + rest);
    ExtendTwice(s.log, c, rest);
  }

  lemma ExtendTwice(log: seq<Frame>, c: seq<Byte>, d: seq<Byte>)
    ensures ExtendLast(ExtendLast(log, c), d) == ExtendLast(log, c + d)
  {
    if log != [] {
      var data := Last(log).data;
      assert (data + c) + d == data + (c + d);
    }
  }

  /** Sending a message in any pieces leaves the link exactly as sending it with one call does: the same
    * bytes in the channel, the same frame, and one release of the mutex. */
  lemma SplitSend(s: Link, port: Port, msg: seq<Byte>, cs: seq<seq<Byte>>)
    requires s.tx.Unlocked? && s.txLen == 0 && |msg| < U32 && Pieces(cs, msg)
    ensures Callable(s, [Send(port, msg)]) && Callable(s, [SendLen(port, |msg|)] + DataCalls(cs))
    ensures Calls(s, [SendLen(port, |msg|)] + DataCalls(cs)) == Calls(s, [Send(port, msg)])
            == Sent(s, Frame(port, |msg|, msg))
  {
    WholeCall(s, port, msg);
    LenCall(s, port, |msg|);
    LenThenData(s, port, msg);
    hide Call, Enabled, Do, Callable, Calls;
    DataCallsFinish(Call(s, SendLen(port, |msg|)), cs, msg);
    FirstCall(s, SendLen(port, |msg|), DataCalls(cs));
  }

  lemma LenThenData(s: Link, port: Port, msg: seq<Byte>)
    requires s.tx.Unlocked? && s.txLen == 0 && |msg| < U32
    ensures Finished(s.(chan := s.chan + ([port as Byte] + Word(|msg|)), tx := Between, txLen := |msg|,
                        log := s.log + [Frame(port, |msg|, [])]), msg) == Sent(s, Frame(port, |msg|, msg))
  {
    var f := Frame(port, |msg|, msg);
    assert s.chan + ([port as Byte] + Word(|msg|)) + msg == s.chan + Wire(f);
    assert [] + msg == msg;
    assert ExtendLast(s.log + [Frame(port, |msg|, [])], msg) == s.log + [f];
  }

  lemma WholeCall(s: Link, port: Port, msg: seq<Byte>)
    requires s.tx.Unlocked? && |msg| < U32
    ensures Callable(s, [Send(port, msg)]) && Calls(s, [Send(port, msg)]) == Sent(s, Frame(port, |msg|, msg))
  {
    var e := Send(port, msg);
    assert [e][1..] == [];
    assert Call(s, e) == Sent(s, Frame(port, |msg|, msg));
  }

  lemma LenCall(s: Link, port: Port, len: Len)
    requires s.tx.Unlocked?
    ensures Enabled(s, SendLen(port, len))
    ensures Call(s, SendLen(port, len)) ==
            s.(chan := s.chan + ([port as Byte] + Word(len)), tx := Between, txLen := len,
               log := s.log + [Frame(port, len, [])])
  {
  }

  // ---- receiving in pieces ----

  /** Any sizes for the data calls of which no earlier ones complete a message of n bytes. */
  ghost predicate Cuts(wants: seq<nat>, n: nat)
    decreases |wants|
  {
    wants != [] && (if |wants| == 1 then wants[0] >= n else wants[0] < n && Cuts(wants[1..], n - wants[0]))
  }

  ghost predicate Receiver(s: Link, p: Port) {
    p < |s.tasks| == |s.inbox|
  }

  /** Task p gets its event bit and reads the length word at the head of the channel. */
  ghost function Opened(s: Link, p: Port, single: bool): Link
    requires Receiver(s, p) && |s.chan| >= 4
  {
    var len, t := Decode(s.chan[..4]), s.(events := s.events - {p as Byte}, chan := s.chan[4..]);
    if single then SetTask(t, p, InBody(true, [], len, len)) else SetTask(t, p, Paused([])).(rxLen := len)
  }

  /** Task p takes from the channel all the bytes its call wants. */
  ghost function Fetched(s: Link, p: Port): Link
    requires Receiver(s, p) && s.tasks[p].InBody? && s.tasks[p].want <= |s.chan|
  {
    var t := s.tasks[p];
    SetTask(s, p, t.(msg := t.msg + s.chan[..t.want], want := 0)).(chan := s.chan[t.want..])
  }

  /** One whole data call. */
  ghost function Took(s: Link, p: Port, want: nat): Link
    requires Receiver(s, p) && s.tasks[p].Paused? && s.rxLen <= |s.chan|
  {
    DoRecvDone(Fetched(Do(s, RecvData(p, want)), p), p)
  }

  ghost predicate Takeable(s: Link, p: Port, wants: seq<nat>)
    decreases |wants|
  {
    || wants == []
    || (Receiver(s, p) && s.tasks[p].Paused? && s.rxLen <= |s.chan| && Takeable(Took(s, p, wants[0]), p, wants[1..]))
  }

  /** The state after data calls of the given sizes, one after the other. */
  ghost function TookAll(s: Link, p: Port, wants: seq<nat>): Link
    requires Takeable(s, p, wants)
    decreases |wants|
  {
    if wants == [] then s else TookAll(Took(s, p, wants[0]), p, wants[1..])
  }

  lemma {:induction false} Fetch(s: Link, es: seq<Event>, t: Link, p: Port) returns (fs: seq<Event>)
    requires Runs(s, es) && Exec(s, es) == t
    requires Receiver(t, p) && t.tasks[p].InBody? && t.tasks[p].want <= |t.chan|
    ensures Runs(s, fs) && Exec(s, fs) == Fetched(t, p)
    decreases t.tasks[p].want
  {
    hide Runs, Exec;
    var k := t.tasks[p];
    if k.want == 0 {
      assert k.msg + t.chan[..0] == k.msg;
      fs := es;
    } else {
      fs := Then(s, es, InByte(p));
      fs := Fetch(s, fs, Do(t, InByte(p)), p);
      assert [t.chan[0]] + t.chan[1..][..k.want - 1] == t.chan[..k.want];
      assert k.msg + [t.chan[0]] + t.chan[1..][..k.want - 1] == k.msg + t.chan[..k.want];
    }
  }

  lemma TookRun(s: Link, es: seq<Event>, t: Link, p: Port, want: nat) returns (fs: seq<Event>)
    requires Runs(s, es) && Exec(s, es) == t && Receiver(t, p) && t.tasks[p].Paused? && t.rxLen <= |t.chan|
    ensures Runs(s, fs) && Exec(s, fs) == Took(t, p, want)
  {
    hide Runs, Exec;
    fs := Then(s, es, RecvData(p, want));
    fs := Fetch(s, fs, Do(t, RecvData(p, want)), p);
    fs := Then(s, fs, RecvDone(p));
  }

  /** A sequence of data calls is a run of the link, byte by byte. */
  lemma {:induction false} TookAllRun(s: Link, es: seq<Event>, t: Link, p: Port, wants: seq<nat>)
      returns (fs: seq<Event>)
    requires Runs(s, es) && Exec(s, es) == t && Takeable(t, p, wants)
    ensures Runs(s, fs) && Exec(s, fs) == TookAll(t, p, wants)
    decreases |wants|
  {
    hide Runs, Exec, Took;
    if wants == [] {
      fs := es;
    } else {
      fs := TookRun(s, es, t, p, wants[0]);
      fs := TookAllRun(s, fs, Took(t, p, wants[0]), p, wants[1..]);
    }
  }

  lemma TookOne(s: Link, p: Port, want: nat, data: seq<Byte>, rest: seq<Byte>)
    requires Receiver(s, p) && s.tasks[p].Paused? && s.chan == data + rest && s.rxLen == |data|
    ensures Took(s, p, want) ==
            if want >= |data| then Deliver(s.(chan := rest, rxLen := 0), p, s.tasks[p].msg + data)
            else SetTask(s, p, Paused(s.tasks[p].msg + data[..want]))
                 .(chan := data[want..] + rest, rxLen := |data| - want)
  {
    var n := if want >= |data| then |data| else want;
    assert s.chan[..n] == data[..n] && s.chan[n..] == data[n..] + rest;
    if n == |data| { assert data[..n] == data && data[n..] + rest == rest; }
  }

  lemma DeliverAfter(s: Link, p: Port, t: Task, msg: seq<Byte>)
    requires Receiver(s, p)
    ensures Deliver(SetTask(s, p, t), p, msg) == Deliver(s, p, msg)
  {
    assert s.tasks[p := t][p := Idle] == s.tasks[p := Idle];
  }

  lemma {:induction false} TookAllDelivers(s: Link, p: Port, wants: seq<nat>, data: seq<Byte>, rest: seq<Byte>)
    requires Receiver(s, p) && s.tasks[p].Paused? && s.chan == data + rest && s.rxLen == |data| && Cuts(wants, |data|)
    ensures Takeable(s, p, wants)
    ensures TookAll(s, p, wants) == Deliver(s.(chan := rest, rxLen := 0), p, s.tasks[p].msg + data)
    decreases |wants|
  {
    var w, got := wants[0], s.tasks[p].msg;
    TookOne(s, p, w, data, rest);
    hide Took, Deliver;
    if |wants| > 1 {
      var t := Took(s, p, w);
      TookAllDelivers(t, p, wants[1..], data[w..], rest);
      DeliverAfter(s.(chan := rest, rxLen := 0), p, Paused(got + data[..w]), got + data);
      assert got + data[..w] + data[w..] == got + data;
    }
  }

  /** Reading a message in any pieces leaves the link exactly as reading it with one call does: the whole
    * message is returned and the trigger is turned back on once. */
  lemma SplitReceive(s: Link, p: Port, wants: seq<nat>, data: seq<Byte>, rest: seq<Byte>)
    requires Receiver(s, p) && s.rxLen == 0 && |data| < U32 && s.chan == Word(|data|) + (data + rest)
    requires Cuts(wants, |data|)
    ensures Opened(s, p, true).tasks[p].InBody? && Opened(s, p, true).tasks[p].want == |data|
    ensures Takeable(Opened(s, p, false), p, wants)
    ensures TookAll(Opened(s, p, false), p, wants) == DoRecvDone(Fetched(Opened(s, p, true), p), p)
            == Deliver(s.(events := s.events - {p as Byte}, chan := rest), p, data)
  {
    assert s.chan[..4] == Word(|data|) && s.chan[4..] == data + rest;
    DecodeWord(|data|);
    var u := s.(events := s.events - {p as Byte}, chan := rest);
    SplitHalf(s, p, wants, data, rest);
    assert (data + rest)[..|data|] == data && (data + rest)[|data|..] == rest && [] + data == data;
    DeliverAfter(u, p, InBody(true, data, 0, |data|), data);
  }

  lemma SplitHalf(s: Link, p: Port, wants: seq<nat>, data: seq<Byte>, rest: seq<Byte>)
    requires Receiver(s, p) && s.rxLen == 0 && |data| < U32 && |s.chan| >= 4 && Decode(s.chan[..4]) == |data|
    requires s.chan[4..] == data + rest && Cuts(wants, |data|)
    ensures Takeable(Opened(s, p, false), p, wants)
    ensures TookAll(Opened(s, p, false), p, wants) ==
            Deliver(s.(events := s.events - {p as Byte}, chan := rest), p, data)
  {
    var t, u := Opened(s, p, false), s.(events := s.events - {p as Byte}, chan := rest);
    hide Takeable, TookAll, Decode;
    TookAllDelivers(t, p, wants, data, rest);
    assert [] + data == data;
    DeliverAfter(u, p, Paused([]), data);
  }

  /** The steps up to the length word are a run of the link. */
  lemma OpenRun(s: Link, p: Port, single: bool) returns (es: seq<Event>)
    requires Receiver(s, p) && |s.chan| >= 4 && s.tasks[p].Idle? && (p as Byte) in s.events
    ensures Runs(s, es) && Exec(s, es) == Opened(s, p, single)
  {
    var t := Do(s, Wake(p, single));
    es := Then(s, [], Wake(p, single));
    es := ReadLen(s, es, t, p);
    es := Then(s, es, GotLen(p));
    var w := s.chan[..4];
    assert [] + w == w;
    assert s.tasks[p := InLen(single, [])][p := InLen(single, w)] == s.tasks[p := InLen(single, w)];
    var u := if single then InBody(true, [], Decode(w), Decode(w)) else Paused([]);
    assert s.tasks[p := InLen(single, w)][p := u] == s.tasks[p := u];
  }

  lemma {:induction false} ReadLen(s: Link, es: seq<Event>, t: Link, p: Port) returns (fs: seq<Event>)
    requires Runs(s, es) && Exec(s, es) == t && Receiver(t, p)
    requires t.tasks[p].InLen? && |t.tasks[p].bytes| <= 4 <= |t.chan| + |t.tasks[p].bytes|
    ensures Runs(s, fs)
    ensures var k, n := t.tasks[p], 4 - |t.tasks[p].bytes|;
            Exec(s, fs) == SetTask(t, p, InLen(k.single, k.bytes + t.chan[..n])).(chan := t.chan[n..])
    decreases 4 - |t.tasks[p].bytes|
  {
    hide Runs, Exec;
    var k, n := t.tasks[p], 4 - |t.tasks[p].bytes|;
    if n == 0 {
      assert k.bytes + t.chan[..0] == k.bytes;
      fs := es;
    } else {
      fs := Then(s, es, InByte(p));
      var u := Do(t, InByte(p));
      fs := ReadLen(s, fs, u, p);
      assert k.bytes + [t.chan[0]] + t.chan[1..][..n - 1] == k.bytes + t.chan[..n];
    }
  }

  // ---- what a length call returns when it times out ----

  /** Task q has had only part of the next frame, which it reads with split calls; the bytes of a call
    * in progress do not count. */
  ghost predicate PartWay(s: Link, q: Port) {
    && q < |s.tasks| && s.received < |s.log| && s.log[s.received].port == q
    && match s.tasks[q]
       case Paused(msg) => |msg| < s.log[s.received].len
       case InBody(single, msg, want, call) => !single && |msg| + want - call < s.log[s.received].len
       case _ => false
  }

  lemma FrameInProgress(s: Link, q: Port)
    requires InvAt(s, Reading(q)) && (s.tasks[q].Paused? || s.tasks[q].InBody?)
    ensures s.received < |s.log| && s.log[s.received].port == q && s.log[s.received].len == LenOf(s.tasks[q], s.rxLen)
  {
    var t := s.tasks[q];
    var len, rest := LenOf(t, s.rxLen), s.chan + Rest(s.tx);
    var msg := t.msg;
    assert Taken(s, Reading(q)) == Wire(Frame(q, len, msg));
    assert Taken(s, Reading(q)) + s.chan + Rest(s.tx) == [q as Byte] + Word(len) + (msg + rest);
    HeadLen(q, Word(len), msg + rest, s.log[s.received..]);
    DecodeWord(len);
  }

  /** A length call that times out returns the driver's shared length.  That is zero, as a caller whose
    * call failed expects, exactly when no task is part way through a split message. */
  lemma TimeoutLength(es: seq<Event>)
    requires Runs(Start(), es)
    ensures Exec(Start(), es).rxLen == 0 <==> forall q: Port :: !PartWay(Exec(Start(), es), q)
  {
    StartInv();
    var s := Exec(Start(), es);
    var ph := RunKeeps(Start(), Armed, es);
    TimeoutState(s, ph);
  }

  lemma TimeoutState(s: Link, ph: Phase)
    requires InvAt(s, ph)
    ensures s.rxLen == 0 <==> forall q: Port :: !PartWay(s, q)
  {
    if ph.Reading? && (s.tasks[ph.q].Paused? || s.tasks[ph.q].InBody?) {
      FrameInProgress(s, ph.q);
      hide Flatten, Payloads, Wire;
      if s.rxLen != 0 {
        assert PartWay(s, ph.q);
      }
    } else {
      hide Flatten, Payloads, Wire;
    }
  }

  /** Port 1 has a two-byte message part way through; a length call on port 0 times out and returns 2. */
  lemma TimeoutReturnsAnotherLength() returns (es: seq<Event>)
    ensures Runs(Start(), es)
    ensures var s := Exec(Start(), es); |s.tasks| > 0 && s.tasks[0].Idle? && Enabled(s, RecvTimeout(0)) && s.rxLen == 2
  {
    var f := Frame(1, 2, [7, 8]);
    var s0 := Start();
    assert Call(s0, Send(1, [7, 8])) == Sent(s0, f);
    es := CallRun(s0, [], s0, Send(1, [7, 8]));
    var s1 := Sent(s0, f);
    assert s1.chan[0] == 1;
    es := Then(s0, es, Fire);
    es := Then(s0, es, IsrIn);
    es := Then(s0, es, IsrSet);
    var s2 := s1.(trigger := false, isr := NotRunning, chan := s1.chan[1..], events := s1.events + {1 as Byte});
    assert Exec(s0, es) == s2;
    var fs := OpenRun(s2, 1, false);
    RunsConcat(s0, es, fs);
    es := es + fs;
    assert s2.chan[..4] == Word(2);
    DecodeWord(2);
  }
}
