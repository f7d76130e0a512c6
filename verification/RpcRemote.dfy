/** A whole remote call: the client marshals, the host unmarshals, runs the function and answers, and the
  * client's memory ends up as if it had run the function itself. */
module RpcRemote {
  import opened Seqs
  import opened Rpc
  import opened RpcCalls

  /** What a host runs: from a function code and the bytes of each parameter before the call, its input or,
    * for one that is only an output, whatever its buffer holds, to the bytes of the outputs. */
  type Function = (Int32, seq<seq<Byte>>) -> seq<seq<Byte>>

  predicate Declared(ds: seq<Desc>, bufs: seq<seq<Byte>>) {
    |bufs| == |ds| && forall i :: 0 <= i < |ds| ==> |bufs[i]| == ds[i].length
  }

  /** The function knows its parameters: it gives every output in its declared size. */
  ghost predicate Serves(f: Function, fcode: Int32, ds: seq<Desc>) {
    forall bufs | Declared(ds, bufs) ::
      |f(fcode, bufs)| == |ds| && forall i :: 0 <= i < |ds| && ds[i].output ==> |f(fcode, bufs)[i]| == ds[i].length
  }

  /** What the function finds on the host: the inputs of the client, and in a buffer that is only an output
    * what the host's fresh memory happens to hold. */
  function Before(ds: seq<Desc>, vals: seq<seq<Byte>>, spare: seq<seq<Byte>>): (bufs: seq<seq<Byte>>)
    requires |vals| == |spare| == |ds|
    ensures |bufs| == |ds| && forall i :: 0 <= i < |ds| ==> bufs[i] == if ds[i].input then vals[i] else spare[i]
  {
    seq(|ds|, i requires 0 <= i < |ds| => if ds[i].input then vals[i] else spare[i])
  }

  /** The arguments after the outputs have been stored into them. */
  function Stored(ds: seq<Desc>, args: seq<seq<Byte>>, outs: seq<seq<Byte>>): (r: seq<seq<Byte>>)
    requires Fits(ds, args) && |outs| == |ds|
    requires forall i :: 0 <= i < |ds| && ds[i].output ==> |outs[i]| == ds[i].length
    ensures |r| == |ds|
    ensures forall i :: 0 <= i < |ds| ==> r[i] == if ds[i].output then outs[i] + args[i][|outs[i]|..] else args[i]
  {
    seq(|ds|, i requires 0 <= i < |ds| => if ds[i].output then outs[i] + args[i][|outs[i]|..] else args[i])
  }

  /** What calling the function directly does to the client's arguments. */
  ghost function LocalCall(f: Function, fcode: Int32, ds: seq<Desc>, args: seq<seq<Byte>>): seq<seq<Byte>>
    requires Fits(ds, args) && Serves(f, fcode, ds)
  {
    Stored(ds, args, f(fcode, Vals(ds, args)))
  }

  /** What a remote call does to them, on a host whose fresh memory is given. */
  ghost function RemoteCall(f: Function, fcode: Int32, ds: seq<Desc>, args: seq<seq<Byte>>, spare: seq<seq<Byte>>)
      : seq<seq<Byte>>
    requires Fits(ds, args) && Serves(f, fcode, ds) && Declared(ds, spare)
  {
    Stored(ds, args, f(fcode, Before(ds, Vals(ds, args), spare)))
  }

  predicate SameOutputs(ds: seq<Desc>, a: seq<seq<Byte>>, b: seq<seq<Byte>>) {
    |a| == |b| == |ds| && forall i :: 0 <= i < |ds| && ds[i].output ==> a[i] == b[i]
  }

  /** The outputs do not depend on what the buffers that are only outputs held before. */
  ghost predicate WritesOutputs(f: Function, fcode: Int32, ds: seq<Desc>) {
    forall bufs, spare | Declared(ds, bufs) && Declared(ds, spare) ::
      SameOutputs(ds, f(fcode, Before(ds, bufs, spare)), f(fcode, bufs))
  }

  /** A remote call does what a local one does, whatever the arguments and the host's memory, if and only if
    * the function writes its outputs: the host sends back whole buffers, the client's own bytes stay with it. */
  lemma RemoteIsLocal(f: Function, fcode: Int32, ds: seq<Desc>)
    requires Serves(f, fcode, ds)
    ensures (forall args, spare :: Fits(ds, args) && Declared(ds, spare) ==>
               RemoteCall(f, fcode, ds, args, spare) == LocalCall(f, fcode, ds, args)) <==>
            WritesOutputs(f, fcode, ds)
  {
    hide Stored, LocalCall, RemoteCall, Before, Vals, WritesOutputs, Serves, Declared, Fits;
    if WritesOutputs(f, fcode, ds) {
      forall args, spare | Fits(ds, args) && Declared(ds, spare)
        ensures RemoteCall(f, fcode, ds, args, spare) == LocalCall(f, fcode, ds, args)
      {
        SameCall(f, fcode, ds, args, spare);
      }
    } else {
      var args, spare := OtherCall(f, fcode, ds);
    }
  }

  lemma SameCall(f: Function, fcode: Int32, ds: seq<Desc>, args: seq<seq<Byte>>, spare: seq<seq<Byte>>)
    requires Serves(f, fcode, ds) && WritesOutputs(f, fcode, ds) && Fits(ds, args) && Declared(ds, spare)
    ensures RemoteCall(f, fcode, ds, args, spare) == LocalCall(f, fcode, ds, args)
  {
    var vals := Vals(ds, args);
    assert Declared(ds, vals) && Declared(ds, Before(ds, vals, spare));
    hide Vals, Before;
    StoredSame(ds, args, f(fcode, Before(ds, vals, spare)), f(fcode, vals));
  }

  lemma OtherCall(f: Function, fcode: Int32, ds: seq<Desc>) returns (args: seq<seq<Byte>>, spare: seq<seq<Byte>>)
    requires Serves(f, fcode, ds) && !WritesOutputs(f, fcode, ds)
    ensures Fits(ds, args) && Declared(ds, spare)
    ensures RemoteCall(f, fcode, ds, args, spare) != LocalCall(f, fcode, ds, args)
  {
    hide SameOutputs, Stored;
    args, spare :| Declared(ds, args) && Declared(ds, spare)
      && !SameOutputs(ds, f(fcode, Before(ds, args, spare)), f(fcode, args));
    WholeArguments(ds, args);
    assert Declared(ds, Before(ds, args, spare));
    hide Vals, Before, WritesOutputs;
    StoredSame(ds, args, f(fcode, Before(ds, args, spare)), f(fcode, args));
  }

  lemma WholeArguments(ds: seq<Desc>, args: seq<seq<Byte>>)
    requires Declared(ds, args)
    ensures Vals(ds, args) == args
  {
    forall i | 0 <= i < |ds|
      ensures Vals(ds, args)[i] == args[i]
    {
      var a := args[i];
      assert a[..|a|] == a;
    }
  }

  lemma StoredSame(ds: seq<Desc>, args: seq<seq<Byte>>, a: seq<seq<Byte>>, b: seq<seq<Byte>>)
    requires Fits(ds, args) && |a| == |b| == |ds|
    requires forall i :: 0 <= i < |ds| && ds[i].output ==> |a[i]| == |b[i]| == ds[i].length
    ensures Stored(ds, args, a) == Stored(ds, args, b) <==> SameOutputs(ds, a, b)
  {
    if Stored(ds, args, a) == Stored(ds, args, b) {
      forall i | 0 <= i < |ds| && ds[i].output
        ensures a[i] == b[i]
      {
        assert Stored(ds, args, a)[i][..ds[i].length] == a[i] && Stored(ds, args, b)[i][..ds[i].length] == b[i];
      }
    }
  }

  /** A function that gives up before it has written its output: the local caller keeps its byte, the remote
    * one gets the host's. */
  lemma UnwrittenOutputIsLost(fcode: Int32, mine: Byte, theirs: Byte) returns (f: Function, ds: seq<Desc>)
    ensures ds == [Desc(1, true, false, true)] && Serves(f, fcode, ds)
    ensures LocalCall(f, fcode, ds, [[mine]]) == [[mine]]
    ensures RemoteCall(f, fcode, ds, [[mine]], [[theirs]]) == [[theirs]]
  {
    f, ds := (code, bufs) => bufs, [Desc(1, true, false, true)];
    assert Vals(ds, [[mine]])[0] == [mine] && Vals(ds, [[mine]]) == [[mine]];
    assert Before(ds, [[mine]], [[theirs]])[0] == [theirs] && Before(ds, [[mine]], [[theirs]]) == [[theirs]];
    assert Stored(ds, [[mine]], [[mine]])[0] == [mine] && Stored(ds, [[mine]], [[theirs]])[0] == [theirs];
  }

  // ---- the host ----

  ghost predicate AllGiven(args: seq<HostArg>, ds: seq<Desc>, vals: seq<seq<Byte>>) {
    && |args| == |vals| == |ds|
    && forall i :: 0 <= i < |ds| ==> Given(args[i], ds[i], 8 + 4 * |ds| + Offset(Ins(ds), vals, i), vals[i])
  }

  /** The bytes an unmarshalled argument stands for, or those of the host's own memory. */
  method ReadInput(msg: array<Byte>, m: RpcMsg, arg: HostArg, i: nat, own: seq<Byte>, ghost fcode: Int32,
                   ghost ds: seq<Desc>, ghost vals: seq<seq<Byte>>) returns (v: seq<Byte>)
    requires |vals| == |ds| < 0x8000_0000 && i < |ds| && msg[..] == Request(fcode, ds, vals)
    requires Parsed(m, fcode, ds, msg[..]) && |vals[i]| == |own| == ds[i].length
    requires Given(arg, ds[i], 8 + 4 * |ds| + Offset(Ins(ds), vals, i), vals[i])
    ensures v == if ds[i].input then vals[i] else own
  {
    if ds[i].input { InputAt(msg[..], fcode, ds, vals, i); }
    hide Request, Parsed, Offset, Ins;
    var d := ParamDesc(msg[..], m, i, fcode, ds);
    match arg
    case Pointer(at) => v := msg[at..at + d.length];
    case Value(b) => v := b;
    case _ => v := own;
  }

  method ReadInputs(msg: array<Byte>, m: RpcMsg, args: seq<HostArg>, spare: seq<seq<Byte>>, ghost fcode: Int32,
                    ghost ds: seq<Desc>, ghost vals: seq<seq<Byte>>) returns (bufs: seq<seq<Byte>>)
    requires |vals| == |ds| < 0x8000_0000 && msg[..] == Request(fcode, ds, vals)
    requires Parsed(m, fcode, ds, msg[..]) && m.count == |ds| == |spare| && AllGiven(args, ds, vals)
    requires forall i :: 0 <= i < |ds| ==> |vals[i]| == |spare[i]| == ds[i].length
    ensures bufs == Before(ds, vals, spare)
  {
    hide Request, Parsed, Offset, Ins, Given;
    bufs := [];
    for i := 0 to m.count
      invariant |bufs| == i && forall k :: 0 <= k < i ==> bufs[k] == if ds[k].input then vals[k] else spare[k]
    {
      var v := ReadInput(msg, m, args[i], i, spare[i], fcode, ds, vals);
      bufs := bufs + [v];
    }
  }

  /** The values in the request after the host has stored the first n in-out buffers in place. */
  ghost function InPlace(ds: seq<Desc>, vals: seq<seq<Byte>>, outs: seq<seq<Byte>>, n: nat): (cur: seq<seq<Byte>>)
    requires |vals| == |outs| == |ds|
    ensures |cur| == |ds|
    ensures forall i :: 0 <= i < |ds| ==>
              cur[i] == if i < n && ds[i].ptr && ds[i].input && ds[i].output then outs[i] else vals[i]
  {
    seq(|ds|, i requires 0 <= i < |ds| =>
      if i < n && ds[i].ptr && ds[i].input && ds[i].output then outs[i] else vals[i])
  }

  /** An in-out buffer is a pointer into the request, where the function changes it. */
  lemma StoreInPlace(fcode: Int32, ds: seq<Desc>, vals: seq<seq<Byte>>, outs: seq<seq<Byte>>, i: nat)
    requires |vals| == |outs| == |ds| < 0x8000_0000 && i < |ds| && ds[i].ptr && ds[i].input && ds[i].output
    requires forall k :: 0 <= k < |ds| ==> |vals[k]| == ds[k].length
    requires forall k :: 0 <= k < |ds| && ds[k].output ==> |outs[k]| == ds[k].length
    ensures var msg, at := Request(fcode, ds, InPlace(ds, vals, outs, i)), 8 + 4 * |ds| + Offset(Ins(ds), vals, i);
            && at + |outs[i]| <= |msg|
            && Splice(msg, at, outs[i]) == Request(fcode, ds, InPlace(ds, vals, outs, i + 1))
  {
    hide Header, Offset, Pack;
    var cur, sel, h := InPlace(ds, vals, outs, i), Ins(ds), Header(fcode, ds);
    OffsetBySize(sel, vals, cur, i);
    PackUpdate(sel, cur, i, outs[i]);
    assert cur[i := outs[i]] == InPlace(ds, vals, outs, i + 1);
    SpliceRight(h, Pack(sel, cur), Offset(sel, cur, i), outs[i]);
  }

  lemma SpliceRight(h: seq<Byte>, s: seq<Byte>, at: nat, v: seq<Byte>)
    requires at + |v| <= |s|
    ensures Splice(h + s, |h| + at, v) == h + Splice(s, at, v)
  {
  }

  /** What the host passes back for one parameter. */
  ghost predicate Answer(a: RespArg, d: Desc, at: nat, out: seq<Byte>) {
    if d.ptr then
      if d.length == 0 then a == Own([])
      else if d.input then a == InRequest(at) else a == Own(out)
    else
      ScalarSize(d.length) ==>
        a.Own? && |a.bytes| == PassedWidth(d.length) && (d.output ==> a.bytes[..d.length] == out)
  }

  ghost predicate Sized(ds: seq<Desc>, vals: seq<seq<Byte>>, outs: seq<seq<Byte>>) {
    && |vals| == |outs| == |ds| < 0x8000_0000
    && forall i :: 0 <= i < |ds| ==>
         !Ends(ds[i]) && |vals[i]| == ds[i].length && (ds[i].output ==> |outs[i]| == ds[i].length)
  }

  /** The host stores an in-out buffer where it got it, in the request, and passes scalars widened. */
  method AnswerOne(msg: array<Byte>, m: RpcMsg, arg: HostArg, out: seq<Byte>, i: nat, ghost fcode: Int32,
                   ghost ds: seq<Desc>, ghost vals: seq<seq<Byte>>, ghost outs: seq<seq<Byte>>) returns (a: RespArg)
    requires Sized(ds, vals, outs) && i < |ds| && Parsed(m, fcode, ds, msg[..]) && out == outs[i]
    requires msg[..] == Request(fcode, ds, InPlace(ds, vals, outs, i))
    requires Given(arg, ds[i], 8 + 4 * |ds| + Offset(Ins(ds), vals, i), vals[i])
    modifies msg
    ensures msg[..] == Request(fcode, ds, InPlace(ds, vals, outs, i + 1))
    ensures Answer(a, ds[i], 8 + 4 * |ds| + Offset(Ins(ds), vals, i), outs[i])
  {
    StoreStep(fcode, ds, vals, outs, i);
    hide Request, Parsed, Offset, Ins, InPlace, Answer;
    var d := ParamDesc(msg[..], m, i, fcode, ds);
    if d.ptr {
      a := AnswerPointer(msg, d, arg, out);
    } else {
      a := AnswerScalar(d, arg, out);
    }
  }

  /** What storing one parameter's output does to the request. */
  lemma StoreStep(fcode: Int32, ds: seq<Desc>, vals: seq<seq<Byte>>, outs: seq<seq<Byte>>, i: nat)
    requires Sized(ds, vals, outs) && i < |ds|
    ensures var msg, at := Request(fcode, ds, InPlace(ds, vals, outs, i)), 8 + 4 * |ds| + Offset(Ins(ds), vals, i);
            if ds[i].ptr && ds[i].input && ds[i].output && ds[i].length > 0
            then at + |outs[i]| <= |msg|
                 && Splice(msg, at, outs[i]) == Request(fcode, ds, InPlace(ds, vals, outs, i + 1))
            else msg == Request(fcode, ds, InPlace(ds, vals, outs, i + 1))
  {
    var d := ds[i];
    if d.ptr && d.input && d.output && d.length > 0 {
      StoreInPlace(fcode, ds, vals, outs, i);
    } else {
      if d.output && d.length == 0 { assert vals[i] == outs[i] == []; }
      assert InPlace(ds, vals, outs, i + 1) == InPlace(ds, vals, outs, i);
    }
  }

  method AnswerScalar(d: Desc, arg: HostArg, out: seq<Byte>) returns (a: RespArg)
    requires !d.ptr && (d.output || (arg.Value? && |arg.bytes| == d.length)) && (d.output ==> |out| == d.length)
    ensures forall at: nat :: Answer(a, d, at, out)
  {
    var v := if d.output then out else if arg.Value? then arg.bytes else [];
    a := if ScalarSize(|v|) then Own(Widen(v, 0)) else Own([]);
  }

  method AnswerPointer(msg: array<Byte>, d: Desc, arg: HostArg, out: seq<Byte>) returns (a: RespArg)
    requires d.ptr && (d.input || d.output) && Given(arg, d, if arg.Pointer? then arg.at else 0, [])
    requires d.output ==> |out| == d.length
    requires arg.Pointer? && d.output ==> arg.at + |out| <= msg.Length
    modifies msg
    ensures Answer(a, d, if arg.Pointer? then arg.at else 0, out)
    ensures msg[..] == if arg.Pointer? && d.output then Splice(old(msg[..]), arg.at, out) else old(msg[..])
  {
    match arg
    case Pointer(at) =>
      a := InRequest(at);
      if d.output {
        Overwrite(msg, at, out);
      }
    case Placeholder => a := Own(out);
    case _ => a := Own([]);
  }

  lemma HeaderStays(m: RpcMsg, fcode: Int32, ds: seq<Desc>, vals: seq<seq<Byte>>, msg: seq<Byte>)
    requires |vals| == |ds| < 0x8000_0000 && msg == Request(fcode, ds, vals)
    requires m == RpcMsg(fcode, |ds|, 8, 8 + 4 * |ds|)
    ensures Parsed(m, fcode, ds, msg)
  {
    hide Header, Pack;
  }

  method AnswerAll(msg: array<Byte>, m: RpcMsg, args: seq<HostArg>, results: seq<seq<Byte>>, ghost fcode: Int32,
                   ghost ds: seq<Desc>, ghost vals: seq<seq<Byte>>) returns (answers: seq<RespArg>)
    requires Sized(ds, vals, results) && AllGiven(args, ds, vals)
    requires m == RpcMsg(fcode, |ds|, 8, 8 + 4 * |ds|) && msg[..] == Request(fcode, ds, vals)
    modifies msg
    ensures msg[..] == Request(fcode, ds, InPlace(ds, vals, results, |ds|)) && |answers| == |ds|
    ensures forall k :: 0 <= k < |ds| ==> Answer(answers[k], ds[k], 8 + 4 * |ds| + Offset(Ins(ds), vals, k), results[k])
  {
    hide Request, Offset, Ins, Given, Answer;
    answers := [];
    assert InPlace(ds, vals, results, 0) == vals;
    for i := 0 to m.count
      invariant msg[..] == Request(fcode, ds, InPlace(ds, vals, results, i)) && |answers| == i
      invariant forall k :: 0 <= k < i ==>
                  Answer(answers[k], ds[k], 8 + 4 * |ds| + Offset(Ins(ds), vals, k), results[k])
    {
      HeaderStays(m, fcode, ds, InPlace(ds, vals, results, i), msg[..]);
      var a := AnswerOne(msg, m, args[i], results[i], i, fcode, ds, vals, results);
      answers := answers + [a];
    }
  }

  /** The answers stand for the function's outputs, the in-out ones through the request buffer. */
  lemma AnswersHold(answers: seq<RespArg>, fcode: Int32, ds: seq<Desc>, vals: seq<seq<Byte>>, outs: seq<seq<Byte>>,
                    msg: seq<Byte>)
    requires Sized(ds, vals, outs) && msg == Request(fcode, ds, InPlace(ds, vals, outs, |ds|)) && |answers| == |ds|
    requires forall k :: 0 <= k < |ds| ==> Answer(answers[k], ds[k], 8 + 4 * |ds| + Offset(Ins(ds), vals, k), outs[k])
    ensures Answers(answers, ds, outs, msg)
  {
    hide Request, Offset, Pack, Ins;
    forall i | 0 <= i < |ds|
      ensures ArgOk(answers[i], ds[i], msg)
      ensures ds[i].output && (ds[i].ptr || ScalarSize(ds[i].length)) ==> outs[i] == Meant(answers[i], ds[i], msg)
    {
      AnswerHolds(answers[i], fcode, ds, vals, outs, msg, i);
    }
  }

  lemma AnswerHolds(a: RespArg, fcode: Int32, ds: seq<Desc>, vals: seq<seq<Byte>>, outs: seq<seq<Byte>>, msg: seq<Byte>,
                    i: nat)
    requires Sized(ds, vals, outs) && msg == Request(fcode, ds, InPlace(ds, vals, outs, |ds|)) && i < |ds|
    requires Answer(a, ds[i], 8 + 4 * |ds| + Offset(Ins(ds), vals, i), outs[i])
    ensures ArgOk(a, ds[i], msg)
    ensures ds[i].output && (ds[i].ptr || ScalarSize(ds[i].length)) ==> outs[i] == Meant(a, ds[i], msg)
  {
    var cur := InPlace(ds, vals, outs, |ds|);
    if ds[i].input {
      InputAt(msg, fcode, ds, cur, i);
      OffsetBySize(Ins(ds), vals, cur, i);
    }
    hide Request, Offset, Ins, Pack;
  }

  /** The host side of a call, with the memory it allocates for its outputs.  It answers unless the response
    * marshaller's assertion fails. */
  method Host(msg: array<Byte>, f: Function, spare: seq<seq<Byte>>, ghost fcode: Int32, ghost ds: seq<Desc>,
              ghost vals: seq<seq<Byte>>) returns (ok: bool, resp: array<Byte>)
    requires |ds| < 0x8000_0000 && Declared(ds, vals) && Declared(ds, spare)
    requires msg[..] == Request(fcode, ds, vals) && Serves(f, fcode, ds) && forall i :: 0 <= i < |ds| ==> !Ends(ds[i])
    modifies msg
    ensures (ok <==> Scalars(ds)) && fresh(resp)
    ensures ok ==> resp[..] == Response(fcode, ds, f(fcode, Before(ds, vals, spare)))
  {
    ghost var bufs := Before(ds, vals, spare);
    assert Declared(ds, bufs);
    hide Pack, Ins, Offset, Given, Answer, Answers, Header, Before, Scalars;
    var m := RequestParse(msg, fcode, ds);
    var args := RequestUnmarshall(msg, m, fcode, ds, vals);
    var found := ReadInputs(msg, m, args, spare, fcode, ds, vals);
    var results := f(m.fcode, found);
    var answers := AnswerAll(msg, m, args, results, fcode, ds, vals);
    AnswersHold(answers, fcode, ds, vals, results, msg[..]);
    HeaderStays(m, fcode, ds, InPlace(ds, vals, results, |ds|), msg[..]);
    ok, resp := ResponseMarshall(msg, m, answers, fcode, ds, results);
  }

  // ---- the client ----

  method ResponseParse(resp: array<Byte>, ghost fcode: Int32, ghost ds: seq<Desc>, ghost outs: seq<seq<Byte>>)
      returns (code: Int32, paramsAt: nat)
    requires |outs| == |ds| && resp[..] == Response(fcode, ds, outs)
    ensures code == fcode && paramsAt == 4
  {
    IntRoundTrip(fcode);
    hide Pack, IntOf, IntBytes;
    assert resp[0..4] == resp[..][0..4] == IntBytes(fcode);
    code, paramsAt := IntOf(resp[0..4]), 4;
  }

  lemma OutputAt(resp: seq<Byte>, fcode: Int32, ds: seq<Desc>, outs: seq<seq<Byte>>, i: nat)
    requires |outs| == |ds| && i < |ds| && ds[i].output && resp == Response(fcode, ds, outs)
    ensures var at := 4 + Offset(Outs(ds), outs, i);
            at + |outs[i]| <= |resp| && resp[at..at + |outs[i]|] == outs[i]
  {
    var sel := Outs(ds);
    PackAt(sel, outs, i);
    hide Pack, IntBytes, Outs, Offset;
    var o, p := Offset(sel, outs, i), Pack(sel, outs);
    assert resp[4 + o..4 + o + |outs[i]|] == p[o..o + |outs[i]|];
  }

  /** The arguments after the first n outputs have been stored. */
  ghost function StoredTo(ds: seq<Desc>, args: seq<seq<Byte>>, outs: seq<seq<Byte>>, n: nat): (r: seq<seq<Byte>>)
    requires Fits(ds, args) && |outs| == |ds|
    requires forall i :: 0 <= i < |ds| && ds[i].output ==> |outs[i]| == ds[i].length
  {
    seq(|ds|, i requires 0 <= i < |ds| => if i < n && ds[i].output then outs[i] + args[i][|outs[i]|..] else args[i])
  }

  lemma StoredEnds(ds: seq<Desc>, args: seq<seq<Byte>>, outs: seq<seq<Byte>>)
    requires Fits(ds, args) && |outs| == |ds|
    requires forall i :: 0 <= i < |ds| && ds[i].output ==> |outs[i]| == ds[i].length
    ensures StoredTo(ds, args, outs, 0) == args && StoredTo(ds, args, outs, |ds|) == Stored(ds, args, outs)
  {
  }

  lemma StoredNext(ds: seq<Desc>, args: seq<seq<Byte>>, outs: seq<seq<Byte>>, i: nat)
    requires Fits(ds, args) && i < |outs| == |ds|
    requires forall k :: 0 <= k < |ds| && ds[k].output ==> |outs[k]| == ds[k].length
    ensures |StoredTo(ds, args, outs, i)| == |ds| && StoredTo(ds, args, outs, i)[i] == args[i]
    ensures StoredTo(ds, args, outs, i + 1) ==
            if ds[i].output then StoredTo(ds, args, outs, i)[i := outs[i] + args[i][|outs[i]|..]]
            else StoredTo(ds, args, outs, i)
  {
  }

  method StoreOne(resp: array<Byte>, at: nat, d: Desc, args: array<seq<Byte>>, i: nat, ghost fcode: Int32,
                  ghost ds: seq<Desc>, ghost outs: seq<seq<Byte>>) returns (next: nat)
    requires i < |ds| == |outs| == args.Length && d == ds[i] && (d.output ==> d.length == |outs[i]| <= |args[i]|)
    requires resp[..] == Response(fcode, ds, outs) && at == 4 + Offset(Outs(ds), outs, i)
    modifies args
    ensures args[..] == if d.output then old(args[..])[i := outs[i] + old(args[i])[d.length..]] else old(args[..])
    ensures next == at + if d.output then |outs[i]| else 0
  {
    next := at;
    if d.output {
      OutputAt(resp[..], fcode, ds, outs, i);
      hide Response, Offset, Outs;
      args[i] := resp[at..at + d.length] + args[i][d.length..];
      next := at + d.length;
    }
  }

  lemma Sizes(ds: seq<Desc>, args: seq<seq<Byte>>, outs: seq<seq<Byte>>)
    requires Fits(ds, args) && |outs| == |ds|
    requires forall i :: 0 <= i < |ds| && ds[i].output ==> |outs[i]| == ds[i].length
    ensures |args| == |ds| && forall i :: 0 <= i < |ds| && ds[i].output ==> |outs[i]| == ds[i].length <= |args[i]|
  {
  }

  /** Every output lands in its argument, all of the response is consumed, and nothing else changes. */
  method ResponseUnmarshall(resp: array<Byte>, paramsAt: nat, descs: seq<Desc>, args: array<seq<Byte>>,
                            ghost fcode: Int32, ghost outs: seq<seq<Byte>>)
    requires Terminated(descs) && Fits(Params(descs), args[..]) && |outs| == |Params(descs)| && paramsAt == 4
    requires forall i :: 0 <= i < |outs| && descs[i].output ==> |outs[i]| == descs[i].length
    requires resp[..] == Response(fcode, Params(descs), outs)
    modifies args
    ensures args[..] == Stored(Params(descs), old(args[..]), outs)
  {
    ghost var ds, was := Params(descs), args[..];
    ghost var sel := Outs(ds);
    hide Response, Params, Offset, Pack, StoredTo, Stored, Terminated, Fits, Outs;
    Sizes(ds, was, outs);
    assert forall k :: 0 <= k < |ds| ==> ds[k] == descs[k];
    ListEnds(descs);
    OffsetZero(sel, outs);
    StoredEnds(ds, was, outs);
    var at, i := paramsAt, 0;
    while descs[i].input || descs[i].output
      invariant 0 <= i <= |ds| < |descs| && at == 4 + Offset(sel, outs, i) && args.Length == |was|
      invariant args[..] == StoredTo(ds, was, outs, i)
      decreases |ds| - i
    {
      OffsetNext(sel, outs, i);
      StoredNext(ds, was, outs, i);
      at := StoreOne(resp, at, descs[i], args, i, fcode, ds, outs);
      i := i + 1;
    }
    StoredEnds(ds, was, outs);
  }

  /** One message over the intertile link, whole and in order: the other side gets a copy. */
  method Transfer(msg: array<Byte>) returns (copy: array<Byte>)
    ensures fresh(copy) && copy[..] == msg[..]
  {
    copy := new Byte[msg.Length];
    forall k | 0 <= k < msg.Length {
      copy[k] := msg[k];
    }
  }

  /** A remote call stores into the client's memory what the function gives on the host, for any memory the
    * host may find, and the answer carries the function code that was sent.  It fails only on a scalar the
    * host cannot marshal back. */
  method CallGeneric(fcode: Int32, descs: seq<Desc>, args: array<seq<Byte>>, f: Function, spare: seq<seq<Byte>>)
      returns (ok: bool)
    requires Terminated(descs) && Fits(Params(descs), args[..]) && |Params(descs)| < 0x8000_0000
    requires Serves(f, fcode, Params(descs)) && Declared(Params(descs), spare)
    modifies args
    ensures ok <==> Scalars(Params(descs))
    ensures args[..] == if ok then RemoteCall(f, fcode, Params(descs), old(args[..]), spare) else old(args[..])
  {
    ghost var ds, vals := Params(descs), Vals(Params(descs), args[..]);
    ghost var bufs := Before(ds, vals, spare);
    assert Declared(ds, vals) && Declared(ds, bufs);
    hide Params, Terminated, Pack, Header, Scalars, Before, Vals;
    var reqMsg := RequestMarshall(fcode, descs, args[..]);
    var hostMsg := Transfer(reqMsg);
    var hostResp;
    ok, hostResp := Host(hostMsg, f, spare, fcode, ds, vals);
    if ok {
      var respMsg := Transfer(hostResp);
      assert respMsg.Length != 0;
      ghost var outs := f(fcode, bufs);
      var code, paramsAt := ResponseParse(respMsg, fcode, ds, outs);
      assert code == fcode;
      ResponseUnmarshall(respMsg, paramsAt, descs, args, fcode, outs);
    }
  }
}
