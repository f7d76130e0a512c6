/** Marshalling, parsing and unmarshalling of RPC requests and responses in message buffers, and a whole
  * remote call: it does to the client's memory what calling the function locally would do. */
module RpcCalls {
  import opened Seqs
  import opened Rpc

  /** A parsed message: the function code, the parameter count, and where in the buffer things are. */
  datatype RpcMsg = RpcMsg(fcode: Int32, count: int, descAt: nat, paramsAt: nat)

  /** What unmarshalling gives the host for one parameter. */
  datatype HostArg = Null | Placeholder | Pointer(at: nat) | Value(bytes: seq<Byte>) | Untouched

  /** What the host passes when it marshalls a response: memory of its own or a scalar, or a pointer into
    * the request. */
  datatype RespArg = Own(bytes: seq<Byte>) | InRequest(at: nat)

  // ---- copying into a message ----

  /** One `memcpy` to the end of what has been written, and the advance of the message pointer. */
  method Append(msg: array<Byte>, at: nat, src: seq<Byte>) returns (next: nat)
    requires at + |src| <= msg.Length
    modifies msg
    ensures next == at + |src| && msg[..next] == old(msg[..at]) + src
  {
    forall k | 0 <= k < |src| {
      msg[at + k] := src[k];
    }
    next := at + |src|;
    assert msg[..at] == old(msg[..at]);
    assert msg[at..next] == src;
  }

  method Overwrite(msg: array<Byte>, at: nat, src: seq<Byte>)
    requires at + |src| <= msg.Length
    modifies msg
    ensures msg[..] == Splice(old(msg[..]), at, src)
  {
    forall k | 0 <= k < |src| {
      msg[at + k] := src[k];
    }
  }

  // ---- the request ----

  method RequestMarshall(fcode: Int32, descs: seq<Desc>, args: seq<seq<Byte>>) returns (msg: array<Byte>)
    requires Terminated(descs) && Fits(Params(descs), args) && |Params(descs)| < 0x8000_0000
    ensures fresh(msg) && msg[..] == Request(fcode, Params(descs), Vals(Params(descs), args))
  {
    ghost var ds, vals := Params(descs), Vals(Params(descs), args);
    hide Pack, IntBytes, DescsBytes, Params, Ins, Vals, Offset, Terminated;
    var paramCount, paramTotalLength := ListSize(descs, vals);
    OffsetAll(Ins(ds), vals);
    msg := new Byte[8 + 4 * paramCount + paramTotalLength];
    var at := Append(msg, 0, IntBytes(fcode));
    at := Append(msg, at, IntBytes(paramCount));
    at := Append(msg, at, DescsBytes(descs[..paramCount]));
    CopyInputs(msg, at, Header(fcode, ds), descs[..paramCount], args);
  }

  /** The loop over a list up to its end: how many parameters, and how many bytes their inputs take. */
  method ListSize(descs: seq<Desc>, ghost vals: seq<seq<Byte>>) returns (paramCount: nat, paramTotalLength: nat)
    requires Terminated(descs) && |vals| == |Params(descs)|
    requires forall i :: 0 <= i < |vals| ==> |vals[i]| == descs[i].length
    ensures paramCount == |Params(descs)| <= |descs| && paramTotalLength == Offset(Ins(Params(descs)), vals, paramCount)
  {
    ghost var ds, sel := Params(descs), Ins(Params(descs));
    hide Pack, Params, Ins, Offset;
    ListEnds(descs);
    OffsetZero(sel, vals);
    var i := 0;
    paramTotalLength := 0;
    while descs[i].input || descs[i].output
      invariant 0 <= i <= |ds| < |descs| && paramTotalLength == Offset(sel, vals, i)
      decreases |ds| - i
    {
      OffsetNext(sel, vals, i);
      if descs[i].input {
        paramTotalLength := paramTotalLength + descs[i].length;
      }
      i := i + 1;
    }
    paramCount := i;
  }

  method CopyInputs(msg: array<Byte>, start: nat, ghost header: seq<Byte>, ds: seq<Desc>, args: seq<seq<Byte>>)
    requires Fits(ds, args) && start == |header| && start + |Pack(Ins(ds), Vals(ds, args))| == msg.Length
    requires msg[..start] == header
    modifies msg
    ensures msg[..] == header + Pack(Ins(ds), Vals(ds, args))
  {
    ghost var sel, vals := Ins(ds), Vals(ds, args);
    hide Pack, Ins, Vals, PackTo;
    PackToEnds(sel, vals);
    assert header + [] == header;
    var at, i := start, 0;
    while i < |ds|
      invariant 0 <= i <= |ds| && at == start + |PackTo(sel, vals, i)| <= msg.Length
      invariant msg[..at] == header + PackTo(sel, vals, i)
    {
      PackToNext(sel, vals, i);
      if ds[i].input {
        at := Append(msg, at, args[i][..ds[i].length]);
        Assoc(header, PackTo(sel, vals, i), vals[i]);
      }
      i := i + 1;
    }
    assert msg[..at] == msg[..];
  }

  lemma ListEnds(descs: seq<Desc>)
    requires Terminated(descs)
    ensures |Params(descs)| < |descs|
  {
    var i :| 0 <= i < |descs| && Ends(descs[i]);
  }

  /** The first n values of a parameter area. */
  ghost function PackTo(sel: seq<bool>, vals: seq<seq<Byte>>, n: nat): seq<Byte>
    requires n <= |sel| == |vals|
  {
    Pack(sel[..n], vals[..n])
  }

  lemma PackToEnds(sel: seq<bool>, vals: seq<seq<Byte>>)
    requires |sel| == |vals|
    ensures PackTo(sel, vals, 0) == [] && PackTo(sel, vals, |sel|) == Pack(sel, vals)
  {
    assert sel[..|sel|] == sel && vals[..|sel|] == vals;
  }

  lemma PackToNext(sel: seq<bool>, vals: seq<seq<Byte>>, i: nat)
    requires i < |sel| == |vals|
    ensures PackTo(sel, vals, i + 1) == PackTo(sel, vals, i) + if sel[i] then vals[i] else []
    ensures |PackTo(sel, vals, i)| + (if sel[i] then |vals[i]| else 0) <= |Pack(sel, vals)|
  {
    PackNext(sel, vals, i);
    PackPrefix(sel, vals, i + 1);
  }

  lemma Assoc(a: seq<Byte>, b: seq<Byte>, c: seq<Byte>)
    ensures (a + b) + c == a + (b + c)
  {
  }

  /** What parsing finds in a request made for these parameters. */
  ghost predicate Parsed(m: RpcMsg, fcode: Int32, ds: seq<Desc>, msg: seq<Byte>) {
    && |ds| < 0x8000_0000 && Header(fcode, ds) <= msg
    && m == RpcMsg(fcode, |ds|, 8, 8 + 4 * |ds|)
  }

  method RequestParse(msg: array<Byte>, ghost fcode: Int32, ghost ds: seq<Desc>) returns (m: RpcMsg)
    requires |ds| < 0x8000_0000 && Header(fcode, ds) <= msg[..]
    ensures Parsed(m, fcode, ds, msg[..])
  {
    hide IntBytes, IntOf, DescsBytes;
    HeaderReads(fcode, ds, msg[..]);
    assert msg[0..4] == msg[..][0..4] && msg[4..8] == msg[..][4..8];
    var count: int := IntOf(msg[4..8]);
    m := RpcMsg(IntOf(msg[0..4]), count, 8, 8 + 4 * count);
  }

  /** Descriptor i, read from the message. */
  method ParamDesc(msg: seq<Byte>, m: RpcMsg, i: nat, ghost fcode: Int32, ghost ds: seq<Desc>) returns (d: Desc)
    requires Parsed(m, fcode, ds, msg) && i < |ds|
    ensures d == ds[i]
  {
    hide IntBytes, IntOf, DescsBytes, DescOf;
    HeaderReads(fcode, ds, msg);
    var at := m.descAt + 4 * i;
    d := DescOf(msg[at..at + 4]);
  }

  /** What the host must be given for a parameter whose input, if any, is v and stands at `at`. */
  predicate Given(a: HostArg, d: Desc, at: nat, v: seq<Byte>) {
    if d.ptr then
      if d.length == 0 then a == Null
      else if d.input then a == Pointer(at) else a == Placeholder
    else if d.input then a == Value(v) else a == Untouched
  }

  /** Every parameter gets its own input, pointers point at it, and all of the message is consumed. */
  method RequestUnmarshall(msg: array<Byte>, m: RpcMsg, ghost fcode: Int32, ghost ds: seq<Desc>,
                           ghost vals: seq<seq<Byte>>)
      returns (args: seq<HostArg>)
    requires |vals| == |ds| < 0x8000_0000 && msg[..] == Request(fcode, ds, vals) && Parsed(m, fcode, ds, msg[..])
    requires forall i :: 0 <= i < |ds| ==> |vals[i]| == ds[i].length
    ensures |args| == |ds|
    ensures forall i :: 0 <= i < |ds| ==> Given(args[i], ds[i], m.paramsAt + Offset(Ins(ds), vals, i), vals[i])
  {
    ghost var sel := Ins(ds);
    hide Pack, IntBytes, DescsBytes, Ins, Offset;
    args := [];
    OffsetZero(sel, vals);
    var paramsAt, i := m.paramsAt, 0;
    while i < m.count
      invariant 0 <= i <= m.count && |args| == i && paramsAt == m.paramsAt + Offset(sel, vals, i)
      invariant forall k :: 0 <= k < i ==> Given(args[k], ds[k], m.paramsAt + Offset(sel, vals, k), vals[k])
    {
      var d := ParamDesc(msg[..], m, i, fcode, ds);
      OffsetNext(sel, vals, i);
      if d.input { InputAt(msg[..], fcode, ds, vals, i); }
      var arg;
      if d.ptr {
        if d.input {
          arg := if d.length > 0 then Pointer(paramsAt) else Null;
          paramsAt := paramsAt + d.length;
        } else {
          arg := if d.length == 0 then Null else Placeholder;
        }
      } else {
        if d.input {
          arg := Value(msg[paramsAt..paramsAt + d.length]);
          paramsAt := paramsAt + d.length;
        } else {
          arg := Untouched;
        }
      }
      args := args + [arg];
      i := i + 1;
    }
  }

  lemma OffsetZero(sel: seq<bool>, vals: seq<seq<Byte>>)
    requires |sel| == |vals|
    ensures Offset(sel, vals, 0) == 0
  {
  }

  lemma OffsetNext(sel: seq<bool>, vals: seq<seq<Byte>>, i: nat)
    requires i < |sel| == |vals|
    ensures Offset(sel, vals, i + 1) == Offset(sel, vals, i) + if sel[i] then |vals[i]| else 0
  {
    PackNext(sel, vals, i);
  }

  /** Input i stands at its offset in the parameter area of the request. */
  lemma InputAt(msg: seq<Byte>, fcode: Int32, ds: seq<Desc>, vals: seq<seq<Byte>>, i: nat)
    requires |vals| == |ds| < 0x8000_0000 && i < |ds| && ds[i].input && msg == Request(fcode, ds, vals)
    ensures var at := 8 + 4 * |ds| + Offset(Ins(ds), vals, i);
            at + |vals[i]| <= |msg| && msg[at..at + |vals[i]|] == vals[i]
  {
    var sel := Ins(ds);
    PackAt(sel, vals, i);
    hide Pack, IntBytes, DescsBytes, Ins, Offset;
    var h, o, p := Header(fcode, ds), Offset(sel, vals, i), Pack(sel, vals);
    assert msg == h + p;
    assert msg[|h| + o..|h| + o + |vals[i]|] == p[o..o + |vals[i]|];
  }

  // ---- the response ----

  /** The response marshaller accepts scalars of these sizes only, and checks inputs too. */
  predicate ScalarSize(n: int) { n == 1 || n == 2 || n == 4 || n == 8 }

  predicate Scalars(ds: seq<Desc>) {
    forall i :: 0 <= i < |ds| && !ds[i].ptr ==> ScalarSize(ds[i].length)
  }

  /** The width in which a scalar of n bytes is passed to a variadic function. */
  function PassedWidth(n: int): nat { if n == 8 then 8 else 4 }

  /** A scalar widened to the size in which it is passed; narrowing it takes the low bytes back. */
  function Widen(v: seq<Byte>, fill: Byte): (w: seq<Byte>)
    requires ScalarSize(|v|)
    ensures |w| == PassedWidth(|v|) && w[..|v|] == v
  {
    v + seq(PassedWidth(|v|) - |v|, i => fill)
  }

  /** What the caller of the response marshaller owes it: memory of the right size behind each pointer,
    * and scalars in the width in which they are passed. */
  predicate ArgOk(a: RespArg, d: Desc, msg: seq<Byte>) {
    if d.ptr then (match a
                   case Own(b) => |b| == d.length
                   case InRequest(at) => at + d.length <= |msg|)
    else ScalarSize(d.length) ==> a.Own? && |a.bytes| == PassedWidth(d.length)
  }

  /** The bytes of a parameter that an argument stands for. */
  function Meant(a: RespArg, d: Desc, msg: seq<Byte>): (v: seq<Byte>)
    requires ArgOk(a, d, msg)
  {
    match a
    case InRequest(at) => if d.ptr then msg[at..at + d.length] else []
    case Own(b) => if d.length <= |b| then b[..d.length] else []
  }

  /** The arguments stand for these outputs. */
  ghost predicate Answers(args: seq<RespArg>, ds: seq<Desc>, outs: seq<seq<Byte>>, msg: seq<Byte>) {
    && |args| == |outs| == |ds|
    && forall i :: 0 <= i < |ds| ==>
         && ArgOk(args[i], ds[i], msg)
         && (ds[i].output ==> |outs[i]| == ds[i].length)
         && (ds[i].output && (ds[i].ptr || ScalarSize(ds[i].length)) ==> outs[i] == Meant(args[i], ds[i], msg))
  }

  /** Fails, as the driver's assertion does, on any scalar that is not 1, 2, 4 or 8 bytes wide. */
  method ResponseMarshall(msg: array<Byte>, m: RpcMsg, args: seq<RespArg>, ghost fcode: Int32, ghost ds: seq<Desc>,
                          ghost outs: seq<seq<Byte>>) returns (ok: bool, resp: array<Byte>)
    requires Parsed(m, fcode, ds, msg[..])
    requires Answers(args, ds, outs, msg[..])
    ensures ok <==> Scalars(ds)
    ensures fresh(resp) && (ok ==> resp[..] == Response(fcode, ds, outs))
  {
    AnswerSizes(args, ds, outs, msg[..]);
    hide Pack, IntBytes, DescsBytes, Outs, Offset, Parsed, Answers;
    var paramTotalLength := OutputSize(msg[..], m, fcode, ds, outs);
    resp := new Byte[4 + paramTotalLength];
    var at := Append(resp, 0, IntBytes(m.fcode));
    ok := CopyOutputs(resp, at, msg[..], m, args, fcode, ds, outs);
  }

  lemma AnswerSizes(args: seq<RespArg>, ds: seq<Desc>, outs: seq<seq<Byte>>, msg: seq<Byte>)
    requires Answers(args, ds, outs, msg)
    ensures |args| == |outs| == |ds|
    ensures forall i :: 0 <= i < |ds| && ds[i].output ==> |outs[i]| == ds[i].length
  {
    hide Meant, ArgOk;
  }

  lemma AnswerAt(args: seq<RespArg>, ds: seq<Desc>, outs: seq<seq<Byte>>, msg: seq<Byte>, i: nat)
    requires Answers(args, ds, outs, msg) && i < |ds|
    ensures ArgOk(args[i], ds[i], msg)
    ensures ds[i].output && (ds[i].ptr || ScalarSize(ds[i].length)) ==> outs[i] == Meant(args[i], ds[i], msg)
  {
    hide Meant, ArgOk;
  }

  method OutputSize(msg: seq<Byte>, m: RpcMsg, ghost fcode: Int32, ghost ds: seq<Desc>, ghost outs: seq<seq<Byte>>)
      returns (paramTotalLength: nat)
    requires Parsed(m, fcode, ds, msg) && |outs| == |ds|
    requires forall i :: 0 <= i < |ds| && ds[i].output ==> |outs[i]| == ds[i].length
    ensures m.fcode == fcode && m.count == |ds| && paramTotalLength == |Pack(Outs(ds), outs)|
  {
    ghost var sel := Outs(ds);
    hide Pack, IntBytes, DescsBytes, Outs, Offset;
    OffsetZero(sel, outs);
    var i := 0;
    paramTotalLength := 0;
    while i < m.count
      invariant 0 <= i <= m.count && paramTotalLength == Offset(sel, outs, i)
    {
      var d := ParamDesc(msg, m, i, fcode, ds);
      OffsetNext(sel, outs, i);
      if d.output {
        paramTotalLength := paramTotalLength + d.length;
      }
      i := i + 1;
    }
    OffsetAll(sel, outs);
  }

  method CopyOutputs(resp: array<Byte>, start: nat, msg: seq<Byte>, m: RpcMsg, args: seq<RespArg>,
                     ghost fcode: Int32, ghost ds: seq<Desc>, ghost outs: seq<seq<Byte>>) returns (ok: bool)
    requires Parsed(m, fcode, ds, msg) && m.count == |ds|
    requires Answers(args, ds, outs, msg)
    requires |outs| == |ds| && start == 4 && resp.Length == 4 + |Pack(Outs(ds), outs)| && resp[..4] == IntBytes(fcode)
    modifies resp
    ensures ok <==> Scalars(ds)
    ensures ok ==> resp[..] == IntBytes(fcode) + Pack(Outs(ds), outs)
  {
    ghost var sel := Outs(ds);
    AnswerSizes(args, ds, outs, msg);
    hide Pack, IntBytes, DescsBytes, Outs, Parsed, ArgOk, Meant, Answers, ScalarSize, ScalarsTo, Scalars, PackTo;
    ScalarsAll(ds);
    PackToEnds(sel, outs);
    assert IntBytes(fcode) + [] == IntBytes(fcode);
    var at, i := start, 0;
    ok := true;
    while i < m.count
      invariant 0 <= i <= m.count && at == 4 + |PackTo(sel, outs, i)| <= resp.Length
      invariant ScalarsTo(ds, i)
      invariant resp[..at] == IntBytes(fcode) + PackTo(sel, outs, i)
    {
      PackToNext(sel, outs, i);
      Assoc(IntBytes(fcode), PackTo(sel, outs, i), if sel[i] then outs[i] else []);
      AnswerAt(args, ds, outs, msg, i);
      ScalarsNext(ds, i);
      ok, at := CopyOutput(resp, at, msg, m, args[i], i, fcode, ds, outs[i]);
      if !ok {
        return;
      }
      i := i + 1;
    }
    assert at == resp.Length;
  }

  ghost predicate ScalarsTo(ds: seq<Desc>, n: nat) {
    forall i :: 0 <= i < n && i < |ds| && !ds[i].ptr ==> ScalarSize(ds[i].length)
  }

  lemma ScalarsAll(ds: seq<Desc>)
    ensures ScalarsTo(ds, 0) && (ScalarsTo(ds, |ds|) <==> Scalars(ds))
  {
  }

  lemma ScalarsNext(ds: seq<Desc>, i: nat)
    requires i < |ds| && ScalarsTo(ds, i)
    ensures if ds[i].ptr || ScalarSize(ds[i].length) then ScalarsTo(ds, i + 1) else !Scalars(ds)
  {
  }

  /** One parameter of a response: its width is checked even if it is no output. */
  method CopyOutput(resp: array<Byte>, at: nat, msg: seq<Byte>, m: RpcMsg, arg: RespArg, i: nat,
                    ghost fcode: Int32, ghost ds: seq<Desc>, ghost out: seq<Byte>) returns (ok: bool, next: nat)
    requires Parsed(m, fcode, ds, msg) && i < |ds| && ArgOk(arg, ds[i], msg)
    requires ds[i].output && (ds[i].ptr || ScalarSize(ds[i].length)) ==> out == Meant(arg, ds[i], msg)
    requires at + (if ds[i].output then |out| else 0) <= resp.Length
    modifies resp
    ensures ok <==> ds[i].ptr || ScalarSize(ds[i].length)
    ensures next <= resp.Length && (ok ==> resp[..next] == old(resp[..at]) + if ds[i].output then out else [])
  {
    hide Parsed, Meant, ArgOk;
    var d := ParamDesc(msg, m, i, fcode, ds);
    ok, next := d.ptr || ScalarSize(d.length), at;
    if ok && d.output {
      next := Append(resp, at, Meant(arg, d, msg));
    }
  }

  lemma OffsetAll(sel: seq<bool>, vals: seq<seq<Byte>>)
    requires |sel| == |vals|
    ensures Offset(sel, vals, |sel|) == |Pack(sel, vals)|
  {
    assert sel[..|sel|] == sel && vals[..|sel|] == vals;
  }
}
