/** The layout of RPC messages: descriptor lists, the parameter area, and how the parts are found again. */
module Rpc {
  import opened Seqs

  type Byte = x: int | 0 <= x < 256
  type Int32 = x: int | -0x8000_0000 <= x < 0x8000_0000
  type Length = n: nat | n < 0x100_0000

  /** One parameter: its size, or the size of what it points to, and which way its data goes. */
  datatype Desc = Desc(length: Length, ptr: bool, input: bool, output: bool)

  // ---- words and descriptors ----

  function IntBytes(x: Int32): (b: seq<Byte>)
    ensures |b| == 4
  {
    var u := if x < 0 then x + 0x1_0000_0000 else x;
    [u % 256, u / 256 % 256, u / 256 / 256 % 256, u / 256 / 256 / 256]
  }

  function IntOf(b: seq<Byte>): Int32
    requires |b| == 4
  {
    var b0: int, b1: int, b2: int, b3: int := b[0], b[1], b[2], b[3];
    var u := b0 + 256 * (b1 + 256 * (b2 + 256 * b3));
    if u >= 0x8000_0000 then u - 0x1_0000_0000 else u
  }

  lemma IntRoundTrip(x: Int32)
    ensures IntOf(IntBytes(x)) == x
  {
  }

  /** The descriptor in memory: a 24-bit length and three flag bits. */
  function DescBytes(d: Desc): (b: seq<Byte>)
    ensures |b| == 4
  {
    [d.length % 256, d.length / 256 % 256, d.length / 256 / 256,
     (if d.ptr then 1 else 0) + (if d.input then 2 else 0) + (if d.output then 4 else 0)]
  }

  function DescOf(b: seq<Byte>): Desc
    requires |b| == 4
  {
    var b0: int, b1: int, b2: int := b[0], b[1], b[2];
    Desc(b0 + 256 * (b1 + 256 * b2), b[3] % 2 == 1, b[3] / 2 % 2 == 1, b[3] / 4 % 2 == 1)
  }

  lemma DescRoundTrip(d: Desc)
    ensures DescOf(DescBytes(d)) == d
  {
  }

  function DescsBytes(ds: seq<Desc>): (b: seq<Byte>)
    ensures |b| == 4 * |ds|
  {
    if ds == [] then [] else DescsBytes(ds[..|ds| - 1]) + DescBytes(ds[|ds| - 1])
  }

  lemma {:induction false} DescsAt(ds: seq<Desc>, i: nat)
    requires i < |ds|
    ensures DescsBytes(ds)[4 * i..4 * i + 4] == DescBytes(ds[i])
  {
    var n := |ds| - 1;
    if i < n {
      DescsAt(ds[..n], i);
      assert DescsBytes(ds)[4 * i..4 * i + 4] == DescsBytes(ds[..n])[4 * i..4 * i + 4];
    }
  }

  // ---- the descriptor list ----

  predicate Ends(d: Desc) { !d.input && !d.output }

  /** The list ends at the first descriptor that goes neither way. */
  predicate Terminated(descs: seq<Desc>) {
    exists i :: 0 <= i < |descs| && Ends(descs[i])
  }

  function Params(descs: seq<Desc>): (ds: seq<Desc>)
    ensures |ds| <= |descs| && ds == descs[..|ds|]
    ensures forall i :: 0 <= i < |ds| ==> !Ends(ds[i])
    ensures |ds| < |descs| ==> Ends(descs[|ds|])
  {
    if descs == [] || Ends(descs[0]) then []
    else
      var rest := Params(descs[1..]);
      assert descs == [descs[0]] + descs[1..];
      [descs[0]] + rest
  }

  // ---- the parameter area ----

  /** The selected values one after the other. */
  function Pack(sel: seq<bool>, vals: seq<seq<Byte>>): seq<Byte>
    requires |sel| == |vals|
    decreases |sel|
  {
    if sel == [] then []
    else
      var n := |sel| - 1;
      Pack(sel[..n], vals[..n]) + if sel[n] then vals[n] else []
  }

  /** Where value i starts: after the selected values before it. */
  function Offset(sel: seq<bool>, vals: seq<seq<Byte>>, i: nat): nat
    requires i <= |sel| == |vals|
  {
    |Pack(sel[..i], vals[..i])|
  }

  lemma {:induction false} PackPrefix(sel: seq<bool>, vals: seq<seq<Byte>>, i: nat)
    requires i <= |sel| == |vals|
    ensures Pack(sel[..i], vals[..i]) <= Pack(sel, vals)
    decreases |sel|
  {
    var n := |sel| - 1;
    if i == |sel| {
      assert sel[..i] == sel && vals[..i] == vals;
    } else {
      PackPrefix(sel[..n], vals[..n], i);
      assert sel[..n][..i] == sel[..i] && vals[..n][..i] == vals[..i];
    }
  }

  /** A selected value is found at its offset. */
  lemma PackAt(sel: seq<bool>, vals: seq<seq<Byte>>, i: nat)
    requires i < |sel| == |vals| && sel[i]
    ensures Offset(sel, vals, i) + |vals[i]| <= |Pack(sel, vals)|
    ensures Pack(sel, vals)[Offset(sel, vals, i)..Offset(sel, vals, i) + |vals[i]|] == vals[i]
  {
    var at := Pack(sel[..i], vals[..i]);
    PackNext(sel, vals, i);
    PackPrefix(sel, vals, i + 1);
    var next, all := Pack(sel[..i + 1], vals[..i + 1]), Pack(sel, vals);
    assert next[|at|..] == vals[i];
    assert all[..|next|] == next;
    assert all[|at|..|next|] == next[|at|..];
  }

  lemma PackNext(sel: seq<bool>, vals: seq<seq<Byte>>, i: nat)
    requires i < |sel| == |vals|
    ensures Pack(sel[..i + 1], vals[..i + 1]) == Pack(sel[..i], vals[..i]) + if sel[i] then vals[i] else []
  {
    assert sel[..i + 1][..i] == sel[..i] && vals[..i + 1][..i] == vals[..i];
  }

  /** Overwriting a selected value in place changes that value and no other. */
  lemma {:induction false} PackUpdate(sel: seq<bool>, vals: seq<seq<Byte>>, i: nat, v: seq<Byte>)
    requires i < |sel| == |vals| && sel[i] && |v| == |vals[i]|
    ensures Offset(sel, vals, i) + |v| <= |Pack(sel, vals)|
    ensures Pack(sel, vals[i := v]) == Splice(Pack(sel, vals), Offset(sel, vals, i), v)
    decreases |sel|
  {
    var n := |sel| - 1;
    PackAt(sel, vals, i);
    if i == n {
      assert vals[i := v][..n] == vals[..n];
    } else {
      PackUpdate(sel[..n], vals[..n], i, v);
      assert vals[i := v][..n] == vals[..n][i := v];
      assert sel[..n][..i] == sel[..i] && vals[..n][..i] == vals[..i];
      SpliceLeft(Pack(sel[..n], vals[..n]), if sel[n] then vals[n] else [], Offset(sel, vals, i), v);
    }
  }

  lemma SpliceLeft(s: seq<Byte>, t: seq<Byte>, at: nat, v: seq<Byte>)
    requires at + |v| <= |s|
    ensures Splice(s + t, at, v) == Splice(s, at, v) + t
  {
  }

  /** The layout depends on the sizes of the values only. */
  lemma {:induction false} OffsetBySize(sel: seq<bool>, vals: seq<seq<Byte>>, others: seq<seq<Byte>>, i: nat)
    requires i <= |sel| == |vals| == |others|
    requires forall k :: 0 <= k < i && sel[k] ==> |vals[k]| == |others[k]|
    ensures Offset(sel, vals, i) == Offset(sel, others, i)
  {
    if i > 0 {
      OffsetBySize(sel, vals, others, i - 1);
      PackNext(sel, vals, i - 1);
      PackNext(sel, others, i - 1);
    }
  }

  // ---- messages ----

  function Ins(ds: seq<Desc>): (sel: seq<bool>)
    ensures |sel| == |ds| && forall i :: 0 <= i < |ds| ==> sel[i] == ds[i].input
  {
    seq(|ds|, i requires 0 <= i < |ds| => ds[i].input)
  }

  function Outs(ds: seq<Desc>): (sel: seq<bool>)
    ensures |sel| == |ds| && forall i :: 0 <= i < |ds| ==> sel[i] == ds[i].output
  {
    seq(|ds|, i requires 0 <= i < |ds| => ds[i].output)
  }

  /** Each argument is memory of at least its descriptor's size. */
  predicate Fits(ds: seq<Desc>, args: seq<seq<Byte>>) {
    |args| == |ds| && forall i :: 0 <= i < |ds| ==> ds[i].length <= |args[i]|
  }

  /** The bytes of the arguments that belong to the call. */
  function Vals(ds: seq<Desc>, args: seq<seq<Byte>>): (vals: seq<seq<Byte>>)
    requires Fits(ds, args)
    ensures |vals| == |ds| && forall i :: 0 <= i < |ds| ==> vals[i] == args[i][..ds[i].length]
  {
    seq(|ds|, i requires 0 <= i < |ds| => args[i][..ds[i].length])
  }

  function Header(fcode: Int32, ds: seq<Desc>): (b: seq<Byte>)
    requires |ds| < 0x8000_0000
    ensures |b| == 8 + 4 * |ds|
  {
    IntBytes(fcode) + IntBytes(|ds|) + DescsBytes(ds)
  }

  function Request(fcode: Int32, ds: seq<Desc>, vals: seq<seq<Byte>>): seq<Byte>
    requires |vals| == |ds| < 0x8000_0000
  {
    Header(fcode, ds) + Pack(Ins(ds), vals)
  }

  function Response(fcode: Int32, ds: seq<Desc>, vals: seq<seq<Byte>>): seq<Byte>
    requires |vals| == |ds|
  {
    IntBytes(fcode) + Pack(Outs(ds), vals)
  }

  /** A request says what its function code and its descriptors are. */
  lemma HeaderReads(fcode: Int32, ds: seq<Desc>, msg: seq<Byte>)
    requires |ds| < 0x8000_0000 && Header(fcode, ds) <= msg
    ensures IntOf(msg[0..4]) == fcode && IntOf(msg[4..8]) == |ds|
    ensures forall i :: 0 <= i < |ds| ==> DescOf(msg[8 + 4 * i..8 + 4 * i + 4]) == ds[i]
  {
    var h := Header(fcode, ds);
    IntRoundTrip(fcode);
    IntRoundTrip(|ds|);
    assert msg[0..4] == h[0..4] == IntBytes(fcode);
    assert msg[4..8] == h[4..8] == IntBytes(|ds|);
    forall i | 0 <= i < |ds|
      ensures DescOf(msg[8 + 4 * i..8 + 4 * i + 4]) == ds[i]
    {
      DescsAt(ds, i);
      DescRoundTrip(ds[i]);
      assert msg[8 + 4 * i..8 + 4 * i + 4] == h[8..][4 * i..4 * i + 4];
      assert h[8..] == DescsBytes(ds);
    }
  }
}
