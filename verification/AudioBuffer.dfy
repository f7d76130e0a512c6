/** The audio drivers' copy loops on the real buffer: chunks up to the wrap-around point, one `memcpy`
  * each, with the index stored per chunk.  Each is proved equal to moving the words one by one. */
module AudioBuffer {
  import opened Arith
  import opened AudioRing
  import opened Seqs

  // ---- a chunk equals its words ----

  /** Words that do not reach past the end of the buffer land side by side. */
  lemma {:induction false} PutChunk(r: Ring, xs: seq<int>)
    requires r.size == |r.buf| && r.writeIndex < r.size && r.writeIndex + |xs| <= r.size
    ensures PutAll(r, xs) == r.(buf := Splice(r.buf, r.writeIndex, xs), writeIndex := Wrap(r.writeIndex + |xs|, r.size),
                                hist := r.hist + xs)
    decreases |xs|
  {
    if xs == [] {
      assert Splice(r.buf, r.writeIndex, xs) == r.buf && r.hist + xs == r.hist;
    } else {
      var n := |xs| - 1;
      PutChunk(r, xs[..n]);
      assert xs == xs[..n] + [xs[n]];
      assert r.hist + xs == (r.hist + xs[..n]) + [xs[n]];
      assert Splice(r.buf, r.writeIndex, xs[..n])[r.writeIndex + n := xs[n]] == Splice(r.buf, r.writeIndex, xs);
    }
  }

  lemma {:induction false} PutAllConcat(r: Ring, xs: seq<int>, ys: seq<int>)
    requires r.size == |r.buf| && r.writeIndex < r.size
    ensures PutAll(r, xs + ys) == PutAll(PutAll(r, xs), ys)
    decreases |ys|
  {
    if ys == [] {
      assert xs + ys == xs;
    } else {
      var n := |ys| - 1;
      PutAllConcat(r, xs, ys[..n]);
      assert (xs + ys)[..|xs| + n] == xs + ys[..n];
    }
  }

  lemma {:induction false} TakeChunk(r: Ring, n: nat)
    requires r.size == |r.buf| && r.readIndex < r.size && r.readIndex + n <= r.size
    ensures TakeAll(r, n) == r.(readIndex := Wrap(r.readIndex + n, r.size),
                                out := r.out + r.buf[r.readIndex..r.readIndex + n])
  {
    if n == 0 {
      assert r.out + r.buf[r.readIndex..r.readIndex] == r.out;
    } else {
      TakeChunk(r, n - 1);
      var i := r.readIndex;
      assert r.buf[i..i + n] == r.buf[i..i + n - 1] + [r.buf[i + n - 1]];
      assert r.out + r.buf[i..i + n] == (r.out + r.buf[i..i + n - 1]) + [r.buf[i + n - 1]];
    }
  }

  lemma {:induction false} TakeAllSum(r: Ring, n: nat, m: nat)
    requires r.size == |r.buf| && r.readIndex < r.size
    ensures TakeAll(r, n + m) == TakeAll(TakeAll(r, n), m)
    decreases m
  {
    if m != 0 {
      TakeAllSum(r, n, m - 1);
    }
  }

  lemma PutNothing(r: Ring)
    ensures PutAll(r, []) == r
  {
  }

  lemma TakeNothing(r: Ring)
    ensures TakeAll(r, 0) == r
  {
  }

  lemma Bounds(r: Ring)
    requires Inv(r)
    ensures 0 < r.size == |r.buf| && r.writeIndex < r.size && r.readIndex < r.size
    ensures Free(r) == r.size - Available(r) >= 0
  {
    IndexBounds(r);
    FillLevel(r);
    hide Inv, Available;
  }

  /** A block that fits, copied in and published, is appended to the history. */
  lemma Stored(r: Ring, xs: seq<int>)
    requires Inv(r) && Putting(r) == Taking(r) == 0 && |xs| <= Free(r)
    ensures 0 < r.size == |r.buf| && r.writeIndex < r.size
    ensures var p := PutAll(r, xs);
      && p.hist == r.hist + xs && p.out == r.out && p.totalWritten == r.totalWritten
      && Publish(p) == p.(totalWritten := (r.totalWritten + |xs|) % U32, written := |p.hist|)
      && Inv(Publish(p)) && Putting(Publish(p)) == Taking(Publish(p)) == 0
  {
    hide Inv, PutAll;
    Bounds(r);
    FillLevel(r);
    PutAllKeeps(r, xs);
    PutAllFrame(r, xs);
    PublishKeeps(PutAll(r, xs));
  }

  lemma {:induction false} PutAllFrame(r: Ring, xs: seq<int>)
    requires r.size == |r.buf| && r.writeIndex < r.size
    ensures var p := PutAll(r, xs);
      p == Ring(r.size, p.buf, p.writeIndex, r.readIndex, r.totalWritten, r.totalRead, p.hist, r.written, r.read, r.out)
  {
    if xs != [] { PutAllFrame(r, xs[..|xs| - 1]); }
  }

  /** Available words, copied out and released, are the next words of the history. */
  lemma Taken(r: Ring, n: nat)
    requires Inv(r) && Putting(r) == Taking(r) == 0 && n <= Available(r)
    ensures 0 < r.size == |r.buf| && r.readIndex < r.size
    ensures var p := TakeAll(r, n);
      && |p.out| == |r.out| + n && p.out <= r.hist && p.hist == r.hist && p.totalRead == r.totalRead
      && Release(p) == p.(totalRead := (r.totalRead + n) % U32, read := |p.out|)
      && Inv(Release(p)) && Putting(Release(p)) == Taking(Release(p)) == 0
  {
    hide Inv, TakeAll;
    Bounds(r);
    FillLevel(r);
    TakeAllKeeps(r, n);
    OutLength(TakeAll(r, n), r, n);
    TakeAllFrame(r, n);
    ReleaseKeeps(TakeAll(r, n));
  }

  lemma OutLength(p: Ring, r: Ring, n: nat)
    requires Inv(r) && |r.out| + n <= r.written && p.out == r.hist[..|r.out| + n]
    ensures |p.out| == |r.out| + n && p.out <= r.hist
  {
  }

  lemma {:induction false} TakeAllFrame(r: Ring, n: nat)
    requires r.size == |r.buf| && r.readIndex < r.size
    ensures var p := TakeAll(r, n);
      p == Ring(r.size, r.buf, r.writeIndex, p.readIndex, r.totalWritten, r.totalRead, r.hist, r.written, r.read, p.out)
  {
    if n != 0 { TakeAllFrame(r, n - 1); }
  }

  lemma SpliceTwice(d: seq<int>, s: seq<int>, t: seq<int>)
    requires |s| + |t| <= |d|
    ensures Splice(Splice(d, 0, s), |s|, t) == Splice(d, 0, s + t)
  {
  }

  // ---- the code ----

  /** `memcpy` of whole words. */
  method Memcpy(dst: array<int>, offset: nat, src: seq<int>)
    requires offset + |src| <= dst.Length
    modifies dst
    ensures dst[..] == Splice(old(dst[..]), offset, src)
  {
    forall k | 0 <= k < |src| {
      dst[offset + k] := src[k];
    }
  }

  function Min(a: nat, b: nat): nat { if a < b then a else b }

  class Buffer {
    const buf: array<int>
    const bufSize: nat
    var writeIndex: nat
    var readIndex: nat
    var totalWritten: nat
    var totalRead: nat
    ghost var hist: seq<int>
    ghost var written: nat
    ghost var read: nat
    ghost var out: seq<int>

    constructor (size: nat)
      requires 0 < size < U32
      ensures bufSize == size && Valid() && fresh(buf) && Ring() == Empty(buf[..])
    {
      buf := new int[size];
      bufSize := size;
      writeIndex, readIndex, totalWritten, totalRead := 0, 0, 0, 0;
      hist, written, read, out := [], 0, 0, [];
      new;
      EmptyInv(buf[..]);
    }

    ghost function Ring(): Ring
      reads this, buf
    {
      AudioRing.Ring(bufSize, buf[..], writeIndex, readIndex, totalWritten, totalRead, hist, written, read, out)
    }

    ghost predicate Valid()
      reads this, buf
    {
      Inv(Ring()) && Putting(Ring()) == 0 && Taking(Ring()) == 0
    }

    method WordsAvailable() returns (n: nat)
      requires Valid()
      ensures n == Available(Ring()) == |hist| - |out|
    {
      n := (totalWritten - totalRead) % U32;
      FillLevel(Ring());
    }

    /** The copy loop of the mic-array interrupt and of `i2s_local_tx`: the block goes in whole, in
      * chunks that end at the wrap-around point, and is then published. */
    method WriteBlock(block: seq<int>)
      requires Valid() && |block| <= Free(Ring())
      modifies this, buf
      ensures Valid() && Ring() == Publish(PutAll(old(Ring()), block))
      ensures hist == old(hist) + block && out == old(out)
    {
      hide Inv, PutAll, Free, Available, Publish;
      ghost var r := Ring();
      Stored(r, block);
      CopyIn(block);
      totalWritten := (totalWritten + |block|) % U32;
      written := |hist|;
    }

    method CopyIn(block: seq<int>)
      requires writeIndex < bufSize == buf.Length
      modifies this`writeIndex, this`hist, buf
      ensures Ring() == PutAll(old(Ring()), block)
    {
      hide PutAll;
      ghost var r := Ring();
      var wordsRemaining: nat, p: nat := |block|, 0;
      PutNothing(r);
      assert block[..0] == [];
      while wordsRemaining > 0
        invariant p + wordsRemaining == |block| && writeIndex < bufSize == buf.Length
        invariant Ring() == PutAll(r, block[..p])
      {
        var wordsToCopy := Min(wordsRemaining, bufSize - writeIndex);
        PutAllConcat(r, block[..p], block[p..p + wordsToCopy]);
        WriteChunk(block[p..p + wordsToCopy]);
        assert block[..p + wordsToCopy] == block[..p] + block[p..p + wordsToCopy];
        p := p + wordsToCopy;
        wordsRemaining := wordsRemaining - wordsToCopy;
      }
      assert block[..p] == block;
    }

    /** One chunk: a `memcpy` at the write index, the index moved on, and wrapped at the end. */
    method WriteChunk(chunk: seq<int>)
      requires writeIndex < bufSize == buf.Length && writeIndex + |chunk| <= bufSize
      modifies this`writeIndex, this`hist, buf
      ensures Ring() == PutAll(old(Ring()), chunk) && writeIndex < bufSize
    {
      hide PutAll;
      PutChunk(Ring(), chunk);
      Memcpy(buf, writeIndex, chunk);
      writeIndex := writeIndex + |chunk|;
      if writeIndex >= bufSize {
        writeIndex := 0;
      }
      hist := hist + chunk;
    }

    /** The receive path of the mic-array interrupt: a block that does not fit is dropped whole. */
    method ReceiveOrDrop(block: seq<int>) returns (kept: bool)
      requires Valid()
      modifies this, buf
      ensures Valid() && kept == (|block| <= bufSize - (|old(hist)| - |old(out)|))
      ensures hist == (if kept then old(hist) + block else old(hist)) && out == old(out)
      ensures !kept ==> Ring() == old(Ring())
    {
      hide Inv, PutAll, Publish;
      FillLevel(Ring());
      var wordsAvailable := WordsAvailable();
      var wordsFree := bufSize - wordsAvailable;
      kept := |block| <= wordsFree;
      if kept {
        WriteBlock(block);
      }
    }

    /** The copy loop of the two local receive calls: n available words leave in order of arrival. */
    method ReadWords(n: nat, dst: array<int>)
      requires Valid() && n <= Available(Ring()) && n <= dst.Length && dst != buf
      modifies this, dst
      ensures Valid() && Ring() == Release(TakeAll(old(Ring()), n)) && hist == old(hist)
      ensures |out| == |old(out)| + n && out <= hist && dst[..] == Splice(old(dst[..]), 0, out[|old(out)|..])
    {
      hide Inv, TakeAll, Available, Release;
      ghost var r := Ring();
      Taken(r, n);
      CopyOut(n, dst);
      totalRead := (totalRead + n) % U32;
      read := |out|;
    }

    method CopyOut(n: nat, dst: array<int>)
      requires readIndex < bufSize == buf.Length && n <= dst.Length && dst != buf
      modifies this`readIndex, this`out, dst
      ensures Ring() == TakeAll(old(Ring()), n) && |out| == |old(out)| + n
      ensures dst[..] == Splice(old(dst[..]), 0, out[|old(out)|..])
    {
      hide TakeAll;
      ghost var r, d := Ring(), dst[..];
      var wordsRemaining: nat, p: nat := n, 0;
      TakeNothing(r);
      while wordsRemaining > 0
        invariant p + wordsRemaining == n && readIndex < bufSize == buf.Length
        invariant Ring() == TakeAll(r, p) && |out| == |r.out| + p
        invariant dst[..] == Splice(d, 0, out[|r.out|..])
      {
        var wordsToCopy := Min(wordsRemaining, bufSize - readIndex);
        TakeAllSum(r, p, wordsToCopy);
        ghost var taken, chunk := out[|r.out|..], buf[readIndex..readIndex + wordsToCopy];
        ReadChunk(wordsToCopy, dst, p);
        assert out[|r.out|..] == taken + chunk;
        SpliceTwice(d, taken, chunk);
        p := p + wordsToCopy;
        wordsRemaining := wordsRemaining - wordsToCopy;
      }
    }

    method ReadChunk(n: nat, dst: array<int>, p: nat)
      requires readIndex < bufSize == buf.Length && readIndex + n <= bufSize && p + n <= dst.Length && dst != buf
      modifies this`readIndex, this`out, dst
      ensures Ring() == TakeAll(old(Ring()), n) && readIndex < bufSize
      ensures out == old(out) + buf[old(readIndex)..old(readIndex) + n]
      ensures dst[..] == Splice(old(dst[..]), p, buf[old(readIndex)..old(readIndex) + n])
    {
      hide TakeAll;
      TakeChunk(Ring(), n);
      out := out + buf[readIndex..readIndex + n];
      Memcpy(dst, p, buf[readIndex..readIndex + n]);
      readIndex := readIndex + n;
      if readIndex >= bufSize {
        readIndex := 0;
      }
    }

    /** `i2s_receive` without a filter: one `memcpy` per frame, which never crosses the end of the
      * buffer because the buffer holds whole frames. */
    method I2sReceive(frame: seq<int>) returns (kept: bool)
      requires Valid() && 0 < |frame| && bufSize % |frame| == 0 && writeIndex % |frame| == 0
      modifies this, buf
      ensures Valid() && writeIndex % |frame| == 0 && kept == (|frame| <= bufSize - (|old(hist)| - |old(out)|))
      ensures hist == (if kept then old(hist) + frame else old(hist)) && out == old(out)
      ensures !kept ==> Ring() == old(Ring())
    {
      hide Inv, PutAll, Available, Free, Publish;
      ghost var r := Ring();
      Bounds(r);
      var wordsAvailable := WordsAvailable();
      var wordsFree := bufSize - wordsAvailable;
      kept := |frame| <= wordsFree;
      if kept {
        ReceiveFrame(frame);
      }
    }

    method ReceiveFrame(frame: seq<int>)
      requires Valid() && 0 < |frame| <= Free(Ring()) && bufSize % |frame| == 0 && writeIndex % |frame| == 0
      modifies this, buf
      ensures Valid() && Ring() == Publish(PutAll(old(Ring()), frame)) && writeIndex % |frame| == 0
      ensures hist == old(hist) + frame && out == old(out)
    {
      hide Inv, PutAll, Available, Free, Publish;
      ghost var r := Ring();
      Bounds(r);
      AlignedFits(writeIndex, bufSize, |frame|);
      Stored(r, frame);
      PutChunk(r, frame);
      WriteChunk(frame);
      totalWritten := (totalWritten + |frame|) % U32;
      written := |hist|;
    }

    /** `i2s_send` without a filter: a frame leaves only if all of it is there. */
    method I2sSend(n: nat, dst: array<int>) returns (sent: bool)
      requires Valid() && 0 < n == dst.Length && dst != buf && bufSize % n == 0 && readIndex % n == 0
      modifies this, dst
      ensures Valid() && readIndex % n == 0 && sent == (n <= |old(hist)| - |old(out)|) && hist == old(hist)
      ensures sent ==> |out| == |old(out)| + n && out <= hist && dst[..] == out[|old(out)|..]
      ensures !sent ==> Ring() == old(Ring()) && dst[..] == old(dst[..])
    {
      hide Inv, TakeAll, Available, Free, Release;
      var wordsAvailable := WordsAvailable();
      sent := wordsAvailable >= n;
      if sent {
        SendFrame(n, dst);
      }
    }

    method SendFrame(n: nat, dst: array<int>)
      requires Valid() && 0 < n == dst.Length && n <= Available(Ring()) && dst != buf
      requires bufSize % n == 0 && readIndex % n == 0
      modifies this, dst
      ensures Valid() && Ring() == Release(TakeAll(old(Ring()), n)) && readIndex % n == 0 && hist == old(hist)
      ensures |out| == |old(out)| + n && out <= hist && dst[..] == out[|old(out)|..]
    {
      hide Inv, TakeAll, Available, Free, Release;
      ghost var r := Ring();
      Bounds(r);
      AlignedFits(readIndex, bufSize, n);
      Taken(r, n);
      TakeChunk(r, n);
      ReadChunk(n, dst, 0);
      totalRead := (totalRead + n) % U32;
      read := |out|;
    }
  }

  /** A frame at a frame boundary ends at or before the end of a buffer of whole frames. */
  lemma AlignedFits(index: nat, size: nat, width: nat)
    requires 0 < width && index < size && size % width == 0 && index % width == 0
    ensures index + width <= size && Wrap(index + width, size) % width == 0
  {
    DivMod(index, width);
    DivMod(size, width);
    var i, n := index / width, size / width;
    if i >= n { MulMonotone(n, i, width); }
    MulMonotone(i + 1, n, width);
    MulDistrib(i, 1, width);
    ModUnique(index + width, i + 1, 0, width);
    ModUnique(0, 0, 0, width);
  }
}
