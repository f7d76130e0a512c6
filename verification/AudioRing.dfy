/** The word ring shared by the audio drivers: one producer and one consumer, indices that wrap at the
  * buffer size, and free-running 32-bit totals.
  *
  * `hist`, `written`, `read` and `out` are not in the drivers: they record every word put, the unbounded
  * totals, and every word taken, and the invariant ties the real fields to them. */
module AudioRing {
  import opened Arith

  const U32: nat := 0x1_0000_0000

  datatype Ring = Ring(size: nat, buf: seq<int>, writeIndex: nat, readIndex: nat, totalWritten: nat, totalRead: nat,
                       hist: seq<int>, written: nat, read: nat, out: seq<int>)

  function Empty(buf: seq<int>): Ring {
    Ring(|buf|, buf, 0, 0, 0, 0, [], 0, 0, [])
  }

  /** Words put but not yet published, and words taken but not yet released. */
  function Putting(r: Ring): int { |r.hist| - r.written }

  function Taking(r: Ring): int { |r.out| - r.read }

  /** The index after one more word, as the copy loops wrap it. */
  function Wrap(i: nat, size: nat): nat {
    if i >= size then 0 else i
  }

  /** `total_written - total_read` in 32-bit arithmetic. */
  function Available(r: Ring): nat {
    (r.totalWritten - r.totalRead) % U32
  }

  function Free(r: Ring): int {
    r.size - Available(r)
  }

  function Put(r: Ring, x: int): Ring
    requires r.writeIndex < |r.buf|
  {
    r.(buf := r.buf[r.writeIndex := x], writeIndex := Wrap(r.writeIndex + 1, r.size), hist := r.hist + [x])
  }

  function Publish(r: Ring): Ring {
    r.(totalWritten := (r.totalWritten + Putting(r)) % U32, written := |r.hist|)
  }

  function Take(r: Ring): Ring
    requires r.readIndex < |r.buf|
  {
    r.(readIndex := Wrap(r.readIndex + 1, r.size), out := r.out + [r.buf[r.readIndex]])
  }

  function Release(r: Ring): Ring {
    r.(totalRead := (r.totalRead + Taking(r)) % U32, read := |r.out|)
  }

  /** The buffer holds every word put and not yet released, each at its position modulo the size, and
    * what has been taken is a prefix of what has been put. */
  ghost predicate Inv(r: Ring) {
    && 0 < r.size == |r.buf| < U32
    && r.read <= |r.out| <= r.written <= |r.hist| <= r.read + r.size
    && r.totalWritten == r.written % U32 && r.totalRead == r.read % U32
    && r.writeIndex == |r.hist| % r.size && r.readIndex == |r.out| % r.size
    && (forall a | r.read <= a < |r.hist| :: r.buf[a % r.size] == r.hist[a])
    && r.out == r.hist[..|r.out|]
  }

  lemma EmptyInv(buf: seq<int>)
    requires 0 < |buf| < U32
    ensures Inv(Empty(buf))
  {
  }

  /** Positions less than one buffer apart have different indices. */
  lemma DistinctIndex(a: nat, b: nat, size: nat)
    requires size > 0 && a < b < a + size
    ensures a % size != b % size
  {
    DivMod(a, size);
    DivMod(b, size);
    var q := b / size - a / size;
    MulDistrib(b / size, a / size, size);
    if a % size == b % size {
      if q <= 0 {
        MulMonotone(q, 0, size);
      } else {
        MulAtLeast(q, size);
      }
    }
  }

  lemma ModOfDifference(w: nat, r: nat, m: nat)
    requires m > 0 && r <= w < r + m
    ensures (w % m - r % m) % m == w - r
  {
    DivMod(w, m);
    DivMod(r, m);
    var k := w / m - r / m;
    MulDistrib(w / m, r / m, m);
    assert w % m - r % m == (w - r) + (-k) * m by { MulDistrib(0, k, m); }
    ModMultiple(w - r, -k, m);
    ModUnique(w - r, 0, w - r, m);
  }

  lemma ModOfSum(w: nat, k: nat, m: nat)
    requires m > 0
    ensures (w % m + k) % m == (w + k) % m
  {
    DivMod(w, m);
    ModMultiple(w % m + k, w / m, m);
  }

  /** The 32-bit difference of the totals is the true fill level, however often they have wrapped. */
  lemma FillLevel(r: Ring)
    requires Inv(r)
    ensures Available(r) == r.written - r.read && Free(r) == r.size - (r.written - r.read) && Free(r) >= 0
  {
    ModOfDifference(r.written, r.read, U32);
  }

  /** Putting into a free slot overwrites no word that has not been released. */
  lemma PutKeeps(r: Ring, x: int)
    requires Inv(r) && |r.hist| < r.read + r.size
    ensures Inv(Put(r, x))
  {
    NextMod(|r.hist|, r.size);
    var p := Put(r, x);
    forall a | p.read <= a < |p.hist|
      ensures p.buf[a % p.size] == p.hist[a]
    {
      if a < |r.hist| { DistinctIndex(a, |r.hist|, r.size); }
    }
  }

  lemma PublishKeeps(r: Ring)
    requires Inv(r)
    ensures Inv(Publish(r)) && Putting(Publish(r)) == 0
  {
    ModOfSum(r.written, Putting(r), U32);
  }

  /** Taking while published words remain yields the next word of the history. */
  lemma TakeKeeps(r: Ring)
    requires Inv(r) && |r.out| < r.written
    ensures Inv(Take(r)) && Take(r).out == r.out + [r.hist[|r.out|]]
  {
    NextMod(|r.out|, r.size);
    assert r.hist[..|r.out| + 1] == r.hist[..|r.out|] + [r.hist[|r.out|]];
  }

  lemma ReleaseKeeps(r: Ring)
    requires Inv(r)
    ensures Inv(Release(r)) && Taking(Release(r)) == 0
  {
    ModOfSum(r.read, Taking(r), U32);
  }

  lemma IndexBounds(r: Ring)
    requires Inv(r)
    ensures 0 < r.size == |r.buf| && r.writeIndex < r.size && r.readIndex < r.size
    ensures r.read <= |r.out| <= r.written <= |r.hist| <= r.read + r.size
  {
  }

  // ---- whole blocks ----

  function PutAll(r: Ring, xs: seq<int>): (p: Ring)
    requires |xs| == 0 || (r.size == |r.buf| > 0 && r.writeIndex < |r.buf|)
    ensures p.size == r.size && |p.buf| == |r.buf| && (r.writeIndex < r.size == |r.buf| ==> p.writeIndex < p.size)
  {
    if xs == [] then r else Put(PutAll(r, xs[..|xs| - 1]), xs[|xs| - 1])
  }

  function TakeAll(r: Ring, n: nat): (p: Ring)
    requires n == 0 || (r.size == |r.buf| > 0 && r.readIndex < |r.buf|)
    ensures p.size == r.size && p.buf == r.buf && (r.readIndex < r.size == |r.buf| ==> p.readIndex < p.size)
  {
    if n == 0 then r else Take(TakeAll(r, n - 1))
  }

  /** Putting a whole block where it fits appends it to the history. */
  lemma {:induction false} PutAllKeeps(r: Ring, xs: seq<int>)
    requires Inv(r) && |r.hist| + |xs| <= r.read + r.size
    ensures Inv(PutAll(r, xs)) && PutAll(r, xs).hist == r.hist + xs
    ensures PutAll(r, xs).read == r.read && PutAll(r, xs).out == r.out && PutAll(r, xs).written == r.written
  {
    IndexBounds(r);
    hide Inv;
    if xs != [] {
      var n := |xs| - 1;
      PutAllKeeps(r, xs[..n]);
      PutKeeps(PutAll(r, xs[..n]), xs[n]);
      PutLast(r.hist, xs);
    }
  }

  lemma PutLast(h: seq<int>, xs: seq<int>)
    requires xs != []
    ensures h + xs == (h + xs[..|xs| - 1]) + [xs[|xs| - 1]]
  {
    assert xs == xs[..|xs| - 1] + [xs[|xs| - 1]];
  }

  /** Taking n published words yields the next n words of the history in order. */
  lemma {:induction false} TakeAllKeeps(r: Ring, n: nat)
    requires Inv(r) && |r.out| + n <= r.written
    ensures Inv(TakeAll(r, n)) && TakeAll(r, n).out == r.hist[..|r.out| + n]
    ensures TakeAll(r, n).read == r.read && TakeAll(r, n).hist == r.hist && TakeAll(r, n).written == r.written
  {
    IndexBounds(r);
    hide Inv;
    if n != 0 {
      TakeAllKeeps(r, n - 1);
      TakeKeeps(TakeAll(r, n - 1));
      assert r.hist[..|r.out| + n] == r.hist[..|r.out| + n - 1] + [r.hist[|r.out| + n - 1]];
    }
  }
}
