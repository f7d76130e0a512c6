/** Overlaying input data on an image: what the data-partition tool's file loop does to the image, and
  * what the image then is. */
module MkImage {

  type Byte = x: int | 0 <= x < 256

  datatype Input = Input(offset: nat, data: seq<Byte>)

  function End(x: Input): nat { x.offset + |x.data| }

  /** The image so far and `last_write_offset`. */
  datatype Image = Image(contents: seq<Byte>, last: nat)

  datatype Outcome = Done(im: Image) | Overlap

  /** Writing at a position within the file or at its end. */
  function Overlay(c: seq<Byte>, at: nat, d: seq<Byte>): (o: seq<Byte>)
    requires at <= |c|
    ensures |o| == if at + |d| <= |c| then |c| else at + |d|
    ensures forall a :: 0 <= a < |o| ==> o[a] == if at <= a < at + |d| then d[a - at] else c[a]
  {
    c[..at] + d + if at + |d| <= |c| then c[at + |d|..] else []
  }

  lemma OverlayTwice(c: seq<Byte>, at: nat, d: seq<Byte>, e: seq<Byte>)
    requires at <= |c|
    ensures Overlay(Overlay(c, at, d), at + |d|, e) == Overlay(c, at, d + e)
  {
    var once, all := Overlay(c, at, d), d + e;
    forall a | 0 <= a < |Overlay(c, at, all)|
      ensures a < |Overlay(once, at + |d|, e)| && Overlay(once, at + |d|, e)[a] == Overlay(c, at, all)[a]
    {
      if at <= a < at + |d| { assert all[a - at] == d[a - at]; }
    }
  }

  function Fill(n: nat, fill: Byte): (f: seq<Byte>)
    ensures |f| == n && forall k :: 0 <= k < n ==> f[k] == fill
  {
    seq(n, _ => fill)
  }

  /** One pass of the file loop: an input at or after the last write goes in, over what is there; an empty
    * one before it is skipped; one past the end is preceded by padding. */
  function Place(im: Image, x: Input, fill: Byte): Outcome {
    if x.offset <= |im.contents| then
      if x.offset >= im.last then Done(Image(Overlay(im.contents, x.offset, x.data), End(x)))
      else if x.data == [] then Done(im)
      else Overlap
    else Done(Image(im.contents + Fill(x.offset - |im.contents|, fill) + x.data, End(x)))
  }

  function PlaceAll(was: seq<Byte>, xs: seq<Input>, fill: Byte): Outcome
    decreases |xs|
  {
    if xs == [] then Done(Image(was, 0))
    else
      var r := PlaceAll(was, xs[..|xs| - 1], fill);
      if r.Done? then Place(r.im, xs[|xs| - 1], fill) else r
  }

  // ---- what it comes to ----

  predicate Apart(x: Input, y: Input) {
    x.data == [] || y.data == [] || End(x) <= y.offset || End(y) <= x.offset
  }

  /** The non-empty inputs are pairwise disjoint. */
  ghost predicate Disjoint(xs: seq<Input>) {
    forall i, j :: 0 <= i < j < |xs| ==> Apart(xs[i], xs[j])
  }

  ghost predicate Sorted(xs: seq<Input>) {
    forall i, j :: 0 <= i < j < |xs| ==> xs[i].offset <= xs[j].offset
  }

  /** The greatest end of an input, zero if there is none. */
  ghost predicate IsMaxEnd(m: nat, xs: seq<Input>) {
    && (forall x :: x in xs ==> End(x) <= m)
    && (if xs == [] then m == 0 else exists x :: x in xs && End(x) == m)
  }

  predicate Covers(x: Input, a: int) { x.offset <= a < End(x) }

  /** Inputs at their offsets; elsewhere the old contents, and the fill byte past their end. */
  ghost predicate IsImage(c: seq<Byte>, was: seq<Byte>, xs: seq<Input>, fill: Byte, m: nat) {
    && |c| == (if m <= |was| then |was| else m)
    && (forall x, a {:trigger Covers(x, a)} :: x in xs && Covers(x, a) ==> a < |c| && c[a] == x.data[a - x.offset])
    && (forall a :: 0 <= a < |c| && Uncovered(xs, a) ==> c[a] == if a < |was| then was[a] else fill)
  }

  ghost predicate Uncovered(xs: seq<Input>, a: int) {
    forall x :: x in xs ==> !Covers(x, a)
  }

  lemma LastOf(xs: seq<Input>)
    requires xs != []
    ensures var ys, x := xs[..|xs| - 1], xs[|xs| - 1];
            && xs == ys + [x] && (forall y :: y in xs <==> y in ys || y == x)
            && (Disjoint(xs) <==> Disjoint(ys) && forall y :: y in ys ==> Apart(y, x))
            && (Sorted(xs) ==> Sorted(ys) && forall y :: y in ys ==> y.offset <= x.offset)
  {
    var n := |xs| - 1;
    var ys, x := xs[..n], xs[n];
    assert xs == ys + [x];
    assert forall i :: 0 <= i < n ==> ys[i] == xs[i];
  }

  /** For inputs in order of their offsets: they are placed if and only if the non-empty ones are disjoint,
    * and then the image is as it should be and the last write ends at the greatest end. */
  lemma {:induction false} PlaceAllCorrect(was: seq<Byte>, xs: seq<Input>, fill: Byte)
    requires Sorted(xs)
    ensures PlaceAll(was, xs, fill).Done? <==> Disjoint(xs)
    ensures Disjoint(xs) ==> var im := PlaceAll(was, xs, fill).im;
                             IsMaxEnd(im.last, xs) && IsImage(im.contents, was, xs, fill, im.last)
    decreases |xs|
  {
    if xs == [] {
    } else {
      var ys, x := xs[..|xs| - 1], xs[|xs| - 1];
      LastOf(xs);
      PlaceAllCorrect(was, ys, fill);
      if Disjoint(ys) {
        var im := PlaceAll(was, ys, fill).im;
        PlaceCorrect(was, ys, im, x, fill);
      }
    }
  }

  lemma PlaceCorrect(was: seq<Byte>, ys: seq<Input>, im: Image, x: Input, fill: Byte)
    requires IsMaxEnd(im.last, ys) && IsImage(im.contents, was, ys, fill, im.last)
    requires forall y :: y in ys ==> y.offset <= x.offset
    ensures Place(im, x, fill).Done? <==> forall y :: y in ys ==> Apart(y, x)
    ensures Place(im, x, fill).Done? ==> var r := Place(im, x, fill).im;
                                         IsMaxEnd(r.last, ys + [x]) && IsImage(r.contents, was, ys + [x], fill, r.last)
  {
    PlaceDecides(was, ys, im, x, fill);
    var xs := ys + [x];
    assert forall y :: y in xs <==> y in ys || y == x;
    var r := Place(im, x, fill);
    if r.Done? {
      LastIsMax(ys, im, x, fill);
      if x.offset > |im.contents| {
        PadIsImage(was, ys, im, x, fill);
      } else if x.offset >= im.last {
        OverlayIsImage(was, ys, im, x, fill);
      } else {
        SkipIsImage(was, ys, im, x, fill);
      }
    }
  }

  lemma PlaceDecides(was: seq<Byte>, ys: seq<Input>, im: Image, x: Input, fill: Byte)
    requires IsMaxEnd(im.last, ys) && im.last <= |im.contents|
    requires forall y :: y in ys ==> y.offset <= x.offset
    ensures Place(im, x, fill).Done? <==> forall y :: y in ys ==> Apart(y, x)
  {
    hide IsImage;
    if Place(im, x, fill).Overlap? {
      var y :| y in ys && End(y) == im.last;
      assert !Apart(y, x);
    }
  }

  lemma LastIsMax(ys: seq<Input>, im: Image, x: Input, fill: Byte)
    requires IsMaxEnd(im.last, ys) && im.last <= |im.contents| && Place(im, x, fill).Done?
    ensures IsMaxEnd(Place(im, x, fill).im.last, ys + [x])
  {
    var r, xs := Place(im, x, fill).im, ys + [x];
    assert forall y :: y in xs <==> y in ys || y == x;
    if r.last == End(x) {
      assert x in xs;
    } else {
      var y :| y in ys && End(y) == im.last;
      assert y in xs;
    }
  }

  lemma SkipIsImage(was: seq<Byte>, ys: seq<Input>, im: Image, x: Input, fill: Byte)
    requires IsImage(im.contents, was, ys, fill, im.last) && x.data == []
    ensures IsImage(im.contents, was, ys + [x], fill, im.last)
  {
    var xs := ys + [x];
    assert forall y :: y in xs <==> y in ys || y == x;
    forall a | 0 <= a < |im.contents| && Uncovered(xs, a)
      ensures Uncovered(ys, a)
    {
    }
  }

  lemma OverlayIsImage(was: seq<Byte>, ys: seq<Input>, im: Image, x: Input, fill: Byte)
    requires IsImage(im.contents, was, ys, fill, im.last) && (forall y :: y in ys ==> End(y) <= im.last)
    requires im.last <= x.offset <= |im.contents|
    ensures IsImage(Overlay(im.contents, x.offset, x.data), was, ys + [x], fill, End(x))
  {
    var c, xs := Overlay(im.contents, x.offset, x.data), ys + [x];
    assert forall y :: y in xs <==> y in ys || y == x;
    forall y, a | y in xs && Covers(y, a)
      ensures a < |c| && c[a] == y.data[a - y.offset]
    {
    }
    forall a | 0 <= a < |c| && Uncovered(xs, a)
      ensures c[a] == if a < |was| then was[a] else fill
    {
      assert x in xs && !Covers(x, a);
      assert Uncovered(ys, a);
    }
  }

  lemma PadIsImage(was: seq<Byte>, ys: seq<Input>, im: Image, x: Input, fill: Byte)
    requires IsImage(im.contents, was, ys, fill, im.last) && (forall y :: y in ys ==> End(y) <= im.last)
    requires x.offset > |im.contents|
    ensures IsImage(im.contents + Fill(x.offset - |im.contents|, fill) + x.data, was, ys + [x], fill, End(x))
  {
    var c, xs := im.contents + Fill(x.offset - |im.contents|, fill) + x.data, ys + [x];
    assert forall y :: y in xs <==> y in ys || y == x;
    forall y, a | y in xs && Covers(y, a)
      ensures a < |c| && c[a] == y.data[a - y.offset]
    {
    }
    forall a | 0 <= a < |c| && Uncovered(xs, a)
      ensures c[a] == if a < |was| then was[a] else fill
    {
      assert x in xs && !Covers(x, a);
      assert Uncovered(ys, a);
    }
  }

  // ---- the order of the inputs does not matter ----

  lemma PairInMultiset(xs: seq<Input>, i: nat, j: nat)
    requires i < j < |xs|
    ensures multiset{xs[i], xs[j]} <= multiset(xs)
  {
    var a, b, c := xs[..i], xs[i + 1..j], xs[j + 1..];
    assert xs == a + [xs[i]] + b + [xs[j]] + c;
  }

  lemma Without(xs: seq<Input>, i: nat)
    requires i < |xs|
    ensures multiset(xs) == multiset(xs[..i] + xs[i + 1..]) + multiset{xs[i]}
  {
    assert xs == xs[..i] + [xs[i]] + xs[i + 1..];
  }

  lemma Find(xs: seq<Input>, x: Input) returns (i: nat)
    requires multiset(xs)[x] > 0
    ensures i < |xs| && xs[i] == x
  {
    assert x in multiset(xs);
    i :| i < |xs| && xs[i] == x;
  }

  lemma PairFromMultiset(xs: seq<Input>, x: Input, y: Input) returns (i: nat, j: nat)
    requires multiset{x, y} <= multiset(xs)
    ensures i < |xs| && j < |xs| && i != j && xs[i] == x && xs[j] == y
  {
    assert multiset(xs)[x] >= multiset{x, y}[x] && multiset(xs)[y] >= multiset{x, y}[y];
    i := Find(xs, x);
    Without(xs, i);
    var rest := xs[..i] + xs[i + 1..];
    assert multiset(rest)[y] == multiset(xs)[y] - multiset{x}[y];
    var k := Find(rest, y);
    j := if k < i then k else k + 1;
    assert rest[k] == xs[j];
  }

  lemma DisjointAnyOrder(xs: seq<Input>, ys: seq<Input>)
    requires multiset(xs) == multiset(ys) && Disjoint(xs)
    ensures Disjoint(ys)
  {
    forall i, j | 0 <= i < j < |ys|
      ensures Apart(ys[i], ys[j])
    {
      PairInMultiset(ys, i, j);
      var k, l := PairFromMultiset(xs, ys[i], ys[j]);
      if k < l { assert Apart(xs[k], xs[l]); } else { assert Apart(xs[l], xs[k]); }
    }
  }

  lemma SameMembers(xs: seq<Input>, ys: seq<Input>)
    requires multiset(xs) == multiset(ys)
    ensures forall x :: x in xs <==> x in ys
  {
    forall x
      ensures x in xs <==> x in ys
    {
      assert x in xs <==> x in multiset(xs);
      assert x in ys <==> x in multiset(ys);
    }
  }

  lemma ImageAnyOrder(c: seq<Byte>, was: seq<Byte>, xs: seq<Input>, ys: seq<Input>, fill: Byte, m: nat)
    requires multiset(xs) == multiset(ys) && IsMaxEnd(m, xs) && IsImage(c, was, xs, fill, m)
    ensures IsMaxEnd(m, ys) && IsImage(c, was, ys, fill, m)
  {
    SameMembers(xs, ys);
    assert xs == [] <==> |multiset(xs)| == 0;
    assert ys == [] <==> |multiset(ys)| == 0;
    forall a | Uncovered(ys, a)
      ensures Uncovered(xs, a)
    {
    }
  }
}
