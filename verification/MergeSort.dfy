/** `merge` and `arg_mgsort`: a top-down merge sort whose merge takes from the right run on ties,
  * so that elements comparing equal come out in the reverse of their original order. */
module MergeSort {
  import opened Seqs

  // ---- the comparison function, and what sorting means ----

  ghost predicate TotalPreorder<T(!new)>(cmp: (T, T) -> int) {
    && (forall x, y :: cmp(x, y) < 0 <==> cmp(y, x) > 0)
    && (forall x, y, z :: cmp(x, y) <= 0 && cmp(y, z) <= 0 ==> cmp(x, z) <= 0)
  }

  ghost predicate Sorted<T>(s: seq<T>, cmp: (T, T) -> int) {
    forall i, j | 0 <= i < j < |s| :: cmp(s[i], s[j]) <= 0
  }

  ghost function Reversed<T>(s: seq<T>): (r: seq<T>)
    ensures |r| == |s|
    ensures forall k | 0 <= k < |s| :: r[k] == s[|s| - 1 - k]
    ensures multiset(r) == multiset(s)
  {
    if s == [] then []
    else
      assert s == [s[0]] + s[1..];
      Reversed(s[1..]) + [s[0]]
  }

  /** Insertion before the first element that is not smaller. */
  ghost function Insert<T>(x: T, s: seq<T>, cmp: (T, T) -> int): seq<T> {
    if s == [] || cmp(x, s[0]) <= 0 then [x] + s else [s[0]] + Insert(x, s[1..], cmp)
  }

  /** The reference: insertion sort, which keeps elements comparing equal in their order. */
  ghost function StableSort<T>(s: seq<T>, cmp: (T, T) -> int): seq<T> {
    if s == [] then [] else Insert(s[0], StableSort(s[1..], cmp), cmp)
  }

  /** The elements of s that compare equal to x, in order. */
  ghost function Class<T>(x: T, s: seq<T>, cmp: (T, T) -> int): seq<T> {
    if s == [] then [] else (if cmp(x, s[0]) == 0 then [s[0]] else []) + Class(x, s[1..], cmp)
  }

  // ---- the reference sorts, permutes and is stable ----

  lemma {:induction false} InsertPermutes<T>(x: T, s: seq<T>, cmp: (T, T) -> int)
    ensures multiset(Insert(x, s, cmp)) == multiset{x} + multiset(s)
  {
    if s != [] && cmp(x, s[0]) > 0 {
      InsertPermutes(x, s[1..], cmp);
      assert s == [s[0]] + s[1..];
    }
  }

  lemma {:induction false} InsertSorted<T(!new)>(x: T, s: seq<T>, cmp: (T, T) -> int)
    requires TotalPreorder(cmp) && Sorted(s, cmp)
    ensures Sorted(Insert(x, s, cmp), cmp)
  {
    if s == [] || cmp(x, s[0]) <= 0 {
      PrependSorted(x, s, cmp);
    } else {
      var t := Insert(x, s[1..], cmp);
      InsertSorted(x, s[1..], cmp);
      assert t[0] == x || t[0] == s[1];
      PrependSorted(s[0], t, cmp);
    }
  }

  lemma {:induction false} InsertStable<T(!new)>(c: T, x: T, s: seq<T>, cmp: (T, T) -> int)
    requires TotalPreorder(cmp)
    ensures Class(c, Insert(x, s, cmp), cmp) == Class(c, [x] + s, cmp)
  {
    if s != [] && cmp(x, s[0]) > 0 {
      var t := Insert(x, s[1..], cmp);
      InsertStable(c, x, s[1..], cmp);
      assert ([s[0]] + t)[1..] == t;
      assert ([x] + s)[1..] == s;
      assert ([x] + s[1..])[1..] == s[1..];
      assert !(cmp(c, x) == 0 && cmp(c, s[0]) == 0);
    }
  }

  lemma PrependSorted<T(!new)>(x: T, s: seq<T>, cmp: (T, T) -> int)
    requires TotalPreorder(cmp) && Sorted(s, cmp) && (s != [] ==> cmp(x, s[0]) <= 0)
    ensures Sorted([x] + s, cmp)
  {
    forall k | 0 <= k < |s|
      ensures cmp(x, s[k]) <= 0
    {
      assert k > 0 ==> cmp(s[0], s[k]) <= 0;
    }
  }

  lemma {:induction false} StableSortFacts<T(!new)>(s: seq<T>, cmp: (T, T) -> int)
    requires TotalPreorder(cmp)
    ensures Sorted(StableSort(s, cmp), cmp)
    ensures multiset(StableSort(s, cmp)) == multiset(s)
    ensures |StableSort(s, cmp)| == |s|
    ensures forall c :: Class(c, StableSort(s, cmp), cmp) == Class(c, s, cmp)
  {
    if s != [] {
      var t := StableSort(s[1..], cmp);
      StableSortFacts(s[1..], cmp);
      InsertPermutes(s[0], t, cmp);
      InsertSorted(s[0], t, cmp);
      assert s == [s[0]] + s[1..];
      forall c
        ensures Class(c, StableSort(s, cmp), cmp) == Class(c, s, cmp)
      {
        InsertStable(c, s[0], t, cmp);
        assert ([s[0]] + t)[1..] == t;
      }
      MultisetLength(StableSort(s, cmp), s);
    }
  }

  lemma MultisetLength<T>(a: seq<T>, b: seq<T>)
    requires multiset(a) == multiset(b)
    ensures |a| == |b|
  {
    assert |multiset(a)| == |a|;
  }

  lemma ConcatAssoc<T>(a: seq<T>, b: seq<T>, c: seq<T>)
    ensures (a + b) + c == a + (b + c)
  {
  }

  lemma {:induction false} ClassConcat<T>(c: T, a: seq<T>, b: seq<T>, cmp: (T, T) -> int)
    ensures Class(c, a + b, cmp) == Class(c, a, cmp) + Class(c, b, cmp)
  {
    if a == [] {
      assert a + b == b;
    } else {
      ClassConcat(c, a[1..], b, cmp);
      assert (a + b)[1..] == a[1..] + b && (a + b)[0] == a[0];
      var head := if cmp(c, a[0]) == 0 then [a[0]] else [];
      ConcatAssoc(head, Class(c, a[1..], cmp), Class(c, b, cmp));
    }
  }

  lemma {:induction false} ClassReversed<T>(c: T, s: seq<T>, cmp: (T, T) -> int)
    ensures Class(c, Reversed(s), cmp) == Reversed(Class(c, s, cmp))
  {
    if s != [] {
      ClassReversed(c, s[1..], cmp);
      ClassConcat(c, Reversed(s[1..]), [s[0]], cmp);
      var k := Class(c, s[1..], cmp);
      if cmp(c, s[0]) == 0 {
        assert ([s[0]] + k)[1..] == k;
        assert Class(c, [s[0]], cmp) == [s[0]];
      } else {
        assert [] + k == k;
        assert Class(c, [s[0]], cmp) == [];
        assert Reversed(k) + [] == Reversed(k);
      }
    }
  }

  /** What the sort makes of a range: a stable sort of its reversal. */
  ghost function RangeSort<T>(s: seq<T>, cmp: (T, T) -> int): seq<T> {
    StableSort(Reversed(s), cmp)
  }

  /** What `arg_mgsort` is for, in its own words: for any comparison the result of sorting a range
    * is sorted, holds the same elements, and lists those comparing equal in reverse order. */
  lemma TieOrderReversed<T(!new)>(s: seq<T>, r: seq<T>, cmp: (T, T) -> int)
    requires TotalPreorder(cmp) && r == RangeSort(s, cmp)
    ensures Sorted(r, cmp) && multiset(r) == multiset(s)
    ensures forall c :: Class(c, r, cmp) == Reversed(Class(c, s, cmp))
  {
    StableSortFacts(Reversed(s), cmp);
    forall c
      ensures Class(c, r, cmp) == Reversed(Class(c, s, cmp))
    {
      ClassReversed(c, s, cmp);
    }
  }

  // ---- merging with ties taken from the right run ----

  /** Merge of two runs in which an element of `a` goes first only when strictly smaller. */
  ghost function Merged<T>(a: seq<T>, b: seq<T>, cmp: (T, T) -> int): (r: seq<T>)
    ensures |r| == |a| + |b|
    decreases |a| + |b|
  {
    if a == [] then b
    else if b == [] then a
    else if cmp(a[0], b[0]) < 0 then [a[0]] + Merged(a[1..], b, cmp)
    else [b[0]] + Merged(a, b[1..], cmp)
  }

  /** Inserting an element in front of the right run commutes with merging. */
  lemma {:induction false} InsertMerged<T(!new)>(x: T, a: seq<T>, b: seq<T>, cmp: (T, T) -> int)
    requires TotalPreorder(cmp)
    ensures Insert(x, Merged(a, b, cmp), cmp) == Merged(a, Insert(x, b, cmp), cmp)
    decreases |a| + |b|
  {
    if a == [] {
    } else if b == [] {
      assert Merged(a, b, cmp) == a && Insert(x, b, cmp) == [x];
      InsertIntoLeft(x, a, cmp);
    } else if cmp(x, a[0]) <= 0 && cmp(x, b[0]) <= 0 {
      InsertFront(x, a, b, cmp);
    } else if cmp(a[0], b[0]) < 0 {
      InsertMerged(x, a[1..], b, cmp);
      InsertAfterLeft(x, a, b, cmp);
    } else {
      InsertMerged(x, a, b[1..], cmp);
      InsertAfterRight(x, a, b, cmp);
    }
  }

  lemma InsertFront<T(!new)>(x: T, a: seq<T>, b: seq<T>, cmp: (T, T) -> int)
    requires TotalPreorder(cmp) && a != [] && b != [] && cmp(x, a[0]) <= 0 && cmp(x, b[0]) <= 0
    ensures Insert(x, Merged(a, b, cmp), cmp) == Merged(a, Insert(x, b, cmp), cmp)
  {
    var i := [x] + b;
    assert Insert(x, b, cmp) == i && i[0] == x && i[1..] == b;
    assert Merged(a, i, cmp) == [x] + Merged(a, b, cmp);
  }

  lemma InsertHead<T>(x: T, s: seq<T>, cmp: (T, T) -> int)
    ensures Insert(x, s, cmp) != [] && (Insert(x, s, cmp)[0] == x || (s != [] && Insert(x, s, cmp)[0] == s[0]))
  {
  }

  lemma InsertAfterLeft<T(!new)>(x: T, a: seq<T>, b: seq<T>, cmp: (T, T) -> int)
    requires TotalPreorder(cmp) && a != [] && b != [] && cmp(a[0], b[0]) < 0
    requires !(cmp(x, a[0]) <= 0 && cmp(x, b[0]) <= 0)
    requires Insert(x, Merged(a[1..], b, cmp), cmp) == Merged(a[1..], Insert(x, b, cmp), cmp)
    ensures Insert(x, Merged(a, b, cmp), cmp) == Merged(a, Insert(x, b, cmp), cmp)
  {
    var m, i := Merged(a[1..], b, cmp), Insert(x, b, cmp);
    assert cmp(x, a[0]) > 0 && cmp(a[0], x) < 0;
    InsertHead(x, b, cmp);
    assert Merged(a, b, cmp) == [a[0]] + m;
    assert ([a[0]] + m)[1..] == m;
    assert Insert(x, [a[0]] + m, cmp) == [a[0]] + Insert(x, m, cmp);
    assert Merged(a, i, cmp) == [a[0]] + Merged(a[1..], i, cmp);
  }

  lemma InsertAfterRight<T(!new)>(x: T, a: seq<T>, b: seq<T>, cmp: (T, T) -> int)
    requires TotalPreorder(cmp) && a != [] && b != [] && cmp(a[0], b[0]) >= 0
    requires !(cmp(x, a[0]) <= 0 && cmp(x, b[0]) <= 0)
    requires Insert(x, Merged(a, b[1..], cmp), cmp) == Merged(a, Insert(x, b[1..], cmp), cmp)
    ensures Insert(x, Merged(a, b, cmp), cmp) == Merged(a, Insert(x, b, cmp), cmp)
  {
    var m, i := Merged(a, b[1..], cmp), Insert(x, b[1..], cmp);
    assert cmp(b[0], a[0]) <= 0;
    assert cmp(x, b[0]) > 0;
    assert Merged(a, b, cmp) == [b[0]] + m;
    assert ([b[0]] + m)[1..] == m;
    assert Insert(x, [b[0]] + m, cmp) == [b[0]] + Insert(x, m, cmp);
    assert ([b[0]] + i)[1..] == i;
    assert Merged(a, [b[0]] + i, cmp) == [b[0]] + Merged(a, i, cmp);
  }

  lemma {:induction false} InsertIntoLeft<T(!new)>(x: T, a: seq<T>, cmp: (T, T) -> int)
    requires TotalPreorder(cmp)
    ensures Insert(x, a, cmp) == Merged(a, [x], cmp)
  {
    if a != [] && cmp(x, a[0]) > 0 {
      InsertIntoLeft(x, a[1..], cmp);
    } else if a != [] {
      assert [x][1..] == [];
    }
  }

  /** Sorting a concatenation is merging the two sorted parts, the second one's run being `a`. */
  lemma {:induction false} SortConcat<T(!new)>(s: seq<T>, t: seq<T>, cmp: (T, T) -> int)
    requires TotalPreorder(cmp)
    ensures StableSort(s + t, cmp) == Merged(StableSort(t, cmp), StableSort(s, cmp), cmp)
  {
    if s == [] {
      assert s + t == t;
      var a := StableSort(t, cmp);
      assert Merged(a, [], cmp) == a;
    } else {
      assert (s + t)[1..] == s[1..] + t;
      SortConcat(s[1..], t, cmp);
      StableSortFacts(t, cmp);
      StableSortFacts(s[1..], cmp);
      InsertMerged(s[0], StableSort(t, cmp), StableSort(s[1..], cmp), cmp);
    }
  }

  lemma {:induction false} ReversedConcat<T>(s: seq<T>, t: seq<T>)
    ensures Reversed(s + t) == Reversed(t) + Reversed(s)
  {
    if s == [] {
      assert s + t == t;
    } else {
      assert (s + t)[1..] == s[1..] + t;
      ReversedConcat(s[1..], t);
    }
  }

  // ---- the code ----

  /** `merge`: merges the runs a[i..=j] and a[j+1..=k] through a scratch buffer. */
  method Merge<T>(a: array<T>, i: int, j: int, k: int, cmp: (T, T) -> int)
    requires 0 <= i <= j < k < a.Length
    modifies a
    ensures a[..] == Splice(old(a[..]), i, Merged(old(a[i..j + 1]), old(a[j + 1..k + 1]), cmp))
  {
    hide *;
    var ipos, jpos, mpos := i, j + 1, 0;
    var m: seq<T> := [];
    ghost var s := a[..];
    ghost var goal := Merged(s[i..j + 1], s[j + 1..k + 1], cmp);
    while ipos <= j || jpos <= k
      invariant i <= ipos <= j + 1 <= jpos <= k + 1 && a[..] == s
      invariant mpos == |m| == (ipos - i) + (jpos - j - 1)
      invariant goal == m + Merged(s[ipos..j + 1], s[jpos..k + 1], cmp)
      decreases (j + 1 - ipos) + (k + 1 - jpos)
    {
      MergeEnds(s, ipos, j, jpos, k, cmp, m);
      if ipos > j {
        m := Drain(a, jpos, k, m);
        MergeEnds(s, ipos, j, jpos, k, cmp, m);
        jpos, mpos := k + 1, mpos + (k + 1 - jpos);
        continue;
      } else if jpos > k {
        m := Drain(a, ipos, j, m);
        MergeEnds(s, ipos, j, jpos, k, cmp, m);
        ipos, mpos := j + 1, mpos + (j + 1 - ipos);
        continue;
      }
      MergeStep(s, ipos, j, jpos, k, cmp, m);
      if cmp(a[ipos], a[jpos]) < 0 {
        m := m + [a[ipos]];
        ipos := ipos + 1;
        mpos := mpos + 1;
      } else {
        m := m + [a[jpos]];
        jpos := jpos + 1;
        mpos := mpos + 1;
      }
    }
    MergeEnds(s, j + 1, j, k + 1, k, cmp, m);
    CopyBack(a, i, m);
  }

  /** One comparison of `merge`, behind the output m written so far. */
  lemma MergeStep<T>(s: seq<T>, ipos: int, j: int, jpos: int, k: int, cmp: (T, T) -> int, m: seq<T>)
    requires 0 <= ipos <= j < jpos <= k < |s|
    ensures m + Merged(s[ipos..j + 1], s[jpos..k + 1], cmp)
         == if cmp(s[ipos], s[jpos]) < 0 then m + [s[ipos]] + Merged(s[ipos + 1..j + 1], s[jpos..k + 1], cmp)
            else m + [s[jpos]] + Merged(s[ipos..j + 1], s[jpos + 1..k + 1], cmp)
  {
    SliceHead(s, ipos, j + 1);
    SliceHead(s, jpos, k + 1);
  }

  /** Once a run is exhausted the rest of the merge is the other run, and then nothing. */
  lemma MergeEnds<T>(s: seq<T>, ipos: int, j: int, jpos: int, k: int, cmp: (T, T) -> int, m: seq<T>)
    requires 0 <= ipos <= j + 1 <= jpos <= k + 1 <= |s|
    ensures ipos == j + 1 ==> Merged(s[ipos..j + 1], s[jpos..k + 1], cmp) == s[jpos..k + 1]
    ensures jpos == k + 1 ==> Merged(s[ipos..j + 1], s[jpos..k + 1], cmp) == s[ipos..j + 1]
    ensures m + Merged(s[j + 1..j + 1], s[k + 1..k + 1], cmp) == m
  {
    assert s[j + 1..j + 1] == [] && s[k + 1..k + 1] == [];
  }

  /** The inner loops of `merge`: appends what is left of one run, a[from..=to], to the scratch buffer. */
  method Drain<T>(a: array<T>, from: int, to: int, scratch: seq<T>) returns (m: seq<T>)
    requires 0 <= from <= to + 1 <= a.Length
    ensures m == scratch + a[from..to + 1]
  {
    m := scratch;
    var pos := from;
    while pos <= to
      invariant from <= pos <= to + 1 && m == scratch + a[from..pos]
    {
      m := m + [a[pos]];
      pos := pos + 1;
    }
  }

  method CopyBack<T>(a: array<T>, i: int, m: seq<T>)
    requires 0 <= i && i + |m| <= a.Length
    modifies a
    ensures a[..] == Splice(old(a[..]), i, m)
  {
    forall q | 0 <= q < |m| {
      a[i + q] := m[q];
    }
  }

  /** `arg_mgsort`: sorts a[i..=k] in place; the result is a stable sort of the reversed range. */
  method ArgMgsort<T(!new)>(a: array<T>, i: int, k: int, cmp: (T, T) -> int)
    requires 0 <= i <= k + 1 <= a.Length && TotalPreorder(cmp)
    modifies a
    ensures |RangeSort(old(a[i..k + 1]), cmp)| == k + 1 - i
    ensures a[..] == Splice(old(a[..]), i, RangeSort(old(a[i..k + 1]), cmp))
    decreases k - i
  {
    hide *;
    ghost var s := a[..];
    RangeLength(s[i..k + 1], cmp);
    if i < k {
      var j := (i + k - 1) / 2;
      ArgMgsort(a, i, j, cmp);
      SecondRun(s, i, j, k, cmp);
      ArgMgsort(a, j + 1, k, cmp);
      Merge(a, i, j, k, cmp);
      MergedRuns(s, i, j, k, cmp);
    } else {
      SmallSort(s[i..k + 1], cmp);
      SpliceSelf(s, i, k + 1);
    }
  }

  lemma RangeLength<T(!new)>(s: seq<T>, cmp: (T, T) -> int)
    requires TotalPreorder(cmp)
    ensures |RangeSort(s, cmp)| == |s|
  {
    StableSortFacts(Reversed(s), cmp);
  }

  lemma SecondRun<T(!new)>(s: seq<T>, i: int, j: int, k: int, cmp: (T, T) -> int)
    requires 0 <= i <= j < k < |s| && TotalPreorder(cmp)
    ensures |RangeSort(s[i..j + 1], cmp)| == j + 1 - i
    ensures Splice(s, i, RangeSort(s[i..j + 1], cmp))[j + 1..k + 1] == s[j + 1..k + 1]
  {
    RangeLength(s[i..j + 1], cmp);
    SpliceSlice(s, i, RangeSort(s[i..j + 1], cmp), j + 1, k + 1);
  }

  /** After both halves are sorted in place, merging them sorts the whole range. */
  lemma MergedRuns<T(!new)>(s: seq<T>, i: int, j: int, k: int, cmp: (T, T) -> int)
    requires 0 <= i <= j < k < |s| && TotalPreorder(cmp)
    ensures |RangeSort(s[i..j + 1], cmp)| == j + 1 - i && |RangeSort(s[j + 1..k + 1], cmp)| == k - j
    ensures |RangeSort(s[i..k + 1], cmp)| == k + 1 - i
    ensures var two := Splice(Splice(s, i, RangeSort(s[i..j + 1], cmp)), j + 1, RangeSort(s[j + 1..k + 1], cmp));
            Splice(two, i, Merged(two[i..j + 1], two[j + 1..k + 1], cmp)) == Splice(s, i, RangeSort(s[i..k + 1], cmp))
  {
    hide *;
    var l, r := RangeSort(s[i..j + 1], cmp), RangeSort(s[j + 1..k + 1], cmp);
    RangeLength(s[i..j + 1], cmp);
    RangeLength(s[j + 1..k + 1], cmp);
    RangeLength(s[i..k + 1], cmp);
    TwoRuns(s, i, l, r);
    HalvesMerge(s[i..j + 1], s[j + 1..k + 1], cmp);
    SliceSplit(s, i, j + 1, k + 1);
    SpliceOver(s, i, l, r, RangeSort(s[i..k + 1], cmp));
  }

  lemma TwoRuns<T>(s: seq<T>, i: int, l: seq<T>, r: seq<T>)
    requires 0 <= i && i + |l| + |r| <= |s|
    ensures var two := Splice(Splice(s, i, l), i + |l|, r);
            two[i..i + |l|] == l && two[i + |l|..i + |l| + |r|] == r
  {
    SpliceInner(s, i, l);
    SpliceSlice(Splice(s, i, l), i + |l|, r, i, i + |l|);
    SpliceInner(Splice(s, i, l), i + |l|, r);
  }

  lemma HalvesMerge<T(!new)>(l: seq<T>, r: seq<T>, cmp: (T, T) -> int)
    requires TotalPreorder(cmp)
    ensures RangeSort(l + r, cmp) == Merged(RangeSort(l, cmp), RangeSort(r, cmp), cmp)
  {
    ReversedConcat(l, r);
    SortConcat(Reversed(r), Reversed(l), cmp);
  }

  lemma SmallSort<T>(s: seq<T>, cmp: (T, T) -> int)
    requires |s| <= 1
    ensures RangeSort(s, cmp) == s
  {
    if |s| == 1 {
      assert s[1..] == [] && Reversed(s) == s;
      assert Insert(s[0], [], cmp) == [s[0]];
      assert StableSort(s[1..], cmp) == [];
      assert StableSort(s, cmp) == Insert(s[0], [], cmp);
    }
  }
}
