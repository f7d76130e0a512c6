/** Sequence facts shared by the algorithms that work in place. */
module Seqs {

  /** s with the elements from position i on overwritten by r. */
  function Splice<T>(s: seq<T>, i: int, r: seq<T>): (t: seq<T>)
    requires 0 <= i && i + |r| <= |s|
    ensures |t| == |s|
  {
    s[..i] + r + s[i + |r|..]
  }

  lemma SliceSplit<T>(s: seq<T>, lo: int, mid: int, hi: int)
    requires 0 <= lo <= mid <= hi <= |s|
    ensures s[lo..hi] == s[lo..mid] + s[mid..hi]
  {
  }

  lemma SliceHead<T>(s: seq<T>, lo: int, hi: int)
    requires 0 <= lo < hi <= |s|
    ensures s[lo..hi] == [s[lo]] + s[lo + 1..hi]
    ensures s[lo..hi][0] == s[lo] && s[lo..hi][1..] == s[lo + 1..hi]
  {
  }

  lemma SpliceSlice<T>(s: seq<T>, i: int, r: seq<T>, lo: int, hi: int)
    requires 0 <= i && i + |r| <= |s| && 0 <= lo <= hi <= |s|
    ensures hi <= i || i + |r| <= lo ==> Splice(s, i, r)[lo..hi] == s[lo..hi]
  {
  }

  lemma SpliceInner<T>(s: seq<T>, i: int, r: seq<T>)
    requires 0 <= i && i + |r| <= |s|
    ensures Splice(s, i, r)[i..i + |r|] == r
  {
  }

  /** Overwriting two adjacent ranges and then both of them at once leaves only the last write. */
  lemma SpliceOver<T>(s: seq<T>, i: int, p: seq<T>, q: seq<T>, r: seq<T>)
    requires 0 <= i && i + |p| + |q| <= |s| && |r| == |p| + |q|
    ensures Splice(Splice(Splice(s, i, p), i + |p|, q), i, r) == Splice(s, i, r)
  {
  }

  lemma SpliceSelf<T>(s: seq<T>, i: int, k: int)
    requires 0 <= i <= k <= |s|
    ensures Splice(s, i, s[i..k]) == s
  {
  }

  lemma SpliceAdjacent<T>(s: seq<T>, i: int, p: seq<T>, q: seq<T>)
    requires 0 <= i && i + |p| + |q| <= |s|
    ensures Splice(Splice(s, i, p), i + |p|, q) == Splice(s, i, p + q)
  {
  }
}
