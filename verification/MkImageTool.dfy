/** The data-partition tool: its sort, its write loops with short writes, and its file loop. */
module MkImageTool {
  import opened MkImage

  /** One input file on the command line: its name, its size as found, and its offset in the image. */
  datatype Entry = Entry(name: string, size: int, offset: nat)

  datatype Code = None | FileSystem | OverlappingInputData

  // ---- the sort ----

  /** What the sort moves: a file's name and offset.  The size field stays where it is. */
  function Key(e: Entry): (string, nat) { (e.name, e.offset) }

  function Keys(es: seq<Entry>): (ks: seq<(string, nat)>)
    ensures |ks| == |es| && forall i :: 0 <= i < |es| ==> ks[i] == Key(es[i])
  {
    seq(|es|, i requires 0 <= i < |es| => Key(es[i]))
  }

  method SwapEntry(a: array<Entry>, i: nat, j: nat)
    requires i < a.Length && j < a.Length && i != j
    modifies a
    ensures Keys(a[..]) == Keys(old(a[..]))[i := Key(old(a[j]))][j := Key(old(a[i]))]
    ensures forall k :: 0 <= k < a.Length ==> a[k].size == old(a[k].size)
    ensures multiset(Keys(a[..])) == multiset(Keys(old(a[..])))
  {
    var tmp := a[i];
    a[i] := a[i].(name := a[j].name, offset := a[j].offset);
    a[j] := a[j].(name := tmp.name, offset := tmp.offset);
    ghost var ks, ls := Keys(old(a[..])), Keys(a[..]);
    assert ls == ks[i := ks[j]][j := ks[i]];
  }

  ghost predicate SortedTo(ks: seq<(string, nat)>, n: int) {
    forall i, j :: 0 <= i < j < |ks| && i < n ==> ks[i].1 <= ks[j].1
  }

  /** The inner loop: the entry with the least offset from i on. */
  method MinIndex(a: array<Entry>, i: nat) returns (minIndex: nat)
    requires i < a.Length
    ensures i <= minIndex < a.Length && forall k :: i <= k < a.Length ==> a[minIndex].offset <= a[k].offset
  {
    minIndex := i;
    var j := i + 1;
    while j < a.Length
      invariant i < j <= a.Length && i <= minIndex < j
      invariant forall k :: i <= k < j ==> a[minIndex].offset <= a[k].offset
    {
      if a[j].offset < a[minIndex].offset {
        minIndex := j;
      }
      j := j + 1;
    }
  }

  /** Selection sort: by offset, a permutation of the names with their offsets. */
  method SortOffsetAscending(a: array<Entry>)
    modifies a
    ensures SortedTo(Keys(a[..]), a.Length) && multiset(Keys(a[..])) == multiset(Keys(old(a[..])))
    ensures forall k :: 0 <= k < a.Length ==> a[k].size == old(a[k].size)
  {
    var i := 0;
    while i < a.Length
      invariant 0 <= i <= a.Length && SortedTo(Keys(a[..]), i)
      invariant multiset(Keys(a[..])) == multiset(Keys(old(a[..])))
      invariant forall k :: 0 <= k < a.Length ==> a[k].size == old(a[k].size)
    {
      var minIndex := MinIndex(a, i);
      ghost var ks := Keys(a[..]);
      if i != minIndex {
        SwapEntry(a, i, minIndex);
      }
      SortedMore(ks, Keys(a[..]), i, minIndex);
      i := i + 1;
    }
  }

  lemma SortedMore(ks: seq<(string, nat)>, ls: seq<(string, nat)>, i: nat, m: nat)
    requires SortedTo(ks, i) && i <= m < |ks| && forall k :: i <= k < |ks| ==> ks[m].1 <= ks[k].1
    requires ls == if i == m then ks else ks[i := ks[m]][m := ks[i]]
    ensures SortedTo(ls, i + 1)
  {
  }

  // ---- the output file ----

  class OutFile {
    var contents: seq<Byte>
    var pos: nat

    constructor (c: seq<Byte>)
      ensures contents == c && pos == 0
    {
      contents, pos := c, 0;
    }

    method Seek(at: nat)
      requires at <= |contents|
      modifies this`pos
      ensures pos == at
    {
      pos := at;
    }

    method SeekEnd()
      modifies this`pos
      ensures pos == |contents|
    {
      pos := |contents|;
    }

    /** Writes at least one byte, perhaps not all. */
    method Fwrite(data: seq<Byte>) returns (n: nat)
      requires data != [] && pos <= |contents|
      modifies this
      ensures 0 < n <= |data| && pos == old(pos) + n <= |contents|
      ensures contents == Overlay(old(contents), old(pos), data[..n])
    {
      n :| 0 < n <= |data|;
      contents := Overlay(contents, pos, data[..n]);
      pos := pos + n;
    }

    /** Writes num fill bytes, a block at a time, however short the writes. */
    method FillData(num: nat, fill: Byte, blockSize: nat)
      requires blockSize > 0 && pos <= |contents|
      modifies this
      ensures contents == Overlay(old(contents), old(pos), Fill(num, fill)) && pos == old(pos) + num <= |contents|
    {
      ghost var was, start := contents, pos;
      var allocSize := if num > blockSize then blockSize else num;
      var numBytes := num;
      assert Overlay(was, start, Fill(0, fill)) == was;
      while numBytes > 0
        invariant 0 <= numBytes <= num && pos == start + (num - numBytes) <= |contents|
        invariant contents == Overlay(was, start, Fill(num - numBytes, fill))
      {
        var bytesToWrite := if numBytes > allocSize then allocSize else numBytes;
        var n := Fwrite(Fill(bytesToWrite, fill));
        FillMore(was, start, num - numBytes, bytesToWrite, n, fill);
        numBytes := numBytes - n;
      }
    }

    /** Copies all of the input, whatever short reads and writes there are. */
    method CopyData(input: seq<Byte>, blockSize: nat)
      requires blockSize > 0 && pos <= |contents|
      modifies this
      ensures contents == Overlay(old(contents), old(pos), input) && pos == old(pos) + |input| <= |contents|
    {
      ghost var was, start := contents, pos;
      var at: nat := 0;
      assert Overlay(was, start, input[..0]) == was;
      while true
        invariant at <= |input| && pos == start + at <= |contents|
        invariant contents == Overlay(was, start, input[..at])
        decreases |input| - at
      {
        var bytesRead := Fread(input, at, blockSize);
        if bytesRead == 0 {
          break;
        }
        WriteOut(input[at..at + bytesRead]);
        CopyMore(was, start, input, at, bytesRead);
        at := at + bytesRead;
      }
      assert input[..at] == input;
    }

    /** The inner loop: one buffer goes out in as many writes as it takes. */
    method WriteOut(buffer: seq<Byte>)
      requires pos <= |contents|
      modifies this
      ensures contents == Overlay(old(contents), old(pos), buffer) && pos == old(pos) + |buffer| <= |contents|
    {
      ghost var was, start := contents, pos;
      var bytesCopied: nat := 0;
      assert Overlay(was, start, buffer[..0]) == was;
      while bytesCopied < |buffer|
        invariant bytesCopied <= |buffer| && pos == start + bytesCopied <= |contents|
        invariant contents == Overlay(was, start, buffer[..bytesCopied])
      {
        var n := Fwrite(buffer[bytesCopied..]);
        assert buffer[bytesCopied..][..n] == buffer[bytesCopied..bytesCopied + n];
        CopyMore(was, start, buffer, bytesCopied, n);
        bytesCopied := bytesCopied + n;
      }
      assert buffer[..bytesCopied] == buffer;
    }
  }

  /** Reads up to a block; nothing only at the end of the input. */
  method Fread(input: seq<Byte>, at: nat, blockSize: nat) returns (n: nat)
    requires at <= |input| && blockSize > 0
    ensures at + n <= |input| && n <= blockSize && (n == 0 <==> at == |input|)
  {
    if at == |input| {
      n := 0;
    } else {
      assert at + 1 <= |input|;
      n :| 0 < n <= blockSize && at + n <= |input|;
    }
  }

  lemma FillMore(was: seq<Byte>, start: nat, done: nat, k: nat, n: nat, fill: Byte)
    requires start <= |was| && n <= k
    ensures Overlay(Overlay(was, start, Fill(done, fill)), start + done, Fill(k, fill)[..n])
            == Overlay(was, start, Fill(done + n, fill))
  {
    OverlayTwice(was, start, Fill(done, fill), Fill(k, fill)[..n]);
    assert Fill(done, fill) + Fill(k, fill)[..n] == Fill(done + n, fill);
  }

  lemma CopyMore(was: seq<Byte>, start: nat, input: seq<Byte>, at: nat, n: nat)
    requires start <= |was| && at + n <= |input|
    ensures Overlay(Overlay(was, start, input[..at]), start + at, input[at..at + n])
            == Overlay(was, start, input[..at + n])
  {
    OverlayTwice(was, start, input[..at], input[at..at + n]);
    assert input[..at] + input[at..at + n] == input[..at + n];
  }

  // ---- the file loop ----

  type Files = map<string, seq<Byte>>

  ghost predicate AllOpen(ks: seq<(string, nat)>, files: Files) {
    forall k :: k in ks ==> k.0 in files
  }

  function InputOf(k: (string, nat), files: Files): Input
    requires k.0 in files
  {
    Input(k.1, files[k.0])
  }

  ghost function Inputs(ks: seq<(string, nat)>, files: Files): (xs: seq<Input>)
    requires AllOpen(ks, files)
    ensures |xs| == |ks| && forall i :: 0 <= i < |ks| ==> xs[i] == InputOf(ks[i], files)
  {
    seq(|ks|, i requires 0 <= i < |ks| => InputOf(ks[i], files))
  }

  /** What the loop has done after the first n files. */
  ghost predicate Placed(c: seq<Byte>, last: nat, was: seq<Byte>, ks: seq<(string, nat)>, n: nat, files: Files,
                         fill: Byte) {
    && n <= |ks| && AllOpen(ks[..n], files)
    && PlaceAll(was, Inputs(ks[..n], files), fill) == Done(Image(c, last))
  }

  /** The inputs can be opened, and the non-empty ones do not overlap. */
  ghost predicate Acceptable(ks: seq<(string, nat)>, files: Files) {
    AllOpen(ks, files) && Disjoint(Inputs(ks, files))
  }

  lemma InputsNext(ks: seq<(string, nat)>, n: nat, files: Files)
    requires n < |ks| && AllOpen(ks[..n], files) && ks[n].0 in files
    ensures AllOpen(ks[..n + 1], files)
    ensures Inputs(ks[..n + 1], files) == Inputs(ks[..n], files) + [InputOf(ks[n], files)]
  {
    assert ks[..n + 1] == ks[..n] + [ks[n]];
  }

  lemma PlaceNext(was: seq<Byte>, xs: seq<Input>, x: Input, im: Image, fill: Byte)
    requires PlaceAll(was, xs, fill) == Done(im)
    ensures PlaceAll(was, xs + [x], fill) == Place(im, x, fill)
  {
    assert (xs + [x])[..|xs|] == xs;
  }

  /** One file: seek, skip or pad, then copy.  An overlap leaves the output as it was. */
  method PlaceFile(out: OutFile, offset: nat, data: seq<Byte>, fileIndex: nat, last: nat, fill: Byte, blockSize: nat)
      returns (code: Code, newLast: nat)
    requires blockSize > 0 && last <= |out.contents| && out.pos == |out.contents| && (fileIndex == 0 ==> last == 0)
    modifies out
    ensures out.pos == |out.contents|
    ensures match Place(Image(old(out.contents), last), Input(offset, data), fill)
            case Done(im) => code == None && out.contents == im.contents && newLast == im.last
            case Overlap => code == OverlappingInputData && out.contents == old(out.contents)
  {
    code, newLast := None, last;
    ghost var was := out.contents;
    var outFilesize := |out.contents|;
    if offset <= outFilesize {
      if fileIndex == 0 || offset >= last {
        out.Seek(offset);
      } else if |data| == 0 {
        return;
      } else {
        code := OverlappingInputData;
      }
    } else {
      out.FillData(offset - outFilesize, fill, blockSize);
      OverlayEnd(was, Fill(offset - outFilesize, fill));
    }
    if |data| != 0 && code == None {
      if offset > outFilesize { OverlayEnd(out.contents, data); }
      out.CopyData(data, blockSize);
    } else if offset <= outFilesize && code == None {
      assert Overlay(was, offset, data) == was;
    } else if code == None {
      assert out.contents + data == out.contents;
    }
    newLast := out.pos;
    out.SeekEnd();
  }

  lemma OverlayEnd(c: seq<Byte>, d: seq<Byte>)
    ensures Overlay(c, |c|, d) == c + d
  {
  }

  /** The loop over the sorted files.  It stops at a file that cannot be opened or that overlaps. */
  method PlaceFiles(entries: array<Entry>, files: Files, out: OutFile, fill: Byte, blockSize: nat)
      returns (code: Code, last: nat)
    requires blockSize > 0 && out.pos == |out.contents|
    requires SortedTo(Keys(entries[..]), entries.Length)
    modifies entries, out
    ensures Keys(entries[..]) == Keys(old(entries[..]))
    ensures code == None ==>
              Placed(out.contents, last, old(out.contents), Keys(entries[..]), entries.Length, files, fill)
    ensures code != None ==> !Acceptable(Keys(entries[..]), files)
  {
    ghost var ks, was := Keys(entries[..]), out.contents;
    hide Keys, Placed, Place, Acceptable, SortedTo;
    code, last := None, 0;
    NothingPlaced(was, ks, files, fill);
    var fileIndex := 0;
    while fileIndex < entries.Length
      invariant 0 <= fileIndex <= entries.Length && Keys(entries[..]) == ks && code == None && out.pos == |out.contents|
      invariant Placed(out.contents, last, was, ks, fileIndex, files, fill) && (fileIndex == 0 ==> last == 0)
    {
      assert ks[fileIndex] == Key(entries[fileIndex]);
      if entries[fileIndex].name !in files {
        NotOpen(ks, fileIndex, files);
        code := FileSystem;
        return;
      }
      var data := files[entries[fileIndex].name];
      SetSize(entries, fileIndex, |data|);
      PlacedStep(was, ks, fileIndex, files, fill, out.contents, last);
      code, last := PlaceFile(out, entries[fileIndex].offset, data, fileIndex, last, fill, blockSize);
      if code == OverlappingInputData {
        return;
      }
      fileIndex := fileIndex + 1;
    }
  }

  /** `update_file_entry_size`. */
  method SetSize(entries: array<Entry>, i: nat, size: nat)
    requires i < entries.Length
    modifies entries
    ensures Keys(entries[..]) == Keys(old(entries[..])) && entries[i] == old(entries[i]).(size := size)
  {
    entries[i] := entries[i].(size := size);
    assert Keys(entries[..]) == Keys(old(entries[..]));
  }

  lemma NothingPlaced(was: seq<Byte>, ks: seq<(string, nat)>, files: Files, fill: Byte)
    ensures Placed(was, 0, was, ks, 0, files, fill)
  {
    assert Inputs(ks[..0], files) == [];
  }

  lemma NotOpen(ks: seq<(string, nat)>, n: nat, files: Files)
    requires n < |ks| && ks[n].0 !in files
    ensures !Acceptable(ks, files)
  {
    assert ks[n] in ks;
  }

  lemma SortedPrefix(ks: seq<(string, nat)>, n: nat, files: Files)
    requires SortedTo(ks, |ks|) && n <= |ks| && AllOpen(ks[..n], files)
    ensures Sorted(Inputs(ks[..n], files))
  {
  }

  /** The last write lies within the file. */
  lemma PlacedLast(was: seq<Byte>, ks: seq<(string, nat)>, n: nat, files: Files, fill: Byte, im: Image)
    requires SortedTo(ks, |ks|) && n <= |ks| && AllOpen(ks[..n], files)
    requires PlaceAll(was, Inputs(ks[..n], files), fill) == Done(im)
    ensures im.last <= |im.contents|
  {
    SortedPrefix(ks, n, files);
    PlaceAllCorrect(was, Inputs(ks[..n], files), fill);
  }

  /** What placing the next file does, and what an overlap means. */
  lemma PlacedStep(was: seq<Byte>, ks: seq<(string, nat)>, n: nat, files: Files, fill: Byte, c: seq<Byte>, last: nat)
    requires SortedTo(ks, |ks|) && n < |ks| && ks[n].0 in files && Placed(c, last, was, ks, n, files, fill)
    ensures last <= |c|
    ensures match Place(Image(c, last), InputOf(ks[n], files), fill)
            case Done(im) => Placed(im.contents, im.last, was, ks, n + 1, files, fill)
            case Overlap => !Acceptable(ks, files)
  {
    var im, x := Image(c, last), InputOf(ks[n], files);
    PlacedLast(was, ks, n, files, fill, im);
    InputsNext(ks, n, files);
    PlaceNext(was, Inputs(ks[..n], files), x, im, fill);
    if Place(im, x, fill).Overlap? {
      OverlapFails(was, ks, n, files, fill);
    }
  }

  lemma OverlapFails(was: seq<Byte>, ks: seq<(string, nat)>, n: nat, files: Files, fill: Byte)
    requires SortedTo(ks, |ks|) && n < |ks| && AllOpen(ks[..n + 1], files)
    requires PlaceAll(was, Inputs(ks[..n + 1], files), fill).Overlap?
    ensures !AllOpen(ks, files) || !Disjoint(Inputs(ks, files))
  {
    SortedPrefix(ks, n + 1, files);
    PlaceAllCorrect(was, Inputs(ks[..n + 1], files), fill);
    hide PlaceAll;
    if AllOpen(ks, files) {
      assert Inputs(ks, files)[..n + 1] == Inputs(ks[..n + 1], files);
      DisjointPrefix(Inputs(ks, files), n + 1);
    }
  }

  lemma DisjointPrefix(xs: seq<Input>, n: nat)
    requires n <= |xs|
    ensures Disjoint(xs) ==> Disjoint(xs[..n])
  {
  }

  /** What the tool makes of a run's inputs: the image, or its part up to the last write. */
  ghost predicate Made(c: seq<Byte>, was: seq<Byte>, xs: seq<Input>, fill: Byte, truncate: bool) {
    exists full: seq<Byte>, m: nat {:trigger IsImage(full, was, xs, fill, m)} ::
      IsMaxEnd(m, xs) && IsImage(full, was, xs, fill, m) && m <= |full| && c == if truncate then full[..m] else full
  }

  ghost predicate MadeOf(c: seq<Byte>, was: seq<Byte>, ks: seq<(string, nat)>, files: Files, fill: Byte,
                         truncate: bool)
  {
    AllOpen(ks, files) && Made(c, was, Inputs(ks, files), fill, truncate)
  }

  /** The tool succeeds if and only if every input can be opened and the non-empty ones are pairwise
    * disjoint, in whatever order they are given; and then the output is the image they make. */
  method MakeImage(entries: array<Entry>, files: Files, out: OutFile, fill: Byte, blockSize: nat, truncate: bool)
      returns (code: Code)
    requires blockSize > 0
    modifies entries, out
    ensures code == None <==> Acceptable(Keys(old(entries[..])), files)
    ensures code == None ==> MadeOf(out.contents, old(out.contents), Keys(old(entries[..])), files, fill, truncate)
  {
    ghost var ks, was := Keys(entries[..]), out.contents;
    hide Keys, Acceptable, MadeOf, SortedTo;
    out.SeekEnd();
    SortOffsetAscending(entries);
    ghost var ls := Keys(entries[..]);
    var last;
    code, last := PlaceFiles(entries, files, out, fill, blockSize);
    Finish(was, ks, ls, files, fill, code, out.contents, last);
    if code == None && truncate {
      out.contents := out.contents[..last];
    }
  }

  lemma AnyOrder(ks: seq<(string, nat)>, ls: seq<(string, nat)>, files: Files)
    requires multiset(ks) == multiset(ls)
    ensures AllOpen(ks, files) <==> AllOpen(ls, files)
    ensures AllOpen(ks, files) ==> multiset(Inputs(ks, files)) == multiset(Inputs(ls, files))
    ensures AllOpen(ks, files) ==> (Disjoint(Inputs(ks, files)) <==> Disjoint(Inputs(ls, files)))
  {
    forall k
      ensures k in ks <==> k in ls
    {
      assert k in ks <==> k in multiset(ks);
      assert k in ls <==> k in multiset(ls);
    }
    if AllOpen(ks, files) {
      InputsAnyOrder(ks, ls, files);
      var xs, ys := Inputs(ks, files), Inputs(ls, files);
      if Disjoint(xs) { DisjointAnyOrder(xs, ys); }
      if Disjoint(ys) { DisjointAnyOrder(ys, xs); }
    }
  }

  lemma Split(ls: seq<(string, nat)>, i: nat, files: Files)
    requires i < |ls| && AllOpen(ls, files)
    ensures var rest := ls[..i] + ls[i + 1..];
            && AllOpen(rest, files) && multiset(ls) == multiset(rest) + multiset{ls[i]}
            && multiset(Inputs(ls, files)) == multiset(Inputs(rest, files)) + multiset{InputOf(ls[i], files)}
  {
    var rest := ls[..i] + ls[i + 1..];
    assert ls == ls[..i] + [ls[i]] + ls[i + 1..];
    assert AllOpen(rest, files);
    var xs, ys := Inputs(ls, files), Inputs(rest, files);
    assert xs == ys[..i] + [xs[i]] + ys[i..];
    assert ys == ys[..i] + ys[i..];
  }

  lemma {:induction false} InputsAnyOrder(ks: seq<(string, nat)>, ls: seq<(string, nat)>, files: Files)
    requires multiset(ks) == multiset(ls) && AllOpen(ks, files) && AllOpen(ls, files)
    ensures multiset(Inputs(ks, files)) == multiset(Inputs(ls, files))
    decreases |ks|
  {
    assert |multiset(ks)| == |ks| && |multiset(ls)| == |ls|;
    if ks == [] {
      assert Inputs(ks, files) == Inputs(ls, files);
    } else {
      assert ks[0] in multiset(ls);
      var i :| 0 <= i < |ls| && ls[i] == ks[0];
      var ks', ls' := ks[..0] + ks[1..], ls[..i] + ls[i + 1..];
      Split(ks, 0, files);
      Split(ls, i, files);
      hide AllOpen, Inputs;
      assert multiset(ks') == multiset(ks) - multiset{ks[0]} && multiset(ls') == multiset(ls) - multiset{ks[0]};
      InputsAnyOrder(ks', ls', files);
    }
  }

  lemma Finish(was: seq<Byte>, ks: seq<(string, nat)>, ls: seq<(string, nat)>, files: Files, fill: Byte, code: Code,
               c: seq<Byte>, last: nat)
    requires multiset(ks) == multiset(ls) && SortedTo(ls, |ls|)
    requires code == None ==> Placed(c, last, was, ls, |ls|, files, fill)
    requires code != None ==> !Acceptable(ls, files)
    ensures code == None <==> Acceptable(ks, files)
    ensures code == None ==> last <= |c|
    ensures code == None ==> MadeOf(c, was, ks, files, fill, false) && MadeOf(c[..last], was, ks, files, fill, true)
  {
    hide PlaceAll, Inputs, AllOpen, SortedTo, IsImage, IsMaxEnd, Disjoint, Made;
    AnyOrder(ks, ls, files);
    if code == None {
      assert ls[..|ls|] == ls;
      MadeWhenPlaced(was, ks, ls, files, fill, c, last);
    }
  }

  lemma MadeWhenPlaced(was: seq<Byte>, ks: seq<(string, nat)>, ls: seq<(string, nat)>, files: Files, fill: Byte,
                       c: seq<Byte>, last: nat)
    requires multiset(ks) == multiset(ls) && SortedTo(ls, |ls|) && AllOpen(ks, files) && AllOpen(ls, files)
    requires PlaceAll(was, Inputs(ls, files), fill) == Done(Image(c, last))
    ensures Disjoint(Inputs(ls, files)) && last <= |c|
    ensures Made(c, was, Inputs(ks, files), fill, false) && Made(c[..last], was, Inputs(ks, files), fill, true)
  {
    assert ls[..|ls|] == ls;
    SortedPrefix(ls, |ls|, files);
    PlaceAllCorrect(was, Inputs(ls, files), fill);
    InputsAnyOrder(ks, ls, files);
    ImageAnyOrder(c, was, Inputs(ls, files), Inputs(ks, files), fill, last);
  }
}
