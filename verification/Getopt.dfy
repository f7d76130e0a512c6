/** The permuting option scanner `getopt_internal`.
  *
  * One call is the function `Next` on the scanner's static state; the class at the end is the code,
  * which scans in a loop and permutes the argument vector in place. */
module Getopt {
  import opened Wrappers
  import opened LongOptions
  import opened Permute

  /** The arguments of a call in permuting mode: the option letters, the long options if there are any, and
    * whether they may also follow a single dash.  No option has the value -1, which ends a scan. */
  datatype Call = Call(options: string, longs: Option<seq<LongOpt>>, longOnly: bool) {
    predicate Valid() {
      && (options != "" ==> options[0] != '+' && options[0] != '-')
      && (longs.Some? ==> forall i :: 0 <= i < |longs.value| ==> longs.value[i].val != DONE)
    }
  }

  /** The argument vector and the static state of the scanner: `place` is the unread rest of the option
    * element at `optind`, and [nonoptStart, nonoptEnd) the non-options skipped so far.  What a call
    * leaves for its caller is `optarg`, `optopt`, the index of a matched long option, and the values
    * stored through long options' flag pointers. */
  datatype Scan = Scan(argv: seq<string>, optind: nat, optreset: bool, place: string, nonoptStart: int, nonoptEnd: int,
                       optarg: Option<string>, optopt: int, longIndex: int, flags: map<nat, int>)

  const DONE := -1
  const BADCH := '?' as int

  predicate IsNonOption(arg: string) {
    arg == "" || arg[0] != '-' || |arg| == 1
  }

  predicate Suffix(s: string, of: string) {
    |s| < |of| && of[|of| - |s|..] == s
  }

  /** What every call keeps: the skipped block is non-empty and lies before `optind`, and the option
    * that closed it has either been passed or still stands at `optind`; what is left of an element is its
    * end. */
  predicate Wf(s: Scan) {
    && 1 <= |s.argv| && s.optind <= |s.argv|
    && (s.optind == 0 || s.optreset || InScan(s))
  }

  predicate InScan(s: Scan) {
    && 1 <= s.optind <= |s.argv|
    && (s.nonoptStart == -1 ==> s.nonoptEnd == -1)
    && (s.nonoptStart != -1 ==> 1 <= s.nonoptStart < (if s.nonoptEnd == -1 then s.optind else s.nonoptEnd))
    && (s.nonoptEnd != -1 ==> s.nonoptEnd <= s.optind)
    && (s.nonoptEnd == s.optind ==> AtOption(s))
    && (s.place != "" ==> AtElement(s) && (s.nonoptStart != -1 ==> s.nonoptEnd != -1))
  }

  predicate AtOption(s: Scan) {
    s.optind < |s.argv| && !IsNonOption(s.argv[s.optind])
  }

  /** Part way through the option element at `optind`. */
  predicate AtElement(s: Scan) {
    AtOption(s) && s.argv[s.optind] != "--" && Suffix(s.place, s.argv[s.optind])
  }

  /** `permute_args` on the skipped block and the options that follow it; neither is empty. */
  function PermuteBlocks(s: Scan, optEnd: nat): (t: seq<string>)
    requires 1 <= s.nonoptStart < s.nonoptEnd < optEnd <= |s.argv|
    ensures |t| == |s.argv|
  {
    Exchanged(s.argv, s.nonoptStart, s.nonoptEnd, optEnd)
  }

  function CharAt(s: string, k: nat): char {
    if k < |s| then s[k] else '\0'
  }

  function BadArg(options: string): int {
    if CharAt(options, 0) == ':' then ':' as int else '?' as int
  }

  /** The scanner has moved on to `t` and changed nothing but what a call leaves for its caller. */
  predicate Moved(s: Scan, t: Scan) {
    t == s.(optind := t.optind, place := t.place, optarg := t.optarg, optopt := t.optopt, longIndex := t.longIndex,
            flags := t.flags)
  }

  /** An option at `optind` was read: the scanner is further into its element, or past it and at most one
    * argument, which is then what `optarg` says.  After the letter W the next element is a long option's
    * name, which may have an argument in turn. */
  predicate Advances(s: Scan, t: Scan) {
    && Moved(s, t)
    && s.optind <= t.optind <= |s.argv|
    && (if t.optind == s.optind then t.place == "" || Suffix(t.place, s.place) else t.place == "")
    && match t.optind - s.optind
       case 0 => true
       case 1 => true
       case 2 => s.place == "W" || t.optarg == Some(s.argv[s.optind + 1])
       case 3 => s.place == "W" && t.optarg == Some(s.argv[s.optind + 2])
       case _ => false
  }

  /** Only a lone dash is left of a cluster of option letters, and the dash is no option. */
  predicate DashTail(s: Scan, c: Call) {
    s.place == "-" && c.longs.None? && '-' !in c.options
  }

  /** `parse_long_options` on the element or the rest of one at `optind`; -1 leaves it to the short options. */
  function LongOption(s: Scan, c: Call, text: string, shortToo: bool): (r: (Scan, int))
    requires s.optind < |s.argv| && c.longs.Some? && c.Valid()
    ensures Moved(s, r.0) && r.0.place == s.place
    ensures if r.1 == DONE then shortToo && r.0 == s
            else r.0.optind == s.optind + 1
                 || (r.0.optind == s.optind + 2 <= |s.argv| && r.0.optarg == Some(s.argv[s.optind + 1]))
  {
    var eq := IndexOf('=', text);
    var inline: Option<string> := if eq < |text| then Some(text[eq + 1..]) else None;
    var t := s.(optind := s.optind + 1);
    match Find(c.longs.value, text[..eq], shortToo, c.longOnly)
    case Ambiguous => (t.(optopt := 0), BADCH)
    case Unknown => if shortToo then (s, DONE) else (t.(optopt := 0), BADCH)
    case Row(m) => TakeLong(t, c, m, inline)
  }

  /** The long option in row m, its argument given after an equals sign or not. */
  function TakeLong(t: Scan, c: Call, m: nat, inline: Option<string>): (r: (Scan, int))
    requires t.optind <= |t.argv| && c.longs.Some? && m < |c.longs.value| && c.Valid()
    ensures Moved(t, r.0) && r.0.place == t.place && r.1 != DONE
    ensures r.0.optind == t.optind
            || (r.0.optind == t.optind + 1 <= |t.argv| && r.0.optarg == Some(t.argv[t.optind]))
  {
    var o := c.longs.value[m];
    var bad := if o.flag.None? then o.val else 0;
    if o.hasArg.NoArgument? && inline.Some? then (t.(optopt := bad), BADCH)
    else if o.hasArg.RequiredArgument? && inline.None? && t.optind >= |t.argv| then
      (t.(optopt := bad, optarg := None), BadArg(c.options))
    else
      var u :=
        if o.hasArg.NoArgument? then t
        else if inline.Some? then t.(optarg := inline)
        else if o.hasArg.RequiredArgument? then t.(optarg := Some(t.argv[t.optind]), optind := t.optind + 1)
        else t;
      if o.flag.None? then (u.(longIndex := m), o.val)
      else (u.(longIndex := m, flags := u.flags[o.flag.value := o.val]), 0)
  }

  function ShortOption(s: Scan, c: Call): (r: (Scan, int))
    requires s.place != "" && s.optind < |s.argv| && c.Valid() && (s.place[0] == '-' ==> c.longs.None?)
    ensures Advances(s, r.0) && (r.1 == DONE <==> DashTail(s, c))
    ensures r.1 == DONE ==> r.0 == s.(place := "")
  {
    var optchar, rest := s.place[0], s.place[1..];
    var k := IndexOf(optchar, c.options);
    if optchar == ':' || (optchar == '-' && rest != "") || k == |c.options| then
      if optchar == '-' && rest == "" then (s.(place := ""), DONE)
      else (s.(place := rest, optind := if rest == "" then s.optind + 1 else s.optind, optopt := optchar as int), BADCH)
    else if c.longs.Some? && optchar == 'W' && CharAt(c.options, k + 1) == ';' then
      if rest != "" then LongOption(s.(place := ""), c, rest, false)
      else if s.optind + 1 >= |s.argv| then
        (s.(place := "", optind := s.optind + 1, optopt := optchar as int), BadArg(c.options))
      else LongOption(s.(place := "", optind := s.optind + 1), c, s.argv[s.optind + 1], false)
    else if CharAt(c.options, k + 1) != ':' then
      (s.(place := rest, optind := if rest == "" then s.optind + 1 else s.optind), optchar as int)
    else if rest != "" then (s.(place := "", optind := s.optind + 1, optarg := Some(rest)), optchar as int)
    else if CharAt(c.options, k + 2) == ':' then
      (s.(place := "", optind := s.optind + 1, optarg := None), optchar as int)
    else if s.optind + 1 >= |s.argv| then
      (s.(place := "", optind := s.optind + 1, optarg := None, optopt := optchar as int), BadArg(c.options))
    else (s.(place := "", optind := s.optind + 2, optarg := Some(s.argv[s.optind + 1])), optchar as int)
  }

  function Classify(s: Scan, c: Call): (r: (Scan, int))
    requires s.place != "" && s.optind < |s.argv| && c.Valid()
    ensures Advances(s, r.0) && (r.1 == DONE <==> DashTail(s, c))
    ensures r.1 == DONE ==> r.0 == s.(place := "")
  {
    if c.longs.Some? && s.place == "-" then (s.(place := ""), BadArg(c.options))
    else if c.longs.Some? && s.place[0] == '-' then
      var (t, ret) := LongOption(s, c, s.place[1..], false);
      (t.(place := ""), ret)
    else if c.longs.Some? && c.longOnly then
      var (t, ret) := LongOption(s, c, s.place, s.place[0] != ':' && s.place[0] in c.options);
      if ret != DONE then (t.(place := ""), ret) else ShortOption(s, c)
    else ShortOption(s, c)
  }

  /** The part of `getopt_internal` from the label `start` on. */
  function Update(s: Scan, c: Call): (r: (Scan, int))
    requires InScan(s) && s.place == "" && c.Valid()
    ensures InScan(r.0) && !r.0.optreset && |r.0.argv| == |s.argv| && s.optind <= |s.argv|
    decreases |s.argv| - s.optind
  {
    if s.optind >= |s.argv| then
      if s.nonoptEnd != -1 then
        (s.(argv := PermuteBlocks(s, s.optind), optind := s.optind - (s.nonoptEnd - s.nonoptStart), optreset := false,
            nonoptStart := -1, nonoptEnd := -1), DONE)
      else
        (s.(optind := if s.nonoptStart != -1 then s.nonoptStart else s.optind, optreset := false, nonoptStart := -1,
            nonoptEnd := -1), DONE)
    else if IsNonOption(s.argv[s.optind]) then
      Update(SkipNonOption(s), c)
    else
      var s1 := s.(optreset := false,
                   nonoptEnd := if s.nonoptStart != -1 && s.nonoptEnd == -1 then s.optind else s.nonoptEnd);
      if s.argv[s.optind] == "--" then
        var s2 := s1.(optind := s.optind + 1, place := "");
        if s1.nonoptEnd != -1 then
          (s2.(argv := PermuteBlocks(s2, s2.optind), optind := s2.optind - (s1.nonoptEnd - s1.nonoptStart),
               nonoptStart := -1, nonoptEnd := -1), DONE)
        else (s2.(nonoptStart := -1, nonoptEnd := -1), DONE)
      else
        ElementEnds(s1);
        Classify(s1.(place := s.argv[s.optind][1..]), c)
  }

  lemma ElementEnds(s: Scan)
    requires AtOption(s) && s.argv[s.optind] != "--"
    ensures AtElement(s.(place := s.argv[s.optind][1..])) && s.argv[s.optind][1..] != ""
  {
  }

  /** What is left after reading part of the rest of an element is still its end. */
  lemma SuffixOfSuffix(a: string, b: string, c: string)
    requires Suffix(a, b) && Suffix(b, c)
    ensures Suffix(a, c)
  {
    assert c[|c| - |a|..] == c[|c| - |b|..][|b| - |a|..];
  }

  function SkipNonOption(s: Scan): (t: Scan)
    requires InScan(s) && s.place == "" && s.optind < |s.argv| && IsNonOption(s.argv[s.optind])
    ensures InScan(t) && t.place == "" && t.optind == s.optind + 1 && |t.argv| == |s.argv|
  {
    var n := s.(optreset := false, optind := s.optind + 1);
    if s.nonoptStart == -1 then n.(nonoptStart := s.optind)
    else if s.nonoptEnd != -1 then
      n.(argv := PermuteBlocks(s, s.optind), nonoptStart := s.optind - (s.nonoptEnd - s.nonoptStart), nonoptEnd := -1)
    else n
  }

  /** One call of `getopt_internal` in permuting mode: the new state and the returned value. */
  function Next(s: Scan, c: Call): (r: (Scan, int))
    requires Wf(s) && c.Valid()
    ensures Wf(r.0) && r.0.optind > 0 && !r.0.optreset && |r.0.argv| == |s.argv|
  {
    var s0 := Restarted(s).(optarg := None);
    if s0.optreset || s0.place == "" then Update(s0.(optreset := false, place := ""), c) else Classify(s0, c)
  }

  function Restarted(s: Scan): (t: Scan)
    requires Wf(s)
    ensures Wf(t) && t.optind > 0 && t.argv == s.argv && (!t.optreset ==> InScan(t))
  {
    if s.optind == 0 then s.(optind := 1, optreset := true, nonoptStart := -1, nonoptEnd := -1)
    else if s.optreset then s.(nonoptStart := -1, nonoptEnd := -1)
    else s
  }

  // ---- what has been scanned: the stable partition ----

  /** How an element of the original vector was taken: as an option element, an option's argument, the long
    * option's name behind a W, a skipped non-option, or the `--` that ends the options. */
  datatype Mark = Opt | Arg | Name | Non | End

  /** The elements that are non-options, or the others, in order. */
  ghost function Marked<T>(s: seq<T>, marks: seq<Mark>, nons: bool): (r: seq<T>)
    requires |s| == |marks|
  {
    if s == [] then []
    else
      Marked(s[..|s| - 1], marks[..|marks| - 1], nons)
      + (if marks[|marks| - 1].Non? == nons then [s[|s| - 1]] else [])
  }

  predicate EndsInW(arg: string) { arg != "" && arg[|arg| - 1] == 'W' }

  ghost predicate MarkFits(orig: seq<string>, base: nat, marks: seq<Mark>, k: nat)
    requires base + |marks| <= |orig| && k < |marks|
  {
    match marks[k]
    case Opt => !IsNonOption(orig[base + k]) && orig[base + k] != "--"
    case Name => k > 0 && marks[k - 1].Opt? && EndsInW(orig[base + k - 1])
    case Arg => k > 0 && (marks[k - 1].Opt? || marks[k - 1].Name?)
    case Non => IsNonOption(orig[base + k])
    case End => orig[base + k] == "--" && k == |marks| - 1
  }

  /** The marks of the part of the original vector from `base` on that has been scanned: an option element has
    * at most one argument, behind a W counted from the long option's name, and only `--` ends the options. */
  ghost predicate MarksFit(orig: seq<string>, base: nat, marks: seq<Mark>) {
    base + |marks| <= |orig| && forall k :: 0 <= k < |marks| ==> MarkFits(orig, base, marks, k)
  }

  ghost function Covered(orig: seq<string>, base: nat, marks: seq<Mark>): seq<string>
    requires base + |marks| <= |orig|
  {
    orig[base..base + |marks|]
  }

  /** The vector is that of a scan that began at index `base` of `orig`: the options taken so far in front of
    * and behind the block of non-options skipped so far, and the rest as it was. */
  ghost predicate Laid(s: Scan, orig: seq<string>, base: nat, marks: seq<Mark>) {
    && InScan(s) && !s.optreset && MarksFit(orig, base, marks) && |s.argv| == |orig| && 1 <= base
    && s.optind == base + |marks|
    && s.argv[..base] == orig[..base] && s.argv[s.optind..] == orig[s.optind..]
    && var opts, nons := Marked(Covered(orig, base, marks), marks, false),
                       Marked(Covered(orig, base, marks), marks, true);
       if s.nonoptStart == -1 then s.argv[base..s.optind] == opts && nons == []
       else
         && base <= s.nonoptStart
         && var ne := if s.nonoptEnd == -1 then s.optind else s.nonoptEnd;
            && s.argv[base..s.nonoptStart] + s.argv[ne..s.optind] == opts
            && s.argv[s.nonoptStart..ne] == nons
  }

  ghost predicate NoEnd(marks: seq<Mark>) {
    forall k :: 0 <= k < |marks| ==> !marks[k].End?
  }

  /** The state in the middle of a scan. */
  ghost predicate Scanned(s: Scan, orig: seq<string>, base: nat, marks: seq<Mark>) {
    Laid(s, orig, base, marks) && NoEnd(marks)
  }

  /** The whole vector has been scanned, or all of it up to the `--`. */
  ghost predicate Finished(orig: seq<string>, base: nat, marks: seq<Mark>) {
    base + |marks| == |orig| || (marks != [] && marks[|marks| - 1].End?)
  }

  /** The stable partition of all of the original vector: options with their arguments first, then the
    * non-options, what follows a `--` last; `optind` is at the first of the non-options. */
  ghost predicate Partitioned(s: Scan, orig: seq<string>, base: nat, marks: seq<Mark>) {
    && MarksFit(orig, base, marks) && Finished(orig, base, marks)
    && var opts, nons := Marked(Covered(orig, base, marks), marks, false),
                       Marked(Covered(orig, base, marks), marks, true);
       && s.argv == orig[..base] + opts + nons + orig[base + |marks|..]
       && s.optind == base + |opts|
  }

  // ---- proofs ----

  lemma MarkedAppend<T>(s: seq<T>, marks: seq<Mark>, x: T, m: Mark, b: bool)
    requires |s| == |marks|
    ensures Marked(s + [x], marks + [m], b) == Marked(s, marks, b) + (if m.Non? == b then [x] else [])
  {
    assert (s + [x])[..|s|] == s && (marks + [m])[..|marks|] == marks;
  }

  /** Marking one more element of the original vector. */
  lemma CoverOne(orig: seq<string>, base: nat, marks: seq<Mark>, m: Mark, b: bool)
    requires base + |marks| < |orig|
    ensures Marked(Covered(orig, base, marks + [m]), marks + [m], b)
         == Marked(Covered(orig, base, marks), marks, b) + (if m.Non? == b then [orig[base + |marks|]] else [])
  {
    assert Covered(orig, base, marks + [m]) == Covered(orig, base, marks) + [orig[base + |marks|]];
    MarkedAppend(Covered(orig, base, marks), marks, orig[base + |marks|], m, b);
  }

  lemma FitsOne(orig: seq<string>, base: nat, marks: seq<Mark>, m: Mark)
    requires MarksFit(orig, base, marks) && NoEnd(marks) && base + |marks| < |orig|
    requires MarkFits(orig, base, marks + [m], |marks|)
    ensures MarksFit(orig, base, marks + [m])
    ensures !m.End? ==> NoEnd(marks + [m])
  {
    forall k | 0 <= k < |marks|
      ensures MarkFits(orig, base, marks + [m], k)
    {
      assert MarkFits(orig, base, marks, k);
    }
  }

  lemma ExchangedSlices<T>(a: seq<T>, base: int, start: int, mid: int, end: int)
    requires 0 <= base <= start <= mid <= end <= |a|
    ensures var t, cut := Exchanged(a, start, mid, end), start + (end - mid);
            && t[base..cut] == a[base..start] + a[mid..end]
            && t[cut..end] == a[start..mid]
            && t[..base] == a[..base] && t[end..] == a[end..]
  {
  }

  lemma SliceGrow<T>(a: seq<T>, lo: int, hi: int)
    requires 0 <= lo <= hi < |a|
    ensures a[lo..hi + 1] == a[lo..hi] + [a[hi]]
    ensures a[hi..][0] == a[hi] && a[hi + 1..] == a[hi..][1..]
  {
  }

  /** Passing one element as part of an option keeps the layout. */
  lemma TakeOne(s: Scan, orig: seq<string>, base: nat, marks: seq<Mark>, m: Mark)
    requires Scanned(s, orig, base, marks) && s.place == "" && s.optind < |s.argv| && !m.Non?
    requires s.nonoptStart != -1 ==> s.nonoptEnd != -1
    requires MarkFits(orig, base, marks + [m], |marks|)
    ensures Laid(s.(optind := s.optind + 1), orig, base, marks + [m])
    ensures !m.End? ==> NoEnd(marks + [m])
  {
    hide Marked, MarkFits, MarksFit, NoEnd;
    FitsOne(orig, base, marks, m);
    CoverOne(orig, base, marks, m, true);
    CoverOne(orig, base, marks, m, false);
    SliceGrow(s.argv, if s.nonoptStart == -1 then base else s.nonoptEnd, s.optind);
    SliceGrow(orig, base, s.optind);
    assert s.argv[s.optind] == orig[s.optind];
    var nons := Marked(Covered(orig, base, marks), marks, true);
    assert nons + [] == nons;
    if s.nonoptStart != -1 {
      assert s.argv[base..s.nonoptStart] + (s.argv[s.nonoptEnd..s.optind] + [s.argv[s.optind]])
          == s.argv[base..s.nonoptStart] + s.argv[s.nonoptEnd..s.optind] + [s.argv[s.optind]];
    }
  }

  /** Further in the same element, or with other outputs, the layout is the same. */
  lemma SameLayout(s: Scan, t: Scan, orig: seq<string>, base: nat, marks: seq<Mark>)
    requires Scanned(s, orig, base, marks) && Moved(s, t) && t.optind == s.optind
    requires t.place != "" ==> AtElement(t) && (t.nonoptStart != -1 ==> t.nonoptEnd != -1)
    ensures Scanned(t, orig, base, marks)
  {
    hide Marked, MarksFit, NoEnd;
  }

  lemma TailElement(s: Scan, orig: seq<string>, base: nat, marks: seq<Mark>)
    requires Scanned(s, orig, base, marks)
    ensures base + |marks| == s.optind && |s.argv| == |orig| && MarksFit(orig, base, marks) && NoEnd(marks)
    ensures forall k :: s.optind <= k < |orig| ==> orig[k] == s.argv[k]
  {
    hide Marked, MarksFit, NoEnd;
    forall k | s.optind <= k < |orig|
      ensures orig[k] == s.argv[k]
    {
      assert s.argv[s.optind..][k - s.optind] == orig[s.optind..][k - s.optind];
    }
  }

  /** The marks of the elements that reading an option passes. */
  ghost function Passed(n: int, afterW: bool): seq<Mark> {
    if n == 1 then [Opt]
    else if n == 2 then [Opt, if afterW then Name else Arg]
    else if n == 3 then [Opt, Name, Arg]
    else []
  }

  /** Reading an option, whatever it is, keeps the scan invariant; an argument it takes is what `optarg` says. */
  lemma AdvanceKeeps(s: Scan, t: Scan, orig: seq<string>, base: nat, marks: seq<Mark>) returns (marks': seq<Mark>)
    requires Scanned(s.(place := ""), orig, base, marks) && AtElement(s) && Advances(s, t)
    requires s.nonoptStart != -1 ==> s.nonoptEnd != -1
    ensures Scanned(t, orig, base, marks') && marks' == marks + Passed(t.optind - s.optind, s.place == "W")
    ensures TakenArgument(t, orig, base, marks, marks')
  {
    hide Scanned, Laid, MarksFit, MarkFits, NoEnd, IsNonOption;
    var u, n := s.(place := ""), t.optind - s.optind;
    marks' := marks;
    TailElement(u, orig, base, marks);
    if n == 0 {
      assert marks + [] == marks;
      if t.place != "" { SuffixOfSuffix(t.place, s.place, s.argv[s.optind]); }
    } else {
      u := PassElement(u, orig, base, marks, Opt);
      marks' := marks + [Opt];
      if n >= 2 {
        var m := if s.place == "W" then Name else Arg;
        if m.Name? { assert EndsInW(s.argv[s.optind]) by { SuffixIsEnd(s.place, s.argv[s.optind]); } }
        u := PassElement(u, orig, base, marks', m);
        assert marks + [Opt] + [m] == marks + [Opt, m];
        marks' := marks + [Opt, m];
        if n == 3 {
          u := PassElement(u, orig, base, marks', Arg);
          assert marks + [Opt, m] + [Arg] == marks + [Opt, m, Arg];
          marks' := marks + [Opt, Name, Arg];
        }
      }
    }
    SameLayout(u, t, orig, base, marks');
  }

  lemma SuffixIsEnd(s: string, of: string)
    requires Suffix(s, of) && s == "W"
    ensures EndsInW(of)
  {
    assert of[|of| - 1..][0] == 'W';
  }

  lemma PassElement(s: Scan, orig: seq<string>, base: nat, marks: seq<Mark>, m: Mark) returns (t: Scan)
    requires Scanned(s, orig, base, marks) && s.place == "" && s.optind < |s.argv| && (m.Opt? || m.Arg? || m.Name?)
    requires s.nonoptStart != -1 ==> s.nonoptEnd != -1
    requires m.Opt? ==> AtOption(s) && s.argv[s.optind] != "--"
    requires !m.Opt? ==> marks != [] && (marks[|marks| - 1].Opt? || (m.Arg? && marks[|marks| - 1].Name?))
    requires m.Name? ==> EndsInW(s.argv[s.optind - 1]) && orig[s.optind - 1] == s.argv[s.optind - 1]
    ensures t == s.(optind := s.optind + 1) && Scanned(t, orig, base, marks + [m])
  {
    hide Laid, MarksFit, NoEnd;
    TailElement(s, orig, base, marks);
    TakeOne(s, orig, base, marks, m);
    t := s.(optind := s.optind + 1);
  }

  /** If the last element a call passed is an argument, `optarg` is that element. */
  ghost predicate TakenArgument(t: Scan, orig: seq<string>, base: nat, marks: seq<Mark>, marks': seq<Mark>) {
    var n := |marks'|;
    |marks| < n && marks'[n - 1].Arg? ==> base + n <= |orig| && t.optarg == Some(orig[base + n - 1])
  }

  /** Permuting the skipped block with the options behind it gathers options, then non-options. */
  lemma PermuteGathers(s: Scan, orig: seq<string>, base: nat, marks: seq<Mark>)
    requires Laid(s, orig, base, marks) && s.nonoptEnd != -1 && s.nonoptEnd < s.optind
    ensures var t, cut := PermuteBlocks(s, s.optind), s.optind - (s.nonoptEnd - s.nonoptStart);
            && t[..base] == orig[..base] && t[s.optind..] == orig[s.optind..]
            && t[base..cut] == Marked(Covered(orig, base, marks), marks, false)
            && t[cut..s.optind] == Marked(Covered(orig, base, marks), marks, true)
  {
    hide Marked, MarksFit;
    ExchangedSlices(s.argv, base, s.nonoptStart, s.nonoptEnd, s.optind);
  }

  /** Skipping a non-option keeps the scan invariant. */
  lemma SkipKeeps(s: Scan, orig: seq<string>, base: nat, marks: seq<Mark>)
    requires Scanned(s, orig, base, marks) && s.place == "" && s.optind < |s.argv| && IsNonOption(s.argv[s.optind])
    ensures Scanned(SkipNonOption(s), orig, base, marks + [Non])
  {
    TailElement(s, orig, base, marks);
    FitsOne(orig, base, marks, Non);
    hide Laid, SkipNonOption, MarksFit, NoEnd;
    if s.nonoptEnd != -1 {
      SkipMoves(s, orig, base, marks);
    } else {
      SkipGrows(s, orig, base, marks);
    }
  }

  lemma SkipMoves(s: Scan, orig: seq<string>, base: nat, marks: seq<Mark>)
    requires Laid(s, orig, base, marks) && s.place == "" && s.optind < |s.argv| && IsNonOption(s.argv[s.optind])
    requires s.nonoptEnd != -1 && MarksFit(orig, base, marks + [Non])
    ensures Laid(SkipNonOption(s), orig, base, marks + [Non])
  {
    hide Marked, PermuteBlocks, MarksFit;
    CoverOne(orig, base, marks, Non, true);
    CoverOne(orig, base, marks, Non, false);
    var opts := Marked(Covered(orig, base, marks), marks, false);
    assert opts + [] == opts;
    SliceGrow(orig, base, s.optind);
    assert s.argv[s.optind] == orig[s.optind];
    PermuteGathers(s, orig, base, marks);
    SkipExtends(PermuteBlocks(s, s.optind), orig, base, s.optind - (s.nonoptEnd - s.nonoptStart), s.optind);
  }

  lemma SkipGrows(s: Scan, orig: seq<string>, base: nat, marks: seq<Mark>)
    requires Laid(s, orig, base, marks) && s.place == "" && s.optind < |s.argv| && IsNonOption(s.argv[s.optind])
    requires s.nonoptEnd == -1 && MarksFit(orig, base, marks + [Non])
    ensures Laid(SkipNonOption(s), orig, base, marks + [Non])
  {
    hide Marked, PermuteBlocks, MarksFit;
    CoverOne(orig, base, marks, Non, true);
    CoverOne(orig, base, marks, Non, false);
    var opts := Marked(Covered(orig, base, marks), marks, false);
    assert opts + [] == opts;
    SliceGrow(orig, base, s.optind);
    assert s.argv[s.optind] == orig[s.optind];
    SkipExtends(s.argv, orig, base, if s.nonoptStart == -1 then s.optind else s.nonoptStart, s.optind);
  }

  lemma SkipExtends(a: seq<string>, orig: seq<string>, base: nat, start: nat, optind: nat)
    requires base <= start <= optind < |a| == |orig| && a[optind..] == orig[optind..]
    ensures a[start..optind + 1] == a[start..optind] + [orig[optind]]
    ensures a[base..start] + a[optind + 1..optind + 1] == a[base..start]
    ensures a[base..start] + a[optind..optind] == a[base..start]
    ensures a[optind + 1..] == orig[optind + 1..]
    ensures start == optind ==> a[start..optind] == []
  {
    assert a[optind] == a[optind..][0] == orig[optind..][0];
    assert a[optind + 1..] == a[optind..][1..];
    assert orig[optind + 1..] == orig[optind..][1..];
  }

  /** Ending a scan, by permuting or by stepping back over the skipped block, leaves the partition. */
  lemma EndPartitions(s: Scan, t: Scan, orig: seq<string>, base: nat, marks: seq<Mark>)
    requires Laid(s, orig, base, marks) && Finished(orig, base, marks)
    requires s.nonoptEnd != -1 ==> s.nonoptEnd < s.optind
    requires s.nonoptStart != -1 && s.nonoptEnd == -1 ==> s.optind == |s.argv|
    requires t.argv == (if s.nonoptEnd != -1 then PermuteBlocks(s, s.optind) else s.argv)
    requires t.optind == if s.nonoptEnd != -1 then s.optind - (s.nonoptEnd - s.nonoptStart)
                         else if s.nonoptStart != -1 then s.nonoptStart else s.optind
    ensures Partitioned(t, orig, base, marks)
  {
    hide Marked, MarksFit, Finished;
    if s.nonoptEnd != -1 {
      PermuteGathers(s, orig, base, marks);
      ThreeParts(t.argv, base, t.optind, s.optind);
    } else if s.nonoptStart != -1 {
      assert s.argv[base..s.nonoptStart] + s.argv[s.optind..s.optind] == s.argv[base..s.nonoptStart];
      ThreeParts(t.argv, base, t.optind, s.optind);
    } else {
      assert t.argv[s.optind..s.optind] == [];
      ThreeParts(t.argv, base, s.optind, s.optind);
    }
  }

  lemma ThreeParts<T>(a: seq<T>, i: int, j: int, k: int)
    requires 0 <= i <= j <= k <= |a|
    ensures a == a[..i] + a[i..j] + a[j..k] + a[k..] && |a[i..j]| == j - i
  {
  }

  // ---- the theorems: one call, and a whole run ----

  /** What one call passes: any number of non-options and then no more than one option element with its
    * argument; or, when the scan is done, no more than the `--`. */
  predicate OnePass(passed: seq<Mark>, done: bool) {
    if passed != [] && passed[0].Non? then OnePass(passed[1..], done)
    else if done then passed == [] || passed == [End]
    else passed == [] || passed == [Opt] || passed == [Opt, Arg] || passed == [Opt, Name] || passed == [Opt, Name, Arg]
  }

  /** What a call leaves: the partition if it returned -1, and otherwise a scan that goes on. */
  ghost predicate Left(t: Scan, ret: int, orig: seq<string>, base: nat, marks: seq<Mark>, marks': seq<Mark>) {
    && marks <= marks' && OnePass(marks'[|marks|..], ret == DONE)
    && if ret == DONE then Partitioned(t, orig, base, marks')
       else Scanned(t, orig, base, marks') && TakenArgument(t, orig, base, marks, marks')
  }

  /** From the label `start`: the scan goes on, or it ends with the partition. */
  lemma {:induction false} UpdateKeeps(s: Scan, c: Call, orig: seq<string>, base: nat, marks: seq<Mark>)
      returns (marks': seq<Mark>)
    requires Scanned(s, orig, base, marks) && s.place == "" && c.Valid()
    ensures Left(Update(s, c).0, Update(s, c).1, orig, base, marks, marks')
    decreases |s.argv| - s.optind
  {
    hide Marked, MarksFit, NoEnd, Partitioned, TakenArgument;
    if s.optind >= |s.argv| {
      marks' := marks;
      EndPartitions(s, Update(s, c).0, orig, base, marks);
    } else if IsNonOption(s.argv[s.optind]) {
      SkipKeeps(s, orig, base, marks);
      marks' := UpdateKeeps(SkipNonOption(s), c, orig, base, marks + [Non]);
      assert Update(s, c) == Update(SkipNonOption(s), c);
      PassLater(marks, marks + [Non], marks', Update(s, c).1 == DONE);
      TakenLater(Update(s, c).0, orig, base, marks, marks + [Non], marks');
    } else {
      marks' := OptionKeeps(s, c, orig, base, marks);
    }
  }

  lemma PassLater(marks: seq<Mark>, mid: seq<Mark>, marks': seq<Mark>, done: bool)
    requires mid == marks + [Non] && mid <= marks' && OnePass(marks'[|mid|..], done)
    ensures OnePass(marks'[|marks|..], done)
  {
    assert marks'[|marks|..][1..] == marks'[|mid|..];
  }

  lemma TakenLater(t: Scan, orig: seq<string>, base: nat, marks: seq<Mark>, mid: seq<Mark>, marks': seq<Mark>)
    requires mid == marks + [Non] && mid <= marks'
    ensures TakenArgument(t, orig, base, mid, marks') ==> TakenArgument(t, orig, base, marks, marks')
  {
    if |marks'| == |mid| { assert marks' == mid; }
  }

  lemma OptionKeeps(s: Scan, c: Call, orig: seq<string>, base: nat, marks: seq<Mark>) returns (marks': seq<Mark>)
    requires Scanned(s, orig, base, marks) && s.place == "" && c.Valid() && AtOption(s)
    ensures Left(Update(s, c).0, Update(s, c).1, orig, base, marks, marks')
  {
    var a := s.argv[s.optind];
    NotReset(s, orig, base, marks);
    BlockCloses(s, orig, base, marks);
    hide Laid, MarksFit, NoEnd, Partitioned, Classify, Finished;
    if a == "--" {
      marks' := DashDashEnds(s, c, orig, base, marks);
    } else {
      OptionNotDone(s, c);
      hide Update;
      marks' := ClassifyKeeps(Closed(s).(place := a[1..]), c, orig, base, marks);
    }
  }

  lemma NotReset(s: Scan, orig: seq<string>, base: nat, marks: seq<Mark>)
    requires Laid(s, orig, base, marks)
    ensures InScan(s) && !s.optreset
  {
  }

  lemma DashDashEnds(s: Scan, c: Call, orig: seq<string>, base: nat, marks: seq<Mark>) returns (marks': seq<Mark>)
    requires Scanned(s, orig, base, marks) && s.place == "" && c.Valid() && AtOption(s) && s.argv[s.optind] == "--"
    ensures marks <= marks' && Update(s, c).1 == DONE && Partitioned(Update(s, c).0, orig, base, marks')
    ensures OnePass(marks'[|marks|..], true)
  {
    NotReset(s, orig, base, marks);
    DashDashUpdate(s, c);
    marks' := marks + [End];
    PassesEnd(marks);
    TakesEnd(s, orig, base, marks);
    hide Laid, Update, Partitioned, MarksFit, NoEnd, PermuteBlocks, Marked, OnePass;
    EndPartitions(Closed(s).(optind := s.optind + 1), Update(s, c).0, orig, base, marks');
  }

  lemma TakesEnd(s: Scan, orig: seq<string>, base: nat, marks: seq<Mark>)
    requires Scanned(s, orig, base, marks) && s.place == "" && AtOption(s) && s.argv[s.optind] == "--"
    ensures Laid(Closed(s).(optind := s.optind + 1), orig, base, marks + [End])
    ensures Finished(orig, base, marks + [End])
  {
    BlockCloses(s, orig, base, marks);
    TailElement(s, orig, base, marks);
    hide Laid, MarksFit, NoEnd, Marked;
    TakeOne(Closed(s), orig, base, marks, End);
  }

  lemma PassesEnd(marks: seq<Mark>)
    ensures OnePass((marks + [End])[|marks|..], true)
  {
    assert (marks + [End])[|marks|..] == [End];
  }

  lemma DashDashUpdate(s: Scan, c: Call)
    requires InScan(s) && AtOption(s) && s.argv[s.optind] == "--" && s.place == "" && !s.optreset && c.Valid()
    ensures var s2, t := Closed(s).(optind := s.optind + 1), Update(s, c).0;
            && Update(s, c).1 == DONE
            && (s2.nonoptStart != -1 ==> s2.nonoptEnd != -1) && s2.nonoptEnd < s2.optind && InScan(s2)
            && t.argv == (if s2.nonoptEnd != -1 then PermuteBlocks(s2, s2.optind) else s2.argv)
            && t.optind == if s2.nonoptEnd != -1 then s2.optind - (s2.nonoptEnd - s2.nonoptStart) else s2.optind
  {
    hide PermuteBlocks;
  }

  /** Before the first letter of an element nothing is a trailing dash. */
  lemma OptionNotDone(s: Scan, c: Call)
    requires InScan(s) && AtOption(s) && s.argv[s.optind] != "--" && s.place == "" && c.Valid() && !s.optreset
    ensures var s2 := Closed(s).(place := s.argv[s.optind][1..]);
            && s2.place != "" && Update(s, c) == Classify(s2, c) && Update(s, c).1 != DONE && AtElement(s2)
            && (s2.nonoptStart != -1 ==> s2.nonoptEnd != -1)
  {
    var a := s.argv[s.optind];
    assert a == [a[0]] + a[1..];
    ElementEnds(s);
  }

  /** The skipped block ends where an option is found. */
  ghost function Closed(s: Scan): Scan {
    s.(nonoptEnd := if s.nonoptStart != -1 && s.nonoptEnd == -1 then s.optind else s.nonoptEnd)
  }

  lemma ClassifyKeeps(s: Scan, c: Call, orig: seq<string>, base: nat, marks: seq<Mark>) returns (marks': seq<Mark>)
    requires Scanned(s.(place := ""), orig, base, marks) && c.Valid() && AtElement(s) && s.place != ""
    requires s.nonoptStart != -1 ==> s.nonoptEnd != -1
    ensures marks <= marks' && Scanned(Classify(s, c).0, orig, base, marks')
    ensures TakenArgument(Classify(s, c).0, orig, base, marks, marks') && OnePass(marks'[|marks|..], false)
  {
    hide Scanned, Classify, TakenArgument;
    marks' := AdvanceKeeps(s, Classify(s, c).0, orig, base, marks);
    var n := Classify(s, c).0.optind - s.optind;
    assert marks'[|marks|..] == Passed(n, s.place == "W");
    PassedOne(n, s.place == "W");
  }

  lemma PassedOne(n: int, afterW: bool)
    requires n <= 3
    ensures OnePass(Passed(n, afterW), false)
  {
  }

  lemma BlockCloses(s: Scan, orig: seq<string>, base: nat, marks: seq<Mark>)
    requires Laid(s, orig, base, marks) && s.place == "" && AtOption(s)
    ensures Laid(Closed(s), orig, base, marks)
  {
    hide Marked, MarksFit;
  }

  // ---- the exceptional -1 ----

  lemma {:induction false} MarkedNons(s: seq<string>, marks: seq<Mark>)
    requires |s| == |marks| && forall k :: 0 <= k < |marks| && marks[k].Non? ==> IsNonOption(s[k])
    ensures forall j :: 0 <= j < |Marked(s, marks, true)| ==> IsNonOption(Marked(s, marks, true)[j])
    ensures |Marked(s, marks, false)| + |Marked(s, marks, true)| == |marks|
  {
    hide IsNonOption;
    if s != [] {
      MarkedNons(s[..|s| - 1], marks[..|marks| - 1]);
    }
  }

  /** In a partition `optind` is at a non-option or behind everything that was scanned. */
  lemma PartitionPlace(t: Scan, orig: seq<string>, base: nat, m: seq<Mark>)
    requires Partitioned(t, orig, base, m)
    ensures t.optind <= base + |m| <= |orig| == |t.argv|
    ensures t.optind < base + |m| ==> IsNonOption(t.argv[t.optind])
  {
    var opts, nons := Marked(Covered(orig, base, m), m, false), Marked(Covered(orig, base, m), m, true);
    forall k | 0 <= k < |m| && m[k].Non?
      ensures IsNonOption(Covered(orig, base, m)[k])
    {
      assert MarkFits(orig, base, m, k);
    }
    MarkedNons(Covered(orig, base, m), m);
    hide Marked, IsNonOption, MarksFit;
    assert nons != [] ==> t.argv[base + |opts|] == nons[0];
  }

  lemma PrefixOfLength(a: seq<Mark>, b: seq<Mark>)
    requires a <= b
    ensures |a| == |b| ==> a == b
  {
  }

  /** A vector with `optind` at an option is no partition, however the scan might go on. */
  lemma NeverPartitioned(s: Scan, t: Scan, orig: seq<string>, base: nat, marks: seq<Mark>, m: seq<Mark>)
    requires Scanned(s, orig, base, marks) && AtOption(s) && t.argv == s.argv && t.optind == s.optind && marks <= m
    ensures !Partitioned(t, orig, base, m)
  {
    hide Marked, Laid, IsNonOption, MarksFit;
    TailElement(s, orig, base, marks);
    PrefixOfLength(marks, m);
    if Partitioned(t, orig, base, m) {
      PartitionPlace(t, orig, base, m);
    }
  }

  /** One call in the middle of a scan: it goes on, or it ends with the stable partition of the whole vector.
    * Only where a lone dash is left of the current element, and the dash is no option, is the vector left as
    * it is, which is then no partition. */
  lemma NextKeeps(s: Scan, c: Call, orig: seq<string>, base: nat, marks: seq<Mark>) returns (marks': seq<Mark>)
    requires Scanned(s, orig, base, marks) && c.Valid()
    ensures Wf(s) && marks <= marks'
    ensures var (t, ret) := Next(s, c);
            if DashTail(s, c) then ret == DONE && NoneLeft(t, orig, base, marks) && t == s.(place := "", optarg := None)
            else Left(t, ret, orig, base, marks, marks')
  {
    NotReset(s, orig, base, marks);
    var s0 := s.(optarg := None);
    assert Restarted(s) == s;
    hide Laid, NoEnd, Marked, Left, Classify, Update;
    SameLayout(s, s0, orig, base, marks);
    if s.place == "" {
      assert s0.(optreset := false, place := "") == s0;
      marks' := UpdateKeeps(s0, c, orig, base, marks);
    } else {
      SameLayout(s0, s0.(place := ""), orig, base, marks);
      marks' := ClassifyKeeps(s0, c, orig, base, marks);
      if DashTail(s, c) {
        forall m | marks <= m
          ensures !Partitioned(Next(s, c).0, orig, base, m)
        {
          NeverPartitioned(s, Next(s, c).0, orig, base, marks, m);
        }
      } else {
        Goes(Next(s, c).0, Next(s, c).1, orig, base, marks, marks');
      }
    }
  }

  lemma Goes(t: Scan, ret: int, orig: seq<string>, base: nat, marks: seq<Mark>, marks': seq<Mark>)
    requires ret != DONE && marks <= marks' && Scanned(t, orig, base, marks')
    requires TakenArgument(t, orig, base, marks, marks') && OnePass(marks'[|marks|..], false)
    ensures Left(t, ret, orig, base, marks, marks')
  {
  }

  /** No continuation of the scan makes the state a partition. */
  ghost predicate NoneLeft(t: Scan, orig: seq<string>, base: nat, marks: seq<Mark>) {
    forall m {:trigger Partitioned(t, orig, base, m)} | marks <= m :: !Partitioned(t, orig, base, m)
  }

  // ---- whole runs ----

  /** The state and the last returned value after a list of calls. */
  function Results(s: Scan, calls: seq<Call>): (r: (Scan, int))
    requires Wf(s) && forall c | c in calls :: c.Valid()
    ensures Wf(r.0)
  {
    if calls == [] then (s, 0) else Next(Results(s, calls[..|calls| - 1]).0, calls[|calls| - 1])
  }

  /** A scan can begin here: `optind` or `optreset` asks for a restart, or nothing is in progress. */
  predicate Fresh(s: Scan) {
    Wf(s) && (s.optind == 0 || s.optreset || (s.place == "" && s.nonoptStart == -1))
  }

  function Base(s: Scan): nat { if s.optind == 0 then 1 else s.optind }

  /** A whole run: over any calls from a fresh state of which none but perhaps the last returned -1, the vector
    * is the original one partly permuted.  When the last call returns -1 it is the stable partition of the
    * whole vector, options with their arguments first, with `optind` at the first non-option, if and only if
    * that call did not find a trailing dash that is no option. */
  lemma {:induction false} ScanRun(s: Scan, calls: seq<Call>) returns (before: seq<Mark>, marks: seq<Mark>)
    requires Fresh(s) && calls != [] && forall c | c in calls :: c.Valid()
    requires forall k | 0 < k < |calls| :: Results(s, calls[..k]).1 != DONE
    ensures before <= marks
    ensures var was, last := Begun(Results(s, calls[..|calls| - 1]).0), calls[|calls| - 1];
            var (t, ret) := Results(s, calls);
            && Scanned(was, s.argv, Base(s), before)
            && if DashTail(was, last) then ret == DONE && NoneLeft(t, s.argv, Base(s), before)
               else Left(t, ret, s.argv, Base(s), before, marks)
    decreases |calls|
  {
    hide Laid, NoEnd, Marked, MarksFit, Next, NoneLeft, Partitioned, TakenArgument;
    var n := |calls| - 1;
    var was, last := Results(s, calls[..n]).0, calls[n];
    if n == 0 {
      FreshBegins(s, last);
      before := [];
      marks := NextKeeps(Begun(s), last, s.argv, Base(s), []);
    } else {
      forall k | 0 < k < n
        ensures Results(s, calls[..n][..k]).1 != DONE
      {
        assert calls[..n][..k] == calls[..k];
      }
      var b, m := ScanRun(s, calls[..n]);
      assert Results(s, calls[..n]).1 != DONE;
      NotReset(was, s.argv, Base(s), m);
      before := m;
      marks := NextKeeps(was, last, s.argv, Base(s), m);
    }
  }

  /** The state a call really starts from, once a requested restart has been carried out. */
  function Begun(s: Scan): (t: Scan)
    requires Wf(s)
  {
    if s.optind == 0 || s.optreset then Restarted(s).(optreset := false, place := "") else s
  }

  lemma FreshBegins(s: Scan, c: Call)
    requires Fresh(s) && c.Valid()
    ensures Scanned(Begun(s), s.argv, Base(s), []) && Next(s, c) == Next(Begun(s), c)
  {
    var b := Begun(s);
    assert b.argv[b.optind..b.optind] == [];
  }

  /** The scanner before its first call. */
  ghost function Initial(argv: seq<string>): Scan {
    Scan(argv, 1, false, "", -1, -1, None, BADCH, 0, map[])
  }

  /** `prog x -a-` with the option letters "a": the second call returns -1 and leaves the option behind `x`. */
  lemma DashTailExample()
    ensures var argv, c := ["prog", "x", "-a-"], Call("a", None, false);
            var s := Initial(argv);
            && Fresh(s) && c.Valid()
            && Next(s, c) == (s.(optind := 2, place := "-", nonoptStart := 1, nonoptEnd := 2), 'a' as int)
            && DashTail(Next(s, c).0, c)
            && Next(Next(s, c).0, c) == (s.(optind := 2, nonoptStart := 1, nonoptEnd := 2), DONE)
            && forall m :: !Partitioned(Next(Next(s, c).0, c).0, argv, 1, m)
  {
    hide Marked, MarksFit, Partitioned;
    var argv, c := ["prog", "x", "-a-"], Call("a", None, false);
    var s := Initial(argv);
    ExampleFirst();
    FreshBegins(s, c);
    hide Next;
    var m := NextKeeps(Begun(s), c, argv, 1, []);
    ExampleSecond(s.(optind := 2, place := "-", nonoptStart := 1, nonoptEnd := 2), c, m);
    forall m: seq<Mark>
      ensures !Partitioned(Next(Next(s, c).0, c).0, argv, 1, m)
    {
      ExampleLeft(Next(Next(s, c).0, c).0, m);
    }
  }

  lemma ExampleLeft(t: Scan, m: seq<Mark>)
    requires t.argv == ["prog", "x", "-a-"] && t.optind == 2
    ensures !Partitioned(t, t.argv, 1, m)
  {
    assert MarksFit(t.argv, 1, m) && m != [] ==> MarkFits(t.argv, 1, m, |m| - 1);
    assert !IsNonOption(t.argv[2]) && t.argv[1] != "--";
    hide Marked, IsNonOption;
    if Partitioned(t, t.argv, 1, m) {
      PartitionPlace(t, t.argv, 1, m);
    }
  }

  lemma ExampleFirst()
    ensures var argv, c := ["prog", "x", "-a-"], Call("a", None, false);
            var s := Initial(argv);
            && Fresh(s) && c.Valid()
            && Next(s, c) == (s.(optind := 2, place := "-", nonoptStart := 1, nonoptEnd := 2), 'a' as int)
  {
    var argv, c := ["prog", "x", "-a-"], Call("a", None, false);
    var s := Initial(argv);
    var s1 := s.(optind := 2, nonoptStart := 1);
    assert SkipNonOption(s) == s1;
    var s2 := s1.(nonoptEnd := 2, place := "a-");
    assert "-a-"[1..] == "a-" && "a-"[1..] == "-" && "-"[1..] == "";
    assert Update(s1, c) == Classify(s2, c) == ShortOption(s2, c);
  }

  lemma ExampleSecond(s: Scan, c: Call, m: seq<Mark>)
    requires Scanned(s, s.argv, 1, m) && c.Valid() && DashTail(s, c)
    ensures Wf(s) && Next(s, c) == (s.(place := "", optarg := None), DONE) && NoneLeft(Next(s, c).0, s.argv, 1, m)
  {
    var m' := NextKeeps(s, c, s.argv, 1, m);
  }

  /** `prog -a- x -b` with the letters "ab": the second call returns -1 with `optind` still at the first option,
    * and the option `-b` is behind the non-option `x`, although no non-option had been skipped. */
  lemma DashTailFirst()
    ensures var argv, c := ["prog", "-a-", "x", "-b"], Call("ab", None, false);
            var s := Initial(argv);
            && Fresh(s) && c.Valid()
            && Next(s, c) == (s.(place := "-"), 'a' as int) && DashTail(Next(s, c).0, c)
            && Next(Next(s, c).0, c) == (s, DONE)
            && forall m :: !Partitioned(s, argv, 1, m)
  {
    hide Marked, MarksFit, Partitioned;
    var argv, c := ["prog", "-a-", "x", "-b"], Call("ab", None, false);
    var s := Initial(argv);
    assert "-a-"[1..] == "a-" && "a-"[1..] == "-" && "-"[1..] == "";
    assert Update(s, c) == Classify(s.(place := "a-"), c) == ShortOption(s.(place := "a-"), c);
    FreshBegins(s, c);
    forall m: seq<Mark>
      ensures !Partitioned(s, argv, 1, m)
    {
      NeverPartitioned(Begun(s), s, argv, 1, [], m);
    }
  }

  // ---- the code ----

  class Scanner {
    var optind: nat
    var optreset: bool
    var place: string
    var nonoptStart: int
    var nonoptEnd: int
    var optarg: Option<string>
    var optopt: int
    var longIndex: int
    var flags: map<nat, int>

    constructor ()
      ensures optind == 1 && !optreset && place == "" && nonoptStart == nonoptEnd == -1
      ensures optarg == None && optopt == BADCH
    {
      optind, optreset, place, nonoptStart, nonoptEnd := 1, false, "", -1, -1;
      optarg, optopt, longIndex, flags := None, BADCH, 0, map[];
    }

    ghost function State(nargv: array<string>): (s: Scan)
      reads this, nargv
    {
      Scan(nargv[..], optind, optreset, place, nonoptStart, nonoptEnd, optarg, optopt, longIndex, flags)
    }

    /** `getopt_internal` in permuting mode. */
    method GetoptInternal(nargv: array<string>, c: Call) returns (ret: int)
      requires Wf(State(nargv)) && c.Valid()
      modifies this, nargv
      ensures (State(nargv), ret) == Next(old(State(nargv)), c)
    {
      var nargc := nargv.Length;
      if optind == 0 {
        optind, optreset := 1, true;
      }
      optarg := None;
      if optreset {
        nonoptStart, nonoptEnd := -1, -1;
      }
      if optreset || place == "" {
        optreset := false;
        place := "";
        ret := NextArgument(nargv, c);
        return;
      }
      ret := ReadOption(nargv, c);
    }

    /** `permute_args` on the skipped block and the options up to optEnd. */
    method PermuteSkipped(nargv: array<string>, optEnd: nat)
      requires 1 <= nonoptStart < nonoptEnd < optEnd <= nargv.Length
      modifies nargv
      ensures nargv[..] == PermuteBlocks(old(State(nargv)), optEnd)
    {
      PermuteArgs(nonoptStart, nonoptEnd, optEnd, nargv);
    }

    /** The body at the label `start` for a non-option. */
    method Skip(nargv: array<string>)
      requires InScan(State(nargv)) && place == "" && optind < nargv.Length && IsNonOption(nargv[optind]) && !optreset
      modifies this`optind, this`nonoptStart, this`nonoptEnd, nargv
      ensures State(nargv) == SkipNonOption(old(State(nargv)))
    {
      if nonoptStart == -1 {
        nonoptStart := optind;
      } else if nonoptEnd != -1 {
        PermuteSkipped(nargv, optind);
        nonoptStart := optind - (nonoptEnd - nonoptStart);
        nonoptEnd := -1;
      }
      optind := optind + 1;
    }

    /** The label `start` of `getopt_internal`: skips non-options until an option or the end. */
    method NextArgument(nargv: array<string>, c: Call) returns (ret: int)
      requires InScan(State(nargv)) && place == "" && !optreset && c.Valid()
      modifies this, nargv
      ensures (State(nargv), ret) == Update(old(State(nargv)), c)
    {
      hide PermuteBlocks, SkipNonOption, Classify;
      ghost var s0 := State(nargv);
      while optind < nargv.Length && IsNonOption(nargv[optind])
        invariant InScan(State(nargv)) && place == "" && !optreset
        invariant Update(State(nargv), c) == Update(s0, c)
        decreases nargv.Length - optind
      {
        Skip(nargv);
      }
      if optind < nargv.Length {
        if nonoptStart != -1 && nonoptEnd == -1 {
          nonoptEnd := optind;
        }
        if nargv[optind] != "--" {
          place := nargv[optind][1..];
          ret := ReadOption(nargv, c);
          return;
        }
        optind := optind + 1;
      }
      EndOptions(nargv);
      ret := DONE;
    }

    /** The end of a scan: the skipped block goes behind the options, and `optind` to its start. */
    method EndOptions(nargv: array<string>)
      requires nonoptEnd != -1 ==> 1 <= nonoptStart < nonoptEnd < optind <= nargv.Length
      requires nonoptStart == -1 || 0 <= nonoptStart
      modifies this`optind, this`nonoptStart, this`nonoptEnd, nargv
      ensures var s := old(State(nargv));
              State(nargv) ==
              if s.nonoptEnd != -1 then
                s.(argv := PermuteBlocks(s, s.optind), optind := s.optind - (s.nonoptEnd - s.nonoptStart),
                   nonoptStart := -1, nonoptEnd := -1)
              else
                s.(optind := if s.nonoptStart != -1 then s.nonoptStart else s.optind,
                   nonoptStart := -1, nonoptEnd := -1)
    {
      if nonoptEnd != -1 {
        PermuteSkipped(nargv, optind);
        optind := optind - (nonoptEnd - nonoptStart);
      } else if nonoptStart != -1 {
        optind := nonoptStart;
      }
      nonoptStart, nonoptEnd := -1, -1;
    }

    /** The rest of `getopt_internal`: one option letter or long option at `place`. */
    method ReadOption(nargv: array<string>, c: Call) returns (ret: int)
      requires place != "" && optind < nargv.Length && c.Valid()
      modifies this
      ensures (State(nargv), ret) == Classify(old(State(nargv)), c)
    {
      hide LongOption;
      if c.longs.Some? && (place[0] == '-' || c.longOnly) {
        var shortToo, text := false, place;
        if place[0] == '-' {
          text := place[1..];
          if text == "" {
            place := "";
            return BadArg(c.options);
          }
        } else {
          shortToo := place[0] != ':' && place[0] in c.options;
        }
        ret := ParseLong(nargv, c, text, shortToo);
        if ret != -1 {
          place := "";
          return;
        }
      }
      ret := ReadLetter(nargv, c);
    }

    /** One option letter, with its argument if it takes one. */
    method ReadLetter(nargv: array<string>, c: Call) returns (ret: int)
      requires place != "" && optind < nargv.Length && c.Valid() && (place[0] == '-' ==> c.longs.None?)
      modifies this
      ensures (State(nargv), ret) == ShortOption(old(State(nargv)), c)
    {
      hide LongOption;
      var optchar := place[0];
      var oli := IndexOf(optchar, c.options);
      place := place[1..];
      if optchar == ':' || (optchar == '-' && place != "") || oli == |c.options| {
        if optchar == '-' && place == "" {
          return DONE;
        }
        if place == "" {
          optind := optind + 1;
        }
        optopt := optchar as int;
        return BADCH;
      }
      if c.longs.Some? && optchar == 'W' && CharAt(c.options, oli + 1) == ';' {
        ret := ReadLongAfterW(nargv, c);
        return;
      }
      if CharAt(c.options, oli + 1) != ':' {
        if place == "" {
          optind := optind + 1;
        }
      } else {
        ret := TakeArgument(nargv, c, optchar, CharAt(c.options, oli + 2) == ':');
        return;
      }
      ret := optchar as int;
    }

    /** The argument of an option letter: the rest of the element, or the next element unless it is optional. */
    method TakeArgument(nargv: array<string>, c: Call, optchar: char, optional: bool) returns (ret: int)
      requires optind < nargv.Length
      modifies this`optind, this`optarg, this`optopt, this`place
      ensures var s := old(State(nargv));
              (State(nargv), ret) ==
              if s.place != "" then (s.(place := "", optind := s.optind + 1, optarg := Some(s.place)), optchar as int)
              else if optional then (s.(optind := s.optind + 1, optarg := None), optchar as int)
              else if s.optind + 1 >= |s.argv| then
                (s.(optind := s.optind + 1, optarg := None, optopt := optchar as int), BadArg(c.options))
              else (s.(optind := s.optind + 2, optarg := Some(s.argv[s.optind + 1])), optchar as int)
    {
      optarg := None;
      if place != "" {
        optarg := Some(place);
      } else if !optional {
        optind := optind + 1;
        if optind >= nargv.Length {
          optopt := optchar as int;
          return BadArg(c.options);
        }
        optarg := Some(nargv[optind]);
      }
      place := "";
      optind := optind + 1;
      ret := optchar as int;
    }

    /** The long option behind a W, in the same element or the next one. */
    method ReadLongAfterW(nargv: array<string>, c: Call) returns (ret: int)
      requires optind < nargv.Length && c.Valid() && c.longs.Some?
      modifies this
      ensures var s := old(State(nargv));
              (State(nargv), ret) ==
              if s.place != "" then LongOption(s.(place := ""), c, s.place, false)
              else if s.optind + 1 >= |s.argv| then
                (s.(optind := s.optind + 1, optopt := 'W' as int), BadArg(c.options))
              else LongOption(s.(optind := s.optind + 1), c, s.argv[s.optind + 1], false)
    {
      hide LongOption;
      var text := place;
      if place == "" {
        optind := optind + 1;
        if optind >= nargv.Length {
          optopt := 'W' as int;
          return BadArg(c.options);
        }
        text := nargv[optind];
      }
      place := "";
      ret := ParseLong(nargv, c, text, false);
    }

    /** `parse_long_options`. */
    method ParseLong(nargv: array<string>, c: Call, text: string, shortToo: bool) returns (ret: int)
      requires optind < nargv.Length && c.Valid() && c.longs.Some?
      modifies this`optind, this`optarg, this`optopt, this`longIndex, this`flags
      ensures (State(nargv), ret) == LongOption(old(State(nargv)), c, text, shortToo)
    {
      hide Find, FindFrom, Means, TakeLong;
      optind := optind + 1;
      var eq := IndexOf('=', text);
      var hasEqual: Option<string> := if eq < |text| then Some(text[eq + 1..]) else None;
      var found := FindRow(c.longs.value, text[..eq], shortToo, c.longOnly);
      match found
      case Ambiguous =>
        optopt := 0;
        ret := BADCH;
      case Unknown =>
        if shortToo {
          optind := optind - 1;
          return -1;
        }
        optopt := 0;
        ret := BADCH;
      case Row(m) => ret := UseRow(nargv, c, m, hasEqual);
    }

    /** The part of `parse_long_options` for an option that was found. */
    method UseRow(nargv: array<string>, c: Call, m: nat, hasEqual: Option<string>) returns (ret: int)
      requires optind <= nargv.Length && c.Valid() && c.longs.Some? && m < |c.longs.value|
      modifies this`optind, this`optarg, this`optopt, this`longIndex, this`flags
      ensures (State(nargv), ret) == TakeLong(old(State(nargv)), c, m, hasEqual)
    {
      var o := c.longs.value[m];
      if o.hasArg.NoArgument? && hasEqual.Some? {
        optopt := if o.flag.None? then o.val else 0;
        return BADCH;
      }
      if o.hasArg.RequiredArgument? || o.hasArg.OptionalArgument? {
        if hasEqual.Some? {
          optarg := hasEqual;
        } else if o.hasArg.RequiredArgument? {
          optarg := if optind < nargv.Length then Some(nargv[optind]) else None;
          optind := optind + 1;
        }
      }
      if o.hasArg.RequiredArgument? && optarg.None? {
        optopt := if o.flag.None? then o.val else 0;
        optind := optind - 1;
        return BadArg(c.options);
      }
      longIndex := m;
      if o.flag.Some? {
        flags := flags[o.flag.value := o.val];
        ret := 0;
      } else {
        ret := o.val;
      }
    }
  }
}
