/** What a scan reads from a command line, said without the scanner: a table of options is printed as an option
  * string, a list of words as an argument vector, and successive calls give back what the words say. */
module GetoptLines {
  import opened Wrappers
  import opened LongOptions
  import opened Permute
  import opened Getopt

  // ---- the table ----

  datatype LetterOpt = LetterOpt(letter: char, need: ArgNeed)

  function Colons(need: ArgNeed): string {
    match need
    case NoArgument => ""
    case RequiredArgument => ":"
    case OptionalArgument => "::"
  }

  /** The option string of a table. */
  function PrintTable(rows: seq<LetterOpt>): string {
    if rows == [] then "" else [rows[0].letter] + Colons(rows[0].need) + PrintTable(rows[1..])
  }

  function PrintOptions(rows: seq<LetterOpt>, quiet: bool): string { (if quiet then ":" else "") + PrintTable(rows) }

  /** The need of the first row with the letter. */
  function NeedOf(rows: seq<LetterOpt>, l: char): Option<ArgNeed> {
    if rows == [] then None else if rows[0].letter == l then Some(rows[0].need) else NeedOf(rows[1..], l)
  }

  /** What a caller passes: the printed table, in which a colon or a dash is no letter, and a semicolon none where it
    * would announce long options; and with long options, ones that need two dashes. */
  predicate CallOk(c: Call, rows: seq<LetterOpt>, quiet: bool) {
    && c.Valid() && c.options == PrintOptions(rows, quiet)
    && (forall i :: 0 <= i < |rows| ==> LetterOk(rows[i].letter, c.longs.Some?))
    && (c.longs.Some? ==> !c.longOnly)
  }

  predicate LetterOk(l: char, longs: bool) { l != ':' && l != '-' && (l == ';' ==> !longs) }

  // ---- the command line ----

  /** How a cluster of letters ends: with another that takes no argument, with one whose argument is attached to it,
    * or the next element, or absent although it may have one, or missing at the end of the line. */
  datatype Tail =
    | Nothing
    | Attached(letter: char, arg: string)
    | Separate(letter: char, arg: string)
    | Bare(letter: char)
    | Missing(letter: char)

  /** How the argument of a long option is given. */
  datatype LongArg = Alone | Inline(arg: string) | Following(arg: string) | Lacking

  datatype Word =
    | Operand(text: string)
    | Cluster(flags: string, tail: Tail)
    | Long(typed: string, row: nat, arg: LongArg)
    | UnknownLong(typed: string)

  function TailText(t: Tail): string {
    match t
    case Nothing => ""
    case Attached(l, arg) => [l] + arg
    case Separate(l, _) => [l]
    case Bare(l) => [l]
    case Missing(l) => [l]
  }

  function TailRest(t: Tail): seq<string> { if t.Separate? then [t.arg] else [] }

  function LongText(typed: string, arg: LongArg): string {
    if arg.Inline? then typed + "=" + arg.arg else typed
  }

  function LongRest(arg: LongArg): seq<string> { if arg.Following? then [arg.arg] else [] }

  function Print(w: Word): seq<string> {
    match w
    case Operand(text) => [text]
    case Cluster(flags, tail) => ["-" + (flags + TailText(tail))] + TailRest(tail)
    case Long(typed, _, arg) => ["-" + ("-" + LongText(typed, arg))] + LongRest(arg)
    case UnknownLong(typed) => ["-" + ("-" + typed)]
  }

  /** The words, and a `--` with what follows it if there is one. */
  function PrintLine(words: seq<Word>, rest: Option<seq<string>>): seq<string> {
    if words == [] then (if rest.Some? then ["--"] + rest.value else [])
    else Print(words[0]) + PrintLine(words[1..], rest)
  }

  /** A letter that takes no argument, or that the table does not have. */
  predicate FlagOk(rows: seq<LetterOpt>, l: char) {
    l != '-' && (l == ':' || NeedOf(rows, l) == None || NeedOf(rows, l) == Some(NoArgument))
  }

  predicate TailOk(rows: seq<LetterOpt>, t: Tail, last: bool) {
    match t
    case Nothing => true
    case Attached(l, arg) =>
      l != ':' && l != '-' && arg != "" && NeedOf(rows, l).Some? && NeedOf(rows, l) != Some(NoArgument)
    case Separate(l, _) => l != ':' && l != '-' && NeedOf(rows, l) == Some(RequiredArgument)
    case Bare(l) => l != ':' && l != '-' && NeedOf(rows, l) == Some(OptionalArgument)
    case Missing(l) => l != ':' && l != '-' && NeedOf(rows, l) == Some(RequiredArgument) && last
  }

  /** The name is that of row m and of no other, or abbreviates that row and no other. */
  predicate NamesRow(longs: seq<LongOpt>, typed: string, m: nat) {
    && m < |longs| && typed <= longs[m].name
    && (forall i :: 0 <= i < |longs| && i != m ==> longs[i].name != typed)
    && (longs[m].name == typed || forall i :: 0 <= i < |longs| && i != m ==> !(typed <= longs[i].name))
  }

  /** The name is that of no row, and abbreviates none or several that do not mean the same. */
  predicate NamesNone(longs: seq<LongOpt>, typed: string) {
    && (forall i :: 0 <= i < |longs| ==> longs[i].name != typed)
    && ((forall i :: 0 <= i < |longs| ==> !(typed <= longs[i].name))
        || exists i, k :: 0 <= i < k < |longs| && typed <= longs[i].name && typed <= longs[k].name
                          && (forall j :: 0 <= j < i ==> !(typed <= longs[j].name))
                          && Differ(longs[k], longs[i], false))
  }

  predicate ArgFits(need: ArgNeed, arg: LongArg, last: bool) {
    match arg
    case Alone => !need.RequiredArgument?
    case Inline(_) => true
    case Following(_) => need.RequiredArgument?
    case Lacking => need.RequiredArgument? && last
  }

  predicate WordOk(c: Call, rows: seq<LetterOpt>, w: Word, last: bool) {
    match w
    case Operand(text) => IsNonOption(text)
    case Cluster(flags, tail) =>
      && (flags != "" || !tail.Nothing?) && (forall i :: 0 <= i < |flags| ==> FlagOk(rows, flags[i]))
      && TailOk(rows, tail, last)
    case Long(typed, m, arg) =>
      && c.longs.Some? && typed != "" && '=' !in typed && NamesRow(c.longs.value, typed, m)
      && ArgFits(c.longs.value[m].hasArg, arg, last)
    case UnknownLong(typed) => c.longs.Some? && typed != "" && '=' !in typed && NamesNone(c.longs.value, typed)
  }

  /** Every word fits the table; an argument can be missing only at the very end. */
  predicate LineOk(c: Call, rows: seq<LetterOpt>, words: seq<Word>, rest: Option<seq<string>>) {
    words == [] || (WordOk(c, rows, words[0], |words| == 1 && rest.None?) && LineOk(c, rows, words[1..], rest))
  }

  // ---- what it says ----

  datatype Outcome =
    | Got(letter: char, arg: Option<string>)
    | NoSuchLetter(letter: char)
    | Lacks(letter: char)
    | GotLong(row: nat, arg: Option<string>)
    | LongExtra(row: nat)
    | LongLacks(row: nat)
    | NoSuchLong

  function FlagSays(rows: seq<LetterOpt>, l: char): Outcome {
    if l != ':' && NeedOf(rows, l).Some? then Got(l, None) else NoSuchLetter(l)
  }

  function FlagsSay(rows: seq<LetterOpt>, flags: string): seq<Outcome> {
    if flags == "" then [] else [FlagSays(rows, flags[0])] + FlagsSay(rows, flags[1..])
  }

  function TailSays(t: Tail): seq<Outcome> {
    match t
    case Nothing => []
    case Attached(l, arg) => [Got(l, Some(arg))]
    case Separate(l, arg) => [Got(l, Some(arg))]
    case Bare(l) => [Got(l, None)]
    case Missing(l) => [Lacks(l)]
  }

  function LongSays(c: Call, m: nat, arg: LongArg): Outcome {
    match arg
    case Alone => GotLong(m, None)
    case Inline(a) =>
      if c.longs.Some? && m < |c.longs.value| && c.longs.value[m].hasArg.NoArgument? then LongExtra(m)
      else GotLong(m, Some(a))
    case Following(a) => GotLong(m, Some(a))
    case Lacking => LongLacks(m)
  }

  function Says(c: Call, rows: seq<LetterOpt>, w: Word): seq<Outcome> {
    match w
    case Operand(_) => []
    case Cluster(flags, tail) => FlagsSay(rows, flags) + TailSays(tail)
    case Long(_, m, arg) => [LongSays(c, m, arg)]
    case UnknownLong(_) => [NoSuchLong]
  }

  function LineSays(c: Call, rows: seq<LetterOpt>, words: seq<Word>): seq<Outcome> {
    if words == [] then [] else Says(c, rows, words[0]) + LineSays(c, rows, words[1..])
  }

  /** The operands, in order, and what follows a `--`. */
  function Operands(words: seq<Word>, rest: Option<seq<string>>): seq<string> {
    if words == [] then (if rest.Some? then rest.value else [])
    else (if words[0].Operand? then [words[0].text] else []) + Operands(words[1..], rest)
  }

  // ---- what the calls give ----

  function Complaint(quiet: bool): int { if quiet then ':' as int else '?' as int }

  /** `optopt` for a long option: its value, unless that goes through a flag. */
  function LongOptopt(o: LongOpt): int { if o.flag.None? then o.val else 0 }

  /** The returned value and the variables a call leaves are those for the outcome. */
  predicate Gives(c: Call, quiet: bool, t: Scan, ret: int, o: Outcome) {
    match o
    case Got(l, arg) => ret == l as int && t.optarg == arg
    case NoSuchLetter(l) => ret == BADCH && t.optopt == l as int && t.optarg == None
    case Lacks(l) => ret == Complaint(quiet) && t.optopt == l as int && t.optarg == None
    case GotLong(m, arg) =>
      && c.longs.Some? && m < |c.longs.value| && t.longIndex == m && t.optarg == arg
      && var row := c.longs.value[m];
         if row.flag.None? then ret == row.val
         else ret == 0 && row.flag.value in t.flags && t.flags[row.flag.value] == row.val
    case LongExtra(m) =>
      && c.longs.Some? && m < |c.longs.value| && ret == BADCH
      && t.optopt == LongOptopt(c.longs.value[m]) && t.optarg == None
    case LongLacks(m) =>
      && c.longs.Some? && m < |c.longs.value| && ret == Complaint(quiet)
      && t.optopt == LongOptopt(c.longs.value[m]) && t.optarg == None
    case NoSuchLong => ret == BADCH && t.optopt == 0 && t.optarg == None
  }

  /** Successive calls from s give the outcomes in order; then one returns -1 and leaves `optind` at the operands. */
  ghost predicate Yields(s: Scan, c: Call, quiet: bool, says: seq<Outcome>, operands: seq<string>)
    requires Wf(s) && c.Valid()
    decreases |says|
  {
    var (t, ret) := Next(s, c);
    if says == [] then ret == DONE && t.argv[t.optind..] == operands
    else ret != DONE && Gives(c, quiet, t, ret, says[0]) && Yields(t, c, quiet, says[1..], operands)
  }

  // ---- looking a letter up in the printed table ----

  lemma {:induction false} LettersOnly(rows: seq<LetterOpt>, l: char)
    requires l != ':' && NeedOf(rows, l) == None
    ensures l !in PrintTable(rows)
    decreases |rows|
  {
    if rows != [] { LettersOnly(rows[1..], l); }
  }

  /** At k in the option string is a letter, and behind it as many colons as it needs. */
  predicate ColonsAt(p: string, k: nat, need: ArgNeed, longs: bool) {
    && k < |p|
    && (CharAt(p, k + 1) == ':' <==> !need.NoArgument?)
    && (CharAt(p, k + 1) == ':' ==> (CharAt(p, k + 2) == ':' <==> need.OptionalArgument?))
    && (longs ==> CharAt(p, k + 1) != ';')
  }

  lemma {:induction false} FoundInTable(rows: seq<LetterOpt>, l: char, longs: bool)
    requires l != ':' && NeedOf(rows, l).Some? && forall i :: 0 <= i < |rows| ==> LetterOk(rows[i].letter, longs)
    ensures ColonsAt(PrintTable(rows), IndexOf(l, PrintTable(rows)), NeedOf(rows, l).value, longs)
    decreases |rows|
  {
    if rows[0].letter == l {
      FoundFirst(rows, longs);
    } else {
      FoundInTable(rows[1..], l, longs);
      FoundLater(rows, l, NeedOf(rows, l).value, longs);
    }
  }

  lemma FoundFirst(rows: seq<LetterOpt>, longs: bool)
    requires rows != [] && forall i :: 0 <= i < |rows| ==> LetterOk(rows[i].letter, longs)
    ensures var p := PrintTable(rows); ColonsAt(p, IndexOf(rows[0].letter, p), rows[0].need, longs)
  {
    var p := PrintTable(rows);
    StartsWithLetter(rows[1..], longs);
    assert p[0] == rows[0].letter && IndexOf(p[0], p) == 0;
    FirstRow(rows[0], PrintTable(rows[1..]), longs);
    hide ColonsAt, Colons, LetterOk;
  }

  lemma FoundLater(rows: seq<LetterOpt>, l: char, need: ArgNeed, longs: bool)
    requires rows != [] && rows[0].letter != l && l != ':'
    requires var more := PrintTable(rows[1..]); ColonsAt(more, IndexOf(l, more), need, longs)
    ensures var p := PrintTable(rows); ColonsAt(p, IndexOf(l, p), need, longs)
  {
    var row, more := [rows[0].letter] + Colons(rows[0].need), PrintTable(rows[1..]);
    TableSplits(rows, l);
    hide *;
    IndexAfter(l, row, more);
    ColonsLater(row, more, IndexOf(l, more), need, longs);
  }

  lemma TableSplits(rows: seq<LetterOpt>, l: char)
    requires rows != []
    ensures var row := [rows[0].letter] + Colons(rows[0].need);
            PrintTable(rows) == row + PrintTable(rows[1..]) && (rows[0].letter != l && l != ':' ==> l !in row)
  {
  }

  lemma FirstRow(r: LetterOpt, more: string, longs: bool)
    requires more != "" ==> more[0] != ':' && (longs ==> more[0] != ';')
    ensures ColonsAt([r.letter] + Colons(r.need) + more, 0, r.need, longs)
  {
    var p := [r.letter] + Colons(r.need) + more;
    assert p[1..] == Colons(r.need) + more;
    match r.need
    case NoArgument => assert p[1..] == more;
    case RequiredArgument => assert p[1] == ':' && p[2..] == more;
    case OptionalArgument => assert p[1] == ':' && p[2] == ':';
  }

  lemma ColonsLater(row: string, more: string, k: nat, need: ArgNeed, longs: bool)
    requires ColonsAt(more, k, need, longs)
    ensures ColonsAt(row + more, |row| + k, need, longs)
  {
    assert CharAt(row + more, |row| + (k + 1)) == CharAt(more, k + 1);
    assert CharAt(row + more, |row| + (k + 2)) == CharAt(more, k + 2);
  }

  lemma StartsWithLetter(rows: seq<LetterOpt>, longs: bool)
    requires forall i :: 0 <= i < |rows| ==> LetterOk(rows[i].letter, longs)
    ensures PrintTable(rows) != "" ==> PrintTable(rows)[0] != ':' && (longs ==> PrintTable(rows)[0] != ';')
  {
  }

  lemma {:induction false} IndexAfter(c: char, a: string, b: string)
    requires c !in a
    ensures IndexOf(c, a + b) == |a| + IndexOf(c, b)
    decreases |a|
  {
    if a == "" {
      assert a + b == b;
    } else {
      IndexAfter(c, a[1..], b);
      assert (a + b)[1..] == a[1..] + b;
    }
  }

  /** The same in the option string. */
  lemma FoundInOptions(c: Call, rows: seq<LetterOpt>, quiet: bool, l: char)
    requires CallOk(c, rows, quiet) && l != ':'
    ensures if NeedOf(rows, l) == None then l !in c.options
            else ColonsAt(c.options, IndexOf(l, c.options), NeedOf(rows, l).value, c.longs.Some?)
  {
    var pre, p := if quiet then ":" else "", PrintTable(rows);
    IndexAfter(l, pre, p);
    if NeedOf(rows, l) == None {
      LettersOnly(rows, l);
    } else {
      FoundInTable(rows, l, c.longs.Some?);
      ColonsLater(pre, p, IndexOf(l, p), NeedOf(rows, l).value, c.longs.Some?);
    }
  }

  lemma BadArgIs(c: Call, rows: seq<LetterOpt>, quiet: bool)
    requires CallOk(c, rows, quiet)
    ensures BadArg(c.options) == Complaint(quiet)
  {
    StartsWithLetter(rows, c.longs.Some?);
  }

  // ---- looking a name up ----

  /** A single letter that is a short option too abbreviates no long one. */
  predicate Reaches(longs: seq<LongOpt>, typed: string, m: nat, shortToo: bool) {
    NamesRow(longs, typed, m) && (shortToo && |typed| == 1 ==> longs[m].name == typed)
  }

  lemma FindsRow(longs: seq<LongOpt>, typed: string, m: nat, shortToo: bool, longOnly: bool)
    requires Reaches(longs, typed, m, shortToo)
    ensures Find(longs, typed, shortToo, longOnly) == Row(m)
  {
    FindMeans(longs, typed, shortToo, longOnly);
    if longs[m].name == typed {
      assert Exact(longs, typed, m);
    } else {
      assert Abbreviates(longs, typed, shortToo, m);
    }
  }

  /** A name that no row has is refused, whether it abbreviates none or too many. */
  lemma Refuses(longs: seq<LongOpt>, typed: string)
    requires NamesNone(longs, typed)
    ensures !Find(longs, typed, false, false).Row?
  {
    FindMeans(longs, typed, false, false);
    assert forall i :: 0 <= i < |longs| ==> (Abbreviates(longs, typed, false, i) <==> typed <= longs[i].name);
    assert forall i :: 0 <= i < |longs| ==> !Exact(longs, typed, i);
  }

  lemma FindsNone(longs: seq<LongOpt>, typed: string, shortToo: bool, longOnly: bool)
    requires forall i :: 0 <= i < |longs| ==> !(typed <= longs[i].name)
    ensures Find(longs, typed, shortToo, longOnly) == Unknown
  {
    FindMeans(longs, typed, shortToo, longOnly);
  }

  // ---- one call ----

  /** The non-options skipped so far. */
  ghost predicate Skipped(s: Scan, ops: seq<string>) {
    if s.nonoptStart == -1 then ops == []
    else
      var end := if s.nonoptEnd == -1 then s.optind else s.nonoptEnd;
      0 <= s.nonoptStart <= end <= |s.argv| && s.argv[s.nonoptStart..end] == ops
  }

  /** Between two elements, with `tail` still to be read. */
  ghost predicate Ready(s: Scan, tail: seq<string>, ops: seq<string>) {
    InScan(s) && !s.optreset && s.place == "" && s.argv[s.optind..] == tail && Skipped(s, ops)
  }

  /** Inside an element of which `text` is left, with `tail` behind it. */
  ghost predicate Inside(s: Scan, text: string, tail: seq<string>, ops: seq<string>) {
    && InScan(s) && !s.optreset && s.place == text != "" && s.optind < |s.argv| && s.argv[s.optind + 1..] == tail
    && Skipped(s, ops)
  }

  lemma Within(s: Scan, c: Call)
    requires InScan(s) && !s.optreset && s.place != "" && c.Valid()
    ensures Wf(s) && s.optind < |s.argv| && Next(s, c) == Classify(s.(optarg := None), c)
  {
  }

  /** Reading the rest of an element leaves its end, or the next element. */
  lemma Moves(s: Scan, t: Scan, text: string, tail: seq<string>, ops: seq<string>, k: nat)
    requires Inside(s, s.place, tail, ops) && Moved(s, t) && InScan(t) && t.place == text
    requires if text != "" then t.optind == s.optind else t.optind == s.optind + 1 + k && k <= |tail|
    ensures if text != "" then Inside(t, text, tail, ops) else Ready(t, tail[k..], ops)
  {
    if text == "" { assert s.argv[s.optind + 1..][k..] == s.argv[t.optind..]; }
  }

  /** A letter that takes no argument. */
  lemma ReadsFlag(s: Scan, c: Call, rows: seq<LetterOpt>, quiet: bool, tail: seq<string>, ops: seq<string>)
    requires CallOk(c, rows, quiet) && Inside(s, s.place, tail, ops) && FlagOk(rows, s.place[0])
    ensures Wf(s)
    ensures var (t, ret), more := Next(s, c), s.place[1..];
            && ret != DONE && Gives(c, quiet, t, ret, FlagSays(rows, s.place[0]))
            && if more == "" then Ready(t, tail, ops) else Inside(t, more, tail, ops)
  {
    assert InScan(s) && s.optind < |s.argv| && c.Valid() && tail[0..] == tail;
    hide Ready, Inside, Skipped, CallOk, FlagOk, FlagSays, Classify, Gives, Next;
    Within(s, c);
    FlagResult(s.(optarg := None), c, rows, quiet);
    var (t, ret) := Next(s, c);
    Moves(s, t, s.place[1..], tail, ops, 0);
  }

  lemma FlagResult(s: Scan, c: Call, rows: seq<LetterOpt>, quiet: bool)
    requires CallOk(c, rows, quiet) && s.place != "" && FlagOk(rows, s.place[0])
    requires s.optind < |s.argv| && s.optarg == None
    ensures c.Valid()
    ensures var (t, ret), more := Classify(s, c), s.place[1..];
            && ret != DONE && Gives(c, quiet, t, ret, FlagSays(rows, s.place[0])) && Moved(s, t)
            && t.place == more && t.optind == if more == "" then s.optind + 1 else s.optind
  {
    var l := s.place[0];
    if l != ':' { FoundInOptions(c, rows, quiet, l); }
    assert Classify(s, c) == ShortOption(s, c);
    hide Classify, LongOption, CallOk, NeedOf, Advances, DashTail;
  }

  /** The last letter of an element, with its argument. */
  lemma ReadsTail(s: Scan, c: Call, rows: seq<LetterOpt>, quiet: bool, w: Tail, rest: seq<string>, ops: seq<string>)
    requires CallOk(c, rows, quiet) && !w.Nothing? && TailOk(rows, w, rest == [])
    requires Inside(s, TailText(w), TailRest(w) + rest, ops)
    ensures Wf(s)
    ensures var (t, ret) := Next(s, c);
            ret != DONE && Gives(c, quiet, t, ret, TailSays(w)[0]) && Ready(t, rest, ops)
  {
    var tail, k := TailRest(w) + rest, |TailRest(w)|;
    TailPlace(s, w, rest, ops);
    assert c.Valid();
    hide Inside, Ready, Skipped, TailText, TailRest, TailSays, TailOk, CallOk, Classify, Gives, Next;
    Within(s, c);
    var s0 := s.(optarg := None);
    TailResult(s0, c, rows, quiet, w);
    var (t, ret) := Next(s, c);
    Moves(s, t, "", tail, ops, k);
  }

  lemma TailPlace(s: Scan, w: Tail, rest: seq<string>, ops: seq<string>)
    requires !w.Nothing? && Inside(s, TailText(w), TailRest(w) + rest, ops)
    ensures var tail, k := TailRest(w) + rest, |TailRest(w)|;
            && InScan(s) && !s.optreset && s.place == TailText(w) != "" && s.optind < |s.argv|
            && Inside(s, s.place, tail, ops) && k <= |tail| && tail[k..] == rest
            && (w.Separate? ==> s.optind + 1 < |s.argv| && s.argv[s.optind + 1] == w.arg)
            && (rest == [] && !w.Separate? ==> s.optind + 1 >= |s.argv|)
  {
    hide InScan, Skipped;
    TailIs(s, TailRest(w) + rest);
  }

  lemma TailResult(s: Scan, c: Call, rows: seq<LetterOpt>, quiet: bool, w: Tail)
    requires CallOk(c, rows, quiet) && !w.Nothing? && TailOk(rows, w, true)
    requires s.place == TailText(w) && s.optind < |s.argv| && s.optarg == None
    requires w.Separate? ==> s.optind + 1 < |s.argv| && s.argv[s.optind + 1] == w.arg
    requires w.Missing? ==> s.optind + 1 >= |s.argv|
    ensures s.place != "" && c.Valid() && |TailSays(w)| == 1
    ensures var (t, ret) := Classify(s, c);
            && ret != DONE && Gives(c, quiet, t, ret, TailSays(w)[0])
            && Moved(s, t) && t.place == "" && t.optind == s.optind + 1 + |TailRest(w)|
  {
    TailSaysOne(w);
    hide *;
    TailExact(s, c, rows, quiet, w);
    var (t, ret) := Classify(s, c);
    TailGives(s, t, ret, c, quiet, w);
  }

  lemma TailSaysOne(w: Tail)
    ensures !w.Nothing? ==> |TailSays(w)| == 1
  {
  }

  lemma TailGives(s: Scan, t: Scan, ret: int, c: Call, quiet: bool, w: Tail)
    requires !w.Nothing? && s.optarg == None
    requires t == s.(place := "", optind := s.optind + 1 + |TailRest(w)|,
                     optarg := if w.Attached? || w.Separate? then Some(w.arg) else None,
                     optopt := if w.Missing? then w.letter as int else s.optopt)
    requires ret == if w.Missing? then Complaint(quiet) else w.letter as int
    ensures ret != DONE && Gives(c, quiet, t, ret, TailSays(w)[0])
    ensures Moved(s, t) && t.place == "" && t.optind == s.optind + 1 + |TailRest(w)|
  {
    hide TailRest, LongOptopt;
  }

  lemma TailExact(s: Scan, c: Call, rows: seq<LetterOpt>, quiet: bool, w: Tail)
    requires CallOk(c, rows, quiet) && !w.Nothing? && TailOk(rows, w, true)
    requires s.place == TailText(w) && s.optind < |s.argv| && s.optarg == None
    requires w.Separate? ==> s.optind + 1 < |s.argv| && s.argv[s.optind + 1] == w.arg
    requires w.Missing? ==> s.optind + 1 >= |s.argv|
    ensures s.place != "" && c.Valid()
    ensures Classify(s, c) ==
            (s.(place := "", optind := s.optind + 1 + |TailRest(w)|,
                optarg := if w.Attached? || w.Separate? then Some(w.arg) else None,
                optopt := if w.Missing? then w.letter as int else s.optopt),
             if w.Missing? then Complaint(quiet) else w.letter as int)
  {
    FoundInOptions(c, rows, quiet, w.letter);
    BadArgIs(c, rows, quiet);
    assert s.place[0] == w.letter && s.place[1..] == if w.Attached? then w.arg else "";
    assert Classify(s, c) == ShortOption(s, c) by { hide ShortOption, IndexOf, PrintOptions; }
    var need := NeedOf(rows, w.letter).value;
    assert if w.Attached? then !need.NoArgument? else need.OptionalArgument? == w.Bare?;
    assert |TailRest(w)| == (if w.Separate? then 1 else 0) && !need.NoArgument?;
    hide *;
    LetterWithArg(s, c, need);
  }

  /** A letter that may have an argument takes the rest of its element, or else the next one if it must. */
  lemma LetterWithArg(s: Scan, c: Call, need: ArgNeed)
    requires c.Valid() && s.place != "" && s.optind < |s.argv| && s.place[0] != ':' && s.place[0] != '-'
    requires !need.NoArgument? && ColonsAt(c.options, IndexOf(s.place[0], c.options), need, c.longs.Some?)
    ensures var l, rest := s.place[0], s.place[1..];
            ShortOption(s, c) ==
            if rest != "" then (s.(place := "", optind := s.optind + 1, optarg := Some(rest)), l as int)
            else if need.OptionalArgument? then (s.(place := "", optind := s.optind + 1, optarg := None), l as int)
            else if s.optind + 1 >= |s.argv| then
              (s.(place := "", optind := s.optind + 1, optarg := None, optopt := l as int), BadArg(c.options))
            else (s.(place := "", optind := s.optind + 2, optarg := Some(s.argv[s.optind + 1])), l as int)
  {
    hide LongOption, Advances, DashTail;
  }

  /** A long option, with its argument. */
  lemma ReadsLong(s: Scan, c: Call, rows: seq<LetterOpt>, quiet: bool, w: Word, rest: seq<string>, ops: seq<string>)
    requires CallOk(c, rows, quiet) && w.Long? && WordOk(c, rows, w, rest == [])
    requires Inside(s, "-" + LongText(w.typed, w.arg), LongRest(w.arg) + rest, ops)
    ensures Wf(s)
    ensures var (t, ret) := Next(s, c);
            ret != DONE && Gives(c, quiet, t, ret, LongSays(c, w.row, w.arg)) && Ready(t, rest, ops)
  {
    var tail, k := LongRest(w.arg) + rest, |LongRest(w.arg)|;
    assert tail[k..] == rest;
    assert w.arg.Following? ==> s.argv[s.optind + 1] == tail[0];
    assert w.arg.Lacking? ==> s.optind + 1 >= |s.argv| by { assert |s.argv[s.optind + 1..]| == |tail|; }
    Within(s, c);
    LongResult(s.(optarg := None), c, rows, quiet, w);
    hide Classify, CallOk, WordOk, Gives;
    var (t, ret) := Next(s, c);
    Moves(s, t, "", tail, ops, k);
    hide Ready, Inside;
  }

  lemma LongResult(s: Scan, c: Call, rows: seq<LetterOpt>, quiet: bool, w: Word)
    requires CallOk(c, rows, quiet) && w.Long? && WordOk(c, rows, w, true)
    requires s.place == "-" + LongText(w.typed, w.arg) && s.optind < |s.argv| && s.optarg == None
    requires w.arg.Following? ==> s.optind + 1 < |s.argv| && s.argv[s.optind + 1] == w.arg.arg
    requires w.arg.Lacking? ==> s.optind + 1 >= |s.argv|
    ensures var (t, ret) := Classify(s, c);
            && ret != DONE && Gives(c, quiet, t, ret, LongSays(c, w.row, w.arg))
            && Moved(s, t) && t.place == "" && t.optind == s.optind + 1 + |LongRest(w.arg)|
  {
    var text := LongText(w.typed, w.arg);
    BadArgIs(c, rows, quiet);
    assert s.place[1..] == text && s.place != "-";
    var (t, ret) := LongOption(s, c, text, false);
    assert Classify(s, c) == (t.(place := ""), ret);
    hide Classify, CallOk, NamesRow, Gives;
    LongOptionGives(s, c, quiet, w.typed, w.row, w.arg, false);
    hide LongOption;
    SameGives(c, quiet, t, t.(place := ""), ret, LongSays(c, w.row, w.arg));
  }

  lemma LongOptionGives(s: Scan, c: Call, quiet: bool, typed: string, m: nat, arg: LongArg, shortToo: bool)
    requires c.Valid() && c.longs.Some? && BadArg(c.options) == Complaint(quiet) && '=' !in typed
    requires Reaches(c.longs.value, typed, m, shortToo) && ArgFits(c.longs.value[m].hasArg, arg, true)
    requires s.optind < |s.argv| && s.optarg == None
    requires arg.Following? ==> s.optind + 1 < |s.argv| && s.argv[s.optind + 1] == arg.arg
    requires arg.Lacking? ==> s.optind + 1 >= |s.argv|
    ensures var (t, ret) := LongOption(s, c, LongText(typed, arg), shortToo);
            && ret != DONE && Gives(c, quiet, t, ret, LongSays(c, m, arg))
            && Moved(s, t) && t.place == s.place && t.optind == s.optind + 1 + |LongRest(arg)|
  {
    NameOf(typed, arg);
    FindsRow(c.longs.value, typed, m, shortToo, c.longOnly);
    hide NamesRow, Find, Gives;
    var u := s.(optind := s.optind + 1);
    var inline := if arg.Inline? then Some(arg.arg) else None;
    assert LongOption(s, c, LongText(typed, arg), shortToo) == TakeLong(u, c, m, inline);
    TakesLong(u, c, quiet, m, arg);
    hide LongOption, TakeLong;
  }

  lemma SameGives(c: Call, quiet: bool, t: Scan, u: Scan, ret: int, o: Outcome)
    requires Gives(c, quiet, t, ret, o)
    requires u.optarg == t.optarg && u.optopt == t.optopt && u.longIndex == t.longIndex && u.flags == t.flags
    ensures Gives(c, quiet, u, ret, o)
  {
  }

  /** A matched row gives its value, directly or through its flag, and the argument it was given. */
  lemma TakesLong(u: Scan, c: Call, quiet: bool, m: nat, arg: LongArg)
    requires c.Valid() && c.longs.Some? && m < |c.longs.value| && u.optind <= |u.argv| && u.optarg == None
    requires BadArg(c.options) == Complaint(quiet)
    requires ArgFits(c.longs.value[m].hasArg, arg, true)
    requires arg.Following? ==> u.optind < |u.argv| && u.argv[u.optind] == arg.arg
    requires arg.Lacking? ==> u.optind >= |u.argv|
    ensures var (t, ret) := TakeLong(u, c, m, if arg.Inline? then Some(arg.arg) else None);
            ret != DONE && Gives(c, quiet, t, ret, LongSays(c, m, arg)) && t.optind == u.optind + |LongRest(arg)|
  {
  }

  /** The name and the argument are what is before and after the equals sign. */
  lemma NameOf(typed: string, arg: LongArg)
    requires '=' !in typed
    ensures var text, eq := LongText(typed, arg), IndexOf('=', LongText(typed, arg));
            && text[..eq] == typed
            && (if arg.Inline? then eq < |text| && text[eq + 1..] == arg.arg else eq == |text|)
  {
    if arg.Inline? {
      assert typed + "=" + arg.arg == typed + ("=" + arg.arg);
      IndexAfter('=', typed, "=" + arg.arg);
    }
  }

  lemma ReadsUnknownLong(s: Scan, c: Call, rows: seq<LetterOpt>, quiet: bool, w: Word, rest: seq<string>,
                         ops: seq<string>)
    requires CallOk(c, rows, quiet) && w.UnknownLong? && WordOk(c, rows, w, rest == [])
    requires Inside(s, "-" + w.typed, rest, ops)
    ensures Wf(s)
    ensures var (t, ret) := Next(s, c);
            ret != DONE && Gives(c, quiet, t, ret, NoSuchLong) && Ready(t, rest, ops)
  {
    Refuses(c.longs.value, w.typed);
    Within(s, c);
    NameOf(w.typed, Alone);
    assert s.place[1..] == w.typed && rest[0..] == rest;
    var (t, ret) := Next(s, c);
    Moves(s, t, "", rest, ops, 0);
    hide Ready, Inside;
  }

  // ---- between elements ----

  /** A call between elements is a call inside the option element that comes next. */
  lemma StartsElement(s: Scan, c: Call, text: string, tail: seq<string>, ops: seq<string>) returns (t: Scan)
    requires c.Valid() && Ready(s, ["-" + text] + tail, ops) && text != "" && text != "-"
    ensures Wf(s) && Wf(t) && Inside(t, text, tail, ops) && Next(s, c) == Next(t, c)
  {
    var a := s.argv[s.optind];
    assert a == "-" + text == s.argv[s.optind..][0] && a[1..] == text && a != "--";
    assert s.argv[s.optind + 1..] == s.argv[s.optind..][1..] == tail;
    var s0 := s.(optarg := None);
    OptionNotDone(s0, c);
    t := Closed(s).(place := text);
    assert Closed(s0).(place := text) == t.(optarg := None);
    hide Classify, Update;
    Within(t, c);
    assert s0.(optreset := false, place := "") == s0;
  }

  /** A call at a non-option is a call behind it. */
  lemma SkipsOperand(s: Scan, c: Call, text: string, tail: seq<string>, ops: seq<string>) returns (t: Scan)
    requires c.Valid() && Ready(s, [text] + tail, ops) && IsNonOption(text)
    ensures Wf(s) && Wf(t) && Ready(t, tail, ops + [text]) && Next(s, c) == Next(t, c)
  {
    assert s.argv[s.optind] == s.argv[s.optind..][0] == text;
    assert s.argv[s.optind + 1..] == s.argv[s.optind..][1..] == tail;
    t := SkipNonOption(s);
    SkipsTo(s, ops);
    NextSkips(s, c);
    hide Skipped, Next, IsNonOption;
  }

  lemma NextSkips(s: Scan, c: Call)
    requires c.Valid() && InScan(s) && !s.optreset && s.place == "" && s.optind < |s.argv|
    requires IsNonOption(s.argv[s.optind])
    ensures var t := SkipNonOption(s); Wf(s) && Wf(t) && t.place == "" && !t.optreset && Next(s, c) == Next(t, c)
  {
    var s0, t := s.(optarg := None), SkipNonOption(s);
    assert SkipNonOption(s0) == t.(optarg := None) by { hide PermuteBlocks; }
    assert Update(s0, c) == Update(SkipNonOption(s0), c);
    assert s0.(optreset := false, place := "") == s0;
    assert t.(optarg := None).(optreset := false, place := "") == t.(optarg := None);
    hide Update, SkipNonOption, IsNonOption;
  }

  lemma SkipsTo(s: Scan, ops: seq<string>)
    requires InScan(s) && s.place == "" && !s.optreset && s.optind < |s.argv| && IsNonOption(s.argv[s.optind])
    requires Skipped(s, ops)
    ensures var t := SkipNonOption(s);
            !t.optreset && Skipped(t, ops + [s.argv[s.optind]]) && t.argv[s.optind + 1..] == s.argv[s.optind + 1..]
  {
    var a := s.argv;
    if s.nonoptStart != -1 && s.nonoptEnd != -1 {
      ExchangedSlices(a, s.nonoptStart, s.nonoptStart, s.nonoptEnd, s.optind);
      var t := Exchanged(a, s.nonoptStart, s.nonoptEnd, s.optind);
      assert t[s.optind] == t[s.optind..][0] == a[s.optind];
      assert t[s.optind + 1..] == t[s.optind..][1..] == a[s.optind + 1..];
      SliceGrow(t, s.optind - (s.nonoptEnd - s.nonoptStart), s.optind);
    } else if s.nonoptStart != -1 {
      SliceGrow(a, s.nonoptStart, s.optind);
    }
  }

  /** At the end of the line, or at a `--`, a call returns -1 with `optind` at the operands. */
  lemma EndsLine(s: Scan, c: Call, rest: Option<seq<string>>, ops: seq<string>)
    requires c.Valid() && Ready(s, PrintLine([], rest), ops)
    ensures Wf(s)
    ensures var (t, ret) := Next(s, c); ret == DONE && t.argv[t.optind..] == ops + Operands([], rest)
  {
    var s0 := s.(optarg := None);
    assert s0.(optreset := false, place := "") == s0;
    if rest.Some? {
      EndsAtDashes(s0, c, rest.value, ops);
    } else {
      assert s.argv[s.optind..] == [] && s.optind == |s.argv|;
      EndsAt(s0, Update(s0, c).0, ops);
    }
    hide Update;
  }

  lemma EndsAtDashes(s: Scan, c: Call, rest: seq<string>, ops: seq<string>)
    requires c.Valid() && Ready(s, ["--"] + rest, ops)
    ensures var (t, ret) := Update(s, c); ret == DONE && t.optind <= |t.argv| && t.argv[t.optind..] == ops + rest
  {
    assert s.argv[s.optind] == s.argv[s.optind..][0] == "--";
    assert s.argv[s.optind + 1..] == s.argv[s.optind..][1..] == rest;
    DashDashUpdate(s, c);
    hide Update;
    EndsAt(Closed(s).(optind := s.optind + 1), Update(s, c).0, ops);
  }

  /** The skipped block goes behind the options, in front of what has not been read. */
  lemma EndsAt(s: Scan, t: Scan, ops: seq<string>)
    requires InScan(s) && Skipped(s, ops) && (s.nonoptEnd != -1 ==> s.nonoptEnd < s.optind)
    requires t.argv == if s.nonoptEnd != -1 then PermuteBlocks(s, s.optind) else s.argv
    requires t.optind == if s.nonoptEnd != -1 then s.optind - (s.nonoptEnd - s.nonoptStart)
                         else if s.nonoptStart != -1 then s.nonoptStart else s.optind
    ensures t.optind <= |t.argv| && t.argv[t.optind..] == ops + s.argv[s.optind..]
  {
    if s.nonoptEnd != -1 {
      ExchangedSlices(s.argv, s.nonoptStart, s.nonoptStart, s.nonoptEnd, s.optind);
      assert t.argv[t.optind..] == t.argv[t.optind..s.optind] + t.argv[s.optind..];
    } else if s.nonoptStart != -1 {
      assert s.argv[s.nonoptStart..] == s.argv[s.nonoptStart..s.optind] + s.argv[s.optind..];
    }
  }

  // ---- the whole line ----

  lemma YieldsFirst(s: Scan, c: Call, quiet: bool, o: Outcome, more: seq<Outcome>, operands: seq<string>)
    requires Wf(s) && c.Valid()
    requires var (t, ret) := Next(s, c);
             ret != DONE && Gives(c, quiet, t, ret, o) && Yields(t, c, quiet, more, operands)
    ensures Yields(s, c, quiet, [o] + more, operands)
  {
    assert ([o] + more)[1..] == more;
    hide Next, Gives;
  }

  lemma YieldsSame(s: Scan, t: Scan, c: Call, quiet: bool, says: seq<Outcome>, operands: seq<string>)
    requires Wf(s) && Wf(t) && c.Valid() && Next(s, c) == Next(t, c) && Yields(t, c, quiet, says, operands)
    ensures Yields(s, c, quiet, says, operands)
  {
    hide Next, Gives;
  }

  /** The rest of a cluster, and of the line. */
  lemma {:induction false} ReadsCluster(s: Scan, c: Call, rows: seq<LetterOpt>, quiet: bool, flags: string, w: Tail,
                                        words: seq<Word>, rest: Option<seq<string>>, ops: seq<string>)
    requires CallOk(c, rows, quiet) && LineOk(c, rows, words, rest)
    requires (forall i :: 0 <= i < |flags| ==> FlagOk(rows, flags[i])) && TailOk(rows, w, words == [] && rest.None?)
    requires Inside(s, flags + TailText(w), TailRest(w) + PrintLine(words, rest), ops)
    ensures Wf(s)
    ensures Yields(s, c, quiet, FlagsSay(rows, flags) + TailSays(w) + LineSays(c, rows, words),
                   ops + Operands(words, rest))
    decreases |words|, |flags| + 2
  {
    assert c.Valid() && flags + TailText(w) != "";
    hide *;
    ClusterFacts(rows, flags, w, LineSays(c, rows, words), words, rest);
    var line, later, all := PrintLine(words, rest), LineSays(c, rows, words), ops + Operands(words, rest);
    if flags == "" {
      ReadsTail(s, c, rows, quiet, w, line, ops);
      ReadsWords(Next(s, c).0, c, rows, quiet, words, rest, ops);
      YieldsFirst(s, c, quiet, TailSays(w)[0], later, all);
    } else {
      var more := flags[1..];
      InsideText(s, flags + TailText(w), TailRest(w) + line, ops);
      ReadsFlag(s, c, rows, quiet, TailRest(w) + line, ops);
      if more + TailText(w) == "" {
        ReadsWords(Next(s, c).0, c, rows, quiet, words, rest, ops);
      } else {
        ReadsCluster(Next(s, c).0, c, rows, quiet, more, w, words, rest, ops);
      }
      YieldsFirst(s, c, quiet, FlagSays(rows, flags[0]), FlagsSay(rows, more) + TailSays(w) + later, all);
    }
  }

  lemma InsideText(s: Scan, text: string, tail: seq<string>, ops: seq<string>)
    requires Inside(s, text, tail, ops)
    ensures s.place == text && Inside(s, s.place, tail, ops)
  {
  }

  /** What is printed and said for a cluster is that of its first letter and that of the others. */
  lemma ClusterFacts(rows: seq<LetterOpt>, flags: string, w: Tail, later: seq<Outcome>, words: seq<Word>,
                     rest: Option<seq<string>>)
    requires TailOk(rows, w, words == [] && rest.None?) && flags + TailText(w) != ""
    requires forall i :: 0 <= i < |flags| ==> FlagOk(rows, flags[i])
    ensures TailOk(rows, w, PrintLine(words, rest) == [])
    ensures if flags == "" then
              && !w.Nothing? && flags + TailText(w) == TailText(w) && |TailSays(w)| == 1
              && FlagsSay(rows, flags) + TailSays(w) + later == [TailSays(w)[0]] + later
            else
              && FlagOk(rows, flags[0]) && (forall i :: 0 <= i < |flags[1..]| ==> FlagOk(rows, flags[1..][i]))
              && (flags + TailText(w))[0] == flags[0] && (flags + TailText(w))[1..] == flags[1..] + TailText(w)
              && FlagsSay(rows, flags) + TailSays(w) + later
                 == [FlagSays(rows, flags[0])] + (FlagsSay(rows, flags[1..]) + TailSays(w) + later)
              && (flags[1..] + TailText(w) == "" ==>
                    FlagsSay(rows, flags[1..]) + TailSays(w) + later == later
                    && TailRest(w) + PrintLine(words, rest) == PrintLine(words, rest))
  {
    hide *;
    TailLast(rows, w, words, rest);
    if flags == "" {
      NoFlags(rows, flags, w, later);
    } else {
      FlagText(flags, TailText(w));
      FirstFlag(rows, flags, TailSays(w), later);
      if flags[1..] + TailText(w) == "" { NothingMore(rows, flags[1..], w, later, PrintLine(words, rest)); }
    }
  }

  lemma TailLast(rows: seq<LetterOpt>, w: Tail, words: seq<Word>, rest: Option<seq<string>>)
    requires TailOk(rows, w, words == [] && rest.None?)
    ensures TailOk(rows, w, PrintLine(words, rest) == [])
  {
    AtTheEnd(words, rest);
    hide PrintLine, NeedOf;
  }

  lemma NoFlags(rows: seq<LetterOpt>, flags: string, w: Tail, later: seq<Outcome>)
    requires flags == "" && flags + TailText(w) != ""
    ensures !w.Nothing? && flags + TailText(w) == TailText(w) && |TailSays(w)| == 1
    ensures FlagsSay(rows, flags) + TailSays(w) + later == [TailSays(w)[0]] + later
  {
    assert flags + TailText(w) == TailText(w);
    assert TailSays(w) == [TailSays(w)[0]];
    assert FlagsSay(rows, flags) == [];
    hide TailText, TailSays, FlagsSay;
    assert [] + TailSays(w) == TailSays(w);
  }

  lemma FirstFlag(rows: seq<LetterOpt>, flags: string, tail: seq<Outcome>, later: seq<Outcome>)
    requires flags != ""
    ensures FlagsSay(rows, flags) + tail + later ==
            [FlagSays(rows, flags[0])] + (FlagsSay(rows, flags[1..]) + tail + later)
  {
    Assoc([FlagSays(rows, flags[0])], FlagsSay(rows, flags[1..]), tail);
    Assoc([FlagSays(rows, flags[0])], FlagsSay(rows, flags[1..]) + tail, later);
    hide FlagSays;
  }

  lemma NothingMore(rows: seq<LetterOpt>, flags: string, w: Tail, later: seq<Outcome>, line: seq<string>)
    requires flags + TailText(w) == ""
    ensures FlagsSay(rows, flags) + TailSays(w) + later == later && TailRest(w) + line == line
  {
    assert flags == "" && w.Nothing?;
  }

  lemma FlagText(flags: string, text: string)
    requires flags != ""
    ensures (flags + text)[0] == flags[0] && (flags + text)[1..] == flags[1..] + text
  {
  }

  lemma AtTheEnd(words: seq<Word>, rest: Option<seq<string>>)
    ensures words == [] && rest.None? ==> PrintLine(words, rest) == []
  {
  }

  /** An element with a cluster, and the rest of the line. */
  lemma {:induction false} ReadsLetters(s: Scan, c: Call, rows: seq<LetterOpt>, quiet: bool, w: Word,
                                        words: seq<Word>, rest: Option<seq<string>>, ops: seq<string>)
    requires CallOk(c, rows, quiet) && LineOk(c, rows, words, rest) && w.Cluster?
    requires WordOk(c, rows, w, words == [] && rest.None?) && Ready(s, Print(w) + PrintLine(words, rest), ops)
    ensures Wf(s)
    ensures Yields(s, c, quiet, Says(c, rows, w) + LineSays(c, rows, words), ops + Operands(words, rest))
    decreases |words| + 1, 0
  {
    var line, flags, tail := PrintLine(words, rest), w.flags, w.tail;
    LettersFacts(c, rows, quiet, w, line, words == [] && rest.None?);
    hide *;
    var t := StartsElement(s, c, flags + TailText(tail), TailRest(tail) + line, ops);
    ReadsCluster(t, c, rows, quiet, flags, tail, words, rest, ops);
    YieldsSame(s, t, c, quiet, Says(c, rows, w) + LineSays(c, rows, words), ops + Operands(words, rest));
  }

  lemma LettersFacts(c: Call, rows: seq<LetterOpt>, quiet: bool, w: Word, line: seq<string>, last: bool)
    requires CallOk(c, rows, quiet) && w.Cluster? && WordOk(c, rows, w, last)
    ensures c.Valid() && TailOk(rows, w.tail, last) && forall i :: 0 <= i < |w.flags| ==> FlagOk(rows, w.flags[i])
    ensures Print(w) + line == ["-" + (w.flags + TailText(w.tail))] + (TailRest(w.tail) + line)
    ensures Says(c, rows, w) == FlagsSay(rows, w.flags) + TailSays(w.tail)
    ensures w.flags + TailText(w.tail) != "" && w.flags + TailText(w.tail) != "-"
  {
    NoDash(c, rows, w, last);
    hide TailOk, FlagOk, FlagsSay, TailText, TailRest, TailSays;
    Assoc(["-" + (w.flags + TailText(w.tail))], TailRest(w.tail), line);
  }

  /** An element with a long option, and the rest of the line. */
  lemma {:induction false} ReadsLongs(s: Scan, c: Call, rows: seq<LetterOpt>, quiet: bool, w: Word,
                                      words: seq<Word>, rest: Option<seq<string>>, ops: seq<string>)
    requires CallOk(c, rows, quiet) && LineOk(c, rows, words, rest) && w.Long?
    requires WordOk(c, rows, w, words == [] && rest.None?) && Ready(s, Print(w) + PrintLine(words, rest), ops)
    ensures Wf(s)
    ensures Yields(s, c, quiet, Says(c, rows, w) + LineSays(c, rows, words), ops + Operands(words, rest))
    decreases |words| + 1, 0
  {
    LongFacts(c, rows, quiet, w, words, rest);
    hide *;
    var line, text := PrintLine(words, rest), "-" + LongText(w.typed, w.arg);
    var says, all := LongSays(c, w.row, w.arg), ops + Operands(words, rest);
    var t := StartsElement(s, c, text, LongRest(w.arg) + line, ops);
    ReadsLong(t, c, rows, quiet, w, line, ops);
    ReadsWords(Next(t, c).0, c, rows, quiet, words, rest, ops);
    YieldsFirst(t, c, quiet, says, LineSays(c, rows, words), all);
    YieldsSame(s, t, c, quiet, [says] + LineSays(c, rows, words), all);
  }

  lemma LongFacts(c: Call, rows: seq<LetterOpt>, quiet: bool, w: Word, words: seq<Word>, rest: Option<seq<string>>)
    requires CallOk(c, rows, quiet) && w.Long? && WordOk(c, rows, w, words == [] && rest.None?)
    ensures var text, line := LongText(w.typed, w.arg), PrintLine(words, rest);
            && c.Valid() && "-" + text != "" && "-" + text != "-"
            && Print(w) + line == ["-" + ("-" + text)] + (LongRest(w.arg) + line)
            && Says(c, rows, w) == [LongSays(c, w.row, w.arg)] && WordOk(c, rows, w, line == [])
  {
    LastOk(c, rows, w, words, rest);
    assert LongText(w.typed, w.arg) != "";
    hide NamesRow, PrintLine, LongText, LongRest, LongSays, ArgFits;
    Assoc(["-" + ("-" + LongText(w.typed, w.arg))], LongRest(w.arg), PrintLine(words, rest));
  }

  /** An element with an unknown long option, and the rest of the line. */
  lemma {:induction false} ReadsUnknown(s: Scan, c: Call, rows: seq<LetterOpt>, quiet: bool, w: Word,
                                        words: seq<Word>, rest: Option<seq<string>>, ops: seq<string>)
    requires CallOk(c, rows, quiet) && LineOk(c, rows, words, rest) && w.UnknownLong?
    requires WordOk(c, rows, w, words == [] && rest.None?) && Ready(s, Print(w) + PrintLine(words, rest), ops)
    ensures Wf(s)
    ensures Yields(s, c, quiet, Says(c, rows, w) + LineSays(c, rows, words), ops + Operands(words, rest))
    decreases |words| + 1, 0
  {
    var line, all := PrintLine(words, rest), ops + Operands(words, rest);
    assert c.Valid() && w.typed != "" && "-" + w.typed != "-";
    assert Print(w) == ["-" + ("-" + w.typed)] && Says(c, rows, w) == [NoSuchLong];
    LastOk(c, rows, w, words, rest);
    hide *;
    var t := StartsElement(s, c, "-" + w.typed, line, ops);
    ReadsUnknownLong(t, c, rows, quiet, w, line, ops);
    ReadsWords(Next(t, c).0, c, rows, quiet, words, rest, ops);
    YieldsFirst(t, c, quiet, NoSuchLong, LineSays(c, rows, words), all);
    YieldsSame(s, t, c, quiet, [NoSuchLong] + LineSays(c, rows, words), all);
  }

  lemma LastOk(c: Call, rows: seq<LetterOpt>, w: Word, words: seq<Word>, rest: Option<seq<string>>)
    requires WordOk(c, rows, w, words == [] && rest.None?)
    ensures WordOk(c, rows, w, PrintLine(words, rest) == [])
  {
  }

  /** A cluster is no lone dash. */
  lemma NoDash(c: Call, rows: seq<LetterOpt>, w: Word, last: bool)
    requires w.Cluster? && WordOk(c, rows, w, last)
    ensures w.flags + TailText(w.tail) != "" && w.flags + TailText(w.tail) != "-"
  {
    var text := w.flags + TailText(w.tail);
    if w.flags != "" {
      assert text[0] == w.flags[0] && FlagOk(rows, w.flags[0]);
    } else {
      assert text[0] == w.tail.letter;
    }
  }

  lemma {:induction false} ReadsWords(s: Scan, c: Call, rows: seq<LetterOpt>, quiet: bool, words: seq<Word>,
                                      rest: Option<seq<string>>, ops: seq<string>)
    requires CallOk(c, rows, quiet) && LineOk(c, rows, words, rest) && Ready(s, PrintLine(words, rest), ops)
    ensures Wf(s) && Yields(s, c, quiet, LineSays(c, rows, words), ops + Operands(words, rest))
    decreases |words|, 1
  {
    if words == [] {
      EndsLine(s, c, rest, ops);
    } else {
      var w, more := words[0], words[1..];
      LineFacts(c, rows, quiet, words, rest, ops);
      hide *;
      match w {
        case Operand(_) =>
          var t := SkipsOperand(s, c, w.text, PrintLine(more, rest), ops);
          ReadsWords(t, c, rows, quiet, more, rest, ops + [w.text]);
          YieldsSame(s, t, c, quiet, LineSays(c, rows, more), ops + Operands(words, rest));
        case Cluster(_, _) => ReadsLetters(s, c, rows, quiet, w, more, rest, ops);
        case Long(_, _, _) => ReadsLongs(s, c, rows, quiet, w, more, rest, ops);
        case UnknownLong(_) => ReadsUnknown(s, c, rows, quiet, w, more, rest, ops);
      }
    }
  }

  /** What is printed and said for a line is that of its first word and that of the others. */
  lemma LineFacts(c: Call, rows: seq<LetterOpt>, quiet: bool, words: seq<Word>, rest: Option<seq<string>>,
                  ops: seq<string>)
    requires CallOk(c, rows, quiet) && words != [] && LineOk(c, rows, words, rest)
    ensures var w, more := words[0], words[1..];
            && c.Valid() && LineOk(c, rows, more, rest) && WordOk(c, rows, w, more == [] && rest.None?)
            && PrintLine(words, rest) == Print(w) + PrintLine(more, rest)
            && LineSays(c, rows, words) == Says(c, rows, w) + LineSays(c, rows, more)
            && (if w.Operand? then
                  && IsNonOption(w.text) && Print(w) == [w.text] && LineSays(c, rows, words) == LineSays(c, rows, more)
                  && ops + [w.text] + Operands(more, rest) == ops + Operands(words, rest)
                else Operands(words, rest) == Operands(more, rest))
  {
    var w, more := words[0], words[1..];
    assert |words| == 1 <==> more == [];
    OperandFacts(c, rows, words, rest, ops);
    hide CallOk, WordOk, Says, Print, Operands;
  }

  lemma OperandFacts(c: Call, rows: seq<LetterOpt>, words: seq<Word>, rest: Option<seq<string>>, ops: seq<string>)
    requires words != []
    ensures var w, more := words[0], words[1..];
            if w.Operand? then
              && Print(w) == [w.text] && Says(c, rows, w) == []
              && [] + LineSays(c, rows, more) == LineSays(c, rows, more)
              && ops + [w.text] + Operands(more, rest) == ops + Operands(words, rest)
              && (forall last :: WordOk(c, rows, w, last) ==> IsNonOption(w.text))
            else Operands(words, rest) == Operands(more, rest)
  {
    var w, more := words[0], words[1..];
    if w.Operand? {
      Assoc(ops, [w.text], Operands(more, rest));
    } else {
      assert [] + Operands(more, rest) == Operands(more, rest);
    }
    hide IsNonOption, LineSays;
  }

  lemma Assoc<T>(a: seq<T>, b: seq<T>, c: seq<T>)
    ensures (a + b) + c == a + (b + c)
  {
  }

  /** The round trip.  For every table of letters with their needs, printed as the option string, every table of long
    * options, and every line of operands, clusters of letters and long options with their arguments, attached or in
    * the next element, printed as the rest of the argument vector: successive calls return exactly those letters and
    * long options with exactly those arguments, in order, and complain of exactly the letters and names that the
    * tables do not have and of an argument missing at the end; then one returns -1, with `optind` at the operands
    * in their order, followed by what was behind a `--`. */
  lemma LineReadBack(s: Scan, c: Call, rows: seq<LetterOpt>, quiet: bool, words: seq<Word>, rest: Option<seq<string>>)
    requires CallOk(c, rows, quiet) && LineOk(c, rows, words, rest)
    requires Fresh(s) && s.argv[Base(s)..] == PrintLine(words, rest)
    ensures Yields(s, c, quiet, LineSays(c, rows, words), Operands(words, rest))
  {
    assert c.Valid();
    FreshBegins(s, c);
    var t := Begun(s);
    assert Ready(t, PrintLine(words, rest), []);
    hide CallOk, LineOk, Ready, Next, Yields;
    ReadsWords(t, c, rows, quiet, words, rest, []);
    assert [] + Operands(words, rest) == Operands(words, rest);
    YieldsSame(s, t, c, quiet, LineSays(c, rows, words), Operands(words, rest));
  }

  // ---- the other ways to name a long option ----

  /** Where long options may follow a single dash, one that the typed name reaches is read as after two. */
  lemma ReadsLongOnly(s: Scan, c: Call, quiet: bool, typed: string, m: nat, arg: LongArg, rest: seq<string>,
                      ops: seq<string>)
    requires c.Valid() && c.longs.Some? && c.longOnly && BadArg(c.options) == Complaint(quiet)
    requires typed != "" && typed[0] != '-' && '=' !in typed
    requires Reaches(c.longs.value, typed, m, typed[0] != ':' && typed[0] in c.options)
    requires ArgFits(c.longs.value[m].hasArg, arg, rest == [])
    requires Inside(s, LongText(typed, arg), LongRest(arg) + rest, ops)
    ensures Wf(s)
    ensures var (t, ret) := Next(s, c);
            ret != DONE && Gives(c, quiet, t, ret, LongSays(c, m, arg)) && Ready(t, rest, ops)
  {
    var shortToo, k := typed[0] != ':' && typed[0] in c.options, |LongRest(arg)|;
    LongPlace(s, typed, arg, rest, ops);
    hide Inside, Ready, Skipped, Classify, Gives, Reaches, ArgFits, LongText, LongRest, Next, Find;
    Within(s, c);
    LongOnlyResult(s.(optarg := None), c, quiet, typed, m, arg, shortToo);
    var (t, ret) := Next(s, c);
    Moves(s, t, "", LongRest(arg) + rest, ops, k);
  }

  lemma LongPlace(s: Scan, typed: string, arg: LongArg, rest: seq<string>, ops: seq<string>)
    requires Inside(s, LongText(typed, arg), LongRest(arg) + rest, ops)
    ensures var tail, k := LongRest(arg) + rest, |LongRest(arg)|;
            && InScan(s) && !s.optreset && s.place == LongText(typed, arg) != "" && s.optind < |s.argv|
            && Inside(s, s.place, tail, ops) && k <= |tail| && tail[k..] == rest
            && (arg.Following? ==> s.optind + 1 < |s.argv| && s.argv[s.optind + 1] == arg.arg)
            && (arg.Lacking? && rest == [] ==> s.optind + 1 >= |s.argv|)
  {
    assert [] + (LongRest(arg) + rest) == LongRest(arg) + rest;
    hide Inside, LongText, LongRest, InScan;
    ArgPlace(s, LongText(typed, arg), [], arg, rest, ops);
  }

  lemma LongOnlyResult(s: Scan, c: Call, quiet: bool, typed: string, m: nat, arg: LongArg, shortToo: bool)
    requires c.Valid() && c.longs.Some? && c.longOnly && BadArg(c.options) == Complaint(quiet)
    requires typed != "" && typed[0] != '-' && '=' !in typed && shortToo == (typed[0] != ':' && typed[0] in c.options)
    requires Reaches(c.longs.value, typed, m, shortToo) && ArgFits(c.longs.value[m].hasArg, arg, true)
    requires s.place == LongText(typed, arg) && s.optind < |s.argv| && s.optarg == None
    requires arg.Following? ==> s.optind + 1 < |s.argv| && s.argv[s.optind + 1] == arg.arg
    requires arg.Lacking? ==> s.optind + 1 >= |s.argv|
    ensures s.place != ""
    ensures var (t, ret) := Classify(s, c);
            && ret != DONE && Gives(c, quiet, t, ret, LongSays(c, m, arg))
            && Moved(s, t) && t.place == "" && t.optind == s.optind + 1 + |LongRest(arg)|
  {
    assert s.place[0] == typed[0];
    LongOptionGives(s, c, quiet, typed, m, arg, shortToo);
    var (u, r) := LongOption(s, c, s.place, shortToo);
    assert Classify(s, c) == (u.(place := ""), r) by { hide LongOption, Gives, ShortOption, Reaches; }
    hide Classify, LongOption, Gives, Reaches, ArgFits;
    SameGives(c, quiet, u, u.(place := ""), r, LongSays(c, m, arg));
  }

  /** There an element that names no long option and begins with an option letter, other than a W that announces
    * a long option, is read as letters. */
  lemma FallsBackToLetters(s: Scan, c: Call)
    requires c.Valid() && c.longs.Some? && c.longOnly && InScan(s) && !s.optreset && s.place != ""
    requires s.place[0] != '-' && s.place[0] != ':' && s.place[0] in c.options
    requires s.place[0] == 'W' ==> CharAt(c.options, IndexOf('W', c.options) + 1) != ';'
    requires forall i :: 0 <= i < |c.longs.value| ==> !(s.place[..IndexOf('=', s.place)] <= c.longs.value[i].name)
    ensures Wf(s) && c.(longOnly := false).Valid() && Next(s, c) == Next(s, c.(longOnly := false))
  {
    var c', s0 := c.(longOnly := false), s.(optarg := None);
    FindsNone(c.longs.value, s.place[..IndexOf('=', s.place)], true, true);
    Within(s, c);
    Within(s, c');
    assert LongOption(s0, c, s.place, true) == (s0, DONE);
    assert Classify(s0, c) == ShortOption(s0, c);
    assert Classify(s0, c') == ShortOption(s0, c');
    hide Classify, LongOption, Find;
  }

  /** With `W;` among the options a long option may follow a W, in the same element or the next one. */
  lemma ReadsAfterW(s: Scan, c: Call, quiet: bool, typed: string, m: nat, arg: LongArg, attached: bool,
                    rest: seq<string>, ops: seq<string>)
    requires c.Valid() && c.longs.Some? && !c.longOnly && BadArg(c.options) == Complaint(quiet)
    requires 'W' in c.options && CharAt(c.options, IndexOf('W', c.options) + 1) == ';'
    requires typed != "" && '=' !in typed && NamesRow(c.longs.value, typed, m)
    requires ArgFits(c.longs.value[m].hasArg, arg, rest == [])
    requires var text := LongText(typed, arg);
             if attached then Inside(s, "W" + text, LongRest(arg) + rest, ops)
             else Inside(s, "W", [text] + (LongRest(arg) + rest), ops)
    ensures Wf(s)
    ensures var (t, ret) := Next(s, c);
            ret != DONE && Gives(c, quiet, t, ret, LongSays(c, m, arg)) && Ready(t, rest, ops)
  {
    var name := if attached then [] else [LongText(typed, arg)];
    var tail, k := name + (LongRest(arg) + rest), |name| + |LongRest(arg)|;
    WPlace(s, name, typed, arg, attached, rest, ops);
    hide Inside, Ready, Skipped, Classify, Gives, NamesRow, ArgFits, LongText, LongRest, Next, CharAt, IndexOf;
    Within(s, c);
    WResult(s.(optarg := None), c, quiet, typed, m, arg, attached);
    var (t, ret) := Next(s, c);
    Moves(s, t, "", tail, ops, k);
  }

  lemma WPlace(s: Scan, name: seq<string>, typed: string, arg: LongArg, attached: bool, rest: seq<string>,
               ops: seq<string>)
    requires name == if attached then [] else [LongText(typed, arg)]
    requires if attached then Inside(s, "W" + LongText(typed, arg), LongRest(arg) + rest, ops)
             else Inside(s, "W", [LongText(typed, arg)] + (LongRest(arg) + rest), ops)
    ensures var tail, k, o := name + (LongRest(arg) + rest), |name| + |LongRest(arg)|, s.optind + |name|;
            && InScan(s) && !s.optreset && s.place == (if attached then "W" + LongText(typed, arg) else "W")
            && s.place != "" && s.optind < |s.argv| && Inside(s, s.place, tail, ops) && k <= |tail| && tail[k..] == rest
            && (!attached ==> s.optind + 1 < |s.argv| && s.argv[s.optind + 1] == LongText(typed, arg))
            && (arg.Following? ==> o + 1 < |s.argv| && s.argv[o + 1] == arg.arg)
            && (arg.Lacking? && rest == [] ==> o + 1 >= |s.argv|)
  {
    assert [] + (LongRest(arg) + rest) == LongRest(arg) + rest;
    hide InScan, Skipped, LongText, LongRest, Inside;
    ArgPlace(s, if attached then "W" + LongText(typed, arg) else "W", name, arg, rest, ops);
  }

  lemma ArgPlace(s: Scan, text: string, name: seq<string>, arg: LongArg, rest: seq<string>, ops: seq<string>)
    requires Inside(s, text, name + (LongRest(arg) + rest), ops)
    ensures var tail, k, o := name + (LongRest(arg) + rest), |name| + |LongRest(arg)|, s.optind + |name|;
            && InScan(s) && !s.optreset && s.place == text != "" && s.optind < |s.argv| && Inside(s, s.place, tail, ops)
            && k <= |tail| && tail[k..] == rest
            && (name != [] ==> s.optind + 1 < |s.argv| && s.argv[s.optind + 1] == name[0])
            && (arg.Following? ==> o + 1 < |s.argv| && s.argv[o + 1] == arg.arg)
            && (arg.Lacking? && rest == [] ==> o + 1 >= |s.argv|)
  {
    var tail := name + (LongRest(arg) + rest);
    assert s.argv[s.optind + 1..] == tail && s.place == text;
    AfterWTail(name, arg, rest);
    hide InScan, Skipped, LongRest;
    TailIs(s, tail);
  }

  lemma WResult(s: Scan, c: Call, quiet: bool, typed: string, m: nat, arg: LongArg, attached: bool)
    requires c.Valid() && c.longs.Some? && !c.longOnly && BadArg(c.options) == Complaint(quiet)
    requires 'W' in c.options && CharAt(c.options, IndexOf('W', c.options) + 1) == ';'
    requires typed != "" && '=' !in typed && NamesRow(c.longs.value, typed, m)
    requires ArgFits(c.longs.value[m].hasArg, arg, true) && s.optind < |s.argv| && s.optarg == None
    requires s.place == if attached then "W" + LongText(typed, arg) else "W"
    requires !attached ==> s.optind + 1 < |s.argv| && s.argv[s.optind + 1] == LongText(typed, arg)
    requires var o := s.optind + if attached then 0 else 1;
             && (arg.Following? ==> o + 1 < |s.argv| && s.argv[o + 1] == arg.arg)
             && (arg.Lacking? ==> o + 1 >= |s.argv|)
    ensures var (t, ret) := Classify(s, c);
            && ret != DONE && Gives(c, quiet, t, ret, LongSays(c, m, arg)) && Moved(s, t) && t.place == ""
            && t.optind == s.optind + (if attached then 0 else 1) + 1 + |LongRest(arg)|
  {
    var text := LongText(typed, arg);
    assert text != "";
    WTakesLong(s, c, text, attached);
    hide Classify, Gives, NamesRow;
    LongOptionGives(s.(place := "", optind := s.optind + if attached then 0 else 1), c, quiet, typed, m, arg, false);
    hide LongOption, ArgFits;
  }

  lemma AfterWTail(name: seq<string>, arg: LongArg, rest: seq<string>)
    ensures var tail := name + (LongRest(arg) + rest);
            && tail[|name| + |LongRest(arg)|..] == rest && |tail| == |name| + |LongRest(arg)| + |rest|
            && (arg.Following? ==> tail[|name|] == arg.arg) && (name != [] ==> tail[0] == name[0])
  {
  }

  lemma TailIs(s: Scan, tail: seq<string>)
    requires s.optind < |s.argv| && s.argv[s.optind + 1..] == tail
    ensures |s.argv| == s.optind + 1 + |tail| && forall i :: 0 <= i < |tail| ==> s.argv[s.optind + 1 + i] == tail[i]
  {
    forall i | 0 <= i < |tail|
      ensures s.argv[s.optind + 1 + i] == tail[i]
    {
      assert s.argv[s.optind + 1..][i] == tail[i];
    }
  }

  lemma WTakesLong(s: Scan, c: Call, text: string, attached: bool)
    requires c.Valid() && c.longs.Some? && !c.longOnly && s.optind < |s.argv| && text != ""
    requires 'W' in c.options && CharAt(c.options, IndexOf('W', c.options) + 1) == ';'
    requires s.place == if attached then "W" + text else "W"
    requires !attached ==> s.optind + 1 < |s.argv| && s.argv[s.optind + 1] == text
    ensures Classify(s, c) ==
            LongOption(s.(place := "", optind := if attached then s.optind else s.optind + 1), c, text, false)
  {
    assert s.place[0] == 'W' && (attached ==> s.place[1..] == text) && (!attached ==> s.place[1..] == "");
    assert Classify(s, c) == ShortOption(s, c);
    hide Classify, LongOption;
  }
}
