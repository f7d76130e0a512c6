/** Matching a long option against the table of `getopt_long`: exact names, unambiguous prefixes, and the
  * single letters that a short option could mean instead. */
module LongOptions {
  import opened Wrappers

  datatype ArgNeed = NoArgument | RequiredArgument | OptionalArgument

  /** A row of the table; `flag` says where the value is stored instead of being returned. */
  datatype LongOpt = LongOpt(name: string, hasArg: ArgNeed, flag: Option<nat>, val: int)

  function IndexOf(c: char, s: string): (k: nat)
    ensures k <= |s| && (k < |s| <==> c in s) && (k < |s| ==> s[k] == c)
    ensures c !in s[..k]
  {
    if s == "" || s[0] == c then 0 else 1 + IndexOf(c, s[1..])
  }

  /** A row that the typed name abbreviates, unless it is a single letter that is a short option too. */
  predicate Partial(o: LongOpt, name: string, shortToo: bool) {
    name <= o.name && o.name != name && !(shortToo && |name| == 1)
  }

  /** Two rows that do not mean the same; with `longOnly` no two do. */
  predicate Differ(a: LongOpt, b: LongOpt, longOnly: bool) {
    longOnly || a.hasArg != b.hasArg || a.flag != b.flag || a.val != b.val
  }

  /** What the typed name means: a row, several different ones, or none. */
  datatype Found = Row(i: nat) | Ambiguous | Unknown

  predicate Exact(longs: seq<LongOpt>, name: string, i: int) {
    0 <= i < |longs| && longs[i].name == name
  }

  predicate Abbreviates(longs: seq<LongOpt>, name: string, shortToo: bool, i: int) {
    0 <= i < |longs| && Partial(longs[i], name, shortToo)
  }

  /** An exact match wins, the first if there are several; otherwise the first abbreviated row, unless a
    * later one differs from it. */
  ghost predicate Means(longs: seq<LongOpt>, name: string, shortToo: bool, longOnly: bool, f: Found) {
    match f
    case Row(i) =>
      || (Exact(longs, name, i) && forall k :: 0 <= k < i ==> !Exact(longs, name, k))
      || ((forall k :: !Exact(longs, name, k)) && Abbreviates(longs, name, shortToo, i)
          && (forall k :: k < i ==> !Abbreviates(longs, name, shortToo, k))
          && forall k :: i < k && Abbreviates(longs, name, shortToo, k) ==> !Differ(longs[k], longs[i], longOnly))
    case Ambiguous =>
      && (forall k :: !Exact(longs, name, k))
      && exists i, k :: i < k && Abbreviates(longs, name, shortToo, i) && Abbreviates(longs, name, shortToo, k)
                        && (forall j :: j < i ==> !Abbreviates(longs, name, shortToo, j))
                        && Differ(longs[k], longs[i], longOnly)
    case Unknown => (forall k :: !Exact(longs, name, k)) && forall k :: !Abbreviates(longs, name, shortToo, k)
  }

  /** The loop of `parse_long_options` as a function of where it stands: `m` is the first abbreviated row so
    * far, or the table length, and `several` whether a different one has followed. */
  function FindFrom(longs: seq<LongOpt>, name: string, shortToo: bool, longOnly: bool, i: nat, m: nat, several: bool)
    : (f: Found)
    requires i <= |longs| && (m < i || m == |longs|)
    ensures f.Row? ==> f.i < |longs|
    decreases |longs| - i
  {
    if i == |longs| then
      if m == |longs| then Unknown else if several then Ambiguous else Row(m)
    else if longs[i].name == name then Row(i)
    else if !Partial(longs[i], name, shortToo) then FindFrom(longs, name, shortToo, longOnly, i + 1, m, several)
    else if m == |longs| then FindFrom(longs, name, shortToo, longOnly, i + 1, i, several)
    else FindFrom(longs, name, shortToo, longOnly, i + 1, m, several || Differ(longs[i], longs[m], longOnly))
  }

  function Find(longs: seq<LongOpt>, name: string, shortToo: bool, longOnly: bool): (f: Found)
    ensures f.Row? ==> f.i < |longs|
  {
    FindFrom(longs, name, shortToo, longOnly, 0, |longs|, false)
  }

  /** What holds part way through the loop. */
  ghost predicate Looked(longs: seq<LongOpt>, name: string, shortToo: bool, longOnly: bool, i: nat, m: nat,
                         several: bool) {
    && i <= |longs| && (m < i || m == |longs|)
    && (forall k :: k < i ==> !Exact(longs, name, k))
    && (forall k :: k < i && k < m ==> !Abbreviates(longs, name, shortToo, k))
    && (m < |longs| ==> Abbreviates(longs, name, shortToo, m))
    && (m < |longs| ==>
          (several <==>
            exists k :: m < k < i && Abbreviates(longs, name, shortToo, k) && Differ(longs[k], longs[m], longOnly)))
    && (m == |longs| ==> !several)
  }

  lemma {:induction false} FindFromMeans(longs: seq<LongOpt>, name: string, shortToo: bool, longOnly: bool, i: nat,
                                         m: nat, several: bool)
    requires Looked(longs, name, shortToo, longOnly, i, m, several)
    ensures Means(longs, name, shortToo, longOnly, FindFrom(longs, name, shortToo, longOnly, i, m, several))
    decreases |longs| - i
  {
    if i == |longs| {
      LookedAll(longs, name, shortToo, longOnly, m, several);
    } else if longs[i].name == name {
      assert Exact(longs, name, i);
    } else {
      var partial := Partial(longs[i], name, shortToo);
      var m' := if partial && m == |longs| then i else m;
      var several' := several || (partial && m < |longs| && Differ(longs[i], longs[m], longOnly));
      LookedOne(longs, name, shortToo, longOnly, i, m, several, m', several');
      hide Means, Looked;
      FindFromMeans(longs, name, shortToo, longOnly, i + 1, m', several');
    }
  }

  lemma LookedAll(longs: seq<LongOpt>, name: string, shortToo: bool, longOnly: bool, m: nat, several: bool)
    requires Looked(longs, name, shortToo, longOnly, |longs|, m, several)
    ensures var f := if m == |longs| then Unknown else if several then Ambiguous else Row(m);
            Means(longs, name, shortToo, longOnly, f)
  {
    hide Partial, Differ;
  }

  lemma LookedOne(longs: seq<LongOpt>, name: string, shortToo: bool, longOnly: bool, i: nat, m: nat, several: bool,
                  m': nat, several': bool)
    requires Looked(longs, name, shortToo, longOnly, i, m, several) && i < |longs| && longs[i].name != name
    requires m' == if Partial(longs[i], name, shortToo) && m == |longs| then i else m
    requires several' == (several || (Partial(longs[i], name, shortToo) && m < |longs|
                                      && Differ(longs[i], longs[m], longOnly)))
    ensures Looked(longs, name, shortToo, longOnly, i + 1, m', several')
  {
    hide Partial, Differ;
    assert Abbreviates(longs, name, shortToo, i) <==> Partial(longs[i], name, shortToo);
  }

  /** What a name means does not depend on how the table is searched. */
  lemma FindMeans(longs: seq<LongOpt>, name: string, shortToo: bool, longOnly: bool)
    ensures Means(longs, name, shortToo, longOnly, Find(longs, name, shortToo, longOnly))
  {
    FindFromMeans(longs, name, shortToo, longOnly, 0, |longs|, false);
  }

  /** `strncmp` of the first |name| characters, for strings without a zero character. */
  predicate SamePrefix(name: string, other: string) { name <= other }

  /** The matching loop of `parse_long_options`. */
  method FindRow(longs: seq<LongOpt>, name: string, shortToo: bool, longOnly: bool) returns (f: Found)
    ensures f == Find(longs, name, shortToo, longOnly)
    ensures Means(longs, name, shortToo, longOnly, f)
  {
    FindMeans(longs, name, shortToo, longOnly);
    hide Means, Differ;
    var found: nat, i: nat := |longs|, 0;
    var exactMatch, secondPartialMatch := false, false;
    while i < |longs|
      invariant i <= |longs| && (found < i || found == |longs|) && !exactMatch
      invariant secondPartialMatch ==> found < |longs|
      invariant Find(longs, name, shortToo, longOnly)
             == FindFrom(longs, name, shortToo, longOnly, i, found, secondPartialMatch)
    {
      if SamePrefix(name, longs[i].name) {
        if |longs[i].name| == |name| {
          assert longs[i].name == name;
          found, exactMatch := i, true;
          break;
        }
        if !(shortToo && |name| == 1) {
          if found == |longs| {
            found := i;
          } else if Differ(longs[i], longs[found], longOnly) {
            secondPartialMatch := true;
          }
        }
      }
      i := i + 1;
    }
    f := if !exactMatch && secondPartialMatch then Ambiguous else if found < |longs| then Row(found) else Unknown;
  }
}
