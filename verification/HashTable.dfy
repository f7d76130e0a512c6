/** The chained hash table of the command registry: pointer-linked buckets, rehashing, and an iterator
  * that can remove as it goes.
  *
  * The entries are objects linked through `next`; the proofs work on a snapshot of them, a map from
  * entry to its fields (`Heap`), with the entries still allocated as its domain. */
module HashTable {
  import opened Wrappers

  /** A command name, and what is registered under it. */
  datatype Key = Key(name: string)
  datatype Info = Info(proc: nat, description: string)

  class Entry {
    const k: Key
    var v: Info
    const h: nat
    var next: Entry?

    constructor (k: Key, v: Info, h: nat, next: Entry?)
      ensures this.k == k && this.v == v && this.h == h && this.next == next
    {
      this.k, this.v, this.h, this.next := k, v, h, next;
    }
  }

  datatype Cell = Cell(k: Key, v: Info, h: nat, next: Entry?)

  type Chain = seq<Entry>

  // ---- the shape of a table: linked chains, one per bucket ----

  ghost function At(c: Chain, j: nat): Entry? {
    if j < |c| then c[j] else null
  }

  ghost function Before(c: Chain, j: nat): Entry? {
    if 0 < j <= |c| then c[j - 1] else null
  }

  ghost function Linked(p: Entry?): set<Entry> {
    if p == null then {} else {p}
  }

  lemma WalkStart(c: Chain)
    ensures Before(c, 0) == null
  {
  }

  lemma WalkStep(c: Chain, j: nat)
    requires At(c, j) != null
    ensures j < |c| && At(c, j) == c[j] && Before(c, j + 1) == c[j]
  {
  }

  lemma WalkEnd(c: Chain, j: nat)
    requires At(c, j) == null
    ensures j >= |c|
  {
  }

  ghost predicate IsChain(heap: map<Entry, Cell>, p: Entry?, c: Chain) {
    && p == At(c, 0)
    && (forall j | 0 <= j < |c| :: c[j] in heap && heap[c[j]].next == At(c, j + 1))
    && (forall i, j | 0 <= i < j < |c| :: c[i] != c[j])
  }

  /** The buckets hold exactly the entries of `live`, each in the bucket h mod the table length. */
  ghost predicate Members(heap: map<Entry, Cell>, live: set<Entry>, n: nat, chains: seq<Chain>)
    requires 0 < n == |chains|
  {
    && (forall i, j | 0 <= i < n && 0 <= j < |chains[i]| ::
          chains[i][j] in live && chains[i][j] in heap && heap[chains[i][j]].h % n == i)
    && (forall e | e in live :: e in heap && e in chains[heap[e].h % n])
  }

  /** The table's slots start the chains of its buckets. */
  ghost predicate Shape(heap: map<Entry, Cell>, live: set<Entry>,
                              table: seq<Entry?>, chains: seq<Chain>) {
    && 0 < |table| == |chains|
    && live <= heap.Keys
    && (forall i | 0 <= i < |table| :: IsChain(heap, table[i], chains[i]))
    && Members(heap, live, |table|, chains)
  }

  /** The entries are the pairs of the finite map `dict`; `spot` says which entry holds a key. */
  ghost predicate Represents(heap: map<Entry, Cell>, hash: Key -> nat,
                                   spot: map<Key, Entry>, dict: map<Key, Info>) {
    && spot.Keys == dict.Keys
    && (forall k | k in dict :: spot[k] in heap && heap[spot[k]].k == k && heap[spot[k]].v == dict[k])
    && (forall e | e in heap :: heap[e].k in spot && spot[heap[e].k] == e && heap[e].h == hash(heap[e].k))
  }

  lemma SameOnLive(heap: map<Entry, Cell>, heap': map<Entry, Cell>, live: set<Entry>,
                         table: seq<Entry?>, chains: seq<Chain>)
    requires Shape(heap, live, table, chains) && live <= heap'.Keys
    requires forall e | e in live :: heap'[e] == heap[e]
    ensures Shape(heap', live, table, chains)
  {
    forall i | 0 <= i < |table|
      ensures IsChain(heap', table[i], chains[i])
    {
      assert IsChain(heap, table[i], chains[i]);
      forall j | 0 <= j < |chains[i]|
        ensures chains[i][j] in heap' && heap'[chains[i][j]].next == At(chains[i], j + 1)
      {
        assert chains[i][j] in live;
      }
    }
  }

  /** Linking an entry in front of its bucket. */
  lemma PushFront(heap: map<Entry, Cell>, live: set<Entry>, table: seq<Entry?>,
                        chains: seq<Chain>, e: Entry, cell: Cell, index: nat)
    requires Shape(heap, live, table, chains) && e !in live
    requires index == cell.h % |table| && cell.next == table[index]
    ensures Shape(heap[e := cell], live + {e}, table[index := e], chains[index := [e] + chains[index]])
  {
    var heap', c := heap[e := cell], [e] + chains[index];
    SameOnLive(heap, heap', live, table, chains);
    assert IsChain(heap', table[index], chains[index]);
    assert IsChain(heap', e, c) by {
      forall j | 0 <= j < |c|
        ensures c[j] in heap' && heap'[c[j]].next == At(c, j + 1)
      {
        if j > 0 { assert c[j] == chains[index][j - 1]; }
      }
    }
    PushMembers(heap', live, |table|, chains, e, index);
  }

  lemma PushMembers(heap: map<Entry, Cell>, live: set<Entry>, n: nat, chains: seq<Chain>, e: Entry, index: nat)
    requires 0 < n == |chains| && Members(heap, live, n, chains) && e !in live && e in heap && index == heap[e].h % n
    ensures Members(heap, live + {e}, n, chains[index := [e] + chains[index]])
  {
    var c := [e] + chains[index];
    var pushed := chains[index := c];
    forall i, j | 0 <= i < n && 0 <= j < |pushed[i]|
      ensures pushed[i][j] in live + {e} && pushed[i][j] in heap && heap[pushed[i][j]].h % n == i
    {
      assert i == index && j > 0 ==> c[j] == chains[index][j - 1];
    }
    forall x | x in live + {e}
      ensures x in heap && x in pushed[heap[x].h % n]
    {
      if x == e {
        assert c[0] == e;
      } else if heap[x].h % n == index {
        InTail(x, e, chains[index]);
      }
    }
  }

  lemma InTail(x: Entry, e: Entry, c: Chain)
    requires x in c
    ensures x in [e] + c
  {
  }

  /** Taking the first entry out of a bucket. */
  lemma PopFront(heap: map<Entry, Cell>, live: set<Entry>, table: seq<Entry?>,
                       chains: seq<Chain>, index: nat)
    requires Shape(heap, live, table, chains) && index < |table| && chains[index] != []
    ensures var e := chains[index][0];
            && table[index] == e && e in live && e in heap
            && Shape(heap, live - {e}, table[index := heap[e].next], chains[index := chains[index][1..]])
  {
    hide Shape, Members, IsChain;
    ShapeAt(heap, live, table, chains, index);
    var e, c := chains[index][0], chains[index];
    FirstIsLive(heap, live, |table|, chains, index);
    RemoveMember(heap, live, table, chains, index, 0);
    TailChain(heap, table[index], c);
    assert c[..0] + c[1..] == c[1..];
    ReplaceBucket(heap, live, live - {e}, table, chains, index, heap[e].next, c[1..]);
  }

  lemma ShapeAt(heap: map<Entry, Cell>, live: set<Entry>, table: seq<Entry?>, chains: seq<Chain>, index: nat)
    requires Shape(heap, live, table, chains) && index < |table|
    ensures 0 < |table| == |chains| && live <= heap.Keys && IsChain(heap, table[index], chains[index])
    ensures Members(heap, live, |table|, chains)
  {
    hide IsChain, Members;
  }

  /** A bucket that is a chain again, in a table whose membership is right. */
  lemma ReplaceBucket(heap: map<Entry, Cell>, live: set<Entry>, live': set<Entry>, table: seq<Entry?>,
                      chains: seq<Chain>, index: nat, first: Entry?, c: Chain)
    requires Shape(heap, live, table, chains) && index < |table| && live' <= live && IsChain(heap, first, c)
    requires Members(heap, live', |table|, chains[index := c])
    ensures Shape(heap, live', table[index := first], chains[index := c])
  {
    hide IsChain, Members;
  }

  lemma FirstIsLive(heap: map<Entry, Cell>, live: set<Entry>, n: nat, chains: seq<Chain>, index: nat)
    requires index < n == |chains| && Members(heap, live, n, chains) && chains[index] != []
    ensures chains[index][0] in live && chains[index][0] in heap
  {
  }

  lemma TailChain(heap: map<Entry, Cell>, first: Entry?, c: Chain)
    requires IsChain(heap, first, c) && c != []
    ensures first == c[0] && c[0] in heap && IsChain(heap, heap[c[0]].next, c[1..])
  {
    forall j | 0 <= j < |c[1..]|
      ensures c[1..][j] in heap && heap[c[1..][j]].next == At(c[1..], j + 1)
    {
      assert c[1..][j] == c[j + 1];
    }
  }

  /** Bypassing the j-th entry of a bucket through its predecessor. */
  lemma Unlink(heap: map<Entry, Cell>, live: set<Entry>, table: seq<Entry?>,
                     chains: seq<Chain>, index: nat, j: nat)
    requires Shape(heap, live, table, chains) && index < |table| && 0 < j < |chains[index]|
    ensures var c := chains[index]; var e, p := c[j], c[j - 1];
            && e in live && e in heap && p in heap && p != e
            && Shape(heap[p := heap[p].(next := heap[e].next)], live - {e}, table, chains[index := c[..j] + c[j + 1..]])
  {
    hide IsChain, At;
    var c := chains[index];
    var e, p := c[j], c[j - 1];
    BypassChain(heap, table[index], c, j);
    var heap', c' := heap[p := heap[p].(next := heap[e].next)], c[..j] + c[j + 1..];
    assert heap[p].h % |table| == index;
    SameHashes(heap, heap', live - {e}, |table|, chains[index := c']);
    RemoveMember(heap, live, table, chains, index, j);
    OtherBuckets(heap, live, table, chains, index, p, heap'[p]);
  }

  lemma SameHashes(heap: map<Entry, Cell>, heap': map<Entry, Cell>, live: set<Entry>,
                         n: nat, chains: seq<Chain>)
    requires n > 0 && heap.Keys == heap'.Keys && forall e | e in heap :: heap'[e].h == heap[e].h
    ensures (forall x | x in live :: x in heap && heap[x].h % n < |chains| && x in chains[heap[x].h % n])
         ==> (forall x | x in live :: x in heap' && heap'[x].h % n < |chains| && x in chains[heap'[x].h % n])
    ensures (forall i, q | 0 <= i < |chains| && 0 <= q < |chains[i]| ::
               chains[i][q] in live && chains[i][q] in heap && heap[chains[i][q]].h % n == i)
         ==> (forall i, q | 0 <= i < |chains| && 0 <= q < |chains[i]| ::
               chains[i][q] in live && chains[i][q] in heap' && heap'[chains[i][q]].h % n == i)
  {
  }

  lemma OtherBuckets(heap: map<Entry, Cell>, live: set<Entry>, table: seq<Entry?>,
                           chains: seq<Chain>, index: nat, p: Entry, cell: Cell)
    requires Shape(heap, live, table, chains) && p in heap && heap[p].h % |table| == index
    ensures forall i | 0 <= i < |table| && i != index :: IsChain(heap[p := cell], table[i], chains[i])
  {
    var heap' := heap[p := cell];
    forall i | 0 <= i < |table| && i != index
      ensures IsChain(heap', table[i], chains[i])
    {
      assert IsChain(heap, table[i], chains[i]);
      forall q | 0 <= q < |chains[i]|
        ensures chains[i][q] in heap' && heap'[chains[i][q]].next == At(chains[i], q + 1)
      {
        assert heap[chains[i][q]].h % |table| == i;
      }
    }
  }

  lemma BypassChain(heap: map<Entry, Cell>, head: Entry?, c: Chain, j: nat)
    requires IsChain(heap, head, c) && 0 < j < |c|
    ensures c[j - 1] in heap && c[j] in heap && c[j - 1] != c[j]
    ensures IsChain(heap[c[j - 1] := heap[c[j - 1]].(next := heap[c[j]].next)], head, c[..j] + c[j + 1..])
  {
    var heap', c' := heap[c[j - 1] := heap[c[j - 1]].(next := heap[c[j]].next)], c[..j] + c[j + 1..];
    forall q | 0 <= q < |c'|
      ensures c'[q] in heap' && heap'[c'[q]].next == At(c', q + 1)
    {
      assert c'[q] == if q < j then c[q] else c[q + 1];
      assert At(c', q + 1) == if q + 1 < j then c[q + 1] else At(c, q + 2);
    }
  }

  lemma RemoveMember(heap: map<Entry, Cell>, live: set<Entry>, table: seq<Entry?>,
                           chains: seq<Chain>, index: nat, j: nat)
    requires Shape(heap, live, table, chains) && index < |table| && j < |chains[index]|
    ensures var c := chains[index];
            Members(heap, live - {c[j]}, |table|, chains[index := c[..j] + c[j + 1..]])
  {
    var c := chains[index];
    hide IsChain;
    ShapeAt(heap, live, table, chains, index);
    hide Shape;
    DistinctChain(heap, table[index], c);
    RemoveKeeps(heap, live, |table|, chains, index, j);
    RemoveOnly(heap, live, |table|, chains, index, j);
  }

  lemma DistinctChain(heap: map<Entry, Cell>, first: Entry?, c: Chain)
    requires IsChain(heap, first, c)
    ensures forall i, j | 0 <= i < j < |c| :: c[i] != c[j]
  {
  }

  /** Every other entry is still in its bucket. */
  lemma RemoveKeeps(heap: map<Entry, Cell>, live: set<Entry>, n: nat, chains: seq<Chain>, index: nat, j: nat)
    requires index < n == |chains| && j < |chains[index]| && Members(heap, live, n, chains)
    ensures var c := chains[index]; var chains' := chains[index := c[..j] + c[j + 1..]];
            forall x | x in live - {c[j]} :: x in heap && x in chains'[heap[x].h % n]
  {
    var c := chains[index];
    var c' := c[..j] + c[j + 1..];
    forall x | x in live - {c[j]}
      ensures x in heap && x in chains[index := c'][heap[x].h % n]
    {
      if heap[x].h % n == index {
        var q :| 0 <= q < |c| && c[q] == x;
        assert c'[if q < j then q else q - 1] == x;
      }
    }
  }

  /** And the buckets hold nothing else. */
  lemma RemoveOnly(heap: map<Entry, Cell>, live: set<Entry>, n: nat, chains: seq<Chain>, index: nat, j: nat)
    requires index < n == |chains| && j < |chains[index]| && Members(heap, live, n, chains)
    requires forall i, q | 0 <= i < q < |chains[index]| :: chains[index][i] != chains[index][q]
    ensures var c := chains[index]; var chains' := chains[index := c[..j] + c[j + 1..]];
            forall i, q {:trigger chains'[i][q]} | 0 <= i < n && 0 <= q < |chains'[i]| ::
              chains'[i][q] in live - {c[j]} && chains'[i][q] in heap && heap[chains'[i][q]].h % n == i
  {
    var c := chains[index];
    var c' := c[..j] + c[j + 1..];
    var chains' := chains[index := c'];
    forall i, q {:trigger chains'[i][q]} | 0 <= i < n && 0 <= q < |chains'[i]|
      ensures chains'[i][q] in live - {c[j]} && chains'[i][q] in heap && heap[chains'[i][q]].h % n == i
    {
      if i == index {
        assert c'[q] == c[if q < j then q else q + 1];
      } else {
        assert heap[chains[i][q]].h % n == i;
      }
    }
  }

  // ---- agreement with the finite map ----

  lemma RepresentsInsert(heap: map<Entry, Cell>, hash: Key -> nat, spot: map<Key, Entry>,
                               dict: map<Key, Info>, e: Entry, cell: Cell)
    requires Represents(heap, hash, spot, dict) && e !in heap && cell.k !in dict && cell.h == hash(cell.k)
    ensures Represents(heap[e := cell], hash, spot[cell.k := e], dict[cell.k := cell.v])
  {
  }

  lemma RepresentsRemove(heap: map<Entry, Cell>, heap': map<Entry, Cell>, hash: Key -> nat,
                               spot: map<Key, Entry>, dict: map<Key, Info>, e: Entry)
    requires Represents(heap, hash, spot, dict) && e in heap && heap'.Keys == heap.Keys - {e}
    requires forall x | x in heap' :: heap'[x] == heap[x].(next := heap'[x].next)
    ensures heap[e].k in dict && Represents(heap', hash, spot - {heap[e].k}, dict - {heap[e].k})
  {
  }

  /** The number of entries is the size of the map. */
  lemma {:induction false} RepresentsSize(heap: map<Entry, Cell>, hash: Key -> nat,
                                                spot: map<Key, Entry>, dict: map<Key, Info>)
    requires Represents(heap, hash, spot, dict)
    ensures |heap| == |dict|
    decreases |heap|
  {
    if heap == map[] {
      assert dict == map[] by {
        if k :| k in dict { assert spot[k] in heap; }
      }
    } else {
      var e :| e in heap;
      var heap' := heap - {e};
      assert heap'.Keys == heap.Keys - {e};
      assert |heap'.Keys| == |heap.Keys| - 1;
      RepresentsRemove(heap, heap', hash, spot, dict, e);
      RepresentsSize(heap', hash, spot - {heap[e].k}, dict - {heap[e].k});
      assert (dict - {heap[e].k}).Keys == dict.Keys - {heap[e].k};
    }
  }

  /** A key of the map is found in its bucket and only there. */
  lemma KeyInBucket(heap: map<Entry, Cell>, hash: Key -> nat, spot: map<Key, Entry>, dict: map<Key, Info>,
                          table: seq<Entry?>, chains: seq<Chain>, k: Key)
    requires Represents(heap, hash, spot, dict) && Shape(heap, heap.Keys, table, chains)
    ensures k in dict ==> spot[k] in chains[hash(k) % |table|]
    ensures forall j {:trigger chains[hash(k) % |table|][j]} | 0 <= j < |chains[hash(k) % |table|]| ::
              var e := chains[hash(k) % |table|][j];
              e in heap && (heap[e].k == k <==> k in dict && spot[k] == e)
  {
    if k in dict {
      assert heap[spot[k]].h == hash(k);
    }
  }

  /** Changing only `next` fields, and of allocated entries only, does not change what is represented. */
  lemma RepresentsRelinked(heap: map<Entry, Cell>, heap': map<Entry, Cell>, hash: Key -> nat,
                                 spot: map<Key, Entry>, dict: map<Key, Info>)
    requires Represents(heap, hash, spot, dict) && heap'.Keys == heap.Keys
    requires forall x | x in heap :: heap'[x] == heap[x].(next := heap'[x].next)
    ensures Represents(heap', hash, spot, dict)
  {
  }

  lemma EmptyShape(heap: map<Entry, Cell>, n: nat)
    requires n > 0
    ensures Shape(heap, {}, seq<Entry?>(n, _ => null), seq<Chain>(n, _ => []))
  {
  }

  /** Moving the first entry of an old bucket to the front of a new one. */
  lemma MoveEntry(heap: map<Entry, Cell>, from: set<Entry>, table: seq<Entry?>, chains: seq<Chain>,
                        to: set<Entry>, newtable: seq<Entry?>, newchains: seq<Chain>, i: nat, index: nat)
    requires Shape(heap, from, table, chains) && Shape(heap, to, newtable, newchains) && from !! to
    requires i < |table| && chains[i] != [] && chains[i][0] in heap && index == heap[chains[i][0]].h % |newtable|
    ensures var e := chains[i][0]; var heap' := heap[e := heap[e].(next := newtable[index])];
            && e in from
            && Shape(heap', from - {e}, table[i := heap[e].next], chains[i := chains[i][1..]])
            && Shape(heap', to + {e}, newtable[index := e], newchains[index := [e] + newchains[index]])
  {
    var e := chains[i][0];
    var heap' := heap[e := heap[e].(next := newtable[index])];
    PopFront(heap, from, table, chains, i);
    SameOnLive(heap, heap', from - {e}, table[i := heap[e].next], chains[i := chains[i][1..]]);
    PushFront(heap, to, newtable, newchains, e, heap'[e], index);
  }

  lemma ShapeSize(heap: map<Entry, Cell>, live: set<Entry>, table: seq<Entry?>, chains: seq<Chain>)
    requires Shape(heap, live, table, chains)
    ensures 0 < |table| == |chains|
  {
  }

  lemma ShapeHead(heap: map<Entry, Cell>, live: set<Entry>, table: seq<Entry?>,
                        chains: seq<Chain>, i: nat)
    requires Shape(heap, live, table, chains) && i < |table|
    ensures |table| == |chains| && table[i] == At(chains[i], 0)
    ensures chains[i] != [] ==> chains[i][0] in live && chains[i][0] in heap
  {
    assert IsChain(heap, table[i], chains[i]);
  }

  lemma NothingLeft(heap: map<Entry, Cell>, live: set<Entry>, table: seq<Entry?>, chains: seq<Chain>)
    requires Shape(heap, live, table, chains) && forall q | 0 <= q < |chains| :: chains[q] == []
    ensures live == {}
  {
    assert forall e | e in live :: e in chains[heap[e].h % |table|];
  }

  // ---- the table ----

  const PRIMES: seq<nat> :=
    [53, 97, 193, 389, 769, 1543, 3079, 6151, 12289, 24593, 49157, 98317, 196613, 393241, 786433, 1572869, 3145739,
     6291469, 12582917, 25165843, 50331653, 100663319, 201326611, 402653189, 805306457, 1610612741]

  /** The load factor 0.65 as a 32-bit float, the quotient of these. */
  const LOAD_NUMERATOR: nat := 5452595
  const LOAD_DENOMINATOR: nat := 8388608

  /** The smallest whole number that is at least the load factor times the table length. */
  function LoadLimit(size: nat): nat { (LOAD_NUMERATOR * size + LOAD_DENOMINATOR - 1) / LOAD_DENOMINATOR }

  /** No smaller limit reaches the load factor, and this one does. */
  lemma LoadLimitIsLeast(size: nat, limit: nat)
    ensures LOAD_NUMERATOR * size <= LOAD_DENOMINATOR * limit <==> LoadLimit(size) <= limit
  {
  }

  /** From each listed prime to the next the limit goes up. */
  lemma LimitGrows(i: nat)
    requires i + 1 < |PRIMES|
    ensures LoadLimit(PRIMES[i]) < LoadLimit(PRIMES[i + 1])
  {
  }

  class HashTable {
    const hash: Key -> nat
    var table: array<Entry?>
    var entrycount: nat
    var loadlimit: nat
    var primeindex: nat
    ghost var repr: set<Entry>
    ghost var chains: seq<Chain>
    ghost var spot: map<Key, Entry>
    ghost var dict: map<Key, Info>

    ghost function Heap(): (m: map<Entry, Cell>)
      reads `repr, repr
      ensures m.Keys == repr
    {
      map e | e in repr :: Cell(e.k, e.v, e.h, e.next)
    }

    ghost predicate SizeOk()
      reads `primeindex, `table, `loadlimit
    {
      primeindex < |PRIMES| && table.Length == PRIMES[primeindex] && loadlimit == LoadLimit(table.Length)
    }

    ghost predicate Valid()
      reads this, table, repr
    {
      && SizeOk()
      && entrycount == |repr|
      && Shape(Heap(), repr, table[..], chains)
      && Represents(Heap(), hash, spot, dict)
    }

    /** No more entries than the load limit, unless the table is as long as it can get. */
    ghost predicate WithinLoad()
      reads `entrycount, `loadlimit, `primeindex
    {
      entrycount <= loadlimit || primeindex == |PRIMES| - 1
    }

    lemma Unpack()
      requires Valid()
      ensures SizeOk() && entrycount == |repr| && 0 < table.Length == |chains|
      ensures Shape(Heap(), repr, table[..], chains) && Represents(Heap(), hash, spot, dict)
    {
    }

    /** Records the new contents after the links and the set of entries have been changed. */
    method Record(count: nat, ghost chains': seq<Chain>, ghost spot': map<Key, Entry>, ghost dict': map<Key, Info>)
      requires SizeOk() && count == |repr|
      requires Shape(Heap(), repr, table[..], chains') && Represents(Heap(), hash, spot', dict')
      modifies this`entrycount, this`chains, this`spot, this`dict
      ensures Valid() && entrycount == count && chains == chains' && spot == spot' && dict == dict'
    {
      hide SizeOk, Shape, Represents;
      entrycount := count;
      chains, spot, dict := chains', spot', dict';
    }

    /** `arg_hashtable_create`: the smallest listed prime above the requested size. */
    constructor (minsize: nat, hash: Key -> nat)
      requires minsize <= 0x4000_0000
      ensures Valid() && dict == map[] && this.hash == hash && fresh(table) && repr == {}
      ensures table.Length > minsize && (primeindex > 0 ==> PRIMES[primeindex - 1] <= minsize) && WithinLoad()
    {
      var pindex := 0;
      while pindex < |PRIMES| && PRIMES[pindex] <= minsize
        invariant 0 <= pindex < |PRIMES| && (pindex > 0 ==> PRIMES[pindex - 1] <= minsize)
      {
        pindex := pindex + 1;
      }
      var size := PRIMES[pindex];
      this.hash := hash;
      this.table := new Entry?[size](_ => null);
      this.primeindex := pindex;
      this.entrycount := 0;
      this.loadlimit := LoadLimit(size);
      this.repr, this.spot, this.dict := {}, map[], map[];
      this.chains := seq(size, _ => []);
      new;
      EmptyShape(Heap(), table.Length);
      assert table[..] == seq<Entry?>(size, _ => null);
    }

    method EmptyTable(size: nat) returns (t: array<Entry?>)
      ensures fresh(t) && t[..] == seq<Entry?>(size, _ => null)
    {
      t := new Entry?[size](_ => null);
    }

    /** `arg_hashtable_expand`: moves every entry to a table of the next prime length. */
    method Expand() returns (ok: bool)
      requires Valid()
      modifies this, table, repr
      ensures Valid() && dict == old(dict) && spot == old(spot) && repr == old(repr) && entrycount == old(entrycount)
      ensures ok == (old(primeindex) != |PRIMES| - 1)
      ensures if ok then fresh(table) && primeindex == old(primeindex) + 1
              else table == old(table) && table[..] == old(table[..]) && Heap() == old(Heap())
                   && primeindex == old(primeindex) && loadlimit == old(loadlimit)
    {
      hide Shape, Represents;
      if primeindex == |PRIMES| - 1 {
        return false;
      }
      primeindex := primeindex + 1;
      var newsize := PRIMES[primeindex];
      var newtable := EmptyTable(newsize);
      chains := TransferAll(newtable);
      table := newtable;
      loadlimit := LoadLimit(newsize);
      ok := true;
    }

    /** The outer loop of `arg_hashtable_expand`: empties the buckets one after the other. */
    method TransferAll(newtable: array<Entry?>) returns (ghost newchains: seq<Chain>)
      requires Shape(Heap(), repr, table[..], chains) && Represents(Heap(), hash, spot, dict)
      requires newtable != table && newtable.Length > 0
      requires newtable[..] == seq<Entry?>(newtable.Length, _ => null)
      modifies this`chains, table, newtable, repr
      ensures Shape(Heap(), repr, newtable[..], newchains) && Represents(Heap(), hash, spot, dict)
    {
      hide Shape, Represents;
      ghost var from, to := repr, {};
      newchains := seq<Chain>(newtable.Length, _ => []);
      EmptyShape(Heap(), newtable.Length);
      ShapeSize(Heap(), from, table[..], chains);
      var i := 0;
      while i < table.Length
        invariant 0 <= i <= table.Length == |chains|
        invariant from + to == repr && from !! to
        invariant Shape(Heap(), from, table[..], chains) && Shape(Heap(), to, newtable[..], newchains)
        invariant Represents(Heap(), hash, spot, dict)
        invariant forall q | 0 <= q < i :: chains[q] == []
      {
        from, to, newchains := MoveBucket(i, newtable, from, to, newchains);
        i := i + 1;
      }
      NothingLeft(Heap(), from, table[..], chains);
      assert to == repr;
    }

    /** The inner loop of `arg_hashtable_expand`: empties bucket i. */
    method MoveBucket(i: nat, newtable: array<Entry?>, ghost from: set<Entry>, ghost to: set<Entry>,
                      ghost newchains: seq<Chain>)
      returns (ghost from': set<Entry>, ghost to': set<Entry>, ghost newchains': seq<Chain>)
      requires i < table.Length && newtable != table && from + to == repr && from !! to
      requires Shape(Heap(), from, table[..], chains) && Shape(Heap(), to, newtable[..], newchains)
      requires Represents(Heap(), hash, spot, dict)
      modifies this`chains, table, newtable, repr
      ensures from' + to' == repr && from' !! to'
      ensures Shape(Heap(), from', table[..], chains) && Shape(Heap(), to', newtable[..], newchains')
      ensures Represents(Heap(), hash, spot, dict)
      ensures |chains| == old(|chains|) && chains[i] == []
      ensures forall q | 0 <= q < |chains| && q != i :: chains[q] == old(chains)[q]
    {
      hide Shape, Represents;
      from', to', newchains' := from, to, newchains;
      ShapeHead(Heap(), from, table[..], chains, i);
      ShapeSize(Heap(), to, newtable[..], newchains);
      while table[i] != null
        invariant from' + to' == repr && from' !! to' && i < |chains| == table.Length == old(|chains|)
        invariant repr == old(repr) && 0 < newtable.Length
        invariant Shape(Heap(), from', table[..], chains) && Shape(Heap(), to', newtable[..], newchains')
        invariant Represents(Heap(), hash, spot, dict)
        invariant table[i] == At(chains[i], 0)
        invariant forall q | 0 <= q < |chains| && q != i :: chains[q] == old(chains)[q]
        decreases |chains[i]|
      {
        from', to', newchains' := MoveHead(i, newtable, from', to', newchains');
      }
    }

    /** One step of the inner loop, with what it does to the two shapes. */
    method MoveHead(i: nat, newtable: array<Entry?>, ghost from: set<Entry>, ghost to: set<Entry>,
                    ghost newchains: seq<Chain>)
      returns (ghost from': set<Entry>, ghost to': set<Entry>, ghost newchains': seq<Chain>)
      requires i < table.Length && 0 < newtable.Length && newtable != table && from + to == repr && from !! to
      requires Shape(Heap(), from, table[..], chains) && Shape(Heap(), to, newtable[..], newchains)
      requires Represents(Heap(), hash, spot, dict) && |chains| == table.Length && table[i] != null
      modifies this`chains, table, newtable, repr
      ensures from' + to' == repr && from' !! to'
      ensures Shape(Heap(), from', table[..], chains) && Shape(Heap(), to', newtable[..], newchains')
      ensures Represents(Heap(), hash, spot, dict)
      ensures old(chains)[i] != [] && chains == old(chains)[i := old(chains)[i][1..]] && table[i] == At(chains[i], 0)
    {
      hide Shape, Represents;
      ghost var heap, t, nt := Heap(), table[..], newtable[..];
      ShapeHead(heap, from, t, chains, i);
      ghost var e, index := Relink(i, newtable);
      ShapeSize(heap, to, nt, newchains);
      MoveEntry(heap, from, t, chains, to, nt, newchains, i, index);
      RepresentsRelinked(heap, Heap(), hash, spot, dict);
      from', to', newchains' := from - {e}, to + {e}, newchains[index := [e] + newchains[index]];
      chains := chains[i := chains[i][1..]];
      ShapeHead(Heap(), from', table[..], chains, i);
    }

    /** The head entry of bucket i becomes the head of its new bucket. */
    method Relink(i: nat, newtable: array<Entry?>) returns (ghost e: Entry, ghost index: nat)
      requires i < table.Length && newtable != table && 0 < newtable.Length && table[i] != null && table[i] in repr
      modifies table, newtable, repr
      ensures e == old(table[i]) && index == e.h % newtable.Length
      ensures Heap() == old(Heap())[e := old(Heap())[e].(next := old(newtable[index]))]
      ensures table[..] == old(table[..])[i := old(Heap())[e].next]
      ensures newtable[..] == old(newtable[..])[index := e]
    {
      var entry: Entry := table[i];
      table[i] := entry.next;
      var slot := entry.h % newtable.Length;
      entry.next := newtable[slot];
      newtable[slot] := entry;
      e, index := entry, slot;
    }

    /** `arg_hashtable_insert` of a key that is not in the table. */
    method Insert(k: Key, v: Info)
      requires Valid() && k !in dict
      modifies this, table, repr
      ensures Valid() && dict == old(dict)[k := v] && entrycount == old(entrycount) + 1
      ensures fresh(repr - old(repr)) && (table == old(table) || fresh(table))
      ensures var full := old(entrycount) + 1 > old(loadlimit) && old(primeindex) != |PRIMES| - 1;
              primeindex == old(primeindex) + (if full then 1 else 0) && (full <==> table != old(table))
      ensures old(WithinLoad()) ==> WithinLoad()
    {
      hide Shape, Represents;
      if entrycount + 1 > loadlimit {
        if primeindex + 1 < |PRIMES| { LimitGrows(primeindex); }
        var _ := Expand();
      }
      Add(k, v);
    }

    /** The part of `arg_hashtable_insert` after the table has been expanded if need be. */
    method Add(k: Key, v: Info)
      requires Valid() && k !in dict
      modifies this, table, repr
      ensures Valid() && dict == old(dict)[k := v] && entrycount == old(entrycount) + 1
      ensures fresh(repr - old(repr)) && table == old(table)
      ensures primeindex == old(primeindex) && loadlimit == old(loadlimit)
    {
      hide Valid, SizeOk, Shape, Represents;
      Unpack();
      ghost var heap, t := Heap(), table[..];
      ghost var e, index := LinkFront(k, v);
      ghost var cell := Cell(k, v, hash(k), t[index]);
      PushFront(heap, old(repr), t, chains, e, cell, index);
      RepresentsInsert(heap, hash, spot, dict, e, cell);
      Record(entrycount + 1, chains[index := [e] + chains[index]], spot[k := e], dict[k := v]);
    }

    method LinkFront(k: Key, v: Info) returns (ghost e: Entry, ghost index: nat)
      requires table.Length > 0
      modifies this`repr, table
      ensures fresh(e) && index == hash(k) % table.Length && repr == old(repr) + {e} && |repr| == |old(repr)| + 1
      ensures table[..] == old(table[..])[index := e]
      ensures Heap() == old(Heap())[e := Cell(k, v, hash(k), old(table[index]))]
    {
      var hashvalue := hash(k);
      var slot := hashvalue % table.Length;
      var entry := new Entry(k, v, hashvalue, table[slot]);
      table[slot] := entry;
      repr := repr + {entry};
      e, index := entry, slot;
    }

    /** `arg_hashtable_search`. */
    method Search(k: Key) returns (found: Option<Info>)
      requires Valid()
      ensures found == if k in dict then Some(dict[k]) else None
    {
      hide Shape, Represents;
      ShapeSize(Heap(), repr, table[..], chains);
      var hashvalue := hash(k);
      var entry, parent, j := Walk(k, hashvalue, hashvalue % table.Length);
      found := if entry != null then Some(entry.v) else None;
    }

    lemma WalkFacts(k: Key, index: nat)
      requires Valid() && table.Length > 0 && index == hash(k) % table.Length
      ensures index < |chains| && table[index] == At(chains[index], 0)
      ensures forall q | 0 <= q < |chains[index]| ::
                chains[index][q] in repr && chains[index][q].next == At(chains[index], q + 1)
      ensures forall q | 0 <= q < |chains[index]| :: chains[index][q].h == hash(chains[index][q].k)
      ensures forall q | 0 <= q < |chains[index]| && chains[index][q].k == k ::
                k in dict && dict[k] == chains[index][q].v
      ensures k in dict ==> exists q :: 0 <= q < |chains[index]| && chains[index][q].k == k
    {
      KeyInBucket(Heap(), hash, spot, dict, table[..], chains, k);
      var c := chains[index];
      assert IsChain(Heap(), table[..][index], c);
      forall q | 0 <= q < |c|
        ensures c[q] in repr && c[q].next == At(c, q + 1) && c[q].h == hash(c[q].k)
        ensures c[q].k == k ==> k in dict && dict[k] == c[q].v
      {
        assert Heap()[c[q]] == Cell(c[q].k, c[q].v, c[q].h, c[q].next);
      }
      if k in dict {
        var q :| 0 <= q < |c| && c[q] == spot[k];
        assert c[q].k == k;
      }
    }

    /** The bucket walk shared by search and removal: the entry with key k and its predecessor. */
    method Walk(k: Key, hashvalue: nat, index: nat) returns (e: Entry?, parent: Entry?, ghost j: nat)
      requires Valid() && table.Length > 0 && hashvalue == hash(k) && index == hash(k) % table.Length
      ensures index < |chains| && (e == null <==> k !in dict)
      ensures e != null ==> k in dict && e.k == k && e.v == dict[k] && e in repr
      ensures parent != null ==> parent in repr
      ensures e != null ==> j < |chains[index]| && e == chains[index][j] && parent == Before(chains[index], j)
    {
      hide Valid, Shape, Represents, At, Before;
      WalkFacts(k, index);
      ghost var c := chains[index];
      e, parent, j := table[index], null, 0;
      WalkStart(c);
      while e != null
        invariant j <= |c| && e == At(c, j) && parent == Before(c, j)
        invariant (parent != null ==> parent in repr) && forall q | 0 <= q < j :: c[q].k != k
        decreases |c| - j
      {
        WalkStep(c, j);
        if hashvalue == e.h && k == e.k {
          return;
        }
        parent := e;
        e := e.next;
        j := j + 1;
      }
      WalkEnd(c, j);
    }

    /** `arg_hashtable_remove`: unlinks and frees the entry with key k, if there is one. */
    method Remove(k: Key)
      requires Valid()
      modifies this, table, repr
      ensures Valid() && dict == old(dict) - {k} && table == old(table) && repr <= old(repr)
      ensures entrycount == if k in old(dict) then old(entrycount) - 1 else old(entrycount)
      ensures primeindex == old(primeindex) && loadlimit == old(loadlimit)
    {
      hide Shape, Represents;
      ShapeSize(Heap(), repr, table[..], chains);
      var hashvalue := hash(k);
      var index := hashvalue % table.Length;
      var e, parent, j := Walk(k, hashvalue, index);
      if e != null {
        RemoveAt(index, j, e, parent);
      } else {
        assert dict - {k} == dict;
      }
    }

    /** Bypasses the entry e, which is the j-th of its bucket, through the table slot when it has no
      * predecessor and through the predecessor's link otherwise, and frees it. */
    method RemoveAt(index: nat, ghost j: nat, e: Entry, parent: Entry?)
      requires Valid() && index < table.Length && index < |chains| && j < |chains[index]|
      requires e == chains[index][j] && e in repr
      requires parent == Before(chains[index], j)
      modifies this, table, Linked(parent)
      ensures Valid() && table == old(table) && repr == old(repr) - {e} && entrycount == old(entrycount) - 1
      ensures e.k in old(dict) && dict == old(dict) - {e.k}
      ensures primeindex == old(primeindex) && loadlimit == old(loadlimit)
      ensures chains == old(chains)[index := old(chains[index])[..j] + old(chains[index])[j + 1..]]
    {
      hide Valid, SizeOk, Shape, Represents, Bypassed, Reslotted;
      Unpack();
      ghost var heap, t, c := Heap(), table[..], chains[index];
      BypassedAndFreed(heap, t, chains, index, j, hash, spot, dict);
      BypassAndFree(index, e, parent, c, j);
      Record(entrycount - 1, chains[index := c[..j] + c[j + 1..]], spot - {e.k}, dict - {e.k});
    }

    method BypassAndFree(index: nat, e: Entry, parent: Entry?, ghost c: Chain, ghost j: nat)
      requires index < table.Length && e in repr && (parent != null ==> parent in repr && parent != e)
      requires j < |c| && e == c[j] && parent == Before(c, j)
      modifies this`repr, table, Linked(parent)
      ensures repr == old(repr) - {e} && |repr| == |old(repr)| - 1
      ensures table[..] == Reslotted(old(table[..]), index, j, old(Heap())[e].next)
      ensures Heap() == Bypassed(old(Heap()), c, j) - {e}
    {
      if parent == null {
        table[index] := e.next;
      } else {
        parent.next := e.next;
      }
      repr := repr - {e};
    }

    /** `arg_cmd_register`: replaces what is registered under the name. */
    method Register(k: Key, v: Info)
      requires Valid()
      modifies this, table, repr
      ensures Valid() && dict == old(dict)[k := v] && (old(WithinLoad()) ==> WithinLoad())
      ensures fresh(repr - old(repr)) && (table == old(table) || fresh(table))
    {
      hide Shape, Represents;
      var info := Search(k);
      if info.Some? {
        Remove(k);
      }
      Insert(k, v);
    }

    /** `arg_cmd_unregister`. */
    method Unregister(k: Key)
      requires Valid()
      modifies this, table, repr
      ensures Valid() && dict == old(dict) - {k}
    {
      Remove(k);
    }
  }

  /** The heap after the j-th entry of a bucket has been bypassed. */
  ghost function Bypassed(heap: map<Entry, Cell>, c: Chain, j: nat): map<Entry, Cell>
    requires j < |c| && c[j] in heap && (j > 0 ==> c[j - 1] in heap)
  {
    if j == 0 then heap else heap[c[j - 1] := heap[c[j - 1]].(next := heap[c[j]].next)]
  }

  ghost function Reslotted(table: seq<Entry?>, index: nat, j: nat, next: Entry?): seq<Entry?>
    requires index < |table|
  {
    if j == 0 then table[index := next] else table
  }

  lemma BypassedAndFreed(heap: map<Entry, Cell>, table: seq<Entry?>, chains: seq<Chain>, index: nat, j: nat,
                         hash: Key -> nat, spot: map<Key, Entry>, dict: map<Key, Info>)
    requires Shape(heap, heap.Keys, table, chains) && Represents(heap, hash, spot, dict)
    requires index < |table| && index < |chains| && j < |chains[index]|
    ensures var c := chains[index]; var e := c[j];
            && e in heap && (j > 0 ==> c[j - 1] in heap && c[j - 1] != e)
            && heap[e].k in dict
            && Shape(Bypassed(heap, c, j) - {e}, heap.Keys - {e}, Reslotted(table, index, j, heap[e].next),
                     chains[index := c[..j] + c[j + 1..]])
            && Represents(Bypassed(heap, c, j) - {e}, hash, spot - {heap[e].k}, dict - {heap[e].k})
  {
    hide Shape, IsChain, Represents;
    var c := chains[index];
    var e := c[j];
    UnlinkLemma(heap, heap.Keys, table, chains, index, j);
    var heap' := Bypassed(heap, c, j);
    SameOnLive(heap', heap' - {e}, heap.Keys - {e}, Reslotted(table, index, j, heap[e].next),
               chains[index := c[..j] + c[j + 1..]]);
    RepresentsRemove(heap, heap' - {e}, hash, spot, dict, e);
  }

  lemma UnlinkLemma(heap: map<Entry, Cell>, live: set<Entry>, table: seq<Entry?>, chains: seq<Chain>,
                    index: nat, j: nat)
    requires Shape(heap, live, table, chains) && index < |table| && index < |chains| && j < |chains[index]|
    ensures var c := chains[index]; var e := c[j]; var chains' := chains[index := c[..j] + c[j + 1..]];
            && e in live && e in heap
            && (j == 0 ==> Shape(heap, live - {e}, table[index := heap[e].next], chains'))
            && (j > 0 ==> c[j - 1] in heap && c[j - 1] != e)
            && (j > 0 ==> Shape(heap[c[j - 1] := heap[c[j - 1]].(next := heap[e].next)], live - {e}, table, chains'))
  {
    hide IsChain;
    var c := chains[index];
    if j == 0 {
      PopFront(heap, live, table, chains, index);
      assert c[..0] + c[1..] == c[1..];
    } else {
      Unlink(heap, live, table, chains, index, j);
    }
  }

  // ---- the iterator ----

  /** All entries, bucket by bucket: the order of iteration. */
  ghost function Flat(chains: seq<Chain>): Chain {
    if chains == [] then [] else chains[0] + Flat(chains[1..])
  }

  /** The entries of the buckets from i on. */
  ghost function FromBucket(heap: map<Entry, Cell>, live: set<Entry>, n: nat, i: nat): (r: set<Entry>)
    requires n > 0 && live <= heap.Keys
  {
    set e | e in live && heap[e].h % n >= i
  }

  /** Iteration order lists every entry exactly once. */
  lemma {:induction false} FlatOnce(heap: map<Entry, Cell>, live: set<Entry>, table: seq<Entry?>, chains: seq<Chain>,
                                    i: nat)
    requires Shape(heap, live, table, chains) && i <= |chains|
    ensures multiset(Flat(chains[i..])) == multiset(FromBucket(heap, live, |table|, i))
    ensures i == 0 ==> multiset(Flat(chains)) == multiset(live)
    decreases |chains| - i
  {
    if i == |chains| {
      assert FromBucket(heap, live, |table|, i) == {};
    } else {
      hide Shape;
      FlatOnce(heap, live, table, chains, i + 1);
      BucketOnce(heap, live, table, chains, i);
      assert chains[i..][0] == chains[i] && chains[i..][1..] == chains[i + 1..];
    }
    if i == 0 {
      assert chains[0..] == chains;
      assert FromBucket(heap, live, |table|, 0) == live;
    }
  }

  lemma BucketOnce(heap: map<Entry, Cell>, live: set<Entry>, table: seq<Entry?>, chains: seq<Chain>, i: nat)
    requires Shape(heap, live, table, chains) && i < |chains|
    ensures |table| > 0 && live <= heap.Keys
    ensures multiset(FromBucket(heap, live, |table|, i))
         == multiset(chains[i]) + multiset(FromBucket(heap, live, |table|, i + 1))
  {
    hide Shape, IsChain;
    BucketMembers(heap, live, table, chains, i);
    var c, now, later := chains[i], FromBucket(heap, live, |table|, i), FromBucket(heap, live, |table|, i + 1);
    DistinctMultiset(c);
    assert now == (set e | e in c) + later;
  }

  /** A bucket holds exactly the entries of its number, without repetition. */
  lemma BucketMembers(heap: map<Entry, Cell>, live: set<Entry>, table: seq<Entry?>, chains: seq<Chain>, i: nat)
    requires Shape(heap, live, table, chains) && i < |chains|
    ensures |table| > 0 && live <= heap.Keys
    ensures forall e :: e in chains[i] <==> e in live && heap[e].h % |table| == i
    ensures forall j, k | 0 <= j < k < |chains[i]| :: chains[i][j] != chains[i][k]
  {
    assert IsChain(heap, table[i], chains[i]);
    forall e
      ensures e in chains[i] <==> e in live && heap[e].h % |table| == i
    {
      if e in chains[i] {
        var j :| 0 <= j < |chains[i]| && chains[i][j] == e;
        assert heap[chains[i][j]].h % |table| == i;
      }
    }
  }

  lemma {:induction false} DistinctMultiset(c: Chain)
    requires forall i, j | 0 <= i < j < |c| :: c[i] != c[j]
    ensures multiset(c) == multiset(set e | e in c)
  {
    if c != [] {
      var n := |c| - 1;
      DistinctMultiset(c[..n]);
      assert c == c[..n] + [c[n]];
      assert (set e | e in c) == (set e | e in c[..n]) + {c[n]};
    }
  }

  ghost function Rest(chains: seq<Chain>, index: nat, pos: nat): Chain {
    if index < |chains| && pos < |chains[index]| then chains[index][pos..] + Flat(chains[index + 1..]) else []
  }

  lemma FlatEnd(chains: seq<Chain>)
    ensures Flat(chains[|chains|..]) == []
  {
  }

  lemma FlatSkip(chains: seq<Chain>, i: nat)
    requires i < |chains|
    ensures Flat(chains[i..]) == chains[i] + Flat(chains[i + 1..])
    ensures chains[i] == [] ==> Flat(chains[i..]) == Flat(chains[i + 1..])
    ensures chains[i] != [] ==> Flat(chains[i..]) == Rest(chains, i, 0)
  {
    assert chains[i..][0] == chains[i] && chains[i..][1..] == chains[i + 1..];
    assert chains[i][0..] == chains[i];
  }

  /** The current entry moves from the ones to be visited to the visited ones. */
  lemma VisitNext(visited: Chain, todo: Chain, order: Chain)
    requires visited + todo == order && todo != []
    ensures visited + [todo[0]] + todo[1..] == order
  {
    assert todo == [todo[0]] + todo[1..];
  }

  lemma RestNext(chains: seq<Chain>, index: nat, pos: nat)
    requires index < |chains| && pos < |chains[index]|
    ensures Rest(chains, index, pos) != [] && Rest(chains, index, pos)[0] == chains[index][pos]
    ensures Rest(chains, index, pos)[1..]
         == if pos + 1 < |chains[index]| then Rest(chains, index, pos + 1) else Flat(chains[index + 1..])
  {
    var c := chains[index];
    assert c[pos..] == [c[pos]] + c[pos + 1..];
    assert (c[pos..] + Flat(chains[index + 1..]))[1..] == c[pos + 1..] + Flat(chains[index + 1..]);
  }

  lemma RestAfterRemoval(chains: seq<Chain>, index: nat, pos: nat)
    requires index < |chains| && pos < |chains[index]|
    ensures var c := chains[index]; var chains' := chains[index := c[..pos] + c[pos + 1..]];
            && At(chains'[index], pos) == At(c, pos + 1) && Before(chains'[index], pos) == Before(c, pos)
            && Rest(chains, index, pos)[1..]
               == if pos < |chains'[index]| then Rest(chains', index, pos) else Flat(chains'[index + 1..])
  {
    var c := chains[index];
    var chains' := chains[index := c[..pos] + c[pos + 1..]];
    RestNext(chains, index, pos);
    assert chains'[index][pos..] == c[pos + 1..];
    assert chains'[index + 1..] == chains[index + 1..];
  }

  class Iterator {
    const table: HashTable
    var e: Entry?
    var parent: Entry?
    var index: nat
    ghost var pos: nat
    ghost var visited: Chain     // the entries that have been current and have been passed or removed
    ghost const order: Chain     // the iteration order when the iterator was created

    /** The entries still to be visited, the current one first. */
    ghost function Todo(): Chain
      reads `e, `index, `pos, table`chains
    {
      if e == null then [] else Rest(table.chains, index, pos)
    }

    /** The current entry is the one at `pos` in bucket `index`, and `parent` links to it. */
    ghost predicate AtEntry()
      reads `e, `parent, `index, `pos, table`chains
    {
      e != null ==> index < |table.chains| && pos < |table.chains[index]| && e == table.chains[index][pos]
                    && parent == Before(table.chains[index], pos)
    }

    ghost predicate Valid()
      reads this, table, table.table, table.repr
    {
      table.Valid() && AtEntry() && visited + Todo() == order
    }

    /** `arg_hashtable_itr_create`. */
    constructor (table: HashTable)
      requires table.Valid()
      ensures Valid() && this.table == table && visited == [] && Todo() == order == Flat(table.chains)
    {
      hide HashTable.Valid, HashTable.SizeOk, Shape, Represents, IsChain, Flat, Rest, AtEntry;
      this.table := table;
      this.order := Flat(table.chains);
      this.visited := [];
      this.e, this.parent, this.pos := null, null, 0;
      this.index := table.table.Length;
      new;
      assert table.chains[0..] == table.chains;
      if table.entrycount == 0 {
        EmptyFlat();
      } else {
        table.Unpack();
        FirstFrom(0);
      }
    }

    lemma EmptyFlat()
      requires table.Valid() && table.entrycount == 0 && e == null
      ensures Flat(table.chains) == [] && AtEntry()
    {
      FlatOnce(table.Heap(), table.repr, table.table[..], table.chains, 0);
      assert |multiset(Flat(table.chains))| == |multiset(table.repr)|;
    }

    /** The loop over the table slots: the next non-empty bucket from j on, or the table length. */
    method NonEmptyFrom(j: nat) returns (i: nat)
      requires table.Valid() && j <= table.table.Length
      ensures j <= i <= table.table.Length == |table.chains| && (i < table.table.Length ==> table.table[i] != null)
      ensures Flat(table.chains[i..]) == Flat(table.chains[j..])
    {
      hide HashTable.Valid, HashTable.SizeOk, Shape, Represents, IsChain, Flat, Rest;
      i := j;
      table.Unpack();
      while i < table.table.Length && table.table[i] == null
        invariant j <= i <= table.table.Length
        invariant Flat(table.chains[i..]) == Flat(table.chains[j..])
      {
        SlotFacts(i);
        i := i + 1;
      }
    }

    /** Makes the first entry of the buckets from j on the current one. */
    method FirstFrom(j: nat)
      requires table.Valid() && j <= table.table.Length
      modifies this`e, this`index, this`pos, this`parent
      ensures parent == null && Todo() == Flat(table.chains[j..]) && AtEntry()
    {
      hide HashTable.Valid, HashTable.SizeOk, Shape, Represents, IsChain, Flat, Rest;
      var i := NonEmptyFrom(j);
      parent, pos := null, 0;
      index := i;
      if i < table.table.Length {
        SlotFacts(i);
        e := table.table[i];
      } else {
        e := null;
        FlatEnd(table.chains);
      }
    }

    lemma SlotFacts(i: nat)
      requires table.Valid() && i < table.table.Length
      ensures i < |table.chains|
      ensures table.table[i] == null ==> Flat(table.chains[i..]) == Flat(table.chains[i + 1..])
      ensures table.table[i] != null ==> table.chains[i] != [] && table.table[i] == table.chains[i][0]
      ensures table.table[i] != null ==> Flat(table.chains[i..]) == Rest(table.chains, i, 0)
    {
      hide Shape, Represents, Flat, Rest;
      ShapeHead(table.Heap(), table.repr, table.table[..], table.chains, i);
      FlatSkip(table.chains, i);
    }

    /** The body of `arg_hashtable_itr_advance`: `np` is where the successor of the current entry
      * stands in its bucket. */
    method Step(ghost np: nat) returns (more: bool)
      requires table.Valid() && e != null && index < |table.chains| && e.next == At(table.chains[index], np)
      modifies this`e, this`index, this`pos, this`parent
      ensures more == (e != null)
      ensures Todo() == if np < |old(table.chains[index])| then Rest(table.chains, old(index), np)
                        else Flat(table.chains[old(index) + 1..])
      ensures old(e.next) != null ==> e == old(e.next) && parent == old(e) && index == old(index) && pos == np
      ensures old(e.next) == null ==> parent == null && AtEntry()
    {
      hide HashTable.Valid, HashTable.SizeOk, Shape, Represents, IsChain, Flat, Rest;
      var next := e.next;
      if next != null {
        parent := e;
        e := next;
        pos := np;
        return true;
      }
      table.Unpack();
      FirstFrom(index + 1);
      more := e != null;
    }

    /** `arg_hashtable_itr_advance`. */
    method Advance() returns (more: bool)
      requires Valid()
      modifies this`e, this`index, this`pos, this`parent, this`visited
      ensures Valid() && more == (e != null)
      ensures if old(e) == null then e == null && visited == old(visited)
              else Todo() == old(Todo())[1..] && visited == old(visited) + [old(e)]
    {
      hide HashTable.Valid, HashTable.SizeOk, Shape, Represents, IsChain, Flat, Rest;
      if e == null {
        return false;
      }
      ghost var e0, todo, p := e, Todo(), pos;
      NextInBucket();
      RestNext(table.chains, index, pos);
      more := Step(pos + 1);
      VisitNext(visited, todo, order);
      visited := visited + [e0];
    }

    lemma NextInBucket()
      requires Valid() && e != null
      ensures e in table.repr && parent != e && (parent != null ==> parent in table.repr)
      ensures e.next == At(table.chains[index], pos + 1) && index < table.table.Length == |table.chains|
    {
      table.Unpack();
      assert IsChain(table.Heap(), table.table[..][index], table.chains[index]);
      assert table.Heap()[e].next == e.next;
    }

    /** `arg_hashtable_itr_remove`: removes the current entry and moves on to the next one. */
    method Remove() returns (more: bool)
      requires Valid() && e != null
      modifies this, table, table.table, table.repr
      ensures Valid() && more == (e != null)
      ensures old(e).k in old(table.dict) && table.dict == old(table.dict) - {old(e).k}
      ensures Todo() == old(Todo())[1..] && visited == old(visited) + [old(e)]
    {
      hide HashTable.Valid, AtEntry, Todo;
      ghost var e0, todo := e, Todo();
      CurrentFirst();
      more := RemoveCurrent();
      VisitNext(visited, todo, order);
      visited := visited + [e0];
    }

    lemma CurrentFirst()
      requires Valid() && e != null
      ensures Todo() != [] && Todo()[0] == e
    {
      hide HashTable.Valid, Rest;
      RestNext(table.chains, index, pos);
    }

    /** The removal itself: the entry leaves the table, and the iterator stands at its successor, whose
      * predecessor is the removed entry's. */
    method RemoveCurrent() returns (more: bool)
      requires Valid() && e != null
      modifies this`e, this`index, this`pos, this`parent, table, table.table, table.repr
      ensures table.Valid() && AtEntry() && more == (e != null)
      ensures old(e).k in old(table.dict) && table.dict == old(table.dict) - {old(e).k}
      ensures old(Todo()) != [] && Todo() == old(Todo())[1..]
    {
      hide HashTable.Valid, HashTable.SizeOk, Shape, Represents, IsChain, Flat, Rest;
      var rememberE: Entry, rememberParent := e, parent;
      NextInBucket();
      RestNext(table.chains, index, pos);
      RestAfterRemoval(table.chains, index, pos);
      table.RemoveAt(index, pos, e, parent);
      more := Step(pos);
      if parent == rememberE {
        parent := rememberParent;
      }
    }
  }
}
