/**
 The chained hash table behind subscription callbacks: buckets of linked
 entries, doubled when full, and an iterator that survives deletion of the
 entry it has just returned.
 */
module Dict {
  import opened CallbackList

  const HT_INITIAL_SIZE := 4

  // ------------------------------------------------------------------- hashing

  /** Bernstein's hash on 32-bit words. */
  function HashFrom(hash: nat, key: string): (h: nat)
    decreases |key|
  {
    if key == "" then hash else HashFrom((hash * 33 + key[0] as int) % 0x1_0000_0000, key[1..])
  }

  function Hash(key: string): nat {
    HashFrom(5381, key)
  }

  /** Bitwise and. */
  function BitAnd(a: nat, b: nat): (r: nat)
    ensures r <= b
  {
    if a == 0 || b == 0 then 0
    else 2 * BitAnd(a / 2, b / 2) + (if a % 2 == 1 && b % 2 == 1 then 1 else 0)
  }

  /** Each byte multiplies the hash by 33 and is added, on 32 bits, from 5381 on. */
  lemma {:induction false} HashOfOneMore(key: string, c: char)
    ensures Hash("") == 5381 && Hash(key + [c]) == (33 * Hash(key) + c as int) % 0x1_0000_0000
  {
    HashFromOneMore(5381, key, c);
  }

  lemma {:induction false} HashFromOneMore(hash: nat, key: string, c: char)
    ensures HashFrom(hash, key + [c]) == (33 * HashFrom(hash, key) + c as int) % 0x1_0000_0000
    decreases |key|
  {
    if key == "" {
      assert key + [c] == [c] && [c][1..] == "";
    } else {
      assert (key + [c])[1..] == key[1..] + [c];
      HashFromOneMore((hash * 33 + key[0] as int) % 0x1_0000_0000, key[1..], c);
    }
  }

  /** Masking with one less than a power of two is taking the remainder. */
  lemma {:induction false} MaskIsRemainder(a: nat, n: nat)
    requires PowerOfTwo(n)
    ensures BitAnd(a, n - 1) == a % n
    decreases n
  {
    if n > 1 {
      var h := n / 2;
      MaskIsRemainder(a / 2, h);
      LastBit(a, n - 1);
      Doubled(a, h, n);
    }
  }

  lemma LastBit(a: nat, mask: nat)
    requires mask % 2 == 1
    ensures BitAnd(a, mask) == 2 * BitAnd(a / 2, mask / 2) + a % 2
  {
  }

  lemma Doubled(a: nat, h: nat, n: nat)
    requires h > 0 && n == 2 * h
    ensures a % n == 2 * (a / 2 % h) + a % 2
  {
    var b := a / 2;
    Quotient(b, h);
    Twice(h, b / h);
    RemainderIs(a, n, b / h, 2 * (b % h) + a % 2);
  }

  lemma Twice(h: nat, q: nat)
    ensures (2 * h) * q == 2 * (h * q)
  {
  }

  lemma Quotient(b: nat, h: nat)
    requires h > 0
    ensures b == h * (b / h) + b % h && b % h < h
  {
  }

  lemma RemainderIs(a: nat, n: nat, q: nat, r: nat)
    requires r < n && a == n * q + r
    ensures a % n == r
  {
    var q' := a / n;
    Quotient(a, n);
    if q' < q {
      Larger(n, q', q);
    } else if q < q' {
      Larger(n, q, q');
    }
  }

  lemma {:induction false} Larger(n: nat, x: nat, y: nat)
    requires x < y
    ensures n * x + n <= n * y
    decreases y
  {
    OneMoreTime(n, y - 1);
    if x + 1 < y {
      Larger(n, x, y - 1);
    }
  }

  lemma OneMoreTime(n: nat, x: nat)
    ensures n * (x + 1) == n * x + n
  {
  }

  /** Finds the bucket of a key in a table of a given size. */
  type Slot = (string, nat) -> nat

  ghost predicate InRange(slot: Slot) {
    forall key, size: nat :: size > 0 ==> slot(key, size) < size
  }

  predicate PowerOfTwo(n: nat) {
    n == 1 || (n > 1 && n % 2 == 0 && PowerOfTwo(n / 2))
  }

  /** The smallest table size, from four up, that holds `size` entries. */
  method NextPower(size: nat) returns (i: nat)
    ensures PowerOfTwo(i) && i >= HT_INITIAL_SIZE && i >= size
    ensures i == HT_INITIAL_SIZE || i < 2 * size
  {
    i := HT_INITIAL_SIZE;
    assert PowerOfTwo(2);
    while i < size
      invariant PowerOfTwo(i) && i >= HT_INITIAL_SIZE
      invariant i == HT_INITIAL_SIZE || i < 2 * size
      decreases size - i
    {
      i := i * 2;
    }
  }

  // -------------------------------------------------------------------- chains

  class DictEntry {
    const key: string
    var val: Callback
    var next: DictEntry?

    constructor (key: string, val: Callback)
      ensures this.key == key && this.val == val
    {
      this.key, this.val, next := key, val, null;
    }
  }

  type Chain = seq<DictEntry>

  /** Entry `j` of a chain; null behind its end. */
  function At(c: Chain, j: nat): DictEntry? {
    if j < |c| then c[j] else null
  }

  /** The entries of `c` hang together by their `next` links, the last one's being null. */
  ghost predicate Linked(c: Chain, repr: set<DictEntry>)
    reads repr`next
  {
    && (forall j :: 0 <= j < |c| ==> c[j] in repr)
    && (forall j {:trigger c[j].next} :: 0 <= j < |c| ==> c[j].next == At(c, j + 1))
  }

  ghost predicate TableOk(table: array<DictEntry?>, chains: seq<Chain>, repr: set<DictEntry>)
    reads table, repr`next
  {
    && table.Length == |chains|
    && (forall i :: 0 <= i < |chains| ==> table[i] == At(chains[i], 0))
    && (forall i, j :: 0 <= i < |chains| && 0 <= j < |chains[i]| ==> chains[i][j] in repr)
    && (forall i, j {:trigger chains[i][j].next} :: 0 <= i < |chains| && 0 <= j < |chains[i]| ==>
          chains[i][j].next == At(chains[i], j + 1))
  }

  predicate Distinct(c: Chain) {
    c == [] || (c[0] !in c[1..] && Distinct(c[1..]))
  }

  lemma {:induction false} DistinctAt(c: Chain, j: nat)
    requires Distinct(c) && j < |c|
    ensures c[j] !in c[..j]
    decreases |c|
  {
    if j > 0 {
      DistinctAt(c[1..], j - 1);
      assert c[1..][..j - 1] == c[..j][1..];
      assert c[j] in c[1..];
      assert c[..j] == [c[0]] + c[..j][1..];
    }
  }

  /** A chain whose links end in null does not come back to an entry. */
  lemma {:induction false} LinksNeverReturn(c: Chain, j: nat, k: nat)
    requires forall i {:trigger c[i].next} :: 0 <= i < |c| ==> c[i].next == At(c, i + 1)
    requires j < k < |c|
    ensures c[j] != c[k]
    decreases |c| - k
  {
    if c[j] == c[k] {
      assert c[j].next == c[k].next;
      if k + 1 < |c| {
        LinksNeverReturn(c, j + 1, k + 1);
      }
    }
  }

  lemma {:induction false} LinkedIsDistinct(c: Chain, j: nat)
    requires forall i {:trigger c[i].next} :: 0 <= i < |c| ==> c[i].next == At(c, i + 1)
    requires j <= |c|
    ensures Distinct(c[j..])
    decreases |c| - j
  {
    if j < |c| {
      LinkedIsDistinct(c, j + 1);
      assert c[j..][1..] == c[j + 1..];
      forall k | j < k < |c| ensures c[j] != c[k] {
        LinksNeverReturn(c, j, k);
      }
    }
  }

  /** The entries of `held` are in the buckets of their keys, each once. */
  ghost predicate Gathered(slot: Slot, chains: seq<Chain>, held: set<DictEntry>)
    requires InRange(slot)
  {
    && (forall i, j :: 0 <= i < |chains| && 0 <= j < |chains[i]| ==>
          chains[i][j] in held && slot(chains[i][j].key, |chains|) == i)
    && (forall e :: e in held && |chains| > 0 ==> e in chains[slot(e.key, |chains|)])
    && (|chains| == 0 ==> held == {})
  }

  /** Keys are unique: an entry is found under its own key. */
  ghost predicate Keyed(entries: map<string, DictEntry>, repr: set<DictEntry>) {
    && (forall k :: k in entries ==> entries[k] in repr && entries[k].key == k)
    && (forall e :: e in repr ==> e.key in entries && entries[e.key] == e)
  }

  /** A key that its bucket does not have is not in the table. */
  lemma Miss(slot: Slot, chains: seq<Chain>, entries: map<string, DictEntry>, repr: set<DictEntry>,
             key: string, c: Chain)
    requires InRange(slot) && Gathered(slot, chains, repr) && Keyed(entries, repr)
    requires |chains| > 0 && c == chains[slot(key, |chains|)]
    requires forall j :: 0 <= j < |c| ==> c[j].key != key
    ensures key !in entries
  {
    forall k | k in entries ensures k != key {
      assert entries[k] in repr;
    }
  }

  function Total(chains: seq<Chain>): nat {
    if chains == [] then 0 else |chains[0]| + Total(chains[1..])
  }

  function Flatten(chains: seq<Chain>): Chain {
    if chains == [] then [] else chains[0] + Flatten(chains[1..])
  }

  lemma {:induction false} TotalUpdate(chains: seq<Chain>, i: nat, c: Chain)
    requires i < |chains|
    ensures Total(chains[i := c]) == Total(chains) - |chains[i]| + |c|
    decreases |chains|
  {
    if i == 0 {
      assert chains[i := c][1..] == chains[1..];
    } else {
      assert chains[i := c][1..] == chains[1..][i - 1 := c];
      TotalUpdate(chains[1..], i - 1, c);
    }
  }

  // ------------------------------------------------------ adding and removing

  function Without(c: Chain, p: nat): (c': Chain)
    requires p < |c|
  {
    c[..p] + c[p + 1..]
  }

  lemma {:induction false} WithoutMembers(c: Chain, p: nat)
    requires p < |c| && Distinct(c)
    ensures forall e :: e in Without(c, p) <==> e in c && e != c[p]
    ensures Distinct(Without(c, p))
    decreases |c|
  {
    var c' := Without(c, p);
    assert c == [c[0]] + c[1..];
    if p == 0 {
      assert c' == c[1..];
    } else {
      WithoutMembers(c[1..], p - 1);
      assert c' == [c[0]] + Without(c[1..], p - 1);
      assert c[p] in c[1..];
    }
  }

  lemma RemoveOne(slot: Slot, chains: seq<Chain>, held: set<DictEntry>, h: nat, p: nat)
    requires InRange(slot) && Gathered(slot, chains, held) && h < |chains| && p < |chains[h]| && Distinct(chains[h])
    ensures var chains' := chains[h := Without(chains[h], p)];
            Gathered(slot, chains', held - {chains[h][p]}) && Total(chains') == Total(chains) - 1
  {
    var c := chains[h];
    var c' := Without(c, p);
    var chains' := chains[h := c'];
    TotalUpdate(chains, h, c');
    WithoutMembers(c, p);
    forall i, j | 0 <= i < |chains'| && 0 <= j < |chains'[i]|
      ensures chains'[i][j] in held - {c[p]} && slot(chains'[i][j].key, |chains'|) == i
    {
      assert chains'[i][j] in chains'[i];
      assert chains'[i][j] in chains[i];
    }
  }

  lemma OnlyPlace(slot: Slot, chains: seq<Chain>, held: set<DictEntry>, h: nat, p: nat)
    requires InRange(slot) && Gathered(slot, chains, held) && h < |chains| && p < |chains[h]| && Distinct(chains[h])
    ensures forall i, j :: 0 <= i < |chains| && 0 <= j < |chains[i]| && (i != h || j != p) ==>
              chains[i][j] != chains[h][p]
  {
    forall i, j | 0 <= i < |chains| && 0 <= j < |chains[i]| && (i != h || j != p)
      ensures chains[i][j] != chains[h][p]
    {
      if i == h {
        DistinctAt(chains[h], if j < p then p else j);
      }
    }
  }

  lemma WithoutAt(c: Chain, p: nat)
    requires p < |c|
    ensures forall j :: 0 <= j < |c| - 1 ==> Without(c, p)[j] == c[if j < p then j else j + 1]
    ensures forall j :: 0 <= j < |c| ==> At(Without(c, p), j) == At(c, if j < p then j else j + 1)
  {
  }

  /** Takes entry `p` of a bucket out of its chain. */
  method LinkAround(table: array<DictEntry?>, ghost chains: seq<Chain>, ghost repr: set<DictEntry>,
                       h: nat, ghost p: nat, prevde: DictEntry?, de: DictEntry)
    requires TableOk(table, chains, repr) && h < |chains| && p < |chains[h]| && de == chains[h][p]
    requires forall i, j :: 0 <= i < |chains| && 0 <= j < |chains[i]| && (i != h || j != p) ==> chains[i][j] != de
    requires prevde == if p == 0 then null else chains[h][p - 1]
    requires p > 0 ==> forall i, j :: 0 <= i < |chains| && 0 <= j < |chains[i]| && (i != h || j != p - 1) ==>
                         chains[i][j] != prevde
    modifies table, repr`next
    ensures TableOk(table, chains[h := Without(chains[h], p)], repr - {de})
  {
    ghost var c, chains' := chains[h], chains[h := Without(chains[h], p)];
    WithoutAt(c, p);
    if prevde != null {
      prevde.next := de.next;
    } else {
      table[h] := de.next;
    }
    forall i, j | 0 <= i < |chains'| && 0 <= j < |chains'[i]|
      ensures chains'[i][j] in repr - {de} && chains'[i][j].next == At(chains'[i], j + 1)
    {
      ghost var k := if i == h && j >= p then j + 1 else j;
      assert chains'[i][j] == chains[i][k] != de;
      assert old(chains[i][k].next) == At(chains[i], k + 1);
      if i == h && k == p - 1 {
        assert chains[i][k] == prevde && old(de.next) == At(c, p + 1);
      } else {
        assert p > 0 ==> chains[i][k] != prevde;
      }
    }
  }

  // ------------------------------------------------------------------ rehashing

  ghost function Prepend(slot: Slot, chains: seq<Chain>, e: DictEntry): seq<Chain>
    requires InRange(slot) && |chains| > 0
  {
    var h := slot(e.key, |chains|);
    chains[h := [e] + chains[h]]
  }

  lemma GatherOne(slot: Slot, chains: seq<Chain>, moved: set<DictEntry>, e: DictEntry)
    requires InRange(slot) && Gathered(slot, chains, moved) && |chains| > 0 && e !in moved
    ensures Gathered(slot, Prepend(slot, chains, e), moved + {e})
    ensures Total(Prepend(slot, chains, e)) == Total(chains) + 1
  {
    TotalUpdate(chains, slot(e.key, |chains|), [e] + chains[slot(e.key, |chains|)]);
    PrependedMembers(slot, chains, e);
    GatheredGrows(slot, chains, Prepend(slot, chains, e), moved, e);
  }

  lemma GatheredGrows(slot: Slot, chains: seq<Chain>, chains': seq<Chain>, moved: set<DictEntry>, e: DictEntry)
    requires InRange(slot) && Gathered(slot, chains, moved) && |chains'| == |chains| > 0
    requires forall i, x :: 0 <= i < |chains| ==>
               (x in chains'[i] <==> x in chains[i] || (i == slot(e.key, |chains|) && x == e))
    ensures Gathered(slot, chains', moved + {e})
  {
    forall i, j | 0 <= i < |chains'| && 0 <= j < |chains'[i]|
      ensures chains'[i][j] in moved + {e} && slot(chains'[i][j].key, |chains'|) == i
    {
      var x := chains'[i][j];
      assert x in chains'[i];
      if x in chains[i] {
        var k :| 0 <= k < |chains[i]| && chains[i][k] == x;
      }
    }
  }

  lemma PrependedMembers(slot: Slot, chains: seq<Chain>, e: DictEntry)
    requires InRange(slot) && |chains| > 0
    ensures var chains' := Prepend(slot, chains, e);
            |chains'| == |chains| &&
            forall i, x :: 0 <= i < |chains| ==>
              (x in chains'[i] <==> x in chains[i] || (i == slot(e.key, |chains|) && x == e))
  {
  }

  lemma {:induction false} TotalOfEmpty(chains: seq<Chain>)
    requires forall i :: 0 <= i < |chains| ==> chains[i] == []
    ensures Total(chains) == 0
    decreases |chains|
  {
    if chains != [] {
      TotalOfEmpty(chains[1..]);
    }
  }

  lemma {:induction false} EmptyOfTotal(chains: seq<Chain>, i: nat)
    requires i < |chains| && Total(chains) == 0
    ensures chains[i] == []
    decreases |chains|
  {
    if i > 0 {
      EmptyOfTotal(chains[1..], i - 1);
    }
  }

  /** Puts one entry in front of its new chain. */
  method LinkIn(slot: Slot, table: array<DictEntry?>, ghost chains: seq<Chain>, ghost moved: set<DictEntry>,
                      he: DictEntry)
    requires InRange(slot) && TableOk(table, chains, moved) && Gathered(slot, chains, moved)
    requires |chains| > 0 && he !in moved
    modifies table, he`next
    ensures TableOk(table, Prepend(slot, chains, he), moved + {he})
  {
    var h := slot(he.key, table.Length);
    he.next := table[h];
    table[h] := he;
    forall i | 0 <= i < |chains| ensures Linked(chains[i], moved) {
      assert old(Linked(chains[i], moved));
    }
    LinkFront(he, chains[h], moved);
    TableFront(slot, table, chains, moved, he);
  }

  lemma LinkFront(he: DictEntry, c: Chain, repr: set<DictEntry>)
    requires Linked(c, repr) && he.next == At(c, 0)
    ensures Linked([he] + c, repr + {he})
  {
    var c' := [he] + c;
    forall j | 0 <= j < |c'| ensures c'[j].next == At(c', j + 1) {
      if j > 0 {
        assert c'[j] == c[j - 1] && c'[j].next == c[j - 1].next;
      }
    }
  }

  lemma TableFront(slot: Slot, table: array<DictEntry?>, chains: seq<Chain>, repr: set<DictEntry>,
                      he: DictEntry)
    requires InRange(slot) && table.Length == |chains| > 0
    requires forall i :: 0 <= i < |chains| ==> Linked(chains[i], repr)
    requires var h := slot(he.key, |chains|);
             table[h] == he && Linked([he] + chains[h], repr + {he}) &&
             forall i :: 0 <= i < |chains| && i != h ==> table[i] == At(chains[i], 0)
    ensures TableOk(table, Prepend(slot, chains, he), repr + {he})
  {
    forall i | 0 <= i < |chains| ensures Linked(chains[i], repr + {he}) {
    }
  }

  /** A table of `n` empty buckets. */
  method EmptyTable(ghost slot: Slot, n: nat) returns (table: array<DictEntry?>, ghost chains: seq<Chain>)
    requires InRange(slot) && n > 0
    ensures fresh(table) && table.Length == n
    ensures TableOk(table, chains, {}) && Gathered(slot, chains, {}) && Total(chains) == 0 && |chains| == n
  {
    table := new DictEntry?[n](_ => null);
    chains := seq(n, _ => []);
    TotalOfEmpty(chains);
  }

  class Dict {
    const slot: Slot            // hash & sizemask, as the table's type has it
    var table: array<DictEntry?>
    var size: nat
    var sizemask: nat
    var used: nat

    ghost var chains: seq<Chain>
    ghost var entries: map<string, DictEntry>
    ghost var repr: set<DictEntry>
    ghost var contents: map<string, Callback>      // the table as a map

    /** The table, its chains and its counters. */
    ghost predicate Shape()
      reads `table, `size, `sizemask, `used, `chains, `entries, `repr, table, repr`next
    {
      && InRange(slot)
      && size == table.Length
      && (size == 0 ==> sizemask == 0)
      && (size != 0 ==> PowerOfTwo(size) && HT_INITIAL_SIZE <= size && sizemask == size - 1)
      && TableOk(table, chains, repr)
      && Gathered(slot, chains, repr)
      && Keyed(entries, repr)
      && used == Total(chains) <= size
    }

    /** `contents` is what the entries say. */
    ghost predicate Indexed()
      reads `entries, `contents, `repr, repr`val
    {
      && contents.Keys == entries.Keys
      && (forall e :: e in repr ==> e.key in contents && e.val == contents[e.key])
    }

    ghost predicate Valid()
      reads this, table, repr
    {
      Shape() && Indexed()
    }

    constructor ()
      ensures Valid() && contents == map[] && repr == {} && fresh(table)
      ensures forall key, size: nat :: size > 0 ==> slot(key, size) == BitAnd(Hash(key), size - 1)
    {
      slot := (key, size) => if size == 0 then 0 else BitAnd(Hash(key), size - 1);
      table := new DictEntry?[0];
      size, sizemask, used := 0, 0, 0;
      chains, entries, repr, contents := [], map[], {}, map[];
    }

    /** The entry of a key, or null. */
    method Find(key: string) returns (he: DictEntry?)
      requires Valid()
      ensures he == if key in entries then entries[key] else null
      ensures if key in contents then he != null && he.key == key && he.val == contents[key] else he == null
    {
      if size == 0 {
        return null;
      }
      var h := slot(key, size);
      ghost var j;
      he, j := Search(table[h], chains[h], key);
      if he == null {
        assert j == |chains[h]|;
        Miss(slot, chains, entries, repr, key, chains[h]);
      } else {
        assert he in repr;
      }
    }

    /** Walks a chain; `j` is the place of the entry found. */
    method Search(head: DictEntry?, ghost c: Chain, key: string) returns (he: DictEntry?, ghost j: nat)
      requires head == At(c, 0) && Linked(c, repr)
      ensures j <= |c| && he == At(c, j)
      ensures forall k :: 0 <= k < j ==> c[k].key != key
      ensures he != null ==> he.key == key
    {
      he, j := head, 0;
      while he != null
        invariant 0 <= j <= |c| && he == At(c, j)
        invariant forall k :: 0 <= k < j ==> c[k].key != key
        decreases |c| - j
      {
        if he.key == key {
          return;
        }
        he, j := he.next, j + 1;
      }
    }

    /** Exactly the entries whose bucket comes before `i`, and the first ones of bucket `i`, have moved. */
    ghost predicate MovedUpTo(moved: set<DictEntry>, i: nat, first: Chain)
      requires InRange(slot)
      reads `chains, `repr
    {
      moved <= repr &&
      forall e :: e in repr ==>
        (e in moved <==> (|chains| > 0 && slot(e.key, |chains|) < i) || e in first)
    }

    /** Buckets and links of the old table are as they were, except in entries that have moved. */
    ghost predicate Intact(moved: set<DictEntry>)
      reads `chains, `repr, `table, table, repr`next
    {
      && table.Length == |chains|
      && (forall i :: 0 <= i < |chains| ==> table[i] == At(chains[i], 0))
      && (forall i, j :: 0 <= i < |chains| && 0 <= j < |chains[i]| ==> chains[i][j] in repr)
      && (forall i, j {:trigger chains[i][j].next} :: 0 <= i < |chains| && 0 <= j < |chains[i]| ==>
            chains[i][j] in moved || chains[i][j].next == At(chains[i], j + 1))
    }

    /** A rehash in progress: some entries in the new table, the rest still in the old one. */
    ghost predicate Moving(newtable: array<DictEntry?>, nchains: seq<Chain>, moved: set<DictEntry>)
      requires InRange(slot)
      reads `chains, `repr, `table, table, newtable, repr`next
    {
      && newtable != table && moved <= repr && |nchains| > 0
      && Intact(moved)
      && TableOk(newtable, nchains, moved) && Gathered(slot, nchains, moved)
    }

    /** Moves one entry and returns the one behind it. */
    method MoveNext(ghost i: nat, ghost j: nat, he: DictEntry, newtable: array<DictEntry?>,
                    ghost nchains: seq<Chain>, ghost moved: set<DictEntry>)
      returns (nextHe: DictEntry?)
      requires i < |chains| && j < |chains[i]| && he == chains[i][j] && he !in moved
      requires InRange(slot) && Moving(newtable, nchains, moved)
      modifies newtable, he`next
      ensures nextHe == At(chains[i], j + 1)
      ensures Moving(newtable, Prepend(slot, nchains, he), moved + {he})
      ensures Total(Prepend(slot, nchains, he)) == Total(nchains) + 1
    {
      nextHe := he.next;
      GatherOne(slot, nchains, moved, he);
      LinkIn(slot, newtable, nchains, moved, he);
      assert forall k :: 0 <= k < |chains| ==> table[k] == old(table[k]);
    }

    /** Moves the chain of bucket `i`; `left` counts down the entries still to move. */
    method MoveChain(i: nat, newtable: array<DictEntry?>, ghost nchains: seq<Chain>,
                     ghost moved: set<DictEntry>, left: nat)
      returns (ghost nchains': seq<Chain>, ghost moved': set<DictEntry>, left': nat)
      requires InRange(slot) && Gathered(slot, chains, repr) && i < |chains|
      requires Moving(newtable, nchains, moved) && MovedUpTo(moved, i, []) && |chains[i]| <= left
      requires Distinct(chains[i])
      modifies newtable, repr`next
      ensures Moving(newtable, nchains', moved') && MovedUpTo(moved', i + 1, [])
      ensures left' == left - |chains[i]| && Total(nchains') == Total(nchains) + |chains[i]|
      ensures |nchains'| == |nchains|
    {
      ghost var c := chains[i];
      ghost var j := 0;
      var he := table[i];
      nchains', moved', left' := nchains, moved, left;
      while he != null
        invariant 0 <= j <= |c| && he == At(c, j)
        invariant Moving(newtable, nchains', moved') && MovedUpTo(moved', i, c[..j])
        invariant left' == left - j && Total(nchains') == Total(nchains) + j
        invariant |nchains'| == |nchains|
        decreases |c| - j
      {
        ghost var e := c[j];
        NotMovedYet(moved', i, j);
        he := MoveNext(i, j, he, newtable, nchains', moved');
        nchains', moved' := Prepend(slot, nchains', e), moved' + {e};
        left', j := left' - 1, j + 1;
      }
      assert j == |c|;
      BucketMoved(moved', i);
    }

    lemma NotMovedYet(moved: set<DictEntry>, i: nat, j: nat)
      requires InRange(slot) && Gathered(slot, chains, repr) && i < |chains| && j < |chains[i]|
      requires Distinct(chains[i]) && MovedUpTo(moved, i, chains[i][..j])
      ensures chains[i][j] in repr && chains[i][j] !in moved
      ensures MovedUpTo(moved + {chains[i][j]}, i, chains[i][..j + 1])
    {
      DistinctAt(chains[i], j);
      assert chains[i][..j + 1] == chains[i][..j] + [chains[i][j]];
    }

    lemma BucketMoved(moved: set<DictEntry>, i: nat)
      requires InRange(slot) && Gathered(slot, chains, repr) && i < |chains|
      requires MovedUpTo(moved, i, chains[i][..|chains[i]|])
      ensures MovedUpTo(moved, i + 1, [])
    {
      assert chains[i][..|chains[i]|] == chains[i];
      forall e | e in repr ensures e in moved <==> slot(e.key, |chains|) < i + 1 {
      }
    }

    lemma UnmovedIsDistinct(moved: set<DictEntry>, i: nat)
      requires InRange(slot) && Gathered(slot, chains, repr) && i < |chains|
      requires Intact(moved) && MovedUpTo(moved, i, [])
      ensures Distinct(chains[i])
    {
      var c := chains[i];
      forall j {:trigger c[j].next} | 0 <= j < |c| ensures c[j].next == At(c, j + 1) {
        assert chains[i][j] in repr && chains[i][j] !in moved;
      }
      LinkedIsDistinct(c, 0);
      assert c[0..] == c;
    }

    /** Once no entry is left to move, the remaining buckets are empty. */
    lemma AllMoved(moved: set<DictEntry>, i: nat)
      requires InRange(slot) && Gathered(slot, chains, repr) && i <= |chains| && MovedUpTo(moved, i, [])
      requires i == |chains| || Total(chains[i..]) == 0
      ensures moved == repr
    {
      forall e | e in repr ensures e in moved {
        var h := slot(e.key, |chains|);
        assert e in chains[h];
        if h >= i {
          EmptyOfTotal(chains[i..], h - i);
          assert false;
        }
      }
    }

    lemma NothingMoved(ntable: array<DictEntry?>, empty: seq<Chain>)
      requires InRange(slot) && TableOk(table, chains, repr) && ntable != table
      requires TableOk(ntable, empty, {}) && Gathered(slot, empty, {}) && |empty| > 0
      ensures Moving(ntable, empty, {}) && MovedUpTo({}, 0, []) && |empty| == ntable.Length
    {
    }

    lemma BucketIsLeft(i: nat)
      requires i < |chains|
      ensures |chains[i]| <= Total(chains[i..]) == |chains[i]| + Total(chains[i + 1..])
    {
      assert chains[i..][1..] == chains[i + 1..];
    }

    /** Moves bucket after bucket until no entry is left; the count comes out even. */
    method MoveAll(ntable: array<DictEntry?>, ghost empty: seq<Chain>) returns (ghost nchains: seq<Chain>)
      requires InRange(slot) && TableOk(table, chains, repr) && Gathered(slot, chains, repr)
      requires size == |chains| && used == Total(chains) && ntable != table
      requires TableOk(ntable, empty, {}) && Gathered(slot, empty, {}) && Total(empty) == 0 && |empty| > 0
      modifies ntable, repr`next
      ensures TableOk(ntable, nchains, repr) && Gathered(slot, nchains, repr)
      ensures Total(nchains) == used
    {
      hide TableOk, Gathered, Intact;
      nchains := empty;
      ghost var moved: set<DictEntry> := {};
      var left, i := used, 0;
      assert chains[0..] == chains;
      NothingMoved(ntable, empty);
      while i < size && left > 0
        invariant 0 <= i <= size && left == Total(chains[i..])
        invariant Moving(ntable, nchains, moved) && MovedUpTo(moved, i, [])
        invariant Total(nchains) + left == used && |nchains| == ntable.Length
        decreases size - i
      {
        BucketIsLeft(i);
        UnmovedIsDistinct(moved, i);
        nchains, moved, left := MoveChain(i, ntable, nchains, moved, left);
        i := i + 1;
      }
      AllMoved(moved, i);
      assert left == 0;
    }

    /** Creates a table for at least `request` entries and moves every entry into it. */
    method Expand(request: nat) returns (ok: bool)
      requires Shape()
      modifies `table, `size, `sizemask, `chains, repr`next
      ensures Shape()
      ensures ok == (used <= request)
      ensures ok ==> fresh(table) && request <= size && (size == HT_INITIAL_SIZE || size < 2 * request)
      ensures !ok ==> table == old(table) && size == old(size)
    {
      var realsize := NextPower(request);
      if used > request {
        return false;
      }
      var ntable;
      ghost var nchains;
      ntable, nchains := EmptyTable(slot, realsize);
      nchains := MoveAll(ntable, nchains);
      Install(ntable, nchains);
      ok := true;
    }

    method Install(ntable: array<DictEntry?>, ghost nchains: seq<Chain>)
      requires PowerOfTwo(ntable.Length) && HT_INITIAL_SIZE <= ntable.Length
      requires TableOk(ntable, nchains, repr) && InRange(slot) && Gathered(slot, nchains, repr)
      requires Keyed(entries, repr)
      requires used == Total(nchains) && used <= ntable.Length
      modifies `table, `size, `sizemask, `chains
      ensures Shape() && table == ntable && size == ntable.Length
    {
      table, size, sizemask, chains := ntable, ntable.Length, ntable.Length - 1, nchains;
    }

    method ExpandIfNeeded() returns (ok: bool)
      requires Shape()
      modifies `table, `size, `sizemask, `chains, repr`next
      ensures ok && Shape() && used < size
      ensures fresh(table) || table == old(table)
    {
      if size == 0 {
        ok := Expand(HT_INITIAL_SIZE);
      } else if used == size {
        ok := Expand(size * 2);
      } else {
        ok := true;
      }
    }

    /** The bucket for a new key, or -1 if the key is there already. */
    method KeyIndex(key: string) returns (index: int)
      requires Shape()
      modifies `table, `size, `sizemask, `chains, repr`next
      ensures Shape() && used < size
      ensures fresh(table) || table == old(table)
      ensures index == if key in entries then -1 else slot(key, size)
    {
      var ok := ExpandIfNeeded();
      if !ok {
        return -1;
      }
      var h := slot(key, size);
      var he;
      ghost var j;
      he, j := Search(table[h], chains[h], key);
      if he != null {
        assert he in repr;
        return -1;
      }
      assert j == |chains[h]|;
      Miss(slot, chains, entries, repr, key, chains[h]);
      return h;
    }

    /** Takes over new ghost bookkeeping for a table that already fits it. */
    ghost method Reindex(nchains: seq<Chain>, nentries: map<string, DictEntry>, nrepr: set<DictEntry>,
                         ncontents: map<string, Callback>)
      requires InRange(slot) && size == table.Length && used == Total(nchains) <= size
      requires PowerOfTwo(size) && HT_INITIAL_SIZE <= size && sizemask == size - 1
      requires TableOk(table, nchains, nrepr) && Gathered(slot, nchains, nrepr) && Keyed(nentries, nrepr)
      modifies `chains, `entries, `repr, `contents
      ensures Shape() && chains == nchains && entries == nentries && repr == nrepr && contents == ncontents
    {
      chains, entries, repr, contents := nchains, nentries, nrepr, ncontents;
    }

    /** A new entry under a new key, and the map with the same pair added, still agree. */
    twostate lemma AlsoIndexed(new entry: DictEntry)
      requires old(Indexed()) && entry.key !in old(entries)
      requires entries == old(entries)[entry.key := entry] && repr == old(repr) + {entry}
      requires contents == old(contents)[entry.key := entry.val]
      requires forall e :: e in old(repr) ==> e.val == old(e.val)
      ensures Indexed()
    {
    }

    /** Adds an entry unless its key is there. */
    method Add(key: string, val: Callback) returns (ok: bool)
      requires Valid()
      modifies this, table, repr`next
      ensures Valid() && fresh(repr - old(repr)) && (fresh(table) || table == old(table))
      ensures ok == (key !in old(entries))
      ensures contents == if ok then old(contents)[key := val] else old(contents)
      ensures !ok ==> entries == old(entries) && repr == old(repr)
    {
      hide TableOk, Gathered;
      ok := AddEntry(key, val);
      if ok {
        AlsoIndexed(entries[key]);
      }
    }

    method AddEntry(key: string, val: Callback) returns (ok: bool)
      requires Shape()
      modifies `table, `size, `sizemask, `chains, `used, `entries, `repr, `contents, table, repr`next
      ensures Shape() && (fresh(table) || table == old(table))
      ensures ok == (key !in old(entries))
      ensures contents == if ok then old(contents)[key := val] else old(contents)
      ensures !ok ==> entries == old(entries) && repr == old(repr)
      ensures ok ==>
                key in entries && entries == old(entries)[key := entries[key]] &&
                fresh(entries[key]) && repr == old(repr) + {entries[key]} && entries[key].val == val
    {
      var index := KeyIndex(key);
      if index == -1 {
        return false;
      }
      var entry := new DictEntry(key, val);
      Insert(entry);
      ok := true;
    }

    /** Puts a new entry in front of its bucket. */
    method Insert(entry: DictEntry)
      requires Shape() && used < size && entry.key !in entries && entry !in repr
      modifies table, entry`next, `used, `chains, `entries, `repr, `contents
      ensures contents == old(contents)[entry.key := entry.val]
      ensures Shape() && entries == old(entries)[entry.key := entry] && repr == old(repr) + {entry}
    {
      hide Gathered, Total;
      GatherOne(slot, chains, repr, entry);
      LinkIn(slot, table, chains, repr, entry);
      used := used + 1;
      Reindex(Prepend(slot, chains, entry), entries[entry.key := entry], repr + {entry},
              contents[entry.key := entry.val]);
    }

    /** Adds an entry, or gives an existing one a new value; 1 if it was added. */
    method Replace(key: string, val: Callback) returns (added: int)
      requires Valid()
      modifies this, table, repr
      ensures Valid() && fresh(repr - old(repr)) && (fresh(table) || table == old(table))
      ensures added == if key in old(entries) then 0 else 1
      ensures contents == old(contents)[key := val]
    {
      hide TableOk, Gathered;
      var ok := Add(key, val);
      if ok {
        return 1;
      }
      var entry := Find(key);
      SetVal(entry, val);
      added := 0;
    }

    method SetVal(entry: DictEntry, val: Callback)
      requires Indexed() && Keyed(entries, repr) && entry in repr
      modifies entry`val, `contents
      ensures Indexed() && contents == old(contents)[entry.key := val]
    {
      entry.val := val;
      contents := contents[entry.key := val];
      assert forall e :: e in repr && e != entry ==> e.key != entry.key && e.val == old(e.val);
    }

    /** Unlinks the entry of a key; `p` is the place it had in its bucket. */
    method Delete(key: string) returns (ok: bool, ghost p: nat)
      requires Valid()
      modifies this, table, repr`next
      ensures Valid() && table == old(table)
      ensures ok == (key in old(entries))
      ensures entries == old(entries) - {key} && contents == old(contents) - {key}
      ensures repr == if ok then old(repr) - {old(entries)[key]} else old(repr)
      ensures Deleted(ok, key, p, old(chains), old(entries))
    {
      ok, p := DeleteEntry(key);
    }

    /** The chains after a deletion: one entry less in one bucket, or none. */
    ghost predicate Deleted(ok: bool, key: string, p: nat, was: seq<Chain>, had: map<string, DictEntry>)
      requires InRange(slot)
      reads `chains
    {
      if ok then
        |was| > 0 && key in had &&
        var h := slot(key, |was|);
        p < |was[h]| && was[h][p] == had[key] && chains == was[h := Without(was[h], p)]
      else chains == was
    }

    method DeleteEntry(key: string) returns (ok: bool, ghost p: nat)
      requires Shape()
      modifies table, repr`next, `used, `chains, `entries, `repr, `contents
      ensures Shape() && contents == if ok then old(contents) - {key} else old(contents)
      ensures ok == (key in old(entries)) && entries == old(entries) - {key}
      ensures repr == if ok then old(repr) - {old(entries)[key]} else old(repr)
      ensures Deleted(ok, key, p, old(chains), old(entries))
    {
      p := 0;
      if size == 0 {
        return false, 0;
      }
      var h := slot(key, size);
      ghost var c := chains[h];
      var de, prevde := table[h], null;
      while de != null
        invariant 0 <= p <= |c| && de == At(c, p)
        invariant prevde == if p == 0 then null else c[p - 1]
        invariant forall k :: 0 <= k < p ==> c[k].key != key
        decreases |c| - p
      {
        if de.key == key {
          Unlink(h, p, prevde, de);
          return true, p;
        }
        prevde, de, p := de, de.next, p + 1;
      }
      Miss(slot, chains, entries, repr, key, c);
      ok := false;
    }

    method Unlink(h: nat, ghost p: nat, prevde: DictEntry?, de: DictEntry)
      requires Shape() && h < size && p < |chains[h]| && de == chains[h][p]
      requires prevde == if p == 0 then null else chains[h][p - 1]
      modifies table, repr`next, `used, `chains, `entries, `repr, `contents
      ensures contents == old(contents) - {de.key}
      ensures Shape() && repr == old(repr) - {de} && entries == old(entries) - {de.key}
      ensures chains == old(chains)[h := Without(old(chains)[h], p)]
    {
      hide Gathered, Total, Without;
      PlacesAreUnique(h, p);
      LinkAround(table, chains, repr, h, p, prevde, de);
      used := used - 1;
      Reindex(chains[h := Without(chains[h], p)], entries - {de.key}, repr - {de}, contents - {de.key});
    }

    lemma PlacesAreUnique(h: nat, p: nat)
      requires Shape() && h < size && p < |chains[h]|
      ensures forall i, j :: 0 <= i < |chains| && 0 <= j < |chains[i]| && (i != h || j != p) ==>
                chains[i][j] != chains[h][p]
      ensures p > 0 ==>
                forall i, j :: 0 <= i < |chains| && 0 <= j < |chains[i]| && (i != h || j != p - 1) ==>
                  chains[i][j] != chains[h][p - 1]
      ensures var chains' := chains[h := Without(chains[h], p)];
              Gathered(slot, chains', repr - {chains[h][p]}) && Total(chains') == Total(chains) - 1
    {
      LinkedIsDistinct(chains[h], 0);
      assert chains[h][0..] == chains[h];
      OnlyPlace(slot, chains, repr, h, p);
      if p > 0 {
        OnlyPlace(slot, chains, repr, h, p - 1);
      }
      RemoveOne(slot, chains, repr, h, p);
    }
  }
}
