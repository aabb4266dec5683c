/**
 Iteration over the hash table: every entry is returned exactly once, even
 when the caller deletes the entry it has just been given.
 */
module DictIterator {

  import opened Bytes
  import opened CallbackList
  import opened Dict

  // ------------------------------------------------------------------ flattening

  /** The entries of the buckets from `i` on. */
  function Rest(chains: seq<Chain>, i: nat): Chain {
    if i < |chains| then Flatten(chains[i..]) else []
  }

  lemma {:induction false} FlattenLength(chains: seq<Chain>)
    ensures |Flatten(chains)| == Total(chains)
    decreases |chains|
  {
    if chains != [] {
      FlattenLength(chains[1..]);
    }
  }

  lemma {:induction false} FlattenMembers(chains: seq<Chain>, e: DictEntry)
    ensures e in Flatten(chains) <==> exists i :: 0 <= i < |chains| && e in chains[i]
    decreases |chains|
  {
    if chains != [] {
      FlattenMembers(chains[1..], e);
      assert e in chains[0] ==> e in chains[0] + Flatten(chains[1..]);
      if i :| 0 <= i < |chains| && e in chains[i] {
        assert i > 0 ==> e in chains[1..][i - 1];
      }
      if e in Flatten(chains[1..]) {
        var i :| 0 <= i < |chains[1..]| && e in chains[1..][i];
        assert e in chains[i + 1];
      }
    }
  }

  lemma {:induction false} DistinctConcat(a: Chain, b: Chain)
    requires Distinct(a) && Distinct(b) && forall e :: e in a ==> e !in b
    ensures Distinct(a + b)
    decreases |a|
  {
    if a == [] {
      assert a + b == b;
    } else {
      DistinctConcat(a[1..], b);
      assert (a + b)[1..] == a[1..] + b;
    }
  }

  lemma {:induction false} FlattenDistinct(chains: seq<Chain>)
    requires forall i :: 0 <= i < |chains| ==> Distinct(chains[i])
    requires forall i, j, e :: 0 <= i < j < |chains| && e in chains[i] ==> e !in chains[j]
    ensures Distinct(Flatten(chains))
    decreases |chains|
  {
    if chains != [] {
      var rest := chains[1..];
      forall i, j, e | 0 <= i < j < |rest| && e in rest[i] ensures e !in rest[j] {
        assert e in chains[i + 1];
      }
      FlattenDistinct(rest);
      forall e | e in chains[0] ensures e !in Flatten(rest) {
        FlattenMembers(rest, e);
      }
      DistinctConcat(chains[0], Flatten(rest));
    }
  }

  function Members(c: Chain): set<DictEntry> {
    set e | e in c
  }

  /** The buckets, read one after the other, hold every entry once. */
  lemma EveryEntryOnce(ht: Dict)
    requires ht.Shape()
    ensures Distinct(Flatten(ht.chains)) && |Flatten(ht.chains)| == ht.used
    ensures Members(Flatten(ht.chains)) == ht.repr
  {
    var chains := ht.chains;
    forall i | 0 <= i < |chains| ensures Distinct(chains[i]) {
      LinkedIsDistinct(chains[i], 0);
      assert chains[i][0..] == chains[i];
    }
    FlattenDistinct(chains);
    FlattenLength(chains);
    forall e | e in Flatten(chains) ensures e in ht.repr {
      FlattenMembers(chains, e);
    }
    forall e | e in ht.repr ensures e in Flatten(chains) {
      FlattenMembers(chains, e);
    }
    assert Members(Flatten(chains)) == ht.repr;
  }

  /** The keys of some entries, in their order. */
  function KeysOf(c: Chain): (keys: seq<string>)
    ensures |keys| == |c| && forall i :: 0 <= i < |c| ==> keys[i] == c[i].key
  {
    seq(|c|, i requires 0 <= i < |c| => c[i].key)
  }

  lemma KeysOfSnoc(c: Chain, e: DictEntry)
    ensures KeysOf(c + [e]) == KeysOf(c) + [e.key]
  {
  }

  lemma EntryHolds(ht: Dict, e: DictEntry)
    requires ht.Valid() && e in Flatten(ht.chains)
    ensures e.key in ht.contents && e.val == ht.contents[e.key]
  {
    EveryEntryOnce(ht);
    assert e in Members(Flatten(ht.chains));
  }

  /** The buckets, read one after the other, hold every key of the table once. */
  lemma EveryKeyOnce(ht: Dict)
    requires ht.Valid()
    ensures var keys := KeysOf(Flatten(ht.chains));
            && (forall k :: k in keys <==> k in ht.contents)
            && (forall i, j :: 0 <= i < j < |keys| ==> keys[i] != keys[j])
  {
    hide Flatten;
    EveryEntryOnce(ht);
    var all := Flatten(ht.chains);
    var keys := KeysOf(all);
    forall k | k in ht.contents ensures k in keys {
      assert ht.entries[k] in Members(all);
      var i :| 0 <= i < |all| && all[i] == ht.entries[k];
      assert keys[i] == k;
    }
    forall k | k in keys ensures k in ht.contents {
      var i :| 0 <= i < |all| && keys[i] == k;
      EntryHolds(ht, all[i]);
    }
    forall i, j | 0 <= i < j < |keys| ensures keys[i] != keys[j] {
      DistinctAt(all, j);
      assert all[..j][i] == all[i];
      assert all[i] in Members(all) && all[j] in Members(all);
    }
  }

  // -------------------------------------------------------------------- iterator

  /** What comes after place `place` of bucket `index`, or after the whole bucket. */
  function Ahead(chains: seq<Chain>, index: int, within: bool, place: nat): Chain {
    if index < -1 then []
    else if within && 0 <= index < |chains| && place <= |chains[index]| then
      chains[index][place..] + Rest(chains, index + 1)
    else Rest(chains, index + 1)
  }

  lemma AheadEnters(chains: seq<Chain>, i: nat, j: nat)
    ensures Ahead(chains, i - 1, false, j) == if i < |chains| then Ahead(chains, i, true, 0) else []
    ensures i >= |chains| ==> Ahead(chains, i, false, j) == []
  {
    if i < |chains| {
      assert chains[i..][1..] == chains[i + 1..];
      assert chains[i][0..] == chains[i];
    }
  }

  lemma AheadSteps(chains: seq<Chain>, i: nat, j: nat)
    requires i < |chains| && j < |chains[i]|
    ensures Ahead(chains, i, true, j) == [chains[i][j]] + Ahead(chains, i, true, j + 1)
  {
    hide Rest;
    var e, tail := chains[i][j], chains[i][j + 1..];
    assert chains[i][j..] == [e] + tail;
    Assoc([e], tail, Rest(chains, i + 1));
  }

  lemma AheadLeaves(chains: seq<Chain>, i: nat)
    requires i < |chains|
    ensures Ahead(chains, i, true, |chains[i]|) == Ahead(chains, i, false, |chains[i]|)
  {
    assert chains[i][|chains[i]|..] == [];
  }

  class DictIterator {
    const ht: Dict
    var index: int
    var entry: DictEntry?
    var nextEntry: DictEntry?

    ghost var place: nat      // where `nextEntry` stands in its bucket

    /** What is still to be returned. */
    ghost function Todo(): Chain
      reads `index, `entry, `place, ht`chains
    {
      Ahead(ht.chains, index, entry != null, place)
    }

    ghost predicate Valid()
      reads `index, `entry, `nextEntry, `place, ht`chains
    {
      && -1 <= index
      && (entry != null ==>
            0 <= index < |ht.chains| && place <= |ht.chains[index]| && nextEntry == At(ht.chains[index], place))
    }

    constructor (ht: Dict)
      ensures this.ht == ht && Valid() && Todo() == Flatten(ht.chains)
    {
      this.ht := ht;
      index, entry, nextEntry, place := -1, null, null, 0;
      new;
      assert ht.chains[0..] == ht.chains;
    }

    /** The next entry, or null when there is none left. */
    method Next() returns (e: DictEntry?)
      requires ht.Shape() && Valid()
      modifies this
      ensures Valid() && e == entry
      ensures old(Todo()) == if e == null then [] else [e] + Todo()
      ensures e != null ==> place > 0 && e == ht.chains[index][place - 1]
      ensures e == null ==> Todo() == []
    {
      hide Gathered, Keyed, Total, Rest, Ahead;
      while true
        invariant Valid() && Todo() == old(Todo())
        decreases |ht.chains| - index, if entry == null then 0 else 1
      {
        if entry == null {
          index := index + 1;
          AheadEnters(ht.chains, index, place);
          if index >= ht.size {
            break;
          }
          entry, place := ht.table[index], 0;
        } else {
          entry := nextEntry;
        }
        if entry != null {
          AheadSteps(ht.chains, index, place);
          nextEntry, place := entry.next, place + 1;
          return entry;
        }
        AheadLeaves(ht.chains, index);
      }
      e := null;
    }

    /** Of an unchanged table, `visited` has been passed, and `de` has just been returned. */
    ghost predicate Reached(visited: Chain, de: DictEntry?)
      reads `index, `entry, `nextEntry, `place, ht`chains
    {
      Valid() && Flatten(ht.chains) == visited + if de == null then [] else [de] + Todo()
    }

    lemma ReachedEnd(visited: Chain)
      requires Reached(visited, null)
      ensures visited == Flatten(ht.chains)
    {
    }

    lemma ReachedEntry(visited: Chain, de: DictEntry)
      requires Reached(visited, de)
      ensures de in Flatten(ht.chains) && |visited| < |Flatten(ht.chains)|
    {
    }

    /** The first entry. */
    method Start() returns (e: DictEntry?)
      requires ht.Shape() && Valid() && Todo() == Flatten(ht.chains)
      modifies this
      ensures Reached([], e)
    {
      hide Dict.Shape, Flatten, Valid, Todo;
      e := Next();
    }

    /** From one entry to the next. */
    method Advance(ghost visited: Chain, de: DictEntry) returns (e: DictEntry?)
      requires ht.Shape() && Reached(visited, de)
      modifies this
      ensures Reached(visited + [de], e)
    {
      hide Dict.Shape, Flatten, Valid, Todo;
      Assoc(visited, [de], Todo());
      e := Next();
    }

    /** The caller deletes the entry it has just been given: what is still to come stays the same. */
    method DeleteReturned()
      requires ht.Valid() && Valid() && entry != null
      requires place > 0 && entry == ht.chains[index][place - 1]
      modifies `place, ht, ht.table, ht.repr`next
      ensures ht.Valid() && ht.table == old(ht.table) && Valid() && Todo() == old(Todo())
      ensures ht.repr == old(ht.repr) - {entry} && ht.contents == old(ht.contents) - {entry.key}
    {
      hide Dict.Shape, Dict.Indexed, Rest, Ahead, Without;
      ghost var was := ht.chains;
      OnlyHere(ht, index, place - 1);
      var ok;
      ghost var p;
      ok, p := ht.Delete(entry.key);
      AheadKept(was, index, p);
      place := p;
    }
  }

  lemma OnlyHere(ht: Dict, i: nat, j: nat)
    requires ht.Shape() && i < |ht.chains| && j < |ht.chains[i]|
    ensures var e := ht.chains[i][j];
            && InRange(ht.slot) && e in ht.repr && e.key in ht.entries && ht.entries[e.key] == e
            && ht.slot(e.key, |ht.chains|) == i
            && forall k :: 0 <= k < |ht.chains[i]| && ht.chains[i][k] == e ==> k == j
  {
    ht.PlacesAreUnique(i, j);
  }

  /** Taking out the entry behind the iterator leaves what is ahead of it. */
  lemma AheadKept(chains: seq<Chain>, i: nat, p: nat)
    requires i < |chains| && p < |chains[i]|
    ensures var now := chains[i := Without(chains[i], p)];
            && p <= |now[i]| && At(now[i], p) == At(chains[i], p + 1)
            && Ahead(now, i, true, p) == Ahead(chains, i, true, p + 1)
  {
    var c := Without(chains[i], p);
    assert c[p..] == chains[i][p + 1..];
    if i + 1 < |chains| {
      assert chains[i := c][i + 1..] == chains[i + 1..];
    }
  }

  function Keys(c: Chain): set<string> {
    set e | e in c :: e.key
  }

  lemma OneMoreKey(m: map<string, Callback>, drop: set<string>, c: Chain, e: DictEntry)
    ensures var m' := m - (drop * Keys(c));
            m - (drop * Keys(c + [e])) == if e.key in drop then m' - {e.key} else m'
  {
    assert Keys(c + [e]) == Keys(c) + {e.key} by {
      assert forall x :: x in c + [e] <==> x in c || x == e;
      assert forall x :: x in c ==> x in c + [e];
    }
  }

  lemma NoKeys(m: map<string, Callback>, drop: set<string>)
    ensures m - (drop * Keys([])) == m
  {
    assert drop * Keys([]) == {};
  }

  lemma AllKeys(ht: Dict, drop: set<string>, c: Chain)
    requires ht.Valid() && Members(c) == ht.repr
    ensures ht.contents - (drop * Keys(c)) == ht.contents - drop
  {
    forall k | k in ht.contents ensures k in Keys(c) {
      assert ht.entries[k] in Members(c);
    }
  }

  /** Walks the whole table and deletes, on the way, the entries whose keys are in `drop`. */
  method Sweep(ht: Dict, drop: set<string>) returns (visited: Chain)
    requires ht.Valid()
    modifies ht, ht.table, ht.repr`next
    ensures ht.Valid()
    ensures Distinct(visited) && Members(visited) == old(ht.repr)
    ensures ht.contents == old(ht.contents) - drop
  {
    hide TableOk, Gathered, Keyed, Total, Rest, Ahead, Flatten, Distinct, Keys, Members, At;
    EveryEntryOnce(ht);
    ghost var all, held := Flatten(ht.chains), ht.contents;
    AllKeys(ht, drop, all);
    NoKeys(held, drop);
    var iter := new DictIterator(ht);
    visited := [];
    var next := iter.Next();
    while next != null
      invariant ht.Valid() && iter.Valid() && iter.ht == ht && next == iter.entry
      invariant ht.table == old(ht.table) && ht.repr <= old(ht.repr)
      invariant next != null ==> iter.place > 0 && next == ht.chains[iter.index][iter.place - 1]
      invariant next == null ==> all == visited
      invariant next != null ==> all == visited + ([next] + iter.Todo())
      invariant ht.contents == held - (drop * Keys(visited))
      decreases |all| - |visited|
    {
      var e: DictEntry := next;
      OneMoreKey(held, drop, visited, e);
      Assoc(visited, [e], iter.Todo());
      visited := visited + [e];
      if e.key in drop {
        iter.DeleteReturned();
      }
      next := iter.Next();
    }
  }
}
