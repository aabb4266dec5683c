/** The hash table under any sequence of operations behaves like a map. */
module DictRuns {

  import opened Bytes
  import opened CallbackList
  import opened Dict

  datatype Op =
    | Add(key: string, val: Callback)
    | Replace(key: string, val: Callback)
    | Delete(key: string)
    | Find(key: string)

  datatype Answer = Done(ok: bool) | Added(n: int) | Found(val: Option<Callback>)

  function Lookup(m: map<string, Callback>, key: string): Option<Callback> {
    if key in m then Some(m[key]) else None
  }

  /** The map after one operation, and what the operation answers. */
  function Step(m: map<string, Callback>, op: Op): (map<string, Callback>, Answer) {
    match op
    case Add(key, val) => (if key in m then m else m[key := val], Done(key !in m))
    case Replace(key, val) => (m[key := val], Added(if key in m then 0 else 1))
    case Delete(key) => (m - {key}, Done(key in m))
    case Find(key) => (m, Found(Lookup(m, key)))
  }

  /** What each operation does to a map, and answers. */
  lemma OperationsOnMaps(m: map<string, Callback>, key: string, val: Callback)
    ensures key in m ==> Step(m, Add(key, val)) == (m, Done(false))
    ensures key !in m ==> Step(m, Add(key, val)) == (m[key := val], Done(true))
    ensures key in m ==> Step(m, Replace(key, val)) == (m[key := val], Added(0))
    ensures key !in m ==> Step(m, Replace(key, val)) == (m[key := val], Added(1))
    ensures key in m ==> Step(m, Delete(key)) == (m - {key}, Done(true))
    ensures key !in m ==> Step(m, Delete(key)) == (m, Done(false))
    ensures key in m ==> Step(m, Find(key)) == (m, Found(Some(m[key])))
    ensures key !in m ==> Step(m, Find(key)) == (m, Found(None))
  {
    assert key !in m ==> m - {key} == m;
  }

  lemma StepsOneMore(m: map<string, Callback>, ops: seq<Op>, op: Op)
    ensures Steps(m, []) == (m, [])
    ensures Steps(m, ops + [op]) ==
            (Step(Steps(m, ops).0, op).0, Steps(m, ops).1 + [Step(Steps(m, ops).0, op).1])
  {
    assert (ops + [op])[..|ops|] == ops;
  }

  function Steps(m: map<string, Callback>, ops: seq<Op>): (map<string, Callback>, seq<Answer>)
    decreases |ops|
  {
    if ops == [] then (m, [])
    else
      var (m', answers) := Steps(m, ops[..|ops| - 1]);
      var (m'', answer) := Step(m', ops[|ops| - 1]);
      (m'', answers + [answer])
  }

  /** A table does to its contents what the operation does to the map, and answers the same. */
  method Perform(ht: Dict, op: Op) returns (answer: Answer)
    requires ht.Valid()
    modifies ht, ht.table, ht.repr
    ensures ht.Valid() && fresh(ht.repr - old(ht.repr)) && (fresh(ht.table) || ht.table == old(ht.table))
    ensures (ht.contents, answer) == Step(old(ht.contents), op)
  {
    hide Dict.Shape;
    match op {
      case Add(key, val) =>
        var ok := ht.Add(key, val);
        answer := Done(ok);
      case Replace(key, val) =>
        var n := ht.Replace(key, val);
        answer := Added(n);
      case Delete(key) =>
        var ok;
        ghost var p;
        ok, p := ht.Delete(key);
        answer := Done(ok);
      case Find(key) =>
        var he := ht.Find(key);
        answer := Found(if he == null then None else Some(he.val));
    }
  }

  /** Any run of operations on a new table. */
  method PerformAll(ops: seq<Op>) returns (ht: Dict, answers: seq<Answer>)
    ensures ht.Valid()
    ensures (ht.contents, answers) == Steps(map[], ops)
  {
    hide Dict.Shape, Dict.Indexed;
    ht := new Dict();
    answers := [];
    for i := 0 to |ops|
      invariant ht.Valid() && fresh(ht) && fresh(ht.table) && fresh(ht.repr)
      invariant (ht.contents, answers) == Steps(map[], ops[..i])
    {
      var answer := Perform(ht, ops[i]);
      assert ops[..i + 1][..i] == ops[..i];
      answers := answers + [answer];
    }
    assert ops[..|ops|] == ops;
  }
}
