/** The two hash tables that hold the callbacks of channels and of patterns. */
module SubscriptionTables {
  import opened CallbackList
  import opened Command
  import opened Dict
  import opened Bytes
  import NextArgument
  import S = Subscription

  class SubscriptionTables {
    const channels: Dict
    const patterns: Dict

    ghost var repr: set<object>

    ghost predicate Valid()
      reads this, repr
    {
      && this in repr && channels in repr && patterns in repr
      && repr == {this, channels, patterns, channels.table, patterns.table} + channels.repr + patterns.repr
      && channels.Valid() && patterns.Valid()
      && channels != patterns && channels.table != patterns.table && channels.repr !! patterns.repr
    }

    constructor ()
      ensures Valid() && fresh(repr)
      ensures channels.contents == map[] && patterns.contents == map[]
    {
      hide Dict.Shape, Dict.Indexed;
      channels := new Dict();
      patterns := new Dict();
      new;
      repr := {this, channels, patterns, channels.table, patterns.table};
    }

    lemma BothValid()
      requires Valid()
      ensures channels.Valid() && patterns.Valid()
    {
    }

    /** The table for patterns, or the one for channels. */
    function Which(pattern: bool): Dict {
      if pattern then patterns else channels
    }

    /** Registers a callback for every argument of a subscribe command. */
    method Register(pattern: bool, cb: Callback, cmd: string, p: nat, ghost name: string, ghost args: seq<string>)
      requires cmd == CommandBytes([name] + args) && p == NextArgument.Offset([name] + args, 1) <= |cmd|
      requires Valid()
      modifies repr
      ensures Valid() && fresh(repr - old(repr))
      ensures Which(pattern).contents == S.Registered(old(Which(pattern).contents), args, cb)
      ensures Which(!pattern).contents == old(Which(!pattern).contents)
    {
      hide CommandBytes, NextArgument.Offset, S.Registered, Dict.Shape, Dict.Indexed;
      S.Register(cmd, p, Which(pattern), cb, name, args);
      repr := {this, channels, patterns, channels.table, patterns.table} + channels.repr + patterns.repr;
    }

    /** The callback of a channel or pattern. */
    method Find(pattern: bool, sname: string) returns (cb: Option<Callback>)
      requires Valid()
      ensures cb == if sname in Which(pattern).contents then Some(Which(pattern).contents[sname]) else None
    {
      hide Dict.Shape, Dict.Indexed;
      var de := Which(pattern).Find(sname);
      cb := if de == null then None else Some(de.val);
    }

    method Remove(pattern: bool, sname: string)
      requires Valid()
      modifies repr
      ensures Valid() && fresh(repr - old(repr))
      ensures Which(pattern).contents == old(Which(pattern).contents) - {sname}
      ensures Which(!pattern).contents == old(Which(!pattern).contents)
    {
      hide Dict.Shape, Dict.Indexed, Dict.Deleted;
      var ok;
      ghost var p;
      ok, p := Which(pattern).Delete(sname);
      repr := {this, channels, patterns, channels.table, patterns.table} + channels.repr + patterns.repr;
    }
  }
}
