/**
 How the asynchronous client tells commands apart: by the first argument of
 the formatted command, without regard to case and with an optional leading p.
 */
module Subscription {
  import opened Bytes
  import opened CallbackList
  import opened Command
  import opened NextArgument
  import opened Dict

  const SUBSCRIBE := "subscribe"
  const UNSUBSCRIBE := "unsubscribe"
  const MONITOR := "monitor"

  function Lower(c: char): char {
    if 'A' <= c <= 'Z' then (c as int + 32) as char else c
  }

  /** `s` begins with `word`, whose letters are lower case: `strncasecmp`. */
  predicate StartsNoCase(s: string, word: string) {
    |word| <= |s| && forall i :: 0 <= i < |word| ==> Lower(s[i]) == word[i]
  }

  predicate EqualsNoCase(s: string, word: string) {
    |s| == |word| && StartsNoCase(s, word)
  }

  predicate IsPattern(s: string) {
    s != "" && Lower(s[0]) == 'p'
  }

  function WithoutP(s: string): string {
    if IsPattern(s) then s[1..] else s
  }

  datatype CommandKind = Subscribe | Unsubscribe | Monitor | Regular

  /** A subscribe command without channels counts as a regular one. */
  function KindOfCommand(name: string, args: seq<string>): CommandKind {
    var verb := WithoutP(name + CRLF);
    if args != [] && StartsNoCase(verb, SUBSCRIBE + CRLF) then Subscribe
    else if StartsNoCase(verb, UNSUBSCRIBE + CRLF) then Unsubscribe
    else if StartsNoCase(verb, MONITOR + CRLF) then Monitor
    else Regular
  }

  /** A name that is none of the three words, in any case and with or without a p, is regular. */
  lemma OrdinaryNamesAreRegular(name: string, args: seq<string>)
    requires CRLF[0] !in name
    requires forall w :: w in {SUBSCRIBE, UNSUBSCRIBE, MONITOR} ==>
               !EqualsNoCase(name, w) && !(IsPattern(name) && EqualsNoCase(name[1..], w))
    ensures KindOfCommand(name, args) == Regular
  {
    forall w | w in {SUBSCRIBE, UNSUBSCRIBE, MONITOR}
      ensures !StartsNoCase(WithoutP(name + CRLF), w + CRLF)
    {
      var bare := WithoutP(name);
      assert WithoutP(name + CRLF) == bare + CRLF;
      assert forall i :: 0 <= i < |bare| ==> bare[i] in name;
      if StartsNoCase(bare + CRLF, w + CRLF) {
        assert Lower((bare + CRLF)[|w|]) == (w + CRLF)[|w|] == '\r';
        assert |w| == |bare|;
        forall i | 0 <= i < |w| ensures Lower(bare[i]) == w[i] {
          assert Lower((bare + CRLF)[i]) == (w + CRLF)[i];
        }
        assert EqualsNoCase(bare, w);
      }
    }
  }

  // ------------------------------------------------------------ kinds, exactly

  /** `s` has the letters of a lower-case word, each in either case. */
  predicate Spells(s: string, word: string) {
    |s| == |word| && forall i :: 0 <= i < |s| ==> s[i] == word[i] || s[i] as int == word[i] as int - 32
  }

  lemma LineEndFound(name: string)
    ensures var found := FindCrlf(name + "\r\n");
            found.Some? && found.value <= |name| && ('\r' !in name ==> found == Some(|name|))
  {
    var v := name + "\r\n";
    assert CrlfAt(v, |name|);
    assert FindCrlf(v).Some?;
    if '\r' !in name {
      forall i | 0 <= i < |name| ensures !CrlfAt(v, i) {
        assert v[i] == name[i] && name[i] in name;
      }
      FindCrlfUnique(v, |name|);
    }
  }

  /** The name as far as it counts: up to its first line end, if it has one. */
  function FirstLineOf(name: string): (line: string)
    ensures '\r' !in name ==> line == name
  {
    LineEndFound(name);
    name[..FindCrlf(name + "\r\n").value]
  }

  /** The name is that word, or the word behind a p. */
  predicate Names(name: string, word: string) {
    var line := FirstLineOf(name);
    Spells(line, word) || (line != "" && line[0] in "pP" && Spells(line[1..], word))
  }

  lemma SpellsNoCase(s: string, word: string)
    requires IsWord(word)
    ensures Spells(s, word) <==> EqualsNoCase(s, word)
  {
  }

  lemma PatternNames(name: string)
    ensures IsPattern(name + "\r\n") <==> name != "" && name[0] in "pP"
  {
    if name != "" {
      assert (name + "\r\n")[0] == name[0];
    }
  }

  /** A word and a line end at the front of `s` are its first line. */
  lemma StartsWithLine(s: string, word: string)
    requires IsWord(word) && FindCrlf(s).Some?
    ensures StartsNoCase(s, word + CRLF) <==> Spells(s[..FindCrlf(s).value], word)
  {
    var n, w := FindCrlf(s).value, word + CRLF;
    SpellsNoCase(s[..n], word);
    if StartsNoCase(s, w) {
      assert Lower(s[|word|]) == w[|word|] && Lower(s[|word| + 1]) == w[|word| + 1];
      assert CrlfAt(s, |word|);
      forall i | 0 <= i < |word| ensures !CrlfAt(s, i) {
        assert Lower(s[i]) == w[i] == word[i];
      }
      FindCrlfUnique(s, |word|);
    }
    if Spells(s[..n], word) {
      forall i | 0 <= i < |w| ensures Lower(s[i]) == w[i] {
        assert i < |word| ==> s[i] == s[..n][i] && w[i] == word[i];
      }
    }
  }

  lemma VerbIsName(name: string, word: string)
    requires IsWord(word) && word != "" && word[0] != 'p'
    ensures StartsNoCase(WithoutP(name + CRLF), word + CRLF) <==> Names(name, word)
  {
    var v, line := name + CRLF, FirstLineOf(name);
    LineEndFound(name);
    var n := FindCrlf(v).value;
    PatternNames(name);
    if IsPattern(v) {
      assert v[0] == name[0] && n > 0 && line[0] == name[0];
      assert CrlfAt(v[1..], n - 1);
      assert forall i :: 0 <= i < n - 1 ==> (CrlfAt(v[1..], i) <==> CrlfAt(v, i + 1));
      FindCrlfUnique(v[1..], n - 1);
      assert v[1..][..n - 1] == line[1..];
      StartsWithLine(v[1..], word);
      assert !Spells(line, word);
    } else {
      StartsWithLine(v, word);
      assert line != "" ==> line[0] == name[0];
    }
  }

  /** Of which kind a command with such a name is. */
  predicate HasKind(name: string, args: seq<string>, kind: CommandKind) {
    && (kind == Subscribe <==> args != [] && Names(name, "subscribe"))
    && (kind == Unsubscribe <==> Names(name, "unsubscribe"))
    && (kind == Monitor <==> Names(name, "monitor"))
  }

  /** The kind of a command, from its name and the presence of arguments alone. */
  lemma KindExactly(name: string, args: seq<string>)
    ensures KindOfCommand(name, args) == Subscribe <==> args != [] && Names(name, "subscribe")
    ensures KindOfCommand(name, args) == Unsubscribe <==> Names(name, "unsubscribe")
    ensures KindOfCommand(name, args) == Monitor <==> Names(name, "monitor")
    ensures IsPattern(name + "\r\n") <==> name != "" && name[0] in "pP"
  {
    hide StartsNoCase, WithoutP, Names, IsPattern;
    VerbIsName(name, "subscribe");
    VerbIsName(name, "unsubscribe");
    VerbIsName(name, "monitor");
    PatternNames(name);
    OneNameOnly(name);
  }

  lemma OneNameOnly(name: string)
    ensures !(Names(name, "subscribe") && Names(name, "unsubscribe"))
    ensures !(Names(name, "subscribe") && Names(name, "monitor"))
    ensures !(Names(name, "unsubscribe") && Names(name, "monitor"))
  {
  }

  // -------------------------------------------------- from the formatted command

  predicate IsWord(word: string) {
    forall i :: 0 <= i < |word| ==> 'a' <= word[i] <= 'z'
  }

  /** What follows the first argument's line end has no say in what kind of command it is. */
  lemma VerbDecides(name: string, tail: string, word: string)
    requires IsWord(word)
    ensures StartsNoCase(WithoutP(name + CRLF + tail), word + CRLF) <==>
            StartsNoCase(WithoutP(name + CRLF), word + CRLF)
    ensures IsPattern(name + CRLF + tail) == IsPattern(name + CRLF)
  {
    var short, long := WithoutP(name + CRLF), WithoutP(name + CRLF + tail);
    assert long == short + tail;
    var w, cr := word + CRLF, |short| - 2;
    assert forall i :: 0 <= i < |word| ==> w[i] == word[i];
    if StartsNoCase(long, w) {
      assert long[cr] == '\r';
      assert cr < |w| ==> Lower(long[cr]) == w[cr];
    }
  }

  lemma NextIsArgument(argv: seq<string>)
    requires argv != []
    ensures var cmd, p := CommandBytes(argv), Offset(argv, 1);
            p <= |cmd| && (|argv| > 1 <==> p < |cmd| && cmd[p] == '$')
  {
    AtOffset(argv, 1);
    var cmd, p := CommandBytes(argv), Offset(argv, 1);
    if |argv| > 1 {
      assert cmd[p] == cmd[p..][0];
    } else {
      StopsAtTheEnd(argv);
    }
  }

  /** What the scanner finds first in a formatted command. */
  lemma FirstArgument(cmd: string, name: string, args: seq<string>)
    requires cmd == CommandBytes([name] + args)
    ensures var next, p := NextArgument.NextArgument(cmd, 0), Offset([name] + args, 1);
            && next.Argument? && next.str <= |cmd| && next.next == p <= |cmd|
            && cmd[next.str..] == name + CRLF + ArgumentsBytes(args)
            && (args != [] <==> p < |cmd| && cmd[p] == '$')
  {
    hide NextArgument.NextArgument, Offset;
    var argv := [name] + args;
    FindsEveryArgument(cmd, argv);
    assert FindsArgument(cmd, argv, 0);
    NextIsArgument(argv);
    assert argv[1..] == args;
  }

  /** Scans the first argument of a formatted command; `p` is where the second would begin. */
  method Recognise(cmd: string, ghost name: string, ghost args: seq<string>)
    returns (kind: CommandKind, pattern: bool, p: nat)
    requires cmd == CommandBytes([name] + args)
    ensures kind == KindOfCommand(name, args) && pattern == IsPattern(name + CRLF)
    ensures HasKind(name, args, kind)
    ensures p == Offset([name] + args, 1) <= |cmd|
  {
    hide NextArgument.NextArgument, Offset, StartsNoCase, WithoutP, IsPattern, CommandBytes, Names;
    FirstArgument(cmd, name, args);
    KindExactly(name, args);
    var next := NextArgument.NextArgument(cmd, 0);
    p := next.next;
    var hasnext := p < |cmd| && cmd[p] == '$';
    var cstr := cmd[next.str..];
    ghost var tail := ArgumentsBytes(args);
    pattern := IsPattern(cstr);
    var verb := WithoutP(cstr);
    VerbDecides(name, tail, SUBSCRIBE);
    VerbDecides(name, tail, UNSUBSCRIBE);
    VerbDecides(name, tail, MONITOR);
    kind := if hasnext && StartsNoCase(verb, SUBSCRIBE + CRLF) then Subscribe
            else if StartsNoCase(verb, UNSUBSCRIBE + CRLF) then Unsubscribe
            else if StartsNoCase(verb, MONITOR + CRLF) then Monitor
            else Regular;
  }

  /** The table with every one of `channels` mapped to `cb`. */
  function Registered(table: map<string, Callback>, channels: seq<string>, cb: Callback): map<string, Callback> {
    table + map channel | channel in channels :: cb
  }

  lemma RegisterNone(table: map<string, Callback>, channels: seq<string>, cb: Callback)
    ensures Registered(table, channels[..0], cb) == table
  {
  }

  lemma RegisterOne(table: map<string, Callback>, channels: seq<string>, k: nat, cb: Callback)
    requires k < |channels|
    ensures Registered(table, channels[..k + 1], cb) == Registered(table, channels[..k], cb)[channels[k] := cb]
  {
    assert channels[..k + 1] == channels[..k] + [channels[k]];
  }

  /** Registers all arguments from `start`, the second one's place, on. */
  method Register(cmd: string, start: nat, table: Dict, cb: Callback, ghost name: string, ghost channels: seq<string>)
    requires cmd == CommandBytes([name] + channels) && start == Offset([name] + channels, 1) <= |cmd|
    requires table.Valid()
    modifies table, table.table, table.repr
    ensures table.Valid() && table.contents == Registered(old(table.contents), channels, cb)
    ensures fresh(table.repr - old(table.repr)) && (fresh(table.table) || table.table == old(table.table))
  {
    hide NextArgument.NextArgument, Offset, CommandBytes, ArgumentsBytes, Dict.Shape, Dict.Indexed, Registered;
    ghost var argv, k := [name] + channels, 1;
    FindsEveryArgument(cmd, argv);
    RegisterNone(table.contents, channels, cb);
    var next := NextArgument.NextArgument(cmd, start);
    assert FindsArgument(cmd, argv, 1);
    while next.Argument?
      invariant 1 <= k <= |argv| && FindsArgument(cmd, argv, k)
      invariant next == NextArgument.NextArgument(cmd, Offset(argv, k))
      invariant table.Valid() && table.contents == Registered(old(table.contents), channels[..k - 1], cb)
      invariant fresh(table.repr - old(table.repr)) && (fresh(table.table) || table.table == old(table.table))
      decreases |argv| - k
    {
      assert FindsArgument(cmd, argv, k + 1);
      var sname := cmd[next.str..next.str + next.len];
      assert sname == channels[k - 1];
      RegisterOne(old(table.contents), channels, k - 1, cb);
      var added := table.Replace(sname, cb);
      next := NextArgument.NextArgument(cmd, next.next);
      k := k + 1;
    }
    assert channels[..k - 1] == channels;
  }
}
