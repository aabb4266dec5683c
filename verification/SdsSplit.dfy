/** Splitting a byte string at a separator, and joining the pieces again. */
module SdsSplit {
  import opened Bytes

  /** The separator stands at `i`. */
  predicate MatchAt(s: string, sep: string, i: int) {
    0 <= i && i + |sep| <= |s| && s[i..i + |sep|] == sep
  }

  ghost predicate Contains(s: string, sep: string) {
    exists i :: MatchAt(s, sep, i)
  }

  /** The first place of the separator. */
  ghost predicate FirstMatch(s: string, sep: string, i: nat) {
    MatchAt(s, sep, i) && forall k :: 0 <= k < i ==> !MatchAt(s, sep, k)
  }

  function Join(tokens: seq<string>, sep: string): string {
    if tokens == [] then ""
    else if |tokens| == 1 then tokens[0]
    else tokens[0] + sep + Join(tokens[1..], sep)
  }

  /**
   Every token but the last is followed by the leftmost separator, and the last
   holds none: this is what makes a splitting of `s` the one it is.
   */
  ghost predicate SplitsAt(tokens: seq<string>, s: string, sep: string)
    decreases |tokens|
  {
    tokens != [] &&
    if |tokens| == 1 then tokens[0] == s && !Contains(s, sep)
    else
      var n := |tokens[0]|;
      FirstMatch(s, sep, n) && s[..n] == tokens[0] && SplitsAt(tokens[1..], s[n + |sep|..], sep)
  }

  lemma {:induction false} SplittingJoins(tokens: seq<string>, s: string, sep: string)
    requires SplitsAt(tokens, s, sep)
    ensures Join(tokens, sep) == s
    decreases |tokens|
  {
    if |tokens| > 1 {
      var n := |tokens[0]|;
      SplittingJoins(tokens[1..], s[n + |sep|..], sep);
      assert s == s[..n] + s[n..n + |sep|] + s[n + |sep|..];
    }
  }

  lemma {:induction false} TokensHoldNoSeparator(tokens: seq<string>, s: string, sep: string, i: nat)
    requires SplitsAt(tokens, s, sep) && sep != "" && i < |tokens|
    ensures !Contains(tokens[i], sep)
    decreases |tokens|
  {
    if |tokens| > 1 {
      var n := |tokens[0]|;
      if i > 0 {
        TokensHoldNoSeparator(tokens[1..], s[n + |sep|..], sep, i - 1);
      } else {
        forall k ensures !MatchAt(tokens[0], sep, k) {
          if MatchAt(tokens[0], sep, k) {
            PrefixSlice(s, n, k, k + |sep|);
            assert MatchAt(s, sep, k);
          }
        }
      }
    }
  }

  /** Joining puts the separator between every two tokens and nowhere else. */
  lemma JoinMeans(token: string, others: seq<string>, sep: string)
    ensures Join([], sep) == "" && Join([token], sep) == token
    ensures others != [] ==> Join([token] + others, sep) == token + sep + Join(others, sep)
  {
    assert ([token] + others)[1..] == others;
  }

  /** The separator that ends a token is the first one from the token's start on, overlaps included. */
  lemma {:induction false} EachCutIsLeftmost(tokens: seq<string>, s: string, sep: string, i: nat, k: nat)
    requires SplitsAt(tokens, s, sep) && i + 1 < |tokens| && k < |tokens[i]|
    ensures (tokens[i] + sep)[k..k + |sep|] != sep
    decreases |tokens|
  {
    var n := |tokens[0]|;
    if i > 0 {
      EachCutIsLeftmost(tokens[1..], s[n + |sep|..], sep, i - 1, k);
    } else {
      assert tokens[0] + sep == s[..n + |sep|];
      PrefixSlice(s, n + |sep|, k, k + |sep|);
      assert !MatchAt(s, sep, k);
    }
  }

  lemma {:induction false} SplittingIsUnique(a: seq<string>, b: seq<string>, s: string, sep: string)
    requires SplitsAt(a, s, sep) && SplitsAt(b, s, sep)
    ensures a == b
    decreases |a|
  {
    if |a| > 1 {
      assert MatchAt(s, sep, |a[0]|);
      assert |b| > 1;
      assert MatchAt(s, sep, |b[0]|);
      SplittingIsUnique(a[1..], b[1..], s[|a[0]| + |sep|..], sep);
      assert a == [a[0]] + a[1..] && b == [b[0]] + b[1..];
    }
  }

  // ------------------------------------------------------------ the splitter

  /** `tokens` are the pieces of `s` up to `start`, each ended by the leftmost separator. */
  ghost predicate SplitSoFar(tokens: seq<string>, s: string, sep: string, start: nat)
    decreases |tokens|
  {
    if tokens == [] then start == 0
    else
      var n := |tokens[0]|;
      FirstMatch(s, sep, n) && s[..n] == tokens[0] && n + |sep| <= start <= |s| &&
      SplitSoFar(tokens[1..], s[n + |sep|..], sep, start - n - |sep|)
  }

  /** `SplitSoFar`, one token at a time. */
  lemma SplitStep(tokens: seq<string>, s: string, sep: string, start: nat)
    requires tokens != []
    ensures var n := |tokens[0]|;
            SplitSoFar(tokens, s, sep, start) <==>
            FirstMatch(s, sep, n) && s[..n] == tokens[0] && n + |sep| <= start <= |s| &&
            SplitSoFar(tokens[1..], s[n + |sep|..], sep, start - n - |sep|)
  {
  }

  lemma OneToken(s: string, sep: string, k: nat)
    requires FirstMatch(s, sep, k)
    ensures SplitSoFar([s[..k]], s, sep, k + |sep|)
  {
    assert [s[..k]][1..] == [];
  }

  lemma {:induction false} AnotherToken(tokens: seq<string>, s: string, sep: string, start: nat, k: nat)
    requires SplitSoFar(tokens, s, sep, start) && start <= |s| && FirstMatch(s[start..], sep, k)
    ensures start + k + |sep| <= |s| && SplitSoFar(tokens + [s[start..start + k]], s, sep, start + k + |sep|)
    decreases |tokens|, 1
  {
    MatchFits(s, sep, start, k);
    if tokens == [] {
      assert s[0..] == s && [] + [s[..k]] == [s[..k]];
      OneToken(s, sep, k);
    } else {
      AnotherTokenBehind(tokens, s, sep, start, k);
    }
  }

  lemma MatchFits(s: string, sep: string, start: nat, k: nat)
    requires start <= |s| && FirstMatch(s[start..], sep, k)
    ensures start + k + |sep| <= |s|
  {
  }

  lemma {:induction false} AnotherTokenBehind(tokens: seq<string>, s: string, sep: string, start: nat, k: nat)
    requires SplitSoFar(tokens, s, sep, start) && start <= |s| && FirstMatch(s[start..], sep, k)
    requires tokens != [] && start + k + |sep| <= |s|
    ensures SplitSoFar(tokens + [s[start..start + k]], s, sep, start + k + |sep|)
    decreases |tokens|, 0
  {
    hide FirstMatch, SplitSoFar;
    SplitStep(tokens, s, sep, start);
    var n, last := |tokens[0]| + |sep|, s[start..start + k];
    SuffixSlice(s, n, 0, start - n);
    SuffixSlice(s, n, start - n, start - n + k);
    AnotherToken(tokens[1..], s[n..], sep, start - n, k);
    TailSnoc(tokens, last);
    SplitStep(tokens + [last], s, sep, start + k + |sep|);
  }

  lemma TailSnoc(tokens: seq<string>, last: string)
    requires tokens != []
    ensures (tokens + [last])[1..] == tokens[1..] + [last] && (tokens + [last])[0] == tokens[0]
  {
  }

  lemma {:induction false} FinalToken(tokens: seq<string>, s: string, sep: string, start: nat)
    requires SplitSoFar(tokens, s, sep, start) && start <= |s| && !Contains(s[start..], sep)
    ensures SplitsAt(tokens + [s[start..]], s, sep)
    decreases |tokens|
  {
    if tokens == [] {
      assert s[0..] == s;
    } else {
      var n := |tokens[0]| + |sep|;
      assert (tokens + [s[start..]])[1..] == tokens[1..] + [s[start..]];
      assert s[n..][start - n..] == s[start..];
      FinalToken(tokens[1..], s[n..], sep, start - n);
    }
  }

  lemma MatchInSuffix(s: string, sep: string, start: nat, k: nat)
    requires start <= |s|
    ensures MatchAt(s[start..], sep, k) <==> MatchAt(s, sep, start + k)
  {
    if k + |sep| <= |s| - start {
      assert s[start..][k..k + |sep|] == s[start + k..start + k + |sep|];
    }
  }

  /** Twice the room, same contents. */
  method Grow(tokens: array<string>, slots: nat, elements: nat) returns (newtokens: array<string>)
    requires elements <= tokens.Length <= slots
    ensures fresh(newtokens) && newtokens.Length == slots
    ensures newtokens[..elements] == tokens[..elements]
  {
    newtokens := new string[slots];
    forall i | 0 <= i < tokens.Length {
      newtokens[i] := tokens[i];
    }
  }

  method Store(tokens: array<string>, elements: nat, token: string)
    requires elements < tokens.Length
    modifies tokens
    ensures tokens[..elements + 1] == old(tokens[..elements]) + [token]
  {
    tokens[elements] := token;
  }

  /** Stores the token that ends at the separator found at `j`. */
  method StoreToken(tokens: array<string>, elements: nat, ghost got: seq<string>,
                    s: string, sep: string, start: nat, j: nat)
    returns (ghost got': seq<string>)
    requires elements < tokens.Length && tokens[..elements] == got && SplitSoFar(got, s, sep, start)
    requires start <= j && j + |sep| <= |s| && |sep| >= 1 && s[j..j + |sep|] == sep
    requires forall k :: start <= k < j ==> !MatchAt(s, sep, k)
    modifies tokens
    ensures tokens[..elements + 1] == got' && SplitSoFar(got', s, sep, j + |sep|)
  {
    hide SplitSoFar, FirstMatch;
    FoundFirst(s, sep, start, j);
    AnotherToken(got, s, sep, start, j - start);
    got' := got + [s[start..j]];
    Store(tokens, elements, s[start..j]);
  }

  /** `None` for an empty separator; the array always has room for the next and the final token. */
  method SplitLen(s: string, sep: string) returns (r: Option<seq<string>>)
    ensures r.None? <==> sep == ""
    ensures r.Some? ==> if s == "" then r.value == [] else SplitsAt(r.value, s, sep)
  {
    if |sep| < 1 {
      return None;
    }
    var elements: nat, slots: nat, start: nat := 0, 5, 0;
    var tokens := new string[slots];
    if |s| == 0 {
      return Some([]);
    }
    var j: nat := 0;
    ghost var got: seq<string> := [];
    while j < |s| - (|sep| - 1)
      invariant j <= |s| && slots == tokens.Length && fresh(tokens)
      invariant Scanned(s, sep, start, j, tokens[..], elements, got)
      decreases |s| - j
    {
      tokens, slots, elements, start, j, got := ScanOn(s, sep, tokens, slots, elements, start, j, got);
    }
    NoneLeft(s, sep, start, j);
    FinalToken(got, s, sep, start);
    Store(tokens, elements, s[start..]);
    elements := elements + 1;
    return Some(tokens[..elements]);
  }

  /** The scan has come to `j`; there is room for the next token, and for one more after the end. */
  ghost predicate Scanned(s: string, sep: string, start: nat, j: nat,
                          tokens: seq<string>, elements: nat, got: seq<string>)
  {
    && start <= j && start <= |s| && elements + 1 <= |tokens| && 5 <= |tokens|
    && tokens[..elements] == got && SplitSoFar(got, s, sep, start)
    && forall k :: start <= k < j ==> !MatchAt(s, sep, k)
  }

  /** One position of the scan: makes room, and stores a token if the separator stands there. */
  method ScanOn(s: string, sep: string, tokens: array<string>, slots: nat, elements: nat, start: nat, j: nat,
                ghost got: seq<string>)
    returns (tokens': array<string>, slots': nat, elements': nat, start': nat, j': nat, ghost got': seq<string>)
    requires |sep| >= 1 && j < |s| - (|sep| - 1) && slots == tokens.Length
    requires Scanned(s, sep, start, j, tokens[..], elements, got)
    modifies tokens
    ensures (tokens' == tokens || fresh(tokens')) && slots' == tokens'.Length
    ensures j < j' <= |s| && Scanned(s, sep, start', j', tokens'[..], elements', got')
  {
    hide SplitSoFar, FirstMatch;
    tokens', slots', elements', start', j', got' := tokens, slots, elements, start, j + 1, got;
    if slots' < elements + 2 {
      slots' := slots' * 2;
      tokens' := Grow(tokens', slots', elements);
    }
    assert tokens'[..][..elements] == tokens'[..elements] == got;
    if (|sep| == 1 && s[j] == sep[0]) || s[j..j + |sep|] == sep {
      got' := StoreToken(tokens', elements, got, s, sep, start, j);
      elements', start', j' := elements + 1, j + |sep|, j + |sep|;
      assert tokens'[..][..elements'] == tokens'[..elements'];
    } else {
      assert !MatchAt(s, sep, j);
    }
  }

  lemma FoundFirst(s: string, sep: string, start: nat, j: nat)
    requires start <= j && j + |sep| <= |s| && |sep| >= 1
    requires (|sep| == 1 && s[j] == sep[0]) || s[j..j + |sep|] == sep
    requires forall k :: start <= k < j ==> !MatchAt(s, sep, k)
    ensures FirstMatch(s[start..], sep, j - start)
  {
    assert s[j..j + |sep|] == sep;
    forall k: nat | k <= j - start ensures MatchAt(s[start..], sep, k) <==> MatchAt(s, sep, start + k) {
      MatchInSuffix(s, sep, start, k);
    }
  }

  lemma NoneLeft(s: string, sep: string, start: nat, j: nat)
    requires start <= |s| && j >= |s| - (|sep| - 1)
    requires forall k :: start <= k < j ==> !MatchAt(s, sep, k)
    ensures !Contains(s[start..], sep)
  {
    forall k ensures !MatchAt(s[start..], sep, k) {
      if k >= 0 {
        MatchInSuffix(s, sep, start, k);
      }
    }
  }

  method JoinSds(argv: seq<string>, sep: string) returns (join: string)
    ensures join == Join(argv, sep)
  {
    join := "";
    var j := 0;
    assert argv[j..] == argv;
    while j < |argv|
      invariant 0 <= j <= |argv|
      invariant join + Join(argv[j..], sep) == Join(argv, sep)
    {
      assert argv[j..][1..] == argv[j + 1..];
      ghost var before := join;
      join := join + argv[j];
      if j != |argv| - 1 {
        join := join + sep;
        Assoc(before, argv[j], sep);
        Assoc(before, argv[j] + sep, Join(argv[j + 1..], sep));
      }
      j := j + 1;
    }
  }
}
