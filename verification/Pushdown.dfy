/**
 What a half-read reply still needs: the recursive-descent parser, continued
 from the contents of the reader's task stack.
 */
module Pushdown {
  import opened Bytes
  import opened Resp
  import opened Streams

  /** An array under construction: its announced size and the elements already there. */
  datatype Frame = Frame(total: int, filled: seq<Reply>)

  /** The reader between two steps of one reply. */
  datatype Work =
    | Busy(frames: seq<Frame>, kind: Option<Kind>)
    | Finished(reply: Reply)

  ghost predicate WellFramed(frames: seq<Frame>) {
    |frames| <= MAX_DEPTH &&
    forall k :: 0 <= k < |frames| ==> |frames[k].filled| < frames[k].total
  }

  /** The root reply, once the item at the top of the stack turns out to be `r`. */
  function Plug(frames: seq<Frame>, r: Reply, s: string): Parse<Reply>
    requires WellFramed(frames)
  {
    if frames == [] then Ok(r, s)
    else
      var top := frames[|frames| - 1];
      match ParseItems(top.total - |top.filled| - 1, s, |frames|)
      case More => More
      case Bad(m) => Bad(m)
      case Ok(others, rest) => Plug(frames[..|frames| - 1], Array(top.total, top.filled + [r] + others), rest)
  }

  /** The outcome for the root reply when the unread bytes are `s`. */
  function Answer(w: Work, s: string): Parse<Reply>
    requires w.Busy? ==> WellFramed(w.frames)
  {
    match w
    case Finished(r) => Ok(r, s)
    case Busy(frames, kind) =>
      match (if kind.None? then ParseItem(s, |frames|) else ParseBody(kind.value, s, |frames|))
      case More => More
      case Bad(m) => Bad(m)
      case Ok(r, rest) => Plug(frames, r, rest)
  }

  ghost predicate ValidWork(w: Work) {
    w.Busy? ==> WellFramed(w.frames)
  }

  /** Consuming `eaten` takes `w` to `w'` without changing the outcome, whatever arrives later. */
  ghost predicate Advances(w: Work, eaten: string, w': Work) {
    ValidWork(w) && ValidWork(w') &&
    forall t :: Answer(w, eaten + t) == Answer(w', t)
  }

  lemma AdvancesNothing(w: Work)
    requires ValidWork(w)
    ensures Advances(w, "", w)
  {
    hide Answer;
    forall t ensures Answer(w, "" + t) == Answer(w, t) {
      assert "" + t == t;
    }
  }

  lemma AdvancesTransitively(w: Work, a: string, w': Work, b: string, w'': Work)
    requires Advances(w, a, w') && Advances(w', b, w'')
    ensures Advances(w, a + b, w'')
  {
    hide Answer;
    forall t ensures Answer(w, a + b + t) == Answer(w'', t) {
      Assoc(a, b, t);
      AdvanceThenAnswer(w, a, w', b + t);
      AdvanceThenAnswer(w', b, w'', t);
    }
  }

  /** At the start of a reply the outcome is the specification parser's. */
  lemma StartIsParseItem(s: string)
    ensures Answer(Busy([], None), s) == ParseItem(s, 0)
  {
  }

  lemma AdvanceThenAnswer(w: Work, a: string, w': Work, t: string)
    requires Advances(w, a, w')
    ensures Answer(w, a + t) == Answer(w', t)
  {
    hide Answer;
  }

  /** Work that waits for bytes with `s` ahead also waits with nothing ahead. */
  lemma WaitsForMore(w: Work, s: string)
    requires ValidWork(w) && Answer(w, s).More?
    ensures Answer(w, "").More?
  {
  }

  // ---------------------------------------------------------------- the steps

  /** Where a completed item leaves the stack. */
  function MoveOn(frames: seq<Frame>, r: Reply): (w: Work)
    requires WellFramed(frames)
    ensures ValidWork(w)
  {
    if frames == [] then Finished(r)
    else
      var below, top := frames[..|frames| - 1], frames[|frames| - 1];
      var filled := top.filled + [r];
      if |filled| == top.total then MoveOn(below, Array(top.total, filled))
      else Busy(below + [Frame(top.total, filled)], None)
  }

  /** An array whose last element completes is itself an item that completes. */
  lemma MoveOnPops(frames: seq<Frame>, r: Reply)
    requires WellFramed(frames) && frames != []
    ensures var n := |frames| - 1;
            var top := frames[n];
            |top.filled| + 1 == top.total ==>
              MoveOn(frames, r) == MoveOn(frames[..n], Array(top.total, top.filled + [r]))
  {
  }

  lemma {:induction false} MoveOnKeepsAnswer(frames: seq<Frame>, r: Reply, t: string)
    requires WellFramed(frames)
    ensures Plug(frames, r, t) == Answer(MoveOn(frames, r), t)
    decreases |frames|
  {
    if frames != [] {
      var below, top := frames[..|frames| - 1], frames[|frames| - 1];
      var filled := top.filled + [r];
      if |filled| == top.total {
        assert filled + [] == filled;
        MoveOnKeepsAnswer(below, Array(top.total, filled), t);
      } else {
        OneMoreElement(below, top, r, t);
        assert frames == below + [top];
      }
    }
  }

  /** With elements still to come, the array goes on in its frame. */
  lemma OneMoreElement(below: seq<Frame>, top: Frame, r: Reply, t: string)
    requires WellFramed(below + [top]) && |top.filled| + 1 < top.total
    ensures WellFramed(below + [Frame(top.total, top.filled + [r])])
    ensures Plug(below + [top], r, t) == Answer(Busy(below + [Frame(top.total, top.filled + [r])], None), t)
  {
    var frames, filled := below + [top], top.filled + [r];
    var frames' := below + [Frame(top.total, filled)];
    assert frames[..|frames| - 1] == below && frames'[..|frames'| - 1] == below;
    var n, depth := top.total - |filled|, |frames|;
    var p := ParseItem(t, depth);
    if p.Ok? {
      FirstOk(n, t, depth, p.value, p.rest);
      var q := ParseItems(n - 1, p.rest, depth);
      if q.Ok? {
        Assoc(filled, [p.value], q.value);
      }
    }
  }

  lemma ReadTypeByte(frames: seq<Frame>, c: char)
    requires WellFramed(frames) && KindOf(c).Some?
    ensures Advances(Busy(frames, None), [c], Busy(frames, KindOf(c)))
  {
    forall t ensures Answer(Busy(frames, None), [c] + t) == Answer(Busy(frames, KindOf(c)), t) {
      ParseTypeByte(c, t, |frames|);
    }
  }

  /** An item whose bytes are all in `eaten` completes and the stack moves on. */
  lemma CompleteItem(frames: seq<Frame>, kind: Kind, eaten: string, r: Reply)
    requires WellFramed(frames)
    requires ParseBody(kind, eaten, |frames|) == Ok(r, "")
    ensures Advances(Busy(frames, Some(kind)), eaten, MoveOn(frames, r))
  {
    forall t ensures Answer(Busy(frames, Some(kind)), eaten + t) == Answer(MoveOn(frames, r), t) {
      ParseBodyExtends(kind, eaten, t, |frames|);
      assert "" + t == t;
      MoveOnKeepsAnswer(frames, r, t);
    }
  }

  /** Items that are complete with their first line. */
  lemma CompleteLine(frames: seq<Frame>, kind: Kind, unread: string, n: nat, r: Reply)
    requires WellFramed(frames) && FindCrlf(unread) == Some(n)
    requires kind == ArrayKind ==> |frames| < MAX_DEPTH
    requires ParseLine(kind, unread[..n], "", |frames|) == Ok(r, "")
    ensures Advances(Busy(frames, Some(kind)), unread[..n + 2], MoveOn(frames, r))
  {
    var line := unread[..n];
    FirstLine(unread);
    var eaten := unread[..n + 2];
    assert eaten == line + CRLF + "";
    FindCrlfAfterLine(line, "");
    assert eaten[..n] == line && eaten[n + 2..] == "";
    CompleteItem(frames, kind, eaten, r);
  }

  /** A bulk string is complete two bytes after its payload. */
  lemma CompleteBulk(frames: seq<Frame>, unread: string, n: nat, size: nat)
    requires WellFramed(frames) && FindCrlf(unread) == Some(n)
    requires ReadNumber(unread[..n]) == size && n + 2 + size + 2 <= |unread|
    ensures Advances(Busy(frames, Some(BulkKind)), unread[..n + 2 + size + 2],
                     MoveOn(frames, Bulk(unread[n + 2..n + 2 + size])))
  {
    var line := unread[..n];
    var eaten := unread[..n + 2 + size + 2];
    var rest := eaten[n + 2..];
    FirstLine(unread);
    assert eaten == line + CRLF + rest;
    FindCrlfAfterLine(line, rest);
    assert eaten[..n] == line;
    assert rest[..size] == unread[n + 2..n + 2 + size] && rest[size + 2..] == "";
    CompleteItem(frames, BulkKind, eaten, Bulk(rest[..size]));
  }

  lemma BulkWaits(frames: seq<Frame>, unread: string, n: nat, size: int)
    requires WellFramed(frames) && FindCrlf(unread) == Some(n)
    requires ReadNumber(unread[..n]) == size && 0 <= size && |unread| < n + 2 + size + 2
    ensures Answer(Busy(frames, Some(BulkKind)), unread).More?
  {
    BulkAhead(unread, n, |frames|);
    BulkIncomplete(size, unread[n + 2..]);
  }

  lemma BulkAhead(unread: string, n: nat, depth: nat)
    requires FindCrlf(unread) == Some(n)
    ensures ParseBody(BulkKind, unread, depth) == ParseBulk(ReadNumber(unread[..n]), unread[n + 2..])
  {
  }

  lemma BulkIncomplete(size: int, rest: string)
    requires 0 <= size && |rest| < size + 2
    ensures ParseBulk(size, rest).More?
  {
  }

  /** The header of a non-empty array pushes a frame. */
  lemma OpenArray(frames: seq<Frame>, unread: string, n: nat, count: int)
    requires WellFramed(frames) && |frames| < MAX_DEPTH
    requires FindCrlf(unread) == Some(n) && ReadNumber(unread[..n]) == count > 0
    ensures Advances(Busy(frames, Some(ArrayKind)), unread[..n + 2], Busy(frames + [Frame(count, [])], None))
  {
    var line := unread[..n];
    FirstLine(unread);
    assert unread[..n + 2] == line + CRLF;
    var w, w' := Busy(frames, Some(ArrayKind)), Busy(frames + [Frame(count, [])], None);
    forall t ensures Answer(w, line + CRLF + t) == Answer(w', t) {
      var s := line + CRLF + t;
      FindCrlfAfterLine(line, t);
      assert s[..|line|] == line && s[|line| + 2..] == t;
      assert ParseBody(ArrayKind, s, |frames|) == ParseArray(count, t, |frames|);
      FirstElement(frames, count, t);
    }
  }

  /** Parsing the elements of an array is resuming in a fresh frame. */
  lemma FirstElement(frames: seq<Frame>, count: int, t: string)
    requires WellFramed(frames) && |frames| < MAX_DEPTH && count > 0
    ensures Answer(Busy(frames + [Frame(count, [])], None), t) ==
            match ParseArray(count, t, |frames|)
            case More => More
            case Bad(m) => Bad(m)
            case Ok(r, rest) => Plug(frames, r, rest)
  {
    var frames' := frames + [Frame(count, [])];
    assert frames'[..|frames|] == frames;
    var p := ParseItem(t, |frames'|);
    if p.Ok? {
      var q := ParseItems(count - 1, p.rest, |frames'|);
      if q.Ok? {
        assert [] + [p.value] + q.value == [p.value] + q.value;
      }
    }
  }
}
