/**
 The incremental reply reader: a byte buffer with a cursor, a nine-slot task
 stack instead of recursion, and a reply tree that is filled in place.
 */
module Reader {
  import opened Bytes
  import opened Resp
  import opened Streams
  import opened Pushdown
  import Sds

  const REDIS_ERR_PROTOCOL := 4
  const REDIS_READER_MAX_BUF := 1024 * 16
  const DISCARD_THRESHOLD := 1024
  const STACK_SLOTS := 9

  // -------------------------------------------------------------- reply trees

  datatype NodeKind = StringNode | ArrayNode | IntegerNode | NilNode | StatusNode | ErrorNode

  /** Where a node stands: at the root, or at an index of an array. */
  datatype Path = Root | Element(of: Path, index: int)

  /** A reply object on the heap. `val` is the reply it stands for once its tree is complete. */
  class ReplyNode {
    var kind: NodeKind
    var integer: int
    var str: string
    var elements: int
    var element: seq<ReplyNode?>
    ghost var val: Reply
    ghost const path: Path          // which elements lead to it from the root

    constructor (kind: NodeKind, ghost path: Path)
      ensures this.kind == kind && this.path == path && integer == 0 && str == "" && elements == 0 && element == []
    {
      this.kind, this.path := kind, path;
      integer, str, elements, element := 0, "", 0, [];
    }
  }

  function TextNode(kind: Kind): NodeKind {
    match kind
    case StatusKind => StatusNode
    case ErrorKind => ErrorNode
    case _ => StringNode
  }

  function TextReply(kind: Kind, str: string): Reply {
    match kind
    case StatusKind => Status(str)
    case ErrorKind => Error(str)
    case _ => Bulk(str)
  }

  /** The tree under `n`, within `tree`, is the reply `v`; only real fields are consulted. */
  ghost predicate Represents(n: ReplyNode, v: Reply, tree: set<ReplyNode>)
    reads tree
    decreases v
  {
    n in tree &&
    match v
    case Nil => n.kind == NilNode
    case Status(text) => n.kind == StatusNode && n.str == text
    case Error(text) => n.kind == ErrorNode && n.str == text
    case Bulk(text) => n.kind == StringNode && n.str == text
    case Integer(value) => n.kind == IntegerNode && n.integer == value
    case Array(count, items) =>
      n.kind == ArrayNode && n.elements == count && |n.element| == |items| &&
      forall i :: 0 <= i < |items| ==> n.element[i] != null && Represents(n.element[i], items[i], tree)
  }

  /** What a reply object that represents a reply has in its fields. */
  lemma ObjectsSayWhatTheyAre(n: ReplyNode, v: Reply, tree: set<ReplyNode>)
    requires Represents(n, v, tree)
    ensures v.Nil? <==> n.kind == NilNode
    ensures v.Status? <==> n.kind == StatusNode
    ensures v.Error? <==> n.kind == ErrorNode
    ensures v.Bulk? <==> n.kind == StringNode
    ensures v.Integer? <==> n.kind == IntegerNode
    ensures v.Array? <==> n.kind == ArrayNode
    ensures v.Status? || v.Error? || v.Bulk? ==> n.str == v.text
    ensures v.Integer? ==> n.integer == v.value
    ensures v.Array? ==> n.elements == v.count && |n.element| == |v.items|
    ensures v.Array? ==> forall i :: 0 <= i < |v.items| ==>
                           n.element[i] != null && Represents(n.element[i], v.items[i], tree)
  {
  }

  /** `n` and its ghost value agree, looking one level down. */
  ghost predicate NodeOk(n: ReplyNode, done: set<ReplyNode>)
    reads n, done
  {
    match n.val
    case Nil => n.kind == NilNode
    case Status(text) => n.kind == StatusNode && n.str == text
    case Error(text) => n.kind == ErrorNode && n.str == text
    case Bulk(text) => n.kind == StringNode && n.str == text
    case Integer(value) => n.kind == IntegerNode && n.integer == value
    case Array(count, items) =>
      n.kind == ArrayNode && n.elements == count && |n.element| == |items| &&
      forall i :: 0 <= i < |items| ==>
        n.element[i] != null && n.element[i] in done && n.element[i].val == items[i] &&
        n.element[i].path == Element(n.path, i)
  }

  lemma {:induction false} CompleteTreesRepresent(n: ReplyNode, done: set<ReplyNode>)
    requires n in done && forall m :: m in done ==> NodeOk(m, done)
    ensures Represents(n, n.val, done)
    decreases n.val
  {
    if n.val.Array? {
      forall i | 0 <= i < |n.val.items|
        ensures n.element[i] != null && Represents(n.element[i], n.val.items[i], done)
      {
        CompleteTreesRepresent(n.element[i], done);
      }
    }
  }

  /** The node at a position: which element to follow at each level; null where there is none. */
  ghost function NodeAt(n: ReplyNode, v: Reply, tree: set<ReplyNode>, p: seq<int>): ReplyNode?
    requires Represents(n, v, tree)
    reads tree
    decreases |p|
  {
    if p == [] then n
    else if v.Array? && 0 <= p[0] < |v.items| then NodeAt(n.element[p[0]], v.items[p[0]], tree, p[1..])
    else null
  }

  /** Different positions hold different nodes, so releasing the tree releases every node once. */
  ghost predicate Unshared(n: ReplyNode, v: Reply, tree: set<ReplyNode>)
    requires Represents(n, v, tree)
    reads tree
  {
    forall p, q :: NodeAt(n, v, tree, p) != null && NodeAt(n, v, tree, p) == NodeAt(n, v, tree, q) ==> p == q
  }

  /** Going on from `path` through the elements `p`. */
  ghost function Follow(path: Path, p: seq<int>): Path
    decreases |p|
  {
    if p == [] then path else Follow(Element(path, p[0]), p[1..])
  }

  ghost function Depth(path: Path): nat {
    if path == Root then 0 else 1 + Depth(path.of)
  }

  lemma {:induction false} FollowGoesDeeper(path: Path, p: seq<int>)
    ensures Depth(Follow(path, p)) == Depth(path) + |p|
    decreases |p|
  {
    if p != [] {
      FollowGoesDeeper(Element(path, p[0]), p[1..]);
    }
  }

  lemma {:induction false} FollowIsInjective(a: Path, p: seq<int>, b: Path, q: seq<int>)
    requires |p| == |q| && Follow(a, p) == Follow(b, q)
    ensures a == b && p == q
    decreases |p|
  {
    if p != [] {
      FollowIsInjective(Element(a, p[0]), p[1..], Element(b, q[0]), q[1..]);
      assert p == [p[0]] + p[1..] && q == [q[0]] + q[1..];
    }
  }

  lemma {:induction false} PathLeadsThere(n: ReplyNode, done: set<ReplyNode>, p: seq<int>)
    requires n in done && (forall m :: m in done ==> NodeOk(m, done)) && Represents(n, n.val, done)
    ensures var m := NodeAt(n, n.val, done, p);
            m != null ==> m.path == Follow(n.path, p)
    decreases |p|
  {
    if p != [] && n.val.Array? && 0 <= p[0] < |n.val.items| {
      assert NodeOk(n, done);
      PathLeadsThere(n.element[p[0]], done, p[1..]);
    }
  }

  /** A complete tree shares no node. */
  lemma CompleteTreesAreTrees(n: ReplyNode, done: set<ReplyNode>)
    requires n in done && forall m :: m in done ==> NodeOk(m, done)
    ensures Represents(n, n.val, done) && Unshared(n, n.val, done)
  {
    CompleteTreesRepresent(n, done);
    forall p, q | NodeAt(n, n.val, done, p) != null && NodeAt(n, n.val, done, p) == NodeAt(n, n.val, done, q)
      ensures p == q
    {
      PathLeadsThere(n, done, p);
      PathLeadsThere(n, done, q);
      FollowGoesDeeper(n.path, p);
      FollowGoesDeeper(n.path, q);
      FollowIsInjective(n.path, p, n.path, q);
    }
  }

  /** What the owner of a reply tree finds in it. */
  method ReadTree(n: ReplyNode, ghost v: Reply, ghost tree: set<ReplyNode>) returns (r: Reply)
    requires Represents(n, v, tree)
    ensures r == v
    decreases v
  {
    match n.kind
    case NilNode => r := Nil;
    case StatusNode => r := Status(n.str);
    case ErrorNode => r := Error(n.str);
    case StringNode => r := Bulk(n.str);
    case IntegerNode => r := Integer(n.integer);
    case ArrayNode =>
      var items := [];
      for i := 0 to |n.element|
        invariant items == v.items[..i]
      {
        var item := ReadTree(n.element[i], v.items[i], tree);
        items := items + [item];
      }
      r := Array(n.elements, items);
  }

  // ------------------------------------------------------------------ scanning

  /** The first CRLF of the `len` bytes at `start`; the result counts from `start`. */
  method SeekNewline(buf: string, start: nat, len: nat) returns (r: Option<nat>)
    requires start + len == |buf|
    ensures r == FindCrlf(buf[start..])
  {
    ghost var s := buf[start..];
    var pos: int := 0;
    var last: int := len - 1;
    while pos < last
      invariant 0 <= pos <= last || (pos == 0 && last == -1)
      invariant forall i :: 0 <= i < pos ==> !CrlfAt(s, i)
    {
      while pos < last && buf[start + pos] != '\r'
        invariant 0 <= pos <= last
        invariant forall i :: 0 <= i < pos ==> !CrlfAt(s, i)
      {
        pos := pos + 1;
      }
      if pos == last {
        return None;
      } else if buf[start + pos + 1] == '\n' {
        FindCrlfUnique(s, pos);
        return Some(pos);
      } else {
        pos := pos + 1;
      }
    }
    return None;
  }

  /** Reads a number that starts at `start`; it never looks past the CR at `start + n`. */
  method ReadLongLong(buf: string, start: nat, ghost n: nat) returns (v: int)
    requires CrlfAt(buf, start + n)
    ensures v == ReadNumber(buf[start..start + n])
  {
    ghost var line := buf[start..start + n];
    var i, mult := start, 1;
    if buf[i] == '-' {
      mult, i := -1, i + 1;
    } else if buf[i] == '+' {
      mult, i := 1, i + 1;
    }
    v := 0;
    assert (if HasSign(line) then line[1..] else line) == buf[i..start + n];
    ghost var all := ReadDigits(0, buf[i..start + n]);
    while buf[i] != '\r'
      invariant start <= i <= start + n
      invariant ReadDigits(v, buf[i..start + n]) == all
      decreases start + n - i
    {
      assert i < start + n;
      assert buf[i..start + n][1..] == buf[i + 1..start + n];
      if '0' <= buf[i] <= '9' {
        v := v * 10 + DigitValue(buf[i]);
        i := i + 1;
      } else {
        return -1;
      }
    }
    v := mult * v;
  }

  // -------------------------------------------------------------------- reader

  /** One slot of the task stack; `parent` is the slot below it, or -1. */
  datatype Task = Task(kind: Option<Kind>, elements: int, idx: int, obj: ReplyNode?, parent: int)

  const START: Work := Busy([], None)

  class RedisReader {
    var err: int
    var errstr: string
    var buf: string
    var avail: nat
    var pos: nat
    var len: nat
    var maxbuf: nat
    const rstack: array<Task>
    var ridx: int
    var reply: ReplyNode?

    ghost var frames: seq<Frame>      // what the stack has read of its open arrays
    ghost var done: set<ReplyNode>    // complete nodes of the current tree
    ghost var nodes: set<ReplyNode>   // all nodes of the current tree
    ghost var taken: string           // bytes of the current reply already consumed

    /** Slot `k` is an open array whose elements before the next slot's index are complete. */
    ghost predicate Level(k: nat)
      requires k + 1 < rstack.Length && k < |frames| && done <= nodes
      reads `ridx, `frames, `done, `nodes, rstack, nodes
    {
      var t, next := rstack[k], rstack[k + 1];
      && t.kind == Some(ArrayKind)
      && t.obj != null && t.obj in nodes && t.obj !in done
      && t.obj.kind == ArrayNode
      && t.obj.elements == t.elements == frames[k].total == |t.obj.element|
      && next.parent == k
      && next.idx == |frames[k].filled| < frames[k].total
      && (forall j :: 0 <= j < |frames[k].filled| ==>
            t.obj.element[j] != null && t.obj.element[j] in done && t.obj.element[j].val == frames[k].filled[j] &&
            t.obj.element[j].path == Element(t.obj.path, j))
      && (k + 1 < ridx ==>
            t.obj.element[next.idx] == next.obj && next.obj != null && next.obj.path == Element(t.obj.path, next.idx))
    }

    ghost predicate DoneOk()
      reads `done, `nodes, nodes
    {
      done <= nodes && forall n :: n in done ==> NodeOk(n, done)
    }

    /** The invariant of the task stack while a reply is being read. */
    ghost predicate StackOk()
      reads `ridx, `frames, `done, `nodes, rstack, nodes
    {
      && rstack.Length == STACK_SLOTS
      && 0 <= ridx <= MAX_DEPTH && |frames| == ridx
      && rstack[0].idx == -1 && rstack[0].parent == -1
      && WellFramed(frames)
      && DoneOk()
      && (forall k :: 0 <= k < ridx ==> Level(k))
      && (forall k, l :: 0 <= k < l < ridx ==> rstack[k].obj != rstack[l].obj)
      && (ridx > 0 ==> rstack[0].obj != null && rstack[0].obj.path == Root)
    }

    ghost function Current(): (w: Work)
      requires StackOk()
      reads `ridx, `frames, `done, `nodes, rstack, nodes
      ensures ValidWork(w)
    {
      Busy(frames, rstack[ridx].kind)
    }

    ghost predicate BufferOk()
      reads `pos, `len, `buf
    {
      pos <= len == |buf|
    }

    /** The root reply object is the bottom slot's array, once there is one. */
    ghost predicate RootOk()
      requires rstack.Length == STACK_SLOTS
      reads `reply, `ridx, rstack
    {
      reply == if ridx == 0 then null else rstack[0].obj
    }

    /** Between two calls the stack is empty, or waits inside a reply. */
    ghost predicate Resting()
      reads `reply, `taken, `ridx, `frames, `done, `nodes, rstack, nodes
    {
      && rstack.Length == STACK_SLOTS
      && -1 <= ridx
      && (ridx == -1 ==> reply == null && taken == "" && nodes == {} && done == {} && frames == [])
      && (ridx >= 0 ==> StackOk() && RootOk() && Advances(START, taken, Current()) && Answer(Current(), "").More?)
    }

    /** Holds between any two calls of the public interface. */
    ghost predicate Valid()
      reads this, rstack, nodes
    {
      BufferOk() && Resting() && (err != 0 ==> err == REDIS_ERR_PROTOCOL && ridx == -1 && buf == "")
    }

    /** All bytes fed since the last reply was handed out. */
    ghost function Pending(): string
      requires BufferOk()
      reads this
    {
      taken + buf[pos..]
    }

    constructor ()
      ensures Valid() && fresh(rstack)
      ensures err == 0 && Pending() == "" && nodes == {}
    {
      err, errstr, buf, avail, pos, len := 0, "", "", 0, 0, 0;
      maxbuf := REDIS_READER_MAX_BUF;
      rstack := new Task[STACK_SLOTS](_ => Task(None, 0, 0, null, -1));
      ridx, reply := -1, null;
      frames, done, nodes, taken := [], {}, {}, "";
    }

    /** The steps taken since `w` consumed `eaten`; the reply is in `reply` once the stack is empty. */
    ghost predicate Reached(w: Work, eaten: string)
      reads `reply, `ridx, `frames, `done, `nodes, rstack, nodes
    {
      && rstack.Length == STACK_SLOTS && -1 <= ridx
      && if ridx >= 0 then StackOk() && RootOk() && Advances(w, eaten, Current())
         else DoneOk() && frames == [] && reply != null && reply in done && Advances(w, eaten, Finished(reply.val))
    }

    /** What one step, started in `w` with `unread` bytes ahead, has come to. */
    ghost predicate StepResult(ok: bool, w: Work, unread: string)
      reads this, rstack, nodes
    {
      && ValidWork(w)
      && BufferOk()
      && if err != 0 then
           !ok && err == REDIS_ERR_PROTOCOL && Cleared() && Answer(w, unread) == Bad(errstr)
         else
           && len - pos <= |unread|
           && var eaten := unread[..|unread| - (len - pos)];
           && unread == eaten + buf[pos..]
           && Reached(w, eaten)
           && (ok ==> eaten != "")
           && (!ok ==> ridx >= 0 && Answer(Current(), buf[pos..]).More?)
    }

    lemma StepDone(w: Work, unread: string, n: nat)
      requires ValidWork(w) && BufferOk() && err == 0 && 0 < n <= |unread|
      requires buf[pos..] == unread[n..] && Reached(w, unread[..n])
      ensures StepResult(true, w, unread)
    {
      assert unread == unread[..n] + unread[n..];
    }

    lemma StepWaits(unread: string)
      requires Ready() && buf[pos..] == unread && Answer(Current(), unread).More?
      ensures StepResult(false, Current(), unread)
    {
      AdvancesNothing(Current());
      assert unread == unread[..0] + unread && unread[..0] == "";
    }

    ghost predicate Ready()
      reads this, rstack, nodes
    {
      StackOk() && RootOk() && BufferOk() && err == 0
    }

    ghost predicate Cleared()
      reads this
    {
      buf == "" && pos == len == 0 && ridx == -1 && reply == null &&
      frames == [] && done == {} && nodes == {} && taken == ""
    }

    method SetError(kind: int, text: string)
      requires rstack.Length == STACK_SLOTS && kind != 0
      modifies this
      ensures err == kind && errstr == text
      ensures Cleared()
    {
      reply := null;
      buf, avail, pos, len := "", 0, 0, 0;
      ridx := -1;
      err, errstr := kind, text;
      frames, done, nodes, taken := [], {}, {}, "";
    }

    method ReadLine() returns (r: Option<(nat, nat)>)
      requires BufferOk()
      modifies this`pos
      ensures BufferOk()
      ensures r.None? ==> FindCrlf(old(buf[pos..])).None? && pos == old(pos)
      ensures r.Some? ==>
                r.value.0 == old(pos) && FindCrlf(old(buf[pos..])) == Some(r.value.1) &&
                pos == old(pos) + r.value.1 + 2
    {
      var p := pos;
      var s := SeekNewline(buf, p, len - p);
      match s
      case None => r := None;
      case Some(n) =>
        pos := pos + n + 2;
        r := Some((p, n));
    }

    // ------------------------------------------------------- building the tree

    /** The path of the item being read. */
    ghost function PathHere(): Path
      requires StackOk()
      reads `ridx, `frames, `done, `nodes, rstack, nodes
    {
      if ridx == 0 then Root
      else
        assert Level(ridx - 1);
        Element(rstack[ridx - 1].obj.path, rstack[ridx].idx)
    }

    /** `r` stands where the item being read belongs. */
    ghost predicate Placed(r: ReplyNode)
      requires StackOk()
      reads `ridx, `frames, `done, `nodes, rstack, nodes
    {
      && r.path == PathHere()
      && (ridx > 0 ==>
            assert Level(ridx - 1);
            rstack[ridx - 1].obj.element[rstack[ridx].idx] == r)
    }

    /** `r` is complete and stands where the item being read belongs. */
    ghost predicate ItemIs(r: ReplyNode)
      requires StackOk()
      reads `ridx, `frames, `done, `nodes, rstack, nodes
    {
      r in done && Placed(r)
    }

    /** Stores a new object in its parent array, if it has one. */
    method Link(task: Task, r: ReplyNode)
      requires StackOk() && task == rstack[ridx] && r !in nodes && r.path == PathHere()
      modifies nodes`element
      ensures StackOk() && Placed(r)
    {
      assert ridx > 0 ==> Level(ridx - 1);
      if task.parent != -1 {
        var parent := rstack[task.parent].obj;
        assert parent.kind == ArrayNode;
        parent.element := parent.element[task.idx := r];
        forall k | 0 <= k < ridx ensures Level(k) {
          assert old(Level(k));
        }
      }
    }

    /** Stores a new object that is complete on its own. */
    method LinkLeaf(task: Task, r: ReplyNode)
      requires StackOk() && task == rstack[ridx] && r !in nodes && r.path == PathHere()
      requires NodeOk(r, {})
      modifies nodes`element, this`done, this`nodes
      ensures StackOk() && ItemIs(r)
      ensures nodes == old(nodes) + {r} && r.val == old(r.val)
    {
      Link(task, r);
      label Linked:
      done, nodes := done + {r}, nodes + {r};
      forall k | 0 <= k < ridx ensures Level(k) {
        assert old@Linked(Level(k));
      }
    }

    /** Stores a new object that still waits for its elements. */
    method LinkOpen(task: Task, r: ReplyNode)
      requires StackOk() && task == rstack[ridx] && r !in nodes && r.path == PathHere()
      modifies nodes`element, this`nodes
      ensures StackOk() && Placed(r) && nodes == old(nodes) + {r}
    {
      Link(task, r);
      label Linked:
      nodes := nodes + {r};
      forall k | 0 <= k < ridx ensures Level(k) {
        assert old@Linked(Level(k));
      }
    }

    method CreateString(task: Task, str: string) returns (r: ReplyNode)
      requires StackOk() && task == rstack[ridx]
      requires task.kind in {Some(StatusKind), Some(ErrorKind), Some(BulkKind)}
      modifies nodes`element, this`done, this`nodes
      ensures StackOk() && ItemIs(r)
      ensures fresh(nodes - old(nodes))
      ensures r.val == TextReply(task.kind.value, str)
    {
      r := new ReplyNode(TextNode(task.kind.value), PathHere());
      r.str, r.val := str, TextReply(task.kind.value, str);
      LinkLeaf(task, r);
    }

    method CreateInteger(task: Task, value: int) returns (r: ReplyNode)
      requires StackOk() && task == rstack[ridx]
      modifies nodes`element, this`done, this`nodes
      ensures StackOk() && ItemIs(r)
      ensures fresh(nodes - old(nodes))
      ensures r.val == Integer(value)
    {
      r := new ReplyNode(IntegerNode, PathHere());
      r.integer, r.val := value, Integer(value);
      LinkLeaf(task, r);
    }

    method CreateNil(task: Task) returns (r: ReplyNode)
      requires StackOk() && task == rstack[ridx]
      modifies nodes`element, this`done, this`nodes
      ensures StackOk() && ItemIs(r)
      ensures fresh(nodes - old(nodes))
      ensures r.val == Nil
    {
      r := new ReplyNode(NilNode, PathHere());
      r.val := Nil;
      LinkLeaf(task, r);
    }

    /** An array object with `elements` empty places; without elements it is complete at once. */
    method CreateArray(task: Task, elements: int) returns (r: ReplyNode)
      requires StackOk() && task == rstack[ridx]
      modifies nodes`element, this`done, this`nodes
      ensures StackOk() && Placed(r)
      ensures fresh(nodes - old(nodes)) && r in nodes && r !in old(nodes)
      ensures elements <= 0 ==> ItemIs(r) && r.val == Array(elements, [])
      ensures elements > 0 ==>
                r !in done && r.kind == ArrayNode && r.elements == |r.element| == elements
    {
      hide RedisReader.Placed, RedisReader.Level;
      r := new ReplyNode(ArrayNode, PathHere());
      r.elements := elements;
      if elements > 0 {
        r.element := seq(elements, _ => null);
        LinkOpen(task, r);
      } else {
        r.val := Array(elements, []);
        LinkLeaf(task, r);
      }
    }

    // ----------------------------------------------------------- the machine

    /** Pops every array that `item` completes and prepares the slot of the next element. */
    method MoveToNextTask(ghost item: ReplyNode) returns (ghost root: ReplyNode)
      requires StackOk() && ItemIs(item)
      modifies this`ridx, this`frames, this`done, rstack, nodes`val
      ensures DoneOk() && root in done && -1 <= ridx
      ensures rstack[0].obj == old(rstack[0].obj)
      ensures ridx == -1 ==> frames == [] && MoveOn(old(frames), old(item.val)) == Finished(root.val)
      ensures ridx == -1 ==> root == if old(ridx) == 0 then item else old(rstack[0].obj)
      ensures ridx >= 0 ==> StackOk() && MoveOn(old(frames), old(item.val)) == Current()
      ensures ridx != 0
    {
      hide NodeOk, RedisReader.Placed, RedisReader.PathHere;
      root := item;
      ghost var slots := rstack[..];
      while ridx >= 0
        invariant StackOk() && ItemIs(root)
        invariant ridx <= old(ridx)
        invariant rstack[..] == slots
        invariant MoveOn(frames, root.val) == MoveOn(old(frames), old(item.val))
        invariant root == if ridx == old(ridx) then item else slots[ridx].obj
        decreases ridx
      {
        if ridx == 0 {
          ridx := ridx - 1;
          return;
        }
        assert Level(ridx - 1);
        var cur, prv := rstack[ridx], rstack[ridx - 1];
        assert prv.kind == Some(ArrayKind);
        if cur.idx == prv.elements - 1 {
          PopCompleted(root, prv.obj);
          root := prv.obj;
        } else {
          assert cur.idx < prv.elements;
          NextElement(root);
          return;
        }
      }
    }

    /** The top slot turns to the next element of its array. */
    method NextElement(ghost item: ReplyNode)
      requires StackOk() && ItemIs(item) && ridx > 0
      requires rstack[ridx].idx != rstack[ridx - 1].elements - 1
      modifies this`frames, rstack
      ensures StackOk() && Current() == MoveOn(old(frames), item.val)
      ensures rstack[0].obj == old(rstack[0].obj)
    {
      assert Level(ridx - 1);
      var cur := rstack[ridx];
      rstack[ridx] := cur.(kind := None, elements := -1, idx := cur.idx + 1);
      ghost var top := frames[ridx - 1];
      frames := frames[..ridx - 1] + [Frame(top.total, top.filled + [item.val])];
      forall k | 0 <= k < ridx ensures Level(k) {
        assert old(Level(k));
      }
    }

    /** The array below the top slot has received its last element, `last`. */
    method PopCompleted(ghost last: ReplyNode, ghost parent: ReplyNode)
      requires StackOk() && ItemIs(last) && ridx > 0 && parent == rstack[ridx - 1].obj
      requires rstack[ridx].idx == rstack[ridx - 1].elements - 1
      modifies this`ridx, this`frames, this`done, nodes`val
      ensures StackOk() && ItemIs(parent)
      ensures ridx == old(ridx) - 1 && frames == old(frames)[..ridx]
      ensures MoveOn(frames, parent.val) == MoveOn(old(frames), old(last.val))
    {
      hide MoveOn, NodeOk, RedisReader.Level;
      MoveOnPops(frames, last.val);
      ParentStands(last, parent);
      PopStack(last, parent);
    }

    /** Where the array below the top slot stands, and how many elements it has. */
    lemma ParentStands(last: ReplyNode, parent: ReplyNode)
      requires StackOk() && ItemIs(last) && ridx > 0 && parent == rstack[ridx - 1].obj
      requires rstack[ridx].idx == rstack[ridx - 1].elements - 1
      ensures ridx == 1 ==> parent.path == Root
      ensures ridx > 1 ==>
                var below, idx := rstack[ridx - 2].obj, rstack[ridx - 1].idx;
                below != null && below in nodes && 0 <= idx < |below.element| && below.element[idx] == parent &&
                parent.path == Element(below.path, idx)
      ensures |frames[ridx - 1].filled| + 1 == frames[ridx - 1].total
    {
      assert Level(ridx - 1);
      assert ridx > 1 ==> Level(ridx - 2);
    }

    method PopStack(ghost last: ReplyNode, ghost parent: ReplyNode)
      requires StackOk() && ItemIs(last) && ridx > 0 && parent == rstack[ridx - 1].obj
      requires rstack[ridx].idx == rstack[ridx - 1].elements - 1
      modifies this`ridx, this`frames, this`done, nodes`val
      ensures StackOk() && parent in done
      ensures ridx == old(ridx) - 1 && frames == old(frames)[..ridx]
      ensures parent.val == Array(old(frames)[ridx].total, old(frames)[ridx].filled + [old(last.val)])
    {
      assert Level(ridx - 1);
      parent.val := Array(frames[ridx - 1].total, frames[ridx - 1].filled + [last.val]);
      done := done + {parent};
      frames := frames[..ridx - 1];
      ridx := ridx - 1;
      assert NodeOk(parent, done);
      forall k | 0 <= k < ridx ensures Level(k) {
        assert old(Level(k));
      }
    }

    /** Makes a completed item the reply if it is the root, and moves on. */
    method PlaceItem(r: ReplyNode, ghost unread: string, ghost n: nat)
      requires Ready() && ItemIs(r)
      requires 0 < n <= |unread| && buf[pos..] == unread[n..]
      requires Advances(Current(), unread[..n], MoveOn(frames, r.val))
      modifies this`ridx, this`frames, this`done, this`reply, rstack, nodes`val
      ensures StepResult(true, old(Current()), unread)
    {
      ghost var w := Current();
      if ridx == 0 {
        reply := r;
      }
      ghost var root := MoveToNextTask(r);
      StepDone(w, unread, n);
    }

    method ProcessLineItem() returns (ok: bool)
      requires Ready() && rstack[ridx].kind in {Some(StatusKind), Some(ErrorKind), Some(IntegerKind)}
      modifies this, rstack, nodes
      ensures StepResult(ok, old(Current()), old(buf[pos..]))
      ensures fresh(nodes - old(nodes))
    {
      hide RedisReader.Level, RedisReader.DoneOk, Advances;
      ghost var unread := buf[pos..];
      var line := ReadLine();
      if line.None? {
        StepWaits(unread);
        return false;
      }
      var (p, n) := line.value;
      assert buf[p..p + n] == unread[..n] && buf[pos..] == unread[n + 2..];
      PlaceLineObject(p, n, unread);
      return true;
    }

    method PlaceLineObject(p: nat, n: nat, ghost unread: string)
      requires Ready() && rstack[ridx].kind in {Some(StatusKind), Some(ErrorKind), Some(IntegerKind)}
      requires FindCrlf(unread) == Some(n) && CrlfAt(buf, p + n)
      requires buf[p..p + n] == unread[..n] && buf[pos..] == unread[n + 2..]
      modifies this, rstack, nodes
      ensures StepResult(true, old(Current()), unread)
      ensures fresh(nodes - old(nodes))
    {
      hide RedisReader.Level, RedisReader.DoneOk, RedisReader.StepResult, Advances, ReadNumber, FindCrlf;
      ghost var kind := rstack[ridx].kind.value;
      var obj := CreateLineObject(p, n);
      CompleteLine(frames, kind, unread, n, obj.val);
      PlaceItem(obj, unread, n + 2);
    }

    /** The object for a complete line of `n` bytes at `p`. */
    method CreateLineObject(p: nat, n: nat) returns (obj: ReplyNode)
      requires StackOk() && rstack[ridx].kind in {Some(StatusKind), Some(ErrorKind), Some(IntegerKind)}
      requires CrlfAt(buf, p + n)
      modifies nodes`element, this`done, this`nodes
      ensures StackOk() && ItemIs(obj)
      ensures fresh(nodes - old(nodes))
      ensures ParseLine(rstack[ridx].kind.value, buf[p..p + n], "", ridx) == Ok(obj.val, "")
    {
      var cur := rstack[ridx];
      if cur.kind == Some(IntegerKind) {
        var v := ReadLongLong(buf, p, n);
        obj := CreateInteger(cur, v);
      } else {
        obj := CreateString(cur, buf[p..p + n]);
      }
    }

    method ProcessBulkItem() returns (ok: bool)
      requires Ready() && rstack[ridx].kind == Some(BulkKind)
      modifies this, rstack, nodes
      ensures StepResult(ok, old(Current()), old(buf[pos..]))
      ensures fresh(nodes - old(nodes))
    {
      hide RedisReader.Level, RedisReader.DoneOk, Advances;
      ghost var unread := buf[pos..];
      var s := SeekNewline(buf, pos, len - pos);
      if s.None? {
        StepWaits(unread);
        return false;
      }
      assert buf[pos..pos + s.value] == unread[..s.value];
      var size := ReadLongLong(buf, pos, s.value);
      ok := TakeBulk(s.value, size);
    }

    /** A bulk item whose header line has `n` bytes and announces `size` bytes. */
    method TakeBulk(n: nat, size: int) returns (ok: bool)
      requires Ready() && rstack[ridx].kind == Some(BulkKind)
      requires FindCrlf(buf[pos..]) == Some(n) && ReadNumber(buf[pos..][..n]) == size
      modifies this, rstack, nodes
      ensures StepResult(ok, old(Current()), old(buf[pos..]))
      ensures fresh(nodes - old(nodes))
    {
      hide RedisReader.Level, RedisReader.DoneOk, RedisReader.StepResult, Advances, Answer, ReadNumber, FindCrlf;
      ghost var unread := buf[pos..];
      var bytelen := n + 2;
      if size < 0 {
        FoundInside(unread, n);
        SuffixSlice(buf, pos, 0, bytelen);
        pos := pos + bytelen;
        PlaceNilBulk(unread, n);
        return true;
      }
      bytelen := bytelen + size + 2;
      if pos + bytelen > len {
        BulkWaits(frames, unread, n, size);
        StepWaits(unread);
        return false;
      }
      var str := buf[pos + n + 2..pos + n + 2 + size];
      SuffixSlice(buf, pos, n + 2, n + 2 + size);
      SuffixSlice(buf, pos, 0, bytelen);
      pos := pos + bytelen;
      PlaceBulk(str, unread, n);
      return true;
    }

    lemma FoundInside(s: string, n: nat)
      requires FindCrlf(s) == Some(n)
      ensures n + 2 <= |s|
    {
    }

    /** A negative length stands for nil and has no payload. */
    method PlaceNilBulk(ghost unread: string, ghost n: nat)
      requires Ready() && rstack[ridx].kind == Some(BulkKind)
      requires FindCrlf(unread) == Some(n) && ReadNumber(unread[..n]) < 0
      requires buf[pos..] == unread[n + 2..]
      modifies this, rstack, nodes
      ensures StepResult(true, old(Current()), unread)
      ensures fresh(nodes - old(nodes))
    {
      hide RedisReader.Level, RedisReader.DoneOk, RedisReader.StepResult, Advances, ReadNumber, FindCrlf;
      var obj := CreateNil(rstack[ridx]);
      CompleteLine(frames, BulkKind, unread, n, Nil);
      PlaceItem(obj, unread, n + 2);
    }

    /** The object for a bulk string whose bytes have all arrived. */
    method PlaceBulk(str: string, ghost unread: string, ghost n: nat)
      requires Ready() && rstack[ridx].kind == Some(BulkKind)
      requires FindCrlf(unread) == Some(n) && ReadNumber(unread[..n]) == |str|
      requires n + 2 + |str| + 2 <= |unread| && str == unread[n + 2..n + 2 + |str|]
      requires buf[pos..] == unread[n + 2 + |str| + 2..]
      modifies this, rstack, nodes
      ensures StepResult(true, old(Current()), unread)
      ensures fresh(nodes - old(nodes))
    {
      hide RedisReader.Level, RedisReader.DoneOk, RedisReader.StepResult, Advances, ReadNumber, FindCrlf;
      CompleteBulk(frames, unread, n, |str|);
      var obj := CreateString(rstack[ridx], str);
      PlaceItem(obj, unread, n + 2 + |str| + 2);
    }

    method ProcessMultiBulkItem() returns (ok: bool)
      requires Ready() && rstack[ridx].kind == Some(ArrayKind)
      modifies this, rstack, nodes
      ensures StepResult(ok, old(Current()), old(buf[pos..]))
      ensures err != 0 <==> old(ridx) == 8
      ensures old(ridx) == 8 ==>
                !ok && err == 4 && errstr == "No support for nested multi bulk replies with depth > 7"
      ensures fresh(nodes - old(nodes))
    {
      hide RedisReader.Level, RedisReader.DoneOk, Advances;
      ghost var unread := buf[pos..];
      if ridx == MAX_DEPTH {
        SetError(REDIS_ERR_PROTOCOL, TOO_DEEP);
        return false;
      }
      var line := ReadLine();
      if line.None? {
        StepWaits(unread);
        return false;
      }
      var (p, n) := line.value;
      assert buf[p..p + n] == unread[..n] && buf[pos..] == unread[n + 2..];
      var elements := ReadLongLong(buf, p, n);
      if elements > 0 {
        OpenArrayObject(elements, unread, n);
      } else {
        PlaceEmptyArray(elements, unread, n);
      }
      return true;
    }

    /** A nil array or one without elements is complete with its header. */
    method PlaceEmptyArray(elements: int, ghost unread: string, ghost n: nat)
      requires Ready() && rstack[ridx].kind == Some(ArrayKind) && ridx < MAX_DEPTH
      requires FindCrlf(unread) == Some(n) && ReadNumber(unread[..n]) == elements <= 0
      requires buf[pos..] == unread[n + 2..]
      modifies this, rstack, nodes
      ensures StepResult(true, old(Current()), unread)
      ensures fresh(nodes - old(nodes))
    {
      hide RedisReader.Level, RedisReader.DoneOk, RedisReader.StepResult, Advances, ReadNumber, FindCrlf;
      var cur := rstack[ridx];
      var obj;
      if elements == -1 {
        obj := CreateNil(cur);
      } else {
        obj := CreateArray(cur, elements);
      }
      CompleteLine(frames, ArrayKind, unread, n, obj.val);
      PlaceItem(obj, unread, n + 2);
    }

    /** Pushes a slot for the first element of a new array. */
    method OpenArrayObject(elements: int, ghost unread: string, ghost n: nat)
      requires Ready() && rstack[ridx].kind == Some(ArrayKind) && ridx < MAX_DEPTH
      requires FindCrlf(unread) == Some(n) && ReadNumber(unread[..n]) == elements > 0
      requires buf[pos..] == unread[n + 2..]
      modifies this, rstack, nodes
      ensures StepResult(true, old(Current()), unread)
      ensures fresh(nodes - old(nodes))
    {
      hide RedisReader.Level, RedisReader.DoneOk, ReadNumber, FindCrlf, Advances;
      ghost var w := Current();
      OpenArray(frames, unread, n, elements);
      var cur := rstack[ridx];
      var obj := CreateArray(cur, elements);
      if ridx == 0 {
        reply := obj;
      }
      PushSlot(obj, elements);
      StepDone(w, unread, n + 2);
    }

    method PushSlot(obj: ReplyNode, elements: int)
      requires StackOk() && rstack[ridx].kind == Some(ArrayKind) && ridx < MAX_DEPTH
      requires obj in nodes && obj !in done && obj.kind == ArrayNode && obj.elements == |obj.element| == elements > 0
      requires forall k :: 0 <= k < ridx ==> rstack[k].obj != obj
      requires Placed(obj)
      modifies this`ridx, this`frames, rstack
      ensures StackOk() && ridx == old(ridx) + 1 <= 8 < rstack.Length
      ensures rstack[0].obj == if old(ridx) == 0 then obj else old(rstack[0].obj)
      ensures Current() == Busy(old(frames) + [Frame(elements, [])], None)
    {
      rstack[ridx] := rstack[ridx].(elements := elements, obj := obj);
      ridx := ridx + 1;
      rstack[ridx] := Task(None, -1, 0, null, ridx - 1);
      frames := frames + [Frame(elements, [])];
      forall k | 0 <= k < ridx ensures Level(k) {
        assert k < ridx - 1 ==> old(Level(k));
      }
    }

    /** Reads a type byte if none is known yet, then as much of the item as has arrived. */
    method ProcessItem() returns (ok: bool)
      requires Ready()
      modifies this, rstack, nodes
      ensures StepResult(ok, old(Current()), old(buf[pos..]))
      ensures fresh(nodes - old(nodes))
    {
      hide RedisReader.Level, RedisReader.DoneOk, RedisReader.StepResult, Advances;
      ghost var w, unread := Current(), buf[pos..];
      if rstack[ridx].kind.Some? {
        ok := ProcessTyped();
        return;
      }
      if len - pos < 1 {
        StepWaits(unread);
        return false;
      }
      var c := buf[pos];
      pos := pos + 1;
      assert unread == [c] + buf[pos..];
      var kind := KindOf(c);
      if kind.None? {
        RefuseType(c, w, unread);
        return false;
      }
      SetKind(kind);
      ReadTypeByte(frames, c);
      ghost var w' := Current();
      ghost var unread' := buf[pos..];
      ok := ProcessTyped();
      PrependByte(ok, w, c, w', unread');
    }

    /** An unknown type byte is a protocol error. */
    method RefuseType(c: char, ghost w: Work, ghost unread: string)
      requires Ready() && rstack[ridx].kind == None && w == Current()
      requires unread != "" && unread[0] == c && KindOf(c) == None
      modifies this
      ensures StepResult(false, w, unread) && nodes == {}
    {
      SetError(REDIS_ERR_PROTOCOL, BadTypeByte(c));
    }

    method SetKind(kind: Option<Kind>)
      requires Ready()
      modifies rstack
      ensures Ready() && Current() == Busy(frames, kind)
    {
      rstack[ridx] := rstack[ridx].(kind := kind);
      forall k | 0 <= k < ridx ensures Level(k) {
        assert old(Level(k));
      }
    }

    lemma PrependByte(ok: bool, w: Work, c: char, w': Work, unread: string)
      requires Advances(w, [c], w') && StepResult(ok, w', unread)
      ensures StepResult(ok, w, [c] + unread)
    {
      AdvanceThenAnswer(w, [c], w', unread);
      if err == 0 {
        var eaten := unread[..|unread| - (len - pos)];
        var eaten' := ([c] + unread)[..1 + |eaten|];
        assert eaten' == [c] + eaten;
        assert [c] + unread == eaten' + buf[pos..];
        if ridx >= 0 {
          AdvancesTransitively(w, [c], w', eaten, Current());
        } else {
          AdvancesTransitively(w, [c], w', eaten, Finished(reply.val));
        }
      }
    }

    method ProcessTyped() returns (ok: bool)
      requires Ready() && rstack[ridx].kind.Some?
      modifies this, rstack, nodes
      ensures StepResult(ok, old(Current()), old(buf[pos..]))
      ensures fresh(nodes - old(nodes))
    {
      match rstack[ridx].kind.value
      case BulkKind => ok := ProcessBulkItem();
      case ArrayKind => ok := ProcessMultiBulkItem();
      case _ => ok := ProcessLineItem();
    }

    /** Puts the root task on the empty stack. */
    method Begin()
      requires Valid() && err == 0 && ridx == -1
      modifies this`ridx, rstack
      ensures Ready() && Reached(START, taken)
    {
      rstack[0] := Task(None, -1, -1, null, -1);
      ridx := 0;
      AdvancesNothing(START);
    }

    /** Runs the machine until the reply is complete or the bytes run out. */
    method Consume()
      requires Ready() && Reached(START, taken)
      modifies this, rstack, nodes
      ensures fresh(nodes - old(nodes))
      ensures BufferOk() && rstack.Length == STACK_SLOTS
      ensures err != 0 ==>
                err == REDIS_ERR_PROTOCOL && Cleared() && ParseItem(old(Pending()), 0) == Bad(errstr)
      ensures err == 0 ==> Pending() == old(Pending()) && Reached(START, taken)
      ensures err == 0 && ridx >= 0 ==> Answer(Current(), buf[pos..]).More?
    {
      hide RedisReader.Level, RedisReader.DoneOk, Advances, ParseItem, ParseBody;
      StartIsParseItem(Pending());
      while ridx >= 0
        invariant BufferOk() && err == 0 && Reached(START, taken)
        invariant Pending() == old(Pending())
        invariant fresh(nodes - old(nodes))
        decreases len - pos
      {
        ghost var w, unread, before := Current(), buf[pos..], taken;
        AdvanceThenAnswer(START, before, w, unread);
        var ok := ProcessItem();
        if err == 0 {
          Accumulate(ok, w, unread, before);
        }
        if !ok {
          break;
        }
      }
    }

    /** Adds the bytes of the last step to those taken by the current reply. */
    ghost method Accumulate(ok: bool, w: Work, unread: string, before: string)
      requires StepResult(ok, w, unread) && err == 0 && Advances(START, before, w)
      modifies this`taken
      ensures BufferOk() && Reached(START, taken) && Pending() == before + unread
    {
      hide RedisReader.Level, RedisReader.DoneOk, Advances;
      var eaten := unread[..|unread| - (len - pos)];
      taken := before + eaten;
      if ridx >= 0 {
        AdvancesTransitively(START, before, w, eaten, Current());
      } else {
        AdvancesTransitively(START, before, w, eaten, Finished(reply.val));
      }
    }

    // -------------------------------------------------------- public interface

    /** Appends bytes, unless an earlier error made the reader unusable. */
    method Feed(data: string) returns (ok: bool)
      requires Valid()
      modifies this`buf, this`avail, this`pos, this`len
      ensures Valid()
      ensures ok == (err == 0)
      ensures Pending() == old(Pending()) + if ok then data else ""
    {
      if err != 0 {
        return false;
      }
      AppendData(data);
      return true;
    }

    /** Copies `data` behind the unread bytes; an idle large buffer is replaced first. */
    method AppendData(data: string)
      requires BufferOk()
      modifies this`buf, this`avail, this`pos, this`len
      ensures BufferOk() && buf[pos..] == old(buf[pos..]) + data
    {
      if data != "" {
        if len == 0 && maxbuf != 0 && avail > maxbuf {
          buf, avail, pos := "", 0, 0;
        }
        avail := Sds.MakeRoomFor(len, avail, |data|) - |data|;
        buf := buf + data;
        len := |buf|;
      }
    }

    /**
     The next reply, if the bytes fed so far hold one. The answer is the one
     the specification parser gives for those bytes.
     */
    method GetReply() returns (ok: bool, r: ReplyNode?, ghost tree: set<ReplyNode>)
      requires Valid()
      modifies this, rstack, nodes
      ensures Valid() && fresh(nodes - old(nodes)) && nodes !! tree && fresh(tree - old(nodes))
      ensures ok == (err == 0)
      ensures old(err) != 0 ==> err == old(err) && errstr == old(errstr) && r == null
      ensures old(err) == 0 ==>
                match ParseItem(old(Pending()), 0)
                case More => ok && r == null && Pending() == old(Pending())
                case Bad(m) => err == REDIS_ERR_PROTOCOL && errstr == m && r == null && Pending() == ""
                case Ok(v, rest) =>
                  ok && r != null && Represents(r, v, tree) && Unshared(r, v, tree) && Pending() == rest
    {
      r, tree := null, {};
      if err != 0 {
        return false, null, {};
      }
      if len == 0 {
        NothingToRead();
        return true, null, {};
      }
      Advance();
      if err != 0 {
        return false, null, {};
      }
      if ridx == -1 {
        r, tree := Emit();
      }
      ok := true;
    }

    /** Reads on as far as the buffered bytes go. */
    method Advance()
      requires Valid() && err == 0
      modifies this, rstack, nodes
      ensures fresh(nodes - old(nodes))
      ensures BufferOk() && -1 <= ridx
      ensures match ParseItem(old(Pending()), 0)
              case More => err == 0 && ridx >= 0 && Resting() && Pending() == old(Pending())
              case Bad(m) => err == REDIS_ERR_PROTOCOL && errstr == m && Cleared()
              case Ok(v, rest) =>
                err == 0 && ridx == -1 && Emittable() && reply.val == v && buf[pos..] == rest
    {
      hide RedisReader.Level, RedisReader.DoneOk, Advances, ParseItem, ParseBody;
      if ridx == -1 {
        Begin();
      }
      Consume();
      if err == 0 {
        Discard();
        StartIsParseItem(Pending());
        if ridx == -1 {
          AdvanceThenAnswer(START, taken, Finished(reply.val), buf[pos..]);
        } else {
          AdvanceThenAnswer(START, taken, Current(), buf[pos..]);
          WaitsForMore(Current(), buf[pos..]);
        }
      }
    }

    ghost predicate Emittable()
      reads `reply, `frames, `done, `nodes, nodes
    {
      rstack.Length == STACK_SLOTS && frames == [] && DoneOk() && reply != null && reply in done
    }

    lemma NothingToRead()
      requires Valid() && len == 0
      ensures ParseItem(Pending(), 0).More?
    {
      if ridx >= 0 {
        AdvanceThenAnswer(START, taken, Current(), "");
        StartIsParseItem(taken + "");
      }
    }

    /** Drops consumed bytes once there are at least a kilobyte of them. */
    method Discard()
      requires BufferOk()
      modifies this`buf, this`avail, this`pos, this`len
      ensures BufferOk() && buf[pos..] == old(buf[pos..])
    {
      if pos >= DISCARD_THRESHOLD {
        avail := avail + pos;
        buf := Sds.Range(buf, pos, -1);
        pos := 0;
        len := |buf|;
      }
    }

    /** Hands out the finished tree and forgets it. */
    method Emit() returns (r: ReplyNode, ghost tree: set<ReplyNode>)
      requires BufferOk() && err == 0 && ridx == -1 && Emittable()
      modifies this`reply, this`done, this`nodes, this`taken
      ensures Valid() && nodes == {} && Pending() == buf[pos..]
      ensures tree <= old(nodes) && Represents(r, old(reply.val), tree) && Unshared(r, old(reply.val), tree)
    {
      hide NodeOk, Represents, Unshared;
      r := reply;
      reply := null;
      CompleteTreesAreTrees(r, done);
      tree := done;
      done, nodes, taken := {}, {}, "";
    }
  }
}
