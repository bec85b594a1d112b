/*
 * A model of the lab0-c string queue (queue.c): a circular doubly-linked
 * ring of nodes, each owning one string, with `head`, `tail` and a maintained
 * element counter. The C entry points take a possibly-NULL queue pointer, so
 * the operations are module-level methods over `Queue?`; what `malloc`
 * returns is a parameter.
 */
module StringQueue {
  import opened Sequences

  /** What the calls to `malloc` inside an insertion return. */
  datatype Allocation = AllocOk | NodeAllocFails | ValueAllocFails

  /** One `list_ele_t`: its owned string and its two ring links. */
  class Node {
    var value: string
    var next: Node?
    var prev: Node?

    /** A freshly allocated element whose fields the caller fills in. */
    constructor ()
      ensures value == "" && next == null && prev == null
    {
      value := "";
      next := null;
      prev := null;
    }
  }

  /** The nodes of a ring, as the objects a queue owns. */
  ghost function NodeSet(ns: seq<Node>): set<object>
  {
    set i | 0 <= i < |ns| :: ns[i]
  }

  lemma NodeSetCons(x: Node, ns: seq<Node>)
    ensures NodeSet([x] + ns) == {x} + NodeSet(ns)
  {
    var xs := [x] + ns;
    forall i | 0 <= i < |ns|
      ensures ns[i] in NodeSet(xs)
    {
      assert xs[i + 1] == ns[i];
    }
    assert xs[0] == x;
  }

  lemma NodeSetSnoc(ns: seq<Node>, x: Node)
    ensures NodeSet(ns + [x]) == NodeSet(ns) + {x}
  {
    var xs := ns + [x];
    forall i | 0 <= i < |ns|
      ensures ns[i] in NodeSet(xs)
    {
      assert xs[i] == ns[i];
    }
    assert xs[|ns|] == x;
  }

  lemma NodeSetTail(ns: seq<Node>)
    requires ns != [] && Distinct(ns)
    ensures NodeSet(ns[1..]) == NodeSet(ns) - {ns[0]}
  {
    var ts := ns[1..];
    forall i | 1 <= i < |ns|
      ensures ns[i] in NodeSet(ts)
    {
      assert ts[i - 1] == ns[i];
    }
  }

  lemma {:induction false} NodeSetReversed(ns: seq<Node>)
    ensures NodeSet(Reversed(ns)) == NodeSet(ns)
  {
    if ns != [] {
      NodeSetReversed(ns[1..]);
      NodeSetSnoc(Reversed(ns[1..]), ns[0]);
      NodeSetCons(ns[0], ns[1..]);
      assert [ns[0]] + ns[1..] == ns;
    }
  }

  /** One `queue_t`. */
  class Queue {
    var head: Node?
    var tail: Node?
    var size: nat

    // The ring in `next` order starting at `head`, the strings it holds, and
    // the objects the queue owns (itself and the ring's nodes).
    ghost var Nodes: seq<Node>
    ghost var Contents: seq<string>
    ghost var Repr: set<object>

    /**
     * The ring invariant every operation keeps: `size` counts the ring's
     * distinct nodes; an empty queue has null `head` and `tail`; otherwise
     * `next` runs from `head` to `tail` and back to `head`, and `prev` runs
     * the other way.
     */
    ghost predicate Valid()
      reads this, Repr
    {
      this in Repr && (forall i :: 0 <= i < |Nodes| ==> Nodes[i] in Repr) &&
      Repr == {this} + NodeSet(Nodes) &&
      Distinct(Nodes) &&
      size == |Nodes| && |Contents| == |Nodes| &&
      (forall i {:trigger Nodes[i].value} :: 0 <= i < |Nodes| ==> Nodes[i].value == Contents[i]) &&
      (Nodes == [] ==> head == null && tail == null) &&
      (Nodes != [] ==>
        head == Nodes[0] && tail == Nodes[|Nodes| - 1] &&
        tail.next == head && head.prev == tail) &&
      (forall i {:trigger Nodes[i].next} :: 0 <= i < |Nodes| - 1 ==> Nodes[i].next == Nodes[i + 1]) &&
      (forall i {:trigger Nodes[i].prev} :: 0 < i < |Nodes| ==> Nodes[i].prev == Nodes[i - 1])
    }

    /** The record `q_new` initialises once its allocation succeeded. */
    constructor ()
      ensures Valid() && fresh(Repr)
      ensures head == null && tail == null && size == 0
      ensures Nodes == [] && Contents == []
    {
      head := null;
      tail := null;
      size := 0;
      Nodes := [];
      Contents := [];
      Repr := {this};
    }
  }

  /*
   * The ring invariant, read off as the properties the C code relies on.
   */

  /** `next` and `prev` are mutual inverses on every node of the ring. */
  lemma LinksInverse(q: Queue)
    requires q.Valid()
    ensures forall x :: x in q.Nodes ==>
      x.next != null && x.prev != null && x.next.prev == x && x.prev.next == x &&
      x.next in q.Nodes && x.prev in q.Nodes
  {
    var ns := q.Nodes;
    var n := |ns|;
    forall x | x in ns
      ensures x.next != null && x.prev != null && x.next.prev == x && x.prev.next == x
      ensures x.next in ns && x.prev in ns
    {
      var i :| 0 <= i < n && ns[i] == x;
      if i < n - 1 {
        assert x.next == ns[i + 1];
      } else {
        assert x.next == ns[0];
      }
      if 0 < i {
        assert x.prev == ns[i - 1];
      } else {
        assert x.prev == ns[n - 1];
      }
    }
  }

  /** The node reached from `x` by following `next` `k` times (null once a link is missing). */
  ghost function Follow(x: Node?, k: nat): Node?
    reads *
  {
    if k == 0 || x == null then x else Follow(x.next, k - 1)
  }

  lemma {:induction false} FollowInside(q: Queue, i: nat, k: nat)
    requires q.Valid() && i + k < |q.Nodes|
    ensures Follow(q.Nodes[i], k) == q.Nodes[i + k]
    decreases k
  {
    if k > 0 {
      FollowInside(q, i + 1, k - 1);
    }
  }

  lemma {:induction false} FollowWraps(q: Queue, i: nat)
    requires q.Valid() && i < |q.Nodes|
    ensures Follow(q.Nodes[i], |q.Nodes| - i) == q.Nodes[0]
    decreases |q.Nodes| - i
  {
    if i < |q.Nodes| - 1 {
      FollowWraps(q, i + 1);
    }
  }

  /**
   * `q_size` counts the ring: following `next` from `head` returns to `head`
   * after exactly `size` steps and not before.
   */
  lemma RingLength(q: Queue)
    requires q.Valid() && q.head != null
    ensures Follow(q.head, q.size) == q.head
    ensures forall k :: 0 < k < q.size ==> Follow(q.head, k) != q.head
  {
    FollowWraps(q, 0);
    forall k | 0 < k < q.size
      ensures Follow(q.head, k) != q.head
    {
      FollowInside(q, 0, k);
      DistinctAt(q.Nodes, 0, k);
    }
  }

  /*
   * Frame facts shared by the splicing operations.
   */

  /**
   * Between the previous state and this one, nothing in `owned` changed except
   * the queue record `q` and the two nodes `h` and `t`; those kept their
   * strings, and when they are two different nodes, `h` kept its `next` and
   * `t` its `prev`.
   */
  twostate predicate OnlyEndsRelinked(q: Queue, owned: set<object>, h: Node?, t: Node?)
    reads owned, h, t
  {
    (forall o: object :: o in owned && o != q && o != h && o != t ==> unchanged(o)) &&
    (h != null && t != null ==>
      h.value == old(h.value) && t.value == old(t.value) &&
      (h != t ==> h.next == old(h.next) && t.prev == old(t.prev)))
  }

  /**
   * Every node of `ns` kept its string, every node but the last its `next`,
   * and every node but the first its `prev`.
   */
  twostate predicate LinksKept(ns: seq<Node>)
    reads NodeSet(ns)
  {
    (forall i :: 0 <= i < |ns| ==> ns[i].value == old(ns[i].value)) &&
    (forall i :: 0 <= i < |ns| - 1 ==> ns[i].next == old(ns[i].next)) &&
    (forall i :: 0 < i < |ns| ==> ns[i].prev == old(ns[i].prev))
  }

  /** What `OnlyEndsRelinked` says about the positions of a ring whose ends are `h` and `t`. */
  twostate lemma InteriorKept(q: Queue, new ns: seq<Node>, new owned: set<object>)
    requires old(allocated(ns)) && old(allocated(owned))
    requires Distinct(ns) && NodeSet(ns) <= owned
    requires ns != [] ==> OnlyEndsRelinked(q, owned, ns[0], ns[|ns| - 1])
    ensures LinksKept(ns)
  {
    forall i | 0 <= i < |ns|
      ensures ns[i].value == old(ns[i].value)
      ensures i < |ns| - 1 ==> ns[i].next == old(ns[i].next)
      ensures 0 < i ==> ns[i].prev == old(ns[i].prev)
    {
      assert ns[i] in NodeSet(ns);
      if 0 < i < |ns| - 1 {
        DistinctAt(ns, 0, i);
        DistinctAt(ns, i, |ns| - 1);
      }
    }
  }

  /** Splicing a fresh node in front of the ring, as `q_insert_head` does, keeps the invariant. */
  twostate lemma ConsKeepsValid(q: Queue, new x: Node)
    requires old(q.Valid()) && x !in old(q.Repr)
    requires OnlyEndsRelinked(q, old(q.Repr), old(q.head), old(q.tail))
    requires q.Nodes == [x] + old(q.Nodes) && q.Contents == [x.value] + old(q.Contents)
    requires q.Repr == old(q.Repr) + {x} && q.size == old(q.size) + 1 && q.head == x
    requires old(q.size) == 0 ==> q.tail == x && x.next == x && x.prev == x
    requires old(q.size) > 0 ==>
      q.tail == old(q.tail) && x.next == old(q.head) && x.prev == old(q.tail) &&
      old(q.head).prev == x && old(q.tail).next == x
    ensures q.Valid()
  {
    var ns := old(q.Nodes);
    NodeSetCons(x, ns);
    InteriorKept(q, ns, old(q.Repr));
    forall i | 1 <= i < |q.Nodes|
      ensures q.Nodes[i].value == q.Contents[i]
      ensures i < |q.Nodes| - 1 ==> q.Nodes[i].next == q.Nodes[i + 1]
      ensures q.Nodes[i].prev == q.Nodes[i - 1]
    {
      assert q.Nodes[i] == ns[i - 1];
    }
  }

  /** Splicing a fresh node in after the tail, as `q_insert_tail` does, keeps the invariant. */
  twostate lemma SnocKeepsValid(q: Queue, new x: Node)
    requires old(q.Valid()) && x !in old(q.Repr)
    requires OnlyEndsRelinked(q, old(q.Repr), old(q.head), old(q.tail))
    requires q.Nodes == old(q.Nodes) + [x] && q.Contents == old(q.Contents) + [x.value]
    requires q.Repr == old(q.Repr) + {x} && q.size == old(q.size) + 1 && q.tail == x
    requires old(q.size) == 0 ==> q.head == x && x.next == x && x.prev == x
    requires old(q.size) > 0 ==>
      q.head == old(q.head) && x.next == old(q.head) && x.prev == old(q.tail) &&
      old(q.head).prev == x && old(q.tail).next == x
    ensures q.Valid()
  {
    var ns := old(q.Nodes);
    NodeSetSnoc(ns, x);
    DistinctSnoc(ns, x);
    InteriorKept(q, ns, old(q.Repr));
    forall i | 0 <= i < |q.Nodes|
      ensures q.Nodes[i].value == q.Contents[i]
      ensures i < |q.Nodes| - 1 ==> q.Nodes[i].next == q.Nodes[i + 1]
      ensures 0 < i ==> q.Nodes[i].prev == q.Nodes[i - 1]
    {
      if i < |ns| {
        assert q.Nodes[i] == ns[i];
      }
    }
  }

  /** Unlinking the head, as `q_remove_head` does, keeps the invariant on the rest of the ring. */
  twostate lemma TailKeepsValid(q: Queue)
    requires old(q.Valid()) && old(q.size) > 0
    requires OnlyEndsRelinked(q, old(q.Repr), old(q.head.next), old(q.head.prev))
    requires q.Nodes == old(q.Nodes)[1..] && q.Contents == old(q.Contents)[1..]
    requires q.Repr == old(q.Repr) - {old(q.head)} && q.size == old(q.size) - 1
    requires old(q.head.next).prev == old(q.head.prev) && old(q.head.prev).next == old(q.head.next)
    requires q.size == 0 ==> q.head == null && q.tail == null
    requires q.size > 0 ==> q.head == old(q.head.next) && q.tail == old(q.tail)
    ensures q.Valid()
  {
    var ns := old(q.Nodes);
    NodeSetTail(ns);
    var rest := ns[1..];
    if rest != [] {
      assert old(q.head.next) == rest[0] && old(q.head.prev) == rest[|rest| - 1];
    }
    InteriorKept(q, rest, old(q.Repr));
  }

  /** `x` kept its string and had its `next` and `prev` exchanged. */
  twostate predicate Swapped(x: Node)
    reads x
  {
    x.next == old(x.prev) && x.prev == old(x.next) && x.value == old(x.value)
  }

  /** Swapping `next` and `prev` on every node and swapping the ends, as `q_reverse` does, keeps the invariant. */
  twostate lemma ReverseKeepsValid(q: Queue, new ns: seq<Node>)
    requires old(q.Valid()) && old(q.size) > 0 && ns == old(q.Nodes)
    requires forall j :: 0 <= j < |ns| ==> Swapped(ns[j])
    requires q.Nodes == Reversed(ns) && q.Contents == Reversed(old(q.Contents))
    requires q.Repr == old(q.Repr) && q.size == old(q.size)
    requires q.head == old(q.tail) && q.tail == old(q.head)
    ensures q.Valid()
  {
    var n := |ns|;
    var cs := old(q.Contents);
    forall j | 0 <= j < n
      ensures ns[j].value == cs[j]
      ensures 0 < j ==> ns[j].next == ns[j - 1]
      ensures j < n - 1 ==> ns[j].prev == ns[j + 1]
    {
    }
    ReversedLinks(ns, cs);
    ReversedDistinct(ns);
    NodeSetReversed(ns);
    ReversedAt(ns, 0);
    ReversedAt(ns, n - 1);
  }

  /** The links of a ring walked backwards, stated on the reversed sequence of nodes. */
  lemma ReversedLinks(ns: seq<Node>, cs: seq<string>)
    requires |cs| == |ns|
    requires forall j :: 0 <= j < |ns| ==> ns[j].value == cs[j]
    requires forall j :: 0 < j < |ns| ==> ns[j].next == ns[j - 1]
    requires forall j :: 0 <= j < |ns| - 1 ==> ns[j].prev == ns[j + 1]
    ensures |Reversed(ns)| == |ns| && |Reversed(cs)| == |cs|
    ensures forall i :: 0 <= i < |ns| ==> Reversed(ns)[i].value == Reversed(cs)[i]
    ensures forall i :: 0 <= i < |ns| - 1 ==> Reversed(ns)[i].next == Reversed(ns)[i + 1]
    ensures forall i :: 0 < i < |ns| ==> Reversed(ns)[i].prev == Reversed(ns)[i - 1]
  {
    var n := |ns|;
    var rs, rc := Reversed(ns), Reversed(cs);
    ReversedLength(ns);
    ReversedLength(cs);
    forall i | 0 <= i < n
      ensures rs[i].value == rc[i]
      ensures i < n - 1 ==> rs[i].next == rs[i + 1]
      ensures 0 < i ==> rs[i].prev == rs[i - 1]
    {
      ReversedAt(ns, i);
      ReversedAt(cs, i);
      if i < n - 1 {
        ReversedAt(ns, i + 1);
      }
      if 0 < i {
        ReversedAt(ns, i - 1);
      }
    }
  }

  /*
   * The operations of queue.c.
   */

  /** `q_new`: an empty queue, or null when the allocation fails. */
  method New(alloc: bool) returns (q: Queue?)
    ensures q == null <==> !alloc
    ensures q != null ==> q.Valid() && fresh(q.Repr)
    ensures q != null ==> q.head == null && q.tail == null && q.size == 0 && q.Contents == []
  {
    if !alloc {
      return null;
    }
    q := new Queue();
  }

  /**
   * The splice that ends `q_insert_head`: `x` goes in between `tail` and
   * `head` (or alone, in an empty ring) and becomes the new `head`.
   */
  method LinkHead(q: Queue, x: Node)
    requires q.Valid() && x !in q.Repr
    modifies q.Repr, x
    ensures q.Valid() && q.Repr == old(q.Repr) + {x} && x.value == old(x.value)
    ensures q.Contents == [x.value] + old(q.Contents) && q.Nodes == [x] + old(q.Nodes)
    ensures q.size == old(q.size) + 1 && q.head == x
    ensures old(q.size) == 0 ==> q.tail == x
  {
    if q.size == 0 {
      q.head := x;
      q.tail := x;
    } else {
      q.head.prev := x;
      q.tail.next := x;
    }
    x.next := q.head;
    x.prev := q.tail;
    q.head := x;
    q.size := q.size + 1;
    q.Nodes := [x] + q.Nodes;
    q.Contents := [x.value] + q.Contents;
    q.Repr := q.Repr + {x};
    ConsKeepsValid(q, x);
  }

  /**
   * The splice that ends `q_insert_tail`: `x` goes in between `tail` and
   * `head` (or alone, in an empty ring) and becomes the new `tail`.
   */
  method LinkTail(q: Queue, x: Node)
    requires q.Valid() && x !in q.Repr
    modifies q.Repr, x
    ensures q.Valid() && q.Repr == old(q.Repr) + {x} && x.value == old(x.value)
    ensures q.Contents == old(q.Contents) + [x.value] && q.Nodes == old(q.Nodes) + [x]
    ensures q.size == old(q.size) + 1 && q.tail == x
    ensures old(q.size) == 0 ==> q.head == x
  {
    if q.size == 0 {
      q.head := x;
      q.tail := x;
    } else {
      q.head.prev := x;
      q.tail.next := x;
    }
    x.next := q.head;
    x.prev := q.tail;
    q.tail := x;
    q.size := q.size + 1;
    q.Nodes := q.Nodes + [x];
    q.Contents := q.Contents + [x.value];
    q.Repr := q.Repr + {x};
    SnocKeepsValid(q, x);
  }

  /** `q_insert_head`: splice a node holding a copy of `s` in front of `head`. */
  method InsertHead(q: Queue?, s: string, alloc: Allocation) returns (ok: bool)
    requires q != null ==> q.Valid()
    modifies if q == null then {} else q.Repr
    ensures ok <==> q != null && alloc == AllocOk
    ensures q != null ==> q.Valid() && fresh(q.Repr - old(q.Repr))
    ensures ok ==>
      q.Contents == [s] + old(q.Contents) && q.size == old(q.size) + 1 &&
      q.Nodes == [q.head] + old(q.Nodes) && fresh(q.head) && q.head.value == s
    ensures ok && old(q.size) == 0 ==> q.head == q.tail
    ensures q != null && !ok ==> q.Repr == old(q.Repr) && unchanged(q.Repr)
  {
    if q == null {
      return false;
    }
    if alloc == NodeAllocFails {
      return false;
    }
    var newh := new Node();
    if alloc == ValueAllocFails {
      // the half-built node is dropped: it never becomes part of the ring
      return false;
    }
    newh.value := s;
    LinkHead(q, newh);
    return true;
  }

  /** `q_insert_tail`: splice a node holding a copy of `s` in after `tail`. */
  method InsertTail(q: Queue?, s: string, alloc: Allocation) returns (ok: bool)
    requires q != null ==> q.Valid()
    modifies if q == null then {} else q.Repr
    ensures ok <==> q != null && alloc == AllocOk
    ensures q != null ==> q.Valid() && fresh(q.Repr - old(q.Repr))
    ensures ok ==>
      q.Contents == old(q.Contents) + [s] && q.size == old(q.size) + 1 &&
      q.Nodes == old(q.Nodes) + [q.tail] && fresh(q.tail) && q.tail.value == s
    ensures ok && old(q.size) == 0 ==> q.head == q.tail
    ensures q != null && !ok ==> q.Repr == old(q.Repr) && unchanged(q.Repr)
  {
    if q == null {
      return false;
    }
    if alloc == NodeAllocFails {
      return false;
    }
    var newt := new Node();
    if alloc == ValueAllocFails {
      return false;
    }
    newt.value := s;
    LinkTail(q, newt);
    return true;
  }

  /**
   * What `q_remove_head` leaves in a buffer of `bufsize` bytes: the longest
   * prefix of `s` that still leaves room for the terminator.
   */
  function Truncated(s: string, bufsize: nat): (t: string)
    requires bufsize >= 1
    ensures t <= s && |t| < bufsize
    ensures |s| < bufsize ==> t == s
    ensures |s| >= bufsize ==> |t| == bufsize - 1
  {
    if |s| >= bufsize - 1 then s[..bufsize - 1] else s
  }

  /** The C string a buffer holds: its characters up to the first NUL. */
  function ReadCString(b: seq<char>): (s: string)
    ensures s <= b && '\0' !in s
    ensures |s| < |b| ==> b[|s|] == '\0'
  {
    if b == [] || b[0] == '\0' then [] else [b[0]] + ReadCString(b[1..])
  }

  /**
   * Reading back a buffer that holds `t` followed by a terminator yields `t`:
   * the caller of `q_remove_head` sees the truncated string as a C string.
   */
  lemma {:induction false} ReadBackTerminated(b: seq<char>, t: string)
    requires '\0' !in t && |t| < |b| && b[..|t|] == t && b[|t|] == '\0'
    ensures ReadCString(b) == t
  {
    if t != [] {
      assert b[0] == t[0];
      assert b[1..][..|t| - 1] == t[1..];
      ReadBackTerminated(b[1..], t[1..]);
    }
  }

  /** `strncpy(dst, src, n)` with `n <= strlen(src)`: exactly `n` characters, no terminator. */
  method StrNCopy(dst: array<char>, src: string, n: nat)
    requires n <= |src| && n <= dst.Length
    modifies dst
    ensures dst[..n] == src[..n]
    ensures forall j :: n <= j < dst.Length ==> dst[j] == old(dst[j])
  {
    forall j | 0 <= j < n {
      dst[j] := src[j];
    }
  }

  /**
   * The copy-out step of `q_remove_head`: at most `bufsize - 1` characters of
   * `v` into `sp`, then a terminator right after them.
   */
  method CopyOut(sp: array<char>, v: string, bufsize: nat)
    requires 1 <= bufsize <= sp.Length
    modifies sp
    ensures var t := Truncated(v, bufsize);
      sp[..|t|] == t && sp[|t|] == '\0' &&
      forall j :: |t| < j < sp.Length ==> sp[j] == old(sp[j])
  {
    if |v| >= bufsize - 1 {
      StrNCopy(sp, v, bufsize - 1);
      sp[bufsize - 1] := '\0';
    } else {
      StrNCopy(sp, v, |v|);
      sp[|v|] := '\0';
    }
  }

  /**
   * `q_remove_head`: unlink the first node; when `sp` is given, copy its string
   * there, truncated to `bufsize - 1` characters and terminated.
   */
  method RemoveHead(q: Queue?, sp: array?<char>, bufsize: nat) returns (ok: bool)
    requires q != null ==> q.Valid()
    requires sp != null ==> 1 <= bufsize <= sp.Length
    modifies (if q == null then {} else q.Repr), sp
    ensures ok <==> q != null && old(q.size) > 0
    ensures q != null ==> q.Valid() && q.Repr <= old(q.Repr)
    ensures ok ==>
      q.Contents == old(q.Contents)[1..] && q.Nodes == old(q.Nodes)[1..] &&
      q.size == old(q.size) - 1 && old(q.head) !in q.Repr
    ensures ok && q.size == 0 ==> q.head == null && q.tail == null
    ensures q != null && !ok ==> unchanged(q.Repr)
    ensures sp != null && ok ==>
      var t := Truncated(old(q.Contents)[0], bufsize);
      sp[..|t|] == t && sp[|t|] == '\0' &&
      forall j :: |t| < j < sp.Length ==> sp[j] == old(sp[j])
    ensures sp != null && !ok ==> unchanged(sp)
  {
    if q == null {
      return false;
    }
    if q.head == null {
      return false;
    }
    if sp != null {
      CopyOut(sp, q.head.value, bufsize);
    }
    Unlink(q);
    return true;
  }

  /**
   * The unlinking step of `q_remove_head`: bypass the head node in both
   * directions, advance `head`, and reset both ends once the ring is empty.
   */
  method Unlink(q: Queue)
    requires q.Valid() && q.size > 0
    modifies q.Repr
    ensures q.Valid() && q.Repr == old(q.Repr) - {old(q.head)}
    ensures q.Contents == old(q.Contents)[1..] && q.Nodes == old(q.Nodes)[1..]
    ensures q.size == old(q.size) - 1
    ensures q.size == 0 ==> q.head == null && q.tail == null
  {
    var head := q.head;
    head.next.prev := head.prev;
    head.prev.next := head.next;
    q.head := head.next;
    q.size := q.size - 1;
    if q.size == 0 {
      q.head := null;
      q.tail := null;
    }
    q.Nodes := q.Nodes[1..];
    q.Contents := q.Contents[1..];
    q.Repr := q.Repr - {head};
    TailKeepsValid(q);
  }

  /** `q_size`: the maintained counter, 0 for a null queue. */
  function Size(q: Queue?): (n: nat)
    requires q != null ==> q.Valid()
    reads q, if q == null then {} else q.Repr
    ensures q == null ==> n == 0
    ensures q != null ==> n == |q.Contents| && (n == 0 <==> q.head == null)
  {
    if q == null then 0 else q.size
  }

  /**
   * `q_reverse`: walk the ring once from `head`, swapping `next` and `prev` on
   * each node, then swap `head` and `tail`. No node is created or released.
   */
  method Reverse(q: Queue?)
    requires q != null ==> q.Valid()
    modifies if q == null then {} else q.Repr
    ensures q != null ==> q.Valid() && q.Repr == old(q.Repr) && q.size == old(q.size)
    ensures q != null ==> q.Nodes == Reversed(old(q.Nodes)) && q.Contents == Reversed(old(q.Contents))
    ensures q != null && old(q.size) > 0 ==> q.head == old(q.tail) && q.tail == old(q.head)
  {
    if q == null || q.head == null {
      return;
    }
    ghost var ns := q.Nodes;
    ghost var n := |ns|;
    var current: Node := q.head;
    var next: Node?;
    var done := false;
    ghost var k := 0;
    // the do-while of the C code: the body runs once before the test
    while !done
      invariant 0 <= k <= n && (done <==> k == n)
      invariant k < n ==> current == ns[k]
      invariant q.head == old(q.head) && q.tail == old(q.tail) && q.Nodes == ns && q.Contents == old(q.Contents) && q.Repr == old(q.Repr) && q.size == old(q.size)
      invariant forall j :: 0 <= j < k ==> Swapped(ns[j])
      invariant forall j :: k <= j < n ==> unchanged(ns[j])
      decreases n - k
    {
      OccursOnce(ns, k);
      next := current.next;
      current.next := current.prev;
      current.prev := next;
      if k + 1 < n {
        DistinctAt(ns, 0, k + 1);
      }
      current := next;
      k := k + 1;
      done := next == q.head;
    }
    current := q.head;
    q.head := q.tail;
    q.tail := current;
    q.Nodes := Reversed(q.Nodes);
    q.Contents := Reversed(q.Contents);
    ReverseKeepsValid(q, ns);
  }

  /*
   * `q_free`, as a walk over the ring that records what it releases.
   */

  /** One call to `free`: a node's string, a node, or the queue record. */
  datatype Release = ReleaseValue(owner: Node) | ReleaseNode(node: Node) | ReleaseQueue

  /** Releasing each node of `ns` in order, its string first. */
  ghost function ReleaseAll(ns: seq<Node>): seq<Release>
  {
    if ns == [] then []
    else ReleaseAll(ns[..|ns| - 1]) + [ReleaseValue(ns[|ns| - 1]), ReleaseNode(ns[|ns| - 1])]
  }

  /** `ReleaseAll` makes two releases per node and never releases the queue. */
  lemma {:induction false} ReleaseAllShape(ns: seq<Node>)
    ensures |ReleaseAll(ns)| == 2 * |ns|
    ensures ReleaseQueue !in ReleaseAll(ns)
  {
    if ns != [] {
      ReleaseAllShape(ns[..|ns| - 1]);
    }
  }

  /** `ReleaseAll` frees a node, and its string, as often as the node occurs in `ns`. */
  lemma {:induction false} ReleaseAllCounts(ns: seq<Node>, x: Node)
    ensures multiset(ReleaseAll(ns))[ReleaseValue(x)] == multiset(ns)[x]
    ensures multiset(ReleaseAll(ns))[ReleaseNode(x)] == multiset(ns)[x]
  {
    if ns != [] {
      var init: seq<Node>, last: Node := ns[..|ns| - 1], ns[|ns| - 1];
      ReleaseAllCounts(init, x);
      assert ns == init + [last];
      var tail := [ReleaseValue(last), ReleaseNode(last)];
      assert ReleaseAll(ns) == ReleaseAll(init) + tail;
      var k: nat := if x == last then 1 else 0;
      assert multiset(ns)[x] == multiset(init)[x] + k;
      assert multiset(tail)[ReleaseValue(x)] == k && multiset(tail)[ReleaseNode(x)] == k;
    }
  }

  /**
   * On a well-formed ring, the releases `Free` makes free every node of the
   * ring and its string exactly once, nothing else, and the record once.
   */
  lemma FreeReleasesEachOnce(q: Queue)
    requires q.Valid()
    ensures var log := ReleaseAll(q.Nodes) + [ReleaseQueue];
      |log| == 2 * q.size + 1 && multiset(log)[ReleaseQueue] == 1 &&
      forall x: Node ::
        multiset(log)[ReleaseValue(x)] == (if x in q.Nodes then 1 else 0) &&
        multiset(log)[ReleaseNode(x)] == (if x in q.Nodes then 1 else 0)
  {
    var log := ReleaseAll(q.Nodes) + [ReleaseQueue];
    ReleaseAllShape(q.Nodes);
    forall x: Node
      ensures multiset(log)[ReleaseValue(x)] == (if x in q.Nodes then 1 else 0)
      ensures multiset(log)[ReleaseNode(x)] == (if x in q.Nodes then 1 else 0)
    {
      ReleaseAllCounts(q.Nodes, x);
      if x in q.Nodes {
        DistinctOnce(q.Nodes, x);
      }
    }
  }

  /**
   * `q_free` as written: release the head's string, step to `next`, release
   * the node behind, until the tail is reached; then the tail's string and
   * node and the record. On a ring of one node the loop body already
   * releases that node, and the code after the loop releases it again.
   */
  method FreeAsWritten(q: Queue?) returns (log: seq<Release>)
    requires q != null ==> q.Valid()
    ensures q == null ==> log == []
    ensures q != null && q.size != 1 ==> log == ReleaseAll(q.Nodes) + [ReleaseQueue]
    ensures q != null && q.size == 1 ==> log == ReleaseAll(q.Nodes) + ReleaseAll(q.Nodes) + [ReleaseQueue]
  {
    if q == null {
      return [];
    }
    if q.head == null {
      return [ReleaseQueue];
    }
    ghost var ns := q.Nodes;
    ghost var n := |ns|;
    var current: Node := q.head;
    log := [];
    var done := false;
    ghost var k := 0;
    while !done
      invariant 0 <= k <= n && (k == n ==> n == 1)
      invariant current == (if k < n then ns[k] else ns[0])
      invariant done <==> k > 0 && current == q.tail
      invariant log == ReleaseAll(ns[..k])
      decreases n - k
    {
      log := log + [ReleaseValue(current)];
      current := current.next;
      log := log + [ReleaseNode(current.prev)];
      assert ns[..k + 1] == ns[..k] + [ns[k]];
      k := k + 1;
      if 0 < k < n {
        DistinctAt(ns, 0, k);
        if k < n - 1 {
          DistinctAt(ns, k, n - 1);
        }
      }
      done := current == q.tail;
    }
    if n > 1 {
      DistinctAt(ns, 0, n - 1);
    }
    assert ns[..n] == ns;
    log := log + [ReleaseValue(current), ReleaseNode(current), ReleaseQueue];
    if n == 1 {
      assert ReleaseAll(ns) == ReleaseAll(ns[..0]) + [ReleaseValue(current), ReleaseNode(current)];
    }
  }

  /**
   * On a ring of one node, the releases `FreeAsWritten` performs free that
   * node, and its string, twice.
   */
  lemma SingleNodeReleasedTwice(q: Queue)
    requires q.Valid() && q.size == 1
    ensures var log := ReleaseAll(q.Nodes) + ReleaseAll(q.Nodes) + [ReleaseQueue];
      multiset(log)[ReleaseValue(q.head)] == 2 && multiset(log)[ReleaseNode(q.head)] == 2
  {
    ReleaseAllCounts(q.Nodes, q.head);
    assert q.Nodes == [q.head];
  }

  /**
   * `q_free` as its comment intends: every string, every node and the record
   * released exactly once. The walk saves `next` before releasing a node and
   * stops when it is back at `head`.
   */
  method Free(q: Queue?) returns (log: seq<Release>)
    requires q != null ==> q.Valid()
    ensures q == null ==> log == []
    ensures q != null ==> log == ReleaseAll(q.Nodes) + [ReleaseQueue]
  {
    if q == null {
      return [];
    }
    if q.head == null {
      return [ReleaseQueue];
    }
    ghost var ns := q.Nodes;
    ghost var n := |ns|;
    var current: Node := q.head;
    log := [];
    var done := false;
    ghost var k := 0;
    while !done
      invariant 0 <= k <= n && (done <==> k == n)
      invariant k < n ==> current == ns[k]
      invariant log == ReleaseAll(ns[..k])
      decreases n - k
    {
      var next := current.next;
      log := log + [ReleaseValue(current), ReleaseNode(current)];
      assert ns[..k + 1] == ns[..k] + [ns[k]];
      current := next;
      k := k + 1;
      if k < n {
        DistinctAt(ns, 0, k);
      }
      done := current == q.head;
    }
    assert ns[..n] == ns;
    log := log + [ReleaseQueue];
  }
}
