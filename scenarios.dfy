/*
 * Short client programs over the queue: sequences of calls whose combined
 * effect follows from the operations' contracts alone.
 */
module QueueClients {
  import opened Sequences
  import opened StringQueue

  /** Inserting at the head and then removing the head gives back the queue's contents. */
  method InsertThenRemove(q: Queue, s: string)
    requires q.Valid()
    modifies q.Repr
    ensures q.Valid() && q.Contents == old(q.Contents) && q.size == old(q.size)
  {
    var inserted := InsertHead(q, s, AllocOk);
    var removed := RemoveHead(q, null, 0);
  }

  /** Reversing twice gives back the queue's contents. */
  method ReverseTwice(q: Queue)
    requires q.Valid()
    modifies q.Repr
    ensures q.Valid() && q.Contents == old(q.Contents) && q.Repr == old(q.Repr)
  {
    Reverse(q);
    Reverse(q);
    ReversedTwice(old(q.Contents));
  }

  /** Build `c, a, b` from both ends and reverse it: `b, a, c`. */
  method BuildAndReverse() returns (q: Queue)
    ensures q.Valid() && fresh(q.Repr)
    ensures |q.Contents| == 3 && q.Contents[0] == "b" && q.Contents[1] == "a" && q.Contents[2] == "c"
  {
    var created := New(true);
    q := created;
    var ok := InsertTail(q, "a", AllocOk);
    ok := InsertTail(q, "b", AllocOk);
    ok := InsertHead(q, "c", AllocOk);
    Reverse(q);
    ReversedAt(["c", "a", "b"], 0);
    ReversedAt(["c", "a", "b"], 1);
    ReversedAt(["c", "a", "b"], 2);
  }

  /**
   * Remove the head of `b, a, c` into an eight-byte buffer: the caller reads
   * back `b`, and two elements remain.
   */
  method BuildReverseRemove() returns (removed: string, size: nat)
    ensures removed == "b" && size == 2
  {
    var q := BuildAndReverse();
    var buf := new char[8](_ => 'x');
    var ok := RemoveHead(q, buf, 8);
    ReadBackTerminated(buf[..], "b");
    removed := ReadCString(buf[..]);
    size := Size(q);
  }

  /** Removing from a fresh queue fails and leaves the caller's buffer as it was. */
  method RemoveFromEmpty() returns (ok: bool, untouched: bool)
    ensures !ok && untouched
  {
    var q := New(true);
    var buf := new char[4](_ => 'x');
    ok := RemoveHead(q, buf, 4);
    untouched := forall j | 0 <= j < buf.Length :: buf[j] == 'x';
  }
}
