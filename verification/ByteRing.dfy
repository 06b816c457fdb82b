/** The power-of-two byte rings of rp/src/midi.c: one slot is always left free, so that
    head == tail means empty. */
module ByteRing {
  import opened Bytes
  import opened Session

  class Ring {
    const slots: array<byte>
    var head: nat  // next write
    var tail: nat  // next read
    ghost var contents: seq<byte>

    ghost predicate Valid()
      reads this, slots
    {
      && slots.Length == QUEUE_SIZE && head < QUEUE_SIZE && tail < QUEUE_SIZE
      && |contents| == (if head >= tail then head - tail else head + QUEUE_SIZE - tail)
      && forall k :: 0 <= k < |contents| ==>
           contents[k] == slots[if tail + k < QUEUE_SIZE then tail + k else tail + k - QUEUE_SIZE]
    }

    constructor ()
      ensures Valid() && contents == [] && fresh(slots)
    {
      slots := new byte[QUEUE_SIZE](_ => 0);
      head, tail, contents := 0, 0, [];
    }

    predicate Empty()
      reads this, slots
      requires Valid()
      ensures Empty() <==> contents == []
    {
      head == tail
    }

    /** midi_in_push, midi_net_send_byte: refuse when the next slot is the tail. */
    method Push(b: byte) returns (ok: bool)
      requires Valid()
      modifies this, slots
      ensures Valid()
      ensures ok <==> |old(contents)| < QUEUE_SIZE - 1
      ensures contents == if ok then old(contents) + [b] else old(contents)
    {
      var next := (head + 1) % QUEUE_SIZE;
      if next == tail {
        return false;
      }
      slots[head] := b;
      head := next;
      contents := contents + [b];
      return true;
    }

    method Head() returns (b: byte)
      requires Valid() && contents != []
      ensures b == contents[0]
    {
      b := slots[tail];
    }

    /** Consume n bytes from the front. */
    method Skip(n: nat)
      requires Valid() && n <= |contents|
      modifies this
      ensures Valid() && contents == old(contents)[n..] && tail == (old(tail) + n) % QUEUE_SIZE
    {
      tail := (tail + n) % QUEUE_SIZE;
      contents := contents[n..];
    }

    /** tail = head: discard everything. */
    method Flush()
      requires Valid()
      modifies this
      ensures Valid() && contents == []
    {
      tail := head;
      contents := [];
    }

    /** The longest run at the front that is contiguous in memory and at most `limit` long:
        it stops at the end of the array, never crossing the wrap. */
    method Contiguous(limit: nat) returns (run: seq<byte>)
      requires Valid() && contents != [] && limit > 0
      ensures 0 < |run| <= limit && run <= contents
      ensures tail + |run| <= QUEUE_SIZE
      ensures |run| == Least(Least(|contents|, QUEUE_SIZE - tail), limit)
    {
      var contig := if head > tail then head - tail else QUEUE_SIZE - tail;
      var n := if contig < limit then contig else limit;
      run := slots[tail..tail + n];
    }
  }
}
