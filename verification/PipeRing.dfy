/** The byte buffer of a pipe: a ring in an array, filled and drained in at most two straight copies. */
module PipeRing {
  import opened Common

  function Size(): nat {
    8192
  }

  /** The slot i places after `tail`, around the end of the buffer. */
  function Slot(tail: nat, i: nat): (r: nat)
    requires tail < Size() && i <= Size()
    ensures r < Size() && r == (tail + i) % 8192
  {
    if tail + i < 8192 then tail + i else tail + i - 8192
  }

  /** The bytes of the ring, oldest first. */
  function Queue(buf: seq<byte>, tail: nat, count: nat): (q: seq<byte>)
    requires |buf| == Size() && tail < Size() && count <= Size()
    ensures |q| == count && forall i | 0 <= i < count :: q[i] == buf[Slot(tail, i)]
  {
    seq(count, i requires 0 <= i < count => buf[Slot(tail, i)])
  }

  /** The slots that n bytes after `from` occupy, cut into the part before the end of the buffer and the rest. */
  predicate Written(buf: seq<byte>, buf': seq<byte>, from: nat, bytes: seq<byte>)
    requires |buf| == |buf'| == Size() && from < Size() && |bytes| <= Size()
  {
    && (forall i | 0 <= i < |bytes| :: buf'[Slot(from, i)] == bytes[i])
    && (forall j | 0 <= j < Size() && (forall i | 0 <= i < |bytes| :: Slot(from, i) != j) :: buf'[j] == buf[j])
  }

  /** Writing behind the queue appends to it. */
  lemma PutQueue(buf: seq<byte>, buf': seq<byte>, tail: nat, count: nat, bytes: seq<byte>)
    requires |buf| == |buf'| == Size() && tail < Size() && count + |bytes| <= Size()
    requires Written(buf, buf', Slot(tail, count), bytes)
    ensures Queue(buf', tail, count + |bytes|) == Queue(buf, tail, count) + bytes
  {
    forall i | 0 <= i < count + |bytes|
      ensures buf'[Slot(tail, i)] == (Queue(buf, tail, count) + bytes)[i]
    {
      if i < count {
        assert forall j | 0 <= j < |bytes| :: Slot(Slot(tail, count), j) != Slot(tail, i);
      } else {
        assert Slot(tail, i) == Slot(Slot(tail, count), i - count);
      }
    }
  }

  /** Moving the tail forward drops the oldest bytes. */
  lemma TakeQueue(buf: seq<byte>, tail: nat, count: nat, n: nat)
    requires |buf| == Size() && tail < Size() && n <= count <= Size()
    ensures Queue(buf, Slot(tail, n), count - n) == Queue(buf, tail, count)[n..]
  {
    assert forall i | 0 <= i < count - n :: Slot(Slot(tail, n), i) == Slot(tail, n + i);
  }

  /** The buffer after one straight copy. */
  function Splice(buf: seq<byte>, at: nat, bytes: seq<byte>): (r: seq<byte>)
    requires at + |bytes| <= |buf|
    ensures |r| == |buf|
    ensures forall j | 0 <= j < |r| :: r[j] == if at <= j < at + |bytes| then bytes[j - at] else buf[j]
  {
    buf[..at] + bytes + buf[at + |bytes|..]
  }

  lemma Touched(head: nat, first: nat, n: nat, j: nat)
    requires head < Size() && first <= n <= Size() && first <= Size() - head && (first < n ==> first == Size() - head)
    requires head <= j < head + first || j < n - first
    ensures exists i | 0 <= i < n :: Slot(head, i) == j
  {
    if head <= j < head + first {
      assert Slot(head, j - head) == j;
    } else {
      assert Slot(head, first + j) == j;
    }
  }

  /** The two copies together write the bytes into consecutive slots of the ring. */
  lemma TwoCopies(buf: seq<byte>, head: nat, bytes: seq<byte>, first: nat)
    requires |buf| == Size() && head < Size() && |bytes| <= Size()
    requires first <= |bytes| && first <= Size() - head && (first < |bytes| ==> first == Size() - head)
    ensures Written(buf, Splice(Splice(buf, head, bytes[..first]), 0, bytes[first..]), head, bytes)
  {
    var buf' := Splice(Splice(buf, head, bytes[..first]), 0, bytes[first..]);
    forall i | 0 <= i < |bytes|
      ensures buf'[Slot(head, i)] == bytes[i]
    {
      assert Slot(head, i) == if i < first then head + i else i - first;
    }
    forall j | 0 <= j < Size() && (forall i | 0 <= i < |bytes| :: Slot(head, i) != j)
      ensures buf'[j] == buf[j]
    {
      if head <= j < head + first || j < |bytes| - first {
        Touched(head, first, |bytes|, j);
      }
    }
  }

  /** Reading out the oldest n bytes in two straight copies. */
  lemma TwoReads(buf: seq<byte>, tail: nat, count: nat, n: nat, first: nat)
    requires |buf| == Size() && tail < Size() && n <= count <= Size()
    requires first <= n && first <= Size() - tail && (first < n ==> first == Size() - tail)
    ensures buf[tail..tail + first] + buf[..n - first] == Queue(buf, tail, count)[..n]
  {
    forall i | 0 <= i < n
      ensures (buf[tail..tail + first] + buf[..n - first])[i] == Queue(buf, tail, count)[i]
    {
      assert Slot(tail, i) == if i < first then tail + i else i - first;
    }
  }

  // ---------------------------------------------------------------- the ring as a value

  /** Where the next byte goes, where the oldest one is, and how many there are. */
  datatype Ring = Ring(buf: seq<byte>, head: nat, tail: nat, count: nat) {
    predicate Ok() {
      |buf| == Size() && head < Size() && tail < Size() && count <= Size() && head == Slot(tail, count)
    }

    /** The bytes inside, oldest first. */
    function Content(): (q: seq<byte>)
      requires Ok()
      ensures |q| == count
    {
      Queue(buf, tail, count)
    }
  }

  /** A ring that has just been put to use; what the buffer holds does not matter. */
  function Emptied(r: Ring): (e: Ring)
    requires |r.buf| == Size()
    ensures e.Ok() && e.Content() == []
  {
    Ring(r.buf, 0, 0, 0)
  }

  /** How much of n bytes fits before the end of the buffer. */
  function Straight(n: nat, from: nat): (first: nat)
    requires from <= Size()
    ensures first <= n && first <= Size() - from && (first < n ==> first == Size() - from)
  {
    if n > 8192 - from then 8192 - from else n
  }

  function Put(r: Ring, bytes: seq<byte>): (r': Ring)
    requires r.Ok() && r.count + |bytes| <= Size()
    ensures r'.Ok() && r'.count == r.count + |bytes|
  {
    var first := Straight(|bytes|, r.head);
    Ring(Splice(Splice(r.buf, r.head, bytes[..first]), 0, bytes[first..]), Slot(r.head, |bytes|), r.tail,
      r.count + |bytes|)
  }

  function Take(r: Ring, n: nat): (r': (Ring, seq<byte>))
    requires r.Ok() && n <= r.count
    ensures r'.0.Ok() && r'.0.count == r.count - n && |r'.1| == n
  {
    var first := Straight(n, r.tail);
    (Ring(r.buf, r.head, Slot(r.tail, n), r.count - n), r.buf[r.tail..r.tail + first] + r.buf[..n - first])
  }

  /** The two straight copies and the new head append the bytes to the queue that the ring stands for. */
  lemma PutContent(r: Ring, bytes: seq<byte>)
    requires r.Ok() && r.count + |bytes| <= Size()
    ensures Put(r, bytes).Content() == r.Content() + bytes
  {
    TwoCopies(r.buf, r.head, bytes, Straight(|bytes|, r.head));
    PutQueue(r.buf, Put(r, bytes).buf, r.tail, r.count, bytes);
  }

  /** The two straight copies out and the new tail take the oldest bytes off the queue. */
  lemma TakeContent(r: Ring, n: nat)
    requires r.Ok() && n <= r.count
    ensures r.Content() == Take(r, n).1 + Take(r, n).0.Content()
  {
    TwoReads(r.buf, r.tail, r.count, n, Straight(n, r.tail));
    TakeQueue(r.buf, r.tail, r.count, n);
    Halves(r.Content(), n);
  }

  lemma Halves(q: seq<byte>, n: nat)
    requires n <= |q|
    ensures q == q[..n] + q[n..]
  {
  }

  // ---------------------------------------------------------------- the buffer in place

  class Buffer {
    const data: array<byte>
    var head: nat
    var tail: nat
    var count: nat

    ghost function View(): Ring
      reads this, data
    {
      Ring(data[..], head, tail, count)
    }

    constructor ()
      ensures View().Ok() && fresh(data) && View().Content() == []
    {
      data := new byte[8192](k => 0);
      head, tail, count := 0, 0, 0;
    }

    /** A straight copy into the buffer. */
    method CopyIn(at: nat, bytes: seq<byte>)
      requires at + |bytes| <= data.Length
      modifies data
      ensures data[..] == Splice(old(data[..]), at, bytes)
    {
      for i := 0 to |bytes|
        invariant data[..] == old(data[..])[..at] + bytes[..i] + old(data[..])[at + i..]
      {
        data[at + i] := bytes[i];
      }
    }

    /** One or two straight copies. */
    method CopyAround(at: nat, bytes: seq<byte>, first: nat)
      requires first <= |bytes| && at + first <= data.Length && |bytes| - first <= data.Length
      modifies data
      ensures data[..] == Splice(Splice(old(data[..]), at, bytes[..first]), 0, bytes[first..])
    {
      CopyIn(at, bytes[..first]);
      if |bytes| > first {
        CopyIn(0, bytes[first..]);
      }
    }

    /** Append bytes, wrapping around the end of the buffer at most once. */
    method Append(bytes: seq<byte>)
      requires View().Ok() && count + |bytes| <= Size()
      modifies this, data
      ensures View() == Put(old(View()), bytes) && View().Content() == old(View().Content()) + bytes
    {
      ghost var was := View();
      var first := |bytes|;
      if first > 8192 - head {
        first := 8192 - head;
      }
      CopyAround(head, bytes, first);
      head := (head + |bytes|) % 8192;
      count := count + |bytes|;
      assert View() == Put(was, bytes);
      PutContent(was, bytes);
    }

    /** Remove the n oldest bytes. */
    method Remove(n: nat) returns (bytes: seq<byte>)
      requires View().Ok() && n <= count
      modifies this
      ensures View() == Take(old(View()), n).0 && bytes == Take(old(View()), n).1
      ensures old(View().Content()) == bytes + View().Content()
    {
      TakeContent(View(), n);
      var first := n;
      if first > 8192 - tail {
        first := 8192 - tail;
      }
      bytes := data[tail..tail + first];
      if n > first {
        bytes := bytes + data[..n - first];
      }
      assert bytes == data[..][tail..tail + first] + data[..][..n - first];
      tail := (tail + n) % 8192;
      count := count - n;
    }
  }
}
