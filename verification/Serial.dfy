/**
 The receive buffer of hw3/serial.c: a ring of 4096 bytes filled by the interrupt
 handler and emptied by serial_read.
 */
module Serial {
  import opened Words

  const RING_BUFFER_SIZE: nat := 4096

  // The buffer after one byte arrived.
  function Received(stored: seq<int>, data: int): seq<int> {
    if |stored| == RING_BUFFER_SIZE then stored else stored + [data]
  }

  // ... and after the bytes of one interrupt.
  function ReceivedAll(stored: seq<int>, input: seq<int>): (r: seq<int>)
    ensures stored <= r
    decreases |input|
  {
    if input == [] then stored else ReceivedAll(Received(stored, input[0]), input[1..])
  }

  // How many bytes of one interrupt there is room for.
  function Room(stored: seq<int>, input: seq<int>): (n: nat)
    ensures n <= |input|
  {
    if |stored| < RING_BUFFER_SIZE then Min(|input|, RING_BUFFER_SIZE - |stored|) else 0
  }

  lemma TakeOne(stored: seq<int>, input: seq<int>, n: nat)
    requires n < |input|
    ensures stored + [input[0]] + input[1..][..n] == stored + input[..n + 1]
  {
    assert input[..n + 1] == [input[0]] + input[1..][..n];
    Append(stored, [input[0]], input[1..][..n]);
  }

  // A byte is dropped exactly when 4096 are unread: what is kept of one interrupt is
  // the longest prefix for which there is room.
  lemma {:induction false} KeepsPrefix(stored: seq<int>, input: seq<int>)
    requires |stored| <= RING_BUFFER_SIZE
    ensures ReceivedAll(stored, input) == stored + input[..Room(stored, input)]
    decreases |input|
  {
    if input != [] {
      var now, rest := Received(stored, input[0]), input[1..];
      KeepsPrefix(now, rest);
      if |stored| < RING_BUFFER_SIZE {
        TakeOne(stored, input, Room(now, rest));
      }
    }
  }

  /* Runs */

  datatype Event = Irq(input: seq<int>) | Read(size: nat)

  // Bytes stored, bytes that arrived while there was room, bytes returned by serial_read.
  datatype Log = Log(stored: seq<int>, accepted: seq<int>, returned: seq<int>)

  function Act(l: Log, e: Event): Log {
    match e
    case Irq(input) =>
      l.(stored := ReceivedAll(l.stored, input), accepted := l.accepted + input[..Room(l.stored, input)])
    case Read(size) =>
      var n := Min(|l.stored|, size);
      l.(stored := l.stored[n..], returned := l.returned + l.stored[..n])
  }

  function Run(l: Log, es: seq<Event>): Log
    decreases |es|
  {
    if es == [] then l else Run(Act(l, es[0]), es[1..])
  }

  ghost predicate Balanced(l: Log) {
    l.returned + l.stored == l.accepted && |l.stored| <= RING_BUFFER_SIZE
  }

  lemma StepBalanced(l: Log, e: Event)
    requires Balanced(l)
    ensures Balanced(Act(l, e))
  {
    match e {
      case Irq(input) =>
        KeepsPrefix(l.stored, input);
        Append(l.returned, l.stored, input[..Room(l.stored, input)]);
      case Read(size) =>
        Regroup(l.returned, l.stored, Min(|l.stored|, size));
    }
  }

  lemma Append(a: seq<int>, b: seq<int>, c: seq<int>)
    ensures a + (b + c) == a + b + c
  {
  }

  // Cutting the stored bytes in two does not change the stream.
  lemma Regroup(a: seq<int>, c: seq<int>, n: nat)
    requires n <= |c|
    ensures a + c[..n] + c[n..] == a + c
  {
    assert c[..n] + c[n..] == c;
    assert a + c[..n] + c[n..] == a + (c[..n] + c[n..]);
  }

  // FIFO over every interleaving: what was returned, followed by what is stored, is
  // what arrived while there was room, in order of arrival.
  lemma {:induction false} Fifo(l: Log, es: seq<Event>)
    requires Balanced(l)
    ensures Balanced(Run(l, es))
    decreases |es|
  {
    if es != [] {
      StepBalanced(l, es[0]);
      Fifo(Act(l, es[0]), es[1..]);
    }
  }

  function Total(sizes: seq<nat>): nat {
    if sizes == [] then 0 else sizes[0] + Total(sizes[1..])
  }

  function Reads(sizes: seq<nat>): seq<Event> {
    if sizes == [] then [] else [Read(sizes[0])] + Reads(sizes[1..])
  }

  // Reading returns as much as there is: reads without interrupts in between return the
  // stored bytes in order, up to the sum of their sizes, and leave the rest.
  lemma {:induction false} ReadsDrain(l: Log, sizes: seq<nat>)
    ensures var n := Min(|l.stored|, Total(sizes)); var r := Run(l, Reads(sizes));
            r.returned == l.returned + l.stored[..n] && r.stored == l.stored[n..] && r.accepted == l.accepted
    decreases |sizes|
  {
    if sizes == [] {
      assert l.returned + l.stored[..0] == l.returned && l.stored[0..] == l.stored;
    } else {
      var k := Min(|l.stored|, sizes[0]);
      var m := Act(l, Read(sizes[0]));
      var n := Min(|m.stored|, Total(sizes[1..]));
      ReadsDrain(m, sizes[1..]);
      assert Reads(sizes)[0] == Read(sizes[0]) && Reads(sizes)[1..] == Reads(sizes[1..]);
      CutTwice(l.returned, l.stored, k, n);
    }
  }

  lemma CutTwice(a: seq<int>, s: seq<int>, k: nat, n: nat)
    requires k + n <= |s|
    ensures a + s[..k] + s[k..][..n] == a + s[..k + n] && s[k..][n..] == s[k + n..]
  {
    assert s[..k + n] == s[..k] + s[k..][..n];
    Append(a, s[..k], s[k..][..n]);
  }

  /* The ring */

  function Wrap(x: nat): (r: nat)
    requires x < 2 * RING_BUFFER_SIZE
    ensures r == x % RING_BUFFER_SIZE < RING_BUFFER_SIZE
  {
    if x < RING_BUFFER_SIZE then x else x - RING_BUFFER_SIZE
  }

  // The size bytes from begin on.
  function Ring(b: seq<int>, begin: nat, size: nat): (r: seq<int>)
    requires |b| == RING_BUFFER_SIZE && begin < RING_BUFFER_SIZE && size <= RING_BUFFER_SIZE
    ensures |r| == size
  {
    seq(size, i requires 0 <= i < size => b[Wrap(begin + i)])
  }

  lemma RingPut(b: seq<int>, begin: nat, size: nat, data: int)
    requires |b| == RING_BUFFER_SIZE && begin < RING_BUFFER_SIZE && size < RING_BUFFER_SIZE
    ensures Ring(b[Wrap(begin + size) := data], begin, size + 1) == Ring(b, begin, size) + [data]
  {
    var c := b[Wrap(begin + size) := data];
    forall i | 0 <= i < size ensures Ring(c, begin, size + 1)[i] == Ring(b, begin, size)[i] {
      assert Wrap(begin + i) != Wrap(begin + size);
    }
  }

  lemma RingGet(b: seq<int>, begin: nat, size: nat)
    requires |b| == RING_BUFFER_SIZE && begin < RING_BUFFER_SIZE && 1 <= size <= RING_BUFFER_SIZE
    ensures [b[begin]] + Ring(b, Wrap(begin + 1), size - 1) == Ring(b, begin, size)
    ensures Wrap(Wrap(begin + 1) + size - 1) == Wrap(begin + size)
  {
    var rest := Ring(b, Wrap(begin + 1), size - 1);
    forall i | 0 <= i < size ensures ([b[begin]] + rest)[i] == Ring(b, begin, size)[i] {
      assert i >= 1 ==> Wrap(Wrap(begin + 1) + (i - 1)) == Wrap(begin + i);
    }
  }

  /* The code */

  class RingBuffer {
    const buffer: array<int>
    var begin: nat
    var end: nat
    var size: nat

    ghost predicate Valid()
      reads this
    {
      && buffer.Length == RING_BUFFER_SIZE && begin < RING_BUFFER_SIZE
      && size <= RING_BUFFER_SIZE && end == Wrap(begin + size)
    }

    // The unread bytes, oldest first.
    ghost function Stored(): seq<int>
      reads this, buffer
      requires Valid()
    {
      Ring(buffer[..], begin, size)
    }

    constructor ()
      ensures Valid() && Stored() == [] && fresh(buffer)
    {
      buffer := new int[RING_BUFFER_SIZE](_ => 0);
      begin, end, size := 0, 0, 0;
    }

    method PutChar(data: int)
      requires Valid() && size != RING_BUFFER_SIZE
      modifies this, buffer
      ensures Valid() && Stored() == old(Stored()) + [data]
    {
      RingPut(buffer[..], begin, size, data);
      buffer[end] := data;
      end := (end + 1) % RING_BUFFER_SIZE;
      size := size + 1;
    }

    method GetChar() returns (data: int)
      requires Valid() && size != 0
      modifies this
      ensures Valid() && [data] + Stored() == old(Stored())
    {
      RingGet(buffer[..], begin, size);
      data := buffer[begin];
      begin := (begin + 1) % RING_BUFFER_SIZE;
      size := size - 1;
    }

    // `input` is what the UART delivers while its status shows received data.
    method IrqHandler(input: seq<int>)
      requires Valid()
      modifies this, buffer
      ensures Valid() && Stored() == ReceivedAll(old(Stored()), input)
    {
      var rest := input;
      while rest != []
        invariant Valid() && ReceivedAll(Stored(), rest) == ReceivedAll(old(Stored()), input)
        decreases |rest|
      {
        var data := rest[0];
        if size != RING_BUFFER_SIZE {
          PutChar(data);
        }
        rest := rest[1..];
      }
    }

    // Returns the longest prefix that fits, and fills no more of the caller's buffer.
    method SerialRead(buf: array<int>, limit: nat) returns (count: nat)
      requires Valid() && buf != buffer && limit <= buf.Length
      modifies this, buf
      ensures Valid() && count == Min(|old(Stored())|, limit)
      ensures buf[..count] == old(Stored())[..count] && Stored() == old(Stored())[count..]
      ensures forall k :: count <= k < buf.Length ==> buf[k] == old(buf[k])
    {
      count := size;
      if count > limit {
        count := limit;
      }
      var i := 0;
      while i != count
        invariant Valid() && i <= count <= |old(Stored())| && buf != buffer
        invariant buf[..i] + Stored() == old(Stored())
        invariant forall k :: i <= k < buf.Length ==> buf[k] == old(buf[k])
        decreases count - i
      {
        MoveByte(buf, i);
        i := i + 1;
      }
      assert buf[..count] == old(Stored())[..count];
    }

    method MoveByte(buf: array<int>, i: nat)
      requires Valid() && size != 0 && buf != buffer && i < buf.Length
      modifies this, buf
      ensures Valid() && buf[..i + 1] + Stored() == old(buf[..i] + Stored())
      ensures forall k :: i < k < buf.Length ==> buf[k] == old(buf[k])
    {
      var data := GetChar();
      buf[i] := data;
      assert buf[..i + 1] + Stored() == buf[..i] + ([data] + Stored());
    }
  }
}
