/** One worker's side of its connection: reading one byte at a time from the shared buffer, and buffering
    output in front of a socket that may take any part of what it is given
    (TcpConn in vita-gdb/src/gdb/tcpconn.rs). */
module TcpConn {
  import opened Words
  import opened HandOff

  /** A send takes at least one byte, at most all it is given, or fails and takes none. */
  datatype SendOutcome = Took(n: pos) | Failed

  type Network = nat -> SendOutcome

  // ---- Output

  /** The bytes buffered, the bytes sent, and how many sends have been made. */
  datatype Output = Output(pending: seq<byte>, sent: seq<byte>, calls: nat)

  function Taken(net: Network, o: Output): (n: nat)
    requires net(o.calls).Took?
    ensures o.pending != [] ==> 0 < n <= |o.pending|
  {
    if net(o.calls).n < |o.pending| then net(o.calls).n else |o.pending|
  }

  function Flushed(net: Network, o: Output): (Output, bool)
    decreases |o.pending|
  {
    if o.pending == [] then (o, true)
    else if net(o.calls).Failed? then (o.(calls := o.calls + 1), false)
    else
      var n := Taken(net, o);
      Flushed(net, Output(o.pending[n..], o.sent + o.pending[..n], o.calls + 1))
  }

  function Written(net: Network, o: Output, b: byte): (Output, bool) {
    var (o1, ok) := if |o.pending| == BUFFER_SIZE then Flushed(net, o) else (o, true);
    if !ok then (o1, false)
    else
      var o2 := o1.(pending := o1.pending + [b]);
      if |o2.pending| == BUFFER_SIZE then Flushed(net, o2) else (o2, true)
  }

  /** A byte is refused exactly when the buffer is full and cannot be emptied. */
  predicate Accepts(net: Network, o: Output) {
    |o.pending| == BUFFER_SIZE ==> Flushed(net, o).1
  }

  lemma {:induction false} FlushConserves(net: Network, o: Output)
    ensures var (t, ok) := Flushed(net, o);
            t.sent + t.pending == o.sent + o.pending && |t.pending| <= |o.pending|
            && (ok <==> t.pending == []) && o.sent <= t.sent
    decreases |o.pending|
  {
    if o.pending != [] && net(o.calls).Took? {
      var n := Taken(net, o);
      var next := Output(o.pending[n..], o.sent + o.pending[..n], o.calls + 1);
      FlushConserves(net, next);
      assert next.sent + next.pending == o.sent + o.pending;
    }
  }

  lemma FlushedStep(net: Network, o: Output)
    requires o.pending != []
    ensures Flushed(net, o)
            == if net(o.calls).Failed? then (o.(calls := o.calls + 1), false)
               else
                 var n := Taken(net, o);
                 Flushed(net, Output(o.pending[n..], o.sent + o.pending[..n], o.calls + 1))
  {
  }

  /** What k sends from this one on would take in all, given enough to send. */
  function Offered(net: Network, calls: nat, k: nat): nat
    requires forall j :: calls <= j < calls + k ==> net(j).Took?
    decreases k
  {
    if k == 0 then 0 else net(calls).n + Offered(net, calls + 1, k - 1)
  }

  /** From this send on, one fails before `size` bytes are out. */
  ghost predicate FailsBefore(net: Network, calls: nat, size: nat) {
    exists k: nat :: FailsAt(net, calls, size, k)
  }

  ghost predicate FailsAt(net: Network, calls: nat, size: nat, k: nat) {
    && net(calls + k).Failed? && (forall j :: calls <= j < calls + k ==> net(j).Took?)
    && Offered(net, calls, k) < size
  }

  lemma FailsNow(net: Network, calls: nat, size: nat)
    requires net(calls).Failed? && size > 0
    ensures FailsBefore(net, calls, size)
  {
    assert FailsAt(net, calls, size, 0);
  }

  lemma FailsLater(net: Network, calls: nat, size: nat)
    requires net(calls).Took? && size > 0
    ensures FailsBefore(net, calls, size)
            <==> net(calls).n < size && FailsBefore(net, calls + 1, size - net(calls).n)
  {
    var n := net(calls).n;
    if FailsBefore(net, calls, size) {
      var k: nat :| FailsAt(net, calls, size, k);
      assert k > 0 && calls + k == calls + 1 + (k - 1);
      assert Offered(net, calls, k) == n + Offered(net, calls + 1, k - 1);
      assert FailsAt(net, calls + 1, size - n, k - 1);
    }
    if n < size && FailsBefore(net, calls + 1, size - n) {
      var k: nat :| FailsAt(net, calls + 1, size - n, k);
      assert calls + (k + 1) == calls + 1 + k;
      assert FailsAt(net, calls, size, k + 1);
    }
  }

  /** A flush fails exactly when a send fails before the buffer is out; otherwise it ends with an empty
      buffer. */
  lemma {:induction false} FlushFailsExactly(net: Network, o: Output)
    ensures Flushed(net, o).1 <==> !FailsBefore(net, o.calls, |o.pending|)
    ensures Flushed(net, o).1 <==> Flushed(net, o).0.pending == []
    decreases |o.pending|
  {
    if o.pending != [] {
      FlushedStep(net, o);
      if net(o.calls).Failed? {
        FailsNow(net, o.calls, |o.pending|);
      } else {
        var n := Taken(net, o);
        var next := Output(o.pending[n..], o.sent + o.pending[..n], o.calls + 1);
        FlushFailsExactly(net, next);
        FailsLater(net, o.calls, |o.pending|);
        if net(o.calls).n >= |o.pending| {
          assert next.pending == [];
          assert !FailsBefore(net, next.calls, 0);
        }
      }
    }
  }

  /** When every send takes something, a flush takes no more sends than it has bytes and empties the buffer. */
  lemma {:induction false} FlushEmpties(net: Network, o: Output)
    requires forall k :: o.calls <= k < o.calls + |o.pending| ==> net(k).Took?
    ensures var (t, ok) := Flushed(net, o);
            ok && t.pending == [] && t.sent == o.sent + o.pending && t.calls <= o.calls + |o.pending|
    decreases |o.pending|
  {
    if o.pending != [] {
      var n := Taken(net, o);
      var next := Output(o.pending[n..], o.sent + o.pending[..n], o.calls + 1);
      FlushEmpties(net, next);
      assert next.sent + next.pending == o.sent + o.pending;
    }
  }

  /** A write accepts its byte exactly when the buffer has room or can be emptied, and then adds it to the
      stream; the buffer never grows past its size. */
  lemma WriteConserves(net: Network, o: Output, b: byte)
    requires |o.pending| <= BUFFER_SIZE
    ensures var t := Written(net, o, b).0;
            t.sent + t.pending == o.sent + o.pending + (if Accepts(net, o) then [b] else [])
            && |t.pending| <= BUFFER_SIZE
    ensures Accepts(net, o) <==> |o.pending| < BUFFER_SIZE || !FailsBefore(net, o.calls, BUFFER_SIZE)
  {
    FlushConserves(net, o);
    FlushFailsExactly(net, o);
    var o1 := if |o.pending| == BUFFER_SIZE then Flushed(net, o).0 else o;
    var o2 := o1.(pending := o1.pending + [b]);
    FlushConserves(net, o2);
  }

  /** A write reports an error exactly when the buffer is full, or full but for one byte, and a send fails
      before a full buffer is out. In the second case the byte has been accepted all the same. */
  lemma WriteFailsExactly(net: Network, o: Output, b: byte)
    requires |o.pending| <= BUFFER_SIZE
    ensures !Written(net, o, b).1 <==> |o.pending| >= BUFFER_SIZE - 1 && FailsBefore(net, o.calls, BUFFER_SIZE)
    ensures Accepts(net, o) && !Written(net, o, b).1
            <==> |o.pending| == BUFFER_SIZE - 1 && FailsBefore(net, o.calls, BUFFER_SIZE)
  {
    FlushFailsExactly(net, o);
    if |o.pending| < BUFFER_SIZE {
      FlushFailsExactly(net, o.(pending := o.pending + [b]));
    }
  }

  /** A byte accepted with an error: the 64th, on a network that is down. */
  lemma AcceptedWithError() returns (net: Network, o: Output)
    ensures |o.pending| == BUFFER_SIZE - 1
    ensures var (t, ok) := Written(net, o, 7); !ok && t.pending == o.pending + [7] && t.sent == o.sent
  {
    net := _ => Failed;
    o := Output(seq(BUFFER_SIZE - 1, _ => 0), [], 0);
  }

  datatype Call = WriteCall(b: byte) | FlushCall

  /** The output after the calls, errors ignored, and the bytes they accepted. */
  function After(net: Network, o: Output, calls: seq<Call>): (Output, seq<byte>)
    decreases |calls|
  {
    if calls == [] then (o, [])
    else
      match calls[0]
      case FlushCall => After(net, Flushed(net, o).0, calls[1..])
      case WriteCall(b) =>
        var (t, accepted) := After(net, Written(net, o, b).0, calls[1..]);
        (t, (if Accepts(net, o) then [b] else []) + accepted)
  }

  /** Whatever the network takes and however often it fails, the bytes sent and then those buffered are the
      bytes accepted, in order. */
  lemma {:induction false} OutputConserved(net: Network, o: Output, calls: seq<Call>)
    requires |o.pending| <= BUFFER_SIZE
    ensures var (t, accepted) := After(net, o, calls);
            t.sent + t.pending == o.sent + o.pending + accepted && |t.pending| <= BUFFER_SIZE
    decreases |calls|
  {
    if calls != [] {
      match calls[0] {
        case FlushCall =>
          FlushConserves(net, o);
          OutputConserved(net, Flushed(net, o).0, calls[1..]);
        case WriteCall(b) =>
          WriteConserves(net, o, b);
          var t := Written(net, o, b).0;
          OutputConserved(net, t, calls[1..]);
          var got, rest := if Accepts(net, o) then [b] else [], After(net, t, calls[1..]).1;
          assert o.sent + o.pending + (got + rest) == (o.sent + o.pending + got) + rest;
      }
    }
  }

  class TcpSocket {
    const net: Network
    var calls: nat
    var sent: seq<byte>

    constructor (net: Network)
      ensures this.net == net && calls == 0 && sent == []
    {
      this.net := net;
      calls, sent := 0, [];
    }

    /** None is an error. */
    method Send(buf: seq<byte>) returns (taken: Option<nat>)
      modifies this
      ensures calls == old(calls) + 1
      ensures net(old(calls)).Failed? ==> taken == None && sent == old(sent)
      ensures net(old(calls)).Took? ==>
        taken == Some(Taken(net, Output(buf, old(sent), old(calls)))) && sent == old(sent) + buf[..taken.value]
    {
      match net(calls) {
        case Failed => taken := None;
        case Took(n) =>
          var k := if n < |buf| then n else |buf|;
          sent := sent + buf[..k];
          taken := Some(k);
      }
      calls := calls + 1;
    }
  }

  // ---- The connection

  class TcpConn {
    const socket: TcpSocket
    const writeBuffer: array<byte>
    var writeLen: nat
    // the pool entry shared with the receive thread, and this side's place in it
    const buf: array<byte>
    var len: nat
    var closed: bool
    var err: bool
    var readLen: nat
    var wakeReader: bool

    ghost predicate Valid()
      reads this
    {
      writeBuffer.Length == BUFFER_SIZE && writeLen <= BUFFER_SIZE && buf.Length == BUFFER_SIZE && buf != writeBuffer
    }

    ghost function Out(): Output
      reads this, writeBuffer, socket
      requires Valid()
    {
      Output(writeBuffer[..writeLen], socket.sent, socket.calls)
    }

    constructor (socket: TcpSocket)
      ensures Valid() && this.socket == socket && Out().pending == [] && fresh(writeBuffer) && fresh(buf)
      ensures Shared() == Conn(buf[..], 0, false, false) && readLen == 0 && !wakeReader
    {
      this.socket := socket;
      writeBuffer := new byte[BUFFER_SIZE](_ => 0);
      buf := new byte[BUFFER_SIZE](_ => 0);
      writeLen, len, closed, err, readLen, wakeReader := 0, 0, false, false, 0, false;
    }

    method FlushWriteBuffer() returns (ok: bool)
      requires Valid()
      modifies this`writeLen, writeBuffer, socket
      ensures Valid() && (Out(), ok) == Flushed(socket.net, old(Out()))
    {
      while writeLen > 0
        invariant Valid()
        invariant Flushed(socket.net, Out()) == Flushed(socket.net, old(Out()))
      {
        ghost var was := Out();
        FlushedStep(socket.net, was);
        var taken := socket.Send(writeBuffer[..writeLen]);
        if taken.None? {
          return false;
        }
        DropSent(taken.value);
        assert Out() == Output(was.pending[taken.value..], was.sent + was.pending[..taken.value], was.calls + 1);
      }
      return true;
    }

    /** Moves what was not sent to the front of the buffer. */
    method DropSent(n: nat)
      requires Valid() && n <= writeLen
      modifies this`writeLen, writeBuffer
      ensures Valid() && Out() == old(Out()).(pending := old(Out()).pending[n..])
    {
      if n < writeLen {
        forall i | 0 <= i < writeLen - n {
          writeBuffer[i] := writeBuffer[i + n];
        }
        writeLen := writeLen - n;
      } else {
        writeLen := 0;
      }
    }

    method Write(b: byte) returns (ok: bool)
      requires Valid()
      modifies this`writeLen, writeBuffer, socket
      ensures Valid() && (Out(), ok) == Written(socket.net, old(Out()), b)
    {
      if writeLen == writeBuffer.Length {
        FlushConserves(socket.net, Out());
        ok := FlushWriteBuffer();
        if !ok {
          return false;
        }
      }
      ghost var was := Out();
      writeBuffer[writeLen] := b;
      writeLen := writeLen + 1;
      assert Out() == was.(pending := was.pending + [b]);
      if writeLen == writeBuffer.Length {
        ok := FlushWriteBuffer();
        return ok;
      }
      return true;
    }

    // ---- Input

    ghost function Shared(): Conn
      reads this, buf
    {
      Conn(buf[..], len, closed, err)
    }

    /** One read with nobody interfering: what HandOff's steps add up to. */
    method Read() returns (r: ReadResult)
      requires Valid() && (!closed && len > 0 ==> readLen < buf.Length)
      modifies this`readLen, this`len, this`wakeReader
      ensures Valid()
      ensures (Shared(), readLen, wakeReader, r) == ReadOnce(old(Shared()), old(readLen), old(wakeReader))
    {
      if closed {
        if err {
          return ReadErr;
        }
        return ReadClosed;
      }
      var n := len;
      if n == 0 {
        return ReadNone;
      }
      var b := buf[readLen];
      readLen := readLen + 1;
      if readLen == n {
        readLen := 0;
        len := 0;
        wakeReader := true;
      }
      return ReadByte(b);
    }
  }
}
