/** The sender of examples/socket/socket-bound-tcp-static-routing.cc: it writes a fixed amount
    of data in chunks of a small buffer, as far as a socket accepts them, and goes on where it
    stopped whenever it is called again. */
module ChunkedWriter {

  const TOTAL_TX_BYTES := 20000
  const WRITE_SIZE := 1040

  /** The buffer repeated periodically, from byte `start` up to byte `end`. */
  function Periodic(data: seq<bv8>, start: nat, end: nat): seq<bv8>
    requires |data| == WRITE_SIZE && start <= end
  {
    seq(end - start, i requires 0 <= i < end - start => data[(start + i) % WRITE_SIZE])
  }

  /** A socket, as far as the sender can see it: how much it would take, and what it took.
      A plain one is a connected TCP socket: its buffer takes what fits and fills up. */
  class Socket {
    const plain: bool
    var txAvailable: nat
    var accepted: seq<bv8>
    var closed: bool
    /** How often it refused, and how much it was offered last. */
    ghost var refusals: nat
    ghost var offered: nat

    constructor (plain: bool, txAvailable: nat)
      ensures this.plain == plain && this.txAvailable == txAvailable && accepted == [] && !closed
    {
      this.plain, this.txAvailable := plain, txAvailable;
      accepted, closed, refusals, offered := [], false, 0, 0;
    }

    /** Refuses with a negative number, or takes at least one byte and at most what is offered;
        unless it is plain, how much space is left afterwards is up to the socket. */
    method Send(bytes: seq<bv8>) returns (sent: int)
      requires bytes != []
      modifies `txAvailable, `accepted, `refusals, `offered
      ensures sent <= |bytes| && sent != 0 && offered == |bytes|
      ensures sent < 0 ==> accepted == old(accepted) && refusals == old(refusals) + 1
      ensures sent > 0 ==> accepted == old(accepted) + bytes[..sent] && refusals == old(refusals)
      ensures plain && |bytes| <= old(txAvailable) ==> sent == |bytes| && txAvailable == old(txAvailable) - sent
    {
      offered := |bytes|;
      if plain && |bytes| <= txAvailable {
        sent := |bytes|;
        accepted := accepted + bytes;
        txAvailable := txAvailable - sent;
      } else if * {
        sent, refusals := -1, refusals + 1;
      } else {
        sent :| 1 <= sent <= |bytes|;
        accepted := accepted + bytes[..sent];
        txAvailable := *;
      }
    }

    method Close()
      modifies `closed
      ensures closed
    {
      closed := true;
    }
  }

  class Sender {
    const data: array<bv8>
    var currentTxBytes: nat
    /** The bytes that sockets have accepted since the flow was started. */
    ghost var stream: seq<bv8>

    ghost predicate Valid()
      reads this, data
    {
      data.Length == WRITE_SIZE && currentTxBytes <= TOTAL_TX_BYTES
      && stream == Periodic(data[..], 0, currentTxBytes)
    }

    constructor (data: array<bv8>)
      requires data.Length == WRITE_SIZE
      ensures this.data == data && currentTxBytes == 0 && Valid()
    {
      this.data := data;
      currentTxBytes, stream := 0, [];
    }

    /** The count is shared, so a new flow starts over whatever was sent before. */
    method StartFlow(sock: Socket)
      requires data.Length == WRITE_SIZE
      modifies `currentTxBytes, `stream, sock
      ensures Valid() && sock.accepted == old(sock.accepted) + stream
      ensures sock.refusals == old(sock.refusals) ==>
        sock.closed && (currentTxBytes == TOTAL_TX_BYTES || sock.txAvailable == 0)
      ensures sock.plain ==> sock.closed && currentTxBytes == Min(TOTAL_TX_BYTES, old(sock.txAvailable))
    {
      currentTxBytes, stream := 0, [];
      var refused := WriteUntilBufferFull(sock);
    }

    /** The body of the loop: one chunk, as long as the rest of the buffer, what is left to be sent
        and the space of the socket allow. */
    method SendChunk(sock: Socket) returns (amountSent: int)
      requires Valid() && currentTxBytes < TOTAL_TX_BYTES && sock.txAvailable > 0
      modifies `currentTxBytes, `stream, sock`txAvailable, sock`accepted, sock`refusals, sock`offered
      ensures Valid() && currentTxBytes == old(currentTxBytes) + if amountSent < 0 then 0 else amountSent
      ensures sock.accepted == old(sock.accepted) + Periodic(data[..], old(currentTxBytes), currentTxBytes)
      ensures amountSent != 0 && sock.refusals == old(sock.refusals) + if amountSent < 0 then 1 else 0
      ensures var room, left, space :=
          WRITE_SIZE - old(currentTxBytes) % WRITE_SIZE, TOTAL_TX_BYTES - old(currentTxBytes), old(sock.txAvailable);
        sock.offered in {room, left, space} && sock.offered <= room && sock.offered <= left && sock.offered <= space
      ensures sock.plain ==> amountSent > 0 && sock.txAvailable == old(sock.txAvailable) - amountSent
    {
      var left := TOTAL_TX_BYTES - currentTxBytes;
      var dataOffset := currentTxBytes % WRITE_SIZE;
      var toWrite := WRITE_SIZE - dataOffset;
      toWrite := Min(toWrite, left);
      toWrite := Min(toWrite, sock.txAvailable);
      var chunk := data[dataOffset..dataOffset + toWrite];
      assert chunk == data[..][dataOffset..dataOffset + toWrite];
      amountSent := sock.Send(chunk);
      if amountSent < 0 {
        return;
      }
      OneChunk(data[..], currentTxBytes, currentTxBytes, chunk, amountSent);
      OneChunk(data[..], 0, currentTxBytes, chunk, amountSent);
      stream := stream + chunk[..amountSent];
      currentTxBytes := currentTxBytes + amountSent;
    }

    /** Every call sends on exactly where the last one stopped; the socket is closed unless it
        refused a chunk, which is when all is sent or it would take no more.  So it is closed
        untouched when it is full, and a plain one is closed with bytes still to be sent exactly
        when its buffer has less space than they need. */
    method WriteUntilBufferFull(sock: Socket) returns (refused: bool)
      requires Valid()
      modifies `currentTxBytes, `stream, sock
      ensures Valid() && old(currentTxBytes) <= currentTxBytes
      ensures sock.accepted == old(sock.accepted) + Periodic(data[..], old(currentTxBytes), currentTxBytes)
      ensures refused ==> sock.closed == old(sock.closed) && sock.refusals == old(sock.refusals) + 1
      ensures !refused ==> sock.closed && sock.refusals == old(sock.refusals)
      ensures !refused ==> currentTxBytes == TOTAL_TX_BYTES || sock.txAvailable == 0
      ensures old(sock.txAvailable) == 0 ==> !refused && currentTxBytes == old(currentTxBytes)
      ensures sock.plain ==>
        !refused && currentTxBytes == Min(TOTAL_TX_BYTES, old(currentTxBytes) + old(sock.txAvailable))
      ensures sock.plain ==>
        (sock.closed && currentTxBytes < TOTAL_TX_BYTES <==>
          old(sock.txAvailable) < TOTAL_TX_BYTES - old(currentTxBytes))
    {
      while currentTxBytes < TOTAL_TX_BYTES && sock.txAvailable > 0
        invariant Valid() && old(currentTxBytes) <= currentTxBytes
        invariant sock.closed == old(sock.closed) && sock.refusals == old(sock.refusals)
        invariant old(sock.txAvailable) == 0 ==> sock.txAvailable == 0 && currentTxBytes == old(currentTxBytes)
        invariant sock.plain ==> currentTxBytes + sock.txAvailable == old(currentTxBytes) + old(sock.txAvailable)
        invariant sock.accepted == old(sock.accepted) + Periodic(data[..], old(currentTxBytes), currentTxBytes)
        decreases TOTAL_TX_BYTES - currentTxBytes
      {
        ghost var from := currentTxBytes;
        var amountSent := SendChunk(sock);
        if amountSent < 0 {
          return true;
        }
        GoesOn(data[..], old(currentTxBytes), from, currentTxBytes);
      }
      sock.Close();
      return false;
    }

    /** A flow starts on a socket or the socket calls back; `piece` is what it takes. */
    method Handle(e: Event) returns (piece: seq<bv8>)
      requires Valid()
      modifies `currentTxBytes, `stream, e.sock
      ensures Valid() && e.sock.accepted == old(e.sock.accepted) + piece
      ensures stream == if e.Start? then piece else old(stream) + piece
    {
      var from, taken := currentTxBytes, e.sock.accepted;
      e.sock.txAvailable := e.space;
      if e.Start? {
        from := 0;
        StartFlow(e.sock);
      } else {
        var refused := WriteUntilBufferFull(e.sock);
        GoesOn(data[..], 0, from, currentTxBytes);
      }
      piece := e.sock.accepted[|taken|..];
      assert piece == Periodic(data[..], from, currentTxBytes);
    }

    /** Any number of flows that start and go on, on any sockets, with any amount of space at
        each time, all sharing the count.  `pieces` is what the socket took at each event. */
    method Run(events: seq<Event>) returns (pieces: seq<seq<bv8>>)
      requires Valid()
      modifies `currentTxBytes, `stream, set e | e in events :: e.sock
      ensures Valid() && |pieces| == |events|
      ensures forall s | s in Sockets(events) :: s.accepted == old(s.accepted) + TakenBy(s, events, pieces)
      ensures SinceStart(old(stream), events, pieces) == Periodic(data[..], 0, currentTxBytes)
    {
      pieces := [];
      assert events[..|events|] == events;
      for i := 0 to |events|
        invariant Valid() && |pieces| == i && stream == SinceStart(old(stream), events[..i], pieces)
        invariant forall s | s in Sockets(events) :: s.accepted == old(s.accepted) + TakenBy(s, events[..i], pieces)
      {
        var piece := Handle(events[i]);
        OneEvent(old(stream), events, i, pieces, piece);
        pieces := pieces + [piece];
      }
    }
  }

  /** A plain socket with space for 1500 bytes is closed when it has taken these. */
  method SmallBufferEndsTheFlow(data: array<bv8>) returns (sender: Sender, sock: Socket)
    requires data.Length == WRITE_SIZE
    ensures sock.closed && |sock.accepted| == sender.currentTxBytes == 1500 < TOTAL_TX_BYTES
  {
    sender := new Sender(data);
    sock := new Socket(true, 1500);
    sender.StartFlow(sock);
  }

  /** A flow starts on a socket, or the socket calls back; it has some space then. */
  datatype Event = Start(sock: Socket, space: nat) | Writable(sock: Socket, space: nat)

  ghost function Sockets(events: seq<Event>): set<Socket> { set e | e in events :: e.sock }

  /** All that one socket took, in order. */
  ghost function TakenBy(sock: Socket, events: seq<Event>, pieces: seq<seq<bv8>>): seq<bv8>
    requires |pieces| == |events|
  {
    if events == [] then []
    else
      var n := |events| - 1;
      TakenBy(sock, events[..n], pieces[..n]) + if events[n].sock == sock then pieces[n] else []
  }

  /** All that all sockets took since the last start of a flow, or before the first event. */
  ghost function SinceStart(before: seq<bv8>, events: seq<Event>, pieces: seq<seq<bv8>>): seq<bv8>
    requires |pieces| == |events|
  {
    if events == [] then before
    else
      var n := |events| - 1;
      if events[n].Start? then pieces[n] else SinceStart(before, events[..n], pieces[..n]) + pieces[n]
  }

  lemma OneEvent(before: seq<bv8>, events: seq<Event>, i: nat, pieces: seq<seq<bv8>>, piece: seq<bv8>)
    requires i == |pieces| < |events|
    ensures forall s: Socket ::
      TakenBy(s, events[..i + 1], pieces + [piece])
      == TakenBy(s, events[..i], pieces) + (if events[i].sock == s then piece else [])
    ensures SinceStart(before, events[..i + 1], pieces + [piece])
         == if events[i].Start? then piece else SinceStart(before, events[..i], pieces) + piece
  {
    assert events[..i + 1][..i] == events[..i] && (pieces + [piece])[..i] == pieces;
  }

  function Min(x: nat, y: nat): nat { if y < x then y else x }

  /** What is taken of a chunk that does not cross the end of the buffer continues the periodic stream. */
  lemma OneChunk(data: seq<bv8>, start: nat, end: nat, chunk: seq<bv8>, n: nat)
    requires |data| == WRITE_SIZE && start <= end && n <= |chunk|
    requires chunk <= data[end % WRITE_SIZE..]
    ensures Periodic(data, start, end + n) == Periodic(data, start, end) + chunk[..n]
  {
    var whole := Periodic(data, start, end + n);
    var parts := Periodic(data, start, end) + chunk[..n];
    forall k | 0 <= k < |whole| ensures whole[k] == parts[k] {
      if k >= end - start {
        InSameChunk(end, k - (end - start));
      }
    }
  }

  lemma GoesOn(data: seq<bv8>, start: nat, middle: nat, end: nat)
    requires |data| == WRITE_SIZE && start <= middle <= end
    ensures Periodic(data, start, middle) + Periodic(data, middle, end) == Periodic(data, start, end)
  {
  }

  lemma InSameChunk(end: nat, i: nat)
    requires end % WRITE_SIZE + i < WRITE_SIZE
    ensures (end + i) % WRITE_SIZE == end % WRITE_SIZE + i
  {
  }
}
