/**
 One connection of the server (aesdsocket.c): what its receives return, what its client has
 been sent, and how a message is gathered from 1000-byte receives into a growing buffer.
 Whether a call succeeds is arbitrary, and so is how much a copy across the user boundary
 moves; Luck says which of the two can be relied on.
 */
module Connections {
  import opened Common
  import opened CommandLog
  import opened Messages

  /** At most as much as one receive asks for; an empty packet is the end of the connection. */
  type Packet = s: seq<byte> | |s| <= SOCK_READ_BUF_SIZE witness []

  /** What can be relied on: that calls succeed, and that copies across the user boundary are full. */
  datatype Luck = Luck(callsSucceed: bool, fullCopies: bool) {
    predicate Both() {
      callsSucceed && fullCopies
    }

    /** Whether one call succeeds. */
    method Flip() returns (ok: bool)
      ensures callsSucceed ==> ok
    {
      ok := *;
      ok := ok || callsSucceed;
    }

    method ForWrite() returns (env: WriteEnv)
      ensures callsSucceed ==> Succeeds(env)
      ensures fullCopies ==> env.uncopied == 0
    {
      env := *;
      if callsSucceed {
        env := env.(interrupted := false, granted := true);
      }
      if fullCopies {
        env := env.(uncopied := 0);
      }
    }

    method ForRead() returns (env: ReadEnv)
      ensures callsSucceed ==> !env.interrupted
      ensures fullCopies ==> env.uncopied == 0
    {
      env := *;
      if callsSucceed {
        env := env.(interrupted := false);
      }
      if fullCopies {
        env := env.(uncopied := 0);
      }
    }
  }

  datatype Arrival = RecvFailed | Bytes(data: Packet)

  /** What the receives of a connection will return, and what its client has been sent. */
  class Connection {
    var incoming: seq<Arrival>
    var sent: seq<byte>

    /** -1 on an error, 0 at the end of the connection, else the number of bytes stored from at on. */
    method Recv(buf: array<byte>, at: nat) returns (r: int)
      requires at + SOCK_READ_BUF_SIZE <= buf.Length
      modifies `incoming, buf
      ensures incoming == if old(incoming) == [] then [] else old(incoming)[1..]
      ensures buf[..at] == old(buf[..at])
      ensures if old(incoming) == [] then r == 0
              else match old(incoming)[0]
                case RecvFailed => r == -1
                case Bytes(data) => r == |data| && buf[at..at + |data|] == data
    {
      if incoming == [] {
        return 0;
      }
      match incoming[0] {
        case RecvFailed =>
          r := -1;
        case Bytes(data) =>
          forall i | 0 <= i < |data| {
            buf[at + i] := data[i];
          }
          r := |data|;
      }
      incoming := incoming[1..];
    }

    /** Sends some of the first n bytes of buf: how many, or -1 for none. */
    method Send(buf: array<byte>, n: nat, luck: Luck) returns (r: int)
      requires n <= buf.Length
      modifies `sent
      ensures luck.callsSucceed ==> r == n
      ensures -1 <= r <= n
      ensures sent == old(sent) + buf[..if r < 0 then 0 else r]
    {
      var wanted: int := *;
      r := if -1 <= wanted <= n && !luck.callsSucceed then wanted else n;
      sent := sent + buf[..if r < 0 then 0 else r];
    }
  }

  predicate NoFailure(incoming: seq<Arrival>) {
    forall i :: 0 <= i < |incoming| ==> incoming[i].Bytes?
  }

  /**
   The messages a connection delivers, g bytes of the first one being there already: each
   runs up to the first short receive.
   */
  function Payloads(g: seq<byte>, incoming: seq<Arrival>): seq<seq<byte>>
    decreases |incoming|
  {
    if incoming == [] || incoming[0].RecvFailed? || incoming[0].data == [] then []
    else if |incoming[0].data| == SOCK_READ_BUF_SIZE then Payloads(g + incoming[0].data, incoming[1..])
    else [g + incoming[0].data] + Payloads([], incoming[1..])
  }

  /** Full receives followed by a short one make up one message: all their bytes, in order. */
  lemma {:induction false} FullThenShort(g: seq<byte>, full: seq<Packet>, last: Packet, rest: seq<Arrival>)
    requires forall i :: 0 <= i < |full| ==> |full[i]| == SOCK_READ_BUF_SIZE
    requires 0 < |last| < SOCK_READ_BUF_SIZE
    ensures Payloads(g, Arrivals(full) + [Bytes(last)] + rest) == [g + Flatten(full) + last] + Payloads([], rest)
    decreases |full|
  {
    var all := Arrivals(full) + [Bytes(last)] + rest;
    if full == [] {
      assert all[1..] == rest;
      assert g + [] == g;
    } else {
      assert all[1..] == Arrivals(full[1..]) + [Bytes(last)] + rest;
      FullThenShort(g + full[0], full[1..], last, rest);
      assert g + full[0] + Flatten(full[1..]) == g + Flatten(full);
    }
  }

  function Arrivals(packets: seq<Packet>): seq<Arrival> {
    if packets == [] then [] else [Bytes(packets[0])] + Arrivals(packets[1..])
  }

  /** A larger (or smaller) buffer with the same bytes as far as both reach. */
  method Realloc(buf: array<byte>, size: nat) returns (r: array<byte>)
    ensures fresh(r) && r.Length == size
    ensures r[..Min(size, buf.Length)] == buf[..Min(size, buf.Length)]
  {
    r := new byte[size];
    forall i | 0 <= i < Min(size, buf.Length) {
      r[i] := buf[i];
    }
  }

  lemma PayloadsStep(g: seq<byte>, incoming: seq<Arrival>)
    ensures incoming == [] ==> Payloads(g, incoming) == []
    ensures incoming != [] && incoming[0].Bytes? ==>
              var data, rest := incoming[0].data, incoming[1..];
              Payloads(g, incoming) == if data == [] then []
                                       else if |data| == SOCK_READ_BUF_SIZE then Payloads(g + data, rest)
                                       else [g + data] + Payloads([], rest)
  {
  }

  datatype Reception = Received | Closed | Broken

  /**
   Receives one message. A receive that fills its 1000 bytes means more may follow: the
   buffer grows by as much and the next receive goes after what is there. A shorter one ends
   the message, which is then terminated in the buffer.
   */
  method ReceiveMessage(conn: Connection, bufStart: array<byte>)
    returns (what: Reception, buf: array<byte>, ghost data: seq<byte>)
    requires bufStart.Length == SOCK_READ_BUF_SIZE
    modifies conn`incoming, bufStart
    ensures buf == bufStart || fresh(buf)
    ensures |conn.incoming| <= |old(conn.incoming)|
    ensures match what
            case Received =>
              && |conn.incoming| < |old(conn.incoming)|
              && Payloads([], old(conn.incoming)) == [data] + Payloads([], conn.incoming)
              && SOCK_READ_BUF_SIZE <= buf.Length <= |data| + SOCK_READ_BUF_SIZE
              && |data| < buf.Length && buf[..|data|] == data && buf[|data|] == NUL
            case Closed => Payloads([], old(conn.incoming)) == []
            case Broken => true
    ensures NoFailure(old(conn.incoming)) ==> what != Broken && NoFailure(conn.incoming)
  {
    hide Payloads;
    var curBufSize, bufCurr := SOCK_READ_BUF_SIZE, 0;
    buf, data := bufStart, [];
    var full := true;
    while full
      invariant buf == bufStart || fresh(buf)
      invariant NoFailure(old(conn.incoming)) ==> NoFailure(conn.incoming)
      invariant buf.Length == curBufSize && |conn.incoming| <= |old(conn.incoming)|
      invariant full ==> bufCurr == curBufSize - SOCK_READ_BUF_SIZE && |data| == bufCurr && buf[..bufCurr] == data
      invariant full ==> Payloads([], old(conn.incoming)) == Payloads(data, conn.incoming)
      invariant !full ==> && |conn.incoming| < |old(conn.incoming)|
                          && |data| < buf.Length <= |data| + SOCK_READ_BUF_SIZE
                          && SOCK_READ_BUF_SIZE <= buf.Length && buf[..|data|] == data && buf[|data|] == NUL
                          && Payloads([], old(conn.incoming)) == [data] + Payloads([], conn.incoming)
      decreases full, |conn.incoming|
    {
      ghost var incoming := conn.incoming;
      PayloadsStep(data, incoming);
      var bytesRead := conn.Recv(buf, bufCurr);
      if bytesRead <= -1 {
        return Broken, buf, data;
      } else if bytesRead == 0 {
        return Closed, buf, data;
      }
      data := data + incoming[0].data;
      assert buf[..bufCurr + bytesRead] == data;
      if bytesRead == SOCK_READ_BUF_SIZE {
        curBufSize := curBufSize + SOCK_READ_BUF_SIZE;
        buf := Realloc(buf, curBufSize);
        bufCurr := curBufSize - SOCK_READ_BUF_SIZE;
      } else {
        buf[bufCurr + bytesRead] := NUL;
        full := false;
      }
    }
    what := Received;
  }
}
