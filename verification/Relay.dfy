/** The relay loops: `sendall` and CONNECT forwarding. The other ends of the sockets and `poll` are
    adversaries: every receive size, partial send, failure and poll order is possible. */
module Relay {

  const HTTP_LENGTH := 65535

  /** A connected socket, the bytes that have gone through it each way, and how its calls went. */
  class Socket {
    var received: string
    var delivered: string

    /** Calls of `recv` that brought bytes, calls that brought none, and calls of `send` that failed. */
    ghost var receipts: nat
    ghost var closes: nat
    ghost var failures: nat

    constructor ()
      ensures received == "" && delivered == "" && receipts == closes == failures == 0
    {
      received, delivered := "", "";
      receipts, closes, failures := 0, 0, 0;
    }

    /** `send` of a non-empty buffer takes some of it, at least one byte, or fails. */
    method Send(buf: string) returns (n: int)
      requires buf != ""
      modifies this`delivered, this`failures
      ensures n == -1 || 1 <= n <= |buf|
      ensures delivered == old(delivered) + if n == -1 then "" else buf[..n]
      ensures failures == old(failures) + if n == -1 then 1 else 0
    {
      var any: nat := *;
      n := if any == 0 then -1 else 1 + any % |buf|;
      if n == -1 {
        failures := failures + 1;
      } else {
        delivered := delivered + buf[..n];
      }
    }

    /** `recv` brings some bytes, or none when the peer has closed or the call fails. */
    method Recv() returns (n: int, data: string)
      modifies this`received, this`receipts, this`closes
      ensures n <= HTTP_LENGTH && |data| == if n <= 0 then 0 else n
      ensures received == old(received) + data
      ensures receipts == old(receipts) + if n > 0 then 1 else 0
      ensures closes == old(closes) + if n > 0 then 0 else 1
    {
      data :| |data| <= HTTP_LENGTH;
      n := |data|;
      if n == 0 {
        n :| n == 0 || n == -1;
        closes := closes + 1;
      } else {
        receipts := receipts + 1;
      }
      received := received + data;
    }
  }

  /** `sendall`. `garbage` is the value the uninitialised result variable happens to hold. */
  method SendAll(sock: Socket, buf: string, garbage: int) returns (res: int, len: nat)
    modifies sock`delivered, sock`failures
    ensures len <= |buf| && sock.delivered == old(sock.delivered) + buf[..len]
    ensures res == 0 || res == -1
    ensures sock.failures == old(sock.failures) + if len == |buf| then 0 else 1
    ensures buf != "" ==> (res == 0 <==> len == |buf|)
    ensures buf == "" ==> (res == 0 <==> garbage != -1)
  {
    var total, n := 0, garbage;
    while total < |buf|
      invariant total <= |buf| && sock.delivered == old(sock.delivered) + buf[..total]
      invariant sock.failures == old(sock.failures)
      invariant total > 0 ==> n != -1
      invariant total == 0 ==> n == garbage
    {
      n := sock.Send(buf[total..]);
      if n == -1 {
        break;
      }
      assert buf[..total] + buf[total..][..n] == buf[..total + n];
      total := total + n;
    }
    len := total;
    res := if n == -1 then -1 else 0;
  }

  /** What `poll` reports in one turn of the forwarding loop. */
  datatype Poll = PollFailed | Ready(client: bool, server: bool)

  /** How the loop ends: it goes on, a side has closed, or an exception is thrown. */
  datatype End = StillOpen | Disconnected | Exception

  /** In how many turns the client had something to read. */
  function ClientTurns(polls: seq<Poll>): nat {
    if polls == [] then 0
    else
      var last := polls[|polls| - 1];
      ClientTurns(polls[..|polls| - 1]) + if last.Ready? && last.client then 1 else 0
  }

  lemma OneMoreTurn(polls: seq<Poll>, i: nat)
    requires i < |polls|
    ensures ClientTurns(polls[..i + 1]) == ClientTurns(polls[..i]) + if polls[i].Ready? && polls[i].client then 1 else 0
    ensures ServerTurns(polls[..i + 1]) == ServerTurns(polls[..i]) + if polls[i].Ready? && polls[i].server then 1 else 0
    ensures PollFailed in polls[..i + 1] <==> PollFailed in polls[..i] || polls[i].PollFailed?
  {
    assert polls[..i + 1][..i] == polls[..i];
    assert polls[..i + 1] == polls[..i] + [polls[i]];
  }

  lemma NoTurns(polls: seq<Poll>)
    ensures ClientTurns(polls[..0]) == ServerTurns(polls[..0]) == 0 && PollFailed !in polls[..0]
  {
  }

  function ServerTurns(polls: seq<Poll>): nat {
    if polls == [] then 0
    else
      var last := polls[|polls| - 1];
      ServerTurns(polls[..|polls| - 1]) + if last.Ready? && last.server then 1 else 0
  }

  /** Since a start where `received` was `r0` and `delivered` was `d0`, what has been delivered is
      a prefix of what has been received. */
  predicate Relays(r0: string, received: string, d0: string, delivered: string) {
    r0 <= received && d0 <= delivered && delivered[|d0|..] <= received[|r0|..]
  }

  /** And nothing is missing. */
  predicate RelaysAll(r0: string, received: string, d0: string, delivered: string) {
    r0 <= received && d0 <= delivered && delivered[|d0|..] == received[|r0|..]
  }

  /** One readable end: receive once, send all of it to the other end. It goes on exactly when bytes
      came and all of them went out; it is over when none came, and throws when a send failed. */
  method ForwardOnce(from: Socket, to: Socket, garbage: int) returns (end: End)
    requires from != to
    modifies from`received, from`receipts, from`closes, to`delivered, to`failures
    ensures end.Exception? ==> Relays(old(from.received), from.received, old(to.delivered), to.delivered)
    ensures !end.Exception? ==> RelaysAll(old(from.received), from.received, old(to.delivered), to.delivered)
    ensures |from.received| >= |old(from.received)| + (from.receipts - old(from.receipts))
    ensures from.receipts == old(from.receipts) + if end.Disconnected? then 0 else 1
    ensures from.closes == old(from.closes) + if end.Disconnected? then 1 else 0
    ensures to.failures == old(to.failures) + if end.Exception? then 1 else 0
  {
    var len, buffer := from.Recv();
    if len <= 0 {
      return Disconnected;
    }
    var res, sent := SendAll(to, buffer, garbage);
    return if res == -1 then Exception else StillOpen;
  }

  lemma RelaysCompose(r0: string, r1: string, r2: string, d0: string, d1: string, d2: string)
    requires RelaysAll(r0, r1, d0, d1)
    ensures Relays(r1, r2, d1, d2) ==> Relays(r0, r2, d0, d2)
    ensures RelaysAll(r1, r2, d1, d2) ==> RelaysAll(r0, r2, d0, d2)
  {
    if Relays(r1, r2, d1, d2) {
      assert r2[|r0|..] == r1[|r0|..] + r2[|r1|..];
      assert d2[|d0|..] == d1[|d0|..] + d2[|d1|..];
    }
  }

  /** `http_connect_forward_messages`, for any number of turns. Whatever happens, each end has been
      delivered a prefix of what the other sent; and unless a send failed, all of it. While the loop
      goes on, each side has been read in every turn in which it was ready, at least one byte each time;
      and it ends only when a read brings nothing, a send fails or `poll` fails. */
  method ForwardMessages(client: Socket, server: Socket, polls: seq<Poll>, garbage: int) returns (end: End)
    requires client != server
    modifies client, server
    ensures Relays(old(client.received), client.received, old(server.delivered), server.delivered)
    ensures Relays(old(server.received), server.received, old(client.delivered), client.delivered)
    ensures !end.Exception? ==>
              && RelaysAll(old(client.received), client.received, old(server.delivered), server.delivered)
              && RelaysAll(old(server.received), server.received, old(client.delivered), client.delivered)
    ensures end.StillOpen? ==>
              && PollFailed !in polls
              && client.receipts == old(client.receipts) + ClientTurns(polls)
              && server.receipts == old(server.receipts) + ServerTurns(polls)
              && |client.received| >= |old(client.received)| + ClientTurns(polls)
              && |server.received| >= |old(server.received)| + ServerTurns(polls)
    ensures client.closes + server.closes == old(client.closes + server.closes) + if end.Disconnected? then 1 else 0
    ensures client.failures + server.failures <= old(client.failures + server.failures) + 1
    ensures !end.Exception? ==> client.failures + server.failures == old(client.failures + server.failures)
    ensures end.Exception? ==>
              PollFailed in polls || client.failures + server.failures == old(client.failures + server.failures) + 1
  {
    hide Relays, RelaysAll, ClientTurns, ServerTurns;
    NoTurns(polls);
    NothingYet(client.received, server.delivered);
    NothingYet(server.received, client.delivered);
    for i := 0 to |polls|
      invariant RelaysAll(old(client.received), client.received, old(server.delivered), server.delivered)
      invariant RelaysAll(old(server.received), server.received, old(client.delivered), client.delivered)
      invariant PollFailed !in polls[..i]
      invariant client.receipts == old(client.receipts) + ClientTurns(polls[..i])
      invariant server.receipts == old(server.receipts) + ServerTurns(polls[..i])
      invariant |client.received| >= |old(client.received)| + ClientTurns(polls[..i])
      invariant |server.received| >= |old(server.received)| + ServerTurns(polls[..i])
      invariant client.closes + server.closes == old(client.closes + server.closes)
      invariant client.failures + server.failures == old(client.failures + server.failures)
    {
      AllIsPrefix(old(client.received), client.received, old(server.delivered), server.delivered);
      AllIsPrefix(old(server.received), server.received, old(client.delivered), client.delivered);
      OneMoreTurn(polls, i);
      if polls[i].PollFailed? {
        return Exception;
      }
      ghost var r, d := client.received, server.delivered;
      if polls[i].client {
        end := ForwardOnce(client, server, garbage);
        RelaysCompose(old(client.received), r, client.received, old(server.delivered), d, server.delivered);
        AllIsPrefixIf(old(client.received), client.received, old(server.delivered), server.delivered);
        if !end.StillOpen? {
          return;
        }
      }
      r, d := server.received, client.delivered;
      if polls[i].server {
        end := ForwardOnce(server, client, garbage);
        RelaysCompose(old(server.received), r, server.received, old(client.delivered), d, client.delivered);
        AllIsPrefixIf(old(server.received), server.received, old(client.delivered), client.delivered);
        if !end.StillOpen? {
          return;
        }
      }
    }
    AllIsPrefix(old(client.received), client.received, old(server.delivered), server.delivered);
    AllIsPrefix(old(server.received), server.received, old(client.delivered), client.delivered);
    assert polls[..|polls|] == polls;
    end := StillOpen;
  }

  lemma NothingYet(r: string, d: string)
    ensures RelaysAll(r, r, d, d)
  {
  }

  lemma AllIsPrefix(r0: string, r: string, d0: string, d: string)
    requires RelaysAll(r0, r, d0, d)
    ensures Relays(r0, r, d0, d)
  {
  }

  lemma AllIsPrefixIf(r0: string, r: string, d0: string, d: string)
    ensures RelaysAll(r0, r, d0, d) ==> Relays(r0, r, d0, d)
  {
  }
}
