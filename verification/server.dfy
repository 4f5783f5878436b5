/** The server as a state machine over the registry: one atomic transition
    per received datagram (the handler holds the registry lock throughout)
    and one per sweep tick. Sockets, spawned handlers and the sweep thread's sleep are
    outside the model; time is a parameter. */
module Server {
  import opened Bytes
  import opened Net
  import opened Wrappers
  import opened Registry
  import opened Framing
  import Client

  /** The registry after a handler ran, and the datagrams it sent to the requester. */
  datatype Transition = Transition(clients: Clients, sent: seq<seq<uint8>>)

  /** The blobs of `clients` in the iteration order `order`. */
  function BlobsInOrder(clients: Clients, order: seq<SocketAddr>): (blobs: seq<seq<uint8>>)
    requires forall a :: a in order ==> a in clients
    ensures |blobs| == |order|
    ensures forall i :: 0 <= i < |order| ==> blobs[i] == clients[order[i]].blob
  {
    if |order| == 0 then [] else [clients[order[0]].blob] + BlobsInOrder(clients, order[1..])
  }

  /** The handler for one received buffer `buf` from `from` at time `now`,
      dispatched on its first byte: 0x01 registers, 0x02 answers with every
      blob, read back by the client in the registry's iteration order
      `order`, and anything else is ignored. */
  function Step(clients: Clients, buf: seq<uint8>, from: SocketAddr, now: nat, order: seq<SocketAddr>): (t: Transition)
    requires |buf| == BufferSize
    requires Wellformed(clients)
    requires Enumerates(order, clients)
    ensures buf[0] == 0x01 ==> t.clients == ProcessAdd(buf, from, clients, now) && t.sent == []
    ensures buf[0] == 0x02 ==> t.clients == clients
    ensures buf[0] == 0x02 ==> Client.Receive(t.sent) == Some(BlobsInOrder(clients, order))
    ensures buf[0] == 0x02 ==> 2 <= |t.sent| && t.sent[|t.sent| - 1] == Terminator
    ensures buf[0] != 0x01 && buf[0] != 0x02 ==> t == Transition(clients, [])
    ensures Wellformed(t.clients)
  {
    match buf[0]
    case 0x01 => Transition(ProcessAdd(buf, from, clients, now), [])
    case 0x02 =>
      var blobs := BlobsInOrder(clients, order);
      Client.QueryRoundTrip(blobs);
      ResponseShape(blobs);
      Transition(clients, Response(blobs))
    case _ => Transition(clients, [])
  }

  /** What happens to the registry: a datagram arrives, or the sweep thread wakes up. */
  datatype Event =
    | Arrival(from: SocketAddr, datagram: seq<uint8>, at: nat)
    | Tick(at: nat)

  /** Events in the order of a clock that never runs backwards, none before `since`. */
  predicate Chronological(events: seq<Event>, since: nat) {
    && (forall i :: 0 <= i < |events| ==> since <= events[i].at)
    && (forall i, j :: 0 <= i < j < |events| ==> events[i].at <= events[j].at)
  }

  /** The registry after one event. Only Register changes it on arrival. */
  function Next(clients: Clients, e: Event): (r: Clients)
    requires SeenBy(clients, e.at)
    ensures Wellformed(clients) ==> Wellformed(r)
    ensures SeenBy(r, e.at)
    ensures e.Arrival? && (|e.datagram| == 0 || e.datagram[0] != 0x01) ==> r == clients
    ensures e.Tick? ==> forall a :: a in r <==> a in clients && !Stale(clients[a], e.at)
  {
    match e
    case Arrival(from, datagram, at) =>
      var buf := ReceiveBuffer(datagram);
      if buf[0] == 0x01 then ProcessAdd(buf, from, clients, at) else clients
    case Tick(at) => Evict(clients, at)
  }

  /** An arrival changes the registry exactly as the dispatching handler
      `Step` does, whatever the iteration order: the invariant `Run` keeps
      is about the same dispatch. */
  lemma ArrivalIsStep(clients: Clients, from: SocketAddr, datagram: seq<uint8>, at: nat, order: seq<SocketAddr>)
    requires Wellformed(clients) && SeenBy(clients, at)
    requires Enumerates(order, clients)
    ensures Next(clients, Arrival(from, datagram, at)) == Step(clients, ReceiveBuffer(datagram), from, at, order).clients
  {
  }

  /** The registry after a run of events, started at time `since`. Along
      the way every blob stays storable, so every Query can be framed, and
      no entry is newer than the clock, so the sweep's subtraction never
      underflows. */
  function Run(clients: Clients, since: nat, events: seq<Event>): (r: Clients)
    requires SeenBy(clients, since)
    requires Chronological(events, since)
    ensures Wellformed(clients) ==> Wellformed(r)
    ensures SeenBy(r, if |events| == 0 then since else events[|events| - 1].at)
    decreases |events|
  {
    if |events| == 0 then clients
    else
      var e := events[0];
      assert SeenBy(clients, e.at) by {
        forall a | a in clients
          ensures clients[a].lastSeen <= e.at
        {
          assert clients[a].lastSeen <= since;
        }
      }
      var next := Next(clients, e);
      assert Chronological(events[1..], e.at) by {
        assert forall i :: 0 <= i < |events| - 1 ==> events[1..][i] == events[i + 1];
      }
      Run(next, e.at, events[1..])
  }

  /** The only key order of a registry with a single entry. */
  lemma SingleOrder(a: SocketAddr, e: Entry, order: seq<SocketAddr>)
    requires Enumerates(order, map[a := e])
    ensures order == [a]
  {
    assert a in order;
    assert forall i :: 0 <= i < |order| ==> order[i] in order && order[i] == a;
    assert |order| >= 2 ==> order[0] != order[1];
  }

  /** The request buffers the client's two requests leave in the server. */
  lemma RequestOpcodes(data: seq<uint8>)
    requires |data| < 0x1_0000
    ensures ReceiveBuffer(Client.RegisterRequest(data))[0] == 0x01
    ensures ReceiveBuffer(Client.QueryRequest)[0] == 0x02
  {
  }

  /** A single blob goes out as one datagram, then the terminator. */
  lemma SingleBlobResponse(blob: seq<uint8>)
    requires StorableBlob(blob)
    ensures Response([blob]) == [Record(blob) + Zeros(BufferSize - 2 - |blob|), Terminator]
  {
    assert Records([blob]) == Record(blob) + Records([]);
    assert GroupsFrom([blob], []) == GroupsFrom([], [blob]) by {
      assert [blob][1..] == [];
      assert [] + [blob] == [blob];
    }
    assert Records([blob]) == Record(blob);
    assert Groups([blob]) == [[blob]];
    assert Datagram([blob]) == Record(blob) + Zeros(BufferSize - 2 - |blob|);
    assert Datagrams([[blob]]) == [Datagram([blob])];
    assert Response([blob]) == Datagrams([[blob]]) + [Terminator];
  }

  /** Register of `blob` from `a` on an empty registry, then Query from
      anyone: one datagram holding the single record `[len][blob]`, zero
      padded, then the terminator; the client reads back `[blob]`. */
  lemma RegisterThenQuery(a: SocketAddr, q: SocketAddr, blob: seq<uint8>, t1: nat, t2: nat, order: seq<SocketAddr>)
    requires StorableBlob(blob)
    requires Enumerates(order, map[a := Entry(blob, t1)])
    ensures Step(map[], ReceiveBuffer(Client.RegisterRequest(blob)), a, t1, []).clients == map[a := Entry(blob, t1)]
    ensures Step(map[a := Entry(blob, t1)], ReceiveBuffer(Client.QueryRequest), q, t2, order).sent
      == [Record(blob) + Zeros(BufferSize - 2 - |blob|), Terminator]
    ensures Client.Receive(Step(map[a := Entry(blob, t1)], ReceiveBuffer(Client.QueryRequest), q, t2, order).sent)
      == Some([blob])
  {
    RequestOpcodes(blob);
    Client.RegisterRequestRoundTrip(blob, a, map[], t1);
    SingleOrder(a, Entry(blob, t1), order);
    assert BlobsInOrder(map[a := Entry(blob, t1)], order) == [blob];
    SingleBlobResponse(blob);
  }

  /** The example exchange: the three bytes AA BB CC registered, then a
      Query answered by `00 03 AA BB CC` and zeros, then FF FF FF FF. */
  lemma ThreeByteExample(a: SocketAddr, q: SocketAddr, t: nat)
    ensures Step(map[a := Entry([0xAA, 0xBB, 0xCC], t)], ReceiveBuffer(Client.QueryRequest), q, t, [a]).sent
      == [[0x00, 0x03, 0xAA, 0xBB, 0xCC] + Zeros(BufferSize - 5), Terminator]
  {
    var blob: seq<uint8> := [0xAA, 0xBB, 0xCC];
    assert Record(blob) == [0x00, 0x03, 0xAA, 0xBB, 0xCC];
    RegisterThenQuery(a, q, blob, t, t, [a]);
  }

  /** A second Register from the same address replaces the first: only the
      latest blob is left and a Query returns only it. */
  lemma OverwriteKeepsLatest(a: SocketAddr, x: seq<uint8>, y: seq<uint8>, t1: nat, t2: nat)
    requires StorableBlob(x) && StorableBlob(y)
    ensures Step(map[], ReceiveBuffer(Client.RegisterRequest(x)), a, t1, []).clients == map[a := Entry(x, t1)]
    ensures Step(map[a := Entry(x, t1)], ReceiveBuffer(Client.RegisterRequest(y)), a, t2, [a]).clients
      == map[a := Entry(y, t2)]
    ensures Client.Receive(Step(map[a := Entry(y, t2)], ReceiveBuffer(Client.QueryRequest), a, t2, [a]).sent)
      == Some([y])
  {
    RequestOpcodes(x);
    RequestOpcodes(y);
    Client.RegisterRequestRoundTrip(x, a, map[], t1);
    Client.RegisterRequestRoundTrip(y, a, map[a := Entry(x, t1)], t2);
    assert map[a := Entry(x, t1)][a := Entry(y, t2)] == map[a := Entry(y, t2)];
    assert BlobsInOrder(map[a := Entry(y, t2)], [a]) == [y];
  }

  /** Query on an empty registry: one all-zero buffer, then the terminator. */
  lemma EmptyQuery(q: SocketAddr, t: nat)
    ensures Step(map[], ReceiveBuffer(Client.QueryRequest), q, t, []).sent == [Zeros(BufferSize), Terminator]
    ensures Client.Receive(Step(map[], ReceiveBuffer(Client.QueryRequest), q, t, []).sent) == Some([])
  {
    assert ReceiveBuffer(Client.QueryRequest)[0] == 0x02;
    assert Datagram([]) == Zeros(BufferSize);
  }

  /** An entry not refreshed for more than the sweep period is gone after
      the next tick, and a Query after it returns nothing; one refreshed
      within the period survives. */
  lemma StaleEntryEvicted(a: SocketAddr, blob: seq<uint8>, t: nat, later: nat)
    requires StorableBlob(blob) && t <= later
    ensures later - t > SweepPeriod ==> Evict(map[a := Entry(blob, t)], later) == map[]
    ensures later - t > SweepPeriod ==>
      Client.Receive(Step(Evict(map[a := Entry(blob, t)], later), ReceiveBuffer(Client.QueryRequest), a, later, []).sent) == Some([])
    ensures later - t <= SweepPeriod ==> Evict(map[a := Entry(blob, t)], later) == map[a := Entry(blob, t)]
  {
    if later - t > SweepPeriod {
      assert Evict(map[a := Entry(blob, t)], later) == map[];
      assert ReceiveBuffer(Client.QueryRequest)[0] == 0x02;
    }
  }
}
