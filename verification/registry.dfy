/** The rendezvous server's registry: a map from the sender's socket address
    to the last descriptor blob it registered and when. This module holds the
    Register transition (`process_add`) and the eviction sweep. */
module Registry {
  import opened Bytes
  import opened Net

  /** The size of every receive and send buffer. */
  const BufferSize: nat := 2048
  /** The sweep period and the staleness bound: 30 s, with time in nanoseconds. */
  const SweepPeriod: nat := 30_000_000_000

  /** One client's blob and the time of its last Register. */
  datatype Entry = Entry(blob: seq<uint8>, lastSeen: nat)

  /** `ClientsList`. */
  type Clients = map<SocketAddr, Entry>

  /** The blobs Register accepts: strictly between 0 and `BufferSize - 3` bytes. */
  predicate StorableBlob(blob: seq<uint8>) {
    0 < |blob| < BufferSize - 3
  }

  /** Every stored blob is one Register could have accepted. */
  predicate Wellformed(clients: Clients) {
    forall a :: a in clients ==> StorableBlob(clients[a].blob)
  }

  /** No entry was seen after `now`. */
  predicate SeenBy(clients: Clients, now: nat) {
    forall a :: a in clients ==> clients[a].lastSeen <= now
  }

  /** `order` lists every key of `clients` exactly once: one possible
      iteration order of the hash map. */
  predicate Enumerates(order: seq<SocketAddr>, clients: Clients) {
    && (forall a :: a in order ==> a in clients)
    && (forall a :: a in clients ==> a in order)
    && (forall i, j :: 0 <= i < j < |order| ==> order[i] != order[j])
  }

  /** The zero-filled 2048-byte buffer after `recv_from` has written
      `datagram` into it; a longer datagram is cut at the buffer's end. */
  function ReceiveBuffer(datagram: seq<uint8>): (buf: seq<uint8>)
    ensures |buf| == BufferSize
    ensures forall i :: 0 <= i < BufferSize ==> buf[i] == if i < |datagram| then datagram[i] else 0
  {
    var n := Min(|datagram|, BufferSize);
    datagram[..n] + Zeros(BufferSize - n)
  }

  /** The big-endian length in bytes 1 and 2 of a Register request. */
  function DeclaredLength(buf: seq<uint8>): nat
    requires |buf| == BufferSize
  {
    JoinBytes(buf[1], buf[2])
  }

  /** Register: when the declared length is strictly between 0 and
      `BufferSize - 3`, the entry of `from` becomes that many bytes after the
      header, seen `now`; otherwise nothing changes. No other key is touched. */
  function ProcessAdd(buf: seq<uint8>, from: SocketAddr, clients: Clients, now: nat): (r: Clients)
    requires |buf| == BufferSize
    ensures var n := DeclaredLength(buf);
      0 < n < BufferSize - 3 ==> from in r && r[from] == Entry(buf[3..3 + n], now)
    ensures !(0 < DeclaredLength(buf) < BufferSize - 3) ==> r == clients
    ensures forall a :: a != from ==> (a in r <==> a in clients)
    ensures forall a :: a != from && a in r ==> r[a] == clients[a]
    ensures Wellformed(clients) ==> Wellformed(r)
    ensures SeenBy(clients, now) ==> SeenBy(r, now)
  {
    var length := DeclaredLength(buf);
    if 0 < length < BufferSize - 3 then
      clients[from := Entry(buf[3..3 + length], now)]
    else
      clients
  }

  /** An entry is stale when more than a sweep period has passed since it was
      last seen. The subtraction is the `Duration` one, which cannot go
      below zero. */
  predicate Stale(e: Entry, now: nat)
    requires e.lastSeen <= now
  {
    now - e.lastSeen > SweepPeriod
  }

  /** The registry one sweep leaves behind: the entries that are not stale,
      unchanged. */
  function Evict(clients: Clients, now: nat): (r: Clients)
    requires SeenBy(clients, now)
    ensures forall a :: a in r <==> a in clients && !Stale(clients[a], now)
    ensures forall a :: a in r ==> r[a] == clients[a]
  {
    map a | a in clients && !Stale(clients[a], now) :: clients[a]
  }

  /** The stale keys among `order`, in that order. */
  function StaleKeys(order: seq<SocketAddr>, clients: Clients, now: nat): seq<SocketAddr>
    requires SeenBy(clients, now)
    requires forall a :: a in order ==> a in clients
  {
    if |order| == 0 then []
    else
      var last := order[|order| - 1];
      StaleKeys(order[..|order| - 1], clients, now) + (if Stale(clients[last], now) then [last] else [])
  }

  /** The first loop of the sweep: walk the keys in `order` and collect the
      stale ones. */
  method CollectStale(clients: Clients, now: nat, order: seq<SocketAddr>) returns (stale: seq<SocketAddr>)
    requires SeenBy(clients, now)
    requires forall a :: a in order ==> a in clients
    ensures forall a :: a in stale <==> a in order && Stale(clients[a], now)
    ensures stale == StaleKeys(order, clients, now)
  {
    stale := [];
    for i := 0 to |order|
      invariant forall a :: a in stale <==> a in order[..i] && Stale(clients[a], now)
      invariant stale == StaleKeys(order[..i], clients, now)
    {
      var client := order[i];
      assert order[..i + 1] == order[..i] + [client];
      assert order[..i + 1][..i] == order[..i];
      if now - clients[client].lastSeen > SweepPeriod {
        stale := stale + [client];
      }
    }
    assert order[..|order|] == order;
  }

  /** One tick of the sweep thread, as the loop body does it: collect the
      stale keys while iterating in `order`, then remove them one by one.
      `removed` is the list of keys it logs, in the order it logs them. */
  method Sweep(clients: Clients, now: nat, order: seq<SocketAddr>) returns (remaining: Clients, removed: seq<SocketAddr>)
    requires SeenBy(clients, now)
    requires Enumerates(order, clients)
    ensures remaining == Evict(clients, now)
    ensures forall a :: a in removed <==> a in clients && Stale(clients[a], now)
    ensures removed == StaleKeys(order, clients, now)
  {
    removed := CollectStale(clients, now, order);
    remaining := clients;
    for i := 0 to |removed|
      invariant forall a :: a in remaining <==> a in clients && a !in removed[..i]
      invariant forall a :: a in remaining ==> remaining[a] == clients[a]
    {
      assert removed[..i + 1] == removed[..i] + [removed[i]];
      remaining := remaining - {removed[i]};
    }
    assert removed[..|removed|] == removed;
  }

  /** Evicting twice at the same instant removes nothing more. */
  lemma EvictIdempotent(clients: Clients, now: nat)
    requires SeenBy(clients, now)
    ensures SeenBy(Evict(clients, now), now)
    ensures Evict(Evict(clients, now), now) == Evict(clients, now)
  {
  }

  /** Eviction keeps the registry's invariants, and never adds or changes an
      entry. */
  lemma EvictKeepsInvariants(clients: Clients, now: nat, later: nat)
    requires SeenBy(clients, now) && now <= later
    requires Wellformed(clients)
    ensures SeenBy(Evict(clients, now), later)
    ensures Wellformed(Evict(clients, now))
    ensures Evict(clients, now).Keys <= clients.Keys
  {
  }
}
