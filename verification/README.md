# HoleKeeper: peer descriptor codec and rendezvous registry, in Dafny

HoleKeeper helps peers behind NATs find each other's addresses. This project
models the two pure cores under its networking:

- **The peer descriptor codec** (`hk_core/src/peer.rs`). A `Peer` holds a
  nickname, an IPv4 socket address, a TURN-use flag and a TURN-server
  address. It is serialised into a fixed 213-byte record: a 200-byte
  nickname, zero-padded; 6 bytes of address (four octets, then the port
  big-endian); one flag byte; and 6 bytes of TURN server.
  Module `PeerCodec` (`peer.dfy`) models this record. It relies on
  `Utf8` (`utf8.dfy`) for UTF-8 validity, defined by the syntax in section 4
  of RFC 3629, and for the NUL removal that `unpack` performs.
- **The rendezvous server** (`hk_server/src/main.rs`). This is a registry
  `SocketAddr -> (blob, lastSeen)` with the following operations:
  - Register (opcode 0x01) upserts the sender's blob.
  - Query (opcode 0x02) streams every blob as `[u16 length][blob]` records
    packed into 2048-byte datagrams, followed by an `FF FF FF FF` terminator.
  - A sweep drops entries older than 30 s.

  The modules are:
  - `Registry` (`registry.dfy`): state, Register, eviction.
  - `Framing` (`framing.dfy`): the Query response, with `ProcessGet`
    written imperatively over a 2048-byte array.
  - `Client` (`client.dfy`): the Python test client's request encoder and
    response parser, which serve as the inverse of the framing.
  - `Server` (`server.dfy`): opcode dispatch, multi-event runs and the
    example exchanges.

Each handler is one atomic transition on the registry, because the code
holds the registry lock for the whole handler. Time is a natural number of
nanoseconds passed in by the caller. Hash-map iteration order is a
parameter `order`, which must list each key once (`Registry.Enumerates`).
Bytes are `uint8` values; the code's shifts and masks on 16-bit values are
written as `/ 256` and `% 256`, which agree on those ranges.

Behaviour modelled as the code does it:
- A Query on an empty registry still sends one all-zero 2048-byte datagram
  before the terminator.
- The Register length bound is strict (`0 < length < 2045`), so the
  largest blob stored is 2044 bytes.
- `DisableTurnServer` clears only the flag. `Pack` writes the old TURN
  server anyway.
- `Unpack` removes every NUL byte of the nickname region, not only the
  padding. A nickname with an embedded NUL is therefore accepted by
  `SetNickname` but does not survive the round trip.

A 2045-byte blob would still fit the 2048-byte buffer after its
three-byte header, but the strict `<` at `hk_server/src/main.rs:93` refuses
it. The two panics in `pack` appear as error results:
- `NicknameTooLong`: the padding length `200 - len` underflows for a
  nickname longer than 200 bytes.
- `Ipv6Unsupported`: the explicit panic on an IPv6 address.

## Model

| member | source | states |
|---|---|---|
| `PeerCodec.New` | hk_core/src/peer.rs:20-27 | A new peer has an empty nickname, no TURN use, and `0.0.0.0:0` as both address and TURN server, so it meets the invariant the codec relies on (at most 200 bytes of UTF-8 text, no NUL). |
| `PeerCodec.PackAddress` | hk_core/src/peer.rs:35-49 | Succeeds exactly for IPv4 addresses, giving 6 bytes: the four octets, then the port's high and low byte. IPv6 gives `Ipv6Unsupported` in place of the panic. |
| `PeerCodec.Pack` | hk_core/src/peer.rs:29-56 | Succeeds exactly when the nickname is at most 200 bytes and both addresses are IPv4; the result is then exactly 213 bytes. Bytes 0..200 are the nickname then zeros. Bytes 200..206 encode the address. Byte 206 is 1 or 0 per the flag. Bytes 207..213 encode the TURN server. A longer nickname fails with `NicknameTooLong`. |
| `PeerCodec.UnpackAddress` | hk_core/src/peer.rs:71-87 | Succeeds exactly on 6 bytes, and the address it returns is the one those bytes encode, with the port as `b4 * 256 + b5`. |
| `PeerCodec.Unpack` | hk_core/src/peer.rs:58-107 | Fails exactly when the input is not 213 bytes (`SizeMismatch`) or its first 200 bytes are not UTF-8 (`InvalidNickname`); it never fails with the address-size error. On success the nickname is the first 200 bytes without NULs, the flag is `byte 206 != 0`, and both addresses decode from their 6-byte slices. |
| `PeerCodec.AddressRoundTrip` | hk_core/src/peer.rs:78-86 | Decoding 6 bytes yields `a` if and only if those bytes are the encoding of `a`: the address layout is a bijection. |
| `PeerCodec.PackUnpack` | hk_core/src/peer.rs:29-107 | For every peer that packs (nickname of at most 200 bytes of UTF-8, IPv4 addresses), unpacking its record returns the same peer except for NUL bytes removed from the nickname. |
| `PeerCodec.RoundTrip` | hk_core/src/peer.rs:29-107 | For a nickname of at most 200 bytes of valid UTF-8 without NUL and IPv4 addresses, `Unpack(Pack(p))` returns `p` field by field. |
| `PeerCodec.UsernameExample` | hk_core/src/tests.rs:5-18 | The unit test's peer ("username", 95.27.168.74:33124, TURN 102.77.198.34:34123) is accepted by `SetNickname` and survives pack then unpack. |
| `PeerCodec.EmbeddedNulLost` | hk_core/src/peer.rs:67 | `SetNickname` accepts "a\0b", but its packed record unpacks with nickname "ab". The no-NUL condition of the round trip is necessary. |
| `PeerCodec.UnpackEncodable` | hk_core/src/peer.rs:66-67 | Every peer `Unpack` returns has a nickname of at most 200 bytes of valid UTF-8, without NUL, and IPv4 addresses. |
| `PeerCodec.UnpackPackUnpack` | hk_core/src/peer.rs:58-107 | Unpack normalises: re-packing an unpacked peer succeeds, and unpacking that record gives the same peer again. |
| `PeerCodec.SetNickname` | hk_core/src/peer.rs:109-116 | Fails exactly for more than 200 bytes, with `NicknameTooLong`, and then leaves the peer unchanged. Otherwise only the nickname is replaced. |
| `PeerCodec.SetNicknameKeepsEncodable` | hk_core/src/peer.rs:109-116 | Setting a valid nickname without NUL keeps the peer encodable. Exactly 200 bytes is accepted, and the resulting peer survives the round trip. |
| `PeerCodec.TurnServerToggle` | hk_core/src/peer.rs:130-137 | `SetTurnServer` sets the flag and the server, and the round trip returns both. `DisableTurnServer` writes flag byte 0 but the same TURN-server bytes as before, so unpacking still returns the old server. |
| `Utf8.RemoveNul` | hk_core/src/peer.rs:67 | The result contains no zero byte, is no longer than the input, and is the input itself when the input has no zero byte. |
| `Utf8.IsValid` | hk_core/src/peer.rs:66 | Defines the byte sequences `from_utf8` accepts: well-formed UTF-8 characters back to back, per section 4 of RFC 3629. `Utf8.ConcatValid`, `Utf8.PaddedValid` and `Utf8.RemoveNulValid` state its closure properties, and `PeerCodec.Unpack` fails exactly where it is false. |
| `Utf8.PaddedValid` | hk_core/src/peer.rs:31-32 | Valid UTF-8 followed by any number of zero bytes is valid UTF-8, so the padded nickname region passes the `from_utf8` check. |
| `Utf8.RemoveNulPadding` | hk_core/src/peer.rs:67 | Removing the NULs from a NUL-free nickname plus zero padding gives back the nickname. |
| `Utf8.RemoveNulValid` | hk_core/src/peer.rs:66-67 | Removing NUL bytes from valid UTF-8 leaves valid UTF-8. |
| `Utf8.ConcatValid` | hk_core/src/peer.rs:66 | The concatenation of two valid UTF-8 texts is valid. |
| `Registry.ReceiveBuffer` | hk_server/src/main.rs:72-73 | The request buffer is 2048 bytes: the datagram's bytes first (cut at 2048), zeros after. |
| `Registry.ProcessAdd` | hk_server/src/main.rs:87-100 | If the length `buf[1]*256 + buf[2]` is strictly between 0 and 2045, the sender's entry becomes `(buf[3..3+length], now)`. Otherwise nothing changes. No other key is added, removed or changed. It keeps every stored blob within 1..2044 bytes and no entry newer than `now`. |
| `Registry.Evict` | hk_server/src/main.rs:53-64 | Keeps exactly the entries with `now - lastSeen <= 30 s`, unchanged, and drops those with `now - lastSeen > 30 s`. It requires `lastSeen <= now`, because the code's `Duration` subtraction panics otherwise. |
| `Registry.CollectStale` | hk_server/src/main.rs:53-59 | The first loop of the sweep collects exactly the keys whose age exceeds 30 s, each in the position it has in the iteration order (`Registry.StaleKeys`). |
| `Registry.Sweep` | hk_server/src/main.rs:46-64 | The sweep as coded: collect the stale keys in iteration order, then remove them one by one. The result equals `Evict`. The logged list holds exactly the stale keys, in iteration order (`Registry.StaleKeys`). |
| `Registry.EvictIdempotent` | hk_server/src/main.rs:53-64 | A second sweep at the same instant removes nothing more. |
| `Registry.EvictKeepsInvariants` | hk_server/src/main.rs:53-64 | A sweep never adds entries and preserves both invariants: blob lengths stay in range and no entry is newer than the clock. |
| `Framing.Record` | hk_server/src/main.rs:116-121 | A record is two header bytes followed by the blob itself. For any length below 65536 the header is the length's high byte, then its low byte. |
| `Framing.GroupsFrom` | hk_server/src/main.rs:107-122 | The greedy split of the blobs into datagrams always has at least one datagram, and each one's records fit in 2048 bytes (`offset <= 2048`). |
| `Framing.GroupsKeepOrder` | hk_server/src/main.rs:107-122 | Concatenating the datagrams' groups gives back the blobs in iteration order: none is lost, duplicated or reordered. |
| `Framing.GroupsGreedy` | hk_server/src/main.rs:108-115 | A datagram is flushed only when the next record would not fit in it. Every datagram after the first is non-empty. |
| `Framing.WriteRecord` | hk_server/src/main.rs:116-121 | Writing a record at `offset` turns the buffer holding a group's datagram into the datagram of the group plus that blob. The record is the length's high byte, its low byte, then the blob. |
| `Framing.ProcessGet` | hk_server/src/main.rs:102-131 | The imperative loop over a 2048-byte array sends exactly the reference response. The loop invariants are `offset` equal to the records written, `offset <= 2048`, and the buffer equal to the current datagram. |
| `Framing.ResponseShape` | hk_server/src/main.rs:124-130 | A Query sends at least two datagrams: every one but the last is a full 2048-byte buffer (the final buffer is sent even when empty), and the last is `FF FF FF FF`. |
| `Framing.Response` | hk_server/src/main.rs:107-130 | Defines everything a Query sends: one zero-padded buffer per greedy group, the last one included, then the terminator. `Framing.ResponseShape` states its shape, `Framing.ProcessGet` shows the loop sends exactly it, and `Client.QueryRoundTrip` shows the client reads the blobs back from it. |
| `Client.ParseZeros` | test/server_test.py:17-20 | The client parser stops at once on zero padding. |
| `Client.ParseRecords` | test/server_test.py:16-23 | Defines the client's inner loop over one datagram: read a big-endian length, take that many bytes, and stop at the end or at a zero length. `Client.ParseZeros` and `Client.ParseDatagram` state that it inverts a datagram's records and stops in the padding. |
| `Client.ParseDatagram` | test/server_test.py:16-23 | Parsing a datagram made of records and zero padding returns the group's blobs in order. |
| `Client.Receive` | test/server_test.py:11-27 | Defines the client's outer loop: each datagram is cut to 2048 bytes and parsed until the `FF FF FF FF` datagram arrives. `Client.ReceiveDatagrams` and `Client.QueryRoundTrip` state that it returns exactly the blobs the server sent, in order. |
| `Client.ReceiveDatagrams` | test/server_test.py:11-27 | Receiving a run of full datagrams and then the terminator returns the concatenation of their blobs. |
| `Client.QueryRoundTrip` | test/server_test.py:11-27 | The client, reading a Query response, gets exactly the blobs the server iterated over, in the same order. |
| `Client.RegisterRequestRoundTrip` | test/server_test.py:6-8 | A client Register of `data` stores exactly `(data, now)` under the sender when `data` is 1..2044 bytes, and changes nothing otherwise. |
| `Client.RegisterRequest` | test/server_test.py:6-8 | The request is `3 + len` bytes: opcode 0x01, a big-endian length header that reads back as the data's length, then the data unchanged. |
| `Server.Step` | hk_server/src/main.rs:78-82 | Dispatch on the first byte. 0x01 runs Register and sends nothing. 0x02 leaves the registry unchanged and sends a response from which the client reads exactly the blobs in iteration order, ending with the terminator. Any other byte changes nothing and sends nothing. The blob-length invariant always holds afterwards. |
| `Server.BlobsInOrder` | hk_server/src/main.rs:107 | The blobs the Query loop visits: one per key of the iteration order, the `i`-th being the blob stored under the `i`-th key. |
| `Server.Next` | hk_server/src/main.rs:53-98 | One event on the registry. It preserves the blob-length invariant and leaves no entry newer than the event's time. An arrival that is not a Register (including an empty datagram, which reads as opcode 0) changes nothing. A sweep tick keeps exactly the keys that are not stale. |
| `Server.Run` | hk_server/src/main.rs:46-98 | Over any chronological run of received datagrams and sweep ticks, every stored blob stays within 1..2044 bytes. No entry is newer than the clock, so the sweep's subtraction never underflows. |
| `Server.ArrivalIsStep` | hk_server/src/main.rs:78-98 | On every arrival the registry changes exactly as under the dispatching handler `Server.Step`, whatever the iteration order, so the invariant of `Server.Run` holds for the dispatch `Server.Step` models. |
| `Server.RegisterThenQuery` | hk_server/src/main.rs:87-131 | A Register of a blob on an empty registry, then a Query from anyone, sends one datagram (the record `[len][blob]` then zeros) and the terminator. The client reads back `[blob]`. |
| `Server.ThreeByteExample` | hk_server/src/main.rs:116-130 | A Query on a registry holding only `AA BB CC` sends the datagram `00 03 AA BB CC` followed by zeros, then `FF FF FF FF`. |
| `Server.OverwriteKeepsLatest` | hk_server/src/main.rs:94-98 | A second Register from the same address replaces the first. Only the latest blob is stored, and a Query returns only it. |
| `Server.EmptyQuery` | hk_server/src/main.rs:124-130 | A Query on an empty registry sends one all-zero 2048-byte datagram and then the terminator. The client reads no blobs. |
| `Server.StaleEntryEvicted` | hk_server/src/main.rs:53-64 | An entry not refreshed for more than 30 s is gone after the next sweep, and a later Query returns nothing. An entry refreshed within 30 s survives. |

## Left out

- UDP sockets, `recv_from`/`send_to`, `tokio::spawn`, the sweep thread and its `sleep`: I/O and concurrency. Each handler is one atomic transition, as the lock makes it. The sweep's period is the caller's choice of when to apply `Tick`. `Client.QueryRoundTrip` assumes every datagram of a response is delivered once and in order, which UDP does not guarantee: if the terminator is lost the client blocks in `recvfrom`, and if it overtakes a data datagram the client returns early without the remaining blobs.
- `Server.Run`: its premise, a clock that never runs backwards, is not guaranteed by `get_time_now` (hk_server/src/main.rs:18-22), which reads the non-monotonic `SystemTime`. If the wall clock steps back between a Register and a sweep, `time_now - *last_request` at main.rs:55 panics in the sweep thread while it holds the lock. That poisons the mutex, and every later `lock().unwrap()` panics too. The model does not describe that failure.
- `get_time_now` (`SystemTime`): time is a parameter. The sweep requires `lastSeen <= now`, and `Server.Run` shows this holds for any clock that never runs backwards.
- Hash-map iteration order: unspecified in the code, so it is a parameter that lists each key once.
- The sweep's `println!` logging of each removed client and of the `Online:` count: console output. `Registry.Sweep` returns the removed keys in the order they are logged, but not the `Online:` counts.
- `.expect` on send failures in `process_get`: I/O error handling.
- `Server::new` and `main`: they only parse the listen address and start the loop.
- `hk_core/src/nat_utils.rs`: the STUN exchanges go through an external crate and sockets that cannot be modelled. Its only pure logic is that two different mapped addresses mean Symmetric and equal ones mean Common. Both calls target the same STUN server.
- IPv6 addresses: the type exists, but `Pack` rejects them with an error in place of the panic. `Unpack` only builds IPv4.
- Getters of `Peer` (`get_nickname`, `get_address`, `get_turn_server`, `using_turn`): they are the datatype's field selectors.
- `SetAddress`, `SetTurnServer`, `DisableTurnServer` are plain field updates without their own contracts. `PeerCodec.TurnServerToggle` states what they do to the record.
- `Framing.ProcessGet` requires every blob to be 1..2044 bytes, which the code never checks. `Server.Run` and `Registry.ProcessAdd` show that every registry the server can reach satisfies it.
- `Client.RegisterRequest` requires a blob shorter than 65536 bytes. For longer data Python's `to_bytes(2, 'big')` raises instead of sending.
- The client's wait for more datagrams when no terminator comes is modelled as `None` (the client would block forever).
