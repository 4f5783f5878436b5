/** The Query response (`process_get`): every stored blob as a
    `[u16 big-endian length][blob]` record, packed into 2048-byte datagrams
    that are flushed when the next record would not fit, then the last
    buffer, sent even when it is empty, then a four-byte terminator. */
module Framing {
  import opened Bytes
  import opened Registry

  /** The end-of-list datagram FF FF FF FF. */
  const Terminator: seq<uint8> := [0xFF, 0xFF, 0xFF, 0xFF]

  predicate AllStorable(blobs: seq<seq<uint8>>) {
    forall i :: 0 <= i < |blobs| ==> StorableBlob(blobs[i])
  }

  /** One record: `(len >> 8) as u8`, `(len & 0xFF) as u8`, then the blob.
      Defined for a blob of any length, so the high byte is also cut to 8
      bits as the cast does; for a length that fits 16 bits the header is
      the length's `HighByte` and `LowByte`. */
  function Record(blob: seq<uint8>): (record: seq<uint8>)
    ensures |record| == 2 + |blob|
    ensures record[2..] == blob
    ensures |blob| < 0x1_0000 ==> record[0] == HighByte(|blob|) && record[1] == LowByte(|blob|)
  {
    [(|blob| / 0x100) % 0x100, |blob| % 0x100] + blob
  }

  /** The records of a group of blobs, back to back. */
  function Records(group: seq<seq<uint8>>): seq<uint8> {
    if |group| == 0 then [] else Record(group[0]) + Records(group[1..])
  }

  /** The concatenation of the groups. */
  function Concat(groups: seq<seq<seq<uint8>>>): seq<seq<uint8>> {
    if |groups| == 0 then [] else groups[0] + Concat(groups[1..])
  }

  lemma {:induction false} RecordsAppend(group: seq<seq<uint8>>, blob: seq<uint8>)
    ensures Records(group + [blob]) == Records(group) + Record(blob)
    decreases |group|
  {
    if |group| == 0 {
      assert group + [blob] == [blob];
      assert Records([blob]) == Record(blob) + Records([]);
    } else {
      assert (group + [blob])[1..] == group[1..] + [blob];
      RecordsAppend(group[1..], blob);
    }
  }

  /** How the blobs `rest` are split into datagrams when `current` already
      sits in the buffer: the greedy packing of the loop. Every group fits in
      one buffer. */
  function GroupsFrom(rest: seq<seq<uint8>>, current: seq<seq<uint8>>): (groups: seq<seq<seq<uint8>>>)
    requires AllStorable(rest)
    requires |Records(current)| <= BufferSize
    ensures 0 < |groups|
    ensures forall i :: 0 <= i < |groups| ==> |Records(groups[i])| <= BufferSize
    decreases |rest|
  {
    if |rest| == 0 then
      [current]
    else if |Records(current)| + |rest[0]| + 2 > BufferSize then
      var tail := GroupsFrom(rest[1..], [rest[0]]);
      [current] + tail
    else
      RecordsAppend(current, rest[0]);
      GroupsFrom(rest[1..], current + [rest[0]])
  }

  /** The groups, in order, hold exactly `current` followed by `rest`:
      nothing is lost, duplicated or reordered. */
  lemma {:induction false} GroupsKeepOrder(rest: seq<seq<uint8>>, current: seq<seq<uint8>>)
    requires AllStorable(rest)
    requires |Records(current)| <= BufferSize
    ensures Concat(GroupsFrom(rest, current)) == current + rest
    decreases |rest|
  {
    if |rest| == 0 {
      assert current + rest == current;
      assert Concat([current]) == current + Concat([]);
    } else if |Records(current)| + |rest[0]| + 2 > BufferSize {
      var tail := GroupsFrom(rest[1..], [rest[0]]);
      GroupsKeepOrder(rest[1..], [rest[0]]);
      assert ([current] + tail)[1..] == tail;
      assert current + rest == current + ([rest[0]] + rest[1..]);
    } else {
      RecordsAppend(current, rest[0]);
      GroupsKeepOrder(rest[1..], current + [rest[0]]);
      assert current + rest == (current + [rest[0]]) + rest[1..];
    }
  }

  /** The packing is greedy: the first group extends `current`, every later
      group is non-empty, and a group is closed only because the first record
      of the next one would not fit after it. */
  lemma {:induction false} GroupsGreedy(rest: seq<seq<uint8>>, current: seq<seq<uint8>>)
    requires AllStorable(rest)
    requires |Records(current)| <= BufferSize
    ensures var groups := GroupsFrom(rest, current);
      |current| <= |groups[0]| && groups[0][..|current|] == current
    ensures var groups := GroupsFrom(rest, current);
      forall i :: 0 < i < |groups| ==>
        0 < |groups[i]| && |Records(groups[i - 1])| + |Record(groups[i][0])| > BufferSize
    decreases |rest|
  {
    if |rest| == 0 {
    } else if |Records(current)| + |rest[0]| + 2 > BufferSize {
      var tail := GroupsFrom(rest[1..], [rest[0]]);
      GroupsGreedy(rest[1..], [rest[0]]);
      var groups := [current] + tail;
      assert groups == GroupsFrom(rest, current);
      forall i | 0 < i < |groups|
        ensures 0 < |groups[i]| && |Records(groups[i - 1])| + |Record(groups[i][0])| > BufferSize
      {
        assert groups[i] == tail[i - 1];
        if i == 1 {
          assert tail[0][..1] == [rest[0]];
          assert tail[0][0] == rest[0];
        }
      }
    } else {
      RecordsAppend(current, rest[0]);
      GroupsGreedy(rest[1..], current + [rest[0]]);
      var groups := GroupsFrom(rest[1..], current + [rest[0]]);
      assert groups[0][..|current|] == (groups[0][..|current| + 1])[..|current|];
    }
  }

  /** The groups of a whole Query. */
  function Groups(blobs: seq<seq<uint8>>): seq<seq<seq<uint8>>>
    requires AllStorable(blobs)
  {
    GroupsFrom(blobs, [])
  }

  /** A group's datagram: its records, then zeros to the end of the buffer. */
  function Datagram(group: seq<seq<uint8>>): seq<uint8>
    requires |Records(group)| <= BufferSize
  {
    Records(group) + Zeros(BufferSize - |Records(group)|)
  }

  function Datagrams(groups: seq<seq<seq<uint8>>>): (datagrams: seq<seq<uint8>>)
    requires forall i :: 0 <= i < |groups| ==> |Records(groups[i])| <= BufferSize
    ensures |datagrams| == |groups|
    ensures forall i :: 0 <= i < |groups| ==> datagrams[i] == Datagram(groups[i])
  {
    if |groups| == 0 then [] else [Datagram(groups[0])] + Datagrams(groups[1..])
  }

  /** Everything a Query sends, in order: one full buffer per group, the last
      one included even when it holds nothing, then the terminator. */
  function Response(blobs: seq<seq<uint8>>): seq<seq<uint8>>
    requires AllStorable(blobs)
  {
    Datagrams(Groups(blobs)) + [Terminator]
  }

  /** The shape of a response: at least two datagrams, all of them full
      2048-byte buffers except the last, which is the terminator. */
  lemma ResponseShape(blobs: seq<seq<uint8>>)
    requires AllStorable(blobs)
    ensures |Response(blobs)| >= 2
    ensures forall i :: 0 <= i < |Response(blobs)| - 1 ==> |Response(blobs)[i]| == BufferSize
    ensures Response(blobs)[|Response(blobs)| - 1] == Terminator
  {
  }

  /** One step of the greedy packing when the record does not fit: the
      current group is closed and the blob starts the next one. */
  lemma GroupsFlush(rest: seq<seq<uint8>>, current: seq<seq<uint8>>)
    requires AllStorable(rest) && 0 < |rest|
    requires |Records(current)| <= BufferSize
    requires |Records(current)| + |rest[0]| + 2 > BufferSize
    ensures Datagrams(GroupsFrom(rest, current)) == [Datagram(current)] + Datagrams(GroupsFrom(rest[1..], [rest[0]]))
  {
    var tail := GroupsFrom(rest[1..], [rest[0]]);
    assert GroupsFrom(rest, current) == [current] + tail;
    assert ([current] + tail)[1..] == tail;
  }

  /** One step of the greedy packing when the record fits: the blob joins
      the current group. */
  lemma GroupsFit(rest: seq<seq<uint8>>, current: seq<seq<uint8>>)
    requires AllStorable(rest) && 0 < |rest|
    requires |Records(current)| <= BufferSize
    requires |Records(current)| + |rest[0]| + 2 <= BufferSize
    ensures |Records(current + [rest[0]])| <= BufferSize
    ensures GroupsFrom(rest, current) == GroupsFrom(rest[1..], current + [rest[0]])
  {
    RecordsAppend(current, rest[0]);
  }

  /** Writes the record of `frame` at `offset`, right after the records of
      `current`, into a buffer that is zero from `offset` on. */
  method WriteRecord(response: array<uint8>, offset: nat, frame: seq<uint8>, ghost current: seq<seq<uint8>>)
    requires response.Length == BufferSize
    requires StorableBlob(frame)
    requires offset == |Records(current)| && offset + 2 + |frame| <= BufferSize
    requires response[..] == Datagram(current)
    modifies response
    ensures |Records(current + [frame])| <= BufferSize
    ensures response[..] == Datagram(current + [frame])
  {
    RecordsAppend(current, frame);
    ghost var before := response[..];
    response[offset] := (|frame| / 0x100) % 0x100;
    response[offset + 1] := |frame| % 0x100;
    forall i | 0 <= i < |frame| {
      response[offset + 2 + i] := frame[i];
    }
    ghost var record := Record(frame);
    ghost var after := Datagram(current + [frame]);
    forall i | 0 <= i < BufferSize
      ensures response[i] == after[i]
    {
      if i < offset {
        assert response[i] == before[i];
      } else if i < offset + 2 + |frame| {
        assert after[i] == record[i - offset];
      } else {
        assert response[i] == before[i];
      }
    }
  }

  /** The plan of datagrams still to send, after a blob that does not fit:
      the current buffer goes out and the blob starts a new one. */
  lemma PlanFlush(rest: seq<seq<uint8>>, sent: seq<seq<uint8>>, current: seq<seq<uint8>>, plan: seq<seq<uint8>>)
    requires AllStorable(rest) && 0 < |rest|
    requires |Records(current)| <= BufferSize
    requires |Records(current)| + |rest[0]| + 2 > BufferSize
    requires sent + Datagrams(GroupsFrom(rest, current)) == plan
    ensures (sent + [Datagram(current)]) + Datagrams(GroupsFrom(rest[1..], [rest[0]])) == plan
  {
    GroupsFlush(rest, current);
    var later := Datagrams(GroupsFrom(rest[1..], [rest[0]]));
    assert sent + ([Datagram(current)] + later) == (sent + [Datagram(current)]) + later;
  }

  /** `response.fill(0)`: the buffer is back to the empty datagram. */
  method Clear(response: array<uint8>)
    requires response.Length == BufferSize
    modifies response
    ensures response[..] == Datagram([])
  {
    forall i | 0 <= i < response.Length {
      response[i] := 0;
    }
    assert response[..] == Zeros(BufferSize);
  }

  /** `process_get` over a registry whose blobs, in iteration order, are
      `blobs`: the datagrams it sends, in order. */
  method ProcessGet(blobs: seq<seq<uint8>>) returns (sent: seq<seq<uint8>>)
    requires AllStorable(blobs)
    ensures sent == Response(blobs)
  {
    var response := new uint8[BufferSize](_ => 0);
    var offset := 0;
    sent := [];
    ghost var current: seq<seq<uint8>> := [];
    assert response[..] == Datagram(current);
    for k := 0 to |blobs|
      invariant offset == |Records(current)| <= BufferSize
      invariant response[..] == Datagram(current)
      invariant sent + Datagrams(GroupsFrom(blobs[k..], current)) == Datagrams(Groups(blobs))
    {
      var frame := blobs[k];
      assert blobs[k..][1..] == blobs[k + 1..] && blobs[k..][0] == frame;
      if offset + |frame| + 2 > response.Length {
        PlanFlush(blobs[k..], sent, current, Datagrams(Groups(blobs)));
        sent := sent + [response[..]];
        Clear(response);
        offset := 0;
        current := [];
        assert current + [frame] == [frame];
      } else {
        GroupsFit(blobs[k..], current);
      }
      WriteRecord(response, offset, frame, current);
      RecordsAppend(current, frame);
      offset := offset + 2 + |frame|;
      current := current + [frame];
    }
    assert blobs[|blobs|..] == [];
    sent := sent + [response[..]];
    sent := sent + [Terminator];
  }
}
