/** The client side of the registry protocol, as the repository's Python
    test client speaks it: the Register request it sends and the parser it
    runs over the Query response. */
module Client {
  import opened Wrappers
  import opened Bytes
  import opened Registry
  import opened Framing

  /** `int.from_bytes(bs, 'big')`. */
  function FromBytesBig(bs: seq<uint8>): nat {
    if |bs| == 0 then 0 else FromBytesBig(bs[..|bs| - 1]) * 0x100 + bs[|bs| - 1]
  }

  /** `s[i:j]` for non-negative bounds: clamped to the sequence. */
  function Slice(s: seq<uint8>, i: nat, j: nat): seq<uint8> {
    var lo := Min(i, |s|);
    var hi := Min(j, |s|);
    if lo <= hi then s[lo..hi] else []
  }

  /** `b'\x01' + len(data).to_bytes(2, 'big') + data`. */
  function RegisterRequest(data: seq<uint8>): (request: seq<uint8>)
    requires |data| < 0x1_0000
    ensures |request| == 3 + |data| && request[0] == 0x01
    ensures JoinBytes(request[1], request[2]) == |data|
    ensures request[3..] == data
  {
    SplitJoin(|data|, 0, 0);
    [0x01, HighByte(|data|), LowByte(|data|)] + data
  }

  /** `b'\x02'`: a Query. */
  const QueryRequest: seq<uint8> := [0x02]

  /** The inner loop over one datagram, from the current offset on: `rest` is
      `data[offset:]`. Reading stops at the end of the data or at a length of
      zero. */
  function ParseRecords(rest: seq<uint8>): seq<seq<uint8>>
    decreases |rest|
  {
    if |rest| == 0 then []
    else
      var length := FromBytesBig(Slice(rest, 0, 2));
      if length == 0 then []
      else [Slice(rest, 2, 2 + length)] + ParseRecords(rest[Min(2 + length, |rest|)..])
  }

  /** The outer loop of `recv_data` over the datagrams it receives (each cut
      to 2048 bytes by `recvfrom`): the blobs of every datagram before the
      terminator, in order. Without a terminator the client would wait
      forever; that is `None`. */
  function Receive(datagrams: seq<seq<uint8>>): Option<seq<seq<uint8>>> {
    if |datagrams| == 0 then None
    else
      var data := datagrams[0][..Min(|datagrams[0]|, BufferSize)];
      if data == Terminator then Some([])
      else
        match Receive(datagrams[1..])
        case None => None
        case Some(blobs) => Some(ParseRecords(data) + blobs)
  }

  /** A record's two-byte header reads back as the blob's length. */
  lemma HeaderReadsLength(blob: seq<uint8>, after: seq<uint8>)
    requires StorableBlob(blob)
    ensures FromBytesBig(Slice(Record(blob) + after, 0, 2)) == |blob|
    ensures Slice(Record(blob) + after, 2, 2 + |blob|) == blob
    ensures (Record(blob) + after)[2 + |blob|..] == after
  {
    var data := Record(blob) + after;
    var header := Slice(data, 0, 2);
    assert header == [data[0], data[1]];
    assert header[..1] == [data[0]] && [data[0]][..0] == [];
    assert FromBytesBig(header[..1]) == data[0];
    assert data[0] == |blob| / 0x100 && data[1] == |blob| % 0x100;
    assert Slice(data, 2, 2 + |blob|) == blob;
  }

  /** Zero padding reads as a zero length: the parser stops. */
  lemma ParseZeros(n: nat)
    ensures ParseRecords(Zeros(n)) == []
  {
    if n == 1 {
      assert Slice(Zeros(n), 0, 2) == [0];
      assert [0][..0] == [];
    } else if n >= 2 {
      assert Slice(Zeros(n), 0, 2) == [0, 0];
      assert [0, 0][..1] == [0] && [0][..0] == [];
    }
  }

  /** The parser reads back every record of a datagram and stops in the
      zero padding. */
  lemma {:induction false} ParseDatagram(group: seq<seq<uint8>>, padding: nat)
    requires AllStorable(group)
    ensures ParseRecords(Records(group) + Zeros(padding)) == group
    decreases |group|
  {
    var data := Records(group) + Zeros(padding);
    if |group| == 0 {
      assert data == Zeros(padding);
      ParseZeros(padding);
    } else {
      var blob := group[0];
      var after := Records(group[1..]) + Zeros(padding);
      assert data == Record(blob) + after;
      HeaderReadsLength(blob, after);
      assert Min(2 + |blob|, |data|) == 2 + |blob|;
      ParseDatagram(group[1..], padding);
      assert AllStorable(group[1..]) by {
        assert forall i :: 0 <= i < |group| - 1 ==> group[1..][i] == group[i + 1];
      }
    }
  }

  /** A run of full datagrams followed by the terminator reads back as the
      blobs of all groups, in order. */
  lemma {:induction false} ReceiveDatagrams(groups: seq<seq<seq<uint8>>>)
    requires forall i :: 0 <= i < |groups| ==> |Records(groups[i])| <= BufferSize && AllStorable(groups[i])
    ensures Receive(Datagrams(groups) + [Terminator]) == Some(Concat(groups))
    decreases |groups|
  {
    var datagrams := Datagrams(groups) + [Terminator];
    if |groups| == 0 {
      assert datagrams == [Terminator];
    } else {
      var first := Datagram(groups[0]);
      assert datagrams[0] == first;
      assert first[..Min(|first|, BufferSize)] == first;
      assert first != Terminator by {
        assert |first| != |Terminator|;
      }
      ParseDatagram(groups[0], BufferSize - |Records(groups[0])|);
      assert datagrams[1..] == Datagrams(groups[1..]) + [Terminator];
      ReceiveDatagrams(groups[1..]);
    }
  }

  /** What a Query sends, read back by the client, is exactly the blobs the
      server iterated over, in that order. */
  lemma QueryRoundTrip(blobs: seq<seq<uint8>>)
    requires AllStorable(blobs)
    ensures Receive(Response(blobs)) == Some(blobs)
  {
    var groups := Groups(blobs);
    assert Concat(groups) == blobs by {
      GroupsKeepOrder(blobs, []);
      assert [] + blobs == blobs;
    }
    forall i | 0 <= i < |groups|
      ensures AllStorable(groups[i])
    {
      ConcatStorable(groups, i);
    }
    ReceiveDatagrams(groups);
  }

  /** Every group's blobs are among the concatenation's. */
  lemma {:induction false} ConcatStorable(groups: seq<seq<seq<uint8>>>, i: nat)
    requires i < |groups|
    requires AllStorable(Concat(groups))
    ensures AllStorable(groups[i])
    decreases i
  {
    assert Concat(groups) == groups[0] + Concat(groups[1..]);
    if i == 0 {
      assert forall j :: 0 <= j < |groups[0]| ==> groups[0][j] == Concat(groups)[j];
    } else {
      assert forall j :: 0 <= j < |Concat(groups[1..])| ==>
        Concat(groups[1..])[j] == Concat(groups)[|groups[0]| + j];
      ConcatStorable(groups[1..], i - 1);
    }
  }

  /** The server stores what the client sends exactly when the blob is
      between 1 and 2044 bytes long; it is then stored byte for byte. */
  lemma RegisterRequestRoundTrip(data: seq<uint8>, from: Net.SocketAddr, clients: Clients, now: nat)
    requires |data| < 0x1_0000
    ensures StorableBlob(data) ==>
      ProcessAdd(ReceiveBuffer(RegisterRequest(data)), from, clients, now) == clients[from := Entry(data, now)]
    ensures !StorableBlob(data) ==>
      ProcessAdd(ReceiveBuffer(RegisterRequest(data)), from, clients, now) == clients
  {
    var request := RegisterRequest(data);
    var buf := ReceiveBuffer(request);
    assert buf[1] == HighByte(|data|) && buf[2] == LowByte(|data|);
    assert DeclaredLength(buf) == |data|;
    if StorableBlob(data) {
      assert buf[3..3 + |data|] == data by {
        assert forall i :: 0 <= i < |data| ==> buf[3 + i] == request[3 + i] == data[i];
      }
    }
  }
}
