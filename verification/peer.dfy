/** The fixed-width peer descriptor record: `Peer::pack`, `Peer::unpack`
    and the setters that keep a peer encodable. */
module PeerCodec {
  import opened Wrappers
  import opened Bytes
  import opened Net
  import Utf8

  const NicknameLen: nat := 200
  const AddressLen: nat := 6
  /** 200 + 2 * 6 + 1 = 213 bytes. */
  const PackedLen: nat := NicknameLen + AddressLen * 2 + 1

  /** Why a peer could not be packed, unpacked or changed. `NicknameTooLong`
      and `Ipv6Unsupported` from `Pack` stand for the panics of `Peer::pack`
      (an underflowing padding length, an explicit `panic!`). */
  datatype PeerError =
    | SizeMismatch          // "Packed Peer size must be 213 bytes"
    | InvalidNickname       // the nickname region is not UTF-8
    | AddressSizeMismatch   // "Packed address size must be 6 bytes"
    | NicknameTooLong
    | Ipv6Unsupported

  /** A peer; `nickname` holds the UTF-8 bytes of a Rust `String`. */
  datatype Peer = Peer(nickname: seq<uint8>, address: SocketAddr, turnUse: bool, turnServer: SocketAddr)

  /** What every peer built by `New` or `Unpack` satisfies, and every peer
      `SetNickname` builds from a well-formed peer and a nickname that is
      valid UTF-8, as a Rust `String` always is. */
  predicate Wellformed(p: Peer) {
    |p.nickname| <= NicknameLen && Utf8.IsValid(p.nickname)
  }

  /** The peers the round trip holds for. */
  predicate Encodable(p: Peer) {
    && Wellformed(p)
    && 0 !in p.nickname
    && p.address.ip.V4?
    && p.turnServer.ip.V4?
  }

  /** `bytes` is the six-byte wire form of `a`: the IPv4 octets, then the port
      big-endian. */
  predicate EncodesAddress(bytes: seq<uint8>, a: SocketAddr) {
    && |bytes| == AddressLen
    && a.ip.V4?
    && bytes[..4] == a.ip.v4.Octets()
    && (bytes[4] as int) * 0x100 + bytes[5] as int == a.port
  }

  /** The empty nickname, "0.0.0.0:0" twice and no TURN server. */
  function New(): (p: Peer)
    ensures p.nickname == [] && p.address == Unspecified && p.turnServer == Unspecified
    ensures Encodable(p)
    ensures !p.turnUse
  {
    Peer([], Unspecified, false, Unspecified)
  }

  function PackAddress(a: SocketAddr): (r: Result<seq<uint8>, PeerError>)
    ensures r.Success? <==> a.ip.V4?
    ensures r.Success? ==> EncodesAddress(r.value, a)
    ensures r.Failure? ==> r.error == Ipv6Unsupported
  {
    match a.ip
    case V4(ip) => Success(ip.Octets() + [HighByte(a.port), LowByte(a.port)])
    case V6(_) => Failure(Ipv6Unsupported)
  }

  /** The 213-byte record of `p`: the nickname zero-padded to 200 bytes, the
      address, the TURN flag as 1 or 0, and the TURN server, which is written
      whatever the flag says. */
  function Pack(p: Peer): (r: Result<seq<uint8>, PeerError>)
    ensures r.Success? <==> |p.nickname| <= NicknameLen && p.address.ip.V4? && p.turnServer.ip.V4?
    ensures |p.nickname| > NicknameLen ==> r == Failure(NicknameTooLong)
    ensures r.Failure? && |p.nickname| <= NicknameLen ==> r == Failure(Ipv6Unsupported)
    ensures r.Success? ==> |r.value| == PackedLen
    ensures r.Success? ==> r.value[..NicknameLen] == p.nickname + Zeros(NicknameLen - |p.nickname|)
    ensures r.Success? ==> EncodesAddress(r.value[NicknameLen..NicknameLen + AddressLen], p.address)
    ensures r.Success? ==> r.value[NicknameLen + AddressLen] == if p.turnUse then 1 else 0
    ensures r.Success? ==> EncodesAddress(r.value[NicknameLen + AddressLen + 1..], p.turnServer)
  {
    if |p.nickname| > NicknameLen then Failure(NicknameTooLong)
    else
      var nickname := p.nickname + Zeros(NicknameLen - |p.nickname|);
      var address :- PackAddress(p.address);
      var turnServer :- PackAddress(p.turnServer);
      var packed := nickname + address + [if p.turnUse then 1 else 0] + turnServer;
      assert packed[..NicknameLen] == nickname;
      assert packed[NicknameLen..NicknameLen + AddressLen] == address;
      assert packed[NicknameLen + AddressLen + 1..] == turnServer;
      Success(packed)
  }

  function UnpackAddress(packed: seq<uint8>): (r: Result<SocketAddr, PeerError>)
    ensures r.Success? <==> |packed| == AddressLen
    ensures r.Success? ==> EncodesAddress(packed, r.value)
    ensures r.Failure? ==> r.error == AddressSizeMismatch
  {
    if |packed| != AddressLen then Failure(AddressSizeMismatch)
    else
      var ip := Ipv4Addr(packed[0], packed[1], packed[2], packed[3]);
      assert packed[..4] == ip.Octets();
      Success(SocketAddr(V4(ip), JoinBytes(packed[4], packed[5])))
  }

  /** Rebuilds a peer from its record. Fails exactly when the record is not
      213 bytes long or its nickname region is not UTF-8; the address-size
      check can never fire. Every NUL byte of the nickname region is
      dropped, not only the trailing padding. */
  function Unpack(raw: seq<uint8>): (r: Result<Peer, PeerError>)
    ensures r.Failure? <==> |raw| != PackedLen || !Utf8.IsValid(raw[..NicknameLen])
    ensures |raw| != PackedLen ==> r == Failure(SizeMismatch)
    ensures r.Failure? && |raw| == PackedLen ==> r == Failure(InvalidNickname)
    ensures r.Success? ==> r.value.nickname == Utf8.RemoveNul(raw[..NicknameLen])
    ensures r.Success? ==> EncodesAddress(raw[NicknameLen..NicknameLen + AddressLen], r.value.address)
    ensures r.Success? ==> r.value.turnUse == (raw[NicknameLen + AddressLen] != 0)
    ensures r.Success? ==> EncodesAddress(raw[NicknameLen + AddressLen + 1..], r.value.turnServer)
  {
    if |raw| != PackedLen then Failure(SizeMismatch)
    else
      match Utf8.IsValid(raw[..NicknameLen])
      case false => Failure(InvalidNickname)
      case true =>
        var nickname := Utf8.RemoveNul(raw[..NicknameLen]);
        var offset := NicknameLen + AddressLen;
        match UnpackAddress(raw[NicknameLen..offset])
        case Failure(e) => Failure(e)
        case Success(address) =>
          var turnUse := raw[offset] != 0;
          match UnpackAddress(raw[offset + 1..])
          case Failure(e) => Failure(e)
          case Success(turnServer) => Success(Peer(nickname, address, turnUse, turnServer))
  }

  /** Accepts a nickname of at most 200 bytes; a longer one is refused and
      the peer is left as it was. */
  function SetNickname(p: Peer, nickname: seq<uint8>): (r: (Peer, Outcome<PeerError>))
    ensures r.1.Fail? <==> |nickname| > NicknameLen
    ensures r.1.Fail? ==> r.1.error == NicknameTooLong && r.0 == p
    ensures r.1.Pass? ==> r.0.nickname == nickname
    ensures r.0.address == p.address && r.0.turnUse == p.turnUse && r.0.turnServer == p.turnServer
  {
    if |nickname| > NicknameLen then (p, Fail(NicknameTooLong))
    else (p.(nickname := nickname), Pass)
  }

  function SetAddress(p: Peer, address: SocketAddr): Peer {
    p.(address := address)
  }

  function SetTurnServer(p: Peer, turnServer: SocketAddr): Peer {
    p.(turnUse := true, turnServer := turnServer)
  }

  /** Clears the flag only: the old TURN server stays in the peer. */
  function DisableTurnServer(p: Peer): Peer {
    p.(turnUse := false)
  }

  /** The six-byte address layout has one reading: decoding inverts encoding
      and nothing else. */
  lemma AddressRoundTrip(bytes: seq<uint8>, a: SocketAddr)
    ensures UnpackAddress(bytes) == Success(a) <==> EncodesAddress(bytes, a)
  {
    if EncodesAddress(bytes, a) {
      var ip := a.ip.v4;
      assert bytes[0] == ip.a && bytes[1] == ip.b && bytes[2] == ip.c && bytes[3] == ip.d by {
        assert bytes[..4][0] == bytes[0] && bytes[..4][1] == bytes[1];
        assert bytes[..4][2] == bytes[2] && bytes[..4][3] == bytes[3];
      }
    }
  }

  /** Unpacking a packed peer gives the same peer back, field by field. */
  lemma RoundTrip(p: Peer)
    requires Encodable(p)
    ensures Pack(p).Success?
    ensures Unpack(Pack(p).value) == Success(p)
  {
    PackUnpack(p);
    assert p.(nickname := Utf8.RemoveNul(p.nickname)) == p;
  }

  /** For any peer that packs, unpacking its record gives the same peer
      except that the nickname has lost its NUL characters. */
  lemma PackUnpack(p: Peer)
    requires Wellformed(p) && p.address.ip.V4? && p.turnServer.ip.V4?
    ensures Pack(p).Success?
    ensures Unpack(Pack(p).value) == Success(p.(nickname := Utf8.RemoveNul(p.nickname)))
  {
    var raw := Pack(p).value;
    var pad := NicknameLen - |p.nickname|;
    Utf8.PaddedValid(p.nickname, pad);
    Utf8.RemoveNulConcat(p.nickname, Zeros(pad));
    Utf8.RemoveNulZeros(pad);
    assert Utf8.RemoveNul(p.nickname + Zeros(pad)) == Utf8.RemoveNul(p.nickname);
    AddressRoundTrip(raw[NicknameLen..NicknameLen + AddressLen], p.address);
    AddressRoundTrip(raw[NicknameLen + AddressLen + 1..], p.turnServer);
    var q := Unpack(raw).value;
    AddressRoundTrip(raw[NicknameLen..NicknameLen + AddressLen], q.address);
    AddressRoundTrip(raw[NicknameLen + AddressLen + 1..], q.turnServer);
  }

  /** Whatever record unpacks, the peer it gives is encodable. */
  lemma UnpackEncodable(raw: seq<uint8>)
    requires Unpack(raw).Success?
    ensures Encodable(Unpack(raw).value)
  {
    Utf8.RemoveNulValid(raw[..NicknameLen]);
  }

  /** Unpacking normalises: packing an unpacked peer and unpacking again
      gives the same peer, although the bytes may differ (NULs inside the
      nickname, a flag byte other than 0 or 1). */
  lemma UnpackPackUnpack(raw: seq<uint8>)
    requires Unpack(raw).Success?
    ensures Pack(Unpack(raw).value).Success?
    ensures Unpack(Pack(Unpack(raw).value).value) == Unpack(raw)
  {
    UnpackEncodable(raw);
    RoundTrip(Unpack(raw).value);
  }

  /** The round trip needs a nickname without NUL: `SetNickname` accepts
      "a\0b", yet unpacking its record gives back "ab". */
  lemma EmbeddedNulLost()
    ensures SetNickname(New(), [0x61, 0x00, 0x62]).1 == Pass
    ensures Pack(SetNickname(New(), [0x61, 0x00, 0x62]).0).Success?
    ensures Unpack(Pack(SetNickname(New(), [0x61, 0x00, 0x62]).0).value)
      == Success(SetNickname(New(), [0x61, 0x62]).0)
  {
    var name: seq<uint8> := [0x61, 0x00, 0x62];
    AsciiValid(name);
    assert Utf8.RemoveNul(name) == [0x61, 0x62];
    PackUnpack(SetNickname(New(), name).0);
  }

  /** `SetNickname` keeps the 200-byte invariant `New` sets up, and a
      nickname of exactly 200 bytes is accepted and survives a round trip. */
  lemma SetNicknameKeepsEncodable(p: Peer, nickname: seq<uint8>)
    requires Encodable(p)
    requires Utf8.IsValid(nickname) && 0 !in nickname
    ensures Encodable(SetNickname(p, nickname).0)
    ensures |nickname| == NicknameLen ==> SetNickname(p, nickname).1 == Pass
    ensures Unpack(Pack(SetNickname(p, nickname).0).value) == Success(SetNickname(p, nickname).0)
  {
    RoundTrip(SetNickname(p, nickname).0);
  }

  /** `SetTurnServer` turns the flag on and takes the new server;
      `DisableTurnServer` turns the flag off, yet the old server is still
      written to bytes 207..213 and comes back from `Unpack`. */
  lemma TurnServerToggle(p: Peer, server: SocketAddr)
    requires Encodable(p) && server.ip.V4?
    ensures Unpack(Pack(SetTurnServer(p, server)).value) == Success(p.(turnUse := true, turnServer := server))
    ensures Pack(DisableTurnServer(p)).value[NicknameLen + AddressLen] == 0
    ensures Pack(DisableTurnServer(p)).value[NicknameLen + AddressLen + 1..] == Pack(p).value[NicknameLen + AddressLen + 1..]
    ensures Unpack(Pack(DisableTurnServer(p)).value).value.turnServer == p.turnServer
  {
    RoundTrip(SetTurnServer(p, server));
    RoundTrip(DisableTurnServer(p));
    RoundTrip(p);
    var a := Pack(DisableTurnServer(p)).value[NicknameLen + AddressLen + 1..];
    var b := Pack(p).value[NicknameLen + AddressLen + 1..];
    AddressRoundTrip(a, p.turnServer);
    AddressRoundTrip(b, p.turnServer);
  }

  /** The round trip of the repository's own unit test: nickname "username",
      address 95.27.168.74:33124, TURN server 102.77.198.34:34123. */
  lemma UsernameExample()
    ensures SetNickname(New(), Username()).1 == Pass
    ensures Unpack(Pack(ExamplePeer()).value) == Success(ExamplePeer())
  {
    ExampleEncodable();
    RoundTrip(ExamplePeer());
  }

  lemma ExampleEncodable()
    ensures SetNickname(New(), Username()).1 == Pass
    ensures Encodable(ExamplePeer())
  {
    UsernameText();
  }

  lemma UsernameText()
    ensures |Username()| == 8 && 0 !in Username() && Utf8.IsValid(Username())
  {
    var name := Username();
    assert forall i :: 0 <= i < |name| ==> 0 < name[i] <= 0x7F;
    AsciiValid(name);
  }

  /** The peer the unit test builds with `new`, `set_nickname`,
      `set_address` and `set_turn_server`. */
  function ExamplePeer(): Peer {
    var named := SetNickname(New(), Username()).0;
    var addressed := SetAddress(named, SocketAddr(V4(Ipv4Addr(95, 27, 168, 74)), 33124));
    SetTurnServer(addressed, SocketAddr(V4(Ipv4Addr(102, 77, 198, 34)), 34123))
  }

  /** The bytes of "username". */
  function Username(): seq<uint8> {
    [0x75, 0x73, 0x65, 0x72, 0x6E, 0x61, 0x6D, 0x65]
  }

  /** Text made of ASCII characters is valid UTF-8. */
  lemma {:induction false} AsciiValid(s: seq<uint8>)
    requires forall i :: 0 <= i < |s| ==> s[i] <= 0x7F
    ensures Utf8.IsValid(s)
  {
    if |s| > 0 {
      AsciiValid(s[1..]);
    }
  }
}
