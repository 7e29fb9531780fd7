/** The VLESS request header and its journey from the outbound to the inbound. */
module VlessRequest {
  import opened Wrappers
  import opened Bytes
  import Utf8
  import opened Base64Url
  import opened WebSocketReader
  import opened WebSocketStreams
  import opened WebSocketEndToEnd

  const VLESS_VERSION: byte := 0
  const VLESS_COMMAND_TCP: byte := 1

  /** A destination host: an address, as the standard library's parser reads its text, or a name. */
  datatype Host = V4(octets: seq<byte>) | V6(octets: seq<byte>) | Name(text: string) {
    predicate Valid() {
      match this
      case V4(octets) => |octets| == 4
      case V6(octets) => |octets| == 16
      case Name(text) => text != ""
    }
  }

  datatype Address = Address(host: Host, port: nat) {
    predicate Valid() {
      host.Valid() && port < 65536
    }
  }

  datatype RequestError =
    | Truncated
    | UnsupportedVersion
    | UnknownUser
    | UnsupportedCommand
    | UnsupportedAddressType
    | NotUtf8
    | EmptyHost
    | DomainTooLong

  method EncodeVlessRequest(uuid: seq<byte>, destination: Address) returns (r: Result<seq<byte>, RequestError>)
    requires |uuid| == 16 && destination.Valid()
    ensures r.Err? <==> destination.host.Name? && |Utf8.Encode(destination.host.text)| > 255
    ensures r.Ok? ==> r.value == RequestBytes(uuid, destination)
  {
    var output: seq<byte> := [VLESS_VERSION];
    output := output + uuid;
    output := output + [0];
    output := output + [VLESS_COMMAND_TCP];
    output := output + ToBe(destination.port, 2);
    match destination.host {
      case V4(octets) =>
        output := output + [1];
        output := output + octets;
      case V6(octets) =>
        output := output + [3];
        output := output + octets;
      case Name(text) =>
        var name := Utf8.Encode(text);
        if |name| > 255 {
          return Err(DomainTooLong);
        }
        output := output + [2];
        output := output + [|name|];
        output := output + name;
    }
    assert output == [VLESS_VERSION] + uuid + [0, VLESS_COMMAND_TCP] + ToBe(destination.port, 2) + HostBytes(destination.host);
    return Ok(output);
  }

  predicate Encodable(host: Host) {
    host.Valid() && (host.Name? ==> |Utf8.Encode(host.text)| <= 255)
  }

  function HostBytes(host: Host): seq<byte>
    requires Encodable(host)
  {
    match host
    case V4(octets) => [1] + octets
    case V6(octets) => [3] + octets
    case Name(text) => [2, |Utf8.Encode(text)|] + Utf8.Encode(text)
  }

  function RequestBytes(uuid: seq<byte>, destination: Address): seq<byte>
    requires |uuid| == 16 && Encodable(destination.host)
  {
    [VLESS_VERSION] + uuid + [0, VLESS_COMMAND_TCP] + ToBe(destination.port, 2) + HostBytes(destination.host)
  }

  datatype Request = Request(destination: Address, user: string, rest: seq<byte>)

  /** `read_vless_request`, with what the stream still holds afterwards. */
  function ReadVlessRequest(s: seq<byte>, users: map<seq<byte>, string>): Result<Request, RequestError> {
    if |s| < 1 then Err(Truncated)
    else if s[0] != VLESS_VERSION then Err(UnsupportedVersion)
    else if |s| < 17 then Err(Truncated)
    else if s[1..17] !in users then Err(UnknownUser)
    else if |s| < 18 || |s| - 18 < s[17] then Err(Truncated)
    else
      var tail := s[18 + s[17]..];
      if |tail| < 1 then Err(Truncated)
      else if tail[0] != VLESS_COMMAND_TCP then Err(UnsupportedCommand)
      else if |tail| < 4 then Err(Truncated)
      else
        var port := FromBe(tail[1..3]);
        var host := ReadHost(tail[3], tail[4..]);
        if host.Err? then Err(host.error)
        else Ok(Request(Address(host.value.0, port), users[s[1..17]], host.value.1))
  }

  function ReadHost(kind: byte, s: seq<byte>): Result<(Host, seq<byte>), RequestError> {
    match kind
    case 1 => if |s| < 4 then Err(Truncated) else Ok((V4(s[..4]), s[4..]))
    case 2 =>
      if |s| < 1 || |s| - 1 < s[0] then Err(Truncated)
      else
        var text := Utf8.Decode(s[1..1 + s[0]]);
        if text.None? then Err(NotUtf8)
        else if text.value == "" then Err(EmptyHost)
        else Ok((Name(text.value), s[1 + s[0]..]))
    case 3 => if |s| < 16 then Err(Truncated) else Ok((V6(s[..16]), s[16..]))
    case _ => Err(UnsupportedAddressType)
  }

  lemma NameBack(text: string, rest: seq<byte>)
    requires text != "" && |Utf8.Encode(text)| <= 255
    ensures ReadHost(2, [|Utf8.Encode(text)|] + Utf8.Encode(text) + rest) == Ok((Name(text), rest))
  {
    Utf8.DecodeEncode(text);
    hide Utf8.Encode, Utf8.Decode, Utf8.DecodeChar;
    var name := Utf8.Encode(text);
    var s := [|name|] + name + rest;
    assert s[1..1 + |name|] == name && s[1 + |name|..] == rest;
  }

  lemma ReadHostBytes(host: Host, rest: seq<byte>)
    requires Encodable(host)
    ensures var s := HostBytes(host) + rest;
            |s| > 0 && ReadHost(s[0], s[1..]) == Ok((host, rest))
  {
    hide Utf8.Encode, ReadHost;
    match host
    case V4(octets) =>
      Kinded(1, octets, rest);
      OctetsBack(octets, rest);
    case V6(octets) =>
      Kinded(3, octets, rest);
      OctetsBack(octets, rest);
    case Name(text) =>
      var body := [|Utf8.Encode(text)|] + Utf8.Encode(text);
      assert HostBytes(host) == [2] + body;
      Kinded(2, body, rest);
      NameBack(text, rest);
  }

  lemma Kinded(kind: byte, body: seq<byte>, rest: seq<byte>)
    ensures var s := [kind] + body + rest; s[0] == kind && s[1..] == body + rest
  {
  }

  lemma OctetsBack(octets: seq<byte>, rest: seq<byte>)
    ensures |octets| == 4 ==> ReadHost(1, octets + rest) == Ok((V4(octets), rest))
    ensures |octets| == 16 ==> ReadHost(3, octets + rest) == Ok((V6(octets), rest))
  {
    hide Utf8.Decode;
    assert (octets + rest)[..|octets|] == octets && (octets + rest)[|octets|..] == rest;
  }

  // ---- What the inbound accepts and what it refuses ----

  /** The bytes of a client: version, user, addons of any length and content, and the request behind them. */
  ghost predicate Asks(s: seq<byte>, uuid: seq<byte>, addons: seq<byte>, request: seq<byte>) {
    |uuid| == 16 && |addons| < 256 && s == [0] + uuid + [|addons|] + addons + request
  }

  ghost predicate Whole(s: seq<byte>) {
    |s| >= 18 && s[0] == VLESS_VERSION && |s| - 18 >= s[17]
  }

  /** There is one way at most to see the bytes as a client's. */
  lemma AsksPieces(s: seq<byte>, uuid: seq<byte>, addons: seq<byte>, request: seq<byte>)
    ensures Asks(s, uuid, addons, request) <==>
      Whole(s) && uuid == s[1..17] && addons == s[18..18 + s[17]] && request == s[18 + s[17]..]
  {
    if Asks(s, uuid, addons, request) {
      assert s[17] == |addons|;
      assert s[1..17] == uuid;
      assert s[18..18 + |addons|] == addons;
      assert s[18 + |addons|..] == request;
    }
    if Whole(s) {
      assert s == [s[0]] + s[1..17] + [s[17]] + s[18..18 + s[17]] + s[18 + s[17]..];
    }
  }

  /** The bytes from the command on: 1 for TCP, port and host. */
  function CommandBytes(destination: Address): seq<byte>
    requires Encodable(destination.host)
  {
    [1] + ToBe(destination.port, 2) + HostBytes(destination.host)
  }

  lemma CommandPieces(destination: Address, rest: seq<byte>)
    requires destination.Valid() && Encodable(destination.host)
    ensures var tail := CommandBytes(destination) + rest;
            |tail| >= 4 && tail[0] == VLESS_COMMAND_TCP && FromBe(tail[1..3]) == destination.port
            && ReadHost(tail[3], tail[4..]) == Ok((destination.host, rest))
  {
    hide ReadHost, HostBytes;
    var port, host := ToBe(destination.port, 2), HostBytes(destination.host);
    ReadHostBytes(destination.host, rest);
    FromBeToBe(destination.port, 2);
    assert Span(2) == 65536;
    var tail := CommandBytes(destination) + rest;
    assert tail == [VLESS_COMMAND_TCP] + port + (host + rest);
    assert tail[1..3] == port && tail[3..] == host + rest && tail[4..] == (host + rest)[1..];
  }

  /** A host the reader finds is the one the bytes before the rest are written for. */
  lemma HostRead(kind: byte, s: seq<byte>)
    requires ReadHost(kind, s).Ok?
    ensures var (host, rest) := ReadHost(kind, s).value;
            Encodable(host) && [kind] + s == HostBytes(host) + rest
  {
    hide Utf8.Encode, Utf8.Decode;
    match kind
    case 1 => assert s == s[..4] + s[4..];
    case 3 => assert s == s[..16] + s[16..];
    case 2 =>
      var name := s[1..1 + s[0]];
      Utf8.EncodeDecode(name);
      EmptyText();
      assert s == [s[0]] + name + s[1 + s[0]..];
    case _ =>
  }

  lemma EmptyText()
    ensures Utf8.Encode("") == [] && Utf8.Decode([]) == Some("")
  {
  }

  lemma CommandRead(tail: seq<byte>)
    requires |tail| >= 4 && tail[0] == VLESS_COMMAND_TCP && ReadHost(tail[3], tail[4..]).Ok?
    ensures var (host, rest) := ReadHost(tail[3], tail[4..]).value;
            var destination := Address(host, FromBe(tail[1..3]));
            destination.Valid() && Encodable(host) && tail == CommandBytes(destination) + rest
  {
    HostRead(tail[3], tail[4..]);
    hide ReadHost, HostBytes;
    var port := tail[1..3];
    FromBeRange(port);
    ToBeFromBe(port);
    assert Span(2) == 65536;
    var (host, rest) := ReadHost(tail[3], tail[4..]).value;
    assert tail == [tail[0]] + port + ([tail[3]] + tail[4..]);
    assert CommandBytes(Address(host, FromBe(port))) + rest == [VLESS_COMMAND_TCP] + port + (HostBytes(host) + rest);
  }

  /** The inbound accepts exactly what a known user asks, whatever the addons, and leaves the rest alone. */
  lemma ReadAccepts(s: seq<byte>, users: map<seq<byte>, string>, request: Request)
    ensures ReadVlessRequest(s, users) == Ok(request) <==>
      && request.destination.Valid() && Encodable(request.destination.host)
      && var bytes := CommandBytes(request.destination) + request.rest;
         exists uuid, addons :: Asks(s, uuid, addons, bytes) && uuid in users && users[uuid] == request.user
  {
    hide ReadHost, Encodable, CommandBytes, Asks;
    if ReadVlessRequest(s, users) == Ok(request) {
      var tail := s[18 + s[17]..];
      CommandRead(tail);
      AsksPieces(s, s[1..17], s[18..18 + s[17]], tail);
    }
    if request.destination.Valid() && Encodable(request.destination.host) {
      var bytes := CommandBytes(request.destination) + request.rest;
      CommandPieces(request.destination, request.rest);
      if uuid, addons :| Asks(s, uuid, addons, bytes) && uuid in users && users[uuid] == request.user {
        AsksPieces(s, uuid, addons, bytes);
      }
    }
  }

  /** The inbound reads the destination and the user the outbound wrote, and nothing more. */
  lemma ReadEncoded(uuid: seq<byte>, destination: Address, users: map<seq<byte>, string>, rest: seq<byte>)
    requires |uuid| == 16 && destination.Valid() && Encodable(destination.host) && uuid in users
    ensures ReadVlessRequest(RequestBytes(uuid, destination) + rest, users) == Ok(Request(destination, users[uuid], rest))
  {
    hide ReadVlessRequest, HostBytes, ToBe, Encodable;
    var s, tail := RequestBytes(uuid, destination) + rest, CommandBytes(destination) + rest;
    assert s == [VLESS_VERSION] + uuid + [0] + [] + tail;
    assert Asks(s, uuid, [], tail);
    ReadAccepts(s, users, Request(destination, users[uuid], rest));
  }

  /** A known user's bytes, with the request behind any addons. */
  ghost predicate Sends(s: seq<byte>, request: seq<byte>, users: map<seq<byte>, string>) {
    exists uuid, addons :: Asks(s, uuid, addons, request) && uuid in users
  }

  lemma SendsPieces(s: seq<byte>, request: seq<byte>, users: map<seq<byte>, string>)
    ensures Sends(s, request, users) <==> Whole(s) && s[1..17] in users && request == s[18 + s[17]..]
  {
    hide Asks;
    if uuid, addons :| Asks(s, uuid, addons, request) && uuid in users {
      AsksPieces(s, uuid, addons, request);
    }
    if Whole(s) {
      AsksPieces(s, s[1..17], s[18..18 + s[17]], s[18 + s[17]..]);
    }
  }

  /** Why a host is not read. */
  lemma HostErrors(kind: byte, s: seq<byte>)
    ensures ReadHost(kind, s) == Err(UnsupportedAddressType) <==> kind != 1 && kind != 2 && kind != 3
    ensures ReadHost(kind, s) == Err(NotUtf8) <==>
      kind == 2 && s != [] && |s| - 1 >= s[0] && !Utf8.Valid(s[1..1 + s[0]])
    ensures ReadHost(kind, s) == Err(EmptyHost) <==> kind == 2 && s != [] && s[0] == 0
    ensures ReadHost(kind, s).Err? ==>
      ReadHost(kind, s).error in {Truncated, UnsupportedAddressType, NotUtf8, EmptyHost}
  {
    hide Utf8.Encode, Utf8.Decode;
    EmptyText();
    if kind == 2 && s != [] && |s| - 1 >= s[0] {
      var name := s[1..1 + s[0]];
      assert s[0] == 0 ==> name == [];
      if Utf8.Decode(name).Some? {
        Utf8.EncodeDecode(name);
      }
    }
  }

  /** The inbound refuses another version, an unknown user, and another command than the one for TCP. */
  lemma HeaderRefused(s: seq<byte>, users: map<seq<byte>, string>)
    ensures ReadVlessRequest(s, users) == Err(UnsupportedVersion) <==> s != [] && s[0] != 0
    ensures ReadVlessRequest(s, users) == Err(UnknownUser) <==>
      |s| >= 17 && s[0] == 0 && s[1..17] !in users
    ensures ReadVlessRequest(s, users) == Err(UnsupportedCommand) <==>
      exists command, more :: Sends(s, [command] + more, users) && command != 1
  {
    hide Sends, ReadHost, Utf8.Valid;
    if Whole(s) {
      var tail := s[18 + s[17]..];
      if |tail| >= 4 {
        HostErrors(tail[3], tail[4..]);
      }
      if tail != [] {
        assert tail == [tail[0]] + tail[1..];
        SendsPieces(s, [tail[0]] + tail[1..], users);
      }
    }
    if command, more :| Sends(s, [command] + more, users) && command != VLESS_COMMAND_TCP {
      SendsPieces(s, [command] + more, users);
    }
  }

  /** The request is for TCP, and these bytes follow its port. */
  ghost predicate SendsHost(s: seq<byte>, host: seq<byte>, users: map<seq<byte>, string>) {
    exists port: seq<byte> | |port| == 2 :: Sends(s, [1] + port + host, users)
  }

  lemma SendsHostPieces(s: seq<byte>, host: seq<byte>, users: map<seq<byte>, string>)
    ensures SendsHost(s, host, users) <==>
      && Whole(s) && s[1..17] in users
      && var tail := s[18 + s[17]..]; |tail| >= 3 && tail[0] == VLESS_COMMAND_TCP && tail[3..] == host
  {
    hide Sends;
    if Whole(s) && |s[18 + s[17]..]| >= 3 {
      var tail := s[18 + s[17]..];
      assert tail == [tail[0]] + tail[1..3] + tail[3..];
      SendsPieces(s, tail, users);
    }
    if port: seq<byte> :| |port| == 2 && Sends(s, [1] + port + host, users) {
      var tail := [1] + port + host;
      SendsPieces(s, tail, users);
      assert tail[3..] == host;
    }
  }

  /** The host is looked at: its kind is there, and all before it is in order. */
  ghost predicate Reached(s: seq<byte>, users: map<seq<byte>, string>) {
    Whole(s) && s[1..17] in users && var tail := s[18 + s[17]..]; |tail| >= 4 && tail[0] == VLESS_COMMAND_TCP
  }

  /** Errors of the host are reported only once it is looked at. */
  lemma ReachedError(s: seq<byte>, users: map<seq<byte>, string>, e: RequestError)
    requires e in {UnsupportedAddressType, NotUtf8, EmptyHost}
    ensures ReadVlessRequest(s, users) == Err(e) <==>
      Reached(s, users) && var tail := s[18 + s[17]..]; ReadHost(tail[3], tail[4..]) == Err(e)
  {
    hide ReadHost;
  }

  lemma ReachedHost(s: seq<byte>, host: seq<byte>, users: map<seq<byte>, string>)
    requires host != []
    ensures SendsHost(s, host, users) <==>
      Reached(s, users) && var tail := s[18 + s[17]..]; tail[3] == host[0] && tail[4..] == host[1..]
  {
    hide SendsHost;
    SendsHostPieces(s, host, users);
    assert host == [host[0]] + host[1..];
    if Reached(s, users) {
      var tail := s[18 + s[17]..];
      assert tail[3..] == [tail[3]] + tail[4..];
    }
  }

  /** The inbound refuses an unknown kind of host; the two lemmas below add a name that is no text and an
      empty one. What it neither accepts nor refuses is an unfinished request. */
  lemma KindRefused(s: seq<byte>, users: map<seq<byte>, string>)
    ensures ReadVlessRequest(s, users) == Err(UnsupportedAddressType) <==>
      exists kind, more :: SendsHost(s, [kind] + more, users) && kind != 1 && kind != 2 && kind != 3
  {
    hide SendsHost, ReadHost, Reached, ReadVlessRequest;
    ReachedError(s, users, UnsupportedAddressType);
    if kind, more :| SendsHost(s, [kind] + more, users) && kind != 1 && kind != 2 && kind != 3 {
      ReachedHost(s, [kind] + more, users);
      assert ([kind] + more)[1..] == more;
      HostErrors(kind, more);
    }
    if ReadVlessRequest(s, users) == Err(UnsupportedAddressType) {
      var tail := TailOf(s, users);
      HostErrors(tail[3], tail[4..]);
      assert ([tail[3]] + tail[4..])[1..] == tail[4..];
      ReachedHost(s, [tail[3]] + tail[4..], users);
    }
  }

  ghost function TailOf(s: seq<byte>, users: map<seq<byte>, string>): (tail: seq<byte>)
    requires Reached(s, users)
    ensures Whole(s) && tail == s[18 + s[17]..] && |tail| >= 4
  {
    s[18 + s[17]..]
  }

  lemma NameRefused(s: seq<byte>, users: map<seq<byte>, string>)
    ensures ReadVlessRequest(s, users) == Err(NotUtf8) <==>
      exists length: byte, name, more ::
        SendsHost(s, [2, length] + name + more, users) && |name| == length && !Utf8.Valid(name)
  {
    hide SendsHost, ReadHost, Reached, ReadVlessRequest, Utf8.Valid;
    ReachedError(s, users, NotUtf8);
    if length: byte, name, more :| SendsHost(s, [2, length] + name + more, users) && |name| == length && !Utf8.Valid(name) {
      NamedHost(s, length, name, more, users);
    }
    if ReadVlessRequest(s, users) == Err(NotUtf8) {
      var tail := TailOf(s, users);
      var host := tail[4..];
      HostErrors(tail[3], host);
      var name, more := host[1..1 + host[0]], host[1 + host[0]..];
      NamedPieces(s, host, name, more, users);
      assert |name| == host[0] && !Utf8.Valid(name);
    }
  }

  lemma EmptyRefused(s: seq<byte>, users: map<seq<byte>, string>)
    ensures ReadVlessRequest(s, users) == Err(EmptyHost) <==> exists more :: SendsHost(s, [2, 0] + more, users)
  {
    hide SendsHost, ReadHost, Reached, ReadVlessRequest, Utf8.Valid;
    ReachedError(s, users, EmptyHost);
    if more :| SendsHost(s, [2, 0] + more, users) {
      assert [2, 0] + [] + more == [2, 0] + more;
      NamedHost(s, 0, [], more, users);
    }
    if ReadVlessRequest(s, users) == Err(EmptyHost) {
      var tail := TailOf(s, users);
      var host := tail[4..];
      HostErrors(tail[3], host);
      NamedPieces(s, host, host[1..1 + host[0]], host[1 + host[0]..], users);
    }
  }

  lemma NamedPieces(s: seq<byte>, host: seq<byte>, name: seq<byte>, more: seq<byte>, users: map<seq<byte>, string>)
    requires Reached(s, users) && TailOf(s, users)[3] == 2 && host == TailOf(s, users)[4..]
    requires host != [] && |host| - 1 >= host[0] && name == host[1..1 + host[0]] && more == host[1 + host[0]..]
    ensures SendsHost(s, [2, host[0]] + name + more, users)
    ensures host[0] == 0 ==> SendsHost(s, [2, 0] + more, users)
  {
    hide SendsHost, Reached;
    var all := [2, host[0]] + name + more;
    assert host == [host[0]] + name + more;
    assert all == [2] + ([host[0]] + name + more);
    assert all[1..] == host;
    ReachedHost(s, all, users);
    if host[0] == 0 {
      assert all == [2, 0] + more;
    }
  }

  lemma NamedHost(s: seq<byte>, length: byte, name: seq<byte>, more: seq<byte>, users: map<seq<byte>, string>)
    requires SendsHost(s, [2, length] + name + more, users) && |name| == length
    ensures Reached(s, users)
    ensures var tail := TailOf(s, users);
            && (!Utf8.Valid(name) ==> ReadHost(tail[3], tail[4..]) == Err(NotUtf8))
            && (length == 0 ==> ReadHost(tail[3], tail[4..]) == Err(EmptyHost))
  {
    hide SendsHost, ReadHost, Reached, Utf8.Valid;
    var all, host := [2, length] + name + more, [length] + name + more;
    assert all[1..] == host && host[1..1 + length] == name;
    ReachedHost(s, all, users);
    HostErrors(2, host);
  }

  /** The request arrives whether it travels in the HTTP header or as the first frame: in both cases
      the inbound's stream yields it followed by exactly the application data. */
  lemma RequestArrives(uuid: seq<byte>, destination: Address, users: map<seq<byte>, string>,
                       early: bool, writer: WebSocketStream, reader: WebSocketStream, application: seq<byte>)
    requires |uuid| == 16 && destination.Valid() && Encodable(destination.host) && uuid in users
    requires var request := RequestBytes(uuid, destination);
             if early then
               DecodeFrom(EncodeBase64Url(request), 0, 0) == Ok(reader.earlyData) && writer.accepted == application
             else
               DecodeFrom("", 0, 0) == Ok(reader.earlyData) && writer.accepted == request + application
    requires writer.Valid() && reader.Valid() && writer.clientSide && !reader.clientSide
    requires !writer.closeQueued && writer.pendingBytes == [] && writer.Unsent() == []
    requires writer.preamble + reader.received == writer.inner.sent
    requires reader.Explained(Pending)
    ensures ReadVlessRequest(reader.delivered, users) == Ok(Request(destination, users[uuid], application))
  {
    hide Run, ReadVlessRequest, DecodeFrom, EncodeBase64Url, RequestBytes;
    var request := RequestBytes(uuid, destination);
    CompleteDelivery(writer, reader);
    ReadEncoded(uuid, destination, users, application);
    if early {
      DecodeEncode(request);
    } else {
      NoEarlyData();
    }
    assert writer.accepted + [] == writer.accepted;
    assert reader.delivered == request + application;
  }

  lemma NoEarlyData()
    ensures DecodeFrom("", 0, 0) == Ok([])
  {
  }
}
