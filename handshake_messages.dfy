/** The connection-phase records exchanged before authentication completes.
    Each record is an ordered list of fields, each field with its codec; a
    record the client only receives has a decoder, one it only sends has an
    encoder. The opposite direction (what the server writes or reads) is
    given as a reference definition, and a round-trip lemma ties the two. */
module HandshakeMessages {
  import opened Errors
  import opened Bytes

  // ------------------------------------------------ Protocol::HandshakeV10

  /** The server's initial greeting, after its protocol-version byte. The
      auth plugin data and the capability flags are each sent in two parts
      and merged here. */
  datatype HandshakePacket = HandshakePacket(
    serverVersion: bytes,
    connectionId: uint32,
    authPluginData: bytes,
    capabilityFlags: uint32,
    characterSet: uint8,
    statusFlags: uint16,
    authPluginName: bytes)

  const AUTH1_LENGTH: nat := 8
  /** The capacity of the buffer holding the merged auth plugin data. */
  const MAX_AUTH_DATA: nat := 8 + 0xff

  /** Fields in wire order: server version (null-terminated), connection id
      (4), auth data part 1 (8), filler (1), capabilities low half (2),
      character set (1), status flags (2), capabilities high half (2), auth
      data length (1), reserved (10), auth data part 2 (at least 13 bytes,
      its last byte a terminator that is dropped), plugin name
      (null-terminated). */
  function DecodeHandshake(s: bytes): (r: Result<(HandshakePacket, bytes)>)
    ensures r.Err? ==> r.error == IncompleteMessage
    ensures r.Ok? ==> |r.value.0.authPluginData| <= MAX_AUTH_DATA
    ensures r.Ok? ==> 0 !in r.value.0.serverVersion && 0 !in r.value.0.authPluginName
  {
    var head :- DecodeGreetingHead(s);
    var flags :- DecodeGreetingFlags(head.1);
    var tail :- DecodeGreetingTail(flags.1, flags.0.authLength);
    Ok((MergeGreeting(head.0, flags.0, tail.0), tail.1))
  }

  /** The packet the three decoded parts make: the auth data parts are
      joined and the capability halves combined. */
  function MergeGreeting(head: (bytes, uint32, bytes), f: GreetingFlags, tail: (bytes, bytes)): (r: HandshakePacket)
    ensures r.authPluginData == head.2 + tail.0
    ensures r.capabilityFlags % 0x1_0000 == f.capsLow && r.capabilityFlags / 0x1_0000 == f.capsHigh
  {
    HandshakePacket(head.0, head.1, head.2 + tail.0,
      f.capsLow + 0x1_0000 * f.capsHigh, f.charset, f.status, tail.1)
  }

  /** Server version, connection id, auth data part 1 and the filler byte. */
  function DecodeGreetingHead(s: bytes): (r: Result<((bytes, uint32, bytes), bytes)>)
    ensures r.Err? ==> r.error == IncompleteMessage
    ensures r.Ok? ==> 0 !in r.value.0.0 && |r.value.0.2| == AUTH1_LENGTH
  {
    Pow256Values();
    var version :- ReadNull(s);
    var connectionId :- ReadInt(version.1, 4);
    var auth1 :- ReadFixed(connectionId.1, AUTH1_LENGTH);
    var filler :- ReadInt(auth1.1, 1);
    Ok(((version.0, connectionId.0, auth1.0), filler.1))
  }

  datatype GreetingFlags = GreetingFlags(capsLow: uint16, charset: uint8, status: uint16, capsHigh: uint16, authLength: uint8)

  /** The two capability halves with character set and status between them,
      the auth data length and the reserved bytes. */
  function DecodeGreetingFlags(s: bytes): (r: Result<(GreetingFlags, bytes)>)
    ensures r.Err? ==> r.error == IncompleteMessage
  {
    Pow256Values();
    var capsLow :- ReadInt(s, 2);
    var charset :- ReadInt(capsLow.1, 1);
    var status :- ReadInt(charset.1, 2);
    var capsHigh :- ReadInt(status.1, 2);
    var authLength :- ReadInt(capsHigh.1, 1);
    var reserved :- ReadFixed(authLength.1, 10);
    Ok((GreetingFlags(capsLow.0, charset.0, status.0, capsHigh.0, authLength.0), reserved.1))
  }

  /** Auth data part 2, whose length is the announced total less part 1 but
      at least 13, without its trailing terminator; then the plugin name. */
  function DecodeGreetingTail(s: bytes, authLength: uint8): (r: Result<((bytes, bytes), bytes)>)
    ensures r.Err? ==> r.error == IncompleteMessage
    ensures r.Ok? ==> |r.value.0.0| <= 0xff - AUTH1_LENGTH && 0 !in r.value.0.1
  {
    var auth2Length := if authLength - AUTH1_LENGTH > 13 then authLength - AUTH1_LENGTH else 13;
    var auth2 :- ReadFixed(s, auth2Length);
    var name :- ReadNull(auth2.1);
    Ok(((auth2.0[..auth2Length - 1], name.0), name.1))
  }

  /** What a server can send: names without a terminator inside them, and
      auth data long enough to fill the 13-byte minimum of its second part
      and short enough for its length to fit one byte. */
  predicate WellFormedHandshake(p: HandshakePacket) {
    0 !in p.serverVersion && 0 !in p.authPluginName
    && 20 <= |p.authPluginData| <= 254
  }

  function Zeros(n: nat): (r: bytes)
    ensures |r| == n && forall i :: 0 <= i < n ==> r[i] == 0
  {
    seq(n, _ => 0)
  }

  /** The server's side of the greeting (reference definition). */
  function EncodeHandshake(p: HandshakePacket): (r: bytes)
    requires WellFormedHandshake(p)
  {
    var data := p.authPluginData;
    EncodeGreetingHead(p.serverVersion, p.connectionId, data[..8])
      + (EncodeGreetingFlags(GreetingFlagsOf(p))
      + EncodeGreetingTail(data[8..], p.authPluginName))
  }

  function GreetingFlagsOf(p: HandshakePacket): GreetingFlags
    requires WellFormedHandshake(p)
  {
    GreetingFlags(p.capabilityFlags % 0x1_0000, p.characterSet, p.statusFlags,
      p.capabilityFlags / 0x1_0000, |p.authPluginData| + 1)
  }

  function EncodeGreetingHead(version: bytes, connectionId: uint32, auth1: bytes): bytes {
    Pow256Values();
    version + ([0] + (ToLE(connectionId, 4) + (auth1 + [0])))
  }

  function EncodeGreetingFlags(f: GreetingFlags): bytes {
    Pow256Values();
    ToLE(f.capsLow, 2) + ([f.charset] + (ToLE(f.status, 2)
      + (ToLE(f.capsHigh, 2) + ([f.authLength] + Zeros(10)))))
  }

  function EncodeGreetingTail(auth2: bytes, name: bytes): bytes {
    (auth2 + [0]) + (name + [0])
  }

  /** Decoding what a server sends gives back every field. */
  lemma HandshakeRoundTrip(p: HandshakePacket, rest: bytes)
    requires WellFormedHandshake(p)
    ensures DecodeHandshake(EncodeHandshake(p) + rest) == Ok((p, rest))
  {
    var data := p.authPluginData;
    var f := GreetingFlagsOf(p);
    var tail := EncodeGreetingTail(data[8..], p.authPluginName);
    HandshakeLayout(p, rest);
    GreetingHeadRoundTrip(p.serverVersion, p.connectionId, data[..8], EncodeGreetingFlags(f) + (tail + rest));
    GreetingFlagsRoundTrip(f, tail + rest);
    GreetingTailRoundTrip(data[8..], p.authPluginName, rest);
    DecodeHandshakeOfParts(EncodeHandshake(p) + rest, (p.serverVersion, p.connectionId, data[..8]),
      EncodeGreetingFlags(f) + (tail + rest), f, tail + rest, (data[8..], p.authPluginName), rest);
    GreetingFieldsMerge(p);
  }

  /** The greeting is its three parts in order. */
  lemma HandshakeLayout(p: HandshakePacket, rest: bytes)
    requires WellFormedHandshake(p)
    ensures var data := p.authPluginData;
      EncodeHandshake(p) + rest
        == EncodeGreetingHead(p.serverVersion, p.connectionId, data[..8])
          + (EncodeGreetingFlags(GreetingFlagsOf(p)) + (EncodeGreetingTail(data[8..], p.authPluginName) + rest))
  {
  }

  /** Decoding the greeting is decoding its three parts in turn. */
  lemma DecodeHandshakeOfParts(s: bytes, head: (bytes, uint32, bytes), s1: bytes, f: GreetingFlags,
                               s2: bytes, tail: (bytes, bytes), s3: bytes)
    requires DecodeGreetingHead(s) == Ok((head, s1))
    requires DecodeGreetingFlags(s1) == Ok((f, s2))
    requires DecodeGreetingTail(s2, f.authLength) == Ok((tail, s3))
    ensures DecodeHandshake(s) == Ok((MergeGreeting(head, f, tail), s3))
  {
  }

  /** The split fields merge back into the packet they came from. */
  lemma GreetingFieldsMerge(p: HandshakePacket)
    requires WellFormedHandshake(p)
    ensures var data := p.authPluginData;
      MergeGreeting((p.serverVersion, p.connectionId, data[..8]), GreetingFlagsOf(p), (data[8..], p.authPluginName)) == p
  {
    assert p.authPluginData[..8] + p.authPluginData[8..] == p.authPluginData;
  }

  lemma GreetingHeadRoundTrip(version: bytes, connectionId: uint32, auth1: bytes, rest: bytes)
    requires 0 !in version && |auth1| == AUTH1_LENGTH
    ensures DecodeGreetingHead(EncodeGreetingHead(version, connectionId, auth1) + rest)
      == Ok(((version, connectionId, auth1), rest))
  {
    Pow256Values();
    assert EncodeGreetingHead(version, connectionId, auth1) + rest
      == version + ([0] + (ToLE(connectionId, 4) + (auth1 + ([0] + rest))));
    ReadNullThen(version, ToLE(connectionId, 4) + (auth1 + ([0] + rest)));
    ReadIntOfToLE(connectionId, 4, auth1 + ([0] + rest));
    ReadFixedThen(auth1, [0] + rest);
    ReadByteThen(0, rest);
  }

  lemma GreetingFlagsRoundTrip(f: GreetingFlags, rest: bytes)
    ensures DecodeGreetingFlags(EncodeGreetingFlags(f) + rest) == Ok((f, rest))
  {
    Pow256Values();
    var t1 := [f.authLength] + (Zeros(10) + rest);
    var t2 := ToLE(f.capsHigh, 2) + t1;
    var t3 := ToLE(f.status, 2) + t2;
    var t4 := [f.charset] + t3;
    assert EncodeGreetingFlags(f) + rest == ToLE(f.capsLow, 2) + t4;
    ReadIntOfToLE(f.capsLow, 2, t4);
    ReadByteThen(f.charset, t3);
    ReadIntOfToLE(f.status, 2, t2);
    ReadIntOfToLE(f.capsHigh, 2, t1);
    ReadByteThen(f.authLength, Zeros(10) + rest);
    ReadFixedThen(Zeros(10), rest);
  }

  lemma GreetingTailRoundTrip(auth2: bytes, name: bytes, rest: bytes)
    requires 12 <= |auth2| <= 246 && 0 !in name
    ensures DecodeGreetingTail(EncodeGreetingTail(auth2, name) + rest, |auth2| + 1 + AUTH1_LENGTH)
      == Ok(((auth2, name), rest))
  {
    assert EncodeGreetingTail(auth2, name) + rest == (auth2 + [0]) + (name + ([0] + rest));
    ReadFixedThen(auth2 + [0], name + ([0] + rest));
    ReadNullThen(name, rest);
    assert (auth2 + [0])[..|auth2|] == auth2;
  }

  // ------------------------------------------- Protocol::HandshakeResponse41

  /** The capability bit under which the response carries a database name. */
  const CLIENT_CONNECT_WITH_DB: nat := 8

  predicate HasCapability(capabilities: uint32, flag: nat)
    requires flag > 0
  {
    (capabilities / flag) % 2 == 1
  }

  datatype HandshakeResponse = HandshakeResponse(
    clientFlag: uint32,
    maxPacketSize: uint32,
    characterSet: uint8,
    username: bytes,
    authResponse: bytes,
    database: bytes,
    clientPluginName: bytes)

  /** Fields in wire order: client flags (4), max packet size (4), character
      set (1), 23 zero bytes, user name (null-terminated), auth response
      (length-encoded), the database (null-terminated) only under
      CLIENT_CONNECT_WITH_DB in the connection's capabilities, and the
      client plugin name (null-terminated). */
  function SerializeHandshakeResponse(capabilities: uint32, p: HandshakeResponse): (r: bytes)
    requires |p.authResponse| < TWO_64
    ensures |r| >= 32 && r[9..32] == Zeros(23)
    ensures r[..9] == ToLE(p.clientFlag, 4) + ToLE(p.maxPacketSize, 4) + [p.characterSet]
  {
    var head := EncodeClientHead(p.clientFlag, p.maxPacketSize, p.characterSet);
    var r := head + EncodeResponseTail(capabilities, p);
    assert r[..32] == head;
    r
  }

  /** The part after the fixed 32 bytes. */
  function EncodeResponseTail(capabilities: uint32, p: HandshakeResponse): bytes
    requires |p.authResponse| < TWO_64
  {
    p.username + ([0] + (EncodeLenencString(p.authResponse) + EncodeDatabaseAndPlugin(capabilities, p)))
  }

  /** The database (only under CLIENT_CONNECT_WITH_DB) and the plugin name. */
  function EncodeDatabaseAndPlugin(capabilities: uint32, p: HandshakeResponse): bytes
  {
    var database := if HasCapability(capabilities, CLIENT_CONNECT_WITH_DB) then p.database + [0] else [];
    database + (p.clientPluginName + [0])
  }

  /** The server's reading of the response (reference definition). */
  function DecodeHandshakeResponse(capabilities: uint32, s: bytes): (r: Result<(HandshakeResponse, bytes)>)
  {
    var head :- DecodeClientHead(s);
    var tail :- DecodeResponseTail(capabilities, head.1);
    var (clientFlag, maxPacketSize, charset) := head.0;
    var (username, authResponse, database, plugin) := tail.0;
    Ok((HandshakeResponse(clientFlag, maxPacketSize, charset, username, authResponse, database, plugin), tail.1))
  }

  function DecodeResponseTail(capabilities: uint32, s: bytes): (r: Result<((bytes, bytes, bytes, bytes), bytes)>)
  {
    var username :- ReadNull(s);
    var authResponse :- ReadLenencString(username.1);
    var names :- DecodeDatabaseAndPlugin(capabilities, authResponse.1);
    Ok(((username.0, authResponse.0, names.0.0, names.0.1), names.1))
  }

  function DecodeDatabaseAndPlugin(capabilities: uint32, s: bytes): (r: Result<((bytes, bytes), bytes)>)
  {
    var database :- if HasCapability(capabilities, CLIENT_CONNECT_WITH_DB) then ReadNull(s) else Ok(([], s));
    var plugin :- ReadNull(database.1);
    Ok(((database.0, plugin.0), plugin.1))
  }

  predicate WellFormedResponse(p: HandshakeResponse) {
    0 !in p.username && 0 !in p.database && 0 !in p.clientPluginName
    && |p.authResponse| < TWO_64
  }

  /** Every field survives, except that the database is not sent, and so
      reads back empty, when CLIENT_CONNECT_WITH_DB is unset. */
  lemma HandshakeResponseRoundTrip(capabilities: uint32, p: HandshakeResponse, rest: bytes)
    requires WellFormedResponse(p)
    ensures DecodeHandshakeResponse(capabilities, SerializeHandshakeResponse(capabilities, p) + rest)
      == Ok((if HasCapability(capabilities, CLIENT_CONNECT_WITH_DB) then p else p.(database := []), rest))
  {
    var head := EncodeClientHead(p.clientFlag, p.maxPacketSize, p.characterSet);
    var tail := EncodeResponseTail(capabilities, p);
    assert SerializeHandshakeResponse(capabilities, p) + rest == head + (tail + rest);
    ClientHeadRoundTrip(p.clientFlag, p.maxPacketSize, p.characterSet, tail + rest);
    ResponseTailRoundTrip(capabilities, p, rest);
  }

  lemma ResponseTailRoundTrip(capabilities: uint32, p: HandshakeResponse, rest: bytes)
    requires WellFormedResponse(p)
    ensures DecodeResponseTail(capabilities, EncodeResponseTail(capabilities, p) + rest)
      == Ok(((p.username, p.authResponse,
              if HasCapability(capabilities, CLIENT_CONNECT_WITH_DB) then p.database else [],
              p.clientPluginName), rest))
  {
    var names := EncodeDatabaseAndPlugin(capabilities, p);
    var auth := EncodeLenencString(p.authResponse);
    ResponseTailLayout(capabilities, p, rest);
    ReadNullThen(p.username, auth + (names + rest));
    LenencStringRoundTrip(p.authResponse, names + rest);
    DatabaseAndPluginRoundTrip(capabilities, p, rest);
  }

  lemma ResponseTailLayout(capabilities: uint32, p: HandshakeResponse, rest: bytes)
    requires |p.authResponse| < TWO_64
    ensures EncodeResponseTail(capabilities, p) + rest
      == p.username + ([0] + (EncodeLenencString(p.authResponse) + (EncodeDatabaseAndPlugin(capabilities, p) + rest)))
  {
  }

  lemma DatabaseAndPluginRoundTrip(capabilities: uint32, p: HandshakeResponse, rest: bytes)
    requires WellFormedResponse(p)
    ensures var withDb := HasCapability(capabilities, CLIENT_CONNECT_WITH_DB);
      DecodeDatabaseAndPlugin(capabilities, EncodeDatabaseAndPlugin(capabilities, p) + rest)
      == Ok(((if withDb then p.database else [], p.clientPluginName), rest))
  {
    var withDb := HasCapability(capabilities, CLIENT_CONNECT_WITH_DB);
    var afterDb := (p.clientPluginName + [0]) + rest;
    if withDb {
      assert EncodeDatabaseAndPlugin(capabilities, p) + rest == p.database + ([0] + afterDb);
      ReadNullThen(p.database, afterDb);
    } else {
      assert EncodeDatabaseAndPlugin(capabilities, p) + rest == afterDb;
    }
    ReadNullOfEncoded(p.clientPluginName, rest);
  }

  /** The 32 bytes that open both the handshake response and the SSL
      request: client flags (4), max packet size (4), character set (1) and
      a 23-byte zero filler. */
  function EncodeClientHead(clientFlag: uint32, maxPacketSize: uint32, characterSet: uint8): (r: bytes)
    ensures |r| == 32 && r[9..] == Zeros(23)
    ensures r[..9] == ToLE(clientFlag, 4) + ToLE(maxPacketSize, 4) + [characterSet]
  {
    Pow256Values();
    var r := ToLE(clientFlag, 4) + (ToLE(maxPacketSize, 4) + ([characterSet] + Zeros(23)));
    assert r[9..] == Zeros(23);
    assert r[..9] == ToLE(clientFlag, 4) + ToLE(maxPacketSize, 4) + [characterSet];
    r
  }

  function DecodeClientHead(s: bytes): (r: Result<((uint32, uint32, uint8), bytes)>)
  {
    Pow256Values();
    var clientFlag :- ReadInt(s, 4);
    var maxPacketSize :- ReadInt(clientFlag.1, 4);
    var charset :- ReadInt(maxPacketSize.1, 1);
    var filler :- ReadFixed(charset.1, 23);
    Ok(((clientFlag.0, maxPacketSize.0, charset.0), filler.1))
  }

  lemma ClientHeadRoundTrip(clientFlag: uint32, maxPacketSize: uint32, characterSet: uint8, rest: bytes)
    ensures DecodeClientHead(EncodeClientHead(clientFlag, maxPacketSize, characterSet) + rest)
      == Ok(((clientFlag, maxPacketSize, characterSet), rest))
  {
    Pow256Values();
    var t1 := [characterSet] + Zeros(23);
    var t0 := ToLE(maxPacketSize, 4) + t1;
    assert EncodeClientHead(clientFlag, maxPacketSize, characterSet) + rest == ToLE(clientFlag, 4) + (t0 + rest);
    ReadIntOfToLE(clientFlag, 4, t0 + rest);
    assert t0 + rest == ToLE(maxPacketSize, 4) + (t1 + rest);
    ReadIntOfToLE(maxPacketSize, 4, t1 + rest);
    assert t1 + rest == [characterSet] + (Zeros(23) + rest);
    ReadByteThen(characterSet, Zeros(23) + rest);
    ReadFixedThen(Zeros(23), rest);
  }

  // ----------------------------------------------------- Protocol::SSLRequest

  datatype SslRequest = SslRequest(clientFlag: uint32, maxPacketSize: uint32, characterSet: uint8)

  /** Exactly the 32-byte head of the handshake response. */
  function SerializeSslRequest(p: SslRequest): (r: bytes)
    ensures |r| == 32 && r[9..] == Zeros(23)
    ensures r[..9] == ToLE(p.clientFlag, 4) + ToLE(p.maxPacketSize, 4) + [p.characterSet]
  {
    EncodeClientHead(p.clientFlag, p.maxPacketSize, p.characterSet)
  }

  /** The server's reading of the request (reference definition). */
  function DecodeSslRequest(s: bytes): (r: Result<(SslRequest, bytes)>)
  {
    var head :- DecodeClientHead(s);
    Ok((SslRequest(head.0.0, head.0.1, head.0.2), head.1))
  }

  lemma SslRequestRoundTrip(p: SslRequest, rest: bytes)
    ensures DecodeSslRequest(SerializeSslRequest(p) + rest) == Ok((p, rest))
  {
    ClientHeadRoundTrip(p.clientFlag, p.maxPacketSize, p.characterSet, rest);
  }

  // ----------------------------------------------- Protocol::AuthSwitchRequest

  datatype AuthSwitchRequest = AuthSwitchRequest(pluginName: bytes, authPluginData: bytes)

  /** A null-terminated plugin name, then the rest of the packet as plugin
      data, of which one trailing zero byte, when present, is dropped. */
  function DecodeAuthSwitchRequest(s: bytes): (r: Result<(AuthSwitchRequest, bytes)>)
    ensures r.Err? <==> 0 !in s
    ensures r.Err? ==> r.error == IncompleteMessage
    ensures r.Ok? ==> r.value.1 == [] && 0 !in r.value.0.pluginName
    ensures r.Ok? ==>
      var name := r.value.0.pluginName;
      |name| < |s| &&
      var tail := s[|name| + 1..];
      s == name + [0] + tail
      && r.value.0.authPluginData == if |tail| > 0 && tail[|tail| - 1] == 0 then tail[..|tail| - 1] else tail
  {
    var name :- ReadNull(s);
    var data := ReadEof(name.1);
    var plugin := data.0;
    var trimmed := if |plugin| > 0 && plugin[|plugin| - 1] == 0 then plugin[..|plugin| - 1] else plugin;
    Ok((AuthSwitchRequest(name.0, trimmed), data.1))
  }

  /** The server's request, with the terminator it puts after the data
      (reference definition). */
  function EncodeAuthSwitchRequest(p: AuthSwitchRequest): (r: bytes)
    requires 0 !in p.pluginName
  {
    p.pluginName + [0] + p.authPluginData + [0]
  }

  lemma AuthSwitchRequestRoundTrip(p: AuthSwitchRequest)
    requires 0 !in p.pluginName
    ensures DecodeAuthSwitchRequest(EncodeAuthSwitchRequest(p)) == Ok((p, []))
  {
    assert EncodeAuthSwitchRequest(p) == p.pluginName + [0] + (p.authPluginData + [0]);
    ReadNullOfEncoded(p.pluginName, p.authPluginData + [0]);
    assert (p.authPluginData + [0])[..|p.authPluginData|] == p.authPluginData;
  }

  /** A packet whose plugin data does not end in a zero byte keeps all of it. */
  lemma AuthSwitchRequestUnterminated(name: bytes, data: bytes)
    requires 0 !in name
    requires data == [] || data[|data| - 1] != 0
    ensures DecodeAuthSwitchRequest(name + [0] + data) == Ok((AuthSwitchRequest(name, data), []))
  {
    ReadNullOfEncoded(name, data);
  }

  /** A packet whose plugin data ends in a zero byte loses exactly that byte. */
  lemma AuthSwitchRequestTrimsOneZero(name: bytes, data: bytes)
    requires 0 !in name
    ensures DecodeAuthSwitchRequest(name + [0] + (data + [0])) == Ok((AuthSwitchRequest(name, data), []))
  {
    ReadNullOfEncoded(name, data + [0]);
    assert (data + [0])[..|data|] == data;
  }

  // -------------------------------------- AuthSwitchResponse and AuthMoreData

  /** Both records are a single string that runs to the end of the packet. */
  datatype AuthSwitchResponse = AuthSwitchResponse(authPluginData: bytes)
  datatype AuthMoreData = AuthMoreData(authPluginData: bytes)

  function SerializeAuthSwitchResponse(p: AuthSwitchResponse): (r: bytes)
    ensures |r| == |p.authPluginData|
  {
    p.authPluginData
  }

  /** The server's reading of the response (reference definition). */
  function DecodeAuthSwitchResponse(s: bytes): (r: Result<(AuthSwitchResponse, bytes)>)
  {
    var data := ReadEof(s);
    Ok((AuthSwitchResponse(data.0), data.1))
  }

  lemma AuthSwitchResponseRoundTrip(p: AuthSwitchResponse)
    ensures DecodeAuthSwitchResponse(SerializeAuthSwitchResponse(p)) == Ok((p, []))
  {
  }

  function DecodeAuthMoreData(s: bytes): (r: Result<(AuthMoreData, bytes)>)
    ensures r.Ok? && r.value.1 == []
  {
    var data := ReadEof(s);
    Ok((AuthMoreData(data.0), data.1))
  }

  /** The server's side of the record (reference definition). */
  function EncodeAuthMoreData(p: AuthMoreData): (r: bytes)
  {
    p.authPluginData
  }

  lemma AuthMoreDataRoundTrip(p: AuthMoreData, s: bytes)
    ensures DecodeAuthMoreData(EncodeAuthMoreData(p)) == Ok((p, []))
    ensures DecodeAuthMoreData(s).Ok? && EncodeAuthMoreData(DecodeAuthMoreData(s).value.0) == s
  {
  }
}
