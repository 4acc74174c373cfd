/** The ClientHello half of `tls1_2_request`: record head, fragment, and the
    authentication of the embedded verifier. */
module HelloParser {
  import opened Bytes
  import opened Framing
  import opened Protocol

  /** `client_hello = fragment[4 : handshake_length + 4]`, where
      `handshake_length` is the big-endian value of `fragment[1:4]`. */
  function HelloBody(fragment: Bytes): Bytes
  {
    Slice(fragment, 4, Be(Slice(fragment, 1, 4)) + 4)
  }

  /** The checks on the client_hello body, in the order the source makes them. */
  function CheckHelloBody(cfg: Config, now: int, body: Bytes): (r: Result<Hello>)
    ensures r.Ok? ==> ValidHello(r.value)
  {
    if Slice(body, 0, 2) != cfg.tlsVersion then Fail(WrongClientVersion)
    else
      var verifyId := Slice(body, 2, 34);
      var clientTime := Be(Slice(verifyId, 0, 4));
      if !(Abs(now % 0x1_0000_0000 - clientTime) < cfg.timeTolerance) then Fail(Expired)
      else if |body| <= 34 then Fail(MissingByte)
      else
        var sessionLength := body[34];
        if sessionLength < 32 then Fail(ShortSession)
        else
          var sessionId := Slice(body, 35, 35 + sessionLength as int);
          var expected := cfg.mac(SessionKey(cfg, sessionId), Slice(verifyId, 0, 22));
          if Slice(verifyId, 22, |verifyId|) != expected then Fail(MacMismatch)
          else Ok(Hello(sessionLength, sessionId))
  }

  /** The checks on the handshake fragment of the first record. */
  function CheckClientHello(cfg: Config, now: int, fragment: Bytes): (r: Result<Hello>)
    ensures r.Ok? ==> ValidHello(r.value)
  {
    if |fragment| == 0 then Fail(MissingByte)
    else if fragment[0] != CLIENT_HELLO then Fail(NotClientHello)
    else CheckHelloBody(cfg, now, HelloBody(fragment))
  }

  /** `tls1_2_request` up to its write: read a 5-byte head, check it, read the
      fragment, check that. `now` is the clock of the freshness check. */
  function ParseClientHello(cfg: Config, now: int, input: Bytes): (r: Parse<Hello>)
    ensures r.Accept? ==> 5 <= r.used <= |input| && ValidHello(r.value)
  {
    if |input| < 5 then Pending
    else if input[..3] != [HANDSHAKE, 3, 1] then Reject(NotHandshakeHead)
    else
      var length := Be(input[3..5]);
      if length != Mask14(length) then Reject(RecordOverflow)
      else if |input| < 5 + length then Pending
      else
        match CheckClientHello(cfg, now, input[5..5 + length])
        case Fail(e) => Reject(e)
        case Ok(hello) => Accept(hello, 5 + length)
  }

  /** What it takes for a handshake fragment to be an authentic ClientHello,
      as one conjunction. */
  predicate Authentic(cfg: Config, now: int, fragment: Bytes)
  {
    var body := HelloBody(fragment);
    && |fragment| > 0 && fragment[0] == CLIENT_HELLO
    && |body| > 34
    && body[..2] == cfg.tlsVersion
    && Abs(now % 0x1_0000_0000 - Be(body[2..6])) < cfg.timeTolerance
    && body[34] >= 32
    && body[24..34] == cfg.mac(SessionKey(cfg, Slice(body, 35, 35 + body[34] as int)), body[2..24])
  }

  /** The fragment checks accept exactly the authentic fragments, and then the
      session id is `client_hello[35 : 35 + session_length]`. */
  lemma CheckClientHelloExact(cfg: Config, now: int, fragment: Bytes)
    ensures CheckClientHello(cfg, now, fragment).Ok? <==> Authentic(cfg, now, fragment)
    ensures Authentic(cfg, now, fragment) ==>
      var body := HelloBody(fragment);
      CheckClientHello(cfg, now, fragment).value == Hello(body[34], Slice(body, 35, 35 + body[34] as int))
  {
    var body := HelloBody(fragment);
    if |body| > 34 {
      var verifyId := Slice(body, 2, 34);
      assert verifyId == body[2..34];
      assert Slice(body, 0, 2) == body[..2];
      assert Slice(verifyId, 0, 4) == body[2..6];
      assert Slice(verifyId, 0, 22) == body[2..24];
      assert Slice(verifyId, 22, |verifyId|) == body[24..34];
    }
  }

  /** Acceptance needs every check of the source to pass: head 16 03 01, a
      length of at most 2^14 - 1, the whole fragment, and an authentic
      ClientHello in it; the parser then consumes exactly that record. */
  lemma ClientHelloAcceptance(cfg: Config, now: int, input: Bytes)
    ensures ParseClientHello(cfg, now, input).Accept? <==>
      && |input| >= 5
      && input[..3] == [HANDSHAKE, 3, 1]
      && Be(input[3..5]) <= MAX_FRAGMENT
      && |input| >= 5 + Be(input[3..5])
      && Authentic(cfg, now, input[5..5 + Be(input[3..5])])
  {
    if |input| >= 5 && input[..3] == [HANDSHAKE, 3, 1] {
      var length := Be(input[3..5]);
      Mask14Admits(length);
      if length <= MAX_FRAGMENT && |input| >= 5 + length {
        CheckClientHelloExact(cfg, now, input[5..5 + length]);
      }
    }
  }

  /** An accepted ClientHello record is consumed whole, and the session id is
      `client_hello[35 : 35 + session_length]` of its fragment. */
  lemma ClientHelloConsumed(cfg: Config, now: int, input: Bytes)
    requires ParseClientHello(cfg, now, input).Accept?
    ensures |input| >= 5
    ensures var length := Be(input[3..5]);
      var body := HelloBody(input[5..5 + length]);
      && ParseClientHello(cfg, now, input).used == 5 + length
      && ParseClientHello(cfg, now, input).value == Hello(body[34], Slice(body, 35, 35 + body[34] as int))
  {
    CheckClientHelloExact(cfg, now, input[5..5 + Be(input[3..5])]);
  }

  /** The parser waits for more bytes exactly while the 5-byte head is
      incomplete, or while the head passes its checks and the fragment it
      announces is incomplete; any other input is decided. */
  lemma ClientHelloWaits(cfg: Config, now: int, input: Bytes)
    ensures ParseClientHello(cfg, now, input).Pending? <==>
      || |input| < 5
      || (input[..3] == [HANDSHAKE, 3, 1] && Be(input[3..5]) <= MAX_FRAGMENT && |input| < 5 + Be(input[3..5]))
  {
    if |input| >= 5 {
      Mask14Admits(Be(input[3..5]));
    }
  }

  /** A head other than 16 03 01, or a length of 2^14 or more, is rejected as
      soon as the 5 head bytes are in, whatever follows: the fragment is never
      waited for. */
  lemma HeadRejectedEarly(cfg: Config, now: int, head: Bytes, more: Bytes)
    requires |head| == 5
    ensures head[..3] != [HANDSHAKE, 3, 1] ==>
      ParseClientHello(cfg, now, head + more) == Reject(NotHandshakeHead)
    ensures head[..3] == [HANDSHAKE, 3, 1] && Be(head[3..]) > MAX_FRAGMENT ==>
      ParseClientHello(cfg, now, head + more) == Reject(RecordOverflow)
  {
    var input := head + more;
    assert input[..3] == head[..3];
    assert input[3..5] == head[3..];
    Mask14Admits(Be(head[3..]));
  }

  /** Once the parser has decided, more input does not change its decision. */
  lemma ParseClientHelloExtends(cfg: Config, now: int, input: Bytes, more: Bytes)
    requires !ParseClientHello(cfg, now, input).Pending?
    ensures ParseClientHello(cfg, now, input + more) == ParseClientHello(cfg, now, input)
  {
    var ext := input + more;
    assert ext[..3] == input[..3];
    assert ext[3..5] == input[3..5];
    var length := Be(input[3..5]);
    if |input| >= 5 + length {
      assert ext[5..5 + length] == input[5..5 + length];
    }
  }

  /** A client_hello body as a client sharing the key would build it: client
      time `ts`, 18 bytes of `nonce`, the 10-byte `tag`, the session id and
      the remaining `tail` (cipher suites, compression methods, ...). */
  function HelloBodyWith(cfg: Config, ts: nat, nonce: Bytes, tag: Bytes, sessionId: Bytes, tail: Bytes): (body: Bytes)
    requires ts < 0x1_0000_0000 && |nonce| == 18 && |tag| == 10 && |sessionId| < 256
    ensures |body| == 35 + |sessionId| + |tail|
  {
    cfg.tlsVersion + Be32(ts) + nonce + tag + [|sessionId|] + sessionId + tail
  }

  /** A body wrapped as a handshake message and then as a handshake record
      with record version 3.1. */
  function ClientHelloRecord(body: Bytes): Bytes
    requires |body| <= MAX_FRAGMENT - 4
  {
    var fragment := [CLIENT_HELLO] + Be24Short(|body|) + body;
    [HANDSHAKE, 3, 1] + Be16(|fragment|) + fragment
  }

  /** The verifier tag a genuine client puts in its ClientHello. */
  function ClientTag(cfg: Config, ts: nat, nonce: Bytes, sessionId: Bytes): Tag10
    requires ts < 0x1_0000_0000 && |nonce| == 18
  {
    cfg.mac(SessionKey(cfg, sessionId), Be32(ts) + nonce)
  }

  lemma HelloBodyWithOutcome(cfg: Config, now: int, ts: nat, nonce: Bytes, tag: Bytes, sessionId: Bytes, tail: Bytes)
    requires ts < 0x1_0000_0000 && |nonce| == 18 && |tag| == 10 && 32 <= |sessionId| < 256
    ensures CheckHelloBody(cfg, now, HelloBodyWith(cfg, ts, nonce, tag, sessionId, tail)) ==
      if !(Abs(now % 0x1_0000_0000 - ts) < cfg.timeTolerance) then Fail(Expired)
      else if tag != ClientTag(cfg, ts, nonce, sessionId) then Fail(MacMismatch)
      else Ok(Hello(|sessionId|, sessionId))
  {
    var body := HelloBodyWith(cfg, ts, nonce, tag, sessionId, tail);
    var verifyId := Slice(body, 2, 34);
    assert verifyId == body[2..34];
    assert Slice(body, 0, 2) == cfg.tlsVersion;
    assert Slice(verifyId, 0, 4) == Be32(ts);
    assert Slice(verifyId, 0, 22) == Be32(ts) + nonce;
    assert Slice(verifyId, 22, |verifyId|) == tag;
    assert body[34] == |sessionId|;
    assert Slice(body, 35, 35 + body[34] as int) == sessionId;
  }

  /** The record layer around a body: the parser reaches exactly the body
      checks and consumes the whole record. */
  lemma ClientHelloRecordUnwraps(cfg: Config, now: int, body: Bytes, more: Bytes)
    requires |body| <= MAX_FRAGMENT - 4
    ensures var record := ClientHelloRecord(body);
      ParseClientHello(cfg, now, record + more) ==
        match CheckHelloBody(cfg, now, body)
        case Fail(e) => Reject(e)
        case Ok(hello) => Accept(hello, |record|)
  {
    var fragment := [CLIENT_HELLO] + Be24Short(|body|) + body;
    var record := ClientHelloRecord(body);
    var input := record + more;
    assert input[..3] == [HANDSHAKE, 3, 1];
    assert input[3..5] == Be16(|fragment|);
    Mask14Admits(|fragment|);
    assert input[5..5 + |fragment|] == fragment;
    assert fragment[1..4] == Be24Short(|body|);
    SliceExact(fragment, 1, 4);
    assert fragment[4..] == body;
    assert HelloBody(fragment) == body;
  }

  /** A well-formed ClientHello with a session id of 32 to 255 bytes is judged
      on freshness first and on its tag second: it is accepted exactly when
      the clock difference is within `time_tolerance` and the tag is the
      genuine one, so an expired hello is rejected even with the genuine tag,
      and any other tag (one flipped bit included) is rejected. */
  lemma ClientHelloWithOutcome(cfg: Config, now: int, ts: nat, nonce: Bytes, tag: Bytes, sessionId: Bytes, tail: Bytes, more: Bytes)
    requires ts < 0x1_0000_0000 && |nonce| == 18 && |tag| == 10
    requires 32 <= |sessionId| < 256 && |sessionId| + |tail| <= MAX_FRAGMENT - 39
    ensures var record := ClientHelloRecord(HelloBodyWith(cfg, ts, nonce, tag, sessionId, tail));
      ParseClientHello(cfg, now, record + more) ==
        if !(Abs(now % 0x1_0000_0000 - ts) < cfg.timeTolerance) then Reject(Expired)
        else if tag != ClientTag(cfg, ts, nonce, sessionId) then Reject(MacMismatch)
        else Accept(Hello(|sessionId|, sessionId), |record|)
  {
    var body := HelloBodyWith(cfg, ts, nonce, tag, sessionId, tail);
    HelloBodyWithOutcome(cfg, now, ts, nonce, tag, sessionId, tail);
    ClientHelloRecordUnwraps(cfg, now, body, more);
  }
}
