/** The response `tls1_2_request` writes once the ClientHello is accepted:
    ServerHello, an optional SessionTicket, ChangeCipherSpec, a
    Finished-looking record and a 10-byte trailer tag. */
module HelloReply {
  import opened Bytes
  import opened Framing
  import opened Protocol

  /** Cipher suite c02f, null compression, and a 5-byte extension block
      holding an empty renegotiation_info (`c02f000005ff01000100`). */
  const SUITE_TRAILER: Bytes := [0xc0, 0x2f, 0x00, 0x00, 0x05, 0xff, 0x01, 0x00, 0x01, 0x00]

  /** The server random: the clock masked to 24 bits as 4 big-endian bytes,
      18 random bytes, and the tag of those 22 bytes. */
  function ServerRandom(cfg: Config, env: Env, key: Bytes): Bytes
    requires ValidEnv(env)
  {
    var lead := Be32(env.clockReply % 0x100_0000) + env.serverRandom;
    lead + cfg.mac(key, lead)
  }

  /** The ServerHello body: version, random, session id with its length
      byte, suite trailer. */
  function HelloBodyOut(cfg: Config, env: Env, hello: Hello): Bytes
    requires ValidEnv(env) && |hello.sessionId| < 256
  {
    cfg.tlsVersion + ServerRandom(cfg, env, SessionKey(cfg, hello.sessionId))
      + [hello.sessionLength] + hello.sessionId + SUITE_TRAILER
  }

  /** The ServerHello handshake record. */
  function HelloRecord(cfg: Config, env: Env, hello: Hello): (r: Bytes)
    requires ValidEnv(env) && |hello.sessionId| < 256
    ensures |r| == 54 + |hello.sessionId|
  {
    var message := [SERVER_HELLO, 0] + PackUint16(HelloBodyOut(cfg, env, hello));
    [HANDSHAKE] + cfg.tlsVersion + PackUint16(message)
  }

  /** The SessionTicket handshake record of random content. */
  function TicketRecord(cfg: Config, env: Env): (r: Bytes)
    requires ValidEnv(env) && env.ticketRoll < 1
    ensures |r| == 9 + TicketLen(env.ticketWord)
  {
    [HANDSHAKE] + cfg.tlsVersion + Be16(|env.ticketBody| + 4) + [NEW_SESSION_TICKET, 0]
      + PackUint16(env.ticketBody)
  }

  function ChangeCipherSpecRecord(version: Version): Bytes
  {
    [CHANGE_CIPHER_SPEC] + version + [0, 1, 1]
  }

  /** The Finished-looking record without its last 10 bytes, which are the
      trailer tag. */
  function FinishedHead(cfg: Config, env: Env): Bytes
    requires ValidEnv(env)
  {
    [HANDSHAKE] + cfg.tlsVersion + Be16(env.finishLen) + env.finishPad
  }

  /** Everything the response holds before the trailer tag. */
  function ReplyBeforeTag(cfg: Config, env: Env, hello: Hello): Bytes
    requires ValidEnv(env) && |hello.sessionId| < 256
  {
    HelloRecord(cfg, env, hello)
      + (if env.ticketRoll < 1 then TicketRecord(cfg, env) else [])
      + ChangeCipherSpecRecord(cfg.tlsVersion)
      + FinishedHead(cfg, env)
  }

  /** The whole buffer `tls1_2_request` writes. */
  function ServerHello(cfg: Config, env: Env, hello: Hello): Bytes
    requires ValidEnv(env) && |hello.sessionId| < 256
  {
    var reply := ReplyBeforeTag(cfg, env, hello);
    reply + cfg.mac(SessionKey(cfg, hello.sessionId), reply)
  }

  /** The server random is 32 bytes: a zero byte (the clock is masked to 24
      bits), the rest of the clock, 18 random bytes, and the tag of the
      first 22. */
  lemma ServerRandomLayout(cfg: Config, env: Env, key: Bytes)
    requires ValidEnv(env)
    ensures var rnd := ServerRandom(cfg, env, key);
      && |rnd| == 32
      && rnd[0] == 0 && Be(rnd[..4]) == env.clockReply % 0x100_0000
      && rnd[4..22] == env.serverRandom
      && rnd[22..] == cfg.mac(key, rnd[..22])
  {
    var rnd := ServerRandom(cfg, env, key);
    var lead := Be32(env.clockReply % 0x100_0000) + env.serverRandom;
    assert rnd[..22] == lead;
    assert rnd[..4] == Be32(env.clockReply % 0x100_0000);
  }

  /** Byte positions of the ServerHello record for a session id of `s` bytes:
      record head, handshake head, version, the 32-byte random, session id
      length byte, session id and suite trailer. */
  lemma HelloRecordLayout(cfg: Config, env: Env, hello: Hello)
    requires ValidEnv(env) && |hello.sessionId| < 256
    ensures var r := HelloRecord(cfg, env, hello);
      var s := |hello.sessionId|;
      && |r| == 54 + s
      && r[0] == HANDSHAKE && r[1..3] == cfg.tlsVersion && Be(r[3..5]) == 49 + s
      && r[5..7] == [SERVER_HELLO, 0] && Be(r[7..9]) == 45 + s
      && r[9..11] == cfg.tlsVersion
      && r[11..43] == ServerRandom(cfg, env, SessionKey(cfg, hello.sessionId))
      && r[43] == hello.sessionLength
      && r[44..44 + s] == hello.sessionId
      && r[44 + s..] == SUITE_TRAILER
  {
    HelloRecordHead(cfg, env, hello);
    BodyWithin(HelloRecord(cfg, env, hello), cfg.tlsVersion,
      ServerRandom(cfg, env, SessionKey(cfg, hello.sessionId)),
      hello.sessionLength, hello.sessionId, SUITE_TRAILER);
  }

  /** The two heads of the ServerHello record, each with the length of what
      follows it, and then the ServerHello body. */
  lemma HelloRecordHead(cfg: Config, env: Env, hello: Hello)
    requires ValidEnv(env) && |hello.sessionId| < 256
    ensures var r := HelloRecord(cfg, env, hello);
      var s := |hello.sessionId|;
      && |r| == 54 + s
      && r[0] == HANDSHAKE && r[1..3] == cfg.tlsVersion && Be(r[3..5]) == 49 + s
      && r[5..7] == [SERVER_HELLO, 0] && Be(r[7..9]) == 45 + s
      && r[9..] == HelloBodyOut(cfg, env, hello)
  {
    var body := HelloBodyOut(cfg, env, hello);
    var message := [SERVER_HELLO, 0] + PackUint16(body);
    var r := HelloRecord(cfg, env, hello);
    PackedAfter([HANDSHAKE] + cfg.tlsVersion, message);
    PackedAfter([SERVER_HELLO, 0], body);
    assert r[5..] == message;
    assert r[5..7] == message[..2];
    assert r[7..9] == message[2..4];
  }

  /** The fields of a ServerHello body placed at offset 9 of a record. */
  lemma BodyWithin(r: Bytes, version: Bytes, rnd: Bytes, len: byte, sid: Bytes, trailer: Bytes)
    requires |version| == 2 && |rnd| == 32
    requires |r| >= 9 && r[9..] == version + rnd + [len] + sid + trailer
    ensures |r| == 44 + |sid| + |trailer|
    ensures r[9..11] == version && r[11..43] == rnd && r[43] == len
    ensures r[44..44 + |sid|] == sid && r[44 + |sid|..] == trailer
  {
    var body := r[9..];
    assert r[9..11] == body[..2];
    assert r[11..43] == body[2..34];
    assert r[44..44 + |sid|] == body[35..35 + |sid|];
    assert r[44 + |sid|..] == body[35 + |sid|..];
  }

  /** Within the ServerHello record the random's first byte is 0 and its last
      10 bytes are the tag of its first 22 under the session key. */
  lemma HelloRecordRandom(cfg: Config, env: Env, hello: Hello)
    requires ValidEnv(env) && |hello.sessionId| < 256
    ensures var r := HelloRecord(cfg, env, hello);
      && |r| == 54 + |hello.sessionId|
      && r[11] == 0 && Be(r[11..15]) == env.clockReply % 0x100_0000
      && r[15..33] == env.serverRandom
      && r[33..43] == cfg.mac(SessionKey(cfg, hello.sessionId), r[11..33])
  {
    var r := HelloRecord(cfg, env, hello);
    var rnd := ServerRandom(cfg, env, SessionKey(cfg, hello.sessionId));
    HelloRecordLayout(cfg, env, hello);
    ServerRandomLayout(cfg, env, SessionKey(cfg, hello.sessionId));
    RandomWithin(r, rnd);
  }

  /** The parts of a 32-byte random at offset 11 of a record. */
  lemma RandomWithin(r: Bytes, rnd: Bytes)
    requires |r| >= 43 && r[11..43] == rnd
    ensures r[11] == rnd[0] && r[11..15] == rnd[..4] && r[15..33] == rnd[4..22]
    ensures r[11..33] == rnd[..22] && r[33..43] == rnd[22..]
  {
  }

  /** The SessionTicket record: head, a record length 4 more than the ticket,
      handshake type 4 with a 24-bit length, then the ticket bytes. */
  lemma TicketRecordLayout(cfg: Config, env: Env)
    requires ValidEnv(env) && env.ticketRoll < 1
    ensures var r := TicketRecord(cfg, env);
      var t := TicketLen(env.ticketWord);
      && |r| == 9 + t
      && r[0] == HANDSHAKE && r[1..3] == cfg.tlsVersion && Be(r[3..5]) == t + 4
      && r[5..7] == [NEW_SESSION_TICKET, 0] && Be(r[7..9]) == t
      && r[9..] == env.ticketBody
  {
    var r := TicketRecord(cfg, env);
    var p := PackUint16(env.ticketBody);
    assert r[3..5] == Be16(|env.ticketBody| + 4);
    assert r[7..] == p;
    assert r[7..9] == p[..2];
  }

  /** The response opens with the ServerHello record. */
  lemma ServerHelloOpens(cfg: Config, env: Env, hello: Hello)
    requires ValidEnv(env) && |hello.sessionId| < 256
    ensures var r := ServerHello(cfg, env, hello);
      var h := HelloRecord(cfg, env, hello);
      |r| >= |h| && r[..|h|] == h
  {
    var h := HelloRecord(cfg, env, hello);
    var k: Bytes := if env.ticketRoll < 1 then TicketRecord(cfg, env) else [];
    var c := ChangeCipherSpecRecord(cfg.tlsVersion);
    var f := FinishedHead(cfg, env);
    var t := cfg.mac(SessionKey(cfg, hello.sessionId), h + k + c + f);
    ResponseParts(cfg, env, hello);
    FirstPart(ServerHello(cfg, env, hello), h, k, c, f, t);
  }

  /** When the roll of `randint(0, 8)` is 0, the SessionTicket record follows
      the ServerHello record. */
  lemma ServerHelloTicket(cfg: Config, env: Env, hello: Hello)
    requires ValidEnv(env) && |hello.sessionId| < 256 && env.ticketRoll < 1
    ensures var r := ServerHello(cfg, env, hello);
      var h := HelloRecord(cfg, env, hello);
      var k := TicketRecord(cfg, env);
      |r| >= |h| + |k| && r[|h|..|h| + |k|] == k
  {
    var h := HelloRecord(cfg, env, hello);
    var k: Bytes := TicketRecord(cfg, env);
    var c := ChangeCipherSpecRecord(cfg.tlsVersion);
    var f := FinishedHead(cfg, env);
    var t := cfg.mac(SessionKey(cfg, hello.sessionId), h + k + c + f);
    ResponseParts(cfg, env, hello);
    SecondPart(ServerHello(cfg, env, hello), h, k, c, f, t);
  }

  /** The response is 11 bytes longer than its ServerHello record, its
      ticket record and its Finished-looking record of `finish_len` bytes. */
  lemma ServerHelloLength(cfg: Config, env: Env, hello: Hello)
    requires ValidEnv(env) && |hello.sessionId| < 256
    ensures var ticket := if env.ticketRoll < 1 then 9 + TicketLen(env.ticketWord) else 0;
      |ServerHello(cfg, env, hello)| == 54 + |hello.sessionId| + ticket + 11 + env.finishLen
  {
    var h := HelloRecord(cfg, env, hello);
    var k: Bytes := if env.ticketRoll < 1 then TicketRecord(cfg, env) else [];
    var c := ChangeCipherSpecRecord(cfg.tlsVersion);
    var f := FinishedHead(cfg, env);
    var t := cfg.mac(SessionKey(cfg, hello.sessionId), h + k + c + f);
    ResponseParts(cfg, env, hello);
  }

  /** The ChangeCipherSpec record `14 ++ tls_version ++ 00 01 01` follows the
      ServerHello and ticket records. */
  lemma ServerHelloChangeCipher(cfg: Config, env: Env, hello: Hello)
    requires ValidEnv(env) && |hello.sessionId| < 256
    ensures var r := ServerHello(cfg, env, hello);
      var ticket: Bytes := if env.ticketRoll < 1 then TicketRecord(cfg, env) else [];
      var o := |HelloRecord(cfg, env, hello)| + |ticket|;
      |r| >= o + 6 && r[o..o + 6] == [CHANGE_CIPHER_SPEC] + cfg.tlsVersion + [0, 1, 1]
  {
    var h := HelloRecord(cfg, env, hello);
    var k: Bytes := if env.ticketRoll < 1 then TicketRecord(cfg, env) else [];
    var c := ChangeCipherSpecRecord(cfg.tlsVersion);
    var f := FinishedHead(cfg, env);
    var t := cfg.mac(SessionKey(cfg, hello.sessionId), h + k + c + f);
    ResponseParts(cfg, env, hello);
    ThirdPart(ServerHello(cfg, env, hello), h, k, c, f, t);
  }

  /** The Finished-looking record, without its last 10 bytes, sits just
      before the 10-byte tag that ends the response. */
  lemma ServerHelloFinished(cfg: Config, env: Env, hello: Hello)
    requires ValidEnv(env) && |hello.sessionId| < 256
    ensures var r := ServerHello(cfg, env, hello);
      var f := FinishedHead(cfg, env);
      |r| >= |f| + 10 && r[|r| - 10 - |f|..|r| - 10] == f
  {
    var h := HelloRecord(cfg, env, hello);
    var k: Bytes := if env.ticketRoll < 1 then TicketRecord(cfg, env) else [];
    var c := ChangeCipherSpecRecord(cfg.tlsVersion);
    var f := FinishedHead(cfg, env);
    var t := cfg.mac(SessionKey(cfg, hello.sessionId), h + k + c + f);
    ResponseParts(cfg, env, hello);
    FourthPart(ServerHello(cfg, env, hello), h, k, c, f, t);
  }

  /** The last 10 bytes of the response are the tag, under
      `master_key + session_id`, of everything before them. */
  lemma ServerHelloTag(cfg: Config, env: Env, hello: Hello)
    requires ValidEnv(env) && |hello.sessionId| < 256
    ensures var r := ServerHello(cfg, env, hello);
      |r| >= 10 && r[|r| - 10..] == cfg.mac(SessionKey(cfg, hello.sessionId), r[..|r| - 10])
  {
    var reply := ReplyBeforeTag(cfg, env, hello);
    LastPart(ServerHello(cfg, env, hello), reply, cfg.mac(SessionKey(cfg, hello.sessionId), reply));
  }

  /** The Finished-looking record: type 22, the version, and a length of
      `finish_len` (32 or 40), which counts its random padding and the
      10-byte tag that completes it. */
  lemma FinishedHeadLayout(cfg: Config, env: Env)
    requires ValidEnv(env)
    ensures var f := FinishedHead(cfg, env);
      && |f| == 5 + |env.finishPad|
      && f[0] == HANDSHAKE && f[1..3] == cfg.tlsVersion
      && Be(f[3..5]) == env.finishLen
      && (env.finishLen == 32 || env.finishLen == 40)
      && |f| - 5 + 10 == env.finishLen
      && f[5..] == env.finishPad
  {
    var f := FinishedHead(cfg, env);
    assert f[3..5] == Be16(env.finishLen);
  }

  /** The response as its five parts: the ServerHello record `h`, the ticket
      record `k` or nothing, the ChangeCipherSpec record `c`, the head `f`
      of the Finished-looking record, and the tag `t`. */
  lemma ResponseParts(cfg: Config, env: Env, hello: Hello)
    requires ValidEnv(env) && |hello.sessionId| < 256
    ensures var h := HelloRecord(cfg, env, hello);
      var k: Bytes := if env.ticketRoll < 1 then TicketRecord(cfg, env) else [];
      var c := ChangeCipherSpecRecord(cfg.tlsVersion);
      var f := FinishedHead(cfg, env);
      var t := cfg.mac(SessionKey(cfg, hello.sessionId), h + k + c + f);
      && ServerHello(cfg, env, hello) == h + k + c + f + t
      && |k| == (if env.ticketRoll < 1 then 9 + TicketLen(env.ticketWord) else 0)
      && |c| == 6 && |f| == 5 + |env.finishPad| && |t| == 10
  {
    var h := HelloRecord(cfg, env, hello);
    var k: Bytes := if env.ticketRoll < 1 then TicketRecord(cfg, env) else [];
    var c := ChangeCipherSpecRecord(cfg.tlsVersion);
    var f := FinishedHead(cfg, env);
    assert ReplyBeforeTag(cfg, env, hello) == h + k + c + f;
  }

  lemma FirstPart(r: Bytes, h: Bytes, k: Bytes, c: Bytes, f: Bytes, t: Bytes)
    requires r == h + k + c + f + t
    ensures |r| >= |h| && r[..|h|] == h
  {
    assert r == h + (k + c + f + t);
  }

  lemma SecondPart(r: Bytes, h: Bytes, k: Bytes, c: Bytes, f: Bytes, t: Bytes)
    requires r == h + k + c + f + t
    ensures |r| >= |h| + |k| && r[|h|..|h| + |k|] == k
  {
    assert r == h + k + (c + f + t);
    assert r[|h|..] == k + (c + f + t);
  }

  lemma ThirdPart(r: Bytes, h: Bytes, k: Bytes, c: Bytes, f: Bytes, t: Bytes)
    requires r == h + k + c + f + t
    ensures |r| >= |h| + |k| + |c| && r[|h| + |k|..|h| + |k| + |c|] == c
  {
    assert r == (h + k) + c + (f + t);
  }

  lemma FourthPart(r: Bytes, h: Bytes, k: Bytes, c: Bytes, f: Bytes, t: Bytes)
    requires r == h + k + c + f + t
    ensures |r| >= |f| + |t| && r[|r| - |t| - |f|..|r| - |t|] == f
  {
    assert r == (h + k + c) + f + t;
  }

  lemma LastPart(r: Bytes, p: Bytes, t: Bytes)
    requires r == p + t
    ensures r[|p|..] == t && r[..|p|] == p
  {
  }
}
