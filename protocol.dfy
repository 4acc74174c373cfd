/** Configuration, injected environment and outcomes shared by the parsers of
    the fake TLS 1.2 handshake. */
module Protocol {
  import opened Bytes

  /** The two-byte `tls_version` the plugin is configured with. */
  type Version = s: Bytes | |s| == 2 witness [3, 3]

  /** Ten bytes: an HMAC-SHA1 digest truncated as `digest()[:10]`. */
  type Tag10 = s: Bytes | |s| == 10 witness [0, 0, 0, 0, 0, 0, 0, 0, 0, 0]

  /** `hmac.new(key, msg, hashlib.sha1).digest()[:10]`, left uninterpreted:
      the model only relies on it being a function of key and message. */
  type Mac = (Bytes, Bytes) -> Tag10

  /** What the plugin reads from its host: `tls_version`, the cipher's
      `master_key`, `time_tolerance`, and the keyed hash. */
  datatype Config = Config(tlsVersion: Version, masterKey: Bytes, timeTolerance: int, mac: Mac)

  /** Every tag of one connection is keyed by `master_key + session_id`. */
  function SessionKey(cfg: Config, sessionId: Bytes): Bytes
  {
    cfg.masterKey + sessionId
  }

  /** Record content types (section 6.2.1 of RFC 5246) and handshake message
      types (section 7.4 of RFC 5246) that appear on the wire. */
  const CHANGE_CIPHER_SPEC: byte := 0x14
  const HANDSHAKE: byte := 0x16
  const APPLICATION_DATA: byte := 0x17
  const CLIENT_HELLO: byte := 1
  const SERVER_HELLO: byte := 2
  const NEW_SESSION_TICKET: byte := 4

  /** The largest fragment length the parsers let through. */
  const MAX_FRAGMENT: nat := 0x3FFF

  /** `n & 0x3FFF` for a non-negative `n`. */
  function Mask14(n: nat): nat
  {
    n % 0x4000
  }

  /** The guard `length == length & 0x3FFF` admits exactly the lengths up to 2^14 - 1. */
  lemma Mask14Admits(n: nat)
    ensures Mask14(n) == n <==> n <= MAX_FRAGMENT
  {
  }

  function Abs(x: int): nat
  {
    if x < 0 then -x else x
  }

  /** Each failed `assert`, and each `IndexError` of a missing byte, ends the
      parser with an exception. The kind names the check that failed; some
      checks share a kind, as the line numbers of `tls_parser.py` below show. */
  datatype Error =
    | NotHandshakeHead     // lines 23-25: record head is not 16 03 01
    | RecordOverflow       // lines 27 and 114: record length over 2^14 - 1
    | MissingByte          // lines 29 and 38: `fragment[0]` or `client_hello[34]` past the end
    | NotClientHello       // line 29: handshake type is not client_hello(1)
    | WrongClientVersion   // line 32: client_version differs from tls_version
    | Expired              // line 37: timestamp outside time_tolerance
    | ShortSession         // line 39: session id length below 32
    | MacMismatch          // lines 44 and 102: truncated HMAC tag differs
    | NotChangeCipherSpec  // line 85: first byte is not change_cipher_spec(20)
    | WrongVersion         // lines 86-88, 91-93 and 110-112: a record version differs from tls_version
    | BadChangeCipherSpec  // line 89: ChangeCipherSpec body is not 00 01 01
    | NotFinished          // line 90: following record is not handshake(22)
    | FinishTooLong        // line 94: Finished length high byte is not 0
    | NotApplicationData   // line 109: record type is not application_data(23)

  datatype Result<T> = Ok(value: T) | Fail(error: Error)

  /** The outcome of a suspendable parser over the bytes received so far: it
      is still waiting for bytes, it failed, or it finished having consumed
      `used` bytes. */
  datatype Parse<T> = Pending | Reject(error: Error) | Accept(value: T, used: nat)

  /** What an accepted ClientHello leaves behind: the `session_length` byte and
      the `session_id` slice. */
  datatype Hello = Hello(sessionLength: byte, sessionId: Bytes)

  predicate ValidHello(h: Hello)
  {
    32 <= h.sessionLength && |h.sessionId| <= h.sessionLength
  }

  /** The values `time()`, `os.urandom`, `random.randint` and `random.choice`
      produce during one handshake, in the order the source draws them. */
  datatype Env = Env(
    clockCheck: int,      // time() for the freshness check
    clockReply: int,      // time() for the server random
    serverRandom: Bytes,  // os.urandom(18)
    ticketRoll: int,      // random.randint(0, 8)
    ticketWord: int,      // struct.unpack(">H", os.urandom(2))[0]
    ticketBody: Bytes,    // os.urandom(ticket length)
    finishLen: int,       // random.choice([32, 40])
    finishPad: Bytes)     // os.urandom(finish_len - 10)

  /** `(word % 164) * 2 + 64`: the session ticket length. */
  function TicketLen(word: nat): nat
  {
    (word % 164) * 2 + 64
  }

  /** The ranges each source of randomness draws from. */
  predicate ValidEnv(env: Env)
  {
    && |env.serverRandom| == 18
    && 0 <= env.ticketRoll <= 8
    && 0 <= env.ticketWord < 0x1_0000
    && (env.ticketRoll < 1 ==> |env.ticketBody| == TicketLen(env.ticketWord))
    && (env.finishLen == 32 || env.finishLen == 40)
    && |env.finishPad| == env.finishLen - 10
  }

  /** A session ticket is an even number of bytes between 64 and 390, and
      every such length can be drawn. */
  lemma TicketLenRange(word: nat)
    ensures TicketLen(word) % 2 == 0 && 64 <= TicketLen(word) <= 390
    ensures forall n :: 64 <= n <= 390 && n % 2 == 0 ==> TicketLen((n - 64) / 2) == n
  {
  }
}
