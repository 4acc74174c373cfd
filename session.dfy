/** The connection object the parsers run on: a buffer of received bytes
    that `iofree.read` consumes, a buffer of written bytes that
    `iofree.write` appends to, and the phase reached. */
module Session {
  import opened Bytes
  import opened Protocol
  import opened HelloParser
  import opened HelloReply
  import opened FinishedReader
  import opened AppData
  import opened Server

  class Connection {
    const cfg: Config
    /** Received bytes no parser has consumed yet. */
    var inbox: Bytes
    /** Everything the parsers have written so far with `iofree.write`: the
        response, then the relayed payloads. */
    var outbox: Bytes
    var phase: Phase
    /** Everything ever received: the stream the state is a function of. */
    ghost var received: Bytes

    /** The state is what the parsers make of the whole received stream,
        given the clock and randomness `env` of the server's response. */
    ghost predicate Consistent(env: Env)
      reads this
      requires ValidEnv(env)
    {
      var p := Advance(cfg, env, AwaitClientHello, received);
      phase == p.phase && inbox == p.rest && outbox == p.written
    }

    constructor (cfg: Config)
      ensures this.cfg == cfg && inbox == [] && outbox == [] && phase == AwaitClientHello && received == []
      ensures forall env :: ValidEnv(env) ==> Consistent(env)
    {
      this.cfg := cfg;
      inbox := [];
      outbox := [];
      phase := AwaitClientHello;
      received := [];
    }

    /** Bytes arriving from the transport. */
    method Receive(data: Bytes)
      modifies this
      ensures inbox == old(inbox) + data && received == old(received) + data
      ensures outbox == old(outbox) && phase == old(phase)
    {
      inbox := inbox + data;
      received := received + data;
    }

    /** `iofree.read(n)`: exactly `n` bytes, or nothing while fewer are
        buffered (the parser then waits for more). */
    method Read(n: nat) returns (chunk: Option<Bytes>)
      modifies this`inbox
      ensures |old(inbox)| >= n ==> chunk == Some(old(inbox)[..n]) && inbox == old(inbox)[n..]
      ensures |old(inbox)| < n ==> chunk == None && inbox == old(inbox)
    {
      if |inbox| < n {
        chunk := None;
      } else {
        chunk := Some(inbox[..n]);
        inbox := inbox[n..];
      }
    }

    /** `iofree.write(data)`. */
    method Write(data: Bytes)
      modifies this`outbox
      ensures outbox == old(outbox) + data
    {
      outbox := outbox + data;
    }

    /** `tls1_2_request` up to `ChangeCipherReader`: the record head, the
        fragment, their checks, and the server's response. A read that
        finds too few bytes leaves the buffer as the phase found it; a
        failed check closes the connection without writing. */
    method ReadClientHello(env: Env)
      requires ValidEnv(env) && phase == AwaitClientHello
      modifies this`inbox, this`outbox, this`phase
      ensures match ParseClientHello(cfg, env.clockCheck, old(inbox))
        case Pending => inbox == old(inbox) && outbox == old(outbox) && phase == AwaitClientHello
        case Reject(e) => inbox == old(inbox) && outbox == old(outbox) && phase == Closed(e)
        case Accept(hello, used) =>
          && inbox == old(inbox)[used..]
          && outbox == old(outbox) + ServerHello(cfg, env, hello)
          && phase == AwaitFinished(hello.sessionId)
    {
      var start := inbox;
      var head := Read(5);
      if head.None? {
        return;
      }
      var h := head.value;
      if h[..3] != [HANDSHAKE, 3, 1] {
        inbox := start;
        phase := Closed(NotHandshakeHead);
        return;
      }
      assert h[3..] == start[3..5];
      var length := Be(h[3..]);
      if length != Mask14(length) {
        inbox := start;
        phase := Closed(RecordOverflow);
        return;
      }
      var fragment := Read(length);
      if fragment.None? {
        inbox := start;
        return;
      }
      assert fragment.value == start[5..5 + length];
      assert inbox == start[5 + length..];
      match CheckClientHello(cfg, env.clockCheck, fragment.value) {
        case Fail(e) =>
          inbox := start;
          phase := Closed(e);
        case Ok(hello) =>
          var reply := BuildServerHello(env, hello);
          Write(reply);
          phase := AwaitFinished(hello.sessionId);
      }
    }

    /** The response, grown record by record as `tls1_2_request` grows
        `server_hello`, and closed by the tag of everything before it. */
    method BuildServerHello(env: Env, hello: Hello) returns (reply: Bytes)
      requires ValidEnv(env) && ValidHello(hello)
      ensures reply == ServerHello(cfg, env, hello)
    {
      reply := HelloRecord(cfg, env, hello);
      if env.ticketRoll < 1 {
        reply := reply + TicketRecord(cfg, env);
      } else {
        assert reply + [] == reply;
      }
      reply := reply + ChangeCipherSpecRecord(cfg.tlsVersion);
      reply := reply + FinishedHead(cfg, env);
      assert reply == ReplyBeforeTag(cfg, env, hello);
      reply := reply + cfg.mac(SessionKey(cfg, hello.sessionId), reply);
    }

    /** `ChangeCipherReader`: the 11 bytes of ChangeCipherSpec and Finished
        head, then the Finished body and its tag. */
    method ReadChangeCipher()
      requires phase.AwaitFinished?
      modifies this`inbox, this`phase
      ensures match ParseFinished(cfg, old(phase).sessionId, old(inbox))
        case Pending => inbox == old(inbox) && phase == old(phase)
        case Reject(e) => inbox == old(inbox) && phase == Closed(e)
        case Accept(_, used) => inbox == old(inbox)[used..] && phase == Relaying
    {
      var sessionId := phase.sessionId;
      var start := inbox;
      var head := Read(11);
      if head.None? {
        return;
      }
      var data := head.value;
      assert data == start[..11];
      match CheckCipherHead(cfg.tlsVersion, data) {
        case Fail(e) =>
          inbox := start;
          phase := Closed(e);
        case Ok(verifyLen) =>
          var body := Read(verifyLen);
          if body.None? {
            inbox := start;
            return;
          }
          var verify := body.value;
          assert verify == start[11..11 + verifyLen];
          assert inbox == start[11 + verifyLen..];
          var expected := cfg.mac(SessionKey(cfg, sessionId), data + DropLast(verify, 10));
          if expected != TakeLast(verify, 10) {
            inbox := start;
            phase := Closed(MacMismatch);
          } else {
            phase := Relaying;
          }
      }
    }

    /** `application_data`: forward the payload of one record after
        another until a record is incomplete or fails a check. */
    method RelayApplicationData()
      requires phase == Relaying
      modifies this`inbox, this`outbox, this`phase
      ensures var r := Relay(cfg.tlsVersion, old(inbox));
        && inbox == r.rest
        && outbox == old(outbox) + r.out
        && phase == (if r.error.Some? then Closed(r.error.value) else Relaying)
    {
      ghost var version := cfg.tlsVersion;
      ghost var total := Relay(version, inbox);
      while true
        invariant phase == Relaying
        invariant Relay(version, inbox).rest == total.rest
        invariant Relay(version, inbox).error == total.error
        invariant outbox + Relay(version, inbox).out == old(outbox) + total.out
        decreases |inbox|
      {
        ghost var start := inbox;
        ghost var outStart := outbox;
        var forwarded := ReadRecord();
        if !forwarded {
          assert outbox + [] == outbox;
          return;
        }
        var payload := ParseRecord(version, start).value;
        assert outStart + (payload + Relay(version, inbox).out) == outbox + Relay(version, inbox).out;
      }
    }

    /** One turn of the `application_data` loop: the 5-byte head and its
        checks, then the payload, forwarded. */
    method ReadRecord() returns (forwarded: bool)
      requires phase == Relaying
      modifies this`inbox, this`outbox, this`phase
      ensures match ParseRecord(cfg.tlsVersion, old(inbox))
        case Pending => !forwarded && inbox == old(inbox) && outbox == old(outbox) && phase == Relaying
        case Reject(e) => !forwarded && inbox == old(inbox) && outbox == old(outbox) && phase == Closed(e)
        case Accept(payload, used) =>
          forwarded && inbox == old(inbox)[used..] && outbox == old(outbox) + payload && phase == Relaying
    {
      forwarded := false;
      var start := inbox;
      var head := Read(5);
      if head.None? {
        return;
      }
      var d := head.value;
      assert d[1..3] == start[1..3] && d[3..] == start[3..5];
      if d[0] != APPLICATION_DATA {
        inbox := start;
        phase := Closed(NotApplicationData);
        return;
      }
      if d[1..3] != cfg.tlsVersion {
        inbox := start;
        phase := Closed(WrongVersion);
        return;
      }
      var size := Be(d[3..]);
      if size != Mask14(size) {
        inbox := start;
        phase := Closed(RecordOverflow);
        return;
      }
      var payload := Read(size);
      if payload.None? {
        inbox := start;
        return;
      }
      assert payload.value == start[5..5 + size];
      assert inbox == start[5 + size..];
      Write(payload.value);
      forwarded := true;
    }

    /** Run the parsers over the buffered bytes as far as they go: the new
        state is the one `Advance` describes. */
    method Pump(env: Env)
      requires ValidEnv(env)
      modifies this`inbox, this`outbox, this`phase
      ensures var p := Advance(cfg, env, old(phase), old(inbox));
        phase == p.phase && inbox == p.rest && outbox == old(outbox) + p.written
    {
      if phase == AwaitClientHello {
        HandshakeAndRelay(env);
      } else if phase.AwaitFinished? {
        FinishAndRelay(env);
      } else if phase == Relaying {
        RelayApplicationData();
      }
    }

    /** `tls1_2_request`, which ends in `ChangeCipherReader`, and then
        `application_data` once the handshake is complete. */
    method HandshakeAndRelay(env: Env)
      requires ValidEnv(env) && phase == AwaitClientHello
      modifies this`inbox, this`outbox, this`phase
      ensures var p := Advance(cfg, env, AwaitClientHello, old(inbox));
        phase == p.phase && inbox == p.rest && outbox == old(outbox) + p.written
    {
      ghost var inbox0 := inbox;
      ghost var out0 := outbox;
      ReadClientHello(env);
      if phase.AwaitFinished? {
        ghost var out1 := outbox;
        ghost var inbox1 := inbox;
        FinishAndRelay(env);
        HandshakeBookkeeping(cfg, env, inbox0, out0, out1, inbox1, outbox, phase, inbox);
      } else {
        assert outbox == old(outbox) + [];
      }
    }

    /** `ChangeCipherReader` and then `application_data` if it accepts. */
    method FinishAndRelay(ghost env: Env)
      requires ValidEnv(env) && phase.AwaitFinished?
      modifies this`inbox, this`outbox, this`phase
      ensures var p := Advance(cfg, env, old(phase), old(inbox));
        phase == p.phase && inbox == p.rest && outbox == old(outbox) + p.written
    {
      ReadChangeCipher();
      if phase == Relaying {
        RelayApplicationData();
      } else {
        assert outbox == old(outbox) + [];
      }
    }

    /** One delivery from the transport followed by a run of the parsers
        keeps the state equal to what the parsers make of the whole stream,
        however the stream was cut into deliveries. */
    method Deliver(data: Bytes, env: Env)
      requires ValidEnv(env) && Consistent(env)
      modifies this
      ensures received == old(received) + data && Consistent(env)
    {
      Receive(data);
      Pump(env);
      AdvanceExtends(cfg, env, AwaitClientHello, old(received), data);
    }
  }

  /** `HandshakeAndRelay` once a ClientHello is accepted: the response, then
      whatever the Finished phase writes. */
  lemma HandshakeBookkeeping(cfg: Config, env: Env, input: Bytes, out0: Bytes, out1: Bytes, mid: Bytes,
                             out2: Bytes, phase2: Phase, rest2: Bytes)
    requires ValidEnv(env)
    requires ParseClientHello(cfg, env.clockCheck, input).Accept?
    requires var p := ParseClientHello(cfg, env.clockCheck, input);
      mid == input[p.used..] && out1 == out0 + ServerHello(cfg, env, p.value)
    requires var p := ParseClientHello(cfg, env.clockCheck, input);
      var q := Advance(cfg, env, AwaitFinished(p.value.sessionId), mid);
      phase2 == q.phase && rest2 == q.rest && out2 == out1 + q.written
    ensures var a := Advance(cfg, env, AwaitClientHello, input);
      phase2 == a.phase && rest2 == a.rest && out2 == out0 + a.written
  {
    var p := ParseClientHello(cfg, env.clockCheck, input);
    var q := Advance(cfg, env, AwaitFinished(p.value.sessionId), mid);
    HelloStep(cfg, env, input);
    ReplyThenRest(out0, ServerHello(cfg, env, p.value), Advance(cfg, env, AwaitClientHello, input), q,
      out1, phase2, rest2, out2);
  }

  /** `HandshakeBookkeeping` over abstract progress values: the reply written
      first and then what the inner phase writes. */
  lemma ReplyThenRest(out0: Bytes, reply: Bytes, whole: Progress, inner: Progress,
                      out1: Bytes, phase2: Phase, rest2: Bytes, out2: Bytes)
    requires whole == Progress(inner.phase, inner.rest, reply + inner.written)
    requires out1 == out0 + reply
    requires phase2 == inner.phase && rest2 == inner.rest && out2 == out1 + inner.written
    ensures phase2 == whole.phase && rest2 == whole.rest && out2 == out0 + whole.written
  {
    assert out0 + reply + inner.written == out0 + (reply + inner.written);
  }
}
