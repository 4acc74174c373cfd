/** One server-side connection of the plugin: the ClientHello phase of
    `tls1_2_request`, then `ChangeCipherReader`, then `application_data`, over
    a buffer of received bytes and a buffer of written bytes. */
module Server {
  import opened Bytes
  import opened Protocol
  import opened HelloParser
  import opened HelloReply
  import opened FinishedReader
  import opened AppData

  /** Where the connection's parser stands. */
  datatype Phase =
    | AwaitClientHello
    | AwaitFinished(sessionId: Bytes)
    | Relaying
    | Closed(error: Error)

  function Rank(phase: Phase): nat
  {
    match phase
    case AwaitClientHello => 2
    case AwaitFinished(_) => 1
    case _ => 0
  }

  /** The phase reached, the bytes left unread, and the bytes written. */
  datatype Progress = Progress(phase: Phase, rest: Bytes, written: Bytes)

  /** The parsers run from `phase` over the buffered `input`, as far as it
      lets them go. `env` supplies the clock and the randomness the
      ClientHello phase draws. */
  function Advance(cfg: Config, env: Env, phase: Phase, input: Bytes): Progress
    requires ValidEnv(env)
    decreases Rank(phase)
  {
    match phase
    case AwaitClientHello =>
      (match ParseClientHello(cfg, env.clockCheck, input)
       case Pending => Progress(phase, input, [])
       case Reject(e) => Progress(Closed(e), input, [])
       case Accept(hello, used) =>
         var next := Advance(cfg, env, AwaitFinished(hello.sessionId), input[used..]);
         Progress(next.phase, next.rest, ServerHello(cfg, env, hello) + next.written))
    case AwaitFinished(sessionId) =>
      (match ParseFinished(cfg, sessionId, input)
       case Pending => Progress(phase, input, [])
       case Reject(e) => Progress(Closed(e), input, [])
       case Accept(_, used) => Advance(cfg, env, Relaying, input[used..]))
    case Relaying =>
      var r := Relay(cfg.tlsVersion, input);
      Progress(if r.error.Some? then Closed(r.error.value) else Relaying, r.rest, r.out)
    case Closed(_) => Progress(phase, input, [])
  }

  /** Feeding the connection `input` and then `more` is feeding it
      `input + more` at once: the same bytes are written, in the same order,
      and the same phase and unread bytes result. */
  ghost predicate AdvanceExtendsAt(cfg: Config, env: Env, phase: Phase, input: Bytes, more: Bytes)
    requires ValidEnv(env)
  {
    var first := Advance(cfg, env, phase, input);
    var second := Advance(cfg, env, first.phase, first.rest + more);
    Advance(cfg, env, phase, input + more) == Progress(second.phase, second.rest, first.written + second.written)
  }

  /** The state machine does not depend on how the transport cuts the byte
      stream into pieces. */
  lemma {:induction false} AdvanceExtends(cfg: Config, env: Env, phase: Phase, input: Bytes, more: Bytes)
    requires ValidEnv(env)
    ensures AdvanceExtendsAt(cfg, env, phase, input, more)
    decreases Rank(phase)
  {
    match phase
    case Closed(_) =>
    case Relaying =>
      RelayingExtends(cfg, env, input, more);
    case AwaitFinished(sessionId) =>
      if ParseFinished(cfg, sessionId, input).Accept? {
        var used := ParseFinished(cfg, sessionId, input).used;
        assert AdvanceExtendsAt(cfg, env, Relaying, input[used..], more) by {
          AdvanceExtends(cfg, env, Relaying, input[used..], more);
        }
        FinishedExtends(cfg, env, sessionId, input, more);
      } else {
        FinishedStopped(cfg, env, sessionId, input, more);
      }
    case AwaitClientHello =>
      if ParseClientHello(cfg, env.clockCheck, input).Accept? {
        var p := ParseClientHello(cfg, env.clockCheck, input);
        assert AdvanceExtendsAt(cfg, env, AwaitFinished(p.value.sessionId), input[p.used..], more) by {
          AdvanceExtends(cfg, env, AwaitFinished(p.value.sessionId), input[p.used..], more);
        }
        ClientHelloExtends(cfg, env, input, more);
      } else {
        HelloStopped(cfg, env, input, more);
      }
  }

  /** A ClientHello phase that waits or has rejected. */
  lemma HelloStopped(cfg: Config, env: Env, input: Bytes, more: Bytes)
    requires ValidEnv(env)
    requires !ParseClientHello(cfg, env.clockCheck, input).Accept?
    ensures AdvanceExtendsAt(cfg, env, AwaitClientHello, input, more)
  {
    if ParseClientHello(cfg, env.clockCheck, input).Pending? {
      PendingExtends(cfg, env, AwaitClientHello, input, more);
    } else {
      ParseClientHelloExtends(cfg, env.clockCheck, input, more);
    }
  }

  /** A Finished phase that waits or has rejected. */
  lemma FinishedStopped(cfg: Config, env: Env, sessionId: Bytes, input: Bytes, more: Bytes)
    requires ValidEnv(env)
    requires !ParseFinished(cfg, sessionId, input).Accept?
    ensures AdvanceExtendsAt(cfg, env, AwaitFinished(sessionId), input, more)
  {
    if ParseFinished(cfg, sessionId, input).Pending? {
      PendingExtends(cfg, env, AwaitFinished(sessionId), input, more);
    } else {
      ParseFinishedExtends(cfg, sessionId, input, more);
    }
  }

  /** A phase that is still waiting has written nothing and left the buffer
      as it was. */
  lemma PendingExtends(cfg: Config, env: Env, phase: Phase, input: Bytes, more: Bytes)
    requires ValidEnv(env)
    requires Advance(cfg, env, phase, input) == Progress(phase, input, [])
    ensures AdvanceExtendsAt(cfg, env, phase, input, more)
  {
    var second := Advance(cfg, env, phase, input + more);
    assert [] + second.written == second.written;
  }

  lemma RelayingExtends(cfg: Config, env: Env, input: Bytes, more: Bytes)
    requires ValidEnv(env)
    ensures AdvanceExtendsAt(cfg, env, Relaying, input, more)
  {
    var v := cfg.tlsVersion;
    var r := Relay(v, input);
    RelayExtends(v, input, more);
    if r.error.None? {
      assert Advance(cfg, env, Relaying, input) == Progress(Relaying, r.rest, r.out);
    }
  }

  lemma FinishedExtends(cfg: Config, env: Env, sessionId: Bytes, input: Bytes, more: Bytes)
    requires ValidEnv(env)
    requires ParseFinished(cfg, sessionId, input).Accept?
    requires AdvanceExtendsAt(cfg, env, Relaying, input[ParseFinished(cfg, sessionId, input).used..], more)
    ensures AdvanceExtendsAt(cfg, env, AwaitFinished(sessionId), input, more)
  {
    var used := ParseFinished(cfg, sessionId, input).used;
    ParseFinishedExtends(cfg, sessionId, input, more);
    DropAppend(input, more, used);
  }

  /** One step of the ClientHello phase once a ClientHello is accepted. */
  lemma HelloStep(cfg: Config, env: Env, input: Bytes)
    requires ValidEnv(env)
    requires ParseClientHello(cfg, env.clockCheck, input).Accept?
    ensures var p := ParseClientHello(cfg, env.clockCheck, input);
      var inner := Advance(cfg, env, AwaitFinished(p.value.sessionId), input[p.used..]);
      Advance(cfg, env, AwaitClientHello, input) == Progress(inner.phase, inner.rest, ServerHello(cfg, env, p.value) + inner.written)
  {
  }

  /** The bookkeeping of `ClientHelloExtends`, over abstract progress values. */
  lemma PrefixedExtends(reply: Bytes, first: Progress, whole: Progress, inner: Progress, innerExt: Progress, second: Progress)
    requires first == Progress(inner.phase, inner.rest, reply + inner.written)
    requires whole == Progress(innerExt.phase, innerExt.rest, reply + innerExt.written)
    requires innerExt == Progress(second.phase, second.rest, inner.written + second.written)
    ensures whole == Progress(second.phase, second.rest, first.written + second.written)
  {
    assert reply + (inner.written + second.written) == (reply + inner.written) + second.written;
  }

  lemma ClientHelloExtends(cfg: Config, env: Env, input: Bytes, more: Bytes)
    requires ValidEnv(env)
    requires ParseClientHello(cfg, env.clockCheck, input).Accept?
    requires var p := ParseClientHello(cfg, env.clockCheck, input);
      AdvanceExtendsAt(cfg, env, AwaitFinished(p.value.sessionId), input[p.used..], more)
    ensures AdvanceExtendsAt(cfg, env, AwaitClientHello, input, more)
  {
    var p := ParseClientHello(cfg, env.clockCheck, input);
    var next := AwaitFinished(p.value.sessionId);
    var reply := ServerHello(cfg, env, p.value);
    var inner := Advance(cfg, env, next, input[p.used..]);
    var innerExt := Advance(cfg, env, next, input[p.used..] + more);
    var second := Advance(cfg, env, inner.phase, inner.rest + more);
    var first := Advance(cfg, env, AwaitClientHello, input);
    var whole := Advance(cfg, env, AwaitClientHello, input + more);
    assert first == Progress(inner.phase, inner.rest, reply + inner.written) by {
      HelloStep(cfg, env, input);
    }
    assert whole == Progress(innerExt.phase, innerExt.rest, reply + innerExt.written) by {
      ParseClientHelloExtends(cfg, env.clockCheck, input, more);
      DropAppend(input, more, p.used);
      HelloStep(cfg, env, input + more);
    }
    assert innerExt == Progress(second.phase, second.rest, inner.written + second.written);
    PrefixedExtends(reply, first, whole, inner, innerExt, second);
  }

  /** Nothing is written until a ClientHello has passed every check. */
  lemma NoReplyUnlessAccepted(cfg: Config, env: Env, input: Bytes)
    requires ValidEnv(env)
    ensures !ParseClientHello(cfg, env.clockCheck, input).Accept? ==>
      Advance(cfg, env, AwaitClientHello, input).written == []
    ensures ParseClientHello(cfg, env.clockCheck, input).Accept? ==>
      var hello := ParseClientHello(cfg, env.clockCheck, input).value;
      var w := Advance(cfg, env, AwaitClientHello, input).written;
      |w| >= |ServerHello(cfg, env, hello)| && w[..|ServerHello(cfg, env, hello)|] == ServerHello(cfg, env, hello)
  {
  }

  /** A client sharing the master key: a fresh genuine ClientHello, the
      genuine ChangeCipherSpec and Finished, and application-data records.
      The server writes its response and then exactly the payloads, and
      stays in the relay phase with nothing left unread. */
  lemma GenuineSession(cfg: Config, env: Env, ts: nat, nonce: Bytes, sessionId: Bytes, tail: Bytes, pad: Bytes, payloads: seq<Bytes>)
    requires ValidEnv(env)
    requires ts < 0x1_0000_0000 && |nonce| == 18
    requires 32 <= |sessionId| < 256 && |sessionId| + |tail| <= MAX_FRAGMENT - 39
    requires Abs(env.clockCheck % 0x1_0000_0000 - ts) < cfg.timeTolerance
    requires |pad| + 10 < 256
    requires forall i :: 0 <= i < |payloads| ==> |payloads[i]| <= MAX_FRAGMENT
    ensures var hello := ClientHelloRecord(HelloBodyWith(cfg, ts, nonce, ClientTag(cfg, ts, nonce, sessionId), sessionId, tail));
      var finished := ClientFinishedWith(cfg.tlsVersion, pad, FinishedTag(cfg, sessionId, pad));
      Advance(cfg, env, AwaitClientHello, hello + (finished + Records(cfg.tlsVersion, payloads)))
        == Progress(Relaying, [], ServerHello(cfg, env, Hello(|sessionId|, sessionId)) + Flatten(payloads))
  {
    var v := cfg.tlsVersion;
    var hello := ClientHelloRecord(HelloBodyWith(cfg, ts, nonce, ClientTag(cfg, ts, nonce, sessionId), sessionId, tail));
    var rest := ClientFinishedWith(v, pad, FinishedTag(cfg, sessionId, pad)) + Records(v, payloads);
    var input := hello + rest;
    assert ParseClientHello(cfg, env.clockCheck, input) == Accept(Hello(|sessionId|, sessionId), |hello|) by {
      ClientHelloWithOutcome(cfg, env.clockCheck, ts, nonce, ClientTag(cfg, ts, nonce, sessionId), sessionId, tail, rest);
    }
    assert Advance(cfg, env, AwaitFinished(sessionId), input[|hello|..]) == Progress(Relaying, [], Flatten(payloads)) by {
      AfterPrefix(hello, rest);
      GenuineFinish(cfg, env, sessionId, pad, payloads);
    }
    HelloStep(cfg, env, input);
  }

  /** After the response, the genuine ChangeCipherSpec and Finished and then
      application-data records relay exactly the payloads. */
  lemma GenuineFinish(cfg: Config, env: Env, sessionId: Bytes, pad: Bytes, payloads: seq<Bytes>)
    requires ValidEnv(env)
    requires |pad| + 10 < 256
    requires forall i :: 0 <= i < |payloads| ==> |payloads[i]| <= MAX_FRAGMENT
    ensures var finished := ClientFinishedWith(cfg.tlsVersion, pad, FinishedTag(cfg, sessionId, pad));
      Advance(cfg, env, AwaitFinished(sessionId), finished + Records(cfg.tlsVersion, payloads))
        == Progress(Relaying, [], Flatten(payloads))
  {
    var v := cfg.tlsVersion;
    var finished := ClientFinishedWith(v, pad, FinishedTag(cfg, sessionId, pad));
    var records := Records(v, payloads);
    assert ParseFinished(cfg, sessionId, finished + records) == Accept((), |finished|) by {
      ClientFinishedOutcome(cfg, sessionId, pad, FinishedTag(cfg, sessionId, pad), records);
    }
    AfterPrefix(finished, records);
    assert Relay(v, records) == Relayed(Flatten(payloads), [], None) by {
      RelayRecords(v, payloads);
    }
  }

  /** A stale ClientHello, or one whose tag was not made with the master
      key, closes the connection with nothing written and nothing consumed. */
  lemma UnauthenticHelloClosed(cfg: Config, env: Env, ts: nat, nonce: Bytes, tag: Bytes, sessionId: Bytes, tail: Bytes, more: Bytes)
    requires ValidEnv(env)
    requires ts < 0x1_0000_0000 && |nonce| == 18 && |tag| == 10
    requires 32 <= |sessionId| < 256 && |sessionId| + |tail| <= MAX_FRAGMENT - 39
    ensures var input := ClientHelloRecord(HelloBodyWith(cfg, ts, nonce, tag, sessionId, tail)) + more;
      && (!(Abs(env.clockCheck % 0x1_0000_0000 - ts) < cfg.timeTolerance) ==>
            Advance(cfg, env, AwaitClientHello, input) == Progress(Closed(Expired), input, []))
      && (Abs(env.clockCheck % 0x1_0000_0000 - ts) < cfg.timeTolerance && tag != ClientTag(cfg, ts, nonce, sessionId) ==>
            Advance(cfg, env, AwaitClientHello, input) == Progress(Closed(MacMismatch), input, []))
  {
    ClientHelloWithOutcome(cfg, env.clockCheck, ts, nonce, tag, sessionId, tail, more);
  }

  /** A Finished record whose tag was not made with the session key closes
      the connection before any application data is relayed. */
  lemma ForgedFinishedClosed(cfg: Config, env: Env, sessionId: Bytes, pad: Bytes, tag: Bytes, more: Bytes)
    requires ValidEnv(env)
    requires |pad| + 10 < 256 && |tag| == 10
    requires tag != FinishedTag(cfg, sessionId, pad)
    ensures var input := ClientFinishedWith(cfg.tlsVersion, pad, tag) + more;
      Advance(cfg, env, AwaitFinished(sessionId), input) == Progress(Closed(MacMismatch), input, [])
  {
    ClientFinishedOutcome(cfg, sessionId, pad, tag, more);
  }
}
