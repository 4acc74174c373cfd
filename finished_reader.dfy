/** `ChangeCipherReader`: the peer's ChangeCipherSpec record and the head of
    its Finished record, checked byte by byte, then the Finished body and its
    tag. */
module FinishedReader {
  import opened Bytes
  import opened Protocol

  /** The 11 bytes read first: ChangeCipherSpec record (6 bytes) and the
      5-byte head of the Finished record. */
  function CheckCipherHead(version: Version, data: Bytes): (r: Result<nat>)
    requires |data| == 11
    ensures r.Ok? ==> r.value < 256
  {
    if data[0] != CHANGE_CIPHER_SPEC then Fail(NotChangeCipherSpec)
    else if data[1..3] != version then Fail(WrongVersion)
    else if data[3..6] != [0, 1, 1] then Fail(BadChangeCipherSpec)
    else if data[6] != HANDSHAKE then Fail(NotFinished)
    else if data[7..9] != version then Fail(WrongVersion)
    else if data[9] != 0 then Fail(FinishTooLong)
    else
      BeTwo(data[9..11]);
      Ok(Be(data[9..11]))
  }

  /** The whole reader over the bytes received after the server's response.
      `sessionId` keys the tag together with the master key. */
  function ParseFinished(cfg: Config, sessionId: Bytes, input: Bytes): (r: Parse<()>)
    ensures r.Accept? ==> 11 <= r.used <= |input|
  {
    if |input| < 11 then Pending
    else
      var data := input[..11];
      match CheckCipherHead(cfg.tlsVersion, data)
      case Fail(e) => Reject(e)
      case Ok(verifyLen) =>
        if |input| < 11 + verifyLen then Pending
        else
          var verify := input[11..11 + verifyLen];
          var expected := cfg.mac(SessionKey(cfg, sessionId), data + DropLast(verify, 10));
          if expected != TakeLast(verify, 10) then Reject(MacMismatch)
          else Accept((), 11 + verifyLen)
  }

  /** The reader accepts exactly when every positional check passes and the
      last 10 Finished bytes are the tag of everything before them; it then
      consumes the 11 bytes and the Finished body of `data[10]` bytes. */
  lemma FinishedAcceptance(cfg: Config, sessionId: Bytes, input: Bytes)
    ensures ParseFinished(cfg, sessionId, input).Accept? <==>
      && |input| >= 11
      && input[0] == CHANGE_CIPHER_SPEC
      && input[1..3] == cfg.tlsVersion
      && input[3..6] == [0, 1, 1]
      && input[6] == HANDSHAKE
      && input[7..9] == cfg.tlsVersion
      && input[9] == 0
      && input[10] >= 10
      && |input| >= 11 + input[10] as int
      && input[11 + input[10] as int - 10..11 + input[10] as int]
         == cfg.mac(SessionKey(cfg, sessionId), input[..11 + input[10] as int - 10])
    ensures ParseFinished(cfg, sessionId, input).Accept? ==>
      ParseFinished(cfg, sessionId, input).used == 11 + input[10] as int
  {
    if |input| >= 11 {
      var data := input[..11];
      assert data[1..3] == input[1..3];
      assert data[3..6] == input[3..6];
      assert data[7..9] == input[7..9];
      BeTwo(data[9..11]);
      var n := input[10] as int;
      if CheckCipherHead(cfg.tlsVersion, data).Ok? && |input| >= 11 + n {
        assert CheckCipherHead(cfg.tlsVersion, data).value == n;
        var verify := input[11..11 + n];
        if n >= 10 {
          assert data + DropLast(verify, 10) == input[..11 + n - 10];
          assert TakeLast(verify, 10) == input[11 + n - 10..11 + n];
        }
      }
    }
  }

  /** The reader waits for more bytes exactly while its 11 head bytes are
      incomplete, or while they pass and the `data[10]` bytes of the Finished
      body are incomplete. */
  lemma FinishedWaits(cfg: Config, sessionId: Bytes, input: Bytes)
    ensures ParseFinished(cfg, sessionId, input).Pending? <==>
      || |input| < 11
      || (CheckCipherHead(cfg.tlsVersion, input[..11]).Ok? && |input| < 11 + input[10] as int)
  {
    if |input| >= 11 {
      var data := input[..11];
      BeTwo(data[9..11]);
      if CheckCipherHead(cfg.tlsVersion, data).Ok? {
        assert CheckCipherHead(cfg.tlsVersion, data).value == input[10] as int;
      }
    }
  }

  /** A Finished body shorter than its 10-byte tag can never match it. */
  lemma ShortFinishedRejected(cfg: Config, sessionId: Bytes, input: Bytes)
    requires |input| >= 11 && input[10] < 10
    ensures !ParseFinished(cfg, sessionId, input).Accept?
  {
    FinishedAcceptance(cfg, sessionId, input);
  }

  /** Once the reader has decided, more input does not change its decision. */
  lemma ParseFinishedExtends(cfg: Config, sessionId: Bytes, input: Bytes, more: Bytes)
    requires !ParseFinished(cfg, sessionId, input).Pending?
    ensures ParseFinished(cfg, sessionId, input + more) == ParseFinished(cfg, sessionId, input)
  {
    var ext := input + more;
    assert ext[..11] == input[..11];
    var data := input[..11];
    if CheckCipherHead(cfg.tlsVersion, data).Ok? {
      var n := CheckCipherHead(cfg.tlsVersion, data).value;
      assert ext[11..11 + n] == input[11..11 + n];
    }
  }

  /** The ChangeCipherSpec and Finished records a client sharing the key
      sends: `pad` is the Finished body before its tag, `tag` the last 10. */
  function ClientFinishedWith(version: Version, pad: Bytes, tag: Bytes): Bytes
    requires |pad| + 10 < 256 && |tag| == 10
  {
    [CHANGE_CIPHER_SPEC] + version + [0, 1, 1] + [HANDSHAKE] + version + Be16(|pad| + 10) + pad + tag
  }

  /** The genuine Finished tag: over the 11 head bytes and the padding. */
  function FinishedTag(cfg: Config, sessionId: Bytes, pad: Bytes): Tag10
    requires |pad| + 10 < 256
  {
    var head := [CHANGE_CIPHER_SPEC] + cfg.tlsVersion + [0, 1, 1] + [HANDSHAKE] + cfg.tlsVersion + Be16(|pad| + 10);
    cfg.mac(SessionKey(cfg, sessionId), head + pad)
  }

  /** A correctly framed ChangeCipherSpec and Finished is accepted, consuming
      exactly those records, if and only if its tag is the genuine one. */
  lemma ClientFinishedOutcome(cfg: Config, sessionId: Bytes, pad: Bytes, tag: Bytes, more: Bytes)
    requires |pad| + 10 < 256 && |tag| == 10
    ensures var records := ClientFinishedWith(cfg.tlsVersion, pad, tag);
      ParseFinished(cfg, sessionId, records + more) ==
        if tag == FinishedTag(cfg, sessionId, pad) then Accept((), |records|) else Reject(MacMismatch)
  {
    var v := cfg.tlsVersion;
    var head := [CHANGE_CIPHER_SPEC] + v + [0, 1, 1] + [HANDSHAKE] + v + Be16(|pad| + 10);
    var records := ClientFinishedWith(v, pad, tag);
    var input := records + more;
    var n := |pad| + 10;
    assert records == head + pad + tag;
    assert input[..11] == head;
    assert head[9..11] == Be16(n);
    assert head[1..3] == v && head[7..9] == v && head[3..6] == [0, 1, 1];
    assert CheckCipherHead(v, head) == Ok(n);
    var verify := input[11..11 + n];
    assert verify == pad + tag;
    assert DropLast(verify, 10) == pad;
    assert TakeLast(verify, 10) == tag;
  }
}
