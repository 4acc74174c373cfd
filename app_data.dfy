/** `application_data`: the steady-state loop that reads one application-data
    record at a time and forwards its payload. */
module AppData {
  import opened Bytes
  import opened Protocol

  /** One turn of the loop: read the 5-byte head, check type, version and
      size, read the payload. */
  function ParseRecord(version: Version, input: Bytes): Parse<Bytes>
  {
    if |input| < 5 then Pending
    else if input[0] != APPLICATION_DATA then Reject(NotApplicationData)
    else if input[1..3] != version then Reject(WrongVersion)
    else
      var size := Be(input[3..5]);
      if size != Mask14(size) then Reject(RecordOverflow)
      else if |input| < 5 + size then Pending
      else Accept(input[5..5 + size], 5 + size)
  }

  /** What the loop has done with the bytes received so far: the bytes it
      wrote, the bytes it has not consumed, and the check that stopped it, if
      one did. */
  datatype Relayed = Relayed(out: Bytes, rest: Bytes, error: Option<Error>)

  /** The loop run until it waits for bytes or a check fails. */
  function Relay(version: Version, input: Bytes): Relayed
    decreases |input|
  {
    match ParseRecord(version, input)
    case Pending => Relayed([], input, None)
    case Reject(e) => Relayed([], input, Some(e))
    case Accept(payload, used) =>
      var r := Relay(version, input[used..]);
      Relayed(payload + r.out, r.rest, r.error)
  }

  /** A record head is judged as soon as its 5 bytes are in, before any of
      the payload: wrong type, wrong version, or a size over 2^14 - 1 rejects. */
  lemma RecordHeadRejected(version: Version, head: Bytes, more: Bytes)
    requires |head| == 5
    ensures head[0] != APPLICATION_DATA ==> ParseRecord(version, head + more) == Reject(NotApplicationData)
    ensures head[0] == APPLICATION_DATA && head[1..3] != version ==>
      ParseRecord(version, head + more) == Reject(WrongVersion)
    ensures head[0] == APPLICATION_DATA && head[1..3] == version && Be(head[3..]) > MAX_FRAGMENT ==>
      ParseRecord(version, head + more) == Reject(RecordOverflow)
  {
    var input := head + more;
    assert input[1..3] == head[1..3];
    assert input[3..5] == head[3..];
    Mask14Admits(Be(head[3..]));
  }

  /** One turn waits for more bytes exactly while the head is incomplete,
      or while the head passes and the payload it announces is incomplete. */
  lemma RecordWaits(version: Version, input: Bytes)
    ensures ParseRecord(version, input).Pending? <==>
      || |input| < 5
      || (&& input[0] == APPLICATION_DATA && input[1..3] == version
          && Be(input[3..5]) <= MAX_FRAGMENT && |input| < 5 + Be(input[3..5]))
  {
    if |input| >= 5 {
      Mask14Admits(Be(input[3..5]));
    }
  }

  /** The loop stops only where the unread bytes begin with an incomplete
      record (no error) or with a record it rejects (that error); the unread
      bytes are a suffix of the input and the output is no longer than the
      bytes consumed. */
  lemma {:induction false} RelayStops(version: Version, input: Bytes)
    ensures var r := Relay(version, input);
      && |r.rest| <= |input| && input[|input| - |r.rest|..] == r.rest
      && |r.out| <= |input| - |r.rest|
      && (r.error.None? ==> ParseRecord(version, r.rest).Pending?)
      && (r.error.Some? ==> ParseRecord(version, r.rest) == Reject(r.error.value))
  {
    match ParseRecord(version, input)
    case Pending =>
    case Reject(e) =>
    case Accept(payload, used) =>
      RelayStops(version, input[used..]);
  }

  /** Once a record is decided, more input does not change the decision. */
  lemma ParseRecordExtends(version: Version, input: Bytes, more: Bytes)
    requires !ParseRecord(version, input).Pending?
    ensures ParseRecord(version, input + more) == ParseRecord(version, input)
  {
    var ext := input + more;
    assert ext[1..3] == input[1..3];
    assert ext[3..5] == input[3..5];
    var size := Be(input[3..5]);
    if |input| >= 5 + size {
      assert ext[5..5 + size] == input[5..5 + size];
    }
  }

  /** One accepted record: its payload, then the loop on what follows. */
  lemma RelayAccepted(version: Version, input: Bytes)
    requires ParseRecord(version, input).Accept?
    ensures var p := ParseRecord(version, input); var r := Relay(version, input[p.used..]);
      Relay(version, input) == Relayed(p.value + r.out, r.rest, r.error)
  {
  }

  /** Bytes arriving in two pieces give the same output, in the same order,
      as the concatenation arriving at once: the loop picks up on the unread
      bytes plus the new ones, unless it had already stopped on an error. */
  ghost predicate RelayExtendsAt(version: Version, input: Bytes, more: Bytes)
  {
    var r := Relay(version, input);
    && (r.error.Some? ==> Relay(version, input + more) == Relayed(r.out, r.rest + more, r.error))
    && (r.error.None? ==>
          var later := Relay(version, r.rest + more);
          Relay(version, input + more) == Relayed(r.out + later.out, later.rest, later.error))
  }

  /** Feeding the loop in two pieces is feeding it the whole at once. */
  lemma {:induction false} RelayExtends(version: Version, input: Bytes, more: Bytes)
    ensures RelayExtendsAt(version, input, more)
    decreases |input|
  {
    var p := ParseRecord(version, input);
    if p.Pending? {
      assert Relay(version, input) == Relayed([], input, None);
      assert [] + Relay(version, input + more).out == Relay(version, input + more).out;
    } else if p.Reject? {
      ParseRecordExtends(version, input, more);
    } else {
      assert RelayExtendsAt(version, input[p.used..], more) by {
        RelayExtends(version, input[p.used..], more);
      }
      RelayExtendsStep(version, input, more);
    }
  }

  /** The inductive step of `RelayExtends`: past one accepted record. */
  lemma RelayExtendsStep(version: Version, input: Bytes, more: Bytes)
    requires ParseRecord(version, input).Accept?
    requires RelayExtendsAt(version, input[ParseRecord(version, input).used..], more)
    ensures RelayExtendsAt(version, input, more)
  {
    var ext := input + more;
    var p := ParseRecord(version, input);
    var used := p.used;
    var inner := Relay(version, input[used..]);
    var innerExt := Relay(version, input[used..] + more);
    var later := Relay(version, inner.rest + more);
    var r := Relay(version, input);
    var rExt := Relay(version, ext);
    assert r == Relayed(p.value + inner.out, inner.rest, inner.error) by {
      RelayAccepted(version, input);
    }
    assert rExt == Relayed(p.value + innerExt.out, innerExt.rest, innerExt.error) by {
      ParseRecordExtends(version, input, more);
      assert ext[used..] == input[used..] + more;
      RelayAccepted(version, ext);
    }
    ExtendsPastRecord(p.value, more, inner, innerExt, r, rExt, later);
  }

  /** The bookkeeping of `RelayExtendsStep`, on the loop's results alone. */
  lemma ExtendsPastRecord(payload: Bytes, more: Bytes, inner: Relayed, innerExt: Relayed, r: Relayed, rExt: Relayed, later: Relayed)
    requires r == Relayed(payload + inner.out, inner.rest, inner.error)
    requires rExt == Relayed(payload + innerExt.out, innerExt.rest, innerExt.error)
    requires inner.error.Some? ==> innerExt == Relayed(inner.out, inner.rest + more, inner.error)
    requires inner.error.None? ==> innerExt == Relayed(inner.out + later.out, later.rest, later.error)
    ensures r.error.Some? ==> rExt == Relayed(r.out, r.rest + more, r.error)
    ensures r.error.None? ==> rExt == Relayed(r.out + later.out, later.rest, later.error)
  {
    if inner.error.None? {
      assert payload + (inner.out + later.out) == (payload + inner.out) + later.out;
    }
  }

  /** The application-data record that carries `payload`. */
  function AppRecord(version: Version, payload: Bytes): Bytes
    requires |payload| <= MAX_FRAGMENT
  {
    [APPLICATION_DATA] + version + Be16(|payload|) + payload
  }

  lemma ParseAppRecord(version: Version, payload: Bytes, more: Bytes)
    requires |payload| <= MAX_FRAGMENT
    ensures ParseRecord(version, AppRecord(version, payload) + more) == Accept(payload, 5 + |payload|)
  {
    var input := AppRecord(version, payload) + more;
    assert input[1..3] == version;
    assert input[3..5] == Be16(|payload|);
    Mask14Admits(|payload|);
    assert input[5..5 + |payload|] == payload;
  }

  /** Relaying one well-formed record writes its payload and goes on with
      what follows it. */
  lemma RelayAppRecord(version: Version, payload: Bytes, more: Bytes)
    requires |payload| <= MAX_FRAGMENT
    ensures var after := Relay(version, more);
      Relay(version, AppRecord(version, payload) + more) == Relayed(payload + after.out, after.rest, after.error)
  {
    var input := AppRecord(version, payload) + more;
    ParseAppRecord(version, payload, more);
    assert input[5 + |payload|..] == more;
  }

  /** A well-formed record in front of bytes that relay to `rest` and then
      to `after` relays to its payload, then `rest`, then `after`. */
  lemma RelayRecordThen(version: Version, payload: Bytes, tail: Bytes, rest: Bytes, after: Relayed)
    requires |payload| <= MAX_FRAGMENT
    requires Relay(version, tail) == Relayed(rest + after.out, after.rest, after.error)
    ensures Relay(version, AppRecord(version, payload) + tail) == Relayed((payload + rest) + after.out, after.rest, after.error)
  {
    RelayAppRecord(version, payload, tail);
    assert payload + (rest + after.out) == (payload + rest) + after.out;
  }

  /** The outbound direction: the stream cut into chunks of at most 2^14 - 1
      bytes, each wrapped as an application-data record. (Not part of the
      parser; a reference for what it accepts.) */
  function FrameChunks(version: Version, data: Bytes): Bytes
    decreases |data|
  {
    if data == [] then []
    else
      var n := Min(|data|, MAX_FRAGMENT);
      AppRecord(version, data[..n]) + FrameChunks(version, data[n..])
  }

  /** Relaying framed data writes the data back unchanged, then goes on with
      whatever follows the frames. */
  lemma {:induction false} RelayFrameChunks(version: Version, data: Bytes, more: Bytes)
    ensures var after := Relay(version, more);
      Relay(version, FrameChunks(version, data) + more) == Relayed(data + after.out, after.rest, after.error)
    decreases |data|
  {
    var after := Relay(version, more);
    if data == [] {
      assert FrameChunks(version, data) + more == more;
      assert data + after.out == after.out;
    } else {
      var n := Min(|data|, MAX_FRAGMENT);
      var tail := FrameChunks(version, data[n..]) + more;
      assert Relay(version, AppRecord(version, data[..n]) + tail)
          == Relayed((data[..n] + data[n..]) + after.out, after.rest, after.error) by {
        RelayFrameChunks(version, data[n..], more);
        RelayRecordThen(version, data[..n], tail, data[n..], after);
      }
      assert data[..n] + data[n..] == data;
      assert FrameChunks(version, data) + more == AppRecord(version, data[..n]) + tail;
    }
  }

  /** Records of arbitrary valid payloads: the loop writes exactly the
      payloads, in order, with the 5-byte heads stripped. */
  function Records(version: Version, payloads: seq<Bytes>): Bytes
    requires forall i :: 0 <= i < |payloads| ==> |payloads[i]| <= MAX_FRAGMENT
  {
    if payloads == [] then [] else AppRecord(version, payloads[0]) + Records(version, payloads[1..])
  }

  function Flatten(payloads: seq<Bytes>): Bytes
  {
    if payloads == [] then [] else payloads[0] + Flatten(payloads[1..])
  }

  lemma {:induction false} RelayRecords(version: Version, payloads: seq<Bytes>)
    requires forall i :: 0 <= i < |payloads| ==> |payloads[i]| <= MAX_FRAGMENT
    ensures Relay(version, Records(version, payloads)) == Relayed(Flatten(payloads), [], None)
  {
    if payloads != [] {
      var none := Relayed([], [], None);
      RelayRecords(version, payloads[1..]);
      assert Flatten(payloads[1..]) + none.out == Flatten(payloads[1..]);
      RelayRecordThen(version, payloads[0], Records(version, payloads[1..]), Flatten(payloads[1..]), none);
      assert (payloads[0] + Flatten(payloads[1..])) + none.out == Flatten(payloads);
    }
  }
}
