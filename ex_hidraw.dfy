/** The request handlers and event builders of the bridge: the output-report
    write loop, the descriptor reply, the command dispatcher, the input-report
    relay and the disconnect event. OS calls enter as oracle values: the
    results `write` returns, the result and buffer of one `read`, the outcomes
    of the two descriptor ioctls. A call of `err(EXIT_FAILURE, …)` becomes a
    `Fatal` status handed back to the caller. */
module ExHidraw {
  import opened Bridge
  import opened Response

  // ---------------------------------------------------------------------------
  // Output requests: decode one binary and drain it into the device
  // ---------------------------------------------------------------------------

  /** What one `write(fd, message + wrote, len - wrote)` returns: the number of
      bytes the device accepted, or -1 with `errno` set. */
  datatype WriteResult = Wrote(n: nat) | WriteError(errno: int)

  /** Linux errno values the write loop retries on (EWOULDBLOCK is EAGAIN). */
  const EINTR: int := 4
  const EAGAIN: int := 11
  const EWOULDBLOCK: int := 11

  predicate Retryable(errno: int)
  {
    errno == EINTR || errno == EAGAIN || errno == EWOULDBLOCK
  }

  /** A write result that makes the loop call `err(EXIT_FAILURE, "write")`. */
  predicate IsFatal(r: WriteResult)
  {
    r.WriteError? && !Retryable(r.errno)
  }

  /** Bytes a write result adds to `wrote`. */
  function Accepted(r: WriteResult): nat
  {
    if r.Wrote? then r.n else 0
  }

  /** Total bytes accepted by the first `k` write results. */
  function Progress(rs: seq<WriteResult>, k: nat): nat
    requires k <= |rs|
  {
    if k == 0 then 0 else Progress(rs, k - 1) + Accepted(rs[k - 1])
  }

  /** One `write` call as issued: it starts at `offset` into the message and
      asks for `count` bytes. */
  datatype WriteCall = WriteCall(offset: nat, count: nat)

  /** The `i`-th write result is the answer to an issued call: no earlier
      result was fatal, and either it is the first call of the `do … while` or
      the earlier results left `wrote < len`. */
  ghost predicate Issued(len: nat, rs: seq<WriteResult>, i: nat)
    requires i <= |rs|
  {
    (forall j :: 0 <= j < i ==> !IsFatal(rs[j])) && (i == 0 || Progress(rs, i) < len)
  }

  /** The device honours `write`'s contract: an issued call never accepts more
      than the `len - wrote` bytes it was asked for. */
  ghost predicate HonestWrites(len: nat, rs: seq<WriteResult>)
  {
    forall i {:trigger Issued(len, rs, i)} :: 0 <= i < |rs| && Issued(len, rs, i) ==> Accepted(rs[i]) <= len - Progress(rs, i)
  }

  /** `calls` are write calls of the loop over a message of `len` bytes, one
      per result: each is issued at `wrote`, the total the results before it
      accepted, and asks for the remaining `len - wrote` bytes. */
  ghost predicate CallsFollow(len: nat, rs: seq<WriteResult>, calls: seq<WriteCall>)
  {
    |calls| <= |rs| &&
    forall i :: 0 <= i < |calls| ==> calls[i].offset == Progress(rs, i) && calls[i].offset + calls[i].count == len
  }

  /** The binary the output handler decodes: decoding starts at offset 3,
      past the length slot and the tag. */
  function Message(c: Codec, buf: seq<byte>): seq<byte>
    requires |buf| > LengthSlot
  {
    c.decodeBinary(buf[LengthSlot + 1..])
  }

  /** What an output request needs from its environment: the decoded message
      fits `message[MAX_REPORT_SIZE]`, and the device honours `write`. */
  ghost predicate OutputReady(c: Codec, buf: seq<byte>, results: seq<WriteResult>)
    requires |buf| > LengthSlot
  {
    |Message(c, buf)| <= MaxReportSize && HonestWrites(|Message(c, buf)|, results)
  }

  /** The outcome of the `do … while (wrote < len)` loop over `message` when
      `write` returns `results` one by one: `calls` lists every `write`
      issued, `written` what the device accepted, in order. */
  ghost predicate Drained(message: seq<byte>, results: seq<WriteResult>, status: Status, written: seq<byte>, calls: seq<WriteCall>)
  {
    var len := |message|;
    // one call per result used, each issued at `wrote` for the `len - wrote`
    // bytes still missing, and only while no fatal error and `wrote < len`
    && CallsFollow(len, results, calls)
    && (forall i :: 0 <= i < |calls| ==> Issued(len, results, i))
    // the device received the message up to the accepted total, in order
    && Progress(results, |calls|) <= len && written == message[..Progress(results, |calls|)]
    // normal exit only once all of the message is written
    && (status == Ok ==> |calls| > 0 && written == message)
    // `err(EXIT_FAILURE, "write")` exactly when the last call failed fatally
    && (status == Fatal(WriteFault) <==> |calls| > 0 && IsFatal(results[|calls| - 1]))
    && (status == Ok || status == Fatal(WriteFault) || status == OracleExhausted)
    // the results ran out while the loop would have gone on
    && (status == OracleExhausted ==> |calls| == |results| && Issued(len, results, |calls|))
  }

  /** The `do … while (wrote < len)` loop of `device_handle_output_request`. */
  method WriteAll(message: seq<byte>, results: seq<WriteResult>)
    returns (status: Status, written: seq<byte>, calls: seq<WriteCall>)
    requires HonestWrites(|message|, results)
    ensures Drained(message, results, status, written, calls)
  {
    var len := |message|;
    var wrote: nat := 0;
    var k := 0;
    written, calls := [], [];
    while k < |results|
      invariant |calls| == k && CallsFollow(len, results, calls)
      invariant wrote == Progress(results, k) && wrote <= len
      invariant written == message[..wrote]
      invariant forall i :: 0 <= i < k ==> Issued(len, results, i)
      invariant Issued(len, results, k)
    {
      calls := calls + [WriteCall(wrote, len - wrote)];
      var r := results[k];
      assert Accepted(r) <= len - wrote;
      if r.WriteError? {
        if !Retryable(r.errno) {
          status := Fatal(WriteFault);
          assert calls[k] == WriteCall(wrote, len - wrote);
          return;
        }
        // a retryable error: `continue` goes on to the loop condition
      } else {
        written := written + message[wrote..][..r.n];
        wrote := wrote + r.n;
      }
      k := k + 1;
      if !(wrote < len) {
        status := Ok;
        assert !IsFatal(results[k - 1]);
        return;
      }
    }
    status := OracleExhausted;
  }

  /** `k` write results leave the loop: the results ran out, the last one
      was fatal, or the accepted total reached `len`. */
  predicate Stops(len: nat, rs: seq<WriteResult>, k: nat)
  {
    k <= |rs| && (k == |rs| || (k > 0 && (IsFatal(rs[k - 1]) || Progress(rs, k) >= len)))
  }

  /** The loop leaves at the first point where it may: after `|calls|`
      results and at no earlier one. */
  lemma DrainedStops(message: seq<byte>, results: seq<WriteResult>, status: Status, written: seq<byte>, calls: seq<WriteCall>)
    requires Drained(message, results, status, written, calls)
    ensures Stops(|message|, results, |calls|)
    ensures forall k :: 0 <= k < |calls| ==> !Stops(|message|, results, k)
  {
    var len := |message|;
    forall k | 0 <= k < |calls|
      ensures !Stops(len, results, k)
    {
      assert Issued(len, results, k);
    }
  }

  /** The outcome of the loop is a function of the message and the results:
      no two different outcomes meet `Drained`. */
  lemma DrainedDeterministic(message: seq<byte>, results: seq<WriteResult>,
                             s1: Status, w1: seq<byte>, c1: seq<WriteCall>,
                             s2: Status, w2: seq<byte>, c2: seq<WriteCall>)
    requires Drained(message, results, s1, w1, c1)
    requires Drained(message, results, s2, w2, c2)
    ensures s1 == s2 && w1 == w2 && c1 == c2
  {
    DrainedStops(message, results, s1, w1, c1);
    DrainedStops(message, results, s2, w2, c2);
    assert |c1| == |c2|;
    assert forall i :: 0 <= i < |c1| ==> c1[i] == c2[i];
  }

  /** An empty message costs exactly one `write`: the `do` body runs once and
      `0 < 0` ends the loop whatever that call returned. */
  lemma EmptyMessageOneWrite(results: seq<WriteResult>, status: Status, written: seq<byte>, calls: seq<WriteCall>)
    requires Drained([], results, status, written, calls) && |results| > 0
    ensures |calls| == 1
  {
    DrainedStops([], results, status, written, calls);
    // one accepted-or-failed call already leaves the loop
    assert Stops(0, results, 1);
  }

  /** The accepted total only grows from one call to the next. */
  lemma {:induction false} ProgressMonotone(rs: seq<WriteResult>, i: nat, j: nat)
    requires i <= j <= |rs|
    ensures Progress(rs, i) <= Progress(rs, j)
    decreases j - i
  {
    if i < j {
      ProgressMonotone(rs, i, j - 1);
    }
  }

  /** Every call is issued where the previous one left off: a call that
      returned a retryable error is repeated at the same offset. */
  lemma CallAdvance(len: nat, rs: seq<WriteResult>, calls: seq<WriteCall>, i: nat)
    requires CallsFollow(len, rs, calls) && i + 1 < |calls|
    ensures calls[i + 1].offset == calls[i].offset + Accepted(rs[i])
    ensures rs[i].WriteError? ==> calls[i + 1].offset == calls[i].offset
  {
  }

  /** Offsets never decrease, and none passes the end of the message while
      its call's accepted total does not. */
  lemma OffsetsNondecreasing(len: nat, rs: seq<WriteResult>, calls: seq<WriteCall>, i: nat, j: nat)
    requires CallsFollow(len, rs, calls) && i <= j < |calls|
    ensures calls[i].offset <= calls[j].offset <= len
  {
    ProgressMonotone(rs, i, j);
  }

  /** What the device received, call after call: the first `Accepted(rs[i])`
      bytes of the buffer `message + calls[i].offset` handed to the `i`-th
      call. */
  ghost function Received(message: seq<byte>, rs: seq<WriteResult>, calls: seq<WriteCall>): seq<byte>
    requires CallsFollow(|message|, rs, calls) && Progress(rs, |calls|) <= |message|
    decreases |calls|
  {
    if calls == [] then []
    else
      var n := |calls| - 1;
      ProgressMonotone(rs, n, |calls|);
      assert CallsFollow(|message|, rs, calls[..n]);
      Received(message, rs, calls[..n]) + message[calls[n].offset..][..Accepted(rs[n])]
  }

  /** The chunks the calls deliver join up with no gap, repeat or reordering
      into the message's first `Progress` bytes. */
  lemma {:induction false} ReceivedIsPrefix(message: seq<byte>, rs: seq<WriteResult>, calls: seq<WriteCall>)
    requires CallsFollow(|message|, rs, calls) && Progress(rs, |calls|) <= |message|
    ensures Received(message, rs, calls) == message[..Progress(rs, |calls|)]
    decreases |calls|
  {
    if calls != [] {
      var n := |calls| - 1;
      ProgressMonotone(rs, n, |calls|);
      assert CallsFollow(|message|, rs, calls[..n]);
      ReceivedIsPrefix(message, rs, calls[..n]);
      assert message[..Progress(rs, n)] + message[Progress(rs, n)..][..Accepted(rs[n])] == message[..Progress(rs, |calls|)];
    }
  }

  /** `device_handle_output_request`: decode the message after the length
      slot and the tag, then write all of it to the device. No reply is sent. */
  method DeviceHandleOutputRequest(c: Codec, buf: seq<byte>, results: seq<WriteResult>)
    returns (status: Status, written: seq<byte>, calls: seq<WriteCall>)
    requires |buf| > LengthSlot
    requires OutputReady(c, buf, results)
    ensures Drained(Message(c, buf), results, status, written, calls)
  {
    var message := c.decodeBinary(buf[LengthSlot + 1..]);
    status, written, calls := WriteAll(message, results);
  }

  // ---------------------------------------------------------------------------
  // Descriptor requests: two ioctls, then always one reply
  // ---------------------------------------------------------------------------

  /** Outcome of `ioctl(fd, HIDIOCGRDESCSIZE, &desc_size)`. */
  datatype SizeQuery = SizeRead(size: nat) | SizeFailed

  /** Outcome of `ioctl(fd, HIDIOCGRDESC, &rpt_desc)`: on success, the
      contents of `rpt_desc.value` afterwards. */
  datatype DescQuery = DescRead(value: seq<byte>) | DescFailed

  /** The environment of one descriptor request: the value `desc_size` holds
      before the first ioctl (uninitialised in the source, so arbitrary), the
      outcomes of the two ioctls, and the capacity of `rpt_desc.value`. */
  datatype DescriptorEnv = DescriptorEnv(staleSize: nat, sizeQuery: SizeQuery, descQuery: DescQuery, capacity: nat)

  /** The bytes the reply carries: `desc_size` bytes of `rpt_desc.value`,
      which is zero-filled by the `memset` before the ioctls. */
  function DescriptorPayload(env: DescriptorEnv): (p: seq<byte>)
    requires DescriptorFits(env)
    ensures env.sizeQuery.SizeRead? ==> |p| == env.sizeQuery.size
    ensures env.sizeQuery.SizeFailed? ==> |p| == env.staleSize
    ensures env.descQuery.DescRead? ==> p == env.descQuery.value[..|p|]
    ensures env.descQuery.DescFailed? ==> forall i :: 0 <= i < |p| ==> p[i] == 0
  {
    var size := if env.sizeQuery.SizeRead? then env.sizeQuery.size else env.staleSize;
    var value := if env.descQuery.DescRead? then env.descQuery.value else seq(env.capacity, _ => 0);
    value[..size]
  }

  /** `desc_size` stays within `rpt_desc.value`, and a successful ioctl fills
      all of `rpt_desc.value`. */
  predicate DescriptorFits(env: DescriptorEnv)
  {
    (if env.sizeQuery.SizeRead? then env.sizeQuery.size else env.staleSize) <= env.capacity &&
    (env.descQuery.DescRead? ==> |env.descQuery.value| == env.capacity)
  }

  ghost predicate DescriptorReady(c: Codec, env: DescriptorEnv)
  {
    DescriptorFits(env) && FitsResponse(c.version + c.binary(DescriptorPayload(env)))
  }

  /** `device_handle_descriptor_request`: a failing ioctl is only reported
      (`perror`), and one reply is built whatever the ioctls did. */
  method DeviceHandleDescriptorRequest(c: Codec, env: DescriptorEnv) returns (frame: seq<byte>)
    requires DescriptorReady(c, env)
    ensures Framed(frame, DescriptorReportId, c.version + c.binary(DescriptorPayload(env)))
  {
    var value: seq<byte> := seq(env.capacity, _ => 0);  // memset(&rpt_desc, 0x0, …)
    var descSize := env.staleSize;
    if env.sizeQuery.SizeRead? {
      descSize := env.sizeQuery.size;
    }  // else perror("HIDIOCGRDESCSIZE") and go on
    if env.descQuery.DescRead? {
      value := env.descQuery.value;
    }  // else perror("HIDIOCGRDESC") and go on
    var payload := value[..descSize];
    assert payload == DescriptorPayload(env);
    var resp := new ResponseBuffer();
    resp.PutByte(DescriptorReportId);
    resp.EncodeVersion(c);
    resp.EncodeBinary(c, payload);
    frame := resp.Frame();
  }

  // ---------------------------------------------------------------------------
  // Dispatch of one inbound command
  // ---------------------------------------------------------------------------

  /** The commands the dispatcher tells apart by their tag. */
  datatype Command = DescriptorRequest | OutputRequest | Unknown(tag: byte)

  /** The `switch` on the tag byte. */
  function Route(tag: byte): (cmd: Command)
    ensures cmd == DescriptorRequest <==> tag == DescriptorReportId
    ensures cmd == OutputRequest <==> tag == OutputId
    ensures cmd.Unknown? ==> cmd.tag == tag
  {
    if tag == DescriptorReportId then DescriptorRequest
    else if tag == OutputId then OutputRequest
    else Unknown(tag)
  }

  /** The tag the parent puts on a known command. */
  function TagOf(cmd: Command): byte
  {
    match cmd
    case DescriptorRequest => DescriptorReportId
    case OutputRequest => OutputId
    case Unknown(t) => t
  }

  /** Routing inverts tagging: every command reaches its own handler. */
  lemma RouteInvertsTagOf(cmd: Command)
    requires cmd.Unknown? ==> cmd.tag !in {DescriptorReportId, OutputId}
    ensures Route(TagOf(cmd)) == cmd
  {
  }

  /** The environment the handlers of one command see. */
  datatype RequestEnv = RequestEnv(writes: seq<WriteResult>, descriptor: DescriptorEnv)

  /** What handling one command did: how it ended, the frames it sent to the
      parent, the bytes the device accepted and the `write` calls issued. */
  datatype Effect = Effect(status: Status, sent: seq<seq<byte>>, written: seq<byte>, calls: seq<WriteCall>)

  /** `device_handle_request`: read the tag at offset 2 and run the one
      handler it selects; any other tag does nothing at all. */
  method DeviceHandleRequest(c: Codec, buf: seq<byte>, env: RequestEnv) returns (e: Effect)
    requires |buf| > LengthSlot
    requires buf[LengthSlot] == OutputId ==> OutputReady(c, buf, env.writes)
    requires buf[LengthSlot] == DescriptorReportId ==> DescriptorReady(c, env.descriptor)
    ensures buf[LengthSlot] == DescriptorReportId ==>
              e.status == Ok && e.written == [] && e.calls == [] && |e.sent| == 1 &&
              Framed(e.sent[0], DescriptorReportId, c.version + c.binary(DescriptorPayload(env.descriptor)))
    ensures buf[LengthSlot] == OutputId ==>
              e.sent == [] && Drained(Message(c, buf), env.writes, e.status, e.written, e.calls)
    ensures buf[LengthSlot] !in {DescriptorReportId, OutputId} ==> e == Effect(Ok, [], [], [])
  {
    match Route(buf[LengthSlot])
    case DescriptorRequest =>
      var frame := DeviceHandleDescriptorRequest(c, env.descriptor);
      e := Effect(Ok, [frame], [], []);
    case OutputRequest =>
      var status, written, calls := DeviceHandleOutputRequest(c, buf, env.writes);
      e := Effect(status, [], written, calls);
    case Unknown(_) =>
      e := Effect(Ok, [], [], []);
  }

  /** Under the codec law, an output request the parent builds from a report
      `m` reaches the output handler, which decodes exactly `m`. */
  lemma {:induction false} OutputRequestDecodes(c: Codec, slot: seq<byte>, m: seq<byte>)
    requires DecodesBinaries(c) && |slot| == LengthSlot
    ensures Route((slot + [OutputId] + c.version + c.binary(m))[LengthSlot]) == OutputRequest
    ensures Message(c, slot + [OutputId] + c.version + c.binary(m)) == m
  {
    var buf := slot + [OutputId] + c.version + c.binary(m);
    assert buf[LengthSlot + 1..] == c.version + c.binary(m);
  }

  // ---------------------------------------------------------------------------
  // Device events: an input report, or the device going away
  // ---------------------------------------------------------------------------

  /** What `read(fd, buf, MAX_REPORT_SIZE)` returns, and the contents of
      `buf` afterwards. */
  datatype ReadResult = ReadResult(res: int, buf: seq<byte>)

  /** The read bound holds, and an input report frame fits its buffer. */
  ghost predicate ReadReady(c: Codec, r: ReadResult)
  {
    |r.buf| == MaxReportSize && r.res <= MaxReportSize &&
    (r.res > 0 ==> FitsResponse(c.version + c.binary(r.buf[..r.res])))
  }

  /** `device_process`: a failed read is fatal, an empty one relays nothing,
      and otherwise exactly the bytes read go to the parent in one frame. */
  method DeviceProcess(c: Codec, r: ReadResult) returns (status: Status, sent: seq<seq<byte>>)
    requires ReadReady(c, r)
    ensures r.res < 0 ==> status == Fatal(ReadFault) && sent == []
    ensures r.res == 0 ==> status == Ok && sent == []
    ensures r.res > 0 ==> status == Ok && |sent| == 1 && Framed(sent[0], InputReportId, c.version + c.binary(r.buf[..r.res]))
  {
    if r.res < 0 {
      return Fatal(ReadFault), [];
    }
    if r.res == 0 {
      return Ok, [];
    }
    var resp := new ResponseBuffer();
    resp.PutByte(InputReportId);
    resp.EncodeVersion(c);
    resp.EncodeBinary(c, r.buf[..r.res]);
    status, sent := Ok, [resp.Frame()];
  }

  /** The atoms of the disconnect event. */
  const ErrorAtom: string := "error"
  const ClosedAtom: string := "closed"

  /** The codec part of the disconnect event: `{error, closed}`. */
  function ClosedBody(c: Codec): seq<byte>
  {
    c.version + c.tupleHeader(2) + c.atom(ErrorAtom) + c.atom(ClosedAtom)
  }

  /** `device_closed`: one frame tagged `'e'` carrying a 2-tuple of the atoms
      `error` and `closed`, in that order. */
  method DeviceClosed(c: Codec) returns (frame: seq<byte>)
    requires FitsResponse(ClosedBody(c))
    ensures Framed(frame, ErrorId, ClosedBody(c))
  {
    var resp := new ResponseBuffer();
    resp.PutByte(ErrorId);
    resp.EncodeVersion(c);
    resp.EncodeTupleHeader(c, 2);
    resp.EncodeAtom(c, ErrorAtom);
    resp.EncodeAtom(c, ClosedAtom);
    frame := resp.Frame();
  }
}
