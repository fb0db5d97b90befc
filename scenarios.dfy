/** Clients of the handler and loop contracts: each scenario is derived from
    the contracts alone, as a caller would see them. */
module Scenarios {
  import opened Bridge
  import opened ExHidraw
  import PollLoop

  /** An output report of four bytes whose first write is interrupted: the
      device still receives exactly those four bytes, in two calls at offset 0. */
  method InterruptedWrite()
  {
    var message: seq<byte> := [1, 2, 3, 4];
    var results := [WriteError(EINTR), Wrote(4)];
    assert Progress(results, 1) == 0 && Progress(results, 2) == 4;
    var status, written, calls := WriteAll(message, results);
    assert status == Ok && written == message;
    assert |calls| == 2 && calls[0] == calls[1] == WriteCall(0, 4);
  }

  /** A short write is resumed at the first byte the device did not take. */
  method ShortWrite()
  {
    var message: seq<byte> := [7, 8, 9];
    var results := [Wrote(1), Wrote(2)];
    assert Progress(results, 1) == 1 && Progress(results, 2) == 3;
    var status, written, calls := WriteAll(message, results);
    assert status == Ok && written == message;
    assert calls == [WriteCall(0, 3), WriteCall(1, 2)];
  }

  /** A device that answers with a non-retryable error kills the process
      before anything reaches it. */
  method BrokenDevice()
  {
    var message: seq<byte> := [5];
    var results := [WriteError(5), Wrote(1)];
    var status, written, calls := WriteAll(message, results);
    DrainedStops(message, results, status, written, calls);
    assert Stops(1, results, 1) && !Stops(1, results, 0);
    assert status == Fatal(WriteFault) && written == [] && |calls| == 1;
  }

  /** A ten-byte report read from the device goes to the parent as one frame
      tagged 'i' carrying exactly those ten bytes. */
  method TenByteReport(c: Codec, buf: seq<byte>)
    requires |buf| == MaxReportSize && FitsResponse(c.version + c.binary(buf[..10]))
  {
    var status, sent := DeviceProcess(c, ReadResult(10, buf));
    assert status == Ok && |sent| == 1;
    assert sent[0][LengthSlot] == InputReportId;
  }

  /** A command with an unknown tag is ignored: no frame, no device write, no
      exit. */
  method UnknownTag(c: Codec, env: RequestEnv)
  {
    var e := DeviceHandleRequest(c, [0, 1, 'x' as byte], env);
    assert e == Effect(Ok, [], [], []);
  }

  /** Data from both sides and then a hangup: the loop serves the command and
      the report of the first round, stops at the second, and never looks at
      the third. */
  method HangupStopsLoop()
  {
    var rounds := [
      PollLoop.Round(PollLoop.Wake({PollLoop.PollIn}, {PollLoop.PollIn}), false, false),
      PollLoop.Round(PollLoop.Wake({}, {PollLoop.PollIn, PollLoop.PollHup}), false, false),
      PollLoop.Round(PollLoop.Wake({PollLoop.PollIn}, {PollLoop.PollIn}), false, false)];
    var performed, served, ending := PollLoop.RunLoop(rounds);
    assert PollLoop.Ends(rounds[1]) && !PollLoop.Ends(rounds[0]);
    assert ending == PollLoop.Closed && served == 2;
    PollLoop.PerformedSnoc([], rounds[0]);
    PollLoop.PerformedSnoc([rounds[0]], rounds[1]);
    assert rounds[..2] == [rounds[0]] + [rounds[1]] && [] + [rounds[0]] == [rounds[0]];
    assert PollLoop.RoundActions(rounds[0]) == [PollLoop.ErlcmdProcess, PollLoop.DeviceProcess];
    assert PollLoop.RoundActions(rounds[1]) == [PollLoop.DeviceProcess, PollLoop.DeviceClosed];
    assert performed == [PollLoop.ErlcmdProcess, PollLoop.DeviceProcess, PollLoop.DeviceProcess, PollLoop.DeviceClosed];
  }

  /** A command whose device write fails fatally ends the process in the
      first round: the report waiting in the same round is never read and
      the hangup in the next round is never seen. */
  method FatalWriteEndsLoop()
  {
    var rounds := [
      PollLoop.Round(PollLoop.Wake({PollLoop.PollIn}, {PollLoop.PollIn}), true, false),
      PollLoop.Round(PollLoop.Wake({}, {PollLoop.PollHup}), false, false)];
    var performed, served, ending := PollLoop.RunLoop(rounds);
    assert PollLoop.Ends(rounds[0]);
    assert ending == PollLoop.Exited && served == 1;
    PollLoop.PerformedSnoc([], rounds[0]);
    assert rounds[..1] == [] + [rounds[0]];
    assert performed == [PollLoop.ErlcmdProcess];
  }

  /** The contract of the write loop pins its outcome down: an empty message
      whose only write fails fatally ends with the process exit, and a
      one-byte message written at once issues no second call. */
  method WriteOutcomesPinned()
  {
    var s1, w1, c1 := WriteAll([], [WriteError(5)]);
    assert Issued(0, [WriteError(5)], 0);
    EmptyMessageOneWrite([WriteError(5)], s1, w1, c1);
    assert s1 == Fatal(WriteFault);
    var results := [Wrote(1), Wrote(0)];
    assert Progress(results, 1) == 1;
    var s2, w2, c2 := WriteAll([9], results);
    DrainedStops([9], results, s2, w2, c2);
    assert Stops(1, results, 1);
    assert s2 == Ok && c2 == [WriteCall(0, 1)];
  }

  /** An output request the parent built from a four-byte report, answered by
      one write that takes all of it, ends normally with the report written
      and no reply sent. */
  method FourByteOutput(c: Codec, m: seq<byte>, env: RequestEnv)
    requires DecodesBinaries(c) && |m| == 4 && env.writes == [Wrote(4)]
  {
    var buf := [0, 0] + [OutputId] + c.version + c.binary(m);
    OutputRequestDecodes(c, [0, 0], m);
    assert Progress(env.writes, 0) == 0 && Progress(env.writes, 1) == 4;
    assert OutputReady(c, buf, env.writes);
    var e := DeviceHandleRequest(c, buf, env);
    DrainedStops(m, env.writes, e.status, e.written, e.calls);
    assert e.status == Ok && e.written == m && e.sent == [];
  }
}
