# hidraw bridge — Dafny model

This project models the control logic of `ex_hidraw`. The program is a
port process that connects an Erlang parent, over stdin and stdout, to one
Linux `hidraw` device. It covers:

- the dispatcher for inbound commands (`device_handle_request`);
- the write loop that drains an output report into the device
  (`device_handle_output_request`);
- the descriptor reply (`device_handle_descriptor_request`);
- the relay of input reports (`device_process`);
- the disconnect event (`device_closed`);
- the per-wake routing of the `poll` loop in `open_device`.

Everything outside this logic is modelled as an oracle:

- The operating system calls are inputs to the model. `write` is a sequence
  of results. `read` is one result together with the buffer contents. Each
  of the two descriptor `ioctl`s has an outcome. `poll` is a sequence of
  wakes, each holding a `revents` set per descriptor. Whether a handler the
  loop starts ends the process is a flag of the round.
- The Erlang `ei` term codec is a value of type `Bridge.Codec`, made of
  function fields. The only law the model assumes is
  `Bridge.DecodesBinaries`: decoding a version marker followed by an
  encoded binary gives that binary back.
- `erlcmd_send` is modelled as the frame that is handed to it.
- A call to `err(EXIT_FAILURE, …)` becomes a `Fatal` status returned to the
  caller.

The model has five modules:

- `Bridge` (`bridge.dfy`) holds the shared constants of `ex_hidraw.h`, the
  codec, the status type and the frame layout predicate `Framed`. A frame
  has a two-byte length slot, then the tag byte, then the codec part.
- `Response` (`response.dfy`) defines the class `ResponseBuffer`. It is the
  in-place `resp[MAX_RESPONSE_SIZE]` array with its `resp_index` cursor.
  Each encoding step appends to it, and its contract states the new frame
  contents.
- `ExHidraw` (`ex_hidraw.dfy`) holds the handlers. The write loop is a
  `while` loop proved against the accepted totals of the results. The frame
  builders fill a `ResponseBuffer`.
- `PollLoop` (`poll_loop.dfy`) holds the per-wake routing, as a function of
  the two `revents` sets, and the `for (;;)` loop over a finite sequence of
  rounds. A round is one wake together with whether each handler it starts
  ends the process through `err`.
- `Scenarios` (`scenarios.dfy`) contains worked client examples. Each one is
  derived from the contracts alone.

In these places the model follows the code as written:

- The command tag is read at offset 2, right after the length slot and
  before the version marker.
- Decoding of an output report starts at offset 3.
- With an empty message, a retryable write error also ends the loop. A
  `continue` in a `do … while` jumps to the condition, and `0 < 0` is
  false.
- An `open` failure other than `EACCES` is not fatal.

## Model

| member | source | states |
|---|---|---|
| Bridge.FramedBinaryRecovered | src/ex_hidraw.c:96-100 | if the codec law holds, a frame whose codec part is a version marker followed by an encoded binary gives the parent exactly that binary back |
| Response.ResponseBuffer.Frame | src/ex_hidraw.c:100 | the frame handed to `erlcmd_send` is the first `resp_index` bytes of `resp`: at least the length slot and at most `MAX_RESPONSE_SIZE` |
| Response.ResponseBuffer.constructor | src/ex_hidraw.c:145 | a fresh response buffer of `MAX_RESPONSE_SIZE` bytes, with its cursor just past the two-byte length slot |
| Response.ResponseBuffer.PutByte | src/ex_hidraw.c:147 | `resp[resp_index++] = b` extends the frame by exactly `b` |
| Response.ResponseBuffer.Append | src/ex_hidraw.c:98-99 | copying bytes at the cursor extends the frame by exactly those bytes, in order, and leaves the earlier bytes unchanged |
| Response.ResponseBuffer.EncodeVersion | src/ex_hidraw.c:98 | `ei_encode_version` extends the frame by exactly the codec's version marker |
| Response.ResponseBuffer.EncodeBinary | src/ex_hidraw.c:99 | `ei_encode_binary` extends the frame by exactly the codec's encoding of the given binary |
| Response.ResponseBuffer.EncodeTupleHeader | src/ex_hidraw.c:149 | `ei_encode_tuple_header` extends the frame by exactly the codec's header for the given arity |
| Response.ResponseBuffer.EncodeAtom | src/ex_hidraw.c:150-151 | `ei_encode_atom` extends the frame by exactly the codec's encoding of the named atom |
| ExHidraw.WriteAll | src/ex_hidraw.c:54-65 | every call is issued at `wrote` and asks for `len - wrote`, and only while no earlier result was fatal and `wrote < len`; the device received the message up to the accepted total, in order; normal exit only once the whole message is written; the status is the process exit exactly when the last call failed with an error other than `EINTR`, `EAGAIN` or `EWOULDBLOCK` |
| ExHidraw.DrainedStops | src/ex_hidraw.c:59-65 | the loop leaves after the first result that is fatal or brings `wrote` to `len`, and at no earlier result |
| ExHidraw.DrainedDeterministic | src/ex_hidraw.c:54-65 | the status, the bytes written and the calls issued are determined by the message and the write results |
| ExHidraw.EmptyMessageOneWrite | src/ex_hidraw.c:55-65 | an empty message costs exactly one `write`, whatever that call returns |
| ExHidraw.ProgressMonotone | src/ex_hidraw.c:64 | `wrote` never decreases from one write to a later one |
| ExHidraw.CallAdvance | src/ex_hidraw.c:56-64 | each call starts where the previous one left off, and a retried call (`EINTR`, `EAGAIN`, `EWOULDBLOCK`) starts at the same offset |
| ExHidraw.OffsetsNondecreasing | src/ex_hidraw.c:56-65 | the offsets of the write calls never decrease and never pass the end of the message |
| ExHidraw.ReceivedIsPrefix | src/ex_hidraw.c:54-65 | the chunks the calls deliver form a prefix of the message, with no gap, repeat or reordering |
| ExHidraw.Message | src/ex_hidraw.c:43-49 | the message is what decoding yields from offset 3 on, past the length slot and the tag |
| ExHidraw.DeviceHandleOutputRequest | src/ex_hidraw.c:37-66 | the decoded message is written by the write loop, with the status, bytes written and calls that loop determines; no reply is sent |
| ExHidraw.DescriptorPayload | src/ex_hidraw.c:76-99 | the reply carries `desc_size` bytes: the queried size, or the stale value when the size ioctl fails; the bytes are the prefix of `rpt_desc.value` when the descriptor ioctl succeeds, and zeros from the `memset` when it fails |
| ExHidraw.DeviceHandleDescriptorRequest | src/ex_hidraw.c:68-101 | whatever either ioctl did, a single frame is built, with tag `'d'` after the length slot, then the version marker, then the binary of the descriptor payload |
| ExHidraw.Route | src/ex_hidraw.c:110-117 | `'d'` selects the descriptor handler and `'o'` the output handler (if and only if); any other tag is kept as unknown |
| ExHidraw.RouteInvertsTagOf | src/ex_hidraw.h:8-11 | every known command tag sends its command to that command's own handler |
| ExHidraw.DeviceHandleRequest | src/ex_hidraw.c:103-118 | the tag is read at offset 2; `'d'` sends one descriptor frame and issues no write; `'o'` sends nothing and has exactly the outcome of the write loop on the decoded message; any other tag sends nothing, issues no write and ends normally |
| ExHidraw.OutputRequestDecodes | src/ex_hidraw.c:43-49 | if the codec law holds, an output request built from a report `m` reaches the output handler, which decodes exactly `m` |
| ExHidraw.DeviceProcess | src/ex_hidraw.c:120-140 | a negative read is fatal and sends nothing; a zero read sends nothing; a positive read sends exactly one frame tagged `'i'` with the version marker and a binary of exactly the bytes read |
| ExHidraw.DeviceClosed | src/ex_hidraw.c:142-153 | a single frame tagged `'e'`, containing the version marker, a tuple header of arity 2, then the atoms `error` and `closed` in that order |
| PollLoop.WakeStep | src/ex_hidraw.c:180-189 | the handlers one wake starts, by the three `revents` tests in source order, and whether the loop breaks |
| PollLoop.WakeStepRouting | src/ex_hidraw.c:180-189 | `erlcmd_process` runs if and only if the control stream reports `POLLIN` or `POLLHUP`; `device_process` if and only if the device reports `POLLIN`; `device_closed` (and the stop) if and only if the device reports `POLLHUP`; the handlers run at most once each, in that order |
| PollLoop.PriorityIgnored | src/ex_hidraw.c:174-189 | a device `POLLPRI` changes nothing, and on its own it starts no handler and does not stop the loop |
| PollLoop.HangupEndsStep | src/ex_hidraw.c:186-189 | a wake with a device hangup ends with `device_closed`, which does not run earlier in that wake |
| PollLoop.RoundActions | src/ex_hidraw.c:180-189 | the handlers one round runs: those of its wake, where a handler that ends the process (src/ex_hidraw.c:62, src/ex_hidraw.c:127-128) leaves the later tests untried |
| PollLoop.RoundOutcome | src/ex_hidraw.c:180-189 | a round runs a prefix of its wake's handlers: all of them when none ends the process, and otherwise up to and including the first that does |
| PollLoop.RoundCloses | src/ex_hidraw.c:186-189 | `device_closed` runs in a round exactly when the device hangs up and no earlier handler of that round ended the process, and then as the round's last handler |
| PollLoop.EndingOf | src/ex_hidraw.c:180-189 | a round leaves the loop through a process exit exactly when one of its handlers ends the process, through the `break` exactly when it closes, and otherwise the loop goes on |
| PollLoop.PerformedSnoc | src/ex_hidraw.c:166-190 | the handlers of one more round follow the handlers of the rounds before it |
| PollLoop.PerformedPrefix | src/ex_hidraw.c:166-190 | serving the next round of a run adds exactly that round's handlers |
| PollLoop.NoHangupNoClose | src/ex_hidraw.c:186-189 | when no round closes, `device_closed` never runs |
| PollLoop.ClosedOnlyAtEnd | src/ex_hidraw.c:166-190 | when only the last round closes, `device_closed` runs exactly once, as the very last handler |
| PollLoop.ExitedAtEnd | src/ex_hidraw.c:180-184 | when the last round ends the process, the last handler run is the one that ended it |
| PollLoop.LoopEnding | src/ex_hidraw.c:166-190 | for a run that ended at its last round: `device_closed` runs once and last on the `break` and never otherwise, and a process exit comes from the last handler run |
| PollLoop.RunLoop | src/ex_hidraw.c:166-190 | the loop ends exactly at the first round that hangs up or ends the process, and serves no later round; it breaks exactly when that round closes; `device_closed` is the last handler on a break and never runs otherwise; on a process exit the last handler run is the one that exited |

## Left out

- `main` and the `enumerate` mode (src/ex_hidraw.c:195-200): they parse arguments and scan the filesystem. The directory-scan helpers are not part of this model.
- The `open` and `getuid` check of `open_device` (src/ex_hidraw.c:160-162): this is operating-system interaction. The code checks `errno` and not `fd`, so an `open` failure other than `EACCES` is not fatal. The model starts once the device is open.
- `erlcmd_init`, `erlcmd_process` and `erlcmd_send`: their sources are not part of this model. Reading and splitting the inbound frames is left out. The two length-slot bytes of every outbound frame are left unspecified in the model, because `erlcmd_send` fills them.
- The Erlang external term format: the codec is abstract. The only law assumed is that decoding a version marker followed by an encoded binary returns that binary. Decode failures in `ei_decode_version` and `ei_decode_binary` are not modelled; the decoder is a total function that may return any bytes.
- The semantics of the `HIDIOCGRDESCSIZE` and `HIDIOCGRDESC` ioctls, and the capacity of `rpt_desc.value`: these come from kernel headers. The capacity is a parameter of the environment, and each ioctl outcome is an oracle value.
- ExHidraw.DeviceHandleDescriptorRequest: requires that `desc_size` (the queried size, or the stale one) is non-negative and fits in `rpt_desc.value`. The source does not check either, so the model does not cover a negative or oversized `desc_size`.
- ExHidraw.DeviceHandleOutputRequest: requires that the decoded message fits in `message[MAX_REPORT_SIZE]`, so the model does not cover the unchecked overrun of that buffer.
- ExHidraw.WriteAll: requires that each `write` accepts at most the bytes it was asked for, which is the contract of `write`. The loop can spin forever on retryable errors or on zero-byte writes. The model bounds it by the finite sequence of write results, so a run that uses up the sequence ends with the status `OracleExhausted`. This status is not an outcome of the source.
- Every frame builder requires that its frame fits in `resp[MAX_RESPONSE_SIZE]`, so the model does not cover an overflow of that buffer.
- PollLoop.RunLoop: `poll` blocking and its ignored return value are not modelled. The loop sees a finite sequence of rounds. A wake with empty `revents` sets stands for a `poll` that returned with nothing to do. The model does not cover a run after that sequence ends.
- PollLoop.Round: whether `erlcmd_process` or `device_process` ends the process in a round is an oracle flag. It is not derived from the `Fatal` statuses of ExHidraw.DeviceHandleRequest and ExHidraw.DeviceProcess, because `erlcmd_process`, which stands between the loop and the dispatcher, is not part of this model.
- `revents` bit masks are modelled as sets of `poll` events. `errno` values are the Linux ones (`EINTR` = 4, `EAGAIN` = `EWOULDBLOCK` = 11).
- `debug` and `perror` logging, and the process exit status after `err`: the model returns a `Fatal` status that names the failing call.
- Concurrency and signals: not modelled. An interrupted `write` is one of the oracle results.
