/** Shared vocabulary of the HID bridge: bytes, the message tags and buffer
    bounds of ex_hidraw.h, the term codec the bridge uses as a black box, and
    the status a handler hands back to the event loop in place of exiting the
    process. */
module Bridge {

  newtype byte = x: int | 0 <= x < 256

  /** Tags of the messages exchanged with the parent (ex_hidraw.h). */
  const InputReportId: byte := 'i' as byte
  const OutputId: byte := 'o' as byte
  const DescriptorReportId: byte := 'd' as byte
  const ErrorId: byte := 'e' as byte

  /** Capacity of the report buffers and of a response buffer. */
  const MaxReportSize: nat := 8192
  const MaxResponseSize: nat := 65536

  /** Every frame starts with a two-byte length slot (`sizeof(uint16_t)`);
      the tag byte follows it, and the codec part starts one byte later. */
  const LengthSlot: nat := 2

  /** The Erlang term codec, known only through what each of its operations
      appends to (or reads from) a buffer:
      - `version`: the bytes `ei_encode_version` appends;
      - `binary(m)`: the bytes `ei_encode_binary` appends for the binary `m`;
      - `tupleHeader(n)`: the bytes `ei_encode_tuple_header` appends for arity `n`;
      - `atom(s)`: the bytes `ei_encode_atom` appends for the atom named `s`;
      - `decodeBinary(s)`: the binary that `ei_decode_version` followed by
        `ei_decode_binary` yields from the bytes `s` found at the cursor. */
  datatype Codec = Codec(
    version: seq<byte>,
    binary: seq<byte> -> seq<byte>,
    tupleHeader: nat -> seq<byte>,
    atom: string -> seq<byte>,
    decodeBinary: seq<byte> -> seq<byte>)

  /** The one codec law the model relies on where it needs one: decoding a
      version marker followed by an encoded binary gives that binary back. */
  ghost predicate DecodesBinaries(c: Codec)
  {
    forall m :: c.decodeBinary(c.version + c.binary(m)) == m
  }

  /** The call whose failure makes a handler exit the process through
      `err(EXIT_FAILURE, …)`: `write` to the device, or `read from HID Device`. */
  datatype Fault = WriteFault | ReadFault

  /** How a handler ends: normally, with the process exit that `err` performs,
      or because the environment oracle handed to the model ran out before the
      source's loop would have ended. */
  datatype Status = Ok | Fatal(fault: Fault) | OracleExhausted

  /** A codec part `body` fits, after the length slot and the tag, into one
      response buffer. */
  predicate FitsResponse(body: seq<byte>)
  {
    LengthSlot + 1 + |body| <= MaxResponseSize
  }

  /** `frame` is a frame handed to `erlcmd_send` whose tag byte, right after the
      length slot, is `tag` and whose codec part is exactly `body`. */
  predicate Framed(frame: seq<byte>, tag: byte, body: seq<byte>)
  {
    |frame| > LengthSlot && frame[LengthSlot] == tag && frame[LengthSlot + 1..] == body
  }

  /** Under the codec law, a frame whose codec part is a version marker and an
      encoded binary gives the parent exactly that binary back. */
  lemma FramedBinaryRecovered(c: Codec, frame: seq<byte>, tag: byte, payload: seq<byte>)
    requires DecodesBinaries(c)
    requires Framed(frame, tag, c.version + c.binary(payload))
    ensures c.decodeBinary(frame[LengthSlot + 1..]) == payload
  {
  }
}
