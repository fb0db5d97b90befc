/** The frame builders' in-place response buffer: `resp[MAX_RESPONSE_SIZE]`
    and the `resp_index` cursor that every encoding step advances. */
module Response {
  import opened Bridge

  class ResponseBuffer {
    const resp: array<byte>
    var index: nat

    ghost predicate Valid()
      reads this
    {
      resp.Length == MaxResponseSize && LengthSlot <= index <= resp.Length
    }

    /** What `erlcmd_send(resp, resp_index)` is handed: `resp[0..resp_index)`. */
    function Frame(): (f: seq<byte>)
      reads this, resp
      requires Valid()
      ensures |f| == index && LengthSlot <= |f| <= MaxResponseSize
    {
      resp[..index]
    }

    /** A fresh buffer with the cursor just past the length slot
        (`resp_index = sizeof(uint16_t)`). */
    constructor ()
      ensures Valid() && fresh(resp)
      ensures index == LengthSlot
    {
      resp := new byte[MaxResponseSize];
      index := LengthSlot;
    }

    /** `resp[resp_index++] = b` */
    method PutByte(b: byte)
      requires Valid() && index < resp.Length
      modifies this, resp
      ensures Valid()
      ensures Frame() == old(Frame()) + [b]
    {
      resp[index] := b;
      index := index + 1;
    }

    /** Copies `bytes` into the buffer at the cursor and moves the cursor past
        them: what each `ei_encode_*` call does with the bytes it produces. */
    method Append(bytes: seq<byte>)
      requires Valid() && index + |bytes| <= resp.Length
      modifies this, resp
      ensures Valid()
      ensures Frame() == old(Frame()) + bytes
    {
      var i := 0;
      while i < |bytes|
        invariant 0 <= i <= |bytes|
        invariant index == old(index)
        invariant resp[..index] == old(resp[..index])
        invariant resp[index..index + i] == bytes[..i]
      {
        resp[index + i] := bytes[i];
        i := i + 1;
      }
      index := index + |bytes|;
    }

    /** `ei_encode_version(resp, &resp_index)` */
    method EncodeVersion(c: Codec)
      requires Valid() && index + |c.version| <= resp.Length
      modifies this, resp
      ensures Valid()
      ensures Frame() == old(Frame()) + c.version
    {
      Append(c.version);
    }

    /** `ei_encode_binary(resp, &resp_index, m, |m|)` */
    method EncodeBinary(c: Codec, m: seq<byte>)
      requires Valid() && index + |c.binary(m)| <= resp.Length
      modifies this, resp
      ensures Valid()
      ensures Frame() == old(Frame()) + c.binary(m)
    {
      Append(c.binary(m));
    }

    /** `ei_encode_tuple_header(resp, &resp_index, arity)` */
    method EncodeTupleHeader(c: Codec, arity: nat)
      requires Valid() && index + |c.tupleHeader(arity)| <= resp.Length
      modifies this, resp
      ensures Valid()
      ensures Frame() == old(Frame()) + c.tupleHeader(arity)
    {
      Append(c.tupleHeader(arity));
    }

    /** `ei_encode_atom(resp, &resp_index, name)` */
    method EncodeAtom(c: Codec, name: string)
      requires Valid() && index + |c.atom(name)| <= resp.Length
      modifies this, resp
      ensures Valid()
      ensures Frame() == old(Frame()) + c.atom(name)
    {
      Append(c.atom(name));
    }
  }
}
