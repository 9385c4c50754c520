// The payload of a message: the part `buffer[at..]` of the buffer it arrived in, which
// the handlers overwrite with their reply.
module Payloads {
  import opened Bytes
  import opened Base

  /** Encodes a fixed-size message. */
  method EncodeMessage(message: seq<byte>, buffer: array<byte>, at: nat) returns (n: Result<nat, CodecError>)
    requires at <= buffer.Length
    modifies buffer
    ensures Encoded(old(buffer[..]), buffer[..], at, message, n)
  {
    if buffer.Length - at < |message| {
      return Err(BufferTooShort);
    }
    Put(buffer, at, message);
    return Ok(|message|);
  }

  method GenerateFailureResponse(buffer: array<byte>, at: nat, code: byte) returns (r: Result<nat, HandlerError>)
    requires at <= buffer.Length
    modifies buffer
    ensures r == Failure(old(buffer[at..]), code).result
    ensures buffer[..] == old(buffer[..at]) + Failure(old(buffer[at..]), code).payload
  {
    if buffer.Length - at < HEADER_LEN {
      return Err(Codec(BufferTooShort));
    }
    var header := [buffer[at] % 0x80, buffer[at + 1], buffer[at + 2]];
    var n := EncodeMessage(header + [code], buffer, at);
    if n.Err? {
      return Err(Codec(n.error));
    }
    return Ok(n.value);
  }

  /** An encoder that succeeds has overwritten the payload; one that fails has not touched it. */
  lemma EncodedPayload(before: seq<byte>, after: seq<byte>, at: nat, message: seq<byte>, n: Result<nat, CodecError>)
    requires at <= |before| && Encoded(before, after, at, message, n)
    ensures match Overwrite(before[at..], message)
            case Ok(p) => n == Ok(|message|) && after == before[..at] + p
            case Err(e) => n == Err(e) && after == before
  {
  }

  /** The common end of a handler: a response that did not fit becomes a failure reply. */
  method FinishReply(n: Result<nat, CodecError>, buffer: array<byte>, at: nat,
                     ghost was: seq<byte>, ghost message: seq<byte>)
    returns (r: Result<nat, HandlerError>, sent: bool)
    requires at <= |was| == buffer.Length && Encoded(was, buffer[..], at, message, n)
    modifies buffer
    ensures sent == (|message| <= |was[at..]|)
    ensures r == Respond(was[at..], message).result
    ensures buffer[..] == was[..at] + Respond(was[at..], message).payload
  {
    hide Failure, Encoded;
    EncodedPayload(was, buffer[..], at, message, n);
    if n.Ok? {
      return Ok(n.value), true;
    }
    assert buffer[at..] == was[at..] && buffer[..at] == was[..at];
    r := GenerateFailureResponse(buffer, at, INVALID_LENGTH);
    sent := false;
  }
}
