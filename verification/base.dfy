// The PLDM base protocol: message headers, completion codes and failure replies.
module Base {
  import opened Bytes

  const HEADER_LEN := 3
  const FAILURE_RESP_LEN := 4

  const TYPE_BASE: byte := 0x00
  const TYPE_FW_UPDATE: byte := 0x05

  const SUCCESS: byte := 0x00
  const ERROR: byte := 0x01
  const INVALID_DATA: byte := 0x02
  const INVALID_LENGTH: byte := 0x03
  const UNSUPPORTED_PLDM_CMD: byte := 0x05
  const INVALID_PLDM_TYPE: byte := 0x20

  /** The errors a platform callback may report. */
  datatype FdOpsError =
    | DeviceIdentifiersError
    | FirmwareParametersError
    | TransferSizeError
    | ComponentError
    | FwDownloadError
    | VerifyError
    | ApplyError
    | ActivateError
    | CancelUpdateError
    | SecurityRevisionError

  /** `MsgHandlerError`: conditions that produce no PLDM reply. */
  datatype HandlerError =
    | Codec(codec: CodecError)
    | PldmCommon
    | Util
    | FdOps(ops: FdOpsError)
    | FdInitiatorModeError
    | NotReady
    | T1Timeout

  /** `PldmMsgHeader` */
  type Header = h: seq<byte> | |h| == HEADER_LEN witness [0, 0, 0]

  // The three header bytes hold request bit, datagram bit, reserved bit and
  // instance id; header version and PLDM type; and the command code.

  function InstanceId(first: byte): byte { first % 0x20 }

  predicate IsRequest(first: byte) { first / 0x80 == 1 }

  function PldmType(second: byte): byte { second % 0x40 }

  predicate IsHeaderVersionValid(second: byte) { second / 0x40 == 0 }

  function RequestHeader(instanceId: byte, pldmType: byte, command: byte): (h: seq<byte>)
    ensures |h| == HEADER_LEN
  {
    [0x80 + instanceId % 0x20, pldmType % 0x40, command]
  }

  function ResponseHeader(instanceId: byte, pldmType: byte, command: byte): (h: seq<byte>)
    ensures |h| == HEADER_LEN
  {
    [instanceId % 0x20, pldmType % 0x40, command]
  }

  /** A payload buffer after a handler has run, with what the handler returned. */
  datatype Handled = Handled(payload: seq<byte>, result: Result<nat, HandlerError>)

  /** Overwrites the front of a buffer, or leaves it alone when the message does not fit. */
  function Overwrite(payload: seq<byte>, message: seq<byte>): Result<seq<byte>, CodecError> {
    if |message| <= |payload| then Ok(message + payload[|message|..]) else Err(BufferTooShort)
  }

  /** `generate_failure_response`: echoes the request's header with the request bit cleared. */
  function Failure(payload: seq<byte>, code: byte): Handled {
    if |payload| < FAILURE_RESP_LEN then
      Handled(payload, Err(Codec(BufferTooShort)))
    else
      Handled([payload[0] % 0x80, payload[1], payload[2], code] + payload[FAILURE_RESP_LEN..], Ok(FAILURE_RESP_LEN))
  }

  /** `decode_failure_code` */
  function DecodeFailureCode(e: CodecError): byte {
    match e
    case BufferTooShort => INVALID_LENGTH
    case InvalidData => INVALID_DATA
    case Unsupported => INVALID_DATA
  }

  /** Encodes a response, falling back to an INVALID_LENGTH failure reply. */
  function Respond(payload: seq<byte>, message: seq<byte>): Handled {
    match Overwrite(payload, message)
    case Ok(p) => Handled(p, Ok(|message|))
    case Err(_) => Failure(payload, INVALID_LENGTH)
  }

  /** What a requester needs of a reply: it fits the buffer, is marked as a response,
      and repeats the request's instance id, type and command. A handler that returns
      an error has left the buffer as it was. */
  ghost predicate Echoes(request: seq<byte>, r: Handled) {
    && |r.payload| == |request|
    && match r.result
       case Err(_) => r.payload == request
       case Ok(n) =>
         && FAILURE_RESP_LEN <= n <= |request|
         && !IsRequest(r.payload[0])
         && InstanceId(r.payload[0]) == InstanceId(request[0])
         && PldmType(r.payload[1]) == PldmType(request[1])
         && r.payload[2] == request[2]
  }

  lemma FailureEchoes(payload: seq<byte>, code: byte)
    ensures Echoes(payload, Failure(payload, code))
    ensures Failure(payload, code).result.Ok? ==> Failure(payload, code).payload[3] == code
  {
  }

  lemma RespondEchoes(payload: seq<byte>, message: seq<byte>)
    requires |payload| >= HEADER_LEN && |message| >= FAILURE_RESP_LEN
    requires message[..3] == ResponseHeader(InstanceId(payload[0]), PldmType(payload[1]), payload[2])
    ensures Echoes(payload, Respond(payload, message))
  {
    if |message| <= |payload| {
      var p := message + payload[|message|..];
      assert p[..3] == message[..3];
      assert p[0] == message[..3][0] && p[1] == message[..3][1] && p[2] == message[..3][2];
    }
  }
}
