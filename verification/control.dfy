// Discovery and control commands: the table of protocol capabilities, what each control
// command makes of a payload, and the check every request passes before dispatch.
module Control {
  import opened Bytes
  import opened Base
  import opened Bitmap

  const INVALID_TRANSFER_OPERATION_FLAG: byte := 0x81
  const INVALID_PLDM_TYPE_IN_REQUEST_DATA: byte := 0x83
  const INVALID_PLDM_VERSION_IN_REQUEST_DATA: byte := 0x84

  const CMD_SET_TID: byte := 0x01
  const CMD_GET_TID: byte := 0x02
  const CMD_GET_PLDM_VERSION: byte := 0x03
  const CMD_GET_PLDM_TYPES: byte := 0x04
  const CMD_GET_PLDM_COMMANDS: byte := 0x05

  const CMDS_BITMAP_LEN := 32
  const TYPES_BITMAP_LEN := 8
  const TYPE_SLOTS := 6
  const GET_FIRST_PART: byte := 1
  const START_AND_END: byte := 5

  /** `PldmSupportedType` */
  const TYPE_CODES: set<byte> := {0x00, 0x02, 0x03, 0x04, 0x05, 0x3F}
  type TypeCode = b: byte | b in TYPE_CODES

  datatype Capability = Capability(pldmType: TypeCode, version: u32, commands: seq<byte>)

  // ---- Lookups in the capability table ----

  function FirstOfType(caps: seq<Capability>, t: TypeCode): Option<Capability> {
    if caps == [] then None
    else if caps[0].pldmType == t then Some(caps[0])
    else FirstOfType(caps[1..], t)
  }

  function FirstVersioned(caps: seq<Capability>, t: TypeCode, v: u32): Option<Capability> {
    if caps == [] then None
    else if caps[0].pldmType == t && caps[0].version == v then Some(caps[0])
    else FirstVersioned(caps[1..], t, v)
  }

  predicate IsSupportedType(caps: seq<Capability>, t: byte) { exists cap :: cap in caps && cap.pldmType == t }

  predicate IsSupportedVersion(caps: seq<Capability>, t: TypeCode, v: u32) {
    exists cap :: cap in caps && cap.pldmType == t && cap.version == v
  }

  predicate IsSupportedCommand(caps: seq<Capability>, t: TypeCode, c: byte) {
    var cap := FirstOfType(caps, t);
    cap.Some? && c in cap.value.commands
  }

  function VersionsOf(caps: seq<Capability>, t: TypeCode): seq<u32> {
    if caps == [] then []
    else (if caps[0].pldmType == t then [caps[0].version] else []) + VersionsOf(caps[1..], t)
  }

  /** The distinct types of a table in order, until the slots run out. */
  function TypesInto(found: seq<byte>, caps: seq<Capability>, slots: nat): seq<byte>
    decreases |caps|
  {
    if caps == [] then found
    else if caps[0].pldmType in found then TypesInto(found, caps[1..], slots)
    else if |found| < slots then TypesInto(found + [caps[0].pldmType], caps[1..], slots)
    else found
  }

  function SupportedTypes(caps: seq<Capability>): seq<byte> { TypesInto([], caps, TYPE_SLOTS) }

  lemma {:induction false} FirstOfTypeExists(caps: seq<Capability>, t: TypeCode)
    ensures FirstOfType(caps, t).Some? <==> IsSupportedType(caps, t)
    ensures FirstOfType(caps, t).Some? ==>
      FirstOfType(caps, t).value in caps && FirstOfType(caps, t).value.pldmType == t
  {
    if caps == [] {
    } else {
      FirstOfTypeExists(caps[1..], t);
      assert caps == [caps[0]] + caps[1..];
    }
  }

  lemma {:induction false} FirstVersionedExists(caps: seq<Capability>, t: TypeCode, v: u32)
    ensures FirstVersioned(caps, t, v).Some? <==> IsSupportedVersion(caps, t, v)
    ensures FirstVersioned(caps, t, v).Some? ==> FirstVersioned(caps, t, v).value in caps
  {
    if caps == [] {
    } else {
      FirstVersionedExists(caps[1..], t, v);
      assert caps == [caps[0]] + caps[1..];
    }
  }

  lemma CodesFit(items: seq<byte>)
    ensures Fits(items, CMDS_BITMAP_LEN)
    ensures (forall i :: 0 <= i < |items| ==> items[i] in TYPE_CODES) ==> Fits(items, TYPES_BITMAP_LEN)
  {
  }

  lemma {:induction false} TypesAreCodes(found: seq<byte>, caps: seq<Capability>, slots: nat)
    requires forall i :: 0 <= i < |found| ==> found[i] in TYPE_CODES
    ensures forall i :: 0 <= i < |TypesInto(found, caps, slots)| ==> TypesInto(found, caps, slots)[i] in TYPE_CODES
    decreases |caps|
  {
    if caps == [] {
    } else {
      if caps[0].pldmType in found {
        TypesAreCodes(found, caps[1..], slots);
      } else if |found| < slots {
        TypesAreCodes(found + [caps[0].pldmType], caps[1..], slots);
      }
    }
  }

  // ---- The responders ----

  /** Encodes a response; when it does not fit nothing is written and no reply goes out. */
  function Direct(payload: seq<byte>, message: seq<byte>): Handled {
    match Overwrite(payload, message)
    case Ok(p) => Handled(p, Ok(|message|))
    case Err(e) => Handled(payload, Err(Codec(e)))
  }

  function ControlHeader(payload: seq<byte>, command: byte): (h: seq<byte>)
    requires |payload| >= HEADER_LEN
    ensures |h| == HEADER_LEN
  {
    ResponseHeader(InstanceId(payload[0]), TYPE_BASE, command)
  }

  function GetTid(tid: byte, payload: seq<byte>): Handled {
    if |payload| < HEADER_LEN then Failure(payload, INVALID_LENGTH)
    else Direct(payload, ControlHeader(payload, CMD_GET_TID) + [SUCCESS, tid])
  }

  function SetTid(payload: seq<byte>): Handled {
    if |payload| < 4 then Failure(payload, INVALID_LENGTH)
    else Direct(payload, ControlHeader(payload, CMD_SET_TID) + [SUCCESS])
  }

  function TypesBitmap(caps: seq<Capability>): (b: seq<byte>)
    ensures |b| == TYPES_BITMAP_LEN
  {
    TypesAreCodes([], caps, TYPE_SLOTS);
    CodesFit(Considered(SupportedTypes(caps), TYPES_BITMAP_LEN));
    BitmapOf(Considered(SupportedTypes(caps), TYPES_BITMAP_LEN), TYPES_BITMAP_LEN)
  }

  function CommandsBitmap(commands: seq<byte>): (b: seq<byte>)
    ensures |b| == CMDS_BITMAP_LEN
  {
    CodesFit(Considered(commands, CMDS_BITMAP_LEN));
    BitmapOf(Considered(commands, CMDS_BITMAP_LEN), CMDS_BITMAP_LEN)
  }

  function GetPldmTypes(caps: seq<Capability>, payload: seq<byte>): Handled {
    if |payload| < HEADER_LEN then Failure(payload, INVALID_LENGTH)
    else Direct(payload, ControlHeader(payload, CMD_GET_PLDM_TYPES) + ([SUCCESS] + TypesBitmap(caps)))
  }

  function GetPldmCommands(caps: seq<Capability>, payload: seq<byte>): Handled {
    if |payload| < 8 then Failure(payload, INVALID_LENGTH)
    else if payload[3] !in TYPE_CODES || !IsSupportedType(caps, payload[3]) then
      Failure(payload, INVALID_PLDM_TYPE_IN_REQUEST_DATA)
    else
      match FirstVersioned(caps, payload[3], FromLe32(payload[4..]))
      case None => Failure(payload, INVALID_PLDM_VERSION_IN_REQUEST_DATA)
      case Some(cap) =>
        Respond(payload, ControlHeader(payload, CMD_GET_PLDM_COMMANDS) + ([SUCCESS] + CommandsBitmap(cap.commands)))
  }

  function GetPldmVersion(caps: seq<Capability>, payload: seq<byte>): Handled {
    if |payload| < 9 then Failure(payload, INVALID_LENGTH)
    else if payload[8] !in TYPE_CODES || !IsSupportedType(caps, payload[8]) then
      Failure(payload, INVALID_PLDM_TYPE_IN_REQUEST_DATA)
    else if payload[7] != GET_FIRST_PART then Failure(payload, INVALID_TRANSFER_OPERATION_FLAG)
    else
      var versions := VersionsOf(caps, payload[8]);
      if versions == [] then Failure(payload, ERROR)
      else
        Respond(payload, [payload[0] % 0x80, payload[1], payload[2]] +
                         ([SUCCESS] + (Le32(0) + ([START_AND_END] + Le32(versions[0])))))
  }

  function ControlCommand(opcode: byte, caps: seq<Capability>, tid: byte, payload: seq<byte>): Handled {
    if opcode == CMD_SET_TID then SetTid(payload)
    else if opcode == CMD_GET_TID then GetTid(tid, payload)
    else if opcode == CMD_GET_PLDM_VERSION then GetPldmVersion(caps, payload)
    else if opcode == CMD_GET_PLDM_TYPES then GetPldmTypes(caps, payload)
    else if opcode == CMD_GET_PLDM_COMMANDS then GetPldmCommands(caps, payload)
    else Failure(payload, UNSUPPORTED_PLDM_CMD)
  }

  function TidAfter(opcode: byte, tid: byte, payload: seq<byte>): byte {
    if opcode == CMD_SET_TID && |payload| >= 4 then payload[3] else tid
  }

  // ---- The check before dispatch ----

  /** `preprocess_request`: the type and command to dispatch on, or a completion code. */
  function Preprocess(caps: seq<Capability>, payload: seq<byte>): Result<(TypeCode, byte), byte> {
    if |payload| < HEADER_LEN then Err(INVALID_DATA)
    else if !IsRequest(payload[0]) || !IsHeaderVersionValid(payload[1]) then Err(INVALID_DATA)
    else
      var t := PldmType(payload[1]);
      if t !in TYPE_CODES || !IsSupportedType(caps, t) then Err(INVALID_PLDM_TYPE)
      else if IsSupportedCommand(caps, t, payload[2]) then Ok((t, payload[2]))
      else Err(UNSUPPORTED_PLDM_CMD)
  }
}
