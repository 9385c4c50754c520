// The control context: the terminus id and the capability table, with the loops that scan
// the table and the responders that overwrite the payload.
module ControlContexts {
  import opened Bytes
  import opened Base
  import opened Bitmap
  import opened Control
  import opened Payloads

  const UNASSIGNED_TID: byte := 0

  /** The handler left its payload in the buffer and returned its result. */
  twostate predicate Replied(h: Handled, buffer: array<byte>, at: nat, new r: Result<nat, HandlerError>)
    requires at <= buffer.Length
    reads buffer
  {
    buffer[..] == old(buffer[..at]) + h.payload && r == h.result
  }

  class ControlContext {
    var tid: byte
    const capabilities: seq<Capability>

    constructor (capabilities: seq<Capability>)
      ensures tid == UNASSIGNED_TID && this.capabilities == capabilities
    {
      this.capabilities := capabilities;
      tid := UNASSIGNED_TID;
    }

    method GetSupportedTypes(types: array<byte>) returns (count: nat)
      modifies types
      ensures count <= types.Length && types[..count] == TypesInto([], capabilities, types.Length)
    {
      count := 0;
      for i := 0 to |capabilities|
        invariant count <= types.Length
        invariant TypesInto([], capabilities, types.Length)
          == TypesInto(types[..count], capabilities[i..], types.Length)
      {
        var pldmType := capabilities[i].pldmType;
        ghost var found := types[..count];
        assert capabilities[i..][1..] == capabilities[i + 1..];
        if pldmType !in types[..count] {
          if count < types.Length {
            types[count] := pldmType;
            count := count + 1;
            assert types[..count] == found + [pldmType];
          } else {
            return;
          }
        }
      }
    }

    method GetProtocolVersions(pldmType: TypeCode, versions: array<u32>) returns (count: nat)
      modifies versions
      ensures var all := VersionsOf(capabilities, pldmType);
        && count == (if |all| < versions.Length then |all| else versions.Length)
        && versions[..count] == all[..count]
    {
      count := 0;
      for i := 0 to |capabilities|
        invariant count <= versions.Length
        invariant VersionsOf(capabilities, pldmType) == versions[..count] + VersionsOf(capabilities[i..], pldmType)
      {
        ghost var found := versions[..count];
        assert capabilities[i..][1..] == capabilities[i + 1..];
        ghost var rest := VersionsOf(capabilities[i + 1..], pldmType);
        if capabilities[i].pldmType == pldmType {
          if count < versions.Length {
            versions[count] := capabilities[i].version;
            count := count + 1;
            assert versions[..count] == found + [capabilities[i].version];
            assert found + ([capabilities[i].version] + rest) == versions[..count] + rest;
          } else {
            return;
          }
        } else {
          assert [] + rest == rest;
        }
      }
    }

    /** Encodes a response; a response that does not fit is an error without a reply. */
    method SendDirect(message: seq<byte>, buffer: array<byte>, at: nat) returns (r: Result<nat, HandlerError>)
      requires at <= buffer.Length
      modifies buffer
      ensures Replied(Direct(old(buffer[at..]), message), buffer, at, r)
    {
      ghost var was := buffer[..];
      var n := EncodeMessage(message, buffer, at);
      EncodedPayload(was, buffer[..], at, message, n);
      return match n case Ok(len) => Ok(len) case Err(e) => Err(Codec(e));
    }

    method GetTidRsp(buffer: array<byte>, at: nat) returns (r: Result<nat, HandlerError>)
      requires at <= buffer.Length
      modifies buffer
      ensures Replied(GetTid(tid, old(buffer[at..])), buffer, at, r)
    {
      if buffer.Length - at < HEADER_LEN {
        r := GenerateFailureResponse(buffer, at, INVALID_LENGTH);
        return;
      }
      r := SendDirect(ControlHeader(buffer[at..], CMD_GET_TID) + [SUCCESS, tid], buffer, at);
    }

    method SetTidRsp(buffer: array<byte>, at: nat) returns (r: Result<nat, HandlerError>)
      requires at <= buffer.Length
      modifies this, buffer
      ensures Replied(SetTid(old(buffer[at..])), buffer, at, r)
      ensures tid == TidAfter(CMD_SET_TID, old(tid), old(buffer[at..]))
    {
      if buffer.Length - at < 4 {
        r := GenerateFailureResponse(buffer, at, INVALID_LENGTH);
        return;
      }
      tid := buffer[at + 3];
      r := SendDirect(ControlHeader(buffer[at..], CMD_SET_TID) + [SUCCESS], buffer, at);
    }

    method GetPldmTypesRsp(buffer: array<byte>, at: nat) returns (r: Result<nat, HandlerError>)
      requires at <= buffer.Length
      modifies buffer
      ensures Replied(GetPldmTypes(capabilities, old(buffer[at..])), buffer, at, r)
    {
      if buffer.Length - at < HEADER_LEN {
        r := GenerateFailureResponse(buffer, at, INVALID_LENGTH);
        return;
      }
      var types := new byte[TYPE_SLOTS](_ => 0);
      var count := GetSupportedTypes(types);
      TypesAreCodes([], capabilities, TYPE_SLOTS);
      CodesFit(Considered(types[..count], TYPES_BITMAP_LEN));
      var bitmap := ConstructBitmap(types[..count], TYPES_BITMAP_LEN);
      r := SendDirect(ControlHeader(buffer[at..], CMD_GET_PLDM_TYPES) + ([SUCCESS] + bitmap), buffer, at);
    }

    method GetPldmCommandsRsp(buffer: array<byte>, at: nat) returns (r: Result<nat, HandlerError>)
      requires at <= buffer.Length
      modifies buffer
      ensures Replied(GetPldmCommands(capabilities, old(buffer[at..])), buffer, at, r)
    {
      hide Failure, Respond, FromLe32, IsSupportedType;
      ghost var was := buffer[..];
      if buffer.Length - at < 8 {
        r := GenerateFailureResponse(buffer, at, INVALID_LENGTH);
        return;
      }
      var pldmType := buffer[at + 3];
      if pldmType !in TYPE_CODES {
        r := GenerateFailureResponse(buffer, at, INVALID_PLDM_TYPE_IN_REQUEST_DATA);
        return;
      }
      if !IsSupportedType(capabilities, pldmType) {
        r := GenerateFailureResponse(buffer, at, INVALID_PLDM_TYPE_IN_REQUEST_DATA);
        return;
      }
      assert buffer[at..][4..] == buffer[at + 4..];
      var version := FromLe32(buffer[at + 4..]);
      FirstVersionedExists(capabilities, pldmType, version);
      if !IsSupportedVersion(capabilities, pldmType, version) {
        r := GenerateFailureResponse(buffer, at, INVALID_PLDM_VERSION_IN_REQUEST_DATA);
        return;
      }
      var commands := FirstVersioned(capabilities, pldmType, version).value.commands;
      CodesFit(Considered(commands, CMDS_BITMAP_LEN));
      var bitmap := ConstructBitmap(commands, CMDS_BITMAP_LEN);
      var message := ControlHeader(buffer[at..], CMD_GET_PLDM_COMMANDS) + ([SUCCESS] + bitmap);
      var n := EncodeMessage(message, buffer, at);
      var sent;
      r, sent := FinishReply(n, buffer, at, was, message);
    }

    method GetPldmVersionRsp(buffer: array<byte>, at: nat) returns (r: Result<nat, HandlerError>)
      requires at <= buffer.Length
      modifies buffer
      ensures Replied(GetPldmVersion(capabilities, old(buffer[at..])), buffer, at, r)
    {
      hide Failure, Respond, IsSupportedType, VersionsOf;
      ghost var was := buffer[..];
      if buffer.Length - at < 9 {
        r := GenerateFailureResponse(buffer, at, INVALID_LENGTH);
        return;
      }
      var pldmType := buffer[at + 8];
      if pldmType !in TYPE_CODES {
        r := GenerateFailureResponse(buffer, at, INVALID_PLDM_TYPE_IN_REQUEST_DATA);
        return;
      }
      if !IsSupportedType(capabilities, pldmType) {
        r := GenerateFailureResponse(buffer, at, INVALID_PLDM_TYPE_IN_REQUEST_DATA);
        return;
      }
      if buffer[at + 7] != GET_FIRST_PART {
        r := GenerateFailureResponse(buffer, at, INVALID_TRANSFER_OPERATION_FLAG);
        return;
      }
      var versions := new u32[2](_ => 0);
      var count := GetProtocolVersions(pldmType, versions);
      if count == 0 {
        r := GenerateFailureResponse(buffer, at, ERROR);
        return;
      }
      assert versions[0] == versions[..count][0] == VersionsOf(capabilities, pldmType)[0];
      var message := [buffer[at] % 0x80, buffer[at + 1], buffer[at + 2]] +
                     ([SUCCESS] + (Le32(0) + ([START_AND_END] + Le32(versions[0]))));
      var n := EncodeMessage(message, buffer, at);
      var sent;
      r, sent := FinishReply(n, buffer, at, was, message);
    }
  }
}
