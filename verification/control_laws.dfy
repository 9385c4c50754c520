// Discovery tells the truth: what the control commands advertise is what dispatch accepts.
module ControlLaws {
  import opened Bytes
  import opened Base
  import opened Bitmap
  import opened Control

  // ---- Types ----

  predicate Distinct(s: seq<byte>) { forall i, j :: 0 <= i < j < |s| ==> s[i] != s[j] }

  lemma {:induction false} DistinctElements(s: seq<byte>) returns (elements: set<byte>)
    requires Distinct(s)
    ensures |elements| == |s| && forall x :: x in elements <==> x in s
  {
    if s == [] {
      elements := {};
    } else {
      var rest, last := s[..|s| - 1], s[|s| - 1];
      elements := DistinctElements(rest);
      assert s == rest + [last];
      assert last !in rest;
      elements := elements + {last};
    }
  }

  lemma SubsetOfSameSize(a: set<byte>, b: set<byte>)
    requires a <= b && |a| >= |b|
    ensures a == b
  {
    assert b == a + (b - a);
    assert |b| == |a| + |b - a|;
  }

  /** Six slots are enough: once all are taken every type there is has been found. */
  lemma FullSlotsHoldAllTypes(found: seq<byte>, t: TypeCode)
    requires Distinct(found) && |found| >= TYPE_SLOTS
    requires forall i :: 0 <= i < |found| ==> found[i] in TYPE_CODES
    ensures t in found
  {
    var elements := DistinctElements(found);
    SubsetOfSameSize(elements, TYPE_CODES);
  }

  lemma {:induction false} TypesIntoMeaning(found: seq<byte>, caps: seq<Capability>, t: TypeCode)
    requires Distinct(found) && forall i :: 0 <= i < |found| ==> found[i] in TYPE_CODES
    ensures t in TypesInto(found, caps, TYPE_SLOTS) <==> t in found || IsSupportedType(caps, t)
    decreases |caps|
  {
    if caps == [] {
    } else {
      var first := caps[0].pldmType;
      assert caps == [caps[0]] + caps[1..];
      assert IsSupportedType(caps, t) <==> t == first || IsSupportedType(caps[1..], t);
      if first in found {
        TypesIntoMeaning(found, caps[1..], t);
      } else if |found| < TYPE_SLOTS {
        TypesIntoMeaning(found + [first], caps[1..], t);
      } else {
        FullSlotsHoldAllTypes(found, t);
      }
    }
  }

  lemma {:induction false} TypesIntoIsShort(found: seq<byte>, caps: seq<Capability>, slots: nat)
    requires |found| <= slots
    ensures |TypesInto(found, caps, slots)| <= slots
    decreases |caps|
  {
    if caps == [] {
    } else {
      if caps[0].pldmType in found {
        TypesIntoIsShort(found, caps[1..], slots);
      } else if |found| < slots {
        TypesIntoIsShort(found + [caps[0].pldmType], caps[1..], slots);
      }
    }
  }

  /** Bit t of the GetPLDMTypes bitmap is set exactly when type t is supported, whatever the table. */
  lemma TypesBitmapIsExact(caps: seq<Capability>, t: byte)
    requires t as int / 8 < TYPES_BITMAP_LEN
    ensures IsBitSet(TypesBitmap(caps), t) <==> t in TYPE_CODES && IsSupportedType(caps, t)
  {
    var types := SupportedTypes(caps);
    TypesIntoIsShort([], caps, TYPE_SLOTS);
    TypesAreCodes([], caps, TYPE_SLOTS);
    CodesFit(types);
    BitmapMeaning(types, TYPES_BITMAP_LEN, t);
    if t in TYPE_CODES {
      TypesIntoMeaning([], caps, t);
    }
  }

  // ---- Commands ----

  /** Bit c of a GetPLDMCommands bitmap is set exactly when c is among the first 256 commands. */
  lemma CommandsBitmapIsExact(commands: seq<byte>, c: byte)
    ensures IsBitSet(CommandsBitmap(commands), c) <==> c in Considered(commands, CMDS_BITMAP_LEN)
  {
    CodesFit(Considered(commands, CMDS_BITMAP_LEN));
    BitmapMeaning(Considered(commands, CMDS_BITMAP_LEN), CMDS_BITMAP_LEN, c);
  }

  /** The commands GetPLDMCommands advertises for a type and a version it knows. */
  function Advertised(caps: seq<Capability>, t: TypeCode, v: u32): seq<byte>
    requires FirstVersioned(caps, t, v).Some?
  {
    Considered(FirstVersioned(caps, t, v).value.commands, CMDS_BITMAP_LEN)
  }

  /** Dispatch looks only at the first entry of a type, the bitmap at the first one with the
      version asked for: they agree on every command exactly when those two lists do. */
  lemma AdvertisedAgreesIff(caps: seq<Capability>, t: TypeCode, v: u32)
    requires FirstVersioned(caps, t, v).Some?
    ensures FirstOfType(caps, t).Some?
    ensures (forall c :: IsBitSet(CommandsBitmap(FirstVersioned(caps, t, v).value.commands), c)
                    <==> IsSupportedCommand(caps, t, c))
       <==> (forall c :: c in Advertised(caps, t, v) <==> c in FirstOfType(caps, t).value.commands)
  {
    FirstVersionedExists(caps, t, v);
    FirstOfTypeExists(caps, t);
    forall c: byte
      ensures IsBitSet(CommandsBitmap(FirstVersioned(caps, t, v).value.commands), c) <==> c in Advertised(caps, t, v)
    {
      CommandsBitmapIsExact(FirstVersioned(caps, t, v).value.commands, c);
    }
  }

  predicate DistinctTypes(caps: seq<Capability>) {
    forall i, j :: 0 <= i < j < |caps| ==> caps[i].pldmType != caps[j].pldmType
  }

  lemma {:induction false} FirstVersionedType(caps: seq<Capability>, t: TypeCode, v: u32)
    requires FirstVersioned(caps, t, v).Some?
    ensures FirstVersioned(caps, t, v).value.pldmType == t && FirstVersioned(caps, t, v).value.version == v
  {
    if caps[0].pldmType == t && caps[0].version == v {
    } else {
      FirstVersionedType(caps[1..], t, v);
    }
  }

  lemma {:induction false} OneEntryPerType(caps: seq<Capability>, t: TypeCode, v: u32)
    requires DistinctTypes(caps) && FirstVersioned(caps, t, v).Some?
    ensures FirstOfType(caps, t) == FirstVersioned(caps, t, v)
  {
    if caps[0].pldmType == t && caps[0].version != v {
      FirstVersionedExists(caps[1..], t, v);
      FirstVersionedType(caps[1..], t, v);
      assert false;
    } else if caps[0].pldmType != t {
      OneEntryPerType(caps[1..], t, v);
    }
  }

  /** With one entry per type and at most 256 commands in each, the bitmap is what dispatch accepts. */
  lemma DiscoveryAgreesWithDispatch(caps: seq<Capability>, t: TypeCode, v: u32, c: byte)
    requires DistinctTypes(caps) && FirstVersioned(caps, t, v).Some?
    requires |FirstVersioned(caps, t, v).value.commands| <= 256
    ensures IsBitSet(CommandsBitmap(FirstVersioned(caps, t, v).value.commands), c) <==> IsSupportedCommand(caps, t, c)
  {
    OneEntryPerType(caps, t, v);
    CommandsBitmapIsExact(FirstVersioned(caps, t, v).value.commands, c);
  }

  /** Two versions of one type are enough to advertise a command that dispatch refuses. */
  lemma SecondVersionIsNotDispatched()
    ensures exists caps: seq<Capability>, t: TypeCode, v: u32, c: byte :: (
      && FirstVersioned(caps, t, v).Some?
      && IsBitSet(CommandsBitmap(FirstVersioned(caps, t, v).value.commands), c)
      && !IsSupportedCommand(caps, t, c))
  {
    var second := Capability(5, 2, [1]);
    var caps := [Capability(5, 1, []), second];
    assert caps[1..][0] == second;
    assert FirstVersioned(caps, 5, 2) == Some(second);
    CommandsBitmapIsExact(second.commands, 1);
    assert !IsSupportedCommand(caps, 5, 1);
  }

  // ---- Whole exchanges ----

  lemma {:induction false} VersionsStartWithFirst(caps: seq<Capability>, t: TypeCode)
    ensures if FirstOfType(caps, t).Some? then
              VersionsOf(caps, t) != [] && VersionsOf(caps, t)[0] == FirstOfType(caps, t).value.version
            else VersionsOf(caps, t) == []
  {
    if caps == [] {
    } else {
      VersionsStartWithFirst(caps[1..], t);
    }
  }

  lemma {:induction false} FirstHasItsVersion(caps: seq<Capability>, t: TypeCode)
    requires FirstOfType(caps, t).Some?
    ensures FirstVersioned(caps, t, FirstOfType(caps, t).value.version) == FirstOfType(caps, t)
  {
    if caps[0].pldmType == t {
    } else {
      FirstHasItsVersion(caps[1..], t);
    }
  }

  lemma VersionReply(caps: seq<Capability>, ask: seq<byte>)
    requires |ask| >= 13 && ask[7] == GET_FIRST_PART && ask[8] in TYPE_CODES && IsSupportedType(caps, ask[8])
    ensures FirstOfType(caps, ask[8]).Some?
    ensures var r := GetPldmVersion(caps, ask);
      && r.result == Ok(13) && |r.payload| == |ask| && r.payload[3..9] == [0, 0, 0, 0, 0, 5]
      && r.payload[9..13] == Le32(FirstOfType(caps, ask[8]).value.version)
  {
  }

  lemma CommandsReply(caps: seq<Capability>, payload: seq<byte>, cap: Capability)
    requires |payload| >= 36 && payload[3] in TYPE_CODES && IsSupportedType(caps, payload[3])
    requires FirstVersioned(caps, payload[3], FromLe32(payload[4..])) == Some(cap)
    ensures var r := GetPldmCommands(caps, payload);
      && r.result == Ok(36) && |r.payload| == |payload| && r.payload[3] == SUCCESS
      && r.payload[4..36] == CommandsBitmap(cap.commands)
  {
  }

  /** A requester that asks for the version of a supported type, and then for the commands of
      that version, learns exactly which commands dispatch accepts: in any table at all whose
      first entry of the type lists at most 256. */
  lemma DiscoveryIsExact(caps: seq<Capability>, ask: seq<byte>, next: seq<byte>, c: byte)
    requires |ask| >= 13 && ask[7] == GET_FIRST_PART && ask[8] in TYPE_CODES && IsSupportedType(caps, ask[8])
    requires FirstOfType(caps, ask[8]).Some? && |FirstOfType(caps, ask[8]).value.commands| <= 256
    requires |next| >= 36 && next[3] == ask[8] && |GetPldmVersion(caps, ask).payload| >= 13
    requires next[4..8] == GetPldmVersion(caps, ask).payload[9..13]
    ensures var r := GetPldmCommands(caps, next);
      && r.result == Ok(36) && |r.payload| >= 36 && r.payload[3] == SUCCESS
      && (IsBitSet(r.payload[4..36], c) <==> IsSupportedCommand(caps, ask[8], c))
  {
    hide GetPldmVersion, GetPldmCommands, CommandsBitmap, Le32, FromLe32;
    VersionReply(caps, ask);
    var first := FirstOfType(caps, ask[8]).value;
    assert next[4..] == Le32(first.version) + next[8..];
    ReadLe32(first.version, next[8..]);
    FirstHasItsVersion(caps, ask[8]);
    CommandsReply(caps, next, first);
    CommandsBitmapIsExact(first.commands, c);
  }

  // ---- Replies ----

  /** A reply that refuses with this code, or no reply where not even that fits. */
  predicate IsRefusal(payload: seq<byte>, r: Handled, code: byte) {
    if |payload| < 4 then r == Handled(payload, Err(Codec(BufferTooShort)))
    else r == Handled([payload[0] % 0x80, payload[1], payload[2], code] + payload[4..], Ok(4))
  }

  /** The three replies that go out whole or not at all: a payload without room for one is left
      as it is, with an error and no refusal. */
  lemma DirectReplies(caps: seq<Capability>, tid: byte, payload: seq<byte>)
    ensures GetTid(tid, payload) == if |payload| < 5 then Handled(payload, Err(Codec(BufferTooShort)))
                                    else Handled([payload[0] % 0x20, 0x00, 0x02, 0, tid] + payload[5..], Ok(5))
    ensures SetTid(payload) == if |payload| < 4 then Handled(payload, Err(Codec(BufferTooShort)))
                               else Handled([payload[0] % 0x20, 0x00, 0x01, 0] + payload[4..], Ok(4))
    ensures GetPldmTypes(caps, payload) ==
      if |payload| < 12 then Handled(payload, Err(Codec(BufferTooShort)))
      else Handled([payload[0] % 0x20, 0x00, 0x04, 0] + TypesBitmap(caps) + payload[12..], Ok(12))
  {
    hide TypesBitmap;
  }

  /** What GetPLDMVersion refuses: a short request, an unsupported type, any part but the first. */
  lemma VersionRefusals(caps: seq<Capability>, payload: seq<byte>)
    ensures var r := GetPldmVersion(caps, payload);
      if |payload| < 9 then IsRefusal(payload, r, 0x03)
      else if !IsSupportedType(caps, payload[8]) then IsRefusal(payload, r, 0x83)
      else if payload[7] != 1 then IsRefusal(payload, r, 0x81)
      else |payload| < 13 ==> IsRefusal(payload, r, 0x03)
  {
    hide Le32;
    if |payload| >= 9 && payload[8] in TYPE_CODES {
      VersionsStartWithFirst(caps, payload[8]);
      FirstOfTypeExists(caps, payload[8]);
    }
  }

  /** What GetPLDMCommands refuses: a short request, an unsupported type, an unknown version. */
  lemma CommandsRefusals(caps: seq<Capability>, payload: seq<byte>)
    ensures var r := GetPldmCommands(caps, payload);
      if |payload| < 8 then IsRefusal(payload, r, 0x03)
      else if !IsSupportedType(caps, payload[3]) then IsRefusal(payload, r, 0x83)
      else if !IsSupportedVersion(caps, payload[3], FromLe32(payload[4..])) then IsRefusal(payload, r, 0x84)
      else |payload| < 36 ==> IsRefusal(payload, r, 0x03)
  {
    hide CommandsBitmap, FromLe32;
    if |payload| >= 8 && payload[3] in TYPE_CODES {
      FirstVersionedExists(caps, payload[3], FromLe32(payload[4..]));
    }
  }

  lemma ControlReplyEchoes(payload: seq<byte>, opcode: byte, body: seq<byte>)
    requires |payload| >= HEADER_LEN && PldmType(payload[1]) == TYPE_BASE && payload[2] == opcode && body != []
    ensures Echoes(payload, Direct(payload, ControlHeader(payload, opcode) + body))
    ensures Echoes(payload, Respond(payload, ControlHeader(payload, opcode) + body))
  {
  }

  lemma CommandsAnswer(caps: seq<Capability>, payload: seq<byte>)
    requires |payload| >= HEADER_LEN && PldmType(payload[1]) == TYPE_BASE && payload[2] == CMD_GET_PLDM_COMMANDS
    ensures Echoes(payload, GetPldmCommands(caps, payload))
  {
  }

  lemma VersionAnswer(caps: seq<Capability>, payload: seq<byte>)
    requires |payload| >= HEADER_LEN
    ensures Echoes(payload, GetPldmVersion(caps, payload))
  {
  }

  /** Every control reply repeats instance id, type and command; an error writes nothing. */
  lemma ControlAnswers(opcode: byte, caps: seq<Capability>, tid: byte, payload: seq<byte>)
    requires |payload| >= HEADER_LEN && PldmType(payload[1]) == TYPE_BASE && payload[2] == opcode
    ensures Echoes(payload, ControlCommand(opcode, caps, tid, payload))
  {
    hide Failure, Echoes, Direct, Respond, TypesBitmap, CommandsBitmap, ControlHeader, Le32, FromLe32;
    forall code {:trigger Failure(payload, code)} ensures Echoes(payload, Failure(payload, code)) {
      FailureEchoes(payload, code);
    }
    if opcode == CMD_SET_TID {
      ControlReplyEchoes(payload, opcode, [SUCCESS]);
    } else if opcode == CMD_GET_TID {
      ControlReplyEchoes(payload, opcode, [SUCCESS, tid]);
    } else if opcode == CMD_GET_PLDM_TYPES {
      ControlReplyEchoes(payload, opcode, [SUCCESS] + TypesBitmap(caps));
    } else if opcode == CMD_GET_PLDM_COMMANDS {
      CommandsAnswer(caps, payload);
    } else if opcode == CMD_GET_PLDM_VERSION {
      VersionAnswer(caps, payload);
    }
  }
}
