/** How src/avr/can.c lays identifiers out in the registers of the MCP25625: the filter it installs,
    and the identifiers it reads back. */
module Mcp25625 {
  import opened EidBits
  import opened Messages
  import opened Protocol
  import opened Interleaving
  import opened Timeout

  /** xSIDH, xSIDL, xEID8, xEID0. */
  datatype IdRegisters = IdRegisters(r0: bv8, r1: bv8, r2: bv8, r3: bv8)

  /** `mcpPutEID`. */
  function PutEid(id: bv32): IdRegisters {
    IdRegisters(Sidh(id), Sidl(id), Eid8(id), Eid0(id))
  }

  /** `mcpGetEID`. */
  function GetEid(regs: IdRegisters): bv32 {
    ((regs.r0 as bv32) << 3) | ((regs.r1 as bv32) << 30) | ((regs.r1 as bv32) >> 5)
    | ((regs.r2 as bv32) << 14) | ((regs.r3 as bv32) << 22)
  }

  method McpPutEid(id: bv32, outRegs: array<bv8>)
    requires outRegs.Length >= 4
    modifies outRegs
    ensures IdRegisters(outRegs[0], outRegs[1], outRegs[2], outRegs[3]) == PutEid(id)
    ensures Identifier(PutEid(id)) == IdBits(id) && outRegs[1] & 0x1C == 0x08
    ensures outRegs[4..] == old(outRegs[4..])
  {
    PutLayout(id);
    outRegs[0] := ((id & 0x00003FC0) >> 6) as bv8;
    outRegs[1] := 0x08;
    outRegs[1] := outRegs[1] | ((id & 0xC0000000) >> 30) as bv8;
    outRegs[1] := outRegs[1] | ((id & 0x00000038) << 2) as bv8;
    outRegs[2] := ((id & 0x003FC000) >> 14) as bv8;
    outRegs[3] := ((id & 0x3FC00000) >> 22) as bv8;
  }

  method McpGetEid(regs: array<bv8>) returns (eid: bv32)
    requires regs.Length >= 4
    ensures eid == GetEid(IdRegisters(regs[0], regs[1], regs[2], regs[3]))
    ensures eid & 0x00003800 == 0
  {
    eid := 0;
    eid := eid | ((regs[0] as bv32) << 3);
    eid := eid | ((regs[1] as bv32) << 30);
    eid := eid | ((regs[1] as bv32) >> 5);
    eid := eid | ((regs[2] as bv32) << 14);
    eid := eid | ((regs[3] as bv32) << 22);
  }

  /** Bit 3 of SIDL: an extended frame, or a filter for extended frames. */
  predicate Extended(regs: IdRegisters) {
    regs.r1 & 0x08 == 0x08
  }

  /** The controller's filter: it applies to frames of its own format only, and compares register by
      register under the mask registers. */
  predicate ControllerAccepts(id: IdRegisters, filter: IdRegisters, mask: IdRegisters) {
    && (Extended(id) <==> Extended(filter))
    && Agree(id.r0, filter.r0, mask.r0) && Agree(id.r1, filter.r1, mask.r1)
    && Agree(id.r2, filter.r2, mask.r2) && Agree(id.r3, filter.r3, mask.r3)
  }

  // ----- theorems -----

  /** What a correct reader makes of the registers: each field of the data sheet in its place. */
  function Identifier(regs: IdRegisters): bv32 {
    (((regs.r1 & 0x03) as bv32) << 30) | ((regs.r3 as bv32) << 22) | ((regs.r2 as bv32) << 14)
    | ((regs.r0 as bv32) << 6) | ((regs.r1 as bv32) >> 5 << 3)
  }

  /** The registers hold exactly the 29 identifier bits, each in its field, mark the identifier as an
      extended one, and leave the other bits of SIDL clear. */
  lemma PutLayout(id: bv32)
    ensures Identifier(PutEid(id)) == IdBits(id)
    ensures PutEid(id).r1 & 0x1C == 0x08
  {
  }

  lemma PutExtended(id: bv32)
    ensures Extended(PutEid(id))
  {
  }

  /** So a filter that `cnCANInit` has installed lets no standard frame through. */
  lemma ExtendedOnly(received: IdRegisters, filter: bv32, mask: bv32)
    requires ControllerAccepts(received, PutEid(filter), PutEid(mask))
    ensures Extended(received)
  {
    hide PutEid, Agree;
    PutExtended(filter);
  }

  /** The filter registers mean what `cnCANInit` promises: equality of the masked identifiers, on
      the 29 identifier bits. */
  lemma FilterRefined(id: bv32, filter: bv32, mask: bv32)
    ensures ControllerAccepts(PutEid(id), PutEid(filter), PutEid(mask)) <==> IdBits(id & mask) == IdBits(filter & mask)
  {
    hide Sidh, Sidl, Eid8, Eid0, IdBits, Agree, Extended;
    PutExtended(id);
    PutExtended(filter);
    RegistersCompare(id, filter, mask);
  }

  /** The registers determine exactly the 29 identifier bits. */
  lemma PutInjective(a: bv32, b: bv32)
    ensures PutEid(a) == PutEid(b) <==> IdBits(a) == IdBits(b)
  {
    hide Sidh, Sidl, Eid8, Eid0, IdBits;
    RegistersInjective(a, b);
  }

  /** Reading back moves bits 3..13 of the identifier down by three places. */
  lemma GetAfterPut(id: bv32)
    ensures GetEid(PutEid(id)) == (id & 0xFFFFC000) | ((id & 0x00003FF8) >> 3)
  {
  }

  /** So an identifier survives the registers exactly when those bits are zero. */
  lemma GetInvertsExactly(id: bv32)
    ensures GetEid(PutEid(id)) == IdBits(id) <==> id & 0x00003FF8 == 0
  {
  }

  /** A device with the filter of `cnCANInit` accepts its own commands on this controller, and no others. */
  lemma CommandsPassFilter(c: Command, target: bv8, dev: bv8)
    ensures var id, filter := DevMask(CommandId(c), target), DevMask(TX_FILTER_ID, dev);
            ControllerAccepts(PutEid(id), PutEid(filter), PutEid(TX_FILTER_MASK)) <==> target == dev
  {
    hide PutEid, ControllerAccepts, IdBits;
    FilterRefined(DevMask(CommandId(c), target), DevMask(TX_FILTER_ID, dev), TX_FILTER_MASK);
    CommandShape(c);
    FilteredAddress(CommandId(c), target, dev);
  }

  lemma CommandShape(c: Command)
    ensures CommandId(c) & 0xFF000FFF == 0xCA000000
  {
  }

  /** What the pump makes of a command read through `mcpGetEID`. */
  function ReadBack(c: Command): Option<Command> {
    match c
    case SelectPage => Some(SelectPage)
    case Seek => Some(SelectPage)
    case Write => Some(SelectPage)
    case CheckWrites => Some(SelectPage)
    case CommitWrites => Some(CommitWrites)
    case _ => None
  }

  lemma DispatchReadBack(c: Command, dev: bv8)
    ensures Dispatch(GetEid(PutEid(DevMask(CommandId(c), dev)))) == ReadBack(c)
  {
  }

  /** No register contents whatever are read as a PROG_REQ, an UNLOCK or a PROG_DONE. */
  lemma NeverProgReq(regs: IdRegisters)
    ensures Dispatch(GetEid(regs)) !in {Some(ProgReq), Some(Unlock), Some(ProgDone)}
  {
  }

  ghost predicate FromRegisters(f: Frame) {
    exists regs: IdRegisters :: f.id == GetEid(regs)
  }

  lemma RegistersDispatch(f: Frame)
    requires FromRegisters(f)
    ensures Dispatch(f.id) !in {Some(ProgReq), Some(Unlock), Some(ProgDone)}
  {
    hide Dispatch, GetEid;
    var regs: IdRegisters :| f.id == GetEid(regs);
    NeverProgReq(regs);
  }

  lemma NotContained(frames: seq<Frame>, c: Command)
    requires forall k :: 0 <= k < |frames| ==> FromRegisters(frames[k])
    requires c == ProgReq || c == Unlock || c == ProgDone
    ensures !Contains(frames, c)
  {
    hide Dispatch, FromRegisters;
    forall k | 0 <= k < |frames|
      ensures Dispatch(frames[k].id) != Some(c)
    {
      RegistersDispatch(frames[k]);
    }
  }

  /** So with the receive path as it is, an AVR bootloader never touches its flash, in any schedule and
      whatever is on the bus; it is IDLE until the timer fires and DONE from then on; and wherever the
      timer fires, the pump goes on to the jump. */
  lemma AvrTimesOut(c: Config, actions: seq<Action>, input: Option<Frame>)
    requires Started(c)
    requires forall k :: 0 <= k < |Fetched(c, actions)| ==> FromRegisters(Fetched(c, actions)[k])
    requires input.Some? ==> FromRegisters(input.value)
    ensures var b := After(c, actions);
            && Untouched(c.d.flash, b.d.flash)
            && b.d.mode == if b.d.timer.Armed? then IDLE else DONE
    ensures After(c, actions).d.mode == IDLE ==>
              exists n: nat :: After(c, actions + [Timeout] + Undisturbed(n, input)).next.Jumped?
  {
    hide After, Fetched, Dispatch, FromRegisters, Contains;
    var b := After(c, actions);
    NotContained(Fetched(c, actions), ProgReq);
    NotContained(Fetched(c, actions), Unlock);
    NotContained(Fetched(c, actions), ProgDone);
    HistoryFetched(c, actions);
    UnacceptedUntouched(c, actions);
    IdleOrDone(c, actions);
    if b.d.mode == IDLE {
      InHandIsNotUnlock(c, actions, input);
      TimeoutEndsPump(c, actions, input);
    }
  }

  lemma IdleOrDone(c: Config, actions: seq<Action>)
    requires Started(c) && !After(c, actions).accepted && !After(c, actions).overwritten
    requires !Dismissed(After(c, actions).d)
    ensures After(c, actions).d.mode == if After(c, actions).d.timer.Armed? then IDLE else DONE
  {
    hide After;
    AfterConsistent(c, actions);
  }

  lemma InHandIsNotUnlock(c: Config, actions: seq<Action>, input: Option<Frame>)
    requires Started(c)
    requires forall k :: 0 <= k < |Fetched(c, actions)| ==> FromRegisters(Fetched(c, actions)[k])
    requires input.Some? ==> FromRegisters(input.value)
    ensures InHand(After(c, actions), input) != Some(Unlock)
  {
    hide After, Fetched, Dispatch, FromRegisters;
    if Mid(After(c, actions).next) {
      InHandFetched(c, actions);
      RegistersDispatch(After(c, actions).frame);
    } else if input.Some? {
      RegistersDispatch(input.value);
    }
  }
}
