/** CAN frames and identifiers (src/common/can_msgs.h), and the acceptance filter of src/common/can.h. */
module Messages {
  import opened Words

  /** A CAN data field holds 0 to 8 bytes (CAN Specification 2.0, Part B, section 3.2.1). */
  type Payload = d: seq<byte> | |d| <= 8

  /** `id` carries the 29-bit identifier in its high bits, then IDE, RTR and TXRQ. */
  datatype Frame = Frame(id: bv32, data: Payload)

  datatype Command = ProgReq | ProgDone | Unlock | SelectPage | Seek | Write | CheckWrites | CommitWrites

  datatype Reply = ProgReqResp | ProgDoneAck | Unlocked | PageSelected | WritesChecked | WritesCommitted

  datatype Option<+T> = None | Some(value: T)

  const TX_FILTER_MASK: bv32 := 0xFF000FFC
  const TX_FILTER_ID: bv32 := 0xCA000004
  const RX_FILTER_MASK: bv32 := 0xFF000FFC
  const RX_FILTER_ID: bv32 := 0xCB000004
  const MSGID_MASK: bv32 := 0xFFFFF000

  function CommandId(c: Command): bv32 {
    match c
    case ProgReq => 0xCA001000
    case ProgDone => 0xCA002000
    case Unlock => 0xCA003000
    case SelectPage => 0xCA004000
    case Seek => 0xCA005000
    case Write => 0xCA006000
    case CheckWrites => 0xCA007000
    case CommitWrites => 0xCA008000
  }

  function ReplyId(r: Reply): bv32 {
    match r
    case ProgReqResp => 0xCB001000
    case ProgDoneAck => 0xCB002000
    case Unlocked => 0xCB003000
    case PageSelected => 0xCB004000
    case WritesChecked => 0xCB007000
    case WritesCommitted => 0xCB008000
  }

  /** `cnCANDevMask`. */
  function DevMask(mask: bv32, dev: bv8): bv32 {
    mask | ((dev as bv32) << 4) | 0x00000004
  }

  function CommandFrame(c: Command, dev: bv8, data: Payload): Frame {
    Frame(DevMask(CommandId(c), dev), data)
  }

  function ReplyFrame(r: Reply, dev: bv8, data: Payload): Frame {
    Frame(DevMask(ReplyId(r), dev), data)
  }

  /** The filter a device installs with `cnCANInit`. */
  predicate Accepts(dev: bv8, id: bv32) {
    id & TX_FILTER_MASK == DevMask(TX_FILTER_ID, dev) & TX_FILTER_MASK
  }

  /** The filter a master installs to listen to one device. */
  predicate MasterAccepts(dev: bv8, id: bv32) {
    id & RX_FILTER_MASK == DevMask(RX_FILTER_ID, dev) & RX_FILTER_MASK
  }

  /** The switch of the message pump. */
  function Dispatch(id: bv32): Option<Command> {
    var m := id & MSGID_MASK;
    if m == CommandId(ProgReq) then Some(ProgReq)
    else if m == CommandId(Unlock) then Some(Unlock)
    else if m == CommandId(SelectPage) then Some(SelectPage)
    else if m == CommandId(Seek) then Some(Seek)
    else if m == CommandId(Write) then Some(Write)
    else if m == CommandId(CheckWrites) then Some(CheckWrites)
    else if m == CommandId(CommitWrites) then Some(CommitWrites)
    else if m == CommandId(ProgDone) then Some(ProgDone)
    else None
  }

  // ----- the layout of identifiers -----

  /** The number of a command. Its answer has the same one. */
  function Number(c: Command): bv32 {
    match c
    case ProgReq => 1
    case ProgDone => 2
    case Unlock => 3
    case SelectPage => 4
    case Seek => 5
    case Write => 6
    case CheckWrites => 7
    case CommitWrites => 8
  }

  /** Bits 31..24 say that a master is talking, 23..12 which command it is, 11..4 to which device; of
      the low four only IDE is set. */
  lemma CommandLayout(c: Command, dev: bv8)
    ensures var id := DevMask(CommandId(c), dev);
            && id >> 24 == 0xCA && (id >> 12) & 0xFFF == Number(c)
            && (id >> 4) & 0xFF == dev as bv32 && id & 0xF == 0x4
  {
    hide DevMask, CommandId;
    CommandNumber(c);
    MaskedLayout(CommandId(c), dev);
  }

  lemma CommandNumber(c: Command)
    ensures var id := CommandId(c); id & 0xFFF == 0 && id >> 24 == 0xCA && (id >> 12) & 0xFFF == Number(c)
  {
  }

  lemma MaskedLayout(base: bv32, dev: bv8)
    requires base & 0xFFF == 0
    ensures var id := DevMask(base, dev);
            && id >> 24 == base >> 24 && id >> 12 == base >> 12
            && (id >> 4) & 0xFF == dev as bv32 && id & 0xF == 0x4
  {
  }

  /** The reply to a command, if it has one. */
  function AnswerTo(c: Command): Option<Reply> {
    match c
    case ProgReq => Some(ProgReqResp)
    case ProgDone => Some(ProgDoneAck)
    case Unlock => Some(Unlocked)
    case SelectPage => Some(PageSelected)
    case Seek => None
    case Write => None
    case CheckWrites => Some(WritesChecked)
    case CommitWrites => Some(WritesCommitted)
  }

  /** A reply carries the identifier of the command it answers, with bit 24 set. */
  lemma AnswerLayout(c: Command, dev: bv8)
    ensures AnswerTo(c).Some? ==>
              DevMask(ReplyId(AnswerTo(c).value), dev) == DevMask(CommandId(c), dev) | 0x0100_0000
  {
  }

  /** Exactly what passes the filter of a device: a master's frame with its number, extended, and with
      bit 3 clear. */
  lemma AcceptsExactly(dev: bv8, id: bv32)
    ensures Accepts(dev, id) <==> id >> 24 == 0xCA && (id >> 4) & 0xFF == dev as bv32 && id & 0xC == 0x4
  {
  }

  lemma MasterAcceptsExactly(dev: bv8, id: bv32)
    ensures MasterAccepts(dev, id) <==> id >> 24 == 0xCB && (id >> 4) & 0xFF == dev as bv32 && id & 0xC == 0x4
  {
  }

  /** Exactly what the switch takes for a command: the upper 20 bits decide, and nothing else. */
  lemma DispatchExactly(id: bv32, c: Command)
    ensures Dispatch(id) == Some(c) <==> id >> 24 == 0xCA && (id >> 12) & 0xFFF == Number(c)
  {
  }

  // ----- theorems -----

  /** Masking a device id into a command does not disturb its type. */
  lemma DispatchCommand(c: Command, dev: bv8)
    ensures Dispatch(DevMask(CommandId(c), dev)) == Some(c)
  {
  }

  /** A command is accepted by the device it is addressed to and by no other. */
  lemma CommandAddressing(c: Command, target: bv8, dev: bv8)
    ensures Accepts(dev, DevMask(CommandId(c), target)) <==> target == dev
  {
  }

  /** No device takes a reply for a command, its own included. */
  lemma ReplyNotAccepted(r: Reply, sender: bv8, dev: bv8)
    ensures !Accepts(dev, DevMask(ReplyId(r), sender))
  {
  }

  /** A master listening to one device hears all of its replies, and nothing else. */
  lemma ReplyAddressing(r: Reply, sender: bv8, dev: bv8)
    ensures MasterAccepts(dev, DevMask(ReplyId(r), sender)) <==> sender == dev
  {
  }

  /** A reply identifier determines its type and its sender. */
  lemma ReplyIdentifies(r1: Reply, s1: bv8, r2: Reply, s2: bv8)
    ensures DevMask(ReplyId(r1), s1) == DevMask(ReplyId(r2), s2) <==> r1 == r2 && s1 == s2
  {
    ReplyAddressing(r1, s1, s2);
    ReplyAddressing(r2, s2, s2);
    ReplyType(r1, s1);
    ReplyType(r2, s2);
    ReplyIdInjective(r1, r2);
  }

  lemma ReplyType(r: Reply, dev: bv8)
    ensures DevMask(ReplyId(r), dev) & MSGID_MASK == ReplyId(r)
  {
  }

  lemma ReplyIdInjective(r1: Reply, r2: Reply)
    ensures ReplyId(r1) == ReplyId(r2) <==> r1 == r2
  {
  }

  /** No frame at all is accepted by two devices with different ids. */
  lemma FiltersDisjoint(id: bv32, a: bv8, b: bv8)
    requires Accepts(a, id) && Accepts(b, id)
    ensures a == b
  {
  }
}
