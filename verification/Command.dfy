/** Command codes: the first four bytes of every packet. */
module Command {
  import opened Bytes

  datatype Command =
    | Ping | ConfigTransferRate | BinaryTreeSearch | CvRead | CvWrite | Busy
    | ZsuSalsa20IV | ZsuErase | ZsuUpdate | ZsuCrc32Start | ZsuCrc32Result | ZsuCrc32ResultExit
    | ZppValidQuery | ZppLcDcQuery | ZppErase | ZppUpdate | ZppUpdateEnd | ZppExit | ZppExitReset
    | Unknown

  /** Commands that carry the long checksum. */
  predicate HasCrc32(cmd: Command) {
    cmd == ZsuUpdate || cmd == ZppUpdate
  }

  /** The command a packet starting with these four bytes carries. */
  function Decode(b0: Byte, b1: Byte, b2: Byte, b3: Byte): Command {
    if b0 != 0xFF || b1 != 0xFF || b2 != 0xFF then Unknown
    else if b3 == 0xFF then Ping
    else if b3 == 0xFE then ConfigTransferRate
    else if b3 == 0xFA then BinaryTreeSearch
    else if b3 == 0xF6 then CvRead
    else if b3 == 0xF9 then CvWrite
    else if b3 == 0xF2 then Busy
    else if b3 == 0xF7 then ZsuSalsa20IV
    else if b3 == 0xF5 then ZsuErase
    else if b3 == 0xF8 then ZsuUpdate
    else if b3 == 0xFB then ZsuCrc32Start
    else if b3 == 0xFC then ZsuCrc32Result
    else if b3 == 0xFD then ZsuCrc32ResultExit
    else if b3 == 0x06 then ZppValidQuery
    else if b3 == 0x07 then ZppLcDcQuery
    else if b3 == 0x05 then ZppErase
    else if b3 == 0x08 then ZppUpdate
    else if b3 == 0x0B then ZppUpdateEnd
    else if b3 == 0x0C then ZppExit
    else if b3 == 0x0D then ZppExitReset
    else Unknown
  }

  function CommandOf(bytes: seq<Byte>): Command
    requires |bytes| >= 4
  {
    Decode(bytes[0], bytes[1], bytes[2], bytes[3])
  }

  /** The last code byte of a command; the first three are 0xFF. */
  function LastCodeByte(cmd: Command): Byte
    requires cmd != Unknown
  {
    match cmd
    case Ping => 0xFF
    case ConfigTransferRate => 0xFE
    case BinaryTreeSearch => 0xFA
    case CvRead => 0xF6
    case CvWrite => 0xF9
    case Busy => 0xF2
    case ZsuSalsa20IV => 0xF7
    case ZsuErase => 0xF5
    case ZsuUpdate => 0xF8
    case ZsuCrc32Start => 0xFB
    case ZsuCrc32Result => 0xFC
    case ZsuCrc32ResultExit => 0xFD
    case ZppValidQuery => 0x06
    case ZppLcDcQuery => 0x07
    case ZppErase => 0x05
    case ZppUpdate => 0x08
    case ZppUpdateEnd => 0x0B
    case ZppExit => 0x0C
    case ZppExitReset => 0x0D
  }

  /** The four code bytes a packet builder writes. */
  function Code(cmd: Command): seq<Byte>
    requires cmd != Unknown
  {
    [0xFF, 0xFF, 0xFF, LastCodeByte(cmd)]
  }

  lemma CommandOfCode(cmd: Command, data: seq<Byte>)
    requires cmd != Unknown
    ensures CommandOf(Code(cmd) + data) == cmd
  {
    match cmd {
      case Ping => case ConfigTransferRate => case BinaryTreeSearch => case CvRead => case CvWrite => case Busy =>
      case ZsuSalsa20IV => case ZsuErase => case ZsuUpdate => case ZsuCrc32Start => case ZsuCrc32Result =>
      case ZsuCrc32ResultExit => case ZppValidQuery => case ZppLcDcQuery => case ZppErase => case ZppUpdate =>
      case ZppUpdateEnd => case ZppExit => case ZppExitReset =>
    }
  }

  /** Only a command's own code decodes to it. */
  lemma OnlyItsCode(bytes: seq<Byte>)
    requires |bytes| >= 4
    ensures CommandOf(bytes) != Unknown ==> bytes[..4] == Code(CommandOf(bytes))
  {
  }

  /** A code as the number it stands for. */
  lemma {:induction false} CodeValue(cmd: Command)
    requires cmd != Unknown
    ensures BitsValue(AllBits(Code(cmd))) == 0xFFFF_FF00 + ByteValue(LastCodeByte(cmd))
  {
    var a: seq<Byte> := [0xFF];
    assert [] + a == a && a + [0xFF] == [0xFF, 0xFF] && a + [0xFF] + [0xFF] == [0xFF, 0xFF, 0xFF];
    BytesValueSnoc([], 0xFF);
    BytesValueSnoc(a, 0xFF);
    BytesValueSnoc(a + [0xFF], 0xFF);
    BytesValueSnoc(a + [0xFF] + [0xFF], LastCodeByte(cmd));
    assert a + [0xFF] + [0xFF] + [LastCodeByte(cmd)] == Code(cmd);
  }

  /** The codes as the protocol gives them. */
  lemma {:induction false} CodesInNumbers(cmd: Command)
    requires cmd != Unknown
    ensures BitsValue(AllBits(Code(cmd)))
         == match cmd
            case Ping => 0xFFFF_FFFF
            case ConfigTransferRate => 0xFFFF_FFFE
            case BinaryTreeSearch => 0xFFFF_FFFA
            case CvRead => 0xFFFF_FFF6
            case CvWrite => 0xFFFF_FFF9
            case Busy => 0xFFFF_FFF2
            case ZsuSalsa20IV => 0xFFFF_FFF7
            case ZsuErase => 0xFFFF_FFF5
            case ZsuUpdate => 0xFFFF_FFF8
            case ZsuCrc32Start => 0xFFFF_FFFB
            case ZsuCrc32Result => 0xFFFF_FFFC
            case ZsuCrc32ResultExit => 0xFFFF_FFFD
            case ZppValidQuery => 0xFFFF_FF06
            case ZppLcDcQuery => 0xFFFF_FF07
            case ZppErase => 0xFFFF_FF05
            case ZppUpdate => 0xFFFF_FF08
            case ZppUpdateEnd => 0xFFFF_FF0B
            case ZppExit => 0xFFFF_FF0C
            case ZppExitReset => 0xFFFF_FF0D
  {
    CodeValue(cmd);
  }
}
