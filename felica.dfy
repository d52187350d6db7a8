/** The vocabulary shared by the FeliCa emulator and its controllers
    (FakeFelica.cs): command codes, block elements, the events the emulator
    raises and the responses a controller sends. The constants of the Felica
    class are not part of this model; BLOCK_LENGTH and IDM_LENGTH take the
    values every layout in the source assumes. */
module Felica {
  import opened Bytes

  /** Bytes per FeliCa block. */
  const BLOCK_LENGTH: nat := 16
  /** Bytes of an IDm (the manufacture ID). */
  const IDM_LENGTH: nat := 8

  /** FCmd: request codes are even, and each response code is its request's code plus one. */
  const POLL: uint8 := 0x00
  const POLL_RES: uint8 := 0x01
  const REQ_SV: uint8 := 0x02
  const REQ_SV_RES: uint8 := 0x03
  const REQ_RES: uint8 := 0x04
  const REQ_RES_RES: uint8 := 0x05
  const READ_WE: uint8 := 0x06
  const READ_WE_RES: uint8 := 0x07
  const WRITE_WE: uint8 := 0x08
  const WRITE_WE_RES: uint8 := 0x09
  const REQ_SYS: uint8 := 0x0C
  const REQ_SYS_RES: uint8 := 0x0D

  /** BlockElement: the service code (first the service's index in the
      command's list, then the code itself) and the block number. */
  datatype BlockElement = BlockElement(serviceCode: uint16, number: nat)

  /** A call of DoResponse: the response code and the body. */
  datatype Response = Response(cmd: uint8, body: seq<uint8>)

  /** FelicaEventArgs and its subclasses: what the emulator hands its
      controllers for each decoded command. */
  datatype FelicaEvent =
    | PollEvent(systemCode: bv16)
    | ReadEvent(block: seq<BlockElement>)
    | WriteEvent(block: seq<BlockElement>, data: seq<uint8>)
    | ReqSysEvent
  {
    /** The event's `Cmd`. */
    function Cmd(): uint8
    {
      match this
      case PollEvent(_) => POLL
      case ReadEvent(_) => READ_WE
      case WriteEvent(_, _) => WRITE_WE
      case ReqSysEvent => REQ_SYS
    }
  }
}
