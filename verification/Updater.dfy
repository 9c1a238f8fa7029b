/** The updater inside the running core: packets arrive over UDP and a new image is staged. */
module Updater {
  import opened Arithmetic
  import opened Flash
  import opened Bootloader

  const RX_UPD_PACKET_SIZE := 512
  const ALL_OK: byte := 0
  const FLASH_WRITE_ERR := 1
  const UPDATER_UNREC_CMD: byte := 3
  const GENERAL_ERROR: byte := 4

  type Buffer = b: seq<byte> | |b| == RX_UPD_PACKET_SIZE witness seq(RX_UPD_PACKET_SIZE, _ => 0)

  const UPD: seq<byte> := [0x75, 0x70, 0x64]
  const VER: seq<byte> := [0x76, 0x65, 0x72]
  const DEL: seq<byte> := [0x64, 0x65, 0x6C]
  const CRC: seq<byte> := [0x63, 0x72, 0x63]
  const REB: seq<byte> := [0x72, 0x65, 0x62]

  datatype Reply = Silent | Ack | Nack

  /** A received datagram, and the value the CRC unit would give if it is asked for one. */
  datatype Packet = Packet(payload: seq<byte>, crc: Word)

  datatype State = State(chip: Chip, upd: bool, errno: nat, crcVal: Word,
                         addr: nat, total: nat, rx: Buffer)

  /** The updater as a core starts it after a reset. */
  function Fresh(c: Chip): State {
    State(c, false, 0, [0, 0, 0, 0], NEW_IMAGE, HEADER_SIZE, seq(RX_UPD_PACKET_SIZE, _ => 0))
  }

  // ---------- the packet handlers as functions of the state ----------

  /** The loop of write_header and of write_core_chunk, from word offset `i` on.  The last word is
      read whole from the receive buffer, past `count` if that is not a multiple of four. */
  function WriteWords(dev: Device, c: Chip, addr: nat, buf: Buffer, i: nat, count: nat): (Chip, bool)
    requires i % 4 == 0 && count <= RX_UPD_PACKET_SIZE
    decreases count - i
  {
    if i >= count then (c, true)
    else
      var (c', ok) := Program(dev, c, addr + i, buf[i..i + 4]);
      if ok then WriteWords(dev, c', addr, buf, i + 4, count) else (c', false)
  }

  /** The pages `del` erases: a floored count, narrowed to 8 bits, but at least one. */
  function DelPages(total: nat): byte {
    var pages := total / PAGE_SIZE % 0x100;
    if pages < 1 then 1 else pages
  }

  /** upd_calc_crc: the unit is fed `total` words, and then its value is programmed. */
  function CalcCrc(dev: Device, s: State, crc: Word): State {
    if !InFlash(NEW_CORE, 4 * s.total) then
      s.(chip := s.chip.(alive := false), errno := FLASH_WRITE_ERR, crcVal := ERASED)
    else
      var (c, ok) := Program(dev, s.chip, NEW_CORE + s.total, crc);
      if ok then s.(chip := c, crcVal := crc) else s.(chip := c, errno := FLASH_WRITE_ERR, crcVal := ERASED)
  }

  function Stored(s: State, c: Chip, ok: bool): (State, byte) {
    if ok then (s.(chip := c), ALL_OK) else (s.(chip := c, errno := FLASH_WRITE_ERR), GENERAL_ERROR)
  }

  /** handle_upd_packet on the first `count` bytes of the receive buffer. */
  function Handle(dev: Device, s: State, count: nat, crc: Word): (State, byte)
    requires count <= RX_UPD_PACKET_SIZE
  {
    if count == HEADER_SIZE then
      if s.rx[..3] != VER then (s, UPDATER_UNREC_CMD)
      else
        var (c, ok) := WriteWords(dev, s.chip, NEW_CORE, s.rx, 0, HEADER_SIZE);
        Stored(s, c, ok)
    else if count == 3 then
      if s.rx[..3] == DEL then
        var (c, code) := EraseSector(dev, s.chip, NEW_CORE, DelPages(s.total));
        (s.(chip := c), code)
      else if s.rx[..3] == CRC then (CalcCrc(dev, s, crc), ALL_OK)
      else if s.rx[..3] == REB then (s.(chip := s.chip.(alive := false)), ALL_OK)
      else (s, UPDATER_UNREC_CMD)
    else
      var (c, ok) := WriteWords(dev, s.chip, s.addr, s.rx, 0, count);
      var (t, code) := Stored(s, c, ok);
      (if ok then t.(addr := U32(s.addr + count), total := U32(s.total + count)) else t, code)
  }

  /** udp_upd_receive_callback; a CPU that is no longer running sends nothing. */
  function Receive(dev: Device, s: State, p: Packet): (State, Reply) {
    var n := |p.payload|;
    if n > RX_UPD_PACKET_SIZE then (s, Silent)
    else
      var s1 := s.(rx := p.payload + s.rx[n..]);
      if s.upd then
        var (t, code) := Handle(dev, s1, n, p.crc);
        (t, if !t.chip.alive then Silent else if code == ALL_OK then Ack else Nack)
      else if s1.rx[..3] == UPD && n == 3 then
        (s1.(upd := true), if s.chip.alive then Ack else Silent)
      else (s1, Silent)
  }

  /** A run of the updater, up to the packet that reboots it or finds it without power. */
  function Run(dev: Device, s: State, ps: seq<Packet>): State
    decreases |ps|
  {
    if ps == [] || !s.chip.alive then s else Run(dev, Receive(dev, s, ps[0]).0, ps[1..])
  }

  // ---------- the same handlers as the source runs them ----------

  class UpdaterMcu {
    const flash: FlashDevice
    const rxUpdBuff: array<byte>
    var gUpd: bool
    var errno: nat
    var crcVal: Word
    var addr: nat
    var totalCoreSize: nat

    ghost predicate Valid() {
      flash.Valid() && rxUpdBuff.Length == RX_UPD_PACKET_SIZE && rxUpdBuff != flash.mem
    }

    ghost function View(): State
      requires Valid()
      reads this, flash, flash.mem, rxUpdBuff
    {
      State(flash.View(), gUpd, errno, crcVal, addr, totalCoreSize, rxUpdBuff[..])
    }

    constructor (flash: FlashDevice)
      requires flash.Valid()
      ensures Valid() && fresh(rxUpdBuff) && this.flash == flash && View() == Fresh(flash.View())
    {
      this.flash := flash;
      var b := new byte[RX_UPD_PACKET_SIZE](_ => 0);
      rxUpdBuff := b;
      gUpd, errno, crcVal, addr, totalCoreSize := false, 0, [0, 0, 0, 0], NEW_CORE + HEADER_SIZE, HEADER_SIZE;
      new;
      assert rxUpdBuff[..] == seq(RX_UPD_PACKET_SIZE, _ => 0);
    }

    method CheckUpdRequest(count: nat) returns (accepted: bool)
      requires Valid()
      modifies this`gUpd
      ensures accepted == (rxUpdBuff[..3] == UPD && count == 3)
      ensures gUpd == (old(gUpd) || accepted)
    {
      accepted := false;
      if rxUpdBuff[0] == 0x75 && rxUpdBuff[1] == 0x70 && rxUpdBuff[2] == 0x64 {
        if count == 3 {
          accepted := true;
          gUpd := true;
        }
      }
      assert rxUpdBuff[..3] == [rxUpdBuff[0], rxUpdBuff[1], rxUpdBuff[2]];
    }

    /** The loop that the two writers share. */
    method WriteLoop(start: nat, count: nat) returns (code: byte)
      requires Valid() && count <= RX_UPD_PACKET_SIZE
      modifies this`errno, flash, flash.mem
      ensures var (c, ok) := WriteWords(flash.dev, old(flash.View()), start, rxUpdBuff[..], 0, count);
        (View(), code) == Stored(old(View()), c, ok)
    {
      hide Program;
      ghost var all := WriteWords(flash.dev, flash.View(), start, rxUpdBuff[..], 0, count);
      var i := 0;
      while i < count
        invariant i % 4 == 0 && errno == old(errno)
        invariant rxUpdBuff[..] == old(rxUpdBuff[..])
        invariant all == WriteWords(flash.dev, flash.View(), start, rxUpdBuff[..], i, count)
        decreases count - i
      {
        assert rxUpdBuff[i..i + 4] == rxUpdBuff[..][i..i + 4];
        var ok := flash.ProgramWord(start + i, rxUpdBuff[i..i + 4]);
        if !ok {
          errno := FLASH_WRITE_ERR;
          return GENERAL_ERROR;
        }
        i := i + 4;
      }
      return ALL_OK;
    }

    method WriteHeader() returns (code: byte)
      requires Valid()
      modifies this`errno, flash, flash.mem
      ensures var (c, ok) := WriteWords(flash.dev, old(flash.View()), NEW_CORE, rxUpdBuff[..], 0, HEADER_SIZE);
        (View(), code) == Stored(old(View()), c, ok)
    {
      code := WriteLoop(NEW_CORE, HEADER_SIZE);
    }

    method WriteCoreChunk(count: nat, start: nat) returns (code: byte)
      requires Valid() && count <= RX_UPD_PACKET_SIZE
      modifies this`errno, flash, flash.mem
      ensures var (c, ok) := WriteWords(flash.dev, old(flash.View()), start, rxUpdBuff[..], 0, count);
        (View(), code) == Stored(old(View()), c, ok)
    {
      code := WriteLoop(start, count);
    }

    method UpdCalcCrc(hardware: Word)
      requires Valid()
      modifies this`errno, this`crcVal, flash, flash.mem
      ensures View() == CalcCrc(flash.dev, old(View()), hardware)
    {
      hide Program, Put;
      if NEW_CORE + 4 * totalCoreSize > FLASH_END {  // the unit is fed past the end of the flash
        flash.alive := false;
        crcVal, errno := ERASED, FLASH_WRITE_ERR;
        return;
      }
      var ok := flash.ProgramWord(NEW_CORE + totalCoreSize, hardware);
      crcVal := hardware;
      if !ok {
        errno := FLASH_WRITE_ERR;
        crcVal := ERASED;
      }
    }

    method HandleUpdPacket(count: nat, hardware: Word) returns (code: byte)
      requires Valid() && count <= RX_UPD_PACKET_SIZE
      modifies this, flash, flash.mem
      ensures (View(), code) == Handle(flash.dev, old(View()), count, hardware)
    {
      hide WriteWords, CalcCrc, EraseSector;
      assert rxUpdBuff[..][..3] == rxUpdBuff[..3];
      var tag := rxUpdBuff[..3];
      code := 0;
      if count == HEADER_SIZE {
        if tag == VER {
          code := WriteHeader();
        } else {
          return UPDATER_UNREC_CMD;
        }
      } else if count == 3 {
        if tag == DEL {
          var pages := totalCoreSize / 2048 % 0x100;
          if pages < 1 {
            pages := 1;
          }
          code := EraseSectorInPlace(flash, NEW_CORE, pages);
        } else if tag == CRC {
          UpdCalcCrc(hardware);
        } else if tag == REB {
          flash.alive := false;
        } else {
          return UPDATER_UNREC_CMD;
        }
      } else {
        code := WriteCoreChunk(count, addr);
        if code == ALL_OK {
          addr := U32(addr + count);
          totalCoreSize := U32(totalCoreSize + count);
        }
      }
    }

    method UdpUpdReceiveCallback(payload: seq<byte>, hardware: Word) returns (reply: Reply)
      requires Valid()
      modifies this, flash, flash.mem, rxUpdBuff
      ensures (View(), reply) == Receive(flash.dev, old(View()), Packet(payload, hardware))
    {
      reply := Silent;
      if |payload| > RX_UPD_PACKET_SIZE {
        return;
      }
      forall i | 0 <= i < |payload| { rxUpdBuff[i] := payload[i]; }
      assert rxUpdBuff[..] == payload + old(rxUpdBuff[..])[|payload|..];
      assert rxUpdBuff[..][..3] == rxUpdBuff[..3];
      if gUpd {
        var code := HandleUpdPacket(|payload|, hardware);
        if flash.alive {
          reply := if code == ALL_OK then Ack else Nack;
        }
      } else {
        var accepted := CheckUpdRequest(|payload|);
        if accepted && flash.alive {
          reply := Ack;
        }
      }
    }
  }
}
