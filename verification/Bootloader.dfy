/** The bootloader: at every reset it looks for a staged image, installs it and starts the core. */
module Bootloader {
  import opened Arithmetic
  import opened Flash

  const NEW_CORE := 0x0801_0000
  const CURRENT_CORE := 0x0800_4000
  const HEADER_SIZE := 16
  const NEW_IMAGE := NEW_CORE + HEADER_SIZE
  const CORE_PAGES := 8
  const PAGES_TO_ERASE: byte := 64
  const FLASH_WR_ERR := 2
  const FLASH_ERASE_ERR := 3

  /** The most words whose copy stays below the staging area, and the most the erased pages hold. */
  const MAX_WORDS := 0x3000
  const ERASED_WORDS := 0x1000

  predicate HasHeader(m: Memory) {
    Bytes(m, NEW_CORE, 3) == [0x76, 0x65, 0x72]
  }

  /** The last header word; the source documents it as bytes but uses it as a count of words. */
  function HeaderSize(m: Memory): nat {
    Value(Bytes(m, NEW_CORE + 12, 4))
  }

  // ---------- the boot sequence as a function of the chip ----------

  /** One turn of the copy loop; a load that faults hangs the CPU before the program call. */
  function CopyWord(dev: Device, c: Chip, from: nat, to: nat): (Chip, bool) {
    if InFlash(from, 4) then Program(dev, c, to, Bytes(c.mem, from, 4)) else (c.(alive := false), false)
  }

  function Copy(dev: Device, c: Chip, from: nat, to: nat, n: nat): (Chip, bool)
    decreases n, c.fates
  {
    if n == 0 then (c, true)
    else
      var (c', ok) := CopyWord(dev, c, from, to);
      if ok then Copy(dev, c', from + 4, to + 4, n - 1) else (c', false)
  }

  datatype BootState = BootState(chip: Chip, errno: nat)

  /** replace_core, with its return code. */
  function ReplaceCore(dev: Device, s: BootState, words: nat): (BootState, byte) {
    var (c1, code) := EraseSector(dev, s.chip, CURRENT_CORE, CORE_PAGES);
    if code != 0 then (BootState(c1, FLASH_ERASE_ERR), 1)
    else
      var (c2, ok) := Copy(dev, c1, NEW_IMAGE, CURRENT_CORE, words);
      if ok then (BootState(c2, s.errno), 0) else (BootState(c2, FLASH_WR_ERR), 1)
  }

  function CheckCore(dev: Device, s: BootState): BootState {
    if !HasHeader(s.chip.mem) then s
    else
      var (s1, code) := ReplaceCore(dev, s, HeaderSize(s.chip.mem));
      if code != 0 then s1
      else s1.(chip := EraseSector(dev, s1.chip, NEW_CORE, PAGES_TO_ERASE).0)
  }

  datatype BootResult = BootResult(chip: Chip, jumped: bool)

  /** main, up to its jump or its endless error loop. */
  function Boot(dev: Device, c: Chip): BootResult {
    var s := CheckCore(dev, BootState(c, 0));
    BootResult(s.chip, s.errno == 0 && s.chip.alive)
  }

  // ---------- the same sequence as the source runs it ----------

  class Bootloader {
    const flash: FlashDevice
    var errno: nat
    var newCoreSize: nat

    constructor (flash: FlashDevice)
      ensures this.flash == flash && errno == 0
    {
      this.flash, errno, newCoreSize := flash, 0, 0;
    }

    method ReadHeader() returns (found: bool)
      requires flash.Valid()
      modifies this`newCoreSize
      ensures found == HasHeader(flash.View().mem)
      ensures found ==> newCoreSize == HeaderSize(flash.View().mem)
    {
      var buf := new byte[16](_ => 0);
      var addr := NEW_CORE;
      ghost var m := flash.View().mem;
      for i := 0 to 16
        invariant fresh(buf) && addr == NEW_CORE + i
        invariant buf[..i] == Bytes(m, NEW_CORE, i)
      {
        buf[i] := flash.mem[addr - FLASH_BASE];
        addr := addr + 1;
        assert buf[..i + 1] == buf[..i] + [buf[i]];
      }
      assert buf[..16] == Bytes(m, NEW_CORE, 16);
      assert Bytes(m, NEW_CORE, 3) == [buf[0], buf[1], buf[2]];
      assert Bytes(m, NEW_CORE + 12, 4) == buf[12..16];
      found := buf[0] == 0x76 && buf[1] == 0x65 && buf[2] == 0x72;
      if found {
        newCoreSize := Value(buf[12..16]);
      }
    }

    method CopyWordInPlace(from: nat, to: nat) returns (ok: bool)
      requires flash.Valid()
      modifies flash, flash.mem
      ensures (flash.View(), ok) == CopyWord(flash.dev, old(flash.View()), from, to)
    {
      var carrier := flash.ReadWord(from);
      ok := flash.ProgramWord(to, carrier);
    }

    /** The copy loop of replace_core. */
    method CopyInPlace(copyFrom: nat, copyTo: nat) returns (ok: bool)
      requires flash.Valid()
      modifies flash, flash.mem
      ensures (flash.View(), ok) == Copy(flash.dev, old(flash.View()), copyFrom, copyTo, newCoreSize)
    {
      hide CopyWord;
      var from, to := copyFrom, copyTo;
      for i := 0 to newCoreSize
        invariant Copy(flash.dev, old(flash.View()), copyFrom, copyTo, newCoreSize)
               == Copy(flash.dev, flash.View(), from, to, newCoreSize - i)
      {
        ok := CopyWordInPlace(from, to);
        if !ok {
          return;
        }
        from := from + 4;
        to := to + 4;
      }
      return true;
    }

    method ReplaceCoreInPlace() returns (code: byte)
      requires flash.Valid()
      modifies this`errno, flash, flash.mem
      ensures (BootState(flash.View(), errno), code)
           == ReplaceCore(flash.dev, old(BootState(flash.View(), errno)), newCoreSize)
    {
      code := EraseSectorInPlace(flash, CURRENT_CORE, CORE_PAGES);
      if code != 0 {
        errno := FLASH_ERASE_ERR;
        return 1;
      }
      var ok := CopyInPlace(NEW_CORE + HEADER_SIZE, CURRENT_CORE);
      if !ok {
        errno := FLASH_WR_ERR;
        return 1;
      }
      return 0;
    }

    method CheckCoreInPlace()
      requires flash.Valid()
      modifies this, flash, flash.mem
      ensures BootState(flash.View(), errno)
           == CheckCore(flash.dev, old(BootState(flash.View(), errno)))
    {
      var found := ReadHeader();
      if found {
        var code := ReplaceCoreInPlace();
        if code != 0 {
          return;
        }
        code := EraseSectorInPlace(flash, NEW_CORE, PAGES_TO_ERASE);
        if code != 0 {
          return;
        }
      }
    }

    method BootMain() returns (jumped: bool)
      requires flash.Valid() && errno == 0
      modifies this, flash, flash.mem
      ensures BootResult(flash.View(), jumped) == Boot(flash.dev, old(flash.View()))
    {
      CheckCoreInPlace();
      jumped := errno == 0 && flash.alive;
    }
  }
}
