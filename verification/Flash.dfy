/** The on-chip flash shared by the bootloader and the updater.

    Addresses are the absolute ones of the source.  Everything the hardware decides is an input:
    a script of fates says how each flash operation ends, and a script that has run out means
    that power was cut before the next one, so quantifying over scripts quantifies over all
    failures and all points at which power can be lost.  A CPU that has lost power, faulted or been reset
    is no longer alive; nothing it still appears to do can change the flash. */
module Flash {
  import opened Arithmetic

  type Word = w: seq<byte> | |w| == 4 witness [0, 0, 0, 0]

  const PAGE_SIZE := 0x800

  type Page = p: seq<byte> | |p| == PAGE_SIZE witness seq(PAGE_SIZE, _ => 0)

  const FLASH_BASE := 0x0800_0000
  const FLASH_SIZE := 0x4_0000
  const FLASH_END := FLASH_BASE + FLASH_SIZE

  const LAST_PAGE := 0x0803_F800
  const ERASED: Word := [255, 255, 255, 255]

  type Memory = m: seq<byte> | |m| == FLASH_SIZE witness seq(FLASH_SIZE, _ => 0)

  /** How one flash operation ends: it completes, it fails, or power is cut in the middle of it.  A
      word program that breaks off may leave anything in that word, since the driver programs two
      half-words; a page erase leaves what the device makes of the page. */
  datatype Fate = Complete | Fail(junk: Word) | Cut(junk: Word)

  /** The next `n` operations complete. */
  ghost predicate FailureFree(fates: seq<Fate>, n: nat) {
    n <= |fates| && forall i :: 0 <= i < n ==> fates[i].Complete?
  }

  /** What the hardware decides: which word programs (address, old content, new content) it is able
      to complete, and what an erase that breaks off (address, old content, how it failed) leaves. */
  datatype Device = Device(programs: (nat, Word, Word) -> bool, torn: (nat, Page, Word) -> Page)

  datatype Chip = Chip(mem: Memory, fates: seq<Fate>, alive: bool)

  /** The little-endian reading of a word, as a pointer cast gives it. */
  function Value(w: Word): nat {
    var b0: int, b1: int, b2: int, b3: int := w[0], w[1], w[2], w[3];
    b0 + 0x100 * b1 + 0x1_0000 * b2 + 0x100_0000 * b3
  }

  /** The lowest byte comes first, for every number that 32 bits hold. */
  lemma ValueIsLittleEndian(n: nat)
    requires n < UINT_RANGE
    ensures Value([n % 0x100, n / 0x100 % 0x100, n / 0x1_0000 % 0x100, n / 0x100_0000]) == n
  {
    assert n / 0x1_0000 == n / 0x100 / 0x100 && n / 0x100_0000 == n / 0x100 / 0x100 / 0x100;
  }

  predicate InFlash(addr: nat, n: nat) {
    FLASH_BASE <= addr && addr + n <= FLASH_END
  }

  function Bytes(m: Memory, addr: nat, n: nat): (s: seq<byte>)
    requires InFlash(addr, n)
    ensures |s| == n
    ensures forall i :: 0 <= i < n ==> s[i] == m[addr - FLASH_BASE + i]
  {
    m[addr - FLASH_BASE..addr - FLASH_BASE + n]
  }

  ghost predicate SameOutside(m: Memory, r: Memory, lo: int, hi: int) {
    forall i :: 0 <= i < FLASH_SIZE && !(lo <= FLASH_BASE + i < hi) ==> r[i] == m[i]
  }

  function Put(m: Memory, addr: nat, w: seq<byte>): (r: Memory)
    requires InFlash(addr, |w|)
    ensures Bytes(r, addr, |w|) == w
    ensures SameOutside(m, r, addr, addr + |w|)
  {
    var o := addr - FLASH_BASE;
    m[..o] + w + m[o + |w|..]
  }

  ghost predicate Blank(m: Memory, lo: int, hi: int) {
    forall i :: 0 <= i < FLASH_SIZE && lo <= FLASH_BASE + i < hi ==> m[i] == 255
  }

  /** `m` with every byte at an address in [lo, hi) erased. */
  function Fill(m: Memory, lo: nat, hi: nat): (r: Memory)
    ensures SameOutside(m, r, lo, hi) && Blank(r, lo, hi)
  {
    seq(FLASH_SIZE, i requires 0 <= i < FLASH_SIZE =>
      if lo <= FLASH_BASE + i < hi then 255 else m[i])
  }

  /** What an erase of the page at `addr` leaves that breaks off. */
  function Torn(dev: Device, m: Memory, addr: nat, junk: Word): (r: Memory)
    requires InFlash(addr, PAGE_SIZE)
    ensures SameOutside(m, r, addr, addr + PAGE_SIZE)
  {
    Put(m, addr, dev.torn(addr, Bytes(m, addr, PAGE_SIZE), junk))
  }

  /** FLASH_ErasePage, called by both programs with the first address of a page only. */
  function Erase(dev: Device, c: Chip, addr: nat): (Chip, bool) {
    if !c.alive || c.fates == [] then
      (c.(alive := false), false)
    else if !InFlash(addr, PAGE_SIZE) then
      (c.(fates := c.fates[1..], alive := !c.fates[0].Cut?), false)
    else if c.fates[0].Complete? then
      (Chip(Fill(c.mem, addr, addr + PAGE_SIZE), c.fates[1..], true), true)
    else
      (Chip(Torn(dev, c.mem, addr, c.fates[0].junk), c.fates[1..], !c.fates[0].Cut?), false)
  }

  /** FLASH_ProgramWord. */
  function Program(dev: Device, c: Chip, addr: nat, w: Word): (Chip, bool) {
    if !c.alive || c.fates == [] then
      (c.(alive := false), false)
    else if !InFlash(addr, 4) then
      (c.(fates := c.fates[1..], alive := !c.fates[0].Cut?), false)
    else if !c.fates[0].Complete? then
      (Chip(Put(c.mem, addr, c.fates[0].junk), c.fates[1..], !c.fates[0].Cut?), false)
    else if dev.programs(addr, Bytes(c.mem, addr, 4), w) then
      (Chip(Put(c.mem, addr, w), c.fates[1..], true), true)
    else
      (c.(fates := c.fates[1..]), false)
  }

  function EraseLoop(dev: Device, c: Chip, addr: nat, n: nat): (Chip, byte)
    decreases n, c.fates
  {
    if n == 0 then (c, 0)
    else
      var (c', ok) := Erase(dev, c, addr);
      if ok then EraseLoop(dev, c', addr + PAGE_SIZE, n - 1) else (c', 2)
  }

  /** erase_sector, of which both programs hold the same copy. */
  function EraseSector(dev: Device, c: Chip, start: nat, pages: byte): (Chip, byte) {
    if start + pages * PAGE_SIZE > LAST_PAGE then (c, 1) else EraseLoop(dev, c, start, pages)
  }

  lemma EraseEffect(dev: Device, c: Chip, addr: nat)
    ensures var (e, ok) := Erase(dev, c, addr);
      && (ok ==> e.alive && e.mem == Fill(c.mem, addr, addr + PAGE_SIZE))
      && SameOutside(c.mem, e.mem, addr, addr + PAGE_SIZE)
      && (!c.alive ==> !ok && !e.alive)
  {
  }

  /** A loop that stops early has erased a prefix of the pages and torn at most the one after it, and
      success means all of them. */
  lemma {:induction false} EraseLoopErasesPrefix(dev: Device, c: Chip, addr: nat, n: nat) returns (k: nat)
    ensures k <= n && SameOutside(c.mem, EraseLoop(dev, c, addr, n).0.mem, addr, addr + n * PAGE_SIZE)
    ensures SameOutside(Fill(c.mem, addr, addr + k * PAGE_SIZE), EraseLoop(dev, c, addr, n).0.mem,
                        addr + k * PAGE_SIZE, addr + (k + 1) * PAGE_SIZE)
    ensures EraseLoop(dev, c, addr, n).1 == if k == n then 0 else 2
    ensures k == n ==> EraseLoop(dev, c, addr, n).0.mem == Fill(c.mem, addr, addr + n * PAGE_SIZE)
    ensures k == n > 0 ==> EraseLoop(dev, c, addr, n).0.alive
    ensures EraseLoop(dev, c, addr, n).0.alive ==> c.alive
    ensures k == 0 < n ==> !Erase(dev, c, addr).1 && EraseLoop(dev, c, addr, n) == (Erase(dev, c, addr).0, 2)
    decreases n
  {
    hide Erase;
    k := 0;
    if n == 0 {
      assert Fill(c.mem, addr, addr) == c.mem;
    } else {
      EraseEffect(dev, c, addr);
      var (c', ok) := Erase(dev, c, addr);
      if ok {
        var k' := EraseLoopErasesPrefix(dev, c', addr + PAGE_SIZE, n - 1);
        k := k' + 1;
        assert Fill(c'.mem, addr + PAGE_SIZE, addr + PAGE_SIZE + k' * PAGE_SIZE)
            == Fill(c.mem, addr, addr + k * PAGE_SIZE);
      } else {
        assert Fill(c.mem, addr, addr) == c.mem;
      }
    }
  }

  /** With enough operations that complete, every page is erased. */
  lemma {:induction false} EraseLoopCompletes(dev: Device, c: Chip, addr: nat, n: nat)
    requires c.alive && FailureFree(c.fates, n)
    requires InFlash(addr, n * PAGE_SIZE)
    ensures EraseLoop(dev, c, addr, n)
         == (Chip(Fill(c.mem, addr, addr + n * PAGE_SIZE), c.fates[n..], true), 0)
    decreases n
  {
    if n == 0 {
      assert Fill(c.mem, addr, addr) == c.mem;
    } else {
      var c' := Erase(dev, c, addr).0;
      EraseLoopCompletes(dev, c', addr + PAGE_SIZE, n - 1);
      assert c'.fates[n - 1..] == c.fates[n..];
      assert Fill(c'.mem, addr + PAGE_SIZE, addr + n * PAGE_SIZE)
          == Fill(c.mem, addr, addr + n * PAGE_SIZE);
    }
  }

  /** A loop whose first `k` erases complete and whose next one fails, with the power on. */
  lemma {:induction false} EraseLoopFailsAt(dev: Device, c: Chip, addr: nat, n: nat,
                                            k: nat, junk: Word, rest: seq<Fate>)
    requires c.alive && k < n && InFlash(addr, n * PAGE_SIZE)
    requires c.fates == seq(k, _ => Complete) + [Fail(junk)] + rest
    ensures EraseLoop(dev, c, addr, n)
         == (Chip(Torn(dev, Fill(c.mem, addr, addr + k * PAGE_SIZE), addr + k * PAGE_SIZE, junk), rest, true), 2)
    decreases k
  {
    hide Torn;
    if k == 0 {
      assert Fill(c.mem, addr, addr) == c.mem;
      assert c.fates[1..] == rest;
    } else {
      var c' := Erase(dev, c, addr).0;
      assert c'.fates == seq(k - 1, _ => Complete) + [Fail(junk)] + rest;
      EraseLoopFailsAt(dev, c', addr + PAGE_SIZE, n - 1, k - 1, junk, rest);
      assert Fill(c'.mem, addr + PAGE_SIZE, addr + k * PAGE_SIZE) == Fill(c.mem, addr, addr + k * PAGE_SIZE);
    }
  }

  /** Which bytes such a loop leaves: blank pages, a torn one, and the rest as it was. */
  lemma FailedEraseLeaves(dev: Device, m: Memory, addr: nat, k: nat, junk: Word)
    requires InFlash(addr, (k + 1) * PAGE_SIZE)
    ensures var at := addr + k * PAGE_SIZE; var r := Torn(dev, Fill(m, addr, at), at, junk);
      && Blank(r, addr, at) && SameOutside(m, r, addr, at + PAGE_SIZE)
      && Bytes(r, at, PAGE_SIZE) == dev.torn(at, Bytes(m, at, PAGE_SIZE), junk)
  {
    hide Put, Fill;
    var at := addr + k * PAGE_SIZE;
    assert Bytes(Fill(m, addr, at), at, PAGE_SIZE) == Bytes(m, at, PAGE_SIZE);
  }

  lemma {:induction false} EraseLoopSucceedsIff(dev: Device, c: Chip, addr: nat, n: nat)
    requires c.alive && InFlash(addr, n * PAGE_SIZE)
    ensures EraseLoop(dev, c, addr, n).1 == 0 <==> FailureFree(c.fates, n)
    decreases n
  {
    if n == 0 {
    } else {
      var (c', ok) := Erase(dev, c, addr);
      if ok {
        EraseLoopSucceedsIff(dev, c', addr + PAGE_SIZE, n - 1);
        assert c'.fates == c.fates[1..] && c.fates == [c.fates[0]] + c'.fates;
      }
    }
  }

  /** The return code of erase_sector, told from what it left: 1 and nothing touched beyond the last
      page but one, 0 with every page blank, 2 after an erase that did not complete. */
  lemma EraseSectorCode(dev: Device, c: Chip, start: nat, pages: byte)
    requires c.alive && FLASH_BASE <= start
    ensures var (d, code) := EraseSector(dev, c, start, pages);
      && (code == 1 <==> start + pages * PAGE_SIZE > LAST_PAGE) && (code == 1 ==> d == c)
      && (code == 0 ==> Blank(d.mem, start, start + pages * PAGE_SIZE))
      && (code == 2 <==> code != 1 && !FailureFree(c.fates, pages))
      && (code == 0 || code == 1 || code == 2)
  {
    if start + pages * PAGE_SIZE <= LAST_PAGE {
      var k := EraseLoopErasesPrefix(dev, c, start, pages);
      EraseLoopSucceedsIff(dev, c, start, pages);
    }
  }

  /** How a word program ends that does not complete: a failure leaves its junk and is reported, and so
      is a word the device refuses; a power cut leaves its junk and a CPU that is off. */
  lemma ProgramBreaksOff(dev: Device, c: Chip, addr: nat, w: Word)
    requires c.alive && c.fates != [] && InFlash(addr, 4)
    requires c.fates[0].Complete? ==> !dev.programs(addr, Bytes(c.mem, addr, 4), w)
    ensures var (e, ok) := Program(dev, c, addr, w);
      && !ok && e.fates == c.fates[1..] && e.alive == !c.fates[0].Cut?
      && (c.fates[0].Complete? ==> e.mem == c.mem)
      && (!c.fates[0].Complete? ==> e.mem == Put(c.mem, addr, c.fates[0].junk))
  {
  }

  /** With operations for `k` pages only, that many are erased and then power is gone. */
  lemma {:induction false} EraseLoopCut(dev: Device, c: Chip, addr: nat, n: nat, k: nat)
    requires c.alive && k < n && c.fates == seq(k, _ => Complete) && InFlash(addr, n * PAGE_SIZE)
    ensures EraseLoop(dev, c, addr, n) == (Chip(Fill(c.mem, addr, addr + k * PAGE_SIZE), [], false), 2)
    decreases k
  {
    if k == 0 {
      assert Fill(c.mem, addr, addr) == c.mem;
    } else {
      var c' := Erase(dev, c, addr).0;
      assert c'.fates == seq(k - 1, _ => Complete);
      EraseLoopCut(dev, c', addr + PAGE_SIZE, n - 1, k - 1);
      assert Fill(c'.mem, addr + PAGE_SIZE, addr + k * PAGE_SIZE) == Fill(c.mem, addr, addr + k * PAGE_SIZE);
    }
  }

  /** The flash as the programs see it: an array changed in place by the two driver calls. */
  class FlashDevice {
    const dev: Device
    const mem: array<byte>
    var fates: seq<Fate>
    var alive: bool

    constructor (dev: Device, content: Memory, fates: seq<Fate>)
      ensures Valid() && fresh(mem) && this.dev == dev && View() == Chip(content, fates, true)
    {
      this.dev := dev;
      var a := new byte[FLASH_SIZE](i requires 0 <= i < FLASH_SIZE => content[i]);
      this.mem := a;
      this.fates, this.alive := fates, true;
      new;
      assert mem[..] == content;
    }

    ghost predicate Valid() { mem.Length == FLASH_SIZE }

    ghost function View(): Chip
      requires Valid()
      reads this, mem
    {
      Chip(mem[..], fates, alive)
    }

    method ErasePage(addr: nat) returns (ok: bool)
      requires Valid()
      modifies this, mem
      ensures (View(), ok) == Erase(dev, old(View()), addr)
    {
      ok := false;
      if !alive || fates == [] {
        alive := false;
        return;
      }
      if FLASH_BASE <= addr && addr + PAGE_SIZE <= FLASH_END {
        var o := addr - FLASH_BASE;
        ok := fates[0].Complete?;
        if ok {
          forall i | o <= i < o + PAGE_SIZE { mem[i] := 255; }
          assert mem[..] == Fill(old(mem[..]), addr, addr + PAGE_SIZE);
        } else {
          var left := dev.torn(addr, mem[o..o + PAGE_SIZE], fates[0].junk);
          assert mem[o..o + PAGE_SIZE] == Bytes(mem[..], addr, PAGE_SIZE);
          forall i | 0 <= i < PAGE_SIZE { mem[o + i] := left[i]; }
          assert mem[..] == Put(old(mem[..]), addr, left);
        }
      }
      alive, fates := !fates[0].Cut?, fates[1..];
    }

    method ProgramWord(addr: nat, w: Word) returns (ok: bool)
      requires Valid()
      modifies this, mem
      ensures (View(), ok) == Program(dev, old(View()), addr, w)
    {
      ok := false;
      if !alive || fates == [] {
        alive := false;
        return;
      }
      if FLASH_BASE <= addr && addr + 4 <= FLASH_END {
        var o := addr - FLASH_BASE;
        ok := fates[0].Complete? && dev.programs(addr, mem[o..o + 4], w);
        assert mem[o..o + 4] == Bytes(mem[..], addr, 4);
        if ok || !fates[0].Complete? {
          var content := if ok then w else fates[0].junk;
          forall i | 0 <= i < 4 { mem[o + i] := content[i]; }
          assert mem[..] == Put(old(mem[..]), addr, content);
        }
      }
      alive, fates := !fates[0].Cut?, fates[1..];
    }

    /** A load through a pointer; outside the flash it is a bus fault, which hangs the CPU. */
    method ReadWord(addr: nat) returns (w: Word)
      requires Valid()
      modifies this`alive
      ensures InFlash(addr, 4) ==> View() == old(View()) && w == Bytes(View().mem, addr, 4)
      ensures !InFlash(addr, 4) ==> View() == old(View()).(alive := false)
    {
      w := ERASED;
      if FLASH_BASE <= addr && addr + 4 <= FLASH_END {
        w := mem[addr - FLASH_BASE..addr - FLASH_BASE + 4];
      } else {
        alive := false;
      }
    }
  }

  method EraseSectorInPlace(flash: FlashDevice, start: nat, pages: byte) returns (code: byte)
    requires flash.Valid()
    modifies flash, flash.mem
    ensures (flash.View(), code) == EraseSector(flash.dev, old(flash.View()), start, pages)
  {
    var addr := start;
    var lastAddr := start + pages * PAGE_SIZE;
    if lastAddr > LAST_PAGE {
      return 1;
    }
    for i := 0 to pages
      invariant addr == start + i * PAGE_SIZE
      invariant EraseLoop(flash.dev, old(flash.View()), start, pages)
             == EraseLoop(flash.dev, flash.View(), addr, pages - i)
    {
      var ok := flash.ErasePage(addr);
      if !ok {
        return 2;
      }
      addr := addr + PAGE_SIZE;
    }
    return 0;
  }
}
