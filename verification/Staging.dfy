/** What the updater keeps over whole runs of packets. */
module Staging {
  import opened Arithmetic
  import opened Flash
  import opened Bootloader
  import opened BootSafety
  import opened Updater

  // ---------- kinds of packets ----------

  predicate IsRequest(p: Packet) { p.payload == UPD }
  predicate IsHeader(p: Packet) { |p.payload| == HEADER_SIZE && p.payload[..3] == VER }
  predicate IsDel(p: Packet) { p.payload == DEL }
  predicate IsCrc(p: Packet) { p.payload == CRC }
  predicate IsChunk(p: Packet) {
    |p.payload| <= RX_UPD_PACKET_SIZE && |p.payload| != HEADER_SIZE && |p.payload| != 3
  }

  /** Bytes that spell a text. */
  predicate Spells(b: seq<byte>, text: string) {
    |b| == |text| && forall i :: 0 <= i < |b| ==> b[i] == text[i] as int
  }

  /** The words the two programs go by. */
  lemma WordsSpell(b: seq<byte>, m: Memory)
    ensures (b == UPD <==> Spells(b, "upd")) && (b == VER <==> Spells(b, "ver"))
    ensures (b == DEL <==> Spells(b, "del")) && (b == CRC <==> Spells(b, "crc")) && (b == REB <==> Spells(b, "reb"))
    ensures HasHeader(m) <==> Spells(Bytes(m, 0x0801_0000, 3), "ver")
  {
    var s := ["upd", "ver", "del", "crc", "reb"];
    assert Spells(UPD, s[0]) && Spells(VER, s[1]) && Spells(DEL, s[2]) && Spells(CRC, s[3]) && Spells(REB, s[4]);
    assert forall t, u :: Spells(b, t) && Spells(u, t) ==> b == u;
  }

  /** What the packet adds to the staged image: an acknowledged chunk, and nothing else. */
  function Acknowledged(dev: Device, s: State, p: Packet): seq<byte> {
    if s.upd && IsChunk(p) && Receive(dev, s, p).1 == Ack then p.payload else []
  }

  /** The acknowledged chunks of a run, joined. */
  function AcknowledgedAll(dev: Device, s: State, ps: seq<Packet>): seq<byte>
    decreases |ps|
  {
    if ps == [] || !s.chip.alive then []
    else Acknowledged(dev, s, ps[0]) + AcknowledgedAll(dev, Receive(dev, s, ps[0]).0, ps[1..])
  }

  // ---------- one packet ----------

  /** The two static variables move together and stay within the flash. */
  ghost predicate InSync(s: State) {
    s.addr == NEW_CORE + s.total && HEADER_SIZE <= s.total && s.addr <= FLASH_END
  }

  lemma ProgramEffect(dev: Device, c: Chip, addr: nat, w: Word)
    ensures var (e, ok) := Program(dev, c, addr, w);
      && SameOutside(c.mem, e.mem, addr, addr + 4)
      && (e.alive ==> c.alive)
      && (ok ==> e.alive && InFlash(addr, 4) && Bytes(e.mem, addr, 4) == w)
  {
  }

  lemma {:induction false} WriteWordsFrame(dev: Device, c: Chip, addr: nat, buf: Buffer, i: nat, count: nat)
    requires i % 4 == 0 && count <= RX_UPD_PACKET_SIZE
    ensures var d := WriteWords(dev, c, addr, buf, i, count).0;
      SameOutside(c.mem, d.mem, addr + i, addr + count + 3) && (d.alive ==> c.alive)
    decreases count - i
  {
    hide Program;
    if i >= count {
    } else {
      ProgramEffect(dev, c, addr + i, buf[i..i + 4]);
      var (e, ok) := Program(dev, c, addr + i, buf[i..i + 4]);
      if ok {
        WriteWordsFrame(dev, e, addr, buf, i + 4, count);
      }
    }
  }

  /** Bytes `i` up to `count` of the buffer are in the flash at their offsets from `addr`. */
  ghost predicate Written(d: Memory, addr: nat, buf: Buffer, i: nat, count: nat)
    requires FLASH_BASE <= addr && count <= RX_UPD_PACKET_SIZE && addr + count <= FLASH_END
  {
    forall j :: i <= j < count ==> buf[j] == d[addr - FLASH_BASE + j]
  }

  lemma WrittenBytes(d: Memory, addr: nat, buf: Buffer, count: nat)
    requires InFlash(addr, count) && count <= RX_UPD_PACKET_SIZE && Written(d, addr, buf, 0, count)
    ensures Bytes(d, addr, count) == buf[..count]
  {
  }

  lemma WordThenRest(e: Memory, d: Memory, addr: nat, buf: Buffer, i: nat, count: nat)
    requires FLASH_BASE <= addr && i < count <= RX_UPD_PACKET_SIZE && i % 4 == 0 && addr + count <= FLASH_END
    requires InFlash(addr + i, 4) && Bytes(e, addr + i, 4) == buf[i..i + 4]
    requires SameOutside(e, d, addr + i + 4, FLASH_END) && Written(d, addr, buf, i + 4, count)
    ensures Written(d, addr, buf, i, count)
  {
    var o := addr - FLASH_BASE;
    forall j | i <= j < count ensures buf[j] == d[o + j] {
      if j < i + 4 {
        assert e[o + j] == Bytes(e, addr + i, 4)[j - i] == buf[i..i + 4][j - i];
      }
    }
  }

  lemma {:induction false} WriteWordsContent(dev: Device, c: Chip, addr: nat, buf: Buffer, i: nat, count: nat)
    requires i % 4 == 0 && i < count <= RX_UPD_PACKET_SIZE && FLASH_BASE <= addr
    requires WriteWords(dev, c, addr, buf, i, count).1
    ensures var d := WriteWords(dev, c, addr, buf, i, count).0;
      d.alive && addr + count <= FLASH_END && Written(d.mem, addr, buf, i, count)
    decreases count - i
  {
    hide Program;
    var w: Word := buf[i..i + 4];
    ProgramEffect(dev, c, addr + i, w);
    var e := Program(dev, c, addr + i, w).0;
    var d := WriteWords(dev, e, addr, buf, i + 4, count).0;
    if i + 4 >= count {
    } else {
      WriteWordsContent(dev, e, addr, buf, i + 4, count);
    }
    assert SameOutside(e.mem, d.mem, addr + i + 4, FLASH_END) by {
      WriteWordsFrame(dev, e, addr, buf, i + 4, count);
    }
    WordThenRest(e.mem, d.mem, addr, buf, i, count);
  }

  lemma WriteWordsEffect(dev: Device, c: Chip, addr: nat, buf: Buffer, count: nat)
    requires count <= RX_UPD_PACKET_SIZE && InFlash(addr, 0)
    ensures var (d, ok) := WriteWords(dev, c, addr, buf, 0, count);
      && SameOutside(c.mem, d.mem, addr, addr + count + 3)
      && (d.alive ==> c.alive)
      && (ok ==> d.alive == c.alive && InFlash(addr, count) && Bytes(d.mem, addr, count) == buf[0..count])
  {
    WriteWordsFrame(dev, c, addr, buf, 0, count);
    if count > 0 && WriteWords(dev, c, addr, buf, 0, count).1 {
      WriteWordsContent(dev, c, addr, buf, 0, count);
      var d := WriteWords(dev, c, addr, buf, 0, count).0;
      assert Bytes(d.mem, addr, count) == buf[0..count];
    }
  }

  /** The words of a write that the device can program over what is there. */
  ghost predicate AcceptsWords(dev: Device, m: Memory, addr: nat, buf: Buffer, i: nat, k: nat)
    requires i % 4 == 0
    decreases k
  {
    k == 0 ||
    (i + 4 <= RX_UPD_PACKET_SIZE && InFlash(addr + i, 4) &&
     dev.programs(addr + i, Bytes(m, addr + i, 4), buf[i..i + 4]) && AcceptsWords(dev, m, addr, buf, i + 4, k - 1))
  }

  lemma {:induction false} AcceptsWordsFrame(dev: Device, m: Memory, e: Memory, addr: nat, buf: Buffer, i: nat, k: nat)
    requires i % 4 == 0 && SameOutside(m, e, FLASH_BASE, addr + i) && AcceptsWords(dev, m, addr, buf, i, k)
    ensures AcceptsWords(dev, e, addr, buf, i, k)
    decreases k
  {
    if k == 0 {
    } else {
      assert Bytes(m, addr + i, 4) == Bytes(e, addr + i, 4);
      AcceptsWordsFrame(dev, m, e, addr, buf, i + 4, k - 1);
    }
  }

  /** The word that is about to be written, and the rest of the script. */
  lemma WordCompletes(dev: Device, c: Chip, addr: nat, w: Word)
    requires c.alive && FailureFree(c.fates, 1) && InFlash(addr, 4) && dev.programs(addr, Bytes(c.mem, addr, 4), w)
    ensures Program(dev, c, addr, w) == (Chip(Put(c.mem, addr, w), c.fates[1..], true), true)
  {
  }

  lemma FirstWordFails(dev: Device, c: Chip, addr: nat, buf: Buffer, i: nat, count: nat, junk: Word, rest: seq<Fate>)
    requires i % 4 == 0 && i < count <= RX_UPD_PACKET_SIZE && InFlash(addr, i + 4)
    requires c.alive && c.fates == [] + [Fail(junk)] + rest
    ensures WriteWords(dev, c, addr, buf, i, count) == (Chip(Put(c.mem, addr + i, junk), rest, true), false)
    ensures Written(Put(c.mem, addr + i, junk), addr, buf, i, i)
  {
    hide Program, Put;
    ProgramBreaksOff(dev, c, addr + i, buf[i..i + 4]);
    assert c.fates[1..] == rest;
  }

  lemma FirstWordCompletes(dev: Device, c: Chip, addr: nat, buf: Buffer, i: nat, count: nat,
                           k: nat, junk: Word, rest: seq<Fate>) returns (e: Chip)
    requires i % 4 == 0 && i + 4 <= count <= RX_UPD_PACKET_SIZE && k > 0
    requires c.alive && c.fates == seq(k, _ => Complete) + [Fail(junk)] + rest
    requires AcceptsWords(dev, c.mem, addr, buf, i, k)
    ensures WriteWords(dev, c, addr, buf, i, count) == WriteWords(dev, e, addr, buf, i + 4, count)
    ensures e.alive && e.fates == seq(k - 1, _ => Complete) + [Fail(junk)] + rest
    ensures InFlash(addr + i, 4) && Bytes(e.mem, addr + i, 4) == buf[i..i + 4]
    ensures SameOutside(c.mem, e.mem, addr + i, addr + i + 4) && AcceptsWords(dev, e.mem, addr, buf, i + 4, k - 1)
  {
    hide Program;
    var w: Word := buf[i..i + 4];
    WordCompletes(dev, c, addr + i, w);
    e := Program(dev, c, addr + i, w).0;
    AcceptsWordsFrame(dev, c.mem, e.mem, addr, buf, i + 4, k - 1);
  }

  /** A write whose first `k` words, up to `end`, complete and whose next one fails: it stops there. */
  lemma {:induction false} WritesFailAt(dev: Device, c: Chip, addr: nat, buf: Buffer, i: nat, end: nat, count: nat,
                                        k: nat, junk: Word, rest: seq<Fate>)
    requires i % 4 == 0 && end == i + 4 * k && end < count <= RX_UPD_PACKET_SIZE && InFlash(addr, end + 4)
    requires c.alive && c.fates == seq(k, _ => Complete) + [Fail(junk)] + rest
    requires AcceptsWords(dev, c.mem, addr, buf, i, k)
    ensures var (d, ok) := WriteWords(dev, c, addr, buf, i, count);
      && !ok && d.alive && d.fates == rest && Written(d.mem, addr, buf, i, end)
      && Bytes(d.mem, addr + end, 4) == junk && SameOutside(c.mem, d.mem, addr + i, addr + end + 4)
    decreases k
  {
    hide Program, Put, Written, AcceptsWords, WriteWords;
    if k == 0 {
      FirstWordFails(dev, c, addr, buf, i, count, junk, rest);
    } else {
      var e := FirstWordCompletes(dev, c, addr, buf, i, count, k, junk, rest);
      WritesFailAt(dev, e, addr, buf, i + 4, end, count, k - 1, junk, rest);
      WordThenRest(e.mem, WriteWords(dev, e, addr, buf, i + 4, count).0.mem, addr, buf, i, end);
    }
  }

  function Padded(n: nat): nat { (n + 3) / 4 * 4 }

  lemma PaddedBounds(n: nat)
    ensures n <= Padded(n) < n + 4
  {
  }

  lemma TailOf(d: Memory, addr: nat, rx: Buffer, n: nat, m: nat)
    requires n <= m <= RX_UPD_PACKET_SIZE && InFlash(addr, m) && Bytes(d, addr, m) == rx[0..m]
    ensures Bytes(d, addr + n, m - n) == rx[n..m]
  {
    assert Bytes(d, addr + n, m - n) == Bytes(d, addr, m)[n..];
  }

  /** A count that is no multiple of four writes its last word whole. */
  lemma {:induction false} LastWordIsWhole(dev: Device, c: Chip, addr: nat, buf: Buffer, i: nat, count: nat)
    requires i % 4 == 0 && count <= RX_UPD_PACKET_SIZE
    ensures Padded(count) <= RX_UPD_PACKET_SIZE
    ensures WriteWords(dev, c, addr, buf, i, count) == WriteWords(dev, c, addr, buf, i, Padded(count))
    decreases count - i
  {
    hide Program;
    if i >= count {
    } else {
      var (e, ok) := Program(dev, c, addr + i, buf[i..i + 4]);
      LastWordIsWhole(dev, e, addr, buf, i + 4, count);
    }
  }

  /** What every packet leaves in the receive buffer. */
  lemma ReceiveBuffer(dev: Device, s: State, p: Packet)
    ensures var rx, n := Receive(dev, s, p).0.rx, |p.payload|;
      forall i :: 0 <= i < 512 ==> rx[i] == if i < n <= 512 then p.payload[i] else s.rx[i]
  {
    hide WriteWords, Program, EraseSector;
    var n := |p.payload|;
    if n <= RX_UPD_PACKET_SIZE {
      var rx: Buffer := p.payload + s.rx[n..];
      assert Receive(dev, s, p).0.rx == rx;
    }
  }

  /** Before the request for an update nothing but the request has an effect, or an answer. */
  lemma IdleReceive(dev: Device, s: State, p: Packet)
    requires !s.upd
    ensures var (t, reply) := Receive(dev, s, p);
      && t == s.(rx := t.rx, upd := IsRequest(p))
      && reply == if IsRequest(p) && s.chip.alive then Ack else Silent
  {
  }

  lemma NoWords(dev: Device, c: Chip, addr: nat, buf: Buffer)
    ensures WriteWords(dev, c, addr, buf, 0, 0) == (c, true)
  {
  }

  /** A chunk: its answer says whether it was taken. */
  lemma ReceiveChunk(dev: Device, s: State, p: Packet)
    requires s.upd && InSync(s) && IsChunk(p)
    ensures var (t, reply) := Receive(dev, s, p); var n := |p.payload|;
      && InSync(t) && t.upd && (t.chip.alive ==> s.chip.alive)
      && SameOutside(s.chip.mem, t.chip.mem, s.addr, s.addr + n + 3)
      && (reply == Ack ==>
        t.total == s.total + n && InFlash(s.addr, n) && Bytes(t.chip.mem, s.addr, n) == p.payload)
      && (reply != Ack && s.chip.alive ==> t.total == s.total)
      && (reply == if !t.chip.alive then Silent else if t.total == s.total + n then Ack else Nack)
      && t == s.(rx := t.rx, chip := t.chip, errno := t.errno, addr := t.addr, total := t.total)
      && (reply == Ack ==> t.errno == s.errno) && (reply == Nack ==> t.errno == FLASH_WRITE_ERR)
  {
    hide WriteWords;
    var n := |p.payload|;
    var rx: Buffer := p.payload + s.rx[n..];
    WriteWordsEffect(dev, s.chip, s.addr, rx, n);
    NoWords(dev, s.chip, s.addr, rx);
    assert rx[0..n] == p.payload;
  }

  /** Where an acknowledged chunk ends within a word, that word is filled up with what was left in the
      buffer. */
  lemma ChunkFillsItsWord(dev: Device, s: State, p: Packet)
    requires s.upd && InSync(s) && IsChunk(p) && Receive(dev, s, p).1 == Ack
    ensures var n := |p.payload|; var m := Padded(n);
      && n <= m <= RX_UPD_PACKET_SIZE && InFlash(s.addr, m)
      && Bytes(Receive(dev, s, p).0.chip.mem, s.addr + n, m - n) == s.rx[n..m]
  {
    hide WriteWords, SameOutside, Padded;
    var n, m := |p.payload|, Padded(|p.payload|);
    var rx: Buffer := p.payload + s.rx[n..];
    LastWordIsWhole(dev, s.chip, s.addr, rx, 0, n);
    PaddedBounds(n);
    WriteWordsEffect(dev, s.chip, s.addr, rx, m);
    var d := Receive(dev, s, p).0.chip.mem;
    assert Bytes(d, s.addr, m) == rx[0..m];
    TailOf(d, s.addr, rx, n, m);
    assert rx[n..m] == s.rx[n..m];
  }

  /** A count that is a multiple of four writes nothing beyond itself. */
  lemma {:induction false} WholeWords(dev: Device, c: Chip, addr: nat, buf: Buffer, i: nat, count: nat)
    requires i % 4 == 0 && count % 4 == 0 && count <= RX_UPD_PACKET_SIZE
    ensures SameOutside(c.mem, WriteWords(dev, c, addr, buf, i, count).0.mem, addr, addr + count)
    decreases count - i
  {
    hide Program;
    if i >= count {
    } else {
      assert i + 4 <= count;
      ProgramEffect(dev, c, addr + i, buf[i..i + 4]);
      var (e, ok) := Program(dev, c, addr + i, buf[i..i + 4]);
      if ok {
        WholeWords(dev, e, addr, buf, i + 4, count);
      }
    }
  }

  lemma HeaderWords(dev: Device, c: Chip, rx: Buffer)
    ensures var (d, ok) := WriteWords(dev, c, NEW_CORE, rx, 0, HEADER_SIZE);
      && SameOutside(c.mem, d.mem, NEW_CORE, NEW_IMAGE)
      && (d.alive ==> c.alive)
      && (ok ==> Bytes(d.mem, NEW_CORE, HEADER_SIZE) == rx[0..HEADER_SIZE])
  {
    WriteWordsEffect(dev, c, NEW_CORE, rx, HEADER_SIZE);
    WholeWords(dev, c, NEW_CORE, rx, 0, HEADER_SIZE);
  }

  lemma ReceiveHeader(dev: Device, s: State, p: Packet)
    requires s.upd && InSync(s) && IsHeader(p)
    ensures var (t, reply) := Receive(dev, s, p);
      && InSync(t) && t == s.(rx := t.rx, chip := t.chip, errno := t.errno) && (t.chip.alive ==> s.chip.alive)
      && SameOutside(s.chip.mem, t.chip.mem, NEW_CORE, NEW_IMAGE)
      && (reply == Ack ==> Bytes(t.chip.mem, NEW_CORE, HEADER_SIZE) == p.payload && t.errno == s.errno)
      && (reply == Nack ==> t.errno == FLASH_WRITE_ERR)
  {
    var rx: Buffer := p.payload + s.rx[HEADER_SIZE..];
    assert rx[..3] == p.payload[..3];
    HeaderWords(dev, s.chip, rx);
    assert rx[0..HEADER_SIZE] == p.payload;
  }

  /** A chunk whose first `k` words can be programmed and whose next one fails is refused, and writing
      it stops there. */
  lemma ChunkFailsAt(dev: Device, s: State, p: Packet, k: nat, junk: Word, rest: seq<Fate>)
    requires s.upd && s.chip.alive && InSync(s) && IsChunk(p)
    requires 4 * k < |p.payload| && s.addr + 4 * k + 4 <= FLASH_END
    requires s.chip.fates == seq(k, _ => Complete) + [Fail(junk)] + rest
    requires AcceptsWords(dev, s.chip.mem, s.addr, Receive(dev, s, p).0.rx, 0, k)
    ensures var (t, reply) := Receive(dev, s, p);
      && reply == Nack && t == s.(rx := t.rx, errno := 1, chip := t.chip)
      && t.chip.alive && t.chip.fates == rest
      && Bytes(t.chip.mem, s.addr, 4 * k) == p.payload[..4 * k] && Bytes(t.chip.mem, s.addr + 4 * k, 4) == junk
      && SameOutside(s.chip.mem, t.chip.mem, s.addr, s.addr + 4 * k + 4)
  {
    hide WriteWords;
    var rx: Buffer := p.payload + s.rx[|p.payload|..];
    assert Receive(dev, s, p).0.rx == rx;
    WritesFailAt(dev, s.chip, s.addr, rx, 0, 4 * k, |p.payload|, k, junk, rest);
    WrittenBytes(Receive(dev, s, p).0.chip.mem, s.addr, rx, 4 * k);
    assert rx[..4 * k] == p.payload[..4 * k];
  }

  /** So is a header. */
  lemma HeaderFailsAt(dev: Device, s: State, p: Packet, k: nat, junk: Word, rest: seq<Fate>)
    requires s.upd && s.chip.alive && IsHeader(p) && k < 4
    requires s.chip.fates == seq(k, _ => Complete) + [Fail(junk)] + rest
    requires AcceptsWords(dev, s.chip.mem, NEW_CORE, Receive(dev, s, p).0.rx, 0, k)
    ensures var (t, reply) := Receive(dev, s, p);
      && reply == Nack && t == s.(rx := t.rx, errno := 1, chip := t.chip)
      && t.chip.alive && t.chip.fates == rest
      && Bytes(t.chip.mem, NEW_CORE, 4 * k) == p.payload[..4 * k] && Bytes(t.chip.mem, NEW_CORE + 4 * k, 4) == junk
      && SameOutside(s.chip.mem, t.chip.mem, NEW_CORE, NEW_CORE + 4 * k + 4)
  {
    hide WriteWords;
    var rx: Buffer := p.payload + s.rx[HEADER_SIZE..];
    assert rx[..3] == p.payload[..3];
    assert Receive(dev, s, p).0.rx == rx;
    WritesFailAt(dev, s.chip, NEW_CORE, rx, 0, 4 * k, HEADER_SIZE, k, junk, rest);
    WrittenBytes(Receive(dev, s, p).0.chip.mem, NEW_CORE, rx, 4 * k);
    assert rx[..4 * k] == p.payload[..4 * k];
  }

  /** `crc` is acknowledged even when its word could not be written; it lands right after the
      image and counts as no part of it. */
  lemma ReceiveCrc(dev: Device, s: State, p: Packet)
    requires s.upd && InSync(s) && IsCrc(p)
    ensures var (t, reply) := Receive(dev, s, p);
      && InSync(t) && t == s.(rx := t.rx, chip := t.chip, errno := t.errno, crcVal := t.crcVal)
      && (t.chip.alive ==> s.chip.alive)
      && SameOutside(s.chip.mem, t.chip.mem, s.addr, s.addr + 4)
      && (reply == if t.chip.alive then Ack else Silent)
      && (t.crcVal == p.crc != ERASED ==>
            InFlash(s.addr, 4) && Bytes(t.chip.mem, s.addr, 4) == p.crc && t.errno == s.errno)
      && (t.crcVal != p.crc ==> t.crcVal == ERASED && t.errno == FLASH_WRITE_ERR)
  {
  }

  lemma StaysAlive(dev: Device, c: Chip, addr: nat, w: Word)
    requires c.alive && c.fates != [] && !c.fates[0].Cut?
    ensures Program(dev, c, addr, w).0.alive
  {
  }

  /** The unit is fed four times as many bytes as the image has: `crc` hangs the CPU, instead of
      being acknowledged, with the power on exactly when that reaches past the end of the flash. */
  lemma CrcHangsIff(dev: Device, s: State, p: Packet)
    requires s.upd && InSync(s) && IsCrc(p) && s.chip.alive && s.chip.fates != [] && !s.chip.fates[0].Cut?
    ensures Receive(dev, s, p).1 == (if s.total > (FLASH_END - NEW_CORE) / 4 then Silent else Ack)
  {
    hide Program;
    var rx: Buffer := p.payload + s.rx[3..];
    assert rx[..3] == p.payload;
    StaysAlive(dev, s.chip, NEW_CORE + s.total, p.crc);
  }

  lemma ReceiveDel(dev: Device, s: State, p: Packet)
    requires s.upd && IsDel(p)
    ensures var (t, reply) := Receive(dev, s, p); var pages := DelPages(s.total);
      && (InSync(s) ==> InSync(t)) && t == s.(rx := t.rx, chip := t.chip) && (t.chip.alive ==> s.chip.alive)
      && (HasHeader(t.chip.mem) && TearsCleanly(dev, s.chip.mem) ==> t.chip.mem == s.chip.mem)
      && SameOutside(s.chip.mem, t.chip.mem, NEW_CORE, NEW_CORE + pages * PAGE_SIZE)
      && (reply == Ack ==> t.chip.mem == Fill(s.chip.mem, NEW_CORE, NEW_CORE + pages * PAGE_SIZE))
      && (reply == Ack ==> !HasHeader(t.chip.mem))
  {
    var rx: Buffer := p.payload + s.rx[3..];
    assert rx[..3] == p.payload;
    var pages := DelPages(s.total);
    var t := Receive(dev, s, p).0;
    if NEW_CORE + pages * PAGE_SIZE <= LAST_PAGE {
      var k := EraseLoopErasesPrefix(dev, s.chip, NEW_CORE, pages);
      if k == pages {
        assert Bytes(t.chip.mem, NEW_CORE, 3)[0] == 255;
      }
      if TearsCleanly(dev, s.chip.mem) {
        CleanErase(dev, s.chip, pages);
      }
    }
  }

  /** A `del` whose erases fail at page `k` is refused, and erasing stops there. */
  lemma DelFailsAt(dev: Device, s: State, p: Packet, k: nat, junk: Word, rest: seq<Fate>)
    requires s.upd && s.chip.alive && IsDel(p) && k < DelPages(s.total)
    requires NEW_CORE + DelPages(s.total) * PAGE_SIZE <= LAST_PAGE
    requires s.chip.fates == seq(k, _ => Complete) + [Fail(junk)] + rest
    ensures var (t, reply) := Receive(dev, s, p); var at := NEW_CORE + k * PAGE_SIZE;
      && reply == Nack && t == s.(rx := t.rx, chip := t.chip) && t.chip.alive && t.chip.fates == rest
      && Blank(t.chip.mem, NEW_CORE, at) && SameOutside(s.chip.mem, t.chip.mem, NEW_CORE, at + PAGE_SIZE)
  {
    hide Torn, EraseLoop, Fill;
    var rx: Buffer := p.payload + s.rx[3..];
    assert rx[..3] == p.payload;
    EraseLoopFailsAt(dev, s.chip, NEW_CORE, DelPages(s.total), k, junk, rest);
    FailedEraseLeaves(dev, s.chip.mem, NEW_CORE, k, junk);
  }

  /** Every other packet leaves the flash and the position alone: `reb` stops the run, anything else
      that fits the receive buffer is refused, and what does not fit is dropped. */
  lemma ReceiveOther(dev: Device, s: State, p: Packet)
    requires s.upd && !IsChunk(p) && !IsHeader(p) && !IsDel(p) && !IsCrc(p)
    ensures var (t, reply) := Receive(dev, s, p);
      && t == s.(rx := t.rx, chip := t.chip)
      && t.chip == s.chip.(alive := s.chip.alive && p.payload != REB)
      && reply == if |p.payload| > RX_UPD_PACKET_SIZE || !t.chip.alive then Silent else Nack
  {
  }

  /** The power stays on for the next `n` operations. */
  ghost predicate PowerStays(fates: seq<Fate>, n: nat) {
    n <= |fates| && forall i :: 0 <= i < n ==> !fates[i].Cut?
  }

  lemma {:induction false} WritesStayOn(dev: Device, c: Chip, addr: nat, buf: Buffer, i: nat, count: nat, n: nat)
    requires i % 4 == 0 && count <= RX_UPD_PACKET_SIZE && count <= i + 4 * n && c.alive && PowerStays(c.fates, n)
    ensures WriteWords(dev, c, addr, buf, i, count).0.alive
    decreases n
  {
    if i < count {
      var (e, ok) := Program(dev, c, addr + i, buf[i..i + 4]);
      if ok {
        assert e.fates == c.fates[1..];
        WritesStayOn(dev, e, addr, buf, i + 4, count, n - 1);
      }
    }
  }

  lemma {:induction false} ErasesStayOn(dev: Device, c: Chip, addr: nat, n: nat)
    requires c.alive && PowerStays(c.fates, n)
    ensures EraseLoop(dev, c, addr, n).0.alive
    decreases n
  {
    if n > 0 {
      var (e, ok) := Erase(dev, c, addr);
      if ok {
        assert e.fates == c.fates[1..];
        ErasesStayOn(dev, e, addr + PAGE_SIZE, n - 1);
      }
    }
  }

  /** Which packets are left without an answer while the power stays on: those that are too long, a
      reboot, and a `crc` of more than the flash lets the unit be fed with. */
  lemma AnsweredIff(dev: Device, s: State, p: Packet)
    requires s.upd && s.chip.alive && InSync(s) && PowerStays(s.chip.fates, 0x100)
    ensures Receive(dev, s, p).1 == Silent <==>
      |p.payload| > 512 || Spells(p.payload, "reb") || (Spells(p.payload, "crc") && s.total > 0xC000)
  {
    hide WriteWords, EraseLoop, Program, Spells;
    var n := |p.payload|;
    WordsSpell(p.payload, s.chip.mem);
    if n <= RX_UPD_PACKET_SIZE {
      var rx: Buffer := p.payload + s.rx[n..];
      assert n >= 3 ==> rx[..3] == p.payload[..3];
      assert n == 3 ==> p.payload[..3] == p.payload;
      assert forall i :: 0 <= i <= 0x100 ==> PowerStays(s.chip.fates, i);
      WritesStayOn(dev, s.chip, if n == HEADER_SIZE then NEW_CORE else s.addr, rx, 0, n, 0x80);
      ErasesStayOn(dev, s.chip, NEW_CORE, DelPages(s.total));
      StaysAlive(dev, s.chip, NEW_CORE + s.total, p.crc);
    }
  }

  /** The return codes: 3 for what is no command, 1 and 2 from the erase, 4 with errno set when a word
      could not be written. */
  lemma HandleCode(dev: Device, s: State, count: nat, crc: Word)
    requires count <= RX_UPD_PACKET_SIZE
    ensures var (t, code) := Handle(dev, s, count, crc); var tag := s.rx[..3];
      && (code == 3 <==> (count == 16 && !Spells(tag, "ver")) ||
                         (count == 3 && !Spells(tag, "del") && !Spells(tag, "crc") && !Spells(tag, "reb")))
      && (count == 3 && Spells(tag, "del") ==>
            (t.chip, code) == EraseSector(dev, s.chip, 0x0801_0000, DelPages(s.total)))
      && (count == 3 && (Spells(tag, "crc") || Spells(tag, "reb")) ==> code == 0)
      && (count != 3 ==> code == 0 || code == 3 || (code == 4 && t.errno == 1))
  {
    hide WriteWords, EraseLoop, Program, Spells;
    WordsSpell(s.rx[..3], s.chip.mem);
    var k := EraseLoopErasesPrefix(dev, s.chip, NEW_CORE, DelPages(s.total));
  }

  // ---------- runs ----------

  /** What is staged so far: `data` from the first byte after the header up to `addr`. */
  ghost predicate Holds(s: State, data: seq<byte>) {
    InSync(s) && s.total == HEADER_SIZE + |data| && Bytes(s.chip.mem, NEW_IMAGE, |data|) == data
  }

  lemma HoldsFrame(s: State, t: State, data: seq<byte>)
    requires Holds(s, data) && InSync(t) && t.total == s.total
    requires SameOutside(s.chip.mem, t.chip.mem, s.addr, FLASH_END) ||
             SameOutside(s.chip.mem, t.chip.mem, NEW_CORE, NEW_IMAGE)
    ensures Holds(t, data)
  {
  }

  lemma HoldsGrows(s: State, t: State, data: seq<byte>, chunk: seq<byte>)
    requires Holds(s, data) && InSync(t) && t.total == s.total + |chunk|
    requires SameOutside(s.chip.mem, t.chip.mem, s.addr, FLASH_END)
    requires InFlash(s.addr, |chunk|) && Bytes(t.chip.mem, s.addr, |chunk|) == chunk
    ensures Holds(t, data + chunk)
  {
  }

  /** One packet other than `del` adds exactly what it has acknowledged. */
  lemma ReceiveKeepsChunks(dev: Device, s: State, p: Packet, data: seq<byte>)
    requires s.chip.alive && Holds(s, data) && !IsDel(p)
    ensures Holds(Receive(dev, s, p).0, data + Acknowledged(dev, s, p))
  {
    hide Receive;
    var (t, reply) := Receive(dev, s, p);
    assert data + [] == data;
    if !s.upd {
      IdleReceive(dev, s, p);
    } else if IsChunk(p) {
      ReceiveChunk(dev, s, p);
      if reply == Ack {
        HoldsGrows(s, t, data, p.payload);
      } else {
        HoldsFrame(s, t, data);
      }
    } else if IsHeader(p) {
      ReceiveHeader(dev, s, p);
      HoldsFrame(s, t, data);
    } else if IsCrc(p) {
      ReceiveCrc(dev, s, p);
      HoldsFrame(s, t, data);
    } else {
      ReceiveOther(dev, s, p);
    }
  }

  /** Over every run without `del` the staged bytes up to `addr` are the acknowledged chunks, joined
      in order; refused chunks, headers and `crc` never disturb them. */
  lemma {:induction false} RunKeepsChunks(dev: Device, s: State, ps: seq<Packet>, data: seq<byte>)
    requires Holds(s, data) && forall i :: 0 <= i < |ps| ==> !IsDel(ps[i])
    ensures Holds(Run(dev, s, ps), data + AcknowledgedAll(dev, s, ps))
    decreases |ps|
  {
    hide Receive, Acknowledged;
    if ps == [] || !s.chip.alive {
      assert data + [] == data;
    } else {
      var t := Receive(dev, s, ps[0]).0;
      var chunk := Acknowledged(dev, s, ps[0]);
      ReceiveKeepsChunks(dev, s, ps[0], data);
      RunKeepsChunks(dev, t, ps[1..], data + chunk);
      var rest := AcknowledgedAll(dev, t, ps[1..]);
      assert data + chunk + rest == data + (chunk + rest);
    }
  }

  /** Exactly when a successful `del` leaves the staged bytes as they were: when what it erases was
      blank.  The position is not reset, so otherwise later chunks extend a hole. */
  lemma DelKeepsChunksIff(dev: Device, s: State, p: Packet, data: seq<byte>)
    requires s.upd && Holds(s, data) && IsDel(p) && Receive(dev, s, p).1 == Ack
    ensures Holds(Receive(dev, s, p).0, data) <==>
      forall i :: 0 <= i < |data| && HEADER_SIZE + i < DelPages(s.total) * PAGE_SIZE ==> data[i] == 255
  {
    hide Receive;
    ReceiveDel(dev, s, p);
    var t := Receive(dev, s, p).0;
    var x := Bytes(t.chip.mem, NEW_IMAGE, |data|);
    var y := Bytes(s.chip.mem, NEW_IMAGE, |data|);
    assert forall i :: 0 <= i < |data| ==>
      x[i] == if HEADER_SIZE + i < DelPages(s.total) * PAGE_SIZE then 255 else y[i];
  }

  /** The header the run leaves in place: the last one acknowledged, unless a later one failed. */
  function LastHeader(dev: Device, s: State, ps: seq<Packet>, h: seq<byte>): seq<byte>
    decreases |ps|
  {
    if ps == [] || !s.chip.alive then h
    else
      var (t, reply) := Receive(dev, s, ps[0]);
      LastHeader(dev, t, ps[1..],
        if !(s.upd && IsHeader(ps[0])) then h else if reply == Ack then ps[0].payload else [])
  }

  ghost predicate HeaderIs(m: Memory, h: seq<byte>) {
    h == [] || (|h| == HEADER_SIZE && h[..3] == VER && Bytes(m, NEW_CORE, HEADER_SIZE) == h)
  }

  /** The packets other than headers and `del` leave the header area alone. */
  lemma ReceiveKeepsHeader(dev: Device, s: State, p: Packet)
    requires InSync(s) && !(s.upd && (IsDel(p) || IsHeader(p)))
    ensures var t := Receive(dev, s, p).0;
      InSync(t) && Bytes(t.chip.mem, NEW_CORE, HEADER_SIZE) == Bytes(s.chip.mem, NEW_CORE, HEADER_SIZE)
  {
    hide Receive;
    var t := Receive(dev, s, p).0;
    if !s.upd {
      IdleReceive(dev, s, p);
    } else if IsChunk(p) {
      ReceiveChunk(dev, s, p);
    } else if IsCrc(p) {
      ReceiveCrc(dev, s, p);
    } else {
      ReceiveOther(dev, s, p);
    }
    assert Bytes(t.chip.mem, NEW_CORE, HEADER_SIZE) == Bytes(s.chip.mem, NEW_CORE, HEADER_SIZE);
  }

  lemma {:induction false} RunKeepsHeader(dev: Device, s: State, ps: seq<Packet>, h: seq<byte>)
    requires InSync(s) && HeaderIs(s.chip.mem, h) && forall i :: 0 <= i < |ps| ==> !IsDel(ps[i])
    ensures HeaderIs(Run(dev, s, ps).chip.mem, LastHeader(dev, s, ps, h))
    decreases |ps|
  {
    hide Receive;
    if ps == [] || !s.chip.alive {
    } else {
      var p := ps[0];
      var (t, reply) := Receive(dev, s, p);
      if s.upd && IsHeader(p) {
        ReceiveHeader(dev, s, p);
        RunKeepsHeader(dev, t, ps[1..], if reply == Ack then p.payload else []);
      } else {
        ReceiveKeepsHeader(dev, s, p);
        RunKeepsHeader(dev, t, ps[1..], h);
      }
    }
  }

  lemma SameHeader(m: Memory, r: Memory)
    requires Bytes(m, NEW_CORE, HEADER_SIZE) == Bytes(r, NEW_CORE, HEADER_SIZE)
    ensures HasHeader(m) == HasHeader(r) && HeaderSize(m) == HeaderSize(r)
  {
  }

  /** No packet, `del` included, reaches below the staging area or loses the position. */
  lemma ReceiveStaysInStaging(dev: Device, s: State, p: Packet)
    requires InSync(s)
    ensures var t := Receive(dev, s, p).0;
      && InSync(t) && SameOutside(s.chip.mem, t.chip.mem, NEW_CORE, FLASH_END)
      && t.upd == (s.upd || IsRequest(p))
      && (CleanTears(dev) && !IsHeader(p) && !HasHeader(s.chip.mem) ==> !HasHeader(t.chip.mem))
  {
    hide Receive;
    var t := Receive(dev, s, p).0;
    if s.upd && IsHeader(p) {
      ReceiveHeader(dev, s, p);
    } else if s.upd && IsDel(p) {
      ReceiveDel(dev, s, p);
    } else {
      ReceiveKeepsHeader(dev, s, p);
      SameHeader(s.chip.mem, t.chip.mem);
      if !s.upd {
        IdleReceive(dev, s, p);
      } else if IsChunk(p) {
        ReceiveChunk(dev, s, p);
      } else if IsCrc(p) {
        ReceiveCrc(dev, s, p);
      } else {
        ReceiveOther(dev, s, p);
      }
    }
  }

  /** Over every run the current core is untouched, the update mode never clears once entered, and
      without a header packet no header appears. */
  lemma {:induction false} RunStaysInStaging(dev: Device, s: State, ps: seq<Packet>)
    requires InSync(s)
    ensures var t := Run(dev, s, ps);
      && InSync(t) && SameOutside(s.chip.mem, t.chip.mem, NEW_CORE, FLASH_END)
      && (s.upd ==> t.upd)
      && (CleanTears(dev) && !HasHeader(s.chip.mem) && (forall i :: 0 <= i < |ps| ==> !IsHeader(ps[i])) ==>
            !HasHeader(t.chip.mem))
    decreases |ps|
  {
    hide Receive;
    if ps == [] || !s.chip.alive {
    } else {
      ReceiveStaysInStaging(dev, s, ps[0]);
      RunStaysInStaging(dev, Receive(dev, s, ps[0]).0, ps[1..]);
    }
  }

  /** Until a three-byte `upd` arrives nothing changes but the receive buffer; any such packet
      starts the update. */
  lemma {:induction false} UpdateStartsOnRequest(dev: Device, s: State, ps: seq<Packet>)
    requires InSync(s) && !s.upd && s.chip.alive
    ensures Run(dev, s, ps).upd <==> exists i :: 0 <= i < |ps| && IsRequest(ps[i])
    ensures (forall i :: 0 <= i < |ps| ==> !IsRequest(ps[i])) ==>
      Run(dev, s, ps) == s.(rx := Run(dev, s, ps).rx)
    decreases |ps|
  {
    hide Receive;
    if ps == [] {
    } else {
      var t := Receive(dev, s, ps[0]).0;
      IdleReceive(dev, s, ps[0]);
      assert forall i :: 0 <= i < |ps| - 1 ==> ps[1..][i] == ps[i + 1];
      if t.upd {
        RunStaysInStaging(dev, t, ps[1..]);
      } else {
        UpdateStartsOnRequest(dev, t, ps[1..]);
        if exists i :: 0 <= i < |ps| && IsRequest(ps[i]) {
          var i :| 0 <= i < |ps| && IsRequest(ps[i]);
          assert IsRequest(ps[1..][i - 1]);
        }
      }
    }
  }

  /** A core that was never asked for an update has nothing to report, and nothing in its buffer but
      what it received. */
  lemma IdleRunReportsNothing(dev: Device, c: Chip, ps: seq<Packet>)
    requires c.alive && forall i :: 0 <= i < |ps| ==> !IsRequest(ps[i])
    ensures var t := Run(dev, Fresh(c), ps);
      !t.upd && t.chip == c && t.errno == 0 && t.crcVal == [0, 0, 0, 0] && (ps == [] ==> t.rx == seq(512, _ => 0))
  {
    hide Receive;
    UpdateStartsOnRequest(dev, Fresh(c), ps);
  }
}
