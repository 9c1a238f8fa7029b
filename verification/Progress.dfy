/** Updates that succeed: with no failures a blank staging area takes every chunk and the header. */
module Progress {
  import opened Flash
  import opened Bootloader
  import opened BootSafety
  import opened BootLimits
  import opened Updater
  import opened Staging
  import opened System

  /** What a blank range keeps: all of its parts outside the writes. */
  lemma BlankFrame(m: Memory, e: Memory, low: nat, high: nat, from: nat, to: nat)
    requires SameOutside(m, e, low, high) && Blank(m, from, to) && FLASH_BASE <= from && to <= FLASH_END
    ensures forall a, b :: from <= a <= b <= to && (b <= low || high <= a) ==> Blank(e, a, b)
  {
  }

  lemma ProgramsBlankWord(dev: Device, c: Chip, addr: nat, w: Word)
    requires ProgramsErased(dev) && c.alive && FailureFree(c.fates, 1)
    requires addr % 4 == 0 && InFlash(addr, 4) && Blank(c.mem, addr, addr + 4)
    ensures var (e, ok) := Program(dev, c, addr, w);
      ok && e.alive && e.fates == c.fates[1..] && SameOutside(c.mem, e.mem, addr, addr + 4)
  {
    assert Bytes(c.mem, addr, 4) == ERASED;
  }

  lemma {:induction false} WriteWordsCompletes(dev: Device, c: Chip, addr: nat, buf: Buffer,
                                               i: nat, count: nat, n: nat)
    requires i % 4 == 0 && count == i + 4 * n && count <= RX_UPD_PACKET_SIZE
    requires addr % 4 == 0 && FLASH_BASE <= addr && addr + count <= FLASH_END
    requires ProgramsErased(dev) && c.alive && Blank(c.mem, addr + i, addr + count)
    requires FailureFree(c.fates, n)
    ensures var (d, ok) := WriteWords(dev, c, addr, buf, i, count);
      ok && d.alive && d.fates == c.fates[n..]
    decreases n
  {
    hide Program, SameOutside, Blank, ProgramsErased;
    if n == 0 {
    } else {
      BlankFrame(c.mem, c.mem, FLASH_BASE, FLASH_BASE, addr + i, addr + count);
      ProgramsBlankWord(dev, c, addr + i, buf[i..i + 4]);
      var e := Program(dev, c, addr + i, buf[i..i + 4]).0;
      BlankFrame(c.mem, e.mem, addr + i, addr + i + 4, addr + i, addr + count);
      assert e.fates == c.fates[1..] && FailureFree(e.fates, n - 1);
      WriteWordsCompletes(dev, e, addr, buf, i + 4, count, n - 1);
      assert e.fates[n - 1..] == c.fates[n..];
    }
  }

  lemma ProgramNeedsErased(dev: Device, c: Chip, addr: nat, w: Word)
    requires OnlyErased(dev) && InFlash(addr, 4) && Program(dev, c, addr, w).1
    ensures Blank(c.mem, addr, addr + 4)
    ensures SameOutside(c.mem, Program(dev, c, addr, w).0.mem, addr, addr + 4)
  {
    var word, o := Bytes(c.mem, addr, 4), addr - FLASH_BASE;
    assert word[0] == c.mem[o] && word[1] == c.mem[o + 1] && word[2] == c.mem[o + 2] && word[3] == c.mem[o + 3];
  }

  lemma {:induction false} WriteWordsNeedsBlank(dev: Device, c: Chip, addr: nat, buf: Buffer, i: nat, count: nat)
    requires OnlyErased(dev)
    requires i % 4 == 0 && count % 4 == 0 && i <= count <= RX_UPD_PACKET_SIZE
    requires FLASH_BASE <= addr && addr + count <= FLASH_END && WriteWords(dev, c, addr, buf, i, count).1
    ensures Blank(c.mem, addr + i, addr + count)
    decreases count - i
  {
    hide Program;
    if i == count {
    } else {
      assert i + 4 <= count;
      var e := Program(dev, c, addr + i, buf[i..i + 4]).0;
      ProgramNeedsErased(dev, c, addr + i, buf[i..i + 4]);
      WriteWordsNeedsBlank(dev, e, addr, buf, i + 4, count);
    }
  }

  lemma ChunkNeedsBlank(dev: Device, s: State, p: Packet)
    requires OnlyErased(dev) && s.upd && InSync(s) && IsChunk(p) && |p.payload| % 4 == 0
    requires s.addr + |p.payload| <= FLASH_END && Receive(dev, s, p).1 == Ack
    ensures Blank(s.chip.mem, s.addr, s.addr + |p.payload|)
  {
    hide WriteWords;
    var n := |p.payload|;
    var rx: Buffer := p.payload + s.rx[n..];
    WriteWordsNeedsBlank(dev, s.chip, s.addr, rx, 0, n);
  }

  /** A chunk of whole words onto blank flash is acknowledged. */
  lemma ChunkIsAcknowledged(dev: Device, s: State, p: Packet)
    requires ProgramsErased(dev) && s.upd && s.chip.alive && InSync(s) && s.total % 4 == 0
    requires IsChunk(p) && |p.payload| % 4 == 0 && s.addr + |p.payload| <= FLASH_END
    requires Blank(s.chip.mem, s.addr, s.addr + |p.payload|) && FailureFree(s.chip.fates, |p.payload| / 4)
    ensures var (t, reply) := Receive(dev, s, p);
      && reply == Ack && t.chip.alive && t.chip.fates == s.chip.fates[|p.payload| / 4..]
      && SameOutside(s.chip.mem, t.chip.mem, s.addr, s.addr + |p.payload|)
  {
    hide WriteWords;
    var n := |p.payload|;
    var rx: Buffer := p.payload + s.rx[n..];
    WriteWordsCompletes(dev, s.chip, s.addr, rx, 0, n, n / 4);
    WholeWords(dev, s.chip, s.addr, rx, 0, n);
  }

  /** On flash that only programs erased words a chunk of whole words, with no failures, is
      acknowledged exactly when its place is blank. */
  lemma ChunkIsAcknowledgedIff(dev: Device, s: State, p: Packet)
    requires OnlyErased(dev) && s.upd && s.chip.alive && InSync(s) && s.total % 4 == 0
    requires IsChunk(p) && |p.payload| % 4 == 0 && s.addr + |p.payload| <= FLASH_END
    requires FailureFree(s.chip.fates, |p.payload| / 4)
    ensures Receive(dev, s, p).1 == Ack <==> Blank(s.chip.mem, s.addr, s.addr + |p.payload|)
  {
    hide Receive;
    if Blank(s.chip.mem, s.addr, s.addr + |p.payload|) {
      ChunkIsAcknowledged(dev, s, p);
    } else if Receive(dev, s, p).1 == Ack {
      ChunkNeedsBlank(dev, s, p);
    }
  }

  lemma HeaderIsAcknowledged(dev: Device, s: State, p: Packet)
    requires ProgramsErased(dev) && s.upd && s.chip.alive && InSync(s) && IsHeader(p)
    requires Blank(s.chip.mem, NEW_CORE, NEW_IMAGE) && FailureFree(s.chip.fates, 4)
    ensures var (t, reply) := Receive(dev, s, p);
      reply == Ack && t.chip.alive && t.chip.fates == s.chip.fates[4..]
  {
    hide WriteWords;
    var rx: Buffer := p.payload + s.rx[HEADER_SIZE..];
    assert rx[..3] == p.payload[..3];
    WriteWordsCompletes(dev, s.chip, NEW_CORE, rx, 0, HEADER_SIZE, 4);
  }

  lemma HeaderNeedsBlank(dev: Device, s: State, p: Packet)
    requires OnlyErased(dev) && s.upd && IsHeader(p) && Receive(dev, s, p).1 == Ack
    ensures Blank(s.chip.mem, NEW_CORE, NEW_IMAGE)
  {
    hide WriteWords;
    var rx: Buffer := p.payload + s.rx[HEADER_SIZE..];
    assert rx[..3] == p.payload[..3];
    WriteWordsNeedsBlank(dev, s.chip, NEW_CORE, rx, 0, HEADER_SIZE);
  }

  /** `crc` after an image of whole words: the value the unit gives is kept and lies right behind it. */
  lemma CrcLands(dev: Device, s: State, p: Packet)
    requires ProgramsErased(dev) && s.upd && s.chip.alive && InSync(s) && s.total % 4 == 0 && IsCrc(p)
    requires InFlash(NEW_CORE, 4 * s.total) && Blank(s.chip.mem, s.addr, s.addr + 4) && FailureFree(s.chip.fates, 1)
    ensures var (t, reply) := Receive(dev, s, p);
      reply == Ack && t.crcVal == p.crc && Bytes(t.chip.mem, s.addr, 4) == p.crc
  {
    hide Program;
    var rx: Buffer := p.payload + s.rx[3..];
    assert rx[..3] == p.payload;
    ProgramsBlankWord(dev, s.chip, s.addr, p.crc);
    ProgramEffect(dev, s.chip, s.addr, p.crc);
  }

  /** The words a run of chunks and headers programs. */
  function WordsOf(ps: seq<Packet>): nat {
    if ps == [] then 0 else |ps[0].payload| / 4 + WordsOf(ps[1..])
  }

  predicate WellFormed(ps: seq<Packet>) {
    forall i :: 0 <= i < |ps| ==> IsHeader(ps[i]) || (IsChunk(ps[i]) && |ps[i].payload| % 4 == 0)
  }

  predicate AtMostOneHeader(ps: seq<Packet>) {
    forall i, j :: 0 <= i < j < |ps| ==> !(IsHeader(ps[i]) && IsHeader(ps[j]))
  }

  predicate HasOneIn(ps: seq<Packet>) { exists i :: 0 <= i < |ps| && IsHeader(ps[i]) }

  lemma HeadersSplit(ps: seq<Packet>)
    requires ps != []
    ensures HasOneIn(ps) <==> IsHeader(ps[0]) || HasOneIn(ps[1..])
    ensures AtMostOneHeader(ps) <==> AtMostOneHeader(ps[1..]) && !(IsHeader(ps[0]) && HasOneIn(ps[1..]))
  {
    var rest := ps[1..];
    assert forall i :: 0 <= i < |rest| ==> rest[i] == ps[i + 1];
    assert forall i :: 0 <= i < |ps| && i != 0 ==> ps[i] == rest[i - 1];
  }

  /** The place of the packets is blank: of the chunks, from `addr` on, and of the one header, if any. */
  ghost predicate PlaceIsBlank(m: Memory, addr: nat, ps: seq<Packet>) {
    && AtMostOneHeader(ps) && (HasOneIn(ps) ==> Blank(m, NEW_CORE, NEW_IMAGE))
    && Blank(m, addr, addr + |Payloads(ps)|)
  }

  lemma PlaceAfterHeader(m: Memory, t: Memory, addr: nat, ps: seq<Packet>)
    requires ps != [] && IsHeader(ps[0]) && addr >= NEW_IMAGE && SameOutside(m, t, NEW_CORE, NEW_IMAGE)
    requires Blank(m, NEW_CORE, NEW_IMAGE) && Bytes(t, NEW_CORE, HEADER_SIZE) == ps[0].payload
    ensures PlaceIsBlank(t, addr, ps[1..]) <==> PlaceIsBlank(m, addr, ps)
  {
    HeadersSplit(ps);
    assert t[NEW_CORE - FLASH_BASE] == Bytes(t, NEW_CORE, HEADER_SIZE)[0] == ps[0].payload[..3][0];
    assert Payloads(ps) == Payloads(ps[1..]);
  }

  lemma PlaceAfterChunk(m: Memory, t: Memory, addr: nat, ps: seq<Packet>)
    requires ps != [] && IsChunk(ps[0]) && addr >= NEW_IMAGE
    requires SameOutside(m, t, addr, addr + |ps[0].payload|) && Blank(m, addr, addr + |ps[0].payload|)
    ensures PlaceIsBlank(t, addr + |ps[0].payload|, ps[1..]) <==> PlaceIsBlank(m, addr, ps)
  {
    HeadersSplit(ps);
  }

  lemma NothingToPlace(m: Memory, addr: nat)
    ensures PlaceIsBlank(m, addr, [])
  {
  }

  lemma FailuresSplit(fates: seq<Fate>, m: nat, n: nat)
    requires FailureFree(fates, m + n)
    ensures FailureFree(fates, m) && FailureFree(fates[m..], n)
  {
  }

  lemma CountSplit(ps: seq<Packet>)
    requires ps != [] && WellFormed(ps)
    ensures WordsOf(ps) == |ps[0].payload| / 4 + WordsOf(ps[1..]) && |ps[0].payload| % 4 == 0
    ensures |Payloads(ps)| == (if IsHeader(ps[0]) then 0 else |ps[0].payload|) + |Payloads(ps[1..])|
  {
  }

  /** What the packets need to be acknowledged, but for a blank place. */
  ghost predicate Ready(s: State, ps: seq<Packet>) {
    && s.upd && s.chip.alive && InSync(s) && s.total % 4 == 0
    && s.addr + |Payloads(ps)| <= FLASH_END && FailureFree(s.chip.fates, WordsOf(ps))
  }

  lemma ReadyIsAlive(s: State, ps: seq<Packet>)
    requires Ready(s, ps)
    ensures s.chip.alive
  {
  }

  /** A header first: acknowledged if its place is blank, and then the others' is what it was. */
  lemma HeaderGoesFirst(dev: Device, s: State, ps: seq<Packet>)
    requires ProgramsErased(dev) && Ready(s, ps) && ps != [] && WellFormed(ps) && IsHeader(ps[0])
    requires Blank(s.chip.mem, NEW_CORE, NEW_IMAGE)
    ensures var (t, reply) := Receive(dev, s, ps[0]);
      && reply == Ack && Ready(t, ps[1..])
      && (PlaceIsBlank(t.chip.mem, t.addr, ps[1..]) <==> PlaceIsBlank(s.chip.mem, s.addr, ps))
  {
    hide Receive, PlaceIsBlank, FailureFree, ProgramsErased, WordsOf, Payloads, Blank, SameOutside;
    CountSplit(ps);
    FailuresSplit(s.chip.fates, 4, WordsOf(ps[1..]));
    HeaderIsAcknowledged(dev, s, ps[0]);
    ReceiveHeader(dev, s, ps[0]);
    PlaceAfterHeader(s.chip.mem, Receive(dev, s, ps[0]).0.chip.mem, s.addr, ps);
  }

  lemma ChunkGoesFirst(dev: Device, s: State, ps: seq<Packet>)
    requires ProgramsErased(dev) && Ready(s, ps) && ps != [] && WellFormed(ps) && IsChunk(ps[0])
    requires Blank(s.chip.mem, s.addr, s.addr + |ps[0].payload|)
    ensures var (t, reply) := Receive(dev, s, ps[0]);
      && reply == Ack && Ready(t, ps[1..])
      && (PlaceIsBlank(t.chip.mem, t.addr, ps[1..]) <==> PlaceIsBlank(s.chip.mem, s.addr, ps))
  {
    hide Receive, PlaceIsBlank, FailureFree, ProgramsErased, WordsOf, Payloads, Blank, SameOutside;
    CountSplit(ps);
    FailuresSplit(s.chip.fates, |ps[0].payload| / 4, WordsOf(ps[1..]));
    ChunkIsAcknowledged(dev, s, ps[0]);
    ReceiveChunk(dev, s, ps[0]);
    PlaceAfterChunk(s.chip.mem, Receive(dev, s, ps[0]).0.chip.mem, s.addr, ps);
  }

  lemma FirstPlace(dev: Device, s: State, ps: seq<Packet>)
    requires Ready(s, ps) && ps != [] && WellFormed(ps)
    requires PlaceIsBlank(s.chip.mem, s.addr, ps) || (OnlyErased(dev) && Receive(dev, s, ps[0]).1 == Ack)
    ensures if IsHeader(ps[0]) then Blank(s.chip.mem, NEW_CORE, NEW_IMAGE)
            else Blank(s.chip.mem, s.addr, s.addr + |ps[0].payload|)
  {
    hide Receive, FailureFree;
    if PlaceIsBlank(s.chip.mem, s.addr, ps) {
    } else if IsHeader(ps[0]) {
      HeaderNeedsBlank(dev, s, ps[0]);
    } else {
      ChunkNeedsBlank(dev, s, ps[0]);
    }
  }

  /** With no failures, chunks of whole words and a header are all acknowledged if their place is
      blank, and on flash that only programs erased words exactly then. */
  lemma {:induction false} BlankStagingAcknowledges(dev: Device, s: State, ps: seq<Packet>)
    requires ProgramsErased(dev) && Ready(s, ps) && WellFormed(ps)
    ensures PlaceIsBlank(s.chip.mem, s.addr, ps) ==> AllAcknowledged(dev, s, ps)
    ensures OnlyErased(dev) && AllAcknowledged(dev, s, ps) ==> PlaceIsBlank(s.chip.mem, s.addr, ps)
    decreases |ps|
  {
    hide Receive, ProgramsErased, OnlyErased, Ready, Blank;
    ReadyIsAlive(s, ps);
    if ps == [] {
      NothingToPlace(s.chip.mem, s.addr);
    } else if PlaceIsBlank(s.chip.mem, s.addr, ps) || (OnlyErased(dev) && Receive(dev, s, ps[0]).1 == Ack) {
      FirstPlace(dev, s, ps);
      if IsHeader(ps[0]) {
        HeaderGoesFirst(dev, s, ps);
      } else {
        ChunkGoesFirst(dev, s, ps);
      }
      assert forall i :: 0 <= i < |ps| - 1 ==> ps[1..][i] == ps[i + 1];
      BlankStagingAcknowledges(dev, Receive(dev, s, ps[0]).0, ps[1..]);
    }
  }

  // ---------- updates, one after the other ----------

  /** An update: the packets a running core receives, how the flash operations of that core end, the
      interrupted boots that follow, and the boot that is not. */
  datatype Update = Update(request: Packet, packets: seq<Packet>, appFates: seq<Fate>,
                           scripts: seq<seq<Fate>>, last: seq<Fate>)
  {
    /** The request, then chunks of whole words and headers among them, the last of which asks for at
        least the chunks and for no more than is erased; nothing fails but the interrupted boots. */
    ghost predicate Regular() {
      && IsRequest(request) && WellFormed(packets) && AsksFor(HeaderIn(packets, []), |Payloads(packets)|)
      && FailureFree(appFates, WordsOf(packets))
      && FailureFree(last, CORE_PAGES + SizeIn(HeaderIn(packets, [])) + PAGES_TO_ERASE)
    }
  }

  /** The updater once it has the request. */
  function Requested(dev: Device, m: Memory, u: Update): State {
    Receive(dev, Fresh(Chip(m, u.appFates, true)), u.request).0
  }

  /** The flash when the core has received everything. */
  function Received(dev: Device, m: Memory, u: Update): Memory {
    Run(dev, Fresh(Chip(m, u.appFates, true)), [u.request] + u.packets).chip.mem
  }

  /** The flash after the last boot. */
  function Updated(dev: Device, m: Memory, u: Update): Memory {
    Boots(dev, Received(dev, m, u), u.scripts + [u.last])
  }

  /** Every packet is acknowledged, the request first, and the chunks are the first bytes of the new
      core. */
  ghost predicate GoesThrough(dev: Device, m: Memory, u: Update) {
    && Receive(dev, Fresh(Chip(m, u.appFates, true)), u.request).1 == Ack
    && AllAcknowledged(dev, Requested(dev, m, u), u.packets)
    && StartsWith(Updated(dev, m, u), Payloads(u.packets)) && !HasHeader(Updated(dev, m, u))
  }

  lemma RequestOnly(dev: Device, m: Memory, u: Update)
    requires IsRequest(u.request)
    ensures var s := Requested(dev, m, u);
      s.upd && s.chip == Chip(m, u.appFates, true) && s.addr == NEW_IMAGE && s.total == HEADER_SIZE && InSync(s)
    ensures Receive(dev, Fresh(Chip(m, u.appFates, true)), u.request).1 == Ack
  {
    hide Receive;
    IdleReceive(dev, Fresh(Chip(m, u.appFates, true)), u.request);
  }

  /** A whole update goes through, however often the boots that install it are interrupted before one
      is not, if the place of its packets is blank, and on flash that only programs erased words
      exactly then. */
  lemma UpdateGoesThroughIff(dev: Device, m: Memory, u: Update)
    requires ProgramsErased(dev) && CleanTears(dev) && u.Regular()
    ensures PlaceIsBlank(m, NEW_IMAGE, u.packets) ==> GoesThrough(dev, m, u)
    ensures OnlyErased(dev) && GoesThrough(dev, m, u) ==> PlaceIsBlank(m, NEW_IMAGE, u.packets)
  {
    hide Receive, Run, Boots, AllAcknowledged, PlaceIsBlank;
    RequestOnly(dev, m, u);
    BlankStagingAcknowledges(dev, Requested(dev, m, u), u.packets);
    if PlaceIsBlank(m, NEW_IMAGE, u.packets) {
      EndToEndUpdate(dev, Chip(m, u.appFates, true), u.request, u.packets, u.scripts, u.last);
    }
  }

  ghost predicate AllRegular(us: seq<Update>) { forall i :: 0 <= i < |us| ==> us[i].Regular() }

  /** Each update finds the place of its packets blank. */
  ghost predicate AllFindBlank(dev: Device, m: Memory, us: seq<Update>)
    decreases |us|
  {
    us == [] || (PlaceIsBlank(m, NEW_IMAGE, us[0].packets) && AllFindBlank(dev, Updated(dev, m, us[0]), us[1..]))
  }

  ghost predicate AllGoThrough(dev: Device, m: Memory, us: seq<Update>)
    decreases |us|
  {
    us == [] || (GoesThrough(dev, m, us[0]) && AllGoThrough(dev, Updated(dev, m, us[0]), us[1..]))
  }

  /** One update after the other, for as long as one likes: all go through if each finds its place
      blank, and on flash that only programs erased words exactly then. */
  lemma {:induction false} UpdatesFollowUpdates(dev: Device, m: Memory, us: seq<Update>)
    requires ProgramsErased(dev) && CleanTears(dev) && AllRegular(us)
    ensures AllFindBlank(dev, m, us) ==> AllGoThrough(dev, m, us)
    ensures OnlyErased(dev) && AllGoThrough(dev, m, us) ==> AllFindBlank(dev, m, us)
    decreases |us|
  {
    hide Updated, GoesThrough, PlaceIsBlank, ProgramsErased, CleanTears, OnlyErased;
    if us == [] {
    } else {
      assert us[0].Regular();
      UpdateGoesThroughIff(dev, m, us[0]);
      UpdatesFollowUpdates(dev, Updated(dev, m, us[0]), us[1..]);
    }
  }

  // ---------- which updates leave room for the next ----------

  /** What an installation that is not interrupted leaves, more than any update needs. */
  ghost predicate StagingBlank(m: Memory) { Blank(m, NEW_CORE, NEW_CORE + PAGES_TO_ERASE * PAGE_SIZE) }

  /** None of the interrupted boots has got as far as erasing the header. */
  ghost predicate HeaderWaits(dev: Device, m: Memory, u: Update) {
    HasHeader(Boots(dev, Received(dev, m, u), u.scripts))
  }

  lemma BlankStagingIsPlace(m: Memory, u: Update)
    requires StagingBlank(m) && u.Regular() && AtMostOneHeader(u.packets)
    ensures PlaceIsBlank(m, NEW_IMAGE, u.packets)
  {
  }

  lemma ReceivedHeader(dev: Device, m: Memory, u: Update)
    requires u.Regular() && AllAcknowledged(dev, Requested(dev, m, u), u.packets)
    ensures HasHeader(Received(dev, m, u)) && HeaderSize(Received(dev, m, u)) == SizeIn(HeaderIn(u.packets, []))
  {
    hide Receive;
    var t := Requested(dev, m, u);
    RequestOnly(dev, m, u);
    AllAcknowledgedMeans(dev, t, u.packets, []);
    RunKeepsHeader(dev, t, u.packets, []);
    assert ([u.request] + u.packets)[1..] == u.packets;
    var r := Received(dev, m, u);
    assert Bytes(r, NEW_CORE, 3) == Bytes(r, NEW_CORE, HEADER_SIZE)[..3];
    assert Bytes(r, NEW_CORE + 12, 4) == Bytes(r, NEW_CORE, HEADER_SIZE)[12..16];
  }

  /** From blank staging pages an update goes through, and leaves them blank again if no interrupted
      boot had erased the header yet. */
  lemma UpdateFromBlankStaging(dev: Device, m: Memory, u: Update)
    requires ProgramsErased(dev) && CleanTears(dev) && u.Regular() && AtMostOneHeader(u.packets) && StagingBlank(m)
    ensures GoesThrough(dev, m, u)
    ensures HeaderWaits(dev, m, u) ==> StagingBlank(Updated(dev, m, u))
  {
    hide Receive, Run, Boots, Boot, AllAcknowledged, PlaceIsBlank;
    BlankStagingIsPlace(m, u);
    UpdateGoesThroughIff(dev, m, u);
    ReceivedHeader(dev, m, u);
    var r := Received(dev, m, u);
    var b := Boots(dev, r, u.scripts);
    BootsAppend(dev, r, u.scripts, u.last);
    if HasHeader(b) {
      CrashSafeInstall(dev, r, u.scripts);
      HeaderIsStaging(r, b);
      InstallCompletes(dev, r, u.scripts, u.last);
      FailureFreeBoot(dev, Chip(b, u.last, true));
    }
  }

  /** One header in each update, and none of them erased by a boot that was then interrupted. */
  ghost predicate AllHeadersWait(dev: Device, m: Memory, us: seq<Update>)
    decreases |us|
  {
    us == [] ||
    (AtMostOneHeader(us[0].packets) && HeaderWaits(dev, m, us[0]) &&
     AllHeadersWait(dev, Updated(dev, m, us[0]), us[1..]))
  }

  lemma {:induction false} WaitingHeadersLeaveRoom(dev: Device, m: Memory, us: seq<Update>)
    requires ProgramsErased(dev) && CleanTears(dev) && StagingBlank(m)
    requires AllRegular(us) && AllHeadersWait(dev, m, us)
    ensures AllFindBlank(dev, m, us)
    decreases |us|
  {
    hide Updated, HeaderWaits, PlaceIsBlank, StagingBlank, ProgramsErased, CleanTears, AtMostOneHeader;
    if us == [] {
    } else {
      assert us[0].Regular();
      BlankStagingIsPlace(m, us[0]);
      UpdateFromBlankStaging(dev, m, us[0]);
      WaitingHeadersLeaveRoom(dev, Updated(dev, m, us[0]), us[1..]);
    }
  }

  // ---------- and which do not ----------

  lemma ProgramOverDirty(dev: Device, c: Chip, addr: nat, w: Word, d: nat)
    requires OnlyErased(dev) && NeverErases(c.fates) && InFlash(d, 1) && c.mem[d - FLASH_BASE] != 255
    ensures var (e, ok) := Program(dev, c, addr, w);
      NeverErases(e.fates) && e.mem[d - FLASH_BASE] != 255 && (addr <= d < addr + 4 ==> !ok)
  {
    if addr <= d < addr + 4 && InFlash(addr, 4) {
      var e := Program(dev, c, addr, w).0;
      assert Bytes(c.mem, addr, 4)[d - addr] == c.mem[d - FLASH_BASE];
      assert Bytes(e.mem, addr, 4)[d - addr] == e.mem[d - FLASH_BASE];
    }
  }

  lemma {:induction false} WritesStopAtDirty(dev: Device, c: Chip, addr: nat, buf: Buffer, i: nat, count: nat, d: nat)
    requires OnlyErased(dev) && NeverErases(c.fates) && InFlash(d, 1) && c.mem[d - FLASH_BASE] != 255
    requires i % 4 == 0 && count <= RX_UPD_PACKET_SIZE && addr + i <= d
    ensures var (e, ok) := WriteWords(dev, c, addr, buf, i, count);
      NeverErases(e.fates) && e.mem[d - FLASH_BASE] != 255 && (ok ==> addr + count <= d)
    decreases count - i
  {
    hide Program, OnlyErased, NeverErases;
    if i >= count {
    } else {
      ProgramOverDirty(dev, c, addr + i, buf[i..i + 4], d);
      var (e, ok) := Program(dev, c, addr + i, buf[i..i + 4]);
      if ok {
        WritesStopAtDirty(dev, e, addr, buf, i + 4, count, d);
      }
    }
  }

  /** Something lies at `d`, behind the first staging page, that the updater has yet to come to. */
  ghost predicate Blocked(s: State, d: nat) {
    && InSync(s) && s.addr <= d < FLASH_END && NEW_CORE + PAGE_SIZE <= d
    && s.chip.mem[d - FLASH_BASE] != 255 && NeverErases(s.chip.fates)
  }

  lemma DelStopsBefore(s: State, d: nat)
    requires InSync(s) && s.addr <= d && NEW_CORE + PAGE_SIZE <= d
    ensures NEW_CORE + DelPages(s.total) * PAGE_SIZE <= d
  {
  }

  lemma DelIsBlocked(dev: Device, s: State, p: Packet, d: nat)
    requires s.upd && IsDel(p) && Blocked(s, d)
    ensures Blocked(Receive(dev, s, p).0, d)
  {
    ReceiveDel(dev, s, p);
    DelStopsBefore(s, d);
    EraseLoopFates(dev, s.chip, NEW_CORE, DelPages(s.total));
  }

  lemma HeaderIsBlocked(dev: Device, s: State, p: Packet, d: nat)
    requires OnlyErased(dev) && s.upd && IsHeader(p) && Blocked(s, d)
    ensures Blocked(Receive(dev, s, p).0, d)
  {
    hide WriteWords;
    var rx: Buffer := p.payload + s.rx[HEADER_SIZE..];
    assert rx[..3] == p.payload[..3];
    WritesStopAtDirty(dev, s.chip, NEW_CORE, rx, 0, HEADER_SIZE, d);
  }

  lemma ChunkIsBlocked(dev: Device, s: State, p: Packet, d: nat)
    requires OnlyErased(dev) && s.upd && IsChunk(p) && Blocked(s, d)
    ensures Blocked(Receive(dev, s, p).0, d)
  {
    hide WriteWords;
    var n := |p.payload|;
    var rx: Buffer := p.payload + s.rx[n..];
    WritesStopAtDirty(dev, s.chip, s.addr, rx, 0, n, d);
  }

  lemma CrcIsBlocked(dev: Device, s: State, p: Packet, d: nat)
    requires OnlyErased(dev) && s.upd && IsCrc(p) && Blocked(s, d)
    ensures Blocked(Receive(dev, s, p).0, d)
  {
    hide Program;
    var rx: Buffer := p.payload + s.rx[3..];
    assert rx[..3] == p.payload;
    ProgramOverDirty(dev, s.chip, NEW_CORE + s.total, p.crc, d);
  }

  /** Over every run of packets, `del` included, the position never passes what lies there. */
  lemma {:induction false} RunIsBlocked(dev: Device, s: State, ps: seq<Packet>, d: nat)
    requires OnlyErased(dev) && Blocked(s, d)
    ensures Blocked(Run(dev, s, ps), d)
    decreases |ps|
  {
    hide Receive, OnlyErased;
    if ps == [] || !s.chip.alive {
    } else {
      var p := ps[0];
      if !s.upd {
        IdleReceive(dev, s, p);
      } else if IsChunk(p) {
        ChunkIsBlocked(dev, s, p, d);
      } else if IsHeader(p) {
        HeaderIsBlocked(dev, s, p, d);
      } else if IsDel(p) {
        DelIsBlocked(dev, s, p, d);
      } else if IsCrc(p) {
        CrcIsBlocked(dev, s, p, d);
      } else {
        ReceiveOther(dev, s, p);
      }
      RunIsBlocked(dev, Receive(dev, s, p).0, ps[1..], d);
    }
  }

  /** Why updates need their place blank: power lost after `k` of the staging pages were erased leaves
      a new core that boots, with no header, and the rest of its image in the way.  Whatever packets
      that core receives, what it stages ends before the byte at `d`, and any other that is left. */
  lemma CutEraseBlocksUpdates(dev: Device, m: Memory, k: nat, d: nat) returns (fates: seq<Fate>)
    requires OnlyErased(dev) && HasHeader(m) && SizeFits(m) && 1 <= k < PAGES_TO_ERASE
    requires Accepts(dev, CoreErased(m), NEW_IMAGE, CURRENT_CORE, HeaderSize(m))
    requires NEW_CORE + k * PAGE_SIZE <= d < FLASH_END && m[d - FLASH_BASE] != 255
    ensures var r := Boot(dev, Chip(m, fates, true)).chip.mem;
      && Installed(r, StagedImage(m)) && (forall last :: Boot(dev, Chip(r, last, true)).jumped)
      && forall appFates, ps: seq<Packet> :: NeverErases(appFates) ==>
        Run(dev, Fresh(Chip(r, appFates, true)), ps).addr <= d
  {
    hide Boot, Run, Accepts, OnlyErased, NeverErases;
    fates := EraseIsCutAfter(dev, m, k);
    var r := Boot(dev, Chip(m, fates, true)).chip.mem;
    forall last ensures Boot(dev, Chip(r, last, true)).jumped {
      BootWithoutHeader(dev, Chip(r, last, true));
    }
    forall appFates, ps: seq<Packet> | NeverErases(appFates)
      ensures Run(dev, Fresh(Chip(r, appFates, true)), ps).addr <= d
    {
      RunIsBlocked(dev, Fresh(Chip(r, appFates, true)), ps, d);
    }
  }
}
