/** What every boot keeps, whatever fails and wherever power is lost. */
module BootSafety {
  import opened Arithmetic
  import opened Flash
  import opened Bootloader

  /** A header whose image can be copied without the copy reaching the staging area. */
  predicate SizeFits(m: Memory) { HeaderSize(m) <= MAX_WORDS }

  /** What a header found in the flash asks for, byte by byte. */
  lemma HeaderAsksFor(m: Memory, words: nat)
    requires words < UINT_RANGE
    requires Bytes(m, 0x0801_000C, 4)
      == [words % 0x100, words / 0x100 % 0x100, words / 0x1_0000 % 0x100, words / 0x100_0000]
    ensures HeaderSize(m) == words
  {
    ValueIsLittleEndian(words);
  }

  ghost function StagedImage(m: Memory): seq<byte>
    requires SizeFits(m)
  {
    Bytes(m, NEW_IMAGE, 4 * HeaderSize(m))
  }

  /** The current core begins with these bytes. */
  ghost predicate StartsWith(m: Memory, data: seq<byte>) {
    |data| <= FLASH_END - CURRENT_CORE && Bytes(m, CURRENT_CORE, |data|) == data
  }

  /** The current region holds the image, and nothing else in the erased pages. */
  ghost predicate Installed(m: Memory, image: seq<byte>) {
    StartsWith(m, image) && Blank(m, CURRENT_CORE + |image|, CURRENT_CORE + CORE_PAGES * PAGE_SIZE)
  }

  ghost predicate SameStaging(m: Memory, r: Memory) { SameOutside(m, r, FLASH_BASE, NEW_CORE) }
  ghost predicate SameBootloader(m: Memory, r: Memory) { SameOutside(m, r, CURRENT_CORE, FLASH_END) }

  /** The `len` bytes of `d` from `to` on are those of `m` from `from` on. */
  ghost predicate Copied(m: Memory, d: Memory, from: nat, to: nat, len: nat)
    requires InFlash(from, len) && InFlash(to, len)
  {
    forall i :: to - FLASH_BASE <= i < to - FLASH_BASE + len ==> d[i] == m[i + (from - to)]
  }

  lemma CopiedBytes(m: Memory, d: Memory, from: nat, to: nat, len: nat)
    requires InFlash(from, len) && InFlash(to, len) && Copied(m, d, from, to, len)
    ensures Bytes(d, to, len) == Bytes(m, from, len)
  {
  }

  /** One copied word, then the rest of the copy from where it left off. */
  lemma CopiedJoin(m: Memory, e: Memory, d: Memory, from: nat, to: nat, len: nat)
    requires to <= from && InFlash(from, 4 + len)
    requires InFlash(to, 0) && SameOutside(m, e, to, to + 4) && Bytes(e, to, 4) == Bytes(m, from, 4)
    requires SameOutside(e, d, to + 4, FLASH_END) && Copied(e, d, from + 4, to + 4, len)
    ensures Copied(m, d, from, to, 4 + len)
  {
  }

  lemma CopyWordEffect(dev: Device, c: Chip, from: nat, to: nat)
    requires InFlash(to, 0)
    ensures var (e, ok) := CopyWord(dev, c, from, to);
      && SameOutside(c.mem, e.mem, to, to + 4)
      && (e.alive ==> c.alive)
      && (ok ==> e.alive && InFlash(from, 4) && InFlash(to, 4) && Bytes(e.mem, to, 4) == Bytes(c.mem, from, 4))
      && (ok ==> dev.programs(to, Bytes(c.mem, to, 4), Bytes(c.mem, from, 4)))
  {
  }

  /** A copy that stops early has copied a prefix and spoilt at most the word after it. */
  lemma {:induction false} CopyCopiesPrefix(dev: Device, c: Chip, from: nat, to: nat, n: nat) returns (k: nat)
    requires to <= from && InFlash(from, 0) && InFlash(to, 0)
    ensures k <= n && InFlash(from, 4 * k)
    ensures var (d, ok) := Copy(dev, c, from, to, n);
      && Copied(c.mem, d.mem, from, to, 4 * k)
      && SameOutside(c.mem, d.mem, to, to + 4 * (if k < n then k + 1 else k))
      && (ok <==> k == n)
      && (ok && n > 0 ==> d.alive)
      && (d.alive ==> c.alive)
    decreases n
  {
    hide CopyWord;
    k := 0;
    if n == 0 {
    } else {
      CopyWordEffect(dev, c, from, to);
      var (e, ok) := CopyWord(dev, c, from, to);
      if ok {
        var k' := CopyCopiesPrefix(dev, e, from + 4, to + 4, n - 1);
        k := k' + 1;
        CopiedJoin(c.mem, e.mem, Copy(dev, c, from, to, n).0.mem, from, to, 4 * k');
      }
    }
  }

  /** replace_core only writes between the bootloader and the staging area, and success means that
      the whole image is in place. */
  lemma ReplaceCoreEffect(dev: Device, s: BootState, words: nat)
    requires words <= MAX_WORDS
    ensures var (r, code) := ReplaceCore(dev, s, words);
      && SameOutside(s.chip.mem, r.chip.mem, CURRENT_CORE, NEW_CORE)
      && (code != 0 ==> r.errno != 0)
      && (code == 0 ==> r.errno == s.errno)
      && (code == 0 ==> Installed(r.chip.mem, Bytes(s.chip.mem, NEW_IMAGE, 4 * words)))
  {
    var k := EraseLoopErasesPrefix(dev, s.chip, CURRENT_CORE, CORE_PAGES);
    var (c, code) := EraseSector(dev, s.chip, CURRENT_CORE, CORE_PAGES);
    if code == 0 {
      var k' := CopyCopiesPrefix(dev, c, NEW_IMAGE, CURRENT_CORE, words);
      var (d, ok) := Copy(dev, c, NEW_IMAGE, CURRENT_CORE, words);
      if ok {
        CopiedBytes(c.mem, d.mem, NEW_IMAGE, CURRENT_CORE, 4 * words);
        assert Bytes(c.mem, NEW_IMAGE, 4 * words) == Bytes(s.chip.mem, NEW_IMAGE, 4 * words);
      }
    }
  }

  /** However an erase of the header's page breaks off, the header is gone or the page is whole. */
  ghost predicate TearsCleanly(dev: Device, m: Memory) {
    forall junk: Word :: HasHeader(Torn(dev, m, NEW_CORE, junk)) ==> Torn(dev, m, NEW_CORE, junk) == m
  }

  /** The same for every content of that page. */
  ghost predicate CleanTears(dev: Device) { forall m: Memory :: TearsCleanly(dev, m) }

  lemma EraseBreaksOff(dev: Device, c: Chip, addr: nat)
    requires InFlash(addr, PAGE_SIZE) && !Erase(dev, c, addr).1
    ensures var m := Erase(dev, c, addr).0.mem; m == c.mem || exists junk: Word :: m == Torn(dev, c.mem, addr, junk)
  {
    hide Torn;
  }

  /** Erasing from the header's page on takes that page first, so that the header goes with it, or
      the page is torn. */
  lemma EraseStagingEffect(dev: Device, c: Chip, pages: nat)
    requires pages > 0 && NEW_CORE + pages * PAGE_SIZE <= LAST_PAGE
    ensures var r := EraseLoop(dev, c, NEW_CORE, pages).0;
      && SameOutside(c.mem, r.mem, NEW_CORE, NEW_CORE + pages * PAGE_SIZE)
      && (HasHeader(r.mem) ==> r.mem == c.mem || exists junk: Word :: r.mem == Torn(dev, c.mem, NEW_CORE, junk))
  {
    hide Torn, Erase, Fill;
    var k := EraseLoopErasesPrefix(dev, c, NEW_CORE, pages);
    var r := EraseLoop(dev, c, NEW_CORE, pages).0;
    if k > 0 {
      assert Bytes(r.mem, NEW_CORE, 3)[0] == Fill(c.mem, NEW_CORE, NEW_CORE + k * PAGE_SIZE)[NEW_CORE - FLASH_BASE];
    } else {
      EraseBreaksOff(dev, c, NEW_CORE);
    }
  }

  lemma CleanErase(dev: Device, c: Chip, pages: nat)
    requires pages > 0 && NEW_CORE + pages * PAGE_SIZE <= LAST_PAGE && TearsCleanly(dev, c.mem)
    ensures var r := EraseLoop(dev, c, NEW_CORE, pages).0; HasHeader(r.mem) ==> r.mem == c.mem
  {
    hide HasHeader, Torn, EraseLoop;
    EraseStagingEffect(dev, c, pages);
  }

  lemma HeaderIsStaging(m: Memory, r: Memory)
    requires SameStaging(m, r)
    ensures HasHeader(m) == HasHeader(r) && HeaderSize(m) == HeaderSize(r)
    ensures SizeFits(m) ==> StagedImage(m) == StagedImage(r)
  {
  }

  lemma PutAlike(m: Memory, r: Memory, addr: nat, w: seq<byte>)
    requires SameStaging(m, r) && InFlash(addr, |w|)
    ensures SameStaging(Put(m, addr, w), Put(r, addr, w))
  {
  }

  lemma TornAlike(dev: Device, m: Memory, r: Memory, junk: Word)
    requires SameStaging(m, r)
    ensures SameStaging(Torn(dev, m, NEW_CORE, junk), Torn(dev, r, NEW_CORE, junk))
  {
    hide Put;
    assert Bytes(m, NEW_CORE, PAGE_SIZE) == Bytes(r, NEW_CORE, PAGE_SIZE);
    PutAlike(m, r, NEW_CORE, dev.torn(NEW_CORE, Bytes(m, NEW_CORE, PAGE_SIZE), junk));
  }

  lemma TearsAlike(dev: Device, m: Memory, r: Memory)
    requires SameStaging(m, r) && TearsCleanly(dev, m)
    ensures TearsCleanly(dev, r)
  {
    hide Torn;
    forall junk: Word | HasHeader(Torn(dev, r, NEW_CORE, junk))
      ensures Torn(dev, r, NEW_CORE, junk) == r
    {
      TornAlike(dev, m, r, junk);
      HeaderIsStaging(Torn(dev, m, NEW_CORE, junk), Torn(dev, r, NEW_CORE, junk));
    }
  }

  /** One boot, with any failures and power lost anywhere: once the header is gone, or the core is
      started, the whole image is installed, and while the header is there the staged image is
      intact, unless the erase of its page tore it. */
  lemma BootKeepsImage(dev: Device, c: Chip)
    requires HasHeader(c.mem) && SizeFits(c.mem)
    ensures var r := Boot(dev, c);
      && SameBootloader(c.mem, r.chip.mem)
      && (HasHeader(r.chip.mem) && TearsCleanly(dev, c.mem) ==> SameStaging(c.mem, r.chip.mem))
      && (!HasHeader(r.chip.mem) || r.jumped ==> Installed(r.chip.mem, StagedImage(c.mem)))
  {
    hide ReplaceCore, EraseLoop, TearsCleanly, Torn, HasHeader;
    var n := HeaderSize(c.mem);
    ReplaceCoreEffect(dev, BootState(c, 0), n);
    var (s, code) := ReplaceCore(dev, BootState(c, 0), n);
    HeaderIsStaging(c.mem, s.chip.mem);
    if code == 0 {
      EraseStagingEffect(dev, s.chip, PAGES_TO_ERASE);
      var d := EraseSector(dev, s.chip, NEW_CORE, PAGES_TO_ERASE).0;
      assert Bytes(d.mem, CURRENT_CORE, 4 * n) == Bytes(s.chip.mem, CURRENT_CORE, 4 * n);
      if TearsCleanly(dev, c.mem) {
        TearsAlike(dev, c.mem, s.chip.mem);
        CleanErase(dev, s.chip, PAGES_TO_ERASE);
      }
    }
  }

  lemma BootWithoutHeader(dev: Device, c: Chip)
    requires !HasHeader(c.mem)
    ensures Boot(dev, c) == BootResult(c, c.alive)
  {
  }

  // ---------- runs of boots ----------

  /** The flash after a series of boots, each cut short by a power loss or a failure. */
  function Boots(dev: Device, m: Memory, scripts: seq<seq<Fate>>): Memory
    decreases |scripts|
  {
    if scripts == [] then m
    else Boots(dev, Boot(dev, Chip(m, scripts[0], true)).chip.mem, scripts[1..])
  }

  lemma {:induction false} BootsWithoutHeader(dev: Device, m: Memory, scripts: seq<seq<Fate>>)
    requires !HasHeader(m)
    ensures Boots(dev, m, scripts) == m
    decreases |scripts|
  {
    if scripts == [] {
    } else {
      BootsWithoutHeader(dev, m, scripts[1..]);
    }
  }

  /** Crash safety: in every run of interrupted boots the staged image stays whole until it is
      installed, and the header only goes once it is.  (`ImageIsKeptIffTearsCleanly` shows that what
      is asked of the device is what it takes.) */
  lemma {:induction false} CrashSafeInstall(dev: Device, m: Memory, scripts: seq<seq<Fate>>)
    requires HasHeader(m) && SizeFits(m) && TearsCleanly(dev, m)
    ensures var r := Boots(dev, m, scripts);
      && SameBootloader(m, r)
      && if HasHeader(r) then SameStaging(m, r) else Installed(r, StagedImage(m))
    decreases |scripts|
  {
    if scripts == [] {
    } else {
      var c := Chip(m, scripts[0], true);
      BootKeepsImage(dev, c);
      var m' := Boot(dev, c).chip.mem;
      if HasHeader(m') {
        HeaderIsStaging(m, m');
        TearsAlike(dev, m, m');
        CrashSafeInstall(dev, m', scripts[1..]);
      } else {
        BootsWithoutHeader(dev, m', scripts[1..]);
      }
    }
  }

  lemma {:induction false} BootsAppend(dev: Device, m: Memory, scripts: seq<seq<Fate>>, last: seq<Fate>)
    ensures Boots(dev, m, scripts + [last])
         == Boot(dev, Chip(Boots(dev, m, scripts), last, true)).chip.mem
    decreases |scripts|
  {
    if scripts == [] {
      assert scripts + [last] == [last] && [last][1..] == [];
    } else {
      assert (scripts + [last])[1..] == scripts[1..] + [last];
      BootsAppend(dev, Boot(dev, Chip(m, scripts[0], true)).chip.mem, scripts[1..], last);
    }
  }

  // ---------- boots in which no operation fails ----------

  /** The operations of a whole installation. */
  function InstallLength(m: Memory): nat { CORE_PAGES + HeaderSize(m) + PAGES_TO_ERASE }

  /** Any device that can program an erased, aligned word. */
  ghost predicate ProgramsErased(dev: Device) {
    forall a: nat, w: Word :: a % 4 == 0 ==> dev.programs(a, ERASED, w)
  }

  /** Every word of the copy is one that the device can program over what is there. */
  ghost predicate Accepts(dev: Device, m: Memory, from: nat, to: nat, n: nat)
    decreases n
  {
    n == 0 ||
    (InFlash(from, 4) && InFlash(to, 4) && dev.programs(to, Bytes(m, to, 4), Bytes(m, from, 4)) &&
     Accepts(dev, m, from + 4, to + 4, n - 1))
  }

  lemma {:induction false} AcceptsFrame(dev: Device, m: Memory, e: Memory, from: nat, to: nat, n: nat)
    requires to <= from && SameOutside(m, e, FLASH_BASE, to)
    ensures Accepts(dev, m, from, to, n) == Accepts(dev, e, from, to, n)
    decreases n
  {
    if n == 0 || !InFlash(from, 4) || !InFlash(to, 4) {
    } else {
      assert Bytes(m, to, 4) == Bytes(e, to, 4) && Bytes(m, from, 4) == Bytes(e, from, 4);
      AcceptsFrame(dev, m, e, from + 4, to + 4, n - 1);
    }
  }

  lemma CopyWordCompletesIff(dev: Device, c: Chip, from: nat, to: nat)
    requires c.alive && FailureFree(c.fates, 1)
    ensures var (e, ok) := CopyWord(dev, c, from, to);
      && (ok <==> InFlash(from, 4) && InFlash(to, 4) && dev.programs(to, Bytes(c.mem, to, 4), Bytes(c.mem, from, 4)))
      && (ok ==> e.alive && e.fates == c.fates[1..])
  {
  }

  /** With no failures the copy completes exactly when the device can program every word of it. */
  lemma {:induction false} CopyCompletesIff(dev: Device, c: Chip, from: nat, to: nat, n: nat)
    requires to <= from && InFlash(to, 0) && c.alive && FailureFree(c.fates, n)
    ensures var (d, ok) := Copy(dev, c, from, to, n);
      && (ok <==> Accepts(dev, c.mem, from, to, n))
      && (ok ==> d.alive && d.fates == c.fates[n..])
    decreases n
  {
    hide CopyWord;
    if n == 0 {
    } else {
      CopyWordEffect(dev, c, from, to);
      CopyWordCompletesIff(dev, c, from, to);
      var (e, ok) := CopyWord(dev, c, from, to);
      if ok {
        AcceptsFrame(dev, c.mem, e.mem, from + 4, to + 4, n - 1);
        CopyCompletesIff(dev, e, from + 4, to + 4, n - 1);
        assert e.fates[n - 1..] == c.fates[n..];
      }
    }
  }

  /** Whatever fails elsewhere, a copy that completes is one the device accepts. */
  lemma {:induction false} CompletedIsAccepted(dev: Device, c: Chip, from: nat, to: nat, n: nat)
    requires to <= from && InFlash(to, 0) && Copy(dev, c, from, to, n).1
    ensures Accepts(dev, c.mem, from, to, n)
    decreases n
  {
    hide CopyWord;
    if n == 0 {
    } else {
      CopyWordEffect(dev, c, from, to);
      var e := CopyWord(dev, c, from, to).0;
      CompletedIsAccepted(dev, e, from + 4, to + 4, n - 1);
      AcceptsFrame(dev, c.mem, e.mem, from + 4, to + 4, n - 1);
    }
  }

  /** The flash as the copy finds it in a boot whose erases all complete. */
  function CoreErased(m: Memory): Memory {
    Fill(m, CURRENT_CORE, CURRENT_CORE + CORE_PAGES * PAGE_SIZE)
  }

  lemma EraseSectorCompletes(dev: Device, c: Chip, start: nat, pages: byte)
    requires c.alive && FailureFree(c.fates, pages)
    requires FLASH_BASE <= start && start + pages * PAGE_SIZE <= LAST_PAGE
    ensures EraseSector(dev, c, start, pages)
         == (Chip(Fill(c.mem, start, start + pages * PAGE_SIZE), c.fates[pages..], true), 0)
  {
    EraseLoopCompletes(dev, c, start, pages);
  }

  lemma ReplaceCoreCompletesIff(dev: Device, s: BootState, n: nat)
    requires s.chip.alive && FailureFree(s.chip.fates, CORE_PAGES + n)
    ensures var (r, code) := ReplaceCore(dev, s, n);
      && (code == 0 <==> Accepts(dev, CoreErased(s.chip.mem), NEW_IMAGE, CURRENT_CORE, n))
      && (code == 0 ==> r.errno == s.errno && r.chip.alive && r.chip.fates == s.chip.fates[CORE_PAGES + n..])
      && (code != 0 ==> r.errno != 0)
  {
    EraseSectorCompletes(dev, s.chip, CURRENT_CORE, CORE_PAGES);
    var c := EraseSector(dev, s.chip, CURRENT_CORE, CORE_PAGES).0;
    assert FailureFree(c.fates, n);
    CopyCompletesIff(dev, c, NEW_IMAGE, CURRENT_CORE, n);
    assert c.fates[n..] == s.chip.fates[CORE_PAGES + n..];
  }

  /** A failure-free boot starts the core exactly when the device could program every word of the
      copy, and then the staging area is blank again. */
  lemma FailureFreeBoot(dev: Device, c: Chip)
    requires c.alive && HasHeader(c.mem) && FailureFree(c.fates, InstallLength(c.mem))
    ensures var r := Boot(dev, c);
      && (r.jumped <==> Accepts(dev, CoreErased(c.mem), NEW_IMAGE, CURRENT_CORE, HeaderSize(c.mem)))
      && (r.jumped ==> !HasHeader(r.chip.mem))
      && (r.jumped ==> Blank(r.chip.mem, NEW_CORE, NEW_CORE + PAGES_TO_ERASE * PAGE_SIZE))
  {
    var n := HeaderSize(c.mem);
    ReplaceCoreCompletesIff(dev, BootState(c, 0), n);
    var (s, code) := ReplaceCore(dev, BootState(c, 0), n);
    if code == 0 {
      assert FailureFree(s.chip.fates, PAGES_TO_ERASE);
      EraseSectorCompletes(dev, s.chip, NEW_CORE, PAGES_TO_ERASE);
      assert Bytes(EraseSector(dev, s.chip, NEW_CORE, PAGES_TO_ERASE).0.mem, NEW_CORE, 3)[0] == 255;
    }
  }

  lemma {:induction false} BlankIsAccepted(dev: Device, m: Memory, from: nat, to: nat, n: nat)
    requires ProgramsErased(dev) && to % 4 == 0
    requires InFlash(from, 4 * n) && InFlash(to, 4 * n) && Blank(m, to, to + 4 * n)
    ensures Accepts(dev, m, from, to, n)
    decreases n
  {
    if n == 0 {
    } else {
      assert Bytes(m, to, 4) == ERASED;
      BlankIsAccepted(dev, m, from + 4, to + 4, n - 1);
    }
  }

  /** After any run of interrupted boots, one boot without failures finishes the installation. */
  lemma InstallCompletes(dev: Device, m: Memory, scripts: seq<seq<Fate>>, last: seq<Fate>)
    requires ProgramsErased(dev) && FailureFree(last, InstallLength(m))
    requires HasHeader(m) && HeaderSize(m) <= ERASED_WORDS && TearsCleanly(dev, m)
    ensures var r := Boots(dev, m, scripts + [last]); Installed(r, StagedImage(m)) && !HasHeader(r)
    ensures Boot(dev, Chip(Boots(dev, m, scripts), last, true)).jumped
  {
    var b := Boots(dev, m, scripts);
    var c := Chip(b, last, true);
    BootsAppend(dev, m, scripts, last);
    CrashSafeInstall(dev, m, scripts);
    if HasHeader(b) {
      HeaderIsStaging(m, b);
      BlankIsAccepted(dev, CoreErased(b), NEW_IMAGE, CURRENT_CORE, HeaderSize(m));
      FailureFreeBoot(dev, c);
      BootKeepsImage(dev, c);
    }
  }
}
