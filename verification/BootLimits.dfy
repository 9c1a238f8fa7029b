/** Where the guarantees of the boot sequence end: the size field is never checked, so these are
    the sizes for which it is safe, and those for which it can finish. */
module BootLimits {
  import opened Flash
  import opened Bootloader
  import opened BootSafety

  /** The current region holds every word the header asks for. */
  ghost predicate CoreComplete(m: Memory, r: Memory) {
    var n := HeaderSize(m);
    InFlash(NEW_IMAGE, 4 * n) && Bytes(r, CURRENT_CORE, 4 * n) == Bytes(m, NEW_IMAGE, 4 * n)
  }

  /** After this boot the header only is gone if the core is complete. */
  ghost predicate BootIsSafe(dev: Device, m: Memory, fates: seq<Fate>) {
    var r := Boot(dev, Chip(m, fates, true)).chip.mem;
    HasHeader(r) || CoreComplete(m, r)
  }

  const ANY_DEVICE := Device((a, old', new') => true, (a, page, junk) => page)

  /** Flash that programs erased words, and no others. */
  ghost predicate OnlyErased(dev: Device) {
    forall a: nat, old': Word, new': Word :: dev.programs(a, old', new') <==> old' == ERASED
  }

  // ---------- safety ----------

  lemma {:induction false} CopySplit(dev: Device, c: Chip, from: nat, to: nat, k: nat, j: nat)
    ensures var (d, ok) := Copy(dev, c, from, to, k);
      Copy(dev, c, from, to, k + j)
      == if ok then Copy(dev, d, from + 4 * k, to + 4 * k, j) else (d, false)
    decreases k
  {
    hide CopyWord;
    if k == 0 {
    } else {
      var (e, ok) := CopyWord(dev, c, from, to);
      if ok {
        CopySplit(dev, e, from + 4, to + 4, k - 1, j);
        assert Copy(dev, c, from, to, k) == Copy(dev, e, from + 4, to + 4, k - 1);
        assert Copy(dev, c, from, to, k + j) == Copy(dev, e, from + 4, to + 4, k - 1 + j);
      }
    }
  }

  lemma {:induction false} AnyDeviceAccepts(m: Memory, from: nat, to: nat, n: nat)
    requires InFlash(from, 4 * n) && InFlash(to, 4 * n)
    ensures Accepts(ANY_DEVICE, m, from, to, n)
    decreases n
  {
    if n == 0 {
    } else {
      AnyDeviceAccepts(m, from + 4, to + 4, n - 1);
    }
  }

  /** A copy whose first `k` words complete and whose next one fails. */
  lemma CopyFailsAt(dev: Device, c: Chip, from: nat, to: nat, n: nat, k: nat, junk: Word) returns (d: Chip)
    requires c.alive && k < n && to <= from && Accepts(dev, c.mem, from, to, k)
    requires InFlash(from, 4 * k + 4) && InFlash(to, 4 * k + 4)
    requires |c.fates| == k + 1 && FailureFree(c.fates, k) && c.fates[k] == Fail(junk)
    ensures Copy(dev, c, from, to, n) == (d, false) && d.alive
    ensures Bytes(d.mem, to + 4 * k, 4) == junk && Bytes(d.mem, to, 4 * k) == Bytes(c.mem, from, 4 * k)
    ensures SameOutside(c.mem, d.mem, to, to + 4 * k + 4)
  {
    CopyCompletesIff(dev, c, from, to, k);
    CopySplit(dev, c, from, to, k, n - k);
    var e := Copy(dev, c, from, to, k).0;
    var k' := CopyCopiesPrefix(dev, c, from, to, k);
    CopiedBytes(c.mem, e.mem, from, to, 4 * k);
    assert e.fates == [Fail(junk)];
    d := CopyWord(dev, e, from + 4 * k, to + 4 * k).0;
    assert Bytes(d.mem, to, 4 * k) == Bytes(e.mem, to, 4 * k);
  }

  lemma ReplaceCoreFailsAt(dev: Device, c: Chip, words: nat, k: nat, junk: Word) returns (d: Chip)
    requires c.alive && ERASED_WORDS <= k < words && InFlash(NEW_IMAGE, 4 * k + 4)
    requires Accepts(dev, CoreErased(c.mem), NEW_IMAGE, CURRENT_CORE, k)
    requires c.fates == seq(CORE_PAGES, _ => Complete) + (seq(k, _ => Complete) + [Fail(junk)])
    ensures ReplaceCore(dev, BootState(c, 0), words) == (BootState(d, FLASH_WR_ERR), 1)
    ensures Bytes(d.mem, CURRENT_CORE + 4 * k, 4) == junk
    ensures Bytes(d.mem, CURRENT_CORE, 4 * k) == Bytes(c.mem, NEW_IMAGE, 4 * k)
    ensures SameOutside(c.mem, d.mem, CURRENT_CORE, CURRENT_CORE + 4 * k + 4)
  {
    hide Copy, Accepts, EraseSector, HasHeader;
    EraseSectorCompletes(dev, c, CURRENT_CORE, CORE_PAGES);
    var e := EraseSector(dev, c, CURRENT_CORE, CORE_PAGES).0;
    assert e.fates == seq(k, _ => Complete) + [Fail(junk)];
    d := CopyFailsAt(dev, e, NEW_IMAGE, CURRENT_CORE, words, k, junk);
    assert Bytes(e.mem, NEW_IMAGE, 4 * k) == Bytes(c.mem, NEW_IMAGE, 4 * k);
  }

  /** A boot that fails on word `k` of its copy, behind the erased pages. */
  lemma BootFailsAt(dev: Device, m: Memory, k: nat, junk: Word) returns (fates: seq<Fate>)
    requires HasHeader(m) && ERASED_WORDS <= k < HeaderSize(m) && InFlash(NEW_IMAGE, 4 * k + 4)
    requires Accepts(dev, CoreErased(m), NEW_IMAGE, CURRENT_CORE, k)
    ensures var (r, jumped) := var b := Boot(dev, Chip(m, fates, true)); (b.chip.mem, b.jumped);
      && Bytes(r, CURRENT_CORE + 4 * k, 4) == junk
      && Bytes(r, CURRENT_CORE, 4 * k) == Bytes(m, NEW_IMAGE, 4 * k)
      && SameOutside(m, r, CURRENT_CORE, CURRENT_CORE + 4 * k + 4)
      && !jumped
  {
    fates := seq(CORE_PAGES, _ => Complete) + (seq(k, _ => Complete) + [Fail(junk)]);
    var d := ReplaceCoreFailsAt(dev, Chip(m, fates, true), HeaderSize(m), k, junk);
  }

  lemma WordOfCore(m: Memory, r: Memory, k: nat)
    requires k < HeaderSize(m) && CoreComplete(m, r)
    ensures Bytes(r, CURRENT_CORE + 4 * k, 4) == Bytes(m, NEW_IMAGE + 4 * k, 4)
  {
  }

  lemma NoHeaderWord(r: Memory)
    requires Bytes(r, NEW_CORE, 4)[1] == 0
    ensures !HasHeader(r)
  {
    assert Bytes(r, NEW_CORE, 3)[1] == Bytes(r, NEW_CORE, 4)[1];
  }

  /** The device can program every word below the staging area that a copy of such a size takes. */
  ghost predicate ReachesStaging(dev: Device, m: Memory) {
    Accepts(dev, CoreErased(m), NEW_IMAGE, CURRENT_CORE, MAX_WORDS)
  }

  /** An oversized image: the copy reaches the header it was started from and one failure there
      loses it, so that the next boot starts a core of which only a part was copied. */
  lemma OversizedHeaderIsUnsafe(dev: Device, m: Memory) returns (fates: seq<Fate>)
    requires HasHeader(m) && !SizeFits(m) && ReachesStaging(dev, m)
    ensures !BootIsSafe(dev, m, fates)
    ensures var b := Boot(dev, Chip(m, fates, true)); var r := b.chip.mem;
      && !b.jumped && Boot(dev, Chip(r, [], true)) == BootResult(Chip(r, [], true), true)
      && Bytes(r, CURRENT_CORE, 4 * MAX_WORDS) == Bytes(m, NEW_IMAGE, 4 * MAX_WORDS)
  {
    hide Boot, CoreComplete, Accepts, Bytes, HasHeader, SameOutside;
    var there := Bytes(m, NEW_IMAGE + 4 * MAX_WORDS, 4);
    var junk: Word := if there == [0, 0, 0, 0] then [0x76, 0, 0, 0] else [0, 0, 0, 0];  // only clears bits
    fates := BootFailsAt(dev, m, MAX_WORDS, junk);
    var r := Boot(dev, Chip(m, fates, true)).chip.mem;
    if CoreComplete(m, r) {
      WordOfCore(m, r, MAX_WORDS);
    }
    NoHeaderWord(r);
    BootWithoutHeader(dev, Chip(r, [], true));
  }

  /** On any other device the copy never gets as far as the header. */
  lemma RefusedBeforeStaging(dev: Device, m: Memory, fates: seq<Fate>)
    requires HasHeader(m) && !SizeFits(m) && !ReachesStaging(dev, m)
    ensures SameStaging(m, Boot(dev, Chip(m, fates, true)).chip.mem) && !Boot(dev, Chip(m, fates, true)).jumped
  {
    hide Copy, EraseLoop, Accepts, HeaderSize, Bytes, Fill;
    var c, n := Chip(m, fates, true), HeaderSize(m);
    var k := EraseLoopErasesPrefix(dev, c, CURRENT_CORE, CORE_PAGES);
    var (e, code) := EraseSector(dev, c, CURRENT_CORE, CORE_PAGES);
    if code == 0 {
      var from, to := NEW_IMAGE, CURRENT_CORE;
      CopySplit(dev, e, from, to, MAX_WORDS, n - MAX_WORDS);
      var k' := CopyCopiesPrefix(dev, e, from, to, MAX_WORDS);
      if Copy(dev, e, from, to, MAX_WORDS).1 {
        CompletedIsAccepted(dev, e, from, to, MAX_WORDS);
      }
    }
  }

  /** For each device: booting is safe under every failure exactly if the size fits or the device
      refuses a word before the copy reaches the header. */
  lemma SafeOnDeviceIff(dev: Device, m: Memory)
    requires HasHeader(m)
    ensures (forall fates :: BootIsSafe(dev, m, fates)) <==> SizeFits(m) || !ReachesStaging(dev, m)
  {
    hide Boot, ReachesStaging;
    if SizeFits(m) {
      forall fates ensures BootIsSafe(dev, m, fates) {
        BootKeepsImage(dev, Chip(m, fates, true));
      }
    } else if ReachesStaging(dev, m) {
      var fates := OversizedHeaderIsUnsafe(dev, m);
      assert !BootIsSafe(dev, m, fates);
    } else {
      forall fates ensures BootIsSafe(dev, m, fates) {
        RefusedBeforeStaging(dev, m, fates);
        HeaderIsStaging(m, Boot(dev, Chip(m, fates, true)).chip.mem);
      }
    }
  }

  lemma AnyDeviceReachesStaging(m: Memory)
    ensures ReachesStaging(ANY_DEVICE, m)
  {
    AnyDeviceAccepts(CoreErased(m), NEW_IMAGE, CURRENT_CORE, MAX_WORDS);
  }

  /** Booting is safe on every device and under every failure exactly for the sizes that fit. */
  lemma SafeIffSizeFits(m: Memory)
    requires HasHeader(m)
    ensures (forall dev: Device, fates: seq<Fate> :: BootIsSafe(dev, m, fates)) <==> SizeFits(m)
  {
    hide BootIsSafe, ReachesStaging;
    if SizeFits(m) {
      forall dev: Device, fates: seq<Fate> ensures BootIsSafe(dev, m, fates) {
        SafeOnDeviceIff(dev, m);
      }
    } else {
      AnyDeviceReachesStaging(m);
      SafeOnDeviceIff(ANY_DEVICE, m);
    }
  }

  /** After this boot the staged image, as long as it has its header, is what it was. */
  ghost predicate ImageIsKept(dev: Device, m: Memory, fates: seq<Fate>) {
    var r := Boot(dev, Chip(m, fates, true)).chip.mem;
    HasHeader(r) ==> SameStaging(m, r)
  }

  /** A boot that has copied the image and then loses power while it erases the header's page. */
  lemma BootTearsAt(dev: Device, m: Memory, junk: Word) returns (fates: seq<Fate>)
    requires HasHeader(m) && SizeFits(m)
    requires Accepts(dev, CoreErased(m), NEW_IMAGE, CURRENT_CORE, HeaderSize(m))
    ensures SameStaging(Torn(dev, m, NEW_CORE, junk), Boot(dev, Chip(m, fates, true)).chip.mem)
    ensures !Boot(dev, Chip(m, fates, true)).jumped
  {
    hide Torn, ReplaceCore, Accepts;
    var n := HeaderSize(m);
    fates := seq(CORE_PAGES + n, _ => Complete) + [Cut(junk)];
    var b := BootState(Chip(m, fates, true), 0);
    ReplaceCoreCompletesIff(dev, b, n);
    ReplaceCoreEffect(dev, b, n);
    var s := ReplaceCore(dev, b, n).0;
    assert s.chip.fates == [Cut(junk)];
    TornAlike(dev, m, s.chip.mem, junk);
  }

  /** When the image can be copied at all, every boot keeps it exactly if the erase of the header's
      page is one that tears cleanly. */
  lemma ImageIsKeptIffTearsCleanly(dev: Device, m: Memory)
    requires HasHeader(m) && SizeFits(m)
    requires Accepts(dev, CoreErased(m), NEW_IMAGE, CURRENT_CORE, HeaderSize(m))
    ensures (forall fates :: ImageIsKept(dev, m, fates)) <==> TearsCleanly(dev, m)
  {
    hide Boot, Torn, Accepts;
    if TearsCleanly(dev, m) {
      forall fates ensures ImageIsKept(dev, m, fates) {
        BootKeepsImage(dev, Chip(m, fates, true));
      }
    } else {
      var junk: Word :| HasHeader(Torn(dev, m, NEW_CORE, junk)) && Torn(dev, m, NEW_CORE, junk) != m;
      var t := Torn(dev, m, NEW_CORE, junk);
      var fates := BootTearsAt(dev, m, junk);
      HeaderIsStaging(t, Boot(dev, Chip(m, fates, true)).chip.mem);
      assert SameStaging(m, t) ==> t == m;
      assert !ImageIsKept(dev, m, fates);
    }
  }

  /** A boot that installs the image and loses power when it has erased `k` of the staging pages. */
  lemma EraseIsCutAfter(dev: Device, m: Memory, k: nat) returns (fates: seq<Fate>)
    requires HasHeader(m) && SizeFits(m) && 1 <= k < PAGES_TO_ERASE
    requires Accepts(dev, CoreErased(m), NEW_IMAGE, CURRENT_CORE, HeaderSize(m))
    ensures fates == seq(|fates|, _ => Complete)
    ensures var b := Boot(dev, Chip(m, fates, true)); var r := b.chip.mem;
      && !b.jumped && !HasHeader(r) && Installed(r, StagedImage(m))
      && Blank(r, NEW_CORE, NEW_CORE + k * PAGE_SIZE)
      && SameOutside(m, r, CURRENT_CORE, NEW_CORE + k * PAGE_SIZE)
  {
    hide ReplaceCore, Accepts, EraseLoop;
    var n := HeaderSize(m);
    fates := seq(CORE_PAGES + n + k, _ => Complete);
    var b := BootState(Chip(m, fates, true), 0);
    ReplaceCoreCompletesIff(dev, b, n);
    ReplaceCoreEffect(dev, b, n);
    var s := ReplaceCore(dev, b, n).0;
    assert s.chip.fates == seq(k, _ => Complete);
    EraseLoopCut(dev, s.chip, NEW_CORE, PAGES_TO_ERASE, k);
    assert Bytes(EraseLoop(dev, s.chip, NEW_CORE, PAGES_TO_ERASE).0.mem, NEW_CORE, 3)[0] == 255;
  }

  // ---------- which core is started when an operation fails ----------

  /** An erase of the staging area that fails is no error to the bootloader: the image is in place, and
      its core is started.  What is left of the staging area is blank up to the page that failed. */
  lemma StagingEraseFailureStillStarts(dev: Device, m: Memory, k: nat, junk: Word, rest: seq<Fate>)
    returns (fates: seq<Fate>)
    requires HasHeader(m) && SizeFits(m) && k < PAGES_TO_ERASE
    requires Accepts(dev, CoreErased(m), NEW_IMAGE, CURRENT_CORE, HeaderSize(m))
    ensures fates == seq(CORE_PAGES + HeaderSize(m) + k, _ => Complete) + [Fail(junk)] + rest
    ensures var b := Boot(dev, Chip(m, fates, true)); var r, at := b.chip.mem, NEW_CORE + k * PAGE_SIZE;
      && b.jumped && b.chip.fates == rest && Installed(r, StagedImage(m))
      && Blank(r, NEW_CORE, at) && SameOutside(m, r, CURRENT_CORE, at + PAGE_SIZE)
      && Bytes(r, at, PAGE_SIZE) == dev.torn(at, Bytes(m, at, PAGE_SIZE), junk)
  {
    hide ReplaceCore, Accepts, EraseLoop, Torn, Fill, HasHeader, HeaderSize;
    var n := HeaderSize(m);
    fates := seq(CORE_PAGES + n + k, _ => Complete) + [Fail(junk)] + rest;
    var b := BootState(Chip(m, fates, true), 0);
    ReplaceCoreCompletesIff(dev, b, n);
    ReplaceCoreEffect(dev, b, n);
    var s := ReplaceCore(dev, b, n).0;
    assert s.chip.fates == seq(k, _ => Complete) + [Fail(junk)] + rest;
    EraseLoopFailsAt(dev, s.chip, NEW_CORE, PAGES_TO_ERASE, k, junk, rest);
    FailedEraseLeaves(dev, s.chip.mem, NEW_CORE, k, junk);
    assert Bytes(s.chip.mem, NEW_CORE + k * PAGE_SIZE, PAGE_SIZE) == Bytes(m, NEW_CORE + k * PAGE_SIZE, PAGE_SIZE);
  }

  /** An erase of the current core that fails is one: no core is started, and errno is 3. */
  lemma CoreEraseFailureStartsNone(dev: Device, m: Memory, k: nat, junk: Word, rest: seq<Fate>)
    requires HasHeader(m) && k < CORE_PAGES
    ensures var c := Chip(m, seq(k, _ => Complete) + [Fail(junk)] + rest, true);
      var r, at := CheckCore(dev, BootState(c, 0)), CURRENT_CORE + k * PAGE_SIZE;
      && !Boot(dev, c).jumped && r.errno == 3 && ReplaceCore(dev, BootState(c, 0), HeaderSize(m)) == (r, 1)
      && r.chip.alive && r.chip.fates == rest
      && Blank(r.chip.mem, CURRENT_CORE, at) && SameOutside(m, r.chip.mem, CURRENT_CORE, at + PAGE_SIZE)
  {
    hide EraseLoop, Torn, Fill;
    FailedEraseLeaves(dev, m, CURRENT_CORE, k, junk);
    var c := Chip(m, seq(k, _ => Complete) + [Fail(junk)] + rest, true);
    EraseLoopFailsAt(dev, c, CURRENT_CORE, CORE_PAGES, k, junk, rest);
  }

  /** Nor is one started when a word of the copy fails: errno is then 2. */
  lemma CopyFailureStartsNone(dev: Device, m: Memory, k: nat, junk: Word)
    requires HasHeader(m) && k < HeaderSize(m) && InFlash(NEW_IMAGE, 4 * k + 4)
    requires Accepts(dev, CoreErased(m), NEW_IMAGE, CURRENT_CORE, k)
    ensures var c := Chip(m, seq(CORE_PAGES, _ => Complete) + (seq(k, _ => Complete) + [Fail(junk)]), true);
      var r := CheckCore(dev, BootState(c, 0));
      && !Boot(dev, c).jumped && r.errno == 2 && r.chip.alive
      && Bytes(r.chip.mem, CURRENT_CORE + 4 * k, 4) == junk
      && Bytes(r.chip.mem, CURRENT_CORE, 4 * k) == Bytes(m, NEW_IMAGE, 4 * k)
  {
    hide Copy, Accepts, EraseLoop;
    var c := Chip(m, seq(CORE_PAGES, _ => Complete) + (seq(k, _ => Complete) + [Fail(junk)]), true);
    EraseSectorCompletes(dev, c, CURRENT_CORE, CORE_PAGES);
    var e := EraseSector(dev, c, CURRENT_CORE, CORE_PAGES).0;
    assert e.fates == seq(k, _ => Complete) + [Fail(junk)];
    var d := CopyFailsAt(dev, e, NEW_IMAGE, CURRENT_CORE, HeaderSize(m), k, junk);
    assert Bytes(e.mem, NEW_IMAGE, 4 * k) == Bytes(m, NEW_IMAGE, 4 * k);
  }

  lemma CopyHangsAt(dev: Device, c: Chip, from: nat, to: nat, n: nat)
    requires n > 0 && !InFlash(from, 4)
    ensures Copy(dev, c, from, to, n) == (c.(alive := false), false)
  {
  }

  /** An image that ends beyond the flash hangs the CPU on the load that leaves it. */
  lemma CopyPastFlashHangs(dev: Device, m: Memory, k: nat, fates: seq<Fate>)
    requires HasHeader(m) && k < HeaderSize(m) && !InFlash(NEW_IMAGE + 4 * k, 4)
    requires Accepts(dev, CoreErased(m), NEW_IMAGE, CURRENT_CORE, k) && FailureFree(fates, CORE_PAGES + k)
    ensures var b := Boot(dev, Chip(m, fates, true)); !b.chip.alive && !b.jumped
  {
    hide Copy, Accepts, EraseLoop;
    var c, n := Chip(m, fates, true), HeaderSize(m);
    EraseSectorCompletes(dev, c, CURRENT_CORE, CORE_PAGES);
    var e := EraseSector(dev, c, CURRENT_CORE, CORE_PAGES).0;
    assert FailureFree(e.fates, k);
    CopyCompletesIff(dev, e, NEW_IMAGE, CURRENT_CORE, k);
    CopySplit(dev, e, NEW_IMAGE, CURRENT_CORE, k, n - k);
    CopyHangsAt(dev, Copy(dev, e, NEW_IMAGE, CURRENT_CORE, k).0, NEW_IMAGE + 4 * k, CURRENT_CORE + 4 * k, n - k);
  }

  // ---------- completion ----------

  lemma ErasedWord(dev: Device, m: Memory, at: nat, w: Word)
    requires OnlyErased(dev) && InFlash(at, 4)
    ensures dev.programs(at, Bytes(m, at, 4), w) <==> Blank(m, at, at + 4)
  {
    var o, old' := at - FLASH_BASE, Bytes(m, at, 4);
    assert old'[0] == m[o] && old'[1] == m[o + 1] && old'[2] == m[o + 2] && old'[3] == m[o + 3];
  }

  lemma {:induction false} OnlyErasedAcceptsIff(dev: Device, m: Memory, from: nat, to: nat, n: nat)
    requires OnlyErased(dev) && InFlash(from, 4 * n) && InFlash(to, 4 * n)
    ensures Accepts(dev, m, from, to, n) <==> Blank(m, to, to + 4 * n)
    decreases n
  {
    hide OnlyErased, Bytes;
    if n == 0 {
    } else {
      OnlyErasedAcceptsIff(dev, m, from + 4, to + 4, n - 1);
      ErasedWord(dev, m, to, Bytes(m, from, 4));
    }
  }

  lemma {:induction false} AcceptsPrefix(dev: Device, m: Memory, from: nat, to: nat, k: nat, n: nat)
    requires k <= n && Accepts(dev, m, from, to, n)
    ensures Accepts(dev, m, from, to, k)
    decreases k
  {
    if k == 0 {
    } else {
      AcceptsPrefix(dev, m, from + 4, to + 4, k - 1, n - 1);
    }
  }

  /** A copy of more than `k` words needs the `k`-th word it writes to be blank. */
  lemma OnlyErasedNeedsBlank(dev: Device, m: Memory, from: nat, to: nat, k: nat, n: nat)
    requires OnlyErased(dev) && k < n && Accepts(dev, m, from, to, n)
    requires InFlash(from, 4 * (k + 1)) && InFlash(to, 4 * (k + 1))
    ensures m[to + 4 * k - FLASH_BASE] == 255
  {
    AcceptsPrefix(dev, m, from, to, k + 1, n);
    OnlyErasedAcceptsIff(dev, m, from, to, k + 1);
  }

  lemma BlankBeyond(m: Memory, start: nat, erased: nat, len: nat)
    ensures Blank(Fill(m, start, start + erased), start, start + len) <==> Blank(m, start + erased, start + len)
  {
  }

  /** On flash that only programs erased words, a boot without failures installs the image exactly
      when the size fits and what the copy needs beyond the eight erased pages is blank. */
  lemma InstallsIffBeyondIsBlank(dev: Device, m: Memory, fates: seq<Fate>)
    requires OnlyErased(dev) && HasHeader(m) && FailureFree(fates, InstallLength(m))
    ensures Boot(dev, Chip(m, fates, true)).jumped
      <==> SizeFits(m) && Blank(m, CURRENT_CORE + CORE_PAGES * PAGE_SIZE, CURRENT_CORE + 4 * HeaderSize(m))
  {
    var n := HeaderSize(m);
    FailureFreeBoot(dev, Chip(m, fates, true));
    assert CoreErased(m)[NEW_CORE - FLASH_BASE] == Bytes(m, NEW_CORE, 3)[0];
    if SizeFits(m) {
      OnlyErasedAcceptsIff(dev, CoreErased(m), NEW_IMAGE, CURRENT_CORE, n);
      BlankBeyond(m, CURRENT_CORE, CORE_PAGES * PAGE_SIZE, 4 * n);
    } else if Accepts(dev, CoreErased(m), NEW_IMAGE, CURRENT_CORE, n) {
      OnlyErasedNeedsBlank(dev, CoreErased(m), NEW_IMAGE, CURRENT_CORE, MAX_WORDS, n);
    }
  }

  /** After these interrupted boots, this boot starts the core. */
  ghost predicate Finishes(dev: Device, m: Memory, scripts: seq<seq<Fate>>, last: seq<Fate>) {
    Boot(dev, Chip(Boots(dev, m, scripts), last, true)).jumped
  }

  /** No word program that breaks off leaves an erased byte. */
  ghost predicate NeverErases(fates: seq<Fate>) {
    forall i :: 0 <= i < |fates| ==> fates[i].Complete? || 255 !in fates[i].junk
  }

  /** An image for more than the erased pages, and something already behind them. */
  ghost predicate Stuck(m: Memory) {
    HasHeader(m) && HeaderSize(m) > ERASED_WORDS && m[CURRENT_CORE + 4 * ERASED_WORDS - FLASH_BASE] != 255
  }

  lemma CopyWordOverDirty(dev: Device, c: Chip, from: nat, to: nat)
    requires OnlyErased(dev) && NeverErases(c.fates) && InFlash(to, 4) && c.mem[to - FLASH_BASE] != 255
    ensures var (e, ok) := CopyWord(dev, c, from, to); !ok && e.mem[to - FLASH_BASE] != 255
  {
    assert Bytes(c.mem, to, 4)[0] == c.mem[to - FLASH_BASE];
    var e := CopyWord(dev, c, from, to).0;
    assert e.mem[to - FLASH_BASE] == Bytes(e.mem, to, 4)[0];
  }

  lemma CopyWordFates(dev: Device, c: Chip, from: nat, to: nat)
    requires NeverErases(c.fates)
    ensures NeverErases(CopyWord(dev, c, from, to).0.fates)
  {
  }

  /** A copy that has a word to write where something is already stops there, at the latest. */
  lemma {:induction false} CopyStopsAtDirty(dev: Device, c: Chip, from: nat, to: nat, n: nat, k: nat)
    requires OnlyErased(dev) && NeverErases(c.fates) && k < n && InFlash(to, 4 * k + 4)
    requires c.mem[to + 4 * k - FLASH_BASE] != 255
    ensures var (d, ok) := Copy(dev, c, from, to, n);
      !ok && d.mem[to + 4 * k - FLASH_BASE] != 255 && SameOutside(c.mem, d.mem, to, to + 4 * k + 4)
    decreases k
  {
    hide CopyWord, OnlyErased, NeverErases;
    CopyWordEffect(dev, c, from, to);
    CopyWordFates(dev, c, from, to);
    var (e, ok) := CopyWord(dev, c, from, to);
    if k == 0 {
      CopyWordOverDirty(dev, c, from, to);
    } else if ok {
      CopyStopsAtDirty(dev, e, from + 4, to + 4, n - 1, k - 1);
    }
  }

  lemma {:induction false} EraseLoopFates(dev: Device, c: Chip, addr: nat, n: nat)
    requires NeverErases(c.fates)
    ensures NeverErases(EraseLoop(dev, c, addr, n).0.fates)
    decreases n
  {
    if n == 0 {
    } else {
      var (c', ok) := Erase(dev, c, addr);
      assert NeverErases(c'.fates);
      if ok {
        EraseLoopFates(dev, c', addr + PAGE_SIZE, n - 1);
      }
    }
  }

  lemma StuckStays(dev: Device, m: Memory, fates: seq<Fate>)
    requires OnlyErased(dev) && NeverErases(fates) && Stuck(m)
    ensures var b := Boot(dev, Chip(m, fates, true)); Stuck(b.chip.mem) && !b.jumped
  {
    hide Copy, EraseLoop, OnlyErased, NeverErases;
    var c := Chip(m, fates, true);
    var k := EraseLoopErasesPrefix(dev, c, CURRENT_CORE, CORE_PAGES);
    EraseLoopFates(dev, c, CURRENT_CORE, CORE_PAGES);
    var (e, code) := EraseSector(dev, c, CURRENT_CORE, CORE_PAGES);
    if code == 0 {
      CopyStopsAtDirty(dev, e, NEW_IMAGE, CURRENT_CORE, HeaderSize(m), ERASED_WORDS);
    }
    HeaderIsStaging(m, Boot(dev, c).chip.mem);
  }

  /** Once stuck, a device stays so, over any number of boots and however each of them ends. */
  lemma {:induction false} StuckForGood(dev: Device, m: Memory, scripts: seq<seq<Fate>>, last: seq<Fate>)
    requires OnlyErased(dev) && Stuck(m) && NeverErases(last)
    requires forall i :: 0 <= i < |scripts| ==> NeverErases(scripts[i])
    ensures Stuck(Boots(dev, m, scripts)) && !Finishes(dev, m, scripts, last)
    decreases |scripts|
  {
    hide Boot, OnlyErased, NeverErases, Stuck;
    if scripts == [] {
      StuckStays(dev, m, last);
    } else {
      StuckStays(dev, m, scripts[0]);
      StuckForGood(dev, Boot(dev, Chip(m, scripts[0], true)).chip.mem, scripts[1..], last);
    }
  }

  /** Above the erased pages one failed word is never erased again: no later boot can install. */
  lemma OneFailureBricks(dev: Device, m: Memory) returns (fates: seq<Fate>)
    requires OnlyErased(dev) && HasHeader(m) && HeaderSize(m) > ERASED_WORDS
    ensures forall scripts: seq<seq<Fate>>, last ::
      (forall i :: 0 <= i < |scripts| ==> NeverErases(scripts[i])) && NeverErases(last) ==>
        !Finishes(dev, m, [fates] + scripts, last)
  {
    hide Boot, Accepts, OnlyErased, NeverErases;
    var k: nat := ERASED_WORDS;
    OnlyErasedAcceptsIff(dev, CoreErased(m), NEW_IMAGE, CURRENT_CORE, k);
    fates := BootFailsAt(dev, m, k, [0, 0, 0, 0]);
    var r := Boot(dev, Chip(m, fates, true)).chip.mem;
    HeaderIsStaging(m, r);
    assert r[CURRENT_CORE + 4 * k - FLASH_BASE] == Bytes(r, CURRENT_CORE + 4 * k, 4)[0] == 0;
    forall scripts: seq<seq<Fate>>, last |
      (forall i :: 0 <= i < |scripts| ==> NeverErases(scripts[i])) && NeverErases(last)
      ensures !Finishes(dev, m, [fates] + scripts, last)
    {
      assert ([fates] + scripts)[1..] == scripts;
      StuckForGood(dev, r, scripts, last);
    }
  }

  /** On flash that only programs erased words, a boot without failures is sure to finish whatever
      interrupted boots came before exactly when the image fits the pages that each boot erases. */
  lemma AlwaysFinishesIff(dev: Device, m: Memory)
    requires OnlyErased(dev) && HasHeader(m) && TearsCleanly(dev, m)
    ensures HeaderSize(m) <= ERASED_WORDS <==>
      forall scripts, last :: FailureFree(last, InstallLength(m)) ==> Finishes(dev, m, scripts, last)
  {
    hide Boot, Boots;
    if HeaderSize(m) <= ERASED_WORDS {
      forall scripts, last | FailureFree(last, InstallLength(m)) ensures Finishes(dev, m, scripts, last) {
        InstallCompletes(dev, m, scripts, last);
      }
    } else {
      var fates := OneFailureBricks(dev, m);
      var last := seq(InstallLength(m), _ => Complete);
      assert [fates] + [] == [fates] && NeverErases(last);
      assert FailureFree(last, InstallLength(m)) && !Finishes(dev, m, [fates], last);
    }
  }
}
