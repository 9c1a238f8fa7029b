/** The whole device: bootloader and updater taking turns over the same flash, for as long as power
    comes and goes. */
module System {
  import opened Arithmetic
  import opened Flash
  import opened Bootloader
  import opened BootSafety
  import opened BootLimits
  import opened Updater
  import opened Staging

  /** One stretch of power: a boot and, if it starts the core, the packets that core receives until
      it reboots or power is lost. */
  datatype Session = Session(bootFates: seq<Fate>, appFates: seq<Fate>, packets: seq<Packet>)

  function BootOf(dev: Device, m: Memory, s: Session): BootResult {
    Boot(dev, Chip(m, s.bootFates, true))
  }

  /** The updater as the boot of this session leaves it to be run. */
  function Started(dev: Device, m: Memory, s: Session): State {
    Fresh(Chip(BootOf(dev, m, s).chip.mem, s.appFates, true))
  }

  function AfterSession(dev: Device, m: Memory, s: Session): Memory {
    if BootOf(dev, m, s).jumped then Run(dev, Started(dev, m, s), s.packets).chip.mem
    else BootOf(dev, m, s).chip.mem
  }

  ghost function CoreOf(m: Memory): seq<byte> {
    Bytes(m, CURRENT_CORE, NEW_CORE - CURRENT_CORE)
  }

  // ---------- no half-copied core is ever started ----------

  /** The current region of `m` is the whole of the image that `staged` holds under its header. */
  ghost predicate HoldsStaged(m: Memory, staged: Memory) {
    HasHeader(staged) && SizeFits(staged) && Installed(m, StagedImage(staged))
  }

  /** Whenever a session starts the core, the current region is as the last core started had it, or
      holds the whole of the image that was staged.  `core` is the region as last started, and
      `staged` the flash as the last core left it. */
  ghost predicate StartsOnlyWholeCores(dev: Device, m: Memory, core: seq<byte>, staged: Memory, ss: seq<Session>)
    decreases |ss|
  {
    ss == [] ||
    var r := BootOf(dev, m, ss[0]);
    var next := AfterSession(dev, m, ss[0]);
    if r.jumped then
      && (if HasHeader(m) then SameStaging(staged, m) && HoldsStaged(r.chip.mem, staged)
          else CoreOf(r.chip.mem) == core || HoldsStaged(r.chip.mem, staged))
      && StartsOnlyWholeCores(dev, next, CoreOf(r.chip.mem), next, ss[1..])
    else StartsOnlyWholeCores(dev, next, core, staged, ss[1..])
  }

  /** The state between sessions: either what the last core staged is still whole, or there is
      nothing to install and the current region is good as it is. */
  ghost predicate Recoverable(m: Memory, core: seq<byte>, staged: Memory) {
    if HasHeader(m) then SameStaging(staged, m) else CoreOf(m) == core || HoldsStaged(m, staged)
  }

  /** The guard that the bootloader does not have: a header only asks for what fits. */
  ghost predicate HeaderFits(m: Memory) { HasHeader(m) ==> SizeFits(m) }

  /** A header in this flash is one whose page tears cleanly. */
  ghost predicate HeaderTears(dev: Device, m: Memory) { HasHeader(m) ==> TearsCleanly(dev, m) }

  /** At every boot of the run the header, if there is one, asks for what fits, and tears cleanly. */
  ghost predicate HeadersFit(dev: Device, m: Memory, ss: seq<Session>)
    decreases |ss|
  {
    ss == [] || (HeaderFits(m) && HeaderTears(dev, m) && HeadersFit(dev, AfterSession(dev, m, ss[0]), ss[1..]))
  }

  lemma BootKeepsRecoverable(dev: Device, m: Memory, core: seq<byte>, staged: Memory, s: Session)
    requires HeaderTears(dev, m) && Recoverable(m, core, staged) && HeaderFits(m)
    ensures var r := BootOf(dev, m, s);
      && Recoverable(r.chip.mem, core, staged) && HeaderFits(r.chip.mem)
      && (r.jumped && HasHeader(m) ==> HoldsStaged(r.chip.mem, staged))
      && (!HasHeader(m) ==> r.chip.mem == m)
  {
    hide Boot;
    var c := Chip(m, s.bootFates, true);
    if HasHeader(m) {
      BootKeepsImage(dev, c);
      HeaderIsStaging(staged, m);
      if HasHeader(BootOf(dev, m, s).chip.mem) {
        HeaderIsStaging(m, BootOf(dev, m, s).chip.mem);
      }
    } else {
      BootWithoutHeader(dev, c);
    }
  }

  lemma SessionKeepsRecoverable(dev: Device, m: Memory, core: seq<byte>, staged: Memory, s: Session)
    requires HeaderTears(dev, m) && Recoverable(m, core, staged) && HeaderFits(m)
    ensures var r, next := BootOf(dev, m, s).chip.mem, AfterSession(dev, m, s);
      if BootOf(dev, m, s).jumped then Recoverable(next, CoreOf(r), next) else Recoverable(next, core, staged)
  {
    hide Boot, Run;
    BootKeepsRecoverable(dev, m, core, staged, s);
    if BootOf(dev, m, s).jumped {
      RunStaysInStaging(dev, Started(dev, m, s), s.packets);
      assert CoreOf(AfterSession(dev, m, s)) == CoreOf(BootOf(dev, m, s).chip.mem);
    }
  }

  /** In every run of sessions, with arbitrary failures and power cuts anywhere in either program,
      torn headers included, only whole cores are started as long as every header that a boot finds
      asks for what fits, and no erase of its page that breaks off leaves it over a changed page. */
  lemma {:induction false} NoHalfCopiedCore(dev: Device, m: Memory, core: seq<byte>, staged: Memory, ss: seq<Session>)
    requires Recoverable(m, core, staged) && HeadersFit(dev, m, ss)
    ensures StartsOnlyWholeCores(dev, m, core, staged, ss)
    decreases |ss|
  {
    hide BootOf, AfterSession, HeaderFits, HeaderTears, HoldsStaged;
    if ss == [] {
    } else {
      var s := ss[0];
      var r, next := BootOf(dev, m, s), AfterSession(dev, m, s);
      BootKeepsRecoverable(dev, m, core, staged, s);
      SessionKeepsRecoverable(dev, m, core, staged, s);
      if r.jumped {
        NoHalfCopiedCore(dev, next, CoreOf(r.chip.mem), next, ss[1..]);
      } else {
        NoHalfCopiedCore(dev, next, core, staged, ss[1..]);
      }
    }
  }

  /** Sessions in which the cores that are started receive nothing. */
  ghost predicate Quiet(ss: seq<Session>) { forall i :: 0 <= i < |ss| ==> ss[i].packets == [] }

  lemma QuietSession(dev: Device, m: Memory, s: Session)
    requires s.packets == []
    ensures AfterSession(dev, m, s) == BootOf(dev, m, s).chip.mem
  {
  }

  /** Without packets it is enough that the header there is fits, and that its page tears cleanly. */
  lemma {:induction false} QuietRunsAreSafe(dev: Device, m: Memory, core: seq<byte>, staged: Memory, ss: seq<Session>)
    requires HeaderTears(dev, m) && Recoverable(m, core, staged) && HeaderFits(m) && Quiet(ss)
    ensures StartsOnlyWholeCores(dev, m, core, staged, ss)
    decreases |ss|
  {
    hide BootOf, AfterSession, HeaderFits, HoldsStaged, TearsCleanly, HasHeader;
    if ss == [] {
    } else {
      var s := ss[0];
      var b, next := BootOf(dev, m, s), AfterSession(dev, m, s);
      QuietSession(dev, m, s);
      BootKeepsRecoverable(dev, m, core, staged, s);
      SessionKeepsRecoverable(dev, m, core, staged, s);
      if HasHeader(m) && HasHeader(next) {
        TearsAlike(dev, m, next);
      }
      if b.jumped {
        QuietRunsAreSafe(dev, next, CoreOf(b.chip.mem), next, ss[1..]);
      } else {
        QuietRunsAreSafe(dev, next, core, staged, ss[1..]);
      }
    }
  }

  /** From an oversized header one failed word and one more boot start a partly copied core. */
  lemma OversizedHeaderStartsHalfCopy(dev: Device, m: Memory, core: seq<byte>) returns (ss: seq<Session>)
    requires HasHeader(m) && !SizeFits(m) && ReachesStaging(dev, m)
    requires core != Bytes(m, NEW_IMAGE, NEW_CORE - CURRENT_CORE)
    ensures Quiet(ss) && !StartsOnlyWholeCores(dev, m, core, m, ss)
  {
    hide Boot;
    var fates := OversizedHeaderIsUnsafe(dev, m);
    var r := Boot(dev, Chip(m, fates, true)).chip.mem;
    var second := Session([], [], []);
    ss := [Session(fates, [], []), second];
    assert CoreOf(r) == Bytes(m, NEW_IMAGE, 4 * MAX_WORDS);
    assert !StartsOnlyWholeCores(dev, r, core, m, [second]);
    assert ss[1..] == [second];
  }

  /** One that the device can copy to the end is started without any failure, over the staging area
      that it was read from. */
  lemma OversizedHeaderIsStarted(dev: Device, m: Memory, core: seq<byte>) returns (ss: seq<Session>)
    requires HasHeader(m) && !SizeFits(m)
    requires Accepts(dev, CoreErased(m), NEW_IMAGE, CURRENT_CORE, HeaderSize(m))
    ensures Quiet(ss) && !StartsOnlyWholeCores(dev, m, core, m, ss)
  {
    hide Boot, Accepts;
    var fates := seq(InstallLength(m), _ => Complete);
    FailureFreeBoot(dev, Chip(m, fates, true));
    ss := [Session(fates, [], [])];
  }

  /** Whether the copy can run to its end or not, some device starts what is no whole core. */
  lemma OversizedHeaderSomewhere(m: Memory) returns (ss: seq<Session>)
    requires HasHeader(m) && !SizeFits(m)
    requires CoreOf(m) != Bytes(m, NEW_IMAGE, NEW_CORE - CURRENT_CORE) || InFlash(NEW_IMAGE, 4 * HeaderSize(m))
    ensures Quiet(ss) && !StartsOnlyWholeCores(ANY_DEVICE, m, CoreOf(m), m, ss)
  {
    hide StartsOnlyWholeCores, Accepts, Quiet, HasHeader, HeaderSize, SizeFits, CoreOf, Fill;
    if InFlash(NEW_IMAGE, 4 * HeaderSize(m)) {
      AnyDeviceAccepts(CoreErased(m), NEW_IMAGE, CURRENT_CORE, HeaderSize(m));
      ss := OversizedHeaderIsStarted(ANY_DEVICE, m, CoreOf(m));
    } else {
      AnyDeviceReachesStaging(m);
      ss := OversizedHeaderStartsHalfCopy(ANY_DEVICE, m, CoreOf(m));
    }
  }

  lemma TornToItself(m: Memory, junk: Word)
    ensures Torn(ANY_DEVICE, m, NEW_CORE, junk) == m
  {
  }

  lemma AnyDeviceTearsCleanly(m: Memory)
    ensures HeaderTears(ANY_DEVICE, m)
  {
    forall junk: Word ensures Torn(ANY_DEVICE, m, NEW_CORE, junk) == m {
      TornToItself(m, junk);
    }
  }

  /** The exact condition, wherever a run has come to: whatever boots follow are safe, on every
      device whose header page tears cleanly and under every failure, exactly when the header in the
      flash, if any, asks for what fits.  (An image that does not even end within the flash is never
      copied to its end; of such a one the current core must differ from what the copy would leave.) */
  lemma SafeFromHereIffHeaderFits(m: Memory)
    requires CoreOf(m) != Bytes(m, NEW_IMAGE, NEW_CORE - CURRENT_CORE) || InFlash(NEW_IMAGE, 4 * HeaderSize(m))
    ensures HeaderFits(m) <==>
      forall dev: Device, ss: seq<Session> :: HeaderTears(dev, m) && Quiet(ss) ==>
        StartsOnlyWholeCores(dev, m, CoreOf(m), m, ss)
  {
    hide StartsOnlyWholeCores, Quiet, HeaderTears, HasHeader, HeaderSize, SizeFits, CoreOf, ANY_DEVICE;
    if HeaderFits(m) {
      forall dev: Device, ss: seq<Session> | HeaderTears(dev, m) && Quiet(ss)
        ensures StartsOnlyWholeCores(dev, m, CoreOf(m), m, ss)
      {
        QuietRunsAreSafe(dev, m, CoreOf(m), m, ss);
      }
    } else {
      var ss := OversizedHeaderSomewhere(m);
      AnyDeviceTearsCleanly(m);
    }
  }

  lemma NotTheStagedImage(dev: Device, m: Memory, r: Memory, ss: seq<Session>)
    requires |ss| == 2 && !BootOf(dev, m, ss[0]).jumped && r == BootOf(dev, m, ss[0]).chip.mem
    requires HasHeader(r) && !SameStaging(m, r) && BootOf(dev, r, ss[1]).jumped
    ensures !StartsOnlyWholeCores(dev, m, CoreOf(m), m, ss)
  {
    hide Boot, HasHeader, SameStaging;
    assert ss[1..][0] == ss[1];
    assert !StartsOnlyWholeCores(dev, r, CoreOf(m), m, ss[1..]);
  }

  /** Why erases must tear cleanly: power lost while the header's page is erased, the header still
      there and anything else in its page changed, and the next boot starts what nobody staged. */
  lemma TornEraseStartsOtherCore(dev: Device, m: Memory, junk: Word) returns (ss: seq<Session>)
    requires ProgramsErased(dev) && HasHeader(m) && HeaderSize(m) <= ERASED_WORDS
    requires var t := Torn(dev, m, NEW_CORE, junk); HasHeader(t) && t != m && HeaderSize(t) <= ERASED_WORDS
    ensures Quiet(ss) && !StartsOnlyWholeCores(dev, m, CoreOf(m), m, ss)
  {
    hide Boot, Torn, HasHeader, HeaderSize, StartsOnlyWholeCores;
    BlankIsAccepted(dev, CoreErased(m), NEW_IMAGE, CURRENT_CORE, HeaderSize(m));
    var fates := BootTearsAt(dev, m, junk);
    var t, r := Torn(dev, m, NEW_CORE, junk), Boot(dev, Chip(m, fates, true)).chip.mem;
    HeaderIsStaging(t, r);
    assert !SameStaging(m, r) by {
      assert SameStaging(m, t) ==> t == m;
    }
    var last := seq(InstallLength(r), _ => Complete);
    BlankIsAccepted(dev, CoreErased(r), NEW_IMAGE, CURRENT_CORE, HeaderSize(r));
    FailureFreeBoot(dev, Chip(r, last, true));
    ss := [Session(fates, [], []), Session(last, [], [])];
    NotTheStagedImage(dev, m, r, ss);
  }

  /** How the header's page may be torn, as far as it matters: a header that is left asks for no more
      than is erased, so that the next boot can finish. */
  ghost predicate TornHeadersAreShort(dev: Device, m: Memory) {
    forall junk: Word :: HasHeader(Torn(dev, m, NEW_CORE, junk)) ==>
      HeaderSize(Torn(dev, m, NEW_CORE, junk)) <= ERASED_WORDS
  }

  /** For each device: whatever boots follow are safe exactly if the header's page tears cleanly. */
  lemma SafeFromHereIffTearsCleanly(dev: Device, m: Memory)
    requires ProgramsErased(dev) && HasHeader(m) && HeaderSize(m) <= ERASED_WORDS && TornHeadersAreShort(dev, m)
    ensures TearsCleanly(dev, m) <==>
      forall ss: seq<Session> :: Quiet(ss) ==> StartsOnlyWholeCores(dev, m, CoreOf(m), m, ss)
  {
    hide StartsOnlyWholeCores, ProgramsErased, Torn;
    if TearsCleanly(dev, m) {
      forall ss: seq<Session> | Quiet(ss) ensures StartsOnlyWholeCores(dev, m, CoreOf(m), m, ss) {
        QuietRunsAreSafe(dev, m, CoreOf(m), m, ss);
      }
    } else {
      var junk: Word :| HasHeader(Torn(dev, m, NEW_CORE, junk)) && Torn(dev, m, NEW_CORE, junk) != m;
      var ss := TornEraseStartsOtherCore(dev, m, junk);
      assert Quiet(ss) && !StartsOnlyWholeCores(dev, m, CoreOf(m), m, ss);
    }
  }

  // ---------- which updates leave headers that fit ----------

  /** Every header packet of the session is written whole and asks for a size that fits. */
  ghost predicate HeadersWhole(dev: Device, s: State, ps: seq<Packet>)
    decreases |ps|
  {
    ps == [] || !s.chip.alive ||
    var (t, reply) := Receive(dev, s, ps[0]);
    && (s.upd && IsHeader(ps[0]) ==> reply == Ack && Value(ps[0].payload[12..16]) <= MAX_WORDS)
    && HeadersWhole(dev, t, ps[1..])
  }

  ghost predicate HeadersWholeThroughout(dev: Device, m: Memory, ss: seq<Session>)
    decreases |ss|
  {
    ss == [] ||
    ((BootOf(dev, m, ss[0]).jumped ==> HeadersWhole(dev, Started(dev, m, ss[0]), ss[0].packets)) &&
     HeadersWholeThroughout(dev, AfterSession(dev, m, ss[0]), ss[1..]))
  }

  lemma {:induction false} RunKeepsHeaderFits(dev: Device, s: State, ps: seq<Packet>)
    requires CleanTears(dev) && InSync(s) && HeaderFits(s.chip.mem) && HeadersWhole(dev, s, ps)
    ensures HeaderFits(Run(dev, s, ps).chip.mem)
    decreases |ps|
  {
    hide Receive;
    if ps == [] || !s.chip.alive {
    } else {
      var p := ps[0];
      var t := Receive(dev, s, p).0;
      ReceiveStaysInStaging(dev, s, p);
      if s.upd && IsHeader(p) {
        ReceiveHeader(dev, s, p);
        assert Bytes(t.chip.mem, NEW_CORE + 12, 4) == Bytes(t.chip.mem, NEW_CORE, HEADER_SIZE)[12..16];
      } else if s.upd && IsDel(p) {
        ReceiveDel(dev, s, p);
      } else {
        ReceiveKeepsHeader(dev, s, p);
        SameHeader(s.chip.mem, t.chip.mem);
      }
      RunKeepsHeaderFits(dev, t, ps[1..]);
    }
  }

  /** Headers that are written whole and ask for what fits are enough: then every header that a boot
      finds fits, so that only whole cores are started. */
  lemma {:induction false} WholeHeadersFit(dev: Device, m: Memory, ss: seq<Session>)
    requires CleanTears(dev) && HeaderFits(m) && HeadersWholeThroughout(dev, m, ss)
    ensures HeadersFit(dev, m, ss)
    decreases |ss|
  {
    hide Boot, Run;
    if ss == [] {
    } else {
      BootKeepsRecoverable(dev, m, CoreOf(m), m, ss[0]);
      if BootOf(dev, m, ss[0]).jumped {
        RunKeepsHeaderFits(dev, Started(dev, m, ss[0]), ss[0].packets);
      }
      WholeHeadersFit(dev, AfterSession(dev, m, ss[0]), ss[1..]);
    }
  }

  // ---------- an update from end to end ----------

  lemma InstalledPrefixIff(m: Memory, r: Memory, data: seq<byte>)
    requires HeaderSize(m) <= ERASED_WORDS && Installed(r, StagedImage(m))
    requires |data| <= 4 * ERASED_WORDS && Bytes(m, NEW_IMAGE, |data|) == data
    ensures StartsWith(r, data) <==> forall i :: 4 * HeaderSize(m) <= i < |data| ==> data[i] == 255
  {
    var image, core := StagedImage(m), Bytes(r, CURRENT_CORE, |data|);
    assert forall i :: 0 <= i < |data| ==> core[i] == if i < |image| then data[i] else 255 by {
      forall i | 0 <= i < |data| ensures core[i] == if i < |image| then data[i] else 255 {
        if i < |image| {
          assert core[i] == Bytes(r, CURRENT_CORE, |image|)[i] == image[i] == Bytes(m, NEW_IMAGE, |data|)[i];
        }
      }
    }
    if forall i :: 4 * HeaderSize(m) <= i < |data| ==> data[i] == 255 {
      assert core == data;
    }
  }

  /** Once every packet of a run is in, whatever interrupted boots follow, one boot without failures
      installs what the header last left in place asks for.  The acknowledged chunks are then the
      first bytes of the current core exactly when what they hold beyond that size is blank. */
  lemma AcknowledgedIsInstalledIff(dev: Device, s: State, ps: seq<Packet>, scripts: seq<seq<Fate>>, last: seq<Fate>)
    requires ProgramsErased(dev) && CleanTears(dev) && Holds(s, []) && forall i :: 0 <= i < |ps| ==> !IsDel(ps[i])
    requires |AcknowledgedAll(dev, s, ps)| <= 4 * ERASED_WORDS
    requires var h := LastHeader(dev, s, ps, []);
      && |h| == HEADER_SIZE && Value(h[12..16]) <= ERASED_WORDS
      && FailureFree(last, CORE_PAGES + Value(h[12..16]) + PAGES_TO_ERASE)
    ensures var m := Boots(dev, Run(dev, s, ps).chip.mem, scripts + [last]); var data := AcknowledgedAll(dev, s, ps);
      && !HasHeader(m)
      && (StartsWith(m, data) <==>
          forall i :: 4 * Value(LastHeader(dev, s, ps, [])[12..16]) <= i < |data| ==> data[i] == 255)
  {
    hide Run, AcknowledgedAll, LastHeader, Boots, Boot, StartsWith;
    var m, h, data := Run(dev, s, ps).chip.mem, LastHeader(dev, s, ps, []), AcknowledgedAll(dev, s, ps);
    RunKeepsChunks(dev, s, ps, []);
    RunKeepsHeader(dev, s, ps, []);
    assert [] + data == data;
    assert Bytes(m, NEW_CORE, 3) == Bytes(m, NEW_CORE, HEADER_SIZE)[..3];
    assert Bytes(m, NEW_CORE + 12, 4) == Bytes(m, NEW_CORE, HEADER_SIZE)[12..16];
    InstallCompletes(dev, m, scripts, last);
    InstalledPrefixIff(m, Boots(dev, m, scripts + [last]), data);
  }

  /** The payloads of the chunks among the packets, joined. */
  function Payloads(ps: seq<Packet>): seq<byte> {
    if ps == [] then [] else (if IsChunk(ps[0]) then ps[0].payload else []) + Payloads(ps[1..])
  }

  /** The last header among the packets. */
  function HeaderIn(ps: seq<Packet>, h: seq<byte>): seq<byte> {
    if ps == [] then h else HeaderIn(ps[1..], if IsHeader(ps[0]) then ps[0].payload else h)
  }

  function SizeIn(header: seq<byte>): nat
    requires |header| == HEADER_SIZE
  {
    Value(header[12..16])
  }

  /** A header that asks for at least `len` bytes, and for no more than is erased. */
  predicate AsksFor(header: seq<byte>, len: nat) {
    |header| == HEADER_SIZE && len <= 4 * SizeIn(header) <= 4 * ERASED_WORDS
  }

  /** Every packet of the run is received and acknowledged. */
  ghost predicate AllAcknowledged(dev: Device, s: State, ps: seq<Packet>)
    decreases |ps|
  {
    ps == [] ||
    (s.chip.alive && Receive(dev, s, ps[0]).1 == Ack && AllAcknowledged(dev, Receive(dev, s, ps[0]).0, ps[1..]))
  }

  lemma {:induction false} AllAcknowledgedMeans(dev: Device, s: State, ps: seq<Packet>, h: seq<byte>)
    requires s.upd && InSync(s) && AllAcknowledged(dev, s, ps)
    ensures AcknowledgedAll(dev, s, ps) == Payloads(ps)
    ensures LastHeader(dev, s, ps, h) == HeaderIn(ps, h)
    decreases |ps|
  {
    hide Receive;
    if ps == [] {
    } else {
      ReceiveStaysInStaging(dev, s, ps[0]);
      AllAcknowledgedMeans(dev, Receive(dev, s, ps[0]).0, ps[1..], if IsHeader(ps[0]) then ps[0].payload else h);
    }
  }

  /** End to end: a core is started and receives the request, then chunks and headers anywhere among
      them, all acknowledged, the last header asking for at least the chunks.  After any number of
      interrupted boots, one boot without failures makes the chunks the first bytes of the current
      core. */
  lemma EndToEndUpdate(dev: Device, c: Chip, request: Packet, ps: seq<Packet>, scripts: seq<seq<Fate>>, last: seq<Fate>)
    requires ProgramsErased(dev) && CleanTears(dev) && c.alive && IsRequest(request)
    requires AllAcknowledged(dev, Receive(dev, Fresh(c), request).0, ps)
    requires forall i :: 0 <= i < |ps| ==> IsChunk(ps[i]) || IsHeader(ps[i])
    requires AsksFor(HeaderIn(ps, []), |Payloads(ps)|)
    requires FailureFree(last, CORE_PAGES + SizeIn(HeaderIn(ps, [])) + PAGES_TO_ERASE)
    ensures var m := Boots(dev, Run(dev, Fresh(c), [request] + ps).chip.mem, scripts + [last]);
      StartsWith(m, Payloads(ps)) && !HasHeader(m)
  {
    hide Receive, Boots;
    var s := Receive(dev, Fresh(c), request).0;
    IdleReceive(dev, Fresh(c), request);
    assert ([request] + ps)[1..] == ps;
    AllAcknowledgedMeans(dev, s, ps, []);
    AcknowledgedIsInstalledIff(dev, s, ps, scripts, last);
  }

  /** The same in bytes and addresses: the last header is `ver`, nine bytes of any name, and the number
      of words with its lowest byte first, which is what the boots copy to 0x08004000. */
  lemma UpdateInBytes(dev: Device, c: Chip, request: Packet, ps: seq<Packet>, name: seq<byte>, words: nat,
                      scripts: seq<seq<Fate>>, last: seq<Fate>)
    requires ProgramsErased(dev) && CleanTears(dev) && c.alive && Spells(request.payload, "upd")
    requires AllAcknowledged(dev, Receive(dev, Fresh(c), request).0, ps)
    requires forall i :: 0 <= i < |ps| ==> IsChunk(ps[i]) || IsHeader(ps[i])
    requires |Payloads(ps)| <= 4 * words <= 0x4000 && |name| == 9
    requires HeaderIn(ps, []) == [0x76, 0x65, 0x72] + name
      + [words % 0x100, words / 0x100 % 0x100, words / 0x1_0000 % 0x100, words / 0x100_0000]
    requires FailureFree(last, 8 + words + 64)
    ensures var m := Boots(dev, Run(dev, Fresh(c), [request] + ps).chip.mem, scripts + [last]);
      Bytes(m, 0x0800_4000, |Payloads(ps)|) == Payloads(ps) && !HasHeader(m)
  {
    hide Receive, Boots, Run, Spells, Payloads, HeaderIn, AllAcknowledged;
    WordsSpell(request.payload, c.mem);
    ValueIsLittleEndian(words);
    var h := HeaderIn(ps, []);
    assert h[12..16] == [words % 0x100, words / 0x100 % 0x100, words / 0x1_0000 % 0x100, words / 0x100_0000];
    EndToEndUpdate(dev, c, request, ps, scripts, last);
  }

  // ---------- what a run cannot do ----------

  /** Without a header packet nothing is installed: the next boot starts the core that ran, and
      changes no byte of the flash. */
  lemma NoHeaderNoInstall(dev: Device, s: State, ps: seq<Packet>, fates: seq<Fate>)
    requires CleanTears(dev) && InSync(s) && !HasHeader(s.chip.mem) && forall i :: 0 <= i < |ps| ==> !IsHeader(ps[i])
    ensures var m := Run(dev, s, ps).chip.mem;
      Boot(dev, Chip(m, fates, true)) == BootResult(Chip(m, fates, true), true) && CoreOf(m) == CoreOf(s.chip.mem)
  {
    hide Run, Boot;
    RunStaysInStaging(dev, s, ps);
    BootWithoutHeader(dev, Chip(Run(dev, s, ps).chip.mem, fates, true));
  }

  /** Abort: after any run, an acknowledged `del` blanks exactly its pages, which are the header's and
      all whole pages of what was staged, and the next boot installs nothing. */
  lemma DelAborts(dev: Device, s: State, ps: seq<Packet>, p: Packet, fates: seq<Fate>)
    requires InSync(s) && Run(dev, s, ps).upd && IsDel(p) && Receive(dev, Run(dev, s, ps), p).1 == Ack
    ensures var t := Run(dev, s, ps); var m := Receive(dev, t, p).0.chip.mem; var pages := DelPages(t.total);
      && 1 <= pages && m == Fill(t.chip.mem, NEW_CORE, NEW_CORE + pages * PAGE_SIZE)
      && t.total - PAGE_SIZE < pages * PAGE_SIZE && (pages > 1 ==> pages * PAGE_SIZE <= t.total)
      && Boot(dev, Chip(m, fates, true)) == BootResult(Chip(m, fates, true), true)
      && CoreOf(m) == CoreOf(s.chip.mem)
  {
    hide Run, Boot, Receive, CleanTears, TearsCleanly, HasHeader, IsDel;
    var t := Run(dev, s, ps);
    RunStaysInStaging(dev, s, ps);
    ReceiveDel(dev, t, p);
    BootWithoutHeader(dev, Chip(Receive(dev, t, p).0.chip.mem, fates, true));
  }

  /** `del` is refused exactly when its pages would reach past the last page but one. */
  lemma DelSucceedsIff(dev: Device, s: State, p: Packet)
    requires s.upd && s.chip.alive && IsDel(p) && FailureFree(s.chip.fates, DelPages(s.total))
    ensures Receive(dev, s, p).1 == (if NEW_CORE + DelPages(s.total) * PAGE_SIZE <= LAST_PAGE then Ack else Nack)
  {
    var rx: Buffer := p.payload + s.rx[3..];
    assert rx[..3] == p.payload;
    if NEW_CORE + DelPages(s.total) * PAGE_SIZE <= LAST_PAGE {
      EraseSectorCompletes(dev, s.chip, NEW_CORE, DelPages(s.total));
    }
  }

  /** The device can program word `i` of the header over what is there. */
  ghost predicate TakesWord(dev: Device, m: Memory, header: seq<byte>, i: nat) {
    i + 4 <= HEADER_SIZE <= |header| && dev.programs(NEW_CORE + i, Bytes(m, NEW_CORE + i, 4), header[i..i + 4])
  }

  /** The header loop from word offset `i` on, with power for only `k` more words. */
  lemma {:induction false} CutWriting(dev: Device, c: Chip, rx: Buffer, i: nat, k: nat)
    requires i % 4 == 0 && i + 4 * k < HEADER_SIZE && c.alive && c.fates == seq(k, _ => Complete)
    requires forall j :: i <= j < i + 4 * k && j % 4 == 0 ==> TakesWord(dev, c.mem, rx, j)
    ensures var (d, ok) := WriteWords(dev, c, NEW_CORE, rx, i, HEADER_SIZE);
      !d.alive && !ok && SameOutside(c.mem, d.mem, NEW_CORE + i, NEW_CORE + i + 4 * k)
    decreases k
  {
    hide Put;
    if k == 0 {
    } else {
      assert TakesWord(dev, c.mem, rx, i);
      WordCompletes(dev, c, NEW_CORE + i, rx[i..i + 4]);
      var e := Program(dev, c, NEW_CORE + i, rx[i..i + 4]).0;
      assert e.fates == seq(k - 1, _ => Complete);
      forall j | i + 4 <= j < i + 4 * k && j % 4 == 0 ensures TakesWord(dev, e.mem, rx, j) {
        assert TakesWord(dev, c.mem, rx, j);
        assert Bytes(e.mem, NEW_CORE + j, 4) == Bytes(c.mem, NEW_CORE + j, 4);
      }
      CutWriting(dev, e, rx, i + 4, k - 1);
    }
  }

  /** Power lost after one, two or three header words: the header is recognised, with whatever size
      was in the flash before it. */
  lemma TornHeader(dev: Device, s: State, p: Packet, k: nat)
    requires s.upd && s.chip.alive && IsHeader(p) && 1 <= k <= 3 && s.chip.fates == seq(k, _ => Complete)
    requires forall j :: 0 <= j < 4 * k && j % 4 == 0 ==> TakesWord(dev, s.chip.mem, p.payload, j)
    ensures var t := Receive(dev, s, p).0;
      && !t.chip.alive && SameOutside(s.chip.mem, t.chip.mem, NEW_CORE, NEW_CORE + 4 * k)
      && HasHeader(t.chip.mem) && HeaderSize(t.chip.mem) == HeaderSize(s.chip.mem)
  {
    hide Program;
    var c := s.chip;
    var rx: Buffer := p.payload + s.rx[HEADER_SIZE..];
    assert rx[..3] == p.payload[..3];
    forall j | 0 <= j < 4 * k && j % 4 == 0 ensures TakesWord(dev, c.mem, rx, j) {
      assert TakesWord(dev, c.mem, p.payload, j) && rx[j..j + 4] == p.payload[j..j + 4];
    }
    assert TakesWord(dev, c.mem, rx, 0);
    var e := Program(dev, c, NEW_CORE, rx[0..4]).0;
    WordCompletes(dev, c, NEW_CORE, rx[0..4]);
    forall j | 4 <= j < 4 * k && j % 4 == 0 ensures TakesWord(dev, e.mem, rx, j) {
      assert TakesWord(dev, c.mem, rx, j);
      assert Bytes(e.mem, NEW_CORE + j, 4) == Bytes(c.mem, NEW_CORE + j, 4);
    }
    CutWriting(dev, e, rx, 4, k - 1);
    var m, t := WriteWords(dev, e, NEW_CORE, rx, 4, HEADER_SIZE).0.mem, Receive(dev, s, p).0;
    assert t.chip.mem == m;
    assert Bytes(m, NEW_CORE, 3) == Bytes(e.mem, NEW_CORE, 4)[..3] == VER;
    assert Bytes(m, NEW_CORE + 12, 4) == Bytes(c.mem, NEW_CORE + 12, 4);
  }

  lemma {:induction false} AcceptsAlike(dev: Device, m: Memory, r: Memory, from: nat, to: nat, n: nat)
    requires to + 4 * n <= NEW_CORE && NEW_IMAGE <= from
    requires SameOutside(m, r, NEW_CORE, NEW_IMAGE) && Accepts(dev, m, from, to, n)
    ensures Accepts(dev, r, from, to, n)
    decreases n
  {
    if n == 0 {
    } else {
      assert Bytes(m, to, 4) == Bytes(r, to, 4) && Bytes(m, from, 4) == Bytes(r, from, 4);
      AcceptsAlike(dev, m, r, from + 4, to + 4, n - 1);
    }
  }

  /** A session in which power is lost after the first header word. */
  function TornSession(header: seq<byte>): Session {
    Session([], [Complete], [Packet(UPD, ERASED), Packet(header, ERASED)])
  }

  lemma TornSessionEffect(dev: Device, m: Memory, header: seq<byte>)
    requires !HasHeader(m) && |header| == HEADER_SIZE && header[..3] == VER && TakesWord(dev, m, header, 0)
    ensures var s := TornSession(header); var r := AfterSession(dev, m, s);
      && BootOf(dev, m, s) == BootResult(Chip(m, [], true), true)
      && SameOutside(m, r, NEW_CORE, NEW_IMAGE) && HasHeader(r) && HeaderSize(r) == HeaderSize(m)
  {
    hide Receive, Boot;
    var s := TornSession(header);
    var request, hp := s.packets[0], s.packets[1];
    BootWithoutHeader(dev, Chip(m, [], true));
    var u := Started(dev, m, s);
    IdleReceive(dev, u, request);
    var v := Receive(dev, u, request).0;
    assert [Complete] == seq(1, _ => Complete);
    TornHeader(dev, v, hp, 1);
    assert s.packets[1..] == [hp];
    assert Run(dev, u, s.packets) == Run(dev, v, [hp]) == Receive(dev, v, hp).0;
  }

  /** Why headers must be written whole: on a device with no header and a blank (or any oversized)
      word where the size goes, one power cut inside write_header and one failed word during the
      boot after it are enough to start a core of which only a part was copied. */
  lemma TornHeaderStartsHalfCopy(dev: Device, m: Memory, header: seq<byte>) returns (ss: seq<Session>)
    requires !HasHeader(m) && !SizeFits(m) && |header| == HEADER_SIZE && header[..3] == VER
    requires TakesWord(dev, m, header, 0) && ReachesStaging(dev, m)
    requires CoreOf(m) != Bytes(m, NEW_IMAGE, NEW_CORE - CURRENT_CORE)
    ensures Recoverable(m, CoreOf(m), m)
    ensures !StartsOnlyWholeCores(dev, m, CoreOf(m), m, ss)
  {
    hide AfterSession, BootOf, Accepts, HasHeader, HeaderSize, TornSession;
    var first := TornSession(header);
    var r := AfterSession(dev, m, first);
    TornSessionEffect(dev, m, header);
    assert Bytes(r, NEW_IMAGE, NEW_CORE - CURRENT_CORE) == Bytes(m, NEW_IMAGE, NEW_CORE - CURRENT_CORE);
    AcceptsAlike(dev, CoreErased(m), CoreErased(r), NEW_IMAGE, CURRENT_CORE, MAX_WORDS);
    var rest := OversizedHeaderStartsHalfCopy(dev, r, CoreOf(m));
    ss := [first] + rest;
    assert ss[1..] == rest;
  }
}
