# Verification of the STM32F107 bootloader and network updater

Two programs share the flash of one microcontroller. The updater, part of the running core, receives
packets over UDP and stages a new image at 0x08010000. The bootloader runs at every reset: if it
finds a staged header it erases the current core at 0x08004000, copies the image over it word by
word, erases the staging area and starts the core. This project models both, proves what holds over
whole runs with failures and power cuts anywhere, and adds the formatter, the CRC table and the
arithmetic helpers of the repository.

## How the device is modelled

- The flash is a byte array changed in place by `ErasePage` and `ProgramWord` (`Flash.dfy`). A script
  of fates says how each operation ends: it completes, fails, or loses power in the middle. When the
  script runs out power is lost before the next one, so a statement over all scripts is one over all
  failures and all places of a power cut. A word program that breaks off may leave anything in its
  word, because the driver programs two half-words; a page erase that breaks off leaves what the
  device makes of the page. The device also decides which words it
  can program over which old content, so the same theorems cover flash that can only program erased
  words. Both are arbitrary functions, and every theorem says what it asks of them.
- A CPU that has lost power, faulted or been reset is no longer alive. The code unwinds through its
  own error paths, but nothing it does can change the flash any more, and it does not count as having
  started a core.
- Each program is a class whose methods follow the C functions, proved equal to functions of the
  state; the theorems are about those functions. Addresses are the absolute ones of the source.
- The uninitialised loop index at bootloader/src/flash_drv.c:36 is taken as 0. The callbacks at
  updater_mcu/src/ethernet.c:319-320 and 331-332 copy the payload into `rx_upd_buff` and pass
  `rx_buff`; the handlers are modelled on the buffer that was filled.

## What the proofs show about the code

- The header comment at bootloader/src/flash_drv.c:25 calls the size field a number of bytes; the copy
  loop counts words. One boot is safe under all failures exactly when the field is at most 0x3000, or
  the device refuses a word before the copy comes to the header (`SafeOnDeviceIff`). Over all devices
  and all boots that follow, only whole cores are started exactly when the header found in the flash,
  if any, asks for no more (`SafeFromHereIffHeaderFits`; an image that does not even end within the
  flash is left aside there if the current core already is what copying it would leave). That each
  boot finds no other header, and that its page tears cleanly, is therefore all that
  `NoHalfCopiedCore` needs of a run; headers that were written whole and fit are one way to have the
  first (`WholeHeadersFit`).
- write_header writes the recognised word first and the size last. Power lost in between leaves a
  header whose size is whatever was there, 0xFFFFFFFF on blank flash, and then a half-copied core can
  be started (`TornHeader`, `TornHeaderStartsHalfCopy`).
- The header shares its page with the first words of the image. If an erase of that page breaks off
  and leaves the three recognised bytes over changed ones, the next boot installs what is left
  (`TornEraseStartsOtherCore`). One boot keeps the image under every failure exactly if the device
  never does that (`ImageIsKeptIffTearsCleanly`), and all boots that follow are safe exactly then, if
  what is left asks for no more than is erased (`SafeFromHereIffTearsCleanly`).
- Every boot erases eight pages, 0x1000 words. On flash that only programs erased words a boot
  without failures finishes exactly when the size fits and what lies beyond those pages is blank
  (`InstallsIffBeyondIsBlank`), so that for a larger image one failed word there stops every later
  boot for good (`OneFailureBricks`, `StuckForGood`). A failure-free boot is sure to finish, whatever
  came before, exactly up to 0x1000 words (`AlwaysFinishesIff`).
- A header whose size is too small is installed as it stands: what was acknowledged is then in place
  exactly when the part beyond the size was blank (`AcknowledgedIsInstalledIff`).
- An update goes through, on flash that only programs erased words, exactly when the place of its
  packets is blank and it has one header at most (`UpdateGoesThroughIff`, and `UpdatesFollowUpdates`
  for any number of them). A boot that loses power after the header's page was erased leaves the rest
  of the old image there. The new core then boots, but no packets, `del` included, ever get an update
  past the first byte that is left (`CutEraseBlocksUpdates`).
- upd_calc_crc feeds the unit four times the size of the image. Once more than 0xC000 bytes are staged
  that reaches past the end of the flash, and `crc` hangs the CPU (`CrcHangsIff`).
- `del` does not reset the write position, so later chunks continue behind what it erased; it leaves
  the staged bytes as they were exactly when they were blank (`DelKeepsChunksIff`).
- `crc` is acknowledged even when its word could not be written (`ReceiveCrc`).
- check_core returns without setting errno when the staging area cannot be erased, so the new core is
  started over a header that may still be there (`StagingEraseFailureStillStarts`).
- iprintf and fiprintf format into a buffer of just the estimated length, in which the terminator has
  a place exactly when the estimate of some token is not tight (`TerminatorFitsIff`). It has none for
  any text without a conversion (`PlainTextLeavesNoRoom`).
- The circular write keeps its offset in 16 bits, so a ring of more than 0x10000 samples loses its
  place (`LongRingsRepeat`, `OffsetIsPositionIff`). Its comment speaks of negative increments, but only the upper end wraps:
  `StaysIff` says for which increments and blocks it stays in the buffer.
- The two weights of the q15 interpolation add up to one unit less than 1.0, so positive table points
  come out one too small (`NodeIsExactIff`).
- `localtime` is declared at updater_mcu/src/stm32f1xx_it.c:34, while updater_mcu/src/main.c:10 defines
  `local_time`; the tick model takes the counter as declared and starting from 0.

## Model

| member | source | states |
|---|---|---|
| Flash.FlashDevice.ErasePage | bootloader/Libraries/STM32F10x_StdPeriph_Driver/src/stm32f10x_flash.c:420-484 | one erase: the page is all 0xFF, or what the device leaves of it when it breaks off; nothing else changes |
| Flash.FlashDevice.ProgramWord | bootloader/Libraries/STM32F10x_StdPeriph_Driver/src/stm32f10x_flash.c:811-848 | one program: the word reads back as the data, or only that word is spoilt |
| Flash.ProgramBreaksOff | bootloader/Libraries/STM32F10x_StdPeriph_Driver/src/stm32f10x_flash.c:811-848 | a word that fails or is refused is reported, a power cut leaves the CPU off; what is left in the word either way |
| Flash.ValueIsLittleEndian | bootloader/src/flash_drv.c:41 | four bytes, the lowest first, are read as the number they are written from, for every 32-bit number |
| Flash.EraseSectorInPlace | bootloader/src/flash_drv.c:88-108 | the page loop and its bound, for every way its erases end |
| Flash.EraseLoopErasesPrefix | bootloader/src/flash_drv.c:99-106 | an interrupted loop has erased a prefix of the pages and torn at most the next; success means all of them |
| Flash.EraseLoopFailsAt | bootloader/src/flash_drv.c:99-106 | the page at which a loop fails is the last one it touches |
| Flash.EraseSectorCode | bootloader/src/flash_drv.c:88-108 | which of its three return codes erase_sector gives, told from its place, its erases and the flash it leaves |
| Flash.EraseLoopCompletes | bootloader/src/flash_drv.c:99-106 | without failures every page is erased and each took one operation |
| Bootloader.Bootloader.ReadHeader | bootloader/src/flash_drv.c:29-44 | a header is found exactly when the first bytes are `ver`, and the size is its last word, little-endian |
| Bootloader.Bootloader.ReplaceCoreInPlace | bootloader/src/flash_drv.c:52-78 | erase, then copy, with both error exits |
| Bootloader.Bootloader.CopyInPlace | bootloader/src/flash_drv.c:67-76 | the copy loop, for every size, failure and fault |
| Bootloader.Bootloader.CheckCoreInPlace | bootloader/src/main.c:53-72 | header check, replacement, erasure of the staging area |
| Bootloader.Bootloader.BootMain | bootloader/src/main.c:81-99 | the core is started exactly when no error was recorded |
| BootSafety.CopyCopiesPrefix | bootloader/src/flash_drv.c:67-76 | an interrupted copy has copied a prefix, spoilt at most the next word and touched nothing else |
| BootSafety.ReplaceCoreEffect | bootloader/src/flash_drv.c:52-78 | success means the whole image is in place and the rest of the erased pages blank; only the space between bootloader and staging area is written |
| BootSafety.EraseStagingEffect | bootloader/src/main.c:64-69 | the header's page goes first: after any erasure the header is gone, or its page was torn |
| BootSafety.BootKeepsImage | bootloader/src/main.c:53-87 | one boot, interrupted anywhere: whole image installed once the header is gone or the core is started, staged image intact until then if erases tear cleanly |
| BootSafety.HeaderAsksFor | bootloader/src/flash_drv.c:41 | which number of words a header found in the flash asks for, byte by byte |
| BootSafety.CrashSafeInstall | bootloader/src/main.c:53-72 | the same over every run of interrupted boots |
| BootSafety.CopyCompletesIff | bootloader/src/flash_drv.c:67-76 | without failures the copy completes exactly when the device can program every word of it |
| BootSafety.FailureFreeBoot | bootloader/src/main.c:81-87 | a boot without failures starts the core exactly then, and leaves the staging pages blank |
| BootSafety.InstallCompletes | bootloader/src/main.c:53-72 | after any interrupted boots one without failures finishes the installation and starts the core |
| BootLimits.OversizedHeaderIsUnsafe | bootloader/src/flash_drv.c:67-76 | for every larger size, and every device that programs the words before the header, there is a failure after which a partly copied core is started |
| BootLimits.SafeOnDeviceIff | bootloader/src/flash_drv.c:41-76 | for each device, one boot is safe under all failures exactly if the size fits or a word before the header is refused |
| BootLimits.SafeIffSizeFits | bootloader/src/flash_drv.c:41-76 | booting is safe on all devices under all failures exactly for sizes up to 0x3000 words |
| BootLimits.ImageIsKeptIffTearsCleanly | bootloader/src/main.c:53-72 | the staged image survives every failure exactly when no erase of its first page that breaks off leaves a header over a changed page |
| BootLimits.EraseIsCutAfter | bootloader/src/main.c:64-69 | power lost after any number of staging pages: image installed, header gone, the rest of the staging area as it was |
| BootLimits.StagingEraseFailureStillStarts | bootloader/src/main.c:66-87 | a staging erase that fails at any page is no error: the image is installed and its core started |
| BootLimits.CoreEraseFailureStartsNone | bootloader/src/flash_drv.c:58-64 | an erase of the current core that fails at any page ends with errno 3 and no core started |
| BootLimits.CopyFailureStartsNone | bootloader/src/flash_drv.c:67-76 | a copy that fails at any word ends with errno 2, that word spoilt and no core started |
| BootLimits.CopyPastFlashHangs | bootloader/src/flash_drv.c:67-76 | a copy that reads past the end of the flash hangs the CPU |
| BootLimits.InstallsIffBeyondIsBlank | bootloader/src/flash_drv.c:60-76 | on flash that only programs erased words, the exact condition for a failure-free boot to finish |
| BootLimits.StuckForGood | bootloader/src/flash_drv.c:60-76 | with something behind the erased pages and a larger image staged, no sequence of boots ever starts a core or changes that, under the same condition |
| BootLimits.OneFailureBricks | bootloader/src/flash_drv.c:60-76 | for a larger image than is erased, one failed word after which no later boot starts a core, however many follow, as long as no failed program leaves an erased byte |
| BootLimits.AlwaysFinishesIff | bootloader/src/main.c:53-87 | a boot without failures finishes after any interrupted ones exactly up to the size that is erased |
| Updater.UpdaterMcu.CheckUpdRequest | updater_mcu/src/updater.c:38-49 | the mode is entered exactly on the three bytes `upd` |
| Updater.UpdaterMcu.WriteHeader | updater_mcu/src/updater.c:109-121 | the four words of the header, first failure reported |
| Updater.UpdaterMcu.WriteCoreChunk | updater_mcu/src/updater.c:133-145 | the words of a chunk, first failure reported |
| Updater.UpdaterMcu.UpdCalcCrc | updater_mcu/src/updater.c:198-208 | the value goes right after the image; a failure gives 0xFFFFFFFF |
| Updater.UpdaterMcu.HandleUpdPacket | updater_mcu/src/updater.c:61-100 | the dispatch on length and command, with its return codes and the advance of both counters |
| Updater.UpdaterMcu.UdpUpdReceiveCallback | updater_mcu/src/ethernet.c:314-338 | mode switch, length limit, and which reply is sent |
| Staging.WordsSpell | updater_mcu/src/updater.c:41-86 | the five words the programs compare with, as texts |
| Staging.ReceiveBuffer | updater_mcu/src/ethernet.c:318-331 | what any packet leaves in the receive buffer, byte by byte |
| Staging.IdleReceive | updater_mcu/src/ethernet.c:329-336 | before the request nothing else has an effect, and only the request is answered |
| Staging.IdleRunReportsNothing | updater_mcu/src/ethernet.c:329-336 | a core that is never asked for an update changes no flash and reports no error |
| Staging.AnsweredIff | updater_mcu/src/ethernet.c:316-328 | in update mode, with the power on, exactly which packets get no answer |
| Staging.HandleCode | updater_mcu/src/updater.c:61-100 | the return codes of the dispatch |
| Staging.ReceiveChunk | updater_mcu/src/updater.c:92-98 | an acknowledged chunk lies at `addr` and moves both counters; a refused one moves neither, writes nothing below `addr`, sets errno and is answered |
| Staging.ChunkFillsItsWord | updater_mcu/src/updater.c:136-137 | the last word of a chunk is filled up from what was in the buffer |
| Staging.ChunkFailsAt | updater_mcu/src/updater.c:133-145 | a chunk whose word fails is refused there, with the words before it in place |
| Staging.ReceiveHeader | updater_mcu/src/updater.c:65-67 | only the header area is written, and an acknowledgement means it holds the packet |
| Staging.HeaderFailsAt | updater_mcu/src/updater.c:109-121 | so is a header |
| Staging.ReceiveCrc | updater_mcu/src/updater.c:82-84 | at most the word at `addr` changes, it is acknowledged either way, and an error is left in `errno` |
| Staging.CrcHangsIff | updater_mcu/src/updater.c:198-208 | exactly the sizes for which the CRC runs off the flash and nothing is answered |
| Staging.ReceiveDel | updater_mcu/src/updater.c:74-81 | only its pages change, header first, for every value of the counter including 8-bit truncation |
| Staging.DelFailsAt | updater_mcu/src/updater.c:74-81 | a `del` whose erase fails at any page is refused there, with the pages before it blank |
| Staging.ReceiveOther | updater_mcu/src/updater.c:85-90 | every other packet changes nothing: `reb` ends the run, the rest is refused or dropped |
| Staging.RunKeepsChunks | updater_mcu/src/updater.c:61-100 | over every run without `del`, `addr` = base + total and the bytes up to it are the acknowledged chunks, in order |
| Staging.DelKeepsChunksIff | updater_mcu/src/updater.c:74-81 | exactly when this survives a successful `del` |
| Staging.RunKeepsHeader | updater_mcu/src/updater.c:65-67 | over the same runs the header in place is the last one acknowledged |
| Staging.RunStaysInStaging | updater_mcu/src/updater.c:61-145 | over every run the current core is untouched, the mode never clears, and no header appears without a header packet |
| Staging.UpdateStartsOnRequest | updater_mcu/src/ethernet.c:329-336 | before a three-byte `upd` nothing but the buffer changes; the mode is entered exactly if one arrives |
| System.NoHalfCopiedCore | bootloader/src/main.c:53-87 | only cores that are untouched or wholly copied are started, in every run of boots and updates in which each header that a boot finds fits and its page tears cleanly |
| System.SafeFromHereIffHeaderFits | bootloader/src/flash_drv.c:41-76 | all boots that follow are safe exactly when the header found in the flash fits; of an oversized image that ends beyond the flash only if the current core is not already what copying it would leave |
| System.OversizedHeaderStartsHalfCopy | bootloader/src/flash_drv.c:41-76 | from every header that does not fit, on every device that programs the words before it, one failed word and one more boot start a partly copied core |
| System.OversizedHeaderIsStarted | bootloader/src/flash_drv.c:41-76 | where the copy can run to its end, what it left of image and staging area is started without any failure |
| System.QuietRunsAreSafe | bootloader/src/main.c:53-87 | over all boots without packets a fitting header whose page tears cleanly is enough |
| System.SafeFromHereIffTearsCleanly | bootloader/src/main.c:53-87 | for each device, all boots that follow are safe exactly if the header's page tears cleanly, torn headers asking for no more than is erased |
| System.TornEraseStartsOtherCore | bootloader/src/main.c:64-69 | a header left over a changed page by an erase cut off: the next boot starts what nobody staged |
| System.WholeHeadersFit | updater_mcu/src/updater.c:65-72 | runs whose headers are acknowledged and fit never show a boot another one |
| System.RunKeepsHeaderFits | updater_mcu/src/updater.c:65-72 | headers written whole and of a size that fits stay so through every run of packets |
| System.TornHeader | updater_mcu/src/updater.c:109-121 | power lost after one, two or three header words: a header with the size that was there before |
| System.TornHeaderStartsHalfCopy | updater_mcu/src/updater.c:109-121 | from there a run that starts a partly copied core |
| System.AcknowledgedIsInstalledIff | updater_mcu/src/updater.c:61-145 | for every run without `del` and any interrupted boots, exactly when the acknowledged bytes are the first of the new core |
| System.EndToEndUpdate | updater_mcu/src/updater.c:61-145 | chunks and headers in any order, all acknowledged, the last header asking for at least the chunks: they become the first bytes of the current core |
| System.UpdateInBytes | updater_mcu/src/updater.c:61-145 | the same with the header packet spelt out in bytes, its size the number of words, and the core at its address |
| System.NoHeaderNoInstall | bootloader/src/main.c:53-72 | without a header packet the next boot changes nothing and starts the core that ran |
| System.DelAborts | updater_mcu/src/updater.c:74-81 | after any run an acknowledged `del` blanks the header's page and all whole pages staged, nothing else, and the next boot installs nothing |
| System.DelSucceedsIff | updater_mcu/src/updater.c:170-190 | without failures `del` is refused exactly when its pages reach past the guarded address |
| Progress.BlankStagingAcknowledges | updater_mcu/src/updater.c:109-145 | chunks of whole words and a header are all acknowledged if their place is blank, and on flash that only programs erased words exactly then |
| Progress.ChunkIsAcknowledgedIff | updater_mcu/src/updater.c:133-145 | on flash that only programs erased words a chunk of whole words is acknowledged exactly when its place is blank |
| Progress.CrcLands | updater_mcu/src/updater.c:198-208 | without failures the CRC word lies right behind an image of whole words |
| Progress.UpdateFromBlankStaging | updater_mcu/src/updater.c:61-145 | an update from blank staging pages goes through, and leaves them blank again if no interrupted boot had erased its header |
| Progress.UpdateGoesThroughIff | updater_mcu/src/updater.c:61-145 | a whole update, however often its installation is interrupted, goes through if its place is blank, and on flash that only programs erased words exactly then |
| Progress.UpdatesFollowUpdates | updater_mcu/src/updater.c:61-145 | any number of updates, one after the other, go through if each finds its place blank, and on flash that only programs erased words exactly then |
| Progress.WaitingHeadersLeaveRoom | bootloader/src/main.c:64-69 | one way to have that: no installation is interrupted after its header was erased |
| Progress.RunIsBlocked | updater_mcu/src/updater.c:61-145 | over every run of packets the position never passes a programmed byte behind the first staging page, and that byte stays programmed, under the same condition on failures |
| Progress.CutEraseBlocksUpdates | bootloader/src/main.c:64-69 | after a staging erase that lost power the new core boots, and nothing it receives is staged past a byte that was left |
| Numerals.DigitsDenote | bootloader/src/tiny_printf.c:80-96 | the digits denote the number and have no leading zero |
| Numerals.DigitChars | bootloader/src/tiny_printf.c:91-94 | the characters of the digits |
| Numerals.DigitAt | bootloader/src/tiny_printf.c:80-96 | which digit stands at which place |
| Numerals.NumeralIsUnique | bootloader/src/tiny_printf.c:80-96 | there is no other numeral for it |
| Numerals.DigitsAreMinimal | bootloader/src/tiny_printf.c:80-96 | no digit string for the number is shorter |
| Numerals.WidthOfUint | bootloader/src/tiny_printf.c:187-201 | at most ten decimal and eight hexadecimal digits |
| Numerals.Divisor | bootloader/src/tiny_printf.c:82-84 | the first loop ends at the weight of the highest digit, within a signed int |
| Numerals.TsItoa | bootloader/src/tiny_printf.c:80-96 | exactly the numeral is written, nothing else in the buffer changes, in every base whose weights stay within a signed int |
| Numerals.UsedBasesFit | bootloader/src/tiny_printf.c:82-84 | decimal and hexadecimal weights of every unsigned 32-bit number stay within a signed int |
| TinyPrintf.FormatSplit | bootloader/src/tiny_printf.c:104-160 | splitting a format between tokens splits what is printed |
| TinyPrintf.ConversionShows | bootloader/src/tiny_printf.c:112-151 | what each conversion prints and takes, told from the numeral or bytes it leaves |
| TinyPrintf.BoundDominates | bootloader/src/tiny_printf.c:170-216 | the estimate is at least the output, for every format and fitting arguments |
| TinyPrintf.EstimateOf | bootloader/src/tiny_printf.c:177-210 | the estimate of each conversion as a number |
| TinyPrintf.TerminatorFitsIff | bootloader/src/tiny_printf.c:242-281 | exactly when a buffer of the estimated length has room for the terminator |
| TinyPrintf.PlainTextLeavesNoRoom | bootloader/src/tiny_printf.c:242-281 | a text without a conversion fills the buffer to its last byte |
| TinyPrintf.TsFormatLength | bootloader/src/tiny_printf.c:170-216 | the sum of the token bounds, and the same arguments consumed as by the formatter |
| TinyPrintf.PutSigned | bootloader/src/tiny_printf.c:117-128 | the decimal of every signed 32-bit number, the most negative one included |
| TinyPrintf.TsFormatString | bootloader/src/tiny_printf.c:104-160 | the concatenated renderings of the tokens, then a zero, and nothing beyond |
| Crc32.Crc.FillTable | ethupd/crc_32.cpp:16-34 | the table holds the remainder of every byte |
| Crc32.DivideByte | ethupd/crc_32.cpp:20-32 | the inner loop is eight division steps |
| Crc32.StepsXor | ethupd/crc_32.cpp:25-32 | division steps are linear over exclusive or |
| Crc32.TableStepIsEightSteps | ethupd/crc_32.cpp:16-34 | one table step equals eight bit-at-a-time steps, for every register and byte |
| Crc32.TableFoldIsFeed | ethupd/crc_32.cpp:16-34 | the table fold equals the bit-at-a-time fold, for every message and initial register |
| Crc32.TableFoldIsRemainder | ethupd/crc_32.cpp:16-34 | it is the remainder of the message, followed by 32 zero bits, on long division by the generator |
| Crc32.KnownRemainders | ethupd/crc_32.cpp:8-34 | known entries of the table, which fix the generator |
| Crc32.OwnRemainderVanishes | ethupd/crc_32.cpp:16-34 | a message followed by its own remainder leaves none |
| Crc32.StepsInjective | ethupd/crc_32.cpp:25-32 | division steps by this generator lose nothing |
| Crc32.DetectsBursts | ethupd/crc_32.cpp:16-34 | messages of one length that agree outside 32 consecutive bits have equal folds exactly when they are equal |
| Crc32.HitFrameIsRefused | ethupd/crc_32.cpp:16-34 | a message with its remainder, hit by such a burst anywhere, leaves a remainder |
| Crc32.LongerBurstPasses | ethupd/crc_32.cpp:16-34 | 33 bits are too many: the generator itself goes unnoticed |
| CircularBuffer.CircularWrite | bootloader/Libraries/CMSIS/Include/arm_math.h:5852-5890 | the block at successive offsets, for every increment with which it stays in the buffer, and the offset returned in 16 bits |
| CircularBuffer.CircularRead | bootloader/Libraries/CMSIS/Include/arm_math.h:5897-5947 | the samples at successive offsets, into a destination that wraps when it meets its end |
| CircularBuffer.StaysIff | bootloader/Libraries/CMSIS/Include/arm_math.h:5874-5883 | exactly the increments and block sizes that stay in the buffer, the upper end alone wrapping |
| CircularBuffer.StepsAreModulo | bootloader/Libraries/CMSIS/Include/arm_math.h:5874-5883 | for every increment up to the length the offset is the position modulo the length |
| CircularBuffer.DestinationStaysIff | bootloader/Libraries/CMSIS/Include/arm_math.h:5925-5931 | a destination that wraps only when its end is met is never left exactly when whole steps lead to that end |
| CircularBuffer.DestinationIsModulo | bootloader/Libraries/CMSIS/Include/arm_math.h:5925-5931 | and then its offset is the position modulo the length |
| CircularBuffer.SingleSteps | bootloader/Libraries/CMSIS/Include/arm_math.h:5919-5941 | by single samples ring and destination wrap alike, at the position modulo the length |
| CircularBuffer.HoldsLastSamples | bootloader/Libraries/CMSIS/Include/arm_math.h:5852-5890 | after any stream the ring holds its last samples at their positions, and its old content elsewhere |
| CircularBuffer.RunIsOneStream | bootloader/Libraries/CMSIS/Include/arm_math.h:5852-5890 | any run of block writes is one write of the joined stream, ending at its length modulo the ring's, if 16 bits can count the ring |
| CircularBuffer.LongRingsRepeat | bootloader/Libraries/CMSIS/Include/arm_math.h:5888-5889 | in every longer ring the returned offset comes back to where it was although the ring is not full |
| CircularBuffer.OffsetIsPositionIff | bootloader/Libraries/CMSIS/Include/arm_math.h:5852-5890 | for single samples the returned offset is the position in the ring exactly if 16 bits can count it |
| CircularBuffer.ReadAfterWrite | bootloader/Libraries/CMSIS/Include/arm_math.h:5852-5947 | a block that fits the ring is read back as it was written |
| Interpolation.InterpIsMonotone | bootloader/Libraries/CMSIS/Include/arm_math.h:5496-5537 | non-decreasing over all inputs for every non-decreasing table |
| Interpolation.StaysInSegment | bootloader/Libraries/CMSIS/Include/arm_math.h:5496-5537 | between the smaller neighbour minus one and the larger neighbour, and within q15 |
| Interpolation.EndIsExact | bootloader/Libraries/CMSIS/Include/arm_math.h:5505-5514 | at the last table point and beyond, the result is that point |
| Interpolation.NearlyExact | bootloader/Libraries/CMSIS/Include/arm_math.h:5518-5533 | the exact linear interpolation, less 2^-20 of the left neighbour, rounded down |
| Interpolation.NodeIsExactIff | bootloader/Libraries/CMSIS/Include/arm_math.h:5518-5533 | table points come out exactly when they are not positive |
| Saturation.Ssat | bootloader/Libraries/CMSIS/Include/arm_math.h:567-602 | the nearest number of the given width, for all widths of a word |
| Saturation.ClampIsNearest | bootloader/Libraries/CMSIS/Include/arm_math.h:567-602 | the one number of the width that is nearest |
| Saturation.LanesMakeWord | bootloader/Libraries/CMSIS/Include/arm_math.h:615-733 | the lanes make up the word, so that nothing is read twice or not at all |
| Saturation.QAdd8 | bootloader/Libraries/CMSIS/Include/arm_math.h:615-636 | in each of four lanes the number nearest to the sum, for all operands |
| Saturation.QAdd16 | bootloader/Libraries/CMSIS/Include/arm_math.h:670-688 | in each of two lanes the number nearest to the sum |
| Saturation.QSub16 | bootloader/Libraries/CMSIS/Include/arm_math.h:716-733 | in each of two lanes the number nearest to the difference |
| Pid.IncrementalIsPositional | bootloader/Libraries/CMSIS/Include/arm_math.h:4654-4729 | the incremental controller computes the positional form for every input sequence |
| Pid.PidF32.Pid | bootloader/Libraries/CMSIS/Include/arm_math.h:4711-4729 | one step, and the order in which its state array is updated |
| Nvic.FieldsFillBits | bootloader/Libraries/CMSIS/Include/core_cm3.h:1059-1071 | both fields together always have the implemented width |
| Nvic.GroupSplitsRegister | bootloader/Libraries/CMSIS/Include/core_cm3.h:1059-1098 | which bits of the register each group gives to which field |
| Nvic.DecodeOfEncode | bootloader/Libraries/CMSIS/Include/core_cm3.h:1059-1098 | decoding an encoded priority gives the masked inputs |
| Nvic.EncodeOfDecode | bootloader/Libraries/CMSIS/Include/core_cm3.h:1059-1098 | encoding a decoded priority gives it back |
| Nvic.EncodeKeepsOrder | bootloader/Libraries/CMSIS/Include/core_cm3.h:1059-1071 | encoded priorities compare lexicographically |
| Nvic.PrioritySurvivesRegister | bootloader/Libraries/CMSIS/Include/core_cm3.h:1014-1042 | a priority set and read back is kept as far as it fits the implemented bits |
| Nvic.EncodedSurvivesRegister | bootloader/Libraries/CMSIS/Include/core_cm3.h:1014-1098 | an encoded priority survives its register whole |
| Nvic.Registers.SetPriority | bootloader/Libraries/CMSIS/Include/core_cm3.h:1014-1020 | the one register of the interrupt is written, no other changes |
| Nvic.Registers.GetPriority | bootloader/Libraries/CMSIS/Include/core_cm3.h:1035-1042 | the register shifted back |
| Ticks.FiresOncePerInterval | updater_mcu/src/ethernet.c:229-237 | the ARP timer has fired once per whole interval after any number of ticks, across wrap-around |
| Ticks.SysTick.SysTickHandler | updater_mcu/src/stm32f1xx_it.c:133-137 | one tick of the counter and the timer check |

## Left out

- NoHalfCopiedCore: false without its two conditions, as OversizedHeaderStartsHalfCopy and TornEraseStartsOtherCore show.
- EndToEndUpdate: the last header asks for no more than the erased region; AcknowledgedIsInstalledIff also covers headers that ask for less than the chunks.
- BlankStagingAcknowledges, UpdateGoesThroughIff: chunks are whole words there, since this is what a device can program on aligned blank flash; RunIsBlocked and the theorems of Staging take chunks of any length.
- UpdCalcCrc: the value of the CRC unit is an input, and feeding it past the end of the flash is a fault that hangs the CPU.
- TsFormatString: the format has no lone `%` at its end, and the arguments have the kinds it asks for; lengths are not bounded by the range of int.
- TsItoa: bases from 2 to 36, and numbers none of whose weights in that base overflows the signed `div`; no other base is called than 10 and 16, where none does.
- CircularWrite, CircularRead: offsets that leave the buffer are accesses outside it; StaysIff says when a block has none.
- IncrementalIsPositional: floats are reals, so rounding is not modelled.
- Interp: the table has at least one value.
- The locking of the flash controller, and the registers and wait loops behind its two operations.
- `__jump`: only that a core is started, not the vector table and stack pointer it sets.
- The host tool: sockets, files and console of ethupd/main.cpp and ethupd/eth.cpp; get_crc has no body.
- Peripheral, clock, Ethernet and lwIP set-up, and the output wrappers of tiny_printf.c.
- The other helpers of arm_math.h: prototypes without bodies, float transforms, reciprocals and further lane operations.
