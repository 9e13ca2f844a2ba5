# Boot firmware for STM32H7: a verified model

A Dafny model of the hand-written firmware around the DICE core: how a firmware slot is
authenticated, how the Unique Device Secret is provisioned, how logs, flash, clock, watchdogs and
random numbers are handled, and what DICE, L0 and L1 pass to each other. `dafny verify
dfyconfig.toml` checks the whole project.

The code that changes state in place is modelled by classes and methods with the loops of the
original; each is proved against a specification, and the specifications carry the theorems below.
Addresses and sizes of the ARM build are 32-bit and wrap; memory is one byte at each of the 2^32
addresses. Bytes are integers where fields are decoded and 8-bit vectors where bits matter (flash,
secret, generators); `Words` has the word operations the generators share.

## Main results

- **Slots** (`FirmwareAuth`, `PackageBuilder`, `PackageBinding`, `Launch`). At every base address
  the checker succeeds exactly when the slot is tiled by a verified manifest, L0 and L1 with blank
  gaps between them, and the tiling is unique. On every slot each error code is returned exactly when
  its check is the first that fails. That L1 ends inside the slot is not checked by the
  code; it follows because the size of the last gap would wrap and the scan would meet L0's magic
  number. What the tools build is accepted if and only if the sizes and L0's link to L1 are right.
  Signed messages bind all other bytes of an accepted slot, up to an explicit hash collision. Filler
  and base address never change a verdict.
- **Secret** (`Provisioning`, `SecretStorage`). Over all runs of boots with power loss anywhere, a
  readable secret is the factory value or the complete last draw; once provisioned it never changes;
  once the copies differ the device never provisions again, and only a broken write makes them differ.
  The code is proved to produce only runs of this machine, and to succeed exactly when a secret is
  there or generator, flash controller and layout allow a new one: with working hardware the first
  boot provisions the device.
- **Logs** (`RingSpec`, `RingLog`). A run of appends, reads and resets from unknown memory reads as
  the last N characters if and only if there was a reset, or N characters were appended, or the
  counters found at the start were good ones (`RingSpec.GoodCounters`). Without any append or reset a
  log can be read at all exactly when the counters found allow it. The persistent log is always a
  suffix of the RAM log.
- **Flash** (`Flash`, `ArmFlash`, `HostFlash`, `FlashPorts`). Every result code of a write or erase
  as a condition on the flash controller's answers, what is in flash then, agreement of the two
  ports, the effect of any sequence of AND-only writes.
- **Time** (`SystemTime`, `Watchdog`). A returned clock value was really held, for any number of
  ticks between half reads. The software watchdog fires exactly when it should and before the
  hardware one.
- **Random numbers** (`Xoroshiro`, `HwRng`). The generator is a linear bijection, never zero and purely
  periodic. The hardware fill loop is characterised for every size.
- **Hand-over** (`Handover`). Which boots start L1, and that every byte of shared RAM is then determined.

Where the code and its documentation or intent differ, the model follows the code:

- `HW_RNG_Rand` stores one or two bytes too many for sizes 2 or 1 modulo 4 (`HwRng.StoredLength`).
- `BootToL1` only logs a mismatch between L0's link and the linker's address of L1, so measured and
  launched code coincide only for one link value (`Launch.MeasuredIffLinkedToL1`,
  `Launch.MeasuredNeedNotBeLaunched`).
- `DeviceSecretGet` takes the end of the DICE image as exclusive although it is the last byte, and so
  refuses the last flash word of the image (`SecretStorage.PlacedIff`).
- Reading a log makes no sanity check of its own (`RingSpec.PartsInLogIff`), so a log never written
  since power-on may not be readable (`RingSpec.ReadableIff`).
- `LogToMemory` repairs counters out of range but trusts all others, so a short log in unknown memory
  may show characters never appended (`RingSpec.UnknownMemoryMayShow`, `RingSpec.ReadsRightIff`).
- flash.h asks for erases within one bank; the code also handles ranges across both
  (`ArmFlash.SectorsOfRange`).
- The result of `AuthenticateFirmware` is not used on the boot path; the DICE core checks L0 through
  the view of `Launch.St`.

## Model

| member | source | states |
|---|---|---|
| ImageAuth.VerifyImageDecides | src/fw/common/image_auth.c:37-61 | an image at any address verifies exactly when magic, size, hash and signature of the image there are right |
| ImageAuth.VerifyImageNamesFault | src/fw/common/image_auth.h:14-21 | each error code is returned exactly when the first thing wrong is magic, size, hash or signature |
| ImageAuth.VerifyKeyManifestDecides | src/fw/common/image_auth.c:63-76 | a manifest verifies exactly when version and signature are right; which of the two error codes is returned otherwise |
| FirmwareAuth.IsSpaceEmpty | src/fw/common/firmware_auth.c:13-22 | the scan succeeds exactly when every byte of the wrapping range is 0 or 0xFF |
| FirmwareAuth.WrappedTailMeetsL0 | src/fw/common/firmware_auth.c:110-116 | if L1 overran the slot, the wrapped tail scan would reach L0's magic number and fail |
| FirmwareAuth.AuthenticateFirmware | src/fw/common/firmware_auth.c:24-121 | the wrapping code computes the verdict of unbounded arithmetic, in which L1 has to end inside the slot; each of the eight codes is returned exactly when its check is the first to fail |
| FirmwareAuth.AuthenticateRest | src/fw/common/firmware_auth.c:66-80 | from the header of L0 on: the range allowed for the offset of L1 is the one in the verdict |
| FirmwareAuth.AuthenticateL1 | src/fw/common/firmware_auth.c:82-94 | the address computed for L1 is the linked one, and its image decides |
| FirmwareAuth.CheckGaps | src/fw/common/firmware_auth.c:96-120 | both wrapping gap sizes amount to blank gaps and containment of L1 |
| FirmwareAuth.FlattenAt | src/fw/common/image_header.h:24-57 | a package lies at an address exactly when each part lies at its offset |
| FirmwareAuth.TilingIsParsed | src/fw/common/firmware_auth.c:30-111 | the layout is unambiguous: a tiled slot is parsed as the package that tiles it |
| FirmwareAuth.PackageAtTiles | src/fw/common/firmware_auth.c:30-111 | the parts the code parses tile the slot without overlap or hole |
| FirmwareAuth.AcceptedIffTiled | src/fw/common/firmware_auth.h:23-28 | a slot at any address is accepted if and only if it is tiled by a genuine package |
| PackageBuilder.HeaderFields | src/fw/common/image_header.h:47-57 | every field of a built and signed header reads back as what it was built from |
| PackageBuilder.ManifestFields | src/fw/common/image_header.h:24-29 | every field of a built and signed manifest reads back |
| PackageBuilder.ImageHeaderBuild | src/fw/headertool/header_utils.c:12-32 | the header in place is the unsigned header with zero padding and signature |
| PackageBuilder.ImageHeaderSign | src/fw/headertool/header_utils.c:34-45 | signing keeps the message and stores its signature behind it |
| PackageBuilder.GenerateKeyManifest | src/fw/keymanifesttool/main.cpp:40-98 | the output is the unsigned manifest of both public keys, or nothing if a key is missing |
| PackageBuilder.BuildHeader | src/fw/headertool/header_utils.c:12-45 | building and then signing in place leaves the signed header of the round trip |
| PackageBuilder.BuildManifest | src/fw/keymanifesttool/main.cpp:40-98 | generating and then signing gives the signed manifest of the round trip, or nothing if a key is missing |
| PackageBuilder.BuildSlot | src/fw/tests/fw_tests.cpp:89-121 | the tools run in a row produce the bytes of the package of the round trip |
| PackageBuilder.SignedImageIsAuthentic | src/fw/headertool/header_utils.c:12-45 | a signed image is authentic under the matching key exactly when its size is in range |
| PackageBuilder.BuiltPackageIsAccepted | src/fw/common/firmware_auth.c:24-121 | round trip: whatever the tools build is accepted if and only if sizes and L0's link are right |
| PackageBuilder.SameSlotSameParts | src/fw/common/firmware_auth.c:66-104 | no other link from L0 can make a built slot acceptable |
| PackageBuilder.WrongLinkIsNamed | src/fw/tests/fw_tests.cpp:463-539 | which error a wrong link from L0 to L1 is reported as, by where it points |
| PackageBinding.MessagesBindContents | src/fw/common/image_auth.c:14-61 | accepted slots with equal signed messages agree outside gaps and signatures, or give a hash collision |
| PackageBinding.GapsMustOnlyBeBlank | src/fw/common/firmware_auth.c:38-116 | gap bytes of an accepted slot may change to exactly 0 and 0xFF; otherwise the first bad gap is named |
| PackageBinding.FillerAndAddressDoNotMatter | src/fw/common/firmware_auth.c:24-121 | swapping filler bytes or moving the memory never changes any verdict |
| Launch.StPointsAtL0 | src/common/HWAbstraction.c:15-49 | the view given to the DICE core denotes header, signature, hash, body and key of L0 |
| Launch.DiceSeesWhatIsVerified | src/common/HWAbstraction.c:15-49 | what VerifyImage decides about L0 is decided by that view |
| Launch.LaunchedIsVerified | src/fw/L0_Image/arm/main.c:16-38 | on an accepted slot the address jumped to is the start of the body verified for L1 |
| Launch.MeasuredIffLinkedToL1 | src/fw/L0_Image/l0_main.c:19-24 | measured and launched address coincide if and only if the link equals L0_TOTAL_SIZE, and then the code is the verified one |
| Launch.MeasuredNeedNotBeLaunched | src/fw/L0_Image/arm/main.c:25-31 | a concrete accepted slot whose launched code is not the measured one |
| Provisioning.InvStep | src/fw/DICE_Image/arm/secret_storage.c:74-88 | every step, power loss included, keeps the order of the two writes recoverable |
| Provisioning.InvRun | src/fw/DICE_Image/secret.c:24-78 | the invariant holds throughout every run of boots |
| Provisioning.NeverTorn | src/fw/DICE_Image/arm/secret_storage.c:26-32 | a readable secret is the factory value or the complete last draw |
| Provisioning.SettledForever | src/fw/DICE_Image/secret.c:34-39 | with a secret in both copies, later boots find it and never write or draw |
| Provisioning.ProvisioningIsFinal | src/fw/DICE_Image/secret.c:24-78 | after one successful boot every later one that passes the gate succeeds with the same secret |
| Provisioning.BrickedForever | src/fw/DICE_Image/arm/secret_storage.c:64-67 | once the copies differ between boots, no later boot succeeds or writes |
| Provisioning.UntouchedForever | src/fw/DICE_Image/secret.c:28-39 | equal set copies are never written again, wherever they are placed |
| Provisioning.BetweenBoots | src/fw/DICE_Image/arm/secret_storage.c:47-72 | between boots a device is unset, set or bricked, and only unset can change |
| Provisioning.DifferOnlyAfterBrokenWrite | src/fw/DICE_Image/arm/secret_storage.c:26-32 | without an interrupted or failed write the copies differ only between the two writes |
| Provisioning.OnlyGatedBootsWrite | src/fw/DICE_Image/DICE_main.c:50-76 | cells change only in boots with protections set that are not watchdog resets |
| SecretStorage.IsSecretValid | src/fw/DICE_Image/secret.c:15-21 | the loop tells the factory value from every other |
| SecretStorage.PlacedIff | src/fw/DICE_Image/arm/secret_storage.c:53-59 | the address check accepts every aligned word of the image but the last |
| SecretStorage.Storage.DeviceSecretGet | src/fw/DICE_Image/arm/secret_storage.c:47-72 | succeeds exactly when placed and equal, and then yields the copy; otherwise leaves the buffer alone |
| SecretStorage.Storage.DeviceSecretSet | src/fw/DICE_Image/arm/secret_storage.c:74-88 | every outcome of the two flash writes is a run of the machine; 0 exactly when the controller stores both copies |
| SecretStorage.Storage.WriteCopy1 | src/fw/DICE_Image/arm/secret_storage.c:75-79 | the first write is exactly one step of the machine, leaves the second copy alone and draws nothing; 0 exactly when the controller stores it |
| SecretStorage.Storage.WriteCopy2 | src/fw/DICE_Image/arm/secret_storage.c:81-85 | the second write is exactly one step of the machine, leaves the first copy alone and draws nothing; 0 exactly when the controller stores it |
| SecretStorage.Storage.DrawSecret | src/fw/DICE_Image/secret.c:45-51 | the retry loop ends with the first answer of the generator that is not 0xFF throughout; the draws recorded are its answers up to there, in order |
| SecretStorage.Storage.DrawOnce | src/fw/DICE_Image/secret.c:45-51 | one round of the loop: a failure, a value to be drawn again, or a secret |
| SecretStorage.Storage.ReadBack | src/fw/DICE_Image/secret.c:63-77 | success only if both copies read back as the secret written |
| SecretStorage.Storage.DeviceSecretInitialize | src/fw/DICE_Image/secret.c:24-78 | every execution is a run of the machine; 0 if and only if a secret is there or a new one can be drawn, written and read; with working hardware a factory device is provisioned with the first usable draw; the draws recorded are the generator's answers in order |
| SecretStorage.Storage.FindSecret | src/fw/DICE_Image/secret.c:28-39 | the first read fails, finds the secret, or finds the factory value and goes on to draw |
| SecretStorage.Storage.NewSecret | src/fw/DICE_Image/secret.c:41-77 | drawing, writing and reading back: 0 if and only if the generator gives a secret and the controller stores it in both copies, which are placed |
| SecretStorage.Storage.StoreSecret | src/fw/DICE_Image/secret.c:55-77 | writing and reading back: 0 if and only if the copies are placed and the controller stores both |
| SecretStorage.FactoryIsProvisionable | src/fw/DICE_Image/secret.c:24-78 | working controller and generator and an aligned layout are enough on a device as it leaves the factory |
| SecretStorage.StoresIff | src/fw/DICE_Image/arm/secret_storage.c:75-85 | Flash_Write of one copy returns 0 if and only if unlock, program and lock succeed and the copy reads back |
| SecretStorage.Storage.ReadUds | src/common/HWAbstraction.c:51-59 | after a successful check the DICE core reads the secret, which is not the factory value |
| RingSpec.PartsInLogIff | src/fw/common/log_ram.c:41-58 | with the unsigned subtraction the two parts lie in the log exactly when size or pointer is in range |
| RingSpec.ReadableIff | src/fw/common/log_ram.c:16-20 | a read is safe if and only if the counters found were, or there was an append or reset since |
| RingSpec.UnknownCountersMayNotBeReadable | src/fw/common/log_ram.c:51-57 | concrete counters with which a read would run out of the log |
| RingSpec.PutAllHolds | src/fw/common/log_ram.c:22-36 | appending keeps the history behind the write pointer, through wraps, on top of any memory |
| RingSpec.ContentsOfHeld | src/fw/common/log_ram.c:47-57 | a full or clean ring reads as the end of its history |
| RingSpec.RunTracks | src/fw/common/log_ram.c:9-84 | every run of appends, reads and resets keeps the ring in step with its history |
| RingSpec.ReadsLastCharacters | src/fw/common/log_ram.c:11-77 | from any memory a log reads as the last N characters, once there was a reset or N characters |
| RingSpec.UnknownMemoryMayShow | src/fw/common/log_ram.c:16-20 | a concrete start that passes the sanity check and shows a character never appended |
| RingSpec.AppendReadsRightIff | src/fw/common/log_ram.c:11-58 | one append of less than N characters to unknown memory reads right, whatever the bytes, if and only if the counters were out of range (and so repaired) or both 0, or of size 0 for an empty append |
| RingSpec.ReadsRightIff | src/fw/common/log_ram.c:11-58 | the exact condition for every run: a log in unknown memory reads right if and only if there was a reset, or N characters, or good counters to begin with |
| RingSpec.SmallerLogIsSuffix | src/common/arm/target_logger.cpp:10-15 | two logs with the same history: the smaller one is the end of the larger one |
| RingSpec.SmallerLogIsSuffixOnceFull | src/common/arm/target_logger.cpp:10-15 | the same from any memory once both have been filled |
| RingLog.RingLog.LogRam | src/fw/common/log_ram.h:17-33 | the RAM log, its copy and one terminator fit LOG_RAM_SIZE |
| RingLog.RingLog.Persistent | src/fw/common/shared_mem_persistent.h:16-29 | the persistent log fills backup SRAM and its copy has room for the terminator |
| RingLog.RingLog.Clean | src/fw/common/log_ram.c:9 | zeroing the region, also behind the log, resets the log |
| RingLog.RingLog.LogToMemory | src/fw/common/log_ram.c:11-37 | appends exactly the C string to the repaired ring and leaves the copy alone |
| RingLog.RingLog.GetMemoryLog | src/fw/common/log_ram.c:60-77 | copies the contents in order with a terminator, inside the region, and changes neither log nor counters |
| RingLog.RingLog.GetMemoryLogParts | src/fw/common/shared_mem_persistent.c:45-62 | the parts lie in the log and fit the copy exactly when the counters allow a read, and are then the contents, oldest character first |
| RingLog.RingLog.ResetMemoryLog | src/fw/common/shared_mem_persistent.c:86-91 | empties the log |
| RingLog.Logger.TargetPrintString | src/common/arm/target_logger.cpp:10-15 | after every print the RAM log is the end of all printed and the persistent log the end of the RAM log |
| Flash.ProgrammedStoresIff | src/fw/common/host/flash.c:45-49 | an AND-only write stores its source exactly when no bit it needs has been cleared |
| Flash.ReadBackIsProgrammed | src/fw/common/arm/flash.c:62-70 | programming that only clears bits and reads back right is the AND-only write |
| Flash.ProgrammedAllAt | src/fw/common/host/flash.c:45-49 | what any sequence of writes, overlapping or not, leaves at a byte |
| Flash.WritesCommute | src/fw/common/host/flash.c:45-49 | the order of writes does not matter |
| Flash.EraseThenWrite | src/fw/common/host/flash.c:45-69 | after an erase disjoint writes all read back and the rest of the range stays erased |
| ArmFlash.SectorNaming | src/fw/common/arm/flash.c:83-105 | bank and sector name each sector address exactly once, under either swap setting |
| ArmFlash.SectorsOfRange | src/fw/common/arm/flash.c:164-177 | the sectors of a range are distinct and are all those in it |
| ArmFlash.ArmFlash.FlashWrite | src/fw/common/arm/flash.c:31-81 | each code is returned exactly for the answers of the controller that the code stands for; what is in flash then; with a working controller, 0 if and only if flash has all bits needed |
| ArmFlash.OutcomeIsUnique | src/fw/common/arm/flash.c:53-80 | the controller's answers determine result, number of calls and the failing word |
| ArmFlash.WorkingOutcome | src/fw/common/arm/flash.c:53-80 | with a working controller the result is 0 or -4, and 0 if and only if flash has every bit of the source still set |
| ArmFlash.WorkingTakesIff | src/fw/common/arm/flash.c:60-70 | a working controller takes all words of a source if and only if flash has every bit of it still set |
| ArmFlash.ArmFlash.WriteArgumentsOk | src/fw/common/arm/flash.c:31-51 | the checks with wrapping sums accept exactly the aligned ranges that do not overflow |
| ArmFlash.ArmFlash.ProgramWords | src/fw/common/arm/flash.c:53-80 | -2, -3, -4, -5 and 0 by the first answer of the controller that is not as asked; words before a failed one are stored, that word holds what the controller left, words after it are untouched |
| ArmFlash.ArmFlash.ProgramWord | src/fw/common/arm/flash.c:60-74 | one round: whether the call succeeds and whether the word reads back as its source |
| ArmFlash.ArmFlash.FlashEraseSector | src/fw/common/arm/flash.c:107-135 | erases the sector the address lies in under either swap setting, and no other; each code exactly when unlock, erase or lock is the first call refused |
| ArmFlash.ArmFlash.FlashErase | src/fw/common/arm/flash.c:137-180 | result 0 if and only if the arguments are valid and every call of the controller succeeds, and then erases exactly the range; invalid arguments change nothing; on failure, which sectors were asked for |
| ArmFlash.ArmFlash.EraseSectors | src/fw/common/arm/flash.c:164-179 | 0 if and only if every call succeeds; each sector once and in order; a failure leaves later sectors untouched and unasked for |
| HostFlash.HostFlash.FlashWrite | src/fw/common/host/flash.c:27-52 | the in-place loop is the AND-only write, and which arguments are refused |
| HostFlash.HostFlash.FlashErase | src/fw/common/host/flash.c:54-72 | sets the range to 0xFF, and which arguments are refused |
| FlashPorts.WriteOnBoth | src/fw/common/host/flash.c:27-52 | whenever the ARM port returns 0 the host port does too and both memories are equal; with a working controller that is whenever flash has all bits needed |
| FlashPorts.EraseOnBoth | src/fw/common/host/flash.c:54-72 | the same for erasing; the ARM port returns 0 exactly when every call of the controller succeeds |
| SystemTime.EqualReadsWereHeld | src/fw/common/arm/system_setup.c:62-76 | two equal reads give a value the counter held, for either order of halves and any ticks between |
| SystemTime.SingleReadMayTear | src/fw/common/arm/system_setup.c:65-66 | one read alone can return a value the counter never had |
| SystemTime.Clock.SysTickHandler | src/fw/common/arm/system_setup.c:55-60 | counts one tick modulo 2^64 |
| SystemTime.Clock.SystemTime | src/fw/common/arm/system_setup.c:62-76 | the value returned was held during the last iteration |
| SystemTime.Clock.ReadTwice | src/fw/common/arm/system_setup.c:67-73 | one iteration: if both reads agree, they are a value held, and they agree if no tick falls between half reads |
| Watchdog.SoftwareWatchdog.PeriodElapsed | src/fw/common/arm/watchdog.c:62-80 | when a callback resets, and that a clock going back only restarts the timeout |
| Watchdog.SoftwareWatchdog.Reload | src/fw/common/arm/watchdog.c:108 | a reload records the time |
| Watchdog.SoftwareWatchdog.Serve | src/fw/common/arm/watchdog.c:60-108 | a trace of events is served up to its first reset |
| Watchdog.SoftwareWatchdog.ServeOne | src/fw/common/arm/watchdog.c:60-108 | one reload or callback: whether it resets, and the refresh time after it |
| Watchdog.ResetsIffStale | src/fw/common/arm/watchdog.c:62-80 | a callback resets exactly when the last reload is more than 3000 ms ago |
| Watchdog.NoResetWhileServed | src/fw/common/arm/watchdog.c:62-108 | reloads at most 3000 ms apart prevent any reset |
| Watchdog.ResetsBeforeHardware | src/global/timeouts.h:9-15 | once reloads stop, the first callback after 3000 ms resets, before the 8000 ms of the hardware |
| Xoroshiro.StepIsBijective | src/common/xoroshiro128plus.cpp:55-65 | a step has an explicit inverse on both sides |
| Xoroshiro.StepIsLinear | src/common/xoroshiro128plus.cpp:55-65 | a step is linear over GF(2) |
| Xoroshiro.NeverZero | src/common/xoroshiro128plus.cpp:67-73 | from a seed that is not zero the state never becomes zero |
| Xoroshiro.Pigeonhole | src/common/xoroshiro128plus.cpp:49-53 | more than n numbers below n repeat |
| Xoroshiro.SeedRecurs | src/common/xoroshiro128plus.cpp:55-65 | every state sequence is purely periodic, with a period of at most 2^128 |
| Xoroshiro.FillInTwo | src/common/host/rng.c:16-22 | filling n + m bytes is filling n and then m from the advanced state |
| Xoroshiro.Generator.Rand | src/common/xoroshiro128plus.cpp:55-65 | advances the state by one step, away from zero, and returns the sum of the two words before it |
| Xoroshiro.FirstSteps | src/common/xoroshiro128plus.cpp:49-65 | the first two outputs and states from the default seed, in numbers |
| Xoroshiro.ToByteBits | src/common/host/rng.c:19 | RNG_Rand takes bits 48 to 55 of an output |
| Xoroshiro.FirstByte | src/common/host/rng.c:16-22 | a byte in numbers, for a seed where it depends on the sum |
| Words.AddWithoutCarry | src/common/xoroshiro128plus.cpp:58 | without a carry the sum is the union of bits |
| Words.Shl16Bits | src/common/xoroshiro128plus.cpp:61 | the low 48 bits move up by 16 over zeros |
| Words.Rotl24Bits | src/common/xoroshiro128plus.cpp:45-47 | rotation is to the left: where the bits go for a = 24 |
| Words.Rotl37Bits | src/common/xoroshiro128plus.cpp:45-47 | the same for c = 37 |
| Xoroshiro.Generator.Seed | src/common/xoroshiro128plus.cpp:67-73 | starts a new sequence |
| Xoroshiro.Generator.Fill | src/common/host/rng.c:16-22 | the buffer holds the next bytes of the sequence and nothing else changes |
| HwRng.StoredLength | src/fw/common/arm/hw_rng.c:71-84 | how many bytes a request of any size stores |
| HwRng.StoredByte | src/fw/common/arm/hw_rng.c:57-87 | for every size, byte i asked for is byte i mod 4 of word i / 4 |
| HwRng.StoredExtra | src/fw/common/arm/hw_rng.c:71-84 | which bytes land behind the request for the other sizes |
| HwRng.ExactIff | src/fw/common/arm/hw_rng.c:71-84 | a request stores exactly its size if and only if that is 0 or 3 modulo 4 |
| HwRng.SecretDraw | src/fw/DICE_Image/secret.c:46 | a draw of the secret is 32 bytes from 8 words |
| HwRng.StoreTail | src/fw/common/arm/hw_rng.c:71-84 | the four guarded stores with wrapping decrements leave these bytes |
| HwRng.HwRng.Rand | src/fw/common/arm/hw_rng.c:57-87 | success exactly when all words needed are available; what is stored then and on failure |
| HwRng.HwRng.RandWords | src/fw/common/arm/hw_rng.c:58-69 | the loop stores whole words while more than 4 bytes are left |
| HwRng.ShiftedBytes | src/fw/common/arm/hw_rng.c:63-66 | the shifted and masked bytes of a word are its little-endian bytes |
| Handover.SharedRam.CleanSharedDiceL0 | src/fw/common/shared_mem_volatile.h:31-33 | zeroes the first half only |
| Handover.SharedRam.CleanSharedL0L1 | src/fw/common/shared_mem_volatile.h:36-38 | zeroes the second half only |
| Handover.SharedRam.RunDice | src/core/dice_engine/dice_engine.c:30-40 | DICE's half is the parameters and zeros, the other half untouched |
| Handover.SharedRam.L0HandleArgs | src/core/l0_engine/l0_engine.c:216-228 | version and measurement are forwarded in front of what the core writes; nothing but the parameters changes, whether or not the half was cleared |
| Handover.SharedRam.RunL0 | src/fw/L0_Image/l0_main.c:12-28 | the whole of shared RAM after L0 |
| Handover.DiceParams | src/core/l0_params.h:10-17 | L0 reads back what DICE stored |
| Handover.L1Finds | src/core/l0_engine/l0_engine.c:216-228 | L1 finds each parameter in its place and zeros everywhere else |
| Handover.Board.DiceMain | src/fw/DICE_Image/DICE_main.c:35-82 | which boots pass the gate: all with protections set that are not watchdog resets; these run the core if and only if a secret is there or can be provisioned; nothing is written unless the checks pass |
| Handover.Board.BootToL1 | src/fw/DICE_Image/arm/main.c:86-104 | L1 starts if and only if the gate passes, a secret is in place and the core returns 0; shared RAM is then determined: DICE's half is zero, L1's half is its parameters and zeros |

## Left out

- Cryptographic primitives are parameters. Nothing is assumed of them except, for the round trip, that a signature verifies under the matching key (sections 5.1.6 and 5.1.7 of RFC 8032). `Crypto_Hash` and `ED25519_Sign` never fail, as in crypto.c and ImageSigning.cpp.
- The DICE core and L0's core are generated code: what they write is a parameter, and they are taken to write only the fields passed to them.
- Undefined behaviour of C pointers and faults of unmapped addresses: memory is flat and wraps.
- HAL register programming, clocks, UART, caches, backup SRAM power and pins: hardware plumbing.
- Menus, command lines, files, log formatting and locks: input and output.
- ArmFlash.ArmFlash.FlashWrite: the source is a value, so a source overlapping the range written is not modelled; the range has to be in flash, which the code leaves to the HAL.
- ArmFlash.ArmFlash.HalProgram: the answers of the controller are a parameter; programming can only clear bits; error correction codes are not modelled. Provisioning does not rely on this: there an interrupted word may hold anything.
- HostFlash.HostFlash.FlashWrite: addresses are 64-bit as on the host, and the range has to be in the simulated flash; outside it the C code writes to memory it does not own.
- HostFlash.HostFlash.FlashErase: the same.
- SecretStorage.Storage.DeviceSecretInitialize: asks for some call of the generator that fails or does not return 0xFF throughout, without which the code loops for ever.
- SystemTime.Clock.SystemTime: asks for some iteration with no tick between its half reads, as a bound on the loop (two equal reads may end it earlier); the result is claimed unless the 64-bit counter wraps and 2^32 or more ticks fall into one iteration.
- HwRng.HwRng.Rand: asks for memory behind the buffer, so that the bytes stored past it are visible in the contract.
- RingLog.RingLog.GetMemoryLog: asks for counters that allow a read, which the code does not check; with others (`RingSpec.ReadableIff` says when) the copy is out of bounds in C.
- Watchdog: the period of the timer is a parameter; that its registers give about 1200 ms is not modelled.
- Full period 2^128 - 1 of the generator: only that the period is at most 2^128 is proved.
- The key and sign tools apart from what they store, option bytes, reset reasons and the tests in L1: they would add only easy members.
