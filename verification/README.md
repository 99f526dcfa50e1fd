# Platform root of trust: flash, update and recovery

A Dafny model of the firmware that makes a CPLD the root of trust of a server platform. The CPLD holds the
BMC and the PCH in reset, authenticates the SPI flash each of them boots from, repairs or updates the flash
from signed capsules, protects it against writes, and only then lets the component run. It also keeps its own
image up to date in on-chip flash (CFM0 and CFM1) and a small page of provisioned data (UFM) with keys, minimum
SVNs and lock bits.

Flash is NOR flash throughout: erasing sets bits, programming clears them, so "erase before write" is proved
and not taken for granted. Losing power is a prefix of the list of commands a flash was given. SHA-256 and
ECDSA are uninterpreted functions of a device; the hash is taken to be injective only where a lemma says so.

Code that changes things in place is imperative here too: methods over flash arrays, a UFM page, a mailbox, a
write-enable memory and the global state of the firmware, each proved against a function on values. The
theorems are about these functions.

| modules | what they model |
|---|---|
| `NorFlash`, `Sequences`, `Bits` | flash commands and their effect; facts on sequences, integers and bits |
| `SpiRwUtils`, `PowerLoss` | greedy erase, copy of a signed payload, and what power loss in them leaves |
| `Ufm`, `Provisioning`, `ProvisioningEffects` | minimum SVNs, key cancellation, provisioning commands, protect-in-transit, and what a command comes to where its data is used |
| `Authentication`, `CapsuleValidation` | signatures, and what a staged capsule may do |
| `Pfm`, `PfmWalk`, `PfmValidation` | the platform firmware manifest, its one walk, and its validation |
| `Decompression`, `Rebuild` | rebuilding regions and whole images from a compressed capsule |
| `WriteEnable` | the write-enable memory of the SPI filter |
| `PageFormat`, `SignatureFormat`, `PfmFormat`, `CapsuleFormat` | the formats as records put together field by field, and that every reader finds the fields meant for it |
| `FlashValidation`, `RecoveryMatrix` | authentication, repair and firmware promotion, also across power loss; the recovery matrix row by row |
| `CpldSteps`, `CpldUpdate`, `CpldPromotion`, `CpldFlows`, `CpldLaws` | CPLD update and recovery as steps that power loss can separate, and what a whole run leaves, word for word |
| `UpdateEffect` | what an admitted firmware update comes to |
| `Platform`, `FlashFlows`, `PlatformFlows` | T-1 and T0 as a state machine, and the firmware that runs it on two flashes |
| `PlatformLog`, `PlatformWork`, `PlatformSteps`, `PlatformSafety` | what every run of it keeps |
| `PlatformEffects`, `PlatformTimers` | what single functions of T-1 and T0 come to; watchdogs and boot progress |
| `UpdateLaws`, `UpdateRuns`, `CpldRuns` | what an update intent leads to, and updates from the intent to the released component |

`dafny verify dfyconfig.toml` checks everything.

## What turned out not to hold

Each of these is kept as the code has it, with a lemma that shows an input and one that says exactly when the
property holds.

- Reading a minimum SVN after writing it does not give the larger of the two for every content of the field:
  on a field that is not zeros then ones the bit the write relies on may be clear (`Ufm.WriteThenReadIff`, `Ufm.WriteThenReadCanMiss`).
- The admission check takes the SVN in eight bits, so a 32-bit CPLD SVN from 256 on can be admitted although it
  is out of range (`Ufm.CpldAdmissionInRangeIff`, `Ufm.CpldAdmissionCanMislead`).
- The greedy erase is not always the shortest list of commands for the pages it erases
  (`SpiRwUtils.GreedyIsShortestIff`, `SpiRwUtils.GreedyIsNotAlwaysShortest`).
- Copying four quarters drops up to three words unless the number of words is a multiple of four; accepted
  payloads always have such a length (`SpiRwUtils.QuartersAreExactIff`, `SpiRwUtils.QuartersCanMissTheEnd`, `Authentication.AuthenticLength`).
- The override that protects the staged CPLD capsule covers it only if the staging region is aligned to 512KB
  (`WriteEnable.StagingOverrideCoversIff`, `WriteEnable.StagingOverrideCanMissTheEnd`).
- An authentication acts on whatever is signed, so it can promote or rebuild from a payload that no image can be
  rebuilt from. It can carry out what it decides on exactly when the payloads it acts on fit and can be rebuilt
  from (`FlashValidation.WorkableIff`; with nothing else valid, `FlashValidation.StagedRecoversIff`). A staged
  key cancellation certificate is the input that fails (`FlashValidation.StagedCertificateCannotRecover`).
- The ROM image never looks at the type of what it finds signed, so an authentic payload of another type in the
  place of the staged CPLD capsule can cost the last good copy (`CpldUpdate.PassKeepsGoodCopyIff`,
  `CpldUpdate.OtherTypeLosesLastCopy`, `CpldUpdate.TwoPassesSufficeIff`).
- CPLD bits of an update intent are lost when a firmware part of the same intent is turned down, or is made due
  directly because the recovery image is invalid (`PlatformSafety.CpldIntentKeptIff`,
  `PlatformSafety.CpldIntentCanBeLost`).

Nor need an authentic capsule describe itself: the image rebuilt from it authenticates exactly when the manifest
in it does so (`PfmValidation.RebuildAuthenticatesIff`, `UpdateEffect.UpdatedImageIsValidIff`).

Where comments and code disagree the model follows the code: a comment says that a BMC watchdog timeout leads
to a BMC-only reset (fw/code/inc/t0_watchdog_handler.h:211-213), the code resets the platform; another says
that the staging region is write-protected during a recovery update (fw/code/inc/firmware_update.h:59-61), the
code relies on authenticating the staged capsule again; a third says that recovery of the active image
rebuilds static regions only (fw/code/inc/flash_validation.h:87-90), the code rebuilds dynamic ones too; and a
firmware promotion does not wait for a timed boot, because every platform reset works off pending updates
(fw/code/inc/tmin1_routines.h:309-312).

## Model

| member | source | states |
|---|---|---|
| `NorFlash.SpiFlash.ExecuteSpiEraseCmd` | fw/code/inc/spi_rw_utils.h:172-181 | An erase command sets every bit of the addressed 4KB or 64KB sector, changes no other word and is logged. |
| `NorFlash.SpiFlash.ProgramWord` | fw/code/inc/spi_rw_utils.h:234-237 | Storing a word over the memory window can only clear bits of that word; every other word is unchanged. |
| `SpiRwUtils.EraseSpiRegion` | fw/code/inc/spi_rw_utils.h:191-211 | From a 4KB-aligned start exactly the 4KB pages touching the range end erased, the rest of the flash is unchanged, and the loop terminates. |
| `SpiRwUtils.GreedyEraseIsExact` | fw/code/inc/spi_rw_utils.h:191-211 | The greedy commands erase the pages touching the range and nothing else: a 64KB command never overshoots. |
| `SpiRwUtils.GreedyEraseCommands` | fw/code/inc/spi_rw_utils.h:191-211 | A command is issued if and only if it is the 64KB erase of an aligned block inside the range or the 4KB erase of a page outside all such blocks, and no command is issued twice. |
| `SpiRwUtils.GreedyIsShortest` | fw/code/inc/spi_rw_utils.h:191-211 | For a range that ends on a page boundary no list of erase commands with the same effect is shorter. |
| `SpiRwUtils.GreedyIsShortestIff` | fw/code/inc/spi_rw_utils.h:191-211 | For any range the greedy list is shortest exactly when the rounded-up end does not complete a 64KB block that the unrounded end leaves open. |
| `SpiRwUtils.GreedyIsNotAlwaysShortest` | fw/code/inc/spi_rw_utils.h:191-211 | A range for which sixteen 4KB commands are issued where one 64KB command has the same effect. |
| `SpiRwUtils.MemcpySignedPayload` | fw/code/inc/spi_rw_utils.h:219-241 | Erasing the destination and copying four quarters gives exactly the modelled list of flash commands, and the flash is what that list makes of it. |
| `SpiRwUtils.GetSignedPayloadSize` | fw/code/inc/keychain_utils.h:83-86 | The size of a signed payload is 1024 bytes more than the length in its block 0. |
| `SpiRwUtils.CopyWords` | fw/code/inc/spi_rw_utils.h:230-237 | Copying words inside the window programs exactly the source words, in order, over the destination. |
| `SpiRwUtils.QuartersTile` | fw/code/inc/spi_rw_utils.h:230-237 | The remaining quarters copy exactly the remaining words: no gap and no overlap. |
| `SpiRwUtils.CopyIsExact` | fw/code/inc/spi_rw_utils.h:219-241 | After the copy the destination equals the source word for word, the source is intact and nothing outside the erased pages changed. |
| `SpiRwUtils.QuartersAreExactIff` | fw/code/inc/spi_rw_utils.h:230-237 | Four quarter copies reproduce every payload of a given length exactly when its number of words is a multiple of four. |
| `SpiRwUtils.QuartersCanMissTheEnd` | fw/code/inc/spi_rw_utils.h:230-237 | Of five words four are copied. |
| `SpiRwUtils.CopyBetweenFlashes` | fw/code/inc/spi_rw_utils.h:256-285 | The erase and the loop that reads a word from one flash and programs it into the other leave exactly the read words over the erased pages of the destination; the source stays. |
| `Ufm.GetUfmSvn` | fw/code/inc/ufm_utils.h:120-132 | The loop returns the position of the first set bit of the 64-bit field, or 64. |
| `Ufm.SvnIsUnique` | fw/code/inc/ufm_utils.h:120-132 | The minimum SVN is the one number below which all bits are clear and at which a bit is set, unless it is 64. |
| `Ufm.WriteUfmSvn` | fw/code/inc/ufm_utils.h:153-178 | The stores leave the page that the specification of a raised minimum SVN gives, with memory-mapped stores that only clear bits. |
| `Ufm.WriteThenReadIff` | fw/code/inc/ufm_utils.h:120-178 | For every content of the field and svn up to 64, reading after writing gives the larger of old and new if and only if the bit at svn was still set, svn is 64, or nothing is written. |
| `Ufm.WriteThenReadCanMiss` | fw/code/inc/ufm_utils.h:120-178 | A field on which writing 3 over a minimum of 0 does not leave a minimum of 3. |
| `Ufm.WritesKeepUnary` | fw/code/inc/ufm_utils.h:153-178 | Zeros-then-ones is kept by every sequence of writes, and the minimum SVN is then the maximum of the old one and all those written. |
| `Ufm.ErasedThenWrites` | fw/code/inc/ufm_utils.h:120-178 | From an erased page every sequence of writes leaves zeros then ones, and the largest written SVN. |
| `Ufm.SvnWriteRestarts` | fw/code/inc/ufm_utils.h:153-178 | A write cut short after any store and started again ends with the same page. |
| `Ufm.SvnWriteTouchesField` | fw/code/inc/ufm_utils.h:98-110 | A write changes no word outside the two words of its own field. |
| `Ufm.CpldAdmissionInRangeIff` | fw/code/inc/ufm_utils.h:137-140 | The 8-bit parameter truncates a 32-bit CPLD SVN: an admitted SVN lies between the minimum and 64 exactly when it is below 256. |
| `Ufm.CpldAdmissionCanMislead` | fw/code/inc/ufm_utils.h:137-140 | A CPLD SVN of 261 is admitted on an erased page. |
| `Ufm.CancelKey` | fw/code/inc/key_cancellation.h:57-72 | Storing back the word with one bit cleared leaves the page with exactly that key cancelled. |
| `Ufm.CancelledKeys` | fw/code/inc/key_cancellation.h:57-100 | After any sequence of cancellations a key of a payload type is valid exactly when it was before and was not cancelled for that type. |
| `Ufm.BetweenErases` | fw/code/inc/ufm_rw_utils.h:82-93 | Whatever is written without an erase, no minimum SVN goes down and no cancelled key becomes valid. |
| `Ufm.UfmErasePage` | fw/code/inc/ufm_rw_utils.h:82-93 | An erase sets every bit of the page. |
| `Ufm.SetUfmStatus` | fw/code/inc/ufm_utils.h:40-43 | Setting a status flag clears its bits of the status word and changes nothing else. |
| `PageFormat.PageIsReadByField` | fw/code/inc/ufm.h:84-114 | Put together field by field, the page is read by field: the contents that commands and protect-in-transit checks use, each minimum SVN bit by bit, and each key cancellation bit by bit, key 0 of a type in the highest bit of its first word. |
| `PageFormat.StatusIsReadByMask` | fw/code/inc/ufm.h:40-50 | Each flag is set exactly when its own bit of the status word is clear: locked 1, root key 2, PCH 4, BMC 8, ID 0x10, ID check 0x20, hash check 0x40, hashes stored 0x80, check passed 0x100. |
| `Pfm.EncodeThenParse` | fw/code/inc/pfm_utils.h:138-240 | Every list of 40-byte rules and 16- or 48-byte regions, encoded and ended by any other word, is walked to the end and visited in order. |
| `Pfm.WalkStep` | fw/code/inc/pfm_utils.h:75-82 | A definition at the walk pointer ends inside the body, and the walk over the rest visits the remaining definitions. |
| `Pfm.ParseDependsOnPrefix` | fw/code/inc/pfm_validation.h:92-124 | What follows the word that ends the definitions does not matter to a walk. |
| `Pfm.SameWalk` | fw/code/inc/pfm_validation.h:92-124 | A walk sees the words up to the one that ends it and no others: wherever these are the same it visits the same definitions. |
| `Pfm.EndsAnywhere` | fw/code/inc/pfm_validation.h:92-124 | Definitions that end where their manifest does are walked the same way whatever follows, as long as that starts no definition: an erased word in the active region, the compression header in a capsule. |
| `PfmFormat.DefinitionsAreRead` | fw/code/inc/pfm.h:56-82 | Definitions put together byte by byte are read with the bus, rule and address, or the protection, hash algorithm, addresses and hash, that they hold, in order, up to the first byte that starts none. |
| `PfmWalk.ReadDefinition` | fw/code/inc/pfm_utils.h:75-82 | Reading fields through the flash window gives the definition at the walk pointer. |
| `Authentication.IsLengthValid` | fw/code/inc/authentication.h:60-113 | Length and type pass exactly when the length is a positive multiple of 128, the type is known and the length is allowed for it. |
| `Authentication.IsBlock0Valid` | fw/code/inc/authentication.h:52-127 | The checks of block 0 pass exactly when magic, length for the payload type, zero reserved words and the hash of the payload are right. |
| `Authentication.IsRootEntryValid` | fw/code/inc/authentication.h:135-173 | The root entry passes exactly when its fields are right and the hash of the byte-reversed key equals the provisioned one. |
| `Authentication.IsCskEntryValid` | fw/code/inc/authentication.h:184-229 | The CSK entry passes exactly when its fields, its permission for the payload type, its signature by the root key and, except in a certificate, its key ID are right. |
| `Authentication.IsBlock1Valid` | fw/code/inc/authentication.h:267-303 | Block 1 passes exactly when root, CSK and block 0 entries do. |
| `Authentication.IsKeyCanCertValid` | fw/code/inc/authentication.h:313-328 | A key cancellation certificate passes exactly when its ID is at most 127 and its reserved words are zero. |
| `Authentication.IsSignatureValid` | fw/code/inc/authentication.h:342-373 | The signature check returns exactly the specified validity. |
| `Authentication.IsSignatureValidAt` | fw/code/inc/authentication.h:342-373 | The check in place depends only on the words of the payload, wherever they lie in the flash. |
| `Authentication.AuthenticLength` | fw/code/inc/authentication.h:60-64 | A payload that passes is 1024 plus a multiple of 128 bytes long, so four quarters tile it. |
| `SignatureFormat.SignedIsValidIff` | fw/code/inc/keychain.h:113-205 | A payload put together field by field is authentic exactly when its fields say so: hash and length in block 0, root key against the provisioned hash, signing key with the right permission and not cancelled, and both signatures; a certificate goes by the root key alone and names a key up to 127. |
| `SignatureFormat.EveryPayloadHasFields` | fw/code/inc/keychain.h:113-205 | Every payload long enough to be checked is put together in this way, so that the condition covers all inputs. |
| `Authentication.CopyKeepsValidity` | fw/code/inc/spi_rw_utils.h:219-241 | A valid payload that is copied is valid with the same contents at its new place, and still valid at the old one. |
| `Authentication.SameVerdict` | fw/code/inc/authentication.h:342-373 | Equal payloads at different places, on different flashes, get the same verdict. |
| `Authentication.CancelledKeyNeverPasses` | fw/code/inc/key_cancellation.h:82-100 | Once a key is cancelled for a type, no payload of the type but a certificate passes with it, whatever is written to the page until it is erased. |
| `Authentication.SvnWritesKeepValidity` | fw/code/inc/ufm_utils.h:153-178 | Raising a minimum SVN changes the verdict on no payload. |
| `Decompression.EraseActivePages` | fw/code/inc/decompression.h:97-131 | The coalesced erase of runs of active pages erases exactly the active pages of the region. |
| `Decompression.CopyPages` | fw/code/inc/decompression.h:133-176 | The bitmap loop copies each compressed page from its place in the payload, counting compression bits from bit 0. |
| `Decompression.DecompressSpiRegionFromCapsule` | fw/code/inc/decompression.h:76-177 | The whole function leaves the region image of the specification, with both erase and copy loops over NOR flash. |
| `Decompression.RegionPages` | fw/code/inc/decompression.h:76-177 | Word by word: a copied page equals the payload page numbered by the compression bits before it, a page only in the active bitmap is all ones, every other page of the flash is unchanged. |
| `Rebuild.DecompressCapsule` | fw/code/inc/decompression.h:197-262 | Walking the capsule's manifest, rebuilding the chosen regions and replacing the active manifest leaves the specified flash. |
| `Rebuild.DecompressRegions` | fw/code/inc/decompression.h:209-249 | The walk rebuilds exactly the chosen regions of the manifest, in its order. |
| `Rebuild.ReplacePfm` | fw/code/inc/decompression.h:251-261 | The 64KB of the active manifest end up holding the capsule's signed manifest and erased words after it. |
| `Rebuild.RebuiltWord` | fw/code/inc/decompression.h:197-262 | Each word of the rebuilt flash is fixed by the capsule, or unchanged, according to manifest, regions and bitmaps only. |
| `Rebuild.RebuiltTwice` | fw/code/inc/decompression.h:197-262 | Rebuilding twice equals rebuilding once. |
| `Rebuild.RebuiltByManifest` | fw/code/inc/decompression.h:197-262 | Word by word, told by protection bits: with static regions the 64KB of the manifest hold the signed manifest and are erased behind it; a page in a region with bits 01, or 11 outside the staging region, is as the capsule says where it has it; all else stays. |
| `CapsuleFormat.CapsuleIsRead` | fw/code/inc/pbc.h:46-56 | A capsule put together from signature, signed manifest, header, bitmaps and pages is taken apart into these. |
| `CapsuleFormat.BitmapIsRead` | fw/code/inc/decompression.h:95-180 | The bit of a page in a bitmap is that of its byte, the first page of a byte in the highest bit. |
| `CapsuleFormat.CompressedImageIsDescribed` | fw/code/inc/decompression.h:76-184 | For every image and every choice of pages to erase and to copy, the capsule of it describes each chosen page with the words of the image, or as erased. |
| `CapsuleFormat.CompressThenRebuild` | fw/code/inc/decompression.h:197-262 | Rebuilding from the capsule of an image gives, in every page of a selected region that was chosen, the words of that image. |
| `CapsuleFormat.CapsuleIsReadable` | fw/code/inc/decompression.h:197-262 | Every such capsule can be walked: its compression header ends the definitions of the manifest. |
| `CapsuleFormat.CapsuleInFlash` | fw/code/inc/capsule_validation.h:304-312 | Wherever such a capsule lies in a flash, admission finds its SVN and its compression header. |
| `Rebuild.PayloadIsFree` | fw/code/inc/decompression.h:133-176 | The compressed payload is free: with bitmaps that are nested word by word, any payload gives a capsule for which the results on rebuilt words hold. |
| `Rebuild.StaticRebuildFrame` | fw/code/inc/decompression.h:197-262 | Rebuilding static regions only leaves dynamic regions and the staging region as they were. |
| `Rebuild.RecoverDynamicRegions` | fw/code/inc/firmware_recovery.h:166-203 | The walk rebuilds the dynamic regions marked for the level and reports whether any static region is marked for any level. |
| `Rebuild.RecoverAtLevel` | fw/code/inc/firmware_recovery.h:161-210 | The walk over the active manifest recovers dynamic regions by level and static regions together, as specified. |
| `Rebuild.WdtRecoveredWord` | fw/code/inc/firmware_recovery.h:161-210 | Word by word: a level rebuilds exactly the dynamic regions whose bit for it is set; the static ones all, if any static region is marked, or not at all. |
| `Rebuild.WdtRecoveredByManifest` | fw/code/inc/firmware_recovery.h:161-210 | The same by the protection bits in the active manifest, and for static regions in the capsule's. |
| `PfmValidation.IsSmbusRuleValid` | fw/code/inc/pfm_validation.h:57-67 | A rule passes exactly when its bus, rule number and address match the device table; numbers out of the table are rejected. |
| `PfmValidation.IsSpiRegionValid` | fw/code/inc/pfm_validation.h:74-85 | A region passes exactly when it needs no hash or the hash of its contents is the one in the manifest. |
| `PfmValidation.IsPfmBodyValid` | fw/code/inc/pfm_validation.h:92-124 | The loop over the words of the flash accepts exactly the bodies that end before the flash does and all of whose definitions are valid, wherever the signed payload ends. |
| `PfmValidation.IsActiveRegionValid` | fw/code/inc/pfm_validation.h:151-156 | The active region passes exactly when the manifest's signature, tag and body do. |
| `PfmValidation.RebuildAuthenticatesIff` | fw/code/inc/decompression.h:197-262 | Whatever the active area held before, the image rebuilt from a capsule that covers the regions its manifest hashes authenticates exactly when that manifest is authentic and its hashes are those of the pages the capsule encodes. |
| `PfmValidation.FullManifest` | fw/code/inc/pfm_validation.h:92-124 | Definitions that fill a signed manifest to its last word are the ones it defines. |
| `PfmFormat.ManifestIsValidIff` | fw/code/inc/pfm_validation.h:44-133 | A list of definitions is valid for a flash exactly when every rule names the device of its bus and number, and every region with protection bits 01 and a SHA-256 hash has that hash. |
| `WriteEnable.ApplySpiWriteProtection` | fw/code/inc/pfm_utils.h:120-241 | For any contiguous regions from 0 to a multiple of 512KB, aligned or not, the memory is exact: page bits as below, each word committed once, in ascending order. |
| `WriteEnable.WriteEnableMemory.Commit` | fw/code/inc/pfm_utils.h:221-229 | A committed word replaces the one at its position and no other. |
| `WriteEnable.ProtectRegion` | fw/code/inc/pfm_utils.h:166-230 | One region extends the partly built word carried over from the previous one and commits every word it completes. |
| `WriteEnable.RegionUniform` | fw/code/inc/pfm_utils.h:166-230 | All pages whose last byte a region holds get that region's permission. |
| `WriteEnable.ProtectedFlash` | fw/code/inc/spi_rw_utils.h:292-297 | With the CPLD override a page is writable exactly when the region holding its last byte is and the page is outside the 1MB at 0x7F00000. |
| `PfmFormat.ProtectedByManifest` | fw/code/inc/pfm_utils.h:120-241 | With the memory filled from a manifest and the recovery override made, the bit of a 16KB page is set exactly when a region with the write bit holds its last byte and the page is outside 0x7F00000-0x7FFFFFF. |
| `WriteEnable.OverrideBits` | fw/code/inc/spi_rw_utils.h:292-308 | Two zero words make exactly their 1MB read-only. |
| `WriteEnable.StagingOverrideCoversIff` | fw/code/inc/spi_rw_utils.h:302-308 | The override for the staged CPLD capsule covers its 1MB exactly when the staging region is aligned to 512KB. |
| `WriteEnable.StagingOverrideCanMissTheEnd` | fw/code/inc/spi_rw_utils.h:302-308 | A staging address for which the end of the capsule area stays writable. |
| `WriteEnable.WriteProtectCpldRecoveryRegion` | fw/code/inc/spi_rw_utils.h:292-297 | The words at 254 and 255 become zero, all others stay. |
| `WriteEnable.WriteProtectCpldStagingRegion` | fw/code/inc/spi_rw_utils.h:302-308 | The two words from the staged capsule's address divided by 512KB become zero, all others stay. |
| `Provisioning.RunKeepsProvisioning` | fw/code/inc/t0_provisioning.h:91-326 | After any sequence of commands, T-1 checks and updates from an erased page: L2 passed implies hash stored implies L2 enabled implies L1 enabled implies PIT ID provisioned, locked implies provisioned, and each field holds the first accepted value since the last erase. |
| `Provisioning.LockedPageIsKept` | fw/code/inc/t0_provisioning.h:201-326 | No command changes the page while it is locked. |
| `Provisioning.SealedUntilPassed` | fw/code/inc/pit_utils.h:80-139 | Once L1 or L2 is enabled, T-1 is left only with the provisioned ID and with the stored firmware hashes until the check has passed. |
| `Provisioning.SealThenCheck` | fw/code/inc/pit_utils.h:80-139 | Sealing stores both hashes and stays in T-1; the next entry passes with the same flashes and no others. |
| `Provisioning.FirstAcceptedReadsBack` | fw/code/inc/t0_provisioning.h:211-305 | A read command reports the bytes of the first accepted command since the last erase. |
| `ProvisioningEffects.RootKeyIsUsed` | fw/code/inc/authentication.h:150-175 | After every run of provisioning the root entry of any payload is valid exactly when its four constant words are right and its key hashes to the first root key hash that was accepted. |
| `ProvisioningEffects.RootKeyCommand` | fw/code/inc/t0_provisioning.h:240-254 | Command 1 on an unlocked page without a root key makes its 32 bytes the hash that signatures are checked against, until the page is erased. |
| `ProvisioningEffects.OffsetCommands` | fw/code/inc/t0_provisioning.h:270-303 | Commands 5 and 6 give the active, recovery and staging addresses of the PCH flash and of the BMC flash. |
| `ProvisioningEffects.PitIdCommand` | fw/code/inc/t0_provisioning.h:255-269 | Command 2 gives the ID that every T-1 entry asks for while the ID check is enabled. |
| `ProvisioningEffects.ReadCommands` | fw/code/inc/t0_provisioning.h:211-228 | Commands 8, 0xC and 0xD report the bytes of commands 1, 5 and 6, on a locked page too. |
| `ProvisioningEffects.LockSetsFloors` | fw/code/inc/t0_provisioning.h:152-183 | Command 7 on an unlocked, provisioned page locks it for good and raises the minimum SVNs of PCH and BMC to those of the recovery images, each its own, unless out of range. |
| `ProvisioningEffects.ChecksComeIntoForce` | fw/code/inc/pit_utils.h:50-139 | Command 0x10 puts the ID check in force; command 0x11 has the next T-1 entry seal both flashes, and the one after it passes with the sealed flashes and the ID only; once it has passed, the contents are not looked at again. |
| `Provisioning.ReadsBack` | fw/code/inc/ufm_rw_utils.h:120-153 | Bytes written from the FIFO to a field and read back into the FIFO are the same bytes in the same order. |
| `Provisioning.Mailbox.WriteUfmFromFifo` | fw/code/inc/ufm_rw_utils.h:120-136 | The byte loop stores the FIFO's bytes as little-endian words into the field and nowhere else. |
| `Provisioning.Mailbox.WriteFifoFromUfm` | fw/code/inc/ufm_rw_utils.h:144-153 | The byte loop puts the field's bytes into the FIFO and changes no UFM word. |
| `Provisioning.Mailbox.ProcessEnablePit` | fw/code/inc/t0_provisioning.h:91-141 | The PIT enable commands leave the page that the command's own effect gives, and refuse exactly what the effect refuses; ChecksComeIntoForce says what they come to. |
| `Provisioning.Mailbox.ProcessLock` | fw/code/inc/t0_provisioning.h:152-183 | A provisioned page is locked and both minimum firmware SVNs are raised to those of the recovery images, if these are at most 64; an unprovisioned page is left as it is and the command is an error. |
| `Provisioning.Mailbox.ProcessUfmCmd` | fw/code/inc/t0_provisioning.h:201-326 | Page, FIFO and error bit after any command are those of the command's effect, told apart by command number; RootKeyCommand, OffsetCommands, PitIdCommand, ReadCommands and LockSetsFloors say what each comes to. |
| `Provisioning.Mailbox.HandleCommand` | fw/code/inc/t0_provisioning.h:342-359 | A handled command has its effect on the page and ends with done set, busy clear, the error bit exactly for a rejected command, and the provisioned, locked and check bits as the page has them. |
| `Provisioning.Mailbox.PitL1Check` | fw/code/inc/pit_utils.h:50-70 | The check fails exactly when L1 protection is enabled and the ID differs from the provisioned one, word by word. |
| `Provisioning.Mailbox.PitL2Check` | fw/code/inc/pit_utils.h:80-139 | The L2 check stores, compares or skips the firmware hashes, and the mailbox shows whether the check is in force. |
| `Provisioning.Mailbox.PerformPitProtection` | fw/code/inc/pit_utils.h:144-148 | Both checks in order: what fails locks the platform, and what passes is shown in the mailbox; ChecksComeIntoForce says when. |
| `CapsuleValidation.CheckCapsuleBeforeUpdate` | fw/code/inc/capsule_validation.h:262-345 | Verdict, UFM page and attempt counter are those of the decision, which VerdictByWords and CertificateCancelsItsKey tell by the words of the capsule. |
| `CapsuleValidation.IsSvnValid` | fw/code/inc/ufm_utils.h:137-140 | An SVN passes exactly when its low byte lies between the minimum SVN and 64. |
| `CapsuleValidation.IsPbcValid` | fw/code/inc/capsule_validation.h:91-119 | The compression header passes exactly with the right tag, version, page size and a bitmap of whole bytes. |
| `CapsuleValidation.AdmittedFirmware` | fw/code/inc/capsule_validation.h:304-335 | An admitted firmware capsule has two valid signatures, an SVN between the minimum and 64, and the recovery image's SVN unless it is a recovery update. |
| `CapsuleValidation.VerdictByWords` | fw/code/inc/capsule_validation.h:262-345 | For every payload and intent: an authentic certificate cancels a key; an authentic decommission capsule is acted upon exactly when CPLD bits alone ask; a payload proceeds exactly when it is authentic, of the type that the intent asks for first, in SVN range, and for firmware with a signed manifest, a compression header and the SVN of the recovery image or a recovery bit. |
| `CapsuleValidation.CertificateCancelsItsKey` | fw/code/inc/capsule_validation.h:277-285 | An authentic certificate cancels the key that its first content word names, for the type in its type word, and every other key is as valid as before; the rest of the page stays. |
| `CapsuleValidation.CertificateStopsKey` | fw/code/inc/capsule_validation.h:277-285 | After an authentic certificate no payload of the type in its type word, signed with the key that its first content word names, passes until the page is erased, except another certificate. |
| `CapsuleValidation.DecommissionNeedsCpldIntent` | fw/code/inc/capsule_validation.h:203-228 | A decommission happens only for an intent with CPLD bits and no firmware bits. |
| `PowerLoss.FirstWordErased` | fw/code/inc/spi_rw_utils.h:191-211 | Power lost anywhere after the first erase command leaves the first word of the destination erased. |
| `PowerLoss.CutContents` | fw/code/inc/spi_rw_utils.h:219-241 | If the word after the signature block is no longer erased when a copy is cut short, the whole signature block has been copied. |
| `PowerLoss.CutOutside` | fw/code/inc/spi_rw_utils.h:219-241 | Power lost anywhere in a copy changes nothing outside the destination pages. |
| `FlashValidation.CompareHashes` | fw/code/inc/capsule_validation.h:168-186 | The word loop compares the manifest hashes of active image and staged capsule. |
| `FlashValidation.CheckCapsuleBeforeFwRecoveryUpdate` | fw/code/inc/capsule_validation.h:359-374 | A staged capsule may be promoted exactly when its signature passes and, unless skipped, its manifest hash matches the active one. |
| `FlashValidation.PerformFirmwareRecoveryUpdate` | fw/code/inc/firmware_update.h:136-152 | The recovery region becomes the staged capsule and the minimum SVN is raised to the capsule's. |
| `FlashValidation.IsCapsuleValid` | fw/code/inc/capsule_validation.h:129-158 | A capsule passes exactly when both signatures and the compression header do. |
| `FlashValidation.RepairOrReport` | fw/code/inc/flash_validation.h:157-200 | An invalid recovery capsule is replaced by a staged one that may be promoted; otherwise the failure bit that fits the active region is set. All it asks is that a copy it decides on fits. |
| `FlashValidation.RebuildActive` | fw/code/inc/flash_validation.h:212-232 | The active region is rebuilt from the recovery capsule, static and dynamic regions alike. |
| `FlashValidation.AuthenticateAndRecover` | fw/code/inc/flash_validation.h:103-243 | Flash contents, UFM page, both failure bits and the activity result are the specified ones for all eight rows of the recovery matrix and the force pin, whenever what the code decides on can be carried out (exactly when: WorkableIff). |
| `FlashValidation.WorkableIff` | fw/code/inc/flash_validation.h:103-243 | For every row of the matrix and the pin, what the code decides on can be carried out exactly when, told from the contents before anything is written: a valid recovery capsule that is rebuilt from can be used, a staged capsule that is promoted fits the recovery region, and one that is promoted and rebuilt from can be used. |
| `RecoveryMatrix.MatrixRows` | fw/code/inc/flash_validation.h:103-243 | Every row of the matrix, word by word: when the recovery region is overwritten by the staged payload, with which words and which minimum SVN; when the active image is rebuilt in full, and from what; when which failure is recorded; and that nothing else changes. |
| `UpdateRuns.AuthenticatedByRows` | fw/code/inc/flash_validation.h:103-243 | On the platform: whatever regions are good, flash, minimum SVN and both failure bits are those of the row of the matrix, the SVN of the recovery region is noted as it then is, and the contents count as verified exactly when an active image was found good or was rebuilt. |
| `RecoveryMatrix.HashesMatchIff` | fw/code/inc/capsule_validation.h:168-186 | With an injective hash and both manifests authentic, the staged capsule matches the active image exactly when the two signed manifests are the same. |
| `FlashValidation.StagedRecoversIff` | fw/code/inc/flash_validation.h:159-176 | With neither the active nor the recovery region valid and an authentic staged payload, of whatever type, recovery works exactly when the payload fits the recovery region and an image can be rebuilt from it. |
| `FlashValidation.StagedCertificateCannotRecover` | fw/code/inc/flash_validation.h:159-176 | A staged key cancellation certificate is promoted like a capsule when neither active nor recovery region is valid, and there is then nothing to rebuild from. |
| `FlashValidation.AuthenticatedOrHeld` | fw/code/inc/flash_validation.h:103-243 | All regions are reported failed exactly when neither the active region passes nor a capsule with an authentic signature, in the recovery or staging region, is there to rebuild it; only the recovery region is reported failed when the flash stays as it was. |
| `FlashValidation.AuthenticatedImageIsValid` | fw/code/inc/flash_validation.h:103-243 | If authentic capsules describe themselves, whatever authentication calls valid does authenticate afterwards, with the updated UFM page: rebuilt, promoted over or untouched. |
| `FlashValidation.RebuiltActiveIsValidIff` | fw/code/inc/flash_validation.h:207-232 | An active region rebuilt from the recovery capsule authenticates exactly when the manifest in that capsule is authentic and describes it. |
| `FlashValidation.RebuildSparesRecovery` | fw/code/inc/flash_validation.h:207-232 | Rebuilding the active region leaves the recovery capsule as it is. |
| `FlashValidation.CutCopyPassesOnlyComplete` | fw/code/inc/firmware_update.h:136-152 | If a copy that was cut short leaves a recovery capsule that passes, the copy was complete (hash injective). |
| `FlashValidation.PromotionSurvivesPowerLoss` | fw/code/inc/flash_validation.h:159-176 | However often a promotion is cut short and started again, the next complete T-1 entry leaves the recovery region with the complete old or the complete staged capsule and lets the component boot. |
| `UpdateEffect.UpdatedImageIsValidIff` | fw/code/inc/firmware_update.h:70-121 | After an active update the active region authenticates exactly when the manifest of the staged capsule is authentic and describes it; the staged capsule is intact and matches the image in every case. |
| `UpdateEffect.AdmittedUpdateTakesEffect` | fw/code/inc/flash_validation.h:103-243 | The authentication that follows an update keeps the updated image if the staged capsule describes itself, and rebuilds the image from the recovery capsule if not, when the recovery capsule authenticates and recovery is not forced. |
| `UpdateEffect.RecoveryUpdateCompletes` | fw/code/inc/tmin1_update.h:155-182 | A recovery update ends with the capsule the active image was rebuilt from in the recovery region, the pending flag clear and the minimum SVN raised to the capsule's. |
| `UpdateLaws.FirmwareUpdateByWords` | fw/code/inc/firmware_update.h:70-121 | An update that may proceed rebuilds static regions, and dynamic ones exactly for a recovery update or the dynamic bit, word for word as the capsule says; it clears the failed attempts, makes a promotion due exactly for a recovery update, turns this component's timers on again, and changes nothing else. |
| `UpdateLaws.PlainUpdateKeepsData` | fw/code/inc/firmware_update.h:91-106 | Without recovery and dynamic bit every word outside static regions and the 64KB of the manifest is as before; pages of static regions that the capsule has come to be as it says. |
| `UpdateLaws.UpdateTurnedDown` | fw/code/inc/capsule_validation.h:262-345 | On firmware bits a refused capsule counts as one failed attempt and a certificate stops its key, and that is all. |
| `UpdateLaws.PromotionTurnedDown` | fw/code/inc/tmin1_update.h:155-175 | A due promotion whose staged capsule is not authentic or not the one of the active image is given up, and counts as a failed attempt. |
| `CpldSteps.RewritePrefix` | fw/code/inc/cpld_update.h:98-141 | Power loss at any step of rewriting CFM1 leaves the old image, an erased first word, or the complete new image. |
| `CpldUpdate.PostReconfigLeaves` | fw/code/inc/cpld_update.h:98-141 | The same for the whole update after the reconfiguration, which changes nothing but CFM1. |
| `CpldUpdate.PassKeepsGoodCopyIff` | fw/code/inc/recovery_main.h:46-99 | A pass of the ROM image keeps a good copy among CFM1, the staged and the recovery capsule, wherever power is lost in it, exactly when it writes nothing, or leaves a good capsule alone, or restores the recovery capsule from a good one. |
| `CpldUpdate.SafePassByTypes` | fw/code/inc/cpld_update.h:106-113 | If the images in signed CPLD capsules work, these passes can be told by the type words of what is signed at the two addresses. |
| `CpldUpdate.OtherTypeLosesLastCopy` | fw/code/inc/cpld_update.h:106-113 | With the breadcrumb set, no valid recovery capsule and an authentic staged payload of another type with an admissible SVN, the first command of a pass takes the last good copy away. |
| `CpldUpdate.RecoveryCompletesIff` | fw/code/inc/cpld_recovery.h:114-158 | A recovery goes through exactly when one of the two capsules authenticates, and then CFM1 starts exactly when the image of the capsule it went by does. |
| `CpldUpdate.LastGoodCopySurvives` | fw/code/inc/recovery_main.h:46-99 | Over every run of updates, recoveries, promotions and power losses between any two flash commands, whose passes of the ROM image are of that kind, one good copy is left. |
| `CpldUpdate.TwoPassesSufficeIff` | fw/code/inc/recovery_main.h:82-98 | From every state, after two passes of the ROM image CFM1 starts exactly when the image the first pass leaves does, or else the one the recovery goes by. |
| `CpldUpdate.TwoPassesSuffice` | fw/code/inc/recovery_main.h:82-98 | With one good copy, signed images that work and nothing of another type at the two addresses, two passes are enough, whatever the breadcrumb says. |
| `CpldUpdate.TriggerKeeps` | fw/code/inc/cpld_update.h:75-91 | Starting an update, cut short anywhere, leaves the image as complete as it was; carried out, it leaves the breadcrumb and, for a recovery update, the status word. |
| `CpldPromotion.PromoteInOrder` | fw/code/inc/cpld_update.h:149-172 | The status word stays set until the copy and the SVN bump are both done, and the minimum SVN rises only after the recovery area holds the whole staged capsule. |
| `CpldPromotion.PromoteRestarts` | fw/code/inc/cpld_update.h:149-172 | A promotion started again after power loss anywhere ends in the same state. |
| `CpldPromotion.PromoteCopies` | fw/code/inc/cpld_update.h:160-161 | Erasing and copying the 1MB area leaves exactly the staged area at the recovery address. |
| `CpldLaws.CapsuleIsRead` | fw/code/inc/cpld_update.h:52-57 | A CPLD capsule put together from signature, SVN, bitstream and 31 words of padding is read by field wherever it lies, and has the length that authentication wants. |
| `CpldLaws.UpdateRun` | fw/code/inc/recovery_main.h:46-97 | A run of the ROM image after power-up or a switch writes CFM1 exactly when the breadcrumb is there and the staged capsule is authentic with an SVN not below the minimum; CFM1 then holds the bitstream word for word, and nothing else changes. |
| `CpldLaws.RecoveryRun` | fw/code/inc/cpld_recovery.h:114-158 | A run after a failure erases the status word; it writes the bitstream of an authentic recovery capsule, or restores that capsule from the staged one, erased behind it, and writes its bitstream; it waits for the BMC exactly when neither is authentic. |
| `CpldLaws.PromotionLeaves` | fw/code/inc/cpld_update.h:149-172 | A promotion leaves the 1MB of the recovery area equal to the staged one, the minimum SVN raised to the staged capsule's, the status word erased, and CFM1 as it was. |
| `CpldFlows.TriggerCpldUpdate` | fw/code/inc/cpld_update.h:75-91 | The steps are the specified ones, in order. |
| `CpldFlows.PerformUpdatePostReconfig` | fw/code/inc/cpld_update.h:98-141 | The backward write with the first words last carries out exactly the specified steps. |
| `CpldFlows.WriteBackwards` | fw/code/inc/cpld_update.h:125-137 | The loop stores the image from its end to its start, one word at a time. |
| `CpldFlows.RestoreFromStaged` | fw/code/inc/cpld_recovery.h:128-130 | The recovery area is erased and the staged capsule copied there by the specified flash commands. |
| `CpldSteps.OnChipFlash.StoreCfm` | fw/code/inc/cpld_update.h:128-137 | Storing a word into CFM1 can only clear bits of that word and is one step. |
| `CpldSteps.OnChipFlash.EraseSector` | fw/code/inc/ufm_rw_utils.h:98-107 | Erasing a sector sets every bit of its half of CFM1, or of the status word, and is one step. |
| `CpldFlows.PerformCpldRecovery` | fw/code/inc/cpld_recovery.h:114-158 | The steps are those of the recovery plan, and the BMC is waited for exactly when no capsule is usable. |
| `CpldFlows.PerformCpldRecoveryUpdate` | fw/code/inc/cpld_update.h:149-172 | Copy, SVN bump and clearing of the status word are carried out in the specified order. |
| `CpldFlows.RecoveryMain` | fw/code/inc/recovery_main.h:46-99 | Reconfiguration reason and breadcrumb lead to exactly the planned steps. |
| `CpldFlows.CpldTypeFits` | fw/code/inc/cpld_recovery.h:128-130 | What these two ask of the staged payload, that it stays inside its 1MB, holds of every authentic payload of CPLD type. |
| `FlashFlows.RecoverFlash` | fw/code/inc/firmware_recovery.h:161-210 | The two walks of a watchdog recovery, over NOR flash, leave the image that the active manifest, the recovery capsule and the level determine. |
| `FlashFlows.UpdateFlash` | fw/code/inc/firmware_update.h:70-121 | The walk of an active update, over NOR flash, leaves the image that the staged capsule determines. |
| `FlashFlows.HandOver` | fw/code/inc/tmin1_update.h:197-238 | The copy from the BMC flash to the PCH flash, word by word through the CPLD, leaves the payload at the start of the PCH staging region. |
| `FlashFlows.PromoteCpldCapsule` | fw/code/inc/cpld_update.h:149-172 | Erase, copy and SVN bump leave the recovery area equal to the staged one and the minimum SVN raised to the staged capsule's. |
| `PlatformFlows.Firmware.constructor` | fw/code/inc/pfr_main.h:54-74 | The state before the first power-up, over two flashes and the page of provisioned data. |
| `PlatformFlows.Firmware.PerformWdtRecovery` | fw/code/inc/firmware_recovery.h:145-219 | Authenticating the recovery capsule and rebuilding the flash in place takes the whole state where the state machine goes; the firmware is lost (Astray) exactly where an authentic capsule cannot be used. |
| `PlatformFlows.Firmware.CheckBeforeUpdate` | fw/code/inc/capsule_validation.h:262-345 | The checks on the flash and the writes to the page of provisioned data take the whole state where the state machine goes, on all four verdicts. |
| `PlatformFlows.Firmware.PerformActiveFirmwareUpdate` | fw/code/inc/firmware_update.h:70-121 | Rebuilding the flash in place takes the whole state where the state machine goes, Astray where the capsule cannot be used; FirmwareUpdateByWords says word by word what that is. |
| `PlatformFlows.Firmware.AuthenticateAndRecoverSpiFlash` | fw/code/inc/flash_validation.h:103-243 | Authentication, promotion and rebuild in place on flash and page take the whole state where the state machine goes, which is Astray where the contents are not workable; the log tells what was authenticated. |
| `PlatformFlows.Firmware.PrepForOobPchFwUpdate` | fw/code/inc/tmin1_update.h:197-238 | Checking the capsule in one flash and copying it to the other takes the whole state where the state machine goes, which is Astray where the copy does not fit. |
| `PlatformFlows.Firmware.PromotePending` | fw/code/inc/tmin1_update.h:157-175 | Checking the staged capsule, copying it over the recovery region and raising the minimum SVN, in place, takes the whole state where the state machine goes, which is Astray where the copy does not fit. |
| `PlatformFlows.Firmware.PerformCpldRecoveryUpdate` | fw/code/inc/cpld_update.h:149-172 | The promotion of a CPLD capsule in place takes the whole state where the state machine goes. |
| `PlatformFlows.Firmware.AcmBiosWatchdogTimerHandler` | fw/code/inc/t0_watchdog_handler.h:290-409 | The state after a poll of the ACM/BIOS timer, with its three boot stages. |
| `PlatformFlows.Firmware.MbUpdateIntentHandlerForPch` | fw/code/inc/t0_update.h:60-129 | The method takes the state where the state machine goes; PchIntentEnters says which intents are acted upon and who enters reset. |
| `PlatformFlows.Firmware.MbUpdateIntentHandlerForBmc` | fw/code/inc/t0_update.h:151-231 | The method takes the state where the state machine goes; BmcIntentEnters says which intents are acted upon and who enters reset, BmcUpdateRuns, PchUpdateRuns and CpldUpdateRuns what they come to. |
| `PlatformFlows.Firmware.PerformT0Operations` | fw/code/inc/t0_routines.h:165-220 | After any sequence of polls, writes by components and power cycles, flashes, page and globals are those of the run, and keep everything that runs keep; a run that is Astray waits for the next power-up. |
| `PlatformEffects.OnlyAdmittedUpdates` | fw/code/inc/tmin1_update.h:63-141 | Acting on firmware bits of an intent writes the flash, or makes a promotion due, only if the staged capsule is an authentic firmware capsule of that flash with an SVN from the minimum to 64, the recovery image's one unless it is a recovery update. |
| `UpdateLaws.BmcIntentEnters` | fw/code/inc/t0_update.h:151-231 | An intent of the BMC is acted upon exactly when it has a bit of some update, fewer than three attempts failed, and it asks no active update of a flash without a valid recovery image; then the BMC enters reset once, and the PCH exactly for a BMC recovery, CPLD or PCH bit. Otherwise the register is cleared and at most a BMC recovery update made due. |
| `UpdateLaws.PchIntentEnters` | fw/code/inc/t0_update.h:60-129 | Likewise for the PCH: the PCH enters reset once, and the BMC exactly when the PCH active bit is absent. |
| `UpdateLaws.HandOverOutcome` | fw/code/inc/tmin1_update.h:197-238 | A refused PCH capsule counts as a failed attempt of the BMC, a certificate stops its key, and one that may proceed is copied to the PCH staging region and asked for with the PCH bits and the dynamic bit, or made due where the PCH recovery image is invalid. |
| `UpdateLaws.OtherResets` | fw/code/inc/t0_update.h:261-294 | After an update the platform is reset exactly when all five parts have booted and a promotion is due; a BMC that resets itself is put into reset by the firmware exactly when it had booted. |
| `UpdateLaws.UnprovisionedReleases` | fw/code/inc/transition.h:122-141 | Without provisioned data a reset authenticates nothing, touches no flash, starts no timer and releases each component that did not fail. |
| `UpdateLaws.FlashChangesInReset` | fw/code/inc/t0_routines.h:165-220 | A flash changes in no step of T0 but one that puts its component into reset, and one in which the component, released, writes it itself. |
| `UpdateRuns.UpdateTakesEffect` | fw/code/inc/tmin1_routines.h:201-283 | T-1 work on a flash with an admitted capsule that describes itself leaves the capsule's words wherever its manifest says so, keeps them through the authentication, and ends with the request gone, attempts cleared and no failure. |
| `UpdateRuns.BmcUpdateRuns` | fw/code/inc/t0_update.h:151-231 | An active update of the BMC from the intent on: the BMC alone is reset, leaves reset with the capsule's words and is watched, and nothing of the PCH changes. |
| `UpdateRuns.HandsOver` | fw/code/inc/tmin1_update.h:197-238 | A PCH capsule that may proceed is in the PCH flash, and the PCH's register has exactly the PCH bits and the dynamic bit. |
| `UpdateRuns.PchUpdateRuns` | fw/code/inc/t0_update.h:151-231 | An update of the PCH through the BMC flash from the intent on: the platform is reset, the PCH leaves reset with the capsule's words, the BMC with its flash as it was, and a promotion is due exactly for a recovery update. |
| `UpdateRuns.RecoveryUpdateRuns` | fw/code/inc/t0_update.h:261-294 | Once all has booted, a due recovery update puts the staged capsule's words into the recovery region, erased behind, raises the minimum SVN to that of its manifest, changes nothing else, and both components leave reset. |
| `UpdateRuns.InvalidRecoveryIsReplaced` | fw/code/inc/t0_update.h:60-231 | Where the recovery region is not valid, a recovery update resets the platform at once, and that reset puts the words of the staged capsule into the recovery region if it is the capsule of the active image; nothing is asked for or due any more. |
| `PlatformWork.CpldIntentWorks` | fw/code/inc/tmin1_update.h:86-112 | CPLD bits are put back on their own exactly while a firmware promotion is pending or a PCH update requested; otherwise one CPLD capsule is examined. No reconfiguration starts over a pending promotion. |
| `CpldRuns.CpldUpdateRuns` | fw/code/inc/tmin1_update.h:86-112 | A CPLD update from the intent on: a capsule that may proceed leads to a reconfiguration with both components held, and a promotion due exactly for a recovery bit; a decommission capsule sets every bit of the provisioned page; a refused one counts as a failed attempt and both components leave reset with their flashes as they were. |
| `CpldRuns.CpldPromotionRuns` | fw/code/inc/t0_update.h:261-294 | Once all has booted, a due CPLD promotion copies the staged 1MB to 0x7F00000 word for word, raises the minimum SVN, is no longer due, changes nothing else, and both components leave reset. |
| `PlatformWork.ActOnBmcWorks` | fw/code/inc/tmin1_update.h:63-113 | Acting on the BMC intent leaves the PCH side alone and settles the register: all bits are gone, or only CPLD bits are left and no CPLD capsule was examined. |
| `PlatformWork.ActOnPchWorks` | fw/code/inc/tmin1_update.h:126-141 | Acting on the PCH intent clears it, leaves the BMC side alone, examines no CPLD capsule and never decommissions or reconfigures. |
| `PlatformEffects.HandedOverCapsule` | fw/code/inc/tmin1_update.h:197-238 | A PCH capsule found good in the BMC flash lies in the PCH staging region afterwards, word for word and as authentic, with nothing else changed there, and the PCH is asked to use it. |
| `PlatformWork.ProcessBothWorks` | fw/code/inc/tmin1_update.h:155-182 | After pending updates are worked off, none is pending on either flash and no CPLD promotion is due. |
| `PlatformWork.OperateOnBmcWorks` | fw/code/inc/tmin1_routines.h:201-236 | The T-1 work on the BMC flash touches nothing of the PCH, keeps the recovery levels in step, and ends with the BMC held back altogether or its flash vouched for. |
| `PlatformWork.OperateOnPchWorks` | fw/code/inc/tmin1_routines.h:246-273 | The same for the PCH flash, with its intent worked off. |
| `PlatformWork.Tmin1Works` | fw/code/inc/tmin1_routines.h:292-317 | T-1 on both flashes leaves either component held back altogether or its flash vouched for, promotes at most the one CPLD capsule that was due, and settles the CPLD bits with all pending promotions worked off first. |
| `PlatformEffects.ResetReleasesIff` | fw/code/inc/transition.h:99-136 | A platform reset of a provisioned platform locks down exactly when the protect-in-transit check fails or both flashes fail altogether, and then holds both components; otherwise, unless it reconfigures or is Astray, it releases the BMC exactly when its flash did not fail altogether and the PCH exactly when neither did. |
| `PlatformEffects.PowerUpReleasesIff` | fw/code/inc/pfr_main.h:54-74 | From power-up on a provisioned platform the firmware stays on its way exactly when the signed contents it goes by can be used; then the BMC starts exactly when its flash has a region to start from and the PCH exactly when both have, and with none in either the platform locks down. |
| `PlatformEffects.BmcOnlyResetSparesPch` | fw/code/inc/transition.h:172-217 | A reset of the BMC alone changes nothing of the PCH, its flash and intent included, and releases the BMC exactly when its flash did not fail altogether. |
| `PlatformEffects.PchOnlyResetSparesBmc` | fw/code/inc/transition.h:255-284 | A reset of the PCH alone changes nothing of the BMC and releases the PCH exactly when neither flash failed altogether. |
| `PlatformEffects.WatchdogHasThreeTries` | fw/code/inc/t0_watchdog_handler.h:75-124 | In every state of a run an expired timer that is on and running (ResetArms says after which resets it is) resets the platform with a recovery requested while fewer than three happened since the level was reset; after three it is turned off, and no later expiry does anything. |
| `PlatformTimers.ResetArms` | fw/code/inc/tmin1_routines.h:57-163 | After a platform reset of a provisioned platform that ends running, the BMC's timer runs exactly when the BMC was released, its recovery image is valid and the PCH flash did not fail altogether; ME's exactly when the PCH was released with a valid recovery image; the ACM/BIOS timer does not; nothing counts as booted and no timer is turned off. |
| `PlatformTimers.AloneArms` | fw/code/inc/transition.h:172-275 | After a reset of one component its own timer runs on the same conditions, its own boot progress is gone, and the timers of the other run on. |
| `PlatformTimers.ReleasedIsWatched` | fw/code/inc/t0_watchdog_handler.h:75-124 | A component released under watch whose timer is on is recovered if it hangs: with fewer than three recoveries the expiry resets the platform with a recovery requested. |
| `PlatformTimers.PlatformResetArmsBios` | fw/code/inc/t0_routines.h:72-118 | The PCH's own reset, seen while the ACM/BIOS timer does not run and with a valid recovery image, starts that timer and forgets ACM's and BIOS's progress; its expiry or a failed authentication then resets the platform with a recovery requested. |
| `PlatformTimers.FailedAuthenticationAsks` | fw/code/inc/t0_watchdog_handler.h:290-409 | A report of failed authentication, ACM's until ACM or IBB has booted and BIOS's from then on, resets the platform with a recovery of the PCH requested while recoveries are left. |
| `PlatformTimers.ReportsBoot` | fw/code/inc/t0_watchdog_handler.h:141-409 | Over any reports in time, in any order: BMC and ME have booted exactly when they said so, the stages of BIOS exactly when it reported the first and the second complete, ACM exactly when it started before the first; the recovery level of the BMC starts over when it has booted, that of the PCH when ME and BIOS have. |
| `PlatformTimers.BootCompletesIff` | fw/code/inc/t0_watchdog_handler.h:141-409 | A watched platform has booted exactly when every component reported it; then no timer runs and both recovery levels start over. |
| `PlatformTimers.ResetIsWatched` | fw/code/inc/tmin1_routines.h:57-163 | A platform reset that releases both components with valid recovery images leads to such a watched platform. |
| `PlatformTimers.PowerUpIsWatched` | fw/code/inc/tmin1_routines.h:57-163 | So does a power-up of a provisioned platform. |
| `PlatformEffects.RecoveriesRunOut` | fw/code/inc/t0_watchdog_handler.h:75-409 | Over any part of any run in which a component completes no boot and power stays on, whatever resets, updates and intents it holds, its recoveries only add up, to three at most, and after the third no other is requested. |
| `PlatformSteps.PostUpdateKeeps` | fw/code/inc/t0_update.h:261-295 | The routine after an update keeps the invariants of runs, and is the one that promotes a CPLD capsule, only with every component booted and the status word set. |
| `PlatformSteps.PollKeeps` | fw/code/inc/t0_routines.h:177-193 | Every other poll keeps them and promotes none. |
| `PlatformSafety.StepKeeps` | fw/code/inc/t0_routines.h:165-220 | Every step keeps the invariants below, only the routine after an update promotes a CPLD capsule, and unless it decommissions the platform a step only clears bits of the provisioned data if what comes from outside does. |
| `PlatformSafety.ReleasedOnlyVerified` | fw/code/inc/transition.h:122-284 | In every run, up to where it is Astray, a component released on a provisioned platform was put into reset, authenticated since with the outcome that its active region is valid, and released with exactly the contents that authentication left, untouched since. |
| `PlatformSafety.VerifiedMeans` | fw/code/inc/flash_validation.h:103-243 | Such an outcome means a valid active region or an authentic capsule to rebuild from, and, if authentic contents describe themselves, an active region that authenticates in the released flash. |
| `PlatformSafety.WatchdogRecoveryIsBounded` | fw/code/inc/t0_watchdog_handler.h:75-124 | In every run each level mask is 4, 8, 16 or 32 and equals 4 shifted by the recoveries since the last reset of the level, at most three; a requested recovery implies 4, 8 or 16. |
| `PlatformSafety.KthRecovery` | fw/code/inc/firmware_recovery.h:145-219 | Word by word, for k = 1, 2, 3: the k-th recovery rebuilds exactly the dynamic regions with protection bit 4, 8, 16, and, if any static region has one of these bits, all static ones with the manifest. |
| `PlatformSafety.RequestedRecoveryIsCarriedOut` | fw/code/inc/tmin1_routines.h:201-273 | T-1 work on a flash carries out a requested watchdog recovery, once, exactly when the recovery capsule authenticates and can be used; otherwise the request stays. |
| `PlatformSafety.NoReconfigurationWhilePending` | fw/code/inc/tmin1_update.h:86-112 | In every run no reconfiguration for a CPLD update or a decommission starts while a firmware recovery update is pending. |
| `PlatformSafety.PromotedOnlyAfterTimedBoot` | fw/code/inc/t0_update.h:261-295 | In every run a CPLD capsule is promoted only by the routine after an update, with every component booted and the status word set. |
| `PlatformSafety.FloorsAndCancellationsLast` | fw/code/inc/ufm_utils.h:120-178 | In every run, over power cycles and lost power, no minimum SVN goes down and no cancelled key comes back unless the provisioned data is erased from outside or the platform is decommissioned. |
| `PlatformSafety.CpldIntentKeptIff` | fw/code/inc/t0_update.h:151-231 | When the protect-in-transit check passes and unless the firmware is lost on the way, CPLD bits of a BMC intent are acted upon or put back exactly when attempts are left and no firmware part of the same intent is turned down or made due for want of a valid recovery image; otherwise they are lost. |
| `PlatformSafety.CpldIntentCanBeLost` | fw/code/inc/t0_update.h:151-231 | When the protect-in-transit check passes and the BMC recovery image is invalid, an intent for a BMC recovery update and a CPLD update leaves no CPLD bits, and no CPLD capsule is examined. |
| `PlatformSafety.DeferredCpldIntentIsHandled` | fw/code/inc/tmin1_update.h:86-112 | CPLD bits put back by one platform reset lead to the capsule being examined the next time the intent is read, if the protect-in-transit check passes both times and no new intent arrives, exactly when fewer than three attempts failed. |

## Left out

What is taken for granted, as the code does:

- FlashValidation.AuthenticateAndRecover: requires that what the code decides on can be carried out
  (`Workable`): the copy of a capsule it promotes fits, and the capsule it rebuilds from has a manifest that
  ends, regions of whole pages inside the flash, bitmaps for them, and lies apart from what it rebuilds. The
  code looks at signatures only; `FlashValidation.WorkableIff` says exactly when its decisions can be carried
  out. The same is asked of `Rebuild.RecoverAtLevel` and `Rebuild.DecompressCapsule`.
- PfmValidation.RebuildAuthenticatesIff: is about capsules that cover what they rebuild (`Shaped`,
  `CompWithinActive`): hashed regions are whole pages in the active bitmap, away from the manifest's own 64KB,
  and pages of rebuilt regions in the compression bitmap are in the active one.
- FlashValidation.AuthenticatedImageIsValid: requires that an authentic capsule covers what it rebuilds and that
  its manifest describes the pages it encodes (`Truthful`).
- UpdateEffect.RecoveryUpdateCompletes: requires that nothing else changes the flash between the two halves of
  the update, and that the capsule fits the recovery region.
- UpdateLaws.FirmwareUpdateByWords: tells the words of pages that are in the active bitmap, or not in the
  compression bitmap, or in no rebuilt region; a page that is copied without being erased keeps bits of what it
  held. The same goes for `RecoveryMatrix.MatrixRows`, `UpdateRuns.UpdateTakesEffect` and what follows from it.
- UpdateRuns.BmcUpdateRuns: is about a capsule that describes itself and a flash whose recovery region is good
  after the update (`UpdateReady`); `UpdateRuns.PchUpdateRuns`, `UpdateRuns.RecoveryUpdateRuns` and
  `CpldRuns.CpldPromotionRuns` ask the same of the flashes they release, and that nothing else is requested.
- Authentication.IsSignatureValidAt: a payload whose length field runs past the end of the flash counts as
  invalid; the code would read beyond the window.
- PfmValidation.IsActiveRegionValid: definitions that run on to the end of the flash, a hashed region that does
  not lie in it on word boundaries, and bus or rule numbers of 0 count as invalid; the code would read beyond
  the window or the table.
- WriteEnable.ApplySpiWriteProtection: requires regions that are contiguous from address 0 to a multiple of
  512KB, as fw/code/inc/pfm_utils.h:107-109 assumes.
- CpldUpdate.LastGoodCopySurvives: a good image is one that the hardware starts and whose last word is not
  zero, so that it does not read as a breadcrumb; passes of the ROM image are taken to be of the kind that
  `CpldUpdate.PassKeepsGoodCopyIff` finds to be the safe one, at the time they start.
- CpldUpdate.PassKeepsGoodCopyIff: assumes that the hardware starts no image whose first word is erased.
- CpldUpdate.TwoPassesSuffice: assumes that the images in signed CPLD capsules start, and that nothing authentic
  of another type lies at the two addresses when power comes back.
- CpldFlows.RestoreFromStaged: assumes that an authentic staged payload is at most 1MB long, which the code does
  not check before copying; a payload of the CPLD type always is (`CpldFlows.CpldTypeFits`).
- CpldFlows.PerformCpldRecovery: assumes the same when the recovery capsule is restored from the staged one.
- CpldFlows.RecoveryMain: assumes the same of the recovery it may start.
- Addresses and lengths are unbounded integers where the code uses 32 bits; the flash bounds in the contracts
  keep them below 2^32.

What the model does not have:

- PlatformFlows.Firmware.PerformWdtRecovery: makes a check the code does not make: where the authentic recovery
  capsule cannot be rebuilt from, the mode becomes `Astray`, and the model says nothing of what the code does
  from there to the next power-up.
- PlatformFlows.Firmware.PerformActiveFirmwareUpdate: becomes `Astray` likewise where the admitted capsule cannot
  be rebuilt from.
- PlatformFlows.Firmware.AuthenticateAndRecoverSpiFlash: becomes `Astray` likewise where the contents are not
  workable, although the code marks the region valid and goes on to release it; and it does not include the
  write protection that follows, which is modelled on its own in `WriteEnable`.
- PlatformFlows.Firmware.PrepForOobPchFwUpdate: becomes `Astray` likewise where the capsule does not fit the other
  flash.
- PlatformFlows.Firmware.PromotePending: becomes `Astray` likewise where the staged capsule does not fit the
  recovery region.
- PlatformFlows.Firmware.PerformT0Operations: a run that is `Astray` does nothing more until a power-up.
- PlatformSafety.ReleasedOnlyVerified: speaks of runs up to where they are `Astray`; a release the code makes
  after acting on contents that are not workable is not in them.
- PlatformFlows.Firmware.PerformTmin1Operations: takes the outcome of the protect-in-transit check and the
  force-recovery pin as inputs; the check itself is in `Provisioning`.
- PlatformFlows.Firmware.AcmBiosWatchdogTimerHandler: takes expiry and checkpoint messages as inputs, without
  counting time; pausing and resuming a timer changes nothing else.
- Both reset lines of the BMC are one here, and one poll of the T0 loop is one step; a reset runs to its end
  before anything else happens, and power loss inside it is covered by the promotion and CPLD lemmas only.
- Power loss inside a rebuild: the next T-1 entry authenticates again. Inside a write of provisioned data it is
  an input: power comes back with a page that has bits cleared.
- SMBus filtering rules written to the relays, and the page that the relay memory holds.
- SHA-256 and ECDSA arithmetic and the crypto block's registers.
- GPIO sequencing, SPI controller registers, mux and address mode, sleeps and the hardware watchdog.
- RFNVRAM traffic: the stored ID is an input of the protect-in-transit check.
- Mailbox logging of states, errors, versions and hashes, except the registers the logic reads back.
- Waiting for a capsule from the BMC in `boot_bmc_and_wait_for_recovery_update`: its polling loop; what the BMC
  then provides is the next event of the run.
- Top swap for the PCH at the third recovery level, and code for several nodes, which this platform leaves out.
