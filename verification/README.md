# First-stage boot loader: a verified model

This project models the parts of the FM_ZQ first-stage boot loader where a mistake is easy and costly, and
proves what they promise, for every image, every length and every run. `dafny verify dfyconfig.toml` checks it.

| file | what it models |
|---|---|
| `Bytes.dfy` | byte strings, 32-bit words, big-endian numbers, memory writes seen as splices |
| `Sha256.dfy` | the three ways of feeding the SHA-256 engine |
| `AesSm4.dfy` | counter blocks and the two ways of feeding the tag engine |
| `KeyRolling.dfy` | key-rolling decryption of a partition over itself, against decryption to another place |
| `BlockChain.dfy` | which blocks that decryption covers, and where each is read |
| `Sac.dfy` | the walk over an encrypted bitstream, and sending it directly or through a buffer |
| `Rsa.dfy` | the byte order of the RSA result and the PKCS#1 v1.5 check |
| `Power.dfy` | the registers of the R5 pair, and powering up its memory |
| `Header.dfy` | header checksums, the chain of partition headers, the list for the ARM Trusted Firmware |
| `Tcm.dfy` | the TCM remap and ECC initialisation, and which images an initialisation wipes |
| `BootDevice.dfy` | which device the image is read from, and what reading it leaves in the header array |
| `FlashImage.dfy` | images that hold a given chain of headers |
| `Loader.dfy` | validation, copy and registration of one partition, and the handoff table |
| `Handoff.dfy` | the handoff loop with its register writes |
| `Released.dfy` | what a whole pass of that loop leaves in the registers, and in which order |
| `BootMain.dfy` | the stage machine of `main` |
| `EndToEnd.dfy` | what holds of every run: which partition each core is started with, what becomes of the R5 pair and its memory |
| `Bounds.dfy` | how the loads of every run end, and when the run stays inside its two arrays |
| `Dfu.dfy` | the USB firmware-upgrade requests and the wait for a complete download |
| `Gmac.dfy` | the Ethernet test pattern and its checker |

## How the system is seen

- Hardware engines are uninterpreted. A hash or tag engine is the string of bytes it consumed; the cipher is a
  function of key source, registers and the bytes that go through it; registers of the reset and configuration
  blocks are 32-bit words changed by the source's read-modify-writes, and a log keeps the order of the writes.
- Memory during decryption is one byte string addressed from zero. An access outside it is an outcome of its own
  (`OutsideMemory`, and `OutsideImage` for bitstreams), so no wrap-around of addresses has to be excluded: a block
  length that would wrap a 32-bit sum always ends there.
- Code that updates state is a class or a method with loops; each such method is tied by its `ensures` to a
  function of the old state, and the results are lemmas about those functions.
- The configuration is the shipped one (`FM_ZQ_fsbl/fsbl_config.h`): early handoff and the skip of a configured
  PL are compiled out, PS DDR is present. `FSBL_SECURE` is off in it; the loader takes it as a flag and covers
  both settings.
- Drivers and crypto steps appear in the loader as the statuses they return (`Drivers`); none of them returns the
  code 0x55 that the loader itself uses for a partition that belongs to someone else.
- Two arrays are written without a bounds check: fifteen partition headers and ten handoff entries. Where the source
  would store outside one of them, or load from a slot that does not exist, the model stops and says so (`inside`,
  `Overrun`, `LeftArray`); nothing about the image is assumed, and the exact conditions are stated.
- A run starts from two devices (`BootMain.Inputs`): the second one is read if the table of the first names it. The
  later stages see the header array and the number of partitions (`BootMain.RunOf`).
- The loader and the handoff write the same registers of the R5 pair (`Power.RpuControl`). What `main` does is
  described from the state that the TCM part of stage 1 leaves (`Tcm.TcmBanks.constructor`) on.
- A TCM initialisation for the A53 or for the pair reaches all four banks: TCM is combined then, and the 256 KB that
  are filled hold the banks of both cores (`Tcm.ReachedBy`).
- The loader runs on A53-0, on R5-0, or on the R5 pair in lock step, the processors it tells apart. Its R5 builds
  accept DDR addresses from 0x100000 on only (`Tcm.DdrStart`).

## Results that are not what one might expect

- Both hashes and both tags are standard only below 2^29 bytes: the bit length is a 32-bit product. The lemmas
  give the exact condition. The device-chunked hash also loses the last 64 bytes for 8 of every 1024 lengths.
- TCM status is assigned, not accumulated, so on R5-0, or on the A53 after a reset of the master only, loading
  R5-0, R5-1 and R5-0 again wipes the first image (`Tcm.AlternationWipes`), and so does a first lock-step image behind
  one for a split core (`Tcm.LockStepWipes`). `Tcm.WipedIff` says exactly when it happens; on the A53 after a system
  reset it never does.
- Loading a TCM image halts the core it is for, also one that was running (`EndToEnd.LoadedR5`), and a run that then
  locks down leaves it halted (`EndToEnd.NoLoopStartsNoR5`). A loop over the table that stops has already started the
  cores before the entry that stops it (`EndToEnd.StoppedLoopR5`).
- An image of more than fifteen headers leaves the header array in stage 2, before anything is loaded and whatever the
  headers say (`Bounds.SixteenRunLeavesHeaders`). An image without partitions on a second device lets the loader work
  through the headers of the first, up to a slot that does not exist (`Bounds.StaleRunLeavesHeaders`).
- Only the length of a TCM image is checked, so an accepted one can run past its bank; `Tcm.StaysInTcmIff` gives the
  condition.
- The handoff table stays inside its slots exactly if the partitions to be handed over name at most ten CPUs
  (`Bounds.SlotsIff`); header fields allow more, and eleven accepted partitions leave it
  (`Bounds.EleventhLeavesTable`).
- Authentication and in-place decryption use the address in the header, so they meet the copied image exactly when it
  was not remapped to the TCM (`Loader.AuthenticatesWhatWasCopied`, `Loader.DecryptsWhatWasCopied`). The hash of a PS
  image is taken of the copy, that of a PMU image for a TCM address is not (`Loader.HashesWhatWasCopied`).
- A bitstream is hashed and downloaded from the temporary address even if its header had it copied elsewhere
  (`Loader.DownloadsWhatWasCopied`). Accepted headers on the failing sides are given.
- Stage 2 cannot tell the status for JTAG mode from the same number returned by a driver: the run goes to the handoff
  with an empty table (`Bounds.ReachedIff`).
- Low vectors of the second split R5 are copied inside the first one's bank (`Released.VectorsComeFromImage`).
- An A53 started in 32-bit state is told high or low vectors, but no address: its reset address is what it was
  (`Released.AddressToldIff`, `Released.RvbarOf32BitCore`).
- A partition for the PMU, or for a CPU number that is no core, is loaded and entered, and then fails the handoff
  (`EndToEnd.LoopGoesIff`).
- The comment on the Ethernet pattern shows the 16-bit part starting again from 0 (`Examples/fmsh_gmac_example.c`,
  lines 550 to 557); the code goes on from 256, and so does the model.

## Model

| member | source | states |
|---|---|---|
| Sha256.PaddedIsLeastWholeBlocks | FM_ZQ_fsbl/fmsh_sha256.c:72-88 | the reference padding (section 5.1.1 of FIPS 180-4) fills whole 64-byte blocks with the least zero fill |
| Sha256.PaddedIs | FM_ZQ_fsbl/fmsh_sha256.c:72-105 | its bytes: the message, a one bit, zeros, and the length in bits as a 64-bit number |
| Sha256.PaddedInjective | FM_ZQ_fsbl/fmsh_sha256.c:72-105 | different messages below 2^61 bytes have different padded forms |
| Sha256.ShaEngine.Sha256 | FM_ZQ_fsbl/fmsh_sha256.c:60-133 | if the DMA finishes the engine has consumed message and padding and memory is put back byte for byte; if not the padding stays behind the message |
| Sha256.ShaEngine.PartSha256 | FM_ZQ_fsbl/fmsh_sha256.c:143-159 | a part is fed as its whole 32-bit words, and nothing for fewer than four bytes |
| Sha256.ShaEngine.LinearBurstSha256 | FM_ZQ_fsbl/fmsh_sha256.c:173-243 | the byte-buffered path feeds exactly the whole words of the message, then of its padding |
| Sha256.ShaEngine.NoneLinearBurstSha256 | FM_ZQ_fsbl/fmsh_sha256.c:253-362 | the device-chunked path feeds message and padding, less 64 bytes when the tail spans two buffers |
| Sha256.CodePaddingIsStandard | FM_ZQ_fsbl/fmsh_sha256.c:72-105 | the in-place feed is the standard's padded message if and only if the message is shorter than 2^29 bytes |
| Sha256.LinearFeedIsStandard | FM_ZQ_fsbl/fmsh_sha256.c:173-243 | the byte-buffered feed is standard if and only if the length is a multiple of 4 below 2^29 |
| Sha256.DeviceFeedIsStandard | FM_ZQ_fsbl/fmsh_sha256.c:300-345 | the chunked feed is standard if and only if length mod 1024 is below 1016 (and length below 2^29); else it lacks the last 64 bytes |
| AesSm4.IvToY0 | FM_ZQ_fsbl/fmsh_aes_sm4.c:299-313 | the block is the pre-counter block J0 of NIST SP 800-38D, section 7.1 |
| AesSm4.IvToY1 | FM_ZQ_fsbl/fmsh_aes_sm4.c:283-297 | the block, read backwards, is inc32 of J0 |
| AesSm4.FeedInPlace | FM_ZQ_fsbl/fmsh_aes_sm4.c:677-709 | the engine consumes data, zero pad and length field, and memory is as before |
| AesSm4.FeedFromDevice | FM_ZQ_fsbl/fmsh_aes_sm4.c:527-580 | for any buffer of a positive number of words the chunks and the tail are the whole words of data and tail |
| AesSm4.LinearTagFeedIsGhashInput | FM_ZQ_fsbl/fmsh_aes_sm4.c:677-709 | the in-place feed is the GHASH input of section 7.1 for empty additional data if and only if the data is shorter than 2^29 bytes |
| AesSm4.LinearTagFeedIs | FM_ZQ_fsbl/fmsh_aes_sm4.c:677-709 | for every length the in-place feed is the GHASH input with the low 32 bits of the length |
| AesSm4.DeviceTagFeedIsGhashInput | FM_ZQ_fsbl/fmsh_aes_sm4.c:527-580 | the chunked feed is the same stream if and only if the length is also a multiple of 4 |
| KeyRolling.CtrTransfer | FM_ZQ_fsbl/fmsh_aes_sm4.c:811-818 | a transfer to the same or a lower address reads only untouched input and writes the engine's output |
| KeyRolling.CtrInPlace | FM_ZQ_fsbl/fmsh_aes_sm4.c:782-829 | padding over the tag and putting it back leaves nothing but the output behind |
| KeyRolling.BlockMeans | FM_ZQ_fsbl/fmsh_aes_sm4.c:844-941 | a block is refused for its tag if and only if the 16 bytes behind it are not the tag of its bytes (device key for the header and the first block, the header's IV for the header); data, key area and registers are the cipher's output block by block |
| KeyRolling.DecryptBlk | FM_ZQ_fsbl/fmsh_aes_sm4.c:844-941 | one block in place: the result is that, and the same as from an untouched image; a refused tag leaves memory unchanged; nothing below the destination moves |
| KeyRolling.DecryptBlockLocal | FM_ZQ_fsbl/fmsh_aes_sm4.c:945-1025 | what lies below a block does not decide how it decrypts |
| KeyRolling.DecryptNext | FM_ZQ_fsbl/fmsh_aes_sm4.c:965-1025 | one iteration: the plaintexts before it stay, the next one follows them, no unread ciphertext or tag is hit |
| KeyRolling.SecureAesDecrypt | FM_ZQ_fsbl/fmsh_aes_sm4.c:945-1030 | decryption over the image ends, with the status of decryption to another place; memory at the load address is the concatenation of the block plaintexts and then the spill of that decryption, nothing else (what that decryption is: BlockChain.DecryptionMeans and DecryptsLargestFit) |
| BlockChain.WalkTakesLargestFit | FM_ZQ_fsbl/fmsh_aes_sm4.c:965-1025 | from any point of the loop on, exactly the longest run of blocks within the remaining length is decrypted |
| BlockChain.DecryptsLargestFit | FM_ZQ_fsbl/fmsh_aes_sm4.c:965-1025 | the plaintext is the largest prefix of the chain not longer than UnencryptedLength; success if and only if the chain ended or the next block is too long (and its announced end fits 32 bits); the spill is the start of the last block's decrypted key area, empty if and only if that block is a multiple of 16 bytes |
| BlockChain.BlockAddress | FM_ZQ_fsbl/fmsh_aes_sm4.c:965-1025 | block k is read behind 64(k) bytes of key areas and tags and the data of its predecessors |
| BlockChain.DecryptionMeans | FM_ZQ_fsbl/fmsh_aes_sm4.c:965-1025 | every block that is decrypted carries its tag, and the plaintext is the cipher's output for the blocks in turn; success if and only if a block names no successor or the length allows no further one, else the next block is outside memory, has another tag or does not come through, as the status says |
| Sac.Port.SendBuffered | FM_ZQ_fsbl/fmsh_sac.c:575-615 | full buffers, remainder and key words are, for any buffer of at least 48 bytes, the words of the block in order |
| Sac.Port.NoneSecureDownload | FM_ZQ_fsbl/fmsh_sac.c:277-349 | the buffered download of a plain bitstream sends exactly its words, although a last copy of part of a buffer reads a whole one |
| Sac.Port.KeyRollingDownload | FM_ZQ_fsbl/fmsh_sac.c:443-774 | direct and buffered sending give the same status, blocks and words, those of the walk; every block was announced by the words before it and its tag was right for them |
| Sac.DownloadCoversPrefix | FM_ZQ_fsbl/fmsh_sac.c:534-767 | blocks lie back to back, every word is sent or is a tag, and success stops at the first boundary at or past the length, or at an empty block |
| Sac.DownloadIsVerified | FM_ZQ_fsbl/fmsh_sac.c:485-767 | a block is sent only if its tag is right for the words sent before it; success if and only if a boundary at or past the length or an announced length of zero is reached, else the next block is outside the image or its tag is wrong, as the status says |
| Rsa.SwappedWord | FM_ZQ_fsbl/fmsh_secure_rsa.c:607-625 | a swapped word stored by a little-endian core is its big-endian form, and swapping is its own inverse |
| Rsa.RsaGetData | FM_ZQ_fsbl/fmsh_secure_rsa.c:197-223 | the bytes are I2OSP (section 4.1 of RFC 8017) of the number in the engine's RAM, for any key size |
| Rsa.ResultIsI2osp | FM_ZQ_fsbl/fmsh_secure_rsa.c:197-223 | swapping each word and reversing their order turns little-endian digits into the octet string |
| Rsa.RecreatePaddingAndCheck | FM_ZQ_fsbl/fmsh_authentication.c:283-365 | success if and only if all 512 bytes equal the expected encoding; the copy in fmsh_secure_rsa.c (513-595) is the same text |
| Rsa.ExpectedIsStandard | FM_ZQ_fsbl/fmsh_authentication.c:276-303 | the expected bytes are EMSA-PKCS1-v1_5 (section 9.2 of RFC 8017) with DER for SHA-256 or SHA3-384 if and only if the hash has 32 or 48 bytes |
| Rsa.AcceptedNumber | FM_ZQ_fsbl/fmsh_secure_rsa.c:197-223 | the octets are a given string if and only if the number is OS2IP of it |
| Rsa.CheckSignature | FM_ZQ_fsbl/fmsh_authentication.c:509-519 | after a finished RSA run, a 4096-bit signature is accepted if and only if the number left by the engine is the encoded message for the given hash bytes |
| Header.ValidateChecksum | FM_ZQ_fsbl/fmsh_header.c:234-284 | success if and only if there are two words or more and their sum is 2^32 - 1 modulo 2^32 |
| Header.AppendedChecksum | FM_ZQ_fsbl/fmsh_header.c:234-284 | appending the inverted sum always gives an accepted buffer |
| Header.SingleWordChange | FM_ZQ_fsbl/fmsh_header.c:234-284 | changing any one word of an accepted buffer is rejected |
| Header.Layout | FM_ZQ_fsbl/fmsh_header.h:244-280 | where each word that decides a boot lies in the table and in a header, and where the next header is |
| Header.AtfListIs | FM_ZQ_fsbl/fmsh_header.c:1128-1148 | the firmware list has an entry, in order, for each header but the first two with an execution address and an A53 named or meant, and for no other |
| Header.ReadStatusIff | FM_ZQ_fsbl/fmsh_header.c:1040-1161 | reading succeeds if and only if table and chain can be read and the table is checksummed |
| Header.ImageHeader.ReadImageHeader | FM_ZQ_fsbl/fmsh_header.c:1040-1161 | a sixteenth header is stored if and only if the table names more than 15 partitions and everything before it can be read; otherwise the status is that of the first step that fails, header k becomes the k-th node of the chain and the slots behind the chain stay, and the firmware list becomes the first eight entries called for, or stays if there are none |
| BootDevice.ValidateHeader | FM_ZQ_fsbl/fmsh_header.c:57-200 | the checks before the image header only stop the reading; otherwise array, list and status are those of the reading |
| BootDevice.BootDeviceInitAndValidate | FM_ZQ_fsbl/fmsh_initialization.c:1065-1128 | the second device is read exactly if the table of the first names one, over what the first left |
| BootDevice.FoundImage | FM_ZQ_fsbl/fmsh_initialization.c:1065-1128 | an image that is found has at most 15 partitions, and their headers are the nodes of its chain |
| FlashImage.HeadersAreFound | FM_ZQ_fsbl/fmsh_header.c:1040-1161 | every chain of up to 15 headers is what stage 2 finds on some device |
| FlashImage.MoreOverrun | FM_ZQ_fsbl/fmsh_header.c:1104-1114 | images of more headers overrun the array, whatever the headers say |
| FlashImage.HeadersStay | FM_ZQ_fsbl/fmsh_initialization.c:1036-1053 | a second image without partitions leaves the headers of the first in the array |
| Header.AtfFlagsDecode | FM_ZQ_fsbl/fmsh_header.c:977-1029 | execution state, endianness, security and exception level decode back for all attributes, the CPU if and only if an A53 is named |
| Tcm.PlacedAt | FM_ZQ_fsbl/fmsh_partition_load.c:473-559 | the global address of every load address, and when an image does not fit |
| Tcm.RemapAgreement | FM_ZQ_fsbl/fmsh_partition_load.c:473-702 | for validated addresses the memory configuration takes a TCM branch if and only if the address was remapped |
| Tcm.RemapDisagreement | FM_ZQ_fsbl/fmsh_header.c:448-540 | without validation the two can differ |
| Tcm.RemapInjective | FM_ZQ_fsbl/fmsh_partition_load.c:473-559 | no two valid load addresses of a core are sent to the same place |
| Tcm.SplitCoresDisjoint | FM_ZQ_fsbl/fmsh_partition_load.c:473-559 | TCM images of R5-0 and R5-1 cannot overlap |
| Tcm.StaysInTcmIff | FM_ZQ_fsbl/fmsh_partition_load.c:473-559 | every byte of an accepted image is in the TCM of its core if and only if offset in the bank plus length is at most a bank, or in lock step the address plus length at most four banks |
| Tcm.ImageLeavesItsBank | FM_ZQ_fsbl/fmsh_partition_load.c:473-559 | accepted images on the other side, for a bank and for the combined banks |
| Tcm.PlacedOnSplitCore | FM_ZQ_fsbl/fmsh_partition_load.c:473-559 | a remapped image of a split core starts in one of its banks and is no longer than a bank |
| Tcm.TcmBanks.constructor | FM_ZQ_fsbl/fmsh_initialization.c:578-618 | status, banks and R5 registers when loading starts, with and without a system reset |
| Tcm.HeldAtBoot | FM_ZQ_fsbl/fmsh_initialization.c:592-618 | on the A53 after a system reset both R5 cores are in reset and halted, and their TCM is combined |
| Tcm.TcmBanks.TcmEccInit | FM_ZQ_fsbl/fmsh_initialization.c:446-563 | which ranges are filled, and the status that replaces the old one |
| Tcm.TcmBanks.ConfigureMemory | FM_ZQ_fsbl/fmsh_partition_load.c:576-702 | banks are initialised exactly for a TCM destination whose status bits are not set; the memory is powered up for a TCM destination of another core |
| Tcm.EccRemembersLastCore | FM_ZQ_fsbl/fmsh_partition_load.c:603-697 | the status names the last split core only, until a lock-step initialisation |
| Tcm.NeverWiped | FM_ZQ_fsbl/fmsh_initialization.c:578-618 | after a system reset on the A53, or on the R5s in lock step, no loaded image is wiped |
| Tcm.WipedIff | FM_ZQ_fsbl/fmsh_partition_load.c:603-697 | on any other run a split-core image is wiped if and only if a later image retakes its banks, the first lock-step image those of both cores |
| Tcm.LockStepNeverWiped | FM_ZQ_fsbl/fmsh_partition_load.c:660-697 | a lock-step image survives whatever follows |
| Tcm.AlternationWipes | FM_ZQ_fsbl/fmsh_initialization.c:546-550 | the shortest run that loses an image, on R5-0 and on the A53 after a reset of the master only |
| Tcm.LockStepWipes | FM_ZQ_fsbl/fmsh_initialization.c:461-490 | the shortest run in which a lock-step image wipes one of the second core |
| Loader.AcceptedHeader | FM_ZQ_fsbl/fmsh_header.c:581-751 | what an accepted header promises, both ways: lengths grow exactly where encryption and a certificate add to them, an in-place image is plain and in the linear flash |
| Loader.CopiedTo | FM_ZQ_fsbl/fmsh_partition_load.c:784-880 | which images are copied, how many bytes, and to which address |
| Loader.LoadsIff | FM_ZQ_fsbl/fmsh_partition_load.c:1464-1521 | a load succeeds if and only if its header is accepted, the image fits, and copy, authentication, hash, decryption and download succeed where the header calls for them |
| Loader.SkippedIff | FM_ZQ_fsbl/fmsh_header.c:911-962 | a load is skipped if and only if the header is checksummed and someone else owns the partition |
| Loader.BootPs.PartitionHeaderValidation | FM_ZQ_fsbl/fmsh_header.c:911-962 | checksum first, then ownership (skip), then the fields |
| Loader.BootPs.CheckHandoffCpu | FM_ZQ_fsbl/fmsh_partition_load.c:450-471 | failure if and only if the table has an entry for the CPU |
| Loader.BootPs.Register | FM_ZQ_fsbl/fmsh_partition_load.c:759-780 | a CPU is entered once and its first entry stays; the store is inside the array if and only if the table still fits ten slots |
| Loader.TableSize | FM_ZQ_fsbl/fmsh_partition_load.c:450-471 | after any registrations the table has as many entries as there are different CPUs among them |
| Loader.SettingsDecode | FM_ZQ_fsbl/fmsh_partition_load.c:1388-1401 | CPU and execution state are recovered from CpuSettings by masking |
| Loader.TableBound | FM_ZQ_fsbl/boot_main.h:349-350 | distinct entries with the eight CPU names are at most eight |
| Loader.BootPs.PartitionCopy | FM_ZQ_fsbl/fmsh_partition_load.c:714-985 | status, table, banks and R5 registers after the copy step, with in-place images registered at once |
| Loader.BootPs.PartitionValidation | FM_ZQ_fsbl/fmsh_partition_load.c:999-1415 | status and table after the validation step (when it succeeds: Loader.LoadsIff) |
| Loader.BootPs.PartitionLoad | FM_ZQ_fsbl/fmsh_partition_load.c:1464-1521 | one load: its status, at most one registration even for an in-place image, and the effect on the banks and on the R5 pair |
| Loader.RegistersIff | FM_ZQ_fsbl/fmsh_partition_load.c:750-1401 | a load that succeeds or is skipped is entered if and only if it is ours and executes in place or is for the PS |
| Loader.AuthenticatesWhatWasCopied | FM_ZQ_fsbl/fmsh_partition_load.c:1040-1054 | authentication of an accepted signed partition works at the place of the copy if and only if the image was not remapped to TCM |
| Loader.TcmImageIsNotAuthenticated | FM_ZQ_fsbl/fmsh_partition_load.c:1040-1054 | an accepted signed header for which it does not |
| Loader.HashesWhatWasCopied | FM_ZQ_fsbl/fmsh_partition_load.c:1347-1365 | the hash is taken at the place of the copy if and only if it is not a PMU image for a TCM address |
| Loader.DecryptsWhatWasCopied | FM_ZQ_fsbl/fmsh_partition_load.c:1204-1210 | decryption of an accepted encrypted partition works at the place of the copy if and only if the image was not remapped to TCM |
| Loader.TcmImageIsNotDecrypted | FM_ZQ_fsbl/fmsh_partition_load.c:1204-1210 | an accepted encrypted header for which it does not |
| Loader.DownloadsWhatWasCopied | FM_ZQ_fsbl/fmsh_partition_load.c:1255-1264 | an accepted bitstream is hashed and downloaded from the place of the copy if and only if its header names that place or none |
| Loader.CopiedBitstreamIsNotDownloaded | FM_ZQ_fsbl/fmsh_partition_load.c:1255-1264 | an accepted header for which it is not |
| Loader.OnlyPsNeedsConfiguring | FM_ZQ_fsbl/fmsh_partition_load.c:839-880 | images for other devices never need the configuration they do not get |
| Loader.FirstPartitionWins | FM_ZQ_fsbl/fmsh_partition_load.c:759-789 | after any run of registrations the table lists, in order, the first one of every CPU and nothing else |
| Loader.FirstsAreFirst | FM_ZQ_fsbl/fmsh_partition_load.c:450-471 | those positions are ascending and are exactly the ones with no earlier entry for the same CPU |
| Power.PoweredBits | FM_ZQ_fsbl/fmsh_partition_load.c:157-360 | powering up takes the named cores out of reset, halts them and sets the pair's mode |
| Power.PoweredFrame | FM_ZQ_fsbl/fmsh_partition_load.c:157-360 | no other bit of reset, mode and halt registers moves |
| Power.PoweredBus | FM_ZQ_fsbl/fmsh_partition_load.c:157-360 | the bus of the pair is out of reset and its clock is on, and no other bit of the clock register moves |
| Power.RpuControl.PowerUpMemory | FM_ZQ_fsbl/fmsh_partition_load.c:157-360 | mode, halt, clock and reset bits of the R5 pair |
| Handoff.Soc.UpdateResetVector | FM_ZQ_fsbl/boothandoff.c:258-421 | registers and vector writes for each kind of core |
| Handoff.Soc.SetCpuPwrSettings | FM_ZQ_fsbl/boothandoff.c:440-819 | registers after a release, and the failure for ids that are no core; the island power-up it calls (fmsh_partition_load.c, lines 110 to 140) reports nothing but success |
| Handoff.Soc.BootHandoff | FM_ZQ_fsbl/boothandoff.c:960-1269 | every outcome: power-management and protection errors, JTAG, the pass over the table up to its first failure, the final jump |
| Released.ReleasedOnce | FM_ZQ_fsbl/boothandoff.c:1048-1200 | in a table without repeated CPUs each core but the running one is released exactly once if listed, else never |
| Released.VectorThenRelease | FM_ZQ_fsbl/boothandoff.c:1048-1200 | the events of an entry stand together behind those of the entries before it (their order: Released.ToldThenReleased) |
| Released.ToldThenReleased | FM_ZQ_fsbl/boothandoff.c:1104-1133 | over any pass every vector selection, vector copy and reset address of a core stands before its release, is what its entry says, and none is missing |
| Released.AddressToldIff | FM_ZQ_fsbl/boothandoff.c:258-421 | a released core is told its execution address if and only if it is an R5 or starts in 64-bit state |
| Released.BitsOfCore | FM_ZQ_fsbl/boothandoff.c:454-626 | which bits of the registers belong to which CPU number |
| Released.ClockRegister | FM_ZQ_fsbl/boothandoff.c:480-486 | the A53 clock is switched on if and only if a core is released |
| Released.ResetRegister | FM_ZQ_fsbl/boothandoff.c:454-626 | over any pass the reset bits of an A53 core clear if and only if it was released, the L2 reset if and only if any core was; no other bit moves |
| Released.ConfigRegister | FM_ZQ_fsbl/boothandoff.c:454-626 | the AA64N32 bit clears if and only if the core was released in 32-bit state |
| Released.VectorBitRegister | FM_ZQ_fsbl/boothandoff.c:301-335 | the vector bit of a core released in 32-bit state is the one its partition asked for |
| Released.RvbarRegister | FM_ZQ_fsbl/boothandoff.c:385-419 | low and high reset-address words join to the address of the core's entry |
| Released.RvbarUntouched | FM_ZQ_fsbl/boothandoff.c:385-419 | over any pass the reset address of a core that no entry starts in 64-bit state stays |
| Released.RvbarOf32BitCore | FM_ZQ_fsbl/boothandoff.c:385-419 | a core released in 32-bit state keeps the reset address it had |
| Released.RpuRegisters | FM_ZQ_fsbl/boothandoff.c:628-800 | an R5 core is out of reset and halt if and only if an entry named it or the pair, or it already was |
| Released.R5VectorRegister | FM_ZQ_fsbl/boothandoff.c:276-300 | the vector bit of an R5 core is what the last entry for it, or for the pair, asked for |
| Released.PairModeRegister | FM_ZQ_fsbl/boothandoff.c:640-800 | the R5 pair ends up split, or in lock step with combined TCM, as the last released R5 wants it |
| Released.VectorsComeFromImage | FM_ZQ_fsbl/boothandoff.c:344-383 | low vectors are taken from where the loader put the image if and only if the core is not R5-1 and the address is in its TCM, or the address is above the TCM |
| BootMain.BootLoop | FM_ZQ_fsbl/main.c:70-276 | for any devices every run ends; partitions are attempted once, ascending, up to the first failure or the first access outside an array; handoff is reached if and only if there is neither (or in JTAG mode); table, banks and cores are those of that run, the R5 pair as the loads left it if the handoff does not start |
| BootMain.Attempted | FM_ZQ_fsbl/main.c:137-196 | the step of stage 3: outside an array, error, next partition, or handoff after the last |
| Bounds.StatusDecides | FM_ZQ_fsbl/main.c:76-135 | stage 2 goes on with status 0 and to the handoff with status 3; every other status of stages 1 and 2 locks down with nothing loaded |
| Bounds.UnreadableImageLocksDown | FM_ZQ_fsbl/main.c:97-113 | an image whose table or chain cannot be read locks down, unless the first copy to fail answers 3 |
| Bounds.UncheckedTableLocksDown | FM_ZQ_fsbl/main.c:97-113 | an image whose table is not checksummed always locks down |
| Bounds.ReachedIff | FM_ZQ_fsbl/main.c:70-196 | handoff is reached if and only if stage 2 ends as in JTAG mode, or there are 1 to 15 partitions, all load or are skipped, and the table fits |
| Bounds.LeftArrayIff | FM_ZQ_fsbl/main.c:70-196 | an array is left if and only if stage 2 stores a sixteenth header, a registration has no slot, or an image without partitions finds fourteen headers that load or are skipped |
| Bounds.SlotsIff | FM_ZQ_fsbl/fmsh_partition_load.c:759-789 | the table stays inside its ten slots if and only if the partitions to be handed over name at most ten CPUs |
| Bounds.NamedCpusFit | FM_ZQ_fsbl/boot_main.h:349-350 | so it does for images that name only the eight CPUs of the header format |
| Bounds.EleventhLeavesTable | FM_ZQ_fsbl/fmsh_partition_load.c:759-780 | on an image of eleven accepted partitions with different CPU numbers the table fills up and has no slot for the last |
| Bounds.ElevenRunLeavesTable | FM_ZQ_fsbl/main.c:137-196 | every run from that image ends outside the table |
| Bounds.SixteenRunLeavesHeaders | FM_ZQ_fsbl/fmsh_header.c:1104-1114 | every run from an image of more than 15 headers ends in stage 2 with nothing loaded |
| Bounds.NoPartitionsFail | FM_ZQ_fsbl/main.c:122-137 | a single device with no partitions: the first load fails |
| Bounds.StaleRunLeavesHeaders | FM_ZQ_fsbl/main.c:122-170 | a run that works through the headers of the first device and leaves the array |
| EndToEnd.TableLists | FM_ZQ_fsbl/fmsh_partition_load.c:1388-1401 | after loads 1 to m-1 the table holds, for every CPU, the first owned in-place or PS partition for it, or nothing |
| EndToEnd.OtherCoresEndToEnd | FM_ZQ_fsbl/boothandoff.c:1048-1200 | from the headers to the release: each other core is released once, with the vector of the first partition for it, of which it was told before and of nothing else |
| EndToEnd.RunningCoreEndToEnd | FM_ZQ_fsbl/boothandoff.c:1238-1262 | the running core jumps to the execution address of the first partition for it, in its state, or waits |
| EndToEnd.LoopGoesIff | FM_ZQ_fsbl/boothandoff.c:1048-1200 | the loop ends without error if and only if every partition to be handed over is for the running core, an A53 or an R5, and the running core keeps its execution state |
| EndToEnd.A53Registers | FM_ZQ_fsbl/boothandoff.c:385-626 | at the end of a run an A53 core is out of reset at the execution address of the first partition for it, or in 32-bit state, or its registers are as they were |
| EndToEnd.LoadedR5 | FM_ZQ_fsbl/fmsh_partition_load.c:594-685 | over any loads an R5 core is taken out of reset and halted if and only if a TCM image for it was loaded from another core |
| EndToEnd.LoadedMode | FM_ZQ_fsbl/fmsh_partition_load.c:594-685 | the pair is then split or combined as the last such image wants it |
| EndToEnd.R5Registers | FM_ZQ_fsbl/boothandoff.c:628-800 | at the end of a run that leaves an R5 core is out of reset and halt if and only if a partition to be handed over names it or the pair, or it was and no TCM image for it was loaded |
| EndToEnd.R5RunsIff | FM_ZQ_fsbl/boothandoff.c:628-800 | on the A53 after a system reset the second case does not arise |
| EndToEnd.NoLoopStartsNoR5 | FM_ZQ_fsbl/main.c:200-250 | a run that does not come to the loop over the table starts no core |
| EndToEnd.StoppedLoopR5 | FM_ZQ_fsbl/boothandoff.c:1048-1200 | a loop that stops has started exactly the R5 cores of the entries before the one that stops it |
| EndToEnd.StartedIsVouchedFor | FM_ZQ_fsbl/fmsh_partition_load.c:1176-1415 | however the loop ends, a core that was started has a first partition that was accepted and whose copy, authentication, hash and decryption succeeded where it calls for them |
| EndToEnd.WholeRun | FM_ZQ_fsbl/main.c:70-276 | from how the loads and the handoff of a run end to all of this: every partition attempted, every core started from its first partition |
| EndToEnd.RunHeaders | FM_ZQ_fsbl/main.c:97-137 | the partitions of a run are the nodes of the chain on the device that stage 2 ends with |
| EndToEnd.ImageToCores | FM_ZQ_fsbl/main.c:70-276 | from the image on the device to the cores: each is started as the first node of the chain for it says, and told so before |
| EndToEnd.LoadingOnlyCopies | FM_ZQ_fsbl/fmsh_initialization.c:630-695 | on an A53 run after system reset, loading adds only copies to the banks filled at boot |
| EndToEnd.BanksFollowImages | FM_ZQ_fsbl/fmsh_partition_load.c:839-985 | any run leaves the banks as its images do one after the other |
| EndToEnd.RunWipesIff | FM_ZQ_fsbl/fmsh_partition_load.c:603-697 | in every other run a split-core image is wiped if and only if a later partition retakes its banks, the first lock-step image those of both cores |
| Dfu.DfuIf.Setup | FM_ZQ_fsbl/dfu_app.c:767-895 | the whole new state, the stall and the reply for each request, the status reply as long as it was asked for |
| Dfu.CounterBound | FM_ZQ_fsbl/dfu_app.c:831-895 | over every trace the counter is at most one more than the number of closed downloads |
| Dfu.FlashHoldsPending | FM_ZQ_fsbl/dfu_app.c:831-858 | the start of the flash is the concatenation of the blocks since the last reset of the counter |
| Dfu.CompletedStays | FM_ZQ_fsbl/dfu_app.c:859-878 | a closed image stays in place until the next block, and in the idle state there always is one |
| Dfu.WaitEndsWithImage | FM_ZQ_fsbl/dfu_app.c:1021-1028 | when the count reaches two a download was closed, and the flash starts with exactly its blocks |
| Dfu.UpgradeCompletes | FM_ZQ_fsbl/dfu_app.c:831-895 | a host that sends an image and asks for the status brings the count to two with the image in the flash, through the states 5, 2, 3 and 4 |
| Gmac.FrameFormatMac | Examples/fmsh_gmac_example.c:500-516 | destination and source address in place, the rest of the frame unchanged |
| Gmac.FrameFormatType | Examples/fmsh_gmac_example.c:531-547 | the type field reads back as the given type, and is big-endian on the wire |
| Gmac.TypeOnTheWire | Examples/fmsh_gmac_example.c:531-547 | the value read from a type field is that of its two bytes, high byte first |
| Gmac.FrameSetPayloadData | Examples/fmsh_gmac_example.c:567-603 | the payload is the closed-form pattern for every size up to 65535, and the 16-bit counter never wraps |
| Gmac.FrameVerify | Examples/fmsh_gmac_example.c:621-693 | acceptance if and only if the 14 header bytes match and the payload is the pattern |
| Gmac.RoundTrip | Examples/fmsh_gmac_example.c:500-693 | a frame built by the three functions is accepted against itself |
| Gmac.PatternCounts | Examples/fmsh_gmac_example.c:549-603 | the closed form counts bytes to 255 and then big-endian 16-bit numbers from 256 on |

## Left out

- Ciphers, GF multiplication, SHA compression and RSA exponentiation: done in hardware, uninterpreted here.
- Device drivers, DDR training, clock and pin tables, PMU wake-up and all polling: only their outcomes appear.
- Early handoff: compiled out in the shipped configuration.
- Vector juggling in R5 builds of the loader itself (`ARMR5`).
- Which boot mode selects which device, and the search for the boot header: a status, and the place of the image.
- DMA time-outs of the tag engine and of the bitstream download: these transfers are taken to finish; a time-out of the data transfer of a block is covered.
- Register read-back failures, an algorithm number that is neither AES nor SM4, and decryption straight to the PCAP address.
- `FmshFsbl_PlBlockSha256`: its length still counts a certificate part that is no longer hashed.
- Authentication of a partition in blocks, certificate and eFuse checks: one status in the loader.
- Image-header authentication under `FSBL_SECURE` while the header table is read.
- `ErrorCode`, console output, watchdog, marking of used R5 cores, the wake-up wait after a PMU partition.
- Writing operands into the RSA engine, and the second copy of the signature check.
- What follows an access outside an array: the model ends the run there.
- What a failing stage 1 leaves: a status only.
- Rsa.CheckSignature: does not cover the verification of the keys, the lost status of a failed RSA run (the hash status replaces it), or the choice of 48 hash bytes over a 32-byte hash when SHA-2 is not selected.
- Sha256.ShaEngine.Sha256: says nothing about how much was consumed when the DMA does not finish.
- Dfu.FlashHoldsPending: runs of 4 GiB and more without a reset of the counter are excluded; the 32-bit counter wraps there.
- Gmac.FrameSetPayloadData: sizes above 65535 are excluded, as the frame's own length field cannot name them.
