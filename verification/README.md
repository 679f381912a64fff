# Verified models of the FOTA candidate store and the multicast update protocol

This project models three parts of the device management client and proves what
they promise to each other.

**The candidate store** (`fota/fota.c`, `fota/fota_candidate.c`). A writer packs
fragments of any size into fixed pages, with a checksum or an authentication tag
in front of each block. After a power cut a scanner rebuilds the position, the
hash and the initialisation vector from what is on storage. A reader skips bad
blocks, checks the digest and hands the image to the installer in fragments that
suit it. No function of the client states the format these three share;
`CandidateFormat.dfy` does, and everything else is proved against it.
`BlockDevice.dfy` is the storage: aligned reads and programs, sector erase, and a
supply that may fail after any byte.

**The multicast protocol** (`multicast/libota.c`). A border router sends an image to
many nodes over a lossy medium; nodes keep a bit mask of what they have, ask for
what is missing, serve each other, check the image and activate it together.

**Supporting streams.** The buffering in front of the patch engine, the aligned
download requests, the two CRCs and the internal header codec.

The main results:

- `Campaign.Run`: on freshly erased storage, over any number of boots, each cut at
  any byte, any way of splitting the payload and any contents of the source,
  whatever the headers on storage claim is true, and a candidate is ready only if it
  is complete and has the digest of the manifest. It gets there: a campaign ends without
  a candidate only if something else was sent, if its last boot lacked power or the end
  of the payload, or if there is less room than one page more for every boot before.
  Where every tear is detected, every stored byte was sent.
- `Campaign.Boot`: a boot goes on with a download if and only if what is stored and what
  is missing fit, in bytes, and then keeps all of it.
- `EndToEnd.DownloadAndInstall`: after such a campaign the installer, which finds the
  data area on its own, receives that candidate and less than one unit of padding.
- `Updater.Serve`: the update state machine over the bytes of the device, for every
  sequence of calls and power cuts, makes the run of the installation gate that was
  called for. It asks nothing about torn pages, so that it covers the default pages of
  1024 bytes and encrypted builds. `Updater.Updater.Handle` says of every call that it
  fails only without power or room, gives a download up only where none can be gone on
  with, and loses nothing else; `Updater.UpdateOnce` leads an image to the installer.
- `Candidate.ReadBackExactly`: through power cuts, every complete candidate of a size
  is read back if and only if a condition on the sizes holds.
- `Install.Iterate`: nothing reaches the handler before the digest has matched, and
  with a patient handler the installation finishes if and only if it does not stall
  (`Install.Stalls`).
- `InstallGate.GatedSinceErase` and `InstallGate.GatedExactly`: over every run of the
  update state machine only verified images are marked ready or installed, and from
  which storage contents that is so. `InstallGate.AlwaysInstallable`: from every state a
  verified image can be installed. `InstallGate.Causes`: every change has its cause.
- `OtaNetwork.NetworkIsSafe`: over every run of a network, fragments in flight are
  genuine, mask bits are true, and complete devices store the image.
  `OtaNetwork.Distributes`: a device that has an image can bring it to every other one,
  up to its activation.
- `OtaNode.Collects` and `OtaNode.Activates`: over every delivery, in any order, a node
  has what arrived, asks for the rest exactly if the delivery has ended, and reaches
  UPDATE FW with the image. `OtaDevice.Repair`: a device that lacks something is sent
  every missing fragment exactly once.
- `CriticalResend.ResendsAreRight`, `ActivationIsSent`, `ManifestIsSent`, `StartIsSent`
  and `FragmentsAreSent`: over every run of the border router, what is sent, when and how
  often, in terms of the command that was given.

Some promises hold only under a condition. Each of these has its exact condition:

- With additive block checksums, a download can be picked up after every power cut if
  and only if a page holds at most 255 payload bytes (`Resume.ResumeExactly`). With more,
  256 zero bytes torn after the first byte pass as other data, and the storage looks
  like a download under way that it is not (`Campaign.TornZerosUntruthful`). The digest
  check still keeps such data from the installer (`Updater.Serve`).
- A page that was programmed completely can look erased if and only if erased storage
  passes for one of the blocks (`CandidateFormat.VisibleExactly`): behind checksums if
  and only if a block has 257 bytes, modulo 65536 (`CandidateFormat.ChecksumsVisible`).
- The scan counts pages against all of the storage, the headers included. So a download
  that passes its room test has no room after all if and only if the data area would end
  behind the storage by no more than the size of the headers (`Campaign.RoomTestExactly`).
- On erased storage a candidate ready header that was cut counts as whole for the scan if
  and only if its last magic is there (`Campaign.ReadyExactly`), and for the reader if and
  only if its first one is (`EndToEnd.TornReadyFound`).
- An erase that stops after `n` bytes leaves headers that are true if and only if it
  does not stop inside the firmware header, or that header ends in an erased byte, or
  the erased part was erased before (`Campaign.EraseStopExactly`); the scan looks at the
  last byte of the header only.
- With an installation alignment, the last bytes are never delivered, and the handler
  is called with empty fragments for ever, if and only if the carried bytes and the
  last block fill a block and leave a remainder (`Install.NextFragment`, `Install.Iterate`);
  a payload of one full block is the simplest case (`Install.FullBlockStalls`).
- Over a bad copy of the last block the reader moves by what it read, the writer by a
  page. Every complete candidate of a checksummed build is readable if and only if the
  reader's step is a page, or divides a page and the last block does not have 257 bytes,
  modulo 65536, for which erased storage passes (`Candidate.ReadBackExactly`,
  `Candidate.TornLastBlockUnreadable`).
- Writer and reader agree on the start of the data if and only if rounding the first
  header to read units does not pass the next program unit (`EndToEnd.SameStart`,
  `EndToEnd.UnitsDisagree`).
- The resume shortcut trusts a whole candidate ready header; it installs only verified
  images if and only if that header was true when the manifest was picked up
  (`InstallGate.GatedExactly`). A rejected update followed by a new manifest and a power
  cut leads to a header that is not (`InstallGate.StaleCandidate`).
- The update command is not tied to a session; a device is activated by that of another one
  if and only if it has completed its own (`OtaNetwork.UpdateOfAnySession`,
  `OtaNode.Transitions`).
- The 16-bit counter of the missing-fragment count ends its loop if and only if there
  are at most 65528 fragments (`FragmentMask.CounterPasses`).

The device, the patch engine, the cipher's block function, the digest and the
signature check are parameters. AES-CCM is a key stream and a tag function; its
round trip is proved, not assumed. Power is a number of bytes the device may still
program or erase, so every point of failure is covered.

## Layout

| files | content |
|---|---|
| `Bytes`, `BlockDevice` | byte strings, alignment arithmetic, storage |
| `BlockLayout`, `CandidateFormat` | the three block layouts, the on-storage format |
| `Writer`, `Resume`, `Campaign` | writing, scanning, whole campaigns over power cuts |
| `Candidate`, `Extractor`, `Install`, `EndToEnd` | reading, re-alignment, validation, both sides together |
| `EraseRange`, `InstallGate`, `Updater` | erase coverage, the gate in front of the installation, the handlers over device bytes that refine it |
| `Delta`, `Download` | patch buffering, aligned download |
| `Crc`, `HeaderV2` | CRC-16, CRC-32, the internal header |
| `MulticastStore`, `FragmentMask`, `FragmentService` | image store, bit mask, serving requests |
| `OtaNode`, `OtaDevice`, `OtaNetwork`, `CriticalResend` | node state machine, the device that refines it, the network, repeated messages |

`dafny verify dfyconfig.toml` verifies everything.

## Model

| member | source | states |
|---|---|---|
| `Bytes.AlignUpIsLeast` | fota/fota_base.h:102 | rounding up gives the least multiple that is not smaller |
| `BlockLayout.LayoutsLawful` | fota/fota.c:1928-1944 | in the plain, checksummed and encrypted layout, opening a sealed block gives the block back |
| `BlockLayout.Ccm.DecryptEncrypt` | fota/fota_crypto.c:180-238 | decryption under the same initialisation vector undoes encryption and accepts its tag |
| `BlockLayout.Ccm.TagDetects` | fota/fota_crypto.c:210-238 | what passes the tag of a block is that block, or one with the same authentication code |
| `BlockLayout.Ccm.ZerosMasked` | fota/fota_crypto.c:180-208 | the mask is the key stream |
| `BlockLayout.TornChecksumExact` | fota/fota.c:1497-1505 | a torn page passes its checksum if and only if the lost bytes and the erased ones have the same sum modulo 65536 |
| `BlockLayout.TearDetectionExact` | fota/fota.c:1497-1505 | the block lengths for which every tear on 0xFF-erased storage is noticed: up to 255, and 257 |
| `BlockLayout.NeverBlankExact` | fota/fota.c:1332-1350 | a programmed page can look erased if and only if a block of erased bytes has the erased checksum |
| `CandidateFormat.StoredAfterProgram` | fota/fota.c:1951-1958 | a page programmed up to any byte, in any layout, leaves the format intact: the same scan or one more block, at most one page farther, of this payload if every tear is detected, otherwise of one that agrees with it up to there |
| `CandidateFormat.VisibleExactly` | fota/fota.c:1332-1350 | no page of any payload of a size looks erased if and only if erased storage passes for none of its blocks |
| `CandidateFormat.ChecksumsVisible` | fota/fota.c:1332-1350 | behind checksums on 0xFF-erased storage that is a condition on the block lengths: none is 257 modulo 65536 |
| `CandidateFormat.StoredAfterBlock` | fota/fota.c:1951-1963 | a page programmed completely adds exactly the next block to the scan |
| `CandidateFormat.NextPagesInside` | fota/fota.c:1588-1590 | without resume, the next page, or any number of pages for full blocks programmed at once, lies inside the data area computed from the payload size |
| `Writer.PageWriter.constructor` | fota/fota.c:1768-1778 | a writer starts from the scan of what is stored, with an empty page buffer |
| `Writer.AheadNext` | fota/fota.c:1951-1968 | the address at which the data area will end stays the same with every block stored, and moves by at most one page with one that was cut |
| `Writer.PageWriter.SealPage` | fota/fota.c:1928-1950 | the page buffer holds the sealed block, the initialisation vector moves on by one per encryption |
| `Writer.EncryptInPlace` | fota/fota_crypto.c:180-208 | in-place encryption leaves tag and ciphertext of the block |
| `Writer.PageWriter.ProgramPage` | fota/fota.c:1897-1968 | one page stores exactly the next block; if the device fails, the storage still scans, to a prefix of this payload if every tear is detected and of some other if not, and the headers are untouched |
| `Writer.PageWriter.ProgramDirect` | fota/fota.c:1951-1968 | whole pages taken straight from a fragment store exactly those bytes |
| `Writer.PageWriter.HandleFragment` | fota/fota.c:1970-2008 | whatever the fragment sizes, stored blocks and page buffer together are the payload handed over so far; the last fragment completes it; it fails only without power, or with resume where the next page does not fit, without resume where the data area of the payload does not fit, and then nothing stored is lost; power pays for exactly the pages programmed |
| `Resume.BlocksIsCeiling` | fota/fota.c:1446-1448 | the number of blocks left is the rounded-up quotient the source computes |
| `Resume.BlankOffset` | fota/fota.c:1332-1350 | the offset behind the last byte that is not erased, zero exactly for an erased range |
| `Resume.OpenBlock` | fota/fota.c:1484-1505 | the scanner's block check is the opening of the layout |
| `Resume.Context.CheckHeaders` | fota/fota.c:1399-1427 | what the two headers on storage mean for a resumed download |
| `Resume.Context.Restart` | fota/fota.c:1547-1566 | the no-resume exit leaves the state of a fresh start |
| `Resume.Context.ScanPage` | fota/fota.c:1472-1530 | a good block advances position, hash and initialisation vector by that block, a bad one only the address |
| `Resume.PagesFit` | fota/fota.c:1446 | counting in pages, as the scan does, is counting in bytes |
| `Resume.Context.ScanData` | fota/fota.c:1446-1545 | for any storage contents the scan ends, tracks exactly the pages walked over, and gives up if and only if those and the pages for what is missing exceed the available bytes, or the next page is off the device |
| `Resume.Context.Analyze` | fota/fota.c:1352-1575 | every outcome of the resume analysis with the storage it stands for, including every reason not to resume |
| `Resume.StopsBehindStored` | fota/fota.c:1459-1470 | a scan that stops at an erased page has seen exactly the stored pages |
| `Resume.CompleteIsPayload` | fota/fota.c:1531-1545 | a scan that counts as many bytes as the payload has, has read the payload |
| `Resume.RoomIsEnough` | fota/fota.c:1452-1455 | with room, in bytes, for what is stored and what is missing the scan does not give up |
| `Resume.RoomExactly` | fota/fota.c:1452-1455 | a scan of an incomplete download can give up if and only if it lacks that room |
| `Resume.ResumeExactly` | fota/fota.c:1497-1505 | with checksums on 0xFF-erased storage, the data area stays readable to the scan after every power cut of every payload if and only if a page holds at most 255 payload bytes |
| `Resume.TornZerosLost` | fota/fota.c:1497-1505 | in longer pages, 256 zero bytes torn after the first byte leave a data area that no list of pages explains |
| `Campaign.ScanRestores` | fota/fota.c:1450-1531 | the scan restores page list, hash and block count of the interrupted download, a whole number of full blocks |
| `Campaign.ScanCompletes` | fota/fota.c:1531-1545 | after a complete scan the stored blocks are the payload |
| `Campaign.AfterErase` | fota/fota.c:1634-1642 | an erase that stops at a safe place keeps whatever the headers claim true |
| `Campaign.EraseStopExactly` | fota/fota.c:1421-1427 | an erase cut after `n` bytes keeps the headers of every storage true if and only if `n` is a safe place to stop |
| `Campaign.PartOfHeader` | fota/fota.c:1421-1427 | at any other place a part of a firmware header is taken for a download under way |
| `Campaign.FirstSectorSafe` | fota/fota.c:1634-1642 | headers that share the first sector make every stop between sectors safe |
| `Campaign.TornZerosUntruthful` | fota/fota.c:1497-1505 | 256 zero bytes in longer pages, torn after the first byte: the headers announce a download that is not there |
| `Campaign.AfterHeader` | fota/fota.c:1252-1327 | a header program cut anywhere leaves no header or an empty data area behind it |
| `Campaign.AfterReady` | fota/fota.c:1084-1127 | even a torn candidate ready header stands in front of a whole payload with the digest of the manifest |
| `Campaign.ReadyExactly` | fota/fota.c:1404-1419 | a candidate ready header that was cut counts as whole if and only if its last magic is there |
| `Campaign.StartAfresh` | fota/fota.c:1750-1766 | erase and header program, with every place they can be cut at; the headers stay true for the old payload or for the new one |
| `Campaign.Session.OnFragment` | fota/fota.c:2132-2240 | a fragment that goes on with what is stored is hashed and stored, one that is too long is refused and changes nothing; after the last one hash and storage have the whole payload; it fails only without power or room for one more page, and then nothing stored before is lost |
| `Campaign.Finish` | fota/fota.c:2019-2109 | a candidate ready header is written only if what was hashed has the digest of the manifest; otherwise the storage is unchanged and none is there |
| `Campaign.Boot` | fota/fota.c:1647-1832 | one boot, whatever the source sends: the headers stay true; it ends ready with the digest of the manifest, rejected because that differs, without room for a page, or interrupted; a candidate that is there is kept; with the key and room in bytes it loses nothing stored before, otherwise it starts over; with power and fragments it is not interrupted, it lacks room only if the data area would end behind the storage, and a cut moves that end by at most one page; if tears are detected, what is stored was stored before or sent |
| `Campaign.Run` | fota/fota.c:1647-1832 | crash-resume over any number of boots and sources: headers stay true, a ready candidate is complete and has the digest of the manifest, and a campaign without one has stored something else, has less room than one page more for every boot before, or lacked power or fragments in its last boot; if tears are detected, every stored byte was sent |
| `Campaign.TwiceIsEnough` | fota/fota.c:1592-1595 | erasing twice what the payload takes is room for as many boots as it has blocks |
| `Campaign.RoomTestExactly` | fota/fota.c:1446-1455 | the room test lets a download pass that has no room if and only if its data area would end behind the storage by no more than the size of the headers |
| `Campaign.SentSame` | fota/fota.c:1647-1832 | if every boot sends the same payload, that payload is what is stored |
| `Campaign.ShortBlocksAreSturdy` | fota/fota.c:1497-1505 | behind checksums, pages of at most 255 payload bytes mean that tears are detected |
| `Candidate.PageRead` | fota/fota_candidate.c:337-405 | at a page boundary the reader finds what the scanner finds there |
| `Candidate.ReadsStored` | fota/fota_candidate.c:337-423 | round trip: a stored payload is read back as it was, in every layout, without resume always, with resume if bad copies of the last block are skipped whole |
| `Candidate.FullBlocksReadable` | fota/fota_candidate.c:358-402 | for a payload of full blocks they always are |
| `Candidate.TornLastBlockUnreadable` | fota/fota_candidate.c:358-405 | for every size whose bad last blocks are not skipped whole, a payload and a power cut after which the complete candidate is not read back |
| `Candidate.ChecksumSkips` | fota/fota_candidate.c:358-405 | behind checksums, bad copies of the last block are skipped whole if and only if the reader's step is a page, or divides one and the last block does not have 257 bytes modulo 65536 |
| `Candidate.ReadBackExactly` | fota/fota_candidate.c:337-423 | every complete candidate of a size is read back, whatever power cuts it went through, if and only if that condition on the sizes holds |
| `Extractor.Fragments.constructor` | fota/fota_candidate.c:311-328 | a pass starts at the data area with an empty carry and a buffer that is large enough |
| `Extractor.Fragments.ReadNext` | fota/fota_candidate.c:351-405 | the next block is read, checked and counted as the format says, and the carried bytes stay |
| `Extractor.Fragments.Realign` | fota/fota_candidate.c:409-420 | carried bytes and block become whole installation units and a carry, or, at the end, units with padding |
| `Extractor.Fragments.ExtractFragment` | fota/fota_candidate.c:337-423 | one call: the block of the format, joined with the carry, cut or padded to the alignment; bad blocks change nothing but the address |
| `Install.NextFragment` | fota/fota_candidate.c:409-420 | everything but a carry goes out before the last block; with the last one everything does, unless the installation stalls, exactly when `Stalls` says |
| `Install.FullBlockStalls` | fota/fota_candidate.c:409-420 | a payload of one full block stalls if and only if the block is not a whole number of installation units |
| `Install.HashImage` | fota/fota_candidate.c:451-475 | the validation pass hashes exactly the image as read |
| `Install.DeliverImage` | fota/fota_candidate.c:500-548 | the installation pass delivers that image in aligned fragments, finishes exactly when it does not stall, and never delivers other bytes |
| `Install.Iterate` | fota/fota_candidate.c:425-555 | the handler is called only after the digest has matched, unless validation is skipped; the second pass delivers the validated bytes |
| `EndToEnd.SameStart` | fota/fota_candidate.c:83-179 | writer and reader agree on the data address if and only if rounding to read units does not pass the next program unit |
| `EndToEnd.UnitsNest` | fota/fota.c:800-820 | they agree whenever program units consist of read units |
| `EndToEnd.UnitsDisagree` | fota/fota_candidate.c:83-179 | units of four and six bytes on which they disagree |
| `EndToEnd.DownloadAndInstall` | fota/fota_candidate.c:425-555 | a campaign, then the installer, with the headers it reads and the address it computes itself: it receives exactly the stored candidate, which has the digest of the manifest, and less than one unit of padding, under conditions on the sizes that can be checked beforehand |
| `EndToEnd.ReadHeaders` | fota/fota_candidate.c:83-179 | the two header reads find, on any storage, what lies behind a ready header at the reader's address |
| `EndToEnd.HeaderFound` | fota/fota_candidate.c:145-179 | behind a ready header that is the header the writer has programmed |
| `EndToEnd.TornReadyFound` | fota/fota_candidate.c:83-143 | behind a ready header that was cut it is found if and only if the first magic is there |
| `EndToEnd.WriteAndReadBack` | fota/fota.c:1970-2008 | without resume, a payload written in fragments of any size is read back as it was; it fails only without power, fragments or room for its data area |
| `EndToEnd.EraseWriteAndReadBack` | fota/fota.c:1579-1645 | the same from storage in any state: erasing what the payload size calls for is enough |
| `EraseRange.EraseNeeded` | fota/fota.c:1579-1645 | the erased range covers that size, ends on a sector boundary, stays inside the storage, and nothing else is erased |
| `InstallGate.SoundNext` | fota/fota.c:1834-1875 | every event, new manifests, lost keys and power cuts that leave any image included, keeps ready headers, installations and the states before them tied to a verified image |
| `InstallGate.GatedSinceErase` | fota/fota.c:2019-2109 | since the erase for a manifest, over every run, only a verified image is marked ready or handed to the installer |
| `InstallGate.Shortcut` | fota/fota.c:1399-1419 | from a whole candidate ready header a resumed update reaches the installer without a check |
| `InstallGate.GatedExactly` | fota/fota.c:2034-2038 | no run installs an unverified image if and only if the storage did not start with a ready header in front of one |
| `InstallGate.CheckDecides` | fota/fota.c:2040-2071 | a complete download waits for the installation if and only if its image is accepted, otherwise the update ends |
| `InstallGate.VerifiedIsInstalled` | fota/fota.c:2243-2301 | after an interruption at any byte, a verified image can still be downloaded to its end and installed |
| `InstallGate.AlwaysInstallable` | fota/fota.c:864-1059 | from every state there is a run that installs a given verified image |
| `InstallGate.RejectedForGood` | fota/fota.c:1003-1031 | after a reject nothing is installed without a new manifest |
| `InstallGate.InterruptedGoesOn` | fota/fota.c:2243-2301 | a download that was deferred, lost its report or lost power goes on with exactly the bytes kept, a deferred one only for the user |
| `InstallGate.DeferredInstallation` | fota/fota.c:1033-1059 | a deferred installation is asked for again with the same image; one with a postponed reboot takes place, also after a power cut |
| `InstallGate.Causes` | fota/fota.c:864-1059 | which events, and no others, bring or drop a manifest, mark a candidate ready, start an installation, defer and postpone; an update ends exactly where it is rejected, not accepted or installed, or the device fails |
| `InstallGate.StaleCandidate` | fota/fota.c:1003-1031 | an image ready for a rejected update reaches the installer under the next manifest, whatever that asks for, if power is lost before its erase |
| `Updater.TruthView` | fota/fota.c:1399-1427 | what the bytes of the two headers claim is what the gate knows: a ready header, whole or torn, stands for the accepted payload, a firmware header for a prefix |
| `Updater.RestartView` | fota/fota.c:1750-1766 | whatever bytes a cut erase and header program leave, the gate allows for |
| `Updater.MarkView` | fota/fota.c:1084-1127 | a ready header programmed up to any byte leaves blank, torn or whole and nothing else changed |
| `Updater.ChecksummedSuits` | fota/fota.c:1497-1505 | checksummed builds with pages of any size are covered, unless a block has 257 bytes modulo 65536 |
| `Updater.EncryptedSuits` | fota/fota_crypto.c:180-238 | encrypted builds are covered if and only if under their key no block written as erased bytes has the erased tag |
| `Updater.DefaultBuildSuits` | fota/fota_config.h:250-252 | the default build, with pages of 1024 bytes, is covered, and there is a device for it |
| `Updater.Updater.Look` | fota/fota.c:1352-1575 | the scan of the device finds exactly the ready header, image or prefix that is there, and nothing only if there is no candidate and no download with room |
| `Updater.Updater.TakeUp` | fota/fota.c:1464-1468 | a resumed update whose key was found goes on with what is stored unless there is no candidate and no download with room |
| `Updater.Updater.OnDownloadAuthorize` | fota/fota.c:1647-1832 | scan, erase and header program on the device amount to the gate's choice between shortcut, rest of the download and fresh start; what can be gone on with is kept, and only a lack of power cuts the fresh start |
| `Updater.Updater.WriteReady` | fota/fota.c:1084-1127 | the ready header is programmed over a part of itself or erased bytes, whole or cut |
| `Updater.Updater.Feed` | fota/fota.c:2132-2240 | any fragment, whatever it holds: what was stored stays, a cut leaves a scan of any kind and the headers alone, the last fragment leaves exactly what was hashed, and it fails only without power or if the data area would end behind the storage |
| `Updater.Updater.OnFragment` | fota/fota.c:2132-2240 | hashing, writing and the digest check on the device are one step of the gate, and keep it sound |
| `Updater.Updater.OnReport` | fota/fota.c:1129-1250 | likewise for reports, the installation behind the last one, and the erase of the first sector behind that |
| `Updater.Updater.Handle` | fota/fota.c:864-1059 | every call, in every state, is the step of the gate that was called for, and keeps it sound; the device fails it only without power or room, and nothing stored is lost but by a fresh start with nothing to go on with and the erase behind an installation |
| `Updater.Serve` | fota/fota.c:1834-1895 | over every sequence of calls and power cuts at any byte, with or without tear detection, the run that was called for: whatever was installed, and whatever stands behind a ready header or a part of one, has size and digest of the manifest |
| `Updater.UpdateOnce` | fota/fota.c:864-1250 | with power and room, manifest, authorisation, fragment, authorisation and report lead exactly the image that was sent to the installer |
| `Delta.Stream.Read` | fota/fota_delta.c:260-291 | the engine's buffer gets exactly the next bytes of the fragment, which is consumed if the read cannot be completed |
| `Delta.Stream.TakeIn` | fota/fota_delta.c:155-167 | an unfinished read gets the first bytes of the next fragment behind what it has |
| `Delta.Stream.DoPatching` | fota/fota_delta.c:238-258 | the engine runs until it waits, is done or fails, and no byte is lost or repeated |
| `Delta.Stream.NewPayload` | fota/fota_delta.c:145-173 | a new fragment first completes an unfinished read |
| `Delta.Stream.GetNext` | fota/fota_delta.c:175-208 | what is taken out is what the engine wrote, in order |
| `Delta.OnFragment` | fota/fota.c:2163-2201 | after a fragment everything written has been taken out, and the fragment is used up, the engine is done, or it has made an empty write |
| `Delta.Patch` | fota/fota.c:2163-2201 | for every fragmentation and every engine, the buffers the engine is given are the payload from its first byte on, and what comes out is what it has written; input is left unread exactly if the engine waits behind an empty write, which the one of the client never makes |
| `Download.Request` | fota/fota_source_profile_lite.c:702-715 | the requested address is the offset rounded down to the fragment size |
| `Download.Fetch` | fota/fota_source_profile_lite.c:672-690 | the trimmed answer is not empty and is the payload from the offset to the end of its block |
| `Download.FetchRest` | fota/fota_source_profile_lite.c:672-715 | from any offset the rest of the payload arrives in order, and each remaining block is requested once |
| `Download.FetchInto` | fota/fota.c:2117-2240 | the download of a session ends; if it finishes, hash and storage have the whole payload, and it fails only without power or room for one more page |
| `Crc16.TwoRounds` | multicast/libota.c:1315-1323 | two table-free nibble rounds are eight steps of the bit-serial CRC |
| `Crc16.ChecksumByNibbles` | multicast/libota.c:1308-1326 | the nibble-wise checksum is the reflected CCITT CRC with initial value zero |
| `Crc16.CheckValue` | multicast/libota.c:1308-1326 | the checksum of the digits 1 to 9 is 0x2189 |
| `Crc16.CorruptByteNoticed` | multicast/libota.c:729-747 | strings that differ in exactly one byte have different checksums |
| `Crc32.ChecksumOf` | fota/fota_header_info_v2.c:66-84 | the nested loops compute the bit-serial CRC-32 |
| `Crc32.CheckValue` | fota/fota_header_info_v2.c:66-84 | the checksum of the digits 1 to 9 is 0xcbf43926 |
| `Crc32.OneByteChanges` | fota/fota_header_info_v2.c:66-84 | a change of one byte changes the CRC-32 |
| `BigEndian.ParseWrite32` | fota/fota_header_info_v2.c:86-108 | parsing undoes writing, 32 bits |
| `BigEndian.ParseWrite64` | fota/fota_header_info_v2.c:110-140 | parsing undoes writing, 64 bits |
| `HeaderV2.Layout` | fota/fota_header_info_v2.c:235-273 | the magic and version bytes, and the offsets of version, size, digest, zeros and CRC |
| `HeaderV2.RoundTrip` | fota/fota_header_info_v2.c:235-342 | deserialising a serialised header gives back version, size and digest |
| `HeaderV2.ChangedByteRejected` | fota/fota_header_info_v2.c:312-342 | a header with any one of its 112 bytes changed is rejected |
| `HeaderV2.Serialize` | fota/fota_header_info_v2.c:235-273 | the fields written in place are the encoding, and the rest of the buffer is untouched |
| `HeaderV2.Deserialize` | fota/fota_header_info_v2.c:312-342 | magic, then CRC, then the fields, as the decoding says |
| `MulticastStore.ProgramPadded` | fota/fota.c:2583-2614 | whole units and a zero-padded rest, and nothing outside them |
| `MulticastStore.ReadUnaligned` | fota/fota.c:2306-2369 | any range is read exactly, with aligned device reads only, whenever its last unit is on the device |
| `MulticastStore.ImageStore.WriteFragment` | fota/fota.c:2548-2615 | a fragment is stored in its slot, and no other slot changes, whatever the device does; one whose write failed can be written again |
| `MulticastStore.ImageStore.ReadImage` | fota/fota.c:2617-2624 | from a complete store every part of the image is read back |
| `MulticastStore.StoreAll` | fota/fota.c:2548-2615 | fragments written in any order, repeated ones included, leave the whole image |
| `MulticastStore.ErasedHolds` | fota/fota.c:2548-2615 | erased storage is ready for every image that fits |
| `FragmentMask.PutIs` | multicast/libota.c:766-770 | changing one bit of the reversed mask changes no other |
| `FragmentMask.Mask.constructor` | multicast/libota.c:495-502 | a new mask marks no fragment, and all padding |
| `FragmentMask.Mask.Init` | multicast/libota.c:1579-1606 | the initialisation clears the bits of all fragments and only those |
| `FragmentMask.Mask.Mark` | multicast/libota.c:766-770 | marking adds one fragment to the set |
| `FragmentMask.Mask.IsReceived` | multicast/libota.c:1125-1136 | the bit test is membership in the set |
| `FragmentMask.Mask.MissingCount` | multicast/libota.c:1138-1156 | the count is the number of fragments not in the set |
| `FragmentMask.Mask.FirstMissingSegment` | multicast/libota.c:1158-1191 | the lowest segment with a missing fragment, and its bits |
| `FragmentMask.CounterPasses` | multicast/libota.c:1143-1146 | the 16-bit loop counter passes the fragment count if and only if that is at most 65528 |
| `FragmentService.Service.NextMissing` | multicast/libota.c:1278-1306 | the lowest fragment still wanted, crossed off if asked for, or zero if there is none |
| `FragmentService.Service.OnRequest` | multicast/libota.c:1062-1123 | a request is taken on unless one is being served, and is active while something is wanted |
| `FragmentService.Service.OnTimer` | multicast/libota.c:363-374 | the lowest wanted fragment is sent, and serving stops with the last one |
| `FragmentService.Service.OnOverheard` | multicast/libota.c:805-832 | a fragment heard from somebody else is crossed off |
| `FragmentService.RequestMeansMissing` | multicast/libota.c:1193-1225 | the segment and mask a node sends mean, for the server, exactly the missing fragments of that segment |
| `FragmentService.Serve` | multicast/libota.c:363-374 | a whole service takes the course of its events: every timer sends the lowest open fragment, so that what was asked for is sent once, in ascending order, except what was overheard before its turn, and it stops in time |
| `OtaNode.Tiling` | multicast/libota.c:602-605 | every byte of the image lies in exactly one fragment |
| `OtaNode.WrittenOnce` | multicast/libota.c:746-793 | when the mask is full, every byte has been written exactly once |
| `OtaNode.FullStore` | multicast/libota.c:779-793 | with all fragments the storage holds the image |
| `OtaNode.SoundNext` | multicast/libota.c:698-852 | an honest event keeps every mask bit true, also when a write fails |
| `OtaNode.SteadyNext` | multicast/libota.c:1328-1450 | every event, honest or not, keeps what the states promise: nothing missing, a matching digest, serving only with a checked image |
| `OtaNode.Transitions` | multicast/libota.c:994-1060 | every change of state has its one cause: UPDATE FW only from PROCESS COMPLETED and by its command, PROCESS COMPLETED and CHECKSUM FAILED as the digest of what was read says, requests only with something missing, ABORTED left only by deletion |
| `OtaNode.Collects` | multicast/libota.c:698-953 | over every delivery a node has exactly what arrived; with everything it calculates the checksum, and otherwise it asks for the rest if and only if END FRAGMENTS or the fallback timer has come |
| `OtaNode.Activates` | multicast/libota.c:994-1060 | all fragments in any order, enough checksum timers and the update command end in UPDATE FW with the image stored |
| `OtaNode.AbortedForGood` | multicast/libota.c:854-908 | an abort ends the session from every state but UPDATE FW, whatever comes then short of a manifest |
| `OtaNode.ReliableRun` | multicast/libota.c:1349-1376 | if no read fails, the chunked digest has covered the whole image |
| `OtaNode.FragmentCounts` | multicast/libota.c:746-793 | a new valid fragment is stored in its place, marked and logged, and the last one starts the checksum calculation |
| `OtaNode.ChecksumCompletes` | multicast/libota.c:1349-1412 | with the image in storage and no failing reads, how far the digest is after any number of timers, up to PROCESS COMPLETED |
| `OtaDevice.Device.constructor` | multicast/libota.c:462-542 | a start command opens a session with an empty mask |
| `OtaDevice.Device.OnFragment` | multicast/libota.c:698-852 | the handler with its bit mask and service table does what the state machine does |
| `OtaDevice.Device.OnEndFragments` | multicast/libota.c:910-953 | likewise for the end of the fragments |
| `OtaDevice.Device.OnRequest` | multicast/libota.c:1062-1123 | likewise for a request |
| `OtaDevice.Device.OnFallbackTimer` | multicast/libota.c:375-396 | likewise for the fallback timer |
| `OtaDevice.Device.OnServiceTimer` | multicast/libota.c:363-374 | likewise for the service timer, which sends the lowest fragment still open |
| `OtaDevice.Device.RequestMissing` | multicast/libota.c:1193-1225 | the request names exactly the missing fragments of the lowest incomplete segment, or nothing is missing |
| `OtaDevice.Repair` | multicast/libota.c:1062-1225 | a device that lacks something asks a complete one, segment by segment: every missing fragment is sent exactly once, nothing else is, and then it has the image and calculates the checksum |
| `OtaDevice.Device.Handle` | multicast/libota.c:252-443 | every command and timer of a session goes to a handler that does what the state machine does |
| `OtaDevice.Live` | multicast/libota.c:252-443 | a whole session over any commands, timers, failing writes and reads is a run of the state machine: its states keep their promises, and with genuine fragments a device that has checked, serves or activates an image stores it |
| `OtaNetwork.SentIsGenuine` | multicast/libota.c:1227-1263 | a fragment built from a complete device's storage carries the image's bytes and their checksum |
| `OtaNetwork.GarbledIsIgnored` | multicast/libota.c:729-747 | a fragment with one corrupted byte does nothing to the device it reaches |
| `OtaNetwork.SafeNext` | multicast/libota.c:252-443 | every step of the network keeps packets genuine and devices sound |
| `OtaNetwork.CompletedHasImage` | multicast/libota.c:1062-1123 | a device in PROCESS COMPLETED or UPDATE FW stores the image it may serve |
| `OtaNetwork.NetworkIsSafe` | multicast/libota.c:698-852 | the network invariant over every run, for any number of nodes and sessions and any loss, duplication and reordering |
| `OtaNetwork.Distributes` | multicast/libota.c:252-443 | in every safe network there is a run that brings the image of a complete device to a device outside a session, up to its activation |
| `OtaNetwork.RequestIsServed` | multicast/libota.c:1062-1123 | a request that reaches a complete device leads to every fragment asked for being sent |
| `OtaNetwork.UpdateOfAnySession` | multicast/libota.c:994-1060 | the update command of any session activates a device that has completed its own |
| `OtaNetwork.ManifestEnds` | multicast/libota.c:955-992 | a manifest takes the device it reaches out of its session |
| `OtaNetwork.CrcNotices` | multicast/libota.c:1308-1326 | the protocol's CRC-16 is a checksum as the network assumes |
| `CriticalResend.OrderlyNext` | multicast/libota.c:315-460 | every command and timer, the one of END FRAGMENTS included, keeps counter, buffer and copies in step |
| `CriticalResend.BothValid` | multicast/libota.c:62-98 | the constants of ordinary and of small networks are ones the results are about |
| `CriticalResend.ResendsAreRight` | multicast/libota.c:331-460 | over every run a critical message is repeated at most so many times, with the same contents or the shortened delay, and at the time it should be |
| `CriticalResend.ActivationIsSent` | multicast/libota.c:1768-1813 | an activation is sent at once with the delay asked for, or the least one if that is longer, and as often as it should be unless a command intervenes |
| `CriticalResend.ManifestIsSent` | multicast/libota.c:1746-1754 | a manifest that finds no session is sent with exactly its contents, and as often as it should be; one that finds a session ends it |
| `CriticalResend.StartIsSent` | multicast/libota.c:1756-1766 | an image that was pulled for a firmware command is announced with exactly its contents, and as often as it should be |
| `CriticalResend.FragmentsAreSent` | multicast/libota.c:331-362 | over every run a delivery that is over has sent every fragment once, in order, after the last START, and then END FRAGMENTS once |
| `CriticalResend.DeliveryGoesOn` | multicast/libota.c:331-362 | a delivery that is not over goes on with the next fragment, or with END FRAGMENTS |
| `CriticalResend.DeletedIsSilent` | multicast/libota.c:1673-1720 | a deleted session sends nothing more, but for an activation that is being repeated |
| `CriticalResend.ActivationTogether` | multicast/libota.c:418-460 | all copies of an activation ask for it within one interval, and none at once |

## Left out

- Robust: that every tear of a page is detected is needed only for "every stored byte was sent"; for checksums `Resume.ResumeExactly` decides it, for encrypted pages it depends on payload and key, since tags can collide.
- Campaign.Boot: takes the storage to be the range a download erases, so that programming past it fails; a non-empty payload, sources that send as much as the manifest says, and one encryption key for the whole campaign, where the source generates a new one after a loss.
- Candidate.ReadBackExactly: is about checksummed builds on storage with room for one bad page; for encrypted ones the condition, with one comparison of a tag, is shown sufficient (`Candidate.ReadsStored`), since whether a misaligned read passes its tag depends on the key.
- Install.Iterate: the handler is a number of calls after which it fails; component names, the encrypted flag and the parsing of the firmware header are parameters.
- InstallGate.SoundNext: models builds with a candidate ready header and raw payloads; calls made by the installer's own callbacks are not modelled.
- Updater.Serve: one manifest at a time, whose firmware header does not end in an erased byte and whose pages never look erased when complete (`Updater.ChecksummedSuits`, `Updater.EncryptedSuits`); the installer is the moment at which the image is handed over.
- Delta.Patch: the patch engine is a list of reads, seeks and writes.
- MulticastStore.ImageStore.WriteFragment: a byte that holds already what is to be written counts as writable, as on flash storage.
- OtaDevice.Repair: the two devices hear each other; requests and fragments that are lost are part of `OtaNetwork`.
- OtaNode.SoundNext: device types, payload lengths, resource notifications and the storing of parameters are not modelled; timers may expire at any time.
- CriticalResend.ResendsAreRight: timers expire exactly when they are due; builds for the simulator, which accept any activation delay, are not covered.
- The initialisation vector and byte counts of the candidate store are unbounded integers; the source uses 64 and 32 bits.
- Encrypted raw payloads, the digest of a patched image, and the border router's internal component.
- The external header of version 2 and its message authentication code, and header version 3.
- Manifest parsing, signature verification, key derivation and random numbers.
- The bspatch, lz4 and varint engine, block device drivers, sockets and the LwM2M resources.
- Registration, credentials and callbacks of the client, and semantic versions of components: they would only add easy members.
