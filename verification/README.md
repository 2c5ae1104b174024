# OpenKey: storage, smart-card and PIN verification

A Dafny model of the stateful core of the OpenKey security key, with proofs of what it promises:
a power-cut-safe flash store, the smart-card transport with the OATH and Management applets on top,
CTAPHID framing, the credential index, and the ClientPIN path.

`dafny verify dfyconfig.toml` checks the whole project.

## How the model is organised

Code that works by changing things in place is modelled as a class or a method with a loop, and proved
against a specification function; the properties are then lemmas about that function, over all inputs and
all runs.

| files | what they model |
|---|---|
| `Bytes`, `ByteOrder`, `Fnv` | bit and byte words, the key order of ordered maps, the FNV-1a checksum |
| `NorFlash`, `QspiFlash` | the simulated NOR device; the RP2350 page-programming driver and its region |
| `FlashStore`, `FlashCommit`, `FlashBackend`, `FlashRuns`, `FlashLookup` | slot format and torn slots; commits step by step; the store object; whole runs against a ledger of operations; what is found under a key |
| `Apdu`, `CardRouter` | the APDU parser with the seven layouts; the router with SELECT, response chaining and GET RESPONSE |
| `Tlv`, `OathCodec`, `OathPlans`, `OathApplet`, `OathAnswers` | TLV lists; the stored OATH state; what each OATH command plans to do; the applet object that does it; what each command answers, byte by byte |
| `OathSessions`, `OathRestarts`, `OathChain`, `HotpRuns` | the access gate and the limits over whole sessions; what a restart finds when writes fail; the two continuations of a response; HOTP counters over runs of the whole device |
| `Management`, `ManagementChecks` | stored configuration, READ CONFIG, WRITE CONFIG, SET MODE; what they check and set, tag by tag |
| `Ctaphid` | fragmenter and assembler (section 11.2.4 of CTAP 2.1) |
| `CredentialIndex` | the storage engine's in-memory index and its backend |
| `PinProtocol`, `ClientPin`, `PinChecks`, `PinRuns` | CBC and padding (section 6.2 of NIST SP 800-38A, section 6.5 of CTAP 2.1); the PIN commands; exactly when a PIN is taken as right; runs of guesses |

Modelling decisions a reader needs:

- Cryptography is uninterpreted. A cipher is a pair of functions of which only "decrypt inverts encrypt, block
  by block" is known; sealing is known only to be undone by opening; MACs and hashes are functions of their
  input (with the hash's length). Random bytes, clocks and the outcome of a storage write are parameters.
- The CBOR snapshot and record formats are a pair of functions of which only "decoding inverts encoding" is known.
- A power cut can fall after any device step: the erase, or any one byte programmed. A cut inside the checksum
  field or the payload can only be told apart by the checksum, so there the theorems carry the hypothesis
  `Separates`: if the torn slot passes its own check, its bytes are those that were going to be written. Lemma
  `TornLateIffSeparates` shows that this hypothesis is exactly what is needed, and `OneByteLossSeparates` proves it
  when the torn payload differs in at most one byte. A cut before the checksum field needs no hypothesis.
- `Plan` is what an OATH command decides: a reply, or a commit of a new state with the memory to fall back to when
  the write fails. `OathApplet.OathApplet` is proved to follow the plans, and the properties are proved about them.

## What turned out not to hold

Each is proved with its exact condition.

- A generation is a 64-bit word. A completed commit is what the next opening finds exactly when the generation did
  not wrap (`CompletedCommitRecoveredIff`).
- A commit that returned an error may still be what the next opening finds. Runs are therefore stated with one
  operation "in doubt" (`RunRefines`).
- CALCULATE ALL never reaches the OATH applet behind the router. Its instruction byte is A4
  (crates/openkey-device/src/firmware/yubico_oath.rs:128), which is SELECT (crates/openkey-transport/src/iso7816.rs:89), and
  the router looks there first. A frame reaches the selected applet exactly when its instruction byte is neither A4 nor C0
  (`ReachesAppletIff`); a CALCULATE ALL request is answered 6A82 as long as no identifier starts with its first byte, 74
  (`CalculateAllIsASelection`; the registered identifiers start with A0). The command itself is modelled at the applet.
- A restart after a command that answered success need not reproduce the state: every OATH command but CALCULATE keeps its
  change in memory when its write fails, and a later command that writes nothing then answers success
  (`FailedPutThenList`, with an input in `SomePutIsLost`). A restart finds the state of the last write that succeeded, and
  a step parts that from memory exactly when it loses a change (`OathRestarts.PartedIffLost`). The Management applet does
  the same (`Management.PartedIffLost`, `SomeConfigurationIsLost`).
- The write that spends a PIN try is not checked
  (crates/openkey-core/src/ctap2/ctap2.rs:3010-3016). A wrong guess costs a try exactly when that write succeeds
  (`MismatchIsPaidIffWritten`), and on a device whose writes fail the number of guesses has no bound
  (`FailingWritesUnbounded`, with such a device in `SomeDeviceUnbounded`), although the documentation at
  crates/openkey-core/src/ctap2/client_pin.rs:297-298 promises a persisted decrement. What holds of every run: at most three
  guesses in one power cycle, and at most eight between two successes plus one for each guess whose write failed
  (`GuessesAreBounded`).
- In absolute mode the HOTP counter saturates at the largest 64-bit value, where the same challenge is accepted again;
  below it a challenge is accepted once (`AbsoluteChallengeReusableIff`).
- SEND REMAINING delivers the window it consumes exactly when it carries Le (`WindowDeliveredIffLe`).
- A PIN survives padding exactly when it does not end in a zero byte (`PaddingRoundTripIff`, `NewPinIsSentPinIff`).
- A plain value stored under a credential's key, or one that decodes as a credential, breaks the index; `KvStoreAgreesIff`
  says exactly when. A backend that refuses a write or a deletion parts the index from it exactly in the cases of
  `StepAgreesIff`: a change of a record, a deletion or an eviction reaches only memory. Reopening makes them agree again.
- A credential limit is kept exactly when it is not zero (`LimitKeptIff`), and it does not survive a reopening.
- The page driver and the simulated device leave the same contents exactly when no byte from the first refused one on
  would have changed anything; the simulated call succeeds and they agree exactly when the data only clears bits
  (`DriversAgreeIff`, and `RefusedAndYetTheSame` for the difference).

Where comments and code differ, the model follows the code: the CTAPHID comment cites section 8.2 of CTAP 2.1, the
framing is in section 11.2.4; the comment on `tlv_get` says the last occurrence wins, while the function returns the first
and it is the parser that keeps one entry per tag, with the last value (`LastDuplicateWins`).

## Model

| member | source | states |
|---|---|---|
| Fnv.MulInverse | crates/openkey-storage/src/storage.rs:376-380 | 899433627 undoes the multiplication by the FNV prime modulo 2^32 |
| Fnv.MixUndone | crates/openkey-storage/src/storage.rs:376-380 | one checksum step is undone by its inverse, so it is a bijection on 32-bit words for each byte |
| Fnv.MixSeparatesBytes | crates/openkey-storage/src/storage.rs:376-380 | different bytes take the same state to different states |
| Fnv.FoldInjective | crates/openkey-storage/src/storage.rs:376-380 | different states stay different over any common suffix |
| Fnv.OneByteSeparates | crates/openkey-storage/src/storage.rs:376-380 | equal-length payloads that differ in exactly one byte never have the same checksum |
| Fnv.KnownValues | crates/openkey-storage/src/storage.rs:376-380 | the checksum of nothing and of one letter are the published values of FNV-1a |
| NorFlash.SimulatedFlash.constructor | crates/openkey-storage/src/storage.rs:256-263 | a new device is all 0xff |
| NorFlash.SimulatedFlash.Read | crates/openkey-storage/src/storage.rs:280-291 | the bytes asked for, or an error and nothing written |
| NorFlash.SimulatedFlash.EraseSector | crates/openkey-storage/src/storage.rs:293-305 | exactly one sector becomes 0xff, or an error and no change |
| NorFlash.SimulatedFlash.Program | crates/openkey-storage/src/storage.rs:307-337 | old AND data up to the first 0-to-1 request or the armed failure, which is disarmed; nothing else changes |
| NorFlash.Accepted | crates/openkey-storage/src/storage.rs:318-328 | the longest prefix of the data that only clears bits: what the device programs before it refuses |
| Bytes.BitByBit | crates/openkey-storage/src/storage.rs:323-328 | AND, OR and XOR act on every bit as they should |
| QspiFlash.RegionIsContained | targets/rp2350/src/lib.rs:34-46 | the region, when there is one, is whole sectors, at least two, at the end of the flash |
| QspiFlash.QspiFlashDevice.Read | targets/rp2350/src/qspi_flash.rs:220-234 | the bytes of the region, or an error and nothing written |
| QspiFlash.QspiFlashDevice.XipAddr | targets/rp2350/src/qspi_flash.rs:201-209 | an address inside the window exactly for offsets inside the region |
| QspiFlash.QspiFlashDevice.EraseSector | targets/rp2350/src/qspi_flash.rs:236-254 | one sector of the region becomes 0xff, and no other byte of the chip changes |
| QspiFlash.QspiFlashDevice.RomProgramPage | targets/rp2350/src/qspi_flash.rs:275-292 | the boot ROM clears bits of one aligned page and touches no other byte |
| QspiFlash.QspiFlashDevice.Program | targets/rp2350/src/qspi_flash.rs:256-297 | for every offset and length inside the region, the page loop leaves old AND data in the range and nothing else changed on the chip; it ends and stays inside the region |
| QspiFlash.PageStep | targets/rp2350/src/qspi_flash.rs:264-294 | a read-modify-write page keeps the bytes that were only read back |
| QspiFlash.PageInRegion | targets/rp2350/src/qspi_flash.rs:264-275 | a page that starts inside the region ends inside it and is an aligned page of the chip |
| QspiFlash.DriversAgreeIff | targets/rp2350/src/qspi_flash.rs:256-297 | the two drivers leave the same contents exactly when no byte from the first refused one on would have changed anything; the simulated call succeeds and they agree exactly when the data only clears bits, and exactly then the data reads back |
| QspiFlash.RefusedAndYetTheSame | crates/openkey-storage/src/storage.rs:318-328 | over a cleared byte the simulated device refuses and yet both leave the same contents |
| FlashStore.TornEarly | crates/openkey-storage/src/storage.rs:387-394 | a slot cut in the magic, generation or length is rejected without the checksum |
| FlashStore.SlotLayout | crates/openkey-storage/src/storage.rs:425-436 | the letters OKF1, then generation, length and checksum with the low byte first, then the payload |
| FlashStore.TornLateIffSeparates | crates/openkey-storage/src/storage.rs:382-401 | from the checksum field on, a torn slot is rejected or whole if and only if the checksum separates it |
| FlashStore.WholeSlotReads | crates/openkey-storage/src/storage.rs:382-438 | a slot whose header and payload are all down reads back the generation and the map |
| FlashStore.TornSlotReads | crates/openkey-storage/src/storage.rs:382-438 | a slot cut at any byte reads as unreadable or as the new map, the latter for certain when whole |
| FlashStore.OneByteLossSeparates | crates/openkey-storage/src/storage.rs:395-398 | when the torn payload differs in at most one byte the checksum is proved to separate it |
| FlashCommit.StepsReachCut | crates/openkey-storage/src/storage.rs:416-438 | running the first n device steps of a commit leaves exactly the contents described by the cut |
| FlashCommit.OpenSynced | crates/openkey-storage/src/storage.rs:403-414 | opening a device in sync finds the map in memory or the one in doubt, and the result is in sync |
| FlashCommit.BlankOpens | crates/openkey-storage/src/storage.rs:403-414 | a blank device opens as the empty map |
| FlashCommit.CutKeepsSync | crates/openkey-storage/src/storage.rs:416-438 | a commit cut after any step leaves memory and flash in sync, and at most the new map in doubt; two readable slots never share a generation |
| FlashCommit.CompletedCommitSyncs | crates/openkey-storage/src/storage.rs:416-438 | a completed commit leaves the next generation in sync with nothing in doubt |
| FlashCommit.PowerCutAtomicity | crates/openkey-storage/src/storage.rs:382-438 | cut a commit after any number of device steps and reopen: it opens, with exactly the old map or exactly the new one; before any step the old one, after all the new one |
| FlashCommit.LastByteCutIsAtomic | crates/openkey-storage/src/storage.rs:395-438 | a cut that loses only the last byte is atomic with no hypothesis about the checksum |
| FlashCommit.CompletedCommitRecoveredIff | crates/openkey-storage/src/storage.rs:403-438 | a completed commit is what the next opening finds if and only if the generation did not wrap |
| FlashBackend.FlashStorageBackend.New | crates/openkey-storage/src/storage.rs:354-370 | refuses too small a device, otherwise opens to the map of the winning slot |
| FlashBackend.FlashStorageBackend.ReadSector | crates/openkey-storage/src/storage.rs:382-401 | reads a slot as the specification of the format says |
| FlashBackend.FlashStorageBackend.LoadLatest | crates/openkey-storage/src/storage.rs:403-414 | the valid slot with the highest generation wins, and an undecodable one is an error |
| FlashBackend.FlashStorageBackend.Commit | crates/openkey-storage/src/storage.rs:416-438 | too big a map changes nothing; otherwise the flash is that of a commit cut where the device failed, and memory moves on only if none did |
| FlashBackend.FlashStorageBackend.Update | crates/openkey-storage/src/storage.rs:446-466 | a write that succeeds sets its key and a delete removes its key, and every other key keeps its value; one that fails changes nothing in memory; the flash is that of the commit |
| FlashBackend.ErasedProgram | crates/openkey-storage/src/storage.rs:307-337 | the erased sector accepts every image byte, and holds it |
| FlashRuns.Perform | crates/openkey-storage/src/storage.rs:446-466 | every operation of the store object is one event of a run: completed, or failed after some step |
| FlashRuns.InterruptedSyncs | crates/openkey-storage/src/storage.rs:416-438 | an operation that failed or was cut leaves the store in sync with at most its own map in doubt |
| FlashRuns.StepRefines | crates/openkey-storage/src/storage.rs:403-471 | each event is matched by a step of the ledger of operations in effect |
| FlashRuns.RunRefines | crates/openkey-storage/src/storage.rs:403-471 | from a blank device, any sequence of writes, deletes, failures, cuts and reopenings keeps opening; the map is the effect of the ledger and the generation counts its operations |
| FlashRuns.AcknowledgedStay | crates/openkey-storage/src/storage.rs:416-466 | every acknowledged operation stays in effect, in order; each reopening adds at most one that was never acknowledged |
| FlashLookup.CompletedIsFound | crates/openkey-storage/src/storage.rs:442-466 | a completed write or delete is found at once and again after a restart, key by key; one that does not fit changes nothing |
| FlashLookup.InterruptedIsFoundOrNot | crates/openkey-storage/src/storage.rs:403-466 | one that is cut short is found whole or not at all |
| FlashLookup.LastDecides | crates/openkey-storage/src/storage.rs:446-466 | what is found under a key is decided by the last operation in effect on it |
| FlashLookup.LastOnIsLast | crates/openkey-storage/src/storage.rs:446-466 | that is the last one in order |
| FlashLookup.FoundAfterRun | crates/openkey-storage/src/storage.rs:403-471 | the same after any run from a blank device |
| Apdu.Parse | crates/openkey-transport/src/iso7816.rs:151-283 | an expected length, when present, is 1 to 65536; only frames under four bytes are too short |
| Apdu.ParseInvertsEncode | crates/openkey-transport/src/iso7816.rs:151-283 | the parser gives back header, data and expected length of every encoder of cases 1, 2S, 3S, 4S, 2E, 3E and 4E |
| Apdu.AcceptedFramesAreEncodings | crates/openkey-transport/src/iso7816.rs:151-283 | every accepted frame is the encoding of what it was read as: no byte is dropped |
| Apdu.ParserIsExact | crates/openkey-transport/src/iso7816.rs:151-283 | a frame is accepted if and only if it is one of the encodings |
| Apdu.OneReading | crates/openkey-transport/src/iso7816.rs:151-283 | no frame is the encoding of two different commands or layouts |
| Apdu.LeIsRead | crates/openkey-transport/src/iso7816.rs:267-283 | an expected length of zero reads as 256, or as 65536 in extended form |
| CardRouter.ScanFindsMatch | crates/openkey-transport/src/iso7816.rs:447-471 | SELECT takes the first exact match, otherwise the first of the longest prefix matches, otherwise none |
| CardRouter.MatchIsUnique | crates/openkey-transport/src/iso7816.rs:453-466 | there is one match for a request at most |
| CardRouter.SelectIsExact | crates/openkey-transport/src/iso7816.rs:447-484 | a raw SELECT frame selects the match if it accepts, and answers its data with 9000; with no match 6A82, with a refusal its status word, and the selection stays |
| CardRouter.SelectedAnswers | crates/openkey-transport/src/iso7816.rs:411-442 | any frame but SELECT and GET RESPONSE is answered by the selected applet, as far as Le lets it, the rest kept with the exact count; 6D00 without one |
| CardRouter.SelectThenAnswer | crates/openkey-transport/src/iso7816.rs:411-484 | the applet selected answers the next command |
| CardRouter.GetResponseAnswers | crates/openkey-transport/src/iso7816.rs:516-542 | GET RESPONSE hands out what Le asks for, 256 bytes without it, or what is left; 6985 without a chain |
| CardRouter.MalformedIsRefused | crates/openkey-transport/src/iso7816.rs:411-415 | a frame that cannot be read answers 6700 and changes nothing |
| CardRouter.Router.Exchange | crates/openkey-transport/src/iso7816.rs:411-442 | a raw frame is dispatched to SELECT, GET RESPONSE or the selected applet, with errors as status words and any other command ending the chain |
| CardRouter.ReachesAppletIff | crates/openkey-transport/src/iso7816.rs:411-442 | what applets do with commands can matter for a frame if and only if its instruction byte is neither A4 nor C0 |
| CardRouter.Router.Select | crates/openkey-transport/src/iso7816.rs:447-484 | a failed selection keeps the previous one; a successful one answers with the applet data |
| CardRouter.Router.DeliverInline | crates/openkey-transport/src/iso7816.rs:491-512 | inline up to Le, the rest retained |
| CardRouter.Router.GetResponse | crates/openkey-transport/src/iso7816.rs:516-542 | the next chunk, and the chain ends with its last byte |
| CardRouter.ServedChunk | crates/openkey-transport/src/iso7816.rs:516-542 | each GET RESPONSE delivers at least one byte from where the chain stands, announces exactly what is left, and ends the chain with the applet status word exactly at the end |
| CardRouter.FetchIsExact | crates/openkey-transport/src/iso7816.rs:516-542 | any run of GET RESPONSEs gives consecutive non-empty chunks with exact counts, and the final status word once, last |
| CardRouter.ReassemblyIsExact | crates/openkey-transport/src/iso7816.rs:491-542 | for every response and every sequence of Le values, inline part and chunks concatenate to the response; the inline part and every chunk carry the exact count of what is left and the applet status word comes on the last one only; the chain ends within as many fetches as bytes |
| CardRouter.FramesFetch | crates/openkey-transport/src/iso7816.rs:411-442 | raw GET RESPONSE frames drain the chain exactly so |
| CardRouter.RawReassembly | crates/openkey-transport/src/iso7816.rs:411-542 | the same, counts and status words included, from raw frames for a command to the selected applet |
| Ctaphid.Fragment | tools/ctaphid_bridge.py:130-142 | one INIT and the continuations that cover the payload, numbered modulo 128; too long a payload is refused |
| Ctaphid.Assembler.Process | tools/ctaphid_bridge.py:159-193 | a packet of the wrong size is refused; otherwise the assembler takes the specified step |
| Ctaphid.StepKeepsConsistent | tools/ctaphid_bridge.py:159-193 | while active the buffer holds at least 57 bytes, fewer than announced, and at most 7609 are announced |
| Ctaphid.EmittedMessagesAreSound | tools/ctaphid_bridge.py:159-193 | on any packet stream, an emitted message is exactly the announced bytes of one INIT and its consecutively numbered continuations on the same channel |
| Ctaphid.PacketLayout | tools/ctaphid_bridge.py:96-108 | where channel, type bit, command, length and data are in a packet |
| Ctaphid.MessagesWereOnTheWire | tools/ctaphid_bridge.py:159-193 | soundness in bytes: the packets a message came from, byte by byte |
| Ctaphid.FragmentsReassemble | tools/ctaphid_bridge.py:96-193 | from any assembler state, the fragments of a message yield nothing until the last packet, and then the message, also past 128 continuations |
| Ctaphid.FragmentBytes | tools/ctaphid_bridge.py:111-142 | the bytes of every packet of a message: 57 in the first, 59 in each further one, padded with zeros |
| Ctaphid.OnePacketBytes | tools/ctaphid_bridge.py:111-142 | and of a message that fits in one |
| Tlv.ParseTlvs | crates/openkey-device/src/firmware/yubico_oath.rs:480-496 | the reading loop gives the list the bytes denote, or an error when an entry is cut short |
| Tlv.ParsedFlatten | crates/openkey-device/src/firmware/yubico_oath.rs:469-496 | reading inverts writing |
| Tlv.ParsedIsFlat | crates/openkey-device/src/firmware/yubico_oath.rs:469-496 | every list read is the only reading of its bytes |
| OathCodec.SerializeState | crates/openkey-device/src/firmware/yubico_oath.rs:313-345 | writes salt, access record, count and the credentials in name order |
| ByteOrder.SortedKeysAscend | crates/openkey-device/src/firmware/yubico_oath.rs:327-341 | the credentials of a state are walked in ascending order of their names |
| ByteOrder.SortedKeysDistinct | crates/openkey-device/src/firmware/yubico_oath.rs:327-341 | and each once |
| OathCodec.ParseState | crates/openkey-device/src/firmware/yubico_oath.rs:387-464 | reads what the format says, and rejects unknown versions, bad fields and trailing bytes |
| OathCodec.BlobReader.TakeBytes | crates/openkey-device/src/firmware/yubico_oath.rs:358-366 | the next bytes and the position moved past them, or nothing and no move |
| OathCodec.BlobReader.TakeLenPrefixed | crates/openkey-device/src/firmware/yubico_oath.rs:377-380 | a length byte and that many bytes |
| OathCodec.StateRoundTrip | crates/openkey-device/src/firmware/yubico_oath.rs:313-464 | every state within the limits is read back exactly as it was |
| OathCodec.ParsedIsRepresentable | crates/openkey-device/src/firmware/yubico_oath.rs:387-464 | every state read from storage is within the limits, the number of credentials among them, and is reproduced when written and read again |
| OathPlans.TagsOfExact | crates/openkey-device/src/firmware/yubico_oath.rs:500-528 | a request is accepted if and only if every required tag occurs once, every optional tag at most once and no other tag at all; the values are those found under the tags, in the order asked |
| OathPlans.PutRequest | crates/openkey-device/src/firmware/yubico_oath.rs:748-800 | an accepted PUT carries a name and a credential within the limits |
| OathApplet.OathApplet.Open | crates/openkey-device/src/firmware/yubico_oath.rs:604-663 | loads the stored state if it can be read, otherwise stores a factory state |
| OathApplet.OathApplet.PersistState | crates/openkey-device/src/firmware/yubico_oath.rs:673-690 | stores the sealed serialised state, or nothing |
| OathApplet.OathApplet.Put | crates/openkey-device/src/firmware/yubico_oath.rs:748-820 | adds or replaces the credential and stores the state; when the write fails the answer is 6581 and memory keeps the change; a full table is refused |
| OathApplet.OathApplet.Delete | crates/openkey-device/src/firmware/yubico_oath.rs:822-837 | removes the named credential and stores that |
| OathApplet.OathApplet.Rename | crates/openkey-device/src/firmware/yubico_oath.rs:839-882 | moves the credential, counter and all, to a free valid name and stores that |
| OathApplet.OathApplet.SetCode | crates/openkey-device/src/firmware/yubico_oath.rs:884-940 | sets or clears the access key after checking the proof |
| OathApplet.OathApplet.Reset | crates/openkey-device/src/firmware/yubico_oath.rs:942-954 | with the two magic bytes, back to the factory state |
| OathApplet.OathApplet.List | crates/openkey-device/src/firmware/yubico_oath.rs:956-966 | all names in order |
| OathApplet.OathApplet.Calculate | crates/openkey-device/src/firmware/yubico_oath.rs:968-1059 | for HOTP the moved counter is stored before the code is answered, and moved back in memory when that write fails |
| OathApplet.OathApplet.CalculateAll | crates/openkey-device/src/firmware/yubico_oath.rs:1061-1117 | one entry per credential in order, and no HOTP counter moves |
| OathApplet.OathApplet.Validate | crates/openkey-device/src/firmware/yubico_oath.rs:1119-1164 | a response that matches the pending challenge validates the session and makes the challenge of the host the pending one; anything else changes nothing |
| OathApplet.OathApplet.SendRemaining | crates/openkey-device/src/firmware/yubico_oath.rs:725-746 | a window of the mirrored response, and the mirror moved past it |
| OathApplet.OathApplet.Dispatch | crates/openkey-device/src/firmware/yubico_oath.rs:1174-1189 | each instruction code reaches its command; VALIDATE and RESET alone run without a validated session |
| OathApplet.OathApplet.Process | crates/openkey-device/src/firmware/yubico_oath.rs:1219-1251 | every command follows its plan in answer, memory and storage, and mirrors the response |
| OathApplet.OathApplet.Select | crates/openkey-device/src/firmware/yubico_oath.rs:696-723 | ends the validated session and, with a key set, issues and stores a fresh challenge |
| OathAnswers.CalculateAnswersCode | crates/openkey-device/src/firmware/yubico_oath.rs:968-1059 | every answered CALCULATE holds one entry: the digits and the keyed hash of the stored counter, of the counter in the challenge, or of the TOTP challenge, whole or truncated; the counter after it is stored and an error changes nothing |
| OathAnswers.CalculateRefuses | crates/openkey-device/src/firmware/yubico_oath.rs:968-1043 | which error CALCULATE answers: 6A80 to a request that is not one name and one challenge, 6984 for an unknown name or a counter already passed, 6581 when it cannot go on |
| OathAnswers.CodeEntryIsCode | crates/openkey-device/src/firmware/yubico_oath.rs:551-560 | the truncated form is the four bytes at the offset in the last digit of the digest |
| OathAnswers.PutReads | crates/openkey-device/src/firmware/yubico_oath.rs:748-795 | a PUT request is read as a credential if and only if its entries describe it: name, type, algorithm, digits, secret, property bits and counter |
| OathAnswers.PutAnswers | crates/openkey-device/src/firmware/yubico_oath.rs:748-820 | PUT stores exactly the credential described; 6A80 if there is none and 6A84 over a full table |
| OathAnswers.DeleteAnswers | crates/openkey-device/src/firmware/yubico_oath.rs:822-837 | DELETE removes the credential named and no other; 6984 if there is none |
| OathAnswers.RenameAnswers | crates/openkey-device/src/firmware/yubico_oath.rs:839-882 | RENAME reads two names and moves the credential as it is to the second, which must be free |
| OathAnswers.RenameRefuses | crates/openkey-device/src/firmware/yubico_oath.rs:839-882 | which error RENAME answers, case by case |
| OathAnswers.SetCodeAnswers | crates/openkey-device/src/firmware/yubico_oath.rs:884-940 | SET CODE takes the access key away, or sets the one whose keyed hash of the challenge was given |
| OathAnswers.SetCodeRefuses | crates/openkey-device/src/firmware/yubico_oath.rs:884-925 | which error SET CODE answers: 6984 to a wrong response, 6A80 to what it cannot take |
| OathAnswers.ResetAnswers | crates/openkey-device/src/firmware/yubico_oath.rs:942-954 | RESET needs its two bytes and leaves a new salt and nothing else |
| OathAnswers.ListAnswers | crates/openkey-device/src/firmware/yubico_oath.rs:956-966 | LIST reads back as type, algorithm and name of every credential, in order |
| OathAnswers.CalculateAllAnswers | crates/openkey-device/src/firmware/yubico_oath.rs:1061-1117 | CALCULATE ALL reads back as every name with its code, or that it has none to give, and moves no counter |
| OathAnswers.ValidateAnswers | crates/openkey-device/src/firmware/yubico_oath.rs:1119-1164 | the response must be the keyed hash of the pending challenge, and the proof answered is the keyed hash of the challenge the host sent |
| OathAnswers.ValidateRefuses | crates/openkey-device/src/firmware/yubico_oath.rs:1119-1147 | which error VALIDATE answers, case by case, and that a refusal changes nothing |
| OathAnswers.SelectAnswers | crates/openkey-device/src/firmware/yubico_oath.rs:696-723 | a selection issues a new challenge when a key is set, and its answer reads back as version, salt, challenge and algorithm |
| OathAnswers.UnknownIsRefused | crates/openkey-device/src/firmware/yubico_oath.rs:1174-1227 | a wrong class answers 6E00 and an unknown instruction 6D00 |
| OathSessions.CommandsKeepGood | crates/openkey-device/src/firmware/yubico_oath.rs:748-1164 | every command keeps the limits: at most 32 credentials, sizes, no pending challenge without an access key, validated only with a key |
| OathSessions.SelectKeepsGood | crates/openkey-device/src/firmware/yubico_oath.rs:711-723 | so does SELECT |
| OathSessions.FactorInRange | crates/openkey-device/src/firmware/yubico_oath.rs:996-1025 | the moving factor is never below the counter, and the next counter exceeds it exactly below the largest 64-bit value |
| OathSessions.LockedSessionRefuses | crates/openkey-device/src/firmware/yubico_oath.rs:696-709 | with a key set and the session not validated, every gated command answers 6982 and leaves state and storage alone |
| OathSessions.LockedStateChangesOnlyBy | crates/openkey-device/src/firmware/yubico_oath.rs:696-723 | a locked session is opened or changed only by RESET or by a VALIDATE that proves the key |
| OathSessions.ValidateCommitsIff | crates/openkey-device/src/firmware/yubico_oath.rs:1119-1164 | VALIDATE goes through if and only if the response is the keyed hash of the pending challenge; otherwise the pending challenge stays |
| OathSessions.ValidatedMeansProved | crates/openkey-device/src/firmware/yubico_oath.rs:696-723 | in every reachable state a validated session has a key set and a successful VALIDATE since the last SELECT |
| OathSessions.StoredStateBoots | crates/openkey-device/src/firmware/yubico_oath.rs:622-690 | the blob a write leaves loads into exactly the state in memory |
| OathRestarts.RestartReproducesState | crates/openkey-device/src/firmware/yubico_oath.rs:622-690 | over any run of commands, selections and power cycles, whatever writes fail, the applet keeps booting; a restart finds the state of the last write that succeeded, which is the state in memory unless a write of a command other than CALCULATE was lost since |
| OathRestarts.FailureKeepsChange | crates/openkey-device/src/firmware/yubico_oath.rs:748-1164 | after a failed write memory keeps the change of every command and of SELECT, except that CALCULATE takes its change back |
| OathRestarts.PartedIffLost | crates/openkey-device/src/firmware/yubico_oath.rs:673-690 | a step parts memory from storage if and only if its write fails, it changed the state and it is not CALCULATE |
| OathRestarts.FailedPutThenList | crates/openkey-device/src/firmware/yubico_oath.rs:748-966 | after a PUT whose write failed, LIST answers success with the credential in memory, and a restart drops it |
| OathRestarts.SomePutIsLost | crates/openkey-device/src/firmware/yubico_oath.rs:748-820 | a fresh device and a well-formed PUT meet these conditions |
| OathChain.MirrorStartsWhereInlineEnded | crates/openkey-device/src/firmware/yubico_oath.rs:1229-1243 | for every command that reaches the applet and every Le, the mirror starts exactly where the inline delivery stopped |
| OathChain.CalculateAllIsASelection | crates/openkey-transport/src/iso7816.rs:427-429 | a CALCULATE ALL frame is a selection by its data field; a well-formed one is answered 6A82 and changes nothing but the chain when no identifier starts with its first byte |
| OathChain.WindowWithLe | crates/openkey-device/src/firmware/yubico_oath.rs:725-746 | SEND REMAINING with Le returns a window of at most Le and 255 bytes inline and leaves no chain in the router |
| OathChain.WindowDeliveredIffLe | crates/openkey-transport/src/iso7816.rs:491-512 | the window taken from the mirror is delivered if and only if the frame carries Le |
| OathChain.DrainIsExact | crates/openkey-device/src/firmware/yubico_oath.rs:725-746 | a run of SEND REMAINING frames gives consecutive windows with exact counts |
| OathChain.SendRemainingReassembles | crates/openkey-device/src/firmware/yubico_oath.rs:725-746 | for every response the router obtains from the OATH applet and every Le, the SEND REMAINING frames with Le deliver the rest with no gap or repeat and end on 9000 |
| HotpRuns.AttemptIsSafe | crates/openkey-device/src/firmware/yubico_oath.rs:673-690 | a guarded write keeps the stored and the memory counter past every revealed one, whatever step it is cut at |
| HotpRuns.CommandGuards | crates/openkey-device/src/firmware/yubico_oath.rs:968-1059 | every command keeps the counter of the credential past what it reveals |
| HotpRuns.StepIsSafe | crates/openkey-device/src/firmware/yubico_oath.rs:996-1046 | no command, rename, selection, foreign write, cut or restart breaks the guard; a code revealed raises the bound strictly |
| HotpRuns.CodesAreNeverReused | crates/openkey-device/src/firmware/yubico_oath.rs:996-1046 | along any run that does not replace the credential, the revealed counters strictly increase, stored and memory counters exceed them all, with power cuts inside the flash commit, and every answer given is the code of the counter recorded with it under one and the same key |
| HotpRuns.RevealedIsAnswered | crates/openkey-device/src/firmware/yubico_oath.rs:1013-1059 | a counter is recorded exactly when an HOTP code is answered, and the answer is the code of that counter |
| HotpRuns.MessagesDiffer | crates/openkey-device/src/firmware/yubico_oath.rs:996-1025 | no two of the messages hashed are the same |
| HotpRuns.AcknowledgedPutStartsRun | crates/openkey-device/src/firmware/yubico_oath.rs:748-820 | an acknowledged PUT of an HOTP credential is where such a run starts |
| HotpRuns.AbsoluteChallengeReusableIff | crates/openkey-device/src/firmware/yubico_oath.rs:1013-1025 | a challenge is accepted again if and only if its value is the largest 64-bit counter |
| Management.SerializeState | crates/openkey-device/src/firmware/yubico_management.rs:179-199 | writes the fields of the current format |
| Management.StateRoundTrip | crates/openkey-device/src/firmware/yubico_management.rs:179-248 | every good state is read back as it was |
| Management.FirstFormatMigrates | crates/openkey-device/src/firmware/yubico_management.rs:204-220 | the first format keeps its serial and gets factory settings |
| Management.ParseConfigPayload | crates/openkey-device/src/firmware/yubico_management.rs:625-651 | the length byte must be exact; one entry per tag |
| Management.UpsertSlot | crates/openkey-device/src/firmware/yubico_management.rs:643-647 | replaces the entry of a tag in place or appends it |
| Management.LastDuplicateWins | crates/openkey-device/src/firmware/yubico_management.rs:616-651 | what is found under a tag is its last occurrence |
| Management.ReadConfig | crates/openkey-device/src/firmware/yubico_management.rs:377-412 | the length byte and the device information |
| Management.DeviceInfoReadsBack | crates/openkey-device/src/firmware/yubico_management.rs:377-412 | the length byte is exact and every entry parses back to its value, form factor and firmware included; zero optional fields are omitted and the lock code is never shown |
| Management.ConfiguredIsGood | crates/openkey-device/src/firmware/yubico_management.rs:434-520 | an accepted configuration is good and survives a restart |
| Management.ModeSetIsGood | crates/openkey-device/src/firmware/yubico_management.rs:527-561 | so is a mode set |
| Management.RefusalCodes | crates/openkey-device/src/firmware/yubico_management.rs:434-520 | WRITE CONFIG is refused only with 6700, 6A80 or 6982 |
| Management.ManagementApplet.WriteConfig | crates/openkey-device/src/firmware/yubico_management.rs:434-520 | a refusal changes neither memory nor storage; an accepted request changes both as specified |
| Management.ManagementApplet.SetMode | crates/openkey-device/src/firmware/yubico_management.rs:527-561 | likewise for SET MODE |
| ManagementChecks.WriteConfigIsExact | crates/openkey-device/src/firmware/yubico_management.rs:434-520 | WRITE CONFIG, case by case: length byte, entries, unlock code and widths with their codes, and, accepted, every field as the last value of its tag or as it was |
| ManagementChecks.SetModeIsExact | crates/openkey-device/src/firmware/yubico_management.rs:527-561 | SET MODE sets the supported interfaces of the code, from the table masked, and both timeouts, and nothing else |
| ManagementChecks.WidthsByTag | crates/openkey-device/src/firmware/yubico_management.rs:478-500 | checking every entry is checking every tag, as there is one entry per tag |
| Management.ReachableStatesAreGood | crates/openkey-device/src/firmware/yubico_management.rs:434-561 | over any run of requests, failed writes and restarts, in memory and in storage, the enabled interfaces stay within 0x062E and the serial stays; the applet keeps booting, and a restart finds the last state stored, which is the one in memory when the last change was stored |
| Management.PartedIffLost | crates/openkey-device/src/firmware/yubico_management.rs:348-371 | a request parts memory from storage if and only if it is adopted, changes the state and its write fails |
| Management.SomeConfigurationIsLost | crates/openkey-device/src/firmware/yubico_management.rs:527-561 | a SET MODE whose write fails disables every interface until the restart |
| CredentialIndex.CredKeyInjective | crates/openkey-storage/src/storage.rs:779-779 | different credentials have different backend keys |
| CredentialIndex.LoadAgrees | crates/openkey-storage/src/storage.rs:685-709 | loading a backend whose records are under their own keys gives an index that agrees with it |
| CredentialIndex.LoadRebuilds | crates/openkey-storage/src/storage.rs:685-709 | loading in any key order rebuilds the index that agrees with the backend |
| CredentialIndex.StorageEngine.WithBackend | crates/openkey-storage/src/storage.rs:669-709 | opens with the credentials the backend holds |
| CredentialIndex.StorageEngine.StoreValue | crates/openkey-storage/src/storage.rs:720-727 | the value goes to the backend and then the session; an error of the backend changes nothing |
| CredentialIndex.StorageEngine.Retrieve | crates/openkey-storage/src/storage.rs:730-740 | the backend first, then the session |
| CredentialIndex.StorageEngine.DeleteValue | crates/openkey-storage/src/storage.rs:743-749 | the key leaves the session, and the backend unless it refuses, which is not reported |
| CredentialIndex.StorageEngine.Store | crates/openkey-storage/src/storage.rs:755-791 | evicts when full, encrypts, and writes the record with all its fields but the private key; at most one other leaves; a refused eviction ends it, a refused write leaves the index alone |
| CredentialIndex.StorageEngine.SetSignCount | crates/openkey-storage/src/storage.rs:822-843 | the record has the count given; nothing else of it and no other record changes; in the index first and then in the backend, whose refusal is an error that leaves the index changed |
| CredentialIndex.StorageEngine.SetUserInfo | crates/openkey-storage/src/storage.rs:957-976 | the record has the two names given; nothing else changes, likewise |
| CredentialIndex.StorageEngine.Delete | crates/openkey-storage/src/storage.rs:848-862 | the record leaves the index and then the backend, whose refusal is an error |
| CredentialIndex.StorageEngine.ClearAll | crates/openkey-storage/src/storage.rs:869-879 | index and values are empty, and the backend keeps exactly the keys it refused to delete |
| CredentialIndex.StorageEngine.PruneOldest | crates/openkey-storage/src/storage.rs:1083-1101 | the first credential of least creation time leaves |
| CredentialIndex.EvictionTakesOldest | crates/openkey-storage/src/storage.rs:1083-1101 | an eviction takes one credential, none was created earlier, and the others stay |
| CredentialIndex.KvStoreAgreesIff | crates/openkey-storage/src/storage.rs:720-727 | storing a plain value keeps the agreement if and only if it stays clear of the records |
| CredentialIndex.StepKeepsSound | crates/openkey-storage/src/storage.rs:685-879 | whatever the backend refuses, every operation keeps records under their own keys and the index within its limit |
| CredentialIndex.StepAgreesIff | crates/openkey-storage/src/storage.rs:685-976 | one operation parts index and backend if and only if it is a refused eviction, deletion, change of a record, or clearing of a record; reopening makes them agree from anywhere |
| CredentialIndex.IndexAgreesAfterAnyRun | crates/openkey-storage/src/storage.rs:685-976 | after any run of operations, refusals and reopenings, the index is within its limit and reopening gives an index that agrees with the backend; it is the one in memory unless a refusal parted them since the last opening |
| CredentialIndex.ReopeningFinds | crates/openkey-storage/src/storage.rs:685-976 | after an operation the backend carried through, a reopening finds the index as it is |
| CredentialIndex.ReopenedRecord | crates/openkey-storage/src/storage.rs:755-976 | so the count or the names last set, and a credential stored, are found again field by field, and one deleted is not |
| CredentialIndex.LimitKeptIff | crates/openkey-storage/src/storage.rs:760-764 | storing keeps the index within its limit if and only if the limit is not zero or the backend refuses the record |
| PinProtocol.Aes256CbcEncrypt | crates/openkey-crypto/src/pin_protocol.rs:323-346 | CBC over whole blocks, or the matching error |
| PinProtocol.Aes256CbcDecrypt | crates/openkey-crypto/src/pin_protocol.rs:352-376 | its inverse loop, or the matching error |
| PinProtocol.CbcRoundTrip | crates/openkey-crypto/src/pin_protocol.rs:323-376 | decryption inverts encryption for every block multiple, given only that it does so on blocks |
| PinProtocol.CbcChainsIn | crates/openkey-crypto/src/pin_protocol.rs:323-346 | each block is combined with the cipher block before it, the vector for the first, and then enciphered |
| PinProtocol.CbcChainsOut | crates/openkey-crypto/src/pin_protocol.rs:352-376 | and deciphered and then combined on the way back |
| PinProtocol.ProtocolLayout | crates/openkey-crypto/src/pin_protocol.rs:183-215 | protocol 1 uses the whole secret and a zero vector, protocol 2 the second half and its own vector, which goes first |
| PinProtocol.ProtocolRoundTrip | crates/openkey-crypto/src/pin_protocol.rs:183-240 | both protocol versions decrypt what they encrypted, with the zero or the prefixed initialisation vector |
| PinProtocol.HashKeepsItsZeros | crates/openkey-crypto/src/pin_protocol.rs:242-258 | exact decryption gives a 16-byte hash back even when it ends in zeros |
| PinProtocol.StripTrailingZeros | crates/openkey-crypto/src/pin_protocol.rs:391-398 | cuts exactly the zero bytes at the end |
| PinProtocol.PaddingRoundTripIff | crates/openkey-crypto/src/pin_protocol.rs:380-398 | padding and stripping give the PIN back if and only if it is not empty and does not end in zero |
| ClientPin.DecimalRoundTrip | crates/openkey-core/src/ctap2/client_pin.rs:301-308 | the stored decimal text of a counter reads back as it was |
| ClientPin.ReadRetries | crates/openkey-core/src/ctap2/client_pin.rs:301-308 | an absent or unreadable counter reads as eight, and any counter as an 8-bit number |
| PinRuns.SpentReads | crates/openkey-core/src/ctap2/client_pin.rs:301-308 | a counter written as spent reads back as one less, not below zero, and a restored one as eight |
| ClientPin.Authenticator.DecrementPinRetries | crates/openkey-core/src/ctap2/ctap2.rs:3010-3016 | one try less in storage, if the write succeeds |
| ClientPin.Authenticator.ResetPinRetries | crates/openkey-core/src/ctap2/ctap2.rs:3000-3008 | eight tries in storage, if the write succeeds, and no failures in memory |
| ClientPin.Authenticator.RegisterPinFailure | crates/openkey-core/src/ctap2/ctap2.rs:3076-3085 | one failure more, up to 255, and the error of the ladder |
| ClientPin.Authenticator.HandleSetPin | crates/openkey-core/src/ctap2/client_pin.rs:510-560 | setPIN: the checks in order, then hash and tries stored |
| ClientPin.Authenticator.HandleChangePin | crates/openkey-core/src/ctap2/client_pin.rs:562-645 | changePIN: a try is written as spent before the old hash is compared |
| ClientPin.Authenticator.HandleGetPinToken | crates/openkey-core/src/ctap2/client_pin.rs:687-745 | getPinToken: the same, then a fresh token, encrypted |
| ClientPin.NewPinIsSentPinIff | crates/openkey-core/src/ctap2/client_pin.rs:536-552 | the PIN decrypted is the PIN sent if and only if it has 4 to 63 bytes and does not end in zero |
| PinChecks.TokenIffHashMatches | crates/openkey-core/src/ctap2/client_pin.rs:687-745 | on every input getPinToken takes a PIN as right if and only if a try is allowed and the hash sent is the one stored; only then is there a token; a wrong one fails as the ladder says and changes only the tries and the failures |
| PinChecks.ChangeIffHashMatches | crates/openkey-core/src/ctap2/client_pin.rs:562-645 | changePIN takes the current PIN as right if and only if the request is authentic and the hash sent is the one stored; only then is the new PIN stored, by its hash |
| PinChecks.SetIff | crates/openkey-core/src/ctap2/client_pin.rs:510-560 | setPIN succeeds if and only if there is no PIN, the request is authentic, its PIN has the right length and storage takes it; otherwise nothing changes |
| PinChecks.NewPinIsPinSent | crates/openkey-core/src/ctap2/client_pin.rs:536-552 | the new PIN is the one sent, padded with zeros, of 4 to 63 bytes |
| PinChecks.HashSentIsSent | crates/openkey-core/src/ctap2/client_pin.rs:397-407 | a hash encrypted under the shared secret is the hash that counts |
| PinChecks.WrongPinGetsNoToken | crates/openkey-core/src/ctap2/client_pin.rs:687-745 | the token goes to the PIN set, and never to a PIN with another hash |
| PinChecks.BlockedIsSaid | crates/openkey-core/src/ctap2/client_pin.rs:571-580 | with no tries left or after three failures both commands say so and change nothing |
| PinChecks.AfterATry | crates/openkey-core/src/ctap2/client_pin.rs:372-395 | a comparison uses up the agreement key, and a right PIN gives all eight tries back |
| ClientPin.SetPinThenTokenAccepted | crates/openkey-core/src/ctap2/client_pin.rs:510-745 | a PIN set is accepted afterwards by its hash, even one ending in zeros, and the platform can decrypt the token |
| PinRuns.CommandShape | crates/openkey-core/src/ctap2/client_pin.rs:562-731 | every command compares at most once, only with tries left, after the write that spends the try, whether that write succeeds or not |
| PinRuns.GuessesAreBounded | crates/openkey-core/src/ctap2/client_pin.rs:562-731 | over any run of commands, cuts, failed writes and power cycles, at most three hashes are compared in one power cycle without a success, and between two successes at most eight plus one for each whose spending write failed |
| PinRuns.FreshIsBounded | crates/openkey-core/src/ctap2/client_pin.rs:301-308 | a device without a PIN is within the bounds |
| PinRuns.EightWhileWritesSucceed | crates/openkey-core/src/ctap2/client_pin.rs:562-731 | while the spending writes succeed, at most eight hashes are compared between two successes, with cuts anywhere |
| PinRuns.NoTriesNoComparison | crates/openkey-core/src/ctap2/client_pin.rs:571-620 | with no tries left, or blocked, nothing is compared |
| PinRuns.MismatchIsPaidIffWritten | crates/openkey-core/src/ctap2/ctap2.rs:3010-3016 | a wrong guess costs a try if and only if the write of the spent try succeeds |
| PinRuns.FailingWritesUnbounded | crates/openkey-core/src/ctap2/ctap2.rs:3010-3016 | without that write any number of wrong hashes can be compared |
| PinRuns.SomeDeviceUnbounded | crates/openkey-core/src/ctap2/ctap2.rs:3010-3016 | there is such a device, with a lawful cipher, from a state within the bounds |

## Left out

- Cryptographic internals (AES, SHA, HMAC, HKDF, ECDH, ChaCha20-Poly1305, random numbers, zeroisation): uninterpreted functions.
- `FileStorageBackend`: host file I/O; it prefers an existing journal even when that is torn, so "old or new" is not claimed of it.
- Torn or partial erase, bit rot: erasing a sector is one step. ROM address lookup, XIP windows, interrupts, LEDs and USB are hardware.
- The CBOR byte format, JSON simulator, board profiles, host harnesses and transports other than the smart card and the CTAPHID bridge.
- CTAP2 operations other than the PIN commands (MakeCredential, GetAssertion, GetInfo, credential management), and the Rust CTAPHID framing.
- Large blobs and wear counters of the storage engine: they would only add easy members.
- Machine-word overflow of `usize` sizes and offsets: lengths are unbounded naturals, except where the source writes them into a field.
- The generation increment wraps in the model; a build with overflow checks would stop instead.
- Trait dispatch: the router holds applets as pairs of state and transition function, the flash store holds the simulated device itself.
- A storage backend that fails to list or read: its writes and deletions may fail, and a power cut is modelled in the flash store.
- The storage behind both applets is one key-value map whose next write may fail as a whole; `HotpRuns` replaces it by the flash store with cuts inside the write.
- Failures of the random number generator: the random bytes a command needs are always there.
- Loading of the Management state and its dispatch by instruction and page: only the codec, the payloads and the two writing commands are modelled.
- The read, listing and lookup queries of the storage engine other than `Retrieve`.
- Key agreement, token permissions and the token's own checks (`validate_permissions`, `pinUvAuthParam` of other commands), built-in user verification and its retries.
- A PIN change forced by configuration, the minimum-length extension, and PIN verification through the `verify_pin` and `change_pin` trait methods: the bound on guesses speaks of the ClientPIN commands.
- The TLV readers of OATH requests keep the order of the entries of equal tags only as far as the source looks at it.
- Management.ReachableStatesAreGood: SET MODE with the three low bits all set is excluded, because the source indexes past the seven-entry mode table there; nothing is claimed about a lock code when the unlock tag is absent.
- FlashCommit.PowerCutAtomicity: cuts inside the checksum field or the payload carry the hypothesis that the checksum separates the torn image, because a 32-bit checksum can collide.
- HotpRuns.CodesAreNeverReused: for revealed counters below the largest 64-bit value, because the counter saturates there, and for runs that do not wrap the store's generation.
