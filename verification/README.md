# A verified model of the firmware's storage, links and transforms

This project models five parts of the motor controller firmware and proves what they are for:

1. **Emulated EEPROM** (`eeprom.c`, with its users in `conf_general.c`): a log-structured key/value
   store on two flash pages that survives power cuts.
2. **Serial framing** (`packet.c`, `crc.c`): a receiver that is fed one byte at a time and refines a
   scanner over the whole stream, and the table-driven checksum that is polynomial division.
3. **CAN messages** (`comm_can.c`): fragmentation, reassembly in any order, and the frame ring between
   two threads.
4. **The fast Fourier transform in place** (`digital_filter.c`), against the naive transform of the
   same file.
5. **Flash integrity and the float codec** (`flash_helper.c`, `buffer.c`).

The imperative parts are classes and methods over arrays. Each method is proved against a
specification function or predicate, and the theorems are about those.

| files | contents |
|---|---|
| `FlashMemory` `EepromPlan` | flash, and every function of `eeprom.c` as the steps it performs |
| `EepromPages` `EepromRecovery` `EepromTransfer` | what one append, one copy loop and one page transfer leave behind when cut |
| `EepromCells` | where values lie in a page and which of them is read, in numbers |
| `EepromSafety` `EepromInit` `EepromRuns` `EepromAllRuns` `EepromStuck` | the theorems about cut writes, restarts and whole runs, and the stores that cannot be restored |
| `EepromWrites` `EepromLists` | successful writes and what every address reads afterwards; lists of writes, cut anywhere |
| `EepromStore` `ConfGeneral` `ConfRoundTrip` | the code of `eeprom.c` over two arrays, its users, and what they promise |
| `Gf2` `Crc16` | long division over GF(2), and `crc16` |
| `Framing` `PacketRuns` `PacketReceiver` | the frame format and its scanner, runs of the receiver, and the code |
| `CanFragments` `CanReassembly` `CanCommands` `CanDelivery` `CanFrameRing` `CanLink` | sender, receiver, its commands in numbers, their composition, the ring, and all of it together |
| `Rings` `FourierSpec` `FourierLoops` `DigitalFilter` | the transform over a commutative ring, its loops, and the code over complex numbers |
| `FourierInverse` `FilterRoundTrip` `FilterDft` | the reverse transform undoes the forward one; the naive transform, which computes the same |
| `FlashIntegrity` `FloatCodec` | the integrity checks and the float codec |
| `MachineWords` `PowersOfTwo` | bytes, halfwords and words as numbers; powers of two |

Check everything with `dafny verify dfyconfig.toml`.

## Assumptions of the model

- Flash: a program step can only clear bits, an erase sets all bits of a sector, and each is one atomic
  step that either happens or fails without effect. A power cut or a flash error falls between two steps.
- `EepromStore.Eeprom.power` counts the steps that will still succeed, so every method is proved for
  every place where it can be cut.
- After a power cut or a failed write the next operation is `EE_Init`, and writes are made only after an
  `EE_Init` that returned FLASH_COMPLETE. `conf_general_init` does not look at that status
  (`conf_general.c:80`); what writes do to a store that `EE_Init` could not open is said by
  `EepromStuck.FullIsReadOnly` and `EepromStuck.WriteIsHidden`, outside the theorems about runs.
- Virtual address 0xFFFF is not used (`eeprom.c:38`). Page states are not assumed to be legal in
  `EepromInit.InitSettles` and `EepromInit.InitFormats`, and the store and read functions of `ConfGeneral` start from any flash; all other
  recovery results start from a new device or from a store that the code itself has left.
- A configuration structure has at most 2001 bytes, so that its halfwords fit the 1000 addresses of its
  namespace; the mapped address of a variable is 0 to 63, as `conf_general.c` demands.
- A packet handler's byte and timer functions do not interrupt one another, and `process_func` only
  looks at the payload. The same holds for the handlers behind `decode_msg`.
- CAN frames are delivered to `decode_msg` unchanged; the critical sections of the ring are atomic, but a
  slot is copied after the lock has been released, and the model keeps these two steps apart.
- Arithmetic in `digital_filter.c` is exact: `sqrt` is a parameter that returns exact square roots; `cosf`,
  `sinf` and `M_PI` are a parameter with the addition theorem, an even cosine and an odd sine, their values at
  0 and at half a turn, and their signs on the first half and quarter turn.
- `ldexpf` of `buffer.c` is a parameter: a result of the format is exact, a result of 2^128 or more is infinite,
  and a result with one bit below the last place of a subnormal number is rounded to even.
- The CRC peripheral is a parameter: one step maps register xor word through an injective function that
  maps zero to zero. Its register is used by nobody else during a sweep.

## Where the code and its descriptions differ

- `EE_Init` finishes an interrupted transfer in the opposite order to `EE_PageTransfer`: it marks the
  new page valid before it erases the old one (`eeprom.c:140-147`, `eeprom.c:231-238`). A cut between the two
  makes the next `EE_Init` format the store. `EepromSafety.InitCut` shows that this is the only such step,
  `EepromSafety.RestartableExactly` exactly when it costs data, and `EepromStuck.UnsafeStepCosts` that it does:
  from any clean store with a registered variable, a page transfer cut after its first step and then an
  `EE_Init` cut there lose the contents. `EepromAllRuns.EveryRun` covers runs with such cuts as well.
- Every start that is cut copies all variables once more (`eeprom.c:206-229`), and a receiving page that is full
  makes every later `EE_Init` return PAGE_FULL. The contents are then still on the old page, no start brings
  them back, and every write that would change a value fails (`EepromStuck.StuckForGood`). As long as the
  receiving page is not full, such a write returns FLASH_COMPLETE and no address reads differently afterwards
  (`EepromStuck.WriteIsHidden`). `EepromSafety.InitCompletesExactly` gives the exact condition, which is the
  free slots of the receiving page against the copies still to be made; `EepromStuck.StuckStore` leads any clean
  store with two variables there; and `EepromRuns.RunsAreAtomic` bounds the number of cut starts that cannot.
- `VirtAddVarTab` has room for a second motor configuration (`eeprom.h:73-74`) but `conf_general_init` does not
  register its addresses (`conf_general.c:56-75`); the entries left at zero register address 0 instead. That
  configuration is stored and read all the same (`commands.c:447`, `mc_interface.c:142`). In a page transfer an
  address keeps its value if and only if it is registered or being written
  (`EepromWrites.TransferKeepsExactly`), so what was stored is read back if and only if no page transfer took
  place since the write of its first halfword, and as the defaults otherwise (`ConfRoundTrip.StoredIsRead`,
  `ConfRoundTrip.ConfigurationRoundTrip`). `ConfRoundTrip.SecondMotorExactly` says when that happens during the
  store itself, which still reports success, and `ConfRoundTrip.SecondMotorLost` that writes to one custom
  variable bring it about from every clean store.
- The comment on 16-bit lengths asks for the shortest form (`packet.c:241-247`), but a length of 255 is accepted
  in both forms. `Framing.AcceptedIsFrame` shows that this is the only frame accepted that no sender sends, and
  `Framing.LongHeaderAccepted` gives one.
- `flash_helper_verify_flash_memory` sets its flag before it stores the checksum (`flash_helper.c:275-297`). A
  power cut between the two makes every later start report a corruption of a sound application, unless the word
  for the checksum happens to hold it (`FlashIntegrity.FlaggedIsReported`).
- `comm_can_send_buffer` promises up to 512 bytes (`comm_can.c:265`) and `CanReassembly.FragmentsFitExactly`
  proves that limit to be exact: the long format is checked where a fragment starts, not where it ends.
- `buffer_append_float32_auto` is described as portable serialisation of any float. It is exact for zero, for
  normal numbers and for subnormal numbers above 2^-127; below that the truncated exponent field yields
  another number, from 2^-128 on infinity (`FloatCodec.SmallIsInfinite`), and a negative zero comes back positive
  (`FloatCodec.RoundTrip`, `FloatCodec.EncodedIsIeee`).

## Model

| member | source | states |
|---|---|---|
| EepromAllRuns.EveryRun | eeprom.c:56-626 | Main theorem of the EEPROM. For every run of writes and boots from a clean store, or from a new device with both page headers blank, each cut by a power failure at any flash step or not at all, there is a choice of writes that took effect, including every write that returned FLASH_COMPLETE, such that a running store reads exactly their result, but for those before a boot that found two valid pages and formatted the store; a store that is down is restored to it if and only if the receiving page has room for the copies still to be made; and one with two valid pages is emptied by the next uncut boot, or left with exactly that result by one that is cut after its first step. In runs without a cut at the unsafe step nothing is ever emptied |
| EepromRuns.RunsAreAtomic | eeprom.c:56-626 | The same from any store that the code has left, running or down. For every run of writes and boots, each cut by a power failure at any flash step but the unsafe one of EE_Init, there is a choice of writes that took effect, including every write that returned FLASH_COMPLETE, such that a running store reads exactly their result, and EE_Init restores exactly their result to one that is down if and only if the receiving page has room for the copies still to be made; after r cut boots in a row it has, given 1 + (r + 2) NB_OF_VAR data slots |
| EepromSafety.WriteIsAtomic | eeprom.c:330-360 | EE_WriteVariable cut after any number of steps, page transfer included, then a complete EE_Init: the store reads as exactly the old map or the old map with the new value, given 2 NB_OF_VAR + 1 data slots |
| EepromSafety.WriteSurvivesRestarts | eeprom.c:112-153 | The same when any number k of EE_Init runs are cut before the complete one, given 1 + (k + 2) NB_OF_VAR data slots |
| EepromSafety.RestartsRecover | eeprom.c:204-244 | From any store that still holds a map, k restarts of EE_Init cost at most one slot per variable each, and a complete one restores the same map; when only the new value has been written to the receiving page this needs 1 + (k + 1) NB_OF_VAR data slots |
| EepromSafety.InitCut | eeprom.c:56-259 | EE_Init cut after k steps leaves a store that still holds the same map if and only if k is not the step between marking the new page valid and erasing the old one; uncut and complete it leaves a clean store with that map |
| EepromSafety.InitCompletesExactly | eeprom.c:204-244 | A store that still holds a map is restored to it by an uncut EE_Init if and only if the receiving page has room for the copies still to be made; otherwise EE_Init returns PAGE_FULL |
| EepromSafety.RestartableExactly | eeprom.c:183-193 | After a cut at step k the next EE_Init restores the map if and only if k is not the unsafe step and there is room, or k is that step and nothing was stored |
| EepromSafety.RestartableWithRoom | eeprom.c:183-193 | With slots for two more copies of every variable: if and only if k is not the unsafe step or nothing was stored |
| EepromStuck.UnsafeStepCosts | eeprom.c:231-238 | From every clean store with a registered variable, a page transfer cut after its first step can be restored, and is not if EE_Init is cut at the unsafe step |
| EepromStuck.StuckStore | eeprom.c:206-229 | From every clean store with two registered variables stored, a page transfer cut after its first step and then some list of starts, none cut at the unsafe step, end in a store that still holds the map and for which EE_Init returns PAGE_FULL without a step |
| EepromStuck.StuckForever | eeprom.c:206-229 | No further starts change or restore such a store |
| EepromStuck.StuckForGood | eeprom.c:206-229 | No further starts and writes in any order, cut or not, change it |
| EepromStuck.FullIsReadOnly | eeprom.c:539-626 | During a transfer with a full receiving page every write of a new value fails, with PAGE_FULL or with the supply, and leaves the flash as it was wherever it is cut |
| EepromStuck.WriteIsHidden | eeprom.c:330-360 | During a transfer with room on the receiving page a write returns FLASH_COMPLETE and no address reads differently afterwards |
| EepromSafety.FormatEmpties | eeprom.c:368-395 | EE_Format gives a clean store with an empty map, whatever was there |
| EepromWrites.LastValueIsRead | eeprom.c:271-318 | After any sequence of successful writes, with any number of page transfers, every registered address reads as the last value written, or as not found |
| EepromWrites.LastWriteIsRead | eeprom.c:271-318 | Of any address, registered or not: it reads as the last value written, unless it is unregistered and a page transfer came later; then it is not found |
| EepromSafety.ReadsContents | eeprom.c:271-318 | On a clean store EE_ReadVariable of a registered address returns what the map says |
| EepromSafety.WriteCommits | eeprom.c:330-360 | A write that returns FLASH_COMPLETE leaves a clean store with the new map |
| EepromSafety.WriteSucceeds | eeprom.c:330-360 | With the supply up and NB_OF_VAR + 1 data slots a write to a clean store returns FLASH_COMPLETE, page transfer or not |
| EepromSafety.WriteKeeps | eeprom.c:330-360 | Every cut of a write leaves a store that still holds the old or the new map, the new one if it reported success, and at most NB_OF_VAR + 2 slots spent on a receiving page |
| EepromSafety.InitRecovers | eeprom.c:56-259 | With room for one more copy of every variable EE_Init completes and restores the map |
| EepromInit.InitSettles | eeprom.c:56-259 | Whenever EE_Init returns FLASH_COMPLETE, from any two page states, exactly one page is valid, the other is fully erased, and a second EE_Init performs no step |
| EepromInit.InitFormats | eeprom.c:97-256 | With both page headers blank, as on a new device, both receiving, both valid, or one that is none of the three beside one that cannot be kept, EE_Init succeeds and leaves an empty store, whatever else the pages hold |
| EepromInit.InitKeepsPage | eeprom.c:60-202 | A valid or receiving page beside a blank one is kept with its contents |
| EepromInit.InitHandsOver | eeprom.c:112-193 | With a valid page beside a receiving one, or the other way round, an EE_Init that succeeds leaves the page that was being filled as the only valid one |
| EepromInit.FirstStart | eeprom.c:97-106 | With both headers blank EE_Init leaves an empty store, and still does after having been cut at any step of the first start |
| EepromInit.ResumeSettles | eeprom.c:204-244 | The completion of a transfer ends with the receiving page valid and the other one erased |
| EepromWrites.TransferReads | eeprom.c:539-626 | What every address reads after a completed page transfer: the written one its new value, a registered one its old value, any other one nothing |
| EepromWrites.TransferKeepsExactly | eeprom.c:575-607 | An address that is not being written keeps its value in a page transfer if and only if it is in VirtAddVarTab or had none |
| EepromWrites.WriteReads | eeprom.c:330-360 | What every address reads after a successful write, and how many slots the write uses: none if the value was there already, and one otherwise |
| EepromWrites.FitsExactly | eeprom.c:330-360 | Successful writes to different addresses set off no page transfer if and only if those that change something fit the free slots |
| EepromWrites.LossReachable | eeprom.c:575-607 | From every clean store, writes to one registered address make any given unregistered address read as never written |
| EepromCells.ReadsNewest | eeprom.c:271-318 | Slot i of a page is halfwords 2 i and 2 i + 1, the value and its address; from slots 1 to 4095 an address reads as the value of the last slot that has it, and as nothing if none has |
| EepromCells.NoValidPage | eeprom.c:406-466 | With no header zero every read and write returns NO_VALID_PAGE without a step |
| EepromCells.AppendsTo | eeprom.c:406-466 | Writes go to the page with header 0xEEEE beside one with header zero, and otherwise to the one with header zero, to page 1 if both have it |
| EepromCells.WritesCells | eeprom.c:478-526 | A write to a clean store with a free slot programs the value and then the address into the first slot whose two cells are blank, and changes no other cell |
| EepromCells.WritesNothing | eeprom.c:330-360 | A value that is stored already is not written again, and with the supply low a new one is refused with FLASH_ERROR, without a step |
| EepromCells.ErasesExactly | eeprom.c:632-642 | A page is erased if and only if one of its halfwords is not 0xFFFF |
| EepromCells.TransferHeaders | eeprom.c:539-566 | The first step of EE_PageTransfer gives the other page the header 0xEEEE, beside a page with header zero |
| EepromLists.StoreCommits | conf_general.c:252-260 | A loop of writes that stops at the first failure and returns success has made all of them |
| EepromLists.StoreCut | conf_general.c:252-260 | Such a loop cut at any flash step: the next EE_Init restores the map with a first part of its values and nothing else changed |
| EepromTransfer.TransferKeeps | eeprom.c:539-626 | What each step of EE_PageTransfer leaves: the old map until the new address is programmed, the new map from then on, at every cut including the one between erasing the old page and marking the new one |
| EepromTransfer.TransferEnds | eeprom.c:609-623 | After the copy loop, erasing the old page hands the map over to the receiving page, and marking that page valid gives a clean store |
| EepromRecovery.CopyKeeps | eeprom.c:577-607 | The copy loop, cut anywhere, leaves a store that still holds the map and uses at most one slot per variable |
| EepromRecovery.CopyFinishes | eeprom.c:577-607 | A completed copy loop has every variable of the map on the receiving page |
| EepromRecovery.CopyCompletesExactly | eeprom.c:206-229 | The copy loop completes if and only if the page has a free slot for every variable that has a value and is not skipped; otherwise the page is reported full |
| EepromRecovery.CopyFits | eeprom.c:577-607 | It completes if the page has a free slot for every variable left |
| EepromRecovery.ResumeKeeps | eeprom.c:206-243 | Every cut of EE_Init's completion of a transfer: still in transfer, both pages valid, or clean |
| EepromPages.AppendAddress | eeprom.c:478-526 | Appending keeps used slots a prefix, makes the new value the one found, and changes no other lookup |
| EepromPages.AppendData | eeprom.c:505-514 | A slot whose address has not been programmed changes no lookup, whatever the data |
| EepromStore.Eeprom.Init | eeprom.c:56-259 | EE_Init over the arrays performs exactly its plan, as far as the power lasts, and returns its status |
| EepromStore.Eeprom.ReadVariable | eeprom.c:271-318 | The backward scan returns the newest value |
| EepromStore.Eeprom.WriteVariable | eeprom.c:330-360 | EE_WriteVariable performs exactly its plan, cut where the power ends |
| EepromStore.Eeprom.Format | eeprom.c:368-395 | EE_Format performs its plan |
| EepromStore.Eeprom.FindValidPage | eeprom.c:406-466 | The page to read from and the page to write to |
| EepromStore.Eeprom.VerifyPageFullWriteVariable | eeprom.c:478-526 | Data and then address go into the first free slot, or the page is reported full |
| EepromStore.Eeprom.PageTransfer | eeprom.c:539-626 | EE_PageTransfer performs its plan |
| EepromStore.Eeprom.CopyVariables | eeprom.c:577-607 | The copy loop with its variable x performs the recursive copy plan |
| EepromStore.Eeprom.EraseSectorIfNotEmpty | eeprom.c:632-642 | Erases a page unless every halfword of it is blank |
| FlashMemory.AndHalfword | eeprom.c:505-514 | Programming ANDs: it never sets a bit, a blank cell takes any value, and zero always takes |
| FlashMemory.AndBits | eeprom.c:505-514 | Programming in terms of numbered bits: a bit is set afterwards if and only if it was set and is set in the data |
| ConfGeneral.RegisteredAddresses | conf_general.c:56-75 | Exactly the addresses of the four namespaces are registered, and address 0 because room was reserved for a second motor |
| ConfGeneral.TableInNumbers | conf_general.c:56-75 | Entry by entry: addresses from 1000, 2000, 3000 and 4000 on, the last two 128 each, and then zeros for the room of a second motor |
| ConfGeneral.FillVirtAddVarTab | conf_general.c:56-75 | The loops fill the table with the four namespaces in order and zeros |
| ConfGeneral.StoreConfiguration | conf_general.c:227-364 | From any flash and for any base address, exactly the writes of the consecutive halfwords are made, as far as power and success go, and the result says whether all were |
| ConfGeneral.ReadConfiguration | conf_general.c:199-303 | From any flash and for any base address, the structure receives the stored halfwords if all are found, and the defaults if one is missing |
| ConfGeneral.StoreVar | conf_general.c:163-191 | From any flash, the writes of both halfwords are made, the high one first, as far as power and success go |
| ConfGeneral.ReadVar | conf_general.c:148-161 | From any flash, the 32-bit value of the two halfwords, if both are found |
| ConfRoundTrip.NamespacesDisjoint | conf_general.c:42-47 | The five base addresses keep apart what different calls store |
| ConfRoundTrip.StoredIsRead | conf_general.c:148-364 | From a clean store, after a successful call and then any successful calls that store other things, with all their page transfers, the halfwords of the first call are all read back if and only if it did not store a second motor's configuration and lose it to a page transfer |
| ConfRoundTrip.ConfigurationRoundTrip | conf_general.c:199-364 | The bytes of a configuration read after that: those stored, or the defaults if it was lost |
| ConfRoundTrip.VarRoundTrip | conf_general.c:148-191 | A 32-bit variable read after that is the one stored |
| ConfRoundTrip.StoreThenRead | conf_general.c:148-364 | The same as a run of the code over the arrays: a configuration is stored, then other things in a loop, then it is read; if a call fails, the calls before it are stored and it has made its writes as far as power and success went |
| ConfRoundTrip.StoreFailed | conf_general.c:163-364 | A call that failed or was cut: the next EE_Init restores the map with a first part of its halfwords and nothing else changed |
| ConfRoundTrip.StructureIsThere | conf_general.c:42-47 | What a stored structure is in the cells: two bytes to each, the first in the upper half, from 1000, 5000 or 2000 on for the first motor, the second and the application |
| ConfRoundTrip.VariableIsThere | conf_general.c:163-191 | A stored variable is two cells, its upper half first, at 3000 or 4000 plus twice its address |
| ConfRoundTrip.VariableIsRead | conf_general.c:148-161 | A variable reads as a value if and only if the first of two cells holds its upper and the second its lower sixteen bits, and not at all if and only if one is not found |
| ConfRoundTrip.SecondMotorExactly | commands.c:447 | A second motor's configuration can be read back directly after it was stored if and only if those of its halfwords after the first that the store does not hold yet fit the page as the first has left it |
| ConfRoundTrip.SecondMotorLost | mc_interface.c:142 | From every clean store there are writes to one custom variable after which a given halfword of the second motor's configuration is not found |
| Crc16.Compute | crc.c:54-61 | The loop over the table computes the remainder of the message times x^16 by the generator x^16+x^12+x^5+1 (section 2 of ITU-T V.41) |
| Crc16.ChecksumOfFive | crc.c:54-61 | The checksum of the byte 5 is 0x50A5 |
| Crc16.TableIsDivision | crc.c:24-52 | Every table entry is the remainder of its index times x^16 |
| Crc16.TableStepDivides | crc.c:54-61 | One table step divides by eight more bits |
| Crc16.ChecksumXor | crc.c:54-61 | The checksum is XOR-linear on messages of equal length |
| Crc16.AppendedChecksum | crc.c:54-61 | Two bytes behind a message are its checksum if and only if the checksum of the whole is zero |
| Crc16.BurstDetected | crc.c:54-61 | Messages of equal length that differ only inside sixteen consecutive bits never share a checksum |
| Crc16.OddErrorDetected | crc.c:54-61 | Nor do messages of equal length that differ in an odd number of bits |
| Crc16.DamagedMismatch | packet.c:275-279 | A message with its checksum behind it, damaged in one of these two ways in the message, the checksum or both, is not accepted as such |
| Crc16.ChecksumComparison | packet.c:275-279 | Comparing the checksum with two received bytes as a number compares the remainders |
| Crc16.BitsInjective | crc.c:54-61 | Different messages are different polynomials |
| Gf2.DivisionAlgorithm | crc.c:24-61 | The shift register leaves a remainder in the sense of polynomial arithmetic: dividend = quotient times generator plus remainder |
| Gf2.RemainderUnique | crc.c:24-61 | It is the only such remainder |
| Gf2.DivideOdd | crc.c:24-61 | Division by the generator, which x + 1 divides, keeps the parity of the number of terms |
| PacketRuns.ReceiverScans | packet.c:113-174 | However bytes and timer calls interleave without a timeout, payloads and leftover bytes are those of one scan of the stream |
| PacketRuns.StreamRoundTrip | packet.c:64-97 | The concatenation of any list of sent frames is delivered as exactly their payloads, in order, with an empty buffer at the end |
| PacketRuns.FrameDelivered | packet.c:197-288 | Byte for byte: the bytes 2, length, payload, checksum, 3, or for more than 255 bytes 3, length in two bytes, payload, checksum, 3, received without a timeout, are delivered as the payload |
| PacketRuns.Resynchronisation | packet.c:148-167 | If no frame starts inside the garbage, the first delivered payload is that of the frame behind it once 518 bytes beyond the garbage have arrived |
| PacketRuns.SilenceResets | packet.c:103-111 | More timer calls in a row than the timeout drop an unfinished frame and nothing else |
| PacketRuns.PauseInNumbers | packet.c:103-125 | After a byte 1000 timer calls drop nothing, and the next one drops the unread bytes |
| Framing.ScanAppend | packet.c:148-167 | Scanning can stop anywhere and go on with the bytes left over |
| Framing.DecodeExtends | packet.c:197-288 | More bytes never change a decision, and a wait gets shorter by exactly the bytes that came |
| Framing.DecodeBounds | packet.c:197-288 | Accepted frames fit the bytes seen, and waiting and seen bytes together never exceed 518 |
| Framing.FrameDecodes | packet.c:197-288 | A sent frame decodes to its payload, whatever follows |
| Framing.FrameInNumbers | packet.c:64-97 | The frames are exactly these: 2, the length, 1 to 255 bytes, or 3, the length in two bytes, high one first, and 256 to 512 bytes; behind them the checksum of the payload, high byte first, and 3 |
| Framing.WaitsInNumbers | packet.c:197-250 | Which first bytes are rejected and for how many more bytes the decoder waits |
| Framing.FrameOfFive | packet.c:64-97 | 02 01 05 50 A5 03 is the frame of the byte 5 and is accepted whatever follows |
| Framing.AcceptedExactly | packet.c:197-288 | A payload and size are accepted if and only if the bytes begin with that payload's frame, or with a payload of 255 bytes behind the header with two length bytes |
| Framing.AcceptedIsFrame | packet.c:241-247 | What is accepted is the frame that the sender of the payload would have sent if and only if it is not a payload of 255 bytes with the long header |
| Framing.LongHeaderAccepted | packet.c:241-247 | Such bytes exist: 255 zeros with the long header are accepted |
| Framing.DamagedRejected | packet.c:270-287 | A frame whose header arrives intact is rejected, whatever follows, if its stop byte is wrong, or its payload and checksum are damaged inside sixteen consecutive bits or in an odd number of bits |
| Framing.FramesScan | packet.c:148-167 | A list of frames scans to its payloads with nothing left |
| PacketReceiver.Handler.SendPacket | packet.c:64-97 | A payload of 1 to 512 bytes is sent as the bytes 2 and the length up to 255, or 3 and the length in two bytes, high one first, then the payload, its checksum with the high byte first, and 3; any other is refused |
| PacketReceiver.Handler.ProcessByte | packet.c:113-174 | The sliding buffer, the bytes_left shortcut and the retry loop together are one step of the scanning receiver |
| PacketReceiver.Handler.DecodeAll | packet.c:148-173 | The retry loop ends, delivers the payloads of a scan and keeps its leftover bytes |
| PacketReceiver.Handler.TryDecode | packet.c:197-288 | The result, bytes_left and delivery of try_decode_packet are those of the decoder on the unread bytes |
| PacketReceiver.Handler.Tick | packet.c:103-111 | packet_timerfunc for one handler |
| PacketReceiver.Handler.Bounded | packet.c:118-125 | Unread bytes and bytes_left never exceed 518, so the out-of-space branch is never taken; an empty buffer has both positions at 0 |
| PacketReceiver.StillWaiting | packet.c:142-145 | The bytes_left shortcut is safe: the decoder would only have waited |
| CanFragments.SendBuffer | comm_can.c:284-346 | Up to 6 bytes travel in one frame; more become the fragments that cover them and a process frame with length and checksum |
| CanFragments.SendFragments | comm_can.c:296-333 | The two loops send exactly the fragments that cover the payload, in order, none truncated |
| CanFragments.FragmentsPartition | comm_can.c:296-333 | The fragments one after the other are the payload |
| CanFragments.OwnerIsUnique | comm_can.c:296-333 | Every byte is in exactly one fragment |
| CanFragments.MessageSize | comm_can.c:284-346 | 512 bytes need at most 81 frames |
| CanFragments.ShortInNumbers | comm_can.c:284-292 | Command 8 with the sender, the mode and the payload |
| CanFragments.FragmentInNumbers | comm_can.c:296-313 | The first 37 fragments: command 5 with one byte of offset and seven bytes of the payload, or what is left of it |
| CanFragments.LongFragmentInNumbers | comm_can.c:315-333 | The others: command 6 with two bytes of offset, high one first, and six bytes of the payload |
| CanFragments.ProcessInNumbers | comm_can.c:335-345 | Command 7 with the sender, the mode, the length and the checksum, high bytes first |
| CanReassembly.Can.DecodeMsg | comm_can.c:1044-1153 | For every frame decode_msg over the buffer array is the receive step of the specification, or it is found exactly when its behaviour is undefined: a copy behind the buffer or a negative length |
| CanReassembly.FragmentsFitExactly | comm_can.c:1069-1079 | All fragments of a payload stay inside the receive buffer if and only if it has at most 512 bytes |
| CanReassembly.FragmentInside | comm_can.c:1069-1079 | Inside the buffer the 8-bit and 16-bit offsets are exact |
| CanReassembly.AllFilled | comm_can.c:1069-1079 | A buffer that holds every fragment holds the payload |
| CanReassembly.ForeignIgnored | comm_can.c:1037 | A frame whose lowest identifier byte is neither 255 nor that of one of the two motors does nothing, whatever it says |
| CanCommands.Fill | comm_can.c:1069-1073 | Command 5 copies its bytes to the offset in its first byte and changes nothing else |
| CanCommands.FillLong | comm_can.c:1075-1079 | Command 6 copies its bytes to the offset in its first two bytes; from 512 on it does nothing |
| CanCommands.Process | comm_can.c:1081-1123 | Command 7 hands on the first bytes of the buffer in mode 0, 1 or 2 if their number is at most 512, their checksum is the one in the frame, and the command is not one of 1, 2, 3, 73 and 81 while the reply function is replaced; it takes the sender as the last identifier |
| CanCommands.ProcessShort | comm_can.c:1125-1153 | Command 8 hands on the bytes behind its first two in the mode of its second one, with the same exception |
| CanCommands.Ignored | comm_can.c:1034-1066 | Other command numbers, and frames for others, change neither the buffer nor what has been handed on |
| CanDelivery.PayloadDelivered | comm_can.c:1069-1123 | Fragments in any order, repeated, among any frames for other controllers and any commands for this one that do not fill the buffer, into any prior buffer: the process frame hands on exactly the payload, in the mode that was sent |
| CanDelivery.DamagedIsDropped | comm_can.c:1096-1097 | A buffer that differs from the payload only inside sixteen consecutive bits, or in an odd number of bits, is never handed on |
| CanDelivery.ProcessReceived | comm_can.c:1081-1123 | A process frame hands on what has the checksum of the payload, and only that |
| CanDelivery.OverlongIsDropped | comm_can.c:1088-1090 | A length of 513 to 65535 bytes, the most that the length field can say, hands on nothing |
| CanDelivery.ShortDelivered | comm_can.c:1125-1153 | A short frame hands on its payload, unless it is a restricted command processed locally |
| CanDelivery.CallDelivered | comm_can.c:284-346 | One call of comm_can_send_buffer is exactly one delivery to the controller that it addresses |
| CanDelivery.CallElsewhere | comm_can.c:1037 | A call for another controller, of any length, leaves buffer, sender and deliveries as they were |
| CanDelivery.ConversationDelivered | comm_can.c:284-346 | Of any list of calls for this and other controllers, short and long, those for this one are delivered in order, each exactly once, and nothing else is |
| CanFrameRing.FrameRing.Put | comm_can.c:847-853 | The read thread's critical section |
| CanFrameRing.FrameRing.Get | comm_can.c:808-827 | comm_can_get_rx_frame returns the oldest unread slot, or none |
| CanFrameRing.PutAppends | comm_can.c:847-853 | A frame is appended to the queue if and only if fewer than 99 are unread; otherwise the ring comes out empty |
| CanFrameRing.TakeRemoves | comm_can.c:808-827 | Taking removes the oldest frame of the queue and nothing else |
| CanFrameRing.FramesInOrder | comm_can.c:808-903 | In every interleaving of the two threads, frames come out in order of arrival, none lost and none overwritten while copied, if and only if no arrival found 99 unread |
| CanFrameRing.RoomForBurst | comm_can.c:830-864 | No interleaving overflows the ring if at most 99 frames arrive |
| CanFrameRing.Drains | comm_can.c:896-909 | The process thread alone empties the ring in two steps per frame |
| CanLink.ConversationThroughRing | comm_can.c:808-909 | The frames of any list of calls for this and other controllers, their arrival interleaved in any way with their processing, from any state of ring and decoder, and no arrival finding 99 unread: at every moment the frames copied and those under way amount to what there was before and then every payload for this controller in order, once each; when the ring has been emptied all of it has been handed on |
| CanLink.ConversationArrives | comm_can.c:896-909 | And the process thread alone gets there |
| CanLink.MessageArrives | comm_can.c:808-909 | The frames of one call of up to 512 bytes need no such condition: after enough steps of the process thread its payload has been handed on, once, or not at all if it is for another controller |
| DigitalFilter.FilterFft | digital_filter.c:25-89 | For every m filter_fft leaves the transform by definition for dir = 0, and for dir = 1 samples that are the transform when multiplied by 2^m, each with the direction's root of unity |
| DigitalFilter.TransformScales | digital_filter.c:82-124 | The forward transform is not divided by the length, and the reverse one is |
| FilterDft.FilterDft | digital_filter.c:92-130 | For every length filter_dft leaves the transform by definition for dir = 0, and for dir = 1 samples that are the transform when multiplied by the length, with the root of unity whose angle is a full turn divided by the length, in the sense that dir gives to arg |
| FilterDft.RootsAgree | digital_filter.c:52-110 | For 2^m samples that root is the one that filter_fft reaches from -1 by half angles, in both directions |
| FilterDft.FourSamples | digital_filter.c:25-89 | Sample 1 of the transform of a, b, c, d is a + ib - c - id for dir = 0 and a quarter of a - ib - c + id for dir = 1 |
| FilterDft.FftIsDft | digital_filter.c:25-130 | filter_fft and filter_dft give the same result for the same dir on every signal of 2^m samples, sign and scaling included |
| DigitalFilter.BitReversal | digital_filter.c:32-50 | The swaps leave at p the element that was at the bit reversal of p, for every m |
| DigitalFilter.NextReversed | digital_filter.c:44-49 | The carry loop ends and takes the bit reversal of i to that of i + 1 |
| DigitalFilter.Pass | digital_filter.c:56-74 | The two inner loops do one stage of butterflies over the whole array |
| DigitalFilter.Passes | digital_filter.c:53-80 | All passes together are the recursive decimation in time |
| DigitalFilter.HalfAngleSquares | digital_filter.c:75-79 | The half-angle formulas give the square root of the twiddle factor on the side that dir asks for |
| DigitalFilter.RootsAreChain | digital_filter.c:52-80 | The twiddle factors are a chain of square roots that starts at -1 |
| FourierSpec.DitIsDft | digital_filter.c:25-130 | In any commutative ring with such a chain of roots, butterflies on the bit-reversed input compute the transform by definition |
| FourierLoops.StageBlocks | digital_filter.c:53-80 | A pass of span 2^l turns transformed blocks of 2^l into transformed blocks of 2^(l+1) |
| FourierLoops.BitReverseAt | digital_filter.c:32-50 | The recursive bit reversal is the permutation of indices by reversed bits |
| FourierLoops.RevInvolution | digital_filter.c:32-50 | Reversing bits twice gives the index back |
| FourierInverse.ReverseTransform | digital_filter.c:25-130 | In any commutative ring, transforming with a chain of roots and then with their inverses multiplies by 2^m |
| FilterRoundTrip.ForthAndBack | digital_filter.c:25-89 | The transform with dir = 1 of the transform with dir = 0 is the signal |
| FlashIntegrity.SweepIsOneShot | flash_helper.c:310-341 | 352 calls of the chunk check report nothing until the last, which reports exactly what the whole check would, whatever is written to the emulated EEPROM meanwhile |
| FlashIntegrity.ChunkAdvances | flash_helper.c:310-341 | One call takes a sweep one chunk of the image further |
| FlashIntegrity.ChunkOfImage | flash_helper.c:322-332 | No chunk straddles the vector table's end, and each feeds the next words of the image |
| FlashIntegrity.ImageIsChecked | flash_helper.c:258-266 | The checks depend on sector 0 and on the application from sector 3 on, and on no word of the emulated EEPROM |
| FlashIntegrity.WordsChecked | flash_helper.c:250-269 | Checked are words 0 to 4095 and 12288 to 98301, and the check succeeds if and only if the last is the checksum of the others from a register of ones |
| FlashIntegrity.SoundExactly | flash_helper.c:258-269 | A check succeeds if and only if the last checked word is the checksum of the others |
| FlashIntegrity.StoredIsFound | flash_helper.c:273-307 | After the checksum has been stored every check succeeds if and only if the word for it still had the bits that it needs; an erased word has |
| FlashIntegrity.WordsWritten | flash_helper.c:273-307 | Setting the flag clears word 98300, storing the checksum programs word 98301, and no other word of the flash changes |
| FlashIntegrity.FlaggedIsReported | flash_helper.c:275-297 | With the flag set and the checksum not stored, every later check reports corruption if and only if the word for the checksum does not hold it already; for an erased word, unless the checksum is all ones |
| FlashIntegrity.CorruptionIsReported | flash_helper.c:250-271 | A change of any one checked word is reported |
| FlashIntegrity.FlashHelper.VerifyFlashMemory | flash_helper.c:250-308 | Both branches, with failing program steps: the verdict, or the flag and checksum stored |
| FlashIntegrity.FlashHelper.VerifyFlashMemoryChunk | flash_helper.c:310-341 | One call of the chunk check |
| FlashIntegrity.FlashHelper.Crc32 | crc.c:70-78 | Feeds the words one after the other |
| FloatCodec.RoundTrip | buffer.c:96-173 | Every finite binary32 number is read back with its value if and only if it is zero or of magnitude above 2^-127 |
| FloatCodec.SmallIsInfinite | buffer.c:96-173 | It is read back as an infinity if and only if its magnitude is at least 2^-128 and below 2^-127 |
| FloatCodec.NormalRoundTrip | buffer.c:96-173 | Every normal number survives the four bytes |
| FloatCodec.EncodedIsIeee | buffer.c:96-113 | The pattern is that of section 3.4 of IEEE 754-2008 if and only if the number is normal or positive zero |
| FloatCodec.BytesOfNormal | buffer.c:96-113 | The four bytes of a normal number: the sign and seven bits of the exponent field; its lowest bit and seven of the fraction; and the other sixteen |
| FloatCodec.SomePatterns | buffer.c:96-113 | 1.0 is written as 3F 80 00 00 and -2.0 as C0 00 00 00 |
| FloatCodec.AppendFloat32Auto | buffer.c:96-113 | Writes the pattern as four bytes, most significant first, at the index and nothing else, and advances the index by four |
| FloatCodec.GetFloat32Auto | buffer.c:155-173 | Reads four bytes, most significant first, and returns the number that their fields stand for: infinite for exponent field 255, rounded to even for field 0, and exact otherwise |
| FloatCodec.BigEndianRoundTrip | buffer.c:41-46 | Four bytes give the word back |
| FloatCodec.AppendUint32 | buffer.c:41-46 | The four bytes at the index, weighted with 2^24, 2^16, 2^8 and 1, are the number |
| FloatCodec.GetUint32 | buffer.c:138-145 | And the number read is the sum of four bytes with these weights |
| FloatCodec.BigEndianWeights | buffer.c:41-46 | Both byte orders are the positional one |

## Left out

- EepromStore.Eeprom.ProgramHalfWord: a step that fails leaves the flash as it was; an erase interrupted half way, or a halfword with some of its bits programmed, is outside the step model.
- EepromRuns.RunsAreAtomic: boots that are cut at the unsafe step of `EE_Init` are excluded here; `EepromAllRuns.EveryRun` includes them, from a running store.
- DigitalFilter.FilterFft: rounding of `float` is not modelled; the result is that of exact arithmetic, and so is the equality with `filter_dft`.
- FilterDft.FilterDft: cosine and sine are not computed; they are a parameter with the laws named under the assumptions.
- CanReassembly.Can.DecodeMsg: what happens after undefined behaviour is not modelled; the commands that do not concern the buffer have no effect in the model.
- ConfGeneral.ReadConfiguration: default values are a parameter (`confgenerator.c` is not part of this model), and the last byte of a structure of odd size is, as in the code, neither stored nor read.
- FloatCodec.RoundTrip: the sign of a zero is not part of its value.
- FloatCodec.AppendFloat32Auto: infinities and NaN are not numbers of the model: `frexpf` leaves their exponent unspecified, and converting an infinite significand to an integer is undefined.
- PacketReceiver.Handler.SendPacket: the 24-bit length format, which is not compiled for payloads of at most 512 bytes.
- `conf_general_read_mc_configuration` overwrites most fields with defaults by design (`conf_general.c:304-308`); its store and read loops are those of `StoreConfiguration` and `ReadConfiguration`.
- Watchdog, motor locking and sleeps around the configuration functions.
- The other functions of `digital_filter.c` (windows and FIR filters), the scaled float formats and the integer pairs of `buffer.c`, and the flash erase and update functions of `flash_helper.c`: short members that add nothing harder.
- The CRC peripheral itself, the CAN controller and the serial drivers.
- Motor control, encoders, terminal, USB and the configuration generator: registers, floats and field lists.
