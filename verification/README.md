# Verified model of the Pano network flash loader

The loader is an FPGA system whose firmware downloads files over TFTP into a SPI NOR flash. This project
models the parts of it that hold state over time, and proves what they keep over every run.

**The bus.** `AxiBurst` has the burst addresses, `AxiWrite` and `AxiRead` the two halves of the AXI4 to
AXI4-Lite converter, and `AxiConverter` the converter as the clocked module it is; `MachineWords` ties the
arithmetic of the addresses to the 32-bit machine words of the source. `LiteSlave` is the slave
port that the GPIO peripheral and the Ethernet register port both contain; `Gpio` and `EthPort` are the two
devices, and `Soc` is the converter wired to the GPIO peripheral. One clock edge is one step. A *run* is any
sequence of inputs; a *trace* records what has crossed the ports. The neighbours of a module are free except
for the contract written out in its module (`Keeps`, `MasterKeeps`, `ReadsWhenReady`).

**The flash.** `NorFlash` is a flash whose writes can only clear bits and whose erases set whole blocks to
0xff. `TftpLoader` has the callbacks that flash, verify and save; `Download` and `RoundTrip` state what they
do over whole transfers. `ConfigLog` and `Settings` are the append-only log of settings in the last block.
`FlashMap` is the specification of the `map` command, and `Monitor` holds the commands of the loader that
share its buffer and its settings.

**The rest.** `EthFrames` is the framing over the Ethernet FIFOs and `Xorshift` the random generator.
`Words`, `Bits`, `Division` and `Pigeonhole` are small foundations.

Each clocked module and each group of C functions that updates state in place is a class whose methods are
proved against a function of the state before; the results over runs are lemmas about these functions.

## Where the code does less than it is meant to

Each of these is proved as a condition that is both sufficient and necessary, or with the input that shows it.

- The GPIO configuration registers take whatever is on the data bus when address and data have both arrived,
  so in any run they store the right data exactly when the data was not accepted before its address
  (`Gpio.ConfigWriteNeedsAddressFirst`; `Gpio.EarlyDataIsLost` is a run that fails). Behind the converter this
  never happens (`Soc.FlowControlNeverDiffers`).
- An incrementing burst from an unaligned address keeps its misalignment, unlike section A3.4.1 of the AMBA
  AXI specification (`AxiBurst.AxiConformance`).
- A read of an empty Ethernet receive FIFO returns a word that is no byte of the stream and puts the port out
  of step (`EthPort.OrderNeedsNonemptyReads`).
- With autoerase, blocks are erased once and before they are written exactly when the first payload stays
  within one erase block (`Download.DisciplineExactlyWhenFirstStays`); otherwise the next payload destroys
  part of it (`Download.CrossingTailIsErased`), so exactly then every file is left as it should be in every old
  contents (`Download.ImageExactlyWhenFirstStays`). The repository's README.md asks for aligned start addresses.
- The buffers of a chained payload are all written to the same address, so they lie one after the other
  exactly when only one of them has data (`TftpLoader.ChainIsConsecutive`).
- The fit test of the log wraps, so it also passes records that do not fit; a record of any length is found
  again exactly if it does fit, with a word to spare (`Settings.AnyRecordIsRereadIffItFits`).
- The 86th setting passes the fit test because an unsigned subtraction wraps, and is lost, as is every later
  one (`Settings.SettingIsKeptIffRoom`).
- The parser's test for an empty block compares with the second page of the block itself. It is asked about
  invalid blocks only, which are never erased (`Settings.InvalidIsNeverErased`), and it takes one for empty
  exactly if all its pages are equal (`Settings.InvalidIsUsedIffPagesRepeat`). What is then written is there
  exactly if it clears bits only (`Settings.RecordIntoInvalidBlock`); on a block of zeros every setting is lost
  for ever (`Settings.ZerosLoseEverySetting`).
- The log parser's pointer has 32 bits, so a record length near 2^32 can lead it back. It ends exactly if it
  has ended after 256 rounds, that is, if it is at no offset twice (`ConfigLog.ParserEndsIff`); a length of
  2^32 - 8 traps it (`ConfigLog.WrappedLengthLoops`), one of 2^32 - 1 need not
  (`ConfigLog.WrappedLengthCanEnd`), and without a length that wraps it always ends
  (`ConfigLog.WalkFollowsParse`).
- The transmit loop sends what lies in memory behind an empty buffer that is not the first; a chain is sent as
  the frame it holds exactly if no data follows such a buffer (`EthFrames.SentIsEncodedIff`).
- The B of a write burst carries the response to its last beat; an error on an earlier beat is lost
  (`AxiWrite.ResponsesRefine`, kept on every run by `AxiWrite.WriteBurstsRefine`).
- A frame length of 0 or above 1518 puts the receiver out of step (`EthFrames.InSyncIffLengthIsValid`), and a
  frame of 593 to 1518 bytes is written past its first pool buffer: a frame is handed on intact exactly if it
  gets a buffer and fits a single one (`EthFrames.PollRecoversFrame`).

## Model

| member | source | states |
|---|---|---|
| MachineWords.NextAddressIsMachine | fpga/axi4_axi4lite_conv.v:93-122 | the 32-bit function as written, with its masks and its wrapping sum, computes the address used in all results below |
| AxiBurst.IncrClosedForm | fpga/axi4_axi4lite_conv.v:118-120 | k steps of INCR from any start give start + 4k modulo 2^32 |
| AxiBurst.WrapClosedForm | fpga/axi4_axi4lite_conv.v:105-117 | after any number of steps WRAP is in its window, at the start offset plus 4k modulo the window size |
| AxiBurst.AxiConformance | fpga/axi4_axi4lite_conv.v:93-122 | a legal burst follows the address equations of section A3.4.1 on all beats iff it is FIXED, WRAP, of one beat, or aligned |
| AxiBurst.WrapVisitsEachWordOnce | fpga/axi4_axi4lite_conv.v:105-117 | a full WRAP burst is at each word of its aligned window on exactly one beat |
| AxiWrite.StepKeepsInv | fpga/axi4_axi4lite_conv.v:131-176 | one edge keeps the invariant linking masks, counter, held address and blast_q to what has crossed the ports |
| AxiWrite.Transfers | fpga/axi4_axi4lite_conv.v:300-326 | address and data go downstream together, AW is taken only between bursts, B only after the last beat |
| AxiWrite.WriteBurstsRefine | fpga/axi4_axi4lite_conv.v:228-285 | on every run the AXI4-Lite writes are the beats of the accepted bursts at their burst addresses, in order, each is answered once, and each burst gets one B with its id, after all its beats, with the response to the last |
| AxiWrite.OutputsHold | fpga/axi4_axi4lite_conv.v:300-326 | between neighbours that hold theirs, the address waits for the slave's READY and the B for the master's, unchanged |
| AxiWrite.EveryBeatIsWrittenAtItsAxiAddress | fpga/axi4_axi4lite_conv.v:241-280 | beat k of burst n is written at the address of section A3.4.1 with its own data and strobes, 256-beat bursts included |
| AxiWrite.NothingBlocks | fpga/axi4_axi4lite_conv.v:317-326 | in every reachable state a ready neighbour makes progress, and only the last B of a burst reaches the master |
| AxiRead.ReadBurstsRefine | fpga/axi4_axi4lite_conv.v:185-218 | on every run the AXI4-Lite reads are the burst addresses in order, the data comes back in order with the id, RLAST is on exactly the last beat, and arvalid_q iff arcnt_q is nonzero |
| AxiRead.NothingBlocks | fpga/axi4_axi4lite_conv.v:196-218 | in every reachable state an idle converter takes a command the slave is ready for and issues its first read, a burst issues its next read when the slave is ready, down to the last, and a reply is delivered when both sides are ready |
| AxiRead.EveryReadIsIssuedAtItsAxiAddress | fpga/axi4_axi4lite_conv.v:196-216 | read k of burst n is issued at the address of section A3.4.1, and its answer is reply k of that burst, with its id and RLAST iff it is the last |
| AxiRead.OutputsHold | fpga/axi4_axi4lite_conv.v:307-315 | between neighbours that hold theirs, the address waits for the slave's READY, and the reply, RID and RLAST for the master's, unchanged |
| AxiRead.CommandTakenBetweenBursts | fpga/axi4_axi4lite_conv.v:155-161 | a ready slave lets a read command in iff all earlier bursts are complete |
| AxiConverter.Converter.Clock | fpga/axi4_axi4lite_conv.v:164-285 | one edge of the whole module keeps both refinements |
| LiteSlave.StepKeepsInv | fpga/gpio.v:76-135 | for any master, the k-th address meets the k-th data in one commit and one B, and R returns the value fetched |
| LiteSlave.NothingBlocks | fpga/gpio.v:76-135 | an address and a datum are taken when no B is pending and no read presented, a write commits when both are there, B, AR and R move as soon as they can, and registers are addressed by bits 7:0 |
| LiteSlave.RetimedDataIsLatest | fpga/gpio.v:116-122 | wr_data_q is the data of the latest write while its B is pending |
| LiteSlave.Port.Clock | fpga/gpio.v:84-122 | one edge of the port's registers |
| Gpio.PortIsExactlyOnce | fpga/gpio.v:81-135 | on every run, whatever the order of AW and W, writes pair and are answered once, and read data is stable until taken |
| Gpio.PortNeverBlocks | fpga/gpio.v:76-135 | the same after any run, and the addresses and data taken are those on the bus |
| Gpio.OutputReadsLinearize | fpga/gpio.v:182-255 | the output register is the fold of write, set and clear over a prefix of the commits that includes every write whose B was taken |
| Gpio.OutputMeaning | fpga/gpio.v:512-525 | bit by bit, a write to offset 0x0c sets, to 0x10 clears and to 0x08 replaces the output, and no other write touches it |
| Gpio.ReadAfterResponseSeesAllWrites | fpga/gpio.v:437-477 | a read of GPIO_OUTPUT accepted with no B pending fetches the fold of all writes |
| Gpio.InterruptsAreSticky | fpga/gpio.v:562-589 | a raw bit is set iff some event set it and no later cycle acknowledged it; an event in the cycle of an acknowledge wins |
| Gpio.EventMeaning | fpga/gpio.v:492-560 | in every run the events of a cycle are: the pin at its active level two cycles before, in edge mode after the other level three cycles before, or a software write; and the acknowledges are software writes |
| Gpio.EverySoftwareWriteActsOnce | fpga/gpio.v:286-314 | each INT_SET and INT_CLR write acts in exactly one cycle with its own data |
| Gpio.LineFollowsUnmaskedBits | fpga/gpio.v:587 | the interrupt line is the one-cycle-delayed OR of the unmasked raw bits |
| Gpio.ConfigWriteNeedsAddressFirst | fpga/gpio.v:154-158 | in any run with the configuration registers in order, one more write keeps them so for every bus value iff its data was not accepted before its address |
| Gpio.EarlyDataIsLost | fpga/gpio.v:154-158 | a run of two cycles, data first, after which DIRECTION is 0 and not the 5 written to it |
| Gpio.ConfigReadsLastWrite | fpga/gpio.v:389-432 | with addresses first, the R transfer that answers a read of a configuration register, BOOT_SPI_ADR included, returns the data last written to it |
| Gpio.ConfigHoldsLastWrites | fpga/gpio.v:142-380 | the fold of the writes is the data last written to offsets 0x00, 0x14, 0x24, 0x28, 0x2c (24 bits) and bit 0 of that to 0x30 |
| Gpio.ReadsReturnState | fpga/gpio.v:389-432 | after any run the R transfer that answers a read of 0x04 returns the pins two cycles before, of 0x08 the output register, of 0x20 the interrupt bits that are due, and of an unreadable offset 0 |
| Gpio.Peripheral.Clock | fpga/gpio.v:527-589 | one edge of the peripheral, for any master and pins, keeps all of this |
| Soc.BurstsBecomeRegisterWrites | fpga/axi4_axi4lite_conv.v:300-326 | wired together, each beat becomes exactly one register write with its own address and data; the configuration registers are the fold of them, and the output register the fold of a prefix that has every beat of every burst whose B the master has taken |
| Soc.BurstsBecomeRegisterReads | fpga/axi4_axi4lite_conv.v:307-315 | wired together, each burst read fetches one register, and the master gets the values in order |
| Soc.FlowControlNeverDiffers | fpga/axi4_axi4lite_conv.v:287-298 | AWREADY and WREADY agree in every reachable state, and the slave never holds half a write |
| Soc.PeripheralRuns | fpga/gpio.v:76-135 | every run of the system is a run of the peripheral, so all results on its runs hold behind the converter |
| Soc.ReadsNeverBlock | fpga/axi4_axi4lite_conv.v:307-315 | wired together, in every reachable state a read burst fetches or delivers in each cycle in which the master takes replies |
| Soc.WritesNeverBlock | fpga/axi4_axi4lite_conv.v:300-326 | wired together, in every reachable state a write burst moves in each cycle with data and without a read |
| Soc.ReadBurstEnds | fpga/axi4_axi4lite_conv.v:185-218 | a read burst of n beats whose replies are taken is complete after 2n more cycles, whatever else happens |
| Soc.WriteBurstEnds | fpga/axi4_axi4lite_conv.v:228-285 | a write burst of n beats that is served, without reads, has its B after 2n + 1 more cycles |
| EthPort.TransmitIsExactlyOnce | fpga/eth_axi4lite.v:172-180 | each ETH_TX write pushes its own byte once |
| EthPort.PushedBits | fpga/eth_axi4lite.v:172-180 | bit by bit, the k-th byte pushed is bits 7:0 of the k-th datum written to offset 0x04 |
| EthPort.ReceiveIsExactlyOnce | fpga/eth_axi4lite.v:339-348 | reads of ETH_RX from a nonempty FIFO fetch the bytes in order with one pop each, no other read pops, and the R transfers return the values fetched in order |
| EthPort.ReceivedBits | fpga/eth_axi4lite.v:205-211 | bit by bit, the k-th value read from offset 0x00 is the k-th byte that arrived, with zeros above |
| EthPort.StatusReads | fpga/eth_axi4lite.v:212-225 | a read of 0x08 returns RXEMPTY in bit 2, the other flags in bits 0, 1, 3, 5 to 7 and zeros elsewhere; unreadable offsets give 0 |
| EthPort.PortNeverBlocks | fpga/eth_axi4lite.v:99-165 | after any run nothing blocks on this port either |
| EthPort.OrderNeedsNonemptyReads | fpga/eth_axi4lite.v:229-251 | a cycle fetches bytes of the FIFO only, for every behaviour of the FIFO, iff it accepts no read of an empty one |
| EthPort.Module.Clock | fpga/eth_axi4lite.v:102-180 | one edge of the port |
| NorFlash.Flash.Write | README.md:140 | after a write a bit in its range is set iff it was set and is set in the data, and nothing else changes |
| NorFlash.MeetBits | README.md:140 | a bit is set after a write iff it was set and is to be set |
| TftpLoader.Handle.Write | fw/pano_ldr/tftp_ldr.c:106-191 | the write callback, over a chain of buffers, is the specified function of handle and flash |
| TftpLoader.Handle.Read | fw/pano_ldr/tftp_ldr.c:79-104 | for a save the read callback returns the next bytes, cut off at the requested length; for any other transfer -1, and changes nothing |
| TftpLoader.SaveRejectsData | fw/pano_ldr/tftp_ldr.c:173-176 | data for a save is an internal error and writes nothing |
| TftpLoader.Handle.CloseTransfer | fw/pano_ldr/tftp_ldr.c:69-76 | a transfer still in progress ends well |
| TftpLoader.Agree | fw/pano_ldr/tftp_ldr.c:157-166 | the count is the length of the longest common prefix |
| TftpLoader.ChainIsConsecutive | fw/pano_ldr/tftp_ldr.c:106-147 | with and without autoerase, the write commands of a payload follow one another iff only one of its buffers has data |
| Download.AutoEraseLeavesImage | fw/pano_ldr/tftp_ldr.c:127-148 | an autoerase download leaves the file in its range, 0xff in the rest of the touched blocks and all other blocks unchanged |
| Download.DisciplineExactlyWhenFirstStays | fw/pano_ldr/tftp_ldr.c:134-143 | every touched block is erased exactly once and before any byte of it is written iff the first payload stays in one block |
| Download.CrossingTailIsErased | fw/pano_ldr/tftp_ldr.c:134-143 | otherwise the next payload erases what the first put into the second block |
| Download.ImageExactlyWhenFirstStays | fw/pano_ldr/tftp_ldr.c:127-148 | for given payload lengths, every file is left as it should be in every old contents iff the first payload stays in one block |
| Download.NoEraseLeavesMeet | fw/pano_ldr/tftp_ldr.c:145-147 | without autoerase nothing is erased, a bit in the range is set afterwards iff it was set and is set in the file, all else stays, and repeating changes nothing |
| RoundTrip.VerifyDecidesEquality | fw/pano_ldr/tftp_ldr.c:150-185 | verify ends in Ok iff the flash equals the file and payloads fit, else stops at the first differing byte; flash is unchanged |
| RoundTrip.SaveSendsFlash | fw/pano_ldr/tftp_ldr.c:79-104 | save terminates and sends exactly the range as full blocks and one short, possibly empty, block |
| RoundTrip.DownloadSaveVerify | fw/pano_ldr/tftp_ldr.c:69-191 | a download is saved back as the same bytes and verifies |
| RoundTrip.NoEraseVerifiesIffOnlyClears | README.md:138-142 | after a download without autoerase, verify succeeds iff no file bit is 1 where the old bit was 0 |
| ConfigLog.AppendIsReread | fw/pano_ldr/main.c:1388-1414 | an append of any length that fits with a word to spare is parsed again as exactly that record |
| ConfigLog.ParsePrefix | fw/pano_ldr/main.c:1337-1371 | contents that agree below the free offset parse alike up to it |
| ConfigLog.FreeIsErased | fw/pano_ldr/main.c:1374-1376 | the offset returned is an erased word above all records |
| ConfigLog.ParserEndsIff | fw/pano_ldr/main.c:1337-1352 | with its 32-bit pointer the parser ends iff it has ended after 256 rounds, which is iff it is at no offset twice |
| ConfigLog.WalkFollowsParse | fw/pano_ldr/main.c:1337-1352 | unless a length wraps the parser ends, with the records and the outcome of parsing over the integers |
| ConfigLog.WrappedLengthLoops | fw/pano_ldr/main.c:1342-1347 | a record it reaches whose rounded length is 2^32 - 8 holds the parser for ever |
| ConfigLog.WrappedLengthCanEnd | fw/pano_ldr/main.c:1342-1347 | with a length of 2^32 - 1 at the start and an erased word behind it the parser ends there |
| Settings.AnyRecordIsRereadIffItFits | fw/pano_ldr/main.c:1388-1414 | a record of any length, through the wrapping fit test, is found by every later parse iff it fits with a word to spare |
| Settings.LastValueWins | fw/pano_ldr/main.c:1322-1414 | from an erased block, after any run of up to 85 settings and any reboots, each variable has the last value its command set, or 0, 0x40000 and 0, and a reboot finds that in the flash whatever the variables were |
| Settings.CommandsSetVariables | fw/pano_ldr/main.c:963-1146 | while there is room, bootadr sets the boot address, tftp the server and autoboot 0, 1 or 2, each nothing else, and a reboot keeps it |
| Settings.SettingIsStored | fw/pano_ldr/main.c:1405-1411 | the n-th setting is in flash as tag, length 4 and value, little-endian, 12 n bytes into the last block |
| Settings.EarlierBytesStay | fw/pano_ldr/main.c:1400-1411 | no byte of the log changes once written, in runs of any number of settings |
| Settings.SettingIsKeptIffRoom | fw/pano_ldr/main.c:1399-1413 | after any run a setting is kept by the log iff fewer than 85 are in it, and the variables have the last values of the first 85 |
| Settings.OverfullIsInvalid | fw/pano_ldr/main.c:1337-1352 | with an 86th record the log is invalid iff the word behind gTemp, read as its length, leads out of the buffer |
| Settings.InvalidIsNeverErased | fw/pano_ldr/main.c:1377-1383 | where the parser asks whether the block is empty, it is not |
| Settings.InvalidIsUsedIffPagesRepeat | fw/pano_ldr/main.c:1377-1383 | an invalid block is used for new settings iff each of its bytes equals the one at the same place of its second page |
| Settings.RecordIntoInvalidBlock | fw/pano_ldr/main.c:1399-1411 | a record written into such a block is there afterwards iff it only clears bits, and is then the first the parser finds |
| Settings.ZerosLookEmpty | fw/pano_ldr/main.c:1377-1383 | a last block of zeros is invalid and taken for empty |
| Settings.ZerosLoseEverySetting | fw/pano_ldr/main.c:1322-1414 | and in any run from there every setting is lost and the block stays as it is |
| FlashMap.BlankPagesMatch | fw/pano_ldr/main.c:1264-1283 | against a page of 0xff the page-wise test says whether the whole block is erased |
| FlashMap.MapIsUnique | fw/pano_ldr/main.c:1023-1043 | only one list of regions tiles the flash, alternates and is truthful |
| Monitor.Loader.CheckEmpty | fw/pano_ldr/main.c:1264-1283 | whether every page of a block equals the reference page in gTemp |
| Monitor.Loader.MapCmd | fw/pano_ldr/main.c:989-1046 | prints that list, whatever is read past the end of flash |
| Monitor.Loader.ParseDataBlock | fw/pano_ldr/main.c:1322-1386 | wherever the parser ends, takes over the settings of the log and returns the first free address |
| Monitor.Loader.AddBoardInfo | fw/pano_ldr/main.c:1388-1414 | wherever the parser ends, appends a record if the fit test lets it through, stores its end behind gTemp if it does not fit, and reloads |
| EthFrames.PollRecoversFrame | fw/pano_ldr/main.c:459-505 | a poll takes exactly the frame that was sent from the FIFO, and hands it on intact iff there is a buffer and it fits a single one |
| EthFrames.FramesAreRecovered | fw/pano_ldr/main.c:425-505 | any sequence of frames that fit the buffers they get is received in order; under any allocation failures exactly the others are, and the FIFO stays in sync |
| EthFrames.SentIsEncodedIff | fw/pano_ldr/main.c:425-457 | a chain is sent as the frame it holds, whatever memory contains, iff no data follows an empty buffer other than the first |
| EthFrames.TransmitThenReceive | fw/pano_ldr/main.c:425-505 | such chains sent by one side are received by the other as the frames they hold, in order and each once |
| EthFrames.InSyncIffLengthIsValid | fw/pano_ldr/main.c:468-474 | the FIFO stays in sync iff the length is from 1 to 1518 |
| EthFrames.BadLengthLosesBytes | fw/pano_ldr/main.c:470-497 | a bad length throws up to 2048 bytes away and then as many as the length says, which the stack is handed if there is a buffer |
| EthFrames.IdlePoll | fw/pano_ldr/main.c:468 | a poll of an empty FIFO does nothing |
| EthFrames.FrameOnTheWire | fw/pano_ldr/main.c:438-453 | a frame is sent as its length, most significant byte first, and its bytes |
| EthFrames.Interface.Output | fw/pano_ldr/main.c:425-457 | a chain is sent as its length and its bytes, as far as it goes; behind an empty buffer that is not the first come the bytes that lie in memory there |
| EthFrames.Interface.PollOnce | fw/pano_ldr/main.c:459-509 | one poll of the receive FIFO, with what is handed on and what overruns |
| Xorshift.NextSeedIsBijection | fw/pano_ldr/rand.c:15-22 | the state map is a bijection on 32-bit words, and only zero leads to zero |
| Xorshift.NextSeedBits | fw/pano_ldr/rand.c:17-19 | each bit of the new seed in terms of bits of the old: sums with the bits 13 below, then 17 above, then 5 below |
| Xorshift.FirstNumbers | fw/pano_ldr/rand.c:13-22 | the first three numbers from the initial seed 1 |
| Xorshift.PurelyPeriodic | fw/pano_ldr/rand.c:15-32 | from a nonzero seed outputs are nonzero and the sequence returns to the seed within 2^32 - 1 steps |
| Xorshift.Generator.Rand | fw/pano_ldr/rand.c:15-27 | updates the seed in place and returns it |

## Left out

- LiteSlave.Inputs: the write strobes, which both slaves ignore, so a narrow write writes the whole register.
- TftpLoader.WriteBuf: the RAM transfer type, which no command uses, and what stays in the scratch buffer after a comparison.
- TftpLoader.Transfer: addresses above 2^32 - 2; flash sizes are far below, and the sums that could wrap are in range for every transfer that fits.
- EthFrames.Interface.Output: what lies in memory behind an empty buffer, which is a parameter.
- EthFrames.FramesAreRecovered: what a frame written past its pool buffer overwrites, and all that follows from that.
- EthFrames.Poll: the order of the two length reads, which C leaves open; they are taken from left to right.
- Monitor.Loader.ParseDataBlock: the run of the method on contents on which the loop does not end; `Settings.ParseDataBlock` records that the firmware has stopped.
- Monitor.Loader.AddBoardInfo: what a record stored past gTemp overwrites, except for the eight bytes the parser can read.
- Settings.SettingIsKeptIffRoom: from the 86th setting on, page sizes that are a multiple of 12 or not of 4, and a word behind gTemp that wraps the pointer back into it (`Settings.OverfullIsInvalid`); flash pages have 256 bytes.
- Reset as an input: runs start in the reset state and reset stays inactive.
- The registers gpio_direction_wr_q, gpio_input_wr_q, gpio_int_mask_wr_q, gpio_int_status_wr_q, gpio_int_level_wr_q, gpio_int_mode_wr_q and eth_status_wr_q, which nothing reads.
- A full transmit FIFO, and the MAC, MII and clocks behind the FIFOs.
- The TFTP engine, lwIP, the SPI driver and the command parser; their calls are the inputs of the model.
- Printed text, LEDs, the boot button, the telnet console, DHCP and the timers.
- The dump, erase, reboot and exit commands, which only forward their arguments.
