# Acquisition board: a Dafny model

The board takes samples in periodic acquisitions that a GPS interrupt starts, and delivers them over a socket or to an
SD card. Its settings live in an INI file; a register file, a code RAM and a DMA FIFO stand between it and the
hardware. This project models the parts of the C program whose behaviour spans several functions or whole runs, and
proves what they keep.

| files | what they model |
|---|---|
| `Basics` | C's unsigned integers and optional values |
| `IniScan`, `IniFile` | the hand-written scanner of the INI file, the reader and the writer: imperative, over zero-filled buffers, proved equal to functions on texts |
| `IniTree`, `IniLookup`, `IniBody`, `IniEdit`, `IniValid` | a lossless syntax tree of INI texts; the scanner is a lookup in it, the writer an edit of it |
| `IniLaws`, `IniDoc`, `IniTraps` | read after write, overwriting, frame, runs of writes as map updates, documents; and where these laws stop |
| `IniSession` | the reader and the writer used together on one file, with the limits of their buffers |
| `Acquisition`, `Delivery`, `DeliveryLaws`, `PolledDelivery` | the handlers of GPS interrupts, data interrupts, start and stop as one state machine, and the bytes every run delivers |
| `Period` | sample length, period and start offset |
| `Word32`, `Csr`, `CodeRam` | bit fields over a seek/read/write device of 32-bit words, the configuration of the registers, the load of the code RAM |
| `Dma`, `DmaLaws`, `DmaBuffers` | the DMA driver as interleaving callers |
| `CreateDir` (module `CreateDirectory`) | making a directory with its ancestors |

Classes and methods have the form of the C code (fields updated in place, loops over buffers). Each is tied by its
contract to a function on values, and the laws are lemmas about these functions.

## What is assumed

- Handlers of the acquisition are atomic: the shared variables have no lock. `send`, `fwrite` and `fopen` succeed in
  full. A start command arrives while `s_ucIsReady` is clear, or changes neither the length nor the destination and
  finds the flag even (`Delivery.StartFits`): the command changes the length and clears the flag but not the total.
  `DeliveryLaws.StartKeeps` proves that delivery stays right exactly then, and `DeliveryLaws.StartMidwayOverruns` shows
  one way it goes wrong.
- Registers are plain storage, and labels name bits inside one word, as all labels of `application/csr.h` do.
- The DMA driver's waits and lock attempts are not cut short by signals (the result of the wait is ignored at
  `driver/xfifo_dma/xfifo_dma.c:284` and `:411`); an allocation never returns a buffer that is still live.
  `DmaLaws.InterruptedReleaseIsFinal` shows what an interrupted release does.
- An INI file has at most `MAX_FILE_SIZE - 2` characters, the edited text fits the work buffer, and the text behind an
  inserted line has no `%`: `application/inifile.c:279` uses that text as a format. The laws are about texts without
  NUL characters; the methods are also proved on texts that have some.
- A code length of n ≤ 11, as `application/lfsr.c:146` demands, and a pulse width that is not negative.

Where the comment at `application/inifile.c:276` says that a new key goes to the end of the section, the code puts it
directly behind the header and the white space that follows it; the model does what the code does.

`IniFile.ParseFile` is proved for every buffer that has two characters more than the text, so it never reads past the
second zero behind it.

## Model

| member | source | states |
|---|---|---|
| IniScan.StrNCmpIsPrefix | application/inifile.c:87 | comparing only as many characters as the file's name has makes each match, either way round, a prefix match |
| IniScan.ParseTextOk | application/inifile.c:76-143 | for every text, malformed ones included: a hit's six offsets are ordered, value_s is key_e + 2 behind an '=', no line end lies between key_s and value_e, and nothing exceeds the text's length |
| IniFile.Advance | application/inifile.c:82-95 | a character loop stops at the first stopping character or the zero behind the text |
| IniFile.NameMatches | application/inifile.c:87 | a header matches when its name is a prefix of the section asked for |
| IniFile.FindKey | application/inifile.c:111-132 | a line answers when it is no comment and the characters before its first '=' are a non-empty prefix of the key |
| IniFile.ScanSection | application/inifile.c:101-135 | one section: a hit, or the scan goes on at the next header with this section remembered |
| IniFile.ParseFile | application/inifile.c:64-144 | terminates on every buffer, reads no further than one past the terminating NUL, and returns the offsets of the scan specification: on a hit they are ordered, '=' stands at value_s - 1 and no line end or NUL between key_s and value_e |
| IniFile.IniStore.Load | application/inifile.c:18-46 | the buffer holds the file's characters and then zeros; a missing file reads as an empty one |
| IniFile.IniStore.ReadProfileString | application/inifile.c:157-203 | 1 and, character by character, the value cut to size - 1 with zeros behind it; or 0 and the default copied and padded with zeros, or the buffer untouched |
| IniFile.AppendSection | application/inifile.c:261-273 | the work buffer holds the text, a newline unless it is empty, and the new section |
| IniFile.InsertKey | application/inifile.c:274-280 | the work buffer holds the text with the line put at sec_e; past the end of the text the line is lost behind a NUL |
| IniFile.ReplaceValue | application/inifile.c:281-287 | the work buffer holds the text with the value between value_s and value_e replaced |
| IniFile.IniStore.WriteProfileString | application/inifile.c:236-303 | if the file can be opened it holds the edited text up to its first NUL and 1 is returned; otherwise it is as it was and 0 is returned |
| IniTree.TreeOk | application/inifile.c:76-102 | every text is the text of a valid syntax tree (headers across newlines, white space behind headers, bodies) |
| IniDoc.TreeUnique | application/inifile.c:76-102 | and of only one: texts and valid trees correspond one to one |
| IniLookup.ParseIsLocate | application/inifile.c:76-143 | the five nested loops over one index compute the lookup in the tree, offsets included |
| IniEdit.ReadIsGet | application/inifile.c:180-202 | reading a text is looking up its tree |
| IniEdit.ReadPlain | application/inifile.c:101-128 | a value read contains no carriage return, line feed or NUL |
| IniEdit.WriteIsTree | application/inifile.c:261-287 | all three text edits are one edit of the tree |
| IniValid.WriteValid | application/inifile.c:261-287 | the edited tree is valid: the scanner reads the edited text back as the edited tree |
| IniLaws.ReadAfterWrite | application/inifile.c:157-287 | the value written comes back if and only if no header lacking its ']' swallows the write; otherwise nothing is read |
| IniLaws.LastWriteWins | application/inifile.c:261-287 | two writes of one key leave, to the letter, the text of the second alone, if and only if the section exists or no header at the end lacks its ']' |
| IniLaws.WriteIdempotent | application/inifile.c:261-287 | writing the same value twice is writing it once, if and only if the section exists or no header at the end lacks its ']' |
| IniLaws.WriteFrame | application/inifile.c:261-287 | unless the section exists and the inserted line gets in front of a '[' that does not begin a line, every other lookup reads what it did or the value written, and the latter only if the touched header and key are prefixes of the names asked for |
| IniLaws.WriteKeeps | application/inifile.c:261-287 | among names none of which is a prefix of another, one write changes one entry and keeps the text well formed |
| IniLaws.WritesAreMapUpdates | application/inifile.c:157-287 | any run of writes on a well-kept file reads back as the same run of updates of a map |
| IniLaws.WritesFromNothing | application/inifile.c:252-273 | in particular a file grown from nothing |
| IniDoc.DocGet | application/inifile.c:48-143 | the tree of a document answers with the document's map: headers with white space behind them, blank lines, comments and pairs, each line ended by "\n", "\r" or "\r\n" |
| IniDoc.DocumentIsMap | application/inifile.c:48-287 | such a document's text reads as its map, the values free of their line ends, and after any run of writes as that map with the run's updates |
| IniSession.WriteAll | application/inifile.c:236-303 | a run of calls of the writer, each within its buffers, leaves the text the run spells out |
| IniSession.WriteThenRead | application/inifile.c:157-303 | written and read back through the file: 1 and the buffer holds the first size - 1 characters of the value and then zeros, or 0 and the buffer untouched if a header lacking its ']' swallows the write |
| IniSession.WriteAllThenRead | application/inifile.c:157-303 | after any run of writes a read fills the buffer with the characters of what a map that took the same updates holds, and zeros behind them |
| IniSession.EnoughRoom | application/inifile.c:239-286 | texts without '%' and room for every character written are enough for each step of a run |
| IniTraps.ShorterNameCaptures | application/inifile.c:87-128 | a line answers for longer keys and a header for longer names: a write to those replaces its value |
| IniTraps.UnclosedHeaderLoses | application/inifile.c:83-99 | a write to a section whose header is not closed changes nothing |
| IniTraps.InsertedLineMakesHeader | application/inifile.c:93-102 | a '[' on the line of a header becomes a header once a line is inserted before it, and hides what follows |
| IniTraps.UntidyReads | application/inifile.c:274-280 | the remaining case of the frame: after a line inserted in front of such a '[', sections in front answer as before, then the new line, then what stands behind it read as a text of its own |
| IniTraps.UntidyFrame | application/inifile.c:274-280 | for a section that no header behind the new line answers, the frame then holds for all keys if and only if each key of the body extends the new one or is hidden by a section in front |
| Acquisition.Board.MesgThread | application/app.c:169-205 | a GPS interrupt sets ready, clears flag and total and, for the SD card, opens a new file that begins with the 348 configuration bytes |
| Acquisition.Board.DeliverData_s | application/app.c:941-1070 | one data interrupt: the three cases of what is left, the buffer by the parity of the flag, the sends or the write, in 64-bit arithmetic |
| Acquisition.Board.AcqStart | application/app.c:1136-1168 | a start command stores the settings and clears the flag only |
| Acquisition.Board.AcqStop | application/app.c:1198-1236 | a stop command clears ready and flag and removes the SD file |
| Delivery.DataRelated | application/app.c:944-1069 | while ready, what is left never wraps and falls by 65536 at each data interrupt but the last, which clears ready |
| Delivery.RunRelated | application/app.c:169-1236 | in every orderly run, harmless start commands in mid-acquisition included, the counters, the socket and the file are those of the sessions its events describe |
| Delivery.FileIsOpen | application/app.c:184-205 | in every orderly run a data interrupt for the SD card finds its file open |
| Delivery.PcDelivery | application/app.c:944-1069 | since the last GPS interrupt exactly the first min(L, 65536 k) bytes of the k blocks were sent, in packages of 32768 but the last |
| Delivery.SdDelivery | application/app.c:957-1057 | the SD file is the configuration header and the same bytes |
| Delivery.SdIsPc | application/app.c:957-1068 | sessions that took the same blocks leave the same bytes on the card and on the wire, whatever the runs did before |
| Delivery.CutOk | application/app.c:978-1066 | the packages put together are the stream; all are full but the last and none is too long |
| DeliveryLaws.Countdown | application/app.c:957-1068 | ready is cleared by exactly the max(1, ceil(L/65536))-th data interrupt; until then total is 65536 times the flag and never exceeds L |
| DeliveryLaws.AcquisitionDelivers | application/app.c:171-1069 | from any state at all, a GPS interrupt and k data interrupts deliver the first min(L, 65536 k) bytes of A, B, A, ... to their one destination |
| DeliveryLaws.WholeAcquisition | application/app.c:944-1069 | a completed acquisition sends exactly its first L bytes |
| DeliveryLaws.Silent | application/app.c:944 | while ready is clear nothing is delivered until the next GPS interrupt, whatever else happens |
| DeliveryLaws.StopSilences | application/app.c:1221-1232 | a stop command ends delivery at once, wherever the acquisition stands |
| DeliveryLaws.Delivers | application/app.c:957-1068 | from any ready state, one whose total is past its length included, n data interrupts deliver min(left, 65536 n) bytes |
| DeliveryLaws.StartKeeps | application/app.c:1141-1155 | a start command leaves socket and file as the session owes them, whatever data interrupts follow, if and only if nothing is collected, or neither the length nor the destination changes and the flag is even |
| DeliveryLaws.StartMidwayOverruns | application/app.c:957-1155 | a shorter length set midway makes what is left wrap, and whole blocks go out past the new length |
| PolledDelivery.Poller.DeliverData | application/app.c:849-922 | the polling routine: the same three cases with a total of its own, which it clears itself |
| PolledDelivery.Poller.Round | application/main.c:126-137 | the main loop calls the routine while ready is set |
| PolledDelivery.Poller.MesgThread | application/app.c:171-179 | a GPS interrupt sets ready and does not touch the total of the polling routine |
| PolledDelivery.Poller.AcqStart | application/app.c:1136-1155 | a start command changes the length and not that total |
| PolledDelivery.Poller.AcqStop | application/app.c:1198-1222 | a stop clears ready and not that total |
| PolledDelivery.InStepStep | application/app.c:884-919 | one event keeps the counters of the two delivery routines in step if and only if it leaves no acquisition half delivered |
| PolledDelivery.PolledSimulates | application/app.c:849-1072 | over any number of completed acquisitions both routines issue the same sends |
| PolledDelivery.PoliteExactly | application/app.c:849-1072 | an event leaves no acquisition half delivered and keeps PC mode, if and only if after it both routines issue the same sends over every run that does so |
| PolledDelivery.CompletedIsPolite | application/app.c:884-919 | after all the data interrupts an acquisition takes, any next event is safe for that |
| PolledDelivery.CutShortDiffers | application/app.c:859-919 | an acquisition of any length that a GPS interrupt or a stop cuts short makes them differ: in the next one the polling routine sends as many bytes fewer as it had sent before |
| Period.Timing | application/app.c:700-729 | the 64-bit and 32-bit computations give four bytes for each whole sample of the code at the rate of the table, the period, and an offset that hits a multiple of it; the length is below 2^48 |
| Period.RatesDouble | application/app.c:74-81 | the rates run from 78125 samples per second upwards, each twice the one before |
| Period.NoOverflow | application/app.c:705 | no product of the sample length wraps for n up to 11, any non-negative pulse width and any table rate |
| Period.PeriodBounds | application/app.c:726-728 | the period is the code in seconds, rounded up and no further, and two seconds |
| Period.SamplesFit | application/app.c:705-728 | the samples fit inside the period less its two spare seconds |
| Period.OffsetHits | application/app.c:729 | of all offsets from 1 to a whole period, the one chosen is the only one that hits a multiple of the period |
| Period.TimingReadsBack | application/app.c:734-736 | register 6 reads back the period if and only if it is below 2^16, the offset if and only if it is below 2^15, and the start bit |
| Period.TimingAlwaysReadsBack | application/app.c:729-736 | the three read back together at every clock second if and only if the period is below 2^15 |
| Csr.WordDevice.Lseek | driver/csr/axi_csr.c:189-220 | the position moves to the place asked for, or the call fails and it stays |
| Csr.WordDevice.Read | driver/csr/axi_csr.c:152-168 | the word at the position, without moving it; nothing past the last word |
| Csr.WordDevice.Write | driver/csr/axi_csr.c:170-187 | changes the word at the position and no other, without moving it, and the contents are recorded |
| Csr.GetRegMask | application/csr.c:5-20 | the loop sets exactly the field's bits |
| Csr.MaskValue | application/csr.c:5-20 | as a number the mask is (2^width - 1) * 2^shift |
| Csr.RegRead | application/csr.c:22-43 | returns the field's bits as a number, 0 for a register that is not there |
| Csr.RegWrite | application/csr.c:45-67 | sets the field's bits in its word and returns 4, or changes nothing and returns 0 |
| Csr.ReadAfterWrite | application/csr.c:22-67 | a field reads back what was written, modulo 2^width |
| Csr.WriteFrame | application/csr.c:45-67 | no bit outside the field changes, in its word or another |
| Csr.WriteElsewhere | application/csr.c:22-67 | fields that share no bit with it read what they did |
| Csr.RunIsMap | application/csr.c:22-67 | any run of reads and writes over disjoint fields answers like a map from field to value modulo 2^width |
| Csr.RunFrame | application/csr.c:45-67 | bits in none of a run's fields survive the run |
| Csr.FieldsDisjoint | application/csr.h:27-58 | the labels the program writes are well formed and no two share a bit |
| Csr.LabelParts | application/csr.h:18-20 | a label takes apart into the offset, shift and width it was put together from |
| Csr.Configure | application/app.c:683-736 | the registers after each of the twelve writes, in order |
| Csr.ConfigReadsBack | application/app.c:683-736 | from any register contents every field set reads back its value, the three of register 6 together, and the receive bit is untouched |
| Csr.ConfigInOrder | application/app.c:549-736 | the command register holds 0xFF00 and the rate code and then 0; when the start bit is set, period and offset already stand, and before that it keeps its old value |
| Csr.Stop | application/app.c:1204-1214 | the registers after each of AcqStop's four writes, in order |
| Csr.StopClears | application/app.c:1204-1214 | register 6 is exactly 0, register 2 differs in its receive-enable bit only, the rest is untouched |
| CodeRam.Power | application/lfsr.c:9-20 | 2^n modulo 2^32 |
| CodeRam.BitToHex | application/lfsr.c:22-33 | bit b of the word is buffer byte b; the last byte reaches it with its lowest bit |
| CodeRam.PackCode | application/lfsr.c:152-170 | word j packs bytes 32 j to 32 j + 31, and no other word of the buffer changes |
| CodeRam.SetDataToRam | application/app.c:126-146 | for 5 ≤ n ≤ 11 bit b of RAM word i is code bit 32 i + b for the whole code, and no word beyond 2^n / 32 ≤ 64 changes |
| Dma.Driver.OpenFile | driver/xfifo_dma/xfifo_dma.c:110-154 | an open, refused for writing while there is a writer or a transfer |
| Dma.Driver.ReleaseFile | driver/xfifo_dma/xfifo_dma.c:156-181 | a release |
| Dma.Driver.LockFor | driver/xfifo_dma/xfifo_dma.c:354-358 | the call takes the mutex; writes are counted, reads are not |
| Dma.Driver.Allocate | driver/xfifo_dma/xfifo_dma.c:365-373 | the device structure names the new buffer, or none and the call fails with -ENOMEM |
| Dma.Driver.RequestDma | driver/xfifo_dma/xfifo_dma.c:378-387 | the channel is claimed and the device busy with the smaller of bytes asked for and depth, or the call frees what the structure names and fails with -EBUSY |
| Dma.Driver.EnableDma | driver/xfifo_dma/xfifo_dma.c:407-409 | the transfer runs and the mutex is dropped |
| Dma.Driver.DoneCallback | driver/xfifo_dma/xfifo_dma.c:200-211 | adds the count and clears busy |
| Dma.Driver.FaultCallback | driver/xfifo_dma/xfifo_dma.c:183-198 | counts an error and clears busy |
| Dma.Driver.Finish | driver/xfifo_dma/xfifo_dma.c:413-421 | frees the buffer the structure names by then and returns the smaller of bytes asked for and depth |
| DmaLaws.RunInv | driver/xfifo_dma/xfifo_dma.c:222-429 | every interleaving keeps mutex, claim, busy, count and callers consistent |
| DmaLaws.Exclusion | driver/xfifo_dma/xfifo_dma.c:222-429 | at most one caller in the critical section and one owner of the channel; busy implies an owner that waits or still starts the transfer; no waiting caller is left behind |
| DmaLaws.TransferFits | driver/xfifo_dma/xfifo_dma.c:228-257 | in every run no claimed or running transfer exceeds the depth or its caller's request, and it is one of the two |
| DmaLaws.Statistics | driver/xfifo_dma/xfifo_dma.c:183-211 | bytes_written is the sum of min(count, fifo_depth) over the completed calls, reads included, errors the faulted ones, writes the write calls, modulo 2^32 |
| DmaLaws.Handles | driver/xfifo_dma/xfifo_dma.c:110-181 | writers is 0 or 1 and is the number of open write-capable handles; opens minus closes is the number of open handles |
| DmaLaws.OpenGranted | driver/xfifo_dma/xfifo_dma.c:126-147 | an open succeeds if and only if it is read-only, or no write-capable handle is open and no transfer runs |
| DmaLaws.InterruptedReleaseIsFinal | driver/xfifo_dma/xfifo_dma.c:160-162 | after one interrupted release of a write-capable handle no open for writing succeeds again |
| DmaBuffers.TidyOrStray | driver/xfifo_dma/xfifo_dma.c:236-309 | without an overlapping allocation the one live buffer is the one caller's own; after one there is a live buffer nobody can free |
| DmaBuffers.BuffersBalance | driver/xfifo_dma/xfifo_dma.c:236-309 | once all calls have returned, no buffer is live if and only if no allocation came while another caller had its buffer |
| DmaBuffers.OwnBuffer | driver/xfifo_dma/xfifo_dma.c:286-295 | until then each caller copies from and frees its own buffer, at its own size |
| DmaBuffers.SerialCallsBalance | driver/xfifo_dma/xfifo_dma.c:213-429 | calls one at a time leave no buffer behind |
| DmaBuffers.OverlapLosesBuffer | driver/xfifo_dma/xfifo_dma.c:354-428 | a second caller that is only refused already costs the first caller's buffer |
| CreateDirectory.CreateDir | application/app.c:556-584 | cutting and restoring the string in place, it returns 1 exactly when every ancestor and the directory were there or could be made, in order, for a path written as components with any slashes between and behind them |
| CreateDirectory.SplitJoined | application/app.c:566-581 | the components found at the cuts are the ones the path was put together from, repeated and trailing slashes absorbed |
| CreateDirectory.PathsDiffer | application/app.c:570-573 | two paths name one directory if and only if they have the same components and both or neither begin with a slash |
| CreateDirectory.EveryPath | application/app.c:556-565 | every string is a path of that form |
| CreateDirectory.MakeMeaning | application/app.c:566-583 | success if and only if no missing ancestor is denied; then all exist; only ancestors are made, nothing denied, every parent exists |

## Left out

- IniFile.IniStore.WriteProfileString: the text behind an inserted line must have no `%`; what sprintf would make of a conversion in it is not modelled. A failing `fputs` is not modelled either.
- IniFile.IniStore.Load: a file that is too long ends the program at an assertion; a byte 255 in the file, which the C code takes for its end, is not modelled.
- CodeRam.SetDataToRam: the bits are an arbitrary 0/1 buffer, because the generator is disabled and fills zeros; for n above 11 the routine would load the words of an earlier call, which is not modelled.
- Csr.Configure: the sleep between the two writes of the command register, and registers the hardware changes by itself.
- Period.Timing: `ceil` is taken exactly; in the ranges of its precondition the double computation gives the same.
- Acquisition.Board.MesgThread: the GPS payload, its message socket and the file name made of the clock's second.
- Delivery.RunRelated: start commands in mid-acquisition that StartKeeps shows to be harmful, and preemption inside a handler.
- IniTraps.UntidyFrame: a section that headers behind the inserted line answer too; UntidyReads gives each of its lookups, but no condition for all its keys at once is stated.
- Dma.Driver.Allocate: addresses and the copying between user and kernel memory; a buffer is only a name.
- DmaLaws.Exclusion: waits and lock attempts cut short by signals; which handle a read or write call comes through.
- CreateDirectory.CreateDir: links, "." and ".."; a path that is empty or longer than the buffer.
- `read_profile_int` and the table lookups of `Configuration`: a conversion of digits and finite tables.
- Socket setup, command parsing, `UdpDeliverData`, `SaveFileToSd`, averages and the test routines: plumbing and single loops.
- The position of the DMA device (`xfifo_dma_lseek`) and the DMA engine's settings: values passed to hardware.
- `probe`, `remove`, the /proc statistics and memory mapping: kernel interfaces.
- The unused shift-register functions of `application/lfsr.c`.
