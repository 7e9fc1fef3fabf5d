# AVR 8-bit game console: bootloaders, SD/MMC driver, UART and 2-bit graphics in Dafny

This project models the firmware core of an ATmega-based game console and proves what that code promises.

- **SD/MMC driver.** The driver (`sd.c`, with its twin in `FAT16_bootloader/diskio.c`) runs over SPI. It sends a six-byte command frame and polls for the response. Mounting steps the card through its idle and initialisation loops, then tells SD from MMC cards. Single 512-byte sectors are read and written with their data tokens, CRC bytes and busy wait. Petit FatFs reads partial sectors with `disk_readp`.
- **SD bootloader.** `SD_Bootloader.c` mounts the card with a bounded number of retries. It copies the application sectors to flash page by page with `boot_program_page` (erase, fill the temporary page buffer, write), then jumps to the application.
- **FAT16 bootloader.** `FAT16_bootloader/main.c` copies a file that `pf_read` delivers in chunks of `SPM_PAGESIZE` bytes into flash. It redefines `SPM_PAGESIZE` to 128, half the ATmega644P's 256-byte page, while `boot_page_erase` and `boot_page_write` still act on the whole hardware page. The model keeps `SPM_PAGESIZE` as a parameter and the flash page at 256 bytes.
- **UART driver.** The interrupt-driven driver of the FAT16 bootloader (`FAT16_bootloader/uart.c`) has two 32-entry ring queues, the receive and data-register-empty interrupts, and the baud-rate computation.
- **Fixed point.** The 16.16 fixed-point macros of `fixedpt_16_16.h`.
- **Graphics library.** `XGS_AVR_GFX_LIB_V010.c` covers:
  - 2-bit pixels packed four to a byte: plot, clipped plot, get, screen and region fill;
  - horizontal lines with their partial-byte tables and vertical lines;
  - Cohen-Sutherland line clipping, Bresenham lines and midpoint circles, each plain and clipped;
  - the tile-map text console;
  - the integer helpers `Fast_Distance_2D`, `FIXP16_MUL`, `FIXP16_DIV` and `Translate_Polygon2D`.

How the model is built:

- **Hardware.** The SPI bus, the card, flash memory, the USART and the video buffer are Dafny classes whose methods change state in place.
- **Specifications.** Every method is proved against pure functions of the inputs and the old state. Examples are the card session `SdProtocol.Command` and `SdTransfer.ReadSectorRun`, `Flash.Overwrite`, `Pixels.PlotAll` and `Raster.LinePoints`.
- **Partner lemmas.** Lemmas next to those functions state the properties the firmware relies on: round trips, bounds, retry limits, what a failure leaves behind, and the pixels a primitive touches.
- **The SD card.** The card is a script of the bytes it shifts out; past the end of the script the line idles at 0xFF.
- **Integers.** The C code's 16-bit `int` and 32-bit `long` are Dafny integers. Preconditions keep inputs inside their C ranges. The line clipper's arithmetic wraps to 16 bits (`Bytes.Wrap16`) as the C expressions do.
- **Logs.** A log records every byte sent with its chip-select level, so the contracts also say what went out on the wire.

## Model

| member | source | states |
|---|---|---|
| Bytes.LittleEndianWord | FAT16_bootloader/main.c:148-154 | the 16-bit word built from two bytes gives back the low byte in its low half and the high byte in its high half |
| Spi.Bus.constructor | spi.c:10-18 | a new bus has nothing sent, chip-select released, and neither rate bits nor SPI2X set |
| Spi.Bus.Exchange | spi.c:28-45 | one full-duplex exchange: the byte received is the card's next scripted byte, the byte sent is logged under the current chip-select level, and nothing else changes |
| Spi.Bus.Write | spi.c:28-37 | spi_write adds exactly its byte to the wire log and changes neither chip-select nor the clock |
| Spi.Bus.Read | spi.c:39-45 | spi_read(0xFF) returns the card's next byte and logs one 0xFF filler |
| Spi.Bus.Select | spi.h:41 | assert_CS drives chip-select active and sends nothing |
| Spi.Bus.Deselect | spi.h:42 | de_assert_CS releases chip-select and sends nothing |
| Spi.Bus.Init | spi.c:10-18 | spi_init releases chip-select, sets the rate bits to the code's low two bits, and sets SPI2X when the code asks for it but never clears it |
| Spi.Bus.SetSpeed | spi.c:20-26 | spi_set_speed rewrites the rate bits and only ORs SPI2X in; chip-select and the log are unchanged |
| Uart.Slot | FAT16_bootloader/uart.c:318-334 | the ring index after head wraps at MAXQUEUE, and the wrap-around subtraction equals the modulo |
| Uart.Ring | FAT16_bootloader/uart.c:32-38 | the queue read from a ring buffer has size entries, entry i in slot head + i modulo 32 |
| Uart.Queue.constructor | FAT16_bootloader/uart.c:52-53 | a queue in static storage starts all zero over a fresh 32-entry array |
| Uart.Queue.Initialize | FAT16_bootloader/uart.c:308-315 | InitializeQueue leaves a valid empty queue with head 0 and tail -1 |
| Uart.Queue.Clear | FAT16_bootloader/uart.c:353-360 | ClearQueue leaves exactly the state InitializeQueue does |
| Uart.Queue.Empty | FAT16_bootloader/uart.c:336-339 | QueueEmpty is true exactly when no item is queued |
| Uart.Queue.Full | FAT16_bootloader/uart.c:341-344 | QueueFull is true exactly when 32 items are queued |
| Uart.Queue.Append | FAT16_bootloader/uart.c:318-325 | on a queue that is not full, the byte becomes the last item and the others keep their order |
| Uart.Queue.Serve | FAT16_bootloader/uart.c:327-334 | on a queue that is not empty, the first item is returned and removed, and the rest keep their order (FIFO) |
| Uart.RingAppend | FAT16_bootloader/uart.c:318-325 | writing the slot after the tail appends to the queue the ring holds |
| Uart.RingServe | FAT16_bootloader/uart.c:327-334 | advancing head by one modulo 32 drops exactly the first item |
| Uart.Offered | FAT16_bootloader/uart.c:170-186 | what put_TransBuffer_String offers always ends with the terminating NUL |
| Uart.Expand | FAT16_bootloader/uart.c:172-183 | expanding each line feed into line feed plus carriage return at most doubles the length |
| Uart.CollapseExpand | FAT16_bootloader/uart.c:172-183 | the expansion loses nothing: dropping the carriage return after each line feed gives the string back |
| Uart.ExpandNoNul | FAT16_bootloader/uart.c:170-186 | a string without NUL expands without NUL, so only the final byte offered is NUL |
| Uart.BaudFormula | FAT16_bootloader/uart.c:83-90 | no contract of its own: F_CPU / (16 * rate) - 1 in 32-bit unsigned arithmetic, stored in 16 bits; BaudTable relates it to the table |
| Uart.BaudRegister | FAT16_bootloader/uart.c:63-91 | no contract of its own: the 8 MHz table, else the formula; BaudTable states that the two agree |
| Uart.BaudTable | FAT16_bootloader/uart.c:63-91 | the baud table used at 8 MHz gives the same register as the formula F_CPU/(16*rate)-1 for every clock and rate |
| Uart.Port.constructor | FAT16_bootloader/uart.c:52-54 | the USART starts with registers zero, interrupts off, nothing sent, and two distinct fresh queues |
| Uart.Port.Init | FAT16_bootloader/uart.c:57-123 | Uart_init sets the baud register, enables the receiver, transmitter and receive interrupt, empties both queues, enables interrupts when asked, and returns 1 |
| Uart.Port.Reset | FAT16_bootloader/uart.c:114-115 | both queues are emptied and the registers and the line are untouched |
| Uart.Port.GetRecvData | FAT16_bootloader/uart.c:134-150 | returns and removes the oldest received byte, which is then logged as delivered; on an empty queue nothing changes |
| Uart.Port.PutTransData | FAT16_bootloader/uart.c:152-168 | returns 1 exactly when the transmit queue had room, and then queues the byte and enables the data-register-empty interrupt; on 0 nothing changes |
| Uart.Port.OfferChar | FAT16_bootloader/uart.c:174-182 | the calls for one character queue its expansion, a line feed as line feed then carriage return, while there is room |
| Uart.Port.Offer | FAT16_bootloader/uart.c:178-182 | one put_TransBuffer_data queues the next offered byte while there is room and drops it otherwise |
| Uart.Port.PutTransString | FAT16_bootloader/uart.c:170-186 | the expanded string and its NUL are queued up to the free room and the rest is dropped; it returns 1 |
| Uart.Port.RxIsr | FAT16_bootloader/uart.c:271-288 | a received byte is queued when the receive queue has room and dropped when it is full |
| Uart.Port.UdreIsr | FAT16_bootloader/uart.c:291-305 | the oldest queued byte goes out on the line; with nothing queued the interrupt disables itself; sent-then-queued always equals everything accepted |
| Uart.QueuedStep | FAT16_bootloader/uart.c:170-186 | offering one more byte queues it exactly while there is room |
| Uart.ExpandAt | FAT16_bootloader/uart.c:172-183 | character i of the string sits at the expansion's offset of its prefix, doubled when it is a line feed |
| Uart.ExpandStep | FAT16_bootloader/uart.c:172-183 | expanding one more character appends its one- or two-byte expansion |
| Uart.ExpandAppend | FAT16_bootloader/uart.c:172-183 | expansion distributes over concatenation |
| FixedPoint.IntToFx | fixedpt_16_16.h:18 | INT_TO_FXPONT leaves no fraction bits; IntegralOfInt and IntegralOfLongInt state which integers convert back |
| FixedPoint.IntegralPart | fixedpt_16_16.h:20 | no contract of its own: the arithmetic shift right by FP_SHIFT; PartRanges and Decompose state that it is the signed high half |
| FixedPoint.FractionPart | fixedpt_16_16.h:21 | FRACTION_FX_PART lies in [0, FP_SCALE) |
| FixedPoint.FractDisplay | fixedpt_16_16.h:22 | FRACT_DISPlAY is at most 99 |
| FixedPoint.MulFx | fixedpt_16_16.h:23 | no contract of its own: the wrapping 32-bit product shifted right by FP_SHIFT; MulOne states that 1.0 is its identity |
| FixedPoint.IntegralOfInt | fixedpt_16_16.h:18-20 | INTEGRL_FX_PART of INT_TO_FXPONT(n) gives back every 16-bit integer n, negative ones included |
| FixedPoint.IntegralOfLongInt | fixedpt_16_16.h:18-20 | every integer outside the 16-bit range loses its high bits in INT_TO_FXPONT and does not come back |
| FixedPoint.FractionOfInt | fixedpt_16_16.h:18-21 | a converted integer has a zero FRACTION_FX_PART |
| FixedPoint.PartRanges | fixedpt_16_16.h:20-21 | the integral part is a 16-bit signed value and the fraction lies in [0, FP_SCALE) |
| FixedPoint.Decompose | fixedpt_16_16.h:13-14 | every FIXPONT equals its integral part shifted back by FP_SHIFT plus its fraction |
| FixedPoint.MulOne | fixedpt_16_16.h:18-23 | INT_TO_FXPONT(1) is a two-sided identity of MUL_FXPONT wherever the 32-bit product does not overflow |
| FixedPoint.DisplayRange | fixedpt_16_16.h:21-22 | FRACT_DISPlAY is at most 99 and is the fraction in hundredths rounded down |
| SdProtocol.Scan | sd.c:40-49 | a bounded poll reports a hit only within its n reads |
| SdProtocol.ScanSpec | sd.c:40-49 | a poll stops at the first byte that stops it and finds nothing exactly when none of its n bytes does |
| SdProtocol.ScanExtend | FAT16_bootloader/diskio.c:142-148 | a poll that stopped within m reads stops at the same read with any larger budget (the 256 and 4096 token budgets agree on a hit) |
| SdProtocol.Frame | sd.c:27-34 | the command frame is six bytes, the command first and the CRC 0x95 last |
| SdProtocol.FrameArgument | sd.c:29-32 | the four middle bytes carry the 32-bit argument most significant byte first, so the card reads back exactly that argument |
| SdProtocol.ByteAddress | sd.c:196 | the sector's byte address sector << 9 is 512-aligned and keeps only the sector's low 23 bits |
| SdProtocol.Command | sd.c:22-52 | SD_Send_Command always clocks at least the frame and two more bytes |
| SdProtocol.CommandAnswer | sd.c:38-51 | SD_Send_Command returns 0xFF exactly when all 256 polls read 0xFF, and otherwise the first non-0xFF byte |
| SdProtocol.CommandWire | sd.c:27-51 | on the wire: the frame, then only 0xFF filler under the one chip-select level; a timeout clocks exactly 256 polls |
| SdProtocol.Try | sd.c:80-92 | a power-up attempt clocks at least the 256 filler bytes and a command |
| SdProtocol.Retry | sd.c:75-104 | no contract of its own: the answers and traffic of a bounded retry loop; RetryStep, RetryDone and RetryBounded state what it collects |
| SdProtocol.Negotiate | sd.c:73-177 | no contract of its own: the whole mount handshake; NegotiateUnfold and StepsOutcome state its outcome |
| SdProtocol.Initialise | sd.c:120-177 | no contract of its own: the handshake from SEND_OP_COND on; InitialiseUnfold states its outcome |
| SdProtocol.Classifier | sd.c:151-177 | no contract of its own: the SD/MMC test as a step of the handshake; ClassifierSucceeds states that it never fails |
| SdProtocol.RetryStep | sd.c:75-104 | one more loop iteration moves its attempt's answer and traffic from what is left to what is done |
| SdProtocol.RetryDone | sd.c:105 | a retry loop that has its wanted answer or no budget left has collected everything |
| SdProtocol.RetryBounded | sd.c:75 | a retry loop makes at most 256 attempts, stops at the first wanted answer, and gives up only after all attempts were made |
| SdProtocol.Classify | sd.c:151-177 | the SD/MMC test never fails: it reports either an MMC card or an SD card |
| SdProtocol.NegotiateUnfold | sd.c:73-112 | the mount handshake is the GO_IDLE_STATE loop, a failure on a missed 0x01, then the rest |
| SdProtocol.InitialiseUnfold | sd.c:120-143 | from SEND_OP_COND on, the handshake is that loop, a failure on a missed 0x00, then the classification |
| SdProtocol.ThenStep | sd.c:105-112 | a handshake step fails exactly when its loop missed the wanted answer; otherwise the outcome is the next step's, after its traffic |
| SdProtocol.InitStepsOutcome | sd.c:120-143 | after the idle step, the handshake ends in the init timeout exactly when no SEND_OP_COND answer was 0x00, after all 256 attempts |
| SdProtocol.StepsOutcome | sd.c:73-143 | a card is reported only after it answered 0x01 to a power-up attempt and 0x00 to an init attempt; each timeout follows all 256 attempts of its step |
| SdProtocol.StepsOpen | sd.c:75-92 | the handshake opens with its first power-up attempt |
| SdProtocol.RetryOpens | sd.c:75-92 | a retry loop that makes any attempt puts that attempt on the wire first |
| SdProtocol.PowerUpOpens | sd.c:80-92 | each power-up attempt clocks 256 filler bytes with chip-select released, then GO_IDLE_STATE with chip-select asserted |
| SdProtocol.ClassifierSucceeds | sd.c:151-177 | the classification step never reports a failure |
| SdProtocol.HandshakeOpens | sd.c:73-92 | every mount begins with the power-up filler, chip-select released, then a GO_IDLE_STATE frame with chip-select asserted |
| SdProtocol.GotIff | sd.c:105 | after a loop that stops at the first wanted answer, the held response is the wanted one exactly when the card gave it at all |
| SdProtocol.SilentRetry | sd.c:75-104 | a card that never drives MISO answers every power-up attempt with 0xFF |
| SdProtocol.EmptySlot | sd.c:105-112 | mounting an empty slot fails at the first step |
| SdTransfer.ReadSectorRun | sd.c:191-236 | SD_Read_Sector stores a block exactly when it returns 0, and the block is 512 bytes |
| SdTransfer.ReadBlock | sd.c:201-236 | after an accepted CMD17, a block is stored exactly when the result is 0, and it is 512 bytes |
| SdTransfer.ReadSectorOutcome | sd.c:196-235 | a refused CMD17 returns the card's response; with no token in 256 polls it returns 0xFF; on success the block is the 512 bytes right after the token, and the traffic ends three bytes later |
| SdTransfer.WriteSectorRun | sd.c:239-291 | SD_Write_Sector returns 0, 0xFF or the card's refusal of CMD24 |
| SdTransfer.WriteBlock | sd.c:250-291 | after an accepted CMD24 the write ends in 0 or 0xFF |
| SdTransfer.Acknowledge | sd.c:262-291 | the data-response and busy waits end in 0 or 0xFF |
| SdTransfer.Busy | sd.c:279-290 | the busy wait ends in 0 or 0xFF |
| SdTransfer.AcknowledgeOutcome | sd.c:262-291 | success needs an accepted data response (0x05, with no earlier rejection) and the end of busy within 256 polls; an earlier 0x0B or 0x0D is a failure |
| SdTransfer.WriteSectorSends | sd.c:244-259 | once CMD24 is accepted, 0xFF, the token 0xFE and the 512 bytes follow the command in order; a refused CMD24 sends nothing more |
| SdTransfer.ReadpRun | FAT16_bootloader/diskio.c:125-183 | disk_readp stores exactly count bytes |
| SdTransfer.ReadpSlice | FAT16_bootloader/diskio.c:155-169 | a partial read clocks the same bytes as a whole one and stores exactly its slice |
| SdTransfer.ReadpOutcome | FAT16_bootloader/diskio.c:135-182 | disk_readp succeeds exactly when CMD17 is answered 0x00 and the token comes within 4096 polls; either way it clocks the 512 data bytes, the CRC and one more 0xFF after its last poll |
| SdTransfer.ReadersAgree | FAT16_bootloader/diskio.c:125-183 | where SD_Read_Sector succeeds, disk_readp of the whole sector succeeds with the same block and the same traffic |
| SdCard.MountCode | sd.c:105-177 | SD_mount returns 0xFF exactly for a failed handshake, SD_CARD exactly for an SD card and MMC_CARD exactly for an MMC card |
| SdCard.Transmit | sd.c:27-34 | each byte goes out in order under the current chip-select level, and the clock is untouched |
| SdCard.Discard | sd.c:225-226 | n filler reads add exactly n 0xFF bytes to the wire |
| SdCard.Receive | sd.c:219-222 | n reads store the card's next n bytes into the buffer slice and leave the rest of the buffer as it was |
| SdCard.Await | sd.c:40-49 | a bounded poll clocks filler up to and including the first stopping byte, or all n, and returns the last byte read |
| SdCard.SendCommand | sd.c:22-52 | SD_Send_Command returns and sends exactly what the SdProtocol.Command run describes |
| SdCard.MakeAttempt | sd.c:80-92 | one handshake attempt sends and returns exactly its run and leaves chip-select asserted |
| SdCard.RetryLoop | sd.c:73-104 | the handshake loop returns the final response of the bounded retry run and sends exactly its traffic |
| SdCard.Identify | sd.c:151-177 | the SD/MMC test reports SD or MMC, sends exactly the classification traffic and releases chip-select |
| SdCard.Connect | sd.c:73-177 | the whole handshake ends as SdProtocol.Steps describes; chip-select stays asserted exactly on failure |
| SdCard.Initialize | sd.c:120-177 | the handshake from SEND_OP_COND on ends as described; chip-select stays asserted exactly on failure |
| SdCard.Mount | sd.c:54-178 | SD_mount returns the mount code of the negotiated session, sends exactly its traffic, and leaves the SPI at a sixteenth of the clock |
| SdCard.Unmount | sd.c:180-189 | SD_unmount releases chip-select, sends nothing and returns 0 |
| SdCard.ReadSector | sd.c:191-236 | SD_Read_Sector returns and sends what ReadSectorRun describes; on success the buffer holds the block, on failure it is untouched and chip-select stays asserted |
| SdCard.ReceiveBlock | sd.c:201-236 | after an accepted CMD17 the block lands in the buffer exactly on success, and the rest of the buffer is untouched |
| SdCard.AwaitAcknowledge | sd.c:262-291 | the data-response and busy waits return and send what Acknowledge describes; chip-select is released only on success |
| SdCard.AwaitNotBusy | sd.c:279-290 | the busy wait returns and sends what Busy describes |
| SdCard.WriteSector | sd.c:239-291 | SD_Write_Sector returns and sends what WriteSectorRun describes; chip-select is released only on success |
| SdCard.SendBlock | sd.c:250-291 | after an accepted CMD24, the token, the block and the verdict are as WriteBlock describes |
| DiskIo.InitStatus | FAT16_bootloader/diskio.c:78-117 | disk_initialize returns 0 exactly for a card of either kind and STA_NOINIT exactly when the card never became ready |
| DiskIo.StatusAgreesWithMount | FAT16_bootloader/diskio.c:54-118 | disk_initialize succeeds on exactly the handshakes SD_mount succeeds on, and then SD_mount reports SD or MMC |
| DiskIo.DiskInitialize | FAT16_bootloader/diskio.c:54-118 | disk_initialize returns the status of the negotiated session and sends exactly its traffic; it leaves the SPI at half the clock on success and a thirty-second on failure |
| DiskIo.DiskReadp | FAT16_bootloader/diskio.c:125-183 | disk_readp returns RES_OK exactly when ReadpRun succeeds, stores exactly its count bytes, sends exactly its traffic and releases chip-select |
| DiskIo.AwaitToken | FAT16_bootloader/diskio.c:142-154 | the token poll reports whether 0xFE came within 4096 reads and clocks exactly the polled bytes |
| DiskIo.ReceivePart | FAT16_bootloader/diskio.c:155-180 | after the poll, the count bytes at the offset are stored, and 515 bytes are clocked whatever the offset |
| Flash.PageByte | SD_Bootloader.c:114-120 | byte 2k of a page is the low half of word k and byte 2k+1 its high half |
| Flash.Words | SD_Bootloader.c:114-120 | the fill loop loads half as many words as the page has bytes, word k built little-endian from bytes 2k and 2k+1 |
| Flash.WordsRoundTrip | SD_Bootloader.c:114-121 | every byte of a page comes back out of the words loaded for it |
| Flash.PageBytes | SD_Bootloader.c:121 | the bytes boot_page_write stores are the buffer's words, low byte first |
| Flash.PageBytesWords | SD_Bootloader.c:114-121 | writing the words of a page gives back exactly its bytes |
| Flash.Blank | SD_Bootloader.c:112 | an erased page is all 0xFF |
| Flash.Base | FAT16_bootloader/main.c:146 | the 256-byte hardware page that holds an address starts at the multiple of 256 at or below it; an aligned address starts its own page |
| Flash.BlankWords | FAT16_bootloader/main.c:155 | the page buffer after a page write, as after a reset: 128 words of 0xFFFF |
| Flash.Memory.Interrupts | SD_Bootloader.c:109-110 | interrupts are enabled exactly when SREG's I bit is set |
| Flash.Memory.Cli | SD_Bootloader.c:110 | cli clears the I bit, keeps the other flags and runs no flash operation |
| Flash.Memory.SetSreg | SD_Bootloader.c:127 | restoring SREG sets it to the saved value and changes nothing else |
| Flash.Memory.ErasePage | FAT16_bootloader/main.c:146 | boot_page_erase(addr) sets the whole 256-byte hardware page holding addr to 0xFF, whatever half addr points into, changes no other byte, and logs the erase with the current interrupt state |
| Flash.Memory.Fill | FAT16_bootloader/main.c:153 | boot_page_fill(addr, w) puts w into buffer slot (addr mod 256) / 2 and changes no other slot |
| Flash.Memory.Write | FAT16_bootloader/main.c:155 | boot_page_write(addr) stores the whole 256-byte buffer into the hardware page holding addr, leaves the rest of flash unchanged and blanks the buffer |
| Flash.Programming | SD_Bootloader.c:112-121 | programming a page is an erase first, the write last, and one fill per word between them |
| Flash.FillOps | SD_Bootloader.c:114-120 | the fills go in address order: word k at page + 2k |
| Flash.Within | FAT16_bootloader/main.c:148-154 | a load of SPM_PAGESIZE bytes (128 or 256) at a multiple of SPM_PAGESIZE stays inside one hardware page from an even offset, and a 256-byte load starts its page |
| Flash.SlotOf | FAT16_bootloader/main.c:153 | byte i of such a load goes to buffer slot (page mod 256) / 2 + i / 2 |
| Flash.Loaded | FAT16_bootloader/main.c:148-154 | the buffer after the fill loop keeps its length; its contents (word k in slot (page mod 256) / 2 + k, other slots as they were) are stated through LoadWords, FillStep, LoadedBlank and LoadedWhole |
| Flash.Image | FAT16_bootloader/main.c:146-155 | a hardware page written from a blank buffer loaded at page is 256 bytes long; LoadedBlank and Programmed state what it holds |
| Flash.Programmed | FAT16_bootloader/main.c:135-162 | boot_program_page from a blank buffer leaves the loaded bytes at page, 0xFF in every other byte of that hardware page (so a 128-byte load blanks the other half), and every byte outside the hardware page unchanged |
| Flash.ProgrammedWhole | SD_Bootloader.c:101-128 | a 256-byte load from the start of a page stores exactly those bytes there and nothing else |
| Flash.ProgramPage | FAT16_bootloader/main.c:135-162 | boot_program_page (the same procedure in SD_Bootloader.c:101-128) rewrites the whole hardware page from the buffer loaded with the bytes; from a blank buffer flash is Programmed, with SPM_PAGESIZE 256 exactly the bytes at page; erase, fills and write run with interrupts off, SREG is restored and the buffer is blank again |
| Flash.LoadedBlank | FAT16_bootloader/main.c:146-155 | loading a blank buffer with the bytes and writing it gives the page Image: the bytes at their offset, 0xFF elsewhere |
| Flash.LoadedWhole | SD_Bootloader.c:114-120 | a 256-byte load at a page start replaces every buffer slot, so the old buffer contents do not matter |
| Flash.ProgrammedEvents | SD_Bootloader.c:110-121 | erase, fills and write, each with interrupts off, make exactly the silent programming sequence |
| Flash.SilentProgramming | SD_Bootloader.c:110-121 | the silent programming sequence is a silent erase, silent fills and a silent write |
| Flash.Overwrite | SD_Bootloader.c:121 | an overwrite keeps the length, puts the block at its place and keeps every other byte |
| Flash.OverwriteFrom | SD_Bootloader.c:121 | a sequence that holds the block at its place and agrees elsewhere is the overwrite (extensional characterisation) |
| Flash.OverwriteTwice | FAT16_bootloader/main.c:126 | a second write of the same place replaces the first, so programming one page twice keeps only the last write |
| Flash.OverwriteAdjacent | SD_Bootloader.c:91-92 | writes of two adjacent blocks are one write of both |
| Flash.OverwriteExtends | SD_Bootloader.c:86-93 | writing the next block after a written prefix extends the prefix |
| Flash.LoadWords | FAT16_bootloader/main.c:148-154 | the fill loop leaves the buffer Loaded with the bytes' little-endian words from slot (page mod 256) / 2 on, other slots as they were, and logs one silent fill per word in order |
| Flash.LoadWord | FAT16_bootloader/main.c:150-153 | one fill-loop pass loads word i/2 and keeps the loop invariant on buffer and log |
| Flash.FillSlot | FAT16_bootloader/main.c:151-153 | pass i reads word i/2 of the bytes and puts it into the slot after the words loaded so far, inside the buffer |
| Flash.WordAt | SD_Bootloader.c:117-118 | the word read at buf + i is word i/2 of the page's words |
| Flash.FillStep | FAT16_bootloader/main.c:153 | loading word k into its slot extends the Loaded buffer by one word |
| Flash.FillOpsStep | SD_Bootloader.c:119 | one more fill extends the log of silent fills by exactly that fill |
| Flash.Silent | SD_Bootloader.c:110 | operations run with interrupts disabled are logged with interrupts off |
| SdBootloader.RemountsBounded | SD_Bootloader.c:73 | after a call that returned 0xFF, at most 128 retries follow; every retry but the last returned 0xFF, and the last returned 0xFF only when it used up the retries |
| SdBootloader.MountRetries | SD_Bootloader.c:73 | no contract of its own: SD_mount called once, then again while it returns 0xFF; MountRetriesBounded states its bounds |
| SdBootloader.Remounts | SD_Bootloader.c:73 | no contract of its own: the calls after the first; RemountsBounded and RemountCodes state their bounds and codes |
| SdBootloader.BootRun | SD_Bootloader.c:60-96 | no contract of its own: main as a whole; BootRunUnmounted and BootRunMounted state its two outcomes |
| SdBootloader.MountRetriesBounded | SD_Bootloader.c:43-73 | SD_mount runs at least once and at most 129 times; every call but the last returned 0xFF, and the last returned 0xFF only when no retry was left |
| SdBootloader.MountStep | SD_Bootloader.c:73 | one retry moves one SD_mount call and its traffic from what is left to what is done |
| SdBootloader.MountDone | SD_Bootloader.c:73 | the retry loop has done everything once a call succeeded or no retry is left |
| SdBootloader.MountCard | SD_Bootloader.c:73 | the retry loop's status is the last SD_mount code, and its traffic is exactly that of all the calls |
| SdBootloader.Remount | SD_Bootloader.c:73 | one retry after a 0xFF: its SD_mount code becomes the loop status, its traffic is added, and one retry fewer is left |
| SdBootloader.MountOnce | SD_Bootloader.c:73 | one SD_mount call returns its mount code and sends its traffic |
| SdBootloader.MounterMounts | sd.c:54-178 | the SD_mount model over a card's script describes SD_mount on that card |
| SdBootloader.ReaderSound | sd.c:191-236 | SD_Read_Sector over any card delivers 512 bytes of data exactly when it returns 0 |
| SdBootloader.Load | SD_Bootloader.c:86-93 | the sector loop programs at most 512 bytes for each remaining sector |
| SdBootloader.LoadOutcome | SD_Bootloader.c:86-93 | the loop programs 512 bytes per accepted sector, at most ten sectors, and gives up exactly when it programs fewer |
| SdBootloader.LoadCodes | SD_Bootloader.c:88-92 | every programmed sector was read with a code other than 0xFF (with the strict loop, with code 0) |
| SdBootloader.LoadStopsOnRejected | SD_Bootloader.c:89 | when the loop gives up, its last read returned a code it rejects |
| SdBootloader.LoadProgramsData | SD_Bootloader.c:88-92 | a sector read with code 0 is programmed with exactly the data read |
| SdBootloader.LoadProgramsStale | SD_Bootloader.c:88-92 | as written, a read refused with a code other than 0 and 0xFF does not stop the loop, and the buffer's old contents are programmed in place of the sector |
| SdBootloader.StrictLoadStops | SD_Bootloader.c:89 | the corrected loop stops on that same read and programs nothing |
| SdBootloader.LoadStep | SD_Bootloader.c:86-93 | an accepted read moves one sector, its bytes and its traffic from what is left to what is done |
| SdBootloader.LoadFail | SD_Bootloader.c:89 | a rejected read ends the loop: it failed, nothing more is programmed, and only the read's traffic is added |
| SdBootloader.LoadDone | SD_Bootloader.c:86 | after the tenth sector the loop has done everything and has not failed |
| SdBootloader.SectorPages | SD_Bootloader.c:91-92 | both halves of every sector start a 256-byte page |
| SdBootloader.ProgramSector | SD_Bootloader.c:91-92 | the two boot_program_page calls store the 512 buffer bytes at 512 * i and change nothing else in flash |
| SdBootloader.ProgressStart | SD_Bootloader.c:86 | before the first read nothing is loaded, sent or programmed |
| SdBootloader.ProgressAccept | SD_Bootloader.c:88-92 | an accepted read plus its programmed sector advance the loop invariant to the next sector |
| SdBootloader.ProgressReject | SD_Bootloader.c:89 | a rejected read ends the loop with all its traffic sent and exactly its programmed bytes in flash |
| SdBootloader.ProgressDone | SD_Bootloader.c:86-93 | after the last sector, flash holds exactly the loaded bytes over its old contents |
| SdBootloader.LoadApplication | SD_Bootloader.c:86-93 | the sector loop reports whether it completed, sends exactly Load's traffic, and leaves flash holding the programmed bytes from address 0, unchanged beyond them |
| SdBootloader.LoadSectors | SD_Bootloader.c:86-93 | the loop from its start reports success exactly when all of the run completed, sends all its traffic, and leaves flash holding its bytes over the old contents |
| SdBootloader.LoadSector | SD_Bootloader.c:88-92 | one loop pass either ends the loop with the final flash and traffic, or keeps the loop invariant for the next sector |
| SdBootloader.ReadApplicationSector | SD_Bootloader.c:88 | the read returns its code and refills the buffer only when it returns 0 |
| SdBootloader.RemountCodes | SD_Bootloader.c:73 | every retry returns a code SD_mount can return: 0xFF, SD_CARD or MMC_CARD |
| SdBootloader.BootJumpsLoaded | SD_Bootloader.c:73-96 | main jumps only to address 0, only after a mount that found an SD or MMC card, and only after programming all ten sectors |
| SdBootloader.BootGivesUp | SD_Bootloader.c:73-77 | a card that never mounts makes SD_mount run 129 times, and main returns with nothing programmed |
| SdBootloader.BootReturnsOnRead | SD_Bootloader.c:86-93 | when main returns after a mount, fewer than ten sectors were programmed and the last read returned a rejected code |
| SdBootloader.StrictBootReadsAll | SD_Bootloader.c:86-96 | with the corrected loop, a jump means all ten sectors were read with code 0, so every programmed byte came from the card |
| SdBootloader.Boot | SD_Bootloader.c:59-97 | main ends as BootRun says, sends exactly its traffic, leaves flash holding the programmed bytes over its old contents, and restores SREG |
| SdBootloader.LoadAndJump | SD_Bootloader.c:77-96 | after a mount that ended on a card type, main jumps to address 0 exactly when the sector loop completes, with BootRun's traffic and flash |
| SdBootloader.BootRunUnmounted | SD_Bootloader.c:77 | when the mount retries end on 0xFF, main returns with nothing programmed and only the mount traffic sent |
| SdBootloader.BootRunMounted | SD_Bootloader.c:86-96 | after a successful mount, the sector loop runs from where the retries left the bus, and main jumps exactly when the loop completes |
| Fat16Bootloader.Padded | FAT16_bootloader/main.c:124-125 | the buffer after the memset and a read of a chunk holds the chunk, then 0xFF up to SPM_PAGESIZE bytes |
| Fat16Bootloader.FileReader.Rest | FAT16_bootloader/main.c:125 | the chunks still to read are each at most SPM_PAGESIZE bytes, and there are as many as remain after the ones already read |
| Fat16Bootloader.FileReader.constructor | FAT16_bootloader/main.c:118 | an opened file is read from its first chunk, SPM_PAGESIZE bytes a read |
| Fat16Bootloader.FileReader.Read | FAT16_bootloader/main.c:125 | pf_read copies the next chunk to the front of the buffer, reports its length in rb, leaves the rest of the buffer untouched, and moves on one chunk (none past the end) |
| Fat16Bootloader.CopyRun | FAT16_bootloader/main.c:122-127 | the loop programs only full SPM_PAGESIZE-byte chunks, no more chunks than it read, never reads past the file, and leaves a full buffer |
| Fat16Bootloader.CopyRunReads | FAT16_bootloader/main.c:122-127 | the loop reads the chunks in order and goes on only after a full chunk; programmed chunk j is chunk j padded with 0xFF |
| Fat16Bootloader.Addr | FAT16_bootloader/main.c:126 | the k-th chunk is programmed at the same address as written, or SPM_PAGESIZE * k further on when the address advances per chunk |
| Fat16Bootloader.Program | FAT16_bootloader/main.c:126 | programming the chunks in turn, each call rewriting the hardware page that holds its address, keeps the flash size |
| Fat16Bootloader.Concat | FAT16_bootloader/main.c:122-127 | the chunks laid end to end span SPM_PAGESIZE bytes each |
| Fat16Bootloader.ProgramFixed | FAT16_bootloader/main.c:126 | programming every chunk at the same address fits flash and leaves flash as programming the last chunk alone would: the earlier chunks are lost |
| Fat16Bootloader.ProgramAdvancing | FAT16_bootloader/main.c:126 | with SPM_PAGESIZE 256, programming the chunks at consecutive page addresses fits flash and lays them out one after the other, nothing else changed |
| Fat16Bootloader.FitsAdvancing | FAT16_bootloader/main.c:126 | whole 256-byte pages from a page start up to the flash size all have their hardware pages inside flash |
| Fat16Bootloader.Split | FAT16_bootloader/main.c:125 | a healthy read of a file delivers chunks of at most SPM_PAGESIZE bytes |
| Fat16Bootloader.SplitImage | FAT16_bootloader/main.c:122-127 | the chunks programmed from a healthy read, laid end to end, are the file padded with fewer than SPM_PAGESIZE bytes of 0xFF |
| Fat16Bootloader.ConcatFront | FAT16_bootloader/main.c:122-127 | laying out a first chunk and then the rest puts that chunk first |
| Fat16Bootloader.ZerosOnes | FAT16_bootloader/main.c:122-127 | a 256-byte file: 128 zeros, then 128 ones |
| Fat16Bootloader.ZerosOnesChunks | FAT16_bootloader/main.c:122-127 | with SPM_PAGESIZE 128 the loop reads that file's two halves and an empty chunk, and programs the two halves |
| Fat16Bootloader.FixedPageLosesFile | FAT16_bootloader/main.c:126 | as written, for that file the first 128 bytes at the target page are not the file's first half (the second chunk overwrote them) |
| Fat16Bootloader.HalfPagesLoseFile | FAT16_bootloader/main.c:41 | even with the page advanced per chunk, SPM_PAGESIZE 128 loses that file: the second chunk's call erases the hardware page and leaves 0xFF where the file's first byte should be |
| Fat16Bootloader.AdvancingStoresFile | FAT16_bootloader/main.c:122-127 | with the page advanced per chunk and SPM_PAGESIZE 256, flash holds the file itself from APPLICATION_FLASH_ADD, padded with 0xFF to its last page, and nothing after it changed |
| Fat16Bootloader.CopyStep | FAT16_bootloader/main.c:124-126 | one pass reads the next chunk and records it as programmed unless it was empty |
| Fat16Bootloader.ProgramAppend | FAT16_bootloader/main.c:126 | programming one more chunk rewrites exactly the hardware page of its address and adds exactly its boot_program_page operations |
| Fat16Bootloader.FilePage | FAT16_bootloader/main.c:126 | the target page is APPLICATION_FLASH_ADD + i * 128, a multiple of 128, which is the second half of a hardware page when i is odd |
| Fat16Bootloader.HalfPage | FAT16_bootloader/main.c:126 | half page k starts at offset 0 or 128 of its hardware page as k is even or odd |
| Fat16Bootloader.PageAt | FAT16_bootloader/main.c:126 | chunk k from an aligned start is aligned and ends where chunk k + 1 starts |
| Fat16Bootloader.CopyChunk | FAT16_bootloader/main.c:124-126 | the buffer is blanked and then holds the next chunk, padded; a non-empty chunk is programmed at the address, flash becoming Programmed (the chunk there, the rest of its hardware page 0xFF), and an empty one programs nothing |
| Fat16Bootloader.CopyStart | FAT16_bootloader/main.c:111-122 | with rb = SPM_PAGESIZE before the first read, nothing is programmed and the whole run is ahead |
| Fat16Bootloader.CopyFinish | FAT16_bootloader/main.c:122 | once a read came back short, flash and the operation log hold exactly the run's chunks programmed in turn, and the buffer its last chunk |
| Fat16Bootloader.CopyPass | FAT16_bootloader/main.c:122-127 | one loop pass keeps the loop invariant and consumes a chunk, or ends the loop |
| Fat16Bootloader.CopyAdvance | FAT16_bootloader/main.c:122-127 | after one more chunk, the loop invariant holds with the chunk read and, unless empty, programmed at the next address |
| Fat16Bootloader.CopyFile | FAT16_bootloader/main.c:118-129 | as written, with SPM_PAGESIZE 128: nothing changes unless pf_open succeeded; otherwise every chunk of the run is programmed in turn at APPLICATION_FLASH_ADD + i * 128, each call rewriting that hardware page, and the reader consumed the run's chunks |
| Fat16Bootloader.CopyFileAdvancing | FAT16_bootloader/main.c:118-129 | corrected: for either SPM_PAGESIZE, the run's chunks are programmed in turn one after the other from APPLICATION_FLASH_ADD, with the same reads and the same nothing-on-failure |
| Fat16Bootloader.CopyRoom | FAT16_bootloader/main.c:126 | the next chunk's address is aligned, and while the run goes on, a non-empty next chunk has its hardware page inside flash |
| Pixels.Frame.Pitch | XGS_AVR_GFX_LIB_V010.c:227 | a row is g_screen_width >> 2 bytes, its whole bytes of four pixels; on a valid screen (width a multiple of 4) that is exactly width / 4 and never empty |
| Pixels.RaggedRowsAlias | XGS_AVR_GFX_LIB_V010.c:227 | with a width that is not a multiple of 4, pixel (4 * pitch, y), still inside its row, gets the byte and slot of pixel (0, y + 1) |
| Pixels.Frame.Size | XGS_AVR_GFX_LIB_V010.c:177 | the video buffer, (g_screen_width >> 2) * g_screen_height bytes, holds at least one row |
| Pixels.Col | XGS_AVR_GFX_LIB_V010.c:227-228 | x & 3 is the slot of column x within its byte, one of four |
| Pixels.GetSet | XGS_AVR_GFX_LIB_V010.c:227-228 | the mask-and-or of GFX_Plot stores c in its slot, so GFX_Get_Pixel's shift-and-mask reads c back |
| Pixels.GetSetOther | XGS_AVR_GFX_LIB_V010.c:227-228 | the mask-and-or of GFX_Plot leaves the other three pixels of the byte as they were |
| Pixels.PatternSlot | XGS_AVR_GFX_LIB_V010.c:177 | every pixel of the byte c \| c << 2 \| c << 4 \| c << 6 reads back as c |
| Pixels.Offset | XGS_AVR_GFX_LIB_V010.c:227 | the byte (x >> 2) + y * (width >> 2) of an on-screen pixel lies inside the video buffer |
| Pixels.OffsetShared | XGS_AVR_GFX_LIB_V010.c:227 | two pixels share a byte only when they are in the same row and the same group of four columns |
| Pixels.PixelAt | XGS_AVR_GFX_LIB_V010.c:264 | GFX_Get_Pixel returns a 2-bit colour |
| Pixels.WithPixel | XGS_AVR_GFX_LIB_V010.c:227-228 | GFX_Plot keeps the buffer's size |
| Pixels.PlotPixel | XGS_AVR_GFX_LIB_V010.c:218-229 | after GFX_Plot(x, y, c), pixel (x, y) reads c and every other pixel reads what it did before |
| Pixels.PlotAll | XGS_AVR_GFX_LIB_V010.c:218-229 | plotting a list of points keeps the buffer's size |
| Pixels.PlotAllPixels | XGS_AVR_GFX_LIB_V010.c:218-229 | after plotting a list of points, a pixel reads c exactly when it is in the list, and otherwise what it did before |
| Pixels.PlotAllStep | XGS_AVR_GFX_LIB_V010.c:218-229 | plotting one more point of the list is one more GFX_Plot |
| Pixels.PlotAllAppend | XGS_AVR_GFX_LIB_V010.c:218-229 | plotting the points of a and then those of b is plotting a + b |
| Pixels.Filled | XGS_AVR_GFX_LIB_V010.c:177 | memset keeps the buffer's size |
| Pixels.InRows | XGS_AVR_GFX_LIB_V010.c:211 | a byte row * pitch + col lies in the memset range of rows lo .. hi exactly when lo <= row <= hi |
| Pixels.RowBytes | XGS_AVR_GFX_LIB_V010.c:211 | the memset of rows lo .. hi stays inside the video buffer |
| Pixels.FillRows | XGS_AVR_GFX_LIB_V010.c:211 | filling whole rows keeps the buffer's size |
| Pixels.RowsPixels | XGS_AVR_GFX_LIB_V010.c:177-211 | the memset of rows lo .. hi with the pattern of c makes exactly the pixels of those rows read c and leaves every other pixel |
| Pixels.Visible | XGS_AVR_GFX_LIB_V010.c:244 | the points GFX_Plot_Clipped lets through are points of the list inside the clipping rectangle |
| Pixels.VisibleKeeps | XGS_AVR_GFX_LIB_V010.c:244 | every point of the list inside the clipping rectangle is let through |
| Pixels.NoneVisible | XGS_AVR_GFX_LIB_V010.c:244 | with no point inside the rectangle, nothing is plotted |
| Pixels.VisibleStep | XGS_AVR_GFX_LIB_V010.c:244-245 | one more clipped plot adds the point exactly when it is inside the rectangle |
| Pixels.VisibleAppend | XGS_AVR_GFX_LIB_V010.c:244 | clipping a + b is clipping a and then clipping b |
| Pixels.VisibleOnScreen | XGS_AVR_GFX_LIB_V010.c:244-249 | with the rectangle on screen, every point let through has its byte in the buffer |
| Pixels.PlotVisible | XGS_AVR_GFX_LIB_V010.c:234-250 | clipped plotting keeps the buffer's size |
| Pixels.PlotVisibleStep | XGS_AVR_GFX_LIB_V010.c:234-250 | one more GFX_Plot_Clipped sets its pixel when it is inside the rectangle and otherwise changes nothing |
| Pixels.PlotVisibleAppend | XGS_AVR_GFX_LIB_V010.c:234-250 | clipped plotting of a and then b is clipped plotting of a + b |
| Spans.FillSlot | XGS_AVR_GFX_LIB_V010.c:759-865 | filling slots s0 .. s1 of a byte sets exactly those pixels to c |
| Spans.HSpan | XGS_AVR_GFX_LIB_V010.c:759-865 | a horizontal span keeps the buffer's size |
| Spans.ColOrder | XGS_AVR_GFX_LIB_V010.c:762-763 | within one byte, slot order is column order |
| Spans.HSpanPixels | XGS_AVR_GFX_LIB_V010.c:759-865 | the span sets exactly pixels lo .. hi of row y to c and leaves every other pixel |
| Spans.Code | XGS_AVR_GFX_LIB_V010.c:766 | the colour indexes one of the four columns of the colors table |
| Spans.RunLength | XGS_AVR_GFX_LIB_V010.c:759 | a short span has dx = 1 .. 3 pixels |
| Spans.ShortWordLow | XGS_AVR_GFX_LIB_V010.c:766-773 | the low byte of the 16-bit read-modify-write fills the run's slots in the first byte |
| Spans.RunOf1 | XGS_AVR_GFX_LIB_V010.c:766-773 | the low byte of a one-pixel run fills its slot |
| Spans.RunOf2 | XGS_AVR_GFX_LIB_V010.c:766-773 | the low byte of a two-pixel run fills its slots |
| Spans.RunOf3 | XGS_AVR_GFX_LIB_V010.c:766-773 | the low byte of a three-pixel run fills its slots |
| Spans.ShortWordReach | XGS_AVR_GFX_LIB_V010.c:767-773 | the high byte of the mask is zero exactly when the run stays within one byte |
| Spans.ShortWordHigh | XGS_AVR_GFX_LIB_V010.c:766-773 | a run that crosses into the next byte fills that byte's leading slots through the high byte of the write |
| Spans.Tables | XGS_AVR_GFX_LIB_V010.c:726-730 | row dx - 1 of the colors table holds dx pixels of each colour, and bitmasks holds dx pixels' worth of mask bits |
| Spans.ShortSpanLow | XGS_AVR_GFX_LIB_V010.c:762-773 | with pixels16 and mask16 built from the tables, the first byte of a short span gets its slots from x1 & 3 filled |
| Spans.ShortSpanReach | XGS_AVR_GFX_LIB_V010.c:762-773 | the high byte of mask16 is zero exactly when the short span stays within one byte |
| Spans.ShortSpanHigh | XGS_AVR_GFX_LIB_V010.c:762-773 | a short span that crosses a byte boundary fills the next byte's slots up to its last pixel |
| Spans.Bridge | XGS_AVR_GFX_LIB_V010.c:762-763 | the slot arithmetic of a short span agrees with its pixel columns: it crosses exactly when its ends are in different bytes, and then only into the next one |
| Spans.LeadFrom1 | XGS_AVR_GFX_LIB_V010.c:783-820 | the lead byte of a long span starting at slot 1 has slots 1 .. 3 filled |
| Spans.LeadFrom2 | XGS_AVR_GFX_LIB_V010.c:783-820 | the lead byte starting at slot 2 has slots 2 .. 3 filled |
| Spans.LeadFrom3 | XGS_AVR_GFX_LIB_V010.c:783-820 | the lead byte starting at slot 3 has slot 3 filled |
| Spans.TrailTo0 | XGS_AVR_GFX_LIB_V010.c:836-865 | the trail byte ending at slot 0 has slot 0 filled |
| Spans.TrailTo1 | XGS_AVR_GFX_LIB_V010.c:836-865 | the trail byte ending at slot 1 has slots 0 .. 1 filled |
| Spans.TrailTo2 | XGS_AVR_GFX_LIB_V010.c:836-865 | the trail byte ending at slot 2 has slots 0 .. 2 filled |
| Spans.WholeByte | XGS_AVR_GFX_LIB_V010.c:829-830 | the memset pattern is a byte with all four slots filled, whatever it held |
| Spans.SpanOneByte | XGS_AVR_GFX_LIB_V010.c:759-777 | a short span within one byte changes only that byte, to its slots filled |
| Spans.SpanTwoBytes | XGS_AVR_GFX_LIB_V010.c:759-777 | a short span across two bytes changes only those two bytes, to their slots filled |
| Spans.LongSpanSeq | XGS_AVR_GFX_LIB_V010.c:779-865 | the lead byte, the memset of the whole bytes and the trail byte together are the span |
| Spans.LongSpanAt | XGS_AVR_GFX_LIB_V010.c:779-865 | the long span's writes agree with the span byte by byte |
| Spans.LongQuarters | XGS_AVR_GFX_LIB_V010.c:823 | the end byte xe = (x2 + 1) >> 2 is one past x2's byte when x2 is a byte's last pixel, and x2's byte otherwise |
| Spans.WordStoreSecond | XGS_AVR_GFX_LIB_V010.c:773 | as written, the 16-bit store of a short span also writes the byte after the one holding its first pixel |
| Spans.WordStoreOverrun | XGS_AVR_GFX_LIB_V010.c:759-773 | as written, a one-pixel span at the last pixel of the last row needs nothing from the next byte, yet its store writes the byte one past the end of the video buffer |
| Raster.Trace | XGS_AVR_GFX_LIB_V010.c:643-669 | the Bresenham loop plots one pixel per major step, the k-th at major step k |
| Raster.TraceNext | XGS_AVR_GFX_LIB_V010.c:643-669 | one pass plots the current pixel, steps the minor axis and lowers the error by 2 du when the error is not negative, and always adds 2 dv and steps the major axis |
| Raster.ErrNear | XGS_AVR_GFX_LIB_V010.c:640-664 | the decision variable lies in [2 dv - 2 du, 2 dv) exactly when the minor count is within half a pixel of the ideal line |
| Raster.TraceNear | XGS_AVR_GFX_LIB_V010.c:643-669 | every pixel the loop plots is within half a pixel of the ideal line |
| Raster.TraceSteps | XGS_AVR_GFX_LIB_V010.c:654-659 | from one pixel to the next the minor count moves by zero or one |
| Raster.EndNear | XGS_AVR_GFX_LIB_V010.c:643 | within half a pixel of the line at the last major step, the minor count is the last minor step |
| Raster.NearInBox | XGS_AVR_GFX_LIB_V010.c:643-669 | within half a pixel of the line, the minor count stays between 0 and dv |
| Raster.PlanOf | XGS_AVR_GFX_LIB_V010.c:603-637 | the steps are |dx| and |dy|, the major axis x exactly when |dx| > |dy|, with 0 <= minor <= major |
| Raster.PlanReaches | XGS_AVR_GFX_LIB_V010.c:603-637 | taking all the plan's steps from the first end point reaches the second |
| Raster.LineTrace | XGS_AVR_GFX_LIB_V010.c:643 | the loop runs for index = 0 .. du, one pixel each |
| Raster.LinePath | XGS_AVR_GFX_LIB_V010.c:643-706 | the line's pixels are the trace steps placed from the first end point |
| Raster.LinePoints | XGS_AVR_GFX_LIB_V010.c:581-706 | GFX_Draw_Line plots max(\|dx\|, \|dy\|) + 1 pixels, each the placed trace step |
| Raster.LineNear | XGS_AVR_GFX_LIB_V010.c:637-706 | pixel k is major step k, its minor step between 0 and the line's minor steps and within half a pixel of the ideal line |
| Raster.LineEnds | XGS_AVR_GFX_LIB_V010.c:581-706 | the line has max(\|dx\|, \|dy\|) + 1 pixels, starts at (x0, y0) and ends at (x1, y1) |
| Raster.LineSteps | XGS_AVR_GFX_LIB_V010.c:654-702 | between consecutive pixels the major coordinate moves one step towards the end point and the minor one by zero or one step towards it |
| Raster.AlongBetween | XGS_AVR_GFX_LIB_V010.c:607-630 | stepping k of d steps towards an end point stays between the start and that end |
| Raster.LineInBox | XGS_AVR_GFX_LIB_V010.c:581-706 | every pixel of the line lies in the box spanned by its end points |
| Raster.WalkShift | XGS_AVR_GFX_LIB_V010.c:654-664 | k + 1 passes of the loop body are one pass followed by k |
| Raster.TraceWalk | XGS_AVR_GFX_LIB_V010.c:643-669 | step k of the trace is major step k with the minor count of k passes |
| Raster.LinePathAt | XGS_AVR_GFX_LIB_V010.c:643-706 | pixel k of the line is the place of major step k and of the minor count after k passes |
| Raster.PlaceNext | XGS_AVR_GFX_LIB_V010.c:659-702 | the next pixel is one x_inc or y_inc step along the major axis, plus one along the minor axis when the minor count steps |
| Raster.LoopStep | XGS_AVR_GFX_LIB_V010.c:643-706 | one loop pass from the state after index passes plots pixel index of the line and updates error and minor count as the loop body does |
| Raster.LineOnScreen | XGS_AVR_GFX_LIB_V010.c:581-706 | a line between two on-screen pixels plots only on-screen pixels |
| Raster.PlotLine | XGS_AVR_GFX_LIB_V010.c:581-706 | plotting the line keeps the buffer's size |
| Raster.Quad | XGS_AVR_GFX_LIB_V010.c:964-967 | each step plots four mirror images of a point |
| Raster.QuadOnScreen | XGS_AVR_GFX_LIB_V010.c:964-967 | the four mirror images of a point within reach of the centre are on screen |
| Raster.Octants | XGS_AVR_GFX_LIB_V010.c:964-971 | each step of the loop plots eight pixels |
| Raster.Start | XGS_AVR_GFX_LIB_V010.c:936-940 | the loop starts at x = 0, y = r |
| Raster.Step | XGS_AVR_GFX_LIB_V010.c:952-961 | each pass moves x up by one and y down by zero or one |
| Raster.StartTracks | XGS_AVR_GFX_LIB_V010.c:936-940 | f = 1 - r, ddF_x = 1 and ddF_y = -2 r are the midpoint test and its differences at the start |
| Raster.StepTracks | XGS_AVR_GFX_LIB_V010.c:952-961 | the loop body keeps f, ddF_x and ddF_y tracking the midpoint test |
| Raster.MidpointChoice | XGS_AVR_GFX_LIB_V010.c:952-957 | y steps down exactly when the midpoint between the two candidate pixels is not inside the circle |
| Raster.CirclePoints | XGS_AVR_GFX_LIB_V010.c:931-975 | GFX_Draw_Circle plots the four axis ends first |
| Raster.Ends | XGS_AVR_GFX_LIB_V010.c:943-946 | the four axis ends are four plots |
| Raster.Arc | XGS_AVR_GFX_LIB_V010.c:949-973 | no contract of its own: the octants of every pass of the loop; ArcNext, ArcInSquare and ArcMirrored state its steps, bounds and symmetry |
| Raster.ArcNext | XGS_AVR_GFX_LIB_V010.c:949-973 | one loop pass plots the octants of the stepped state, and the rest of the circle follows from it |
| Raster.ArcInSquare | XGS_AVR_GFX_LIB_V010.c:949-973 | every loop pixel lies in the square of half-side r around the centre |
| Raster.CircleInSquare | XGS_AVR_GFX_LIB_V010.c:931-975 | every pixel of a circle of radius r lies in the square of half-side \|r\| around its centre |
| Raster.CircleRejectInvisible | XGS_AVR_GFX_LIB_V010.c:991-992 | for r >= 0, a circle the trivial rejection skips has no pixel inside any on-screen clipping rectangle |
| Raster.MirroredJoin | XGS_AVR_GFX_LIB_V010.c:949-973 | mirror images found in part of the pixels are found in all of them |
| Raster.OctantsMirrored | XGS_AVR_GFX_LIB_V010.c:964-971 | the eight pixels of a step are mirror images of each other in the centre's axes and diagonal |
| Raster.ArcMirrored | XGS_AVR_GFX_LIB_V010.c:949-973 | every loop pixel has its mirror images among the loop's pixels |
| Raster.CircleMirrored | XGS_AVR_GFX_LIB_V010.c:931-975 | the circle is symmetric: every pixel plotted in one octant is plotted in all eight |
| LineClip.Outcode | XGS_AVR_GFX_LIB_V010.c:337-359 | the code is CLIP_CODE_C exactly when the point is inside the rectangle, with N, S, W, E set exactly when the point is beyond that edge |
| LineClip.QuotRem | XGS_AVR_GFX_LIB_V010.c:377 | C's truncating division leaves a remainder smaller than the divisor |
| LineClip.Half | XGS_AVR_GFX_LIB_V010.c:377 | adding 0.5 and truncating to int keeps n, or moves a negative n up by one |
| LineClip.ClipLine | XGS_AVR_GFX_LIB_V010.c:306-575 | with every coordinate a 16-bit int and the crossings computed in 16-bit wrapping arithmetic, a return of 1 gives end points inside the rectangle, and a line wholly inside it comes back unchanged |
| LineClip.AtY | XGS_AVR_GFX_LIB_V010.c:377-382 | no contract of its own: the crossing of a row, each difference, product, quotient and the stored result wrapped to 16 bits; AtYNear states how close it is when nothing wraps |
| LineClip.AtX | XGS_AVR_GFX_LIB_V010.c:388-394 | no contract of its own: the crossing of a column in the same 16-bit arithmetic; AtXNear states how close it is when nothing wraps |
| LineClip.Corner | XGS_AVR_GFX_LIB_V010.c:398-413 | no contract of its own: a corner region tries the row crossing and falls back on the column crossing when that misses the rectangle; EndClipBorder states the result |
| LineClip.EndClip | XGS_AVR_GFX_LIB_V010.c:370-558 | no contract of its own: the two switch statements, one per end point, with the half added as in each case; EndClipBorder and ClipEnds state where the point lands |
| LineClip.SharedEdge | XGS_AVR_GFX_LIB_V010.c:362 | the codes share a bit exactly when both ends lie beyond the same edge |
| LineClip.ClipRejectInvisible | XGS_AVR_GFX_LIB_V010.c:362-363 | the trivial rejection returns 0 only for lines GFX_Draw_Line would draw with no pixel in the rectangle |
| LineClip.Deviation | XGS_AVR_GFX_LIB_V010.c:377-551 | the truncated quotient plus the lost half is less than two divisors from the exact value |
| LineClip.AtYNear | XGS_AVR_GFX_LIB_V010.c:377-382 | when no intermediate value leaves the 16-bit int, the computed crossing of a horizontal edge lies less than two pixels across from the line |
| LineClip.AtXNear | XGS_AVR_GFX_LIB_V010.c:388-394 | when no intermediate value leaves the 16-bit int, the computed crossing of a vertical edge lies less than two pixels across from the line |
| LineClip.EndClipBorder | XGS_AVR_GFX_LIB_V010.c:370-558 | an end point outside the rectangle is moved onto the rectangle's border, and close to the line when no crossing wraps |
| LineClip.ClipEnds | XGS_AVR_GFX_LIB_V010.c:366-575 | on a return of 1 with no crossing wrapping, an end point inside is kept and one outside is moved onto the border, less than two pixels across from the line |
| LineClip.ClipIdempotent | XGS_AVR_GFX_LIB_V010.c:306-575 | clipping an already clipped line returns it unchanged |
| LineClip.ClipWrapRejects | XGS_AVR_GFX_LIB_V010.c:377 | the line from (0, -300) to (159, 191) on a 160 by 192 rectangle is rejected although one end is inside: 300 * 159 wraps in 16 bits and the north crossing lands at x = -35 instead of 97 |
| Bytes.Wrap16 | XGS_AVR_GFX_LIB_V010.c:377 | an int expression yields a 16-bit int congruent to its value modulo 2^16, the value itself when it fits |
| Bytes.Clamp | XGS_AVR_GFX_LIB_V010.c:190-201 | a row number is clipped into 0 .. height - 1: kept when on screen, 0 below, height - 1 above; GFX_TMap_Setcursor (lines 2397-2403) clamps the cursor the same way |
| Gfx.Column | XGS_AVR_GFX_LIB_V010.c:906-925 | the pixels of column x from row lo to row hi, top to bottom, one per row |
| Gfx.InColumn | XGS_AVR_GFX_LIB_V010.c:906-925 | a pixel is in the column exactly when it has its x and a row in range |
| Gfx.VSpan | XGS_AVR_GFX_LIB_V010.c:886-903 | GFX_Draw_VLine rejects exactly a column outside the rectangle or rows wholly above or below it; otherwise it draws the sorted rows clipped to the rectangle |
| Gfx.HClip | XGS_AVR_GFX_LIB_V010.c:733-750 | GFX_Draw_HLine rejects exactly a row outside the rectangle or columns wholly left or right of it; otherwise it draws the sorted columns clipped to the rectangle |
| Gfx.Display.constructor | XGS_AVR_GFX_LIB_V010.c:67-77 | the screen size is recorded and the clipping globals start at zero |
| Gfx.Display.SetClippingRect | XGS_AVR_GFX_LIB_V010.c:272-281 | the clipping rectangle becomes the four arguments |
| Gfx.Display.Plot | XGS_AVR_GFX_LIB_V010.c:218-229 | the buffer becomes the old buffer with pixel (x, y) set to c, and so (Pixels.PlotPixel) no other pixel changes |
| Gfx.Display.PlotNext | XGS_AVR_GFX_LIB_V010.c:218-229 | a GFX_Plot of the next point of a path extends the plotted prefix of the path by one point |
| Gfx.Display.PlotClipped | XGS_AVR_GFX_LIB_V010.c:234-250 | a pixel inside the clipping rectangle is plotted, any other leaves the buffer unchanged |
| Gfx.Display.GetPixel | XGS_AVR_GFX_LIB_V010.c:255-265 | returns the 2-bit value of pixel (x, y) of the buffer |
| Gfx.Display.Memset | XGS_AVR_GFX_LIB_V010.c:177 | count bytes from start become v and no other byte changes |
| Gfx.Display.FillScreen | XGS_AVR_GFX_LIB_V010.c:173-178 | every row is filled with the pattern of c, so (Pixels.RowsPixels) every pixel reads c |
| Gfx.Display.FillRegion | XGS_AVR_GFX_LIB_V010.c:183-212 | the rows between the two clamped row numbers, in either order, are filled with the pattern of c and no other byte changes |
| Gfx.Display.VLine | XGS_AVR_GFX_LIB_V010.c:871-927 | a rejected column leaves the buffer unchanged; otherwise exactly the pixels of the clipped column are set to c |
| Gfx.Display.PlotColumn | XGS_AVR_GFX_LIB_V010.c:906-925 | the loop, stepping the byte by a row pitch with one mask, plots the column's pixels in order |
| Gfx.Display.HLine | XGS_AVR_GFX_LIB_V010.c:712-867 | a rejected row leaves the buffer unchanged; otherwise exactly the pixels of the clipped span are set to c (Spans.HSpanPixels) |
| Gfx.Display.ShortSpan | XGS_AVR_GFX_LIB_V010.c:759-777 | corrected: a span of fewer than four pixels sets exactly its pixels, writing the next byte only when the span reaches into it |
| Gfx.Display.LongSpan | XGS_AVR_GFX_LIB_V010.c:779-865 | a span of four pixels or more, drawn as lead byte, memset and trail byte, sets exactly its pixels |
| Gfx.Display.LeadBytes | XGS_AVR_GFX_LIB_V010.c:783-820 | a span starting inside a byte fills that byte from its first slot and changes nothing else |
| Gfx.Display.TrailBytes | XGS_AVR_GFX_LIB_V010.c:836-865 | a span ending inside a byte fills that byte up to its last slot and changes nothing else |
| Gfx.Display.DrawClipLine | XGS_AVR_GFX_LIB_V010.c:285-302 | for 16-bit coordinates, the line is drawn between the clipped end points when the clipper, wrap-around included, returns 1, and nothing is drawn otherwise |
| Gfx.Display.DrawLine | XGS_AVR_GFX_LIB_V010.c:581-706 | the buffer is the old one with exactly the pixels of the Bresenham line plotted in order (Raster.LineEnds, LineSteps, LineNear say what they are) |
| Gfx.Display.LineAlongX | XGS_AVR_GFX_LIB_V010.c:637-671 | the x-major loop plots the line's path, one pixel per column |
| Gfx.Display.LineAlongY | XGS_AVR_GFX_LIB_V010.c:672-706 | the y-major loop plots the line's path, one pixel per row |
| Gfx.Display.PlotFour | XGS_AVR_GFX_LIB_V010.c:943-946 | four plots in a row plot the four points in order |
| Gfx.Display.PlotOctants | XGS_AVR_GFX_LIB_V010.c:964-971 | the eight plots of a step stay on screen and plot the eight octant pixels in order |
| Gfx.Display.Circle | XGS_AVR_GFX_LIB_V010.c:931-975 | the buffer is the old one with exactly the circle's pixels plotted, all on screen (Raster.CircleMirrored, CircleInSquare say what they are) |
| Gfx.Display.CircleLoop | XGS_AVR_GFX_LIB_V010.c:949-973 | the while loop plots the octants of every step, in order |
| Gfx.Display.PlotFourClipped | XGS_AVR_GFX_LIB_V010.c:995-998 | the four clipped plots set the axis ends inside the rectangle and no other pixel |
| Gfx.Display.PlotOctantsClipped | XGS_AVR_GFX_LIB_V010.c:1016-1023 | the eight clipped plots set the octant pixels inside the rectangle and no other pixel |
| Gfx.Display.CircleClipped | XGS_AVR_GFX_LIB_V010.c:979-1026 | a rejected circle leaves the buffer unchanged; otherwise exactly the circle's pixels inside the rectangle are plotted |
| Gfx.Display.CircleLoopClipped | XGS_AVR_GFX_LIB_V010.c:1001-1024 | the clipped loop plots the visible octant pixels of every step, in order |
| GfxMath.FastDistance | XGS_AVR_GFX_LIB_V010.c:1680-1694 | the estimate lies between the larger coordinate and the sum of both, in 16-bit range |
| GfxMath.FastDistanceSymmetric | XGS_AVR_GFX_LIB_V010.c:1685-1692 | the estimate ignores the order and the signs of the coordinates |
| GfxMath.FastDistanceAxis | XGS_AVR_GFX_LIB_V010.c:1692 | on an axis the estimate is the exact distance |
| GfxMath.FastDistanceDiagonal | XGS_AVR_GFX_LIB_V010.c:1682 | on the diagonal (64, 64) the estimate is 84, more than 3.5% below the exact distance: the comment's error bound does not hold |
| GfxMath.FixMul | XGS_AVR_GFX_LIB_V010.c:2219-2229 | no contract of its own: both factors shifted right by 8, then multiplied; FixMulWhole and FixMulOne state its meaning |
| GfxMath.FixMulWhole | XGS_AVR_GFX_LIB_V010.c:2219-2229 | FIXP16_MUL of two whole numbers is their exact product |
| GfxMath.FixMulOne | XGS_AVR_GFX_LIB_V010.c:2227 | FIXP16_MUL by 1.0 keeps a value but for its low 8 fraction bits |
| GfxMath.FixDiv | XGS_AVR_GFX_LIB_V010.c:2203-2215 | no contract of its own: the dividend shifted left by 6 over the divisor shifted right by 10, truncated; FixDivWhole states its meaning |
| GfxMath.FixDivWhole | XGS_AVR_GFX_LIB_V010.c:2203-2215 | FIXP16_DIV of whole numbers that divide evenly is their exact quotient |
| GfxMath.Polygon2D.constructor | XGS_AVR_GFX_LIB_V010.h:176-185 | a polygon with its centre at (x0, y0) |
| GfxMath.TranslatePolygon | XGS_AVR_GFX_LIB_V010.c:1793-1808 | 0 for a null polygon; otherwise 1, the centre moved by (dx, dy) and every other field unchanged |
| TileMap.Tile | XGS_AVR_GFX_LIB_V010.c:2323-2334 | every character maps to one of the 39 tiles, and to the blank tile exactly when the set has no tile for it |
| TileMap.TileOfGlyph | XGS_AVR_GFX_LIB_V010.h:138-142 | every tile of the set is the tile of the character it shows |
| TileMap.GlyphOfTile | XGS_AVR_GFX_LIB_V010.c:2323-2334 | a printable character is recovered upper-cased from its tile and anything else comes back as a space: the mapping ignores case and is otherwise one-to-one |
| TileMap.Cell | XGS_AVR_GFX_LIB_V010.c:2337 | the cell x + y * width of a cursor on the map lies inside the map |
| TileMap.Scroll | XGS_AVR_GFX_LIB_V010.c:2309-2312 | a scroll keeps the map's size |
| TileMap.ScrollRows | XGS_AVR_GFX_LIB_V010.c:2309-2312 | after a scroll every cell holds the cell one row below it, and the last row is blank |
| TileMap.LineFeed | XGS_AVR_GFX_LIB_V010.c:2299-2317 | a line feed keeps the cursor on the map, at the start of a row |
| TileMap.PutChar | XGS_AVR_GFX_LIB_V010.c:2293-2362 | printing a character keeps the cursor on the map |
| TileMap.PutString | XGS_AVR_GFX_LIB_V010.c:2367-2373 | printing a string keeps the cursor on the map |
| TileMap.PutStringOnRow | XGS_AVR_GFX_LIB_V010.c:2293-2373 | a string with no line breaks that fits on the rest of the row appears there tile by tile, the cursor stops just after it and no other cell changes |
| TileMap.Text | XGS_AVR_GFX_LIB_V010.c:2370 | the characters printed are the prefix of the string before its first NUL |
| TileMap.Console.constructor | XGS_AVR_GFX_LIB_V010.c:62-81 | a console over a map of width by height tiles, cursor at (0, 0) |
| TileMap.Console.ScrollUp | XGS_AVR_GFX_LIB_V010.c:2349-2352 | the map becomes its scroll |
| TileMap.Console.NewLine | XGS_AVR_GFX_LIB_V010.c:2340-2353 | the console's state becomes the line feed of the old state |
| TileMap.Console.PrintChar | XGS_AVR_GFX_LIB_V010.c:2293-2362 | the console's state becomes PutChar of the old state |
| TileMap.Console.PrintString | XGS_AVR_GFX_LIB_V010.c:2367-2373 | the console's state becomes the characters before the NUL printed in order |
| TileMap.Console.Clear | XGS_AVR_GFX_LIB_V010.c:2377-2388 | every cell gets the tile and the cursor goes home |
| TileMap.Console.SetCursor | XGS_AVR_GFX_LIB_V010.c:2392-2409 | the cursor becomes (x, y) clamped into the map |

## Left out

- Register-level SPI (`SPCR`, `SPSR`, `SPDR` and the busy-wait on `SPIF`) is not modelled. `Spi.Bus` exchanges a byte with an abstract card and records the chip-select level and the clock divisor.
- The card is a fixed script of the bytes it shifts out. It does not react to what it receives, so a contract says what the driver does for every possible script, not what a real card would answer.
- The global debug counter `cmd_iterations` in `sd.c` is left out. Only disabled debug code reads it.
- `SD_WRITE_SECTOR_LIMIT` (sd.h:20) is defined but never used by `SD_Write_Sector`, so the model has no such limit either.
- Interrupt concurrency (an ISR preempting the main program, `ATOMIC_BLOCK`) is left out. The receive and data-register-empty ISR bodies are methods run one at a time.
- The UART hardware paths are left out because they only move bytes through the USART registers: `Uart_Transimit_chr`, `Uart_Transimit_String`, `Uart_Receive_chr`, `Uart_Receive_String`, `Uart_Newline`, `Uart_Print_Int` (which uses `sprintf`) and `Uart_Disable`.
- `uart.h:59` declares `Uart_init` with one parameter, while `uart.c:57` defines it with two. The model follows the definition.
- Uart.Port.GetRecvData: on an empty queue the C function returns an uninitialised local. The model returns the caller-supplied value `stale` in its place and states nothing more about it.
- Time is not modelled: `_delay_ms`, `eeprom_busy_wait`, `boot_spm_busy_wait` and `boot_rww_enable` waits are left out. Flash operations complete at once.
- The unused `malloc` in `SD_Bootloader.c` and the debug messages sent over the UART are left out.
- The jump to the application through a call to address 0 is a terminal `Exit` value of the bootloader's `main`, not a transfer of control.
- Petit FatFs is not part of this model, since its source is not available: `pf_mount`, `pf_opendir`, `pf_readdir`, `pf_open` and `pf_read`. The directory scan, the file list shown over the UART and `choose_file_num` (which reads a button) are left out with it.
- `pf_open`'s result is a parameter of `Fat16Bootloader.CopyFile`.
- `pf_read` is a list of chunks of at most `SPM_PAGESIZE` bytes, consumed in order.
- Fat16Bootloader.CopyFile and Fat16Bootloader.CopyFileAdvancing take the page buffer to be blank (every word 0xFFFF) when the copy loop starts, as the hardware leaves it after a reset and after every page write. Words left in the buffer by earlier code would otherwise land in the half of the page a 128-byte call does not load.
- Flash.ProgramPage requires the page address to be a multiple of `SPM_PAGESIZE`, as every call in both bootloaders passes. The C function takes any address; an unaligned one would make the fills wrap around inside the hardware page.
- The file number `i` from the directory loop is a parameter.
- `test_SD_MMC.c` is a button-driven check of the hardware and is not modelled.
- `DIV_FXPONT` shifts by `FP_SCALE` (65536) instead of `FP_SHIFT`. That is undefined in C, so the macro is not modelled.
- `FLT_TO_FIXPONT` is left out because it works on floats.
- The 16.16 macros of `fixedpt_16_16.h` are modelled on 32-bit values, as their header states. On the AVR, `int` is 16 bits, so an `int` argument is first converted to that width; the model takes the 32-bit value directly.
- GfxMath.FastDistance, GfxMath.FixMulWhole and GfxMath.FixDivWhole: C's 16-bit `int` and 32-bit `long` overflow is not modelled. Preconditions keep every intermediate value in range.
- Floating-point graphics and maths are left out:
  - the float triangle rasterisers and the fixed-point triangle functions built on a float split;
  - `Fast_Distance_3D`, the sine and cosine tables, `Fast_Sin` and `Fast_Cos`;
  - polygon rotation and scaling, the `Mat_*` functions, `Find_Bounding_Box_Poly2D` and `GFX_Draw_Polygon2D`;
  - the float vertex list of `POLYGON2D`.
- `GFX_Draw_Top_TriFP` and `GFX_Draw_Bottom_TriFP` have their `memset` calls commented out, so they change nothing. They are left out.
- `GFX_Init` is left out: it programs the video timers and enables interrupts. `Gfx.Display.constructor` only records the screen size.
- Every drawing method requires a colour below 4. The C code would mix a larger value into the neighbouring pixels.
- The clipped primitives require a clipping rectangle that is not empty and lies on the screen, as the library's callers set it. Outside that, the C code writes outside the video buffer.
- Gfx.Display.DrawLine and Gfx.Display.Circle require every pixel they plot to be on the screen. `GFX_Draw_Line` and `GFX_Draw_Circle` do not clip, and any other input plots a wrong pixel or writes outside the video buffer: an x just off either side of a row lands on the neighbouring row, and a y off the screen leaves the buffer.
- Pixels.Frame.Valid: the model takes the screen width to be a multiple of 4, as it is in every video mode of the library. With any other width, `x >> 2` and `g_screen_width >> 2` make the last pixels of a row share bytes with the start of the next row (Pixels.RaggedRowsAlias), so the drawing contracts are stated only for valid screens.
- Gfx.Display.CircleClipped: the model computes `x0 + r`, `x0 - r`, `y0 + r`, `y0 - r`, `-2 * r` and the loop's `f`, `ddF_x` and `ddF_y` exactly. In C they are 16-bit ints, so a centre or radius near the int range can wrap and either reject a visible circle or plot other pixels. With the centre on the screen and a radius below 8000, nothing wraps.
- LineClip.ClipEnds, LineClip.EndClipBorder, LineClip.AtYNear and LineClip.AtXNear hold only when no intermediate value of the crossings leaves the 16-bit int (LineClip.Exact). LineClip.ClipLine itself models the wrap-around, and LineClip.ClipWrapRejects shows a line with an end on the screen that the wrap makes it reject.
- LineClip.ClipLine returns an optional pair of end points in place of the four by-address out-parameters and the 0/1 result.
- Raster.CircleRejectInvisible is proved only for a radius of zero or more. With a negative radius the trivial rejection of `GFX_Draw_Circle_Clipped` compares against `x0 + r` the wrong way round, so it can skip a circle whose four axis ends are visible.
- The tile-map scroll is a `memcpy` between overlapping regions. The model copies upward, byte by byte, which is what a forward `memcpy` does.
- Tile-map characters are bytes, and `toupper` is ASCII only.

## Findings

| source | as written | input that shows it | evidently intended | confidence | as-written member | corrected member |
|---|---|---|---|---|---|---|
| SD_Bootloader.c:88-92 | only a read result of 0xFF stops the sector loop; any other non-zero result from `SD_Read_Sector` (the card's CMD17 error response, returned unchanged) falls through to `boot_program_page` | a card that answers CMD17 for one of the ten sectors with a non-zero code other than 0xFF, such as 0x04 | any non-zero read result stops the loop before programming, so a jump means every page came from the card | medium, not executed | SdBootloader.LoadProgramsStale | SdBootloader.StrictBootReadsAll |
| FAT16_bootloader/main.c:126 | every chunk is programmed at `APPLICATION_FLASH_ADD + i*SPM_PAGESIZE`, where `i` is the file count from the directory loop and never changes in the copy loop | a 256-byte file of 128 zero bytes followed by 128 bytes of 0x01: the second chunk overwrites the first at the same page | the page advances by one for each chunk, so flash holds the whole file | high, not executed | Fat16Bootloader.FixedPageLosesFile | Fat16Bootloader.AdvancingStoresFile |
| FAT16_bootloader/main.c:41 | `SPM_PAGESIZE` is redefined to 128, so each `boot_program_page` call loads 128 bytes, but the ATmega644P's `boot_page_erase` and `boot_page_write` (main.c:146, 155) act on its whole 256-byte page; each call erases the page's other half and writes it back from the blank buffer | the same 256-byte file with the page advanced per chunk: the second chunk's call erases the hardware page holding the first chunk, leaving 0xFF at APPLICATION_FLASH_ADD | `SPM_PAGESIZE` stays at the device's 256 (with a 256-byte buffer), so each call programs one whole page | high, not executed | Fat16Bootloader.HalfPagesLoseFile | Fat16Bootloader.AdvancingStoresFile |
| XGS_AVR_GFX_LIB_V010.c:773 | a span of fewer than four pixels is stored with one 16-bit read-modify-write at the byte of its first pixel, so the following byte is always read and written | `GFX_Draw_HLine` of the single last pixel of the last row (x1 = x2 = width - 1, y = height - 1): the store reads and writes the byte just past the video buffer | the next byte is touched only when the span reaches into it | high, not executed | Spans.WordStoreOverrun | Gfx.Display.ShortSpan |
