/** The low-level disk interface the FAT16 bootloader gives Petit FatFs
    (FAT16_bootloader/diskio.c): disk_initialize and disk_readp over the same
    SPI bus. Its private SD_Send_Command (diskio.c:13-43) is the same
    procedure as the driver's, so SdCard.SendCommand stands for both. */
module DiskIo {
  import opened Bytes
  import opened Spi
  import opened SdProtocol
  import opened SdTransfer
  import opened SdCard

  /** DSTATUS bit for a drive that is not initialised (diskio.h:48). */
  const STA_NOINIT: uint8 := 0x01

  /** DRESULT codes disk_readp can return (diskio.h:15-17). */
  const RES_OK: uint8 := 0
  const RES_ERROR: uint8 := 1

  /** What disk_initialize returns for each way the handshake can end: 0xFF
      when the card never went idle, STA_NOINIT when it never became ready,
      and 0 for either kind of card. */
  function InitStatus(session: Session): (r: uint8)
    ensures r == 0 <==> !Failed(session)
    ensures r == STA_NOINIT <==> session == InitTimeout
  {
    match session
    case IdleTimeout => 0xFF
    case InitTimeout => STA_NOINIT
    case MmcCard => 0
    case SdCard => 0
  }

  /** disk_initialize and SD_mount succeed on exactly the same handshakes;
      only SD_mount tells the two kinds of card apart. */
  lemma StatusAgreesWithMount(session: Session)
    ensures InitStatus(session) == 0 <==> MountCode(session) != 0xFF
    ensures InitStatus(session) == 0 ==> MountCode(session) in {SD_CARD, MMC_CARD}
  {
  }

  /** disk_initialize (diskio.c:54-118): SPI at a thirty-second of the
      clock, the handshake, and on success chip-select released and SPI at
      half the clock. */
  method DiskInitialize(bus: Bus) returns (r: uint8)
    modifies bus
    ensures var h := Negotiate(bus.miso, |old(bus.log)|);
      r == InitStatus(h.session) && bus.log == old(bus.log) + h.sent &&
      bus.selected == Failed(h.session) &&
      bus.rate == (if Failed(h.session) then SPI_FOSC_32 else SPI_FOSC_2) & 3 &&
      bus.doubled == (old(bus.doubled) || Doubles(SPI_FOSC_32) || (!Failed(h.session) && Doubles(SPI_FOSC_2)))
  {
    bus.Init(SPI_FOSC_32);
    var session := Connect(bus, Attempts(bus.miso, IDLE), Attempts(bus.miso, INIT), Classifier(bus.miso));
    if !Failed(session) {
      bus.SetSpeed(SPI_FOSC_2);
    }
    r := InitStatus(session);
  }

  /** disk_readp (diskio.c:125-183): chip-select asserted, CMD17 with the
      byte address, the token poll, then the whole block whatever happened
      before, storing bytes [offset, offset+count) into buf[..count], the CRC
      discarded, one more 0xFF, chip-select released. */
  method DiskReadp(bus: Bus, buf: array<uint8>, sector: uint32, offset: nat, count: nat) returns (res: uint8)
    requires offset + count <= SECTOR_SIZE && count <= buf.Length
    modifies bus, buf
    ensures var run := ReadpRun(bus.miso, |old(bus.log)|, sector, offset, count);
      (res == RES_OK <==> run.ok) && (res == RES_OK || res == RES_ERROR) &&
      bus.log == old(bus.log) + run.sent &&
      buf[..count] == run.data && buf[count..] == old(buf[count..])
    ensures !bus.selected && bus.rate == old(bus.rate) && bus.doubled == old(bus.doubled)
  {
    res := RES_OK;
    bus.Select();
    var response := SendCommand(bus, READ_SECTOR_CMD, sector << 9);
    if response != 0 {
      res := RES_ERROR;
    }
    ghost var q := |bus.log|;
    var found := AwaitToken(bus);
    if !found {
      res := RES_ERROR;
    }
    ghost var polled := |bus.log| - q;
    ReceivePart(bus, buf, offset, count);
    FillSplit(polled, SECTOR_SIZE + TRAILER, true);
  }

  /** The token poll of disk_readp (diskio.c:142-154): up to 4096 reads
      until 0xFE; whether it came. */
  method AwaitToken(bus: Bus) returns (found: bool)
    modifies bus
    ensures var token := Scan(bus.miso, |old(bus.log)|, DISKIO_TOKEN_POLLS, Token);
      found == token.Some? &&
      bus.log == old(bus.log) + Fill(Polled(token, DISKIO_TOKEN_POLLS), bus.selected)
    ensures bus.selected == old(bus.selected) && bus.rate == old(bus.rate) && bus.doubled == old(bus.doubled)
  {
    ghost var q := |bus.log|;
    var response := Await(bus, DISKIO_TOKEN_POLLS, Token);
    ScanSpec(bus.miso, q, DISKIO_TOKEN_POLLS, Token);
    found := response == DATA_TOKEN;
  }

  /** disk_readp after the token poll (diskio.c:155-180): offset bytes
      skipped, count bytes stored, the rest of the block and the CRC
      skipped, one more 0xFF, chip-select released. */
  method ReceivePart(bus: Bus, buf: array<uint8>, offset: nat, count: nat)
    requires offset + count <= SECTOR_SIZE && count <= buf.Length
    modifies bus, buf
    ensures buf[..count] == Window(bus.miso, |old(bus.log)| + offset, count) && buf[count..] == old(buf[count..])
    ensures bus.log == old(bus.log) + Fill(SECTOR_SIZE + TRAILER, old(bus.selected))
    ensures !bus.selected && bus.rate == old(bus.rate) && bus.doubled == old(bus.doubled)
  {
    var finalDiscard := SECTOR_SIZE - (offset + count);
    Discard(bus, offset);
    Receive(bus, buf, 0, count);
    Discard(bus, finalDiscard);
    Discard(bus, 2);
    bus.Write(0xFF);
    bus.Deselect();
    FillSplit(offset, count, old(bus.selected));
    FillSplit(offset + count, finalDiscard, old(bus.selected));
    FillSplit(SECTOR_SIZE, 2, old(bus.selected));
    assert Fill(SECTOR_SIZE + 2, old(bus.selected)) + [Wire(0xFF, old(bus.selected))] == Fill(SECTOR_SIZE + TRAILER, old(bus.selected));
  }
}
