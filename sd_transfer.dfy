/** Single-block transfers as the two drivers perform them: SD_Read_Sector
    and SD_Write_Sector (sd.c:191-291) and disk_readp
    (FAT16_bootloader/diskio.c:125-183). As in SdProtocol, each is a function
    of the card's script `s` and of the position `p` reached in it. */
module SdTransfer {
  import opened Bytes
  import opened Spi
  import opened SdProtocol

  /** Polls for the start-of-data token in SD_Read_Sector (READ_DATATOKEN_ITERATION_RESPONSE, sd.h:19). */
  const SD_TOKEN_POLLS: nat := 256
  /** The same budget in disk_readp (READ_DATATOKEN_ITERATION_RESPONSE, diskio.h:27). */
  const DISKIO_TOKEN_POLLS: nat := 4096
  /** Bytes clocked after the data block: the two CRC bytes, then one more 0xFF. */
  const TRAILER: nat := 3

  /** The outcome of SD_Read_Sector: the code it returns, the block it stored
      in the caller's buffer (none on failure) and what it put on the wire. */
  datatype SectorRead = SectorRead(result: uint8, data: Option<seq<uint8>>, sent: seq<Wire>)

  /** SD_Read_Sector (sd.c:191-236), chip-select asserted throughout: CMD17
      with the byte address; a non-zero response is returned as is; then up to
      256 polls for 0xFE, and 0xFF when it does not come; then the 512 data
      bytes, the two CRC bytes and one more 0xFF, and 0. */
  function ReadSectorRun(s: seq<uint8>, p: nat, sector: uint32): (r: SectorRead)
    ensures r.data.Some? <==> r.result == 0
    ensures r.data.Some? ==> |r.data.value| == SECTOR_SIZE
  {
    var c := Command(s, p, READ_SECTOR_CMD, ByteAddress(sector), true);
    if c.result != 0 then SectorRead(c.result, None, c.sent)
    else
      var b := ReadBlock(s, p + |c.sent|);
      SectorRead(b.result, b.data, c.sent + b.sent)
  }

  /** The part of SD_Read_Sector after an accepted CMD17 (sd.c:201-236),
      from position q: the token poll, then the block and its trailer. */
  function ReadBlock(s: seq<uint8>, q: nat): (r: SectorRead)
    ensures r.data.Some? <==> r.result == 0
    ensures r.data.Some? ==> |r.data.value| == SECTOR_SIZE
  {
    match Scan(s, q, SD_TOKEN_POLLS, Token)
    case None => SectorRead(0xFF, None, Fill(SD_TOKEN_POLLS, true))
    case Some(k) => SectorRead(0, Some(Window(s, q + k + 1, SECTOR_SIZE)), Fill(k + 1 + SECTOR_SIZE + TRAILER, true))
  }

  /** SD_Read_Sector fails exactly when the card refuses CMD17 (its own
      response is returned) or sends no token within 256 polls (0xFF); on
      success the block is the 512 bytes that follow the token, after the
      frame, the polls up to the response, one filler byte and the polls up
      to the token. */
  lemma ReadSectorOutcome(s: seq<uint8>, p: nat, sector: uint32)
    ensures var r := ReadSectorRun(s, p, sector);
      var c := Command(s, p, READ_SECTOR_CMD, ByteAddress(sector), true);
      var q := p + |c.sent|;
      (c.result != 0 ==> r.result == c.result && r.sent == c.sent) &&
      (c.result == 0 ==>
         (r.result == 0xFF <==> forall k :: q <= k < q + SD_TOKEN_POLLS ==> At(s, k) != DATA_TOKEN)) &&
      (r.result == 0 ==>
         exists k :: q <= k < q + SD_TOKEN_POLLS && At(s, k) == DATA_TOKEN &&
           r.data == Some(Window(s, k + 1, SECTOR_SIZE)) &&
           |r.sent| == k + 1 + SECTOR_SIZE + TRAILER - p)
  {
    var c := Command(s, p, READ_SECTOR_CMD, ByteAddress(sector), true);
    var q := p + |c.sent|;
    if c.result == 0 {
      ScanSpec(s, q, SD_TOKEN_POLLS, Token);
      match Scan(s, q, SD_TOKEN_POLLS, Token)
      case None =>
      case Some(k) =>
        assert At(s, q + k) == DATA_TOKEN;
    }
  }

  /** The outcome of SD_Write_Sector: the code it returns and what it put on the wire. */
  datatype SectorWrite = SectorWrite(result: uint8, sent: seq<Wire>)

  /** SD_Write_Sector (sd.c:239-291), chip-select asserted throughout: CMD24
      with the byte address; a non-zero response is returned as is; then
      0xFF, the token 0xFE and the 512 data bytes, then the card's verdict. */
  function WriteSectorRun(s: seq<uint8>, p: nat, sector: uint32, data: seq<uint8>): (r: SectorWrite)
    requires |data| >= SECTOR_SIZE
    ensures r.result == 0 || r.result == 0xFF || r.result == Command(s, p, WRITE_SECTOR_CMD, ByteAddress(sector), true).result
  {
    var c := Command(s, p, WRITE_SECTOR_CMD, ByteAddress(sector), true);
    if c.result != 0 then SectorWrite(c.result, c.sent)
    else
      var b := WriteBlock(s, p + |c.sent|, data);
      SectorWrite(b.result, c.sent + b.sent)
  }

  /** The part of SD_Write_Sector after an accepted CMD24 (sd.c:250-291),
      from position q: 0xFF, the token and the block, then the card's verdict. */
  function WriteBlock(s: seq<uint8>, q: nat, data: seq<uint8>): (r: Run)
    requires |data| >= SECTOR_SIZE
    ensures r.result == 0 || r.result == 0xFF
  {
    var block := Send([0xFF, DATA_TOKEN] + data[..SECTOR_SIZE], true);
    var a := Acknowledge(s, q + |block|);
    Run(a.result, block + a.sent)
  }

  /** The end of SD_Write_Sector (sd.c:262-291) from position q: up to 256
      polls for a data-response nibble, failing with 0xFF on a rejection or
      none; then up to 256 polls for the end of busy, failing with 0xFF if it
      does not end; then one more 0xFF, and 0. */
  function Acknowledge(s: seq<uint8>, q: nat): (r: Run)
    ensures r.result == 0 || r.result == 0xFF
  {
    match Scan(s, q, MAX_ITERATION_RESPONSE, DataResponse)
    case None => Run(0xFF, Fill(MAX_ITERATION_RESPONSE, true))
    case Some(k) =>
      if At(s, q + k) & 0x0F != WRITE_RESPONSE_ACCEPTED then Run(0xFF, Fill(k + 1, true))
      else
        var b := Busy(s, q + k + 1);
        Run(b.result, Fill(k + 1, true) + b.sent)
  }

  /** The busy wait of SD_Write_Sector (sd.c:279-290) from position b: up to
      256 polls for a byte other than 0x00, then one more 0xFF and 0; 0xFF if
      the card stays busy. */
  function Busy(s: seq<uint8>, b: nat): (r: Run)
    ensures r.result == 0 || r.result == 0xFF
  {
    match Scan(s, b, MAX_ITERATION_RESPONSE, NotBusy)
    case None => Run(0xFF, Fill(MAX_ITERATION_RESPONSE, true))
    case Some(j) => Run(0, Fill(j + 2, true))
  }

  /** The card's verdict is success only when it accepted the block
      (data-response nibble 0x05 with no earlier 0x0B or 0x0D) and then left
      its busy state within 256 polls; an early 0x0B or 0x0D is a failure. */
  lemma AcknowledgeOutcome(s: seq<uint8>, q: nat)
    ensures var r := Acknowledge(s, q);
      (r.result == 0 ==>
         exists k :: q <= k < q + MAX_ITERATION_RESPONSE &&
           At(s, k) & 0x0F == WRITE_RESPONSE_ACCEPTED &&
           (forall i :: q <= i < k ==> !Stops(DataResponse, At(s, i))) &&
           exists j :: k < j <= k + MAX_ITERATION_RESPONSE && At(s, j) != 0) &&
      (forall k ::
         (q <= k < q + MAX_ITERATION_RESPONSE &&
          At(s, k) & 0x0F in {WRITE_CRC_REJECTED, WRITE_ERROR_REJECTED} &&
          forall i :: q <= i < k ==> !Stops(DataResponse, At(s, i)))
         ==> r.result == 0xFF)
  {
    ScanSpec(s, q, MAX_ITERATION_RESPONSE, DataResponse);
    match Scan(s, q, MAX_ITERATION_RESPONSE, DataResponse)
    case None =>
    case Some(k) =>
      var b := q + k + 1;
      ScanSpec(s, b, MAX_ITERATION_RESPONSE, NotBusy);
      match Scan(s, b, MAX_ITERATION_RESPONSE, NotBusy)
      case None =>
      case Some(j) =>
        if At(s, q + k) & 0x0F == WRITE_RESPONSE_ACCEPTED {
          assert q + k < b + j <= q + k + MAX_ITERATION_RESPONSE && At(s, b + j) != 0;
        }
  }

  /** What a write puts on the wire once CMD24 was accepted: 0xFF, the token
      and the block, in order, right after the command; a refused CMD24 is
      reported with the card's own response and nothing more is sent. */
  lemma WriteSectorSends(s: seq<uint8>, p: nat, sector: uint32, data: seq<uint8>)
    requires |data| >= SECTOR_SIZE
    ensures var c := Command(s, p, WRITE_SECTOR_CMD, ByteAddress(sector), true);
      var r := WriteSectorRun(s, p, sector, data);
      (c.result != 0 ==> r.result == c.result && r.sent == c.sent) &&
      (c.result == 0 ==> c.sent + Send([0xFF, DATA_TOKEN] + data[..SECTOR_SIZE], true) <= r.sent)
  {
  }

  /** The outcome of disk_readp: RES_OK or RES_ERROR, the bytes it stored in
      the caller's buffer and what it put on the wire. */
  datatype PartialRead = PartialRead(ok: bool, data: seq<uint8>, sent: seq<Wire>)

  /** disk_readp (FAT16_bootloader/diskio.c:125-183), chip-select asserted:
      CMD17 with the byte address, then up to 4096 polls for 0xFE, then
      always the whole 512-byte block, of which bytes [offset, offset+count)
      are stored, then the CRC and one more 0xFF. Neither a refused command
      nor a missing token stops it: they only make the result RES_ERROR, and
      the bytes that follow the last poll are stored all the same. */
  function ReadpRun(s: seq<uint8>, p: nat, sector: uint32, offset: nat, count: nat): (r: PartialRead)
    requires offset + count <= SECTOR_SIZE
    ensures |r.data| == count
  {
    var c := Command(s, p, READ_SECTOR_CMD, ByteAddress(sector), true);
    var q := p + |c.sent|;
    var token := Scan(s, q, DISKIO_TOKEN_POLLS, Token);
    var d := q + Polled(token, DISKIO_TOKEN_POLLS);
    PartialRead(c.result == 0 && token.Some?, Window(s, d + offset, count),
                c.sent + Fill(Polled(token, DISKIO_TOKEN_POLLS) + SECTOR_SIZE + TRAILER, true))
  }

  /** disk_readp clocks the same bytes whatever part of the sector is asked
      for, and a partial read stores exactly the matching slice of a whole one. */
  lemma ReadpSlice(s: seq<uint8>, p: nat, sector: uint32, offset: nat, count: nat)
    requires offset + count <= SECTOR_SIZE
    ensures var part := ReadpRun(s, p, sector, offset, count);
      var whole := ReadpRun(s, p, sector, 0, SECTOR_SIZE);
      part.ok == whole.ok && part.sent == whole.sent &&
      part.data == whole.data[offset..offset + count]
  {
  }

  /** disk_readp succeeds exactly when CMD17 is answered 0x00 and the token
      comes within 4096 polls, and always clocks the 512 data bytes, the CRC
      and one more 0xFF after its last poll. */
  lemma ReadpOutcome(s: seq<uint8>, p: nat, sector: uint32, offset: nat, count: nat)
    requires offset + count <= SECTOR_SIZE
    ensures var r := ReadpRun(s, p, sector, offset, count);
      var c := Command(s, p, READ_SECTOR_CMD, ByteAddress(sector), true);
      var q := p + |c.sent|;
      (r.ok <==> c.result == 0 && exists k :: q <= k < q + DISKIO_TOKEN_POLLS && At(s, k) == DATA_TOKEN) &&
      var n := |r.sent| - |c.sent| - SECTOR_SIZE - TRAILER;
      1 <= n <= DISKIO_TOKEN_POLLS &&
        (forall k :: q <= k < q + n - 1 ==> At(s, k) != DATA_TOKEN) &&
        r.sent == c.sent + Fill(n + SECTOR_SIZE + TRAILER, true) &&
        r.data == Window(s, q + n + offset, count)
  {
    var c := Command(s, p, READ_SECTOR_CMD, ByteAddress(sector), true);
    var q := p + |c.sent|;
    ScanSpec(s, q, DISKIO_TOKEN_POLLS, Token);
    var n := Polled(Scan(s, q, DISKIO_TOKEN_POLLS, Token), DISKIO_TOKEN_POLLS);
    assert 1 <= n <= DISKIO_TOKEN_POLLS;
  }

  /** Where SD_Read_Sector succeeds, disk_readp of the whole sector succeeds
      too, stores the same block and clocks the same bytes: the two drivers
      differ only in the token budget and in carrying on after an error. */
  lemma ReadersAgree(s: seq<uint8>, p: nat, sector: uint32)
    ensures var r := ReadSectorRun(s, p, sector);
      var d := ReadpRun(s, p, sector, 0, SECTOR_SIZE);
      r.result == 0 ==> d.ok && r.data == Some(d.data) && r.sent == d.sent
  {
    var c := Command(s, p, READ_SECTOR_CMD, ByteAddress(sector), true);
    var q := p + |c.sent|;
    if c.result == 0 {
      match Scan(s, q, SD_TOKEN_POLLS, Token)
      case None =>
      case Some(k) =>
        ScanExtend(s, q, SD_TOKEN_POLLS, DISKIO_TOKEN_POLLS, Token);
    }
  }
}
