/** The SD/MMC driver of sd.c, step by step on the SPI bus, each operation
    proved to put on the wire, and to return, exactly what the functions of
    SdProtocol and SdTransfer describe. */
module SdCard {
  import opened Bytes
  import opened Spi
  import opened SdProtocol
  import opened SdTransfer

  // SD_mount's results for a mounted card (sd.h:40-41)
  const SD_CARD: uint8 := 0x01
  const MMC_CARD: uint8 := 0x02

  /** What SD_mount returns for each way the handshake can end. */
  function MountCode(session: Session): (r: uint8)
    ensures r == 0xFF <==> Failed(session)
    ensures r == SD_CARD <==> session == SdCard
    ensures r == MMC_CARD <==> session == MmcCard
  {
    match session
    case IdleTimeout => 0xFF
    case InitTimeout => 0xFF
    case MmcCard => MMC_CARD
    case SdCard => SD_CARD
  }

  /** spi_write of each byte in turn under the current chip-select level
      (the command frame of sd.c:27-34, the data block of sd.c:256-259). */
  method Transmit(bus: Bus, bytes: seq<uint8>)
    modifies bus
    ensures bus.log == old(bus.log) + Send(bytes, bus.selected)
    ensures bus.selected == old(bus.selected) && bus.rate == old(bus.rate) && bus.doubled == old(bus.doubled)
  {
    var i := 0;
    while i < |bytes|
      invariant 0 <= i <= |bytes|
      invariant bus.log == old(bus.log) + Send(bytes[..i], bus.selected)
      invariant bus.selected == old(bus.selected) && bus.rate == old(bus.rate) && bus.doubled == old(bus.doubled)
    {
      bus.Write(bytes[i]);
      assert bytes[..i + 1] == bytes[..i] + [bytes[i]];
      i := i + 1;
    }
    assert bytes[..|bytes|] == bytes;
  }

  /** n reads whose bytes are thrown away: the CRC of a block (sd.c:225-226)
      and the parts of a sector disk_readp skips (diskio.c:158, 169). */
  method Discard(bus: Bus, n: nat)
    modifies bus
    ensures bus.log == old(bus.log) + Fill(n, bus.selected)
    ensures bus.selected == old(bus.selected) && bus.rate == old(bus.rate) && bus.doubled == old(bus.doubled)
  {
    var i := 0;
    while i < n
      invariant 0 <= i <= n
      invariant bus.log == old(bus.log) + Fill(i, bus.selected)
      invariant bus.selected == old(bus.selected) && bus.rate == old(bus.rate) && bus.doubled == old(bus.doubled)
    {
      var _ := bus.Read();
      assert Fill(i, bus.selected) + [Wire(0xFF, bus.selected)] == Fill(i + 1, bus.selected);
      i := i + 1;
    }
  }

  /** n reads stored into buf[at..at+n] (sd.c:219-222, diskio.c:162-165);
      the rest of the buffer is left as it was. */
  method Receive(bus: Bus, buf: array<uint8>, at: nat, n: nat)
    requires at + n <= buf.Length
    modifies bus, buf
    ensures buf[at..at + n] == Window(bus.miso, |old(bus.log)|, n)
    ensures buf[..at] == old(buf[..at]) && buf[at + n..] == old(buf[at + n..])
    ensures bus.log == old(bus.log) + Fill(n, bus.selected)
    ensures bus.selected == old(bus.selected) && bus.rate == old(bus.rate) && bus.doubled == old(bus.doubled)
  {
    ghost var p := |bus.log|;
    var i := 0;
    while i < n
      invariant 0 <= i <= n
      invariant forall j :: at <= j < at + i ==> buf[j] == At(bus.miso, p + (j - at))
      invariant forall j :: 0 <= j < at ==> buf[j] == old(buf[j])
      invariant forall j :: at + i <= j < buf.Length ==> buf[j] == old(buf[j])
      invariant bus.log == old(bus.log) + Fill(i, bus.selected)
      invariant bus.selected == old(bus.selected) && bus.rate == old(bus.rate) && bus.doubled == old(bus.doubled)
    {
      buf[at + i] := bus.Read();
      assert Fill(i, bus.selected) + [Wire(0xFF, bus.selected)] == Fill(i + 1, bus.selected);
      i := i + 1;
    }
  }

  /** The bounded polling loops of the driver (sd.c:40-49, 203-209, 263-271,
      280): read 0xFF-filler bytes until one stops the poll, at most n of
      them. The byte returned is the last one read. */
  method Await(bus: Bus, n: nat, poll: Poll) returns (r: uint8)
    requires n > 0
    modifies bus
    ensures var scan := Scan(bus.miso, |old(bus.log)|, n, poll);
      bus.log == old(bus.log) + Fill(Polled(scan, n), bus.selected) &&
      r == At(bus.miso, |old(bus.log)| + Polled(scan, n) - 1)
    ensures bus.selected == old(bus.selected) && bus.rate == old(bus.rate) && bus.doubled == old(bus.doubled)
  {
    ghost var p := |bus.log|;
    var i := 0;
    r := 0xFF;
    while i < n
      invariant 0 <= i <= n
      invariant bus.log == old(bus.log) + Fill(i, bus.selected)
      invariant Scan(bus.miso, p, i, poll).None?
      invariant i > 0 ==> r == At(bus.miso, p + i - 1)
      invariant bus.selected == old(bus.selected) && bus.rate == old(bus.rate) && bus.doubled == old(bus.doubled)
    {
      r := bus.Read();
      assert Fill(i, bus.selected) + [Wire(0xFF, bus.selected)] == Fill(i + 1, bus.selected);
      if Stops(poll, r) {
        assert Scan(bus.miso, p, i + 1, poll) == Some(i);
        ScanExtend(bus.miso, p, i + 1, n, poll);
        return;
      }
      i := i + 1;
    }
  }

  /** SD_Send_Command (sd.c:22-52): the frame, then up to 256 reads until a
      byte other than 0xFF, which is returned after one more 0xFF is sent. */
  method SendCommand(bus: Bus, cmd: uint8, arg: uint32) returns (r: uint8)
    modifies bus
    ensures var run := Command(bus.miso, |old(bus.log)|, cmd, arg, bus.selected);
      r == run.result && bus.log == old(bus.log) + run.sent
    ensures bus.selected == old(bus.selected) && bus.rate == old(bus.rate) && bus.doubled == old(bus.doubled)
  {
    Transmit(bus, Frame(cmd, arg));
    ghost var polled := bus.log;
    var response := Await(bus, MAX_ITERATION_RESPONSE, Response);
    ScanSpec(bus.miso, |polled|, MAX_ITERATION_RESPONSE, Response);
    if response != 0xFF {
      bus.Write(0xFF);
      ghost var k := |bus.log| - |polled| - 1;
      assert Fill(k, bus.selected) + [Wire(0xFF, bus.selected)] == Fill(k + 1, bus.selected);
      return response;
    }
    return 0xFF;
  }

  /** One attempt of a handshake loop: for GO_IDLE_STATE (sd.c:80-92)
      chip-select released, 256 filler bytes, chip-select asserted, the
      command; for SEND_OP_COND (sd.c:123) the command alone. `attempt` is
      what the attempt does from each position. */
  method MakeAttempt(bus: Bus, a: Attempt, ghost attempt: nat -> Run) returns (r: uint8)
    requires a.powerUp || bus.selected
    requires forall q {:trigger Try(bus.miso, q, a)} :: Try(bus.miso, q, a) == attempt(q)
    modifies bus
    ensures var t := attempt(|old(bus.log)|);
      r == t.result && bus.log == old(bus.log) + t.sent
    ensures bus.selected && bus.rate == old(bus.rate) && bus.doubled == old(bus.doubled)
  {
    if a.powerUp {
      bus.Deselect();
      var i := 0;
      while i < POWERUP_MAX
        invariant 0 <= i <= POWERUP_MAX
        invariant bus.log == old(bus.log) + Fill(i, false)
        invariant !bus.selected && bus.rate == old(bus.rate) && bus.doubled == old(bus.doubled)
      {
        bus.Write(0xFF);
        assert Fill(i, false) + [Wire(0xFF, false)] == Fill(i + 1, false);
        i := i + 1;
      }
      bus.Select();
    }
    r := SendCommand(bus, a.cmd, 0);
    assert attempt(|old(bus.log)|) == Try(bus.miso, |old(bus.log)|, a);
  }

  /** The two handshake loops of SD_mount (sd.c:73-104 with GO_IDLE_STATE
      until 0x01, sd.c:120-135 with SEND_OP_COND until 0x00): attempts until
      the card gives the wanted answer, at most 256 of them, starting from the
      response `resp` held before the loop. */
  method RetryLoop(bus: Bus, a: Attempt, want: uint8, resp: uint8, ghost attempt: nat -> Run) returns (r: uint8)
    requires a.powerUp || bus.selected
    requires forall q {:trigger Try(bus.miso, q, a)} :: Try(bus.miso, q, a) == attempt(q)
    modifies bus
    ensures var t := Retry(attempt, want, |old(bus.log)|, MAX_ITERATION_RESPONSE, resp);
      r == Final(t, resp) && bus.log == old(bus.log) + t.sent
    ensures bus.selected == (old(bus.selected) || resp != want)
    ensures bus.rate == old(bus.rate) && bus.doubled == old(bus.doubled)
  {
    ghost var total := Retry(attempt, want, |bus.log|, MAX_ITERATION_RESPONSE, resp);
    var response := resp;
    var attempts := 0;
    ghost var done := Tries([], []);
    while response != want && attempts < MAX_ITERATION_RESPONSE
      invariant 0 <= attempts <= MAX_ITERATION_RESPONSE
      invariant response == Final(done, resp) && bus.log == old(bus.log) + done.sent
      invariant attempts == 0 <==> done.answers == []
      invariant total == Join(done, Retry(attempt, want, |bus.log|, MAX_ITERATION_RESPONSE - attempts, response))
      invariant bus.selected == (old(bus.selected) || attempts > 0)
      invariant bus.rate == old(bus.rate) && bus.doubled == old(bus.doubled)
      decreases MAX_ITERATION_RESPONSE - attempts
    {
      ghost var pos := |bus.log|;
      ghost var t := attempt(pos);
      RetryStep(attempt, want, total, done, pos, MAX_ITERATION_RESPONSE - attempts, response);
      response := MakeAttempt(bus, a, attempt);
      done := Join(done, Tries([t.result], t.sent));
      attempts := attempts + 1;
    }
    RetryDone(attempt, want, total, done, |bus.log|, MAX_ITERATION_RESPONSE - attempts, response);
    r := response;
  }

  /** The SD/MMC test at the end of SD_mount (sd.c:151-177) and
      disk_initialize (diskio.c:97-117): APP_CMD, then SD_SEND_OP_CMD if it
      was accepted; chip-select is released either way. */
  method Identify(bus: Bus, ghost classify: nat -> Handshake) returns (session: Session)
    requires bus.selected
    requires forall q {:trigger Classify(bus.miso, q)} :: Classify(bus.miso, q) == classify(q)
    modifies bus
    ensures var h := classify(|old(bus.log)|);
      session == h.session && bus.log == old(bus.log) + h.sent
    ensures session == MmcCard || session == SdCard
    ensures !bus.selected && bus.rate == old(bus.rate) && bus.doubled == old(bus.doubled)
  {
    assert classify(|bus.log|) == Classify(bus.miso, |bus.log|);
    var response := SendCommand(bus, APP_CMD, 0);
    if response != 0x00 {
      bus.Deselect();
      return MmcCard;
    }
    response := SendCommand(bus, SEND_OP_CMD, 0);
    bus.Deselect();
    if response != 0x00 {
      return MmcCard;
    }
    return SdCard;
  }

  /** The handshake shared by SD_mount (sd.c:73-177) and disk_initialize
      (diskio.c:62-117), with its three steps given as what they do from each
      position. A failed handshake leaves chip-select asserted; a finished one
      releases it. */
  method Connect(bus: Bus, ghost idle: nat -> Run, ghost init: nat -> Run, ghost classify: nat -> Handshake)
      returns (session: Session)
    requires forall q {:trigger Try(bus.miso, q, IDLE)} :: Try(bus.miso, q, IDLE) == idle(q)
    requires forall q {:trigger Try(bus.miso, q, INIT)} :: Try(bus.miso, q, INIT) == init(q)
    requires forall q {:trigger Classify(bus.miso, q)} :: Classify(bus.miso, q) == classify(q)
    modifies bus
    ensures var h := Steps(idle, init, classify, |old(bus.log)|);
      session == h.session && bus.log == old(bus.log) + h.sent && bus.selected == Failed(session)
    ensures bus.rate == old(bus.rate) && bus.doubled == old(bus.doubled)
  {
    var response := RetryLoop(bus, IDLE, 0x01, 0xFF, idle);
    if response != 0x01 {
      return IdleTimeout;
    }
    session := Initialize(bus, init, classify);
  }

  /** The handshake from the SEND_OP_COND loop on (sd.c:120-177,
      diskio.c:85-117), entered with the card idle and chip-select asserted. */
  method Initialize(bus: Bus, ghost init: nat -> Run, ghost classify: nat -> Handshake) returns (session: Session)
    requires bus.selected
    requires forall q {:trigger Try(bus.miso, q, INIT)} :: Try(bus.miso, q, INIT) == init(q)
    requires forall q {:trigger Classify(bus.miso, q)} :: Classify(bus.miso, q) == classify(q)
    modifies bus
    ensures var h := InitSteps(init, classify, |old(bus.log)|);
      session == h.session && bus.log == old(bus.log) + h.sent && bus.selected == Failed(session)
    ensures bus.rate == old(bus.rate) && bus.doubled == old(bus.doubled)
  {
    var response := RetryLoop(bus, INIT, 0x00, 0x01, init);
    if response != 0x00 {
      return InitTimeout;
    }
    session := Identify(bus, classify);
  }

  /** SD_mount (sd.c:54-178): SPI at a sixteenth of the clock, then the
      handshake; 0xFF when it fails, otherwise the kind of card. */
  method Mount(bus: Bus) returns (r: uint8)
    modifies bus
    ensures var h := Negotiate(bus.miso, |old(bus.log)|);
      r == MountCode(h.session) && bus.log == old(bus.log) + h.sent &&
      bus.selected == Failed(h.session)
    ensures bus.rate == SPI_FOSC_16 & 3 && bus.doubled == (old(bus.doubled) || Doubles(SPI_FOSC_16))
  {
    bus.Init(SPI_FOSC_16);
    var session := Connect(bus, Attempts(bus.miso, IDLE), Attempts(bus.miso, INIT), Classifier(bus.miso));
    r := MountCode(session);
  }

  /** SD_unmount (sd.c:180-189): chip-select released, result 0. */
  method Unmount(bus: Bus) returns (r: uint8)
    modifies bus
    ensures r == 0 && !bus.selected && bus.log == old(bus.log)
    ensures bus.rate == old(bus.rate) && bus.doubled == old(bus.doubled)
  {
    bus.Deselect();
    return 0;
  }

  /** SD_Read_Sector (sd.c:191-236): chip-select asserted, CMD17 with the
      byte address, then the block. A refused command returns its response
      and a missing token 0xFF, both leaving chip-select asserted and buf
      untouched. */
  method ReadSector(bus: Bus, sector: uint32, buf: array<uint8>) returns (r: uint8)
    requires buf.Length >= SECTOR_SIZE
    modifies bus, buf
    ensures var run := ReadSectorRun(bus.miso, |old(bus.log)|, sector);
      r == run.result && bus.log == old(bus.log) + run.sent &&
      (run.data.Some? ==> buf[..SECTOR_SIZE] == run.data.value) &&
      (run.data.None? ==> buf[..] == old(buf[..])) &&
      buf[SECTOR_SIZE..] == old(buf[SECTOR_SIZE..])
    ensures bus.selected == (r != 0) && bus.rate == old(bus.rate) && bus.doubled == old(bus.doubled)
  {
    bus.Select();
    var response := SendCommand(bus, READ_SECTOR_CMD, sector << 9);
    if response != 0 {
      return response;
    }
    r := ReceiveBlock(bus, buf);
  }

  /** SD_Read_Sector after an accepted CMD17 (sd.c:201-236): up to 256 polls
      for the token, the 512 bytes into buf, the CRC discarded, one more
      0xFF, chip-select released; 0xFF with buf untouched when no token comes. */
  method ReceiveBlock(bus: Bus, buf: array<uint8>) returns (r: uint8)
    requires bus.selected && buf.Length >= SECTOR_SIZE
    modifies bus, buf
    ensures var run := ReadBlock(bus.miso, |old(bus.log)|);
      r == run.result && bus.log == old(bus.log) + run.sent &&
      (run.data.Some? ==> buf[..SECTOR_SIZE] == run.data.value) &&
      (run.data.None? ==> buf[..] == old(buf[..])) &&
      buf[SECTOR_SIZE..] == old(buf[SECTOR_SIZE..])
    ensures bus.selected == (r != 0) && bus.rate == old(bus.rate) && bus.doubled == old(bus.doubled)
  {
    ghost var q := |bus.log|;
    var response := Await(bus, SD_TOKEN_POLLS, Token);
    ScanSpec(bus.miso, q, SD_TOKEN_POLLS, Token);
    if response != DATA_TOKEN {
      return 0xFF;
    }
    ghost var polled := |bus.log| - q;
    Receive(bus, buf, 0, SECTOR_SIZE);
    Discard(bus, 2);
    bus.Write(0xFF);
    bus.Deselect();
    FillSplit(polled, SECTOR_SIZE, true);
    FillSplit(polled + SECTOR_SIZE, 2, true);
    assert Fill(polled + SECTOR_SIZE + 2, true) + [Wire(0xFF, true)] == Fill(polled + SECTOR_SIZE + TRAILER, true);
    return 0;
  }

  /** The end of SD_Write_Sector (sd.c:262-291): the data-response poll,
      then the busy poll, then one more 0xFF and chip-select released. */
  method AwaitAcknowledge(bus: Bus) returns (r: uint8)
    requires bus.selected
    modifies bus
    ensures var run := Acknowledge(bus.miso, |old(bus.log)|);
      r == run.result && bus.log == old(bus.log) + run.sent
    ensures bus.selected == (r != 0) && bus.rate == old(bus.rate) && bus.doubled == old(bus.doubled)
  {
    ghost var q := |bus.log|;
    var response := Await(bus, MAX_ITERATION_RESPONSE, DataResponse);
    ScanSpec(bus.miso, q, MAX_ITERATION_RESPONSE, DataResponse);
    if response & 0x0F != WRITE_RESPONSE_ACCEPTED {
      return 0xFF;
    }
    r := AwaitNotBusy(bus);
  }

  /** The busy wait of SD_Write_Sector (sd.c:279-290). */
  method AwaitNotBusy(bus: Bus) returns (r: uint8)
    requires bus.selected
    modifies bus
    ensures var run := Busy(bus.miso, |old(bus.log)|);
      r == run.result && bus.log == old(bus.log) + run.sent
    ensures bus.selected == (r != 0) && bus.rate == old(bus.rate) && bus.doubled == old(bus.doubled)
  {
    ghost var b := |bus.log|;
    var response := Await(bus, MAX_ITERATION_RESPONSE, NotBusy);
    ScanSpec(bus.miso, b, MAX_ITERATION_RESPONSE, NotBusy);
    if response == 0 {
      return 0xFF;
    }
    ghost var busy := |bus.log| - b;
    bus.Write(0xFF);
    bus.Deselect();
    assert Fill(busy, true) + [Wire(0xFF, true)] == Fill(busy + 1, true);
    return 0;
  }

  /** SD_Write_Sector (sd.c:239-291): chip-select asserted, CMD24 with the
      byte address; a refused command returns its response; otherwise 0xFF,
      the token and the first 512 bytes of buf, then the card's verdict. */
  method WriteSector(bus: Bus, sector: uint32, buf: array<uint8>) returns (r: uint8)
    requires buf.Length >= SECTOR_SIZE
    modifies bus
    ensures var run := WriteSectorRun(bus.miso, |old(bus.log)|, sector, buf[..]);
      r == run.result && bus.log == old(bus.log) + run.sent
    ensures bus.selected == (r != 0) && bus.rate == old(bus.rate) && bus.doubled == old(bus.doubled)
  {
    bus.Select();
    var response := SendCommand(bus, WRITE_SECTOR_CMD, sector << 9);
    if response != 0 {
      return response;
    }
    r := SendBlock(bus, buf);
  }

  /** SD_Write_Sector after an accepted CMD24 (sd.c:250-291): 0xFF, the
      token and the first 512 bytes of buf, then the card's verdict. */
  method SendBlock(bus: Bus, buf: array<uint8>) returns (r: uint8)
    requires bus.selected && buf.Length >= SECTOR_SIZE
    modifies bus
    ensures var run := WriteBlock(bus.miso, |old(bus.log)|, buf[..]);
      r == run.result && bus.log == old(bus.log) + run.sent
    ensures bus.selected == (r != 0) && bus.rate == old(bus.rate) && bus.doubled == old(bus.doubled)
  {
    assert buf[..][..SECTOR_SIZE] == buf[..SECTOR_SIZE];
    Transmit(bus, [0xFF, DATA_TOKEN] + buf[..SECTOR_SIZE]);
    r := AwaitAcknowledge(bus);
  }
}
