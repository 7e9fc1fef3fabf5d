/** The SD bootloader (SD_Bootloader.c): mount the card, retrying while it
    fails; copy ten sectors from sector 647 on into flash, two 256-byte pages
    per sector, stopping at the first read that returns 0xFF; then jump to
    the application at address 0. */
module SdBootloader {
  import opened Bytes
  import opened Spi
  import opened SdProtocol
  import opened SdTransfer
  import opened SdCard
  import opened Flash

  /** Retries after the first mount attempt (SD_Bootloader.c:43). */
  const MOUNT_ITERATION_MAX: nat := 128
  /** Sectors the application occupies, and the first of them (SD_Bootloader.c:45-46). */
  const APP_NO_SECTORS: nat := 10
  const APP_OFFSET_SECTOR: nat := 647
  /** Where the application is programmed and entered (SD_Bootloader.c:47). */
  const APPLICATION_FLASH_ADD: nat := 0

  /** How main ends: returning 0, or jumping to an address. */
  datatype Exit = Returned | Jumped(address: nat)

  /** The mount retry loop's outcome: the code of each SD_mount call in turn,
      and what the calls put on the wire. */
  datatype Mounting = Mounting(codes: seq<uint8>, sent: seq<Wire>)

  /** SD_mount called from position p, then again while it returned 0xFF
      and retries are left; `mount` is what one call does from each position. */
  function MountRetries(mount: nat -> Handshake, p: nat, left: nat): (m: Mounting)
  {
    var h := mount(p);
    var code := MountCode(h.session);
    Then(Mounting([code], h.sent), Remounts(mount, p + |h.sent|, left, code))
  }

  /** The retries after a call that returned `status`. */
  function Remounts(mount: nat -> Handshake, p: nat, left: nat, status: uint8): (m: Mounting)
    decreases left, p  // p keeps a literal retry count from being unrolled in full
  {
    if status != 0xFF || left == 0 then Mounting([], [])
    else
      var h := mount(p);
      var code := MountCode(h.session);
      Then(Mounting([code], h.sent), Remounts(mount, p + |h.sent|, left - 1, code))
  }

  function Then(a: Mounting, b: Mounting): (m: Mounting)
    ensures |m.codes| == |a.codes| + |b.codes|
  {
    Mounting(a.codes + b.codes, a.sent + b.sent)
  }

  /** One SD_mount call from each position. */
  function Mounter(s: seq<uint8>): nat -> Handshake {
    (q: nat) => Negotiate(s, q)
  }

  /** `mount` describes SD_mount over the card's output s. */
  ghost predicate MountsBy(s: seq<uint8>, mount: nat -> Handshake) {
    forall q {:trigger Negotiate(s, q)} :: Negotiate(s, q) == mount(q)
  }

  /** After a call that returned `status`, at most `left` retries follow;
      there is one when status is 0xFF and one is left; every retry but the
      last returned 0xFF, and the last returned 0xFF only when it used up the
      retries. */
  lemma {:induction false} RemountsBounded(mount: nat -> Handshake, p: nat, left: nat, status: uint8)
    ensures var m := Remounts(mount, p, left, status);
      |m.codes| <= left &&
      (status == 0xFF && left > 0 <==> |m.codes| > 0) &&
      (forall k :: 0 <= k < |m.codes| - 1 ==> m.codes[k] == 0xFF) &&
      (|m.codes| > 0 && m.codes[|m.codes| - 1] == 0xFF ==> |m.codes| == left)
    decreases left
  {
    if status == 0xFF && left > 0 {
      var h := mount(p);
      RemountsBounded(mount, p + |h.sent|, left - 1, MountCode(h.session));
    }
  }

  /** SD_mount is called at least once and at most left+1 times; every call
      but the last returned 0xFF, and the last returned 0xFF only if no retry
      was left. */
  lemma MountRetriesBounded(mount: nat -> Handshake, p: nat, left: nat)
    ensures var m := MountRetries(mount, p, left);
      1 <= |m.codes| <= left + 1 &&
      (forall k :: 0 <= k < |m.codes| - 1 ==> m.codes[k] == 0xFF) &&
      (m.codes[|m.codes| - 1] == 0xFF ==> |m.codes| == left + 1)
  {
    var h := mount(p);
    RemountsBounded(mount, p + |h.sent|, left, MountCode(h.session));
  }

  /** A retry moves one call from what is left to what is done. */
  lemma MountStep(mount: nat -> Handshake, total: Mounting, done: Mounting, p: nat, left: nat, status: uint8)
    requires total == Then(done, Remounts(mount, p, left, status))
    requires status == 0xFF && left > 0
    ensures var h := mount(p);
      total == Then(Then(done, Mounting([MountCode(h.session)], h.sent)),
                    Remounts(mount, p + |h.sent|, left - 1, MountCode(h.session)))
  {
    var h := mount(p);
    var rest := Remounts(mount, p + |h.sent|, left - 1, MountCode(h.session));
    assert done.codes + ([MountCode(h.session)] + rest.codes) == (done.codes + [MountCode(h.session)]) + rest.codes;
    assert done.sent + (h.sent + rest.sent) == (done.sent + h.sent) + rest.sent;
  }

  /** A loop that has stopped has done all there is. */
  lemma MountDone(mount: nat -> Handshake, total: Mounting, done: Mounting, p: nat, left: nat, status: uint8)
    requires total == Then(done, Remounts(mount, p, left, status))
    requires status != 0xFF || left == 0
    ensures total == done
  {
    assert done.codes + [] == done.codes && done.sent + [] == done.sent;
  }

  /** The mount retry loop of main (SD_Bootloader.c:73): SD_mount, then again
      while it returned 0xFF and fewer than 128 retries were made. */
  method MountCard(bus: Bus, ghost mount: nat -> Handshake) returns (status: uint8)
    requires MountsBy(bus.miso, mount)
    modifies bus
    ensures var m := MountRetries(mount, |old(bus.log)|, MOUNT_ITERATION_MAX);
      status == m.codes[|m.codes| - 1] && bus.log == old(bus.log) + m.sent
  {
    ghost var total := MountRetries(mount, |bus.log|, MOUNT_ITERATION_MAX);
    status := MountOnce(bus, mount);
    ghost var done := Mounting([status], bus.log[|old(bus.log)|..]);
    var iterations: nat := 0;
    while status == 0xFF && iterations < MOUNT_ITERATION_MAX
      invariant iterations <= MOUNT_ITERATION_MAX
      invariant |done.codes| > 0 && status == done.codes[|done.codes| - 1]
      invariant bus.log == old(bus.log) + done.sent
      invariant total == Then(done, Remounts(mount, |bus.log|, MOUNT_ITERATION_MAX - iterations, status))
      decreases MOUNT_ITERATION_MAX - iterations
    {
      status, done := Remount(bus, mount, total, done, MOUNT_ITERATION_MAX - iterations, old(bus.log));
      iterations := iterations + 1;
    }
    MountDone(mount, total, done, |bus.log|, MOUNT_ITERATION_MAX - iterations, status);
  }

  /** One retry of the mount loop, after a call that returned 0xFF with
      `left` retries to go. */
  method Remount(bus: Bus, ghost mount: nat -> Handshake, ghost total: Mounting, ghost done: Mounting,
                 ghost left: nat, ghost log0: seq<Wire>) returns (status: uint8, ghost done': Mounting)
    requires MountsBy(bus.miso, mount) && left > 0 && bus.log == log0 + done.sent
    requires total == Then(done, Remounts(mount, |bus.log|, left, 0xFF))
    modifies bus
    ensures |done'.codes| > 0 && status == done'.codes[|done'.codes| - 1] && bus.log == log0 + done'.sent
    ensures total == Then(done', Remounts(mount, |bus.log|, left - 1, status))
  {
    ghost var p := |bus.log|;
    ghost var h := mount(p);
    MountStep(mount, total, done, p, left, 0xFF);
    status := MountOnce(bus, mount);
    assert |bus.log| == p + |h.sent| && status == MountCode(h.session);
    assert log0 + done.sent + h.sent == log0 + (done.sent + h.sent);
    done' := Then(done, Mounting([status], h.sent));
  }

  /** One SD_mount call, described by what a call does from each position. */
  method MountOnce(bus: Bus, ghost mount: nat -> Handshake) returns (status: uint8)
    requires MountsBy(bus.miso, mount)
    modifies bus
    ensures var h := mount(|old(bus.log)|);
      status == MountCode(h.session) && bus.log == old(bus.log) + h.sent
  {
    status := Mount(bus);
    assert mount(|old(bus.log)|) == Negotiate(bus.miso, |old(bus.log)|);
  }

  lemma MounterMounts(s: seq<uint8>)
    ensures MountsBy(s, Mounter(s))
  {
  }

  /** The sector loop from sector 647 + i on: the code of each SD_Read_Sector,
      the bytes programmed, 512 per sector, whether the loop gave up, and the
      traffic. */
  datatype Loading = Loading(results: seq<uint8>, bytes: seq<uint8>, failed: bool, sent: seq<Wire>)

  function JoinLoad(a: Loading, b: Loading): (l: Loading)
    ensures |l.bytes| == |a.bytes| + |b.bytes|
  {
    Loading(a.results + b.results, a.bytes + b.bytes, b.failed, a.sent + b.sent)
  }

  /** The sectors a loading programmed. */
  function Programmed(l: Loading): int {
    |l.results| - if l.failed then 1 else 0
  }

  /** The sector of the application with index i. */
  function AppSector(i: nat): uint32
    requires i < APP_NO_SECTORS
  {
    (APP_OFFSET_SECTOR + i) as uint32
  }

  /** SD_Read_Sector of the application's sector i from each position. */
  function Reader(s: seq<uint8>): (nat, nat) -> SectorRead {
    (q: nat, i: nat) => if i < APP_NO_SECTORS then ReadSectorRun(s, q, AppSector(i)) else ReadSectorRun(s, q, 0)
  }

  /** What every SD_Read_Sector guarantees: data, 512 bytes of it, exactly
      when it returns 0. */
  ghost predicate Sound(read: (nat, nat) -> SectorRead) {
    forall q: nat, i: nat :: (read(q, i).data.Some? <==> read(q, i).result == 0) &&
      (read(q, i).data.Some? ==> |read(q, i).data.value| == SECTOR_SIZE)
  }

  /** `read` describes SD_Read_Sector over the card's output s. */
  ghost predicate ReadsBy(s: seq<uint8>, read: (nat, nat) -> SectorRead) {
    forall q: nat, i: nat {:trigger ReadSectorRun(s, q, AppSector(i))} :: i < APP_NO_SECTORS ==> read(q, i) == ReadSectorRun(s, q, AppSector(i))
  }

  lemma ReaderSound(s: seq<uint8>)
    ensures Sound(Reader(s)) && ReadsBy(s, Reader(s))
  {
    forall q: nat, i: nat
      ensures var rd := Reader(s)(q, i);
        (rd.data.Some? <==> rd.result == 0) && (rd.data.Some? ==> |rd.data.value| == SECTOR_SIZE)
    {
      if i < APP_NO_SECTORS {
        assert Reader(s)(q, i) == ReadSectorRun(s, q, AppSector(i));
      } else {
        assert Reader(s)(q, i) == ReadSectorRun(s, q, 0);
      }
    }
  }

  /** The sector loop of main (SD_Bootloader.c:86-93) from sector i on, with
      `held` in the buffer. A read that returns 0xFF ends it; with `strict`
      so does any other non-zero code. Otherwise the buffer, which the read
      refilled only when it returned 0, is programmed. As written the loop
      is not strict. */
  function Load(read: (nat, nat) -> SectorRead, p: nat, i: nat, held: seq<uint8>, strict: bool): (l: Loading)
    requires Sound(read) && |held| == SECTOR_SIZE && i <= APP_NO_SECTORS
    ensures |l.bytes| <= SECTOR_SIZE * (APP_NO_SECTORS - i)
    decreases APP_NO_SECTORS - i, p  // p keeps the literal first sector from being unrolled in full
  {
    if i >= APP_NO_SECTORS then Loading([], [], false, [])
    else
      var rd := read(p, i);
      if Rejects(rd.result, strict) then Loading([rd.result], [], true, rd.sent)
      else
        var image := if rd.data.Some? then rd.data.value else held;
        var rest := Load(read, p + |rd.sent|, i + 1, image, strict);
        JoinLoad(Loading([rd.result], image, false, rd.sent), rest)
  }

  /** l programmed 512 bytes per sector it accepted, and gave up exactly
      when it accepted fewer than `left` sectors. */
  predicate Counted(l: Loading, left: nat) {
    var n := Programmed(l);
    0 <= n && |l.bytes| == SECTOR_SIZE * n && (!l.failed <==> n == left)
  }

  /** From sector i on, the loop programs 512 bytes for each of at most
      10 - i sectors and gives up exactly when it programs fewer. */
  lemma {:induction false} LoadOutcome(read: (nat, nat) -> SectorRead, p: nat, i: nat, held: seq<uint8>, strict: bool)
    requires Sound(read) && |held| == SECTOR_SIZE && i <= APP_NO_SECTORS
    ensures Counted(Load(read, p, i, held, strict), APP_NO_SECTORS - i)
    decreases APP_NO_SECTORS - i
  {
    var l := Load(read, p, i, held, strict);
    if i < APP_NO_SECTORS {
      var rd := read(p, i);
      if !Rejects(rd.result, strict) {
        var image := if rd.data.Some? then rd.data.value else held;
        LoadOutcome(read, p + |rd.sent|, i + 1, image, strict);
        var rest := Load(read, p + |rd.sent|, i + 1, image, strict);
        assert l == JoinLoad(Loading([rd.result], image, false, rd.sent), rest);
        assert Programmed(l) == 1 + Programmed(rest);
      } else {
        assert l == Loading([rd.result], [], true, rd.sent);
      }
    } else {
      assert l == Loading([], [], false, []);
    }
  }

  /** Every sector l programmed was read with a code other than 0xFF, with
      `strict` with code 0. */
  ghost predicate Accepted(l: Loading, strict: bool) {
    forall k :: 0 <= k < Programmed(l) ==> l.results[k] != 0xFF && (strict ==> l.results[k] == 0)
  }

  /** Each sector the loop programs was read with a code it accepts. */
  lemma {:induction false} LoadCodes(read: (nat, nat) -> SectorRead, p: nat, i: nat, held: seq<uint8>, strict: bool)
    requires Sound(read) && |held| == SECTOR_SIZE && i <= APP_NO_SECTORS
    ensures Accepted(Load(read, p, i, held, strict), strict)
    decreases APP_NO_SECTORS - i
  {
    var l := Load(read, p, i, held, strict);
    if i < APP_NO_SECTORS {
      var rd := read(p, i);
      if !Rejects(rd.result, strict) {
        var image := if rd.data.Some? then rd.data.value else held;
        LoadCodes(read, p + |rd.sent|, i + 1, image, strict);
        var rest := Load(read, p + |rd.sent|, i + 1, image, strict);
        assert l == JoinLoad(Loading([rd.result], image, false, rd.sent), rest);
        assert l.failed == rest.failed && l.results == [rd.result] + rest.results;
        assert Programmed(l) == 1 + Programmed(rest);
        forall k | 0 <= k < Programmed(l)
          ensures l.results[k] != 0xFF && (strict ==> l.results[k] == 0)
        {
          if k == 0 {
            assert l.results[0] == rd.result;
          } else {
            assert 0 <= k - 1 < Programmed(rest);
            assert l.results[k] == rest.results[k - 1];
          }
        }
      }
    }
  }

  /** If l gave up, its last code is one the loop rejects. */
  predicate StopsOnRejected(l: Loading, strict: bool) {
    l.failed ==> |l.results| > 0 && Rejects(l.results[|l.results| - 1], strict)
  }

  /** When the loop gives up, its last code is one it rejects. */
  lemma {:induction false} LoadStopsOnRejected(read: (nat, nat) -> SectorRead, p: nat, i: nat, held: seq<uint8>, strict: bool)
    requires Sound(read) && |held| == SECTOR_SIZE && i <= APP_NO_SECTORS
    ensures StopsOnRejected(Load(read, p, i, held, strict), strict)
    decreases APP_NO_SECTORS - i
  {
    var l := Load(read, p, i, held, strict);
    if i < APP_NO_SECTORS {
      var rd := read(p, i);
      if !Rejects(rd.result, strict) {
        var image := if rd.data.Some? then rd.data.value else held;
        LoadStopsOnRejected(read, p + |rd.sent|, i + 1, image, strict);
        var rest := Load(read, p + |rd.sent|, i + 1, image, strict);
        assert l == JoinLoad(Loading([rd.result], image, false, rd.sent), rest);
        assert l.failed == rest.failed && l.results == [rd.result] + rest.results;
        if l.failed {
          assert l.results[|l.results| - 1] == rest.results[|rest.results| - 1];
        }
      } else {
        assert l == Loading([rd.result], [], true, rd.sent);
      }
    } else {
      assert l == Loading([], [], false, []);
    }
  }

  /** A sector read with code 0 is programmed with the data it read. */
  lemma LoadProgramsData(read: (nat, nat) -> SectorRead, p: nat, held: seq<uint8>, strict: bool)
    requires Sound(read) && |held| == SECTOR_SIZE && read(p, 0).result == 0
    ensures var l := Load(read, p, 0, held, strict);
      |l.bytes| >= SECTOR_SIZE && l.bytes[..SECTOR_SIZE] == read(p, 0).data.value
  {
    var rd := read(p, 0);
    var rest := Load(read, p + |rd.sent|, 1, rd.data.value, strict);
    assert Load(read, p, 0, held, strict).bytes == rd.data.value + rest.bytes;
  }

  /** As written, a read that the card refuses with a code other than 0xFF
      (a CMD17 error response) does not stop the loop: the buffer's previous
      contents are programmed in place of the sector. */
  lemma LoadProgramsStale(read: (nat, nat) -> SectorRead, p: nat, held: seq<uint8>)
    requires Sound(read) && |held| == SECTOR_SIZE
    requires read(p, 0).result != 0 && read(p, 0).result != 0xFF
    ensures var l := Load(read, p, 0, held, false);
      |l.bytes| >= SECTOR_SIZE && l.results[0] != 0 && l.bytes[..SECTOR_SIZE] == held
  {
    var rd := read(p, 0);
    var rest := Load(read, p + |rd.sent|, 1, held, false);
    assert Load(read, p, 0, held, false) == JoinLoad(Loading([rd.result], held, false, rd.sent), rest);
  }

  /** The strict loop stops on that same read without programming. */
  lemma StrictLoadStops(read: (nat, nat) -> SectorRead, p: nat, held: seq<uint8>)
    requires Sound(read) && |held| == SECTOR_SIZE
    requires read(p, 0).result != 0 && read(p, 0).result != 0xFF
    ensures var l := Load(read, p, 0, held, true);
      l.failed && l.bytes == []
  {
  }

  /** A read the loop accepts moves one sector from what is left to what is done. */
  lemma LoadStep(read: (nat, nat) -> SectorRead, total: Loading, done: Loading, p: nat, i: nat, held: seq<uint8>, strict: bool)
    requires Sound(read) && |held| == SECTOR_SIZE && i < APP_NO_SECTORS
    requires total == JoinLoad(done, Load(read, p, i, held, strict))
    requires !Rejects(read(p, i).result, strict)
    ensures var rd := read(p, i);
      var image := if rd.data.Some? then rd.data.value else held;
      total == JoinLoad(JoinLoad(done, Loading([rd.result], image, false, rd.sent)),
                        Load(read, p + |rd.sent|, i + 1, image, strict))
  {
    var rd := read(p, i);
    var image := if rd.data.Some? then rd.data.value else held;
    var a := Loading([rd.result], image, false, rd.sent);
    var b := Load(read, p + |rd.sent|, i + 1, image, strict);
    assert done.results + (a.results + b.results) == (done.results + a.results) + b.results;
    assert done.bytes + (a.bytes + b.bytes) == (done.bytes + a.bytes) + b.bytes;
    assert done.sent + (a.sent + b.sent) == (done.sent + a.sent) + b.sent;
  }

  /** A read the loop rejects ends it. */
  lemma LoadFail(read: (nat, nat) -> SectorRead, total: Loading, done: Loading, p: nat, i: nat, held: seq<uint8>, strict: bool)
    requires Sound(read) && |held| == SECTOR_SIZE && i < APP_NO_SECTORS
    requires total == JoinLoad(done, Load(read, p, i, held, strict))
    requires Rejects(read(p, i).result, strict)
    ensures total.failed && total.bytes == done.bytes &&
      total.sent == done.sent + read(p, i).sent
  {
    assert done.bytes + [] == done.bytes;
  }

  /** The loop after the tenth sector has nothing left. */
  lemma LoadDone(read: (nat, nat) -> SectorRead, total: Loading, done: Loading, p: nat, held: seq<uint8>, strict: bool)
    requires Sound(read) && |held| == SECTOR_SIZE
    requires total == JoinLoad(done, Load(read, p, APP_NO_SECTORS, held, strict))
    ensures !total.failed && total.bytes == done.bytes && total.sent == done.sent
  {
    assert done.bytes + [] == done.bytes && done.sent + [] == done.sent;
  }

  /** Both halves of sector i start a 256-byte page. */
  lemma SectorPages(i: nat)
    ensures (i * SECTOR_SIZE) % LARGE_PAGE == 0 && (i * SECTOR_SIZE + LARGE_PAGE) % LARGE_PAGE == 0
  {
    Offset256(2 * i, 0);
    Offset256(2 * i + 1, 0);
  }

  /** Both boot_program_page calls for one sector (SD_Bootloader.c:91-92):
      the 512 bytes of buf go to flash at 512 * i, nothing else changes. */
  method ProgramSector(m: Memory, buf: array<uint8>, i: nat)
    requires m.Valid() && buf != m.mem
    requires i * SECTOR_SIZE + SECTOR_SIZE <= m.mem.Length && buf.Length == SECTOR_SIZE
    modifies m, m.mem
    ensures m.Valid() && m.sreg == old(m.sreg)
    ensures m.mem[..] == Overwrite(old(m.mem[..]), i * SECTOR_SIZE, buf[..])
    ensures buf[..] == old(buf[..])
  {
    var at := i * SECTOR_SIZE;
    SectorPages(i);
    ghost var mem0 := m.mem[..];
    ProgramPage(m, at, buf, 0, LARGE_PAGE);
    ghost var mem1 := m.mem[..];
    assert mem1 == Overwrite(mem0, at, buf[0..LARGE_PAGE]);
    ProgramPage(m, at + LARGE_PAGE, buf, LARGE_PAGE, LARGE_PAGE);
    assert m.mem[..] == Overwrite(mem1, at + LARGE_PAGE, buf[LARGE_PAGE..SECTOR_SIZE]);
    assert buf[..] == buf[0..LARGE_PAGE] + buf[LARGE_PAGE..SECTOR_SIZE];
    OverwriteAdjacent(mem0, at, buf[0..LARGE_PAGE], buf[LARGE_PAGE..SECTOR_SIZE]);
  }

  /** Whether the loop gives up on a read that returned code rd. */
  predicate Rejects(rd: uint8, strict: bool) {
    rd == 0xFF || (strict && rd != 0)
  }

  /** The state of the sector loop before sector i: `done` is what the loop
      has done of `total`, which is what it does from the start; the bus has
      sent done's traffic after log0 and so stands at `log`, the buffer holds
      `content` and flash holds done's bytes over its starting contents mem0. */
  ghost predicate Progress(read: (nat, nat) -> SectorRead, strict: bool, i: nat, total: Loading, done: Loading,
                           content: seq<uint8>, log: seq<Wire>, mem: seq<uint8>, log0: seq<Wire>, mem0: seq<uint8>)
  {
    Sound(read) && i <= APP_NO_SECTORS && |done.bytes| == i * SECTOR_SIZE && |content| == SECTOR_SIZE &&
    total == JoinLoad(done, Load(read, |log|, i, content, strict)) &&
    log == log0 + done.sent &&
    |mem| == |mem0| && APP_NO_SECTORS * SECTOR_SIZE <= |mem0| &&
    mem == done.bytes + mem0[|done.bytes|..]
  }

  /** Before the first read nothing is loaded, logged or programmed. */
  lemma ProgressStart(read: (nat, nat) -> SectorRead, strict: bool, total: Loading, content: seq<uint8>,
                      log0: seq<Wire>, mem0: seq<uint8>)
    requires Sound(read) && |content| == SECTOR_SIZE && APP_NO_SECTORS * SECTOR_SIZE <= |mem0|
    requires total == Load(read, |log0|, 0, content, strict)
    ensures Progress(read, strict, 0, total, Loading([], [], false, []), content, log0, mem0, log0, mem0)
  {
    assert total == JoinLoad(Loading([], [], false, []), total);
    assert mem0 == [] + mem0[0..];
  }

  /** A read the loop accepts, and the sector programmed, move the loop to
      sector i + 1. */
  lemma ProgressAccept(read: (nat, nat) -> SectorRead, strict: bool, i: nat, total: Loading, done: Loading,
                       content: seq<uint8>, log: seq<Wire>, mem: seq<uint8>, log0: seq<Wire>, mem0: seq<uint8>,
                       content': seq<uint8>, log': seq<Wire>, mem': seq<uint8>)
    requires Progress(read, strict, i, total, done, content, log, mem, log0, mem0) && i < APP_NO_SECTORS
    requires var r := read(|log|, i);
      !Rejects(r.result, strict) && log' == log + r.sent &&
      content' == (if r.data.Some? then r.data.value else content)
    requires mem' == Overwrite(mem, i * SECTOR_SIZE, content')
    ensures var r := read(|log|, i);
      Progress(read, strict, i + 1, total, JoinLoad(done, Loading([r.result], content', false, r.sent)),
               content', log', mem', log0, mem0)
  {
    var r := read(|log|, i);
    LoadStep(read, total, done, |log|, i, content, strict);
    OverwriteExtends(mem0, done.bytes, content');
    assert log0 + done.sent + r.sent == log0 + (done.sent + r.sent);
  }

  /** A read the loop rejects ends it with all of `total` done. */
  lemma ProgressReject(read: (nat, nat) -> SectorRead, strict: bool, i: nat, total: Loading, done: Loading,
                       content: seq<uint8>, log: seq<Wire>, mem: seq<uint8>, log0: seq<Wire>, mem0: seq<uint8>,
                       log': seq<Wire>)
    requires Progress(read, strict, i, total, done, content, log, mem, log0, mem0) && i < APP_NO_SECTORS
    requires var r := read(|log|, i);
      Rejects(r.result, strict) && log' == log + r.sent
    ensures total.failed && log' == log0 + total.sent &&
      |total.bytes| <= |mem0| && mem == total.bytes + mem0[|total.bytes|..]
  {
    LoadFail(read, total, done, |log|, i, content, strict);
    assert log0 + done.sent + read(|log|, i).sent == log0 + (done.sent + read(|log|, i).sent);
  }

  /** After the last sector the loop has done all of `total`. */
  lemma ProgressDone(read: (nat, nat) -> SectorRead, strict: bool, total: Loading, done: Loading,
                     content: seq<uint8>, log: seq<Wire>, mem: seq<uint8>, log0: seq<Wire>, mem0: seq<uint8>)
    requires Progress(read, strict, APP_NO_SECTORS, total, done, content, log, mem, log0, mem0)
    ensures !total.failed && log == log0 + total.sent &&
      |total.bytes| <= |mem0| && mem == total.bytes + mem0[|total.bytes|..]
  {
    LoadDone(read, total, done, |log|, content, strict);
  }

  /** The sector loop of main (SD_Bootloader.c:86-93): each of the ten
      sectors read into buf and programmed at 512 * i, stopping at a read the
      loop rejects. Flash then holds the programmed bytes from address 0 on
      and is unchanged beyond them. */
  method LoadApplication(bus: Bus, m: Memory, buf: array<uint8>, strict: bool, ghost read: (nat, nat) -> SectorRead)
    returns (loaded: bool)
    requires Sound(read) && ReadsBy(bus.miso, read)
    requires m.Valid() && APP_NO_SECTORS * SECTOR_SIZE <= m.mem.Length
    requires buf.Length == SECTOR_SIZE && buf != m.mem
    modifies bus, buf, m, m.mem
    ensures var l := Load(read, |old(bus.log)|, 0, old(buf[..]), strict);
      loaded == !l.failed && bus.log == old(bus.log) + l.sent &&
      m.mem[..] == l.bytes + old(m.mem[..])[|l.bytes|..]
    ensures m.Valid() && m.sreg == old(m.sreg)
  {
    ghost var log0, mem0, sreg0 := bus.log, m.mem[..], m.sreg;
    ghost var total := Load(read, |log0|, 0, buf[..], strict);
    ProgressStart(read, strict, total, buf[..], log0, mem0);
    loaded := LoadSectors(bus, m, buf, strict, read, total, log0, mem0, sreg0);
  }

  /** The loop itself, from the state ProgressStart describes: it ends
      having done all of `total`, and reports whether no read was rejected. */
  method LoadSectors(bus: Bus, m: Memory, buf: array<uint8>, strict: bool, ghost read: (nat, nat) -> SectorRead,
                     ghost total: Loading, ghost log0: seq<Wire>, ghost mem0: seq<uint8>, ghost sreg0: uint8)
    returns (loaded: bool)
    requires ReadsBy(bus.miso, read) && Ready(m, buf, sreg0)
    requires Progress(read, strict, 0, total, Loading([], [], false, []), buf[..], bus.log, m.mem[..], log0, mem0)
    modifies bus, buf, m, m.mem
    ensures loaded == !total.failed && bus.log == log0 + total.sent
    ensures |total.bytes| <= |mem0| && m.mem[..] == total.bytes + mem0[|total.bytes|..]
    ensures Ready(m, buf, sreg0)
  {
    ghost var done := Loading([], [], false, []);
    var i: nat := 0;
    while i < APP_NO_SECTORS
      invariant Progress(read, strict, i, total, done, buf[..], bus.log, m.mem[..], log0, mem0)
      invariant Ready(m, buf, sreg0)
    {
      var rd;
      rd, done := LoadSector(bus, m, buf, i, strict, read, total, done, log0, mem0, sreg0);
      if Rejects(rd, strict) {
        return false;
      }
      i := i + 1;
    }
    ProgressDone(read, strict, total, done, buf[..], bus.log, m.mem[..], log0, mem0);
    loaded := true;
  }

  /** Flash with 256-byte pages and room for the application, a separate
      512-byte buffer, and the status register as it was at the start. */
  ghost predicate Ready(m: Memory, buf: array<uint8>, sreg0: uint8)
    reads m
  {
    m.Valid() && APP_NO_SECTORS * SECTOR_SIZE <= m.mem.Length &&
    buf.Length == SECTOR_SIZE && buf != m.mem && m.sreg == sreg0
  }

  /** One pass of the sector loop (SD_Bootloader.c:88-92): the read, and
      unless the loop rejects its code, both pages programmed. */
  method LoadSector(bus: Bus, m: Memory, buf: array<uint8>, i: nat, strict: bool, ghost read: (nat, nat) -> SectorRead,
                    ghost total: Loading, ghost done: Loading, ghost log0: seq<Wire>, ghost mem0: seq<uint8>,
                    ghost sreg0: uint8)
    returns (rd: uint8, ghost done': Loading)
    requires ReadsBy(bus.miso, read) && i < APP_NO_SECTORS && Ready(m, buf, sreg0)
    requires Progress(read, strict, i, total, done, buf[..], bus.log, m.mem[..], log0, mem0)
    modifies bus, buf, m, m.mem
    ensures Ready(m, buf, sreg0)
    ensures Rejects(rd, strict) ==>
      total.failed && bus.log == log0 + total.sent &&
      |total.bytes| <= |mem0| && m.mem[..] == total.bytes + mem0[|total.bytes|..]
    ensures !Rejects(rd, strict) ==>
      Progress(read, strict, i + 1, total, done', buf[..], bus.log, m.mem[..], log0, mem0)
  {
    ghost var content, log, mem := buf[..], bus.log, m.mem[..];
    rd := ReadApplicationSector(bus, buf, i, read);
    ghost var r := read(|log|, i);
    done' := done;
    if Rejects(rd, strict) {
      ProgressReject(read, strict, i, total, done, content, log, mem, log0, mem0, bus.log);
      return;
    }
    ProgramSector(m, buf, i);
    ProgressAccept(read, strict, i, total, done, content, log, mem, log0, mem0, buf[..], bus.log, m.mem[..]);
    done' := JoinLoad(done, Loading([rd], buf[..], false, r.sent));
  }

  /** SD_Read_Sector of the application's sector i (SD_Bootloader.c:88):
      the buffer is refilled only when the read returns 0. */
  method ReadApplicationSector(bus: Bus, buf: array<uint8>, i: nat, ghost read: (nat, nat) -> SectorRead)
    returns (rd: uint8)
    requires Sound(read) && ReadsBy(bus.miso, read)
    requires i < APP_NO_SECTORS && buf.Length == SECTOR_SIZE
    modifies bus, buf
    ensures var r := read(|old(bus.log)|, i);
      rd == r.result && bus.log == old(bus.log) + r.sent &&
      buf[..] == if r.data.Some? then r.data.value else old(buf[..])
  {
    rd := ReadSector(bus, AppSector(i), buf);
    assert read(|old(bus.log)|, i) == ReadSectorRun(bus.miso, |old(bus.log)|, AppSector(i));
  }

  /** What main does as a whole: the mount code it settled on, the code of
      each sector read, the bytes programmed from address 0 on, the traffic,
      and how it ends. */
  datatype Booting = Booting(exit: Exit, status: uint8, results: seq<uint8>, bytes: seq<uint8>, sent: seq<Wire>)

  /** main (SD_Bootloader.c:59-97) with `mount` describing SD_mount and
      `read` SD_Read_Sector from each position, starting at p with `held` in
      the uninitialised buffer; as written it is not strict. A failed mount
      returns; otherwise the sector loop runs, and main jumps to the
      application unless the loop gave up. */
  function BootRun(mount: nat -> Handshake, read: (nat, nat) -> SectorRead, p: nat, held: seq<uint8>, strict: bool): (b: Booting)
    requires Sound(read) && |held| == SECTOR_SIZE
  {
    MountRetriesBounded(mount, p, MOUNT_ITERATION_MAX);
    var mnt := MountRetries(mount, p, MOUNT_ITERATION_MAX);
    var status := mnt.codes[|mnt.codes| - 1];
    if status == 0xFF then Booting(Returned, status, [], [], mnt.sent)
    else
      var l := Load(read, p + |mnt.sent|, 0, held, strict);
      Booting(if l.failed then Returned else Jumped(APPLICATION_FLASH_ADD), status, l.results, l.bytes, mnt.sent + l.sent)
  }

  /** Each code is one SD_mount can return: 0xFF, SD_CARD or MMC_CARD. */
  predicate MountCodes(codes: seq<uint8>) {
    forall k :: 0 <= k < |codes| ==> codes[k] == 0xFF || codes[k] == SD_CARD || codes[k] == MMC_CARD
  }

  /** Every retry returns a code SD_mount can return. */
  lemma {:induction false} RemountCodes(mount: nat -> Handshake, p: nat, left: nat, status: uint8)
    ensures MountCodes(Remounts(mount, p, left, status).codes)
    decreases left
  {
    var m := Remounts(mount, p, left, status);
    if status == 0xFF && left > 0 {
      var h := mount(p);
      var code := MountCode(h.session);
      RemountCodes(mount, p + |h.sent|, left - 1, code);
      var rest := Remounts(mount, p + |h.sent|, left - 1, code);
      assert m.codes == [code] + rest.codes;
      forall k | 0 <= k < |m.codes|
        ensures m.codes[k] == 0xFF || m.codes[k] == SD_CARD || m.codes[k] == MMC_CARD
      {
        if k == 0 {
          assert m.codes[0] == code;
        } else {
          assert m.codes[k] == rest.codes[k - 1];
        }
      }
    }
  }

  /** main jumps only to the application, only after a mount that found an
      SD or MMC card, and only after programming all ten sectors. */
  lemma BootJumpsLoaded(mount: nat -> Handshake, read: (nat, nat) -> SectorRead, p: nat, held: seq<uint8>, strict: bool)
    requires Sound(read) && |held| == SECTOR_SIZE
    ensures var b := BootRun(mount, read, p, held, strict);
      b.exit.Jumped? ==>
        b.exit.address == APPLICATION_FLASH_ADD && (b.status == SD_CARD || b.status == MMC_CARD) &&
        |b.bytes| == APP_NO_SECTORS * SECTOR_SIZE
  {
    var h := mount(p);
    MountRetriesBounded(mount, p, MOUNT_ITERATION_MAX);
    RemountCodes(mount, p + |h.sent|, MOUNT_ITERATION_MAX, MountCode(h.session));
    var mnt := MountRetries(mount, p, MOUNT_ITERATION_MAX);
    var rest := Remounts(mount, p + |h.sent|, MOUNT_ITERATION_MAX, MountCode(h.session));
    assert mnt.codes == [MountCode(h.session)] + rest.codes;
    var last := |mnt.codes| - 1;
    if last > 0 {
      assert mnt.codes[last] == rest.codes[last - 1];
    } else {
      assert mnt.codes[last] == MountCode(h.session);
    }
    LoadOutcome(read, p + |mnt.sent|, 0, held, strict);
  }

  /** A mount that never succeeded makes SD_mount run 129 times and main
      return without programming anything. */
  lemma BootGivesUp(mount: nat -> Handshake, read: (nat, nat) -> SectorRead, p: nat, held: seq<uint8>, strict: bool)
    requires Sound(read) && |held| == SECTOR_SIZE
    ensures var b := BootRun(mount, read, p, held, strict);
      b.status == 0xFF ==>
        b.exit == Returned && b.bytes == [] &&
        |MountRetries(mount, p, MOUNT_ITERATION_MAX).codes| == MOUNT_ITERATION_MAX + 1
  {
    MountRetriesBounded(mount, p, MOUNT_ITERATION_MAX);
  }

  /** When main returns after mounting, it programmed fewer than ten sectors
      and the last read returned a code the loop rejects: 0xFF as written. */
  lemma BootReturnsOnRead(mount: nat -> Handshake, read: (nat, nat) -> SectorRead, p: nat, held: seq<uint8>, strict: bool)
    requires Sound(read) && |held| == SECTOR_SIZE
    ensures var b := BootRun(mount, read, p, held, strict);
      b.exit == Returned && b.status != 0xFF ==>
        |b.bytes| < APP_NO_SECTORS * SECTOR_SIZE &&
        |b.results| > 0 && Rejects(b.results[|b.results| - 1], strict)
  {
    var mnt := MountRetries(mount, p, MOUNT_ITERATION_MAX);
    LoadOutcome(read, p + |mnt.sent|, 0, held, strict);
    LoadStopsOnRejected(read, p + |mnt.sent|, 0, held, strict);
  }

  /** With the strict loop, a jump means all ten sectors were read with
      code 0, so every programmed byte came from the card. */
  lemma StrictBootReadsAll(mount: nat -> Handshake, read: (nat, nat) -> SectorRead, p: nat, held: seq<uint8>)
    requires Sound(read) && |held| == SECTOR_SIZE
    ensures var b := BootRun(mount, read, p, held, true);
      b.exit.Jumped? ==>
        |b.results| == APP_NO_SECTORS && forall k :: 0 <= k < APP_NO_SECTORS ==> b.results[k] == 0
  {
    var mnt := MountRetries(mount, p, MOUNT_ITERATION_MAX);
    LoadOutcome(read, p + |mnt.sent|, 0, held, true);
    LoadCodes(read, p + |mnt.sent|, 0, held, true);
  }

  /** main: mount, load, jump; `strict` selects the corrected sector loop.
      Mounter and Reader (MounterMounts, ReaderSound) give a `mount` and a
      `read` for every card. */
  method Boot(bus: Bus, m: Memory, buf: array<uint8>, strict: bool,
              ghost mount: nat -> Handshake, ghost read: (nat, nat) -> SectorRead) returns (exit: Exit)
    requires MountsBy(bus.miso, mount) && Sound(read) && ReadsBy(bus.miso, read)
    requires m.Valid() && APP_NO_SECTORS * SECTOR_SIZE <= m.mem.Length
    requires buf.Length == SECTOR_SIZE && buf != m.mem
    modifies bus, buf, m, m.mem
    ensures var b := BootRun(mount, read, |old(bus.log)|, old(buf[..]), strict);
      exit == b.exit && bus.log == old(bus.log) + b.sent &&
      m.mem[..] == b.bytes + old(m.mem[..])[|b.bytes|..]
    ensures m.Valid() && m.sreg == old(m.sreg)
  {
    ghost var log0 := bus.log;
    var status := MountCard(bus, mount);
    if status == 0xFF {
      BootRunUnmounted(mount, read, |log0|, buf[..], strict, bus.log[|log0|..],
                       BootRun(mount, read, |log0|, buf[..], strict));
      exit := Returned;
    } else {
      exit := LoadAndJump(bus, m, buf, strict, mount, read, log0);
    }
  }

  /** The rest of main once the mount retries ended on a card type: the
      sector loop, then the jump to the application unless the loop gave
      up. */
  method LoadAndJump(bus: Bus, m: Memory, buf: array<uint8>, strict: bool,
                     ghost mount: nat -> Handshake, ghost read: (nat, nat) -> SectorRead, ghost log0: seq<Wire>)
    returns (exit: Exit)
    requires Sound(read) && ReadsBy(bus.miso, read)
    requires m.Valid() && APP_NO_SECTORS * SECTOR_SIZE <= m.mem.Length
    requires buf.Length == SECTOR_SIZE && buf != m.mem
    requires var mnt := MountRetries(mount, |log0|, MOUNT_ITERATION_MAX);
      mnt.codes[|mnt.codes| - 1] != 0xFF && bus.log == log0 + mnt.sent
    modifies bus, buf, m, m.mem
    ensures var b := BootRun(mount, read, |log0|, old(buf[..]), strict);
      exit == b.exit && bus.log == log0 + b.sent && m.mem[..] == b.bytes + old(m.mem[..])[|b.bytes|..]
    ensures m.Valid() && m.sreg == old(m.sreg)
  {
    ghost var held, sent := buf[..], bus.log[|log0|..];
    assert sent == MountRetries(mount, |log0|, MOUNT_ITERATION_MAX).sent;
    ghost var l := Load(read, |log0| + |sent|, 0, held, strict);
    BootRunMounted(mount, read, |log0|, held, strict, sent, l, BootRun(mount, read, |log0|, held, strict));
    Appended(log0, sent, l.sent);
    var loaded := LoadApplication(bus, m, buf, strict, read);
    if !loaded {
      return Returned;
    }
    exit := Jumped(APPLICATION_FLASH_ADD);
  }

  /** Logging a then b after log0 logs a + b. */
  lemma Appended<T>(log0: seq<T>, a: seq<T>, b: seq<T>)
    ensures log0 + a + b == log0 + (a + b)
  {
  }

  /** BootRun when the mount retries end on 0xFF: main returns with
      nothing programmed. */
  lemma BootRunUnmounted(mount: nat -> Handshake, read: (nat, nat) -> SectorRead, p: nat, held: seq<uint8>,
                         strict: bool, sent: seq<Wire>, b: Booting)
    requires Sound(read) && |held| == SECTOR_SIZE
    requires var mnt := MountRetries(mount, p, MOUNT_ITERATION_MAX);
      mnt.codes[|mnt.codes| - 1] == 0xFF && sent == mnt.sent
    requires b == BootRun(mount, read, p, held, strict)
    ensures b.exit == Returned && b.bytes == [] && b.sent == sent
  {
  }

  /** BootRun when a mount succeeds: the sector loop runs from where the
      retries left the bus, and main jumps exactly when it completes. */
  lemma BootRunMounted(mount: nat -> Handshake, read: (nat, nat) -> SectorRead, p: nat, held: seq<uint8>,
                       strict: bool, sent: seq<Wire>, l: Loading, b: Booting)
    requires Sound(read) && |held| == SECTOR_SIZE
    requires var mnt := MountRetries(mount, p, MOUNT_ITERATION_MAX);
      mnt.codes[|mnt.codes| - 1] != 0xFF && sent == mnt.sent
    requires l == Load(read, p + |sent|, 0, held, strict) && b == BootRun(mount, read, p, held, strict)
    ensures b.exit == (if l.failed then Returned else Jumped(APPLICATION_FLASH_ADD))
    ensures b.bytes == l.bytes && b.sent == sent + l.sent
  {
  }
}
