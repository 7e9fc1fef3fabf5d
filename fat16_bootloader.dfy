/** The copy loop of the FAT16 bootloader (FAT16_bootloader/main.c:111-129):
    the chosen file is read in chunks of SPM_PAGESIZE bytes through pf_read
    into a buffer that is first set to 0xFF, and every non-empty chunk is
    programmed with boot_program_page, until a read returns fewer bytes
    than asked for.

    SPM_PAGESIZE is a parameter `size` here: main.c:41 redefines it to 128,
    half the 256-byte hardware page of the ATmega644P, so each call erases
    and writes a whole hardware page of which it loads only one half, and
    the other half comes out blank. As written, the target page
    APPLICATION_FLASH_ADD + i * SPM_PAGESIZE also uses i, the number of
    files the directory scan counted, which the loop never changes: every
    chunk lands on the same page. CopyFile models that code;
    CopyFileAdvancing is the loop with the page advanced per chunk, which
    stores the file only with SPM_PAGESIZE at the hardware's 256. */
module Fat16Bootloader {
  import opened Bytes
  import opened Flash

  /** APPLICATION_FLASH_ADD (FAT16_bootloader/main.c:40). */
  const APPLICATION_FLASH_ADD: nat := 0

  /** Each chunk pf_read hands over holds at most the `size` bytes asked for. */
  predicate ChunkSizes(chunks: seq<seq<uint8>>, size: nat) {
    forall k :: 0 <= k < |chunks| ==> |chunks[k]| <= size
  }

  /** The next chunk of the open file: empty once the file is exhausted. */
  function Head(rest: seq<seq<uint8>>): seq<uint8> {
    if |rest| > 0 then rest[0] else []
  }

  /** The chunks after the next one. */
  function Tail(rest: seq<seq<uint8>>): seq<seq<uint8>> {
    if |rest| > 0 then rest[1..] else []
  }

  /** The buffer after memset(app_bin_buff, 0xFF, size) and a read of chunk
      c: c followed by 0xFF padding. */
  function Padded(c: seq<uint8>, size: nat): (p: seq<uint8>)
    requires |c| <= size
    ensures |p| == size && p[..|c|] == c
    ensures forall j :: |c| <= j < size ==> p[j] == 0xFF
  {
    c + Blank(size - |c|)
  }

  /** pf_read on the open file, seen as the sequence of chunks it will hand
      over to reads of `size` bytes, one per call; past the last chunk a
      read returns no bytes. */
  class FileReader {
    const chunks: seq<seq<uint8>>
    /** The number of bytes each read asks for: SPM_PAGESIZE. */
    const size: nat
    var next: nat

    ghost predicate Valid()
      reads this
    {
      next <= |chunks| && ChunkSizes(chunks, size)
    }

    /** The chunks not read yet. */
    ghost function Rest(): (rest: seq<seq<uint8>>)
      requires Valid()
      reads this
      ensures ChunkSizes(rest, size) && |rest| == |chunks| - next
    {
      chunks[next..]
    }

    constructor (file: seq<seq<uint8>>, request: nat)
      requires ChunkSizes(file, request)
      ensures Valid() && chunks == file && size == request && next == 0
    {
      chunks := file;
      size := request;
      next := 0;
    }

    /** pf_read(buf, SPM_PAGESIZE, &rb): the next chunk is copied to the
        front of buf, rb is its length, and the rest of buf is untouched. */
    method Read(buf: array<uint8>) returns (rb: nat)
      requires Valid() && buf.Length == size
      modifies this, buf
      ensures Valid() && rb == |Head(old(Rest()))| && Rest() == Tail(old(Rest()))
      ensures buf[..] == Head(old(Rest())) + old(buf[..])[rb..]
    {
      ghost var rest := chunks[next..];
      var c := if next < |chunks| then chunks[next] else [];
      assert c == Head(rest);
      rb := |c|;
      var j := 0;
      while j < rb
        invariant 0 <= j <= rb && next == old(next)
        invariant forall k :: 0 <= k < buf.Length ==> buf[k] == if k < j then c[k] else old(buf[k])
      {
        buf[j] := c[j];
        j := j + 1;
      }
      assert buf[..] == c + old(buf[..])[rb..];
      if next < |chunks| {
        assert chunks[next + 1..] == rest[1..];
        next := next + 1;
      }
    }
  }

  /** What the copy loop does with a file, from its first read on: the
      chunks it programs, in order, how many chunks it reads, and what the
      buffer holds when it stops. */
  datatype Copy = Copy(pages: seq<seq<uint8>>, consumed: nat, last: seq<uint8>)

  /** The copy loop over the chunks still to come: read a chunk into the
      blanked buffer, program it unless it is empty, and go on only if it
      was a full `size` bytes. */
  function CopyRun(rest: seq<seq<uint8>>, size: nat): (run: Copy)
    requires PageSizes(size) && ChunkSizes(rest, size)
    ensures Full(run.pages, size) && |run.pages| <= run.consumed <= |rest| && |run.last| == size
    decreases |rest|
  {
    var c := Head(rest);
    var programmed := if |c| > 0 then [Padded(c, size)] else [];
    if |c| == size then
      var r := CopyRun(rest[1..], size);
      Copy(programmed + r.pages, 1 + r.consumed, r.last)
    else Copy(programmed, |rest| - |Tail(rest)|, Padded(c, size))
  }

  /** The loop reads the chunks in order: the first `consumed` of them, all
      full but the last, stopping early only on a chunk shorter than `size`
      bytes; and chunk j it programs is chunk j read, padded. */
  predicate ReadsOf(rest: seq<seq<uint8>>, run: Copy, size: nat)
    requires ChunkSizes(rest, size)
  {
    run.consumed <= |rest| && |run.pages| <= run.consumed <= |run.pages| + 1 &&
    (forall j :: 0 <= j < |run.pages| ==> run.pages[j] == Padded(rest[j], size)) &&
    (forall j :: 0 <= j < run.consumed - 1 ==> |rest[j]| == size) &&
    (run.consumed < |rest| ==> 0 < run.consumed && |rest[run.consumed - 1]| < size)
  }

  /** What CopyRun reads and programs. */
  lemma {:induction false} CopyRunReads(rest: seq<seq<uint8>>, size: nat)
    requires PageSizes(size) && ChunkSizes(rest, size)
    ensures ReadsOf(rest, CopyRun(rest, size), size)
    decreases |rest|
  {
    var c := Head(rest);
    var run := CopyRun(rest, size);
    if |c| == size {
      CopyRunReads(rest[1..], size);
      var r := CopyRun(rest[1..], size);
      assert run.pages == [Padded(c, size)] + r.pages;
      forall j | 0 <= j < |run.pages|
        ensures run.pages[j] == Padded(rest[j], size)
      {
        if j > 0 {
          assert run.pages[j] == r.pages[j - 1] && rest[j] == rest[1..][j - 1];
        }
      }
      forall j | 0 <= j < run.consumed - 1
        ensures |rest[j]| == size
      {
        if j > 0 {
          assert rest[j] == rest[1..][j - 1];
        }
      }
      if run.consumed < |rest| {
        assert rest[run.consumed - 1] == rest[1..][r.consumed - 1];
      }
    }
  }

  /** The flash address of the k-th chunk the loop programs: always `at` as
      written, or `at + size * k` when the page advances with each chunk. */
  function Addr(at: nat, advance: bool, size: nat, k: nat): (a: nat)
    ensures !advance ==> a == at
    ensures advance ==> a == at + k * size
  {
    if advance then at + k * size else at
  }

  /** All chunks programmed are a full `size` bytes. */
  predicate Full(pages: seq<seq<uint8>>, size: nat) {
    forall j :: 0 <= j < |pages| ==> |pages[j]| == size
  }

  /** The hardware pages of the first n chunks' addresses lie inside a flash
      of `memSize` bytes. */
  predicate Fits(at: nat, advance: bool, size: nat, n: nat, memSize: nat) {
    forall k :: 0 <= k < n ==> Base(Addr(at, advance, size, k)) + LARGE_PAGE <= memSize
  }

  /** Flash after each chunk has been programmed in turn at its address, the
      page buffer blank before each call. */
  function Program(mem: seq<uint8>, at: nat, advance: bool, size: nat, pages: seq<seq<uint8>>): (r: seq<uint8>)
    requires Full(pages, size) && Fits(at, advance, size, |pages|, |mem|)
    ensures |r| == |mem|
    decreases |pages|
  {
    if |pages| == 0 then mem
    else
      var n := |pages| - 1;
      Programmed(Program(mem, at, advance, size, pages[..n]), Addr(at, advance, size, n), pages[n])
  }

  /** The operations boot_program_page issues for each chunk in turn. */
  function ProgramEvents(at: nat, advance: bool, size: nat, pages: seq<seq<uint8>>): (events: seq<Event>)
    requires PageSizes(size) && Full(pages, size)
    decreases |pages|
  {
    if |pages| == 0 then []
    else
      var n := |pages| - 1;
      ProgramEvents(at, advance, size, pages[..n]) + Silent(Programming(Addr(at, advance, size, n), pages[n]))
  }

  /** The bytes of the chunks, one after the other. */
  function Concat(pages: seq<seq<uint8>>, size: nat): (bytes: seq<uint8>)
    requires Full(pages, size)
    ensures |bytes| == |pages| * size
    decreases |pages|
  {
    if |pages| == 0 then [] else Concat(pages[..|pages| - 1], size) + pages[|pages| - 1]
  }

  /** Programming every chunk at the same address leaves only the last one
      in flash: the earlier chunks are lost. */
  lemma {:induction false} ProgramFixed(mem: seq<uint8>, at: nat, size: nat, pages: seq<seq<uint8>>)
    requires Full(pages, size) && |pages| > 0 && Base(at) + LARGE_PAGE <= |mem|
    ensures Fits(at, false, size, |pages|, |mem|)
    ensures Program(mem, at, false, size, pages) == Programmed(mem, at, pages[|pages| - 1])
    decreases |pages|
  {
    var n := |pages| - 1;
    if n > 0 {
      ProgramFixed(mem, at, size, pages[..n]);
      assert pages[..n][n - 1] == pages[n - 1];
      OverwriteTwice(mem, Base(at), Image(at, pages[n - 1]), Image(at, pages[n]));
    }
  }

  /** With SPM_PAGESIZE at the hardware's 256, programming the chunks at
      consecutive addresses from a page start lays them out one after the
      other. */
  lemma {:induction false} ProgramAdvancing(mem: seq<uint8>, at: nat, pages: seq<seq<uint8>>)
    requires at % LARGE_PAGE == 0 && Full(pages, LARGE_PAGE) && at + |pages| * LARGE_PAGE <= |mem|
    ensures Fits(at, true, LARGE_PAGE, |pages|, |mem|)
    ensures Program(mem, at, true, LARGE_PAGE, pages) == Overwrite(mem, at, Concat(pages, LARGE_PAGE))
    decreases |pages|
  {
    FitsAdvancing(at, |pages|, |mem|);
    if |pages| == 0 {
      assert Overwrite(mem, at, []) == mem;
    } else {
      var n := |pages| - 1;
      var init := pages[..n];
      ProgramAdvancing(mem, at, init);
      var before := Program(mem, at, true, LARGE_PAGE, init);
      assert before == Overwrite(mem, at, Concat(init, LARGE_PAGE));
      PageAt(at, n, LARGE_PAGE);
      var a := at + n * LARGE_PAGE;
      assert Addr(at, true, LARGE_PAGE, n) == a && a + LARGE_PAGE <= |mem|;
      ProgrammedWhole(before, a, pages[n]);
      assert Program(mem, at, true, LARGE_PAGE, pages) == Overwrite(before, a, pages[n]);
      OverwriteAdjacent(mem, at, Concat(init, LARGE_PAGE), pages[n]);
    }
  }

  /** Whole pages from a page start up to memSize have their hardware pages
      inside flash. */
  lemma FitsAdvancing(at: nat, n: nat, memSize: nat)
    requires at % LARGE_PAGE == 0 && at + n * LARGE_PAGE <= memSize
    ensures Fits(at, true, LARGE_PAGE, n, memSize)
  {
    forall k | 0 <= k < n
      ensures Base(Addr(at, true, LARGE_PAGE, k)) + LARGE_PAGE <= memSize
    {
      PageAt(at, k, LARGE_PAGE);
      Scaled(k + 1, n, LARGE_PAGE);
    }
  }

  /** A file as a healthy read hands it over: chunks of `size` bytes, then
      the remainder, which is empty when the file size is a multiple of
      `size`. */
  function Split(file: seq<uint8>, size: nat): (chunks: seq<seq<uint8>>)
    requires PageSizes(size)
    ensures ChunkSizes(chunks, size)
    decreases |file|
  {
    if |file| < size then [file] else [file[..size]] + Split(file[size..], size)
  }

  /** A file laid out as the loop programs it: its bytes, then fewer than
      `size` bytes of 0xFF padding up to the end of the last chunk. */
  predicate ImageOf(file: seq<uint8>, image: seq<uint8>, size: nat) {
    |file| <= |image| < |file| + size && image[..|file|] == file &&
    forall j :: |file| <= j < |image| ==> image[j] == 0xFF
  }

  /** The chunks the loop programs from a healthy read of a file, laid end
      to end, are the file padded with 0xFF to a whole number of chunks. */
  lemma {:induction false} SplitImage(file: seq<uint8>, size: nat)
    requires PageSizes(size)
    ensures Full(CopyRun(Split(file, size), size).pages, size)
    ensures ImageOf(file, Concat(CopyRun(Split(file, size), size).pages, size), size)
    decreases |file|
  {
    var chunks := Split(file, size);
    var run := CopyRun(chunks, size);
    if |file| < size {
      if |file| == 0 {
        assert run.pages == [];
      } else {
        assert run.pages == [Padded(file, size)];
        assert Concat(run.pages, size) == Concat([], size) + Padded(file, size);
      }
    } else {
      var rest := file[size..];
      SplitImage(rest, size);
      assert chunks[1..] == Split(rest, size);
      var r := CopyRun(Split(rest, size), size);
      assert run.pages == [Padded(file[..size], size)] + r.pages;
      assert Padded(file[..size], size) == file[..size];
      ConcatFront(file[..size], r.pages, size);
      assert file == file[..size] + rest;
    }
  }

  /** Concat of a chunk followed by more chunks. */
  lemma {:induction false} ConcatFront(p: seq<uint8>, pages: seq<seq<uint8>>, size: nat)
    requires |p| == size && Full(pages, size)
    ensures Full([p] + pages, size) && Concat([p] + pages, size) == p + Concat(pages, size)
    decreases |pages|
  {
    var all := [p] + pages;
    if |pages| > 0 {
      var n := |pages| - 1;
      ConcatFront(p, pages[..n], size);
      assert all[..|all| - 1] == [p] + pages[..n];
    } else {
      assert all[..0] == [];
    }
  }

  /** A 256-byte file of 128 zeros then 128 ones. */
  function ZerosOnes(): (file: seq<uint8>)
    ensures |file| == LARGE_PAGE
    ensures forall j :: 0 <= j < SMALL_PAGE ==> file[j] == 0
    ensures forall j :: SMALL_PAGE <= j < LARGE_PAGE ==> file[j] == 1
  {
    seq(SMALL_PAGE, _ => 0) + seq(SMALL_PAGE, _ => 1)
  }

  /** How a healthy read with SPM_PAGESIZE 128 hands over ZerosOnes: the two
      halves, then an empty read; the loop programs both halves. */
  lemma ZerosOnesChunks()
    ensures CopyRun(Split(ZerosOnes(), SMALL_PAGE), SMALL_PAGE).pages ==
      [ZerosOnes()[..SMALL_PAGE], ZerosOnes()[SMALL_PAGE..]]
  {
    var file := ZerosOnes();
    var zeros, ones := file[..SMALL_PAGE], file[SMALL_PAGE..];
    assert ones[..SMALL_PAGE] == ones && ones[SMALL_PAGE..] == [];
    assert Split(ones, SMALL_PAGE) == [ones] + Split([], SMALL_PAGE);
    var chunks := Split(file, SMALL_PAGE);
    assert chunks == [zeros, ones, []];
    assert Padded(zeros, SMALL_PAGE) == zeros && Padded(ones, SMALL_PAGE) == ones;
    var empty: seq<seq<uint8>> := [[]];
    assert CopyRun(empty, SMALL_PAGE).pages == [];
    assert chunks[1..][1..] == empty;
    assert CopyRun(chunks[1..], SMALL_PAGE).pages == [ones];
  }

  /** As written, on a healthy read of a file longer than one chunk, flash
      ends up holding only the file's last chunk at page i * 128: for
      ZerosOnes, the first half of the file is not in flash there. */
  lemma FixedPageLosesFile(mem: seq<uint8>, at: nat)
    requires Base(at) + LARGE_PAGE <= |mem| && at + SMALL_PAGE <= |mem|
    ensures var pages := CopyRun(Split(ZerosOnes(), SMALL_PAGE), SMALL_PAGE).pages;
      Full(pages, SMALL_PAGE) && Fits(at, false, SMALL_PAGE, |pages|, |mem|) &&
      Program(mem, at, false, SMALL_PAGE, pages)[at..at + SMALL_PAGE] != ZerosOnes()[..SMALL_PAGE]
  {
    var file := ZerosOnes();
    ZerosOnesChunks();
    var pages := CopyRun(Split(file, SMALL_PAGE), SMALL_PAGE).pages;
    ProgramFixed(mem, at, SMALL_PAGE, pages);
    assert Programmed(mem, at, pages[1])[at] == 1;
    assert Program(mem, at, false, SMALL_PAGE, pages)[at..at + SMALL_PAGE][0] == 1 != file[0];
  }

  /** With the page advanced per chunk but SPM_PAGESIZE left at 128, the
      second chunk's call erases and rewrites the hardware page the first
      chunk went to: for ZerosOnes, flash holds 0xFF where the file's first
      byte should be. */
  lemma HalfPagesLoseFile(mem: seq<uint8>)
    requires APPLICATION_FLASH_ADD + LARGE_PAGE <= |mem|
    ensures var pages := CopyRun(Split(ZerosOnes(), SMALL_PAGE), SMALL_PAGE).pages;
      Full(pages, SMALL_PAGE) && Fits(APPLICATION_FLASH_ADD, true, SMALL_PAGE, |pages|, |mem|) &&
      Program(mem, APPLICATION_FLASH_ADD, true, SMALL_PAGE, pages)[APPLICATION_FLASH_ADD] == 0xFF != ZerosOnes()[0]
  {
    ZerosOnesChunks();
    var pages := CopyRun(Split(ZerosOnes(), SMALL_PAGE), SMALL_PAGE).pages;
    assert Base(Addr(APPLICATION_FLASH_ADD, true, SMALL_PAGE, 1)) == APPLICATION_FLASH_ADD;
    assert pages[..1][..0] == [];
  }

  /** With the page advanced per chunk and SPM_PAGESIZE at the hardware's
      256, a healthy read of a file leaves the file itself in flash from
      APPLICATION_FLASH_ADD on, padded with 0xFF to the end of its last
      page, and nothing else changed. */
  lemma AdvancingStoresFile(mem: seq<uint8>, file: seq<uint8>)
    requires APPLICATION_FLASH_ADD + |file| + LARGE_PAGE <= |mem|
    ensures var pages := CopyRun(Split(file, LARGE_PAGE), LARGE_PAGE).pages;
      Full(pages, LARGE_PAGE) && Fits(APPLICATION_FLASH_ADD, true, LARGE_PAGE, |pages|, |mem|) &&
      var flash := Program(mem, APPLICATION_FLASH_ADD, true, LARGE_PAGE, pages);
      ImageOf(file, flash[APPLICATION_FLASH_ADD..APPLICATION_FLASH_ADD + |pages| * LARGE_PAGE], LARGE_PAGE) &&
      flash[APPLICATION_FLASH_ADD + |pages| * LARGE_PAGE..] == mem[APPLICATION_FLASH_ADD + |pages| * LARGE_PAGE..]
  {
    var pages := CopyRun(Split(file, LARGE_PAGE), LARGE_PAGE).pages;
    SplitImage(file, LARGE_PAGE);
    var image := Concat(pages, LARGE_PAGE);
    ProgramAdvancing(mem, APPLICATION_FLASH_ADD, pages);
    var flash := Program(mem, APPLICATION_FLASH_ADD, true, LARGE_PAGE, pages);
    assert flash[APPLICATION_FLASH_ADD..APPLICATION_FLASH_ADD + |image|] == image;
  }

  /** The loop over the chunks still to come, part way through a run: while
      the last read was full the rest of the run is still ahead; once it was
      short, the run is over and the buffer holds its last chunk. */
  predicate CopyProgress(run: Copy, done: seq<seq<uint8>>, rest: seq<seq<uint8>>, rb: nat, last: seq<uint8>,
                         consumed: nat, size: nat)
    requires PageSizes(size) && ChunkSizes(rest, size)
  {
    (rb == size ==> var r := CopyRun(rest, size);
      run.pages == done + r.pages && run.consumed == consumed + r.consumed && run.last == r.last) &&
    (rb != size ==> run.pages == done && run.consumed == consumed && run.last == last)
  }

  /** One pass of the loop body: the next chunk read, and programmed unless
      it is empty. */
  lemma CopyStep(run: Copy, done: seq<seq<uint8>>, rest: seq<seq<uint8>>, consumed: nat, rb: nat, last: seq<uint8>,
                 size: nat)
    requires PageSizes(size) && ChunkSizes(rest, size) && CopyProgress(run, done, rest, size, last, consumed, size)
    requires rb == |Head(rest)| && last == Padded(Head(rest), size)
    ensures ChunkSizes(Tail(rest), size)
    ensures CopyProgress(run, done + (if rb > 0 then [last] else []), Tail(rest), rb, last,
                         consumed + (|rest| - |Tail(rest)|), size)
  {
    var c := Head(rest);
    if |c| == size {
      var r := CopyRun(rest[1..], size);
      assert CopyRun(rest, size).pages == [Padded(c, size)] + r.pages;
      assert done + ([last] + r.pages) == done + [last] + r.pages;
    }
  }

  /** Programming one more chunk. */
  lemma ProgramAppend(mem: seq<uint8>, at: nat, advance: bool, size: nat, done: seq<seq<uint8>>, p: seq<uint8>)
    requires PageSizes(size) && Full(done, size) && |p| == size && Fits(at, advance, size, |done| + 1, |mem|)
    ensures Full(done + [p], size) && Fits(at, advance, size, |done|, |mem|)
    ensures Program(mem, at, advance, size, done + [p]) ==
      Programmed(Program(mem, at, advance, size, done), Addr(at, advance, size, |done|), p)
    ensures ProgramEvents(at, advance, size, done + [p]) ==
      ProgramEvents(at, advance, size, done) + Silent(Programming(Addr(at, advance, size, |done|), p))
  {
    assert (done + [p])[..|done|] == done;
  }

  /** The page main.c:126 programs every chunk to: APPLICATION_FLASH_ADD +
      i * SPM_PAGESIZE with SPM_PAGESIZE 128, i being the number of files
      the directory scan counted. An odd count lands in the second half of
      a hardware page. */
  function FilePage(files: nat): (at: nat)
    ensures at == APPLICATION_FLASH_ADD + files * SMALL_PAGE && at % SMALL_PAGE == 0
    ensures at % LARGE_PAGE == (files % 2) * SMALL_PAGE
  {
    HalfPage(files);
    APPLICATION_FLASH_ADD + files * SMALL_PAGE
  }

  /** Half page k starts at offset 0 or 128 of a hardware page as k is even
      or odd. */
  lemma HalfPage(k: nat)
    ensures (k * SMALL_PAGE) % SMALL_PAGE == 0 && (k * SMALL_PAGE) % LARGE_PAGE == (k % 2) * SMALL_PAGE
  {
    var q := k / 2;
    assert k * SMALL_PAGE == q * LARGE_PAGE + (k % 2) * SMALL_PAGE;
    Offset256(q, (k % 2) * SMALL_PAGE);
  }

  /** Chunk k of `size` bytes from an aligned start is aligned, and ends
      where chunk k + 1 starts. */
  lemma PageAt(at: nat, k: nat, size: nat)
    requires PageSizes(size) && at % size == 0
    ensures (at + k * size) % size == 0 && at + (k + 1) * size == at + k * size + size
  {
    var n := at / size;
    if size == SMALL_PAGE {
      assert at + k * SMALL_PAGE == (n + k) * SMALL_PAGE;
    } else {
      assert at + k * LARGE_PAGE == (n + k) * LARGE_PAGE;
    }
  }

  /** The reader asking for `size` bytes a read, the flash with a blank page
      buffer, the `size`-byte buffer apart from flash, and the status
      register as it was at the start. */
  ghost predicate Ready(reader: FileReader, m: Memory, buf: array<uint8>, sreg0: uint8, size: nat)
    reads reader, m
  {
    PageSizes(size) && reader.Valid() && reader.size == size && m.Valid() && m.buffer == BlankWords() &&
    buf.Length == size && buf != m.mem && m.sreg == sreg0
  }

  /** What one pass of the loop body did, as values: it read the next chunk
      of `rest` (rb its length, `last` the buffer after the read) and, when
      the chunk was not empty, programmed the buffer at addr, which rewrote
      the hardware page holding addr; an empty chunk programmed nothing. */
  ghost predicate ChunkStored(rest: seq<seq<uint8>>, size: nat, addr: nat, rb: nat, last: seq<uint8>,
                              mem: seq<uint8>, events: seq<Event>, mem': seq<uint8>, events': seq<Event>)
    requires PageSizes(size) && ChunkSizes(rest, size)
  {
    rb == |Head(rest)| && last == Padded(Head(rest), size) &&
    (rb > 0 ==> (Base(addr) + LARGE_PAGE <= |mem| && mem' == Programmed(mem, addr, last) &&
                 events' == events + Silent(Programming(addr, last)))) &&
    (rb == 0 ==> mem' == mem && events' == events)
  }

  /** The loop body (FAT16_bootloader/main.c:124-126): the buffer set to
      0xFF, the next chunk read into it, and the buffer programmed at addr
      when the read returned any bytes, which rewrites the whole hardware
      page holding addr. */
  method CopyChunk(reader: FileReader, m: Memory, buf: array<uint8>, addr: nat, size: nat, ghost sreg0: uint8)
    returns (rb: nat)
    requires Ready(reader, m, buf, sreg0, size) && addr % size == 0
    requires |Head(reader.Rest())| > 0 ==> m.HasPage(addr)
    modifies reader, buf, m, m.mem
    ensures Ready(reader, m, buf, sreg0, size) && reader.Rest() == Tail(old(reader.Rest()))
    ensures ChunkStored(old(reader.Rest()), size, addr, rb, buf[..], old(m.mem[..]), old(m.events), m.mem[..],
                        m.events)
  {
    ghost var rest, mem0, events0 := reader.Rest(), m.mem[..], m.events;
    forall j | 0 <= j < buf.Length {
      buf[j] := 0xFF;
    }
    assert buf[..] == Blank(size);
    rb := reader.Read(buf);
    assert buf[..] == Padded(Head(rest), size);
    if rb > 0 {
      assert buf[0..size] == buf[..];
      ProgramPage(m, addr, buf, 0, size);
    }
  }

  /** Where the copy loop stands, as values: the run so far (CopyProgress),
      and flash and the event log holding exactly the chunks programmed so
      far, each at its address. */
  ghost predicate CopyInv(run: Copy, done: seq<seq<uint8>>, rest: seq<seq<uint8>>, rb: nat, last: seq<uint8>,
                          consumed: nat, mem: seq<uint8>, events: seq<Event>, mem0: seq<uint8>, events0: seq<Event>,
                          at: nat, advance: bool, size: nat)
  {
    PageSizes(size) && ChunkSizes(rest, size) && CopyProgress(run, done, rest, rb, last, consumed, size) &&
    Full(done, size) && Fits(at, advance, size, |done|, |mem0|) &&
    mem == Program(mem0, at, advance, size, done) && events == events0 + ProgramEvents(at, advance, size, done)
  }

  /** Before the first read nothing is programmed and the whole run is ahead. */
  lemma CopyStart(rest: seq<seq<uint8>>, last: seq<uint8>, mem0: seq<uint8>, events0: seq<Event>, at: nat,
                  advance: bool, size: nat)
    requires PageSizes(size) && ChunkSizes(rest, size)
    ensures CopyInv(CopyRun(rest, size), [], rest, size, last, 0, mem0, events0, mem0, events0, at, advance, size)
  {
    var none: seq<seq<uint8>> := [];
    assert Full(none, size);
    assert Fits(at, advance, size, 0, |mem0|);
    assert Program(mem0, at, advance, size, none) == mem0;
    assert ProgramEvents(at, advance, size, none) == [];
    assert CopyRun(rest, size).pages == [] + CopyRun(rest, size).pages;
    assert CopyProgress(CopyRun(rest, size), none, rest, size, last, 0, size);
  }

  /** Once a read came back short, the run is over: flash and the log hold
      its chunks, each programmed at its address, and the buffer its last
      chunk. */
  lemma CopyFinish(run: Copy, done: seq<seq<uint8>>, rest: seq<seq<uint8>>, rb: nat, last: seq<uint8>,
                   consumed: nat, mem: seq<uint8>, events: seq<Event>, mem0: seq<uint8>, events0: seq<Event>,
                   at: nat, advance: bool, size: nat)
    requires rb != size
    requires CopyInv(run, done, rest, rb, last, consumed, mem, events, mem0, events0, at, advance, size)
    ensures Full(run.pages, size) && Fits(at, advance, size, |run.pages|, |mem0|)
    ensures mem == Program(mem0, at, advance, size, run.pages)
    ensures events == events0 + ProgramEvents(at, advance, size, run.pages)
    ensures consumed == run.consumed && last == run.last
  {
  }

  /** One pass of the copy loop (FAT16_bootloader/main.c:122-127) at the
      address of the next chunk, as values: the loop moves on by one chunk,
      and by one programmed chunk when it was not empty. */
  method CopyPass(reader: FileReader, m: Memory, buf: array<uint8>, addr: nat, size: nat, ghost sreg0: uint8,
                  ghost run: Copy, ghost done: seq<seq<uint8>>, ghost next0: nat, ghost mem0: seq<uint8>,
                  ghost events0: seq<Event>, ghost at: nat, ghost advance: bool)
    returns (rb: nat, ghost done': seq<seq<uint8>>)
    requires Ready(reader, m, buf, sreg0, size) && next0 <= reader.next && m.mem.Length == |mem0|
    requires at % size == 0 && Fits(at, advance, size, |run.pages|, |mem0|) && addr == Addr(at, advance, size, |done|)
    requires CopyInv(run, done, reader.Rest(), size, buf[..], reader.next - next0, m.mem[..], m.events,
                     mem0, events0, at, advance, size)
    modifies reader, buf, m, m.mem
    ensures Ready(reader, m, buf, sreg0, size) && next0 <= reader.next && m.mem.Length == |mem0|
    ensures |done'| == |done| + (if rb > 0 then 1 else 0)
    ensures |reader.Rest()| + (if rb == size then 1 else 0) <= |old(reader.Rest())|
    ensures CopyInv(run, done', reader.Rest(), rb, buf[..], reader.next - next0, m.mem[..], m.events,
                    mem0, events0, at, advance, size)
  {
    ghost var rest, consumed, mem, events := reader.Rest(), reader.next - next0, m.mem[..], m.events;
    assert run.pages == done + CopyRun(rest, size).pages;
    CopyRoom(run, done, rest, at, advance, size, |mem0|);
    if |Head(rest)| > 0 {
      assert Base(Addr(at, advance, size, |done|)) + LARGE_PAGE <= |mem0|;
    }
    rb := CopyChunk(reader, m, buf, addr, size, sreg0);
    assert ChunkStored(rest, size, addr, rb, buf[..], mem, events, m.mem[..], m.events);
    done' := done + (if rb > 0 then [buf[..]] else []);
    CopyAdvance(run, done, rest, consumed, rb, buf[..], mem, events, m.mem[..], m.events, mem0, events0, at, advance,
                size);
  }

  /** The loop state after one more chunk, as values: the chunk read and,
      unless it was empty, programmed at the address of the next chunk. */
  lemma CopyAdvance(run: Copy, done: seq<seq<uint8>>, rest: seq<seq<uint8>>, consumed: nat, rb: nat,
                    last: seq<uint8>, mem: seq<uint8>, events: seq<Event>, mem': seq<uint8>, events': seq<Event>,
                    mem0: seq<uint8>, events0: seq<Event>, at: nat, advance: bool, size: nat)
    requires CopyInv(run, done, rest, size, last, consumed, mem, events, mem0, events0, at, advance, size)
    requires Fits(at, advance, size, |run.pages|, |mem0|)
    requires rb > 0 ==> Fits(at, advance, size, |done| + 1, |mem0|)
    requires ChunkStored(rest, size, Addr(at, advance, size, |done|), rb, last, mem, events, mem', events')
    ensures CopyInv(run, done + (if rb > 0 then [last] else []), Tail(rest), rb, last,
                    consumed + (|rest| - |Tail(rest)|), mem', events', mem0, events0, at, advance, size)
  {
    CopyStep(run, done, rest, consumed, rb, last, size);
    if rb > 0 {
      ProgramAppend(mem0, at, advance, size, done, last);
      Associative(events0, ProgramEvents(at, advance, size, done), events'[|events|..]);
    } else {
      assert done + [] == done;
    }
  }

  /** The copy loop as written (FAT16_bootloader/main.c:118-129), with
      SPM_PAGESIZE 128 (main.c:41): nothing happens unless pf_open
      succeeded; otherwise every chunk of the run is programmed at
      APPLICATION_FLASH_ADD + i * 128, where i is the file count of the
      directory scan, each call rewriting the hardware page that holds it. */
  method CopyFile(reader: FileReader, m: Memory, buf: array<uint8>, isOpen: bool, files: nat)
    requires Ready(reader, m, buf, m.sreg, SMALL_PAGE) && Base(FilePage(files)) + LARGE_PAGE <= m.mem.Length
    modifies reader, buf, m, m.mem
    ensures Ready(reader, m, buf, old(m.sreg), SMALL_PAGE)
    ensures var run := CopyRun(old(reader.Rest()), SMALL_PAGE); var at := FilePage(files);
      if isOpen then
        Fits(at, false, SMALL_PAGE, |run.pages|, m.mem.Length) &&
        m.mem[..] == Program(old(m.mem[..]), at, false, SMALL_PAGE, run.pages) &&
        m.events == old(m.events) + ProgramEvents(at, false, SMALL_PAGE, run.pages) &&
        reader.next == old(reader.next) + run.consumed && buf[..] == run.last
      else
        m.mem[..] == old(m.mem[..]) && m.events == old(m.events) && reader.next == old(reader.next) &&
        buf[..] == old(buf[..])
  {
    var at := FilePage(files);
    if !isOpen {
      return;
    }
    ghost var sreg0, next0, mem0, events0 := m.sreg, reader.next, m.mem[..], m.events;
    ghost var run := CopyRun(reader.Rest(), SMALL_PAGE);
    ghost var done: seq<seq<uint8>> := [];
    CopyStart(reader.Rest(), buf[..], mem0, events0, at, false, SMALL_PAGE);
    var rb: nat := SMALL_PAGE;
    while rb == SMALL_PAGE
      invariant Ready(reader, m, buf, sreg0, SMALL_PAGE) && next0 <= reader.next && m.mem.Length == |mem0|
      invariant CopyInv(run, done, reader.Rest(), rb, buf[..], reader.next - next0, m.mem[..], m.events,
                        mem0, events0, at, false, SMALL_PAGE)
      decreases |reader.Rest()| + (if rb == SMALL_PAGE then 1 else 0)
    {
      rb, done := CopyPass(reader, m, buf, at, SMALL_PAGE, sreg0, run, done, next0, mem0, events0, at, false);
    }
    CopyFinish(run, done, reader.Rest(), rb, buf[..], reader.next - next0, m.mem[..], m.events,
               mem0, events0, at, false, SMALL_PAGE);
  }

  /** The copy loop with the page advanced after each programmed chunk, for
      SPM_PAGESIZE = size: the run's chunks are programmed one after the
      other from APPLICATION_FLASH_ADD. With size 256 that stores the file
      (AdvancingStoresFile); with 128 each call blanks its page's other half
      (HalfPagesLoseFile). */
  method CopyFileAdvancing(reader: FileReader, m: Memory, buf: array<uint8>, isOpen: bool, size: nat)
    requires Ready(reader, m, buf, m.sreg, size)
    requires Fits(APPLICATION_FLASH_ADD, true, size, |CopyRun(reader.Rest(), size).pages|, m.mem.Length)
    modifies reader, buf, m, m.mem
    ensures Ready(reader, m, buf, old(m.sreg), size)
    ensures var run := CopyRun(old(reader.Rest()), size);
      if isOpen then
        m.mem[..] == Program(old(m.mem[..]), APPLICATION_FLASH_ADD, true, size, run.pages) &&
        m.events == old(m.events) + ProgramEvents(APPLICATION_FLASH_ADD, true, size, run.pages) &&
        reader.next == old(reader.next) + run.consumed && buf[..] == run.last
      else
        m.mem[..] == old(m.mem[..]) && m.events == old(m.events) && reader.next == old(reader.next) &&
        buf[..] == old(buf[..])
  {
    if !isOpen {
      return;
    }
    ghost var sreg0, next0, mem0, events0 := m.sreg, reader.next, m.mem[..], m.events;
    ghost var run := CopyRun(reader.Rest(), size);
    ghost var done: seq<seq<uint8>> := [];
    CopyStart(reader.Rest(), buf[..], mem0, events0, APPLICATION_FLASH_ADD, true, size);
    var addr: nat := APPLICATION_FLASH_ADD;
    var rb: nat := size;
    while rb == size
      invariant Ready(reader, m, buf, sreg0, size) && next0 <= reader.next && m.mem.Length == |mem0|
      invariant addr == Addr(APPLICATION_FLASH_ADD, true, size, |done|)
      invariant CopyInv(run, done, reader.Rest(), rb, buf[..], reader.next - next0, m.mem[..], m.events,
                        mem0, events0, APPLICATION_FLASH_ADD, true, size)
      decreases |reader.Rest()| + (if rb == size then 1 else 0)
    {
      ghost var k := |done|;
      rb, done := CopyPass(reader, m, buf, addr, size, sreg0, run, done, next0, mem0, events0,
                           APPLICATION_FLASH_ADD, true);
      if rb > 0 {
        PageAt(APPLICATION_FLASH_ADD, k, size);
        addr := addr + size;
      }
    }
    CopyFinish(run, done, reader.Rest(), rb, buf[..], reader.next - next0, m.mem[..], m.events,
               mem0, events0, APPLICATION_FLASH_ADD, true, size);
  }

  /** The next chunk's address is aligned, and while the run goes on, a
      non-empty next chunk has its place inside the run's chunks. */
  lemma CopyRoom(run: Copy, done: seq<seq<uint8>>, rest: seq<seq<uint8>>, at: nat, advance: bool, size: nat,
                 memSize: nat)
    requires PageSizes(size) && ChunkSizes(rest, size) && run.pages == done + CopyRun(rest, size).pages
    requires at % size == 0 && Fits(at, advance, size, |run.pages|, memSize)
    ensures Addr(at, advance, size, |done|) % size == 0
    ensures |Head(rest)| > 0 ==> Fits(at, advance, size, |done| + 1, memSize)
  {
    PageAt(at, |done|, size);
    if |Head(rest)| > 0 {
      assert |CopyRun(rest, size).pages| > 0;
    }
  }

  /** Appending b then c is appending b + c. */
  lemma Associative<T>(a: seq<T>, b: seq<T>, c: seq<T>)
    ensures a + b + c == a + (b + c)
  {
  }

  /** Scaling by a chunk size keeps order. */
  lemma Scaled(j: nat, k: nat, size: nat)
    requires j <= k
    ensures j * size <= k * size
  {
  }
}
