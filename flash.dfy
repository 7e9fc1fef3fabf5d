/** The self-programming side of the two bootloaders: the flash array, the
    temporary page buffer that boot_page_fill loads word by word, the status
    register whose I bit enables interrupts, and boot_program_page
    (SD_Bootloader.c:101-128, FAT16_bootloader/main.c:135-162), which is the
    same procedure in both with a different SPM_PAGESIZE. Erase and write
    always act on a whole 256-byte hardware page of the ATmega644P, whatever
    number of bytes a call loads. */
module Flash {
  import opened Bytes

  /** SPM_PAGESIZE of the ATmega644P: the hardware page, the unit that
      boot_page_erase and boot_page_write act on. */
  const LARGE_PAGE: nat := 256
  /** The SPM_PAGESIZE FAT16_bootloader/main.c:41 redefines: the bytes its
      boot_program_page loads per call, half a hardware page. */
  const SMALL_PAGE: nat := 128

  /** The SPM_PAGESIZE a bootloader is built with: the bytes one
      boot_program_page call loads. */
  predicate PageSizes(size: nat) {
    size == SMALL_PAGE || size == LARGE_PAGE
  }

  /** The global-interrupt-enable bit of SREG. */
  const I_BIT: uint8 := 0x80

  /** A self-programming operation, as the hardware sees it. */
  datatype Op = Erase(page: nat) | FillWord(addr: nat, w: uint16) | WritePage(page: nat)

  /** An operation and whether interrupts were enabled while it ran. */
  datatype Event = Event(op: Op, interrupts: bool)

  /** Byte j of a page held as little-endian words. */
  function PageByte(words: seq<uint16>, j: nat): (b: uint8)
    requires j < 2 * |words|
    ensures j % 2 == 0 ==> b == (words[j / 2] & 0xFF) as uint8
    ensures j % 2 == 1 ==> b == (words[j / 2] >> 8) as uint8
  {
    var w := words[j / 2];
    if j % 2 == 0 then (w & 0xFF) as uint8 else (w >> 8) as uint8
  }

  /** The words boot_program_page loads for a page of bytes: byte 2k is the
      low half of word k and byte 2k+1 the high half. */
  function Words(bytes: seq<uint8>): (words: seq<uint16>)
    requires |bytes| % 2 == 0
    ensures |words| == |bytes| / 2
    ensures forall k :: 0 <= k < |words| ==> words[k] == LittleEndianWord(bytes[2 * k], bytes[2 * k + 1])
  {
    seq(|bytes| / 2, k requires 0 <= k < |bytes| / 2 => LittleEndianWord(bytes[2 * k], bytes[2 * k + 1]))
  }

  /** Writing the words of a page gives back its bytes. */
  lemma WordsRoundTrip(bytes: seq<uint8>, j: nat)
    requires |bytes| % 2 == 0 && j < |bytes|
    ensures PageByte(Words(bytes), j) == bytes[j]
  {
    var k := j / 2;
    assert j == 2 * k || j == 2 * k + 1;
  }

  /** The bytes of a page held as little-endian words. */
  function PageBytes(words: seq<uint16>): (bytes: seq<uint8>)
    ensures |bytes| == 2 * |words|
    ensures forall j :: 0 <= j < |bytes| ==> bytes[j] == PageByte(words, j)
  {
    seq(2 * |words|, j requires 0 <= j < 2 * |words| => PageByte(words, j))
  }

  /** Writing the words of a page gives back all of its bytes. */
  lemma PageBytesWords(bytes: seq<uint8>)
    requires |bytes| % 2 == 0
    ensures PageBytes(Words(bytes)) == bytes
  {
    var r := PageBytes(Words(bytes));
    forall j | 0 <= j < |bytes|
      ensures r[j] == bytes[j]
    {
      WordsRoundTrip(bytes, j);
    }
  }

  /** An erased page: n bytes of 0xFF. */
  function Blank(n: nat): (bytes: seq<uint8>)
    ensures |bytes| == n && forall j :: 0 <= j < n ==> bytes[j] == 0xFF
  {
    seq(n, _ => 0xFF)
  }

  /** The start of the hardware page that holds addr. */
  function Base(addr: nat): (base: nat)
    ensures base % LARGE_PAGE == 0 && base <= addr < base + LARGE_PAGE
    ensures addr % LARGE_PAGE == 0 ==> base == addr
  {
    addr - addr % LARGE_PAGE
  }

  /** The page buffer as the hardware leaves it after a reset or a page
      write: every word 0xFFFF. */
  function BlankWords(): (words: seq<uint16>)
    ensures |words| == LARGE_PAGE / 2 && forall k :: 0 <= k < |words| ==> words[k] == 0xFFFF
  {
    seq(LARGE_PAGE / 2, _ => 0xFFFF)
  }

  class Memory {
    /** The flash contents. */
    const mem: array<uint8>
    /** The temporary page buffer, one word per two bytes of a hardware page. */
    var buffer: seq<uint16>
    /** The status register. */
    var sreg: uint8
    /** Every self-programming operation so far. */
    ghost var events: seq<Event>

    ghost predicate Valid()
      reads this
    {
      |buffer| == LARGE_PAGE / 2
    }

    /** The hardware page that holds addr lies inside flash. */
    predicate HasPage(addr: nat)
      reads this
    {
      Base(addr) + LARGE_PAGE <= mem.Length
    }

    constructor (contents: array<uint8>, status: uint8)
      ensures Valid() && mem == contents && sreg == status && events == [] && buffer == BlankWords()
    {
      mem := contents;
      buffer := BlankWords();
      sreg := status;
      events := [];
    }

    function Interrupts(): (on: bool)
      reads this
      ensures on <==> sreg & I_BIT != 0
    {
      sreg & I_BIT != 0
    }

    /** cli(): the I bit cleared, the other flags kept. */
    method Cli()
      modifies this
      ensures sreg == old(sreg) & !I_BIT && !Interrupts()
      ensures buffer == old(buffer) && events == old(events)
    {
      sreg := sreg & !I_BIT;
    }

    /** SREG = value. */
    method SetSreg(value: uint8)
      modifies this
      ensures sreg == value && buffer == old(buffer) && events == old(events)
    {
      sreg := value;
    }

    /** boot_page_erase(addr): every byte of the hardware page that holds
        addr becomes 0xFF, whatever part of it addr points into. */
    method ErasePage(addr: nat)
      requires HasPage(addr)
      modifies this, mem
      ensures mem[..] == Overwrite(old(mem[..]), Base(addr), Blank(LARGE_PAGE))
      ensures events == old(events) + [Event(Erase(addr), Interrupts())]
      ensures sreg == old(sreg) && buffer == old(buffer)
    {
      var base := Base(addr);
      var j := 0;
      while j < LARGE_PAGE
        invariant 0 <= j <= LARGE_PAGE
        invariant forall k :: 0 <= k < mem.Length ==> mem[k] == if base <= k < base + j then 0xFF else old(mem[k])
        invariant sreg == old(sreg) && buffer == old(buffer) && events == old(events)
      {
        mem[base + j] := 0xFF;
        j := j + 1;
      }
      OverwriteFrom(old(mem[..]), mem[..], base, Blank(LARGE_PAGE));
      events := events + [Event(Erase(addr), Interrupts())];
    }

    /** boot_page_fill(addr, w): the word goes into the buffer slot for the
        address's place in its hardware page. */
    method Fill(addr: nat, w: uint16)
      requires Valid()
      modifies this
      ensures Valid()
      ensures buffer == old(buffer)[(addr % LARGE_PAGE) / 2 := w]
      ensures events == old(events) + [Event(FillWord(addr, w), Interrupts())]
      ensures sreg == old(sreg)
    {
      buffer := buffer[(addr % LARGE_PAGE) / 2 := w];
      events := events + [Event(FillWord(addr, w), Interrupts())];
    }

    /** boot_page_write(addr): the whole buffer becomes the hardware page
        that holds addr, and the buffer is blank again afterwards. */
    method Write(addr: nat)
      requires Valid() && HasPage(addr)
      modifies this, mem
      ensures Valid()
      ensures mem[..] == Overwrite(old(mem[..]), Base(addr), PageBytes(old(buffer)))
      ensures buffer == BlankWords()
      ensures events == old(events) + [Event(WritePage(addr), Interrupts())]
      ensures sreg == old(sreg)
    {
      var base := Base(addr);
      var j := 0;
      while j < LARGE_PAGE
        invariant 0 <= j <= LARGE_PAGE
        invariant sreg == old(sreg) && buffer == old(buffer) && events == old(events)
        invariant forall k :: 0 <= k < mem.Length ==>
          mem[k] == if base <= k < base + j then PageByte(buffer, k - base) else old(mem[k])
      {
        mem[base + j] := PageByte(buffer, j);
        j := j + 1;
      }
      OverwriteFrom(old(mem[..]), mem[..], base, PageBytes(buffer));
      events := events + [Event(WritePage(addr), Interrupts())];
      buffer := BlankWords();
    }
  }

  /** The operations boot_program_page issues for a page and its bytes:
      the erase, one fill per word in address order, the write. */
  function Programming(page: nat, bytes: seq<uint8>): (ops: seq<Op>)
    requires |bytes| % 2 == 0
    ensures |ops| == |bytes| / 2 + 2
    ensures ops[0] == Erase(page) && ops[|ops| - 1] == WritePage(page)
  {
    [Erase(page)] + FillOps(page, Words(bytes)) + [WritePage(page)]
  }

  /** boot_page_fill(page + 2k, word k) for each word, in order. */
  function FillOps(page: nat, words: seq<uint16>): (ops: seq<Op>)
    ensures |ops| == |words|
    ensures forall k :: 0 <= k < |words| ==> ops[k] == FillWord(page + 2 * k, words[k])
  {
    seq(|words|, k requires 0 <= k < |words| => FillWord(page + 2 * k, words[k]))
  }

  /** Loading `size` bytes from an address that is a multiple of `size`
      stays inside one hardware page, from an even offset; a whole-page
      load starts the page. */
  lemma Within(page: nat, size: nat)
    requires PageSizes(size) && page % size == 0
    ensures page % LARGE_PAGE + size <= LARGE_PAGE && (page % LARGE_PAGE) % 2 == 0
    ensures size == LARGE_PAGE ==> page % LARGE_PAGE == 0
  {
    var n := page / size;
    assert page == n * size;
  }

  /** Byte i of such a load goes to buffer slot (page % 256) / 2 + i / 2. */
  lemma SlotOf(page: nat, size: nat, i: nat)
    requires PageSizes(size) && page % size == 0 && i < size && i % 2 == 0
    ensures ((page + i) % LARGE_PAGE) / 2 == (page % LARGE_PAGE) / 2 + i / 2
  {
    Within(page, size);
    var q := Base(page) / LARGE_PAGE;
    assert Base(page) == q * LARGE_PAGE;
    Offset256(q, page % LARGE_PAGE + i);
  }

  /** An offset below 256 from a multiple of 256 is its own remainder. */
  lemma Offset256(n: nat, i: nat)
    requires i < 256
    ensures (n * 256 + i) % 256 == i
  {
  }

  /** The page buffer after boot_page_fill(page + 2k, words[k]) for each k:
      word k in slot (page % 256) / 2 + k, every other slot as it was. */
  function Loaded(buffer: seq<uint16>, page: nat, words: seq<uint16>): (r: seq<uint16>)
    ensures |r| == |buffer|
  {
    var o := (page % LARGE_PAGE) / 2;
    seq(|buffer|, k requires 0 <= k < |buffer| => if o <= k < o + |words| then words[k - o] else buffer[k])
  }

  /** The hardware page boot_page_write stores after a blank buffer was
      loaded with `bytes` from address `page` on: the bytes at the page
      offset of `page`, 0xFF in every other byte of the page. */
  function Image(page: nat, bytes: seq<uint8>): (image: seq<uint8>)
    ensures |image| == LARGE_PAGE
  {
    var o := page % LARGE_PAGE;
    seq(LARGE_PAGE, j requires 0 <= j < LARGE_PAGE => if o <= j < o + |bytes| then bytes[j - o] else 0xFF)
  }

  /** Flash after boot_program_page(page, bytes) from a blank page buffer:
      the bytes land at `page`, every other byte of the hardware page that
      holds `page` is erased to 0xFF, and the rest of flash is unchanged. */
  function Programmed(mem: seq<uint8>, page: nat, bytes: seq<uint8>): (r: seq<uint8>)
    requires Base(page) + LARGE_PAGE <= |mem|
    ensures |r| == |mem|
    ensures page % LARGE_PAGE + |bytes| <= LARGE_PAGE ==> r[page..page + |bytes|] == bytes
    ensures forall j :: Base(page) <= j < Base(page) + LARGE_PAGE && !(page <= j < page + |bytes|) ==> r[j] == 0xFF
    ensures forall j :: 0 <= j < |mem| && !(Base(page) <= j < Base(page) + LARGE_PAGE) ==> r[j] == mem[j]
  {
    var r := Overwrite(mem, Base(page), Image(page, bytes));
    forall j | Base(page) <= j < Base(page) + LARGE_PAGE
      ensures r[j] == Image(page, bytes)[j - Base(page)]
    {
      assert r[Base(page)..Base(page) + LARGE_PAGE][j - Base(page)] == r[j];
    }
    r
  }

  /** A whole-page load from the start of a page stores exactly its bytes
      there. */
  lemma ProgrammedWhole(mem: seq<uint8>, page: nat, bytes: seq<uint8>)
    requires page % LARGE_PAGE == 0 && |bytes| == LARGE_PAGE && page + LARGE_PAGE <= |mem|
    ensures Programmed(mem, page, bytes) == Overwrite(mem, page, bytes)
  {
    assert Image(page, bytes) == bytes;
  }

  /** boot_program_page (SD_Bootloader.c:101-128, FAT16_bootloader/main.c:
      135-162) with SPM_PAGESIZE = size: with interrupts disabled, erase the
      hardware page holding `page`, load the little-endian words of
      buf[from..from+size] from `page` on, write the page, and restore SREG.
      The whole hardware page is rewritten from the buffer: the loaded words
      at their slots and whatever the buffer held in the others, which is
      0xFF when it started blank; with size 256 the page holds exactly the
      bytes. Nothing else in flash changes. */
  method ProgramPage(m: Memory, page: nat, buf: array<uint8>, from: nat, size: nat)
    requires m.Valid() && PageSizes(size) && page % size == 0 && m.HasPage(page)
    requires from + size <= buf.Length && buf != m.mem
    modifies m, m.mem
    ensures m.Valid() && m.buffer == BlankWords() && m.sreg == old(m.sreg)
    ensures m.mem[..] ==
      Overwrite(old(m.mem[..]), Base(page), PageBytes(Loaded(old(m.buffer), page, Words(buf[from..from + size]))))
    ensures old(m.buffer) == BlankWords() ==> m.mem[..] == Programmed(old(m.mem[..]), page, buf[from..from + size])
    ensures size == LARGE_PAGE ==> m.mem[..] == Overwrite(old(m.mem[..]), page, buf[from..from + size])
    ensures m.events == old(m.events) + Silent(Programming(page, buf[from..from + size]))
  {
    ghost var bytes := buf[from..from + size];
    ghost var mem0, events0, buffer0 := m.mem[..], m.events, m.buffer;
    Within(page, size);
    var sreg := m.sreg;
    m.Cli();
    m.ErasePage(page);
    ghost var events1 := m.events;
    LoadWords(m, page, buf, from, size);
    ghost var events2 := m.events;
    ghost var image := PageBytes(m.buffer);
    m.Write(page);
    m.SetSreg(sreg);
    OverwriteTwice(mem0, Base(page), Blank(LARGE_PAGE), image);
    ProgrammedEvents(events0, events1, events2, m.events, page, bytes);
    if buffer0 == BlankWords() {
      LoadedBlank(page, bytes);
    }
    if size == LARGE_PAGE {
      LoadedWhole(buffer0, page, bytes);
      PageBytesWords(bytes);
    }
  }

  /** Loading a blank buffer and writing it gives the page Image. */
  lemma LoadedBlank(page: nat, bytes: seq<uint8>)
    requires |bytes| % 2 == 0 && page % LARGE_PAGE + |bytes| <= LARGE_PAGE && (page % LARGE_PAGE) % 2 == 0
    ensures PageBytes(Loaded(BlankWords(), page, Words(bytes))) == Image(page, bytes)
  {
    var o := page % LARGE_PAGE;
    var words := Loaded(BlankWords(), page, Words(bytes));
    var r := PageBytes(words);
    forall j | 0 <= j < LARGE_PAGE
      ensures r[j] == Image(page, bytes)[j]
    {
      if o <= j < o + |bytes| {
        assert words[j / 2] == Words(bytes)[j / 2 - o / 2];
        assert (j - o) / 2 == j / 2 - o / 2 && (j - o) % 2 == j % 2;
        WordsRoundTrip(bytes, j - o);
      } else {
        assert words[j / 2] == 0xFFFF;
      }
    }
  }

  /** A whole-page load replaces every slot of the buffer. */
  lemma LoadedWhole(buffer: seq<uint16>, page: nat, bytes: seq<uint8>)
    requires |buffer| == LARGE_PAGE / 2 && |bytes| == LARGE_PAGE && page % LARGE_PAGE == 0
    ensures Loaded(buffer, page, Words(bytes)) == Words(bytes)
  {
  }

  /** The erase, the fills and the write, each with interrupts disabled,
      are the silent run of Programming. */
  lemma ProgrammedEvents(events0: seq<Event>, events1: seq<Event>, events2: seq<Event>, events3: seq<Event>,
                         page: nat, bytes: seq<uint8>)
    requires |bytes| % 2 == 0
    requires events1 == events0 + [Event(Erase(page), false)]
    requires events1 <= events2 && events2[|events1|..] == Silent(FillOps(page, Words(bytes)))
    requires events3 == events2 + [Event(WritePage(page), false)]
    ensures events3 == events0 + Silent(Programming(page, bytes))
  {
    SilentProgramming(page, bytes);
    assert events2 == events1 + events2[|events1|..];
  }

  lemma SilentProgramming(page: nat, bytes: seq<uint8>)
    requires |bytes| % 2 == 0
    ensures Silent(Programming(page, bytes)) ==
      [Event(Erase(page), false)] + Silent(FillOps(page, Words(bytes))) + [Event(WritePage(page), false)]
  {
    var a := Silent(Programming(page, bytes));
    var b := [Event(Erase(page), false)] + Silent(FillOps(page, Words(bytes))) + [Event(WritePage(page), false)];
    forall j | 0 <= j < |a|
      ensures a[j] == b[j]
    {
      if 0 < j < |a| - 1 {
        assert Programming(page, bytes)[j] == FillOps(page, Words(bytes))[j - 1];
      }
    }
  }

  /** s with the bytes from `at` on replaced by b. */
  function Overwrite(s: seq<uint8>, at: nat, b: seq<uint8>): (r: seq<uint8>)
    requires at + |b| <= |s|
    ensures |r| == |s| && r[at..at + |b|] == b
    ensures forall j :: 0 <= j < |s| && !(at <= j < at + |b|) ==> r[j] == s[j]
  {
    s[..at] + b + s[at + |b|..]
  }

  /** A sequence that holds b at `at` and agrees with s elsewhere is s
      overwritten with b. */
  lemma OverwriteFrom(s: seq<uint8>, r: seq<uint8>, at: nat, b: seq<uint8>)
    requires at + |b| <= |s| == |r|
    requires forall j :: 0 <= j < |s| ==> r[j] == if at <= j < at + |b| then b[j - at] else s[j]
    ensures r == Overwrite(s, at, b)
  {
    var w := Overwrite(s, at, b);
    forall j | 0 <= j < |s|
      ensures r[j] == w[j]
    {
      if at <= j < at + |b| {
        assert w[j] == w[at..at + |b|][j - at];
      }
    }
  }

  /** A second write of the same place replaces the first. */
  lemma OverwriteTwice(s: seq<uint8>, at: nat, b: seq<uint8>, c: seq<uint8>)
    requires at + |b| <= |s| && |c| == |b|
    ensures Overwrite(Overwrite(s, at, b), at, c) == Overwrite(s, at, c)
  {
    var t := Overwrite(s, at, b);
    assert t[..at] == s[..at];
    assert t[at + |c|..] == s[at + |c|..];
  }

  /** Two writes of adjacent blocks are one write of both. */
  lemma OverwriteAdjacent(s: seq<uint8>, at: nat, b: seq<uint8>, c: seq<uint8>)
    requires at + |b| + |c| <= |s|
    ensures Overwrite(Overwrite(s, at, b), at + |b|, c) == Overwrite(s, at, b + c)
  {
    var t := Overwrite(s, at, b);
    assert t[..at + |b|] == s[..at] + b;
    assert t[at + |b| + |c|..] == s[at + |b| + |c|..];
  }

  /** Writing the next block after a written prefix extends the prefix. */
  lemma OverwriteExtends(base: seq<uint8>, written: seq<uint8>, b: seq<uint8>)
    requires |written| + |b| <= |base|
    ensures Overwrite(written + base[|written|..], |written|, b) == (written + b) + base[|written + b|..]
  {
    var s := written + base[|written|..];
    assert s[..|written|] == written;
    assert s[|written| + |b|..] == base[|written + b|..];
  }

  /** The fill loop of boot_program_page (SD_Bootloader.c:114-120,
      FAT16_bootloader/main.c:148-154): word k of the bytes,
      buf[from+2k] | buf[from+2k+1] << 8, loaded at page + 2k. */
  method LoadWords(m: Memory, page: nat, buf: array<uint8>, from: nat, size: nat)
    requires m.Valid() && PageSizes(size) && page % size == 0 && from + size <= buf.Length && !m.Interrupts()
    modifies m
    ensures m.Valid() && m.sreg == old(m.sreg)
    ensures m.buffer == Loaded(old(m.buffer), page, Words(buf[from..from + size]))
    ensures old(m.events) <= m.events
    ensures m.events[|old(m.events)|..] == Silent(FillOps(page, Words(buf[from..from + size])))
  {
    ghost var words := Words(buf[from..from + size]);
    var i := 0;
    while i < size
      invariant 0 <= i <= size && i % 2 == 0
      invariant m.Valid() && m.sreg == old(m.sreg) && !m.Interrupts()
      invariant m.buffer == Loaded(old(m.buffer), page, words[..i / 2])
      invariant m.events == old(m.events) + Silent(FillOps(page, words[..i / 2]))
      decreases size - i
    {
      LoadWord(m, page, buf, from, size, i, words, old(m.buffer), old(m.events));
      i := i + 2;
    }
    assert words[..i / 2] == words;
  }

  /** One pass of the fill loop: word i/2 of the bytes loaded at page + i. */
  method LoadWord(m: Memory, page: nat, buf: array<uint8>, from: nat, size: nat, i: nat,
                  ghost words: seq<uint16>, ghost initial: seq<uint16>, ghost events0: seq<Event>)
    requires m.Valid() && PageSizes(size) && page % size == 0 && from + size <= buf.Length && !m.Interrupts()
    requires i < size && i % 2 == 0 && words == Words(buf[from..from + size])
    requires |initial| == LARGE_PAGE / 2 && m.buffer == Loaded(initial, page, words[..i / 2])
    requires m.events == events0 + Silent(FillOps(page, words[..i / 2]))
    modifies m
    ensures m.Valid() && m.sreg == old(m.sreg) && !m.Interrupts()
    ensures m.buffer == Loaded(initial, page, words[..i / 2 + 1])
    ensures m.events == events0 + Silent(FillOps(page, words[..i / 2 + 1]))
  {
    var k := i / 2;
    assert 2 * k == i;
    var w := LittleEndianWord(buf[from + i], buf[from + i + 1]);
    FillSlot(buf[..], from, page, size, i, words);
    ghost var buffer, events := m.buffer, m.events;
    m.Fill(page + i, w);
    FillStep(initial, page, words, k, buffer, m.buffer);
    FillOpsStep(page, words, k, events0, events, m.events);
  }

  /** Pass i of the fill loop loads word i/2 of the bytes into the slot
      after the words loaded so far, inside the buffer. */
  lemma FillSlot(s: seq<uint8>, from: nat, page: nat, size: nat, i: nat, words: seq<uint16>)
    requires PageSizes(size) && page % size == 0 && from + size <= |s|
    requires i < size && i % 2 == 0 && words == Words(s[from..from + size])
    ensures LittleEndianWord(s[from + i], s[from + i + 1]) == words[i / 2]
    ensures ((page + i) % LARGE_PAGE) / 2 == (page % LARGE_PAGE) / 2 + i / 2
    ensures (page % LARGE_PAGE) / 2 + |words| <= LARGE_PAGE / 2
  {
    SlotOf(page, size, i);
    Within(page, size);
    WordAt(s, from, size, i / 2);
  }

  /** Word k of the page at s[from..] comes from bytes 2k and 2k+1. */
  lemma WordAt(s: seq<uint8>, from: nat, size: nat, k: nat)
    requires size % 2 == 0 && 2 * k + 1 < size && from + size <= |s|
    ensures LittleEndianWord(s[from + 2 * k], s[from + 2 * k + 1]) == Words(s[from..from + size])[k]
  {
    var bytes := s[from..from + size];
    assert bytes[2 * k] == s[from + 2 * k] && bytes[2 * k + 1] == s[from + 2 * k + 1];
  }

  /** Loading word k into the slot after the first k loaded words. */
  lemma FillStep(initial: seq<uint16>, page: nat, words: seq<uint16>, k: nat, before: seq<uint16>,
                 after: seq<uint16>)
    requires k < |words| && (page % LARGE_PAGE) / 2 + |words| <= |initial|
    requires before == Loaded(initial, page, words[..k])
    requires ((page + 2 * k) % LARGE_PAGE) / 2 == (page % LARGE_PAGE) / 2 + k
    requires after == before[((page + 2 * k) % LARGE_PAGE) / 2 := words[k]]
    ensures after == Loaded(initial, page, words[..k + 1])
  {
  }

  /** The fills of the first k words, then that of word k. */
  lemma FillOpsStep(page: nat, words: seq<uint16>, k: nat, events0: seq<Event>, before: seq<Event>, after: seq<Event>)
    requires k < |words| && before == events0 + Silent(FillOps(page, words[..k]))
    requires after == before + [Event(FillWord(page + 2 * k, words[k]), false)]
    ensures after == events0 + Silent(FillOps(page, words[..k + 1]))
  {
    assert Silent(FillOps(page, words[..k])) + [Event(FillWord(page + 2 * k, words[k]), false)] ==
      Silent(FillOps(page, words[..k + 1]));
  }

  /** Operations run with interrupts disabled. */
  function Silent(ops: seq<Op>): (events: seq<Event>)
    ensures |events| == |ops|
    ensures forall i :: 0 <= i < |ops| ==> events[i] == Event(ops[i], false)
  {
    seq(|ops|, i requires 0 <= i < |ops| => Event(ops[i], false))
  }
}
