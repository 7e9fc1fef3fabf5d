/** The SPI transport the SD/MMC driver is built on (spi.h, spi.c), reduced to
    what the driver relies on: a full-duplex byte exchange, the card's
    chip-select line and the clock divisor.

    The card is a script: the bytes it shifts out, in order. Every exchange
    sends one byte and receives one, so the position reached in the script is
    always the number of bytes sent so far. */
module Spi {
  import opened Bytes

  // Clock divisor codes (spi.h:27-33)
  const SPI_FOSC_2: uint8 := 0x04
  const SPI_FOSC_4: uint8 := 0x00
  const SPI_FOSC_16: uint8 := 0x01
  const SPI_FOSC_32: uint8 := 0x06

  /** Whether a speed code sets SPI2X: bit 2 of the code. */
  predicate Doubles(speed: uint8) {
    (speed >> 2) & 1 == 1
  }

  /** One byte as it went out on MOSI, with the chip-select level it went out under. */
  datatype Wire = Wire(data: uint8, selected: bool)

  /** The byte the card presents at exchange number k. Past the end of the
      script the line idles high: MISO has its pull-up enabled (spi.c:15). */
  function At(miso: seq<uint8>, k: nat): uint8 {
    if k < |miso| then miso[k] else 0xFF
  }

  /** The n bytes the card presents from exchange number p on. */
  function Window(miso: seq<uint8>, p: nat, n: nat): (w: seq<uint8>)
    ensures |w| == n
    ensures forall i :: 0 <= i < n ==> w[i] == At(miso, p + i)
  {
    seq(n, i requires 0 <= i => At(miso, p + i))
  }

  /** n dummy 0xFF bytes, as spi_read(0xFF) and the filler writes send them. */
  function Fill(n: nat, selected: bool): (w: seq<Wire>)
    ensures |w| == n
    ensures forall i :: 0 <= i < n ==> w[i] == Wire(0xFF, selected)
  {
    seq(n, _ => Wire(0xFF, selected))
  }

  /** The given bytes, in order, all under one chip-select level. */
  function Send(bytes: seq<uint8>, selected: bool): (w: seq<Wire>)
    ensures |w| == |bytes|
    ensures forall i :: 0 <= i < |bytes| ==> w[i] == Wire(bytes[i], selected)
  {
    seq(|bytes|, i requires 0 <= i < |bytes| => Wire(bytes[i], selected))
  }

  lemma FillSplit(a: nat, b: nat, selected: bool)
    ensures Fill(a, selected) + Fill(b, selected) == Fill(a + b, selected)
  {
  }

  class Bus {
    /** What the card will shift out, exchange by exchange. */
    const miso: seq<uint8>
    /** Everything shifted out so far. */
    var log: seq<Wire>
    /** True while chip-select is asserted (SS driven low). */
    var selected: bool
    /** The SPR1:SPR0 rate bits of SPCR, rewritten by every speed change. */
    var rate: uint8
    /** The SPI2X bit of SPSR. Speed changes OR it in and never clear it. */
    var doubled: bool

    constructor (script: seq<uint8>)
      ensures miso == script && log == [] && !selected && rate == 0 && !doubled
    {
      miso := script;
      log := [];
      selected := false;
      rate := 0;
      doubled := false;
    }

    /** One full-duplex exchange: shift b out, shift the card's next byte in. */
    method Exchange(b: uint8) returns (r: uint8)
      modifies this
      ensures r == At(miso, |old(log)|)
      ensures log == old(log) + [Wire(b, selected)]
      ensures selected == old(selected) && rate == old(rate) && doubled == old(doubled)
    {
      r := At(miso, |log|);
      log := log + [Wire(b, selected)];
    }

    /** spi_write (spi.c:28-37): the byte received is discarded by every caller. */
    method Write(b: uint8)
      modifies this
      ensures log == old(log) + [Wire(b, selected)]
      ensures selected == old(selected) && rate == old(rate) && doubled == old(doubled)
    {
      var _ := Exchange(b);
    }

    /** spi_read(0xFF) (spi.c:39-45). */
    method Read() returns (r: uint8)
      modifies this
      ensures r == At(miso, |old(log)|)
      ensures log == old(log) + [Wire(0xFF, selected)]
      ensures selected == old(selected) && rate == old(rate) && doubled == old(doubled)
    {
      r := Exchange(0xFF);
    }

    /** assert_CS (spi.h:41). */
    method Select()
      modifies this
      ensures selected && log == old(log) && rate == old(rate) && doubled == old(doubled)
    {
      selected := true;
    }

    /** de_assert_CS (spi.h:42). */
    method Deselect()
      modifies this
      ensures !selected && log == old(log) && rate == old(rate) && doubled == old(doubled)
    {
      selected := false;
    }

    /** spi_init (spi.c:10-18): releases chip-select and programs the clock rate. */
    method Init(speed: uint8)
      modifies this
      ensures !selected && log == old(log)
      ensures rate == speed & 3 && doubled == (old(doubled) || Doubles(speed))
    {
      selected := false;
      SetSpeed(speed);
    }

    /** spi_set_speed (spi.c:20-26). */
    method SetSpeed(speed: uint8)
      modifies this
      ensures rate == speed & 3 && doubled == (old(doubled) || Doubles(speed))
      ensures selected == old(selected) && log == old(log)
    {
      rate := speed & 3;
      doubled := doubled || Doubles(speed);
    }
  }
}
