/** The interrupt-driven UART driver of the FAT16 bootloader
    (FAT16_bootloader/uart.c): two 32-entry circular queues, one the receive
    interrupt fills and get_RecvBuffer_data drains, one put_TransBuffer_data
    fills and the data-register-empty interrupt drains onto the line; and the
    baud-rate register Uart_init computes. */
module Uart {
  import opened Bytes

  /** MAXQUEUE (uart.h:42). */
  const MAXQUEUE: nat := 32

  /** The clock the driver assumes unless told otherwise (uart.c:14-16). */
  const F_CPU: nat := 8000000

  /** Bits of UCSRB (the same on the ATmega32 and the ATmega644P). */
  const RXCIE: uint8 := 0x80
  const UDRIE: uint8 := 0x20
  const RXEN: uint8 := 0x10
  const TXEN: uint8 := 0x08

  const LF: uint8 := 0x0A
  const CR: uint8 := 0x0D

  /** Slot i of a queue whose first entry is at `head`: the index wraps at
      MAXQUEUE. */
  function Slot(head: nat, i: nat): (k: nat)
    requires head < MAXQUEUE && i <= MAXQUEUE
    ensures k < MAXQUEUE && k == (head + i) % MAXQUEUE
    ensures k == if head + i < MAXQUEUE then head + i else head + i - MAXQUEUE
  {
    if head + i < MAXQUEUE then head + i else head + i - MAXQUEUE
  }

  /** The `size` entries of a ring buffer from `head` on, in queue order. */
  function Ring(entry: seq<uint8>, head: nat, size: nat): (q: seq<uint8>)
    requires |entry| == MAXQUEUE && head < MAXQUEUE && size <= MAXQUEUE
    ensures |q| == size && forall i :: 0 <= i < size ==> q[i] == entry[Slot(head, i)]
  {
    seq(size, i requires 0 <= i < size => entry[Slot(head, i)])
  }

  /** Queue_t (uart.c:32-38): entries head .. head + size_ - 1, modulo
      MAXQUEUE, with tail the slot of the last one (-1 when the queue was
      just initialised). The ghost field items is the queue in the order
      its entries will be served. */
  class Queue {
    var head: nat
    var tail: int
    var size: nat
    const entry: array<uint8>
    ghost var items: seq<uint8>

    ghost predicate Valid()
      reads this, entry
    {
      entry.Length == MAXQUEUE && head < MAXQUEUE && -1 <= tail < MAXQUEUE && size <= MAXQUEUE &&
      (tail + 1) % MAXQUEUE == (head + size) % MAXQUEUE && items == Ring(entry[..], head, size)
    }

    /** A queue in static storage before InitializeQueue: every field zero. */
    constructor ()
      ensures entry.Length == MAXQUEUE && fresh(entry) && head == 0 && tail == 0 && size == 0
    {
      head, tail, size := 0, 0, 0;
      entry := new uint8[MAXQUEUE](_ => 0);
      items := [];
    }

    /** InitializeQueue (uart.c:308-315): the queue is empty. */
    method Initialize()
      requires entry.Length == MAXQUEUE
      modifies this
      ensures Valid() && items == [] && head == 0 && tail == -1
    {
      head, tail, size := 0, -1, 0;
      items := [];
    }

    /** ClearQueue (uart.c:353-360) resets the queue exactly as
        InitializeQueue does. */
    method Clear()
      requires entry.Length == MAXQUEUE
      modifies this
      ensures Valid() && items == [] && head == 0 && tail == -1
    {
      Initialize();
    }

    /** QueueEmpty (uart.c:336-339). */
    function Empty(): (e: bool)
      requires Valid()
      reads this, entry
      ensures e <==> items == []
    {
      size == 0
    }

    /** QueueFull (uart.c:341-344). */
    function Full(): (f: bool)
      requires Valid()
      reads this, entry
      ensures f <==> |items| == MAXQUEUE
    {
      size == MAXQUEUE
    }

    /** Append (uart.c:318-325): e goes into the slot after the tail and
        becomes the last entry. Every caller checks QueueFull first. */
    method Append(e: uint8)
      requires Valid() && !Full()
      modifies this, entry
      ensures Valid() && items == old(items) + [e]
    {
      tail := (tail + 1) % MAXQUEUE;
      entry[tail] := e;
      RingAppend(old(entry[..]), entry[..], head, size, tail, e);
      size := size + 1;
      items := items + [e];
    }

    /** Serve (uart.c:327-334): the first entry is returned and removed.
        Every caller checks QueueEmpty first. */
    method Serve() returns (e: uint8)
      requires Valid() && !Empty()
      modifies this
      ensures Valid() && e == old(items)[0] && items == old(items)[1..]
    {
      e := entry[head];
      RingServe(entry[..], head, size);
      head := (head + 1) % MAXQUEUE;
      size := size - 1;
      items := items[1..];
    }
  }

  /** Writing e to the slot after the last entry appends e and leaves the
      other entries in place. */
  lemma RingAppend(before: seq<uint8>, after: seq<uint8>, head: nat, size: nat, tail: nat, e: uint8)
    requires |before| == MAXQUEUE && head < MAXQUEUE && size < MAXQUEUE
    requires tail == (head + size) % MAXQUEUE && after == before[tail := e]
    ensures Ring(after, head, size + 1) == Ring(before, head, size) + [e]
  {
    assert Slot(head, size) == tail;
    forall i | 0 <= i < size
      ensures after[Slot(head, i)] == before[Slot(head, i)]
    {
    }
  }

  /** Removing the head slot shifts the remaining entries down by one. */
  lemma RingServe(entry: seq<uint8>, head: nat, size: nat)
    requires |entry| == MAXQUEUE && head < MAXQUEUE && 0 < size <= MAXQUEUE
    ensures Ring(entry, (head + 1) % MAXQUEUE, size - 1) == Ring(entry, head, size)[1..]
  {
    var h := (head + 1) % MAXQUEUE;
    forall i | 0 <= i < size - 1
      ensures Slot(h, i) == Slot(head, i + 1)
    {
    }
  }

  /** The bytes put_TransBuffer_String offers the transmit queue for a
      string: each character in order, a line feed as line feed then
      carriage return, and the terminating '\0' last (uart.c:170-186). */
  function Offered(text: seq<uint8>): (bytes: seq<uint8>)
    ensures |bytes| > 0 && bytes[|bytes| - 1] == 0
  {
    Expand(text) + [0]
  }

  /** A string with each line feed followed by a carriage return. */
  function Expand(text: seq<uint8>): (bytes: seq<uint8>)
    ensures |text| <= |bytes| <= 2 * |text|
    decreases |text|
  {
    if |text| == 0 then []
    else (if text[0] == LF then [LF, CR] else [text[0]]) + Expand(text[1..])
  }

  /** Undoes Expand: drops the carriage return after each line feed. */
  function Collapse(bytes: seq<uint8>): (text: seq<uint8>)
    decreases |bytes|
  {
    if |bytes| == 0 then []
    else if bytes[0] == LF && |bytes| > 1 && bytes[1] == CR then [LF] + Collapse(bytes[2..])
    else [bytes[0]] + Collapse(bytes[1..])
  }

  /** Expanding line feeds loses nothing: the string comes back from what
      is offered. */
  lemma {:induction false} CollapseExpand(text: seq<uint8>)
    ensures Collapse(Expand(text)) == text
    decreases |text|
  {
    if |text| > 0 {
      CollapseExpand(text[1..]);
      var e := Expand(text);
      if text[0] == LF {
        assert e[2..] == Expand(text[1..]);
      } else {
        assert e[1..] == Expand(text[1..]);
      }
    }
  }

  /** No byte of the expansion is '\0' when the string has none. */
  lemma {:induction false} ExpandNoNul(text: seq<uint8>)
    requires forall i :: 0 <= i < |text| ==> text[i] != 0
    ensures forall i :: 0 <= i < |Expand(text)| ==> Expand(text)[i] != 0
    decreases |text|
  {
    if |text| > 0 {
      ExpandNoNul(text[1..]);
      var head: seq<uint8> := if text[0] == LF then [LF, CR] else [text[0]];
      assert Expand(text) == head + Expand(text[1..]);
    }
  }

  /** The baud-rate register Uart_init computes in its default branch:
      F_CPU / (16 * rate) - 1 in 32-bit unsigned arithmetic, stored in 16
      bits (uart.c:83, 90). */
  function BaudFormula(fcpu: nat, rate: uint16): (reg: uint16)
    requires 0 < rate && fcpu < 0x1_0000_0000
  {
    var q := fcpu / (16 * rate as nat);
    if q == 0 then 0xFFFF else ((q - 1) % 0x1_0000) as uint16
  }

  /** Uart_init's choice of the baud-rate register (uart.c:63-91): at 8 MHz
      a table for 9600, 19200 and 38400 baud, otherwise the formula. */
  function BaudRegister(fcpu: nat, rate: uint16): (reg: uint16)
    requires 0 < rate && fcpu < 0x1_0000_0000
  {
    if fcpu == 8000000 && rate == 9600 then 51
    else if fcpu == 8000000 && rate == 19200 then 25
    else if fcpu == 8000000 && rate == 38400 then 12
    else BaudFormula(fcpu, rate)
  }

  /** The table agrees with the formula: at every clock and every rate the
      register is F_CPU / (16 * rate) - 1. */
  lemma BaudTable(fcpu: nat, rate: uint16)
    requires 0 < rate && fcpu < 0x1_0000_0000
    ensures BaudRegister(fcpu, rate) == BaudFormula(fcpu, rate)
  {
    if fcpu == 8000000 && rate == 9600 {
      assert 8000000 / 153600 == 52;
    } else if fcpu == 8000000 && rate == 19200 {
      assert 8000000 / 307200 == 26;
    } else if fcpu == 8000000 && rate == 38400 {
      assert 8000000 / 614400 == 13;
    }
  }

  /** The USART with its two queues (the globals recv_buffer and
      trans_buffer), UCSRB, the baud-rate register UBRRH:UBRRL, the global
      interrupt flag, and the bytes the transmit interrupt has written to
      UDR. The ghost logs record what the queues accepted and what was read
      out of the receive queue. */
  class Port {
    const rx: Queue
    const tx: Queue
    var ucsrb: uint8
    var ubrr: uint16
    var interrupts: bool
    var line: seq<uint8>
    ghost var accepted: seq<uint8>
    ghost var received: seq<uint8>
    ghost var delivered: seq<uint8>

    /** Two distinct queues with their own storage. */
    predicate Wired()
      reads this, rx, tx
    {
      rx != tx && rx.entry != tx.entry && rx.entry.Length == MAXQUEUE && tx.entry.Length == MAXQUEUE
    }

    /** Both queues valid, and nothing lost or reordered: what went out on
        the line, then what is still queued, is everything accepted for
        transmission; what was read, then what is still queued, is
        everything the receive interrupt kept. */
    ghost predicate Valid()
      reads this, rx, tx, rx.entry, tx.entry
    {
      Wired() && rx.Valid() && tx.Valid() &&
      line + tx.items == accepted && delivered + rx.items == received
    }

    constructor ()
      ensures Wired() && fresh(rx) && fresh(tx) && fresh(rx.entry) && fresh(tx.entry)
      ensures ucsrb == 0 && ubrr == 0 && !interrupts && line == []
    {
      rx := new Queue();
      tx := new Queue();
      ucsrb, ubrr, interrupts, line := 0, 0, false, [];
      accepted, received, delivered := [], [], [];
    }

    /** Uart_init (uart.c:57-123): the baud-rate register, receiver,
        transmitter and receive interrupt enabled, both queues initialised,
        and interrupts enabled if asked; it returns 1. */
    method Init(rate: uint16, interEn: uint8) returns (r: uint8)
      requires Wired() && 0 < rate
      modifies this, rx, tx
      ensures Valid() && r == 1 && ubrr == BaudRegister(F_CPU, rate)
      ensures ucsrb == old(ucsrb) | RXEN | TXEN | RXCIE
      ensures rx.items == [] && tx.items == []
      ensures interrupts == (old(interrupts) || interEn != 0) && line == old(line)
    {
      ubrr := BaudRegister(F_CPU, rate);
      ucsrb := ucsrb | RXEN | TXEN | RXCIE;
      Reset();
      if interEn != 0 {
        interrupts := true;
      }
      r := 1;
    }

    /** Both queues initialised (uart.c:114-115); the line keeps what was
        sent before. */
    method Reset()
      requires Wired()
      modifies this, rx, tx
      ensures Valid() && rx.items == [] && tx.items == []
      ensures line == old(line) && ucsrb == old(ucsrb) && ubrr == old(ubrr) && interrupts == old(interrupts)
    {
      rx.Initialize();
      tx.Initialize();
      accepted, received, delivered := line, [], [];
      assert line + tx.items == accepted && delivered + rx.items == received;
    }

    /** get_RecvBuffer_data (uart.c:134-150): the first received byte,
        removed from the queue. On an empty queue it returns its
        uninitialised local, here the parameter `stale`. */
    method GetRecvData(stale: uint8) returns (data: uint8)
      requires Valid()
      modifies this, rx
      ensures Valid() && accepted == old(accepted) && line == old(line) && received == old(received)
      ensures old(rx.items) == [] ==> data == stale && rx.items == [] && delivered == old(delivered)
      ensures (old(rx.items) != [] ==>
        data == old(rx.items)[0] && rx.items == old(rx.items)[1..] && delivered == old(delivered) + [data])
      ensures ucsrb == old(ucsrb) && tx.items == old(tx.items)
    {
      data := stale;
      if !rx.Empty() {
        ghost var q := rx.items;
        data := rx.Serve();
        delivered := delivered + [data];
        Shift(old(delivered), q);
      }
    }

    /** put_TransBuffer_data (uart.c:152-168): unless the transmit queue is
        full, queue the byte, enable the data-register-empty interrupt and
        return 1; otherwise return 0 with nothing changed. */
    method PutTransData(data: uint8) returns (r: uint8)
      requires Valid()
      modifies this, tx, tx.entry
      ensures Valid() && line == old(line) && received == old(received) && delivered == old(delivered)
      ensures r == 1 <==> |old(tx.items)| < MAXQUEUE
      ensures (r == 1 ==>
        tx.items == old(tx.items) + [data] && accepted == old(accepted) + [data] && ucsrb == old(ucsrb) | UDRIE)
      ensures r != 1 ==> r == 0 && tx.items == old(tx.items) && accepted == old(accepted) && ucsrb == old(ucsrb)
      ensures rx.items == old(rx.items)
    {
      if !tx.Full() {
        tx.Append(data);
        accepted := accepted + [data];
        ucsrb := ucsrb | UDRIE;
        return 1;
      }
      return 0;
    }

    /** put_TransBuffer_String (uart.c:170-186): the bytes of Offered(text)
        are put one by one; since nothing drains the queue meanwhile, those
        that fit are queued and the rest are dropped. text is the string
        before its terminating '\0'. */
    method PutTransString(text: seq<uint8>) returns (r: uint8)
      requires Valid() && forall i :: 0 <= i < |text| ==> text[i] != 0
      modifies this, tx, tx.entry
      ensures Valid() && r == 1 && line == old(line) && received == old(received) && delivered == old(delivered)
      ensures var room := MAXQUEUE - |old(tx.items)|;
        var queued := if |Offered(text)| <= room then Offered(text) else Offered(text)[..room];
        tx.items == old(tx.items) + queued && accepted == old(accepted) + queued
      ensures rx.items == old(rx.items)
    {
      ghost var offered := Offered(text);
      ghost var q0, a0, rx0 := tx.items, accepted, rx.items;
      ghost var room := MAXQUEUE - |q0|;
      ghost var n := 0;
      var i := 0;
      while i < |text|
        invariant 0 <= i <= |text| && n == |Expand(text[..i])| && n <= |Expand(text)|
        invariant Sending(old(line), old(received), old(delivered), rx0, q0, a0, offered, n, room)
      {
        OfferChar(text, i, old(line), old(received), old(delivered), rx0, q0, a0, offered, n, room);
        n := |Expand(text[..i + 1])|;
        i := i + 1;
      }
      assert text[..i] == text;
      Offer(0, old(line), old(received), old(delivered), rx0, q0, a0, offered, n, room);
      assert offered[..n + 1] == offered;
      r := 1;
    }

    /** Part way through a string: the first n offered bytes were put,
        and only the transmit queue and its log changed. */
    ghost predicate Sending(line0: seq<uint8>, received0: seq<uint8>, delivered0: seq<uint8>, rx0: seq<uint8>,
                            q0: seq<uint8>, a0: seq<uint8>, offered: seq<uint8>, n: nat, room: nat)
      reads this, rx, tx, rx.entry, tx.entry
    {
      Valid() && line == line0 && received == received0 && delivered == delivered0 && rx.items == rx0 &&
      n <= |offered| && room == MAXQUEUE - |q0| &&
      tx.items == q0 + Queued(offered, n, room) && accepted == a0 + Queued(offered, n, room)
    }

    /** The put_TransBuffer_data calls for character i of the string: a
        line feed is put as line feed then carriage return. */
    method OfferChar(text: seq<uint8>, i: nat, ghost line0: seq<uint8>, ghost received0: seq<uint8>,
                     ghost delivered0: seq<uint8>, ghost rx0: seq<uint8>, ghost q0: seq<uint8>, ghost a0: seq<uint8>,
                     ghost offered: seq<uint8>, ghost n: nat, ghost room: nat)
      requires i < |text| && n == |Expand(text[..i])| && offered == Offered(text)
      requires Sending(line0, received0, delivered0, rx0, q0, a0, offered, n, room)
      modifies this, tx, tx.entry
      ensures |Expand(text[..i + 1])| <= |Expand(text)|
      ensures Sending(line0, received0, delivered0, rx0, q0, a0, offered, |Expand(text[..i + 1])|, room)
    {
      ExpandAt(text, i, n);
      if text[i] == LF {
        Offer(LF, line0, received0, delivered0, rx0, q0, a0, offered, n, room);
        Offer(CR, line0, received0, delivered0, rx0, q0, a0, offered, n + 1, room);
      } else {
        Offer(text[i], line0, received0, delivered0, rx0, q0, a0, offered, n, room);
      }
    }

    /** One put_TransBuffer_data of byte n of the offered string: queued
        while there is room. */
    method Offer(b: uint8, ghost line0: seq<uint8>, ghost received0: seq<uint8>, ghost delivered0: seq<uint8>,
                 ghost rx0: seq<uint8>, ghost q0: seq<uint8>, ghost a0: seq<uint8>, ghost offered: seq<uint8>,
                 ghost n: nat, ghost room: nat)
      requires Sending(line0, received0, delivered0, rx0, q0, a0, offered, n, room) && n < |offered| && offered[n] == b
      modifies this, tx, tx.entry
      ensures Sending(line0, received0, delivered0, rx0, q0, a0, offered, n + 1, room)
    {
      QueuedStep(offered, n, room);
      var r := PutTransData(b);
      Associative(q0, Queued(offered, n, room), [b]);
      Associative(a0, Queued(offered, n, room), [b]);
    }

    /** The receive-complete interrupt (uart.c:271-288): the byte read from
        UDR is queued unless the receive queue is full, in which case it is
        dropped. */
    method RxIsr(udr: uint8)
      requires Valid()
      modifies this, rx, rx.entry
      ensures Valid() && line == old(line) && accepted == old(accepted) && delivered == old(delivered)
      ensures (|old(rx.items)| < MAXQUEUE ==>
        rx.items == old(rx.items) + [udr] && received == old(received) + [udr])
      ensures |old(rx.items)| == MAXQUEUE ==> rx.items == old(rx.items) && received == old(received)
      ensures ucsrb == old(ucsrb) && tx.items == old(tx.items)
    {
      if !rx.Full() {
        rx.Append(udr);
        received := received + [udr];
        Associative(delivered, old(rx.items), [udr]);
      }
    }

    /** The data-register-empty interrupt (uart.c:291-305): the first queued
        byte goes out through UDR; with nothing queued the interrupt disables
        itself. */
    method UdreIsr()
      requires Valid()
      modifies this, tx
      ensures Valid() && accepted == old(accepted) && received == old(received) && delivered == old(delivered)
      ensures (old(tx.items) != [] ==>
        line == old(line) + [old(tx.items)[0]] && tx.items == old(tx.items)[1..] && ucsrb == old(ucsrb))
      ensures old(tx.items) == [] ==> line == old(line) && tx.items == [] && ucsrb == old(ucsrb) & !UDRIE
      ensures rx.items == old(rx.items)
    {
      if !tx.Empty() {
        ghost var q := tx.items;
        var b := tx.Serve();
        line := line + [b];
        Shift(old(line), q);
      } else {
        ucsrb := ucsrb & !UDRIE;
      }
    }
  }

  /** The first n offered bytes, of which only the first `room` fit. */
  ghost function Queued(offered: seq<uint8>, n: nat, room: nat): (q: seq<uint8>)
    requires n <= |offered|
    ensures |q| <= n && q == offered[..|q|]
  {
    if n <= room then offered[..n] else offered[..room]
  }

  /** Offering one more byte queues it exactly when there is room left. */
  lemma QueuedStep(offered: seq<uint8>, n: nat, room: nat)
    requires n < |offered|
    ensures n < room ==> |Queued(offered, n, room)| == n && Queued(offered, n + 1, room) == Queued(offered, n, room) + [offered[n]]
    ensures n >= room ==> |Queued(offered, n, room)| == room && Queued(offered, n + 1, room) == Queued(offered, n, room)
  {
    if n < room {
      assert offered[..n + 1] == offered[..n] + [offered[n]];
    }
  }

  /** Moving the first queued byte to the log keeps log + queue. */
  lemma Shift(log: seq<uint8>, q: seq<uint8>)
    requires q != []
    ensures (log + [q[0]]) + q[1..] == log + q
  {
    assert q == [q[0]] + q[1..];
  }

  lemma Associative<T>(a: seq<T>, b: seq<T>, c: seq<T>)
    ensures (a + b) + c == a + (b + c)
  {
  }

  /** Character i of the string, expanded, sits at offset n of the
      expansion, n being the length of the expansion of the characters
      before it. */
  lemma ExpandAt(text: seq<uint8>, i: nat, n: nat)
    requires i < |text| && n == |Expand(text[..i])|
    ensures (text[i] == LF ==>
      |Expand(text[..i + 1])| == n + 2 && n + 2 <= |Expand(text)| && Expand(text)[n] == LF && Expand(text)[n + 1] == CR)
    ensures (text[i] != LF ==>
      |Expand(text[..i + 1])| == n + 1 && n + 1 <= |Expand(text)| && Expand(text)[n] == text[i])
  {
    ExpandStep(text, i);
    ExpandAppend(text[..i + 1], text[i + 1..]);
    assert text[..i + 1] + text[i + 1..] == text;
  }

  /** Expanding one more character of the string. */
  lemma ExpandStep(text: seq<uint8>, i: nat)
    requires i < |text|
    ensures Expand(text[..i + 1]) == Expand(text[..i]) + (if text[i] == LF then [LF, CR] else [text[i]])
    ensures Expand(text[i..]) == (if text[i] == LF then [LF, CR] else [text[i]]) + Expand(text[i + 1..])
  {
    ExpandAppend(text[..i], [text[i]]);
    assert text[..i + 1] == text[..i] + [text[i]];
    assert text[i..][1..] == text[i + 1..];
  }

  /** Expand distributes over concatenation. */
  lemma {:induction false} ExpandAppend(a: seq<uint8>, b: seq<uint8>)
    ensures Expand(a + b) == Expand(a) + Expand(b)
    decreases |a|
  {
    if |a| > 0 {
      ExpandAppend(a[1..], b);
      assert (a + b)[1..] == a[1..] + b;
    } else {
      assert a + b == b;
    }
  }
}
