/** The SD/MMC SPI-mode command protocol as both drivers speak it (sd.c and
    FAT16_bootloader/diskio.c): the six-byte command frame, the bounded polls
    for a response, a data token or the end of busy, and the power-up and
    initialisation handshake.

    Everything here is a function of the card's script `s` (what it shifts
    out, see Spi.At) and of the position `p` reached in it, and describes what
    the driver puts on the wire from there. The drivers' methods are proved to
    produce exactly these runs. */
module SdProtocol {
  import opened Bytes
  import opened Spi

  // Command bytes: index + 0x40 (sd.h:27-32, diskio.h:33-38)
  const GO_IDLE_STATE: uint8 := 0x40
  const SEND_OP_COND: uint8 := 0x41
  const READ_SECTOR_CMD: uint8 := 0x51
  const WRITE_SECTOR_CMD: uint8 := 0x58
  const APP_CMD: uint8 := 0x77
  const SEND_OP_CMD: uint8 := 0x69

  /** The CRC byte every frame carries; only GO_IDLE_STATE's CRC is checked by the card. */
  const FRAME_CRC: uint8 := 0x95
  /** Polls for an R1 response, and attempts per handshake step (MAX_ITERATION_RESPONSE). */
  const MAX_ITERATION_RESPONSE: nat := 256
  /** Filler bytes clocked with chip-select released before each GO_IDLE_STATE (POWERUP_MAX). */
  const POWERUP_MAX: nat := 256
  const SECTOR_SIZE: nat := 512

  const DATA_TOKEN: uint8 := 0xFE
  const WRITE_RESPONSE_ACCEPTED: uint8 := 0x05
  const WRITE_CRC_REJECTED: uint8 := 0x0B
  const WRITE_ERROR_REJECTED: uint8 := 0x0D

  /** What a bounded poll is waiting for. */
  datatype Poll =
    | Response      // any byte but 0xFF: an R1 response
    | Token         // the start-of-data token 0xFE
    | DataResponse  // a data-response nibble: accepted, CRC error or write error
    | NotBusy       // any non-zero byte: the card has left its busy state

  predicate Stops(poll: Poll, b: uint8) {
    match poll
    case Response => b != 0xFF
    case Token => b == DATA_TOKEN
    case DataResponse =>
      var nibble := b & 0x0F;
      nibble == WRITE_RESPONSE_ACCEPTED || nibble == WRITE_CRC_REJECTED || nibble == WRITE_ERROR_REJECTED
    case NotBusy => b != 0
  }

  /** A poll of at most n reads from position p: the index of the first byte
      that stops it, if one comes within n reads. */
  function Scan(s: seq<uint8>, p: nat, n: nat, poll: Poll): (r: Option<nat>)
    decreases n, p  // p as in Retry: a literal poll length is not unrolled in full
    ensures r.Some? ==> r.value < n
  {
    if n == 0 then None
    else
      var last := n - 1;
      match Scan(s, p, last, poll)
      case Some(k) => Some(k)
      case None => if Stops(poll, At(s, p + last)) then Some(last) else None
  }

  /** A poll stops at the first byte that stops it, and finds none exactly
      when none of the n bytes does. */
  lemma {:induction false} ScanSpec(s: seq<uint8>, p: nat, n: nat, poll: Poll)
    ensures var r := Scan(s, p, n, poll);
      (r.Some? ==> Stops(poll, At(s, p + r.value))) &&
      (r.Some? ==> forall k :: p <= k < p + r.value ==> !Stops(poll, At(s, k))) &&
      (r.None? <==> forall k :: p <= k < p + n ==> !Stops(poll, At(s, k)))
  {
    if n > 0 {
      ScanSpec(s, p, n - 1, poll);
    }
  }

  /** A poll that stopped within m reads stops at the same read however many
      more it was allowed. */
  lemma {:induction false} ScanExtend(s: seq<uint8>, p: nat, m: nat, n: nat, poll: Poll)
    requires m <= n && Scan(s, p, m, poll).Some?
    ensures Scan(s, p, n, poll) == Scan(s, p, m, poll)
    decreases n - m
  {
    if m < n {
      ScanExtend(s, p, m, n - 1, poll);
    }
  }

  /** The bytes a poll clocks: up to and including the hit, or all n. */
  function Polled(r: Option<nat>, n: nat): nat {
    match r
    case Some(k) => k + 1
    case None => n
  }

  /** The six-byte command frame: command, argument most significant byte first, CRC. */
  function Frame(cmd: uint8, arg: uint32): (f: seq<uint8>)
    ensures |f| == 6 && f[0] == cmd && f[5] == FRAME_CRC
  {
    [cmd, Low8(arg >> 24), Low8(arg >> 16), Low8(arg >> 8), Low8(arg), FRAME_CRC]
  }

  /** The card reads back the argument the frame was built from. */
  lemma FrameArgument(cmd: uint8, arg: uint32)
    ensures Argument(Frame(cmd, arg)) == arg
  {
  }

  /** The argument a card reads back out of a frame. */
  function Argument(f: seq<uint8>): uint32
    requires |f| == 6
  {
    ((f[1] as uint32) << 24) | ((f[2] as uint32) << 16) | ((f[3] as uint32) << 8) | (f[4] as uint32)
  }

  /** The card's byte address of a sector: sector << 9 on 32 bits, as both
      drivers compute it. It is 512-aligned and keeps only the sector's low 23
      bits: sectors from 2^23 on wrap around. */
  function ByteAddress(sector: uint32): (a: uint32)
    ensures a & 0x1FF == 0 && a >> 9 == sector & 0x7F_FFFF
  {
    sector << 9
  }

  /** What a driver call produced: the value it returned and what it put on the wire. */
  datatype Run = Run(result: uint8, sent: seq<Wire>)

  /** SD_Send_Command (sd.c:21-51, diskio.c:13-43) under chip-select level sel:
      the frame, then up to 256 polls for a response; when one comes, one more
      0xFF and the response is returned, otherwise 0xFF. */
  function Command(s: seq<uint8>, p: nat, cmd: uint8, arg: uint32, sel: bool): (run: Run)
    ensures |run.sent| >= 8
  {
    var q := p + 6;
    match Scan(s, q, MAX_ITERATION_RESPONSE, Response)
    case Some(k) => Run(At(s, q + k), Send(Frame(cmd, arg), sel) + Fill(k + 2, sel))
    case None => Run(0xFF, Send(Frame(cmd, arg), sel) + Fill(MAX_ITERATION_RESPONSE, sel))
  }

  /** SD_Send_Command returns 0xFF exactly when all 256 polls read 0xFF, and
      otherwise the first byte that was not 0xFF, read just before the one
      extra byte it clocks out. */
  lemma CommandAnswer(s: seq<uint8>, p: nat, cmd: uint8, arg: uint32, sel: bool)
    ensures var run := Command(s, p, cmd, arg, sel);
      (run.result == 0xFF <==>
         forall k :: p + 6 <= k < p + 6 + MAX_ITERATION_RESPONSE ==> At(s, k) == 0xFF) &&
      (run.result != 0xFF ==>
         run.result == At(s, p + |run.sent| - 2) &&
         forall k :: p + 6 <= k < p + |run.sent| - 2 ==> At(s, k) == 0xFF)
  {
    ScanSpec(s, p + 6, MAX_ITERATION_RESPONSE, Response);
  }

  /** What SD_Send_Command puts on the wire: the frame, then 0xFF filler
      (256 polls on a timeout; the polls up to the response plus one more
      otherwise), all under the one chip-select level. */
  lemma CommandWire(s: seq<uint8>, p: nat, cmd: uint8, arg: uint32, sel: bool)
    ensures var run := Command(s, p, cmd, arg, sel);
      run.sent == Send(Frame(cmd, arg), sel) + Fill(|run.sent| - 6, sel) &&
      (run.result == 0xFF ==> |run.sent| == 6 + MAX_ITERATION_RESPONSE)
  {
    ScanSpec(s, p + 6, MAX_ITERATION_RESPONSE, Response);
  }

  /** One step of the handshake, repeated until the card gives the wanted
      answer. With powerUp, each attempt first clocks 256 filler bytes with
      chip-select released, then sends the command with chip-select asserted. */
  datatype Attempt = Attempt(cmd: uint8, powerUp: bool)

  function Try(s: seq<uint8>, p: nat, a: Attempt): (run: Run)
    ensures |run.sent| >= 8
    ensures a.powerUp ==> |run.sent| >= POWERUP_MAX + 8
  {
    if a.powerUp then
      var c := Command(s, p + POWERUP_MAX, a.cmd, 0, true);
      Run(c.result, Fill(POWERUP_MAX, false) + c.sent)
    else Command(s, p, a.cmd, 0, true)
  }

  /** The attempt made from any position of the script. */
  function Attempts(s: seq<uint8>, a: Attempt): nat -> Run {
    (q: nat) => Try(s, q, a)
  }

  /** The answers a retry loop collected and what it put on the wire. */
  datatype Tries = Tries(answers: seq<uint8>, sent: seq<Wire>)

  /** `while (response != want && attempts++ < left) response = <attempt>;`
      from position p, starting from the response `resp` held before the loop. */
  function Retry(attempt: nat -> Run, want: uint8, p: nat, left: nat, resp: uint8): Tries
    // p joins the measure only so that a budget written as a literal is not
    // unrolled in full by the verifier
    decreases left, p
  {
    if resp == want || left == 0 then Tries([], [])
    else
      var t := attempt(p);
      var rest := Retry(attempt, want, p + |t.sent|, left - 1, t.result);
      Tries([t.result] + rest.answers, t.sent + rest.sent)
  }

  /** The answers and traffic of two stretches of a loop, one after the other. */
  function Join(a: Tries, b: Tries): (t: Tries)
    ensures |t.answers| == |a.answers| + |b.answers| && |t.sent| == |a.sent| + |b.sent|
  {
    Tries(a.answers + b.answers, a.sent + b.sent)
  }

  /** One more attempt of a retry loop that goes on, seen from a loop that
      has so far collected `done` out of `total`: its answer and traffic move
      from what is left to what is done, and become the response held. */
  lemma RetryStep(attempt: nat -> Run, want: uint8, total: Tries, done: Tries, p: nat, left: nat, resp: uint8)
    requires total == Join(done, Retry(attempt, want, p, left, resp))
    requires resp != want && left > 0
    ensures var t := attempt(p);
      var next := Join(done, Tries([t.result], t.sent));
      total == Join(next, Retry(attempt, want, p + |t.sent|, left - 1, t.result)) &&
      Final(next, resp) == t.result
  {
    var t := attempt(p);
    JoinAssoc(done, Tries([t.result], t.sent), Retry(attempt, want, p + |t.sent|, left - 1, t.result));
  }

  /** A retry loop that has stopped has collected all there is. */
  lemma RetryDone(attempt: nat -> Run, want: uint8, total: Tries, done: Tries, p: nat, left: nat, resp: uint8)
    requires total == Join(done, Retry(attempt, want, p, left, resp))
    requires resp == want || left == 0
    ensures total == done
  {
    assert done.answers + [] == done.answers && done.sent + [] == done.sent;
  }

  lemma JoinAssoc(a: Tries, b: Tries, c: Tries)
    ensures Join(Join(a, b), c) == Join(a, Join(b, c))
  {
    assert (a.answers + b.answers) + c.answers == a.answers + (b.answers + c.answers);
    assert (a.sent + b.sent) + c.sent == a.sent + (b.sent + c.sent);
  }

  /** The response held after a retry loop. */
  function Final(t: Tries, resp: uint8): uint8 {
    if |t.answers| == 0 then resp else t.answers[|t.answers| - 1]
  }

  /** A retry loop stops at the first wanted answer, never makes more than
      `left` attempts, and gives up only after all `left` were made. */
  lemma {:induction false} RetryBounded(attempt: nat -> Run, want: uint8, p: nat, left: nat, resp: uint8)
    ensures var t := Retry(attempt, want, p, left, resp);
      |t.answers| <= left &&
      (resp != want && left > 0 ==> |t.answers| >= 1) &&
      (|t.answers| > 0 ==> want !in t.answers[..|t.answers| - 1]) &&
      (Final(t, resp) != want ==> |t.answers| == left)
    decreases left
  {
    if resp != want && left > 0 {
      var t := attempt(p);
      var x := t.result;
      var rest := Retry(attempt, want, p + |t.sent|, left - 1, x);
      RetryBounded(attempt, want, p + |t.sent|, left - 1, x);
      LastOfCons(x, rest.answers, want, resp);
    }
  }

  /** The sequence facts RetryBounded needs about one more answer in front. */
  lemma LastOfCons(x: uint8, rest: seq<uint8>, want: uint8, resp: uint8)
    requires |rest| > 0 ==> x != want
    ensures Final(Tries([x] + rest, []), resp) == Final(Tries(rest, []), x)
    ensures |rest| > 0 && want !in rest[..|rest| - 1] ==> want !in ([x] + rest)[..|rest|]
  {
    if |rest| > 0 {
      assert ([x] + rest)[..|rest|] == [x] + rest[..|rest| - 1];
    }
  }

  /** How the mount handshake ended. */
  datatype Session =
    | IdleTimeout   // no 0x01 to GO_IDLE_STATE in 256 attempts
    | InitTimeout   // no 0x00 to SEND_OP_COND in 256 attempts
    | MmcCard       // APP_CMD or its follow-up refused: an MMC
    | SdCard        // both accepted: an SD card

  predicate Failed(session: Session) {
    session == IdleTimeout || session == InitTimeout
  }

  datatype Handshake = Handshake(session: Session, sent: seq<Wire>)

  const IDLE := Attempt(GO_IDLE_STATE, true)
  const INIT := Attempt(SEND_OP_COND, false)

  /** A loop that ended on `want` hands over to `next`; one that did not ends
      the handshake with `failure`. */
  function Then(loop: Tries, resp: uint8, want: uint8, failure: Session, next: Handshake): Handshake {
    if Final(loop, resp) != want then Handshake(failure, loop.sent)
    else Handshake(next.session, loop.sent + next.sent)
  }

  /** The handshake put together from its three steps, each given as what it
      does from any position: at most 256 `idle` attempts until one answers
      0x01, then at most 256 `init` attempts until one answers 0x00, then
      `classify`. */
  function Steps(idle: nat -> Run, init: nat -> Run, classify: nat -> Handshake, p: nat): Handshake {
    var loop := Retry(idle, 0x01, p, MAX_ITERATION_RESPONSE, 0xFF);
    Then(loop, 0xFF, 0x01, IdleTimeout, InitSteps(init, classify, p + |loop.sent|))
  }

  /** The handshake from the second step on. */
  function InitSteps(init: nat -> Run, classify: nat -> Handshake, p: nat): Handshake {
    var loop := Retry(init, 0x00, p, MAX_ITERATION_RESPONSE, 0x01);
    Then(loop, 0x01, 0x00, InitTimeout, classify(p + |loop.sent|))
  }

  /** APP_CMD, then SD_SEND_OP_CMD only if APP_CMD was accepted: a card that
      refuses either is an MMC. */
  function Classify(s: seq<uint8>, p: nat): (h: Handshake)
    ensures h.session == MmcCard || h.session == SdCard
  {
    var app := Command(s, p, APP_CMD, 0, true);
    if app.result != 0x00 then Handshake(MmcCard, app.sent)
    else
      var op := Command(s, p + |app.sent|, SEND_OP_CMD, 0, true);
      Handshake(if op.result != 0x00 then MmcCard else SdCard, app.sent + op.sent)
  }

  function Classifier(s: seq<uint8>): nat -> Handshake {
    (q: nat) => Classify(s, q)
  }

  /** The handshake of SD_mount (sd.c:73-177) and disk_initialize
      (diskio.c:64-117), which differ only in what they return for it:
      power-up and GO_IDLE_STATE until the card is idle (sd.c:73-112),
      SEND_OP_COND until it is ready (sd.c:120-143), then the SD/MMC test. */
  function Negotiate(s: seq<uint8>, p: nat): Handshake {
    Steps(Attempts(s, IDLE), Attempts(s, INIT), Classifier(s), p)
  }

  /** The handshake from the SEND_OP_COND loop on. */
  function Initialise(s: seq<uint8>, p: nat): Handshake {
    InitSteps(Attempts(s, INIT), Classifier(s), p)
  }

  /** The GO_IDLE_STATE loop of the handshake from position p. */
  function IdleLoop(s: seq<uint8>, p: nat): Tries {
    Retry(Attempts(s, IDLE), 0x01, p, MAX_ITERATION_RESPONSE, 0xFF)
  }

  /** The SEND_OP_COND loop of the handshake from position p. */
  function InitLoop(s: seq<uint8>, p: nat): Tries {
    Retry(Attempts(s, INIT), 0x00, p, MAX_ITERATION_RESPONSE, 0x01)
  }

  /** The handshake as the driver runs it: the GO_IDLE_STATE loop, then the rest. */
  lemma NegotiateUnfold(s: seq<uint8>, p: nat)
    ensures var idle := IdleLoop(s, p);
      Negotiate(s, p) == Then(idle, 0xFF, 0x01, IdleTimeout, Initialise(s, p + |idle.sent|))
  {
  }

  /** The handshake from SEND_OP_COND as the driver runs it: that loop, then the classification. */
  lemma InitialiseUnfold(s: seq<uint8>, p: nat)
    ensures var init := InitLoop(s, p);
      Initialise(s, p) == Then(init, 0x01, 0x00, InitTimeout, Classify(s, p + |init.sent|))
  {
    var init := InitLoop(s, p);
    assert Classifier(s)(p + |init.sent|) == Classify(s, p + |init.sent|);
  }

  /** A step ends the handshake with its failure exactly when its loop missed
      the wanted answer; otherwise the outcome is the next step's, and either
      way the step's traffic comes first. */
  lemma ThenStep(loop: Tries, resp: uint8, want: uint8, failure: Session, next: Handshake)
    requires next.session != failure
    ensures var h := Then(loop, resp, want, failure, next);
      (h.session == failure <==> Final(loop, resp) != want) &&
      (Final(loop, resp) == want ==> h.session == next.session) &&
      loop.sent <= h.sent
  {
  }

  /** From the second step on, the handshake never ends in IdleTimeout, and
      ends in InitTimeout exactly when no `init` attempt drew 0x00, after all
      256 of them. */
  lemma InitStepsOutcome(init: nat -> Run, classify: nat -> Handshake, p: nat)
    requires forall q :: !Failed(classify(q).session)
    ensures var loop := Retry(init, 0x00, p, MAX_ITERATION_RESPONSE, 0x01);
      var h := InitSteps(init, classify, p);
      h.session != IdleTimeout &&
      (h.session == InitTimeout <==> 0x00 !in loop.answers) &&
      (h.session == InitTimeout ==> |loop.answers| == MAX_ITERATION_RESPONSE)
  {
    var loop := Retry(init, 0x00, p, MAX_ITERATION_RESPONSE, 0x01);
    var rest := classify(p + |loop.sent|);
    RetryBounded(init, 0x00, p, MAX_ITERATION_RESPONSE, 0x01);
    GotIff(loop, 0x00, 0x01);
    ThenStep(loop, 0x01, 0x00, InitTimeout, rest);
  }

  /** A card is reported at all only after it answered 0x01 to an `idle`
      attempt, and as a card rather than a timeout only after it answered
      0x00 to an `init` attempt; a failed handshake made all 256 attempts at
      the step it failed on. */
  lemma StepsOutcome(idle: nat -> Run, init: nat -> Run, classify: nat -> Handshake, p: nat)
    requires forall q :: !Failed(classify(q).session)
    ensures var first := Retry(idle, 0x01, p, MAX_ITERATION_RESPONSE, 0xFF);
      var second := Retry(init, 0x00, p + |first.sent|, MAX_ITERATION_RESPONSE, 0x01);
      var h := Steps(idle, init, classify, p);
      (h.session == IdleTimeout <==> 0x01 !in first.answers) &&
      (h.session == IdleTimeout ==> |first.answers| == MAX_ITERATION_RESPONSE) &&
      (h.session == InitTimeout <==> 0x01 in first.answers && 0x00 !in second.answers) &&
      (h.session == InitTimeout ==> |second.answers| == MAX_ITERATION_RESPONSE)
  {
    var first := Retry(idle, 0x01, p, MAX_ITERATION_RESPONSE, 0xFF);
    var rest := InitSteps(init, classify, p + |first.sent|);
    RetryBounded(idle, 0x01, p, MAX_ITERATION_RESPONSE, 0xFF);
    GotIff(first, 0x01, 0xFF);
    InitStepsOutcome(init, classify, p + |first.sent|);
    ThenStep(first, 0xFF, 0x01, IdleTimeout, rest);
  }

  /** The handshake opens with its first `idle` attempt. */
  lemma StepsOpen(idle: nat -> Run, init: nat -> Run, classify: nat -> Handshake, p: nat)
    requires forall q :: !Failed(classify(q).session)
    ensures idle(p).sent <= Steps(idle, init, classify, p).sent
  {
    var first := Retry(idle, 0x01, p, MAX_ITERATION_RESPONSE, 0xFF);
    var rest := InitSteps(init, classify, p + |first.sent|);
    RetryOpens(idle, 0x01, p, MAX_ITERATION_RESPONSE, 0xFF);
    InitStepsOutcome(init, classify, p + |first.sent|);
    ThenStep(first, 0xFF, 0x01, IdleTimeout, rest);
  }

  /** A retry loop that makes an attempt at all puts that attempt on the wire first. */
  lemma RetryOpens(attempt: nat -> Run, want: uint8, p: nat, left: nat, resp: uint8)
    requires resp != want && left > 0
    ensures attempt(p).sent <= Retry(attempt, want, p, left, resp).sent
  {
  }

  /** Every power-up attempt clocks the 256 filler bytes with chip-select
      released, then the GO_IDLE_STATE frame with chip-select asserted. */
  lemma PowerUpOpens(s: seq<uint8>, p: nat)
    ensures Fill(POWERUP_MAX, false) + Send([GO_IDLE_STATE, 0, 0, 0, 0, FRAME_CRC], true) <= Try(s, p, IDLE).sent
  {
    var c := Command(s, p + POWERUP_MAX, GO_IDLE_STATE, 0, true);
    CommandWire(s, p + POWERUP_MAX, GO_IDLE_STATE, 0, true);
    assert Frame(GO_IDLE_STATE, 0) == [GO_IDLE_STATE, 0, 0, 0, 0, FRAME_CRC];
    var opening := Fill(POWERUP_MAX, false) + Send(Frame(GO_IDLE_STATE, 0), true);
    assert Try(s, p, IDLE).sent == opening + Fill(|c.sent| - 6, true);
  }

  /** The classification step never reports a failure. */
  lemma ClassifierSucceeds(s: seq<uint8>)
    ensures forall q :: !Failed(Classifier(s)(q).session)
  {
    forall q: nat ensures !Failed(Classifier(s)(q).session) {
      var h := Classify(s, q);
      assert Classifier(s)(q) == h;
    }
  }

  /** Every handshake begins with the power-up filler, chip-select released,
      followed by a GO_IDLE_STATE frame with chip-select asserted. */
  lemma HandshakeOpens(s: seq<uint8>, p: nat)
    ensures Fill(POWERUP_MAX, false) + Send([GO_IDLE_STATE, 0, 0, 0, 0, FRAME_CRC], true) <= Negotiate(s, p).sent
  {
    ClassifierSucceeds(s);
    StepsOpen(Attempts(s, IDLE), Attempts(s, INIT), Classifier(s), p);
    PowerUpOpens(s, p);
    assert Attempts(s, IDLE)(p) == Try(s, p, IDLE);
  }

  /** After a loop that stops at the first wanted answer, the final response
      is the wanted one exactly when the card gave it at all. */
  lemma GotIff(t: Tries, want: uint8, resp: uint8)
    requires resp != want && |t.answers| >= 1
    requires want !in t.answers[..|t.answers| - 1]
    ensures Final(t, resp) == want <==> want in t.answers
  {
    var n := |t.answers|;
    assert t.answers == t.answers[..n - 1] + [t.answers[n - 1]];
  }

  /** A card that never drives MISO (an empty slot) answers nothing but 0xFF
      to every power-up attempt. */
  lemma {:induction false} SilentRetry(p: nat, left: nat)
    ensures var t := Retry(Attempts([], IDLE), 0x01, p, left, 0xFF);
      |t.answers| == left && forall i :: 0 <= i < left ==> t.answers[i] == 0xFF
    decreases left
  {
    if left > 0 {
      var t := Try([], p, IDLE);
      var c := Command([], p + POWERUP_MAX, GO_IDLE_STATE, 0, true);
      CommandAnswer([], p + POWERUP_MAX, GO_IDLE_STATE, 0, true);
      assert c.result == 0xFF by {
        forall k | p + POWERUP_MAX + 6 <= k < p + POWERUP_MAX + 6 + MAX_ITERATION_RESPONSE
          ensures At([], k) == 0xFF
        {
        }
      }
      assert Attempts([], IDLE)(p) == t;
      SilentRetry(p + |t.sent|, left - 1);
    }
  }

  /** An empty slot times out at the first step, after all 256 attempts. */
  lemma EmptySlot(p: nat)
    ensures Negotiate([], p).session == IdleTimeout
  {
    SilentRetry(p, MAX_ITERATION_RESPONSE);
    var idle := IdleLoop([], p);
    assert idle.answers[|idle.answers| - 1] == 0xFF;
  }
}
