/**
 * The DHT11 humidity and temperature sensor driver (src/hal/dht11.c).
 *
 * The data pin is a stream of sampled levels: `level(i)` is what the i-th
 * call of `gpio_get_pin_level` reads, and `Pin.pos` counts the samples
 * taken so far. Each reception step is specified by a function of the
 * stream and the position it starts at; the methods poll the pin as the
 * driver does and are proved to follow those functions.
 */
module Dht11 {
  import opened Bytes

  datatype Status = DHT11_OK | DHT11_ERROR

  /** Lines 79 and 85: an edge wait gives up after this many polls. */
  const POLL_LIMIT: nat := 255
  /** Line 106: a high phase of at least this many polls is a 1. */
  const ONE_THRESHOLD: nat := 10
  /** Lines 44-51: two humidity bytes, two temperature bytes, the checksum. */
  const FRAME_SIZE: nat := 5
  const CHECKSUM_INDEX: nat := 4
  /** Lines 110-121: a byte is eight bits. */
  const BYTE_BITS: nat := 8

  /** The sensor's data line as the driver samples it. */
  class Pin {
    const level: nat -> bool
    var pos: nat

    constructor (level: nat -> bool)
      ensures this.level == level && pos == 0
    {
      this.level := level;
      pos := 0;
    }

    /** gpio_get_pin_level: the next sample. */
    method Sample() returns (high: bool)
      modifies this`pos
      ensures high == level(old(pos)) && pos == old(pos) + 1
    {
      high := level(pos);
      pos := pos + 1;
    }
  }

  /** A `uint8_t` the caller passes by pointer; `null` is NULL. */
  class Cell {
    var value: byte

    constructor (v: byte)
      ensures value == v
    {
      value := v;
    }
  }

  // ---------------------------------------------------------------------
  // Edges and pulses

  /** The poll count the wait ended with, and the position of the next sample. */
  datatype Edge = Edge(count: nat, next: nat)

  function EdgeFrom(level: nat -> bool, p: nat, want: bool, k: nat): (r: Edge)
    requires k <= POLL_LIMIT
    ensures k <= r.count <= POLL_LIMIT
    ensures r.next == if r.count < POLL_LIMIT then p + r.count + 1 else p + POLL_LIMIT
    decreases POLL_LIMIT - k
  {
    if k == POLL_LIMIT then Edge(POLL_LIMIT, p + POLL_LIMIT)
    else if level(p + k) == want then Edge(k, p + k + 1)
    else EdgeFrom(level, p, want, k + 1)
  }

  lemma {:induction false} EdgeFromFacts(level: nat -> bool, p: nat, want: bool, k: nat)
    requires k <= POLL_LIMIT
    ensures var r := EdgeFrom(level, p, want, k);
      (forall i :: p + k <= i < p + r.count ==> level(i) != want) &&
      (r.count < POLL_LIMIT ==> level(p + r.count) == want)
    decreases POLL_LIMIT - k
  {
    if k < POLL_LIMIT && level(p + k) != want {
      EdgeFromFacts(level, p, want, k + 1);
    }
  }

  /** One poll of the wait: it stops on the wanted level and goes on otherwise. */
  lemma EdgeStep(level: nat -> bool, p: nat, want: bool, k: nat)
    requires k < POLL_LIMIT
    ensures level(p + k) == want ==> EdgeFrom(level, p, want, k) == Edge(k, p + k + 1)
    ensures level(p + k) != want ==> EdgeFrom(level, p, want, k) == EdgeFrom(level, p, want, k + 1)
  {
  }

  /**
   * Lines 76-89: the number of polls before the first sample at level
   * `want`, stopping after POLL_LIMIT; that sample is consumed too.
   */
  function EdgeSpec(level: nat -> bool, p: nat, want: bool): (r: Edge)
    ensures r.count <= POLL_LIMIT
    ensures r.next == if r.count < POLL_LIMIT then p + r.count + 1 else p + POLL_LIMIT
  {
    EdgeFrom(level, p, want, 0)
  }

  /**
   * The count is that of the samples before the first wanted one: all of
   * them differ, and the sample it stops at has the wanted level.
   */
  lemma EdgeFacts(level: nat -> bool, p: nat, want: bool)
    ensures var r := EdgeSpec(level, p, want);
      (forall i :: p <= i < p + r.count ==> level(i) != want) &&
      (r.count < POLL_LIMIT ==> level(p + r.count) == want)
  {
    EdgeFromFacts(level, p, want, 0);
  }

  /** An edge wait fails exactly when none of POLL_LIMIT samples has the wanted level. */
  lemma EdgeFailsIff(level: nat -> bool, p: nat, want: bool)
    ensures EdgeSpec(level, p, want).count == POLL_LIMIT <==> forall i :: p <= i < p + POLL_LIMIT ==> level(i) != want
  {
    EdgeFacts(level, p, want);
    var r := EdgeSpec(level, p, want);
    if r.count < POLL_LIMIT {
      assert level(p + r.count) == want;
    }
  }

  function EdgeStatus(e: Edge): Status
  {
    if e.count == POLL_LIMIT then DHT11_ERROR else DHT11_OK
  }

  /** Outcome of a pulse: its status, the count of the falling wait, the next position. */
  datatype Pulse = Pulse(status: Status, count: nat, next: nat)

  /** Lines 91-96: wait for the line to rise, then count the polls until it falls. */
  function PulseSpec(level: nat -> bool, p: nat): Pulse
  {
    var rise := EdgeSpec(level, p, true);
    if rise.count == POLL_LIMIT then Pulse(DHT11_ERROR, rise.count, rise.next)
    else
      var fall := EdgeSpec(level, rise.next, false);
      Pulse(EdgeStatus(fall), fall.count, fall.next)
  }

  datatype Bit = Bit(status: Status, high: bool, next: nat)

  /** Lines 98-108: a pulse is a 1 when its high phase lasted ONE_THRESHOLD polls or more. */
  function BitSpec(level: nat -> bool, p: nat): Bit
  {
    var pulse := PulseSpec(level, p);
    Bit(pulse.status, pulse.status == DHT11_OK && pulse.count >= ONE_THRESHOLD, pulse.next)
  }

  /**
   * What a bit means on the line: after the rising edge, the line stays
   * high for ONE_THRESHOLD samples exactly when the bit is 1.
   */
  lemma BitMeaning(level: nat -> bool, p: nat)
    requires BitSpec(level, p).status == DHT11_OK
    ensures var rise := EdgeSpec(level, p, true);
      BitSpec(level, p).high <==> forall i :: rise.next <= i < rise.next + ONE_THRESHOLD ==> level(i)
  {
    var rise := EdgeSpec(level, p, true);
    var fall := EdgeSpec(level, rise.next, false);
    EdgeFacts(level, rise.next, false);
    if fall.count < ONE_THRESHOLD {
      assert !level(rise.next + fall.count);
    }
  }

  // ---------------------------------------------------------------------
  // Bytes

  /** The number that bits spell, most significant first. */
  function BitsValue(bits: seq<bool>): nat
  {
    if bits == [] then 0 else 2 * BitsValue(bits[..|bits| - 1]) + (if bits[|bits| - 1] then 1 else 0)
  }

  function Pow2(k: nat): (r: nat)
    ensures r >= 1
  {
    if k == 0 then 1 else 2 * Pow2(k - 1)
  }

  lemma {:induction false} BitsValueBound(bits: seq<bool>)
    ensures BitsValue(bits) < Pow2(|bits|)
    decreases |bits|
  {
    if bits != [] {
      BitsValueBound(bits[..|bits| - 1]);
    }
  }

  /** The low `n` bits of `v`, most significant first. */
  function BitsOf(v: nat, n: nat): (bits: seq<bool>)
    ensures |bits| == n
  {
    if n == 0 then [] else BitsOf(v / 2, n - 1) + [v % 2 == 1]
  }

  /** Round trip: bits spell a number whose bits they are. */
  lemma {:induction false} BitsOfValue(bits: seq<bool>)
    ensures BitsOf(BitsValue(bits), |bits|) == bits
    decreases |bits|
  {
    if bits != [] {
      var init := bits[..|bits| - 1];
      BitsOfValue(init);
      var v := BitsValue(bits);
      assert v / 2 == BitsValue(init) && (v % 2 == 1 <==> bits[|bits| - 1]);
      assert init + [bits[|bits| - 1]] == bits;
    }
  }

  /** Round trip: a number below 2^n is what its n bits spell. */
  lemma {:induction false} ValueOfBits(v: nat, n: nat)
    requires v < Pow2(n)
    ensures BitsValue(BitsOf(v, n)) == v
    decreases n
  {
    if n > 0 {
      ValueOfBits(v / 2, n - 1);
      var bits := BitsOf(v, n);
      assert bits[..|bits| - 1] == BitsOf(v / 2, n - 1);
    }
  }

  datatype Bits = Bits(status: Status, bits: seq<bool>, next: nat)

  /** The first `n` bits of a byte, stopping at the first failed bit. */
  function BitsSpec(level: nat -> bool, p: nat, n: nat): (r: Bits)
    ensures |r.bits| <= n
    ensures r.status == DHT11_OK ==> |r.bits| == n
  {
    if n == 0 then Bits(DHT11_OK, [], p)
    else
      var prev := BitsSpec(level, p, n - 1);
      if prev.status == DHT11_ERROR then prev
      else
        var b := BitSpec(level, prev.next);
        if b.status == DHT11_ERROR then Bits(DHT11_ERROR, prev.bits, b.next)
        else Bits(DHT11_OK, prev.bits + [b.high], b.next)
  }

  /** A failed bit is the last one read. */
  lemma BitsStay(level: nat -> bool, p: nat, n: nat)
    requires BitsSpec(level, p, n).status == DHT11_ERROR
    ensures BitsSpec(level, p, n + 1) == BitsSpec(level, p, n)
  {
  }

  /** Once a bit has failed, reading on changes nothing: the failure is final. */
  lemma {:induction false} BitsErrorSticks(level: nat -> bool, p: nat, m: nat, n: nat)
    requires m <= n && BitsSpec(level, p, m).status == DHT11_ERROR
    ensures BitsSpec(level, p, n) == BitsSpec(level, p, m)
    decreases n - m
  {
    if m < n {
      BitsStay(level, p, m);
      BitsErrorSticks(level, p, m + 1, n);
    }
  }

  datatype Byte = Byte(status: Status, value: byte, next: nat)

  /** Lines 110-121: eight bits, most significant first. */
  function ByteSpec(level: nat -> bool, p: nat): Byte
  {
    var b := BitsSpec(level, p, BYTE_BITS);
    if b.status == DHT11_ERROR then Byte(DHT11_ERROR, 0, b.next)
    else
      BitsValueBound(b.bits);
      assert Pow2(8) == 256;
      Byte(DHT11_OK, BitsValue(b.bits), b.next)
  }

  /**
   * A byte is its eight bits: same status and end, and on success the
   * value is the number they spell, whose bits they are.
   */
  lemma ByteBits(level: nat -> bool, p: nat)
    ensures var b := BitsSpec(level, p, BYTE_BITS); var r := ByteSpec(level, p);
      r.status == b.status && r.next == b.next &&
      (r.status == DHT11_OK ==> r.value == BitsValue(b.bits) && BitsOf(r.value, BYTE_BITS) == b.bits)
  {
    var b := BitsSpec(level, p, BYTE_BITS);
    if b.status == DHT11_OK {
      BitsOfValue(b.bits);
    }
  }

  // ---------------------------------------------------------------------
  // The frame

  datatype Frame = Frame(status: Status, bytes: seq<byte>, next: nat)

  /** The first `n` bytes of the frame, stopping at the first failed byte. */
  function FrameSpec(level: nat -> bool, p: nat, n: nat): (r: Frame)
    ensures |r.bytes| <= n
    ensures r.status == DHT11_OK ==> |r.bytes| == n
  {
    if n == 0 then Frame(DHT11_OK, [], p)
    else
      var prev := FrameSpec(level, p, n - 1);
      if prev.status == DHT11_ERROR then prev
      else
        var b := ByteSpec(level, prev.next);
        if b.status == DHT11_ERROR then Frame(DHT11_ERROR, prev.bytes, b.next)
        else Frame(DHT11_OK, prev.bytes + [b.value], b.next)
  }

  /** A failed byte is the last one read. */
  lemma FrameStay(level: nat -> bool, p: nat, n: nat)
    requires FrameSpec(level, p, n).status == DHT11_ERROR
    ensures FrameSpec(level, p, n + 1) == FrameSpec(level, p, n)
  {
  }

  /** Once a byte has failed, the frame is over: the failure is final. */
  lemma {:induction false} FrameErrorSticks(level: nat -> bool, p: nat, m: nat, n: nat)
    requires m <= n && FrameSpec(level, p, m).status == DHT11_ERROR
    ensures FrameSpec(level, p, n) == FrameSpec(level, p, m)
    decreases n - m
  {
    if m < n {
      FrameStay(level, p, m);
      FrameErrorSticks(level, p, m + 1, n);
    }
  }

  /** Lines 52-62: the sum of the four data bytes in `uint8_t`. */
  function Checksum(bytes: seq<byte>): byte
    requires |bytes| >= CHECKSUM_INDEX
  {
    (bytes[0] as int + bytes[1] as int + bytes[2] as int + bytes[3] as int) % 256
  }

  /** A whole reading: status, humidity, temperature, and the next position. */
  datatype Reading = Reading(status: Status, humidity: byte, temperature: byte, next: nat)

  /**
   * Lines 43-71, from the end of the handshake: five bytes, the checksum
   * compared, and the integral humidity and temperature bytes taken.
   */
  function DecodeSpec(level: nat -> bool, p: nat): (r: Reading)
  {
    var f := FrameSpec(level, p, FRAME_SIZE);
    if f.status == DHT11_ERROR || Checksum(f.bytes) != f.bytes[CHECKSUM_INDEX] then Reading(DHT11_ERROR, 0, 0, f.next)
    else Reading(DHT11_OK, f.bytes[0], f.bytes[2], f.next)
  }

  /**
   * A reading succeeds exactly when all five bytes arrive and the checksum
   * matches; it then reports bytes 0 and 2 and drops the decimal bytes.
   */
  lemma DecodeIff(level: nat -> bool, p: nat)
    ensures var f := FrameSpec(level, p, FRAME_SIZE); var r := DecodeSpec(level, p);
      (r.status == DHT11_OK <==> f.status == DHT11_OK && Checksum(f.bytes) == f.bytes[CHECKSUM_INDEX]) &&
      (r.status == DHT11_OK ==> r.humidity == f.bytes[0] && r.temperature == f.bytes[2])
  {
  }

  /** Any failed byte fails the reading, wherever it is in the frame. */
  lemma ByteFailureAborts(level: nat -> bool, p: nat, k: nat)
    requires k < FRAME_SIZE && FrameSpec(level, p, k + 1).status == DHT11_ERROR
    ensures DecodeSpec(level, p).status == DHT11_ERROR
  {
    FrameErrorSticks(level, p, k + 1, FRAME_SIZE);
    assert FrameSpec(level, p, FRAME_SIZE).status == DHT11_ERROR;
  }

  // ---------------------------------------------------------------------
  // The start handshake

  /** The first position in p..q with level `want`, `q` being one. */
  function FirstIn(level: nat -> bool, p: nat, q: nat, want: bool): (r: nat)
    requires p <= q && level(q) == want
    ensures p <= r <= q
    decreases q - p
  {
    if level(p) == want then p else FirstIn(level, p + 1, q, want)
  }

  lemma {:induction false} FirstInFacts(level: nat -> bool, p: nat, q: nat, want: bool)
    requires p <= q && level(q) == want
    ensures var r := FirstIn(level, p, q, want);
      level(r) == want && forall i :: p <= i < r ==> level(i) != want
    decreases q - p
  {
    if level(p) != want {
      FirstInFacts(level, p + 1, q, want);
    }
  }

  /** FirstIn is the first position: the bound `q` it was given does not matter. */
  lemma FirstInSame(level: nat -> bool, p: nat, q1: nat, q2: nat, want: bool)
    requires p <= q1 && level(q1) == want && p <= q2 && level(q2) == want
    ensures FirstIn(level, p, q1, want) == FirstIn(level, p, q2, want)
  {
    FirstInFacts(level, p, q1, want);
    FirstInFacts(level, p, q2, want);
  }

  /** The sensor answers the start signal: the line goes low, high, and low again. */
  ghost predicate Responds(level: nat -> bool, p: nat)
  {
    exists a, b, c :: p <= a < b < c && !level(a) && level(b) && !level(c)
  }

  ghost function HandshakeFrom(level: nat -> bool, p: nat, a: nat, b: nat, c: nat): nat
    requires p <= a < b < c && !level(a) && level(b) && !level(c)
  {
    var fa := FirstIn(level, p, a, false);
    var fb := FirstIn(level, fa + 1, b, true);
    FirstIn(level, fb + 1, c, false) + 1
  }

  /**
   * Lines 32-41: the position after the three busy-waits, one past the
   * first low sample after the first high one after the first low one.
   */
  ghost function HandshakeEnd(level: nat -> bool, p: nat): nat
    requires Responds(level, p)
  {
    var a, b, c :| p <= a < b < c && !level(a) && level(b) && !level(c);
    HandshakeFrom(level, p, a, b, c)
  }

  /** Two answers to the same start signal end the handshake at the same place. */
  lemma HandshakeFromSame(level: nat -> bool, p: nat, a: nat, b: nat, c: nat, a': nat, b': nat, c': nat)
    requires p <= a < b < c && !level(a) && level(b) && !level(c)
    requires p <= a' < b' < c' && !level(a') && level(b') && !level(c')
    ensures HandshakeFrom(level, p, a, b, c) == HandshakeFrom(level, p, a', b', c')
  {
    FirstInSame(level, p, a, a', false);
    var fa := FirstIn(level, p, a, false);
    FirstInSame(level, fa + 1, b, b', true);
    var fb := FirstIn(level, fa + 1, b, true);
    FirstInSame(level, fb + 1, c, c', false);
  }

  /** The end of the handshake does not depend on which answer witnesses it. */
  lemma HandshakeUnique(level: nat -> bool, p: nat, a: nat, b: nat, c: nat)
    requires p <= a < b < c && !level(a) && level(b) && !level(c)
    ensures HandshakeEnd(level, p) == HandshakeFrom(level, p, a, b, c)
  {
    var a', b', c' :| p <= a' < b' < c' && !level(a') && level(b') && !level(c') &&
      HandshakeEnd(level, p) == HandshakeFrom(level, p, a', b', c');
    HandshakeFromSame(level, p, a, b, c, a', b', c');
  }

  /** The handshake ends one past the third of three first-sample searches. */
  lemma HandshakeSteps(level: nat -> bool, p: nat, a: nat, b: nat, c: nat, fa: nat, fb: nat, fc: nat)
    requires p <= a < b < c && !level(a) && level(b) && !level(c)
    requires fa == FirstIn(level, p, a, false) && fa + 1 <= b
    requires fb == FirstIn(level, fa + 1, b, true) && fb + 1 <= c
    requires fc == FirstIn(level, fb + 1, c, false)
    ensures HandshakeEnd(level, p) == fc + 1
  {
    HandshakeUnique(level, p, a, b, c);
  }

  // ---------------------------------------------------------------------
  // The handshake's unbounded waits (a finding)

  /**
   * As written, lines 33-35 wait for the line to go low with no poll limit:
   * on a line that stays high from `p` on the sensor never answers, so the
   * wait never exits and dht11_read never returns.
   */
  lemma StuckHighHangs(level: nat -> bool, p: nat)
    requires forall i :: p <= i ==> level(i)
    ensures !Responds(level, p)
  {
  }

  /** The outcome of a bounded handshake: its status and the next position. */
  datatype Wake = Wake(status: Status, next: nat)

  /**
   * The handshake with each of its three waits bounded as dht11_rx_edge
   * bounds its wait: at most POLL_LIMIT polls for the low, the high and the
   * low again, and ERROR as soon as one of them runs out.
   */
  function BoundedHandshake(level: nat -> bool, p: nat): (r: Wake)
    ensures p < r.next <= p + 3 * POLL_LIMIT
  {
    var low := EdgeSpec(level, p, false);
    if low.count == POLL_LIMIT then Wake(DHT11_ERROR, low.next)
    else
      var high := EdgeSpec(level, low.next, true);
      if high.count == POLL_LIMIT then Wake(DHT11_ERROR, high.next)
      else
        var low2 := EdgeSpec(level, high.next, false);
        Wake(EdgeStatus(low2), low2.next)
  }

  /** A position whose level is wanted, with none before it from `p`, is FirstIn. */
  lemma FirstInAt(level: nat -> bool, p: nat, q: nat, want: bool)
    requires p <= q && level(q) == want && forall i :: p <= i < q ==> level(i) != want
    ensures FirstIn(level, p, q, want) == q
  {
    FirstInFacts(level, p, q, want);
  }

  /** An edge wait that ends in time stops at the first sample with the wanted level. */
  lemma EdgeFirst(level: nat -> bool, p: nat, want: bool)
    requires EdgeSpec(level, p, want).count < POLL_LIMIT
    ensures var q := p + EdgeSpec(level, p, want).count;
      level(q) == want && FirstIn(level, p, q, want) == q
  {
    EdgeFacts(level, p, want);
    FirstInAt(level, p, p + EdgeSpec(level, p, want).count, want);
  }

  /**
   * The bounded handshake succeeds only on a sensor that answers, and then
   * ends where the unbounded one of lines 32-41 ends.
   */
  lemma BoundedHandshakeAgrees(level: nat -> bool, p: nat)
    ensures BoundedHandshake(level, p).status == DHT11_OK ==>
      Responds(level, p) && BoundedHandshake(level, p).next == HandshakeEnd(level, p)
  {
    var low := EdgeSpec(level, p, false);
    var high := EdgeSpec(level, low.next, true);
    var low2 := EdgeSpec(level, high.next, false);
    if low.count < POLL_LIMIT && high.count < POLL_LIMIT && low2.count < POLL_LIMIT {
      assert BoundedHandshake(level, p) == Wake(DHT11_OK, low2.next);
      ThreeEdges(level, p, low, high, low2);
    }
  }

  /** Three edge waits that each end in time end the handshake. */
  lemma ThreeEdges(level: nat -> bool, p: nat, low: Edge, high: Edge, low2: Edge)
    requires low == EdgeSpec(level, p, false) && high == EdgeSpec(level, low.next, true)
    requires low2 == EdgeSpec(level, high.next, false)
    requires low.count < POLL_LIMIT && high.count < POLL_LIMIT && low2.count < POLL_LIMIT
    ensures Responds(level, p) && low2.next == HandshakeEnd(level, p)
  {
    EdgeFirst(level, p, false);
    EdgeFirst(level, low.next, true);
    EdgeFirst(level, high.next, false);
    var a, b, c := p + low.count, low.next + high.count, high.next + low2.count;
    HandshakeSteps(level, p, a, b, c, a, b, c);
  }

  /** On a line stuck high the bounded handshake fails after POLL_LIMIT polls. */
  lemma BoundedHandshakeStuck(level: nat -> bool, p: nat)
    requires forall i :: p <= i < p + POLL_LIMIT ==> level(i)
    ensures BoundedHandshake(level, p) == Wake(DHT11_ERROR, p + POLL_LIMIT)
  {
    EdgeFailsIff(level, p, false);
  }

  // ---------------------------------------------------------------------
  // The driver

  /** One busy-wait of the handshake: poll until the line shows `want`. */
  method Await(pin: Pin, want: bool, ghost q: nat)
    requires pin.pos <= q && pin.level(q) == want
    modifies pin`pos
    ensures pin.pos == FirstIn(pin.level, old(pin.pos), q, want) + 1
  {
    ghost var p0 := pin.pos;
    var seen := !want;
    while seen != want
      invariant p0 <= pin.pos
      invariant seen != want ==> pin.pos <= q && forall i :: p0 <= i < pin.pos ==> pin.level(i) != want
      invariant seen == want ==>
        p0 < pin.pos <= q + 1 && pin.level(pin.pos - 1) == want && forall i :: p0 <= i < pin.pos - 1 ==> pin.level(i) != want
      decreases if seen == want then 0 else q + 1 - pin.pos
    {
      seen := pin.Sample();
    }
    FirstInFacts(pin.level, p0, q, want);
  }

  /** Lines 32-41: wait for the sensor's low, high, low answer. */
  method Handshake(pin: Pin)
    requires Responds(pin.level, pin.pos)
    modifies pin`pos
    ensures pin.pos == HandshakeEnd(pin.level, old(pin.pos))
  {
    ghost var p0 := pin.pos;
    ghost var a, b, c :| p0 <= a < b < c && !pin.level(a) && pin.level(b) && !pin.level(c);
    Await(pin, false, a);
    ghost var fa := pin.pos - 1;
    Await(pin, true, b);
    ghost var fb := pin.pos - 1;
    Await(pin, false, c);
    HandshakeSteps(pin.level, p0, a, b, c, fa, fb, pin.pos - 1);
  }

  /** dht11_rx_edge. */
  method RxEdge(pin: Pin, want: bool) returns (st: Status, count: nat)
    modifies pin`pos
    ensures Edge(count, pin.pos) == EdgeSpec(pin.level, old(pin.pos), want)
    ensures st == EdgeStatus(Edge(count, pin.pos))
  {
    ghost var p0 := pin.pos;
    count := 0;
    while count < POLL_LIMIT
      invariant count <= POLL_LIMIT && pin.pos == p0 + count
      invariant EdgeFrom(pin.level, p0, want, count) == EdgeSpec(pin.level, p0, want)
    {
      var high := pin.Sample();
      EdgeStep(pin.level, p0, want, count);
      if high == want {
        break;
      }
      count := count + 1;
    }
    st := if count == POLL_LIMIT then DHT11_ERROR else DHT11_OK;
  }

  /** dht11_rx_pulse. */
  method RxPulse(pin: Pin) returns (st: Status, count: nat)
    modifies pin`pos
    ensures Pulse(st, count, pin.pos) == PulseSpec(pin.level, old(pin.pos))
  {
    st, count := RxEdge(pin, true);
    if st != DHT11_OK {
      return DHT11_ERROR, count;
    }
    st, count := RxEdge(pin, false);
  }

  /** dht11_rx_bit. */
  method RxBit(pin: Pin) returns (st: Status, high: bool)
    modifies pin`pos
    ensures Bit(st, high, pin.pos) == BitSpec(pin.level, old(pin.pos))
  {
    var count;
    st, count := RxPulse(pin);
    if st != DHT11_OK {
      return DHT11_ERROR, false;
    }
    high := count >= ONE_THRESHOLD;
  }

  /** dht11_rx_byte: OR-ing each bit in from the top, where it is still clear, adds it. */
  method RxByte(pin: Pin) returns (st: Status, data: byte)
    modifies pin`pos
    ensures st == ByteSpec(pin.level, old(pin.pos)).status && pin.pos == ByteSpec(pin.level, old(pin.pos)).next
    ensures st == DHT11_OK ==> data == ByteSpec(pin.level, old(pin.pos)).value
  {
    ghost var p0 := pin.pos;
    ghost var bits: seq<bool> := [];
    var acc: nat := 0;
    var bit: int := 7;
    while bit >= 0
      invariant -1 <= bit <= 7 && |bits| == 7 - bit
      invariant BitsSpec(pin.level, p0, |bits|) == Bits(DHT11_OK, bits, pin.pos)
      invariant acc == Shifted(bits, |bits|)
    {
      ghost var q := pin.pos;
      var st1, high := RxBit(pin);
      BitsGrow(pin.level, p0, bits, q, st1, high, pin.pos);
      if st1 != DHT11_OK {
        ByteFails(pin.level, p0, |bits| + 1);
        return DHT11_ERROR, 0;
      }
      ShiftedNext(bits, high);
      acc := acc + (if high then Pow2(bit) else 0);
      bits := bits + [high];
      bit := bit - 1;
    }
    ByteDone(pin.level, p0, bits, pin.pos, acc);
    data := acc;
    st := DHT11_OK;
  }

  /** A bit that fails within the byte fails the byte, where it failed. */
  lemma ByteFails(level: nat -> bool, p: nat, n: nat)
    requires 0 < n <= BYTE_BITS && BitsSpec(level, p, n).status == DHT11_ERROR
    ensures ByteSpec(level, p).status == DHT11_ERROR && ByteSpec(level, p).next == BitsSpec(level, p, n).next
  {
    BitsErrorSticks(level, p, n, BYTE_BITS);
    ByteBits(level, p);
  }

  /** After the last bit the accumulator holds the byte the bits spell. */
  lemma ByteDone(level: nat -> bool, p: nat, bits: seq<bool>, q: nat, acc: nat)
    requires |bits| == BYTE_BITS && BitsSpec(level, p, |bits|) == Bits(DHT11_OK, bits, q)
    requires acc == Shifted(bits, |bits|)
    ensures acc < 256 && ByteSpec(level, p) == Byte(DHT11_OK, acc, q)
  {
    ShiftedIsValue(bits);
    assert acc == BitsValue(bits);
    ByteBits(level, p);
    BitsValueBound(bits);
    assert Pow2(8) == 256;
  }

  /** One step of BitsSpec from a run of good bits. */
  lemma BitsGrow(level: nat -> bool, p: nat, bits: seq<bool>, q: nat, st: Status, high: bool, next: nat)
    requires BitsSpec(level, p, |bits|) == Bits(DHT11_OK, bits, q) && Bit(st, high, next) == BitSpec(level, q)
    ensures st != DHT11_OK ==> BitsSpec(level, p, |bits| + 1) == Bits(DHT11_ERROR, bits, next)
    ensures st == DHT11_OK ==> BitsSpec(level, p, |bits| + 1) == Bits(DHT11_OK, bits + [high], next)
  {
  }

  /** The first `n` bits received, each OR-ed in at its place from the top of the byte. */
  function Shifted(bits: seq<bool>, n: nat): nat
    requires n <= |bits| && n <= BYTE_BITS
  {
    if n == 0 then 0 else Shifted(bits, n - 1) + (if bits[n - 1] then Pow2(BYTE_BITS - n) else 0)
  }

  /** A bit received later does not change the first `n`. */
  lemma {:induction false} ShiftedSnoc(bits: seq<bool>, high: bool, n: nat)
    requires n <= |bits| && n <= BYTE_BITS
    ensures Shifted(bits + [high], n) == Shifted(bits, n)
  {
    if n > 0 {
      assert (bits + [high])[n - 1] == bits[n - 1];
      ShiftedSnoc(bits, high, n - 1);
    }
  }

  /** OR-ing one more bit in adds it at its weight. */
  lemma ShiftedNext(bits: seq<bool>, high: bool)
    requires |bits| < BYTE_BITS
    ensures Shifted(bits + [high], |bits| + 1) == Shifted(bits, |bits|) + (if high then Pow2(BYTE_BITS - |bits| - 1) else 0)
  {
    ShiftedSnoc(bits, high, |bits|);
    assert (bits + [high])[|bits|] == high;
  }

  /** The bits OR-ed in from the top are their value shifted up by the bits still to come. */
  lemma {:induction false} ShiftedIsValue(bits: seq<bool>)
    requires |bits| <= BYTE_BITS
    ensures Shifted(bits, |bits|) == BitsValue(bits) * Pow2(BYTE_BITS - |bits|)
    decreases |bits|
  {
    if bits != [] {
      var init := bits[..|bits| - 1];
      var last := bits[|bits| - 1];
      assert init + [last] == bits;
      ShiftedNext(init, last);
      ShiftedIsValue(init);
      ShiftIn(init, last, BYTE_BITS - |bits|);
    }
  }

  /** One more bit, placed at weight 2^k below the ones already there. */
  lemma ShiftIn(bits: seq<bool>, high: bool, k: nat)
    ensures BitsValue(bits) * Pow2(k + 1) + (if high then Pow2(k) else 0) == BitsValue(bits + [high]) * Pow2(k)
  {
    var more := bits + [high];
    assert more[..|more| - 1] == bits && more[|more| - 1] == high;
    var h := if high then 1 else 0;
    assert BitsValue(more) == 2 * BitsValue(bits) + h;
    assert Pow2(k + 1) == 2 * Pow2(k);
    Distribute(BitsValue(bits), h, Pow2(k));
  }

  lemma Distribute(v: nat, h: nat, w: nat)
    ensures (2 * v + h) * w == v * (2 * w) + h * w
  {
  }

  /** The uint8_t checksum after adding the first `n` data bytes. */
  function Partial(bytes: seq<byte>, n: nat): byte
    requires n <= |bytes|
  {
    if n == 0 then 0 else (Partial(bytes, n - 1) as int + bytes[n - 1] as int) % 256
  }

  /** Adding in uint8_t step by step is adding in the integers, then wrapping once. */
  lemma {:induction false} PartialSum(bytes: seq<byte>, n: nat)
    requires n <= |bytes|
    ensures Partial(bytes, n) == Sum(bytes, n) % 256
  {
    if n > 0 {
      PartialSum(bytes, n - 1);
      WrapAdd(Sum(bytes, n - 1), bytes[n - 1]);
    }
  }

  /** Wrapping before an addition or after it gives the same `uint8_t`. */
  lemma WrapAdd(s: int, b: int)
    ensures (s % 256 + b) % 256 == (s + b) % 256
  {
    assert s + b == 256 * (s / 256) + (s % 256 + b);
  }

  function Sum(bytes: seq<byte>, n: nat): int
    requires n <= |bytes|
  {
    if n == 0 then 0 else Sum(bytes, n - 1) + bytes[n - 1] as int
  }

  lemma PartialChecksum(bytes: seq<byte>)
    requires |bytes| >= CHECKSUM_INDEX
    ensures Partial(bytes, CHECKSUM_INDEX) == Checksum(bytes)
  {
    PartialSum(bytes, CHECKSUM_INDEX);
    assert Sum(bytes, 1) == bytes[0] as int;
    assert Sum(bytes, 2) == bytes[0] as int + bytes[1] as int;
    assert Sum(bytes, 3) == bytes[0] as int + bytes[1] as int + bytes[2] as int;
    assert Sum(bytes, 4) == bytes[0] as int + bytes[1] as int + bytes[2] as int + bytes[3] as int;
  }

  /**
   * Lines 43-62: the five bytes in order into `rx`, the first four summed
   * into the `uint8_t` checksum as they arrive; a failed byte ends the frame.
   */
  method RxFrame(pin: Pin) returns (st: Status, rx: array<byte>, checksum: byte)
    modifies pin`pos
    ensures fresh(rx) && rx.Length == FRAME_SIZE
    ensures var f := FrameSpec(pin.level, old(pin.pos), FRAME_SIZE);
      st == f.status && pin.pos == f.next && (st == DHT11_OK ==> rx[..] == f.bytes && checksum == Checksum(f.bytes))
  {
    ghost var p := pin.pos;
    ghost var got: seq<byte> := [];
    checksum := 0;
    rx := new byte[FRAME_SIZE];
    for index := 0 to FRAME_SIZE
      invariant |got| == index && rx[..index] == got
      invariant FrameSpec(pin.level, p, index) == Frame(DHT11_OK, got, pin.pos)
      invariant checksum == Partial(got, Summed(index))
    {
      ghost var q := pin.pos;
      var st1, b := RxByte(pin);
      FrameGrow(pin.level, p, index, got, q);
      if st1 != DHT11_OK {
        FrameErrorSticks(pin.level, p, index + 1, FRAME_SIZE);
        return DHT11_ERROR, rx, checksum;
      }
      rx[index] := b;
      assert rx[..index + 1] == got + [b];
      ghost var before := checksum;
      if index < CHECKSUM_INDEX {
        checksum := (checksum as int + b as int) % 256;
      }
      ChecksumStep(got, b, index, before, checksum);
      got := got + [b];
    }
    assert rx[..] == rx[..FRAME_SIZE];
    PartialChecksum(got);
    st := DHT11_OK;
  }

  /** How many of the first `index` bytes go into the checksum. */
  function Summed(index: nat): nat
  {
    if index < CHECKSUM_INDEX then index else CHECKSUM_INDEX
  }

  /** Reading byte `b` moves the partial checksum on by `b` exactly when its index is summed. */
  lemma ChecksumStep(got: seq<byte>, b: byte, index: nat, c: byte, next: byte)
    requires |got| == index && c == Partial(got, Summed(index))
    requires next as int == if index < CHECKSUM_INDEX then (c as int + b as int) % 256 else c as int
    ensures next == Partial(got + [b], Summed(index + 1))
  {
    PartialSnoc(got, b, Summed(index));
    if index < CHECKSUM_INDEX {
      PartialNext(got + [b], index);
    }
  }

  lemma PartialNext(bytes: seq<byte>, n: nat)
    requires n < |bytes|
    ensures Partial(bytes, n + 1) == (Partial(bytes, n) as int + bytes[n] as int) % 256
  {
  }

  /** One step of FrameSpec from a run of good bytes. */
  lemma FrameGrow(level: nat -> bool, p: nat, n: nat, bytes: seq<byte>, q: nat)
    requires FrameSpec(level, p, n) == Frame(DHT11_OK, bytes, q)
    ensures var b := ByteSpec(level, q);
      FrameSpec(level, p, n + 1) == if b.status == DHT11_ERROR then Frame(DHT11_ERROR, bytes, b.next) else Frame(DHT11_OK, bytes + [b.value], b.next)
  {
  }

  /**
   * dht11_read: a NULL output fails before the pin is polled; otherwise
   * the handshake, the frame, the checksum test, and the two writes
   * (humidity first, so an aliased pair ends with the temperature).
   */
  method Read(pin: Pin, temperature: Cell?, humidity: Cell?) returns (st: Status)
    requires temperature != null && humidity != null ==> Responds(pin.level, pin.pos)
    modifies pin`pos, temperature, humidity
    ensures temperature == null || humidity == null ==> st == DHT11_ERROR && pin.pos == old(pin.pos)
    ensures temperature == null || humidity == null ==>
      (temperature != null ==> temperature.value == old(temperature.value)) &&
      (humidity != null ==> humidity.value == old(humidity.value))
    ensures temperature != null && humidity != null ==>
      var r := DecodeSpec(pin.level, HandshakeEnd(pin.level, old(pin.pos)));
      st == r.status && pin.pos == r.next &&
      (st == DHT11_OK ==> temperature.value == r.temperature && (humidity != temperature ==> humidity.value == r.humidity)) &&
      (st == DHT11_ERROR ==> temperature.value == old(temperature.value) && humidity.value == old(humidity.value))
  {
    if temperature == null || humidity == null {
      return DHT11_ERROR;
    }
    Handshake(pin);
    var rx, checksum;
    st, rx, checksum := RxFrame(pin);
    if st != DHT11_OK || checksum != rx[CHECKSUM_INDEX] {
      return DHT11_ERROR;
    }
    humidity.value := rx[0];
    temperature.value := rx[2];
  }

  /** Bytes appended after the first `n` do not change their partial sum. */
  lemma {:induction false} PartialSnoc(bytes: seq<byte>, b: byte, n: nat)
    requires n <= |bytes|
    ensures Partial(bytes + [b], n) == Partial(bytes, n)
  {
    if n > 0 {
      assert (bytes + [b])[n - 1] == bytes[n - 1];
      PartialSnoc(bytes, b, n - 1);
    }
  }
}
