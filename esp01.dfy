/**
 * The ESP-01 AT-command bridge (src/hal/esp01.c).
 *
 * The driver's globals become the fields of one `Bridge` object: the
 * 200-byte receive buffer `g_rx_buf`, its fill cursor `gp_rx_buf_itr`, the
 * overflow flag and the registered request handler `gh_respond`. The serial
 * line is a `Usart.Uart`. Every operation is specified by a function on the
 * abstract `State` (the buffer as a sequence, the cursor, the flag, the
 * handler and the transport), and the lemmas below state what the firmware
 * promises about those functions.
 */
module Esp01 {
  import opened Bytes
  import opened Usart

  const RX_BUF_SIZE: nat := 200
  const BAUD_RATE: nat := 9600

  datatype Status = ESP01_OK | ESP01_ERROR | ESP01_DROP

  /** `const char *(*)(const char *)`: request payload to reply text. */
  type Handler = seq<byte> -> seq<byte>

  // Tokens searched for in modem output, and the fixed AT commands.
  const OK_TOKEN: seq<byte> := Ascii("\r\nOK\r\n")
  const ERROR_TOKEN: seq<byte> := Ascii("\r\nERROR\r\n")
  const CLOSED_MARK: seq<byte> := Ascii("CLOSED\r\n")
  const CONNECT_MARK: seq<byte> := Ascii("CONNECT\r\n")
  const IPD_MARK: seq<byte> := Ascii("+IPD")
  const COMMA: byte := 44
  const COLON: byte := 58
  const CRLF: seq<byte> := Ascii("\r\n")
  const CWMODE_CMD: seq<byte> := Ascii("AT+CWMODE=2\r\n")
  const CWSAP_HEAD: seq<byte> := Ascii("AT+CWSAP=")
  const QUOTE: seq<byte> := Ascii("\"")
  const QUOTE_COMMA_QUOTE: seq<byte> := Ascii("\",\"")
  const CWSAP_TAIL: seq<byte> := Ascii("\",11,4\r\n")
  const CIPMUX_CMD: seq<byte> := Ascii("AT+CIPMUX=1\r\n")
  const CIPSERVER_HEAD: seq<byte> := Ascii("AT+CIPSERVER=1,")
  const CIPSERVER_STOP: seq<byte> := Ascii("AT+CIPSERVER=0\r\n")
  const CIPSEND_HEAD: seq<byte> := Ascii("AT+CIPSEND=")

  // ---------------------------------------------------------------------
  // Frame receiver (esp01_rx_g_buf)

  /** The number of bytes at the head of `q` before its first timeout. */
  function Leading(q: seq<RxEvent>): (k: nat)
    ensures k <= |q|
    ensures forall i :: 0 <= i < k ==> q[i].Byte?
    ensures k < |q| ==> q[k].Timeout?
  {
    if q == [] || q[0].Timeout? then 0 else 1 + Leading(q[1..])
  }

  /** The bytes carried by a run of byte events. */
  function Payload(q: seq<RxEvent>): (r: seq<byte>)
    requires forall i :: 0 <= i < |q| ==> q[i].Byte?
    ensures |r| == |q|
    ensures forall i :: 0 <= i < |q| ==> r[i] == q[i].b
  {
    if q == [] then [] else [q[0].b] + Payload(q[1..])
  }

  /**
   * One received frame: the bytes kept in the buffer before its terminating
   * NUL, whether the buffer overflowed, and the events left on the line.
   * On overflow the 200th byte is consumed but overwritten by the NUL.
   */
  datatype Frame = Frame(data: seq<byte>, overflow: bool, rest: seq<RxEvent>)

  function Receive(q: seq<RxEvent>): (f: Frame)
    ensures |f.data| < RX_BUF_SIZE
  {
    var k := Leading(q);
    if k < RX_BUF_SIZE then Frame(Payload(q[..k]), false, Drop(q, k + 1))
    else Frame(Payload(q[..RX_BUF_SIZE - 1]), true, q[RX_BUF_SIZE..])
  }

  // ---------------------------------------------------------------------
  // Abstract state and the specification of each operation

  datatype State = State(
    buf: seq<byte>,             // g_rx_buf
    cursor: nat,                // gp_rx_buf_itr - g_rx_buf
    overflow: bool,             // gb_rx_buf_overflow
    handler: Option<Handler>,   // gh_respond (None is NULL)
    pending: seq<RxEvent>,      // what the modem will still send
    sent: seq<byte>,            // what was transmitted to the modem
    rxIsr: bool)                // receive-complete ISR registered

  ghost predicate Good(s: State)
  {
    |s.buf| == RX_BUF_SIZE && s.cursor <= RX_BUF_SIZE
  }

  datatype Step = Step(status: Status, st: State)

  /** esp01_tx_str: the bytes of the C string, in order. */
  function Tx(s: State, str: seq<byte>): State
  {
    s.(sent := s.sent + CStr(str))
  }

  /** esp01_rx_g_buf: the frame lands in the buffer, NUL-terminated. */
  function RxSpec(s: State): (r: Step)
    requires Good(s)
    ensures Good(r.st)
  {
    var f := Receive(s.pending);
    var n := |f.data|;
    Step(if f.overflow then ESP01_DROP else ESP01_OK,
         s.(buf := f.data + [NUL] + s.buf[n + 1..],
            cursor := if f.overflow then RX_BUF_SIZE else n,
            overflow := f.overflow,
            pending := f.rest))
  }

  /** esp01_parse_g_buf on a C-string view and the overflow flag. */
  function Classify(text: seq<byte>, overflow: bool): Status
  {
    if overflow then ESP01_DROP
    else if Contains(text, OK_TOKEN) then ESP01_OK
    else if Contains(text, ERROR_TOKEN) then ESP01_ERROR
    else ESP01_DROP
  }

  function ParseSpec(s: State): Status
  {
    Classify(CStr(s.buf), s.overflow)
  }

  /** Transmit a command, receive the answer, classify it. */
  function Command(s: State, cmd: seq<byte>): (r: Step)
    requires Good(s)
    ensures Good(r.st)
  {
    var a := RxSpec(Tx(s, cmd)).st;
    Step(ParseSpec(a), a)
  }

  /** esp01_init: usart_init at 9600 baud, then every USART ISR unregistered. */
  function InitSpec(s: State): Step
  {
    if BAUD_RATE_MIN <= BAUD_RATE <= BAUD_RATE_MAX then Step(ESP01_OK, s.(rxIsr := false))
    else Step(ESP01_ERROR, s)
  }

  /** The CWSAP command as it goes out in six transmissions. */
  function TxCwsap(s: State, ssid: seq<byte>, pass: seq<byte>): State
  {
    Tx(Tx(Tx(Tx(Tx(Tx(s, CWSAP_HEAD), QUOTE), ssid), QUOTE_COMMA_QUOTE), pass), CWSAP_TAIL)
  }

  function InitApSpec(s: State, ssid: seq<byte>, pass: seq<byte>): (r: Step)
    requires Good(s)
    ensures Good(r.st)
  {
    var i := InitSpec(s);
    if i.status != ESP01_OK then i
    else if i.st.handler.Some? then Step(ESP01_DROP, i.st)
    else
      var m := Command(i.st, CWMODE_CMD);
      if m.status != ESP01_OK then m
      else
        var a := RxSpec(TxCwsap(m.st, ssid, pass)).st;
        Step(ParseSpec(a), a)
  }

  function RunServerSpec(s: State, port: seq<byte>, h: Option<Handler>): (r: Step)
    requires Good(s)
    ensures Good(r.st)
  {
    if h.None? then Step(ESP01_ERROR, s)
    else
      var m := Command(s.(handler := h), CIPMUX_CMD);
      if m.status != ESP01_OK then m
      else
        var a := RxSpec(Tx(Tx(Tx(m.st, CIPSERVER_HEAD), port), CRLF)).st;
        var b := a.(rxIsr := true);
        Step(ParseSpec(b), b)
  }

  function KillServerSpec(s: State): (r: Step)
    requires Good(s)
    ensures Good(r.st)
  {
    if s.handler.None? then Step(ESP01_OK, s)
    else Command(s.(rxIsr := false, handler := None), CIPSERVER_STOP)
  }

  // ---------------------------------------------------------------------
  // Notification parser and dispatcher (esp01_server_routine)

  /** Positions of the two commas and the colon after `+IPD`, if all are there. */
  datatype IpdFields = Malformed | Fields(comma1: nat, comma2: nat, colon: nat)

  function ParseIpd(text: seq<byte>, ipd: nat): (r: IpdFields)
    ensures r.Fields? ==> ipd <= r.comma1 < r.comma2 < r.colon < |text|
    ensures r.Fields? ==> text[r.comma1] == COMMA && text[r.comma2] == COMMA && text[r.colon] == COLON
    ensures r.Fields? ==> forall i :: ipd <= i < r.comma1 ==> text[i] != COMMA
    ensures r.Fields? ==> forall i :: r.comma1 < i < r.comma2 ==> text[i] != COMMA
    ensures r.Fields? ==> forall i :: r.comma2 < i < r.colon ==> text[i] != COLON
  {
    match FindByte(text, COMMA, ipd)
    case None => Malformed
    case Some(c1) =>
      match FindByte(text, COMMA, c1 + 1)
      case None => Malformed
      case Some(c2) =>
        match FindByte(text, COLON, c2 + 1)
        case None => Malformed
        case Some(colon) => Fields(c1, c2, colon)
  }

  /**
   * The bound check of the payload length: the announced payload must have
   * arrived, ending at or before the cursor, so the NUL written after it,
   * at `dataStart + len`, lies inside the received frame and the buffer.
   */
  predicate PayloadFits(dataStart: nat, len: nat, cursor: nat)
  {
    dataStart + len <= cursor
  }

  /**
   * The outcome of one service call: status, new state, and the payload the
   * handler was called with, if it was called.
   */
  datatype Served = Served(status: Status, st: State, request: Option<seq<byte>>)

  /** A frame was just received without overflow: the buffer holds a NUL at the cursor. */
  ghost predicate Received(s: State)
  {
    Good(s) && s.cursor < RX_BUF_SIZE && s.buf[s.cursor] == NUL && !s.overflow
  }

  function RoutineSpec(s: State): (r: Served)
    requires Good(s) && s.handler.Some?
    ensures Good(r.st)
  {
    var rx := RxSpec(s);
    if rx.status == ESP01_DROP then Served(ESP01_DROP, rx.st, None)
    else ServeFrameSpec(rx.st)
  }

  /** Lines 136-158: recognise the notification and locate the +IPD fields. */
  function ServeFrameSpec(s: State): (r: Served)
    requires Received(s) && s.handler.Some?
    ensures Good(r.st)
  {
    if s.cursor == 0 then Served(ESP01_OK, s, None)
    else
      var text := CStr(s.buf);
      if !Contains(text, CLOSED_MARK) && !Contains(text, CONNECT_MARK) then Served(ESP01_DROP, s, None)
      else
        match Find(text, IPD_MARK, 0)
        case None => Served(ESP01_OK, s, None)
        case Some(ipd) =>
          match ParseIpd(text, ipd)
          case Malformed => Served(ESP01_DROP, s, None)
          case Fields(c1, c2, colon) => ServeIpdSpec(s, c1, c2, colon)
  }

  /** Lines 154-171: split the fields in place, check the bound, call the handler. */
  function ServeIpdSpec(s: State, c1: nat, c2: nat, colon: nat): (r: Served)
    requires Received(s) && s.handler.Some?
    requires c1 < c2 < colon < RX_BUF_SIZE
    ensures Good(r.st)
  {
    var b1 := Put(s.buf, colon, NUL);
    var len := Field(b1, c2 + 1);
    var b2 := Put(b1, c2, NUL);
    var id := Field(b2, c1 + 1);
    DeliverSpec(s.(buf := b2), id, len, colon + 1)
  }

  /** ServeIpdSpec is the delivery of the two fields cut out of the header. */
  lemma ServeIpdFields(s: State, c1: nat, c2: nat, colon: nat, b1: seq<byte>, b2: seq<byte>, id: byte, len: byte)
    requires Received(s) && s.handler.Some? && c1 < c2 < colon < RX_BUF_SIZE
    requires b1 == s.buf[colon := NUL] && b2 == b1[c2 := NUL]
    requires len == Field(b1, c2 + 1) && id == Field(b2, c1 + 1)
    ensures ServeIpdSpec(s, c1, c2, colon) == DeliverSpec(s.(buf := b2), id, len, colon + 1)
  {
  }

  /** `atoi` of the C string at `from`, converted to `uint8_t`. */
  function Field(b: seq<byte>, from: nat): (v: byte)
    requires from <= |b|
  {
    ToU8(Atoi(CStr(b[from..])))
  }

  /**
   * Lines 160-171: bound-check the announced length, cut the payload out of
   * the buffer with a NUL and hand it to the handler.
   */
  function DeliverSpec(s: State, id: byte, len: byte, dataStart: nat): (r: Served)
    requires Good(s) && s.cursor < RX_BUF_SIZE && s.handler.Some? && dataStart <= RX_BUF_SIZE
    ensures Good(r.st)
  {
    if !PayloadFits(dataStart, len, s.cursor) then Served(ESP01_DROP, s, None)
    else
      var b3 := Put(s.buf, dataStart + len, NUL);
      var payload := CStr(b3[dataStart..]);
      var reply := s.handler.value(payload);
      var replyLen := ToU8(StrLen(reply));
      var s2 := s.(buf := b3);
      if replyLen == 0 then Served(ESP01_OK, s2, Some(payload))
      else
        var d := SendReplySpec(s2, Dec(id) + [COMMA] + Dec(replyLen), reply);
        Served(d.status, d.st, Some(payload))
  }

  /** Lines 173-186: announce with AT+CIPSEND, then send the reply. */
  function SendReplySpec(s: State, idLen: seq<byte>, reply: seq<byte>): (r: Step)
    requires Good(s)
    ensures Good(r.st)
  {
    var a := RxSpec(Tx(Tx(Tx(s, CIPSEND_HEAD), idLen), CRLF));
    if a.status != ESP01_OK then Step(ESP01_ERROR, a.st)
    else RxSpec(Tx(Tx(a.st, reply), CRLF))
  }

  lemma StrLenBound(b: seq<byte>, n: nat)
    requires n < |b| && b[n] == NUL
    ensures StrLen(b) <= n
  {
  }

  /** How the buffer looks after a frame of `n` bytes was received into it. */
  lemma RxLayout(q: seq<RxEvent>, b0: seq<byte>, b: seq<byte>, n: nat)
    requires n < |b| == |b0| && n <= Leading(q)
    requires forall j :: 0 <= j < n ==> b[j] == q[j].b
    requires b[n] == NUL
    requires forall j :: n < j < |b| ==> b[j] == b0[j]
    ensures b == Payload(q[..n]) + [NUL] + b0[n + 1..]
  {
  }

  /** RxSpec when the line falls silent after `n` bytes that fit. */
  lemma RxSpecFrame(s: State, n: nat, b: seq<byte>)
    requires Good(s) && n < RX_BUF_SIZE && n <= Leading(s.pending)
    requires NextEvent(s.pending[n..]).Timeout?
    requires b == Payload(s.pending[..n]) + [NUL] + s.buf[n + 1..]
    ensures RxSpec(s) == Step(ESP01_OK, s.(buf := b, cursor := n, overflow := false, pending := Drop(s.pending, n + 1)))
  {
    assert Leading(s.pending) == n;
  }

  /** RxSpec when 200 bytes arrive without a pause. */
  lemma RxSpecOverflow(s: State, b: seq<byte>)
    requires Good(s) && RX_BUF_SIZE <= Leading(s.pending)
    requires b == Payload(s.pending[..RX_BUF_SIZE - 1]) + [NUL] + s.buf[RX_BUF_SIZE..]
    ensures RxSpec(s) == Step(ESP01_DROP, s.(buf := b, cursor := RX_BUF_SIZE, overflow := true, pending := s.pending[RX_BUF_SIZE..]))
  {
  }

  // ---------------------------------------------------------------------
  // The driver itself

  class Bridge {
    const uart: Uart
    const buf: array<byte>
    var cursor: nat
    var overflow: bool
    var handler: Option<Handler>

    /** The ISR is only ever registered while a handler is. */
    ghost predicate Valid()
      reads this, uart
    {
      buf.Length == RX_BUF_SIZE && cursor <= RX_BUF_SIZE && (uart.rxIsr ==> handler.Some?)
    }

    ghost function Model(): (s: State)
      reads this, uart, buf
      ensures Valid() ==> Good(s)
    {
      State(buf[..], cursor, overflow, handler, uart.pending, uart.sent, uart.rxIsr)
    }

    /** Power-up: zeroed statics, no handler, no ISR; `input` is what the modem will send. */
    constructor (input: seq<RxEvent>)
      ensures Valid() && fresh(uart) && fresh(buf)
      ensures Model() == State(seq(RX_BUF_SIZE, _ => NUL), 0, false, None, input, [], false)
    {
      uart := new Uart(input);
      buf := new byte[RX_BUF_SIZE](_ => NUL);
      cursor, overflow, handler := 0, false, None;
    }

    method TxStr(str: seq<byte>) returns (st: Status)
      requires Valid()
      modifies uart`sent
      ensures Valid()
      ensures st == ESP01_OK && Model() == Tx(old(Model()), str)
    {
      var i := 0;
      while i < |str| && str[i] != NUL
        invariant i <= |str| && NoNul(str[..i])
        invariant uart.sent == old(uart.sent) + str[..i]
      {
        var _ := uart.Tx(str[i]);
        assert str[..i + 1] == str[..i] + [str[i]];
        i := i + 1;
      }
      CStrUnique(str, i);
      st := ESP01_OK;
    }

    /**
     * The loop of esp01_rx_g_buf: store bytes until the line falls silent
     * (`silent`, the timeout stored no byte) or the buffer is full.
     */
    method Fill() returns (n: nat, silent: bool)
      requires Valid()
      modifies buf, uart`pending
      ensures n <= RX_BUF_SIZE && n <= Leading(old(uart.pending))
      ensures silent ==> n < RX_BUF_SIZE && NextEvent(old(uart.pending)[n..]).Timeout?
      ensures silent ==> uart.pending == Drop(old(uart.pending), n + 1)
      ensures !silent ==> n == RX_BUF_SIZE && uart.pending == old(uart.pending)[n..]
      ensures forall j :: 0 <= j < n ==> buf[j] == old(uart.pending)[j].b
      ensures forall j :: n <= j < RX_BUF_SIZE ==> buf[j] == old(buf[j])
    {
      ghost var q := uart.pending;
      n := 0;
      while n != RX_BUF_SIZE
        invariant n <= RX_BUF_SIZE && n <= Leading(q)
        invariant uart.pending == q[n..]
        invariant forall j :: 0 <= j < n ==> buf[j] == q[j].b
        invariant forall j :: n <= j < RX_BUF_SIZE ==> buf[j] == old(buf[j])
      {
        var ev := uart.Rx();
        if ev.Timeout? {
          return n, true;
        }
        buf[n] := ev.b;
        n := n + 1;
      }
      silent := false;
    }

    method RxGBuf() returns (st: Status)
      requires Valid()
      modifies this`cursor, this`overflow, buf, uart`pending
      ensures Valid()
      ensures Step(st, Model()) == RxSpec(old(Model()))
    {
      ghost var s0 := Model();
      overflow := false;
      var n, silent := Fill();
      if silent {
        buf[n] := NUL;
        cursor := n;
        RxLayout(s0.pending, s0.buf, buf[..], n);
        RxSpecFrame(s0, n, buf[..]);
        return ESP01_OK;
      }
      cursor := RX_BUF_SIZE;
      buf[RX_BUF_SIZE - 1] := NUL;
      overflow := true;
      RxLayout(s0.pending, s0.buf, buf[..], RX_BUF_SIZE - 1);
      RxSpecOverflow(s0, buf[..]);
      st := ESP01_DROP;
    }

    method ParseGBuf() returns (st: Status)
      requires Valid()
      ensures st == ParseSpec(Model())
    {
      if overflow {
        return ESP01_DROP;
      }
      var text := CStr(buf[..]);
      if Contains(text, OK_TOKEN) {
        return ESP01_OK;
      }
      if Contains(text, ERROR_TOKEN) {
        return ESP01_ERROR;
      }
      st := ESP01_DROP;
    }

    /** The repeated pattern "esp01_rx_g_buf(); status = esp01_parse_g_buf();". */
    method Await() returns (st: Status)
      requires Valid()
      modifies this`cursor, this`overflow, buf, uart`pending
      ensures Valid()
      ensures var a := RxSpec(old(Model())).st; st == ParseSpec(a) && Model() == a
    {
      st := RxGBuf();
      st := ParseGBuf();
    }

    /** Transmit one command and await its classified answer. */
    method Exchange(cmd: seq<byte>) returns (st: Status)
      requires Valid()
      modifies this`cursor, this`overflow, buf, uart`pending, uart`sent
      ensures Valid()
      ensures Step(st, Model()) == Command(old(Model()), cmd)
    {
      st := TxStr(cmd);
      st := Await();
    }

    method Init() returns (st: Status)
      requires Valid()
      modifies uart`rxIsr
      ensures Valid()
      ensures Step(st, Model()) == InitSpec(old(Model()))
    {
      var u := uart.Init(BAUD_RATE);
      if u != USART_OK {
        return ESP01_ERROR;
      }
      u := uart.ConfigureRxIsr(false);
      st := ESP01_OK;
    }

    method InitAsAccessPoint(ssid: seq<byte>, pass: seq<byte>) returns (st: Status)
      requires Valid()
      modifies this`cursor, this`overflow, buf, uart
      ensures Valid()
      ensures Step(st, Model()) == InitApSpec(old(Model()), ssid, pass)
    {
      st := Init();
      if st != ESP01_OK {
        return;
      }
      if handler.Some? {
        return ESP01_DROP;
      }
      st := Exchange(CWMODE_CMD);
      if st != ESP01_OK {
        return;
      }
      st := TxStr(CWSAP_HEAD);
      st := TxStr(QUOTE);
      st := TxStr(ssid);
      st := TxStr(QUOTE_COMMA_QUOTE);
      st := TxStr(pass);
      st := TxStr(CWSAP_TAIL);
      st := Await();
    }

    /** Three transmissions in a row: a command head, its argument, CRLF. */
    method TxLine(head: seq<byte>, arg: seq<byte>)
      requires Valid()
      modifies uart`sent
      ensures Valid()
      ensures Model() == Tx(Tx(Tx(old(Model()), head), arg), CRLF)
    {
      var st := TxStr(head);
      st := TxStr(arg);
      st := TxStr(CRLF);
    }

    /** The listen step of esp01_run_server: CIPSERVER, then the ISR, then the verdict. */
    method Listen(port: seq<byte>) returns (st: Status)
      requires Valid() && handler.Some?
      modifies this`cursor, this`overflow, buf, uart
      ensures Valid()
      ensures var a := RxSpec(Tx(Tx(Tx(old(Model()), CIPSERVER_HEAD), port), CRLF)).st.(rxIsr := true);
        st == ParseSpec(a) && Model() == a
    {
      TxLine(CIPSERVER_HEAD, port);
      st := RxGBuf();
      ghost var s1 := Model();
      var _ := uart.ConfigureRxIsr(true);
      assert Model() == s1.(rxIsr := true);
      st := ParseGBuf();
    }

    method RunServer(port: seq<byte>, h: Option<Handler>) returns (st: Status)
      requires Valid()
      modifies this`handler, this`cursor, this`overflow, buf, uart
      ensures Valid()
      ensures Step(st, Model()) == RunServerSpec(old(Model()), port, h)
    {
      if h.None? {
        return ESP01_ERROR;
      }
      ghost var s0 := Model();
      handler := h;
      assert Model() == s0.(handler := h);
      st := Exchange(CIPMUX_CMD);
      if st != ESP01_OK {
        return;
      }
      st := Listen(port);
    }

    method KillServer() returns (st: Status)
      requires Valid()
      modifies this, buf, uart
      ensures Valid()
      ensures Step(st, Model()) == KillServerSpec(old(Model()))
    {
      if handler.None? {
        return ESP01_OK;
      }
      ghost var s0 := Model();
      var _ := uart.ConfigureRxIsr(false);
      handler := None;
      assert Model() == s0.(rxIsr := false, handler := None);
      st := Exchange(CIPSERVER_STOP);
    }

    /** esp01_server_routine: receive one notification and serve it. */
    method ServerRoutine() returns (st: Status, ghost request: Option<seq<byte>>)
      requires Valid() && handler.Some?
      modifies this`cursor, this`overflow, buf, uart
      ensures Valid()
      ensures Served(st, Model(), request) == RoutineSpec(old(Model()))
    {
      st := RxGBuf();
      if st == ESP01_DROP {
        return ESP01_DROP, None;
      }
      st, request := ServeFrame();
    }

    method ServeFrame() returns (st: Status, ghost request: Option<seq<byte>>)
      requires Valid() && handler.Some? && Received(Model())
      modifies this`cursor, this`overflow, buf, uart
      ensures Valid()
      ensures Served(st, Model(), request) == ServeFrameSpec(old(Model()))
    {
      if cursor == 0 {
        return ESP01_OK, None;
      }
      var text := CStr(buf[..]);
      if !Contains(text, CLOSED_MARK) && !Contains(text, CONNECT_MARK) {
        return ESP01_DROP, None;
      }
      var ipd := Find(text, IPD_MARK, 0);
      if ipd.None? {
        return ESP01_OK, None;
      }
      var f := ParseIpd(text, ipd.value);
      if f.Malformed? {
        return ESP01_DROP, None;
      }
      st, request := ServeIpd(f.comma1, f.comma2, f.colon);
    }

    /** Cut the length and the link id out of the header with NULs, in place. */
    method ServeIpd(c1: nat, c2: nat, colon: nat) returns (st: Status, ghost request: Option<seq<byte>>)
      requires Valid() && handler.Some? && Received(Model())
      requires c1 < c2 < colon < RX_BUF_SIZE
      modifies this`cursor, this`overflow, buf, uart
      ensures Valid()
      ensures Served(st, Model(), request) == ServeIpdSpec(old(Model()), c1, c2, colon)
    {
      ghost var s0 := Model();
      buf[colon] := NUL;
      ghost var b1 := buf[..];
      var len := Field(buf[..], c2 + 1);
      buf[c2] := NUL;
      var id := Field(buf[..], c1 + 1);
      ServeIpdFields(s0, c1, c2, colon, b1, buf[..], id, len);
      assert Model() == s0.(buf := buf[..]);
      st, request := Deliver(id, len, colon + 1);
    }

    method Deliver(id: byte, len: byte, dataStart: nat) returns (st: Status, ghost request: Option<seq<byte>>)
      requires Valid() && handler.Some? && cursor < RX_BUF_SIZE && dataStart <= RX_BUF_SIZE
      modifies this`cursor, this`overflow, buf, uart
      ensures Valid()
      ensures Served(st, Model(), request) == DeliverSpec(old(Model()), id, len, dataStart)
    {
      if !PayloadFits(dataStart, len, cursor) {
        return ESP01_DROP, None;
      }
      buf[dataStart + len] := NUL;
      var payload := CStr(buf[dataStart..]);
      var reply := handler.value(payload);
      var replyLen := ToU8(StrLen(reply));
      request := Some(payload);
      if replyLen == 0 {
        return ESP01_OK, request;
      }
      st := SendReply(Dec(id) + [COMMA] + Dec(replyLen), reply);
    }

    method SendReply(idLen: seq<byte>, reply: seq<byte>) returns (st: Status)
      requires Valid()
      modifies this`cursor, this`overflow, buf, uart`pending, uart`sent
      ensures Valid()
      ensures Step(st, Model()) == SendReplySpec(old(Model()), idLen, reply)
    {
      TxLine(CIPSEND_HEAD, idLen);
      st := RxGBuf();
      if st != ESP01_OK {
        return ESP01_ERROR;
      }
      st := TxStr(reply);
      st := TxStr(CRLF);
      st := RxGBuf();
    }

    /** esp01_rx_complete_isr: the service routine, its status discarded. */
    method RxCompleteIsr()
      requires Valid() && uart.rxIsr
      modifies this`cursor, this`overflow, buf, uart
      ensures Valid()
      ensures Model() == RoutineSpec(old(Model())).st
    {
      var st, request := ServerRoutine();
    }
  }
}
