/**
 * What the ESP-01 bridge promises, stated over the specification functions
 * of module Esp01 (and so, through the methods' contracts, over the driver).
 */
module Esp01Lemmas {
  import opened Bytes
  import opened Usart
  import opened Esp01

  /** The events of a burst of bytes arriving back to back. */
  function Events(bs: seq<byte>): (q: seq<RxEvent>)
    ensures |q| == |bs|
    ensures forall i :: 0 <= i < |bs| ==> q[i] == Byte(bs[i])
  {
    seq(|bs|, i requires 0 <= i < |bs| => Byte(bs[i]))
  }

  /** A burst of bytes is read as one run ahead of whatever follows. */
  lemma {:induction false} LeadingBurst(bs: seq<byte>, rest: seq<RxEvent>)
    ensures Leading(Events(bs) + rest) == |bs| + Leading(rest)
    decreases |bs|
  {
    if bs == [] {
      assert Events(bs) + rest == rest;
    } else {
      assert (Events(bs) + rest)[1..] == Events(bs[1..]) + rest;
      LeadingBurst(bs[1..], rest);
    }
  }

  /** The bytes carried by the first `k` events of a burst. */
  lemma PayloadOfBurst(bs: seq<byte>, rest: seq<RxEvent>, k: nat)
    requires k <= |bs|
    ensures Payload((Events(bs) + rest)[..k]) == bs[..k]
  {
  }

  // ---------------------------------------------------------------------
  // esp01_rx_g_buf

  /**
   * A frame shorter than the buffer followed by a pause lands in the buffer
   * whole, NUL-terminated, with the cursor on the terminator; the event that
   * ended it is consumed.
   */
  lemma RxFrame(s: State, bs: seq<byte>, rest: seq<RxEvent>)
    requires Good(s) && |bs| < RX_BUF_SIZE
    requires s.pending == Events(bs) + rest && (rest == [] || rest[0].Timeout?)
    ensures RxSpec(s) == Step(ESP01_OK, s.(buf := bs + [NUL] + s.buf[|bs| + 1..], cursor := |bs|,
                                           overflow := false, pending := Drop(rest, 1)))
    ensures NoNul(bs) ==> CStr(RxSpec(s).st.buf) == bs
  {
    LeadingBurst(bs, rest);
    assert Leading(rest) == 0;
    PayloadOfBurst(bs, rest, |bs|);
    assert bs[..|bs|] == bs;
    assert Drop(s.pending, |bs| + 1) == Drop(rest, 1);
    assert Receive(s.pending) == Frame(bs, false, Drop(rest, 1));
    if NoNul(bs) {
      CStrOfTerminated(bs, s.buf[|bs| + 1..]);
      CStrOfNoNul(bs);
    }
  }

  /**
   * 200 bytes or more without a pause overflow the buffer: the first 199
   * are kept, the 200th is consumed and overwritten by the terminator, and
   * every such frame is classified ESP01_DROP.
   */
  lemma RxOverflow(s: State, bs: seq<byte>, rest: seq<RxEvent>)
    requires Good(s) && |bs| >= RX_BUF_SIZE
    requires s.pending == Events(bs) + rest
    ensures RxSpec(s) == Step(ESP01_DROP, s.(buf := bs[..RX_BUF_SIZE - 1] + [NUL], cursor := RX_BUF_SIZE,
                                             overflow := true, pending := Events(bs[RX_BUF_SIZE..]) + rest))
    ensures ParseSpec(RxSpec(s).st) == ESP01_DROP
  {
    LeadingBurst(bs, rest);
    PayloadOfBurst(bs, rest, RX_BUF_SIZE - 1);
    assert s.pending[RX_BUF_SIZE..] == Events(bs[RX_BUF_SIZE..]) + rest;
  }

  // ---------------------------------------------------------------------
  // esp01_parse_g_buf

  /**
   * The classifier, both directions: ESP01_OK exactly when the text holds
   * "\r\nOK\r\n"; ESP01_ERROR exactly when it holds "\r\nERROR\r\n" but
   * not the OK token (OK wins when both appear); ESP01_DROP otherwise, and
   * always after an overflow.
   */
  lemma ClassifyIff(text: seq<byte>, overflow: bool)
    ensures Classify(text, overflow) == ESP01_OK <==>
              !overflow && exists i :: Occurs(text, OK_TOKEN, i)
    ensures Classify(text, overflow) == ESP01_ERROR <==>
              !overflow && (forall i :: !Occurs(text, OK_TOKEN, i)) && exists i :: Occurs(text, ERROR_TOKEN, i)
    ensures overflow ==> Classify(text, overflow) == ESP01_DROP
  {
    ContainsIff(text, OK_TOKEN);
    ContainsIff(text, ERROR_TOKEN);
  }

  // ---------------------------------------------------------------------
  // esp01_tx_str and the access-point setup

  /** None of the driver's fixed strings contains a NUL. */
  lemma CommandsNoNul()
    ensures NoNul(CWMODE_CMD) && NoNul(CWSAP_HEAD) && NoNul(QUOTE) && NoNul(QUOTE_COMMA_QUOTE)
    ensures NoNul(CWSAP_TAIL) && NoNul(CIPMUX_CMD) && NoNul(CIPSERVER_HEAD) && NoNul(CIPSERVER_STOP)
    ensures NoNul(CIPSEND_HEAD) && NoNul(CRLF)
  {
  }

  /** esp01_tx_str sends a NUL-free string whole, and nothing else changes. */
  lemma TxWhole(s: State, str: seq<byte>)
    requires NoNul(str)
    ensures Tx(s, str) == s.(sent := s.sent + str)
  {
    CStrOfNoNul(str);
  }

  /** A string with an embedded NUL is cut there: only its C-string prefix goes out. */
  lemma TxStopsAtNul(s: State, t: seq<byte>, tail: seq<byte>)
    ensures Tx(s, t + [NUL] + tail).sent == Tx(s, t).sent
  {
    CStrOfTerminated(t, tail);
  }

  /** The six transmissions of the CWSAP command form the line AT+CWSAP="ssid","pass",11,4\r\n. */
  lemma CwsapLine(s: State, ssid: seq<byte>, pass: seq<byte>)
    requires NoNul(ssid) && NoNul(pass)
    ensures TxCwsap(s, ssid, pass) ==
              s.(sent := s.sent + CWSAP_HEAD + QUOTE + ssid + QUOTE_COMMA_QUOTE + pass + CWSAP_TAIL)
  {
    CommandsNoNul();
    TxWhole(s, CWSAP_HEAD);
    TxWhole(Tx(s, CWSAP_HEAD), QUOTE);
    TxWhole(Tx(Tx(s, CWSAP_HEAD), QUOTE), ssid);
    TxWhole(Tx(Tx(Tx(s, CWSAP_HEAD), QUOTE), ssid), QUOTE_COMMA_QUOTE);
    TxWhole(Tx(Tx(Tx(Tx(s, CWSAP_HEAD), QUOTE), ssid), QUOTE_COMMA_QUOTE), pass);
    TxWhole(Tx(Tx(Tx(Tx(Tx(s, CWSAP_HEAD), QUOTE), ssid), QUOTE_COMMA_QUOTE), pass), CWSAP_TAIL);
  }

  /**
   * Setting up the access point while a server is registered answers
   * ESP01_DROP without sending anything, but esp01_init has already
   * unregistered the receive ISR: the server stops being served while its
   * handler stays registered.
   */
  lemma InitWhileServing(s: State, ssid: seq<byte>, pass: seq<byte>)
    requires Good(s) && s.handler.Some?
    ensures InitApSpec(s, ssid, pass) == Step(ESP01_DROP, s.(rxIsr := false))
  {
  }

  /** A CWMODE command that is not answered OK stops the setup before CWSAP is sent. */
  lemma CwmodeFailureStops(s: State, ssid: seq<byte>, pass: seq<byte>)
    requires Good(s) && s.handler.None?
    requires Command(s.(rxIsr := false), CWMODE_CMD).status != ESP01_OK
    ensures InitApSpec(s, ssid, pass) == Command(s.(rxIsr := false), CWMODE_CMD)
    ensures InitApSpec(s, ssid, pass).st.sent == s.sent + CWMODE_CMD
  {
    CommandsNoNul();
    TxWhole(s.(rxIsr := false), CWMODE_CMD);
  }

  /**
   * The full setup: CWMODE, then the CWSAP line; the verdict is the
   * classification of the answer to CWSAP.
   */
  lemma AccessPointSetup(s: State, ssid: seq<byte>, pass: seq<byte>)
    requires Good(s) && s.handler.None? && NoNul(ssid) && NoNul(pass)
    requires Command(s.(rxIsr := false), CWMODE_CMD).status == ESP01_OK
    ensures var r := InitApSpec(s, ssid, pass);
      r.status == ParseSpec(r.st) && !r.st.rxIsr && r.st.handler.None? &&
      r.st.sent == s.sent + CWMODE_CMD + CWSAP_HEAD + QUOTE + ssid + QUOTE_COMMA_QUOTE + pass + CWSAP_TAIL
  {
    var m := Command(s.(rxIsr := false), CWMODE_CMD);
    CommandsNoNul();
    TxWhole(s.(rxIsr := false), CWMODE_CMD);
    CwsapLine(m.st, ssid, pass);
  }

  // ---------------------------------------------------------------------
  // esp01_run_server and esp01_kill_server

  /** Without a handler nothing is sent and nothing changes. */
  lemma RunWithoutHandler(s: State, port: seq<byte>)
    requires Good(s)
    ensures RunServerSpec(s, port, None) == Step(ESP01_ERROR, s)
  {
  }

  /**
   * The handler is registered before anything is sent, and stays registered
   * when CIPMUX fails; a second start replaces the first handler.
   */
  lemma RunRegistersHandler(s: State, port: seq<byte>, h: Handler)
    requires Good(s)
    ensures RunServerSpec(s, port, Some(h)).st.handler == Some(h)
  {
  }

  /**
   * Once CIPMUX is answered OK, the receive ISR is registered whatever the
   * answer to CIPSERVER is; the verdict is that answer's classification and
   * the transmitted bytes are the two commands.
   */
  lemma ListenRegistersIsr(s: State, port: seq<byte>, h: Handler)
    requires Good(s) && NoNul(port)
    requires Command(s.(handler := Some(h)), CIPMUX_CMD).status == ESP01_OK
    ensures var r := RunServerSpec(s, port, Some(h));
      r.st.rxIsr && r.status == ParseSpec(r.st) &&
      r.st.sent == s.sent + CIPMUX_CMD + CIPSERVER_HEAD + port + CRLF
  {
    var m := Command(s.(handler := Some(h)), CIPMUX_CMD);
    CommandsNoNul();
    TxWhole(s.(handler := Some(h)), CIPMUX_CMD);
    TxWhole(m.st, CIPSERVER_HEAD);
    TxWhole(Tx(m.st, CIPSERVER_HEAD), port);
    TxWhole(Tx(Tx(m.st, CIPSERVER_HEAD), port), CRLF);
  }

  /** A failed CIPMUX leaves the ISR as it was and reports the failure. */
  lemma CipmuxFailure(s: State, port: seq<byte>, h: Handler)
    requires Good(s)
    requires Command(s.(handler := Some(h)), CIPMUX_CMD).status != ESP01_OK
    ensures var r := RunServerSpec(s, port, Some(h));
      r.st.rxIsr == s.rxIsr && r.status != ESP01_OK && r.st.sent == s.sent + CIPMUX_CMD
  {
    CommandsNoNul();
    TxWhole(s.(handler := Some(h)), CIPMUX_CMD);
  }

  /**
   * Stopping a running server unregisters the ISR and the handler and sends
   * exactly AT+CIPSERVER=0; stopping again does nothing and succeeds.
   */
  lemma KillStops(s: State)
    requires Good(s) && s.handler.Some?
    ensures var r := KillServerSpec(s);
      !r.st.rxIsr && r.st.handler.None? && r.st.sent == s.sent + CIPSERVER_STOP &&
      r.status == ParseSpec(r.st)
  {
    CommandsNoNul();
    TxWhole(s.(rxIsr := false, handler := None), CIPSERVER_STOP);
  }

  lemma KillIdempotent(s: State)
    requires Good(s)
    ensures KillServerSpec(KillServerSpec(s).st) == Step(ESP01_OK, KillServerSpec(s).st)
  {
  }

  // ---------------------------------------------------------------------
  // esp01_server_routine

  /** A burst of 200 bytes or more is dropped before anything is parsed or sent. */
  lemma RoutineOverflow(s: State, bs: seq<byte>, rest: seq<RxEvent>)
    requires Good(s) && s.handler.Some? && |bs| >= RX_BUF_SIZE
    requires s.pending == Events(bs) + rest
    ensures var r := RoutineSpec(s);
      r.status == ESP01_DROP && r.request.None? && r.st.sent == s.sent && r.st.overflow
  {
    RxOverflow(s, bs, rest);
  }

  /** A silent line is served with ESP01_OK and nothing else. */
  lemma RoutineSilent(s: State, rest: seq<RxEvent>)
    requires Good(s) && s.handler.Some?
    requires s.pending == rest && (rest == [] || rest[0].Timeout?)
    ensures var r := RoutineSpec(s);
      r.status == ESP01_OK && r.request.None? && r.st.sent == s.sent && r.st.cursor == 0
  {
    assert Events([]) + rest == rest;
    RxFrame(s, [], rest);
  }

  /** A frame that announces neither a connection nor a close is dropped unread. */
  lemma RoutineNoMarker(s: State, bs: seq<byte>, rest: seq<RxEvent>)
    requires Good(s) && s.handler.Some? && 0 < |bs| < RX_BUF_SIZE && NoNul(bs)
    requires s.pending == Events(bs) + rest && (rest == [] || rest[0].Timeout?)
    requires forall i :: !Occurs(bs, CLOSED_MARK, i)
    requires forall i :: !Occurs(bs, CONNECT_MARK, i)
    ensures var r := RoutineSpec(s);
      r.status == ESP01_DROP && r.request.None? && r.st.sent == s.sent
  {
    RxFrame(s, bs, rest);
    ContainsIff(bs, CLOSED_MARK);
    ContainsIff(bs, CONNECT_MARK);
  }

  /** A connection or close notice without +IPD is accepted and nothing is sent. */
  lemma RoutineNoIpd(s: State, bs: seq<byte>, rest: seq<RxEvent>)
    requires Good(s) && s.handler.Some? && 0 < |bs| < RX_BUF_SIZE && NoNul(bs)
    requires s.pending == Events(bs) + rest && (rest == [] || rest[0].Timeout?)
    requires exists i :: Occurs(bs, CLOSED_MARK, i) || Occurs(bs, CONNECT_MARK, i)
    requires forall i :: !Occurs(bs, IPD_MARK, i)
    ensures var r := RoutineSpec(s);
      r.status == ESP01_OK && r.request.None? && r.st.sent == s.sent
  {
    RxFrame(s, bs, rest);
    ContainsIff(bs, CLOSED_MARK);
    ContainsIff(bs, CONNECT_MARK);
  }

  /**
   * A declared length reaching past the received bytes, and so in
   * particular one whose terminator would fall outside the buffer, is
   * dropped: the handler is not called and nothing is sent.
   */
  lemma LengthTooLarge(s: State, id: byte, len: byte, dataStart: nat)
    requires Good(s) && s.cursor < RX_BUF_SIZE && s.handler.Some? && dataStart <= RX_BUF_SIZE
    requires dataStart + len > s.cursor
    ensures DeliverSpec(s, id, len, dataStart) == Served(ESP01_DROP, s, None)
  {
  }

  /**
   * A payload that fits is cut at the declared length and handed to the
   * handler; the reply then goes out as `Answered` says.
   */
  lemma DeliverCallsHandler(s: State, id: byte, len: byte, dataStart: nat)
    requires Good(s) && s.cursor < RX_BUF_SIZE && s.handler.Some? && dataStart <= RX_BUF_SIZE
    requires PayloadFits(dataStart, len, s.cursor)
    ensures Answered(DeliverSpec(s, id, len, dataStart), s.handler.value, s.pending, s.sent, id,
                     CStr(s.buf[dataStart..dataStart + len]))
  {
    var b3 := Put(s.buf, dataStart + len, NUL);
    var payload := CStr(s.buf[dataStart..dataStart + len]);
    assert b3[dataStart..] == s.buf[dataStart..dataStart + len] + [NUL] + b3[dataStart + len + 1..];
    CStrOfTerminated(s.buf[dataStart..dataStart + len], b3[dataStart + len + 1..]);
    assert CStr(b3[dataStart..]) == payload;
    var s2 := s.(buf := b3);
    var reply := s.handler.value(payload);
    var n := ToU8(StrLen(reply));
    var idLen := Dec(id) + [COMMA] + Dec(n);
    AnnouncementFits(id, n);
    SendReplyOutcome(s2, idLen, reply);
    var r := DeliverSpec(s, id, len, dataStart);
    if n == 0 {
      assert r == Served(ESP01_OK, s2, Some(payload));
    } else {
      var d := SendReplySpec(s2, idLen, reply);
      assert r == Served(d.status, d.st, Some(payload));
    }
  }

  /**
   * The announcement and the reply. Only an overflow of the modem's answer
   * to AT+CIPSEND gives ESP01_ERROR; any other answer, an ERROR line
   * included, is followed by the reply itself.
   */
  lemma SendReplyOutcome(s: State, idLen: seq<byte>, reply: seq<byte>)
    requires Good(s) && NoNul(idLen)
    ensures var r := SendReplySpec(s, idLen, reply);
      var announce := s.sent + CIPSEND_HEAD + idLen + CRLF;
      (r.status == ESP01_ERROR <==> Receive(s.pending).overflow) &&
      (Receive(s.pending).overflow ==> r.st.sent == announce) &&
      (!Receive(s.pending).overflow ==> r.st.sent == announce + CStr(reply) + CRLF)
  {
    CommandsNoNul();
    TxWhole(s, CIPSEND_HEAD);
    TxWhole(Tx(s, CIPSEND_HEAD), idLen);
    TxWhole(Tx(Tx(s, CIPSEND_HEAD), idLen), CRLF);
    var t := Tx(Tx(Tx(s, CIPSEND_HEAD), idLen), CRLF);
    assert t.sent == s.sent + CIPSEND_HEAD + idLen + CRLF && t.pending == s.pending;
    var a := RxSpec(t);
    assert a.st.sent == t.sent && (a.status != ESP01_OK <==> Receive(s.pending).overflow);
    TxWhole(Tx(a.st, reply), CRLF);
  }

  /** "%i,%i" of two uint8_t values fits the ten-byte str_buf with its NUL. */
  lemma AnnouncementFits(id: byte, n: byte)
    ensures |Dec(id) + [COMMA] + Dec(n)| + 1 <= 10
    ensures NoNul(Dec(id) + [COMMA] + Dec(n))
  {
  }

  /** What precedes the +IPD header in a notification on link `id`: "<id>,CONNECT\r\n\r\n". */
  function Preamble(id: byte): seq<byte>
  {
    Dec(id) + [COMMA] + CONNECT_MARK + CRLF
  }

  /** The frame the modem prints for a request `data` arriving on link `id`. */
  function Notification(id: byte, data: seq<byte>): seq<byte>
  {
    Preamble(id) + (IPD_MARK + ([COMMA] + (Dec(id) + ([COMMA] + (Dec(|data|) + ([COLON] + data))))))
  }

  lemma MarkBytes()
    ensures forall i :: 0 <= i < |CONNECT_MARK| ==> CONNECT_MARK[i] != 43 && CONNECT_MARK[i] != NUL
    ensures forall i :: 0 <= i < |CRLF| ==> CRLF[i] != 43 && CRLF[i] != NUL
    ensures forall i :: 0 <= i < |IPD_MARK| ==> IPD_MARK[i] != COMMA && IPD_MARK[i] != NUL
    ensures |IPD_MARK| == 4 && IPD_MARK[0] == 43
  {
  }

  lemma DropRight(a: seq<byte>, b: seq<byte>, k: nat)
    requires k <= |b|
    ensures (a + b)[|a| + k..] == b[k..]
  {
  }

  lemma Assoc(a: seq<byte>, b: seq<byte>, c: seq<byte>)
    ensures a + b + c == a + (b + c)
  {
  }



  // ---------------------------------------------------------------------
  // Parsing a +IPD header

  /**
   * `t` holds "+IPD,<idf>,<lenf>:<data>" from position `p` to its end.
   */
  ghost predicate HeaderAt(t: seq<byte>, p: nat, idf: seq<byte>, lenf: seq<byte>, data: seq<byte>)
  {
    var c1 := p + 4;
    var c2 := c1 + 1 + |idf|;
    var colon := c2 + 1 + |lenf|;
    colon + 1 + |data| == |t| &&
    t[p..c1] == IPD_MARK && t[c1] == COMMA && t[c1 + 1..c2] == idf && t[c2] == COMMA &&
    t[c2 + 1..colon] == lenf && t[colon] == COLON && t[colon + 1..] == data
  }

  lemma HeaderOfTail(t: seq<byte>, p: nat, idf: seq<byte>, lenf: seq<byte>, data: seq<byte>)
    requires p <= |t| && t[p..] == IPD_MARK + ([COMMA] + (idf + ([COMMA] + (lenf + ([COLON] + data)))))
    ensures HeaderAt(t, p, idf, lenf, data)
  {
    MarkBytes();
    var t2 := [COMMA] + (idf + ([COMMA] + (lenf + ([COLON] + data))));
    var c1 := p + 4;
    assert t[p..c1] == IPD_MARK by {
      assert t[p..c1] == t[p..][..4];
    }
    assert t[c1..] == t2 by {
      assert t[c1..] == t[p..][4..];
      DropRight(IPD_MARK, t2, 0);
    }
    FieldsOfTail(t, c1, idf, lenf, data);
  }

  /** The part of HeaderAt after the "+IPD" mark. */
  lemma FieldsOfTail(t: seq<byte>, c1: nat, idf: seq<byte>, lenf: seq<byte>, data: seq<byte>)
    requires c1 <= |t| && t[c1..] == [COMMA] + (idf + ([COMMA] + (lenf + ([COLON] + data))))
    ensures var c2 := c1 + 1 + |idf|;
      var colon := c2 + 1 + |lenf|;
      colon + 1 + |data| == |t| && t[c1] == COMMA && t[c1 + 1..c2] == idf && t[c2] == COMMA &&
      t[c2 + 1..colon] == lenf && t[colon] == COLON
    ensures t[c1 + 1 + |idf| + 1 + |lenf| + 1..] == data
  {
    var t5 := lenf + ([COLON] + data);
    var t4 := [COMMA] + t5;
    var t3 := idf + t4;
    var c2 := c1 + 1 + |idf|;
    assert t[c1 + 1..] == t3 by {
      assert t[c1 + 1..] == t[c1..][1..];
    }
    assert t[c1 + 1..c2] == idf by {
      assert t[c1 + 1..c2] == t3[..|idf|];
    }
    assert t[c2..] == t4 by {
      assert t[c2..] == t[c1 + 1..][|idf|..];
      DropRight(idf, t4, 0);
    }
    LengthFieldOfTail(t, c2, lenf, data);
  }

  /** The part of HeaderAt after the second comma. */
  lemma LengthFieldOfTail(t: seq<byte>, c2: nat, lenf: seq<byte>, data: seq<byte>)
    requires c2 <= |t| && t[c2..] == [COMMA] + (lenf + ([COLON] + data))
    ensures var colon := c2 + 1 + |lenf|;
      colon + 1 + |data| == |t| && t[c2] == COMMA && t[c2 + 1..colon] == lenf && t[colon] == COLON &&
      t[colon + 1..] == data
  {
    var t5 := lenf + ([COLON] + data);
    var colon := c2 + 1 + |lenf|;
    assert t[c2 + 1..] == t5 by {
      assert t[c2 + 1..] == t[c2..][1..];
    }
    assert t[c2 + 1..colon] == lenf by {
      assert t[c2 + 1..colon] == t5[..|lenf|];
    }
    assert t[colon..] == [COLON] + data by {
      assert t[colon..] == t[c2 + 1..][|lenf|..];
      DropRight(lenf, [COLON] + data, 0);
    }
    assert t[colon + 1..] == data by {
      assert t[colon + 1..] == t[colon..][1..];
    }
  }

  /** A notification has its header right after the preamble. */
  lemma NotificationHeader(id: byte, data: seq<byte>)
    ensures HeaderAt(Notification(id, data), |Preamble(id)|, Dec(id), Dec(|data|), data)
  {
    var u := IPD_MARK + ([COMMA] + (Dec(id) + ([COMMA] + (Dec(|data|) + ([COLON] + data)))));
    DropRight(Preamble(id), u, 0);
    HeaderOfTail(Notification(id, data), |Preamble(id)|, Dec(id), Dec(|data|), data);
  }

  /** With digit fields, `strchr` finds the two commas and the colon of the header. */
  lemma HeaderParsed(t: seq<byte>, p: nat, idf: seq<byte>, lenf: seq<byte>, data: seq<byte>)
    requires HeaderAt(t, p, idf, lenf, data) && AllDigits(idf) && AllDigits(lenf)
    ensures ParseIpd(t, p) == Fields(p + 4, p + 5 + |idf|, p + 6 + |idf| + |lenf|)
  {
    var c1 := p + 4;
    var c2 := c1 + 1 + |idf|;
    var colon := c2 + 1 + |lenf|;
    MarkBytes();
    assert forall j :: p <= j < c1 ==> t[j] == IPD_MARK[j - p] by {
      forall j | p <= j < c1 ensures t[j] == IPD_MARK[j - p] {
        assert t[j] == t[p..c1][j - p];
      }
    }
    FindByteFirst(t, COMMA, p, c1);
    forall j | c1 + 1 <= j < c2 ensures t[j] != COMMA {
      assert t[j] == t[c1 + 1..c2][j - c1 - 1];
    }
    FindByteFirst(t, COMMA, c1 + 1, c2);
    forall j | c2 + 1 <= j < colon ensures t[j] != COLON {
      assert t[j] == t[c2 + 1..colon][j - c2 - 1];
    }
    FindByteFirst(t, COLON, c2 + 1, colon);
  }

  /** `strstr` finds the header when no '+' comes before it. */
  lemma HeaderFound(t: seq<byte>, p: nat, idf: seq<byte>, lenf: seq<byte>, data: seq<byte>)
    requires HeaderAt(t, p, idf, lenf, data)
    requires forall j :: 0 <= j < p ==> t[j] != IPD_MARK[0]
    ensures Find(t, IPD_MARK, 0) == Some(p)
  {
    MarkBytes();
    forall j | 0 <= j < p ensures !Occurs(t, IPD_MARK, j) {
      if j + 4 <= |t| {
        assert t[j..j + 4][0] == t[j];
      }
    }
    FindFirst(t, IPD_MARK, p);
  }

  /** The C string at `from` is `f` when a NUL follows it. */
  lemma CStrAt(b: seq<byte>, from: nat, f: seq<byte>)
    requires from + |f| < |b| && b[from..from + |f|] == f && b[from + |f|] == NUL && NoNul(f)
    ensures CStr(b[from..]) == f
  {
    var u := b[from..];
    assert u[..|f|] == f;
    CStrUnique(u, |f|);
  }

  /** A field cut out with a NUL reads back as the number printed into it. */
  lemma FieldAt(b: seq<byte>, from: nat, to: nat, n: nat)
    requires from <= to < |b| && b[from..to] == Dec(n) && b[to] == NUL
    ensures Field(b, from) == ToU8(n)
  {
    DecNoNul(n);
    CStrAt(b, from, Dec(n));
    ParseDec(n, []);
    assert Dec(n) + [] == Dec(n);
  }

  /** A slice of the received text survives a write outside it. */
  lemma SliceKept(b: seq<byte>, t: seq<byte>, from: nat, to: nat, k: nat, v: byte)
    requires from <= to <= |t| < |b| && b[..|t|] == t && k < |b| && (k < from || to <= k)
    ensures Put(b, k, v)[from..to] == t[from..to]
  {
    forall j | from <= j < to ensures Put(b, k, v)[j] == t[j] {
      assert b[j] == b[..|t|][j];
    }
  }

  /**
   * The routine cuts the header of a received text `t` in place: the colon
   * and then the second comma become NULs, and each field reads back as the
   * number printed into it.
   */
  lemma CutFields(b: seq<byte>, t: seq<byte>, c1: nat, c2: nat, colon: nat, id: byte, n: nat)
    requires c1 < c2 < colon < |t| < |b| && b[..|t|] == t
    requires t[c1 + 1..c2] == Dec(id) && t[c2 + 1..colon] == Dec(n)
    ensures Field(Put(b, colon, NUL), c2 + 1) == ToU8(n)
    ensures Field(Put(Put(b, colon, NUL), c2, NUL), c1 + 1) == id
  {
    CutLength(b, t, c2, colon, n);
    CutId(b, t, c1, c2, colon, id);
  }

  /** The length field, cut at the colon. */
  lemma CutLength(b: seq<byte>, t: seq<byte>, c2: nat, colon: nat, n: nat)
    requires c2 < colon < |t| < |b| && b[..|t|] == t && t[c2 + 1..colon] == Dec(n)
    ensures Field(Put(b, colon, NUL), c2 + 1) == ToU8(n)
  {
    var b1 := Put(b, colon, NUL);
    SliceKept(b, t, c2 + 1, colon, colon, NUL);
    FieldAt(b1, c2 + 1, colon, n);
  }

  /** The link-id field, cut at the second comma once the colon was cut. */
  lemma CutId(b: seq<byte>, t: seq<byte>, c1: nat, c2: nat, colon: nat, id: byte)
    requires c1 < c2 < colon < |t| < |b| && b[..|t|] == t && t[c1 + 1..c2] == Dec(id)
    ensures Field(Put(Put(b, colon, NUL), c2, NUL), c1 + 1) == id
  {
    var b1 := Put(b, colon, NUL);
    var b2 := Put(b1, c2, NUL);
    SliceKept(b, t, c1 + 1, c2, colon, NUL);
    WriteOutside(b1, c1 + 1, c2, c2, NUL);
    FieldAt(b2, c1 + 1, c2, id);
  }

  /**
   * A frame just received whose text `t` is a connection or close notice
   * with a well-formed +IPD header is served by cutting the header fields.
   */
  lemma ServeHeader(s: State, t: seq<byte>, p: nat, c1: nat, c2: nat, colon: nat)
    requires Received(s) && s.handler.Some? && s.cursor == |t| && s.buf[..|t|] == t && NoNul(t)
    requires Contains(t, CONNECT_MARK) || Contains(t, CLOSED_MARK)
    requires Find(t, IPD_MARK, 0) == Some(p) && ParseIpd(t, p) == Fields(c1, c2, colon)
    ensures c1 < c2 < colon < StrLen(s.buf)
    ensures ServeFrameSpec(s) == ServeIpdSpec(s, c1, c2, colon)
  {
    ReceivedText(s, t);
  }

  /** The received text, read as a C string, is exactly the bytes received. */
  lemma ReceivedText(s: State, t: seq<byte>)
    requires Received(s) && s.cursor == |t| && s.buf[..|t|] == t && NoNul(t)
    ensures StrLen(s.buf) == |t| && CStr(s.buf) == t
  {
    CStrUnique(s.buf, |t|);
  }

  /**
   * What serving `data` on link `id` amounts to, from the modem's answers
   * `pending` and the log `sent` before the reply: the handler `h` is
   * called with `data`; an empty reply (its length taken modulo 256) is not
   * sent; any other is announced as "AT+CIPSEND=<id>,<length>\r\n" and,
   * unless the modem's answer to the announcement overflows, followed by
   * the reply and CRLF; ESP01_ERROR exactly on that overflow.
   */
  ghost predicate Answered(r: Served, h: Handler, pending: seq<RxEvent>, sent: seq<byte>, id: byte, data: seq<byte>)
  {
    var reply := h(data);
    var n := ToU8(StrLen(reply));
    var announced := Receive(pending).overflow;
    var idLen := Dec(id) + [COMMA] + Dec(n);
    r.request == Some(data) &&
    (n == 0 ==> r.status == ESP01_OK && r.st.sent == sent) &&
    (n != 0 ==> (r.status == ESP01_ERROR <==> announced)) &&
    (n != 0 && announced ==> r.st.sent == sent + CIPSEND_HEAD + idLen + CRLF) &&
    (n != 0 && !announced ==> r.st.sent == sent + CIPSEND_HEAD + idLen + CRLF + CStr(reply) + CRLF)
  }

  /** The delivery of that payload, given that all of it has arrived. */
  lemma DeliverPayload(s: State, end: nat, id: byte, data: seq<byte>, colon: nat)
    requires Good(s) && s.cursor < RX_BUF_SIZE && s.handler.Some?
    requires colon + 1 + |data| == end <= s.cursor && NoNul(data)
    requires s.buf[colon + 1..end] == data && s.buf[end] == NUL
    ensures Answered(DeliverSpec(s, id, |data|, colon + 1), s.handler.value, s.pending, s.sent, id, data)
  {
    CStrOfNoNul(data);
    assert CStr(s.buf[colon + 1..colon + 1 + |data|]) == data;
    DeliverCallsHandler(s, id, |data|, colon + 1);
  }

  /**
   * The header cut: a located header with fields Dec(id) and Dec(n) leaves
   * the delivery of the payload after the colon with length `n`.
   */
  lemma FrameCut(s: State, t: seq<byte>, p: nat, c1: nat, c2: nat, colon: nat, id: byte, n: byte)
    requires Received(s) && s.handler.Some? && s.cursor == |t| && s.buf[..|t|] == t && NoNul(t)
    requires Contains(t, CONNECT_MARK) || Contains(t, CLOSED_MARK)
    requires Find(t, IPD_MARK, 0) == Some(p) && ParseIpd(t, p) == Fields(c1, c2, colon)
    requires c1 < c2 < colon < |t|
    requires t[c1 + 1..c2] == Dec(id) && t[c2 + 1..colon] == Dec(n)
    ensures colon < |t|
    ensures ServeFrameSpec(s) == DeliverSpec(s.(buf := Put(Put(s.buf, colon, NUL), c2, NUL)), id, n, colon + 1)
  {
    ServeHeader(s, t, p, c1, c2, colon);
    CutFields(s.buf, t, c1, c2, colon, id, n);
    ServeIpdFields(s, c1, c2, colon, Put(s.buf, colon, NUL), Put(Put(s.buf, colon, NUL), c2, NUL), id, n);
  }

  /** The cut leaves the payload and its terminator in place. */
  lemma PayloadKept(b: seq<byte>, t: seq<byte>, c2: nat, colon: nat, data: seq<byte>)
    requires c2 < colon && colon + 1 + |data| == |t| < |b| && b[..|t|] == t && b[|t|] == NUL
    requires t[colon + 1..] == data && NoNul(t)
    ensures var b2 := Put(Put(b, colon, NUL), c2, NUL);
      b2[colon + 1..|t|] == data && b2[|t|] == NUL && NoNul(data)
  {
    SliceKept(b, t, colon + 1, |t|, colon, NUL);
    WriteOutside(Put(b, colon, NUL), colon + 1, |t|, c2, NUL);
    assert NoNul(data) by {
      forall j | 0 <= j < |data| ensures data[j] != NUL {
        assert data[j] == t[colon + 1..][j];
      }
    }
  }

  /**
   * A located header whose declared length `n` reaches past the end of the
   * received text is dropped after the header cut, before the handler is
   * called; nothing is sent.
   */
  lemma FrameTooLong(s: State, t: seq<byte>, p: nat, c1: nat, c2: nat, colon: nat, id: byte, n: byte)
    requires Received(s) && s.handler.Some? && s.cursor == |t| && s.buf[..|t|] == t && NoNul(t)
    requires Contains(t, CONNECT_MARK) || Contains(t, CLOSED_MARK)
    requires Find(t, IPD_MARK, 0) == Some(p) && ParseIpd(t, p) == Fields(c1, c2, colon)
    requires c1 < c2 < colon < |t|
    requires t[c1 + 1..c2] == Dec(id) && t[c2 + 1..colon] == Dec(n)
    requires colon + 1 + n > |t|
    ensures ServeFrameSpec(s) == Served(ESP01_DROP, s.(buf := Put(Put(s.buf, colon, NUL), c2, NUL)), None)
  {
    FrameCut(s, t, p, c1, c2, colon, id, n);
    LengthTooLarge(s.(buf := Put(Put(s.buf, colon, NUL), c2, NUL)), id, n, colon + 1);
  }

  /**
   * A received frame whose +IPD header was located in its text `t` delivers
   * the payload after the colon on the link in the first field.
   */
  lemma FrameServed(s: State, t: seq<byte>, p: nat, c1: nat, c2: nat, colon: nat, id: byte, data: seq<byte>)
    requires Received(s) && s.handler.Some? && s.cursor == |t| && s.buf[..|t|] == t && NoNul(t)
    requires Contains(t, CONNECT_MARK) || Contains(t, CLOSED_MARK)
    requires Find(t, IPD_MARK, 0) == Some(p) && ParseIpd(t, p) == Fields(c1, c2, colon)
    requires c1 < c2 < colon < |t|
    requires t[c1 + 1..c2] == Dec(id) && t[c2 + 1..colon] == Dec(|data|) && t[colon + 1..] == data
    ensures Answered(ServeFrameSpec(s), s.handler.value, s.pending, s.sent, id, data)
  {
    var n: byte := |data|;
    var b2: seq<byte> := Put(Put(s.buf, colon, NUL), c2, NUL);
    var s2 := s.(buf := b2);
    FrameCut(s, t, p, c1, c2, colon, id, n);
    assert ServeFrameSpec(s) == DeliverSpec(s2, id, n, colon + 1);
    PayloadKept(s.buf, t, c2, colon, data);
    DeliverPayload(s2, |t|, id, data, colon);
    assert s2.handler == s.handler && s2.pending == s.pending && s2.sent == s.sent;
  }

  /** Where the routine finds the header fields, and what they hold. */
  lemma HeaderLocated(t: seq<byte>, p: nat, id: byte, n: nat, data: seq<byte>, c1: nat, c2: nat, colon: nat)
    requires HeaderAt(t, p, Dec(id), Dec(n), data)
    requires forall j :: 0 <= j < p ==> t[j] != IPD_MARK[0]
    requires c1 == p + 4 && c2 == c1 + 1 + |Dec(id)| && colon == c2 + 1 + |Dec(n)|
    ensures Find(t, IPD_MARK, 0) == Some(p) && ParseIpd(t, p) == Fields(c1, c2, colon)
    ensures t[c1 + 1..c2] == Dec(id) && t[c2 + 1..colon] == Dec(n) && t[colon + 1..] == data
  {
    HeaderSlices(t, p, Dec(id), Dec(n), data, c1, c2, colon);
    HeaderFound(t, p, Dec(id), Dec(n), data);
    HeaderParsed(t, p, Dec(id), Dec(n), data);
  }

  lemma HeaderSlices(t: seq<byte>, p: nat, idf: seq<byte>, lenf: seq<byte>, data: seq<byte>, c1: nat, c2: nat, colon: nat)
    requires HeaderAt(t, p, idf, lenf, data)
    requires c1 == p + 4 && c2 == c1 + 1 + |idf| && colon == c2 + 1 + |lenf|
    ensures t[c1 + 1..c2] == idf && t[c2 + 1..colon] == lenf && t[colon + 1..] == data
  {
  }

  /** A whole frame without NUL is received and passed on to the notification parser. */
  lemma RoutineReceives(s: State, t: seq<byte>, rest: seq<RxEvent>)
    requires Good(s) && s.handler.Some? && |t| < RX_BUF_SIZE && NoNul(t)
    requires s.pending == Events(t) + rest && (rest == [] || rest[0].Timeout?)
    ensures var s1 := RxSpec(s).st;
      Received(s1) && s1.handler == s.handler && s1.cursor == |t| && s1.buf[..|t|] == t &&
      s1.pending == Drop(rest, 1) && s1.sent == s.sent && RoutineSpec(s) == ServeFrameSpec(s1)
  {
    RxFrame(s, t, rest);
  }

  /**
   * End to end: a connection or close notice carrying "+IPD,<id>,<len>:<data>"
   * with `len == |data|`, arriving whole, is answered as `Answered` says,
   * with the modem's later answers and the log as they were before it.
   */
  lemma ServesRequest(s: State, t: seq<byte>, p: nat, id: byte, data: seq<byte>, rest: seq<RxEvent>)
    requires Good(s) && s.handler.Some? && |t| < RX_BUF_SIZE && NoNul(t)
    requires s.pending == Events(t) + rest && (rest == [] || rest[0].Timeout?)
    requires exists i :: Occurs(t, CONNECT_MARK, i) || Occurs(t, CLOSED_MARK, i)
    requires HeaderAt(t, p, Dec(id), Dec(|data|), data)
    requires forall j :: 0 <= j < p ==> t[j] != IPD_MARK[0]
    ensures Answered(RoutineSpec(s), s.handler.value, Drop(rest, 1), s.sent, id, data)
  {
    RoutineReceives(s, t, rest);
    var s1: State := RxSpec(s).st;
    ContainsIff(t, CONNECT_MARK);
    ContainsIff(t, CLOSED_MARK);
    var c1 := p + 4;
    var c2 := c1 + 1 + |Dec(id)|;
    var colon := c2 + 1 + |Dec(|data|)|;
    HeaderLocated(t, p, id, |data|, data, c1, c2, colon);
    FrameServed(s1, t, p, c1, c2, colon, id, data);
  }

  lemma NoNulConcat(a: seq<byte>, b: seq<byte>)
    requires NoNul(a) && NoNul(b)
    ensures NoNul(a + b)
  {
    assert forall i :: 0 <= i < |a + b| ==> (a + b)[i] == if i < |a| then a[i] else b[i - |a|];
  }

  /** The preamble names the connection and holds no '+' and no NUL. */
  lemma PreambleFacts(id: byte)
    ensures Occurs(Preamble(id), CONNECT_MARK, |Dec(id)| + 1)
    ensures forall j :: 0 <= j < |Preamble(id)| ==> Preamble(id)[j] != IPD_MARK[0] && Preamble(id)[j] != NUL
  {
    MarkBytes();
    var d := Dec(id);
    assert Preamble(id) == d + ([COMMA] + (CONNECT_MARK + CRLF));
    DropRight(d, [COMMA] + (CONNECT_MARK + CRLF), 1);
    assert Preamble(id)[|d| + 1..][..|CONNECT_MARK|] == CONNECT_MARK;
  }

  /** A notification is a NUL-free connection notice with its header after the preamble. */
  lemma NotificationFacts(id: byte, data: seq<byte>)
    requires NoNul(data)
    ensures var n := Notification(id, data);
      NoNul(n) && Occurs(n, CONNECT_MARK, |Dec(id)| + 1) &&
      (forall j :: 0 <= j < |Preamble(id)| ==> n[j] != IPD_MARK[0]) &&
      HeaderAt(n, |Preamble(id)|, Dec(id), Dec(|data|), data)
  {
    MarkBytes();
    DecNoNul(id);
    DecNoNul(|data|);
    PreambleFacts(id);
    var u := IPD_MARK + ([COMMA] + (Dec(id) + ([COMMA] + (Dec(|data|) + ([COLON] + data)))));
    NoNulConcat([COLON], data);
    NoNulConcat(Dec(|data|), [COLON] + data);
    NoNulConcat([COMMA], Dec(|data|) + ([COLON] + data));
    NoNulConcat(Dec(id), [COMMA] + (Dec(|data|) + ([COLON] + data)));
    NoNulConcat([COMMA], Dec(id) + ([COMMA] + (Dec(|data|) + ([COLON] + data))));
    NoNulConcat(IPD_MARK, [COMMA] + (Dec(id) + ([COMMA] + (Dec(|data|) + ([COLON] + data)))));
    assert NoNul(Preamble(id));
    NoNulConcat(Preamble(id), u);
    OccursInLonger(Preamble(id), u, CONNECT_MARK, |Dec(id)| + 1);
    NotificationHeader(id, data);
  }

  /**
   * The frame the modem prints for a request, "<id>,CONNECT\r\n\r\n+IPD,<id>,<len>:<data>",
   * arriving whole, is answered as `Answered` says.
   */
  lemma ServesNotification(s: State, id: byte, data: seq<byte>, rest: seq<RxEvent>)
    requires Good(s) && s.handler.Some? && NoNul(data) && |Notification(id, data)| < RX_BUF_SIZE
    requires s.pending == Events(Notification(id, data)) + rest && (rest == [] || rest[0].Timeout?)
    ensures Answered(RoutineSpec(s), s.handler.value, Drop(rest, 1), s.sent, id, data)
  {
    NotificationFacts(id, data);
    ServesRequest(s, Notification(id, data), |Preamble(id)|, id, data, rest);
  }

  /**
   * A connection or close notice whose +IPD header declares a length `n`
   * longer than the payload that arrived is dropped: the handler is not
   * called and nothing is sent. A length that would end past the buffer
   * is one such.
   */
  lemma RoutineTooLong(s: State, t: seq<byte>, p: nat, id: byte, n: byte, data: seq<byte>, rest: seq<RxEvent>)
    requires Good(s) && s.handler.Some? && |t| < RX_BUF_SIZE && NoNul(t)
    requires s.pending == Events(t) + rest && (rest == [] || rest[0].Timeout?)
    requires exists i :: Occurs(t, CONNECT_MARK, i) || Occurs(t, CLOSED_MARK, i)
    requires HeaderAt(t, p, Dec(id), Dec(n), data)
    requires forall j :: 0 <= j < p ==> t[j] != IPD_MARK[0]
    requires n > |data|
    ensures var r := RoutineSpec(s);
      r.status == ESP01_DROP && r.request.None? && r.st.sent == s.sent
  {
    RoutineReceives(s, t, rest);
    var s1: State := RxSpec(s).st;
    ContainsIff(t, CONNECT_MARK);
    ContainsIff(t, CLOSED_MARK);
    var c1 := p + 4;
    var c2 := c1 + 1 + |Dec(id)|;
    var colon := c2 + 1 + |Dec(n)|;
    HeaderLocated(t, p, id, n, data, c1, c2, colon);
    FrameTooLong(s1, t, p, c1, c2, colon, id, n);
  }
}
