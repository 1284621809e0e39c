/**
 * Defects of esp01_server_routine, each stated twice: the code as written,
 * with an input that exhibits the defect, and the checked behaviour the
 * rest of the model uses instead. The length bound of line 160 has two
 * (an off-by-one at the end of the buffer, and no reference to the bytes
 * received); the unchecked `strchr` results of lines 150-152 have one.
 */
module Esp01Findings {
  import opened Bytes
  import opened Usart
  import opened Esp01
  import opened Esp01Lemmas

  // ---------------------------------------------------------------------
  // The length bound at esp01.c:160

  /**
   * The bound as written: `len > ABS(END(g_rx_buf) - p_data_iter)` rejects,
   * where END is one past the last byte. It measures the length against the
   * end of the array, not against the bytes received.
   */
  predicate BoundAsWritten(dataStart: nat, len: nat)
    requires dataStart <= RX_BUF_SIZE
  {
    !(len > RX_BUF_SIZE - dataStart)
  }

  /**
   * The corrected bound admits only lengths the bound as written admits.
   * The bound as written admits more of them in two ways: the length whose
   * terminator lands at index 200, one past the buffer, and every length
   * reaching past the cursor, over bytes that never arrived.
   */
  lemma BoundAdmitsOnePast(dataStart: nat, len: nat, cursor: nat)
    requires dataStart <= RX_BUF_SIZE && cursor < RX_BUF_SIZE
    ensures PayloadFits(dataStart, len, cursor) ==> BoundAsWritten(dataStart, len)
    ensures BoundAsWritten(dataStart, RX_BUF_SIZE - dataStart) && !PayloadFits(dataStart, RX_BUF_SIZE - dataStart, cursor)
    ensures BoundAsWritten(dataStart, len) && dataStart + len > cursor ==> !PayloadFits(dataStart, len, cursor)
  {
  }

  /** "CONNECT\r\n+IPD,0,<n>:<data>". */
  function IpdFrame(n: byte, data: seq<byte>): seq<byte>
  {
    CONNECT_MARK + IpdText(n, data)
  }

  /** The header of IpdFrame, after "CONNECT\r\n". */
  function IpdText(n: byte, data: seq<byte>): seq<byte>
  {
    IPD_MARK + ([COMMA] + (Dec(0) + ([COMMA] + (Dec(n) + ([COLON] + data)))))
  }

  lemma IpdTextNoNul(n: byte, data: seq<byte>)
    requires NoNul(data)
    ensures |IpdText(n, data)| == 8 + |Dec(n)| + |data| && NoNul(IpdText(n, data))
  {
    MarkBytes();
    assert Dec(0) == [48];
    DecNoNul(0);
    DecNoNul(n);
    NoNulConcat([COLON], data);
    NoNulConcat(Dec(n), [COLON] + data);
    NoNulConcat([COMMA], Dec(n) + ([COLON] + data));
    NoNulConcat(Dec(0), [COMMA] + (Dec(n) + ([COLON] + data)));
    NoNulConcat([COMMA], Dec(0) + ([COMMA] + (Dec(n) + ([COLON] + data))));
    NoNulConcat(IPD_MARK, [COMMA] + (Dec(0) + ([COMMA] + (Dec(n) + ([COLON] + data)))));
  }

  /** IpdFrame is a NUL-free connection notice with its header at index 9. */
  lemma IpdHeader(n: byte, data: seq<byte>)
    requires NoNul(data)
    ensures |IpdFrame(n, data)| == 17 + |Dec(n)| + |data| && NoNul(IpdFrame(n, data))
    ensures Occurs(IpdFrame(n, data), CONNECT_MARK, 0)
    ensures forall j :: 0 <= j < 9 ==> IpdFrame(n, data)[j] != IPD_MARK[0]
    ensures HeaderAt(IpdFrame(n, data), 9, Dec(0), Dec(n), data)
  {
    MarkBytes();
    var t := IpdFrame(n, data);
    var u := IpdText(n, data);
    IpdTextNoNul(n, data);
    assert t[..9] == CONNECT_MARK;
    DropRight(CONNECT_MARK, u, 0);
    HeaderOfTail(t, 9, Dec(0), Dec(n), data);
    NoNulConcat(CONNECT_MARK, u);
  }

  /** "CONNECT\r\n+IPD,0,180:": twenty bytes announcing 180 more. */
  function OverlongFrame(): seq<byte>
  {
    IpdFrame(180, [])
  }

  /**
   * As written, the frame is accepted: the payload starts at index 20, the
   * announced length 180 passes the bound, and the terminator is written at
   * index 200 of a 200-byte buffer.
   */
  lemma OverlongAsWritten()
    ensures ParseIpd(OverlongFrame(), 9) == Fields(13, 15, 19)
    ensures BoundAsWritten(20, 180) && 20 + 180 == RX_BUF_SIZE
  {
    assert Dec(180) == Dec(18) + [48];
    assert Dec(18) == Dec(1) + [56];
    IpdHeader(180, []);
    HeaderParsed(OverlongFrame(), 9, Dec(0), Dec(180), []);
  }

  /** With the corrected bound the same frame is dropped before any write or call. */
  lemma OverlongDropped(s: State, rest: seq<RxEvent>)
    requires Good(s) && s.handler.Some?
    requires s.pending == Events(OverlongFrame()) + rest && (rest == [] || rest[0].Timeout?)
    ensures var r := RoutineSpec(s);
      r.status == ESP01_DROP && r.request.None? && r.st.sent == s.sent
  {
    assert Dec(180) == Dec(18) + [48];
    assert Dec(18) == Dec(1) + [56];
    IpdHeader(180, []);
    RoutineTooLong(s, OverlongFrame(), 9, 0, 180, [], rest);
  }

  /** "CONNECT\r\n+IPD,0,50:abc": 22 bytes announcing 50 of which 3 arrive. */
  function TruncatedFrame(): seq<byte>
  {
    IpdFrame(50, [97, 98, 99])
  }

  lemma TruncatedHeader()
    ensures |TruncatedFrame()| == 22 && NoNul(TruncatedFrame())
    ensures ParseIpd(TruncatedFrame(), 9) == Fields(13, 15, 18)
    ensures TruncatedFrame()[19..] == [97, 98, 99]
    ensures Occurs(TruncatedFrame(), CONNECT_MARK, 0)
    ensures forall j :: 0 <= j < 9 ==> TruncatedFrame()[j] != IPD_MARK[0]
    ensures HeaderAt(TruncatedFrame(), 9, Dec(0), Dec(50), [97, 98, 99])
  {
    assert Dec(50) == Dec(5) + [48];
    assert NoNul([97, 98, 99]);
    IpdHeader(50, [97, 98, 99]);
    HeaderParsed(TruncatedFrame(), 9, Dec(0), Dec(50), [97, 98, 99]);
  }

  /**
   * The stores at the colon, the second comma and index 69 leave "abc" at
   * index 19, still ended by the reception's NUL at 22.
   */
  lemma TruncatedCut(b: seq<byte>)
    requires |b| == RX_BUF_SIZE && b[19] == 97 && b[20] == 98 && b[21] == 99 && b[22] == NUL
    ensures CStr(Put(Put(Put(b, 18, NUL), 15, NUL), 19 + 50, NUL)[19..]) == [97, 98, 99]
  {
    var b3 := Put(Put(Put(b, 18, NUL), 15, NUL), 19 + 50, NUL);
    assert b3[19..] == [97, 98, 99] + [NUL] + b3[23..];
    CStrOfTerminated([97, 98, 99], b3[23..]);
  }

  /**
   * As written, a frame announcing more than arrived is accepted: the
   * payload starts at index 19 and the frame ends at 22, the length 50
   * passes the bound, and the NUL of line 164 goes to index 69, past the
   * received text. The handler is then called with the three bytes "abc",
   * which the NUL of the reception at index 22 already ends.
   */
  lemma TruncatedAsWritten(s: State, rest: seq<RxEvent>)
    requires Good(s) && s.handler.Some?
    requires s.pending == Events(TruncatedFrame()) + rest && (rest == [] || rest[0].Timeout?)
    ensures |TruncatedFrame()| == 22 && ParseIpd(TruncatedFrame(), 9) == Fields(13, 15, 18)
    ensures BoundAsWritten(19, 50) && 19 + 50 > |TruncatedFrame()|
    ensures var s1 := RxSpec(s).st;
      var b2 := Put(Put(s1.buf, 18, NUL), 15, NUL);
      s1.cursor == 22 && CStr(Put(b2, 19 + 50, NUL)[19..]) == [97, 98, 99]
  {
    var t := TruncatedFrame();
    TruncatedHeader();
    RoutineReceives(s, t, rest);
    var s1 := RxSpec(s).st;
    assert s1.buf[19] == t[19] && s1.buf[20] == t[20] && s1.buf[21] == t[21];
    TruncatedCut(s1.buf);
  }

  /** With the corrected bound that frame is dropped: no handler call, nothing sent. */
  lemma TruncatedDropped(s: State, rest: seq<RxEvent>)
    requires Good(s) && s.handler.Some?
    requires s.pending == Events(TruncatedFrame()) + rest && (rest == [] || rest[0].Timeout?)
    ensures var r := RoutineSpec(s);
      r.status == ESP01_DROP && r.request.None? && r.st.sent == s.sent
  {
    TruncatedHeader();
    RoutineTooLong(s, TruncatedFrame(), 9, 0, 50, [97, 98, 99], rest);
  }

  // ---------------------------------------------------------------------
  // The unchecked strchr results at esp01.c:150-152

  /**
   * The address `strchr(p, c) + 1` computes, for a buffer placed at address
   * `base`: one past the match, or 1 (NULL + 1) when there is none.
   */
  function AfterByte(text: seq<byte>, c: byte, from: nat, base: nat): int
  {
    match FindByte(text, c, from)
    case Some(i) => base + i + 1
    case None => 1
  }

  /**
   * The address the routine clears with `*(p_data_iter - 1) = '\0'`, once
   * the second comma was found at `c2`, as written.
   */
  function ColonWriteAsWritten(text: seq<byte>, c2: nat, base: nat): int
  {
    AfterByte(text, COLON, c2 + 1, base) - 1
  }

  /** When the header is well-formed the write hits the colon, inside the buffer. */
  lemma ColonWriteInside(text: seq<byte>, ipd: nat, base: nat)
    requires ParseIpd(text, ipd).Fields?
    ensures var f := ParseIpd(text, ipd);
      ColonWriteAsWritten(text, f.comma2, base) == base + f.colon
  {
  }

  /** "CONNECT\r\n+IPD,0,5": both commas, no colon. */
  function ColonlessFrame(): seq<byte>
  {
    CONNECT_MARK + (IPD_MARK + [COMMA, 48, COMMA, 53])
  }

  /**
   * As written, a header without a colon makes the routine write a NUL at
   * address 0, outside the buffer wherever it is placed.
   */
  lemma ColonlessAsWritten(base: nat)
    requires 0 < base
    ensures FindByte(ColonlessFrame(), COMMA, 9) == Some(13)
    ensures FindByte(ColonlessFrame(), COMMA, 14) == Some(15)
    ensures ColonWriteAsWritten(ColonlessFrame(), 15, base) == 0 < base
  {
    var t := ColonlessFrame();
    MarkBytes();
    assert t[9..13] == IPD_MARK;
    assert t[13] == COMMA && t[14] == 48 && t[15] == COMMA && t[16] == 53 && |t| == 17;
    FindByteFirst(t, COMMA, 9, 13);
    FindByteFirst(t, COMMA, 14, 15);
  }

  /**
   * The corrected parser reports such a header as malformed, and the routine
   * then drops the frame: no byte of the buffer is written, the handler is
   * not called and nothing is sent.
   */
  lemma MalformedDropped(s: State)
    requires Received(s) && s.handler.Some? && s.cursor > 0
    requires Contains(CStr(s.buf), CLOSED_MARK) || Contains(CStr(s.buf), CONNECT_MARK)
    requires Find(CStr(s.buf), IPD_MARK, 0).Some?
    requires ParseIpd(CStr(s.buf), Find(CStr(s.buf), IPD_MARK, 0).value) == Malformed
    ensures ServeFrameSpec(s) == Served(ESP01_DROP, s, None)
  {
  }

  /** ColonlessFrame is one such header. */
  lemma ColonlessMalformed()
    ensures ParseIpd(ColonlessFrame(), 9) == Malformed
  {
    var t := ColonlessFrame();
    ColonlessAsWritten(1);
    assert t[16] == 53;
    assert FindByte(t, COLON, 16) == None;
  }
}
