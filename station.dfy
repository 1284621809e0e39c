/**
 * How the station's parts meet (src/main.c): `get_entry` hands the request
 * index to `storage_get_block`, and the server renders what it copied out.
 */
module Station {
  import opened Bytes
  import opened Storage
  import opened StorageLemmas
  import opened Esp01
  import opened Esp01Lemmas
  import opened Server

  /** The entry `get_entry` fills from a block: the seven timestamp bytes, then the data. */
  function EntryOf(data: seq<byte>, time: seq<byte>): (e: Entry)
    requires |data| == BLOCK_DATA_SIZE && |time| == TIMESTAMP_SIZE
    ensures [e.temperature, e.humidity, e.light] == data
    ensures [e.seconds, e.minutes, e.hours, e.dayOfWeek, e.dayOfMonth, e.month, e.year] == time
  {
    Entry(time[0], time[1], time[2], time[3], time[4], time[5], time[6], data[0], data[1], data[2])
  }

  /**
   * main.c lines 25-27 as a getter over the log `s`: physical slot `index`
   * when it exists; otherwise the entry is left as it was, since
   * `storage_get_block` writes nothing on error and its status is ignored.
   */
  function GetEntrySpec(s: Store): Getter
  {
    (index: byte, e: Entry) =>
      if |s.eeprom| == EEPROM_SIZE && index < TOTAL_BLOCKS
      then EntryOf(SlotData(s.eeprom, index), SlotTime(s.eeprom, index))
      else e
  }

  /** get_entry: storage_get_block straight into the entry, status dropped. */
  method GetEntry(log: Log, index: byte, entry: Entry) returns (e: Entry)
    requires log.Valid()
    ensures e == GetEntrySpec(log.Model())(index, entry)
  {
    var data := new byte[BLOCK_DATA_SIZE];
    data[0], data[1], data[2] := entry.temperature, entry.humidity, entry.light;
    var timestamp := new byte[TIMESTAMP_SIZE];
    timestamp[0], timestamp[1], timestamp[2], timestamp[3] := entry.seconds, entry.minutes, entry.hours, entry.dayOfWeek;
    timestamp[4], timestamp[5], timestamp[6] := entry.dayOfMonth, entry.month, entry.year;
    var _ := log.GetBlock(index, data, timestamp);
    e := EntryOf(data[..], timestamp[..]);
  }

  // ---------------------------------------------------------------------
  // The two BCD decoders and the double decode

  /** storage.c lines 38-40 and server.c lines 18-20 compute the same function. */
  lemma BcdAgree(b: byte)
    ensures BcdToUint8(b) == BcdToInt(b)
  {
  }

  /**
   * A second decode leaves a byte unchanged exactly when it is below 16:
   * every stored hour, minute or date from 16 up is printed wrong.
   */
  lemma DoubleDecode(v: byte)
    ensures BcdToUint8(v) == v <==> v < 16
  {
    assert v == (v / 16) * 16 + v % 16;
  }

  /** The clock reads 0x45 (45 minutes): storage keeps 45, the reply says 33. */
  lemma DoubleDecodeExample()
    ensures BcdToInt(0x45) == 45 && BcdToUint8(BcdToInt(0x45)) == 33
  {
    assert 0x45 / 16 == 4 && 0x45 % 16 == 5;
    assert 45 / 16 == 2 && 45 % 16 == 13;
  }

  // ---------------------------------------------------------------------
  // End to end

  /**
   * A request for slot `i` of a log whose slot holds `data` and the decoded
   * `time` is answered with those values, the timestamp decoded once more.
   */
  lemma ReplyOfSlot(s: Store, i: byte, e: Entry, data: seq<byte>, time: seq<byte>)
    requires GoodStore(s) && i < TOTAL_BLOCKS && |data| == BLOCK_DATA_SIZE && |time| == TIMESTAMP_SIZE
    requires SlotData(s.eeprom, i) == data && SlotTime(s.eeprom, i) == Decoded(time)
    ensures Scan(KEYS, Responder(GetEntrySpec(s), e)(Request(i))) == Some([
      BcdToUint8(BcdToInt(time[2])), BcdToUint8(BcdToInt(time[1])), BcdToUint8(BcdToInt(time[0])),
      BcdToUint8(BcdToInt(time[4])), BcdToUint8(BcdToInt(time[5])), BcdToUint8(BcdToInt(time[6])),
      BcdToUint8(BcdToInt(time[3])), data[0], data[1], data[2]])
  {
    RequestRoundTrip(i);
    var entry := EntryOf(data, Decoded(time));
    assert GetEntrySpec(s)(i, e) == entry;
    RenderScan(entry);
  }

  /**
   * A block enqueued at slot `r` is served back for a request naming `r`,
   * through up to TOTAL_BLOCKS - 1 further enqueues.
   */
  lemma ServedBack(s: Store, l: Layout, x: Sample, xs: seq<Sample>, e: Entry)
    requires GoodStore(s) && ValidLayout(l) && Fits(x) && WellFormed(xs)
    requires s.rear < TOTAL_BLOCKS && |xs| < TOTAL_BLOCKS
    ensures var t := Run(EnqueueSpec(s, l, x.data, x.time), l, xs);
      Scan(KEYS, Responder(GetEntrySpec(t), e)(Request(s.rear))) == Some([
        BcdToUint8(BcdToInt(x.time[2])), BcdToUint8(BcdToInt(x.time[1])), BcdToUint8(BcdToInt(x.time[0])),
        BcdToUint8(BcdToInt(x.time[4])), BcdToUint8(BcdToInt(x.time[5])), BcdToUint8(BcdToInt(x.time[6])),
        BcdToUint8(BcdToInt(x.time[3])), x.data[0], x.data[1], x.data[2]])
  {
    ReadBack(s, l, x, xs);
    var t := Run(EnqueueSpec(s, l, x.data, x.time), l, xs);
    ReplyOfSlot(t, s.rear, e, x.data, x.time);
  }

  /**
   * With the server's responder registered, every payload the bridge cuts
   * out is answered: the announcement carries the reply's full length (it
   * is never 0), and unless the modem's answer to it overflows the whole
   * reply follows.
   */
  lemma BridgeAnswers(s: Esp01.State, g: Getter, e: Entry, id: byte, len: byte, dataStart: nat)
    requires Good(s) && s.cursor < RX_BUF_SIZE && dataStart <= RX_BUF_SIZE && PayloadFits(dataStart, len, s.cursor)
    requires s.handler == Some(Responder(g, e))
    ensures var request := CStr(s.buf[dataStart..dataStart + len]);
      var reply := Render(g(ParseIndex(request), e));
      var r := DeliverSpec(s, id, len, dataStart);
      var head := s.sent + CIPSEND_HEAD + (Dec(id) + [COMMA] + Dec(|reply|)) + CRLF;
      r.request == Some(request) &&
      (r.status == ESP01_ERROR <==> Receive(s.pending).overflow) &&
      (Receive(s.pending).overflow ==> r.st.sent == head) &&
      (!Receive(s.pending).overflow ==> r.st.sent == head + reply + CRLF)
  {
    var request := CStr(s.buf[dataStart..dataStart + len]);
    var reply := Render(g(ParseIndex(request), e));
    DeliverCallsHandler(s, id, len, dataStart);
    RenderFits(g(ParseIndex(request), e));
    assert Responder(g, e)(request) == reply;
    assert ToU8(StrLen(reply)) == |reply|;
  }
}
