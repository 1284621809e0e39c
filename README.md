# weather-iot firmware core in Dafny

The weather station is ATmega32 firmware. It samples a DHT11 humidity and
temperature sensor, timestamps each measurement with a DS1307 clock, and
keeps the records in a circular log in the 1024-byte EEPROM. It serves the
records over Wi-Fi through an ESP-01 modem driven with AT commands. A
client on the modem's access point sends `{"index": N}` on TCP port 12345.
The station answers with one JSON object holding the timestamp and the
three measurements stored in slot N.

This project models four parts of that firmware and proves what they promise:

- **The ESP-01 bridge** (`src/hal/esp01.c`), module `Esp01`, class `Bridge`.
  - Its globals are fields: the 200-byte receive buffer, its fill cursor, the overflow flag and the registered handler.
  - The serial line is a `Usart.Uart`. It reads a queue of byte-or-timeout events and logs every transmitted byte.
  - Each operation is a method, proved equal to a specification function on the abstract `State`.
  - The properties are lemmas on those functions, in module `Esp01Lemmas`.
  - Three defects of the request parser are stated in module `Esp01Findings`, each as written and as corrected. The rest of the model uses the corrected behaviour.
- **The EEPROM circular log** (`src/app/storage.c`), module `Storage`, class `Log`.
  - The EEPROM is an array of 1024 bytes.
  - Each operation is proved against a function on `Store`.
  - Module `StorageLemmas` proves the slot layout, the round trip through the log and the saturating count.
- **The JSON server** (`src/app/server.c`), module `Server`.
  - The request parser and the reply renderer are pure functions. The reply is proved to read back as its ten numbers.
  - Class `Server` holds the statics and drives the bridge.
- **The DHT11 driver** (`src/hal/dht11.c`), module `Dht11`.
  - The data pin is a stream of sampled levels.
  - Each polling loop is a method proved against a function of the stream.
  - The MSB-first byte assembly and the wrapping checksum are proved about those functions.

Module `Station` joins the parts as `src/main.c` does. `get_entry` forwards the requested index to `storage_get_block`. The end-to-end lemmas follow a record from an enqueue to the JSON reply. One of them shows that the timestamp is BCD-decoded twice: once when it is stored and once when it is rendered.

Module `Bytes` holds the C-string view and the library functions the code relies on, written as functions on sequences:

- `strlen`, `strstr` and `strchr`;
- `atoi`, and `strtoul` as `sscanf` uses it;
- `%d`;
- the conversion to `uint8_t`.

Integers are unbounded. Every `uint8_t` is the subset type `byte`, and each wrap-around the C code performs is written out with `ToU8` or `% 256`.

## Model

| member | source | states |
|---|---|---|
| `Bytes.StrLen` | src/hal/esp01.c:167 | the length is the index of the first NUL, or the whole sequence when there is none; no NUL comes before it |
| `Bytes.CStrUnique` | src/hal/esp01.c:25 | a NUL-free prefix followed by a NUL or by the end is exactly the C string and its length |
| `Bytes.CStrOfTerminated` | src/hal/esp01.c:164 | a NUL written right after a text hides whatever follows it |
| `Bytes.CStrOfNoNul` | src/hal/esp01.c:25 | a text without NUL is its own C string |
| `Bytes.Find` | src/hal/esp01.c:52 | `strstr`: the result is an occurrence at or after the start with none before it; no result means there is no occurrence at all |
| `Bytes.FindFirst` | src/hal/esp01.c:145 | the first occurrence of the needle is the one `strstr` reports |
| `Bytes.FindByte` | src/hal/esp01.c:150-152 | `strchr`: the first position holding the byte; no result means no position holds it |
| `Bytes.FindByteFirst` | src/hal/esp01.c:150 | the first match of the byte is the one `strchr` reports |
| `Bytes.ContainsIff` | src/hal/esp01.c:52-57 | `strstr(...) != NULL` holds exactly when the needle occurs somewhere, in both directions |
| `Bytes.OccursInLonger` | src/hal/esp01.c:140-141 | an occurrence stays an occurrence when more text follows |
| `Bytes.Dec` | src/hal/esp01.c:174 | `%d` writes at least one digit, spells the number, and uses one, two or three digits below 10, 100 or 1000 |
| `Bytes.DigitRun` | src/hal/esp01.c:155 | the run of digits is maximal: all digits, and no digit right after it |
| `Bytes.SkipSpace` | src/app/server.c:24 | the skipped bytes are all white space and the next byte is not |
| `Bytes.ParseDec` | src/hal/esp01.c:155-158 | round trip: `atoi` and `strtoul` read back what `%d` wrote, whatever non-digit follows |
| `Bytes.ParseAfterSpace` | src/app/server.c:24 | white space before the number is skipped |
| `Bytes.ToU8` | src/hal/esp01.c:155 | conversion to `uint8_t` keeps values below 256 and is congruent modulo 256 |
| `Bytes.ToU8Wraps16` | src/hal/esp01.c:155-158 | a 16-bit wrapping `atoi` stored into `uint8_t` gives the same byte as the unbounded value: only the value modulo 256 survives |
| `Bytes.DecNoNul` | src/hal/esp01.c:174 | `%d` never writes a NUL |
| `Bytes.WriteOutside` | src/hal/esp01.c:154 | a slice of the buffer survives a store outside it |
| `Bytes.DigitRunOfDigits` | src/hal/esp01.c:155 | a run of digits followed by a non-digit is found whole, from any offset into it |
| `Usart.Uart.Tx` | src/mcal/usart.c:83-89 | one byte is appended to the log of sent bytes; the call always succeeds |
| `Usart.Uart.Rx` | src/mcal/usart.c:91-104 | the next event on the line is taken, and a silent line reads as a timeout |
| `Usart.Uart.Init` | src/mcal/usart.c:17-33 | with the options the bridge passes, only a baud rate outside 2400..1000000 is rejected |
| `Usart.Uart.ConfigureRxIsr` | src/mcal/usart.c:55-62 | the receive-complete routine is registered or cleared; the call always succeeds |
| `Usart.Drop` | src/mcal/usart.c:91-104 | the queue after n events, empty once it is exhausted |
| `Esp01.Leading` | src/hal/esp01.c:34-40 | the run of byte events before the first timeout, and that timeout after it |
| `Esp01.Receive` | src/hal/esp01.c:31-46 | a received frame keeps fewer than 200 bytes before its NUL |
| `Esp01.ParseIpd` | src/hal/esp01.c:150-152 | the two commas and the colon found after `+IPD` are each the first one after the previous field, in order and inside the text |
| `Esp01.Bridge.constructor` | src/hal/esp01.c:19-21 | at power-up the buffer is zeroed, the cursor is at 0, no overflow, no handler, no receive ISR, nothing sent |
| `Esp01.Bridge.TxStr` | src/hal/esp01.c:24-29 | the bytes of the string before its first NUL are sent in order; the result is always ESP01_OK and nothing else changes |
| `Esp01.Bridge.Fill` | src/hal/esp01.c:34-40 | the loop stores consecutive received bytes until a timeout, which stores nothing, or until 200 bytes arrived |
| `Esp01.Bridge.RxGBuf` | src/hal/esp01.c:31-46 | the buffer, cursor, flag and line end as `RxSpec` says: the frame is NUL-terminated, with DROP and the flag set on overflow |
| `Esp01.Bridge.ParseGBuf` | src/hal/esp01.c:48-59 | the status is the classification of the buffer's C string and the overflow flag |
| `Esp01.Bridge.Await` | src/hal/esp01.c:79-80 | one frame is received and the status is its classification |
| `Esp01.Bridge.Exchange` | src/hal/esp01.c:78-80 | one command is sent, its answer received and classified |
| `Esp01.Bridge.Init` | src/hal/esp01.c:61-68 | the serial line is set up at 9600 baud and every USART interrupt routine is cleared |
| `Esp01.Bridge.InitAsAccessPoint` | src/hal/esp01.c:69-93 | the state and status follow `InitApSpec`: init, the "already serving" check, CWMODE, then CWSAP |
| `Esp01.Bridge.TxLine` | src/hal/esp01.c:110-112 | a command head, its argument and CRLF are sent in that order |
| `Esp01.Bridge.Listen` | src/hal/esp01.c:110-117 | CIPSERVER is sent and answered, the receive ISR is registered, then the answer is classified |
| `Esp01.Bridge.RunServer` | src/hal/esp01.c:95-118 | the state and status follow `RunServerSpec`: a NULL handler fails first, then the handler is stored, CIPMUX is sent, then CIPSERVER |
| `Esp01.Bridge.KillServer` | src/hal/esp01.c:120-129 | the state and status follow `KillServerSpec`: nothing is done without a handler, otherwise ISR and handler are cleared, then CIPSERVER=0 |
| `Esp01.Bridge.ServerRoutine` | src/hal/esp01.c:131-187 | the status, the new state and the payload given to the handler are those of `RoutineSpec` |
| `Esp01.Bridge.ServeFrame` | src/hal/esp01.c:136-158 | a received frame is recognised and its `+IPD` fields located as `ServeFrameSpec` says |
| `Esp01.Bridge.ServeIpd` | src/hal/esp01.c:154-158 | the colon, then the second comma, become NULs in place, and the length and link id are read with `atoi` into `uint8_t` |
| `Esp01.Bridge.Deliver` | src/hal/esp01.c:160-171 | a length reaching past the received bytes is dropped; otherwise the payload is cut with a NUL and handed to the handler, as `DeliverSpec` says |
| `Esp01.Bridge.SendReply` | src/hal/esp01.c:173-186 | AT+CIPSEND with the id and the length is sent, then the reply once the answer did not overflow |
| `Esp01.Bridge.RxCompleteIsr` | src/hal/esp01.c:189 | the interrupt runs the service routine once and drops its status |
| `Esp01Lemmas.Events` | src/mcal/usart.c:91-104 | a burst of bytes is the sequence of byte events carrying them |
| `Esp01Lemmas.RxFrame` | src/hal/esp01.c:31-39 | k < 200 bytes then a pause: status OK, flag clear, `buf[0..k)` holds the bytes, `buf[k]` is NUL, the cursor is k, the pause is consumed |
| `Esp01Lemmas.RxOverflow` | src/hal/esp01.c:34-45 | 200 bytes without a pause: DROP, flag set, exactly 200 events consumed, the 200th byte overwritten by NUL, and the frame classified DROP |
| `Esp01Lemmas.ClassifyIff` | src/hal/esp01.c:48-59 | both directions: OK exactly when the OK token occurs (it wins over ERROR); ERROR exactly when only ERROR occurs; DROP after an overflow |
| `Esp01Lemmas.TxWhole` | src/hal/esp01.c:24-29 | a NUL-free string goes out whole and nothing else changes |
| `Esp01Lemmas.TxStopsAtNul` | src/hal/esp01.c:25 | transmission stops at an embedded NUL |
| `Esp01Lemmas.CwsapLine` | src/hal/esp01.c:85-90 | the six transmissions form exactly `AT+CWSAP="<ssid>","<pass>",11,4\r\n` |
| `Esp01Lemmas.InitWhileServing` | src/hal/esp01.c:71-77 | while a handler is registered the setup answers DROP and sends nothing, but the receive ISR is already cleared |
| `Esp01Lemmas.CwmodeFailureStops` | src/hal/esp01.c:78-83 | a CWMODE answer that is not OK ends the setup with that status, after only the CWMODE command was sent |
| `Esp01Lemmas.AccessPointSetup` | src/hal/esp01.c:69-93 | a full setup sends CWMODE then the CWSAP line, and answers with the classification of the CWSAP reply |
| `Esp01Lemmas.RunWithoutHandler` | src/hal/esp01.c:97-99 | a NULL handler gives ERROR, with nothing sent and nothing changed |
| `Esp01Lemmas.RunRegistersHandler` | src/hal/esp01.c:101 | the new handler is registered whatever the modem answers, and it replaces an earlier one |
| `Esp01Lemmas.ListenRegistersIsr` | src/hal/esp01.c:110-117 | after CIPMUX is answered OK, the ISR is registered whatever CIPSERVER answers; the status is that answer's classification; exactly the two commands are sent |
| `Esp01Lemmas.CipmuxFailure` | src/hal/esp01.c:103-108 | a failed CIPMUX is reported, the ISR is left alone and only CIPMUX was sent |
| `Esp01Lemmas.KillStops` | src/hal/esp01.c:120-129 | stopping a server clears the ISR and the handler and sends exactly `AT+CIPSERVER=0\r\n` |
| `Esp01Lemmas.KillIdempotent` | src/hal/esp01.c:120-123 | stopping again succeeds and changes nothing |
| `Esp01Lemmas.RoutineOverflow` | src/hal/esp01.c:132-134 | an overflowing burst is dropped: no handler call, nothing sent |
| `Esp01Lemmas.RoutineSilent` | src/hal/esp01.c:136-138 | an empty frame is answered OK: no handler call, nothing sent |
| `Esp01Lemmas.RoutineNoMarker` | src/hal/esp01.c:140-143 | a frame with neither `CLOSED\r\n` nor `CONNECT\r\n` is dropped, even with `+IPD` in it: no handler call, nothing sent |
| `Esp01Lemmas.RoutineNoIpd` | src/hal/esp01.c:145-148 | a connection or close notice without `+IPD` is OK: no handler call, nothing sent |
| `Esp01Lemmas.LengthTooLarge` | src/hal/esp01.c:160-162 | a length reaching past the received bytes, and so any length whose terminator would land outside the buffer, is dropped, with nothing written, called or sent |
| `Esp01Lemmas.DeliverCallsHandler` | src/hal/esp01.c:164-186 | a payload that has arrived whole is cut at its length and passed to the handler; an empty reply sends nothing; otherwise announcement, reply and CRLF follow |
| `Esp01Lemmas.SendReplyOutcome` | src/hal/esp01.c:176-186 | ERROR exactly when the answer to the announcement overflows; any other answer, an ERROR line included, is followed by the reply and CRLF |
| `Esp01Lemmas.AnnouncementFits` | src/hal/esp01.c:173-174 | `"%i,%i"` of two `uint8_t` values fits the ten-byte `str_buf` with its NUL, and holds no NUL |
| `Esp01Lemmas.HeaderParsed` | src/hal/esp01.c:150-152 | with digit fields, `strchr` finds the two commas and the colon of `+IPD,<id>,<len>:` where they are |
| `Esp01Lemmas.HeaderFound` | src/hal/esp01.c:145 | `strstr` finds the `+IPD` header when no `+` comes before it |
| `Esp01Lemmas.FieldAt` | src/hal/esp01.c:155-158 | a field cut out with a NUL reads back as its printed number modulo 256 |
| `Esp01Lemmas.CutFields` | src/hal/esp01.c:154-158 | cutting the colon then the second comma leaves the length field and the link-id field, each readable as its number |
| `Esp01Lemmas.ServeHeader` | src/hal/esp01.c:140-152 | a notice with a well-formed header goes on to the field cut, with both fields inside the received text |
| `Esp01Lemmas.FrameCut` | src/hal/esp01.c:150-158 | after the header cut, what follows is the delivery of the payload after the colon, with the declared link id and length |
| `Esp01Lemmas.FrameTooLong` | src/hal/esp01.c:154-162 | a located header whose length ends past the received text is dropped after the header cut, before any handler call |
| `Esp01Lemmas.FrameServed` | src/hal/esp01.c:150-186 | a received notice whose header declares the payload's own length is answered as `Answered` says |
| `Esp01Lemmas.DeliverPayload` | src/hal/esp01.c:164-186 | a payload that arrived whole and is already NUL-terminated in the buffer is delivered and answered as `Answered` says |
| `Esp01Lemmas.RoutineReceives` | src/hal/esp01.c:132-136 | a whole NUL-free frame is received into the buffer and passed on to the notice parser |
| `Esp01Lemmas.ServesRequest` | src/hal/esp01.c:131-187 | end to end: a notice with `+IPD,<id>,<len>:<data>` arriving whole is answered as `Answered` says |
| `Esp01Lemmas.ServesNotification` | src/hal/esp01.c:131-187 | the frame the modem prints for a request, `<id>,CONNECT\r\n\r\n+IPD,<id>,<len>:<data>`, is answered as `Answered` says |
| `Esp01Lemmas.RoutineTooLong` | src/hal/esp01.c:160-162 | a notice declaring more payload than arrived is dropped, which covers every length that would end past the buffer: no handler call, nothing sent |
| `Esp01Lemmas.NotificationFacts` | src/hal/esp01.c:140-145 | such a frame is NUL-free, holds `CONNECT\r\n`, and has its header right after the preamble |
| `Esp01Findings.BoundAdmitsOnePast` | src/hal/esp01.c:160-164 | every length the corrected bound admits passes the bound as written; the bound as written also admits the length whose NUL lands at index 200, and every length reaching past the cursor |
| `Esp01Findings.OverlongAsWritten` | src/hal/esp01.c:150-164 | `CONNECT\r\n+IPD,0,180:` is parsed with its payload at index 20, and length 180 passes the bound as written |
| `Esp01Findings.OverlongDropped` | src/hal/esp01.c:160-162 | with the corrected bound that frame is dropped: no handler call, nothing sent |
| `Esp01Findings.TruncatedAsWritten` | src/hal/esp01.c:150-166 | `CONNECT\r\n+IPD,0,50:abc` ends at index 22 with its payload at 19; 50 passes the bound as written, the NUL goes to index 69, and the handler gets the three bytes `abc` |
| `Esp01Findings.TruncatedDropped` | src/hal/esp01.c:160-162 | with the corrected bound that frame is dropped: no handler call, nothing sent |
| `Esp01Findings.ColonWriteInside` | src/hal/esp01.c:152-154 | for a well-formed header the NUL store of line 154 hits the colon |
| `Esp01Findings.ColonlessAsWritten` | src/hal/esp01.c:150-154 | for `CONNECT\r\n+IPD,0,5` both commas are found but no colon, and as written line 154 stores to address 0 |
| `Esp01Findings.MalformedDropped` | src/hal/esp01.c:150-154 | the corrected parser drops a malformed header: the buffer is left alone, no handler call, nothing sent |
| `Esp01Findings.ColonlessMalformed` | src/hal/esp01.c:150-152 | the corrected parser reports that frame as malformed |
| `Server.StatusOf` | src/app/server.c:43-47 | SERVER_OK exactly when the bridge answered ESP01_OK |
| `Server.BcdToUint8` | src/app/server.c:18-20 | at most 165, never wrapping; when the low nibble is a digit, the tens and units are the two nibbles |
| `Server.BcdDigits` | src/app/server.c:18-20 | a two-digit BCD byte decodes to the number it spells |
| `Server.ParseIndex` | src/app/server.c:23-24 | the number after the literal `{"index":`, modulo 256; 0 when the head does not match or no digit follows |
| `Server.RequestRoundTrip` | src/app/server.c:23-24 | the index of a well-formed request `{"index": N}` is read back as N |
| `Server.IndexWraps` | src/app/server.c:24 | `%hhu` keeps the low eight bits: index 300 is read as 44 |
| `Server.SpacedHead` | src/app/server.c:24 | a request with a space before the literal head is index 0 |
| `Server.ScanInterleave` | src/app/server.c:26-29 | round trip: reading back keys interleaved with `%d` numbers gives the numbers |
| `Server.RenderScan` | src/app/server.c:26-38 | the reply lists hour, minute, second, dayOfMonth, month, year and dayOfWeek, each `bcd_to_uint8` of the field, then temperature, humidity and light unchanged |
| `Server.InterleaveBounds` | src/app/server.c:26-38 | each number takes one to three digits and the text has no NUL |
| `Server.RenderFits` | src/app/server.c:26-38 | the reply is 142 to 162 bytes without a NUL, so it fits the 180-byte `g_json_str` with its terminator |
| `Server.ResponderFits` | src/app/server.c:22-40 | every request gets a non-empty reply shorter than the buffer, so the bridge always sends it |
| `Server.Server.constructor` | src/app/server.c:14-16 | at power-up there is no getter, and the entry and the reply buffer are zeroed |
| `Server.Server.Respond` | src/app/server.c:22-40 | the getter is called exactly once, with the parsed index; the reply buffer holds the rendering of the entry it returned |
| `Server.Server.Init` | src/app/server.c:42-48 | the access point is set up with the fixed SSID and password; OK exactly when the bridge says ESP01_OK |
| `Server.Server.Run` | src/app/server.c:50-59 | a NULL getter is ERROR and the modem is left alone; otherwise the getter is kept and the server started; OK exactly when the bridge says ESP01_OK |
| `Server.Server.Kill` | src/app/server.c:61-66 | the TCP server is stopped; OK exactly when the bridge says ESP01_OK |
| `Storage.TotalBlocks` | src/app/storage.h:23-35 | 102 slots of 10 bytes: 1024 divided by 3 + 7 |
| `Storage.EepromAddress` | src/app/storage.c:25-30 | a slot index is mapped inside the first 1020 bytes; an index past the last slot gives the STORAGE_ERROR value 1 |
| `Storage.SlotAligned` | src/app/storage.c:29 | a slot address is a multiple of BLOCK_SIZE, and dividing it by BLOCK_SIZE gives the slot back |
| `Storage.IncrementIndex` | src/app/storage.c:33-35 | always below TOTAL_BLOCKS: the next slot, and 0 after the last |
| `Storage.BcdToInt` | src/app/storage.c:38-40 | a valid BCD byte decodes to a value below 100 whose encoding it is |
| `Storage.BcdNoWrap` | src/app/storage.c:39 | the value is the high nibble times ten plus the low nibble, at most 165, so no `uint8_t` conversion truncates |
| `Storage.BcdRoundTrip` | src/app/storage.c:38-40 | decoding inverts BCD encoding for every value below 100 |
| `Storage.Decoded` | src/app/storage.c:59-62 | each of the seven clock bytes is BCD-decoded in place |
| `Storage.InitSpec` | src/app/storage.c:43-52 | reloading the counters leaves the EEPROM as it was |
| `Storage.Overwrite` | src/app/storage.c:68 | `eeprom_write_block` puts the source at the address and changes no other byte |
| `Storage.OverwriteBelow` | src/app/storage.c:68-72 | a block write leaves the bytes below it alone |
| `Storage.Log.constructor` | src/app/storage.c:17-22 | at power-up the EEPROM keeps its contents and rear and count start at 0 |
| `Storage.Log.Init` | src/app/storage.c:43-52 | rear and count are reloaded, unchecked, from the two persisted bytes; always STORAGE_OK |
| `Storage.Log.WriteBlock` | src/app/storage.c:68 | the EEPROM becomes `Overwrite` of its old contents |
| `Storage.Log.Enqueue` | src/app/storage.c:55-87 | the EEPROM and counters become `EnqueueSpec` of the old ones; always STORAGE_OK |
| `Storage.Log.GetLength` | src/app/storage.c:90-95 | TOTAL_BLOCKS once saturated, otherwise `rear - front` in `uint8_t` |
| `Storage.Log.GetBlock` | src/app/storage.c:98-120 | an index past the last slot is ERROR with both outputs untouched; otherwise physical slot `index` is copied out; the EEPROM and counters do not change |
| `StorageLemmas.SlotsDisjoint` | src/app/storage.c:25-30 | slots are disjoint, in order, and all end before the persisted counters |
| `StorageLemmas.EnqueueFrame` | src/app/storage.c:64-84 | an enqueue changes no byte outside the rear slot and the two counters |
| `StorageLemmas.EnqueueKeepsSlot` | src/app/storage.c:64-72 | every other slot keeps its data and its timestamp |
| `StorageLemmas.EnqueueKeepsRange` | src/app/storage.c:64-72 | a byte range clear of the rear slot is kept as a whole |
| `StorageLemmas.EnqueueStores` | src/app/storage.c:64-72 | the rear slot receives the three data bytes, then the seven decoded clock bytes |
| `StorageLemmas.EnqueueCounters` | src/app/storage.c:74-84 | the rear moves to the next slot; the count rises by one below TOTAL_BLOCKS and stays put otherwise |
| `StorageLemmas.EnqueuePersists` | src/app/storage.c:74-84 | both counters are persisted as they are held in memory |
| `StorageLemmas.RunCounters` | src/app/storage.c:74-84 | after n enqueues the rear has advanced n slots and the count by n, up to TOTAL_BLOCKS |
| `StorageLemmas.RunRear` | src/app/storage.c:74-76 | after n enqueues the rear has advanced n slots |
| `StorageLemmas.RunLength` | src/app/storage.c:78-84 | after n enqueues the count has risen by n, up to TOTAL_BLOCKS |
| `StorageLemmas.RunSplit` | src/app/storage.c:55-87 | enqueueing two runs of samples one after the other is enqueueing them together |
| `StorageLemmas.AdvanceMod` | src/app/storage.c:33-35 | the rear moves modulo TOTAL_BLOCKS |
| `StorageLemmas.AdvanceSmall` | src/app/storage.c:33-35 | without wrap-around the rear just counts up |
| `StorageLemmas.FullCircle` | src/app/storage.c:33-35 | TOTAL_BLOCKS enqueues bring the rear back to its slot |
| `StorageLemmas.LengthFromZero` | src/app/storage.c:90-95 | from a zeroed log, `storage_get_length` reports the number of enqueues, up to TOTAL_BLOCKS |
| `StorageLemmas.RunKeepsSlot` | src/app/storage.c:64-72 | a slot is untouched until the rear comes round to it |
| `StorageLemmas.ReadBack` | src/app/storage.c:98-117 | round trip: slot r returns the data and decoded timestamp enqueued there, through up to TOTAL_BLOCKS - 1 further enqueues |
| `StorageLemmas.Reused` | src/app/storage.c:75 | after TOTAL_BLOCKS more enqueues the rear is back at that slot, so the next enqueue reuses it |
| `StorageLemmas.PhysicalOrder` | src/app/storage.c:98-117 | after TOTAL_BLOCKS + 1 records in a zeroed log, index 0 returns the newest and index 1 the oldest surviving one |
| `StorageLemmas.NewestAtZero` | src/app/storage.c:65-72 | the record after TOTAL_BLOCKS others lands in slot 0 again |
| `StorageLemmas.OldestAtOne` | src/app/storage.c:65-72 | the second record stays in slot 1 while only TOTAL_BLOCKS - 1 follow it |
| `StorageLemmas.ErasedEeprom` | src/app/storage.c:25-30 | an erased EEPROM (all 0xFF) loads rear 255 and a full count, and the next enqueue writes its ten bytes at address 1, across slots 0 and 1 |
| `Station.EntryOf` | src/main.c:25-27 | the entry holds the three data bytes and the seven clock bytes of the block |
| `Station.GetEntry` | src/main.c:25-27 | `get_entry` is `storage_get_block` into the entry; on a bad index the entry is left as it was |
| `Station.BcdAgree` | src/app/server.c:18-20 | `bcd_to_uint8` and storage's `bcd_to_int` are the same function |
| `Station.DoubleDecode` | src/app/server.c:30-36 | a second decode leaves a value unchanged exactly when it is below 16 |
| `Station.DoubleDecodeExample` | src/app/server.c:30-36 | the clock reads 0x45 (45 minutes): storage keeps 45, the reply says 33 |
| `Station.ReplyOfSlot` | src/main.c:25-27 | a request for slot i is answered with that slot's values, the timestamp decoded a second time |
| `Station.ServedBack` | src/main.c:58-59 | a block enqueued at slot r is served back for a request naming r, through up to TOTAL_BLOCKS - 1 further enqueues |
| `Station.BridgeAnswers` | src/hal/esp01.c:164-186 | with the server's responder registered, every payload that arrived whole is answered: the announcement carries the full reply length, and the reply follows unless the answer to it overflows |
| `Dht11.Pin.Sample` | src/hal/dht11.c:80 | one sample is read at the current position and consumed |
| `Dht11.EdgeSpec` | src/hal/dht11.c:76-89 | at most 255 polls; the next position is one past the stopping sample, or 255 samples on when the wait gives up |
| `Dht11.EdgeFacts` | src/hal/dht11.c:79-84 | every sample before the count differs from the wanted level, and the one it stops at has it |
| `Dht11.EdgeFailsIff` | src/hal/dht11.c:85-87 | the edge wait fails exactly when none of 255 samples has the wanted level, in both directions |
| `Dht11.EdgeStep` | src/hal/dht11.c:79-84 | one poll stops on the wanted level and goes on otherwise |
| `Dht11.RxEdge` | src/hal/dht11.c:76-89 | the loop's count and the reached position are `EdgeSpec`; ERROR exactly at 255 polls |
| `Dht11.RxPulse` | src/hal/dht11.c:91-96 | a rising wait, then a falling wait whose count is kept; a failed rise stops it |
| `Dht11.RxBit` | src/hal/dht11.c:98-108 | status, bit and position are `BitSpec`: the bit is 1 when the high phase lasted 10 polls or more |
| `Dht11.BitMeaning` | src/hal/dht11.c:106 | a received bit is 1 exactly when the line stays high for the first 10 samples after the rising edge |
| `Dht11.BitsValueBound` | src/hal/dht11.c:114-119 | n bits spell a number below 2^n |
| `Dht11.BitsOf` | src/hal/dht11.c:114-119 | a byte has exactly n bits, most significant first |
| `Dht11.BitsOfValue` | src/hal/dht11.c:114-119 | round trip: bits spell a number whose bits they are |
| `Dht11.ValueOfBits` | src/hal/dht11.c:114-119 | round trip: a number below 2^n is what its n bits spell |
| `Dht11.BitsSpec` | src/hal/dht11.c:114-119 | the bits read so far, all n of them unless one failed |
| `Dht11.BitsErrorSticks` | src/hal/dht11.c:115-117 | once a bit has failed, reading on changes nothing |
| `Dht11.ByteBits` | src/hal/dht11.c:110-121 | a byte is its eight bits: same status and end; on success the value is the number they spell, whose bits they are |
| `Dht11.ShiftedIsValue` | src/hal/dht11.c:118 | bits OR-ed in from the top are their value shifted up by the bits still to come |
| `Dht11.ShiftedNext` | src/hal/dht11.c:118 | OR-ing one more bit into a clear place adds its weight |
| `Dht11.RxByte` | src/hal/dht11.c:110-121 | status and position are those of `ByteSpec`; on success the byte is the eight bits assembled MSB first |
| `Dht11.FrameSpec` | src/hal/dht11.c:55-58 | the bytes read so far, all n of them unless one failed |
| `Dht11.FrameErrorSticks` | src/hal/dht11.c:56-58 | once a byte has failed the frame is over |
| `Dht11.PartialSum` | src/hal/dht11.c:59-61 | adding in `uint8_t` byte by byte is adding in the integers, then wrapping once |
| `Dht11.PartialChecksum` | src/hal/dht11.c:52-62 | the running checksum after the four data bytes is their sum modulo 256 |
| `Dht11.ChecksumStep` | src/hal/dht11.c:59-61 | a new byte advances the running checksum exactly when its index is below the checksum byte |
| `Dht11.RxFrame` | src/hal/dht11.c:52-62 | status and position are `FrameSpec`; on success the five bytes are stored in order and the checksum is the `uint8_t` sum of the first four |
| `Dht11.DecodeIff` | src/hal/dht11.c:64-71 | a reading succeeds exactly when all five bytes arrive and the checksum matches; it reports bytes 0 and 2 and drops the decimal bytes |
| `Dht11.ByteFailureAborts` | src/hal/dht11.c:55-58 | any failed byte, wherever it is in the frame, fails the reading |
| `Dht11.FirstIn` | src/hal/dht11.c:33-41 | a busy-wait stops no later than a known sample at the wanted level |
| `Dht11.FirstInSame` | src/hal/dht11.c:33-41 | the first sample at a level does not depend on the bound used to find it |
| `Dht11.HandshakeUnique` | src/hal/dht11.c:32-41 | the end of the handshake does not depend on which low-high-low answer witnesses it |
| `Dht11.Await` | src/hal/dht11.c:33-35 | the loop consumes samples up to and including the first one at the wanted level |
| `Dht11.Handshake` | src/hal/dht11.c:32-41 | the three busy-waits end one past the first low sample after the first high one after the first low one |
| `Dht11.StuckHighHangs` | src/hal/dht11.c:32-35 | on a line that stays high the sensor never answers, so the first busy-wait never exits |
| `Dht11.BoundedHandshake` | src/hal/dht11.c:32-41 | the three waits, each bounded like `dht11_rx_edge`, end within 3 * 255 polls |
| `Dht11.BoundedHandshakeAgrees` | src/hal/dht11.c:32-41 | the bounded handshake succeeds only on a sensor that answers, and then ends where the unbounded one ends |
| `Dht11.BoundedHandshakeStuck` | src/hal/dht11.c:79-87 | on a line stuck high the bounded handshake is ERROR after 255 polls |
| `Dht11.Read` | src/hal/dht11.c:18-73 | a NULL output is ERROR before the pin is polled, and the other output, when it is not NULL, keeps its value; otherwise status and position are `DecodeSpec` after the handshake; on success humidity is byte 0 and temperature byte 2, and on failure both outputs are unchanged |

## Left out

- Reading the C: `storage.c` line 59 applies `->` to the local `timestamp`, which is not a pointer, so the file does not compile as written. The model reads it as `timestamp.timeArr`, which is what the line evidently means.
- Memory-mapped registers and I/O:
  - The USART's registers, busy-waits and timeout counter, and the GPIO and ADC drivers, are not modelled.
  - `usart_tx` appends to a log. `usart_rx` takes the next event of a queue, `Timeout` standing for the timeout counter running out. `usart_configure_isr` is a flag for the receive vector.
  - The DHT11 pin's direction and level writes (`dht11.c` lines 25-29 and 113) and every `_delay_ms` are not modelled. The pin is only the sequence of levels its reads return.
- The DS1307 clock, its TWI exchange and `weather.c` are not modelled.
  - `RTC_getTime` is the seven bytes passed to `Enqueue`. Its status is ignored, as `storage.c` line 58 ignores it.
  - The EEPROM's busy-wait is also not modelled.
- The LCD, the `main.c` loop and its ten-minute delay, and `assert_ok` are not part of this model. `main.c` appears only through `get_entry` and the order init, run, enqueue.
- Interrupts are not modelled: the receive-complete ISR is an explicit call, one frame at a time, so nothing runs concurrently.
- The C library is replaced by functions of this model: `strlen`, `strstr`, `strchr`, `atoi`, `sscanf` with `%hhu`, and `sprintf` with `%d`/`%i`.
  - Only the cases this code produces are specified.
  - Bytes.Atoi returns the unbounded value of the digits. On the ATmega32 with avr-libc, `int` is 16 bits and `atoi` does not detect overflow, so a five-digit field such as `CONNECT\r\n+IPD,0,40000:` overflows it at `esp01.c` lines 155 and 158. The model takes the wrapping result. Only its value modulo 256 survives the `uint8_t` store, and that is what `ToU8` keeps (`Bytes.ToU8Wraps16`).
- Rear and count addresses: `STORAGE_REAR_ADDRESS` and `STORAGE_DATA_LENGTH_ADDRESS` are not defined in the headers. They are a `Layout` parameter: two distinct addresses from 1020 to 1023.
- Dht11.Read requires the sensor to answer the start signal with low, high, low. Without that answer the C spins forever in lines 33-41, and the model leaves that case out instead of stating a non-terminating loop. `Dht11.BoundedHandshake` is the corrected wait (see "## Findings"), but `Dht11.Read` keeps the source's unbounded waits under that requirement.
- Dht11.RxByte: on failure the partially assembled byte is not stated. The model returns 0, and the C leaves the bits OR-ed in so far, which `dht11_read` then discards.
- Dht11.RxFrame: on failure the contents of `rx` are not stated, since `dht11_read` returns without reading them.
- Server.Server.Run: the registered handler renders from the `g_entry` it held when the server started. In the C, a request whose index the getter rejects renders the entry of the previous request. The two agree whenever the getter fills the whole entry; `get_entry` does that for every index below TOTAL_BLOCKS.
- Esp01.ParseIpd, Esp01.Bridge.ServeFrame, Esp01.Bridge.Deliver, Esp01Lemmas.LengthTooLarge, Esp01Lemmas.FrameTooLong and Esp01Lemmas.RoutineTooLong model the corrected request parser, not the C as written, on three inputs. The C stores bytes out of bounds or delivers a truncated payload on each of them, as "## Findings" shows:
  - a header without a second comma or a colon (`CONNECT\r\n+IPD,0,5`): the model drops the frame, and the C stores a NUL at address 0;
  - a length whose NUL lands at index 200 (`CONNECT\r\n+IPD,0,180:`): the model drops the frame, and the C stores one past the buffer;
  - a length longer than the payload that arrived (`CONNECT\r\n+IPD,0,50:abc`): the model drops the frame, and the C hands the truncated `abc` to the handler and sends its reply.
- Esp01.Bridge.ServerRoutine: the payload handed to the handler is a ghost out-parameter. Only the status and the new state are compiled results.

## Findings

| source | as written | input that shows it | evidently intended | confidence | as-written member | corrected member |
|---|---|---|---|---|---|---|
| src/hal/esp01.c:160-164 | the length is rejected only when `len > END(g_rx_buf) - p_data_iter`, so `dataStart + len == 200` passes and line 164 stores the NUL at index 200, one past the buffer | the 20-byte frame `CONNECT\r\n+IPD,0,180:` followed by a pause: the payload starts at index 20 and 180 passes the check | the announced payload must have arrived (`dataStart + len <= cursor`, so the NUL lands inside the buffer), otherwise DROP | not executed | `Esp01Findings.OverlongAsWritten` | `Esp01Findings.OverlongDropped` |
| src/hal/esp01.c:160-166 | the length is measured against the end of the array, not against the bytes received, so a header announcing more than arrived is accepted and the handler gets the truncated payload | the 22-byte frame `CONNECT\r\n+IPD,0,50:abc` followed by a pause: the payload starts at 19, the cursor is 22, 50 passes the check, the NUL goes to index 69, and the handler is called with `abc` | a frame whose length exceeds the bytes that remain after the colon is truncated or corrupt and is dropped (`dataStart + len <= cursor`) | not executed | `Esp01Findings.TruncatedAsWritten` | `Esp01Findings.TruncatedDropped` |
| src/hal/esp01.c:150-154 | the results of `strchr` are used unchecked, so a header without a second comma or a colon makes `p_data_iter` equal to NULL + 1, and line 154 stores a NUL at address 0 | the frame `CONNECT\r\n+IPD,0,5` followed by a pause: two commas, no colon | a header missing a comma or the colon is malformed and the frame is dropped, with nothing written | not executed | `Esp01Findings.ColonlessAsWritten` | `Esp01Findings.MalformedDropped` |
| src/hal/dht11.c:32-41 | the three busy-waits of the start handshake have no poll limit, so a sensor that does not answer (an unplugged line pulled high) hangs `dht11_read`, and with it the station's main loop, forever | a line that stays high from the start signal on: the wait of lines 33-35 never sees a low sample | each wait gives up after 255 polls with DHT11_ERROR, as `dht11_rx_edge` does | not executed | `Dht11.StuckHighHangs` | `Dht11.BoundedHandshakeStuck` |
