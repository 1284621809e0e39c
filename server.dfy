/**
 * The HTTP-less JSON server of the station (src/app/server.c).
 *
 * A request `{"index": N}` names a record; the server asks the entry
 * getter for it and answers with one fixed-shape JSON object. Parsing and
 * rendering are pure functions; the statics `gh_get_entry`, `g_entry` and
 * `g_json_str` are the fields of one `Server` object, which drives the
 * ESP-01 bridge.
 */
module Server {
  import opened Bytes
  import opened Esp01

  const JSON_SIZE: nat := 180

  const SSID: seq<byte> := Ascii("Weather_AP")
  const PASSWORD: seq<byte> := Ascii("10203040")
  const PORT: seq<byte> := Ascii("12345")

  datatype ServerStatus = SERVER_OK | SERVER_ERROR

  /** esp01's verdict as the server reports it: DROP and ERROR both fail. */
  function StatusOf(st: Esp01.Status): (r: ServerStatus)
    ensures r == SERVER_OK <==> st == ESP01_OK
  {
    if st == ESP01_OK then SERVER_OK else SERVER_ERROR
  }

  /**
   * `server_entry_t`: the RTC time in its register order (seconds first,
   * each a BCD byte) and the three measurements.
   */
  datatype Entry = Entry(
    seconds: byte, minutes: byte, hours: byte, dayOfWeek: byte,
    dayOfMonth: byte, month: byte, year: byte,
    temperature: byte, humidity: byte, light: byte)

  /** `void (*)(uint8_t index, server_entry_t *p_entry)`: the entry after the call, given the one before. */
  type Getter = (byte, Entry) -> Entry

  // ---------------------------------------------------------------------
  // BCD

  /** Lines 18-20: high nibble times ten plus low nibble; at most 165, so the result never wraps. */
  function BcdToUint8(bcd: byte): (r: byte)
    ensures r <= 165 && r % 10 == (bcd % 16) % 10
    ensures bcd % 16 < 10 ==> r / 10 == bcd / 16 && r % 10 == bcd % 16
  {
    ToU8((bcd / 16) * 10 + bcd % 16)
  }

  /** A two-digit BCD byte decodes to the two-digit number it spells. */
  lemma BcdDigits(hi: nat, lo: nat)
    requires hi < 10 && lo < 10
    ensures BcdToUint8(hi * 16 + lo) == hi * 10 + lo
  {
    var b := hi * 16 + lo;
    assert b / 16 == hi && b % 16 == lo;
  }

  // ---------------------------------------------------------------------
  // The request: sscanf(request, "{\"index\": %hhu}", &index)

  /** The literal part of the format before its white-space directive. */
  const INDEX_HEAD: seq<byte> := Ascii("{\"index\":")

  predicate HasHead(request: seq<byte>)
  {
    |INDEX_HEAD| <= |request| && request[..|INDEX_HEAD|] == INDEX_HEAD
  }

  /**
   * Lines 23-24: the number after the literal head, taken modulo 256 as
   * `%hhu` stores it; `index` keeps its 0 when the head does not match or
   * no digit follows. White space before the number is skipped, and the
   * closing brace is never looked at.
   */
  function ParseIndex(request: seq<byte>): (r: byte)
    ensures !HasHead(request) ==> r == 0
    ensures HasHead(request) && ParseDecimal(request[|INDEX_HEAD|..]).None? ==> r == 0
    ensures HasHead(request) && ParseDecimal(request[|INDEX_HEAD|..]).Some? ==>
      (r - ParseDecimal(request[|INDEX_HEAD|..]).value) % 256 == 0
  {
    if !HasHead(request) then 0
    else
      match ParseDecimal(request[|INDEX_HEAD|..])
      case None => 0
      case Some(v) => ToU8(v)
  }

  /** The request a client sends for record `index`. */
  function Request(index: byte): seq<byte>
  {
    INDEX_HEAD + [32] + Dec(index) + [125]
  }

  /** Round trip: the index of a well-formed request is read back. */
  lemma RequestRoundTrip(index: byte)
    ensures ParseIndex(Request(index)) == index
  {
    var q := Request(index);
    assert q[..|INDEX_HEAD|] == INDEX_HEAD;
    assert q[|INDEX_HEAD|..] == [32] + (Dec(index) + [125]);
    ParseAfterSpace(32, Dec(index) + [125]);
    ParseDec(index, [125]);
  }

  /** `%hhu` keeps the low eight bits of a larger number. */
  lemma IndexWraps()
    ensures ParseIndex(INDEX_HEAD + Dec(300)) == 44
  {
    var q := INDEX_HEAD + Dec(300);
    assert q[..|INDEX_HEAD|] == INDEX_HEAD && q[|INDEX_HEAD|..] == Dec(300) + [];
    ParseDec(300, []);
  }

  /** A request missing its space-free head is index 0, whatever follows. */
  lemma SpacedHead(rest: seq<byte>)
    ensures ParseIndex([32] + INDEX_HEAD + rest) == 0
  {
    assert ([32] + INDEX_HEAD + rest)[0] == 32 != INDEX_HEAD[0];
  }

  // ---------------------------------------------------------------------
  // The reply: sprintf(g_json_str, ...)

  const K_HOUR: seq<byte> := Ascii("{\"timestamp\":{\"hour\":")
  const K_MINUTE: seq<byte> := Ascii(",\"minute\":")
  const K_SECOND: seq<byte> := Ascii(",\"second\":")
  const K_DAY_OF_MONTH: seq<byte> := Ascii(",\"dayOfMonth\":")
  const K_MONTH: seq<byte> := Ascii(",\"month\":")
  const K_YEAR: seq<byte> := Ascii(",\"year\":")
  const K_DAY_OF_WEEK: seq<byte> := Ascii(",\"dayOfWeek\":")
  const K_TEMPERATURE: seq<byte> := Ascii("},\"data\":{\"temperature\":")
  const K_HUMIDITY: seq<byte> := Ascii(",\"humidity\":")
  const K_LIGHT: seq<byte> := Ascii(",\"light\":")

  /** The keys of the reply, in the order of the format string (lines 27-29). */
  const KEYS: seq<seq<byte>> := [
    K_HOUR, K_MINUTE, K_SECOND, K_DAY_OF_MONTH, K_MONTH, K_YEAR, K_DAY_OF_WEEK,
    K_TEMPERATURE, K_HUMIDITY, K_LIGHT]

  const TRAILER: seq<byte> := Ascii("}}")

  /** The ten numbers of the reply, in key order (lines 30-38). */
  function Values(e: Entry): (v: seq<nat>)
    ensures |v| == |KEYS|
  {
    [BcdToUint8(e.hours), BcdToUint8(e.minutes), BcdToUint8(e.seconds),
     BcdToUint8(e.dayOfMonth), BcdToUint8(e.month), BcdToUint8(e.year),
     BcdToUint8(e.dayOfWeek),
     e.temperature, e.humidity, e.light]
  }

  /** Each key followed by its number printed with `%d`. */
  function Interleave(keys: seq<seq<byte>>, vals: seq<nat>): seq<byte>
    requires |keys| == |vals|
  {
    if keys == [] then [] else keys[0] + Dec(vals[0]) + Interleave(keys[1..], vals[1..])
  }

  /** Lines 26-38: the reply text. */
  function Render(e: Entry): seq<byte>
  {
    Interleave(KEYS, Values(e)) + TRAILER
  }

  /**
   * Reading a reply back: each key must come next, followed by at least one
   * digit; the result is the numbers in order.
   */
  function Scan(keys: seq<seq<byte>>, text: seq<byte>): Option<seq<nat>>
  {
    if keys == [] then Some([])
    else if !(|keys[0]| <= |text| && text[..|keys[0]|] == keys[0]) then None
    else
      var t := text[|keys[0]|..];
      var k := DigitRun(t, 0);
      if k == 0 then None
      else
        Prepend(DigitsValue(t[..k]), Scan(keys[1..], t[k..]))
  }

  function Prepend(v: nat, r: Option<seq<nat>>): Option<seq<nat>>
  {
    match r
    case None => None
    case Some(vs) => Some([v] + vs)
  }

  /** Keys that a number can be told apart from: non-empty, starting with no digit. */
  predicate Separable(keys: seq<seq<byte>>)
  {
    forall i :: 0 <= i < |keys| ==> keys[i] != [] && !IsDigit(keys[i][0])
  }

  /** Scan past a key that matches. */
  lemma ScanKey(keys: seq<seq<byte>>, t: seq<byte>)
    requires keys != []
    ensures Scan(keys, keys[0] + t) ==
      var k := DigitRun(t, 0); if k == 0 then None else Prepend(DigitsValue(t[..k]), Scan(keys[1..], t[k..]))
  {
    assert (keys[0] + t)[..|keys[0]|] == keys[0];
    assert (keys[0] + t)[|keys[0]|..] == t;
  }

  /** One key, one number, and whatever follows it as long as it starts with no digit. */
  lemma ScanCons(keys: seq<seq<byte>>, v: nat, tail: seq<byte>)
    requires keys != [] && (tail == [] || !IsDigit(tail[0]))
    ensures Scan(keys, keys[0] + (Dec(v) + tail)) == Prepend(v, Scan(keys[1..], tail))
  {
    var t := Dec(v) + tail;
    ScanKey(keys, t);
    DigitRunOfDigits(Dec(v), tail, 0);
    assert t[..|Dec(v)|] == Dec(v) && t[|Dec(v)|..] == tail;
  }

  lemma SeparableTail(keys: seq<seq<byte>>)
    requires keys != [] && Separable(keys)
    ensures Separable(keys[1..])
  {
    forall i | 0 <= i < |keys[1..]| ensures keys[1..][i] != [] && !IsDigit(keys[1..][i][0]) {
      assert keys[1..][i] == keys[i + 1];
    }
  }

  /** An interleaving of separable keys starts with no digit. */
  lemma InterleaveHead(keys: seq<seq<byte>>, vals: seq<nat>, rest: seq<byte>)
    requires |keys| == |vals| && Separable(keys)
    requires rest == [] || !IsDigit(rest[0])
    ensures var t := Interleave(keys, vals) + rest; t == [] || !IsDigit(t[0])
  {
    if keys != [] {
      assert keys[0] != [];
      assert (Interleave(keys, vals) + rest)[0] == keys[0][0];
    }
  }

  lemma InterleaveCons(keys: seq<seq<byte>>, vals: seq<nat>, rest: seq<byte>)
    requires |keys| == |vals| && keys != []
    ensures Interleave(keys, vals) + rest == keys[0] + (Dec(vals[0]) + (Interleave(keys[1..], vals[1..]) + rest))
  {
  }

  lemma HeadTail(vals: seq<nat>)
    requires vals != []
    ensures Prepend(vals[0], Some(vals[1..])) == Some(vals)
  {
    assert [vals[0]] + vals[1..] == vals;
  }

  /** Round trip: scanning an interleaving gives back its numbers. */
  lemma {:induction false} ScanInterleave(keys: seq<seq<byte>>, vals: seq<nat>, rest: seq<byte>)
    requires |keys| == |vals| && Separable(keys)
    requires rest == [] || !IsDigit(rest[0])
    ensures Scan(keys, Interleave(keys, vals) + rest) == Some(vals)
    decreases |keys|
  {
    if keys != [] {
      var tail := Interleave(keys[1..], vals[1..]) + rest;
      SeparableTail(keys);
      InterleaveHead(keys[1..], vals[1..], rest);
      InterleaveCons(keys, vals, rest);
      ScanCons(keys, vals[0], tail);
      ScanInterleave(keys[1..], vals[1..], rest);
      var text := keys[0] + (Dec(vals[0]) + tail);
      assert Interleave(keys, vals) + rest == text;
      assert Scan(keys[1..], tail) == Some(vals[1..]);
      assert Scan(keys, text) == Prepend(vals[0], Some(vals[1..]));
      HeadTail(vals);
    } else {
      assert vals == [];
    }
  }

  lemma KeysSeparable()
    ensures Separable(KEYS) && (TRAILER == [] || !IsDigit(TRAILER[0]))
  {
  }

  /** The reply names the keys in their fixed order, each with its number. */
  lemma RenderScan(e: Entry)
    ensures Scan(KEYS, Render(e)) == Some(Values(e))
  {
    KeysSeparable();
    ScanInterleave(KEYS, Values(e), TRAILER);
  }

  /** The sum of the key lengths. */
  function KeysLength(keys: seq<seq<byte>>): nat
  {
    if keys == [] then 0 else |keys[0]| + KeysLength(keys[1..])
  }

  predicate KeysNoNul(keys: seq<seq<byte>>)
  {
    forall i :: 0 <= i < |keys| ==> NoNul(keys[i])
  }

  /** Between one and three digits per number below 1000, and no NUL anywhere. */
  lemma {:induction false} InterleaveBounds(keys: seq<seq<byte>>, vals: seq<nat>)
    requires |keys| == |vals| && KeysNoNul(keys)
    requires forall i :: 0 <= i < |vals| ==> vals[i] < 1000
    ensures KeysLength(keys) + |vals| <= |Interleave(keys, vals)| <= KeysLength(keys) + 3 * |vals|
    ensures NoNul(Interleave(keys, vals))
    decreases |keys|
  {
    if keys != [] {
      assert KeysNoNul(keys[1..]) by {
        forall i | 0 <= i < |keys[1..]| ensures NoNul(keys[1..][i]) {
          assert keys[1..][i] == keys[i + 1];
        }
      }
      assert forall i :: 0 <= i < |vals[1..]| ==> vals[1..][i] == vals[i + 1];
      InterleaveBounds(keys[1..], vals[1..]);
      var a, b := keys[0] + Dec(vals[0]), Interleave(keys[1..], vals[1..]);
      assert NoNul(keys[0]);
      DecNoNul(vals[0]);
      assert NoNul(a) by {
        forall i | 0 <= i < |a| ensures a[i] != NUL {
          if i < |keys[0]| { assert a[i] == keys[0][i]; } else { assert a[i] == Dec(vals[0])[i - |keys[0]|]; }
        }
      }
      assert NoNul(a + b) by {
        forall i | 0 <= i < |a + b| ensures (a + b)[i] != NUL {
          if i < |a| { assert (a + b)[i] == a[i]; } else { assert (a + b)[i] == b[i - |a|]; }
        }
      }
    }
  }

  lemma KeyLengths()
    ensures |K_HOUR| == 21 && |K_MINUTE| == 10 && |K_SECOND| == 10 && |K_DAY_OF_MONTH| == 14
    ensures |K_MONTH| == 9 && |K_YEAR| == 8 && |K_DAY_OF_WEEK| == 13 && |K_TEMPERATURE| == 24
    ensures |K_HUMIDITY| == 12 && |K_LIGHT| == 9 && |TRAILER| == 2
  {
  }

  lemma KeysLengthCons(k: seq<byte>, ks: seq<seq<byte>>)
    ensures KeysLength([k] + ks) == |k| + KeysLength(ks)
  {
    assert ([k] + ks)[1..] == ks;
  }

  lemma KeyNoNuls()
    ensures NoNul(K_HOUR) && NoNul(K_MINUTE) && NoNul(K_SECOND) && NoNul(K_DAY_OF_MONTH) && NoNul(K_MONTH)
    ensures NoNul(K_YEAR) && NoNul(K_DAY_OF_WEEK) && NoNul(K_TEMPERATURE) && NoNul(K_HUMIDITY) && NoNul(K_LIGHT)
    ensures NoNul(TRAILER)
  {
  }

  lemma KeysNoNulCons(k: seq<byte>, ks: seq<seq<byte>>)
    requires NoNul(k) && KeysNoNul(ks)
    ensures KeysNoNul([k] + ks)
  {
    forall i | 0 <= i < |[k] + ks| ensures NoNul(([k] + ks)[i]) {
      if i > 0 {
        assert ([k] + ks)[i] == ks[i - 1];
      }
    }
  }

  lemma KeysFacts()
    ensures KeysLength(KEYS) == 130 && KeysNoNul(KEYS) && NoNul(TRAILER) && |TRAILER| == 2
  {
    KeyLengths();
    KeyNoNuls();
    var ks: seq<seq<byte>> := [];
    KeysLengthCons(K_LIGHT, ks);
    KeysNoNulCons(K_LIGHT, ks);
    ks := [K_LIGHT] + ks;
    KeysLengthCons(K_HUMIDITY, ks);
    KeysNoNulCons(K_HUMIDITY, ks);
    ks := [K_HUMIDITY] + ks;
    KeysLengthCons(K_TEMPERATURE, ks);
    KeysNoNulCons(K_TEMPERATURE, ks);
    ks := [K_TEMPERATURE] + ks;
    KeysLengthCons(K_DAY_OF_WEEK, ks);
    KeysNoNulCons(K_DAY_OF_WEEK, ks);
    ks := [K_DAY_OF_WEEK] + ks;
    KeysLengthCons(K_YEAR, ks);
    KeysNoNulCons(K_YEAR, ks);
    ks := [K_YEAR] + ks;
    KeysLengthCons(K_MONTH, ks);
    KeysNoNulCons(K_MONTH, ks);
    ks := [K_MONTH] + ks;
    KeysLengthCons(K_DAY_OF_MONTH, ks);
    KeysNoNulCons(K_DAY_OF_MONTH, ks);
    ks := [K_DAY_OF_MONTH] + ks;
    KeysLengthCons(K_SECOND, ks);
    KeysNoNulCons(K_SECOND, ks);
    ks := [K_SECOND] + ks;
    KeysLengthCons(K_MINUTE, ks);
    KeysNoNulCons(K_MINUTE, ks);
    ks := [K_MINUTE] + ks;
    KeysLengthCons(K_HOUR, ks);
    KeysNoNulCons(K_HOUR, ks);
    ks := [K_HOUR] + ks;
    assert ks == KEYS;
  }

  /**
   * Lines 15 and 26-38: the reply is 142 to 162 bytes without a NUL, so it
   * fits `g_json_str` with its terminator and its C-string view is all of it.
   */
  lemma RenderFits(e: Entry)
    ensures 142 <= |Render(e)| <= 162 && |Render(e)| < JSON_SIZE
    ensures NoNul(Render(e)) && CStr(Render(e)) == Render(e)
  {
    KeysFacts();
    InterleaveBounds(KEYS, Values(e));
    var a := Interleave(KEYS, Values(e));
    assert NoNul(a + TRAILER) by {
      forall i | 0 <= i < |a + TRAILER| ensures (a + TRAILER)[i] != NUL {
        if i < |a| { assert (a + TRAILER)[i] == a[i]; } else { assert (a + TRAILER)[i] == TRAILER[i - |a|]; }
      }
    }
    CStrOfNoNul(Render(e));
  }

  /**
   * gh_response_str as the bridge sees it: the reply to `request` when the
   * getter is `g` and `g_entry` holds `e`.
   */
  function Responder(g: Getter, e: Entry): Handler
  {
    request => Render(g(ParseIndex(request), e))
  }

  /** Every request is answered with a non-empty reply that fits the buffer. */
  lemma ResponderFits(g: Getter, e: Entry, request: seq<byte>)
    ensures 0 < StrLen(Responder(g, e)(request)) < JSON_SIZE
  {
    RenderFits(g(ParseIndex(request), e));
  }

  // ---------------------------------------------------------------------
  // The server object

  class Server {
    const bridge: Bridge
    const json: array<byte>
    var getter: Option<Getter>
    var entry: Entry
    /** The indices the getter was called with, oldest first. */
    ghost var calls: seq<byte>

    ghost predicate Valid()
      reads this, bridge, bridge.uart
    {
      bridge.Valid() && json.Length == JSON_SIZE
    }

    /** Power-up: no getter, zeroed entry and buffer. */
    constructor (b: Bridge)
      requires b.Valid()
      ensures Valid() && bridge == b && fresh(json)
      ensures getter.None? && entry == Entry(0, 0, 0, 0, 0, 0, 0, 0, 0, 0) && calls == []
      ensures json[..] == seq(JSON_SIZE, _ => NUL)
    {
      bridge := b;
      json := new byte[JSON_SIZE](_ => NUL);
      getter := None;
      entry := Entry(0, 0, 0, 0, 0, 0, 0, 0, 0, 0);
      calls := [];
    }

    /** Lines 22-40: parse, call the getter once, render into `g_json_str`. */
    method Respond(request: seq<byte>) returns (reply: seq<byte>)
      requires Valid() && getter.Some?
      modifies this`entry, this`calls, json
      ensures Valid()
      ensures entry == old(getter.value)(ParseIndex(request), old(entry))
      ensures calls == old(calls) + [ParseIndex(request)]
      ensures reply == json[..] && CStr(reply) == Render(entry)
      ensures CStr(reply) == Responder(old(getter.value), old(entry))(request)
    {
      var index := ParseIndex(request);
      entry := getter.value(index, entry);
      calls := calls + [index];
      var text := Render(entry);
      RenderFits(entry);
      forall i | 0 <= i < |text| {
        json[i] := text[i];
      }
      json[|text|] := NUL;
      assert json[..][..|text|] == text;
      CStrUnique(json[..], |text|);
      reply := json[..];
    }

    /** Lines 42-48: bring up the access point. */
    method Init() returns (st: ServerStatus)
      requires Valid()
      modifies bridge`cursor, bridge`overflow, bridge.buf, bridge.uart
      ensures Valid()
      ensures var r := InitApSpec(old(bridge.Model()), SSID, PASSWORD);
        bridge.Model() == r.st && st == StatusOf(r.status)
    {
      var s := bridge.InitAsAccessPoint(SSID, PASSWORD);
      st := StatusOf(s);
    }

    /**
     * Lines 50-59: a NULL getter fails before the modem is touched;
     * otherwise the getter is kept and the TCP server started with it.
     */
    method Run(g: Option<Getter>) returns (st: ServerStatus)
      requires Valid()
      modifies this`getter, bridge, bridge.buf, bridge.uart
      ensures Valid()
      ensures g.None? ==> st == SERVER_ERROR && getter == old(getter) && bridge.Model() == old(bridge.Model())
      ensures g.Some? ==> getter == g
      ensures g.Some? ==>
        var r := RunServerSpec(old(bridge.Model()), PORT, Some(Responder(g.value, entry)));
        bridge.Model() == r.st && st == StatusOf(r.status)
    {
      if g.None? {
        return SERVER_ERROR;
      }
      getter := g;
      var s := bridge.RunServer(PORT, Some(Responder(g.value, entry)));
      st := StatusOf(s);
    }

    /** Lines 61-66: stop the TCP server. */
    method Kill() returns (st: ServerStatus)
      requires Valid()
      modifies bridge, bridge.buf, bridge.uart
      ensures Valid()
      ensures var r := KillServerSpec(old(bridge.Model()));
        bridge.Model() == r.st && st == StatusOf(r.status)
    {
      var s := bridge.KillServer();
      st := StatusOf(s);
    }
  }
}
