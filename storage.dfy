/**
 * The EEPROM circular log (src/app/storage.c).
 *
 * The 1024-byte EEPROM is divided into TOTAL_BLOCKS = 1024 / 10 = 102 slots
 * of 3 data bytes followed by 7 timestamp bytes. The module keeps the write
 * cursor `storage_rear`, the saturating count `LengthOfData` and a front
 * index that is always 0; rear and count are persisted in two EEPROM bytes
 * whose addresses the headers leave undefined, so they are parameters here
 * (`Layout`), placed in the four bytes after the last slot.
 *
 * `Log` is the object whose fields the C code updates; `Store` is its
 * abstract value, and the functions on `Store` specify the operations.
 */
module Storage {
  import opened Bytes

  const BLOCK_DATA_SIZE: nat := 3
  const TIMESTAMP_SIZE: nat := 7
  /** BLOCK_DATA_SIZE + sizeof(timestamp_t). */
  const BLOCK_SIZE: nat := 10
  const BASE_ADDRESS: nat := 0
  const EEPROM_SIZE: nat := 1024
  /** EEPROM_SIZE / BLOCK_SIZE, as header line 35 computes it (see `TotalBlocks`). */
  const TOTAL_BLOCKS: nat := 102
  /** `storage_front` is initialised to 0 and never written. */
  const FRONT: byte := 0

  lemma TotalBlocks()
    ensures TOTAL_BLOCKS == EEPROM_SIZE / BLOCK_SIZE
  {
  }

  datatype StorageStatus = STORAGE_OK | STORAGE_ERROR

  /** The numeric value of STORAGE_ERROR, which get_eeprom_address returns as an address. */
  const ERROR_ADDRESS: nat := 1

  /** Where the rear index and the count are persisted. */
  datatype Layout = Layout(rearAddress: nat, lengthAddress: nat)

  predicate ValidLayout(l: Layout)
  {
    TOTAL_BLOCKS * BLOCK_SIZE <= l.rearAddress < EEPROM_SIZE &&
    TOTAL_BLOCKS * BLOCK_SIZE <= l.lengthAddress < EEPROM_SIZE &&
    l.rearAddress != l.lengthAddress
  }

  /** Lines 25-30: the first EEPROM address of slot `index`; STORAGE_ERROR (1) past the last slot. */
  function EepromAddress(index: byte): (a: nat)
    ensures index < TOTAL_BLOCKS ==> a + BLOCK_SIZE <= TOTAL_BLOCKS * BLOCK_SIZE <= EEPROM_SIZE
    ensures index >= TOTAL_BLOCKS ==> a == ERROR_ADDRESS
  {
    if index >= TOTAL_BLOCKS then ERROR_ADDRESS
    else BASE_ADDRESS + index * BLOCK_SIZE
  }

  /** A slot's address is aligned to BLOCK_SIZE, and slot `index` is the one it starts. */
  lemma SlotAligned(index: byte)
    requires index < TOTAL_BLOCKS
    ensures EepromAddress(index) % BLOCK_SIZE == 0 && EepromAddress(index) / BLOCK_SIZE == index
  {
  }

  /** Lines 33-35: the next slot of the circular queue, from any `uint8_t`. */
  function IncrementIndex(index: byte): (r: byte)
    ensures r < TOTAL_BLOCKS
    ensures index < TOTAL_BLOCKS - 1 ==> r == index + 1
    ensures index == TOTAL_BLOCKS - 1 ==> r == 0
  {
    (index + 1) % TOTAL_BLOCKS
  }

  /** Both nibbles are decimal digits. */
  predicate IsBcd(b: byte)
  {
    b / 16 <= 9 && b % 16 <= 9
  }

  /** The packed-BCD encoding of a value below 100. */
  function ToBcd(v: nat): (b: byte)
    requires v < 100
    ensures IsBcd(b)
  {
    (v / 10) * 16 + v % 10
  }

  /**
   * Lines 38-40: `(uint8_t)((bcd >> 4) * 10) + (uint8_t)(bcd & 0x0F)`,
   * converted back to `uint8_t`. A valid BCD byte decodes to the value whose
   * encoding it is.
   */
  function BcdToInt(bcd: byte): (r: byte)
    ensures IsBcd(bcd) ==> r < 100 && ToBcd(r) == bcd
  {
    BcdArith(bcd / 16, bcd % 16);
    ToU8(ToU8((bcd / 16) * 10) + ToU8(bcd % 16))
  }

  /** The arithmetic behind BcdToInt: two nibbles, and decimal digits when both are below 10. */
  lemma BcdArith(hi: nat, lo: nat)
    requires hi < 16 && lo < 16
    ensures hi * 10 + lo <= 165
    ensures hi <= 9 && lo <= 9 ==> (hi * 10 + lo) / 10 == hi && (hi * 10 + lo) % 10 == lo
  {
  }

  /** None of the three conversions to `uint8_t` truncates. */
  lemma BcdNoWrap(bcd: byte)
    ensures BcdToInt(bcd) == (bcd / 16) * 10 + bcd % 16 <= 165
  {
    var hi, lo := bcd / 16, bcd % 16;
    BcdArith(hi, lo);
    assert ToU8(hi * 10) == hi * 10 && ToU8(lo) == lo;
  }

  /** Decoding inverts encoding. */
  lemma BcdRoundTrip(v: nat)
    requires v < 100
    ensures BcdToInt(ToBcd(v)) == v
  {
    var b := ToBcd(v);
    assert b == (v / 10) * 16 + v % 10;
    assert b / 16 == v / 10 && b % 16 == v % 10;
  }

  // ---------------------------------------------------------------------
  // The abstract store

  datatype Store = Store(eeprom: seq<byte>, rear: byte, length: byte)

  predicate GoodStore(s: Store)
  {
    |s.eeprom| == EEPROM_SIZE
  }

  /** `e` with `src` written from `address` on: `eeprom_write_block`. */
  function Overwrite(e: seq<byte>, address: nat, src: seq<byte>): (r: seq<byte>)
    requires address + |src| <= |e|
    ensures |r| == |e| && r[address..address + |src|] == src
    ensures forall k :: 0 <= k < |e| && !(address <= k < address + |src|) ==> r[k] == e[k]
  {
    e[..address] + src + e[address + |src|..]
  }

  /** A write leaves the bytes below it as they were. */
  lemma OverwriteBelow(e: seq<byte>, address: nat, src: seq<byte>, from: nat, to: nat)
    requires address + |src| <= |e| && from <= to <= address
    ensures Overwrite(e, address, src)[from..to] == e[from..to]
  {
    assert Overwrite(e, address, src)[..address] == e[..address];
  }

  /** The seven RTC bytes, each BCD-decoded, in the RTC's order (seconds first). */
  function Decoded(time: seq<byte>): (r: seq<byte>)
    requires |time| == TIMESTAMP_SIZE
    ensures |r| == TIMESTAMP_SIZE && forall i :: 0 <= i < TIMESTAMP_SIZE ==> r[i] == BcdToInt(time[i])
  {
    [BcdToInt(time[0]), BcdToInt(time[1]), BcdToInt(time[2]), BcdToInt(time[3]),
     BcdToInt(time[4]), BcdToInt(time[5]), BcdToInt(time[6])]
  }

  /** Lines 43-52: rear and count are reloaded from EEPROM, unchecked. */
  function InitSpec(s: Store, l: Layout): (r: Store)
    requires GoodStore(s) && ValidLayout(l)
    ensures r.eeprom == s.eeprom
  {
    s.(rear := s.eeprom[l.rearAddress], length := s.eeprom[l.lengthAddress])
  }

  /** The count after one more enqueue: it saturates at TOTAL_BLOCKS. */
  function NextLength(length: byte): byte
  {
    if length >= TOTAL_BLOCKS then length else length + 1
  }

  /**
   * Lines 55-87: data then decoded timestamp at the rear slot's address,
   * then the advanced rear and the count, each persisted.
   */
  function EnqueueSpec(s: Store, l: Layout, data: seq<byte>, time: seq<byte>): (r: Store)
    requires GoodStore(s) && ValidLayout(l) && |data| == BLOCK_DATA_SIZE && |time| == TIMESTAMP_SIZE
    ensures GoodStore(r)
  {
    var address := EepromAddress(s.rear);
    var e1 := Overwrite(s.eeprom, address, data);
    var e2 := Overwrite(e1, address + BLOCK_DATA_SIZE, Decoded(time));
    var rear := IncrementIndex(s.rear);
    var length := NextLength(s.length);
    Store(Put(Put(e2, l.rearAddress, rear), l.lengthAddress, length), rear, length)
  }

  /** EnqueueSpec as the two stores after the block's writes and the rear's. */
  lemma EnqueueWrites(s: Store, l: Layout, data: seq<byte>, time: seq<byte>, e3: seq<byte>)
    requires GoodStore(s) && ValidLayout(l) && |data| == BLOCK_DATA_SIZE && |time| == TIMESTAMP_SIZE
    requires e3 == Put(Overwrite(Overwrite(s.eeprom, EepromAddress(s.rear), data), EepromAddress(s.rear) + BLOCK_DATA_SIZE, Decoded(time)),
                       l.rearAddress, IncrementIndex(s.rear))
    ensures EnqueueSpec(s, l, data, time) == Store(Put(e3, l.lengthAddress, NextLength(s.length)), IncrementIndex(s.rear), NextLength(s.length))
  {
  }

  /** Lines 90-95: TOTAL_BLOCKS once saturated, else `rear - front` in `uint8_t`. */
  function LengthSpec(s: Store): byte
  {
    if s.length >= TOTAL_BLOCKS then TOTAL_BLOCKS else ToU8(s.rear - FRONT)
  }

  /** The data bytes of physical slot `i`. */
  function SlotData(e: seq<byte>, i: nat): seq<byte>
    requires i < TOTAL_BLOCKS && |e| == EEPROM_SIZE
  {
    e[i * BLOCK_SIZE..i * BLOCK_SIZE + BLOCK_DATA_SIZE]
  }

  /** The timestamp bytes of physical slot `i`. */
  function SlotTime(e: seq<byte>, i: nat): seq<byte>
    requires i < TOTAL_BLOCKS && |e| == EEPROM_SIZE
  {
    e[i * BLOCK_SIZE + BLOCK_DATA_SIZE..i * BLOCK_SIZE + BLOCK_SIZE]
  }

  // ---------------------------------------------------------------------
  // The object

  class Log {
    const eeprom: array<byte>
    const layout: Layout
    var rear: byte
    var length: byte

    ghost predicate Valid()
      reads this
    {
      eeprom.Length == EEPROM_SIZE && ValidLayout(layout)
    }

    ghost function Model(): (s: Store)
      reads this, eeprom
      ensures Valid() ==> GoodStore(s)
    {
      Store(eeprom[..], rear, length)
    }

    /** Power-up: the EEPROM keeps `contents`; the statics start at 0. */
    constructor (contents: seq<byte>, l: Layout)
      requires |contents| == EEPROM_SIZE && ValidLayout(l)
      ensures Valid() && fresh(eeprom) && layout == l
      ensures Model() == Store(contents, 0, 0)
    {
      eeprom := new byte[EEPROM_SIZE](i requires 0 <= i < EEPROM_SIZE => contents[i]);
      layout := l;
      rear, length := 0, 0;
    }

    method Init() returns (st: StorageStatus)
      requires Valid()
      modifies this`rear, this`length
      ensures Valid()
      ensures st == STORAGE_OK && Model() == InitSpec(old(Model()), layout)
    {
      rear := eeprom[layout.rearAddress];
      length := eeprom[layout.lengthAddress];
      st := STORAGE_OK;
    }

    /** `eeprom_write_block`. */
    method WriteBlock(src: seq<byte>, address: nat)
      requires Valid() && address + |src| <= EEPROM_SIZE
      modifies eeprom
      ensures Valid()
      ensures eeprom[..] == Overwrite(old(eeprom[..]), address, src)
    {
      forall i | 0 <= i < |src| {
        eeprom[address + i] := src[i];
      }
    }

    /** `time` is what RTC_getTime stores; its status is not looked at. */
    method Enqueue(data: seq<byte>, time: seq<byte>) returns (st: StorageStatus)
      requires Valid() && |data| == BLOCK_DATA_SIZE && |time| == TIMESTAMP_SIZE
      modifies this`rear, this`length, eeprom
      ensures Valid()
      ensures st == STORAGE_OK && Model() == EnqueueSpec(old(Model()), layout, data, time)
    {
      var arr := [BcdToInt(time[0]), BcdToInt(time[1]), BcdToInt(time[2]), BcdToInt(time[3]),
                  BcdToInt(time[4]), BcdToInt(time[5]), BcdToInt(time[6])];
      ghost var s0 := Store(eeprom[..], rear, length);
      assert arr == Decoded(time);
      var address := EepromAddress(rear);
      WriteBlock(data, address);
      ghost var e1 := Overwrite(s0.eeprom, address, data);
      address := address + BLOCK_DATA_SIZE;
      WriteBlock(arr, address);
      ghost var e2 := Overwrite(e1, address, arr);
      rear := IncrementIndex(rear);
      eeprom[layout.rearAddress] := rear;
      ghost var e3 := Put(e2, layout.rearAddress, rear);
      assert eeprom[..] == e3;
      if length >= TOTAL_BLOCKS {
        eeprom[layout.lengthAddress] := length;
      } else {
        length := length + 1;
        eeprom[layout.lengthAddress] := length;
      }
      assert length == NextLength(s0.length);
      assert eeprom[..] == Put(e3, layout.lengthAddress, length);
      EnqueueWrites(s0, layout, data, time, e3);
      st := STORAGE_OK;
    }

    method GetLength() returns (st: StorageStatus, n: byte)
      requires Valid()
      ensures st == STORAGE_OK && n == LengthSpec(Model())
    {
      n := if length >= TOTAL_BLOCKS then TOTAL_BLOCKS else ToU8(rear - FRONT);
      st := STORAGE_OK;
    }

    /**
     * Lines 98-120: an index past the last slot is an error that leaves both
     * outputs alone; otherwise the physical slot `index` is copied out.
     */
    method GetBlock(index: byte, data: array<byte>, timestamp: array<byte>) returns (st: StorageStatus)
      requires Valid() && data.Length == BLOCK_DATA_SIZE && timestamp.Length == TIMESTAMP_SIZE
      requires data != timestamp && data != eeprom && timestamp != eeprom
      modifies data, timestamp
      ensures Valid() && st == (if index >= TOTAL_BLOCKS then STORAGE_ERROR else STORAGE_OK)
      ensures st == STORAGE_ERROR ==> data[..] == old(data[..]) && timestamp[..] == old(timestamp[..])
      ensures st == STORAGE_OK ==> data[..] == SlotData(eeprom[..], index) && timestamp[..] == SlotTime(eeprom[..], index)
    {
      if index >= TOTAL_BLOCKS {
        return STORAGE_ERROR;
      }
      var address := EepromAddress(index);
      forall i | 0 <= i < BLOCK_DATA_SIZE {
        data[i] := eeprom[address + i];
      }
      address := address + BLOCK_DATA_SIZE;
      var arr := eeprom[address..address + TIMESTAMP_SIZE];
      for i := 0 to TIMESTAMP_SIZE
        invariant forall j :: 0 <= j < i ==> timestamp[j] == arr[j]
        invariant data[..] == SlotData(eeprom[..], index)
      {
        timestamp[i] := arr[i];
      }
      st := STORAGE_OK;
    }
  }
}
