/**
 * What the circular log promises: slots are disjoint and each enqueue
 * writes exactly one of them, a block reads back until the queue comes
 * round to its slot again, the count saturates, and the record order of
 * `storage_get_block` is physical.
 */
module StorageLemmas {
  import opened Bytes
  import opened Storage

  /** Slots are disjoint, in order, and all end before the persisted counters. */
  lemma SlotsDisjoint(i: byte, j: byte)
    requires i < j < TOTAL_BLOCKS
    ensures EepromAddress(i) + BLOCK_SIZE <= EepromAddress(j)
    ensures EepromAddress(j) + BLOCK_SIZE <= TOTAL_BLOCKS * BLOCK_SIZE
  {
  }

  /** The enqueue at slot `rear` leaves every other byte but the two counters alone. */
  lemma EnqueueFrame(s: Store, l: Layout, data: seq<byte>, time: seq<byte>, k: nat)
    requires GoodStore(s) && ValidLayout(l) && |data| == BLOCK_DATA_SIZE && |time| == TIMESTAMP_SIZE
    requires k < EEPROM_SIZE && k != l.rearAddress && k != l.lengthAddress
    requires !(EepromAddress(s.rear) <= k < EepromAddress(s.rear) + BLOCK_SIZE)
    ensures EnqueueSpec(s, l, data, time).eeprom[k] == s.eeprom[k]
  {
  }

  /** Another slot keeps its data and its timestamp. */
  lemma EnqueueKeepsSlot(s: Store, l: Layout, data: seq<byte>, time: seq<byte>, j: nat)
    requires GoodStore(s) && ValidLayout(l) && |data| == BLOCK_DATA_SIZE && |time| == TIMESTAMP_SIZE
    requires s.rear < TOTAL_BLOCKS && j < TOTAL_BLOCKS && j != s.rear
    ensures var r := EnqueueSpec(s, l, data, time);
      SlotData(r.eeprom, j) == SlotData(s.eeprom, j) && SlotTime(r.eeprom, j) == SlotTime(s.eeprom, j)
  {
    var a := EepromAddress(s.rear);
    assert a == s.rear * BLOCK_SIZE;
    EnqueueKeepsRange(s, l, data, time, j * BLOCK_SIZE, j * BLOCK_SIZE + BLOCK_DATA_SIZE);
    EnqueueKeepsRange(s, l, data, time, j * BLOCK_SIZE + BLOCK_DATA_SIZE, j * BLOCK_SIZE + BLOCK_SIZE);
  }

  /** A range of slot bytes clear of the rear slot is kept as a whole. */
  lemma EnqueueKeepsRange(s: Store, l: Layout, data: seq<byte>, time: seq<byte>, lo: nat, hi: nat)
    requires GoodStore(s) && ValidLayout(l) && |data| == BLOCK_DATA_SIZE && |time| == TIMESTAMP_SIZE
    requires lo <= hi <= TOTAL_BLOCKS * BLOCK_SIZE
    requires hi <= EepromAddress(s.rear) || EepromAddress(s.rear) + BLOCK_SIZE <= lo
    ensures EnqueueSpec(s, l, data, time).eeprom[lo..hi] == s.eeprom[lo..hi]
  {
    var r := EnqueueSpec(s, l, data, time);
    forall k | lo <= k < hi
      ensures r.eeprom[k] == s.eeprom[k]
    {
      EnqueueFrame(s, l, data, time, k);
    }
    SameSlice(r.eeprom, s.eeprom, lo, hi);
  }

  /** Sequences that agree on every index of a range agree on its slice. */
  lemma SameSlice(x: seq<byte>, y: seq<byte>, lo: nat, hi: nat)
    requires lo <= hi <= |x| && hi <= |y|
    requires forall k :: lo <= k < hi ==> x[k] == y[k]
    ensures x[lo..hi] == y[lo..hi]
  {
  }

  /** The rear slot receives the data bytes and the decoded timestamp. */
  lemma EnqueueStores(s: Store, l: Layout, data: seq<byte>, time: seq<byte>)
    requires GoodStore(s) && ValidLayout(l) && |data| == BLOCK_DATA_SIZE && |time| == TIMESTAMP_SIZE
    requires s.rear < TOTAL_BLOCKS
    ensures var r := EnqueueSpec(s, l, data, time);
      SlotData(r.eeprom, s.rear) == data && SlotTime(r.eeprom, s.rear) == Decoded(time)
  {
    var a := EepromAddress(s.rear);
    assert a == s.rear * BLOCK_SIZE;
    var e1 := Overwrite(s.eeprom, a, data);
    var e2 := Overwrite(e1, a + BLOCK_DATA_SIZE, Decoded(time));
    OverwriteBelow(e1, a + BLOCK_DATA_SIZE, Decoded(time), a, a + BLOCK_DATA_SIZE);
    var e3 := Put(e2, l.rearAddress, IncrementIndex(s.rear));
    var r := EnqueueSpec(s, l, data, time);
    assert r.eeprom == Put(e3, l.lengthAddress, NextLength(s.length));
    WriteOutside(e2, a, a + BLOCK_DATA_SIZE, l.rearAddress, IncrementIndex(s.rear));
    WriteOutside(e3, a, a + BLOCK_DATA_SIZE, l.lengthAddress, NextLength(s.length));
    WriteOutside(e2, a + BLOCK_DATA_SIZE, a + BLOCK_SIZE, l.rearAddress, IncrementIndex(s.rear));
    WriteOutside(e3, a + BLOCK_DATA_SIZE, a + BLOCK_SIZE, l.lengthAddress, NextLength(s.length));
  }

  /**
   * The rear advances around the circle and the count rises by one until it
   * reaches TOTAL_BLOCKS.
   */
  lemma EnqueueCounters(s: Store, l: Layout, data: seq<byte>, time: seq<byte>)
    requires GoodStore(s) && ValidLayout(l) && |data| == BLOCK_DATA_SIZE && |time| == TIMESTAMP_SIZE
    ensures var r := EnqueueSpec(s, l, data, time);
      r.rear == (s.rear + 1) % TOTAL_BLOCKS &&
      (s.length < TOTAL_BLOCKS ==> r.length == s.length + 1) &&
      (s.length >= TOTAL_BLOCKS ==> r.length == s.length) &&
      (s.length <= TOTAL_BLOCKS ==> r.length <= TOTAL_BLOCKS)
  {
  }

  /** Both counters are persisted as they are held in memory. */
  lemma EnqueuePersists(s: Store, l: Layout, data: seq<byte>, time: seq<byte>)
    requires GoodStore(s) && ValidLayout(l) && |data| == BLOCK_DATA_SIZE && |time| == TIMESTAMP_SIZE
    ensures var r := EnqueueSpec(s, l, data, time);
      r.eeprom[l.rearAddress] == r.rear && r.eeprom[l.lengthAddress] == r.length
  {
  }

  // ---------------------------------------------------------------------
  // Sequences of enqueues

  datatype Sample = Sample(data: seq<byte>, time: seq<byte>)

  predicate Fits(x: Sample)
  {
    |x.data| == BLOCK_DATA_SIZE && |x.time| == TIMESTAMP_SIZE
  }

  predicate WellFormed(xs: seq<Sample>)
  {
    forall i :: 0 <= i < |xs| ==> Fits(xs[i])
  }

  /** The store after the samples were enqueued in order. */
  function Run(s: Store, l: Layout, xs: seq<Sample>): (r: Store)
    requires GoodStore(s) && ValidLayout(l) && WellFormed(xs)
    ensures GoodStore(r)
    decreases |xs|
  {
    if xs == [] then s else Run(EnqueueSpec(s, l, xs[0].data, xs[0].time), l, xs[1..])
  }

  /** The first step of a run, named. */
  lemma RunCons(s: Store, l: Layout, xs: seq<Sample>) returns (s1: Store)
    requires GoodStore(s) && ValidLayout(l) && WellFormed(xs) && xs != []
    ensures Fits(xs[0]) && WellFormed(xs[1..])
    ensures s1 == EnqueueSpec(s, l, xs[0].data, xs[0].time) && GoodStore(s1)
    ensures s1.rear == IncrementIndex(s.rear) && s1.length == NextLength(s.length)
    ensures Run(s, l, xs) == Run(s1, l, xs[1..])
  {
    s1 := EnqueueSpec(s, l, xs[0].data, xs[0].time);
  }

  function Min(a: nat, b: nat): nat
  {
    if a < b then a else b
  }

  lemma {:induction false} RunSplit(s: Store, l: Layout, xs: seq<Sample>, ys: seq<Sample>)
    requires GoodStore(s) && ValidLayout(l) && WellFormed(xs) && WellFormed(ys)
    ensures WellFormed(xs + ys) && Run(s, l, xs + ys) == Run(Run(s, l, xs), l, ys)
    decreases |xs|
  {
    if xs != [] {
      assert (xs + ys)[1..] == xs[1..] + ys;
      RunSplit(EnqueueSpec(s, l, xs[0].data, xs[0].time), l, xs[1..], ys);
    } else {
      assert xs + ys == ys;
    }
  }

  /** The rear index after `n` enqueues starting from `r`. */
  function Advance(r: byte, n: nat): byte
    decreases n
  {
    if n == 0 then r else Advance(IncrementIndex(r), n - 1)
  }

  /** After n enqueues the rear has moved n slots and the count by n, up to TOTAL_BLOCKS. */
  lemma RunCounters(s: Store, l: Layout, xs: seq<Sample>)
    requires GoodStore(s) && ValidLayout(l) && WellFormed(xs) && s.length <= TOTAL_BLOCKS
    ensures Run(s, l, xs).rear == Advance(s.rear, |xs|)
    ensures Run(s, l, xs).length == Min(s.length + |xs|, TOTAL_BLOCKS)
  {
    RunRear(s, l, xs);
    RunLength(s, l, xs);
  }

  lemma AdvanceStep(r: byte, n: nat)
    ensures Advance(r, n + 1) == Advance(IncrementIndex(r), n)
  {
  }

  lemma {:induction false} RunRear(s: Store, l: Layout, xs: seq<Sample>)
    requires GoodStore(s) && ValidLayout(l) && WellFormed(xs)
    ensures Run(s, l, xs).rear == Advance(s.rear, |xs|)
    decreases |xs|
  {
    if xs != [] {
      var s1 := RunCons(s, l, xs);
      var ys := xs[1..];
      assert Run(s, l, xs) == Run(s1, l, ys);
      RunRear(s1, l, ys);
      assert Run(s1, l, ys).rear == Advance(s1.rear, |ys|);
      assert |ys| + 1 == |xs|;
      AdvanceStep(s.rear, |ys|);
      assert Advance(s.rear, |xs|) == Advance(s1.rear, |ys|);
    }
  }

  lemma {:induction false} RunLength(s: Store, l: Layout, xs: seq<Sample>)
    requires GoodStore(s) && ValidLayout(l) && WellFormed(xs) && s.length <= TOTAL_BLOCKS
    ensures Run(s, l, xs).length == Min(s.length + |xs|, TOTAL_BLOCKS)
    decreases |xs|
  {
    if xs != [] {
      var s1 := RunCons(s, l, xs);
      var ys := xs[1..];
      assert Run(s, l, xs) == Run(s1, l, ys);
      RunLength(s1, l, ys);
      assert Run(s1, l, ys).length == Min(s1.length + |ys|, TOTAL_BLOCKS);
      assert |ys| + 1 == |xs|;
      MinStep(s.length, s1.length, |ys|);
    }
  }

  lemma MinStep(len: nat, len1: nat, n: nat)
    requires len <= TOTAL_BLOCKS && len1 == if len < TOTAL_BLOCKS then len + 1 else len
    ensures Min(len1 + n, TOTAL_BLOCKS) == Min(len + n + 1, TOTAL_BLOCKS)
  {
  }

  /** Moving one slot round the circle and then `n` more is moving `n + 1`. */
  lemma WrapStep(r: nat, r1: nat, n: nat, t: nat)
    requires r < TOTAL_BLOCKS && r1 == (r + 1) % TOTAL_BLOCKS && t == (r1 + n) % TOTAL_BLOCKS
    ensures t == (r + n + 1) % TOTAL_BLOCKS
  {
    if r == TOTAL_BLOCKS - 1 {
      assert (n + TOTAL_BLOCKS) / TOTAL_BLOCKS == n / TOTAL_BLOCKS + 1;
    }
  }

  /** The rear moves modulo TOTAL_BLOCKS. */
  lemma {:induction false} AdvanceMod(r: byte, n: nat)
    requires r < TOTAL_BLOCKS
    ensures Advance(r, n) == (r + n) % TOTAL_BLOCKS
    decreases n
  {
    if n > 0 {
      var r1 := IncrementIndex(r);
      AdvanceMod(r1, n - 1);
      WrapStep(r, r1, n - 1, Advance(r1, n - 1));
    }
  }

  /** No wrap-around: the rear just counts up. */
  lemma {:induction false} AdvanceSmall(r: byte, n: nat)
    requires r + n < TOTAL_BLOCKS
    ensures Advance(r, n) == r + n
    decreases n
  {
    if n > 0 {
      AdvanceSmall(r + 1, n - 1);
    }
  }

  lemma {:induction false} AdvanceSplit(r: byte, m: nat, n: nat)
    ensures Advance(r, m + n) == Advance(Advance(r, m), n)
    decreases m
  {
    if m > 0 {
      AdvanceSplit(IncrementIndex(r), m - 1, n);
    }
  }

  /** TOTAL_BLOCKS enqueues bring the rear back where it was. */
  lemma FullCircle(r: byte)
    requires r < TOTAL_BLOCKS
    ensures Advance(r, TOTAL_BLOCKS) == r
  {
    var m := TOTAL_BLOCKS - 1 - r;
    AdvanceSplit(r, m, r + 1);
    AdvanceSmall(r, m);
    assert Advance(TOTAL_BLOCKS - 1, r + 1) == Advance(0, r);
    AdvanceSmall(0, r);
  }

  /**
   * From a zeroed log, `storage_get_length` reports the number of enqueues,
   * or TOTAL_BLOCKS once that many were made.
   */
  lemma LengthFromZero(e: seq<byte>, l: Layout, xs: seq<Sample>)
    requires |e| == EEPROM_SIZE && ValidLayout(l) && WellFormed(xs)
    ensures LengthSpec(Run(Store(e, 0, 0), l, xs)) == Min(|xs|, TOTAL_BLOCKS)
  {
    RunCounters(Store(e, 0, 0), l, xs);
    if |xs| < TOTAL_BLOCKS {
      AdvanceSmall(0, |xs|);
    }
  }

  /** The enqueues before the rear reaches slot `j`. */
  function Distance(rear: nat, j: nat): nat
  {
    (j - rear) % TOTAL_BLOCKS
  }

  lemma DistanceStep(rear: byte, j: nat)
    requires rear < TOTAL_BLOCKS && j < TOTAL_BLOCKS && rear != j
    ensures Distance(IncrementIndex(rear), j) == Distance(rear, j) - 1
  {
    if rear < j {
      assert Distance(rear, j) == j - rear;
      assert Distance(rear + 1, j) == j - rear - 1;
    } else if rear == TOTAL_BLOCKS - 1 {
      assert Distance(rear, j) == j + 1;
    } else {
      assert Distance(rear, j) == j - rear + TOTAL_BLOCKS;
      assert Distance(rear + 1, j) == j - rear - 1 + TOTAL_BLOCKS;
    }
  }

  /** Seen from the slot after it, a slot is the farthest away. */
  lemma DistanceBack(r: byte)
    requires r < TOTAL_BLOCKS
    ensures Distance(IncrementIndex(r), r) == TOTAL_BLOCKS - 1
  {
    if r < TOTAL_BLOCKS - 1 {
      assert Distance(r + 1, r) == TOTAL_BLOCKS - 1;
    }
  }

  /** Slot `j` is untouched by enqueues that end before the rear gets to it. */
  lemma {:induction false} RunKeepsSlot(s: Store, l: Layout, xs: seq<Sample>, j: nat)
    requires GoodStore(s) && ValidLayout(l) && WellFormed(xs)
    requires s.rear < TOTAL_BLOCKS && j < TOTAL_BLOCKS && |xs| <= Distance(s.rear, j)
    ensures SlotData(Run(s, l, xs).eeprom, j) == SlotData(s.eeprom, j)
    ensures SlotTime(Run(s, l, xs).eeprom, j) == SlotTime(s.eeprom, j)
    decreases |xs|
  {
    if xs != [] {
      assert s.rear != j;
      var s1 := RunCons(s, l, xs);
      EnqueueKeepsSlot(s, l, xs[0].data, xs[0].time, j);
      DistanceStep(s.rear, j);
      RunKeepsSlot(s1, l, xs[1..], j);
    }
  }

  /**
   * Round trip: the block enqueued at slot `r` is what `storage_get_block(r)`
   * copies out, through up to TOTAL_BLOCKS - 1 further enqueues; the next
   * one reuses the slot.
   */
  lemma ReadBack(s: Store, l: Layout, x: Sample, xs: seq<Sample>)
    requires GoodStore(s) && ValidLayout(l) && Fits(x) && WellFormed(xs)
    requires s.rear < TOTAL_BLOCKS && |xs| < TOTAL_BLOCKS
    ensures var e := Run(EnqueueSpec(s, l, x.data, x.time), l, xs).eeprom;
      SlotData(e, s.rear) == x.data && SlotTime(e, s.rear) == Decoded(x.time)
  {
    var s1 := EnqueueSpec(s, l, x.data, x.time);
    EnqueueStores(s, l, x.data, x.time);
    DistanceBack(s.rear);
    RunKeepsSlot(s1, l, xs, s.rear);
  }

  /** The slot after TOTAL_BLOCKS more enqueues: the one that reuses it. */
  lemma Reused(s: Store, l: Layout, xs: seq<Sample>)
    requires GoodStore(s) && ValidLayout(l) && WellFormed(xs)
    requires s.rear < TOTAL_BLOCKS && s.length <= TOTAL_BLOCKS && |xs| == TOTAL_BLOCKS
    ensures Run(s, l, xs).rear == s.rear
  {
    RunCounters(s, l, xs);
    FullCircle(s.rear);
  }

  /**
   * Physical order: once TOTAL_BLOCKS + 1 records were written into a zeroed
   * log, `storage_get_block(0)` returns the newest and `storage_get_block(1)`
   * the oldest that survives.
   */
  lemma PhysicalOrder(e: seq<byte>, l: Layout, xs: seq<Sample>)
    requires |e| == EEPROM_SIZE && ValidLayout(l) && WellFormed(xs) && |xs| == TOTAL_BLOCKS + 1
    ensures var s := Run(Store(e, 0, 0), l, xs);
      SlotData(s.eeprom, 0) == xs[TOTAL_BLOCKS].data && SlotData(s.eeprom, 1) == xs[1].data
  {
    NewestAtZero(e, l, xs);
    OldestAtOne(e, l, xs);
  }

  /** The last sample of a run is the last enqueue. */
  lemma RunLast(s: Store, l: Layout, ys: seq<Sample>, x: Sample)
    requires GoodStore(s) && ValidLayout(l) && WellFormed(ys) && Fits(x)
    ensures WellFormed(ys + [x])
    ensures Run(s, l, ys + [x]) == EnqueueSpec(Run(s, l, ys), l, x.data, x.time)
  {
    RunSplit(s, l, ys, [x]);
    assert [x][1..] == [];
  }

  /** The enqueue after TOTAL_BLOCKS of them lands on slot 0 again. */
  lemma NewestAtZero(e: seq<byte>, l: Layout, xs: seq<Sample>)
    requires |e| == EEPROM_SIZE && ValidLayout(l) && WellFormed(xs) && |xs| == TOTAL_BLOCKS + 1
    ensures SlotData(Run(Store(e, 0, 0), l, xs).eeprom, 0) == xs[TOTAL_BLOCKS].data
  {
    var ys, x := xs[..TOTAL_BLOCKS], xs[TOTAL_BLOCKS];
    assert xs == ys + [x];
    RunLast(Store(e, 0, 0), l, ys, x);
    Reused(Store(e, 0, 0), l, ys);
    EnqueueStores(Run(Store(e, 0, 0), l, ys), l, x.data, x.time);
  }

  /** The second enqueue lands on slot 1, and only TOTAL_BLOCKS - 1 follow it. */
  lemma OldestAtOne(e: seq<byte>, l: Layout, xs: seq<Sample>)
    requires |e| == EEPROM_SIZE && ValidLayout(l) && WellFormed(xs) && |xs| == TOTAL_BLOCKS + 1
    ensures SlotData(Run(Store(e, 0, 0), l, xs).eeprom, 1) == xs[1].data
  {
    var b := EnqueueSpec(Store(e, 0, 0), l, xs[0].data, xs[0].time);
    assert b.rear == 1;
    var ys := xs[1..];
    assert ys[0] == xs[1] && ys[1..] == xs[2..];
    ReadBack(b, l, xs[1], xs[2..]);
  }

  /**
   * An erased EEPROM (every byte 0xFF): storage_init loads rear 255, the
   * count reads as full, and the next enqueue writes its ten bytes at the
   * STORAGE_ERROR address 1, across slots 0 and 1.
   */
  lemma ErasedEeprom(l: Layout, data: seq<byte>, time: seq<byte>)
    requires ValidLayout(l) && |data| == BLOCK_DATA_SIZE && |time| == TIMESTAMP_SIZE
    ensures var s := InitSpec(Store(seq(EEPROM_SIZE, _ => 255), 0, 0), l);
      s.rear == 255 && EepromAddress(s.rear) == ERROR_ADDRESS && LengthSpec(s) == TOTAL_BLOCKS &&
      var r := EnqueueSpec(s, l, data, time);
      r.eeprom[1..4] == data && r.eeprom[4..11] == Decoded(time) && r.rear == 52 && r.length == 255
  {
    var s := InitSpec(Store(seq(EEPROM_SIZE, _ => 255), 0, 0), l);
    var e1 := Overwrite(s.eeprom, 1, data);
    var e2 := Overwrite(e1, 4, Decoded(time));
    assert e2[1..4] == e1[1..4];
    var r := EnqueueSpec(s, l, data, time);
    assert r.eeprom[1..11] == e2[1..11];
    assert r.eeprom[1..4] == r.eeprom[1..11][..3];
    assert e2[1..4] == e2[1..11][..3];
    assert r.eeprom[4..11] == r.eeprom[1..11][3..];
    assert e2[4..11] == e2[1..11][3..];
  }
}
