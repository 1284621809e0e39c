/**
 * Bytes, C strings and decimal text, as the firmware's C library calls see them.
 *
 * A C string is a byte sequence read up to its first NUL; `CStr` gives that
 * view. `Find` is `strstr`/`strchr` over it, `ParseDecimal` is the prefix
 * grammar shared by `atoi`, `strtoul` and `sscanf("%hhu")`, and `Dec` is the
 * `%d`/`%i` rendering of `sprintf`.
 */
module Bytes {

  /** An unsigned 8-bit value (`uint8_t`, `char` on AVR). */
  type byte = x: int | 0 <= x < 256

  datatype Option<T> = None | Some(value: T)

  const NUL: byte := 0

  /** The bytes of an ASCII string literal. */
  function Ascii(s: string): (r: seq<byte>)
    requires forall i :: 0 <= i < |s| ==> s[i] as int < 256
    ensures |r| == |s|
    ensures forall i :: 0 <= i < |s| ==> r[i] == s[i] as int
  {
    seq(|s|, i requires 0 <= i < |s| => s[i] as int as byte)
  }

  // ---------------------------------------------------------------------
  // The C-string view

  /** `strlen`: the index of the first NUL, or |s| when there is none. */
  function StrLen(s: seq<byte>): (n: nat)
    ensures n <= |s|
    ensures forall i :: 0 <= i < n ==> s[i] != NUL
    ensures n < |s| ==> s[n] == NUL
  {
    if s == [] || s[0] == NUL then 0 else 1 + StrLen(s[1..])
  }

  /** The C string stored at the start of `s`: the bytes before the first NUL. */
  function CStr(s: seq<byte>): (r: seq<byte>)
  {
    s[..StrLen(s)]
  }

  /** `s` with the byte at `i` replaced by `v`: a store through a pointer into a buffer. */
  function Put(s: seq<byte>, i: nat, v: byte): (r: seq<byte>)
    requires i < |s|
    ensures |r| == |s| && r[i] == v
    ensures forall j :: 0 <= j < |s| && j != i ==> r[j] == s[j]
  {
    s[i := v]
  }

  /** A slice survives a write outside it. */
  lemma WriteOutside(b: seq<byte>, from: nat, to: nat, k: nat, v: byte)
    requires from <= to <= |b| && k < |b| && (k < from || to <= k)
    ensures Put(b, k, v)[from..to] == b[from..to]
  {
  }

  predicate NoNul(s: seq<byte>)
  {
    forall i :: 0 <= i < |s| ==> s[i] != NUL
  }

  /** The C-string view is characterised by: a NUL-free prefix followed by a NUL or the end. */
  lemma CStrUnique(s: seq<byte>, n: nat)
    requires n <= |s| && NoNul(s[..n]) && (n < |s| ==> s[n] == NUL)
    ensures StrLen(s) == n && CStr(s) == s[..n]
  {
  }

  /** A NUL written after `t` hides whatever follows it. */
  lemma CStrOfTerminated(t: seq<byte>, tail: seq<byte>)
    ensures CStr(t + [NUL] + tail) == CStr(t)
  {
    var s := t + [NUL] + tail;
    var n := StrLen(t);
    assert s[..n] == t[..n];
    assert n < |t| ==> s[n] == t[n];
    assert n == |t| ==> s[n] == NUL;
    CStrUnique(s, n);
  }

  /** A string without NUL is its own C-string view. */
  lemma CStrOfNoNul(t: seq<byte>)
    requires NoNul(t)
    ensures StrLen(t) == |t| && CStr(t) == t
  {
    CStrUnique(t, |t|);
  }

  // ---------------------------------------------------------------------
  // Substring search

  /** `t` occurs in `s` at position `i`. */
  predicate Occurs(s: seq<byte>, t: seq<byte>, i: nat)
  {
    i + |t| <= |s| && s[i..i + |t|] == t
  }

  /**
   * The first position at or after `from` where `t` occurs in `s`:
   * `strstr` (from 0) and `strchr` (a one-byte needle) over a C-string view.
   */
  function Find(s: seq<byte>, t: seq<byte>, from: nat): (r: Option<nat>)
    ensures r.Some? ==> from <= r.value && Occurs(s, t, r.value)
    ensures r.Some? ==> forall j :: from <= j < r.value ==> !Occurs(s, t, j)
    ensures r.None? ==> forall j :: from <= j ==> !Occurs(s, t, j)
    decreases |s| - from
  {
    if from + |t| > |s| then None
    else if s[from..from + |t|] == t then Some(from)
    else Find(s, t, from + 1)
  }

  /**
   * `strchr` for a byte other than NUL: the first position at or after
   * `from` holding `c`.
   */
  function FindByte(s: seq<byte>, c: byte, from: nat): (r: Option<nat>)
    ensures r.Some? ==> from <= r.value < |s| && s[r.value] == c
    ensures r.Some? ==> forall i :: from <= i < r.value ==> s[i] != c
    ensures r.None? ==> forall i :: from <= i < |s| ==> s[i] != c
    decreases |s| - from
  {
    if from >= |s| then None
    else if s[from] == c then Some(from)
    else FindByte(s, c, from + 1)
  }

  /** `strstr` finds the first occurrence, whatever else follows it. */
  lemma FindFirst(s: seq<byte>, t: seq<byte>, p: nat)
    requires Occurs(s, t, p)
    requires forall j :: 0 <= j < p ==> !Occurs(s, t, j)
    ensures Find(s, t, 0) == Some(p)
  {
  }

  /** `strchr` from `from` stops at the first `c`. */
  lemma FindByteFirst(s: seq<byte>, c: byte, from: nat, p: nat)
    requires from <= p < |s| && s[p] == c
    requires forall j :: from <= j < p ==> s[j] != c
    ensures FindByte(s, c, from) == Some(p)
  {
  }

  predicate Contains(s: seq<byte>, t: seq<byte>)
  {
    Find(s, t, 0).Some?
  }

  /** `Contains` agrees with the occurrence relation, in both directions. */
  lemma ContainsIff(s: seq<byte>, t: seq<byte>)
    ensures Contains(s, t) <==> exists i :: Occurs(s, t, i)
  {
    if !Contains(s, t) {
      forall i ensures !Occurs(s, t, i) { }
    }
  }

  /** An occurrence inside a prefix of `s` is an occurrence in `s`. */
  lemma OccursInLonger(s: seq<byte>, u: seq<byte>, t: seq<byte>, i: nat)
    requires Occurs(s, t, i)
    ensures Occurs(s + u, t, i)
  {
    assert (s + u)[i..i + |t|] == s[i..i + |t|];
  }

  // ---------------------------------------------------------------------
  // Decimal numbers

  const ZERO: byte := 48

  predicate IsDigit(b: byte)
  {
    48 <= b <= 57
  }

  /** The C locale's `isspace`. */
  predicate IsSpace(b: byte)
  {
    b == 32 || 9 <= b <= 13
  }

  predicate AllDigits(s: seq<byte>)
  {
    forall i :: 0 <= i < |s| ==> IsDigit(s[i])
  }

  /** The value of a string of decimal digits, most significant first. */
  function DigitsValue(s: seq<byte>): nat
    requires AllDigits(s)
  {
    if s == [] then 0 else DigitsValue(s[..|s| - 1]) * 10 + (s[|s| - 1] as int - 48)
  }

  /** `sprintf("%d")` of a non-negative number. */
  function Dec(n: nat): (r: seq<byte>)
    ensures 1 <= |r| && AllDigits(r)
    ensures DigitsValue(r) == n
    ensures n < 10 ==> |r| == 1
    ensures n < 100 ==> |r| <= 2
    ensures n < 1000 ==> |r| <= 3
  {
    if n < 10 then [ZERO + n]
    else
      var r := Dec(n / 10) + [ZERO + n % 10];
      assert r[..|r| - 1] == Dec(n / 10);
      r
  }

  /** The length of the run of digits starting at `from`. */
  function DigitRun(s: seq<byte>, from: nat): (k: nat)
    requires from <= |s|
    ensures from + k <= |s|
    ensures AllDigits(s[from..from + k])
    ensures from + k < |s| ==> !IsDigit(s[from + k])
    decreases |s| - from
  {
    if from < |s| && IsDigit(s[from]) then
      var k := 1 + DigitRun(s, from + 1);
      assert s[from..from + k] == [s[from]] + s[from + 1..from + k];
      k
    else 0
  }

  /** The index of the first byte at or after `from` that is not white space. */
  function SkipSpace(s: seq<byte>, from: nat): (j: nat)
    requires from <= |s|
    ensures from <= j <= |s|
    ensures forall i :: from <= i < j ==> IsSpace(s[i])
    ensures j < |s| ==> !IsSpace(s[j])
    decreases |s| - from
  {
    if from < |s| && IsSpace(s[from]) then SkipSpace(s, from + 1) else from
  }

  /**
   * The number at the start of `s` in the grammar of `strtol`/`strtoul` in
   * base 10: white space, an optional sign, then at least one digit. `None`
   * when there is no digit (nothing is converted).
   */
  function ParseDecimal(s: seq<byte>): (r: Option<int>)
  {
    ParseAt(s, SkipSpace(s, 0))
  }

  /** An optional sign and at least one digit, from `j` on. */
  function ParseAt(s: seq<byte>, j: nat): (r: Option<int>)
    requires j <= |s|
  {
    var neg := j < |s| && s[j] == '-' as int;
    var d := if j < |s| && (s[j] == '-' as int || s[j] == '+' as int) then j + 1 else j;
    match Digits(s, d)
    case None => None
    case Some(v) => Some(if neg then -(v as int) else v as int)
  }

  /** The value of the run of digits at `d`, `None` when it is empty. */
  function Digits(s: seq<byte>, d: nat): Option<nat>
    requires d <= |s|
  {
    var k := DigitRun(s, d);
    if k == 0 then None else Some(DigitsValue(s[d..d + k]))
  }

  /** `atoi`: the parsed number, or 0 when there is none. */
  function Atoi(s: seq<byte>): int
  {
    match ParseDecimal(s)
    case None => 0
    case Some(v) => v
  }

  /** Truncation of an `int` to `uint8_t` (modular, as C converts to an unsigned type). */
  function ToU8(v: int): (r: byte)
    ensures 0 <= v < 256 ==> r == v
    ensures (r - v) % 256 == 0
  {
    v % 256
  }

  /**
   * On the ATmega32 `int` is 16 bits, so a wrapping `atoi` returns its value
   * modulo 65536; the `uint8_t` store that follows keeps only the value
   * modulo 256, which is the same byte.
   */
  lemma {:induction false} ToU8Wraps16(v: int)
    ensures ToU8(v % 65536) == ToU8(v)
  {
    assert v == 65536 * (v / 65536) + v % 65536;
    assert 65536 * (v / 65536) == 256 * (256 * (v / 65536));
  }

  /** A digit run is found exactly when the next byte after it is no digit. */
  lemma {:induction false} DigitRunOfDigits(ds: seq<byte>, rest: seq<byte>, i: nat)
    requires i <= |ds| && AllDigits(ds)
    requires rest == [] || !IsDigit(rest[0])
    ensures DigitRun(ds + rest, i) == |ds| - i
    decreases |ds| - i
  {
    var s := ds + rest;
    if i < |ds| {
      assert s[i] == ds[i];
      DigitRunOfDigits(ds, rest, i + 1);
    } else if rest != [] {
      assert s[i] == rest[0];
    }
  }

  /** Round trip: `atoi`/`strtoul` read back what `%d` wrote. */
  lemma ParseDec(n: nat, rest: seq<byte>)
    requires rest == [] || !IsDigit(rest[0])
    ensures ParseDecimal(Dec(n) + rest) == Some(n)
    ensures Atoi(Dec(n) + rest) == n
  {
    var s := Dec(n) + rest;
    assert !IsSpace(s[0]) && s[0] != '-' as int && s[0] != '+' as int;
    assert SkipSpace(s, 0) == 0;
    DigitRunOfDigits(Dec(n), rest, 0);
    assert s[0..|Dec(n)|] == Dec(n);
  }

  /** A digit run does not depend on what precedes its start. */
  lemma {:induction false} DigitRunShift(p: seq<byte>, s: seq<byte>, i: nat)
    requires i <= |s|
    ensures DigitRun(p + s, |p| + i) == DigitRun(s, i)
    decreases |s| - i
  {
    if i < |s| {
      assert (p + s)[|p| + i] == s[i];
      DigitRunShift(p, s, i + 1);
    }
  }

  /** Nor does a run of white space. */
  lemma {:induction false} SkipSpaceShift(p: seq<byte>, s: seq<byte>, i: nat)
    requires i <= |s|
    ensures SkipSpace(p + s, |p| + i) == |p| + SkipSpace(s, i)
    decreases |s| - i
  {
    if i < |s| {
      assert (p + s)[|p| + i] == s[i];
      SkipSpaceShift(p, s, i + 1);
    }
  }

  /** Parsing from `j` does not depend on what precedes it. */
  lemma ParseAtShift(p: seq<byte>, s: seq<byte>, j: nat)
    requires j <= |s|
    ensures ParseAt(p + s, |p| + j) == ParseAt(s, j)
  {
    assert j < |s| ==> (p + s)[|p| + j] == s[j];
    var d := if j < |s| && (s[j] == '-' as int || s[j] == '+' as int) then j + 1 else j;
    DigitsShift(p, s, d);
  }

  lemma DigitsShift(p: seq<byte>, s: seq<byte>, d: nat)
    requires d <= |s|
    ensures Digits(p + s, |p| + d) == Digits(s, d)
  {
    DigitRunShift(p, s, d);
    var k := DigitRun(s, d);
    assert (p + s)[|p| + d..|p| + d + k] == s[d..d + k];
  }

  /** Leading white space is skipped before the number (`strtoul`, and the space directive of `sscanf`). */
  lemma ParseAfterSpace(sp: byte, s: seq<byte>)
    requires IsSpace(sp)
    ensures ParseDecimal([sp] + s) == ParseDecimal(s)
  {
    SkipSpaceShift([sp], s, 0);
    assert SkipSpace([sp] + s, 0) == 1 + SkipSpace(s, 0);
    ParseAtShift([sp], s, SkipSpace(s, 0));
  }

  /** `%d` never writes a NUL. */
  lemma DecNoNul(n: nat)
    ensures NoNul(Dec(n))
  {
  }
}
