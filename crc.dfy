/**
 * The telegram checksum: CRC16 with polynomial x^16 + x^15 + x^2 + 1,
 * processed least significant bit first, initial value 0 (section 6.12 of
 * the DSMR P1 Companion Standard v5.0.2; known elsewhere as CRC-16/ARC).
 */
module Crc {

  /** The polynomial with its bits reversed, as LSB-first processing uses it. */
  const Polynomial: bv16 := 0xA001

  /** The byte a character contributes: its code, reduced to 8 bits. */
  function ByteOf(c: char): bv16 {
    ((c as int) % 256) as bv16
  }

  /** One bit: shift right, and fold the polynomial in when a 1 drops out. */
  function Shift(crc: bv16): bv16 {
    if crc & 1 == 1 then (crc >> 1) ^ Polynomial else crc >> 1
  }

  function ShiftN(crc: bv16, n: nat): bv16
    decreases n
  {
    if n == 0 then crc else ShiftN(Shift(crc), n - 1)
  }

  /** One byte: xor it into the low end, then eight bit steps. */
  function UpdateByte(crc: bv16, b: bv16): bv16 {
    ShiftN(crc ^ b, 8)
  }

  /** The register after feeding the characters of s in order. */
  function Update(crc: bv16, s: string): bv16
    decreases |s|
  {
    if s == [] then crc else Update(UpdateByte(crc, ByteOf(s[0])), s[1..])
  }

  /** CRC16 of a string, starting from 0. */
  function Crc16(s: string): bv16 {
    Update(0, s)
  }

  /** A bit step loses nothing: the register before it can be recovered. */
  lemma ShiftInjective(x: bv16, y: bv16)
    requires Shift(x) == Shift(y)
    ensures x == y
  {
  }

  lemma {:induction false} ShiftNInjective(x: bv16, y: bv16, n: nat)
    requires ShiftN(x, n) == ShiftN(y, n)
    ensures x == y
    decreases n
  {
    if n > 0 {
      ShiftNInjective(Shift(x), Shift(y), n - 1);
      ShiftInjective(x, y);
    }
  }

  lemma UpdateCons(crc: bv16, c: char, rest: string)
    ensures Update(crc, [c] + rest) == Update(UpdateByte(crc, ByteOf(c)), rest)
  {
    assert ([c] + rest)[1..] == rest;
  }

  /** Feeding a concatenation is feeding its parts one after the other. */
  lemma {:induction false} UpdateAppend(crc: bv16, a: string, b: string)
    ensures Update(crc, a + b) == Update(Update(crc, a), b)
    decreases |a|
  {
    if a == [] {
      assert a + b == b;
    } else {
      var next := UpdateByte(crc, ByteOf(a[0]));
      assert a + b == [a[0]] + (a[1..] + b);
      UpdateCons(crc, a[0], a[1..] + b);
      UpdateAppend(next, a[1..], b);
    }
  }

  /** Two different registers stay different whatever is fed afterwards. */
  lemma {:induction false} UpdateInjective(x: bv16, y: bv16, s: string)
    requires Update(x, s) == Update(y, s)
    ensures x == y
    decreases |s|
  {
    if s != [] {
      UpdateInjective(UpdateByte(x, ByteOf(s[0])), UpdateByte(y, ByteOf(s[0])), s[1..]);
      ShiftNInjective(x ^ ByteOf(s[0]), y ^ ByteOf(s[0]), 8);
    }
  }

  /** Two different bytes fed into the same register give different registers. */
  lemma UpdateByteInjective(crc: bv16, b1: bv16, b2: bv16)
    requires b1 != b2
    ensures UpdateByte(crc, b1) != UpdateByte(crc, b2)
  {
    if UpdateByte(crc, b1) == UpdateByte(crc, b2) {
      ShiftNInjective(crc ^ b1, crc ^ b2, 8);
    }
  }

  /**
   * Any single-character corruption (one that changes the byte sent) changes
   * the checksum, wherever it happens in the covered text.
   */
  lemma {:induction false} SingleByteErrorDetected(a: string, x: char, y: char, b: string)
    requires ByteOf(x) != ByteOf(y)
    ensures Crc16(a + [x] + b) != Crc16(a + [y] + b)
  {
    var r := Update(0, a);
    var rx, ry := UpdateByte(r, ByteOf(x)), UpdateByte(r, ByteOf(y));
    assert a + [x] + b == a + ([x] + b);
    assert a + [y] + b == a + ([y] + b);
    UpdateAppend(0, a, [x] + b);
    UpdateAppend(0, a, [y] + b);
    UpdateCons(r, x, b);
    UpdateCons(r, y, b);
    UpdateByteInjective(r, ByteOf(x), ByteOf(y));
    if Update(rx, b) == Update(ry, b) {
      UpdateInjective(rx, ry, b);
    }
  }

  lemma AsIntAsBits(x: bv16)
    ensures (x as int) as bv16 == x
  {
  }

  /** The CRC read as a number: different CRCs are different numbers. */
  lemma AsIntInjective(x: bv16, y: bv16)
    requires x != y
    ensures x as int != y as int
  {
    AsIntAsBits(x);
    AsIntAsBits(y);
  }

  /** The same in place: replacing the byte at k by a different byte changes the CRC, read as a number. */
  lemma ReplacedByteDetected(s: string, k: nat, c: char)
    requires k < |s| && ByteOf(c) != ByteOf(s[k])
    ensures Crc16(s[k := c]) as int != Crc16(s) as int
  {
    assert s == s[..k] + [s[k]] + s[k + 1..];
    assert s[k := c] == s[..k] + [c] + s[k + 1..];
    SingleByteErrorDetected(s[..k], s[k], c, s[k + 1..]);
    AsIntInjective(Crc16(s[k := c]), Crc16(s));
  }
}
