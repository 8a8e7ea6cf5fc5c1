/**
  DES as FIPS 46-3 states it: bits numbered from 1 on the left, permutations by table, and sixteen rounds that
  exchange the halves of a block.
*/
module DesStandard {
  import opened Des

  // ----- permutations -----

  /** Bit `from` of a block, moved to bit `to` of a word of `width` bits. */
  function Bit(w: Words, from: bv7, to: bv7, width: bv7): bv32
    requires 1 <= from <= 64 && 1 <= to <= width <= 32
  {
    (if from <= 32 then (w.left >> (32 - from)) & 1 else (w.right >> (64 - from)) & 1) << (width - to)
  }

  function IP(w: Words): Words {
    Words(
      Bit(w, 58, 1, 32) | Bit(w, 50, 2, 32) | Bit(w, 42, 3, 32) | Bit(w, 34, 4, 32)
      | Bit(w, 26, 5, 32) | Bit(w, 18, 6, 32) | Bit(w, 10, 7, 32) | Bit(w, 2, 8, 32)
      | Bit(w, 60, 9, 32) | Bit(w, 52, 10, 32) | Bit(w, 44, 11, 32) | Bit(w, 36, 12, 32)
      | Bit(w, 28, 13, 32) | Bit(w, 20, 14, 32) | Bit(w, 12, 15, 32) | Bit(w, 4, 16, 32)
      | Bit(w, 62, 17, 32) | Bit(w, 54, 18, 32) | Bit(w, 46, 19, 32) | Bit(w, 38, 20, 32)
      | Bit(w, 30, 21, 32) | Bit(w, 22, 22, 32) | Bit(w, 14, 23, 32) | Bit(w, 6, 24, 32)
      | Bit(w, 64, 25, 32) | Bit(w, 56, 26, 32) | Bit(w, 48, 27, 32) | Bit(w, 40, 28, 32)
      | Bit(w, 32, 29, 32) | Bit(w, 24, 30, 32) | Bit(w, 16, 31, 32) | Bit(w, 8, 32, 32),
      Bit(w, 57, 1, 32) | Bit(w, 49, 2, 32) | Bit(w, 41, 3, 32) | Bit(w, 33, 4, 32)
      | Bit(w, 25, 5, 32) | Bit(w, 17, 6, 32) | Bit(w, 9, 7, 32) | Bit(w, 1, 8, 32)
      | Bit(w, 59, 9, 32) | Bit(w, 51, 10, 32) | Bit(w, 43, 11, 32) | Bit(w, 35, 12, 32)
      | Bit(w, 27, 13, 32) | Bit(w, 19, 14, 32) | Bit(w, 11, 15, 32) | Bit(w, 3, 16, 32)
      | Bit(w, 61, 17, 32) | Bit(w, 53, 18, 32) | Bit(w, 45, 19, 32) | Bit(w, 37, 20, 32)
      | Bit(w, 29, 21, 32) | Bit(w, 21, 22, 32) | Bit(w, 13, 23, 32) | Bit(w, 5, 24, 32)
      | Bit(w, 63, 25, 32) | Bit(w, 55, 26, 32) | Bit(w, 47, 27, 32) | Bit(w, 39, 28, 32)
      | Bit(w, 31, 29, 32) | Bit(w, 23, 30, 32) | Bit(w, 15, 31, 32) | Bit(w, 7, 32, 32))
  }

  function InverseIP(w: Words): Words {
    Words(
      Bit(w, 40, 1, 32) | Bit(w, 8, 2, 32) | Bit(w, 48, 3, 32) | Bit(w, 16, 4, 32)
      | Bit(w, 56, 5, 32) | Bit(w, 24, 6, 32) | Bit(w, 64, 7, 32) | Bit(w, 32, 8, 32)
      | Bit(w, 39, 9, 32) | Bit(w, 7, 10, 32) | Bit(w, 47, 11, 32) | Bit(w, 15, 12, 32)
      | Bit(w, 55, 13, 32) | Bit(w, 23, 14, 32) | Bit(w, 63, 15, 32) | Bit(w, 31, 16, 32)
      | Bit(w, 38, 17, 32) | Bit(w, 6, 18, 32) | Bit(w, 46, 19, 32) | Bit(w, 14, 20, 32)
      | Bit(w, 54, 21, 32) | Bit(w, 22, 22, 32) | Bit(w, 62, 23, 32) | Bit(w, 30, 24, 32)
      | Bit(w, 37, 25, 32) | Bit(w, 5, 26, 32) | Bit(w, 45, 27, 32) | Bit(w, 13, 28, 32)
      | Bit(w, 53, 29, 32) | Bit(w, 21, 30, 32) | Bit(w, 61, 31, 32) | Bit(w, 29, 32, 32),
      Bit(w, 36, 1, 32) | Bit(w, 4, 2, 32) | Bit(w, 44, 3, 32) | Bit(w, 12, 4, 32)
      | Bit(w, 52, 5, 32) | Bit(w, 20, 6, 32) | Bit(w, 60, 7, 32) | Bit(w, 28, 8, 32)
      | Bit(w, 35, 9, 32) | Bit(w, 3, 10, 32) | Bit(w, 43, 11, 32) | Bit(w, 11, 12, 32)
      | Bit(w, 51, 13, 32) | Bit(w, 19, 14, 32) | Bit(w, 59, 15, 32) | Bit(w, 27, 16, 32)
      | Bit(w, 34, 17, 32) | Bit(w, 2, 18, 32) | Bit(w, 42, 19, 32) | Bit(w, 10, 20, 32)
      | Bit(w, 50, 21, 32) | Bit(w, 18, 22, 32) | Bit(w, 58, 23, 32) | Bit(w, 26, 24, 32)
      | Bit(w, 33, 25, 32) | Bit(w, 1, 26, 32) | Bit(w, 41, 27, 32) | Bit(w, 9, 28, 32)
      | Bit(w, 49, 29, 32) | Bit(w, 17, 30, 32) | Bit(w, 57, 31, 32) | Bit(w, 25, 32, 32))
  }

  function Pick(w: bv32, from: bv6, to: bv6): bv32
    requires 1 <= from <= 32 && 1 <= to <= 32
  {
    ((w >> (32 - from)) & 1) << (32 - to)
  }

  function P(w: bv32): bv32 {
    Pick(w, 16, 1) | Pick(w, 7, 2) | Pick(w, 20, 3) | Pick(w, 21, 4) | Pick(w, 29, 5) | Pick(w, 12, 6)
    | Pick(w, 28, 7) | Pick(w, 17, 8) | Pick(w, 1, 9) | Pick(w, 15, 10) | Pick(w, 23, 11) | Pick(w, 26, 12)
    | Pick(w, 5, 13) | Pick(w, 18, 14) | Pick(w, 31, 15) | Pick(w, 10, 16) | Pick(w, 2, 17) | Pick(w, 8, 18)
    | Pick(w, 24, 19) | Pick(w, 14, 20) | Pick(w, 32, 21) | Pick(w, 27, 22) | Pick(w, 3, 23) | Pick(w, 9, 24)
    | Pick(w, 19, 25) | Pick(w, 13, 26) | Pick(w, 30, 27) | Pick(w, 6, 28) | Pick(w, 22, 29) | Pick(w, 11, 30)
    | Pick(w, 4, 31) | Pick(w, 25, 32)
  }

  function Wide(w: bv32, from: bv6, to: bv6): bv48
    requires 1 <= from <= 32 && 1 <= to <= 48
  {
    (((w >> (32 - from)) & 1) as bv48) << (48 - to)
  }

  /** The E bit selection. */
  function Expanded(w: bv32): bv48 {
    Wide(w, 32, 1) | Wide(w, 1, 2) | Wide(w, 2, 3) | Wide(w, 3, 4) | Wide(w, 4, 5) | Wide(w, 5, 6)
    | Wide(w, 4, 7) | Wide(w, 5, 8) | Wide(w, 6, 9) | Wide(w, 7, 10) | Wide(w, 8, 11) | Wide(w, 9, 12)
    | Wide(w, 8, 13) | Wide(w, 9, 14) | Wide(w, 10, 15) | Wide(w, 11, 16) | Wide(w, 12, 17) | Wide(w, 13, 18)
    | Wide(w, 12, 19) | Wide(w, 13, 20) | Wide(w, 14, 21) | Wide(w, 15, 22) | Wide(w, 16, 23) | Wide(w, 17, 24)
    | Wide(w, 16, 25) | Wide(w, 17, 26) | Wide(w, 18, 27) | Wide(w, 19, 28) | Wide(w, 20, 29) | Wide(w, 21, 30)
    | Wide(w, 20, 31) | Wide(w, 21, 32) | Wide(w, 22, 33) | Wide(w, 23, 34) | Wide(w, 24, 35) | Wide(w, 25, 36)
    | Wide(w, 24, 37) | Wide(w, 25, 38) | Wide(w, 26, 39) | Wide(w, 27, 40) | Wide(w, 28, 41) | Wide(w, 29, 42)
    | Wide(w, 28, 43) | Wide(w, 29, 44) | Wide(w, 30, 45) | Wide(w, 31, 46) | Wide(w, 32, 47) | Wide(w, 1, 48)
  }

  // ----- the selection functions -----

  const S1: seq<bv4> :=
    [14, 4, 13, 1, 2, 15, 11, 8, 3, 10, 6, 12, 5, 9, 0, 7]
    + [0, 15, 7, 4, 14, 2, 13, 1, 10, 6, 12, 11, 9, 5, 3, 8]
    + [4, 1, 14, 8, 13, 6, 2, 11, 15, 12, 9, 7, 3, 10, 5, 0]
    + [15, 12, 8, 2, 4, 9, 1, 7, 5, 11, 3, 14, 10, 0, 6, 13]

  const S2: seq<bv4> :=
    [15, 1, 8, 14, 6, 11, 3, 4, 9, 7, 2, 13, 12, 0, 5, 10]
    + [3, 13, 4, 7, 15, 2, 8, 14, 12, 0, 1, 10, 6, 9, 11, 5]
    + [0, 14, 7, 11, 10, 4, 13, 1, 5, 8, 12, 6, 9, 3, 2, 15]
    + [13, 8, 10, 1, 3, 15, 4, 2, 11, 6, 7, 12, 0, 5, 14, 9]

  const S3: seq<bv4> :=
    [10, 0, 9, 14, 6, 3, 15, 5, 1, 13, 12, 7, 11, 4, 2, 8]
    + [13, 7, 0, 9, 3, 4, 6, 10, 2, 8, 5, 14, 12, 11, 15, 1]
    + [13, 6, 4, 9, 8, 15, 3, 0, 11, 1, 2, 12, 5, 10, 14, 7]
    + [1, 10, 13, 0, 6, 9, 8, 7, 4, 15, 14, 3, 11, 5, 2, 12]

  const S4: seq<bv4> :=
    [7, 13, 14, 3, 0, 6, 9, 10, 1, 2, 8, 5, 11, 12, 4, 15]
    + [13, 8, 11, 5, 6, 15, 0, 3, 4, 7, 2, 12, 1, 10, 14, 9]
    + [10, 6, 9, 0, 12, 11, 7, 13, 15, 1, 3, 14, 5, 2, 8, 4]
    + [3, 15, 0, 6, 10, 1, 13, 8, 9, 4, 5, 11, 12, 7, 2, 14]

  const S5: seq<bv4> :=
    [2, 12, 4, 1, 7, 10, 11, 6, 8, 5, 3, 15, 13, 0, 14, 9]
    + [14, 11, 2, 12, 4, 7, 13, 1, 5, 0, 15, 10, 3, 9, 8, 6]
    + [4, 2, 1, 11, 10, 13, 7, 8, 15, 9, 12, 5, 6, 3, 0, 14]
    + [11, 8, 12, 7, 1, 14, 2, 13, 6, 15, 0, 9, 10, 4, 5, 3]

  const S6: seq<bv4> :=
    [12, 1, 10, 15, 9, 2, 6, 8, 0, 13, 3, 4, 14, 7, 5, 11]
    + [10, 15, 4, 2, 7, 12, 9, 5, 6, 1, 13, 14, 0, 11, 3, 8]
    + [9, 14, 15, 5, 2, 8, 12, 3, 7, 0, 4, 10, 1, 13, 11, 6]
    + [4, 3, 2, 12, 9, 5, 15, 10, 11, 14, 1, 7, 6, 0, 8, 13]

  const S7: seq<bv4> :=
    [4, 11, 2, 14, 15, 0, 8, 13, 3, 12, 9, 7, 5, 10, 6, 1]
    + [13, 0, 11, 7, 4, 9, 1, 10, 14, 3, 5, 12, 2, 15, 8, 6]
    + [1, 4, 11, 13, 12, 3, 7, 14, 10, 15, 6, 8, 0, 5, 9, 2]
    + [6, 11, 13, 8, 1, 4, 10, 7, 9, 5, 0, 15, 14, 2, 3, 12]

  const S8: seq<bv4> :=
    [13, 2, 8, 4, 6, 15, 11, 1, 10, 9, 3, 14, 5, 0, 12, 7]
    + [1, 15, 13, 8, 10, 3, 7, 4, 12, 5, 6, 11, 0, 14, 9, 2]
    + [7, 11, 4, 1, 9, 12, 14, 2, 0, 6, 10, 13, 15, 3, 5, 8]
    + [2, 1, 14, 7, 4, 10, 8, 13, 15, 12, 9, 0, 3, 5, 6, 11]

  /** The row is chosen by the outer bits, the column by the inner ones. */
  function Entry(x: bv6): bv6 {
    16 * (((x >> 4) & 2) | (x & 1)) + ((x >> 1) & 15)
  }

  function Sbox1(x: bv6): bv4 { S1[Entry(x) as int] }
  function Sbox2(x: bv6): bv4 { S2[Entry(x) as int] }
  function Sbox3(x: bv6): bv4 { S3[Entry(x) as int] }
  function Sbox4(x: bv6): bv4 { S4[Entry(x) as int] }
  function Sbox5(x: bv6): bv4 { S5[Entry(x) as int] }
  function Sbox6(x: bv6): bv4 { S6[Entry(x) as int] }
  function Sbox7(x: bv6): bv4 { S7[Entry(x) as int] }
  function Sbox8(x: bv6): bv4 { S8[Entry(x) as int] }

  /** Six bits of a 48-bit word, the first from the left being n == 0. */
  function Six(k: bv48, n: bv4): bv6
    requires n < 8
  {
    ((k >> (42 - 6 * (n as bv6))) & 0x3f) as bv6
  }

  /** The cipher function f. */
  function F(r: bv32, k: bv48): bv32 {
    var x := Expanded(r) ^ k;
    P(Joined(Sbox1(Six(x, 0)), Sbox2(Six(x, 1)), Sbox3(Six(x, 2)), Sbox4(Six(x, 3)),
             Sbox5(Six(x, 4)), Sbox6(Six(x, 5)), Sbox7(Six(x, 6)), Sbox8(Six(x, 7))))
  }

  function Joined(a: bv4, b: bv4, c: bv4, d: bv4, e: bv4, f: bv4, g: bv4, h: bv4): bv32 {
    (a as bv32 << 28) | (b as bv32 << 24) | (c as bv32 << 20) | (d as bv32 << 16)
    | (e as bv32 << 12) | (f as bv32 << 8) | (g as bv32 << 4) | h as bv32
  }

  // ----- the key schedule -----

  /** Permuted choice 1: two halves of 28 bits. */
  function PC1(w: Words): Words {
    Words(
      Bit(w, 57, 1, 28) | Bit(w, 49, 2, 28) | Bit(w, 41, 3, 28) | Bit(w, 33, 4, 28)
      | Bit(w, 25, 5, 28) | Bit(w, 17, 6, 28) | Bit(w, 9, 7, 28) | Bit(w, 1, 8, 28)
      | Bit(w, 58, 9, 28) | Bit(w, 50, 10, 28) | Bit(w, 42, 11, 28) | Bit(w, 34, 12, 28)
      | Bit(w, 26, 13, 28) | Bit(w, 18, 14, 28) | Bit(w, 10, 15, 28) | Bit(w, 2, 16, 28)
      | Bit(w, 59, 17, 28) | Bit(w, 51, 18, 28) | Bit(w, 43, 19, 28) | Bit(w, 35, 20, 28)
      | Bit(w, 27, 21, 28) | Bit(w, 19, 22, 28) | Bit(w, 11, 23, 28) | Bit(w, 3, 24, 28)
      | Bit(w, 60, 25, 28) | Bit(w, 52, 26, 28) | Bit(w, 44, 27, 28) | Bit(w, 36, 28, 28),
      Bit(w, 63, 1, 28) | Bit(w, 55, 2, 28) | Bit(w, 47, 3, 28) | Bit(w, 39, 4, 28)
      | Bit(w, 31, 5, 28) | Bit(w, 23, 6, 28) | Bit(w, 15, 7, 28) | Bit(w, 7, 8, 28)
      | Bit(w, 62, 9, 28) | Bit(w, 54, 10, 28) | Bit(w, 46, 11, 28) | Bit(w, 38, 12, 28)
      | Bit(w, 30, 13, 28) | Bit(w, 22, 14, 28) | Bit(w, 14, 15, 28) | Bit(w, 6, 16, 28)
      | Bit(w, 61, 17, 28) | Bit(w, 53, 18, 28) | Bit(w, 45, 19, 28) | Bit(w, 37, 20, 28)
      | Bit(w, 29, 21, 28) | Bit(w, 21, 22, 28) | Bit(w, 13, 23, 28) | Bit(w, 5, 24, 28)
      | Bit(w, 28, 25, 28) | Bit(w, 20, 26, 28) | Bit(w, 12, 27, 28) | Bit(w, 4, 28, 28))
  }

  /** Bit `from` of the two halves together, moved to bit `to` of a subkey. */
  function KeyBit(h: Words, from: bv7, to: bv7): bv48
    requires 1 <= from <= 56 && 1 <= to <= 48
  {
    ((if from <= 28 then (h.left >> (28 - from)) & 1 else (h.right >> (56 - from)) & 1) as bv48) << (48 - to)
  }

  function PC2(h: Words): bv48 {
    KeyBit(h, 14, 1) | KeyBit(h, 17, 2) | KeyBit(h, 11, 3) | KeyBit(h, 24, 4) | KeyBit(h, 1, 5) | KeyBit(h, 5, 6)
    | KeyBit(h, 3, 7) | KeyBit(h, 28, 8) | KeyBit(h, 15, 9) | KeyBit(h, 6, 10) | KeyBit(h, 21, 11) | KeyBit(h, 10, 12)
    | KeyBit(h, 23, 13) | KeyBit(h, 19, 14) | KeyBit(h, 12, 15) | KeyBit(h, 4, 16) | KeyBit(h, 26, 17) | KeyBit(h, 8, 18)
    | KeyBit(h, 16, 19) | KeyBit(h, 7, 20) | KeyBit(h, 27, 21) | KeyBit(h, 20, 22) | KeyBit(h, 13, 23) | KeyBit(h, 2, 24)
    | KeyBit(h, 41, 25) | KeyBit(h, 52, 26) | KeyBit(h, 31, 27) | KeyBit(h, 37, 28) | KeyBit(h, 47, 29) | KeyBit(h, 55, 30)
    | KeyBit(h, 30, 31) | KeyBit(h, 40, 32) | KeyBit(h, 51, 33) | KeyBit(h, 45, 34) | KeyBit(h, 33, 35) | KeyBit(h, 48, 36)
    | KeyBit(h, 44, 37) | KeyBit(h, 49, 38) | KeyBit(h, 39, 39) | KeyBit(h, 56, 40) | KeyBit(h, 34, 41) | KeyBit(h, 53, 42)
    | KeyBit(h, 46, 43) | KeyBit(h, 42, 44) | KeyBit(h, 50, 45) | KeyBit(h, 36, 46) | KeyBit(h, 29, 47) | KeyBit(h, 32, 48)
  }

  function ShiftedOnce(x: bv32): bv32 {
    ((x << 1) | (x >> 27)) & 0x0fff_ffff
  }

  /** One left shift in the rounds 1, 2, 9 and 16, two in the others. */
  function Shifted(x: bv32, round: nat): bv32 {
    if round in {1, 2, 9, 16} then ShiftedOnce(x) else ShiftedOnce(ShiftedOnce(x))
  }

  /** The halves C and D of a round; round 0 is before the first. */
  function Halves(key: Words, round: nat): Words {
    if round == 0 then PC1(key)
    else
      var h := Halves(key, round - 1);
      Words(Shifted(h.left, round), Shifted(h.right, round))
  }

  function Subkeys(key: Words): (ks: seq<bv48>)
    ensures |ks| == 16 && forall i :: 0 <= i < 16 ==> ks[i] == PC2(Halves(key, i + 1))
  {
    seq(16, i requires 0 <= i < 16 => PC2(Halves(key, i + 1)))
  }

  // ----- the cipher -----

  function Rounds(w: Words, ks: seq<bv48>): Words {
    if ks == [] then w
    else
      var v := Rounds(w, ks[..|ks| - 1]);
      Words(v.right, Xor(v.left, F(v.right, ks[|ks| - 1])))
  }

  /** Enciphering with subkeys in order; deciphering takes them in reverse. */
  function Cipher(w: Words, ks: seq<bv48>): Words {
    InverseIP(Swap(Rounds(IP(w), ks)))
  }

  function Reverse(ks: seq<bv48>): (r: seq<bv48>)
    ensures |r| == |ks| && forall i :: 0 <= i < |ks| ==> r[i] == ks[|ks| - 1 - i]
  {
    seq(|ks|, i requires 0 <= i < |ks| => ks[|ks| - 1 - i])
  }

  /** Triple DES: encipher with the first key, decipher with the second, encipher with the third. */
  function TripleCipher(w: Words, a: seq<bv48>, b: seq<bv48>, c: seq<bv48>): Words {
    Cipher(Cipher(Cipher(w, a), Reverse(b)), c)
  }
}
