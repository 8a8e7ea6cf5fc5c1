/**
  The DES key schedule and the weak-key test of src/core/shs_math.cc.
*/
module DesKeys {
  import opened Des
  import opened DesTables

  /** READ_64BIT_DATA. */
  function ReadWords(data: seq<bv8>): Words
    requires |data| == 8
  {
    Words(
      (data[0] as bv32 << 24) | (data[1] as bv32 << 16) | (data[2] as bv32 << 8) | data[3] as bv32,
      (data[4] as bv32 << 24) | (data[5] as bv32 << 16) | (data[6] as bv32 << 8) | data[7] as bv32)
  }

  /** WRITE_64BIT_DATA. */
  function WriteWords(w: Words): (data: seq<bv8>)
    ensures |data| == 8
  {
    [((w.left >> 24) & 0xff) as bv8, ((w.left >> 16) & 0xff) as bv8, ((w.left >> 8) & 0xff) as bv8, (w.left & 0xff) as bv8,
     ((w.right >> 24) & 0xff) as bv8, ((w.right >> 16) & 0xff) as bv8, ((w.right >> 8) & 0xff) as bv8, (w.right & 0xff) as bv8]
  }

  /** The first byte is the leftmost of the block, as the standard numbers its bits. */
  lemma BytesFromTheLeft(data: seq<bv8>)
    requires |data| == 8
    ensures var w := ReadWords(data);
      && (w.left >> 24) as bv8 == data[0] && ((w.left >> 16) & 0xff) as bv8 == data[1]
      && ((w.left >> 8) & 0xff) as bv8 == data[2] && (w.left & 0xff) as bv8 == data[3]
      && (w.right >> 24) as bv8 == data[4] && ((w.right >> 16) & 0xff) as bv8 == data[5]
      && ((w.right >> 8) & 0xff) as bv8 == data[6] && (w.right & 0xff) as bv8 == data[7]
  {
  }

  lemma BytesAndWords(w: Words, data: seq<bv8>)
    requires |data| == 8
    ensures ReadWords(WriteWords(w)) == w
    ensures WriteWords(ReadWords(data)) == data
  {
  }

  // ----- permuted choice 1 -----

  const LEFTKEY_SWAP: seq<bv32> := [
    0x00000000, 0x00000001, 0x00000100, 0x00000101,
    0x00010000, 0x00010001, 0x00010100, 0x00010101,
    0x01000000, 0x01000001, 0x01000100, 0x01000101,
    0x01010000, 0x01010001, 0x01010100, 0x01010101]

  const RIGHTKEY_SWAP: seq<bv32> := [
    0x00000000, 0x01000000, 0x00010000, 0x01010000,
    0x00000100, 0x01000100, 0x00010100, 0x01010100,
    0x00000001, 0x01000001, 0x00010001, 0x01010001,
    0x00000101, 0x01000101, 0x00010101, 0x01010101]

  function LeftSwap(w: bv32): bv32 {
    LEFTKEY_SWAP[((w & 0xf) as bv4) as int]
  }

  function RightSwap(w: bv32): bv32 {
    RIGHTKEY_SWAP[((w & 0xf) as bv4) as int]
  }

  /** Lines 341-344: the key words after the two exchanges. */
  function Exchanged(k: Words): Words {
    var t1 := ((k.right >> 4) ^ k.left) & 0x0f0f0f0f;
    var l1, r1 := k.left ^ t1, k.right ^ (t1 << 4);
    var t2 := (r1 ^ l1) & 0x10101010;
    Words(l1 ^ t2, r1 ^ t2)
  }

  /** Lines 345-365: the two halves of 28 bits. */
  function Chosen(raw: seq<bv8>): Words
    requires |raw| == 8
  {
    var k := Exchanged(ReadWords(raw));
    Words(
      ((LeftSwap(k.left) << 3) | (LeftSwap(k.left >> 8) << 2) | (LeftSwap(k.left >> 16) << 1) | LeftSwap(k.left >> 24)
       | (LeftSwap(k.left >> 5) << 7) | (LeftSwap(k.left >> 13) << 6) | (LeftSwap(k.left >> 21) << 5)
       | (LeftSwap(k.left >> 29) << 4)) & 0x0fffffff,
      ((RightSwap(k.right >> 1) << 3) | (RightSwap(k.right >> 9) << 2) | (RightSwap(k.right >> 17) << 1)
       | RightSwap(k.right >> 25) | (RightSwap(k.right >> 4) << 7) | (RightSwap(k.right >> 12) << 6)
       | (RightSwap(k.right >> 20) << 5) | (RightSwap(k.right >> 28) << 4)) & 0x0fffffff)
  }

  /** The first table spreads four bits to four bytes. */
  function Spread(w: bv32): bv32 {
    (w & 1) | ((w & 2) << 7) | ((w & 4) << 14) | ((w & 8) << 21)
  }

  function SpreadBack(w: bv32): bv32 {
    ((w & 1) << 24) | ((w & 2) << 15) | ((w & 4) << 6) | ((w & 8) >> 3)
  }

  lemma LeftSwapSpreads(w: bv32)
    ensures LeftSwap(w) == Spread(w)
  {
    var x := (w & 0xf) as bv4;
    assert w & 0xf == x as bv32;
    if x < 8 {
      if x == 0 {} else if x == 1 {} else if x == 2 {} else if x == 3 {}
      else if x == 4 {} else if x == 5 {} else if x == 6 {} else {}
    } else {
      if x == 8 {} else if x == 9 {} else if x == 10 {} else if x == 11 {}
      else if x == 12 {} else if x == 13 {} else if x == 14 {} else {}
    }
  }

  lemma RightSwapSpreads(w: bv32)
    ensures RightSwap(w) == SpreadBack(w)
  {
    var x := (w & 0xf) as bv4;
    assert w & 0xf == x as bv32;
    if x < 8 {
      if x == 0 {} else if x == 1 {} else if x == 2 {} else if x == 3 {}
      else if x == 4 {} else if x == 5 {} else if x == 6 {} else {}
    } else {
      if x == 8 {} else if x == 9 {} else if x == 10 {} else if x == 11 {}
      else if x == 12 {} else if x == 13 {} else if x == 14 {} else {}
    }
  }

  /** `Chosen` without tables. */
  function ChosenBits(k: Words): Words {
    Words(
      ((Spread(k.left) << 3) | (Spread(k.left >> 8) << 2) | (Spread(k.left >> 16) << 1) | Spread(k.left >> 24)
       | (Spread(k.left >> 5) << 7) | (Spread(k.left >> 13) << 6) | (Spread(k.left >> 21) << 5)
       | (Spread(k.left >> 29) << 4)) & 0x0fffffff,
      ((SpreadBack(k.right >> 1) << 3) | (SpreadBack(k.right >> 9) << 2) | (SpreadBack(k.right >> 17) << 1)
       | SpreadBack(k.right >> 25) | (SpreadBack(k.right >> 4) << 7) | (SpreadBack(k.right >> 12) << 6)
       | (SpreadBack(k.right >> 20) << 5) | (SpreadBack(k.right >> 28) << 4)) & 0x0fffffff)
  }

  lemma ChosenIsBits(raw: seq<bv8>)
    requires |raw| == 8
    ensures Chosen(raw) == ChosenBits(Exchanged(ReadWords(raw)))
  {
    hide LeftSwap, RightSwap, Spread, SpreadBack, Exchanged, ReadWords;
    forall w
      ensures LeftSwap(w) == Spread(w) && RightSwap(w) == SpreadBack(w)
    {
      LeftSwapSpreads(w);
      RightSwapSpreads(w);
    }
  }

  /** The parity bits of a key: the lowest bit of each byte. */
  function WithoutParity(raw: seq<bv8>): (r: seq<bv8>)
    ensures |r| == |raw| && forall i :: 0 <= i < |raw| ==> r[i] == raw[i] & 0xfe
  {
    seq(|raw|, i requires 0 <= i < |raw| => raw[i] & 0xfe)
  }

  lemma ParityMask(raw: seq<bv8>)
    requires |raw| == 8
    ensures var k, c := ReadWords(raw), ReadWords(WithoutParity(raw));
      c.left == k.left & 0xfefefefe && c.right == k.right & 0xfefefefe
  {
  }

  /** Which bits of the exchanged words the choice looks at. */
  lemma ChoiceMasks(k: Words)
    ensures ChosenBits(Words(k.left & 0xefefefef, k.right & 0xfefefefe)) == ChosenBits(k)
  {
  }

  /** The parity bits end up where the choice does not look. */
  lemma ExchangeMasks(k: Words)
    ensures var a, b := Exchanged(k), Exchanged(Words(k.left & 0xfefefefe, k.right & 0xfefefefe));
      a.left & 0xefefefef == b.left & 0xefefefef && a.right & 0xfefefefe == b.right & 0xfefefefe
  {
  }

  lemma ParityDropsOut(k: Words)
    ensures ChosenBits(Exchanged(Words(k.left & 0xfefefefe, k.right & 0xfefefefe))) == ChosenBits(Exchanged(k))
  {
    hide Exchanged, ChosenBits;
    ExchangeMasks(k);
    ChoiceMasks(Exchanged(k));
    ChoiceMasks(Exchanged(Words(k.left & 0xfefefefe, k.right & 0xfefefefe)));
  }

  // ----- the schedule -----

  const ROTATE: seq<bv5> := [1, 1, 2, 2, 2, 2, 2, 2, 1, 2, 2, 2, 2, 2, 2, 1]

  /** A rotation of 28 bits to the left. */
  function Rotate28(x: bv32, n: bv5): bv32 {
    ((x << n) | (x >> (28 - n))) & 0x0fffffff
  }

  /** The halves in round `n`, after its rotation. */
  function HalvesAfter(raw: seq<bv8>, n: nat): Words
    requires |raw| == 8 && n <= 16
  {
    if n == 0 then Chosen(raw)
    else
      var h := HalvesAfter(raw, n - 1);
      Words(Rotate28(h.left, ROTATE[n - 1]), Rotate28(h.right, ROTATE[n - 1]))
  }

  /** A subkey is picked from the two halves, 24 bits into each of its words: lines 374-420. */
  function SubkeyFrom(h: Words): Subkey {
    var left, right := h.left, h.right;
    Subkey(
      ((left << 4) & 0x24000000) | ((left << 28) & 0x10000000) | ((left << 14) & 0x08000000) | ((left << 18) & 0x02080000)
      | ((left << 6) & 0x01000000) | ((left << 9) & 0x00200000) | ((left >> 1) & 0x00100000) | ((left << 10) & 0x00040000)
      | ((left << 2) & 0x00020000) | ((left >> 10) & 0x00010000) | ((right >> 13) & 0x00002000) | ((right >> 4) & 0x00001000)
      | ((right << 6) & 0x00000800) | ((right >> 1) & 0x00000400) | ((right >> 14) & 0x00000200) | (right & 0x00000100)
      | ((right >> 5) & 0x00000020) | ((right >> 10) & 0x00000010) | ((right >> 3) & 0x00000008) | ((right >> 18) & 0x00000004)
      | ((right >> 26) & 0x00000002) | ((right >> 24) & 0x00000001),
      ((left << 15) & 0x20000000) | ((left << 17) & 0x10000000) | ((left << 10) & 0x08000000) | ((left << 22) & 0x04000000)
      | ((left >> 2) & 0x02000000) | ((left << 1) & 0x01000000) | ((left << 16) & 0x00200000) | ((left << 11) & 0x00100000)
      | ((left << 3) & 0x00080000) | ((left >> 6) & 0x00040000) | ((left << 15) & 0x00020000) | ((left >> 4) & 0x00010000)
      | ((right >> 2) & 0x00002000) | ((right << 8) & 0x00001000) | ((right >> 14) & 0x00000808) | ((right >> 9) & 0x00000400)
      | (right & 0x00000200) | ((right << 7) & 0x00000100) | ((right >> 7) & 0x00000020) | ((right >> 3) & 0x00000011)
      | ((right << 2) & 0x00000004) | ((right >> 21) & 0x00000002))
  }

  function KeySchedule(raw: seq<bv8>): (keys: seq<Subkey>)
    requires |raw| == 8
    ensures |keys| == 16 && forall i :: 0 <= i < 16 ==> keys[i] == SubkeyFrom(HalvesAfter(raw, i + 1))
  {
    seq(16, i requires 0 <= i < 16 => SubkeyFrom(HalvesAfter(raw, i + 1)))
  }

  lemma {:induction false} SameHalves(a: seq<bv8>, b: seq<bv8>, n: nat)
    requires |a| == |b| == 8 && n <= 16 && Chosen(a) == Chosen(b)
    ensures HalvesAfter(a, n) == HalvesAfter(b, n)
  {
    if n > 0 {
      SameHalves(a, b, n - 1);
    }
  }

  /** The parity bits of a key do not influence its subkeys. */
  lemma ParityIgnored(raw: seq<bv8>)
    requires |raw| == 8
    ensures KeySchedule(WithoutParity(raw)) == KeySchedule(raw)
  {
    hide SubkeyFrom, ReadWords, Exchanged, ChosenBits, Rotate28;
    var c := WithoutParity(raw);
    ChosenIsBits(raw);
    ChosenIsBits(c);
    ParityMask(raw);
    ParityDropsOut(ReadWords(raw));
    assert ReadWords(c) == Words(ReadWords(raw).left & 0xfefefefe, ReadWords(raw).right & 0xfefefefe);
    forall i | 0 <= i < 16
      ensures KeySchedule(c)[i] == KeySchedule(raw)[i]
    {
      SameHalves(c, raw, i + 1);
    }
  }

  // ----- weak keys -----

  /** Eight bytes as one big-endian number; memcmp compares such numbers. */
  function Number(raw: seq<bv8>): (x: nat) {
    if raw == [] then 0 else Number(raw[..|raw| - 1]) * 256 + raw[|raw| - 1] as nat
  }

  /** The digits of a number of eight bytes. */
  lemma NumberOfEight(raw: seq<bv8>)
    requires |raw| == 8
    ensures Number(raw) == raw[0] as nat * 0x100_0000_0000_0000 + raw[1] as nat * 0x1_0000_0000_0000
                           + raw[2] as nat * 0x100_0000_0000 + raw[3] as nat * 0x1_0000_0000 + raw[4] as nat * 0x100_0000
                           + raw[5] as nat * 0x1_0000 + raw[6] as nat * 0x100 + raw[7] as nat
  {
    NumberOfFour(raw[..4]);
    assert raw[..5][..4] == raw[..4] && raw[..6][..5] == raw[..5] && raw[..7][..6] == raw[..6] && raw[..8] == raw;
    assert Number(raw[..5]) == Number(raw[..4]) * 256 + raw[4] as nat;
    assert Number(raw[..6]) == Number(raw[..5]) * 256 + raw[5] as nat;
    assert Number(raw[..7]) == Number(raw[..6]) * 256 + raw[6] as nat;
  }

  lemma NumberOfFour(raw: seq<bv8>)
    requires |raw| == 4
    ensures Number(raw) == raw[0] as nat * 0x100_0000 + raw[1] as nat * 0x1_0000 + raw[2] as nat * 0x100 + raw[3] as nat
  {
    assert raw[..1][..0] == [] && raw[..2][..1] == raw[..1] && raw[..3][..2] == raw[..2];
    assert Number(raw[..1]) == raw[0] as nat;
    assert Number(raw[..2]) == Number(raw[..1]) * 256 + raw[1] as nat;
    assert Number(raw[..3]) == Number(raw[..2]) * 256 + raw[2] as nat;
  }

  /** A row of the table ascends from `lo` to `hi`. */
  ghost predicate RowBetween(w: seq<int>, lo: int, hi: int) {
    && |w| == 16 && lo <= w[0] && w[15] < hi
    && forall k :: 0 <= k < 15 ==> w[k] < w[k + 1]
  }

  lemma Ascending(w: seq<int>)
    requires |w| == 16
    requires w[0] < w[1] < w[2] < w[3] < w[4] < w[5] < w[6] < w[7] < w[8]
    requires w[8] < w[9] < w[10] < w[11] < w[12] < w[13] < w[14] < w[15]
    ensures RowBetween(w, w[0], w[15] + 1)
  {
  }

  lemma Rows()
    ensures RowBetween(WEAK_ROW0, 0, 0x1e00_0000_0000_0000)
    ensures RowBetween(WEAK_ROW1, 0x1e00_0000_0000_0000, 0xe000_0000_0000_0000)
    ensures RowBetween(WEAK_ROW2, 0xe000_0000_0000_0000, 0xfe00_0000_0000_0000)
    ensures RowBetween(WEAK_ROW3, 0xfe00_0000_0000_0000, 0x1_0000_0000_0000_0000)
  {
    Ascending(WEAK_ROW0);
    Ascending(WEAK_ROW1);
    Ascending(WEAK_ROW2);
    Ascending(WEAK_ROW3);
  }

  lemma WeakKeysSorted(i: nat, j: nat)
    requires i < j < 64
    ensures |WEAK_KEYS| == 64 && WEAK_KEYS[i] < WEAK_KEYS[j]
  {
    Rows();
    var w := WEAK_KEYS;
    assert forall k :: 0 <= k < 63 ==> w[k] < w[k + 1];
    StepsMakeOrder(w, i, j);
  }

  lemma {:induction false} StepsMakeOrder(w: seq<int>, i: nat, j: nat)
    requires i < j < |w| && forall k :: 0 <= k < |w| - 1 ==> w[k] < w[k + 1]
    ensures w[i] < w[j]
    decreases j
  {
    if i + 1 < j { StepsMakeOrder(w, i, j - 1); }
  }

  /** The search loop of lines 229-252. */
  method SearchTable(w: seq<int>, work: int) returns (found: bool)
    requires forall i, j :: 0 <= i < j < |w| ==> w[i] < w[j]
    ensures found <==> work in w
  {
    var left, right := 0, |w| - 1;
    while left <= right
      invariant 0 <= left <= right + 1 <= |w|
      invariant forall i :: 0 <= i < left ==> w[i] < work
      invariant forall i :: right < i < |w| ==> work < w[i]
      decreases right - left + 1
    {
      var middle := (left + right) / 2;
      if work == w[middle] {
        return true;
      }
      if work > w[middle] {
        left := middle + 1;
      } else {
        right := middle - 1;
      }
    }
    found := false;
  }

  /** gl_des_is_weak_key. */
  method IsWeakKey(key: seq<bv8>) returns (weak: bool)
    requires |key| == 8
    ensures weak <==> Number(seq(8, i requires 0 <= i < 8 => key[i] & 0xfe)) in WEAK_KEYS
  {
    assert WithoutParity(key) == seq(8, i requires 0 <= i < 8 => key[i] & 0xfe);
    WeakKeysSorted(0, 1);
    forall i, j | 0 <= i < j < 64
      ensures WEAK_KEYS[i] < WEAK_KEYS[j]
    {
      WeakKeysSorted(i, j);
    }
    weak := SearchTable(WEAK_KEYS, Number(WithoutParity(key)));
  }
}
