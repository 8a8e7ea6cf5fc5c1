/**
  The macros and tables of src/core/shs_math.cc compute the DES of FIPS 46-3.
*/
module DesRefines {
  import opened Des
  import opened DesTables
  import opened DesKeys
  import opened DesCiphers
  import opened DesStandard

  /** The words are kept rotated one bit to the left between the permutations. */
  function Rot(x: bv32): bv32 {
    (x << 1) | (x >> 31)
  }

  function RotBoth(w: Words): Words {
    Words(Rot(w.left), Rot(w.right))
  }

  /** The initial permutation of the standard, rotated. */
  lemma InitialIsIP(w: Words)
    ensures InitialPermutation(w) == RotBoth(IP(w))
  {
    hide InitialPermutation, IP, RotBoth;
    InitialLeft(w);
    InitialRight(w);
  }

  lemma InitialLeft(w: Words)
    ensures InitialPermutation(w).left == RotBoth(IP(w)).left
  {
  }

  lemma InitialRight(w: Words)
    ensures InitialPermutation(w).right == RotBoth(IP(w)).right
  {
  }

  lemma FinalIsInverseIP(w: Words)
    ensures FinalPermutation(RotBoth(w)) == InverseIP(w)
  {
  }

  // ----- the tables sbox1 to sbox8 are S1 to S8, followed by P and the rotation -----

  /** An output of a selection function, in its place behind P. */
  function Placed(v: bv4, shift: bv6): bv32
    requires shift <= 28
  {
    Rot(P(v as bv32 << shift))
  }

  /** Where the four bits of an output go. */
  lemma BitsPlaced(v: bv4)
    ensures Placed(v, 28) == ((((v as bv32) >> 3) & 1) << 24) | ((((v as bv32) >> 2) & 1) << 16)
                             | ((((v as bv32) >> 1) & 1) << 10) | (((v as bv32) & 1) << 2)
    ensures Placed(v, 24) == ((((v as bv32) >> 3) & 1) << 20) | ((((v as bv32) >> 2) & 1) << 5)
                             | ((((v as bv32) >> 1) & 1) << 31) | (((v as bv32) & 1) << 15)
    ensures Placed(v, 20) == ((((v as bv32) >> 3) & 1) << 9) | ((((v as bv32) >> 2) & 1) << 17)
                             | ((((v as bv32) >> 1) & 1) << 3) | (((v as bv32) & 1) << 27)
    ensures Placed(v, 16) == ((((v as bv32) >> 3) & 1) << 7) | ((((v as bv32) >> 2) & 1) << 13)
                             | ((((v as bv32) >> 1) & 1) << 23) | (((v as bv32) & 1) << 0)
    ensures Placed(v, 12) == ((((v as bv32) >> 3) & 1) << 25) | ((((v as bv32) >> 2) & 1) << 19)
                             | ((((v as bv32) >> 1) & 1) << 8) | (((v as bv32) & 1) << 30)
    ensures Placed(v, 8) == ((((v as bv32) >> 3) & 1) << 29) | ((((v as bv32) >> 2) & 1) << 4)
                             | ((((v as bv32) >> 1) & 1) << 22) | (((v as bv32) & 1) << 14)
    ensures Placed(v, 4) == ((((v as bv32) >> 3) & 1) << 1) | ((((v as bv32) >> 2) & 1) << 21)
                             | ((((v as bv32) >> 1) & 1) << 11) | (((v as bv32) & 1) << 26)
    ensures Placed(v, 0) == ((((v as bv32) >> 3) & 1) << 28) | ((((v as bv32) >> 2) & 1) << 6)
                             | ((((v as bv32) >> 1) & 1) << 18) | (((v as bv32) & 1) << 12)
  {
  }

  /** A six-bit index is one of 64. */
  lemma IndexCases(x: bv6)
    ensures
      || x == 0 || x == 1 || x == 2 || x == 3 || x == 4 || x == 5 || x == 6 || x == 7
      || x == 8 || x == 9 || x == 10 || x == 11 || x == 12 || x == 13 || x == 14 || x == 15
      || x == 16 || x == 17 || x == 18 || x == 19 || x == 20 || x == 21 || x == 22 || x == 23
      || x == 24 || x == 25 || x == 26 || x == 27 || x == 28 || x == 29 || x == 30 || x == 31
      || x == 32 || x == 33 || x == 34 || x == 35 || x == 36 || x == 37 || x == 38 || x == 39
      || x == 40 || x == 41 || x == 42 || x == 43 || x == 44 || x == 45 || x == 46 || x == 47
      || x == 48 || x == 49 || x == 50 || x == 51 || x == 52 || x == 53 || x == 54 || x == 55
      || x == 56 || x == 57 || x == 58 || x == 59 || x == 60 || x == 61 || x == 62 || x == 63
  {
  }

  lemma Table1(x: bv6)
    ensures SBOX1[x as int] == Placed(S1[Entry(x) as int], 28)
  {
    hide Placed;
    BitsPlaced(S1[Entry(x) as int]);
    IndexCases(x);
  }

  lemma Table2(x: bv6)
    ensures SBOX2[x as int] == Placed(S2[Entry(x) as int], 24)
  {
    hide Placed;
    BitsPlaced(S2[Entry(x) as int]);
    IndexCases(x);
  }

  lemma Table3(x: bv6)
    ensures SBOX3[x as int] == Placed(S3[Entry(x) as int], 20)
  {
    hide Placed;
    BitsPlaced(S3[Entry(x) as int]);
    IndexCases(x);
  }

  lemma Table4(x: bv6)
    ensures SBOX4[x as int] == Placed(S4[Entry(x) as int], 16)
  {
    hide Placed;
    BitsPlaced(S4[Entry(x) as int]);
    IndexCases(x);
  }

  lemma Table5(x: bv6)
    ensures SBOX5[x as int] == Placed(S5[Entry(x) as int], 12)
  {
    hide Placed;
    BitsPlaced(S5[Entry(x) as int]);
    IndexCases(x);
  }

  lemma Table6(x: bv6)
    ensures SBOX6[x as int] == Placed(S6[Entry(x) as int], 8)
  {
    hide Placed;
    BitsPlaced(S6[Entry(x) as int]);
    IndexCases(x);
  }

  lemma Table7(x: bv6)
    ensures SBOX7[x as int] == Placed(S7[Entry(x) as int], 4)
  {
    hide Placed;
    BitsPlaced(S7[Entry(x) as int]);
    IndexCases(x);
  }

  lemma Table8(x: bv6)
    ensures SBOX8[x as int] == Placed(S8[Entry(x) as int], 0)
  {
    hide Placed;
    BitsPlaced(S8[Entry(x) as int]);
    IndexCases(x);
  }

  /** Each table is its selection function, followed by P and the rotation. */
  lemma BoxesAreS(x: bv6)
    ensures Box1(x) == Placed(Sbox1(x), 28)
    ensures Box2(x) == Placed(Sbox2(x), 24)
    ensures Box3(x) == Placed(Sbox3(x), 20)
    ensures Box4(x) == Placed(Sbox4(x), 16)
    ensures Box5(x) == Placed(Sbox5(x), 12)
    ensures Box6(x) == Placed(Sbox6(x), 8)
    ensures Box7(x) == Placed(Sbox7(x), 4)
    ensures Box8(x) == Placed(Sbox8(x), 0)
  {
    hide Placed, Entry;
    Table1(x);
    Table2(x);
    Table3(x);
    Table4(x);
    Table5(x);
    Table6(x);
    Table7(x);
    Table8(x);
  }

  // ----- the round -----

  /** The six-bit groups of the two words of a subkey, in the order of the standard. */
  function Packed(k: Subkey): bv48 {
    (((k.key1 >> 24) & 0x3f) as bv48 << 42) | (((k.key0 >> 24) & 0x3f) as bv48 << 36)
    | (((k.key1 >> 16) & 0x3f) as bv48 << 30) | (((k.key0 >> 16) & 0x3f) as bv48 << 24)
    | (((k.key1 >> 8) & 0x3f) as bv48 << 18) | (((k.key0 >> 8) & 0x3f) as bv48 << 12)
    | ((k.key1 & 0x3f) as bv48 << 6) | (k.key0 & 0x3f) as bv48
  }

  function Mixed48(x: bv48, key: bv48): bv48 { x ^ key }
  function Mixed6(x: bv6, key: bv6): bv6 { x ^ key }

  lemma IndexXor(a: bv32, b: bv32, shift: bv5)
    requires shift == 0 || shift == 8 || shift == 16 || shift == 24
    ensures Index(Xor(a, b), shift) == Mixed6(Index(a, shift), Index(b, shift))
  {
    if shift == 0 {} else if shift == 8 {} else if shift == 16 {} else {}
  }

  lemma SixXor(a: bv48, b: bv48, n: bv4)
    requires n < 8
    ensures Six(Mixed48(a, b), n) == Mixed6(Six(a, n), Six(b, n))
  {
    if n < 4 {
      if n == 0 {} else if n == 1 {} else if n == 2 {} else {}
    } else {
      if n == 4 {} else if n == 5 {} else if n == 6 {} else {}
    }
  }

  lemma ExpandedGroups(r: bv32)
    ensures Grouped(Rot(r), Turned(Rot(r)), Expanded(r))
  {
    hide Expanded, Rot, Turned, Six, Index;
    OddGroups(r);
    EvenGroups(r);
  }

  lemma OddGroups(r: bv32)
    ensures var e, from := Expanded(r), Rot(r);
      && Six(e, 1) == Index(from, 24) && Six(e, 3) == Index(from, 16) && Six(e, 5) == Index(from, 8) && Six(e, 7) == Index(from, 0)
  {
  }

  lemma EvenGroups(r: bv32)
    ensures var e, turned := Expanded(r), Turned(Rot(r));
      && Six(e, 0) == Index(turned, 24) && Six(e, 2) == Index(turned, 16)
      && Six(e, 4) == Index(turned, 8) && Six(e, 6) == Index(turned, 0)
  {
  }

  lemma PackedGroups(k: Subkey)
    ensures Grouped(k.key0, k.key1, Packed(k))
  {
  }

  /** The two work words `a` and `b` hold the groups of `x`. */
  predicate Grouped(a: bv32, b: bv32, x: bv48) {
    && Index(b, 24) == Six(x, 0) && Index(a, 24) == Six(x, 1) && Index(b, 16) == Six(x, 2) && Index(a, 16) == Six(x, 3)
    && Index(b, 8) == Six(x, 4) && Index(a, 8) == Six(x, 5) && Index(b, 0) == Six(x, 6) && Index(a, 0) == Six(x, 7)
  }

  lemma GroupsMixed(a: bv32, b: bv32, x: bv48, key0: bv32, key1: bv32, k: bv48)
    requires Grouped(a, b, x) && Grouped(key0, key1, k)
    ensures Grouped(Xor(a, key0), Xor(b, key1), Mixed48(x, k))
  {
    hide Index, Six, Xor, Mixed48, Mixed6;
    PairMixed(a, b, x, key0, key1, k, 0, 24);
    PairMixed(a, b, x, key0, key1, k, 2, 16);
    PairMixed(a, b, x, key0, key1, k, 4, 8);
    PairMixed(a, b, x, key0, key1, k, 6, 0);
  }

  lemma PairMixed(a: bv32, b: bv32, x: bv48, key0: bv32, key1: bv32, k: bv48, n: bv4, shift: bv5)
    requires n < 7 && (shift == 0 || shift == 8 || shift == 16 || shift == 24)
    requires Index(b, shift) == Six(x, n) && Index(a, shift) == Six(x, n + 1)
    requires Index(key1, shift) == Six(k, n) && Index(key0, shift) == Six(k, n + 1)
    ensures Index(Xor(b, key1), shift) == Six(Mixed48(x, k), n)
    ensures Index(Xor(a, key0), shift) == Six(Mixed48(x, k), n + 1)
  {
    hide Index, Six, Xor, Mixed48, Mixed6;
    IndexXor(b, key1, shift);
    IndexXor(a, key0, shift);
    SixXor(x, k, n);
    SixXor(x, k, n + 1);
  }

  /** The work words of a round hold the groups of the expansion, mixed with those of the subkey. */
  lemma GroupsOfWork(r: bv32, k: Subkey)
    ensures Grouped(Xor(Rot(r), k.key0), Xor(Turned(Rot(r)), k.key1), Mixed48(Expanded(r), Packed(k)))
  {
    hide Expanded, Packed, Rot, Turned, Index, Six, Xor, Mixed48;
    ExpandedGroups(r);
    PackedGroups(k);
    GroupsMixed(Rot(r), Turned(Rot(r)), Expanded(r), k.key0, k.key1, Packed(k));
  }

  /** P and the rotation act on each of the eight outputs alone. */
  lemma JoinedPlaced(a: bv4, b: bv4, c: bv4, d: bv4, e: bv4, f: bv4, g: bv4, h: bv4)
    ensures Rot(P(Joined(a, b, c, d, e, f, g, h)))
            == Added(Placed(h, 0), Placed(f, 8), Placed(d, 16), Placed(b, 24), Placed(g, 4), Placed(e, 12), Placed(c, 20), Placed(a, 28))
  {
  }

  /** The entries looked up are the outputs of the selection functions, in their places. */
  lemma BoxesLookedUp(x: bv48)
    ensures Box1(Six(x, 0)) == Placed(Sbox1(Six(x, 0)), 28) && Box2(Six(x, 1)) == Placed(Sbox2(Six(x, 1)), 24)
    ensures Box3(Six(x, 2)) == Placed(Sbox3(Six(x, 2)), 20) && Box4(Six(x, 3)) == Placed(Sbox4(Six(x, 3)), 16)
    ensures Box5(Six(x, 4)) == Placed(Sbox5(Six(x, 4)), 12) && Box6(Six(x, 5)) == Placed(Sbox6(Six(x, 5)), 8)
    ensures Box7(Six(x, 6)) == Placed(Sbox7(Six(x, 6)), 4) && Box8(Six(x, 7)) == Placed(Sbox8(Six(x, 7)), 0)
  {
    hide Six, Placed, Box1, Box2, Box3, Box4, Box5, Box6, Box7, Box8,
         Sbox1, Sbox2, Sbox3, Sbox4, Sbox5, Sbox6, Sbox7, Sbox8;
    BoxesAreS(Six(x, 0));
    BoxesAreS(Six(x, 1));
    BoxesAreS(Six(x, 2));
    BoxesAreS(Six(x, 3));
    BoxesAreS(Six(x, 4));
    BoxesAreS(Six(x, 5));
    BoxesAreS(Six(x, 6));
    BoxesAreS(Six(x, 7));
  }

  lemma FIsJoined(r: bv32, k: bv48)
    ensures var x := Mixed48(Expanded(r), k);
      F(r, k) == P(Joined(Sbox1(Six(x, 0)), Sbox2(Six(x, 1)), Sbox3(Six(x, 2)), Sbox4(Six(x, 3)),
                          Sbox5(Six(x, 4)), Sbox6(Six(x, 5)), Sbox7(Six(x, 6)), Sbox8(Six(x, 7))))
  {
    hide Expanded, P, Joined, Six, Sbox1, Sbox2, Sbox3, Sbox4, Sbox5, Sbox6, Sbox7, Sbox8;
  }

  lemma GroupsLookedUp(a: bv32, b: bv32, x: bv48)
    requires Grouped(a, b, x)
    ensures LookedUp(a, b)
            == Added(Box8(Six(x, 7)), Box6(Six(x, 5)), Box4(Six(x, 3)), Box2(Six(x, 1)),
                     Box7(Six(x, 6)), Box5(Six(x, 4)), Box3(Six(x, 2)), Box1(Six(x, 0)))
  {
    hide Added, Six, Index, Box1, Box2, Box3, Box4, Box5, Box6, Box7, Box8;
  }

  /** What a round adds is the cipher function of the standard, rotated. */
  lemma MixIsF(r: bv32, k: Subkey)
    ensures Mix(Rot(r), k.key0, k.key1) == Rot(F(r, Packed(k)))
  {
    hide F, Expanded, Packed, Rot, Turned, Placed, Joined, P, Six, Index, Xor, Mixed48, Added, LookedUp, Grouped,
         Sbox1, Sbox2, Sbox3, Sbox4, Sbox5, Sbox6, Sbox7, Sbox8,
         Box1, Box2, Box3, Box4, Box5, Box6, Box7, Box8;
    var x := Mixed48(Expanded(r), Packed(k));
    GroupsOfWork(r, k);
    GroupsLookedUp(Xor(Rot(r), k.key0), Xor(Turned(Rot(r)), k.key1), x);
    BoxesLookedUp(x);
    FIsJoined(r, Packed(k));
    JoinedPlaced(Sbox1(Six(x, 0)), Sbox2(Six(x, 1)), Sbox3(Six(x, 2)), Sbox4(Six(x, 3)),
                 Sbox5(Six(x, 4)), Sbox6(Six(x, 5)), Sbox7(Six(x, 6)), Sbox8(Six(x, 7)));
  }

  // ----- the key schedule -----

  lemma ChosenIsPC1(raw: seq<bv8>)
    requires |raw| == 8
    ensures Chosen(raw) == PC1(ReadWords(raw))
  {
    hide ReadWords, Chosen;
    ChosenIsBits(raw);
    BitsArePC1(ReadWords(raw));
  }

  lemma BitsArePC1(k: Words)
    ensures ChosenBits(Exchanged(k)) == PC1(k)
  {
  }

  lemma SubkeyIsPC2(h: Words)
    ensures Packed(SubkeyFrom(h)) == PC2(h)
  {
  }

  lemma RotateIsShift(x: bv32)
    requires x <= 0x0fff_ffff
    ensures Rotate28(x, 1) == ShiftedOnce(x) <= 0x0fff_ffff
    ensures Rotate28(x, 2) == ShiftedOnce(ShiftedOnce(x)) <= 0x0fff_ffff
  {
  }

  lemma RotationTable(n: nat)
    requires 1 <= n <= 16
    ensures ROTATE[n - 1] == if n in {1, 2, 9, 16} then 1 else 2
  {
  }

  lemma {:induction false} HalvesMatch(raw: seq<bv8>, n: nat)
    requires |raw| == 8 && n <= 16
    ensures HalvesAfter(raw, n) == Halves(ReadWords(raw), n)
    ensures HalvesAfter(raw, n).left <= 0x0fff_ffff && HalvesAfter(raw, n).right <= 0x0fff_ffff
  {
    hide ReadWords, Chosen, PC1, Rotate28, ShiftedOnce;
    if n == 0 {
      ChosenIsPC1(raw);
      ChosenIsSmall(raw);
    } else {
      HalvesMatch(raw, n - 1);
      RotationTable(n);
      var h := HalvesAfter(raw, n - 1);
      RotateIsShift(h.left);
      RotateIsShift(h.right);
    }
  }

  lemma ChosenIsSmall(raw: seq<bv8>)
    requires |raw| == 8
    ensures Chosen(raw).left <= 0x0fff_ffff && Chosen(raw).right <= 0x0fff_ffff
  {
  }

  ghost function AllPacked(keys: seq<Subkey>): (ks: seq<bv48>)
    ensures |ks| == |keys| && forall i :: 0 <= i < |ks| ==> ks[i] == Packed(keys[i])
  {
    seq(|keys|, i requires 0 <= i < |keys| => Packed(keys[i]))
  }

  /** The sixteen subkeys are those of the standard. */
  lemma ScheduleIsStandard(raw: seq<bv8>)
    requires |raw| == 8
    ensures AllPacked(KeySchedule(raw)) == Subkeys(ReadWords(raw))
  {
    hide Packed, SubkeyFrom, PC2, ReadWords, HalvesAfter, Halves;
    forall i | 0 <= i < 16
      ensures AllPacked(KeySchedule(raw))[i] == Subkeys(ReadWords(raw))[i]
    {
      HalvesMatch(raw, i + 1);
      SubkeyIsPC2(HalvesAfter(raw, i + 1));
    }
  }

  // ----- whole blocks -----

  lemma RotXor(x: bv32, y: bv32)
    ensures Rot(Xor(x, y)) == Xor(Rot(x), Rot(y))
  {
  }

  /** A round of the standard, on words as the code keeps them: it exchanges nothing, but goes into the word that is due. */
  lemma RoundIsStandard(v: Words, k: Subkey)
    ensures var next := Words(v.right, Xor(v.left, F(v.right, Packed(k))));
      Round(RotBoth(v), true, k) == RotBoth(Swap(next)) && Round(RotBoth(Swap(v)), false, k) == RotBoth(next)
  {
    hide Mix, F, Packed, Rot, Xor;
    MixIsF(v.right, k);
    RotXor(v.left, F(v.right, Packed(k)));
  }

  lemma {:induction false} TurnsAreRounds(w: Words, keys: seq<Subkey>)
    requires |keys| <= 16
    ensures var v := Rounds(w, AllPacked(keys));
      Turns(RotBoth(w), Schedule(keys)) == RotBoth(if |keys| % 2 == 0 then v else Swap(v))
  {
    hide Round, F, Packed, RotBoth;
    if keys != [] {
      var n := |keys| - 1;
      TurnsAreRounds(w, keys[..n]);
      assert Schedule(keys)[..n] == Schedule(keys[..n]);
      assert AllPacked(keys)[..n] == AllPacked(keys[..n]);
      RoundIsStandard(Rounds(w, AllPacked(keys[..n])), keys[n]);
    }
  }

  lemma CryptIsCipher(w: Words, keys: seq<Subkey>)
    requires |keys| == 16
    ensures Crypt(w, keys) == Cipher(w, AllPacked(keys))
  {
    hide InitialPermutation, FinalPermutation, IP, InverseIP, Rounds, Turns, Schedule, Rot;
    InitialIsIP(w);
    TurnsAreRounds(IP(w), keys);
    FinalIsInverseIP(Swap(Rounds(IP(w), AllPacked(keys))));
  }

  /** A block enciphered with a key is what the standard makes of it. */
  lemma DesIsStandard(raw: seq<bv8>, from: seq<bv8>)
    requires |raw| == |from| == 8
    ensures CryptBlock(from, KeySchedule(raw)) == WriteWords(Cipher(ReadWords(from), Subkeys(ReadWords(raw))))
  {
    hide Crypt, Cipher, ReadWords, WriteWords, KeySchedule;
    ScheduleLength(raw);
    CryptIsCipher(ReadWords(from), KeySchedule(raw));
    ScheduleIsStandard(raw);
  }

  lemma PackedBackwards(keys: seq<Subkey>)
    ensures AllPacked(Backwards(keys)) == Reverse(AllPacked(keys))
  {
    hide Packed;
  }

  /** The 48 rounds of triple DES are the three passes of the standard. */
  lemma TripleIsStandard(raw1: seq<bv8>, raw2: seq<bv8>, raw3: seq<bv8>, from: seq<bv8>)
    requires |raw1| == |raw2| == |raw3| == |from| == 8
    ensures CryptBlock(from, KeySchedule(raw1) + Backwards(KeySchedule(raw2)) + KeySchedule(raw3))
            == WriteWords(TripleCipher(ReadWords(from), Subkeys(ReadWords(raw1)), Subkeys(ReadWords(raw2)), Subkeys(ReadWords(raw3))))
  {
    hide Crypt, Cipher, ReadWords, WriteWords, KeySchedule, AllPacked, Backwards, Subkeys;
    var a, b, c := KeySchedule(raw1), KeySchedule(raw2), KeySchedule(raw3);
    ScheduleLength(raw1);
    ScheduleLength(raw2);
    ScheduleLength(raw3);
    BackwardsLength(b);
    ScheduleIsStandard(raw1);
    ScheduleIsStandard(raw2);
    ScheduleIsStandard(raw3);
    PackedBackwards(b);
    var w := ReadWords(from);
    TripleIsThreePasses(w, a, Backwards(b), c);
    CryptIsCipher(w, a);
    CryptIsCipher(Crypt(w, a), Backwards(b));
    CryptIsCipher(Crypt(Crypt(w, a), Backwards(b)), c);
  }

  lemma BackwardsLength(keys: seq<Subkey>)
    ensures |Backwards(keys)| == |keys|
  {
  }

  /** gl_des_setkey and gl_des_ecb_crypt together. */
  method Encipher(key: seq<bv8>, x: seq<bv8>) returns (y: seq<bv8>)
    requires |key| == |x| == 8
    ensures y == WriteWords(Cipher(ReadWords(x), Subkeys(ReadWords(key))))
  {
    hide KeySchedule, CryptBlock, Pairs, Cipher, ReadWords, WriteWords, Subkeys;
    DesIsStandard(key, x);
    var ctx := new Context(false);
    ctx.SetKey(key);
    y := ctx.EcbCrypt(x, false);
  }

  /** gl_3des_set3keys and gl_3des_ecb_crypt together. */
  method EncipherTriple(key1: seq<bv8>, key2: seq<bv8>, key3: seq<bv8>, x: seq<bv8>) returns (y: seq<bv8>)
    requires |key1| == |key2| == |key3| == |x| == 8
    ensures y == WriteWords(TripleCipher(ReadWords(x), Subkeys(ReadWords(key1)), Subkeys(ReadWords(key2)), Subkeys(ReadWords(key3))))
  {
    hide KeySchedule, CryptBlock, Pairs, TripleCipher, ReadWords, WriteWords, Subkeys, Backwards;
    TripleIsStandard(key1, key2, key3, x);
    var ctx := new Context(true);
    ctx.SetThreeKeys(key1, key2, key3);
    y := ctx.EcbCrypt(x, false);
  }
}
